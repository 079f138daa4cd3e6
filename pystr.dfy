/** The Python str operations the pipeline relies on, over ASCII text:
    strip, find, split, replace, isdigit, int() and the plain decimal
    numerals that `float()` reads exactly. */
module PyStr {
  import opened Common

  /** str.isspace on ASCII: the space, \t \n \v \f \r (9 to 13) and the
      separators 28 to 31. */
  predicate IsSpace(c: char) {
    c == ' ' || 9 <= c as int <= 13 || 28 <= c as int <= 31
  }

  /** str.isdigit on ASCII. */
  predicate IsDigit(c: char) {
    '0' <= c <= '9'
  }

  predicate AllDigits(s: string) {
    forall i :: 0 <= i < |s| ==> IsDigit(s[i])
  }

  predicate AllSpace(s: string) {
    forall i :: 0 <= i < |s| ==> IsSpace(s[i])
  }

  /** The shape str.strip() leaves: no whitespace at either end. */
  predicate Trimmed(s: string) {
    s == [] || (!IsSpace(s[0]) && !IsSpace(s[|s| - 1]))
  }

  // ---------------------------------------------------------------- strip

  /** str.lstrip() with no argument. */
  function LStrip(s: string): string {
    if s != [] && IsSpace(s[0]) then LStrip(s[1..]) else s
  }

  /** str.rstrip() with no argument. */
  function RStrip(s: string): string {
    if s != [] && IsSpace(s[|s| - 1]) then RStrip(s[..|s| - 1]) else s
  }

  /** lstrip() drops a run of whitespace from the front and stops at the
      first other character. */
  lemma {:induction false} LStripShape(s: string)
    ensures var r := LStrip(s);
      && |r| <= |s| && r == s[|s| - |r|..]
      && AllSpace(s[..|s| - |r|])
      && (r == [] || !IsSpace(r[0]))
  {
    if s != [] && IsSpace(s[0]) {
      LStripShape(s[1..]);
      var r := LStrip(s);
      assert s[1..][|s| - 1 - |r|..] == s[|s| - |r|..];
      assert s[..|s| - |r|] == [s[0]] + s[1..][..|s| - 1 - |r|];
    } else {
      assert s[..0] == [];
    }
  }

  /** rstrip() drops a run of whitespace from the back and stops at the
      last other character. */
  lemma {:induction false} RStripShape(s: string)
    ensures var r := RStrip(s);
      && |r| <= |s| && r == s[..|r|]
      && AllSpace(s[|r|..])
      && (r == [] || !IsSpace(r[|r| - 1]))
  {
    if s != [] && IsSpace(s[|s| - 1]) {
      RStripShape(s[..|s| - 1]);
      var r := RStrip(s);
      assert s[..|s| - 1][..|r|] == s[..|r|];
      assert s[|r|..] == s[..|s| - 1][|r|..] + [s[|s| - 1]];
    } else {
      assert s[|s|..] == [];
    }
  }

  /** str.strip() with no argument. */
  function Strip(s: string): (r: string)
    ensures Trimmed(r)
  {
    LStripShape(s);
    RStripShape(LStrip(s));
    RStrip(LStrip(s))
  }

  /** strip() only removes characters: everything it keeps comes from `s`. */
  lemma StripInside(s: string, c: char)
    requires c in Strip(s)
    ensures c in s
  {
    var l := LStrip(s);
    var r := RStrip(l);
    LStripShape(s);
    RStripShape(l);
    var i :| 0 <= i < |r| && r[i] == c;
    assert r[i] == l[i] == s[|s| - |l| + i];
  }

  lemma {:induction false} LStripSpaces(w: string, u: string)
    requires AllSpace(w) && (u == [] || !IsSpace(u[0]))
    ensures LStrip(w + u) == u
  {
    if w == [] {
      assert w + u == u;
    } else {
      assert (w + u)[1..] == w[1..] + u;
      LStripSpaces(w[1..], u);
    }
  }

  lemma {:induction false} RStripSpaces(u: string, w: string)
    requires AllSpace(w) && (u == [] || !IsSpace(u[|u| - 1]))
    ensures RStrip(u + w) == u
  {
    if w == [] {
      assert u + w == u;
    } else {
      assert (u + w)[..|u + w| - 1] == u + w[..|w| - 1];
      RStripSpaces(u, w[..|w| - 1]);
    }
  }

  /** strip() removes exactly the surrounding whitespace: whitespace, then
      trimmed text, then whitespace strips to that text. */
  lemma StripPadded(w1: string, t: string, w2: string)
    requires AllSpace(w1) && AllSpace(w2) && Trimmed(t)
    ensures Strip(w1 + t + w2) == t
  {
    if t == [] {
      assert w1 + t + w2 == (w1 + w2) + [];
      LStripSpaces(w1 + w2, []);
    } else {
      assert w1 + t + w2 == w1 + (t + w2);
      LStripSpaces(w1, t + w2);
      RStripSpaces(t, w2);
    }
  }

  /** Text that is already trimmed is left alone; in particular strip() is idempotent. */
  lemma StripTrimmed(s: string)
    requires Trimmed(s)
    ensures Strip(s) == s
  {
    StripPadded([], s, []);
    assert [] + s + [] == s;
  }

  // ----------------------------------------------------------------- find

  /** `sep` occurs in `s` starting at index `i`. */
  predicate OccursAt(s: string, sep: string, i: int) {
    0 <= i && i + |sep| <= |s| && s[i..i + |sep|] == sep
  }

  function FindFrom(s: string, sep: string, from: nat): (r: Option<nat>)
    ensures r.Some? ==> from <= r.value && OccursAt(s, sep, r.value)
    ensures r.Some? ==> forall j :: from <= j < r.value ==> !OccursAt(s, sep, j)
    ensures r.None? ==> forall j :: from <= j ==> !OccursAt(s, sep, j)
    decreases |s| + 1 - from
  {
    if from + |sep| > |s| then None
    else if s[from..from + |sep|] == sep then Some(from)
    else FindFrom(s, sep, from + 1)
  }

  /** str.find: the first index at which `sep` occurs, if any. */
  function Find(s: string, sep: string): (r: Option<nat>)
    ensures r.Some? ==> OccursAt(s, sep, r.value)
    ensures r.Some? ==> forall j :: 0 <= j < r.value ==> !OccursAt(s, sep, j)
    ensures r.None? <==> forall j :: 0 <= j ==> !OccursAt(s, sep, j)
  {
    FindFrom(s, sep, 0)
  }

  /** The first index of the character `c`, if any. */
  function FindChar(s: string, c: char): (r: Option<nat>)
    ensures r.Some? ==> r.value < |s| && s[r.value] == c && c !in s[..r.value]
    ensures r.None? <==> c !in s
  {
    if s == [] then None
    else if s[0] == c then Some(0)
    else match FindChar(s[1..], c)
      case None => None
      case Some(k) =>
        assert s[..k + 1] == [s[0]] + s[1..][..k];
        Some(k + 1)
  }

  // ---------------------------------------------------------------- split

  /** Glue `parts` back together with `sep` between neighbours: "sep".join(parts). */
  function Join(parts: seq<string>, sep: string): string {
    if parts == [] then []
    else if |parts| == 1 then parts[0]
    else parts[0] + sep + Join(parts[1..], sep)
  }

  /** str.split(sep) for a non-empty separator: the pieces between the
      non-overlapping occurrences of `sep`, taken from the left. */
  function Split(s: string, sep: string): (parts: seq<string>)
    requires sep != []
    ensures |parts| >= 1
    ensures Join(parts, sep) == s
    decreases |s|
  {
    match Find(s, sep)
    case None => [s]
    case Some(i) =>
      var rest := Split(s[i + |sep|..], sep);
      assert s == s[..i] + sep + s[i + |sep|..] by {
        assert s[i..i + |sep|] == sep;
        assert s == s[..i] + s[i..i + |sep|] + s[i + |sep|..];
      }
      assert ([s[..i]] + rest)[1..] == rest;
      [s[..i]] + rest
  }

  /** The text before the first `sep`, or all of `s` when there is none. */
  function BeforeFirst(s: string, sep: string): string {
    match Find(s, sep)
    case None => s
    case Some(i) => s[..i]
  }

  /** The text after the first `sep`, or nothing when there is none. */
  function AfterFirst(s: string, sep: string): string {
    match Find(s, sep)
    case None => []
    case Some(i) => s[i + |sep|..]
  }

  /** Indexing the first two pieces of a split: piece 0 is the text before the
      first separator, piece 1 exists exactly when the separator occurs and is
      the text between its first and second occurrences. */
  lemma SplitFirstTwo(s: string, sep: string)
    requires sep != []
    ensures Split(s, sep)[0] == BeforeFirst(s, sep)
    ensures |Split(s, sep)| >= 2 <==> Find(s, sep).Some?
    ensures |Split(s, sep)| >= 2 ==> Split(s, sep)[1] == BeforeFirst(AfterFirst(s, sep), sep)
  {
  }

  /** Splitting peels off the text before the first separator and splits the rest. */
  lemma SplitTail(s: string, sep: string)
    requires sep != [] && Find(s, sep).Some?
    ensures Split(s, sep) == [BeforeFirst(s, sep)] + Split(AfterFirst(s, sep), sep)
  {
  }

  /** A one-character separator occurs exactly when that character does. */
  lemma FindOneChar(s: string, c: char)
    ensures Find(s, [c]).Some? <==> c in s
  {
    if c in s {
      var k :| 0 <= k < |s| && s[k] == c;
      assert s[k..k + 1] == [c];
      assert OccursAt(s, [c], k);
    }
    if Find(s, [c]).Some? {
      var j := Find(s, [c]).value;
      assert s[j..j + 1][0] == s[j];
    }
  }

  lemma OccursInPrefix(s: string, i: nat, sep: string, j: int)
    requires i <= |s| && OccursAt(s[..i], sep, j)
    ensures OccursAt(s, sep, j) && j + |sep| <= i
  {
    assert s[..i][j..j + |sep|] == s[j..j + |sep|];
  }

  /** No piece of a split contains the separator. */
  lemma {:induction false} SplitPiecesFree(s: string, sep: string)
    requires sep != []
    ensures forall k :: 0 <= k < |Split(s, sep)| ==> Find(Split(s, sep)[k], sep).None?
    decreases |s|
  {
    match Find(s, sep)
    case None =>
    case Some(i) =>
      SplitPiecesFree(s[i + |sep|..], sep);
      forall j | 0 <= j
        ensures !OccursAt(s[..i], sep, j)
      {
        if OccursAt(s[..i], sep, j) {
          OccursInPrefix(s, i, sep, j);
        }
      }
      assert Split(s, sep) == [s[..i]] + Split(s[i + |sep|..], sep);
  }

  /** A separator whose first character is absent from `s` does not occur in it. */
  lemma FindMissingLead(s: string, sep: string)
    requires sep != [] && sep[0] !in s
    ensures Find(s, sep).None?
  {
    forall j | 0 <= j
      ensures !OccursAt(s, sep, j)
    {
      if j + |sep| <= |s| {
        assert s[j..j + |sep|][0] == s[j];
      }
    }
  }

  /** Text, one separator, text: splitting gives the two sides back, provided
      the separator cannot start inside the left side or occur in the right. */
  lemma SplitAtSep(a: string, sep: string, b: string)
    requires sep != [] && sep[0] !in a && Find(b, sep).None?
    ensures Split(a + sep + b, sep) == [a, b]
  {
    var s := a + sep + b;
    forall j | 0 <= j < |a|
      ensures !OccursAt(s, sep, j)
    {
      if j + |sep| <= |s| {
        assert s[j..j + |sep|][0] == s[j] == a[j];
      }
    }
    assert s[|a|..|a| + |sep|] == sep;
    assert OccursAt(s, sep, |a|);
    assert Find(s, sep) == Some(|a|);
    assert s[..|a|] == a;
    assert s[|a| + |sep|..] == b;
  }

  /** str.replace(pat, rep) for a non-empty `pat`: every non-overlapping
      occurrence, taken from the left, replaced. */
  function ReplaceAll(s: string, pat: string, rep: string): (r: string)
    requires pat != []
    ensures Find(s, pat).None? ==> r == s
  {
    Join(Split(s, pat), rep)
  }

  /** Deleting a pattern from text that is the pattern followed by text
      free of it leaves that text. */
  lemma DeleteLeading(pat: string, t: string)
    requires pat != [] && Find(t, pat).None?
    ensures ReplaceAll(pat + t, pat, []) == t
  {
    var s := pat + t;
    assert s[0..|pat|] == pat;
    assert OccursAt(s, pat, 0);
    assert Find(s, pat) == Some(0);
    assert s[|pat|..] == t;
    assert Split(s, pat) == [[], t];
    assert Join([[], t], []) == [] + [] + Join([t], []);
  }

  /** Deleting a pattern from text followed by the pattern leaves the text,
      provided the pattern cannot start inside it. */
  lemma DeleteTrailing(t: string, pat: string)
    requires pat != [] && pat[0] !in t
    ensures ReplaceAll(t + pat, pat, []) == t
  {
    SplitAtSep(t, pat, []);
    assert t + pat + [] == t + pat;
    assert Join([t, []], []) == t + [] + Join([[]], []);
  }

  /** str.replace(c, "", 1): the first occurrence of `c` dropped. */
  function RemoveFirst(s: string, c: char): (r: string)
    ensures c !in s ==> r == s
    ensures c in s ==> |r| == |s| - 1
  {
    match FindChar(s, c)
    case None => s
    case Some(i) => s[..i] + s[i + 1..]
  }

  /** str.endswith. */
  predicate EndsWith(s: string, suffix: string) {
    |suffix| <= |s| && s[|s| - |suffix|..] == suffix
  }

  // -------------------------------------------------------------- numbers

  function DigitValue(c: char): nat
    requires IsDigit(c)
  {
    c as int - '0' as int
  }

  /** The value of a string of decimal digits (0 for the empty string). */
  function DigitsValue(s: string): nat
    requires AllDigits(s)
    decreases |s|
  {
    if s == [] then 0 else DigitsValue(s[..|s| - 1]) * 10 + DigitValue(s[|s| - 1])
  }

  /** str(n) for a natural number. */
  function NatToString(n: nat): (r: string)
    ensures r != [] && AllDigits(r)
  {
    if n < 10 then ['0' + n as char]
    else NatToString(n / 10) + ['0' + (n % 10) as char]
  }

  lemma {:induction false} DigitsOfNat(n: nat)
    ensures DigitsValue(NatToString(n)) == n
  {
    if n >= 10 {
      var s := NatToString(n);
      assert s[..|s| - 1] == NatToString(n / 10);
      DigitsOfNat(n / 10);
    }
  }

  function Pow10(k: nat): (r: nat)
    ensures r >= 1
  {
    if k == 0 then 1 else 10 * Pow10(k - 1)
  }

  /** The body of an int() literal: digits, with single underscores allowed
      between two digits. */
  predicate IntBody(b: string) {
    && b != []
    && IsDigit(b[0])
    && IsDigit(b[|b| - 1])
    && (forall i :: 0 <= i < |b| ==> IsDigit(b[i]) || b[i] == '_')
    && (forall i :: 0 <= i < |b| - 1 && b[i] == '_' ==> IsDigit(b[i + 1]))
  }

  function DropUnderscores(s: string): (r: string)
    ensures (forall i :: 0 <= i < |s| ==> IsDigit(s[i]) || s[i] == '_') ==> AllDigits(r)
    ensures AllDigits(s) ==> r == s
  {
    if s == [] then [] else (if s[0] == '_' then [] else [s[0]]) + DropUnderscores(s[1..])
  }

  /** Python's int() on a str in base 10: surrounding whitespace, an optional
      sign, then digits with single underscores between them; None where it
      raises ValueError. */
  function PyInt(s: string): (r: Option<int>)
    ensures Strip(s) == [] ==> r.None?
  {
    var t := Strip(s);
    var body := if t != [] && (t[0] == '-' || t[0] == '+') then t[1..] else t;
    if !IntBody(body) then None
    else
      var n: int := DigitsValue(DropUnderscores(body));
      Some(if t[0] == '-' then -n else n)
  }

  /** int() of a plain run of digits is the number those digits denote. */
  lemma PyIntOfDigits(s: string)
    requires s != [] && AllDigits(s)
    ensures PyInt(s) == Some(DigitsValue(s))
  {
    StripTrimmed(s);
  }

  /** int(str(n)) == n. */
  lemma PyIntOfNat(n: nat)
    ensures PyInt(NatToString(n)) == Some(n)
  {
    PyIntOfDigits(NatToString(n));
    DigitsOfNat(n);
  }

  /** `v.replace(".", "", 1).isdigit()`: at least one character, and nothing
      but ASCII digits once the first dot is dropped. */
  predicate IsNumeral(v: string) {
    var d := RemoveFirst(v, '.');
    d != [] && AllDigits(d)
  }

  /** A numeral is made of digits and at most the one dot. */
  lemma NumeralChars(v: string)
    requires IsNumeral(v)
    ensures forall i :: 0 <= i < |v| ==> IsDigit(v[i]) || v[i] == '.'
  {
    var d := RemoveFirst(v, '.');
    match FindChar(v, '.')
    case None =>
    case Some(p) =>
      forall i | 0 <= i < |v| && v[i] != '.'
        ensures IsDigit(v[i])
      {
        if i < p {
          assert v[i] == d[i];
        } else {
          assert v[i] == d[i - 1];
        }
      }
  }

  /** The exact value of a numeral: its digits scaled down by the number of
      digits after the dot. */
  function NumeralValue(v: string): real
    requires IsNumeral(v)
  {
    match FindChar(v, '.')
    case None => DigitsValue(v) as real
    case Some(i) => DigitsValue(v[..i] + v[i + 1..]) as real / Pow10(|v| - i - 1) as real
  }

  /** A run of digits is a numeral worth the number those digits denote. */
  lemma NumeralOfDigits(s: string)
    requires s != [] && AllDigits(s)
    ensures IsNumeral(s) && NumeralValue(s) == DigitsValue(s) as real
  {
    assert '.' !in s by {
      assert forall i :: 0 <= i < |s| ==> IsDigit(s[i]);
    }
  }

  /** A float() that reads every plain numeral as its exact decimal value,
      as Python does up to IEEE rounding. */
  ghost predicate DecimalSound(toFloat: FloatParser) {
    forall v :: IsNumeral(v) ==> toFloat(v) == Some(NumeralValue(v))
  }
}
