/** The annotation line of a block, `[key : value] [key : value] ...`, read
    into a dict of typed values: parse_raw_metadata. The regular expression
    is modelled as the left-to-right scan it performs. */
module Annotation {
  import opened Common
  import opened PyStr

  /** A Python value as the pipeline stores it in a dict. */
  datatype Value = Int(i: int) | Float(r: real) | Str(s: string) | Null

  type Dict = map<string, Value>

  /** One match of the annotation pattern, key and value already stripped. */
  datatype Match = Match(key: string, value: string)

  // ------------------------------------------------------------- scanning

  /** The pattern `\[([^:]+)\s*:\s*([^\]]+)\]` matches at the start of `s`
      with its colon at `c` and its closing bracket at `b`: `c` is the first
      colon after the `[`, with at least one character before it, and `b` is
      the first `]` after that colon, with at least one character between.
      The key may contain `[` and `]`; the value may contain `:` and `[`. */
  predicate BracketAt(s: string, c: int, b: int) {
    && 0 < |s| && s[0] == '['
    && 2 <= c && c + 2 <= b < |s|
    && s[c] == ':' && (forall i :: 1 <= i < c ==> s[i] != ':')
    && s[b] == ']' && (forall i :: c < i < b ==> s[i] != ']')
  }

  /** The index of the first `ch` at or after `from`, or `|s|` when there is none. */
  function FirstFrom(s: string, ch: char, from: nat): (r: nat)
    requires from <= |s|
    ensures from <= r <= |s|
    ensures r < |s| ==> s[r] == ch
    ensures forall i :: from <= i < r ==> s[i] != ch
    decreases |s| - from
  {
    if from == |s| then |s|
    else if s[from] == ch then from
    else FirstFrom(s, ch, from + 1)
  }

  /** At most one match can start at a given position. */
  lemma BracketUnique(s: string, c: int, b: int, c': int, b': int)
    requires BracketAt(s, c, b) && BracketAt(s, c', b')
    ensures c == c' && b == b'
  {
  }

  /** The match of the pattern at the start of `s`, as colon and closing
      bracket positions. */
  function MatchHere(s: string): (r: Option<(nat, nat)>)
    ensures r.Some? ==> BracketAt(s, r.value.0, r.value.1)
    ensures r.None? ==> forall c, b :: !BracketAt(s, c, b)
  {
    if s == [] || s[0] != '[' then None
    else
      var c := FirstFrom(s, ':', 1);
      if c == |s| || c < 2 then None
      else
        var b := FirstFrom(s, ']', c + 1);
        if b == |s| || b < c + 2 then None else Some((c, b))
  }

  /** A character at none of the indices of a slice is absent from it. */
  lemma AbsentFromSlice(s: string, lo: int, hi: int, ch: char)
    requires 0 <= lo <= hi <= |s| && forall i :: lo <= i < hi ==> s[i] != ch
    ensures ch !in s[lo..hi]
  {
    forall k | 0 <= k < hi - lo
      ensures s[lo..hi][k] != ch
    {
      assert s[lo..hi][k] == s[lo + k];
    }
  }

  /** Stripping never brings in a character the text did not have. */
  lemma StripAvoids(s: string, ch: char)
    requires ch !in s
    ensures ch !in Strip(s)
  {
    if ch in Strip(s) {
      StripInside(s, ch);
    }
  }

  /** re.findall with the annotation pattern: the two groups of every match
      from left to right, resuming after each closing bracket and moving one
      character on wherever no match starts. The value group is recorded
      from just after the colon; the whitespace the pattern's `\s*` would
      leave out of it is removed by the strip() every group goes through.
      Every match takes at least five characters: `[`, a key, `:`, a value
      and `]`. */
  function Scan(s: string): (r: seq<Match>)
    ensures 5 * |r| <= |s|
    decreases |s|
  {
    if s == [] then []
    else match MatchHere(s)
      case Some((c, b)) => [Match(s[1..c], s[c + 1..b])] + Scan(s[b + 1..])
      case None => Scan(s[1..])
  }

  /** Every key group is non-empty and has no colon; every value group is
      non-empty and has no closing bracket. */
  lemma {:induction false} ScanShape(s: string)
    ensures forall m :: m in Scan(s) ==> m.key != [] && ':' !in m.key
    ensures forall m :: m in Scan(s) ==> m.value != [] && ']' !in m.value
    decreases |s|
  {
    if s != [] {
      match MatchHere(s)
      case Some((c, b)) =>
        AbsentFromSlice(s, 1, c, ':');
        AbsentFromSlice(s, c + 1, b, ']');
        ScanShape(s[b + 1..]);
      case None =>
        ScanShape(s[1..]);
    }
  }

  /** findall finds nothing exactly when the pattern matches at no position. */
  lemma {:induction false} ScanEmpty(s: string)
    ensures Scan(s) == [] <==> forall i :: 0 <= i < |s| ==> MatchHere(s[i..]).None?
    decreases |s|
  {
    if s != [] {
      assert s[0..] == s;
      if MatchHere(s).None? {
        ScanEmpty(s[1..]);
        assert (forall i :: 0 <= i < |s| - 1 ==> MatchHere(s[1..][i..]).None?)
          <==> (forall i :: 1 <= i < |s| ==> MatchHere(s[i..]).None?) by {
          forall i | 1 <= i < |s|
            ensures s[1..][i - 1..] == s[i..]
          {
          }
          if forall i :: 1 <= i < |s| ==> MatchHere(s[i..]).None? {
            forall i | 0 <= i < |s| - 1 ensures MatchHere(s[1..][i..]).None? {
              assert s[1..][i..] == s[i + 1..];
            }
          }
        }
      }
    }
  }

  /** The text one entry is written as: `[key:value]`. */
  function Entry(m: Match): string {
    "[" + m.key + ":" + m.value + "]"
  }

  /** The text an entry list is written as, entry after entry. */
  function Render(ms: seq<Match>): string {
    if ms == [] then [] else Entry(ms[0]) + Render(ms[1..])
  }

  /** An entry the pattern reads back as written: a non-empty key without a
      colon and a non-empty value without a closing bracket. */
  predicate Renderable(m: Match) {
    m.key != [] && ':' !in m.key && m.value != [] && ']' !in m.value
  }

  /** The pattern matches a written entry with its colon right after the key
      and its bracket right after the value. */
  lemma MatchEntry(m: Match, rest: string)
    requires Renderable(m)
    ensures var s := Entry(m) + rest;
      var c := 1 + |m.key|;
      var b := c + 1 + |m.value|;
      && MatchHere(s) == Some((c, b))
      && s[1..c] == m.key && s[c + 1..b] == m.value && s[b + 1..] == rest
  {
    var s := Entry(m) + rest;
    var c := 1 + |m.key|;
    var b := c + 1 + |m.value|;
    assert s[1..c] == m.key;
    assert s[c + 1..b] == m.value;
    assert s[b + 1..] == rest;
    assert s[c] == ':' && s[b] == ']';
    forall i | 1 <= i < c
      ensures s[i] != ':'
    {
      assert s[i] == m.key[i - 1];
    }
    forall i | c < i < b
      ensures s[i] != ']'
    {
      assert s[i] == m.value[i - c - 1];
    }
    assert BracketAt(s, c, b);
    BracketUnique(s, c, b, MatchHere(s).value.0, MatchHere(s).value.1);
  }

  /** Scanning a written entry gives it back, then scanning goes on after it. */
  lemma ScanEntry(m: Match, rest: string)
    requires Renderable(m)
    ensures Scan(Entry(m) + rest) == [m] + Scan(rest)
  {
    MatchEntry(m, rest);
  }

  /** Scanning the written form of well-formed entries gives them back, in
      order and with duplicates kept. */
  lemma {:induction false} ScanRender(ms: seq<Match>)
    requires forall m :: m in ms ==> Renderable(m)
    ensures Scan(Render(ms)) == ms
  {
    if ms != [] {
      assert ms[0] in ms;
      ScanEntry(ms[0], Render(ms[1..]));
      ScanRender(ms[1..]);
    }
  }

  /** Text without an opening bracket holds no match, so the scan passes
      over it one character at a time. */
  lemma {:induction false} ScanSkipText(t: string, rest: string)
    requires '[' !in t
    ensures Scan(t + rest) == Scan(rest)
    decreases |t|
  {
    if t != [] {
      var s := t + rest;
      assert s[0] == t[0] && s[1..] == t[1..] + rest;
      assert MatchHere(s).None?;
      assert Scan(s) == Scan(t[1..] + rest);
      ScanSkipText(t[1..], rest);
    } else {
      assert t + rest == rest;
    }
  }

  /** The text an entry list is written as with a separator after each
      entry, as the space between entries of an annotation line. */
  function RenderSep(ms: seq<Match>, sep: string): string {
    if ms == [] then [] else Entry(ms[0]) + sep + RenderSep(ms[1..], sep)
  }

  /** Entries written apart, by any separator without an opening bracket,
      scan back to exactly those entries, in order. */
  lemma {:induction false} ScanRenderSep(ms: seq<Match>, sep: string)
    requires forall m :: m in ms ==> Renderable(m)
    requires '[' !in sep
    ensures Scan(RenderSep(ms, sep)) == ms
  {
    if ms != [] {
      var tail := RenderSep(ms[1..], sep);
      assert ms[0] in ms;
      assert RenderSep(ms, sep) == Entry(ms[0]) + (sep + tail);
      ScanEntry(ms[0], sep + tail);
      ScanSkipText(sep, tail);
      ScanRenderSep(ms[1..], sep);
    }
  }

  // ------------------------------------------------------- classification

  /** A value splits at `/` into exactly two pieces when it has exactly one
      slash, and the pieces are then the texts on either side of it. */
  lemma RatioSplit(v: string)
    ensures |Split(v, "/")| == 2 <==> '/' in v && '/' !in AfterFirst(v, "/")
    ensures |Split(v, "/")| == 2 ==> Split(v, "/") == [BeforeFirst(v, "/"), AfterFirst(v, "/")]
  {
    SplitFirstTwo(v, "/");
    FindOneChar(v, '/');
    if '/' in v {
      var rest := AfterFirst(v, "/");
      FindOneChar(rest, '/');
      SplitTail(v, "/");
      SplitFirstTwo(rest, "/");
    }
  }

  /** The two floats of a ratio: splitting on `/` gives exactly two pieces
      and float() accepts both. Anything else is a ValueError, which the
      source catches. */
  function RatioParts(v: string, toFloat: FloatParser): (r: Option<(real, real)>)
    ensures r.Some? <==> && '/' in v && '/' !in AfterFirst(v, "/")
                         && toFloat(BeforeFirst(v, "/")).Some? && toFloat(AfterFirst(v, "/")).Some?
    ensures r.Some? ==> r.value == (toFloat(BeforeFirst(v, "/")).value, toFloat(AfterFirst(v, "/")).value)
  {
    RatioSplit(v);
    var parts := Split(v, "/");
    if |parts| == 2 && toFloat(parts[0]).Some? && toFloat(parts[1]).Some?
    then Some((toFloat(parts[0]).value, toFloat(parts[1]).value))
    else None
  }

  /** The value the loop of parse_raw_metadata stores for one stripped value
      text: an int or a float for a numeral, the quotient for a ratio of two
      floats, the text itself otherwise; a zero denominator raises. */
  function Classify(v: string, toFloat: FloatParser): (r: Result<Value>)
    ensures r.Ok? && r.value.Int? ==> IsNumeral(v) && '.' !in v && PyInt(v) == Some(r.value.i)
    ensures r.Ok? && r.value.Str? ==> r.value.s == v
    ensures r.Ok? ==> !r.value.Null?
    ensures r.Err? ==> r.error == ZeroDivisionError && '/' in v && !IsNumeral(v)
    ensures !IsNumeral(v) && '/' !in v ==> r == Ok(Str(v))
    ensures IsNumeral(v) && '.' !in v ==> PyInt(v).Some? && r == Ok(Int(PyInt(v).value))
    ensures IsNumeral(v) && '.' in v ==> r == Ok(Float(NumeralValue(v)))
  {
    if IsNumeral(v) then
      if '.' in v then Ok(Float(NumeralValue(v)))
      else
        PyIntOfDigits(v);
        Ok(Int(DigitsValue(v)))
    else if '/' in v then
      match RatioParts(v, toFloat)
      case Some((num, denom)) =>
        if denom == 0.0 then Err(ZeroDivisionError) else Ok(Float(num / denom))
      case None => Ok(Str(v))
    else Ok(Str(v))
  }

  /** A numeral containing a dot becomes the float that float() reads from it. */
  lemma ClassifyDecimal(v: string, toFloat: FloatParser)
    requires DecimalSound(toFloat)
    requires IsNumeral(v) && '.' in v
    ensures toFloat(v).Some? && Classify(v, toFloat) == Ok(Float(toFloat(v).value))
  {
  }

  /** int(str(n)) round trip: the decimal text of a natural number is
      classified back to that number. */
  lemma ClassifyNat(n: nat, toFloat: FloatParser)
    ensures Classify(NatToString(n), toFloat) == Ok(Int(n))
  {
    var v := NatToString(n);
    assert '.' !in v;
    DigitsOfNat(n);
  }

  /** A sign, an empty value or a lone dot is not a numeral: without a slash
      such a value stays the text it was, so `-75.5` remains a string. */
  lemma ClassifySignedOrEmpty(v: string, toFloat: FloatParser)
    requires v == [] || v == "." || v[0] == '-' || v[0] == '+'
    requires '/' !in v
    ensures Classify(v, toFloat) == Ok(Str(v))
  {
    if v != [] && v != "." {
      var d := RemoveFirst(v, '.');
      assert d != [] ==> d[0] == v[0] by {
        match FindChar(v, '.')
        case None =>
        case Some(i) => assert i != 0;
      }
    }
  }

  /** A slash anywhere makes a value non-numeric. */
  lemma SlashNotNumeral(v: string, k: nat)
    requires k < |v| && v[k] == '/'
    ensures !IsNumeral(v)
  {
    var d := RemoveFirst(v, '.');
    match FindChar(v, '.')
    case None =>
      assert d[k] == '/';
    case Some(i) =>
      var k' := if i < k then k - 1 else k;
      assert d[k'] == '/';
  }

  lemma SplitOnce(num: string, den: string, sep: char)
    requires sep !in num && sep !in den
    ensures Split(num + [sep] + den, [sep]) == [num, den]
  {
    var s := num + [sep] + den;
    forall j | 0 <= j < |num|
      ensures !OccursAt(s, [sep], j)
    {
      assert s[j..j + 1] == [num[j]];
    }
    assert OccursAt(s, [sep], |num|);
    assert Find(s, [sep]) == Some(|num|);
    assert s[|num| + 1..] == den;
    forall j | 0 <= j
      ensures !OccursAt(den, [sep], j)
    {
      assert j + 1 <= |den| ==> den[j..j + 1] == [den[j]];
    }
  }

  /** The pieces of a value with exactly one slash are the two sides. */
  lemma RatioOfOneSlash(num: string, den: string, toFloat: FloatParser)
    requires '/' !in num && '/' !in den
    ensures var v := num + "/" + den;
      && !IsNumeral(v) && '/' in v
      && RatioParts(v, toFloat) ==
           if toFloat(num).Some? && toFloat(den).Some?
           then Some((toFloat(num).value, toFloat(den).value)) else None
  {
    var v := num + "/" + den;
    SplitOnce(num, den, '/');
    assert v[|num|] == '/';
    SlashNotNumeral(v, |num|);
  }

  /** A value `num/den` with a single slash: when float() accepts both sides
      it becomes their quotient, or raises ZeroDivisionError for a zero
      denominator; when float() rejects either side the text is kept as is. */
  lemma ClassifyRatio(num: string, den: string, toFloat: FloatParser)
    requires '/' !in num && '/' !in den
    ensures var v := num + "/" + den;
      && (toFloat(num).Some? && toFloat(den).Some? && toFloat(den).value == 0.0 ==>
            Classify(v, toFloat) == Err(ZeroDivisionError))
      && (toFloat(num).Some? && toFloat(den).Some? && toFloat(den).value != 0.0 ==>
            Classify(v, toFloat) == Ok(Float(toFloat(num).value / toFloat(den).value)))
      && (toFloat(num).None? || toFloat(den).None? ==> Classify(v, toFloat) == Ok(Str(v)))
  {
    RatioOfOneSlash(num, den, toFloat);
  }

  /** A value with two or more slashes is never a ratio: it is kept as text. */
  lemma ClassifyManySlashes(v: string, toFloat: FloatParser)
    requires '/' in v && '/' in AfterFirst(v, "/")
    ensures Classify(v, toFloat) == Ok(Str(v))
  {
    var k :| 0 <= k < |v| && v[k] == '/';
    SlashNotNumeral(v, k);
    FindOneChar(v, '/');
    FindOneChar(AfterFirst(v, "/"), '/');
    SplitTail(v, "/");
    SplitFirstTwo(AfterFirst(v, "/"), "/");
    assert |Split(v, "/")| > 2;
  }

  // ------------------------------------------------------------ the dict

  /** What the loop does with one stripped value. */
  type Classifier = string -> Result<Value>

  /** The classification of parse_raw_metadata with the given float(). */
  function ValueClassifier(toFloat: FloatParser): Classifier {
    v => Classify(v, toFloat)
  }

  /** The dict the loop of parse_raw_metadata builds from the matches in
      order, both groups stripped (a later duplicate key overwrites), or the
      exception the first failing classification raises. It succeeds
      exactly when every stripped value classifies without raising. */
  function BuildMeta(ms: seq<Match>, classify: Classifier): (r: Result<Dict>)
    ensures r.Ok? ==> forall k :: 0 <= k < |ms| ==> classify(Strip(ms[k].value)).Ok?
    ensures r.Err? ==> exists k :: && 0 <= k < |ms| && classify(Strip(ms[k].value)) == Err(r.error)
                                   && forall j :: 0 <= j < k ==> classify(Strip(ms[j].value)).Ok?
    decreases |ms|
  {
    if ms == [] then Ok(map[])
    else
      var init := ms[..|ms| - 1];
      assert forall j :: 0 <= j < |init| ==> init[j] == ms[j];
      match BuildMeta(init, classify)
      case Err(e) => Err(e)
      case Ok(d) =>
        var m := ms[|ms| - 1];
        match classify(Strip(m.value))
        case Err(e) => Err(e)
        case Ok(v) => Ok(d[Strip(m.key) := v])
  }

  /** One more turn of the loop: the next match is classified and stored. */
  lemma BuildMetaNext(ms: seq<Match>, k: nat, classify: Classifier, d: Dict)
    requires k < |ms| && BuildMeta(ms[..k], classify) == Ok(d)
    ensures classify(Strip(ms[k].value)).Err? ==>
      BuildMeta(ms[..k + 1], classify) == Err(classify(Strip(ms[k].value)).error)
    ensures classify(Strip(ms[k].value)).Ok? ==>
      BuildMeta(ms[..k + 1], classify) == Ok(d[Strip(ms[k].key) := classify(Strip(ms[k].value)).value])
  {
    assert ms[..k + 1][..k] == ms[..k];
  }

  /** An exception raised on a prefix of the matches ends the loop there. */
  lemma {:induction false} BuildMetaErrSticks(ms: seq<Match>, k: nat, classify: Classifier)
    requires k <= |ms| && BuildMeta(ms[..k], classify).Err?
    ensures BuildMeta(ms, classify) == BuildMeta(ms[..k], classify)
    decreases |ms|
  {
    if k < |ms| {
      assert ms[..|ms| - 1][..k] == ms[..k];
      BuildMetaErrSticks(ms[..|ms| - 1], k, classify);
    } else {
      assert ms[..k] == ms;
    }
  }

  /** On success the dict has one key per distinct stripped key. */
  lemma {:induction false} BuildMetaKeys(ms: seq<Match>, classify: Classifier)
    requires BuildMeta(ms, classify).Ok?
    ensures BuildMeta(ms, classify).value.Keys == set m | m in ms :: Strip(m.key)
    decreases |ms|
  {
    if ms != [] {
      var init := ms[..|ms| - 1];
      var last := ms[|ms| - 1];
      assert (set m | m in ms :: Strip(m.key)) == (set m | m in init :: Strip(m.key)) + {Strip(last.key)} by {
        assert ms == init + [last];
      }
      assert BuildMeta(init, classify).Ok?;
      BuildMetaKeys(init, classify);
      BuildMetaNext(ms, |ms| - 1, classify, BuildMeta(init, classify).value);
    }
  }

  /** On success each key holds the classification of the stripped value of
      its last occurrence. */
  lemma {:induction false} BuildMetaLast(ms: seq<Match>, k: nat, classify: Classifier)
    requires BuildMeta(ms, classify).Ok?
    requires k < |ms| && LastOf(ms, k)
    ensures Strip(ms[k].key) in BuildMeta(ms, classify).value
    ensures classify(Strip(ms[k].value)).Ok?
    ensures BuildMeta(ms, classify).value[Strip(ms[k].key)] == classify(Strip(ms[k].value)).value
    decreases |ms|
  {
    var init := ms[..|ms| - 1];
    if k < |ms| - 1 {
      assert ms[k] == init[k];
      assert LastOf(init, k) by {
        forall j | k < j < |init| ensures Strip(init[j].key) != Strip(init[k].key) {
          assert init[j] == ms[j];
        }
      }
      BuildMetaLast(init, k, classify);
    }
  }

  /** No later match has the same stripped key as match `k`. */
  predicate LastOf(ms: seq<Match>, k: int)
    requires 0 <= k < |ms|
  {
    forall j :: k < j < |ms| ==> Strip(ms[j].key) != Strip(ms[k].key)
  }

  /** Every key of a parsed dict is stripped and contains no colon. */
  lemma ParsedKeys(s: string, classify: Classifier)
    requires BuildMeta(Scan(s), classify).Ok?
    ensures forall key :: key in BuildMeta(Scan(s), classify).value ==> ':' !in key && Trimmed(key)
  {
    ScanShape(s);
    BuildMetaKeys(Scan(s), classify);
    forall m | m in Scan(s)
      ensures ':' !in Strip(m.key)
    {
      StripAvoids(m.key, ':');
    }
  }

  /** Written entries whose keys and values are already stripped and whose
      values all classify are parsed back to a dict over exactly their keys,
      each holding the value of its last entry. */
  lemma ParseRendered(ms: seq<Match>, classify: Classifier)
    requires forall m :: m in ms ==> Renderable(m) && Trimmed(m.key) && Trimmed(m.value)
    requires forall m :: m in ms ==> classify(m.value).Ok?
    ensures BuildMeta(Scan(Render(ms)), classify).Ok?
    ensures BuildMeta(Scan(Render(ms)), classify).value.Keys == set m | m in ms :: m.key
    ensures forall k :: 0 <= k < |ms| && LastOf(ms, k) ==>
      BuildMeta(Scan(Render(ms)), classify).value[ms[k].key] == classify(ms[k].value).value
  {
    ScanRender(ms);
    BuildStripped(ms, classify);
  }

  /** Matches whose keys and values are already stripped and whose values
      all classify build a dict over exactly their keys, each holding the
      value of its last match. */
  lemma BuildStripped(ms: seq<Match>, classify: Classifier)
    requires forall m :: m in ms ==> Trimmed(m.key) && Trimmed(m.value)
    requires forall m :: m in ms ==> classify(m.value).Ok?
    ensures BuildMeta(ms, classify).Ok?
    ensures BuildMeta(ms, classify).value.Keys == set m | m in ms :: m.key
    ensures forall k :: 0 <= k < |ms| && LastOf(ms, k) ==>
      BuildMeta(ms, classify).value[ms[k].key] == classify(ms[k].value).value
  {
    forall k | 0 <= k < |ms|
      ensures Strip(ms[k].key) == ms[k].key && Strip(ms[k].value) == ms[k].value
    {
      assert ms[k] in ms;
      StripTrimmed(ms[k].key);
      StripTrimmed(ms[k].value);
    }
    var d := BuildMeta(ms, classify).value;
    BuildMetaKeys(ms, classify);
    assert (set m | m in ms :: Strip(m.key)) == set m | m in ms :: m.key by {
      forall m | m in ms ensures Strip(m.key) == m.key {
        StripTrimmed(m.key);
      }
    }
    forall k | 0 <= k < |ms| && LastOf(ms, k)
      ensures d[ms[k].key] == classify(ms[k].value).value
    {
      BuildMetaLast(ms, k, classify);
    }
  }

  /** An annotation line with no bracketed pair gives the empty dict. */
  lemma NoMatchEmptyDict(s: string, classify: Classifier)
    requires forall i :: 0 <= i < |s| ==> MatchHere(s[i..]).None?
    ensures BuildMeta(Scan(s), classify) == Ok(map[])
  {
    ScanEmpty(s);
  }

  /** parse_raw_metadata: scan the line, then store every match in order. */
  method ParseRawMetadata(input: string, toFloat: FloatParser) returns (r: Result<Dict>)
    ensures r == BuildMeta(Scan(input), ValueClassifier(toFloat))
  {
    var matches := Scan(input);
    var classify := ValueClassifier(toFloat);
    var metadata: Dict := map[];
    for k := 0 to |matches|
      invariant BuildMeta(matches[..k], classify) == Ok(metadata)
    {
      var m := matches[k];
      BuildMetaNext(matches, k, classify, metadata);
      var key := Strip(m.key);
      var value := classify(Strip(m.value));
      if value.Err? {
        BuildMetaErrSticks(matches, k + 1, classify);
        return Err(value.error);
      }
      metadata := metadata[key := value.value];
    }
    assert matches[..|matches|] == matches;
    r := Ok(metadata);
  }
}
