/** summarize_data: the per-frame rows grouped by (filename, date), one
    summary per flight with its start and end time, its duration and the
    minimum, maximum, mean, first and last of each altitude. Groups come out
    in sorted key order, as pandas' groupby gives them. */
module Summary {
  import opened Common
  import opened PyStr
  import opened Annotation
  import opened Normalize
  import opened Table
  import opened Blocks

  /** The fields of a row that summarize_data reads, with the types the
      casts of large_dataframe give them. */
  datatype Record = Record(filename: string, date: string, time: string, diffTimeMs: int,
                           relAlt: real, absAlt: real)

  /** The key a row is grouped by: (filename, date). */
  type Key = (string, string)

  function KeyOf(rec: Record): Key {
    (rec.filename, rec.date)
  }

  /** A row as a record, when the fields summarize_data reads are there with
      those types. */
  function RecordOf(row: Row): (r: Option<Record>)
    ensures r.Some? ==>
      && FILENAME in row && row[FILENAME] == Str(r.value.filename)
      && DATE in row && row[DATE] == Str(r.value.date)
      && TIME in row && row[TIME] == Str(r.value.time)
      && DIFF_TIME in row && row[DIFF_TIME] == Int(r.value.diffTimeMs)
      && REL_ALT in row && row[REL_ALT] == Float(r.value.relAlt)
      && ABS_ALT in row && row[ABS_ALT] == Float(r.value.absAlt)
    ensures r.None? ==> !(&& FILENAME in row && row[FILENAME].Str? && DATE in row && row[DATE].Str?
                          && TIME in row && row[TIME].Str? && DIFF_TIME in row && row[DIFF_TIME].Int?
                          && REL_ALT in row && row[REL_ALT].Float? && ABS_ALT in row && row[ABS_ALT].Float?)
  {
    if && FILENAME in row && row[FILENAME].Str?
       && DATE in row && row[DATE].Str?
       && TIME in row && row[TIME].Str?
       && DIFF_TIME in row && row[DIFF_TIME].Int?
       && REL_ALT in row && row[REL_ALT].Float?
       && ABS_ALT in row && row[ABS_ALT].Float?
    then Some(Record(row[FILENAME].s, row[DATE].s, row[TIME].s, row[DIFF_TIME].i,
                     row[REL_ALT].r, row[ABS_ALT].r))
    else None
  }

  /** A row large_dataframe builds is a record of its file, with the date
      and time of the clock line, the gap of the counter line and the two
      altitudes of the annotation, unless the annotation line itself has an
      entry named like one of the fields the summary groups or adds up by. */
  lemma BuiltRowRecord(sub: seq<string>, file: string, toFloat: FloatParser)
    requires RowOf(sub, file, toFloat).Ok?
    requires var meta := NormalizedMeta(sub[4], toFloat).value;
      FILENAME !in meta && DATE !in meta && TIME !in meta && DIFF_TIME !in meta
    ensures RecordOf(RowOf(sub, file, toFloat).value).Some?
    ensures var rec := RecordOf(RowOf(sub, file, toFloat).value).value;
      var meta := NormalizedMeta(sub[4], toFloat).value;
      && rec.filename == file
      && rec.date == BeforeFirst(sub[3], SPACE)
      && rec.time == BeforeFirst(AfterFirst(sub[3], SPACE), SPACE)
      && rec.diffTimeMs == PyInt(ReplaceAll(BeforeFirst(AfterFirst(sub[2], DIFF_TAG), DIFF_TAG), MS, [])).value
      && rec.relAlt == meta[REL_ALT].r
      && rec.absAlt == meta[ABS_ALT].r
  {
    MetadataWins(sub, file, toFloat);
    RowShape(sub, file, toFloat);
  }

  // ------------------------------------------------------------- order

  /** Python's order on strings: code point by code point, a proper prefix
      first. */
  predicate StrLess(a: string, b: string)
    decreases |a|
  {
    if a == [] then b != []
    else b != [] && (a[0] < b[0] || (a[0] == b[0] && StrLess(a[1..], b[1..])))
  }

  lemma {:induction false} StrLessIrreflexive(a: string)
    ensures !StrLess(a, a)
    decreases |a|
  {
    if a != [] {
      StrLessIrreflexive(a[1..]);
    }
  }

  lemma {:induction false} StrLessTransitive(a: string, b: string, c: string)
    requires StrLess(a, b) && StrLess(b, c)
    ensures StrLess(a, c)
    decreases |a|
  {
    if a != [] && a[0] == b[0] && b[0] == c[0] {
      StrLessTransitive(a[1..], b[1..], c[1..]);
    }
  }

  lemma {:induction false} StrLessTotal(a: string, b: string)
    requires a != b
    ensures StrLess(a, b) || StrLess(b, a)
    decreases |a|
  {
    if a != [] && b != [] && a[0] == b[0] {
      assert a == [a[0]] + a[1..] && b == [b[0]] + b[1..];
      StrLessTotal(a[1..], b[1..]);
    }
  }

  /** The order of tuple keys: by filename, then by date. */
  predicate KeyLess(k: Key, l: Key) {
    StrLess(k.0, l.0) || (k.0 == l.0 && StrLess(k.1, l.1))
  }

  lemma KeyLessIrreflexive(k: Key)
    ensures !KeyLess(k, k)
  {
    StrLessIrreflexive(k.0);
    StrLessIrreflexive(k.1);
  }

  lemma KeyLessTransitive(k: Key, l: Key, m: Key)
    requires KeyLess(k, l) && KeyLess(l, m)
    ensures KeyLess(k, m)
  {
    if StrLess(k.0, l.0) && StrLess(l.0, m.0) {
      StrLessTransitive(k.0, l.0, m.0);
    } else if k.0 == l.0 && l.0 == m.0 {
      StrLessTransitive(k.1, l.1, m.1);
    }
  }

  lemma KeyLessTotal(k: Key, l: Key)
    requires k != l
    ensures KeyLess(k, l) || KeyLess(l, k)
  {
    if k.0 != l.0 {
      StrLessTotal(k.0, l.0);
    } else {
      StrLessTotal(k.1, l.1);
    }
  }

  predicate StrictlySorted(ks: seq<Key>) {
    forall i, j :: 0 <= i < j < |ks| ==> KeyLess(ks[i], ks[j])
  }

  /** Two strictly sorted key lists with the same keys start with the same
      key: the smaller of the two heads would come before itself. */
  lemma SortedSameHead(xs: seq<Key>, ys: seq<Key>)
    requires StrictlySorted(xs) && StrictlySorted(ys) && xs != [] && ys != []
    requires forall k :: k in xs <==> k in ys
    ensures xs[0] == ys[0]
  {
    if xs[0] != ys[0] {
      assert xs[0] in ys && ys[0] in xs;
      var i :| 0 <= i < |ys| && ys[i] == xs[0];
      var j :| 0 <= j < |xs| && xs[j] == ys[0];
      KeyLessIrreflexive(xs[0]);
      if KeyLess(xs[0], ys[0]) {
        KeyLessTransitive(xs[0], ys[0], ys[i]);
      }
    }
  }

  /** Two strictly sorted key lists with the same keys are the same list:
      the group order does not depend on how it was computed. */
  lemma {:induction false} SortedUnique(xs: seq<Key>, ys: seq<Key>)
    requires StrictlySorted(xs) && StrictlySorted(ys)
    requires forall k :: k in xs <==> k in ys
    ensures xs == ys
    decreases |xs|
  {
    assert ys != [] ==> ys[0] in ys;
    if xs != [] {
      assert xs[0] in ys;
      SortedSameHead(xs, ys);
      KeyLessIrreflexive(xs[0]);
      forall k
        ensures k in xs[1..] <==> k in ys[1..]
      {
        if k in xs[1..] {
          var i :| 1 <= i < |xs| && xs[i] == k;
          assert k in ys && k != ys[0];
        }
        if k in ys[1..] {
          var i :| 1 <= i < |ys| && ys[i] == k;
          assert k in xs && k != xs[0];
        }
      }
      SortedUnique(xs[1..], ys[1..]);
      assert xs == [xs[0]] + xs[1..] && ys == [ys[0]] + ys[1..];
    }
  }

  /** A key before the first of a sorted list comes before all of it. */
  lemma SortedCons(k: Key, ks: seq<Key>)
    requires StrictlySorted(ks)
    requires forall l :: l in ks ==> KeyLess(k, l)
    ensures StrictlySorted([k] + ks)
  {
    forall i, j | 0 <= i < j < |[k] + ks|
      ensures KeyLess(([k] + ks)[i], ([k] + ks)[j])
    {
      if i == 0 {
        assert ks[j - 1] in ks;
      }
    }
  }

  /** `ks` with `k` put in its place, unless it is there already. */
  function Insert(ks: seq<Key>, k: Key): (r: seq<Key>)
    requires StrictlySorted(ks)
    ensures StrictlySorted(r)
    ensures forall l :: l in r <==> l in ks || l == k
    decreases |ks|
  {
    if ks == [] then [k]
    else if ks[0] == k then ks
    else if KeyLess(k, ks[0]) then
      assert forall l :: l in ks ==> KeyLess(k, l) by {
        forall l | l in ks
          ensures KeyLess(k, l)
        {
          if l != ks[0] {
            var j :| 0 < j < |ks| && ks[j] == l;
            KeyLessTransitive(k, ks[0], l);
          }
        }
      }
      SortedCons(k, ks);
      [k] + ks
    else
      KeyLessTotal(k, ks[0]);
      var rest := Insert(ks[1..], k);
      assert forall l :: l in rest ==> KeyLess(ks[0], l);
      SortedCons(ks[0], rest);
      [ks[0]] + rest
  }

  // ------------------------------------------------------------ groups

  /** The keys the records have. */
  function KeysOf(recs: seq<Record>): set<Key> {
    set rec | rec in recs :: KeyOf(rec)
  }

  /** The group keys in sorted order, each once. */
  function GroupKeys(recs: seq<Record>): (r: seq<Key>)
    ensures StrictlySorted(r)
    ensures forall k :: k in r <==> k in KeysOf(recs)
  {
    if recs == [] then []
    else
      var init := recs[..|recs| - 1];
      var last := recs[|recs| - 1];
      assert recs == init + [last];
      assert KeysOf(recs) == KeysOf(init) + {KeyOf(last)};
      Insert(GroupKeys(init), KeyOf(last))
  }

  /** The records of one group, in input order. */
  function Group(recs: seq<Record>, k: Key): (r: seq<Record>)
    ensures forall rec :: rec in r ==> rec in recs && KeyOf(rec) == k
  {
    if recs == [] then []
    else
      var last := recs[|recs| - 1];
      Group(recs[..|recs| - 1], k) + (if KeyOf(last) == k then [last] else [])
  }

  /** A group holds every record of its key, and no other: it is empty
      exactly when no record has the key. */
  lemma {:induction false} GroupComplete(recs: seq<Record>, k: Key)
    ensures forall rec :: rec in recs && KeyOf(rec) == k ==> rec in Group(recs, k)
    decreases |recs|
  {
    if recs != [] {
      var init := recs[..|recs| - 1];
      GroupComplete(init, k);
      assert recs == init + [recs[|recs| - 1]];
    }
  }

  /** Adding a record adds its key. */
  lemma KeysOfSnoc(recs: seq<Record>)
    requires recs != []
    ensures KeysOf(recs) == KeysOf(recs[..|recs| - 1]) + {KeyOf(recs[|recs| - 1])}
  {
    assert recs == recs[..|recs| - 1] + [recs[|recs| - 1]];
  }

  /** A key no record has has an empty group. */
  lemma {:induction false} GroupEmpty(recs: seq<Record>, k: Key)
    requires k !in KeysOf(recs)
    ensures Group(recs, k) == []
    decreases |recs|
  {
    if recs != [] {
      KeysOfSnoc(recs);
      GroupEmpty(recs[..|recs| - 1], k);
    }
  }

  /** The group of a key some record has is not empty. */
  lemma GroupNonEmpty(recs: seq<Record>, k: Key)
    requires k in KeysOf(recs)
    ensures Group(recs, k) != []
  {
    GroupComplete(recs, k);
    var rec :| rec in recs && KeyOf(rec) == k;
    assert rec in Group(recs, k);
  }

  /** Record `i` is the first of key `k` in input order. */
  predicate IsFirstOf(recs: seq<Record>, k: Key, i: int) {
    0 <= i < |recs| && KeyOf(recs[i]) == k && forall i' :: 0 <= i' < i ==> KeyOf(recs[i']) != k
  }

  /** Record `i` is the last of key `k` in input order. */
  predicate IsLastOf(recs: seq<Record>, k: Key, i: int) {
    0 <= i < |recs| && KeyOf(recs[i]) == k && forall i' :: i < i' < |recs| ==> KeyOf(recs[i']) != k
  }

  /** The group of a key some record has starts with the first record of
      that key in input order. */
  lemma {:induction false} GroupFirst(recs: seq<Record>, k: Key)
    requires k in KeysOf(recs)
    ensures Group(recs, k) != []
    ensures exists i {:trigger IsFirstOf(recs, k, i)} :: IsFirstOf(recs, k, i) && Group(recs, k)[0] == recs[i]
    decreases |recs|
  {
    var init := recs[..|recs| - 1];
    var n := |recs| - 1;
    KeysOfSnoc(recs);
    if k in KeysOf(init) {
      GroupFirst(init, k);
      var i :| IsFirstOf(init, k, i) && Group(init, k)[0] == init[i];
      assert forall i' :: 0 <= i' <= i ==> recs[i'] == init[i'];
      assert IsFirstOf(recs, k, i);
    } else {
      GroupEmpty(init, k);
      forall i' | 0 <= i' < n
        ensures KeyOf(recs[i']) != k
      {
        assert recs[i'] == init[i'] && init[i'] in init;
      }
      assert IsFirstOf(recs, k, n);
    }
  }

  /** The index of the last record of key `k`, or -1 when there is none. */
  function LastIndex(recs: seq<Record>, k: Key): (r: int)
    ensures -1 <= r < |recs|
  {
    if recs == [] then -1
    else if KeyOf(recs[|recs| - 1]) == k then |recs| - 1
    else LastIndex(recs[..|recs| - 1], k)
  }

  /** The group of a key some record has ends with the record at LastIndex. */
  lemma {:induction false} GroupEndsAtLastIndex(recs: seq<Record>, k: Key)
    requires k in KeysOf(recs)
    ensures 0 <= LastIndex(recs, k)
    ensures Group(recs, k) != [] && Group(recs, k)[|Group(recs, k)| - 1] == recs[LastIndex(recs, k)]
    decreases |recs|
  {
    var n := |recs| - 1;
    if KeyOf(recs[n]) != k {
      OtherKeyKept(recs, k);
      GroupEndsAtLastIndex(recs[..n], k);
    }
  }

  /** LastIndex is the last record of its key: no later record has it. */
  lemma {:induction false} LastIndexIsLast(recs: seq<Record>, k: Key)
    requires 0 <= LastIndex(recs, k)
    ensures IsLastOf(recs, k, LastIndex(recs, k))
    decreases |recs|
  {
    var n := |recs| - 1;
    if KeyOf(recs[n]) != k {
      LastIndexIsLast(recs[..n], k);
      LastOfExtends(recs, k, LastIndex(recs[..n], k));
    }
  }

  /** The group of a key some record has ends with the last record of that
      key in input order. */
  lemma GroupLast(recs: seq<Record>, k: Key)
    requires k in KeysOf(recs)
    ensures Group(recs, k) != []
    ensures exists i {:trigger IsLastOf(recs, k, i)} :: IsLastOf(recs, k, i) && Group(recs, k)[|Group(recs, k)| - 1] == recs[i]
  {
    GroupEndsAtLastIndex(recs, k);
    LastIndexIsLast(recs, k);
    var i := LastIndex(recs, k);
    assert IsLastOf(recs, k, i) && Group(recs, k)[|Group(recs, k)| - 1] == recs[i];
  }

  /** A final record of another key leaves the group as it was. */
  lemma OtherKeyKept(recs: seq<Record>, k: Key)
    requires k in KeysOf(recs) && KeyOf(recs[|recs| - 1]) != k
    ensures k in KeysOf(recs[..|recs| - 1])
    ensures Group(recs, k) == Group(recs[..|recs| - 1], k)
  {
    KeysOfSnoc(recs);
  }

  /** The last record of a key among all but the final record is still the
      last when the final record has another key. */
  lemma LastOfExtends(recs: seq<Record>, k: Key, j: int)
    requires recs != [] && KeyOf(recs[|recs| - 1]) != k
    requires IsLastOf(recs[..|recs| - 1], k, j)
    ensures IsLastOf(recs, k, j) && recs[j] == recs[..|recs| - 1][j]
  {
    var init := recs[..|recs| - 1];
    forall i' | j < i' < |recs|
      ensures KeyOf(recs[i']) != k
    {
      if i' < |init| {
        assert recs[i'] == init[i'];
      }
    }
  }

  // ------------------------------------------------------------- stats

  function Sum(xs: seq<real>): real {
    if xs == [] then 0.0 else xs[0] + Sum(xs[1..])
  }

  function IntSum(xs: seq<int>): int {
    if xs == [] then 0 else xs[0] + IntSum(xs[1..])
  }

  function Min(xs: seq<real>): (r: real)
    requires xs != []
    ensures r in xs && forall i :: 0 <= i < |xs| ==> r <= xs[i]
  {
    if |xs| == 1 then xs[0]
    else
      var m := Min(xs[1..]);
      assert forall i :: 1 <= i < |xs| ==> xs[i] == xs[1..][i - 1];
      if xs[0] <= m then xs[0] else m
  }

  function Max(xs: seq<real>): (r: real)
    requires xs != []
    ensures r in xs && forall i :: 0 <= i < |xs| ==> xs[i] <= r
  {
    if |xs| == 1 then xs[0]
    else
      var m := Max(xs[1..]);
      assert forall i :: 1 <= i < |xs| ==> xs[i] == xs[1..][i - 1];
      if xs[0] >= m then xs[0] else m
  }

  /** `n` copies of `x` added up. */
  function Times(n: nat, x: real): real {
    if n == 0 then 0.0 else x + Times(n - 1, x)
  }

  /** A sum of values between two bounds lies between the bounds added up as
      often as there are values. */
  lemma {:induction false} SumBounds(xs: seq<real>, lo: real, hi: real)
    requires forall i :: 0 <= i < |xs| ==> lo <= xs[i] <= hi
    ensures Times(|xs|, lo) <= Sum(xs) <= Times(|xs|, hi)
  {
    if xs != [] {
      assert forall i :: 0 <= i < |xs[1..]| ==> xs[1..][i] == xs[i + 1];
      SumBounds(xs[1..], lo, hi);
    }
  }

  /** Adding up `n` copies is multiplying by `n`. */
  lemma {:induction false} TimesIsProduct(n: nat, x: real)
    ensures Times(n, x) == (n as real) * x
  {
    if n > 0 {
      TimesIsProduct(n - 1, x);
    }
  }

  /** The five statistics of one altitude column of a group. */
  datatype Stats = Stats(min: real, max: real, mean: real, first: real, last: real)

  function StatsOf(xs: seq<real>): Stats
    requires xs != []
  {
    Stats(Min(xs), Max(xs), Sum(xs) / (|xs| as real), xs[0], xs[|xs| - 1])
  }

  /** A total between `n` copies of two bounds gives a mean between them. */
  lemma MeanBetween(total: real, n: nat, lo: real, hi: real)
    requires n > 0 && Times(n, lo) <= total <= Times(n, hi)
    ensures lo <= total / (n as real) <= hi
  {
    TimesIsProduct(n, lo);
    TimesIsProduct(n, hi);
    var c := n as real;
    var mean := total / c;
    assert mean * c == total;
    assert (mean - lo) * c == total - c * lo && (hi - mean) * c == c * hi - total;
    FactorSign(mean - lo, c);
    FactorSign(hi - mean, c);
  }

  /** A product with a positive factor that is not negative has a factor
      that is not negative. */
  lemma FactorSign(a: real, c: real)
    requires c > 0.0 && a * c >= 0.0
    ensures a >= 0.0
  {
  }

  /** The minimum and maximum are values of the column, and the first, last
      and mean lie between them. */
  lemma StatsBounds(xs: seq<real>)
    requires xs != []
    ensures var s := StatsOf(xs);
      && s.min in xs && s.max in xs
      && s.min <= s.first <= s.max && s.min <= s.last <= s.max
      && s.min <= s.mean <= s.max
  {
    MeanBounds(xs);
  }

  /** The mean of a column lies between its minimum and its maximum. */
  lemma MeanBounds(xs: seq<real>)
    requires xs != []
    ensures Min(xs) <= Sum(xs) / (|xs| as real) <= Max(xs)
  {
    SumBounds(xs, Min(xs), Max(xs));
    MeanBetween(Sum(xs), |xs|, Min(xs), Max(xs));
  }

  // ----------------------------------------------------------- summary

  /** One output row of summarize_data, its fields in the output order. */
  datatype FlightSummary = FlightSummary(
    filename: string, date: string, timeInit: string, timeEnd: string, durationSeconds: real,
    relAlt: Stats, absAlt: Stats)

  function RelAlts(g: seq<Record>): (r: seq<real>)
    ensures |r| == |g| && forall i {:trigger r[i]} :: 0 <= i < |g| ==> r[i] == g[i].relAlt
  {
    seq(|g|, i requires 0 <= i < |g| => g[i].relAlt)
  }

  function AbsAlts(g: seq<Record>): (r: seq<real>)
    ensures |r| == |g| && forall i {:trigger r[i]} :: 0 <= i < |g| ==> r[i] == g[i].absAlt
  {
    seq(|g|, i requires 0 <= i < |g| => g[i].absAlt)
  }

  function Diffs(g: seq<Record>): (r: seq<int>)
    ensures |r| == |g| && forall i {:trigger r[i]} :: 0 <= i < |g| ==> r[i] == g[i].diffTimeMs
  {
    seq(|g|, i requires 0 <= i < |g| => g[i].diffTimeMs)
  }

  /** The summary of one group: its key, the time of its first and last
      record, the sum of its frame gaps in seconds and the statistics of
      both altitudes. */
  function SummaryOf(k: Key, g: seq<Record>): (r: FlightSummary)
    requires g != []
    ensures (r.filename, r.date) == k
    ensures r.durationSeconds == (IntSum(Diffs(g)) as real) / 1000.0
    ensures r.relAlt.min <= r.relAlt.mean <= r.relAlt.max && r.absAlt.min <= r.absAlt.mean <= r.absAlt.max
  {
    StatsBounds(RelAlts(g));
    StatsBounds(AbsAlts(g));
    FlightSummary(k.0, k.1, g[0].time, g[|g| - 1].time, (IntSum(Diffs(g)) as real) / 1000.0,
                  StatsOf(RelAlts(g)), StatsOf(AbsAlts(g)))
  }

  /** A group's summary takes its start from the group's first record and
      its end from the group's last. */
  lemma SummaryEnds(k: Key, g: seq<Record>)
    requires g != []
    ensures var s := SummaryOf(k, g);
      && s.timeInit == g[0].time && s.relAlt.first == g[0].relAlt && s.absAlt.first == g[0].absAlt
      && s.timeEnd == g[|g| - 1].time && s.relAlt.last == g[|g| - 1].relAlt
      && s.absAlt.last == g[|g| - 1].absAlt
  {
    var rel, abs := RelAlts(g), AbsAlts(g);
    assert rel[0] == g[0].relAlt && abs[0] == g[0].absAlt;
    assert rel[|rel| - 1] == g[|g| - 1].relAlt && abs[|abs| - 1] == g[|g| - 1].absAlt;
  }

  /** A group's summary ends with the time and altitudes of its last
      record. */
  lemma SummaryEndsWith(k: Key, g: seq<Record>, rec: Record)
    requires g != [] && g[|g| - 1] == rec
    ensures var s := SummaryOf(k, g);
      s.timeEnd == rec.time && s.relAlt.last == rec.relAlt && s.absAlt.last == rec.absAlt
  {
    SummaryEnds(k, g);
  }

  /** summarize_data: one summary per group, in sorted key order. */
  function Summarize(recs: seq<Record>): (r: seq<FlightSummary>)
    ensures |r| == |GroupKeys(recs)|
    ensures forall i :: 0 <= i < |r| ==> (r[i].filename, r[i].date) == GroupKeys(recs)[i]
  {
    var keys := GroupKeys(recs);
    seq(|keys|, i requires 0 <= i < |keys| =>
      GroupNonEmpty(recs, keys[i]);
      SummaryOf(keys[i], Group(recs, keys[i])))
  }

  /** There is exactly one summary per (filename, date) of the records, in
      strictly increasing key order. */
  lemma SummaryPerFlight(recs: seq<Record>)
    ensures var r := Summarize(recs);
      && (forall i, j :: 0 <= i < j < |r| ==> KeyLess((r[i].filename, r[i].date), (r[j].filename, r[j].date)))
      && (forall k :: k in KeysOf(recs) <==> exists i :: 0 <= i < |r| && (r[i].filename, r[i].date) == k)
      && (forall i, j :: 0 <= i < j < |r| ==> (r[i].filename, r[i].date) != (r[j].filename, r[j].date))
  {
    var r := Summarize(recs);
    var keys := GroupKeys(recs);
    forall k | k in KeysOf(recs)
      ensures exists i :: 0 <= i < |r| && (r[i].filename, r[i].date) == k
    {
      var i :| 0 <= i < |keys| && keys[i] == k;
      assert (r[i].filename, r[i].date) == k;
    }
    forall i, j | 0 <= i < j < |r|
      ensures (r[i].filename, r[i].date) != (r[j].filename, r[j].date)
    {
      KeyLessIrreflexive(keys[i]);
    }
  }

  /** Summary `i` is the summary of the group of its key. */
  lemma SummaryAt(recs: seq<Record>, i: nat)
    requires i < |Summarize(recs)|
    ensures var k := GroupKeys(recs)[i];
      k in KeysOf(recs) && Group(recs, k) != [] && Summarize(recs)[i] == SummaryOf(k, Group(recs, k))
  {
    GroupNonEmpty(recs, GroupKeys(recs)[i]);
  }

  /** The summary of a group starts at the first record of its key in
      input order. */
  lemma GroupSummaryFirst(recs: seq<Record>, k: Key)
    requires k in KeysOf(recs)
    ensures Group(recs, k) != []
    ensures var s := SummaryOf(k, Group(recs, k));
      exists j {:trigger IsFirstOf(recs, k, j)} :: IsFirstOf(recs, k, j) && s.timeInit == recs[j].time
        && s.relAlt.first == recs[j].relAlt && s.absAlt.first == recs[j].absAlt
  {
    GroupFirst(recs, k);
    var g := Group(recs, k);
    var j :| IsFirstOf(recs, k, j) && g[0] == recs[j];
    SummaryEnds(k, g);
  }

  /** The summary of a group ends at the last record of its key in input
      order. */
  lemma GroupSummaryLast(recs: seq<Record>, k: Key)
    requires k in KeysOf(recs)
    ensures Group(recs, k) != []
    ensures var s := SummaryOf(k, Group(recs, k));
      exists j {:trigger IsLastOf(recs, k, j)} :: IsLastOf(recs, k, j) && s.timeEnd == recs[j].time
        && s.relAlt.last == recs[j].relAlt && s.absAlt.last == recs[j].absAlt
  {
    var g := Group(recs, k);
    var j := LastIndex(recs, k);
    assert 0 <= j && g != [] && g[|g| - 1] == recs[j] && IsLastOf(recs, k, j) by {
      GroupEndsAtLastIndex(recs, k);
      LastIndexIsLast(recs, k);
    }
    SummaryEndsWith(k, g, recs[j]);
  }

  /** The start time and first altitudes of a flight are those of its first
      record in input order. */
  lemma SummaryFirst(recs: seq<Record>, i: nat)
    requires i < |Summarize(recs)|
    ensures var s := Summarize(recs)[i];
      exists j {:trigger IsFirstOf(recs, (s.filename, s.date), j)} :: IsFirstOf(recs, (s.filename, s.date), j) && s.timeInit == recs[j].time
        && s.relAlt.first == recs[j].relAlt && s.absAlt.first == recs[j].absAlt
  {
    SummaryAt(recs, i);
    GroupSummaryFirst(recs, GroupKeys(recs)[i]);
  }

  /** The end time and last altitudes of a flight are those of its last
      record in input order. */
  lemma SummaryLast(recs: seq<Record>, i: nat)
    requires i < |Summarize(recs)|
    ensures var s := Summarize(recs)[i];
      exists j {:trigger IsLastOf(recs, (s.filename, s.date), j)} :: IsLastOf(recs, (s.filename, s.date), j) && s.timeEnd == recs[j].time
        && s.relAlt.last == recs[j].relAlt && s.absAlt.last == recs[j].absAlt
  {
    SummaryAt(recs, i);
    GroupSummaryLast(recs, GroupKeys(recs)[i]);
  }

  /** For both altitudes of a flight, the minimum and maximum bound the
      first, last and mean values; the duration is the flight's frame gaps
      added up, in seconds. */
  lemma SummaryBounds(recs: seq<Record>, i: nat)
    requires i < |Summarize(recs)|
    ensures var s := Summarize(recs)[i];
      && s.relAlt.min <= s.relAlt.first <= s.relAlt.max && s.relAlt.min <= s.relAlt.last <= s.relAlt.max
      && s.relAlt.min <= s.relAlt.mean <= s.relAlt.max
      && s.absAlt.min <= s.absAlt.first <= s.absAlt.max && s.absAlt.min <= s.absAlt.last <= s.absAlt.max
      && s.absAlt.min <= s.absAlt.mean <= s.absAlt.max
      && s.durationSeconds == (GroupMs(recs, GroupKeys(recs)[i]) as real) / 1000.0
  {
    var k := GroupKeys(recs)[i];
    SummaryAt(recs, i);
    StatsBounds(RelAlts(Group(recs, k)));
    StatsBounds(AbsAlts(Group(recs, k)));
  }

  // ---------------------------------------------------------- duration

  /** The milliseconds of the frame gaps of one group. */
  function GroupMs(recs: seq<Record>, k: Key): int {
    IntSum(Diffs(Group(recs, k)))
  }

  /** The milliseconds of the groups of a list of keys. */
  function KeysMs(recs: seq<Record>, ks: seq<Key>): int {
    if ks == [] then 0 else GroupMs(recs, ks[0]) + KeysMs(recs, ks[1..])
  }

  lemma {:induction false} IntSumSnoc(xs: seq<int>, x: int)
    ensures IntSum(xs + [x]) == IntSum(xs) + x
    decreases |xs|
  {
    if xs != [] {
      assert (xs + [x])[1..] == xs[1..] + [x];
      IntSumSnoc(xs[1..], x);
    }
  }

  /** A new record adds its frame gap to its own group only. */
  lemma GroupMsSnoc(recs: seq<Record>, rec: Record, k: Key)
    ensures GroupMs(recs + [rec], k) == GroupMs(recs, k) + (if KeyOf(rec) == k then rec.diffTimeMs else 0)
  {
    assert (recs + [rec])[..|recs|] == recs;
    var g := Group(recs, k);
    if KeyOf(rec) == k {
      assert Diffs(g + [rec]) == Diffs(g) + [rec.diffTimeMs];
      IntSumSnoc(Diffs(g), rec.diffTimeMs);
    } else {
      assert Group(recs + [rec], k) == g;
    }
  }

  /** The first record of a key makes up its group's total alone. */
  lemma NewKeyMs(recs: seq<Record>, rec: Record)
    requires KeyOf(rec) !in KeysOf(recs)
    ensures GroupMs(recs + [rec], KeyOf(rec)) == rec.diffTimeMs
  {
    GroupEmpty(recs, KeyOf(rec));
    GroupMsSnoc(recs, rec, KeyOf(rec));
  }

  /** Over distinct keys, a new record adds its frame gap once if its key is
      listed, and nothing otherwise. */
  lemma {:induction false} KeysMsSnoc(recs: seq<Record>, rec: Record, ks: seq<Key>)
    requires StrictlySorted(ks)
    ensures KeysMs(recs + [rec], ks) == KeysMs(recs, ks) + (if KeyOf(rec) in ks then rec.diffTimeMs else 0)
    decreases |ks|
  {
    if ks != [] {
      KeysMsSnoc(recs, rec, ks[1..]);
      GroupMsSnoc(recs, rec, ks[0]);
      KeyLessIrreflexive(ks[0]);
      assert KeyOf(rec) in ks <==> KeyOf(rec) == ks[0] || KeyOf(rec) in ks[1..];
      assert ks[0] !in ks[1..];
    }
  }

  /** Putting a key into a sorted list adds its group once, and nothing when
      the key is already there. */
  lemma {:induction false} KeysMsInsert(recs: seq<Record>, ks: seq<Key>, k: Key)
    requires StrictlySorted(ks)
    ensures KeysMs(recs, Insert(ks, k)) == KeysMs(recs, ks) + (if k in ks then 0 else GroupMs(recs, k))
    decreases |ks|
  {
    if ks != [] && ks[0] != k && !KeyLess(k, ks[0]) {
      KeysMsInsert(recs, ks[1..], k);
      assert k in ks <==> k in ks[1..];
      assert Insert(ks, k)[1..] == Insert(ks[1..], k);
    } else if ks != [] && ks[0] != k {
      assert ([k] + ks)[1..] == ks;
      assert k !in ks by {
        if k in ks {
          var j :| 0 <= j < |ks| && ks[j] == k;
          KeyLessTransitive(k, ks[0], k);
          KeyLessIrreflexive(k);
        }
      }
    }
  }

  /** The frame gaps of all groups add up to those of all records: grouping
      loses and repeats none. */
  lemma {:induction false} GroupMsTotal(recs: seq<Record>)
    ensures KeysMs(recs, GroupKeys(recs)) == IntSum(Diffs(recs))
    decreases |recs|
  {
    if recs != [] {
      var init := recs[..|recs| - 1];
      var rec := recs[|recs| - 1];
      var k := KeyOf(rec);
      var ks := GroupKeys(init);
      assert recs == init + [rec];
      var added := if k in ks then 0 else GroupMs(recs, k);
      assert KeysMs(recs, GroupKeys(recs)) == KeysMs(recs, ks) + added by {
        assert GroupKeys(recs) == Insert(ks, k);
        KeysMsInsert(recs, ks, k);
      }
      assert KeysMs(recs, ks) == IntSum(Diffs(init)) + (if k in ks then rec.diffTimeMs else 0) by {
        KeysMsSnoc(init, rec, ks);
        GroupMsTotal(init);
      }
      if k !in ks {
        NewKeyMs(init, rec);
      }
      assert IntSum(Diffs(recs)) == IntSum(Diffs(init)) + rec.diffTimeMs by {
        assert Diffs(recs) == Diffs(init) + [rec.diffTimeMs];
        IntSumSnoc(Diffs(init), rec.diffTimeMs);
      }
    }
  }

  /** The durations of a list of summaries added up. */
  function TotalSeconds(ss: seq<FlightSummary>): real {
    if ss == [] then 0.0 else ss[0].durationSeconds + TotalSeconds(ss[1..])
  }

  /** Summaries whose durations are the group totals of their keys in
      seconds add up to the total of those groups in seconds. */
  lemma {:induction false} TotalOfKeys(recs: seq<Record>, ss: seq<FlightSummary>, ks: seq<Key>)
    requires |ss| == |ks|
    requires forall i :: 0 <= i < |ss| ==> ss[i].durationSeconds == (GroupMs(recs, ks[i]) as real) / 1000.0
    ensures TotalSeconds(ss) == (KeysMs(recs, ks) as real) / 1000.0
    decreases |ss|
  {
    if ss != [] {
      TotalOfKeys(recs, ss[1..], ks[1..]);
    }
  }

  /** The durations of all flights add up to all frame gaps in seconds. */
  lemma TotalDuration(recs: seq<Record>)
    ensures TotalSeconds(Summarize(recs)) == (IntSum(Diffs(recs)) as real) / 1000.0
  {
    var ss := Summarize(recs);
    var ks := GroupKeys(recs);
    forall i | 0 <= i < |ss|
      ensures ss[i].durationSeconds == (GroupMs(recs, ks[i]) as real) / 1000.0
    {
      SummaryAt(recs, i);
    }
    TotalOfKeys(recs, ss, ks);
    GroupMsTotal(recs);
  }
}
