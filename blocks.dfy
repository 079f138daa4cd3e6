/** One subtitle file's blocks turned into rows: the split of the file text
    into blocks of lines, and large_dataframe, which builds one row per
    block from its counter, timing, clock and annotation lines. */
module Blocks {
  import opened Common
  import opened PyStr
  import opened Annotation
  import opened Normalize
  import opened Table

  const LINE_SEP: string := "\n"
  const SECTION_SEP: string := "\n\n"
  const TIME_SEP: string := " --> "
  const DIFF_TAG: string := "DiffTime : "
  const MS: string := "ms"
  const SPACE: string := " "

  const FILENAME: string := "filename"
  const FRAME: string := "frame"
  const TIME_INIT: string := "time_init"
  const TIME_END: string := "time_end"
  const DIFF_TIME: string := "diff_time_ms"
  const DATE: string := "date"
  const TIME: string := "time"

  /** The keys every row gets from the lines around the annotation. */
  const SCALAR_KEYS: set<string> := {FILENAME, FRAME, TIME_INIT, TIME_END, DIFF_TIME, DATE, TIME}

  /** The columns cast to int and to float once all rows are built. */
  const AS_INT_COLS: seq<string> :=
    ["frame", "diff_time_ms", "iso", "fnum", "ct", "focal_len", "dzoom_ratio", "dzoom_ratio_delta"]
  const AS_FLOAT_COLS: seq<string> := ["shutter", "ev", "latitude", "longitude", "rel_alt", "abs_alt"]

  // ------------------------------------------------------------- blocks

  /** The file text split at blank lines, each block split into lines. */
  function Subsections(content: string): (r: seq<seq<string>>)
    ensures |r| == |Split(content, SECTION_SEP)| >= 1
    ensures forall i :: 0 <= i < |r| ==>
      |r[i]| >= 1 && Join(r[i], LINE_SEP) == Split(content, SECTION_SEP)[i]
  {
    var sections := Split(content, SECTION_SEP);
    seq(|sections|, i requires 0 <= i < |sections| => Split(sections[i], LINE_SEP))
  }

  /** The text a list of blocks is written as: lines joined by a newline,
      blocks by a blank line. */
  function Unsplit(blocks: seq<seq<string>>): string {
    Join(seq(|blocks|, i requires 0 <= i < |blocks| => Join(blocks[i], LINE_SEP)), SECTION_SEP)
  }

  /** Splitting into blocks and lines loses nothing: writing the blocks back
      gives the file text. */
  lemma SubsectionsRoundTrip(content: string)
    ensures Unsplit(Subsections(content)) == content
  {
    var blocks := Subsections(content);
    var sections := Split(content, SECTION_SEP);
    assert seq(|blocks|, i requires 0 <= i < |blocks| => Join(blocks[i], LINE_SEP)) == sections;
  }

  /** No line of a block contains a newline. */
  lemma SubsectionLines(content: string)
    ensures forall i, j :: 0 <= i < |Subsections(content)| && 0 <= j < |Subsections(content)[i]| ==>
      '\n' !in Subsections(content)[i][j]
  {
    var sections := Split(content, SECTION_SEP);
    forall i, j | 0 <= i < |Subsections(content)| && 0 <= j < |Subsections(content)[i]|
      ensures '\n' !in Subsections(content)[i][j]
    {
      SplitPiecesFree(sections[i], LINE_SEP);
      FindOneChar(Subsections(content)[i][j], '\n');
    }
  }

  // -------------------------------------------------------------- a row

  /** The annotation line after parse_raw_metadata, process_dzoom and
      process_altitude, or the first exception they raise. */
  function NormalizedMeta(line: string, toFloat: FloatParser): (r: Result<Dict>)
    ensures r.Ok? ==> BuildMeta(Scan(line), ValueClassifier(toFloat)).Ok?
    ensures r.Ok? ==> r.value.Keys == BuildMeta(Scan(line), ValueClassifier(toFloat)).value.Keys + {DZOOM_DELTA, ABS_ALT}
    ensures r.Ok? ==> OnlyChanged(BuildMeta(Scan(line), ValueClassifier(toFloat)).value, r.value, {DZOOM, DZOOM_DELTA, REL_ALT, ABS_ALT})
    ensures r.Ok? ==> {DZOOM, DZOOM_DELTA, REL_ALT, ABS_ALT} <= r.value.Keys
    ensures r.Ok? ==> r.value[DZOOM].Str? && (r.value[DZOOM_DELTA].Str? || r.value[DZOOM_DELTA].Null?)
    ensures r.Ok? ==> r.value[REL_ALT].Float? && r.value[ABS_ALT].Float?
  {
    match BuildMeta(Scan(line), ValueClassifier(toFloat))
    case Err(e) => Err(e)
    case Ok(parsed) =>
      match Dzoom(parsed)
      case Err(e) => Err(e)
      case Ok(zoomed) =>
        var (meta, err) := Altitude(zoomed, toFloat);
        if err.Some? then Err(err.value)
        else
          OnlyChangedThen(parsed, zoomed, meta, {DZOOM, DZOOM_DELTA}, {REL_ALT, ABS_ALT});
          assert {DZOOM, DZOOM_DELTA} + {REL_ALT, ABS_ALT} == {DZOOM, DZOOM_DELTA, REL_ALT, ABS_ALT};
          Ok(meta)
  }

  /** The scalar fields are read when the counter is an int, the timing line
      has an arrow, the counter line has a `DiffTime : ` followed by an int
      and `ms`, and the clock line has a space. */
  lemma ScalarFieldsOk(sub: seq<string>, file: string)
    requires |sub| >= 4
    ensures ScalarFields(sub, file).Ok? <==>
      && PyInt(sub[0]).Some?
      && Find(sub[1], TIME_SEP).Some?
      && Find(sub[2], DIFF_TAG).Some?
      && PyInt(ReplaceAll(BeforeFirst(AfterFirst(sub[2], DIFF_TAG), DIFF_TAG), MS, [])).Some?
      && Find(sub[3], SPACE).Some?
  {
    SplitFirstTwo(sub[1], TIME_SEP);
    SplitFirstTwo(sub[2], DIFF_TAG);
    SplitFirstTwo(sub[3], SPACE);
  }

  /** The fields a row takes from the counter, timing and clock lines, in
      the order the row literal evaluates them, or the first exception. */
  function ScalarFields(sub: seq<string>, file: string): (r: Result<Dict>)
    requires |sub| >= 4
    ensures r.Ok? ==> r.value.Keys == SCALAR_KEYS
    ensures r.Ok? ==> r.value[FILENAME] == Str(file)
    ensures r.Ok? ==> r.value[DATE].Str? && r.value[TIME].Str? && r.value[DIFF_TIME].Int?
    ensures r.Err? ==> r.error == ValueError || r.error == IndexError
    ensures r.Ok? ==> PyInt(sub[0]).Some? && PyInt(ReplaceAll(BeforeFirst(AfterFirst(sub[2], DIFF_TAG), DIFF_TAG), MS, [])).Some?
    ensures r.Ok? ==> r.value == ScalarRow(
      file, PyInt(sub[0]).value,
      BeforeFirst(sub[1], TIME_SEP), BeforeFirst(AfterFirst(sub[1], TIME_SEP), TIME_SEP),
      PyInt(ReplaceAll(BeforeFirst(AfterFirst(sub[2], DIFF_TAG), DIFF_TAG), MS, [])).value,
      BeforeFirst(sub[3], SPACE), BeforeFirst(AfterFirst(sub[3], SPACE), SPACE))
  {
    SplitFirstTwo(sub[1], TIME_SEP);
    SplitFirstTwo(sub[2], DIFF_TAG);
    SplitFirstTwo(sub[3], SPACE);
    match PyInt(sub[0])
    case None => Err(ValueError)
    case Some(frame) =>
      var times := Split(sub[1], TIME_SEP);
      if |times| < 2 then Err(IndexError)
      else
        var diffParts := Split(sub[2], DIFF_TAG);
        if |diffParts| < 2 then Err(IndexError)
        else match PyInt(ReplaceAll(diffParts[1], MS, []))
          case None => Err(ValueError)
          case Some(diff) =>
            var stamp := Split(sub[3], SPACE);
            if |stamp| < 2 then Err(IndexError)
            else Ok(ScalarRow(file, frame, times[0], times[1], diff, stamp[0], stamp[1]))
  }

  /** The literal part of a row: the file name and what the lines around the
      annotation hold. It is a separate function from RowOf because the
      fields come from the block's first four lines alone, whatever the
      annotation line says; RowOf lays the annotation's dict over it. */
  function ScalarRow(file: string, frame: int, start: string, end: string, diff: int,
                     date: string, time: string): (r: Dict)
    ensures r.Keys == SCALAR_KEYS
    ensures r[FILENAME] == Str(file) && r[DATE] == Str(date) && r[TIME] == Str(time)
    ensures r[DIFF_TIME] == Int(diff)
  {
    map[FILENAME := Str(file), FRAME := Int(frame), TIME_INIT := Str(start), TIME_END := Str(end),
        DIFF_TIME := Int(diff), DATE := Str(date), TIME := Str(time)]
  }

  /** The row large_dataframe builds from one block of at least three lines:
      IndexError unless there are five, then the annotation's dict and the
      scalar fields; in the row literal the annotation's entries come last,
      so they win over a scalar field of the same name. */
  function RowOf(sub: seq<string>, file: string, toFloat: FloatParser): (r: Result<Row>)
    ensures |sub| < 5 ==> r == Err(IndexError)
    ensures r.Ok? <==> |sub| >= 5 && NormalizedMeta(sub[4], toFloat).Ok? && ScalarFields(sub, file).Ok?
    ensures r.Ok? ==> r.value.Keys == SCALAR_KEYS + NormalizedMeta(sub[4], toFloat).value.Keys
  {
    if |sub| < 5 then Err(IndexError)
    else match NormalizedMeta(sub[4], toFloat)
      case Err(e) => Err(e)
      case Ok(meta) =>
        match ScalarFields(sub, file)
        case Err(e) => Err(e)
        case Ok(scalars) => Ok(scalars + meta)
  }

  /** An entry of the annotation is in the row as the annotation has it; a
      scalar field is in the row only where the annotation has no entry of
      that name. */
  lemma MetadataWins(sub: seq<string>, file: string, toFloat: FloatParser)
    requires RowOf(sub, file, toFloat).Ok?
    ensures var row := RowOf(sub, file, toFloat).value;
      var meta := NormalizedMeta(sub[4], toFloat).value;
      var scalars := ScalarFields(sub, file).value;
      && (forall k :: k in meta ==> row[k] == meta[k])
      && (forall k :: k in scalars && k !in meta ==> row[k] == scalars[k])
  {
  }

  /** A row always has a float relative and absolute altitude, a string
      zoom ratio and a string or missing zoom delta. */
  lemma RowShape(sub: seq<string>, file: string, toFloat: FloatParser)
    requires RowOf(sub, file, toFloat).Ok?
    ensures var row := RowOf(sub, file, toFloat).value;
      && row[REL_ALT].Float? && row[ABS_ALT].Float?
      && row[DZOOM].Str? && (row[DZOOM_DELTA].Str? || row[DZOOM_DELTA].Null?)
  {
    MetadataWins(sub, file, toFloat);
  }

  /** The lines around the annotation as a subtitle file writes them. */
  function BlockLines(frame: nat, start: string, end: string, counter: string, diff: nat,
                      date: string, time: string, annotation: string): seq<string>
  {
    [NatToString(frame), start + TIME_SEP + end, counter + DIFF_TAG + NatToString(diff) + MS,
     date + SPACE + time, annotation]
  }

  /** The timing line gives back its start and end. */
  lemma TimesRoundTrip(start: string, end: string)
    requires ' ' !in start && ' ' !in end
    ensures Split(start + TIME_SEP + end, TIME_SEP) == [start, end]
  {
    FindMissingLead(end, TIME_SEP);
    SplitAtSep(start, TIME_SEP, end);
  }

  /** The counter line gives back its frame gap in milliseconds. */
  lemma DiffRoundTrip(counter: string, diff: nat)
    requires 'D' !in counter
    ensures var parts := Split(counter + DIFF_TAG + NatToString(diff) + MS, DIFF_TAG);
      |parts| >= 2 && PyInt(ReplaceAll(parts[1], MS, [])) == Some(diff)
  {
    var digits := NatToString(diff);
    assert 'D' !in digits + MS && 'm' !in digits by {
      assert forall i :: 0 <= i < |digits| ==> IsDigit(digits[i]);
    }
    FindMissingLead(digits + MS, DIFF_TAG);
    assert counter + DIFF_TAG + digits + MS == counter + DIFF_TAG + (digits + MS);
    SplitAtSep(counter, DIFF_TAG, digits + MS);
    DeleteTrailing(digits, MS);
    PyIntOfNat(diff);
  }

  /** The clock line gives back its date and time. */
  lemma StampRoundTrip(date: string, time: string)
    requires ' ' !in date && ' ' !in time
    ensures Split(date + SPACE + time, SPACE) == [date, time]
  {
    FindMissingLead(time, SPACE);
    SplitAtSep(date, SPACE, time);
  }

  /** Reading the written lines gives back the values written. */
  lemma ScalarFieldsRoundTrip(frame: nat, start: string, end: string, counter: string, diff: nat,
                              date: string, time: string, annotation: string, file: string)
    requires ' ' !in start && ' ' !in end && ' ' !in date && ' ' !in time && 'D' !in counter
    ensures ScalarFields(BlockLines(frame, start, end, counter, diff, date, time, annotation), file)
      == Ok(ScalarRow(file, frame, start, end, diff, date, time))
  {
    var sub := BlockLines(frame, start, end, counter, diff, date, time, annotation);
    FrameReadBack(frame, start, end, counter, diff, date, time, annotation);
    GapReadBack(frame, start, end, counter, diff, date, time, annotation);
    TextsReadBack(frame, start, end, counter, diff, date, time, annotation);
    ScalarFieldsOfParts(sub, file, frame, start, end, diff, date, time);
  }

  /** The counter line reads back as the frame number written. */
  lemma FrameReadBack(frame: nat, start: string, end: string, counter: string, diff: nat,
                      date: string, time: string, annotation: string)
    ensures var sub := BlockLines(frame, start, end, counter, diff, date, time, annotation);
      PyInt(sub[0]) == Some(frame as int)
  {
    PyIntOfNat(frame);
  }

  /** The timing counter line reads back as the frame gap written. */
  lemma GapReadBack(frame: nat, start: string, end: string, counter: string, diff: nat,
                    date: string, time: string, annotation: string)
    requires 'D' !in counter
    ensures var sub := BlockLines(frame, start, end, counter, diff, date, time, annotation);
      var parts := Split(sub[2], DIFF_TAG);
      |parts| >= 2 && PyInt(ReplaceAll(parts[1], MS, [])) == Some(diff as int)
  {
    DiffRoundTrip(counter, diff);
  }

  /** The timing line and the date line read back as the texts written. */
  lemma TextsReadBack(frame: nat, start: string, end: string, counter: string, diff: nat,
                      date: string, time: string, annotation: string)
    requires ' ' !in start && ' ' !in end && ' ' !in date && ' ' !in time
    ensures var sub := BlockLines(frame, start, end, counter, diff, date, time, annotation);
      Split(sub[1], TIME_SEP) == [start, end] && Split(sub[3], SPACE) == [date, time]
  {
    TimesRoundTrip(start, end);
    StampRoundTrip(date, time);
  }

  /** The scalar fields of lines whose pieces read as the given values. */
  lemma ScalarFieldsOfParts(sub: seq<string>, file: string, frame: int, start: string, end: string,
                            diff: int, date: string, time: string)
    requires |sub| >= 4 && PyInt(sub[0]) == Some(frame) && Split(sub[1], TIME_SEP) == [start, end]
    requires var parts := Split(sub[2], DIFF_TAG);
      |parts| >= 2 && PyInt(ReplaceAll(parts[1], MS, [])) == Some(diff)
    requires Split(sub[3], SPACE) == [date, time]
    ensures ScalarFields(sub, file) == Ok(ScalarRow(file, frame, start, end, diff, date, time))
  {
  }

  // ------------------------------------------------------------- rows

  /** What the loop body does with one kept block. */
  type Builder = seq<string> -> Result<Row>

  /** The loop body of large_dataframe for the given file. */
  function RowBuilder(file: string, toFloat: FloatParser): Builder {
    sub => RowOf(sub, file, toFloat)
  }

  /** The blocks the loop does not skip: those of three lines or more. */
  function Kept(subs: seq<seq<string>>): (r: seq<seq<string>>)
    ensures forall s :: s in r ==> |s| >= 3
    ensures |r| <= |subs|
  {
    if subs == [] then []
    else
      var init := Kept(subs[..|subs| - 1]);
      var last := subs[|subs| - 1];
      if |last| < 3 then init else init + [last]
  }

  /** The rows of the loop of large_dataframe, in block order, or the first
      exception a block raises. */
  function RowsOf(subs: seq<seq<string>>, build: Builder): (r: Result<seq<Row>>)
    ensures r.Ok? ==> |r.value| <= |subs|
    ensures r.Ok? ==> forall k :: 0 <= k < |subs| && |subs[k]| >= 3 ==> build(subs[k]).Ok?
    ensures r.Err? ==> exists k :: && 0 <= k < |subs| && |subs[k]| >= 3 && build(subs[k]) == Err(r.error)
                                   && forall j :: 0 <= j < k && |subs[j]| >= 3 ==> build(subs[j]).Ok?
  {
    if subs == [] then Ok([])
    else
      var init := subs[..|subs| - 1];
      assert forall j :: 0 <= j < |init| ==> init[j] == subs[j];
      match RowsOf(init, build)
      case Err(e) => Err(e)
      case Ok(rows) =>
        var sub := subs[|subs| - 1];
        if |sub| < 3 then Ok(rows)
        else match build(sub)
          case Err(e) => Err(e)
          case Ok(row) => Ok(rows + [row])
  }

  /** An exception raised on a prefix of the blocks ends the loop there. */
  lemma {:induction false} RowsOfErrSticks(subs: seq<seq<string>>, k: nat, build: Builder)
    requires k <= |subs| && RowsOf(subs[..k], build).Err?
    ensures RowsOf(subs, build) == RowsOf(subs[..k], build)
    decreases |subs|
  {
    if k < |subs| {
      assert subs[..|subs| - 1][..k] == subs[..k];
      RowsOfErrSticks(subs[..|subs| - 1], k, build);
    } else {
      assert subs[..k] == subs;
    }
  }

  /** The loop succeeds exactly when every block it keeps builds a row, and
      then there is one row per kept block, in order. */
  lemma {:induction false} RowsOfKept(subs: seq<seq<string>>, build: Builder)
    ensures RowsOf(subs, build).Ok? <==> forall j :: 0 <= j < |Kept(subs)| ==> build(Kept(subs)[j]).Ok?
    ensures RowsOf(subs, build).Ok? ==>
      && |RowsOf(subs, build).value| == |Kept(subs)|
      && forall j :: 0 <= j < |Kept(subs)| ==> RowsOf(subs, build).value[j] == build(Kept(subs)[j]).value
    decreases |subs|
  {
    if subs != [] {
      var init := subs[..|subs| - 1];
      var last := subs[|subs| - 1];
      RowsOfKept(init, build);
      var kInit := Kept(init);
      if |last| >= 3 {
        var k := Kept(subs);
        assert k == kInit + [last];
        assert k[|kInit|] == last;
        assert forall j :: 0 <= j < |kInit| ==> k[j] == kInit[j];
        if RowsOf(init, build).Err? {
          assert RowsOf(subs, build).Err?;
          var j :| 0 <= j < |kInit| && !build(kInit[j]).Ok?;
          assert !build(k[j]).Ok?;
          assert !(forall i :: 0 <= i < |Kept(subs)| ==> build(Kept(subs)[i]).Ok?);
        } else if build(last).Err? {
          assert !build(k[|kInit|]).Ok?;
        } else {
          assert forall j :: 0 <= j < |k| ==> build(k[j]).Ok? by {
            forall j | 0 <= j < |k| ensures build(k[j]).Ok? {
              if j < |kInit| {
                assert k[j] == kInit[j];
              }
            }
          }
        }
      } else {
        assert Kept(subs) == kInit;
        assert RowsOf(subs, build) == RowsOf(init, build);
      }
    }
  }

  /** A block of fewer than three lines, such as the empty one after a
      trailing blank line, adds no row and raises nothing. */
  lemma ShortBlockSkipped(subs: seq<seq<string>>, short: seq<string>, build: Builder)
    requires |short| < 3
    ensures RowsOf(subs + [short], build) == RowsOf(subs, build)
  {
    assert (subs + [short])[..|subs|] == subs;
  }

  /** Every block the loop keeps has at least five lines when it succeeds:
      a block of three or four lines raises IndexError. */
  lemma KeptBlocksAreLong(subs: seq<seq<string>>, file: string, toFloat: FloatParser)
    requires RowsOf(subs, RowBuilder(file, toFloat)).Ok?
    ensures forall s :: s in Kept(subs) ==> |s| >= 5
  {
    RowsOfKept(subs, RowBuilder(file, toFloat));
    forall s | s in Kept(subs)
      ensures |s| >= 5
    {
      var j :| 0 <= j < |Kept(subs)| && Kept(subs)[j] == s;
      assert RowBuilder(file, toFloat)(s).Ok?;
    }
  }

  /** The frame large_dataframe returns: its rows, unless selecting the
      columns to cast raises KeyError because no row has one of them. The
      casts themselves are not modelled. */
  function LargeFrame(subs: seq<seq<string>>, file: string, toFloat: FloatParser): (r: Result<seq<Row>>)
    ensures r.Ok? <==> (RowsOf(subs, RowBuilder(file, toFloat)).Ok?
      && FirstMissing(RowsOf(subs, RowBuilder(file, toFloat)).value, AS_INT_COLS).None?
      && FirstMissing(RowsOf(subs, RowBuilder(file, toFloat)).value, AS_FLOAT_COLS).None?)
    ensures r.Ok? ==> r.value == RowsOf(subs, RowBuilder(file, toFloat)).value
    ensures r.Ok? ==> forall c :: c in AS_INT_COLS + AS_FLOAT_COLS ==> HasColumn(r.value, c)
  {
    match RowsOf(subs, RowBuilder(file, toFloat))
    case Err(e) => Err(e)
    case Ok(rows) =>
      match FirstMissing(rows, AS_INT_COLS)
      case Some(c) => Err(KeyError(c))
      case None =>
        match FirstMissing(rows, AS_FLOAT_COLS)
        case Some(c) => Err(KeyError(c))
        case None => Ok(rows)
  }

  /** Every row the loop builds has the file name, frame, timing and clock
      columns. */
  lemma RowsHaveScalarKeys(subs: seq<seq<string>>, file: string, toFloat: FloatParser)
    requires RowsOf(subs, RowBuilder(file, toFloat)).Ok?
    ensures forall row :: row in RowsOf(subs, RowBuilder(file, toFloat)).value ==> SCALAR_KEYS <= row.Keys
  {
    var rows := RowsOf(subs, RowBuilder(file, toFloat)).value;
    RowsOfKept(subs, RowBuilder(file, toFloat));
    forall row | row in rows
      ensures SCALAR_KEYS <= row.Keys
    {
      var j :| 0 <= j < |rows| && rows[j] == row;
      assert RowBuilder(file, toFloat)(Kept(subs)[j]).Ok?;
    }
  }

  /** A file with no block to keep gives no rows, so the frame has none of
      the columns to cast and large_dataframe raises KeyError. */
  lemma NoBlocksNoFrame(subs: seq<seq<string>>, file: string, toFloat: FloatParser)
    requires forall s :: s in subs ==> |s| < 3
    ensures LargeFrame(subs, file, toFloat) == Err(KeyError("frame"))
  {
    var build := RowBuilder(file, toFloat);
    RowsOfKept(subs, build);
    assert Kept(subs) == [] by {
      if Kept(subs) != [] {
        KeptFrom(subs, Kept(subs)[0]);
      }
    }
    assert RowsOf(subs, build) == Ok([]);
    assert !HasColumn([], "frame");
    assert FirstMissing([], AS_INT_COLS) == Some("frame");
  }

  /** Every kept block is one of the blocks. */
  lemma {:induction false} KeptFrom(subs: seq<seq<string>>, s: seq<string>)
    requires s in Kept(subs)
    ensures s in subs
    decreases |subs|
  {
    var init := subs[..|subs| - 1];
    if s in Kept(init) {
      KeptFrom(init, s);
    }
  }

  /** Keeping the blocks of two runs of blocks keeps those of the first,
      then those of the second: kept blocks stay in input order. */
  lemma {:induction false} KeptAppend(a: seq<seq<string>>, b: seq<seq<string>>)
    ensures Kept(a + b) == Kept(a) + Kept(b)
    decreases |b|
  {
    if b == [] {
      assert a + b == a;
    } else {
      var b' := b[..|b| - 1];
      assert (a + b)[..|a + b| - 1] == a + b';
      assert (a + b)[|a + b| - 1] == b[|b| - 1];
      KeptAppend(a, b');
    }
  }

  /** Every block of three lines or more is kept, as often as it occurs,
      and no other block is. */
  lemma {:induction false} KeptCount(subs: seq<seq<string>>, s: seq<string>)
    ensures multiset(Kept(subs))[s] == if |s| >= 3 then multiset(subs)[s] else 0
    decreases |subs|
  {
    if subs != [] {
      var init := subs[..|subs| - 1];
      var last := subs[|subs| - 1];
      KeptCount(init, s);
      assert subs == init + [last];
      assert multiset(subs) == multiset(init) + multiset{last};
    }
  }

  // ---------------------------------------------------------- methods

  /** What the loop body of large_dataframe does with the annotation line:
      parse it, then let the metadata object normalise its zoom and its
      altitude in place. */
  method NormalizeAnnotation(line: string, toFloat: FloatParser) returns (r: Result<Dict>)
    ensures r == NormalizedMeta(line, toFloat)
  {
    var parsed := ParseRawMetadata(line, toFloat);
    if parsed.Err? {
      return Err(parsed.error);
    }
    var metadata := new Metadata(parsed.value);
    var err := metadata.ProcessDzoom();
    if err.Some? {
      return Err(err.value);
    }
    err := metadata.ProcessAltitude(toFloat);
    if err.Some? {
      return Err(err.value);
    }
    return Ok(metadata.entries);
  }

  /** One pass of the loop body of large_dataframe for a kept block: the
      annotation first, then the row literal around it. */
  method BuildRow(sub: seq<string>, file: string, toFloat: FloatParser) returns (r: Result<Row>)
    ensures r == RowOf(sub, file, toFloat)
  {
    if |sub| < 5 {
      return Err(IndexError);
    }
    var meta := NormalizeAnnotation(sub[4], toFloat);
    if meta.Err? {
      return Err(meta.error);
    }
    var scalars := ScalarFields(sub, file);
    if scalars.Err? {
      return Err(scalars.error);
    }
    return Ok(scalars.value + meta.value);
  }

  /** large_dataframe: a row per kept block, then the column check of the
      casts. */
  method LargeDataframe(subsections: seq<seq<string>>, file: string, toFloat: FloatParser)
    returns (r: Result<seq<Row>>)
    ensures r == LargeFrame(subsections, file, toFloat)
  {
    var data: seq<Row> := [];
    for k := 0 to |subsections|
      invariant RowsOf(subsections[..k], RowBuilder(file, toFloat)) == Ok(data)
    {
      var subsection := subsections[k];
      assert subsections[..k + 1][..k] == subsections[..k];
      if |subsection| < 3 {
        continue;
      }
      var row := BuildRow(subsection, file, toFloat);
      if row.Err? {
        RowsOfErrSticks(subsections, k + 1, RowBuilder(file, toFloat));
        return Err(row.error);
      }
      data := data + [row.value];
    }
    assert subsections[..|subsections|] == subsections;
    var missing := FirstMissing(data, AS_INT_COLS);
    if missing.Some? {
      return Err(KeyError(missing.value));
    }
    missing := FirstMissing(data, AS_FLOAT_COLS);
    if missing.Some? {
      return Err(KeyError(missing.value));
    }
    return Ok(data);
  }
}
