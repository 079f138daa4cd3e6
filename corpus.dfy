/** process_dir: every subtitle file of a directory turned into rows with
    large_dataframe, each frame cut down to the fixed column order by
    reorder_cols and appended to one frame, file after file. The directory
    listing and the reading of each file are replaced by a list of
    (name, content) pairs in listing order. */
module Corpus {
  import opened Common
  import opened PyStr
  import opened Annotation
  import opened Table
  import opened Blocks

  /** The suffix of the files process_dir reads. */
  const SRT: string := ".SRT"

  const COLOR_MD: string := "color_md"

  /** The column order every file's frame is put in. */
  const COLS_ORDER: seq<string> :=
    ["filename", "frame", "time_init", "time_end", "diff_time_ms", "date", "time", "iso", "shutter",
     "fnum", "ev", "ct", "color_md", "focal_len", "dzoom_ratio", "dzoom_ratio_delta", "latitude",
     "longitude", "rel_alt", "abs_alt"]

  // ------------------------------------------------------------ concat

  /** The columns of `b` that `a` does not have, in the order of `b`. */
  function Fresh(a: seq<string>, b: seq<string>): (r: seq<string>)
    ensures forall c :: c in r <==> c in b && c !in a
  {
    if b == [] then [] else (if b[0] in a then [] else [b[0]]) + Fresh(a, b[1..])
  }

  /** Against no columns at all, every column is fresh. */
  lemma {:induction false} FreshOfNone(b: seq<string>)
    ensures Fresh([], b) == b
  {
    if b != [] {
      FreshOfNone(b[1..]);
    }
  }

  /** pd.concat of two frames with ignore_index: the rows of the first, then
      those of the second; the columns of the first, then the columns only
      the second has. */
  function Concat(a: Frame, b: Frame): (r: Frame)
    ensures |r.columns| >= |a.columns| && r.columns[..|a.columns|] == a.columns
    ensures forall c :: c in r.columns <==> c in a.columns || c in b.columns
    ensures |r.rows| == |a.rows| + |b.rows|
    ensures r.rows[..|a.rows|] == a.rows && r.rows[|a.rows|..] == b.rows
  {
    Frame(a.columns + Fresh(a.columns, b.columns), a.rows + b.rows)
  }

  /** Appending to the empty frame process_dir starts from gives the frame
      appended. */
  lemma ConcatToEmpty(b: Frame)
    ensures Concat(Frame([], []), b) == b
  {
    FreshOfNone(b.columns);
  }

  /** Appending a frame whose columns the first already has keeps the
      columns of the first. */
  lemma ConcatSameColumns(a: Frame, b: Frame)
    requires forall c :: c in b.columns ==> c in a.columns
    ensures Concat(a, b).columns == a.columns
  {
    NothingFresh(a.columns, b.columns);
  }

  /** No column is fresh when the first list has them all. */
  lemma {:induction false} NothingFresh(a: seq<string>, b: seq<string>)
    requires forall c :: c in b ==> c in a
    ensures Fresh(a, b) == []
  {
    if b != [] {
      NothingFresh(a, b[1..]);
    }
  }

  // ---------------------------------------------------------- one file

  /** What one subtitle file adds: the frame of large_dataframe over its
      blocks, cut down to the column order by reorder_cols, or the first
      exception either raises. */
  function FilePortion(name: string, content: string, toFloat: FloatParser): (r: Result<Frame>)
    ensures r.Ok? ==> r.value.columns == COLS_ORDER
    ensures r.Ok? ==> (LargeFrame(Subsections(content), name, toFloat).Ok?
      && |r.value.rows| == |LargeFrame(Subsections(content), name, toFloat).value|)
  {
    match LargeFrame(Subsections(content), name, toFloat)
    case Err(e) => Err(e)
    case Ok(rows) => Select(rows, COLS_ORDER)
  }

  /** Every column of the order other than the colour mode is a field the
      row literal always sets or one of the columns checked for the casts. */
  lemma OrderCovered()
    ensures forall c :: c in COLS_ORDER ==>
      c == COLOR_MD || c in SCALAR_KEYS || c in AS_INT_COLS + AS_FLOAT_COLS
  {
  }

  /** Rows that have the scalar fields and every cast column can only miss
      the colour-mode column of the order. */
  lemma OrderMissing(rows: seq<Row>)
    requires rows != [] && SCALAR_KEYS <= rows[0].Keys
    requires forall c :: c in AS_INT_COLS + AS_FLOAT_COLS ==> HasColumn(rows, c)
    ensures FirstMissing(rows, COLS_ORDER) == if HasColumn(rows, COLOR_MD) then None else Some(COLOR_MD)
  {
    OrderCovered();
    forall c | c in SCALAR_KEYS
      ensures HasColumn(rows, c)
    {
      assert c in rows[0];
    }
    var missing := FirstMissing(rows, COLS_ORDER);
    if missing.Some? {
      var j :| 0 <= j < |COLS_ORDER| && COLS_ORDER[j] == missing.value && !HasColumn(rows, COLS_ORDER[j]);
      assert COLS_ORDER[j] in COLS_ORDER;
    } else {
      assert COLS_ORDER[12] == COLOR_MD;
    }
  }

  /** Once large_dataframe succeeds, reorder_cols can only fail on the
      colour-mode column: every other column of the order is either a field
      every row has or one of the columns already checked for the casts. */
  lemma PortionNeedsColorMode(name: string, content: string, toFloat: FloatParser)
    requires LargeFrame(Subsections(content), name, toFloat).Ok?
    ensures FilePortion(name, content, toFloat).Err? <==>
      !HasColumn(LargeFrame(Subsections(content), name, toFloat).value, COLOR_MD)
    ensures FilePortion(name, content, toFloat).Err? ==>
      FilePortion(name, content, toFloat).error == KeyError(COLOR_MD)
  {
    var subs := Subsections(content);
    var rows := LargeFrame(subs, name, toFloat).value;
    RowsHaveScalarKeys(subs, name, toFloat);
    assert HasColumn(rows, FRAME);
    assert rows[0] in rows;
    OrderMissing(rows);
  }

  /** The rows one file adds have only columns of the order, and always the
      scalar fields. */
  lemma PortionRows(name: string, content: string, toFloat: FloatParser)
    requires FilePortion(name, content, toFloat).Ok?
    ensures forall row :: row in FilePortion(name, content, toFloat).value.rows ==>
      SCALAR_KEYS <= row.Keys && forall c :: c in row ==> c in COLS_ORDER
  {
    var subs := Subsections(content);
    var rows := LargeFrame(subs, name, toFloat).value;
    RowsHaveScalarKeys(subs, name, toFloat);
    SelectedRows(rows, COLS_ORDER, SCALAR_KEYS);
  }

  // ---------------------------------------------------------- all files

  /** The file is passed over, or read without an exception. */
  predicate ReadsCleanly(file: (string, string), toFloat: FloatParser) {
    EndsWith(file.0, SRT) ==> FilePortion(file.0, file.1, toFloat).Ok?
  }

  /** The file is read and raises `e`. */
  predicate Raises(file: (string, string), toFloat: FloatParser, e: Error) {
    EndsWith(file.0, SRT) && FilePortion(file.0, file.1, toFloat) == Err(e)
  }

  /** The frame process_dir returns for the files in listing order, or the
      first exception a file raises. Files whose name does not end in
      `.SRT` are passed over. */
  function DirFrame(files: seq<(string, string)>, toFloat: FloatParser): Result<Frame>
  {
    if files == [] then Ok(Frame([], []))
    else
      match DirFrame(files[..|files| - 1], toFloat)
      case Err(e) => Err(e)
      case Ok(df) =>
        var (name, content) := files[|files| - 1];
        if !EndsWith(name, SRT) then Ok(df)
        else match FilePortion(name, content, toFloat)
          case Err(e) => Err(e)
          case Ok(portion) => Ok(Concat(df, portion))
  }

  /** process_dir returns a frame only when every `.SRT` file is read
      without an exception. */
  lemma {:induction false} DirFrameOk(files: seq<(string, string)>, toFloat: FloatParser)
    requires DirFrame(files, toFloat).Ok?
    ensures forall k {:trigger ReadsCleanly(files[k], toFloat)} :: 0 <= k < |files| ==> ReadsCleanly(files[k], toFloat)
    decreases |files|
  {
    if files != [] {
      var init := files[..|files| - 1];
      DirFrameOk(init, toFloat);
      forall k | 0 <= k < |files|
        ensures ReadsCleanly(files[k], toFloat)
      {
        if k < |init| {
          assert files[k] == init[k];
        }
      }
    }
  }

  /** When process_dir raises, some `.SRT` file raises that exception and
      every file before it is read cleanly. */
  lemma {:induction false} DirFrameErr(files: seq<(string, string)>, toFloat: FloatParser)
    requires DirFrame(files, toFloat).Err?
    ensures exists k {:trigger Raises(files[k], toFloat, DirFrame(files, toFloat).error)} ::
      0 <= k < |files| && Raises(files[k], toFloat, DirFrame(files, toFloat).error)
      && forall j {:trigger ReadsCleanly(files[j], toFloat)} :: 0 <= j < k ==> ReadsCleanly(files[j], toFloat)
    decreases |files|
  {
    var init := files[..|files| - 1];
    var e := DirFrame(files, toFloat).error;
    if DirFrame(init, toFloat).Err? {
      assert DirFrame(init, toFloat).error == e by {
        DirFrameErrSticks(files, |files| - 1, toFloat);
      }
      DirFrameErr(init, toFloat);
      var k :| 0 <= k < |init| && Raises(init[k], toFloat, e)
        && forall j {:trigger ReadsCleanly(init[j], toFloat)} :: 0 <= j < k ==> ReadsCleanly(init[j], toFloat);
      assert files[k] == init[k];
      forall j | 0 <= j < k
        ensures ReadsCleanly(files[j], toFloat)
      {
        assert files[j] == init[j];
        assert ReadsCleanly(init[j], toFloat);
      }
    } else {
      DirFrameOk(init, toFloat);
      assert Raises(files[|files| - 1], toFloat, e) by {
        var (name, content) := files[|files| - 1];
        assert EndsWith(name, SRT) && FilePortion(name, content, toFloat) == Err(e);
      }
      forall j | 0 <= j < |init|
        ensures ReadsCleanly(files[j], toFloat)
      {
        assert files[j] == init[j];
        assert ReadsCleanly(init[j], toFloat);
      }
    }
  }

  /** The rows of every `.SRT` file that reads cleanly, file after file in
      listing order, each file's reordered rows in their own order. */
  function AllRows(files: seq<(string, string)>, toFloat: FloatParser): seq<Row> {
    if files == [] then []
    else
      var init := AllRows(files[..|files| - 1], toFloat);
      var (name, content) := files[|files| - 1];
      if EndsWith(name, SRT) && FilePortion(name, content, toFloat).Ok?
      then init + FilePortion(name, content, toFloat).value.rows
      else init
  }

  /** When process_dir returns a frame, its rows are those of every `.SRT`
      file, concatenated in listing order. */
  lemma {:induction false} DirFrameRowsAre(files: seq<(string, string)>, toFloat: FloatParser)
    requires DirFrame(files, toFloat).Ok?
    ensures DirFrame(files, toFloat).value.rows == AllRows(files, toFloat)
    decreases |files|
  {
    if files != [] {
      DirFrameRowsAre(files[..|files| - 1], toFloat);
    }
  }

  /** Some file of the list has a name ending in `.SRT`. */
  predicate HasSrt(files: seq<(string, string)>) {
    exists i :: 0 <= i < |files| && EndsWith(files[i].0, SRT)
  }

  /** The frame has the fixed column order as soon as one subtitle file has
      been read, and no column at all before. */
  lemma {:induction false} DirFrameColumns(files: seq<(string, string)>, toFloat: FloatParser)
    requires DirFrame(files, toFloat).Ok?
    ensures DirFrame(files, toFloat).value.columns == if HasSrt(files) then COLS_ORDER else []
    decreases |files|
  {
    if files != [] {
      var init := files[..|files| - 1];
      var (name, content) := files[|files| - 1];
      DirFrameColumns(init, toFloat);
      assert HasSrt(files) <==> HasSrt(init) || EndsWith(name, SRT) by {
        if HasSrt(init) {
          var i :| 0 <= i < |init| && EndsWith(init[i].0, SRT);
          assert files[i] == init[i];
        }
        if HasSrt(files) && !EndsWith(name, SRT) {
          var i :| 0 <= i < |files| && EndsWith(files[i].0, SRT);
          assert i < |init| && files[i] == init[i];
        }
      }
      if EndsWith(name, SRT) {
        var df := DirFrame(init, toFloat).value;
        var portion := FilePortion(name, content, toFloat).value;
        if HasSrt(init) {
          ConcatSameColumns(df, portion);
        } else {
          assert df == Frame([], []) by {
            NoSrtNoRows(init, toFloat);
          }
          ConcatToEmpty(portion);
        }
      }
    }
  }

  /** A directory without subtitle files gives the empty frame. */
  lemma {:induction false} NoSrtNoRows(files: seq<(string, string)>, toFloat: FloatParser)
    requires !HasSrt(files)
    ensures DirFrame(files, toFloat) == Ok(Frame([], []))
    decreases |files|
  {
    if files != [] {
      var init := files[..|files| - 1];
      NoSrtNoRows(init, toFloat);
      assert !EndsWith(files[|files| - 1].0, SRT);
    }
  }

  /** A file whose name does not end in `.SRT` changes nothing. */
  lemma OtherFileIgnored(files: seq<(string, string)>, name: string, content: string, toFloat: FloatParser)
    requires !EndsWith(name, SRT)
    ensures DirFrame(files + [(name, content)], toFloat) == DirFrame(files, toFloat)
  {
    assert (files + [(name, content)])[..|files|] == files;
  }

  /** An empty subtitle file has no block to keep, so large_dataframe raises
      KeyError on its casts and so does process_dir. */
  lemma EmptySrtFails(files: seq<(string, string)>, name: string, toFloat: FloatParser)
    requires EndsWith(name, SRT) && DirFrame(files, toFloat).Ok?
    ensures DirFrame(files + [(name, "")], toFloat) == Err(KeyError(FRAME))
  {
    assert (files + [(name, "")])[..|files|] == files;
    assert Split("", SECTION_SEP) == [""];
    assert Split("", LINE_SEP) == [""];
    assert Subsections("") == [[""]];
    NoBlocksNoFrame([[""]], name, toFloat);
  }

  /** Files are appended in listing order: the frame after the first `k`
      files is the start of the frame after all of them. */
  lemma {:induction false} DirFramePrefix(files: seq<(string, string)>, k: nat, toFloat: FloatParser)
    requires k <= |files| && DirFrame(files, toFloat).Ok?
    ensures DirFrame(files[..k], toFloat).Ok?
    ensures var before := DirFrame(files[..k], toFloat).value.rows;
      var after := DirFrame(files, toFloat).value.rows;
      |before| <= |after| && after[..|before|] == before
    decreases |files|
  {
    if k < |files| {
      var init := files[..|files| - 1];
      assert init[..k] == files[..k];
      DirFramePrefix(init, k, toFloat);
    } else {
      assert files[..k] == files;
    }
  }

  /** Every row of the result has exactly the columns of the order it has a
      value for, and always the file name, frame, timing and clock fields. */
  lemma {:induction false} DirFrameRows(files: seq<(string, string)>, toFloat: FloatParser)
    requires DirFrame(files, toFloat).Ok?
    ensures forall row :: row in DirFrame(files, toFloat).value.rows ==>
      SCALAR_KEYS <= row.Keys && forall c :: c in row ==> c in COLS_ORDER
    decreases |files|
  {
    if files != [] {
      var init := files[..|files| - 1];
      var (name, content) := files[|files| - 1];
      DirFrameRows(init, toFloat);
      if EndsWith(name, SRT) {
        PortionRows(name, content, toFloat);
      }
    }
  }

  // ------------------------------------------------------------ method

  /** process_dir over the listed files, appending each subtitle file's
      reordered frame in turn. */
  method ProcessDir(files: seq<(string, string)>, toFloat: FloatParser) returns (r: Result<Frame>)
    ensures r == DirFrame(files, toFloat)
  {
    var largeDf := Frame([], []);
    for k := 0 to |files|
      invariant DirFrame(files[..k], toFloat) == Ok(largeDf)
    {
      var (file, data) := files[k];
      assert files[..k + 1][..k] == files[..k];
      if EndsWith(file, SRT) {
        var subsections := Subsections(data);
        var largePortion := LargeDataframe(subsections, file, toFloat);
        if largePortion.Err? {
          DirFrameErrSticks(files, k + 1, toFloat);
          return Err(largePortion.error);
        }
        var reordered := Select(largePortion.value, COLS_ORDER);
        if reordered.Err? {
          DirFrameErrSticks(files, k + 1, toFloat);
          return Err(reordered.error);
        }
        largeDf := Concat(largeDf, reordered.value);
      }
    }
    assert files[..|files|] == files;
    return Ok(largeDf);
  }

  /** An exception raised by one file ends process_dir there. */
  lemma {:induction false} DirFrameErrSticks(files: seq<(string, string)>, k: nat, toFloat: FloatParser)
    requires k <= |files| && DirFrame(files[..k], toFloat).Err?
    ensures DirFrame(files, toFloat) == DirFrame(files[..k], toFloat)
    decreases |files|
  {
    if k < |files| {
      assert files[..|files| - 1][..k] == files[..k];
      DirFrameErrSticks(files[..|files| - 1], k, toFloat);
      assert DirFrame(files, toFloat) == DirFrame(files[..|files| - 1], toFloat);
    } else {
      assert files[..k] == files;
    }
  }
}
