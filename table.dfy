/** A pandas DataFrame built from a list of dicts, as the pipeline uses it:
    one dict per row, a column for every key any row has. A row without a
    key holds NaN in that column. */
module Table {
  import opened Common
  import opened Annotation

  type Row = Dict

  /** Column `c` exists in the frame built from `rows`: some row has it. */
  predicate HasColumn(rows: seq<Row>, c: string) {
    exists i :: 0 <= i < |rows| && c in rows[i]
  }

  /** The first of `cols` that is no column of the frame, if any. */
  function FirstMissing(rows: seq<Row>, cols: seq<string>): (r: Option<string>)
    ensures r.None? <==> forall j :: 0 <= j < |cols| ==> HasColumn(rows, cols[j])
    ensures r.Some? ==> exists j :: (0 <= j < |cols| && cols[j] == r.value
      && !HasColumn(rows, cols[j])
      && forall j' :: 0 <= j' < j ==> HasColumn(rows, cols[j']))
  {
    if cols == [] then None
    else if !HasColumn(rows, cols[0]) then Some(cols[0])
    else
      var r := FirstMissing(rows, cols[1..]);
      if r.Some? then
        var j :| 0 <= j < |cols[1..]| && cols[1..][j] == r.value
          && !HasColumn(rows, cols[1..][j])
          && forall j' :: 0 <= j' < j ==> HasColumn(rows, cols[1..][j']);
        assert cols[j + 1] == r.value && !HasColumn(rows, cols[j + 1]);
        assert forall j' :: 0 <= j' < j + 1 ==> HasColumn(rows, cols[j']) by {
          forall j' | 0 <= j' < j + 1 ensures HasColumn(rows, cols[j']) {
            if j' > 0 {
              assert cols[j'] == cols[1..][j' - 1];
            }
          }
        }
        r
      else
        assert forall j :: 0 <= j < |cols| ==> HasColumn(rows, cols[j]) by {
          forall j | 0 <= j < |cols| ensures HasColumn(rows, cols[j]) {
            if j > 0 {
              assert cols[j] == cols[1..][j - 1];
            }
          }
        }
        r
  }

  /** A row cut down to the given columns. */
  function Project(row: Row, cols: set<string>): (r: Row)
    ensures r.Keys == row.Keys * cols
    ensures forall k :: k in r ==> r[k] == row[k]
  {
    map k | k in row && k in cols :: row[k]
  }

  /** A frame: its column labels in order and its rows. */
  datatype Frame = Frame(columns: seq<string>, rows: seq<Row>)

  /** df[cols]: KeyError naming the first column the frame lacks, otherwise
      every row cut down to those columns, in the order given. */
  function Select(rows: seq<Row>, cols: seq<string>): (r: Result<Frame>)
    ensures r.Err? <==> FirstMissing(rows, cols).Some?
    ensures r.Err? ==> r.error == KeyError(FirstMissing(rows, cols).value)
    ensures r.Ok? ==> r.value.columns == cols && |r.value.rows| == |rows|
    ensures r.Ok? ==> forall i :: 0 <= i < |rows| ==>
      r.value.rows[i].Keys == rows[i].Keys * (set c | c in cols)
      && forall k :: k in r.value.rows[i] ==> r.value.rows[i][k] == rows[i][k]
  {
    match FirstMissing(rows, cols)
    case Some(c) => Err(KeyError(c))
    case None =>
      var keep := set c | c in cols;
      Ok(Frame(cols, seq(|rows|, i requires 0 <= i < |rows| => Project(rows[i], keep))))
  }

  /** Selected rows have only selected columns, and keep every selected
      column that all the rows had. */
  lemma SelectedRows(rows: seq<Row>, cols: seq<string>, keys: set<string>)
    requires Select(rows, cols).Ok?
    requires forall row :: row in rows ==> keys <= row.Keys
    requires forall c :: c in keys ==> c in cols
    ensures forall row :: row in Select(rows, cols).value.rows ==>
      keys <= row.Keys && forall c :: c in row ==> c in cols
  {
    var out := Select(rows, cols).value.rows;
    forall row | row in out
      ensures keys <= row.Keys && forall c :: c in row ==> c in cols
    {
      var i :| 0 <= i < |out| && out[i] == row;
      assert rows[i] in rows;
    }
  }

  /** Selecting every column a frame has, in any order, keeps each row whole. */
  lemma SelectAll(rows: seq<Row>, cols: seq<string>)
    requires forall j :: 0 <= j < |cols| ==> HasColumn(rows, cols[j])
    requires forall i, k :: 0 <= i < |rows| && k in rows[i] ==> k in cols
    ensures Select(rows, cols).Ok? && Select(rows, cols).value.rows == rows
  {
    var out := Select(rows, cols).value.rows;
    forall i | 0 <= i < |rows|
      ensures out[i] == rows[i]
    {
      assert out[i].Keys == rows[i].Keys;
    }
  }

  /** Selecting the same columns again changes nothing. */
  lemma SelectTwice(rows: seq<Row>, cols: seq<string>)
    requires Select(rows, cols).Ok?
    ensures Select(Select(rows, cols).value.rows, cols) == Select(rows, cols)
  {
    var out := Select(rows, cols).value.rows;
    forall j | 0 <= j < |cols|
      ensures HasColumn(out, cols[j])
    {
      var i :| 0 <= i < |rows| && cols[j] in rows[i];
      assert cols[j] in out[i];
    }
    assert FirstMissing(out, cols).None?;
    var again := Select(out, cols).value.rows;
    forall i | 0 <= i < |rows|
      ensures again[i] == out[i]
    {
      assert again[i].Keys == out[i].Keys;
    }
    assert again == out;
  }
}
