/**
 * The tables the merge modes move around: a pandas DataFrame reduced to its
 * ordered column labels and its rows of cells. A cell is either missing (NaN)
 * or the text it holds.
 */
module Tables {

  datatype Cell = Missing | Text(text: string)

  type Row = seq<Cell>

  datatype Frame = Frame(columns: seq<string>, rows: seq<Row>)

  /** A table together with the sheet name it was read from or is written under. */
  datatype NamedFrame = NamedFrame(name: string, frame: Frame)

  /** Every row has one cell per column, as in any DataFrame. */
  predicate Rectangular(f: Frame) {
    forall i :: 0 <= i < |f.rows| ==> |f.rows[i]| == |f.columns|
  }

  /** `DataFrame.empty`: no rows or no columns. */
  predicate IsEmpty(f: Frame) {
    |f.columns| == 0 || |f.rows| == 0
  }

  /** The rows of several tables, one after another (`pd.concat(..., ignore_index=True)` on equal columns). */
  function ConcatRows(frames: seq<Frame>): (r: seq<Row>)
    ensures frames == [] ==> r == []
  {
    if frames == [] then [] else frames[0].rows + ConcatRows(frames[1..])
  }

  function TotalRows(frames: seq<Frame>): nat {
    if frames == [] then 0 else |frames[0].rows| + TotalRows(frames[1..])
  }

  lemma {:induction false} ConcatRowsLength(frames: seq<Frame>)
    ensures |ConcatRows(frames)| == TotalRows(frames)
  {
    if frames != [] { ConcatRowsLength(frames[1..]); }
  }

  /** Tables that share their columns and are rectangular stack into a rectangular table. */
  lemma {:induction false} ConcatRowsRectangular(frames: seq<Frame>, columns: seq<string>)
    requires forall k :: 0 <= k < |frames| ==> frames[k].columns == columns && Rectangular(frames[k])
    ensures Rectangular(Frame(columns, ConcatRows(frames)))
  {
    if frames != [] {
      ConcatRowsRectangular(frames[1..], columns);
      var rest := ConcatRows(frames[1..]);
      assert forall i :: 0 <= i < |rest| ==> |rest[i]| == |columns|;
      assert forall i :: 0 <= i < |frames[0].rows| ==> |frames[0].rows[i]| == |columns|;
    }
  }
}
