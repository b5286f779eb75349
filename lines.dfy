/** `clearLines` of sketch.js, Version_1_3 and Version_3_3: a bottom-up scan
    that removes each full row with `splice` and puts a zero row on top with
    `unshift`. The scan index still moves up after a removal, so the row that
    slides down into the removed row's index is not looked at again. */
module Lines {
  import opened Cells

  /** `board.splice(y, 1); board.unshift(top)`: row y is removed, the rows
      above it move down one index, `top` becomes row 0, rows below y stay. */
  function Compact(b: Board, y: nat, top: seq<Cell>): (r: Board)
    requires y < |b|
    ensures |r| == |b| && r[0] == top
    ensures forall k :: 1 <= k <= y ==> r[k] == b[k - 1]
    ensures forall k :: y < k < |b| ==> r[k] == b[k]
  {
    [top] + b[..y] + b[y + 1..]
  }

  /** The play-region test: the first `playCols` cells of the row are all `!== 0`. */
  predicate RowFull(row: seq<Cell>, playCols: nat)
    requires playCols <= |row|
  {
    forall x :: 0 <= x < playCols ==> row[x] != Empty
  }

  /** The scan from row y upwards; `width` is the width of the inserted zero row. */
  function SweepFrom(b: Board, y: int, playCols: nat, width: nat): Board
    requires IsBoard(b, |b|, width) && playCols <= width && y < |b|
    decreases y + 1
  {
    if y < 0 then b
    else if RowFull(b[y], playCols) then SweepFrom(Compact(b, y, EmptyRow(width)), y - 1, playCols, width)
    else SweepFrom(b, y - 1, playCols, width)
  }

  /** `clearLines()` on board b: the scan from the bottom row. */
  function Sweep(b: Board, playCols: nat, width: nat): Board
    requires IsBoard(b, |b|, width) && playCols <= width
  {
    SweepFrom(b, |b| - 1, playCols, width)
  }

  /** The scan keeps the row count and the row width, and never touches the
      rows below its starting row. */
  lemma {:induction false} SweepFromShape(b: Board, y: int, playCols: nat, width: nat)
    requires IsBoard(b, |b|, width) && playCols <= width && y < |b|
    ensures IsBoard(SweepFrom(b, y, playCols, width), |b|, width)
    ensures |SweepFrom(b, y, playCols, width)| == |b|
    ensures forall k :: 0 <= k < |b| && y < k ==> SweepFrom(b, y, playCols, width)[k] == b[k]
    decreases y + 1
  {
    if y >= 0 {
      if RowFull(b[y], playCols) {
        SweepFromShape(Compact(b, y, EmptyRow(width)), y - 1, playCols, width);
      } else {
        SweepFromShape(b, y - 1, playCols, width);
      }
    }
  }

  /** `clearLines` keeps the board at `|b|` rows of `width` cells. */
  lemma SweepKeepsShape(b: Board, playCols: nat, width: nat)
    requires IsBoard(b, |b|, width) && playCols <= width
    ensures IsBoard(Sweep(b, playCols, width), |b|, width)
  {
    SweepFromShape(b, |b| - 1, playCols, width);
  }

  /** With no full row from y up, the scan changes nothing. */
  lemma {:induction false} SweepNoneFull(b: Board, y: int, playCols: nat, width: nat)
    requires IsBoard(b, |b|, width) && playCols <= width && y < |b|
    requires forall k :: 0 <= k <= y ==> !RowFull(b[k], playCols)
    ensures SweepFrom(b, y, playCols, width) == b
    decreases y + 1
  {
    if y >= 0 {
      SweepNoneFull(b, y - 1, playCols, width);
    }
  }

  /** Rows that are not full only move the scan up. */
  lemma {:induction false} SweepPassesOver(b: Board, y: int, k: int, playCols: nat, width: nat)
    requires IsBoard(b, |b|, width) && playCols <= width && -1 <= y <= k < |b|
    requires forall m :: y < m <= k ==> !RowFull(b[m], playCols)
    ensures SweepFrom(b, k, playCols, width) == SweepFrom(b, y, playCols, width)
    decreases k - y
  {
    if k > y {
      SweepPassesOver(b, y, k - 1, playCols, width);
    }
  }

  /** Line-clear correctness: when row y is the only full row, `clearLines`
      removes exactly row y and puts one zero row on top. */
  lemma SweepSingleFull(b: Board, y: nat, playCols: nat, width: nat)
    requires IsBoard(b, |b|, width) && 0 < playCols <= width && y < |b|
    requires RowFull(b[y], playCols)
    requires forall k :: 0 <= k < |b| && k != y ==> !RowFull(b[k], playCols)
    ensures Sweep(b, playCols, width) == Compact(b, y, EmptyRow(width))
  {
    SweepPassesOver(b, y, |b| - 1, playCols, width);
    var c := Compact(b, y, EmptyRow(width));
    assert !RowFull(c[0], playCols) by { assert c[0][0] == Empty; }
    assert forall k :: 1 <= k < y ==> c[k] == b[k - 1];
    SweepNoneFull(c, y - 1, playCols, width);
  }

  /** The skipped row: when rows y-1 and y are both full (and nothing below
      is), one `clearLines` pass removes row y, but the old row y-1 slides into
      index y after the scan has moved on, so a full row is left on the board. */
  lemma SweepSkipsShiftedRow(b: Board, y: nat, playCols: nat, width: nat)
    requires IsBoard(b, |b|, width) && playCols <= width && 1 <= y < |b|
    requires RowFull(b[y], playCols) && RowFull(b[y - 1], playCols)
    requires forall k :: y < k < |b| ==> !RowFull(b[k], playCols)
    ensures |Sweep(b, playCols, width)| == |b|
    ensures Sweep(b, playCols, width)[y] == b[y - 1]
    ensures RowFull(Sweep(b, playCols, width)[y], playCols)
  {
    SweepPassesOver(b, y, |b| - 1, playCols, width);
    var c := Compact(b, y, EmptyRow(width));
    SweepFromShape(c, y - 1, playCols, width);
  }

  /** The loops of `clearLines`: rows from the bottom up, each tested cell by
      cell over the first `playCols` columns, stopping at the first zero. */
  method ClearLines(b: Board, playCols: nat, width: nat) returns (r: Board)
    requires IsBoard(b, |b|, width) && playCols <= width
    ensures r == Sweep(b, playCols, width)
    ensures IsBoard(r, |b|, width)
  {
    SweepKeepsShape(b, playCols, width);
    r := b;
    var y := |b| - 1;
    while y >= 0
      invariant -1 <= y < |b|
      invariant IsBoard(r, |b|, width)
      invariant SweepFrom(r, y, playCols, width) == Sweep(b, playCols, width)
      decreases y + 1
    {
      var fullLine := FullTest(r[y], playCols);
      if fullLine {
        r := Compact(r, y, EmptyRow(width));
      }
      y := y - 1;
    }
  }

  /** The row test of `clearLines`: the play cells are checked left to right,
      stopping at the first zero. */
  method FullTest(row: seq<Cell>, playCols: nat) returns (full: bool)
    requires playCols <= |row|
    ensures full == RowFull(row, playCols)
  {
    full := true;
    var x := 0;
    while x < playCols
      invariant 0 <= x <= playCols
      invariant forall x' :: 0 <= x' < x ==> row[x'] != Empty
    {
      if row[x] == Empty {
        full := false;
        break;
      }
      x := x + 1;
    }
  }
}
