/** Version_2/sketch.js: the belt prototype reworked. Committed cells are the
    number 1 (Solid) instead of a colour; a falling piece settles by itself in
    the belt, where the player may pick it up again; a belt row filled with 1s
    turns into belt background (-1); a non-zero belt cell in row 0 ends the
    game; and a new piece replaces the current one every ten seconds. There is
    no next piece. The pointer is given as a grid cell, the timer as a flag. */
module Version2 {
  import opened Shapes
  import opened Cells
  import opened Collision
  import Lines

  const Cols: nat := 10
  const BeltCols: nat := 4
  /** `cols + colsOfBelt`, the width of every board row. */
  const BoardWidth: nat := Cols + BeltCols
  const Rows: nat := 20

  // ---------------------------------------------------------------------
  // clearLines
  // ---------------------------------------------------------------------

  /** Every belt cell of the row holds a committed cell (`=== 1`). */
  predicate BeltFull(row: seq<Cell>)
    requires |row| == BoardWidth
  {
    forall x :: Cols <= x < BoardWidth ==> row[x] == Solid
  }

  /** The row with its belt cells reset to belt background (-1). */
  function Greyed(row: seq<Cell>): (r: seq<Cell>)
    requires |row| == BoardWidth
    ensures |r| == BoardWidth
    ensures forall x :: 0 <= x < Cols ==> r[x] == row[x]
    ensures forall x :: Cols <= x < BoardWidth ==> r[x] == BeltBg
  {
    row[..Cols] + seq(BeltCols, _ => BeltBg)
  }

  /** The row `unshift` puts on top when row y is removed: zeros over the play
      columns, then the belt cells of row 0 of the board after the `splice`,
      which is the old row 1 when y is 0 and the old row 0 otherwise. */
  function KeptBeltTop(b: Board, y: nat): (r: seq<Cell>)
    requires IsBoard(b, Rows, BoardWidth) && y < Rows
    ensures |r| == BoardWidth
    ensures forall x :: 0 <= x < Cols ==> r[x] == Empty
    ensures forall x :: Cols <= x < BoardWidth ==> r[x] == b[if y == 0 then 1 else 0][x]
  {
    EmptyRow(Cols) + (if y == 0 then b[1] else b[0])[Cols..]
  }

  /** The scan of `clearLines` from row y upwards. Both tests look at row y as
      it was before this step; a full play row is removed first, and a full
      belt is then greyed in whatever row sits at index y afterwards. */
  function SweepFrom(b: Board, y: int): (r: Board)
    requires IsBoard(b, Rows, BoardWidth) && y < Rows
    ensures IsBoard(r, Rows, BoardWidth)
    ensures forall k :: 0 <= k < Rows && y < k ==> r[k] == b[k]
    decreases y + 1
  {
    if y < 0 then b
    else
      var c := if Lines.RowFull(b[y], Cols) then Lines.Compact(b, y, KeptBeltTop(b, y)) else b;
      var d := if BeltFull(b[y]) then c[y := Greyed(c[y])] else c;
      SweepFrom(d, y - 1)
  }

  /** `clearLines()` on board b. */
  function Sweep(b: Board): (r: Board)
    requires IsBoard(b, Rows, BoardWidth)
    ensures IsBoard(r, Rows, BoardWidth)
  {
    SweepFrom(b, Rows - 1)
  }

  /** With no full play row from y up, the scan only greys the full belts. */
  lemma {:induction false} SweepGreysBelts(b: Board, y: int)
    requires IsBoard(b, Rows, BoardWidth) && y < Rows
    requires forall k :: 0 <= k <= y ==> !Lines.RowFull(b[k], Cols)
    ensures forall k :: 0 <= k < Rows ==>
      SweepFrom(b, y)[k] == if k <= y && BeltFull(b[k]) then Greyed(b[k]) else b[k]
    decreases y + 1
  {
    if y >= 0 {
      var d := if BeltFull(b[y]) then b[y := Greyed(b[y])] else b;
      assert forall k :: 0 <= k < y ==> d[k] == b[k];
      SweepGreysBelts(d, y - 1);
    }
  }

  /** Clearing without a full play row greys exactly the rows whose belt is full. */
  lemma SweepWithoutFullPlayRow(b: Board)
    requires IsBoard(b, Rows, BoardWidth)
    requires forall k :: 0 <= k < Rows ==> !Lines.RowFull(b[k], Cols)
    ensures forall k :: 0 <= k < Rows ==>
      Sweep(b)[k] == if BeltFull(b[k]) then Greyed(b[k]) else b[k]
  {
    SweepGreysBelts(b, Rows - 1);
  }

  /** Rows with neither a full play area nor a full belt only move the scan up. */
  lemma {:induction false} SweepPassesOver(b: Board, y: int, k: int)
    requires IsBoard(b, Rows, BoardWidth) && -1 <= y <= k < Rows
    requires forall m :: y < m <= k ==> !Lines.RowFull(b[m], Cols) && !BeltFull(b[m])
    ensures SweepFrom(b, k) == SweepFrom(b, y)
    decreases k - y
  {
    if k > y {
      SweepPassesOver(b, y, k - 1);
    }
  }

  /** One step of the scan on a row with a full play area and a non-full belt. */
  lemma SweepRemovesRow(b: Board, y: nat)
    requires IsBoard(b, Rows, BoardWidth) && y < Rows
    requires Lines.RowFull(b[y], Cols) && !BeltFull(b[y])
    ensures IsBoard(Lines.Compact(b, y, KeptBeltTop(b, y)), Rows, BoardWidth)
    ensures SweepFrom(b, y) == SweepFrom(Lines.Compact(b, y, KeptBeltTop(b, y)), y - 1)
  {
  }

  /** After row y alone was removed, no row above index y is full anywhere. */
  lemma CompactedAboveNotFull(b: Board, y: nat)
    requires IsBoard(b, Rows, BoardWidth) && y < Rows
    requires forall k :: 0 <= k < Rows && k != y ==> !Lines.RowFull(b[k], Cols)
    requires forall k :: 0 <= k < Rows ==> !BeltFull(b[k])
    ensures var c := Lines.Compact(b, y, KeptBeltTop(b, y));
      forall k :: 0 <= k < y ==> !Lines.RowFull(c[k], Cols) && !BeltFull(c[k])
  {
    var c := Lines.Compact(b, y, KeptBeltTop(b, y));
    assert !Lines.RowFull(c[0], Cols) by { assert c[0][0] == Empty; }
    assert !BeltFull(c[0]) by {
      var src := if y == 0 then 1 else 0;
      var x :| Cols <= x < BoardWidth && b[src][x] != Solid;
      assert c[0][x] == b[src][x];
    }
    forall k | 1 <= k < y ensures !Lines.RowFull(c[k], Cols) && !BeltFull(c[k]) {
      assert c[k] == b[k - 1];
    }
  }

  /** Line clear with the belt kept: when row y is the only full play row and
      no belt is full, row y goes, the rows above move down, and the new top
      row has empty play cells but keeps the belt cells of row 0 (of row 1
      when y is 0). */
  lemma SweepSingleFull(b: Board, y: nat)
    requires IsBoard(b, Rows, BoardWidth) && y < Rows
    requires Lines.RowFull(b[y], Cols)
    requires forall k :: 0 <= k < Rows && k != y ==> !Lines.RowFull(b[k], Cols)
    requires forall k :: 0 <= k < Rows ==> !BeltFull(b[k])
    ensures Sweep(b) == Lines.Compact(b, y, KeptBeltTop(b, y))
  {
    SweepPassesOver(b, y, Rows - 1);
    var c := Lines.Compact(b, y, KeptBeltTop(b, y));
    SweepRemovesRow(b, y);
    CompactedAboveNotFull(b, y);
    SweepNothingFull(c, y - 1);
  }

  /** With no row from y up full in either region, the scan changes nothing. */
  lemma SweepNothingFull(b: Board, y: int)
    requires IsBoard(b, Rows, BoardWidth) && y < Rows
    requires forall k :: 0 <= k <= y ==> !Lines.RowFull(b[k], Cols) && !BeltFull(b[k])
    ensures SweepFrom(b, y) == b
  {
    SweepGreysBelts(b, y);
    var r := SweepFrom(b, y);
    assert |r| == |b| == Rows;
    assert forall k :: 0 <= k < Rows ==> r[k] == b[k];
  }

  /** The top belt row is duplicated: after clearing a single full play row
      y > 0, the belt cells of the old row 0 are in both row 0 and row 1. */
  lemma SweepDuplicatesTopBelt(b: Board, y: nat)
    requires IsBoard(b, Rows, BoardWidth) && 0 < y < Rows
    requires Lines.RowFull(b[y], Cols)
    requires forall k :: 0 <= k < Rows && k != y ==> !Lines.RowFull(b[k], Cols)
    requires forall k :: 0 <= k < Rows ==> !BeltFull(b[k])
    ensures Sweep(b)[1] == b[0]
    ensures forall x :: Cols <= x < BoardWidth ==> Sweep(b)[0][x] == Sweep(b)[1][x]
  {
    SweepSingleFull(b, y);
  }

  /** The loops of `clearLines`: rows from the bottom up; each row gets the
      play test (stop at the first 0) and the belt test (stop at the first
      cell that is not 1), then the splice-and-unshift, then the greying. */
  method ClearLines(b: Board) returns (r: Board)
    requires IsBoard(b, Rows, BoardWidth)
    ensures r == Sweep(b)
  {
    r := b;
    var y := Rows - 1;
    while y >= 0
      invariant -1 <= y < Rows
      invariant IsBoard(r, Rows, BoardWidth)
      invariant SweepFrom(r, y) == Sweep(b)
      decreases y + 1
    {
      var fullBlackLine := PlayFullTest(r[y]);
      var fullGrayLine := BeltFullTest(r[y]);
      if fullBlackLine {
        r := Lines.Compact(r, y, KeptBeltTop(r, y));
      }
      if fullGrayLine {
        r := GreyRow(r, y);
      }
      y := y - 1;
    }
  }

  /** The play test of `clearLines`: no 0 among the play cells. */
  method PlayFullTest(row: seq<Cell>) returns (full: bool)
    requires |row| == BoardWidth
    ensures full == Lines.RowFull(row, Cols)
  {
    full := true;
    var x := 0;
    while x < Cols
      invariant 0 <= x <= Cols
      invariant forall x' :: 0 <= x' < x ==> row[x'] != Empty
    {
      if row[x] == Empty {
        full := false;
        break;
      }
      x := x + 1;
    }
  }

  /** The belt test of `clearLines`: every belt cell is 1. */
  method BeltFullTest(row: seq<Cell>) returns (full: bool)
    requires |row| == BoardWidth
    ensures full == BeltFull(row)
  {
    full := true;
    var x := Cols;
    while x < BoardWidth
      invariant Cols <= x <= BoardWidth
      invariant forall x' :: Cols <= x' < x ==> row[x'] == Solid
    {
      if row[x] != Solid {
        full := false;
        break;
      }
      x := x + 1;
    }
  }

  /** The greying loop of `clearLines`: `board[y][x] = -1` over the belt. */
  method GreyRow(b: Board, y: nat) returns (r: Board)
    requires IsBoard(b, Rows, BoardWidth) && y < Rows
    ensures r == b[y := Greyed(b[y])]
  {
    var row := b[y];
    var x := Cols;
    while x < BoardWidth
      invariant Cols <= x <= BoardWidth && |row| == BoardWidth
      invariant forall x' :: 0 <= x' < BoardWidth ==> row[x'] == if Cols <= x' < x then BeltBg else b[y][x']
    {
      row := row[x := BeltBg];
      x := x + 1;
    }
    assert row == Greyed(b[y]);
    r := b[y := row];
  }

  // ---------------------------------------------------------------------
  // removePieceFromBoard
  // ---------------------------------------------------------------------

  /** What the lift does to one board cell in column cx: a 1 becomes belt
      background in the belt and 0 in the play area; anything else stays. */
  function LiftCell(c: Cell, cx: int): Cell {
    if c != Solid then c else if cx >= Cols then BeltBg else Empty
  }

  /** `removePieceFromBoard(px, py, piece)`: every board cell under a filled
      cell of s at (px, py) is lifted; cells off the board are skipped. */
  function Lifted(b: Board, s: Shape, px: int, py: int): (r: Board)
    requires IsBoard(b, Rows, BoardWidth)
    ensures IsBoard(r, Rows, BoardWidth)
    ensures forall y, x :: 0 <= y < Rows && 0 <= x < BoardWidth ==>
      r[y][x] == if Covers(s, px, py, x, y) then LiftCell(b[y][x], x) else b[y][x]
  {
    seq(Rows, y requires 0 <= y < Rows =>
      seq(BoardWidth, x requires 0 <= x < BoardWidth => if Covers(s, px, py, x, y) then LiftCell(b[y][x], x) else b[y][x]))
  }

  /** Lifting a piece at the place it was committed: its play cells become
      empty again, but its belt cells become belt background, not 0. */
  lemma LiftAfterPlace(b: Board, s: Shape, px: int, py: int)
    requires IsBoard(b, Rows, BoardWidth) && Fits(b, Rows, BoardWidth, s, px, py)
    ensures forall y, x :: 0 <= y < Rows && 0 <= x < BoardWidth ==>
      Lifted(Stamped(b, s, px, py, Solid), s, px, py)[y][x] ==
        if Covers(s, px, py, x, y) && x >= Cols then BeltBg else b[y][x]
  {
    forall y, x | 0 <= y < Rows && 0 <= x < BoardWidth && Covers(s, px, py, x, y)
      ensures b[y][x] == Empty
    {
      assert s[y - py][x - px];
    }
  }

  /** A placement inside the play area that was committed and is lifted again
      leaves the board exactly as before. */
  lemma LiftUndoesPlayPlace(b: Board, s: Shape, px: int, py: int)
    requires IsBoard(b, Rows, BoardWidth) && Fits(b, Rows, BoardWidth, s, px, py)
    requires forall x, y :: Covers(s, px, py, x, y) ==> x < Cols
    ensures Lifted(Stamped(b, s, px, py, Solid), s, px, py) == b
  {
    LiftAfterPlace(b, s, px, py);
    var r := Lifted(Stamped(b, s, px, py, Solid), s, px, py);
    forall y | 0 <= y < Rows ensures r[y] == b[y] {
      assert forall x :: 0 <= x < BoardWidth ==> r[y][x] == b[y][x];
    }
  }

  /** The lift clears every committed cell under the footprint, wherever it
      came from: a piece tried at the spot where it already hangs over 1s
      (play cells only) finds that spot free. */
  lemma LiftFreesFootprint(b: Board, s: Matrix, px: int, py: int)
    requires IsBoard(b, Rows, BoardWidth) && InBounds(s, px, py, Rows, BoardWidth)
    requires forall x, y :: Covers(s, px, py, x, y) ==> x < Cols && (b[y][x] == Empty || b[y][x] == Solid)
    ensures Scan(Lifted(b, s, px, py), Rows, BoardWidth, s, px, py) == Free
  {
    var r := Lifted(b, s, px, py);
    forall i, j | 0 <= i < |s| && 0 <= j < |s[i]| && s[i][j]
      ensures r[py + i][px + j] == Empty
    {
      assert Covers(s, px, py, px + j, py + i);
    }
    ScanMeaning(r, Rows, BoardWidth, s, px, py);
  }

  /** The loops of `removePieceFromBoard`, writing only cells that are on
      the board and hold a 1. */
  method RemovePieceFromBoard(b: Board, s: Shape, px: int, py: int) returns (r: Board)
    requires IsBoard(b, Rows, BoardWidth)
    ensures r == Lifted(b, s, px, py)
  {
    r := b;
    var i := 0;
    while i < |s|
      invariant 0 <= i <= |s|
      invariant IsBoard(r, Rows, BoardWidth)
      invariant forall y, x :: 0 <= y < Rows && 0 <= x < BoardWidth ==>
        r[y][x] == if CoversBefore(s, px, py, x, y, i, 0) then LiftCell(b[y][x], x) else b[y][x]
    {
      var j := 0;
      while j < |s[i]|
        invariant 0 <= j <= |s[i]|
        invariant IsBoard(r, Rows, BoardWidth)
        invariant forall y, x :: 0 <= y < Rows && 0 <= x < BoardWidth ==>
          r[y][x] == if CoversBefore(s, px, py, x, y, i, j) then LiftCell(b[y][x], x) else b[y][x]
      {
        if s[i][j] {
          var boardX := px + j;
          var boardY := py + i;
          if boardY >= 0 && boardY < Rows && boardX >= 0 && boardX < BoardWidth {
            if boardX >= Cols {
              if r[boardY][boardX] == Solid {
                r := r[boardY := r[boardY][boardX := BeltBg]];
              }
            } else {
              if r[boardY][boardX] == Solid {
                r := r[boardY := r[boardY][boardX := Empty]];
              }
            }
          }
        }
        j := j + 1;
      }
      i := i + 1;
    }
    ghost var t := Lifted(b, s, px, py);
    forall y | 0 <= y < Rows ensures r[y] == t[y] {
      assert forall x :: 0 <= x < BoardWidth ==> r[y][x] == t[y][x];
    }
  }

  // ---------------------------------------------------------------------
  // checkBeltOverflow
  // ---------------------------------------------------------------------

  /** Some belt cell of row 0 is not 0. */
  predicate Overflowing(b: Board)
    requires IsBoard(b, Rows, BoardWidth)
  {
    exists x :: Cols <= x < BoardWidth && b[0][x] != Empty
  }

  /** The board after `checkBeltOverflow`: every belt cell of row 0 is 0. */
  function TopBeltCleared(b: Board): (r: Board)
    requires IsBoard(b, Rows, BoardWidth)
    ensures IsBoard(r, Rows, BoardWidth) && !Overflowing(r)
    ensures forall y, x :: 0 <= y < Rows && 0 <= x < BoardWidth ==>
      r[y][x] == if y == 0 && x >= Cols then Empty else b[y][x]
  {
    b[0 := b[0][..Cols] + EmptyRow(BeltCols)]
  }

  /** The loop of `checkBeltOverflow`: it reports whether row 0 of the belt
      held anything and zeroes every non-zero cell there. */
  method CheckBeltOverflow(b: Board) returns (overflow: bool, r: Board)
    requires IsBoard(b, Rows, BoardWidth)
    ensures overflow == Overflowing(b)
    ensures r == TopBeltCleared(b)
  {
    overflow := false;
    var row := b[0];
    var x := Cols;
    while x < BoardWidth
      invariant Cols <= x <= BoardWidth && |row| == BoardWidth
      invariant forall x' :: 0 <= x' < BoardWidth ==> row[x'] == if Cols <= x' < x then Empty else b[0][x']
      invariant overflow <==> exists x' :: Cols <= x' < x && b[0][x'] != Empty
    {
      if row[x] != Empty {
        overflow := true;
        row := row[x := Empty];
      }
      x := x + 1;
    }
    r := b[0 := row];
    assert r[0] == TopBeltCleared(b)[0];
  }

  // ---------------------------------------------------------------------
  // Pieces and the game
  // ---------------------------------------------------------------------

  /** The spawn column, centred in the belt:
      `cols + floor(colsOfBelt / 2) - floor(shape[0].length / 2)`. */
  function SpawnX(s: Matrix): int {
    Cols + BeltCols / 2 - |s[0]| / 2
  }

  /** A piece: shape, colour, anchor, and whether it is still falling. */
  class Piece {
    var shape: Matrix
    const colour: Cell
    var x: int
    var y: int
    var dropping: bool

    constructor (shape: Matrix, colour: Cell)
      ensures this.shape == shape && this.colour == colour
      ensures x == SpawnX(shape) && y == 0 && dropping
    {
      this.shape := shape;
      this.colour := colour;
      x := SpawnX(shape);
      y := 0;
      dropping := true;
    }
  }

  /** p is catalogue piece k, as the constructor leaves it. */
  ghost predicate Spawned(p: Piece, k: nat)
    requires k < 7
    reads p
  {
    p.shape == Tetromino(k) && p.colour == TetrominoColour(k) &&
    p.x == SpawnX(Tetromino(k)) && p.y == 0 && p.dropping
  }

  /** Every filled cell of p lies on the board. */
  ghost predicate OnBoard(p: Piece)
    reads p
  {
    InBounds(p.shape, p.x, p.y, Rows, BoardWidth)
  }

  /** Every spawn position lies inside the belt columns of the top rows. */
  lemma SpawnInBelt(k: nat)
    requires k < 7
    ensures InBounds(Tetromino(k), SpawnX(Tetromino(k)), 0, Rows, BoardWidth)
    ensures forall cx, cy :: Covers(Tetromino(k), SpawnX(Tetromino(k)), 0, cx, cy) ==> Cols <= cx < BoardWidth
  {
  }

  /** The `pieces` array of `generatePiece`: seven new objects. */
  method Catalogue() returns (pieces: seq<Piece>)
    ensures |pieces| == 7
    ensures forall k :: 0 <= k < 7 ==> fresh(pieces[k]) && Spawned(pieces[k], k)
  {
    var t := new Piece(Tetromino(0), TetrominoColour(0));
    var o := new Piece(Tetromino(1), TetrominoColour(1));
    var s := new Piece(Tetromino(2), TetrominoColour(2));
    var z := new Piece(Tetromino(3), TetrominoColour(3));
    var l := new Piece(Tetromino(4), TetrominoColour(4));
    var j := new Piece(Tetromino(5), TetrominoColour(5));
    var i := new Piece(Tetromino(6), TetrominoColour(6));
    pieces := [t, o, s, z, l, j, i];
  }

  /** The pointer cell lies in the bounding box of shape s anchored at (px, py). */
  predicate InBox(s: Matrix, px: int, py: int, cx: int, cy: int) {
    px <= cx < px + |s[0]| && py <= cy < py + |s|
  }

  /** A placement lying on the board at rows py and py + 2 lies on it at py + 1. */
  lemma InBoundsBetween(s: Shape, px: int, py: int)
    requires InBounds(s, px, py, Rows, BoardWidth) && InBounds(s, px, py + 2, Rows, BoardWidth)
    ensures InBounds(s, px, py + 1, Rows, BoardWidth)
  {
  }

  /** On an empty board the O piece fits with its anchor at row 18 (its
      bottom on the last row) but not at row 19. */
  lemma SettlesOneRowEarly(b: Board)
    requires IsBoard(b, Rows, BoardWidth)
    requires forall y, x :: 0 <= y < Rows && 0 <= x < BoardWidth ==> b[y][x] == Empty
    ensures Fits(b, Rows, BoardWidth, Tetromino(1), 0, 18)
    ensures !Fits(b, Rows, BoardWidth, Tetromino(1), 0, 19)
  {
    assert Tetromino(1)[1][0];
  }

  /** The globals: `board`, `currentPiece`, `pieceAttachedToMouse`, `gameOver`. */
  class Game {
    var board: Board
    var current: Piece?
    var attached: bool
    var gameOver: bool

    /** A falling piece that is not on the pointer lies on the board. */
    ghost predicate Valid()
      reads this, current
    {
      IsBoard(board, Rows, BoardWidth) && current != null &&
      (!attached && current.dropping ==> OnBoard(current))
    }

    /** `setup`: `initBoard()` then `generatePiece()`. */
    constructor (pick: nat)
      requires pick < 7
      ensures Valid() && !attached && !gameOver
      ensures forall y, x :: 0 <= y < Rows && 0 <= x < BoardWidth ==> board[y][x] == Empty
      ensures fresh(current) && Spawned(current, pick)
    {
      var b := InitBoard(Rows, BoardWidth);
      board := b;
      current := null;
      attached := false;
      gameOver := false;
      new;
      GeneratePiece(pick);
    }

    /** `generatePiece`: a draw from a fresh catalogue replaces the current
        piece, whether or not the old one was on the pointer. The old one is
        dropped unless it was committed already. */
    method GeneratePiece(pick: nat)
      requires pick < 7 && IsBoard(board, Rows, BoardWidth)
      modifies this
      ensures Valid() && OnBoard(current)
      ensures board == old(board) && attached == old(attached) && gameOver == old(gameOver)
      ensures fresh(current) && Spawned(current, pick)
    {
      SpawnInBelt(pick);
      var pieces := Catalogue();
      var newPiece := pieces[pick];
      if !attached {
        current := newPiece;
      } else {
        newPiece.x := SpawnX(newPiece.shape);
        newPiece.y := 0;
        current := newPiece;
      }
    }

    /** `placePiece(piece)` on the current piece: write 1 under it, then
        `clearLines`. The piece stays current. */
    method PlacePiece()
      requires IsBoard(board, Rows, BoardWidth) && current != null
      requires InBounds(current.shape, current.x, current.y, Rows, BoardWidth)
      modifies this
      ensures current == old(current) && attached == old(attached) && gameOver == old(gameOver)
      ensures board == Sweep(Stamped(old(board), current.shape, current.x, current.y, Solid))
    {
      var stamped := Stamp(board, Rows, BoardWidth, current.shape, current.x, current.y, Solid);
      board := ClearLines(stamped);
    }

    /** `followMouse`: the attached piece's anchor is the pointer cell. */
    method FollowMouse(cx: int, cy: int)
      requires Valid() && attached
      modifies current
      ensures Valid() && current.x == cx && current.y == cy
      ensures current.shape == old(current.shape) && current.dropping == old(current.dropping)
    {
      current.x := cx;
      current.y := cy;
    }

    /** `Piece.update()` on the current piece, called while it is not on the
        pointer: a falling piece moves down a row and keeps falling while the
        row below its new place is free; otherwise it goes back up, stops and
        is committed. A stopped piece does nothing. */
    method Update()
      requires Valid() && !attached
      modifies this, current
      ensures Valid() && current == old(current)
      ensures attached == old(attached) && gameOver == old(gameOver)
      ensures current.x == old(current.x) && current.shape == old(current.shape)
      ensures !old(current.dropping) ==>
        !current.dropping && current.y == old(current.y) && board == old(board)
      ensures old(current.dropping) ==>
        if Fits(old(board), Rows, BoardWidth, current.shape, current.x, old(current.y) + 2) then
          current.dropping && current.y == old(current.y) + 1 && board == old(board)
        else
          !current.dropping && current.y == old(current.y) &&
          board == Sweep(Stamped(old(board), current.shape, current.x, current.y, Solid))
    {
      if current.dropping {
        assert NoneAbove(current.shape, current.y + 2);
        current.y := current.y + 1;
        var v := CheckBottomCollision(board, Rows, BoardWidth, current.shape, current.x, current.y);
        BottomScanMeaning(board, Rows, BoardWidth, current.shape, current.x, current.y);
        if v == Blocked {
          current.y := current.y - 1;
          current.dropping := false;
          PlacePiece();
        } else {
          FitsInBounds(board, Rows, BoardWidth, current.shape, current.x, current.y + 1);
          InBoundsBetween(current.shape, current.x, current.y - 1);
        }
      }
    }

    /** `Piece.rotateBack()`: the counter-clockwise turn. */
    method RotateBack()
      requires Valid() && attached
      modifies current
      ensures Valid() && current.shape == RotateLeft(old(current.shape))
      ensures current.x == old(current.x) && current.y == old(current.y) && current.dropping == old(current.dropping)
    {
      var newShape := TurnBack(current.shape);
      current.shape := newShape;
    }

    /** `Piece.rotate()`: the clockwise turn is kept unless the bottom probe
        or, after it, the collision scan reports a collision; then `rotateBack`
        restores the old shape. A probe that throws leaves the turned shape.
        Only `keyPressed` calls it, and only while the piece is on the pointer. */
    method Rotate()
      requires Valid() && attached
      modifies current
      ensures Valid() && current.x == old(current.x) && current.y == old(current.y)
      ensures current.dropping == old(current.dropping)
      ensures var turned := RotateRight(old(current.shape));
        var below := BottomScan(board, Rows, BoardWidth, turned, current.x, current.y);
        var v := Scan(board, Rows, BoardWidth, turned, current.x, current.y);
        current.shape == if below == Blocked || (below == Free && v == Blocked) then old(current.shape) else turned
    {
      RotateRightIsMatrix(current.shape);
      RotateRightThenLeft(current.shape);
      var newShape := TurnRight(current.shape);
      current.shape := newShape;
      var below := CheckBottomCollision(board, Rows, BoardWidth, current.shape, current.x, current.y);
      if below == Fault {
        return;
      }
      if below == Blocked {
        RotateBack();
        return;
      }
      var v := CheckCollision(board, Rows, BoardWidth, current.shape, current.x, current.y);
      if v == Fault {
        return;
      }
      if v == Blocked {
        RotateBack();
      }
    }

    /** `keyPressed`: 'r' rotates, and only while the piece is on the pointer. */
    method KeyPressed(key: char)
      requires Valid()
      modifies current
      ensures Valid() && current.x == old(current.x) && current.y == old(current.y)
      ensures current.dropping == old(current.dropping)
      ensures !(attached && key == 'r') ==> current.shape == old(current.shape)
      ensures attached && key == 'r' ==>
        var turned := RotateRight(old(current.shape));
        var below := BottomScan(board, Rows, BoardWidth, turned, current.x, current.y);
        var v := Scan(board, Rows, BoardWidth, turned, current.x, current.y);
        current.shape == if below == Blocked || (below == Free && v == Blocked) then old(current.shape) else turned
    {
      if attached && key == 'r' {
        Rotate();
      }
    }

    /** `mousePressed` with the pointer at cell (cx, cy).
        Not attached: a press inside the piece's bounding box attaches it.
        Attached: first the cells under the piece at its current anchor (the
        pointer cell of the last frame, not where it was committed) are lifted
        off the board; then the piece is tried at (cx, cy). A collision, or an
        anchor column in the belt, puts the anchor back (the lift stays); a
        free spot commits it there and lets go. A scan that throws leaves it
        at (cx, cy). No new piece is drawn. */
    method MousePressed(cx: int, cy: int)
      requires Valid()
      modifies this, current
      ensures Valid() && current == old(current) && gameOver == old(gameOver)
      ensures current.shape == old(current.shape) && current.dropping == old(current.dropping)
      ensures !old(attached) ==>
        board == old(board) && current.x == old(current.x) && current.y == old(current.y) &&
        attached == InBox(current.shape, old(current.x), old(current.y), cx, cy)
      ensures old(attached) ==>
        var lifted := Lifted(old(board), current.shape, old(current.x), old(current.y));
        var v := Scan(lifted, Rows, BoardWidth, current.shape, cx, cy);
        if v == Fault then
          attached && board == lifted && current.x == cx && current.y == cy
        else if v == Blocked || cx >= Cols then
          attached && board == lifted && current.x == old(current.x) && current.y == old(current.y)
        else
          !attached && current.x == cx && current.y == cy &&
          board == Sweep(Stamped(lifted, current.shape, cx, cy, Solid))
    {
      if !attached {
        if cx >= current.x && cx < current.x + |current.shape[0]| &&
           cy >= current.y && cy < current.y + |current.shape| {
          attached := true;
        }
      } else {
        var originalX := current.x;
        var originalY := current.y;
        var lifted := RemovePieceFromBoard(board, current.shape, current.x, current.y);
        board := lifted;
        current.x := cx;
        current.y := cy;
        var v := CheckCollision(board, Rows, BoardWidth, current.shape, current.x, current.y);
        if v == Fault {
          return;
        }
        if v == Blocked || cx >= Cols {
          current.x := originalX;
          current.y := originalY;
        } else {
          ScanMeaning(board, Rows, BoardWidth, current.shape, cx, cy);
          FitsInBounds(board, Rows, BoardWidth, current.shape, cx, cy);
          PlacePiece();
          attached := false;
        }
      }
    }

    /** One `draw` frame with the pointer at cell (cx, cy); `timerFired` says
        whether more than ten seconds passed since the last new piece. After
        game over nothing changes. Otherwise the attached piece follows the
        pointer or gravity acts, the top belt row is checked (a non-zero cell
        there ends the game and is zeroed), and the timer may bring a new
        piece. After a live frame the top belt row is empty. */
    method Frame(cx: int, cy: int, timerFired: bool, pick: nat)
      requires Valid() && pick < 7
      modifies this, current
      ensures Valid() && attached == old(attached)
      ensures old(gameOver) ==>
        gameOver && board == old(board) && current == old(current) &&
        current.x == old(current.x) && current.y == old(current.y) && current.shape == old(current.shape) &&
        current.dropping == old(current.dropping)
      ensures !old(gameOver) ==> !Overflowing(board)
      ensures !old(gameOver) ==> old(current).shape == old(current.shape)
      ensures !old(gameOver) && (old(attached) || !old(current.dropping)) ==>
        board == TopBeltCleared(old(board)) && (gameOver <==> Overflowing(old(board))) &&
        old(current).dropping == old(current.dropping)
      ensures !old(gameOver) && old(attached) ==> old(current).x == cx && old(current).y == cy
      ensures !old(gameOver) && !old(attached) && !old(current.dropping) ==>
        old(current).x == old(current.x) && old(current).y == old(current.y)
      ensures !old(gameOver) && !old(attached) && old(current.dropping) ==>
        var shape, px, py := old(current.shape), old(current.x), old(current.y);
        var falls := Fits(old(board), Rows, BoardWidth, shape, px, py + 2);
        var settled := if falls then old(board) else Sweep(Stamped(old(board), shape, px, py, Solid));
        board == TopBeltCleared(settled) && (gameOver <==> Overflowing(settled)) &&
        old(current).x == px && old(current).y == (if falls then py + 1 else py) && old(current).dropping == falls
      ensures !old(gameOver) && timerFired ==> fresh(current) && Spawned(current, pick)
      ensures !old(gameOver) && !timerFired ==> current == old(current) && current.shape == old(current.shape)
      ensures !old(gameOver) && !timerFired && attached ==> current.x == cx && current.y == cy
    {
      if gameOver {
        return;
      }
      if attached {
        FollowMouse(cx, cy);
      } else {
        Update();
      }
      var overflow, cleared := CheckBeltOverflow(board);
      board := cleared;
      if overflow {
        gameOver := true;
      }
      if timerFired {
        GeneratePiece(pick);
      }
    }
  }

  /** The gravity step settles a piece one row early: an O piece falling at
      row 17 of an empty board is committed there, although it would fit at
      row 18, because `update` probes the row below its new place. */
  method SettleOneRowEarly(g: Game)
    requires g.Valid() && !g.attached && g.current.dropping
    requires g.current.shape == Tetromino(1) && g.current.x == 0 && g.current.y == 17
    requires forall y, x :: 0 <= y < Rows && 0 <= x < BoardWidth ==> g.board[y][x] == Empty
    modifies g, g.current
    ensures Fits(old(g.board), Rows, BoardWidth, Tetromino(1), 0, 18)
    ensures g.current == old(g.current) && g.current.y == 17 && !g.current.dropping
    ensures g.board == Sweep(Stamped(old(g.board), Tetromino(1), 0, 17, Solid))
  {
    SettlesOneRowEarly(g.board);
    g.Update();
  }
}
