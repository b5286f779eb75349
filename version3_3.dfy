/** Version_3_3/sketch.js: the Version_1_3 game (belt columns, pointer pick-up
    and drop, next piece, line clear on the play columns) with one more way to
    pick something up: a click on an occupied board cell lifts that single
    cell off the board as a new 1 x 1 piece on the pointer. Pieces, spawn
    position, the bounding-box test and the drop test are those of
    Version_1_3, whose definitions are reused. The pointer is given as a grid
    cell. */
module Version3_3 {
  import opened Shapes
  import opened Cells
  import opened Collision
  import Lines
  import V = Version1_3

  const Cols: nat := V.Cols
  const BoardWidth: nat := V.BoardWidth
  const Rows: nat := V.Rows

  /** The 1 x 1 shape `[[1]]` a board pick creates. */
  const Single: Matrix := [[true]]

  /** What `board[cy][cx]` reads for an existing row cy: the cell for a
      column on the board. For a column off it, 0 if a pick has already
      written `board[cy][cx] = 0` there (JavaScript keeps that entry on the
      row array), and `undefined` otherwise. `z[cy]` holds those columns. */
  function CellAt(b: Board, z: seq<set<int>>, cx: int, cy: int): Cell
    requires IsBoard(b, Rows, BoardWidth) && |z| == Rows && 0 <= cy < Rows
  {
    if 0 <= cx < BoardWidth then b[cy][cx] else if cx in z[cy] then Empty else Undefined
  }

  /** The board-pick test: `board[cy]` exists and `board[cy][cx] !== 0`. */
  predicate Pickable(b: Board, z: seq<set<int>>, cx: int, cy: int)
    requires IsBoard(b, Rows, BoardWidth) && |z| == Rows
  {
    0 <= cy < Rows && CellAt(b, z, cx, cy) != Empty
  }

  /** A column off the board that no pick has written yet reads `undefined`,
      which passes the board-pick test on every row. */
  lemma OffRowPickable(b: Board, z: seq<set<int>>, cx: int, cy: int)
    requires IsBoard(b, Rows, BoardWidth) && |z| == Rows && 0 <= cy < Rows
    requires (cx < 0 || cx >= BoardWidth) && cx !in z[cy]
    ensures Pickable(b, z, cx, cy) && CellAt(b, z, cx, cy) == Undefined
  {
  }

  /** The grid after `board[cy][cx] = 0` for a board pick. For a column off
      the board the write lands outside the grid and no grid cell changes. */
  function Picked(b: Board, cx: int, cy: int): (r: Board)
    requires IsBoard(b, Rows, BoardWidth) && 0 <= cy < Rows
    ensures IsBoard(r, Rows, BoardWidth)
    ensures forall y, x :: 0 <= y < Rows && 0 <= x < BoardWidth ==>
      r[y][x] == if y == cy && x == cx then Empty else b[y][x]
  {
    if 0 <= cx < BoardWidth then b[cy := b[cy][cx := Empty]] else b
  }

  /** The off-row entries after `board[cy][cx] = 0`: a column off the board
      is recorded on row cy; a column on the board records nothing. */
  function PickedOffRow(z: seq<set<int>>, cx: int, cy: int): (r: seq<set<int>>)
    requires |z| == Rows && 0 <= cy < Rows
    ensures |r| == Rows
    ensures forall k, c :: 0 <= k < Rows ==>
      (c in r[k] <==> c in z[k] || (k == cy && c == cx && (cx < 0 || cx >= BoardWidth)))
  {
    if 0 <= cx < BoardWidth then z else z[cy := z[cy] + {cx}]
  }

  /** A pick empties what it picked, on the board or off it: the same press
      right afterwards reads 0 and is no longer a pick. */
  lemma PickEmptiesCell(b: Board, z: seq<set<int>>, cx: int, cy: int)
    requires IsBoard(b, Rows, BoardWidth) && |z| == Rows && 0 <= cy < Rows
    ensures CellAt(Picked(b, cx, cy), PickedOffRow(z, cx, cy), cx, cy) == Empty
    ensures !Pickable(Picked(b, cx, cy), PickedOffRow(z, cx, cy), cx, cy)
  {
  }

  /** A pick off the row is not repeated: after a pick at a column off the
      board and a commit elsewhere that fills no play row, the same press
      reads the 0 written by the first pick and picks nothing. */
  lemma OffRowRepickRefused(b: Board, z: seq<set<int>>, cx: int, cy: int, s: Shape, px: int, py: int, v: Cell)
    requires IsBoard(b, Rows, BoardWidth) && |z| == Rows && 0 <= cy < Rows && (cx < 0 || cx >= BoardWidth)
    requires forall k :: 0 <= k < Rows ==> !Lines.RowFull(Stamped(Picked(b, cx, cy), s, px, py, v)[k], Cols)
    ensures var placed := Stamped(Picked(b, cx, cy), s, px, py, v);
      !Pickable(placed, SweepOffRow(placed, PickedOffRow(z, cx, cy)), cx, cy)
  {
    var placed := Stamped(Picked(b, cx, cy), s, px, py, v);
    SweepOffRowNoneFull(placed, PickedOffRow(z, cx, cy), Rows - 1);
  }

  /** A picked cell fits back where it came from, and committing it there
      with the colour it had gives back the board it was picked from. */
  lemma PickThenPlaceRestores(b: Board, z: seq<set<int>>, cx: int, cy: int)
    requires IsBoard(b, Rows, BoardWidth) && |z| == Rows && 0 <= cy < Rows && 0 <= cx < BoardWidth
    requires Pickable(b, z, cx, cy)
    ensures Fits(Picked(b, cx, cy), Rows, BoardWidth, Single, cx, cy)
    ensures Stamped(Picked(b, cx, cy), Single, cx, cy, CellAt(b, z, cx, cy)) == b
  {
    var r := Stamped(Picked(b, cx, cy), Single, cx, cy, CellAt(b, z, cx, cy));
    forall y | 0 <= y < Rows ensures r[y] == b[y] {
      forall x | 0 <= x < BoardWidth ensures r[y][x] == b[y][x] {
        assert Covers(Single, cx, cy, x, y) <==> x == cx && y == cy;
      }
    }
  }

  /** Where the off-row entries go when `clearLines` scans from row y up: a
      spliced row takes its entries with it, the row `unshift` adds has none,
      and every other row keeps its own. */
  function SweepOffRowFrom(b: Board, z: seq<set<int>>, y: int): (r: seq<set<int>>)
    requires IsBoard(b, Rows, BoardWidth) && |z| == Rows && y < Rows
    ensures |r| == Rows
    ensures forall k :: 0 <= k < Rows && y < k ==> r[k] == z[k]
    decreases y + 1
  {
    if y < 0 then z
    else if Lines.RowFull(b[y], Cols) then
      SweepOffRowFrom(Lines.Compact(b, y, EmptyRow(BoardWidth)), [{}] + z[..y] + z[y + 1..], y - 1)
    else SweepOffRowFrom(b, z, y - 1)
  }

  /** The off-row entries after `clearLines()` on board b. */
  function SweepOffRow(b: Board, z: seq<set<int>>): (r: seq<set<int>>)
    requires IsBoard(b, Rows, BoardWidth) && |z| == Rows
    ensures |r| == Rows
  {
    SweepOffRowFrom(b, z, Rows - 1)
  }

  /** With no full play row from y up, the off-row entries stay where they are. */
  lemma {:induction false} SweepOffRowNoneFull(b: Board, z: seq<set<int>>, y: int)
    requires IsBoard(b, Rows, BoardWidth) && |z| == Rows && y < Rows
    requires forall k :: 0 <= k <= y ==> !Lines.RowFull(b[k], Cols)
    ensures SweepOffRowFrom(b, z, y) == z
    decreases y + 1
  {
    if y >= 0 {
      SweepOffRowNoneFull(b, z, y - 1);
    }
  }

  /** Rows whose play area is not full only move the scan up. */
  lemma {:induction false} SweepOffRowPassesOver(b: Board, z: seq<set<int>>, y: int, k: int)
    requires IsBoard(b, Rows, BoardWidth) && |z| == Rows && -1 <= y <= k < Rows
    requires forall m :: y < m <= k ==> !Lines.RowFull(b[m], Cols)
    ensures SweepOffRowFrom(b, z, k) == SweepOffRowFrom(b, z, y)
    decreases k - y
  {
    if k > y {
      SweepOffRowPassesOver(b, z, y, k - 1);
    }
  }

  /** When row y is the only full play row, its off-row entries leave with
      it, those of the rows above move down one row with their rows, and the
      new top row has none: the entries follow the rows of `Lines.Compact`. */
  lemma SweepOffRowSingleFull(b: Board, z: seq<set<int>>, y: nat)
    requires IsBoard(b, Rows, BoardWidth) && |z| == Rows && y < Rows
    requires Lines.RowFull(b[y], Cols)
    requires forall k :: 0 <= k < Rows && k != y ==> !Lines.RowFull(b[k], Cols)
    ensures SweepOffRow(b, z) == [{}] + z[..y] + z[y + 1..]
  {
    SweepOffRowPassesOver(b, z, y, Rows - 1);
    var c := Lines.Compact(b, y, EmptyRow(BoardWidth));
    assert !Lines.RowFull(c[0], Cols) by { assert c[0][0] == Empty; }
    assert forall k :: 1 <= k < y ==> c[k] == b[k - 1];
    SweepOffRowNoneFull(c, [{}] + z[..y] + z[y + 1..], y - 1);
  }

  /** The loops of `clearLines`: rows from the bottom up, each full play row
      spliced out (with its off-row entries) and a zero row of full width
      put on top. */
  method ClearLines(b: Board, z: seq<set<int>>) returns (r: Board, t: seq<set<int>>)
    requires IsBoard(b, Rows, BoardWidth) && |z| == Rows
    ensures IsBoard(r, Rows, BoardWidth) && r == Lines.Sweep(b, Cols, BoardWidth)
    ensures t == SweepOffRow(b, z)
  {
    r, t := b, z;
    var y := Rows - 1;
    while y >= 0
      invariant -1 <= y < Rows && IsBoard(r, Rows, BoardWidth) && |t| == Rows
      invariant Lines.SweepFrom(r, y, Cols, BoardWidth) == Lines.Sweep(b, Cols, BoardWidth)
      invariant SweepOffRowFrom(r, t, y) == SweepOffRow(b, z)
      decreases y + 1
    {
      var fullLine := Lines.FullTest(r[y], Cols);
      if fullLine {
        r := Lines.Compact(r, y, EmptyRow(BoardWidth));
        t := [{}] + t[..y] + t[y + 1..];
      }
      y := y - 1;
    }
  }

  /** The globals: `board`, `currentPiece`, `nextPiece`, `pieceAttachedToMouse`. */
  class Game {
    var board: Board
    var current: V.Piece?
    var next: V.Piece?
    var attached: bool
    /** Per row, the columns off the board that a pick has set to 0. */
    var offRow: seq<set<int>>

    /** A piece that is not on the pointer lies on the board; so does the next
        piece unless it is the current one. */
    ghost predicate Valid()
      reads this, current, next
    {
      IsBoard(board, Rows, BoardWidth) && |offRow| == Rows && current != null && next != null &&
      (!attached ==> V.OnBoard(current)) && (next != current ==> V.OnBoard(next))
    }

    /** `setup`: `initBoard()` then `generatePiece()`. */
    constructor (pick: nat, pickNext: nat)
      requires pick < 7 && pickNext < 7
      ensures Valid() && !attached
      ensures forall y, x :: 0 <= y < Rows && 0 <= x < BoardWidth ==> board[y][x] == Empty
      ensures forall y :: 0 <= y < Rows ==> offRow[y] == {}
      ensures fresh(current) && V.Spawned(current, pick) && fresh(next) && V.Spawned(next, pickNext)
      ensures current == next <==> pick == pickNext
    {
      var b := InitBoard(Rows, BoardWidth);
      board := b;
      offRow := seq(Rows, _ => {});
      current := null;
      next := null;
      attached := false;
      new;
      GeneratePiece(pick, pickNext);
    }

    /** `generatePiece`: the previous next piece (or a draw, the first time)
        becomes current, and a new next piece is drawn. */
    method GeneratePiece(pick: nat, pickNext: nat)
      requires pick < 7 && pickNext < 7
      requires IsBoard(board, Rows, BoardWidth) && |offRow| == Rows
      requires next != null ==> V.OnBoard(next)
      modifies this
      ensures Valid() && V.OnBoard(current) && board == old(board) && attached == old(attached)
      ensures offRow == old(offRow)
      ensures old(next) != null ==> current == old(next)
      ensures old(next) == null ==> fresh(current) && V.Spawned(current, pick)
      ensures fresh(next) && V.Spawned(next, pickNext)
      ensures old(next) == null ==> (current == next <==> pick == pickNext)
    {
      V.SpawnInBelt(pick);
      V.SpawnInBelt(pickNext);
      var pieces := V.Catalogue();
      current := if next != null then next else pieces[pick];
      next := pieces[pickNext];
    }

    /** `placePiece(currentPiece)`: write the colour under the piece, clear
        full play rows (the off-row entries move with their rows), then bring
        in the next piece. */
    method PlacePiece(pick: nat, pickNext: nat)
      requires Valid() && pick < 7 && pickNext < 7
      requires InBounds(current.shape, current.x, current.y, Rows, BoardWidth)
      modifies this
      ensures Valid() && V.OnBoard(current) && attached == old(attached)
      ensures var stamped := Stamped(old(board), old(current.shape), old(current.x), old(current.y), old(current.colour));
        board == Lines.Sweep(stamped, Cols, BoardWidth) && offRow == SweepOffRow(stamped, old(offRow))
      ensures current == old(next) && fresh(next) && V.Spawned(next, pickNext)
    {
      var stamped := Stamp(board, Rows, BoardWidth, current.shape, current.x, current.y, current.colour);
      var cleared, moved := ClearLines(stamped, offRow);
      board, offRow := cleared, moved;
      GeneratePiece(pick, pickNext);
    }

    /** `followMouse`: the attached piece's anchor is the pointer cell. */
    method FollowMouse(cx: int, cy: int)
      requires Valid() && attached
      modifies current
      ensures Valid() && current.x == cx && current.y == cy && current.shape == old(current.shape)
    {
      current.x := cx;
      current.y := cy;
    }

    /** `Piece.move(dx, dy)` on the current piece: step, and step back if the
        scan finds a collision. A scan that throws leaves the stepped anchor. */
    method Move(dx: int, dy: int)
      requires Valid() && dy >= 0
      modifies current
      ensures Valid() && current.shape == old(current.shape)
      ensures var v := Scan(board, Rows, BoardWidth, old(current.shape), old(current.x) + dx, old(current.y) + dy);
        (!attached ==> v != Fault) &&
        if v == Blocked then current.x == old(current.x) && current.y == old(current.y)
        else current.x == old(current.x) + dx && current.y == old(current.y) + dy
    {
      assert !attached ==> NoneAbove(current.shape, current.y + dy);
      current.x := current.x + dx;
      current.y := current.y + dy;
      var v := CheckCollision(board, Rows, BoardWidth, current.shape, current.x, current.y);
      ScanMeaning(board, Rows, BoardWidth, current.shape, current.x, current.y);
      if v == Fault {
        return;
      }
      if v == Blocked {
        current.x := current.x - dx;
        current.y := current.y - dy;
      }
    }

    /** `Piece.rotate()` on the current piece: the counter-clockwise turn is
        kept unless the scan finds a collision; the anchor never moves. A scan
        that throws leaves the turned shape. Only `keyPressed` calls it, and
        only while the piece is on the pointer. */
    method Rotate()
      requires Valid() && attached
      modifies current
      ensures Valid() && current.x == old(current.x) && current.y == old(current.y)
      ensures var turned := RotateLeft(old(current.shape));
        var v := Scan(board, Rows, BoardWidth, turned, current.x, current.y);
        current.shape == if v == Blocked then old(current.shape) else turned
    {
      var tempShape := current.shape;
      current.shape := RotateLeft(current.shape);
      var v := CheckCollision(board, Rows, BoardWidth, current.shape, current.x, current.y);
      if v == Fault {
        return;
      }
      if v == Blocked {
        current.shape := tempShape;
      }
    }

    /** `Piece.update()`: a gravity step only when no piece is on the pointer.
        A blocked step leaves everything as it was: nothing is committed. */
    method Update()
      requires Valid()
      modifies current
      ensures Valid() && current.shape == old(current.shape) && current.x == old(current.x)
      ensures current.y == if !attached && Fits(board, Rows, BoardWidth, current.shape, current.x, old(current.y) + 1)
                           then old(current.y) + 1 else old(current.y)
    {
      if !attached {
        Move(0, 1);
        ScanMeaning(board, Rows, BoardWidth, current.shape, current.x, old(current.y) + 1);
      }
    }

    /** `keyPressed`: 'r' rotates, and only while the piece is on the pointer.
        The fullscreen and music keys are outside the model. */
    method KeyPressed(key: char)
      requires Valid()
      modifies current
      ensures Valid() && current.x == old(current.x) && current.y == old(current.y)
      ensures !(attached && key == 'r') ==> current.shape == old(current.shape)
      ensures attached && key == 'r' ==>
        current.shape == if Scan(board, Rows, BoardWidth, RotateLeft(old(current.shape)), current.x, current.y) == Blocked
                         then old(current.shape) else RotateLeft(old(current.shape))
    {
      if attached && key == 'r' {
        Rotate();
      }
    }

    /** `mousePressed` with the pointer at cell (cx, cy), not attached: a
        press in the current piece's bounding box attaches it; otherwise a
        press on a board cell that reads other than 0 (a column off an
        existing row reads `undefined` until a pick has written 0 there)
        replaces the current piece by a new 1 x 1 piece of that value at
        (cx, cy), writes 0 there and attaches. The piece that was falling is
        dropped. */
    method PickUp(cx: int, cy: int)
      requires Valid() && !attached
      modifies this
      ensures Valid() && next == old(next)
      ensures if V.InBox(old(current.shape), old(current.x), old(current.y), cx, cy) then
          attached && board == old(board) && offRow == old(offRow) && current == old(current) &&
          current.x == old(current.x) && current.y == old(current.y) && current.shape == old(current.shape)
        else if Pickable(old(board), old(offRow), cx, cy) then
          attached && fresh(current) && current.shape == Single &&
          current.colour == CellAt(old(board), old(offRow), cx, cy) && current.x == cx && current.y == cy &&
          board == Picked(old(board), cx, cy) && offRow == PickedOffRow(old(offRow), cx, cy) &&
          old(current).x == old(current.x) && old(current).y == old(current.y) && old(current).shape == old(current.shape)
        else
          !attached && board == old(board) && offRow == old(offRow) && current == old(current) &&
          current.x == old(current.x) && current.y == old(current.y) && current.shape == old(current.shape)
    {
      if cx >= current.x && cx < current.x + |current.shape[0]| &&
         cy >= current.y && cy < current.y + |current.shape| {
        attached := true;
        return;
      }
      if 0 <= cy < Rows && CellAt(board, offRow, cx, cy) != Empty {
        var selectedColour := CellAt(board, offRow, cx, cy);
        var p := new V.Piece(Single, selectedColour);
        p.x := cx;
        p.y := cy;
        current := p;
        if 0 <= cx < BoardWidth {
          board := board[cy := board[cy][cx := Empty]];
        } else {
          offRow := offRow[cy := offRow[cy] + {cx}];
        }
        attached := true;
      }
    }

    /** `mousePressed` with the pointer at cell (cx, cy).
        Attached: the piece is tried at (cx, cy). A collision, or an anchor
        column in the belt, puts it back and it stays attached; otherwise it is
        committed there and let go. A scan that throws leaves it at (cx, cy).
        Not attached: `PickUp`. */
    method MousePressed(cx: int, cy: int, pick: nat, pickNext: nat)
      requires Valid() && pick < 7 && pickNext < 7
      modifies this, current
      ensures Valid()
      ensures !old(attached) ==> next == old(next)
      ensures !old(attached) ==>
        if V.InBox(old(current.shape), old(current.x), old(current.y), cx, cy) then
          attached && board == old(board) && offRow == old(offRow) && current == old(current) &&
          current.x == old(current.x) && current.y == old(current.y) && current.shape == old(current.shape)
        else if Pickable(old(board), old(offRow), cx, cy) then
          attached && fresh(current) && current.shape == Single &&
          current.colour == CellAt(old(board), old(offRow), cx, cy) && current.x == cx && current.y == cy &&
          board == Picked(old(board), cx, cy) && offRow == PickedOffRow(old(offRow), cx, cy) &&
          old(current).x == old(current.x) && old(current).y == old(current.y) && old(current).shape == old(current.shape)
        else
          !attached && board == old(board) && offRow == old(offRow) && current == old(current) &&
          current.x == old(current.x) && current.y == old(current.y) && current.shape == old(current.shape)
      ensures old(attached) ==>
        var shape := old(current.shape);
        var v := Scan(old(board), Rows, BoardWidth, shape, cx, cy);
        if v == Fault then
          attached && board == old(board) && offRow == old(offRow) && current == old(current) && next == old(next) &&
          current.x == cx && current.y == cy && current.shape == shape
        else if !V.DropAccepted(old(board), shape, cx, cy) then
          attached && board == old(board) && offRow == old(offRow) && current == old(current) && next == old(next) &&
          current.x == old(current.x) && current.y == old(current.y) && current.shape == shape
        else
          var stamped := Stamped(old(board), shape, cx, cy, old(current.colour));
          !attached && old(current).x == cx && old(current).y == cy && old(current).shape == shape &&
          board == Lines.Sweep(stamped, Cols, BoardWidth) && offRow == SweepOffRow(stamped, old(offRow)) &&
          current == old(next) && fresh(next) && V.Spawned(next, pickNext)
    {
      if attached {
        var originalX := current.x;
        var originalY := current.y;
        current.x := cx;
        current.y := cy;
        var v := CheckCollision(board, Rows, BoardWidth, current.shape, current.x, current.y);
        if v == Fault {
          return;
        }
        if v == Blocked || cx >= Cols {
          current.x := originalX;
          current.y := originalY;
        } else {
          ScanMeaning(board, Rows, BoardWidth, current.shape, cx, cy);
          FitsInBounds(board, Rows, BoardWidth, current.shape, cx, cy);
          PlacePiece(pick, pickNext);
          attached := false;
        }
      } else {
        PickUp(cx, cy);
      }
    }

    /** One `draw` frame with the pointer at cell (cx, cy): the attached piece
        follows the pointer, otherwise gravity acts. */
    method Frame(cx: int, cy: int)
      requires Valid()
      modifies current
      ensures Valid() && current.shape == old(current.shape)
      ensures attached ==> current.x == cx && current.y == cy
      ensures !attached ==>
        current.x == old(current.x) &&
        current.y == if Fits(board, Rows, BoardWidth, current.shape, current.x, old(current.y) + 1)
                     then old(current.y) + 1 else old(current.y)
    {
      if attached {
        FollowMouse(cx, cy);
      } else {
        Update();
      }
    }
  }
}
