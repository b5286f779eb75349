/** Version_1_3/sketch.js: the board gains four grey belt columns to the right
    of the ten play columns. New pieces appear in the belt and fall there; the
    player picks the falling piece up with the pointer and drops it on the
    play area, where it is committed. The pointer is given as a grid cell. */
module Version1_3 {
  import opened Shapes
  import opened Cells
  import opened Collision
  import opened Lines

  const Cols: nat := 10
  const BeltCols: nat := 4
  /** `cols + colsOfBelt`, the width of every board row. */
  const BoardWidth: nat := Cols + BeltCols
  const Rows: nat := 20

  /** The spawn column, centred in the belt:
      `cols + floor(colsOfBelt / 2) - floor(shape[0].length / 2)`. */
  function SpawnX(s: Matrix): int {
    Cols + BeltCols / 2 - |s[0]| / 2
  }

  class Piece {
    var shape: Matrix
    const colour: Cell
    var x: int
    var y: int

    constructor (shape: Matrix, colour: Cell)
      ensures this.shape == shape && this.colour == colour
      ensures x == SpawnX(shape) && y == 0
    {
      this.shape := shape;
      this.colour := colour;
      x := SpawnX(shape);
      y := 0;
    }
  }

  /** p is catalogue piece k, as the constructor leaves it. */
  ghost predicate Spawned(p: Piece, k: nat)
    requires k < 7
    reads p
  {
    p.shape == Tetromino(k) && p.colour == TetrominoColour(k) && p.x == SpawnX(Tetromino(k)) && p.y == 0
  }

  /** Every filled cell of p lies on the board. */
  ghost predicate OnBoard(p: Piece)
    reads p
  {
    InBounds(p.shape, p.x, p.y, Rows, BoardWidth)
  }

  /** Every spawn position lies inside the belt columns of the top rows. */
  lemma SpawnInBelt(k: nat)
    requires k < 7
    ensures InBounds(Tetromino(k), SpawnX(Tetromino(k)), 0, Rows, BoardWidth)
    ensures forall cx, cy :: Covers(Tetromino(k), SpawnX(Tetromino(k)), 0, cx, cy) ==> Cols <= cx < BoardWidth
  {
  }

  /** The `pieces` array of `generatePiece`: seven new objects. */
  method Catalogue() returns (pieces: seq<Piece>)
    ensures |pieces| == 7
    ensures forall k :: 0 <= k < 7 ==> fresh(pieces[k]) && Spawned(pieces[k], k)
    ensures forall i, j :: 0 <= i < j < 7 ==> pieces[i] != pieces[j]
  {
    var t := new Piece(Tetromino(0), TetrominoColour(0));
    var o := new Piece(Tetromino(1), TetrominoColour(1));
    var s := new Piece(Tetromino(2), TetrominoColour(2));
    var z := new Piece(Tetromino(3), TetrominoColour(3));
    var l := new Piece(Tetromino(4), TetrominoColour(4));
    var j := new Piece(Tetromino(5), TetrominoColour(5));
    var i := new Piece(Tetromino(6), TetrominoColour(6));
    pieces := [t, o, s, z, l, j, i];
  }

  /** The pointer cell lies in the bounding box of shape s anchored at (px, py). */
  predicate InBox(s: Matrix, px: int, py: int, cx: int, cy: int) {
    px <= cx < px + |s[0]| && py <= cy < py + |s|
  }

  /** The drop test: no collision, and the anchor column is a play column.
      Only the anchor column is tested, so a piece may hang into the belt. */
  predicate DropAccepted(b: Board, s: Matrix, cx: int, cy: int)
    requires IsBoard(b, Rows, BoardWidth)
  {
    Scan(b, Rows, BoardWidth, s, cx, cy) == Free && cx < Cols
  }

  /** The belt columns are not protected: an I piece dropped at play column 9
      of an empty board is accepted and three of its cells land in the belt. */
  lemma DropMayReachBelt(b: Board)
    requires IsBoard(b, Rows, BoardWidth) && forall y, x :: 0 <= y < Rows && 0 <= x < BoardWidth ==> b[y][x] == Empty
    ensures DropAccepted(b, Tetromino(6), 9, 0)
    ensures Covers(Tetromino(6), 9, 0, Cols, 0)
  {
    ScanMeaning(b, Rows, BoardWidth, Tetromino(6), 9, 0);
  }

  /** The globals: `board`, `currentPiece`, `nextPiece`, `pieceAttachedToMouse`. */
  class Game {
    var board: Board
    var current: Piece?
    var next: Piece?
    var attached: bool

    /** A piece that is not on the pointer lies on the board; so does the next
        piece unless it is the current one. */
    ghost predicate Valid()
      reads this, current, next
    {
      IsBoard(board, Rows, BoardWidth) && current != null && next != null &&
      (!attached ==> OnBoard(current)) && (next != current ==> OnBoard(next))
    }

    /** `setup`: `initBoard()` then `generatePiece()`. */
    constructor (pick: nat, pickNext: nat)
      requires pick < 7 && pickNext < 7
      ensures Valid() && !attached
      ensures forall y, x :: 0 <= y < Rows && 0 <= x < BoardWidth ==> board[y][x] == Empty
      ensures fresh(current) && Spawned(current, pick) && fresh(next) && Spawned(next, pickNext)
      ensures current == next <==> pick == pickNext
    {
      var b := InitBoard(Rows, BoardWidth);
      board := b;
      current := null;
      next := null;
      attached := false;
      new;
      SpawnInBelt(pick);
      SpawnInBelt(pickNext);
      GeneratePiece(pick, pickNext);
    }

    /** `generatePiece`: the previous next piece (or a draw, the first time)
        becomes current, and a new next piece is drawn. */
    method GeneratePiece(pick: nat, pickNext: nat)
      requires pick < 7 && pickNext < 7
      requires IsBoard(board, Rows, BoardWidth)
      requires next != null ==> OnBoard(next)
      modifies this
      ensures Valid() && OnBoard(current) && board == old(board) && attached == old(attached)
      ensures old(next) != null ==> current == old(next)
      ensures old(next) == null ==> fresh(current) && Spawned(current, pick)
      ensures fresh(next) && Spawned(next, pickNext)
      ensures old(next) == null ==> (current == next <==> pick == pickNext)
    {
      SpawnInBelt(pick);
      SpawnInBelt(pickNext);
      var pieces := Catalogue();
      current := if next != null then next else pieces[pick];
      next := pieces[pickNext];
    }

    /** `placePiece(currentPiece)`: write the colour under the piece, clear
        full play rows, then bring in the next piece. The caller has checked
        the placement, so every write lands on the board. */
    method PlacePiece(pick: nat, pickNext: nat)
      requires Valid() && pick < 7 && pickNext < 7
      requires InBounds(current.shape, current.x, current.y, Rows, BoardWidth)
      modifies this
      ensures Valid() && OnBoard(current) && attached == old(attached)
      ensures board == Sweep(Stamped(old(board), old(current.shape), old(current.x), old(current.y), old(current.colour)), Cols, BoardWidth)
      ensures current == old(next) && fresh(next) && Spawned(next, pickNext)
    {
      var stamped := Stamp(board, Rows, BoardWidth, current.shape, current.x, current.y, current.colour);
      board := ClearLines(stamped, Cols, BoardWidth);
      GeneratePiece(pick, pickNext);
    }

    /** `followMouse`: the attached piece's anchor is the pointer cell. */
    method FollowMouse(cx: int, cy: int)
      requires Valid() && attached
      modifies current
      ensures Valid() && current.x == cx && current.y == cy && current.shape == old(current.shape)
    {
      current.x := cx;
      current.y := cy;
    }

    /** `Piece.move(dx, dy)` on the current piece: step, and step back if the
        scan finds a collision. A scan that throws leaves the stepped anchor. */
    method Move(dx: int, dy: int)
      requires Valid() && dy >= 0
      modifies current
      ensures Valid() && current.shape == old(current.shape)
      ensures var v := Scan(board, Rows, BoardWidth, old(current.shape), old(current.x) + dx, old(current.y) + dy);
        (!attached ==> v != Fault) &&
        if v == Blocked then current.x == old(current.x) && current.y == old(current.y)
        else current.x == old(current.x) + dx && current.y == old(current.y) + dy
    {
      assert !attached ==> NoneAbove(current.shape, current.y + dy);
      current.x := current.x + dx;
      current.y := current.y + dy;
      var v := CheckCollision(board, Rows, BoardWidth, current.shape, current.x, current.y);
      ScanMeaning(board, Rows, BoardWidth, current.shape, current.x, current.y);
      if v == Fault {
        return;
      }
      if v == Blocked {
        current.x := current.x - dx;
        current.y := current.y - dy;
      }
    }

    /** `Piece.rotate()` on the current piece: the counter-clockwise turn is
        kept unless the scan finds a collision; the anchor never moves. A scan
        that throws leaves the turned shape. Only `keyPressed` calls it, and
        only while the piece is on the pointer. */
    method Rotate()
      requires Valid() && attached
      modifies current
      ensures Valid() && current.x == old(current.x) && current.y == old(current.y)
      ensures var turned := RotateLeft(old(current.shape));
        var v := Scan(board, Rows, BoardWidth, turned, current.x, current.y);
        current.shape == if v == Blocked then old(current.shape) else turned
    {
      var tempShape := current.shape;
      current.shape := RotateLeft(current.shape);
      var v := CheckCollision(board, Rows, BoardWidth, current.shape, current.x, current.y);
      ScanMeaning(board, Rows, BoardWidth, current.shape, current.x, current.y);
      if v == Fault {
        return;
      }
      if v == Blocked {
        current.shape := tempShape;
      }
    }

    /** `Piece.update()`: a gravity step only when no piece is on the pointer.
        A blocked step leaves everything as it was: nothing is committed. */
    method Update()
      requires Valid()
      modifies current
      ensures Valid() && current.shape == old(current.shape) && current.x == old(current.x)
      ensures current.y == if !attached && Fits(board, Rows, BoardWidth, current.shape, current.x, old(current.y) + 1)
                           then old(current.y) + 1 else old(current.y)
    {
      if !attached {
        Move(0, 1);
        ScanMeaning(board, Rows, BoardWidth, current.shape, current.x, old(current.y) + 1);
      }
    }

    /** `keyPressed`: 'r' rotates, and only while the piece is on the pointer. */
    method KeyPressed(key: char)
      requires Valid()
      modifies current
      ensures Valid() && current.x == old(current.x) && current.y == old(current.y)
      ensures !(attached && key == 'r') ==> current.shape == old(current.shape)
      ensures attached && key == 'r' ==>
        current.shape == if Scan(board, Rows, BoardWidth, RotateLeft(old(current.shape)), current.x, current.y) == Blocked
                         then old(current.shape) else RotateLeft(old(current.shape))
    {
      if attached && key == 'r' {
        Rotate();
      }
    }

    /** `mousePressed` with the pointer at cell (cx, cy).
        Not attached: a press inside the current piece's bounding box attaches
        it; nothing else changes.
        Attached: the piece is tried at (cx, cy). A collision, or an anchor
        column in the belt, puts it back and it stays attached; otherwise it is
        committed there and let go. A scan that throws leaves it at (cx, cy). */
    method MousePressed(cx: int, cy: int, pick: nat, pickNext: nat)
      requires Valid() && pick < 7 && pickNext < 7
      modifies this, current
      ensures Valid()
      ensures !old(attached) ==>
        board == old(board) && current == old(current) && next == old(next) &&
        current.x == old(current.x) && current.y == old(current.y) && current.shape == old(current.shape) &&
        attached == InBox(old(current.shape), old(current.x), old(current.y), cx, cy)
      ensures old(attached) ==>
        var shape := old(current.shape);
        var v := Scan(old(board), Rows, BoardWidth, shape, cx, cy);
        if v == Fault then
          attached && board == old(board) && current == old(current) && next == old(next) &&
          current.x == cx && current.y == cy && current.shape == shape
        else if !DropAccepted(old(board), shape, cx, cy) then
          attached && board == old(board) && current == old(current) && next == old(next) &&
          current.x == old(current.x) && current.y == old(current.y) && current.shape == shape
        else
          !attached && old(current).x == cx && old(current).y == cy && old(current).shape == shape &&
          board == Sweep(Stamped(old(board), shape, cx, cy, old(current.colour)), Cols, BoardWidth) &&
          current == old(next) && fresh(next) && Spawned(next, pickNext)
    {
      if !attached {
        if cx >= current.x && cx < current.x + |current.shape[0]| &&
           cy >= current.y && cy < current.y + |current.shape| {
          attached := true;
        }
      } else {
        var originalX := current.x;
        var originalY := current.y;
        current.x := cx;
        current.y := cy;
        var v := CheckCollision(board, Rows, BoardWidth, current.shape, current.x, current.y);
        if v == Fault {
          return;
        }
        if v == Blocked || cx >= Cols {
          current.x := originalX;
          current.y := originalY;
        } else {
          ScanMeaning(board, Rows, BoardWidth, current.shape, cx, cy);
          FitsInBounds(board, Rows, BoardWidth, current.shape, cx, cy);
          PlacePiece(pick, pickNext);
          attached := false;
        }
      }
    }

    /** One `draw` frame with the pointer at cell (cx, cy): the attached piece
        follows the pointer, otherwise gravity acts. */
    method Frame(cx: int, cy: int)
      requires Valid()
      modifies current
      ensures Valid() && current.shape == old(current.shape)
      ensures attached ==> current.x == cx && current.y == cy
      ensures !attached ==>
        current.x == old(current.x) &&
        current.y == if Fits(board, Rows, BoardWidth, current.shape, current.x, old(current.y) + 1)
                     then old(current.y) + 1 else old(current.y)
    {
      if attached {
        FollowMouse(cx, cy);
      } else {
        Update();
      }
    }
  }
}
