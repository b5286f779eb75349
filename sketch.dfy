/** sketch.js: the first prototype, a plain falling-block game on a 10 x 20
    board driven by the arrow keys. Gravity commits a piece when its downward
    step is blocked; committing clears full rows and brings in the next piece. */
module Sketch {
  import opened Shapes
  import opened Cells
  import opened Collision
  import opened Lines

  const Cols: nat := 10
  const Rows: nat := 20

  /** `keyCode` values `keyPressed` reacts to; every other key is OtherKey. */
  datatype Key = LeftArrow | RightArrow | DownArrow | UpArrow | OtherKey

  /** The spawn column: `floor(cols / 2) - floor(shape[0].length / 2)`. */
  function SpawnX(s: Shape): int
    requires |s| > 0
  {
    Cols / 2 - Width(s) / 2
  }

  /** A piece: its shape matrix, colour and board anchor (top-left corner). */
  class Piece {
    var shape: Shape
    const colour: Cell
    var x: int
    var y: int

    constructor (shape: Shape, colour: Cell)
      requires |shape| > 0
      ensures this.shape == shape && this.colour == colour
      ensures x == SpawnX(shape) && y == 0
    {
      this.shape := shape;
      this.colour := colour;
      x := SpawnX(shape);
      y := 0;
    }
  }

  /** p is catalogue piece k, as the constructor leaves it. */
  ghost predicate Spawned(p: Piece, k: nat)
    requires k < 7
    reads p
  {
    p.shape == Tetromino(k) && p.colour == TetrominoColour(k) && p.x == SpawnX(Tetromino(k)) && p.y == 0
  }

  /** p is a well-formed piece lying on the board (anchor row >= 0). */
  ghost predicate OnBoard(p: Piece)
    reads p
  {
    IsMatrix(p.shape) && p.y >= 0 && InBounds(p.shape, p.x, p.y, Rows, Cols)
  }

  /** The `pieces` array `generatePiece` builds: seven new objects. */
  method Catalogue() returns (pieces: seq<Piece>)
    ensures |pieces| == 7
    ensures forall k :: 0 <= k < 7 ==> fresh(pieces[k]) && Spawned(pieces[k], k)
    ensures forall i, j :: 0 <= i < j < 7 ==> pieces[i] != pieces[j]
  {
    var t := new Piece(Tetromino(0), TetrominoColour(0));
    var o := new Piece(Tetromino(1), TetrominoColour(1));
    var s := new Piece(Tetromino(2), TetrominoColour(2));
    var z := new Piece(Tetromino(3), TetrominoColour(3));
    var l := new Piece(Tetromino(4), TetrominoColour(4));
    var j := new Piece(Tetromino(5), TetrominoColour(5));
    var i := new Piece(Tetromino(6), TetrominoColour(6));
    pieces := [t, o, s, z, l, j, i];
  }

  /** The game's globals: `board`, `currentPiece` and `nextPiece`. */
  class Game {
    var board: Board
    var current: Piece?
    var next: Piece?

    ghost predicate Valid()
      reads this, current, next
    {
      IsBoard(board, Rows, Cols) && current != null && next != null && OnBoard(current) && OnBoard(next)
    }

    /** `setup`: `initBoard()` then `generatePiece()`; the two `random`
        draws are `pick` and `pickNext`. */
    constructor (pick: nat, pickNext: nat)
      requires pick < 7 && pickNext < 7
      ensures Valid()
      ensures forall y, x :: 0 <= y < Rows && 0 <= x < Cols ==> board[y][x] == Empty
      ensures fresh(current) && Spawned(current, pick) && fresh(next) && Spawned(next, pickNext)
      ensures current == next <==> pick == pickNext
    {
      var b := InitBoard(Rows, Cols);
      board := b;
      current := null;
      next := null;
      new;
      GeneratePiece(pick, pickNext);
    }

    /** `generatePiece`: `currentPiece = nextPiece || random(pieces)` and
        `nextPiece = random(pieces)`, both drawn from one fresh catalogue, so
        on the first call equal draws make them the same object. */
    method GeneratePiece(pick: nat, pickNext: nat)
      requires pick < 7 && pickNext < 7
      requires IsBoard(board, Rows, Cols) && (next != null ==> OnBoard(next))
      modifies this
      ensures Valid() && board == old(board)
      ensures old(next) != null ==> current == old(next)
      ensures old(next) == null ==> fresh(current) && Spawned(current, pick)
      ensures fresh(next) && Spawned(next, pickNext)
      ensures old(next) == null ==> (current == next <==> pick == pickNext)
    {
      var pieces := Catalogue();
      current := if next != null then next else pieces[pick];
      next := pieces[pickNext];
    }

    /** `placePiece(currentPiece)`: write the colour under the piece, run
        `clearLines`, then `generatePiece`. */
    method PlacePiece(pick: nat, pickNext: nat)
      requires Valid() && pick < 7 && pickNext < 7
      modifies this
      ensures Valid()
      ensures board == Sweep(Stamped(old(board), old(current.shape), old(current.x), old(current.y), old(current.colour)), Cols, Cols)
      ensures current == old(next) && fresh(next) && Spawned(next, pickNext)
    {
      var stamped := Stamp(board, Rows, Cols, current.shape, current.x, current.y, current.colour);
      board := ClearLines(stamped, Cols, Cols);
      GeneratePiece(pick, pickNext);
    }

    /** `Piece.move(dx, dy)` on the current piece: step the anchor, and if the
        new placement collides step it back; a blocked step with dy > 0
        commits the piece where it was. `pick`/`pickNext` are the draws the
        commit's `generatePiece` makes. */
    method Move(dx: int, dy: int, pick: nat, pickNext: nat)
      requires Valid() && dy >= 0 && pick < 7 && pickNext < 7
      modifies this, current
      ensures Valid()
      ensures var shape, px, py := old(current.shape), old(current.x), old(current.y);
        if Fits(old(board), Rows, Cols, shape, px + dx, py + dy) then
          current == old(current) && current.x == px + dx && current.y == py + dy &&
          current.shape == shape && board == old(board) && next == old(next)
        else
          old(current).x == px && old(current).y == py && old(current).shape == shape &&
          if dy > 0 then
            board == Sweep(Stamped(old(board), shape, px, py, old(current.colour)), Cols, Cols) &&
            current == old(next) && fresh(next) && Spawned(next, pickNext)
          else
            current == old(current) && board == old(board) && next == old(next)
    {
      current.x := current.x + dx;
      current.y := current.y + dy;
      var v := CheckCollision(board, Rows, Cols, current.shape, current.x, current.y);
      ScanMeaning(board, Rows, Cols, current.shape, current.x, current.y);
      if v != Free {
        current.x := current.x - dx;
        current.y := current.y - dy;
        if dy > 0 {
          PlacePiece(pick, pickNext);
        }
      }
    }

    /** `Piece.rotate()` on the current piece: turn the shape counter-clockwise
        and keep the old shape if the turned one collides. The anchor never moves. */
    method Rotate()
      requires Valid()
      modifies current
      ensures Valid()
      ensures current.x == old(current.x) && current.y == old(current.y)
      ensures var turned := RotateLeft(old(current.shape));
        current.shape == if Fits(board, Rows, Cols, turned, current.x, current.y) then turned else old(current.shape)
    {
      var tempShape := current.shape;
      current.shape := RotateLeft(current.shape);
      var v := CheckCollision(board, Rows, Cols, current.shape, current.x, current.y);
      ScanMeaning(board, Rows, Cols, current.shape, current.x, current.y);
      if v != Free {
        current.shape := tempShape;
      }
    }

    /** `Piece.update()`: the gravity step `move(0, 1)`. The piece drops a row
        if it can; otherwise it is committed where it is and the next piece
        becomes current. */
    method Update(pick: nat, pickNext: nat)
      requires Valid() && pick < 7 && pickNext < 7
      modifies this, current
      ensures Valid()
      ensures var shape, px, py := old(current.shape), old(current.x), old(current.y);
        if Fits(old(board), Rows, Cols, shape, px, py + 1) then
          current == old(current) && current.x == px && current.y == py + 1 &&
          current.shape == shape && board == old(board) && next == old(next)
        else
          old(current).x == px && old(current).y == py && old(current).shape == shape &&
          board == Sweep(Stamped(old(board), shape, px, py, old(current.colour)), Cols, Cols) &&
          current == old(next) && fresh(next) && Spawned(next, pickNext)
    {
      Move(0, 1, pick, pickNext);
    }

    /** `keyPressed`: left/right step sideways, down is a gravity step, up
        rotates; any other key does nothing. A sideways step never changes
        the board. */
    method KeyPressed(key: Key, pick: nat, pickNext: nat)
      requires Valid() && pick < 7 && pickNext < 7
      modifies this, current
      ensures Valid()
      ensures key != DownArrow ==> board == old(board) && current == old(current) && next == old(next)
      ensures key == OtherKey ==> current.x == old(current.x) && current.y == old(current.y) && current.shape == old(current.shape)
      ensures key == LeftArrow || key == RightArrow ==>
        var dx := if key == LeftArrow then -1 else 1;
        current.y == old(current.y) && current.shape == old(current.shape) &&
        current.x == if Fits(old(board), Rows, Cols, old(current.shape), old(current.x) + dx, old(current.y))
                     then old(current.x) + dx else old(current.x)
      ensures key == UpArrow ==>
        current.x == old(current.x) && current.y == old(current.y) &&
        current.shape == if Fits(board, Rows, Cols, RotateLeft(old(current.shape)), current.x, current.y)
                         then RotateLeft(old(current.shape)) else old(current.shape)
      ensures key == DownArrow ==>
        var shape, px, py := old(current.shape), old(current.x), old(current.y);
        if Fits(old(board), Rows, Cols, shape, px, py + 1) then
          current == old(current) && current.x == px && current.y == py + 1 &&
          current.shape == shape && board == old(board) && next == old(next)
        else
          old(current).x == px && old(current).y == py && old(current).shape == shape &&
          board == Sweep(Stamped(old(board), shape, px, py, old(current.colour)), Cols, Cols) &&
          current == old(next) && fresh(next) && Spawned(next, pickNext)
    {
      if key == LeftArrow {
        Move(-1, 0, pick, pickNext);
      } else if key == RightArrow {
        Move(1, 0, pick, pickNext);
      } else if key == DownArrow {
        Move(0, 1, pick, pickNext);
      } else if key == UpArrow {
        Rotate();
      }
    }
  }
}
