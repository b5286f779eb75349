/** Version_0_1/sketch.js: no gravity. Five pieces wait on a conveyor belt
    under the board; the player drags one onto the board and a valid drop
    writes it there. Pointer positions are integer pixels here. */
module Version0_1 {
  import opened Shapes
  import opened Cells
  import opened Collision

  const Cols: nat := 10
  const Rows: nat := 20
  const BlockSize: nat := 30
  /** Pixel gap between two belt slots. */
  const SlotGap: nat := 5
  /** Number of pieces `initConveyorBelt` puts on the belt. */
  const BeltLength: nat := 5

  datatype Option<T> = None | Some(value: T)

  /** A piece. Nothing in this version changes a shape, so it is a constant. */
  class Piece {
    const shape: Matrix
    const colour: Cell
    var x: int
    var y: int

    constructor (shape: Matrix, colour: Cell)
      ensures this.shape == shape && this.colour == colour && x == 0 && y == 0
    {
      this.shape := shape;
      this.colour := colour;
      x := 0;
      y := 0;
    }
  }

  /** The local `pieces` array of `initConveyorBelt`: seven new objects. */
  method Catalogue() returns (pieces: seq<Piece>)
    ensures |pieces| == 7
    ensures forall k :: 0 <= k < 7 ==> fresh(pieces[k])
    ensures forall k :: 0 <= k < 7 ==> pieces[k].shape == Tetromino(k) && pieces[k].colour == TetrominoColour(k)
    ensures forall i, j :: 0 <= i < 7 && 0 <= j < 7 && i != j ==> pieces[i] != pieces[j]
  {
    var t := new Piece(Tetromino(0), TetrominoColour(0));
    var o := new Piece(Tetromino(1), TetrominoColour(1));
    var s := new Piece(Tetromino(2), TetrominoColour(2));
    var z := new Piece(Tetromino(3), TetrominoColour(3));
    var l := new Piece(Tetromino(4), TetrominoColour(4));
    var j := new Piece(Tetromino(5), TetrominoColour(5));
    var i := new Piece(Tetromino(6), TetrominoColour(6));
    pieces := [t, o, s, z, l, j, i];
  }

  /** The last of the first n draws that picked the same catalogue piece as
      draw k: that draw's slot is where the shared object ends up. */
  function LastDraw(picks: seq<nat>, n: nat, k: nat): (m: nat)
    requires k < n <= |picks|
    ensures k <= m < n && picks[m] == picks[k]
    ensures forall j :: m < j < n ==> picks[j] != picks[k]
    decreases n
  {
    if picks[n - 1] == picks[k] then n - 1 else LastDraw(picks, n - 1, k)
  }

  /** Draw k is the last of the first n draws to pick its catalogue piece. */
  predicate LastOfItsPiece(picks: seq<nat>, n: nat, k: nat)
    requires k < n <= |picks|
  {
    forall j :: k < j < n ==> picks[j] != picks[k]
  }

  /** The loop of `initConveyorBelt`: draw k takes catalogue piece
      `picks[k]`, moves it to slot k's pixel position and is pushed, so a
      piece ends up at the slot of the last draw that took it. */
  method FillSlots(pieces: seq<Piece>, picks: seq<nat>) returns (belt: seq<Piece>)
    requires |pieces| == 7 && forall i, j :: 0 <= i < 7 && 0 <= j < 7 && i != j ==> pieces[i] != pieces[j]
    requires |picks| == BeltLength && forall i :: 0 <= i < |picks| ==> picks[i] < 7
    modifies pieces
    ensures |belt| == BeltLength
    ensures forall k :: 0 <= k < BeltLength ==> belt[k] == pieces[picks[k]]
    ensures forall k :: 0 <= k < BeltLength && LastOfItsPiece(picks, BeltLength, k) ==>
      belt[k].x == SlotX(k) && belt[k].y == Rows * BlockSize
  {
    belt := [];
    var i := 0;
    while i < BeltLength
      invariant 0 <= i <= BeltLength && |belt| == i
      invariant forall k :: 0 <= k < i ==> belt[k] == pieces[picks[k]]
      invariant forall k :: 0 <= k < i && LastOfItsPiece(picks, i, k) ==>
        belt[k].x == SlotX(k) && belt[k].y == Rows * BlockSize
    {
      var piece := pieces[picks[i]];
      piece.x := SlotX(i);
      piece.y := Rows * BlockSize;
      belt := belt + [piece];
      i := i + 1;
    }
  }

  /** What the loop leaves, in terms of the draws: each slot's shape and
      colour, where each shared object ends up, and which slots share one. */
  lemma BeltFacts(pieces: seq<Piece>, picks: seq<nat>, belt: seq<Piece>)
    requires |pieces| == 7 && forall i, j :: 0 <= i < 7 && 0 <= j < 7 && i != j ==> pieces[i] != pieces[j]
    requires forall k :: 0 <= k < 7 ==> pieces[k].shape == Tetromino(k) && pieces[k].colour == TetrominoColour(k)
    requires |picks| == BeltLength && forall i :: 0 <= i < |picks| ==> picks[i] < 7
    requires |belt| == BeltLength && forall k :: 0 <= k < BeltLength ==> belt[k] == pieces[picks[k]]
    requires forall k :: 0 <= k < BeltLength && LastOfItsPiece(picks, BeltLength, k) ==>
      belt[k].x == SlotX(k) && belt[k].y == Rows * BlockSize
    ensures forall a :: 0 <= a < BeltLength ==>
      belt[a].shape == Tetromino(picks[a]) && belt[a].colour == TetrominoColour(picks[a])
    ensures forall a :: 0 <= a < BeltLength ==>
      belt[a].x == SlotX(LastDraw(picks, BeltLength, a)) && belt[a].y == Rows * BlockSize
    ensures forall a, b :: 0 <= a < BeltLength && 0 <= b < BeltLength ==> (belt[a] == belt[b] <==> picks[a] == picks[b])
  {
    forall a | 0 <= a < BeltLength
      ensures belt[a].x == SlotX(LastDraw(picks, BeltLength, a)) && belt[a].y == Rows * BlockSize
    {
      var m := LastDraw(picks, BeltLength, a);
      assert LastOfItsPiece(picks, BeltLength, m);
      assert belt[m] == belt[a];
    }
    forall a, b | 0 <= a < BeltLength && 0 <= b < BeltLength
      ensures belt[a] == belt[b] <==> picks[a] == picks[b]
    {
      assert belt[a] == pieces[picks[a]] && belt[b] == pieces[picks[b]];
    }
  }

  /** Left pixel edge of belt slot i: `i * (blockSize + 5)`. */
  function SlotX(i: int): int {
    i * (BlockSize + SlotGap)
  }

  /** The pointer is inside belt slot i (edges included). */
  predicate SlotHit(i: int, mx: int, my: int) {
    SlotX(i) <= mx <= SlotX(i) + BlockSize && Rows * BlockSize <= my <= Rows * BlockSize + BlockSize
  }

  /** The first of the n belt slots the pointer is in, if any. */
  function FirstSlot(n: nat, mx: int, my: int): (r: Option<nat>)
    ensures r.Some? ==> r.value < n && SlotHit(r.value, mx, my)
    ensures r.Some? ==> forall j :: 0 <= j < r.value ==> !SlotHit(j, mx, my)
    ensures r.None? ==> forall j :: 0 <= j < n ==> !SlotHit(j, mx, my)
    decreases n
  {
    if n == 0 then None
    else match FirstSlot(n - 1, mx, my)
      case Some(i) => Some(i)
      case None => if SlotHit(n - 1, mx, my) then Some(n - 1) else None
  }

  /** The slots are separated by the gap, so a pointer is in at most one. */
  lemma SlotsDisjoint(i: int, j: int, mx: int, my: int)
    requires SlotHit(i, mx, my) && SlotHit(j, mx, my)
    ensures i == j
  {
  }

  /** Any slot the pointer is in is the one `mousePressed` picks. */
  lemma FirstSlotIsHit(n: nat, i: nat, mx: int, my: int)
    requires i < n && SlotHit(i, mx, my)
    ensures FirstSlot(n, mx, my) == Some(i)
  {
    var r := FirstSlot(n, mx, my);
    SlotsDisjoint(r.value, i, mx, my);
  }

  /** The belt facts, read through the belt's place at the end of the conveyor. */
  lemma AppendedBelt(c: seq<Piece>, n: nat, belt: seq<Piece>, picks: seq<nat>)
    requires |picks| == BeltLength && forall i :: 0 <= i < |picks| ==> picks[i] < 7
    requires |belt| == BeltLength && |c| == n + BeltLength && c[n..] == belt
    requires forall a :: 0 <= a < BeltLength ==>
      belt[a].shape == Tetromino(picks[a]) && belt[a].colour == TetrominoColour(picks[a]) &&
      belt[a].x == SlotX(LastDraw(picks, BeltLength, a)) && belt[a].y == Rows * BlockSize
    requires forall a, b :: 0 <= a < BeltLength && 0 <= b < BeltLength ==> (belt[a] == belt[b] <==> picks[a] == picks[b])
    ensures forall i :: 0 <= i < BeltLength ==> var p := c[n + i];
      p.shape == Tetromino(picks[i]) && p.colour == TetrominoColour(picks[i]) &&
      p.x == SlotX(LastDraw(picks, BeltLength, i)) && p.y == Rows * BlockSize
    ensures forall i, j :: 0 <= i < BeltLength && 0 <= j < BeltLength ==>
      (c[n + i] == c[n + j] <==> picks[i] == picks[j])
  {
    assert forall i :: 0 <= i < BeltLength ==> c[n + i] == belt[i];
  }

  /** The drop test of `mouseReleased`: the anchor lies on the board and the
      placement does not collide. The anchor test comes first, so the
      collision scan never sees a negative row. */
  predicate DropAccepted(b: Board, s: Shape, x: int, y: int)
    requires IsBoard(b, Rows, Cols)
  {
    0 <= x < Cols && 0 <= y < Rows && Fits(b, Rows, Cols, s, x, y)
  }

  /** An accepted drop lies wholly on the board, so every write of the commit lands. */
  lemma DropAcceptedInBounds(b: Board, s: Shape, x: int, y: int)
    requires IsBoard(b, Rows, Cols) && DropAccepted(b, s, x, y)
    ensures InBounds(s, x, y, Rows, Cols)
    ensures forall cy, cx :: Covers(s, x, y, cx, cy) ==> 0 <= cy < Rows && 0 <= cx < Cols && b[cy][cx] == Empty
  {
    FitsInBounds(b, Rows, Cols, s, x, y);
  }

  /** The globals: `board`, `conveyorBelt`, `draggingPiece`, `offsetX`, `offsetY`. */
  class Game {
    var board: Board
    var conveyor: seq<Piece>
    var dragging: Piece?
    var offsetX: int
    var offsetY: int

    ghost predicate Valid()
      reads this
    {
      IsBoard(board, Rows, Cols)
    }

    /** `setup`: `initBoard()` then `initConveyorBelt()`; `picks` are the
        five `random(pieces)` draws. */
    constructor (picks: seq<nat>)
      requires |picks| == BeltLength && forall i :: 0 <= i < |picks| ==> picks[i] < 7
      ensures Valid() && dragging == null && offsetX == 0 && offsetY == 0
      ensures forall y, x :: 0 <= y < Rows && 0 <= x < Cols ==> board[y][x] == Empty
      ensures |conveyor| == BeltLength
      ensures forall i :: 0 <= i < BeltLength ==> fresh(conveyor[i])
      ensures forall i :: 0 <= i < BeltLength ==>
        conveyor[i].shape == Tetromino(picks[i]) && conveyor[i].colour == TetrominoColour(picks[i])
      ensures forall i :: 0 <= i < BeltLength ==>
        conveyor[i].x == SlotX(LastDraw(picks, BeltLength, i)) && conveyor[i].y == Rows * BlockSize
      ensures forall i, j :: 0 <= i < BeltLength && 0 <= j < BeltLength ==>
        (conveyor[i] == conveyor[j] <==> picks[i] == picks[j])
    {
      var b := InitBoard(Rows, Cols);
      board := b;
      conveyor := [];
      dragging := null;
      offsetX := 0;
      offsetY := 0;
      new;
      InitConveyorBelt(picks);
    }

    /** `initConveyorBelt`: five draws from one new catalogue, each placed at
        its slot's pixel position and pushed on the belt. A piece drawn twice
        is one object in two slots, and its position is that of its last slot. */
    method InitConveyorBelt(picks: seq<nat>)
      requires Valid()
      requires |picks| == BeltLength && forall i :: 0 <= i < |picks| ==> picks[i] < 7
      modifies this
      ensures Valid() && board == old(board) && dragging == old(dragging)
      ensures offsetX == old(offsetX) && offsetY == old(offsetY)
      ensures |conveyor| == |old(conveyor)| + BeltLength && conveyor[..|old(conveyor)|] == old(conveyor)
      ensures forall i :: |old(conveyor)| <= i < |conveyor| ==> fresh(conveyor[i])
      ensures forall i :: 0 <= i < BeltLength ==> var p := conveyor[|old(conveyor)| + i];
        p.shape == Tetromino(picks[i]) && p.colour == TetrominoColour(picks[i]) &&
        p.x == SlotX(LastDraw(picks, BeltLength, i)) && p.y == Rows * BlockSize
      ensures forall i, j :: 0 <= i < BeltLength && 0 <= j < BeltLength ==>
        (conveyor[|old(conveyor)| + i] == conveyor[|old(conveyor)| + j] <==> picks[i] == picks[j])
    {
      var pieces := Catalogue();
      var belt := FillSlots(pieces, picks);
      assert forall k :: 0 <= k < BeltLength ==> fresh(belt[k]);
      conveyor := conveyor + belt;
      BeltFacts(pieces, picks, belt);
      AppendedBelt(conveyor, |old(conveyor)|, belt, picks);
    }

    /** `mousePressed`: the first belt slot under the pointer gives up its
        piece, which becomes the dragged piece, with the pointer's cell offset
        inside the slot remembered; the entry is spliced out of the belt and
        the others keep their order. A press outside every slot changes nothing. */
    method MousePressed(mx: int, my: int)
      requires Valid()
      modifies this
      ensures Valid() && board == old(board)
      ensures match FirstSlot(|old(conveyor)|, mx, my)
        case None =>
          conveyor == old(conveyor) && dragging == old(dragging) &&
          offsetX == old(offsetX) && offsetY == old(offsetY)
        case Some(i) =>
          dragging == old(conveyor)[i] && conveyor == old(conveyor)[..i] + old(conveyor)[i + 1..] &&
          offsetX == (mx - SlotX(i)) / BlockSize && offsetY == (my - Rows * BlockSize) / BlockSize
    {
      var i := 0;
      while i < |conveyor|
        invariant 0 <= i <= |conveyor|
        invariant conveyor == old(conveyor) && dragging == old(dragging)
        invariant offsetX == old(offsetX) && offsetY == old(offsetY)
        invariant forall j :: 0 <= j < i ==> !SlotHit(j, mx, my)
      {
        var piece := conveyor[i];
        var pieceX := i * (BlockSize + SlotGap);
        if mx >= pieceX && mx <= pieceX + BlockSize &&
           my >= Rows * BlockSize && my <= Rows * BlockSize + BlockSize {
          dragging := piece;
          offsetX := (mx - pieceX) / BlockSize;
          offsetY := (my - Rows * BlockSize) / BlockSize;
          conveyor := conveyor[..i] + conveyor[i + 1..];
          FirstSlotIsHit(|old(conveyor)|, i, mx, my);
          return;
        }
        i := i + 1;
      }
    }

    /** The drag step of `draw`: the dragged piece's anchor follows the
        pointer's cell, less the remembered offset. */
    method FollowPointer(mx: int, my: int)
      requires Valid()
      modifies dragging
      ensures Valid()
      ensures dragging != null ==> dragging.x == mx / BlockSize - offsetX && dragging.y == my / BlockSize - offsetY
    {
      if dragging != null {
        dragging.x := mx / BlockSize - offsetX;
        dragging.y := my / BlockSize - offsetY;
      }
    }

    /** `placePiece`: the colour goes into the cells under the piece and
        nothing else happens (no line clear, no new piece). */
    method PlacePiece(p: Piece)
      requires Valid() && InBounds(p.shape, p.x, p.y, Rows, Cols)
      modifies this
      ensures Valid() && conveyor == old(conveyor) && dragging == old(dragging)
      ensures offsetX == old(offsetX) && offsetY == old(offsetY)
      ensures board == Stamped(old(board), p.shape, p.x, p.y, p.colour)
    {
      board := Stamp(board, Rows, Cols, p.shape, p.x, p.y, p.colour);
    }

    /** `mouseReleased`: a dragged piece is committed when the drop is
        accepted; either way it is let go, so a rejected piece is gone for
        good rather than back on the belt. */
    method MouseReleased()
      requires Valid()
      modifies this
      ensures Valid() && dragging == null && conveyor == old(conveyor)
      ensures offsetX == old(offsetX) && offsetY == old(offsetY)
      ensures old(dragging) == null ==> board == old(board)
      ensures old(dragging) != null ==>
        var p := old(dragging);
        board == if DropAccepted(old(board), p.shape, p.x, p.y) then Stamped(old(board), p.shape, p.x, p.y, p.colour)
                 else old(board)
    {
      if dragging != null {
        var gameX := dragging.x;
        var gameY := dragging.y;
        if gameX >= 0 && gameX < Cols && gameY >= 0 && gameY < Rows {
          var v := CheckCollision(board, Rows, Cols, dragging.shape, gameX, gameY);
          ScanMeaning(board, Rows, Cols, dragging.shape, gameX, gameY);
          if v == Free {
            FitsInBounds(board, Rows, Cols, dragging.shape, gameX, gameY);
            PlacePiece(dragging);
          }
        }
        dragging := null;
      }
    }
  }
}
