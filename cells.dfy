/** Board cells, the board grid, and writing a piece into it. */
module Cells {
  import opened Shapes

  /** What a board cell holds. The prototypes store raw JavaScript values:
      - Empty: the number 0;
      - Paint: a p5 colour object (opaque here: its three channels), never `=== 0` or `=== 1`;
      - Solid: the number 1 that Version_2 writes instead of a colour;
      - BeltBg: the number -1, Version_2's "belt background";
      - Undefined: JavaScript's `undefined`, what reading past the end of a row yields. */
  datatype Cell = Empty | Paint(red: int, green: int, blue: int) | Solid | BeltBg | Undefined

  /** The colour the catalogue gives piece k (T, O, S, Z, L, J, I). */
  function TetrominoColour(k: nat): (c: Cell)
    requires k < 7
    ensures c.Paint?
  {
    match k
    case 0 => Paint(255, 0, 0)
    case 1 => Paint(0, 255, 0)
    case 2 => Paint(0, 0, 255)
    case 3 => Paint(255, 165, 0)
    case 4 => Paint(0, 255, 255)
    case 5 => Paint(255, 255, 0)
    case _ => Paint(128, 0, 128)
  }

  /** `board[y][x]` is row y, column x. */
  type Board = seq<seq<Cell>>

  /** The board has `rows` rows of `width` cells each. */
  predicate IsBoard(b: Board, rows: nat, width: nat) {
    |b| == rows && forall y :: 0 <= y < |b| ==> |b[y]| == width
  }

  /** `Array(n).fill(0)` */
  function EmptyRow(n: nat): (r: seq<Cell>)
    ensures |r| == n && forall x :: 0 <= x < n ==> r[x] == Empty
  {
    seq(n, _ => Empty)
  }

  /** `initBoard`: `rows` rows of `width` zeros, filled cell by cell. */
  method InitBoard(rows: nat, width: nat) returns (b: Board)
    ensures IsBoard(b, rows, width)
    ensures forall y, x :: 0 <= y < rows && 0 <= x < width ==> b[y][x] == Empty
  {
    b := [];
    var y := 0;
    while y < rows
      invariant 0 <= y <= rows
      invariant IsBoard(b, y, width)
      invariant forall y', x :: 0 <= y' < y && 0 <= x < width ==> b[y'][x] == Empty
    {
      var row := [];
      var x := 0;
      while x < width
        invariant 0 <= x <= width
        invariant |row| == x && forall x' :: 0 <= x' < x ==> row[x'] == Empty
      {
        row := row + [Empty];
        x := x + 1;
      }
      b := b + [row];
      y := y + 1;
    }
  }

  /** Board cell (cx, cy) lies under a filled cell of shape s anchored at
      (px, py), the top-left corner of the shape's bounding box. */
  predicate Covers(s: Shape, px: int, py: int, cx: int, cy: int) {
    0 <= cy - py < |s| && 0 <= cx - px < |s[cy - py]| && s[cy - py][cx - px]
  }

  /** Every filled cell of s anchored at (px, py) is a cell of a rows-by-width board. */
  predicate InBounds(s: Shape, px: int, py: int, rows: nat, width: nat) {
    forall i, j :: 0 <= i < |s| && 0 <= j < |s[i]| && s[i][j] ==> 0 <= py + i < rows && 0 <= px + j < width
  }

  /** No filled cell of s anchored at row py lies above row 0. */
  predicate NoneAbove(s: Shape, py: int) {
    forall i, j :: 0 <= i < |s| && 0 <= j < |s[i]| && s[i][j] ==> 0 <= py + i
  }

  /** The board after writing v into every cell the piece covers. */
  function Stamped(b: Board, s: Shape, px: int, py: int, v: Cell): (r: Board)
    ensures |r| == |b| && forall y :: 0 <= y < |b| ==> |r[y]| == |b[y]|
    ensures forall y, x :: 0 <= y < |b| && 0 <= x < |b[y]| ==>
      r[y][x] == if Covers(s, px, py, x, y) then v else b[y][x]
  {
    seq(|b|, y requires 0 <= y < |b| =>
      seq(|b[y]|, x requires 0 <= x < |b[y]| => if Covers(s, px, py, x, y) then v else b[y][x]))
  }

  /** Covers, restricted to the shape cells a row-major scan has visited
      before reaching shape cell (i, j). */
  predicate CoversBefore(s: Shape, px: int, py: int, cx: int, cy: int, i: int, j: int) {
    Covers(s, px, py, cx, cy) && (cy - py < i || (cy - py == i && cx - px < j))
  }

  /** The write loop of `placePiece`: for every filled shape cell,
      `board[boardY][boardX] = v`. The callers have checked the placement, so
      every write lands on the board. */
  method Stamp(b: Board, rows: nat, width: nat, s: Shape, px: int, py: int, v: Cell) returns (r: Board)
    requires IsBoard(b, rows, width) && InBounds(s, px, py, rows, width)
    ensures IsBoard(r, rows, width)
    ensures r == Stamped(b, s, px, py, v)
  {
    r := b;
    var i := 0;
    while i < |s|
      invariant 0 <= i <= |s|
      invariant IsBoard(r, rows, width)
      invariant forall y, x :: 0 <= y < rows && 0 <= x < width ==>
        r[y][x] == if CoversBefore(s, px, py, x, y, i, 0) then v else b[y][x]
    {
      var j := 0;
      while j < |s[i]|
        invariant 0 <= j <= |s[i]|
        invariant IsBoard(r, rows, width)
        invariant forall y, x :: 0 <= y < rows && 0 <= x < width ==>
          r[y][x] == if CoversBefore(s, px, py, x, y, i, j) then v else b[y][x]
      {
        if s[i][j] {
          r := r[py + i := r[py + i][px + j := v]];
        }
        j := j + 1;
      }
      i := i + 1;
    }
    ghost var t := Stamped(b, s, px, py, v);
    forall y | 0 <= y < rows ensures r[y] == t[y] {
      assert forall x :: 0 <= x < width ==> r[y][x] == t[y][x];
    }
  }
}
