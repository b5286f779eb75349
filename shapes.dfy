/** Piece shapes: 0/1 cell matrices, the seven-piece catalogue and the two
    rotation transforms the prototypes use. */
module Shapes {

  /** A shape matrix; `true` is a filled cell (the source's `1`). */
  type Shape = seq<seq<bool>>

  /** A non-empty rectangular matrix: the form every shape of the catalogue has
      and that both rotation transforms need (they read `shape[0].length`). */
  predicate IsMatrix(s: Shape) {
    |s| > 0 && |s[0]| > 0 && forall i :: 0 <= i < |s| ==> |s[i]| == |s[0]|
  }

  /** The shapes pieces carry: the catalogue's and their rotations. */
  type Matrix = s: Shape | IsMatrix(s) witness [[true]]

  /** `shape[0].length` */
  function Width(s: Shape): nat
    requires |s| > 0
  {
    |s[0]|
  }

  /** The catalogue in the order the source lists it: T, O, S, Z, L, J, I. */
  function Tetromino(k: nat): (s: Shape)
    requires k < 7
    ensures IsMatrix(s) && 1 <= |s| <= 2 && 2 <= Width(s) <= 4
  {
    match k
    case 0 => [[true, true, true], [false, true, false]]
    case 1 => [[true, true], [true, true]]
    case 2 => [[true, true, false], [false, true, true]]
    case 3 => [[false, true, true], [true, true, false]]
    case 4 => [[true, false, false], [true, true, true]]
    case 5 => [[false, false, true], [true, true, true]]
    case _ => [[true, true, true, true]]
  }

  /** `shape[0].map((_, index) => shape.map(row => row[index]))` */
  function Transpose(s: Shape): Shape
    requires IsMatrix(s)
  {
    seq(Width(s), c requires 0 <= c < Width(s) => seq(|s|, r requires 0 <= r < |s| => s[r][c]))
  }

  /** `Array.prototype.reverse` on the outer array. */
  function Reverse<T>(s: seq<T>): seq<T> {
    seq(|s|, i requires 0 <= i < |s| => s[|s| - 1 - i])
  }

  /** The rotation of sketch.js, Version_1_3 and Version_3_3 (transpose, then
      reverse the rows): a quarter turn counter-clockwise. An h-by-w matrix
      becomes a w-by-h matrix whose cell (i, j) is the old cell (j, w-1-i). */
  function RotateLeft(s: Shape): (r: Shape)
    requires IsMatrix(s)
    ensures IsMatrix(r) && |r| == Width(s) && Width(r) == |s|
    ensures forall i, j :: 0 <= i < |r| && 0 <= j < |s| ==> r[i][j] == s[j][Width(s) - 1 - i]
  {
    Reverse(Transpose(s))
  }

  /** The rotation of Version_2's `rotate`: row x of the result lists column x
      of the old matrix from the bottom row up, a quarter turn clockwise. */
  function RotateRight(s: Shape): Shape
    requires IsMatrix(s)
  {
    seq(Width(s), i requires 0 <= i < Width(s) => seq(|s|, j requires 0 <= j < |s| => s[|s| - 1 - j][i]))
  }

  /** Two matrices with the same rows and the same cells are equal. */
  lemma MatrixExt(a: Shape, b: Shape)
    requires |a| == |b|
    requires forall i :: 0 <= i < |a| ==> |a[i]| == |b[i]|
    requires forall i, j :: 0 <= i < |a| && 0 <= j < |a[i]| ==> a[i][j] == b[i][j]
    ensures a == b
  {
    forall i | 0 <= i < |a| ensures a[i] == b[i] {
      assert forall j :: 0 <= j < |a[i]| ==> a[i][j] == b[i][j];
    }
  }

  /** The clockwise turn yields a w-by-h matrix. */
  lemma RotateRightIsMatrix(s: Shape)
    requires IsMatrix(s)
    ensures IsMatrix(RotateRight(s)) && |RotateRight(s)| == Width(s) && Width(RotateRight(s)) == |s|
  {
  }

  /** Version_2's `rotateBack` undoes its `rotate`: turning clockwise and then
      counter-clockwise gives the original matrix back. */
  lemma {:induction false} RotateRightThenLeft(s: Shape)
    requires IsMatrix(s)
    ensures RotateLeft(RotateRight(s)) == s
  {
    var r := RotateRight(s);
    RotateRightIsMatrix(s);
    var l := RotateLeft(r);
    forall i, j | 0 <= i < |l| && 0 <= j < |l[i]| ensures l[i][j] == s[i][j] {
      assert l[i][j] == r[j][|s| - 1 - i];
    }
    MatrixExt(l, s);
  }

  /** The other way round: a counter-clockwise turn followed by a clockwise one
      gives the original matrix back. */
  lemma {:induction false} RotateLeftThenRight(s: Shape)
    requires IsMatrix(s)
    ensures RotateRight(RotateLeft(s)) == s
  {
    var l := RotateLeft(s);
    var r := RotateRight(l);
    RotateRightIsMatrix(l);
    forall i, j | 0 <= i < |r| && 0 <= j < |r[i]| ensures r[i][j] == s[i][j] {
      assert r[i][j] == l[|l| - 1 - j][i];
    }
    MatrixExt(r, s);
  }

  /** t is s turned by half a turn: cell (i, j) of t is cell (h-1-i, w-1-j) of s. */
  ghost predicate IsHalfTurn(t: Shape, s: Shape)
    requires IsMatrix(s)
  {
    |t| == |s| && (forall i :: 0 <= i < |t| ==> |t[i]| == Width(s)) &&
    forall i, j :: 0 <= i < |s| && 0 <= j < Width(s) ==> t[i][j] == s[|s| - 1 - i][Width(s) - 1 - j]
  }

  /** Two counter-clockwise turns give the half turn. */
  lemma RotateLeftTwice(s: Shape)
    requires IsMatrix(s)
    ensures IsMatrix(RotateLeft(RotateLeft(s))) && IsHalfTurn(RotateLeft(RotateLeft(s)), s)
  {
  }

  /** Two half turns cancel. */
  lemma HalfTurnTwice(u: Shape, t: Shape, s: Shape)
    requires IsMatrix(s) && IsMatrix(t)
    requires IsHalfTurn(t, s) && IsHalfTurn(u, t)
    ensures u == s
  {
    forall i, j | 0 <= i < |u| && 0 <= j < |u[i]| ensures u[i][j] == s[i][j] {
      assert u[i][j] == t[|t| - 1 - i][Width(t) - 1 - j];
    }
    MatrixExt(u, s);
  }

  /** Four unobstructed turns give back the original shape matrix. */
  lemma {:induction false} RotateLeftFourTimes(s: Shape)
    requires IsMatrix(s)
    ensures RotateLeft(RotateLeft(RotateLeft(RotateLeft(s)))) == s
  {
    var t := RotateLeft(RotateLeft(s));
    RotateLeftTwice(s);
    RotateLeftTwice(t);
    HalfTurnTwice(RotateLeft(RotateLeft(t)), t, s);
  }

  /** The filled cells of a shape, as (row, column) pairs. */
  function FilledCells(s: Shape): set<(int, int)> {
    set i, j | 0 <= i < |s| && 0 <= j < |s[i]| && s[i][j] :: (i, j)
  }

  /** Where cell p of a w-wide matrix lands after a counter-clockwise turn. */
  function TurnCell(w: int, p: (int, int)): (int, int) {
    (w - 1 - p.1, p.0)
  }

  /** TurnCell is injective, so it keeps the size of any set of cells. */
  lemma {:induction false} TurnCellKeepsSize(w: int, a: set<(int, int)>)
    ensures |set p | p in a :: TurnCell(w, p)| == |a|
  {
    if a != {} {
      var p :| p in a;
      var rest := a - {p};
      TurnCellKeepsSize(w, rest);
      var image := set q | q in a :: TurnCell(w, q);
      var imageRest := set q | q in rest :: TurnCell(w, q);
      assert image == imageRest + {TurnCell(w, p)};
      assert TurnCell(w, p) !in imageRest;
    }
  }

  /** A counter-clockwise turn permutes the filled cells: it neither adds nor
      removes any. */
  lemma {:induction false} RotateLeftKeepsCells(s: Shape)
    requires IsMatrix(s)
    ensures |FilledCells(RotateLeft(s))| == |FilledCells(s)|
  {
    var r := RotateLeft(s);
    var w := Width(s);
    var image := set p | p in FilledCells(s) :: TurnCell(w, p);
    forall q | q in FilledCells(r) ensures q in image {
      var i, j := q.0, q.1;
      assert r[i][j] == s[j][w - 1 - i];
      assert (j, w - 1 - i) in FilledCells(s);
      assert TurnCell(w, (j, w - 1 - i)) == q;
    }
    forall q | q in image ensures q in FilledCells(r) {
      var p :| p in FilledCells(s) && q == TurnCell(w, p);
      assert r[w - 1 - p.1][p.0] == s[p.0][p.1];
    }
    assert FilledCells(r) == image;
    TurnCellKeepsSize(w, FilledCells(s));
  }

  /** So does a clockwise turn. */
  lemma {:induction false} RotateRightKeepsCells(s: Shape)
    requires IsMatrix(s)
    ensures |FilledCells(RotateRight(s))| == |FilledCells(s)|
  {
    RotateRightIsMatrix(s);
    RotateLeftKeepsCells(RotateRight(s));
    RotateRightThenLeft(s);
  }

  /** Version_2's `rotate`, built with push loops as the source does:
      for each column x, the cells of that column from the bottom row up. */
  method TurnRight(s: Shape) returns (r: Shape)
    requires IsMatrix(s)
    ensures r == RotateRight(s)
  {
    r := [];
    var x := 0;
    while x < |s[0]|
      invariant 0 <= x <= Width(s)
      invariant r == RotateRight(s)[..x]
    {
      var row := [];
      var y := |s| - 1;
      while y >= 0
        invariant -1 <= y < |s|
        invariant |row| == |s| - 1 - y
        invariant forall k :: 0 <= k < |row| ==> row[k] == s[|s| - 1 - k][x]
      {
        row := row + [s[y][x]];
        y := y - 1;
      }
      assert row == RotateRight(s)[x];
      r := r + [row];
      x := x + 1;
    }
  }

  /** Version_2's `rotateBack`: for each column x from the right, the cells of
      that column from the top row down. It builds the counter-clockwise turn. */
  method TurnBack(s: Shape) returns (r: Shape)
    requires IsMatrix(s)
    ensures r == RotateLeft(s)
  {
    r := [];
    var x := |s[0]| - 1;
    while x >= 0
      invariant -1 <= x < Width(s)
      invariant r == RotateLeft(s)[..Width(s) - 1 - x]
    {
      var row := [];
      var y := 0;
      while y < |s|
        invariant 0 <= y <= |s|
        invariant |row| == y
        invariant forall k :: 0 <= k < y ==> row[k] == s[k][x]
      {
        row := row + [s[y][x]];
        y := y + 1;
      }
      ghost var l := RotateLeft(s);
      assert |l[Width(s) - 1 - x]| == |s|;
      assert forall k :: 0 <= k < |s| ==> l[Width(s) - 1 - x][k] == s[k][x];
      assert row == l[Width(s) - 1 - x];
      r := r + [row];
      x := x - 1;
    }
  }
}
