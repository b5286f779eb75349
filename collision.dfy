/** The collision scans: `checkCollision` (all prototypes) and Version_2's
    `checkBottomCollision`. Both walk the filled shape cells in row-major order
    and stop at the first cell that decides the answer. */
module Collision {
  import opened Shapes
  import opened Cells

  /** What a scan ends with. `Fault` is the TypeError the source throws when it
      reads `board[r][c]` for a row r < 0 (`board[r]` is `undefined` there). */
  datatype Verdict = Free | Blocked | Fault

  /** `checkCollision`, resumed at shape cell (i, j). A filled cell whose board
      column is outside [0, width) or whose board row is at or past `rows` is a
      collision; otherwise a negative row throws; otherwise a non-zero board
      cell is a collision. */
  function ScanFrom(b: Board, rows: nat, width: nat, s: Shape, px: int, py: int, i: nat, j: nat): Verdict
    requires IsBoard(b, rows, width) && IsMatrix(s) && i <= |s| && j <= Width(s)
    decreases |s| - i, Width(s) - j
  {
    if i == |s| then Free
    else if j == Width(s) then ScanFrom(b, rows, width, s, px, py, i + 1, 0)
    else if !s[i][j] then ScanFrom(b, rows, width, s, px, py, i, j + 1)
    else if px + j < 0 || px + j >= width || py + i >= rows then Blocked
    else if py + i < 0 then Fault
    else if b[py + i][px + j] != Empty then Blocked
    else ScanFrom(b, rows, width, s, px, py, i, j + 1)
  }

  /** `checkCollision(piece)` for a piece with shape s at anchor (px, py). */
  function Scan(b: Board, rows: nat, width: nat, s: Shape, px: int, py: int): Verdict
    requires IsBoard(b, rows, width) && IsMatrix(s)
  {
    ScanFrom(b, rows, width, s, px, py, 0, 0)
  }

  /** The placement is legal: every filled cell is on the board and on an empty cell. */
  predicate Fits(b: Board, rows: nat, width: nat, s: Shape, px: int, py: int)
    requires IsBoard(b, rows, width)
  {
    forall i, j :: 0 <= i < |s| && 0 <= j < |s[i]| && s[i][j] ==>
      0 <= px + j < width && 0 <= py + i < rows && b[py + i][px + j] == Empty
  }

  /** Fits, for the shape cells at or after (i, j) in row-major order. */
  predicate FitsFrom(b: Board, rows: nat, width: nat, s: Shape, px: int, py: int, i: int, j: int)
    requires IsBoard(b, rows, width)
  {
    forall i', j' :: 0 <= i' < |s| && 0 <= j' < |s[i']| && (i' > i || (i' == i && j' >= j)) && s[i'][j'] ==>
      0 <= px + j' < width && 0 <= py + i' < rows && b[py + i'][px + j'] == Empty
  }

  lemma {:induction false} ScanFromMeaning(b: Board, rows: nat, width: nat, s: Shape, px: int, py: int, i: nat, j: nat)
    requires IsBoard(b, rows, width) && IsMatrix(s) && i <= |s| && j <= Width(s)
    ensures ScanFrom(b, rows, width, s, px, py, i, j) == Free <==> FitsFrom(b, rows, width, s, px, py, i, j)
    ensures NoneAbove(s, py) ==> ScanFrom(b, rows, width, s, px, py, i, j) != Fault
    decreases |s| - i, Width(s) - j
  {
    if i == |s| {
    } else if j == Width(s) {
      ScanFromMeaning(b, rows, width, s, px, py, i + 1, 0);
      assert FitsFrom(b, rows, width, s, px, py, i, j) <==> FitsFrom(b, rows, width, s, px, py, i + 1, 0);
    } else if !s[i][j] {
      ScanFromMeaning(b, rows, width, s, px, py, i, j + 1);
      assert FitsFrom(b, rows, width, s, px, py, i, j) <==> FitsFrom(b, rows, width, s, px, py, i, j + 1);
    } else if px + j < 0 || px + j >= width || py + i >= rows || py + i < 0 || b[py + i][px + j] != Empty {
    } else {
      ScanFromMeaning(b, rows, width, s, px, py, i, j + 1);
      assert FitsFrom(b, rows, width, s, px, py, i, j) <==> FitsFrom(b, rows, width, s, px, py, i, j + 1);
    }
  }

  /** `checkCollision` answers "no collision" exactly when the placement is
      legal, and it never throws when no filled cell is above row 0 (in
      particular for an anchor row >= 0). */
  lemma ScanMeaning(b: Board, rows: nat, width: nat, s: Shape, px: int, py: int)
    requires IsBoard(b, rows, width) && IsMatrix(s)
    ensures Scan(b, rows, width, s, px, py) == Free <==> Fits(b, rows, width, s, px, py)
    ensures NoneAbove(s, py) ==> Scan(b, rows, width, s, px, py) != Fault
    ensures py >= 0 ==> Scan(b, rows, width, s, px, py) != Fault
  {
    ScanFromMeaning(b, rows, width, s, px, py, 0, 0);
    assert FitsFrom(b, rows, width, s, px, py, 0, 0) <==> Fits(b, rows, width, s, px, py);
  }

  /** For an anchor row >= 0, `checkCollision` returns true iff some filled
      shape cell maps to a column < 0, a column >= width, a row >= rows, or a
      non-zero board cell. */
  lemma CollidesIff(b: Board, rows: nat, width: nat, s: Shape, px: int, py: int)
    requires IsBoard(b, rows, width) && IsMatrix(s) && py >= 0
    ensures Scan(b, rows, width, s, px, py) == Blocked <==>
      exists i, j :: 0 <= i < |s| && 0 <= j < |s[i]| && s[i][j] &&
        (px + j < 0 || px + j >= width || py + i >= rows || b[py + i][px + j] != Empty)
  {
    ScanMeaning(b, rows, width, s, px, py);
  }

  /** A legal placement lies on the board. */
  lemma FitsInBounds(b: Board, rows: nat, width: nat, s: Shape, px: int, py: int)
    requires IsBoard(b, rows, width) && Fits(b, rows, width, s, px, py)
    ensures InBounds(s, px, py, rows, width)
  {
  }

  /** Once a legal placement is written with a non-zero value, the same
      placement collides: a committed piece occupies its cells. */
  lemma StampedOccupies(b: Board, rows: nat, width: nat, s: Shape, px: int, py: int, v: Cell, i: nat, j: nat)
    requires IsBoard(b, rows, width) && Fits(b, rows, width, s, px, py) && v != Empty
    requires i < |s| && j < |s[i]| && s[i][j]
    ensures !Fits(Stamped(b, s, px, py, v), rows, width, s, px, py)
  {
    assert Covers(s, px, py, px + j, py + i);
  }

  /** The loops of `checkCollision`, returning at the first deciding cell. */
  method CheckCollision(b: Board, rows: nat, width: nat, s: Shape, px: int, py: int) returns (v: Verdict)
    requires IsBoard(b, rows, width) && IsMatrix(s)
    ensures v == Scan(b, rows, width, s, px, py)
  {
    var y := 0;
    while y < |s|
      invariant 0 <= y <= |s|
      invariant Scan(b, rows, width, s, px, py) == ScanFrom(b, rows, width, s, px, py, y, 0)
    {
      var x := 0;
      while x < |s[y]|
        invariant 0 <= x <= |s[y]|
        invariant Scan(b, rows, width, s, px, py) == ScanFrom(b, rows, width, s, px, py, y, x)
      {
        if s[y][x] {
          var boardX, boardY := px + x, py + y;
          if boardX < 0 || boardX >= width || boardY >= rows {
            return Blocked;
          }
          if boardY < 0 {
            return Fault;
          }
          if b[boardY][boardX] != Empty {
            return Blocked;
          }
        }
        x := x + 1;
      }
      y := y + 1;
    }
    return Free;
  }

  /** Version_2's `checkBottomCollision`, resumed at shape cell (i, j): it
      looks one row below each filled cell. A row at or past `rows` is a
      collision; a negative row throws; a column off the row reads `undefined`,
      which is `!== 0`, so it is a collision too, as is a non-zero cell. */
  function BottomScanFrom(b: Board, rows: nat, width: nat, s: Shape, px: int, py: int, i: nat, j: nat): Verdict
    requires IsBoard(b, rows, width) && IsMatrix(s) && i <= |s| && j <= Width(s)
    decreases |s| - i, Width(s) - j
  {
    if i == |s| then Free
    else if j == Width(s) then BottomScanFrom(b, rows, width, s, px, py, i + 1, 0)
    else if !s[i][j] then BottomScanFrom(b, rows, width, s, px, py, i, j + 1)
    else if py + i + 1 >= rows then Blocked
    else if py + i + 1 < 0 then Fault
    else if px + j < 0 || px + j >= width || b[py + i + 1][px + j] != Empty then Blocked
    else BottomScanFrom(b, rows, width, s, px, py, i, j + 1)
  }

  /** `piece.checkBottomCollision()` for shape s at anchor (px, py). */
  function BottomScan(b: Board, rows: nat, width: nat, s: Shape, px: int, py: int): Verdict
    requires IsBoard(b, rows, width) && IsMatrix(s)
  {
    BottomScanFrom(b, rows, width, s, px, py, 0, 0)
  }

  lemma {:induction false} BottomScanFromMeaning(b: Board, rows: nat, width: nat, s: Shape, px: int, py: int, i: nat, j: nat)
    requires IsBoard(b, rows, width) && IsMatrix(s) && i <= |s| && j <= Width(s)
    ensures BottomScanFrom(b, rows, width, s, px, py, i, j) == Free <==> FitsFrom(b, rows, width, s, px, py + 1, i, j)
    ensures NoneAbove(s, py + 1) ==> BottomScanFrom(b, rows, width, s, px, py, i, j) != Fault
    decreases |s| - i, Width(s) - j
  {
    if i == |s| {
    } else if j == Width(s) {
      BottomScanFromMeaning(b, rows, width, s, px, py, i + 1, 0);
      assert FitsFrom(b, rows, width, s, px, py + 1, i, j) <==> FitsFrom(b, rows, width, s, px, py + 1, i + 1, 0);
    } else if !s[i][j] {
      BottomScanFromMeaning(b, rows, width, s, px, py, i, j + 1);
      assert FitsFrom(b, rows, width, s, px, py + 1, i, j) <==> FitsFrom(b, rows, width, s, px, py + 1, i, j + 1);
    } else if py + i + 1 >= rows || py + i + 1 < 0 || px + j < 0 || px + j >= width || b[py + i + 1][px + j] != Empty {
    } else {
      BottomScanFromMeaning(b, rows, width, s, px, py, i, j + 1);
      assert FitsFrom(b, rows, width, s, px, py + 1, i, j) <==> FitsFrom(b, rows, width, s, px, py + 1, i, j + 1);
    }
  }

  /** `checkBottomCollision` at anchor (px, py) answers "no collision" exactly
      when the piece would fit one row lower, at (px, py + 1); it cannot throw
      when no cell one row below a filled cell is above row 0 (in particular
      for an anchor row >= -1). It looks at cells one row below the piece,
      not at the piece's own cells. */
  lemma BottomScanMeaning(b: Board, rows: nat, width: nat, s: Shape, px: int, py: int)
    requires IsBoard(b, rows, width) && IsMatrix(s)
    ensures BottomScan(b, rows, width, s, px, py) == Free <==> Fits(b, rows, width, s, px, py + 1)
    ensures NoneAbove(s, py + 1) ==> BottomScan(b, rows, width, s, px, py) != Fault
    ensures py >= -1 ==> BottomScan(b, rows, width, s, px, py) != Fault
  {
    BottomScanFromMeaning(b, rows, width, s, px, py, 0, 0);
    assert FitsFrom(b, rows, width, s, px, py + 1, 0, 0) <==> Fits(b, rows, width, s, px, py + 1);
  }

  /** The loops of `checkBottomCollision`. */
  method CheckBottomCollision(b: Board, rows: nat, width: nat, s: Shape, px: int, py: int) returns (v: Verdict)
    requires IsBoard(b, rows, width) && IsMatrix(s)
    ensures v == BottomScan(b, rows, width, s, px, py)
  {
    var y := 0;
    while y < |s|
      invariant 0 <= y <= |s|
      invariant BottomScan(b, rows, width, s, px, py) == BottomScanFrom(b, rows, width, s, px, py, y, 0)
    {
      var x := 0;
      while x < |s[y]|
        invariant 0 <= x <= |s[y]|
        invariant BottomScan(b, rows, width, s, px, py) == BottomScanFrom(b, rows, width, s, px, py, y, x)
      {
        if s[y][x] {
          var boardX, boardY := px + x, py + y;
          if boardY + 1 >= rows {
            return Blocked;
          }
          if boardY + 1 < 0 {
            return Fault;
          }
          if boardX < 0 || boardX >= width || b[boardY + 1][boardX] != Empty {
            return Blocked;
          }
        }
        x := x + 1;
      }
      y := y + 1;
    }
    return Free;
  }
}
