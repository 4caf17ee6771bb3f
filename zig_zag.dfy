/**
 * The zig-zag order of the 64 coefficients of an 8x8 block
 * (section A.3.6 and Figure A.6 of ITU-T T.81), as a function from the
 * scan position to the (row, column) cell, with its inverse.
 */
module ZigZag {

  /**
   * The number of cells on the anti-diagonals 0..d-1 of the upper-left triangle, the
   * triangular number d(d+1)/2, tabulated for the nine values a block needs.
   */
  function Tri(d: nat): nat
    requires d <= 8
  {
    if d == 0 then 0 else if d == 1 then 1 else if d == 2 then 3 else if d == 3 then 6
    else if d == 4 then 10 else if d == 5 then 15 else if d == 6 then 21 else if d == 7 then 28 else 36
  }

  lemma {:induction false} TriMonotone(a: nat, b: nat)
    requires a <= b <= 8
    ensures Tri(a) <= Tri(b)
    decreases b
  {
    if a < b {
      TriMonotone(a, b - 1);
    }
  }

  lemma TriStep(d: nat)
    requires d < 8
    ensures Tri(d + 1) == Tri(d) + d + 1
  {
  }

  /** The anti-diagonal on which position k of the upper-left triangle lies. */
  function Diagonal(k: int): (d: nat)
    requires 0 <= k < 36
    ensures d <= 7 && Tri(d) <= k < Tri(d + 1)
    ensures k < 28 ==> d <= 6
  {
    if k < 1 then 0 else if k < 3 then 1 else if k < 6 then 2 else if k < 10 then 3
    else if k < 15 then 4 else if k < 21 then 5 else if k < 28 then 6 else 7
  }

  lemma DiagonalUnique(k: int, d: nat)
    requires 0 <= k < 36 && d <= 7 && Tri(d) <= k < Tri(d + 1)
    ensures Diagonal(k) == d
  {
    var r := Diagonal(k);
    if r < d {
      TriMonotone(r + 1, d);
    } else if r > d {
      TriMonotone(d + 1, r);
    }
  }

  /** Cell i of anti-diagonal d (row + col == d): even diagonals run up, odd ones run down. */
  function LowerCell(d: int, i: int): (int, int) {
    if d % 2 == 0 then (d - i, i) else (i, d - i)
  }

  /**
   * Cell i of the diag-th diagonal of the lower-right triangle, counted from the main
   * anti-diagonal's neighbour (diag == 7, row + col == 8) down to the corner (diag == 1).
   */
  function UpperCell(diag: int, i: int): (int, int) {
    if diag % 2 == 0 then (8 - diag + i, 7 - i) else (7 - i, 8 - diag + i)
  }

  /** Positions 0..35 cover the anti-diagonals 0..7. */
  function LowerZZ(k: int): (cell: (int, int))
    requires 0 <= k < 36
    ensures 0 <= cell.0 && 0 <= cell.1 && cell.0 + cell.1 == Diagonal(k)
  {
    var d := Diagonal(k);
    LowerCell(d, k - Tri(d))
  }

  /**
   * The cell read at position k of the zig-zag scan. The scan is symmetric about the
   * centre: position 63 - k is the mirror image of position k.
   */
  function ZZ(k: int): (cell: (int, int))
    requires 0 <= k < 64
    ensures 0 <= cell.0 < 8 && 0 <= cell.1 < 8
    ensures k < 36 <==> cell.0 + cell.1 < 8
  {
    if k < 36 then LowerZZ(k)
    else
      var c := LowerZZ(63 - k);
      (7 - c.0, 7 - c.1)
  }

  function LowerIndex(row: int, col: int): (k: int)
    requires 0 <= row && 0 <= col && row + col < 8
    ensures 0 <= k < Tri(row + col + 1)
  {
    var d := row + col;
    Tri(d) + if d % 2 == 0 then col else row
  }

  /** The scan position of a cell: the entry of the cell in Figure A.6. */
  function ZZIndex(row: int, col: int): (k: int)
    requires 0 <= row < 8 && 0 <= col < 8
    ensures 0 <= k < 64
  {
    if row + col < 8 then
      TriMonotone(row + col + 1, 8);
      LowerIndex(row, col)
    else
      TriMonotone(15 - row - col, 7);
      63 - LowerIndex(7 - row, 7 - col)
  }

  lemma LowerCellAt(d: int, i: int)
    requires 0 <= i <= d < 8
    ensures Tri(d) + i < 36 && LowerZZ(Tri(d) + i) == LowerCell(d, i)
  {
    TriMonotone(d + 1, 8);
    DiagonalUnique(Tri(d) + i, d);
  }

  /** The walk over the upper-left triangle: cell i of anti-diagonal d is read at position Tri(d) + i. */
  lemma ZZLowerWalk(d: int, i: int)
    requires 0 <= i <= d < 8
    ensures Tri(d) + i < 36 && ZZ(Tri(d) + i) == LowerCell(d, i)
  {
    LowerCellAt(d, i);
  }

  /** The walk over the lower-right triangle: cell i of diagonal diag is read at position 64 - Tri(diag) + i. */
  lemma ZZUpperWalk(diag: int, i: int)
    requires 1 <= diag <= 7 && 0 <= i < diag
    ensures 36 <= 64 - Tri(diag) + i < 64 && ZZ(64 - Tri(diag) + i) == UpperCell(diag, i)
  {
    UpperPosition(diag, i);
    var k := 64 - Tri(diag) + i;
    assert ZZ(k) == (7 - LowerZZ(63 - k).0, 7 - LowerZZ(63 - k).1);
    LowerCellAt(diag - 1, diag - 1 - i);
    UpperMirrorsLower(diag, i);
  }

  lemma UpperPosition(diag: int, i: int)
    requires 1 <= diag <= 7 && 0 <= i < diag
    ensures 36 <= 64 - Tri(diag) + i < 64
    ensures 63 - (64 - Tri(diag) + i) == Tri(diag - 1) + (diag - 1 - i)
  {
    TriMonotone(diag, 7);
  }

  /** The lower-right triangle is the lower-left one turned half a turn about the centre. */
  lemma UpperMirrorsLower(diag: int, i: int)
    requires 1 <= diag <= 7 && 0 <= i < diag
    ensures UpperCell(diag, i)
         == (7 - LowerCell(diag - 1, diag - 1 - i).0, 7 - LowerCell(diag - 1, diag - 1 - i).1)
  {
  }

  /** One step along anti-diagonal d of the upper-left triangle: down-left on odd ones, up-right on even ones. */
  lemma LowerMove(d: int, i: int, row: int, col: int, down: bool)
    requires (row, col) == LowerCell(d, i) && down == (d % 2 == 1)
    ensures LowerCell(d, i + 1) == if down then (row + 1, col - 1) else (row - 1, col + 1)
  {
  }

  /**
   * From the end of anti-diagonal d to the start of d + 1: one row down after an odd one,
   * one column right after an even one; the direction flips and Tri(d + 1) positions are done.
   */
  lemma LowerTurn(d: int, row: int, col: int, down: bool)
    requires 0 <= d < 8 && (row, col) == LowerCell(d, d) && down == (d % 2 == 1)
    ensures LowerCell(d + 1, 0) == if down then (row + 1, col) else (row, col + 1)
    ensures !down == ((d + 1) % 2 == 1)
    ensures Tri(d + 1) == Tri(d) + d + 1
  {
    TriStep(d);
  }

  /** One step along a diagonal of the lower-right triangle: down-left on even ones, up-right on odd ones. */
  lemma UpperMove(diag: int, i: int, row: int, col: int, down: bool)
    requires (row, col) == UpperCell(diag, i) && down == (diag % 2 == 0)
    ensures UpperCell(diag, i + 1) == if down then (row + 1, col - 1) else (row - 1, col + 1)
  {
  }

  /**
   * From the end of diagonal diag to the start of diag - 1: an odd diagonal ends on the
   * last column and the walk goes one row down; an even one ends on the last row and
   * the walk goes one column right. The direction flips.
   */
  lemma UpperTurn(diag: int, row: int, col: int, down: bool)
    requires 1 <= diag <= 7 && (row, col) == UpperCell(diag, diag - 1) && down == (diag % 2 == 0)
    ensures !down ==> col == 7 && UpperCell(diag - 1, 0) == (row + 1, 7)
    ensures down ==> row == 7 && 0 < col < 7 && UpperCell(diag - 1, 0) == (7, col + 1)
    ensures !down == ((diag - 1) % 2 == 0)
    ensures Tri(diag) == Tri(diag - 1) + diag
  {
    TriStep(diag - 1);
  }

  /** ZZIndex undoes ZZ. */
  lemma ZZIndexOfZZ(k: int)
    requires 0 <= k < 64
    ensures ZZIndex(ZZ(k).0, ZZ(k).1) == k
  {
    if k < 36 {
      TriMonotone(Diagonal(k) + 1, 8);
    } else {
      TriMonotone(Diagonal(63 - k) + 1, 7);
    }
  }

  /** ZZ undoes ZZIndex: every cell of the grid is read by the scan. */
  lemma ZZOfZZIndex(row: int, col: int)
    requires 0 <= row < 8 && 0 <= col < 8
    ensures ZZ(ZZIndex(row, col)) == (row, col)
  {
    if row + col < 8 {
      ZZOfLowerIndex(row, col);
    } else {
      ZZOfLowerIndex(7 - row, 7 - col);
      var k := LowerIndex(7 - row, 7 - col);
      assert ZZIndex(row, col) == 63 - k;
      assert ZZ(63 - k) == (7 - LowerZZ(k).0, 7 - LowerZZ(k).1);
    }
  }

  /** In the upper-left triangle the scan position of a cell is read back at that cell. */
  lemma ZZOfLowerIndex(row: int, col: int)
    requires 0 <= row && 0 <= col && row + col < 8
    ensures LowerIndex(row, col) < 36 && LowerZZ(LowerIndex(row, col)) == (row, col)
    ensures LowerIndex(row, col) < 28 <==> row + col < 7
  {
    var d := row + col;
    var i := if d % 2 == 0 then col else row;
    LowerCellAt(d, i);
    assert LowerIndex(row, col) == Tri(d) + i;
    assert LowerCell(d, i) == (row, col);
    if d < 7 {
      TriMonotone(d + 1, 7);
    }
  }

  /** No cell is read twice. */
  lemma ZZInjective(a: int, b: int)
    requires 0 <= a < 64 && 0 <= b < 64
    ensures ZZ(a) == ZZ(b) <==> a == b
  {
    ZZIndexOfZZ(a);
    ZZIndexOfZZ(b);
  }

  /** The scan visits exactly the 64 cells of the grid: its image is the whole grid. */
  lemma ZZPermutation()
    ensures (set k | 0 <= k < 64 :: ZZ(k)) == (set r, c | 0 <= r < 8 && 0 <= c < 8 :: (r, c))
  {
    var image := set k | 0 <= k < 64 :: ZZ(k);
    var grid := set r, c | 0 <= r < 8 && 0 <= c < 8 :: (r, c);
    forall cell | cell in grid
      ensures cell in image
    {
      ZZOfZZIndex(cell.0, cell.1);
      assert ZZ(ZZIndex(cell.0, cell.1)) == cell;
    }
  }

  /** The first cells and the last cell of the scan (Figure A.6). */
  lemma ZZOrder()
    ensures ZZ(0) == (0, 0) && ZZ(1) == (0, 1) && ZZ(2) == (1, 0)
    ensures ZZ(3) == (2, 0) && ZZ(4) == (1, 1) && ZZ(5) == (0, 2)
    ensures ZZ(6) == (0, 3) && ZZ(35) == (7, 0) && ZZ(36) == (7, 1)
    ensures ZZ(62) == (7, 6) && ZZ(63) == (7, 7)
  {
    ZZLowerWalk(0, 0);
    ZZLowerWalk(1, 0);
    ZZLowerWalk(1, 1);
    ZZLowerWalk(2, 0);
    ZZLowerWalk(2, 1);
    ZZLowerWalk(2, 2);
    ZZLowerWalk(3, 0);
    ZZLowerWalk(7, 7);
    ZZUpperWalk(7, 0);
    ZZUpperWalk(2, 1);
    ZZUpperWalk(1, 0);
  }
}
