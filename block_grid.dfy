/**
 * Where the blocks of a plane sit in a block list. A plane of width W is cut into
 * W/8 blocks per block row, stored row by row, so block (line, column) has index
 * line * (W/8) + column.
 */
module BlockGrid {

  /** The list index of the block in block row line and block column column, wd blocks per row. */
  function BlockIndex(wd: int, line: int, column: int): int {
    line * wd + column
  }

  /** The indices of the blocks of block row line are the wd indices from line * wd on. */
  lemma BlockIndexRow(wd: int, line: int, column: int)
    requires 0 <= line && 0 <= column < wd
    ensures line * wd <= BlockIndex(wd, line, column) < (line + 1) * wd
  {
  }

  /** One past the last block of block row line is the first index of the next row. */
  lemma RowEnd(wd: int, line: int)
    ensures BlockIndex(wd, line, wd) == BlockIndex(wd, line + 1, 0) == (line + 1) * wd
  {
  }

  /** Every block of an hd x wd grid has an index in 0 .. hd*wd - 1. */
  lemma BlockIndexBounds(hd: int, wd: int, line: int, column: int)
    requires 0 <= line < hd && 0 <= column < wd
    ensures 0 <= BlockIndex(wd, line, column) < hd * wd
  {
    BlockIndexRow(wd, line, column);
    MulMonotone(line + 1, hd, wd);
  }

  lemma MulMonotone(a: int, b: int, c: int)
    requires a <= b && 0 <= c
    ensures a * c <= b * c
  {
    assert b * c - a * c == (b - a) * c;
  }

  /** The index gives back the block row and block column: line = k / wd and column = k % wd. */
  lemma BlockIndexInverse(wd: int, line: int, column: int)
    requires 0 <= line && 0 <= column < wd
    ensures BlockIndex(wd, line, column) / wd == line
    ensures BlockIndex(wd, line, column) % wd == column
  {
    var k := BlockIndex(wd, line, column);
    var q, r := k / wd, k % wd;
    assert k == q * wd + r;
    assert (q - line) * wd == column - r;
    if q > line {
      MulMonotone(1, q - line, wd);
    } else if q < line {
      MulMonotone(1, line - q, wd);
    }
  }

  /** Two blocks of the grid have the same index only if they are the same block. */
  lemma BlockIndexInjective(wd: int, line: int, column: int, line': int, column': int)
    requires 0 <= line && 0 <= column < wd && 0 <= line' && 0 <= column' < wd
    requires BlockIndex(wd, line, column) == BlockIndex(wd, line', column')
    ensures line == line' && column == column'
  {
    BlockIndexInverse(wd, line, column);
    BlockIndexInverse(wd, line', column');
  }

  /** Every index 0 .. hd*wd - 1 is the index of the block (k / wd, k % wd) of the grid. */
  lemma BlockIndexOnto(hd: int, wd: int, k: int)
    requires 0 < wd && 0 <= k < hd * wd
    ensures 0 <= k / wd < hd && 0 <= k % wd < wd
    ensures BlockIndex(wd, k / wd, k % wd) == k
  {
    if k / wd >= hd {
      MulMonotone(hd, k / wd, wd);
    }
  }

  /** Java's int division, which truncates toward zero. */
  function JavaDiv(a: int, b: int): (q: int)
    requires b > 0
    ensures a >= 0 ==> q == a / b
  {
    if a >= 0 then a / b else -((-a) / b)
  }

  /** The slot the forward transform stores the block tagged (line, column) in: line * width / 8 + column. */
  function SlotIndex(width: int, line: int, column: int): int {
    JavaDiv(line * width, 8) + column
  }

  /** When the width is a multiple of 8 the slot is the block's own index. */
  lemma SlotIndexWhenAligned(width: int, line: int, column: int)
    requires 0 <= width && width % 8 == 0 && 0 <= line
    ensures SlotIndex(width, line, column) == BlockIndex(width / 8, line, column)
  {
    var wd := width / 8;
    assert width == 8 * wd;
    assert line * width == 8 * (line * wd);
  }

  /**
   * Otherwise the slot drifts. At block row 8, where the drift always shows, the row starts
   * at slot width, past its index 8 * (width / 8); for some widths it starts earlier (block
   * row 2 for width 12). The slot is then taken by another block or lies past the end of the list.
   */
  lemma SlotIndexDrifts(width: int, column: int)
    requires 0 <= width && width % 8 != 0
    ensures SlotIndex(width, 8, column) == width + column
    ensures SlotIndex(width, 8, column) > BlockIndex(width / 8, 8, column)
  {
  }

  /** The slot agrees with the block index on every block row exactly when the width is a multiple of 8. */
  lemma SlotIndexCorrectIff(width: int)
    requires 0 <= width
    ensures (forall line, column :: 0 <= line ==> SlotIndex(width, line, column) == BlockIndex(width / 8, line, column))
      <==> width % 8 == 0
  {
    if width % 8 == 0 {
      forall line, column | 0 <= line
        ensures SlotIndex(width, line, column) == BlockIndex(width / 8, line, column)
      {
        SlotIndexWhenAligned(width, line, column);
      }
    } else {
      SlotIndexDrifts(width, 0);
    }
  }

  /** A 12-sample-wide plane, 24 rows high: three blocks, and block (2, 0) goes to slot 3, past the end. */
  lemma SlotIndexPastEnd(width: int, height: int)
    requires width == 12 && height == 24
    ensures (height / 8) * (width / 8) == 3
    ensures BlockIndex(width / 8, 2, 0) == 2 && SlotIndex(width, 2, 0) == 3
  {
  }
}
