/** An image block: a square grid of coefficients tagged with its block row and block column. */
module Blocks {

  /** The side of the blocks the codec cuts a plane into. */
  const BlockSize := 8

  class Block {
    /** The tags and the grid are set once; only the grid's cells change. */
    const size: int
    const line: int
    const column: int
    const values: array2<real>

    predicate Valid() {
      values.Length0 == size && values.Length1 == size
    }

    /** A size x size grid of zeros tagged (line, column). */
    constructor (size: nat, line: int, column: int)
      ensures Valid() && this.size == size && this.line == line && this.column == column
      ensures fresh(values)
      ensures forall l, c :: 0 <= l < size && 0 <= c < size ==> values[l, c] == 0.0
    {
      this.size := size;
      this.line := line;
      this.column := column;
      values := new real[size, size]((_, _) => 0.0);
    }

    /** Stores value at cell (line, column) and changes no other cell. */
    method ModifyValue(value: real, line: int, column: int)
      requires 0 <= line < values.Length0 && 0 <= column < values.Length1
      modifies values
      ensures GetValue(line, column) == value
      ensures forall l, c :: 0 <= l < values.Length0 && 0 <= c < values.Length1 && (l != line || c != column) ==>
        values[l, c] == old(values[l, c])
    {
      values[line, column] := value;
    }

    /** Copies the first size x size cells of an integer grid into the block. */
    method ModifyValues(grid: array2<int>)
      requires Valid() && size <= grid.Length0 && size <= grid.Length1
      modifies values
      ensures forall l, c :: 0 <= l < size && 0 <= c < size ==> values[l, c] == grid[l, c] as real
    {
      var line := 0;
      while line < size
        invariant 0 <= line <= size
        invariant forall l, c :: 0 <= l < line && 0 <= c < size ==> values[l, c] == grid[l, c] as real
      {
        var column := 0;
        while column < size
          invariant 0 <= column <= size
          invariant forall l, c :: 0 <= l < line && 0 <= c < size ==> values[l, c] == grid[l, c] as real
          invariant forall c :: 0 <= c < column ==> values[line, c] == grid[line, c] as real
        {
          ModifyValue(grid[line, column] as real, line, column);
          column := column + 1;
        }
        line := line + 1;
      }
    }

    /** The value last stored at cell (line, column). */
    function GetValue(line: int, column: int): real
      requires 0 <= line < values.Length0 && 0 <= column < values.Length1
      reads values
    {
      values[line, column]
    }

    function GetLine(): int {
      line
    }

    function GetColumn(): int {
      column
    }

    /** The block's own grid, not a copy: writes to it are writes to the block. */
    function GetValues(): (grid: array2<real>)
      ensures grid == values
    {
      values
    }
  }
}
