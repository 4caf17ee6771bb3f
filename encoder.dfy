/**
 * The integer back half of the encoder: cutting the planes into 8x8 blocks, 4:2:0
 * subsampling of the chroma blocks, the zig-zag scan of a block and its run-length
 * entropy coding.
 */
module Encoding {
  import opened ZigZag
  import opened Blocks
  import opened EntropyTerms
  import opened RunLength
  import opened AmplitudeMap
  import opened BlockGrid

  /** Java's (int) cast of a double: the integer part, rounding toward zero. */
  function TruncToInt(x: real): int {
    if x >= 0.0 then x.Floor else -((-x).Floor)
  }

  /** The cast keeps the sign and drops the fraction: |n| <= |x| < |n| + 1. */
  lemma TruncToIntBounds(x: real)
    ensures var n := TruncToInt(x);
      (0.0 <= x ==> 0 <= n && n as real <= x < n as real + 1.0) &&
      (x <= 0.0 ==> n <= 0 && -(n as real) <= -x < -(n as real) + 1.0)
  {
  }

  /** On a value that is already integral the cast changes nothing. */
  lemma TruncToIntOfInt(n: int)
    ensures TruncToInt(n as real) == n
  {
    if n < 0 {
      assert -(n as real) == (-n) as real;
    }
  }

  /** The 64 coefficients of an 8x8 grid in zig-zag order, each cast to int. */
  function Scan(a: array2<real>): (s: seq<int>)
    requires a.Length0 == BlockSize && a.Length1 == BlockSize
    reads a
    ensures |s| == 64
  {
    seq(64, k requires 0 <= k < 64 reads a => TruncToInt(a[ZZ(k).0, ZZ(k).1]))
  }

  /** Every cell of the grid appears in the scan, at its entry of Figure A.6. */
  lemma ScanCell(a: array2<real>, row: int, col: int)
    requires a.Length0 == BlockSize && a.Length1 == BlockSize
    requires 0 <= row < 8 && 0 <= col < 8
    ensures Scan(a)[ZZIndex(row, col)] == TruncToInt(a[row, col])
  {
    ZZOfZZIndex(row, col);
  }

  /** The walk over the upper-left triangle: cell i of anti-diagonal d is scan entry Tri(d) + i. */
  lemma ScanLower(a: array2<real>, d: int, i: int)
    requires a.Length0 == BlockSize && a.Length1 == BlockSize
    requires 0 <= i <= d < 8
    ensures Tri(d) + i < 36
    ensures 0 <= LowerCell(d, i).0 < 8 && 0 <= LowerCell(d, i).1 < 8
    ensures Scan(a)[Tri(d) + i] == TruncToInt(a[LowerCell(d, i).0, LowerCell(d, i).1])
  {
    ZZLowerWalk(d, i);
  }

  /** The walk over the lower-right triangle: cell i of diagonal diag is scan entry 64 - Tri(diag) + i. */
  lemma ScanUpper(a: array2<real>, diag: int, i: int)
    requires a.Length0 == BlockSize && a.Length1 == BlockSize
    requires 1 <= diag <= 7 && 0 <= i < diag
    ensures 36 <= 64 - Tri(diag) + i < 64
    ensures 0 <= UpperCell(diag, i).0 < 8 && 0 <= UpperCell(diag, i).1 < 8
    ensures Scan(a)[64 - Tri(diag) + i] == TruncToInt(a[UpperCell(diag, i).0, UpperCell(diag, i).1])
  {
    ZZUpperWalk(diag, i);
  }

  /** The DC term and the AC objects' terms are the run-length coding of the zig-zag sequence s. */
  predicate Codes(e: Entropy, s: seq<int>)
    requires |s| == 64
    reads e.acList
  {
    e.dc == EncodeDC(s) && Snapshot(e.acList) == EncodeAC(s)
  }

  /**
   * The record codes the block's scan. (Stated for every s equal to the scan, so that the
   * solver unfolds the coding only where a proof names Codes(e, s).)
   */
  predicate Encodes(e: Entropy, b: Block)
    requires b.Valid() && b.size == BlockSize
    reads e.acList, b.values
  {
    forall s :: s == Scan(b.values) ==> Codes(e, s)
  }

  /** The plane's sample that lands at cell (l, c) of block (bl, bc). */
  function Cell(plane: array2<int>, bl: int, bc: int, l: int, c: int): real
    requires 0 <= bl * BlockSize + l < plane.Length0 && 0 <= bc * BlockSize + c < plane.Length1
    reads plane
  {
    plane[bl * BlockSize + l, bc * BlockSize + c] as real
  }

  /** The mean of the four samples of the 2x2 cell of block (bl, bc) that holds cell (l, c). */
  function SampledCell(plane: array2<int>, bl: int, bc: int, l: int, c: int): real
    requires 0 <= l < BlockSize && 0 <= c < BlockSize
    requires 0 <= bl && (bl + 1) * BlockSize <= plane.Length0 && 0 <= bc && (bc + 1) * BlockSize <= plane.Length1
    reads plane
  {
    var i, j := 2 * (l / 2), 2 * (c / 2);
    (Cell(plane, bl, bc, i, j) + Cell(plane, bl, bc, i, j + 1) +
     Cell(plane, bl, bc, i + 1, j) + Cell(plane, bl, bc, i + 1, j + 1)) / 4.0
  }

  /** The 4 x 4 means of the 2x2 cells of an 8x8 grid. */
  function Means(a: array2<real>): (m: seq<seq<real>>)
    requires a.Length0 == BlockSize && a.Length1 == BlockSize
    reads a
    ensures |m| == 4 && forall i :: 0 <= i < 4 ==> |m[i]| == 4 && forall j :: 0 <= j < 4 ==> m[i][j] == CellMean(a, i, j)
  {
    seq(4, i reads a => seq(4, j reads a => if 0 <= i < 4 && 0 <= j < 4 then CellMean(a, i, j) else 0.0))
  }

  /** A grid whose every entry is the mean of its 2x2 cell: the four entries of a cell are equal and sum to 4 means. */
  lemma CellsTakeMeans(a: array2<real>, means: seq<seq<real>>)
    requires a.Length0 == BlockSize && a.Length1 == BlockSize
    requires |means| == 4 && forall i :: 0 <= i < 4 ==> |means[i]| == 4
    requires forall l, c :: 0 <= l < BlockSize && 0 <= c < BlockSize ==> a[l, c] == means[l / 2][c / 2]
    ensures forall i, j :: 0 <= i < 4 && 0 <= j < 4 ==>
      a[2 * i, 2 * j] == means[i][j] && a[2 * i, 2 * j + 1] == means[i][j] &&
      a[2 * i + 1, 2 * j] == means[i][j] && a[2 * i + 1, 2 * j + 1] == means[i][j]
    ensures forall i, j :: 0 <= i < 4 && 0 <= j < 4 ==> CellSum(a, i, j) == 4.0 * means[i][j]
  {
    forall i, j | 0 <= i < 4 && 0 <= j < 4
      ensures a[2 * i, 2 * j] == means[i][j] && a[2 * i, 2 * j + 1] == means[i][j]
      ensures a[2 * i + 1, 2 * j] == means[i][j] && a[2 * i + 1, 2 * j + 1] == means[i][j]
    {
      assert (2 * i) / 2 == i && (2 * j) / 2 == j;
      assert (2 * i + 1) / 2 == i && (2 * j + 1) / 2 == j;
    }
  }

  /** The sum of the 2x2 cell (i, j) of a grid: rows 2i and 2i+1, columns 2j and 2j+1. */
  function CellSum(a: array2<real>, i: int, j: int): real
    requires 0 <= i < 4 && 0 <= j < 4 && a.Length0 == BlockSize && a.Length1 == BlockSize
    reads a
  {
    a[2 * i, 2 * j] + a[2 * i, 2 * j + 1] + a[2 * i + 1, 2 * j] + a[2 * i + 1, 2 * j + 1]
  }

  /** The mean of the 2x2 cell (i, j). */
  function CellMean(a: array2<real>, i: int, j: int): real
    requires 0 <= i < 4 && 0 <= j < 4 && a.Length0 == BlockSize && a.Length1 == BlockSize
    reads a
  {
    CellSum(a, i, j) / 4.0
  }

  /**
   * The block tagged (bl, bc), holding the plane's samples bl*8 .. bl*8+7 by bc*8 .. bc*8+7,
   * each replaced by the mean of its 2x2 cell when the block is a subsampled chroma block.
   */
  predicate CutFrom(b: Block, plane: array2<int>, bl: int, bc: int, sampled: bool)
    reads b.values, plane
  {
    b.Valid() && b.size == BlockSize && b.line == bl && b.column == bc &&
    0 <= bl && (bl + 1) * BlockSize <= plane.Length0 && 0 <= bc && (bc + 1) * BlockSize <= plane.Length1 &&
    forall l, c :: 0 <= l < BlockSize && 0 <= c < BlockSize ==>
      b.values[l, c] == if sampled then SampledCell(plane, bl, bc, l, c) else Cell(plane, bl, bc, l, c)
  }

  /** The grids of a list of blocks. */
  function Arrays(blocks: seq<Block>): set<array2<real>> {
    set k | 0 <= k < |blocks| :: blocks[k].values
  }

  lemma ArraysSnoc(blocks: seq<Block>, b: Block)
    ensures Arrays(blocks + [b]) == Arrays(blocks) + {b.values}
  {
    var l := blocks + [b];
    assert forall k :: 0 <= k < |blocks| ==> l[k] == blocks[k];
    assert l[|blocks|] == b;
  }

  /**
   * A block list is the row-major partition of the plane into hd x wd blocks: the block
   * tagged (bl, bc) at index bl * wd + bc, each with its own array.
   */
  predicate Partition(blocks: seq<Block>, plane: array2<int>, hd: int, wd: int, sampled: bool)
    reads plane, Arrays(blocks)
  {
    |blocks| == hd * wd &&
    (forall bl, bc :: 0 <= bl < hd && 0 <= bc < wd ==>
      (BlockIndexBounds(hd, wd, bl, bc);
       CutFrom(blocks[BlockIndex(wd, bl, bc)], plane, bl, bc, sampled))) &&
    forall i, j :: 0 <= i < j < |blocks| ==> blocks[i].values != blocks[j].values
  }

  /** The blocks of block row line, columns 0 .. wd - 1 in order, each with its own array. */
  predicate CutsRow(row: seq<Block>, plane: array2<int>, line: int, wd: int, sampled: bool)
    reads plane, Arrays(row)
  {
    |row| == wd &&
    (forall bc :: 0 <= bc < wd ==> CutFrom(row[bc], plane, line, bc, sampled)) &&
    forall i, j :: 0 <= i < j < |row| ==> row[i].values != row[j].values
  }

  lemma ArraysAppend(blocks: seq<Block>, row: seq<Block>)
    ensures Arrays(blocks + row) == Arrays(blocks) + Arrays(row)
  {
    var l := blocks + row;
    assert forall k :: 0 <= k < |blocks| ==> l[k] == blocks[k];
    assert forall k :: 0 <= k < |row| ==> l[|blocks| + k] == row[k];
    forall a | a in Arrays(l)
      ensures a in Arrays(blocks) + Arrays(row)
    {
      var k :| 0 <= k < |l| && l[k].values == a;
      if k >= |blocks| {
        assert row[k - |blocks|].values == a;
      }
    }
  }

  /** A partition of the first line block rows followed by block row line is a partition of line + 1 rows. */
  lemma PartitionAppendRow(blocks: seq<Block>, row: seq<Block>, plane: array2<int>, line: int, wd: int, sampled: bool)
    requires 0 <= line && 0 <= wd
    requires Partition(blocks, plane, line, wd, sampled) && CutsRow(row, plane, line, wd, sampled)
    requires Arrays(blocks) !! Arrays(row)
    ensures Partition(blocks + row, plane, line + 1, wd, sampled)
  {
    var l := blocks + row;
    assert |l| == (line + 1) * wd;
    forall bl, bc | 0 <= bl < line + 1 && 0 <= bc < wd
      ensures BlockIndex(wd, bl, bc) < |l|
      ensures CutFrom(l[BlockIndex(wd, bl, bc)], plane, bl, bc, sampled)
    {
      BlockIndexBounds(line + 1, wd, bl, bc);
      if bl < line {
        BlockIndexBounds(line, wd, bl, bc);
      } else {
        assert l[BlockIndex(wd, bl, bc)] == row[bc];
      }
    }
    forall i, j | 0 <= i < j < |l|
      ensures l[i].values != l[j].values
    {
      if i < |blocks| && j >= |blocks| {
        assert l[i].values in Arrays(blocks);
        assert l[j] == row[j - |blocks|];
        assert l[j].values in Arrays(row);
      } else if i >= |blocks| {
        assert l[i] == row[i - |blocks|] && l[j] == row[j - |blocks|];
      }
    }
  }

  /** Every block is an 8x8 block. */
  predicate Sized(blocks: seq<Block>) {
    forall k :: 0 <= k < |blocks| ==> blocks[k].Valid() && blocks[k].size == BlockSize
  }

  /** The block record j of an interleaved list comes from: Y, U, V block j / 3 by j % 3. */
  function Source(j: int, yBlocks: seq<Block>, uBlocks: seq<Block>, vBlocks: seq<Block>): seq<Block>
    requires 0 <= j
  {
    if j % 3 == 0 then yBlocks else if j % 3 == 1 then uBlocks else vBlocks
  }

  /** Position 3 * index + kind holds block index of the kind-th list. */
  lemma SourceAt(j: int, index: int, kind: int, yBlocks: seq<Block>, uBlocks: seq<Block>, vBlocks: seq<Block>)
    requires 0 <= index && 0 <= kind < 3 && j == 3 * index + kind
    ensures j / 3 == index && Source(j, yBlocks, uBlocks, vBlocks) == Source(kind, yBlocks, uBlocks, vBlocks)
  {
    assert j % 3 == kind;
  }

  /**
   * The list is the interleaved coding of the blocks: each record, taken from the last one
   * back, codes the block its position names (InterleavedRecord states it for each record).
   */
  predicate Interleaved(list: seq<Entropy>, yBlocks: seq<Block>, uBlocks: seq<Block>, vBlocks: seq<Block>)
    requires Sized(yBlocks) && Sized(uBlocks) && Sized(vBlocks)
    reads Objects(list), Arrays(yBlocks), Arrays(uBlocks), Arrays(vBlocks)
    decreases |list|
  {
    list == [] ||
    var n := |list| - 1;
    ObjectsPrefix(list, n);
    ObjectsHas(list, n);
    Interleaved(list[..n], yBlocks, uBlocks, vBlocks) &&
    n / 3 < |Source(n, yBlocks, uBlocks, vBlocks)| && Encodes(list[n], Source(n, yBlocks, uBlocks, vBlocks)[n / 3])
  }

  /** Record j of an interleaved list codes block j / 3 of the Y, U or V list, chosen by j % 3. */
  lemma {:induction false} InterleavedRecord(list: seq<Entropy>, j: int, yBlocks: seq<Block>, uBlocks: seq<Block>, vBlocks: seq<Block>)
    requires Sized(yBlocks) && Sized(uBlocks) && Sized(vBlocks)
    requires Interleaved(list, yBlocks, uBlocks, vBlocks) && 0 <= j < |list|
    ensures j / 3 < |Source(j, yBlocks, uBlocks, vBlocks)|
    ensures Encodes(list[j], Source(j, yBlocks, uBlocks, vBlocks)[j / 3])
    decreases |list|
  {
    var n := |list| - 1;
    if j < n {
      InterleavedRecord(list[..n], j, yBlocks, uBlocks, vBlocks);
      assert list[..n][j] == list[j];
    }
  }

  lemma InterleavedSnoc(list: seq<Entropy>, e: Entropy, yBlocks: seq<Block>, uBlocks: seq<Block>, vBlocks: seq<Block>)
    requires Sized(yBlocks) && Sized(uBlocks) && Sized(vBlocks)
    requires Interleaved(list, yBlocks, uBlocks, vBlocks)
    requires |list| / 3 < |Source(|list|, yBlocks, uBlocks, vBlocks)|
    requires Encodes(e, Source(|list|, yBlocks, uBlocks, vBlocks)[|list| / 3])
    ensures Interleaved(list + [e], yBlocks, uBlocks, vBlocks)
  {
    assert (list + [e])[..|list|] == list;
  }

  /** Appending a record whose objects are all new keeps the list free of shared objects. */
  lemma SeparateSnoc(list: seq<Entropy>, e: Entropy)
    requires Separate(list) && Distinct(e.acList)
    requires forall a :: a in Objects(list) ==> a !in e.acList
    ensures Separate(list + [e])
  {
    var l := list + [e];
    assert forall j :: 0 <= j < |list| ==> l[j] == list[j];
    forall i, j, a | 0 <= i < j < |l| && a in l[i].acList
      ensures a !in l[j].acList
    {
      if j == |list| {
        assert a in Objects(list);
      }
    }
  }

  class Encoder {
    /** The image size and its Y, U and V planes, height rows of width samples each, fixed once the image is read. */
    const width: int
    const height: int
    const y: array2<int>
    const u: array2<int>
    const v: array2<int>
    var yBlocks: seq<Block>
    var uBlocks: seq<Block>
    var vBlocks: seq<Block>
    var entropyList: seq<Entropy>

    predicate Valid() {
      y.Length0 == height && y.Length1 == width &&
      u.Length0 == height && u.Length1 == width &&
      v.Length0 == height && v.Length1 == width
    }

    /** An encoder holding three planes of the given size, as the image reader leaves it. */
    constructor (width: nat, height: nat, y: array2<int>, u: array2<int>, v: array2<int>)
      requires y.Length0 == height && y.Length1 == width
      requires u.Length0 == height && u.Length1 == width
      requires v.Length0 == height && v.Length1 == width
      ensures Valid() && this.width == width && this.height == height
      ensures this.y == y && this.u == u && this.v == v
      ensures yBlocks == [] && uBlocks == [] && vBlocks == [] && entropyList == []
    {
      this.width := width;
      this.height := height;
      this.y := y;
      this.u := u;
      this.v := v;
      yBlocks, uBlocks, vBlocks := [], [], [];
      entropyList := [];
    }

    /** The plane a block type is cut from: 'U' and 'V' name the chroma planes, any other letter Y. */
    function Plane(kind: char): array2<int> {
      if kind == 'U' then u else if kind == 'V' then v else y
    }

    /** The sum of cells c0 .. column - 1 of row line, for a prefix of a 2-wide row. */
    ghost function RowPrefix(a: array2<real>, line: int, c0: int, column: int): real
      requires 0 <= line < a.Length0 && 0 <= c0 && c0 + 2 <= a.Length1 && c0 <= column <= c0 + 2
      reads a
    {
      if column == c0 then 0.0 else if column == c0 + 1 then a[line, c0] else a[line, c0] + a[line, c0 + 1]
    }

    /** The sum of the cells of rows r0 .. line - 1, columns c0 and c0 + 1, for a prefix of a 2x2 cell. */
    ghost function RowsPrefix(a: array2<real>, r0: int, line: int, c0: int): real
      requires 0 <= r0 && r0 + 2 <= a.Length0 && 0 <= c0 && c0 + 2 <= a.Length1 && r0 <= line <= r0 + 2
      reads a
    {
      if line == r0 then 0.0
      else if line == r0 + 1 then RowPrefix(a, r0, c0, c0 + 2)
      else RowPrefix(a, r0, c0, c0 + 2) + RowPrefix(a, r0 + 1, c0, c0 + 2)
    }

    /** The first two loops of one subsampling step: the mean of the 2x2 cell (blockLine, blockColumn). */
    method SampleMean(block: Block, blockLine: int, blockColumn: int) returns (average: real)
      requires block.Valid() && block.size == BlockSize && 0 <= blockLine < 4 && 0 <= blockColumn < 4
      ensures average == CellMean(block.values, blockLine, blockColumn)
    {
      var sampleSize := 2;
      var sum := 0.0;
      var sizeOfSample := 0;
      var line := blockLine * sampleSize;
      while line < (blockLine + 1) * sampleSize
        invariant blockLine * 2 <= line <= blockLine * 2 + 2
        invariant sum == RowsPrefix(block.values, blockLine * 2, line, blockColumn * 2)
        invariant sizeOfSample == (line - blockLine * 2) * 2
      {
        var column := blockColumn * sampleSize;
        while column < (blockColumn + 1) * sampleSize
          invariant blockColumn * 2 <= column <= blockColumn * 2 + 2
          invariant sum == RowsPrefix(block.values, blockLine * 2, line, blockColumn * 2) +
            RowPrefix(block.values, line, blockColumn * 2, column)
          invariant sizeOfSample == (line - blockLine * 2) * 2 + column - blockColumn * 2
        {
          sum := sum + block.GetValue(line, column);
          sizeOfSample := sizeOfSample + 1;
          column := column + 1;
        }
        line := line + 1;
      }
      average := sum / sizeOfSample as real;
    }

    /** The last two loops of one subsampling step: the 2x2 cell (blockLine, blockColumn) takes the value average. */
    method FillSample(block: Block, blockLine: int, blockColumn: int, average: real)
      requires block.Valid() && block.size == BlockSize && 0 <= blockLine < 4 && 0 <= blockColumn < 4
      modifies block.values
      ensures forall l, c :: 0 <= l < BlockSize && 0 <= c < BlockSize ==>
        block.values[l, c] == if l / 2 == blockLine && c / 2 == blockColumn then average else old(block.values[l, c])
    {
      var sampleSize := 2;
      var line := blockLine * sampleSize;
      while line < (blockLine + 1) * sampleSize
        invariant blockLine * 2 <= line <= blockLine * 2 + 2
        invariant forall l, c :: 0 <= l < BlockSize && 0 <= c < BlockSize ==>
          block.values[l, c] == if l / 2 == blockLine && l < line && c / 2 == blockColumn then average else old(block.values[l, c])
      {
        var column := blockColumn * sampleSize;
        while column < (blockColumn + 1) * sampleSize
          invariant blockColumn * 2 <= column <= blockColumn * 2 + 2
          invariant forall l, c :: 0 <= l < BlockSize && 0 <= c < BlockSize ==>
            block.values[l, c] ==
              if l / 2 == blockLine && (l < line || (l == line && c < column)) && c / 2 == blockColumn then average
              else old(block.values[l, c])
        {
          block.ModifyValue(average, line, column);
          column := column + 1;
        }
        line := line + 1;
      }
    }

    /**
     * 4:2:0 subsampling in place: each of the 16 disjoint 2x2 cells of the block takes the
     * mean of its four values, so the four become equal and the cell keeps its sum.
     */
    method Subsampling(block: Block)
      requires block.Valid() && block.size == BlockSize
      modifies block.values
      ensures forall l, c :: 0 <= l < BlockSize && 0 <= c < BlockSize ==>
        block.values[l, c] == old(CellMean(block.values, l / 2, c / 2))
      ensures forall i, j :: 0 <= i < 4 && 0 <= j < 4 ==>
        block.values[2 * i, 2 * j + 1] == block.values[2 * i, 2 * j] &&
        block.values[2 * i + 1, 2 * j] == block.values[2 * i, 2 * j] &&
        block.values[2 * i + 1, 2 * j + 1] == block.values[2 * i, 2 * j]
      ensures forall i, j :: 0 <= i < 4 && 0 <= j < 4 ==>
        CellSum(block.values, i, j) == old(CellSum(block.values, i, j))
    {
      ghost var means := Means(block.values);
      var sampleSize := 2;
      var sizeDivided := BlockSize / sampleSize;
      var blockLine := 0;
      while blockLine < sizeDivided
        invariant 0 <= blockLine <= sizeDivided
        invariant forall l, c :: 0 <= l < BlockSize && 0 <= c < BlockSize ==>
          block.values[l, c] == if l / 2 < blockLine then means[l / 2][c / 2] else old(block.values[l, c])
      {
        forall j | 0 <= j < 4
          ensures CellMean(block.values, blockLine, j) == means[blockLine][j]
        {
          var i, j2 := 2 * blockLine, 2 * j;
          assert i / 2 == blockLine && (i + 1) / 2 == blockLine;
          assert block.values[i, j2] == old(block.values[i, j2]);
          assert block.values[i, j2 + 1] == old(block.values[i, j2 + 1]);
          assert block.values[i + 1, j2] == old(block.values[i + 1, j2]);
          assert block.values[i + 1, j2 + 1] == old(block.values[i + 1, j2 + 1]);
        }
        SubsampleRow(block, blockLine, means[blockLine]);
        blockLine := blockLine + 1;
      }
      CellsTakeMeans(block.values, means);
    }

    /**
     * The blockColumn loop of Subsampling: the four 2x2 cells of cell row blockLine, whose
     * means are rowMeans, each take their mean.
     */
    method SubsampleRow(block: Block, blockLine: int, ghost rowMeans: seq<real>)
      requires block.Valid() && block.size == BlockSize && 0 <= blockLine < 4
      requires |rowMeans| == 4 && forall j :: 0 <= j < 4 ==> CellMean(block.values, blockLine, j) == rowMeans[j]
      modifies block.values
      ensures forall l, c :: 0 <= l < BlockSize && 0 <= c < BlockSize ==>
        block.values[l, c] == if l / 2 == blockLine then rowMeans[c / 2] else old(block.values[l, c])
    {
      var sampleSize := 2;
      var sizeDivided := BlockSize / sampleSize;
      var blockColumn := 0;
      while blockColumn < sizeDivided
        invariant 0 <= blockColumn <= sizeDivided
        invariant forall l, c :: 0 <= l < BlockSize && 0 <= c < BlockSize ==>
          block.values[l, c] == if l / 2 == blockLine && c / 2 < blockColumn then rowMeans[c / 2] else old(block.values[l, c])
      {
        var average := SampleMean(block, blockLine, blockColumn);
        assert average == rowMeans[blockColumn] by {
          var i, j := 2 * blockLine, 2 * blockColumn;
          assert i / 2 == blockLine && (i + 1) / 2 == blockLine && j / 2 == blockColumn && (j + 1) / 2 == blockColumn;
          assert block.values[i, j] == old(block.values[i, j]);
          assert block.values[i, j + 1] == old(block.values[i, j + 1]);
          assert block.values[i + 1, j] == old(block.values[i + 1, j]);
          assert block.values[i + 1, j + 1] == old(block.values[i + 1, j + 1]);
        }
        FillSample(block, blockLine, blockColumn, average);
        blockColumn := blockColumn + 1;
      }
    }

    /** The copy loops of the block cut: cell (l, c) of the block takes sample (bl*8 + l, bc*8 + c). */
    method CopyCut(block: Block, plane: array2<int>, blockLine: int, blockColumn: int)
      requires block.Valid() && block.size == BlockSize
      requires 0 <= blockLine && (blockLine + 1) * BlockSize <= plane.Length0
      requires 0 <= blockColumn && (blockColumn + 1) * BlockSize <= plane.Length1
      modifies block.values
      ensures forall l, c :: 0 <= l < BlockSize && 0 <= c < BlockSize ==>
        block.values[l, c] == Cell(plane, blockLine, blockColumn, l, c)
    {
      var currentBlockLine := 0;
      var currentBlockColumn := 0;
      var line := blockLine * BlockSize;
      while line < (blockLine + 1) * BlockSize
        invariant blockLine * BlockSize <= line <= (blockLine + 1) * BlockSize
        invariant currentBlockLine == line - blockLine * BlockSize && currentBlockColumn == 0
        invariant forall l, c :: 0 <= l < currentBlockLine && 0 <= c < BlockSize ==>
          block.values[l, c] == Cell(plane, blockLine, blockColumn, l, c)
      {
        var column := blockColumn * BlockSize;
        while column < (blockColumn + 1) * BlockSize
          invariant blockColumn * BlockSize <= column <= (blockColumn + 1) * BlockSize
          invariant currentBlockColumn == column - blockColumn * BlockSize
          invariant forall l, c :: 0 <= l < currentBlockLine && 0 <= c < BlockSize ==>
            block.values[l, c] == Cell(plane, blockLine, blockColumn, l, c)
          invariant forall c :: 0 <= c < currentBlockColumn ==>
            block.values[currentBlockLine, c] == Cell(plane, blockLine, blockColumn, currentBlockLine, c)
        {
          block.ModifyValue(plane[line, column] as real, currentBlockLine, currentBlockColumn);
          currentBlockColumn := currentBlockColumn + 1;
          column := column + 1;
        }
        currentBlockColumn := 0;
        currentBlockLine := currentBlockLine + 1;
        line := line + 1;
      }
    }

    /** One new block (blockLine, blockColumn) of the plane, subsampled for the chroma types. */
    method CutBlock(kind: char, plane: array2<int>, blockLine: int, blockColumn: int) returns (block: Block)
      requires 0 <= blockLine && (blockLine + 1) * BlockSize <= plane.Length0
      requires 0 <= blockColumn && (blockColumn + 1) * BlockSize <= plane.Length1
      ensures fresh(block.values)
      ensures CutFrom(block, plane, blockLine, blockColumn, kind == 'U' || kind == 'V')
    {
      block := new Block(BlockSize, blockLine, blockColumn);
      CopyCut(block, plane, blockLine, blockColumn);
      if kind == 'U' || kind == 'V' {
        Subsampling(block);
      }
    }

    /**
     * The blocks of one plane in row-major order: (height / 8) * (width / 8) new blocks, the
     * one tagged (bl, bc) at index bl * (width / 8) + bc holding the samples it covers,
     * subsampled when the block type is 'U' or 'V'. Samples past the last whole block are dropped.
     */
    method DivideIntoBlocks(kind: char) returns (blockList: seq<Block>)
      requires Valid()
      ensures Partition(blockList, Plane(kind), height / BlockSize, width / BlockSize, kind == 'U' || kind == 'V')
      ensures forall a :: a in Arrays(blockList) ==> fresh(a)
    {
      var heightDivided := height / BlockSize;
      var widthDivided := width / BlockSize;
      var currentMatrix := y;
      if kind == 'U' {
        currentMatrix := u;
      } else if kind == 'V' {
        currentMatrix := v;
      }
      ghost var sampled := kind == 'U' || kind == 'V';

      blockList := [];
      var blockLine := 0;
      while blockLine < heightDivided
        invariant 0 <= blockLine <= heightDivided
        invariant Partition(blockList, currentMatrix, blockLine, widthDivided, sampled)
        invariant forall a :: a in Arrays(blockList) ==> fresh(a)
      {
        assert forall a :: a in Arrays(blockList) ==> allocated(a);
        var row := CutRow(kind, currentMatrix, blockLine, widthDivided);
        PartitionAppendRow(blockList, row, currentMatrix, blockLine, widthDivided, sampled);
        ArraysAppend(blockList, row);
        blockList := blockList + row;
        blockLine := blockLine + 1;
      }
    }

    /** The blockColumn loop of DivideIntoBlocks: the wd new blocks of block row blockLine. */
    method CutRow(kind: char, plane: array2<int>, blockLine: int, wd: int) returns (row: seq<Block>)
      requires 0 <= blockLine && (blockLine + 1) * BlockSize <= plane.Length0 && 0 <= wd && wd * BlockSize <= plane.Length1
      ensures CutsRow(row, plane, blockLine, wd, kind == 'U' || kind == 'V')
      ensures forall a :: a in Arrays(row) ==> fresh(a)
    {
      row := [];
      var blockColumn := 0;
      while blockColumn < wd
        invariant 0 <= blockColumn <= wd
        invariant CutsRow(row, plane, blockLine, blockColumn, kind == 'U' || kind == 'V')
        invariant forall a :: a in Arrays(row) ==> fresh(a)
      {
        assert forall a :: a in Arrays(row) ==> allocated(a);
        MulMonotone(blockColumn + 1, wd, BlockSize);
        var block := CutBlock(kind, plane, blockLine, blockColumn);
        ArraysSnoc(row, block);
        row := row + [block];
        blockColumn := blockColumn + 1;
      }
    }

    /** The Y blocks, then the subsampled U and V blocks, each list a partition of its plane. */
    method StoreBlocks()
      requires Valid()
      modifies this
      ensures entropyList == old(entropyList)
      ensures Partition(yBlocks, y, height / BlockSize, width / BlockSize, false)
      ensures Partition(uBlocks, u, height / BlockSize, width / BlockSize, true)
      ensures Partition(vBlocks, v, height / BlockSize, width / BlockSize, true)
      ensures forall a :: a in Arrays(yBlocks) + Arrays(uBlocks) + Arrays(vBlocks) ==> fresh(a)
      ensures Arrays(yBlocks) !! Arrays(uBlocks) && Arrays(yBlocks) !! Arrays(vBlocks) && Arrays(uBlocks) !! Arrays(vBlocks)
    {
      var yb, ub, vb := DivideAll();
      SetBlocks(yb, ub, vb);
    }

    /** The three lists are the partitions of the Y plane and of the subsampled U and V planes. */
    predicate Partitioned(yb: seq<Block>, ub: seq<Block>, vb: seq<Block>)
      reads y, u, v, Arrays(yb), Arrays(ub), Arrays(vb)
    {
      Partition(yb, y, height / BlockSize, width / BlockSize, false) &&
      Partition(ub, u, height / BlockSize, width / BlockSize, true) &&
      Partition(vb, v, height / BlockSize, width / BlockSize, true)
    }

    /** The assignments of StoreBlocks: the three lists become the encoder's. */
    method SetBlocks(yb: seq<Block>, ub: seq<Block>, vb: seq<Block>)
      requires Partitioned(yb, ub, vb)
      modifies this
      ensures entropyList == old(entropyList)
      ensures yBlocks == yb && uBlocks == ub && vBlocks == vb
      ensures Partitioned(yb, ub, vb)
    {
      assert y as object != this as object && u as object != this as object && v as object != this as object;
      assert forall a | a in Arrays(yb) + Arrays(ub) + Arrays(vb) :: a as object != this as object;
      yBlocks, uBlocks, vBlocks := yb, ub, vb;
    }

    /** The three block lists of StoreBlocks, before they are stored. */
    method DivideAll() returns (yb: seq<Block>, ub: seq<Block>, vb: seq<Block>)
      requires Valid()
      ensures Partition(yb, y, height / BlockSize, width / BlockSize, false)
      ensures Partition(ub, u, height / BlockSize, width / BlockSize, true)
      ensures Partition(vb, v, height / BlockSize, width / BlockSize, true)
      ensures forall a :: a in Arrays(yb) + Arrays(ub) + Arrays(vb) ==> fresh(a)
      ensures Arrays(yb) !! Arrays(ub) && Arrays(yb) !! Arrays(vb) && Arrays(ub) !! Arrays(vb)
    {
      yb := DivideIntoBlocks('Y');
      assert forall a :: a in Arrays(yb) ==> allocated(a);
      ub := DivideIntoBlocks('U');
      assert forall a :: a in Arrays(yb) + Arrays(ub) ==> allocated(a);
      vb := DivideIntoBlocks('V');
    }

    /**
     * The zig-zag walk: the upper-left triangle diagonal by diagonal, then the lower-right
     * one, reading every cell exactly once in the zig-zag order of Figure A.6 of ITU-T T.81.
     */
    method ZigZagMatrix(arr: array2<real>) returns (result: array<int>)
      requires arr.Length0 == BlockSize && arr.Length1 == BlockSize
      ensures fresh(result) && result.Length == 64
      ensures result[..] == Scan(arr)
    {
      var m, n := BlockSize, BlockSize;
      result := new int[m * n];
      var index, row, col, rowInc := ScanUpperLeft(arr, result);

      // From the last cell of the main anti-diagonal to the first of the next one.
      if row == 0 {
        if col == m - 1 {
          row := row + 1;
        } else {
          col := col + 1;
        }
        rowInc := true;
      } else {
        if row == n - 1 {
          col := col + 1;
        } else {
          row := row + 1;
        }
        rowInc := false;
      }

      ScanLowerRight(arr, result, index, row, col, rowInc);
    }

    /** The first loop of the walk: anti-diagonals 0 to 7, ending on the last cell of diagonal 7. */
    method ScanUpperLeft(arr: array2<real>, result: array<int>) returns (index: int, row: int, col: int, rowInc: bool)
      requires arr.Length0 == BlockSize && arr.Length1 == BlockSize && result.Length == 64
      modifies result
      ensures index == 36 && row == 7 && col == 0 && rowInc
      ensures forall k :: 0 <= k < index ==> result[k] == Scan(arr)[k]
    {
      var m, n := BlockSize, BlockSize;
      index := 0;
      row, col := 0, 0;
      rowInc := false;

      var mn := if m < n then m else n;
      var len := 1;
      while len <= mn
        invariant 1 <= len <= mn
        invariant index == Tri(len - 1)
        invariant (row, col) == LowerCell(len - 1, 0)
        invariant rowInc == ((len - 1) % 2 == 1)
        invariant forall k :: 0 <= k < index ==> result[k] == Scan(arr)[k]
      {
        index, row, col := ScanLowerDiagonal(arr, result, len - 1, len, index, row, col, rowInc);

        if len == mn {
          break;
        }
        LowerTurn(len - 1, row, col, rowInc);
        if rowInc {
          row := row + 1;
          rowInc := false;
        } else {
          col := col + 1;
          rowInc := true;
        }
        len := len + 1;
      }
    }

    /** The inner loop of the first half: the len cells of anti-diagonal d == len - 1, from its first cell to its last. */
    method ScanLowerDiagonal(arr: array2<real>, result: array<int>, ghost d: int, len: int, index0: int, row0: int, col0: int, rowInc: bool)
      returns (index: int, row: int, col: int)
      requires arr.Length0 == BlockSize && arr.Length1 == BlockSize && result.Length == 64
      requires 0 <= d < 8 && len == d + 1 && index0 == Tri(d) && (row0, col0) == LowerCell(d, 0)
      requires rowInc == (d % 2 == 1)
      requires forall k :: 0 <= k < index0 ==> result[k] == Scan(arr)[k]
      modifies result
      ensures index == Tri(d) + d + 1 && (row, col) == LowerCell(d, d)
      ensures forall k :: 0 <= k < index ==> result[k] == Scan(arr)[k]
    {
      ghost var scan := Scan(arr);
      index, row, col := index0, row0, col0;
      var i := 0;
      while i < len
        invariant 0 <= i < len
        invariant index == Tri(d) + i
        invariant (row, col) == LowerCell(d, i)
        invariant forall k :: 0 <= k < index ==> result[k] == scan[k]
      {
        ScanLower(arr, d, i);
        Put(arr, result, scan, index, row, col);
        index := index + 1;

        if i + 1 == len {
          break;
        }
        LowerMove(d, i, row, col, rowInc);
        if rowInc {
          row, col := row + 1, col - 1;
        } else {
          row, col := row - 1, col + 1;
        }
        i := i + 1;
      }
    }

    /** The second loop of the walk: anti-diagonals 8 to 14, from cell (7, 1) to cell (7, 7). */
    method ScanLowerRight(arr: array2<real>, result: array<int>, index0: int, row0: int, col0: int, rowInc0: bool)
      requires arr.Length0 == BlockSize && arr.Length1 == BlockSize && result.Length == 64
      requires index0 == 36 && row0 == 7 && col0 == 1 && !rowInc0
      requires forall k :: 0 <= k < index0 ==> result[k] == Scan(arr)[k]
      modifies result
      ensures result[..] == Scan(arr)
    {
      var m, n := BlockSize, BlockSize;
      var mn := if m < n then m else n;
      var index, row, col, rowInc := index0, row0, col0, rowInc0;
      var diag := (if m > n then m else n) - 1;
      while diag > 0
        invariant 0 <= diag <= 7
        invariant index == 64 - Tri(diag)
        invariant (row, col) == UpperCell(diag, 0)
        invariant rowInc == (diag % 2 == 0)
        invariant forall k :: 0 <= k < index ==> result[k] == Scan(arr)[k]
      {
        var len := if diag > mn then mn else diag;
        index, row, col := ScanUpperDiagonal(arr, result, diag, len, index, row, col, rowInc);

        UpperTurn(diag, row, col, rowInc);
        if row == 0 || col == m - 1 {
          if col == m - 1 {
            row := row + 1;
          } else {
            col := col + 1;
          }
          rowInc := true;
        } else if col == 0 || row == n - 1 {
          if row == n - 1 {
            col := col + 1;
          } else {
            row := row + 1;
          }
          rowInc := false;
        }
        diag := diag - 1;
      }
    }

    /** The inner loop of the second half: the len == diag cells of diagonal diag, from its first cell to its last. */
    method ScanUpperDiagonal(arr: array2<real>, result: array<int>, diag: int, len: int, index0: int, row0: int, col0: int, rowInc: bool)
      returns (index: int, row: int, col: int)
      requires arr.Length0 == BlockSize && arr.Length1 == BlockSize && result.Length == 64
      requires 1 <= diag <= 7 && len == diag && index0 == 64 - Tri(diag) && (row0, col0) == UpperCell(diag, 0)
      requires rowInc == (diag % 2 == 0)
      requires forall k :: 0 <= k < index0 ==> result[k] == Scan(arr)[k]
      modifies result
      ensures index == 64 - Tri(diag) + diag && (row, col) == UpperCell(diag, diag - 1)
      ensures forall k :: 0 <= k < index ==> result[k] == Scan(arr)[k]
    {
      ghost var scan := Scan(arr);
      index, row, col := index0, row0, col0;
      var i := 0;
      while i < len
        invariant 0 <= i < len
        invariant index == 64 - Tri(diag) + i
        invariant (row, col) == UpperCell(diag, i)
        invariant forall k :: 0 <= k < index ==> result[k] == scan[k]
      {
        ScanUpper(arr, diag, i);
        Put(arr, result, scan, index, row, col);
        index := index + 1;

        if i + 1 == len {
          break;
        }
        UpperMove(diag, i, row, col, rowInc);
        if rowInc {
          row, col := row + 1, col - 1;
        } else {
          row, col := row - 1, col + 1;
        }
        i := i + 1;
      }
    }

    /** result[index] = (int) arr[row][col], the next entry of the scan. */
    method Put(arr: array2<real>, result: array<int>, ghost scan: seq<int>, index: int, row: int, col: int)
      requires 0 <= row < arr.Length0 && 0 <= col < arr.Length1
      requires 0 <= index < result.Length && index < |scan| && scan[index] == TruncToInt(arr[row, col])
      requires forall k :: 0 <= k < index ==> result[k] == scan[k]
      modifies result
      ensures forall k :: 0 <= k <= index ==> result[k] == scan[k]
    {
      result[index] := TruncToInt(arr[row, col]);
    }

    /** The DC term and the AC objects of one block, the objects all new. */
    method EncodeBlock(block: Block) returns (e: Entropy)
      requires block.Valid() && block.size == BlockSize
      ensures Encodes(e, block)
      ensures Distinct(e.acList) && forall a :: a in e.acList ==> fresh(a)
    {
      var matrix := ZigZagMatrix(block.GetValues());
      var dc := DC(GetCorrespondingSize(matrix[0]), matrix[0]);
      var acList := RunLengths(matrix);
      e := Entropy(dc, acList);
      assert Codes(e, Scan(block.values));
    }

    /** The loop of EncodeBlock: the AC objects of a zig-zag sequence, all new. */
    method RunLengths(matrix: array<int>) returns (acList: seq<AC>)
      requires matrix.Length == 64
      ensures Snapshot(acList) == EncodeAC(matrix[..])
      ensures Distinct(acList) && forall a :: a in acList ==> fresh(a)
    {
      ghost var s := matrix[..];
      ghost var goal := EncodeAC(s);
      ghost var terms: seq<Term> := [];
      var currentRunLength := 0;
      acList := [];
      var index := 1;
      while index < matrix.Length
        invariant 1 <= index <= 64 && 0 <= currentRunLength
        invariant matrix[..] == s
        invariant terms + EncodeFrom(s, index, currentRunLength) == goal
        invariant Snapshot(acList) == terms
        invariant Distinct(acList) && forall a :: a in acList ==> fresh(a)
      {
        if matrix[index] == 0 {
          currentRunLength := currentRunLength + 1;
        } else {
          EncodeValueStep(terms, s, index, currentRunLength);
          terms := terms + [Term(currentRunLength, GetCorrespondingSize(matrix[index]), matrix[index])];
          acList := AddAC(acList, currentRunLength, GetCorrespondingSize(matrix[index]), matrix[index]);
          currentRunLength := 0;
        }
        index := index + 1;
      }
      if currentRunLength > 0 {
        acList := AddAC(acList, currentRunLength, 0, 0);
      }
    }

    /** The list with a new AC object holding (runLength, size, amplitude) appended. */
    method AddAC(acList: seq<AC>, runLength: int, size: int, amplitude: int) returns (acList': seq<AC>)
      requires Distinct(acList)
      ensures Snapshot(acList') == Snapshot(acList) + [Term(runLength, size, amplitude)]
      ensures Distinct(acList') && forall a :: a in acList' ==> a in acList || fresh(a)
    {
      assert forall a :: a in acList ==> allocated(a);
      var ac := new AC(runLength, size, amplitude);
      SnapshotSnoc(acList, ac);
      DistinctSnoc(acList, ac);
      acList' := acList + [ac];
    }

    /**
     * One entropy record per block, interleaved Y, U, V: records 3i, 3i + 1 and 3i + 2 code
     * Y, U and V block i. The lookup of a U or V block past the end of its list is the
     * IndexOutOfBoundsException, after which the list holds the records made before it; ok is
     * false then.
     */
    method EntropyEncoding() returns (ok: bool)
      requires Sized(yBlocks) && Sized(uBlocks) && Sized(vBlocks)
      modifies this
      ensures yBlocks == old(yBlocks) && uBlocks == old(uBlocks) && vBlocks == old(vBlocks)
      ensures ok <==> |uBlocks| >= |yBlocks| && |vBlocks| >= |yBlocks|
      ensures ok ==> |entropyList| == 3 * |yBlocks|
      ensures !ok ==>
        var m := if |uBlocks| < |vBlocks| then |uBlocks| else |vBlocks|;
        |entropyList| == 3 * m + (if |uBlocks| > m then 2 else 1)
      ensures Interleaved(entropyList, yBlocks, uBlocks, vBlocks)
      ensures Separate(entropyList) && forall a :: a in Objects(entropyList) ==> fresh(a)
    {
      var list;
      list, ok := EncodeAll(yBlocks, uBlocks, vBlocks);
      assert forall a | a in Objects(list) :: a as object != this as object;
      assert forall a | a in Arrays(yBlocks) + Arrays(uBlocks) + Arrays(vBlocks) :: a as object != this as object;
      entropyList := list;
    }

    /** The loop of EntropyEncoding, on the three block lists. */
    method EncodeAll(yBlocks: seq<Block>, uBlocks: seq<Block>, vBlocks: seq<Block>) returns (list: seq<Entropy>, ok: bool)
      requires Sized(yBlocks) && Sized(uBlocks) && Sized(vBlocks)
      ensures ok <==> |uBlocks| >= |yBlocks| && |vBlocks| >= |yBlocks|
      ensures ok ==> |list| == 3 * |yBlocks|
      ensures !ok ==>
        var m := if |uBlocks| < |vBlocks| then |uBlocks| else |vBlocks|;
        |list| == 3 * m + (if |uBlocks| > m then 2 else 1)
      ensures Interleaved(list, yBlocks, uBlocks, vBlocks)
      ensures Separate(list) && forall a :: a in Objects(list) ==> fresh(a)
    {
      list := [];
      var index := 0;
      while index < |yBlocks|
        invariant 0 <= index <= |yBlocks| && index <= |uBlocks| && index <= |vBlocks|
        invariant |list| == 3 * index
        invariant Interleaved(list, yBlocks, uBlocks, vBlocks)
        invariant Separate(list) && forall a :: a in Objects(list) ==> fresh(a)
      {
        var whole;
        list, whole := AddTriple(list, index, yBlocks, uBlocks, vBlocks);
        if !whole {
          return list, false;
        }
        index := index + 1;
      }
      return list, true;
    }

    /**
     * One pass of the loop of EntropyEncoding: the records of Y, U and V block index,
     * stopping short after Y or U when the U or V list has no block index.
     */
    method AddTriple(list: seq<Entropy>, index: nat, yBlocks: seq<Block>, uBlocks: seq<Block>, vBlocks: seq<Block>)
      returns (list': seq<Entropy>, whole: bool)
      requires Sized(yBlocks) && Sized(uBlocks) && Sized(vBlocks)
      requires Interleaved(list, yBlocks, uBlocks, vBlocks) && Separate(list)
      requires |list| == 3 * index && index < |yBlocks|
      ensures whole <==> index < |uBlocks| && index < |vBlocks|
      ensures |list'| == |list| + (if whole then 3 else if index < |uBlocks| then 2 else 1)
      ensures Interleaved(list', yBlocks, uBlocks, vBlocks) && Separate(list')
      ensures forall a :: a in Objects(list') ==> a in Objects(list) || fresh(a)
    {
      list' := Add(list, index, 0, yBlocks, uBlocks, vBlocks);
      if index >= |uBlocks| {
        return list', false;
      }
      list' := Add(list', index, 1, yBlocks, uBlocks, vBlocks);
      if index >= |vBlocks| {
        return list', false;
      }
      list' := Add(list', index, 2, yBlocks, uBlocks, vBlocks);
      whole := true;
    }

    /**
     * The list with the record of block index of the Y, U or V list (kind 0, 1 or 2)
     * appended at position 3 * index + kind; the record's objects are all new.
     */
    method Add(list: seq<Entropy>, index: nat, kind: int, yBlocks: seq<Block>, uBlocks: seq<Block>, vBlocks: seq<Block>)
      returns (list': seq<Entropy>)
      requires Sized(yBlocks) && Sized(uBlocks) && Sized(vBlocks)
      requires Interleaved(list, yBlocks, uBlocks, vBlocks) && Separate(list)
      requires 0 <= kind < 3 && |list| == 3 * index + kind && index < |Source(kind, yBlocks, uBlocks, vBlocks)|
      ensures |list'| == |list| + 1
      ensures Interleaved(list', yBlocks, uBlocks, vBlocks) && Separate(list')
      ensures forall a :: a in Objects(list') ==> a in Objects(list) || fresh(a)
    {
      SourceAt(|list|, index, kind, yBlocks, uBlocks, vBlocks);
      var block := Source(kind, yBlocks, uBlocks, vBlocks)[index];
      assert forall a :: a in Objects(list) ==> allocated(a);
      assert forall a :: a in Arrays(yBlocks) + Arrays(uBlocks) + Arrays(vBlocks) ==> allocated(a);
      var e := EncodeBlock(block);
      assert Interleaved(list, yBlocks, uBlocks, vBlocks);
      InterleavedSnoc(list, e, yBlocks, uBlocks, vBlocks);
      SeparateSnoc(list, e);
      ObjectsSnoc(list, e);
      list' := list + [e];
    }
  }
}
