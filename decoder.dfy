/**
 * The inverse half of the codec: the entropy records are run-length expanded back into
 * 8x8 blocks along the zig-zag walk, and the blocks are put back together into the
 * Y, U and V planes. Each method is proved against the state machine of RunExpansion.
 */
module Decoding {
  import opened Wrappers
  import opened ZigZag
  import opened Blocks
  import opened EntropyTerms
  import opened RunLength
  import opened RunExpansion
  import opened BlockGrid
  import opened Encoding

  /** The grid read in zig-zag order: entry k is the cell of zig-zag position k. */
  function Grid(result: array2<int>): (s: seq<int>)
    requires result.Length0 == BlockSize && result.Length1 == BlockSize
    reads result
    ensures |s| == 64
  {
    seq(64, k requires 0 <= k < 64 reads result => result[ZZ(k).0, ZZ(k).1])
  }

  /** The 8x8 grid holds the coefficients out, each at the cell of its zig-zag position. */
  predicate Matches(result: array2<int>, out: seq<int>)
    reads result
  {
    result.Length0 == BlockSize && result.Length1 == BlockSize && Grid(result) == out
  }

  /** The same, cell by cell. */
  predicate Cells(result: array2<int>, out: seq<int>)
    reads result
  {
    result.Length0 == BlockSize && result.Length1 == BlockSize && |out| == 64 &&
    forall r, c :: 0 <= r < 8 && 0 <= c < 8 ==> result[r, c] == out[ZZIndex(r, c)]
  }

  lemma MatchesCells(result: array2<int>, out: seq<int>)
    requires Matches(result, out)
    ensures Cells(result, out)
  {
    forall r, c | 0 <= r < 8 && 0 <= c < 8
      ensures result[r, c] == out[ZZIndex(r, c)]
    {
      ZZOfZZIndex(r, c);
    }
  }

  /** The decoder's variables are the walk w: the grid, the terms the AC objects hold, the cursor and the flag. */
  predicate Tracks(acList: seq<AC>, result: array2<int>, cursor: int, zero: bool, w: Walk)
    reads acList, result
  {
    Matches(result, w.out) && Snapshot(acList) == w.terms && cursor == w.cursor && zero == w.zero
  }

  /** The block record j of an interleaved list is decoded into: block j / 3 of the list Source names. */
  function Target(j: int, yBlocks: seq<Block>, uBlocks: seq<Block>, vBlocks: seq<Block>): Block
    requires 0 <= j && j / 3 < |Source(j, yBlocks, uBlocks, vBlocks)|
  {
    Source(j, yBlocks, uBlocks, vBlocks)[j / 3]
  }

  /** Record j has a block to go to. */
  predicate HasTarget(j: int, yBlocks: seq<Block>, uBlocks: seq<Block>, vBlocks: seq<Block>) {
    0 <= j && j / 3 < |Source(j, yBlocks, uBlocks, vBlocks)|
  }

  /** No two blocks of the three lists share a grid, so writing one block leaves the others alone. */
  ghost predicate Unshared(yBlocks: seq<Block>, uBlocks: seq<Block>, vBlocks: seq<Block>) {
    forall j, k {:trigger Target(j, yBlocks, uBlocks, vBlocks), Target(k, yBlocks, uBlocks, vBlocks)} ::
      j < k && HasTarget(j, yBlocks, uBlocks, vBlocks) && HasTarget(k, yBlocks, uBlocks, vBlocks) ==>
        Target(j, yBlocks, uBlocks, vBlocks).values != Target(k, yBlocks, uBlocks, vBlocks).values
  }

  /**
   * The block lists StoreBlocks leaves (three partitions, each block with its own grid, no grid
   * in two lists) are unshared, so entropyDecoding may write them one record at a time.
   */
  lemma PartitionsUnshared(yBlocks: seq<Block>, uBlocks: seq<Block>, vBlocks: seq<Block>,
                           y: array2<int>, u: array2<int>, v: array2<int>, hd: int, wd: int)
    requires Partition(yBlocks, y, hd, wd, false) && Partition(uBlocks, u, hd, wd, true) && Partition(vBlocks, v, hd, wd, true)
    requires Arrays(yBlocks) !! Arrays(uBlocks) && Arrays(yBlocks) !! Arrays(vBlocks) && Arrays(uBlocks) !! Arrays(vBlocks)
    ensures Unshared(yBlocks, uBlocks, vBlocks)
  {
    forall j, k | j < k && HasTarget(j, yBlocks, uBlocks, vBlocks) && HasTarget(k, yBlocks, uBlocks, vBlocks)
      ensures Target(j, yBlocks, uBlocks, vBlocks).values != Target(k, yBlocks, uBlocks, vBlocks).values
    {
      var sj, sk := Source(j, yBlocks, uBlocks, vBlocks), Source(k, yBlocks, uBlocks, vBlocks);
      assert sj[j / 3].values in Arrays(sj);
      assert sk[k / 3].values in Arrays(sk);
      if j % 3 == k % 3 {
        assert j / 3 < k / 3;
      }
    }
  }

  /** The 8x8 block grid holds the coefficients out, each at the cell of its zig-zag position. */
  predicate Holds(b: Block, out: seq<int>)
    reads b.values
  {
    b.Valid() && b.size == BlockSize && |out| == 64 &&
    forall l, c :: 0 <= l < BlockSize && 0 <= c < BlockSize ==> b.values[l, c] == out[ZZIndex(l, c)] as real
  }

  /** Decoding the terms with the DC amplitude dc succeeds, and b holds the coefficients. */
  predicate Decoded(b: Block, dc: int, terms: seq<Term>, reading: Reading)
    reads b.values
  {
    var d := Decode(dc, terms, reading);
    d.Some? && Holds(b, d.value.out)
  }

  /** The current terms of every record's AC objects. */
  function Snapshots(list: seq<Entropy>): (s: seq<seq<Term>>)
    reads Objects(list)
    ensures |s| == |list| && forall j :: 0 <= j < |list| ==> s[j] == Snapshot(list[j].acList)
  {
    seq(|list|, j requires 0 <= j < |list| reads Objects(list) => ObjectsHas(list, j); Snapshot(list[j].acList))
  }

  /**
   * The sample at (r, c) of a plane rebuilt from the first n blocks of an hd x wd block grid:
   * the sample (r % 8, c % 8) of block (r / 8, c / 8) when that block is among the first n, zero otherwise.
   */
  function Expected(blocks: seq<Block>, hd: int, wd: int, n: int, r: int, c: int): real
    requires Sized(blocks) && 0 <= r && 0 <= c && n <= |blocks|
    reads Arrays(blocks)
  {
    if r / BlockSize < hd && c / BlockSize < wd && BlockIndex(wd, r / BlockSize, c / BlockSize) < n then
      assert blocks[BlockIndex(wd, r / BlockSize, c / BlockSize)].values in Arrays(blocks);
      blocks[BlockIndex(wd, r / BlockSize, c / BlockSize)].values[r % BlockSize, c % BlockSize]
    else 0.0
  }

  /** The plane holds the first n blocks of the grid at their places and zeros elsewhere. */
  predicate PlaneHolds(plane: array2<real>, blocks: seq<Block>, hd: int, wd: int, n: int)
    requires Sized(blocks) && n <= |blocks|
    reads plane, Arrays(blocks)
  {
    forall r, c :: 0 <= r < plane.Length0 && 0 <= c < plane.Length1 ==> plane[r, c] == Expected(blocks, hd, wd, n, r, c)
  }

  /** An all-zero plane holds none of the blocks yet. */
  lemma PlaneHoldsStart(plane: array2<real>, blocks: seq<Block>, hd: int, wd: int)
    requires Sized(blocks) && 0 <= wd
    requires forall r, c :: 0 <= r < plane.Length0 && 0 <= c < plane.Length1 ==> plane[r, c] == 0.0
    ensures PlaneHolds(plane, blocks, hd, wd, 0)
  {
    forall r, c | 0 <= r < plane.Length0 && 0 <= c < plane.Length1
      ensures plane[r, c] == Expected(blocks, hd, wd, 0, r, c)
    {
      MulMonotone(0, r / BlockSize, wd);
    }
  }

  /** Block k of a row or column of n samples lies inside it exactly when k < n / 8. */
  lemma BlockFits(k: int, n: int)
    requires 0 <= k < n / BlockSize
    ensures (k + 1) * BlockSize <= n
  {
  }

  /**
   * convertBlocksToMatrices gets through exactly when the plane has at least one block row,
   * a plane narrower than a block has exactly one, and each list holds the hd x wd blocks.
   */
  predicate Fits(hd: int, wd: int, ny: int, nu: int, nv: int) {
    hd >= 1 && (wd == 0 ==> hd == 1) && (wd >= 1 ==> hd * wd <= ny && hd * wd <= nu && hd * wd <= nv)
  }

  /** Copying block n, at block row line and block column column, brings in exactly that block's cells. */
  lemma ExpectedStep(blocks: seq<Block>, hd: int, wd: int, n: int, line: int, column: int, r: int, c: int)
    requires Sized(blocks) && 0 <= n < |blocks| && 0 <= line < hd && 0 <= column < wd && n == BlockIndex(wd, line, column)
    requires 0 <= r && 0 <= c
    ensures Expected(blocks, hd, wd, n + 1, r, c) ==
      if r / BlockSize == line && c / BlockSize == column then blocks[n].values[r % BlockSize, c % BlockSize]
      else Expected(blocks, hd, wd, n, r, c)
  {
    if r / BlockSize < hd && c / BlockSize < wd && BlockIndex(wd, r / BlockSize, c / BlockSize) == n {
      BlockIndexInjective(wd, r / BlockSize, c / BlockSize, line, column);
    }
  }

  /**
   * The plane is the hd x wd block grid put back together: the sample at (r, c) is the sample
   * (r % 8, c % 8) of block (r / 8, c / 8), and the samples past the last whole block are zero.
   */
  predicate Assembled(plane: array2<real>, blocks: seq<Block>, hd: int, wd: int)
    requires Sized(blocks) && 0 <= hd && 0 <= wd && hd * wd <= |blocks|
    reads plane, Arrays(blocks)
  {
    forall r, c :: 0 <= r < plane.Length0 && 0 <= c < plane.Length1 ==>
      plane[r, c] ==
        if r / BlockSize < hd && c / BlockSize < wd then
          (BlockIndexBounds(hd, wd, r / BlockSize, c / BlockSize);
           assert blocks[BlockIndex(wd, r / BlockSize, c / BlockSize)].values in Arrays(blocks);
           blocks[BlockIndex(wd, r / BlockSize, c / BlockSize)].values[r % BlockSize, c % BlockSize])
        else 0.0
  }

  lemma PlaneAssembled(plane: array2<real>, blocks: seq<Block>, hd: int, wd: int)
    requires Sized(blocks) && 0 <= hd && 0 <= wd && hd * wd <= |blocks|
    requires PlaneHolds(plane, blocks, hd, wd, hd * wd)
    ensures Assembled(plane, blocks, hd, wd)
  {
    forall r, c | 0 <= r < plane.Length0 && 0 <= c < plane.Length1 && r / BlockSize < hd && c / BlockSize < wd
      ensures BlockIndex(wd, r / BlockSize, c / BlockSize) < hd * wd
    {
      BlockIndexBounds(hd, wd, r / BlockSize, c / BlockSize);
    }
  }

  /** An AC object of one record is not one of another record. */
  lemma SeparateApart(list: seq<Entropy>, i: int, j: int, a: AC)
    requires Separate(list) && 0 <= i < j < |list|
    ensures a in list[j].acList ==> a !in list[i].acList
    ensures a in list[i].acList ==> a !in list[j].acList
  {
  }

  /** On a plane that fits, every block the loop reaches is in all three lists. */
  lemma FitsInRange(hd: int, wd: int, line: int, column: int, ny: int, nu: int, nv: int)
    requires Fits(hd, wd, ny, nu, nv) && 0 <= line < hd && 0 <= column < wd
    ensures BlockIndex(wd, line, column) < ny && BlockIndex(wd, line, column) < nu && BlockIndex(wd, line, column) < nv
  {
    BlockIndexBounds(hd, wd, line, column);
  }

  class Decoder {
    /** The image size and the block lists handed over by the encoder. */
    const width: nat
    const height: nat
    const yBlocks: seq<Block>
    const uBlocks: seq<Block>
    const vBlocks: seq<Block>
    /** The Y, U and V planes rebuilt from the blocks. */
    var y: array2<real>
    var u: array2<real>
    var v: array2<real>

    /** A decoder over three block lists; the planes are empty until the blocks are put back together. */
    constructor (yBlocks: seq<Block>, uBlocks: seq<Block>, vBlocks: seq<Block>, width: nat, height: nat)
      ensures this.yBlocks == yBlocks && this.uBlocks == uBlocks && this.vBlocks == vBlocks
      ensures this.width == width && this.height == height
    {
      this.yBlocks := yBlocks;
      this.uBlocks := uBlocks;
      this.vBlocks := vBlocks;
      this.width := width;
      this.height := height;
      y := new real[0, 0];
      u := new real[0, 0];
      v := new real[0, 0];
    }

    /**
     * The zig-zag walk of the decoder: the grid starts all zero, the DC amplitude goes to
     * cell (0, 0), and every other cell is the step of RunExpansion at its zig-zag position.
     * The AC objects are counted down in place. ok is false where the decoder throws.
     */
    method ZigZagMatrix(entropy: Entropy, reading: Reading) returns (ok: bool, result: array2<int>)
      requires Distinct(entropy.acList)
      modifies entropy.acList
      ensures fresh(result) && result.Length0 == BlockSize && result.Length1 == BlockSize
      ensures var d := Decode(entropy.dc.amplitude, old(Snapshot(entropy.acList)), reading);
        (ok <==> d.Some?) && (ok ==> Cells(result, d.value.out) && Snapshot(entropy.acList) == d.value.terms)
    {
      ghost var w0 := Start(Snapshot(entropy.acList));
      ghost var trace := Trace(w0, entropy.dc.amplitude, reading);
      TraceOf(w0, entropy.dc.amplitude, reading);
      var m, n := BlockSize, BlockSize;
      result := new int[m, n]((_, _) => 0);
      assert Grid(result) == w0.out;

      var index, row, col, rowInc, cursor, zero;
      ghost var w;
      ok, index, row, col, rowInc, cursor, zero, w := DecodeUpperLeft(entropy.acList, entropy.dc.amplitude, reading, result, trace, w0);
      if !ok {
        return;
      }

      // From the last cell of the main anti-diagonal to the first of the next one.
      if row == 0 {
        if col == m - 1 {
          row := row + 1;
        } else {
          col := col + 1;
        }
        rowInc := true;
      } else {
        if row == n - 1 {
          col := col + 1;
        } else {
          row := row + 1;
        }
        rowInc := false;
      }

      ok, w := DecodeLowerRight(entropy.acList, entropy.dc.amplitude, reading, result, trace, index, row, col, rowInc, cursor, zero, w);
      if ok {
        MatchesCells(result, w.out);
      }
    }

    /** The first loop of the walk: positions 0 to 35, anti-diagonals 0 to 7. */
    method DecodeUpperLeft(acList: seq<AC>, dc: int, reading: Reading, result: array2<int>,
                           ghost trace: seq<Option<Walk>>, ghost w0: Walk)
      returns (ok: bool, index: int, row: int, col: int, rowInc: bool, cursor: int, zero: bool, ghost w: Walk)
      requires IsTrace(trace, dc, reading) && trace[0] == Some(w0)
      requires Distinct(acList) && Tracks(acList, result, 0, false, w0)
      modifies result, acList
      ensures !ok ==> trace[64] == None
      ensures ok ==> trace[36] == Some(w)
      ensures ok ==> index == 36 && row == 7 && col == 0 && rowInc && Tracks(acList, result, cursor, zero, w)
    {
      var m, n := BlockSize, BlockSize;
      index, row, col, rowInc := 0, 0, 0, false;
      cursor, zero, w := 0, false, w0;
      ok := true;

      var mn := if m < n then m else n;
      var len := 1;
      while len <= mn
        invariant 1 <= len <= mn
        invariant index == Tri(len - 1)
        invariant (row, col) == LowerCell(len - 1, 0)
        invariant rowInc == ((len - 1) % 2 == 1)
        invariant trace[index] == Some(w)
        invariant Tracks(acList, result, cursor, zero, w)
      {
        TriStep(len - 1);
        TriMonotone(len, 8);
        ok, index, row, col, cursor, zero, w :=
          DecodeLowerDiagonal(acList, dc, reading, result, trace, len - 1, len, index, row, col, rowInc, cursor, zero, w);
        if !ok {
          return;
        }

        if len == mn {
          break;
        }
        row, col, rowInc := TurnLower(len - 1, row, col, rowInc);
        len := len + 1;
      }
    }

    /** The inner loop of the first half: the len cells of anti-diagonal d == len - 1, positions index0 .. end - 1. */
    method DecodeLowerDiagonal(acList: seq<AC>, dc: int, reading: Reading, result: array2<int>, ghost trace: seq<Option<Walk>>,
                               ghost d: int, len: int, index0: int, row0: int, col0: int, rowInc: bool,
                               cursor0: int, zero0: bool, ghost w0: Walk)
      returns (ok: bool, index: int, row: int, col: int, cursor: int, zero: bool, ghost w: Walk)
      requires 0 <= d < 8 && len == d + 1 && index0 == Tri(d) && (row0, col0) == LowerCell(d, 0)
      requires rowInc == (d % 2 == 1) && index0 + len <= 36
      requires IsTrace(trace, dc, reading) && trace[index0] == Some(w0)
      requires Distinct(acList) && Tracks(acList, result, cursor0, zero0, w0)
      modifies result, acList
      ensures !ok ==> trace[64] == None
      ensures ok ==> index == index0 + len && trace[index] == Some(w) && (row, col) == LowerCell(d, d) && Tracks(acList, result, cursor, zero, w)
    {
      index, row, col, cursor, zero, w := index0, row0, col0, cursor0, zero0, w0;
      ok := true;
      var i := 0;
      while i < len
        invariant 0 <= i < len
        invariant index == index0 + i
        invariant (row, col) == LowerCell(d, i)
        invariant trace[index] == Some(w)
        invariant Tracks(acList, result, cursor, zero, w)
      {
        ZZLowerWalk(d, i);
        TraceStep(trace, index, w, dc, reading);
        ok, cursor, zero, w := Visit(acList, dc, reading, result, row, col, cursor, zero, w, index);
        if !ok {
          return;
        }
        index := index + 1;

        if i + 1 == len {
          break;
        }
        LowerMove(d, i, row, col, rowInc);
        if rowInc {
          row, col := row + 1, col - 1;
        } else {
          row, col := row - 1, col + 1;
        }
        i := i + 1;
      }
    }

    /** The second loop of the walk: positions 36 to 63, from cell (7, 1) to cell (7, 7). */
    method DecodeLowerRight(acList: seq<AC>, dc: int, reading: Reading, result: array2<int>, ghost trace: seq<Option<Walk>>,
                            index0: int, row0: int, col0: int, rowInc0: bool, cursor0: int, zero0: bool, ghost w0: Walk)
      returns (ok: bool, ghost w: Walk)
      requires index0 == 36 && row0 == 7 && col0 == 1 && !rowInc0
      requires IsTrace(trace, dc, reading) && trace[36] == Some(w0)
      requires Distinct(acList) && Tracks(acList, result, cursor0, zero0, w0)
      modifies result, acList
      ensures !ok ==> trace[64] == None
      ensures ok ==> trace[64] == Some(w)
      ensures ok ==> Matches(result, w.out) && Snapshot(acList) == w.terms
    {
      var m, n := BlockSize, BlockSize;
      var mn := if m < n then m else n;
      var index, row, col, rowInc, cursor, zero := index0, row0, col0, rowInc0, cursor0, zero0;
      w := w0;
      ok := true;
      var diag := (if m > n then m else n) - 1;
      while diag > 0
        invariant 0 <= diag <= 7
        invariant index == 64 - Tri(diag)
        invariant (row, col) == UpperCell(diag, 0)
        invariant rowInc == (diag % 2 == 0)
        invariant trace[index] == Some(w)
        invariant Tracks(acList, result, cursor, zero, w)
      {
        var len := if diag > mn then mn else diag;
        TriStep(diag - 1);
        TriMonotone(diag, 8);
        ok, index, row, col, cursor, zero, w :=
          DecodeUpperDiagonal(acList, dc, reading, result, trace, diag, len, index, row, col, rowInc, cursor, zero, w);
        if !ok {
          return;
        }

        row, col, rowInc := TurnUpper(diag, row, col, rowInc);
        diag := diag - 1;
      }
    }

    /** The inner loop of the second half: the len == diag cells of diagonal diag, positions index0 .. end - 1. */
    method DecodeUpperDiagonal(acList: seq<AC>, dc: int, reading: Reading, result: array2<int>, ghost trace: seq<Option<Walk>>,
                               diag: int, len: int, index0: int, row0: int, col0: int, rowInc: bool,
                               cursor0: int, zero0: bool, ghost w0: Walk)
      returns (ok: bool, index: int, row: int, col: int, cursor: int, zero: bool, ghost w: Walk)
      requires 1 <= diag <= 7 && len == diag && index0 == 64 - Tri(diag) && (row0, col0) == UpperCell(diag, 0)
      requires rowInc == (diag % 2 == 0) && index0 + len <= 64
      requires IsTrace(trace, dc, reading) && trace[index0] == Some(w0)
      requires Distinct(acList) && Tracks(acList, result, cursor0, zero0, w0)
      modifies result, acList
      ensures !ok ==> trace[64] == None
      ensures ok ==> index == index0 + len && trace[index] == Some(w) && (row, col) == UpperCell(diag, diag - 1) && Tracks(acList, result, cursor, zero, w)
    {
      index, row, col, cursor, zero, w := index0, row0, col0, cursor0, zero0, w0;
      ok := true;
      var i := 0;
      while i < len
        invariant 0 <= i < len
        invariant index == index0 + i
        invariant (row, col) == UpperCell(diag, i)
        invariant trace[index] == Some(w)
        invariant Tracks(acList, result, cursor, zero, w)
      {
        ZZUpperWalk(diag, i);
        TraceStep(trace, index, w, dc, reading);
        ok, cursor, zero, w := VisitAC(acList, reading, result, row, col, cursor, zero, dc, w, index);
        if !ok {
          return;
        }
        index := index + 1;

        if i + 1 == len {
          break;
        }
        UpperMove(diag, i, row, col, rowInc);
        if rowInc {
          row, col := row + 1, col - 1;
        } else {
          row, col := row - 1, col + 1;
        }
        i := i + 1;
      }
    }

    /** The step from the last cell of anti-diagonal d to the first cell of the next one. */
    method TurnLower(ghost d: int, row0: int, col0: int, rowInc0: bool) returns (row: int, col: int, rowInc: bool)
      requires 0 <= d < 7 && (row0, col0) == LowerCell(d, d) && rowInc0 == (d % 2 == 1)
      ensures (row, col) == LowerCell(d + 1, 0) && rowInc == ((d + 1) % 2 == 1)
    {
      LowerTurn(d, row0, col0, rowInc0);
      row, col := row0, col0;
      if rowInc0 {
        row := row + 1;
        rowInc := false;
      } else {
        col := col + 1;
        rowInc := true;
      }
    }

    /** The step from the last cell of diagonal diag of the second half to the first cell of the next one. */
    method TurnUpper(diag: int, row0: int, col0: int, rowInc0: bool) returns (row: int, col: int, rowInc: bool)
      requires 1 <= diag <= 7 && (row0, col0) == UpperCell(diag, diag - 1) && rowInc0 == (diag % 2 == 0)
      ensures (row, col) == UpperCell(diag - 1, 0) && rowInc == ((diag - 1) % 2 == 0)
    {
      var m, n := BlockSize, BlockSize;
      UpperTurn(diag, row0, col0, rowInc0);
      row, col, rowInc := row0, col0, rowInc0;
      if row == 0 || col == m - 1 {
        if col == m - 1 {
          row := row + 1;
        } else {
          col := col + 1;
        }
        rowInc := true;
      } else if col == 0 || row == n - 1 {
        if row == n - 1 {
          col := col + 1;
        } else {
          row := row + 1;
        }
        rowInc := false;
      }
    }

    /** One cell of the first half: cell (0, 0) takes the DC amplitude, any other cell is an AC step. */
    method Visit(acList: seq<AC>, dc: int, reading: Reading, result: array2<int>, row: int, col: int,
                 cursor: int, zero: bool, ghost w: Walk, ghost k: int)
      returns (ok: bool, cursor': int, zero': bool, ghost w': Walk)
      requires 0 <= k < 64 && ZZ(k) == (row, col)
      requires Distinct(acList) && Tracks(acList, result, cursor, zero, w)
      modifies result, acList
      ensures ok <==> Step(w, k, dc, reading).Some?
      ensures ok ==> w' == Step(w, k, dc, reading).value
      ensures ok ==> Tracks(acList, result, cursor', zero', w')
    {
      assert ZZ(0) == (0, 0);
      if row == 0 && col == 0 {
        ZZInjective(k, 0);
        Write(result, 0, 0, dc, w.out, 0);
        ok, cursor', zero', w' := true, cursor, zero, w.(out := w.out[0 := dc]);
      } else {
        ok, cursor', zero', w' := VisitAC(acList, reading, result, row, col, cursor, zero, dc, w, k);
      }
    }

    /**
     * The AC step at cell (row, col), position k: nothing for the marker; a run length above
     * zero is counted down and raises the flag; a run of zero after a counted run moves the
     * cursor on (and, under the intended reading, writes the amplitude); otherwise the
     * amplitude is written and the cursor moves on. A cursor past the list is the exception.
     */
    method VisitAC(acList: seq<AC>, reading: Reading, result: array2<int>, row: int, col: int,
                   cursor: int, zero: bool, ghost dc: int, ghost w: Walk, ghost k: int)
      returns (ok: bool, cursor': int, zero': bool, ghost w': Walk)
      requires 1 <= k < 64 && ZZ(k) == (row, col)
      requires Distinct(acList) && Tracks(acList, result, cursor, zero, w)
      modifies result, acList
      ensures ok <==> Step(w, k, dc, reading).Some?
      ensures ok ==> w' == Step(w, k, dc, reading).value && Tracks(acList, result, cursor', zero', w')
    {
      cursor', zero', w' := cursor, zero, w;
      if cursor >= |acList| {
        return false, cursor', zero', w';
      }
      ok := true;
      w' := Step(w, k, dc, reading).value;
      var ac := acList[cursor];
      if ac.size != 0 || ac.amplitude != 0 {
        if ac.runLength > 0 {
          zero' := true;
          Decrement(acList, cursor);
        } else if ac.runLength == 0 && zero {
          cursor' := cursor + 1;
          zero' := false;
          if reading == Intended {
            Write(result, row, col, ac.amplitude, w.out, k);
          }
        } else {
          Write(result, row, col, ac.amplitude, w.out, k);
          cursor' := cursor + 1;
        }
      }
    }

    /** result[row][col] = value: the grid then holds out with position k replaced. */
    method Write(result: array2<int>, row: int, col: int, value: int, ghost out: seq<int>, ghost k: int)
      requires Matches(result, out) && 0 <= k < 64 && ZZ(k) == (row, col)
      modifies result
      ensures Matches(result, out[k := value])
    {
      result[row, col] := value;
      forall j | 0 <= j < 64
        ensures Grid(result)[j] == out[k := value][j]
      {
        ZZInjective(j, k);
      }
    }

    /** acList.get(i).decrementRunLength(): term i loses one from its run length, the others stay. */
    method Decrement(acList: seq<AC>, i: int)
      requires Distinct(acList) && 0 <= i < |acList|
      modifies acList[i]
      ensures Snapshot(acList) == old(Snapshot(acList))[i := old(Snapshot(acList))[i].(runLength := old(Snapshot(acList))[i].runLength - 1)]
    {
      ghost var before := Snapshot(acList);
      acList[i].DecrementRunLength();
      DistinctAt(acList, i);
      assert forall j :: 0 <= j < |acList| && j != i ==> acList[j].Value() == before[j];
    }

    /**
     * entropyDecoding: record index goes to block index / 3 of the Y, U or V list, chosen by
     * index % 3. The block is looked up before its record is decoded, so a record without a
     * block ends the loop (the IndexOutOfBoundsException), as does a record the walk throws on;
     * the records before it stay decoded. ok is whether every record went through.
     */
    method EntropyDecoding(list: seq<Entropy>, reading: Reading) returns (ok: bool)
      requires Sized(yBlocks) && Sized(uBlocks) && Sized(vBlocks)
      requires Separate(list) && Unshared(yBlocks, uBlocks, vBlocks)
      modifies Arrays(yBlocks), Arrays(uBlocks), Arrays(vBlocks), Objects(list)
      ensures ok <==> forall j :: 0 <= j < |list| ==>
        HasTarget(j, yBlocks, uBlocks, vBlocks) && Decode(list[j].dc.amplitude, old(Snapshot(list[j].acList)), reading).Some?
      ensures ok ==> forall j :: 0 <= j < |list| ==>
        HasTarget(j, yBlocks, uBlocks, vBlocks) &&
        Decoded(Target(j, yBlocks, uBlocks, vBlocks), list[j].dc.amplitude, old(Snapshot(list[j].acList)), reading)
    {
      ghost var terms := Snapshots(list);
      var index := 0;
      while index < |list|
        invariant 0 <= index <= |list|
        invariant forall j :: 0 <= j < index ==>
          HasTarget(j, yBlocks, uBlocks, vBlocks) &&
          Decoded(Target(j, yBlocks, uBlocks, vBlocks), list[j].dc.amplitude, terms[j], reading)
        invariant forall j :: index <= j < |list| ==> Snapshot(list[j].acList) == terms[j]
      {
        ObjectsHas(list, index);
        if HasTarget(index, yBlocks, uBlocks, vBlocks) {
          assert Target(index, yBlocks, uBlocks, vBlocks).values in Arrays(Source(index, yBlocks, uBlocks, vBlocks));
        }
        ok := DecodeRecord(list, index, reading, terms);
        if !ok {
          return;
        }
        index := index + 1;
      }
      ok := true;
    }

    /**
     * One turn of the loop of entropyDecoding: the block of record index is looked up, then the
     * record is decoded into it. Only that record's AC objects and that block's grid change, so
     * the records before it stay decoded and those after it keep their terms.
     */
    method DecodeRecord(list: seq<Entropy>, index: int, reading: Reading, ghost terms: seq<seq<Term>>) returns (ok: bool)
      requires Sized(yBlocks) && Sized(uBlocks) && Sized(vBlocks)
      requires Separate(list) && Unshared(yBlocks, uBlocks, vBlocks) && 0 <= index < |list| == |terms|
      requires forall j :: index <= j < |list| ==> Snapshot(list[j].acList) == terms[j]
      modifies list[index].acList
      modifies if HasTarget(index, yBlocks, uBlocks, vBlocks) then {Target(index, yBlocks, uBlocks, vBlocks).values} else {}
      ensures ok <==> HasTarget(index, yBlocks, uBlocks, vBlocks) && Decode(list[index].dc.amplitude, terms[index], reading).Some?
      ensures ok ==> Decoded(Target(index, yBlocks, uBlocks, vBlocks), list[index].dc.amplitude, terms[index], reading)
      ensures forall j :: HasTarget(j, yBlocks, uBlocks, vBlocks) && j != index ==> unchanged(Target(j, yBlocks, uBlocks, vBlocks).values)
      ensures forall j :: index < j < |list| ==> Snapshot(list[j].acList) == terms[j]
    {
      var blocks := if index % 3 == 0 then yBlocks else if index % 3 == 1 then uBlocks else vBlocks;
      if index / 3 >= |blocks| {
        return false;
      }
      var target := blocks[index / 3];
      assert target == Target(index, yBlocks, uBlocks, vBlocks);
      ok := DecodeInto(list[index], target, reading);
      forall j | index < j < |list|
        ensures Snapshot(list[j].acList) == terms[j]
      {
        var acs := list[j].acList;
        forall k | 0 <= k < |acs|
          ensures acs[k].Value() == old(acs[k].Value())
        {
          SeparateApart(list, index, j, acs[k]);
        }
      }
      forall j | HasTarget(j, yBlocks, uBlocks, vBlocks) && j != index
        ensures Target(j, yBlocks, uBlocks, vBlocks).values != target.values
      {
      }
    }

    /** blocks.get(i).modifyValues(zigZagMatrix(entropy)): the block's grid becomes the decoded coefficients. */
    method DecodeInto(entropy: Entropy, target: Block, reading: Reading) returns (ok: bool)
      requires Distinct(entropy.acList) && target.Valid() && target.size == BlockSize
      modifies entropy.acList, target.values
      ensures var d := Decode(entropy.dc.amplitude, old(Snapshot(entropy.acList)), reading);
        (ok <==> d.Some?) && (ok ==> Holds(target, d.value.out) && Snapshot(entropy.acList) == d.value.terms)
    {
      var grid;
      ok, grid := ZigZagMatrix(entropy, reading);
      if ok {
        target.ModifyValues(grid);
      }
    }

    /**
     * convertBlocksToMatrices: the Y, U and V planes are made height x width and all zero, and the
     * blocks are copied in, block i of each list at block row line and block column column with
     * i == line * wd + column, wd == width / 8 blocks to a row. A missing block or a block the
     * plane cannot hold is the exception: ok is false, and the planes' contents are then not stated.
     */
    method ConvertBlocksToMatrices() returns (ok: bool)
      requires Sized(yBlocks) && Sized(uBlocks) && Sized(vBlocks)
      modifies this
      ensures fresh(y) && fresh(u) && fresh(v)
      ensures y.Length0 == height && y.Length1 == width && u.Length0 == height && u.Length1 == width
      ensures v.Length0 == height && v.Length1 == width
      ensures ok <==> Fits(height / BlockSize, width / BlockSize, |yBlocks|, |uBlocks|, |vBlocks|)
      ensures ok ==> var hd, wd := height / BlockSize, width / BlockSize;
        hd * wd <= |yBlocks| && hd * wd <= |uBlocks| && hd * wd <= |vBlocks| &&
        Assembled(y, yBlocks, hd, wd) && Assembled(u, uBlocks, hd, wd) && Assembled(v, vBlocks, hd, wd)
    {
      var hd := height / BlockSize;
      var wd := width / BlockSize;
      var yPlane := new real[height, width]((_, _) => 0.0);
      var uPlane := new real[height, width]((_, _) => 0.0);
      var vPlane := new real[height, width]((_, _) => 0.0);
      y, u, v := yPlane, uPlane, vPlane;
      ghost var fits := Fits(hd, wd, |yBlocks|, |uBlocks|, |vBlocks|);
      assert Apart(yPlane) && Apart(uPlane) && Apart(vPlane) by {
        assert forall a :: a in Arrays(yBlocks) + Arrays(uBlocks) + Arrays(vBlocks) ==> allocated(a) && !fresh(a);
      }
      PlaneHoldsStart(yPlane, yBlocks, hd, wd);
      PlaneHoldsStart(uPlane, uBlocks, hd, wd);
      PlaneHoldsStart(vPlane, vBlocks, hd, wd);
      ok := CopyAll();
      if ok {
        PlaneAssembled(yPlane, yBlocks, hd, wd);
        PlaneAssembled(uPlane, uBlocks, hd, wd);
        PlaneAssembled(vPlane, vBlocks, hd, wd);
      }
    }

    /**
     * The loop of convertBlocksToMatrices: block after block, row by row, until the last block
     * row is complete. ok is false where a block is missing or would not fit in the planes.
     */
    method CopyAll() returns (ok: bool)
      requires Sized(yBlocks) && Sized(uBlocks) && Sized(vBlocks)
      requires y != u && u != v && y != v && Apart(y) && Apart(u) && Apart(v)
      requires y.Length0 == height && u.Length0 == height && v.Length0 == height
      requires y.Length1 == width && u.Length1 == width && v.Length1 == width
      requires var hd, wd := height / BlockSize, width / BlockSize;
        PlaneHolds(y, yBlocks, hd, wd, 0) && PlaneHolds(u, uBlocks, hd, wd, 0) && PlaneHolds(v, vBlocks, hd, wd, 0)
      modifies y, u, v
      ensures ok <==> Fits(height / BlockSize, width / BlockSize, |yBlocks|, |uBlocks|, |vBlocks|)
      ensures ok ==> var hd, wd := height / BlockSize, width / BlockSize;
        hd * wd <= |yBlocks| && hd * wd <= |uBlocks| && hd * wd <= |vBlocks| &&
        PlaneHolds(y, yBlocks, hd, wd, hd * wd) && PlaneHolds(u, uBlocks, hd, wd, hd * wd) &&
        PlaneHolds(v, vBlocks, hd, wd, hd * wd)
    {
      var hd := height / BlockSize;
      var wd := width / BlockSize;
      ghost var fits := Fits(hd, wd, |yBlocks|, |uBlocks|, |vBlocks|);
      var line, column, currentBlock := 0, 0, 0;
      while true
        invariant 0 <= line && 0 <= column <= wd && currentBlock == BlockIndex(wd, line, column)
        invariant line < hd || line == 0
        invariant wd == 0 ==> line == 0
        invariant 0 <= currentBlock <= |yBlocks| && currentBlock <= |uBlocks| && currentBlock <= |vBlocks|
        invariant PlaneHolds(y, yBlocks, hd, wd, currentBlock)
        invariant PlaneHolds(u, uBlocks, hd, wd, currentBlock)
        invariant PlaneHolds(v, vBlocks, hd, wd, currentBlock)
        decreases |yBlocks| - currentBlock
      {
        if column == wd && line == hd - 1 {
          RowEnd(wd, line);
          break;
        } else if column == wd {
          RowEnd(wd, line);
          column := 0;
          line := line + 1;
        }
        if fits {
          assert 0 <= line < hd && 0 <= column < wd;
          FitsInRange(hd, wd, line, column, |yBlocks|, |uBlocks|, |vBlocks|);
        }
        if currentBlock >= |yBlocks| || currentBlock >= |uBlocks| || currentBlock >= |vBlocks| {
          return false;
        }
        var yBlock, uBlock, vBlock := yBlocks[currentBlock], uBlocks[currentBlock], vBlocks[currentBlock];
        if line >= hd || column >= wd {
          // The block would reach past the last row or column of the plane.
          return false;
        }
        BlockFits(line, height);
        BlockFits(column, width);
        CopyBlocks(yBlock, uBlock, vBlock, line, column, hd, wd, currentBlock);
        column := column + 1;
        currentBlock := currentBlock + 1;
      }
      ok := true;
    }

    /** One turn of the loop of convertBlocksToMatrices: block n of each list goes to its plane. */
    method CopyBlocks(yBlock: Block, uBlock: Block, vBlock: Block, line: int, column: int, ghost hd: int, ghost wd: int, ghost n: int)
      requires Sized(yBlocks) && Sized(uBlocks) && Sized(vBlocks)
      requires 0 <= n < |yBlocks| && n < |uBlocks| && n < |vBlocks|
      requires yBlock == yBlocks[n] && uBlock == uBlocks[n] && vBlock == vBlocks[n]
      requires y != u && u != v && y != v && Apart(y) && Apart(u) && Apart(v)
      requires y.Length0 == u.Length0 == v.Length0 && y.Length1 == u.Length1 == v.Length1
      requires 0 <= line < hd && 0 <= column < wd && n == BlockIndex(wd, line, column)
      requires (line + 1) * BlockSize <= y.Length0 && (column + 1) * BlockSize <= y.Length1
      requires PlaneHolds(y, yBlocks, hd, wd, n) && PlaneHolds(u, uBlocks, hd, wd, n) && PlaneHolds(v, vBlocks, hd, wd, n)
      modifies y, u, v
      ensures PlaneHolds(y, yBlocks, hd, wd, n + 1) && PlaneHolds(u, uBlocks, hd, wd, n + 1)
      ensures PlaneHolds(v, vBlocks, hd, wd, n + 1)
    {
      CopyBlock(y, yBlock, line, column, yBlocks, hd, wd, n);
      CopyBlock(u, uBlock, line, column, uBlocks, hd, wd, n);
      CopyBlock(v, vBlock, line, column, vBlocks, hd, wd, n);
    }

    /** No block of the three lists has p as its grid. */
    predicate Apart(p: array2<real>) {
      p !in Arrays(yBlocks) && p !in Arrays(uBlocks) && p !in Arrays(vBlocks)
    }

    /** Copies block n into the plane at block row line and block column column, sample by sample. */
    method CopyBlock(plane: array2<real>, block: Block, line: int, column: int, ghost blocks: seq<Block>,
                     ghost hd: int, ghost wd: int, ghost n: int)
      requires Sized(blocks) && 0 <= n < |blocks| && block == blocks[n] && plane !in Arrays(blocks)
      requires 0 <= line < hd && 0 <= column < wd && n == BlockIndex(wd, line, column)
      requires (line + 1) * BlockSize <= plane.Length0 && (column + 1) * BlockSize <= plane.Length1
      requires PlaneHolds(plane, blocks, hd, wd, n)
      modifies plane
      ensures PlaneHolds(plane, blocks, hd, wd, n + 1)
    {
      assert block.values in Arrays(blocks);
      var blockLine := 0;
      while blockLine < BlockSize
        invariant 0 <= blockLine <= BlockSize
        invariant forall r, c :: 0 <= r < plane.Length0 && 0 <= c < plane.Length1 ==>
          plane[r, c] == if r / BlockSize == line && c / BlockSize == column && r % BlockSize < blockLine
            then block.values[r % BlockSize, c % BlockSize] else old(plane[r, c])
      {
        var blockColumn := 0;
        while blockColumn < BlockSize
          invariant 0 <= blockColumn <= BlockSize
          invariant forall r, c :: 0 <= r < plane.Length0 && 0 <= c < plane.Length1 ==>
            plane[r, c] == if r / BlockSize == line && c / BlockSize == column &&
              (r % BlockSize < blockLine || (r % BlockSize == blockLine && c % BlockSize < blockColumn))
              then block.values[r % BlockSize, c % BlockSize] else old(plane[r, c])
        {
          plane[line * BlockSize + blockLine, column * BlockSize + blockColumn] := block.GetValue(blockLine, blockColumn);
          blockColumn := blockColumn + 1;
        }
        blockLine := blockLine + 1;
      }
      forall r, c | 0 <= r < plane.Length0 && 0 <= c < plane.Length1
        ensures plane[r, c] == Expected(blocks, hd, wd, n + 1, r, c)
      {
        ExpectedStep(blocks, hd, wd, n, line, column, r, c);
      }
    }
  }
}
