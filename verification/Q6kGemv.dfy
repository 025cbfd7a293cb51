/**
  The Q6_K matrix-vector kernels (`tinygrad/llm/decode_kernels.py`). Both store partial sums that are added up
  outside: the cooperative kernel one partial per position in a group of sixteen, the other kernel one partial
  per stretch of blocks.

  `CoopSumsToRow` and `PartsSumToRow` compare the partials with the dot product of the dequantised row. The
  second kernel divides its blocks with a truncating division, so it covers the row exactly when the number of
  parts divides the number of blocks.
 */
module Q6kGemv {
  import opened IndexMath
  import opened KQuant
  import opened Sums

  const POSITIONS: nat := 16

  predicate Validates(k: nat) { k % BLOCK_ELEMS == 0 }

  // ---------------------------------------------------------------- the reference

  function Weight(p: Problem, i: nat): real {
    Q6Element(p.mem, p.f16, i / BLOCK_ELEMS * Q6K_BYTES, i % BLOCK_ELEMS)
  }

  function RowTerm(p: Problem, row: nat): nat -> real { (j: nat) => Weight(p, row * p.k + j) * p.x(j) }

  function RowDot(p: Problem, row: nat): real { PrefixSum(RowTerm(p, row), p.k) }

  // ---------------------------------------------------------------- one position of one block

  function Base(p: Problem, row: nat, blk: nat): nat { (row * KBlocks(p.k) + blk) * Q6K_HALFWORDS }

  function BlockTerm(p: Problem, row: nat, blk: nat): nat -> real { Shifted(RowTerm(p, row), blk * BLOCK_ELEMS) }

  /** The sixteen terms of a block at one position: one in each group. */
  function PosTerm(p: Problem, row: nat, blk: nat, pos: nat): nat -> real {
    (grp: nat) => BlockTerm(p, row, blk)(grp * 16 + pos)
  }

  function BlockDotOf(p: Problem, row: nat): (nat, nat) -> real {
    (pos: nat, blk: nat) => PrefixSum(PosTerm(p, row, blk, pos), 16)
  }

  lemma TermOfElement(p: Problem, row: nat, blk: nat, e: nat)
    requires Validates(p.k) && e < BLOCK_ELEMS
    ensures
      BlockTerm(p, row, blk)(e) == Q6Element(p.mem, p.f16, 2 * Base(p, row, blk), e) * p.x(blk * BLOCK_ELEMS + e)
  {
    hide Q6Element;
    FlatIndex(row, KBlocks(p.k), blk, e);
    assert KBlocks(p.k) * BLOCK_ELEMS == p.k;
    assert 2 * Base(p, row, blk) == (row * KBlocks(p.k) + blk) * Q6K_BYTES;
  }

  /** The product the kernel adds for one group is the reference's term for that element. */
  lemma GroupTerm(p: Problem, row: nat, blk: nat, grp: nat, pos: nat)
    requires Validates(p.k) && grp < 16 && pos < 16
    ensures
      Q6KernelWeight(p.mem, p.f16, Base(p, row, blk), grp, pos) * p.x(blk * BLOCK_ELEMS + (grp * 16 + pos)) ==
      PosTerm(p, row, blk, pos)(grp)
  {
    hide Q6KernelWeight, Q6Element, BlockTerm, Validates, Base;
    Q6KernelWeightIsElement(p.mem, p.f16, Base(p, row, blk), grp, pos);
    TermOfElement(p, row, blk, grp * 16 + pos);
  }

  method BlockDot(p: Problem, ghost row: nat, base: nat, blk: nat, pos: nat) returns (contrib: real)
    requires Validates(p.k) && pos < 16 && base == Base(p, row, blk)
    ensures contrib == BlockDotOf(p, row)(pos, blk)
  {
    hide PosTerm, Q6KernelWeight, Base;
    contrib := 0.0;
    for grp := 0 to 16
      invariant contrib == PrefixSum(PosTerm(p, row, blk, pos), grp)
    {
      GroupTerm(p, row, blk, grp, pos);
      contrib := contrib + Q6KernelWeight(p.mem, p.f16, base, grp, pos) * p.x(blk * BLOCK_ELEMS + (grp * 16 + pos));
    }
  }

  function ByGroup(f: nat -> real): (nat, nat) -> real { (pos: nat, grp: nat) => f(grp * 16 + pos) }

  lemma GroupIsStretch(f: nat -> real, grp: nat)
    ensures StretchSum(f, 16)(grp) == ColumnSums(ByGroup(f), 16)(grp)
  {
    PrefixSumCongruent(Shifted(f, grp * 16), Column(ByGroup(f), grp), 16);
  }

  lemma SixteenBySixteen(f: nat -> real)
    ensures PrefixSum(f, 16 * 16) == PrefixSum(LineSums(ByGroup(f), 16), 16)
  {
    hide StretchSum, ColumnSums, LineSums, ByGroup, PrefixSum;
    SumNest(f, 16, 16);
    forall grp: nat | grp < 16
      ensures StretchSum(f, 16)(grp) == ColumnSums(ByGroup(f), 16)(grp)
    {
      GroupIsStretch(f, grp);
    }
    PrefixSumCongruent(StretchSum(f, 16), ColumnSums(ByGroup(f), 16), 16);
    SumSwap(ByGroup(f), 16, 16);
  }

  lemma PositionIsLine(p: Problem, row: nat, blk: nat, pos: nat)
    ensures LineSums(ByGroup(BlockTerm(p, row, blk)), 16)(pos) == Column(BlockDotOf(p, row), blk)(pos)
  {
    hide BlockTerm;
    PrefixSumCongruent(Line(ByGroup(BlockTerm(p, row, blk)), pos), PosTerm(p, row, blk, pos), 16);
  }

  lemma BlockSums(p: Problem, row: nat, blk: nat)
    ensures StretchSum(RowTerm(p, row), BLOCK_ELEMS)(blk) == PrefixSum(BlockTerm(p, row, blk), 16 * 16)
    ensures ColumnSums(BlockDotOf(p, row), POSITIONS)(blk) == PrefixSum(Column(BlockDotOf(p, row), blk), 16)
  {
    hide BlockDotOf, RowTerm, PrefixSum;
  }

  /** The sixteen positions of a block make up the block. */
  lemma BlockIsPositions(p: Problem, row: nat, blk: nat)
    ensures ColumnSums(BlockDotOf(p, row), POSITIONS)(blk) == StretchSum(RowTerm(p, row), BLOCK_ELEMS)(blk)
  {
    hide PrefixSum, LineSums, ColumnSums, StretchSum, Column, BlockDotOf, RowTerm, BlockTerm;
    var lines, column := LineSums(ByGroup(BlockTerm(p, row, blk)), 16), Column(BlockDotOf(p, row), blk);
    BlockSums(p, row, blk);
    SixteenBySixteen(BlockTerm(p, row, blk));
    forall pos: nat | pos < 16
      ensures lines(pos) == column(pos)
    {
      PositionIsLine(p, row, blk, pos);
    }
    PrefixSumCongruent(lines, column, 16);
  }

  /** All positions of the first n blocks make up the first n * 256 terms of the row. */
  lemma BlocksArePrefix(p: Problem, row: nat, n: nat)
    ensures PrefixSum(ColumnSums(BlockDotOf(p, row), POSITIONS), n) == PrefixSum(RowTerm(p, row), n * BLOCK_ELEMS)
  {
    hide ColumnSums, StretchSum, BlockDotOf, RowTerm;
    var positions, blocks := ColumnSums(BlockDotOf(p, row), POSITIONS), StretchSum(RowTerm(p, row), BLOCK_ELEMS);
    forall blk: nat | blk < n
      ensures positions(blk) == blocks(blk)
    {
      BlockIsPositions(p, row, blk);
    }
    PrefixSumCongruent(positions, blocks, n);
    SumNest(RowTerm(p, row), n, BLOCK_ELEMS);
  }

  // ---------------------------------------------------------------- the cooperative kernel

  /** What the cooperative kernel stores at [row, pos]. */
  function CoopPartial(p: Problem, row: nat): nat -> real { LineSums(BlockDotOf(p, row), KBlocks(p.k)) }

  /** Adding the sixteen cooperative partials gives the dot product of the row. */
  lemma CoopSumsToRow(p: Problem, row: nat)
    requires Validates(p.k)
    ensures PrefixSum(CoopPartial(p, row), POSITIONS) == RowDot(p, row)
  {
    hide LineSums, ColumnSums, BlockDotOf, RowTerm;
    SumSwap(BlockDotOf(p, row), POSITIONS, KBlocks(p.k));
    BlocksArePrefix(p, row, KBlocks(p.k));
  }

  method CoopAt(p: Problem, row: nat, pos: nat) returns (acc: real)
    requires Validates(p.k) && pos < POSITIONS
    ensures acc == CoopPartial(p, row)(pos)
  {
    hide BlockDotOf, Base;
    ghost var line := Line(BlockDotOf(p, row), pos);
    acc := 0.0;
    for blk := 0 to KBlocks(p.k)
      invariant acc == PrefixSum(line, blk)
    {
      var contrib := BlockDot(p, row, Base(p, row, blk), blk, pos);
      acc := acc + contrib;
    }
  }

  ghost predicate CoopDone(p: Problem, partials: array2<real>, row: nat)
    requires partials.Length0 == p.rows && partials.Length1 == POSITIONS && row < p.rows
    reads partials
  {
    forall pos: nat :: pos < POSITIONS ==> partials[row, pos] == CoopPartial(p, row)(pos)
  }

  /** The launch grid: tiles of rows, rows in a tile, positions. Every partial of every row is stored. */
  method Coop(p: Problem, rowTile: nat, partials: array2<real>)
    requires Validates(p.k) && rowTile >= 1 && p.rows % rowTile == 0
    requires partials.Length0 == p.rows && partials.Length1 == POSITIONS
    modifies partials
    ensures forall row: nat :: row < p.rows ==> CoopDone(p, partials, row)
  {
    var tiles := p.rows / rowTile;
    DivModOf(p.rows, rowTile);
    assert tiles * rowTile == p.rows;
    for rowO := 0 to tiles
      invariant forall r: nat :: r < rowO * rowTile && r < p.rows ==> CoopDone(p, partials, r)
    {
      MulMono(rowTile, rowO + 1, tiles);
      assert (rowO + 1) * rowTile == rowO * rowTile + rowTile;
      for rowI := 0 to rowTile
        invariant forall r: nat :: r < rowO * rowTile + rowI && r < p.rows ==> CoopDone(p, partials, r)
      {
        CoopRow(p, rowO * rowTile + rowI, partials);
      }
    }
  }

  method CoopRow(p: Problem, row: nat, partials: array2<real>)
    requires Validates(p.k) && row < p.rows && partials.Length0 == p.rows && partials.Length1 == POSITIONS
    modifies partials
    ensures CoopDone(p, partials, row)
    ensures forall r: nat :: r < p.rows && r != row && old(CoopDone(p, partials, r)) ==> CoopDone(p, partials, r)
  {
    hide CoopPartial;
    for pos := 0 to POSITIONS
      invariant forall q: nat :: q < pos ==> partials[row, q] == CoopPartial(p, row)(q)
      invariant forall r: nat, q: nat :: r < p.rows && r != row && q < POSITIONS ==>
        partials[r, q] == old(partials[r, q])
    {
      var acc := CoopAt(p, row, pos);
      partials[row, pos] := acc;
    }
  }

  /** The scalar reduction over the partials. */
  method Reduce(p: Problem, partials: array2<real>, out: array<real>)
    requires Validates(p.k) && partials.Length0 == p.rows && partials.Length1 == POSITIONS && out.Length == p.rows
    requires forall row: nat :: row < p.rows ==> CoopDone(p, partials, row)
    modifies out
    ensures forall row :: 0 <= row < p.rows ==> out[row] == RowDot(p, row)
  {
    hide CoopPartial, RowDot;
    for row := 0 to p.rows
      invariant forall r :: 0 <= r < row ==> out[r] == RowDot(p, r)
    {
      var total := 0.0;
      for pos := 0 to POSITIONS
        invariant total == PrefixSum(CoopPartial(p, row), pos)
      {
        assert CoopDone(p, partials, row);
        total := total + partials[row, pos];
      }
      CoopSumsToRow(p, row);
      out[row] := total;
    }
  }

  // ---------------------------------------------------------------- the partial kernel

  /** cdiv of nonnegative numbers: C's truncating division, and 0 for a zero divisor. */
  function Cdiv(x: nat, y: nat): nat { if y == 0 then 0 else x / y }

  /** What the partial kernel stores at [row, part]. */
  function PartPartial(p: Problem, row: nat, n: nat): nat -> real {
    StretchSum(ColumnSums(BlockDotOf(p, row), POSITIONS), n)
  }

  /** The accumulation loop over `count` blocks from `first` on. */
  method StretchOf(p: Problem, row: nat, first: nat, count: nat) returns (acc: real)
    requires Validates(p.k) && first + count <= KBlocks(p.k)
    ensures acc == PrefixSum(Shifted(ColumnSums(BlockDotOf(p, row), POSITIONS), first), count)
  {
    hide BlockDotOf, KBlocks, ColumnSums;
    acc := 0.0;
    for blkPart := 0 to count
      invariant acc == PrefixSum(Shifted(ColumnSums(BlockDotOf(p, row), POSITIONS), first), blkPart)
    {
      var block := PositionsOf(p, row, first + blkPart);
      acc := acc + block;
    }
  }

  method PartAt(p: Problem, row: nat, part: nat, parts: nat) returns (acc: real)
    requires Validates(p.k) && part < parts
    ensures acc == PartPartial(p, row, Cdiv(KBlocks(p.k), parts))(part)
  {
    var blocksPerPart := Cdiv(KBlocks(p.k), parts);
    GuardAlwaysHolds(KBlocks(p.k), parts, part);
    hide Cdiv, KBlocks, BlockDotOf, PrefixSum;
    acc := StretchOf(p, row, part * blocksPerPart, blocksPerPart);
  }

  /** The reduction over positions within one block, behind the kernel's guard `blk < k_blocks`. */
  method PositionsOf(p: Problem, row: nat, blk: nat) returns (acc: real)
    requires Validates(p.k) && blk < KBlocks(p.k)
    ensures acc == ColumnSums(BlockDotOf(p, row), POSITIONS)(blk)
  {
    hide BlockDotOf, Base, KBlocks;
    ghost var column := Column(BlockDotOf(p, row), blk);
    acc := 0.0;
    for pos := 0 to POSITIONS
      invariant acc == PrefixSum(column, pos)
    {
      var contrib := BlockDot(p, row, Base(p, row, blk), blk, pos);
      acc := acc + (if blk < KBlocks(p.k) then contrib else 0.0);
    }
  }

  /** The truncating division never leaves the row, so the guard is never what stops a part. */
  lemma GuardAlwaysHolds(kBlocks: nat, parts: nat, part: nat)
    requires part < parts
    ensures (part + 1) * Cdiv(kBlocks, parts) <= kBlocks
    ensures part * Cdiv(kBlocks, parts) + Cdiv(kBlocks, parts) == (part + 1) * Cdiv(kBlocks, parts)
  {
    var n := Cdiv(kBlocks, parts);
    MulMono(n, part + 1, parts);
    DivModOf(kBlocks, parts);
    assert parts * n == n * parts && (part + 1) * n == n * (part + 1);
  }

  /** The parts together make up the blocks that the truncating division assigns. */
  lemma PartsArePrefix(p: Problem, row: nat, parts: nat)
    requires parts >= 1
    ensures
      var n := Cdiv(KBlocks(p.k), parts);
      PrefixSum(PartPartial(p, row, n), parts) == PrefixSum(RowTerm(p, row), parts * n * BLOCK_ELEMS)
  {
    hide BlockDotOf, RowTerm, ColumnSums;
    var n := Cdiv(KBlocks(p.k), parts);
    SumNest(ColumnSums(BlockDotOf(p, row), POSITIONS), parts, n);
    BlocksArePrefix(p, row, parts * n);
  }

  // ---------------------------------------------------------------- when the parts cover the row

  /** The parts of every row add up to its dot product, whatever the weights and the vector. */
  ghost predicate PartsAlwaysSum(k: nat, f16: F16, parts: nat) {
    forall p: Problem, row: nat :: p.k == k && p.f16 == f16 && row < p.rows ==> PartsSum(p, row, parts)
  }

  ghost predicate PartsSum(p: Problem, row: nat, parts: nat) {
    PrefixSum(PartPartial(p, row, Cdiv(KBlocks(p.k), parts)), parts) == RowDot(p, row)
  }

  /** The bytes of a block with all codes 0, all group scales 1 and block scale h. */
  function PlainByte(h: bv16, i: nat): bv8 {
    if i < 192 then 0 else if i < 208 then 1 else if i == 208 then (h & 0xff) as bv8 else (h >> 8) as bv8
  }

  function PlainBlock(h: bv16): Memory { (a: nat) => PlainByte(h, a % Q6K_BYTES) }

  /** One row of such blocks, and a vector that picks the last weight. */
  function LastWeightOnly(k: nat, f16: F16, h: bv16): Problem {
    Problem(1, k, PlainBlock(h), f16, (j: nat) => if j + 1 == k then 1.0 else 0.0)
  }

  lemma ByteAt(h: bv16, q: nat, a: nat)
    requires a < Q6K_BYTES
    ensures PlainBlock(h)(q * Q6K_BYTES + a) == PlainBlock(h)(a)
  {
    assert q * Q6K_BYTES == Q6K_BYTES * q;
    DivModUnique(q * Q6K_BYTES + a, Q6K_BYTES, q, a);
    DivModUnique(a, Q6K_BYTES, 0, a);
  }

  lemma PlainBytes(h: bv16, a: nat)
    requires a < Q6K_BYTES
    ensures a < 192 ==> PlainBlock(h)(a) == 0
    ensures 192 <= a < 208 ==> PlainBlock(h)(a) == 1
  {
  }

  lemma PlainScale(h: bv16)
    ensures HalfBits(PlainBlock(h)(208), PlainBlock(h)(209)) == h
  {
  }

  lemma PlainCode(h: bv16, q: nat, e: nat)
    requires e < BLOCK_ELEMS
    ensures
      Signed(Q6Stored(PlainBlock(h), q * Q6K_BYTES, e)) == 0.0
  {
    hide PlainBlock;
    var half, r := e / 128, e % 128;
    var low, high := half * 64 + r % 64, 128 + half * 32 + r % 32;
    ByteAt(h, q, low);
    ByteAt(h, q, high);
    PlainBytes(h, low);
    PlainBytes(h, high);
    assert q * Q6K_BYTES + low == q * Q6K_BYTES + half * 64 + r % 64;
    assert q * Q6K_BYTES + high == q * Q6K_BYTES + 128 + half * 32 + r % 32;
    NoBits(r / 64 == 1, r / 32);
    hide Nibble8, Pair8;
    assert Q6Low(PlainBlock(h), q * Q6K_BYTES, e) == 0 && Q6High(PlainBlock(h), q * Q6K_BYTES, e) == 0;
  }

  lemma NoBits(half: bool, pair: nat)
    requires pair < 4
    ensures Nibble8(0, half) == 0 && Pair8(0, pair) == 0 && Signed(0 | 0) == 0.0 && Signed(1) == 1.0
  {
  }

  lemma PlainWeight(k: nat, f16: F16, h: bv16, i: nat)
    ensures Weight(LastWeightOnly(k, f16, h), i) == -32.0 * f16(h)
  {
    hide PlainBlock, Q6Stored, HalfBits;
    var q, e := i / BLOCK_ELEMS, i % BLOCK_ELEMS;
    PlainCode(h, q, e);
    ByteAt(h, q, 192 + e / 16);
    PlainBytes(h, 192 + e / 16);
    ByteAt(h, q, 208);
    ByteAt(h, q, 209);
    PlainScale(h);
    assert q * Q6K_BYTES + (192 + e / 16) == q * Q6K_BYTES + 192 + e / 16;
    NoBits(false, 0);
    hide Signed;
  }

  lemma LastTermOnly(k: nat, f16: F16, h: bv16, n: nat)
    requires k >= 1 && n <= k
    ensures PrefixSum(RowTerm(LastWeightOnly(k, f16, h), 0), n) == if n == k then -32.0 * f16(h) else 0.0
  {
    hide Weight;
    var f := RowTerm(LastWeightOnly(k, f16, h), 0);
    PrefixSumZero(f, if n == k then k - 1 else n);
    if n == k {
      PlainWeight(k, f16, h, k - 1);
    }
  }

  /**
    The truncating division covers every row exactly when the number of parts divides the number of blocks. (h is
    any block scale that is not zero.)
   */
  lemma PartsSumToRow(k: nat, f16: F16, h: bv16, parts: nat)
    requires Validates(k) && parts >= 1 && f16(h) != 0.0
    ensures PartsAlwaysSum(k, f16, parts) <==> KBlocks(k) % parts == 0
  {
    var n := Cdiv(KBlocks(k), parts);
    DivModOf(KBlocks(k), parts);
    assert KBlocks(k) * BLOCK_ELEMS == k && parts * n + KBlocks(k) % parts == KBlocks(k);
    hide PartPartial, RowTerm;
    if KBlocks(k) % parts == 0 {
      forall p: Problem, row: nat | p.k == k && p.f16 == f16 && row < p.rows
        ensures PartsSum(p, row, parts)
      {
        PartsArePrefix(p, row, parts);
      }
    } else {
      var p := LastWeightOnly(k, f16, h);
      PartsArePrefix(p, 0, parts);
      LastTermOnly(k, f16, h, parts * n * BLOCK_ELEMS);
      LastTermOnly(k, f16, h, k);
      assert !PartsSum(p, 0, parts);
    }
  }
}
