/**
  The Q4_K matrix-vector kernel (`tinygrad/llm/decode_kernels.py`): 32 lanes share a row, each reading one
  column of packed words in a quarter of the row's blocks, and a cross-lane sum adds them up.

  `Gemv` shows that this is the plain dot product of the dequantised row (`tinygrad/llm/gguf.py`) with x.
 */
module Q4kGemv {
  import opened IndexMath
  import opened KQuant
  import opened Sums
  import opened WarpReduce

  const LANES: nat := 32
  const BLOCK_GROUPS: nat := 4
  const WORDS_PER_GROUP: nat := 8

  function BlocksPerGroup(k: nat): nat { KBlocks(k) / BLOCK_GROUPS }

  /** The lane map's own checks. */
  predicate Validates(k: nat) {
    && k % BLOCK_ELEMS == 0 && KBlocks(k) % BLOCK_GROUPS == 0
    && LANES == BLOCK_GROUPS * WORDS_PER_GROUP && WORDS_PER_GROUP == 8 && Q4K_WORDS == 36
  }

  lemma ValidatesIff(k: nat)
    ensures Validates(k) <==> k % 1024 == 0
  {
    DivDiv(k, BLOCK_ELEMS, BLOCK_GROUPS);
  }

  // ---------------------------------------------------------------- the reference

  /** Weight number i of the dequantised tensor. */
  function Weight(p: Problem, i: nat): real {
    Q4Element(p.mem, p.f16, i / BLOCK_ELEMS * Q4K_BYTES, i % BLOCK_ELEMS)
  }

  function RowTerm(p: Problem, row: nat): nat -> real { (j: nat) => Weight(p, row * p.k + j) * p.x(j) }

  function RowDot(p: Problem, row: nat): real { PrefixSum(RowTerm(p, row), p.k) }

  // ---------------------------------------------------------------- one lane

  /** The first word of a block of a row. */
  function Base(p: Problem, row: nat, blk: nat): nat { (row * KBlocks(p.k) + blk) * Q4K_WORDS }

  function BlockTerm(p: Problem, row: nat, blk: nat): nat -> real { Shifted(RowTerm(p, row), blk * BLOCK_ELEMS) }

  /** The 32 terms of a block that fall to word column lane4: four quants in each of eight groups. */
  function LaneTerm(p: Problem, row: nat, blk: nat, lane4: nat): nat -> real {
    Line(Interleave(BlockTerm(p, row, blk), WORDS_PER_GROUP, 4), lane4)
  }

  function BlockDotOf(p: Problem, row: nat): (nat, nat) -> real {
    (lane4: nat, blk: nat) => PrefixSum(LaneTerm(p, row, blk, lane4), 32)
  }

  lemma TermOfElement(p: Problem, row: nat, blk: nat, e: nat)
    requires Validates(p.k) && e < BLOCK_ELEMS
    ensures
      BlockTerm(p, row, blk)(e) == Q4Element(p.mem, p.f16, 4 * Base(p, row, blk), e) * p.x(blk * BLOCK_ELEMS + e)
  {
    hide Q4Element;
    FlatIndex(row, KBlocks(p.k), blk, e);
    assert KBlocks(p.k) * BLOCK_ELEMS == p.k;
    assert 4 * Base(p, row, blk) == (row * KBlocks(p.k) + blk) * Q4K_BYTES;
  }

  /** The product the kernel adds for one nibble is the reference's term for that element. */
  lemma NibbleTerm(p: Problem, row: nat, blk: nat, grp: nat, lane4: nat, nib: nat)
    requires Validates(p.k) && grp < 8 && lane4 < 8 && nib < 4
    ensures
      Q4KernelWeight(p.mem, p.f16, Base(p, row, blk), grp, lane4, nib) *
      p.x(blk * BLOCK_ELEMS + grp * 32 + (lane4 * 4 + nib)) ==
      Shifted(LaneTerm(p, row, blk, lane4), grp * 4)(nib)
  {
    hide Q4KernelWeight, Q4Element, BlockTerm, Validates, Interleave, Base, Line;
    var e := grp * 32 + (lane4 * 4 + nib);
    assert Shifted(LaneTerm(p, row, blk, lane4), grp * 4)(nib) == BlockTerm(p, row, blk)(e) by {
      InterleaveAt(BlockTerm(p, row, blk), WORDS_PER_GROUP, 4, grp, lane4, nib);
      assert At(grp, lane4, 0, WORDS_PER_GROUP, 4) + nib == e;
    }
    hide Shifted, LaneTerm;
    Q4KernelWeightIsElement(p.mem, p.f16, Base(p, row, blk), grp, lane4, nib);
    TermOfElement(p, row, blk, e);
  }

  method GroupDot(p: Problem, ghost row: nat, base: nat, blk: nat, grp: nat, lane4: nat) returns (contrib: real)
    requires Validates(p.k) && grp < 8 && lane4 < 8 && base == Base(p, row, blk)
    ensures contrib == PrefixSum(Shifted(LaneTerm(p, row, blk, lane4), grp * 4), 4)
  {
    hide LaneTerm, Q4KernelWeight, Base;
    contrib := 0.0;
    for nib := 0 to 4
      invariant contrib == PrefixSum(Shifted(LaneTerm(p, row, blk, lane4), grp * 4), nib)
    {
      NibbleTerm(p, row, blk, grp, lane4, nib);
      var weight := Q4KernelWeight(p.mem, p.f16, base, grp, lane4, nib);
      contrib := contrib + weight * p.x(blk * BLOCK_ELEMS + grp * 32 + (lane4 * 4 + nib));
    }
  }

  method BlockDot(p: Problem, ghost row: nat, base: nat, blk: nat, lane4: nat) returns (contrib: real)
    requires Validates(p.k) && lane4 < 8 && base == Base(p, row, blk)
    ensures contrib == BlockDotOf(p, row)(lane4, blk)
  {
    hide LaneTerm, Base;
    contrib := 0.0;
    for grp := 0 to 8
      invariant contrib == PrefixSum(LaneTerm(p, row, blk, lane4), grp * 4)
    {
      PrefixSumSplit(LaneTerm(p, row, blk, lane4), grp * 4, 4);
      var group := GroupDot(p, row, base, blk, grp, lane4);
      contrib := contrib + group;
    }
  }

  /** The accumulation loop over `count` blocks from `first` on. */
  method StripeDot(p: Problem, row: nat, wordCol: nat, first: nat, count: nat) returns (acc: real)
    requires Validates(p.k) && wordCol < 8
    ensures acc == PrefixSum(Shifted(Line(BlockDotOf(p, row), wordCol), first), count)
  {
    hide BlockDotOf, Validates, Base;
    ghost var f := Shifted(Line(BlockDotOf(p, row), wordCol), first);
    acc := 0.0;
    for lblk := 0 to count
      invariant acc == PrefixSum(f, lblk)
    {
      var blk := first + lblk;
      var contrib := BlockDot(p, row, Base(p, row, blk), blk, wordCol);
      acc := acc + contrib;
    }
  }

  method LaneDot(p: Problem, row: nat, lane: nat) returns (acc: real)
    requires Validates(p.k) && lane < LANES
    ensures acc == LaneSums(BlockDotOf(p, row), WORDS_PER_GROUP, BlocksPerGroup(p.k))(lane)
  {
    hide BlockDotOf, Validates, PrefixSum, BlocksPerGroup, Line;
    var blocksPerGroup := BlocksPerGroup(p.k);
    var wordCol, blockGroup := lane % WORDS_PER_GROUP, lane / WORDS_PER_GROUP;
    acc := StripeDot(p, row, wordCol, blockGroup * blocksPerGroup, blocksPerGroup);
  }

  // ---------------------------------------------------------------- all lanes

  lemma BlockIsLanes(p: Problem, row: nat, blk: nat)
    ensures ColumnSums(BlockDotOf(p, row), WORDS_PER_GROUP)(blk) == StretchSum(RowTerm(p, row), BLOCK_ELEMS)(blk)
  {
    var f := BlockTerm(p, row, blk);
    MiddleOutermost(f, 8, WORDS_PER_GROUP, 4);
    PrefixSumCongruent(LineSums(Interleave(f, WORDS_PER_GROUP, 4), 8 * 4),
      Column(BlockDotOf(p, row), blk), WORDS_PER_GROUP);
  }

  /** The 32 lanes' sums count every weight of the row once. */
  lemma LanesAreRow(p: Problem, row: nat)
    requires Validates(p.k)
    ensures
      PrefixSum(LaneSums(BlockDotOf(p, row), WORDS_PER_GROUP, BlocksPerGroup(p.k)), LANES) == RowDot(p, row)
  {
    hide ColumnSums, StretchSum, LaneSums, BlockDotOf, RowTerm, PrefixSum;
    var kBlocks, d := KBlocks(p.k), BlockDotOf(p, row);
    var blocksPerGroup := BlocksPerGroup(p.k);
    LanesCover(d, BLOCK_GROUPS, WORDS_PER_GROUP, blocksPerGroup);
    assert BLOCK_GROUPS * blocksPerGroup == kBlocks && kBlocks * BLOCK_ELEMS == p.k;
    var lanes, blocks := ColumnSums(d, WORDS_PER_GROUP), StretchSum(RowTerm(p, row), BLOCK_ELEMS);
    forall blk: nat | blk < kBlocks
      ensures lanes(blk) == blocks(blk)
    {
      BlockIsLanes(p, row, blk);
    }
    PrefixSumCongruent(lanes, blocks, kBlocks);
    SumNest(RowTerm(p, row), kBlocks, BLOCK_ELEMS);
  }

  /** The kernel over its whole launch grid. */
  method Gemv(p: Problem, out: array<real>)
    requires p.k % 1024 == 0 && out.Length == p.rows
    modifies out
    ensures forall row :: 0 <= row < p.rows ==> out[row] == RowDot(p, row)
  {
    ValidatesIff(p.k);
    hide RowDot, BlockDotOf;
    for row := 0 to p.rows
      invariant forall r :: 0 <= r < row ==> out[r] == RowDot(p, r)
    {
      var total := RowTotal(p, row);
      out[row] := total;
    }
  }

  /** The 32 lanes of one row in step, then the cross-lane sum. */
  method RowTotal(p: Problem, row: nat) returns (total: real)
    requires Validates(p.k)
    ensures total == RowDot(p, row)
  {
    hide RowDot, BlockDotOf;
    ghost var f := LaneSums(BlockDotOf(p, row), WORDS_PER_GROUP, BlocksPerGroup(p.k));
    var partials: seq<real> := [];
    for lane := 0 to LANES
      invariant |partials| == lane && forall l :: 0 <= l < lane ==> partials[l] == f(l)
    {
      var acc := LaneDot(p, row, lane);
      partials := partials + [acc];
    }
    assert IsPow2(32);
    SumIsPrefixSum(partials, f);
    LanesAreRow(p, row);
    var totals := WarpReduceSum(partials);
    total := totals[0];
  }
}
