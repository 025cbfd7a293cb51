/**
  Who does what in the flash-decode launch (`tinygrad/llm/flash_decode_attention.py`): which (split, block,
  position) handles a token, which (key/value head, workgroup, warp) handles a query head, and which
  (stage, thread, element) fills a slot of a staged tile. Nothing here depends on the values computed.
 */
module SplitGeometry {
  import opened IndexMath

  const TOKEN_BLOCK: nat := 16

  /** Position tok of block `block` of split `split` is token t. */
  predicate Visits(splits: nat, len: nat, t: nat, split: nat, block: nat, tok: nat) {
    split < splits && block < CeilDiv(len, TOKEN_BLOCK) && tok < TOKEN_BLOCK &&
    t == split * len + block * TOKEN_BLOCK + tok
  }

  ghost predicate Visited(splits: nat, len: nat, t: nat) {
    exists split: nat, block: nat, tok: nat :: Visits(splits, len, t, split, block, tok)
  }

  ghost predicate EveryTokenVisited(splits: nat, len: nat, tc: nat) {
    forall t: nat | t < tc :: Visited(splits, len, t)
  }

  ghost predicate NoTokenVisitedTwice(splits: nat, len: nat, tc: nat) {
    forall t: nat, s1: nat, b1: nat, k1: nat, s2: nat, b2: nat, k2: nat |
      t < tc && Visits(splits, len, t, s1, b1, k1) && Visits(splits, len, t, s2, b2, k2) ::
      s1 == s2 && b1 == b2 && k1 == k2
  }

  lemma BlockEnd(len: nat)
    ensures len <= CeilDiv(len, TOKEN_BLOCK) * TOKEN_BLOCK < len + TOKEN_BLOCK
    ensures len % TOKEN_BLOCK == 0 <==> CeilDiv(len, TOKEN_BLOCK) * TOKEN_BLOCK == len
  {
  }

  /** A position inside a split and its (block, position in block) determine each other. */
  lemma PositionInBlock(len: nat, pos: nat)
    requires pos < CeilDiv(len, TOKEN_BLOCK) * TOKEN_BLOCK
    ensures pos / TOKEN_BLOCK < CeilDiv(len, TOKEN_BLOCK) && pos == pos / TOKEN_BLOCK * TOKEN_BLOCK + pos % TOKEN_BLOCK
  {
  }

  lemma LastSplit(splits: nat, len: nat, split: nat)
    requires split < splits
    ensures split * len <= (splits - 1) * len
  {
    MulMono(len, split, splits - 1);
  }

  /** Some split starts at or before t and, if it walks `walked` >= len positions, reaches it. */
  lemma SplitReaching(splits: nat, len: nat, walked: nat, t: nat) returns (split: nat)
    requires splits >= 1 && 1 <= len <= walked && t < (splits - 1) * len + walked
    ensures split < splits && split * len <= t < split * len + walked
  {
    var q := t / len;
    DivModOf(t, len);
    assert len * q == q * len;
    if q < splits {
      split := q;
    } else {
      split := splits - 1;
      MulMono(len, split, q);
      assert len * split == split * len;
    }
  }

  lemma VisitedBelow(splits: nat, len: nat, t: nat)
    requires splits >= 1 && len >= 1 && t < (splits - 1) * len + CeilDiv(len, TOKEN_BLOCK) * TOKEN_BLOCK
    ensures Visited(splits, len, t)
  {
    hide CeilDiv;
    BlockEnd(len);
    var split := SplitReaching(splits, len, CeilDiv(len, TOKEN_BLOCK) * TOKEN_BLOCK, t);
    var pos := t - split * len;
    PositionInBlock(len, pos);
    assert Visits(splits, len, t, split, pos / TOKEN_BLOCK, pos % TOKEN_BLOCK);
  }

  lemma VisitEnd(splits: nat, len: nat, t: nat)
    requires splits >= 1 && Visited(splits, len, t)
    ensures t < (splits - 1) * len + CeilDiv(len, TOKEN_BLOCK) * TOKEN_BLOCK
  {
    hide CeilDiv;
    var split: nat, block: nat, tok: nat :| Visits(splits, len, t, split, block, tok);
    LastSplit(splits, len, split);
  }

  /** The splits reach every live token exactly when the last block of the last split does. */
  lemma TokensVisitedIff(splits: nat, len: nat, tc: nat)
    requires splits >= 1 && len >= 1 && tc >= 1
    ensures EveryTokenVisited(splits, len, tc) <==> tc <= (splits - 1) * len + CeilDiv(len, TOKEN_BLOCK) * TOKEN_BLOCK
  {
    hide CeilDiv, Visited;
    if EveryTokenVisited(splits, len, tc) {
      VisitEnd(splits, len, tc - 1);
    }
    if tc <= (splits - 1) * len + CeilDiv(len, TOKEN_BLOCK) * TOKEN_BLOCK {
      forall t: nat | t < tc ensures Visited(splits, len, t) {
        VisitedBelow(splits, len, t);
      }
    }
  }

  lemma VisitUnique(splits: nat, len: nat, t: nat, s1: nat, b1: nat, k1: nat, s2: nat, b2: nat, k2: nat)
    requires len >= 1 && (len % TOKEN_BLOCK == 0 || splits == 1 || t < len)
    requires Visits(splits, len, t, s1, b1, k1) && Visits(splits, len, t, s2, b2, k2)
    ensures s1 == s2 && b1 == b2 && k1 == k2
  {
    BlockEnd(len);
    var p1, p2 := b1 * TOKEN_BLOCK + k1, b2 * TOKEN_BLOCK + k2;
    if len % TOKEN_BLOCK == 0 {
      assert len * s1 == s1 * len && len * s2 == s2 * len;
      DivModUnique(t, len, s1, p1);
      DivModUnique(t, len, s2, p2);
    } else if t < len {
      MulMono(len, 1, s1);
      MulMono(len, 1, s2);
    }
    assert s1 == s2;
    assert p1 == p2;
  }

  /**
    No token is walked twice exactly when the split length is a multiple of the token block, or there is
    only one split to hold live tokens. This is what the aligned split length is for.
   */
  lemma TokensVisitedOnceIff(splits: nat, len: nat, tc: nat)
    requires splits >= 1 && len >= 1 && tc >= 1
    ensures NoTokenVisitedTwice(splits, len, tc) <==> len % TOKEN_BLOCK == 0 || splits == 1 || tc <= len
  {
    if len % TOKEN_BLOCK == 0 || splits == 1 || tc <= len {
      forall t: nat, s1: nat, b1: nat, k1: nat, s2: nat, b2: nat, k2: nat |
        t < tc && Visits(splits, len, t, s1, b1, k1) && Visits(splits, len, t, s2, b2, k2)
        ensures s1 == s2 && b1 == b2 && k1 == k2
      {
        VisitUnique(splits, len, t, s1, b1, k1, s2, b2, k2);
      }
    } else {
      // the first token of split 1 is also in the last block of split 0
      assert Visits(splits, len, len, 1, 0, 0);
      assert Visits(splits, len, len, 0, len / TOKEN_BLOCK, len % TOKEN_BLOCK);
    }
  }

  /** The length the launcher computes from tc. */
  function AlignedPerSplitLength(splits: nat, tc: nat): nat
    requires splits >= 1
  {
    CeilDiv(CeilDiv(tc, splits), TOKEN_BLOCK) * TOKEN_BLOCK
  }

  lemma AlignedLengthReaches(splits: nat, tc: nat)
    requires splits >= 1
    ensures CeilDiv(AlignedPerSplitLength(splits, tc), TOKEN_BLOCK) * TOKEN_BLOCK == AlignedPerSplitLength(splits, tc)
    ensures tc <= splits * AlignedPerSplitLength(splits, tc)
  {
    hide CeilDiv;
    CeilDivBounds(tc, splits);
    BlockEnd(CeilDiv(tc, splits));
    BlockEnd(AlignedPerSplitLength(splits, tc));
    MulMono(splits, CeilDiv(tc, splits), AlignedPerSplitLength(splits, tc));
  }

  /** It is the least multiple of the token block with which the splits reach tc. */
  lemma AlignedLengthIsLeast(splits: nat, tc: nat, len: nat)
    requires splits >= 1 && len % TOKEN_BLOCK == 0
    ensures AlignedPerSplitLength(splits, tc) % TOKEN_BLOCK == 0
    ensures tc <= splits * len <==> AlignedPerSplitLength(splits, tc) <= len
  {
    hide CeilDiv;
    var need := CeilDiv(tc, splits);
    AlignedLengthReaches(splits, tc);
    CeilDivBounds(tc, splits);
    BlockEnd(need);
    if tc <= splits * len {
      MulMono(splits, len + 1, need);
      assert splits * (len + 1) == splits * len + splits;
      NextMultiple(need, len, CeilDiv(need, TOKEN_BLOCK));
    } else {
      MulMono(splits, AlignedPerSplitLength(splits, tc), len);
    }
  }

  lemma NextMultiple(need: nat, len: nat, blocks: nat)
    requires len % TOKEN_BLOCK == 0 && need <= len && blocks * TOKEN_BLOCK < need + TOKEN_BLOCK
    ensures blocks * TOKEN_BLOCK <= len
  {
  }

  /** With that length every live token is walked exactly once, whatever the number of splits. */
  lemma AlignedLengthCoversOnce(splits: nat, tc: nat)
    requires splits >= 1 && tc >= 1
    ensures EveryTokenVisited(splits, AlignedPerSplitLength(splits, tc), tc)
    ensures NoTokenVisitedTwice(splits, AlignedPerSplitLength(splits, tc), tc)
  {
    hide CeilDiv, EveryTokenVisited, NoTokenVisitedTwice;
    var len := AlignedPerSplitLength(splits, tc);
    AlignedLengthReaches(splits, tc);
    BlockEnd(len);
    MulMono(splits, len, 0);
    assert splits * len == (splits - 1) * len + len;
    TokensVisitedIff(splits, len, tc);
    TokensVisitedOnceIff(splits, len, tc);
  }

  // ---------------------------------------------------------------- query heads

  /** Warp `warp` of workgroup `group` works on query head `head` of key/value head kvh. */
  predicate Serves(g: nat, qg: nat, hkv: nat, head: nat, kvh: nat, group: nat, warp: nat)
    requires qg >= 1
  {
    kvh < hkv && group < CeilDiv(g, qg) && warp < qg && group * qg + warp < g && head == kvh * g + (group * qg + warp)
  }

  /** Every query head has exactly one active warp; padding warps serve no head. */
  lemma HeadsServedOnce(g: nat, qg: nat, hkv: nat, head: nat)
    requires 1 <= qg <= g && head < hkv * g
    ensures Serves(g, qg, hkv, head, head / g, head % g / qg, head % g % qg)
    ensures forall kvh: nat, group: nat, warp: nat :: Serves(g, qg, hkv, head, kvh, group, warp) ==>
      kvh == head / g && group == head % g / qg && warp == head % g % qg
  {
    hide CeilDiv;
    assert hkv * g == g * hkv;
    RowOf(head, g, hkv);
    CeilDivBounds(g, qg);
    RowOf(head % g, qg, CeilDiv(g, qg));
    assert g * (head / g) == head / g * g && qg * (head % g / qg) == head % g / qg * qg;
    forall kvh: nat, group: nat, warp: nat | Serves(g, qg, hkv, head, kvh, group, warp)
      ensures kvh == head / g && group == head % g / qg && warp == head % g % qg
    {
      ServesUnique(g, qg, hkv, head, kvh, group, warp);
    }
  }

  lemma ServesUnique(g: nat, qg: nat, hkv: nat, head: nat, kvh: nat, group: nat, warp: nat)
    requires 1 <= qg <= g && Serves(g, qg, hkv, head, kvh, group, warp)
    ensures kvh == head / g && group == head % g / qg && warp == head % g % qg
  {
    hide CeilDiv;
    assert kvh * g == g * kvh && group * qg == qg * group;
    DivModUnique(head, g, kvh, group * qg + warp);
    DivModUnique(head % g, qg, group, warp);
  }

  // ---------------------------------------------------------------- staging maps

  /** Element w of thread tid in stage `stage` is slot idx. */
  predicate Fills(threads: nat, width: nat, idx: nat, stage: nat, tid: nat, w: nat) {
    tid < threads && w < width && idx == (stage * threads + tid) * width + w
  }

  lemma FillsUnique(threads: nat, width: nat, idx: nat)
    requires threads >= 1 && width >= 1
    ensures Fills(threads, width, idx, idx / width / threads, idx / width % threads, idx % width)
    ensures forall stage: nat, tid: nat, w: nat :: Fills(threads, width, idx, stage, tid, w) ==>
      stage == idx / width / threads && tid == idx / width % threads && w == idx % width
  {
    DivModOf(idx, width);
    DivModOf(idx / width, threads);
    var q := idx / width;
    assert q / threads * threads == threads * (q / threads) && q * width == width * q;
    forall stage: nat, tid: nat, w: nat | Fills(threads, width, idx, stage, tid, w)
      ensures stage == idx / width / threads && tid == idx / width % threads && w == idx % width
    {
      assert (stage * threads + tid) * width == width * (stage * threads + tid) && stage * threads == threads * stage;
      DivModUnique(idx, width, stage * threads + tid, w);
      DivModUnique(q, threads, stage, tid);
    }
  }

  /** Some thread writes the slot in this stage. */
  ghost predicate FilledIn(threads: nat, width: nat, idx: nat, stage: nat) {
    exists tid: nat, w: nat :: Fills(threads, width, idx, stage, tid, w)
  }

  /** The coalesced map: a tile of so many whole stages has each of its slots written once, and none outside it. */
  lemma CoalescedStagingOnce(total: nat, threads: nat, width: nat, stages: nat, idx: nat)
    requires threads >= 1 && width >= 1 && total == width * (threads * stages)
    ensures idx < total <==> exists stage: nat :: stage < stages && FilledIn(threads, width, idx, stage)
    ensures forall s1: nat, t1: nat, w1: nat, s2: nat, t2: nat, w2: nat ::
      Fills(threads, width, idx, s1, t1, w1) && Fills(threads, width, idx, s2, t2, w2) ==>
        s1 == s2 && t1 == t2 && w1 == w2
  {
    hide Fills, FilledIn, StageOf;
    FilledInItsStage(threads, width, idx);
    SlotsBelow(threads, width, stages, idx);
  }

  /** The stage that writes the slot. */
  function StageOf(threads: nat, width: nat, idx: nat): nat
    requires threads >= 1 && width >= 1
  {
    idx / width / threads
  }

  lemma FilledInItsStage(threads: nat, width: nat, idx: nat)
    requires threads >= 1 && width >= 1
    ensures FilledIn(threads, width, idx, StageOf(threads, width, idx))
    ensures forall s: nat :: FilledIn(threads, width, idx, s) ==> s == StageOf(threads, width, idx)
    ensures forall s1: nat, t1: nat, w1: nat, s2: nat, t2: nat, w2: nat ::
      Fills(threads, width, idx, s1, t1, w1) && Fills(threads, width, idx, s2, t2, w2) ==>
        s1 == s2 && t1 == t2 && w1 == w2
  {
    hide Fills;
    FillsUnique(threads, width, idx);
  }

  lemma SlotsBelow(threads: nat, width: nat, n: nat, idx: nat)
    requires threads >= 1 && width >= 1
    ensures idx < width * (threads * n) <==> StageOf(threads, width, idx) < n
  {
    var q := idx / width;
    BelowIff(idx, width, threads * n);
    BelowIff(q, threads, n);
  }

  lemma BelowIff(x: nat, d: nat, n: nat)
    requires d >= 1
    ensures x < d * n <==> x / d < n
  {
    DivModOf(x, d);
    if x < d * n {
      RowOf(x, d, n);
    } else if x / d < n {
      RowBelow(d, x / d, x % d, n);
    }
  }

  /** The gated map: ceil(total / threads) stages reach every slot of the tile once. */
  lemma GatedStagingOnce(total: nat, threads: nat, idx: nat)
    requires threads >= 1 && idx < total
    ensures idx / threads < CeilDiv(total, threads)
    ensures Fills(threads, 1, idx, idx / threads, idx % threads, 0)
    ensures forall stage: nat, tid: nat :: Fills(threads, 1, idx, stage, tid, 0) ==>
      stage == idx / threads && tid == idx % threads
  {
    FillsUnique(threads, 1, idx);
    CeilDivBounds(total, threads);
    RowOf(idx, threads, CeilDiv(total, threads));
  }

  /** Different (head, split, column) use different elements of the partial buffer. */
  lemma PartialSlotsDistinct(splits: nat, width: nat, h1: nat, s1: nat, c1: nat, h2: nat, s2: nat, c2: nat)
    requires s1 < splits && s2 < splits && c1 < width && c2 < width
    requires (h1 * splits + s1) * width + c1 == (h2 * splits + s2) * width + c2
    ensures h1 == h2 && s1 == s2 && c1 == c2
  {
    var r1, r2 := h1 * splits + s1, h2 * splits + s2;
    assert r1 * width == width * r1 && r2 * width == width * r2 &&
      h1 * splits == splits * h1 && h2 * splits == splits * h2;
    DivModUnique(r1 * width + c1, width, r1, c1);
    DivModUnique(r1 * width + c1, width, r2, c2);
    DivModUnique(r1, splits, h1, s1);
    DivModUnique(r1, splits, h2, s2);
  }
}
