/**
  Live-split flash decoding (`tinygrad/llm/flash_decode_attention.py`).

  The first kernel walks the tokens of each split once, keeping a running maximum, denominator and
  accumulator; the second merges the splits. Arithmetic is over the reals, the exponential is any positive
  function that turns sums into products, and the -inf a split starts from is an extra value.

  `Attention` is the textbook softmax average; `FlashDecode` is proved equal to it for every head and
  dimension.
 */
module FlashDecode {
  import opened IndexMath
  import opened Sums
  import opened WarpReduce
  import SplitGeometry

  const TOKEN_BLOCK: nat := SplitGeometry.TOKEN_BLOCK
  const LANES: nat := 32

  datatype Ext = NegInf | Fin(r: real)

  function MaxExt(a: Ext, b: Ext): Ext {
    if a.NegInf? then b else if b.NegInf? then a else if a.r < b.r then b else a
  }

  /**
    hd: head dimension; hkv: key/value heads; g: query heads per key/value head; qg: query heads per
    workgroup; splits: number of splits; tc: live tokens; stageWidth: requested elements per staging thread.
   */
  datatype Problem = Problem(
    hd: nat, hkv: nat, g: nat, qg: nat, splits: nat, tc: nat, stageWidth: nat,
    scale: real, q: (nat, nat) -> real, k: (nat, nat, nat) -> real, v: (nat, nat, nat) -> real,
    exp: real -> real)

  predicate PositiveAt(exp: real -> real, x: real) { exp(x) > 0.0 }

  predicate MultiplicativeAt(exp: real -> real, x: real, y: real) { exp(x + y) == exp(x) * exp(y) }

  ghost predicate IsExponential(exp: real -> real) {
    && (forall x :: PositiveAt(exp, x))
    && (forall x, y :: MultiplicativeAt(exp, x, y))
  }

  /** What the kernel builders check before they emit anything. */
  ghost predicate Valid(p: Problem) {
    && p.hd > 0 && p.hd % 64 == 0 && p.hkv > 0 && 1 <= p.qg <= p.g && p.splits >= 1 && p.tc >= 1
    && IsExponential(p.exp)
  }

  // ---------------------------------------------------------------- the reference

  function ScoreTerm(p: Problem, head: nat, t: nat): nat -> real
    requires p.g > 0
  {
    (e: nat) => p.q(head, e) * p.k(head / p.g, t, e)
  }

  function Score(p: Problem, head: nat, t: nat): real
    requires p.g > 0
  {
    PrefixSum(ScoreTerm(p, head, t), p.hd) * p.scale
  }

  function Weight(p: Problem, head: nat, t: nat): real
    requires p.g > 0
  {
    p.exp(Score(p, head, t))
  }

  function SumW(p: Problem, head: nat, lo: nat, hi: nat): real
    requires p.g > 0
  {
    if hi <= lo then 0.0 else SumW(p, head, lo, hi - 1) + Weight(p, head, hi - 1)
  }

  function SumWV(p: Problem, head: nat, dim: nat, lo: nat, hi: nat): real
    requires p.g > 0
  {
    if hi <= lo then 0.0
    else SumWV(p, head, dim, lo, hi - 1) + Weight(p, head, hi - 1) * p.v(head / p.g, hi - 1, dim)
  }

  lemma {:induction false} SumWPositive(p: Problem, head: nat, hi: nat)
    requires Valid(p) && hi > 0
    ensures SumW(p, head, 0, hi) > 0.0
  {
    assert PositiveAt(p.exp, Score(p, head, hi - 1));
    if hi > 1 {
      SumWPositive(p, head, hi - 1);
    }
  }

  /** Softmax-weighted average of the values of all live tokens. */
  ghost function Attention(p: Problem, head: nat, dim: nat): real
    requires Valid(p)
  {
    SumWPositive(p, head, p.tc);
    SumWV(p, head, dim, 0, p.tc) / SumW(p, head, 0, p.tc)
  }

  lemma {:induction false} SumWJoin(p: Problem, head: nat, lo: nat, mid: nat, hi: nat)
    requires p.g > 0 && lo <= mid <= hi
    ensures SumW(p, head, lo, mid) + SumW(p, head, mid, hi) == SumW(p, head, lo, hi)
  {
    if mid < hi {
      SumWJoin(p, head, lo, mid, hi - 1);
    }
  }

  lemma {:induction false} SumWVJoin(p: Problem, head: nat, dim: nat, lo: nat, mid: nat, hi: nat)
    requires p.g > 0 && lo <= mid <= hi
    ensures SumWV(p, head, dim, lo, mid) + SumWV(p, head, dim, mid, hi) == SumWV(p, head, dim, lo, hi)
  {
    if mid < hi {
      SumWVJoin(p, head, dim, lo, mid, hi - 1);
    }
  }

  // ---------------------------------------------------------------- the dot product across lanes

  /** What one lane adds up: elements 2 * lane and 2 * lane + 1 of each of the first n groups of 64. */
  function LaneDot(f: nat -> real, lane: nat, n: nat): real {
    if n == 0 then 0.0
    else LaneDot(f, lane, n - 1) + f((n - 1) * 64 + lane * 2) + f((n - 1) * 64 + lane * 2 + 1)
  }

  function LaneDots(f: nat -> real, lanes: nat, n: nat): seq<real> {
    seq(lanes, lane requires 0 <= lane => LaneDot(f, lane, n))
  }

  lemma LastLane(f: nat -> real, lanes: nat, n: nat)
    requires lanes > 0
    ensures Sum(LaneDots(f, lanes, n)) == Sum(LaneDots(f, lanes - 1, n)) + LaneDot(f, lanes - 1, n)
  {
    assert LaneDots(f, lanes, n)[..lanes - 1] == LaneDots(f, lanes - 1, n);
  }

  lemma {:induction false} LaneDotsStep(f: nat -> real, lanes: nat, n: nat)
    requires n > 0
    ensures Sum(LaneDots(f, lanes, n)) ==
      Sum(LaneDots(f, lanes, n - 1)) + PrefixSum(f, (n - 1) * 64 + 2 * lanes) - PrefixSum(f, (n - 1) * 64)
  {
    hide Sum, LaneDots, PrefixSum;
    if lanes > 0 {
      LaneDotsStep(f, lanes - 1, n);
      LastLane(f, lanes, n);
      LastLane(f, lanes, n - 1);
      var top := (n - 1) * 64 + 2 * lanes;
      StepOfSum(f, top - 1);
      StepOfSum(f, top - 2);
    } else {
      NoLanes(f, n);
    }
  }

  lemma NoLanes(f: nat -> real, n: nat)
    requires n > 0
    ensures Sum(LaneDots(f, 0, n)) == 0.0 == Sum(LaneDots(f, 0, n - 1))
  {
  }

  /** The 32 lanes together visit each of the 64 * n elements once. */
  lemma {:induction false} LanesCoverDot(f: nat -> real, n: nat)
    ensures Sum(LaneDots(f, LANES, n)) == PrefixSum(f, 64 * n)
  {
    if n == 0 {
      ZeroLanes(f, LANES);
    } else {
      LanesCoverDot(f, n - 1);
      LaneDotsStep(f, LANES, n);
    }
  }

  lemma {:induction false} ZeroLanes(f: nat -> real, lanes: nat)
    ensures Sum(LaneDots(f, lanes, 0)) == 0.0
  {
    if lanes > 0 {
      ZeroLanes(f, lanes - 1);
      assert LaneDots(f, lanes, 0)[..lanes - 1] == LaneDots(f, lanes - 1, 0);
    }
  }

  function TileTerm(p: Problem, head: nat, ksh: seq<real>, tok: nat): nat -> real {
    (e: nat) => if tok * p.hd + e < |ksh| then p.q(head, e) * ksh[tok * p.hd + e] else 0.0
  }

  lemma TileIndex(p: Problem, tok: nat, e: nat)
    requires tok < TOKEN_BLOCK && e < p.hd
    ensures 0 <= tok * p.hd + e < TOKEN_BLOCK * p.hd
    ensures (tok * p.hd + e) / p.hd == tok && (tok * p.hd + e) % p.hd == e
  {
    RowBelow(p.hd, tok, e, TOKEN_BLOCK);
    assert tok * p.hd == p.hd * tok;
    DivModUnique(tok * p.hd + e, p.hd, tok, e);
  }

  lemma TileTermAt(p: Problem, head: nat, ksh: seq<real>, tok: nat, e: nat)
    requires tok < TOKEN_BLOCK && e < p.hd && |ksh| == TOKEN_BLOCK * p.hd
    ensures 0 <= tok * p.hd + e < |ksh|
    ensures TileTerm(p, head, ksh, tok)(e) == p.q(head, e) * ksh[tok * p.hd + e]
  {
    TileIndex(p, tok, e);
  }

  /** The register loop of one lane. */
  method LaneLoop(p: Problem, head: nat, ksh: seq<real>, tok: nat, lane: nat) returns (dot: real)
    requires p.hd % 64 == 0 && tok < TOKEN_BLOCK && lane < LANES && |ksh| == TOKEN_BLOCK * p.hd
    ensures dot == LaneDot(TileTerm(p, head, ksh, tok), lane, p.hd / 64)
  {
    hide TileTerm;
    dot := 0.0;
    for pair := 0 to p.hd / 64
      invariant dot == LaneDot(TileTerm(p, head, ksh, tok), lane, pair)
    {
      var elem := pair * 64 + lane * 2;
      TileTermAt(p, head, ksh, tok, elem);
      TileTermAt(p, head, ksh, tok, elem + 1);
      dot := dot + p.q(head, elem) * ksh[tok * p.hd + elem] + p.q(head, elem + 1) * ksh[tok * p.hd + (elem + 1)];
    }
  }

  lemma LaneDotsAppend(f: nat -> real, lanes: nat, n: nat)
    ensures LaneDots(f, lanes + 1, n) == LaneDots(f, lanes, n) + [LaneDot(f, lanes, n)]
  {
  }

  /** The score of one staged token, as every lane receives it from the cross-lane sum. */
  method DotReduce(p: Problem, head: nat, ksh: seq<real>, tok: nat, lane: nat) returns (r: real)
    requires p.hd % 64 == 0 && tok < TOKEN_BLOCK && lane < LANES && |ksh| == TOKEN_BLOCK * p.hd
    ensures r == PrefixSum(TileTerm(p, head, ksh, tok), p.hd) * p.scale
  {
    hide TileTerm, LaneDot, PrefixSum, LaneDots;
    ghost var f := TileTerm(p, head, ksh, tok);
    NoLaneDots(f, p.hd / 64);
    var dots: seq<real> := [];
    for l := 0 to LANES
      invariant |dots| == l && dots == LaneDots(f, l, p.hd / 64)
    {
      LaneDotsAppend(f, l, p.hd / 64);
      var dot := LaneLoop(p, head, ksh, tok, l);
      dots := dots + [dot];
    }
    var reduced := WarpReduceSum(dots);
    LanesCoverDot(f, p.hd / 64);
    r := reduced[lane] * p.scale;
  }

  lemma NoLaneDots(f: nat -> real, n: nat)
    ensures LaneDots(f, 0, n) == []
  {
  }

  // ---------------------------------------------------------------- staging a tile

  /** What slot idx of the tile holds: an element of a live token, or of token 0 past the end. */
  function Staged(p: Problem, src: (nat, nat, nat) -> real, kvh: nat, first: nat, idx: nat): real
    requires p.hd > 0
  {
    var token := first + idx / p.hd;
    src(kvh, if idx / p.hd < TOKEN_BLOCK && token < p.tc then token else 0, idx % p.hd)
  }

  ghost predicate StagedBelow(p: Problem, src: (nat, nat, nat) -> real, kvh: nat, first: nat, sh: seq<real>, n: nat)
    requires p.hd > 0
  {
    forall idx :: 0 <= idx < n && idx < |sh| ==> sh[idx] == Staged(p, src, kvh, first, idx)
  }

  /** One thread writes `width` consecutive slots; only the element-by-element map is gated. */
  method StageThread(p: Problem, src: (nat, nat, nat) -> real, kvh: nat, first: nat,
                     sh: array<real>, base: nat, width: nat, gated: bool)
    requires p.hd > 0 && (gated || base + width <= sh.Length)
    requires StagedBelow(p, src, kvh, first, sh[..], base)
    modifies sh
    ensures StagedBelow(p, src, kvh, first, sh[..], base + width)
  {
    for w := 0 to width
      invariant StagedBelow(p, src, kvh, first, sh[..], base + w)
    {
      var idx := base + w;
      if !gated || idx < sh.Length {
        sh[idx] := Staged(p, src, kvh, first, idx);
      }
    }
  }

  /** One stage: every thread of the workgroup in turn. */
  method StageThreads(p: Problem, src: (nat, nat, nat) -> real, kvh: nat, first: nat,
                      sh: array<real>, row: nat, threads: nat, width: nat, gated: bool)
    requires p.hd > 0 && (gated || (row + threads) * width <= sh.Length)
    requires StagedBelow(p, src, kvh, first, sh[..], row * width)
    modifies sh
    ensures StagedBelow(p, src, kvh, first, sh[..], (row + threads) * width)
  {
    for tid := 0 to threads
      invariant StagedBelow(p, src, kvh, first, sh[..], (row + tid) * width)
    {
      var base := (row + tid) * width;
      assert base + width == (row + (tid + 1)) * width;
      MulMono(width, row + (tid + 1), row + threads);
      assert width * (row + (tid + 1)) == base + width && width * (row + threads) == (row + threads) * width;
      StageThread(p, src, kvh, first, sh, base, width, gated);
    }
  }

  /** The coalesced map is used when the requested width divides the tile evenly; otherwise 0 selects the gated map. */
  function SelectedWidth(p: Problem): nat
    requires p.qg >= 1
  {
    if p.stageWidth in {1, 2, 4, 8} && TOKEN_BLOCK * p.hd % (LANES * p.qg * p.stageWidth) == 0 then p.stageWidth else 0
  }

  function StageCount(p: Problem): nat
    requires p.qg >= 1
  {
    var width := SelectedWidth(p);
    if width == 0 then CeilDiv(TOKEN_BLOCK * p.hd, LANES * p.qg) else TOKEN_BLOCK * p.hd / (LANES * p.qg * width)
  }

  /** The threads of a workgroup copy one tile of keys or values to shared memory. */
  method Stage(p: Problem, src: (nat, nat, nat) -> real, kvh: nat, first: nat) returns (sh: array<real>)
    requires p.hd > 0 && p.qg >= 1
    ensures fresh(sh) && sh.Length == TOKEN_BLOCK * p.hd
    ensures StagedBelow(p, src, kvh, first, sh[..], sh.Length)
  {
    var total, threads := TOKEN_BLOCK * p.hd, LANES * p.qg;
    sh := new real[total];
    var gated := SelectedWidth(p) == 0;
    var width := if gated then 1 else SelectedWidth(p);
    var stages := StageCount(p);
    StagesCover(p);
    for stage := 0 to stages
      invariant StagedBelow(p, src, kvh, first, sh[..], stage * threads * width)
    {
      var row := stage * threads;
      assert row + threads == (stage + 1) * threads;
      RowInRange(threads, width, stage, stages);
      StageThreads(p, src, kvh, first, sh, row, threads, width, gated);
    }
  }

  lemma RowInRange(threads: nat, width: nat, stage: nat, stages: nat)
    requires stage < stages
    ensures (stage * threads + threads) * width <= stages * threads * width
  {
    MulMono(threads, stage + 1, stages);
    MulMono(width, stage * threads + threads, stages * threads);
    assert threads * (stage + 1) == stage * threads + threads;
  }

  /** The stages times the slots written per stage reach the whole tile; exactly so for the coalesced map. */
  lemma StagesCover(p: Problem)
    requires p.qg >= 1
    ensures SelectedWidth(p) == 0 ==> TOKEN_BLOCK * p.hd <= StageCount(p) * (LANES * p.qg) * 1
    ensures SelectedWidth(p) != 0 ==> TOKEN_BLOCK * p.hd == StageCount(p) * (LANES * p.qg) * SelectedWidth(p)
  {
    if SelectedWidth(p) == 0 {
      CeilDivBounds(TOKEN_BLOCK * p.hd, LANES * p.qg);
    } else {
      DivModOf(TOKEN_BLOCK * p.hd, LANES * p.qg * p.stageWidth);
    }
  }

  // ---------------------------------------------------------------- online softmax

  /** exp(a - m), with exp(-inf) = 0. */
  function ExpDiff(p: Problem, a: Ext, m: Ext): real
    requires m.Fin?
  {
    if a.NegInf? then 0.0 else p.exp(a.r - m.r)
  }

  /** m is the largest score of the tokens in [lo, hi). */
  ghost predicate IsMaxScore(p: Problem, head: nat, lo: nat, hi: nat, m: real)
    requires p.g > 0
  {
    && (forall t :: lo <= t < hi ==> Score(p, head, t) <= m)
    && (exists t :: lo <= t < hi && Score(p, head, t) == m)
  }

  /** The maximum and denominator registers after the tokens [lo, hi). */
  ghost predicate Accumulated(p: Problem, head: nat, lo: nat, hi: nat, den: real, mx: Ext)
    requires p.g > 0
  {
    if hi <= lo then den == 0.0 && mx == NegInf
    else mx.Fin? && IsMaxScore(p, head, lo, hi, mx.r) && den * p.exp(mx.r) == SumW(p, head, lo, hi)
  }

  /** One accumulator register after the tokens [lo, hi). */
  ghost predicate AccumulatedDim(p: Problem, head: nat, dim: nat, lo: nat, hi: nat, acc: real, mx: Ext)
    requires p.g > 0
  {
    if hi <= lo then acc == 0.0
    else mx.Fin? && acc * p.exp(mx.r) == SumWV(p, head, dim, lo, hi)
  }

  /** The accumulator update of the tile kernel, and below that of the combine kernel. */
  function Fma(a: real, correction: real, probability: real, v: real): real { a * correction + probability * v }

  function Axpy(a: real, w: real, x: real): real { a + w * x }

  lemma Distribute(a: real, c: real, x: real, v: real, e: real)
    ensures (a * c + x * v) * e == a * (c * e) + (x * e) * v
  {
    assert (a * c + x * v) * e == (a * c) * e + (x * v) * e;
    assert (a * c) * e == a * (c * e);
    assert (x * v) * e == (x * e) * v;
  }

  lemma ExpOfDifference(p: Problem, a: real, m: real)
    requires IsExponential(p.exp)
    ensures p.exp(a - m) * p.exp(m) == p.exp(a)
  {
    assert MultiplicativeAt(p.exp, a - m, m);
    assert (a - m) + m == a;
  }

  /** Rescaling to a new maximum keeps the register's meaning. */
  lemma Rescale(p: Problem, reg: real, mx: Ext, s: real, v: real)
    requires Valid(p)
    requires mx.NegInf? ==> reg == 0.0
    ensures
      var m := MaxExt(mx, Fin(s));
      (reg * ExpDiff(p, mx, m) + ExpDiff(p, Fin(s), m) * v) * p.exp(m.r) ==
        (if mx.NegInf? then 0.0 else reg * p.exp(mx.r)) + p.exp(s) * v
  {
    var m := MaxExt(mx, Fin(s));
    Distribute(reg, ExpDiff(p, mx, m), ExpDiff(p, Fin(s), m), v, p.exp(m.r));
    ExpOfDifference(p, s, m.r);
    if mx.Fin? {
      ExpOfDifference(p, mx.r, m.r);
    }
  }

  function Correction(p: Problem, live: bool, mx: Ext, score: Ext): real
    requires live ==> score.Fin?
  {
    if live then ExpDiff(p, mx, MaxExt(mx, score)) else 1.0
  }

  function Probability(p: Problem, live: bool, mx: Ext, score: Ext): real
    requires live ==> score.Fin?
  {
    if live then ExpDiff(p, score, MaxExt(mx, score)) else 0.0
  }

  /** One live token: the denominator and the maximum. */
  lemma TokenStep(p: Problem, head: nat, lo: nat, t: nat, den: real, mx: Ext)
    requires Valid(p) && lo <= t && Accumulated(p, head, lo, t, den, mx)
    ensures
      var s := Fin(Score(p, head, t));
      var m := MaxExt(mx, s);
      Accumulated(p, head, lo, t + 1, den * Correction(p, true, mx, s) + Probability(p, true, mx, s), m)
  {
    var s := Fin(Score(p, head, t));
    var m := MaxExt(mx, s);
    Rescale(p, den, mx, s.r, 1.0);
    assert ExpDiff(p, s, m) * 1.0 == ExpDiff(p, s, m);
    assert IsMaxScore(p, head, lo, t + 1, m.r) by {
      if m == s {
        assert Score(p, head, t) == m.r;
      } else {
        var t' :| lo <= t' < t && Score(p, head, t') == mx.r;
      }
    }
  }

  /** One live token: an accumulator. */
  lemma TokenStepDim(p: Problem, head: nat, dim: nat, lo: nat, t: nat, acc: real, den: real, mx: Ext)
    requires Valid(p) && lo <= t && Accumulated(p, head, lo, t, den, mx)
    requires AccumulatedDim(p, head, dim, lo, t, acc, mx)
    ensures
      var s := Fin(Score(p, head, t));
      var m := MaxExt(mx, s);
      AccumulatedDim(p, head, dim, lo, t + 1,
        Fma(acc, Correction(p, true, mx, s), Probability(p, true, mx, s), p.v(head / p.g, t, dim)), m)
  {
    Rescale(p, acc, mx, Score(p, head, t), p.v(head / p.g, t, dim));
  }

  /** Reading a staged element of a live token gives the cache element. */
  lemma StagedAt(p: Problem, src: (nat, nat, nat) -> real, kvh: nat, first: nat, tok: nat, sh: seq<real>, e: nat)
    requires tok < TOKEN_BLOCK && first + tok < p.tc && e < p.hd && |sh| == TOKEN_BLOCK * p.hd
    requires StagedBelow(p, src, kvh, first, sh, |sh|)
    ensures 0 <= tok * p.hd + e < |sh| && sh[tok * p.hd + e] == src(kvh, first + tok, e)
  {
    TileIndex(p, tok, e);
  }

  /** The score computed from the staged keys is the reference score of the token. */
  lemma StagedScore(p: Problem, head: nat, first: nat, tok: nat, ksh: seq<real>)
    requires Valid(p) && tok < TOKEN_BLOCK && first + tok < p.tc && |ksh| == TOKEN_BLOCK * p.hd
    requires StagedBelow(p, p.k, head / p.g, first, ksh, |ksh|)
    ensures PrefixSum(TileTerm(p, head, ksh, tok), p.hd) * p.scale == Score(p, head, first + tok)
  {
    hide TileTerm, StagedBelow, PrefixSum;
    var f, g := TileTerm(p, head, ksh, tok), ScoreTerm(p, head, first + tok);
    forall e: nat | e < p.hd ensures f(e) == g(e) {
      TileTermAt(p, head, ksh, tok, e);
      StagedAt(p, p.k, head / p.g, first, tok, ksh, e);
    }
    PrefixSumCongruent(f, g, p.hd);
  }

  /** Width of the slice of the head dimension that one lane owns. */
  function LaneWidth(p: Problem): nat { p.hd / LANES }

  lemma LaneSlice(p: Problem, lane: nat)
    requires p.hd % 64 == 0 && lane < LANES
    ensures p.hd == LANES * LaneWidth(p)
    ensures 0 <= lane * LaneWidth(p) && lane * LaneWidth(p) + LaneWidth(p) <= p.hd
  {
    MulMono(LaneWidth(p), lane + 1, LANES);
    assert LaneWidth(p) * (lane + 1) == lane * LaneWidth(p) + LaneWidth(p);
  }

  /** acc' is acc after one token with the given correction, probability and values. */
  ghost predicate AccUpdated(row: seq<real>, correction: real, probability: real, acc: seq<real>, acc': seq<real>) {
    |row| == |acc| == |acc'| && forall d :: 0 <= d < |acc| ==> acc'[d] == Fma(acc[d], correction, probability, row[d])
  }

  /** The tail of a token's update: every accumulator of the lane. */
  method UpdateAccumulators(row: seq<real>, correction: real, probability: real, acc: array<real>)
    requires |row| == acc.Length
    modifies acc
    ensures AccUpdated(row, correction, probability, old(acc[..]), acc[..])
  {
    for d := 0 to acc.Length
      invariant forall j :: d <= j < acc.Length ==> acc[j] == old(acc[j])
      invariant forall j :: 0 <= j < d ==> acc[j] == Fma(old(acc[j]), correction, probability, row[j])
    {
      acc[d] := acc[d] * correction + probability * row[d];
    }
  }

  /** All registers of a lane owning the dimensions from dim0 on, after the tokens [lo, hi). */
  ghost predicate LaneState(p: Problem, head: nat, dim0: nat, lo: nat, hi: nat, acc: seq<real>, den: real, mx: Ext)
    requires p.g > 0
  {
    && Accumulated(p, head, lo, hi, den, mx)
    && forall d :: 0 <= d < |acc| ==> AccumulatedDim(p, head, dim0 + d, lo, hi, acc[d], mx)
  }

  /** First token past the n-th position of a split, among the live tokens. */
  function LiveEnd(p: Problem, lo: nat, n: nat): nat { if lo < p.tc then Least(lo + n, p.tc) else lo }

  lemma LiveTokenStep(p: Problem, head: nat, row: seq<real>, dim0: nat, lo: nat, t: nat,
                      acc: seq<real>, acc': seq<real>, den: real, mx: Ext)
    requires Valid(p) && lo <= t
    requires forall d :: 0 <= d < |row| ==> row[d] == p.v(head / p.g, t, dim0 + d)
    requires LaneState(p, head, dim0, lo, t, acc, den, mx)
    requires
      var s := Fin(Score(p, head, t));
      AccUpdated(row, Correction(p, true, mx, s), Probability(p, true, mx, s), acc, acc')
    ensures
      var s := Fin(Score(p, head, t));
      LaneState(p, head, dim0, lo, t + 1, acc',
        den * Correction(p, true, mx, s) + Probability(p, true, mx, s), MaxExt(mx, s))
  {
    hide Accumulated, AccumulatedDim, Correction, Probability, MaxExt, Score, Fma;
    var s := Fin(Score(p, head, t));
    TokenStep(p, head, lo, t, den, mx);
    forall d | 0 <= d < |acc'|
      ensures AccumulatedDim(p, head, dim0 + d, lo, t + 1, acc'[d], MaxExt(mx, s))
    {
      TokenStepDim(p, head, dim0 + d, lo, t, acc[d], den, mx);
    }
  }

  /** Past the live tokens the correction is 1 and the probability 0, and nothing changes. */
  lemma DeadTokenStep(row: seq<real>, acc: seq<real>, acc': seq<real>)
    requires AccUpdated(row, 1.0, 0.0, acc, acc')
    ensures acc' == acc
  {
  }

  /** The staged values of one token, from dimension dim0 on. */
  function ValueRow(p: Problem, values: seq<real>, tok: nat, dim0: nat, n: nat): (row: seq<real>)
    requires tok < TOKEN_BLOCK && dim0 + n <= p.hd && n > 0 && |values| == TOKEN_BLOCK * p.hd
    ensures |row| == n
    ensures forall d :: 0 <= d < n ==>
      0 <= tok * p.hd + (dim0 + d) < |values| && row[d] == values[tok * p.hd + (dim0 + d)]
  {
    TileIndex(p, tok, dim0 + n - 1);
    values[tok * p.hd + dim0..tok * p.hd + dim0 + n]
  }

  lemma ValueRowHolds(p: Problem, kvh: nat, first: nat, tok: nat, dim0: nat, n: nat, values: seq<real>)
    requires Valid(p) && tok < TOKEN_BLOCK && first + tok < p.tc && |values| == TOKEN_BLOCK * p.hd
    requires dim0 + n <= p.hd && n > 0
    requires StagedBelow(p, p.v, kvh, first, values, |values|)
    ensures forall d :: 0 <= d < n ==> ValueRow(p, values, tok, dim0, n)[d] == p.v(kvh, first + tok, dim0 + d)
  {
    hide ValueRow, StagedBelow;
    forall d | 0 <= d < n
      ensures ValueRow(p, values, tok, dim0, n)[d] == p.v(kvh, first + tok, dim0 + d)
    {
      StagedAt(p, p.v, kvh, first, tok, values, dim0 + d);
    }
  }

  /** A lane's registers mean the tokens of its split up to position pos. */
  ghost predicate LaneAt(p: Problem, head: nat, dim0: nat, lo: nat, pos: nat, acc: seq<real>, den: real, mx: Ext)
    requires p.g > 0
  {
    && lo <= pos
    && LaneState(p, head, dim0, lo, LiveEnd(p, lo, pos - lo), acc, den, mx)
  }

  lemma TokenStepAny(p: Problem, head: nat, row: seq<real>, dim0: nat, lo: nat, pos: nat,
                     acc: seq<real>, acc': seq<real>, den: real, mx: Ext, score: Ext, den': real, mx': Ext)
    requires Valid(p) && LaneAt(p, head, dim0, lo, pos, acc, den, mx)
    requires pos < p.tc ==> score == Fin(Score(p, head, pos))
    requires pos < p.tc ==> forall d :: 0 <= d < |row| ==> row[d] == p.v(head / p.g, pos, dim0 + d)
    requires pos >= p.tc ==> score == NegInf
    requires AccUpdated(row, Correction(p, pos < p.tc, mx, score), Probability(p, pos < p.tc, mx, score), acc, acc')
    requires den' == den * Correction(p, pos < p.tc, mx, score) + Probability(p, pos < p.tc, mx, score)
    requires mx' == MaxExt(mx, score)
    ensures LaneAt(p, head, dim0, lo, pos + 1, acc', den', mx')
  {
    if pos < p.tc {
      LiveTokenStep(p, head, row, dim0, lo, pos, acc, acc', den, mx);
    } else {
      DeadTokenStep(row, acc, acc');
    }
  }

  function ScoreOrNegInf(live: bool, dot: real): Ext { if live then Fin(dot) else NegInf }

  /** The update computed from the staged tile: what the registers mean afterwards. */
  lemma StagedTokenStep(
    p: Problem, head: nat, keys: seq<real>, values: seq<real>, dim0: nat, lo: nat, first: nat, tok: nat,
    acc: seq<real>, acc': seq<real>, den: real, mx: Ext, dot: real, den': real, mx': Ext)
    requires Valid(p) && tok < TOKEN_BLOCK && |keys| == |values| == TOKEN_BLOCK * p.hd
    requires StagedBelow(p, p.k, head / p.g, first, keys, |keys|)
    requires StagedBelow(p, p.v, head / p.g, first, values, |values|)
    requires |acc| > 0 && dim0 + |acc| <= p.hd
    requires LaneAt(p, head, dim0, lo, first + tok, acc, den, mx)
    requires dot == PrefixSum(TileTerm(p, head, keys, tok), p.hd) * p.scale
    requires
      var live := first + tok < p.tc;
      var score := ScoreOrNegInf(live, dot);
      && AccUpdated(ValueRow(p, values, tok, dim0, |acc|),
           Correction(p, live, mx, score), Probability(p, live, mx, score), acc, acc')
      && den' == den * Correction(p, live, mx, score) + Probability(p, live, mx, score)
      && mx' == MaxExt(mx, score)
    ensures LaneAt(p, head, dim0, lo, first + tok + 1, acc', den', mx')
  {
    hide LaneAt, Correction, Probability, ValueRow, AccUpdated, StagedBelow, PrefixSum, TileTerm, Score, MaxExt;
    if first + tok < p.tc {
      StagedScore(p, head, first, tok, keys);
      ValueRowHolds(p, head / p.g, first, tok, dim0, |acc|, values);
    }
    TokenStepAny(p, head, ValueRow(p, values, tok, dim0, |acc|), dim0, lo, first + tok, acc, acc', den, mx,
      ScoreOrNegInf(first + tok < p.tc, dot), den', mx');
  }

  /** One token position of the tile, live or not, for one lane. */
  method TokenUpdate(p: Problem, head: nat, keys: seq<real>, values: seq<real>, lane: nat, dim0: nat, ghost lo: nat,
                     first: nat, tok: nat, acc: array<real>, den: real, mx: Ext) returns (den': real, mx': Ext)
    requires Valid(p) && p.g > 0 && p.hd > 0 && p.hd % 64 == 0 && tok < TOKEN_BLOCK && lane < LANES
    requires |keys| == |values| == TOKEN_BLOCK * p.hd
    requires StagedBelow(p, p.k, head / p.g, first, keys, |keys|)
    requires StagedBelow(p, p.v, head / p.g, first, values, |values|)
    requires acc.Length > 0 && dim0 + acc.Length <= p.hd
    requires LaneAt(p, head, dim0, lo, first + tok, acc[..], den, mx)
    modifies acc
    ensures LaneAt(p, head, dim0, lo, first + tok + 1, acc[..], den', mx')
  {
    hide LaneAt, Correction, Probability, ValueRow, StagedBelow, PrefixSum;
    var inRange := first + tok < p.tc;
    var dot := DotReduce(p, head, keys, tok, lane);
    var score := ScoreOrNegInf(inRange, dot);
    var correction, probability := Correction(p, inRange, mx, score), Probability(p, inRange, mx, score);
    ghost var before := acc[..];
    UpdateAccumulators(ValueRow(p, values, tok, dim0, acc.Length), correction, probability, acc);
    den' := den * correction + probability;
    mx' := MaxExt(mx, score);
    StagedTokenStep(p, head, keys, values, dim0, lo, first, tok, before, acc[..], den, mx, dot, den', mx');
  }

  /** One staged block of tokens, for one lane. */
  method BlockUpdate(p: Problem, head: nat, lane: nat, dim0: nat, ghost lo: nat, first: nat,
                     acc: array<real>, den: real, mx: Ext) returns (den': real, mx': Ext)
    requires Valid(p) && lane < LANES
    requires acc.Length > 0 && dim0 + acc.Length <= p.hd
    requires LaneAt(p, head, dim0, lo, first, acc[..], den, mx)
    modifies acc
    ensures LaneAt(p, head, dim0, lo, first + TOKEN_BLOCK, acc[..], den', mx')
  {
    hide LaneAt;
    var ksh := Stage(p, p.k, head / p.g, first);
    var vsh := Stage(p, p.v, head / p.g, first);
    var keys, values := ksh[..], vsh[..];
    den', mx' := den, mx;
    for tok := 0 to TOKEN_BLOCK
      invariant LaneAt(p, head, dim0, lo, first + tok, acc[..], den', mx')
    {
      den', mx' := TokenUpdate(p, head, keys, values, lane, dim0, lo, first, tok, acc, den', mx');
    }
  }

  /** One lane of the tile kernel: the whole walk over a split. */
  method TileLane(p: Problem, len: nat, head: nat, split: nat, lane: nat) returns (acc: array<real>, den: real, mx: Ext)
    requires Valid(p) && lane < LANES
    ensures fresh(acc) && acc.Length == LaneWidth(p)
    ensures LaneAt(p, head, lane * LaneWidth(p), split * len, split * len + CeilDiv(len, TOKEN_BLOCK) * TOKEN_BLOCK,
      acc[..], den, mx)
  {
    ghost var lo := split * len;
    var dim0 := lane * LaneWidth(p);
    LaneSlice(p, lane);
    acc := new real[LaneWidth(p)](_ => 0.0);
    den, mx := 0.0, NegInf;
    for block := 0 to CeilDiv(len, TOKEN_BLOCK)
      invariant LaneAt(p, head, dim0, lo, lo + block * TOKEN_BLOCK, acc[..], den, mx)
    {
      den, mx := BlockUpdate(p, head, lane, dim0, lo, split * len + block * TOKEN_BLOCK, acc, den, mx);
    }
  }

  // ---------------------------------------------------------------- the tile kernel's launch

  /** What the tile kernel stores for one head and split. */
  datatype Partial = Partial(acc: seq<real>, den: real, mx: Ext)

  ghost predicate PartialOf(p: Problem, head: nat, lo: nat, hi: nat, part: Partial)
    requires p.g > 0
  {
    |part.acc| == p.hd && LaneState(p, head, 0, lo, hi, part.acc, part.den, part.mx)
  }

  /** The tokens a split walks when its length is a multiple of the token block. */
  ghost predicate SplitDone(p: Problem, len: nat, head: nat, split: nat, part: Partial)
    requires p.g > 0
  {
    PartialOf(p, head, split * len, LiveEnd(p, split * len, len), part)
  }

  lemma LaneAppend(p: Problem, head: nat, lo: nat, hi: nat, acc: seq<real>, more: seq<real>, den: real, mx: Ext)
    requires p.g > 0 && LaneState(p, head, 0, lo, hi, acc, den, mx) && LaneState(p, head, |acc|, lo, hi, more, den, mx)
    ensures LaneState(p, head, 0, lo, hi, acc + more, den, mx)
  {
    hide Accumulated, AccumulatedDim;
    forall d | 0 <= d < |acc + more|
      ensures AccumulatedDim(p, head, 0 + d, lo, hi, (acc + more)[d], mx)
    {
      if d >= |acc| {
        assert AccumulatedDim(p, head, |acc| + (d - |acc|), lo, hi, more[d - |acc|], mx);
      }
    }
  }

  lemma SameMaximum(p: Problem, head: nat, lo: nat, hi: nat, den1: real, mx1: Ext, den2: real, mx2: Ext)
    requires Valid(p) && Accumulated(p, head, lo, hi, den1, mx1) && Accumulated(p, head, lo, hi, den2, mx2)
    ensures mx1 == mx2 && den1 == den2
  {
    if lo < hi {
      var t1 :| lo <= t1 < hi && Score(p, head, t1) == mx1.r;
      var t2 :| lo <= t2 < hi && Score(p, head, t2) == mx2.r;
      assert PositiveAt(p.exp, mx1.r);
      CancelFactor(den1, den2, p.exp(mx1.r));
    }
  }

  lemma CancelFactor(a: real, b: real, e: real)
    requires e > 0.0 && a * e == b * e
    ensures a == b
  {
    assert (a - b) * e == 0.0;
  }

  /** One warp: all 32 lanes of one head and split; lane 0 stores the denominator and the maximum. */
  method Tile(p: Problem, len: nat, head: nat, split: nat) returns (part: Partial)
    requires Valid(p) && CeilDiv(len, TOKEN_BLOCK) * TOKEN_BLOCK == len
    ensures SplitDone(p, len, head, split, part)
  {
    hide Accumulated, AccumulatedDim;
    ghost var lo, hi := split * len, LiveEnd(p, split * len, len);
    var slice, den, mx := TileLane(p, len, head, split, 0);
    LaneSlice(p, 0);
    var acc := slice[..];
    for lane := 1 to LANES
      invariant |acc| == lane * LaneWidth(p)
      invariant LaneState(p, head, 0, lo, hi, acc, den, mx)
    {
      var laneAcc, laneDen, laneMx := TileLane(p, len, head, split, lane);
      SameMaximum(p, head, lo, hi, den, mx, laneDen, laneMx);
      LaneAppend(p, head, lo, hi, acc, laneAcc[..], den, mx);
      acc := acc + laneAcc[..];
    }
    LaneSlice(p, 0);
    part := Partial(acc, den, mx);
  }

  /**
    Everything up to query head base + grouped of split `split` has been stored, where base is the first
    head of the current key/value head.
   */
  ghost predicate Filled(p: Problem, len: nat, parts: array2<Partial>, base: nat, split: nat, grouped: nat)
    requires p.g > 0
    reads parts
  {
    forall h, s | 0 <= h < parts.Length0 && 0 <= s < parts.Length1 &&
      (h < base || (h < base + p.g && (s < split || (s == split && h < base + grouped)))) ::
      SplitDone(p, len, h, s, parts[h, s])
  }

  ghost predicate AllDone(p: Problem, len: nat, parts: array2<Partial>)
    requires p.g > 0
    reads parts
  {
    forall h, s :: 0 <= h < parts.Length0 && 0 <= s < parts.Length1 ==> SplitDone(p, len, h, s, parts[h, s])
  }

  /** The grid of the tile kernel. Warps past the last query head of a group store nothing. */
  method LaunchTiles(p: Problem, len: nat) returns (parts: array2<Partial>)
    requires Valid(p) && CeilDiv(len, TOKEN_BLOCK) * TOKEN_BLOCK == len
    ensures parts.Length0 == p.hkv * p.g && parts.Length1 == p.splits
    ensures fresh(parts) && AllDone(p, len, parts)
  {
    hide SplitDone;
    parts := new Partial[p.hkv * p.g, p.splits]((_, _) => Partial([], 0.0, NegInf));
    for kvh := 0 to p.hkv
      invariant fresh(parts) && Filled(p, len, parts, kvh * p.g, 0, 0)
    {
      var base := kvh * p.g;
      MulMono(p.g, kvh + 1, p.hkv);
      assert p.g * (kvh + 1) == base + p.g == (kvh + 1) * p.g;
      for split := 0 to p.splits
        invariant fresh(parts) && Filled(p, len, parts, base, split, 0)
      {
        LaunchSplit(p, len, base, split, parts);
      }
    }
  }

  /** All workgroups of one key/value head and split. */
  method LaunchSplit(p: Problem, len: nat, base: nat, split: nat, parts: array2<Partial>)
    requires Valid(p) && CeilDiv(len, TOKEN_BLOCK) * TOKEN_BLOCK == len
    requires base + p.g <= parts.Length0 && split < parts.Length1
    requires Filled(p, len, parts, base, split, 0)
    modifies parts
    ensures Filled(p, len, parts, base, split + 1, 0)
  {
    hide SplitDone;
    var groups := CeilDiv(p.g, p.qg);
    CeilDivBounds(p.g, p.qg);
    for queryGroup := 0 to groups
      invariant Filled(p, len, parts, base, split, queryGroup * p.qg)
    {
      for warp := 0 to p.qg
        invariant Filled(p, len, parts, base, split, queryGroup * p.qg + warp)
      {
        var groupedHead := queryGroup * p.qg + warp;
        if groupedHead < p.g {
          var head := base + groupedHead;
          var part := Tile(p, len, head, split);
          parts[head, split] := part;
        }
      }
      assert queryGroup * p.qg + p.qg == (queryGroup + 1) * p.qg;
    }
    assert p.qg * groups == groups * p.qg;
  }

  // ---------------------------------------------------------------- merging the splits

  /** Live tokens in the first n splits. */
  function SplitEnd(p: Problem, len: nat, n: nat): nat { Least(n * len, p.tc) }

  lemma SplitEndStep(p: Problem, len: nat, s: nat)
    ensures SplitEnd(p, len, s) <= SplitEnd(p, len, s + 1)
    ensures s * len < p.tc ==> SplitEnd(p, len, s) == s * len && SplitEnd(p, len, s + 1) == LiveEnd(p, s * len, len)
    ensures s * len >= p.tc ==> SplitEnd(p, len, s) == SplitEnd(p, len, s + 1) == p.tc
  {
    assert (s + 1) * len == s * len + len;
  }

  lemma MergeFactor(p: Problem, reg: real, add: real, mx: real, gmax: real, sum: real, more: real)
    requires Valid(p) && reg * p.exp(gmax) == sum && add * p.exp(mx) == more
    ensures Axpy(reg, p.exp(mx - gmax), add) * p.exp(gmax) == sum + more
  {
    ExpOfDifference(p, mx, gmax);
    var e, x := p.exp(gmax), p.exp(mx - gmax);
    assert (reg + x * add) * e == reg * e + (x * add) * e;
    assert (x * add) * e == add * (x * e);
  }

  /** The first `prev` tokens, then a split that walks [lo, hi), are the first `next` tokens. */
  ghost predicate Extends(prev: nat, lo: nat, hi: nat, next: nat) {
    if lo < hi then prev == lo && next == hi else prev == next
  }

  lemma AxpyZero(a: real, w: real)
    ensures Axpy(a, w, 0.0) == a
  {
  }

  lemma MergeDenAt(p: Problem, head: nat, prev: nat, lo: nat, hi: nat, next: nat, part: Partial, gmax: real, den: real)
    requires Valid(p) && Extends(prev, lo, hi, next) && Accumulated(p, head, lo, hi, part.den, part.mx)
    requires den * p.exp(gmax) == SumW(p, head, 0, prev)
    ensures Axpy(den, ExpDiff(p, part.mx, Fin(gmax)), part.den) * p.exp(gmax) == SumW(p, head, 0, next)
  {
    hide SumW, Axpy, IsMaxScore;
    if lo < hi {
      SumWJoin(p, head, 0, lo, hi);
      MergeFactor(p, den, part.den, part.mx.r, gmax, SumW(p, head, 0, lo), SumW(p, head, lo, hi));
    } else {
      AxpyZero(den, ExpDiff(p, part.mx, Fin(gmax)));
    }
  }

  lemma MergeAccAt(p: Problem, head: nat, prev: nat, lo: nat, hi: nat, next: nat, add: real, mx: Ext, gmax: real,
                   dim: nat, acc: real)
    requires Valid(p) && Extends(prev, lo, hi, next) && AccumulatedDim(p, head, dim, lo, hi, add, mx)
    requires acc * p.exp(gmax) == SumWV(p, head, dim, 0, prev)
    ensures Axpy(acc, ExpDiff(p, mx, Fin(gmax)), add) * p.exp(gmax) == SumWV(p, head, dim, 0, next)
  {
    hide SumWV, Axpy;
    if lo < hi {
      SumWVJoin(p, head, dim, 0, lo, hi);
      MergeFactor(p, acc, add, mx.r, gmax, SumWV(p, head, dim, 0, lo), SumWV(p, head, dim, lo, hi));
    } else {
      AxpyZero(acc, ExpDiff(p, mx, Fin(gmax)));
    }
  }

  /** One split: the merged denominator, scaled by the global baseline, covers one split more. */
  lemma MergeDen(p: Problem, len: nat, head: nat, s: nat, part: Partial, gmax: real, den: real)
    requires Valid(p) && SplitDone(p, len, head, s, part)
    requires den * p.exp(gmax) == SumW(p, head, 0, SplitEnd(p, len, s))
    ensures Axpy(den, ExpDiff(p, part.mx, Fin(gmax)), part.den) * p.exp(gmax) ==
      SumW(p, head, 0, SplitEnd(p, len, s + 1))
  {
    hide SumW, Accumulated, Axpy, ExpDiff;
    SplitEndStep(p, len, s);
    MergeDenAt(p, head, SplitEnd(p, len, s), s * len,
      LiveEnd(p, s * len, len), SplitEnd(p, len, s + 1), part, gmax, den);
  }

  lemma MergeAcc(p: Problem, len: nat, head: nat, s: nat, part: Partial, gmax: real, dim: nat, acc: real)
    requires Valid(p) && SplitDone(p, len, head, s, part) && dim < p.hd
    requires acc * p.exp(gmax) == SumWV(p, head, dim, 0, SplitEnd(p, len, s))
    ensures Axpy(acc, ExpDiff(p, part.mx, Fin(gmax)), part.acc[dim]) * p.exp(gmax) ==
      SumWV(p, head, dim, 0, SplitEnd(p, len, s + 1))
  {
    hide SumWV, Accumulated, AccumulatedDim, Axpy, ExpDiff;
    SplitEndStep(p, len, s);
    assert AccumulatedDim(p, head, 0 + dim, s * len, LiveEnd(p, s * len, len), part.acc[dim], part.mx);
    MergeAccAt(p, head, SplitEnd(p, len, s), s * len, LiveEnd(p, s * len, len), SplitEnd(p, len, s + 1),
      part.acc[dim], part.mx, gmax, dim, acc);
  }

  lemma PositiveFactor(a: real, e: real)
    requires e > 0.0 && a * e > 0.0
    ensures a > 0.0
  {
  }

  lemma CancelBaseline(acc: real, den: real, e: real, num: real, total: real)
    requires e > 0.0 && acc * e == num && den * e == total && total > 0.0
    ensures den > 0.0 && acc / den == num / total
  {
    PositiveFactor(den, e);
    var r := num / total;
    assert num == r * total == r * (den * e) == (r * den) * e;
    CancelFactor(acc, r * den, e);
  }

  ghost predicate MergedRegisters(p: Problem, head: nat, dim0: nat, hi: nat, gmax: real, acc: seq<real>, den: real)
    requires p.g > 0
  {
    && den * p.exp(gmax) == SumW(p, head, 0, hi)
    && forall d :: 0 <= d < |acc| ==> acc[d] * p.exp(gmax) == SumWV(p, head, dim0 + d, 0, hi)
  }

  const LEAST_BASELINE: real := -1000000000000000000000000000000.0

  /** The baseline: the largest split maximum, but at least -1e30, so that it is finite even for empty splits. */
  method GlobalMax(splits: seq<Partial>) returns (gmax: real)
    ensures LEAST_BASELINE <= gmax
    ensures forall s :: 0 <= s < |splits| && splits[s].mx.Fin? ==> splits[s].mx.r <= gmax
    ensures gmax == LEAST_BASELINE || exists s :: 0 <= s < |splits| && splits[s].mx == Fin(gmax)
  {
    gmax := LEAST_BASELINE;
    for s := 0 to |splits|
      invariant LEAST_BASELINE <= gmax
      invariant forall j :: 0 <= j < s && splits[j].mx.Fin? ==> splits[j].mx.r <= gmax
      invariant gmax == LEAST_BASELINE || exists j :: 0 <= j < s && splits[j].mx == Fin(gmax)
    {
      gmax := MaxExt(Fin(gmax), splits[s].mx).r;
    }
  }

  /** The lanes compute the weight of every split once, 32 at a time, into shared memory. */
  method SplitWeights(p: Problem, splits: seq<Partial>, gmax: real) returns (weights: array<real>)
    ensures fresh(weights) && weights.Length == |splits|
    ensures forall s :: 0 <= s < |splits| ==> weights[s] == ExpDiff(p, splits[s].mx, Fin(gmax))
  {
    weights := new real[|splits|];
    CeilDivBounds(|splits|, LANES);
    for iteration := 0 to CeilDiv(|splits|, LANES)
      invariant forall s :: 0 <= s < iteration * LANES && s < |splits| ==>
        weights[s] == ExpDiff(p, splits[s].mx, Fin(gmax))
    {
      for lane := 0 to LANES
        invariant forall s :: 0 <= s < iteration * LANES + lane && s < |splits| ==>
          weights[s] == ExpDiff(p, splits[s].mx, Fin(gmax))
      {
        var splitIdx := iteration * LANES + lane;
        if splitIdx < |splits| {
          weights[splitIdx] := ExpDiff(p, splits[splitIdx].mx, Fin(gmax));
        }
      }
    }
  }

  /** The accumulators of one lane take in one split. */
  method AddSplit(weight: real, row: seq<real>, acc: array<real>)
    requires |row| == acc.Length
    modifies acc
    ensures forall d :: 0 <= d < acc.Length ==> acc[d] == Axpy(old(acc[d]), weight, row[d])
  {
    for d := 0 to acc.Length
      invariant forall j :: d <= j < acc.Length ==> acc[j] == old(acc[j])
      invariant forall j :: 0 <= j < d ==> acc[j] == Axpy(old(acc[j]), weight, row[j])
    {
      acc[d] := acc[d] + weight * row[d];
    }
  }

  ghost predicate SplitsReady(p: Problem, len: nat, head: nat, splits: seq<Partial>, weights: seq<real>, gmax: real)
    requires p.g > 0
  {
    && |splits| == |weights| == p.splits
    && (forall s :: 0 <= s < p.splits ==> SplitDone(p, len, head, s, splits[s]))
    && (forall s :: 0 <= s < p.splits ==> weights[s] == ExpDiff(p, splits[s].mx, Fin(gmax)))
  }

  /** The registers of one lane take in one split. */
  method MergeSplit(
    p: Problem, len: nat, head: nat, ghost splits: seq<Partial>, ghost weights: seq<real>, ghost gmax: real,
    s: nat, part: Partial, weight: real, dim0: nat, acc: array<real>, den: real) returns (den': real)
    requires Valid(p) && SplitsReady(p, len, head, splits, weights, gmax)
    requires s < p.splits && part == splits[s] && weight == weights[s] && dim0 + acc.Length <= p.hd
    requires MergedRegisters(p, head, dim0, SplitEnd(p, len, s), gmax, acc[..], den)
    modifies acc
    ensures MergedRegisters(p, head, dim0, SplitEnd(p, len, s + 1), gmax, acc[..], den')
  {
    hide SplitEnd, SumW, SumWV, ExpDiff, Axpy;
    assert SplitDone(p, len, head, s, splits[s]);
    ghost var before := acc[..];
    AddSplit(weight, part.acc[dim0..dim0 + acc.Length], acc);
    den' := Axpy(den, weight, part.den);
    MergeDen(p, len, head, s, part, gmax, den);
    MergeRegisters(p, len, head, s, part, gmax, dim0, before, acc[..]);
  }

  /** One lane of the combine kernel: its slice of the output row. */
  method CombineLane(
    p: Problem, len: nat, head: nat, splits: seq<Partial>, weights: seq<real>, ghost gmax: real, lane: nat)
    returns (slice: seq<real>)
    requires Valid(p) && lane < LANES && p.tc <= p.splits * len
    requires SplitsReady(p, len, head, splits, weights, gmax)
    ensures |slice| == LaneWidth(p)
    ensures lane * LaneWidth(p) + LaneWidth(p) <= p.hd
    ensures forall d :: 0 <= d < |slice| ==> slice[d] == Attention(p, head, lane * LaneWidth(p) + d)
  {
    hide SplitsReady, Attention, SplitDone;
    LaneSlice(p, lane);
    var dim0 := lane * LaneWidth(p);
    var acc := new real[LaneWidth(p)](_ => 0.0);
    var den := 0.0;
    assert SplitEnd(p, len, 0) == 0;
    ReadyLengths(p, len, head, splits, weights, gmax);
    for s := 0 to p.splits
      invariant MergedRegisters(p, head, dim0, SplitEnd(p, len, s), gmax, acc[..], den)
    {
      den := MergeSplit(p, len, head, splits, weights, gmax, s, splits[s], weights[s], dim0, acc, den);
    }
    assert SplitEnd(p, len, p.splits) == p.tc;
    FinalDivision(p, head, dim0, gmax, acc[..], den);
    slice := DivideBy(acc[..], den);
  }

  lemma ReadyLengths(p: Problem, len: nat, head: nat, splits: seq<Partial>, weights: seq<real>, gmax: real)
    requires p.g > 0 && SplitsReady(p, len, head, splits, weights, gmax)
    ensures |splits| == |weights| == p.splits
  {
  }

  lemma MergeRegisters(p: Problem, len: nat, head: nat, s: nat, part: Partial, gmax: real, dim0: nat,
                       acc: seq<real>, acc': seq<real>)
    requires Valid(p) && SplitDone(p, len, head, s, part) && |acc| == |acc'| && dim0 + |acc| <= p.hd == |part.acc|
    requires forall d :: 0 <= d < |acc| ==> acc[d] * p.exp(gmax) == SumWV(p, head, dim0 + d, 0, SplitEnd(p, len, s))
    requires forall d :: 0 <= d < |acc| ==>
      acc'[d] == Axpy(acc[d], ExpDiff(p, part.mx, Fin(gmax)), part.acc[dim0..dim0 + |acc|][d])
    ensures forall d :: 0 <= d < |acc| ==> acc'[d] * p.exp(gmax) == SumWV(p, head, dim0 + d, 0, SplitEnd(p, len, s + 1))
  {
    hide SplitDone, SplitEnd, SumWV, Axpy;
    forall d | 0 <= d < |acc|
      ensures acc'[d] * p.exp(gmax) == SumWV(p, head, dim0 + d, 0, SplitEnd(p, len, s + 1))
    {
      MergeAcc(p, len, head, s, part, gmax, dim0 + d, acc[d]);
      assert part.acc[dim0..dim0 + |acc|][d] == part.acc[dim0 + d];
    }
  }

  function DivideBy(acc: seq<real>, den: real): seq<real>
    requires den != 0.0
  {
    seq(|acc|, d requires 0 <= d < |acc| => acc[d] / den)
  }

  /** The baseline cancels in the quotient. */
  lemma FinalDivision(p: Problem, head: nat, dim0: nat, gmax: real, acc: seq<real>, den: real)
    requires Valid(p) && MergedRegisters(p, head, dim0, p.tc, gmax, acc, den)
    ensures den > 0.0
    ensures forall d :: 0 <= d < |acc| ==> DivideBy(acc, den)[d] == Attention(p, head, dim0 + d)
  {
    SumWPositive(p, head, p.tc);
    assert PositiveAt(p.exp, gmax);
    PositiveFactor(den, p.exp(gmax));
    forall d | 0 <= d < |acc|
      ensures DivideBy(acc, den)[d] == Attention(p, head, dim0 + d)
    {
      CancelBaseline(acc[d], den, p.exp(gmax), SumWV(p, head, dim0 + d, 0, p.tc), SumW(p, head, 0, p.tc));
    }
  }

  /** The combine kernel for one query head. */
  method Combine(p: Problem, len: nat, head: nat, splits: seq<Partial>) returns (row: seq<real>)
    requires Valid(p) && |splits| == p.splits && p.tc <= p.splits * len
    requires forall s :: 0 <= s < p.splits ==> SplitDone(p, len, head, s, splits[s])
    ensures IsAttentionRow(p, head, row)
  {
    hide SplitDone, Attention;
    var gmax := GlobalMax(splits);
    var shared := SplitWeights(p, splits, gmax);
    var weights := shared[..];
    row := [];
    for lane := 0 to LANES
      invariant |row| == lane * LaneWidth(p)
      invariant forall dim :: 0 <= dim < |row| ==> row[dim] == Attention(p, head, dim)
    {
      var slice := CombineLane(p, len, head, splits, weights, gmax, lane);
      assert forall d :: 0 <= d < |slice| ==> slice[d] == Attention(p, head, |row| + d);
      row := row + slice;
    }
    LaneSlice(p, 0);
  }

  /** The partials of one head, as the combine kernel indexes them. */
  method PartialsOf(p: Problem, ghost len: nat, parts: array2<Partial>, head: nat) returns (splits: seq<Partial>)
    requires head < parts.Length0
    requires p.g > 0 && AllDone(p, len, parts)
    ensures |splits| == parts.Length1 && forall s :: 0 <= s < |splits| ==> SplitDone(p, len, head, s, splits[s])
  {
    hide SplitDone;
    splits := [];
    for s := 0 to parts.Length1
      invariant |splits| == s && forall j :: 0 <= j < s ==> SplitDone(p, len, head, j, splits[j])
    {
      splits := splits + [parts[head, s]];
    }
  }

  /** Both kernels in turn: the result is softmax attention, for every query head and dimension. */
  method FlashDecode(p: Problem) returns (out: seq<seq<real>>)
    requires Valid(p)
    ensures |out| == p.hkv * p.g
    ensures forall head :: 0 <= head < |out| ==> IsAttentionRow(p, head, out[head])
  {
    hide SplitDone, IsAttentionRow;
    var len := SplitGeometry.AlignedPerSplitLength(p.splits, p.tc);
    SplitGeometry.AlignedLengthReaches(p.splits, p.tc);
    var parts := LaunchTiles(p, len);
    out := [];
    for head := 0 to p.hkv * p.g
      invariant |out| == head
      invariant AllDone(p, len, parts)
      invariant forall h :: 0 <= h < head ==> IsAttentionRow(p, h, out[h])
    {
      var splits := PartialsOf(p, len, parts, head);
      var row := Combine(p, len, head, splits);
      out := out + [row];
    }
  }

  ghost predicate IsAttentionRow(p: Problem, head: nat, row: seq<real>)
    requires Valid(p)
  {
    |row| == p.hd && forall dim :: 0 <= dim < p.hd ==> row[dim] == Attention(p, head, dim)
  }
}
