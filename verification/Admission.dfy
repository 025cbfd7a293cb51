/**
  How long a context may be for a model and the memory that was scanned (`tinygrad/llm/admission.py`, with the
  budget of `tinygrad/llm/memory_ledger.py`).

  `AdmittedFits` says that no admitted context exceeds the budget; `ExplicitAdmittedIff` and `AutoChoice` say
  exactly which requests are admitted, and with which storage.
 */
module Admission {
  import opened IndexMath
  import opened MixedRadix
  import opened Wrappers

  // ---------------------------------------------------------------- the budget

  datatype Facts = Facts(probeOk: bool, total: Option<int>, free: Option<int>, alignment: Option<int>)

  datatype Budget = Budget(free: Option<nat>, reserve: Option<nat>)

  function AlignUp(n: nat, alignment: nat): nat
    requires alignment > 0
  {
    (n + alignment - 1) / alignment * alignment
  }

  predicate Complete(f: Facts) {
    && f.probeOk && f.total.Some? && f.free.Some? && f.alignment.Some? && f.alignment.value > 0
    && 0 <= f.free.value <= f.total.value
  }

  function ScannedBudget(f: Facts): Budget {
    if Complete(f) then Budget(Some(f.free.value), Some(AlignUp(f.total.value - f.free.value, f.alignment.value)))
    else Budget(None, None)
  }

  function AdmittedBytes(b: Budget): Option<nat> {
    if b.free.None? || b.reserve.None? then None
    else Some(if b.free.value >= b.reserve.value then b.free.value - b.reserve.value else 0)
  }

  /** The least multiple of the alignment that is not below n. */
  lemma AlignUpFacts(n: nat, alignment: nat)
    requires alignment > 0
    ensures n <= AlignUp(n, alignment) < n + alignment && AlignUp(n, alignment) % alignment == 0
  {
    CeilDivBounds(n, alignment);
    var q := CeilDiv(n, alignment);
    assert q * alignment == alignment * q;
    DivModUnique(q * alignment, alignment, q, 0);
  }

  /**
    A budget exists exactly for a complete scan. It is the free memory less a multiple of the alignment that is at
    least what is in use, by less than one alignment, or 0 if that is more than what is free.
   */
  lemma BudgetReserves(f: Facts)
    ensures AdmittedBytes(ScannedBudget(f)).Some? <==> Complete(f)
    ensures Complete(f) <==>
      && f.probeOk && f.alignment.Some? && f.alignment.value > 0
      && f.total.Some? && f.free.Some? && 0 <= f.free.value <= f.total.value
    ensures Complete(f) ==>
      var bytes, used := AdmittedBytes(ScannedBudget(f)).value, f.total.value - f.free.value;
      && f.free.value - used - f.alignment.value + 1 <= bytes <= f.free.value
      && (bytes > 0 ==> bytes + used <= f.free.value && (f.free.value - bytes) % f.alignment.value == 0)
  {
    if Complete(f) {
      AlignUpFacts(f.total.value - f.free.value, f.alignment.value);
    }
  }

  // ---------------------------------------------------------------- the request

  datatype Request = Auto | Tokens(n: int)

  datatype Stream = StreamAuto | StreamOn | StreamOff

  /** kv: bytes per token in half precision; scale: extra bytes per token of the quantised form. */
  datatype Inputs = Inputs(request: Request, trained: nat, weights: nat, kv: nat, prefill: nat, scratch: nat,
                           quant: bool, scale: nat, stream: Stream, ringSupported: bool)

  datatype Storage = Fp16 | Q8 | Ring

  datatype Decision = Admitted(context: int, storage: Storage) | NoBudget | NoRing | NoWindow | TooLong | Refused

  function Fixed(i: Inputs): nat { i.weights + i.scratch }

  /** Bytes that one token of context takes. */
  function PerToken(i: Inputs, storage: Storage): nat {
    match storage
    case Q8 => i.kv / 2 + i.scale + i.prefill
    case _ => i.kv + i.prefill
  }

  function Capacity(i: Inputs, budget: nat, storage: Storage): int {
    if PerToken(i, storage) > 0 then (budget - Fixed(i)) / PerToken(i, storage) else i.trained
  }

  function Target(i: Inputs): int { if i.request.Auto? then i.trained else i.request.n }

  function Window(i: Inputs, budget: nat): int {
    var fp16 := Least(Capacity(i, budget, Fp16), i.trained);
    if i.request.Auto? then fp16 else Least(i.request.n, fp16)
  }

  function Resolve(i: Inputs, b: Budget): Decision {
    if AdmittedBytes(b).None? then NoBudget
    else
      var budget := AdmittedBytes(b).value;
      var fp16 := Capacity(i, budget, Fp16);
      var q8 := if i.quant then Capacity(i, budget, Q8) else -1;
      var window, target := Window(i, budget), Target(i);
      if i.stream.StreamOn? then
        if !i.ringSupported then NoRing else if window <= 0 then NoWindow else Admitted(window, Ring)
      else if fp16 >= target then Admitted(Least(target, Least(fp16, i.trained)), Fp16)
      else if i.quant && q8 >= target then Admitted(Least(target, Least(q8, i.trained)), Q8)
      else if !i.request.Auto? then TooLong
      else if i.ringSupported && !i.stream.StreamOff? && window > 0 then Admitted(window, Ring)
      else Refused
  }

  // ---------------------------------------------------------------- what is admitted

  /** The weights, the scratch memory and n tokens of keys, values and prefill fit into the budget. */
  predicate FitsIn(i: Inputs, budget: nat, storage: Storage, n: int) {
    var kv := if storage.Q8? then i.kv / 2 + i.scale else i.kv;
    i.weights + i.scratch + n * kv + n * i.prefill <= budget
  }

  /** The capacity is the exact limit. */
  lemma CapacityIsLimit(i: Inputs, budget: nat, storage: Storage, n: int)
    requires PerToken(i, storage) > 0
    ensures n <= Capacity(i, budget, storage) <==> FitsIn(i, budget, storage, n)
  {
    var pt, c := PerToken(i, storage), Capacity(i, budget, storage);
    DivModOf(budget - Fixed(i), pt);
    MulMono(pt, n, c);
    MulMono(pt, c + 1, n);
    assert pt * (c + 1) == pt * c + pt;
    var kv := pt - i.prefill;
    assert pt * n == n * kv + n * i.prefill;
  }

  /** No admitted context exceeds the budget or the trained length. */
  lemma AdmittedFits(i: Inputs, b: Budget)
    requires PerToken(i, Fp16) > 0 && PerToken(i, Q8) > 0 && Resolve(i, b).Admitted?
    ensures
      var d := Resolve(i, b);
      && AdmittedBytes(b).Some? && d.context <= i.trained && (i.request.Tokens? ==> d.context <= i.request.n)
      && FitsIn(i, AdmittedBytes(b).value, d.storage, d.context)
  {
    var d := Resolve(i, b);
    CapacityIsLimit(i, AdmittedBytes(b).value, d.storage, d.context);
  }

  /** For a positive request what is admitted is positive. */
  lemma AdmittedIsPositive(i: Inputs, b: Budget)
    requires Target(i) > 0 && i.trained > 0 && Resolve(i, b).Admitted?
    ensures Resolve(i, b).context > 0
  {
  }

  /** Without a forced ring an explicit length is admitted exactly when it fits in one of the exact forms. */
  lemma ExplicitAdmittedIff(i: Inputs, b: Budget)
    requires PerToken(i, Fp16) > 0 && PerToken(i, Q8) > 0
    requires AdmittedBytes(b).Some? && i.request.Tokens? && !i.stream.StreamOn?
    ensures
      var budget, n := AdmittedBytes(b).value, i.request.n;
      var half, quant := FitsIn(i, budget, Fp16, n), i.quant && FitsIn(i, budget, Q8, n);
      Resolve(i, b) == if half then Admitted(Least(n, i.trained), Fp16)
                       else if quant then Admitted(Least(n, i.trained), Q8) else TooLong
  {
    CapacityIsLimit(i, AdmittedBytes(b).value, Fp16, i.request.n);
    CapacityIsLimit(i, AdmittedBytes(b).value, Q8, i.request.n);
  }

  /**
    In automatic mode the whole trained length is taken if it fits in an exact form, half precision first; only if
    it does not, a lossy window may be used.
   */
  lemma AutoChoice(i: Inputs, b: Budget)
    requires PerToken(i, Fp16) > 0 && PerToken(i, Q8) > 0
    requires AdmittedBytes(b).Some? && i.request.Auto? && !i.stream.StreamOn?
    ensures
      var budget := AdmittedBytes(b).value;
      var half, quant := FitsIn(i, budget, Fp16, i.trained), i.quant && FitsIn(i, budget, Q8, i.trained);
      match Resolve(i, b)
      case Admitted(context, Fp16) => half && context == i.trained
      case Admitted(context, Q8) => !half && quant && context == i.trained
      case Admitted(context, Ring) => !half && !quant && i.ringSupported && !i.stream.StreamOff? && context > 0
      case Refused =>
        && !half && !quant
        && !(i.ringSupported && !i.stream.StreamOff? && i.trained > 0 && FitsIn(i, budget, Ring, 1))
      case _ => false
  {
    CapacityIsLimit(i, AdmittedBytes(b).value, Fp16, i.trained);
    CapacityIsLimit(i, AdmittedBytes(b).value, Q8, i.trained);
    CapacityIsLimit(i, AdmittedBytes(b).value, Ring, 1);
  }

  /** A forced window is used whenever the shape supports it and one token fits, even if an exact form would fit. */
  lemma ForcedWindow(i: Inputs, b: Budget)
    requires PerToken(i, Ring) > 0 && AdmittedBytes(b).Some? && i.stream.StreamOn?
    ensures
      match Resolve(i, b)
      case NoRing => !i.ringSupported
      case NoWindow =>
        i.ringSupported && !(Target(i) > 0 && i.trained > 0 && FitsIn(i, AdmittedBytes(b).value, Ring, 1))
      case Admitted(context, Ring) => i.ringSupported && context > 0
      case _ => false
  {
    CapacityIsLimit(i, AdmittedBytes(b).value, Ring, 1);
  }

  /** A window is as long as the budget, the trained length and an explicit request allow. */
  lemma WindowIsLargest(i: Inputs, b: Budget)
    requires PerToken(i, Fp16) > 0 && Resolve(i, b).Admitted? && Resolve(i, b).storage.Ring?
    ensures
      var n := Resolve(i, b).context;
      n == Target(i) || n == i.trained || !FitsIn(i, AdmittedBytes(b).value, Ring, n + 1)
  {
    CapacityIsLimit(i, AdmittedBytes(b).value, Ring, Resolve(i, b).context + 1);
  }

  /** Every admitted plan fits, whatever the budget, the request and the weights. */
  ghost predicate AlwaysFits(kv: nat, prefill: nat) {
    forall i: Inputs, b: Budget :: i.kv == kv && i.prefill == prefill && !i.quant ==> PlanFits(i, b)
  }

  ghost predicate PlanFits(i: Inputs, b: Budget) {
    Resolve(i, b).Admitted? ==>
      AdmittedBytes(b).Some? && FitsIn(i, AdmittedBytes(b).value, Resolve(i, b).storage, Resolve(i, b).context)
  }

  /** That holds exactly when a token takes memory: otherwise the weights are never compared with the budget. */
  lemma AlwaysFitsIff(kv: nat, prefill: nat)
    ensures AlwaysFits(kv, prefill) <==> kv + prefill > 0
  {
    if kv + prefill > 0 {
      forall i: Inputs, b: Budget | i.kv == kv && i.prefill == prefill && !i.quant
        ensures PlanFits(i, b)
      {
        if Resolve(i, b).Admitted? {
          CapacityIsLimit(i, AdmittedBytes(b).value, Resolve(i, b).storage, Resolve(i, b).context);
        }
      }
    } else {
      var i := Inputs(Auto, 1, 1, 0, 0, 0, false, 0, StreamAuto, false);
      var b := Budget(Some(0), Some(0));
      assert Resolve(i, b) == Admitted(1, Fp16) && !FitsIn(i, 0, Fp16, 1);
      assert !PlanFits(i, b);
    }
  }

  // ---------------------------------------------------------------- the geometry behind the terms

  datatype Geometry = Geometry(blocks: nat, heads: nat, kvHeads: nat, headDim: nat, ubatch: nat, liveSplit: nat)

  function KvPerToken(g: Geometry): nat { 2 * g.kvHeads * g.headDim * 2 * g.blocks }

  function PrefillPerToken(g: Geometry): nat { 4 * g.heads * g.ubatch }

  function FlashScratch(g: Geometry): nat { g.heads * g.liveSplit * (g.headDim + 2) * 4 }

  function ScalePerToken(g: Geometry): nat { 2 * g.kvHeads * 2 * g.blocks }

  /** The inputs of one model: weights are the packed ones and, if they stay resident, their half-precision form. */
  function InputsOf(g: Geometry, request: Request, trained: nat, packed: nat, expanded: nat, resident: bool,
                    quant: bool, stream: Stream, ringSupported: bool): Inputs {
    Inputs(request, trained, packed + if resident then expanded else 0, KvPerToken(g), PrefillPerToken(g),
           FlashScratch(g), quant, if quant then ScalePerToken(g) else 0, stream, ringSupported)
  }

  lemma ProdOfTwo(a: nat, b: nat)
    ensures Prod([a, b]) == a * b
  {
    assert [a, b][..1] == [a];
    ProdOne(a);
  }

  lemma ProdOfThree(a: nat, b: nat, c: nat)
    ensures Prod([a, b, c]) == a * b * c
  {
    assert [a, b, c][..2] == [a, b];
    ProdOfTwo(a, b);
  }

  lemma ProdOfFour(a: nat, b: nat, c: nat, d: nat)
    ensures Prod([a, b, c, d]) == a * b * c * d
  {
    assert [a, b, c, d][..3] == [a, b, c];
    ProdOfThree(a, b, c);
  }

  /**
    What the terms stand for: two bytes for every block, key-value head and dimension of the keys and of the values,
    four for every query head and row of the prefill, four for every query head, split and column of the partial
    results, and two for every quantised vector.
   */
  lemma TermsCountElements(g: Geometry, request: Request, trained: nat, packed: nat, expanded: nat, resident: bool,
                           quant: bool, stream: Stream, ringSupported: bool)
    returns (kv: set<seq<nat>>, rows: set<seq<nat>>, partials: set<seq<nat>>, vectors: set<seq<nat>>)
    ensures forall x :: x in kv <==> InBox([2, g.blocks, g.kvHeads, g.headDim], x)
    ensures forall x :: x in rows <==> InBox([g.heads, g.ubatch], x)
    ensures forall x :: x in partials <==> InBox([g.heads, g.liveSplit, g.headDim + 2], x)
    ensures forall x :: x in vectors <==> InBox([2, g.blocks, g.kvHeads], x)
    ensures
      var i := InputsOf(g, request, trained, packed, expanded, resident, quant, stream, ringSupported);
      && i.kv == 2 * |kv| && i.prefill == 4 * |rows| && i.scratch == 4 * |partials|
      && i.scale == (if quant then 2 * |vectors| else 0)
      && i.weights == (if resident then packed + expanded else packed)
  {
    hide InBox, Prod;
    kv := BoxCount([2, g.blocks, g.kvHeads, g.headDim]);
    rows := BoxCount([g.heads, g.ubatch]);
    partials := BoxCount([g.heads, g.liveSplit, g.headDim + 2]);
    vectors := BoxCount([2, g.blocks, g.kvHeads]);
    ProdOfFour(2, g.blocks, g.kvHeads, g.headDim);
    ProdOfTwo(g.heads, g.ubatch);
    ProdOfThree(g.heads, g.liveSplit, g.headDim + 2);
    ProdOfThree(2, g.blocks, g.kvHeads);
    assert KvPerToken(g) == 2 * (2 * g.blocks * g.kvHeads * g.headDim);
    assert PrefillPerToken(g) == 4 * (g.heads * g.ubatch);
    assert ScalePerToken(g) == 2 * (2 * g.blocks * g.kvHeads);
  }

  lemma PositiveProduct(a: nat, b: nat)
    requires a > 0 && b > 0
    ensures a * b > 0
  {
    MulMono(a, 1, b);
  }

  /** Any model with layers, heads and a head dimension uses memory for every token, in every storage form. */
  lemma ModelsTakeMemory(g: Geometry, request: Request, trained: nat, packed: nat, expanded: nat, resident: bool,
                         quant: bool, stream: Stream, ringSupported: bool, storage: Storage)
    requires g.blocks > 0 && g.kvHeads > 0 && g.headDim > 0
    ensures
      PerToken(InputsOf(g, request, trained, packed, expanded, resident, quant, stream, ringSupported), storage) > 0
  {
    PositiveProduct(g.kvHeads, g.headDim);
    PositiveProduct(g.kvHeads * g.headDim, g.blocks);
    var n := g.kvHeads * g.headDim * g.blocks;
    assert KvPerToken(g) == 4 * n by {
      assert 2 * g.kvHeads * g.headDim * 2 * g.blocks == 4 * (g.kvHeads * g.headDim) * g.blocks;
    }
    assert PrefillPerToken(g) >= 0 && ScalePerToken(g) >= 0;
  }
}
