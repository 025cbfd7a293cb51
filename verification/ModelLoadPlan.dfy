/**
  Deciding from a file's tensor table whether a model may be loaded: the layout check and the allocation ledger
  (`tinygrad/llm/gguf_memory_scan.py`, `tinygrad/llm/memory_ledger.py`, `tinygrad/llm/admission.py`).

  `AcceptedLayoutIff` says when the table is accepted; `AdmittedPlanFits` says that an admitted plan knows every
  size and fits into the scanned budget.
 */
module ModelLoadPlan {
  import opened IndexMath
  import opened Admission
  import opened MixedRadix
  import opened Wrappers

  // ---------------------------------------------------------------- the tensor table

  datatype Info = Info(name: string, dims: seq<nat>, kind: nat, off: int)

  /** Storage types: bytes per element, or elements and bytes per block. */
  datatype Types = Types(native: map<nat, nat>, quant: map<nat, (nat, nat)>)

  ghost predicate ValidTypes(t: Types) { forall k :: k in t.quant ==> t.quant[k].0 > 0 }

  function Elements(dims: seq<nat>): nat { if dims == [] then 1 else dims[0] * Elements(dims[1..]) }

  lemma {:induction false} ElementsIsProd(dims: seq<nat>)
    ensures Elements(dims) == Prod(dims)
  {
    if dims != [] {
      ElementsIsProd(dims[1..]);
      ProdFirst(dims);
    }
  }

  /** A tensor has one element for every index into it. */
  lemma ElementsAreIndices(dims: seq<nat>) returns (indices: set<seq<nat>>)
    ensures |indices| == Elements(dims) && forall idx :: idx in indices <==> InBox(dims, idx)
  {
    indices := BoxCount(dims);
    ElementsIsProd(dims);
  }

  /** Joining two shapes multiplies their counts. */
  lemma ElementsConcat(a: seq<nat>, b: seq<nat>)
    ensures Elements(a + b) == Elements(a) * Elements(b)
  {
    ElementsIsProd(a);
    ElementsIsProd(b);
    ElementsIsProd(a + b);
    ProdConcat(a, b);
  }

  /** _payload_bytes: None for an unknown type or a partial block. */
  function PayloadBytes(t: Types, dims: seq<nat>, kind: nat): Option<nat>
    requires ValidTypes(t)
  {
    var elements := Elements(dims);
    if kind in t.native then Some(elements * t.native[kind])
    else if kind in t.quant then
      var block := t.quant[kind];
      if elements % block.0 != 0 then None else Some(elements / block.0 * block.1)
    else None
  }

  /** Known payloads: whole elements of a native type, or whole blocks, as many as the elements fill. */
  lemma PayloadIff(t: Types, dims: seq<nat>, kind: nat, bytes: nat)
    requires ValidTypes(t)
    ensures
      PayloadBytes(t, dims, kind) == Some(bytes) <==>
      if kind in t.native then bytes == Elements(dims) * t.native[kind]
      else (kind in t.quant &&
            exists blocks: nat :: blocks * t.quant[kind].0 == Elements(dims) && bytes == blocks * t.quant[kind].1)
  {
    if kind !in t.native && kind in t.quant {
      var elements, size := Elements(dims), t.quant[kind].0;
      DivModOf(elements, size);
      if elements % size == 0 {
        assert elements / size * size == elements;
      }
      forall blocks: nat | blocks * size == elements
        ensures elements % size == 0 && elements / size == blocks
      {
        assert blocks * size == size * blocks + 0;
        DivModUnique(elements, size, blocks, 0);
      }
    }
  }

  datatype Span = Span(name: string, start: int, payload: Option<nat>, room: Option<int>)

  // ---------------------------------------------------------------- sorting by offset

  ghost predicate SortedByOffset(s: seq<Info>) { forall i, j :: 0 <= i < j < |s| ==> s[i].off <= s[j].off }

  function Insert(s: seq<Info>, x: Info): seq<Info> {
    if s == [] || s[|s| - 1].off <= x.off then s + [x]
    else Insert(s[..|s| - 1], x) + [s[|s| - 1]]
  }

  function SortByOffset(s: seq<Info>): seq<Info> {
    if s == [] then [] else Insert(SortByOffset(s[..|s| - 1]), s[|s| - 1])
  }

  ghost predicate AtMost(s: seq<Info>, m: int) { forall i :: 0 <= i < |s| ==> s[i].off <= m }

  lemma {:induction false} InsertIsSorted(s: seq<Info>, x: Info, m: int)
    requires SortedByOffset(s) && AtMost(s, m) && x.off <= m
    ensures SortedByOffset(Insert(s, x)) && AtMost(Insert(s, x), m)
  {
    if !(s == [] || s[|s| - 1].off <= x.off) {
      InsertIsSorted(s[..|s| - 1], x, s[|s| - 1].off);
    }
  }

  lemma {:induction false} InsertIsPermutation(s: seq<Info>, x: Info)
    ensures multiset(Insert(s, x)) == multiset(s) + multiset{x}
  {
    if !(s == [] || s[|s| - 1].off <= x.off) {
      var n := |s| - 1;
      InsertIsPermutation(s[..n], x);
      assert s == s[..n] + [s[n]];
    }
  }

  lemma InsertFacts(s: seq<Info>, x: Info)
    requires SortedByOffset(s)
    ensures SortedByOffset(Insert(s, x)) && multiset(Insert(s, x)) == multiset(s) + multiset{x}
  {
    InsertIsPermutation(s, x);
    var m := if s == [] || s[|s| - 1].off <= x.off then x.off else s[|s| - 1].off;
    InsertIsSorted(s, x, m);
  }

  lemma {:induction false} SortFacts(s: seq<Info>)
    ensures SortedByOffset(SortByOffset(s)) && multiset(SortByOffset(s)) == multiset(s)
  {
    if s != [] {
      var n := |s| - 1;
      SortFacts(s[..n]);
      InsertFacts(SortByOffset(s[..n]), s[n]);
      assert s == s[..n] + [s[n]];
    }
  }

  // ---------------------------------------------------------------- _tensor_spans

  /** Where the room of entry pos ends: at the next entry, or at the end of the file. */
  function EndOf(ordered: seq<Info>, dataStart: nat, fileSize: Option<nat>, pos: nat): Option<int>
    requires pos < |ordered|
  {
    if pos + 1 < |ordered| then Some(dataStart + ordered[pos + 1].off)
    else if fileSize.Some? then Some(fileSize.value) else None
  }

  function SpanOf(t: Types, ordered: seq<Info>, dataStart: nat, fileSize: Option<nat>, pos: nat): Span
    requires ValidTypes(t) && pos < |ordered|
  {
    var info, end := ordered[pos], EndOf(ordered, dataStart, fileSize, pos);
    Span(info.name, dataStart + info.off, PayloadBytes(t, info.dims, info.kind),
         if end.None? then None else Some(end.value - (dataStart + info.off)))
  }

  /** The checks of one entry. */
  predicate SpanIsFine(info: Info, s: Span) {
    info.off >= 0 && (s.room.Some? ==> s.room.value >= 0) &&
    (s.room.Some? && s.payload.Some? ==> s.payload.value <= s.room.value)
  }

  ghost predicate NamesDistinct(infos: seq<Info>) {
    forall i, j :: 0 <= i < j < |infos| ==> infos[i].name != infos[j].name
  }

  ghost predicate LayoutIsFine(t: Types, ordered: seq<Info>, dataStart: nat, fileSize: Option<nat>)
    requires ValidTypes(t)
  {
    forall pos :: 0 <= pos < |ordered| ==> SpanIsFine(ordered[pos], SpanOf(t, ordered, dataStart, fileSize, pos))
  }

  /** None stands for any ValueError. */
  method TensorSpans(t: Types, infos: seq<Info>, dataStart: nat, fileSize: Option<nat>) returns (r: Option<seq<Span>>)
    requires ValidTypes(t)
    ensures r.Some? <==> NamesDistinct(infos) && LayoutIsFine(t, SortByOffset(infos), dataStart, fileSize)
    ensures r.Some? ==> r.value == AllSpans(t, SortByOffset(infos), dataStart, fileSize)
  {
    var ordered := SortByOffset(infos);
    var distinct := AreNamesDistinct(infos);
    if !distinct {
      return None;
    }
    var out: seq<Span> := [];
    for pos := 0 to |ordered|
      invariant out == AllSpans(t, ordered, dataStart, fileSize)[..pos]
      invariant forall p :: 0 <= p < pos ==> SpanIsFine(ordered[p], SpanOf(t, ordered, dataStart, fileSize, p))
    {
      var span := SpanOf(t, ordered, dataStart, fileSize, pos);
      if !SpanIsFine(ordered[pos], span) {
        return None;
      }
      out := out + [span];
    }
    return Some(out);
  }

  method AreNamesDistinct(infos: seq<Info>) returns (r: bool)
    ensures r <==> NamesDistinct(infos)
  {
    var seen: set<string> := {};
    for i := 0 to |infos|
      invariant NamesDistinct(infos[..i])
      invariant forall name :: name in seen <==> exists j :: 0 <= j < i && infos[j].name == name
    {
      if infos[i].name in seen {
        return false;
      }
      seen := seen + {infos[i].name};
    }
    assert infos[..|infos|] == infos;
    return true;
  }

  function AllSpans(t: Types, ordered: seq<Info>, dataStart: nat, fileSize: Option<nat>): seq<Span>
    requires ValidTypes(t)
  {
    seq(|ordered|, pos requires 0 <= pos < |ordered| => SpanOf(t, ordered, dataStart, fileSize, pos))
  }

  // ---------------------------------------------------------------- what acceptance means

  ghost predicate AllKnown(spans: seq<Span>) { forall i :: 0 <= i < |spans| ==> spans[i].payload.Some? }

  /** The payloads lie inside the file's data section, one after the other. */
  ghost predicate InFileInOrder(spans: seq<Span>, dataStart: nat, fileSize: nat)
    requires AllKnown(spans)
  {
    && (forall i :: 0 <= i < |spans| ==>
          dataStart <= spans[i].start && spans[i].start + spans[i].payload.value <= fileSize)
    && (forall i, j :: 0 <= i < j < |spans| ==> spans[i].start + spans[i].payload.value <= spans[j].start)
  }

  lemma {:induction false} RoomUpTo(t: Types, ordered: seq<Info>, dataStart: nat, fileSize: nat, i: nat, j: nat)
    requires ValidTypes(t) && SortedByOffset(ordered) && i < j <= |ordered|
    requires LayoutIsFine(t, ordered, dataStart, Some(fileSize))
    ensures
      var end := if j == |ordered| then fileSize else dataStart + ordered[j].off;
      SpanOf(t, ordered, dataStart, Some(fileSize), i).start +
        SpanOf(t, ordered, dataStart, Some(fileSize), i).room.value <= end
  {
    assert SpanIsFine(ordered[|ordered| - 1], SpanOf(t, ordered, dataStart, Some(fileSize), |ordered| - 1));
  }

  /** As far as its payload is known, tensor i ends before the next one or, if its size is known, the file ends. */
  ghost predicate EndsInTime(t: Types, ordered: seq<Info>, dataStart: nat, fileSize: Option<nat>, i: nat)
    requires ValidTypes(t) && i < |ordered|
  {
    var payload := PayloadBytes(t, ordered[i].dims, ordered[i].kind);
    var end := dataStart + ordered[i].off + if payload.Some? then payload.value else 0;
    && (i < |ordered| - 1 ==> end <= dataStart + ordered[i + 1].off)
    && (i == |ordered| - 1 && fileSize.Some? ==> end <= fileSize.value)
  }

  lemma SpanIsFineIff(t: Types, ordered: seq<Info>, dataStart: nat, fileSize: Option<nat>, i: nat)
    requires ValidTypes(t) && i < |ordered|
    ensures SpanIsFine(ordered[i], SpanOf(t, ordered, dataStart, fileSize, i)) <==>
      ordered[i].off >= 0 && EndsInTime(t, ordered, dataStart, fileSize, i)
  {
    hide PayloadBytes;
  }

  /** With or without known payloads and file size, that and offsets that are not negative is what is accepted. */
  lemma LayoutIff(t: Types, ordered: seq<Info>, dataStart: nat, fileSize: Option<nat>)
    requires ValidTypes(t)
    ensures LayoutIsFine(t, ordered, dataStart, fileSize) <==>
      forall i :: 0 <= i < |ordered| ==> ordered[i].off >= 0 && EndsInTime(t, ordered, dataStart, fileSize, i)
  {
    hide EndsInTime, SpanIsFine, SpanOf;
    forall i | 0 <= i < |ordered|
      ensures SpanIsFine(ordered[i], SpanOf(t, ordered, dataStart, fileSize, i)) <==>
        ordered[i].off >= 0 && EndsInTime(t, ordered, dataStart, fileSize, i)
    {
      SpanIsFineIff(t, ordered, dataStart, fileSize, i);
    }
  }

  /** With known payloads a table is accepted exactly when the payloads are laid out disjointly inside the file. */
  lemma AcceptedLayoutIff(t: Types, infos: seq<Info>, dataStart: nat, fileSize: nat)
    requires ValidTypes(t)
    ensures
      var ordered := SortByOffset(infos);
      var spans := AllSpans(t, ordered, dataStart, Some(fileSize));
      && multiset(ordered) == multiset(infos)
      && (AllKnown(spans) ==>
            (LayoutIsFine(t, ordered, dataStart, Some(fileSize)) <==> InFileInOrder(spans, dataStart, fileSize)))
  {
    SortFacts(infos);
    var ordered := SortByOffset(infos);
    var spans := AllSpans(t, ordered, dataStart, Some(fileSize));
    hide LayoutIsFine, InFileInOrder, AllSpans;
    if AllKnown(spans) {
      if LayoutIsFine(t, ordered, dataStart, Some(fileSize)) {
        FineIsInOrder(t, ordered, dataStart, fileSize);
      }
      if InFileInOrder(spans, dataStart, fileSize) {
        InOrderIsFine(t, ordered, dataStart, fileSize);
      }
    }
  }

  lemma InOrderIsFine(t: Types, ordered: seq<Info>, dataStart: nat, fileSize: nat)
    requires ValidTypes(t) && AllKnown(AllSpans(t, ordered, dataStart, Some(fileSize)))
    requires InFileInOrder(AllSpans(t, ordered, dataStart, Some(fileSize)), dataStart, fileSize)
    ensures LayoutIsFine(t, ordered, dataStart, Some(fileSize))
  {
    var spans := AllSpans(t, ordered, dataStart, Some(fileSize));
    forall pos | 0 <= pos < |ordered|
      ensures SpanIsFine(ordered[pos], SpanOf(t, ordered, dataStart, Some(fileSize), pos))
    {
      assert spans[pos] == SpanOf(t, ordered, dataStart, Some(fileSize), pos);
      if pos + 1 < |ordered| {
        assert spans[pos + 1].start == dataStart + ordered[pos + 1].off;
      }
    }
  }

  lemma FineIsInOrder(t: Types, ordered: seq<Info>, dataStart: nat, fileSize: nat)
    requires ValidTypes(t) && SortedByOffset(ordered) && LayoutIsFine(t, ordered, dataStart, Some(fileSize))
    requires AllKnown(AllSpans(t, ordered, dataStart, Some(fileSize)))
    ensures InFileInOrder(AllSpans(t, ordered, dataStart, Some(fileSize)), dataStart, fileSize)
  {
    var spans := AllSpans(t, ordered, dataStart, Some(fileSize));
    forall i | 0 <= i < |spans|
      ensures dataStart <= spans[i].start && spans[i].start + spans[i].payload.value <= fileSize
    {
      assert SpanIsFine(ordered[i], spans[i]);
      RoomUpTo(t, ordered, dataStart, fileSize, i, |ordered|);
    }
    forall i, j | 0 <= i < j < |spans|
      ensures spans[i].start + spans[i].payload.value <= spans[j].start
    {
      assert SpanIsFine(ordered[i], spans[i]);
      RoomUpTo(t, ordered, dataStart, fileSize, i, j);
    }
  }

  // ---------------------------------------------------------------- the ledger

  datatype Kind =
    GgufTensor | KvCache | RuntimePersistent | PrefillActivation | PrefillOutput | PrefillScratch | Workspace

  datatype Allocation = Allocation(name: string, kind: Kind, bytes: Option<nat>, candidate: Option<string>)

  datatype Reason = Unknown(name: string) | Missing(kind: Kind) | NoWorkspace | UnknownBudget | Exceeds(excess: nat)

  datatype Decision = Decision(peak: Option<nat>, reasons: seq<Reason>)

  predicate IsAdmitted(d: Decision) { d.reasons == [] }

  function Select(ledger: seq<Allocation>, candidate: string): seq<Allocation> {
    if ledger == [] then []
    else
      var a := ledger[|ledger| - 1];
      Select(ledger[..|ledger| - 1], candidate) +
      if a.candidate.None? || a.candidate.value == candidate then [a] else []
  }

  /** What counts for a candidate: its own entries and those of no candidate, each as often as it is in the ledger. */
  lemma {:induction false} SelectedIff(ledger: seq<Allocation>, candidate: string, a: Allocation)
    ensures multiset(Select(ledger, candidate))[a] ==
      if a.candidate == None || a.candidate == Some(candidate) then multiset(ledger)[a] else 0
  {
    if ledger != [] {
      var n := |ledger| - 1;
      SelectedIff(ledger[..n], candidate, a);
      assert ledger == ledger[..n] + [ledger[n]];
    }
  }

  function UnknownReasons(selected: seq<Allocation>): seq<Reason> {
    if selected == [] then []
    else
      var a := selected[|selected| - 1];
      UnknownReasons(selected[..|selected| - 1]) + if a.bytes.None? then [Unknown(a.name)] else []
  }

  const REQUIRED: seq<Kind> :=
    [GgufTensor, KvCache, RuntimePersistent, PrefillActivation, PrefillOutput, PrefillScratch]

  predicate HasKind(selected: seq<Allocation>, kind: Kind) { exists a :: a in selected && a.kind == kind }

  function MissingReasons(selected: seq<Allocation>, kinds: seq<Kind>): seq<Reason> {
    if kinds == [] then []
    else
      MissingReasons(selected, kinds[..|kinds| - 1]) +
      if HasKind(selected, kinds[|kinds| - 1]) then [] else [Missing(kinds[|kinds| - 1])]
  }

  function TotalBytes(selected: seq<Allocation>): nat {
    if selected == [] then 0
    else
      var a := selected[|selected| - 1];
      TotalBytes(selected[..|selected| - 1]) + if a.bytes.Some? then a.bytes.value else 0
  }

  function Decide(ledger: seq<Allocation>, budget: Budget, candidate: string): Decision {
    var selected := Select(ledger, candidate);
    var limit := AdmittedBytes(budget);
    var peak := if exists a :: a in selected && a.bytes.None? then None else Some(TotalBytes(selected));
    Decision(peak,
             UnknownReasons(selected) + MissingReasons(selected, REQUIRED)
             + (if exists a :: a in selected && a.kind.Workspace? && a.candidate == Some(candidate)
                then [] else [NoWorkspace])
             + (if limit.None? then [UnknownBudget] else [])
             + (if peak.Some? && limit.Some? && peak.value > limit.value
                then [Exceeds(peak.value - limit.value)] else []))
  }

  lemma {:induction false} NoUnknownIff(selected: seq<Allocation>)
    ensures UnknownReasons(selected) == [] <==> forall a :: a in selected ==> a.bytes.Some?
  {
    if selected != [] {
      var n := |selected| - 1;
      NoUnknownIff(selected[..n]);
      assert selected == selected[..n] + [selected[n]];
    }
  }

  lemma {:induction false} NoMissingIff(selected: seq<Allocation>, kinds: seq<Kind>)
    ensures MissingReasons(selected, kinds) == [] <==>
      forall k :: k in kinds ==> HasKind(selected, k)
  {
    if kinds != [] {
      var n := |kinds| - 1;
      NoMissingIff(selected, kinds[..n]);
      assert kinds == kinds[..n] + [kinds[n]];
    }
  }

  /** A candidate is admitted exactly when every size is known, every class is present and the sum fits the budget. */
  lemma AdmittedIff(ledger: seq<Allocation>, budget: Budget, candidate: string)
    ensures
      var selected := Select(ledger, candidate);
      IsAdmitted(Decide(ledger, budget, candidate)) <==>
        && (forall a :: a in selected ==> a.bytes.Some?)
        && (forall k :: k != Workspace ==> IsPresent(selected, k))
        && (exists a :: a in selected && a.kind.Workspace? && a.candidate == Some(candidate))
        && AdmittedBytes(budget).Some? && TotalBytes(selected) <= AdmittedBytes(budget).value
  {
    var selected := Select(ledger, candidate);
    NoUnknownIff(selected);
    NoMissingIff(selected, REQUIRED);
    RequiredKinds(selected);
  }

  ghost predicate IsPresent(selected: seq<Allocation>, kind: Kind) {
    exists i :: 0 <= i < |selected| && selected[i].kind == kind
  }

  lemma RequiredKind(selected: seq<Allocation>, k: Kind)
    ensures k in REQUIRED <==> k != Workspace
    ensures HasKind(selected, k) <==> IsPresent(selected, k)
  {
    if k != Workspace {
      assert REQUIRED[0] == GgufTensor && REQUIRED[1] == KvCache && REQUIRED[2] == RuntimePersistent;
      assert REQUIRED[3] == PrefillActivation && REQUIRED[4] == PrefillOutput && REQUIRED[5] == PrefillScratch;
    }
    if IsPresent(selected, k) {
      var i :| 0 <= i < |selected| && selected[i].kind == k;
      assert selected[i] in selected;
    }
  }

  lemma RequiredKinds(selected: seq<Allocation>)
    ensures (forall k :: k in REQUIRED ==> HasKind(selected, k)) <==>
      forall k :: k != Workspace ==> IsPresent(selected, k)
  {
    hide HasKind, IsPresent;
    forall k: Kind
      ensures k in REQUIRED <==> k != Workspace
      ensures HasKind(selected, k) <==> IsPresent(selected, k)
    {
      RequiredKind(selected, k);
    }
  }

  lemma {:induction false} UnknownIff(selected: seq<Allocation>, reason: Reason)
    ensures reason in UnknownReasons(selected) <==>
      exists i :: 0 <= i < |selected| && selected[i].bytes == None && reason == Unknown(selected[i].name)
  {
    if selected != [] {
      var n := |selected| - 1;
      UnknownIff(selected[..n], reason);
      if i :| 0 <= i < n && selected[i].bytes == None && reason == Unknown(selected[i].name) {
        assert selected[..n][i] == selected[i];
      }
    }
  }

  lemma {:induction false} MissingIff(selected: seq<Allocation>, kinds: seq<Kind>, reason: Reason)
    ensures reason in MissingReasons(selected, kinds) <==>
      reason.Missing? && reason.kind in kinds && !HasKind(selected, reason.kind)
  {
    if kinds != [] {
      var n := |kinds| - 1;
      MissingIff(selected, kinds[..n], reason);
      assert kinds == kinds[..n] + [kinds[n]];
    }
  }

  /** Which reasons are given, for a ledger and a budget: every one that applies and no other. */
  lemma ReasonIff(ledger: seq<Allocation>, budget: Budget, candidate: string, reason: Reason)
    ensures
      var selected, limit := Select(ledger, candidate), AdmittedBytes(budget);
      reason in Decide(ledger, budget, candidate).reasons <==>
        match reason
        case Unknown(name) => exists i :: 0 <= i < |selected| && selected[i].bytes == None && selected[i].name == name
        case Missing(kind) => kind != Workspace && !IsPresent(selected, kind)
        case NoWorkspace => forall a :: a in selected && a.kind == Workspace ==> a.candidate != Some(candidate)
        case UnknownBudget => limit == None
        case Exceeds(excess) =>
          && (forall a :: a in selected ==> a.bytes.Some?) && limit.Some?
          && excess > 0 && TotalBytes(selected) == limit.value + excess
  {
    var selected := Select(ledger, candidate);
    UnknownIff(selected, reason);
    MissingIff(selected, REQUIRED, reason);
    if reason.Missing? {
      RequiredKind(selected, reason.kind);
    }
    hide Select, AdmittedBytes, UnknownReasons, MissingReasons, HasKind, IsPresent, TotalBytes;
  }

  // ---------------------------------------------------------------- the ledger of one model

  /** Measured sizes outside the tensor table; None is a missing fact. */
  datatype Runtime = Runtime(kv: Option<nat>, persistent: Option<nat>, activations: Option<nat>, outputs: Option<nat>,
                             scratch: Option<nat>, workspace: Option<nat>)

  /** Aligned and duplicated. */
  function TensorBytes(payload: Option<nat>, alignment: Option<nat>, copies: Option<nat>): Option<nat>
    requires alignment.Some? ==> alignment.value > 0
  {
    if payload.None? || alignment.None? || copies.None? then None
    else Some(AlignUp(payload.value, alignment.value) * copies.value)
  }

  function TensorAllocations(spans: seq<Span>, alignment: Option<nat>, copies: Option<nat>): seq<Allocation>
    requires alignment.Some? ==> alignment.value > 0
  {
    seq(|spans|, i requires 0 <= i < |spans| =>
      Allocation("tensor:" + spans[i].name, GgufTensor, TensorBytes(spans[i].payload, alignment, copies), None))
  }

  function RuntimeAllocations(r: Runtime, candidate: string): seq<Allocation> {
    [Allocation("kv_cache", KvCache, r.kv, None),
     Allocation("runtime_persistent", RuntimePersistent, r.persistent, None),
     Allocation("peak_prefill_activations", PrefillActivation, r.activations, None),
     Allocation("peak_prefill_outputs", PrefillOutput, r.outputs, None),
     Allocation("peak_prefill_scratch", PrefillScratch, r.scratch, None),
     Allocation("workspace:" + candidate, Workspace, r.workspace, Some(candidate))]
  }

  function LedgerOf(
    spans: seq<Span>, alignment: Option<nat>, copies: Option<nat>, r: Runtime, candidate: string): seq<Allocation>
    requires alignment.Some? ==> alignment.value > 0
  {
    TensorAllocations(spans, alignment, copies) + RuntimeAllocations(r, candidate)
  }

  /** The ledger insists on distinct names; with distinct tensor names it always gets them. */
  lemma LedgerNamesDistinct(
    spans: seq<Span>, alignment: Option<nat>, copies: Option<nat>, r: Runtime, candidate: string)
    requires alignment.Some? ==> alignment.value > 0
    requires forall i, j :: 0 <= i < j < |spans| ==> spans[i].name != spans[j].name
    ensures
      var l := LedgerOf(spans, alignment, copies, r, candidate);
      forall i, j :: 0 <= i < j < |l| ==> l[i].name != l[j].name
  {
    var l, n := LedgerOf(spans, alignment, copies, r, candidate), |spans|;
    var rest := RuntimeAllocations(r, candidate);
    RuntimeNamesDistinct(r, candidate);
    hide RuntimeAllocations;
    forall i, j | 0 <= i < j < |l|
      ensures l[i].name != l[j].name
    {
      if j < n {
        assert l[i].name[7..] == spans[i].name && l[j].name[7..] == spans[j].name;
      } else if i < n {
        assert l[j] == rest[j - n] && l[i].name[0] == 't';
      } else {
        assert l[i] == rest[i - n] && l[j] == rest[j - n];
      }
    }
  }

  lemma RuntimeNamesDistinct(r: Runtime, candidate: string)
    ensures
      var l := RuntimeAllocations(r, candidate);
      && (forall i :: 0 <= i < |l| ==> l[i].name != [] && l[i].name[0] != 't')
      && (forall i, j :: 0 <= i < j < |l| ==> l[i].name != l[j].name)
  {
    var l := RuntimeAllocations(r, candidate);
    assert l[0].name[0] == 'k' && l[1].name[0] == 'r' && l[5].name[0] == 'w';
    assert l[2].name[0] == 'p' && l[3].name[0] == 'p' && l[4].name[0] == 'p';
    assert l[2].name[13] == 'a' && l[3].name[13] == 'o' && l[4].name[13] == 's';
  }

  // ---------------------------------------------------------------- what an admitted plan is

  /** What the tensors take on the device: each payload aligned and duplicated. */
  function Footprint(spans: seq<Span>, alignment: nat, copies: nat): nat
    requires alignment > 0 && AllKnown(spans)
  {
    if spans == [] then 0
    else
      Footprint(spans[..|spans| - 1], alignment, copies)
      + AlignUp(spans[|spans| - 1].payload.value, alignment) * copies
  }

  predicate RuntimeKnown(r: Runtime) {
    && r.kv.Some? && r.persistent.Some? && r.activations.Some? &&
       r.outputs.Some? && r.scratch.Some? && r.workspace.Some?
  }

  function RuntimeBytes(r: Runtime): nat
    requires RuntimeKnown(r)
  {
    r.kv.value + r.persistent.value + r.activations.value + r.outputs.value + r.scratch.value + r.workspace.value
  }

  lemma {:induction false} AllSelected(ledger: seq<Allocation>, candidate: string)
    requires forall a :: a in ledger ==> a.candidate.None? || a.candidate.value == candidate
    ensures Select(ledger, candidate) == ledger
  {
    if ledger != [] {
      var n := |ledger| - 1;
      assert ledger == ledger[..n] + [ledger[n]];
      AllSelected(ledger[..n], candidate);
    }
  }

  lemma {:induction false} TotalConcat(a: seq<Allocation>, b: seq<Allocation>)
    ensures TotalBytes(a + b) == TotalBytes(a) + TotalBytes(b)
  {
    if b == [] {
      assert a + b == a;
    } else {
      var n := |b| - 1;
      TotalConcat(a, b[..n]);
      assert (a + b)[..|a + b| - 1] == a + b[..n];
    }
  }

  lemma {:induction false} TensorsTakeFootprint(spans: seq<Span>, alignment: nat, copies: nat)
    requires alignment > 0 && AllKnown(spans)
    ensures TotalBytes(TensorAllocations(spans, Some(alignment), Some(copies))) == Footprint(spans, alignment, copies)
  {
    if spans != [] {
      var n := |spans| - 1;
      var all := TensorAllocations(spans, Some(alignment), Some(copies));
      TensorsTakeFootprint(spans[..n], alignment, copies);
      assert all[..n] == TensorAllocations(spans[..n], Some(alignment), Some(copies));
    }
  }

  lemma RuntimeTakes(r: Runtime, candidate: string)
    requires RuntimeKnown(r)
    ensures TotalBytes(RuntimeAllocations(r, candidate)) == RuntimeBytes(r)
  {
    var l := RuntimeAllocations(r, candidate);
    assert l[..5][..4] == l[..4] && l[..4][..3] == l[..3] && l[..3][..2] == l[..2] && l[..2][..1] == l[..1];
    assert l[..1][..0] == [];
    assert TotalBytes(l[..1]) == r.kv.value;
    assert TotalBytes(l[..2]) == TotalBytes(l[..1]) + r.persistent.value;
    assert TotalBytes(l[..3]) == TotalBytes(l[..2]) + r.activations.value;
    assert TotalBytes(l[..4]) == TotalBytes(l[..3]) + r.outputs.value;
    assert TotalBytes(l[..5]) == TotalBytes(l[..4]) + r.scratch.value;
  }

  /** Every copy of a payload is there, and alignment adds less than one alignment to it. */
  lemma {:induction false} FootprintCoversPayloads(spans: seq<Span>, alignment: nat, copies: nat)
    requires alignment > 0 && copies > 0 && AllKnown(spans)
    ensures copies * Payloads(spans) <= Footprint(spans, alignment, copies)
    ensures Footprint(spans, alignment, copies) <= copies * (Payloads(spans) + |spans| * (alignment - 1))
    ensures Footprint(spans, alignment, copies) % alignment == 0
  {
    if spans != [] {
      var n := |spans| - 1;
      var payload, aligned := spans[n].payload.value, AlignUp(spans[n].payload.value, alignment);
      hide AlignUp;
      FootprintCoversPayloads(spans[..n], alignment, copies);
      AlignUpFacts(payload, alignment);
      AlignedCopies(Footprint(spans[..n], alignment, copies), Payloads(spans[..n]), n * (alignment - 1),
                    payload, aligned, alignment - 1, copies);
      MultipleAdds(Footprint(spans[..n], alignment, copies), aligned, copies, alignment);
      NextProduct(n, alignment - 1);
    }
  }

  lemma NextProduct(n: nat, d: nat)
    ensures (n + 1) * d == n * d + d
  {
  }

  lemma AlignedCopies(total: nat, payloads: nat, slack: nat, payload: nat, aligned: nat, more: nat, copies: nat)
    requires copies * payloads <= total <= copies * (payloads + slack) && payload <= aligned <= payload + more
    ensures copies * (payloads + payload) <= total + aligned * copies
    ensures total + aligned * copies <= copies * (payloads + payload + (slack + more))
  {
    MulMono(copies, payload, aligned);
    MulMono(copies, aligned, payload + more);
    assert copies * (payloads + payload) == copies * payloads + copies * payload;
    assert copies * (payloads + payload + (slack + more)) == copies * (payloads + slack) + copies * (payload + more);
  }

  lemma MultipleAdds(a: nat, b: nat, copies: nat, d: nat)
    requires d > 0 && a % d == 0 && b % d == 0
    ensures (a + b * copies) % d == 0
  {
    DivModOf(a, d);
    DivModOf(b, d);
    var q := a / d + b / d * copies;
    assert d * (b / d) * copies == d * (b / d * copies);
    assert a + b * copies == d * q + 0;
    DivModUnique(a + b * copies, d, q, 0);
  }

  function Payloads(spans: seq<Span>): nat
    requires AllKnown(spans)
  {
    if spans == [] then 0 else Payloads(spans[..|spans| - 1]) + spans[|spans| - 1].payload.value
  }

  predicate LedgerKnown(spans: seq<Span>, alignment: Option<nat>, copies: Option<nat>, r: Runtime) {
    (forall i :: 0 <= i < |spans| ==> spans[i].payload.Some?) && alignment.Some? && copies.Some? && RuntimeKnown(r)
  }

  ghost predicate AllSized(l: seq<Allocation>) { forall a :: a in l ==> a.bytes.Some? }

  lemma SizedConcat(a: seq<Allocation>, b: seq<Allocation>)
    ensures AllSized(a + b) <==> AllSized(a) && AllSized(b)
  {
    if AllSized(a + b) {
      forall x | x in a ensures x.bytes.Some? { assert x in a + b; }
      forall x | x in b ensures x.bytes.Some? { assert x in a + b; }
    }
  }

  lemma TensorsSizedIff(spans: seq<Span>, alignment: Option<nat>, copies: Option<nat>)
    requires (alignment.Some? ==> alignment.value > 0) && spans != []
    ensures
      AllSized(TensorAllocations(spans, alignment, copies)) <==> AllKnown(spans) && alignment.Some? && copies.Some?
  {
    var tensors := TensorAllocations(spans, alignment, copies);
    forall i | 0 <= i < |spans|
      ensures tensors[i] in tensors
      ensures tensors[i].bytes.Some? <==> spans[i].payload.Some? && alignment.Some? && copies.Some?
    {
    }
    assert tensors[0].bytes.Some? ==> alignment.Some? && copies.Some?;
    hide TensorAllocations;
  }

  lemma RuntimeSizedIff(r: Runtime, candidate: string)
    ensures AllSized(RuntimeAllocations(r, candidate)) <==> RuntimeKnown(r)
  {
    var l := RuntimeAllocations(r, candidate);
    assert l[0] in l && l[1] in l && l[2] in l && l[3] in l && l[4] in l && l[5] in l;
  }

  lemma KnownIff(spans: seq<Span>, alignment: Option<nat>, copies: Option<nat>, r: Runtime, candidate: string)
    requires (alignment.Some? ==> alignment.value > 0) && spans != []
    ensures AllSized(LedgerOf(spans, alignment, copies, r, candidate)) <==> LedgerKnown(spans, alignment, copies, r)
  {
    SizedConcat(TensorAllocations(spans, alignment, copies), RuntimeAllocations(r, candidate));
    TensorsSizedIff(spans, alignment, copies);
    RuntimeSizedIff(r, candidate);
  }

  lemma KindConcat(a: seq<Allocation>, b: seq<Allocation>, k: Kind)
    ensures HasKind(a + b, k) <==> HasKind(a, k) || HasKind(b, k)
  {
    if HasKind(a, k) {
      var x :| x in a && x.kind == k;
      assert x in a + b;
    }
    if HasKind(b, k) {
      var x :| x in b && x.kind == k;
      assert x in a + b;
    }
  }

  lemma RuntimeKinds(r: Runtime, candidate: string)
    ensures
      var l := RuntimeAllocations(r, candidate);
      && (forall k :: k in REQUIRED ==> (HasKind(l, k) <==> k != GgufTensor))
      && exists a :: a in l && a.kind.Workspace? && a.candidate == Some(candidate)
  {
    var l := RuntimeAllocations(r, candidate);
    assert l[0] in l && l[1] in l && l[2] in l && l[3] in l && l[4] in l && l[5] in l;
  }

  lemma TensorKinds(spans: seq<Span>, alignment: Option<nat>, copies: Option<nat>)
    requires alignment.Some? ==> alignment.value > 0
    ensures HasKind(TensorAllocations(spans, alignment, copies), GgufTensor) <==> spans != []
  {
    var tensors := TensorAllocations(spans, alignment, copies);
    if spans != [] {
      assert tensors[0] in tensors;
    }
  }

  lemma RequiredPresent(spans: seq<Span>, alignment: Option<nat>, copies: Option<nat>, r: Runtime, candidate: string)
    requires alignment.Some? ==> alignment.value > 0
    ensures
      var l := LedgerOf(spans, alignment, copies, r, candidate);
      && ((forall k :: k in REQUIRED ==> HasKind(l, k)) <==> spans != [])
      && (exists a :: a in l && a.kind.Workspace? && a.candidate == Some(candidate))
  {
    var tensors, rest := TensorAllocations(spans, alignment, copies), RuntimeAllocations(r, candidate);
    RuntimeKinds(r, candidate);
    TensorKinds(spans, alignment, copies);
    hide HasKind, TensorAllocations, RuntimeAllocations;
    forall k
      ensures HasKind(tensors + rest, k) <==> HasKind(tensors, k) || HasKind(rest, k)
    {
      KindConcat(tensors, rest, k);
    }
    assert GgufTensor in REQUIRED;
    WorkspaceConcat(tensors, rest, candidate);
  }

  lemma WorkspaceConcat(tensors: seq<Allocation>, rest: seq<Allocation>, candidate: string)
    requires exists a :: a in rest && a.kind.Workspace? && a.candidate == Some(candidate)
    ensures exists a :: a in tensors + rest && a.kind.Workspace? && a.candidate == Some(candidate)
  {
    var a :| a in rest && a.kind.Workspace? && a.candidate == Some(candidate);
    assert a in tensors + rest;
  }

  lemma EveryClassPresent(spans: seq<Span>, alignment: Option<nat>, copies: Option<nat>, r: Runtime, candidate: string)
    requires alignment.Some? ==> alignment.value > 0
    ensures
      var l := LedgerOf(spans, alignment, copies, r, candidate);
      && ((forall k :: k != Workspace ==> IsPresent(l, k)) <==> spans != [])
      && (exists a :: a in l && a.kind.Workspace? && a.candidate == Some(candidate))
  {
    hide HasKind, IsPresent, LedgerOf;
    RequiredPresent(spans, alignment, copies, r, candidate);
    RequiredKinds(LedgerOf(spans, alignment, copies, r, candidate));
  }

  lemma LedgerIsSelected(spans: seq<Span>, alignment: Option<nat>, copies: Option<nat>, r: Runtime, candidate: string)
    requires alignment.Some? ==> alignment.value > 0
    ensures
      var l := LedgerOf(spans, alignment, copies, r, candidate);
      Select(l, candidate) == l
  {
    AllSelected(LedgerOf(spans, alignment, copies, r, candidate), candidate);
  }

  lemma LedgerTotal(spans: seq<Span>, alignment: nat, copies: nat, r: Runtime, candidate: string)
    requires alignment > 0 && AllKnown(spans) && RuntimeKnown(r)
    ensures
      TotalBytes(LedgerOf(spans, Some(alignment), Some(copies), r, candidate)) ==
      Footprint(spans, alignment, copies) + RuntimeBytes(r)
  {
    TotalConcat(TensorAllocations(spans, Some(alignment), Some(copies)), RuntimeAllocations(r, candidate));
    TensorsTakeFootprint(spans, alignment, copies);
    RuntimeTakes(r, candidate);
  }

  /**
    A plan is admitted exactly when there are tensors, every size is known, the scan was complete, and the aligned
    and duplicated tensors and everything else fit into the free memory less the aligned reserve.
   */
  lemma AdmittedPlanFits(spans: seq<Span>, copies: Option<nat>, r: Runtime, candidate: string, f: Facts)
    requires f.alignment.Some? ==> f.alignment.value > 0
    ensures
      var alignment: Option<nat> := if f.alignment.None? then None else Some(f.alignment.value);
      IsAdmitted(Decide(LedgerOf(spans, alignment, copies, r, candidate), ScannedBudget(f), candidate)) <==>
        && spans != [] && LedgerKnown(spans, alignment, copies, r) && Complete(f)
        && Footprint(spans, alignment.value, copies.value) + RuntimeBytes(r) <= AdmittedBytes(ScannedBudget(f)).value
  {
    var alignment: Option<nat> := if f.alignment.None? then None else Some(f.alignment.value);
    var l := LedgerOf(spans, alignment, copies, r, candidate);
    LedgerIsSelected(spans, alignment, copies, r, candidate);
    hide Decide, LedgerOf, TensorAllocations, RuntimeAllocations, IsPresent,
      ScannedBudget, Select, TotalBytes, Footprint, Complete;
    AdmittedIff(l, ScannedBudget(f), candidate);
    EveryClassPresent(spans, alignment, copies, r, candidate);
    BudgetReserves(f);
    if spans != [] {
      KnownIff(spans, alignment, copies, r, candidate);
      if LedgerKnown(spans, alignment, copies, r) {
        LedgerTotal(spans, alignment.value, copies.value, r, candidate);
      }
    }
  }
}
