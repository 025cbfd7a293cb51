/**
  The plan for loading one model (`plan_exact_selected_model_load` in `tinygrad/llm/admission.py`): from the tensor
  table of the file through the allocation ledger to the decision.

  `AdmittedModelIff` joins the parts: a model of a known file size is admitted exactly when its payloads lie one
  after the other inside the file and everything that is known to be needed fits the scanned budget.
 */
module SelectedModelPlan {
  import opened Admission
  import opened ModelLoadPlan
  import opened Wrappers

  /** What is known about the file, the route and the device; None is a missing fact. */
  datatype Inputs = Inputs(types: Types, infos: seq<Info>, dataStart: nat, fileSize: Option<nat>,
                           runtime: Runtime, candidate: string, copies: Option<int>, facts: Facts)

  datatype Plan = Plan(spans: seq<Span>, decision: ModelLoadPlan.Decision)

  /** A ledger entry refuses an alignment or a number of copies that is given but not positive. */
  predicate Acceptable(x: Option<int>) { x.Some? ==> x.value > 0 }

  function Usable(x: Option<int>): (r: Option<nat>)
    ensures r.Some? ==> r.value > 0
  {
    if x.Some? && x.value > 0 then Some(x.value) else None
  }

  function SpansOf(m: Inputs): seq<Span>
    requires ValidTypes(m.types)
  {
    AllSpans(m.types, SortByOffset(m.infos), m.dataStart, m.fileSize)
  }

  function LedgerFor(m: Inputs): seq<Allocation>
    requires ValidTypes(m.types)
  {
    LedgerOf(SpansOf(m), Usable(m.facts.alignment), Usable(m.copies), m.runtime, m.candidate)
  }

  function DecisionFor(m: Inputs): ModelLoadPlan.Decision
    requires ValidTypes(m.types)
  {
    Decide(LedgerFor(m), ScannedBudget(m.facts), m.candidate)
  }

  predicate IsEntry(name: string, alignment: Option<int>, copies: Option<int>) {
    name != "" && Acceptable(alignment) && Acceptable(copies)
  }

  /** Every tensor can be entered in the ledger: it has a name, and alignment and copies are positive if known. */
  ghost predicate Recordable(m: Inputs) {
    m.infos != [] ==>
      && (forall info :: info in m.infos ==> info.name != "")
      && (m.facts.alignment.Some? ==> m.facts.alignment.value > 0)
      && (m.copies.Some? ==> m.copies.value > 0)
  }

  predicate RecordableSpans(spans: seq<Span>, alignment: Option<int>, copies: Option<int>) {
    forall i :: 0 <= i < |spans| ==> IsEntry(spans[i].name, alignment, copies)
  }

  ghost predicate TableIsFine(m: Inputs)
    requires ValidTypes(m.types)
  {
    NamesDistinct(m.infos) && LayoutIsFine(m.types, SortByOffset(m.infos), m.dataStart, m.fileSize)
  }

  /** The cases in which planning raises no error. */
  ghost predicate Planned(m: Inputs)
    requires ValidTypes(m.types)
  {
    m.candidate != "" && TableIsFine(m) && Recordable(m)
  }

  // ---------------------------------------------------------------- the plan

  /** None stands for any ValueError. */
  method PlanLoad(m: Inputs) returns (plan: Option<Plan>)
    requires ValidTypes(m.types)
    ensures plan.Some? <==> Planned(m)
    ensures plan.Some? ==> plan.value == Plan(SpansOf(m), DecisionFor(m))
  {
    if m.candidate == "" {
      return None;
    }
    var spans := TensorSpans(m.types, m.infos, m.dataStart, m.fileSize);
    if spans.None? {
      return None;
    }
    RecordableIff(m);
    var tensors := RecordTensors(spans.value, m.facts.alignment, m.copies);
    if tensors.None? {
      return None;
    }
    var ledger := tensors.value + RuntimeAllocations(m.runtime, m.candidate);
    hide Decide, TensorAllocations, RuntimeAllocations, AllSpans, LayoutIsFine;
    LedgerHasDistinctNames(m); // the check of the ledger for that never fails
    return Some(Plan(spans.value, Decide(ledger, ScannedBudget(m.facts), m.candidate)));
  }

  /** The loop that enters the tensors in the ledger. */
  method RecordTensors(spans: seq<Span>, alignment: Option<int>, copies: Option<int>)
    returns (r: Option<seq<Allocation>>)
    ensures r.Some? <==> RecordableSpans(spans, alignment, copies)
    ensures r.Some? ==> r.value == TensorAllocations(spans, Usable(alignment), Usable(copies))
  {
    hide TensorBytes, Usable, IsEntry;
    ghost var all := TensorAllocations(spans, Usable(alignment), Usable(copies));
    var out: seq<Allocation> := [];
    for i := 0 to |spans|
      invariant RecordableSpans(spans[..i], alignment, copies) && out == all[..i]
    {
      var span := spans[i];
      if !IsEntry(span.name, alignment, copies) {
        return None;
      }
      out := out + [Allocation("tensor:" + span.name, GgufTensor,
                               TensorBytes(span.payload, Usable(alignment), Usable(copies)), None)];
      assert out[i] == all[i];
    }
    assert spans[..|spans|] == spans;
    return Some(out);
  }

  lemma SortedEntries(infos: seq<Info>)
    ensures |SortByOffset(infos)| == |infos| && forall x :: x in SortByOffset(infos) <==> x in infos
  {
    var ordered := SortByOffset(infos);
    SortFacts(infos);
    hide SortByOffset;
    assert |multiset(ordered)| == |multiset(infos)|;
    forall x ensures x in ordered <==> x in infos {
      assert x in multiset(ordered) <==> x in multiset(infos);
    }
  }

  lemma SpanNames(m: Inputs)
    requires ValidTypes(m.types)
    ensures |SpansOf(m)| == |SortByOffset(m.infos)|
    ensures forall i :: 0 <= i < |SpansOf(m)| ==> SpansOf(m)[i].name == SortByOffset(m.infos)[i].name
  {
    hide SortByOffset, PayloadBytes, EndOf;
  }

  lemma RecordableIff(m: Inputs)
    requires ValidTypes(m.types)
    ensures Recordable(m) <==> RecordableSpans(SpansOf(m), m.facts.alignment, m.copies)
  {
    hide SpansOf, SortByOffset;
    SpanNames(m);
    SortedEntries(m.infos);
    var ordered, spans := SortByOffset(m.infos), SpansOf(m);
    forall i | 0 <= i < |spans| ensures ordered[i] in m.infos && spans[i].name == ordered[i].name {
    }
    if RecordableSpans(spans, m.facts.alignment, m.copies) && m.infos != [] {
      assert IsEntry(spans[0].name, m.facts.alignment, m.copies);
      forall info | info in m.infos ensures info.name != "" {
        var i: nat :| i < |ordered| && ordered[i] == info;
        assert IsEntry(spans[i].name, m.facts.alignment, m.copies);
      }
    }
  }

  lemma LedgerHasDistinctNames(m: Inputs)
    requires ValidTypes(m.types) && NamesDistinct(m.infos)
    ensures
      var l := LedgerFor(m);
      forall i, j :: 0 <= i < j < |l| ==> l[i].name != l[j].name
  {
    SpanNames(m);
    SortFacts(m.infos);
    DistinctAfterSorting(m.infos, SortByOffset(m.infos));
    hide SpansOf, LedgerOf, SortByOffset;
    LedgerNamesDistinct(SpansOf(m), Usable(m.facts.alignment), Usable(m.copies), m.runtime, m.candidate);
  }

  lemma DistinctAfterSorting(infos: seq<Info>, ordered: seq<Info>)
    requires NamesDistinct(infos) && multiset(ordered) == multiset(infos)
    ensures NamesDistinct(ordered)
  {
    forall i, j | 0 <= i < j < |ordered| ensures ordered[i].name != ordered[j].name {
      assert ordered[i] in multiset(infos) && ordered[j] in multiset(infos);
      var a: nat :| a < |infos| && infos[a] == ordered[i];
      var b: nat :| b < |infos| && infos[b] == ordered[j];
      if ordered[i] == ordered[j] {
        TwiceInMultiset(ordered, i, j);
        OnceInMultiset(infos, a);
      }
    }
  }

  lemma TwiceInMultiset(s: seq<Info>, i: nat, j: nat)
    requires i < j < |s| && s[i] == s[j]
    ensures multiset(s)[s[i]] >= 2
  {
    assert s == s[..i] + [s[i]] + s[i + 1..j] + [s[j]] + s[j + 1..];
  }

  lemma OnceInMultiset(s: seq<Info>, i: nat)
    requires i < |s| && NamesDistinct(s)
    ensures multiset(s)[s[i]] == 1
  {
    assert s == s[..i] + [s[i]] + s[i + 1..];
    assert s[i] !in s[..i] && s[i] !in s[i + 1..];
  }

  // ---------------------------------------------------------------- what is admitted

  /** All that the plan needs is known, and it fits. */
  ghost predicate KnownAndFits(m: Inputs)
    requires ValidTypes(m.types)
  {
    && AllKnown(SpansOf(m)) && RuntimeKnown(m.runtime) && Complete(m.facts) && m.copies.Some? && m.copies.value > 0
    && Footprint(SpansOf(m), m.facts.alignment.value, m.copies.value) + RuntimeBytes(m.runtime) <=
       AdmittedBytes(ScannedBudget(m.facts)).value
  }

  /** The tensors have different names, none of them empty. */
  ghost predicate NamesAreFine(infos: seq<Info>) {
    NamesDistinct(infos) && forall info :: info in infos ==> info.name != ""
  }

  lemma DecisionIff(m: Inputs)
    requires ValidTypes(m.types)
    ensures IsAdmitted(DecisionFor(m)) <==> m.infos != [] && KnownAndFits(m)
  {
    SpanNames(m);
    SortedEntries(m.infos);
    hide Decide, LedgerOf, Footprint, AllSpans;
    if Acceptable(m.facts.alignment) {
      AdmittedPlanFits(SpansOf(m), Usable(m.copies), m.runtime, m.candidate, m.facts);
    } else {
      AdmittedIff(LedgerFor(m), ScannedBudget(m.facts), m.candidate);
      BudgetReserves(m.facts);
    }
  }

  /**
    A model of known file size gets an admitted plan exactly when there are tensors, properly named, whose payloads
    lie one after the other inside the file, and all that is needed is known and fits the scanned budget.
   */
  lemma AdmittedModelIff(m: Inputs)
    requires ValidTypes(m.types) && m.fileSize.Some?
    ensures Planned(m) && IsAdmitted(DecisionFor(m)) <==>
      && m.candidate != "" && m.infos != [] && NamesAreFine(m.infos) && KnownAndFits(m)
      && InFileInOrder(SpansOf(m), m.dataStart, m.fileSize.value)
  {
    hide Decide, LayoutIsFine, InFileInOrder, Footprint, AllSpans, LedgerOf;
    AcceptedLayoutIff(m.types, m.infos, m.dataStart, m.fileSize.value);
    DecisionIff(m);
  }
}
