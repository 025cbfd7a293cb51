/**
  Cutting a program into batches that are replayed as one graph (`graph_split_rewrite` in
  `tinygrad/engine/jit.py`), with the environment switch GRAPH_ONE_KERNEL off.

  The device layer is a parameter: which graph runner a device has and what it supports.
 */
module GraphSplit {
  import opened Collections
  import opened IndexMath

  type Device = nat

  /** A call: slices are dropped, `barrier` marks a kernel name with a no-graph prefix. */
  datatype Call = Call(id: nat, slice: bool, barrier: bool, devs: seq<Device>)

  datatype Out = Single(call: Call) | Graph(calls: seq<Call>)

  /** supports(devs, call) of the graph runner of the call's first device; hasGraph says whether there is one. */
  datatype Runners = Runners(hasGraph: Device -> bool, supports: (Device, seq<Device>, Call) -> bool)

  function Devs(c: Call): seq<Device> { Dedup(c.devs) }

  predicate CanGraph(g: Runners, c: Call)
    requires c.devs != []
  {
    assert c.devs[0] in Dedup(c.devs) by { DedupKeepsElements(c.devs); }
    var devs := Devs(c);
    g.hasGraph(devs[0]) && g.supports(devs[0], devs, c)
  }

  /** The devices of the batch are still supported with this call added. */
  predicate Joins(g: Runners, batchDevs: seq<Device>, c: Call)
    requires c.devs != []
  {
    assert c.devs[0] in Dedup(c.devs) by { DedupKeepsElements(c.devs); }
    batchDevs == [] || g.supports(Devs(c)[0], batchDevs, c)
  }

  predicate CanExtend(g: Runners, s: State, c: Call)
    requires c.devs != []
  {
    CanGraph(g, c) && Joins(g, s.devs, c) && (s.max == 0 || |s.batch| < s.max)
  }

  // ---------------------------------------------------------------- the loop

  /** new_src, current_batch, current_batch_devs, max_batch_size */
  datatype State = State(out: seq<Out>, batch: seq<Call>, devs: seq<Device>, max: nat)

  function Singles(calls: seq<Call>): seq<Out> { seq(|calls|, i requires 0 <= i < |calls| => Single(calls[i])) }

  function Flush(s: State): State {
    if |s.batch| <= 1 then State(s.out + Singles(s.batch), [], [], s.max)
    else State(s.out + [Graph(s.batch)], [], [], s.max * 2)
  }

  function Step(g: Runners, s: State, c: Call): State
    requires c.devs != []
  {
    if c.slice then s
    else if c.barrier then
      var f := Flush(s);
      f.(out := f.out + [Single(c)])
    else
      var f := if !CanExtend(g, s, c) && s.batch != [] then Flush(s) else s;
      if CanGraph(g, c) then f.(batch := f.batch + [c], devs := Dedup(f.devs + Devs(c)))
      else f.(out := f.out + [Single(c)], devs := [])
  }

  ghost predicate HaveDevices(calls: seq<Call>) { forall c :: c in calls ==> c.devs != [] }

  function Scan(g: Runners, calls: seq<Call>, max: nat): State
    requires HaveDevices(calls)
  {
    if calls == [] then State([], [], [], max)
    else Step(g, Scan(g, calls[..|calls| - 1], max), calls[|calls| - 1])
  }

  function SplitOf(g: Runners, calls: seq<Call>, max: nat): seq<Out>
    requires HaveDevices(calls)
  {
    var s := Scan(g, calls, max);
    if s.batch != [] then Flush(s).out else s.out
  }

  class Splitter {
    var newSrc: seq<Out>
    var batch: seq<Call>
    var batchDevs: seq<Device>
    var maxBatchSize: nat

    ghost function Current(): State
      reads this
    {
      State(newSrc, batch, batchDevs, maxBatchSize)
    }

    constructor (max: nat)
      ensures Current() == State([], [], [], max)
    {
      newSrc, batch, batchDevs, maxBatchSize := [], [], [], max;
    }

    method FlushBatch()
      modifies this
      ensures Current() == Flush(old(Current()))
      ensures Expand(newSrc) == old(Expand(newSrc)) + old(batch) && batch == [] && batchDevs == []
      ensures Graphs(newSrc) == old(Graphs(newSrc)) + if old(|batch|) > 1 then [old(batch)] else []
      ensures maxBatchSize == if old(|batch|) > 1 then old(maxBatchSize) * 2 else old(maxBatchSize)
    {
      FlushKeepsCalls(Current());
      FlushGraphs(Current());
      if |batch| <= 1 {
        newSrc := newSrc + Singles(batch);
      } else {
        newSrc := newSrc + [Graph(batch)];
        maxBatchSize := maxBatchSize * 2;
      }
      batch, batchDevs := [], [];
    }

    method Split(g: Runners, calls: seq<Call>) returns (r: seq<Out>)
      requires HaveDevices(calls) && newSrc == [] && batch == [] && batchDevs == []
      modifies this
      ensures r == SplitOf(g, calls, old(maxBatchSize))
    {
      ghost var max := maxBatchSize;
      for i := 0 to |calls|
        invariant Current() == Scan(g, calls[..i], max)
      {
        var si := calls[i];
        assert si in calls && calls[..i + 1][..i] == calls[..i];
        ghost var before := Current();
        assert Scan(g, calls[..i + 1], max) == Step(g, before, si);
        if si.slice {
          continue;
        }
        if si.barrier {
          FlushBatch();
          newSrc := newSrc + [Single(si)];
          batchDevs := [];
          continue;
        }
        var devs := Devs(si);
        var canGraph := CanGraph(g, si);
        var canExtend := canGraph && Joins(g, batchDevs, si) && (maxBatchSize == 0 || |batch| < maxBatchSize);
        if !canExtend && batch != [] {
          FlushBatch();
        }
        if canGraph {
          batch, batchDevs := batch + [si], Dedup(batchDevs + devs);
        } else {
          newSrc, batchDevs := newSrc + [Single(si)], [];
        }
      }
      assert calls[..|calls|] == calls;
      if batch != [] {
        FlushBatch();
      }
      r := newSrc;
    }
  }

  // ---------------------------------------------------------------- nothing is lost or reordered

  function CallsOf(o: Out): seq<Call> {
    match o
    case Single(c) => [c]
    case Graph(cs) => cs
  }

  function Expand(out: seq<Out>): seq<Call> {
    if out == [] then [] else Expand(out[..|out| - 1]) + CallsOf(out[|out| - 1])
  }

  function WithoutSlices(calls: seq<Call>): seq<Call> {
    if calls == [] then []
    else WithoutSlices(calls[..|calls| - 1]) + if calls[|calls| - 1].slice then [] else [calls[|calls| - 1]]
  }

  lemma ExpandAppend(out: seq<Out>, o: Out)
    ensures Expand(out + [o]) == Expand(out) + CallsOf(o)
  {
    assert (out + [o])[..|out|] == out;
  }

  lemma FlushKeepsCalls(s: State)
    ensures Expand(Flush(s).out) == Expand(s.out) + s.batch && Flush(s).batch == []
  {
    if |s.batch| == 0 {
      assert s.out + Singles(s.batch) == s.out && s.batch == [];
    } else if |s.batch| == 1 {
      assert Singles(s.batch) == [Single(s.batch[0])];
      ExpandAppend(s.out, Single(s.batch[0]));
    } else {
      ExpandAppend(s.out, Graph(s.batch));
    }
  }

  /** A batch becomes a graph exactly if it holds more than one call. */
  lemma FlushGraphs(s: State)
    ensures Graphs(Flush(s).out) == Graphs(s.out) + if |s.batch| > 1 then [s.batch] else []
  {
    if |s.batch| == 0 {
      assert s.out + Singles(s.batch) == s.out;
    } else if |s.batch| == 1 {
      assert Singles(s.batch) == [Single(s.batch[0])];
      GraphsAppend(s.out, Single(s.batch[0]));
    } else {
      GraphsAppend(s.out, Graph(s.batch));
    }
  }

  lemma StepKeepsCalls(g: Runners, s: State, c: Call)
    requires c.devs != []
    ensures
      var n := Step(g, s, c);
      Expand(n.out) + n.batch == Expand(s.out) + s.batch + if c.slice then [] else [c]
  {
    hide Expand, CanGraph, Flush;
    FlushKeepsCalls(s);
    ExpandAppend(Flush(s).out, Single(c));
    ExpandAppend(s.out, Single(c));
    if !c.slice {
      assert Expand(s.out) + (s.batch + [c]) == Expand(s.out) + s.batch + [c];
    }
  }

  lemma {:induction false} ScanKeepsCalls(g: Runners, calls: seq<Call>, max: nat)
    requires HaveDevices(calls)
    ensures var s := Scan(g, calls, max); Expand(s.out) + s.batch == WithoutSlices(calls)
  {
    if calls != [] {
      var n := |calls| - 1;
      ScanKeepsCalls(g, calls[..n], max);
      StepKeepsCalls(g, Scan(g, calls[..n], max), calls[n]);
      hide Expand, Step;
    }
  }

  /** Expanding the graphs gives back the program without its slices, in order. */
  lemma SplitConserves(g: Runners, calls: seq<Call>, max: nat)
    requires HaveDevices(calls)
    ensures Expand(SplitOf(g, calls, max)) == WithoutSlices(calls)
  {
    ScanKeepsCalls(g, calls, max);
    FlushKeepsCalls(Scan(g, calls, max));
  }

  // ---------------------------------------------------------------- what a batch may hold

  /** The graphs among the outputs, in order. */
  function Graphs(out: seq<Out>): seq<seq<Call>> {
    if out == [] then []
    else Graphs(out[..|out| - 1]) + if out[|out| - 1].Graph? then [out[|out| - 1].calls] else []
  }

  /** The devices of a batch as the loop collects them. */
  function BatchDevs(batch: seq<Call>): seq<Device> {
    if batch == [] then [] else Dedup(BatchDevs(batch[..|batch| - 1]) + Devs(batch[|batch| - 1]))
  }

  /** Every call can be graphed, is no barrier and no slice, and is supported beside the ones before it. */
  ghost predicate Coherent(g: Runners, batch: seq<Call>) {
    forall i :: 0 <= i < |batch| ==>
      var c := batch[i];
      c.devs != [] && !c.slice && !c.barrier && CanGraph(g, c) && Joins(g, BatchDevs(batch[..i]), c)
  }

  /** A batch of the k-th graph: within the k-times doubled limit. */
  ghost predicate Bounded(batch: seq<Call>, max: nat, k: nat) { max > 0 ==> |batch| <= max * Pow2(k) }

  ghost predicate GoodGraphs(g: Runners, graphs: seq<seq<Call>>, max: nat) {
    forall k :: 0 <= k < |graphs| ==> |graphs[k]| >= 2 && Coherent(g, graphs[k]) && Bounded(graphs[k], max, k)
  }

  ghost predicate Good(g: Runners, s: State, max: nat) {
    && GoodGraphs(g, Graphs(s.out), max)
    && s.max == max * Pow2(|Graphs(s.out)|)
    && s.devs == BatchDevs(s.batch)
    && Coherent(g, s.batch) && Bounded(s.batch, max, |Graphs(s.out)|)
  }

  lemma GraphsAppend(out: seq<Out>, o: Out)
    ensures Graphs(out + [o]) == Graphs(out) + if o.Graph? then [o.calls] else []
  {
    assert (out + [o])[..|out|] == out;
  }

  lemma FlushIsGood(g: Runners, s: State, max: nat)
    requires Good(g, s, max)
    ensures Good(g, Flush(s), max) && Flush(s).batch == []
  {
    hide Coherent, Bounded;
    if |s.batch| == 0 {
      assert s.out + Singles(s.batch) == s.out;
    } else if |s.batch| == 1 {
      assert Singles(s.batch) == [Single(s.batch[0])];
      GraphsAppend(s.out, Single(s.batch[0]));
    } else {
      GraphsAppend(s.out, Graph(s.batch));
      DoubledLimit(max, |Graphs(s.out)|);
      hide Pow2;
    }
    EmptyBatch(g, max, |Graphs(Flush(s).out)|);
  }

  lemma DoubledLimit(max: nat, k: nat)
    ensures max * Pow2(k + 1) == max * Pow2(k) * 2
    ensures max * (Pow2(k + 1) - 1) == max * (Pow2(k) - 1) + max * Pow2(k)
  {
    assert max * (2 * Pow2(k)) == max * Pow2(k) * 2;
  }

  lemma EmptyBatch(g: Runners, max: nat, k: nat)
    ensures Coherent(g, []) && Bounded([], max, k) && BatchDevs([]) == []
  {
    PositiveBound(max, k);
  }

  lemma SingleIsGood(g: Runners, s: State, c: Call, max: nat)
    requires Good(g, s, max) && s.batch == []
    ensures Good(g, s.(out := s.out + [Single(c)], devs := []), max)
  {
    GraphsAppend(s.out, Single(c));
  }

  lemma PositiveBound(max: nat, k: nat)
    ensures max > 0 ==> max * Pow2(k) >= 1
  {
    if k > 0 {
      PositiveBound(max, k - 1);
    }
  }

  lemma ExtendIsGood(g: Runners, s: State, c: Call, max: nat)
    requires Good(g, s, max) && c.devs != [] && !c.slice && !c.barrier
    requires CanExtend(g, s, c) || (CanGraph(g, c) && s.batch == [])
    ensures Good(g, s.(batch := s.batch + [c], devs := Dedup(s.devs + Devs(c))), max)
  {
    hide CanGraph, Joins, GoodGraphs, Coherent, BatchDevs, Dedup, Devs, Graphs, Pow2;
    BatchDevsAppend(s.batch, c);
    CoherentAppend(g, s.batch, c);
    PositiveBound(max, |Graphs(s.out)|);
  }

  lemma CoherentAppend(g: Runners, batch: seq<Call>, c: Call)
    requires Coherent(g, batch) && c.devs != [] && !c.slice && !c.barrier && CanGraph(g, c)
    requires batch == [] || Joins(g, BatchDevs(batch), c)
    ensures Coherent(g, batch + [c])
  {
    hide CanGraph, BatchDevs;
    var all, n := batch + [c], |batch|;
    assert all[..n] == batch && all[n] == c && (n == 0 ==> batch == []);
    NoDevs();
    forall i | 0 <= i < n ensures all[i] == batch[i] && all[..i] == batch[..i] {
    }
  }

  lemma StepIsGood(g: Runners, s: State, c: Call, max: nat)
    requires Good(g, s, max) && c.devs != []
    ensures Good(g, Step(g, s, c), max)
  {
    FlushIsGood(g, s, max);
    hide Good, Flush;
    if !c.slice {
      if c.barrier {
        SingleIsGood(g, Flush(s), c, max);
        FlushClearsDevs(s);
      } else {
        var f := if !CanExtend(g, s, c) && s.batch != [] then Flush(s) else s;
        if CanGraph(g, c) {
          ExtendIsGood(g, f, c, max);
        } else {
          SingleIsGood(g, f, c, max);
        }
      }
    }
  }

  lemma FlushClearsDevs(s: State)
    ensures Flush(s).devs == []
  {
  }

  lemma {:induction false} ScanIsGood(g: Runners, calls: seq<Call>, max: nat)
    requires HaveDevices(calls)
    ensures Good(g, Scan(g, calls, max), max)
  {
    if calls == [] {
      assert Good(g, State([], [], [], max), max);
    } else {
      var n := |calls| - 1;
      ScanIsGood(g, calls[..n], max);
      StepIsGood(g, Scan(g, calls[..n], max), calls[n], max);
    }
  }

  /** Every graph is coherent, has at least two calls, and the k-th one respects its limit. */
  lemma GraphsAreGood(g: Runners, calls: seq<Call>, max: nat)
    requires HaveDevices(calls)
    ensures GoodGraphs(g, Graphs(SplitOf(g, calls, max)), max)
  {
    ScanIsGood(g, calls, max);
    FlushIsGood(g, Scan(g, calls, max), max);
  }

  // ---------------------------------------------------------------- how many batches

  ghost predicate Plain(calls: seq<Call>) {
    forall c :: c in calls ==> c.devs != [] && !c.slice && !c.barrier
  }

  /** Nothing ever stops a batch but its size: each call is supported beside any stretch of calls just before it. */
  ghost predicate AllCompatible(g: Runners, calls: seq<Call>) {
    && Plain(calls)
    && (forall i :: 0 <= i < |calls| ==> CanGraph(g, calls[i]))
    && (forall i, j :: 0 <= i <= j < |calls| ==> Joins(g, BatchDevs(calls[i..j]), calls[j]))
  }

  lemma CompatiblePrefix(g: Runners, calls: seq<Call>, n: nat)
    requires AllCompatible(g, calls) && n <= |calls|
    ensures AllCompatible(g, calls[..n])
  {
    hide CanGraph, Joins, BatchDevs;
    forall i, j | 0 <= i <= j < n ensures Joins(g, BatchDevs(calls[..n][i..j]), calls[..n][j]) {
      assert calls[..n][i..j] == calls[i..j];
    }
  }

  /** All graphs are full: the k-th one holds exactly max * 2^k calls. */
  ghost predicate FullGraphs(out: seq<Out>, max: nat) {
    forall k :: 0 <= k < |out| ==> out[k].Graph? && |out[k].calls| == max * Pow2(k)
  }

  /** All graphs so far are full, and the open batch is the last stretch of the calls. */
  ghost predicate Filling(calls: seq<Call>, s: State, max: nat) {
    && FullGraphs(s.out, max) && s.max == max * Pow2(|s.out|)
    && |s.batch| <= s.max && (calls != [] ==> s.batch != [])
    && |calls| == max * (Pow2(|s.out|) - 1) + |s.batch|
    && |s.batch| <= |calls| && s.batch == calls[|calls| - |s.batch|..] && s.devs == BatchDevs(s.batch)
  }

  lemma BatchDevsOfOne(c: Call)
    ensures BatchDevs([c]) == Dedup([] + Devs(c))
  {
    assert [c][..0] == [] && [] + Devs(c) == Devs(c);
  }

  lemma BatchDevsAppend(batch: seq<Call>, c: Call)
    ensures BatchDevs(batch + [c]) == Dedup(BatchDevs(batch) + Devs(c))
  {
    assert (batch + [c])[..|batch|] == batch;
  }

  lemma StepExtends(g: Runners, s: State, c: Call)
    requires c.devs != [] && !c.slice && !c.barrier && CanExtend(g, s, c)
    ensures Step(g, s, c) == s.(batch := s.batch + [c], devs := Dedup(s.devs + Devs(c)))
  {
    hide Dedup, Devs, Joins, Flush;
  }

  lemma FillOpenBatch(g: Runners, calls: seq<Call>, s: State, max: nat)
    requires AllCompatible(g, calls) && calls != []
    requires Filling(calls[..|calls| - 1], s, max) && |s.batch| < s.max
    ensures Filling(calls, Step(g, s, calls[|calls| - 1]), max)
  {
    hide CanGraph, Joins, Pow2, FullGraphs, BatchDevs, Dedup, Step;
    var n := |calls| - 1;
    var c, from := calls[n], n - |s.batch|;
    assert c in calls;
    assert calls[..n][from..] == calls[from..n];
    assert Joins(g, BatchDevs(calls[from..n]), calls[n]);
    BatchDevsAppend(s.batch, c);
    assert calls[from..] == calls[from..n] + [c];
    StepExtends(g, s, c);
  }

  lemma FillNextBatch(g: Runners, calls: seq<Call>, s: State, max: nat)
    requires AllCompatible(g, calls) && calls != [] && max >= 2
    requires Filling(calls[..|calls| - 1], s, max) && |s.batch| == s.max
    ensures Filling(calls, Step(g, s, calls[|calls| - 1]), max)
  {
    var n := |calls| - 1;
    var c := calls[n];
    assert c in calls && calls[n..] == [c];
    BatchDevsOfOne(c);
    FullBatch(g, s, c, max);
    hide CanGraph, Joins, Pow2, FullGraphs, BatchDevs, Dedup;
  }

  lemma {:induction false} ScanFillsGraphs(g: Runners, calls: seq<Call>, max: nat)
    requires AllCompatible(g, calls) && max >= 2
    ensures Filling(calls, Scan(g, calls, max), max)
  {
    hide CanGraph, Joins, BatchDevs, Dedup, Step, FullGraphs;
    if calls == [] {
      NothingFilled(max);
    } else {
      var n := |calls| - 1;
      var s := Scan(g, calls[..n], max);
      CompatiblePrefix(g, calls, n);
      ScanFillsGraphs(g, calls[..n], max);
      LastStep(g, calls, max);
      PositiveBound(max, |s.out|);
      if |s.batch| == s.max {
        FillNextBatch(g, calls, s, max);
      } else {
        FillOpenBatch(g, calls, s, max);
      }
    }
  }

  lemma NothingFilled(max: nat)
    ensures Filling([], State([], [], [], max), max)
  {
    assert max * (Pow2(0) - 1) == 0 && max * Pow2(0) == max;
  }

  lemma LastStep(g: Runners, calls: seq<Call>, max: nat)
    requires HaveDevices(calls) && calls != []
    ensures Scan(g, calls, max) == Step(g, Scan(g, calls[..|calls| - 1], max), calls[|calls| - 1])
  {
  }

  lemma FullBatch(g: Runners, s: State, c: Call, max: nat)
    requires c.devs != [] && !c.slice && !c.barrier && CanGraph(g, c)
    requires FullGraphs(s.out, max) && s.max == max * Pow2(|s.out|) && |s.batch| == s.max && max >= 2
    ensures
      var next := Step(g, s, c);
      && next.out == s.out + [Graph(s.batch)] && next.batch == [c] && next.devs == Dedup([] + Devs(c))
      && FullGraphs(next.out, max)
      && next.max == max * Pow2(|next.out|) && next.max >= 1
      && max * (Pow2(|next.out|) - 1) == max * (Pow2(|s.out|) - 1) + |s.batch|
  {
    PositiveBound(max, |s.out|);
    assert max * (2 * Pow2(|s.out|)) == s.max * 2;
    assert max * Pow2(|s.out|) >= max by { assert Pow2(|s.out|) >= 1; Scaled(max, Pow2(|s.out|)); }
  }

  lemma Scaled(a: nat, b: nat)
    requires b >= 1
    ensures a * b >= a
  {
  }

  /** With n compatible calls the number of batches is logarithmic in n. */
  lemma FewBatches(g: Runners, calls: seq<Call>, max: nat)
    requires AllCompatible(g, calls) && max >= 2 && calls != []
    ensures
      var out := SplitOf(g, calls, max);
      && out != [] && FullGraphs(out[..|out| - 1], max)
      && max * (Pow2(|out| - 1) - 1) < |calls| <= max * (Pow2(|out|) - 1)
  {
    hide Pow2, FullGraphs, Scan;
    ScanFillsGraphs(g, calls, max);
    var s, out := Scan(g, calls, max), SplitOf(g, calls, max);
    assert Singles(s.batch[..1]) == [Single(s.batch[0])];
    assert |out| == |s.out| + 1 && out[..|out| - 1] == s.out;
    DoubledLimit(max, |s.out|);
  }

  // ---------------------------------------------------------------- the graph runners of the repository

  function Kinds(kind: Device -> nat, devs: seq<Device>): seq<nat> {
    seq(|devs|, i requires 0 <= i < |devs| => kind(devs[i]))
  }

  /**
    Both runners want a runnable call and one kind among the devices of the batch and the call: with several
    devices of a type allowed the kind is the type, otherwise it is the device itself.
   */
  function OneKindRunner(kind: Device -> nat, runnable: Call -> bool): Runners {
    Runners(_ => true, (first, devs, c) => runnable(c) && |Dedup(Kinds(kind, devs + c.devs))| == 1)
  }

  ghost predicate AllOfKind(kind: Device -> nat, devs: seq<Device>, k: nat) {
    forall d :: d in devs ==> kind(d) == k
  }

  lemma {:induction false} DedupOfOne(s: seq<nat>, k: nat)
    requires s != [] && forall x :: x in s ==> x == k
    ensures Dedup(s) == [k]
  {
    assert s[|s| - 1] in s;
    if |s| > 1 {
      var front := s[..|s| - 1];
      assert |front| > 0 && s == front + [s[|s| - 1]];
      forall x | x in front ensures x == k {
        assert x in s;
      }
      DedupOfOne(front, k);
    } else {
      assert s[..0] == [];
    }
  }

  lemma OneKindIff(kind: Device -> nat, devs: seq<Device>, d: Device)
    requires d in devs
    ensures |Dedup(Kinds(kind, devs))| == 1 <==> AllOfKind(kind, devs, kind(d))
  {
    var ks := Kinds(kind, devs);
    var at: nat :| at < |devs| && devs[at] == d;
    assert ks[at] == kind(d);
    if AllOfKind(kind, devs, kind(d)) {
      DedupOfOne(ks, kind(d));
    }
    if |Dedup(ks)| == 1 {
      DedupKeepsElements(ks);
      forall e | e in devs ensures kind(e) == kind(d) {
        var i: nat :| i < |devs| && devs[i] == e;
        assert ks[i] == kind(e);
        assert kind(e) in Dedup(ks) && kind(d) in Dedup(ks);
      }
    }
  }

  lemma {:induction false} BatchDevsMembers(calls: seq<Call>, d: Device)
    ensures d in BatchDevs(calls) <==> exists i :: 0 <= i < |calls| && d in calls[i].devs
  {
    if calls != [] {
      var n := |calls| - 1;
      BatchDevsMembers(calls[..n], d);
      DedupKeepsElements(BatchDevs(calls[..n]) + Devs(calls[n]));
      DedupKeepsElements(calls[n].devs);
      if j: nat :| j < |calls| && d in calls[j].devs && j != n {
        assert d in calls[..n][j].devs;
      }
    }
  }

  lemma JoinsIff(kind: Device -> nat, runnable: Call -> bool, calls: seq<Call>, i: nat, j: nat, k: nat)
    requires i < j < |calls| && Plain(calls) && (forall l :: i <= l < j ==> AllOfKind(kind, calls[l].devs, k))
    requires runnable(calls[j])
    ensures
      Joins(OneKindRunner(kind, runnable), BatchDevs(calls[i..j]), calls[j]) <==> AllOfKind(kind, calls[j].devs, k)
  {
    var batch, c := calls[i..j], calls[j];
    var devs := BatchDevs(batch);
    assert batch[0] in calls && c in calls;
    var d := batch[0].devs[0];
    assert d in batch[0].devs && kind(d) == k;
    BatchDevsMembers(batch, d);
    forall e | e in devs ensures kind(e) == k {
      BatchDevsMembers(batch, e);
      var l: nat :| l < |batch| && e in batch[l].devs;
      assert batch[l] == calls[i + l];
    }
    OneKindIff(kind, devs + c.devs, d);
  }

  lemma CanGraphIff(kind: Device -> nat, runnable: Call -> bool, c: Call)
    requires c.devs != []
    ensures
      CanGraph(OneKindRunner(kind, runnable), c) <==> runnable(c) && AllOfKind(kind, c.devs, kind(c.devs[0]))
  {
    OneKindIff(kind, Devs(c) + c.devs, c.devs[0]);
    forall d ensures d in Devs(c) <==> d in c.devs { DedupKeepsElements(c.devs); }
  }

  /** Under these runners nothing but size stops a batch exactly when all calls are runnable on one kind of device. */
  lemma OneKindIsCompatibleIff(kind: Device -> nat, runnable: Call -> bool, calls: seq<Call>)
    requires Plain(calls) && calls != []
    ensures AllCompatible(OneKindRunner(kind, runnable), calls) <==>
      forall c :: c in calls ==> runnable(c) && AllOfKind(kind, c.devs, kind(calls[0].devs[0]))
  {
    var g, k := OneKindRunner(kind, runnable), kind(calls[0].devs[0]);
    hide Joins, CanGraph, BatchDevs, OneKindRunner, AllOfKind;
    forall c | c in calls
      ensures CanGraph(g, c) <==> runnable(c) && AllOfKind(kind, c.devs, kind(c.devs[0]))
    {
      CanGraphIff(kind, runnable, c);
    }
    if AllCompatible(g, calls) {
      forall j | 0 <= j < |calls| ensures runnable(calls[j]) && AllOfKind(kind, calls[j].devs, k) {
        CompatibleSharesKind(kind, runnable, calls, j);
      }
    }
    if forall c :: c in calls ==> runnable(c) && AllOfKind(kind, c.devs, k) {
      SharedKindIsCompatible(kind, runnable, calls, k);
    }
  }

  lemma {:induction false} CompatibleSharesKind(
    kind: Device -> nat, runnable: Call -> bool, calls: seq<Call>, j: nat)
    requires j < |calls| && AllCompatible(OneKindRunner(kind, runnable), calls)
    ensures runnable(calls[j]) && AllOfKind(kind, calls[j].devs, kind(calls[0].devs[0]))
  {
    assert calls[j] in calls;
    CanGraphIff(kind, runnable, calls[j]);
    hide Joins, CanGraph, BatchDevs, OneKindRunner, AllOfKind;
    if j > 0 {
      forall l | 0 <= l < j ensures AllOfKind(kind, calls[l].devs, kind(calls[0].devs[0])) {
        CompatibleSharesKind(kind, runnable, calls, l);
      }
      JoinsIff(kind, runnable, calls, 0, j, kind(calls[0].devs[0]));
    }
  }

  lemma SharedKindIsCompatible(kind: Device -> nat, runnable: Call -> bool, calls: seq<Call>, k: nat)
    requires Plain(calls) && forall c :: c in calls ==> runnable(c) && AllOfKind(kind, c.devs, k)
    ensures AllCompatible(OneKindRunner(kind, runnable), calls)
  {
    var g := OneKindRunner(kind, runnable);
    forall i | 0 <= i < |calls| ensures CanGraph(g, calls[i]) {
      assert calls[i] in calls;
      CanGraphIff(kind, runnable, calls[i]);
    }
    forall i, j | 0 <= i <= j < |calls| ensures Joins(g, BatchDevs(calls[i..j]), calls[j]) {
      assert calls[j] in calls;
      hide CanGraph, AllOfKind;
      if i < j {
        JoinsIff(kind, runnable, calls, i, j, k);
      } else {
        assert calls[i..j] == [];
      }
    }
  }

  // ---------------------------------------------------------------- when anything is graphed

  predicate Graphable(g: Runners, c: Call)
    requires c.devs != []
  {
    !c.barrier && CanGraph(g, c)
  }

  /** Two graphable calls, the second supported beside the first alone. */
  predicate Pairs(g: Runners, c: Call, d: Call)
    requires c.devs != [] && d.devs != []
  {
    Graphable(g, c) && Graphable(g, d) && Joins(g, BatchDevs([c]), d)
  }

  ghost predicate HasPair(g: Runners, calls: seq<Call>)
    requires HaveDevices(calls)
  {
    exists i :: 0 <= i < |calls| - 1 && Pairs(g, calls[i], calls[i + 1])
  }

  lemma {:induction false} WithoutSlicesKeeps(calls: seq<Call>)
    requires HaveDevices(calls)
    ensures HaveDevices(WithoutSlices(calls)) && forall c :: c in WithoutSlices(calls) ==> !c.slice
  {
    if calls != [] {
      WithoutSlicesKeeps(calls[..|calls| - 1]);
      assert calls[|calls| - 1] in calls;
    }
  }

  lemma PairAppend(g: Runners, calls: seq<Call>, c: Call)
    requires HaveDevices(calls) && c.devs != []
    ensures HaveDevices(calls + [c])
    ensures HasPair(g, calls + [c]) <==> HasPair(g, calls) || (calls != [] && Pairs(g, calls[|calls| - 1], c))
  {
    hide Pairs;
    var all, n := calls + [c], |calls|;
    assert all[n] == c && forall i :: 0 <= i < n ==> all[i] == calls[i];
    if i :| 0 <= i < n && Pairs(g, all[i], all[i + 1]) {
      assert i < n - 1 ==> Pairs(g, calls[i], calls[i + 1]);
    }
    if i :| 0 <= i < n - 1 && Pairs(g, calls[i], calls[i + 1]) {
      assert Pairs(g, all[i], all[i + 1]);
    }
    if n > 0 && Pairs(g, calls[n - 1], c) {
      assert Pairs(g, all[n - 1], all[n - 1 + 1]);
    }
  }

  /** Nothing is graphed so far, nor about to be. */
  predicate Quiet(s: State) { Graphs(s.out) == [] && |s.batch| <= 1 }

  /** The calls seen end in `last`, which alone is the open batch if it can be graphed. */
  ghost predicate Follows(g: Runners, s: State, seen: seq<Call>, max: nat)
    requires HaveDevices(seen)
  {
    && s.max == max && s.devs == BatchDevs(s.batch)
    && s.batch == if seen != [] && Graphable(g, seen[|seen| - 1]) then [seen[|seen| - 1]] else []
  }

  lemma LoudStaysLoud(g: Runners, s: State, c: Call)
    requires c.devs != [] && !Quiet(s)
    ensures !Quiet(Step(g, s, c))
  {
    hide CanGraph, Joins, Devs, Dedup;
    FlushGraphs(s);
    GraphsAppend(Flush(s).out, Single(c));
    GraphsAppend(s.out, Single(c));
    hide Flush, Graphs;
  }

  lemma QuietFlush(s: State)
    requires Quiet(s)
    ensures
      var f := Flush(s);
      Graphs(f.out) == [] && f.batch == [] && f.devs == [] && f.max == s.max
  {
    FlushGraphs(s);
  }

  lemma StepCases(g: Runners, s: State, c: Call)
    requires c.devs != [] && !c.slice
    ensures c.barrier ==> Step(g, s, c) == Flush(s).(out := Flush(s).out + [Single(c)])
    ensures !c.barrier ==>
      var f := if !CanExtend(g, s, c) && s.batch != [] then Flush(s) else s;
      Step(g, s, c) ==
      if CanGraph(g, c) then f.(batch := f.batch + [c], devs := Dedup(f.devs + Devs(c)))
      else f.(out := f.out + [Single(c)], devs := [])
  {
    hide CanExtend, CanGraph, Flush, Dedup, Devs;
  }

  /** One more call after a quiet start: it joins the open batch, starts one, or stays on its own. */
  lemma QuietStep(g: Runners, s: State, c: Call)
    requires c.devs != [] && !c.slice && Quiet(s) && s.devs == BatchDevs(s.batch)
    ensures
      var t, joined := Step(g, s, c), s.batch != [] && !c.barrier && CanExtend(g, s, c);
      && (Quiet(t) <==> !joined) && t.devs == BatchDevs(t.batch)
      && (!joined ==> t.max == s.max && t.batch == if Graphable(g, c) then [c] else [])
  {
    hide Step, Flush, Graphs, BatchDevs, Dedup, Devs, CanGraph, Joins, Singles, Pow2;
    StepCases(g, s, c);
    QuietFlush(s);
    BatchDevsAppend(s.batch, c);
    BatchDevsOfOne(c);
    GraphsAppend(Flush(s).out, Single(c));
    GraphsAppend(s.out, Single(c));
    NoDevs();
    assert Flush(s).batch + [c] == [c] && (s.batch == [] ==> s.batch + [c] == [c]);
  }

  lemma NoDevs()
    ensures BatchDevs([]) == []
  {
  }

  lemma FollowsOn(g: Runners, s: State, seen: seq<Call>, c: Call, max: nat)
    requires HaveDevices(seen) && c.devs != [] && !c.slice && Quiet(s) && Follows(g, s, seen, max)
    ensures
      var joined := seen != [] && Pairs(g, seen[|seen| - 1], c) && max != 1;
      && (Quiet(Step(g, s, c)) <==> !joined)
      && (!joined ==> HaveDevices(seen + [c]) && Follows(g, Step(g, s, c), seen + [c], max))
  {
    hide Step, Flush, Graphs, BatchDevs, Dedup, Devs, CanGraph, Joins, Singles, Pow2;
    QuietStep(g, s, c);
    assert s.batch != [] ==> s.batch == [seen[|seen| - 1]];
    assert (seen + [c])[|seen + [c]| - 1] == c;
  }

  lemma {:induction false} ScanQuietIff(g: Runners, calls: seq<Call>, max: nat)
    requires HaveDevices(calls)
    ensures
      var s, seen := Scan(g, calls, max), WithoutSlices(calls);
      && HaveDevices(seen)
      && (Quiet(s) <==> max == 1 || !HasPair(g, seen))
      && (Quiet(s) ==> Follows(g, s, seen, max))
  {
    WithoutSlicesKeeps(calls);
    if calls != [] {
      var n := |calls| - 1;
      var c := calls[n];
      assert c in calls;
      ScanQuietIff(g, calls[..n], max);
      var s, seen := Scan(g, calls[..n], max), WithoutSlices(calls[..n]);
      LastStep(g, calls, max);
      hide Quiet, Follows, HasPair, Pairs, Scan;
      if c.slice {
        assert WithoutSlices(calls) == seen;
        assert Step(g, s, c) == s;
      } else {
        assert WithoutSlices(calls) == seen + [c];
        hide Step, WithoutSlices;
        PairAppend(g, seen, c);
        if Quiet(s) {
          FollowsOn(g, s, seen, c, max);
        } else {
          LoudStaysLoud(g, s, c);
        }
      }
    }
  }

  /** Something is graphed exactly if the limit is not one and two calls in a row, slices aside, go together. */
  lemma GraphedIff(g: Runners, calls: seq<Call>, max: nat)
    requires HaveDevices(calls)
    ensures HaveDevices(WithoutSlices(calls))
    ensures Graphs(SplitOf(g, calls, max)) != [] <==> max != 1 && HasPair(g, WithoutSlices(calls))
  {
    ScanQuietIff(g, calls, max);
    FlushGraphs(Scan(g, calls, max));
    hide Scan, HasPair;
  }

  /** A limit of one is never doubled. */
  lemma LimitOneNeverGraphs(g: Runners, calls: seq<Call>)
    requires HaveDevices(calls)
    ensures Graphs(SplitOf(g, calls, 1)) == []
  {
    hide SplitOf, Graphs, HasPair;
    GraphedIff(g, calls, 1);
  }

  // ---------------------------------------------------------------- when a batch ends

  /** The call asks the runner of its first device. */
  lemma FirstDevice(g: Runners, c: Call, batchDevs: seq<Device>)
    requires c.devs != []
    ensures CanGraph(g, c) <==> g.hasGraph(c.devs[0]) && g.supports(c.devs[0], Dedup(c.devs), c)
    ensures Joins(g, batchDevs, c) <==> batchDevs == [] || g.supports(c.devs[0], batchDevs, c)
  {
    DedupFirst(c.devs);
  }

  /** Slices are skipped as if they were not there. */
  lemma {:induction false} SplitIgnoresSlices(g: Runners, calls: seq<Call>, max: nat)
    requires HaveDevices(calls)
    ensures HaveDevices(WithoutSlices(calls))
    ensures SplitOf(g, calls, max) == SplitOf(g, WithoutSlices(calls), max)
  {
    ScanIgnoresSlices(g, calls, max);
  }

  lemma {:induction false} ScanIgnoresSlices(g: Runners, calls: seq<Call>, max: nat)
    requires HaveDevices(calls)
    ensures HaveDevices(WithoutSlices(calls)) && Scan(g, calls, max) == Scan(g, WithoutSlices(calls), max)
  {
    WithoutSlicesKeeps(calls);
    if calls != [] {
      var n := |calls| - 1;
      assert calls[n] in calls;
      ScanIgnoresSlices(g, calls[..n], max);
      LastStep(g, calls, max);
      LastWithoutSlices(calls);
      var before, kept := WithoutSlices(calls[..n]), WithoutSlices(calls);
      hide WithoutSlices, Scan, CanExtend, CanGraph, Flush, Dedup, Devs;
      if calls[n].slice {
        assert kept == before;
      } else {
        assert kept[..|kept| - 1] == before && kept[|kept| - 1] == calls[n];
        LastStep(g, kept, max);
      }
    }
  }

  lemma LastWithoutSlices(calls: seq<Call>)
    requires calls != []
    ensures
      var n := |calls| - 1;
      WithoutSlices(calls) == WithoutSlices(calls[..n]) + if calls[n].slice then [] else [calls[n]]
  {
  }

  /** The call could be added to these, which are graphed together, within the limit. */
  predicate Extends(g: Runners, calls: seq<Call>, c: Call, limit: nat) {
    && calls != [] && calls[0].devs != [] && Graphable(g, calls[0])
    && c.devs != [] && Graphable(g, c) && Joins(g, BatchDevs(calls), c) && (limit == 0 || |calls| < limit)
  }

  /** The limit that output k was collected under: doubled by every graph before it. */
  function LimitAt(out: seq<Out>, k: nat, max: nat): nat
    requires k <= |out|
  {
    max * Pow2(|Graphs(out[..k])|)
  }

  /** Output k could not have been continued with this call. */
  ghost predicate Ends(g: Runners, out: seq<Out>, k: nat, c: Call, max: nat)
    requires k < |out|
  {
    !Extends(g, CallsOf(out[k]), c, LimitAt(out, k, max))
  }

  ghost predicate AllEnd(g: Runners, out: seq<Out>, max: nat) {
    && (forall k :: 0 <= k < |out| ==> CallsOf(out[k]) != [])
    && forall k :: 0 < k < |out| ==> Ends(g, out, k - 1, CallsOf(out[k])[0], max)
  }

  /** What is out has ended, before the open batch or, without one, because it cannot be graphed. */
  ghost predicate Ended(g: Runners, s: State, max: nat) {
    && Good(g, s, max) && AllEnd(g, s.out, max)
    && (s.out != [] && s.batch != [] ==> Ends(g, s.out, |s.out| - 1, s.batch[0], max))
    && (s.out != [] && s.batch == [] ==>
          var c := CallsOf(s.out[|s.out| - 1])[0];
          c.devs != [] ==> !Graphable(g, c))
  }

  lemma EndsKept(g: Runners, out: seq<Out>, o: Out, k: nat, c: Call, max: nat)
    requires k < |out|
    ensures Ends(g, out + [o], k, c, max) <==> Ends(g, out, k, c, max)
  {
    assert (out + [o])[..k] == out[..k];
  }

  lemma AllEndAppend(g: Runners, out: seq<Out>, o: Out, max: nat)
    requires AllEnd(g, out, max) && CallsOf(o) != []
    requires out != [] ==> Ends(g, out, |out| - 1, CallsOf(o)[0], max)
    ensures AllEnd(g, out + [o], max)
  {
    hide Ends;
    var all := out + [o];
    forall k | 0 < k < |all| ensures Ends(g, all, k - 1, CallsOf(all[k])[0], max) {
      EndsKept(g, out, o, k - 1, CallsOf(all[k])[0], max);
    }
  }

  /** Putting the open batch out. */
  lemma FlushEnds(g: Runners, s: State, max: nat, c: Call)
    requires Ended(g, s, max) && (s.batch != [] ==> !Extends(g, s.batch, c, s.max))
    ensures
      var f := Flush(s);
      AllEnd(g, f.out, max) && (f.out != [] && s.batch != [] ==> Ends(g, f.out, |f.out| - 1, c, max))
  {
    hide Extends, Good, LimitAt;
    GoodLimit(g, s, max);
    if s.batch == [] {
      assert s.out + Singles(s.batch) == s.out;
    } else {
      var o := if |s.batch| == 1 then Single(s.batch[0]) else Graph(s.batch);
      assert |s.batch| == 1 ==> Singles(s.batch) == [o] && s.batch == [s.batch[0]];
      assert Flush(s).out == s.out + [o] && CallsOf(o) == s.batch;
      AllEndAppend(g, s.out, o, max);
      assert (s.out + [o])[..|s.out|] == s.out;
      SameLimit(s.out + [o], s.out, |s.out|, max);
      hide AllEnd;
    }
  }

  lemma GoodLimit(g: Runners, s: State, max: nat)
    requires Good(g, s, max)
    ensures s.max == LimitAt(s.out, |s.out|, max)
  {
    assert s.out[..|s.out|] == s.out;
    hide GoodGraphs, Coherent, Pow2;
  }

  /** A call that is not graphed ends what was before it. */
  lemma SingleEnds(g: Runners, out: seq<Out>, c: Call, max: nat)
    requires AllEnd(g, out, max) && c.devs != [] && !Graphable(g, c)
    ensures AllEnd(g, out + [Single(c)], max)
  {
    hide Graphable;
    AllEndAppend(g, out, Single(c), max);
  }

  lemma StepEnds(g: Runners, s: State, c: Call, max: nat)
    requires Ended(g, s, max) && c.devs != []
    ensures Ended(g, Step(g, s, c), max)
  {
    hide AllEnd, Good, CanGraph, Joins, BatchDevs, Dedup, Devs, LimitAt, Flush;
    StepIsGood(g, s, c, max);
    if !c.slice {
      CannotExtend(g, s, c, max);
      FlushClears(s);
      if c.barrier || !CanGraph(g, c) {
        FlushEnds(g, s, max, c);
        SingleEnds(g, Flush(s).out, c, max);
        SingleEnds(g, s.out, c, max);
      } else if !CanExtend(g, s, c) && s.batch != [] {
        FlushEnds(g, s, max, c);
      }
    }
  }

  lemma FlushClears(s: State)
    ensures Flush(s).batch == [] && Flush(s).devs == []
  {
  }

  lemma CannotExtend(g: Runners, s: State, c: Call, max: nat)
    requires Good(g, s, max) && c.devs != []
    ensures c.barrier || !CanExtend(g, s, c) ==> !Extends(g, s.batch, c, s.max)
  {
    hide CanGraph, Joins, BatchDevs, Coherent, GoodGraphs, Pow2;
  }

  lemma {:induction false} ScanEnds(g: Runners, calls: seq<Call>, max: nat)
    requires HaveDevices(calls)
    ensures Ended(g, Scan(g, calls, max), max)
  {
    if calls == [] {
      ScanIsGood(g, calls, max);
    } else {
      var n := |calls| - 1;
      assert calls[n] in calls;
      ScanEnds(g, calls[..n], max);
      StepEnds(g, Scan(g, calls[..n], max), calls[n], max);
    }
  }

  /** Every graph holds two or more calls that go together, within its limit. */
  ghost predicate GraphsFit(g: Runners, out: seq<Out>, max: nat) {
    forall k :: 0 <= k < |out| && out[k].Graph? ==>
      |out[k].calls| >= 2 && Coherent(g, out[k].calls) && (max > 0 ==> |out[k].calls| <= LimitAt(out, k, max))
  }

  /** Every graph fits, and no output could have been continued with the call after it. */
  ghost predicate WellCut(g: Runners, out: seq<Out>, max: nat) { GraphsFit(g, out, max) && AllEnd(g, out, max) }

  lemma {:induction false} GoodGraphsFit(g: Runners, out: seq<Out>, max: nat)
    requires GoodGraphs(g, Graphs(out), max)
    ensures GraphsFit(g, out, max)
  {
    hide Coherent, Pow2;
    if out != [] {
      var n := |out| - 1;
      assert out == out[..n] + [out[n]];
      GraphsAppend(out[..n], out[n]);
      assert GoodGraphs(g, Graphs(out[..n]), max) by {
        assert forall k :: 0 <= k < |Graphs(out[..n])| ==> Graphs(out)[k] == Graphs(out[..n])[k];
      }
      GoodGraphsFit(g, out[..n], max);
      forall k | 0 <= k < |out| && out[k].Graph?
        ensures |out[k].calls| >= 2 && Coherent(g, out[k].calls)
        ensures max > 0 ==> |out[k].calls| <= LimitAt(out, k, max)
      {
        assert out[..k] == out[..n][..k];
        if k < n {
          assert out[..n][k] == out[k];
        } else {
          assert Graphs(out)[|Graphs(out[..n])|] == out[k].calls;
        }
      }
    }
  }

  lemma SplitIsWellCut(g: Runners, calls: seq<Call>, max: nat)
    requires HaveDevices(calls)
    ensures WellCut(g, SplitOf(g, calls, max), max)
  {
    GraphsAreGood(g, calls, max);
    GoodGraphsFit(g, SplitOf(g, calls, max), max);
    ScanEnds(g, calls, max);
    var nothing := Call(0, false, true, []);
    FlushEnds(g, Scan(g, calls, max), max, nothing);
  }

  lemma {:induction false} ExpandPrefix(out: seq<Out>, k: nat)
    requires k <= |out|
    ensures Expand(out[..k]) <= Expand(out)
    ensures k < |out| ==> Expand(out[..k + 1]) == Expand(out[..k]) + CallsOf(out[k])
    decreases |out| - k
  {
    if k == |out| {
      assert out[..k] == out;
    } else {
      ExpandPrefix(out, k + 1);
      assert out[..k + 1][..k] == out[..k];
    }
  }

  /** Where the calls of output k stand among all calls. */
  lemma CallsAt(out: seq<Out>, k: nat)
    requires k < |out|
    ensures
      var at, calls := |Expand(out[..k])|, CallsOf(out[k]);
      && at + |calls| == |Expand(out[..k + 1])| <= |Expand(out)|
      && (forall i :: 0 <= i < |calls| ==> Expand(out)[at + i] == calls[i])
      && (k + 1 == |out| ==> at + |calls| == |Expand(out)|)
  {
    hide Expand, CallsOf;
    ExpandPrefix(out, k);
    ExpandPrefix(out, k + 1);
    MiddleOf(Expand(out[..k]), CallsOf(out[k]), Expand(out[..k + 1]), Expand(out));
    if k + 1 == |out| {
      assert out[..k + 1] == out;
    }
  }

  lemma MiddleOf<T>(a: seq<T>, b: seq<T>, c: seq<T>, all: seq<T>)
    requires c == a + b && c <= all
    ensures |a| + |b| == |c| <= |all| && forall i :: 0 <= i < |b| ==> all[|a| + i] == b[i]
  {
    assert c == all[..|c|];
    forall i | 0 <= i < |b| ensures all[|a| + i] == b[i] {
      assert c[|a| + i] == b[i];
    }
  }

  /** In two well-cut lists of the same calls the outputs where they first could differ hold as many calls. */
  lemma NotShorter(g: Runners, o1: seq<Out>, o2: seq<Out>, k: nat, max: nat)
    requires WellCut(g, o1, max) && WellCut(g, o2, max) && Expand(o1) == Expand(o2)
    requires k < |o1| && k < |o2| && o1[..k] == o2[..k]
    ensures |CallsOf(o1[k])| >= |CallsOf(o2[k])|
  {
    hide Expand, GraphsFit, AllEnd;
    var a, b := CallsOf(o1[k]), CallsOf(o2[k]);
    CallsAt(o1, k);
    CallsAt(o2, k);
    if |a| < |b| {
      NextCall(o1, o2, k);
      CallsNonempty(g, o1, k, max);
      CallsNonempty(g, o1, k + 1, max);
      CallsAt(o1, k + 1);
      assert Expand(o1)[|Expand(o1[..k])| + |a|] == b[|a|];
      assert CallsOf(o1[k + 1])[0] == b[|a|];
      SameStretch(Expand(o1), |Expand(o1[..k])|, a, b);
      CouldContinue(g, o1, o2, k, max);
    }
  }

  lemma CallsNonempty(g: Runners, out: seq<Out>, k: nat, max: nat)
    requires WellCut(g, out, max) && k < |out|
    ensures CallsOf(out[k]) != []
  {
    hide GraphsFit, Ends;
  }

  lemma NextCall(o1: seq<Out>, o2: seq<Out>, k: nat)
    requires Expand(o1) == Expand(o2) && k < |o1| && k < |o2| && o1[..k] == o2[..k]
    requires |CallsOf(o1[k])| < |CallsOf(o2[k])|
    ensures k + 1 < |o1|
  {
    hide Expand;
    CallsAt(o1, k);
    CallsAt(o2, k);
  }

  /** A longer output shows that the shorter one could have been continued. */
  lemma CouldContinue(g: Runners, o1: seq<Out>, o2: seq<Out>, k: nat, max: nat)
    requires GraphsFit(g, o2, max) && k + 1 < |o1| && k < |o2| && o1[..k] == o2[..k]
    requires
      var a, b := CallsOf(o1[k]), CallsOf(o2[k]);
      0 < |a| < |b| && a == b[..|a|] && CallsOf(o1[k + 1]) != [] && CallsOf(o1[k + 1])[0] == b[|a|]
    ensures !AllEnd(g, o1, max)
  {
    hide CanGraph, Joins, BatchDevs, LimitAt, Extends, Coherent;
    var a, b := CallsOf(o1[k]), CallsOf(o2[k]);
    assert o2[k].Graph? && Coherent(g, b) && (max > 0 ==> |b| <= LimitAt(o2, k, max));
    SameLimit(o1, o2, k, max);
    CoherentExtends(g, b, |a|, LimitAt(o1, k, max));
    assert !Ends(g, o1, k + 1 - 1, CallsOf(o1[k + 1])[0], max);
  }

  lemma SameLimit(o1: seq<Out>, o2: seq<Out>, k: nat, max: nat)
    requires k <= |o1| && k <= |o2| && o1[..k] == o2[..k]
    ensures LimitAt(o1, k, max) == LimitAt(o2, k, max) && (max == 0 ==> LimitAt(o1, k, max) == 0)
  {
  }

  lemma CoherentExtends(g: Runners, b: seq<Call>, n: nat, limit: nat)
    requires Coherent(g, b) && 0 < n < |b| && (limit > 0 ==> |b| <= limit)
    ensures Extends(g, b[..n], b[n], limit)
  {
    hide CanGraph, Joins, BatchDevs;
    assert b[0].devs != [] && b[n].devs != [];
  }

  lemma {:induction false} SamePrefix(g: Runners, o1: seq<Out>, o2: seq<Out>, k: nat, max: nat)
    requires WellCut(g, o1, max) && WellCut(g, o2, max) && Expand(o1) == Expand(o2) && k <= |o1|
    ensures k <= |o2| && o1[..k] == o2[..k]
  {
    hide Expand, WellCut;
    if k > 0 {
      SamePrefix(g, o1, o2, k - 1, max);
      MoreToCome(g, o1, o2, k - 1, max);
      NotShorter(g, o1, o2, k - 1, max);
      NotShorter(g, o2, o1, k - 1, max);
      SameOutput(g, o1, o2, k - 1, max);
      assert o1[..k] == o1[..k - 1] + [o1[k - 1]] && o2[..k] == o2[..k - 1] + [o2[k - 1]];
    }
  }

  lemma SameOutput(g: Runners, o1: seq<Out>, o2: seq<Out>, k: nat, max: nat)
    requires WellCut(g, o1, max) && WellCut(g, o2, max) && Expand(o1) == Expand(o2)
    requires k < |o1| && k < |o2| && o1[..k] == o2[..k] && |CallsOf(o1[k])| == |CallsOf(o2[k])|
    ensures o1[k] == o2[k]
  {
    hide Expand, WellCut, CallsOf;
    CallsAt(o1, k);
    CallsAt(o2, k);
    SameStretch(Expand(o1), |Expand(o1[..k])|, CallsOf(o1[k]), CallsOf(o2[k]));
    SameCallsSameOutput(g, o1, o2, k, max);
  }

  lemma SameStretch<T>(all: seq<T>, at: nat, a: seq<T>, b: seq<T>)
    requires |a| <= |b| && at + |b| <= |all|
    requires forall i :: 0 <= i < |a| ==> all[at + i] == a[i]
    requires forall i :: 0 <= i < |b| ==> all[at + i] == b[i]
    ensures a == b[..|a|] && (|a| == |b| ==> a == b)
  {
    forall i | 0 <= i < |a| ensures a[i] == b[i] {
      assert all[at + i] == a[i];
    }
  }

  lemma SameCallsSameOutput(g: Runners, o1: seq<Out>, o2: seq<Out>, k: nat, max: nat)
    requires WellCut(g, o1, max) && WellCut(g, o2, max) && k < |o1| && k < |o2|
    requires CallsOf(o1[k]) == CallsOf(o2[k])
    ensures o1[k] == o2[k]
  {
    hide AllEnd, Coherent, LimitAt;
  }

  lemma MoreToCome(g: Runners, o1: seq<Out>, o2: seq<Out>, k: nat, max: nat)
    requires WellCut(g, o1, max) && Expand(o1) == Expand(o2) && k < |o1| && k <= |o2| && o1[..k] == o2[..k]
    ensures k < |o2|
  {
    CallsAt(o1, k);
    CallsNonempty(g, o1, k, max);
    assert o2[..|o2|] == o2;
    hide Expand, WellCut;
  }

  /**
    The result is the only list of outputs that holds the calls without the slices, in order, whose graphs fit, and
    none of whose outputs could have been continued with the call after it.
   */
  lemma SplitIsDetermined(g: Runners, calls: seq<Call>, max: nat, out: seq<Out>)
    requires HaveDevices(calls)
    ensures out == SplitOf(g, calls, max) <==> Expand(out) == WithoutSlices(calls) && WellCut(g, out, max)
  {
    hide Expand, WellCut, SplitOf;
    var r := SplitOf(g, calls, max);
    SplitConserves(g, calls, max);
    SplitIsWellCut(g, calls, max);
    if Expand(out) == WithoutSlices(calls) && WellCut(g, out, max) {
      SamePrefix(g, out, r, |out|, max);
      SamePrefix(g, r, out, |r|, max);
      assert out[..|out|] == out && r[..|r|] == r;
    }
  }

  lemma {:induction false} PlainHasNoSlices(calls: seq<Call>)
    requires Plain(calls)
    ensures WithoutSlices(calls) == calls && HaveDevices(calls)
  {
    if calls != [] {
      var n := |calls| - 1;
      PlainHasNoSlices(calls[..n]);
      assert calls[n] in calls && calls == calls[..n] + [calls[n]];
    }
  }

  /** A compatible program of two or more calls is graphed exactly when the limit is not one. */
  lemma CompatibleGraphedIff(g: Runners, calls: seq<Call>, max: nat)
    requires AllCompatible(g, calls) && |calls| >= 2
    ensures Graphs(SplitOf(g, calls, max)) != [] <==> max != 1
  {
    hide CanGraph, Joins, BatchDevs, SplitOf;
    PlainHasNoSlices(calls);
    GraphedIff(g, calls, max);
    assert calls[0] in calls && calls[1] in calls && calls[0..1] == [calls[0]];
    assert Joins(g, BatchDevs(calls[0..1]), calls[1]);
    assert Pairs(g, calls[0], calls[0 + 1]);
  }

  lemma {:induction false} NoLimitFills(g: Runners, calls: seq<Call>)
    requires AllCompatible(g, calls)
    ensures Scan(g, calls, 0) == State([], calls, BatchDevs(calls), 0)
  {
    hide CanGraph, Joins, BatchDevs, Dedup, Step, WithoutSlices;
    if calls == [] {
      NoDevs();
    } else {
      var n := |calls| - 1;
      CompatiblePrefix(g, calls, n);
      NoLimitFills(g, calls[..n]);
      LastStep(g, calls, 0);
      assert calls[n] in calls && calls == calls[..n] + [calls[n]] && calls[0..n] == calls[..n];
      BatchDevsAppend(calls[..n], calls[n]);
      assert Joins(g, BatchDevs(calls[0..n]), calls[n]);
      StepExtends(g, Scan(g, calls[..n], 0), calls[n]);
    }
  }

  /** A limit of zero is no limit: a compatible program becomes one graph. */
  lemma NoLimitIsOneGraph(g: Runners, calls: seq<Call>)
    requires AllCompatible(g, calls) && |calls| >= 2
    ensures SplitOf(g, calls, 0) == [Graph(calls)]
  {
    NoLimitFills(g, calls);
  }
}
