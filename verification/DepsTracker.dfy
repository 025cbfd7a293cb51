/**
  Hazard tracking for graph replay (`tinygrad/engine/jit.py`, class DepsTracker).

  The tracker keeps, for every base buffer, a list of half-open byte spans with their last writer and a
  list of spans with the readers seen since. Three layers are related here:

    - the imperative class `Tracker`, which loops over buffers and rebuilds the span lists;
    - the functions `Waits` and `Record`, which the class is proved against;
    - the calls themselves: which bytes of which base their buffers lie over, and so which call wrote a
      byte last and which have read it since, without any span list.

  The main results are `SpansDenoteLog`, `WaitsAreConflictsIff` and `HazardsAreOrdered`.
 */
module DepsTracking {
  import opened Wrappers
  import opened Collections
  import opened IndexMath

  /** Identity of a base buffer. */
  type Key = nat

  /** A buffer argument: its base, its byte offset in the base and its size in bytes. */
  datatype Region = Region(key: Key, offset: nat, nbytes: nat)

  /** The byte range [st, en) with the dependency that last touched it. */
  datatype Span<D> = Span(st: nat, en: nat, dep: D)

  /** One buffer of one call, with the call's dependency. */
  datatype Access<D> = Access(key: Key, s: nat, e: nat, write: bool, dep: D)

  datatype Call<D> = Call(bufs: seq<Region>, write: seq<int>, dep: D)

  datatype State<D> = State(w: map<Key, seq<Span<D>>>, r: map<Key, seq<Span<D>>>)

  /** Reading a missing key of a defaultdict(list). */
  function Get<D>(m: map<Key, seq<Span<D>>>, k: Key): seq<Span<D>> {
    if k in m then m[k] else []
  }

  // ---------------------------------------------------------------- what calls do to a byte

  /** The buffer lies over byte b of base k. */
  predicate Holds(x: Region, k: Key, b: nat) {
    x.key == k && x.offset <= b < x.offset + x.nbytes
  }

  ghost predicate CallTouches<D>(c: Call<D>, k: Key, b: nat) {
    exists i :: 0 <= i < |c.bufs| && Holds(c.bufs[i], k, b)
  }

  ghost predicate CallWrites<D>(c: Call<D>, k: Key, b: nat) {
    exists i :: 0 <= i < |c.bufs| && i in c.write && Holds(c.bufs[i], k, b)
  }

  /** The call reads the byte through one of its buffers and does not write it through a later one. */
  ghost predicate CallReadsLast<D>(c: Call<D>, k: Key, b: nat) {
    exists i :: 0 <= i < |c.bufs| && i !in c.write && Holds(c.bufs[i], k, b) &&
      forall j :: i < j < |c.bufs| && j in c.write ==> !Holds(c.bufs[j], k, b)
  }

  ghost predicate NotWrittenAfter<D>(calls: seq<Call<D>>, n: nat, k: Key, b: nat) {
    forall m :: n < m < |calls| ==> !CallWrites(calls[m], k, b)
  }

  /** d is the dependency of the last call that writes the byte. */
  ghost predicate WroteLast<D>(calls: seq<Call<D>>, k: Key, b: nat, d: D) {
    exists n :: 0 <= n < |calls| && CallWrites(calls[n], k, b) && calls[n].dep == d &&
      NotWrittenAfter(calls, n, k, b)
  }

  /** d is the dependency of a call that reads the byte, which is not written since. */
  ghost predicate ReadSince<D>(calls: seq<Call<D>>, k: Key, b: nat, d: D) {
    exists n :: 0 <= n < |calls| && CallReadsLast(calls[n], k, b) && calls[n].dep == d &&
      NotWrittenAfter(calls, n, k, b)
  }

  /** d wrote a byte last that the call touches, or has read one since then that the call writes. */
  ghost predicate ConflictsWith<D>(calls: seq<Call<D>>, c: Call<D>, d: D) {
    exists k, b ::
      || (CallTouches(c, k, b) && WroteLast(calls, k, b, d))
      || (CallWrites(c, k, b) && ReadSince(calls, k, b, d))
  }

  // ---------------------------------------------------------------- the span-list algorithm

  function Overlapping<D>(spans: seq<Span<D>>, s: nat, e: nat): seq<D> {
    if spans == [] then []
    else (if spans[0].st < e && s < spans[0].en then [spans[0].dep] else []) + Overlapping(spans[1..], s, e)
  }

  /** What is left of one span after [s, e) has been overwritten. */
  function Remainder<D>(x: Span<D>, s: nat, e: nat): seq<Span<D>> {
    (if x.st < Least(s, x.en) then [Span(x.st, Least(s, x.en), x.dep)] else []) +
    (if Greatest(e, x.st) < x.en then [Span(Greatest(e, x.st), x.en, x.dep)] else [])
  }

  function Trim<D>(spans: seq<Span<D>>, s: nat, e: nat): seq<Span<D>> {
    if spans == [] then [] else Trim(spans[..|spans| - 1], s, e) + Remainder(spans[|spans| - 1], s, e)
  }

  function AccessOf<D>(c: Call<D>, i: nat): Access<D>
    requires i < |c.bufs|
  {
    Access(c.bufs[i].key, c.bufs[i].offset, c.bufs[i].offset + c.bufs[i].nbytes, i in c.write, c.dep)
  }

  /** The accesses of a call, in buffer order. */
  function Accesses<D>(c: Call<D>): seq<Access<D>> {
    seq(|c.bufs|, i requires 0 <= i < |c.bufs| => AccessOf(c, i))
  }

  function RawWaits<D>(st: State<D>, accs: seq<Access<D>>): seq<D> {
    if accs == [] then []
    else
      var a := accs[|accs| - 1];
      RawWaits(st, accs[..|accs| - 1]) + Overlapping(Get(st.w, a.key), a.s, a.e) +
      (if a.write then Overlapping(Get(st.r, a.key), a.s, a.e) else [])
  }

  function Record<D>(st: State<D>, a: Access<D>): State<D> {
    if a.write then
      State(st.w[a.key := Trim(Get(st.w, a.key), a.s, a.e) + [Span(a.s, a.e, a.dep)]],
            st.r[a.key := Trim(Get(st.r, a.key), a.s, a.e)])
    else
      State(st.w, st.r[a.key := Get(st.r, a.key) + [Span(a.s, a.e, a.dep)]])
  }

  function RecordAll<D>(st: State<D>, accs: seq<Access<D>>): State<D> {
    if accs == [] then st else Record(RecordAll(st, accs[..|accs| - 1]), accs[|accs| - 1])
  }

  /** The list of dependencies the tracker returns for a call. */
  function Waits<D(==)>(st: State<D>, c: Call<D>): seq<D> {
    Dedup(RawWaits(st, Accesses(c)))
  }

  function Empty<D>(): State<D> { State(map[], map[]) }

  lemma RawWaitsStep<D>(st: State<D>, c: Call<D>, i: nat)
    requires i < |c.bufs|
    ensures RawWaits(st, Accesses(c)[..i + 1]) ==
      var a := AccessOf(c, i);
      RawWaits(st, Accesses(c)[..i]) + Overlapping(Get(st.w, a.key), a.s, a.e) +
      (if a.write then Overlapping(Get(st.r, a.key), a.s, a.e) else [])
  {
    assert Accesses(c)[..i + 1][..i] == Accesses(c)[..i];
  }

  lemma RecordAllStep<D>(st: State<D>, c: Call<D>, i: nat)
    requires i < |c.bufs|
    ensures RecordAll(st, Accesses(c)[..i + 1]) == Record(RecordAll(st, Accesses(c)[..i]), AccessOf(c, i))
  {
    assert Accesses(c)[..i + 1][..i] == Accesses(c)[..i];
  }

  // ---------------------------------------------------------------- the class

  /** The inner loop over one span list. */
  method TrimSpans<D>(spans: seq<Span<D>>, s: nat, e: nat) returns (kept: seq<Span<D>>)
    ensures kept == Trim(spans, s, e)
  {
    kept := [];
    for n := 0 to |spans|
      invariant kept == Trim(spans[..n], s, e)
    {
      var x := spans[n];
      assert spans[..n + 1][..n] == spans[..n];
      if x.st < Least(s, x.en) { kept := kept + [Span(x.st, Least(s, x.en), x.dep)]; }
      if Greatest(e, x.st) < x.en { kept := kept + [Span(Greatest(e, x.st), x.en, x.dep)]; }
    }
    assert spans[..|spans|] == spans;
  }

  class Tracker<D(==)> {
    var w: map<Key, seq<Span<D>>>
    var r: map<Key, seq<Span<D>>>

    ghost function View(): State<D>
      reads this
    {
      State(w, r)
    }

    constructor ()
      ensures View() == Empty()
    {
      w, r := map[], map[];
    }

    /** First loop: the dependencies in the way, computed before anything is updated. */
    method CollectWaits(bufs: seq<Region>, write: seq<int>, newDependency: D) returns (waits: seq<D>)
      ensures waits == Waits(View(), Call(bufs, write, newDependency))
    {
      ghost var c := Call(bufs, write, newDependency);
      var waitNodes := [];
      for i := 0 to |bufs|
        invariant waitNodes == RawWaits(View(), Accesses(c)[..i])
      {
        RawWaitsStep(View(), c, i);
        var key, s, e := bufs[i].key, bufs[i].offset, bufs[i].offset + bufs[i].nbytes;
        waitNodes := waitNodes + Overlapping(Get(w, key), s, e);
        if i in write {
          waitNodes := waitNodes + Overlapping(Get(r, key), s, e);
        }
      }
      assert Accesses(c)[..|bufs|] == Accesses(c);
      waits := Dedup(waitNodes);
    }

    /** Body of the second loop: one buffer is recorded, a write trimming both lists first. */
    method RecordOne(key: Key, s: nat, e: nat, isWrite: bool, newDependency: D)
      modifies this
      ensures View() == Record(old(View()), Access(key, s, e, isWrite, newDependency))
    {
      if isWrite {
        var keptW := TrimSpans(Get(w, key), s, e);
        var keptR := TrimSpans(Get(r, key), s, e);
        w := w[key := keptW + [Span(s, e, newDependency)]];
        r := r[key := keptR];
      } else {
        r := r[key := Get(r, key) + [Span(s, e, newDependency)]];
      }
    }

    method AccessResources(bufs: seq<Region>, write: seq<int>, newDependency: D) returns (waits: seq<D>)
      modifies this
      ensures waits == Waits(old(View()), Call(bufs, write, newDependency))
      ensures View() == RecordAll(old(View()), Accesses(Call(bufs, write, newDependency)))
    {
      ghost var c := Call(bufs, write, newDependency);
      waits := CollectWaits(bufs, write, newDependency);
      for i := 0 to |bufs|
        invariant View() == RecordAll(old(View()), Accesses(c)[..i])
      {
        RecordAllStep(old(View()), c, i);
        RecordOne(bufs[i].key, bufs[i].offset, bufs[i].offset + bufs[i].nbytes, i in write, newDependency);
      }
      assert Accesses(c)[..|bufs|] == Accesses(c);
    }
  }

  // ---------------------------------------------------------------- the log of accesses

  predicate Touches<D>(a: Access<D>, k: Key, b: nat) {
    a.key == k && a.s <= b < a.e
  }

  /** Who wrote byte b of base k last, read off the log of accesses. */
  function LastWriter<D>(log: seq<Access<D>>, k: Key, b: nat): Option<D> {
    if log == [] then None
    else
      var a := log[|log| - 1];
      if Touches(a, k, b) && a.write then Some(a.dep) else LastWriter(log[..|log| - 1], k, b)
  }

  /** Who has read byte b of base k since it was last written. */
  function ReadersSince<D>(log: seq<Access<D>>, k: Key, b: nat): set<D> {
    if log == [] then {}
    else
      var a := log[|log| - 1];
      var before := ReadersSince(log[..|log| - 1], k, b);
      if !Touches(a, k, b) then before else if a.write then {} else before + {a.dep}
  }

  predicate Covers<D>(x: Span<D>, b: nat) { x.st <= b < x.en }

  /** The dependencies whose spans cover byte b. */
  ghost function At<D>(spans: seq<Span<D>>, b: nat): set<D> {
    set i | 0 <= i < |spans| && Covers(spans[i], b) :: spans[i].dep
  }

  ghost predicate Disjoint<D>(spans: seq<Span<D>>) {
    forall i, j, b :: 0 <= i < j < |spans| && Covers(spans[i], b) ==> !Covers(spans[j], b)
  }

  ghost function AsSet<D>(o: Option<D>): set<D> {
    if o.Some? then {o.value} else {}
  }

  /** The span lists mean exactly what the log says. */
  ghost predicate Denotes<D>(st: State<D>, log: seq<Access<D>>) {
    && (forall k :: Disjoint(Get(st.w, k)))
    && (forall k, b :: At(Get(st.w, k), b) == AsSet(LastWriter(log, k, b)))
    && (forall k, b :: At(Get(st.r, k), b) == ReadersSince(log, k, b))
  }

  lemma AtAppend<D>(xs: seq<Span<D>>, ys: seq<Span<D>>, b: nat)
    ensures At(xs + ys, b) == At(xs, b) + At(ys, b)
  {
    forall d | d in At(xs, b) + At(ys, b)
      ensures d in At(xs + ys, b)
    {
      if d in At(xs, b) {
        var i :| 0 <= i < |xs| && Covers(xs[i], b) && xs[i].dep == d;
        assert (xs + ys)[i] == xs[i];
      } else {
        var i :| 0 <= i < |ys| && Covers(ys[i], b) && ys[i].dep == d;
        assert (xs + ys)[|xs| + i] == ys[i];
      }
    }
  }

  lemma RemainderAt<D>(x: Span<D>, s: nat, e: nat, b: nat)
    requires s <= e
    ensures At(Remainder(x, s, e), b) == if s <= b < e then {} else At([x], b)
    ensures Disjoint(Remainder(x, s, e))
    ensures forall y :: y in Remainder(x, s, e) && Covers(y, b) ==> Covers(x, b)
  {
    var rem := Remainder(x, s, e);
    if !(s <= b < e) && Covers(x, b) {
      assert Covers(rem[0], b) || Covers(rem[|rem| - 1], b);
      assert [x][0] == x;
      assert x.dep in At([x], b);
      assert x.dep in At(rem, b);
    }
  }

  /** Trimming removes exactly the overwritten bytes and keeps every other byte as it was. */
  lemma {:induction false} TrimAt<D>(spans: seq<Span<D>>, s: nat, e: nat, b: nat)
    requires s <= e
    ensures At(Trim(spans, s, e), b) == if s <= b < e then {} else At(spans, b)
  {
    if spans != [] {
      var n := |spans| - 1;
      TrimAt(spans[..n], s, e, b);
      RemainderAt(spans[n], s, e, b);
      AtAppend(Trim(spans[..n], s, e), Remainder(spans[n], s, e), b);
      AtAppend(spans[..n], [spans[n]], b);
      assert spans == spans[..n] + [spans[n]];
    }
  }

  /** Every piece left by trimming lies inside one of the original spans. */
  lemma {:induction false} TrimInside<D>(spans: seq<Span<D>>, s: nat, e: nat, y: Span<D>, b: nat)
    requires s <= e && y in Trim(spans, s, e) && Covers(y, b)
    ensures exists i :: 0 <= i < |spans| && Covers(spans[i], b)
  {
    var n := |spans| - 1;
    if y in Remainder(spans[n], s, e) {
      RemainderAt(spans[n], s, e, b);
      assert Covers(spans[n], b);
    } else {
      TrimInside(spans[..n], s, e, y, b);
      var i :| 0 <= i < n && Covers(spans[..n][i], b);
      assert Covers(spans[i], b);
    }
  }

  lemma {:induction false} TrimDisjoint<D>(spans: seq<Span<D>>, s: nat, e: nat)
    requires s <= e && Disjoint(spans)
    ensures Disjoint(Trim(spans, s, e))
  {
    if spans != [] {
      var n := |spans| - 1;
      assert Disjoint(spans[..n]) by {
        forall i, j, b | 0 <= i < j < n && Covers(spans[..n][i], b)
          ensures !Covers(spans[..n][j], b)
        {
          assert Covers(spans[i], b);
        }
      }
      TrimDisjoint(spans[..n], s, e);
      var xs, ys := Trim(spans[..n], s, e), Remainder(spans[n], s, e);
      forall i, j, b | 0 <= i < j < |xs + ys| && Covers((xs + ys)[i], b)
        ensures !Covers((xs + ys)[j], b)
      {
        RemainderAt(spans[n], s, e, b);
        if i < |xs| <= j {
          TrimInside(spans[..n], s, e, xs[i], b);
          var m :| 0 <= m < n && Covers(spans[..n][m], b);
          assert Covers(spans[m], b) && !Covers(spans[n], b);
          assert ys[j - |xs|] in ys;
        } else if j < |xs| {
          assert Covers(xs[i], b);
        } else {
          assert Covers(ys[i - |xs|], b);
        }
      }
    }
  }

  lemma AppendDisjoint<D>(xs: seq<Span<D>>, y: Span<D>)
    requires Disjoint(xs) && forall b :: Covers(y, b) ==> At(xs, b) == {}
    ensures Disjoint(xs + [y])
  {
    forall i, j, b | 0 <= i < j < |xs| + 1 && Covers((xs + [y])[i], b)
      ensures !Covers((xs + [y])[j], b)
    {
      if j == |xs| {
        assert xs[i].dep in At(xs, b);
      }
    }
  }

  /** One buffer access keeps the span lists in agreement with the log. */
  lemma RecordDenotes<D>(st: State<D>, log: seq<Access<D>>, a: Access<D>)
    requires Denotes(st, log) && a.s <= a.e
    ensures Denotes(Record(st, a), log + [a])
  {
    var st' := Record(st, a);
    var log' := log + [a];
    assert log'[..|log|] == log;
    var mark := Span(a.s, a.e, a.dep);
    forall b: nat
      ensures At([mark], b) == if a.s <= b < a.e then {a.dep} else {}
    {
      assert [mark][0] == mark;
    }
    forall k
      ensures Disjoint(Get(st'.w, k))
    {
      if a.write && k == a.key {
        var old' := Get(st.w, k);
        TrimDisjoint(old', a.s, a.e);
        forall b: nat | Covers(mark, b) ensures At(Trim(old', a.s, a.e), b) == {} {
          TrimAt(old', a.s, a.e, b);
        }
        AppendDisjoint(Trim(old', a.s, a.e), mark);
      } else {
        assert Get(st'.w, k) == Get(st.w, k);
      }
    }
    forall k, b: nat
      ensures At(Get(st'.w, k), b) == AsSet(LastWriter(log', k, b))
      ensures At(Get(st'.r, k), b) == ReadersSince(log', k, b)
    {
      if k == a.key {
        TrimAt(Get(st.w, k), a.s, a.e, b);
        TrimAt(Get(st.r, k), a.s, a.e, b);
        AtAppend(Trim(Get(st.w, k), a.s, a.e), [mark], b);
        AtAppend(Get(st.r, k), [mark], b);
      } else {
        assert Get(st'.w, k) == Get(st.w, k);
        assert Get(st'.r, k) == Get(st.r, k);
      }
    }
  }

  // ---------------------------------------------------------------- runs

  /** All accesses of a run, oldest first. */
  function Log<D>(calls: seq<Call<D>>): seq<Access<D>> {
    if calls == [] then [] else Log(calls[..|calls| - 1]) + Accesses(calls[|calls| - 1])
  }

  /** The tracker's state after a run. */
  function Run<D>(calls: seq<Call<D>>): State<D> {
    if calls == [] then Empty() else RecordAll(Run(calls[..|calls| - 1]), Accesses(calls[|calls| - 1]))
  }

  lemma {:induction false} RecordAllDenotes<D>(st: State<D>, log: seq<Access<D>>, accs: seq<Access<D>>)
    requires Denotes(st, log) && forall a :: a in accs ==> a.s <= a.e
    ensures Denotes(RecordAll(st, accs), log + accs)
  {
    if accs == [] {
      assert log + accs == log;
    } else {
      var n := |accs| - 1;
      RecordAllDenotes(st, log, accs[..n]);
      RecordDenotes(RecordAll(st, accs[..n]), log + accs[..n], accs[n]);
      assert log + accs == log + accs[..n] + [accs[n]];
    }
  }

  lemma {:induction false} RunDenotesLog<D>(calls: seq<Call<D>>)
    ensures Denotes(Run(calls), Log(calls))
  {
    if calls != [] {
      var n := |calls| - 1;
      RunDenotesLog(calls[..n]);
      RecordAllDenotes(Run(calls[..n]), Log(calls[..n]), Accesses(calls[n]));
    }
  }

  /** The call without its last buffer. */
  function WithoutLast<D>(c: Call<D>): Call<D>
    requires c.bufs != []
  {
    Call(c.bufs[..|c.bufs| - 1], c.write, c.dep)
  }

  lemma LastBuffer<D>(c: Call<D>, k: Key, b: nat)
    requires c.bufs != []
    ensures
      var n := |c.bufs| - 1;
      var holds := Holds(c.bufs[n], k, b);
      && (CallWrites(c, k, b) <==> CallWrites(WithoutLast(c), k, b) || (holds && n in c.write))
      && (CallReadsLast(c, k, b) <==> if holds then n !in c.write else CallReadsLast(WithoutLast(c), k, b))
  {
    var n, p := |c.bufs| - 1, WithoutLast(c);
    assert forall i :: 0 <= i < n ==> p.bufs[i] == c.bufs[i];
    if CallReadsLast(p, k, b) && !Holds(c.bufs[n], k, b) {
      var i :| 0 <= i < n && i !in p.write && Holds(p.bufs[i], k, b) &&
        forall j :: i < j < n && j in p.write ==> !Holds(p.bufs[j], k, b);
      assert Holds(c.bufs[i], k, b);
      forall j | i < j < |c.bufs| && j in c.write ensures !Holds(c.bufs[j], k, b) {
        assert j < n ==> !Holds(p.bufs[j], k, b);
      }
    }
    if CallReadsLast(c, k, b) && !Holds(c.bufs[n], k, b) {
      var i :| 0 <= i < |c.bufs| && i !in c.write && Holds(c.bufs[i], k, b) &&
        forall j :: i < j < |c.bufs| && j in c.write ==> !Holds(c.bufs[j], k, b);
      assert Holds(p.bufs[i], k, b);
    }
  }

  lemma {:induction false} LogAppend<D>(log: seq<Access<D>>, c: Call<D>, k: Key, b: nat)
    ensures LastWriter(log + Accesses(c), k, b) ==
      if CallWrites(c, k, b) then Some(c.dep) else LastWriter(log, k, b)
    ensures ReadersSince(log + Accesses(c), k, b) ==
      (if CallWrites(c, k, b) then {} else ReadersSince(log, k, b)) + (if CallReadsLast(c, k, b) then {c.dep} else {})
    decreases |c.bufs|
  {
    var accs := Accesses(c);
    if c.bufs == [] {
      assert log + accs == log;
    } else {
      var n := |c.bufs| - 1;
      LogAppend(log, WithoutLast(c), k, b);
      LastBuffer(c, k, b);
      assert accs == Accesses(WithoutLast(c)) + [AccessOf(c, n)];
      assert (log + accs)[..|log + accs| - 1] == log + Accesses(WithoutLast(c));
      assert Touches(AccessOf(c, n), k, b) == Holds(c.bufs[n], k, b);
      hide CallWrites, CallReadsLast, Accesses;
    }
  }

  /** What one more call does to the writer and the readers of one byte. */
  lemma CallEffect<D>(calls: seq<Call<D>>, n: nat, k: Key, b: nat)
    requires n < |calls|
    ensures LastWriter(Log(calls[..n + 1]), k, b) ==
      if CallWrites(calls[n], k, b) then Some(calls[n].dep) else LastWriter(Log(calls[..n]), k, b)
    ensures ReadersSince(Log(calls[..n + 1]), k, b) ==
      (if CallWrites(calls[n], k, b) then {} else ReadersSince(Log(calls[..n]), k, b)) +
      (if CallReadsLast(calls[n], k, b) then {calls[n].dep} else {})
  {
    var c := calls[n];
    assert calls[..n + 1][..n] == calls[..n];
    LogAppend(Log(calls[..n]), c, k, b);
  }

  /** A call that touches a byte and does not write it leaves itself as a reader. */
  lemma TouchOnlyReads<D>(c: Call<D>, k: Key, b: nat)
    requires CallTouches(c, k, b) && !CallWrites(c, k, b)
    ensures CallReadsLast(c, k, b)
  {
    var i :| 0 <= i < |c.bufs| && Holds(c.bufs[i], k, b);
    assert i !in c.write;
  }

  /** What the last call does to the writer and the readers of one byte, in terms of the calls. */
  lemma LastCall<D>(calls: seq<Call<D>>, k: Key, b: nat, d: D)
    requires calls != []
    ensures
      var n := |calls| - 1;
      var c := calls[n];
      && (WroteLast(calls, k, b, d) <==>
        if CallWrites(c, k, b) then c.dep == d else WroteLast(calls[..n], k, b, d))
      && (ReadSince(calls, k, b, d) <==>
        (CallReadsLast(c, k, b) && c.dep == d) || (!CallWrites(c, k, b) && ReadSince(calls[..n], k, b, d)))
  {
    hide CallWrites, CallReadsLast;
    var n := |calls| - 1;
    var before := calls[..n];
    assert forall m :: 0 <= m < n ==> before[m] == calls[m];
    assert NotWrittenAfter(calls, n, k, b);
    forall m | 0 <= m < n
      ensures NotWrittenAfter(calls, m, k, b) <==> NotWrittenAfter(before, m, k, b) && !CallWrites(calls[n], k, b)
    {
      if NotWrittenAfter(calls, m, k, b) {
        assert forall l :: m < l < n ==> before[l] == calls[l];
      }
    }
  }

  /** The log says of a byte what the calls say. */
  lemma {:induction false} LogMeansCalls<D>(calls: seq<Call<D>>, k: Key, b: nat, d: D)
    ensures d in AsSet(LastWriter(Log(calls), k, b)) <==> WroteLast(calls, k, b, d)
    ensures d in ReadersSince(Log(calls), k, b) <==> ReadSince(calls, k, b, d)
  {
    if calls != [] {
      var n := |calls| - 1;
      LogMeansCalls(calls[..n], k, b, d);
      CallEffect(calls, n, k, b);
      LastCall(calls, k, b, d);
      assert calls[..n + 1] == calls;
      hide WroteLast, ReadSince, CallWrites, CallReadsLast, Log;
    }
  }

  /**
    After any run the write spans of a base are disjoint, a byte lies in a write span of d exactly if d
    wrote it last, and in a read span of d exactly if d has read it since.
   */
  lemma SpansDenoteLog<D>(calls: seq<Call<D>>, k: Key, b: nat, d: D)
    ensures Disjoint(Get(Run(calls).w, k))
    ensures d in At(Get(Run(calls).w, k), b) <==> WroteLast(calls, k, b, d)
    ensures d in At(Get(Run(calls).r, k), b) <==> ReadSince(calls, k, b, d)
  {
    RunDenotesLog(calls);
    LogMeansCalls(calls, k, b, d);
  }

  // ---------------------------------------------------------------- the returned wait list

  /** The same conflict, read off the log. */
  ghost predicate LogConflict<D>(log: seq<Access<D>>, c: Call<D>, d: D) {
    exists i, b :: 0 <= i < |c.bufs| && Hazard(log, AccessOf(c, i), b, d)
  }

  ghost predicate Hazard<D>(log: seq<Access<D>>, a: Access<D>, b: nat, d: D) {
    a.s <= b < a.e && (d in AsSet(LastWriter(log, a.key, b)) || (a.write && d in ReadersSince(log, a.key, b)))
  }

  lemma LogConflictIff<D>(calls: seq<Call<D>>, c: Call<D>, d: D)
    ensures LogConflict(Log(calls), c, d) <==> ConflictsWith(calls, c, d)
  {
    if LogConflict(Log(calls), c, d) {
      var i, b :| 0 <= i < |c.bufs| && Hazard(Log(calls), AccessOf(c, i), b, d);
      LogMeansCalls(calls, c.bufs[i].key, b, d);
      assert Holds(c.bufs[i], c.bufs[i].key, b);
      assert CallTouches(c, c.bufs[i].key, b);
    }
    if ConflictsWith(calls, c, d) {
      var k, b :|
        || (CallTouches(c, k, b) && WroteLast(calls, k, b, d))
        || (CallWrites(c, k, b) && ReadSince(calls, k, b, d));
      LogMeansCalls(calls, k, b, d);
      var i: nat;
      if CallTouches(c, k, b) && WroteLast(calls, k, b, d) {
        i :| 0 <= i < |c.bufs| && Holds(c.bufs[i], k, b);
      } else {
        i :| 0 <= i < |c.bufs| && i in c.write && Holds(c.bufs[i], k, b);
      }
      assert Hazard(Log(calls), AccessOf(c, i), b, d);
    }
  }

  lemma {:induction false} OverlappingIff<D>(spans: seq<Span<D>>, s: nat, e: nat, d: D)
    ensures d in Overlapping(spans, s, e) <==>
      exists i :: 0 <= i < |spans| && spans[i].st < e && s < spans[i].en && spans[i].dep == d
  {
    if spans != [] {
      OverlappingIff(spans[1..], s, e, d);
      if d in Overlapping(spans[1..], s, e) {
        var i :| 0 <= i < |spans| - 1 && spans[1..][i].st < e && s < spans[1..][i].en && spans[1..][i].dep == d;
        assert spans[i + 1].dep == d;
      }
      if i :| 0 < i < |spans| && spans[i].st < e && s < spans[i].en && spans[i].dep == d {
        assert spans[1..][i - 1] == spans[i];
      }
    }
  }

  lemma {:induction false} RawWaitsIff<D>(st: State<D>, accs: seq<Access<D>>, d: D)
    ensures d in RawWaits(st, accs) <==>
      exists i :: 0 <= i < |accs| && (d in Overlapping(Get(st.w, accs[i].key), accs[i].s, accs[i].e) ||
        (accs[i].write && d in Overlapping(Get(st.r, accs[i].key), accs[i].s, accs[i].e)))
  {
    if accs != [] {
      var n := |accs| - 1;
      RawWaitsIff(st, accs[..n], d);
      assert forall i :: 0 <= i < n ==> accs[..n][i] == accs[i];
    }
  }

  /** The interval test finds every span sharing a byte. */
  lemma OverlappingHasBytes<D>(spans: seq<Span<D>>, s: nat, e: nat, b: nat, d: D)
    requires s <= b < e && d in At(spans, b)
    ensures d in Overlapping(spans, s, e)
  {
    OverlappingIff(spans, s, e, d);
    var i :| 0 <= i < |spans| && Covers(spans[i], b) && spans[i].dep == d;
  }

  /** Every conflicting dependency is waited for, whatever the regions are. */
  lemma {:induction false} WaitsCoverConflicts<D>(calls: seq<Call<D>>, c: Call<D>, d: D)
    requires ConflictsWith(calls, c, d)
    ensures d in Waits(Run(calls), c)
  {
    RunDenotesLog(calls);
    LogConflictIff(calls, c, d);
    var st := Run(calls);
    var i, b :| 0 <= i < |c.bufs| && Hazard(Log(calls), AccessOf(c, i), b, d);
    var a := AccessOf(c, i);
    if d in At(Get(st.w, a.key), b) {
      OverlappingHasBytes(Get(st.w, a.key), a.s, a.e, b, d);
    } else {
      OverlappingHasBytes(Get(st.r, a.key), a.s, a.e, b, d);
    }
    assert Accesses(c)[i] == a;
    RawWaitsIff(st, Accesses(c), d);
    DedupKeepsElements(RawWaits(st, Accesses(c)));
  }

  // ---------------------------------------------------------------- empty regions

  ghost predicate RegionsNonempty<D>(c: Call<D>) {
    forall i :: 0 <= i < |c.bufs| ==> c.bufs[i].nbytes > 0
  }

  /** The call itself touches a byte beside position p, or writes one if `write` is set. */
  ghost predicate UsesBeside<D>(c: Call<D>, k: Key, p: nat, write: bool)
    requires p > 0
  {
    if write then CallWrites(c, k, p - 1) || CallWrites(c, k, p)
    else CallTouches(c, k, p - 1) || CallTouches(c, k, p)
  }

  /** Every empty region lies at offset 0 or beside a byte the call uses in the same way. */
  ghost predicate EmptiesBeside<D>(c: Call<D>) {
    forall i | 0 <= i < |c.bufs| && c.bufs[i].nbytes == 0 && c.bufs[i].offset > 0 ::
      UsesBeside(c, c.bufs[i].key, c.bufs[i].offset, i in c.write)
  }

  predicate IsEmpty<D>(x: Span<D>) { x.st >= x.en }

  lemma {:induction false} TrimNoneEmpty<D>(spans: seq<Span<D>>, s: nat, e: nat)
    ensures forall x :: x in Trim(spans, s, e) ==> !IsEmpty(x)
  {
    if spans != [] {
      TrimNoneEmpty(spans[..|spans| - 1], s, e);
    }
  }

  ghost predicate WritesKey<D>(accs: seq<Access<D>>, k: Key) {
    exists a :: a in accs && a.key == k && a.write
  }

  /** An empty region of the call, recorded as the span x. */
  ghost predicate RecordedEmpty<D>(accs: seq<Access<D>>, k: Key, x: Span<D>, write: bool) {
    exists a :: a in accs && a.key == k && a.write == write && x == Span(a.s, a.e, a.dep)
  }

  /** Any write to a base removes its empty spans, so those that are left are old and not written to, or new. */
  lemma {:induction false} EmptySpansAfter<D>(st: State<D>, accs: seq<Access<D>>, k: Key, x: Span<D>)
    requires IsEmpty(x)
    ensures
      var end := RecordAll(st, accs);
      && (x in Get(end.w, k) ==> (x in Get(st.w, k) && !WritesKey(accs, k)) || RecordedEmpty(accs, k, x, true))
      && (x in Get(end.r, k) ==> (x in Get(st.r, k) && !WritesKey(accs, k)) || RecordedEmpty(accs, k, x, false))
  {
    if accs != [] {
      var n := |accs| - 1;
      var a := accs[n];
      EmptySpansAfter(st, accs[..n], k, x);
      var mid := RecordAll(st, accs[..n]);
      TrimNoneEmpty(Get(mid.w, a.key), a.s, a.e);
      TrimNoneEmpty(Get(mid.r, a.key), a.s, a.e);
      assert forall y :: y in accs <==> y in accs[..n] || y == a;
    }
  }

  /** The dependency has written byte b last, or, if it need not have written, has read it since. */
  ghost predicate Uses<D>(log: seq<Access<D>>, k: Key, b: nat, d: D, write: bool) {
    LastWriter(log, k, b) == Some(d) || (!write && d in ReadersSince(log, k, b))
  }

  /** An empty span lies at 0 or beside a byte its dependency still uses. */
  ghost predicate Explained<D>(log: seq<Access<D>>, k: Key, x: Span<D>, write: bool) {
    IsEmpty(x) && x.st > 0 ==> Uses(log, k, x.st - 1, x.dep, write) || Uses(log, k, x.st, x.dep, write)
  }

  ghost predicate AllExplained<D>(st: State<D>, log: seq<Access<D>>) {
    && (forall k, x :: x in Get(st.w, k) ==> Explained(log, k, x, true))
    && (forall k, x :: x in Get(st.r, k) ==> Explained(log, k, x, false))
  }

  lemma UsesAfterCall<D>(calls: seq<Call<D>>, n: nat, k: Key, b: nat, write: bool)
    requires n < |calls| && if write then CallWrites(calls[n], k, b) else CallTouches(calls[n], k, b)
    ensures Uses(Log(calls[..n + 1]), k, b, calls[n].dep, write)
  {
    CallEffect(calls, n, k, b);
    if !CallWrites(calls[n], k, b) {
      TouchOnlyReads(calls[n], k, b);
    }
  }

  lemma UsesKept<D>(calls: seq<Call<D>>, n: nat, k: Key, b: nat, d: D, write: bool)
    requires n < |calls| && !WritesKey(Accesses(calls[n]), k) && Uses(Log(calls[..n]), k, b, d, write)
    ensures Uses(Log(calls[..n + 1]), k, b, d, write)
  {
    CallEffect(calls, n, k, b);
    var c := calls[n];
    forall i | 0 <= i < |c.bufs| && i in c.write ensures c.bufs[i].key != k {
      assert Accesses(c)[i] == AccessOf(c, i);
    }
  }

  lemma NewSpanExplained<D>(calls: seq<Call<D>>, n: nat, k: Key, x: Span<D>, write: bool)
    requires n < |calls| && EmptiesBeside(calls[n]) && RecordedEmpty(Accesses(calls[n]), k, x, write)
    ensures Explained(Log(calls[..n + 1]), k, x, write)
  {
    var c := calls[n];
    var a :| a in Accesses(c) && a.key == k && a.write == write && x == Span(a.s, a.e, a.dep);
    var i :| 0 <= i < |c.bufs| && AccessOf(c, i) == a;
    if IsEmpty(x) && x.st > 0 {
      var p := x.st;
      assert UsesBeside(c, k, p, write);
      if if write then CallWrites(c, k, p) else CallTouches(c, k, p) {
        UsesAfterCall(calls, n, k, p, write);
      } else {
        UsesAfterCall(calls, n, k, p - 1, write);
      }
    }
  }

  lemma OldSpanExplained<D>(calls: seq<Call<D>>, n: nat, k: Key, x: Span<D>, write: bool)
    requires n < |calls| && Explained(Log(calls[..n]), k, x, write) && !WritesKey(Accesses(calls[n]), k)
    ensures Explained(Log(calls[..n + 1]), k, x, write)
  {
    if IsEmpty(x) && x.st > 0 {
      if Uses(Log(calls[..n]), k, x.st, x.dep, write) {
        UsesKept(calls, n, k, x.st, x.dep, write);
      } else {
        UsesKept(calls, n, k, x.st - 1, x.dep, write);
      }
    }
  }

  lemma SpanExplained<D>(calls: seq<Call<D>>, n: nat, k: Key, x: Span<D>, write: bool)
    requires n < |calls| && EmptiesBeside(calls[n])
    requires IsEmpty(x) ==>
      || RecordedEmpty(Accesses(calls[n]), k, x, write)
      || (Explained(Log(calls[..n]), k, x, write) && !WritesKey(Accesses(calls[n]), k))
    ensures Explained(Log(calls[..n + 1]), k, x, write)
  {
    if IsEmpty(x) {
      if RecordedEmpty(Accesses(calls[n]), k, x, write) {
        NewSpanExplained(calls, n, k, x, write);
      } else {
        OldSpanExplained(calls, n, k, x, write);
      }
    }
  }

  lemma {:induction false} RunExplained<D>(calls: seq<Call<D>>)
    requires forall j :: 0 <= j < |calls| ==> EmptiesBeside(calls[j])
    ensures AllExplained(Run(calls), Log(calls))
  {
    if calls != [] {
      var n := |calls| - 1;
      RunExplained(calls[..n]);
      assert calls[..n + 1] == calls;
      var st, accs := Run(calls[..n]), Accesses(calls[n]);
      hide Explained, Log, RecordAll, Accesses, EmptiesBeside;
      forall k, x | x in Get(Run(calls).w, k) ensures Explained(Log(calls), k, x, true) {
        if IsEmpty(x) { EmptySpansAfter(st, accs, k, x); }
        SpanExplained(calls, n, k, x, true);
      }
      forall k, x | x in Get(Run(calls).r, k) ensures Explained(Log(calls), k, x, false) {
        if IsEmpty(x) { EmptySpansAfter(st, accs, k, x); }
        SpanExplained(calls, n, k, x, false);
      }
    }
  }

  lemma UsedByteIsHazard<D>(log: seq<Access<D>>, c: Call<D>, a: Access<D>, b: nat, d: D)
    requires if a.write then CallWrites(c, a.key, b) else CallTouches(c, a.key, b)
    requires d in AsSet(LastWriter(log, a.key, b)) || (a.write && d in ReadersSince(log, a.key, b))
    ensures LogConflict(log, c, d)
  {
    var j :| 0 <= j < |c.bufs| && Holds(c.bufs[j], a.key, b) && (a.write ==> j in c.write);
    assert Hazard(log, AccessOf(c, j), b, d);
  }

  /** One region against one span it overlaps: there is a byte on which the call conflicts with the span. */
  lemma OverlapIsConflict<D>(st: State<D>, log: seq<Access<D>>, c: Call<D>, i: nat, x: Span<D>, write: bool)
    requires Denotes(st, log) && AllExplained(st, log) && EmptiesBeside(c) && i < |c.bufs|
    requires
      var a := AccessOf(c, i);
      && x.st < a.e && a.s < x.en && (write || a.write)
      && x in Get(if write then st.w else st.r, a.key)
    ensures LogConflict(log, c, x.dep)
  {
    var a := AccessOf(c, i);
    var spans := Get(if write then st.w else st.r, a.key);
    var n :| 0 <= n < |spans| && spans[n] == x;
    if IsEmpty(x) {
      assert Explained(log, a.key, x, write);
      assert Hazard(log, a, x.st - 1, x.dep) || Hazard(log, a, x.st, x.dep);
    } else if a.s < a.e {
      var b := Greatest(a.s, x.st);
      assert Covers(x, b) && x.dep in At(spans, b);
      assert Hazard(log, a, b, x.dep);
    } else {
      assert UsesBeside(c, a.key, a.s, a.write);
      var b := if CallWrites(c, a.key, a.s) || (!a.write && CallTouches(c, a.key, a.s)) then a.s else a.s - 1;
      assert Covers(x, b) && x.dep in At(spans, b);
      UsedByteIsHazard(log, c, a, b, x.dep);
    }
  }

  lemma {:induction false} WaitIsConflict<D>(calls: seq<Call<D>>, c: Call<D>, d: D)
    requires EmptiesBeside(c) && forall j :: 0 <= j < |calls| ==> EmptiesBeside(calls[j])
    requires d in Waits(Run(calls), c)
    ensures ConflictsWith(calls, c, d)
  {
    var st, accs := Run(calls), Accesses(c);
    RunDenotesLog(calls);
    LogConflictIff(calls, c, d);
    RunExplained(calls);
    DedupKeepsElements(RawWaits(st, accs));
    RawWaitsIff(st, accs, d);
    hide Denotes, AllExplained, EmptiesBeside, ConflictsWith, LogConflict;
    var i :| 0 <= i < |accs| && (d in Overlapping(Get(st.w, accs[i].key), accs[i].s, accs[i].e) ||
      (accs[i].write && d in Overlapping(Get(st.r, accs[i].key), accs[i].s, accs[i].e)));
    var a := AccessOf(c, i);
    assert accs[i] == a;
    OverlappingIff(Get(st.w, a.key), a.s, a.e, d);
    OverlappingIff(Get(st.r, a.key), a.s, a.e, d);
    var write := d in Overlapping(Get(st.w, a.key), a.s, a.e);
    var spans := Get(if write then st.w else st.r, a.key);
    var n :| 0 <= n < |spans| && spans[n].st < a.e && a.s < spans[n].en && spans[n].dep == d;
    OverlapIsConflict(st, Log(calls), c, i, spans[n], write);
  }

  /** The wait list is the set of conflicting dependencies, each once. */
  ghost predicate ExactWaits<D(!new)>(calls: seq<Call<D>>, c: Call<D>) {
    && NoDuplicates(Waits(Run(calls), c))
    && forall d :: d in Waits(Run(calls), c) <==> ConflictsWith(calls, c, d)
  }

  /** So it is if every empty region lies beside a byte its call uses in the same way, or if there is none. */
  lemma {:induction false} WaitsAreConflicts<D(!new)>(calls: seq<Call<D>>, c: Call<D>)
    requires EmptiesBeside(c) && forall j :: 0 <= j < |calls| ==> EmptiesBeside(calls[j])
    ensures ExactWaits(calls, c)
  {
    DedupKeepsElements(RawWaits(Run(calls), Accesses(c)));
    forall d | d in Waits(Run(calls), c) ensures ConflictsWith(calls, c, d) {
      WaitIsConflict(calls, c, d);
    }
    forall d | ConflictsWith(calls, c, d) ensures d in Waits(Run(calls), c) {
      WaitsCoverConflicts(calls, c, d);
    }
  }

  lemma NonemptyIsBeside<D>(c: Call<D>)
    requires RegionsNonempty(c)
    ensures EmptiesBeside(c)
  {
  }

  /** A call of one region that spans the position p. */
  function Spanning<D>(k: Key, p: nat, write: bool, dep: D): Call<D>
    requires p > 0
  {
    Call([Region(k, p - 1, 2)], if write then [0] else [], dep)
  }

  lemma SpanningRun<D>(k: Key, p: nat, write: bool, dep: D)
    requires p > 0
    ensures
      var calls := [Spanning(k, p, write, dep)];
      var a := Access(k, p - 1, p + 1, write, dep);
      && Log(calls) == [a] && Run(calls) == Record(Empty(), a)
      && Get(if write then Run(calls).w else Run(calls).r, k) == [Span(p - 1, p + 1, dep)]
  {
    var c := Spanning(k, p, write, dep);
    var accs := Accesses(c);
    assert accs == [AccessOf(c, 0)];
    assert accs[..0] == [] && [c][..0] == [];
    assert RecordAll(Empty(), accs[..0]) == Empty();
    assert RecordAll(Empty(), accs) == Record(Empty(), accs[0]);
    assert Log([c][..0]) == [] && Log([c]) == [] + accs;
  }

  lemma SpanningLog<D>(k: Key, p: nat, write: bool, dep: D, k': Key, b: nat)
    requires p > 0
    ensures
      var log := [Access(k, p - 1, p + 1, write, dep)];
      var near := k' == k && p - 1 <= b <= p;
      && LastWriter(log, k', b) == (if near && write then Some(dep) else None)
      && ReadersSince(log, k', b) == (if near && !write then {dep} else {})
  {
    var log := [Access(k, p - 1, p + 1, write, dep)];
    assert log[..0] == [];
  }

  /** An empty region that is not beside such a byte waits for a call it shares no byte with. */
  lemma NeedlessWait<D>(c: Call<D>, i: nat, write: bool, other: D)
    requires i < |c.bufs| && c.bufs[i].nbytes == 0 && c.bufs[i].offset > 0
    requires
      var k, p := c.bufs[i].key, c.bufs[i].offset;
      if write then !CallTouches(c, k, p - 1) && !CallTouches(c, k, p)
      else i in c.write && !CallWrites(c, k, p - 1) && !CallWrites(c, k, p)
    ensures
      var calls := [Spanning(c.bufs[i].key, c.bufs[i].offset, write, other)];
      other in Waits(Run(calls), c) && !ConflictsWith(calls, c, other)
  {
    var k, p := c.bufs[i].key, c.bufs[i].offset;
    var calls := [Spanning(k, p, write, other)];
    SpanningRun(k, p, write, other);
    var st, accs, a := Run(calls), Accesses(c), AccessOf(c, i);
    var spans := Get(if write then st.w else st.r, k);
    assert accs[i] == a && spans[0] == Span(p - 1, p + 1, other);
    OverlappingIff(spans, a.s, a.e, other);
    RawWaitsIff(st, accs, other);
    DedupKeepsElements(RawWaits(st, accs));
    forall j, b | 0 <= j < |c.bufs| ensures !Hazard(Log(calls), AccessOf(c, j), b, other) {
      var x := AccessOf(c, j);
      SpanningLog(k, p, write, other, x.key, b);
      assert Holds(c.bufs[j], k, b) ==> CallTouches(c, k, b) && (x.write ==> CallWrites(c, k, b));
    }
    LogConflictIff(calls, c, other);
  }

  /** That is also necessary: after all such calls the waits of c are exact exactly if c is one itself. */
  lemma WaitsAreConflictsIff<D(!new)>(c: Call<D>)
    ensures EmptiesBeside(c) <==>
      forall calls | forall j :: 0 <= j < |calls| ==> EmptiesBeside(calls[j]) :: ExactWaits(calls, c)
  {
    if EmptiesBeside(c) {
      forall calls | forall j :: 0 <= j < |calls| ==> EmptiesBeside(calls[j]) ensures ExactWaits(calls, c) {
        WaitsAreConflicts(calls, c);
      }
    } else {
      var i :| 0 <= i < |c.bufs| && c.bufs[i].nbytes == 0 && c.bufs[i].offset > 0 &&
        !UsesBeside(c, c.bufs[i].key, c.bufs[i].offset, i in c.write);
      var k, p := c.bufs[i].key, c.bufs[i].offset;
      var write := !CallTouches(c, k, p - 1) && !CallTouches(c, k, p);
      NeedlessWait(c, i, write, c.dep);
      NonemptyIsBeside(Spanning(k, p, write, c.dep));
      assert !ExactWaits([Spanning(k, p, write, c.dep)], c);
    }
  }

  /** For example, an empty region inside a written one waits for the write. */
  lemma EmptyRegionWaitsNeedlessly()
    ensures
      var calls := [Call([Region(0, 3, 2)], [0], 7)];
      var c := Call([Region(0, 4, 0)], [], 9);
      7 in Waits(Run(calls), c) && !ConflictsWith(calls, c, 7)
  {
    var c := Call([Region(0, 4, 0)], [], 9);
    assert forall b :: !CallTouches(c, 0, b);
    NeedlessWait(c, 0, true, 7);
  }

  // ---------------------------------------------------------------- whole runs

  function CallWaits<D(==)>(calls: seq<Call<D>>, j: nat): seq<D>
    requires j < |calls|
  {
    Waits(Run(calls[..j]), calls[j])
  }

  /** Two calls share a byte that at least one of them writes: a RAW, WAR or WAW hazard. */
  ghost predicate Conflict<D>(c1: Call<D>, c2: Call<D>, k: Key, b: nat) {
    CallTouches(c1, k, b) && CallTouches(c2, k, b) && (CallWrites(c1, k, b) || CallWrites(c2, k, b))
  }

  /** A chain of returned waits, from a later call back to an earlier one. */
  ghost predicate Chain<D>(calls: seq<Call<D>>, p: seq<nat>) {
    && (forall m :: 0 <= m < |p| ==> p[m] < |calls|)
    && (forall m :: 0 < m < |p| ==> p[m] < p[m - 1] && calls[p[m]].dep in CallWaits(calls, p[m - 1]))
  }

  lemma {:induction false} NoWriteBetween<D>(calls: seq<Call<D>>, i: nat, j: nat, k: Key, b: nat)
    requires i < j <= |calls| && CallTouches(calls[i], k, b)
    requires forall m :: i < m < j ==> !CallWrites(calls[m], k, b)
    ensures CallWrites(calls[i], k, b) ==> LastWriter(Log(calls[..j]), k, b) == Some(calls[i].dep)
    ensures !CallWrites(calls[i], k, b) ==> calls[i].dep in ReadersSince(Log(calls[..j]), k, b)
    decreases j
  {
    CallEffect(calls, j - 1, k, b);
    if i == j - 1 {
      if !CallWrites(calls[i], k, b) {
        TouchOnlyReads(calls[i], k, b);
      }
    } else {
      NoWriteBetween(calls, i, j - 1, k, b);
    }
  }

  /** If nothing in between writes the shared byte, the later call waits for the earlier one directly. */
  lemma AdjacentHazardIsWaited<D>(calls: seq<Call<D>>, i: nat, j: nat, k: Key, b: nat)
    requires i < j < |calls| && Conflict(calls[i], calls[j], k, b)
    requires forall m :: i < m < j ==> !CallWrites(calls[m], k, b)
    ensures calls[i].dep in CallWaits(calls, j)
  {
    NoWriteBetween(calls, i, j, k, b);
    var c := calls[j];
    LogMeansCalls(calls[..j], k, b, calls[i].dep);
    WaitsCoverConflicts(calls[..j], c, calls[i].dep);
  }

  lemma ChainJoin<D>(calls: seq<Call<D>>, p1: seq<nat>, p2: seq<nat>) returns (p: seq<nat>)
    requires Chain(calls, p1) && Chain(calls, p2) && |p1| > 1 && |p2| > 1 && p1[|p1| - 1] == p2[0]
    ensures Chain(calls, p) && |p| > 1 && p[0] == p1[0] && p[|p| - 1] == p2[|p2| - 1]
  {
    p := p1 + p2[1..];
    var n := |p1| - 1;
    assert forall m :: 0 <= m < |p1| ==> p[m] == p1[m];
    assert forall m :: n <= m < |p| ==> p[m] == p2[m - n];
  }

  lemma AdjacentChain<D>(calls: seq<Call<D>>, i: nat, j: nat) returns (p: seq<nat>)
    requires i < j < |calls| && calls[i].dep in CallWaits(calls, j)
    ensures Chain(calls, p) && p == [j, i]
  {
    p := [j, i];
  }

  /**
    Safety over whole runs: whenever two calls conflict on a byte, the later one reaches the earlier one
    through returned waits. Trimming a list on a write never loses an ordering.
   */
  lemma {:induction false} HazardsAreOrdered<D>(calls: seq<Call<D>>, i: nat, j: nat, k: Key, b: nat)
    returns (p: seq<nat>)
    requires i < j < |calls| && Conflict(calls[i], calls[j], k, b)
    ensures Chain(calls, p) && |p| > 1 && p[0] == j && p[|p| - 1] == i
    decreases j - i
  {
    if m :| i < m < j && CallWrites(calls[m], k, b) {
      // the writer in between conflicts with both
      assert CallTouches(calls[m], k, b);
      var p1 := HazardsAreOrdered(calls, m, j, k, b);
      var p2 := HazardsAreOrdered(calls, i, m, k, b);
      p := ChainJoin(calls, p1, p2);
    } else {
      AdjacentHazardIsWaited(calls, i, j, k, b);
      p := AdjacentChain(calls, i, j);
    }
  }

  lemma RunStep<D>(calls: seq<Call<D>>, j: nat)
    requires j < |calls|
    ensures Run(calls[..j + 1]) == RecordAll(Run(calls[..j]), Accesses(calls[j]))
  {
    assert calls[..j + 1][..j] == calls[..j];
  }

  /** Feeding the calls of a graph to one tracker, as the graph runners do, yields exactly these wait lists. */
  method TrackAll<D(==)>(calls: seq<Call<D>>) returns (waits: seq<seq<D>>)
    ensures |waits| == |calls| && forall j :: 0 <= j < |calls| ==> waits[j] == CallWaits(calls, j)
  {
    var tracker := new Tracker<D>();
    waits := [];
    for j := 0 to |calls|
      invariant tracker.View() == Run(calls[..j])
      invariant |waits| == j && forall m :: 0 <= m < j ==> waits[m] == CallWaits(calls, m)
    {
      RunStep(calls, j);
      assert Call(calls[j].bufs, calls[j].write, calls[j].dep) == calls[j];
      var ws := tracker.AccessResources(calls[j].bufs, calls[j].write, calls[j].dep);
      waits := waits + [ws];
    }
  }
}
