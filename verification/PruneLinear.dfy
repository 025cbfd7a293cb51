/**
  Splitting a captured program into calls that are replayed and calls that only run once
  (`prune_linear` in `tinygrad/engine/jit.py`, with `_collect_bufs` from `tinygrad/schedule/memory.py`).

  On the first run the once-only calls are executed first and the kept ones after them. `PruneIsSound` says
  that this leaves every buffer as the captured order would; `KeptIff` says which calls are kept.
 */
module PruneLinear {

  type BufId = nat

  /** An argument of a call. */
  datatype Uop =
    Buffer(id: BufId) | MemorySemantic(src: seq<Uop>) | Select(src: seq<Uop>) | Stack(src: seq<Uop>) | Other

  function CollectBufs(u: Uop): set<BufId> {
    match u
    case Buffer(id) => {id}
    case MemorySemantic(src) => if |src| == 1 then CollectBufs(src[0]) else {}
    case Select(src) => CollectAll(src)
    case Stack(src) => CollectAll(src)
    case Other => {}
  }

  function CollectAll(us: seq<Uop>): set<BufId> {
    if us == [] then {} else CollectBufs(us[0]) + CollectAll(us[1..])
  }

  /** The argument leads to the buffer: through single-source wrappers, selections and stacks only. */
  ghost predicate Leads(u: Uop, path: seq<nat>, b: BufId)
    decreases u
  {
    if path == [] then u == Buffer(b)
    else
      && (u.MemorySemantic? || u.Select? || u.Stack?) && (u.MemorySemantic? ==> |u.src| == 1)
      && path[0] < |u.src| && Leads(u.src[path[0]], path[1..], b)
  }

  lemma {:induction false} CollectAllIff(us: seq<Uop>, b: BufId)
    ensures b in CollectAll(us) <==> exists i :: 0 <= i < |us| && b in CollectBufs(us[i])
  {
    if us != [] {
      CollectAllIff(us[1..], b);
      if b in CollectAll(us[1..]) {
        var i :| 0 <= i < |us[1..]| && b in CollectBufs(us[1..][i]);
        assert us[i + 1] == us[1..][i];
      }
    }
  }

  /** A buffer is collected from an argument exactly when some path leads to it. */
  lemma {:induction false} CollectBufsIff(u: Uop, b: BufId)
    ensures b in CollectBufs(u) <==> exists path :: Leads(u, path, b)
    decreases u, 1
  {
    match u
    case Buffer(id) =>
      if id == b {
        var path: seq<nat> := [];
        assert Leads(u, path, b);
        assert exists p :: Leads(u, p, b);
      }
    case Other =>
    case MemorySemantic(src) => SourcesIff(u, b);
    case Select(src) => SourcesIff(u, b); CollectAllIff(src, b);
    case Stack(src) => SourcesIff(u, b); CollectAllIff(src, b);
  }

  lemma SourcesIff(u: Uop, b: BufId)
    requires u.MemorySemantic? || u.Select? || u.Stack?
    ensures
      (exists path :: Leads(u, path, b)) <==>
      (u.MemorySemantic? ==> |u.src| == 1) && exists i :: 0 <= i < |u.src| && b in CollectBufs(u.src[i])
    decreases u, 0
  {
    forall i | 0 <= i < |u.src|
      ensures b in CollectBufs(u.src[i]) <==> exists path :: Leads(u.src[i], path, b)
    {
      CollectBufsIff(u.src[i], b);
    }
    if exists path :: Leads(u, path, b) {
      var path :| Leads(u, path, b);
      assert Leads(u.src[path[0]], path[1..], b);
      assert b in CollectBufs(u.src[path[0]]);
    }
    if (u.MemorySemantic? ==> |u.src| == 1) && exists i :: 0 <= i < |u.src| && b in CollectBufs(u.src[i]) {
      var i: nat :| i < |u.src| && b in CollectBufs(u.src[i]);
      var rest :| Leads(u.src[i], rest, b);
      var path := [i] + rest;
      assert path[1..] == rest;
      assert Leads(u, path, b);
      assert exists p :: Leads(u, p, b);
    }
  }

  // ---------------------------------------------------------------- calls and stores

  type Store = BufId -> int

  /** A call: its arguments and what it does to the buffers. */
  datatype Call = Call(args: seq<Uop>, effect: Store -> Store)

  function Bufs(c: Call): set<BufId> { CollectAll(c.args) }

  /** Some argument of the call leads to the buffer. */
  ghost predicate Uses(c: Call, b: BufId) {
    exists i, path :: 0 <= i < |c.args| && Leads(c.args[i], path, b)
  }

  lemma UsesIff(c: Call, b: BufId)
    ensures b in Bufs(c) <==> Uses(c, b)
  {
    CollectAllIff(c.args, b);
    forall i | 0 <= i < |c.args|
      ensures b in CollectBufs(c.args[i]) <==> exists path :: Leads(c.args[i], path, b)
    {
      CollectBufsIff(c.args[i], b);
    }
  }

  ghost predicate AgreeOnUsed(c: Call, s: Store, t: Store) { forall b :: Uses(c, b) ==> s(b) == t(b) }

  ghost predicate KeepsOthers(c: Call, s: Store) { forall b :: !Uses(c, b) ==> c.effect(s)(b) == s(b) }

  /** A call changes only its buffers, and what it writes depends only on them. */
  ghost predicate Confined(c: Call) {
    && (forall s: Store :: KeepsOthers(c, s))
    && (forall s: Store, t: Store :: AgreeOnUsed(c, s, t) ==> AgreeOnUsed(c, c.effect(s), c.effect(t)))
  }

  ghost predicate AllConfined(calls: seq<Call>) { forall c :: c in calls ==> Confined(c) }

  // ---------------------------------------------------------------- the same on the collected sets

  ghost predicate AgreeOn(s: Store, t: Store, bufs: set<BufId>) { forall b :: b in bufs ==> s(b) == t(b) }

  ghost predicate Same(s: Store, t: Store) { forall b :: s(b) == t(b) }

  ghost predicate Untouched(s: Store, t: Store, bufs: set<BufId>) { forall b :: b !in bufs ==> s(b) == t(b) }

  ghost predicate Closed(c: Call) {
    && (forall s: Store :: Untouched(s, c.effect(s), Bufs(c)))
    && (forall s: Store, t: Store :: AgreeOn(s, t, Bufs(c)) ==> AgreeOn(c.effect(s), c.effect(t), Bufs(c)))
  }

  ghost predicate AllClosed(calls: seq<Call>) { forall c :: c in calls ==> Closed(c) }

  lemma ConfinedIsClosed(c: Call)
    requires Confined(c)
    ensures Closed(c)
  {
    hide Bufs, Uses;
    forall b ensures b in Bufs(c) <==> Uses(c, b) { UsesIff(c, b); }
    forall s: Store ensures Untouched(s, c.effect(s), Bufs(c)) {
      assert KeepsOthers(c, s);
    }
    forall s: Store, t: Store | AgreeOn(s, t, Bufs(c)) ensures AgreeOn(c.effect(s), c.effect(t), Bufs(c)) {
      assert AgreeOnUsed(c, s, t);
    }
  }

  function Run(calls: seq<Call>, s: Store): Store {
    if calls == [] then s else calls[|calls| - 1].effect(Run(calls[..|calls| - 1], s))
  }

  lemma EffectRespectsSame(c: Call, s: Store, t: Store)
    requires Closed(c) && Same(s, t)
    ensures Same(c.effect(s), c.effect(t))
  {
    assert AgreeOn(s, t, Bufs(c));
    forall b
      ensures c.effect(s)(b) == c.effect(t)(b)
    {
      assert Untouched(s, c.effect(s), Bufs(c)) && Untouched(t, c.effect(t), Bufs(c));
      assert AgreeOn(c.effect(s), c.effect(t), Bufs(c));
    }
  }

  lemma {:induction false} RunRespectsSame(calls: seq<Call>, s: Store, t: Store)
    requires AllClosed(calls) && Same(s, t)
    ensures Same(Run(calls, s), Run(calls, t))
  {
    if calls != [] {
      var n := |calls| - 1;
      RunRespectsSame(calls[..n], s, t);
      EffectRespectsSame(calls[n], Run(calls[..n], s), Run(calls[..n], t));
    }
  }

  lemma {:induction false} RunConcat(a: seq<Call>, b: seq<Call>, s: Store)
    ensures Run(a + b, s) == Run(b, Run(a, s))
  {
    if b == [] {
      assert a + b == a;
    } else {
      var n := |b| - 1;
      RunConcat(a, b[..n], s);
      assert (a + b)[..|a + b| - 1] == a + b[..n];
    }
  }

  /** Calls without a common buffer commute. */
  lemma DisjointCommute(a: Call, b: Call, s: Store)
    requires Closed(a) && Closed(b) && Bufs(a) !! Bufs(b)
    ensures Same(b.effect(a.effect(s)), a.effect(b.effect(s)))
  {
    assert Untouched(s, a.effect(s), Bufs(a)) && Untouched(s, b.effect(s), Bufs(b));
    assert Untouched(a.effect(s), b.effect(a.effect(s)), Bufs(b));
    assert Untouched(b.effect(s), a.effect(b.effect(s)), Bufs(a));
    assert AgreeOn(s, a.effect(s), Bufs(b)) && AgreeOn(s, b.effect(s), Bufs(a));
    assert AgreeOn(b.effect(s), b.effect(a.effect(s)), Bufs(b));
    assert AgreeOn(a.effect(s), a.effect(b.effect(s)), Bufs(a));
    forall x
      ensures b.effect(a.effect(s))(x) == a.effect(b.effect(s))(x)
    {
      if x in Bufs(a) {
        assert x !in Bufs(b);
      }
    }
  }

  ghost predicate AllWithin(calls: seq<Call>, bufs: set<BufId>) { forall c :: c in calls ==> Bufs(c) <= bufs }

  /** A call that shares no buffer with a list of calls may run before them instead of after them. */
  lemma {:induction false} MoveToFront(c: Call, calls: seq<Call>, bufs: set<BufId>, s: Store)
    requires Closed(c) && AllClosed(calls) && AllWithin(calls, bufs) && Bufs(c) !! bufs
    ensures Same(Run(calls, c.effect(s)), c.effect(Run(calls, s)))
  {
    if calls != [] {
      var n := |calls| - 1;
      var last, before := calls[n], calls[..n];
      assert last in calls;
      MoveToFront(c, before, bufs, s);
      EffectRespectsSame(last, Run(before, c.effect(s)), c.effect(Run(before, s)));
      DisjointCommute(c, last, Run(before, s));
    }
  }

  // ---------------------------------------------------------------- prune_linear

  datatype Pruned = Pruned(kept: seq<Call>, onetime: seq<Call>, needed: set<BufId>)

  /** The lists and the set of needed buffers after the given calls. */
  function PruneOf(calls: seq<Call>, needed: set<BufId>): Pruned {
    if calls == [] then Pruned([], [], needed)
    else
      var c, p := calls[|calls| - 1], PruneOf(calls[..|calls| - 1], needed);
      if Bufs(c) !! p.needed then p.(onetime := p.onetime + [c])
      else p.(kept := p.kept + [c], needed := p.needed + Bufs(c))
  }

  method Prune(calls: seq<Call>, needed0: set<BufId>) returns (kept: seq<Call>, onetime: seq<Call>, needed: set<BufId>)
    ensures PruneOf(calls, needed0) == Pruned(kept, onetime, needed)
  {
    kept, onetime, needed := [], [], needed0;
    for i := 0 to |calls|
      invariant PruneOf(calls[..i], needed0) == Pruned(kept, onetime, needed)
    {
      var bufs := Bufs(calls[i]);
      assert calls[..i + 1][..i] == calls[..i];
      if !(bufs !! needed) {
        kept := kept + [calls[i]];
        needed := needed + bufs;
      } else {
        onetime := onetime + [calls[i]];
      }
    }
    assert calls[..|calls|] == calls;
  }

  lemma {:induction false} PruneFacts(calls: seq<Call>, needed: set<BufId>)
    requires AllClosed(calls)
    ensures
      var p := PruneOf(calls, needed);
      needed <= p.needed && AllWithin(p.kept, p.needed) && AllClosed(p.kept) && AllClosed(p.onetime)
  {
    if calls != [] {
      PruneFacts(calls[..|calls| - 1], needed);
    }
  }

  lemma {:induction false} ClosedPruneIsSound(calls: seq<Call>, needed: set<BufId>, s: Store)
    requires AllClosed(calls)
    ensures
      var p := PruneOf(calls, needed);
      Same(Run(p.kept, Run(p.onetime, s)), Run(calls, s))
  {
    if calls != [] {
      var n := |calls| - 1;
      var c, before, p := calls[n], PruneOf(calls[..n], needed), PruneOf(calls, needed);
      assert c in calls;
      ClosedPruneIsSound(calls[..n], needed, s);
      PruneFacts(calls[..n], needed);
      var mid := Run(before.onetime, s);
      EffectRespectsSame(c, Run(before.kept, mid), Run(calls[..n], s));
      if Bufs(c) !! before.needed {
        RunConcat(before.onetime, [c], s);
        RunOne(c, mid);
        MoveToFront(c, before.kept, before.needed, mid);
      } else {
        RunConcat(before.kept, [c], mid);
        RunOne(c, Run(before.kept, mid));
      }
    }
  }

  /** Running the once-only calls and then the kept ones is running the program. */
  lemma PruneIsSound(calls: seq<Call>, needed: set<BufId>, s: Store)
    requires AllConfined(calls)
    ensures
      var p := PruneOf(calls, needed);
      Same(Run(p.kept, Run(p.onetime, s)), Run(calls, s))
  {
    forall c | c in calls ensures Closed(c) {
      ConfinedIsClosed(c);
    }
    ClosedPruneIsSound(calls, needed, s);
  }

  lemma RunOne(c: Call, s: Store)
    ensures Run([c], s) == c.effect(s)
  {
    assert [c][..0] == [];
  }

  // ---------------------------------------------------------------- a partition that keeps order

  /** The calls at the given positions. */
  function Pick(calls: seq<Call>, at: seq<nat>): seq<Call>
    requires forall k :: 0 <= k < |at| ==> at[k] < |calls|
  {
    seq(|at|, k requires 0 <= k < |at| => calls[at[k]])
  }

  ghost predicate Increasing(at: seq<nat>, n: nat) {
    && (forall k :: 0 <= k < |at| ==> at[k] < n)
    && (forall j, k :: 0 <= j < k < |at| ==> at[j] < at[k])
  }

  /** Position i is kept: its call shares a buffer with the inputs or with an earlier kept call. */
  predicate IsKept(calls: seq<Call>, needed: set<BufId>, i: nat)
    requires i < |calls|
  {
    !(Bufs(calls[i]) !! PruneOf(calls[..i], needed).needed)
  }

  function Positions(calls: seq<Call>, needed: set<BufId>, kept: bool, n: nat): seq<nat>
    requires n <= |calls|
  {
    if n == 0 then []
    else Positions(calls, needed, kept, n - 1) + if IsKept(calls, needed, n - 1) == kept then [n - 1] else []
  }

  lemma {:induction false} PositionsAre(calls: seq<Call>, needed: set<BufId>, kept: bool, n: nat)
    requires n <= |calls|
    ensures
      var at := Positions(calls, needed, kept, n);
      Increasing(at, n) && forall i: nat :: i < n ==> (i in at <==> IsKept(calls, needed, i) == kept)
  {
    hide IsKept, Positions;
    if n == 0 {
      NothingPruned(calls, needed, kept);
    } else {
      PositionsAre(calls, needed, kept, n - 1);
      PositionsStep(calls, needed, kept, n - 1);
    }
  }

  lemma PickAppend(calls: seq<Call>, at: seq<nat>, i: nat)
    requires i < |calls| && forall k :: 0 <= k < |at| ==> at[k] < |calls|
    ensures Pick(calls, at + [i]) == Pick(calls, at) + [calls[i]]
  {
  }

  /** One iteration: the list that gets the call, and the one that does not. */
  lemma PruneStep(calls: seq<Call>, needed: set<BufId>, n: nat)
    requires n < |calls|
    ensures
      var before, after := PruneOf(calls[..n], needed), PruneOf(calls[..n + 1], needed);
      if IsKept(calls, needed, n) then after.kept == before.kept + [calls[n]] && after.onetime == before.onetime
      else after.kept == before.kept && after.onetime == before.onetime + [calls[n]]
  {
    assert calls[..n + 1][..n] == calls[..n];
  }

  function ListOf(p: Pruned, kept: bool): seq<Call> { if kept then p.kept else p.onetime }

  lemma {:induction false} PruneIsPick(calls: seq<Call>, needed: set<BufId>, kept: bool, n: nat)
    requires n <= |calls|
    ensures Increasing(Positions(calls, needed, kept, n), n)
    ensures ListOf(PruneOf(calls[..n], needed), kept) == Pick(calls, Positions(calls, needed, kept, n))
  {
    hide PruneOf, IsKept, Pick, Bufs, Positions, Increasing;
    PositionsAre(calls, needed, kept, n);
    if n == 0 {
      NothingPruned(calls, needed, kept);
    } else {
      PruneIsPick(calls, needed, kept, n - 1);
      PruneStep(calls, needed, n - 1);
      PositionsStep(calls, needed, kept, n - 1);
      PositionsBelow(calls, needed, kept, n - 1);
      PickAppend(calls, Positions(calls, needed, kept, n - 1), n - 1);
    }
  }

  lemma NothingPruned(calls: seq<Call>, needed: set<BufId>, kept: bool)
    ensures Positions(calls, needed, kept, 0) == [] && Pick(calls, []) == []
    ensures ListOf(PruneOf(calls[..0], needed), kept) == []
  {
  }

  lemma PositionsStep(calls: seq<Call>, needed: set<BufId>, kept: bool, n: nat)
    requires n < |calls|
    ensures
      var before := Positions(calls, needed, kept, n);
      Positions(calls, needed, kept, n + 1) == if IsKept(calls, needed, n) == kept then before + [n] else before
  {
    hide IsKept;
  }

  lemma PositionsBelow(calls: seq<Call>, needed: set<BufId>, kept: bool, n: nat)
    requires n <= |calls|
    ensures forall k :: 0 <= k < |Positions(calls, needed, kept, n)| ==> Positions(calls, needed, kept, n)[k] < |calls|
  {
    hide Positions, IsKept;
    PositionsAre(calls, needed, kept, n);
  }

  /** Both lists keep the order of the program, and every position is in exactly one of them. */
  lemma PruneIsPartition(calls: seq<Call>, needed: set<BufId>)
    ensures
      var kept, onetime := Positions(calls, needed, true, |calls|), Positions(calls, needed, false, |calls|);
      && Increasing(kept, |calls|) && Increasing(onetime, |calls|)
      && PruneOf(calls, needed).kept == Pick(calls, kept) && PruneOf(calls, needed).onetime == Pick(calls, onetime)
      && forall i: nat :: i < |calls| ==> (i in kept <==> IsKept(calls, needed, i)) && (i in onetime <==> i !in kept)
  {
    PruneIsPick(calls, needed, true, |calls|);
    PruneIsPick(calls, needed, false, |calls|);
    PositionsAre(calls, needed, true, |calls|);
    PositionsAre(calls, needed, false, |calls|);
    assert calls[..|calls|] == calls;
  }

  // ---------------------------------------------------------------- which calls are kept

  ghost predicate Shares(a: Call, c: Call) { exists b :: Uses(a, b) && Uses(c, b) }

  ghost predicate UsesOneOf(c: Call, bufs: set<BufId>) { exists b :: b in bufs && Uses(c, b) }

  /** A chain of calls in program order, each sharing a buffer with the next, that starts at the inputs. */
  ghost predicate IsChain(calls: seq<Call>, needed: set<BufId>, chain: seq<nat>) {
    && chain != [] && Increasing(chain, |calls|)
    && UsesOneOf(calls[chain[0]], needed)
    && (forall k :: 0 < k < |chain| ==> Shares(calls[chain[k - 1]], calls[chain[k]]))
  }

  ghost predicate ReachedFromInputs(calls: seq<Call>, needed: set<BufId>, i: nat) {
    exists chain :: IsChain(calls, needed, chain) && chain[|chain| - 1] == i
  }

  /** Where a needed buffer comes from. */
  lemma {:induction false} NeededSource(calls: seq<Call>, needed: set<BufId>, n: nat, b: BufId)
    requires n <= |calls|
    ensures
      b in PruneOf(calls[..n], needed).needed <==>
      b in needed || exists j: nat :: j < n && IsKept(calls, needed, j) && b in Bufs(calls[j])
  {
    if n == 0 {
    } else {
      NeededSource(calls, needed, n - 1, b);
      assert calls[..n][..n - 1] == calls[..n - 1];
      if IsKept(calls, needed, n - 1) && b in Bufs(calls[n - 1]) {
        assert b in PruneOf(calls[..n], needed).needed;
      }
    }
  }

  lemma {:induction false} KeptHasChain(calls: seq<Call>, needed: set<BufId>, i: nat) returns (chain: seq<nat>)
    requires i < |calls| && IsKept(calls, needed, i)
    ensures IsChain(calls, needed, chain) && chain[|chain| - 1] == i
    decreases i
  {
    var b :| b in Bufs(calls[i]) && b in PruneOf(calls[..i], needed).needed;
    NeededSource(calls, needed, i, b);
    hide PruneOf, Bufs, Uses;
    UsesIff(calls[i], b);
    if b in needed {
      chain := [i];
    } else {
      var j: nat :| j < i && IsKept(calls, needed, j) && b in Bufs(calls[j]);
      var shorter := KeptHasChain(calls, needed, j);
      chain := shorter + [i];
      ChainGrows(calls, needed, shorter, i, b);
    }
  }

  lemma ChainGrows(calls: seq<Call>, needed: set<BufId>, chain: seq<nat>, i: nat, b: BufId)
    requires IsChain(calls, needed, chain) && chain[|chain| - 1] < i < |calls|
    requires b in Bufs(calls[chain[|chain| - 1]]) && b in Bufs(calls[i])
    ensures IsChain(calls, needed, chain + [i])
  {
    hide Bufs, Uses;
    UsesIff(calls[chain[|chain| - 1]], b);
    UsesIff(calls[i], b);
    assert Shares(calls[chain[|chain| - 1]], calls[i]);
  }

  lemma KeptBy(calls: seq<Call>, needed: set<BufId>, i: nat, b: BufId)
    requires i < |calls| && b in Bufs(calls[i])
    requires b in needed || exists j: nat :: j < i && IsKept(calls, needed, j) && b in Bufs(calls[j])
    ensures IsKept(calls, needed, i)
  {
    NeededSource(calls, needed, i, b);
  }

  lemma {:induction false} ChainIsKept(calls: seq<Call>, needed: set<BufId>, chain: seq<nat>)
    requires IsChain(calls, needed, chain)
    ensures IsKept(calls, needed, chain[|chain| - 1])
    decreases |chain|
  {
    hide IsKept, Bufs, Uses;
    var n := |chain| - 1;
    var i := chain[n];
    if n == 0 {
      var b :| b in needed && Uses(calls[i], b);
      UsesIff(calls[i], b);
      KeptBy(calls, needed, i, b);
    } else {
      assert IsChain(calls, needed, chain[..n]);
      ChainIsKept(calls, needed, chain[..n]);
      var j := chain[n - 1];
      assert Shares(calls[j], calls[i]);
      var b :| Uses(calls[j], b) && Uses(calls[i], b);
      UsesIff(calls[j], b);
      UsesIff(calls[i], b);
      KeptBy(calls, needed, i, b);
    }
  }

  /** Exactly the calls reached from the inputs are kept. */
  lemma KeptIff(calls: seq<Call>, needed: set<BufId>, i: nat)
    requires i < |calls|
    ensures IsKept(calls, needed, i) <==> ReachedFromInputs(calls, needed, i)
  {
    if IsKept(calls, needed, i) {
      var chain := KeptHasChain(calls, needed, i);
    }
    if ReachedFromInputs(calls, needed, i) {
      var chain :| IsChain(calls, needed, chain) && chain[|chain| - 1] == i;
      ChainIsKept(calls, needed, chain);
    }
  }
}
