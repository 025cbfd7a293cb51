/**
  Whole runs of buffer operations (`tinygrad/device.py`): whatever buffers and views are created, allocated and
  deallocated, in any order and with any refusals by the device, the memory counter and the handles stay right
  (`Runtime.Valid`), and the view counters do exactly as long as no base is deallocated under a counted view.
 */
module MemoryReplay {
  import opened BufferAccounting
  import opened DeviceMemory
  import opened Wrappers

  /** Buffers are named by the order of their creation. An operation the code refuses by an assertion does nothing. */
  datatype Op =
    | NewBase(size: nat, itemsize: nat, options: Option<Spec>)
    | NewView(of: nat, size: nat, itemsize: nat, offset: nat)
    | Allocate(b: nat, hasMemory: bool, externalPtr: Option<nat>)
    | Deallocate(b: nat)
    | EmptyCache

  /** The operation deallocates a base buffer that counts views. */
  predicate UnderViews(rows: Rows, bs: seq<Buffer>, op: Op) {
    && op.Deallocate? && op.b < |bs| && bs[op.b] in rows
    && HoldsMemory(rows[bs[op.b]]) && rows[bs[op.b]].views != 0
  }

  // ---------------------------------------------------------------- what each operation does to the buffers

  predicate IsView(rows: Rows, b: Buffer)
    requires b in rows
  {
    rows[b].base != null && rows[b].base in rows && rows[b].base != b
  }

  /** A base gets memory or does not; a view gets the memory of its base and is counted, or does not. */
  predicate Allocates(rows: Rows, b: Buffer, rows': Rows)
    requires b in rows
  {
    && rows'.Keys == rows.Keys
    && if rows[b].base == null then
         rows' == rows[b := rows[b].(options := rows'[b].options, entry := rows'[b].entry)]
       else
         && IsView(rows, b)
         && (var base := rows[b].base;
             var ready := rows[base := rows[base].(entry := rows'[base].entry)];
             && (rows[base].entry.Some? ==> rows'[base].entry == rows[base].entry)
             && (rows' == ready || (ready[b] == rows[b] && rows'[base].entry.Some? &&
                                    rows' == ViewChanged(ready, b, rows'[base].entry))))
  }

  predicate Deallocates(rows: Rows, b: Buffer, rows': Rows)
    requires b in rows
  {
    if rows[b].base == null then rows' == rows[b := rows[b].(entry := None)]
    else IsView(rows, b) && rows' == ViewChanged(rows, b, None)
  }

  ghost predicate Adds(rows: Rows, row: Row, rows': Rows) {
    exists b :: b in rows' && b !in rows && rows' == rows[b := row]
  }

  /** One operation, on the buffers bs that exist sooner or later. */
  ghost predicate Performs(rows: Rows, bs: seq<Buffer>, op: Op, rows': Rows) {
    match op
    case NewBase(size, itemsize, options) => Adds(rows, Row(size * itemsize, options, null, 0, None, 0), rows')
    case NewView(of, size, itemsize, offset) =>
      if of < |bs| && bs[of] in rows && offset < rows[bs[of]].nbytes then
        var base := if rows[bs[of]].base != null then rows[bs[of]].base else bs[of];
        Adds(rows, Row(size * itemsize, None, base, rows[bs[of]].offset + offset, None, 0), rows')
      else rows' == rows
    case Allocate(i, _, _) =>
      if i < |bs| && bs[i] in rows && !Initialized(rows, bs[i]) then Allocates(rows, bs[i], rows') else rows' == rows
    case Deallocate(i) =>
      if i < |bs| && bs[i] in rows && rows[bs[i]].entry.Some? then Deallocates(rows, bs[i], rows') else rows' == rows
    case EmptyCache => rows' == rows
  }

  lemma PerformsWithMore(rows: Rows, bs: seq<Buffer>, op: Op, rows': Rows, more: seq<Buffer>)
    requires Performs(rows, bs, op, rows') && bs <= more && forall b :: b in more[|bs|..] ==> b !in rows
    ensures Performs(rows, more, op, rows') && (UnderViews(rows, more, op) <==> UnderViews(rows, bs, op))
  {
    assert forall i :: |bs| <= i < |more| ==> more[i] in more[|bs|..];
    hide Adds, Allocates, Deallocates, Initialized;
  }

  // ---------------------------------------------------------------- the operations

  /** Emptying the cache leaves every handle that is in use where it is. */
  lemma OwnersKeepHandles(rows: Rows, place: Places, place': Places)
    requires HandlesOwned(rows, place) && place'.Keys == place.Keys
    requires forall h :: h in place ==>
      place'[h] == if place[h].Cached? then Released(place[h].key) else place[h]
    ensures HandlesOwned(rows, place') && Evolves(place, place')
  {
    forall h | h in place' && place'[h].Live?
      ensures exists b :: b in rows && HoldsMemory(rows[b]) && rows[b].entry == Some(h)
    {
      assert place[h].Live?;
    }
  }

  method EmptyAllocatorCache(rt: Runtime)
    requires rt.Valid()
    modifies rt.allocator
    ensures rt.Valid() && Evolves(old(rt.allocator.place), rt.allocator.place) && rt.Rows() == old(rt.Rows())
  {
    hide Consistent, HandlesOwned, Total, Structured, Evolves;
    ghost var place := rt.allocator.place;
    rt.allocator.FreeCache();
    OwnersKeepHandles(rt.Rows(), place, rt.allocator.place);
  }

  method AllocateAny(rt: Runtime, b: Buffer, hasMemory: bool, externalPtr: Option<nat>)
    requires rt.Valid() && b in rt.buffers && !b.IsInitialized()
    modifies rt`memUsed, rt.allocator, rt.buffers
    ensures rt.Valid() && Evolves(old(rt.allocator.place), rt.allocator.place)
    ensures b in old(rt.Rows()) && Allocates(old(rt.Rows()), b, rt.Rows())
    ensures old(ViewsRight(rt.Rows())) ==> ViewsRight(rt.Rows())
  {
    hide Consistent, HandlesOwned, Total, Evolves, ViewsRight, HandedOut, SameLive, External;
    ghost var rows := rt.Rows();
    assert rows[b].base == b.base;
    if b.base == null {
      var existing: Option<Handle> := None;
      if hasMemory {
        var h := new Handle();
        existing := Some(h);
      }
      var r := rt.AllocateBase(b, existing, externalPtr);
    } else {
      BaseOfView(rt.Rows(), b);
      var r := rt.AllocateView(b);
    }
  }

  method DeallocateAny(rt: Runtime, b: Buffer)
    requires rt.Valid() && b in rt.buffers && b.entry.Some?
    modifies rt`memUsed, rt.allocator, rt.buffers
    ensures rt.Valid() && Evolves(old(rt.allocator.place), rt.allocator.place)
    ensures b in old(rt.Rows()) && Deallocates(old(rt.Rows()), b, rt.Rows())
    ensures old(ViewsRight(rt.Rows())) ==> (ViewsRight(rt.Rows()) <==> b.base != null || old(b.allocatedViews) == 0)
  {
    hide Consistent, HandlesOwned, Total, Evolves, ViewsRight, HandedOut, SameLive;
    assert rt.Rows()[b].base == b.base;
    if b.base == null {
      rt.DeallocateBase(b);
    } else {
      BaseOfView(rt.Rows(), b);
      EvolvesToItself(rt.allocator.place);
      rt.DeallocateView(b);
    }
  }

  lemma BuffersAreKeys(rt: Runtime)
    ensures rt.Rows().Keys == rt.buffers
  {
  }

  /** One operation. The view counters go wrong exactly if it deallocates a base under a counted view. */
  method Perform(rt: Runtime, bs: seq<Buffer>, op: Op) returns (bs': seq<Buffer>)
    requires rt.Valid() && forall b :: b in bs ==> b in rt.buffers
    modifies rt`memUsed, rt`buffers, rt.allocator, rt.buffers
    ensures rt.Valid() && Evolves(old(rt.allocator.place), rt.allocator.place)
    ensures bs <= bs' && (forall b :: b in bs' ==> b in rt.buffers) && old(rt.buffers) <= rt.buffers
    ensures fresh(rt.buffers - old(rt.buffers)) && forall b :: b in bs'[|bs|..] ==> b !in old(rt.buffers)
    ensures Performs(old(rt.Rows()), bs, op, rt.Rows())
    ensures old(ViewsRight(rt.Rows())) ==> (ViewsRight(rt.Rows()) <==> !old(UnderViews(rt.Rows(), bs, op)))
  {
    hide Consistent, HandlesOwned, Total, Evolves, ViewsRight, Structured, Allocates, Deallocates;
    bs' := bs;
    EvolvesToItself(rt.allocator.place);
    ghost var rows := rt.Rows();
    BuffersAreKeys(rt);
    match op {
      case NewBase(size, itemsize, options) =>
        var b := rt.NewBase(size, itemsize, options);
        BuffersAreKeys(rt);
        bs' := bs + [b];
        assert b in rt.Rows() && b !in rows;
      case NewView(of, size, itemsize, offset) =>
        if of < |bs| {
          rt.RowOf(bs[of]);
          if offset < bs[of].Nbytes() {
            var v := rt.View(bs[of], size, itemsize, offset);
            BuffersAreKeys(rt);
            bs' := bs + [v];
            assert v in rt.Rows() && v !in rows;
          }
        }
      case Allocate(i, hasMemory, externalPtr) =>
        if i < |bs| {
          InitializedRow(rt, bs[i]);
          if !bs[i].IsInitialized() {
            AllocateAny(rt, bs[i], hasMemory, externalPtr);
          }
        }
      case Deallocate(i) =>
        if i < |bs| {
          rt.RowOf(bs[i]);
          if bs[i].entry.Some? {
            DeallocateAny(rt, bs[i]);
          }
        }
      case EmptyCache =>
        EmptyAllocatorCache(rt);
    }
  }

  lemma InitializedRow(rt: Runtime, b: Buffer)
    requires rt.Valid() && b in rt.buffers
    ensures b in rt.Rows() && (Initialized(rt.Rows(), b) <==> b.IsInitialized())
  {
    rt.RowOf(b);
    if b.base != null {
      BaseOfView(rt.Rows(), b);
      rt.RowOf(b.base);
    }
  }

  /** What the buffers and the handles are after each number of operations. */
  ghost predicate IsHistory(hist: seq<Rows>, places: seq<Places>, bs: seq<Buffer>, ops: seq<Op>, n: nat)
    requires n <= |ops|
  {
    && |hist| == |places| == n + 1 && hist[0] == map[]
    && forall k :: 0 <= k < n ==> Performs(hist[k], bs, ops[k], hist[k + 1]) && Evolves(places[k], places[k + 1])
  }

  ghost predicate AllRight(hist: seq<Rows>) { forall k :: 0 <= k < |hist| ==> ViewsRight(hist[k]) }

  /** None of the first n operations deallocates a base under a counted view. */
  ghost predicate KeepsClear(hist: seq<Rows>, bs: seq<Buffer>, ops: seq<Op>, n: nat)
    requires n <= |ops| && n <= |hist|
  {
    forall k :: 0 <= k < n ==> !UnderViews(hist[k], bs, ops[k])
  }

  ghost predicate Within(hist: seq<Rows>, buffers: set<Buffer>) {
    forall k :: 0 <= k < |hist| ==> hist[k].Keys <= buffers
  }

  lemma HistoryGrows(hist: seq<Rows>, places: seq<Places>, bs: seq<Buffer>, ops: seq<Op>, n: nat,
                     rows: Rows, place: Places, more: seq<Buffer>, buffers: set<Buffer>)
    requires n < |ops| && IsHistory(hist, places, bs, ops, n) && Within(hist, buffers)
    requires AllRight(hist) <==> KeepsClear(hist, bs, ops, n)
    requires bs <= more && forall b :: b in more[|bs|..] ==> b !in buffers
    requires Performs(hist[n], bs, ops[n], rows) && Evolves(places[n], place)
    requires ViewsRight(hist[n]) ==> (ViewsRight(rows) <==> !UnderViews(hist[n], bs, ops[n]))
    ensures IsHistory(hist + [rows], places + [place], more, ops, n + 1)
    ensures AllRight(hist + [rows]) <==> KeepsClear(hist + [rows], more, ops, n + 1)
  {
    var hist' := hist + [rows];
    hide Performs, UnderViews, Evolves, ViewsRight;
    forall k | 0 <= k <= n
      ensures Performs(hist'[k], more, ops[k], hist'[k + 1])
      ensures UnderViews(hist'[k], more, ops[k]) <==> UnderViews(hist[k], bs, ops[k])
    {
      assert hist'[k] == hist[k] && hist[k].Keys <= buffers;
      PerformsWithMore(hist[k], bs, ops[k], hist'[k + 1], more);
    }
    assert AllRight(hist') <==> AllRight(hist) && ViewsRight(rows) by {
      assert hist'[n + 1] == rows && forall k :: 0 <= k <= n ==> hist'[k] == hist[k];
    }
    assert AllRight(hist) ==> ViewsRight(hist[n]);
  }

  /**
    Any operations from the start. The memory counter and the handles are right in the end, so at any time. The view
    counters are right all the time exactly if no operation deallocates a base under a counted view.
   */
  method Replay(refuses: nat -> bool, lru: bool, disk: bool, maxBufferSize: nat, ops: seq<Op>)
    returns (rt: Runtime, bs: seq<Buffer>, ghost hist: seq<Rows>, ghost places: seq<Places>)
    ensures fresh(rt) && rt.Valid() && rt.disk == disk && rt.memUsed == Total(rt.Rows(), disk)
    ensures IsHistory(hist, places, bs, ops, |ops|)
    ensures hist[|ops|] == rt.Rows() && places[|ops|] == rt.allocator.place
    ensures AllRight(hist) <==> KeepsClear(hist, bs, ops, |ops|)
  {
    hide Consistent, HandlesOwned, Total, Evolves, ViewsRight, Structured, Performs, UnderViews;
    var allocator := new LruAllocator(refuses, lru);
    rt := new Runtime(allocator, disk, maxBufferSize);
    bs, hist, places := [], [rt.Rows()], [allocator.place];
    BuffersAreKeys(rt);
    for i := 0 to |ops|
      invariant rt.Valid() && rt.disk == disk && fresh(rt) && fresh(rt.allocator) && fresh(rt.buffers)
      invariant forall b :: b in bs ==> b in rt.buffers
      invariant IsHistory(hist, places, bs, ops, i) && hist[i] == rt.Rows() && places[i] == rt.allocator.place
      invariant Within(hist, rt.buffers)
      invariant AllRight(hist) <==> KeepsClear(hist, bs, ops, i)
    {
      ghost var before, buffers := bs, rt.buffers;
      bs := Perform(rt, bs, ops[i]);
      HistoryGrows(hist, places, before, ops, i, rt.Rows(), rt.allocator.place, bs, buffers);
      hist, places := hist + [rt.Rows()], places + [rt.allocator.place];
    }
  }
}
