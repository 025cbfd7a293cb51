/**
  The allocation trace (`tinygrad/device.py`): a preallocated ring of records, slots of which are reused, that
  must look like the end of an unbounded log.

  `Trace` keeps the ring in step with a ghost log; `Dump` lists exactly the last entries of the log. `Replay` ties
  the dump after any sequence of events to the log of these events, which the lemmas are about.
 */
module AllocTrace {
  import opened IndexMath
  import opened Wrappers

  // ---------------------------------------------------------------- the log

  datatype Event =
    | Alloc(device: string, va: int, mappedSize: int, reqSize: int, ts: nat)
    | Free(id: int, ts: nat)
    | Dispatch

  /** A reading of the shared clock, and the wall-clock time that was given with the event. */
  datatype Stamp = Stamp(seqNo: nat, ts: nat)

  datatype Entry =
    Entry(device: string, va: int, mappedSize: int, reqSize: int, alloc: Stamp, free: Option<Stamp>)

  /** All allocations so far, the clock that allocations, frees and dispatches share, and the dispatch counter. */
  datatype Log = Log(entries: seq<Entry>, clock: nat, dispatches: nat)

  function Apply(l: Log, e: Event): Log {
    match e
    case Alloc(device, va, mapped, req, ts) =>
      Log(l.entries + [Entry(device, va, mapped, req, Stamp(l.clock, ts), None)], l.clock + 1, l.dispatches)
    case Free(id, ts) =>
      if id < 0 then l
      else
        var entries :=
          if id < |l.entries| then l.entries[id := l.entries[id].(free := Some(Stamp(l.clock, ts)))] else l.entries;
        Log(entries, l.clock + 1, l.dispatches)
    case Dispatch => Log(l.entries, l.clock + 1, l.dispatches + 1)
  }

  function LogOf(events: seq<Event>): Log {
    if events == [] then Log([], 0, 0) else Apply(LogOf(events[..|events| - 1]), events[|events| - 1])
  }

  // ---------------------------------------------------------------- what every log satisfies

  ghost predicate Ordered(l: Log) {
    && (forall i :: 0 <= i < |l.entries| ==> l.entries[i].alloc.seqNo < l.clock)
    && (forall i, j :: 0 <= i < j < |l.entries| ==> l.entries[i].alloc.seqNo < l.entries[j].alloc.seqNo)
    && (forall i :: 0 <= i < |l.entries| && l.entries[i].free.Some? ==>
          l.entries[i].alloc.seqNo < l.entries[i].free.value.seqNo < l.clock)
  }

  /** Allocations are in clock order and every free comes after its allocation. */
  lemma {:induction false} LogIsOrdered(events: seq<Event>)
    ensures Ordered(LogOf(events))
  {
    if events != [] {
      LogIsOrdered(events[..|events| - 1]);
    }
  }

  /** How many allocations there were. */
  function Allocs(events: seq<Event>): nat {
    if events == [] then 0 else Allocs(events[..|events| - 1]) + if events[|events| - 1].Alloc? then 1 else 0
  }

  /** How many events moved the clock: all but frees of allocations that were never recorded. */
  function Ticks(events: seq<Event>): nat {
    if events == [] then 0
    else
      var e := events[|events| - 1];
      Ticks(events[..|events| - 1]) + if e.Free? && e.id < 0 then 0 else 1
  }

  lemma {:induction false} LogCounts(events: seq<Event>)
    ensures |LogOf(events).entries| == Allocs(events) && LogOf(events).clock == Ticks(events)
  {
    if events != [] {
      LogCounts(events[..|events| - 1]);
    }
  }

  /** The entry of an allocation says what its event said, and when it came. */
  lemma {:induction false} EntryOfAllocation(events: seq<Event>, j: nat)
    requires j < |events| && events[j].Alloc?
    ensures
      var e, k := events[j], Allocs(events[..j]);
      && k < |LogOf(events).entries|
      && var entry := LogOf(events).entries[k];
         && entry.device == e.device && entry.va == e.va && entry.mappedSize == e.mappedSize
         && entry.reqSize == e.reqSize && entry.alloc == Stamp(Ticks(events[..j]), e.ts)
  {
    var n := |events| - 1;
    LogCounts(events[..n]);
    if j < n {
      EntryOfAllocation(events[..n], j);
      assert events[..n][..j] == events[..j];
    }
  }

  /** Event number j frees allocation number id: it names it, and it was already allocated. */
  predicate Frees(events: seq<Event>, j: nat, id: nat) {
    j < |events| && events[j].Free? && events[j].id == id && id < |LogOf(events[..j]).entries|
  }

  lemma {:induction false} LogGrows(events: seq<Event>, j: nat)
    requires j <= |events|
    ensures |LogOf(events[..j]).entries| <= |LogOf(events).entries|
  {
    if j == |events| {
      assert events[..j] == events;
    } else {
      var n := |events| - 1;
      LogGrows(events[..n], j);
      assert events[..n][..j] == events[..j];
    }
  }

  /** An allocation shows a free exactly when one of the events after it freed it. */
  lemma {:induction false} FreedIff(events: seq<Event>, id: nat)
    requires id < |LogOf(events).entries|
    ensures LogOf(events).entries[id].free.Some? <==> exists j :: Frees(events, j, id)
  {
    var n := |events| - 1;
    var before, last := LogOf(events[..n]), events[n];
    forall j: nat | j < n
      ensures Frees(events, j, id) <==> Frees(events[..n], j, id)
    {
      assert events[..n][..j] == events[..j];
    }
    if id < |before.entries| {
      FreedIff(events[..n], id);
      if last.Free? && last.id == id {
        assert Frees(events, n, id);
      } else {
        assert LogOf(events).entries[id].free == before.entries[id].free;
        assert !Frees(events, n, id);
      }
    } else {
      assert id == |before.entries| && LogOf(events).entries[id].free == None;
      forall j: nat | j <= n
        ensures !Frees(events, j, id)
      {
        LogGrows(events[..n], j);
        assert events[..n][..j] == events[..j];
      }
    }
  }

  /** Event j is the last one to free allocation id. */
  ghost predicate FreesLast(events: seq<Event>, j: nat, id: nat) {
    Frees(events, j, id) && forall m: nat :: j < m ==> !Frees(events, m, id)
  }

  /** The free shown is the clock reading and the time stamp of the last event that freed the allocation. */
  lemma {:induction false} FreedWhen(events: seq<Event>, id: nat) returns (j: nat)
    requires id < |LogOf(events).entries| && LogOf(events).entries[id].free.Some?
    ensures FreesLast(events, j, id)
    ensures LogOf(events).entries[id].free.value == Stamp(LogOf(events[..j]).clock, events[j].ts)
  {
    var n := |events| - 1;
    if events[n].Free? && events[n].id == id {
      j := n;
    } else {
      j := FreedWhen(events[..n], id);
      assert events[..n][..j] == events[..j];
      forall m: nat | j < m
        ensures !Frees(events, m, id)
      {
        assert m < n ==> events[..n][..m] == events[..m] && !Frees(events[..n], m, id);
      }
    }
  }

  // ---------------------------------------------------------------- the ring

  /** One slot; the two numbers of a free are -1 while the allocation is not freed. */
  datatype Rec = Rec(allocId: int, deviceId: nat, vaStart: int, vaEnd: int, reqSize: int, mappedSize: int,
                     allocSeq: int, freeSeq: int, allocTs: int, freeTs: int)

  const BLANK := Rec(0, 0, 0, 0, 0, 0, 0, 0, 0, 0)

  datatype DumpLine = DumpLine(allocId: nat, device: string, vaStart: int, vaEnd: int, reqSize: int, mappedSize: int,
                               allocSeq: int, freeSeq: Option<int>, allocTs: int, freeTs: Option<int>)

  function LineOf(id: nat, e: Entry): DumpLine {
    DumpLine(id, e.device, e.va, e.va + e.mappedSize, e.reqSize, e.mappedSize,
             e.alloc.seqNo, if e.free.Some? then Some(e.free.value.seqNo) else None,
             e.alloc.ts, if e.free.Some? then Some(e.free.value.ts) else None)
  }

  /** How a slot says "not yet". */
  function Given(x: int): Option<int> { if x < 0 then None else Some(x) }

  /** The last min(n, capacity) allocations of the log, in order. */
  function LastLines(l: Log, capacity: nat): seq<DumpLine> {
    var n := |l.entries|;
    var first := n - Least(n, capacity);
    seq(n - first, k requires 0 <= k < n - first => LineOf(first + k, l.entries[first + k]))
  }

  /** The slot of an allocation that is still in the ring. */
  predicate Shows(r: Rec, id: nat, e: Entry, names: seq<string>) {
    && r.allocId == id && r.deviceId < |names| && names[r.deviceId] == e.device
    && r.vaStart == e.va && r.vaEnd == e.va + e.mappedSize && r.reqSize == e.reqSize && r.mappedSize == e.mappedSize
    && r.allocSeq == e.alloc.seqNo && r.freeSeq == (if e.free.Some? then e.free.value.seqNo else -1)
    && r.allocTs == e.alloc.ts && r.freeTs == (if e.free.Some? then e.free.value.ts else -1)
  }

  /** Each of the last allocations has its line in the dump, with the fields of its event. */
  lemma DumpedAllocation(events: seq<Event>, j: nat, capacity: nat)
    requires j < |events| && events[j].Alloc? && Allocs(events) - Allocs(events[..j]) <= capacity
    ensures
      var lines, k := LastLines(LogOf(events), capacity), Allocs(events[..j]);
      var at := k - (Allocs(events) - |lines|);
      && 0 <= at < |lines|
      && var e, x := events[j], lines[at];
         && x.allocId == k && x.device == e.device && x.vaStart == e.va && x.vaEnd == e.va + e.mappedSize
         && x.reqSize == e.reqSize && x.mappedSize == e.mappedSize
         && x.allocSeq == Ticks(events[..j]) && x.allocTs == e.ts
  {
    LogCounts(events);
    EntryOfAllocation(events, j);
    var l, k := LogOf(events), Allocs(events[..j]);
    var at := k - (Allocs(events) - |LastLines(l, capacity)|);
    assert LastLines(l, capacity)[at] == LineOf(k, l.entries[k]);
    hide LogOf, Allocs, Ticks;
  }

  /** Two allocations that are both in the ring have different slots. */
  lemma SlotsDiffer(i: nat, j: nat, capacity: nat)
    requires capacity > 0 && i < j < i + capacity
    ensures i % capacity != j % capacity
  {
    SameSlotFarApart(i, j, capacity);
  }

  lemma SameSlotFarApart(i: nat, j: nat, capacity: nat)
    requires capacity > 0 && i < j
    ensures i % capacity == j % capacity ==> j >= i + capacity
  {
    var rounds := j / capacity - i / capacity;
    DivModOf(i, capacity);
    DivModOf(j, capacity);
    assert capacity * rounds == capacity * (j / capacity) - capacity * (i / capacity);
    MulMono(capacity, rounds, 0);
    MulMono(capacity, 1, rounds);
  }

  class Trace {
    const ring: array<Rec>
    var allocCount: nat
    var dispatchCount: nat
    var clock: nat
    var deviceIds: map<string, nat>
    var deviceNames: seq<string>
    ghost var log: Log

    constructor (capacity: nat)
      requires capacity > 0
      ensures Valid() && log == LogOf([]) && ring.Length == capacity && fresh(ring)
    {
      ring := new Rec[capacity](_ => BLANK);
      allocCount, dispatchCount, clock, deviceIds, deviceNames := 0, 0, 0, map[], [];
      log := Log([], 0, 0);
    }

    ghost predicate InRing(id: int)
      reads this, ring
    {
      0 <= id < |log.entries| && |log.entries| - id <= ring.Length
    }

    ghost predicate SlotShows(id: int)
      requires 0 <= id < |log.entries| && ring.Length > 0
      reads this, ring
    {
      Shows(ring[id % ring.Length], id, log.entries[id], deviceNames)
    }

    ghost predicate Valid()
      reads this, ring
    {
      && ring.Length > 0 && allocCount == |log.entries| && dispatchCount == log.dispatches && clock == log.clock
      && NamesOk()
      && (forall id :: InRing(id) ==> SlotShows(id))
    }

    method IdFor(name: string) returns (i: nat)
      requires NamesOk()
      modifies this`deviceIds, this`deviceNames
      ensures NamesOk() && i < |deviceNames| && deviceNames[i] == name && old(deviceNames) <= deviceNames
    {
      if name in deviceIds {
        return deviceIds[name];
      }
      i := |deviceNames|;
      deviceIds, deviceNames := deviceIds[name := i], deviceNames + [name];
    }

    ghost predicate NamesOk()
      reads this`deviceIds, this`deviceNames
    {
      forall d :: d in deviceIds ==> deviceIds[d] < |deviceNames| && deviceNames[deviceIds[d]] == d
    }

    method RecordAlloc(device: string, va: int, mappedSize: int, reqSize: int, ts: nat) returns (id: nat)
      requires Valid()
      modifies this, ring
      ensures Valid() && log == Apply(old(log), Alloc(device, va, mappedSize, reqSize, ts)) && id == |old(log).entries|
    {
      id := allocCount;
      var seqNo := clock;
      allocCount, clock := allocCount + 1, clock + 1;
      var deviceId := IdFor(device);
      ring[id % ring.Length] := Rec(id, deviceId, va, va + mappedSize, reqSize, mappedSize, seqNo, -1, ts, -1);
      log := Apply(log, Alloc(device, va, mappedSize, reqSize, ts));
      forall k | InRing(k)
        ensures SlotShows(k)
      {
        if k < id {
          SlotsDiffer(k, id, ring.Length);
          assert old(InRing(k) && SlotShows(k));
        }
      }
    }

    method RecordFree(id: int, ts: nat)
      requires Valid()
      modifies this, ring
      ensures Valid() && log == Apply(old(log), Free(id, ts))
    {
      if id < 0 {
        return;
      }
      if allocCount - id <= ring.Length {
        var slot := id % ring.Length;
        if ring[slot].allocId == id {
          ring[slot] := ring[slot].(freeSeq := clock, freeTs := ts);
        }
      }
      clock := clock + 1;
      log := Apply(log, Free(id, ts));
      forall k | InRing(k)
        ensures SlotShows(k)
      {
        assert old(InRing(k) && SlotShows(k));
        if k < id {
          if id < k + ring.Length {
            SlotsDiffer(k, id, ring.Length);
          }
        } else if id < k && allocCount - id <= ring.Length {
          SlotsDiffer(id, k, ring.Length);
        }
      }
    }

    method RecordDispatch()
      requires Valid()
      modifies this
      ensures Valid() && log == Apply(old(log), Dispatch)
    {
      dispatchCount, clock := dispatchCount + 1, clock + 1;
      log := Apply(log, Dispatch);
      assert forall k :: InRing(k) ==> old(InRing(k) && SlotShows(k));
    }

    /** The allocation part of the dump. */
    method Dump() returns (lines: seq<DumpLine>)
      requires Valid()
      ensures lines == LastLines(log, ring.Length)
    {
      var n := Least(allocCount, ring.Length);
      var first := allocCount - n;
      lines := [];
      for id := first to allocCount
        invariant lines == LastLines(log, ring.Length)[..id - first]
      {
        assert LastLines(log, ring.Length)[id - first] == LineOf(id, log.entries[id]);
        var r := ring[id % ring.Length];
        assert InRing(id) && SlotShows(id);
        if r.allocId != id {
          continue;
        }
        lines := lines + [DumpLine(r.allocId, deviceNames[r.deviceId], r.vaStart, r.vaEnd, r.reqSize, r.mappedSize,
                                   r.allocSeq, Given(r.freeSeq), r.allocTs, Given(r.freeTs))];
      }
    }
  }

  /** Whatever is recorded, the dump is the end of the log of what was recorded. */
  method Replay(capacity: nat, events: seq<Event>) returns (lines: seq<DumpLine>)
    requires capacity > 0
    ensures lines == LastLines(LogOf(events), capacity)
  {
    var t := new Trace(capacity);
    for i := 0 to |events|
      invariant t.Valid() && t.log == LogOf(events[..i]) && t.ring.Length == capacity && fresh(t) && fresh(t.ring)
    {
      assert events[..i + 1][..i] == events[..i];
      match events[i] {
        case Alloc(device, va, mappedSize, reqSize, ts) =>
          var id := t.RecordAlloc(device, va, mappedSize, reqSize, ts);
        case Free(id, ts) => t.RecordFree(id, ts);
        case Dispatch => t.RecordDispatch();
      }
    }
    assert events[..|events|] == events;
    lines := t.Dump();
  }
}
