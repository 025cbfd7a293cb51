/**
  Buffers, views and the memory counters (`Buffer` in `tinygrad/device.py`), on one device.

  `Runtime.Valid` says that the memory counter is the total size of the allocated base buffers and that the
  handles in use are exactly theirs. `ViewsRight` says that every base counts its initialised views and that
  these hold its current memory. Every operation keeps the first. The second survives the deallocation of a base
  exactly when no view is counted; `DeallocateUnderView` shows what happens otherwise.
 */
module BufferAccounting {
  import opened DeviceMemory
  import opened Wrappers

  /** A base buffer (base == null) or a view into one. */
  class Buffer {
    const size: nat
    const itemsize: nat
    const base: Buffer?
    const offset: nat // into the base
    var options: Option<Spec>
    var entry: Option<Handle> // what _bufs holds for the buffer's own device
    var allocatedViews: int

    constructor (size: nat, itemsize: nat, options: Option<Spec>, base: Buffer?, offset: nat)
      requires if base != null then base.base == null else offset == 0
      ensures this.size == size && this.itemsize == itemsize && this.base == base && this.offset == offset
      ensures this.options == options && entry == None && allocatedViews == 0
    {
      this.size, this.itemsize, this.base, this.offset, this.options := size, itemsize, base, offset, options;
      entry, allocatedViews := None, 0;
    }

    function Nbytes(): nat { size * itemsize }

    predicate IsAllocated()
      reads this, base
    {
      if base != null then base.entry.Some? else entry.Some?
    }

    predicate IsInitialized()
      reads this, base
    {
      IsAllocated() && entry.Some?
    }

    function AsRow(): Row
      reads this
    {
      Row(Nbytes(), options, base, offset, entry, allocatedViews)
    }
  }

  // ---------------------------------------------------------------- all buffers at one moment

  /** The entry of a view is a handle of its base; nbytes and offset say which part of that memory it is. */
  datatype Row =
    Row(nbytes: nat, options: Option<Spec>, base: Buffer?, offset: nat, entry: Option<Handle>, views: int)

  type Rows = map<Buffer, Row>

  predicate HoldsMemory(r: Row) { r.base == null && r.entry.Some? }

  /** What a buffer adds to the memory counter: only allocated base buffers, not on disk and not external. */
  function Charge(r: Row, disk: bool): nat {
    if HoldsMemory(r) && !disk && (r.options == None || r.options.value.externalPtr == None) then r.nbytes else 0
  }

  ghost function Total(rows: Rows, disk: bool): nat {
    if rows == map[] then 0
    else
      var b :| b in rows;
      Charge(rows[b], disk) + Total(rows - {b}, disk)
  }

  ghost predicate Structured(rows: Rows) {
    forall v :: v in rows && rows[v].base != null ==> rows[v].base in rows && rows[rows[v].base].base == null
  }

  /** The handles in use are those of the allocated base buffers, each of one buffer and under its own key. */
  ghost predicate HandlesOwned(rows: Rows, place: Places) {
    && (forall b :: b in rows && HoldsMemory(rows[b]) ==>
          rows[b].entry.value in place && place[rows[b].entry.value] == Live(Key(rows[b].nbytes, rows[b].options)))
    && (forall b, c :: b in rows && c in rows && b != c && HoldsMemory(rows[b]) && HoldsMemory(rows[c]) ==>
          rows[b].entry != rows[c].entry)
    && (forall h :: h in place && place[h].Live? ==>
          exists b :: b in rows && HoldsMemory(rows[b]) && rows[b].entry == Some(h))
  }

  /** A view entry of an unallocated base is left over from before the base was deallocated. */
  predicate Initialized(rows: Rows, v: Buffer)
    requires v in rows
  {
    rows[v].entry.Some? && (rows[v].base == null || (rows[v].base in rows && rows[rows[v].base].entry.Some?))
  }

  ghost function InitializedViews(rows: Rows, b: Buffer): set<Buffer> {
    set v | v in rows && rows[v].base == b && Initialized(rows, v)
  }

  /** What a view holds is the memory its base has now. */
  predicate Current(rows: Rows, v: Buffer)
    requires v in rows
  {
    Initialized(rows, v) && (rows[v].base != null ==> rows[v].entry == rows[rows[v].base].entry)
  }

  /** Every base counts its initialised views, and every entry is current. */
  ghost predicate ViewsRight(rows: Rows) {
    && (forall b :: b in rows && rows[b].base == null ==> rows[b].views == |InitializedViews(rows, b)|)
    && (forall v :: v in rows && rows[v].entry.Some? ==> Current(rows, v))
  }

  // ---------------------------------------------------------------- totals

  lemma {:induction false} TotalSplit(rows: Rows, b: Buffer, disk: bool)
    requires b in rows
    ensures Total(rows, disk) == Charge(rows[b], disk) + Total(rows - {b}, disk)
    decreases |rows|
  {
    var c :| c in rows && Total(rows, disk) == Charge(rows[c], disk) + Total(rows - {c}, disk);
    if c != b {
      TotalSplit(rows - {c}, b, disk);
      TotalSplit(rows - {b}, c, disk);
      assert rows - {c} - {b} == rows - {b} - {c};
    }
  }

  /** Changing one buffer changes the total by the difference of its charges. */
  lemma TotalUpdate(rows: Rows, b: Buffer, r: Row, disk: bool)
    ensures
      Total(rows[b := r], disk) ==
      Total(rows, disk) - (if b in rows then Charge(rows[b], disk) else 0) + Charge(r, disk)
  {
    TotalSplit(rows[b := r], b, disk);
    if b in rows {
      TotalSplit(rows, b, disk);
      assert rows[b := r] - {b} == rows - {b};
    } else {
      assert rows[b := r] - {b} == rows;
    }
  }

  // ---------------------------------------------------------------- one operation on all buffers

  /** A new buffer or view has no memory and no views. */
  lemma NewBufferKeepsViews(rows: Rows, b: Buffer, r: Row)
    requires b !in rows && r.entry.None? && r.views == 0 && Structured(rows)
    requires r.base != null ==> r.base in rows && rows[r.base].base == null
    requires ViewsRight(rows)
    ensures ViewsRight(rows[b := r])
  {
    var rows' := rows[b := r];
    forall c | c in rows' && rows'[c].base == null
      ensures rows'[c].views == |InitializedViews(rows', c)|
    {
      if c == b {
        assert InitializedViews(rows', c) == {};
      } else {
        assert InitializedViews(rows', c) == InitializedViews(rows, c);
      }
    }
  }

  /** Allocating a base that has no initialised views. */
  lemma AllocatingBaseKeepsViews(rows: Rows, b: Buffer, r: Row)
    requires b in rows && rows[b].base == null && rows[b].entry.None? && ViewsRight(rows) && Structured(rows)
    requires r.base == null && r.entry.Some? && r.views == rows[b].views && r.nbytes == rows[b].nbytes
    ensures ViewsRight(rows[b := r])
  {
    var rows' := rows[b := r];
    forall c | c in rows' && rows'[c].base == null
      ensures rows'[c].views == |InitializedViews(rows', c)|
    {
      assert InitializedViews(rows', c) == InitializedViews(rows, c);
    }
  }

  function WithViews(rows: Rows, base: Buffer, views: int): Rows
    requires base in rows
  {
    rows[base := rows[base].(views := views)]
  }

  /** The rows after a view got or lost its entry and its base counted that. */
  function ViewChanged(rows: Rows, v: Buffer, entry: Option<Handle>): Rows
    requires v in rows && rows[v].base != null && rows[v].base in rows && rows[v].base != v
  {
    var base := rows[v].base;
    WithViews(rows, base, rows[base].views + (if entry.Some? then 1 else -1))[v := rows[v].(entry := entry)]
  }

  lemma ViewChangedRow(rows: Rows, v: Buffer, entry: Option<Handle>, w: Buffer)
    requires v in rows && rows[v].base != null && rows[v].base in rows && rows[v].base != v && w in rows
    ensures
      var rows' := ViewChanged(rows, v, entry);
      && rows'.Keys == rows.Keys && rows'[w].base == rows[w].base
      && rows'[w].entry == (if w == v then entry else rows[w].entry)
      && rows'[w].views == rows[w].views + (if w != rows[v].base then 0 else if entry.Some? then 1 else -1)
  {
  }

  /** Which views of a base are initialised after one view got or lost its entry. */
  lemma InitializedAfter(rows: Rows, v: Buffer, entry: Option<Handle>, c: Buffer)
    requires v in rows && rows[v].base != null && Structured(rows) && rows[rows[v].base].entry.Some?
    ensures
      InitializedViews(ViewChanged(rows, v, entry), c) ==
      if c != rows[v].base then InitializedViews(rows, c)
      else if entry.Some? then InitializedViews(rows, c) + {v} else InitializedViews(rows, c) - {v}
  {
    var rows' := ViewChanged(rows, v, entry);
    forall w | w in rows
      ensures rows'.Keys == rows.Keys && rows'[w].base == rows[w].base
      ensures rows'[w].entry == if w == v then entry else rows[w].entry
    {
      ViewChangedRow(rows, v, entry, w);
    }
    hide ViewChanged;
  }

  lemma AllocatingViewKeepsViews(rows: Rows, v: Buffer)
    requires v in rows && rows[v].base != null && Structured(rows) && ViewsRight(rows)
    requires rows[v].entry.None? && rows[rows[v].base].entry.Some?
    ensures ViewsRight(ViewChanged(rows, v, rows[rows[v].base].entry))
  {
    ViewChangeKeepsViews(rows, v, rows[rows[v].base].entry);
  }

  lemma DeallocatingViewKeepsViews(rows: Rows, v: Buffer)
    requires v in rows && rows[v].base != null && Structured(rows) && ViewsRight(rows) && rows[v].entry.Some?
    ensures ViewsRight(ViewChanged(rows, v, None))
  {
    assert Current(rows, v);
    ViewChangeKeepsViews(rows, v, None);
  }

  lemma CountAfter(rows: Rows, v: Buffer, entry: Option<Handle>, c: Buffer)
    requires v in rows && rows[v].base != null && Structured(rows) && ViewsRight(rows)
    requires rows[rows[v].base].entry.Some? && rows[v].entry.Some? != entry.Some? && c in rows && rows[c].base == null
    ensures
      var rows' := ViewChanged(rows, v, entry);
      c in rows' && rows'[c].base == null && rows'[c].views == |InitializedViews(rows', c)|
  {
    assert v in InitializedViews(rows, rows[v].base) <==> rows[v].entry.Some?;
    ViewChangedRow(rows, v, entry, c);
    InitializedAfter(rows, v, entry, c);
    hide ViewChanged, Initialized, Structured;
  }

  lemma CurrentAfter(rows: Rows, v: Buffer, entry: Option<Handle>, w: Buffer)
    requires v in rows && rows[v].base != null && Structured(rows) && ViewsRight(rows) && w in rows
    requires rows[rows[v].base].entry.Some?
    requires entry.Some? ==> entry == rows[rows[v].base].entry
    ensures
      var rows' := ViewChanged(rows, v, entry);
      w in rows' && (rows'[w].entry.Some? ==> Current(rows', w))
  {
    ViewChangedRow(rows, v, entry, w);
    if rows[w].base != null {
      ViewChangedRow(rows, v, entry, rows[w].base);
    }
    assert w == v || rows[w].entry.None? || Current(rows, w);
    hide ViewChanged, ViewsRight;
  }

  lemma ViewChangeKeepsViews(rows: Rows, v: Buffer, entry: Option<Handle>)
    requires v in rows && rows[v].base != null && Structured(rows) && ViewsRight(rows)
    requires rows[rows[v].base].entry.Some? && rows[v].entry.Some? != entry.Some?
    requires entry.Some? ==> entry == rows[rows[v].base].entry
    ensures ViewsRight(ViewChanged(rows, v, entry))
  {
    var rows' := ViewChanged(rows, v, entry);
    forall w | w in rows
      ensures w in rows' && (rows'[w].entry.Some? ==> Current(rows', w)) && rows'[w].base == rows[w].base
      ensures rows'[w].base == null ==> rows'[w].views == |InitializedViews(rows', w)|
    {
      ViewChangedRow(rows, v, entry, w);
      CurrentAfter(rows, v, entry, w);
      if rows[w].base == null {
        CountAfter(rows, v, entry, w);
      }
    }
    ViewChangedRow(rows, v, entry, v);
    hide ViewChanged, InitializedViews, Initialized, Current;
  }

  /** Deallocating a base keeps the view counters right exactly when it counted no view. */
  lemma DeallocatingBaseKeepsViewsIff(rows: Rows, b: Buffer)
    requires b in rows && HoldsMemory(rows[b]) && Structured(rows) && ViewsRight(rows)
    ensures ViewsRight(rows[b := rows[b].(entry := None)]) <==> rows[b].views == 0
  {
    var rows' := rows[b := rows[b].(entry := None)];
    forall c | c in rows && rows[c].base == null
      ensures InitializedViews(rows', c) == if c == b then {} else InitializedViews(rows, c)
    {
    }
    assert |InitializedViews(rows', b)| == 0;
    if rows[b].views == 0 {
      assert InitializedViews(rows, b) == {};
      forall v | v in rows' && rows'[v].entry.Some?
        ensures Current(rows', v)
      {
        assert Current(rows, v) && v !in InitializedViews(rows, b);
      }
    } else {
      assert rows'[b].views != |InitializedViews(rows', b)|;
    }
  }

  // ---------------------------------------------------------------- owners of handles

  /** Buffers without memory do not matter for ownership. */
  lemma OwnersUnaffected(rows: Rows, b: Buffer, r: Row, place: Places)
    requires HandlesOwned(rows, place) && !HoldsMemory(r) && (b in rows ==> !HoldsMemory(rows[b]))
    ensures HandlesOwned(rows[b := r], place)
  {
    var rows' := rows[b := r];
    forall h | h in place && place[h].Live?
      ensures exists c :: c in rows' && HoldsMemory(rows'[c]) && rows'[c].entry == Some(h)
    {
      var c: Buffer :| c in rows && HoldsMemory(rows[c]) && rows[c].entry == Some(h);
      assert c != b && rows'[c] == rows[c];
    }
  }

  /** Only the view counter of a base changes. */
  lemma OwnersIgnoreCounters(rows: Rows, b: Buffer, views: int, place: Places)
    requires b in rows && HandlesOwned(rows, place)
    ensures HandlesOwned(WithViews(rows, b, views), place)
  {
    var rows' := WithViews(rows, b, views);
    forall h | h in place && place[h].Live?
      ensures exists c :: c in rows' && HoldsMemory(rows'[c]) && rows'[c].entry == Some(h)
    {
      var c: Buffer :| c in rows && HoldsMemory(rows[c]) && rows[c].entry == Some(h);
      assert rows'[c].entry == rows[c].entry && HoldsMemory(rows'[c]);
    }
  }

  /** A base buffer that gets a handle nobody used before becomes its owner. */
  lemma NewOwner(rows: Rows, b: Buffer, r: Row, h: Handle, place: Places, place': Places)
    requires HandlesOwned(rows, place) && b in rows && rows[b].base == null && rows[b].entry.None?
    requires r.base == null && r.entry == Some(h) && HandedOut(place, place', h, Key(r.nbytes, r.options))
    ensures HandlesOwned(rows[b := r], place')
  {
    var rows' := rows[b := r];
    forall g | g in place' && place'[g].Live?
      ensures exists c :: c in rows' && HoldsMemory(rows'[c]) && rows'[c].entry == Some(g)
    {
      if g == h {
        assert HoldsMemory(rows'[b]) && rows'[b].entry == Some(g);
      } else {
        var c: Buffer :| c in rows && HoldsMemory(rows[c]) && rows[c].entry == Some(g);
        assert c != b && rows'[c] == rows[c];
      }
    }
  }

  /** The owner gives its handle up. */
  lemma OwnerLeaves(rows: Rows, b: Buffer, to: Place, place: Places)
    requires HandlesOwned(rows, place) && b in rows && HoldsMemory(rows[b]) && !to.Live?
    ensures HandlesOwned(rows[b := rows[b].(entry := None)], place[rows[b].entry.value := to])
  {
    var h := rows[b].entry.value;
    var rows', place' := rows[b := rows[b].(entry := None)], place[h := to];
    forall g | g in place' && place'[g].Live?
      ensures exists c :: c in rows' && HoldsMemory(rows'[c]) && rows'[c].entry == Some(g)
    {
      var c: Buffer :| c in rows && HoldsMemory(rows[c]) && rows[c].entry == Some(g);
      assert c != b && rows'[c] == rows[c];
    }
  }

  // ---------------------------------------------------------------- the runtime

  datatype Result = Done | TooLarge | Failed(why: Outcome)

  class Runtime {
    const allocator: LruAllocator
    const disk: bool             // the device name starts with DISK
    const maxBufferSize: nat     // 0: no limit
    var memUsed: int
    ghost var buffers: set<Buffer>

    constructor (allocator: LruAllocator, disk: bool, maxBufferSize: nat)
      requires allocator.Valid() && allocator.place == map[]
      ensures Valid() && ViewsRight(Rows()) && buffers == {} && memUsed == 0
      ensures this.allocator == allocator && this.disk == disk && this.maxBufferSize == maxBufferSize
    {
      this.allocator, this.disk, this.maxBufferSize, memUsed, buffers := allocator, disk, maxBufferSize, 0, {};
    }

    ghost function Rows(): Rows
      reads this, buffers
    {
      map b | b in buffers :: b.AsRow()
    }

    lemma RowOf(b: Buffer)
      ensures b in Rows() <==> b in buffers
      ensures b in buffers ==> Rows()[b] == b.AsRow()
    {
    }

    ghost predicate Valid()
      reads this, buffers, allocator
    {
      && allocator.Valid() && Structured(Rows()) && HandlesOwned(Rows(), allocator.place)
      && memUsed == Total(Rows(), disk)
    }

    method NewBase(size: nat, itemsize: nat, options: Option<Spec>) returns (b: Buffer)
      requires Valid()
      modifies this`buffers
      ensures Valid() && fresh(b) && Rows() == old(Rows())[b := Row(size * itemsize, options, null, 0, None, 0)]
      ensures old(ViewsRight(Rows())) ==> ViewsRight(Rows())
    {
      hide HandlesOwned, Total, Consistent, ViewsRight, Structured;
      b := new Buffer(size, itemsize, options, null, 0);
      Register(b);
    }

    /** A view of a view is a view of the base. */
    method View(of: Buffer, size: nat, itemsize: nat, offset: nat) returns (v: Buffer)
      requires Valid() && of in buffers && offset < of.Nbytes()
      modifies this`buffers
      ensures Valid() && fresh(v)
      ensures
        var base := if of.base != null then of.base else of;
        Rows() == old(Rows())[v := Row(size * itemsize, None, base, of.offset + offset, None, 0)]
      ensures old(ViewsRight(Rows())) ==> ViewsRight(Rows())
    {
      hide HandlesOwned, Total, Consistent, ViewsRight, Structured;
      ghost var row := Rows()[of];
      var base := if of.base != null then of.base else of;
      if of.base != null {
        BaseOfView(Rows(), of);
      }
      v := new Buffer(size, itemsize, None, base, of.offset + offset);
      Register(v);
    }

    ghost method Register(b: Buffer)
      requires Valid() && b !in buffers && b.entry.None? && b.allocatedViews == 0
      requires b.base != null ==> b.base in buffers && b.base.base == null
      modifies this`buffers
      ensures Valid() && buffers == old(buffers) + {b} && Rows() == old(Rows())[b := b.AsRow()]
      ensures old(ViewsRight(Rows())) ==> ViewsRight(Rows())
    {
      ghost var rows := Rows();
      buffers := buffers + {b};
      assert Rows() == rows[b := b.AsRow()];
      TotalUpdate(rows, b, b.AsRow(), disk);
      OwnersUnaffected(rows, b, b.AsRow(), allocator.place);
      assert forall c :: c in rows && rows[c].base != null ==> rows[c].base in buffers;
      if ViewsRight(rows) {
        if b.base != null { assert b.base in rows && rows[b.base].base == null; }
        NewBufferKeepsViews(rows, b, b.AsRow());
      }
    }

    /** The options after an external pointer was passed to allocate. */
    static function WithPointer(options: Option<Spec>, externalPtr: Option<nat>): (r: Option<Spec>)
      ensures externalPtr.None? ==> r == options
      ensures externalPtr.Some? ==> r.Some? && r.value.externalPtr == externalPtr
      ensures
        var others := if options.Some? then options.value.(externalPtr := None) else DEFAULT_SPEC;
        externalPtr.Some? ==> r.value.(externalPtr := None) == others
    {
      if externalPtr.None? then options
      else Some((if options.Some? then options.value else DEFAULT_SPEC).(externalPtr := externalPtr))
    }

    predicate IsTooLarge(b: Buffer)
      reads b
    {
      maxBufferSize > 0 && b.size > maxBufferSize && !External(b.options)
    }

    /** allocate of a base buffer; `existing` is memory that is there already. */
    method AllocateBase(b: Buffer, existing: Option<Handle>, externalPtr: Option<nat>) returns (r: Result)
      requires Valid() && b in buffers && b.base == null && b.entry.None?
      requires existing.Some? ==> existing.value !in allocator.place
      modifies this`memUsed, allocator, b
      ensures Valid()
      ensures r.TooLarge? <==>
        0 < maxBufferSize < b.size && (old(b.options) == None || old(b.options).value.externalPtr == None)
      ensures
        var row := old(Rows())[b];
        var options := if r.TooLarge? then row.options else WithPointer(row.options, externalPtr);
        Rows() == old(Rows())[b := row.(options := options, entry := if r.Done? then b.entry else None)]
      ensures r.Done? ==> b.entry.Some? && (existing.Some? ==> b.entry == existing)
      ensures existing.Some? && !r.TooLarge? ==> r.Done?
      ensures memUsed == old(memUsed) + Charge(b.AsRow(), disk)
      ensures externalPtr.Some? ==> memUsed == old(memUsed)
      ensures Evolves(old(allocator.place), allocator.place)
      ensures old(ViewsRight(Rows())) ==> ViewsRight(Rows())
    {
      hide Consistent, Structured, HandlesOwned, Total, ViewsRight, Evolves, HandedOut, SameLive, WithPointer;
      ghost var rows, place := Rows(), allocator.place;
      if IsTooLarge(b) {
        OneRowChanged(b);
        EvolvesToItself(place);
        return TooLarge;
      }
      b.options := WithPointer(b.options, externalPtr);
      var outcome := Acquire(b.Nbytes(), b.options, existing);
      if outcome.Got? {
        b.entry := Some(outcome.handle);
        if !disk && !External(b.options) {
          memUsed := memUsed + b.Nbytes();
        }
      }
      OneRowChanged(b);
      if outcome.Got? {
        BaseWithMemory(rows, b, b.AsRow(), place, allocator.place, disk);
        return Done;
      }
      BaseWithoutMemory(rows, b, b.AsRow(), place, allocator.place, disk);
      return Failed(outcome);
    }

    twostate lemma OneRowChanged(b: Buffer)
      requires buffers == old(buffers) && b in buffers
      requires forall c :: c in buffers && c != b ==> c.AsRow() == old(c.AsRow())
      ensures Rows() == old(Rows())[b := b.AsRow()]
    {
    }

    /** Memory for a base buffer: what is there already, or what the allocator hands out. */
    method Acquire(nbytes: nat, options: Option<Spec>, existing: Option<Handle>) returns (r: Outcome)
      requires allocator.Valid() && (existing.Some? ==> existing.value !in allocator.place)
      modifies allocator
      ensures allocator.Valid() && Evolves(old(allocator.place), allocator.place)
      ensures existing.Some? ==> r == Got(existing.value)
      ensures
        if r.Got? then HandedOut(old(allocator.place), allocator.place, r.handle, Key(nbytes, options))
        else SameLive(old(allocator.place), allocator.place)
    {
      if existing.Some? {
        allocator.Import(existing.value, nbytes, options);
        return Got(existing.value);
      }
      r := allocator.Alloc(nbytes, options);
    }

    method EnsureAllocated(b: Buffer) returns (r: Result)
      requires Valid() && b in buffers && b.base == null
      modifies this`memUsed, allocator, b
      ensures Valid() && (r.Done? <==> b.entry.Some?)
      ensures Rows() == old(Rows())[b := old(Rows())[b].(entry := b.entry)]
      ensures memUsed == old(memUsed) + (if old(b.entry).None? then Charge(b.AsRow(), disk) else 0)
      ensures Evolves(old(allocator.place), allocator.place)
      ensures old(b.entry).Some? ==> b.entry == old(b.entry) && allocator.place == old(allocator.place)
      ensures old(ViewsRight(Rows())) ==> ViewsRight(Rows())
    {
      if b.entry.Some? {
        assert Rows() == Rows()[b := b.AsRow()];
        return Done;
      }
      r := AllocateBase(b, None, None);
    }

    /** allocate of a view: the base is allocated first if it is not, and counts one more view. */
    method AllocateView(v: Buffer) returns (r: Result)
      requires Valid() && v in buffers && v.base != null && !v.IsInitialized()
      modifies this`memUsed, allocator, v, v.base
      ensures Valid() && (old(IsTooLarge(v)) ==> r.TooLarge?)
      ensures v.base in buffers && (r.Done? <==> !old(IsTooLarge(v)) && v.base.entry.Some?)
      ensures old(v.base.entry).Some? ==> v.base.entry == old(v.base.entry)
      ensures
        var before := old(Rows());
        var ready := before[v.base := before[v.base].(entry := v.base.entry)];
        if r.Done? then v.IsInitialized() && Rows() == ViewChanged(ready, v, v.base.entry) else Rows() == ready
      ensures Evolves(old(allocator.place), allocator.place)
      ensures old(ViewsRight(Rows())) ==> ViewsRight(Rows())
    {
      ghost var before := Rows();
      var base := v.base;
      assert before[v].base == base;
      BaseOfView(before, v);
      hide Consistent, HandlesOwned, Total, ViewsRight, Evolves, Structured;
      if IsTooLarge(v) {
        EvolvesToItself(allocator.place);
        assert Rows() == before[base := before[base].(entry := base.entry)];
        return TooLarge;
      }
      r := EnsureAllocated(base);
      if r.Done? {
        UninitializedView(before, v);
        EnterView(v);
      }
    }

    twostate lemma ViewAndBaseChanged(v: Buffer)
      requires buffers == old(buffers) && v in buffers && v.base in buffers && v.base != null && v.base != v
      requires forall c :: c in buffers && c != v && c != v.base ==> c.AsRow() == old(c.AsRow())
      requires v.AsRow() == old(v.AsRow()).(entry := v.entry)
      requires v.base.AsRow() == old(v.base.AsRow()).(views := v.base.allocatedViews)
      requires v.base.allocatedViews == old(v.base.allocatedViews) + (if v.entry.Some? then 1 else -1)
      ensures Rows() == ViewChanged(old(Rows()), v, v.entry)
    {
    }

    /** The view's entry and the count of its base. */
    method EnterView(v: Buffer)
      requires Valid() && v in buffers && v.base != null && v.base.entry.Some?
      modifies v, v.base
      ensures Valid() && v.base in buffers && v.base != v && Rows() == old(ViewChanged(Rows(), v, v.base.entry))
      ensures old(ViewsRight(Rows()) && v.entry.None?) ==> ViewsRight(Rows())
    {
      ghost var rows := Rows();
      var base := v.base;
      assert rows[v].base == base;
      BaseOfView(rows, v);
      hide Consistent, HandlesOwned, Total, ViewsRight, Structured;
      base.allocatedViews := base.allocatedViews + 1;
      v.entry := base.entry;
      ViewEntrySet(rows, v, base.entry, allocator.place, disk);
      ViewAndBaseChanged(v);
      AllocatedViewKeepsViews(rows, v);
    }

    /** deallocate of a base buffer. */
    method DeallocateBase(b: Buffer)
      requires Valid() && b in buffers && b.entry.Some? && b.base == null
      modifies this`memUsed, allocator, b
      ensures Valid() && Rows() == old(Rows())[b := old(b.AsRow()).(entry := None)]
      ensures memUsed == old(memUsed) - old(Charge(b.AsRow(), disk))
      ensures Evolves(old(allocator.place), allocator.place)
      ensures old(b.entry).value in allocator.place && !allocator.place[old(b.entry).value].Live?
      // the view counters stay right exactly when this base counted no view
      ensures old(ViewsRight(Rows())) ==> (ViewsRight(Rows()) <==> b.allocatedViews == 0)
    {
      ghost var rows, place := Rows(), allocator.place;
      var h := b.entry.value;
      assert rows[b] == b.AsRow();
      OwnedHandle(rows, b, place);
      hide Consistent, Structured, HandlesOwned, Total, ViewsRight, Evolves, External, Cacheable, Charge;
      Discharge(b);
      GiveBack(h, b.Nbytes(), b.options);
      b.entry := None;
      OneRowChanged(b);
      assert b.AsRow() == rows[b].(entry := None);
      assert allocator.place == place[h := allocator.place[h]];
      BaseWithoutHandle(rows, b, allocator.place[h], place, disk);
    }

    method Discharge(b: Buffer)
      requires b.base == null && b.entry.Some?
      modifies this`memUsed
      ensures memUsed == old(memUsed) - Charge(b.AsRow(), disk)
    {
      if !disk && !External(b.options) {
        memUsed := memUsed - b.Nbytes();
      }
    }

    /** The allocator takes memory back, into its cache or for the device. */
    method GiveBack(h: Handle, nbytes: nat, options: Option<Spec>)
      requires allocator.Valid() && h in allocator.place && allocator.place[h] == Live(Key(nbytes, options))
      modifies allocator
      ensures allocator.Valid() && Evolves(old(allocator.place), allocator.place) && h in allocator.place
      ensures allocator.place == old(allocator.place)[h := allocator.place[h]] && !allocator.place[h].Live?
    {
      allocator.Free(h, nbytes, options);
    }

    /** deallocate of a view. */
    method DeallocateView(v: Buffer)
      requires Valid() && v in buffers && v.entry.Some? && v.base != null
      modifies v, v.base
      ensures Valid() && v.base in buffers && v.base != v && Rows() == old(ViewChanged(Rows(), v, None))
      ensures old(ViewsRight(Rows())) ==> ViewsRight(Rows())
    {
      ghost var rows := Rows();
      var base := v.base;
      assert rows[v].base == base;
      BaseOfView(rows, v);
      hide Consistent, HandlesOwned, Total, ViewsRight, Structured;
      base.allocatedViews := base.allocatedViews - 1;
      v.entry := None;
      ViewEntrySet(rows, v, None, allocator.place, disk);
      ViewAndBaseChanged(v);
      DeallocatedViewKeepsViews(rows, v);
    }
  }

  lemma BaseOfView(rows: Rows, v: Buffer)
    requires Structured(rows) && v in rows && rows[v].base != null
    ensures rows[v].base in rows && rows[rows[v].base].base == null && rows[v].base != v
  {
  }

  lemma EvolvesToItself(place: Places)
    ensures Evolves(place, place)
  {
  }

  lemma OwnedHandle(rows: Rows, b: Buffer, place: Places)
    requires HandlesOwned(rows, place) && b in rows && HoldsMemory(rows[b])
    ensures rows[b].entry.value in place && place[rows[b].entry.value] == Live(Key(rows[b].nbytes, rows[b].options))
  {
  }

  /** With right counters a view that is not initialised has no entry. */
  lemma UninitializedView(rows: Rows, v: Buffer)
    requires v in rows && !Initialized(rows, v)
    ensures ViewsRight(rows) ==> rows[v].entry.None?
  {
  }

  lemma AllocatedViewKeepsViews(rows: Rows, v: Buffer)
    requires v in rows && rows[v].base != null && Structured(rows) && rows[rows[v].base].entry.Some?
    ensures
      ViewsRight(rows) && rows[v].entry.None? ==> ViewsRight(ViewChanged(rows, v, rows[rows[v].base].entry))
  {
    if ViewsRight(rows) && rows[v].entry.None? {
      AllocatingViewKeepsViews(rows, v);
    }
  }

  lemma DeallocatedViewKeepsViews(rows: Rows, v: Buffer)
    requires v in rows && rows[v].base != null && Structured(rows) && rows[v].entry.Some?
    ensures ViewsRight(rows) ==> ViewsRight(ViewChanged(rows, v, None))
  {
    if ViewsRight(rows) {
      DeallocatingViewKeepsViews(rows, v);
    }
  }

  /** Everything that holds after a base buffer got a handle. */
  lemma BaseWithMemory(rows: Rows, b: Buffer, r: Row, place: Places, place': Places, disk: bool)
    requires b in rows && rows[b].base == null && rows[b].entry.None? && HandlesOwned(rows, place) && Structured(rows)
    requires r.base == null && r.entry.Some? && r.views == rows[b].views && r.nbytes == rows[b].nbytes
    requires HandedOut(place, place', r.entry.value, Key(r.nbytes, r.options))
    ensures HandlesOwned(rows[b := r], place') && Structured(rows[b := r])
    ensures Total(rows[b := r], disk) == Total(rows, disk) + Charge(r, disk)
    ensures ViewsRight(rows) ==> ViewsRight(rows[b := r])
  {
    TotalUpdate(rows, b, r, disk);
    NewOwner(rows, b, r, r.entry.value, place, place');
    if ViewsRight(rows) {
      AllocatingBaseKeepsViews(rows, b, r);
    }
  }

  /** Everything that holds after a base buffer gave its handle up. */
  lemma BaseWithoutHandle(rows: Rows, b: Buffer, to: Place, place: Places, disk: bool)
    requires b in rows && HoldsMemory(rows[b]) && HandlesOwned(rows, place) && Structured(rows) && !to.Live?
    ensures
      var rows' := rows[b := rows[b].(entry := None)];
      && HandlesOwned(rows', place[rows[b].entry.value := to]) && Structured(rows')
      && Total(rows', disk) == Total(rows, disk) - Charge(rows[b], disk)
      && (ViewsRight(rows) ==> (ViewsRight(rows') <==> rows[b].views == 0))
  {
    TotalUpdate(rows, b, rows[b].(entry := None), disk);
    OwnerLeaves(rows, b, to, place);
    if ViewsRight(rows) {
      DeallocatingBaseKeepsViewsIff(rows, b);
    }
  }

  /** A refused allocation of a base buffer changes nothing but, possibly, its options and the cache. */
  lemma BaseWithoutMemory(rows: Rows, b: Buffer, r: Row, place: Places, place': Places, disk: bool)
    requires b in rows && rows[b].base == null && rows[b].entry.None? && HandlesOwned(rows, place) && Structured(rows)
    requires r == rows[b].(options := r.options)
    requires SameLive(place, place')
    ensures HandlesOwned(rows[b := r], place') && Structured(rows[b := r]) &&
      Total(rows[b := r], disk) == Total(rows, disk)
    ensures ViewsRight(rows) ==> ViewsRight(rows[b := r])
  {
    TotalUpdate(rows, b, r, disk);
    OwnersUnaffected(rows, b, r, place);
    var rows' := rows[b := r];
    if ViewsRight(rows) {
      forall c | c in rows' && rows'[c].base == null
        ensures rows'[c].views == |InitializedViews(rows', c)|
      {
        assert InitializedViews(rows', c) == InitializedViews(rows, c);
      }
    }
  }

  /** Entries of views and view counters affect neither the totals nor the owners. */
  lemma ViewEntrySet(rows: Rows, v: Buffer, entry: Option<Handle>, place: Places, disk: bool)
    requires v in rows && rows[v].base != null && Structured(rows) && HandlesOwned(rows, place)
    ensures
      var rows' := ViewChanged(rows, v, entry);
      Structured(rows') && HandlesOwned(rows', place) && Total(rows', disk) == Total(rows, disk)
  {
    hide HandlesOwned, Total;
    var base := rows[v].base;
    var views := rows[base].views + (if entry.Some? then 1 else -1);
    var mid := WithViews(rows, base, views);
    assert mid[v] == rows[v];
    TotalUpdate(rows, base, rows[base].(views := views), disk);
    OwnersIgnoreCounters(rows, base, views, place);
    TotalUpdate(mid, v, rows[v].(entry := entry), disk);
    OwnersUnaffected(mid, v, rows[v].(entry := entry), place);
  }

  // ---------------------------------------------------------------- a base deallocated under its view

  /** Allocating a base again makes its leftover views initialised, with the memory they had before. */
  lemma AllocatingBaseKeepsViewsIff(rows: Rows, b: Buffer, r: Row)
    requires b in rows && rows[b].base == null && rows[b].entry.None? && Structured(rows)
    requires r.base == null && r.entry.Some? && r.views == rows[b].views
    requires forall c :: c in rows && rows[c].base == null && c != b ==> rows[c].views == |InitializedViews(rows, c)|
    requires forall v :: v in rows && rows[v].entry.Some? && rows[v].base != b ==> Current(rows, v)
    ensures ViewsRight(rows[b := r]) <==>
      var leftover := set v | v in rows && rows[v].base == b && rows[v].entry.Some?;
      |leftover| == r.views && forall v :: v in leftover ==> rows[v].entry == r.entry
  {
    var rows' := rows[b := r];
    var leftover := set v | v in rows && rows[v].base == b && rows[v].entry.Some?;
    assert InitializedViews(rows', b) == leftover;
    forall c | c in rows && rows[c].base == null && c != b
      ensures InitializedViews(rows', c) == InitializedViews(rows, c)
    {
    }
    forall v | v in rows && rows[v].entry.Some?
      ensures Current(rows', v) <==> v !in leftover || rows[v].entry == r.entry
    {
    }
    if ViewsRight(rows') {
      forall v | v in leftover ensures rows[v].entry == r.entry {
        assert Current(rows', v);
      }
    }
  }

  /** A base buffer and a view of it, both allocated. */
  method BaseWithView(rt: Runtime) returns (b: Buffer, v: Buffer)
    requires rt.Valid() && ViewsRight(rt.Rows()) && rt.maxBufferSize == 0
    modifies rt`memUsed, rt`buffers, rt.allocator
    ensures rt.Valid() && ViewsRight(rt.Rows()) && fresh(b) && fresh(v) && b != v
    ensures b in rt.buffers && v in rt.buffers && b.base == null && v.base == b
    ensures b.entry.Some? && v.entry == b.entry && b.allocatedViews == 1
  {
    hide HandlesOwned, Total, Structured, ViewsRight, Evolves, Consistent, HandedOut, External, Cacheable, Charge;
    b := rt.NewBase(1, 4, None);
    rt.RowOf(b);
    var h := new Handle();
    var r := rt.AllocateBase(b, Some(h), None);
    v := rt.View(b, 1, 4, 0);
    rt.RowOf(b);
    rt.RowOf(v);
    r := rt.AllocateView(v);
    rt.RowOf(b);
    rt.RowOf(v);
  }

  /**
    The base is deallocated and allocated again. In between it counts a view although none is initialised;
    afterwards the view is initialised, with memory that its base no longer has.
   */
  method DeallocateUnderView(rt: Runtime, b: Buffer, v: Buffer) returns (ghost between: Rows)
    requires rt.Valid() && rt.maxBufferSize == 0 && b in rt.buffers && v in rt.buffers && b != v
    requires b.base == null && v.base == b && b.entry.Some? && v.entry == b.entry && b.allocatedViews == 1
    modifies rt`memUsed, rt.allocator, b
    ensures rt.Valid() && b in between && between[b].views == 1 && InitializedViews(between, b) == {}
    ensures v.IsInitialized() && v.entry == old(v.entry) && b.entry.Some? && b.entry != v.entry
    ensures !ViewsRight(rt.Rows())
  {
    hide HandlesOwned, Total, Structured, ViewsRight, Evolves, Consistent, HandedOut, External, Cacheable, Charge;
    rt.RowOf(b);
    rt.DeallocateBase(b);
    between := rt.Rows();
    rt.RowOf(b);
    var h := new Handle();
    var r := rt.AllocateBase(b, Some(h), None);
    rt.RowOf(b);
    rt.RowOf(v);
    NotCurrent(rt.Rows(), v);
  }

  lemma NotCurrent(rows: Rows, v: Buffer)
    requires v in rows && rows[v].entry.Some? && !Current(rows, v)
    ensures !ViewsRight(rows)
  {
  }
}
