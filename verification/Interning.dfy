/** Symbol interning by many threads: `WritePermit::get_sym_or_insert` and `SharedMapping`, as atomic
    steps.

    Any number of threads look up; those that also insert each own one of the permit slots. A guard is
    held exactly while its owner is in one of the states between taking and dropping it, so the locks
    are read off the program counters. */
module Interning {
  import opened Wrappers
  import opened Slabs

  const SYMBOLS_PER_SLOT: nat := 0x100_0000_0000   // 2^40

  type Sym = nat

  const MAX_WRITER_THREADS: nat := 128

  // The permit slot in a symbol: its third byte.
  function SlotOf(sym: Sym): nat {
    sym / SYMBOLS_PER_SLOT % 256
  }

  datatype Ptr = Ptr(slab: nat, off: nat)

  // An eager write: where it went, and the header to restore when it turns out to be wasted.
  datatype Eager = Eager(ptr: Ptr, saved: SlabState)

  datatype Permit = Permit(start: Option<nat>, last: Option<nat>, nextSymbol: Sym)

  datatype Pc =
    | Idle
    // `get_sym`, alone or as the first part of `get_sym_or_insert`
    | Called(b: Bytes, insert: bool)
    | Reading(b: Bytes, insert: bool)                              // read guard of the bucket held
    | Missed(b: Bytes)
    // the insertion
    | Prepared(b: Bytes, slab: Option<nat>, eager: Option<Eager>)
    | Checking(b: Bytes, slab: Option<nat>, eager: Option<Eager>)  // write guard of the bucket held from here
    | Holding(b: Bytes, slab: Option<nat>, eager: Option<Eager>)
    | Backed(b: Bytes, slab: Option<nat>, ptr: Ptr)
    | Numbered(b: Bytes, slab: Option<nat>, ptr: Ptr, sym: Sym)
    | BytesHeld(b: Bytes, slab: Option<nat>, ptr: Ptr, sym: Sym)   // write guard of the slot's map held
    | BytesIn(b: Bytes, slab: Option<nat>, sym: Sym)               // the bucket's guard still held
    | Cleaning(b: Bytes, slab: Option<nat>, eager: Option<Eager>, sym: Sym)
    | Advanced(b: Bytes, eager: Option<Eager>, sym: Sym)
    // `get_bytes`
    | GotSym(sym: Sym)
    | WantBytes(sym: Sym)
    | ReadingBytes(sym: Sym)                                       // read guard of the slot's map held
    | Panicked(sym: Sym)

  datatype Answer =
    | SymOf(text: Bytes, sym: Sym)
    | NoSym(text: Bytes)
    | BytesOf(sym: Sym, found: Option<Bytes>)

  datatype State = State(
    pc: map<nat, Pc>,
    permits: map<nat, Permit>,
    toSymbol: map<Bytes, Sym>,
    toBytes: map<Sym, Ptr>,
    mem: map<nat, SlabState>,
    answers: seq<Answer>,
    names: map<Sym, Bytes>)      // the string each symbol was made for; not in the source

  // The threads, those that own the permit slot of their number, and the hash that picks a bucket.
  datatype Config = Config(threads: set<nat>, owners: set<nat>, bucket: Bytes -> nat) {
    predicate Valid() {
      owners <= threads && forall t | t in owners :: t < MAX_WRITER_THREADS
    }
  }

  /* ---- Locks ---- */

  predicate WritesBucket(p: Pc) {
    p.Checking? || p.Holding? || p.Backed? || p.Numbered? || p.BytesHeld? || p.BytesIn?
  }

  ghost predicate BucketHasWriter(c: Config, s: State, k: nat) {
    exists t | t in s.pc :: WritesBucket(s.pc[t]) && c.bucket(s.pc[t].b) == k
  }

  ghost predicate BucketHasReader(c: Config, s: State, k: nat) {
    exists t | t in s.pc :: s.pc[t].Reading? && c.bucket(s.pc[t].b) == k
  }

  // Only the owner of a slot writes its symbol-to-bytes map.
  ghost predicate SlotHasWriter(s: State, slot: nat) {
    slot in s.pc && s.pc[slot].BytesHeld?
  }

  ghost predicate SlotHasReader(s: State, slot: nat) {
    exists t | t in s.pc :: s.pc[t].ReadingBytes? && SlotOf(s.pc[t].sym) == slot
  }

  /* ---- Memory ---- */

  function End(p: Ptr, b: Bytes): nat {
    p.off + |Record(b)|
  }

  function ReadPtr(mem: map<nat, SlabState>, p: Ptr): Option<Bytes> {
    if p.slab in mem then ReadAt(mem[p.slab].data, p.off) else None
  }

  /* ---- Steps ---- */

  // Thread `t` moves to `p`; everything else is given.
  function Goto(s: State, t: nat, p: Pc): State {
    s.(pc := s.pc[t := p])
  }

  function Answered(s: State, t: nat, a: Answer): State {
    s.(pc := s.pc[t := Idle], answers := s.answers + [a])
  }

  ghost predicate Call(s: State, s': State, t: nat)
    requires t in s.pc
  {
    && s.pc[t] == Idle
    && ((exists b, insert | Registrable(b) && (insert ==> t in s.permits) :: s' == Goto(s, t, Called(b, insert)))
        || (exists y :: s' == Goto(s, t, GotSym(y))))
  }

  ghost predicate AcquireRead(c: Config, s: State, s': State, t: nat)
    requires t in s.pc
  {
    s.pc[t].Called? && !BucketHasWriter(c, s, c.bucket(s.pc[t].b)) && s' == Goto(s, t, Reading(s.pc[t].b, s.pc[t].insert))
  }

  ghost predicate ReadBucket(s: State, s': State, t: nat)
    requires t in s.pc
  {
    && s.pc[t].Reading?
    && var b := s.pc[t].b;
       s' == if b in s.toSymbol then Answered(s, t, SymOf(b, s.toSymbol[b]))
             else if s.pc[t].insert then Goto(s, t, Missed(b))
             else Answered(s, t, NoSym(b))
  }

  // Write eagerly when there is a slab with room; keep its header for the rollback.
  ghost predicate WriteEagerly(s: State, s': State, t: nat)
    requires t in s.pc
  {
    && s.pc[t].Missed? && t in s.permits
    && var b, permit := s.pc[t].b, s.permits[t];
       if permit.start.Some? && permit.last.Some? && permit.last.value in s.mem && HasRoom(s.mem[permit.last.value], b) then
         RecordFits(b);
         var id := permit.last.value;
         var slab := s.mem[id];
         s' == Goto(s, t, Prepared(b, permit.last, Some(Eager(Ptr(id, slab.writePos), slab)))).(mem := s.mem[id := WriteIn(slab, b)])
       else
         s' == Goto(s, t, Prepared(b, permit.last, None))
  }

  ghost predicate AcquireBucket(c: Config, s: State, s': State, t: nat)
    requires t in s.pc
  {
    && s.pc[t].Prepared?
    && !BucketHasWriter(c, s, c.bucket(s.pc[t].b)) && !BucketHasReader(c, s, c.bucket(s.pc[t].b))
    && s' == Goto(s, t, Checking(s.pc[t].b, s.pc[t].slab, s.pc[t].eager))
  }

  // Look once more: another thread may have been first.
  ghost predicate Recheck(s: State, s': State, t: nat)
    requires t in s.pc
  {
    && s.pc[t].Checking?
    && var p := s.pc[t];
       s' == if p.b in s.toSymbol then Goto(s, t, Cleaning(p.b, p.slab, p.eager, s.toSymbol[p.b]))
             else Goto(s, t, Holding(p.b, p.slab, p.eager))
  }

  // The eager write pays off.
  ghost predicate UseEager(s: State, s': State, t: nat)
    requires t in s.pc
  {
    && s.pc[t].Holding? && s.pc[t].eager.Some?
    && s' == Goto(s, t, Backed(s.pc[t].b, s.pc[t].slab, s.pc[t].eager.value.ptr))
  }

  // No slab yet: allocate the first one and write into it.
  ghost predicate WriteFirst(s: State, s': State, t: nat, id: nat)
    requires t in s.pc
  {
    && s.pc[t].Holding? && s.pc[t].eager.None? && s.pc[t].slab.None? && t in s.permits && id !in s.mem
    && var b := s.pc[t].b;
       RecordFits(b);
       s' == Goto(s, t, Backed(b, Some(id), Ptr(id, 0))).(
         permits := s.permits[t := s.permits[t].(start := Some(id), last := Some(id))],
         mem := s.mem[id := WriteIn(NewSlab(t, |b| + U64_BYTES), b)])
  }

  // `register_bytes` under the lock: in the last slab, or in a new one linked behind it.
  ghost predicate WriteLate(s: State, s': State, t: nat, id: nat)
    requires t in s.pc
  {
    && s.pc[t].Holding? && s.pc[t].eager.None? && s.pc[t].slab.Some? && s.pc[t].slab.value in s.mem
    && var b, last := s.pc[t].b, s.pc[t].slab.value;
       var slab := s.mem[last];
       RecordFits(b);
       if HasRoom(slab, b) then
         s' == Goto(s, t, Backed(b, Some(last), Ptr(last, slab.writePos))).(mem := s.mem[last := WriteIn(slab, b)])
       else
         && id !in s.mem
         && s' == Goto(s, t, Backed(b, Some(last), Ptr(id, 0))).(
              mem := s.mem[last := slab.(next := Some(id))][id := WriteIn(NewSlab(t, |b| + U64_BYTES), b)])
  }

  // `fetch_add`; there are fewer than 2^40 symbols in a slot.
  ghost predicate TakeNumber(s: State, s': State, t: nat)
    requires t in s.pc
  {
    && s.pc[t].Backed? && t in s.permits
    && var p, permit := s.pc[t], s.permits[t];
       && SlotOf(permit.nextSymbol + 1) == t
       && s' == Goto(s, t, Numbered(p.b, p.slab, p.ptr, permit.nextSymbol)).(
            permits := s.permits[t := permit.(nextSymbol := permit.nextSymbol + 1)])
  }

  ghost predicate AcquireBytes(s: State, s': State, t: nat)
    requires t in s.pc
  {
    && s.pc[t].Numbered? && !SlotHasReader(s, t)
    && s' == Goto(s, t, BytesHeld(s.pc[t].b, s.pc[t].slab, s.pc[t].ptr, s.pc[t].sym))
  }

  ghost predicate InsertBytes(s: State, s': State, t: nat)
    requires t in s.pc
  {
    && s.pc[t].BytesHeld?
    && var p := s.pc[t];
       s' == Goto(s, t, BytesIn(p.b, p.slab, p.sym)).(toBytes := s.toBytes[p.sym := p.ptr], names := s.names[p.sym := p.b])
  }

  ghost predicate InsertSymbol(s: State, s': State, t: nat)
    requires t in s.pc
  {
    && s.pc[t].BytesIn?
    && var p := s.pc[t];
       s' == Goto(s, t, Cleaning(p.b, p.slab, None, p.sym)).(toSymbol := s.toSymbol[p.b := p.sym])
  }

  // Move the permit on to a slab that was linked meanwhile.
  ghost predicate AdvanceLast(s: State, s': State, t: nat)
    requires t in s.pc
  {
    && s.pc[t].Cleaning? && t in s.permits
    && var p := s.pc[t];
       var moved := Goto(s, t, Advanced(p.b, p.eager, p.sym));
       s' == if p.slab.Some? && p.slab.value in s.mem && s.mem[p.slab.value].next.Some?
             then moved.(permits := s.permits[t := s.permits[t].(last := s.mem[p.slab.value].next)])
             else moved
  }

  // Restore the header of a wasted eager write: the bytes stay, the position goes back.
  function Restored(mem: map<nat, SlabState>, e: Eager): map<nat, SlabState> {
    if e.ptr.slab in mem
    then mem[e.ptr.slab := mem[e.ptr.slab].(next := e.saved.next, writePos := e.saved.writePos)]
    else mem
  }

  ghost predicate Finish(s: State, s': State, t: nat)
    requires t in s.pc
  {
    && s.pc[t].Advanced?
    && var p := s.pc[t];
       s' == Answered(s, t, SymOf(p.b, p.sym)).(mem := if p.eager.Some? then Restored(s.mem, p.eager.value) else s.mem)
  }

  // The guard of `get_bytes`: a third byte above 128 is turned down, 128 itself is not, and indexes
  // past the end of the 128 maps.
  ghost predicate GuardSlot(s: State, s': State, t: nat)
    requires t in s.pc
  {
    && s.pc[t].GotSym?
    && var y := s.pc[t].sym;
       s' == if SlotOf(y) > MAX_WRITER_THREADS then Answered(s, t, BytesOf(y, None))
             else if SlotOf(y) == MAX_WRITER_THREADS then Goto(s, t, Panicked(y))
             else Goto(s, t, WantBytes(y))
  }

  ghost predicate AcquireReadBytes(s: State, s': State, t: nat)
    requires t in s.pc
  {
    s.pc[t].WantBytes? && !SlotHasWriter(s, SlotOf(s.pc[t].sym)) && s' == Goto(s, t, ReadingBytes(s.pc[t].sym))
  }

  function GetBytes(s: State, sym: Sym): Option<Bytes> {
    if sym in s.toBytes then ReadPtr(s.mem, s.toBytes[sym]) else None
  }

  ghost predicate ReadBytes(s: State, s': State, t: nat)
    requires t in s.pc
  {
    s.pc[t].ReadingBytes? && s' == Answered(s, t, BytesOf(s.pc[t].sym, GetBytes(s, s.pc[t].sym)))
  }

  ghost predicate Moves(c: Config, s: State, s': State, t: nat)
    requires t in s.pc
  {
    || AcquireRead(c, s, s', t)
    || ReadBucket(s, s', t)
    || WriteEagerly(s, s', t)
    || AcquireBucket(c, s, s', t)
    || Recheck(s, s', t)
    || UseEager(s, s', t)
    || (exists id :: WriteFirst(s, s', t, id))
    || (exists id :: WriteLate(s, s', t, id))
    || TakeNumber(s, s', t)
    || AcquireBytes(s, s', t)
    || InsertBytes(s, s', t)
    || InsertSymbol(s, s', t)
    || AdvanceLast(s, s', t)
    || Finish(s, s', t)
    || GuardSlot(s, s', t)
    || AcquireReadBytes(s, s', t)
    || ReadBytes(s, s', t)
  }

  ghost predicate Next(c: Config, s: State, s': State) {
    exists t | t in s.pc :: Call(s, s', t) || Moves(c, s, s', t)
  }

  // `ThreadPermission::init`: slot 0 starts at symbol 1.
  ghost predicate Init(c: Config, s: State) {
    && s.pc == (map t | t in c.threads :: Idle)
    && s.permits == (map t | t in c.owners :: Permit(None, None, if t == 0 then 1 else t * SYMBOLS_PER_SLOT))
    && s.toSymbol == map[] && s.toBytes == map[] && s.mem == map[] && s.answers == [] && s.names == map[]
  }
}
