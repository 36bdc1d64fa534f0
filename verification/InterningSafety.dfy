/** What every interleaving of interning calls keeps. */
module InterningSafety {
  import opened Wrappers
  import opened Slabs
  import opened Interning

  /* ---- Memory ---- */

  // The region a thread has written and not yet published.
  function Claim(p: Pc): Option<(Ptr, Bytes)> {
    if p.Prepared? || p.Checking? || p.Holding? || p.Cleaning? || p.Advanced? then
      if p.eager.Some? then Some((p.eager.value.ptr, p.b)) else None
    else if p.Backed? || p.Numbered? || p.BytesHeld? then Some((p.ptr, p.b))
    else None
  }

  function EagerOf(p: Pc): Option<Eager> {
    if p.Prepared? || p.Checking? || p.Holding? || p.Cleaning? || p.Advanced? then p.eager else None
  }

  function SlabOf(p: Pc): Option<nat> {
    if p.Prepared? || p.Checking? || p.Holding? || p.Backed? || p.Numbered? || p.BytesHeld? || p.BytesIn? || p.Cleaning?
    then p.slab else None
  }

  ghost predicate Owns(mem: map<nat, SlabState>, t: nat, id: nat) {
    id in mem && mem[id].owner == t
  }

  ghost predicate SlabsOk(mem: map<nat, SlabState>) {
    forall id | id in mem ::
      && mem[id].writePos <= |mem[id].data|
      && (mem[id].next.Some? ==> Owns(mem, mem[id].owner, mem[id].next.value))
  }

  // `b` stands at `p`, in a slab of `t`, before the write position.
  ghost predicate Stands(mem: map<nat, SlabState>, t: nat, p: Ptr, b: Bytes) {
    && Owns(mem, t, p.slab)
    && Backs(mem[p.slab].data, p.off, b)
    && End(p, b) <= mem[p.slab].writePos
  }

  ghost predicate Published(s: State, sym: Sym)
    requires sym in s.toBytes
  {
    sym in s.names && Stands(s.mem, SlotOf(sym), s.toBytes[sym], s.names[sym])
  }

  predicate Apart(p: Ptr, b: Bytes, q: Ptr, d: Bytes) {
    p.slab == q.slab ==> End(p, b) <= q.off || End(q, d) <= p.off
  }

  ghost predicate Disjoint(s: State)
    requires forall y | y in s.toBytes :: y in s.names
  {
    forall x, y | x in s.toBytes && y in s.toBytes && x != y :: Apart(s.toBytes[x], s.names[x], s.toBytes[y], s.names[y])
  }

  // The claim of a thread is the last thing in its slab, and an eager write can be undone faithfully.
  ghost predicate ThreadMem(mem: map<nat, SlabState>, permit: Permit, t: nat, p: Pc) {
    && (permit.start.Some? <==> permit.last.Some?)
    && (permit.last.Some? ==> Owns(mem, t, permit.last.value))
    && (SlabOf(p).Some? ==> permit.last.Some? && Owns(mem, t, SlabOf(p).value))
    && (p.Prepared? || p.Checking? || p.Holding? ==> p.slab == permit.last)
    && (Claim(p).Some? ==>
          var (q, b) := Claim(p).value; Stands(mem, t, q, b) && mem[q.slab].writePos == End(q, b))
    && (EagerOf(p).Some? ==>
          var e := EagerOf(p).value; Owns(mem, t, e.ptr.slab) && e.saved.writePos == e.ptr.off && e.saved.next == mem[e.ptr.slab].next)
  }

  // A thread without a permit owns nothing.
  function PermitOf(s: State, t: nat): Permit {
    if t in s.permits then s.permits[t] else Permit(None, None, 0)
  }

  ghost predicate Behind(s: State, sym: Sym, p: Pc)
    requires sym in s.toBytes && sym in s.names
  {
    Claim(p).Some? ==>
      var q := Claim(p).value.0; s.toBytes[sym].slab == q.slab ==> End(s.toBytes[sym], s.names[sym]) <= q.off
  }

  ghost predicate MemInv(s: State) {
    && SlabsOk(s.mem)
    && (forall sym | sym in s.toBytes :: Published(s, sym))
    && Disjoint(s)
    && (forall t | t in s.pc :: ThreadMem(s.mem, PermitOf(s, t), t, s.pc[t]))
    && (forall t, sym | t in s.pc && sym in s.toBytes :: Behind(s, sym, s.pc[t]))
  }

  // A step of `t` leaves the slabs of the others alone.
  ghost predicate OwnStep(mem: map<nat, SlabState>, mem': map<nat, SlabState>, t: nat) {
    forall id | id in mem :: id in mem' && mem'[id].owner == mem[id].owner && (mem[id].owner == t || mem'[id] == mem[id])
  }

  // A step of `t` that publishes nothing.
  lemma MemStep(s: State, s': State, t: nat, p: Pc)
    requires MemInv(s) && t in s.pc && s'.pc == s.pc[t := p]
    requires OwnStep(s.mem, s'.mem, t) && SlabsOk(s'.mem)
    requires s'.toBytes == s.toBytes && s'.names == s.names
    requires s'.permits.Keys == s.permits.Keys && forall u | u in s.permits && u != t :: s'.permits[u] == s.permits[u]
    requires ThreadMem(s'.mem, PermitOf(s', t), t, p)
    requires forall sym | sym in s.toBytes && s.toBytes[sym].slab in s.mem && s.mem[s.toBytes[sym].slab].owner == t ::
               Published(s', sym) && Behind(s, sym, p)
    ensures MemInv(s')
  {
    hide Backs, End, Apart, Record;
    forall sym | sym in s'.toBytes ensures Published(s', sym) {
      assert Published(s, sym);
    }
    forall u | u in s'.pc ensures ThreadMem(s'.mem, PermitOf(s', u), u, s'.pc[u]) {
      if u != t {
        assert ThreadMem(s.mem, PermitOf(s, u), u, s.pc[u]);
      }
    }
    forall u, sym | u in s'.pc && sym in s'.toBytes ensures Behind(s', sym, s'.pc[u]) {
      assert Published(s, sym);
      if u != t {
        assert Behind(s, sym, s.pc[u]);
      }
    }
  }

  // A step of `t` that touches neither memory nor the symbol-to-bytes map.
  lemma MemQuiet(s: State, s': State, t: nat, p: Pc)
    requires MemInv(s) && t in s.pc && s'.pc == s.pc[t := p]
    requires s'.mem == s.mem && s'.toBytes == s.toBytes && s'.names == s.names
    requires s'.permits.Keys == s.permits.Keys && forall u | u in s.permits && u != t :: s'.permits[u] == s.permits[u]
    requires ThreadMem(s'.mem, PermitOf(s', t), t, p)
    requires Claim(p).None? || Claim(p) == Claim(s.pc[t])
    ensures MemInv(s')
  {
    hide Backs, End, Apart, Record, SlabsOk, Disjoint, ThreadMem;
    forall sym | sym in s.toBytes ensures Published(s', sym) && Behind(s, sym, p) {
      assert Published(s, sym) && Behind(s, sym, s.pc[t]);
    }
    MemStep(s, s', t, p);
  }

  lemma WriteKeeps(mem: map<nat, SlabState>, t: nat, id: nat, b: Bytes)
    requires SlabsOk(mem) && Owns(mem, t, id) && Registrable(b) && mem[id].writePos + |Record(b)| <= |mem[id].data|
    ensures var mem' := mem[id := WriteIn(mem[id], b)];
            && SlabsOk(mem') && OwnStep(mem, mem', t)
            && Stands(mem', t, Ptr(id, mem[id].writePos), b)
            && mem'[id].writePos == End(Ptr(id, mem[id].writePos), b) && mem'[id].next == mem[id].next
            && forall u, p, d | Stands(mem, u, p, d) :: Stands(mem', u, p, d)
  {
    var slab := mem[id];
    var mem' := mem[id := WriteIn(slab, b)];
    PutBacks(slab.data, slab.writePos, b);
    forall u, p, d | Stands(mem, u, p, d) ensures Stands(mem', u, p, d) {
      if p.slab == id {
        PutKeeps(slab.data, slab.writePos, b, p.off, d);
      }
    }
    hide Backs, Put, Record;
    assert mem'[id].next == slab.next;
  }

  lemma FreshKeeps(mem: map<nat, SlabState>, t: nat, id: nat, b: Bytes)
    requires SlabsOk(mem) && id !in mem && Registrable(b)
    ensures |Record(b)| <= SlabLen(|b| + U64_BYTES)
    ensures var mem' := mem[id := WriteIn(NewSlab(t, |b| + U64_BYTES), b)];
            && SlabsOk(mem') && OwnStep(mem, mem', t)
            && Stands(mem', t, Ptr(id, 0), b) && mem'[id].writePos == End(Ptr(id, 0), b)
            && forall u, p, d | Stands(mem, u, p, d) :: Stands(mem', u, p, d)
  {
    RecordFits(b);
    var slab := NewSlab(t, |b| + U64_BYTES);
    PutBacks(slab.data, 0, b);
    hide Backs, Put, Record;
  }

  lemma MemWriteEagerly(s: State, s': State, t: nat)
    requires MemInv(s) && t in s.pc && WriteEagerly(s, s', t) && Registrable(s.pc[t].b)
    ensures MemInv(s')
  {
    hide Backs, Apart, Record, SlabsOk, Disjoint, Put, WriteIn, Published, Behind;
    var b, permit := s.pc[t].b, s.permits[t];
    assert ThreadMem(s.mem, PermitOf(s, t), t, s.pc[t]);
    if permit.start.Some? && HasRoom(s.mem[permit.last.value], b) {
      var id := permit.last.value;
      RecordFits(b);
      WriteKeeps(s.mem, t, id, b);
      StillPublished(s, s', s'.pc[t]);
      MemStep(s, s', t, s'.pc[t]);
    } else {
      MemQuiet(s, s', t, s'.pc[t]);
    }
  }

  // What is published stays so when a record is written at the write position or in a new slab.
  lemma StillPublished(s: State, s': State, q: Pc)
    requires MemInv(s) && s'.toBytes == s.toBytes && s'.names == s.names
    requires forall u, p, d | Stands(s.mem, u, p, d) :: Stands(s'.mem, u, p, d)
    requires Claim(q).Some? && var p := Claim(q).value.0; p.slab in s.mem ==> s.mem[p.slab].writePos <= p.off
    ensures forall sym | sym in s.toBytes :: Published(s', sym) && Behind(s, sym, q)
  {
    hide Backs, Record, End, SlabsOk, Disjoint, ThreadMem;
    forall sym | sym in s.toBytes ensures Published(s', sym) && Behind(s, sym, q) {
      assert Published(s, sym);
    }
  }

  lemma MemWriteFirst(s: State, s': State, t: nat, id: nat)
    requires MemInv(s) && t in s.pc && WriteFirst(s, s', t, id) && Registrable(s.pc[t].b)
    ensures MemInv(s')
  {
    hide Backs, Apart, Record, SlabsOk, Disjoint, Put;
    FreshKeeps(s.mem, t, id, s.pc[t].b);
    StillPublished(s, s', s'.pc[t]);
    MemStep(s, s', t, s'.pc[t]);
  }

  lemma LinkKeeps(mem: map<nat, SlabState>, t: nat, last: nat, id: nat)
    requires SlabsOk(mem) && Owns(mem, t, last) && Owns(mem, t, id)
    ensures var mem' := mem[last := mem[last].(next := Some(id))];
            && SlabsOk(mem') && OwnStep(mem, mem', t)
            && forall u, p, d | Stands(mem, u, p, d) :: Stands(mem', u, p, d)
  {
    hide Backs, Record, End;
  }

  lemma LinkedKeeps(mem: map<nat, SlabState>, t: nat, last: nat, id: nat, b: Bytes)
    requires SlabsOk(mem) && Owns(mem, t, last) && id !in mem && Registrable(b)
    requires |Record(b)| <= SlabLen(|b| + U64_BYTES)
    ensures var mem' := mem[last := mem[last].(next := Some(id))][id := WriteIn(NewSlab(t, |b| + U64_BYTES), b)];
            && SlabsOk(mem') && OwnStep(mem, mem', t)
            && Stands(mem', t, Ptr(id, 0), b) && mem'[id].writePos == End(Ptr(id, 0), b)
            && forall u, p, d | Stands(mem, u, p, d) :: Stands(mem', u, p, d)
  {
    hide Backs, Put, Record, SlabsOk, Stands, End;
    FreshKeeps(mem, t, id, b);
    var mid := mem[id := WriteIn(NewSlab(t, |b| + U64_BYTES), b)];
    LinkKeeps(mid, t, last, id);
    assert mem[last := mem[last].(next := Some(id))][id := mid[id]] == mid[last := mid[last].(next := Some(id))];
  }

  lemma MemWriteLate(s: State, s': State, t: nat, id: nat)
    requires MemInv(s) && t in s.pc && WriteLate(s, s', t, id) && Registrable(s.pc[t].b)
    ensures MemInv(s')
  {
    hide Backs, Apart, Record, SlabsOk, Disjoint, Put;
    var b, last := s.pc[t].b, s.pc[t].slab.value;
    assert ThreadMem(s.mem, PermitOf(s, t), t, s.pc[t]);
    RecordFits(b);
    hide WriteIn, NewSlab;
    if HasRoom(s.mem[last], b) {
      WriteKeeps(s.mem, t, last, b);
    } else {
      LinkedKeeps(s.mem, t, last, id, b);
    }
    StillPublished(s, s', s'.pc[t]);
    MemStep(s, s', t, s'.pc[t]);
  }

  // The rollback discards the unpublished write and nothing else.
  lemma MemFinish(s: State, s': State, t: nat)
    requires MemInv(s) && t in s.pc && Finish(s, s', t)
    ensures MemInv(s')
  {
    hide Backs, Apart, Record, Disjoint;
    assert ThreadMem(s.mem, PermitOf(s, t), t, s.pc[t]);
    if s.pc[t].eager.Some? {
      forall sym | sym in s.toBytes ensures Published(s', sym) {
        assert Published(s, sym) && Behind(s, sym, s.pc[t]);
      }
      assert SlabsOk(s'.mem);
      MemStep(s, s', t, Idle);
    } else {
      MemQuiet(s, s', t, Idle);
    }
  }

  lemma MemInsertBytes(s: State, s': State, t: nat)
    requires MemInv(s) && t in s.pc && InsertBytes(s, s', t)
    requires s.pc[t].sym !in s.toBytes && SlotOf(s.pc[t].sym) == t
    ensures MemInv(s')
  {
    hide Backs, Record, SlabsOk, End;
    assert ThreadMem(s.mem, PermitOf(s, t), t, s.pc[t]);
    var p := s.pc[t];
    forall sym | sym in s'.toBytes ensures Published(s', sym) {
      if sym != p.sym {
        assert Published(s, sym);
      }
    }
    forall x, y | x in s'.toBytes && y in s'.toBytes && x != y
      ensures Apart(s'.toBytes[x], s'.names[x], s'.toBytes[y], s'.names[y])
    {
      if x != p.sym && y != p.sym {
        assert Apart(s.toBytes[x], s.names[x], s.toBytes[y], s.names[y]);
      } else {
        assert Behind(s, if x == p.sym then y else x, p);
      }
    }
    forall u | u in s'.pc ensures ThreadMem(s'.mem, PermitOf(s', u), u, s'.pc[u]) {
      assert ThreadMem(s.mem, PermitOf(s, u), u, s.pc[u]);
    }
    forall u, sym | u in s'.pc && sym in s'.toBytes ensures Behind(s', sym, s'.pc[u]) {
      assert ThreadMem(s.mem, PermitOf(s, u), u, s.pc[u]);
      if sym != p.sym {
        assert Behind(s, sym, s.pc[u]);
      }
    }
  }

  lemma MemAdvance(s: State, s': State, t: nat)
    requires MemInv(s) && t in s.pc && AdvanceLast(s, s', t)
    ensures MemInv(s')
  {
    hide Backs, Record, End, Disjoint, Put, Stands, Behind, Published;
    var p := s.pc[t];
    assert ThreadMem(s.mem, PermitOf(s, t), t, p);
    if p.slab.Some? {
      assert s.mem[p.slab.value].next.Some? ==> Owns(s.mem, t, s.mem[p.slab.value].next.value);
    }
    assert ThreadMem(s'.mem, PermitOf(s', t), t, s'.pc[t]);
    MemQuiet(s, s', t, s'.pc[t]);
  }

  /* ---- Symbols ---- */

  function Pending(p: Pc): Option<Sym> {
    if p.Numbered? || p.BytesHeld? then Some(p.sym) else None
  }

  // A call that may insert.
  predicate Inserting(p: Pc) {
    if p.Called? || p.Reading? then p.insert
    else !(p.Idle? || p.GotSym? || p.WantBytes? || p.ReadingBytes? || p.Panicked?)
  }

  ghost predicate ThreadSym(s: State, t: nat, p: Pc)
    requires forall y | y in s.toBytes :: y in s.names
  {
    && (t in s.permits ==> SlotOf(s.permits[t].nextSymbol) == t)
    && (Inserting(p) ==> t in s.permits)
    && (Pending(p).Some? ==>
          var y := Pending(p).value; SlotOf(y) == t && y < s.permits[t].nextSymbol && y !in s.toBytes)
    && (p.BytesIn? ==> p.sym in s.toBytes && s.names[p.sym] == p.b && SlotOf(p.sym) == t)
    && (p.Cleaning? || p.Advanced? ==> p.b in s.toSymbol && s.toSymbol[p.b] == p.sym)
  }

  ghost predicate Minted(s: State, y: Sym)
    requires y in s.toBytes && y in s.names && s.permits.Keys <= s.pc.Keys
  {
    && SlotOf(y) in s.permits && y < s.permits[SlotOf(y)].nextSymbol
    && ((s.names[y] in s.toSymbol && s.toSymbol[s.names[y]] == y)
        || (var p := s.pc[SlotOf(y)]; p.BytesIn? && p.b == s.names[y] && p.sym == y))
  }

  ghost predicate AnswerOk(s: State, a: Answer)
    requires forall y | y in s.toBytes :: y in s.names
  {
    match a
    case SymOf(b, y) => b in s.toSymbol && s.toSymbol[b] == y
    case NoSym(_) => true
    case BytesOf(y, found) => found.Some? ==> y in s.toBytes && s.names[y] == found.value
  }

  // Once a symbol has been handed out for a string, neither is reported unknown again.
  predicate NoRetreat(answers: seq<Answer>) {
    forall i, j | 0 <= i < j < |answers| && answers[i].SymOf? ::
      answers[j] != NoSym(answers[i].text) && answers[j] != BytesOf(answers[i].sym, None)
  }

  ghost predicate SymInv(s: State) {
    && s.permits.Keys <= s.pc.Keys
    && (forall t | t in s.permits :: t < MAX_WRITER_THREADS)
    && s.names.Keys == s.toBytes.Keys
    && (forall y | y in s.toBytes :: Minted(s, y))
    && (forall t | t in s.pc :: ThreadSym(s, t, s.pc[t]))
    && (forall b | b in s.toSymbol :: s.toSymbol[b] in s.toBytes && s.names[s.toSymbol[b]] == b)
    && (forall a | a in s.answers :: AnswerOk(s, a))
    && NoRetreat(s.answers)
  }

  // A step that gives no answer and leaves the maps alone.
  lemma SymQuiet(s: State, s': State, t: nat, p: Pc)
    requires SymInv(s) && t in s.pc && s'.pc == s.pc[t := p]
    requires s'.toSymbol == s.toSymbol && s'.toBytes == s.toBytes && s'.names == s.names && s'.answers == s.answers
    requires s'.permits.Keys == s.permits.Keys
    requires forall u | u in s.permits :: s'.permits[u].nextSymbol >= s.permits[u].nextSymbol
    requires forall u | u in s.permits && u != t :: s'.permits[u] == s.permits[u]
    requires ThreadSym(s', t, p)
    requires !s.pc[t].BytesIn?
    ensures SymInv(s')
  {
    hide SlotOf, NoRetreat;
    forall y | y in s'.toBytes ensures Minted(s', y) {
      assert Minted(s, y);
    }
    forall u | u in s'.pc ensures ThreadSym(s', u, s'.pc[u]) {
      assert ThreadSym(s, u, s.pc[u]);
    }
    forall a | a in s'.answers ensures AnswerOk(s', a) {
      assert AnswerOk(s, a);
    }
  }

  lemma SymAnswered(s: State, s': State, t: nat, a: Answer)
    requires SymInv(s) && t in s.pc && !s.pc[t].BytesIn?
    requires s' == Answered(s, t, a).(mem := s'.mem)
    requires AnswerOk(s, a)
    requires a.NoSym? ==> a.text !in s.toSymbol
    requires a.BytesOf? && a.found.None? ==> forall b | b in s.toSymbol :: s.toSymbol[b] != a.sym
    ensures SymInv(s')
  {
    hide SlotOf, NoRetreat, AnswerOk;
    assert ThreadSym(s, t, s.pc[t]);
    var mid := s'.(answers := s.answers);
    SymQuiet(s, mid, t, Idle);
    AnswersGrow(s, s', a);
    SymSame(mid, s');
  }

  lemma SymSame(s: State, s': State)
    requires SymInv(s) && s' == s.(answers := s'.answers)
    requires (forall x | x in s'.answers :: AnswerOk(s', x)) && NoRetreat(s'.answers)
    ensures SymInv(s')
  {
    hide SlotOf, NoRetreat, AnswerOk;
    forall y | y in s'.toBytes ensures Minted(s', y) {
      assert Minted(s, y);
    }
    forall u | u in s'.pc ensures ThreadSym(s', u, s'.pc[u]) {
      assert ThreadSym(s, u, s.pc[u]);
    }
  }

  lemma AnswersGrow(s: State, s': State, a: Answer)
    requires SymInv(s) && AnswerOk(s, a) && s'.answers == s.answers + [a]
    requires s'.toSymbol == s.toSymbol && s'.toBytes == s.toBytes && s'.names == s.names
    requires a.NoSym? ==> a.text !in s.toSymbol
    requires a.BytesOf? && a.found.None? ==> forall b | b in s.toSymbol :: s.toSymbol[b] != a.sym
    ensures (forall x | x in s'.answers :: AnswerOk(s', x)) && NoRetreat(s'.answers)
  {
    hide ThreadSym, Minted;
    forall x | x in s'.answers ensures AnswerOk(s', x) {
      assert x in s.answers || x == a;
    }
    forall i, j | 0 <= i < j < |s'.answers| && s'.answers[i].SymOf?
      ensures s'.answers[j] != NoSym(s'.answers[i].text) && s'.answers[j] != BytesOf(s'.answers[i].sym, None)
    {
      if j == |s.answers| {
        assert s.answers[i] in s.answers;
        assert AnswerOk(s, s.answers[i]);
      }
    }
  }

  lemma SymTakeNumber(s: State, s': State, t: nat)
    requires SymInv(s) && t in s.pc && TakeNumber(s, s', t)
    ensures SymInv(s')
  {
    hide SlotOf, NoRetreat;
    var y := s.permits[t].nextSymbol;
    assert ThreadSym(s, t, s.pc[t]);
    assert y in s.toBytes ==> Minted(s, y);
    SymQuiet(s, s', t, s'.pc[t]);
  }

  lemma SymInsertBytes(s: State, s': State, t: nat)
    requires SymInv(s) && t in s.pc && InsertBytes(s, s', t)
    ensures SymInv(s')
  {
    hide SlotOf, NoRetreat, Minted, ThreadSym, AnswerOk;
    var p := s.pc[t];
    NumberedFacts(s, t);
    forall y | y in s'.toBytes ensures Minted(s', y) {
      MintedAfter(s, s', t, y);
    }
    forall u | u in s'.pc ensures ThreadSym(s', u, s'.pc[u]) {
      ThreadSymAfter(s, s', t, u);
    }
    forall a | a in s'.answers ensures AnswerOk(s', a) {
      AnswerAfter(s, s', t, a);
    }
  }

  lemma NumberedFacts(s: State, t: nat)
    requires SymInv(s) && t in s.pc && s.pc[t].BytesHeld?
    ensures t in s.permits && s.pc[t].sym !in s.toBytes && SlotOf(s.pc[t].sym) == t && s.pc[t].sym < s.permits[t].nextSymbol
  {
    hide SlotOf, NoRetreat, Minted, AnswerOk;
    assert ThreadSym(s, t, s.pc[t]);
  }

  lemma MintedAfter(s: State, s': State, t: nat, y: Sym)
    requires SymInv(s) && t in s.pc && InsertBytes(s, s', t) && y in s'.toBytes
    requires t in s.permits && s.pc[t].sym !in s.toBytes && SlotOf(s.pc[t].sym) == t && s.pc[t].sym < s.permits[t].nextSymbol
    ensures Minted(s', y)
  {
    hide SlotOf, NoRetreat, AnswerOk, ThreadSym;
    if y != s.pc[t].sym {
      assert Minted(s, y);
    }
  }

  lemma ThreadSymAfter(s: State, s': State, t: nat, u: nat)
    requires SymInv(s) && t in s.pc && InsertBytes(s, s', t) && u in s.pc
    requires s.pc[t].sym !in s.toBytes && SlotOf(s.pc[t].sym) == t
    ensures ThreadSym(s', u, s'.pc[u])
  {
    hide SlotOf, NoRetreat, AnswerOk, Minted;
    assert ThreadSym(s, u, s.pc[u]);
  }

  lemma AnswerAfter(s: State, s': State, t: nat, a: Answer)
    requires SymInv(s) && t in s.pc && InsertBytes(s, s', t) && a in s.answers && s.pc[t].sym !in s.toBytes
    ensures AnswerOk(s', a)
  {
    hide SlotOf, NoRetreat, ThreadSym, Minted;
    assert AnswerOk(s, a);
  }

  lemma SymInsertSymbol(s: State, s': State, t: nat)
    requires SymInv(s) && t in s.pc && InsertSymbol(s, s', t) && s.pc[t].b !in s.toSymbol
    ensures SymInv(s')
  {
    hide SlotOf, NoRetreat;
    var p := s.pc[t];
    assert ThreadSym(s, t, p);
    forall y | y in s'.toBytes ensures Minted(s', y) {
      assert Minted(s, y);
    }
    forall u | u in s'.pc ensures ThreadSym(s', u, s'.pc[u]) {
      assert ThreadSym(s, u, s.pc[u]);
    }
    forall a | a in s'.answers ensures AnswerOk(s', a) {
      assert AnswerOk(s, a);
    }
  }

  /* ---- Locks ---- */

  predicate HasText(p: Pc) {
    !(p.Idle? || p.GotSym? || p.WantBytes? || p.ReadingBytes? || p.Panicked?)
  }

  // The bucket was looked up again under its write guard.
  predicate Rechecked(p: Pc) {
    p.Holding? || p.Backed? || p.Numbered? || p.BytesHeld? || p.BytesIn?
  }

  ghost predicate Compatible(c: Config, s: State, t: nat, u: nat)
    requires t in s.pc && u in s.pc
  {
    var p, q := s.pc[t], s.pc[u];
    && (t != u && WritesBucket(p) && (WritesBucket(q) || q.Reading?) ==> c.bucket(p.b) != c.bucket(q.b))
    && (p.BytesHeld? && q.ReadingBytes? ==> SlotOf(q.sym) != t)
  }

  ghost predicate ThreadLock(s: State, p: Pc) {
    && (HasText(p) ==> Registrable(p.b))
    && (Rechecked(p) ==> p.b !in s.toSymbol)
    && (p.WantBytes? || p.ReadingBytes? ==> SlotOf(p.sym) < MAX_WRITER_THREADS)
    && (p.Panicked? ==> SlotOf(p.sym) == MAX_WRITER_THREADS)
  }

  ghost predicate LockInv(c: Config, s: State) {
    && (forall t, u | t in s.pc && u in s.pc :: Compatible(c, s, t, u))
    && (forall t | t in s.pc :: ThreadLock(s, s.pc[t]))
  }

  // A step of `t` that does not touch the string-to-symbol map.
  lemma LockStep(c: Config, s: State, s': State, t: nat, p: Pc)
    requires LockInv(c, s) && t in s.pc && s'.pc == s.pc[t := p] && s'.toSymbol == s.toSymbol
    requires ThreadLock(s', p)
    requires forall u | u in s.pc :: Compatible(c, s', t, u) && Compatible(c, s', u, t)
    ensures LockInv(c, s')
  {
    hide SlotOf, Registrable;
    forall u, v | u in s'.pc && v in s'.pc ensures Compatible(c, s', u, v) {
      assert Compatible(c, s, u, v);
    }
    forall u | u in s'.pc ensures ThreadLock(s', s'.pc[u]) {
      assert ThreadLock(s, s.pc[u]);
    }
  }

  ghost predicate Inv(c: Config, s: State) {
    MemInv(s) && SymInv(s) && LockInv(c, s)
  }

  /* ---- Every step keeps the invariant, takes nothing back and brings its call nearer to its end ---- */

  predicate Within<K, V(==)>(m: map<K, V>, n: map<K, V>) {
    forall k | k in m :: k in n && n[k] == m[k]
  }

  predicate Grown(s: State, s': State) {
    && Within(s.toSymbol, s'.toSymbol) && Within(s.toBytes, s'.toBytes) && Within(s.names, s'.names)
    && s.answers <= s'.answers
  }

  // How far a call is from its answer.
  function Rank(p: Pc): nat {
    match p
    case Called(_, _) => 12
    case Reading(_, _) => 11
    case Missed(_) => 10
    case Prepared(_, _, _) => 9
    case Checking(_, _, _) => 8
    case Holding(_, _, _) => 7
    case Backed(_, _, _) => 6
    case Numbered(_, _, _, _) => 5
    case BytesHeld(_, _, _, _) => 4
    case BytesIn(_, _, _) => 3
    case Cleaning(_, _, _, _) => 2
    case Advanced(_, _, _) => 1
    case GotSym(_) => 3
    case WantBytes(_) => 2
    case ReadingBytes(_) => 1
    case Idle => 0
    case Panicked(_) => 0
  }

  predicate Descends(s: State, s': State, t: nat)
    requires t in s.pc
  {
    t in s'.pc && s'.pc == s.pc[t := s'.pc[t]] && Rank(s'.pc[t]) < Rank(s.pc[t])
  }

  // What the quiet steps do to the private state of a thread: nothing is claimed anew.
  predicate Passes(p: Pc, q: Pc) {
    && (Claim(q).None? || Claim(q) == Claim(p))
    && (EagerOf(q).None? || EagerOf(q) == EagerOf(p))
    && (SlabOf(q).None? || SlabOf(q) == SlabOf(p))
    && (q.Prepared? || q.Checking? || q.Holding? ==> (p.Prepared? || p.Checking? || p.Holding?) && q.slab == p.slab)
  }

  lemma PassesMem(mem: map<nat, SlabState>, permit: Permit, permit': Permit, t: nat, p: Pc, q: Pc)
    requires ThreadMem(mem, permit, t, p) && Passes(p, q)
    requires permit'.start == permit.start && permit'.last == permit.last
    ensures ThreadMem(mem, permit', t, q)
  {
    hide Stands, Owns, End;
  }

  // A thread moves from `p` to `q` and nothing else changes.
  lemma Move(c: Config, s: State, t: nat, q: Pc)
    requires Inv(c, s) && t in s.pc && Passes(s.pc[t], q) && !s.pc[t].BytesIn?
    requires ThreadSym(s, t, q) && ThreadLock(s, q)
    requires var s' := Goto(s, t, q); forall u | u in s.pc :: Compatible(c, s', t, u) && Compatible(c, s', u, t)
    ensures Inv(c, Goto(s, t, q))
  {
    hide ThreadMem, Claim, EagerOf, SlabOf, Compatible, Published, Behind, Disjoint, SlabsOk, Minted,
         AnswerOk, NoRetreat;
    var s' := Goto(s, t, q);
    PassesMem(s.mem, PermitOf(s, t), PermitOf(s, t), t, s.pc[t], q);
    assert Claim(q).None? || Claim(q) == Claim(s.pc[t]);
    MemQuiet(s, s', t, q);
    SymQuiet(s, s', t, q);
    LockStep(c, s, s', t, q);
  }

  // A published symbol reads back as its string; one that is not published is not found.
  lemma GetBytesIs(s: State, y: Sym)
    requires MemInv(s)
    ensures GetBytes(s, y) == if y in s.toBytes then Some(s.names[y]) else None
  {
    if y in s.toBytes {
      assert Published(s, y);
      ReadBack(s.mem[s.toBytes[y].slab].data, s.toBytes[y].off, s.names[y]);
    }
  }

  // The thread takes no lock.
  predicate Quieter(p: Pc, q: Pc) {
    && (WritesBucket(q) ==> WritesBucket(p) && q.b == p.b)
    && (q.Reading? ==> p.Reading? && q.b == p.b)
    && (q.BytesHeld? ==> p.BytesHeld?)
    && (q.ReadingBytes? ==> p.ReadingBytes? && q.sym == p.sym)
  }

  lemma StaysCompatible(c: Config, s: State, s': State, t: nat, q: Pc)
    requires LockInv(c, s) && t in s.pc && s'.pc == s.pc[t := q] && Quieter(s.pc[t], q)
    ensures forall u | u in s.pc :: Compatible(c, s', t, u) && Compatible(c, s', u, t)
  {
    hide SlotOf, ThreadLock;
    forall u | u in s.pc ensures Compatible(c, s', t, u) && Compatible(c, s', u, t) {
      assert Compatible(c, s, t, u) && Compatible(c, s, u, t);
    }
  }

  lemma MoveDown(c: Config, s: State, t: nat, q: Pc)
    requires Inv(c, s) && t in s.pc && Passes(s.pc[t], q) && Quieter(s.pc[t], q) && !s.pc[t].BytesIn?
    requires ThreadSym(s, t, q) && ThreadLock(s, q)
    ensures Inv(c, Goto(s, t, q))
  {
    hide Passes, Quieter, ThreadSym, ThreadLock, MemInv, Compatible;
    StaysCompatible(c, s, Goto(s, t, q), t, q);
    Move(c, s, t, q);
  }

  // A call returns; a rollback may go with it.
  lemma MoveAnswered(c: Config, s: State, s': State, t: nat, a: Answer)
    requires Inv(c, s) && t in s.pc && !s.pc[t].BytesIn? && s' == Answered(s, t, a).(mem := s'.mem) && MemInv(s')
    requires AnswerOk(s, a)
    requires a.NoSym? ==> a.text !in s.toSymbol
    requires a.BytesOf? && a.found.None? ==> forall b | b in s.toSymbol :: s.toSymbol[b] != a.sym
    ensures Inv(c, s')
  {
    hide MemInv, SymInv, Compatible, AnswerOk;
    SymAnswered(s, s', t, a);
    StaysCompatible(c, s, s', t, Idle);
    LockStep(c, s, s', t, Idle);
  }

  lemma MemAnswered(s: State, t: nat, a: Answer)
    requires MemInv(s) && t in s.pc
    ensures MemInv(Answered(s, t, a))
  {
    hide Stands, End, Behind, Disjoint, SlabsOk, Published;
    assert ThreadMem(s.mem, PermitOf(s, t), t, s.pc[t]);
    MemQuiet(s, Answered(s, t, a), t, Idle);
  }

  lemma StepCall(c: Config, s: State, s': State, t: nat)
    requires Inv(c, s) && t in s.pc && Call(s, s', t)
    ensures Inv(c, s') && Grown(s, s')
  {
    hide *;
    InvParts(c, s);
    CallEffect(s, s', t);
    StartPasses(s, t, s.pc[t], s'.pc[t]);
    Calling(s, t, s'.pc[t]);
    GotoGrows(s, t, s'.pc[t]);
    MoveDown(c, s, t, s'.pc[t]);
  }

  // A call starts without any text, or with a registrable one.
  ghost predicate Starts(s: State, t: nat, q: Pc) {
    q.GotSym? || (q.Called? && Registrable(q.b) && (q.insert ==> t in s.permits))
  }

  lemma CallEffect(s: State, s': State, t: nat)
    requires t in s.pc && Call(s, s', t)
    ensures s.pc[t].Idle? && t in s'.pc && s' == Goto(s, t, s'.pc[t]) && Starts(s, t, s'.pc[t])
  {
    hide Registrable;
  }

  lemma GotoGrows(s: State, t: nat, q: Pc)
    ensures Grown(s, Goto(s, t, q))
  {
  }

  lemma StartPasses(s: State, t: nat, p: Pc, q: Pc)
    requires p.Idle? && Starts(s, t, q)
    ensures Passes(p, q) && Quieter(p, q)
  {
    hide Registrable;
  }

  lemma Calling(s: State, t: nat, q: Pc)
    requires SymInv(s) && t in s.pc && s.pc[t].Idle? && Starts(s, t, q)
    ensures (forall y | y in s.toBytes :: y in s.names) && ThreadSym(s, t, q) && ThreadLock(s, q)
  {
    hide SlotOf, Registrable, NoRetreat, AnswerOk, Minted;
    assert ThreadSym(s, t, s.pc[t]);
  }

  lemma StepAcquireRead(c: Config, s: State, s': State, t: nat)
    requires Inv(c, s) && t in s.pc && AcquireRead(c, s, s', t)
    ensures Inv(c, s') && Grown(s, s') && Descends(s, s', t)
  {
    hide MemInv, SlotOf, Registrable, NoRetreat, AnswerOk, Minted;
    assert ThreadSym(s, t, s.pc[t]) && ThreadLock(s, s.pc[t]);
    forall u | u in s.pc ensures Compatible(c, s', t, u) && Compatible(c, s', u, t) {
      assert Compatible(c, s, t, u) && Compatible(c, s, u, t);
    }
    Move(c, s, t, s'.pc[t]);
  }

  lemma StepReadBucket(c: Config, s: State, s': State, t: nat)
    requires Inv(c, s) && t in s.pc && ReadBucket(s, s', t)
    ensures Inv(c, s') && Grown(s, s') && Descends(s, s', t)
  {
    hide *;
    InvParts(c, s);
    ReadBucketIs(s, s', t);
    var b := s.pc[t].b;
    if b in s.toSymbol || !s.pc[t].insert {
      var a := if b in s.toSymbol then SymOf(b, s.toSymbol[b]) else NoSym(b);
      ReadAnswerOk(s, b, a);
      MemAnswered(s, t, a);
      MoveAnswered(c, s, s', t, a);
    } else {
      MissedStarts(c, s, t);
      MoveDown(c, s, t, Missed(b));
    }
  }

  lemma ReadBucketIs(s: State, s': State, t: nat)
    requires t in s.pc && ReadBucket(s, s', t)
    ensures s.pc[t].Reading? && Grown(s, s') && Descends(s, s', t)
    ensures var b := s.pc[t].b;
      s' == if b in s.toSymbol then Answered(s, t, SymOf(b, s.toSymbol[b]))
            else if s.pc[t].insert then Goto(s, t, Missed(b))
            else Answered(s, t, NoSym(b))
    ensures s' == s'.(mem := s'.mem) && !s.pc[t].BytesIn?
  {
  }

  lemma ReadAnswerOk(s: State, b: Bytes, a: Answer)
    requires SymInv(s) && a == if b in s.toSymbol then SymOf(b, s.toSymbol[b]) else NoSym(b)
    ensures (forall y | y in s.toBytes :: y in s.names) && AnswerOk(s, a)
  {
    hide SlotOf, NoRetreat, ThreadSym, Minted;
  }

  lemma MissedStarts(c: Config, s: State, t: nat)
    requires SymInv(s) && LockInv(c, s) && t in s.pc && s.pc[t].Reading? && s.pc[t].insert
    ensures var q := Missed(s.pc[t].b);
      && Passes(s.pc[t], q) && Quieter(s.pc[t], q) && (forall y | y in s.toBytes :: y in s.names)
      && ThreadSym(s, t, q) && ThreadLock(s, q)
  {
    hide SlotOf, Registrable, NoRetreat, AnswerOk, Minted, Compatible;
    assert ThreadSym(s, t, s.pc[t]) && ThreadLock(s, s.pc[t]);
  }

  lemma StepAcquireBucket(c: Config, s: State, s': State, t: nat)
    requires Inv(c, s) && t in s.pc && AcquireBucket(c, s, s', t)
    ensures Inv(c, s') && Grown(s, s') && Descends(s, s', t)
  {
    hide MemInv, SlotOf, Registrable, NoRetreat, AnswerOk, Minted;
    assert ThreadSym(s, t, s.pc[t]) && ThreadLock(s, s.pc[t]);
    forall u | u in s.pc ensures Compatible(c, s', t, u) && Compatible(c, s', u, t) {
      assert Compatible(c, s, t, u) && Compatible(c, s, u, t);
    }
    Move(c, s, t, s'.pc[t]);
  }

  lemma StepRecheck(c: Config, s: State, s': State, t: nat)
    requires Inv(c, s) && t in s.pc && Recheck(s, s', t)
    ensures Inv(c, s') && Grown(s, s') && Descends(s, s', t)
  {
    hide MemInv, SlotOf, Registrable, NoRetreat, AnswerOk, Minted;
    assert ThreadSym(s, t, s.pc[t]) && ThreadLock(s, s.pc[t]);
    hide SymInv, LockInv;
    var p := s.pc[t];
    if p.b in s.toSymbol {
      MoveDown(c, s, t, Cleaning(p.b, p.slab, p.eager, s.toSymbol[p.b]));
    } else {
      MoveDown(c, s, t, Holding(p.b, p.slab, p.eager));
    }
  }

  lemma StepUseEager(c: Config, s: State, s': State, t: nat)
    requires Inv(c, s) && t in s.pc && UseEager(s, s', t)
    ensures Inv(c, s') && Grown(s, s') && Descends(s, s', t)
  {
    hide MemInv, SlotOf, Registrable, NoRetreat, AnswerOk, Minted;
    assert ThreadSym(s, t, s.pc[t]) && ThreadLock(s, s.pc[t]);
    MoveDown(c, s, t, s'.pc[t]);
  }

  // What the steps that write the slabs or the permits do to everything else.
  ghost predicate WriteEffect(s: State, s': State, t: nat)
    requires t in s.pc
  {
    && t in s'.pc && s'.pc == s.pc[t := s'.pc[t]]
    && s'.toSymbol == s.toSymbol && s'.toBytes == s.toBytes && s'.names == s.names && s'.answers == s.answers
    && s'.permits.Keys == s.permits.Keys
    && (forall u | u in s.permits :: s'.permits[u].nextSymbol == s.permits[u].nextSymbol && (u != t ==> s'.permits[u] == s.permits[u]))
    && var p, q := s.pc[t], s'.pc[t];
       && HasText(p) && HasText(q) && q.b == p.b && Inserting(p) && !p.BytesIn? && !q.BytesIn?
       && Quieter(p, q) && Pending(q).None? && Rank(q) < Rank(p) && (Rechecked(q) ==> Rechecked(p))
       && (q.Cleaning? || q.Advanced? ==> (p.Cleaning? || p.Advanced?) && q.sym == p.sym)
  }

  lemma StepWrite(c: Config, s: State, s': State, t: nat)
    requires Inv(c, s) && t in s.pc && MemInv(s') && WriteEffect(s, s', t)
    ensures Inv(c, s') && Grown(s, s') && Descends(s, s', t)
  {
    hide MemInv, SymInv, LockInv, ThreadSym, ThreadLock, SlotOf, Compatible, Quieter;
    WriteThread(c, s, s', t);
    StaysCompatible(c, s, s', t, s'.pc[t]);
    LockStep(c, s, s', t, s'.pc[t]);
    SymQuiet(s, s', t, s'.pc[t]);
  }

  lemma WriteThread(c: Config, s: State, s': State, t: nat)
    requires Inv(c, s) && t in s.pc && WriteEffect(s, s', t)
    ensures s.permits.Keys <= s.pc.Keys && (forall y | y in s.toBytes :: y in s.names)
    ensures ThreadSym(s', t, s'.pc[t]) && ThreadLock(s', s'.pc[t])
  {
    hide MemInv, SlotOf, Compatible, Quieter, NoRetreat, AnswerOk, Minted, Registrable;
    assert ThreadSym(s, t, s.pc[t]) && ThreadLock(s, s.pc[t]);
  }

  lemma HasPermit(c: Config, s: State, t: nat)
    requires Inv(c, s) && t in s.pc
    ensures s.permits.Keys <= s.pc.Keys && (HasText(s.pc[t]) ==> Registrable(s.pc[t].b))
  {
    assert ThreadLock(s, s.pc[t]);
    hide MemInv, Minted, ThreadSym, AnswerOk, NoRetreat, Compatible, Registrable;
  }

  lemma StepWriteEagerly(c: Config, s: State, s': State, t: nat)
    requires Inv(c, s) && t in s.pc && WriteEagerly(s, s', t)
    ensures Inv(c, s') && Grown(s, s') && Descends(s, s', t)
  {
    hide *;
    HasPermit(c, s, t);
    InvParts(c, s);
    EagerEffect(s, s', t);
    MemWriteEagerly(s, s', t);
    StepWrite(c, s, s', t);
  }

  lemma EagerEffect(s: State, s': State, t: nat)
    requires t in s.pc && s.permits.Keys <= s.pc.Keys && WriteEagerly(s, s', t)
    ensures HasText(s.pc[t]) && WriteEffect(s, s', t)
  {
    hide WriteIn, HasRoom;
  }

  lemma StepWriteFirst(c: Config, s: State, s': State, t: nat, id: nat)
    requires Inv(c, s) && t in s.pc && WriteFirst(s, s', t, id)
    ensures Inv(c, s') && Grown(s, s') && Descends(s, s', t)
  {
    hide *;
    HasPermit(c, s, t);
    InvParts(c, s);
    FirstEffect(s, s', t, id);
    MemWriteFirst(s, s', t, id);
    StepWrite(c, s, s', t);
  }

  lemma FirstEffect(s: State, s': State, t: nat, id: nat)
    requires t in s.pc && s.permits.Keys <= s.pc.Keys && WriteFirst(s, s', t, id)
    ensures HasText(s.pc[t]) && WriteEffect(s, s', t)
  {
    hide WriteIn, NewSlab;
  }

  lemma StepWriteLate(c: Config, s: State, s': State, t: nat, id: nat)
    requires Inv(c, s) && t in s.pc && WriteLate(s, s', t, id)
    ensures Inv(c, s') && Grown(s, s') && Descends(s, s', t)
  {
    hide *;
    HasPermit(c, s, t);
    InvParts(c, s);
    LateEffect(s, s', t, id);
    MemWriteLate(s, s', t, id);
    StepWrite(c, s, s', t);
  }

  lemma LateEffect(s: State, s': State, t: nat, id: nat)
    requires t in s.pc && s.permits.Keys <= s.pc.Keys && WriteLate(s, s', t, id)
    ensures HasText(s.pc[t]) && WriteEffect(s, s', t)
  {
    hide WriteIn, NewSlab, HasRoom;
  }

  lemma StepAdvanceLast(c: Config, s: State, s': State, t: nat)
    requires Inv(c, s) && t in s.pc && AdvanceLast(s, s', t)
    ensures Inv(c, s') && Grown(s, s') && Descends(s, s', t)
  {
    hide *;
    HasPermit(c, s, t);
    InvParts(c, s);
    AdvanceEffect(s, s', t);
    MemAdvance(s, s', t);
    StepWrite(c, s, s', t);
  }

  lemma AdvanceEffect(s: State, s': State, t: nat)
    requires t in s.pc && s.permits.Keys <= s.pc.Keys && AdvanceLast(s, s', t)
    ensures WriteEffect(s, s', t)
  {
  }

  lemma StepTakeNumber(c: Config, s: State, s': State, t: nat)
    requires Inv(c, s) && t in s.pc && TakeNumber(s, s', t)
    ensures Inv(c, s') && Grown(s, s') && Descends(s, s', t)
  {
    hide *;
    HasPermit(c, s, t);
    InvParts(c, s);
    TakeEffect(c, s, s', t);
    SymTakeNumber(s, s', t);
    MemPasses(s, s', t, s'.pc[t]);
    StaysCompatible(c, s, s', t, s'.pc[t]);
    LockStep(c, s, s', t, s'.pc[t]);
    InvWhole(c, s');
  }

  lemma TakeEffect(c: Config, s: State, s': State, t: nat)
    requires t in s.pc && TakeNumber(s, s', t) && LockInv(c, s) && s.permits.Keys <= s.pc.Keys
    ensures t in s'.pc && s'.pc == s.pc[t := s'.pc[t]] && Passes(s.pc[t], s'.pc[t]) && Quieter(s.pc[t], s'.pc[t])
    ensures s'.mem == s.mem && s'.toBytes == s.toBytes && s'.names == s.names && s'.toSymbol == s.toSymbol
    ensures s'.permits.Keys == s.permits.Keys && forall u | u in s.permits && u != t :: s'.permits[u] == s.permits[u]
    ensures t in s.permits && s'.permits[t].start == s.permits[t].start && s'.permits[t].last == s.permits[t].last
    ensures ThreadLock(s', s'.pc[t]) && Grown(s, s') && Descends(s, s', t)
  {
    hide SlotOf, Compatible, Registrable;
    assert ThreadLock(s, s.pc[t]);
  }

  lemma MemPasses(s: State, s': State, t: nat, q: Pc)
    requires MemInv(s) && t in s.pc && s'.pc == s.pc[t := q] && Passes(s.pc[t], q)
    requires s'.mem == s.mem && s'.toBytes == s.toBytes && s'.names == s.names
    requires s'.permits.Keys == s.permits.Keys && forall u | u in s.permits && u != t :: s'.permits[u] == s.permits[u]
    requires t in s.permits && s'.permits[t].start == s.permits[t].start && s'.permits[t].last == s.permits[t].last
    ensures MemInv(s')
  {
    hide ThreadMem, Claim, EagerOf, SlabOf, Published, Behind, Disjoint, SlabsOk;
    PassesMem(s.mem, PermitOf(s, t), PermitOf(s', t), t, s.pc[t], q);
    MemQuiet(s, s', t, q);
  }

  lemma InvParts(c: Config, s: State)
    requires Inv(c, s)
    ensures MemInv(s) && SymInv(s) && LockInv(c, s)
  {
  }

  lemma InvWhole(c: Config, s: State)
    requires MemInv(s) && SymInv(s) && LockInv(c, s)
    ensures Inv(c, s)
  {
  }

  lemma StepAcquireBytes(c: Config, s: State, s': State, t: nat)
    requires Inv(c, s) && t in s.pc && AcquireBytes(s, s', t)
    ensures Inv(c, s') && Grown(s, s') && Descends(s, s', t)
  {
    hide MemInv, SlotOf, Registrable, NoRetreat, AnswerOk, Minted;
    assert ThreadSym(s, t, s.pc[t]) && ThreadLock(s, s.pc[t]);
    forall u | u in s.pc ensures Compatible(c, s', t, u) && Compatible(c, s', u, t) {
      assert Compatible(c, s, t, u) && Compatible(c, s, u, t);
    }
    Move(c, s, t, s'.pc[t]);
  }

  lemma StepInsertBytes(c: Config, s: State, s': State, t: nat)
    requires Inv(c, s) && t in s.pc && InsertBytes(s, s', t)
    ensures Inv(c, s') && Grown(s, s') && Descends(s, s', t)
  {
    hide MemInv, SlotOf, Registrable, NoRetreat, AnswerOk, Minted, Compatible;
    assert ThreadSym(s, t, s.pc[t]) && ThreadLock(s, s.pc[t]);
    MemInsertBytes(s, s', t);
    SymInsertBytes(s, s', t);
    StaysCompatible(c, s, s', t, s'.pc[t]);
    LockStep(c, s, s', t, s'.pc[t]);
  }

  // Making a symbol visible: nobody else is past the second look with the same string.
  lemma StepInsertSymbol(c: Config, s: State, s': State, t: nat)
    requires Inv(c, s) && t in s.pc && InsertSymbol(s, s', t)
    ensures Inv(c, s') && Grown(s, s') && Descends(s, s', t)
  {
    hide SymInv, SlotOf, Registrable, NoRetreat, AnswerOk, Minted, Published, Disjoint, SlabsOk, Behind, Stands, End;
    assert ThreadMem(s.mem, PermitOf(s, t), t, s.pc[t]) && ThreadLock(s, s.pc[t]);
    SymInsertSymbol(s, s', t);
    MemQuiet(s, s', t, s'.pc[t]);
    StaysCompatible(c, s, s', t, s'.pc[t]);
    forall u, v | u in s'.pc && v in s'.pc ensures Compatible(c, s', u, v) {
      assert Compatible(c, s, u, v);
    }
    forall u | u in s'.pc ensures ThreadLock(s', s'.pc[u]) {
      assert ThreadLock(s, s.pc[u]) && Compatible(c, s, t, u);
    }
  }

  lemma StepFinish(c: Config, s: State, s': State, t: nat)
    requires Inv(c, s) && t in s.pc && Finish(s, s', t)
    ensures Inv(c, s') && Grown(s, s') && Descends(s, s', t)
  {
    hide MemInv, LockInv, SlotOf, Registrable, NoRetreat, Minted;
    assert ThreadSym(s, t, s.pc[t]);
    MemFinish(s, s', t);
    MoveAnswered(c, s, s', t, SymOf(s.pc[t].b, s.pc[t].sym));
  }

  lemma NotMinted(s: State, y: Sym)
    requires SymInv(s) && SlotOf(y) >= MAX_WRITER_THREADS
    ensures y !in s.toBytes && forall b | b in s.toSymbol :: s.toSymbol[b] != y
  {
    hide SlotOf, ThreadSym, AnswerOk, NoRetreat;
    assert y in s.toBytes ==> Minted(s, y);
  }

  lemma MoveWithoutText(c: Config, s: State, t: nat, q: Pc)
    requires Inv(c, s) && t in s.pc && s.pc[t].GotSym? && (q.WantBytes? || q.Panicked?) && ThreadLock(s, q)
    ensures Inv(c, Goto(s, t, q))
  {
    hide MemInv, LockInv, SlotOf, Minted, AnswerOk, NoRetreat, ThreadLock;
    assert ThreadSym(s, t, s.pc[t]);
    MoveDown(c, s, t, q);
  }

  lemma StepGuardSlot(c: Config, s: State, s': State, t: nat)
    requires Inv(c, s) && t in s.pc && GuardSlot(s, s', t)
    ensures Inv(c, s') && Grown(s, s') && Descends(s, s', t)
  {
    hide MemInv, LockInv, SymInv, SlotOf, Registrable, NoRetreat;
    var y := s.pc[t].sym;
    if SlotOf(y) > MAX_WRITER_THREADS {
      NotMinted(s, y);
      MemAnswered(s, t, BytesOf(y, None));
      MoveAnswered(c, s, s', t, BytesOf(y, None));
    } else {
      MoveWithoutText(c, s, t, s'.pc[t]);
    }
  }

  lemma StepAcquireReadBytes(c: Config, s: State, s': State, t: nat)
    requires Inv(c, s) && t in s.pc && AcquireReadBytes(s, s', t)
    ensures Inv(c, s') && Grown(s, s') && Descends(s, s', t)
  {
    hide MemInv, SlotOf, Registrable, NoRetreat, AnswerOk, Minted;
    assert ThreadSym(s, t, s.pc[t]) && ThreadLock(s, s.pc[t]);
    forall u | u in s.pc ensures Compatible(c, s', t, u) && Compatible(c, s', u, t) {
      assert Compatible(c, s, t, u) && Compatible(c, s, u, t);
    }
    Move(c, s, t, s'.pc[t]);
  }

  lemma StepReadBytes(c: Config, s: State, s': State, t: nat)
    requires Inv(c, s) && t in s.pc && ReadBytes(s, s', t)
    ensures Inv(c, s') && Grown(s, s') && Descends(s, s', t)
  {
    hide MemInv, LockInv, SlotOf, GetBytes, NoRetreat, Minted;
    var y := s.pc[t].sym;
    GetBytesIs(s, y);
    MemAnswered(s, t, BytesOf(y, GetBytes(s, y)));
    MoveAnswered(c, s, s', t, BytesOf(y, GetBytes(s, y)));
  }

  lemma InvMoves(c: Config, s: State, s': State, t: nat)
    requires Inv(c, s) && t in s.pc && Moves(c, s, s', t)
    ensures Inv(c, s') && Grown(s, s') && Descends(s, s', t)
  {
    hide Inv, Grown, Descends, AcquireRead, ReadBucket, WriteEagerly, AcquireBucket, Recheck, UseEager, WriteFirst, WriteLate, TakeNumber,
         AcquireBytes, InsertBytes, InsertSymbol, AdvanceLast, Finish, GuardSlot, AcquireReadBytes, ReadBytes;
    if AcquireRead(c, s, s', t) { StepAcquireRead(c, s, s', t); }
    else if ReadBucket(s, s', t) { StepReadBucket(c, s, s', t); }
    else if WriteEagerly(s, s', t) { StepWriteEagerly(c, s, s', t); }
    else if AcquireBucket(c, s, s', t) { StepAcquireBucket(c, s, s', t); }
    else if Recheck(s, s', t) { StepRecheck(c, s, s', t); }
    else if UseEager(s, s', t) { StepUseEager(c, s, s', t); }
    else if id :| WriteFirst(s, s', t, id) { StepWriteFirst(c, s, s', t, id); }
    else if id :| WriteLate(s, s', t, id) { StepWriteLate(c, s, s', t, id); }
    else if TakeNumber(s, s', t) { StepTakeNumber(c, s, s', t); }
    else if AcquireBytes(s, s', t) { StepAcquireBytes(c, s, s', t); }
    else if InsertBytes(s, s', t) { StepInsertBytes(c, s, s', t); }
    else if InsertSymbol(s, s', t) { StepInsertSymbol(c, s, s', t); }
    else if AdvanceLast(s, s', t) { StepAdvanceLast(c, s, s', t); }
    else if Finish(s, s', t) { StepFinish(c, s, s', t); }
    else if GuardSlot(s, s', t) { StepGuardSlot(c, s, s', t); }
    else if AcquireReadBytes(s, s', t) { StepAcquireReadBytes(c, s, s', t); }
    else { StepReadBytes(c, s, s', t); }
  }

  lemma InvNext(c: Config, s: State, s': State)
    requires Inv(c, s) && Next(c, s, s')
    ensures Inv(c, s') && Grown(s, s')
  {
    hide Inv, Grown, Moves, Call;
    var t :| t in s.pc && (Call(s, s', t) || Moves(c, s, s', t));
    if Call(s, s', t) {
      StepCall(c, s, s', t);
    } else {
      InvMoves(c, s, s', t);
    }
  }

  lemma InvInit(c: Config, s: State)
    requires Init(c, s) && c.Valid()
    ensures Inv(c, s)
  {
    forall t | t in s.pc ensures ThreadSym(s, t, s.pc[t]) {
      if t in s.permits {
        FirstSlot(t);
      }
    }
  }

  lemma FirstSlot(t: nat)
    requires t < MAX_WRITER_THREADS
    ensures SlotOf(if t == 0 then 1 else t * SYMBOLS_PER_SLOT) == t
  {
  }
}
