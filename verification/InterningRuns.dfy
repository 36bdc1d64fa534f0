/** What whole runs of the interner guarantee, and that no call is ever stuck. */
module InterningRuns {
  import opened Wrappers
  import opened Slabs
  import opened Interning
  import opened InterningSafety

  // Any number of threads, as many of them writers as there are permits, in any interleaving.
  ghost predicate Run(c: Config, r: seq<State>) {
    && c.Valid()
    && |r| > 0 && Init(c, r[0])
    && forall i | 0 <= i < |r| - 1 :: Next(c, r[i], r[i + 1])
  }

  lemma {:induction false} RunInv(c: Config, r: seq<State>, i: nat)
    requires Run(c, r) && i < |r|
    ensures Inv(c, r[i])
  {
    hide Inv, Init, Next;
    if i == 0 {
      InvInit(c, r[0]);
    } else {
      RunInv(c, r, i - 1);
      assert Next(c, r[i - 1], r[i - 1 + 1]);
      InvNext(c, r[i - 1], r[i]);
    }
  }

  // Nothing is taken back: both maps only grow, and so do the answers.
  lemma {:induction false} RunGrows(c: Config, r: seq<State>, i: nat, j: nat)
    requires Run(c, r) && i <= j < |r|
    ensures Grown(r[i], r[j])
    decreases j - i
  {
    hide Inv, Init, Next;
    if i < j {
      RunGrows(c, r, i, j - 1);
      RunInv(c, r, j - 1);
      assert Next(c, r[j - 1], r[j - 1 + 1]);
      InvNext(c, r[j - 1], r[j]);
    }
  }

  /* ---- Symbols and strings ---- */

  // No string is ever given two symbols, not even by two threads that race for it.
  lemma OneSymbolEach(c: Config, r: seq<State>, i: nat, x: Sym, y: Sym)
    requires Run(c, r) && i < |r| && x in r[i].names && y in r[i].names && r[i].names[x] == r[i].names[y]
    ensures x == y
  {
    RunInv(c, r, i);
    var s := r[i];
    assert Minted(s, x) && Minted(s, y);
    var t, u := SlotOf(x), SlotOf(y);
    assert Compatible(c, s, t, u) && Compatible(c, s, u, t) && ThreadLock(s, s.pc[t]) && ThreadLock(s, s.pc[u]);
  }

  // A symbol that can be seen already reads back as its string, at once and for ever, and `get_bytes`
  // does not turn it down.
  lemma VisibleResolves(c: Config, r: seq<State>, i: nat, j: nat, b: Bytes)
    requires Run(c, r) && i <= j < |r| && b in r[i].toSymbol
    ensures var y := r[i].toSymbol[b];
            GetBytes(r[j], y) == Some(b) && SlotOf(y) < MAX_WRITER_THREADS
  {
    RunInv(c, r, i);
    RunInv(c, r, j);
    RunGrows(c, r, i, j);
    var y := r[i].toSymbol[b];
    assert Minted(r[j], y);
    GetBytesIs(r[j], y);
  }

  // The bytes behind a published symbol are never written again: its region stays inside the
  // slab, before the write position, and apart from every other published region.
  lemma NeverOverwritten(c: Config, r: seq<State>, i: nat, j: nat, y: Sym)
    requires Run(c, r) && i <= j < |r| && y in r[i].toBytes
    ensures y in r[i].names && forall z | z in r[j].toBytes :: z in r[j].names
    ensures var p, b := r[i].toBytes[y], r[i].names[y];
            && p.slab in r[j].mem && Backs(r[j].mem[p.slab].data, p.off, b)
            && End(p, b) <= r[j].mem[p.slab].writePos <= |r[j].mem[p.slab].data|
            && forall z | z in r[j].toBytes && z != y :: Apart(p, b, r[j].toBytes[z], r[j].names[z])
  {
    RunInv(c, r, i);
    RunInv(c, r, j);
    RunGrows(c, r, i, j);
    hide LockInv, ThreadMem, Behind, Apart, Backs, Record, Minted, ThreadSym, Run;
    assert Published(r[j], y);
  }

  /* ---- Answers ---- */

  // All the answers of a run agree, whoever asked and when: equal strings exactly for equal symbols.
  lemma AnswersAgree(c: Config, r: seq<State>, i: nat, j: nat, a: Answer, d: Answer)
    requires Run(c, r) && i < |r| && j < |r| && a in r[i].answers && d in r[j].answers && a.SymOf?
    ensures d.SymOf? ==> (a.text == d.text <==> a.sym == d.sym)
    ensures d.BytesOf? && d.sym == a.sym && d.found.Some? ==> d.found.value == a.text
  {
    hide Inv, Run;
    var k := if i <= j then j else i;
    RunGrows(c, r, i, k);
    RunGrows(c, r, j, k);
    RunInv(c, r, k);
    Prefix(r[i].answers, r[k].answers, a);
    Prefix(r[j].answers, r[k].answers, d);
    StateAgrees(c, r[k], a, d);
  }

  lemma StateAgrees(c: Config, s: State, a: Answer, d: Answer)
    requires Inv(c, s) && a in s.answers && d in s.answers && a.SymOf?
    ensures d.SymOf? ==> (a.text == d.text <==> a.sym == d.sym)
    ensures d.BytesOf? && d.sym == a.sym && d.found.Some? ==> d.found.value == a.text
  {
    hide MemInv, LockInv, Minted, ThreadSym;
    assert AnswerOk(s, a) && AnswerOk(s, d);
  }

  lemma Prefix<T>(s: seq<T>, s': seq<T>, x: T)
    requires s <= s' && x in s
    ensures x in s'
  {
    var i :| 0 <= i < |s| && s[i] == x;
    assert s'[i] == x;
  }

  // Once a symbol has been answered, no later answer says that the string or the symbol is unknown.
  lemma NeverForgotten(c: Config, r: seq<State>, i: nat, m: nat, n: nat)
    requires Run(c, r) && i < |r| && m < n < |r[i].answers| && r[i].answers[m].SymOf?
    ensures r[i].answers[n] != NoSym(r[i].answers[m].text)
    ensures r[i].answers[n] != BytesOf(r[i].answers[m].sym, None)
  {
    RunInv(c, r, i);
  }

  /* ---- The panic of `get_bytes` ---- */

  // The only step into a panic is the guard of `get_bytes` on a symbol whose third byte is 128.
  lemma PanicStep(c: Config, s: State, s': State, t: nat)
    requires Inv(c, s) && t in s.pc && Next(c, s, s')
    ensures t in s'.pc
    ensures forall y :: s'.pc[t] == Panicked(y) <==>
      s.pc[t] == Panicked(y) || (s.pc[t] == GotSym(y) && SlotOf(y) == MAX_WRITER_THREADS && s'.pc[t] != GotSym(y))
  {
    hide Inv, SlotOf, Call, Moves;
    var u :| u in s.pc && (Call(s, s', u) || Moves(c, s, s', u));
    if Moves(c, s, s', u) {
      InvMoves(c, s, s', u);
      PanicMove(c, s, s', u);
    } else {
      CallEffect(s, s', u);
    }
  }

  lemma PanicMove(c: Config, s: State, s': State, t: nat)
    requires t in s.pc && Moves(c, s, s', t)
    ensures t in s'.pc && s'.pc[t] != s.pc[t] && !s.pc[t].Panicked?
    ensures forall y :: s'.pc[t] == Panicked(y) <==> s.pc[t] == GotSym(y) && SlotOf(y) == MAX_WRITER_THREADS
  {
    hide SlotOf, AcquireRead, ReadBucket, WriteEagerly, AcquireBucket, Recheck, UseEager, WriteFirst, WriteLate,
         TakeNumber, AcquireBytes, InsertBytes, InsertSymbol, AdvanceLast, Finish, AcquireReadBytes, ReadBytes;
    if !GuardSlot(s, s', t) {
      if id :| WriteFirst(s, s', t, id) || WriteLate(s, s', t, id) {
        WritingMove(s, s', t, id);
      } else {
        LookingMove(c, s, s', t);
        InsertingMove(s, s', t);
      }
    }
  }

  predicate Unpanicked(s: State, s': State, t: nat)
    requires t in s.pc
  {
    t in s'.pc && s'.pc[t] != s.pc[t] && !s.pc[t].Panicked? && !s'.pc[t].Panicked? && !s.pc[t].GotSym?
  }

  lemma WritingMove(s: State, s': State, t: nat, id: nat)
    requires t in s.pc && (WriteFirst(s, s', t, id) || WriteLate(s, s', t, id))
    ensures Unpanicked(s, s', t)
  {
    hide WriteIn, NewSlab, HasRoom;
  }

  lemma LookingMove(c: Config, s: State, s': State, t: nat)
    requires t in s.pc
    ensures AcquireRead(c, s, s', t) || ReadBucket(s, s', t) || AcquireBucket(c, s, s', t) || Recheck(s, s', t) ==> Unpanicked(s, s', t)
    ensures UseEager(s, s', t) || AcquireReadBytes(s, s', t) || ReadBytes(s, s', t) ==> Unpanicked(s, s', t)
  {
    hide GetBytes, BucketHasReader, BucketHasWriter, SlotHasReader, SlotHasWriter, SlotOf;
  }

  lemma InsertingMove(s: State, s': State, t: nat)
    requires t in s.pc
    ensures WriteEagerly(s, s', t) || TakeNumber(s, s', t) || AcquireBytes(s, s', t) || InsertBytes(s, s', t) ==> Unpanicked(s, s', t)
    ensures InsertSymbol(s, s', t) || AdvanceLast(s, s', t) || Finish(s, s', t) ==> Unpanicked(s, s', t)
  {
    hide WriteIn, HasRoom, Restored, SlotHasReader, SlotOf;
  }

  // A thread has panicked exactly when it called `get_bytes` on a symbol whose third byte is 128, and
  // has gone on since.
  lemma {:induction false} PanicIff(c: Config, r: seq<State>, i: nat, t: nat, y: Sym)
    requires Run(c, r) && i < |r| && t in c.threads
    ensures t in r[i].pc
    ensures r[i].pc[t] == Panicked(y) <==>
      && SlotOf(y) == MAX_WRITER_THREADS && r[i].pc[t] != GotSym(y)
      && exists k | 0 <= k < i :: t in r[k].pc && r[k].pc[t] == GotSym(y)
  {
    hide Inv, Init, Next, SlotOf;
    if i == 0 {
      StartsIdle(c, r[0], t);
    } else {
      PanicIff(c, r, i - 1, t, y);
      RunInv(c, r, i - 1);
      assert Next(c, r[i - 1], r[i - 1 + 1]);
      PanicStep(c, r[i - 1], r[i], t);
      if k :| 0 <= k < i && t in r[k].pc && r[k].pc[t] == GotSym(y) {
        assert k == i - 1 || k < i - 1;
      }
    }
  }

  lemma StartsIdle(c: Config, s: State, t: nat)
    requires Init(c, s) && t in c.threads
    ensures t in s.pc && s.pc[t].Idle?
  {
  }

  // No symbol that was ever handed out makes a thread panic.
  lemma AnsweredNeverPanics(c: Config, r: seq<State>, i: nat, j: nat, t: nat, a: Answer)
    requires Run(c, r) && i < |r| && j < |r| && t in r[i].pc && a in r[j].answers && a.SymOf?
    ensures SlotOf(a.sym) < MAX_WRITER_THREADS && r[i].pc[t] != Panicked(a.sym)
  {
    hide MemInv, SlotOf, Compatible;
    RunInv(c, r, i);
    RunInv(c, r, j);
    assert AnswerOk(r[j], a) && Minted(r[j], a.sym);
    assert ThreadLock(r[i], r[i].pc[t]);
  }

  // The panic can be reached.
  lemma PanicReachable(c: Config, s: State, t: nat) returns (r: seq<State>)
    requires c.Valid() && Init(c, s) && t in c.threads
    ensures Run(c, r) && r[0] == s && |r| == 3 && t in r[2].pc && r[2].pc[t].Panicked?
  {
    hide Init, SlotOf;
    StartsIdle(c, s, t);
    var y := MAX_WRITER_THREADS * SYMBOLS_PER_SLOT;
    assert SlotOf(y) == MAX_WRITER_THREADS by {
      ThirdByte(y);
    }
    var s1 := Goto(s, t, GotSym(y));
    var s2 := Goto(s1, t, Panicked(y));
    r := [s, s1, s2];
    assert Call(s, s1, t) && GuardSlot(s1, s2, t);
    assert Moves(c, s1, s2, t);
    assert Next(c, r[0], r[1]) && Next(c, r[1], r[2]);
  }

  lemma ThirdByte(y: Sym)
    requires y == MAX_WRITER_THREADS * SYMBOLS_PER_SLOT
    ensures SlotOf(y) == MAX_WRITER_THREADS
  {
  }

  /* ---- No call is stuck ---- */

  predicate AtRest(p: Pc) {
    p.Idle? || p.Panicked?
  }

  // A thread that may still take a number has one left.
  ghost predicate Room(s: State) {
    forall t | t in s.pc && t in s.permits && Inserting(s.pc[t]) && Rank(s.pc[t]) >= 6 :: SlotOf(s.permits[t].nextSymbol + 1) == t
  }

  ghost predicate CanMove(c: Config, s: State, t: nat)
    requires t in s.pc
  {
    exists s' :: Moves(c, s, s', t)
  }

  lemma {:induction false} FreshId(ids: set<nat>) returns (id: nat)
    ensures id !in ids && forall x | x in ids :: x < id
  {
    if ids == {} {
      id := 0;
    } else {
      var x :| x in ids;
      var rest := FreshId(ids - {x});
      id := if x < rest then rest else x + 1;
      forall y | y in ids ensures y < id {
        assert y == x || y in ids - {x};
      }
    }
  }

  // A step that needs no lock is always possible.
  predicate NeedsNoLock(p: Pc) {
    !(AtRest(p) || p.Called? || p.Prepared? || p.Numbered? || p.WantBytes?)
  }

  lemma HoldingMoves(c: Config, s: State, t: nat)
    requires Inv(c, s) && t in s.pc && s.pc[t].Holding?
    ensures CanMove(c, s, t)
  {
    assert ThreadMem(s.mem, s.permits[t], t, s.pc[t]);
    hide Inv, ThreadMem, Put, Record, Registrable, SlotOf;
    var p := s.pc[t];
    var id := FreshId(s.mem.Keys);
    RecordFits(p.b);
    if p.eager.Some? {
      var s' := Goto(s, t, Backed(p.b, p.slab, p.eager.value.ptr));
      assert UseEager(s, s', t);
      assert Moves(c, s, s', t);
    } else if p.slab.None? {
      var s' := Goto(s, t, Backed(p.b, Some(id), Ptr(id, 0))).(
         permits := s.permits[t := s.permits[t].(start := Some(id), last := Some(id))],
         mem := s.mem[id := WriteIn(NewSlab(t, |p.b| + U64_BYTES), p.b)]);
      assert WriteFirst(s, s', t, id);
      assert Moves(c, s, s', t);
    } else {
      var last := p.slab.value;
      var slab := s.mem[last];
      var s' := if HasRoom(slab, p.b) then
         Goto(s, t, Backed(p.b, Some(last), Ptr(last, slab.writePos))).(mem := s.mem[last := WriteIn(slab, p.b)])
       else
         Goto(s, t, Backed(p.b, Some(last), Ptr(id, 0))).(
              mem := s.mem[last := slab.(next := Some(id))][id := WriteIn(NewSlab(t, |p.b| + U64_BYTES), p.b)]);
      assert WriteLate(s, s', t, id);
      assert Moves(c, s, s', t);
    }
  }

  lemma MissedMoves(c: Config, s: State, t: nat)
    requires Inv(c, s) && t in s.pc && s.pc[t].Missed?
    ensures CanMove(c, s, t)
  {
    assert ThreadSym(s, t, s.pc[t]);
    hide LockInv, SymInv, Put, Record, Registrable, SlotOf;
    var b, permit := s.pc[t].b, s.permits[t];
    RecordFits(b);
    var s' := if permit.start.Some? && permit.last.Some? && permit.last.value in s.mem && HasRoom(s.mem[permit.last.value], b) then
         var id := permit.last.value;
         var slab := s.mem[id];
         Goto(s, t, Prepared(b, permit.last, Some(Eager(Ptr(id, slab.writePos), slab)))).(mem := s.mem[id := WriteIn(slab, b)])
       else
         Goto(s, t, Prepared(b, permit.last, None));
    assert WriteEagerly(s, s', t);
    assert Moves(c, s, s', t);
  }

  lemma FreeMoves(c: Config, s: State, t: nat)
    requires Inv(c, s) && Room(s) && t in s.pc && NeedsNoLock(s.pc[t])
    ensures CanMove(c, s, t)
  {
    var p := s.pc[t];
    var permit := PermitOf(s, t);
    assert ThreadSym(s, t, p);
    assert p.Backed? || p.Cleaning? ==> t in s.permits;
    assert p.Backed? ==> SlotOf(permit.nextSymbol + 1) == t;
    hide Call, AcquireRead, WriteEagerly, AcquireBucket, UseEager, WriteFirst, WriteLate, AcquireBytes, AcquireReadBytes, Inv, SlotOf, Registrable, GetBytes, Restored, Room;
    match p
    case Reading(b, insert) =>
      var s' := if b in s.toSymbol then Answered(s, t, SymOf(b, s.toSymbol[b]))
                else if insert then Goto(s, t, Missed(b)) else Answered(s, t, NoSym(b));
      assert ReadBucket(s, s', t);
      assert Moves(c, s, s', t);
    case Missed(_) => MissedMoves(c, s, t);
    case Checking(b, slab, eager) =>
      var s' := if b in s.toSymbol then Goto(s, t, Cleaning(b, slab, eager, s.toSymbol[b])) else Goto(s, t, Holding(b, slab, eager));
      assert Recheck(s, s', t);
      assert Moves(c, s, s', t);
    case Holding(_, _, _) => HoldingMoves(c, s, t);
    case Backed(b, slab, ptr) =>
      var s' := Goto(s, t, Numbered(b, slab, ptr, permit.nextSymbol)).(
                  permits := s.permits[t := permit.(nextSymbol := permit.nextSymbol + 1)]);
      assert TakeNumber(s, s', t);
      assert Moves(c, s, s', t);
    case BytesHeld(b, slab, ptr, sym) =>
      var s' := Goto(s, t, BytesIn(b, slab, sym)).(toBytes := s.toBytes[sym := ptr], names := s.names[sym := b]);
      assert InsertBytes(s, s', t);
      assert Moves(c, s, s', t);
    case BytesIn(b, slab, sym) =>
      var s' := Goto(s, t, Cleaning(b, slab, None, sym)).(toSymbol := s.toSymbol[b := sym]);
      assert InsertSymbol(s, s', t);
      assert Moves(c, s, s', t);
    case Cleaning(b, slab, eager, sym) =>
      var moved := Goto(s, t, Advanced(b, eager, sym));
      var s' := if slab.Some? && slab.value in s.mem && s.mem[slab.value].next.Some?
                then moved.(permits := s.permits[t := permit.(last := s.mem[slab.value].next)]) else moved;
      assert AdvanceLast(s, s', t);
      assert Moves(c, s, s', t);
    case Advanced(b, eager, sym) =>
      var s' := Answered(s, t, SymOf(b, sym)).(mem := if eager.Some? then Restored(s.mem, eager.value) else s.mem);
      assert Finish(s, s', t);
      assert Moves(c, s, s', t);
    case GotSym(y) =>
      var s' := if SlotOf(y) > MAX_WRITER_THREADS then Answered(s, t, BytesOf(y, None))
                else if SlotOf(y) == MAX_WRITER_THREADS then Goto(s, t, Panicked(y)) else Goto(s, t, WantBytes(y));
      assert GuardSlot(s, s', t);
      assert Moves(c, s, s', t);
    case ReadingBytes(y) =>
      var s' := Answered(s, t, BytesOf(y, GetBytes(s, y)));
      assert ReadBytes(s, s', t);
      assert Moves(c, s, s', t);
  }

  // Waiting for a slot's map: its readers never wait.
  lemma NumberedMoves(c: Config, s: State, t: nat) returns (u: nat)
    requires Inv(c, s) && Room(s) && t in s.pc && s.pc[t].Numbered?
    ensures u in s.pc && CanMove(c, s, u)
  {
    hide Inv, SlotOf, Room;
    if SlotHasReader(s, t) {
      u :| u in s.pc && s.pc[u].ReadingBytes? && SlotOf(s.pc[u].sym) == t;
      FreeMoves(c, s, u);
    } else {
      u := t;
      var p := s.pc[t];
      var s' := Goto(s, t, BytesHeld(p.b, p.slab, p.ptr, p.sym));
      assert AcquireBytes(s, s', t);
      assert Moves(c, s, s', t);
    }
  }

  // Waiting for a bucket: its writer is moving, or waits for a slot's map.
  lemma BucketMoves(c: Config, s: State, t: nat) returns (u: nat)
    requires Inv(c, s) && Room(s) && t in s.pc && WritesBucket(s.pc[t])
    ensures u in s.pc && CanMove(c, s, u)
  {
    hide Inv, Room;
    if s.pc[t].Numbered? {
      u := NumberedMoves(c, s, t);
    } else {
      u := t;
      FreeMoves(c, s, t);
    }
  }

  // The lock order never deadlocks: unless every thread is at rest, some thread can move.
  lemma Progress(c: Config, s: State, t: nat) returns (u: nat)
    requires Inv(c, s) && Room(s) && t in s.pc && !AtRest(s.pc[t])
    ensures u in s.pc && CanMove(c, s, u)
  {
    hide Inv, Room, SlotOf;
    var p := s.pc[t];
    u := t;
    if (p.Called? || p.Prepared?) && BucketHasWriter(c, s, c.bucket(p.b)) {
      u :| u in s.pc && WritesBucket(s.pc[u]) && c.bucket(s.pc[u].b) == c.bucket(p.b);
      u := BucketMoves(c, s, u);
    } else if p.Called? {
      var s' := Goto(s, t, Reading(p.b, p.insert));
      assert AcquireRead(c, s, s', t);
      assert Moves(c, s, s', t);
    } else if p.Prepared? && BucketHasReader(c, s, c.bucket(p.b)) {
      u :| u in s.pc && s.pc[u].Reading? && c.bucket(s.pc[u].b) == c.bucket(p.b);
      FreeMoves(c, s, u);
    } else if p.Prepared? {
      var s' := Goto(s, t, Checking(p.b, p.slab, p.eager));
      assert AcquireBucket(c, s, s', t);
      assert Moves(c, s, s', t);
    } else if p.Numbered? {
      u := NumberedMoves(c, s, t);
    } else if p.WantBytes? {
      if SlotHasWriter(s, SlotOf(p.sym)) {
        u := SlotOf(p.sym);
        FreeMoves(c, s, u);
      } else {
        var s' := Goto(s, t, ReadingBytes(p.sym));
        assert AcquireReadBytes(s, s', t);
        assert Moves(c, s, s', t);
      }
    } else {
      FreeMoves(c, s, t);
    }
  }

  // The steps all calls in progress still have to take.
  function Work(s: State, n: nat): nat {
    if n == 0 then 0 else (if n - 1 in s.pc then Rank(s.pc[n - 1]) else 0) + Work(s, n - 1)
  }

  lemma {:induction false} WorkFalls(s: State, s': State, t: nat, n: nat)
    requires t in s.pc && Descends(s, s', t)
    ensures if t < n then Work(s', n) < Work(s, n) else Work(s', n) == Work(s, n)
  {
    if n > 0 {
      WorkFalls(s, s', t, n - 1);
    }
  }

  // Some call in progress takes a step.
  ghost predicate Advances(c: Config, s: State, s': State) {
    exists t | t in s.pc :: Moves(c, s, s', t)
  }

  // A stretch of a run in which no new call is made.
  ghost predicate Draining(c: Config, r: seq<State>) {
    && |r| > 0
    && forall i | 0 <= i < |r| - 1 :: Advances(c, r[i], r[i + 1])
  }

  // However the threads are scheduled, the calls in progress return after finitely many steps; `n`
  // bounds the numbers of the threads.
  lemma {:induction false} DrainingEnds(c: Config, r: seq<State>, i: nat, n: nat)
    requires Draining(c, r) && Inv(c, r[0]) && i < |r| && forall t | t in r[0].pc :: t < n
    ensures i + Work(r[i], n) <= Work(r[0], n)
    ensures Inv(c, r[i]) && forall t | t in r[i].pc :: t < n
  {
    hide Inv, Moves, Work;
    if i > 0 {
      DrainingEnds(c, r, i - 1, n);
      assert Advances(c, r[i - 1], r[i - 1 + 1]);
      var t :| t in r[i - 1].pc && Moves(c, r[i - 1], r[i], t);
      InvMoves(c, r[i - 1], r[i], t);
      WorkFalls(r[i - 1], r[i], t, n);
    }
  }
}
