/** What a call of the interner ends with: the answer to what was asked, and for an inserting call the
    symbol of its string. */
module InterningAnswers {
  import opened Wrappers
  import opened Slabs
  import opened Interning
  import opened InterningSafety
  import opened InterningRuns

  // `get_sym`, `get_sym_or_insert` and `get_bytes`, with their argument.
  datatype Request = GetSym(text: Bytes) | GetSymOrInsert(text: Bytes) | GetBytesOf(sym: Sym)

  function RequestOf(p: Pc): Option<Request> {
    if p.Idle? then None
    else if !HasText(p) then Some(GetBytesOf(p.sym))
    else if Inserting(p) then Some(GetSymOrInsert(p.b))
    else Some(GetSym(p.b))
  }

  // `a` is what `q` asks for in state `s`. The symbol an inserting call returns is still to be found.
  predicate Fulfils(s: State, a: Answer, q: Request) {
    match q
    case GetSym(b) => a == if b in s.toSymbol then SymOf(b, s.toSymbol[b]) else NoSym(b)
    case GetSymOrInsert(b) => a.SymOf? && a.text == b
    case GetBytesOf(y) => a == BytesOf(y, if SlotOf(y) > MAX_WRITER_THREADS then None else GetBytes(s, y))
  }

  // The call of `t` in progress is for `q`.
  ghost predicate Asks(s: State, t: nat, q: Request) {
    t in s.pc && RequestOf(s.pc[t]) == Some(q)
  }

  // The call of `t` returns the answer to `q`.
  ghost predicate Answers(s: State, s': State, t: nat, q: Request) {
    t in s'.pc && s'.pc[t].Idle? && exists a :: s'.answers == s.answers + [a] && Fulfils(s, a, q)
  }

  // The call goes on with what it was asked, or returns the answer to it.
  ghost predicate Serves(s: State, s': State, t: nat, q: Request) {
    (Asks(s', t, q) && s'.answers == s.answers) || Answers(s, s', t, q)
  }

  // Numbers come from the counter of the permit and nowhere else.
  ghost predicate Counts(s: State, s': State, t: nat)
    requires t in s.pc && t in s'.pc
  {
    && s'.permits.Keys == s.permits.Keys
    && (forall u | u in s.permits :: s'.permits[u].nextSymbol >= s.permits[u].nextSymbol)
    && (Pending(s'.pc[t]).Some? ==>
          || Pending(s.pc[t]) == Pending(s'.pc[t])
          || (t in s.permits && s.permits[t].nextSymbol == Pending(s'.pc[t]).value))
    && (forall y | y in s'.toBytes :: y in s.toBytes || (Pending(s.pc[t]).Some? && Pending(s.pc[t]).value == y))
  }

  ghost predicate Steps(s: State, s': State, t: nat)
    requires t in s.pc
  {
    && t in s'.pc && RequestOf(s.pc[t]).Some?
    && Serves(s, s', t, RequestOf(s.pc[t]).value) && Counts(s, s', t)
  }

  lemma WritingSteps(s: State, s': State, t: nat, id: nat)
    requires t in s.pc && (WriteFirst(s, s', t, id) || WriteLate(s, s', t, id))
    ensures Steps(s, s', t)
  {
    hide WriteIn, NewSlab, HasRoom;
  }

  lemma AnsweredSteps(s: State, s': State, t: nat, a: Answer)
    requires t in s.pc && RequestOf(s.pc[t]).Some? && Fulfils(s, a, RequestOf(s.pc[t]).value)
    requires s'.pc == s.pc[t := Idle] && s'.answers == s.answers + [a]
    requires s'.permits == s.permits && s'.toBytes == s.toBytes
    ensures Steps(s, s', t)
  {
  }

  // A step that returns nothing, takes no number and publishes nothing.
  lemma QuietSteps(s: State, s': State, t: nat)
    requires t in s.pc && RequestOf(s.pc[t]).Some?
    requires t in s'.pc && RequestOf(s'.pc[t]) == RequestOf(s.pc[t])
    requires s'.answers == s.answers && s'.permits.Keys == s.permits.Keys && s'.toBytes == s.toBytes
    requires forall u | u in s.permits :: s'.permits[u].nextSymbol == s.permits[u].nextSymbol
    requires Pending(s'.pc[t]).Some? ==> Pending(s'.pc[t]) == Pending(s.pc[t])
    ensures Steps(s, s', t)
  {
  }

  lemma BucketSteps(c: Config, s: State, s': State, t: nat)
    requires t in s.pc && (AcquireRead(c, s, s', t) || AcquireBucket(c, s, s', t) || Recheck(s, s', t))
    ensures Steps(s, s', t)
  {
    hide Steps, Serves, Counts, BucketHasReader, BucketHasWriter;
    QuietSteps(s, s', t);
  }

  lemma SlotSteps(s: State, s': State, t: nat)
    requires t in s.pc && (UseEager(s, s', t) || AcquireBytes(s, s', t) || AcquireReadBytes(s, s', t))
    ensures Steps(s, s', t)
  {
    hide Steps, Serves, Counts, SlotHasReader, SlotHasWriter, SlotOf;
    QuietSteps(s, s', t);
  }

  lemma ReadingSteps(s: State, s': State, t: nat)
    requires t in s.pc
    ensures ReadBucket(s, s', t) ==> Steps(s, s', t)
  {
    hide Steps, Serves, Counts;
    if ReadBucket(s, s', t) {
      var p := s.pc[t];
      if p.insert && p.b !in s.toSymbol {
        QuietSteps(s, s', t);
      } else {
        AnsweredSteps(s, s', t, if p.b in s.toSymbol then SymOf(p.b, s.toSymbol[p.b]) else NoSym(p.b));
      }
    }
  }

  lemma SlotGuarded(c: Config, s: State, t: nat)
    requires Inv(c, s) && t in s.pc
    ensures s.pc[t].ReadingBytes? ==> SlotOf(s.pc[t].sym) < MAX_WRITER_THREADS
  {
    hide MemInv, SymInv, SlotOf, Compatible;
    assert ThreadLock(s, s.pc[t]);
  }

  lemma BytesSteps(c: Config, s: State, s': State, t: nat)
    requires Inv(c, s) && t in s.pc
    ensures GuardSlot(s, s', t) || ReadBytes(s, s', t) ==> Steps(s, s', t)
  {
    hide Steps, Serves, Counts, GetBytes, SlotOf, Inv;
    SlotGuarded(c, s, t);
    var y := if s.pc[t].GotSym? || s.pc[t].ReadingBytes? then s.pc[t].sym else 0;
    if GuardSlot(s, s', t) {
      if SlotOf(y) > MAX_WRITER_THREADS {
        AnsweredSteps(s, s', t, BytesOf(y, None));
      } else {
        QuietSteps(s, s', t);
      }
    }
    if ReadBytes(s, s', t) {
      AnsweredSteps(s, s', t, BytesOf(y, GetBytes(s, y)));
    }
  }

  lemma EagerSteps(s: State, s': State, t: nat)
    requires t in s.pc && (WriteEagerly(s, s', t))
    ensures Steps(s, s', t)
  {
    hide WriteIn, HasRoom, Steps, Serves, Counts;
    QuietSteps(s, s', t);
  }

  lemma AdvanceSteps(s: State, s': State, t: nat)
    requires t in s.pc && (AdvanceLast(s, s', t))
    ensures Steps(s, s', t)
  {
    hide Steps, Serves, Counts;
    QuietSteps(s, s', t);
  }

  lemma TakingSteps(s: State, s': State, t: nat)
    requires t in s.pc
    ensures TakeNumber(s, s', t) || InsertBytes(s, s', t) ==> Steps(s, s', t)
  {
    hide SlotOf;
  }

  lemma InsertingSteps(s: State, s': State, t: nat)
    requires t in s.pc
    ensures InsertSymbol(s, s', t) || Finish(s, s', t) ==> Steps(s, s', t)
  {
    hide Restored, Steps, Serves, Counts;
    if InsertSymbol(s, s', t) {
      QuietSteps(s, s', t);
    }
    if Finish(s, s', t) {
      AnsweredSteps(s, s', t, SymOf(s.pc[t].b, s.pc[t].sym));
    }
  }

  lemma MoveSteps(c: Config, s: State, s': State, t: nat)
    requires Inv(c, s) && t in s.pc && Moves(c, s, s', t)
    ensures Steps(s, s', t)
  {
    hide Inv, Steps, AcquireRead, ReadBucket, WriteEagerly, AcquireBucket, Recheck, UseEager, WriteFirst, WriteLate,
         TakeNumber, AcquireBytes, InsertBytes, InsertSymbol, AdvanceLast, Finish, GuardSlot, AcquireReadBytes, ReadBytes;
    if id :| WriteFirst(s, s', t, id) || WriteLate(s, s', t, id) {
      WritingSteps(s, s', t, id);
    } else {
      if AcquireRead(c, s, s', t) || AcquireBucket(c, s, s', t) || Recheck(s, s', t) {
        BucketSteps(c, s, s', t);
      } else if UseEager(s, s', t) || AcquireBytes(s, s', t) || AcquireReadBytes(s, s', t) {
        SlotSteps(s, s', t);
      } else if WriteEagerly(s, s', t) {
        EagerSteps(s, s', t);
      } else if AdvanceLast(s, s', t) {
        AdvanceSteps(s, s', t);
      } else {
        ReadingSteps(s, s', t);
        BytesSteps(c, s, s', t);
        TakingSteps(s, s', t);
        InsertingSteps(s, s', t);
      }
    }
  }

  /* ---- Every call that returns has answered what it was asked ---- */

  // A step of any thread, seen from the call of `t`.
  lemma StepServes(c: Config, s: State, s': State, t: nat, q: Request)
    requires Inv(c, s) && Next(c, s, s') && t in s.pc && RequestOf(s.pc[t]) == Some(q)
    ensures t in s'.pc
    ensures s'.pc[t] == s.pc[t] || Serves(s, s', t, q)
  {
    hide Inv, Call, Moves, Serves, Counts;
    var u :| u in s.pc && (Call(s, s', u) || Moves(c, s, s', u));
    if Moves(c, s, s', u) {
      InvMoves(c, s, s', u);
      MoveSteps(c, s, s', u);
    } else {
      CallEffect(s, s', u);
    }
  }

  // The call goes on from `i` to `j`.
  ghost predicate Goes(r: seq<State>, i: nat, j: nat, t: nat, q: Request) {
    i <= j < |r| && forall n | i <= n <= j :: Asks(r[n], t, q)
  }

  // The call goes on from `i` to `k`, and then returns with its answer.
  ghost predicate ReturnsAfter(r: seq<State>, i: nat, k: nat, t: nat, q: Request) {
    Goes(r, i, k, t, q) && k + 1 < |r| && Answers(r[k], r[k + 1], t, q)
  }

  lemma {:induction false} CallReturns(c: Config, r: seq<State>, i: nat, j: nat, t: nat, q: Request)
    requires forall n | 0 <= n < |r| - 1 :: Inv(c, r[n]) && Next(c, r[n], r[n + 1])
    requires i <= j < |r| && Asks(r[i], t, q)
    ensures Goes(r, i, j, t, q) || exists k: nat :: k < j && ReturnsAfter(r, i, k, t, q)
    decreases j
  {
    hide Inv, Next, RequestOf, Fulfils, GetBytes;
    if i < j {
      CallReturns(c, r, i, j - 1, t, q);
      assert Inv(c, r[j - 1]) && Next(c, r[j - 1], r[j - 1 + 1]);
      if Goes(r, i, j - 1, t, q) {
        assert Asks(r[j - 1], t, q);
        StepServes(c, r[j - 1], r[j], t, q);
        if !Asks(r[j], t, q) {
          assert ReturnsAfter(r, i, j - 1, t, q);
        }
      }
    }
  }

  lemma RunSteps(c: Config, r: seq<State>)
    requires Run(c, r)
    ensures forall n | 0 <= n < |r| - 1 :: Inv(c, r[n]) && Next(c, r[n], r[n + 1])
  {
    hide Inv, Next, Init;
    forall n | 0 <= n < |r| - 1
      ensures Inv(c, r[n]) && Next(c, r[n], r[n + 1])
    {
      RunInv(c, r, n);
    }
  }

  // In a run, the call in progress at `i` that has returned by `j` has answered what it was asked: an
  // inserting call with the symbol that its string has from then on, a lookup with the symbol of any
  // string that had one when it was called, and `get_bytes` with the string of any such symbol.
  lemma CallAnswered(c: Config, r: seq<State>, i: nat, j: nat, t: nat, q: Request) returns (k: nat, a: Answer)
    requires Run(c, r) && i <= j < |r| && Asks(r[i], t, q) && t in r[j].pc && r[j].pc[t].Idle?
    ensures i <= k < j && Goes(r, i, k, t, q) && t in r[k + 1].pc && r[k + 1].pc[t].Idle?
    ensures r[k + 1].answers == r[k].answers + [a] && a in r[j].answers
    ensures q.GetSymOrInsert? ==> a.SymOf? && a.text == q.text && q.text in r[j].toSymbol && r[j].toSymbol[q.text] == a.sym
    ensures q.GetSym? && q.text in r[i].toSymbol ==> a == SymOf(q.text, r[i].toSymbol[q.text])
    ensures q.GetBytesOf? && q.sym in r[i].toSymbol.Values ==>
      exists b | b in r[i].toSymbol :: r[i].toSymbol[b] == q.sym && a == BytesOf(q.sym, Some(b))
  {
    hide Inv, Next, Init, Run, GetBytes, SlotOf, RequestOf;
    RunSteps(c, r);
    CallReturns(c, r, i, j, t, q);
    assert !Asks(r[j], t, q) by {
      IdleAsksNothing(r[j], t, q);
    }
    k :| k < j && ReturnsAfter(r, i, k, t, q);
    a :| r[k + 1].answers == r[k].answers + [a] && Fulfils(r[k], a, q);
    RunGrows(c, r, i, k);
    RunGrows(c, r, k + 1, j);
    assert r[k + 1].answers[|r[k].answers|] == a;
    Prefix(r[k + 1].answers, r[j].answers, a);
    if q.GetSymOrInsert? {
      RunInv(c, r, j);
      AnswerHolds(c, r[j], a);
    }
    if q.GetBytesOf? && q.sym in r[i].toSymbol.Values {
      var b :| b in r[i].toSymbol && r[i].toSymbol[b] == q.sym;
      VisibleResolves(c, r, i, k, b);
    }
  }

  lemma IdleAsksNothing(s: State, t: nat, q: Request)
    requires t in s.pc && s.pc[t].Idle?
    ensures !Asks(s, t, q)
  {
  }

  lemma AnswerHolds(c: Config, s: State, a: Answer)
    requires Inv(c, s) && a in s.answers && a.SymOf?
    ensures a.text in s.toSymbol && s.toSymbol[a.text] == a.sym && a.sym in s.toBytes
  {
    hide MemInv, LockInv, Minted, ThreadSym;
    assert AnswerOk(s, a);
  }

  // When no new call is made and no step is left to take, every call has returned with its answer: no
  // inserting call ends without a symbol, however the threads were scheduled.
  lemma CallsEnd(c: Config, r: seq<State>, t: nat, q: Request) returns (k: nat, a: Answer)
    requires Draining(c, r) && Inv(c, r[0]) && Asks(r[0], t, q)
    requires q.GetBytesOf? ==> SlotOf(q.sym) != MAX_WRITER_THREADS
    requires var last := r[|r| - 1]; Room(last) && forall u | u in last.pc :: !CanMove(c, last, u)
    ensures k + 1 < |r| && Goes(r, 0, k, t, q) && t in r[k + 1].pc && r[k + 1].pc[t].Idle?
    ensures r[k + 1].answers == r[k].answers + [a] && Fulfils(r[k], a, q)
    ensures q.GetSymOrInsert? ==> q.text in r[k + 1].toSymbol && r[k + 1].toSymbol[q.text] == a.sym
  {
    hide Inv, Next, GetBytes, SlotOf, RequestOf, Room, CanMove, Moves;
    var n := FreshId(r[0].pc.Keys);
    forall m | 0 <= m < |r| - 1
      ensures Inv(c, r[m]) && Next(c, r[m], r[m + 1])
    {
      DrainingEnds(c, r, m, n);
      assert Advances(c, r[m], r[m + 1]);
      AdvancesNext(c, r[m], r[m + 1]);
    }
    var j := |r| - 1;
    DrainingEnds(c, r, j, n);
    CallReturns(c, r, 0, j, t, q);
    if Goes(r, 0, j, t, q) {
      assert Asks(r[j], t, q);
      NotAtRest(c, r[j], t, q);
      var u := Progress(c, r[j], t);
      assert false;
    }
    k :| k < j && ReturnsAfter(r, 0, k, t, q);
    a :| r[k + 1].answers == r[k].answers + [a] && Fulfils(r[k], a, q);
    if q.GetSymOrInsert? {
      DrainingEnds(c, r, k + 1, n);
      assert r[k + 1].answers[|r[k].answers|] == a;
      AnswerHolds(c, r[k + 1], a);
    }
  }

  lemma AdvancesNext(c: Config, s: State, s': State)
    requires Advances(c, s, s')
    ensures Next(c, s, s')
  {
    hide Moves, Call;
  }

  lemma NotAtRest(c: Config, s: State, t: nat, q: Request)
    requires Inv(c, s) && Asks(s, t, q) && (q.GetBytesOf? ==> SlotOf(q.sym) != MAX_WRITER_THREADS)
    ensures !AtRest(s.pc[t])
  {
    hide MemInv, SymInv, SlotOf, Compatible, Registrable;
    assert ThreadLock(s, s.pc[t]);
  }

  /* ---- Symbol 0 is left for the De Bruijn variable introduction ---- */

  ghost predicate NoZero(s: State) {
    && (forall t | t in s.permits :: s.permits[t].nextSymbol > 0)
    && (forall t | t in s.pc :: Pending(s.pc[t]).Some? ==> Pending(s.pc[t]).value > 0)
    && 0 !in s.toBytes
  }

  lemma StepNoZero(c: Config, s: State, s': State)
    requires Inv(c, s) && Next(c, s, s') && NoZero(s)
    ensures NoZero(s')
  {
    hide Inv, Call, Moves, Serves, RequestOf;
    var u :| u in s.pc && (Call(s, s', u) || Moves(c, s, s', u));
    if Moves(c, s, s', u) {
      InvMoves(c, s, s', u);
      MoveSteps(c, s, s', u);
    } else {
      CallEffect(s, s', u);
    }
  }

  lemma {:induction false} RunNoZero(c: Config, r: seq<State>, i: nat)
    requires Run(c, r) && i < |r|
    ensures NoZero(r[i])
  {
    hide Inv, Next, NoZero;
    if i == 0 {
      InitNoZero(c, r[0]);
    } else {
      RunNoZero(c, r, i - 1);
      RunInv(c, r, i - 1);
      assert Next(c, r[i - 1], r[i - 1 + 1]);
      StepNoZero(c, r[i - 1], r[i]);
    }
  }

  lemma InitNoZero(c: Config, s: State)
    requires Init(c, s)
    ensures NoZero(s)
  {
    forall t | t in s.permits
      ensures s.permits[t].nextSymbol > 0
    {
      if t > 0 {
        assert t * SYMBOLS_PER_SLOT >= SYMBOLS_PER_SLOT;
      }
    }
  }

  // No run hands out the symbol 0, nor stores a string under it.
  lemma ZeroNeverHandedOut(c: Config, r: seq<State>, i: nat, a: Answer)
    requires Run(c, r) && i < |r|
    ensures 0 !in r[i].toBytes && (forall b | b in r[i].toSymbol :: r[i].toSymbol[b] != 0)
    ensures a in r[i].answers && a.SymOf? ==> a.sym != 0
  {
    hide Run, Inv, MemInv, LockInv, Minted, ThreadSym, NoRetreat, AnswerOk;
    RunNoZero(c, r, i);
    RunInv(c, r, i);
    InvParts(c, r[i]);
    if a in r[i].answers && a.SymOf? {
      AnswerHolds(c, r[i], a);
    }
  }
}
