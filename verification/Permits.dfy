/** Write permits: which threads may hold the same permit slot at the same time.

    A thread remembers its slot for ever, and takes it again without looking whether it was handed to
    another thread in the meantime. */
module Permits {
  import opened Interning
  import opened InterningRuns

  // The thread stored in each slot that is taken, the slot each thread remembers, and how many permits
  // each thread has alive.
  datatype Desk = Desk(owner: map<nat, nat>, index: map<nat, nat>, live: map<nat, nat>)

  function Live(s: Desk, t: nat): nat {
    if t in s.live then s.live[t] else 0
  }

  // `try_aquire_permission` by a thread without a slot: the first free one.
  ghost predicate First(s: Desk, s': Desk, t: nat, slot: nat) {
    && t !in s.index && slot < MAX_WRITER_THREADS && slot !in s.owner && (forall k: nat | k < slot :: k in s.owner)
    && s' == Desk(s.owner[slot := t], s.index[t := slot], s.live[t := Live(s, t) + 1])
  }

  // `try_aquire_permission` by a thread that remembers a slot.
  ghost predicate Again(s: Desk, s': Desk, t: nat) {
    t in s.index && s' == s.(live := s.live[t := Live(s, t) + 1])
  }

  // Dropping a permit; with the last one the slot is free.
  ghost predicate Drop(s: Desk, s': Desk, t: nat) {
    && t in s.index && Live(s, t) > 0
    && s' == s.(live := s.live[t := Live(s, t) - 1], owner := if Live(s, t) == 1 then s.owner - {s.index[t]} else s.owner)
  }

  ghost predicate Acts(s: Desk, s': Desk, t: nat) {
    (exists slot: nat :: First(s, s', t, slot)) || Again(s, s', t) || Drop(s, s', t)
  }

  ghost predicate Step(s: Desk, s': Desk) {
    exists t: nat :: Acts(s, s', t)
  }

  // A thread takes its slot again after it had dropped its last permit.
  ghost predicate Returns(s: Desk, s': Desk) {
    exists t: nat :: Again(s, s', t) && Live(s, t) == 0
  }

  // No two threads hold the same slot.
  ghost predicate Exclusive(s: Desk) {
    forall t: nat, u: nat | t in s.index && u in s.index && t != u && Live(s, t) > 0 && Live(s, u) > 0 :: s.index[t] != s.index[u]
  }

  ghost predicate Tidy(s: Desk) {
    && (forall t: nat | t in s.index :: s.index[t] < MAX_WRITER_THREADS)
    && (forall t: nat | Live(s, t) > 0 :: t in s.index && s.index[t] in s.owner && s.owner[s.index[t]] == t)
    && (forall slot: nat | slot in s.owner :: Live(s, s.owner[slot]) > 0 && s.index[s.owner[slot]] == slot)
  }

  ghost predicate Walk(r: seq<Desk>) {
    |r| > 0 && forall i | 0 <= i < |r| - 1 :: Step(r[i], r[i + 1])
  }

  const CLOSED_DESK := Desk(map[], map[], map[])

  lemma TidyStep(s: Desk, s': Desk)
    requires Tidy(s) && Step(s, s') && !Returns(s, s')
    ensures Tidy(s')
  {
    hide Tidy, First, Again, Drop;
    var t: nat :| Acts(s, s', t);
    if slot: nat :| First(s, s', t, slot) {
      TidyFirst(s, s', t, slot);
    } else if Again(s, s', t) {
      TidyAgain(s, s', t);
    } else {
      TidyDrop(s, s', t);
    }
  }

  lemma TidyFirst(s: Desk, s': Desk, t: nat, slot: nat)
    requires Tidy(s) && First(s, s', t, slot)
    ensures Tidy(s')
  {
    assert Live(s, t) == 0;
  }

  lemma TidyAgain(s: Desk, s': Desk, t: nat)
    requires Tidy(s) && Again(s, s', t) && Live(s, t) > 0
    ensures Tidy(s')
  {
    forall u: nat ensures Live(s', u) > 0 <==> Live(s, u) > 0 {
    }
  }

  lemma TidyDrop(s: Desk, s': Desk, t: nat)
    requires Tidy(s) && Drop(s, s', t)
    ensures Tidy(s')
  {
    forall u: nat ensures u != t ==> Live(s', u) == Live(s, u) {
    }
  }

  // While no thread returns, every slot is held by one thread at most.
  lemma {:induction false} ExclusiveWhileNoneReturns(r: seq<Desk>, i: nat)
    requires Walk(r) && r[0] == CLOSED_DESK && i < |r|
    requires forall j | 0 <= j < i :: !Returns(r[j], r[j + 1])
    ensures Tidy(r[i]) && Exclusive(r[i])
  {
    hide Step, Returns, Tidy;
    if i > 0 {
      ExclusiveWhileNoneReturns(r, i - 1);
      assert Step(r[i - 1], r[i - 1 + 1]) && !Returns(r[i - 1], r[i - 1 + 1]);
      TidyStep(r[i - 1], r[i]);
    } else {
      StartsTidy();
    }
    TidyExclusive(r[i]);
  }

  lemma StartsTidy()
    ensures Tidy(CLOSED_DESK)
  {
  }

  lemma TidyExclusive(s: Desk)
    requires Tidy(s)
    ensures Exclusive(s)
  {
  }

  // Once a thread has returned, the slots can always come to be shared, by newcomers alone.
  lemma SharedAfterReturn(s: Desk, s': Desk) returns (r: seq<Desk>)
    requires Tidy(s) && Step(s, s') && Returns(s, s')
    ensures Walk(r) && r[0] == s' && !Exclusive(r[|r| - 1])
  {
    var t: nat :| Again(s, s', t) && Live(s, t) == 0;
    var slot := s.index[t];
    if slot in s.owner {
      r := [s'];
      var u := s.owner[slot];
      assert u != t && Live(s', u) > 0 && Live(s', t) > 0 && s'.index[u] == slot;
    } else {
      r := Newcomers(s', t);
    }
  }

  // Newcomers take the free slots in order until one takes the slot that `t` holds unrecorded.
  lemma {:induction false} Newcomers(s: Desk, t: nat) returns (r: seq<Desk>)
    requires t in s.index && Live(s, t) > 0 && s.index[t] < MAX_WRITER_THREADS && s.index[t] !in s.owner
    ensures Walk(r) && r[0] == s && !Exclusive(r[|r| - 1])
    decreases Free(s, s.index[t])
  {
    var slot := FirstFree(s, s.index[t]);
    var u := FreshId(s.index.Keys + s.live.Keys);
    var s' := Desk(s.owner[slot := u], s.index[u := slot], s.live[u := Live(s, u) + 1]);
    assert First(s, s', u, slot);
    assert Acts(s, s', u);
    assert u !in s.index && u !in s.live;
    assert t != u && Live(s', t) == Live(s, t) && Live(s', u) == 1;
    if slot == s.index[t] {
      r := [s, s'];
      assert t != u && Live(s', u) > 0 && s'.index[t] == s'.index[u];
    } else {
      FewerFree(s, s', slot, s.index[t]);
      var tl := Newcomers(s', t);
      r := [s] + tl;
      forall i | 0 <= i < |r| - 1
        ensures Step(r[i], r[i + 1])
      {
        assert i > 0 ==> Step(tl[i - 1], tl[i - 1 + 1]);
      }
    }
  }

  function Free(s: Desk, n: nat): set<nat> {
    set k: nat | k < n && k !in s.owner
  }

  lemma FewerFree(s: Desk, s': Desk, slot: nat, n: nat)
    requires slot < n && slot !in s.owner && s'.owner.Keys == s.owner.Keys + {slot}
    ensures Free(s', n) < Free(s, n)
  {
    assert slot in Free(s, n) && slot !in Free(s', n);
  }

  lemma {:induction false} FirstFree(s: Desk, n: nat) returns (slot: nat)
    requires n !in s.owner
    ensures slot <= n && slot !in s.owner && forall k: nat | k < slot :: k in s.owner
  {
    if k: nat :| k < n && k !in s.owner {
      slot := FirstFree(s, k);
    } else {
      slot := n;
    }
  }
}
