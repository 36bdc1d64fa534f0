/** The folding sinks of the kernel: stateful folds whose result does not depend on arrival order. */
module Sinks {
  import opened Items
  import opened Terms
  import opened Encoding
  import opened Wrappers
  import opened Trees
  import opened Solutions
  import opened MostGeneral
  import opened Numbering
  import opened Variants
  import opened Generalisation
  import opened Envs
  import opened Memos
  import opened Unification
  import opened UnificationSteps
  import opened Application
  import opened AntiUnification
  import opened ExprUnification
  import opened UnificationReuse
  import opened Folds

  /* ---- AUSink ---- */

  datatype AuFinal = AuEmpty | AuValue(bytes: seq<byte>) | AuSlicePanic

  // (AU <expr>): the least general generalisation of everything sunk.
  class AUSink {
    var buf: array?<byte>
    var tmp: array?<byte>
    var last: Option<nat>   // None is `usize::MAX`
    ghost var seen: seq<Expr>
    ghost var acc: Expr

    ghost predicate Valid()
      reads this, buf, tmp
    {
      if buf == null then tmp == null && seen == []
      else
        && tmp != null && buf != tmp && buf.Length == tmp.Length
        && seen != [] && Closed(acc) && IsLggOf(TermOf(acc), seen)
        && At(buf[..], 0, One(acc))
        && last == if |seen| == 1 then None else Some(EncLen(One(acc)))
    }

    constructor ()
      ensures Valid() && seen == [] && buf == null
    {
      buf, tmp, last, seen, acc := null, null, None, [], Var(New);
    }

    // How the memo of `anti_unify` answers when `path` is sunk.
    ghost function MemoAnswer(path: seq<byte>, e: Expr, table: Table): Option<AuError>
      requires Valid() && Closed(e) && path == Enc(One(e))
      reads this, buf, tmp
    {
      if buf == null then None else
        EncodingAt(e);
        MemoFailure(table, Buffer(0, buf[..]), Buffer(1, path), acc, e)
    }

    // Whether the work list of `anti_unify` grows beyond `limit` when `e` is sunk.
    ghost predicate PilesUpWith(e: Expr, limit: nat)
      reads this
    {
      buf != null && PilesUp(One(Gen1(TermOf(acc), Side(e, 1))), 0, limit)
    }

    // `path` is the sunk path past its prefix. Both buffers have the length of the first path, and
    // that is always enough. The `unwrap` of the source panics where this fails.
    method Sink(path: seq<byte>, ghost e: Expr, table: Table, limit: Option<nat> := Some(AU_MAX_DEPTH))
        returns (failure: Option<AuError>)
      requires Valid() && Closed(e) && path == Enc(One(e)) && table.Valid()
      modifies this, buf, tmp
      ensures failure.None? ==> Valid() && seen == old(seen) + [e]
      ensures failure.None? && old(buf) == null ==> fresh(buf) && fresh(tmp)
      ensures failure.None? && old(buf) != null ==> {buf, tmp} == {old(buf), old(tmp)} && Fits(seen)
      ensures match failure
              case None => old(MemoAnswer(path, e, table)) == None && (limit.Some? ==> !old(PilesUpWith(e, limit.value)))
              case Some(TooManyVars) => old(seen) != [] && !Fits(old(seen) + [e])
              case Some(MaxDepth(_)) => limit.Some? && old(PilesUpWith(e, limit.value)) && limit.value < EncLen(One(e))
              case Some(Strayed) => old(MemoAnswer(path, e, table)) == Some(Strayed)
      ensures CollisionFree(table) ==> failure != Some(Strayed)
    {
      hide Enc, WF, IsLggOf, AntiUnifies, Closed, IsLgg, Abs, Number, Fits, CollisionFree, PilesUp, Gen1;
      EncodingAt(e);
      EncHasEncLen(One(e));
      if buf != null {
        ClosedHolds(buf[..], acc, 0);
        ClosedHolds(path, e, 1);
        CollisionFreeAnswer(Buffer(0, buf[..]), Buffer(1, path), acc, e, table);
        var r := AntiUnify(Buffer(0, buf[..]), Buffer(1, path), acc, e, table, limit);
        match r {
          case Err(f) =>
            if f == TooManyVars {
              TooManyStep(acc, seen, e);
            }
            return Some(f);
          case Ok(o) =>
            AtLen(buf[..], 0, One(acc));
            ghost var g := GeneralisedStep(acc, seen, e, o);
            for i := 0 to |o.bytes|
              modifies tmp
              invariant tmp[..i] == o.bytes[..i]
              invariant buf == old(buf) && tmp == old(tmp) && buf.Length == tmp.Length && buf != tmp
            {
              tmp[i] := o.bytes[i];
            }
            assert tmp[..|o.bytes|] == o.bytes;
            EncodedPrefix(tmp[..], g);
            buf, tmp := tmp, buf;
            last := Some(|o.bytes|);
            acc := g;
        }
      } else {
        buf := new byte[|path|](i requires 0 <= i < |path| => path[i]);
        tmp := new byte[|path|](i requires 0 <= i < |path| => path[i]);
        last := None;
        acc := e;
        assert buf[..] == path;
        LggOfOne(e);
      }
      seen := seen + [e];
      failure := None;
      assert [] + [e] == [e];
    }

    // The slice `buf[..last]` panics while `last` is unset, that is after exactly one expression.
    method Finalize() returns (r: AuFinal)
      requires Valid()
      modifies this`buf
      ensures r == AuEmpty <==> seen == []
      ensures r == AuSlicePanic <==> |seen| == 1
      ensures |seen| > 1 ==> r.AuValue? && AuResult(r.bytes, seen)
    {
      hide Enc, WF, IsLggOf, Closed, Abs;
      if buf == null {
        return AuEmpty;
      }
      var b := buf;
      buf := null;
      ResultAt(b[..], acc, seen);
      if last.None? || last.value > b.Length {
        return AuSlicePanic;
      }
      r := AuValue(b[..last.value]);
    }
  }

  ghost predicate AuResult(bytes: seq<byte>, seen: seq<Expr>) {
    exists g: AbsTerm :: IsLggOf(g, seen) && Encodes(bytes, g)
  }

  lemma ClosedHolds(b: seq<byte>, e: Expr, ptr: nat)
    requires Closed(e) && At(b, 0, One(e))
    ensures Holds(Buffer(ptr, b), e)
  {
  }

  lemma EncodingAt(e: Expr)
    requires Closed(e)
    ensures WF(One(e)) && At(Enc(One(e)), 0, One(e))
  {
  }

  lemma AtLen(b: seq<byte>, i: nat, es: Exprs)
    requires At(b, i, es)
    ensures i + EncLen(es) <= |b|
  {
    EncHasEncLen(es);
  }

  lemma EncodedPrefix(b: seq<byte>, e: Expr)
    requires WF(One(e)) && |Enc(One(e))| <= |b| && b[..|Enc(One(e))|] == Enc(One(e))
    ensures At(b, 0, One(e)) && EncLen(One(e)) == |Enc(One(e))|
  {
    EncHasEncLen(One(e));
  }

  lemma GeneralisedStep(acc: Expr, seen: seq<Expr>, e: Expr, o: AuOutput) returns (g: Expr)
    requires IsLggOf(TermOf(acc), seen) && AntiUnifies(o, Side(acc, 0), Side(e, 1))
    ensures Closed(g) && WF(One(g)) && o.bytes == Enc(One(g)) && IsLggOf(TermOf(g), seen + [e])
    ensures Fits(seen + [e])
  {
    g :| Closed(g) && o.bytes == Enc(One(g)) && NewVars(One(g)) <= 64 && IsLgg(TermOf(g), Side(acc, 0), Side(e, 1));
    LggStep(acc, seen, e, TermOf(g));
    FitsClosed(seen + [e], g);
  }

  lemma CollisionFreeAnswer(self: Buffer, other: Buffer, l: Expr, r: Expr, table: Table)
    requires Holds(self, l) && Holds(other, r)
    ensures CollisionFree(table) ==> MemoFailure(table, self, other, l, r) != Some(Strayed)
  {
    if CollisionFree(table) {
      InputSides(self, other, l, r);
      ClashesOfSides(Inputs(self, other));
      MetNothing();
      CollisionFreeNeverStrays(table, [], ClashesOf(Inputs(self, other)));
    }
  }

  lemma ResultAt(b: seq<byte>, acc: Expr, seen: seq<Expr>)
    requires At(b, 0, One(acc)) && Closed(acc) && IsLggOf(TermOf(acc), seen)
    ensures EncLen(One(acc)) <= |b| && AuResult(b[..EncLen(One(acc))], seen)
  {
    EncHasEncLen(One(acc));
    ClosedEncodes(acc, 0);
  }

  // A query: a new sink, every path sunk, then finalised. Each call of `anti_unify` has a hash table
  // of its own. Without the depth cap and without collisions, it completes exactly when no prefix
  // needs too many variables.
  method AuQuery(paths: seq<seq<byte>>, ghost es: seq<Expr>, tables: seq<Table>, limit: Option<nat>)
      returns (r: Result<AuFinal, AuError>)
    requires |paths| == |es| == |tables|
    requires forall i | 0 <= i < |es| :: Closed(es[i]) && paths[i] == Enc(One(es[i])) && tables[i].Valid()
    ensures match r
            case Ok(AuValue(bytes)) => |es| > 1 && AuCompletes(es) && AuResult(bytes, es)
            case Ok(AuEmpty) => es == []
            case Ok(AuSlicePanic) => |es| == 1
            case Err(TooManyVars) => !AuCompletes(es)
            case Err(MaxDepth(_)) => limit.Some? && exists e | e in es :: limit.value < EncLen(One(e))
            case Err(Strayed) => exists t | t in tables :: !CollisionFree(t)
    ensures limit.None? && (forall t | t in tables :: CollisionFree(t)) ==> (r.Ok? <==> AuCompletes(es))
  {
    hide Enc, WF, IsLggOf, Closed, Fits, CollisionFree, EncLen;
    var sink := new AUSink();
    assert es[..0] == [];
    for i := 0 to |paths|
      invariant fresh(sink) && sink.Valid() && sink.seen == es[..i]
      invariant sink.buf != null ==> fresh(sink.buf) && fresh(sink.tmp)
      invariant sink.buf == null <==> i == 0
      invariant forall k | 2 <= k <= i :: Fits(es[..k])
    {
      assert es[..i] + [es[i]] == es[..i + 1];
      var failure := sink.Sink(paths[i], es[i], tables[i], limit);
      if failure.Some? {
        assert tables[i] in tables && es[i] in es;
        return Err(failure.value);
      }
    }
    assert es[..|es|] == es;
    var final := sink.Finalize();
    r := Ok(final);
  }

  // Two queries over the same expressions that both complete give the same bytes, whatever the order.
  lemma AuOrder(s: seq<Expr>, t: seq<Expr>, a: seq<byte>, b: seq<byte>)
    requires multiset(s) == multiset(t)
    requires AuResult(a, s) && AuResult(b, t)
    ensures a == b
  {
    SameElements(s, t);
    var g: AbsTerm :| IsLggOf(g, s) && Encodes(a, g);
    var h: AbsTerm :| IsLggOf(h, t) && Encodes(b, h);
    LggOrderIrrelevant(g, h, s, t, a, b);
  }

  lemma SameElements<T>(s: seq<T>, t: seq<T>)
    requires multiset(s) == multiset(t)
    ensures forall x :: x in s <==> x in t
  {
    forall x
      ensures x in s <==> x in t
    {
      assert x in s <==> x in multiset(s);
      assert x in t <==> x in multiset(t);
    }
  }

  /* ---- USink ---- */

  // (U <expr>): the most general common instance of everything sunk.
  class USink {
    var buf: Option<seq<byte>>
    var tmp: Option<seq<byte>>
    var conflict: bool
    var lastLen: Option<nat>   // None is `usize::MAX`
    const iterations: Option<nat>
    const depth: Option<nat>
    ghost var seen: seq<Expr>
    ghost var acc: Expr
    ghost var capped: bool     // a cap of `unify`, or of the variable counters, was hit

    ghost predicate Valid()
      reads this
    {
      if capped then true
      else if conflict then forall h: AbsTerm :: !Specialises(h, seen)
      else if buf.None? then seen == []
      else
        && tmp.Some? && lastLen.Some?
        && seen != [] && Closed(acc) && IsMgciOf(TermOf(acc), seen)
        && lastLen.value <= |buf.value| && buf.value[..lastLen.value] == Enc(One(acc))
    }

    constructor (iterations: Option<nat> := Some(MAX_UNIFY_ITER), depth: Option<nat> := Some(APPLY_DEPTH))
      ensures Valid() && seen == [] && !capped
      ensures this.iterations == iterations && this.depth == depth
    {
      this.iterations, this.depth := iterations, depth;
      buf, tmp, conflict, lastLen := None, None, false, None;
      seen, acc, capped := [], Var(New), false;
    }

    // False when `apply` panics.
    method Sink(path: seq<byte>, ghost e: Expr) returns (ok: bool)
      requires Valid() && (capped ==> conflict) && Closed(e) && path == Enc(One(e))
      modifies this
      ensures ok ==> Valid() && seen == old(seen) + [e]
      ensures old(capped) ==> ok && capped && conflict
      ensures !ok ==>
        || (depth.Some? && ChainRunsOut(old(seen), e, path, iterations, depth.value))
        || !HasCommonInstance(old(seen) + [e]) || !InstanceFits(old(seen) + [e])
      ensures ok && !capped ==> InstanceFits(seen)
      ensures ok && capped ==>
        || old(capped)
        || (iterations.Some? && conflict && StepsRunOut(old(seen), e, path, iterations.value))
        || Overflows(seen)
    {
      hide Enc, WF, IsMgciOf, Closed, Abs, Number, IsMgu, InstanceFits, HasCommonInstance, StepsRunOut, ChainRunsOut, CapsOutcome, Overflows;
      ok := true;
      if conflict {
        if !capped {
          ConflictStays(seen, e);
          NoInstanceFits(seen + [e]);
        }
      } else if buf.Some? {
        EncodedAt(buf.value, lastLen.value, acc);
        ClosedHolds(buf.value, acc, 0);
        EncodingAt(e);
        ClosedHolds(path, e, 1);
        var r := UnifiesReuseState(Buffer(0, buf.value), Buffer(1, path), acc, e, iterations, depth);
        match r {
          case Err(Capped(f)) =>
            if f.TooDeep? {
              ChainRanOut(acc, seen, e, Buffer(0, buf.value), path, r, iterations, depth);
            } else {
              NoRoomForInstance(acc, seen, e, r, iterations, depth);
            }
            return false;
          case Err(Failed(failure)) =>
            conflict := true;
            if failure.MaxIter? {
              StepsRanOut(acc, seen, e, Buffer(0, buf.value), path, r, iterations, depth);
              capped := true;
            } else {
              MgciNone(acc, seen, e);
              NoInstanceFits(seen + [e]);
            }
          case Err(CycleFound) =>
            conflict := true;
            MgciNone(acc, seen, e);
            NoInstanceFits(seen + [e]);
          case Ok(out) =>
            lastLen := Some(|out|);
            ghost var g := UnifiedStep(acc, seen, e, out);
            buf, tmp := Some(out), buf;
            assert out[..|out|] == out;
            acc := g;
            capped := NewVars(One(g)) > MAX_LEVEL;
            if !capped {
              UnifiedClosed(g);
              InstanceFitsClosed(seen + [e], g);
            } else {
              OverflowsHere(g, seen + [e]);
            }
        }
      } else {
        buf, tmp := Some(path), Some([]);
        lastLen := Some(|path|);
        assert path[..|path|] == path;
        acc := e;
        MgciOfOne(e);
        assert [] + [e] == [e];
        InstanceFitsClosed([e], e);
      }
      seen := seen + [e];
    }

    method Finalize() returns (r: Option<seq<byte>>)
      requires Valid() && (capped ==> conflict)
      modifies this`buf
      ensures if capped then r == None else UResult(r, seen)
    {
      hide Enc, WF, IsMgciOf, Closed, Abs, Number;
      if conflict {
        return None;
      }
      match buf {
        case None => return None;
        case Some(b) =>
          buf := None;
          UnifiedResult(acc, seen);
          return Some(b[..lastLen.value]);
      }
    }
  }

  // The bytes of the most general common instance, or none when there is no common instance.
  ghost predicate UResult(r: Option<seq<byte>>, seen: seq<Expr>) {
    match r
    case Some(bytes) => seen != [] && exists g: AbsTerm :: IsMgciOf(g, seen) && Encodes(bytes, g)
    case None => seen == [] || forall h: AbsTerm :: !Specialises(h, seen)
  }

  // The common instance has more variables than a byte can count.
  ghost predicate Overflows(seen: seq<Expr>) {
    exists g: AbsTerm :: IsMgciOf(g, seen) && NewVars(Number(One(g), [])) > MAX_LEVEL
  }

  // Unifying what `seen` has in common with `e` takes more than `limit + 1` steps.
  ghost predicate StepsRunOut(seen: seq<Expr>, e: Expr, path: seq<byte>, limit: nat) {
    exists acc: Expr, self: Buffer ::
      && Holds(self, acc) && Holds(Buffer(1, path), e) && IsMgciOf(TermOf(acc), seen)
      && Start(self, Buffer(1, path)).Valid() && NeedsMore(Start(self, Buffer(1, path)), limit + 1)
  }

  // Unifying what `seen` has in common with `e` binds a chain of more than `limit` variables, which
  // takes as many variables in the two.
  ghost predicate ChainRunsOut(seen: seq<Expr>, e: Expr, path: seq<byte>, iterations: Option<nat>, limit: nat) {
    exists acc: Expr, self: Buffer ::
      && Holds(self, acc) && Holds(Buffer(1, path), e) && IsMgciOf(TermOf(acc), seen)
      && Start(self, Buffer(1, path)).Valid() && ChainTooLong(Start(self, Buffer(1, path)), iterations, Side(acc, 0), limit)
      && limit < NewVars(One(acc)) + NewVars(One(e))
  }

  lemma StepsRanOut(acc: Expr, seen: seq<Expr>, e: Expr, self: Buffer, path: seq<byte>, r: Result<seq<byte>, UnifyError>,
                    iterations: Option<nat>, depth: Option<nat>)
    requires Holds(self, acc) && Holds(Buffer(1, path), e) && IsMgciOf(TermOf(acc), seen)
    requires var start := Start(self, Buffer(1, path)); start.Valid() && CapsOutcome(r, start, acc, e, iterations, depth)
    requires r.Err? && r.error.Failed? && r.error.cause.MaxIter?
    ensures iterations.Some? && StepsRunOut(seen, e, path, iterations.value)
  {
    hide NeedsMore, ChainTooLong, Holds, IsMgciOf;
    assert r == Err(Failed(MaxIter(r.error.cause.iterations)));
  }

  lemma ChainRanOut(acc: Expr, seen: seq<Expr>, e: Expr, self: Buffer, path: seq<byte>, r: Result<seq<byte>, UnifyError>,
                    iterations: Option<nat>, depth: Option<nat>)
    requires Holds(self, acc) && Holds(Buffer(1, path), e) && IsMgciOf(TermOf(acc), seen)
    requires var start := Start(self, Buffer(1, path)); start.Valid() && CapsOutcome(r, start, acc, e, iterations, depth)
    requires r == Err(Capped(TooDeep))
    ensures depth.Some? && ChainRunsOut(seen, e, path, iterations, depth.value)
  {
    hide NeedsMore, ChainTooLong, Holds, IsMgciOf;
  }

  lemma OverflowsHere(g: Expr, seen: seq<Expr>)
    requires ClosedFrom(One(g), 0) && NewVars(One(g)) > MAX_LEVEL && IsMgciOf(TermOf(g), seen)
    ensures Overflows(seen)
  {
    AbsCons(g, Nil, 0, 0);
    NumberCanonical(One(g), 0, 0, []);
    assert NewVars(Number(One(TermOf(g)), [])) > MAX_LEVEL;
  }

  lemma ConflictStays(seen: seq<Expr>, e: Expr)
    requires forall h: AbsTerm :: !Specialises(h, seen)
    ensures forall h: AbsTerm :: !Specialises(h, seen + [e])
  {
    forall h: AbsTerm | Specialises(h, seen + [e])
      ensures false
    {
      assert forall x | x in seen :: x in seen + [e];
      assert Specialises(h, seen);
    }
  }

  lemma EncodedAt(b: seq<byte>, n: nat, e: Expr)
    requires Closed(e) && n <= |b| && b[..n] == Enc(One(e))
    ensures At(b, 0, One(e))
  {
  }

  lemma UnifiedStep(acc: Expr, seen: seq<Expr>, e: Expr, out: seq<byte>) returns (g: Expr)
    requires IsMgciOf(TermOf(acc), seen)
    requires exists mgu: Substitution :: IsMgu(Side(acc, 0), Side(e, 1), mgu) && Encodes(out, Subst1(mgu, Side(acc, 0)))
    ensures WF(One(g)) && out == Enc(One(g)) && ClosedFrom(One(g), 0)
    ensures IsMgciOf(TermOf(g), seen + [e])
  {
    var mgu: Substitution :| IsMgu(Side(acc, 0), Side(e, 1), mgu) && Encodes(out, Subst1(mgu, Side(acc, 0)));
    var t := Subst1(mgu, Side(acc, 0));
    MgciStep(acc, seen, e, mgu);
    g := EncodesVariant(t);
    MgciVariant(t, TermOf(g), seen + [e]);
  }

  lemma MgciVariant(t: AbsTerm, u: AbsTerm, seen: seq<Expr>)
    requires IsMgciOf(t, seen) && Instance(t, u) && Instance(u, t)
    ensures IsMgciOf(u, seen)
  {
    forall e | e in seen
      ensures Instance(TermOf(e), u)
    {
      InstanceTrans(TermOf(e), t, u);
    }
    forall h: AbsTerm | Specialises(h, seen)
      ensures Instance(u, h)
    {
      InstanceTrans(u, t, h);
    }
  }

  lemma UnifiedClosed(g: Expr)
    requires WF(One(g)) && ClosedFrom(One(g), 0) && NewVars(One(g)) <= MAX_LEVEL
    ensures Closed(g)
  {
  }

  lemma UnifiedResult(acc: Expr, seen: seq<Expr>)
    requires Closed(acc) && IsMgciOf(TermOf(acc), seen) && seen != []
    ensures WF(One(acc)) && UResult(Some(Enc(One(acc))), seen)
  {
    ClosedEncodes(acc, 0);
  }

  lemma NoInstanceFits(seen: seq<Expr>)
    requires forall h: AbsTerm :: !Specialises(h, seen)
    ensures InstanceFits(seen)
  {
  }

  lemma NoRoomForInstance(acc: Expr, seen: seq<Expr>, e: Expr, r: Result<seq<byte>, UnifyError>, iterations: Option<nat>, depth: Option<nat>)
    requires IsMgciOf(TermOf(acc), seen)
    requires r.Err? && r.error.Capped? && !r.error.failure.TooDeep? && UnifiesOutcome(r, Side(acc, 0), Side(e, 1), iterations, depth)
    ensures HasCommonInstance(seen + [e]) ==> !InstanceFits(seen + [e])
  {
    if h: AbsTerm :| Specialises(h, seen + [e]) {
      MgciLower(acc, seen, e, h);
      var th := CommonInstanceUnifies(acc, e, h);
      assert Unifies(th, (Side(acc, 0), Side(e, 1)));
      var mgu: Substitution :| IsMgu(Side(acc, 0), Side(e, 1), mgu);
      MgciStep(acc, seen, e, mgu);
      assert !WF(Number(One(Subst1(mgu, Side(acc, 0))), []));
    }
  }

  // A query: a new sink, every path sunk, then finalised; None when `apply_e` panics. Without the
  // caps, expressions that have a common instance are unified to the end exactly when no prefix leaves
  // the format. A run stopped by the iteration cap ends with no result, whether rightly or not.
  method UQuery(paths: seq<seq<byte>>, ghost es: seq<Expr>, iterations: Option<nat>, depth: Option<nat>)
      returns (r: Option<Option<seq<byte>>>)
    requires |paths| == |es|
    requires forall i | 0 <= i < |es| :: Closed(es[i]) && paths[i] == Enc(One(es[i]))
    requires forall k | 0 <= k <= |es| :: !Overflows(es[..k])
    ensures r.Some? ==>
      || (UResult(r.value, es) && UCompletes(es))
      || (r.value == None && iterations.Some? && SomeStepsRunOut(es, paths, iterations.value))
    ensures r.None? ==>
      || (depth.Some? && SomeChainRunsOut(es, paths, iterations, depth.value))
      || !HasCommonInstance(es) || !UCompletes(es)
    ensures iterations.None? && depth.None? && HasCommonInstance(es) ==> (r.Some? <==> UCompletes(es))
  {
    hide Enc, WF, IsMgciOf, Closed, InstanceFits, Overflows, HasCommonInstance, UResult, StepsRunOut, ChainRunsOut;
    var sink := new USink(iterations, depth);
    assert es[..0] == [];
    for i := 0 to |paths|
      invariant fresh(sink) && sink.Valid() && sink.seen == es[..i]
      invariant sink.iterations == iterations && sink.depth == depth
      invariant sink.capped ==> sink.conflict && iterations.Some? && SomeStepsRunOut(es, paths, iterations.value)
      invariant !sink.capped ==> forall k | 1 <= k <= i :: InstanceFits(es[..k])
    {
      assert es[..i] + [es[i]] == es[..i + 1];
      PrefixInstance(es, i + 1);
      var ok := sink.Sink(paths[i], es[i]);
      if !ok {
        return None;
      }
    }
    assert es[..|es|] == es;
    var out := sink.Finalize();
    r := Some(out);
  }

  // One of the expressions runs out of steps against what those before it have in common.
  ghost predicate SomeStepsRunOut(es: seq<Expr>, paths: seq<seq<byte>>, limit: nat)
    requires |paths| == |es|
  {
    exists k: nat :: k < |es| && StepsRunOut(es[..k], es[k], paths[k], limit)
  }

  ghost predicate SomeChainRunsOut(es: seq<Expr>, paths: seq<seq<byte>>, iterations: Option<nat>, limit: nat)
    requires |paths| == |es|
  {
    exists k: nat :: k < |es| && ChainRunsOut(es[..k], es[k], paths[k], iterations, limit)
  }

  lemma PrefixInstance(es: seq<Expr>, k: nat)
    requires k <= |es|
    ensures HasCommonInstance(es) ==> HasCommonInstance(es[..k])
  {
    if h: AbsTerm :| Specialises(h, es) {
      assert forall e | e in es[..k] :: e in es;
      assert Specialises(h, es[..k]);
    }
  }

  // Two streams of the same expressions, in any order, are unified to the same bytes or to none.
  lemma UOrder(s: seq<Expr>, t: seq<Expr>, a: Option<seq<byte>>, b: Option<seq<byte>>)
    requires multiset(s) == multiset(t)
    requires UResult(a, s) && UResult(b, t)
    ensures a == b
  {
    SameElements(s, t);
    assert forall h: AbsTerm :: Specialises(h, s) <==> Specialises(h, t);
    assert s == [] <==> t == [] by {
      assert |multiset(s)| == |multiset(t)|;
    }
    if a.Some? && b.Some? {
      var g: AbsTerm :| IsMgciOf(g, s) && Encodes(a.value, g);
      var h: AbsTerm :| IsMgciOf(h, t) && Encodes(b.value, h);
      MgciOrderIrrelevant(g, h, s, t, a.value, b.value);
    }
  }
}
