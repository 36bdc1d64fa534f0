/** `Expr::_unify`: unify two expressions and write their most general common instance. */
module ExprUnification {
  import opened Items
  import opened Sets
  import opened Terms
  import opened Encoding
  import opened Wrappers
  import opened Trees
  import opened Solutions
  import opened Resolution
  import opened MostGeneral
  import opened Numbering
  import opened Rendering
  import opened Envs
  import opened Depths
  import opened Unification
  import opened UnificationSteps
  import opened Application
  import opened Variants

  datatype UnifyError =
    | Failed(cause: UnifyResult)  // `unify` failed
    | CycleFound                    // `unify` succeeded but `apply` met a cycle
    | Capped(failure: ApplyResult)  // `apply` gave up

  // `e` is a closed expression whose variables can be counted at the start of the buffer.
  ghost predicate Holds(b: Buffer, e: Expr) {
    At(b.bytes, 0, One(e)) && ClosedFrom(One(e), 0) && NewVars(One(e)) <= MAX_LEVEL
  }

  // The term of the left input (space 0) and of the right input (space 1).
  ghost function Side(e: Expr, n: nat): AbsTerm {
    Abs1(e, n, 0)
  }

  ghost predicate UnifiesOutcome(r: Result<seq<byte>, UnifyError>, l: AbsTerm, t: AbsTerm,
                                 iterations: Option<nat>, depth: Option<nat>) {
    match r
    case Ok(out) =>
      exists mgu: Substitution :: IsMgu(l, t, mgu) && Encodes(out, Subst1(mgu, l)) && Subst1(mgu, l) == Subst1(mgu, t)
    case Err(Failed(MaxIter(_))) => iterations.Some?
    case Err(Failed(_)) => !Unifiable(l, t)
    case Err(CycleFound) => !Unifiable(l, t)
    case Err(Capped(TooDeep)) => depth.Some?
    case Err(Capped(_)) =>
      // the common instance does not fit the format
      && (Unifiable(l, t) ==> exists mgu: Substitution :: IsMgu(l, t, mgu))
      && (forall mgu: Substitution | IsMgu(l, t, mgu) :: !WF(Number(One(Subst1(mgu, l)), [])))
  }

  /* ---- The caps ---- */

  // Where `unify` starts.
  function Start(self: Buffer, other: Buffer): Moment {
    Moment(map[], [(ExprEnv(0, 0, 0, self), ExprEnv(1, 0, 0, other))], {})
  }

  lemma StartValid(self: Buffer, other: Buffer, l: Expr, r: Expr)
    requires Holds(self, l) && Holds(other, r)
    ensures Start(self, other).Valid()
  {
    EnvIsDen(ExprEnv(0, 0, 0, self), l);
    EnvIsDen(ExprEnv(1, 0, 0, other), r);
  }

  // In what `unify` binds, a chain of more than `depth` different variables starts in `l`.
  ghost predicate ChainTooLong(start: Moment, iterations: Option<nat>, l: AbsTerm, depth: nat)
    requires start.Valid()
  {
    exists u: EnvBindings ::
      && Ends(start, iterations, Unified(u)) && (forall x | x in u :: ValidEnv(u[x]))
      && HasChain(DenBindings(u), One(l), depth)
  }

  // The iteration cap is hit exactly when more steps than that are needed; the depth cap only by a
  // chain of bindings that is too long, which takes more variables than the depth.
  ghost predicate CapsOutcome(result: Result<seq<byte>, UnifyError>, start: Moment, l: Expr, r: Expr,
                              iterations: Option<nat>, depth: Option<nat>)
    requires start.Valid()
  {
    && (forall n :: result == Err(Failed(MaxIter(n))) <==>
          iterations.Some? && n == iterations.value + 1 && NeedsMore(start, iterations.value + 1))
    && (result == Err(Capped(TooDeep)) ==>
          && depth.Some? && ChainTooLong(start, iterations, Side(l, 0), depth.value)
          && depth.value < NewVars(One(l)) + NewVars(One(r)))
    && (result.Ok? && depth.Some? ==> !ChainTooLong(start, iterations, Side(l, 0), depth.value))
  }

  lemma FailedCaps(start: Moment, l: Expr, r: Expr, iterations: Option<nat>, depth: Option<nat>, u: UnifyResult)
    requires start.Valid() && Ends(start, iterations, u) && !u.Unified?
    ensures CapsOutcome(Err(Failed(u)), start, l, r, iterations, depth)
  {
    hide After;
    if iterations.Some? && NeedsMore(start, iterations.value + 1) {
      EndsCapped(start, iterations.value, After(start, iterations.value + 1).value);
      EndsOnce(start, iterations, u, MaxIter(iterations.value + 1));
    }
  }

  lemma NotMaxIter(start: Moment, iterations: Option<nat>, u: UnifyResult)
    requires start.Valid() && Ends(start, iterations, u) && u.Unified?
    ensures iterations.Some? ==> !NeedsMore(start, iterations.value + 1)
  {
    hide After;
    if iterations.Some? && NeedsMore(start, iterations.value + 1) {
      EndsCapped(start, iterations.value, After(start, iterations.value + 1).value);
      EndsOnce(start, iterations, u, MaxIter(iterations.value + 1));
    }
  }

  // What `apply` made of the bindings `u`.
  lemma AppliedCaps(result: Result<seq<byte>, UnifyError>, start: Moment, l: Expr, r: Expr, iterations: Option<nat>,
                    depth: Option<nat>, u: EnvBindings, a: ApplyResult, cycled: map<ExprVar, nat>)
    requires start.Valid() && Ends(start, iterations, Unified(u)) && forall x | x in u :: ValidEnv(u[x])
    requires ClosedFrom(One(l), 0) && ClosedFrom(One(r), 0) && BindingsScoped([(Side(l, 0), Side(r, 1))], DenBindings(u))
    requires a.TooDeep? ==> depth.Some?
    requires depth.Some? ==> DepthOutcome(a, cycled, Deeper(DenBindings(u), [], Abs(One(l), 0, 0), depth.value))
    requires match result
             case Ok(_) => a.Applied? && cycled == map[]
             case Err(CycleFound) => true
             case Err(Capped(f)) => f == a
             case Err(Failed(_)) => false
    ensures CapsOutcome(result, start, l, r, iterations, depth)
  {
    hide Deeper, Ends, HasChain, NeedsMore, BindingsScoped, Abs, DenBindings;
    NotMaxIter(start, iterations, Unified(u));
    AbsCons(l, Nil, 0, 0);
    if depth.Some? {
      DeeperIsChain(DenBindings(u), One(Side(l, 0)), depth.value);
      if HasChain(DenBindings(u), One(Side(l, 0)), depth.value) {
        ChainBound(DenBindings(u), One(Side(l, 0)), depth.value);
        FewBindings(l, r, DenBindings(u));
      }
      forall u': EnvBindings | Ends(start, iterations, Unified(u'))
        ensures u' == u
      {
        EndsOnce(start, iterations, Unified(u), Unified(u'));
      }
    }
  }

  // The variables of a closed expression.
  lemma {:induction false} ClosedOccurs(es: Exprs, n: nat, v: nat, x: ExprVar)
    requires ClosedFrom(es, v) && Occurs(x, Abs(es, n, v))
    ensures x.0 == n && x.1 < v + NewVars(es)
    decreases es
  {
    match es
    case Cons(Var(New), tl) => if x != (n, v) { ClosedOccurs(tl, n, v + 1, x); }
    case Cons(Var(Ref(i)), tl) => if x != (n, i) { ClosedOccurs(tl, n, v, x); }
    case Cons(Sym(_), tl) => ClosedOccurs(tl, n, v, x);
    case Cons(App(kids), tl) =>
      if Occurs(x, Abs(kids, n, v)) {
        ClosedOccurs(kids, n, v, x);
      } else {
        ClosedOccurs(tl, n, v + NewVars(kids), x);
      }
  }

  // Only variables of the two inputs are bound.
  lemma FewBindings(l: Expr, r: Expr, b: Bindings)
    requires ClosedFrom(One(l), 0) && ClosedFrom(One(r), 0) && BindingsScoped([(Side(l, 0), Side(r, 1))], b)
    ensures |b| <= NewVars(One(l)) + NewVars(One(r))
  {
    hide ClosedFrom, Abs, NewVars;
    var u := SpaceVars(0, NewVars(One(l))) + SpaceVars(1, NewVars(One(r)));
    AbsCons(l, Nil, 0, 0);
    AbsCons(r, Nil, 1, 0);
    forall x | x in b
      ensures x in u
    {
      assert Mentions([(Side(l, 0), Side(r, 1))], x);
      if Occurs(x, One(Side(l, 0))) {
        ClosedOccurs(One(l), 0, 0, x);
      } else {
        ClosedOccurs(One(r), 1, 0, x);
      }
    }
    SpaceSize(0, NewVars(One(l)));
    SpaceSize(1, NewVars(One(r)));
    SubsetSize(b.Keys, u);
  }

  function SpaceVars(n: nat, k: nat): set<ExprVar> {
    set i: nat | i < k :: (n, i)
  }

  lemma SpaceSize(n: nat, k: nat)
    ensures |SpaceVars(n, k)| == k
  {
    if k > 0 {
      SpaceSize(n, k - 1);
      assert SpaceVars(n, k) == SpaceVars(n, k - 1) + {(n, k - 1)};
    }
  }

  // Most general unifiers agree on the bytes of the common instance.
  lemma MguUnique(l: AbsTerm, r: AbsTerm, m1: Substitution, m2: Substitution)
    requires IsMgu(l, r, m1) && IsMgu(l, r, m2)
    ensures Number(One(Subst1(m1, l)), []) == Number(One(Subst1(m2, l)), [])
  {
    assert Subst1(m2, Subst1(m1, l)) == Subst1(m2, l);
    assert Subst1(m1, Subst1(m2, l)) == Subst1(m1, l);
    VariantsNumber(Subst1(m1, l), Subst1(m2, l));
  }

  // `_unify`, writing into an empty buffer. `iterations` and `depth` are the caps MAX_UNIFY_ITER and
  // APPLY_DEPTH, or None for no cap.
  method UnifyInto(self: Buffer, other: Buffer, ghost l: Expr, ghost r: Expr, iterations: Option<nat>, depth: Option<nat>)
      returns (result: Result<seq<byte>, UnifyError>)
    requires Holds(self, l) && Holds(other, r)
    ensures UnifiesOutcome(result, Side(l, 0), Side(r, 1), iterations, depth)
    ensures Start(self, other).Valid() && CapsOutcome(result, Start(self, other), l, r, iterations, depth)
  {
    hide At, Sound, Complete, AllSame, SolvesBindings, DenBindings, BindingsScoped, VarAcyclic, WF, Enc, Number, Abs, ClosedFrom, NewVars,
         Unifiable, IsMgu, Solved, Ends, CapsOutcome, Deeper;
    var x, y := ExprEnv(0, 0, 0, self), ExprEnv(1, 0, 0, other);
    EnvIsDen(x, l);
    EnvIsDen(y, r);
    ghost var universe := Universe({0, 1}, {self, other});
    assert forall q | q in [(x, y)] :: universe.HasPair(q);
    var unifier := new Unifier([(x, y)], universe);
    assert DenStack(unifier.stack) == [(Side(l, 0), Side(r, 1))];
    ghost var start0 := unifier.Here();
    assert start0 == Start(self, other);
    var u := unifier.Run(iterations);
    if !u.Unified? {
      NoUnifier(Side(l, 0), Side(r, 1), u, iterations);
      FailedCaps(start0, l, r, iterations, depth, u);
      return Err(Failed(u));
    }
    ghost var b := DenBindings(u.bindings);
    UnifiedSolves(Side(l, 0), Side(r, 1), u, iterations);
    MguTheorem(Side(l, 0), Side(r, 1), b);
    var applier := new Applier(u.bindings, []);
    ghost var start := applier.State();
    var a := applier.Apply(0, 0, 0, self.bytes, l, depth);
    RestOfExpr(b, l, 0, 0);
    assert SetOf<ExprVar>([]) == {};
    if !a.Applied? {
      if a.RefTooLarge? {
        NoRoom(b, Side(l, 0), Side(r, 1), start);
      }
      result := Err(Capped(a));
      AppliedCaps(result, start0, l, r, iterations, depth, u.bindings, a, applier.cycled);
      return;
    }
    if applier.cycled != map[] {
      result := Err(CycleFound);
      AppliedCaps(result, start0, l, r, iterations, depth, u.bindings, a, applier.cycled);
      return;
    }
    RenderedInstance(b, Side(l, 0), Side(r, 1), start, applier.State());
    result := Ok(applier.out);
    AppliedCaps(result, start0, l, r, iterations, depth, u.bindings, a, applier.cycled);
  }

  // What `unify` says, for one pair.
  lemma NoUnifier(l: AbsTerm, r: AbsTerm, u: UnifyResult, limit: Option<nat>)
    requires UnifyOutcome([(l, r)], limit, u) && !u.Unified?
    ensures u.MaxIter? ==> limit.Some?
    ensures !u.MaxIter? ==> !Unifiable(l, r)
  {
    if !u.MaxIter? {
      forall th: Substitution
        ensures !Unifies(th, (l, r))
      {
        FiniteSolutions(th, [(l, r)], map[]);
        assert (l, r) in [(l, r)];
      }
    }
  }

  lemma UnifiedSolves(l: AbsTerm, r: AbsTerm, u: UnifyResult, limit: Option<nat>)
    requires UnifyOutcome([(l, r)], limit, u) && u.Unified?
    ensures forall x | x in u.bindings :: ValidEnv(u.bindings[x])
    ensures Solved(l, r, DenBindings(u.bindings))
  {
  }

  lemma RestOfExpr(b: Bindings, e: Expr, n: nat, v: nat)
    ensures Rest(b, {}, One(e), n, v) == Resolve(b, {}, One(Abs1(e, n, v)))
  {
    AbsLen(One(e), n, v);
    assert Len(One(e)) == 1;
    LenOne(Abs(One(e), n, v));
  }

  lemma NoRoom(b: Bindings, l: AbsTerm, r: AbsTerm, start: Output<ExprVar>)
    requires Solved(l, r, b) && start == Output([], [])
    requires var rest := Resolve(b, {}, One(l)); rest.Some? ==> Render(rest.value, start) == None
    ensures forall mgu: Substitution | IsMgu(l, r, mgu) :: !WF(Number(One(Subst1(mgu, l)), []))
    ensures Unifiable(l, r) ==> exists mgu: Substitution :: IsMgu(l, r, mgu)
  {
    MguTheorem(l, r, b);
    forall mgu: Substitution | IsMgu(l, r, mgu)
      ensures !WF(Number(One(Subst1(mgu, l)), []))
    {
      MguUnique(l, r, mgu, Mgu(b));
    }
  }

  lemma RenderedInstance(b: Bindings, l: AbsTerm, r: AbsTerm, start: Output<ExprVar>, end: Output<ExprVar>)
    requires Solved(l, r, b)
    requires start == Output([], [])
    requires SameEnd(Resolve(b, {}, One(l)), start, Some(Nil), end)
    ensures IsMgu(l, r, Mgu(b)) && Encodes(end.out, Subst1(Mgu(b), l)) && Subst1(Mgu(b), l) == Subst1(Mgu(b), r)
  {
    MguTheorem(l, r, b);
    RenderNil(end);
    var e := Number(One(Subst1(Mgu(b), l)), []);
    assert [] + Enc(e) == Enc(e);
  }
}
