/** `unifies_reuse_state`: unification that writes through `apply_e`. */
module UnificationReuse {
  import opened Items
  import opened Encoding
  import opened Wrappers
  import opened Trees
  import opened Solutions
  import opened MostGeneral
  import opened Numbering
  import opened Envs
  import opened Depths
  import opened Unification
  import opened UnificationSteps
  import opened Application
  import opened ExprUnification
  import opened Coroutines
  import opened StreamApplication

  // Writing into an empty sink; the work list, the stack and the assignments start empty whatever they
  // held before. The source returns false for the failures of `unify` and for cycles, and panics where
  // `apply_e` gives up.
  method UnifiesReuseState(left: Buffer, right: Buffer, ghost l: Expr, ghost r: Expr,
                           iterations: Option<nat>, depth: Option<nat>) returns (result: Result<seq<byte>, UnifyError>)
    requires Holds(left, l) && Holds(right, r)
    ensures UnifiesOutcome(result, Side(l, 0), Side(r, 1), iterations, depth)
    ensures Start(left, right).Valid() && CapsOutcome(result, Start(left, right), l, r, iterations, depth)
  {
    hide At, Sound, Complete, AllSame, SolvesBindings, DenBindings, BindingsScoped, VarAcyclic, WF, Enc, Number, Abs, ClosedFrom, NewVars,
         Unifiable, IsMgu, Solved, WriteOut, WriteFrom, Ends, CapsOutcome, Deeper;
    var x, y := ExprEnv(0, 0, 0, left), ExprEnv(1, 0, 0, right);
    EnvIsDen(x, l);
    EnvIsDen(y, r);
    ghost var universe := Universe({0, 1}, {left, right});
    assert forall q | q in [(x, y)] :: universe.HasPair(q);
    var unifier := new Unifier([(x, y)], universe);
    assert DenStack(unifier.stack) == [(Side(l, 0), Side(r, 1))];
    ghost var start0 := unifier.Here();
    assert start0 == Start(left, right);
    var u := unifier.Run(iterations);
    if !u.Unified? {
      NoUnifier(Side(l, 0), Side(r, 1), u, iterations);
      FailedCaps(start0, l, r, iterations, depth, u);
      return Err(Failed(u));
    }
    ghost var b := DenBindings(u.bindings);
    UnifiedSolves(Side(l, 0), Side(r, 1), u, iterations);
    MguTheorem(Side(l, 0), Side(r, 1), b);
    var sink := new ItemSink([]);
    var applier := new StreamApplier(u.bindings, sink);
    ghost var start := applier.State();
    var a := applier.ApplyE(0, 0, 0, left.bytes, l, depth);
    RestOfExpr(b, l, 0, 0);
    assert SetOf<ExprVar>([]) == {};
    if !a.Applied? {
      if a.RefTooLarge? {
        NoRoom(b, Side(l, 0), Side(r, 1), start);
      }
      result := Err(Capped(a));
      AppliedCaps(result, start0, l, r, iterations, depth, u.bindings, a, applier.cycled);
      return;
    }
    if applier.cycled != map[] {
      result := Err(CycleFound);
      AppliedCaps(result, start0, l, r, iterations, depth, u.bindings, a, applier.cycled);
      return;
    }
    RenderedInstance(b, Side(l, 0), Side(r, 1), start, applier.State());
    result := Ok(sink.target);
    AppliedCaps(result, start0, l, r, iterations, depth, u.bindings, a, applier.cycled);
  }
}
