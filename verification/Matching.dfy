/** Unifying when one of the two expressions has no variables, and why the caps leave that alone. */
module Matching {
  import opened Items
  import opened Terms
  import opened Encoding
  import opened Wrappers
  import opened Envs
  import opened Depths
  import opened UnificationSteps
  import opened Application
  import opened ExprUnification

  // The variable items, repeated ones included.
  function VarItems(es: Exprs): nat {
    match es
    case Nil => 0
    case Cons(Var(_), tl) => 1 + VarItems(tl)
    case Cons(Sym(_), tl) => VarItems(tl)
    case Cons(App(kids), tl) => VarItems(kids) + VarItems(tl)
  }

  lemma VarItemsCons(e: Expr, tl: Exprs)
    ensures VarItems(Cons(e, tl)) == VarItems(One(e)) + VarItems(tl)
    ensures e.Var? ==> VarItems(One(e)) == 1
    ensures e.App? ==> VarItems(One(e)) == VarItems(e.args)
  {
  }

  ghost predicate Ground(x: ExprEnv) {
    ValidEnv(x) && VarItems(One(ExprOf(x))) == 0
  }

  // A variable facing a ground subexpression.
  ghost predicate Single(q: EnvPair) {
    && ValidPair(q)
    && ((ExprOf(q.0).Var? && Ground(q.1)) || (Ground(q.0) && ExprOf(q.1).Var?))
  }

  ghost predicate Matches(m: Moment) {
    && (forall x | x in m.bindings :: Ground(m.bindings[x]))
    && (forall q | q in m.stack :: Single(q))
  }

  lemma {:induction false} GapsSingle(x: ExprEnv, es: Exprs, y: ExprEnv, fs: Exprs)
    requires Stands(x, es) && Stands(y, fs) && (VarItems(es) == 0 || VarItems(fs) == 0)
    ensures var h := Gaps(x, es, y, fs);
      h.Some? ==> |h.value| <= VarItems(es) + VarItems(fs) && forall q | q in h.value :: Single(q)
    decreases es
  {
    hide Stands, ValidEnv, EncLen, NewVars, Gaps, Gaps1, Abs, VarItems;
    if es.Cons? && fs.Cons? {
      var e, tl, f, ul := es.head, es.tail, fs.head, fs.tail;
      StandsCons(x, e, tl);
      StandsCons(y, f, ul);
      VarItemsCons(e, tl);
      VarItemsCons(f, ul);
      GapsCons(x, e, tl, y, f, ul);
      GapsOne(x, e, y, f);
      if e.App? && f.App? {
        StandsChildren(x);
        StandsChildren(y);
        GapsSingle(x.Offset(1), e.args, y.Offset(1), f.args);
      }
      GapsSingle(Past(x, e), tl, Past(y, f), ul);
    } else {
      GapsEnds(x, es, y, fs);
    }
  }

  lemma GroundNoVar(x: ExprEnv)
    requires ValidEnv(x)
    ensures Den(x).Var? <==> ExprOf(x).Var?
    ensures Ground(x) ==> !Den(x).Var?
  {
    hide ValidEnv;
    OneFacts(ExprOf(x), x.n, x.v);
  }

  lemma DerefGround(b: EnvBindings, t: ExprEnv)
    requires ValidEnv(t) && forall x | x in b :: Ground(b[x])
    ensures forall x | x in b :: ValidEnv(b[x])
    ensures var d := Deref(b, t); (d == t || Ground(d)) && (Ground(t) ==> d == t)
  {
    hide ValidEnv, Den, Ground, ExprOf;
    GroundNoVar(t);
    assert forall x | x in b :: ValidEnv(b[x]) by {
      GroundValid(b);
    }
    if Den(t).Var? && Den(t).x in b {
      GroundNoVar(b[Den(t).x]);
    }
  }

  lemma GroundValid(b: EnvBindings)
    requires forall x | x in b :: Ground(b[x])
    ensures forall x | x in b :: ValidEnv(b[x])
  {
  }

  // A step solves its pair and leaves no new one.
  lemma SingleStep(m: Moment)
    requires m.Valid() && m.stack != [] && Matches(m)
    ensures Step(m).Ok? ==> Matches(Step(m).value) && Step(m).value.stack == m.stack[..|m.stack| - 1]
  {
    hide ValidEnv, Den, Deref, Ground, ExprOf, PushAll, Gaps, Gaps1, BindTo, Step, DenBindings;
    var rest, q := m.stack[..|m.stack| - 1], m.stack[|m.stack| - 1];
    assert m.stack == rest + [q] && Single(q);
    var x, y := Deref(m.bindings, q.0), Deref(m.bindings, q.1);
    DerefGround(m.bindings, q.0);
    DerefGround(m.bindings, q.1);
    StepIs(m, rest, q, x, y);
    GroundNoVar(x);
    GroundNoVar(y);
    GroundNoVar(q.0);
    GroundNoVar(q.1);
    assert forall r | r in rest :: r in m.stack;
    if !Den(x).Var? && !Den(y).Var? {
      NoGaps(x, y);
      NothingPushed(m, rest);
    } else {
      Binding(m, rest, x, y);
    }
  }

  lemma NoGaps(x: ExprEnv, y: ExprEnv)
    requires Ground(x) && Ground(y)
    ensures var h := Gaps1(x, ExprOf(x), y, ExprOf(y)); h.Some? ==> h == Some([])
  {
    hide Gaps, VarItems;
    GapsSingle(x, One(ExprOf(x)), y, One(ExprOf(y)));
  }

  lemma NothingPushed(m: Moment, rest: seq<EnvPair>)
    requires m.Valid()
    ensures PushAll(DenBindings(m.bindings), [], rest, m.encountered) == (rest, m.encountered)
  {
  }

  lemma Binding(m: Moment, rest: seq<EnvPair>, x: ExprEnv, y: ExprEnv)
    requires ValidEnv(x) && ValidEnv(y) && (Ground(x) || Ground(y)) && (Den(x).Var? || Den(y).Var?)
    requires forall v | v in m.bindings :: Ground(m.bindings[v])
    requires forall q | q in rest :: Single(q)
    ensures Den(x) != Den(y)
    ensures Den(x).Var? ==>
      var k := BindTo(m.(stack := rest), Den(x).x, y); k.Ok? ==> Matches(k.value) && k.value.stack == rest
    ensures Den(y).Var? ==>
      var k := BindTo(m.(stack := rest), Den(y).x, x); k.Ok? ==> Matches(k.value) && k.value.stack == rest
  {
    hide ValidEnv, Den, Ground, Occurs, Single;
    GroundNoVar(x);
    GroundNoVar(y);
  }

  // The first step leaves a pair for each variable item at most.
  lemma FirstStep(self: Buffer, other: Buffer, l: Expr, r: Expr)
    requires Holds(self, l) && Holds(other, r) && (VarItems(One(l)) == 0 || VarItems(One(r)) == 0)
    ensures var m := Start(self, other);
      && m.Valid() && m.stack != []
      && (Step(m).Ok? ==> Matches(Step(m).value) && |Step(m).value.stack| <= VarItems(One(l)) + VarItems(One(r)))
  {
    hide At, ClosedFrom, NewVars, Abs, ValidEnv, ExprOf, Den, Deref, VarItems, PushAll, Gaps, BindTo, Step, DenBindings;
    StartValid(self, other, l, r);
    var x, y := ExprEnv(0, 0, 0, self), ExprEnv(1, 0, 0, other);
    EnvIsDen(x, l);
    EnvIsDen(y, r);
    var m := Start(self, other);
    DerefGround(m.bindings, x);
    DerefGround(m.bindings, y);
    NothingBound(x);
    NothingBound(y);
    assert m.stack == [] + [(x, y)];
    StepIs(m, [], (x, y), x, y);
    if !Den(x).Var? && !Den(y).Var? {
      GapsSingle(x, One(l), y, One(r));
      var h := Gaps1(x, l, y, r);
      if h.Some? {
        PushAllValid(DenBindings(m.bindings), h.value, [], {});
      }
    } else {
      Binding(m, [], x, y);
    }
  }

  lemma NothingBound(t: ExprEnv)
    requires ValidEnv(t)
    ensures Deref(map[], t) == t
  {
  }

  lemma {:induction false} MatchingRun(self: Buffer, other: Buffer, l: Expr, r: Expr, n: nat)
    requires Holds(self, l) && Holds(other, r) && (VarItems(One(l)) == 0 || VarItems(One(r)) == 0) && n > 0
    ensures Start(self, other).Valid()
    ensures var k := After(Start(self, other), n);
      k.Ok? ==> Matches(k.value) && (k.value.stack == [] || |k.value.stack| + n <= 1 + VarItems(One(l)) + VarItems(One(r)))
    decreases n
  {
    hide Holds, VarItems, Matches, Step, Start;
    var m := Start(self, other);
    FirstStep(self, other, l, r);
    if n > 1 {
      MatchingRun(self, other, l, r, n - 1);
      var k := After(m, n - 1);
      if k.Ok? && k.value.stack != [] {
        SingleStep(k.value);
      }
    } else {
      AfterNothing(m);
      AfterNext(m, 0, m);
    }
  }

  // One step more than there are variable items is always enough.
  lemma MatchingSteps(self: Buffer, other: Buffer, l: Expr, r: Expr, n: nat)
    requires Holds(self, l) && Holds(other, r) && (VarItems(One(l)) == 0 || VarItems(One(r)) == 0)
    requires n > VarItems(One(l)) + VarItems(One(r))
    ensures Start(self, other).Valid() && !NeedsMore(Start(self, other), n)
  {
    hide Holds, VarItems, Matches, Step, Start, After;
    MatchingRun(self, other, l, r, n);
  }

  lemma {:induction false} GroundNoOccurs(x: ExprVar, es: Exprs, n: nat, v: nat)
    requires VarItems(es) == 0
    ensures !Occurs(x, Abs(es, n, v))
  {
    match es
    case Nil =>
    case Cons(Sym(_), tl) => GroundNoOccurs(x, tl, n, v);
    case Cons(App(kids), tl) =>
      GroundNoOccurs(x, kids, n, v);
      GroundNoOccurs(x, tl, n, v + NewVars(kids));
  }

  lemma GroundChains(u: EnvBindings, ts: AbsTerms, depth: nat)
    requires (forall x | x in u :: Ground(u[x])) && depth > 0
    ensures forall x | x in u :: ValidEnv(u[x])
    ensures !HasChain(DenBindings(u), ts, depth)
  {
    hide Occurs, VarItems, ValidEnv, ExprOf, Abs;
    if c :| Chain(DenBindings(u), c) && |c| > depth && Occurs(c[0], ts) {
      var e := u[c[0]];
      assert Ground(e) && Occurs(c[1], One(Den(e)));
      GroundNoOccurs(c[1], One(ExprOf(e)), e.n, e.v);
      AbsCons(ExprOf(e), Nil, e.n, e.v);
    }
  }

  // Everything is bound to ground terms, so no chain has a second variable.
  lemma MatchingDepth(self: Buffer, other: Buffer, l: Expr, r: Expr, iterations: Option<nat>, depth: nat)
    requires Holds(self, l) && Holds(other, r) && (VarItems(One(l)) == 0 || VarItems(One(r)) == 0) && depth > 0
    ensures Start(self, other).Valid() && !ChainTooLong(Start(self, other), iterations, Side(l, 0), depth)
  {
    hide Holds, VarItems, Step, Start, After, HasChain, Side, Ends, Ground;
    StartValid(self, other, l, r);
    FirstStep(self, other, l, r);
    var m := Start(self, other);
    forall u: EnvBindings | Ends(m, iterations, Unified(u)) && forall x | x in u :: ValidEnv(u[x])
      ensures !HasChain(DenBindings(u), One(Side(l, 0)), depth)
    {
      var n := EndOf(m, iterations, Unified(u));
      AfterNothing(m);
      MatchingRun(self, other, l, r, n);
      GroundChains(u, One(Side(l, 0)), depth);
    }
  }

  // Matching against a ground expression meets neither cap, for an iteration cap no smaller than the
  // number of variable items and any depth cap but 0.
  lemma MatchingUncapped(self: Buffer, other: Buffer, l: Expr, r: Expr, iterations: Option<nat>, depth: Option<nat>,
                         result: Result<seq<byte>, UnifyError>)
    requires Holds(self, l) && Holds(other, r) && (VarItems(One(l)) == 0 || VarItems(One(r)) == 0)
    requires Start(self, other).Valid() && CapsOutcome(result, Start(self, other), l, r, iterations, depth)
    requires iterations.Some? ==> iterations.value >= VarItems(One(l)) + VarItems(One(r))
    requires depth.Some? ==> depth.value > 0
    ensures forall n :: result != Err(Failed(MaxIter(n)))
    ensures result != Err(Capped(TooDeep))
  {
    hide Holds, VarItems, Start, NeedsMore, ChainTooLong;
    if iterations.Some? {
      MatchingSteps(self, other, l, r, iterations.value + 1);
    }
    if depth.Some? {
      MatchingDepth(self, other, l, r, iterations, depth.value);
    }
  }
}
