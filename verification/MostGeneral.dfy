/** From the bindings of `unify` to a most general unifier.

    Bindings without variable-to-variable cycles always have a solution in possibly infinite trees,
    the one that unfolds them. Comparing the two inputs in it shows that a cycle can be reached from
    one input exactly when it can be reached from the other. */
module MostGeneral {
  import opened Terms
  import opened Encoding
  import opened Trees
  import opened Solutions
  import opened Resolution

  // The label at path `p` of the unfolding of `t`.
  ghost function Unfold(b: Bindings, t: AbsTerm, p: Path): Label
    decreases |p|
  {
    match Walk(b, t)
    case Var(y) => if p == [] then VarNode(y) else NoNode
    case Sym(s) => if p == [] then SymNode(s) else NoNode
    case App(kids) =>
      if p == [] then AppNode(Len(kids))
      else if p[0] < Len(kids) then Unfold(b, Nth(kids, p[0]), p[1..])
      else NoNode
  }

  ghost function Unfolding(b: Bindings): Assignment {
    x => (p: Path) => Unfold(b, Var(x), p)
  }

  lemma {:induction false} LookUnfolds(b: Bindings, t: AbsTerm, p: Path)
    ensures Look(Unfolding(b), t, p) == Unfold(b, t, p)
    decreases |p|
  {
    if t.App? && p != [] && p[0] < Len(t.args) {
      LookUnfolds(b, Nth(t.args, p[0]), p[1..]);
    }
  }

  // Walking from a bound variable ends where walking from its binding ends.
  lemma {:induction false} WalkStep(b: Bindings, rank: map<ExprVar, nat>, x: ExprVar)
    requires Ranked(b, rank) && x in b
    ensures Walk(b, Var(x)) == Walk(b, b[x])
  {
    var c := b - {x};
    WalkFewerIn(b, rank, c, b, b[x]);
  }

  // Two sub-bindings that both keep every variable of rank at least that of `t` walk `t` alike.
  lemma {:induction false} WalkFewerIn(b: Bindings, rank: map<ExprVar, nat>, c: Bindings, c': Bindings, t: AbsTerm)
    requires Ranked(b, rank)
    requires forall y | y in c :: y in b && c[y] == b[y]
    requires forall y | y in c' :: y in b && c'[y] == b[y]
    requires t.Var? && t.x in b ==> forall y | y in b && rank[y] >= rank[t.x] :: y in c && y in c'
    ensures Walk(c, t) == Walk(c', t)
    decreases c.Keys
  {
    if t.Var? && t.x in c {
      WalkFewerIn(b, rank, c - {t.x}, c' - {t.x}, b[t.x]);
    }
  }

  lemma UnfoldingSolves(b: Bindings)
    requires VarAcyclic(b)
    ensures SolvesBindings(Unfolding(b), b)
  {
    var rank :| Ranked(b, rank);
    forall x, p: Path | x in b
      ensures Look(Unfolding(b), Var(x), p) == Look(Unfolding(b), b[x], p)
    {
      LookUnfolds(b, b[x], p);
      WalkStep(b, rank, x);
    }
  }

  /* ---- Depth ---- */

  // The unfolding of `t` has no path of length `d` or more.
  ghost predicate Shallow(b: Bindings, t: AbsTerm, d: nat) {
    forall p: Path | |p| >= d :: Unfold(b, t, p) == NoNode
  }

  ghost predicate AllShallow(b: Bindings, ts: AbsTerms, d: nat) {
    forall i: nat | i < Len(ts) :: Shallow(b, Nth(ts, i), d)
  }

  lemma ShallowApp(b: Bindings, kids: AbsTerms, d: nat)
    requires AllShallow(b, kids, d)
    ensures Shallow(b, App(kids), d + 1)
  {
  }

  lemma AllShallowCons(b: Bindings, t: AbsTerm, tl: AbsTerms, d: nat, e: nat, m: nat)
    requires Shallow(b, t, d) && AllShallow(b, tl, e) && m >= d && m >= e
    ensures AllShallow(b, Cons(t, tl), m)
  {
    forall i: nat | i < Len(Cons(t, tl))
      ensures Shallow(b, Nth(Cons(t, tl), i), m)
    {
      if i > 0 {
        assert Shallow(b, Nth(tl, i - 1), e);
      }
    }
  }

  // A term that can be resolved unfolds to a finite tree.
  lemma {:induction false} ResolvedShallow(b: Bindings, open: set<ExprVar>, ts: AbsTerms) returns (d: nat)
    requires VarAcyclic(b) && Resolve(b, open, ts).Some?
    ensures AllShallow(b, ts, d)
    decreases b.Keys - open, ts
  {
    match ts
    case Nil => d := 0;
    case Cons(t, tl) =>
      ResolveCons(b, open, t, tl);
      var e := ResolvedShallow(b, open, tl);
      var h := 1;
      if t.App? {
        var k := ResolvedShallow(b, open, t.args);
        ShallowApp(b, t.args, k);
        h := k + 1;
      } else if t.Var? && t.x in b {
        h := ResolvedShallow(b, open + {t.x}, One(b[t.x]));
        assert Shallow(b, Nth(One(b[t.x]), 0), h);
        var rank :| Ranked(b, rank);
        WalkStep(b, rank, t.x);
        UnfoldWalk(b, t, b[t.x]);
      }
      assert Shallow(b, t, h);
      d := if h > e then h else e;
      AllShallowCons(b, t, tl, h, e, d);
  }

  lemma UnfoldWalk(b: Bindings, t: AbsTerm, u: AbsTerm)
    requires Walk(b, t) == Walk(b, u)
    ensures forall p :: Unfold(b, t, p) == Unfold(b, u, p)
  {
  }

  // Below every occurrence of a variable hangs the unfolding of that variable.
  lemma {:induction false} OccurrencePath(b: Bindings, ts: AbsTerms, x: ExprVar) returns (i: nat, p: Path)
    requires Occurs(x, ts)
    ensures i < Len(ts) && forall q :: Unfold(b, Nth(ts, i), p + q) == Unfold(b, Var(x), q)
    ensures Nth(ts, i) == Var(x) || p != []
  {
    var t, tl := ts.head, ts.tail;
    OccursCons(x, t, tl);
    OccursOne(x, t);
    if t == Var(x) {
      i, p := 0, [];
      assert forall q: Path :: p + q == q;
    } else if t.App? && Occurs(x, t.args) {
      var j, r := OccurrencePath(b, t.args, x);
      i, p := 0, [j] + r;
      forall q: Path
        ensures Unfold(b, t, p + q) == Unfold(b, Var(x), q)
      {
        assert (p + q)[1..] == r + q;
      }
    } else {
      i, p := OccurrencePath(b, tl, x);
      i := i + 1;
    }
  }

  lemma ShallowBelow(b: Bindings, t: AbsTerm, x: ExprVar, d: nat)
    requires Shallow(b, t, d) && Occurs(x, One(t))
    ensures Shallow(b, Var(x), d)
  {
    var i, p := OccurrencePath(b, One(t), x);
    forall q: Path | |q| >= d
      ensures Unfold(b, Var(x), q) == NoNode
    {
      assert Unfold(b, t, p + q) == Unfold(b, Var(x), q);
    }
  }

  // The height of the unfolding of `x`, when it is below `d`.
  ghost function Height(b: Bindings, d: nat, x: ExprVar): nat {
    if d == 0 then 0
    else if exists p: Path :: |p| == d - 1 && Unfold(b, Var(x), p) != NoNode then d
    else Height(b, d - 1, x)
  }

  lemma {:induction false} HeightPath(b: Bindings, d: nat, x: ExprVar) returns (p: Path)
    requires d > 0
    ensures |p| + 1 == Height(b, d, x) && Unfold(b, Var(x), p) != NoNode
  {
    if exists p: Path :: |p| == d - 1 && Unfold(b, Var(x), p) != NoNode {
      p :| |p| == d - 1 && Unfold(b, Var(x), p) != NoNode;
    } else {
      assert Unfold(b, Var(x), []) != NoNode;
      p := HeightPath(b, d - 1, x);
    }
  }

  lemma {:induction false} PathHeight(b: Bindings, d: nat, x: ExprVar, p: Path)
    requires |p| < d && Unfold(b, Var(x), p) != NoNode
    ensures Height(b, d, x) > |p|
  {
    if |p| < d - 1 {
      PathHeight(b, d - 1, x, p);
    }
  }

  // When every bound variable unfolds to a finite tree, heights are a measure and nothing cycles.
  lemma ShallowResolves(b: Bindings, d: nat, ts: AbsTerms)
    requires VarAcyclic(b) && forall x | x in b :: Shallow(b, Var(x), d)
    ensures Resolve(b, {}, ts).Some?
  {
    var w: ExprVar -> nat := x => Height(b, d, x);
    var rank :| Ranked(b, rank);
    forall x, y | x in b && y in b && Occurs(y, One(b[x]))
      ensures w(x) >= w(y) && (b[x] != Var(y) ==> w(x) > w(y))
    {
      assert Unfold(b, Var(x), []) != NoNode;
      var i, p := OccurrencePath(b, One(b[x]), y);
      var q := HeightPath(b, d, y);
      assert Unfold(b, b[x], p + q) == Unfold(b, Var(y), q);
      WalkStep(b, rank, x);
      UnfoldWalk(b, Var(x), b[x]);
      PathHeight(b, d, x, p + q);
    }
    WeighedAcyclic(b, w, ts);
  }

  /* ---- Unifying two terms ---- */

  // What `unify` promises for a single input equation.
  ghost predicate Solved(l: AbsTerm, r: AbsTerm, b: Bindings) {
    && VarAcyclic(b)
    && BindingsScoped([(l, r)], b)
    && forall sg: Assignment :: AllSame(sg, [(l, r)]) <==> SolvesBindings(sg, b)
  }

  // Resolving the left side is enough: then no variable of either side can reach a cycle.
  lemma LeftDecides(l: AbsTerm, r: AbsTerm, b: Bindings, ts: AbsTerms)
    requires Solved(l, r, b) && Resolve(b, {}, One(l)).Some?
    ensures Resolve(b, {}, ts).Some?
  {
    var d := ResolvedShallow(b, {}, One(l));
    assert Shallow(b, Nth(One(l), 0), d);
    UnfoldingSolves(b);
    assert Same(Unfolding(b), (l, r));
    forall p: Path | |p| >= d
      ensures Unfold(b, r, p) == NoNode
    {
      LookUnfolds(b, l, p);
      LookUnfolds(b, r, p);
    }
    forall x | x in b
      ensures Shallow(b, Var(x), d)
    {
      var q :| q in [(l, r)] && (Occurs(x, One(q.0)) || Occurs(x, One(q.1)));
      if Occurs(x, One(l)) {
        ShallowBelow(b, l, x, d);
      } else {
        ShallowBelow(b, r, x, d);
      }
    }
    ShallowResolves(b, d, ts);
  }

  ghost predicate Unifiable(l: AbsTerm, r: AbsTerm) {
    exists th: Substitution :: Unifies(th, (l, r))
  }

  // `mgu` unifies, and every unifier is an instance of it.
  ghost predicate IsMgu(l: AbsTerm, r: AbsTerm, mgu: Substitution) {
    && Unifies(mgu, (l, r))
    && forall th: Substitution, t: AbsTerm | Unifies(th, (l, r)) :: Subst1(th, Subst1(mgu, t)) == Subst1(th, t)
  }

  lemma UnifierSolves(l: AbsTerm, r: AbsTerm, b: Bindings, th: Substitution)
    requires Solved(l, r, b)
    ensures Unifies(th, (l, r)) <==> SolvesFinitely(th, b)
  {
    FiniteSolutions(th, [(l, r)], b);
    assert UnifiesAll(th, [(l, r)]) <==> Unifies(th, (l, r)) by {
      assert (l, r) in [(l, r)];
    }
  }

  // The bindings resolve to a most general unifier exactly when there is a finite unifier at all.
  lemma MguTheorem(l: AbsTerm, r: AbsTerm, b: Bindings)
    requires Solved(l, r, b)
    ensures Resolve(b, {}, One(l)).Some? <==> Unifiable(l, r)
    ensures Resolve(b, {}, One(l)).Some? ==>
      && IsMgu(l, r, Mgu(b))
      && Resolve(b, {}, One(l)).value == One(Subst1(Mgu(b), l)) == One(Subst1(Mgu(b), r))
  {
    forall th: Substitution | Unifies(th, (l, r))
      ensures Resolve(b, {}, One(l)).Some?
    {
      UnifierSolves(l, r, b, th);
      SolvableResolves(b, th, One(l));
    }
    if Resolve(b, {}, One(l)).Some? {
      forall x | x in b
        ensures Mgu(b)(x) == Subst1(Mgu(b), b[x])
      {
        LeftDecides(l, r, b, One(Var(x)));
        MguSolves(b, x);
      }
      UnifierSolves(l, r, b, Mgu(b));
      ResolveIsMgu(b, One(l));
      forall th: Substitution, t: AbsTerm | Unifies(th, (l, r))
        ensures Subst1(th, Subst1(Mgu(b), t)) == Subst1(th, t)
      {
        UnifierSolves(l, r, b, th);
        LeftDecides(l, r, b, One(t));
        ResolveIsMgu(b, One(t));
        ResolveKeeps(b, {}, One(t), th);
      }
    }
  }
}
