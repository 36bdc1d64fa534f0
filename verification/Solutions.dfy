/** The steps of unification, seen as rewriting of equations that keeps the solutions.

    `g` is the input equations, `b` the bindings, `s` the work list and `e` the equations that were
    pushed before and will not be pushed again. */
module Solutions {
  import opened Terms
  import opened Encoding
  import opened Trees

  ghost predicate SetSameTo(sg: Assignment, e: set<Pair>, k: nat) {
    forall q | q in e :: SameTo(sg, q, k)
  }

  // Every solution of the input solves the bindings and the work list.
  ghost predicate Sound(g: seq<Pair>, b: Bindings, s: seq<Pair>) {
    forall sg: Assignment | AllSame(sg, g) :: SolvesBindings(sg, b) && AllSame(sg, s)
  }

  // Every solution of the bindings that solves the work list up to a depth solves the input, and the
  // equations that were dropped on account of `e`, up to that depth.
  ghost predicate Complete(g: seq<Pair>, b: Bindings, s: seq<Pair>, e: set<Pair>) {
    forall sg: Assignment, k: nat | SolvesBindings(sg, b) && AllSameTo(sg, s, k) ::
      AllSameTo(sg, g, k) && SetSameTo(sg, e, k)
  }

  lemma SameStep(g: seq<Pair>, b: Bindings, s: seq<Pair>, e: set<Pair>, q: Pair)
    requires Sound(g, b, s + [q]) && Complete(g, b, s + [q], e)
    requires Walk(b, q.0) == Walk(b, q.1)
    ensures Sound(g, b, s) && Complete(g, b, s, e)
  {
    forall sg: Assignment, k: nat | SolvesBindings(sg, b) && AllSameTo(sg, s, k)
      ensures AllSameTo(sg, g, k) && SetSameTo(sg, e, k)
    {
      WalkSame(sg, b, q.0);
      WalkSame(sg, b, q.1);
      assert AllSameTo(sg, s + [q], k);
    }
    forall sg: Assignment | AllSame(sg, g)
      ensures AllSame(sg, s)
    {
      assert forall r | r in s :: r in s + [q];
    }
  }

  lemma BindStep(g: seq<Pair>, b: Bindings, s: seq<Pair>, e: set<Pair>, q: Pair, x: ExprVar, d: AbsTerm)
    requires Sound(g, b, s + [q]) && Complete(g, b, s + [q], e)
    requires x !in b
    requires (Walk(b, q.0) == Var(x) && Walk(b, q.1) == d) || (Walk(b, q.1) == Var(x) && Walk(b, q.0) == d)
    ensures Sound(g, b[x := d], s) && Complete(g, b[x := d], s, e)
  {
    var b' := b[x := d];
    forall sg: Assignment, k: nat | SolvesBindings(sg, b') && AllSameTo(sg, s, k)
      ensures AllSameTo(sg, g, k) && SetSameTo(sg, e, k)
    {
      assert SolvesBindings(sg, b) by {
        assert forall y | y in b :: y in b' && b'[y] == b[y];
      }
      WalkSame(sg, b, q.0);
      WalkSame(sg, b, q.1);
      assert Same(sg, (Var(x), b'[x]));
      assert AllSameTo(sg, s + [q], k);
    }
    forall sg: Assignment | AllSame(sg, g)
      ensures SolvesBindings(sg, b') && AllSame(sg, s)
    {
      assert forall r | r in s :: r in s + [q];
      assert q in s + [q];
      WalkSame(sg, b, q.0);
      WalkSame(sg, b, q.1);
    }
  }

  // The step that may drop equations: each disagreement pair is pushed or was encountered before.
  lemma DecomposeStep(g: seq<Pair>, b: Bindings, s: seq<Pair>, e: set<Pair>, q: Pair, s': seq<Pair>, e': set<Pair>)
    requires Sound(g, b, s + [q]) && Complete(g, b, s + [q], e)
    requires !Walk(b, q.0).Var? && !Walk(b, q.1).Var?
    requires Holes(One(Walk(b, q.0)), One(Walk(b, q.1))).Some?
    requires var h := Holes(One(Walk(b, q.0)), One(Walk(b, q.1))).value;
             && (forall r | r in s' :: r in s || r in h)
             && (forall r | r in s :: r in s')
             && (forall r | r in h :: r in s' || r in e)
             && (forall r | r in e' :: r in e || r in s')
    ensures Sound(g, b, s') && Complete(g, b, s', e')
  {
    var t, u := Walk(b, q.0), Walk(b, q.1);
    var h := Holes(One(t), One(u)).value;
    forall sg: Assignment, k: nat | SolvesBindings(sg, b) && AllSameTo(sg, s', k)
      ensures AllSameTo(sg, g, k) && SetSameTo(sg, e', k)
    {
      DecomposeComplete(g, b, s, e, q, s', sg, k);
    }
    forall sg: Assignment | AllSame(sg, g)
      ensures SolvesBindings(sg, b) && AllSame(sg, s')
    {
      assert forall r | r in s :: r in s + [q];
      assert q in s + [q];
      WalkSame(sg, b, q.0);
      WalkSame(sg, b, q.1);
      HolesSound(sg, One(t), One(u));
    }
  }

  // Induction on the depth: a dropped pair lies strictly below the pair it was dropped from, so it
  // may be assumed to hold at the depth below.
  lemma {:induction false} DecomposeComplete(g: seq<Pair>, b: Bindings, s: seq<Pair>, e: set<Pair>, q: Pair,
                                             s': seq<Pair>, sg: Assignment, k: nat)
    requires Complete(g, b, s + [q], e)
    requires !Walk(b, q.0).Var? && !Walk(b, q.1).Var?
    requires Holes(One(Walk(b, q.0)), One(Walk(b, q.1))).Some?
    requires var h := Holes(One(Walk(b, q.0)), One(Walk(b, q.1))).value;
             && (forall r | r in s :: r in s')
             && (forall r | r in h :: r in s' || r in e)
    requires SolvesBindings(sg, b) && AllSameTo(sg, s', k)
    ensures AllSameTo(sg, g, k) && SetSameTo(sg, e, k)
  {
    hide Look, Walk, Holes;
    var t, u := Walk(b, q.0), Walk(b, q.1);
    HolesBelow(t, u);
    assert SameTo(sg, q, k) by {
      WalkSame(sg, b, q.0);
      WalkSame(sg, b, q.1);
      if k > 0 {
        assert AllSameTo(sg, s', k - 1) by {
          assert forall r | r in s' :: SameTo(sg, r, k);
        }
        DecomposeComplete(g, b, s, e, q, s', sg, k - 1);
        if t.App? {
          HolesComplete(sg, t.args, u.args, k - 1);
          AppSameTo(sg, t.args, u.args, k - 1);
        }
        assert SameTo(sg, (t, u), k);
      }
    }
    assert AllSameTo(sg, s + [q], k);
  }

  lemma HolesBelow(t: AbsTerm, u: AbsTerm)
    requires !t.Var? && !u.Var? && Holes(One(t), One(u)).Some?
    ensures t.App? ==> u.App? && Holes(t.args, u.args).Some? && Holes(One(t), One(u)).value == Holes(t.args, u.args).value
    ensures !t.App? ==> t == u
  {
  }

  lemma ClashStep(g: seq<Pair>, b: Bindings, s: seq<Pair>, q: Pair)
    requires Sound(g, b, s + [q])
    requires Holes(One(Walk(b, q.0)), One(Walk(b, q.1))).None?
    ensures forall sg: Assignment :: !AllSame(sg, g)
  {
    forall sg: Assignment | AllSame(sg, g)
      ensures false
    {
      assert q in s + [q];
      WalkSame(sg, b, q.0);
      WalkSame(sg, b, q.1);
      HolesSound(sg, One(Walk(b, q.0)), One(Walk(b, q.1)));
    }
  }

  // With an empty work list the bindings have exactly the solutions of the input.
  lemma EmptyStep(g: seq<Pair>, b: Bindings, e: set<Pair>)
    requires Sound(g, b, []) && Complete(g, b, [], e)
    ensures forall sg: Assignment :: AllSame(sg, g) <==> SolvesBindings(sg, b)
  {
    forall sg: Assignment | SolvesBindings(sg, b)
      ensures AllSame(sg, g)
    {
      forall k: nat
        ensures AllSameTo(sg, g, k)
      {
        assert AllSameTo(sg, [], k);
      }
      AllSameIsAllSameTo(sg, g);
    }
  }

  /* ---- Finite solutions ---- */

  ghost predicate Unifies(th: Substitution, q: Pair) {
    Subst1(th, q.0) == Subst1(th, q.1)
  }

  ghost predicate UnifiesAll(th: Substitution, s: seq<Pair>) {
    forall q | q in s :: Unifies(th, q)
  }

  ghost predicate SolvesFinitely(th: Substitution, b: Bindings) {
    forall x | x in b :: th(x) == Subst1(th, b[x])
  }

  ghost function Leaf(): Assignment {
    x => (p: Path) => if p == [] then VarNode(x) else NoNode
  }

  ghost function TreesOf(th: Substitution): Assignment {
    x => (p: Path) => Look(Leaf(), th(x), p)
  }

  lemma {:induction false} LookSubst(th: Substitution, t: AbsTerm, p: Path)
    ensures Look(TreesOf(th), t, p) == Look(Leaf(), Subst1(th, t), p)
    decreases |p|
  {
    if t.App? {
      SubstLen(th, t.args);
      if p != [] && p[0] < Len(t.args) {
        SubstNth(th, t.args, p[0]);
        LookSubst(th, Nth(t.args, p[0]), p[1..]);
      }
    }
  }

  // Finite terms with the same tree are equal.
  lemma {:induction false} FiniteInjective(ts: AbsTerms, us: AbsTerms)
    requires ListSame(Leaf(), ts, us)
    ensures ts == us
  {
    match ts
    case Nil =>
    case Cons(t, tl) =>
      var u := us.head;
      FiniteInjective(tl, us.tail);
      assert Look(Leaf(), t, []) == Look(Leaf(), u, []);
      if t.App? {
        AppSame(Leaf(), t.args, u.args);
        FiniteInjective(t.args, u.args);
      }
  }

  lemma FiniteSame(th: Substitution, q: Pair)
    ensures Same(TreesOf(th), q) <==> Unifies(th, q)
  {
    forall p: Path
      ensures Look(TreesOf(th), q.0, p) == Look(Leaf(), Subst1(th, q.0), p)
      ensures Look(TreesOf(th), q.1, p) == Look(Leaf(), Subst1(th, q.1), p)
    {
      LookSubst(th, q.0, p);
      LookSubst(th, q.1, p);
    }
    if Same(TreesOf(th), q) {
      FiniteInjective(One(Subst1(th, q.0)), One(Subst1(th, q.1)));
    }
  }

  // Finite unifiers are the solutions made of finite trees.
  lemma FiniteSolutions(th: Substitution, s: seq<Pair>, b: Bindings)
    ensures AllSame(TreesOf(th), s) <==> UnifiesAll(th, s)
    ensures SolvesBindings(TreesOf(th), b) <==> SolvesFinitely(th, b)
  {
    forall q | q in s
      ensures Same(TreesOf(th), q) <==> Unifies(th, q)
    {
      FiniteSame(th, q);
    }
    forall x | x in b
      ensures Same(TreesOf(th), (Var(x), b[x])) <==> th(x) == Subst1(th, b[x])
    {
      FiniteSame(th, (Var(x), b[x]));
    }
  }

  // A variable equated with a compound that contains it has no finite value.
  lemma OccursStep(g: seq<Pair>, b: Bindings, s: seq<Pair>, q: Pair, x: ExprVar, d: AbsTerm)
    requires Sound(g, b, s + [q])
    requires (Walk(b, q.0) == Var(x) && Walk(b, q.1) == d) || (Walk(b, q.1) == Var(x) && Walk(b, q.0) == d)
    requires Occurs(x, One(d)) && d != Var(x)
    ensures forall th: Substitution :: !UnifiesAll(th, g)
  {
    forall th: Substitution | UnifiesAll(th, g)
      ensures false
    {
      var sg := TreesOf(th);
      FiniteSolutions(th, g, b);
      assert q in s + [q];
      WalkSame(sg, b, q.0);
      WalkSame(sg, b, q.1);
      FiniteSame(th, (Var(x), d));
      assert d.App?;
      OccursSize(th, d.args, x);
    }
  }

  /* ---- The variables in play all come from the input ---- */

  ghost predicate Mentions(g: seq<Pair>, x: ExprVar) {
    exists q | q in g :: Occurs(x, One(q.0)) || Occurs(x, One(q.1))
  }

  ghost predicate TermScoped(g: seq<Pair>, t: AbsTerm) {
    forall x | Occurs(x, One(t)) :: Mentions(g, x)
  }

  ghost predicate PairScoped(g: seq<Pair>, q: Pair) {
    TermScoped(g, q.0) && TermScoped(g, q.1)
  }

  ghost predicate BindingsScoped(g: seq<Pair>, b: Bindings) {
    forall x | x in b :: Mentions(g, x) && TermScoped(g, b[x])
  }

  lemma {:induction false} WalkScoped(g: seq<Pair>, b: Bindings, t: AbsTerm)
    requires BindingsScoped(g, b) && TermScoped(g, t)
    ensures TermScoped(g, Walk(b, t))
    decreases b.Keys
  {
    if t.Var? && t.x in b {
      WalkScoped(g, b - {t.x}, b[t.x]);
    }
  }

  lemma {:induction false} HolesOccur(ts: AbsTerms, us: AbsTerms, q: Pair, x: ExprVar)
    requires Holes(ts, us).Some? && q in Holes(ts, us).value
    ensures Occurs(x, One(q.0)) ==> Occurs(x, ts)
    ensures Occurs(x, One(q.1)) ==> Occurs(x, us)
  {
    var t, u := ts.head, us.head;
    OccursCons(x, t, ts.tail);
    OccursCons(x, u, us.tail);
    if q in Holes(ts.tail, us.tail).value {
      HolesOccur(ts.tail, us.tail, q, x);
    } else if !t.Var? && !u.Var? {
      assert t.App? && q in Holes(t.args, u.args).value;
      HolesOccur(t.args, u.args, q, x);
    }
  }

  lemma HolesScoped(g: seq<Pair>, t: AbsTerm, u: AbsTerm)
    requires TermScoped(g, t) && TermScoped(g, u)
    requires Holes(One(t), One(u)).Some?
    ensures forall q | q in Holes(One(t), One(u)).value :: PairScoped(g, q)
  {
    forall q, x | q in Holes(One(t), One(u)).value
      ensures Occurs(x, One(q.0)) ==> Mentions(g, x)
      ensures Occurs(x, One(q.1)) ==> Mentions(g, x)
    {
      HolesOccur(One(t), One(u), q, x);
    }
  }
}
