/** Possibly infinite trees, and equations between terms interpreted in them.

    A tree maps paths to labels. An assignment of trees to variables gives every term a tree, so that
    a set of equations or bindings has solutions even when its only solutions are infinite. Finite
    substitutions are the assignments of finite trees. */
module Trees {
  import opened Terms
  import opened Encoding
  import opened Wrappers

  datatype Label = NoNode | VarNode(x: ExprVar) | SymNode(s: Symbol) | AppNode(arity: nat)
  type Path = seq<nat>
  type Tree = Path -> Label
  type Assignment = ExprVar -> Tree
  type Pair = (AbsTerm, AbsTerm)
  type Bindings = map<ExprVar, AbsTerm>
  type Substitution = ExprVar -> AbsTerm

  // The label at path `p` of the tree that `t` denotes.
  ghost function Look(sg: Assignment, t: AbsTerm, p: Path): Label
    decreases |p|
  {
    match t
    case Var(x) => sg(x)(p)
    case Sym(s) => if p == [] then SymNode(s) else NoNode
    case App(kids) =>
      if p == [] then AppNode(Len(kids))
      else if p[0] < Len(kids) then Look(sg, Nth(kids, p[0]), p[1..])
      else NoNode
  }

  // Equality of the two trees, on all paths and on the paths shorter than `k`.
  ghost predicate Same(sg: Assignment, q: Pair) {
    forall p :: Look(sg, q.0, p) == Look(sg, q.1, p)
  }

  ghost predicate SameTo(sg: Assignment, q: Pair, k: nat) {
    forall p | |p| < k :: Look(sg, q.0, p) == Look(sg, q.1, p)
  }

  ghost predicate AllSame(sg: Assignment, s: seq<Pair>) {
    forall q | q in s :: Same(sg, q)
  }

  ghost predicate AllSameTo(sg: Assignment, s: seq<Pair>, k: nat) {
    forall q | q in s :: SameTo(sg, q, k)
  }

  ghost predicate SolvesBindings(sg: Assignment, b: Bindings) {
    forall x | x in b :: Same(sg, (Var(x), b[x]))
  }

  lemma SameIsSameTo(sg: Assignment, q: Pair)
    ensures Same(sg, q) <==> forall k :: SameTo(sg, q, k)
  {
    if forall k :: SameTo(sg, q, k) {
      forall p: Path
        ensures Look(sg, q.0, p) == Look(sg, q.1, p)
      {
        assert SameTo(sg, q, |p| + 1);
      }
    }
  }

  lemma AllSameIsAllSameTo(sg: Assignment, s: seq<Pair>)
    ensures AllSame(sg, s) <==> forall k :: AllSameTo(sg, s, k)
  {
    forall q | q in s
      ensures Same(sg, q) <==> forall k :: SameTo(sg, q, k)
    {
      SameIsSameTo(sg, q);
    }
    if forall k :: AllSameTo(sg, s, k) {
      forall q | q in s
        ensures Same(sg, q)
      {
        forall k: nat
          ensures SameTo(sg, q, k)
        {
          assert AllSameTo(sg, s, k);
        }
      }
    }
  }

  // Element by element.
  ghost predicate ListSame(sg: Assignment, ts: AbsTerms, us: AbsTerms) {
    match (ts, us)
    case (Nil, Nil) => true
    case (Cons(t, tl), Cons(u, ul)) => Same(sg, (t, u)) && ListSame(sg, tl, ul)
    case _ => false
  }

  ghost predicate ListSameTo(sg: Assignment, ts: AbsTerms, us: AbsTerms, k: nat) {
    match (ts, us)
    case (Nil, Nil) => true
    case (Cons(t, tl), Cons(u, ul)) => SameTo(sg, (t, u), k) && ListSameTo(sg, tl, ul, k)
    case _ => false
  }

  lemma {:induction false} ListSameToNth(sg: Assignment, ts: AbsTerms, us: AbsTerms, k: nat, i: nat)
    requires ListSameTo(sg, ts, us, k) && i < Len(ts)
    ensures Len(ts) == Len(us) && SameTo(sg, (Nth(ts, i), Nth(us, i)), k)
  {
    ListSameToLen(sg, ts, us, k);
    if i > 0 {
      ListSameToNth(sg, ts.tail, us.tail, k, i - 1);
    }
  }

  lemma ListSameToLen(sg: Assignment, ts: AbsTerms, us: AbsTerms, k: nat)
    requires ListSameTo(sg, ts, us, k)
    ensures Len(ts) == Len(us)
  {
  }

  lemma {:induction false} NthListSame(sg: Assignment, ts: AbsTerms, us: AbsTerms)
    requires Len(ts) == Len(us) && forall i: nat | i < Len(ts) :: Same(sg, (Nth(ts, i), Nth(us, i)))
    ensures ListSame(sg, ts, us)
  {
    if ts.Cons? {
      assert Same(sg, (Nth(ts, 0), Nth(us, 0)));
      forall i: nat | i < Len(ts.tail)
        ensures Same(sg, (Nth(ts.tail, i), Nth(us.tail, i)))
      {
        assert Same(sg, (Nth(ts, i + 1), Nth(us, i + 1)));
      }
      NthListSame(sg, ts.tail, us.tail);
    }
  }

  // Arguments that agree up to depth `k` make compounds that agree up to depth `k + 1`.
  lemma AppSameTo(sg: Assignment, ts: AbsTerms, us: AbsTerms, k: nat)
    requires ListSameTo(sg, ts, us, k)
    ensures SameTo(sg, (App(ts), App(us)), k + 1)
  {
    ListSameToLen(sg, ts, us, k);
    forall p: Path | |p| < k + 1
      ensures Look(sg, App(ts), p) == Look(sg, App(us), p)
    {
      if p != [] && p[0] < Len(ts) {
        ListSameToNth(sg, ts, us, k, p[0]);
        assert |p[1..]| < k;
      }
    }
  }

  lemma AppSame(sg: Assignment, ts: AbsTerms, us: AbsTerms)
    requires Same(sg, (App(ts), App(us)))
    ensures ListSame(sg, ts, us)
  {
    assert Look(sg, App(ts), []) == Look(sg, App(us), []);
    forall i: nat, p: Path | i < Len(ts)
      ensures Look(sg, Nth(ts, i), p) == Look(sg, Nth(us, i), p)
    {
      assert ([i] + p)[1..] == p;
      assert Look(sg, App(ts), [i] + p) == Look(sg, App(us), [i] + p);
    }
    NthListSame(sg, ts, us);
  }

  /* ---- Disagreement pairs: what `match2` hands to its hole ---- */

  // The pairs below two lists of terms where one side is a variable, or None at a functor clash.
  ghost function Holes(ts: AbsTerms, us: AbsTerms): Option<seq<Pair>> {
    match (ts, us)
    case (Nil, Nil) => Some([])
    case (Cons(t, tl), Cons(u, ul)) =>
      var h := if t.Var? || u.Var? then Some([(t, u)])
               else if t.Sym? && u.Sym? then (if t.s == u.s then Some([]) else None)
               else if t.App? && u.App? then Holes(t.args, u.args)
               else None;
      var r := Holes(tl, ul);
      if h.Some? && r.Some? then Some(h.value + r.value) else None
    case _ => None
  }

  // A solution of two lists rules a clash out and solves every disagreement pair.
  lemma {:induction false} HolesSound(sg: Assignment, ts: AbsTerms, us: AbsTerms)
    requires ListSame(sg, ts, us)
    ensures Holes(ts, us).Some? && AllSame(sg, Holes(ts, us).value)
  {
    match ts
    case Nil =>
    case Cons(t, tl) =>
      var u := us.head;
      HolesSound(sg, tl, us.tail);
      if !t.Var? && !u.Var? {
        assert Look(sg, t, []) == Look(sg, u, []);
        if t.App? {
          AppSame(sg, t.args, u.args);
          HolesSound(sg, t.args, u.args);
        }
      }
  }

  // Agreement of the disagreement pairs up to depth `k` is agreement of the lists up to depth `k`.
  lemma {:induction false} HolesComplete(sg: Assignment, ts: AbsTerms, us: AbsTerms, k: nat)
    requires Holes(ts, us).Some? && AllSameTo(sg, Holes(ts, us).value, k)
    ensures ListSameTo(sg, ts, us, k)
  {
    match ts
    case Nil =>
    case Cons(t, tl) =>
      var u := us.head;
      var r := Holes(tl, us.tail).value;
      HolesComplete(sg, tl, us.tail, k) by {
        assert forall q | q in r :: q in Holes(ts, us).value;
      }
      if t.Var? || u.Var? {
        assert (t, u) in Holes(ts, us).value;
      } else if t.App? {
        HolesComplete(sg, t.args, u.args, k) by {
          assert forall q | q in Holes(t.args, u.args).value :: q in Holes(ts, us).value;
        }
        AppSameTo(sg, t.args, u.args, k);
      }
  }

  /* ---- Following bindings from variable to variable ---- */

  // Each binding is followed at most once, so this ends for every map; `Ranked` says that the
  // restriction is never felt.
  ghost function Walk(b: Bindings, t: AbsTerm): AbsTerm
    decreases b.Keys
  {
    if t.Var? && t.x in b then Walk(b - {t.x}, b[t.x]) else t
  }

  // Variable-to-variable bindings always lead to a variable of greater rank: they form no cycle.
  ghost predicate Ranked(b: Bindings, rank: map<ExprVar, nat>) {
    forall x | x in b :: x in rank && (b[x].Var? && b[x].x in b ==> b[x].x in rank && rank[x] < rank[b[x].x])
  }

  ghost predicate VarAcyclic(b: Bindings) {
    exists rank: map<ExprVar, nat> :: Ranked(b, rank)
  }

  lemma {:induction false} WalkSame(sg: Assignment, b: Bindings, t: AbsTerm)
    requires SolvesBindings(sg, b)
    ensures Same(sg, (t, Walk(b, t)))
    decreases b.Keys
  {
    if t.Var? && t.x in b {
      WalkSame(sg, b - {t.x}, b[t.x]);
    }
  }

  // Then a walk ends at a compound, a symbol or an unbound variable.
  lemma WalkEnds(b: Bindings, t: AbsTerm)
    requires VarAcyclic(b)
    ensures !(Walk(b, t).Var? && Walk(b, t).x in b)
  {
    var rank :| Ranked(b, rank);
    WalkEndsIn(b, rank, b, t);
  }

  lemma {:induction false} WalkEndsIn(b: Bindings, rank: map<ExprVar, nat>, c: Bindings, t: AbsTerm)
    requires Ranked(b, rank)
    requires forall y | y in c :: y in b && c[y] == b[y]
    requires t.Var? && t.x in b ==> forall y | y in b && rank[y] >= rank[t.x] :: y in c
    ensures !(Walk(c, t).Var? && Walk(c, t).x in b)
    decreases c.Keys
  {
    if t.Var? && t.x in c {
      WalkEndsIn(b, rank, c - {t.x}, b[t.x]);
    }
  }

  // Binding an unbound variable to a compound, a symbol or another unbound variable makes no cycle.
  lemma BindAcyclic(b: Bindings, x: ExprVar, d: AbsTerm)
    requires VarAcyclic(b) && x !in b
    requires d.Var? ==> d.x != x && d.x !in b
    ensures VarAcyclic(b[x := d])
  {
    var rank :| Ranked(b, rank);
    var m := RankBound(rank);
    assert Ranked(b[x := d], rank[x := m]);
  }

  lemma RankBound(rank: map<ExprVar, nat>) returns (m: nat)
    ensures forall y | y in rank :: rank[y] < m
  {
    m := 0;
    var todo := rank.Keys;
    while todo != {}
      invariant todo <= rank.Keys
      invariant forall y | y in rank && y !in todo :: rank[y] < m
      decreases todo
    {
      var y :| y in todo;
      todo := todo - {y};
      if rank[y] >= m {
        m := rank[y] + 1;
      }
    }
  }
}
