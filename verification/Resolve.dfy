/** Resolving a term through bindings: when that ends, and why the result is most general. */
module Resolution {
  import opened Terms
  import opened Encoding
  import opened Wrappers
  import opened Trees
  import opened Solutions

  // Replace bound variables by what they are bound to, all the way down. `open` holds the variables
  // whose bindings are being resolved; meeting one of them again is a cycle, and there is no result.
  ghost function Resolve(b: Bindings, open: set<ExprVar>, ts: AbsTerms): (r: Option<AbsTerms>)
    ensures r.Some? ==> Len(r.value) == Len(ts)
    decreases b.Keys - open, ts
  {
    match ts
    case Nil => Some(Nil)
    case Cons(t, tl) =>
      var h := match t
        case Sym(_) => Some(t)
        case App(kids) =>
          var k := Resolve(b, open, kids);
          if k.Some? then Some(App(k.value)) else None
        case Var(x) =>
          if x !in b then Some(t)
          else if x in open then None
          else
            var k := Resolve(b, open + {x}, One(b[x]));
            if k.Some? then Some(k.value.head) else None;
      var r := Resolve(b, open, tl);
      if h.Some? && r.Some? then Some(Cons(h.value, r.value)) else None
  }

  lemma ResolveCons(b: Bindings, open: set<ExprVar>, t: AbsTerm, tl: AbsTerms)
    ensures Resolve(b, open, Cons(t, tl)).Some? <==> Resolve(b, open, One(t)).Some? && Resolve(b, open, tl).Some?
    ensures Resolve(b, open, Cons(t, tl)).Some? ==>
      Resolve(b, open, Cons(t, tl)).value == Cons(Resolve(b, open, One(t)).value.head, Resolve(b, open, tl).value)
  {
  }

  // With fewer variables open the result is the same.
  lemma {:induction false} ResolveFewer(b: Bindings, open: set<ExprVar>, open': set<ExprVar>, ts: AbsTerms)
    requires open' <= open && Resolve(b, open, ts).Some?
    ensures Resolve(b, open', ts) == Resolve(b, open, ts)
    decreases b.Keys - open, ts
  {
    match ts
    case Nil =>
    case Cons(t, tl) =>
      ResolveFewer(b, open, open', tl);
      if t.App? {
        ResolveFewer(b, open, open', t.args);
      } else if t.Var? && t.x in b {
        ResolveFewer(b, open + {t.x}, open' + {t.x}, One(b[t.x]));
      }
  }

  /* ---- The most general solution ---- */

  // Each variable goes to its resolution.
  ghost function Mgu(b: Bindings): Substitution {
    x => var r := Resolve(b, {}, One(Var(x))); if r.Some? then r.value.head else Var(x)
  }

  lemma {:induction false} ResolveIsMgu(b: Bindings, ts: AbsTerms)
    requires Resolve(b, {}, ts).Some?
    ensures Resolve(b, {}, ts).value == Subst(Mgu(b), ts)
  {
    match ts
    case Nil =>
    case Cons(t, tl) =>
      ResolveCons(b, {}, t, tl);
      ResolveIsMgu(b, tl);
      if t.App? {
        ResolveIsMgu(b, t.args);
      }
  }

  lemma MguSolves(b: Bindings, x: ExprVar)
    requires x in b && Resolve(b, {}, One(Var(x))).Some?
    ensures Mgu(b)(x) == Subst1(Mgu(b), b[x])
  {
    var nothing: set<ExprVar> := {};
    assert nothing + {x} == {x};
    ResolveFewer(b, {x}, {}, One(b[x]));
    ResolveIsMgu(b, One(b[x]));
  }

  // A solution of the bindings does not see the difference between a term and its resolution.
  lemma {:induction false} ResolveKeeps(b: Bindings, open: set<ExprVar>, ts: AbsTerms, th: Substitution)
    requires SolvesFinitely(th, b) && Resolve(b, open, ts).Some?
    ensures Subst(th, Resolve(b, open, ts).value) == Subst(th, ts)
    decreases b.Keys - open, ts
  {
    match ts
    case Nil =>
    case Cons(t, tl) =>
      ResolveCons(b, open, t, tl);
      ResolveKeeps(b, open, tl, th);
      if t.App? {
        ResolveKeeps(b, open, t.args, th);
      } else if t.Var? && t.x in b {
        ResolveKeeps(b, open + {t.x}, One(b[t.x]), th);
      }
  }

  // A resolved term has no bound variable left.
  lemma {:induction false} ResolveUnbound(b: Bindings, open: set<ExprVar>, ts: AbsTerms, x: ExprVar)
    requires Resolve(b, open, ts).Some? && Occurs(x, Resolve(b, open, ts).value)
    ensures x !in b
    decreases b.Keys - open, ts
  {
    var r := Resolve(b, open, ts).value;
    var t, tl := ts.head, ts.tail;
    ResolveCons(b, open, t, tl);
    OccursCons(x, r.head, r.tail);
    if Occurs(x, r.tail) {
      ResolveUnbound(b, open, tl, x);
    } else if t.App? {
      ResolveUnbound(b, open, t.args, x);
    } else if t.Var? && t.x in b {
      ResolveUnbound(b, open + {t.x}, One(b[t.x]), x);
    }
  }

  /* ---- Cycles ---- */

  // A chain of bound variables: the first occurs in `ts`, each later one in the binding of the one before.
  ghost predicate Chain(b: Bindings, ts: AbsTerms, c: seq<ExprVar>)
    decreases |c|
  {
    c != [] ==> Occurs(c[0], ts) && c[0] in b && Chain(b, One(b[c[0]]), c[1..])
  }

  ghost predicate Repeats(c: seq<ExprVar>) {
    exists i, j :: 0 <= i < j < |c| && c[i] == c[j]
  }

  // A binding cycle can be reached from `ts`.
  ghost predicate Cyclic(b: Bindings, ts: AbsTerms) {
    exists c :: Chain(b, ts, c) && Repeats(c)
  }

  lemma {:induction false} ResolveOccurs(b: Bindings, open: set<ExprVar>, ts: AbsTerms, x: ExprVar)
    requires Resolve(b, open, ts).Some? && Occurs(x, ts) && x in b
    ensures x !in open && Resolve(b, open + {x}, One(b[x])).Some?
    decreases ts
  {
    var t, tl := ts.head, ts.tail;
    ResolveCons(b, open, t, tl);
    OccursCons(x, t, tl);
    if Occurs(x, tl) {
      ResolveOccurs(b, open, tl, x);
    } else if t.App? {
      ResolveOccurs(b, open, t.args, x);
    }
  }

  lemma {:induction false} ResolvedChain(b: Bindings, open: set<ExprVar>, ts: AbsTerms, c: seq<ExprVar>)
    requires Resolve(b, open, ts).Some? && Chain(b, ts, c)
    ensures !Repeats(c) && forall x | x in c :: x !in open
    decreases |c|
  {
    if c != [] {
      ResolveOccurs(b, open, ts, c[0]);
      ResolvedChain(b, open + {c[0]}, One(b[c[0]]), c[1..]);
      forall i, j | 0 <= i < j < |c|
        ensures c[i] != c[j]
      {
        assert c[j] == c[1..][j - 1];
        if i > 0 {
          assert c[i] == c[1..][i - 1];
        }
      }
    }
  }

  lemma {:induction false} UnresolvedChain(b: Bindings, open: set<ExprVar>, ts: AbsTerms) returns (c: seq<ExprVar>)
    requires Resolve(b, open, ts).None?
    ensures c != [] && Chain(b, ts, c)
    ensures c[|c| - 1] in open || c[|c| - 1] in c[..|c| - 1]
    decreases b.Keys - open, ts
  {
    var t, tl := ts.head, ts.tail;
    if Resolve(b, open, tl).None? {
      c := UnresolvedChain(b, open, tl);
      OccursCons(c[0], t, tl);
    } else if t.App? {
      c := UnresolvedChain(b, open, t.args);
    } else if t.x in open {
      c := [t.x];
    } else {
      var c' := UnresolvedChain(b, open + {t.x}, One(b[t.x]));
      c := [t.x] + c';
      assert c[1..] == c';
      if c[|c| - 1] in c'[..|c'| - 1] {
        var i :| 0 <= i < |c'| - 1 && c'[i] == c[|c| - 1];
        assert c[..|c| - 1][i + 1] == c[|c| - 1];
      } else if c[|c| - 1] == t.x {
        assert c[..|c| - 1][0] == t.x;
      }
    }
  }

  // Resolution fails exactly when a cycle can be reached.
  lemma UnresolvedIffCyclic(b: Bindings, ts: AbsTerms)
    ensures Resolve(b, {}, ts).None? <==> Cyclic(b, ts)
  {
    if Resolve(b, {}, ts).None? {
      var c := UnresolvedChain(b, {}, ts);
      var i :| 0 <= i < |c| - 1 && c[..|c| - 1][i] == c[|c| - 1];
      assert c[i] == c[|c| - 1];
      assert Repeats(c);
    } else {
      forall c | Chain(b, ts, c)
        ensures !Repeats(c)
      {
        ResolvedChain(b, {}, ts, c);
      }
    }
  }

  // A measure of variables that never grows along bindings and shrinks through compounds.
  ghost predicate Weighs(b: Bindings, w: ExprVar -> nat) {
    forall x, y | x in b && y in b && Occurs(y, One(b[x])) :: w(x) >= w(y) && (b[x] != Var(y) ==> w(x) > w(y))
  }

  lemma {:induction false} ChainDescends(b: Bindings, w: ExprVar -> nat, rank: map<ExprVar, nat>,
                                         ts: AbsTerms, c: seq<ExprVar>, i: nat, j: nat)
    requires Weighs(b, w) && Ranked(b, rank) && Chain(b, ts, c) && i < j < |c|
    ensures c[i] in b && c[j] in b
    ensures w(c[i]) > w(c[j]) || (w(c[i]) == w(c[j]) && rank[c[i]] < rank[c[j]])
    decreases |c|, j
  {
    if i > 0 {
      ChainDescends(b, w, rank, One(b[c[0]]), c[1..], i - 1, j - 1);
    } else {
      assert c[1..][0] == c[1];
      if j > 1 {
        ChainDescends(b, w, rank, One(b[c[0]]), c[1..], 0, j - 1);
      }
    }
  }

  lemma WeighedAcyclic(b: Bindings, w: ExprVar -> nat, ts: AbsTerms)
    requires Weighs(b, w) && VarAcyclic(b)
    ensures Resolve(b, {}, ts).Some?
  {
    UnresolvedIffCyclic(b, ts);
    if Cyclic(b, ts) {
      var rank :| Ranked(b, rank);
      var c :| Chain(b, ts, c) && Repeats(c);
      var i: nat, j: nat :| i < j < |c| && c[i] == c[j];
      ChainDescends(b, w, rank, ts, c, i, j);
    }
  }

  // With a finite solution there is no cycle: the sizes of the values are a measure.
  lemma SolvableResolves(b: Bindings, th: Substitution, ts: AbsTerms)
    requires VarAcyclic(b) && SolvesFinitely(th, b)
    ensures Resolve(b, {}, ts).Some?
  {
    var w: ExprVar -> nat := x => Size(One(th(x)));
    forall x, y | x in b && y in b && Occurs(y, One(b[x]))
      ensures w(x) >= w(y) && (b[x] != Var(y) ==> w(x) > w(y))
    {
      OccursOne(y, b[x]);
      if b[x].App? {
        OccursSize(th, b[x].args, y);
      }
    }
    WeighedAcyclic(b, w, ts);
  }
}
