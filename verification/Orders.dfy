/** When a query into `AUSink` completes, over all the orders in which its expressions may arrive. */
module SinkOrders {
  import opened Terms
  import opened Encoding
  import opened Trees
  import opened Numbering
  import opened Variants
  import opened Generalisation
  import opened ExprUnification
  import opened Folds
  import opened Sinks

  // A property of all prefixes of at least `n` expressions, in every order, is a property of all
  // sub-multisets of that size.
  lemma Prefixes(s: seq<Expr>, n: nat, p: seq<Expr> -> bool)
    ensures (forall t: seq<Expr>, k: nat | multiset(t) == multiset(s) && n <= k <= |t| :: p(t[..k]))
       <==> (forall u | |u| >= n && multiset(u) <= multiset(s) :: p(u))
  {
    if forall t: seq<Expr>, k: nat | multiset(t) == multiset(s) && n <= k <= |t| :: p(t[..k]) {
      forall u | |u| >= n && multiset(u) <= multiset(s)
        ensures p(u)
      {
        var rest := Listed(multiset(s) - multiset(u));
        assert multiset(u + rest) == multiset(s);
        assert (u + rest)[..|u|] == u;
      }
    }
    if forall u | |u| >= n && multiset(u) <= multiset(s) :: p(u) {
      forall t: seq<Expr>, k: nat | multiset(t) == multiset(s) && n <= k <= |t|
        ensures p(t[..k])
      {
        assert t == t[..k] + t[k..];
        assert multiset(t[..k]) <= multiset(s);
      }
    }
  }

  // Every order completes exactly when every two or more of the expressions fit together.
  lemma AllOrders(s: seq<Expr>)
    ensures (forall t | multiset(t) == multiset(s) :: AuCompletes(t))
       <==> (forall u | |u| >= 2 && multiset(u) <= multiset(s) :: Fits(u))
  {
    hide Fits;
    Prefixes(s, 2, Fits);
    if forall t | multiset(t) == multiset(s) :: AuCompletes(t) {
      forall t: seq<Expr>, k: nat | multiset(t) == multiset(s) && 2 <= k <= |t|
        ensures Fits(t[..k])
      {
        assert AuCompletes(t);
      }
    }
  }

  // The same for unification.
  lemma UAllOrders(s: seq<Expr>)
    ensures (forall t: seq<Expr> | multiset(t) == multiset(s) :: UCompletes(t))
       <==> (forall u | |u| >= 1 && multiset(u) <= multiset(s) :: InstanceFits(u))
  {
    hide InstanceFits;
    Prefixes(s, 1, InstanceFits);
    if forall t | multiset(t) == multiset(s) :: UCompletes(t) {
      forall t: seq<Expr>, k: nat | multiset(t) == multiset(s) && 1 <= k <= |t|
        ensures InstanceFits(t[..k])
      {
        assert UCompletes(t);
      }
    }
  }

  lemma Listed<T>(m: multiset<T>) returns (s: seq<T>)
    ensures multiset(s) == m
    decreases |m|
  {
    if m == multiset{} {
      s := [];
    } else {
      var x :| x in m;
      var tl := Listed(m - multiset{x});
      s := [x] + tl;
    }
  }

  /* ---- A condition that the caller can check ---- */

  // The items that are no compound with arguments.
  function Leaves<X>(ts: Terms<X>): nat {
    match ts
    case Nil => 0
    case Cons(App(kids), tl) => (if kids == Nil then 1 else Leaves(kids)) + Leaves(tl)
    case Cons(_, tl) => 1 + Leaves(tl)
  }

  lemma LeavesCons<X>(t: Term<X>, tl: Terms<X>)
    ensures Leaves(Cons(t, tl)) == Leaves(One(t)) + Leaves(tl)
    ensures Leaves(One(t)) >= 1
    decreases t
  {
    assert Leaves<X>(Nil) == 0;
    if t.App? && t.args.Cons? {
      LeavesCons(t.args.head, t.args.tail);
    }
  }

  // An instance has no fewer leaves.
  lemma {:induction false} LeavesGrow<X, Y>(th: X -> Term<Y>, ts: Terms<X>)
    ensures Leaves(ts) <= Leaves(Subst(th, ts))
    decreases ts
  {
    if ts.Cons? {
      var t, tl := ts.head, ts.tail;
      LeavesGrow(th, tl);
      LeavesCons(t, tl);
      LeavesCons(Subst1(th, t), Subst(th, tl));
      match t
      case Var(x) => assert Leaves(One(t)) == 1;
      case Sym(_) => assert Leaves(One(t)) == 1;
      case App(kids) =>
        LeavesGrow(th, kids);
        assert Leaves(One(t)) == (if kids == Nil then 1 else Leaves(kids)) + Leaves<X>(Nil);
        assert Leaves(One(Subst1(th, t))) == (if kids == Nil then 1 else Leaves(Subst(th, kids))) + Leaves<Y>(Nil);
    }
  }

  lemma {:induction false} LeavesAbs(es: Exprs, n: nat, v: nat)
    ensures Leaves(Abs(es, n, v)) == Leaves(es)
    decreases es
  {
    if es.Cons? {
      var e, tl := es.head, es.tail;
      AbsCons(e, tl, n, v);
      LeavesAbs(tl, n, v + NewVars(One(e)));
      LeavesCons(e, tl);
      LeavesCons(Abs1(e, n, v), Abs(tl, n, v + NewVars(One(e))));
      OneFacts(e, n, v);
      assert Leaves<Occ>(Nil) == 0 && Leaves<ExprVar>(Nil) == 0;
      if e.App? {
        LeavesAbs(e.args, n, v);
      }
    }
  }

  lemma {:induction false} NewVarsLeaves<X>(ts: Terms<X>, asg: seq<X>)
    ensures NewVars(Number(ts, asg)) <= Leaves(ts)
    decreases ts
  {
    match ts
    case Nil =>
    case Cons(Var(x), tl) => NewVarsLeaves(tl, if x in asg then asg else asg + [x]);
    case Cons(Sym(_), tl) => NewVarsLeaves(tl, asg);
    case Cons(App(kids), tl) =>
      NewVarsLeaves(kids, asg);
      NewVarsLeaves(tl, Assigned(kids, asg));
  }

  // One expression of at most 64 leaves keeps every generalisation with it within 64 variables.
  lemma SmallFits(seen: seq<Expr>, e: Expr)
    requires e in seen && Leaves(One(e)) <= 64
    ensures Fits(seen)
  {
    forall g: AbsTerm | IsLggOf(g, seen)
      ensures NewVars(Number(One(g), [])) <= 64
    {
      var th: Substitution :| Subst1(th, g) == TermOf(e);
      LeavesGrow(th, One(g));
      assert Subst(th, One(g)) == One(Subst1(th, g));
      AbsCons(e, Nil, 0, 0);
      LeavesAbs(One(e), 0, 0);
      NewVarsLeaves(One(g), []);
    }
  }

  // A query completes when one of its first two expressions is small.
  lemma SmallCompletes(s: seq<Expr>)
    requires |s| >= 2 ==> Leaves(One(s[0])) <= 64 || Leaves(One(s[1])) <= 64
    ensures AuCompletes(s)
  {
    forall k | 2 <= k <= |s|
      ensures Fits(s[..k])
    {
      assert s[..k][0] == s[0] && s[..k][1] == s[1];
      SmallFits(s[..k], if Leaves(One(s[0])) <= 64 then s[0] else s[1]);
    }
  }

  // So every order completes when all expressions are.
  lemma SmallAllOrders(s: seq<Expr>, t: seq<Expr>)
    requires forall e | e in s :: Leaves(One(e)) <= 64
    requires multiset(t) == multiset(s)
    ensures AuCompletes(t)
  {
    SameElements(s, t);
    SmallCompletes(t);
  }

  /* ---- The order can decide ---- */

  // `n` different symbols of one byte.
  function Row(k: nat, n: nat): Exprs
    requires k + n <= 256
    decreases n
  {
    if n == 0 then Nil else Cons(Sym([k]), Row(k + 1, n - 1))
  }

  // Two compounds of `n` different symbols each.
  function Wide(k: nat, n: nat): Expr
    requires k + 2 * n <= 256
  {
    App(Cons(App(Row(k, n)), Cons(App(Row(k + n, n)), Nil)))
  }

  lemma {:induction false} RowIs(k: nat, n: nat, v: nat)
    requires k + n <= 256 && n < 64
    ensures WF(Row(k, n)) && Len(Row(k, n)) == n && NewVars(Row(k, n)) == 0 && ClosedFrom(Row(k, n), v)
    decreases n
  {
    if n > 0 {
      RowIs(k + 1, n - 1, v);
    }
  }

  lemma ClosedApp2(p: Exprs, q: Exprs)
    requires WF(p) && NewVars(p) == 0 && ClosedFrom(p, 0) && Len(p) < 64
    requires WF(q) && NewVars(q) == 0 && ClosedFrom(q, 0) && Len(q) < 64
    ensures Closed(App(Cons(App(p), One(App(q)))))
  {
    var tl := One(App(q));
    assert WF(tl) && NewVars(tl) == 0 && ClosedFrom(tl, 0);
    var kids := Cons(App(p), tl);
    assert WF(kids) && NewVars(kids) == 0 && ClosedFrom(kids, 0) && Len(kids) == 2;
  }

  lemma WideClosed(k: nat, n: nat)
    requires k + 2 * n <= 256 && n < 64
    ensures Closed(Wide(k, n))
  {
    hide *;
    RowIs(k, n, 0);
    RowIs(k + n, n, 0);
    ClosedApp2(Row(k, n), Row(k + n, n));
    WideIs(k, n);
  }

  lemma WideIs(k: nat, n: nat)
    requires k + 2 * n <= 256
    ensures Wide(k, n) == App(Cons(App(Row(k, n)), One(App(Row(k + n, n)))))
  {
  }

  // Rows of different symbols are generalised to different variables.
  lemma {:induction false} RowAssigned(k: nat, m: nat, n: nat, asg: seq<Pair>)
    requires m + n <= 256 && k + n <= m
    requires forall q | q in asg :: q.0.Sym? && |q.0.s| == 1 && q.0.s[0] < k
    ensures var r := Assigned(Gen(Abs(Row(k, n), 0, 0), Abs(Row(m, n), 1, 0)), asg);
            |r| == |asg| + n && forall q | q in r :: q.0.Sym? && |q.0.s| == 1 && q.0.s[0] < k + n
    decreases n
  {
    if n > 0 {
      var q: Pair := (Sym([k]), Sym([m]));
      assert q !in asg;
      RowAssigned(k + 1, m + 1, n - 1, asg + [q]);
    }
  }

  // The generalisation of two wide expressions.
  lemma WideGen(k: nat, m: nat, n: nat)
    requires m + 2 * n <= 256 && k + 2 * n <= 256 && n < 64
    ensures Gen1(Side(Wide(k, n), 0), Side(Wide(m, n), 1))
         == App(Cons(App(Gen(Abs(Row(k, n), 0, 0), Abs(Row(m, n), 1, 0))),
                     One(App(Gen(Abs(Row(k + n, n), 0, 0), Abs(Row(m + n, n), 1, 0))))))
  {
    hide Row, Gen, Abs, NewVars;
    SideWide(k, n, 0);
    SideWide(m, n, 1);
    RowIs(k, n, 0);
    RowIs(k + n, n, 0);
    RowIs(m, n, 0);
    RowIs(m + n, n, 0);
    AbsLen(Row(k, n), 0, 0);
    AbsLen(Row(k + n, n), 0, 0);
    AbsLen(Row(m, n), 1, 0);
    AbsLen(Row(m + n, n), 1, 0);
    GenApp2(Abs(Row(k, n), 0, 0), Abs(Row(k + n, n), 0, 0), Abs(Row(m, n), 1, 0), Abs(Row(m + n, n), 1, 0));
  }

  lemma SideWide(k: nat, n: nat, sp: nat)
    requires k + 2 * n <= 256 && n < 64
    ensures Side(Wide(k, n), sp) == App(Cons(App(Abs(Row(k, n), sp, 0)), One(App(Abs(Row(k + n, n), sp, 0)))))
  {
    hide Row, Abs, NewVars;
    RowIs(k, n, 0);
    RowIs(k + n, n, 0);
    var x, y: Expr := App(Row(k, n)), App(Row(k + n, n));
    OneFacts(Wide(k, n), sp, 0);
    AbsCons(Wide(k, n), Nil, sp, 0);
    AbsCons(x, One(y), sp, 0);
    AbsCons(y, Nil, sp, 0);
    OneFacts(x, sp, 0);
    OneFacts(y, sp, 0);
  }

  lemma GenApp(ts: AbsTerms, us: AbsTerms)
    requires Len(ts) == Len(us)
    ensures Gen1(App(ts), App(us)) == App(Gen(ts, us)) && Gen(Nil, Nil) == Nil
  {
  }

  lemma GenApp2(a: AbsTerms, b: AbsTerms, c: AbsTerms, d: AbsTerms)
    requires Len(a) == Len(c) && Len(b) == Len(d)
    ensures Gen1(App(Cons(App(a), One(App(b)))), App(Cons(App(c), One(App(d)))))
         == App(Cons(App(Gen(a, c)), One(App(Gen(b, d)))))
  {
    hide Gen, Gen1;
    GenCons(App(a), One(App(b)), App(c), One(App(d)));
    GenCons(App(b), Nil, App(d), Nil);
    GenApp(a, c);
    GenApp(b, d);
    GenApp(Cons(App(a), One(App(b))), Cons(App(c), One(App(d))));
  }

  lemma AssignedApp2(p: Terms<Pair>, q: Terms<Pair>)
    ensures Assigned(One(App(Cons(App(p), One(App(q))))), []) == Assigned(q, Assigned(p, []))
  {
    var asg := Assigned(p, []);
    assert Assigned(One(App(q)), asg) == Assigned(q, asg);
    assert Assigned(Cons(App(p), One(App(q))), []) == Assigned(One(App(q)), asg);
  }

  lemma WideTooMany(n: nat)
    requires 32 < n < 64
    ensures !Fits([Wide(0, n), Wide(2 * n, n)])
  {
    hide *;
    var a, b := Wide(0, n), Wide(2 * n, n);
    LggOfOne(a);
    FitsStep(a, [a], b);
    assert [a] + [b] == [a, b];
    WideGen(0, 2 * n, n);
    var p, q := Gen(Abs(Row(0, n), 0, 0), Abs(Row(2 * n, n), 1, 0)), Gen(Abs(Row(n, n), 0, 0), Abs(Row(3 * n, n), 1, 0));
    RowAssigned(0, 2 * n, n, []);
    RowAssigned(n, 3 * n, n, Assigned(p, []));
    AssignedApp2(p, q);
    assert 0 + n == n && 2 * n + n == 3 * n;
  }

  // The variable `$` generalises whatever it is sunk with to itself.
  lemma VariableResult(s: seq<Expr>)
    requires Var(New) in s
    ensures AuResult([0xC0], s)
  {
    var v: Expr := Var(New);
    var g: AbsTerm := Var((0, 0));
    assert TermOf(v) == g;
    forall e | e in s
      ensures Instance(g, TermOf(e))
    {
      var th: Substitution := (x: ExprVar) => TermOf(e);
      assert Subst1(th, g) == TermOf(e);
    }
    assert IsLggOf(g, s);
    ClosedEncodes(v, 0);
  }

  // Two wide expressions and `$`: in one order the query fails, in another it completes.
  lemma OrderMatters(n: nat)
    requires 32 < n < 64
    ensures var a, b, v := Wide(0, n), Wide(2 * n, n), Var(New);
      && Closed(a) && Closed(b) && Closed(v) && multiset([a, b, v]) == multiset([v, a, b])
      && !AuCompletes([a, b, v]) && AuCompletes([v, a, b]) && AuResult([0xC0], [v, a, b])
  {
    hide Fits, AuResult, Row, Wide;
    var a, b, v: Expr := Wide(0, n), Wide(2 * n, n), Var(New);
    WideClosed(0, n);
    WideClosed(2 * n, n);
    WideTooMany(n);
    assert [a, b, v][..2] == [a, b];
    SmallCompletes([v, a, b]);
    VariableResult([v, a, b]);
  }
}
