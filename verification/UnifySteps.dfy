/** The steps of unification on subexpressions, without the loop: which pairs a step leaves to be
    solved, in which order, and what it binds. */
module UnificationSteps {
  import opened Terms
  import opened Encoding
  import opened Wrappers
  import opened Trees
  import opened Envs

  datatype UnifyResult =
    | Unified(bindings: EnvBindings)
    | Difference(x: ExprEnv, y: ExprEnv)
    | OccursIn(v: ExprVar, e: ExprEnv)
    | MaxIter(iterations: nat)

  /* ---- The gaps between two subexpressions ---- */

  ghost function Both(x: Option<seq<EnvPair>>, y: Option<seq<EnvPair>>): Option<seq<EnvPair>> {
    if x.Some? && y.Some? then Some(x.value + y.value) else None
  }

  // The pairs below `es`, which stands at `x`, and `fs`, which stands at `y`, where one side is a
  // variable, in reading order; None when two functors clash.
  ghost function Gaps(x: ExprEnv, es: Exprs, y: ExprEnv, fs: Exprs): Option<seq<EnvPair>>
    decreases es
  {
    match (es, fs)
    case (Nil, Nil) => Some([])
    case (Cons(e, tl), Cons(f, ul)) =>
      var here := if e.Var? || f.Var? then Some([(x, y)])
                  else if e.Sym? && f.Sym? then (if e.s == f.s then Some([]) else None)
                  else if e.App? && f.App? then Gaps(x.Offset(1), e.args, y.Offset(1), f.args)
                  else None;
      Both(here, Gaps(Past(x, e), tl, Past(y, f), ul))
    case _ => None
  }

  lemma BothNothing(x: Option<seq<EnvPair>>)
    ensures Both(Some([]), x) == Both(x, Some([])) == x
  {
    if x.Some? {
      assert [] + x.value == x.value == x.value + [];
    }
  }

  lemma BothAssoc(x: seq<EnvPair>, y: seq<EnvPair>, z: Option<seq<EnvPair>>)
    ensures Both(Some(x), Both(Some(y), z)) == Both(Some(x + y), z)
  {
    if z.Some? {
      assert (x + y) + z.value == x + (y + z.value);
    }
  }

  ghost function Gaps1(x: ExprEnv, e: Expr, y: ExprEnv, f: Expr): Option<seq<EnvPair>> {
    Gaps(x, One(e), y, One(f))
  }

  lemma GapsOne(x: ExprEnv, e: Expr, y: ExprEnv, f: Expr)
    ensures e.Var? || f.Var? ==> Gaps1(x, e, y, f) == Some([(x, y)])
    ensures e.Sym? && f.Sym? ==> Gaps1(x, e, y, f) == if e.s == f.s then Some([]) else None
    ensures e.App? && f.App? ==> Gaps1(x, e, y, f) == Gaps(x.Offset(1), e.args, y.Offset(1), f.args)
    ensures (e.App? && f.Sym?) || (e.Sym? && f.App?) ==> Gaps1(x, e, y, f) == None
  {
    hide EncLen, NewVars;
    assert Gaps(Past(x, e), Nil, Past(y, f), Nil) == Some([]);
    BothNothing(Some([(x, y)]));
    BothNothing(Some([]));
    if e.App? && f.App? {
      BothNothing(Gaps(x.Offset(1), e.args, y.Offset(1), f.args));
    }
  }

  lemma GapsCons(x: ExprEnv, e: Expr, tl: Exprs, y: ExprEnv, f: Expr, ul: Exprs)
    ensures Gaps(x, Cons(e, tl), y, Cons(f, ul)) == Both(Gaps1(x, e, y, f), Gaps(Past(x, e), tl, Past(y, f), ul))
  {
    hide EncLen, NewVars;
    GapsOne(x, e, y, f);
  }

  lemma GapsLen(x: ExprEnv, es: Exprs, y: ExprEnv, fs: Exprs)
    requires Len(es) != Len(fs)
    ensures Gaps(x, es, y, fs).None?
    decreases es
  {
    hide EncLen, NewVars;
    if es.Cons? && fs.Cons? {
      GapsLen(Past(x, es.head), es.tail, Past(y, fs.head), fs.tail);
    }
  }

  lemma DenStackAppend(s: seq<EnvPair>, t: seq<EnvPair>)
    requires forall q | q in s :: ValidPair(q)
    requires forall q | q in t :: ValidPair(q)
    ensures forall q | q in s + t :: ValidPair(q)
    ensures DenStack(s + t) == DenStack(s) + DenStack(t)
  {
  }

  // The gaps are the disagreement pairs of the two terms.
  lemma {:induction false} GapsDenote(x: ExprEnv, es: Exprs, y: ExprEnv, fs: Exprs)
    requires Stands(x, es) && Stands(y, fs)
    ensures var g, h := Gaps(x, es, y, fs), Holes(Abs(es, x.n, x.v), Abs(fs, y.n, y.v));
      && (g.Some? <==> h.Some?)
      && (g.Some? ==> (forall q | q in g.value :: ValidPair(q)) && DenStack(g.value) == h.value)
    decreases es
  {
    hide Stands, ValidEnv, EncLen, NewVars, Abs, Holes, Gaps;
    if es.Cons? && fs.Cons? {
      var e, tl, f, ul := es.head, es.tail, fs.head, fs.tail;
      StandsCons(x, e, tl);
      StandsCons(y, f, ul);
      GapsDenote(Past(x, e), tl, Past(y, f), ul);
      GapsCons(x, e, tl, y, f, ul);
      AbsCons(e, tl, x.n, x.v);
      AbsCons(f, ul, y.n, y.v);
      if e.App? && f.App? {
        StandsChildren(x);
        StandsChildren(y);
        GapsDenote(x.Offset(1), e.args, y.Offset(1), f.args);
      }
      GapDenotes(x, e, y, f);
      HolesCons(Abs1(e, x.n, x.v), Abs(tl, x.n, x.v + NewVars(One(e))), Abs1(f, y.n, y.v), Abs(ul, y.n, y.v + NewVars(One(f))));
      var g, r := Gaps1(x, e, y, f), Gaps(Past(x, e), tl, Past(y, f), ul);
      if g.Some? && r.Some? {
        DenStackAppend(g.value, r.value);
      }
    } else {
      GapsEnds(x, es, y, fs);
    }
  }

  lemma GapsEnds(x: ExprEnv, es: Exprs, y: ExprEnv, fs: Exprs)
    requires es.Nil? || fs.Nil?
    ensures var g, h := Gaps(x, es, y, fs), Holes(Abs(es, x.n, x.v), Abs(fs, y.n, y.v));
      if es.Nil? && fs.Nil? then g == Some([]) && h == Some([]) else g == None && h == None
    ensures DenStack([]) == []
  {
  }

  lemma HolesOne(t: AbsTerm, u: AbsTerm)
    ensures t.Var? || u.Var? ==> Holes(One(t), One(u)) == Some([(t, u)])
    ensures t.App? && u.App? ==> Holes(One(t), One(u)) == Holes(t.args, u.args)
    ensures t.Sym? && u.Sym? ==> Holes(One(t), One(u)) == if t.s == u.s then Some([]) else None
    ensures (t.App? && u.Sym?) || (t.Sym? && u.App?) ==> Holes(One(t), One(u)) == None
  {
    assert [(t, u)] + [] == [(t, u)];
    var nothing: seq<Pair> := [];
    assert nothing + nothing == nothing;
    if t.App? && u.App? && Holes(t.args, u.args).Some? {
      var h := Holes(t.args, u.args).value;
      assert h + [] == h;
    }
  }

  lemma HolesCons(t: AbsTerm, tl: AbsTerms, u: AbsTerm, ul: AbsTerms)
    ensures var h, r := Holes(One(t), One(u)), Holes(tl, ul);
      Holes(Cons(t, tl), Cons(u, ul)) == if h.Some? && r.Some? then Some(h.value + r.value) else None
  {
    HolesOne(t, u);
  }

  lemma GapDenotes(x: ExprEnv, e: Expr, y: ExprEnv, f: Expr)
    requires EnvIs(x, e) && EnvIs(y, f)
    requires e.App? && f.App? ==>
      var g, h := Gaps(x.Offset(1), e.args, y.Offset(1), f.args), Holes(Abs(e.args, x.n, x.v), Abs(f.args, y.n, y.v));
      && (g.Some? <==> h.Some?)
      && (g.Some? ==> (forall q | q in g.value :: ValidPair(q)) && DenStack(g.value) == h.value)
    ensures var g, h := Gaps1(x, e, y, f), Holes(One(Abs1(e, x.n, x.v)), One(Abs1(f, y.n, y.v)));
      && (g.Some? <==> h.Some?)
      && (g.Some? ==> (forall q | q in g.value :: ValidPair(q)) && DenStack(g.value) == h.value)
  {
    hide EnvIs, ValidEnv, EncLen, NewVars, Gaps, Holes, Gaps1;
    GapsOne(x, e, y, f);
    EnvIsDen(x, e);
    EnvIsDen(y, f);
    HolesOne(Den(x), Den(y));
    OneFacts(e, x.n, x.v);
    OneFacts(f, y.n, y.v);
  }

  /* ---- Pushing ---- */

  ghost predicate Unbound(b: Bindings, t: AbsTerm) {
    t.Var? && Walk(b, t).Var?
  }

  // Two unbound variables are always pushed, any other pair only once.
  ghost function PushOne(b: Bindings, q: EnvPair, s: seq<EnvPair>, e: set<EnvPair>): (seq<EnvPair>, set<EnvPair>)
    requires ValidPair(q)
  {
    if Unbound(b, Den(q.0)) && Unbound(b, Den(q.1)) then (s + [q], e)
    else if q in e then (s, e)
    else (s + [q], e + {q})
  }

  ghost function PushAll(b: Bindings, h: seq<EnvPair>, s: seq<EnvPair>, e: set<EnvPair>): (seq<EnvPair>, set<EnvPair>)
    requires forall q | q in h :: ValidPair(q)
    decreases |h|
  {
    if h == [] then (s, e) else
      assert ValidPair(h[0]) && forall q | q in h[1..] :: q in h;
      var (s', e') := PushOne(b, h[0], s, e);
      PushAll(b, h[1..], s', e')
  }

  lemma {:induction false} PushAllThen(b: Bindings, h1: seq<EnvPair>, h2: seq<EnvPair>, s: seq<EnvPair>, e: set<EnvPair>)
    requires forall q | q in h1 :: ValidPair(q)
    requires forall q | q in h2 :: ValidPair(q)
    ensures forall q | q in h1 + h2 :: ValidPair(q)
    ensures var (s', e') := PushAll(b, h1, s, e); PushAll(b, h1 + h2, s, e) == PushAll(b, h2, s', e')
    decreases |h1|
  {
    hide ValidPair;
    if h1 == [] {
      assert h1 + h2 == h2;
    } else {
      assert ValidPair(h1[0]) && forall q | q in h1[1..] :: q in h1;
      var (s', e') := PushOne(b, h1[0], s, e);
      PushAllThen(b, h1[1..], h2, s', e');
      assert (h1 + h2)[0] == h1[0] && (h1 + h2)[1..] == h1[1..] + h2;
    }
  }

  lemma PushAllValid(b: Bindings, h: seq<EnvPair>, s: seq<EnvPair>, e: set<EnvPair>)
    requires forall q | q in h :: ValidPair(q)
    ensures var r := PushAll(b, h, s, e);
      && (forall q | q in r.0 :: q in s || q in h) && (forall q | q in r.1 :: q in e || q in h) && |r.0| <= |s| + |h|
    decreases |h|
  {
    hide ValidPair;
    if h != [] {
      assert ValidPair(h[0]) && forall q | q in h[1..] :: q in h;
      var (s', e') := PushOne(b, h[0], s, e);
      PushAllValid(b, h[1..], s', e');
    }
  }

  /* ---- One step ---- */

  // The bindings, the pairs still to be solved, the last one first, and the pairs pushed so far.
  datatype Moment = Moment(bindings: EnvBindings, stack: seq<EnvPair>, encountered: set<EnvPair>) {
    ghost predicate Valid() {
      && (forall x | x in bindings :: ValidEnv(bindings[x]))
      && (forall q | q in stack :: ValidPair(q))
    }
  }

  // The end of the chain of bindings from `t`. Each binding is followed at most once.
  ghost function Deref(b: EnvBindings, t: ExprEnv): (d: ExprEnv)
    requires ValidEnv(t) && forall x | x in b :: ValidEnv(b[x])
    ensures ValidEnv(d)
    decreases b.Keys
  {
    if Den(t).Var? && Den(t).x in b then Deref(b - {Den(t).x}, b[Den(t).x]) else t
  }

  // Binding `x` to what `d` stands for, unless it occurs there.
  ghost function BindTo(m: Moment, x: ExprVar, d: ExprEnv): Result<Moment, UnifyResult>
    requires ValidEnv(d)
  {
    if Occurs(x, One(Den(d))) then Err(OccursIn(x, d)) else Ok(m.(bindings := m.bindings[x := d]))
  }

  // What solving the last pair leaves.
  ghost function Step(m: Moment): (r: Result<Moment, UnifyResult>)
    requires m.Valid() && m.stack != []
    ensures r.Ok? ==> r.value.Valid()
    ensures r.Err? ==> !r.error.Unified? && !r.error.MaxIter?
  {
    var top := |m.stack| - 1;
    assert ValidPair(m.stack[top]);
    var rest := m.(stack := m.stack[..top]);
    var x, y := Deref(m.bindings, m.stack[top].0), Deref(m.bindings, m.stack[top].1);
    if !Den(x).Var? && !Den(y).Var? then
      GapsOfDen(x, y);
      match Gaps1(x, ExprOf(x), y, ExprOf(y))
      case None => Err(Difference(x, y))
      case Some(h) =>
        PushAllValid(DenBindings(m.bindings), h, rest.stack, rest.encountered);
        var (s, e) := PushAll(DenBindings(m.bindings), h, rest.stack, rest.encountered);
        Ok(Moment(m.bindings, s, e))
    else if Den(x) == Den(y) then Ok(rest)
    else if Den(x).Var? then BindTo(rest, Den(x).x, y)
    else BindTo(rest, Den(y).x, x)
  }

  // The step by cases, for the two ends `x` and `y` of the last pair.
  lemma StepIs(m: Moment, rest: seq<EnvPair>, q: EnvPair, x: ExprEnv, y: ExprEnv)
    requires m.Valid() && m.stack == rest + [q] && ValidPair(q)
    requires x == Deref(m.bindings, q.0) && y == Deref(m.bindings, q.1)
    ensures ValidEnv(x) && ValidEnv(y)
    ensures !Den(x).Var? && !Den(y).Var? ==>
      match Gaps1(x, ExprOf(x), y, ExprOf(y))
      case None => Step(m) == Err(Difference(x, y))
      case Some(h) =>
        && (forall r | r in h :: ValidPair(r))
        && var (s, e) := PushAll(DenBindings(m.bindings), h, rest, m.encountered);
           Step(m) == Ok(Moment(m.bindings, s, e))
    ensures Den(x).Var? && Den(x) == Den(y) ==> Step(m) == Ok(m.(stack := rest))
    ensures Den(x).Var? && Den(x) != Den(y) ==> Step(m) == BindTo(m.(stack := rest), Den(x).x, y)
    ensures !Den(x).Var? && Den(y).Var? ==> Step(m) == BindTo(m.(stack := rest), Den(y).x, x)
  {
    hide Den, ValidEnv, Deref, PushAll, Gaps, Gaps1, DenBindings, BindTo, ExprOf;
    var top := |m.stack| - 1;
    assert m.stack[top] == q && m.stack[..top] == rest;
    if !Den(x).Var? && !Den(y).Var? {
      GapsOfDen(x, y);
    }
  }

  lemma GapsOfDen(x: ExprEnv, y: ExprEnv)
    requires ValidEnv(x) && ValidEnv(y)
    ensures var g, h := Gaps1(x, ExprOf(x), y, ExprOf(y)), Holes(One(Den(x)), One(Den(y)));
      && (g.Some? <==> h.Some?)
      && (g.Some? ==> (forall q | q in g.value :: ValidPair(q)) && DenStack(g.value) == h.value)
  {
    hide Gaps, Holes, Abs, NewVars;
    GapsDenote(x, One(ExprOf(x)), y, One(ExprOf(y)));
    AbsCons(ExprOf(x), Nil, x.n, x.v);
    AbsCons(ExprOf(y), Nil, y.n, y.v);
  }

  // `n` steps, or as many as there are.
  ghost function After(m: Moment, n: nat): (r: Result<Moment, UnifyResult>)
    requires m.Valid()
    ensures r.Ok? ==> r.value.Valid()
    ensures r.Err? ==> !r.error.Unified? && !r.error.MaxIter?
  {
    if n == 0 then Ok(m) else
      match After(m, n - 1)
      case Err(f) => Err(f)
      case Ok(k) => if k.stack == [] then Ok(k) else Step(k)
  }

  lemma AfterNext(m: Moment, n: nat, k: Moment)
    requires m.Valid() && After(m, n) == Ok(k) && k.stack != []
    ensures k.Valid() && After(m, n + 1) == Step(k)
  {
    hide Step;
  }

  lemma AfterNothing(m: Moment)
    requires m.Valid()
    ensures After(m, 0) == Ok(m)
  {
  }

  // More than `n` steps are needed.
  ghost predicate NeedsMore(m: Moment, n: nat)
    requires m.Valid()
  {
    After(m, n).Ok? && After(m, n).value.stack != []
  }

  // The result of unifying from `m` with at most `limit + 1` steps.
  ghost predicate Ends(m: Moment, limit: Option<nat>, r: UnifyResult)
    requires m.Valid()
  {
    match r
    case Unified(b) =>
      exists n: nat, e :: (limit.Some? ==> n <= limit.value + 1) && After(m, n) == Ok(Moment(b, [], e))
    case MaxIter(n) => limit.Some? && n == limit.value + 1 && NeedsMore(m, limit.value + 1)
    case f => exists n: nat :: (limit.Some? ==> n <= limit.value + 1) && After(m, n) == Err(f)
  }

  lemma EndsWith(m: Moment, limit: Option<nat>, n: nat, r: UnifyResult, e: set<EnvPair>)
    requires m.Valid() && (limit.Some? ==> n <= limit.value + 1)
    requires if r.Unified? then After(m, n) == Ok(Moment(r.bindings, [], e)) else After(m, n) == Err(r)
    ensures Ends(m, limit, r)
  {
    hide After, Step, m.Valid;
  }

  lemma EndsCapped(m: Moment, limit: nat, k: Moment)
    requires m.Valid() && After(m, limit + 1) == Ok(k) && k.stack != []
    ensures Ends(m, Some(limit), MaxIter(limit + 1))
  {
    hide After, Step, m.Valid;
  }

  lemma {:induction false} AfterStays(m: Moment, n: nat, k: nat)
    requires m.Valid() && n <= k && (After(m, n).Err? || After(m, n).value.stack == [])
    ensures After(m, k) == After(m, n)
    decreases k
  {
    hide Step, m.Valid;
    if n < k {
      AfterStays(m, n, k - 1);
    }
  }

  // An answer within the limit needs no more steps than that.
  lemma EndsWithin(m: Moment, limit: nat, r: UnifyResult)
    requires m.Valid() && Ends(m, Some(limit), r) && !r.MaxIter?
    ensures !NeedsMore(m, limit + 1)
  {
    hide After, Step, Ends;
    var n := EndOf(m, Some(limit), r);
    AfterStays(m, n, limit + 1);
  }

  lemma EndsSame(m: Moment, limit: Option<nat>, r: UnifyResult, r': UnifyResult)
    requires m.Valid() && Ends(m, limit, r) && Ends(m, limit, r') && !r.MaxIter? && !r'.MaxIter?
    ensures r == r'
  {
    hide After, Step, Ends;
    var n, k := EndOf(m, limit, r), EndOf(m, limit, r');
    if n <= k {
      AfterStays(m, n, k);
    } else {
      AfterStays(m, k, n);
    }
  }

  lemma EndsCappedIs(m: Moment, limit: Option<nat>, n: nat)
    requires m.Valid() && Ends(m, limit, MaxIter(n))
    ensures limit.Some? && n == limit.value + 1 && NeedsMore(m, limit.value + 1)
  {
    hide After, Step, NeedsMore, m.Valid;
  }

  // A limit decides: the steps end before it in one way, or go on past it.
  lemma EndsOnce(m: Moment, limit: Option<nat>, r: UnifyResult, r': UnifyResult)
    requires m.Valid() && Ends(m, limit, r) && Ends(m, limit, r')
    ensures r == r'
  {
    hide *;
    if r.MaxIter? {
      EndsCappedIs(m, limit, r.iterations);
      if r'.MaxIter? {
        EndsCappedIs(m, limit, r'.iterations);
      } else {
        EndsWithin(m, limit.value, r');
      }
    } else if r'.MaxIter? {
      EndsCappedIs(m, limit, r'.iterations);
      EndsWithin(m, limit.value, r);
    } else {
      EndsSame(m, limit, r, r');
    }
  }

  ghost function EndOf(m: Moment, limit: Option<nat>, r: UnifyResult): (n: nat)
    requires m.Valid() && Ends(m, limit, r)
    ensures !r.MaxIter? ==> (limit.Some? ==> n <= limit.value + 1)
    ensures r.Unified? ==> After(m, n).Ok? && After(m, n).value.stack == [] && After(m, n).value.bindings == r.bindings
    ensures !r.Unified? && !r.MaxIter? ==> After(m, n) == Err(r)
  {
    match r
    case Unified(b) =>
      var n: nat, e :| (limit.Some? ==> n <= limit.value + 1) && After(m, n) == Ok(Moment(b, [], e));
      n
    case MaxIter(_) => 0
    case f =>
      var n: nat :| (limit.Some? ==> n <= limit.value + 1) && After(m, n) == Err(f);
      n
  }
}
