/** Unification over encoded expressions: the worklist, the bindings and the `encountered` set. */
module Unification {
  import opened Items
  import opened Terms
  import opened Encoding
  import opened Traversals
  import opened Wrappers
  import opened Trees
  import opened Solutions
  import opened Envs
  import opened UnificationSteps

  const MAX_UNIFY_ITER: nat := 1000

  /* ---- What a run of pushes does ---- */

  ghost predicate BothCompound(b: Bindings, q: Pair) {
    !Walk(b, q.0).Var? && !Walk(b, q.1).Var?
  }

  ghost predicate Bound(b: EnvBindings, u: Universe) {
    forall x | x in b :: u.HasVar(x) && u.Has(b[x])
  }

  // The pushes of `h` took the work list from `s0` to `s1` and the encountered set from `e0` to `e1`.
  ghost predicate Pushed(b: Bindings, u: Universe, h: seq<EnvPair>,
                         s0: seq<EnvPair>, e0: set<EnvPair>, s1: seq<EnvPair>, e1: set<EnvPair>) {
    && (forall q | q in h :: u.HasPair(q))
    && (s1, e1) == PushAll(b, h, s0, e0)
    && |s0| <= |s1| && s1[..|s0|] == s0
    && (forall q | q in s1[|s0|..] :: q in h)
    && (forall q | q in h :: q in s1[|s0|..] || q in e0)
    && e0 <= e1 && (forall q | q in e1 :: q in e0 || q in s1[|s0|..])
    && (e1 == e0 ==> forall q | q in s1[|s0|..] :: ValidPair(q) && !BothCompound(b, DenPair(q)))
  }

  lemma PushedNothing(b: Bindings, u: Universe, s: seq<EnvPair>, e: set<EnvPair>)
    ensures Pushed(b, u, [], s, e, s, e)
  {
  }

  lemma PushedThen(b: Bindings, u: Universe, h1: seq<EnvPair>, h2: seq<EnvPair>,
                   s0: seq<EnvPair>, e0: set<EnvPair>, s1: seq<EnvPair>, e1: set<EnvPair>,
                   s2: seq<EnvPair>, e2: set<EnvPair>)
    requires Pushed(b, u, h1, s0, e0, s1, e1) && Pushed(b, u, h2, s1, e1, s2, e2)
    ensures Pushed(b, u, h1 + h2, s0, e0, s2, e2)
  {
    hide Walk, Den, ValidEnv, PushAll;
    PushAllThen(b, h1, h2, s0, e0);
    assert s2[..|s0|] == s2[..|s1|][..|s0|];
    var t := s2[|s1|..];
    assert s2 == s1 + t;
    assert s2[|s0|..] == s1[|s0|..] + t;
  }

  /* ---- The third component of the termination measure ---- */

  ghost function CountCompound(b: Bindings, s: seq<Pair>): nat {
    if s == [] then 0
    else CountCompound(b, s[..|s| - 1]) + if BothCompound(b, s[|s| - 1]) then 1 else 0
  }

  lemma {:induction false} CountAppend(b: Bindings, s: seq<Pair>, t: seq<Pair>)
    requires forall q | q in t :: !BothCompound(b, q)
    ensures CountCompound(b, s + t) == CountCompound(b, s)
  {
    if t == [] {
      assert s + t == s;
    } else {
      assert (s + t)[..|s + t| - 1] == s + t[..|t| - 1];
      CountAppend(b, s, t[..|t| - 1]);
    }
  }

  // `h` lists the gaps, or, after a clash, only those found before it.
  ghost predicate MatchOutcome(matched: bool, h: seq<EnvPair>, gaps: Option<seq<EnvPair>>) {
    && (forall q | q in h :: ValidPair(q))
    && (if matched then gaps == Some(h) else gaps == None)
  }

  lemma NothingMatched(b: Bindings, u: Universe, s: seq<EnvPair>, e: set<EnvPair>)
    ensures Pushed(b, u, [], s, e, s, e)
    ensures MatchOutcome(true, [], Some([])) && MatchOutcome(false, [], None)
  {
  }

  lemma NothingLeft(x: ExprEnv, y: ExprEnv)
    ensures EncLen<Occ>(Nil) == 0 && NewVars(Nil) == 0 && Gaps(x, Nil, y, Nil) == Some([])
  {
  }

  // One round of the argument loop of `match2`.
  lemma MatchNext(whole: Option<seq<EnvPair>>, h: seq<EnvPair>, one: Option<seq<EnvPair>>, others: Option<seq<EnvPair>>,
                  matched: bool, hk: seq<EnvPair>)
    requires forall q | q in h :: ValidPair(q)
    requires whole == Both(Some(h), Both(one, others))
    requires MatchOutcome(matched, hk, one)
    ensures forall q | q in h + hk :: ValidPair(q)
    ensures matched ==> whole == Both(Some(h + hk), others)
    ensures !matched ==> whole == None
  {
    if matched {
      BothAssoc(h, hk, others);
    }
  }

  class Unifier {
    var bindings: EnvBindings
    var stack: seq<EnvPair>
    var encountered: set<EnvPair>
    var iterations: nat
    ghost const universe: Universe

    ghost predicate Valid()
      reads this
    {
      && Bound(bindings, universe)
      && VarAcyclic(DenBindings(bindings))
      && (forall q | q in stack :: universe.HasPair(q))
      && (forall q | q in encountered :: universe.HasPair(q))
    }

    ghost function Here(): Moment
      reads this
    {
      Moment(bindings, stack, encountered)
    }

    // `vec![...]` of the caller becomes the work list.
    constructor (stack: seq<EnvPair>, ghost universe: Universe)
      requires forall q | q in stack :: universe.HasPair(q)
      ensures Valid() && this.stack == stack && this.universe == universe
      ensures bindings == map[] && encountered == {} && iterations == 0 && Here().Valid()
    {
      this.stack := stack;
      this.universe := universe;
      bindings, encountered, iterations := map[], {}, 0;
      new;
      assert Ranked(DenBindings(bindings), map[]);
    }

    // `derefBound`: follow bindings from variable to variable.
    method DerefBound(t: ExprEnv) returns (d: ExprEnv)
      requires Valid() && universe.Has(t)
      ensures universe.Has(d)
      ensures Den(d) == Walk(DenBindings(bindings), Den(t)) && d == Deref(bindings, t)
      ensures Den(d).Var? ==> Den(d).x !in bindings
    {
      d := t;
      ghost var left := bindings;
      ghost var b := DenBindings(bindings);
      ghost var rest := b;
      WalkEnds(b, Den(t));
      while true
        invariant universe.Has(d)
        invariant Walk(rest, Den(d)) == Walk(b, Den(t))
        invariant forall x | x in rest :: x in b && rest[x] == b[x]
        invariant left.Keys == rest.Keys && forall x | x in left :: x in bindings && left[x] == bindings[x]
        invariant Deref(left, d) == Deref(bindings, t)
        decreases rest.Keys
      {
        VarOptIsVar(d);
        match VarOpt(d) {
          case None => return;
          case Some(x) =>
            if x !in bindings {
              assert x !in rest;
              return;
            }
            d := bindings[x];
            assert x in rest;
            rest, left := rest - {x}, left - {x};
        }
      }
    }

    // `isUnbound`: the chain of bindings from `v` ends at an unbound variable.
    method IsUnbound(v: ExprVar) returns (unbound: bool)
      requires Valid()
      ensures unbound <==> Walk(DenBindings(bindings), Var(v)).Var?
    {
      var x := v;
      ghost var b := DenBindings(bindings);
      ghost var rest := b;
      WalkEnds(b, Var(v));
      while true
        invariant Walk(rest, Var(x)) == Walk(b, Var(v))
        invariant forall y | y in rest :: y in b && rest[y] == b[y]
        decreases rest.Keys
      {
        if x !in bindings {
          assert x !in rest;
          return true;
        }
        VarOptIsVar(bindings[x]);
        assert x in rest;
        match VarOpt(bindings[x]) {
          case None => return false;
          case Some(y) =>
            rest := rest - {x};
            x := y;
        }
      }
    }

    // `push`: two unbound variables always, any other pair unless it was pushed before.
    method Push(x: ExprEnv, y: ExprEnv)
      requires Valid() && universe.Has(x) && universe.Has(y)
      modifies this`stack, this`encountered
      ensures Valid()
      ensures Pushed(DenBindings(bindings), universe, [(x, y)], old(stack), old(encountered), stack, encountered)
    {
      VarOptIsVar(x);
      VarOptIsVar(y);
      var unbound := false;
      if VarOpt(x).Some? && VarOpt(y).Some? {
        var ux := IsUnbound(VarOpt(x).value);
        var uy := IsUnbound(VarOpt(y).value);
        unbound := ux && uy;
      }
      ghost var s0 := stack;
      if unbound {
        stack := stack + [(x, y)];
        assert stack[|s0|..] == [(x, y)];
      } else if (x, y) !in encountered {
        encountered := encountered + {(x, y)};
        stack := stack + [(x, y)];
        assert stack[|s0|..] == [(x, y)];
      } else {
        assert stack[|s0|..] == [];
      }
    }

    // `occurs`: the check looks through no binding.
    method OccursCheck(x: ExprVar, e: ExprEnv) returns (r: bool)
      requires Valid() && universe.Has(e)
      ensures r <==> Occurs(x, One(Den(e)))
    {
      if x.0 != e.n {
        OtherSpace(x, One(ExprOf(e)), e.n, e.v);
        return false;
      }
      var j, c, found := ExecuteLoop(OccursTraversal(x.1), e.v, e.base.bytes, e.offset, ExprOf(e));
      OccursEnv(e, ExprOf(e), x.1);
      r := found;
    }

    // `e` is the expression at offset `i` below `t`.
    ghost predicate IsAt(t: ExprEnv, i: nat, e: Expr) {
      t.n in universe.spaces && t.base in universe.buffers && EnvIs(t.Offset(i), e)
    }

    ghost predicate AreAt(t: ExprEnv, i: nat, es: Exprs) {
      && t.n in universe.spaces && t.base in universe.buffers
      && At(t.base.bytes, t.offset + i, es) && t.v + NewVars(es) <= MAX_LEVEL
    }

    // What the first byte of an expression tells.
    lemma ItemAt(t: ExprEnv, i: nat, e: Expr)
      requires IsAt(t, i, e)
      ensures var b, p := t.base.bytes, t.offset + i;
              && p < |b| && MaybeByteItem(b[p]) == Ok(HeadTag(e))
              && (e.Sym? ==> p + 1 + |e.s| <= |b| && b[p + 1..p + 1 + |e.s|] == e.s)
              && (e.App? ==> AreAt(t, i + 1, e.args))
    {
      AtStep(t.base.bytes, t.offset + i, e, Nil);
      AppendNil(Children(e));
    }

    lemma AreAtStep(t: ExprEnv, i: nat, e: Expr, tl: Exprs)
      requires AreAt(t, i, Cons(e, tl))
      ensures IsAt(t, i, e)
      ensures AreAt(t.(v := t.v + NewVars(One(e))), i + EncLen(One(e)), tl)
      ensures EncLen(Cons(e, tl)) == EncLen(One(e)) + EncLen(tl)
      ensures NewVars(Cons(e, tl)) == NewVars(One(e)) + NewVars(tl)
      ensures Abs(Cons(e, tl), t.n, t.v) == Cons(Abs1(e, t.n, t.v), Abs(tl, t.n, t.v + NewVars(One(e))))
    {
      hide At, Enc, WF, EncLen, Abs, NewVars;
      AtSkip(t.base.bytes, t.offset + i, e, tl);
      AbsCons(e, tl, t.n, t.v);
    }

    // `match2`: descend two expressions together and push the pairs where one side is a variable.
    // `t1` and `t2` carry the variable counts of the two `TraverseSide`s. None is a functor clash.
    method Match2(t1: ExprEnv, i1: nat, t2: ExprEnv, i2: nat, ghost e1: Expr, ghost e2: Expr)
        returns (r: Option<(nat, nat, nat, nat)>, ghost h: seq<EnvPair>)
      requires Valid()
      requires IsAt(t1, i1, e1) && IsAt(t2, i2, e2)
      modifies this`stack, this`encountered
      ensures Valid()
      ensures r.Some? ==> r.value == (EncLen(One(e1)), t1.v + NewVars(One(e1)), EncLen(One(e2)), t2.v + NewVars(One(e2)))
      ensures MatchOutcome(r.Some?, h, Gaps1(t1.Offset(i1), e1, t2.Offset(i2), e2))
      ensures Pushed(DenBindings(bindings), universe, h, old(stack), old(encountered), stack, encountered)
      decreases e1, e2, 1
    {
      hide At, Gaps, Gaps1, Abs, DenBindings, Pushed, Enc, EncLen, NewVars, WF, MaybeByteItem, MatchOutcome;
      ItemAt(t1, i1, e1);
      ItemAt(t2, i2, e2);
      var g1 := ByteItem(t1.base.bytes[t1.offset + i1]);
      var g2 := ByteItem(t2.base.bytes[t2.offset + i2]);
      if g1.NewVar? || g1.VarRef? || g2.NewVar? || g2.VarRef? {
        r, h := Hole(t1, i1, t2, i2, e1, e2);
      } else {
        r, h := Functors(t1, i1, t2, i2, g1, g2, e1, e2);
      }
    }

    // The cases of `match2` without variables.
    method Functors(t1: ExprEnv, i1: nat, t2: ExprEnv, i2: nat, g1: Tag, g2: Tag, ghost e1: Expr, ghost e2: Expr)
        returns (r: Option<(nat, nat, nat, nat)>, ghost h: seq<EnvPair>)
      requires Valid()
      requires IsAt(t1, i1, e1) && IsAt(t2, i2, e2)
      requires g1 == HeadTag(e1) && g2 == HeadTag(e2) && !e1.Var? && !e2.Var?
      modifies this`stack, this`encountered
      ensures Valid()
      ensures r.Some? ==> r.value == (EncLen(One(e1)), t1.v + NewVars(One(e1)), EncLen(One(e2)), t2.v + NewVars(One(e2)))
      ensures MatchOutcome(r.Some?, h, Gaps1(t1.Offset(i1), e1, t2.Offset(i2), e2))
      ensures Pushed(DenBindings(bindings), universe, h, old(stack), old(encountered), stack, encountered)
      decreases e1, e2, 0
    {
      hide At, Gaps, Gaps1, Abs, DenBindings, Pushed, Enc, EncLen, NewVars, AreAt, IsAt, WF, MaybeByteItem, MatchOutcome;
      var b1, b2 := t1.base.bytes, t2.base.bytes;
      var p1, p2 := t1.offset + i1, t2.offset + i2;
      ItemAt(t1, i1, e1);
      ItemAt(t2, i2, e2);
      MatchHeads(t1.Offset(i1), e1, t2.Offset(i2), e2);
      OneFacts(e1, t1.n, t1.v);
      OneFacts(e2, t2.n, t2.v);
      if g1.Arity? && g2.Arity? && g1.a == g2.a {
        r, h := Match2Args(t1, i1 + 1, t2, i2 + 1, g1.a, e1.args, e2.args);
        if r.Some? {
          r := Some((1 + r.value.0, r.value.1, 1 + r.value.2, r.value.3));
        }
        return;
      }
      h := [];
      NothingMatched(DenBindings(bindings), universe, stack, encountered);
      if g1.SymbolSize? && g2.SymbolSize? && g1.s == g2.s && b1[p1 + 1..p1 + 1 + g1.s] == b2[p2 + 1..p2 + 1 + g2.s] {
        r := Some((g1.s + 1, t1.v, g2.s + 1, t2.v));
      } else {
        r := None;
      }
    }

    // What two expressions that are not variables have below them.
    lemma MatchHeads(x: ExprEnv, e1: Expr, y: ExprEnv, e2: Expr)
      ensures var gaps := Gaps1(x, e1, y, e2);
              && (e1.Sym? && e2.Sym? ==> gaps == if e1.s == e2.s then Some([]) else None)
              && (e1.App? && e2.App? ==> gaps == Gaps(x.Offset(1), e1.args, y.Offset(1), e2.args))
              && (e1.App? && e2.App? && Len(e1.args) != Len(e2.args) ==> gaps == None)
              && ((e1.App? && e2.Sym?) || (e1.Sym? && e2.App?) ==> gaps == None)
    {
      GapsOne(x, e1, y, e2);
      if e1.App? && e2.App? && Len(e1.args) != Len(e2.args) {
        GapsLen(x.Offset(1), e1.args, y.Offset(1), e2.args);
      }
    }

    // The two variable cases of `match2`: push the pair, and pass over both sides counting variables.
    method Hole(t1: ExprEnv, i1: nat, t2: ExprEnv, i2: nat, ghost e1: Expr, ghost e2: Expr)
        returns (r: Option<(nat, nat, nat, nat)>, ghost h: seq<EnvPair>)
      requires Valid()
      requires IsAt(t1, i1, e1) && IsAt(t2, i2, e2) && (e1.Var? || e2.Var?)
      modifies this`stack, this`encountered
      ensures Valid()
      ensures r == Some((EncLen(One(e1)), t1.v + NewVars(One(e1)), EncLen(One(e2)), t2.v + NewVars(One(e2))))
      ensures MatchOutcome(true, h, Gaps1(t1.Offset(i1), e1, t2.Offset(i2), e2))
      ensures Pushed(DenBindings(bindings), universe, h, old(stack), old(encountered), stack, encountered)
    {
      var x, y := t1.Offset(i1), t2.Offset(i2);
      EnvIsDen(x, e1);
      EnvIsDen(y, e2);
      GapsOne(x, e1, y, e2);
      Push(x, y);
      h := [(x, y)];
      // A variable is one byte long; the side opposite the first variable is traversed.
      var end1, v1, _ := ExecuteLoop(CountTraversal(), t1.v, x.base.bytes, x.offset, e1);
      var end2, v2, _ := ExecuteLoop(CountTraversal(), t2.v, y.base.bytes, y.offset, e2);
      CountEnv(x, e1);
      CountEnv(y, e2);
      r := Some((end1 - x.offset, v1, end2 - y.offset, v2));
    }

    // The argument loop of `match2`.
    method Match2Args(t1: ExprEnv, i1: nat, t2: ExprEnv, i2: nat, a: nat, ghost es1: Exprs, ghost es2: Exprs)
        returns (r: Option<(nat, nat, nat, nat)>, ghost h: seq<EnvPair>)
      requires Valid()
      requires AreAt(t1, i1, es1) && AreAt(t2, i2, es2) && a == Len(es1) == Len(es2)
      modifies this`stack, this`encountered
      ensures Valid()
      ensures r.Some? ==> r.value == (EncLen(es1), t1.v + NewVars(es1), EncLen(es2), t2.v + NewVars(es2))
      ensures MatchOutcome(r.Some?, h, Gaps(t1.Offset(i1), es1, t2.Offset(i2), es2))
      ensures Pushed(DenBindings(bindings), universe, h, old(stack), old(encountered), stack, encountered)
      decreases es1, es2, 3
    {
      hide At, Gaps, DenBindings, Pushed, WF, Enc, EncLen, NewVars;
      var o1: nat, v1: nat, o2: nat, v2: nat := 0, t1.v, 0, t2.v;
      ghost var r1, r2 := es1, es2;
      ghost var whole := Gaps(t1.Offset(i1), es1, t2.Offset(i2), es2);
      h := [];
      BothNothing(whole);
      PushedNothing(DenBindings(bindings), universe, stack, encountered);
      for k := 0 to a
        invariant Valid()
        invariant Len(r1) == Len(r2) == a - k && (r1 == es1 || r1 < es1) && (r2 == es2 || r2 < es2)
        invariant AreAt(t1.(v := v1), i1 + o1, r1) && AreAt(t2.(v := v2), i2 + o2, r2)
        invariant o1 + EncLen(r1) == EncLen(es1) && o2 + EncLen(r2) == EncLen(es2)
        invariant v1 + NewVars(r1) == t1.v + NewVars(es1) && v2 + NewVars(r2) == t2.v + NewVars(es2)
        invariant forall q | q in h :: ValidPair(q)
        invariant whole == Both(Some(h), Gaps(t1.(v := v1).Offset(i1 + o1), r1, t2.(v := v2).Offset(i2 + o2), r2))
        invariant Pushed(DenBindings(bindings), universe, h, old(stack), old(encountered), stack, encountered)
      {
        var rk;
        rk, h := Match2Arg(t1.(v := v1), i1 + o1, t2.(v := v2), i2 + o2, r1, r2, h, old(stack), old(encountered), whole);
        match rk {
          case None => return None, h;
          case Some((d1, w1, d2, w2)) =>
            o1, v1, o2, v2 := o1 + d1, w1, o2 + d2, w2;
        }
        r1, r2 := r1.tail, r2.tail;
      }
      BothNothing(Some(h));
      NothingLeft(t1.(v := v1).Offset(i1 + o1), t2.(v := v2).Offset(i2 + o2));
      r := Some((o1, v1, o2, v2));
    }

    // One round of that loop; `h0`, `s0` and `e0` tell what the rounds before it found and pushed.
    method Match2Arg(t1: ExprEnv, i1: nat, t2: ExprEnv, i2: nat, ghost es1: Exprs, ghost es2: Exprs,
                     ghost h0: seq<EnvPair>, ghost s0: seq<EnvPair>, ghost e0: set<EnvPair>, ghost whole: Option<seq<EnvPair>>)
        returns (r: Option<(nat, nat, nat, nat)>, ghost h: seq<EnvPair>)
      requires Valid()
      requires es1.Cons? && es2.Cons? && AreAt(t1, i1, es1) && AreAt(t2, i2, es2)
      requires Pushed(DenBindings(bindings), universe, h0, s0, e0, stack, encountered)
      requires forall q | q in h0 :: ValidPair(q)
      requires whole == Both(Some(h0), Gaps(t1.Offset(i1), es1, t2.Offset(i2), es2))
      modifies this`stack, this`encountered
      ensures Valid()
      ensures Pushed(DenBindings(bindings), universe, h, s0, e0, stack, encountered)
      ensures forall q | q in h :: ValidPair(q)
      ensures match r
              case None => whole == None
              case Some((d1, w1, d2, w2)) =>
                && AreAt(t1.(v := w1), i1 + d1, es1.tail) && AreAt(t2.(v := w2), i2 + d2, es2.tail)
                && d1 + EncLen(es1.tail) == EncLen(es1) && d2 + EncLen(es2.tail) == EncLen(es2)
                && w1 + NewVars(es1.tail) == t1.v + NewVars(es1) && w2 + NewVars(es2.tail) == t2.v + NewVars(es2)
                && whole == Both(Some(h), Gaps(t1.(v := w1).Offset(i1 + d1), es1.tail, t2.(v := w2).Offset(i2 + d2), es2.tail))
      decreases es1, es2, 2
    {
      hide At, Gaps, Gaps1, DenBindings, Pushed, WF, Enc, EncLen, NewVars;
      ghost var e1, tl1, e2, tl2 := es1.head, es1.tail, es2.head, es2.tail;
      ghost var s, e := stack, encountered;
      AreAtStep(t1, i1, e1, tl1);
      AreAtStep(t2, i2, e2, tl2);
      ghost var x, y := t1.Offset(i1), t2.Offset(i2);
      GapsCons(x, e1, tl1, y, e2, tl2);
      ghost var hk;
      r, hk := Match2(t1, i1, t2, i2, e1, e2);
      PushedThen(DenBindings(bindings), universe, h0, hk, s0, e0, s, e, stack, encountered);
      MatchNext(whole, h0, Gaps1(x, e1, y, e2), Gaps(Past(x, e1), tl1, Past(y, e2), tl2), r.Some?, hk);
      h := h0 + hk;
    }

    /* ---- The main loop ---- */

    // What the loop keeps, for input equations `g` and a work list `s` read as equations.
    ghost predicate Keeps(g: seq<Pair>, s: seq<Pair>)
      requires Valid()
      reads this
    {
      var b := DenBindings(bindings);
      && Sound(g, b, s)
      && Complete(g, b, s, DenSet(encountered))
      && BindingsScoped(g, b)
      && forall q | q in s :: PairScoped(g, q)
    }

    // The case of two compounds or symbols. None when they clash.
    method Decompose(ghost g: seq<Pair>, ghost q: EnvPair, dt1: ExprEnv, dt2: ExprEnv) returns (ok: bool)
      requires Valid() && universe.HasPair(q) && universe.Has(dt1) && universe.Has(dt2)
      requires Keeps(g, DenStack(stack) + [DenPair(q)])
      requires Den(dt1) == Walk(DenBindings(bindings), Den(q.0)) && !Den(dt1).Var?
      requires Den(dt2) == Walk(DenBindings(bindings), Den(q.1)) && !Den(dt2).Var?
      modifies this`stack, this`encountered
      ensures Valid()
      ensures ok ==> Keeps(g, DenStack(stack))
      ensures old(encountered) <= encountered
      ensures old(encountered) == encountered ==>
        CountCompound(DenBindings(bindings), DenStack(stack)) == CountCompound(DenBindings(bindings), old(DenStack(stack)))
      ensures !ok ==> forall sg: Assignment :: !AllSame(sg, g)
      ensures match Gaps1(dt1, ExprOf(dt1), dt2, ExprOf(dt2))
              case None => !ok
              case Some(h) =>
                && ok && (forall r | r in h :: ValidPair(r))
                && (stack, encountered) == PushAll(DenBindings(bindings), h, old(stack), old(encountered))
    {
      hide Sound, Complete, Pushed, AllSame, CountCompound, DenStack, Walk, DenBindings, DenSet, Holes, PairScoped, At;
      ghost var b := DenBindings(bindings);
      EnvIsDen(dt1, ExprOf(dt1));
      EnvIsDen(dt2, ExprOf(dt2));
      var r;
      ghost var h;
      r, h := Match2(dt1, 0, dt2, 0, ExprOf(dt1), ExprOf(dt2));
      assert dt1.Offset(0) == dt1 && dt2.Offset(0) == dt2;
      GapsOfDen(dt1, dt2);
      PushedDen(b, universe, h, old(stack), old(encountered), stack, encountered);
      if r.None? {
        ClashStep(g, b, old(DenStack(stack)), DenPair(q));
        return false;
      }
      assert b == DenBindings(bindings);
      DecomposeStep(g, b, old(DenStack(stack)), old(DenSet(encountered)), DenPair(q), DenStack(stack), DenSet(encountered));
      StackScoped(g, b, old(DenStack(stack)), DenPair(q), DenStack(stack));
      ok := true;
    }

    // The case of a variable against anything but itself. False when the occurs check fails.
    method BindVariable(ghost g: seq<Pair>, ghost q: EnvPair, x: ExprVar, d: ExprEnv) returns (ok: bool)
      requires Valid() && universe.HasPair(q) && universe.Has(d) && universe.HasVar(x)
      requires Keeps(g, DenStack(stack) + [DenPair(q)])
      requires var b := DenBindings(bindings);
               || (Walk(b, Den(q.0)) == Var(x) && Walk(b, Den(q.1)) == Den(d))
               || (Walk(b, Den(q.1)) == Var(x) && Walk(b, Den(q.0)) == Den(d))
      requires x !in bindings && Den(d) != Var(x) && (Den(d).Var? ==> Den(d).x !in bindings)
      modifies this`bindings
      ensures Valid()
      ensures ok ==> bindings == old(bindings)[x := d] && Keeps(g, DenStack(stack))
      ensures !ok ==> forall th: Substitution :: !UnifiesAll(th, g)
      ensures BindTo(old(Here()), x, d) == if ok then Ok(Here()) else Err(OccursIn(x, d))
    {
      hide Sound, Complete, AllSame, DenStack, Walk, DenSet, At;
      ghost var b := DenBindings(bindings);
      ghost var s := DenStack(stack);
      var found := OccursCheck(x, d);
      if found {
        OccursStep(g, b, s, DenPair(q), x, Den(d));
        return false;
      }
      bindings := bindings[x := d];
      assert DenBindings(bindings) == b[x := Den(d)];
      BindAcyclic(b, x, Den(d));
      BindStep(g, b, s, DenSet(encountered), DenPair(q), x, Den(d));
      BindScoped(g, b, s, DenPair(q), x, Den(d));
      ok := true;
    }

    // One popped pair: dereference both sides, and decompose or bind.
    method Solve(ghost g: seq<Pair>, q: EnvPair) returns (failure: Option<UnifyResult>)
      requires Valid() && universe.HasPair(q)
      requires Keeps(g, DenStack(stack) + [DenPair(q)])
      modifies this`bindings, this`stack, this`encountered
      ensures Valid()
      ensures failure.None? ==> Keeps(g, DenStack(stack))
      ensures failure.Some? ==> !failure.value.Unified? && !failure.value.MaxIter? && UnifyOutcome(g, None, failure.value)
      ensures failure.None? ==>
        || old(bindings).Keys < bindings.Keys
        || (bindings == old(bindings) && old(encountered) < encountered)
        || (bindings == old(bindings) && encountered == old(encountered) &&
            var b := DenBindings(bindings);
            if BothCompound(b, DenPair(q)) then CountCompound(b, DenStack(stack)) == CountCompound(b, old(DenStack(stack)))
            else stack == old(stack))
      ensures old(Here()).(stack := old(stack) + [q]).Valid()
      ensures Step(old(Here()).(stack := old(stack) + [q])) == match failure case None => Ok(Here()) case Some(f) => Err(f)
    {
      hide Sound, Complete, AllSame, DenStack, Walk, DenSet, At, UnifiesAll, CountCompound, BindingsScoped, DenBindings, VarAcyclic,
        Step, PushAll, Gaps1, Deref, Occurs;
      ghost var m := Here().(stack := stack + [q]);
      assert m.Valid();
      var dt1 := DerefBound(q.0);
      var dt2 := DerefBound(q.1);
      StepIs(m, stack, q, dt1, dt2);
      VarOptIsVar(dt1);
      VarOptIsVar(dt2);
      var vx, vy := VarOpt(dt1), VarOpt(dt2);
      if vx.None? && vy.None? {
        var ok := Decompose(g, q, dt1, dt2);
        failure := if ok then None else Some(Difference(dt1, dt2));
      } else if vx == vy {
        SameStep(g, DenBindings(bindings), DenStack(stack), DenSet(encountered), DenPair(q));
        failure := None;
      } else if vx.Some? {
        var ok := BindVariable(g, q, vx.value, dt2);
        failure := if ok then None else Some(OccursIn(vx.value, dt2));
      } else {
        var ok := BindVariable(g, q, vy.value, dt1);
        failure := if ok then None else Some(OccursIn(vy.value, dt1));
      }
    }

    // `unify`. `limit` is None for no limit: the loop ends without one.
    method Run(limit: Option<nat> := Some(MAX_UNIFY_ITER)) returns (r: UnifyResult)
      requires Valid() && bindings == map[] && encountered == {} && iterations == 0
      modifies this
      ensures UnifyOutcome(old(DenStack(stack)), limit, r)
      ensures old(Here()).Valid() && Ends(old(Here()), limit, r)
    {
      hide Sound, Complete, AllSame, DenStack, Walk, DenSet, At, UnifiesAll, CountCompound, BindingsScoped, DenBindings, VarAcyclic, BothCompound,
        Step, After, Ends;
      ghost var g := DenStack(stack);
      ghost var start := Here();
      KeepsAtStart(stack);
      AfterNothing(start);
      while stack != []
        invariant Valid() && Keeps(g, DenStack(stack))
        invariant start.Valid() && After(start, iterations) == Ok(Here())
        invariant limit.Some? ==> iterations <= limit.value + 1
        decreases universe.Vars() - bindings.Keys, universe.Pairs() - encountered,
                  CountCompound(DenBindings(bindings), DenStack(stack)), |stack|
      {
        label Round:
        var top := |stack| - 1;
        var q := stack[top];
        ghost var b0, e0 := bindings, encountered;
        PopDen(DenBindings(bindings), stack, universe);
        stack := stack[..top];
        if limit.Some? && iterations > limit.value {
          EndsCapped(start, limit.value, old@Round(Here()));
          return MaxIter(iterations);
        }
        AfterNext(start, iterations, old@Round(Here()));
        assert old@Round(Here()) == Here().(stack := stack + [q]);
        iterations := iterations + 1;
        var failure := Solve(g, q);
        if failure.Some? {
          EndsWith(start, limit, iterations, failure.value, {});
          return failure.value;
        }
        if b0.Keys < bindings.Keys {
          FewerUnbound(universe, b0, bindings);
        } else if e0 < encountered {
          FewerPairs(universe, e0, encountered);
        }
      }
      KeepsAtStart([]);
      EmptyStep(g, DenBindings(bindings), DenSet(encountered));
      EndsWith(start, limit, iterations, Unified(bindings), encountered);
      return Unified(bindings);
    }
  }

  lemma FewerUnbound(u: Universe, b0: EnvBindings, b1: EnvBindings)
    requires Bound(b1, u) && b0.Keys < b1.Keys
    ensures u.Vars() - b1.Keys < u.Vars() - b0.Keys
  {
    var x :| x in b1.Keys && x !in b0.Keys;
    assert x in u.Vars() - b0.Keys;
  }

  lemma FewerPairs(u: Universe, e0: set<EnvPair>, e1: set<EnvPair>)
    requires e0 < e1 && forall q | q in e1 :: u.HasPair(q)
    ensures u.Pairs() - e1 < u.Pairs() - e0
  {
    var q :| q in e1 && q !in e0;
    u.HasPairInPairs(q);
    assert q in u.Pairs() - e0;
  }

  // What the result says about the input equations `g`.
  ghost predicate UnifyOutcome(g: seq<Pair>, limit: Option<nat>, r: UnifyResult) {
    match r
    case Unified(bindings) =>
      && (forall x | x in bindings :: ValidEnv(bindings[x]))
      && var b := DenBindings(bindings);
         && VarAcyclic(b)
         && BindingsScoped(g, b)
         && forall sg: Assignment :: AllSame(sg, g) <==> SolvesBindings(sg, b)
    case Difference(_, _) => forall sg: Assignment :: !AllSame(sg, g)
    case OccursIn(_, _) => forall th: Substitution :: !UnifiesAll(th, g)
    case MaxIter(n) => limit.Some? && n > limit.value
  }

  lemma KeepsAtStart(s: seq<EnvPair>)
    requires forall q | q in s :: ValidPair(q)
    ensures var g := DenStack(s);
            && Sound(g, map[], g) && Complete(g, map[], g, {})
            && BindingsScoped(g, map[]) && forall q | q in g :: PairScoped(g, q)
    ensures DenBindings(map[]) == map[] && DenSet({}) == {} && (s == [] ==> DenStack(s) == [])
  {
  }

  lemma PopDen(b: Bindings, s: seq<EnvPair>, u: Universe)
    requires s != [] && forall q | q in s :: u.HasPair(q)
    ensures var rest, q := s[..|s| - 1], s[|s| - 1];
            && u.HasPair(q) && (forall p | p in rest :: u.HasPair(p))
            && DenStack(s) == DenStack(rest) + [DenPair(q)]
            && CountCompound(b, DenStack(s)) == CountCompound(b, DenStack(rest)) + if BothCompound(b, DenPair(q)) then 1 else 0
  {
    var rest, q := s[..|s| - 1], s[|s| - 1];
    assert s == rest + [q];
    assert u.HasPair(q);
    assert forall p | p in rest :: p in s;
    DenStackAppend(rest, [q]);
    assert DenStack(s)[..|s| - 1] == DenStack(rest);
  }

  // `Pushed`, read as equations.
  lemma PushedDen(b: Bindings, u: Universe, h: seq<EnvPair>,
                  s0: seq<EnvPair>, e0: set<EnvPair>, s1: seq<EnvPair>, e1: set<EnvPair>)
    requires Pushed(b, u, h, s0, e0, s1, e1)
    requires forall q | q in s0 :: ValidPair(q)
    requires forall q | q in e0 :: ValidPair(q)
    ensures forall q | q in h :: ValidPair(q)
    ensures forall q | q in s1 :: ValidPair(q)
    ensures forall q | q in e1 :: ValidPair(q)
    ensures e0 <= e1 && (s1, e1) == PushAll(b, h, s0, e0)
    ensures forall r | r in DenStack(s1) :: r in DenStack(s0) || r in DenStack(h)
    ensures forall r | r in DenStack(s0) :: r in DenStack(s1)
    ensures forall r | r in DenStack(h) :: r in DenStack(s1) || r in DenSet(e0)
    ensures forall r | r in DenSet(e1) :: r in DenSet(e0) || r in DenStack(s1)
    ensures e0 == e1 ==> CountCompound(b, DenStack(s1)) == CountCompound(b, DenStack(s0))
  {
    hide DenStack, DenPair, CountCompound;
    var t := s1[|s0|..];
    assert s1 == s0 + t;
    assert forall q | q in t :: q in h;
    DenStackAppend(s0, t);
    DenStackElements(t);
    DenStackElements(h);
    if e0 == e1 {
      CountAppend(b, DenStack(s0), DenStack(t));
    }
  }

  lemma DenStackElements(s: seq<EnvPair>)
    requires forall q | q in s :: ValidPair(q)
    ensures forall q | q in s :: DenPair(q) in DenStack(s)
    ensures forall r | r in DenStack(s) :: exists q | q in s :: r == DenPair(q)
  {
    forall q | q in s
      ensures DenPair(q) in DenStack(s)
    {
      var i :| 0 <= i < |s| && s[i] == q;
      assert DenStack(s)[i] == DenPair(q);
    }
    forall r | r in DenStack(s)
      ensures exists q | q in s :: r == DenPair(q)
    {
      var i :| 0 <= i < |s| && DenStack(s)[i] == r;
      assert s[i] in s && r == DenPair(s[i]);
    }
  }

  lemma StackScoped(g: seq<Pair>, b: Bindings, s: seq<Pair>, q: Pair, s': seq<Pair>)
    requires BindingsScoped(g, b)
    requires forall r | r in s + [q] :: PairScoped(g, r)
    requires Holes(One(Walk(b, q.0)), One(Walk(b, q.1))).Some?
    requires forall r | r in s' :: r in s || r in Holes(One(Walk(b, q.0)), One(Walk(b, q.1))).value
    ensures forall r | r in s' :: PairScoped(g, r)
  {
    assert q in s + [q];
    assert forall r | r in s :: r in s + [q];
    WalkScoped(g, b, q.0);
    WalkScoped(g, b, q.1);
    HolesScoped(g, Walk(b, q.0), Walk(b, q.1));
  }

  lemma BindScoped(g: seq<Pair>, b: Bindings, s: seq<Pair>, q: Pair, x: ExprVar, d: AbsTerm)
    requires BindingsScoped(g, b) && forall r | r in s + [q] :: PairScoped(g, r)
    requires (Walk(b, q.0) == Var(x) && Walk(b, q.1) == d) || (Walk(b, q.1) == Var(x) && Walk(b, q.0) == d)
    ensures BindingsScoped(g, b[x := d]) && forall r | r in s :: PairScoped(g, r)
  {
    assert q in s + [q];
    assert forall r | r in s :: r in s + [q];
    WalkScoped(g, b, q.0);
    WalkScoped(g, b, q.1);
    assert Occurs(x, One(Var(x)));
  }
}
