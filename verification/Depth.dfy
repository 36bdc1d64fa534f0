/** How deep chains of bindings reach. */
module Depths {
  import opened Terms
  import opened Encoding
  import opened Sets
  import opened Trees
  import opened Numbering

  function Members(s: seq<ExprVar>): set<ExprVar> {
    set x | x in s
  }

  // Some chain of different bound variables leads on from `stack`, through a variable of `ts`, to more
  // than `limit` variables.
  ghost predicate Deeper(b: Bindings, stack: seq<ExprVar>, ts: AbsTerms, limit: nat)
    decreases b.Keys - Members(stack), 1
  {
    || |stack| > limit
    || exists x :: Occurs(x, ts) && DeeperVar(b, stack, x, limit)
  }

  ghost predicate DeeperVar(b: Bindings, stack: seq<ExprVar>, x: ExprVar, limit: nat)
    decreases b.Keys - Members(stack), 0
  {
    x in b && x !in stack && (StackGrows(b, stack, x); Deeper(b, stack + [x], One(b[x]), limit))
  }

  lemma StackGrows(b: Bindings, stack: seq<ExprVar>, x: ExprVar)
    requires x in b && x !in stack
    ensures b.Keys - Members(stack + [x]) < b.Keys - Members(stack)
  {
    assert x in Members(stack + [x]) && x in b.Keys - Members(stack);
    assert forall y | y in stack :: y in stack + [x];
  }

  lemma DeeperCons(b: Bindings, stack: seq<ExprVar>, t: AbsTerm, tl: AbsTerms, limit: nat)
    ensures Deeper(b, stack, Cons(t, tl), limit) <==> Deeper(b, stack, One(t), limit) || Deeper(b, stack, tl, limit)
  {
    forall x ensures Occurs(x, Cons(t, tl)) <==> Occurs(x, One(t)) || Occurs(x, tl) {
      OccursCons(x, t, tl);
    }
  }

  lemma DeeperSame(b: Bindings, stack: seq<ExprVar>, ts: AbsTerms, us: AbsTerms, limit: nat)
    requires forall x :: Occurs(x, ts) <==> Occurs(x, us)
    ensures Deeper(b, stack, ts, limit) <==> Deeper(b, stack, us, limit)
  {
  }

  lemma DeeperOne(b: Bindings, stack: seq<ExprVar>, x: ExprVar, limit: nat)
    ensures Deeper(b, stack, One(Var(x)), limit) <==> |stack| > limit || DeeperVar(b, stack, x, limit)
  {
    forall y: ExprVar ensures Occurs(y, One(Var(x))) <==> y == x {
      OccursOne(y, Var(x));
    }
  }

  lemma DeeperAtOnce(b: Bindings, stack: seq<ExprVar>, ts: AbsTerms, limit: nat)
    requires |stack| > limit
    ensures Deeper(b, stack, ts, limit)
  {
  }

  lemma DeeperNothing(b: Bindings, stack: seq<ExprVar>, limit: nat)
    requires |stack| <= limit
    ensures !Deeper(b, stack, Nil, limit)
  {
  }

  /* ---- The same, as one chain ---- */

  // Different bound variables, each occurring in what the one before it is bound to.
  ghost predicate Chain(b: Bindings, c: seq<ExprVar>) {
    && Distinct(c) && (forall i | 0 <= i < |c| :: c[i] in b)
    && (forall i | 0 <= i < |c| - 1 :: Occurs(c[i + 1], One(b[c[i]])))
  }

  ghost predicate HasChain(b: Bindings, ts: AbsTerms, limit: nat) {
    exists c :: Chain(b, c) && |c| > limit && Occurs(c[0], ts)
  }

  lemma {:induction false} DeeperChain(b: Bindings, stack: seq<ExprVar>, ts: AbsTerms, limit: nat) returns (c: seq<ExprVar>)
    requires Deeper(b, stack, ts, limit) && |stack| <= limit && Distinct(stack)
    ensures Chain(b, c) && c != [] && |stack| + |c| > limit && Distinct(stack + c) && Occurs(c[0], ts)
    decreases b.Keys - Members(stack)
  {
    var x :| Occurs(x, ts) && DeeperVar(b, stack, x, limit);
    hide Occurs, Deeper;
    StackGrows(b, stack, x);
    if |stack| == limit {
      c := [x];
    } else {
      var tl := DeeperChain(b, stack + [x], One(b[x]), limit);
      c := [x] + tl;
      assert stack + c == stack + [x] + tl;
      ChainCons(b, stack, x, tl);
    }
  }

  lemma ChainCons(b: Bindings, stack: seq<ExprVar>, x: ExprVar, tl: seq<ExprVar>)
    requires Chain(b, tl) && tl != [] && x in b && Occurs(tl[0], One(b[x])) && Distinct(stack + [x] + tl)
    ensures Chain(b, [x] + tl)
  {
    hide Occurs;
    var c, w := [x] + tl, stack + [x] + tl;
    assert forall i | 0 <= i < |c| :: c[i] == w[|stack| + i];
  }

  lemma {:induction false} ChainDeeper(b: Bindings, stack: seq<ExprVar>, ts: AbsTerms, c: seq<ExprVar>, limit: nat)
    requires Chain(b, c) && c != [] && |stack| + |c| > limit && Distinct(stack + c) && Occurs(c[0], ts)
    ensures Deeper(b, stack, ts, limit)
    decreases |c|
  {
    var x, tl := c[0], c[1..];
    assert x == (stack + c)[|stack|];
    forall i | 0 <= i < |stack| ensures stack[i] != x {
      assert (stack + c)[i] == stack[i];
    }
    StackGrows(b, stack, x);
    assert stack + c == stack + [x] + tl;
    if tl != [] {
      assert forall i | 0 <= i < |tl| :: tl[i] == c[i + 1];
      ChainDeeper(b, stack + [x], One(b[x]), tl, limit);
    }
    assert DeeperVar(b, stack, x, limit);
  }

  lemma DeeperIsChain(b: Bindings, ts: AbsTerms, limit: nat)
    ensures Deeper(b, [], ts, limit) <==> HasChain(b, ts, limit)
  {
    if Deeper(b, [], ts, limit) {
      var c := DeeperChain(b, [], ts, limit);
    }
    if c :| Chain(b, c) && |c| > limit && Occurs(c[0], ts) {
      assert [] + c == c;
      ChainDeeper(b, [], ts, c, limit);
    }
  }

  // A chain has no more variables than are bound.
  lemma ChainBound(b: Bindings, ts: AbsTerms, limit: nat)
    requires HasChain(b, ts, limit)
    ensures limit < |b|
  {
    var c :| Chain(b, c) && |c| > limit && Occurs(c[0], ts);
    DistinctMembers(c);
    assert Members(c) <= b.Keys;
    SubsetSize(Members(c), b.Keys);
  }

  lemma DistinctMembers(c: seq<ExprVar>)
    requires Distinct(c)
    ensures |Members(c)| == |c|
  {
    if c != [] {
      var tl := c[..|c| - 1];
      DistinctMembers(tl);
      assert Members(c) == Members(tl) + {c[|c| - 1]};
    }
  }
}
