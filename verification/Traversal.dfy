/** Folds over encoded expressions: the recursive `execute` and the explicit-stack `execute_loop`.

    A traversal is modelled by its callbacks, which pass the mutable state of the source's
    `Traversal` object in and out. */
module Traversals {
  import opened Items
  import opened Terms
  import opened Encoding
  import opened Wrappers

  datatype Traversal<!S, !A, !R> = Traversal(
    newVar: (S, nat) -> (S, R),
    varRef: (S, nat, nat) -> (S, R),
    symbol: (S, nat, Symbol) -> (S, R),
    zero: (S, nat, nat) -> (S, A),
    add: (S, nat, A, R) -> (S, A),
    finalize: (S, nat, A) -> (S, R))

  // The fold that both forms compute. They differ in the offset given to `add`: `execute` passes the
  // offset where the child starts and `execute_loop` (`late`) the one where it ends.
  function Visit<S, A, R>(tr: Traversal<S, A, R>, late: bool, s: S, o: nat, e: Expr): (S, R)
    decreases e, 1
  {
    match e
    case Var(New) => tr.newVar(s, o)
    case Var(Ref(i)) => tr.varRef(s, o, i)
    case Sym(x) => tr.symbol(s, o, x)
    case App(kids) =>
      var (s0, acc) := tr.zero(s, o, Len(kids));
      var (s1, acc1) := FoldAll(tr, late, s0, o + 1, acc, kids);
      tr.finalize(s1, o + EncLen(One(e)), acc1)
  }

  function FoldAll<S, A, R>(tr: Traversal<S, A, R>, late: bool, s: S, o: nat, acc: A, es: Exprs): (S, A)
    decreases es, 0
  {
    match es
    case Nil => (s, acc)
    case Cons(e, tl) =>
      var (s1, r) := Visit(tr, late, s, o, e);
      var end := o + EncLen(One(e));
      var (s2, acc1) := tr.add(s1, if late then end else o, acc, r);
      FoldAll(tr, late, s2, end, acc1, tl)
  }

  method Execute<S, A, R>(tr: Traversal<S, A, R>, s: S, b: seq<byte>, i: nat, ghost e: Expr)
      returns (d: nat, s': S, r: R)
    requires At(b, i, One(e))
    ensures d == EncLen(One(e))
    ensures (s', r) == Visit(tr, false, s, i, e)
    decreases e, 1
  {
    hide At, Enc, WF, Append, FoldAll, MaybeByteItem;
    AtStep(b, i, e, Nil);
    match MaybeByteItem(b[i]) {
      case Ok(NewVar) =>
        var v := tr.newVar(s, i);
        return 1, v.0, v.1;
      case Ok(VarRef(k)) =>
        var v := tr.varRef(s, i, k);
        return 1, v.0, v.1;
      case Ok(SymbolSize(n)) =>
        var v := tr.symbol(s, i, b[i + 1..i + 1 + n]);
        return n + 1, v.0, v.1;
      case Ok(Arity(a)) =>
        AppendNil(Children(e));
        var z := tr.zero(s, i, a);
        var len, sa, acc := ExecuteArgs(tr, z.0, b, i + 1, a, z.1, e.args);
        var v := tr.finalize(sa, i + 1 + len, acc);
        return 1 + len, v.0, v.1;
    }
  }

  // The `for` loop of `execute` over the arguments of a compound.
  method ExecuteArgs<S, A, R>(tr: Traversal<S, A, R>, s: S, b: seq<byte>, i: nat, a: nat, acc0: A, ghost kids: Exprs)
      returns (offset: nat, s': S, acc: A)
    requires At(b, i, kids) && a == Len(kids)
    ensures offset == EncLen(kids)
    ensures (s', acc) == FoldAll(tr, false, s, i, acc0, kids)
    decreases kids, 0
  {
    hide At, Enc, WF;
    ghost var rest := kids;
    offset, s', acc := 0, s, acc0;
    for k := 0 to a
      invariant Len(rest) == a - k && (rest == kids || rest < kids)
      invariant At(b, i + offset, rest)
      invariant offset + EncLen(rest) == EncLen(kids)
      invariant FoldAll(tr, false, s', i + offset, acc, rest) == FoldAll(tr, false, s, i, acc0, kids)
    {
      ghost var kid, tl := rest.head, rest.tail;
      AtSkip(b, i + offset, kid, tl);
      var d, sk, r := Execute(tr, s', b, i + offset, kid);
      var av := tr.add(sk, i + offset, acc, r);
      s', acc := av.0, av.1;
      offset := offset + d;
      rest := tl;
    }
  }

  // The siblings still to be read at every level of the stack, in reading order.
  ghost function Flatten(rests: seq<Exprs>): Exprs {
    if rests == [] then Nil else Append(rests[|rests| - 1], Flatten(rests[..|rests| - 1]))
  }

  // What remains to be computed once a subexpression that ends at `j` has produced `r`.
  ghost function Resume<S, A, R>(tr: Traversal<S, A, R>, s: S, j: nat, r: R,
                                 stack: seq<(nat, A)>, rests: seq<Exprs>): (S, nat, R)
    requires |stack| == |rests|
    decreases |stack|
  {
    if stack == [] then (s, j, r) else
      var top := |stack| - 1;
      var (s1, acc) := tr.add(s, j, stack[top].1, r);
      var (s2, acc2) := FoldAll(tr, true, s1, j, acc, rests[top]);
      var end := j + EncLen(rests[top]);
      var (s3, r3) := tr.finalize(s2, end, acc2);
      Resume(tr, s3, end, r3, stack[..top], rests[..top])
  }

  ghost function Goal<S, A, R>(tr: Traversal<S, A, R>, s: S, j: nat, e: Expr,
                               stack: seq<(nat, A)>, rests: seq<Exprs>): (S, nat, R)
    requires |stack| == |rests|
  {
    var (s1, r) := Visit(tr, true, s, j, e);
    Resume(tr, s1, j + EncLen(One(e)), r, stack, rests)
  }

  ghost predicate Levels<A>(stack: seq<(nat, A)>, rests: seq<Exprs>) {
    |stack| == |rests| && forall l | 0 <= l < |stack| :: stack[l].0 == Len(rests[l]) + 1
  }

  // About to read `e` at offset `j`; having just computed `r` for a subexpression that ends at `j`.
  ghost predicate Reading<S, A, R>(tr: Traversal<S, A, R>, b: seq<byte>, goal: (S, nat, R),
                                   s: S, j: nat, e: Expr, stack: seq<(nat, A)>, rests: seq<Exprs>) {
    Levels(stack, rests) && At(b, j, Cons(e, Flatten(rests))) && Goal(tr, s, j, e, stack, rests) == goal
  }

  ghost predicate Returning<S, A, R>(tr: Traversal<S, A, R>, b: seq<byte>, goal: (S, nat, R),
                                     s: S, j: nat, r: R, stack: seq<(nat, A)>, rests: seq<Exprs>) {
    Levels(stack, rests) && At(b, j, Flatten(rests)) && Resume(tr, s, j, r, stack, rests) == goal
  }

  // The stack starts empty; `'putting` reads one item, `'popping` hands a value to its parent.
  method ExecuteLoop<S, A, R>(tr: Traversal<S, A, R>, s0: S, b: seq<byte>, i: nat, ghost root: Expr)
      returns (j: nat, s: S, value: R)
    requires At(b, i, One(root))
    ensures j == i + EncLen(One(root))
    ensures (s, value) == Visit(tr, true, s0, i, root)
  {
    var stack: seq<(nat, A)> := [];
    ghost var rests: seq<Exprs> := [];
    ghost var e := root;
    ghost var goal := Goal(tr, s0, i, root, stack, rests);
    s, j := s0, i;
    while true
      invariant Reading(tr, b, goal, s, j, e, stack, rests)
      decreases EncLen(Cons(e, Flatten(rests)))
    {
      var leaf: Option<R>;
      leaf, s, j, stack, rests := Putting(tr, b, goal, s, j, e, stack, rests);
      if leaf.None? {
        e, rests := rests[|rests| - 1].head, rests[|rests| - 1 := rests[|rests| - 1].tail];
        continue;
      }
      var done;
      done, s, value, stack, rests := Popping(tr, b, goal, s, j, leaf.value, stack, rests);
      if done {
        return;
      }
      e, rests := rests[|rests| - 1].head, rests[|rests| - 1 := rests[|rests| - 1].tail];
    }
  }

  // Read one item: a leaf or an empty compound has a value at once, other compounds open a level.
  method Putting<S, A, R>(tr: Traversal<S, A, R>, b: seq<byte>, ghost goal: (S, nat, R),
                          s0: S, j0: nat, ghost e: Expr, stack0: seq<(nat, A)>, ghost rests0: seq<Exprs>)
      returns (leaf: Option<R>, s: S, j: nat, stack: seq<(nat, A)>, ghost rests: seq<Exprs>)
    requires Reading(tr, b, goal, s0, j0, e, stack0, rests0)
    ensures leaf.Some? ==> Returning(tr, b, goal, s, j, leaf.value, stack, rests)
    ensures leaf.None? ==> ReadingNext(tr, b, goal, s, j, stack, rests)
    ensures EncLen(Flatten(rests)) < EncLen(Cons(e, Flatten(rests0)))
  {
    hide At, Enc, WF, Resume, MaybeByteItem, Flatten, Returning, Reading, ReadingNext;
    stack, rests, j := stack0, rests0, j0;
    ItemRead(tr, b, goal, s0, j, e, stack, rests);
    match MaybeByteItem(b[j]) {
      case Ok(NewVar) =>
        j := j + 1;
        var v := tr.newVar(s0, j - 1);
        s, leaf := v.0, Some(v.1);
      case Ok(VarRef(k)) =>
        j := j + 1;
        var v := tr.varRef(s0, j - 1, k);
        s, leaf := v.0, Some(v.1);
      case Ok(SymbolSize(n)) =>
        var v := tr.symbol(s0, j, b[j + 1..j + 1 + n]);
        s, leaf := v.0, Some(v.1);
        j := j + n + 1;
      case Ok(Arity(a)) =>
        var z := tr.zero(s0, j, a);
        j := j + 1;
        s := z.0;
        if a == 0 {
          var v := tr.finalize(z.0, j, z.1);
          s, leaf := v.0, Some(v.1);
        } else {
          leaf := None;
          stack := stack + [(a, z.1)];
          rests := rests + [e.args];
        }
    }
  }

  // What the item at `j` tells, and where reading it leads.
  lemma ItemRead<S, A, R>(tr: Traversal<S, A, R>, b: seq<byte>, goal: (S, nat, R),
                          s: S, j: nat, e: Expr, stack: seq<(nat, A)>, rests: seq<Exprs>)
    requires Reading(tr, b, goal, s, j, e, stack, rests)
    ensures j < |b| && MaybeByteItem(b[j]) == Ok(HeadTag(e))
    ensures e.Sym? ==> j + 1 + |e.s| <= |b| && b[j + 1..j + 1 + |e.s|] == e.s
    ensures Children(e) == Nil ==>
              && Returning(tr, b, goal, Visit(tr, true, s, j, e).0, j + ItemLen(e), Visit(tr, true, s, j, e).1, stack, rests)
              && EncLen(Flatten(rests)) < EncLen(Cons(e, Flatten(rests)))
    ensures Children(e).Cons? ==>
              var z := tr.zero(s, j, Len(e.args));
              && ReadingNext(tr, b, goal, z.0, j + 1, stack + [(Len(e.args), z.1)], rests + [e.args])
              && EncLen(Flatten(rests + [e.args])) < EncLen(Cons(e, Flatten(rests)))
  {
    hide At, Enc, WF;
    AtStep(b, j, e, Flatten(rests));
    if Children(e) == Nil {
      assert EncLen(One(e)) == ItemLen(e);
    } else {
      PushLevel(tr, s, j, e, stack, rests);
      var rests' := rests + [e.args];
      assert rests'[..|rests|] == rests;
      assert rests'[|rests| := e.args.tail] == rests + [e.args.tail];
    }
  }

  // As `Reading`, with the next expression still the first of the top level's siblings.
  ghost predicate ReadingNext<S, A, R>(tr: Traversal<S, A, R>, b: seq<byte>, goal: (S, nat, R),
                                       s: S, j: nat, stack: seq<(nat, A)>, rests: seq<Exprs>) {
    && stack != [] && |rests| == |stack| && rests[|rests| - 1].Cons?
    && var top := |stack| - 1;
       var rests' := rests[top := rests[top].tail];
       && Reading(tr, b, goal, s, j, rests[top].head, stack, rests')
       && Cons(rests[top].head, Flatten(rests')) == Flatten(rests)
  }

  // The inner loop: close every level whose last argument has just been computed.
  method Popping<S, A, R>(tr: Traversal<S, A, R>, b: seq<byte>, ghost goal: (S, nat, R),
                          s0: S, j: nat, r: R, stack0: seq<(nat, A)>, ghost rests0: seq<Exprs>)
      returns (done: bool, s: S, value: R, stack: seq<(nat, A)>, ghost rests: seq<Exprs>)
    requires Returning(tr, b, goal, s0, j, r, stack0, rests0)
    ensures done ==> (s, j, value) == goal
    ensures !done ==> ReadingNext(tr, b, goal, s, j, stack, rests)
    ensures !done ==> Flatten(rests) == Flatten(rests0)
  {
    s, value, stack, rests := s0, r, stack0, rests0;
    while stack != []
      invariant Returning(tr, b, goal, s, j, value, stack, rests)
      invariant Flatten(rests) == Flatten(rests0)
      decreases |stack|
    {
      var top := |stack| - 1;
      var k := stack[top].0 - 1;
      var av := tr.add(s, j, stack[top].1, value);
      if k != 0 {
        NextSibling(tr, s, j, value, stack, rests);
        s := av.0;
        stack := stack[top := (k, av.1)];
        done := false;
        return;
      }
      var v := tr.finalize(av.0, j, av.1);
      s, value := v.0, v.1;
      stack, rests := stack[..top], rests[..top];
    }
    done := true;
  }

  lemma PushLevel<S, A, R>(tr: Traversal<S, A, R>, s: S, j: nat, e: Expr, stack: seq<(nat, A)>, rests: seq<Exprs>)
    requires Levels(stack, rests) && e.App? && e.args.Cons?
    ensures var z := tr.zero(s, j, Len(e.args));
            var stack', rests' := stack + [(Len(e.args), z.1)], rests + [e.args.tail];
            && Levels(stack', rests')
            && Goal(tr, z.0, j + 1, e.args.head, stack', rests') == Goal(tr, s, j, e, stack, rests)
            && Cons(e.args.head, Flatten(rests')) == Append(e.args, Flatten(rests))
  {
    var z := tr.zero(s, j, Len(e.args));
    var stack', rests' := stack + [(Len(e.args), z.1)], rests + [e.args.tail];
    assert stack'[..|stack|] == stack && rests'[..|rests|] == rests;
    var kid, tl := e.args.head, e.args.tail;
    EncLenCons(kid, tl);
    var (s1, r) := Visit(tr, true, z.0, j + 1, kid);
    var end := j + 1 + EncLen(One(kid));
    var (s2, acc) := tr.add(s1, end, z.1, r);
    assert FoldAll(tr, true, z.0, j + 1, z.1, e.args) == FoldAll(tr, true, s2, end, acc, tl);
  }

  lemma NextSibling<S, A, R>(tr: Traversal<S, A, R>, s: S, j: nat, r: R, stack: seq<(nat, A)>, rests: seq<Exprs>)
    requires Levels(stack, rests) && stack != [] && rests[|rests| - 1].Cons?
    ensures var top := |stack| - 1;
            var (s1, acc) := tr.add(s, j, stack[top].1, r);
            var rest := rests[top];
            var stack', rests' := stack[top := (Len(rest), acc)], rests[top := rest.tail];
            && Levels(stack', rests')
            && Goal(tr, s1, j, rest.head, stack', rests') == Resume(tr, s, j, r, stack, rests)
            && Cons(rest.head, Flatten(rests')) == Flatten(rests)
  {
    var top := |stack| - 1;
    var (s1, acc) := tr.add(s, j, stack[top].1, r);
    var rest := rests[top];
    var stack', rests' := stack[top := (Len(rest), acc)], rests[top := rest.tail];
    assert stack'[..top] == stack[..top] && rests'[..top] == rests[..top];
    EncLenCons(rest.head, rest.tail);
  }

  // The loop refines the recursion for every traversal whose `add` does not look at its offset.
  lemma {:induction false} LoopRefinesRecursion<S(!new), A(!new), R(!new)>(tr: Traversal<S, A, R>, s: S, o: nat, acc: A, es: Exprs)
    requires forall s, o1, o2, acc, r :: tr.add(s, o1, acc, r) == tr.add(s, o2, acc, r)
    ensures FoldAll(tr, true, s, o, acc, es) == FoldAll(tr, false, s, o, acc, es)
    ensures es.Cons? ==> Visit(tr, true, s, o, es.head) == Visit(tr, false, s, o, es.head)
    decreases es
  {
    match es
    case Nil =>
    case Cons(e, tl) =>
      if e.App? {
        var (s0, z) := tr.zero(s, o, Len(e.args));
        LoopRefinesRecursion(tr, s0, o + 1, z, e.args);
      }
      var (s1, r) := Visit(tr, true, s, o, e);
      var end := o + EncLen(One(e));
      var (s2, acc1) := tr.add(s1, end, acc, r);
      assert tr.add(s1, end, acc, r) == tr.add(s1, o, acc, r);
      LoopRefinesRecursion(tr, s2, end, acc1, tl);
  }
}
