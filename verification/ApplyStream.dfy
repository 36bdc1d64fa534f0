/** `apply_e`: `apply` between the two coroutines. */
module StreamApplication {
  import opened Items
  import opened Terms
  import opened Encoding
  import opened Wrappers
  import opened Resolution
  import opened Numbering
  import opened Rendering
  import opened Zippers
  import opened Envs
  import opened Depths
  import opened Application
  import opened Coroutines

  class StreamApplier {
    const bindings: EnvBindings
    const sink: ItemSink
    var cycled: map<ExprVar, nat>
    var stack: seq<ExprVar>
    var assignments: seq<ExprVar>

    // The sink still waits for an expression.
    ghost predicate Valid()
      reads this, sink
    {
      sink.Valid() && sink.Left() > 0 && forall x | x in bindings :: ValidEnv(bindings[x])
    }

    constructor (bindings: EnvBindings, sink: ItemSink)
      requires sink.Valid() && sink.Left() > 0 && forall x | x in bindings :: ValidEnv(bindings[x])
      ensures Valid() && this.bindings == bindings && this.sink == sink
      ensures cycled == map[] && stack == [] && assignments == []
    {
      this.bindings, this.sink := bindings, sink;
      cycled, stack, assignments := map[], [], [];
    }

    ghost function Now(intros: nat): Walked
      reads this, sink
    {
      Walked(sink.target, cycled, assignments, intros)
    }

    ghost function State(): Output<ExprVar>
      reads this, sink
    {
      Output(sink.target, assignments)
    }

    // The same outcome as `apply`; and whatever the bindings, cyclic or not, exactly one expression
    // goes into the sink, which is never resumed once it has completed.
    method ApplyE(n: nat, originalIntros: nat, newIntros: nat, bytes: seq<byte>, ghost e: Expr,
                  limit: Option<nat> := Some(APPLY_DEPTH))
        returns (r: ApplyResult)
      requires Valid() && At(bytes, 0, One(e))
      modifies this, sink
      ensures r.Applied? ==> stack == old(stack) && r.originalIntros == originalIntros + NewVars(One(e))
      ensures r.Applied? ==> sink.Valid() && sink.Left() == old(sink.Left()) - 1
      ensures Outcome(r, old(cycled), cycled, Rest(DenBindings(bindings), SetOf(old(stack)), One(e), n, originalIntros),
                      old(State()), newIntros, State(), limit)
      ensures r.Applied? && old(stack) == [] && old(cycled) == map[] ==>
        (cycled != map[] <==> Cyclic(DenBindings(bindings), Abs(One(e), n, originalIntros)))
      ensures WF(One(e)) && Ran(r, WriteFrom(bindings, old(stack), One(e), n, originalIntros, old(Now(newIntros)), limit),
                                sink.target, cycled, assignments)
      ensures limit.Some? ==>
        DepthOutcome(r, cycled, Deeper(DenBindings(bindings), old(stack), Abs(One(e), n, originalIntros), limit.value))
      decreases bindings.Keys - SetOf(stack), 1
    {
      hide Enc, At, WF, Rest, Render, Abs, NewVars, EncLen, ItemByte, DenBindings, SameEnd, Cyclic, Len, BytesOf, WriteOut, WriteVar, Deeper, DeeperVar;
      AtWF(bytes, e);
      if limit.Some? && |stack| > limit.value {
        DeeperAtOnce(DenBindings(bindings), stack, Abs(One(e), n, originalIntros), limit.value);
        return TooDeep;
      }
      ghost var goal := WriteOut(bindings, stack, One(e), n, originalIntros, Now(newIntros), limit);
      ghost var b, open := DenBindings(bindings), SetOf(stack);
      ghost var r0, c0, o0, left := Rest(b, open, One(e), n, originalIntros), cycled, State(), sink.Left() - 1;
      ghost var deep := limit.Some? && Deeper(b, stack, Abs(One(e), n, originalIntros), limit.value);
      var v: nat, k: nat := originalIntros, newIntros;
      var src := new ItemSource(bytes, e);
      ghost var pending, rest := One(e), One(e);
      SameEndRefl(r0, o0);
      OneLength(bytes, e);
      while true
        invariant fresh(src) && src.Valid(pending) && src.Rest(pending) == rest && (rest.Cons? ==> WF(rest))
        invariant sink.Valid() && sink.Left() == left + Len(rest) && left >= 0
        invariant forall x | x in bindings :: ValidEnv(bindings[x])
        invariant stack == old(stack)
        invariant v + NewVars(rest) == originalIntros + NewVars(One(e))
        invariant WF(rest) && WriteOut(bindings, stack, rest, n, v, Now(k), limit) == goal
        invariant c0 != map[] ==> cycled != map[]
        invariant limit.Some? ==>
          |stack| <= limit.value && DepthKept(deep, cycled, Deeper(b, stack, Abs(rest, n, v), limit.value))
        invariant c0 == map[] ==> OnTheWay(cycled, r0, o0, newIntros, Rest(b, open, rest, n, v), State(), k)
        decreases EncLen(rest)
      {
        RestLength(rest);
        var item := src.Resume(pending);
        if item.None? {
          NothingPending(b, open, n, v);
          WriteNil(bindings, stack, n, v, Now(k), limit);
          if limit.Some? {
            DeeperNothing(b, stack, limit.value);
          }
          CycleFlag(b, open, e, n, originalIntros, cycled, r0, o0, newIntros, State(), k);
          return Applied(v, k);
        }
        pending := rest;
        var failure;
        failure, v, k := Step(n, v, k, item.value, pending, limit, r0, c0, o0, newIntros);
        if failure.Some? {
          return failure.value;
        }
        rest := After(pending);
      }
    }

    // One item of the source: it goes on to the sink, or what its variable stands for does.
    method Step(n: nat, v: nat, k: nat, item: SourceItem, ghost pending: Exprs, limit: Option<nat>,
                ghost r0: Option<AbsTerms>, ghost c0: map<ExprVar, nat>, ghost o0: Output<ExprVar>, ghost k0: nat)
        returns (failure: Option<ApplyResult>, v': nat, k': nat)
      requires Valid() && pending.Cons? && WF(pending) && item == ItemOf(pending.head) && ValidItem(item)
      requires c0 != map[] ==> cycled != map[]
      requires c0 == map[] ==>
        OnTheWay(cycled, r0, o0, k0, Rest(DenBindings(bindings), SetOf(stack), pending, n, v), State(), k)
      modifies this, sink
      ensures failure.None? ==> stack == old(stack) && v' + NewVars(After(pending)) == v + NewVars(pending)
      ensures failure.None? ==> sink.Valid() && sink.Left() == old(sink.Left()) - Len(pending) + Len(After(pending))
      ensures c0 != map[] ==> cycled != map[]
      ensures failure.None? && c0 == map[] ==>
        OnTheWay(cycled, r0, o0, k0, Rest(DenBindings(bindings), SetOf(stack), After(pending), n, v'), State(), k')
      ensures failure.Some? ==> !failure.value.Applied? && Outcome(failure.value, c0, cycled, r0, o0, k0, State(), limit)
      ensures old(cycled) != map[] ==> cycled != map[]
      ensures limit.Some? && |old(stack)| <= limit.value ==>
        var b, deep := DenBindings(bindings), Deeper(DenBindings(bindings), old(stack), Abs(pending, n, v), limit.value);
        if failure.Some? then failure.value.TooDeep? ==> deep
        else DepthKept(deep, cycled, Deeper(b, old(stack), Abs(After(pending), n, v'), limit.value))
      ensures WF(pending) && WF(After(pending))
      ensures var goal := WriteOut(bindings, old(stack), pending, n, v, old(Now(k)), limit);
        if failure.Some? then goal == Err(failure.value)
        else goal == WriteOut(bindings, old(stack), After(pending), n, v', Now(k'), limit)
      decreases bindings.Keys - SetOf(stack), 0, 1
    {
      hide Enc, WF, Rest, Render, Abs, NewVars, EncLen, ItemByte, SetOf, DenBindings, ResolveVar, Len, BytesOf, ItemBytes, WriteOut, WriteVar, Deeper, DeeperVar;
      ghost var b, open := DenBindings(bindings), SetOf(stack);
      ghost var o1, c1 := State(), cycled;
      if limit.Some? && |stack| <= limit.value {
        DepthStep(b, stack, pending, n, v, limit.value);
      }
      WriteStep(bindings, stack, pending, n, v, Now(k), limit);
      NewVarsStep(pending);
      StepLength(pending);
      v', k', failure := v, k, None;
      if item.Word? || item.tag.Arity? {
        ItemStep(b, open, pending, n, v, o1);
        ItemIsValid(pending.head);
        var _ := sink.Resume(item);
      } else {
        VarStep(b, open, pending, n, v, o1);
        var x := if item.tag.NewVar? then (n, v) else (n, item.tag.i);
        var rx := Variable(x, k, limit);
        v' := if item.tag.NewVar? then v + 1 else v;
        ghost var rest := Rest(b, open, After(pending), n, v');
        if rx.Applied? {
          k' := rx.newIntros;
          if c0 == map[] {
            VarOnTheWay(c1, cycled, r0, o0, k0, Rest(b, open, pending, n, v), o1, k, ResolveVar(b, open, x), rest, State(), k');
          }
        } else {
          failure := Some(rx);
          if c0 == map[] && rx.RefTooLarge? && cycled == map[] && ResolveVar(b, open, x).Some? {
            VarFailed(r0, o0, Rest(b, open, pending, n, v), o1, ResolveVar(b, open, x), rest);
          }
        }
      }
    }

    // One occurrence of a variable, introduced or referred to.
    method Variable(x: ExprVar, newIntros: nat, limit: Option<nat>) returns (r: ApplyResult)
      requires Valid()
      modifies this, sink
      ensures r.Applied? ==> stack == old(stack)
      ensures r.Applied? ==> sink.Valid() && sink.Left() == old(sink.Left()) - 1
      ensures Outcome(r, old(cycled), cycled, ResolveVar(DenBindings(bindings), SetOf(old(stack)), x), old(State()), newIntros,
                      State(), limit)
      ensures limit.Some? ==> DepthOutcome(r, cycled, DeeperVar(DenBindings(bindings), old(stack), x, limit.value))
      ensures match WriteVar(bindings, old(stack), x, old(Now(newIntros)), limit)
              case Ok(w) => r.Applied? && w == Now(r.newIntros)
              case Err(f) => r == f && !r.Applied?
      decreases bindings.Keys - SetOf(stack), 0, 0
    {
      hide Enc, At, WF, Rest, Render, Abs, NewVars, ItemByte, ResolveVar, Len, WriteVar, WriteOut, Deeper;
      ghost var b, open := DenBindings(bindings), SetOf(stack);
      BoundVar(b, open, x);
      WriteVarIs(bindings, stack, x, Now(newIntros), limit);
      if x !in bindings {
        RenderVar(x, State());
        if x in assignments {
          var pos := IndexOf(assignments, x);
          if pos >= 64 {
            return RefTooLarge;
          }
          var _ := sink.Resume(Item(VarRef(pos)));
          r := Applied(0, newIntros);
        } else {
          var _ := sink.Resume(Item(NewVar));
          assignments := assignments + [x];
          r := Applied(0, newIntros + 1);
        }
        RenderNil(State());
      } else if x in cycled {
        if cycled[x] >= 64 {
          return RefTooLarge;
        }
        var _ := sink.Resume(Item(VarRef(cycled[x])));
        r := Applied(0, newIntros);
      } else if x in stack {
        cycled := cycled[x := newIntros];
        var _ := sink.Resume(Item(NewVar));
        r := Applied(0, newIntros + 1);
      } else {
        stack := stack + [x];
        assert SetOf(stack) == open + {x};
        var rhs := bindings[x];
        SubexprAt(rhs);
        BindingRest(bindings, open, x);
        AbsCons(ExprOf(rhs), Nil, rhs.n, rhs.v);
        r := ApplyE(rhs.n, rhs.v, newIntros, rhs.Subexpr(), ExprOf(rhs), limit);
        if r.Applied? {
          stack := stack[..|stack| - 1];
        }
      }
    }
  }

  lemma OneLength(bytes: seq<byte>, e: Expr)
    requires At(bytes, 0, One(e))
    ensures Len(One(e)) == 1 && WF(One(e))
  {
  }

  lemma RestLength(rest: Exprs)
    ensures Len(rest) == 0 <==> rest == Nil
    ensures rest.Cons? && WF(rest) ==> EncLen(After(rest)) < EncLen(rest) && WF(After(rest))
  {
    if rest.Cons? && WF(rest) {
      EncStep(rest.head, rest.tail);
    }
  }

  lemma StepLength(pending: Exprs)
    requires pending.Cons? && WF(pending)
    ensures Len(After(pending)) == Len(pending) - 1 + Opens(ItemOf(pending.head))
    ensures pending.head.Var? ==> Opens(ItemOf(pending.head)) == 0
  {
    LenAppend(Children(pending.head), pending.tail);
    EncStep(pending.head, pending.tail);
    ItemIsValid(pending.head);
  }
}
