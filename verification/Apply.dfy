/** `apply`: write an expression with its variables resolved through bindings and renumbered. */
module Application {
  import opened Items
  import opened Terms
  import opened Encoding
  import opened Wrappers
  import opened Trees
  import opened Resolution
  import opened Numbering
  import opened Rendering
  import opened Zippers
  import opened Envs
  import opened Depths

  lemma ResolveAppend(b: Bindings, open: set<ExprVar>, ts: AbsTerms, us: AbsTerms)
    ensures Resolve(b, open, Append(ts, us)).Some? <==> Resolve(b, open, ts).Some? && Resolve(b, open, us).Some?
    ensures Resolve(b, open, Append(ts, us)).Some? ==>
      Resolve(b, open, Append(ts, us)).value == Append(Resolve(b, open, ts).value, Resolve(b, open, us).value)
    decreases ts
  {
    match ts
    case Nil =>
    case Cons(t, tl) =>
      ResolveAppend(b, open, tl, us);
      ResolveCons(b, open, t, tl);
      ResolveCons(b, open, t, Append(tl, us));
  }

  /* ---- One item of the walk ---- */

  // The outcome of writing the rest of the walk: nothing on a cycle.
  ghost function Rest(b: Bindings, open: set<ExprVar>, es: Exprs, n: nat, v: nat): Option<AbsTerms> {
    Resolve(b, open, Abs(es, n, v))
  }

  // From one point of the walk to the next, what will be written in the end stays the same.
  ghost predicate SameEnd(r0: Option<AbsTerms>, o0: Output<ExprVar>, r1: Option<AbsTerms>, o1: Output<ExprVar>) {
    && (r0.Some? <==> r1.Some?)
    && (r0.Some? ==> Render(r0.value, o0) == Render(r1.value, o1))
  }

  lemma ItemStep(b: Bindings, open: set<ExprVar>, pending: Exprs, n: nat, v: nat, o: Output<ExprVar>)
    requires pending.Cons? && !pending.head.Var? && WF(pending)
    ensures WF(One(pending.head))
    ensures SameEnd(Rest(b, open, pending, n, v), o,
                    Rest(b, open, After(pending), n, v), o.(out := o.out + ItemBytes(pending.head)))
  {
    hide Enc, Render, Resolve, Number, Append, Abs, EncLen, NewVars, ItemByte;
    var e, tl := pending.head, pending.tail;
    var t, us := Abs1(e, n, v), Abs(tl, n, v + NewVars(One(e)));
    AbsCons(e, tl, n, v);
    AbsAppend(Children(e), tl, n, v);
    ResolveCons(b, open, t, us);
    ResolveAppend(b, open, Abs(Children(e), n, v), us);
    ItemResolve(b, open, e, n, v);
    if Rest(b, open, pending, n, v).Some? {
      var r := Resolve(b, open, us).value;
      if e.Sym? {
        RenderCons(t, r, o);
        RenderSym(e.s, o);
      } else {
        AbsLen(e.args, n, v);
        RenderApp(Resolve(b, open, Abs(e.args, n, v)).value, r, o);
      }
    }
  }

  lemma ItemResolve(b: Bindings, open: set<ExprVar>, e: Expr, n: nat, v: nat)
    requires !e.Var?
    ensures NewVars(One(e)) == NewVars(Children(e))
    ensures e.Sym? ==> Abs1(e, n, v) == Sym(e.s) && Children(e) == Nil && Abs(Children(e), n, v) == Nil
    ensures e.Sym? ==> Resolve(b, open, One(Abs1(e, n, v))) == Some(One(Sym(e.s))) && Resolve(b, open, Nil) == Some(Nil)
    ensures e.Sym? ==> forall ts: AbsTerms :: Append(Nil, ts) == ts
    ensures e.App? ==> Abs1(e, n, v) == App(Abs(e.args, n, v))
    ensures e.App? ==> var k := Resolve(b, open, Abs(e.args, n, v));
      Resolve(b, open, One(Abs1(e, n, v))) == if k.Some? then Some(One(App(k.value))) else None
  {
  }

  // A variable of the walk, as an absolute variable.
  function VarOf(e: Expr, n: nat, v: nat): ExprVar
    requires e.Var?
  {
    if e.x.New? then (n, v) else (n, e.x.i)
  }

  lemma VarCons(pending: Exprs, n: nat, v: nat)
    requires pending.Cons? && pending.head.Var?
    ensures Abs(pending, n, v) == Cons(Var(VarOf(pending.head, n, v)), Abs(pending.tail, n, v + NewVars(One(pending.head))))
    ensures After(pending) == pending.tail
  {
  }

  // What a variable stands for, inside the variables that are being resolved.
  ghost function ResolveVar(b: Bindings, open: set<ExprVar>, x: ExprVar): Option<AbsTerms> {
    Resolve(b, open, One(Var(x)))
  }

  lemma VarStep(b: Bindings, open: set<ExprVar>, pending: Exprs, n: nat, v: nat, o: Output<ExprVar>)
    requires pending.Cons? && pending.head.Var?
    ensures var x := VarOf(pending.head, n, v);
            var r0, rx := Rest(b, open, pending, n, v), ResolveVar(b, open, x);
            var r1 := Rest(b, open, After(pending), n, v + NewVars(One(pending.head)));
            && (r0.Some? <==> rx.Some? && r1.Some?)
            && (r0.Some? ==> Render(r0.value, o) == RenderAfter(r1.value, Render(rx.value, o)))
  {
    VarCons(pending, n, v);
    var x := VarOf(pending.head, n, v);
    var tl := Abs(pending.tail, n, v + NewVars(One(pending.head)));
    ResolveCons(b, open, Var(x), tl);
    var rx, r1 := ResolveVar(b, open, x), Resolve(b, open, tl);
    if rx.Some? && r1.Some? {
      RenderCons(rx.value.head, r1.value, o);
      assert rx.value == One(rx.value.head);
    }
  }

  lemma BoundVar(b: Bindings, open: set<ExprVar>, x: ExprVar)
    ensures x !in b ==> ResolveVar(b, open, x) == Some(One(Var(x)))
    ensures x in b && x in open ==> ResolveVar(b, open, x) == None
    ensures x in b && x !in open ==> ResolveVar(b, open, x) == Resolve(b, open + {x}, One(b[x]))
  {
    assert Resolve(b, open, Nil) == Some(Nil);
    if x in b && x !in open {
      var k := Resolve(b, open + {x}, One(b[x]));
      assert ResolveVar(b, open, x) == if k.Some? then Some(One(k.value.head)) else None;
      if k.Some? {
        assert Len(One(b[x])) == 1;
        LenOne(k.value);
      }
    }
  }

  datatype ApplyResult =
    | Applied(originalIntros: nat, newIntros: nat)
    | TooDeep        // `apply depth > APPLY_DEPTH` panics
    | RefTooLarge    // the assertion of `item_byte` on references of 64 and above

  const APPLY_DEPTH: nat := 64

  function SetOf<T>(s: seq<T>): set<T> {
    set x | x in s
  }

  /* ---- What is written, cycles included ---- */

  // What has been written, the cycles met and the variables assigned so far, and how many variables
  // were introduced.
  datatype Walked = Walked(out: seq<byte>, cycled: map<ExprVar, nat>, assignments: seq<ExprVar>, intros: nat)

  // Writing `pending` inside the variables of `stack`. Err when the writing panics.
  ghost function WriteOut(bindings: EnvBindings, stack: seq<ExprVar>, pending: Exprs, n: nat, v: nat, w: Walked, limit: Option<nat>)
      : (r: Result<(nat, Walked), ApplyResult>)
    requires WF(pending) && forall x | x in bindings :: ValidEnv(bindings[x])
    ensures r.Err? ==> !r.error.Applied?
    decreases bindings.Keys - SetOf(stack), 1, EncLen(pending)
  {
    if pending == Nil then Ok((v, w)) else
      var e := pending.head;
      PendingShrinks(pending);
      if !e.Var? then
        WriteOut(bindings, stack, After(pending), n, v, w.(out := w.out + ItemBytes(e)), limit)
      else
        match WriteVar(bindings, stack, VarOf(e, n, v), w, limit)
        case Err(f) => Err(f)
        case Ok(w') => WriteOut(bindings, stack, After(pending), n, if e.x.New? then v + 1 else v, w', limit)
  }

  // A reference to level `i`.
  function Referred(w: Walked, i: nat): Result<Walked, ApplyResult> {
    if i >= 64 then Err(RefTooLarge) else Ok(w.(out := w.out + [ItemByte(VarRef(i))]))
  }

  function Introduced(w: Walked): Walked {
    w.(out := w.out + [ItemByte(NewVar)], intros := w.intros + 1)
  }

  // One occurrence of a variable: unbound, a cycle met before, a new cycle, or what it is bound to.
  ghost function WriteVar(bindings: EnvBindings, stack: seq<ExprVar>, x: ExprVar, w: Walked, limit: Option<nat>)
      : (r: Result<Walked, ApplyResult>)
    requires forall x | x in bindings :: ValidEnv(bindings[x])
    ensures r.Err? ==> !r.error.Applied?
    decreases bindings.Keys - SetOf(stack), 0, 0
  {
    if x !in bindings then
      if x in w.assignments then Referred(w, IndexOf(w.assignments, x))
      else Ok(Introduced(w).(assignments := w.assignments + [x]))
    else if x in w.cycled then Referred(w, w.cycled[x])
    else if x in stack then Ok(Introduced(w).(cycled := w.cycled[x := w.intros]))
    else if limit.Some? && |stack| + 1 > limit.value then Err(TooDeep)
    else
      var rhs := bindings[x];
      StackGrows(bindings, stack, x);
      WFExprOf(rhs);
      match WriteOut(bindings, stack + [x], One(ExprOf(rhs)), rhs.n, rhs.v, w, limit)
      case Err(f) => Err(f)
      case Ok(g) => Ok(g.1)
  }

  lemma WFExprOf(e: ExprEnv)
    requires ValidEnv(e)
    ensures WF(One(ExprOf(e)))
  {
  }

  lemma PendingShrinks(pending: Exprs)
    requires WF(pending) && pending.Cons?
    ensures WF(One(pending.head)) && WF(After(pending)) && EncLen(After(pending)) < EncLen(pending)
  {
    EncStep(pending.head, pending.tail);
  }

  lemma StackGrows(bindings: EnvBindings, stack: seq<ExprVar>, x: ExprVar)
    requires x in bindings && x !in stack
    ensures bindings.Keys - SetOf(stack + [x]) < bindings.Keys - SetOf(stack)
  {
    assert x in SetOf(stack + [x]) && x in bindings.Keys - SetOf(stack);
    assert forall y | y in stack :: y in stack + [x];
  }

  ghost function WriteFrom(bindings: EnvBindings, stack: seq<ExprVar>, es: Exprs, n: nat, v: nat, w: Walked, limit: Option<nat>)
      : Result<(nat, Walked), ApplyResult>
    requires WF(es) && forall x | x in bindings :: ValidEnv(bindings[x])
  {
    if limit.Some? && |stack| > limit.value then Err(TooDeep) else WriteOut(bindings, stack, es, n, v, w, limit)
  }

  lemma WriteStep(bindings: EnvBindings, stack: seq<ExprVar>, pending: Exprs, n: nat, v: nat, w: Walked, limit: Option<nat>)
    requires WF(pending) && pending.Cons? && forall x | x in bindings :: ValidEnv(bindings[x])
    ensures WF(One(pending.head)) && WF(After(pending))
    ensures WriteOut(bindings, stack, pending, n, v, w, limit) ==
      if !pending.head.Var? then
        WriteOut(bindings, stack, After(pending), n, v, w.(out := w.out + ItemBytes(pending.head)), limit)
      else
        match WriteVar(bindings, stack, VarOf(pending.head, n, v), w, limit)
        case Err(f) => Err(f)
        case Ok(w') => WriteOut(bindings, stack, After(pending), n, if pending.head.x.New? then v + 1 else v, w', limit)
  {
    hide WriteVar, ItemBytes, Append;
    PendingShrinks(pending);
  }

  lemma WriteVarIs(bindings: EnvBindings, stack: seq<ExprVar>, x: ExprVar, w: Walked, limit: Option<nat>)
    requires forall x | x in bindings :: ValidEnv(bindings[x])
    ensures x !in bindings ==>
      WriteVar(bindings, stack, x, w, limit) ==
      if x in w.assignments then Referred(w, IndexOf(w.assignments, x)) else Ok(Introduced(w).(assignments := w.assignments + [x]))
    ensures x in bindings && x in w.cycled ==> WriteVar(bindings, stack, x, w, limit) == Referred(w, w.cycled[x])
    ensures x in bindings && x !in w.cycled && x in stack ==>
      WriteVar(bindings, stack, x, w, limit) == Ok(Introduced(w).(cycled := w.cycled[x := w.intros]))
    ensures x in bindings ==> WF(One(ExprOf(bindings[x])))
    ensures x in bindings && x !in w.cycled && x !in stack ==>
      WriteVar(bindings, stack, x, w, limit) ==
      match WriteFrom(bindings, stack + [x], One(ExprOf(bindings[x])), bindings[x].n, bindings[x].v, w, limit)
      case Err(f) => Err(f)
      case Ok(g) => Ok(g.1)
  {
    hide WriteOut, WF;
    if x in bindings {
      WFExprOf(bindings[x]);
    }
  }

  lemma WriteNil(bindings: EnvBindings, stack: seq<ExprVar>, n: nat, v: nat, w: Walked, limit: Option<nat>)
    requires forall x | x in bindings :: ValidEnv(bindings[x])
    ensures WriteOut(bindings, stack, Nil, n, v, w, limit) == Ok((v, w))
  {
  }

  lemma AtWF(bytes: seq<byte>, e: Expr)
    requires At(bytes, 0, One(e))
    ensures WF(One(e))
  {
  }

  lemma ValidWF(ez: ExprZipper, pending: Exprs)
    requires ez.Valid(pending)
    ensures pending.Cons? && WF(pending)
  {
  }

  // The run did what the walk says.
  ghost predicate Ran(r: ApplyResult, goal: Result<(nat, Walked), ApplyResult>, out: seq<byte>, cycled: map<ExprVar, nat>, assignments: seq<ExprVar>) {
    match goal
    case Ok(g) => r == Applied(g.0, g.1.intros) && out == g.1.out && cycled == g.1.cycled && assignments == g.1.assignments
    case Err(f) => r == f
  }

  // The state `o0` with `r0` to be written led to the state `o` with `r` to be written: unless a cycle
  // was met, the output will be the same. `k0` and `k` count the variables introduced.
  ghost predicate OnTheWay(cycled: map<ExprVar, nat>, r0: Option<AbsTerms>, o0: Output<ExprVar>, k0: int,
                           r: Option<AbsTerms>, o: Output<ExprVar>, k: int) {
    if cycled == map[] then SameEnd(r0, o0, r, o) && k == k0 + |o.asg| - |o0.asg|
    else r0.None?
  }

  // A variable was written between two points of the walk.
  lemma VarOnTheWay(c1: map<ExprVar, nat>, c2: map<ExprVar, nat>, r0: Option<AbsTerms>, o0: Output<ExprVar>, k0: int,
                    r1: Option<AbsTerms>, o1: Output<ExprVar>, k1: int, rx: Option<AbsTerms>, r2: Option<AbsTerms>, o2: Output<ExprVar>, k2: int)
    requires OnTheWay(c1, r0, o0, k0, r1, o1, k1)
    requires r1.Some? <==> rx.Some? && r2.Some?
    requires r1.Some? ==> Render(r1.value, o1) == RenderAfter(r2.value, Render(rx.value, o1))
    requires c1 != map[] ==> c2 != map[]
    requires c1 == map[] ==> OnTheWay(c2, rx, o1, k1, Some(Nil), o2, k2)
    ensures OnTheWay(c2, r0, o0, k0, r2, o2, k2)
  {
    hide Render;
    RenderNil(o2);
  }

  // The same, when writing the variable failed.
  lemma VarFailed(r0: Option<AbsTerms>, o0: Output<ExprVar>, r1: Option<AbsTerms>, o1: Output<ExprVar>, rx: Option<AbsTerms>, r2: Option<AbsTerms>)
    requires SameEnd(r0, o0, r1, o1)
    requires r1.Some? <==> rx.Some? && r2.Some?
    requires r1.Some? ==> Render(r1.value, o1) == RenderAfter(r2.value, Render(rx.value, o1))
    requires rx.Some? ==> Render(rx.value, o1) == None
    ensures r0.Some? ==> Render(r0.value, o0) == None
  {
  }

  // Whether a chain of bindings that is too long starts in what was to be written. With cycles some
  // chains are cut short.
  ghost predicate DepthOutcome(r: ApplyResult, cycled: map<ExprVar, nat>, deep: bool) {
    (r.TooDeep? ==> deep) && (r.Applied? && cycled == map[] ==> !deep)
  }

  // The same, between two points of the walk.
  ghost predicate DepthKept(before: bool, cycled: map<ExprVar, nat>, after: bool) {
    (after ==> before) && (cycled == map[] && before ==> after)
  }

  lemma OccursAppend(x: ExprVar, ts: AbsTerms, us: AbsTerms)
    ensures Occurs(x, Append(ts, us)) <==> Occurs(x, ts) || Occurs(x, us)
  {
  }

  lemma DepthStep(b: Bindings, stack: seq<ExprVar>, pending: Exprs, n: nat, v: nat, limit: nat)
    requires pending.Cons? && |stack| <= limit
    ensures !pending.head.Var? ==>
      (Deeper(b, stack, Abs(pending, n, v), limit) <==> Deeper(b, stack, Abs(After(pending), n, v), limit))
    ensures pending.head.Var? ==>
      var x, v' := VarOf(pending.head, n, v), if pending.head.x.New? then v + 1 else v;
      (Deeper(b, stack, Abs(pending, n, v), limit) <==>
       DeeperVar(b, stack, x, limit) || Deeper(b, stack, Abs(After(pending), n, v'), limit))
  {
    hide Deeper, DeeperVar, Abs, NewVars, Append;
    var e, tl := pending.head, pending.tail;
    AbsCons(e, tl, n, v);
    OneFacts(e, n, v);
    if e.Var? {
      VarCons(pending, n, v);
      var x := VarOf(e, n, v);
      DeeperCons(b, stack, Var(x), Abs(tl, n, v + NewVars(One(e))), limit);
      DeeperOne(b, stack, x, limit);
    } else {
      AbsAppend(Children(e), tl, n, v);
      ItemResolve(b, {}, e, n, v);
      forall x ensures Occurs(x, Abs(pending, n, v)) <==> Occurs(x, Abs(After(pending), n, v)) {
        OccursCons(x, Abs1(e, n, v), Abs(tl, n, v + NewVars(One(e))));
        OccursOne(x, Abs1(e, n, v));
        OccursAppend(x, Abs(Children(e), n, v), Abs(tl, n, v + NewVars(Children(e))));
        NoOccurs(x, n, v);
      }
      DeeperSame(b, stack, Abs(pending, n, v), Abs(After(pending), n, v), limit);
    }
  }

  lemma NoOccurs(x: ExprVar, n: nat, v: nat)
    ensures !Occurs(x, Abs(Nil, n, v))
  {
  }

  // What a run says that started with `r0` to be written after `o0` and the cycles `c0`, and ended
  // with `o` written and the cycles `c`.
  ghost predicate Outcome(r: ApplyResult, c0: map<ExprVar, nat>, c: map<ExprVar, nat>, r0: Option<AbsTerms>,
                          o0: Output<ExprVar>, k0: nat, o: Output<ExprVar>, limit: Option<nat>) {
    && (c0 != map[] ==> c != map[])
    && (r.TooDeep? ==> limit.Some?)
    && (c0 == map[] && c != map[] ==> r0.None?)
    && (c0 == map[] && r.Applied? ==> OnTheWay(c, r0, o0, k0, Some(Nil), o, r.newIntros))
    && (c0 == map[] && r.RefTooLarge? && c == map[] && r0.Some? ==> Render(r0.value, o0) == None)
  }

  class Applier {
    const bindings: EnvBindings
    var out: seq<byte>
    var cycled: map<ExprVar, nat>
    var stack: seq<ExprVar>
    var assignments: seq<ExprVar>

    ghost predicate Valid() {
      forall x | x in bindings :: ValidEnv(bindings[x])
    }

    constructor (bindings: EnvBindings, out: seq<byte>)
      requires forall x | x in bindings :: ValidEnv(bindings[x])
      ensures Valid() && this.bindings == bindings && this.out == out
      ensures cycled == map[] && stack == [] && assignments == []
    {
      this.bindings, this.out := bindings, out;
      cycled, stack, assignments := map[], [], [];
    }

    ghost function Now(intros: nat): Walked
      reads this
    {
      Walked(out, cycled, assignments, intros)
    }

    ghost function State(): Output<ExprVar>
      reads this
    {
      Output(out, assignments)
    }

    method Apply(n: nat, originalIntros: nat, newIntros: nat, bytes: seq<byte>, ghost e: Expr,
                  limit: Option<nat> := Some(APPLY_DEPTH))
        returns (r: ApplyResult)
      requires Valid() && At(bytes, 0, One(e))
      modifies this
      ensures r.Applied? ==> stack == old(stack) && r.originalIntros == originalIntros + NewVars(One(e))
      ensures Outcome(r, old(cycled), cycled, Rest(DenBindings(bindings), SetOf(old(stack)), One(e), n, originalIntros),
                      old(State()), newIntros, State(), limit)
      ensures r.Applied? && old(stack) == [] && old(cycled) == map[] ==>
        (cycled != map[] <==> Cyclic(DenBindings(bindings), Abs(One(e), n, originalIntros)))
      ensures WF(One(e)) && Ran(r, WriteFrom(bindings, old(stack), One(e), n, originalIntros, old(Now(newIntros)), limit),
                                out, cycled, assignments)
      ensures limit.Some? ==>
        DepthOutcome(r, cycled, Deeper(DenBindings(bindings), old(stack), Abs(One(e), n, originalIntros), limit.value))
      decreases bindings.Keys - SetOf(stack), 1
    {
      hide Enc, At, WF, Rest, Render, Abs, NewVars, EncLen, ItemByte, DenBindings, SameEnd, Cyclic, WriteOut, WriteVar, Deeper, DeeperVar;
      AtWF(bytes, e);
      if limit.Some? && |stack| > limit.value {
        DeeperAtOnce(DenBindings(bindings), stack, Abs(One(e), n, originalIntros), limit.value);
        return TooDeep;
      }
      ghost var goal := WriteOut(bindings, stack, One(e), n, originalIntros, Now(newIntros), limit);
      ghost var b, open := DenBindings(bindings), SetOf(stack);
      ghost var r0, c0, o0 := Rest(b, open, One(e), n, originalIntros), cycled, State();
      ghost var deep := limit.Some? && Deeper(b, stack, Abs(One(e), n, originalIntros), limit.value);
      var v: nat, k: nat := originalIntros, newIntros;
      var ez := new ExprZipper(bytes, e);
      ghost var pending := One(e);
      SameEndRefl(r0, o0);
      while true
        invariant ez.Valid(pending) && ez.root == bytes && fresh(ez)
        invariant stack == old(stack)
        invariant v + NewVars(pending) == originalIntros + NewVars(One(e))
        invariant WF(pending) && WriteOut(bindings, stack, pending, n, v, Now(k), limit) == goal
        invariant c0 != map[] ==> cycled != map[]
        invariant limit.Some? ==>
          |stack| <= limit.value && DepthKept(deep, cycled, Deeper(b, stack, Abs(pending, n, v), limit.value))
        invariant c0 == map[] ==> OnTheWay(cycled, r0, o0, newIntros, Rest(b, open, pending, n, v), State(), k)
        decreases EncLen(pending)
      {
        var failure;
        failure, v, k := Item(n, v, k, ez, pending, limit, r0, c0, o0, newIntros);
        if failure.Some? {
          return failure.value;
        }
        PendingStep(pending, ez.root, ez.loc);
        var more := ez.Next(pending);
        if !more {
          NothingPending(b, open, n, v);
          WriteNil(bindings, stack, n, v, Now(k), limit);
          if limit.Some? {
            DeeperNothing(b, stack, limit.value);
          }
          CycleFlag(b, open, e, n, originalIntros, cycled, r0, o0, newIntros, State(), k);
          return Applied(v, k);
        }
        pending := After(pending);
      }
    }

    // The body of the loop: write the item at the zipper, or what its variable stands for.
    method Item(n: nat, v: nat, k: nat, ez: ExprZipper, ghost pending: Exprs, limit: Option<nat>,
                ghost r0: Option<AbsTerms>, ghost c0: map<ExprVar, nat>, ghost o0: Output<ExprVar>, ghost k0: nat)
        returns (failure: Option<ApplyResult>, v': nat, k': nat)
      requires Valid() && ez.Valid(pending)
      requires c0 != map[] ==> cycled != map[]
      requires c0 == map[] ==>
        OnTheWay(cycled, r0, o0, k0, Rest(DenBindings(bindings), SetOf(stack), pending, n, v), State(), k)
      modifies this
      ensures failure.None? ==> stack == old(stack) && v' + NewVars(After(pending)) == v + NewVars(pending)
      ensures c0 != map[] ==> cycled != map[]
      ensures failure.None? && c0 == map[] ==>
        OnTheWay(cycled, r0, o0, k0, Rest(DenBindings(bindings), SetOf(stack), After(pending), n, v'), State(), k')
      ensures failure.Some? ==> !failure.value.Applied? && Outcome(failure.value, c0, cycled, r0, o0, k0, State(), limit)
      ensures old(cycled) != map[] ==> cycled != map[]
      ensures limit.Some? && |old(stack)| <= limit.value ==>
        var b, deep := DenBindings(bindings), Deeper(DenBindings(bindings), old(stack), Abs(pending, n, v), limit.value);
        if failure.Some? then failure.value.TooDeep? ==> deep
        else DepthKept(deep, cycled, Deeper(b, old(stack), Abs(After(pending), n, v'), limit.value))
      ensures WF(pending) && WF(After(pending))
      ensures var goal := WriteOut(bindings, old(stack), pending, n, v, old(Now(k)), limit);
        if failure.Some? then goal == Err(failure.value)
        else goal == WriteOut(bindings, old(stack), After(pending), n, v', Now(k'), limit)
      decreases bindings.Keys - SetOf(stack), 0, 1
    {
      hide Enc, At, WF, Rest, Render, Abs, NewVars, EncLen, ItemByte, SetOf, DenBindings, ResolveVar, WriteOut, WriteVar, Deeper, DeeperVar;
      ghost var b, open := DenBindings(bindings), SetOf(stack);
      ghost var o1, c1 := State(), cycled;
      if limit.Some? && |stack| <= limit.value {
        DepthStep(b, stack, pending, n, v, limit.value);
      }
      ValidWF(ez, pending);
      WriteStep(bindings, stack, pending, n, v, Now(k), limit);
      NewVarsStep(pending);
      PendingStep(pending, ez.root, ez.loc);
      v', k', failure := v, k, None;
      var item := ez.Item(pending);
      if item.Err? {
        ItemStep(b, open, pending, n, v, o1);
        out := out + ([ItemByte(SymbolSize(|item.error|))] + item.error);
      } else if item.value.Arity? {
        ItemStep(b, open, pending, n, v, o1);
        out := out + [ItemByte(item.value)];
      } else {
        VarStep(b, open, pending, n, v, o1);
        var x := if item.value.NewVar? then (n, v) else (n, item.value.i);
        var rx := Variable(x, k, limit);
        v' := if item.value.NewVar? then v + 1 else v;
        ghost var rest := Rest(b, open, After(pending), n, v');
        if rx.Applied? {
          k' := rx.newIntros;
          if c0 == map[] {
            VarOnTheWay(c1, cycled, r0, o0, k0, Rest(b, open, pending, n, v), o1, k, ResolveVar(b, open, x), rest, State(), k');
          }
        } else {
          failure := Some(rx);
          if c0 == map[] && rx.RefTooLarge? && cycled == map[] && ResolveVar(b, open, x).Some? {
            VarFailed(r0, o0, Rest(b, open, pending, n, v), o1, ResolveVar(b, open, x), rest);
          }
        }
      }
    }

    // One occurrence of a variable, introduced or referred to.
    method Variable(x: ExprVar, newIntros: nat, limit: Option<nat>) returns (r: ApplyResult)
      requires Valid()
      modifies this
      ensures r.Applied? ==> stack == old(stack)
      ensures Outcome(r, old(cycled), cycled, ResolveVar(DenBindings(bindings), SetOf(old(stack)), x), old(State()), newIntros,
                      State(), limit)
      ensures limit.Some? ==> DepthOutcome(r, cycled, DeeperVar(DenBindings(bindings), old(stack), x, limit.value))
      ensures match WriteVar(bindings, old(stack), x, old(Now(newIntros)), limit)
              case Ok(w) => r.Applied? && w == Now(r.newIntros)
              case Err(f) => r == f && !r.Applied?
      decreases bindings.Keys - SetOf(stack), 0, 0
    {
      hide Enc, At, WF, Rest, Render, Abs, NewVars, ItemByte, ResolveVar, WriteVar, WriteOut, Deeper;
      ghost var b, open := DenBindings(bindings), SetOf(stack);
      BoundVar(b, open, x);
      WriteVarIs(bindings, stack, x, Now(newIntros), limit);
      if x !in bindings {
        RenderVar(x, State());
        if x in assignments {
          var pos := IndexOf(assignments, x);
          if pos >= 64 {
            return RefTooLarge;
          }
          out := out + [ItemByte(VarRef(pos))];
          r := Applied(0, newIntros);
        } else {
          out := out + [ItemByte(NewVar)];
          assignments := assignments + [x];
          r := Applied(0, newIntros + 1);
        }
        RenderNil(State());
      } else if x in cycled {
        if cycled[x] >= 64 {
          return RefTooLarge;
        }
        out := out + [ItemByte(VarRef(cycled[x]))];
        r := Applied(0, newIntros);
      } else if x in stack {
        cycled := cycled[x := newIntros];
        out := out + [ItemByte(NewVar)];
        r := Applied(0, newIntros + 1);
      } else {
        stack := stack + [x];
        assert SetOf(stack) == open + {x};
        var rhs := bindings[x];
        SubexprAt(rhs);
        BindingRest(bindings, open, x);
        AbsCons(ExprOf(rhs), Nil, rhs.n, rhs.v);
        r := Apply(rhs.n, rhs.v, newIntros, rhs.Subexpr(), ExprOf(rhs), limit);
        if r.Applied? {
          stack := stack[..|stack| - 1];
        }
      }
    }
  }

  lemma SameEndRefl(r: Option<AbsTerms>, o: Output<ExprVar>)
    ensures SameEnd(r, o, r, o)
  {
  }

  // Started with no variable open, the walk meets a cycle exactly when one can be reached.
  lemma CycleFlag(b: Bindings, open: set<ExprVar>, e: Expr, n: nat, v: nat, cycled: map<ExprVar, nat>,
                  r0: Option<AbsTerms>, o0: Output<ExprVar>, k0: int, o: Output<ExprVar>, k: int)
    requires r0 == Rest(b, open, One(e), n, v)
    ensures open == {} && OnTheWay(cycled, r0, o0, k0, Some(Nil), o, k) ==>
      (cycled != map[] <==> Cyclic(b, Abs(One(e), n, v)))
  {
    UnresolvedIffCyclic(b, Abs(One(e), n, v));
  }

  lemma NothingPending(b: Bindings, open: set<ExprVar>, n: nat, v: nat)
    ensures Rest(b, open, Nil, n, v) == Some(Nil) && NewVars(Nil) == 0 && Abs(Nil, n, v) == Nil
  {
  }

  lemma PendingStep(pending: Exprs, bytes: seq<byte>, i: nat)
    requires pending.Cons? && At(bytes, i, pending)
    ensures EncLen(After(pending)) < EncLen(pending)
    ensures WF(pending) && WF(One(pending.head)) && ValidTag(HeadTag(pending.head))
  {
    AtStep(bytes, i, pending.head, pending.tail);
  }

  lemma BindingRest(bindings: EnvBindings, open: set<ExprVar>, x: ExprVar)
    requires x in bindings && forall y | y in bindings :: ValidEnv(bindings[y])
    ensures var b, rhs := DenBindings(bindings), bindings[x];
            Rest(b, open + {x}, One(ExprOf(rhs)), rhs.n, rhs.v) == Resolve(b, open + {x}, One(b[x]))
  {
    var rhs := bindings[x];
    AbsLen(One(ExprOf(rhs)), rhs.n, rhs.v);
    assert Len(One(ExprOf(rhs))) == 1;
    LenOne(Abs(One(ExprOf(rhs)), rhs.n, rhs.v));
  }

  lemma NewVarsStep(pending: Exprs)
    requires pending.Cons?
    ensures NewVars(pending) == (if pending.head == Var(New) then 1 else 0) + NewVars(After(pending))
    ensures pending.head.Var? ==> NewVars(One(pending.head)) == if pending.head == Var(New) then 1 else 0
  {
    NewVarsAppend(Children(pending.head), pending.tail);
  }
}
