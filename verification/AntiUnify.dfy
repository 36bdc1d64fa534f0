/** `anti_unify`: the worklist that writes a least general generalisation. */
module AntiUnification {
  import opened Items
  import opened Slices
  import opened Terms
  import opened Encoding
  import opened Wrappers
  import opened Trees
  import opened Envs
  import opened Numbering
  import opened Rendering
  import opened Traversals
  import opened RelEnvs
  import opened Generalisation
  import opened Memos

  const AU_MAX_DEPTH: nat := 1000

  // Terms of a list of subexpressions.
  ghost function DenTerms(s: seq<ExprEnv>): AbsTerms
    requires forall e | e in s :: ValidEnv(e)
  {
    if s == [] then Nil else
      assert s[0] in s;
      Cons(Den(s[0]), DenTerms(s[1..]))
  }

  lemma DenTermsAppend(s: seq<ExprEnv>, e: ExprEnv)
    requires ValidEnv(e) && forall x | x in s :: ValidEnv(x)
    ensures DenTerms(s + [e]) == Append(DenTerms(s), One(Den(e)))
  {
    if s != [] {
      assert (s + [e])[1..] == s[1..] + [e];
      DenTermsAppend(s[1..], e);
    } else {
      assert s + [e] == [e];
    }
  }

  lemma DenTermsAt(s: seq<ExprEnv>, i: nat)
    requires i < |s| && forall x | x in s :: ValidEnv(x)
    ensures ValidEnv(s[i]) && forall x | x in s[i + 1..] :: ValidEnv(x)
    ensures DenTerms(s[i..]) == Cons(Den(s[i]), DenTerms(s[i + 1..]))
  {
    assert s[i] in s;
    assert s[i..][1..] == s[i + 1..];
  }

  lemma DenTermsLen(s: seq<ExprEnv>)
    requires forall x | x in s :: ValidEnv(x)
    ensures Len(DenTerms(s)) == |s|
  {
  }

  function ArgEnvs(x: ExprEnv, es: Exprs): seq<ExprEnv>
    decreases es
  {
    match es
    case Nil => []
    case Cons(e, tl) => [x] + ArgEnvs(Past(x, e), tl)
  }

  lemma ArgEnvsCons(x: ExprEnv, e: Expr, tl: Exprs)
    ensures ArgEnvs(x, Nil) == [] && ArgEnvs(x, Cons(e, tl)) == [x] + ArgEnvs(Past(x, e), tl)
  {
  }

  lemma ArgsStart(x: ExprEnv, ts: AbsTerms, es: seq<ExprEnv>)
    ensures DenTerms([]) == Nil && Append(DenTerms([]), ts) == ts
    ensures ArgEnvs(x, Nil) == [] && [] + es == es
  {
  }

  // `ExprEnv::args`: the arguments of a compound, each with the variables to its left counted.
  method Args(env: ExprEnv) returns (dest: seq<ExprEnv>)
    requires ValidEnv(env)
    ensures forall e | e in dest :: ValidEnv(e) && e.n == env.n
    ensures DenTerms(dest) == Children(Den(env))
    ensures dest == ArgEnvs(env.Offset(1), Children(ExprOf(env)))
  {
    hide At, Enc, WF, Abs, NewVars, MaybeByteItem, EncLen, DenTerms, ArgEnvs;
    ghost var x := ExprOf(env);
    ArgsStart(env.Offset(1), Children(Den(env)), ArgEnvs(env.Offset(1), Children(x)));
    AtStep(env.base.bytes, env.offset, x, Nil);
    AppendNil(Children(x));
    OneFacts(x, env.n, env.v);
    dest := [];
    var tag := ByteItem(env.base.bytes[env.offset]);
    if !tag.Arity? {
      return;
    }
    var arg := env.(offset := env.offset + 1);
    ghost var rest := x.args;
    for sk := 0 to tag.a
      invariant Len(rest) == tag.a - sk
      invariant arg.n == env.n && arg.base == env.base
      invariant At(env.base.bytes, arg.offset, rest)
      invariant arg.v + NewVars(rest) == env.v + NewVars(x.args)
      invariant forall e | e in dest :: ValidEnv(e) && e.n == env.n
      invariant Append(DenTerms(dest), Abs(rest, env.n, arg.v)) == Abs(x.args, env.n, env.v)
      invariant dest + ArgEnvs(arg, rest) == ArgEnvs(env.Offset(1), x.args)
    {
      ghost var kid, tl := rest.head, rest.tail;
      AtSkip(env.base.bytes, arg.offset, kid, tl);
      AbsCons(kid, tl, env.n, arg.v);
      EnvIsDen(arg, kid);
      var end, c, _ := ExecuteLoop(CountTraversal(), 0, arg.base.bytes, arg.offset, kid);
      CountEnv(ExprEnv(0, 0, arg.offset, arg.base), kid);
      DenTermsAppend(dest, arg);
      AppendAssoc(DenTerms(dest), One(Den(arg)), Abs(tl, env.n, arg.v + NewVars(One(kid))));
      ArgEnvsCons(arg, kid, tl);
      Assoc(dest, [arg], ArgEnvs(Past(arg, kid), tl));
      dest := dest + [arg];
      arg := arg.(offset := end, v := arg.v + c);
      rest := tl;
    }
    AbsNil(arg.v, env.n);
    AppendNil(DenTerms(dest));
    ArgEnvsCons(arg, x, rest);
    assert dest + [] == dest;
  }

  function GenPair(q: Pair): Term<Pair> {
    Gen1(q.0, q.1)
  }

  // What the work list still has to write, its last entry first.
  ghost function Pending(stack: seq<EnvPair>): Terms<Pair>
    requires forall q | q in stack :: ValidPair(q)
  {
    if stack == [] then Nil else
      var top := |stack| - 1;
      assert stack[top] in stack;
      Cons(GenPair(DenPair(stack[top])), Pending(stack[..top]))
  }

  // Writing `ts` piles up more than `limit` entries, with `rest` entries waiting below.
  ghost predicate PilesUp(ts: Terms<Pair>, rest: nat, limit: nat) {
    match ts
    case Nil => false
    case Cons(t, tl) =>
      || Len(tl) + rest > limit
      || (t.App? && PilesUp(t.args, Len(tl) + rest, limit))
      || PilesUp(tl, rest, limit)
  }

  lemma {:induction false} PilesUpAppend(ts: Terms<Pair>, us: Terms<Pair>, rest: nat, limit: nat)
    ensures PilesUp(Append(ts, us), rest, limit) <==> PilesUp(ts, Len(us) + rest, limit) || PilesUp(us, rest, limit)
    decreases ts
  {
    match ts
    case Nil =>
    case Cons(t, tl) =>
      LenAppend(tl, us);
      PilesUpAppend(tl, us, rest, limit);
  }

  // The entry on top is taken while those below wait.
  lemma PilesUpStep(t: Term<Pair>, tl: Terms<Pair>, limit: nat)
    ensures PilesUp(Cons(t, tl), 0, limit) <==> Len(tl) > limit || PilesUp(Append(Children(t), tl), 0, limit)
    ensures !PilesUp(Nil, 0, limit)
  {
    PilesUpAppend(Children(t), tl, 0, limit);
  }

  lemma PendingPush(stack: seq<EnvPair>, q: EnvPair)
    requires ValidPair(q) && forall p | p in stack :: ValidPair(p)
    ensures Pending(stack + [q]) == Cons(GenPair(DenPair(q)), Pending(stack))
  {
    assert (stack + [q])[..|stack|] == stack;
  }

  // From one point of the run to the next, what will be written and assigned stays the same.
  ghost predicate SameOutput(ts: Terms<Pair>, o: Output<Pair>, us: Terms<Pair>, p: Output<Pair>) {
    Render(ts, o) == Render(us, p) && Assigned(ts, o.asg) == Assigned(us, p.asg)
  }

  // The two result maps hold what the memo holds.
  ghost predicate Recorded(memo: seq<MemoEntry>, left: map<nat, ExprEnv>, right: map<nat, ExprEnv>) {
    && (forall i :: i in left <==> 0 <= i < |memo|) && (forall i | 0 <= i < |memo| :: left[i] == memo[i].left)
    && (forall i :: i in right <==> 0 <= i < |memo|) && (forall i | 0 <= i < |memo| :: right[i] == memo[i].right)
  }

  /* ---- The keys that are looked up ---- */

  // The disagreements of `es`, which stand at `x`, with `fs`, which stand at `y`, in reading order.
  ghost function Clashes(x: ExprEnv, es: Exprs, y: ExprEnv, fs: Exprs): seq<EnvPair>
    decreases es
  {
    match (es, fs)
    case (Cons(e, tl), Cons(f, ul)) =>
      (if e.Sym? && f.Sym? && e.s == f.s then []
       else if e.App? && f.App? && Len(e.args) == Len(f.args) then Clashes(x.Offset(1), e.args, y.Offset(1), f.args)
       else [(x, y)]) + Clashes(Past(x, e), tl, Past(y, f), ul)
    case _ => []
  }

  ghost function ClashesOf(q: EnvPair): seq<EnvPair>
    requires ValidPair(q)
  {
    Clashes(q.0, One(ExprOf(q.0)), q.1, One(ExprOf(q.1)))
  }

  lemma ClashesOfIs(q: EnvPair)
    requires ValidPair(q)
    ensures var e, f := ExprOf(q.0), ExprOf(q.1);
            ClashesOf(q) == if !Decomposable(Den(q.0), Den(q.1)) then [q]
                            else if e.App? && f.App? then Clashes(q.0.Offset(1), e.args, q.1.Offset(1), f.args)
                            else []
  {
    hide ValidEnv, EnvIs, EncLen, NewVars, Clashes, Abs, Children;
    var e, f := ExprOf(q.0), ExprOf(q.1);
    OneFacts(e, q.0.n, q.0.v);
    OneFacts(f, q.1.n, q.1.v);
    ClashesOne(q.0, e, q.1, f);
    if e.App? && f.App? {
      AbsLen(e.args, q.0.n, q.0.v);
      AbsLen(f.args, q.1.n, q.1.v);
    }
  }

  lemma ClashesOne(x: ExprEnv, e: Expr, y: ExprEnv, f: Expr)
    ensures Clashes(x, One(e), y, One(f)) ==
      if e.Sym? && f.Sym? && e.s == f.s then []
      else if e.App? && f.App? && Len(e.args) == Len(f.args) then Clashes(x.Offset(1), e.args, y.Offset(1), f.args)
      else [(x, y)]
  {
    hide EncLen, NewVars;
    assert Clashes(Past(x, e), Nil, Past(y, f), Nil) == [];
  }

  // Every disagreement is a pair of subexpressions of the two sides.
  lemma {:induction false} ClashesValid(x: ExprEnv, es: Exprs, y: ExprEnv, fs: Exprs)
    requires Stands(x, es) && Stands(y, fs)
    ensures forall q | q in Clashes(x, es, y, fs) :: ValidPair(q) && q.0.n == x.n && q.1.n == y.n
    decreases es
  {
    hide Stands, ValidEnv, EncLen, NewVars;
    if es.Cons? && fs.Cons? {
      var e, f := es.head, fs.head;
      StandsCons(x, e, es.tail);
      StandsCons(y, f, fs.tail);
      ClashesValid(Past(x, e), es.tail, Past(y, f), fs.tail);
      if e.App? && f.App? {
        StandsChildren(x);
        StandsChildren(y);
        ClashesValid(x.Offset(1), e.args, y.Offset(1), f.args);
      }
    }
  }

  lemma ClashesOfValid(q: EnvPair)
    requires ValidPair(q)
    ensures forall p | p in ClashesOf(q) :: ValidPair(p) && p.0.n == q.0.n && p.1.n == q.1.n
  {
    ClashesValid(q.0, One(ExprOf(q.0)), q.1, One(ExprOf(q.1)));
  }

  // The disagreements of the work list, its last entry first.
  ghost function PendingClashes(stack: seq<EnvPair>): (r: seq<EnvPair>)
    requires forall q | q in stack :: Sides(q)
    ensures forall q | q in r :: Sides(q)
  {
    if stack == [] then [] else
      var top := |stack| - 1;
      assert Sides(stack[top]);
      ClashesOfValid(stack[top]);
      ClashesOf(stack[top]) + PendingClashes(stack[..top])
  }

  lemma PendingClashesPush(stack: seq<EnvPair>, q: EnvPair)
    requires Sides(q) && forall p | p in stack :: Sides(p)
    ensures PendingClashes(stack + [q]) == ClashesOf(q) + PendingClashes(stack)
  {
    assert (stack + [q])[..|stack|] == stack;
  }

  // The disagreements of two lists of arguments, side by side.
  ghost function ArgClashes(ls: seq<ExprEnv>, rs: seq<ExprEnv>): seq<EnvPair>
    requires |ls| == |rs|
    requires forall e | e in ls :: ValidEnv(e)
    requires forall e | e in rs :: ValidEnv(e)
  {
    if ls == [] then [] else
      assert ls[0] in ls && rs[0] in rs;
      ClashesOf((ls[0], rs[0])) + ArgClashes(ls[1..], rs[1..])
  }

  lemma NoArgClashes(ls: seq<ExprEnv>, rs: seq<ExprEnv>)
    requires ls == [] && rs == []
    ensures ArgClashes(ls, rs) == []
  {
  }

  lemma ArgClashesAt(ls: seq<ExprEnv>, rs: seq<ExprEnv>, i: nat)
    requires i < |ls| == |rs|
    requires forall e | e in ls :: ValidEnv(e)
    requires forall e | e in rs :: ValidEnv(e)
    ensures ValidPair((ls[i], rs[i]))
    ensures ArgClashes(ls[i..], rs[i..]) == ClashesOf((ls[i], rs[i])) + ArgClashes(ls[i + 1..], rs[i + 1..])
  {
    assert ls[i] in ls && rs[i] in rs;
    assert ls[i..][1..] == ls[i + 1..] && rs[i..][1..] == rs[i + 1..];
  }

  lemma {:induction false} ArgClashesAre(x: ExprEnv, es: Exprs, y: ExprEnv, fs: Exprs)
    requires Stands(x, es) && Stands(y, fs) && Len(es) == Len(fs)
    ensures var ls, rs := ArgEnvs(x, es), ArgEnvs(y, fs);
      && |ls| == |rs| && (forall e | e in ls :: ValidEnv(e)) && (forall e | e in rs :: ValidEnv(e))
      && ArgClashes(ls, rs) == Clashes(x, es, y, fs)
    decreases es
  {
    hide Stands, ValidEnv, EncLen, NewVars;
    if es.Cons? {
      var e, f := es.head, fs.head;
      StandsCons(x, e, es.tail);
      StandsCons(y, f, fs.tail);
      ArgClashesAre(Past(x, e), es.tail, Past(y, f), fs.tail);
      var ls, rs := ArgEnvs(x, es), ArgEnvs(y, fs);
      assert ls[1..] == ArgEnvs(Past(x, e), es.tail) && rs[1..] == ArgEnvs(Past(y, f), fs.tail);
      assert Clashes(x, es, y, fs) == Clashes(x, One(e), y, One(f)) + Clashes(Past(x, e), es.tail, Past(y, f), fs.tail);
    }
  }

  lemma RecordedMore(memo: seq<MemoEntry>, left: map<nat, ExprEnv>, right: map<nat, ExprEnv>, q: EnvPair)
    requires EntriesValid(memo) && Recorded(memo, left, right) && Distinct(Met(memo))
    requires Sides(q) && DenPair(q) !in Met(memo)
    ensures var w, memo' := |memo|, More(memo, q);
      && EntriesValid(memo') && Met(memo') == Met(memo) + [DenPair(q)] && Distinct(Met(memo'))
      && Recorded(memo', left[w := q.0], right[w := q.1])
  {
    hide Den, ValidEnv, KeyHash;
    MetMore(memo, q);
  }

  class AntiUnifier {
    var out: seq<byte>
    var stack: seq<EnvPair>
    var nextVar: nat
    var memo: seq<MemoEntry>
    var left: map<nat, ExprEnv>
    var right: map<nat, ExprEnv>
    const table: Table

    ghost predicate Valid()
      reads this
    {
      && table.Valid()
      && nextVar == |memo| <= 64
      && EntriesValid(memo) && Recorded(memo, left, right) && Distinct(Met(memo))
      && forall q | q in stack :: Sides(q)
    }

    ghost function State(): Output<Pair>
      requires EntriesValid(memo)
      reads this
    {
      Output(out, Met(memo))
    }

    constructor (out: seq<byte>, table: Table)
      requires table.Valid()
      ensures Valid() && this.out == out && this.table == table && stack == [] && memo == []
    {
      this.out, this.table := out, table;
      stack, nextVar, memo, left, right := [], 0, [], map[], map[];
    }

    // A disagreement: reuse its variable or introduce a new one.
    method Disagree(lhs: ExprEnv, rhs: ExprEnv) returns (failure: Option<AuError>)
      requires Valid() && Sides((lhs, rhs))
      modifies this`out, this`nextVar, this`memo, this`left, this`right
      ensures Valid()
      ensures SettleOne(table, old(memo), (lhs, rhs)) == match failure case None => Ok(memo) case Some(f) => Err(f)
      ensures failure.None? ==> SameOutput(One(Var(DenPair((lhs, rhs)))), old(State()), Nil, State())
    {
      hide Den, ValidEnv, Met, Render, Assigned, ItemByte, DenPair, KeyHash, SearchStrays, Complete, SameOutput,
        EntriesValid, Recorded, Distinct, Hashes;
      ghost var key, o := DenPair((lhs, rhs)), State();
      DisagreeOutput(key, o);
      var r, hash := Lookup(table.get, memo, lhs, rhs);
      if r.Stray? {
        return Some(Strayed);
      }
      if r.Hit? {
        out := out + [ItemByte(VarRef(r.v))];
      } else {
        if nextVar >= 64 {
          return Some(TooManyVars);
        }
        RecordedMore(memo, left, right, (lhs, rhs));
        var w := nextVar;
        var again, h := Lookup(table.insert, memo, lhs, rhs);
        if again.Stray? {
          return Some(Strayed);
        }
        nextVar := nextVar + 1;
        memo := memo + [Entry((lhs, rhs), w, h)];
        left := left[w := lhs];
        right := right[w := rhs];
        out := out + [ItemByte(NewVar)];
      }
      failure := None;
    }

    // Two equal symbols are copied; two compounds of the same arity are taken apart, the arguments
    // going onto the work list in reverse.
    method Agree(lhs: ExprEnv, rhs: ExprEnv)
      requires Valid() && Sides((lhs, rhs)) && Decomposable(Den(lhs), Den(rhs))
      modifies this`out, this`stack
      ensures Valid()
      ensures SameOutput(Cons(GenPair(DenPair((lhs, rhs))), old(Pending(stack))), old(State()), Pending(stack), State())
      ensures EncLen(Pending(stack)) < EncLen(Cons(GenPair(DenPair((lhs, rhs))), old(Pending(stack))))
      ensures Pending(stack) == Append(Children(GenPair(DenPair((lhs, rhs)))), old(Pending(stack)))
      ensures PendingClashes(stack) == ClashesOf((lhs, rhs)) + old(PendingClashes(stack))
    {
      hide At, Enc, WF, Abs, MaybeByteItem, Render, Assigned, ItemByte, Met, Den, EntriesValid, ValidEnv,
        ClashesOf, Clashes, PendingClashes, Complete, EncLen, Append, Gen, ArgClashes, ArgEnvs, Pending, Stands, ValidTag;
      ghost var rest := Pending(stack);
      AgreeClashes(lhs, rhs);
      EnvItem(lhs);
      var tag := ByteItem(lhs.base.bytes[lhs.offset]);
      if tag.Arity? {
        ArityOutput(Den(lhs), Den(rhs), rest, State());
        out := out + [ItemByte(tag)];
        var largs := Args(lhs);
        var rargs := Args(rhs);
        DenTermsLen(largs);
        DenTermsLen(rargs);
        PushArgs(largs, rargs);
      } else {
        SymbolOutput(Den(lhs), Den(rhs), rest, State());
        var s := lhs.base.bytes[lhs.offset + 1..lhs.offset + 1 + tag.s];
        out := out + ([ItemByte(tag)] + s);
      }
    }

    method PushArgs(largs: seq<ExprEnv>, rargs: seq<ExprEnv>)
      requires Valid()
      requires forall e | e in largs :: ValidEnv(e) && e.n == 0
      requires forall e | e in rargs :: ValidEnv(e) && e.n == 1
      requires |largs| == |rargs|
      modifies this`stack
      ensures Valid()
      ensures Pending(stack) == Append(Gen(DenTerms(largs), DenTerms(rargs)), old(Pending(stack)))
      ensures PendingClashes(stack) == ArgClashes(largs, rargs) + old(PendingClashes(stack))
    {
      hide Den, ValidEnv, EntriesValid, Met, DenTerms, Gen, Pending, PendingClashes, ArgClashes, ClashesOf, Complete;
      ghost var rest, more := Pending(stack), PendingClashes(stack);
      var i := |largs|;
      ArgsNothing(largs, rargs, rest);
      NoArgClashes(largs[i..], rargs[i..]);
      assert [] + more == more;
      while i > 0
        invariant 0 <= i <= |largs|
        invariant Valid()
        invariant Pending(stack) == Append(Gen(DenTerms(largs[i..]), DenTerms(rargs[i..])), rest)
        invariant PendingClashes(stack) == ArgClashes(largs[i..], rargs[i..]) + more
      {
        i := i - 1;
        assert largs[i] in largs && rargs[i] in rargs;
        DenTermsAt(largs, i);
        DenTermsAt(rargs, i);
        PendingPush(stack, (largs[i], rargs[i]));
        GenCons(Den(largs[i]), DenTerms(largs[i + 1..]), Den(rargs[i]), DenTerms(rargs[i + 1..]));
        PendingClashesPush(stack, (largs[i], rargs[i]));
        ArgClashesAt(largs, rargs, i);
        Assoc(ClashesOf((largs[i], rargs[i])), ArgClashes(largs[i + 1..], rargs[i + 1..]), more);
        stack := stack + [(largs[i], rargs[i])];
      }
      assert largs[0..] == largs && rargs[0..] == rargs;
    }

    // `anti_unify_apply`. `limit` is None for no limit.
    method Run(lhs0: ExprEnv, rhs0: ExprEnv, limit: Option<nat> := Some(AU_MAX_DEPTH)) returns (failure: Option<AuError>)
      requires Valid() && Sides((lhs0, rhs0)) && stack == [] && memo == []
      modifies this
      ensures Valid()
      ensures failure.None? ==> Render(One(GenPair(DenPair((lhs0, rhs0)))), Output(old(out), [])) == Some(State())
      ensures match failure
              case None =>
                && Settled(table, (lhs0, rhs0)) == Ok(memo)
                && (limit.Some? ==> !PilesUp(One(GenPair(DenPair((lhs0, rhs0)))), 0, limit.value))
              case Some(MaxDepth(_)) => limit.Some? && PilesUp(One(GenPair(DenPair((lhs0, rhs0)))), 0, limit.value)
              case Some(f) => Settled(table, (lhs0, rhs0)) == Err(f)
      ensures failure == Some(TooManyVars) ==> |Assigned(One(GenPair(DenPair((lhs0, rhs0)))), [])| > 64
    {
      hide At, Enc, WF, Abs, MaybeByteItem, Render, Assigned, Met, Den, EntriesValid, Decomposable, ValidEnv, EncLen,
        ClashesOf, Settle, SettleOne, Complete;
      ghost var q0: EnvPair := (lhs0, rhs0);
      ghost var whole, start := One(GenPair(DenPair(q0))), State();
      stack := [(lhs0, rhs0)];
      PendingPush([], q0);
      PendingClashesPush([], q0);
      assert [] + [q0] == stack;
      assert ClashesOf(q0) + [] == ClashesOf(q0);
      ClashesOfSides(q0);
      MetNothing();
      while stack != []
        invariant Valid()
        invariant SameOutput(whole, start, Pending(stack), State())
        invariant Settle(table, memo, PendingClashes(stack)) == Settled(table, q0)
        invariant limit.Some? ==> (PilesUp(whole, 0, limit.value) <==> PilesUp(Pending(stack), 0, limit.value))
        decreases EncLen(Pending(stack))
      {
        var top := |stack| - 1;
        var q := stack[top];
        assert q in stack && forall p | p in stack[..top] :: p in stack;
        ghost var o, key := State(), DenPair(q);
        stack := stack[..top];
        PendingLen(stack);
        ghost var rest, more := Pending(stack), PendingClashes(stack);
        if limit.Some? {
          PilesUpStep(GenPair(key), rest, limit.value);
        }
        if limit.Some? && |stack| > limit.value {
          return Some(MaxDepth(|stack|));
        }
        var d := DecomposableHere(q.0, q.1);
        if d {
          Agree(q.0, q.1);
        } else {
          GenDisagree(key.0, key.1);
          ClashesOfIs(q);
          SettleNext(table, memo, q, more);
          var f := Disagree(q.0, q.1);
          if f.Some? {
            if f == Some(TooManyVars) {
              TooMany(whole, start, key, rest, o);
            }
            return f;
          }
          DisagreeThen(key, o, State(), rest);
        }
      }
      RenderNil(State());
      SettleNil(table, memo);
      failure := None;
    }
  }

  // The outcome of looking up all the disagreements of two sides.
  ghost function Settled(t: Table, q: EnvPair): Result<seq<MemoEntry>, AuError>
    requires Sides(q)
  {
    ClashesOfSides(q);
    MetNothing();
    Settle(t, [], ClashesOf(q))
  }

  lemma ClashesOfSides(q: EnvPair)
    requires Sides(q)
    ensures forall p | p in ClashesOf(q) :: Sides(p)
  {
    ClashesOfValid(q);
  }

  lemma SettleNext(t: Table, memo: seq<MemoEntry>, q: EnvPair, more: seq<EnvPair>)
    requires EntriesValid(memo) && Sides(q) && forall p | p in more :: Sides(p)
    ensures var r := SettleOne(t, memo, q);
      && (r.Err? ==> Settle(t, memo, [q] + more) == r)
      && (r.Ok? ==> EntriesValid(r.value) && Settle(t, memo, [q] + more) == Settle(t, r.value, more))
    ensures match SettleOne(t, memo, q)
            case Err(TooManyVars) => |memo| >= 64 && DenPair(q) !in Met(memo)
            case Err(MaxDepth(_)) => false
            case _ => true
  {
    hide KeyHash, Den, ValidEnv, SearchStrays;
    MetMore(memo, q);
    assert ([q] + more)[0] == q && ([q] + more)[1..] == more;
  }

  lemma SettleNil(t: Table, memo: seq<MemoEntry>)
    requires EntriesValid(memo)
    ensures Settle(t, memo, []) == Ok(memo)
  {
  }

  lemma PendingLen(stack: seq<EnvPair>)
    requires forall q | q in stack :: ValidPair(q)
    ensures Len(Pending(stack)) == |stack|
  {
    hide Den, ValidEnv;
    if stack != [] {
      var top := |stack| - 1;
      assert stack[top] in stack && forall p | p in stack[..top] :: p in stack;
      PendingLen(stack[..top]);
    }
  }

  // Nothing piles up higher than the bytes to be written.
  lemma {:induction false} PilesUpBound(ts: Terms<Pair>, rest: nat, limit: nat)
    requires PilesUp(ts, rest, limit)
    ensures EncLen(ts) + rest > limit
    decreases ts
  {
    LenBound(ts.tail);
    EncLenCons(ts.head, ts.tail);
    if ts.head.App? && PilesUp(ts.head.args, Len(ts.tail) + rest, limit) {
      PilesUpBound(ts.head.args, Len(ts.tail) + rest, limit);
    } else if PilesUp(ts.tail, rest, limit) {
      PilesUpBound(ts.tail, rest, limit);
    }
  }

  lemma LenBound<X>(ts: Terms<X>)
    ensures Len(ts) <= EncLen(ts)
  {
  }

  // Taking two subexpressions apart leaves their disagreements to the arguments.
  lemma AgreeClashes(lhs: ExprEnv, rhs: ExprEnv)
    requires Sides((lhs, rhs)) && Decomposable(Den(lhs), Den(rhs))
    ensures Den(lhs).Sym? ==> ClashesOf((lhs, rhs)) == []
    ensures Den(lhs).App? ==>
      var ls, rs := ArgEnvs(lhs.Offset(1), Children(ExprOf(lhs))), ArgEnvs(rhs.Offset(1), Children(ExprOf(rhs)));
      && |ls| == |rs| && (forall e | e in ls :: ValidEnv(e)) && (forall e | e in rs :: ValidEnv(e))
      && ClashesOf((lhs, rhs)) == ArgClashes(ls, rs)
  {
    hide Den, ValidEnv, Stands, ClashesOf, Clashes, ArgClashes, ArgEnvs;
    ClashesOfIs((lhs, rhs));
    StandsChildren(lhs);
    StandsChildren(rhs);
    EnvChildren(lhs);
    EnvChildren(rhs);
    if Den(lhs).App? {
      ArgClashesAre(lhs.Offset(1), Children(ExprOf(lhs)), rhs.Offset(1), Children(ExprOf(rhs)));
    }
  }

  // A compound subexpression and its term have the same number of arguments.
  lemma EnvChildren(e: ExprEnv)
    requires ValidEnv(e)
    ensures Len(Children(ExprOf(e))) == Len(Children(Den(e)))
    ensures (ExprOf(e).App? <==> Den(e).App?) && (ExprOf(e).Sym? <==> Den(e).Sym?)
  {
    hide ValidEnv, EnvIs;
    var x := ExprOf(e);
    OneFacts(x, e.n, e.v);
    if x.App? {
      AbsLen(x.args, e.n, e.v);
    }
  }

  // `decomposable`.
  method DecomposableHere(lhs: ExprEnv, rhs: ExprEnv) returns (d: bool)
    requires ValidEnv(lhs) && ValidEnv(rhs)
    ensures d <==> Decomposable(Den(lhs), Den(rhs))
  {
    hide At, Enc, WF, Abs, MaybeByteItem, ValidEnv, Den;
    EnvItem(lhs);
    EnvItem(rhs);
    var b1, b2 := lhs.base.bytes, rhs.base.bytes;
    var g1, g2 := ByteItem(b1[lhs.offset]), ByteItem(b2[rhs.offset]);
    if VarOpt(lhs).Some? || VarOpt(rhs).Some? {
      return false;
    }
    if g1.SymbolSize? && g2.SymbolSize? {
      d := b1[lhs.offset + 1..lhs.offset + 1 + g1.s] == b2[rhs.offset + 1..rhs.offset + 1 + g2.s];
    } else {
      d := g1.Arity? && g2.Arity? && g1.a == g2.a;
    }
  }

  // The first item of a subexpression and the term it stands for.
  lemma EnvItem(e: ExprEnv)
    requires ValidEnv(e)
    ensures var b, i, t := e.base.bytes, e.offset, Den(e);
      && i < |b| && MaybeByteItem(b[i]).Ok?
      && var g := ByteItem(b[i]);
         && ValidTag(g)
         && (VarOpt(e).Some? <==> t.Var?) && (g.NewVar? || g.VarRef? <==> t.Var?)
         && (g.SymbolSize? <==> t.Sym?) && (g.Arity? <==> t.App?)
         && (t.Sym? ==> |t.s| == g.s && i + 1 + g.s <= |b| && b[i + 1..i + 1 + g.s] == t.s)
         && (t.App? ==> Len(t.args) == g.a)
  {
    var x := ExprOf(e);
    VarOptIsVar(e);
    AtStep(e.base.bytes, e.offset, x, Nil);
    OneFacts(x, e.n, e.v);
    if x.App? {
      AbsLen(x.args, e.n, e.v);
    }
  }

  lemma ArityOutput(t: AbsTerm, u: AbsTerm, rest: Terms<Pair>, o: Output<Pair>)
    requires Decomposable(t, u) && t.App? && Len(t.args) < 64
    ensures var g := Append(Gen(t.args, u.args), rest);
      && SameOutput(Cons(Gen1(t, u), rest), o, g, o.(out := o.out + [ItemByte(Arity(Len(t.args)))]))
      && EncLen(g) < EncLen(Cons(Gen1(t, u), rest)) && g == Append(Children(Gen1(t, u)), rest)
  {
    GenLen(t.args, u.args);
    RenderApp(Gen(t.args, u.args), rest, o);
    NumberAppend(Gen(t.args, u.args), rest, o.asg);
    EncLenAppend(Gen(t.args, u.args), rest);
  }

  lemma SymbolOutput(t: AbsTerm, u: AbsTerm, rest: Terms<Pair>, o: Output<Pair>)
    requires Decomposable(t, u) && t.Sym? && 0 < |t.s| < 64
    ensures SameOutput(Cons(Gen1(t, u), rest), o, rest, o.(out := o.out + ([ItemByte(SymbolSize(|t.s|))] + t.s)))
    ensures EncLen(rest) < EncLen(Cons(Gen1(t, u), rest)) && rest == Append(Children(Gen1(t, u)), rest)
  {
    RenderCons(Gen1(t, u), rest, o);
    RenderSym(t.s, o);
  }

  lemma GenDisagree(t: AbsTerm, u: AbsTerm)
    requires !Decomposable(t, u)
    ensures Gen1(t, u) == Var((t, u))
  {
  }

  lemma DisagreeThen(key: Pair, o: Output<Pair>, p: Output<Pair>, rest: Terms<Pair>)
    requires SameOutput(One(Var(key)), o, Nil, p)
    ensures SameOutput(Cons(Var(key), rest), o, rest, p)
    ensures EncLen(rest) < EncLen(Cons(Var(key), rest))
  {
    RenderCons(Var(key), rest, o);
    RenderNil(p);
    NumberNil(p.asg);
    NumberAppend(One(Var(key)), rest, o.asg);
  }

  lemma TooMany(whole: Terms<Pair>, start: Output<Pair>, key: Pair, rest: Terms<Pair>, o: Output<Pair>)
    requires SameOutput(whole, start, Cons(Var(key), rest), o)
    requires |o.asg| == 64 && key !in o.asg && Distinct(o.asg)
    ensures |Assigned(whole, start.asg)| > 64
  {
    AssignedGrows(rest, o.asg + [key]);
  }

  lemma ArgsNothing(largs: seq<ExprEnv>, rargs: seq<ExprEnv>, rest: Terms<Pair>)
    ensures Append(Gen(DenTerms(largs[|largs|..]), DenTerms(rargs[|rargs|..])), rest) == rest
  {
  }

  lemma MetNothing()
    ensures EntriesValid([]) && Met([]) == []
  {
  }

  lemma DisagreeOutput(key: Pair, o: Output<Pair>)
    ensures key in o.asg && IndexOf(o.asg, key) < 64 ==>
      SameOutput(One(Var(key)), o, Nil, Output(o.out + [ItemByte(VarRef(IndexOf(o.asg, key)))], o.asg))
    ensures key !in o.asg ==> SameOutput(One(Var(key)), o, Nil, Output(o.out + [ItemByte(NewVar)], o.asg + [key]))
  {
    RenderVar(key, o);
    NumberNil(o.asg);
    NumberNil(o.asg + [key]);
    RenderNil(Output(o.out + [ItemByte(NewVar)], o.asg + [key]));
    if key in o.asg && IndexOf(o.asg, key) < 64 {
      RenderNil(Output(o.out + [ItemByte(VarRef(IndexOf(o.asg, key)))], o.asg));
    }
  }
}
