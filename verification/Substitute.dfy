/** De Bruijn substitution: `shift`, `bind` and `substitute_de_bruijn`. */
module Substituting {
  import opened Items
  import opened Slices
  import opened Terms
  import opened Encoding
  import opened Wrappers
  import opened Trees
  import opened Numbering
  import opened Rendering
  import opened Zippers
  import opened Envs
  import opened ExprUnification
  import opened Application
  import opened Folds

  /* ---- A substitute in its place ---- */

  // A substitute written after `n` variables, with `w` of its own already introduced: at the first
  // occurrence of its variable it introduces its own, at the others it refers to them.
  function Placed(es: Exprs, n: nat, w: nat, first: bool): Exprs {
    match es
    case Nil => Nil
    case Cons(Var(New), tl) => Cons(Var(if first then New else Ref(n + w)), Placed(tl, n, w + 1, first))
    case Cons(Var(Ref(i)), tl) => Cons(Var(Ref(n + i)), Placed(tl, n, w, first))
    case Cons(Sym(s), tl) => Cons(Sym(s), Placed(tl, n, w, first))
    case Cons(App(kids), tl) => Cons(App(Placed(kids, n, w, first)), Placed(tl, n, w + NewVars(kids), first))
  }

  lemma PlacedLen(es: Exprs, n: nat, w: nat, first: bool)
    ensures Len(Placed(es, n, w, first)) == Len(es)
  {
  }

  lemma {:induction false} PlacedAppend(es: Exprs, fs: Exprs, n: nat, w: nat, first: bool)
    ensures Placed(Append(es, fs), n, w, first) == Append(Placed(es, n, w, first), Placed(fs, n, w + NewVars(es), first))
    decreases es
  {
    match es
    case Nil =>
    case Cons(Var(New), tl) => PlacedAppend(tl, fs, n, w + 1, first);
    case Cons(Var(Ref(_)), tl) => PlacedAppend(tl, fs, n, w, first);
    case Cons(Sym(_), tl) => PlacedAppend(tl, fs, n, w, first);
    case Cons(App(kids), tl) => PlacedAppend(tl, fs, n, w + NewVars(kids), first);
  }

  // `asg` has the levels 0 to k of space `s` from index `n` on.
  predicate HasLevels(asg: seq<ExprVar>, n: nat, s: nat, k: nat) {
    n + k <= |asg| && forall i | 0 <= i < k :: asg[n + i] == (s, i)
  }

  // Nothing of space `s` before index `n`.
  predicate Foreign(asg: seq<ExprVar>, n: nat, s: nat) {
    n <= |asg| && forall i | 0 <= i < n :: asg[i].0 != s
  }

  lemma LevelAt(asg: seq<ExprVar>, n: nat, s: nat, k: nat, i: nat)
    requires Foreign(asg, n, s) && HasLevels(asg, n, s, k) && i < k
    ensures (s, i) in asg && IndexOf(asg, (s, i)) == n + i
  {
    assert asg[n + i] == (s, i);
    forall j | 0 <= j < n + i ensures asg[j] != (s, i) {
      if j >= n {
        assert asg[n + (j - n)] == (s, j - n);
      }
    }
    FirstIndex(asg, (s, i), n + i);
  }

  lemma FewerLevels(asg: seq<ExprVar>, n: nat, s: nat, j: nat, k: nat)
    requires HasLevels(asg, n, s, k) && j <= k
    ensures HasLevels(asg, n, s, j)
  {
  }

  lemma MoreLevels(asg: seq<ExprVar>, n: nat, s: nat, w: nat)
    requires |asg| == n + w && Foreign(asg, n, s) && HasLevels(asg, n, s, w)
    ensures Foreign(asg + [(s, w)], n, s) && HasLevels(asg + [(s, w)], n, s, w + 1)
  {
  }

  lemma StaysForeign(asg: seq<ExprVar>, asg': seq<ExprVar>, n: nat, s: nat)
    requires Foreign(asg, n, s) && asg <= asg'
    ensures Foreign(asg', n, s)
  {
  }

  lemma NotYet(asg: seq<ExprVar>, n: nat, s: nat, w: nat)
    requires Foreign(asg, n, s) && HasLevels(asg, n, s, w) && |asg| == n + w
    ensures (s, w) !in asg
  {
    forall j | 0 <= j < |asg| ensures asg[j] != (s, w) {
      if j >= n {
        assert asg[n + (j - n)] == (s, j - n);
      }
    }
  }

  // At a first occurrence: the numbering of a closed substitute after foreign variables.
  lemma {:induction false} PlacedFirst(es: Exprs, s: nat, n: nat, w: nat, asg: seq<ExprVar>)
    requires ClosedFrom(es, w)
    requires |asg| == n + w && Foreign(asg, n, s) && HasLevels(asg, n, s, w)
    ensures Number(Abs(es, s, w), asg) == Placed(es, n, w, true)
    ensures var asg' := Assigned(Abs(es, s, w), asg);
            asg <= asg' && |asg'| == n + w + NewVars(es) && HasLevels(asg', n, s, w + NewVars(es))
    decreases es
  {
    hide Foreign, HasLevels;
    match es
    case Nil =>
    case Cons(Var(New), tl) =>
      NotYet(asg, n, s, w);
      MoreLevels(asg, n, s, w);
      PlacedFirst(tl, s, n, w + 1, asg + [(s, w)]);
    case Cons(Var(Ref(i)), tl) =>
      LevelAt(asg, n, s, w, i);
      PlacedFirst(tl, s, n, w, asg);
    case Cons(Sym(_), tl) => PlacedFirst(tl, s, n, w, asg);
    case Cons(App(kids), tl) =>
      PlacedFirst(kids, s, n, w, asg);
      StaysForeign(asg, Assigned(Abs(kids, s, w), asg), n, s);
      PlacedFirst(tl, s, n, w + NewVars(kids), Assigned(Abs(kids, s, w), asg));
  }

  // At a later occurrence: all its variables have been introduced.
  lemma {:induction false} PlacedLater(es: Exprs, s: nat, n: nat, w: nat, asg: seq<ExprVar>)
    requires ClosedFrom(es, w)
    requires Foreign(asg, n, s) && HasLevels(asg, n, s, w + NewVars(es))
    ensures Number(Abs(es, s, w), asg) == Placed(es, n, w, false)
    ensures Assigned(Abs(es, s, w), asg) == asg
    decreases es
  {
    hide Foreign, HasLevels;
    match es
    case Nil =>
    case Cons(Var(New), tl) =>
      LevelAt(asg, n, s, w + NewVars(es), w);
      PlacedLater(tl, s, n, w + 1, asg);
    case Cons(Var(Ref(i)), tl) =>
      LevelAt(asg, n, s, w + NewVars(es), i);
      PlacedLater(tl, s, n, w, asg);
    case Cons(Sym(_), tl) => PlacedLater(tl, s, n, w, asg);
    case Cons(App(kids), tl) =>
      FewerLevels(asg, n, s, w + NewVars(kids), w + NewVars(es));
      PlacedLater(kids, s, n, w, asg);
      PlacedLater(tl, s, n, w + NewVars(kids), asg);
  }

  // What one item becomes.
  function PlacedItem(e: Expr, n: nat, w: nat, first: bool): Expr {
    match e
    case Var(New) => Var(if first then New else Ref(n + w))
    case Var(Ref(i)) => Var(Ref(n + i))
    case _ => e
  }

  ghost predicate StepsTo(all: Exprs, h: Expr, rest: Exprs, out: seq<byte>) {
    && (WF(all) <==> WF(One(h)) && WF(rest))
    && (WF(all) ==> out + Enc(all) == (out + ItemBytes(h)) + Enc(rest))
  }

  lemma LeafStep(h: Expr, tl: Exprs, out: seq<byte>)
    requires !h.App?
    ensures StepsTo(Cons(h, tl), h, tl, out)
  {
    hide Enc, ItemBytes, WF;
    WFCons(h, tl);
    if WF(Cons(h, tl)) {
      EncStep(h, tl);
      assert Append(Children(h), tl) == tl;
      Assoc(out, ItemBytes(h), Enc(tl));
    }
  }

  lemma NodeStep(e: Expr, kids: Exprs, tl: Exprs, out: seq<byte>)
    requires e.App? && Len(e.args) == Len(kids) && WF(One(e))
    ensures WF(Cons(App(kids), tl)) <==> WF(Append(kids, tl))
    ensures WF(Append(kids, tl)) ==> out + Enc(Cons(App(kids), tl)) == (out + ItemBytes(e)) + Enc(Append(kids, tl))
  {
    WFAppend(kids, tl);
    hide Enc;
    if WF(Append(kids, tl)) {
      EncStep(App(kids), tl);
      Assoc(out, ItemBytes(e), Enc(Append(kids, tl)));
    }
  }

  // One item of the walk over a substitute.
  lemma PlacedStep(pending: Exprs, n: nat, w: nat, first: bool, out: seq<byte>)
    requires pending.Cons? && WF(pending)
    ensures var e := pending.head;
            WF(One(e)) && StepsTo(Placed(pending, n, w, first), PlacedItem(e, n, w, first),
                                  Placed(After(pending), n, if e == Var(New) then w + 1 else w, first), out)
  {
    hide Enc, ItemBytes, StepsTo;
    var e, tl := pending.head, pending.tail;
    WFCons(e, tl);
    match e
    case App(kids) =>
      PlacedAppend(kids, tl, n, w, first);
      PlacedLen(kids, n, w, first);
      PlacedNode(kids, tl, n, w, first, out);
    case _ =>
      var w' := if e == Var(New) then w + 1 else w;
      assert Placed(pending, n, w, first) == Cons(PlacedItem(e, n, w, first), Placed(tl, n, w', first));
      LeafStep(PlacedItem(e, n, w, first), Placed(tl, n, w', first), out);
  }

  lemma PlacedNode(kids: Exprs, tl: Exprs, n: nat, w: nat, first: bool, out: seq<byte>)
    requires WF(One(App(kids)))
    ensures StepsTo(Placed(Cons(App(kids), tl), n, w, first), App(kids), Placed(Append(kids, tl), n, w, first), out)
  {
    hide Enc, ItemBytes, WF, Append, Len;
    PlacedAppend(kids, tl, n, w, first);
    PlacedLen(kids, n, w, first);
    NodeStep(App(kids), Placed(kids, n, w, first), Placed(tl, n, w + NewVars(kids), first), out);
  }

  /* ---- The methods ---- */

  // The value of a variable of the expression: the substitute of its level, in a space of its own.
  ghost function Substitutes(subs: seq<Expr>): Substitution {
    (x: ExprVar) => if x.1 < |subs| then Side(subs[x.1], x.1) else Var(x)
  }

  // The variables that the first `k` substitutes introduce together.
  function Offset(subs: seq<Expr>, k: nat): nat
    requires k <= |subs|
  {
    if k == 0 then 0 else Offset(subs, k - 1) + NewVars(One(subs[k - 1]))
  }

  datatype SubstError = RefOverflow | NoSubstitute   // the assertion of `item_byte`; an index out of range

  class Substituter {
    var out: seq<byte>

    constructor (out: seq<byte>)
      ensures this.out == out
    {
      this.out := out;
    }

    // Copies a symbol or an arity.
    method Copy(item: Result<Tag, Symbol>, ghost e: Expr)
      requires !e.Var? && WF(One(e))
      requires item == match e case Sym(s) => Err(s) case _ => Ok(HeadTag(e))
      modifies this
      ensures out == old(out) + ItemBytes(e)
    {
      match item
      case Err(s) => out := out + ([ItemByte(SymbolSize(|s|))] + s);
      case Ok(tag) => out := out + [ItemByte(tag)];
    }

    // `shift`: returns the number of variables introduced, or None where `item_byte` asserts.
    method Shift(sub: seq<byte>, n: nat, ghost e: Expr) returns (newVars: Option<nat>)
      requires At(sub, 0, One(e))
      modifies this
      ensures newVars.Some? <==> WF(Placed(One(e), n, 0, true))
      ensures newVars.Some? ==> newVars.value == NewVars(One(e)) && out == old(out) + Enc(Placed(One(e), n, 0, true))
    {
      hide At, Enc, WF, Placed, ItemBytes, NewVars, EncLen, ItemByte;
      var ez := new ExprZipper(sub, e);
      var w := 0;
      ghost var pending, whole, out0 := One(e), Placed(One(e), n, 0, true), out;
      while true
        invariant ez.Valid(pending) && ez.root == sub && fresh(ez)
        invariant w + NewVars(pending) == NewVars(One(e))
        invariant Leads(whole, out0, Placed(pending, n, w, true), out)
        decreases EncLen(pending)
      {
        PendingStep(pending, sub, ez.loc);
        NewVarsStep(pending);
        PlacedStep(pending, n, w, true, out);
        LeadsOn(whole, out0, Placed(pending, n, w, true), out, PlacedItem(pending.head, n, w, true),
                Placed(After(pending), n, if pending.head == Var(New) then w + 1 else w, true));
        var item := ez.Item(pending);
        if item == Ok(NewVar) {
          VarItem(New);
          out := out + [ItemByte(NewVar)];
          w := w + 1;
        } else if item.Ok? && item.value.VarRef? {
          var i := item.value.i;
          VarItem(Ref(n + i));
          if i + n >= 64 {
            return None;
          }
          out := out + [ItemByte(VarRef(i + n))];
        } else {
          Copy(item, pending.head);
        }
        var more := ez.Next(pending);
        if !more {
          LeadsNowhere(whole, out0, n, w, true, out);
          return Some(w);
        }
        pending := After(pending);
      }
    }

    // `bind`: references to variables that a `shift` has introduced.
    method Bind(sub: seq<byte>, n: nat, ghost e: Expr) returns (ok: bool)
      requires At(sub, 0, One(e))
      modifies this
      ensures ok <==> WF(Placed(One(e), n, 0, false))
      ensures ok ==> out == old(out) + Enc(Placed(One(e), n, 0, false))
    {
      hide At, Enc, WF, Placed, ItemBytes, NewVars, EncLen, ItemByte;
      var ez := new ExprZipper(sub, e);
      var varCount := 0;
      ghost var pending, whole, out0 := One(e), Placed(One(e), n, 0, false), out;
      while true
        invariant ez.Valid(pending) && ez.root == sub && fresh(ez)
        invariant Leads(whole, out0, Placed(pending, n, varCount, false), out)
        decreases EncLen(pending)
      {
        PendingStep(pending, sub, ez.loc);
        PlacedStep(pending, n, varCount, false, out);
        LeadsOn(whole, out0, Placed(pending, n, varCount, false), out, PlacedItem(pending.head, n, varCount, false),
                Placed(After(pending), n, if pending.head == Var(New) then varCount + 1 else varCount, false));
        var item := ez.Item(pending);
        if item == Ok(NewVar) {
          VarItem(Ref(n + varCount));
          if n + varCount >= 64 {
            return false;
          }
          out := out + [ItemByte(VarRef(n + varCount))];
          varCount := varCount + 1;
        } else if item.Ok? && item.value.VarRef? {
          var i := item.value.i;
          VarItem(Ref(n + i));
          if n + i >= 64 {
            return false;
          }
          out := out + [ItemByte(VarRef(n + i))];
        } else {
          Copy(item, pending.head);
        }
        var more := ez.Next(pending);
        if !more {
          LeadsNowhere(whole, out0, n, varCount, false, out);
          return true;
        }
        pending := After(pending);
      }
    }

    // `substitute_de_bruijn`: what is written is the simultaneous substitution, with the variables of
    // every substitute in a space of their own. Returns the length of the expression read.
    method SubstituteDeBruijn(bytes: seq<byte>, substitutions: seq<seq<byte>>, ghost e: Expr, ghost subs: seq<Expr>)
        returns (r: Result<nat, SubstError>)
      requires At(bytes, 0, One(e)) && Closed(e)
      requires |substitutions| == |subs|
      requires forall k | 0 <= k < |subs| :: At(substitutions[k], 0, One(subs[k])) && Closed(subs[k])
      requires Offset(subs, |subs|) <= MAX_LEVEL   // the counters are bytes
      modifies this
      ensures r.Ok? <==> NewVars(One(e)) <= |subs| && WF(Number(One(Substituted(subs, e)), []))
      ensures r.Ok? ==> r.value == EncLen(One(e)) && out == old(out) + Enc(Number(One(Substituted(subs, e)), []))
      ensures r == Err(NoSubstitute) ==> |subs| < NewVars(One(e))
      ensures r == Err(RefOverflow) ==> !WF(Number(One(Substituted(subs, e)), []))
    {
      hide At, Enc, WF, Placed, ItemBytes, NewVars, EncLen, ItemByte, ClosedFrom, Render, SubstRest, Ready, Offset, Substituted;
      var ez := new ExprZipper(bytes, e);
      var additions := seq(|substitutions|, _ => 0);
      var varCount := 0;
      ghost var pending, asg, o0 := One(e), [], Output(out, []);
      ghost var goal := Render(SubstRest(subs, One(e), 0), o0);
      ReadyStart(subs, additions);
      GoalIs(subs, e, o0);
      while true
        invariant ez.Valid(pending) && ez.root == bytes && fresh(ez)
        invariant ez.loc + EncLen(pending) == EncLen(One(e))
        invariant varCount + NewVars(pending) == NewVars(One(e)) && ClosedFrom(pending, varCount)
        invariant |additions| == |subs| && Ready(subs, additions, varCount, asg)
        invariant goal == Render(SubstRest(subs, pending, varCount), Output(out, asg))
        decreases EncLen(pending)
      {
        PendingStep(pending, bytes, ez.loc);
        AtStep(bytes, ez.loc, pending.head, pending.tail);
        NewVarsStep(pending);
        ClosedStep(pending, varCount);
        ReadyCount(subs, additions, varCount, asg);
        var item := ez.Item(pending);
        if item == Ok(NewVar) {
          if varCount >= |substitutions| {
            return Err(NoSubstitute);
          }
          First(subs, additions, pending, varCount, asg, out);
          var nvars := Shift(substitutions[varCount], additions[varCount], subs[varCount]);
          if nvars.None? {
            return Err(RefOverflow);
          }
          ghost var before := additions;
          additions := Advance(additions, varCount + 1, nvars.value);
          ReadyNext(subs, before, additions, varCount, asg);
          asg := Assigned(One(Side(subs[varCount], varCount)), asg);
          varCount := varCount + 1;
        } else if item.Ok? && item.value.VarRef? {
          var i := item.value.i;
          Later(subs, additions, pending, varCount, asg, out);
          var ok := Bind(substitutions[i], additions[i], subs[i]);
          if !ok {
            return Err(RefOverflow);
          }
        } else {
          SubstItem(subs, pending, varCount, Output(out, asg));
          Copy(item, pending.head);
        }
        ghost var last := pending;
        var more := ez.Next(pending);
        if !more {
          var size := ez.FinishSpan(last);
          SubstDone(subs, varCount, Output(out, asg));
          return Ok(size);
        }
        pending := After(pending);
      }
    }

    // `for j in var_count..additions.len()`
    method Advance(additions: seq<nat>, from: nat, nvars: nat) returns (r: seq<nat>)
      requires from <= |additions|
      ensures |r| == |additions|
      ensures forall j | 0 <= j < |r| :: r[j] == if j < from then additions[j] else additions[j] + nvars
    {
      r := additions;
      for j := from to |additions|
        invariant |r| == |additions|
        invariant forall k | 0 <= k < |r| :: r[k] == if from <= k < j then additions[k] + nvars else additions[k]
      {
        r := r[j := r[j] + nvars];
      }
    }
  }

  // The expression with every variable replaced by its substitute.
  ghost function Substituted(subs: seq<Expr>, e: Expr): AbsTerm {
    Subst1(Substitutes(subs), Side(e, 0))
  }

  ghost function SubstRest(subs: seq<Expr>, es: Exprs, v: nat): AbsTerms {
    Subst(Substitutes(subs), Abs(es, 0, v))
  }

  // After `v` variables: the additions are the places of their substitutes among the variables written.
  ghost predicate Ready(subs: seq<Expr>, additions: seq<nat>, v: nat, asg: seq<ExprVar>) {
    && Ordered(subs, v, asg) && |additions| == |subs|
    && (forall j | 0 <= j < |subs| :: additions[j] == Offset(subs, if j < v then j else v))
  }

  // The variables written for the first `v` substitutes, in order.
  ghost predicate Ordered(subs: seq<Expr>, v: nat, asg: seq<ExprVar>) {
    && v <= |subs| && |asg| == Offset(subs, v) && Distinct(asg)
    && (forall r | 0 <= r < v :: Placement(subs, r, asg))
    && (forall x | x in asg :: x.0 < v)
  }

  // Writing `rest` after `out` comes to the same as writing `whole` after `out0`.
  ghost predicate Leads(whole: Exprs, out0: seq<byte>, rest: Exprs, out: seq<byte>) {
    (WF(whole) <==> WF(rest)) && (WF(rest) ==> out0 + Enc(whole) == out + Enc(rest))
  }

  lemma LeadsOn(whole: Exprs, out0: seq<byte>, all: Exprs, out: seq<byte>, h: Expr, rest: Exprs)
    requires Leads(whole, out0, all, out) && StepsTo(all, h, rest, out)
    ensures WF(One(h)) ==> Leads(whole, out0, rest, out + ItemBytes(h))
    ensures !WF(One(h)) ==> !WF(whole)
  {
  }

  lemma LeadsNowhere(whole: Exprs, out0: seq<byte>, n: nat, w: nat, first: bool, out: seq<byte>)
    requires Leads(whole, out0, Placed(Nil, n, w, first), out)
    ensures WF(whole) && out == out0 + Enc(whole) && NewVars(Nil) == 0
  {
    assert out + [] == out;
  }

  lemma VarItem(x: Occ)
    ensures WF(One(Var(x))) <==> x.New? || x.i < 64
    ensures x.New? || x.i < 64 ==> ItemBytes(Var(x)) == [ItemByte(if x.New? then NewVar else VarRef(x.i))]
  {
  }

  // The place of one substitute.
  ghost predicate Placement(subs: seq<Expr>, r: nat, asg: seq<ExprVar>)
    requires r < |subs|
  {
    HasLevels(asg, Offset(subs, r), r, NewVars(One(subs[r]))) && Foreign(asg, Offset(subs, r), r)
  }

  lemma ReadyStart(subs: seq<Expr>, additions: seq<nat>)
    requires |additions| == |subs| && forall j | 0 <= j < |subs| :: additions[j] == 0
    ensures Ready(subs, additions, 0, [])
  {
  }

  lemma GoalIs(subs: seq<Expr>, e: Expr, o: Output<ExprVar>)
    requires o.asg == []
    ensures SubstRest(subs, One(e), 0) == One(Substituted(subs, e))
    ensures Render(SubstRest(subs, One(e), 0), o).Some? <==> WF(Number(One(Substituted(subs, e)), []))
    ensures Render(SubstRest(subs, One(e), 0), o).Some? ==>
      Render(SubstRest(subs, One(e), 0), o).value.out == o.out + Enc(Number(One(Substituted(subs, e)), []))
  {
    AbsCons(e, Nil, 0, 0);
    SubstOne(Substitutes(subs), Side(e, 0));
  }

  lemma SubstOne<X, Y>(th: X -> Term<Y>, t: Term<X>)
    ensures Subst(th, One(t)) == One(Subst1(th, t))
  {
    assert Subst(th, Nil) == Nil;
  }

  lemma ReadyCount(subs: seq<Expr>, additions: seq<nat>, v: nat, asg: seq<ExprVar>)
    requires Ready(subs, additions, v, asg)
    ensures v <= |subs|
  {
  }

  lemma ClosedStep(pending: Exprs, v: nat)
    requires pending.Cons? && ClosedFrom(pending, v)
    ensures ClosedFrom(After(pending), if pending.head == Var(New) then v + 1 else v)
    ensures pending.head.Var? && pending.head.x.Ref? ==> pending.head.x.i < v
    ensures NewVars(Nil) == 0
  {
    ClosedAppend(Children(pending.head), pending.tail, v);
  }

  lemma {:induction false} ClosedAppend(es: Exprs, fs: Exprs, v: nat)
    ensures ClosedFrom(Append(es, fs), v) <==> ClosedFrom(es, v) && ClosedFrom(fs, v + NewVars(es))
    decreases es
  {
    match es
    case Nil =>
    case Cons(Var(New), tl) => ClosedAppend(tl, fs, v + 1);
    case Cons(Var(Ref(_)), tl) => ClosedAppend(tl, fs, v);
    case Cons(Sym(_), tl) => ClosedAppend(tl, fs, v);
    case Cons(App(kids), tl) => ClosedAppend(tl, fs, v + NewVars(kids));
  }

  lemma SubstDone(subs: seq<Expr>, v: nat, o: Output<ExprVar>)
    ensures Render(SubstRest(subs, Nil, v), o) == Some(o)
  {
    RenderNil(o);
  }

  lemma {:induction false} SubstAppend<X, Y>(th: X -> Term<Y>, ts: Terms<X>, us: Terms<X>)
    ensures Subst(th, Append(ts, us)) == Append(Subst(th, ts), Subst(th, us))
    decreases ts
  {
    match ts
    case Nil =>
    case Cons(_, tl) => SubstAppend(th, tl, us);
  }

  // A symbol or an arity is copied.
  lemma SubstItem(subs: seq<Expr>, pending: Exprs, v: nat, o: Output<ExprVar>)
    requires pending.Cons? && !pending.head.Var? && WF(pending)
    ensures WF(One(pending.head))
    ensures Render(SubstRest(subs, pending, v), o) == Render(SubstRest(subs, After(pending), v), o.(out := o.out + ItemBytes(pending.head)))
  {
    hide Enc, Render, Number, Append, Abs, EncLen, NewVars, ItemByte, Substitutes, WF;
    var e, tl, th := pending.head, pending.tail, Substitutes(subs);
    WFCons(e, tl);
    AbsCons(e, tl, 0, v);
    OneFacts(e, 0, v);
    AbsAppend(Children(e), tl, 0, v);
    SubstAppend(th, Abs(Children(e), 0, v), Abs(tl, 0, v + NewVars(One(e))));
    var us := Subst(th, Abs(tl, 0, v + NewVars(One(e))));
    match e
    case Sym(s) =>
      SymbolCap(s);
      RenderCons(Sym(s), us, o);
      RenderSym(s, o);
      NothingBefore(tl, us, v);
    case App(kids) =>
      ArityCap(kids);
      AbsLen(kids, 0, v);
      SubstLen(th, Abs(kids, 0, v));
      RenderApp(Subst(th, Abs(kids, 0, v)), us, o);
  }

  lemma SymbolCap(s: Symbol)
    requires WF(One(Sym(s)))
    ensures 0 < |s| < 64
  {
  }

  lemma ArityCap(kids: Exprs)
    requires WF(One(App(kids)))
    ensures Len(kids) < 64
  {
  }

  lemma NothingBefore(tl: Exprs, us: AbsTerms, v: nat)
    ensures Append(Nil, tl) == tl && Append(Nil, us) == us && Abs(Nil, 0, v) == Nil && NewVars(Nil) == 0
  {
  }

  // The first occurrence of a variable.
  lemma First(subs: seq<Expr>, additions: seq<nat>, pending: Exprs, v: nat, asg: seq<ExprVar>, out: seq<byte>)
    requires Ready(subs, additions, v, asg) && v < |subs| && Closed(subs[v])
    requires pending.Cons? && pending.head == Var(New)
    ensures var p := Placed(One(subs[v]), additions[v], 0, true);
            var whole := Render(SubstRest(subs, pending, v), Output(out, asg));
            if WF(p) then whole == Render(SubstRest(subs, After(pending), v + 1), Output(out + Enc(p), Assigned(One(Side(subs[v], v)), asg)))
            else whole == None
  {
    OrderedHere(subs, v, asg);
    assert additions[v] == Offset(subs, v);
    hide Enc, WF, Placed, Ready, Number, Assigned;
    var us := SubstRest(subs, pending.tail, v + 1);
    assert After(pending) == pending.tail;
    assert SubstRest(subs, pending, v) == Cons(Side(subs[v], v), us);
    RenderCons(Side(subs[v], v), us, Output(out, asg));
    AbsCons(subs[v], Nil, v, 0);
    PlacedFirst(One(subs[v]), v, Offset(subs, v), 0, asg);
  }

  lemma OrderedHere(subs: seq<Expr>, v: nat, asg: seq<ExprVar>)
    requires Ordered(subs, v, asg)
    ensures |asg| == Offset(subs, v) && Distinct(asg) && Foreign(asg, |asg|, v) && HasLevels(asg, |asg|, v, 0)
  {
  }

  // A later occurrence.
  lemma Later(subs: seq<Expr>, additions: seq<nat>, pending: Exprs, v: nat, asg: seq<ExprVar>, out: seq<byte>)
    requires Ready(subs, additions, v, asg)
    requires pending.Cons? && pending.head.Var? && pending.head.x.Ref? && pending.head.x.i < v && Closed(subs[pending.head.x.i])
    ensures var i := pending.head.x.i;
            var p := Placed(One(subs[i]), additions[i], 0, false);
            var whole := Render(SubstRest(subs, pending, v), Output(out, asg));
            if WF(p) then whole == Render(SubstRest(subs, After(pending), v), Output(out + Enc(p), asg))
            else whole == None
  {
    var i := pending.head.x.i;
    assert Placement(subs, i, asg) && additions[i] == Offset(subs, i);
    hide Enc, WF, Placed, Ready, Number, Assigned, HasLevels, Foreign, Offset;
    var us := SubstRest(subs, pending.tail, v);
    assert After(pending) == pending.tail;
    assert SubstRest(subs, pending, v) == Cons(Side(subs[i], i), us);
    RenderCons(Side(subs[i], i), us, Output(out, asg));
    AbsCons(subs[i], Nil, i, 0);
    PlacedLater(One(subs[i]), i, Offset(subs, i), 0, asg);
  }

  lemma ReadyNext(subs: seq<Expr>, additions: seq<nat>, additions': seq<nat>, v: nat, asg: seq<ExprVar>)
    requires Ready(subs, additions, v, asg) && v < |subs| == |additions'| && Closed(subs[v])
    requires forall j | 0 <= j < |subs| :: additions'[j] == if j < v + 1 then additions[j] else additions[j] + NewVars(One(subs[v]))
    ensures Ready(subs, additions', v + 1, Assigned(One(Side(subs[v], v)), asg))
  {
    hide Ordered, Assigned, NewVars, Side;
    OrderedNext(subs, v, asg);
  }

  lemma OrderedNext(subs: seq<Expr>, v: nat, asg: seq<ExprVar>)
    requires Ordered(subs, v, asg) && v < |subs| && ClosedFrom(One(subs[v]), 0)
    ensures Ordered(subs, v + 1, Assigned(One(Side(subs[v], v)), asg))
  {
    hide NewVars, ClosedFrom, Assigned, Number, Abs, Distinct, HasLevels, Foreign, Side;
    OrderedHere(subs, v, asg);
    NextAssigned(subs[v], v, asg);
    var asg' := Assigned(One(Side(subs[v], v)), asg);
    forall r | 0 <= r < v + 1 ensures Placement(subs, r, asg') {
      if r < v {
        assert Placement(subs, r, asg);
        HasLevelsPrefix(asg, asg', Offset(subs, r), r, NewVars(One(subs[r])));
      }
    }
    forall x | x in asg' ensures x.0 < v + 1 {
      assert x in asg || x.0 == v;
    }
  }

  lemma HasLevelsPrefix(asg: seq<ExprVar>, asg': seq<ExprVar>, n: nat, s: nat, k: nat)
    requires asg <= asg' && HasLevels(asg, n, s, k) && Foreign(asg, n, s)
    ensures HasLevels(asg', n, s, k) && Foreign(asg', n, s)
  {
    forall i | 0 <= i < k ensures asg'[n + i] == (s, i) {
      assert asg[n + i] == (s, i);
    }
  }

  lemma NextAssigned(sub: Expr, v: nat, asg: seq<ExprVar>)
    requires ClosedFrom(One(sub), 0) && Distinct(asg) && Foreign(asg, |asg|, v)
    ensures var asg' := Assigned(One(Side(sub, v)), asg);
            && asg <= asg' && Distinct(asg') && |asg'| == |asg| + NewVars(One(sub))
            && HasLevels(asg', |asg|, v, NewVars(One(sub))) && Foreign(asg', |asg|, v)
            && forall x | x in asg' :: x in asg || x.0 == v
  {
    var ts, n := One(Side(sub, v)), |asg|;
    AbsCons(sub, Nil, v, 0);
    hide NewVars, ClosedFrom, WF, Abs, Assigned, Number;
    PlacedFirst(One(sub), v, n, 0, asg);
    AssignedGrows(ts, asg);
    var asg' := Assigned(ts, asg);
    forall x | x in asg' ensures x in asg || x.0 == v {
      var i := IndexOf(asg', x);
      if i >= n {
        assert asg'[n + (i - n)] == (v, i - n);
      } else {
        assert asg'[i] == asg[i];
      }
    }
  }

  /* ---- What substitution means ---- */

  // The expression that is written.
  ghost function Substitute(subs: seq<Expr>, e: Expr): Expr {
    Number(One(Substituted(subs, e)), []).head
  }

  // Enough substitutes, all closed.
  ghost predicate Fits(subs: seq<Expr>, e: Expr) {
    && ClosedFrom(One(e), 0) && NewVars(One(e)) <= |subs|
    && forall r | 0 <= r < |subs| :: ClosedFrom(One(subs[r]), 0)
  }

  // Levels raised by `k`, in space `n`.
  function Raise(n: nat, k: nat): Substitution {
    (x: ExprVar) => Var((n, k + x.1))
  }

  // Simultaneous substitution in one space: the variables of each substitute are moved behind those
  // of the substitutes before it.
  ghost function Apart(subs: seq<Expr>, n: nat): Substitution {
    (x: ExprVar) => if x.1 < |subs| then Subst1(Raise(n, Offset(subs, x.1)), Side(subs[x.1], n)) else Var(x)
  }

  lemma {:induction false} AssignedSubst(subs: seq<Expr>, es: Exprs, v: nat, asg: seq<ExprVar>)
    requires ClosedFrom(es, v) && v + NewVars(es) <= |subs| && Ordered(subs, v, asg)
    requires forall r | 0 <= r < |subs| :: ClosedFrom(One(subs[r]), 0)
    ensures Ordered(subs, v + NewVars(es), Assigned(SubstRest(subs, es, v), asg))
    decreases es
  {
    hide Ordered, Side;
    match es
    case Nil =>
    case Cons(Var(New), tl) =>
      OrderedNext(subs, v, asg);
      assert SubstRest(subs, es, v) == Cons(Side(subs[v], v), SubstRest(subs, tl, v + 1));
      AssignedCons(Side(subs[v], v), SubstRest(subs, tl, v + 1), asg);
      AssignedSubst(subs, tl, v + 1, Assigned(One(Side(subs[v], v)), asg));
    case Cons(Var(Ref(i)), tl) =>
      assert SubstRest(subs, es, v) == Cons(Side(subs[i], i), SubstRest(subs, tl, v));
      AssignedCons(Side(subs[i], i), SubstRest(subs, tl, v), asg);
      AssignedAgain(subs, i, v, asg);
      AssignedSubst(subs, tl, v, asg);
    case Cons(Sym(_), tl) =>
      AssignedSubst(subs, tl, v, asg);
    case Cons(App(kids), tl) =>
      AssignedSubst(subs, kids, v, asg);
      AssignedSubst(subs, tl, v + NewVars(kids), Assigned(SubstRest(subs, kids, v), asg));
  }

  lemma AssignedCons<X>(t: Term<X>, tl: Terms<X>, asg: seq<X>)
    ensures Assigned(Cons(t, tl), asg) == Assigned(tl, Assigned(One(t), asg))
  {
  }

  lemma AssignedAgain(subs: seq<Expr>, i: nat, v: nat, asg: seq<ExprVar>)
    requires Ordered(subs, v, asg) && i < v && ClosedFrom(One(subs[i]), 0)
    ensures Assigned(One(Side(subs[i], i)), asg) == asg
  {
    assert Placement(subs, i, asg);
    AbsCons(subs[i], Nil, i, 0);
    PlacedLater(One(subs[i]), i, Offset(subs, i), 0, asg);
  }

  // What is written is closed, introduces as many variables as the substitutes together, and
  // denotes the simultaneous substitution with the substitutes' variables renamed apart.
  lemma SubstituteMeans(subs: seq<Expr>, e: Expr, n: nat)
    requires Fits(subs, e)
    ensures ClosedFrom(One(Substitute(subs, e)), 0)
    ensures NewVars(One(Substitute(subs, e))) == Offset(subs, NewVars(One(e)))
    ensures Side(Substitute(subs, e), n) == Subst1(Apart(subs, n), Side(e, n))
    ensures Number(One(Substituted(subs, e)), []) == One(Substitute(subs, e))
  {
    hide ClosedFrom, NewVars, Abs, Assigned, Number, Offset, Distinct, Side, SubstRest;
    var t, k := Substituted(subs, e), NewVars(One(e));
    var asg := Assigned(One(t), []);
    NumberLen(One(t), []);
    LenOne(Number(One(t), []));
    NumberDenotes(One(t), [], n);
    GoalIs(subs, e, Output([], []));
    OrderedNone(subs);
    AssignedSubst(subs, One(e), 0, []);
    OrderedHere(subs, k, asg);
    SideOf(Substitute(subs, e), n);
    SideOf(e, n);
    SideOf(e, 0);
    SubstOne(Levels(asg, n), t);
    // The levels of what is written, variable by variable of `e`.
    SubstCompose(Substitutes(subs), Levels(asg, n), One(Side(e, 0)));
    AbsToSpace(One(e), n, 0, 0);
    SubstCompose(ToSpace(0), Compose(Substitutes(subs), Levels(asg, n)), One(Side(e, n)));
    forall x | Occurs(x, One(Side(e, n)))
      ensures Compose(ToSpace(0), Compose(Substitutes(subs), Levels(asg, n)))(x) == Apart(subs, n)(x)
    {
      ClosedOccurs(One(e), n, 0, x);
      LevelsOf(subs, k, asg, x.1, n);
    }
    SubstAgree(Compose(ToSpace(0), Compose(Substitutes(subs), Levels(asg, n))), Apart(subs, n), One(Side(e, n)));
    SubstOne(Apart(subs, n), Side(e, n));
  }

  lemma SideOf(e: Expr, n: nat)
    ensures Abs(One(e), n, 0) == One(Side(e, n))
  {
    AbsCons(e, Nil, n, 0);
  }

  lemma OrderedNone(subs: seq<Expr>)
    ensures Ordered(subs, 0, [])
  {
  }

  // The variables of one substitute, by their place among the variables written.
  lemma LevelsOf(subs: seq<Expr>, k: nat, asg: seq<ExprVar>, r: nat, n: nat)
    requires Ordered(subs, k, asg) && r < k && ClosedFrom(One(subs[r]), 0)
    ensures Subst1(Levels(asg, n), Side(subs[r], r)) == Subst1(Raise(n, Offset(subs, r)), Side(subs[r], n))
  {
    assert Placement(subs, r, asg);
    hide Ordered, Offset;
    var sub, off := subs[r], Offset(subs, r);
    SideOf(sub, r);
    SideOf(sub, n);
    AbsToSpace(One(sub), n, r, 0);
    SubstCompose(ToSpace(r), Levels(asg, n), One(Side(sub, n)));
    forall x | Occurs(x, One(Side(sub, n)))
      ensures Compose(ToSpace(r), Levels(asg, n))(x) == Raise(n, off)(x)
    {
      ClosedOccurs(One(sub), n, 0, x);
      LevelAt(asg, off, r, NewVars(One(sub)), x.1);
    }
    SubstAgree(Compose(ToSpace(r), Levels(asg, n)), Raise(n, off), One(Side(sub, n)));
    SubstOne(Levels(asg, n), Side(sub, r));
    SubstOne(Raise(n, off), Side(sub, n));
  }

  // Two closed expressions that denote the same term are the same.
  lemma SameSide(e: Expr, f: Expr, n: nat)
    requires ClosedFrom(One(e), 0) && ClosedFrom(One(f), 0) && Side(e, n) == Side(f, n)
    ensures e == f
  {
    SideOf(e, n);
    SideOf(f, n);
    NumberCanonical(One(e), n, 0, []);
    NumberCanonical(One(f), n, 0, []);
  }

  // Substituting `$` everywhere changes nothing.
  lemma SubstituteIdentity(subs: seq<Expr>, e: Expr)
    requires ClosedFrom(One(e), 0) && NewVars(One(e)) <= |subs| && forall r | 0 <= r < |subs| :: subs[r] == Var(New)
    ensures Substitute(subs, e) == e
  {
    hide ClosedFrom;
    assert ClosedFrom(One(Var(New)), 0) by {
      NewIsClosed();
    }
    SubstituteMeans(subs, e, 0);
    var i := ToSpace(0);
    forall x | Occurs(x, One(Side(e, 0))) ensures Apart(subs, 0)(x) == Var(x) {
      SideOf(e, 0);
      ClosedOccurs(One(e), 0, 0, x);
      OffsetOnes(subs, x.1);
      assert Side(Var(New), 0) == Var((0, 0));
    }
    SubstId(Apart(subs, 0), One(Side(e, 0)));
    SubstOne(Apart(subs, 0), Side(e, 0));
    SameSide(Substitute(subs, e), e, 0);
  }

  lemma NewIsClosed()
    ensures ClosedFrom(One(Var(New)), 0)
  {
  }

  lemma {:induction false} OffsetOnes(subs: seq<Expr>, k: nat)
    requires k <= |subs| && forall r | 0 <= r < |subs| :: subs[r] == Var(New)
    ensures Offset(subs, k) == k
  {
    if k > 0 {
      OffsetOnes(subs, k - 1);
      OneFacts(subs[k - 1], 0, 0);
    }
  }

  // The substitutes `us` that belong to the variables of the `r`th substitute.
  ghost function Share(subs: seq<Expr>, us: seq<Expr>, r: nat): seq<Expr>
    requires r < |subs| && Offset(subs, |subs|) <= |us|
  {
    OffsetUpTo(subs, r + 1, |subs|);
    us[Offset(subs, r)..Offset(subs, r + 1)]
  }

  lemma {:induction false} OffsetUpTo(subs: seq<Expr>, j: nat, k: nat)
    requires j <= k <= |subs|
    ensures Offset(subs, j) <= Offset(subs, k)
  {
    if j < k {
      OffsetUpTo(subs, j, k - 1);
    }
  }

  lemma {:induction false} OffsetSlice(us: seq<Expr>, a: nat, b: nat, k: nat)
    requires a + k <= b <= |us|
    ensures Offset(us[a..b], k) + Offset(us, a) == Offset(us, a + k)
  {
    if k > 0 {
      OffsetSlice(us, a, b, k - 1);
      assert us[a..b][k - 1] == us[a + k - 1];
    }
  }

  // Every substitute with its share of `us` substituted into it.
  ghost function Pushed(subs: seq<Expr>, us: seq<Expr>): (r: seq<Expr>)
    requires Offset(subs, |subs|) <= |us|
    ensures |r| == |subs| && forall k | 0 <= k < |subs| :: r[k] == Substitute(Share(subs, us, k), subs[k])
  {
    seq(|subs|, k requires 0 <= k < |subs| => Substitute(Share(subs, us, k), subs[k]))
  }

  ghost predicate FitsTwice(subs: seq<Expr>, us: seq<Expr>, e: Expr) {
    Fits(subs, e) && Offset(subs, |subs|) <= |us| && forall r | 0 <= r < |us| :: ClosedFrom(One(us[r]), 0)
  }

  lemma ShareFits(subs: seq<Expr>, us: seq<Expr>, e: Expr, r: nat)
    requires FitsTwice(subs, us, e) && r < |subs|
    ensures Fits(Share(subs, us, r), subs[r]) && |Share(subs, us, r)| == NewVars(One(subs[r]))
    ensures ClosedFrom(One(Pushed(subs, us)[r]), 0)
    ensures NewVars(One(Pushed(subs, us)[r])) == Offset(Share(subs, us, r), NewVars(One(subs[r])))
  {
    OffsetUpTo(subs, r + 1, |subs|);
    SubstituteMeans(Share(subs, us, r), subs[r], 0);
  }

  lemma OffsetSucc(subs: seq<Expr>, r: nat)
    requires r < |subs|
    ensures Offset(subs, r + 1) == Offset(subs, r) + NewVars(One(subs[r]))
  {
  }

  lemma ShareRoom(subs: seq<Expr>, us: seq<Expr>, e: Expr, r: nat)
    requires FitsTwice(subs, us, e) && r < |subs|
    ensures Offset(subs, r) <= Offset(subs, r + 1) <= |us|
    ensures Offset(us, Offset(subs, r)) + NewVars(One(Pushed(subs, us)[r])) == Offset(us, Offset(subs, r + 1))
  {
    hide Substitute, NewVars, Offset, ClosedFrom, Pushed;
    OffsetUpTo(subs, r + 1, |subs|);
    OffsetSucc(subs, r);
    ShareFits(subs, us, e, r);
    OffsetSlice(us, Offset(subs, r), Offset(subs, r + 1), NewVars(One(subs[r])));
  }

  // The pushed substitutes take up the room of the substitutes they were made from.
  lemma {:induction false} OffsetPushed(subs: seq<Expr>, us: seq<Expr>, e: Expr, r: nat)
    requires FitsTwice(subs, us, e) && r <= |subs|
    ensures Offset(subs, r) <= |us| && Offset(Pushed(subs, us), r) == Offset(us, Offset(subs, r))
  {
    hide FitsTwice, Substitute, NewVars, Offset, Pushed, Share;
    TwiceRoom(subs, us, e);
    if r > 0 {
      OffsetPushed(subs, us, e, r - 1);
      ShareRoom(subs, us, e, r - 1);
      OffsetSucc(Pushed(subs, us), r - 1);
    } else {
      OffsetZero(subs);
      OffsetZero(us);
      OffsetZero(Pushed(subs, us));
    }
  }

  lemma OffsetZero(subs: seq<Expr>)
    ensures Offset(subs, 0) == 0
  {
  }

  lemma TwiceRoom(subs: seq<Expr>, us: seq<Expr>, e: Expr)
    requires FitsTwice(subs, us, e)
    ensures Offset(subs, |subs|) <= |us|
  {
  }

  // Substitution composes: substituting twice is substituting once, with every substitute's share of
  // the second round substituted into it first.
  lemma SubstituteAssociative(subs: seq<Expr>, us: seq<Expr>, e: Expr)
    requires FitsTwice(subs, us, e)
    ensures Fits(us, Substitute(subs, e)) && Fits(Pushed(subs, us), e)
    ensures Substitute(us, Substitute(subs, e)) == Substitute(Pushed(subs, us), e)
  {
    TwiceRoom(subs, us, e);
    TwiceFits(subs, us, e);
    hide FitsTwice, Fits, ClosedFrom, Substitute, Pushed, NewVars, Apart, Raise, Offset;
    var ps := Pushed(subs, us);
    SubstituteMeans(subs, e, 0);
    SubstituteMeans(us, Substitute(subs, e), 0);
    SubstituteMeans(ps, e, 0);
    var t := Side(e, 0);
    SubstCompose(Apart(subs, 0), Apart(us, 0), One(t));
    forall x | Occurs(x, One(t)) ensures Compose(Apart(subs, 0), Apart(us, 0))(x) == Apart(ps, 0)(x) {
      TwiceAt(subs, us, e, x);
    }
    SubstAgree(Compose(Apart(subs, 0), Apart(us, 0)), Apart(ps, 0), One(t));
    SubstOne(Apart(subs, 0), t);
    SubstOne(Apart(us, 0), Subst1(Apart(subs, 0), t));
    SubstOne(Apart(ps, 0), t);
    SameSide(Substitute(us, Substitute(subs, e)), Substitute(ps, e), 0);
  }

  lemma TwiceFits(subs: seq<Expr>, us: seq<Expr>, e: Expr)
    requires FitsTwice(subs, us, e)
    ensures Fits(subs, e) && Fits(us, Substitute(subs, e)) && Fits(Pushed(subs, us), e)
  {
    hide Substitute, Offset, ClosedFrom;
    SubstituteMeans(subs, e, 0);
    OffsetUpTo(subs, NewVars(One(e)), |subs|);
    forall r | 0 <= r < |subs| ensures ClosedFrom(One(Pushed(subs, us)[r]), 0) {
      ShareFits(subs, us, e, r);
    }
  }

  // One variable of `e`, substituted twice.
  lemma TwiceAt(subs: seq<Expr>, us: seq<Expr>, e: Expr, x: ExprVar)
    requires FitsTwice(subs, us, e) && Occurs(x, One(Side(e, 0)))
    ensures Offset(subs, |subs|) <= |us|
    ensures Subst1(Apart(us, 0), Apart(subs, 0)(x)) == Apart(Pushed(subs, us), 0)(x)
  {
    SideOf(e, 0);
    ClosedOccurs(One(e), 0, 0, x);
    var r, off := x.1, Offset(subs, x.1);
    var sub, share := subs[r], Share(subs, us, r);
    ShareFits(subs, us, e, r);
    SubstituteMeans(share, sub, 0);
    OffsetPushed(subs, us, e, r);
    var there := Offset(us, off);
    var t := Side(sub, 0);
    hide Substitute, NewVars, Offset, Fits, FitsTwice, ClosedFrom;
    var first, second := Compose(Raise(0, off), Apart(us, 0)), Compose(Apart(share, 0), Raise(0, there));
    forall y | Occurs(y, One(t)) ensures first(y) == second(y) {
      SideOf(sub, 0);
      ClosedOccurs(One(sub), 0, 0, y);
      VariableTwice(subs, us, r, y);
    }
    SubstAgree(first, second, One(t));
    SubstCompose(Raise(0, off), Apart(us, 0), One(t));
    SubstCompose(Apart(share, 0), Raise(0, there), One(t));
    SubstOne(Raise(0, off), t);
    SubstOne(Apart(us, 0), Subst1(Raise(0, off), t));
    SubstOne(Apart(share, 0), t);
    SubstOne(Raise(0, there), Subst1(Apart(share, 0), t));
  }

  lemma VariableTwice(subs: seq<Expr>, us: seq<Expr>, r: nat, y: ExprVar)
    requires r < |subs| && Offset(subs, |subs|) <= |us| && y.1 < NewVars(One(subs[r]))
    ensures Offset(subs, r) <= |us|
    ensures Subst1(Apart(us, 0), Raise(0, Offset(subs, r))(y))
         == Subst1(Raise(0, Offset(us, Offset(subs, r))), Apart(Share(subs, us, r), 0)(y))
  {
    hide *;
    var off, share, i := Offset(subs, r), Share(subs, us, r), y.1;
    ShareAt(subs, us, r, i);
    var t := Side(us[off + i], 0);
    RaiseTwice(t, Offset(share, i), Offset(us, off));
    ApartAt(share, y);
    ApartAt(us, (0, off + i));
    RaisedOnce(us, off, y);
  }

  lemma ApartAt(subs: seq<Expr>, x: ExprVar)
    requires x.1 < |subs|
    ensures Apart(subs, 0)(x) == Subst1(Raise(0, Offset(subs, x.1)), Side(subs[x.1], 0))
  {
  }

  lemma RaisedOnce(us: seq<Expr>, off: nat, y: ExprVar)
    ensures Subst1(Apart(us, 0), Raise(0, off)(y)) == Apart(us, 0)((0, off + y.1))
  {
  }

  lemma ShareAt(subs: seq<Expr>, us: seq<Expr>, r: nat, i: nat)
    requires r < |subs| && Offset(subs, |subs|) <= |us| && i < NewVars(One(subs[r]))
    ensures Offset(subs, r) + i < |us| && i < |Share(subs, us, r)|
    ensures Share(subs, us, r)[i] == us[Offset(subs, r) + i]
    ensures Offset(Share(subs, us, r), i) + Offset(us, Offset(subs, r)) == Offset(us, Offset(subs, r) + i)
  {
    hide NewVars, Offset;
    OffsetUpTo(subs, r + 1, |subs|);
    OffsetSucc(subs, r);
    OffsetSlice(us, Offset(subs, r), Offset(subs, r + 1), i);
  }

  lemma RaiseTwice(t: AbsTerm, j: nat, k: nat)
    ensures Subst1(Raise(0, k), Subst1(Raise(0, j), t)) == Subst1(Raise(0, k + j), t)
  {
    hide Subst1;
    SubstCompose(Raise(0, j), Raise(0, k), One(t));
    forall x | Occurs(x, One(t)) ensures Compose(Raise(0, j), Raise(0, k))(x) == Raise(0, k + j)(x) {
      RaiseVar(j, k, x);
    }
    SubstAgree(Compose(Raise(0, j), Raise(0, k)), Raise(0, k + j), One(t));
    SubstOne(Raise(0, j), t);
    SubstOne(Raise(0, k), Subst1(Raise(0, j), t));
    SubstOne(Raise(0, k + j), t);
  }

  lemma RaiseVar(j: nat, k: nat, x: ExprVar)
    ensures Compose(Raise(0, j), Raise(0, k))(x) == Raise(0, k + j)(x)
  {
    assert k + (j + x.1) == k + j + x.1;
    assert Raise(0, j)(x) == Var((0, j + x.1));
    assert Raise(0, k)((0, j + x.1)) == Var((0, k + j + x.1));
  }
}
