/** Writing terms as bytes, one item after the other. */
module Rendering {
  import opened Items
  import opened Slices
  import opened Terms
  import opened Encoding
  import opened Wrappers
  import opened Numbering

  // The bytes written so far and the variables they introduce, in order.
  datatype Output<X> = Output(out: seq<byte>, asg: seq<X>)

  // Writing `ts` after `o`. None when a reference to a level of 64 or more would be needed.
  ghost function Render<X>(ts: Terms<X>, o: Output<X>): Option<Output<X>> {
    if WF(Number(ts, o.asg)) then Some(Output(o.out + Enc(Number(ts, o.asg)), Assigned(ts, o.asg))) else None
  }

  ghost function RenderAfter<X>(ts: Terms<X>, o: Option<Output<X>>): Option<Output<X>> {
    if o.None? then None else Render(ts, o.value)
  }

  lemma RenderNil<X>(o: Output<X>)
    ensures Render(Nil, o) == Some(o)
  {
    assert o.out + [] == o.out;
  }

  lemma NumberNil<X>(asg: seq<X>)
    ensures Number(Nil, asg) == Nil && Assigned(Nil, asg) == asg
  {
  }

  lemma RenderAppend<X>(ts: Terms<X>, us: Terms<X>, o: Output<X>)
    ensures Render(Append(ts, us), o) == RenderAfter(us, Render(ts, o))
  {
    NumberAppend(ts, us, o.asg);
    var x, y := Number(ts, o.asg), Number(us, Assigned(ts, o.asg));
    WFAppend(x, y);
    if WF(x) && WF(y) {
      EncAppend(x, y);
      Assoc(o.out, Enc(x), Enc(y));
    }
  }

  lemma WFAppend(es: Exprs, fs: Exprs)
    ensures WF(Append(es, fs)) <==> WF(es) && WF(fs)
  {
  }

  // What is written for one resolved term and the terms after it.
  lemma RenderCons<X>(t: Term<X>, tl: Terms<X>, o: Output<X>)
    ensures Render(Cons(t, tl), o) == RenderAfter(tl, Render(One(t), o))
  {
    RenderAppend(One(t), tl, o);
  }

  lemma RenderVar<X>(x: X, o: Output<X>)
    ensures x in o.asg ==>
      (Render(One(Var(x)), o) ==
       if IndexOf(o.asg, x) < 64 then Some(o.(out := o.out + [ItemByte(VarRef(IndexOf(o.asg, x)))])) else None)
    ensures x !in o.asg ==> Render(One(Var(x)), o) == Some(Output(o.out + [ItemByte(NewVar)], o.asg + [x]))
  {
    var e := Number(One(Var(x)), o.asg);
    NumberNil(o.asg);
    NumberNil(o.asg + [x]);
    assert e.tail == Nil;
    if WF(e) {
      EncOne(e.head);
    }
  }

  lemma RenderSym<X>(s: Symbol, o: Output<X>)
    requires 0 < |s| < 64
    ensures Render(One(Sym(s)), o) == Some(o.(out := o.out + ([ItemByte(SymbolSize(|s|))] + s)))
  {
    NumberNil(o.asg);
    assert Number(One(Sym(s)), o.asg) == One(Sym(s));
    EncOne(Sym(s));
  }

  // An arity byte, then the arguments and what follows.
  lemma RenderApp<X>(kids: Terms<X>, tl: Terms<X>, o: Output<X>)
    requires Len(kids) < 64
    ensures Render(Cons(App(kids), tl), o) == Render(Append(kids, tl), o.(out := o.out + [ItemByte(Arity(Len(kids)))]))
  {
    var o' := o.(out := o.out + [ItemByte(Arity(Len(kids)))]);
    RenderCons(App(kids), tl, o);
    RenderAppend(kids, tl, o');
    NumberLen(kids, o.asg);
    var k := Number(kids, o.asg);
    NumberNil(Assigned(kids, o.asg));
    assert Number(One(App(kids)), o.asg) == One(App(k));
    if WF(k) {
      EncOne(App(k));
      Assoc(o.out, [ItemByte(Arity(Len(kids)))], Enc(k));
    }
  }
}
