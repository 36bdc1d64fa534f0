/** Expressions as flat preorder byte strings, and what they denote.

    `Enc` is the byte format (expr/src/lib.rs:89-141). `Abs` reads an expression as an absolute term:
    in variable space `n`, with `v` variables already introduced to its left, `$` is variable
    `(n, v)` and `_i` is variable `(n, i)`. */
module Encoding {
  import opened Items
  import opened Slices
  import opened Terms
  import opened Wrappers

  datatype Occ = New | Ref(i: nat)
  type Expr = Term<Occ>
  type Exprs = Terms<Occ>
  type ExprVar = (nat, nat)
  type AbsTerm = Term<ExprVar>
  type AbsTerms = Terms<ExprVar>

  // The caps of the format: references below 64, symbols of 1 to 63 bytes, arities below 64.
  predicate WF(es: Exprs) {
    match es
    case Nil => true
    case Cons(Var(New), tl) => WF(tl)
    case Cons(Var(Ref(i)), tl) => i < 64 && WF(tl)
    case Cons(Sym(s), tl) => 0 < |s| < 64 && WF(tl)
    case Cons(App(kids), tl) => Len(kids) < 64 && WF(kids) && WF(tl)
  }

  lemma WFCons(e: Expr, tl: Exprs)
    ensures WF(Cons(e, tl)) <==> WF(One(e)) && WF(tl)
    ensures WF(One(e)) ==> WF(Children(e))
  {
  }

  function Enc(es: Exprs): seq<byte>
    requires WF(es)
  {
    match es
    case Nil => []
    case Cons(Var(New), tl) => [ItemByte(NewVar)] + Enc(tl)
    case Cons(Var(Ref(i)), tl) => [ItemByte(VarRef(i))] + Enc(tl)
    case Cons(Sym(s), tl) => [ItemByte(SymbolSize(|s|))] + s + Enc(tl)
    case Cons(App(kids), tl) => [ItemByte(Arity(Len(kids)))] + Enc(kids) + Enc(tl)
  }

  lemma EncHasEncLen(es: Exprs)
    requires WF(es)
    ensures |Enc(es)| == EncLen(es)
  {
  }

  lemma {:induction false} EncAppend(es: Exprs, fs: Exprs)
    requires WF(es) && WF(fs)
    ensures WF(Append(es, fs))
    ensures Enc(Append(es, fs)) == Enc(es) + Enc(fs)
    ensures EncLen(Append(es, fs)) == EncLen(es) + EncLen(fs)
  {
    match es
    case Nil =>
      assert Enc(es) + Enc(fs) == Enc(fs);
    case Cons(e, tl) =>
      EncAppend(tl, fs);
      LenAppend(tl, fs);
      EncCons(e, tl);
      EncCons(e, Append(tl, fs));
      Assoc(Enc(One(e)), Enc(tl), Enc(fs));
  }

  lemma EncCons(e: Expr, tl: Exprs)
    requires WF(Cons(e, tl))
    ensures WF(One(e)) && WF(tl)
    ensures Enc(Cons(e, tl)) == Enc(One(e)) + Enc(tl)
    ensures EncLen(Cons(e, tl)) == EncLen(One(e)) + EncLen(tl)
  {
    match e
    case Var(_) => assert Enc(One(e)) == [ItemByte(HeadTag(e))];
    case Sym(s) => assert Enc(One(e)) == [ItemByte(HeadTag(e))] + s;
    case App(kids) => assert Enc(One(e)) == [ItemByte(HeadTag(e))] + Enc(kids);
  }

  function HeadTag(e: Expr): Tag {
    match e
    case Var(New) => NewVar
    case Var(Ref(i)) => VarRef(i)
    case Sym(s) => SymbolSize(|s|)
    case App(kids) => Arity(Len(kids))
  }

  // The bytes of an expression's first item.
  function ItemBytes(e: Expr): seq<byte>
    requires WF(One(e))
  {
    if e.Sym? then [ItemByte(HeadTag(e))] + e.s else [ItemByte(HeadTag(e))]
  }

  function ItemLen(e: Expr): nat {
    if e.Sym? then 1 + |e.s| else 1
  }

  // The byte string read item by item: an arity opens its arguments in front of what follows.
  lemma EncStep(e: Expr, tl: Exprs)
    requires WF(Cons(e, tl))
    ensures WF(One(e)) && WF(tl) && WF(Append(Children(e), tl))
    ensures Enc(Cons(e, tl)) == ItemBytes(e) + Enc(Append(Children(e), tl))
    ensures EncLen(Cons(e, tl)) == ItemLen(e) + EncLen(Append(Children(e), tl))
  {
    EncAppend(Children(e), tl);
    if e.App? {
      Assoc(ItemBytes(e), Enc(e.args), Enc(tl));
    }
  }

  // A single expression: one item, and the arguments of a compound.
  lemma EncOne(e: Expr)
    requires WF(One(e))
    ensures WF(Children(e)) && Enc(One(e)) == ItemBytes(e) + Enc(Children(e))
    ensures !e.App? ==> Enc(One(e)) == ItemBytes(e)
  {
    hide ItemBytes;
    EncStep(e, Nil);
    AppendNil(Children(e));
    EncNil();
    assert ItemBytes(e) + [] == ItemBytes(e);
  }

  // No encoding is a prefix of another: the bytes fix the expressions and where they end.
  lemma {:induction false} PrefixFree(es: Exprs, fs: Exprs, x: seq<byte>, y: seq<byte>)
    requires WF(es) && WF(fs) && Len(es) == Len(fs)
    requires Enc(es) + x == Enc(fs) + y
    ensures es == fs && x == y
    decreases EncLen(es)
  {
    hide Enc, ItemBytes, ItemByte, Append, EncLen;
    match es
    case Nil =>
      EncNil();
      assert [] + x == x && [] + y == y;
    case Cons(e, tl) =>
      var f, ul := fs.head, fs.tail;
      EncStep(e, tl);
      EncStep(f, ul);
      var p, q := Append(Children(e), tl), Append(Children(f), ul);
      Assoc(ItemBytes(e), Enc(p), x);
      Assoc(ItemBytes(f), Enc(q), y);
      ItemsAgree(e, f, Enc(p) + x, Enc(q) + y);
      LenAppend(Children(e), tl);
      LenAppend(Children(f), ul);
      PrefixFree(p, q, x, y);
      AppendInjective(Children(e), Children(f), tl, ul);
  }

  lemma EncNil()
    ensures Enc(Nil) == [] && EncLen<Occ>(Nil) == 0
  {
  }

  lemma ItemsAgree(e: Expr, f: Expr, x: seq<byte>, y: seq<byte>)
    requires WF(One(e)) && WF(One(f))
    requires ItemBytes(e) + x == ItemBytes(f) + y
    ensures HeadTag(e) == HeadTag(f) && x == y
    ensures !e.App? ==> e == f
    ensures e.App? ==> f.App? && Len(e.args) == Len(f.args)
  {
    var a, b := ItemBytes(e) + x, ItemBytes(f) + y;
    assert a[0] == ItemByte(HeadTag(e)) && b[0] == ItemByte(HeadTag(f));
    ItemByteRoundTrip(a[0]);
    assert x == a[ItemLen(e)..] && y == b[ItemLen(f)..];
    if e.Sym? {
      assert e.s == a[1..ItemLen(e)] && f.s == b[1..ItemLen(f)];
    }
  }

  lemma AppendInjective<X>(a: Terms<X>, b: Terms<X>, x: Terms<X>, y: Terms<X>)
    requires Append(a, x) == Append(b, y) && Len(a) == Len(b)
    ensures a == b && x == y
  {
  }

  // The number of `$` items.
  function NewVars(es: Exprs): nat {
    match es
    case Nil => 0
    case Cons(Var(New), tl) => 1 + NewVars(tl)
    case Cons(App(kids), tl) => NewVars(kids) + NewVars(tl)
    case Cons(_, tl) => NewVars(tl)
  }

  lemma NewVarsAppend(es: Exprs, fs: Exprs)
    ensures NewVars(Append(es, fs)) == NewVars(es) + NewVars(fs)
  {
  }

  // The absolute terms denoted by a list of expressions.
  function Abs(es: Exprs, n: nat, v: nat): AbsTerms {
    match es
    case Nil => Nil
    case Cons(Var(New), tl) => Cons(Var((n, v)), Abs(tl, n, v + 1))
    case Cons(Var(Ref(i)), tl) => Cons(Var((n, i)), Abs(tl, n, v))
    case Cons(Sym(s), tl) => Cons(Sym(s), Abs(tl, n, v))
    case Cons(App(kids), tl) => Cons(App(Abs(kids, n, v)), Abs(tl, n, v + NewVars(kids)))
  }

  function Abs1(e: Expr, n: nat, v: nat): AbsTerm {
    Abs(One(e), n, v).head
  }

  lemma AbsCons(e: Expr, tl: Exprs, n: nat, v: nat)
    ensures Abs(Cons(e, tl), n, v) == Cons(Abs1(e, n, v), Abs(tl, n, v + NewVars(One(e))))
    ensures Abs(One(e), n, v) == One(Abs1(e, n, v))
    ensures NewVars(Cons(e, tl)) == NewVars(One(e)) + NewVars(tl)
  {
  }

  // A single expression, by kind.
  lemma OneFacts(e: Expr, n: nat, v: nat)
    ensures e == Var(New) ==> NewVars(One(e)) == 1 && Abs(One(e), n, v) == One(Var((n, v)))
    ensures e.Var? && e.x.Ref? ==> NewVars(One(e)) == 0 && Abs(One(e), n, v) == One(Var((n, e.x.i)))
    ensures e.Sym? ==> NewVars(One(e)) == 0 && Abs(One(e), n, v) == One(Sym(e.s))
    ensures e.App? ==> NewVars(One(e)) == NewVars(e.args) && Abs(One(e), n, v) == One(App(Abs(e.args, n, v)))
    ensures EncLen(One(e)) == if e.App? then 1 + EncLen(e.args) else ItemLen(e)
  {
    assert EncLen<Occ>(Nil) == 0 && NewVars(Nil) == 0;
  }

  lemma AbsLen(es: Exprs, n: nat, v: nat)
    ensures Len(Abs(es, n, v)) == Len(es)
  {
  }

  lemma {:induction false} AbsAppend(es: Exprs, fs: Exprs, n: nat, v: nat)
    ensures Abs(Append(es, fs), n, v) == Append(Abs(es, n, v), Abs(fs, n, v + NewVars(es)))
  {
    match es
    case Nil =>
    case Cons(e, tl) =>
      AbsAppend(tl, fs, n, v + NewVars(One(e)));
      AbsCons(e, tl, n, v);
      AbsCons(e, Append(tl, fs), n, v);
  }

  // Every reference points at a variable introduced to its left.
  predicate ClosedFrom(es: Exprs, v: nat) {
    match es
    case Nil => true
    case Cons(Var(New), tl) => ClosedFrom(tl, v + 1)
    case Cons(Var(Ref(i)), tl) => i < v && ClosedFrom(tl, v)
    case Cons(Sym(_), tl) => ClosedFrom(tl, v)
    case Cons(App(kids), tl) => ClosedFrom(kids, v) && ClosedFrom(tl, v + NewVars(kids))
  }

  // `es` is encoded in `b` from offset `i` on.
  ghost predicate At(b: seq<byte>, i: nat, es: Exprs) {
    WF(es) && i + |Enc(es)| <= |b| && b[i..i + |Enc(es)|] == Enc(es)
  }

  lemma AtUnique(b: seq<byte>, i: nat, es: Exprs, fs: Exprs)
    requires At(b, i, es) && At(b, i, fs) && Len(es) == Len(fs)
    ensures es == fs
  {
    hide Enc, WF;
    var x, y := b[i + |Enc(es)|..], b[i + |Enc(fs)|..];
    assert b[i..] == b[i..i + |Enc(es)|] + x;
    assert b[i..] == b[i..i + |Enc(fs)|] + y;
    PrefixFree(es, fs, x, y);
  }

  lemma AtSplit(b: seq<byte>, i: nat, x: seq<byte>, y: seq<byte>)
    requires i + |x| + |y| <= |b| && b[i..i + |x| + |y|] == x + y
    ensures b[i..i + |x|] == x && b[i + |x|..i + |x| + |y|] == y
  {
    var w := b[i..i + |x| + |y|];
    assert b[i..i + |x|] == w[..|x|];
    assert b[i + |x|..i + |x| + |y|] == w[|x|..];
  }

  // Reading one item of an encoded list of expressions.
  lemma AtStep(b: seq<byte>, i: nat, e: Expr, tl: Exprs)
    requires At(b, i, Cons(e, tl))
    ensures WF(One(e)) && i + ItemLen(e) <= |b|
    ensures b[i] == ItemByte(HeadTag(e)) && MaybeByteItem(b[i]) == Ok(HeadTag(e))
    ensures e.Sym? ==> b[i + 1..i + 1 + |e.s|] == e.s
    ensures At(b, i + ItemLen(e), Append(Children(e), tl))
    ensures EncLen(Cons(e, tl)) == ItemLen(e) + EncLen(Append(Children(e), tl))
  {
    hide Enc, EncLen, Append, WF, ItemBytes;
    EncStep(e, tl);
    var head := ItemBytes(e);
    AtSplit(b, i, head, Enc(Append(Children(e), tl)));
    ItemBytesHead(e);
    AtFirst(b, i, head);
  }

  lemma ItemBytesHead(e: Expr)
    requires WF(One(e))
    ensures |ItemBytes(e)| == ItemLen(e) && ItemBytes(e)[0] == ItemByte(HeadTag(e))
    ensures MaybeByteItem(ItemBytes(e)[0]) == Ok(HeadTag(e))
    ensures e.Sym? ==> ItemBytes(e)[1..] == e.s
  {
  }

  lemma AtFirst(b: seq<byte>, i: nat, x: seq<byte>)
    requires i + |x| <= |b| && b[i..i + |x|] == x && x != []
    ensures b[i] == x[0] && b[i + 1..i + |x|] == x[1..]
  {
    assert b[i] == b[i..i + |x|][0];
    assert b[i + 1..i + |x|] == b[i..i + |x|][1..];
  }

  // Skipping one whole expression of an encoded list.
  lemma AtSkip(b: seq<byte>, i: nat, e: Expr, tl: Exprs)
    requires At(b, i, Cons(e, tl))
    ensures At(b, i, One(e)) && At(b, i + EncLen(One(e)), tl)
    ensures EncLen(Cons(e, tl)) == EncLen(One(e)) + EncLen(tl)
    ensures i + EncLen(One(e)) <= |b|
  {
    hide Enc, EncLen, WF;
    EncCons(e, tl);
    EncHasEncLen(One(e));
    AtSplit(b, i, Enc(One(e)), Enc(tl));
  }
}
