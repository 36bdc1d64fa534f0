/** `RelExprEnv`: equality and hash of subexpressions as absolute terms. */
module RelEnvs {
  import opened Items
  import opened Slices
  import opened Terms
  import opened Encoding
  import opened Traversals
  import opened Wrappers
  import opened Envs

  // The state of the comparison: the verdict so far and the two variable counts. `stray` is set when
  // a byte is taken for an item that is none: a reserved byte, where `byte_item` panics, or a byte
  // past the end of the other buffer.
  datatype EqState = EqState(eq: bool, vs: int, vo: int, stray: bool)

  // The item at offset `o` of the other side, `b`.
  function Facing(b: seq<byte>, o: nat): Option<Tag> {
    if o < |b| && MaybeByteItem(b[o]).Ok? then Some(MaybeByteItem(b[o]).value) else None
  }

  function FacingSymbol(b: seq<byte>, o: nat, n: nat): Option<Symbol> {
    if o + 1 + n <= |b| then Some(b[o + 1..o + 1 + n]) else None
  }

  function EqNewVar(s: EqState, t: Option<Tag>): EqState {
    match t
    case None => EqState(false, s.vs + 1, s.vo, true)
    case Some(NewVar) => EqState(s.eq && s.vs == s.vo, s.vs + 1, s.vo + 1, s.stray)
    case Some(VarRef(j)) => EqState(s.eq && s.vs == j, s.vs + 1, s.vo, s.stray)
    case Some(_) => EqState(false, s.vs + 1, s.vo, s.stray)
  }

  function EqVarRef(s: EqState, t: Option<Tag>, r: nat): EqState {
    match t
    case None => EqState(false, s.vs, s.vo, true)
    case Some(NewVar) => EqState(s.eq && r == s.vo, s.vs, s.vo + 1, s.stray)
    case Some(VarRef(j)) => s.(eq := s.eq && r == j)
    case Some(_) => s.(eq := false)
  }

  function EqSymbol(s: EqState, t: Option<Tag>, y: Option<Symbol>, x: Symbol): EqState {
    if t.None? then EqState(false, s.vs, s.vo, true)
    else if !(s.eq && t.value == SymbolSize(|x|)) then s.(eq := false)
    else if y.None? then EqState(false, s.vs, s.vo, true)
    else s.(eq := y.value == x)
  }

  // The arity is compared as a byte, so no item is decoded.
  function EqArity(s: EqState, t: Option<Tag>, a: nat): EqState {
    s.(eq := s.eq && t == Some(Arity(a)))
  }

  function EqTraversal(b: seq<byte>): Traversal<EqState, (), ()> {
    Traversal(
      (s: EqState, o: nat) => (EqNewVar(s, Facing(b, o)), ()),
      (s: EqState, o: nat, r: nat) => (EqVarRef(s, Facing(b, o), r), ()),
      (s: EqState, o: nat, x: Symbol) => (EqSymbol(s, Facing(b, o), FacingSymbol(b, o, |x|), x), ()),
      (s: EqState, o: nat, a: nat) => (EqArity(s, Facing(b, o), a), ()),
      (s: EqState, _: nat, _: (), _: ()) => (s, ()),
      (s: EqState, _: nat, _: ()) => (s, ()))
  }

  // The comparison as a fold: over one expression, and over a list.
  function EqVisit(b: seq<byte>, s: EqState, o: nat, e: Expr): EqState {
    Visit(EqTraversal(b), true, s, o, e).0
  }

  function EqFold(b: seq<byte>, s: EqState, o: nat, es: Exprs): EqState {
    FoldAll(EqTraversal(b), true, s, o, (), es).0
  }

  lemma EqFoldCons(b: seq<byte>, s: EqState, o: nat, e: Expr, tl: Exprs)
    ensures EqFold(b, s, o, Cons(e, tl)) == EqFold(b, EqVisit(b, s, o, e), o + EncLen(One(e)), tl)
  {
    hide EncLen, Visit, Facing, FacingSymbol, EqNewVar, EqVarRef, EqSymbol, EqArity;
    var tr := EqTraversal(b);
    var (s1, r) := Visit(tr, true, s, o, e);
    assert tr.add(s1, o + EncLen(One(e)), (), r) == (s1, ());
  }

  lemma EqVisitIs(b: seq<byte>, s: EqState, o: nat, e: Expr)
    ensures EqVisit(b, s, o, e) == match e
      case Var(New) => EqNewVar(s, Facing(b, o))
      case Var(Ref(r)) => EqVarRef(s, Facing(b, o), r)
      case Sym(x) => EqSymbol(s, Facing(b, o), FacingSymbol(b, o, |x|), x)
      case App(kids) => EqFold(b, EqArity(s, Facing(b, o), Len(kids)), o + 1, kids)
    ensures EqFold(b, s, o, Nil) == s
  {
    hide Facing, FacingSymbol, EqNewVar, EqVarRef, EqSymbol, EqArity;
  }

  // Once unequal, always unequal.
  lemma {:induction false} EqStaysFalse(b: seq<byte>, s: EqState, o: nat, es: Exprs)
    requires !s.eq
    ensures !EqFold(b, s, o, es).eq
    decreases es
  {
    match es
    case Nil => EqVisitIs(b, s, o, Var(New));
    case Cons(e, tl) =>
      EqFoldCons(b, s, o, e, tl);
      EqVisitIs(b, s, o, e);
      if e.App? {
        EqStaysFalse(b, EqArity(s, Facing(b, o), Len(e.args)), o + 1, e.args);
      }
      EqStaysFalse(b, EqVisit(b, s, o, e), o + EncLen(One(e)), tl);
  }

  // `out` is the right outcome of comparing `es` from count `vs` with `fs` from count `vo`.
  ghost predicate EqRight(s: EqState, out: EqState, es: Exprs, fs: Exprs)
    requires s.vs >= 0 && s.vo >= 0
  {
    && (out.eq <==> Abs(es, 0, s.vs) == Abs(fs, 0, s.vo))
    && (out.eq ==> out == EqState(true, s.vs + NewVars(es), s.vo + NewVars(fs), s.stray) && EncLen(es) == EncLen(fs))
  }

  // The comparison of two lists of the same length decides equality of the absolute terms.
  lemma {:induction false} EqDecides(b: seq<byte>, s: EqState, o: nat, es: Exprs, fs: Exprs)
    requires s.eq && s.vs >= 0 && s.vo >= 0
    requires WF(es) && Len(es) == Len(fs) && At(b, o, fs)
    ensures EqRight(s, EqFold(b, s, o, es), es, fs)
    decreases es
  {
    hide At, Enc, Facing, FacingSymbol, Abs, NewVars, EncLen, EqFold, EqVisit, WF, MaybeByteItem, Append;
    match es
    case Nil =>
      EqVisitIs(b, s, o, Var(New));
      EqNothing(s);
    case Cons(e, tl) =>
      var f, ul := fs.head, fs.tail;
      WFCons(e, tl);
      EqFoldCons(b, s, o, e, tl);
      AbsCons(e, tl, 0, s.vs);
      AbsCons(f, ul, 0, s.vo);
      EncLenCons(e, tl);
      EncLenCons(f, ul);
      AtSkip(b, o, f, ul);
      var s1 := EqVisit(b, s, o, e);
      EqDecidesOne(b, s, o, e, f) by {
        if e.App? && f.App? && Len(e.args) == Len(f.args) {
          AtStep(b, o, f, Nil);
          AppendNil(f.args);
          EqDecides(b, s, o + 1, e.args, f.args);
        }
      }
      if s1.eq {
        EqDecides(b, s1, o + EncLen(One(e)), tl, ul);
      } else {
        EqStaysFalse(b, s1, o + EncLen(One(e)), tl);
      }
  }

  lemma EqNothing(s: EqState)
    requires s.eq && s.vs >= 0 && s.vo >= 0
    ensures EqRight(s, s, Nil, Nil)
  {
  }

  lemma EqDecidesOne(b: seq<byte>, s: EqState, o: nat, e: Expr, f: Expr)
    requires s.eq && s.vs >= 0 && s.vo >= 0 && WF(One(e)) && At(b, o, One(f))
    requires e.App? && f.App? && Len(e.args) == Len(f.args) ==>
      EqRight(s, EqFold(b, s, o + 1, e.args), e.args, f.args)
    ensures EqRight(s, EqVisit(b, s, o, e), One(e), One(f))
  {
    hide At, Enc, EqFold, EqVisit, MaybeByteItem, Abs, NewVars, EncLen, WF;
    EqVisitIs(b, s, o, e);
    AtStep(b, o, f, Nil);
    OneFacts(e, 0, s.vs);
    OneFacts(f, 0, s.vo);
    assert Facing(b, o) == Some(HeadTag(f));
    match e
    case Var(_) =>
    case Sym(x) =>
      if f.Sym? && |f.s| == |x| {
        assert FacingSymbol(b, o, |x|) == Some(f.s);
      }
    case App(kids) =>
      AbsLen(kids, 0, s.vs);
      if f.App? {
        AbsLen(f.args, 0, s.vo);
      }
      if !(f.App? && Len(kids) == Len(f.args)) {
        EqStaysFalse(b, EqArity(s, Facing(b, o), Len(kids)), o + 1, kids);
      }
  }

  /* ---- When the comparison strays ---- */

  // Some item of `es` other than an arity stands, counted from offset `o` of `b`, where no item does.
  predicate Faces(b: seq<byte>, o: nat, es: Exprs)
    decreases es
  {
    match es
    case Nil => false
    case Cons(App(kids), tl) => Faces(b, o + 1, kids) || Faces(b, o + 1 + EncLen(kids), tl)
    case Cons(Sym(x), tl) => Facing(b, o).None? || Faces(b, o + 1 + |x|, tl)
    case Cons(Var(_), tl) => Facing(b, o).None? || Faces(b, o + 1, tl)
  }

  lemma FacesCons(b: seq<byte>, o: nat, e: Expr, tl: Exprs)
    ensures Faces(b, o, Cons(e, tl)) <==> Faces(b, o, One(e)) || Faces(b, o + EncLen(One(e)), tl)
    ensures Faces(b, o, One(e)) <==> if e.App? then Faces(b, o + 1, e.args) else Facing(b, o).None?
    ensures !Faces(b, o, Nil)
  {
    hide Facing;
  }

  // After the first mismatch the comparison walks on, item by item.
  lemma {:induction false} StraysUnequal(b: seq<byte>, s: EqState, o: nat, es: Exprs)
    requires !s.eq
    ensures EqFold(b, s, o, es).stray <==> Faces(b, o, es) || s.stray
    decreases es
  {
    hide EqFold, EqVisit, EncLen, Facing, FacingSymbol, Faces;
    match es
    case Nil =>
      EqVisitIs(b, s, o, Var(New));
      FacesCons(b, o, Var(New), Nil);
    case Cons(e, tl) =>
      EqFoldCons(b, s, o, e, tl);
      FacesCons(b, o, e, tl);
      EqVisitIs(b, s, o, e);
      var s1 := EqVisit(b, s, o, e);
      if e.App? {
        StraysUnequal(b, EqArity(s, Facing(b, o), Len(e.args)), o + 1, e.args);
        EqStaysFalse(b, EqArity(s, Facing(b, o), Len(e.args)), o + 1, e.args);
      }
      StraysUnequal(b, s1, o + EncLen(One(e)), tl);
  }

  // The comparison strays exactly when some item of the left side faces no item of the right.
  lemma {:induction false} EqStrays(b: seq<byte>, s: EqState, o: nat, es: Exprs, fs: Exprs)
    requires s.eq && s.vs >= 0 && s.vo >= 0
    requires WF(es) && Len(es) == Len(fs) && At(b, o, fs)
    ensures EqFold(b, s, o, es).stray <==> Faces(b, o, es) || s.stray
    decreases es
  {
    hide At, Enc, Facing, FacingSymbol, Abs, NewVars, EncLen, EqFold, EqVisit, WF, MaybeByteItem, Append, Faces;
    match es
    case Nil =>
      EqVisitIs(b, s, o, Var(New));
      FacesCons(b, o, Var(New), Nil);
    case Cons(e, tl) =>
      var f, ul := fs.head, fs.tail;
      WFCons(e, tl);
      EqFoldCons(b, s, o, e, tl);
      FacesCons(b, o, e, tl);
      AtSkip(b, o, f, ul);
      EqDecides(b, s, o, One(e), One(f));
      EqFoldOne(b, s, o, e);
      EqStraysOne(b, s, o, e, f) by {
        if e.App? && f.App? && Len(e.args) == Len(f.args) {
          AtStep(b, o, f, Nil);
          AppendNil(f.args);
          EqStrays(b, s, o + 1, e.args, f.args);
        }
      }
      var s1 := EqVisit(b, s, o, e);
      if s1.eq {
        EqStrays(b, s1, o + EncLen(One(e)), tl, ul);
      } else {
        StraysUnequal(b, s1, o + EncLen(One(e)), tl);
      }
  }

  lemma EqFoldOne(b: seq<byte>, s: EqState, o: nat, e: Expr)
    ensures EqFold(b, s, o, One(e)) == EqVisit(b, s, o, e)
  {
    EqFoldCons(b, s, o, e, Nil);
    EqVisitIs(b, EqVisit(b, s, o, e), o + EncLen(One(e)), e);
  }

  lemma EqStraysOne(b: seq<byte>, s: EqState, o: nat, e: Expr, f: Expr)
    requires s.eq && WF(One(e)) && At(b, o, One(f))
    requires e.App? && f.App? && Len(e.args) == Len(f.args) ==>
      (EqFold(b, s, o + 1, e.args).stray <==> Faces(b, o + 1, e.args) || s.stray)
    ensures EqVisit(b, s, o, e).stray <==> Faces(b, o, One(e)) || s.stray
  {
    hide At, Enc, EqFold, EqVisit, MaybeByteItem, EncLen, WF, Faces;
    EqVisitIs(b, s, o, e);
    FacesCons(b, o, e, Nil);
    AtStep(b, o, f, Nil);
    assert Facing(b, o) == Some(HeadTag(f));
    if e.Sym? && f.Sym? && |f.s| == |e.s| {
      assert FacingSymbol(b, o, |e.s|) == Some(f.s);
    }
    if e.App? && !(f.App? && Len(e.args) == Len(f.args)) {
      StraysUnequal(b, EqArity(s, Facing(b, o), Len(e.args)), o + 1, e.args);
    }
  }

  // Comparing `x` with `y` meets a byte that is no item.
  ghost predicate Strays(x: ExprEnv, y: ExprEnv)
    requires ValidEnv(x) && ValidEnv(y)
  {
    SubexprAt(y);
    Faces(y.Subexpr(), 0, One(ExprOf(x)))
  }

  // Equal terms never stray.
  lemma EqualNeverStrays(x: ExprEnv, y: ExprEnv)
    requires ValidEnv(x) && ValidEnv(y)
    requires Abs1(ExprOf(x), 0, x.v) == Abs1(ExprOf(y), 0, y.v)
    ensures !Strays(x, y)
  {
    EqWhole(x, y);
  }

  // `RelExprEnv::eq`. None when the comparison strays.
  method RelEq(x: ExprEnv, y: ExprEnv) returns (r: Option<bool>)
    requires ValidEnv(x) && ValidEnv(y)
    ensures r == None <==> Strays(x, y)
    ensures r == Some(true) <==> Abs1(ExprOf(x), 0, x.v) == Abs1(ExprOf(y), 0, y.v)
  {
    SubexprAt(x);
    SubexprAt(y);
    var j, s, _ := ExecuteLoop(EqTraversal(y.Subexpr()), EqState(true, x.v, y.v, false), x.Subexpr(), 0, ExprOf(x));
    EqWhole(x, y);
    r := if s.stray then None else Some(s.eq);
  }

  lemma EqWhole(x: ExprEnv, y: ExprEnv)
    requires ValidEnv(x) && ValidEnv(y)
    requires x.offset <= |x.base.bytes| && y.offset <= |y.base.bytes|
    ensures var s := EqVisit(y.Subexpr(), EqState(true, x.v, y.v, false), 0, ExprOf(x));
            && (s.eq <==> Abs1(ExprOf(x), 0, x.v) == Abs1(ExprOf(y), 0, y.v))
            && (s.stray <==> Strays(x, y))
            && (s.eq ==> !s.stray)
  {
    hide EqVisit, EqFold, Abs, At, Enc, WF, EncLen, Faces;
    var e, f := ExprOf(x), ExprOf(y);
    SubexprAt(x);
    SubexprAt(y);
    var s0 := EqState(true, x.v, y.v, false);
    EqFoldOne(y.Subexpr(), s0, 0, e);
    EqDecides(y.Subexpr(), s0, 0, One(e), One(f));
    EqStrays(y.Subexpr(), s0, 0, One(e), One(f));
    AbsCons(e, Nil, 0, x.v);
    AbsCons(f, Nil, 0, y.v);
  }

  // An instance: `(x $)` against any `(ab ...)`, whose fourth byte is the letter b.
  lemma EqCanStray(b: seq<byte>)
    requires |b| >= 4 && b[..4] == [ItemByte(Arity(2)), ItemByte(SymbolSize(2)), 97, 98]
    ensures Faces(b, 0, One(App(Cons(Sym([120]), Cons(Var(New), Nil)))))
  {
    assert b[3] == b[..4][3];
  }

  /* ---- The hash ---- */

  // The writes to the hasher; a symbol's bytes are one write.
  datatype Write = Byte(b: int) | Bytes(s: Symbol)

  function HashTraversal(): Traversal<(int, seq<Write>), (), ()> {
    Traversal(
      (s: (int, seq<Write>), _: nat) => ((s.0 + 1, s.1 + [Byte(0), Byte(s.0)]), ()),
      (s: (int, seq<Write>), _: nat, r: nat) => ((s.0, s.1 + [Byte(0), Byte(r)]), ()),
      (s: (int, seq<Write>), _: nat, x: Symbol) => ((s.0, s.1 + [Byte(1), Bytes(x)]), ()),
      (s: (int, seq<Write>), _: nat, a: nat) => ((s.0, s.1 + [Byte(2), Byte(a)]), ()),
      (s: (int, seq<Write>), _: nat, _: (), _: ()) => (s, ()),
      (s: (int, seq<Write>), _: nat, _: ()) => (s, ()))
  }

  // The same writes, read off the absolute term.
  function HashWrites(ts: AbsTerms): seq<Write> {
    match ts
    case Nil => []
    case Cons(Var(x), tl) => [Byte(0), Byte(x.1)] + HashWrites(tl)
    case Cons(Sym(s), tl) => [Byte(1), Bytes(s)] + HashWrites(tl)
    case Cons(App(kids), tl) => [Byte(2), Byte(Len(kids))] + HashWrites(kids) + HashWrites(tl)
  }

  function HashFold(s: (int, seq<Write>), o: nat, es: Exprs): (int, seq<Write>) {
    FoldAll(HashTraversal(), true, s, o, (), es).0
  }

  function HashVisit(s: (int, seq<Write>), o: nat, e: Expr): (int, seq<Write>) {
    Visit(HashTraversal(), true, s, o, e).0
  }

  lemma HashFoldCons(s: (int, seq<Write>), o: nat, e: Expr, tl: Exprs)
    ensures HashFold(s, o, Cons(e, tl)) == HashFold(HashVisit(s, o, e), o + EncLen(One(e)), tl)
    ensures HashFold(s, o, Nil) == s
  {
    hide EncLen, Visit;
    var (s1, r) := Visit(HashTraversal(), true, s, o, e);
    assert HashTraversal().add(s1, o + EncLen(One(e)), (), r) == (s1, ());
  }

  lemma HashVisitIs(s: (int, seq<Write>), o: nat, e: Expr)
    ensures HashVisit(s, o, e) == match e
      case Var(New) => (s.0 + 1, s.1 + [Byte(0), Byte(s.0)])
      case Var(Ref(r)) => (s.0, s.1 + [Byte(0), Byte(r)])
      case Sym(x) => (s.0, s.1 + [Byte(1), Bytes(x)])
      case App(kids) => HashFold((s.0, s.1 + [Byte(2), Byte(Len(kids))]), o + 1, kids)
  {
  }

  lemma HashWritesCons(t: AbsTerm, tl: AbsTerms)
    ensures HashWrites(Cons(t, tl)) == HashWrites(One(t)) + HashWrites(tl)
    ensures t.App? ==> HashWrites(One(t)) == [Byte(2), Byte(Len(t.args))] + HashWrites(t.args)
  {
    assert HashWrites(Nil) == [];
    if t.App? {
      assert HashWrites(One(t)) == [Byte(2), Byte(Len(t.args))] + HashWrites(t.args) + [];
    }
  }

  lemma {:induction false} HashFoldWrites(s: (int, seq<Write>), o: nat, es: Exprs, n: nat)
    requires s.0 >= 0
    ensures HashFold(s, o, es) == (s.0 + NewVars(es), s.1 + HashWrites(Abs(es, n, s.0)))
    decreases es
  {
    hide HashFold, HashVisit, EncLen, Abs, NewVars, HashWrites;
    match es
    case Nil =>
      HashFoldCons(s, o, Var(New), Nil);
      HashNothing(s, n);
    case Cons(e, tl) =>
      HashFoldCons(s, o, e, tl);
      AbsCons(e, tl, n, s.0);
      HashWritesCons(Abs1(e, n, s.0), Abs(tl, n, s.0 + NewVars(One(e))));
      var s1 := HashVisit(s, o, e);
      if e.App? {
        HashFoldWrites((s.0, s.1 + [Byte(2), Byte(Len(e.args))]), o + 1, e.args, n);
      }
      HashVisitWrites(s, o, e, n);
      HashFoldWrites(s1, o + EncLen(One(e)), tl, n);
      Assoc(s.1, HashWrites(One(Abs1(e, n, s.0))), HashWrites(Abs(tl, n, s1.0)));
  }

  lemma HashNothing(s: (int, seq<Write>), n: nat)
    requires s.0 >= 0
    ensures s == (s.0 + NewVars(Nil), s.1 + HashWrites(Abs(Nil, n, s.0)))
  {
    assert s.1 + [] == s.1;
  }

  lemma HashVisitWrites(s: (int, seq<Write>), o: nat, e: Expr, n: nat)
    requires s.0 >= 0
    requires e.App? ==>
      var s0 := (s.0, s.1 + [Byte(2), Byte(Len(e.args))]);
      HashFold(s0, o + 1, e.args) == (s.0 + NewVars(e.args), s0.1 + HashWrites(Abs(e.args, n, s.0)))
    ensures HashVisit(s, o, e) == (s.0 + NewVars(One(e)), s.1 + HashWrites(One(Abs1(e, n, s.0))))
  {
    HashVisitIs(s, o, e);
    OneFacts(e, n, s.0);
    if e.App? {
      AbsLen(e.args, n, s.0);
      HashWritesCons(Abs1(e, n, s.0), Nil);
      Assoc(s.1, [Byte(2), Byte(Len(e.args))], HashWrites(Abs(e.args, n, s.0)));
    } else {
      HashWritesLeaf(Abs1(e, n, s.0));
    }
  }

  lemma HashWritesLeaf(t: AbsTerm)
    ensures t.Var? ==> HashWrites(One(t)) == [Byte(0), Byte(t.x.1)]
    ensures t.Sym? ==> HashWrites(One(t)) == [Byte(1), Bytes(t.s)]
  {
    assert HashWrites(Nil) == [];
  }

  // The hash is a function of the absolute term, so equal keys have equal hashes.
  method HashOf(x: ExprEnv) returns (writes: seq<Write>)
    requires ValidEnv(x)
    ensures writes == HashWrites(One(Abs1(ExprOf(x), 0, x.v)))
  {
    SubexprAt(x);
    var j, s, _ := ExecuteLoop(HashTraversal(), (x.v, []), x.Subexpr(), 0, ExprOf(x));
    ghost var e := ExprOf(x);
    HashFoldCons((x.v, []), 0, e, Nil);
    HashFoldCons(HashVisit((x.v, []), 0, e), EncLen(One(e)), e, Nil);
    HashFoldWrites((x.v, []), 0, One(e), 0);
    AbsCons(e, Nil, 0, x.v);
    writes := s.1;
  }

  // Conversely, the writes give the terms back: unequal keys of equal hash are the hasher's doing.
  lemma {:induction false} HashInjective(ts: AbsTerms, us: AbsTerms, x: seq<Write>, y: seq<Write>)
    requires Len(ts) == Len(us) && HashWrites(ts) + x == HashWrites(us) + y
    requires InSpace0(ts) && InSpace0(us)
    ensures ts == us && x == y
    decreases ts
  {
    hide HashWrites, InSpace0;
    match ts
    case Nil =>
      HashWritesNil();
      assert [] + x == x && [] + y == y;
    case Cons(t, tl) =>
      var u, ul := us.head, us.tail;
      var p, q := HashWrites(tl) + x, HashWrites(ul) + y;
      HashWritesCons(t, tl);
      HashWritesCons(u, ul);
      Assoc(HashWrites(One(t)), HashWrites(tl), x);
      Assoc(HashWrites(One(u)), HashWrites(ul), y);
      InSpace0Cons(t, tl);
      InSpace0Cons(u, ul);
      HashHead(t, u, p, q);
      if t.App? {
        HashInjective(t.args, u.args, p, q);
      }
      HashInjective(tl, ul, x, y);
  }

  predicate InSpace0(ts: AbsTerms) {
    match ts
    case Nil => true
    case Cons(Var(x), tl) => x.0 == 0 && InSpace0(tl)
    case Cons(Sym(_), tl) => InSpace0(tl)
    case Cons(App(kids), tl) => InSpace0(kids) && InSpace0(tl)
  }

  lemma InSpace0Cons(t: AbsTerm, tl: AbsTerms)
    ensures InSpace0(Cons(t, tl)) <==> InSpace0(One(t)) && InSpace0(tl)
    ensures InSpace0(One(t)) && t.App? ==> InSpace0(t.args)
    ensures InSpace0(One(t)) && t.Var? ==> t.x.0 == 0
  {
  }

  lemma AbsInSpace0(es: Exprs, v: nat)
    ensures InSpace0(Abs(es, 0, v))
  {
  }

  lemma HashWritesNil()
    ensures HashWrites(Nil) == []
  {
  }

  lemma HashHead(t: AbsTerm, u: AbsTerm, p: seq<Write>, q: seq<Write>)
    requires InSpace0(One(t)) && InSpace0(One(u))
    requires HashWrites(One(t)) + p == HashWrites(One(u)) + q
    ensures !t.App? ==> t == u && p == q
    ensures t.App? ==> u.App? && Len(t.args) == Len(u.args) && HashWrites(t.args) + p == HashWrites(u.args) + q
  {
    HashWritesCons(t, Nil);
    HashWritesCons(u, Nil);
    HashWritesLeaf(t);
    HashWritesLeaf(u);
    var a, b := HashWrites(One(t)) + p, HashWrites(One(u)) + q;
    assert a[0] == HashWrites(One(t))[0] && b[0] == HashWrites(One(u))[0];
    assert a[1] == HashWrites(One(t))[1] && b[1] == HashWrites(One(u))[1];
    assert a[2..] == HashWrites(One(t))[2..] + p && b[2..] == HashWrites(One(u))[2..] + q;
    if !t.App? {
      assert a[2..] == p && b[2..] == q;
    } else {
      assert HashWrites(One(t))[2..] == HashWrites(t.args) && HashWrites(One(u))[2..] == HashWrites(u.args);
    }
  }

  lemma AbsNil(v: nat, n: nat)
    ensures Abs(Nil, 0, v) == Nil && Abs(Nil, n, v) == Nil
  {
  }

  // Comparing in space 0 is comparing in any space.
  lemma {:induction false} SpaceIrrelevant(es: Exprs, v: nat, fs: Exprs, w: nat, n: nat)
    ensures Abs(es, 0, v) == Abs(fs, 0, w) <==> Abs(es, n, v) == Abs(fs, n, w)
    decreases es
  {
    hide Abs, NewVars, EncLen;
    AbsNil(v, n);
    AbsNil(w, n);
    if es.Cons? && fs.Nil? {
      AbsCons(es.head, es.tail, 0, v);
      AbsCons(es.head, es.tail, n, v);
    }
    if es.Nil? && fs.Cons? {
      AbsCons(fs.head, fs.tail, 0, w);
      AbsCons(fs.head, fs.tail, n, w);
    }
    if es.Cons? && fs.Cons? {
      var e, f := es.head, fs.head;
      AbsCons(e, es.tail, 0, v);
      AbsCons(f, fs.tail, 0, w);
      AbsCons(e, es.tail, n, v);
      AbsCons(f, fs.tail, n, w);
      SpaceIrrelevant(es.tail, v + NewVars(One(e)), fs.tail, w + NewVars(One(f)), n);
      OneFacts(e, 0, v);
      OneFacts(f, 0, w);
      OneFacts(e, n, v);
      OneFacts(f, n, w);
      if e.App? && f.App? {
        SpaceIrrelevant(e.args, v, f.args, w, n);
      }
    }
  }
}
