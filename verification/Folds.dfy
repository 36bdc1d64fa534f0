/** Generalising and unifying many expressions one after the other. */
module Folds {
  import opened Items
  import opened Terms
  import opened Encoding
  import opened Wrappers
  import opened Trees
  import opened Solutions
  import opened MostGeneral
  import opened Numbering
  import opened Rendering
  import opened Variants
  import opened Generalisation
  import opened Envs
  import opened Memos
  import opened RelEnvs
  import opened AntiUnification
  import opened ExprUnification

  // The term of a closed expression. Its variable space does not matter to what it is an instance of.
  ghost function TermOf(e: Expr): AbsTerm {
    Side(e, 0)
  }

  ghost predicate Closed(e: Expr) {
    WF(One(e)) && ClosedFrom(One(e), 0) && NewVars(One(e)) <= MAX_LEVEL
  }

  function ToSpace(m: nat): Substitution {
    (x: ExprVar) => Var((m, x.1))
  }

  lemma {:induction false} AbsToSpace(es: Exprs, n: nat, m: nat, v: nat)
    ensures Subst(ToSpace(m), Abs(es, n, v)) == Abs(es, m, v)
    decreases es
  {
    match es
    case Nil =>
    case Cons(e, tl) =>
      AbsCons(e, tl, n, v);
      AbsCons(e, tl, m, v);
      OneFacts(e, n, v);
      OneFacts(e, m, v);
      AbsToSpace(tl, n, m, v + NewVars(One(e)));
      if e.App? {
        AbsToSpace(e.args, n, m, v);
      }
  }

  lemma SideVariant(e: Expr, n: nat, m: nat)
    ensures Instance(Side(e, n), Side(e, m))
  {
    AbsToSpace(One(e), n, m, 0);
    AbsCons(e, Nil, n, 0);
    AbsCons(e, Nil, m, 0);
    assert Subst1(ToSpace(m), Side(e, n)) == Side(e, m);
  }

  // A closed expression is its own numbering.
  lemma ClosedEncodes(e: Expr, n: nat)
    requires Closed(e)
    ensures Number(One(Side(e, n)), []) == One(e)
    ensures Encodes(Enc(One(e)), Side(e, n))
  {
    AbsCons(e, Nil, n, 0);
    NumberCanonical(One(e), n, 0, []);
  }

  /* ---- Generalisations of many ---- */

  ghost predicate Generalises(g: AbsTerm, seen: seq<Expr>) {
    forall e | e in seen :: Instance(g, TermOf(e))
  }

  // `g` is a least general generalisation of everything seen.
  ghost predicate IsLggOf(g: AbsTerm, seen: seq<Expr>) {
    && Generalises(g, seen)
    && forall h: AbsTerm | Generalises(h, seen) :: Instance(h, g)
  }

  // The generalisation depends only on what was seen, not on the order or the repetitions.
  lemma LggOrderIrrelevant(g: AbsTerm, h: AbsTerm, s: seq<Expr>, t: seq<Expr>, a: seq<byte>, b: seq<byte>)
    requires forall e :: e in s <==> e in t
    requires IsLggOf(g, s) && IsLggOf(h, t) && Encodes(a, g) && Encodes(b, h)
    ensures a == b
  {
    assert Generalises(g, t) && Generalises(h, s);
    VariantsNumber(g, h);
  }

  lemma LggOfOne(e: Expr)
    ensures IsLggOf(TermOf(e), [e])
  {
    SideVariant(e, 0, 0);
    forall h: AbsTerm | Generalises(h, [e])
      ensures Instance(h, TermOf(e))
    {
      assert e in [e];
    }
  }

  // Generalising the generalisation of `seen` with one more expression.
  lemma LggStep(acc: Expr, seen: seq<Expr>, e: Expr, g: AbsTerm)
    requires IsLggOf(TermOf(acc), seen)
    requires IsLgg(g, Side(acc, 0), Side(e, 1))
    ensures IsLggOf(g, seen + [e])
  {
    SideVariant(e, 0, 1);
    SideVariant(e, 1, 0);
    forall x | x in seen + [e]
      ensures Instance(g, TermOf(x))
    {
      if x in seen {
        InstanceTrans(g, TermOf(acc), TermOf(x));
      } else {
        InstanceTrans(g, Side(e, 1), TermOf(e));
      }
    }
    forall h: AbsTerm | Generalises(h, seen + [e])
      ensures Instance(h, g)
    {
      assert forall x | x in seen :: x in seen + [e];
      assert Generalises(h, seen);
      assert e in seen + [e];
      InstanceTrans(h, TermOf(e), Side(e, 1));
    }
  }

  // Whatever generalises `seen` least needs no more variables than references can name.
  ghost predicate Fits(seen: seq<Expr>) {
    forall g: AbsTerm | IsLggOf(g, seen) :: NewVars(Number(One(g), [])) <= 64
  }

  // Generalising `s` one expression after the other never needs too many variables.
  ghost predicate AuCompletes(s: seq<Expr>) {
    forall k | 2 <= k <= |s| :: Fits(s[..k])
  }

  // All least general generalisations have the same number of variables.
  lemma FitsDecided(seen: seq<Expr>, g: AbsTerm)
    requires IsLggOf(g, seen)
    ensures Fits(seen) <==> NewVars(Number(One(g), [])) <= 64
  {
    forall h: AbsTerm | IsLggOf(h, seen)
      ensures Number(One(h), []) == Number(One(g), [])
    {
      VariantsNumber(g, h);
    }
  }

  lemma FitsClosed(seen: seq<Expr>, e: Expr)
    requires ClosedFrom(One(e), 0) && IsLggOf(TermOf(e), seen)
    ensures Fits(seen) <==> NewVars(One(e)) <= 64
  {
    AbsCons(e, Nil, 0, 0);
    NumberCanonical(One(e), 0, 0, []);
    FitsDecided(seen, TermOf(e));
  }

  // Generalising with one more expression fits exactly when the generalisation of all does.
  lemma FitsStep(acc: Expr, seen: seq<Expr>, e: Expr)
    requires IsLggOf(TermOf(acc), seen)
    ensures Fits(seen + [e]) <==> NewVars(One(GenExpr(Side(acc, 0), Side(e, 1)))) <= 64
    ensures Fits(seen + [e]) <==> |Assigned(One(Gen1(Side(acc, 0), Side(e, 1))), [])| <= 64
  {
    var l, r := Side(acc, 0), Side(e, 1);
    GenExprIs(l, r, 0);
    LggStep(acc, seen, e, TermOf(GenExpr(l, r)));
    FitsClosed(seen + [e], GenExpr(l, r));
  }

  lemma TooManyStep(acc: Expr, seen: seq<Expr>, e: Expr)
    requires IsLggOf(TermOf(acc), seen)
    requires forall g: AbsTerm | IsLgg(g, Side(acc, 0), Side(e, 1)) :: NewVars(Number(One(g), [])) > 64
    ensures !Fits(seen + [e])
  {
    var l, r := Side(acc, 0), Side(e, 1);
    GenExprIs(l, r, 0);
    LggStep(acc, seen, e, TermOf(GenExpr(l, r)));
    assert IsLgg(TermOf(GenExpr(l, r)), l, r);
  }

  datatype AuOutput = AuOutput(bytes: seq<byte>, left: map<nat, ExprEnv>, right: map<nat, ExprEnv>)

  // What `anti_unify` of the terms `l` and `r` promises: the bytes of their least general
  // generalisation, and for each of its variables the subterms it stands for on either side.
  ghost predicate AntiUnifies(o: AuOutput, l: AbsTerm, r: AbsTerm) {
    exists e: Expr ::
      && Closed(e) && o.bytes == Enc(One(e)) && NewVars(One(e)) <= 64
      && IsLgg(TermOf(e), l, r)
      && (forall i :: i in o.left <==> 0 <= i < NewVars(One(e)))
      && (forall i :: i in o.right <==> 0 <= i < NewVars(One(e)))
      && (forall i | i in o.left :: ValidEnv(o.left[i])) && (forall i | i in o.right :: ValidEnv(o.right[i]))
      && Subst1(Recorded1(o.left), TermOf(e)) == l
      && Subst1(Recorded1(o.right), TermOf(e)) == r
  }

  ghost function Recorded1(m: map<nat, ExprEnv>): Substitution
    requires forall i | i in m :: ValidEnv(m[i])
  {
    (x: ExprVar) => if x.1 in m then Den(m[x.1]) else Var(x)
  }

  // How the memo's hash table answers for the disagreements of two inputs: None when no comparison
  // strays and 64 variables suffice.
  ghost function MemoFailure(table: Table, self: Buffer, other: Buffer, l: Expr, r: Expr): Option<AuError>
    requires Holds(self, l) && Holds(other, r)
  {
    InputSides(self, other, l, r);
    match Settled(table, Inputs(self, other))
    case Ok(_) => None
    case Err(f) => Some(f)
  }

  function Inputs(self: Buffer, other: Buffer): EnvPair {
    (ExprEnv(0, 0, 0, self), ExprEnv(1, 0, 0, other))
  }

  lemma InputSides(self: Buffer, other: Buffer, l: Expr, r: Expr)
    requires Holds(self, l) && Holds(other, r)
    ensures var q := Inputs(self, other);
      Sides(q) && ExprOf(q.0) == l && ExprOf(q.1) == r && DenPair(q) == (Side(l, 0), Side(r, 1))
  {
    EnvIsDen(Inputs(self, other).0, l);
    EnvIsDen(Inputs(self, other).1, r);
  }

  // `Expr::anti_unify`, writing into an empty buffer. The memo is a new hash table.
  method AntiUnify(self: Buffer, other: Buffer, ghost l: Expr, ghost r: Expr, table: Table, limit: Option<nat>)
      returns (result: Result<AuOutput, AuError>)
    requires Holds(self, l) && Holds(other, r) && table.Valid()
    ensures match result
            case Ok(o) => AntiUnifies(o, Side(l, 0), Side(r, 1)) && |o.bytes| <= EncLen(One(l)) && |o.bytes| <= EncLen(One(r))
            case Err(TooManyVars) =>
              forall g: AbsTerm | IsLgg(g, Side(l, 0), Side(r, 1)) :: NewVars(Number(One(g), [])) > 64
            case Err(MaxDepth(_)) => limit.Some? && PilesUp(One(Gen1(Side(l, 0), Side(r, 1))), 0, limit.value)
                && limit.value < EncLen(One(l)) && limit.value < EncLen(One(r))
            case Err(Strayed) => MemoFailure(table, self, other, l, r) == Some(Strayed)
    ensures result.Ok? ==> MemoFailure(table, self, other, l, r) == None
    ensures result.Ok? && limit.Some? ==> !PilesUp(One(Gen1(Side(l, 0), Side(r, 1))), 0, limit.value)
    ensures result == Err(TooManyVars) ==> MemoFailure(table, self, other, l, r) == Some(TooManyVars)
  {
    hide At, Enc, WF, Abs, NewVars, Number, Assigned, Render, ClosedFrom, IsLgg, Den, Settled, PilesUp, EncLen;
    InputSides(self, other, l, r);
    var au := new AntiUnifier([], table);
    MetNothing();
    var q := Inputs(self, other);
    var failure := au.Run(q.0, q.1, limit);
    GenLength(l, r);
    if failure.Some? {
      if failure.value.TooManyVars? {
        TooManyForAll(Side(l, 0), Side(r, 1));
      }
      if failure.value.MaxDepth? {
        PilesUpBound(One(Gen1(Side(l, 0), Side(r, 1))), 0, limit.value);
      }
      return Err(failure.value);
    }
    var o := AuOutput(au.out, au.left, au.right);
    AntiUnifiedOutput(Side(l, 0), Side(r, 1), au.State(), au.memo, o);
    GenShort(l, r, o.bytes, au.State());
    result := Ok(o);
  }

  // Some hash table makes `anti_unify` stray exactly when some disagreement strays off one remembered
  // before it.
  lemma AntiUnifyStrays(self: Buffer, other: Buffer, l: Expr, r: Expr)
    requires Holds(self, l) && Holds(other, r)
    ensures Sides(Inputs(self, other)) && forall q | q in ClashesOf(Inputs(self, other)) :: Sides(q)
    ensures (exists t: Table :: t.Valid() && MemoFailure(t, self, other, l, r) == Some(Strayed))
       <==> (exists j: nat, k: nat :: j < |ClashesOf(Inputs(self, other))| && StraysAt([], ClashesOf(Inputs(self, other)), j, k))
  {
    hide ClashesOf, StraysAt, Settle;
    InputSides(self, other, l, r);
    var q := Inputs(self, other);
    ClashesOfSides(q);
    MetNothing();
    StrayPossible(ClashesOf(q));
    forall t: Table
      ensures MemoFailure(t, self, other, l, r) == Some(Strayed) <==> Settle(t, [], ClashesOf(q)) == Err(Strayed)
    {
    }
  }

  // The subexpression `(ab c)` has the letter b at its fourth byte.
  lemma LetterMet(x: ExprEnv, ab: Symbol, c: Symbol)
    requires ab == [97, 98] && EnvIs(x, App(Cons(Sym(ab), One(Sym(c)))))
    ensures x.offset <= |x.base.bytes| && |x.Subexpr()| >= 4
    ensures x.Subexpr()[..4] == [ItemByte(Arity(2)), ItemByte(SymbolSize(2)), 97, 98]
  {
    hide At, Enc, WF, ValidEnv, MaybeByteItem;
    var e: Expr := App(Cons(Sym(ab), One(Sym(c))));
    EnvIsDen(x, e);
    SubexprAt(x);
    var b := x.Subexpr();
    AtStep(b, 0, e, Nil);
    AppendNil(e.args);
    assert Len(One<Occ>(Sym(c))) == 1 && Len(e.args) == 2;
    var y: Expr := Sym(ab);
    AtStep(b, 1, y, One(Sym(c)));
    assert y.s == ab && ItemLen(y) == 3;
    assert b[1 + 1..1 + 1 + |ab|] == ab;
    assert b[2] == b[2..4][0] && b[3] == b[2..4][1];
  }

  // `((ab c) (x $))` against `(s t)`: the second disagreement strays off the first, at the letter b.
  lemma AntiUnifyCanStray(self: Buffer, other: Buffer, ab: Symbol, c: Symbol, s: Symbol, t: Symbol)
    requires ab == [97, 98]
    requires Holds(self, Straying(ab, c)) && Holds(other, App(Cons(Sym(s), One(Sym(t)))))
    ensures exists table: Table ::
      table.Valid() && MemoFailure(table, self, other, Straying(ab, c), App(Cons(Sym(s), One(Sym(t))))) == Some(Strayed)
  {
    hide Holds, ValidEnv, At, KeyHash, Den, MemoFailure, NewVars, EncLen, Clashes, Strays, ClashesOf;
    var f: Expr, x: Expr := App(Cons(Sym(ab), One(Sym(c)))), App(Cons(Sym([120]), One(Var(New))));
    var l, r: Expr := Straying(ab, c), App(Cons(Sym(s), One(Sym(t))));
    InputSides(self, other, l, r);
    AntiUnifyStrays(self, other, l, r);
    var q := Inputs(self, other);
    var x1, y1 := q.0.Offset(1), q.1.Offset(1);
    var x2 := Past(x1, f);
    var keys := ClashesOf(q);
    StrayingClashes(q, f, x, Sym(s), Sym(t));
    assert keys[..1] == [(x1, y1)];
    assert Remember([], keys[..1]) == [Entry((x1, y1), 0, KeyHash((x1, y1)))];
    LetterMet(x1, ab, c);
    StrayingLeft(x2, x1, x);
    assert StraysAt([], keys, 1, 0);
  }

  function Straying(ab: Symbol, c: Symbol): Expr {
    App(Cons(App(Cons(Sym(ab), One(Sym(c)))), One(App(Cons(Sym([120]), One(Var(New)))))))
  }

  lemma StrayingLeft(x2: ExprEnv, x1: ExprEnv, x: Expr)
    requires ValidEnv(x1) && ValidEnv(x2) && ExprOf(x2) == x && x == App(Cons(Sym([120]), One(Var(New))))
    requires x1.offset <= |x1.base.bytes| && |x1.Subexpr()| >= 4
    requires x1.Subexpr()[..4] == [ItemByte(Arity(2)), ItemByte(SymbolSize(2)), 97, 98]
    ensures Strays(x2, x1)
  {
    EqCanStray(x1.Subexpr());
  }

  // Two lists of two arguments that disagree in both.
  lemma StrayingClashes(q: EnvPair, f: Expr, x: Expr, y: Expr, z: Expr)
    requires ValidPair(q) && ExprOf(q.0) == App(Cons(f, One(x))) && ExprOf(q.1) == App(Cons(y, One(z)))
    requires f.App? && x.App? && y.Sym? && z.Sym?
    ensures var x1, y1 := q.0.Offset(1), q.1.Offset(1);
      && ClashesOf(q) == [(x1, y1), (Past(x1, f), Past(y1, y))]
      && EnvIs(x1, f) && ValidPair((x1, y1)) && ValidEnv(Past(x1, f)) && ExprOf(Past(x1, f)) == x
  {
    hide ValidEnv, At, NewVars, EncLen;
    var x1, y1 := q.0.Offset(1), q.1.Offset(1);
    StandsChildren(q.0);
    StandsCons(x1, f, One(x));
    StandsCons(Past(x1, f), x, Nil);
    StandsChildren(q.1);
    StandsCons(y1, y, One(z));
    ClashesOne(q.0, ExprOf(q.0), q.1, ExprOf(q.1));
    ClashesOne(Past(x1, f), x, Past(y1, y), z);
  }

  // The numbered generalisation of `l` and `r`.
  ghost function GenExpr(l: AbsTerm, r: AbsTerm): Expr {
    Number(One(Gen1(l, r)), []).head
  }

  lemma GenExprIs(l: AbsTerm, r: AbsTerm, n: nat)
    ensures var asg, e := Assigned(One(Gen1(l, r)), []), GenExpr(l, r);
      && Number(One(Gen1(l, r)), []) == One(e)
      && NewVars(One(e)) == |asg| && ClosedFrom(One(e), 0)
      && Side(e, n) == Written(asg, n, l, r) && IsLgg(Side(e, n), l, r)
      && Subst1(Behind(asg, LeftOf()), Side(e, n)) == l
      && Subst1(Behind(asg, RightOf()), Side(e, n)) == r
  {
    var g := One(Gen1(l, r));
    var asg := Assigned(g, []);
    NumberLen(g, []);
    assert Len(g) == 1;
    LenOne(Number(g, []));
    NumberDenotes(g, [], n);
    AssignedGrows(g, []);
    forall q | Occurs(q, g)
      ensures q in asg
    {
      assert q in Assigned(g, []) <==> q in [] || Occurs(q, g);
    }
    WrittenIsLgg(asg, n, l, r);
    WrittenRestores(asg, n, l, r);
  }

  lemma TooManyForAll(l: AbsTerm, r: AbsTerm)
    requires |Assigned(One(Gen1(l, r)), [])| > 64
    ensures forall g: AbsTerm | IsLgg(g, l, r) :: NewVars(Number(One(g), [])) > 64
  {
    GenExprIs(l, r, 0);
    var e := GenExpr(l, r);
    forall g: AbsTerm | IsLgg(g, l, r)
      ensures NewVars(Number(One(g), [])) > 64
    {
      LggUnique(g, Side(e, 0), l, r);
      AbsCons(e, Nil, 0, 0);
      NumberCanonical(One(e), 0, 0, []);
    }
  }

  lemma AntiUnifiedOutput(l: AbsTerm, r: AbsTerm, end: Output<Pair>, memo: seq<MemoEntry>, o: AuOutput)
    requires Render(One(Gen1(l, r)), Output([], [])) == Some(end) && EntriesValid(memo) && |memo| <= 64
    requires end == Output(o.bytes, Met(memo)) && Recorded(memo, o.left, o.right)
    ensures AntiUnifies(o, l, r)
  {
    hide IsLgg, Enc, Number, Assigned, Abs, Met, WF, NewVars, ClosedFrom, Gen, Levels, GenExpr, EntriesValid, Den, ValidEnv,
      Recorded, Recorded1, Behind;
    GenExprIs(l, r, 0);
    var e := GenExpr(l, r);
    assert end.asg == Met(memo) && WF(One(e));
    assert o.bytes == [] + Enc(One(e)) == Enc(One(e));
    RecordedKeys(memo, o.left, o.right);
    MetLeft(memo, o.left, o.right);
    RecordedBehind(memo, o.left, LeftOf(), TermOf(e));
    RecordedBehind(memo, o.right, RightOf(), TermOf(e));
    assert Closed(e);
  }

  lemma RecordedKeys(memo: seq<MemoEntry>, left: map<nat, ExprEnv>, right: map<nat, ExprEnv>)
    requires Recorded(memo, left, right)
    ensures forall i :: (i in left <==> 0 <= i < |memo|) && (i in right <==> 0 <= i < |memo|)
  {
  }

  lemma MetLeft(memo: seq<MemoEntry>, left: map<nat, ExprEnv>, right: map<nat, ExprEnv>)
    requires EntriesValid(memo) && Recorded(memo, left, right)
    ensures forall i | i in left :: ValidEnv(left[i]) && LeftOf()(Met(memo)[i]) == Den(left[i])
    ensures forall i | i in right :: ValidEnv(right[i]) && RightOf()(Met(memo)[i]) == Den(right[i])
  {
  }

  lemma RecordedBehind(memo: seq<MemoEntry>, m: map<nat, ExprEnv>, side: Pair -> AbsTerm, t: AbsTerm)
    requires EntriesValid(memo)
    requires forall i :: i in m <==> 0 <= i < |memo|
    requires forall i | i in m :: ValidEnv(m[i]) && side(Met(memo)[i]) == Den(m[i])
    ensures Subst1(Recorded1(m), t) == Subst1(Behind(Met(memo), side), t)
  {
    SubstAgree(Recorded1(m), Behind(Met(memo), side), One(t));
  }

  lemma GenLength(l: Expr, r: Expr)
    ensures var g := One(Gen1(Side(l, 0), Side(r, 1)));
            EncLen(g) <= EncLen(One(l)) && EncLen(g) <= EncLen(One(r))
  {
    AbsCons(l, Nil, 0, 0);
    AbsCons(r, Nil, 1, 0);
    GenBytes(One(Side(l, 0)), One(Side(r, 1)));
    assert Gen(One(Side(l, 0)), One(Side(r, 1))) == One(Gen1(Side(l, 0), Side(r, 1)));
    AbsBytes(One(l), 0, 0);
    AbsBytes(One(r), 1, 0);
  }

  lemma GenShort(l: Expr, r: Expr, out: seq<byte>, end: Output<Pair>)
    requires Render(One(Gen1(Side(l, 0), Side(r, 1))), Output([], [])) == Some(end) && end.out == out
    ensures |out| <= EncLen(One(l)) && |out| <= EncLen(One(r))
  {
    var g := One(Gen1(Side(l, 0), Side(r, 1)));
    GenLength(l, r);
    NumberBytes(g, []);
    EncHasEncLen(Number(g, []));
    assert out == [] + Enc(Number(g, []));
  }

  /* ---- Common instances of many ---- */

  ghost predicate Specialises(h: AbsTerm, seen: seq<Expr>) {
    forall e | e in seen :: Instance(TermOf(e), h)
  }

  // `g` is a most general common instance of everything seen.
  ghost predicate IsMgciOf(g: AbsTerm, seen: seq<Expr>) {
    && Specialises(g, seen)
    && forall h: AbsTerm | Specialises(h, seen) :: Instance(g, h)
  }

  ghost predicate HasCommonInstance(seen: seq<Expr>) {
    exists h: AbsTerm :: Specialises(h, seen)
  }

  // The most general common instance, if there is one, fits the format.
  ghost predicate InstanceFits(seen: seq<Expr>) {
    forall g: AbsTerm | IsMgciOf(g, seen) :: WF(Number(One(g), []))
  }

  // Unifying `s` one expression after the other never leaves the format.
  ghost predicate UCompletes(s: seq<Expr>) {
    forall k | 1 <= k <= |s| :: InstanceFits(s[..k])
  }

  lemma InstanceFitsClosed(seen: seq<Expr>, acc: Expr)
    requires Closed(acc) && IsMgciOf(TermOf(acc), seen)
    ensures InstanceFits(seen)
  {
    ClosedEncodes(acc, 0);
    forall g: AbsTerm | IsMgciOf(g, seen)
      ensures Number(One(g), []) == One(acc)
    {
      VariantsNumber(g, TermOf(acc));
    }
  }

  lemma MgciOrderIrrelevant(g: AbsTerm, h: AbsTerm, s: seq<Expr>, t: seq<Expr>, a: seq<byte>, b: seq<byte>)
    requires forall e :: e in s <==> e in t
    requires IsMgciOf(g, s) && IsMgciOf(h, t) && Encodes(a, g) && Encodes(b, h)
    ensures a == b
  {
    assert Specialises(g, t) && Specialises(h, s);
    VariantsNumber(g, h);
  }

  lemma MgciOfOne(e: Expr)
    ensures IsMgciOf(TermOf(e), [e])
  {
    SideVariant(e, 0, 0);
    forall h: AbsTerm | Specialises(h, [e])
      ensures Instance(TermOf(e), h)
    {
      assert e in [e];
    }
  }

  // Two expressions in different variable spaces are unified by the pair of their instantiations.
  function Either(a: Substitution, b: Substitution): Substitution {
    (x: ExprVar) => if x.0 == 0 then a(x) else b(x)
  }

  lemma CommonInstanceUnifies(l: Expr, r: Expr, h: AbsTerm) returns (th: Substitution)
    requires Instance(Side(l, 0), h) && Instance(Side(r, 1), h)
    ensures Subst1(th, Side(l, 0)) == h && Subst1(th, Side(r, 1)) == h
  {
    var a: Substitution :| Subst1(a, Side(l, 0)) == h;
    var b: Substitution :| Subst1(b, Side(r, 1)) == h;
    th := Either(a, b);
    forall x | Occurs(x, One(Side(l, 0)))
      ensures th(x) == a(x)
    {
      AbsCons(l, Nil, 0, 0);
      if x.0 != 0 {
        OtherSpace(x, One(l), 0, 0);
      }
    }
    forall x | Occurs(x, One(Side(r, 1)))
      ensures th(x) == b(x)
    {
      AbsCons(r, Nil, 1, 0);
      if x.0 != 1 {
        OtherSpace(x, One(r), 1, 0);
      }
    }
    SubstAgree(th, a, One(Side(l, 0)));
    SubstAgree(th, b, One(Side(r, 1)));
  }

  // Unifying the common instance of `seen` with one more expression.
  lemma MgciStep(acc: Expr, seen: seq<Expr>, e: Expr, mgu: Substitution)
    requires IsMgciOf(TermOf(acc), seen)
    requires IsMgu(Side(acc, 0), Side(e, 1), mgu)
    ensures IsMgciOf(Subst1(mgu, Side(acc, 0)), seen + [e])
  {
    var g := Subst1(mgu, Side(acc, 0));
    SideVariant(e, 0, 1);
    SideVariant(e, 1, 0);
    forall x | x in seen + [e]
      ensures Instance(TermOf(x), g)
    {
      if x in seen {
        assert Instance(TermOf(acc), g);
        InstanceTrans(TermOf(x), TermOf(acc), g);
      } else {
        assert Subst1(mgu, Side(e, 1)) == g;
        InstanceTrans(TermOf(e), Side(e, 1), g);
      }
    }
    forall h: AbsTerm | Specialises(h, seen + [e])
      ensures Instance(g, h)
    {
      MgciLower(acc, seen, e, h);
      var th := CommonInstanceUnifies(acc, e, h);
      assert Unifies(th, (Side(acc, 0), Side(e, 1)));
      assert Subst1(th, g) == h;
    }
  }

  lemma MgciLower(acc: Expr, seen: seq<Expr>, e: Expr, h: AbsTerm)
    requires IsMgciOf(TermOf(acc), seen) && Specialises(h, seen + [e])
    ensures Instance(Side(acc, 0), h) && Instance(Side(e, 1), h)
  {
    assert forall x | x in seen :: x in seen + [e];
    assert Specialises(h, seen);
    assert e in seen + [e];
    SideVariant(e, 1, 0);
    InstanceTrans(Side(e, 1), TermOf(e), h);
  }

  // When the two do not unify, nothing is an instance of everything.
  lemma MgciNone(acc: Expr, seen: seq<Expr>, e: Expr)
    requires IsMgciOf(TermOf(acc), seen)
    requires !Unifiable(Side(acc, 0), Side(e, 1))
    ensures forall h: AbsTerm :: !Specialises(h, seen + [e])
  {
    forall h: AbsTerm | Specialises(h, seen + [e])
      ensures false
    {
      MgciLower(acc, seen, e, h);
      var th := CommonInstanceUnifies(acc, e, h);
      assert Unifies(th, (Side(acc, 0), Side(e, 1)));
    }
  }

  // The closed expression that encodes a term denotes a variant of it.
  lemma EncodesVariant(t: AbsTerm) returns (e: Expr)
    ensures Number(One(t), []) == One(e) && ClosedFrom(One(e), 0)
    ensures Instance(t, TermOf(e)) && Instance(TermOf(e), t)
  {
    var asg := Assigned(One(t), []);
    NumberLen(One(t), []);
    assert Len(One(t)) == 1;
    LenOne(Number(One(t), []));
    e := Number(One(t), []).head;
    NumberDenotes(One(t), [], 0);
    assert Subst1(Levels(asg, 0), t) == TermOf(e);
    var back: Substitution := (x: ExprVar) => if x.1 < |asg| then Var(asg[x.1]) else Var(x);
    forall x | Occurs(x, One(t))
      ensures Compose(Levels(asg, 0), back)(x) == Renaming((y: ExprVar) => y)(x)
    {
      AssignedGrows(One(t), []);
      assert x in Assigned(One(t), []) <==> x in [] || Occurs(x, One(t));
    }
    SubstCompose(Levels(asg, 0), back, One(t));
    SubstAgree(Compose(Levels(asg, 0), back), Renaming((y: ExprVar) => y), One(t));
    SubstId(Renaming((y: ExprVar) => y), One(t));
    assert Subst1(back, TermOf(e)) == t;
  }
}
