/** `ExprEnv`: a subexpression of a buffer, seen from a variable space. */
module Envs {
  import opened Items
  import opened Terms
  import opened Encoding
  import opened Traversals
  import opened Wrappers
  import opened Trees

  // A buffer with its address: the source compares the pointers, not the bytes.
  datatype Buffer = Buffer(ptr: nat, bytes: seq<byte>)

  // The subexpression at `offset` of `base`, in variable space `n`, with `v` variables to its left.
  datatype ExprEnv = ExprEnv(n: nat, v: nat, offset: nat, base: Buffer) {
    function Offset(i: nat): ExprEnv {
      this.(offset := offset + i)
    }

    function Subexpr(): seq<byte>
      requires offset <= |base.bytes|
    {
      base.bytes[offset..]
    }
  }

  type EnvPair = (ExprEnv, ExprEnv)
  type EnvBindings = map<ExprVar, ExprEnv>

  // The variable counters of the source are bytes.
  const MAX_LEVEL: nat := 255

  // `x` is the subexpression, and counting its variables does not overflow the counter.
  ghost predicate EnvIs(e: ExprEnv, x: Expr) {
    At(e.base.bytes, e.offset, One(x)) && e.v + NewVars(One(x)) <= MAX_LEVEL
  }

  ghost predicate ValidEnv(e: ExprEnv) {
    exists x :: EnvIs(e, x)
  }

  ghost function ExprOf(e: ExprEnv): Expr
    requires ValidEnv(e)
  {
    var x :| EnvIs(e, x);
    x
  }

  // The absolute term that the subexpression denotes.
  ghost function Den(e: ExprEnv): AbsTerm
    requires ValidEnv(e)
  {
    Abs1(ExprOf(e), e.n, e.v)
  }

  lemma EnvIsDen(e: ExprEnv, x: Expr)
    requires EnvIs(e, x)
    ensures ValidEnv(e) && ExprOf(e) == x && Den(e) == Abs1(x, e.n, e.v)
  {
    AtUnique(e.base.bytes, e.offset, One(x), One(ExprOf(e)));
  }

  lemma SubexprAt(e: ExprEnv)
    requires ValidEnv(e)
    ensures e.offset <= |e.base.bytes| && At(e.Subexpr(), 0, One(ExprOf(e)))
  {
    var es := One(ExprOf(e));
    assert e.Subexpr()[0..|Enc(es)|] == e.base.bytes[e.offset..e.offset + |Enc(es)|];
  }

  function VarOpt(e: ExprEnv): Option<ExprVar>
    requires e.offset < |e.base.bytes|
  {
    match MaybeByteItem(e.base.bytes[e.offset])
    case Ok(NewVar) => Some((e.n, e.v))
    case Ok(VarRef(i)) => Some((e.n, i))
    case _ => None
  }

  lemma VarOptIsVar(e: ExprEnv)
    requires ValidEnv(e)
    ensures e.offset < |e.base.bytes| && e.v <= MAX_LEVEL
    ensures VarOpt(e).Some? <==> Den(e).Var?
    ensures VarOpt(e).Some? ==> Den(e) == Var(VarOpt(e).value) && VarOpt(e).value.0 == e.n && VarOpt(e).value.1 <= MAX_LEVEL
  {
    AtStep(e.base.bytes, e.offset, ExprOf(e), Nil);
  }

  /* ---- Lists of subexpressions ---- */

  // The subexpression after `e`, which stands at `x`.
  function Past(x: ExprEnv, e: Expr): ExprEnv {
    x.(offset := x.offset + EncLen(One(e)), v := x.v + NewVars(One(e)))
  }

  // The list `es` stands at `x`, and its variables can be counted.
  ghost predicate Stands(x: ExprEnv, es: Exprs) {
    At(x.base.bytes, x.offset, es) && x.v + NewVars(es) <= MAX_LEVEL
  }

  lemma StandsCons(x: ExprEnv, e: Expr, tl: Exprs)
    requires Stands(x, Cons(e, tl))
    ensures EnvIs(x, e) && Stands(Past(x, e), tl) && ValidEnv(x) && ExprOf(x) == e
  {
    hide At, Enc, WF, EncLen, NewVars, ValidEnv;
    AtSkip(x.base.bytes, x.offset, e, tl);
    AbsCons(e, tl, 0, 0);
    EnvIsDen(x, e);
  }

  lemma StandsChildren(x: ExprEnv)
    requires ValidEnv(x)
    ensures Stands(x.Offset(1), Children(ExprOf(x)))
  {
    hide At, Enc, WF;
    var e := ExprOf(x);
    AtStep(x.base.bytes, x.offset, e, Nil);
    AppendNil(Children(e));
    OneFacts(e, 0, 0);
    if !e.App? {
      AtNil(x.base.bytes, x.offset + 1);
    }
  }

  lemma AtNil(b: seq<byte>, i: nat)
    requires i <= |b|
    ensures At(b, i, Nil)
  {
  }

  /* ---- Two folds over a subexpression ---- */

  // `TraverseSide`: count the variables passed over.
  function CountTraversal(): Traversal<int, (), ()> {
    Traversal((v: int, _: nat) => (v + 1, ()), (v: int, _: nat, _: nat) => (v, ()), (v: int, _: nat, _: Symbol) => (v, ()),
              (v: int, _: nat, _: nat) => (v, ()), (v: int, _: nat, _: (), _: ()) => (v, ()), (v: int, _: nat, _: ()) => (v, ()))
  }

  lemma {:induction false} CountCounts(v: int, o: nat, es: Exprs)
    ensures FoldAll(CountTraversal(), true, v, o, (), es).0 == v + NewVars(es)
    decreases es
  {
    match es
    case Nil =>
    case Cons(e, tl) =>
      CountVisit(v, o, e) by {
        if e.App? {
          CountCounts(v, o + 1, e.args);
        }
      }
      CountCounts(v + NewVars(One(e)), o + EncLen(One(e)), tl);
  }

  lemma CountVisit(v: int, o: nat, e: Expr)
    requires e.App? ==> FoldAll(CountTraversal(), true, v, o + 1, (), e.args).0 == v + NewVars(e.args)
    ensures Visit(CountTraversal(), true, v, o, e).0 == v + NewVars(One(e))
  {
  }

  // The fold of the shallow occurs check, for level `t`.
  function OccursTraversal(t: nat): Traversal<int, bool, bool> {
    Traversal((c: int, _: nat) => (c + 1, c == t), (c: int, _: nat, i: nat) => (c, i == t),
              (c: int, _: nat, _: Symbol) => (c, false), (c: int, _: nat, _: nat) => (c, false),
              (c: int, _: nat, acc: bool, r: bool) => (c, acc || r), (c: int, _: nat, acc: bool) => (c, acc))
  }

  lemma {:induction false} OccursOccurs(n: nat, t: nat, c: nat, o: nat, acc: bool, es: Exprs)
    ensures FoldAll(OccursTraversal(t), true, c, o, acc, es) == (c + NewVars(es), acc || Occurs((n, t), Abs(es, n, c)))
    decreases es
  {
    hide EncLen, Visit;
    match es
    case Nil =>
    case Cons(e, tl) =>
      OccursVisit(n, t, c, o, e) by {
        if e.App? {
          OccursOccurs(n, t, c, o + 1, false, e.args);
        }
      }
      var here := Occurs((n, t), One(Abs1(e, n, c)));
      var c' := c + NewVars(One(e));
      OccursNext(t, c, o, acc, e, tl, here);
      OccursOccurs(n, t, c', o + EncLen(One(e)), acc || here, tl);
      AbsCons(e, tl, n, c);
      OccursCons((n, t), Abs1(e, n, c), Abs(tl, n, c'));
  }

  lemma OccursNext(t: nat, c: nat, o: nat, acc: bool, e: Expr, tl: Exprs, here: bool)
    requires Visit(OccursTraversal(t), true, c, o, e) == (c + NewVars(One(e)), here)
    ensures FoldAll(OccursTraversal(t), true, c, o, acc, Cons(e, tl))
         == FoldAll(OccursTraversal(t), true, c + NewVars(One(e)), o + EncLen(One(e)), acc || here, tl)
  {
    hide NewVars, EncLen, Visit;
    assert OccursTraversal(t).add(c + NewVars(One(e)), o + EncLen(One(e)), acc, here) == (c + NewVars(One(e)), acc || here);
  }

  lemma OccursVisit(n: nat, t: nat, c: nat, o: nat, e: Expr)
    requires e.App? ==> FoldAll(OccursTraversal(t), true, c, o + 1, false, e.args)
                        == (c + NewVars(e.args), Occurs((n, t), Abs(e.args, n, c)))
    ensures Visit(OccursTraversal(t), true, c, o, e) == (c + NewVars(One(e)), Occurs((n, t), One(Abs1(e, n, c))))
  {
  }

  // The two folds over a whole subexpression.
  lemma CountEnv(e: ExprEnv, x: Expr)
    ensures Visit(CountTraversal(), true, e.v, e.offset, x).0 == e.v + NewVars(One(x))
  {
    if x.App? {
      CountCounts(e.v, e.offset + 1, x.args);
    }
    CountVisit(e.v, e.offset, x);
  }

  lemma OccursEnv(e: ExprEnv, x: Expr, t: nat)
    ensures Visit(OccursTraversal(t), true, e.v, e.offset, x).1 <==> Occurs((e.n, t), One(Abs1(x, e.n, e.v)))
  {
    if x.App? {
      OccursOccurs(e.n, t, e.v, e.offset + 1, false, x.args);
    }
    OccursVisit(e.n, t, e.v, e.offset, x);
  }

  // A term in space `n` has no variable of another space.
  lemma OtherSpace(x: ExprVar, es: Exprs, n: nat, v: nat)
    requires x.0 != n
    ensures !Occurs(x, Abs(es, n, v))
  {
  }

  /* ---- Bindings, work lists and the universe they live in ---- */

  ghost predicate ValidPair(q: EnvPair) {
    ValidEnv(q.0) && ValidEnv(q.1)
  }

  ghost function DenPair(q: EnvPair): Pair
    requires ValidPair(q)
  {
    (Den(q.0), Den(q.1))
  }

  ghost function DenBindings(b: EnvBindings): Bindings
    requires forall x | x in b :: ValidEnv(b[x])
  {
    map x | x in b :: Den(b[x])
  }

  ghost function DenStack(s: seq<EnvPair>): seq<Pair>
    requires forall q | q in s :: ValidPair(q)
  {
    seq(|s|, i requires 0 <= i < |s| => assert s[i] in s; DenPair(s[i]))
  }

  ghost function DenSet(e: set<EnvPair>): set<Pair>
    requires forall q | q in e :: ValidPair(q)
  {
    set q | q in e :: DenPair(q)
  }

  // The variable spaces and buffers that the inputs mention.
  datatype Universe = Universe(spaces: set<nat>, buffers: set<Buffer>) {
    ghost predicate Has(e: ExprEnv) {
      e.n in spaces && e.base in buffers && ValidEnv(e)
    }

    ghost predicate HasPair(q: EnvPair) {
      Has(q.0) && Has(q.1)
    }

    ghost predicate HasVar(x: ExprVar) {
      x in Vars()
    }

    ghost function Vars(): set<ExprVar> {
      set n, l: nat | n in spaces && l <= MAX_LEVEL :: (n, l)
    }

    ghost function Envs(): set<ExprEnv> {
      set n, b, v: nat, o: nat | n in spaces && b in buffers && v <= MAX_LEVEL && o < |b.bytes| :: ExprEnv(n, v, o, b)
    }

    ghost function Pairs(): set<EnvPair> {
      set x, y | x in Envs() && y in Envs() :: (x, y)
    }

    lemma HasPairInPairs(q: EnvPair)
      requires HasPair(q)
      ensures q in Pairs()
    {
      VarOptIsVar(q.0);
      VarOptIsVar(q.1);
    }
  }
}
