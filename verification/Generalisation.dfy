/** Least general generalisations of two terms. */
module Generalisation {
  import opened Terms
  import opened Encoding
  import opened Trees
  import opened Numbering
  import opened Variants

  predicate Decomposable(t: AbsTerm, u: AbsTerm) {
    (t.Sym? && u.Sym? && t.s == u.s) || (t.App? && u.App? && Len(t.args) == Len(u.args))
  }

  // The common structure of two terms; a disagreement is a variable named by the two subterms.
  function Gen(ts: AbsTerms, us: AbsTerms): Terms<Pair> {
    match (ts, us)
    case (Cons(t, tl), Cons(u, ul)) =>
      var g := if !Decomposable(t, u) then Var((t, u)) else if t.Sym? then Sym(t.s) else App(Gen(t.args, u.args));
      Cons(g, Gen(tl, ul))
    case _ => Nil
  }

  function Gen1(t: AbsTerm, u: AbsTerm): Term<Pair> {
    Gen(One(t), One(u)).head
  }

  lemma GenCons(t: AbsTerm, tl: AbsTerms, u: AbsTerm, ul: AbsTerms)
    ensures Gen(Cons(t, tl), Cons(u, ul)) == Cons(Gen1(t, u), Gen(tl, ul))
  {
  }

  lemma GenLen(ts: AbsTerms, us: AbsTerms)
    requires Len(ts) == Len(us)
    ensures Len(Gen(ts, us)) == Len(ts)
  {
  }

  function LeftOf(): Pair -> AbsTerm {
    (q: Pair) => q.0
  }

  function RightOf(): Pair -> AbsTerm {
    (q: Pair) => q.1
  }

  // Replacing each disagreement by its left or right subterm gives the left or right input back.
  lemma {:induction false} GenRestores(ts: AbsTerms, us: AbsTerms)
    requires Len(ts) == Len(us)
    ensures Subst(LeftOf(), Gen(ts, us)) == ts
    ensures Subst(RightOf(), Gen(ts, us)) == us
  {
    match ts
    case Nil =>
    case Cons(t, tl) =>
      GenRestores(tl, us.tail);
      if t.App? && Decomposable(t, us.head) {
        GenRestores(t.args, us.head.args);
      }
  }

  // The generalisation of two instances of `h` is an instance of `h`.
  function GenOf(th: Substitution, ph: Substitution): ExprVar -> Term<Pair> {
    x => Gen1(th(x), ph(x))
  }

  lemma {:induction false} GenUniversal(h: AbsTerms, th: Substitution, ph: Substitution)
    ensures Gen(Subst(th, h), Subst(ph, h)) == Subst(GenOf(th, ph), h)
  {
    match h
    case Nil =>
    case Cons(t, tl) =>
      GenUniversal(tl, th, ph);
      GenCons(Subst1(th, t), Subst(th, tl), Subst1(ph, t), Subst(ph, tl));
      if t.App? {
        GenUniversal(t.args, th, ph);
        SubstLen(th, t.args);
        SubstLen(ph, t.args);
      }
  }

  // `g` generalises both terms, and every other common generalisation is more general than `g`.
  ghost predicate IsLgg(g: AbsTerm, t: AbsTerm, u: AbsTerm) {
    && Instance(g, t) && Instance(g, u)
    && forall h: AbsTerm | Instance(h, t) && Instance(h, u) :: Instance(h, g)
  }

  // The subterms behind level `i` of the generalisation.
  function Behind(asg: seq<Pair>, side: Pair -> AbsTerm): Substitution {
    (x: ExprVar) => if x.1 < |asg| then side(asg[x.1]) else Var(x)
  }

  // The written generalisation: as a term of space `n`, and what its levels stand for.
  ghost function Written(asg: seq<Pair>, n: nat, t: AbsTerm, u: AbsTerm): AbsTerm {
    Subst1(Levels(asg, n), Gen1(t, u))
  }

  lemma WrittenRestores(asg: seq<Pair>, n: nat, t: AbsTerm, u: AbsTerm)
    requires forall q | Occurs(q, One(Gen1(t, u))) :: q in asg
    ensures Subst1(Behind(asg, LeftOf()), Written(asg, n, t, u)) == t
    ensures Subst1(Behind(asg, RightOf()), Written(asg, n, t, u)) == u
  {
    var g := One(Gen1(t, u));
    GenRestores(One(t), One(u));
    SubstCompose(Levels(asg, n), Behind(asg, LeftOf()), g);
    SubstCompose(Levels(asg, n), Behind(asg, RightOf()), g);
    SubstAgree(Compose(Levels(asg, n), Behind(asg, LeftOf())), LeftOf(), g);
    SubstAgree(Compose(Levels(asg, n), Behind(asg, RightOf())), RightOf(), g);
  }

  lemma WrittenIsLgg(asg: seq<Pair>, n: nat, t: AbsTerm, u: AbsTerm)
    requires forall q | Occurs(q, One(Gen1(t, u))) :: q in asg
    ensures IsLgg(Written(asg, n, t, u), t, u)
  {
    WrittenRestores(asg, n, t, u);
    forall h: AbsTerm | Instance(h, t) && Instance(h, u)
      ensures Instance(h, Written(asg, n, t, u))
    {
      var th: Substitution :| Subst1(th, h) == t;
      var ph: Substitution :| Subst1(ph, h) == u;
      GenUniversal(One(h), th, ph);
      SubstCompose(GenOf(th, ph), Levels(asg, n), One(h));
      assert Subst1(Compose(GenOf(th, ph), Levels(asg, n)), h) == Written(asg, n, t, u);
    }
  }

  // Least general generalisations agree on the bytes.
  lemma LggUnique(g: AbsTerm, h: AbsTerm, t: AbsTerm, u: AbsTerm)
    requires IsLgg(g, t, u) && IsLgg(h, t, u)
    ensures Number(One(g), []) == Number(One(h), [])
  {
    VariantsNumber(g, h);
  }

  /* ---- Lengths ---- */

  lemma NumberBytes<X>(ts: Terms<X>, asg: seq<X>)
    ensures EncLen(Number(ts, asg)) == EncLen(ts)
  {
  }

  lemma AbsBytes(es: Exprs, n: nat, v: nat)
    ensures EncLen(Abs(es, n, v)) == EncLen(es)
  {
  }

  lemma {:induction false} GenBytes(ts: AbsTerms, us: AbsTerms)
    requires Len(ts) == Len(us)
    ensures EncLen(Gen(ts, us)) <= EncLen(ts) && EncLen(Gen(ts, us)) <= EncLen(us)
  {
    match ts
    case Nil =>
    case Cons(t, tl) =>
      GenBytes(tl, us.tail);
      if t.App? && Decomposable(t, us.head) {
        GenBytes(t.args, us.head.args);
      }
  }
}
