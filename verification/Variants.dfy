/** Terms that are instances of each other are written as the same bytes. */
module Variants {
  import opened Terms
  import opened Encoding
  import opened Trees
  import opened Numbering

  ghost predicate Instance(g: AbsTerm, t: AbsTerm) {
    exists th: Substitution :: Subst1(th, g) == t
  }

  lemma InstanceTrans(g: AbsTerm, h: AbsTerm, t: AbsTerm)
    requires Instance(g, h) && Instance(h, t)
    ensures Instance(g, t)
  {
    var th: Substitution :| Subst1(th, g) == h;
    var ph: Substitution :| Subst1(ph, h) == t;
    SubstCompose(th, ph, One(g));
    assert Subst1(Compose(th, ph), g) == t;
  }

  // Numbering from 0 forgets the names of the variables and nothing else.
  lemma VariantsNumber(g: AbsTerm, h: AbsTerm)
    requires Instance(g, h) && Instance(h, g)
    ensures Number(One(g), []) == Number(One(h), [])
  {
    var th: Substitution :| Subst1(th, g) == h;
    var ph: Substitution :| Subst1(ph, h) == g;
    var occurs := (x: ExprVar) => Occurs(x, One(g));
    var f := (x: ExprVar) => if th(x).Var? then th(x).x else (0, 0);
    forall x | Occurs(x, One(g))
      ensures Subst1(ph, th(x)) == Var(x) && th(x) == Var(f(x))
    {
      SubstCompose(th, ph, One(g));
      SubstId(Renaming((y: ExprVar) => y), One(g));
      SubstAgree(Compose(th, ph), Renaming((y: ExprVar) => y), One(g));
    }
    SubstAgree(th, Renaming(f), One(g));
    assert InjectiveOn(f, occurs);
    NumberRenamed(f, One(g), [], occurs);
    assert MapSeq(f, []) == [];
  }
}
