/** First-order terms over any type of variables.

    The same datatype serves for the expressions of the byte format (variables are the occurrences
    `$` and `_i`), for absolute terms (variables are pairs of a space and a level) and for
    generalisations (variables are pairs of terms). Recursion is over lists of terms throughout: a
    single term is a list of length one. */
module Terms {
  import opened Items

  type Symbol = seq<byte>

  datatype Term<+X> = Var(x: X) | Sym(s: Symbol) | App(args: Terms<X>)
  datatype Terms<+X> = Nil | Cons(head: Term<X>, tail: Terms<X>)

  function One<X>(t: Term<X>): Terms<X> {
    Cons(t, Nil)
  }

  function Len<X>(ts: Terms<X>): nat {
    match ts
    case Nil => 0
    case Cons(_, tl) => 1 + Len(tl)
  }

  function Append<X>(ts: Terms<X>, us: Terms<X>): Terms<X> {
    match ts
    case Nil => us
    case Cons(t, tl) => Cons(t, Append(tl, us))
  }

  function Nth<X>(ts: Terms<X>, i: nat): Term<X>
    requires i < Len(ts)
  {
    if i == 0 then ts.head else Nth(ts.tail, i - 1)
  }

  function Children<X>(t: Term<X>): Terms<X> {
    if t.App? then t.args else Nil
  }

  function Size<X>(ts: Terms<X>): nat {
    match ts
    case Nil => 0
    case Cons(App(kids), tl) => 1 + Size(kids) + Size(tl)
    case Cons(_, tl) => 1 + Size(tl)
  }

  // The bytes that a list of terms takes in the byte format, whatever its variables are called.
  function EncLen<X>(ts: Terms<X>): nat {
    match ts
    case Nil => 0
    case Cons(Var(_), tl) => 1 + EncLen(tl)
    case Cons(Sym(s), tl) => 1 + |s| + EncLen(tl)
    case Cons(App(kids), tl) => 1 + EncLen(kids) + EncLen(tl)
  }

  lemma EncLenCons<X>(t: Term<X>, tl: Terms<X>)
    ensures EncLen(Cons(t, tl)) == EncLen(One(t)) + EncLen(tl)
  {
  }

  lemma EncLenAppend<X>(ts: Terms<X>, us: Terms<X>)
    ensures EncLen(Append(ts, us)) == EncLen(ts) + EncLen(us)
  {
  }

  ghost predicate Occurs<X>(x: X, ts: Terms<X>) {
    match ts
    case Nil => false
    case Cons(Var(y), tl) => x == y || Occurs(x, tl)
    case Cons(Sym(_), tl) => Occurs(x, tl)
    case Cons(App(kids), tl) => Occurs(x, kids) || Occurs(x, tl)
  }

  function Subst<X, Y>(th: X -> Term<Y>, ts: Terms<X>): Terms<Y> {
    match ts
    case Nil => Nil
    case Cons(Var(x), tl) => Cons(th(x), Subst(th, tl))
    case Cons(Sym(s), tl) => Cons(Sym(s), Subst(th, tl))
    case Cons(App(kids), tl) => Cons(App(Subst(th, kids)), Subst(th, tl))
  }

  function Subst1<X, Y>(th: X -> Term<Y>, t: Term<X>): Term<Y> {
    match t
    case Var(x) => th(x)
    case Sym(s) => Sym(s)
    case App(kids) => App(Subst(th, kids))
  }

  lemma AppendAssoc<X>(ts: Terms<X>, us: Terms<X>, vs: Terms<X>)
    ensures Append(Append(ts, us), vs) == Append(ts, Append(us, vs))
  {
  }

  lemma AppendNil<X>(ts: Terms<X>)
    ensures Append(ts, Nil) == ts
  {
  }

  lemma LenAppend<X>(ts: Terms<X>, us: Terms<X>)
    ensures Len(Append(ts, us)) == Len(ts) + Len(us)
  {
  }

  lemma LenOne<X>(ts: Terms<X>)
    requires Len(ts) == 1
    ensures ts == One(ts.head)
  {
    assert Len(ts.tail) == 0;
  }

  lemma SubstLen<X, Y>(th: X -> Term<Y>, ts: Terms<X>)
    ensures Len(Subst(th, ts)) == Len(ts)
  {
  }

  lemma SubstNth<X, Y>(th: X -> Term<Y>, ts: Terms<X>, i: nat)
    requires i < Len(ts)
    ensures Len(Subst(th, ts)) == Len(ts)
    ensures Nth(Subst(th, ts), i) == Subst1(th, Nth(ts, i))
  {
    SubstLen(th, ts);
    if i > 0 {
      SubstNth(th, ts.tail, i - 1);
    }
  }

  // Two substitutions that agree on the variables of a term give the same instance, and conversely.
  lemma {:induction false} SubstAgree<X, Y>(th: X -> Term<Y>, ph: X -> Term<Y>, ts: Terms<X>)
    ensures (forall x | Occurs(x, ts) :: th(x) == ph(x)) <==> Subst(th, ts) == Subst(ph, ts)
  {
    match ts
    case Nil =>
    case Cons(Var(y), tl) =>
      SubstAgree(th, ph, tl);
      assert Occurs(y, ts);
    case Cons(Sym(_), tl) =>
      SubstAgree(th, ph, tl);
    case Cons(App(kids), tl) =>
      SubstAgree(th, ph, kids);
      SubstAgree(th, ph, tl);
  }

  // First `th`, then `ph`.
  function Compose<X, Y, Z>(th: X -> Term<Y>, ph: Y -> Term<Z>): X -> Term<Z> {
    x => Subst1(ph, th(x))
  }

  function Renaming<X, Y>(f: X -> Y): X -> Term<Y> {
    x => Var(f(x))
  }

  lemma {:induction false} SubstCompose<X, Y, Z>(th: X -> Term<Y>, ph: Y -> Term<Z>, ts: Terms<X>)
    ensures Subst(ph, Subst(th, ts)) == Subst(Compose(th, ph), ts)
  {
    match ts
    case Nil =>
    case Cons(Var(_), tl) => SubstCompose(th, ph, tl);
    case Cons(Sym(_), tl) => SubstCompose(th, ph, tl);
    case Cons(App(kids), tl) =>
      SubstCompose(th, ph, kids);
      SubstCompose(th, ph, tl);
  }

  lemma {:induction false} SubstId<X>(th: X -> Term<X>, ts: Terms<X>)
    requires forall x | Occurs(x, ts) :: th(x) == Var(x)
    ensures Subst(th, ts) == ts
  {
    match ts
    case Nil =>
    case Cons(Var(y), tl) =>
      assert Occurs(y, ts);
      SubstId(th, tl);
    case Cons(Sym(_), tl) => SubstId(th, tl);
    case Cons(App(kids), tl) =>
      SubstId(th, kids);
      SubstId(th, tl);
  }

  // The variables of an instance are those of the images of the term's variables.
  lemma {:induction false} SubstOccurs<X, Y>(th: X -> Term<Y>, ts: Terms<X>, y: Y)
    ensures Occurs(y, Subst(th, ts)) <==> exists x :: Occurs(x, ts) && Occurs(y, One(th(x)))
  {
    match ts
    case Nil =>
    case Cons(Var(z), tl) =>
      SubstOccurs(th, tl, y);
      OccursCons(y, th(z), Subst(th, tl));
      assert Occurs(z, ts);
    case Cons(Sym(_), tl) => SubstOccurs(th, tl, y);
    case Cons(App(kids), tl) =>
      SubstOccurs(th, kids, y);
      SubstOccurs(th, tl, y);
  }

  lemma OccursCons<X>(x: X, t: Term<X>, ts: Terms<X>)
    ensures Occurs(x, Cons(t, ts)) <==> Occurs(x, One(t)) || Occurs(x, ts)
  {
  }

  lemma OccursOne<X>(x: X, t: Term<X>)
    ensures Occurs(x, One(t)) <==> t == Var(x) || (t.App? && Occurs(x, t.args))
  {
    assert !Occurs(x, Nil);
  }

  // A variable's image is no larger than the instance of a term it occurs in, and strictly smaller
  // when the term is not the variable itself.
  lemma {:induction false} OccursSize<X, Y>(th: X -> Term<Y>, ts: Terms<X>, x: X)
    requires Occurs(x, ts)
    ensures Size(One(th(x))) <= Size(Subst(th, ts))
  {
    match ts
    case Cons(Var(y), tl) =>
      SizeCons(th(y), Subst(th, tl));
      if x != y {
        OccursSize(th, tl, x);
      }
    case Cons(Sym(_), tl) => OccursSize(th, tl, x);
    case Cons(App(kids), tl) =>
      if Occurs(x, kids) {
        OccursSize(th, kids, x);
      } else {
        OccursSize(th, tl, x);
      }
  }

  lemma SizeCons<X>(t: Term<X>, ts: Terms<X>)
    ensures Size(Cons(t, ts)) == Size(One(t)) + Size(ts)
  {
  }
}
