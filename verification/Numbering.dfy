/** Writing a term as an expression: variables are numbered by first occurrence. */
module Numbering {
  import opened Items
  import opened Terms
  import opened Encoding

  function IndexOf<X(==)>(s: seq<X>, x: X): (i: nat)
    requires x in s
    ensures i < |s| && s[i] == x && forall j | 0 <= j < i :: s[j] != x
  {
    if s[0] == x then 0 else 1 + IndexOf(s[1..], x)
  }

  lemma FirstIndex<X>(s: seq<X>, x: X, i: nat)
    requires i < |s| && s[i] == x && forall j | 0 <= j < i :: s[j] != x
    ensures x in s && IndexOf(s, x) == i
  {
  }

  // The assignments after writing `ts`: each new variable is appended.
  function Assigned<X(==)>(ts: Terms<X>, asg: seq<X>): seq<X> {
    match ts
    case Nil => asg
    case Cons(Var(x), tl) => Assigned(tl, if x in asg then asg else asg + [x])
    case Cons(Sym(_), tl) => Assigned(tl, asg)
    case Cons(App(kids), tl) => Assigned(tl, Assigned(kids, asg))
  }

  // The expression: `$` at a variable's first occurrence and a reference at the others.
  function Number<X(==)>(ts: Terms<X>, asg: seq<X>): Exprs {
    match ts
    case Nil => Nil
    case Cons(Var(x), tl) =>
      if x in asg then Cons(Var(Ref(IndexOf(asg, x))), Number(tl, asg))
      else Cons(Var(New), Number(tl, asg + [x]))
    case Cons(Sym(s), tl) => Cons(Sym(s), Number(tl, asg))
    case Cons(App(kids), tl) => Cons(App(Number(kids, asg)), Number(tl, Assigned(kids, asg)))
  }

  // `out` is the encoding of `t` with its variables numbered by first occurrence.
  ghost predicate Encodes<X>(out: seq<byte>, t: Term<X>) {
    var es := Number(One(t), []);
    WF(es) && out == Enc(es)
  }

  lemma NumberLen<X>(ts: Terms<X>, asg: seq<X>)
    ensures Len(Number(ts, asg)) == Len(ts)
  {
  }

  lemma {:induction false} NumberAppend<X>(ts: Terms<X>, us: Terms<X>, asg: seq<X>)
    ensures Assigned(Append(ts, us), asg) == Assigned(us, Assigned(ts, asg))
    ensures Number(Append(ts, us), asg) == Append(Number(ts, asg), Number(us, Assigned(ts, asg)))
    decreases ts
  {
    match ts
    case Nil =>
    case Cons(Var(x), tl) => NumberAppend(tl, us, if x in asg then asg else asg + [x]);
    case Cons(Sym(_), tl) => NumberAppend(tl, us, asg);
    case Cons(App(kids), tl) => NumberAppend(tl, us, Assigned(kids, asg));
  }

  ghost predicate Distinct<X>(s: seq<X>) {
    forall i, j | 0 <= i < j < |s| :: s[i] != s[j]
  }

  // The assignments only grow, keep distinct, and afterwards hold the variables of the term.
  lemma {:induction false} AssignedGrows<X>(ts: Terms<X>, asg: seq<X>)
    requires Distinct(asg)
    ensures asg <= Assigned(ts, asg) && Distinct(Assigned(ts, asg))
    ensures forall x :: x in Assigned(ts, asg) <==> x in asg || Occurs(x, ts)
    decreases ts
  {
    match ts
    case Nil =>
    case Cons(Var(x), tl) => AssignedGrows(tl, if x in asg then asg else asg + [x]);
    case Cons(Sym(_), tl) => AssignedGrows(tl, asg);
    case Cons(App(kids), tl) =>
      AssignedGrows(kids, asg);
      AssignedGrows(tl, Assigned(kids, asg));
  }

  lemma IndexOfPrefix<X>(s: seq<X>, t: seq<X>, x: X)
    requires x in s && s <= t
    ensures x in t && IndexOf(s, x) == IndexOf(t, x)
  {
    FirstIndex(t, x, IndexOf(s, x));
  }

  // Variables become levels of space `n`, by their place in the assignments.
  function Levels<X(==)>(asg: seq<X>, n: nat): X -> Term<ExprVar> {
    x => if x in asg then Var((n, IndexOf(asg, x))) else Var((n, |asg|))
  }

  // The numbered expression is closed and denotes the term with its variables renamed to levels.
  lemma {:induction false} NumberDenotes<X>(ts: Terms<X>, asg: seq<X>, n: nat)
    requires Distinct(asg)
    ensures NewVars(Number(ts, asg)) + |asg| == |Assigned(ts, asg)|
    ensures ClosedFrom(Number(ts, asg), |asg|)
    ensures Abs(Number(ts, asg), n, |asg|) == Subst(Levels(Assigned(ts, asg), n), ts)
    decreases ts
  {
    AssignedGrows(ts, asg);
    match ts
    case Nil =>
    case Cons(Var(x), tl) =>
      var asg' := if x in asg then asg else asg + [x];
      NumberDenotes(tl, asg', n);
      AssignedGrows(tl, asg');
      IndexOfPrefix(asg', Assigned(tl, asg'), x);
    case Cons(Sym(_), tl) => NumberDenotes(tl, asg, n);
    case Cons(App(kids), tl) =>
      var asg' := Assigned(kids, asg);
      NumberDenotes(kids, asg, n);
      AssignedGrows(kids, asg);
      NumberDenotes(tl, asg', n);
      AssignedGrows(tl, asg');
      LevelsPrefix(kids, asg', Assigned(tl, asg'), n);
  }

  lemma LevelsPrefix<X>(ts: Terms<X>, s: seq<X>, t: seq<X>, n: nat)
    requires s <= t && forall x | Occurs(x, ts) :: x in s
    ensures Subst(Levels(s, n), ts) == Subst(Levels(t, n), ts)
  {
    forall x | Occurs(x, ts)
      ensures Levels(s, n)(x) == Levels(t, n)(x)
    {
      IndexOfPrefix(s, t, x);
    }
    SubstAgree(Levels(s, n), Levels(t, n), ts);
  }

  // A closed expression is the numbering of what it denotes: the encoding of a term up to renaming
  // is unique.
  lemma {:induction false} NumberCanonical(es: Exprs, n: nat, v: nat, asg: seq<ExprVar>)
    requires ClosedFrom(es, v)
    requires |asg| == v && forall i | 0 <= i < v :: asg[i] == (n, i)
    ensures Number(Abs(es, n, v), asg) == es
    ensures var asg' := Assigned(Abs(es, n, v), asg);
            |asg'| == v + NewVars(es) && forall i | 0 <= i < |asg'| :: asg'[i] == (n, i)
    decreases es
  {
    match es
    case Nil =>
    case Cons(Var(New), tl) =>
      assert (n, v) !in asg;
      NumberCanonical(tl, n, v + 1, asg + [(n, v)]);
    case Cons(Var(Ref(i)), tl) =>
      FirstIndex(asg, (n, i), i);
      NumberCanonical(tl, n, v, asg);
    case Cons(Sym(_), tl) => NumberCanonical(tl, n, v, asg);
    case Cons(App(kids), tl) =>
      NumberCanonical(kids, n, v, asg);
      NumberCanonical(tl, n, v + NewVars(kids), Assigned(Abs(kids, n, v), asg));
  }

  /* ---- Renaming ---- */

  ghost predicate InjectiveOn<X(!new), Y>(f: X -> Y, p: X -> bool) {
    forall x, y | p(x) && p(y) && f(x) == f(y) :: x == y
  }

  function MapSeq<X, Y>(f: X -> Y, s: seq<X>): (r: seq<Y>)
    ensures |r| == |s| && forall i | 0 <= i < |s| :: r[i] == f(s[i])
  {
    seq(|s|, i requires 0 <= i < |s| => f(s[i]))
  }

  // An injective renaming does not change the numbering.
  lemma {:induction false} NumberRenamed<X(!new), Y>(f: X -> Y, ts: Terms<X>, asg: seq<X>, p: X -> bool)
    requires InjectiveOn(f, p)
    requires forall x | Occurs(x, ts) || x in asg :: p(x)
    ensures Number(Subst(Renaming(f), ts), MapSeq(f, asg)) == Number(ts, asg)
    ensures Assigned(Subst(Renaming(f), ts), MapSeq(f, asg)) == MapSeq(f, Assigned(ts, asg))
    ensures forall x | x in Assigned(ts, asg) :: p(x)
    decreases ts
  {
    match ts
    case Nil =>
    case Cons(Var(x), tl) =>
      var fa := MapSeq(f, asg);
      assert x in asg <==> f(x) in fa by {
        if x in asg {
          assert fa[IndexOf(asg, x)] == f(x);
        }
        if f(x) in fa {
          assert asg[IndexOf(fa, f(x))] == x;
        }
      }
      if x in asg {
        IndexOfMapped(f, asg, x, p);
        NumberRenamed(f, tl, asg, p);
      } else {
        assert MapSeq(f, asg + [x]) == fa + [f(x)];
        NumberRenamed(f, tl, asg + [x], p);
      }
    case Cons(Sym(_), tl) => NumberRenamed(f, tl, asg, p);
    case Cons(App(kids), tl) =>
      NumberRenamed(f, kids, asg, p);
      NumberRenamed(f, tl, Assigned(kids, asg), p);
  }

  lemma IndexOfMapped<X(!new), Y>(f: X -> Y, s: seq<X>, x: X, p: X -> bool)
    requires InjectiveOn(f, p) && x in s && forall y | y in s :: p(y)
    ensures f(x) in MapSeq(f, s) && IndexOf(MapSeq(f, s), f(x)) == IndexOf(s, x)
  {
    FirstIndex(MapSeq(f, s), f(x), IndexOf(s, x));
  }
}
