/** `serialize2` with `VARNAMES`, and that the parser undoes it. */
module Printing {
  import opened Items
  import opened Slices
  import opened Terms
  import opened Encoding
  import opened Wrappers
  import opened Numbering
  import opened Traversals
  import opened Sexprs

  // `VARNAMES`: $a to $j, then $x10 to $x63.
  function VarName(i: nat): Name {
    if i < 10 then [DOLLAR, 97 + i] else [DOLLAR, 120, 48 + i / 10 % 10, 48 + i % 10]
  }

  lemma VarNamesAre(i: nat)
    requires i < 64
    ensures i < 10 ==> VarName(i) == ['$' as int, "abcdefghij"[i] as int]
    ensures i >= 10 ==> VarName(i) == ['$' as int, 'x' as int, "0123456789"[i / 10] as int, "0123456789"[i % 10] as int]
  {
  }

  lemma VarNamesDiffer(i: nat, j: nat)
    requires i < 64 && j < 64 && VarName(i) == VarName(j)
    ensures i == j
  {
    assert VarName(i)[1] == VarName(j)[1];
    if i >= 10 && j >= 10 {
      assert VarName(i)[2] == VarName(j)[2] && VarName(i)[3] == VarName(j)[3];
    }
  }

  datatype Printer = Printer(out: seq<byte>, transient: bool, n: nat)

  // The next item of a list is set off by a space.
  function Spaced(p: Printer, text: seq<byte>): Printer {
    p.(out := p.out + (if p.transient then [SPACE] else []) + text)
  }

  function OnNewVar(p: Printer, o: nat): (Printer, ()) {
    (Spaced(p, VarName(p.n)).(n := p.n + 1), ())
  }

  function OnVarRef(p: Printer, o: nat, i: nat): (Printer, ()) {
    (Spaced(p, VarName(i)), ())
  }

  function OnSymbol(p: Printer, o: nat, s: Symbol): (Printer, ()) {
    (Spaced(p, s), ())
  }

  function OnZero(p: Printer, o: nat, a: nat): (Printer, ()) {
    (Spaced(p, [OPEN]).(transient := false), ())
  }

  function OnAdd(p: Printer, o: nat, acc: (), sub: ()): (Printer, ()) {
    (p.(transient := true), ())
  }

  function OnFinalize(p: Printer, o: nat, acc: ()): (Printer, ()) {
    (p.(out := p.out + [CLOSE]), ())
  }

  // `SerializerTraversal2`, with symbols printed as they are.
  function SerializerTraversal(): Traversal<Printer, (), ()> {
    Traversal(OnNewVar, OnVarRef, OnSymbol, OnZero, OnAdd, OnFinalize)
  }

  // The expressions with their variables named, `v` variables introduced before.
  function NamedOf(es: Exprs, v: nat): Terms<Name> {
    match es
    case Nil => Nil
    case Cons(Var(New), tl) => Cons(Var(VarName(v)), NamedOf(tl, v + 1))
    case Cons(Var(Ref(i)), tl) => Cons(Var(VarName(i)), NamedOf(tl, v))
    case Cons(Sym(s), tl) => Cons(Sym(s), NamedOf(tl, v))
    case Cons(App(kids), tl) => Cons(App(NamedOf(kids, v)), NamedOf(tl, v + NewVars(kids)))
  }

  function Named1(e: Expr, v: nat): Named {
    match e
    case Var(New) => Var(VarName(v))
    case Var(Ref(i)) => Var(VarName(i))
    case Sym(s) => Sym(s)
    case App(kids) => App(NamedOf(kids, v))
  }

  // The text of a list of terms.
  function Text(ts: Terms<Name>, lead: bool): seq<byte> {
    match ts
    case Nil => []
    case Cons(t, tl) => (if lead then [SPACE] else []) + Word(t) + Text(tl, true)
  }

  function Word(t: Named): seq<byte> {
    match t
    case Var(x) => x
    case Sym(s) => s
    case App(kids) => [OPEN] + Text(kids, false) + [CLOSE]
  }

  function Lead(p: Printer): seq<byte> {
    if p.transient then [SPACE] else []
  }

  // One step of the fold.
  lemma PrintStep(p: Printer, o: nat, e: Expr, tl: Exprs)
    ensures FoldAll(SerializerTraversal(), true, p, o, (), Cons(e, tl)).0
         == FoldAll(SerializerTraversal(), true, Visit(SerializerTraversal(), true, p, o, e).0.(transient := true), o + EncLen(One(e)), (), tl).0
  {
    hide EncLen;
  }

  lemma PrintLeaf(p: Printer, o: nat, e: Expr)
    requires !e.App?
    ensures var q := Visit(SerializerTraversal(), true, p, o, e).0;
            q.out == p.out + Lead(p) + Word(Named1(e, p.n)) && q.n == p.n + NewVars(One(e))
  {
    OneFacts(e, 0, 0);
    hide EncLen, NewVars, FoldAll, NamedOf, Text;
  }

  lemma PrintNode(p: Printer, o: nat, kids: Exprs)
    ensures var st, z := SerializerTraversal(), Printer(p.out + Lead(p) + [OPEN], false, p.n);
            var q := FoldAll(st, true, z, o + 1, (), kids).0;
            Visit(st, true, p, o, App(kids)).0 == q.(out := q.out + [CLOSE])
  {
    hide EncLen, NewVars, FoldAll, NamedOf, Text, Word;
  }

  lemma {:induction false} PrintsText(p: Printer, o: nat, es: Exprs)
    ensures FoldAll(SerializerTraversal(), true, p, o, (), es).0
         == Printer(p.out + Text(NamedOf(es, p.n), p.transient), p.transient || es.Cons?, p.n + NewVars(es))
    decreases es, 0
  {
    hide *;
    match es
    case Nil =>
      PrintNothing(p, o);
    case Cons(e, tl) =>
      PrintsWord(p, o, e);
      var q := Visit(SerializerTraversal(), true, p, o, e).0;
      PrintStep(p, o, e, tl);
      PrintsText(q.(transient := true), o + EncLen(One(e)), tl);
      NamedCons(e, tl, p.n);
      var w := Word(Named1(e, p.n));
      TextCons(Named1(e, p.n), NamedOf(tl, q.n), p, w);
  }

  lemma PrintNothing(p: Printer, o: nat)
    ensures FoldAll(SerializerTraversal(), true, p, o, (), Nil).0 == p
    ensures p.out + Text(NamedOf(Nil, p.n), p.transient) == p.out && NewVars(Nil) == 0
  {
    assert p.out + [] == p.out;
  }

  lemma TextCons(t: Named, tl: Terms<Name>, p: Printer, w: seq<byte>)
    requires w == Word(t)
    ensures p.out + Text(Cons(t, tl), p.transient) == p.out + Lead(p) + w + Text(tl, true)
  {
    hide Word;
    var rest := Text(tl, true);
    assert p.out + (Lead(p) + w + rest) == p.out + Lead(p) + w + rest;
  }

  lemma PrintsWord(p: Printer, o: nat, e: Expr)
    ensures var q := Visit(SerializerTraversal(), true, p, o, e).0;
            q.out == p.out + Lead(p) + Word(Named1(e, p.n)) && q.n == p.n + NewVars(One(e))
    decreases e, 1
  {
    hide *;
    if e.App? {
      var z := Printer(p.out + Lead(p) + [OPEN], false, p.n);
      PrintsText(z, o + 1, e.args);
      PrintNode(p, o, e.args);
      OneFacts(e, 0, 0);
      WordApp(e.args, p);
    } else {
      PrintLeaf(p, o, e);
    }
  }

  lemma WordApp(kids: Exprs, p: Printer)
    ensures p.out + Lead(p) + Word(Named1(App(kids), p.n)) == p.out + Lead(p) + [OPEN] + Text(NamedOf(kids, p.n), false) + [CLOSE]
  {
    var w := Text(NamedOf(kids, p.n), false);
    assert p.out + Lead(p) + [OPEN] + w + [CLOSE] == p.out + Lead(p) + ([OPEN] + w + [CLOSE]);
  }

  lemma NamedCons(e: Expr, tl: Exprs, v: nat)
    ensures NamedOf(Cons(e, tl), v) == Cons(Named1(e, v), NamedOf(tl, v + NewVars(One(e))))
    ensures NamedOf(One(e), v) == One(Named1(e, v))
    ensures NewVars(Cons(e, tl)) == NewVars(One(e)) + NewVars(tl)
  {
  }

  // `serialize2`
  method Serialize2(b: seq<byte>, ghost e: Expr) returns (out: seq<byte>)
    requires At(b, 0, One(e)) && NewVars(One(e)) <= MAX_VARS && ClosedFrom(One(e), 0)
    ensures out == Word(Named1(e, 0))
  {
    hide SerializerTraversal, Visit, At, ClosedFrom, Word, NamedOf;
    var _, p, _ := ExecuteLoop(SerializerTraversal(), Printer([], false, 0), b, 0, e);
    PrintsWord(Printer([], false, 0), 0, e);
    out := p.out;
    assert out == [] + [] + Word(Named1(e, 0));
  }

  /* ---- Reading what was printed ---- */

  // The tokenizer that takes a symbol's text as its bytes.
  function Identity(s: Name): Symbol {
    s
  }

  predicate TokenChars(s: seq<byte>) {
    forall k | 0 <= k < |s| :: !EndsToken(s[k])
  }

  predicate Plain(s: Symbol) {
    s != [] && s[0] != SEMICOLON && s[0] != DOLLAR && s[0] != QUOTE && TokenChars(s)
  }

  // From index `i` on, the first quote that is not escaped is the last byte.
  predicate Closes(s: Symbol, i: nat)
    decreases |s| - i
  {
    && i < |s|
    && if s[i] == QUOTE then i + 1 == |s|
       else if s[i] == BACKSLASH then Closes(s, i + 2)
       else Closes(s, i + 1)
  }

  predicate Quoted(s: Symbol) {
    s != [] && s[0] == QUOTE && Closes(s, 1)
  }

  predicate Readable(ts: Terms<Name>) {
    match ts
    case Nil => true
    case Cons(Var(x), tl) => x != [] && x[0] == DOLLAR && TokenChars(x) && Readable(tl)
    case Cons(Sym(s), tl) => (Plain(s) || Quoted(s)) && Readable(tl)
    case Cons(App(kids), tl) => Readable(kids) && Readable(tl)
  }

  predicate Delimited(src: seq<byte>, j: nat) {
    j == |src| || (j < |src| && EndsToken(src[j]))
  }

  lemma TokenHere(src: seq<byte>, i: nat, w: seq<byte>)
    requires Here(src, i, w) && TokenChars(w) && Delimited(src, i + |w|)
    ensures TokenEnd(src, i) == i + |w|
  {
    forall k | i <= k < i + |w| ensures !EndsToken(src[k]) {
      assert src[k] == src[i..i + |w|][k - i];
    }
  }

  lemma {:induction false} StringHere(src: seq<byte>, i: nat, w: seq<byte>, k: nat)
    requires Here(src, i, w) && Closes(w, k)
    ensures i + k <= |src| && StringEnd(src, i + k) == Some(i + |w|)
    decreases |w| - k
  {
    assert src[i + k] == src[i..i + |w|][k] == w[k];
    if w[k] == BACKSLASH {
      StringHere(src, i, w, k + 2);
    } else if w[k] != QUOTE {
      StringHere(src, i, w, k + 1);
    }
  }

  lemma ReadsSymbol(src: seq<byte>, i: nat, s: Symbol)
    requires Here(src, i, s) && (Plain(s) || Quoted(s)) && Delimited(src, i + |s|)
    ensures i <= |src| && Read(Identity, src, i) == Ok((Sym(s), i + |s|))
  {
    assert src[i] == src[i..i + |s|][0] == s[0];
    if Quoted(s) {
      StringHere(src, i, s, 1);
    } else {
      TokenHere(src, i, s);
      TokenStart(src, i);
    }
    assert SymbolEnd(src, i) == Some(i + |s|);
    assert src[i..i + |s|] == s;
  }

  lemma ReadsName(src: seq<byte>, i: nat, x: Name)
    requires Here(src, i, x) && x != [] && x[0] == DOLLAR && TokenChars(x) && Delimited(src, i + |x|)
    ensures i <= |src| && Read(Identity, src, i) == Ok((Var(x), i + |x|))
  {
    assert src[i] == src[i..i + |x|][0] == x[0];
    TokenHere(src, i, x);
    TokenStart(src, i);
  }

  lemma {:induction false} ReadsWord(src: seq<byte>, i: nat, t: Named)
    requires Readable(One(t)) && Here(src, i, Word(t)) && Delimited(src, i + |Word(t)|)
    ensures i <= |src| && Read(Identity, src, i) == Ok((t, i + |Word(t)|))
    ensures i < |src| && src[i] != CLOSE && !IsWhitespace(src[i])
    decreases t, 1
  {
    hide TokenEnd, SymbolEnd, Read, ReadList, Plain, Quoted;
    match t
    case Var(x) => ReadsName(src, i, x); HereFirst(src, i, x);
    case Sym(s) => SymbolFirst(s); ReadsSymbol(src, i, s); HereFirst(src, i, s);
    case App(kids) =>
      var w := Text(kids, false);
      assert Word(t) == [OPEN] + (w + [CLOSE]);
      HereSplit(src, i, [OPEN], w + [CLOSE]);
      HereFirst(src, i, Word(t));
      ReadsText(src, i + 1, kids, false);
      ReadApp(src, i);
  }

  lemma ReadApp(src: seq<byte>, i: nat)
    requires i < |src| && src[i] == OPEN
    ensures Read(Identity, src, i) == var l := ReadList(Identity, src, i + 1); if l.Err? then Err(l.error) else Ok((App(l.value.0), l.value.1))
  {
  }

  lemma SymbolFirst(s: Symbol)
    requires Plain(s) || Quoted(s)
    ensures s != [] && !EndsToken(s[0])
  {
  }

  lemma {:induction false} ReadsText(src: seq<byte>, i: nat, ts: Terms<Name>, lead: bool)
    requires Readable(ts) && Here(src, i, Text(ts, lead) + [CLOSE])
    ensures i <= |src| && ReadList(Identity, src, i) == Ok((ts, i + |Text(ts, lead)| + 1))
    decreases ts, 0
  {
    hide Read, ReadList, Word;
    match ts
    case Nil =>
      assert Text(ts, lead) + [CLOSE] == [CLOSE];
      HereFirst(src, i, [CLOSE]);
      ReadListClose(src, i);
    case Cons(t, tl) =>
      hide *;
      TextSplit(src, i, t, tl, lead);
      ReadableCons(t, tl);
      var k := if lead then i + 1 else i;
      ReadsWord(src, k, t);
      ReadsText(src, k + |Word(t)|, tl, true);
      ReadListElement(src, k, t, tl);
      if lead {
        ReadListSpace(src, i);
      }
  }

  lemma TextSplit(src: seq<byte>, i: nat, t: Named, tl: Terms<Name>, lead: bool)
    requires Here(src, i, Text(Cons(t, tl), lead) + [CLOSE])
    ensures var k := if lead then i + 1 else i;
            && (lead ==> i < |src| && src[i] == SPACE)
            && Here(src, k, Word(t)) && Here(src, k + |Word(t)|, Text(tl, true) + [CLOSE])
            && Delimited(src, k + |Word(t)|)
            && i + |Text(Cons(t, tl), lead)| == k + |Word(t)| + |Text(tl, true)|
  {
    var sp: seq<byte> := if lead then [SPACE] else [];
    var w, rest := Word(t), Text(tl, true) + [CLOSE];
    TextIs(t, tl, lead);
    NextByte(tl);
    hide *;
    HereSplit(src, i, sp, w + rest);
    HereSplit(src, i + |sp|, w, rest);
    Starts(src, i + |sp| + |w|, rest);
    if lead {
      HereFirst(src, i, sp);
    }
  }

  lemma Starts(src: seq<byte>, j: nat, w: seq<byte>)
    requires Here(src, j, w) && w != [] && EndsToken(w[0])
    ensures Delimited(src, j)
  {
    HereFirst(src, j, w);
  }

  lemma TextIs(t: Named, tl: Terms<Name>, lead: bool)
    ensures var sp: seq<byte> := if lead then [SPACE] else [];
            && Text(Cons(t, tl), lead) + [CLOSE] == sp + (Word(t) + (Text(tl, true) + [CLOSE]))
            && |Text(Cons(t, tl), lead)| == |sp| + |Word(t)| + |Text(tl, true)|
  {
    hide Word;
  }

  lemma ReadListClose(src: seq<byte>, i: nat)
    requires i < |src| && src[i] == CLOSE
    ensures ReadList(Identity, src, i) == Ok((Nil, i + 1))
  {
  }

  lemma ReadListSpace(src: seq<byte>, i: nat)
    requires i < |src| && src[i] == SPACE
    ensures ReadList(Identity, src, i) == ReadList(Identity, src, i + 1)
  {
    hide Read;
  }

  lemma ReadListElement(src: seq<byte>, i: nat, t: Named, tl: Terms<Name>)
    requires i < |src| && src[i] != CLOSE && !IsWhitespace(src[i])
    requires Read(Identity, src, i).Ok? && Read(Identity, src, i).value.0 == t
    requires ReadList(Identity, src, Read(Identity, src, i).value.1).Ok? && ReadList(Identity, src, Read(Identity, src, i).value.1).value.0 == tl
    ensures ReadList(Identity, src, i) == Ok((Cons(t, tl), ReadList(Identity, src, Read(Identity, src, i).value.1).value.1))
  {
    hide Read;
  }

  lemma ReadableCons(t: Named, tl: Terms<Name>)
    ensures Readable(Cons(t, tl)) <==> Readable(One(t)) && Readable(tl)
  {
  }

  lemma NextByte(tl: Terms<Name>)
    ensures var rest := Text(tl, true) + [CLOSE]; rest != [] && EndsToken(rest[0])
  {
    hide Word;
  }

  /* ---- Parsing undoes printing ---- */

  // Plain tokens and quoted strings.
  predicate ReadableSymbols(es: Exprs) {
    match es
    case Nil => true
    case Cons(Var(_), tl) => ReadableSymbols(tl)
    case Cons(Sym(s), tl) => (Plain(s) || Quoted(s)) && ReadableSymbols(tl)
    case Cons(App(kids), tl) => ReadableSymbols(kids) && ReadableSymbols(tl)
  }

  lemma {:induction false} NamedReadable(es: Exprs, v: nat)
    requires ReadableSymbols(es) && ClosedFrom(es, v) && v + NewVars(es) <= MAX_VARS
    ensures Readable(NamedOf(es, v))
    decreases es
  {
    hide TokenChars, Plain, Quoted, VarName;
    match es
    case Nil =>
    case Cons(Var(New), tl) => VarNameReadable(v); NamedReadable(tl, v + 1);
    case Cons(Var(Ref(i)), tl) => VarNameReadable(i); NamedReadable(tl, v);
    case Cons(Sym(_), tl) => NamedReadable(tl, v);
    case Cons(App(kids), tl) =>
      NamedReadable(kids, v);
      NamedReadable(tl, v + NewVars(kids));
  }

  lemma VarNameReadable(i: nat)
    requires i < MAX_VARS
    ensures VarName(i) != [] && VarName(i)[0] == DOLLAR && TokenChars(VarName(i))
  {
  }

  function NameOf(x: ExprVar): Name {
    VarName(x.1)
  }

  lemma {:induction false} NamedIsRenamed(es: Exprs, v: nat)
    ensures NamedOf(es, v) == Subst(Renaming(NameOf), Abs(es, 0, v))
    decreases es
  {
    match es
    case Nil =>
    case Cons(Var(New), tl) =>
      assert NameOf((0, v)) == VarName(v);
      NamedIsRenamed(tl, v + 1);
    case Cons(Var(Ref(i)), tl) =>
      assert NameOf((0, i)) == VarName(i);
      NamedIsRenamed(tl, v);
    case Cons(Sym(_), tl) => NamedIsRenamed(tl, v);
    case Cons(App(kids), tl) =>
      NamedIsRenamed(kids, v);
      NamedIsRenamed(tl, v + NewVars(kids));
  }

  predicate InRange(x: ExprVar) {
    x.0 == 0 && x.1 < MAX_VARS
  }

  lemma {:induction false} AbsInRange(es: Exprs, v: nat, x: ExprVar)
    requires ClosedFrom(es, v) && v + NewVars(es) <= MAX_VARS && Occurs(x, Abs(es, 0, v))
    ensures InRange(x)
    decreases es
  {
    match es
    case Cons(Var(New), tl) => if x != (0, v) { AbsInRange(tl, v + 1, x); }
    case Cons(Var(Ref(i)), tl) => if x != (0, i) { AbsInRange(tl, v, x); }
    case Cons(Sym(_), tl) => AbsInRange(tl, v, x);
    case Cons(App(kids), tl) =>
      if Occurs(x, Abs(kids, 0, v)) {
        AbsInRange(kids, v, x);
      } else {
        AbsInRange(tl, v + NewVars(kids), x);
      }
  }

  // Names are numbered back to the levels they were made from.
  lemma NamedNumbers(e: Expr)
    requires ClosedFrom(One(e), 0) && NewVars(One(e)) <= MAX_VARS
    ensures Number(One(Named1(e, 0)), []) == One(e)
    ensures |Assigned(One(Named1(e, 0)), [])| <= MAX_VARS
  {
    var ts := Abs(One(e), 0, 0);
    NamedIsRenamed(One(e), 0);
    NamedCons(e, Nil, 0);
    forall x | Occurs(x, ts) ensures InRange(x) {
      AbsInRange(One(e), 0, x);
    }
    assert InjectiveOn(NameOf, InRange) by {
      forall x, y | InRange(x) && InRange(y) && NameOf(x) == NameOf(y) ensures x == y {
        VarNamesDiffer(x.1, y.1);
      }
    }
    assert MapSeq(NameOf, []) == [];
    NumberRenamed(NameOf, ts, [], InRange);
    NumberCanonical(One(e), 0, 0, []);
  }

  // What is printed is read as the expression it was printed from.
  lemma ReadUndoesPrint(e: Expr)
    requires WF(One(e)) && ClosedFrom(One(e), 0) && NewVars(One(e)) <= MAX_VARS && ReadableSymbols(One(e))
    ensures var t := Named1(e, 0);
            && Read(Identity, Word(t), 0) == Ok((t, |Word(t)|))
            && Number(One(t), []) == One(e) && Fits(One(t), [])
  {
    hide *;
    var t := Named1(e, 0);
    FitsNumbered(e);
    NamedNumbers(e);
    NamedReadable(One(e), 0);
    NamedCons(e, Nil, 0);
    WholeText(Word(t));
    ReadsWord(Word(t), 0, t);
  }

  lemma WholeText(w: seq<byte>)
    ensures Here(w, 0, w) && Delimited(w, |w|)
  {
  }

  lemma FitsNumbered(e: Expr)
    requires WF(One(e)) && ClosedFrom(One(e), 0) && NewVars(One(e)) <= MAX_VARS
    ensures Fits(One(Named1(e, 0)), [])
  {
    NamedNumbers(e);
  }

  // Printing an expression with `VARNAMES` and parsing the text rebuilds its bytes.
  method PrintAndParse(b: seq<byte>, ghost e: Expr) returns (out: seq<byte>)
    requires At(b, 0, One(e)) && ClosedFrom(One(e), 0) && NewVars(One(e)) <= MAX_VARS && ReadableSymbols(One(e))
    ensures out == Enc(One(e))
  {
    hide Read, Word, Enc, ClosedFrom, ReadableSymbols, Named1, Number, Assigned;
    ReadUndoesPrint(e);
    var text := Serialize2(b, e);
    var it := new Context(text);
    var target := new Target([]);
    var failure := Sexpr(Identity, it, target);
    out := target.out;
    assert failure.None?;
    assert [] + Enc(One(e)) == Enc(One(e));
  }
}
