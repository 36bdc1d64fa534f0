/** Which texts the S-expression parser accepts: white space and comments between the tokens. */
module SexprGrammar {
  import opened Items
  import opened Slices
  import opened Terms
  import opened Encoding
  import opened Wrappers
  import opened Numbering
  import opened Sexprs
  import opened Printing

  /* ---- Reading depends only on what follows ---- */

  function Moved<X>(r: Result<(X, nat), ParserError>, n: nat): Result<(X, nat), ParserError> {
    if r.Err? then r else Ok((r.value.0, r.value.1 + n))
  }

  lemma {:induction false} CommentEndMoved(p: seq<byte>, s: seq<byte>, i: nat)
    requires i <= |s|
    ensures CommentEnd(p + s, |p| + i) == |p| + CommentEnd(s, i)
    decreases |s| - i
  {
    if i < |s| && s[i] != NEWLINE {
      CommentEndMoved(p, s, i + 1);
    }
  }

  lemma {:induction false} TokenEndMoved(p: seq<byte>, s: seq<byte>, i: nat)
    requires i <= |s|
    ensures TokenEnd(p + s, |p| + i) == |p| + TokenEnd(s, i)
    decreases |s| - i
  {
    if i < |s| && !EndsToken(s[i]) {
      TokenEndMoved(p, s, i + 1);
    }
  }

  lemma {:induction false} StringEndMoved(p: seq<byte>, s: seq<byte>, i: nat)
    requires i <= |s|
    ensures var j := StringEnd(s, i); StringEnd(p + s, |p| + i) == if j.None? then None else Some(|p| + j.value)
    decreases |s| - i
  {
    if i < |s| && s[i] != QUOTE {
      if s[i] != BACKSLASH {
        StringEndMoved(p, s, i + 1);
      } else if i + 1 < |s| {
        StringEndMoved(p, s, i + 2);
      }
    }
  }

  lemma SliceMoved(p: seq<byte>, s: seq<byte>, i: nat, j: nat)
    requires i <= j <= |s|
    ensures (p + s)[|p| + i..|p| + j] == s[i..j]
  {
  }

  lemma ReadStep(tok: Name -> Symbol, src: seq<byte>, i: nat)
    requires i < |src|
    ensures src[i] == SEMICOLON ==> Read(tok, src, i) == Read(tok, src, CommentEnd(src, i + 1))
    ensures IsWhitespace(src[i]) ==> Read(tok, src, i) == Read(tok, src, i + 1)
    ensures src[i] == DOLLAR ==> var j := TokenEnd(src, i + 1); Read(tok, src, i) == Ok((Var(src[i..j]), j))
    ensures src[i] == OPEN ==>
      var l := ReadList(tok, src, i + 1);
      Read(tok, src, i) == if l.Err? then Err(l.error) else Ok((App(l.value.0), l.value.1))
    ensures src[i] == CLOSE ==> Read(tok, src, i) == Err(UnexpectedRightBracket)
    ensures src[i] != SEMICOLON && src[i] != DOLLAR && !EndsToken(src[i]) ==>
      var j := SymbolEnd(src, i);
      Read(tok, src, i) == if j.None? then Err(UnfinishedEscapeSequence) else Ok((Sym(tok(src[i..j.value])), j.value))
  {
    hide CommentEnd, TokenEnd, StringEnd, SymbolEnd, ReadList;
  }

  lemma SymbolEndMoved(p: seq<byte>, s: seq<byte>, i: nat)
    requires i < |s|
    ensures var j := SymbolEnd(s, i); SymbolEnd(p + s, |p| + i) == if j.None? then None else Some(|p| + j.value)
  {
    hide TokenEnd, StringEnd;
    StringEndMoved(p, s, i + 1);
    TokenEndMoved(p, s, i + 1);
  }

  lemma {:induction false} ReadMoved(tok: Name -> Symbol, p: seq<byte>, s: seq<byte>, i: nat)
    requires i <= |s|
    ensures Read(tok, p + s, |p| + i) == Moved(Read(tok, s, i), |p|)
    decreases |s| - i, 0
  {
    hide Read, CommentEnd, TokenEnd, StringEnd, SymbolEnd, ReadList;
    if i == |s| {
      ReadNothing(tok, s);
      ReadNothing(tok, p + s);
    } else {
      assert (p + s)[|p| + i] == s[i];
      ReadStep(tok, s, i);
      ReadStep(tok, p + s, |p| + i);
      if s[i] == SEMICOLON {
        CommentEndMoved(p, s, i + 1);
        ReadMoved(tok, p, s, CommentEnd(s, i + 1));
      } else if IsWhitespace(s[i]) {
        ReadMoved(tok, p, s, i + 1);
      } else if s[i] == DOLLAR {
        TokenEndMoved(p, s, i + 1);
        SliceMoved(p, s, i, TokenEnd(s, i + 1));
      } else if s[i] == OPEN {
        ReadListMoved(tok, p, s, i + 1);
      } else if s[i] != CLOSE {
        SymbolEndMoved(p, s, i);
        if SymbolEnd(s, i).Some? {
          SliceMoved(p, s, i, SymbolEnd(s, i).value);
        }
      }
    }
  }

  lemma ReadNothing(tok: Name -> Symbol, src: seq<byte>)
    ensures Read(tok, src, |src|) == Err(InputFinished)
  {
  }

  lemma {:induction false} ReadListMoved(tok: Name -> Symbol, p: seq<byte>, s: seq<byte>, i: nat)
    requires i <= |s|
    ensures ReadList(tok, p + s, |p| + i) == Moved(ReadList(tok, s, i), |p|)
    decreases |s| - i, 1
  {
    hide Read;
    if i < |s| && s[i] != CLOSE {
      if IsWhitespace(s[i]) {
        ReadListMoved(tok, p, s, i + 1);
      } else {
        ReadMoved(tok, p, s, i);
        if Read(tok, s, i).Ok? {
          ReadListMoved(tok, p, s, Read(tok, s, i).value.1);
        }
      }
    }
  }

  /* ---- Comments and white space ---- */

  // A space, tab or line feed, or a comment without line feed up to its line feed.
  datatype Filler = Blank(c: byte) | Comment(text: seq<byte>) {
    predicate Valid() {
      match this
      case Blank(c) => c == 32 || c == 9 || c == 10
      case Comment(text) => 10 !in text
    }

    function Text(): seq<byte> {
      match this
      case Blank(c) => [c]
      case Comment(text) => [59] + (text + [10])
    }
  }

  predicate AllFill(gs: seq<Filler>) {
    forall k | 0 <= k < |gs| :: gs[k].Valid()
  }

  function FillText(gs: seq<Filler>): seq<byte> {
    if gs == [] then [] else gs[0].Text() + FillText(gs[1..])
  }

  lemma {:induction false} CommentHere(src: seq<byte>, i: nat, text: seq<byte>)
    requires 10 !in text && Here(src, i, text + [10])
    ensures i <= |src| && CommentEnd(src, i) == i + |text| + 1
    decreases |text|
  {
    HereFirst(src, i, text + [10]);
    if text != [] {
      assert (text + [10])[0] == text[0] && (text + [10])[1..] == text[1..] + [10];
      CommentHere(src, i + 1, text[1..]);
    }
  }

  lemma FillerRead(tok: Name -> Symbol, src: seq<byte>, i: nat, g: Filler)
    requires g.Valid() && Here(src, i, g.Text())
    ensures i + |g.Text()| <= |src| && Read(tok, src, i) == Read(tok, src, i + |g.Text()|)
  {
    hide CommentEnd, ReadList;
    HereFirst(src, i, g.Text());
    if g.Comment? {
      HereSplit(src, i, [59], g.text + [10]);
      CommentHere(src, i + 1, g.text);
    }
  }

  lemma FillCons(gs: seq<Filler>)
    ensures gs == [] ==> FillText(gs) == []
    ensures gs != [] ==> FillText(gs) == gs[0].Text() + FillText(gs[1..])
    ensures gs != [] && AllFill(gs) ==> gs[0].Valid() && AllFill(gs[1..])
  {
  }

  lemma {:induction false} FillRead(tok: Name -> Symbol, src: seq<byte>, i: nat, gs: seq<Filler>)
    requires AllFill(gs) && Here(src, i, FillText(gs))
    ensures i + |FillText(gs)| <= |src| && Read(tok, src, i) == Read(tok, src, i + |FillText(gs)|)
    decreases |gs|
  {
    hide *;
    FillCons(gs);
    HereIs(src, i, FillText(gs));
    if gs != [] {
      HereSplit(src, i, gs[0].Text(), FillText(gs[1..]));
      FillerRead(tok, src, i, gs[0]);
      FillRead(tok, src, i + |gs[0].Text()|, gs[1..]);
    }
  }

  // A comment before an expression only moves it.
  lemma CommentSkipped(tok: Name -> Symbol, text: seq<byte>, rest: seq<byte>)
    requires 10 !in text
    ensures Read(tok, [59] + text + [10] + rest, 0) == Moved(Read(tok, rest, 0), |text| + 2)
  {
    hide Read, Here;
    var p := [59] + text + [10];
    assert p + rest == Comment(text).Text() + rest && |p| == |text| + 2;
    HereAll(p + rest);
    HereSplit(p + rest, 0, Comment(text).Text(), rest);
    FillerRead(tok, p + rest, 0, Comment(text));
    ReadMoved(tok, p, rest, 0);
  }

  /* ---- The texts of an expression ---- */

  // A byte of a name or a plain symbol: neither white space nor a bracket.
  predicate TokenByte(c: byte) {
    c != 32 && c != 9 && c != 10 && c != 40 && c != 41
  }

  predicate TokenBytes(w: seq<byte>) {
    forall k | 0 <= k < |w| :: TokenByte(w[k])
  }

  // From index `i` on, the first quote that is not escaped is the last byte.
  predicate Closed(w: seq<byte>, i: nat)
    decreases |w| - i
  {
    && i < |w|
    && if w[i] == 34 then i + 1 == |w| else if w[i] == 92 then Closed(w, i + 2) else Closed(w, i + 1)
  }

  // From index `i` on there is no such quote, and no backslash that escapes nothing.
  predicate Unclosed(w: seq<byte>, i: nat)
    decreases |w| - i
  {
    || i == |w|
    || (i < |w| && w[i] != 34 && if w[i] == 92 then i + 1 < |w| && Unclosed(w, i + 2) else Unclosed(w, i + 1))
  }

  predicate PlainSymbol(w: seq<byte>) {
    w != [] && w[0] != 59 && w[0] != 36 && w[0] != 34 && TokenBytes(w)
  }

  predicate QuotedSymbol(w: seq<byte>) {
    w != [] && w[0] == 34 && Closed(w, 1)
  }

  // An expression with its tokens and with what stands between them. A comment cannot stand before
  // the bracket that ends a list.
  datatype Doc = Named(name: Name) | Token(text: seq<byte>) | Listed(elems: Docs)
  datatype Docs = EndList(gap: seq<byte>) | NextElem(fill: seq<Filler>, head: Doc, tail: Docs)

  function DocText(d: Doc): seq<byte> {
    match d
    case Named(x) => x
    case Token(w) => w
    case Listed(ds) => [40] + DocsText(ds)
  }

  function DocsText(ds: Docs): seq<byte> {
    match ds
    case EndList(g) => g + [41]
    case NextElem(gs, x, tl) => FillText(gs) + (DocText(x) + DocsText(tl))
  }

  function TermOf(tok: Name -> Symbol, d: Doc): Term<Name> {
    match d
    case Named(x) => Var(x)
    case Token(w) => Sym(tok(w))
    case Listed(ds) => App(TermsOf(tok, ds))
  }

  function TermsOf(tok: Name -> Symbol, ds: Docs): Terms<Name> {
    match ds
    case EndList(_) => Nil
    case NextElem(_, x, tl) => Cons(TermOf(tok, x), TermsOf(tok, tl))
  }

  // Only white space or a bracket ends a name or a plain symbol.
  predicate NeedsEnd(d: Doc) {
    d.Named? || (d.Token? && d.text != [] && d.text[0] != 34)
  }

  predicate Starts(w: seq<byte>) {
    w != [] && !TokenByte(w[0])
  }

  predicate Well(d: Doc) {
    match d
    case Named(x) => x != [] && x[0] == 36 && TokenBytes(x)
    case Token(w) => PlainSymbol(w) || QuotedSymbol(w)
    case Listed(ds) => WellAll(ds)
  }

  predicate WellAll(ds: Docs) {
    match ds
    case EndList(g) => forall k | 0 <= k < |g| :: g[k] == 32 || g[k] == 9 || g[k] == 10
    case NextElem(gs, x, tl) => AllFill(gs) && Well(x) && WellAll(tl) && (NeedsEnd(x) ==> Starts(DocsText(tl)))
  }

  predicate Ends(src: seq<byte>, j: nat) {
    j == |src| || (j < |src| && !TokenByte(src[j]))
  }

  /* ---- Every such text is read as its expression ---- */

  lemma TokenRead(src: seq<byte>, i: nat, w: seq<byte>)
    requires w != [] && TokenBytes(w) && Here(src, i, w) && Ends(src, i + |w|)
    ensures TokenEnd(src, i + 1) == i + |w| && src[i..i + |w|] == w && src[i] == w[0]
  {
    forall k | i <= k < i + |w|
      ensures !EndsToken(src[k])
    {
      assert src[k] == src[i..i + |w|][k - i];
    }
  }

  lemma {:induction false} QuoteRead(src: seq<byte>, i: nat, w: seq<byte>, k: nat)
    requires Here(src, i, w) && Closed(w, k)
    ensures i + k <= |src| && StringEnd(src, i + k) == Some(i + |w|)
    decreases |w| - k
  {
    assert src[i + k] == src[i..i + |w|][k] == w[k];
    if w[k] == 92 {
      QuoteRead(src, i, w, k + 2);
    } else if w[k] != 34 {
      QuoteRead(src, i, w, k + 1);
    }
  }

  lemma SymbolRead(tok: Name -> Symbol, src: seq<byte>, i: nat, w: seq<byte>)
    requires (PlainSymbol(w) && Ends(src, i + |w|)) || QuotedSymbol(w)
    requires Here(src, i, w)
    ensures i < |src| && src[i] == w[0] && w[0] != CLOSE && !IsWhitespace(w[0])
    ensures Read(tok, src, i) == Ok((Sym(tok(w)), i + |w|))
  {
    hide Read, StringEnd, TokenEnd;
    HereFirst(src, i, w);
    if QuotedSymbol(w) {
      QuoteRead(src, i, w, 1);
    } else {
      TokenRead(src, i, w);
      assert TokenByte(w[0]);
    }
    ReadStep(tok, src, i);
  }

  lemma {:induction false} DocRead(tok: Name -> Symbol, src: seq<byte>, i: nat, d: Doc)
    requires Well(d) && Here(src, i, DocText(d)) && (NeedsEnd(d) ==> Ends(src, i + |DocText(d)|))
    ensures i < |src| && src[i] != CLOSE && !IsWhitespace(src[i])
    ensures Read(tok, src, i) == Ok((TermOf(tok, d), i + |DocText(d)|))
    decreases d, 1
  {
    hide Read, ReadList, TokenEnd, Here, TokenBytes, Closed;
    match d
    case Named(x) =>
      HereFirst(src, i, x);
      TokenRead(src, i, x);
      ReadStep(tok, src, i);
    case Token(w) => SymbolRead(tok, src, i, w);
    case Listed(ds) =>
      HereSplit(src, i, [40], DocsText(ds));
      HereFirst(src, i, [40]);
      DocsRead(tok, src, i + 1, ds);
      ReadStep(tok, src, i);
  }

  lemma {:induction false} DocsRead(tok: Name -> Symbol, src: seq<byte>, i: nat, ds: Docs)
    requires WellAll(ds) && Here(src, i, DocsText(ds))
    ensures i <= |src| && ReadList(tok, src, i) == Ok((TermsOf(tok, ds), i + |DocsText(ds)|))
    decreases ds, 0
  {
    hide *;
    match ds
    case EndList(g) => EndRead(tok, src, i, g);
    case NextElem(gs, x, tl) =>
      NextIs(tok, gs, x, tl);
      HereSplit(src, i, FillText(gs), DocText(x) + DocsText(tl));
      var at := i + |FillText(gs)|;
      HereSplit(src, at, DocText(x), DocsText(tl));
      StartsEnds(src, at + |DocText(x)|, DocsText(tl));
      DocRead(tok, src, at, x);
      DocsRead(tok, src, at + |DocText(x)|, tl);
      FillList(tok, src, i, gs, TermOf(tok, x), at + |DocText(x)|, TermsOf(tok, tl), at + |DocText(x)| + |DocsText(tl)|);
  }

  lemma NextIs(tok: Name -> Symbol, gs: seq<Filler>, x: Doc, tl: Docs)
    ensures var ds := NextElem(gs, x, tl);
      && DocsText(ds) == FillText(gs) + (DocText(x) + DocsText(tl))
      && |DocsText(ds)| == |FillText(gs)| + |DocText(x)| + |DocsText(tl)|
      && TermsOf(tok, ds) == Cons(TermOf(tok, x), TermsOf(tok, tl))
      && (WellAll(ds) <==> AllFill(gs) && Well(x) && WellAll(tl) && (NeedsEnd(x) ==> Starts(DocsText(tl))))
  {
    hide AllFill, FillText, Starts, NeedsEnd;
  }

  lemma StartsEnds(src: seq<byte>, j: nat, w: seq<byte>)
    requires Here(src, j, w)
    ensures Starts(w) ==> Ends(src, j)
  {
    if Starts(w) {
      HereFirst(src, j, w);
    }
  }

  lemma {:induction false} EndRead(tok: Name -> Symbol, src: seq<byte>, i: nat, g: seq<byte>)
    requires WellAll(EndList(g)) && Here(src, i, DocsText(EndList(g)))
    ensures i <= |src| && ReadList(tok, src, i) == Ok((TermsOf(tok, EndList(g)), i + |DocsText(EndList(g))|))
    decreases |g|
  {
    hide Read, Here;
    var w := g + [41];
    HereFirst(src, i, w);
    assert w[0] == if g == [] then 41 else g[0];
    if g != [] {
      assert w[1..] == g[1..] + [41];
      EndRead(tok, src, i + 1, g[1..]);
    }
  }

  // In a list, an element with what stands before it.
  lemma {:induction false} FillList(tok: Name -> Symbol, src: seq<byte>, i: nat, gs: seq<Filler>, t: Named, j: nat, ts: Terms<Name>, end: nat)
    requires AllFill(gs) && Here(src, i, FillText(gs))
    requires var at := i + |FillText(gs)|;
      at < |src| && src[at] != CLOSE && !IsWhitespace(src[at]) && Read(tok, src, at) == Ok((t, j))
    requires j <= |src| && ReadList(tok, src, j) == Ok((ts, end))
    ensures i <= |src| && ReadList(tok, src, i) == Ok((Cons(t, ts), end))
    decreases |gs|
  {
    hide *;
    FillCons(gs);
    if gs == [] {
      ListElement(tok, src, i, t, j, ts, end);
    } else {
      HereIs(src, i, FillText(gs));
      HereSplit(src, i, gs[0].Text(), FillText(gs[1..]));
      FillerFirst(src, i, gs[0]);
      if gs[0].Blank? {
        FillList(tok, src, i + 1, gs[1..], t, j, ts, end);
        ListBlank(tok, src, i);
      } else {
        FillRead(tok, src, i, gs);
        ListElement(tok, src, i, t, j, ts, end);
      }
    }
  }

  lemma FillerFirst(src: seq<byte>, i: nat, g: Filler)
    requires g.Valid() && Here(src, i, g.Text())
    ensures i < |src| && src[i] != CLOSE
    ensures g.Blank? ==> |g.Text()| == 1 && IsWhitespace(src[i])
    ensures g.Comment? ==> src[i] == SEMICOLON && !IsWhitespace(src[i])
  {
    HereFirst(src, i, g.Text());
  }

  lemma ListElement(tok: Name -> Symbol, src: seq<byte>, i: nat, t: Named, j: nat, ts: Terms<Name>, end: nat)
    requires i < |src| && src[i] != CLOSE && !IsWhitespace(src[i])
    requires Read(tok, src, i) == Ok((t, j)) && ReadList(tok, src, j) == Ok((ts, end))
    ensures ReadList(tok, src, i) == Ok((Cons(t, ts), end))
  {
    hide Read;
  }

  lemma ListBlank(tok: Name -> Symbol, src: seq<byte>, i: nat)
    requires i < |src| && IsWhitespace(src[i])
    ensures ReadList(tok, src, i) == ReadList(tok, src, i + 1)
  {
    hide Read;
  }

  /* ---- Nothing else is read ---- */

  // From `i` to `end` stand `gs` and the text of `d`, whose term is `t`. At the end of the source a
  // string need not be closed.
  ghost predicate Spells(tok: Name -> Symbol, src: seq<byte>, i: nat, end: nat, gs: seq<Filler>, d: Doc, t: Named) {
    && AllFill(gs) && TermOf(tok, d) == t
    && (Well(d) || (d.Token? && d.text != [] && d.text[0] == 34 && Unclosed(d.text, 1) && end == |src|))
    && Here(src, i, FillText(gs) + DocText(d)) && end == i + |FillText(gs)| + |DocText(d)|
    && (NeedsEnd(d) ==> Ends(src, end))
  }

  ghost predicate SpellsList(tok: Name -> Symbol, src: seq<byte>, i: nat, end: nat, ds: Docs, ts: Terms<Name>) {
    WellAll(ds) && TermsOf(tok, ds) == ts && Here(src, i, DocsText(ds)) && end == i + |DocsText(ds)|
  }

  lemma {:induction false} CommentSpelled(src: seq<byte>, i: nat)
    requires i <= |src| && CommentEnd(src, i) < |src|
    ensures var j := CommentEnd(src, i);
      i < j && src[j - 1] == 10 && 10 !in src[i..j - 1]
    decreases |src| - i
  {
    if src[i] != NEWLINE {
      CommentSpelled(src, i + 1);
      var j := CommentEnd(src, i);
      assert src[i..j - 1] == [src[i]] + src[i + 1..j - 1];
    }
  }

  lemma FillPrepend(g: Filler, gs: seq<Filler>)
    requires g.Valid() && AllFill(gs)
    ensures AllFill([g] + gs) && FillText([g] + gs) == g.Text() + FillText(gs)
  {
    assert ([g] + gs)[1..] == gs;
  }

  // A filler before what has been spelled.
  lemma SpellsFurther(tok: Name -> Symbol, src: seq<byte>, i: nat, g: Filler, end: nat, gs: seq<Filler>, d: Doc, t: Named)
    requires g.Valid() && Here(src, i, g.Text()) && Spells(tok, src, i + |g.Text()|, end, gs, d, t)
    ensures Spells(tok, src, i, end, [g] + gs, d, t)
  {
    hide Here, AllFill, FillText, Well, Unclosed, DocText, TermOf, NeedsEnd, Ends;
    FillPrepend(g, gs);
    HereJoin(src, i, g.Text(), FillText(gs) + DocText(d));
    Assoc(g.Text(), FillText(gs), DocText(d));
  }

  lemma {:induction false} StringSpelled(src: seq<byte>, start: nat, i: nat, end: nat)
    requires start < i <= |src| && StringEnd(src, i) == Some(end)
    ensures i <= end <= |src|
    ensures Closed(src[start..end], i - start) || (end == |src| && Unclosed(src[start..end], i - start))
    decreases |src| - i
  {
    if i < |src| && src[i] != QUOTE {
      if src[i] != BACKSLASH {
        StringSpelled(src, start, i + 1, end);
      } else if i + 1 < |src| {
        StringSpelled(src, start, i + 2, end);
      }
    }
  }

  lemma TokenSpelled(src: seq<byte>, i: nat)
    requires i < |src| && !EndsToken(src[i])
    ensures var j := TokenEnd(src, i + 1); TokenBytes(src[i..j]) && src[i..j] != [] && src[i..j][0] == src[i] && Ends(src, j)
  {
  }

  lemma NameSpells(tok: Name -> Symbol, src: seq<byte>, i: nat)
    requires i < |src| && src[i] == DOLLAR
    ensures var j := TokenEnd(src, i + 1);
      Spells(tok, src, i, j, [], Named(src[i..j]), Var(src[i..j]))
  {
    hide TokenEnd, TokenBytes;
    var j := TokenEnd(src, i + 1);
    TokenSpelled(src, i);
    HereSlice(src, i, j);
    assert [] + src[i..j] == src[i..j];
  }

  lemma SymbolSpells(tok: Name -> Symbol, src: seq<byte>, i: nat, j: nat)
    requires i < |src| && src[i] != SEMICOLON && src[i] != DOLLAR && !EndsToken(src[i]) && SymbolEnd(src, i) == Some(j)
    ensures Spells(tok, src, i, j, [], Token(src[i..j]), Sym(tok(src[i..j])))
  {
    hide TokenEnd, TokenBytes, StringEnd, Closed, Unclosed;
    HereSlice(src, i, j);
    assert [] + src[i..j] == src[i..j];
    if src[i] == QUOTE {
      StringSpelled(src, i, i + 1, j);
    } else {
      TokenSpelled(src, i);
    }
  }

  lemma ListSpells(tok: Name -> Symbol, src: seq<byte>, i: nat, end: nat, ds: Docs, ts: Terms<Name>)
    requires i < |src| && src[i] == OPEN && SpellsList(tok, src, i + 1, end, ds, ts)
    ensures Spells(tok, src, i, end, [], Listed(ds), App(ts))
  {
    hide Here, WellAll;
    HereOne(src, i);
    HereJoin(src, i, [40], DocsText(ds));
    assert [] + DocText(Listed(ds)) == DocText(Listed(ds));
  }

  lemma {:induction false} ReadSpelled(tok: Name -> Symbol, src: seq<byte>, i: nat) returns (gs: seq<Filler>, d: Doc)
    requires i <= |src| && Read(tok, src, i).Ok?
    ensures var (t, end) := Read(tok, src, i).value; Spells(tok, src, i, end, gs, d, t)
    decreases |src| - i, 0
  {
    hide Read, CommentEnd, TokenEnd, SymbolEnd, ReadList, Spells, SpellsList;
    ReadNothing(tok, src);
    ReadStep(tok, src, i);
    gs := [];
    var (t, end) := Read(tok, src, i).value;
    if src[i] == SEMICOLON {
      var j := CommentEnd(src, i + 1);
      CommentSpelled(src, i + 1);
      gs, d := ReadSpelled(tok, src, j);
      var g := Comment(src[i + 1..j - 1]);
      CommentFills(src, i, j);
      SpellsFurther(tok, src, i, g, end, gs, d, t);
      gs := [g] + gs;
    } else if IsWhitespace(src[i]) {
      gs, d := ReadSpelled(tok, src, i + 1);
      HereOne(src, i);
      SpellsFurther(tok, src, i, Blank(src[i]), end, gs, d, t);
      gs := [Blank(src[i])] + gs;
    } else if src[i] == DOLLAR {
      d := Named(src[i..end]);
      NameSpells(tok, src, i);
    } else if src[i] == OPEN {
      var ds := ListSpelled(tok, src, i + 1);
      d := Listed(ds);
      ListSpells(tok, src, i, end, ds, t.args);
    } else {
      d := Token(src[i..end]);
      SymbolSpells(tok, src, i, end);
    }
  }

  lemma CommentFills(src: seq<byte>, i: nat, j: nat)
    requires i + 1 < j <= |src| && src[i] == SEMICOLON && src[j - 1] == 10 && 10 !in src[i + 1..j - 1]
    ensures var g := Comment(src[i + 1..j - 1]); g.Valid() && Here(src, i, g.Text()) && |g.Text()| == j - i
  {
    assert src[i..j] == [59] + (src[i + 1..j - 1] + [10]);
  }

  lemma {:induction false} ListSpelled(tok: Name -> Symbol, src: seq<byte>, i: nat) returns (ds: Docs)
    requires i <= |src| && ReadList(tok, src, i).Ok?
    ensures var (ts, end) := ReadList(tok, src, i).value; SpellsList(tok, src, i, end, ds, ts)
    decreases |src| - i, 1
  {
    hide Read, Spells, SpellsList;
    var (ts, end) := ReadList(tok, src, i).value;
    if src[i] == CLOSE {
      ds := EndList([]);
      EndSpells(tok, src, i);
    } else if IsWhitespace(src[i]) {
      var more := ListSpelled(tok, src, i + 1);
      ds := if more.EndList? then EndList([src[i]] + more.gap) else NextElem([Blank(src[i])] + more.fill, more.head, more.tail);
      BlankSpells(tok, src, i, end, more, ts);
    } else {
      var gs, d := ReadSpelled(tok, src, i);
      var (t, j) := Read(tok, src, i).value;
      var tl := ListSpelled(tok, src, j);
      ds := NextElem(gs, d, tl);
      NextSpells(tok, src, i, j, end, gs, d, t, tl, ts.tail);
    }
  }

  lemma EndSpells(tok: Name -> Symbol, src: seq<byte>, i: nat)
    requires i < |src| && src[i] == CLOSE
    ensures SpellsList(tok, src, i, i + 1, EndList([]), Nil)
  {
    HereOne(src, i);
    assert [] + [41] == [41];
  }

  lemma BlankSpells(tok: Name -> Symbol, src: seq<byte>, i: nat, end: nat, more: Docs, ts: Terms<Name>)
    requires i < |src| && IsWhitespace(src[i]) && SpellsList(tok, src, i + 1, end, more, ts)
    ensures SpellsList(tok, src, i, end,
                       if more.EndList? then EndList([src[i]] + more.gap) else NextElem([Blank(src[i])] + more.fill, more.head, more.tail), ts)
  {
    hide Here;
    HereOne(src, i);
    HereJoin(src, i, [src[i]], DocsText(more));
    match more
    case EndList(g) =>
      Assoc([src[i]], g, [41]);
      assert forall k | 1 <= k < |[src[i]] + g| :: ([src[i]] + g)[k] == g[k - 1];
    case NextElem(gs, x, tl) =>
      FillPrepend(Blank(src[i]), gs);
      Assoc([src[i]], FillText(gs), DocText(x) + DocsText(tl));
  }

  lemma NextSpells(tok: Name -> Symbol, src: seq<byte>, i: nat, j: nat, end: nat, gs: seq<Filler>, d: Doc, t: Named, tl: Docs, ts: Terms<Name>)
    requires Spells(tok, src, i, j, gs, d, t) && SpellsList(tok, src, j, end, tl, ts)
    ensures SpellsList(tok, src, i, end, NextElem(gs, d, tl), Cons(t, ts))
  {
    hide Here, AllFill, FillText, Well, WellAll, Unclosed, DocText, DocsText, TermOf, TermsOf, NeedsEnd, Ends;
    ListFirst(tl);
    HereFirst(src, j, DocsText(tl));
    EndsStarts(src, j, DocsText(tl));
    HereJoin(src, i, FillText(gs) + DocText(d), DocsText(tl));
    Assoc(FillText(gs), DocText(d), DocsText(tl));
    NextIs(tok, gs, d, tl);
  }

  lemma EndsStarts(src: seq<byte>, j: nat, w: seq<byte>)
    requires w != [] && Here(src, j, w)
    ensures Ends(src, j) ==> Starts(w)
  {
    HereFirst(src, j, w);
  }

  lemma ListFirst(ds: Docs)
    ensures DocsText(ds) != []
  {
  }

  /* ---- The parser ---- */

  // `src` begins with the text of `d`, after comments and white space.
  ghost predicate Begins(src: seq<byte>, d: Doc) {
    Well(d) && exists gs, rest :: AllFill(gs) && src == FillText(gs) + (DocText(d) + rest) && (NeedsEnd(d) ==> rest == [] || Starts(rest))
  }

  lemma TextRead(tok: Name -> Symbol, gs: seq<Filler>, d: Doc, rest: seq<byte>)
    requires AllFill(gs) && Well(d) && (NeedsEnd(d) ==> rest == [] || Starts(rest))
    ensures Read(tok, FillText(gs) + (DocText(d) + rest), 0) == Ok((TermOf(tok, d), |FillText(gs)| + |DocText(d)|))
  {
    hide *;
    var src := FillText(gs) + (DocText(d) + rest);
    HereAll(src);
    HereSplit(src, 0, FillText(gs), DocText(d) + rest);
    HereSplit(src, |FillText(gs)|, DocText(d), rest);
    StartsEnds(src, |FillText(gs)| + |DocText(d)|, rest);
    AtEnd(src);
    DocRead(tok, src, |FillText(gs)|, d);
    FillRead(tok, src, 0, gs);
  }

  lemma AtEnd(src: seq<byte>)
    ensures Ends(src, |src|)
  {
  }

  // However an expression is spaced and commented, its bytes are the same.
  method ParseText(tok: Name -> Symbol, src: seq<byte>) returns (failure: Option<ParserError>, out: seq<byte>)
    ensures forall d | Begins(src, d) && Fits(One(TermOf(tok, d)), []) ::
      failure.None? && out == Enc(Number(One(TermOf(tok, d)), []))
    ensures failure.None? ==> exists gs, d, end, t ::
      Spells(tok, src, 0, end, gs, d, t) && WF(Number(One(t), [])) && out == Enc(Number(One(t), []))
  {
    hide Read, Enc, Well, FillText, DocText, TermOf, AllFill, Number, Assigned, WF, Spells, NeedsEnd, Starts;
    var it := new Context(src);
    var target := new Target([]);
    failure := Sexpr(tok, it, target);
    out := target.out;
    forall d | Begins(src, d)
      ensures Read(tok, src, 0).Ok? && Read(tok, src, 0).value.0 == TermOf(tok, d)
    {
      var gs, rest :| AllFill(gs) && src == FillText(gs) + (DocText(d) + rest) && (NeedsEnd(d) ==> rest == [] || Starts(rest));
      TextRead(tok, gs, d, rest);
    }
    if failure.None? {
      ghost var gs, d := ReadSpelled(tok, src, 0);
      ghost var (t, end) := Read(tok, src, 0).value;
      assert [] + Enc(Number(One(t), [])) == Enc(Number(One(t), []));
    }
  }

  // Parsing undoes printing, with any comments and line breaks put before the elements of what was
  // printed: the text only has to have the expression's names and symbols as its tokens.
  method ParseSpaced(src: seq<byte>, ghost e: Expr, ghost d: Doc) returns (out: seq<byte>)
    requires WF(One(e)) && ClosedFrom(One(e), 0) && NewVars(One(e)) <= MAX_VARS
    requires Begins(src, d) && TermOf(Identity, d) == Named1(e, 0)
    ensures out == Enc(One(e))
  {
    hide *;
    FitsNumbered(e);
    NamedNumbers(e);
    var failure;
    failure, out := ParseText(Identity, src);
  }
}
