/** Which texts the JSON parser accepts: the values of RFC 8259 with white space between the tokens. */
module JsonGrammar {
  import opened Items
  import opened Slices
  import opened Wrappers
  import opened JsonLexing
  import opened JsonLexers
  import opened JsonMeanings
  import opened JsonStrings
  import opened JsonParsing
  import opened JsonPrinting

  // Tab, line feed, vertical tab, form feed, carriage return and space.
  predicate White(g: Bytes) {
    forall k | 0 <= k < |g| :: 9 <= g[k] <= 13 || g[k] == 32
  }

  // A value with the spelling of its strings and numbers, and with the white space between its tokens:
  // what stands before the first element or key and before each comma, bracket and colon (`gap`,
  // `colon`), and after each comma and colon (`before`, `after`).
  datatype Doc =
    | Word(v: Json)
    | Numeral(negative: bool, text: Bytes, x: Decimal)
    | Str(pieces: seq<Piece>)
    | EmptyArr(gap: Bytes)
    | Arr(gap: Bytes, head: Doc, tail: Docs)
    | EmptyObj(gap: Bytes)
    | Obj(gap: Bytes, key: seq<Piece>, colon: Bytes, after: Bytes, value: Doc, rest: FieldDocs)
  datatype Docs = EndDocs(gap: Bytes) | NextDoc(gap: Bytes, before: Bytes, head: Doc, tail: Docs)
  datatype FieldDocs =
    | EndFields(gap: Bytes)
    | NextDocField(gap: Bytes, before: Bytes, key: seq<Piece>, colon: Bytes, after: Bytes, value: Doc, rest: FieldDocs)

  /* ---- The text and the value ---- */

  function QuotedPieces(ps: seq<Piece>): Bytes {
    [QUOTE] + (PiecesText(ps) + [QUOTE])
  }

  function KeyedText(ps: seq<Piece>, colon: Bytes, after: Bytes, rest: Bytes): Bytes {
    QuotedPieces(ps) + (colon + ([COLON] + (after + rest)))
  }

  function SignText(negative: bool): Bytes {
    if negative then [MINUS] else []
  }

  function DocText(d: Doc): Bytes {
    match d
    case Word(v) => ConstantText(v)
    case Numeral(negative, text, _) => SignText(negative) + text
    case Str(ps) => QuotedPieces(ps)
    case EmptyArr(g) => [OPEN_ARRAY] + (g + [CLOSE_ARRAY])
    case Arr(g, x, tl) => [OPEN_ARRAY] + (g + (DocText(x) + DocsText(tl)))
    case EmptyObj(g) => [OPEN_OBJECT] + (g + [CLOSE_OBJECT])
    case Obj(g, k, c, h, x, tl) => [OPEN_OBJECT] + (g + KeyedText(k, c, h, DocText(x) + FieldDocsText(tl)))
  }

  function DocsText(ds: Docs): Bytes {
    match ds
    case EndDocs(g) => g + [CLOSE_ARRAY]
    case NextDoc(g, b, x, tl) => g + ([COMMA] + (b + (DocText(x) + DocsText(tl))))
  }

  function FieldDocsText(fs: FieldDocs): Bytes {
    match fs
    case EndFields(g) => g + [CLOSE_OBJECT]
    case NextDocField(g, b, k, c, h, x, tl) => g + ([COMMA] + (b + KeyedText(k, c, h, DocText(x) + FieldDocsText(tl))))
  }

  function StringOf(ps: seq<Piece>): Bytes {
    if AllValid(ps) then PiecesMean(ps) else []
  }

  function ValueOf(d: Doc): Json {
    match d
    case Word(v) => v
    case Numeral(negative, _, x) => Number(negative, x.mantissa, x.exponent)
    case Str(ps) => Text(StringOf(ps))
    case EmptyArr(_) => Array(NoElems)
    case Arr(_, x, tl) => Array(Elem(ValueOf(x), ElemsOf(tl)))
    case EmptyObj(_) => Object(NoFields)
    case Obj(_, k, _, _, x, tl) => Object(Field(StringOf(k), ValueOf(x), FieldsOf(tl)))
  }

  function ElemsOf(ds: Docs): Elems {
    match ds
    case EndDocs(_) => NoElems
    case NextDoc(_, _, x, tl) => Elem(ValueOf(x), ElemsOf(tl))
  }

  function FieldsOf(fs: FieldDocs): Fields {
    match fs
    case EndFields(_) => NoFields
    case NextDocField(_, _, k, _, _, x, tl) => Field(StringOf(k), ValueOf(x), FieldsOf(tl))
  }

  // A number of RFC 8259, with the value it is read as.
  ghost predicate IsNumber(text: Bytes, x: Decimal) {
    exists p: NumberParts :: p.Valid() && p.Text() == text && p.Value() == Ok(x)
  }

  // A digit and then any bytes that can stand in a number.
  predicate Numerical(text: Bytes) {
    && text != [] && IsDigit(text[0])
    && forall k | 0 <= k < |text| :: NumberByte(text[k])
  }

  predicate NumberByte(c: byte) {
    IsDigit(c) || c == POINT || c == PLUS || c == MINUS || c == SMALL_E || c == CAPITAL_E
  }

  // The gaps are white space, strings are spelled as RFC 8259 has it, and with `rfc` so are numbers.
  ghost predicate Well(d: Doc, rfc: bool) {
    match d
    case Word(v) => v.True? || v.False? || v.Null?
    case Numeral(_, text, x) => if rfc then IsNumber(text, x) else Numerical(text)
    case Str(ps) => AllValid(ps)
    case EmptyArr(g) => White(g)
    case Arr(g, x, tl) => White(g) && Well(x, rfc) && WellAll(tl, rfc)
    case EmptyObj(g) => White(g)
    case Obj(g, k, c, h, x, tl) => White(g) && AllValid(k) && White(c) && White(h) && Well(x, rfc) && WellFields(tl, rfc)
  }

  ghost predicate WellAll(ds: Docs, rfc: bool) {
    match ds
    case EndDocs(g) => White(g)
    case NextDoc(g, b, x, tl) => White(g) && White(b) && Well(x, rfc) && WellAll(tl, rfc)
  }

  ghost predicate WellFields(fs: FieldDocs, rfc: bool) {
    match fs
    case EndFields(g) => White(g)
    case NextDocField(g, b, k, c, h, x, tl) =>
      White(g) && White(b) && AllValid(k) && White(c) && White(h) && Well(x, rfc) && WellFields(tl, rfc)
  }

  /* ---- Gaps ---- */

  lemma {:induction false} WhiteHere(src: Bytes, i: nat, g: Bytes)
    requires White(g) && Here(src, i, g) && i + |g| < |src| && !(9 <= src[i + |g|] <= 13 || src[i + |g|] == 32)
    ensures NextItem(src, i) == Ok((src[i + |g|], i + |g| + 1))
    decreases |g|
  {
    if g == [] {
      assert !IsSpace(src[i]);
    } else {
      HereFirst(src, i, g);
      WhiteHere(src, i + 1, g[1..]);
    }
  }

  // After `g`, the byte `c` and `w`.
  lemma GapRead(src: Bytes, i: nat, g: Bytes, c: byte, w: Bytes)
    requires White(g) && Here(src, i, g + ([c] + w)) && !(9 <= c <= 13 || c == 32)
    ensures i + |g| < |src| && src[i + |g|] == c && NextItem(src, i) == Ok((c, i + |g| + 1)) && Here(src, i + |g| + 1, w)
  {
    hide NextItem;
    HereSplit(src, i, g, [c] + w);
    HereSplit(src, i + |g|, [c], w);
    HereFirst(src, i + |g|, [c]);
    WhiteHere(src, i, g);
  }

  lemma WhiteCons(c: byte, g: Bytes)
    ensures White([c] + g) <==> IsSpace(c) && White(g)
  {
    var w := [c] + g;
    assert w[0] == c && forall k | 1 <= k < |w| :: w[k] == g[k - 1];
    if White(w) {
      forall k | 0 <= k < |g|
        ensures 9 <= g[k] <= 13 || g[k] == 32
      {
        assert w[k + 1] == g[k];
      }
    }
  }

  lemma {:induction false} WhiteOnly(src: Bytes, i: nat)
    requires i <= |src|
    ensures OnlySpace(src, i) == None <==> White(src[i..])
    decreases |src| - i
  {
    if i < |src| {
      WhiteOnly(src, i + 1);
      assert src[i..] == [src[i]] + src[i + 1..];
      WhiteCons(src[i], src[i + 1..]);
    }
  }

  // The next item stands behind white space and nothing else.
  lemma {:induction false} ItemGap(src: Bytes, i: nat)
    requires i <= |src| && NextItem(src, i).Ok?
    ensures var (c, j) := NextItem(src, i).value;
      && i < j <= |src| && src[j - 1] == c && !(9 <= c <= 13 || c == 32)
      && White(src[i..j - 1]) && Here(src, i, src[i..j - 1] + [c])
    decreases |src| - i
  {
    var (c, j) := NextItem(src, i).value;
    if IsSpace(src[i]) {
      ItemGap(src, i + 1);
      assert src[i..j - 1] == [src[i]] + src[i + 1..j - 1];
    }
    assert src[i..j] == src[i..j - 1] + [c];
  }

  /* ---- Every such text is read as its value ---- */

  lemma WhiteStops(src: Bytes, i: nat, g: Bytes, c: byte, w: Bytes)
    requires White(g) && Here(src, i, g + ([c] + w)) && (c == COMMA || c == CLOSE_ARRAY || c == CLOSE_OBJECT)
    ensures Stops(src, i)
  {
    HereFirst(src, i, g + ([c] + w));
    if g != [] {
      assert (g + ([c] + w))[0] == g[0];
    }
  }

  lemma LeafRead(src: Bytes, i: nat, doc: Doc, d: nat)
    requires (doc.Word? || doc.Numeral? || doc.Str?) && Well(doc, true)
    requires Here(src, i, DocText(doc)) && Stops(src, i + |DocText(doc)|)
    ensures i < |src| && StartsValue(src[i])
    ensures ReadValue(src, i + 1, src[i], d) == Ok((ValueOf(doc), i + |DocText(doc)|))
  {
    hide StringFrom, Unsigned, Literal, Stops, Here, PiecesText, PiecesMean;
    match doc
    case Word(v) =>
      if v.True? {
        WordRead(src, i, SMALL_T, TRUE_REST);
      } else if v.False? {
        WordRead(src, i, SMALL_F, FALSE_REST);
      } else {
        WordRead(src, i, SMALL_N, NULL_REST);
      }
    case Numeral(negative, text, x) => NumeralRead(src, i, negative, text, x);
    case Str(ps) => PiecesHere(src, i, ps);
  }

  lemma PiecesHere(src: Bytes, i: nat, ps: seq<Piece>)
    requires AllValid(ps) && Here(src, i, QuotedPieces(ps))
    ensures i < |src| && src[i] == QUOTE
    ensures StringFrom(src, i + 1, i + 1) == Ok((StringOf(ps), i + |QuotedPieces(ps)|))
  {
    hide StringFrom, PiecesText, PiecesMean, Here;
    HereSplit(src, i, [QUOTE], PiecesText(ps) + [QUOTE]);
    HereFirst(src, i, [QUOTE]);
    StringMeans(src, i + 1);
    assert StringAt(src, i + 1, ps);
  }

  lemma NumeralRead(src: Bytes, i: nat, negative: bool, text: Bytes, x: Decimal)
    requires IsNumber(text, x)
    requires var w := SignText(negative) + text; Here(src, i, w) && Stops(src, i + |w|)
    ensures i < |src| && if negative then src[i] == MINUS else IsDigit(src[i])
    ensures ReadScalar(src, i + 1, src[i])
         == Ok((Number(negative, x.mantissa, x.exponent), i + |SignText(negative) + text|))
  {
    var p: NumberParts :| p.Valid() && p.Text() == text && p.Value() == Ok(x);
    hide Unsigned, Literal, StringFrom, Stops, Here, p.Valid, p.Text, p.Value;
    if negative {
      HereSplit(src, i, [MINUS], text);
      HereFirst(src, i, [MINUS]);
      NumberMeans(src, i + 1, p);
    } else {
      assert [] + text == text;
      NumberMeans(src, i, p);
    }
  }

  lemma Enclosed(src: Bytes, i: nat, c: byte, g: Bytes, e: byte)
    requires White(g) && Here(src, i, [c] + (g + [e])) && !(9 <= e <= 13 || e == 32)
    ensures i < |src| && src[i] == c && NextItem(src, i + 1) == Ok((e, i + 1 + |g| + 1))
  {
    hide NextItem, Here, White;
    HereSplit(src, i, [c], g + [e]);
    HereFirst(src, i, [c]);
    assert [e] + [] == [e];
    GapRead(src, i + 1, g, e, []);
  }

  lemma EmptyDocRead(src: Bytes, i: nat, doc: Doc, d: nat)
    requires (doc.EmptyArr? || doc.EmptyObj?) && Well(doc, true) && Here(src, i, DocText(doc))
    ensures i < |src| && StartsValue(src[i])
    ensures ReadValue(src, i + 1, src[i], d) == Ok((ValueOf(doc), i + |DocText(doc)|))
  {
    hide NextItem, Here, White;
    if doc.EmptyArr? {
      Enclosed(src, i, OPEN_ARRAY, doc.gap, CLOSE_ARRAY);
    } else {
      Enclosed(src, i, OPEN_OBJECT, doc.gap, CLOSE_OBJECT);
    }
  }

  lemma ArrayStep(src: Bytes, i: nat, d: nat, i1: nat, ch: byte, x: Json, j: nat, tl: Elems, end: nat)
    requires 0 < i <= |src| && NextItem(src, i) == Ok((ch, i1)) && ch != CLOSE_ARRAY && d < DEPTH_LIMIT
    requires ReadValue(src, i1, ch, d + 1) == Ok((x, j)) && ReadElems(src, j, d + 1) == Ok((tl, end))
    ensures ReadValue(src, i, OPEN_ARRAY, d) == Ok((Array(Elem(x, tl)), end))
  {
    hide NextItem, ReadElems, ReadScalar;
    assert ReadValue(src, i, OPEN_ARRAY, d) == ReadArray(src, i1, ch, d + 1);
  }

  lemma ElemStep(src: Bytes, i: nat, d: nat, i1: nat, i2: nat, ch: byte, x: Json, j: nat, tl: Elems, end: nat)
    requires i <= |src| && NextItem(src, i) == Ok((COMMA, i1)) && NextItem(src, i1) == Ok((ch, i2))
    requires ReadValue(src, i2, ch, d) == Ok((x, j)) && ReadElems(src, j, d) == Ok((tl, end))
    ensures ReadElems(src, i, d) == Ok((Elem(x, tl), end))
  {
    hide NextItem, ReadValue;
  }

  // White space and the value after it.
  lemma GapValue(src: Bytes, i: nat, g: Bytes, w: Bytes)
    requires White(g) && Here(src, i, g) && Here(src, i + |g|, w) && i + |g| < |src| && StartsValue(src[i + |g|])
    ensures NextItem(src, i) == Ok((src[i + |g|], i + |g| + 1))
  {
    WhiteHere(src, i, g);
  }

  lemma DocDepth(x: Doc, tl: Docs, k: seq<Piece>, fs: FieldDocs)
    ensures Depth(Array(Elem(ValueOf(x), ElemsOf(tl)))) == 1 + ElemDepth(Elem(ValueOf(x), ElemsOf(tl)))
    ensures Depth(ValueOf(x)) <= ElemDepth(Elem(ValueOf(x), ElemsOf(tl)))
    ensures ElemDepth(ElemsOf(tl)) <= ElemDepth(Elem(ValueOf(x), ElemsOf(tl)))
    ensures Depth(Object(Field(StringOf(k), ValueOf(x), FieldsOf(fs)))) == 1 + FieldDepth(Field(StringOf(k), ValueOf(x), FieldsOf(fs)))
    ensures Depth(ValueOf(x)) <= FieldDepth(Field(StringOf(k), ValueOf(x), FieldsOf(fs)))
    ensures FieldDepth(FieldsOf(fs)) <= FieldDepth(Field(StringOf(k), ValueOf(x), FieldsOf(fs)))
  {
    hide ValueOf, ElemsOf, FieldsOf, StringOf;
  }

  // A key, its colon and the start of what follows, with their white space.
  lemma KeyedRead(src: Bytes, i: nat, k: seq<Piece>, c: Bytes, h: Bytes, rest: Bytes)
    requires AllValid(k) && White(c) && White(h) && Here(src, i, KeyedText(k, c, h, rest))
    ensures i < |src| && src[i] == QUOTE
    ensures var at := i + |KeyedText(k, c, h, rest)| - |rest|;
      && i < at && Here(src, at, rest)
      && (at < |src| && StartsValue(src[at]) ==> ReadKey(src, i + 1) == Ok(((StringOf(k), src[at]), at + 1)))
  {
    hide NextItem, Here, White, QuotedPieces, StringFrom;
    var q := QuotedPieces(k);
    HereSplit(src, i, q, c + ([COLON] + (h + rest)));
    PiecesHere(src, i, k);
    GapRead(src, i + |q|, c, COLON, h + rest);
    var j := i + |q| + |c| + 1;
    HereSplit(src, j, h, rest);
    var at := j + |h|;
    if at < |src| && StartsValue(src[at]) {
      GapValue(src, j, h, rest);
    }
  }

  lemma {:induction false} DocRead(src: Bytes, i: nat, doc: Doc, d: nat)
    requires Well(doc, true) && d + Depth(ValueOf(doc)) <= DEPTH_LIMIT
    requires Here(src, i, DocText(doc)) && Stops(src, i + |DocText(doc)|)
    ensures i < |src| && StartsValue(src[i])
    ensures ReadValue(src, i + 1, src[i], d) == Ok((ValueOf(doc), i + |DocText(doc)|))
    decreases doc, 1
  {
    hide *;
    match doc
    case Arr(g, x, tl) => ArrRead(src, i, g, x, tl, d);
    case Obj(g, k, c, h, x, tl) => ObjRead(src, i, g, k, c, h, x, tl, d);
    case EmptyArr(_) => EmptyDocRead(src, i, doc, d);
    case EmptyObj(_) => EmptyDocRead(src, i, doc, d);
    case _ => LeafRead(src, i, doc, d);
  }

  lemma {:induction false} ArrRead(src: Bytes, i: nat, g: Bytes, x: Doc, tl: Docs, d: nat)
    requires var doc := Arr(g, x, tl);
      Well(doc, true) && d + Depth(ValueOf(doc)) <= DEPTH_LIMIT && Here(src, i, DocText(doc))
    ensures var doc := Arr(g, x, tl);
      i < |src| && StartsValue(src[i]) && ReadValue(src, i + 1, src[i], d) == Ok((ValueOf(doc), i + |DocText(doc)|))
    decreases Arr(g, x, tl), 0
  {
    hide *;
    ArrParts(src, i, g, x, tl, d);
    var at := i + 1 + |g|;
    var j := at + |DocText(x)|;
    DocRead(src, at, x, d + 1);
    DocsRead(src, j, tl, d + 1);
    GapValue(src, i + 1, g, DocText(x));
    ValueStarts(src[at]);
    ArrayStep(src, i + 1, d, at + 1, src[at], ValueOf(x), j, ElemsOf(tl), j + |DocsText(tl)|);
  }

  lemma ValueStarts(c: byte)
    requires StartsValue(c)
    ensures c != CLOSE_ARRAY && c != CLOSE_OBJECT
    ensures StartsValue(OPEN_ARRAY) && StartsValue(OPEN_OBJECT) && StartsValue(QUOTE)
  {
  }

  lemma ArrIs(g: Bytes, x: Doc, tl: Docs)
    ensures var doc, rest := Arr(g, x, tl), DocText(x) + DocsText(tl);
      && DocText(doc) == [OPEN_ARRAY] + (g + rest) && |DocText(doc)| == 1 + |g| + |DocText(x)| + |DocsText(tl)|
      && ValueOf(doc) == Array(Elem(ValueOf(x), ElemsOf(tl)))
      && (Well(doc, true) <==> White(g) && Well(x, true) && WellAll(tl, true))
    ensures |[OPEN_ARRAY]| == 1
  {
    hide White, IsNumber;
  }

  lemma ArrParts(src: Bytes, i: nat, g: Bytes, x: Doc, tl: Docs, d: nat)
    requires var doc := Arr(g, x, tl);
      Well(doc, true) && d + Depth(ValueOf(doc)) <= DEPTH_LIMIT && Here(src, i, DocText(doc))
    ensures i < |src| && src[i] == OPEN_ARRAY && White(g) && Here(src, i + 1, g) && d < DEPTH_LIMIT
    ensures Well(x, true) && d + 1 + Depth(ValueOf(x)) <= DEPTH_LIMIT && Here(src, i + 1 + |g|, DocText(x))
    ensures var j := i + 1 + |g| + |DocText(x)|;
      && Stops(src, j) && WellAll(tl, true) && d + 1 + ElemDepth(ElemsOf(tl)) <= DEPTH_LIMIT && Here(src, j, DocsText(tl))
      && i + |DocText(Arr(g, x, tl))| == j + |DocsText(tl)|
    ensures ValueOf(Arr(g, x, tl)) == Array(Elem(ValueOf(x), ElemsOf(tl)))
  {
    hide *;
    var w, rest := DocText(x), DocsText(tl);
    ArrIs(g, x, tl);
    DocDepth(x, tl, [], EndFields([]));
    HereSplit(src, i, [OPEN_ARRAY], g + (w + rest));
    HereFirst(src, i, [OPEN_ARRAY]);
    HereSplit(src, i + 1, g, w + rest);
    HereSplit(src, i + 1 + |g|, w, rest);
    DocsStop(src, i + 1 + |g| + |w|, tl);
  }

  lemma DocsStop(src: Bytes, i: nat, tl: Docs)
    requires WellAll(tl, true) && Here(src, i, DocsText(tl))
    ensures Stops(src, i)
  {
    hide Here, White, Stops;
    match tl
    case EndDocs(g) =>
      assert [CLOSE_ARRAY] + [] == [CLOSE_ARRAY];
      WhiteStops(src, i, g, CLOSE_ARRAY, []);
    case NextDoc(g, b, x, more) => WhiteStops(src, i, g, COMMA, b + (DocText(x) + DocsText(more)));
  }

  lemma {:induction false} DocsRead(src: Bytes, i: nat, tl: Docs, d: nat)
    requires WellAll(tl, true) && d + ElemDepth(ElemsOf(tl)) <= DEPTH_LIMIT && Here(src, i, DocsText(tl))
    ensures i <= |src| && ReadElems(src, i, d) == Ok((ElemsOf(tl), i + |DocsText(tl)|))
    decreases tl, 0
  {
    hide *;
    match tl
    case EndDocs(g) => DocsEnd(src, i, g, d);
    case NextDoc(g, b, x, more) =>
      DocParts(src, i, g, b, x, more, d);
      var at := i + |g| + 1 + |b|;
      var j := at + |DocText(x)|;
      DocRead(src, at, x, d);
      DocsRead(src, j, more, d);
      GapValue(src, i + |g| + 1, b, DocText(x));
      ElemStep(src, i, d, i + |g| + 1, at + 1, src[at], ValueOf(x), j, ElemsOf(more), j + |DocsText(more)|);
  }

  lemma DocsEnd(src: Bytes, i: nat, g: Bytes, d: nat)
    requires WellAll(EndDocs(g), true) && Here(src, i, DocsText(EndDocs(g)))
    ensures i <= |src| && ReadElems(src, i, d) == Ok((ElemsOf(EndDocs(g)), i + |DocsText(EndDocs(g))|))
  {
    hide NextItem, Here, White;
    assert [CLOSE_ARRAY] + [] == [CLOSE_ARRAY];
    GapRead(src, i, g, CLOSE_ARRAY, []);
  }

  lemma NextDocIs(g: Bytes, b: Bytes, x: Doc, more: Docs)
    ensures var tl, rest := NextDoc(g, b, x, more), DocText(x) + DocsText(more);
      && DocsText(tl) == g + ([COMMA] + (b + rest)) && |DocsText(tl)| == |g| + 1 + |b| + |DocText(x)| + |DocsText(more)|
      && ElemsOf(tl) == Elem(ValueOf(x), ElemsOf(more))
      && (WellAll(tl, true) <==> White(g) && White(b) && Well(x, true) && WellAll(more, true))
  {
    hide White, IsNumber;
  }

  lemma CommaIs()
    ensures !(9 <= COMMA <= 13 || COMMA == 32)
  {
  }

  lemma DocParts(src: Bytes, i: nat, g: Bytes, b: Bytes, x: Doc, more: Docs, d: nat)
    requires var tl := NextDoc(g, b, x, more);
      WellAll(tl, true) && d + ElemDepth(ElemsOf(tl)) <= DEPTH_LIMIT && Here(src, i, DocsText(tl))
    ensures i <= |src| && NextItem(src, i) == Ok((COMMA, i + |g| + 1)) && White(b) && Here(src, i + |g| + 1, b)
    ensures Well(x, true) && d + Depth(ValueOf(x)) <= DEPTH_LIMIT && Here(src, i + |g| + 1 + |b|, DocText(x))
    ensures var j := i + |g| + 1 + |b| + |DocText(x)|;
      && Stops(src, j) && WellAll(more, true) && d + ElemDepth(ElemsOf(more)) <= DEPTH_LIMIT && Here(src, j, DocsText(more))
      && i + |DocsText(NextDoc(g, b, x, more))| == j + |DocsText(more)|
    ensures ElemsOf(NextDoc(g, b, x, more)) == Elem(ValueOf(x), ElemsOf(more))
  {
    hide *;
    var w, rest := DocText(x), DocsText(more);
    NextDocIs(g, b, x, more);
    CommaIs();
    DocDepth(x, more, [], EndFields([]));
    GapRead(src, i, g, COMMA, b + (w + rest));
    HereSplit(src, i + |g| + 1, b, w + rest);
    HereSplit(src, i + |g| + 1 + |b|, w, rest);
    DocsStop(src, i + |g| + 1 + |b| + |w|, more);
  }

  // A key and its value, with what follows.
  lemma KeyedParts(src: Bytes, i: nat, k: seq<Piece>, c: Bytes, h: Bytes, x: Doc, rest: FieldDocs, d: nat) returns (at: nat)
    requires AllValid(k) && White(c) && White(h) && Well(x, true) && WellFields(rest, true)
    requires d + FieldDepth(Field(StringOf(k), ValueOf(x), FieldsOf(rest))) <= DEPTH_LIMIT
    requires Here(src, i, KeyedText(k, c, h, DocText(x) + FieldDocsText(rest)))
    ensures i < |src| && src[i] == QUOTE
    ensures i < at && d + Depth(ValueOf(x)) <= DEPTH_LIMIT && Here(src, at, DocText(x))
    ensures at < |src| && StartsValue(src[at]) ==> ReadKey(src, i + 1) == Ok(((StringOf(k), src[at]), at + 1))
    ensures var j := at + |DocText(x)|;
      && Stops(src, j) && d + FieldDepth(FieldsOf(rest)) <= DEPTH_LIMIT && Here(src, j, FieldDocsText(rest))
      && i + |KeyedText(k, c, h, DocText(x) + FieldDocsText(rest))| == j + |FieldDocsText(rest)|
  {
    hide *;
    var w, more := DocText(x), FieldDocsText(rest);
    DocDepth(x, EndDocs([]), k, rest);
    KeyedRead(src, i, k, c, h, w + more);
    at := i + |KeyedText(k, c, h, w + more)| - |w + more|;
    HereSplit(src, at, w, more);
    FieldDocsStop(src, at + |w|, rest);
  }

  lemma {:induction false} ObjRead(src: Bytes, i: nat, g: Bytes, k: seq<Piece>, c: Bytes, h: Bytes, x: Doc, tl: FieldDocs, d: nat)
    requires var doc := Obj(g, k, c, h, x, tl);
      Well(doc, true) && d + Depth(ValueOf(doc)) <= DEPTH_LIMIT && Here(src, i, DocText(doc))
    ensures var doc := Obj(g, k, c, h, x, tl);
      i < |src| && StartsValue(src[i]) && ReadValue(src, i + 1, src[i], d) == Ok((ValueOf(doc), i + |DocText(doc)|))
    decreases Obj(g, k, c, h, x, tl), 0
  {
    hide *;
    ObjParts(src, i, g, k, c, h, x, tl, d);
    var j := i + 1 + |g|;
    var at := KeyedParts(src, j, k, c, h, x, tl, d + 1);
    var end := at + |DocText(x)|;
    DocRead(src, at, x, d + 1);
    FieldDocsRead(src, end, tl, d + 1);
    ValueStarts(src[at]);
    GapValue(src, i + 1, g, KeyedText(k, c, h, DocText(x) + FieldDocsText(tl)));
    ObjectStep(src, i + 1, d, j + 1, at + 1, StringOf(k), src[at], ValueOf(x), end, FieldsOf(tl), end + |FieldDocsText(tl)|);
  }

  lemma ObjParts(src: Bytes, i: nat, g: Bytes, k: seq<Piece>, c: Bytes, h: Bytes, x: Doc, tl: FieldDocs, d: nat)
    requires var doc := Obj(g, k, c, h, x, tl);
      Well(doc, true) && d + Depth(ValueOf(doc)) <= DEPTH_LIMIT && Here(src, i, DocText(doc))
    ensures i < |src| && src[i] == OPEN_OBJECT && White(g) && Here(src, i + 1, g) && d < DEPTH_LIMIT
    ensures AllValid(k) && White(c) && White(h) && Well(x, true) && WellFields(tl, true)
    ensures d + 1 + FieldDepth(Field(StringOf(k), ValueOf(x), FieldsOf(tl))) <= DEPTH_LIMIT
    ensures var text := KeyedText(k, c, h, DocText(x) + FieldDocsText(tl));
      Here(src, i + 1 + |g|, text) && |DocText(Obj(g, k, c, h, x, tl))| == 1 + |g| + |text|
    ensures ValueOf(Obj(g, k, c, h, x, tl)) == Object(Field(StringOf(k), ValueOf(x), FieldsOf(tl)))
  {
    hide Here, White, Depth, FieldDepth, KeyedText, StringOf, IsNumber, AllValid;
    var text := KeyedText(k, c, h, DocText(x) + FieldDocsText(tl));
    DocDepth(x, EndDocs([]), k, tl);
    HereSplit(src, i, [OPEN_OBJECT], g + text);
    HereFirst(src, i, [OPEN_OBJECT]);
    HereSplit(src, i + 1, g, text);
  }

  lemma FieldDocsStop(src: Bytes, i: nat, tl: FieldDocs)
    requires WellFields(tl, true) && Here(src, i, FieldDocsText(tl))
    ensures Stops(src, i)
  {
    hide Here, White, Stops, KeyedText;
    match tl
    case EndFields(g) =>
      assert [CLOSE_OBJECT] + [] == [CLOSE_OBJECT];
      WhiteStops(src, i, g, CLOSE_OBJECT, []);
    case NextDocField(g, b, k, c, h, x, more) =>
      WhiteStops(src, i, g, COMMA, b + KeyedText(k, c, h, DocText(x) + FieldDocsText(more)));
  }

  lemma {:induction false} FieldDocsRead(src: Bytes, i: nat, tl: FieldDocs, d: nat)
    requires WellFields(tl, true) && d + FieldDepth(FieldsOf(tl)) <= DEPTH_LIMIT && Here(src, i, FieldDocsText(tl))
    ensures i <= |src| && ReadFields(src, i, d) == Ok((FieldsOf(tl), i + |FieldDocsText(tl)|))
    decreases tl, 0
  {
    hide *;
    match tl
    case EndFields(g) => FieldDocsEnd(src, i, g, d);
    case NextDocField(g, b, k, c, h, x, more) =>
      FieldDocParts(src, i, g, b, k, c, h, x, more, d);
      var j := i + |g| + 1;
      var at := KeyedParts(src, j + |b|, k, c, h, x, more, d);
      var end := at + |DocText(x)|;
      DocRead(src, at, x, d);
      FieldDocsRead(src, end, more, d);
      ValueStarts(src[at]);
      GapValue(src, j, b, KeyedText(k, c, h, DocText(x) + FieldDocsText(more)));
      FieldStep(src, i, d, j, j + |b| + 1, at + 1, StringOf(k), src[at], ValueOf(x), end, FieldsOf(more), end + |FieldDocsText(more)|);
  }

  lemma FieldDocsEnd(src: Bytes, i: nat, g: Bytes, d: nat)
    requires WellFields(EndFields(g), true) && Here(src, i, FieldDocsText(EndFields(g)))
    ensures i <= |src| && ReadFields(src, i, d) == Ok((FieldsOf(EndFields(g)), i + |FieldDocsText(EndFields(g))|))
  {
    hide NextItem, Here, White;
    assert [CLOSE_OBJECT] + [] == [CLOSE_OBJECT];
    GapRead(src, i, g, CLOSE_OBJECT, []);
  }

  lemma FieldDocParts(src: Bytes, i: nat, g: Bytes, b: Bytes, k: seq<Piece>, c: Bytes, h: Bytes, x: Doc, more: FieldDocs, d: nat)
    requires var tl := NextDocField(g, b, k, c, h, x, more);
      WellFields(tl, true) && d + FieldDepth(FieldsOf(tl)) <= DEPTH_LIMIT && Here(src, i, FieldDocsText(tl))
    ensures i <= |src| && NextItem(src, i) == Ok((COMMA, i + |g| + 1)) && White(b) && Here(src, i + |g| + 1, b)
    ensures AllValid(k) && White(c) && White(h) && Well(x, true) && WellFields(more, true)
    ensures FieldsOf(NextDocField(g, b, k, c, h, x, more)) == Field(StringOf(k), ValueOf(x), FieldsOf(more))
    ensures d + FieldDepth(Field(StringOf(k), ValueOf(x), FieldsOf(more))) <= DEPTH_LIMIT
    ensures var text := KeyedText(k, c, h, DocText(x) + FieldDocsText(more));
      && Here(src, i + |g| + 1 + |b|, text)
      && |FieldDocsText(NextDocField(g, b, k, c, h, x, more))| == |g| + 1 + |b| + |text|
  {
    hide NextItem, Here, White, Depth, FieldDepth, KeyedText, StringOf, IsNumber, AllValid;
    var text := KeyedText(k, c, h, DocText(x) + FieldDocsText(more));
    GapRead(src, i, g, COMMA, b + text);
    HereSplit(src, i + |g| + 1, b, text);
  }

  // A text of RFC 8259, with any white space, is read as its value.
  lemma SpacedRead(g: Bytes, doc: Doc, h: Bytes)
    requires White(g) && Well(doc, true) && White(h) && Depth(ValueOf(doc)) <= DEPTH_LIMIT
    ensures ReadJson(g + (DocText(doc) + h), 0) == Ok(ValueOf(doc))
  {
    hide *;
    var src := g + (DocText(doc) + h);
    HereAll(src);
    HereSplit(src, 0, g, DocText(doc) + h);
    HereSplit(src, |g|, DocText(doc), h);
    var end := |g| + |DocText(doc)|;
    assert src[end..] == h;
    SpaceStops(src, end);
    DocRead(src, |g|, doc, 0);
    GapValue(src, 0, g, DocText(doc));
    WhiteOnly(src, end);
    ReadWhole(src, |g|, ValueOf(doc), end);
  }

  lemma SpaceStops(src: Bytes, i: nat)
    requires i <= |src| && White(src[i..])
    ensures Stops(src, i)
  {
    if i < |src| {
      assert src[i..][0] == src[i];
    }
  }

  lemma ReadWhole(src: Bytes, i: nat, v: Json, end: nat)
    requires i < |src| && NextItem(src, 0) == Ok((src[i], i + 1)) && ReadValue(src, i + 1, src[i], 0) == Ok((v, end))
    requires end <= |src| && OnlySpace(src, end).None?
    ensures ReadJson(src, 0) == Ok(v)
  {
  }

  /* ---- Nothing else is accepted ---- */

  ghost predicate Run(src: Bytes, i: nat, j: nat) {
    i <= j <= |src| && forall k | i <= k < j :: NumberByte(src[k])
  }

  lemma {:induction false} ExponentDigitsRun(src: Bytes, i: nat, e: nat)
    requires i <= |src| && e <= I16_MAX
    ensures Run(src, i, ExponentDigits(src, i, e).1)
    decreases |src| - i
  {
    if i < |src| && IsDigit(src[i]) {
      ExponentDigitsRun(src, i + 1, Saturate(Saturate(e * 10) + (src[i] - 48)));
    }
  }

  lemma ExponentRun(src: Bytes, i: nat, x: Decimal)
    requires i <= |src| && Exponent(src, i, x).Ok?
    ensures Run(src, i, Exponent(src, i, x).value.1)
  {
    hide ExponentDigits;
    var j := if i < |src| && (src[i] == MINUS || src[i] == PLUS) then i + 1 else i;
    ExponentDigitsRun(src, j + 1, src[j] - 48);
  }

  lemma {:induction false} FractionFromRun(src: Bytes, i: nat, x: Decimal)
    requires i <= |src| && FractionFrom(src, i, x).Ok?
    ensures Run(src, i, FractionFrom(src, i, x).value.1)
    decreases |src| - i
  {
    hide Exponent, FractionDigit;
    if i < |src| {
      if IsDigit(src[i]) {
        FractionFromRun(src, i + 1, FractionDigit(x, src[i] - 48));
      } else if src[i] == SMALL_E || src[i] == CAPITAL_E {
        ExponentRun(src, i + 1, x);
      }
    }
  }

  lemma FractionRun(src: Bytes, i: nat, x: Decimal)
    requires i <= |src| && Fraction(src, i, x).Ok?
    ensures Run(src, i, Fraction(src, i, x).value.1)
  {
    hide FractionFrom, FractionDigit;
    FractionFromRun(src, i + 1, FractionDigit(x, src[i] - 48));
  }

  lemma {:induction false} BigNumberRun(src: Bytes, i: nat, x: Decimal)
    requires i <= |src| && BigNumber(src, i, x).Ok?
    ensures Run(src, i, BigNumber(src, i, x).value.1)
    decreases |src| - i
  {
    hide Exponent, Fraction;
    if i < |src| {
      if IsDigit(src[i]) {
        var m := x.mantissa * 10 + (src[i] - 48);
        BigNumberRun(src, i + 1, if m < U64_LIMIT then x.(mantissa := m) else x.(exponent := x.exponent + 1));
      } else if src[i] == POINT {
        FractionRun(src, i + 1, x);
      } else if src[i] == SMALL_E || src[i] == CAPITAL_E {
        ExponentRun(src, i + 1, x);
        var e := Exponent(src, i + 1, x).value;
        BigNumberRun(src, e.1, e.0);
      }
    }
  }

  lemma ExtensionRun(src: Bytes, i: nat, x: Decimal)
    requires i <= |src| && Extension(src, i, x).Ok?
    ensures Run(src, i, Extension(src, i, x).value.1)
  {
    hide Exponent, Fraction;
    if i < |src| && src[i] == POINT {
      FractionRun(src, i + 1, x);
    } else if i < |src| && (src[i] == SMALL_E || src[i] == CAPITAL_E) {
      ExponentRun(src, i + 1, x);
    }
  }

  lemma {:induction false} NumberFromRun(src: Bytes, i: nat, m: nat)
    requires i <= |src| && NumberFrom(src, i, m).Ok?
    ensures Run(src, i, NumberFrom(src, i, m).value.1)
    decreases |src| - i
  {
    hide BigNumber, Extension;
    if m >= MAX_PRECISION {
      BigNumberRun(src, i, Decimal(m, 0));
    } else if i < |src| {
      if IsDigit(src[i]) {
        NumberFromRun(src, i + 1, m * 10 + (src[i] - 48));
      } else {
        ExtensionRun(src, i, Decimal(m, 0));
      }
    }
  }

  lemma UnsignedRun(src: Bytes, i: nat)
    requires 0 < i <= |src| && Unsigned(src, i, src[i - 1]).Ok?
    ensures var end := Unsigned(src, i, src[i - 1]).value.1;
      i <= end <= |src| && Numerical(src[i - 1..end])
  {
    hide Extension, NumberFrom;
    if src[i - 1] == 48 {
      ExtensionRun(src, i, Decimal(0, 0));
    } else {
      NumberFromRun(src, i, src[i - 1] - 48);
    }
  }

  // A number this large may even go on with a fraction behind its exponent, as in `e1.5`, which is no
  // number of RFC 8259.
  lemma BigNumberLax(src: Bytes, m: nat)
    requires src == [101, 49, 46, 53] && 10 * m + 5 < U64_LIMIT
    ensures BigNumber(src, 0, Decimal(m, 0)) == Ok((Decimal(10 * m + 5, 0), 4))
  {
    assert ExponentDigits(src, 2, 1) == (1, 2);
    assert Exponent(src, 1, Decimal(m, 0)) == Ok((Decimal(m, 1), 2));
    assert FractionFrom(src, 4, Decimal(10 * m + 5, 0)) == Ok((Decimal(10 * m + 5, 0), 4));
    assert BigNumber(src, 2, Decimal(m, 1)) == Fraction(src, 3, Decimal(m, 1));
  }

  // What is read from `i` to `end` is the text of `doc`, and its value.
  ghost predicate Spells(src: Bytes, i: nat, end: nat, doc: Doc, v: Json) {
    Well(doc, false) && ValueOf(doc) == v && Here(src, i, DocText(doc)) && end == i + |DocText(doc)|
  }

  ghost predicate SpellsElems(src: Bytes, i: nat, end: nat, ds: Docs, es: Elems) {
    WellAll(ds, false) && ElemsOf(ds) == es && Here(src, i, DocsText(ds)) && end == i + |DocsText(ds)|
  }

  ghost predicate SpellsFields(src: Bytes, i: nat, end: nat, ds: FieldDocs, fs: Fields) {
    WellFields(ds, false) && FieldsOf(ds) == fs && Here(src, i, FieldDocsText(ds)) && end == i + |FieldDocsText(ds)|
  }

  lemma {:induction false} LiteralSpells(src: Bytes, i: nat, w: Bytes)
    requires i <= |src| && Literal(src, i, w).Ok?
    ensures Here(src, i, w) && Literal(src, i, w).value.1 == i + |w|
    decreases |w|
  {
    if w != [] {
      LiteralSpells(src, i + 1, w[1..]);
      assert src[i..i + |w|] == [src[i]] + src[i + 1..i + |w|];
      assert w == [w[0]] + w[1..];
    }
  }

  lemma StringSpelled(src: Bytes, i: nat) returns (ps: seq<Piece>)
    requires 0 < i <= |src| && src[i - 1] == QUOTE && StringFrom(src, i, i).Ok?
    ensures var (s, end) := StringFrom(src, i, i).value;
      AllValid(ps) && StringOf(ps) == s && Here(src, i - 1, QuotedPieces(ps)) && end == i - 1 + |QuotedPieces(ps)|
  {
    hide StringFrom, PiecesText, PiecesMean, AllValid;
    StringMeans(src, i);
    ps :| StringAt(src, i, ps);
    HereOne(src, i - 1);
    HereJoin(src, i - 1, [QUOTE], PiecesText(ps) + [QUOTE]);
  }

  lemma ScalarSpelled(src: Bytes, i: nat) returns (doc: Doc)
    requires 0 < i <= |src| && ReadScalar(src, i, src[i - 1]).Ok?
    ensures var (v, end) := ReadScalar(src, i, src[i - 1]).value; Spells(src, i - 1, end, doc, v)
  {
    hide StringFrom, Unsigned, Literal, Here, Numerical, QuotedPieces, StringOf, AllValid;
    var c := src[i - 1];
    HereOne(src, i - 1);
    if c == QUOTE {
      var ps := StringSpelled(src, i);
      doc := Str(ps);
    } else if IsDigit(c) {
      doc := NumeralSpelled(src, i, false);
    } else if c == MINUS {
      doc := NumeralSpelled(src, i + 1, true);
    } else if c == SMALL_T {
      doc := WordSpelled(src, i, TRUE_REST, True);
    } else if c == SMALL_F {
      doc := WordSpelled(src, i, FALSE_REST, False);
    } else {
      doc := WordSpelled(src, i, NULL_REST, Null);
    }
  }

  lemma WordSpelled(src: Bytes, i: nat, rest: Bytes, v: Json) returns (doc: Doc)
    requires 0 < i <= |src| && Literal(src, i, rest).Ok? && (v.True? || v.False? || v.Null?)
    requires ConstantText(v) == [src[i - 1]] + rest
    ensures Spells(src, i - 1, Literal(src, i, rest).value.1, doc, v)
  {
    hide Here, Literal;
    LiteralSpells(src, i, rest);
    HereOne(src, i - 1);
    HereJoin(src, i - 1, [src[i - 1]], rest);
    doc := Word(v);
  }

  // A number whose first digit stands before `i`, behind a minus sign when it is negative.
  lemma NumeralSpelled(src: Bytes, i: nat, negative: bool) returns (doc: Doc)
    requires 0 < i <= |src| && Unsigned(src, i, src[i - 1]).Ok?
    requires negative ==> i > 1 && src[i - 2] == MINUS
    ensures var (x, end) := Unsigned(src, i, src[i - 1]).value;
      Spells(src, if negative then i - 2 else i - 1, end, doc, Number(negative, x.mantissa, x.exponent))
  {
    hide *;
    UnsignedRun(src, i);
    var (x, end) := Unsigned(src, i, src[i - 1]).value;
    var text := src[i - 1..end];
    doc := Numeral(negative, text, x);
    HereSlice(src, i - 1, end);
    if negative {
      HereOne(src, i - 2);
      HereJoin(src, i - 2, [MINUS], text);
    }
    NumeralSpells(src, negative, text, x, if negative then i - 2 else i - 1);
  }

  lemma NumeralSpells(src: Bytes, negative: bool, text: Bytes, x: Decimal, i: nat)
    requires Numerical(text) && Here(src, i, if negative then [MINUS] + text else text)
    ensures Spells(src, i, i + |text| + if negative then 1 else 0, Numeral(negative, text, x), Number(negative, x.mantissa, x.exponent))
  {
    hide Here, Numerical;
    assert [] + text == text;
  }

  // A gap and the item behind it.
  lemma GapSpelled(src: Bytes, i: nat) returns (g: Bytes)
    requires i <= |src| && NextItem(src, i).Ok?
    ensures var (c, j) := NextItem(src, i).value;
      i < j <= |src| && White(g) && |g| == j - 1 - i && Here(src, i, g) && Here(src, j - 1, [c]) && src[j - 1] == c
  {
    hide NextItem, White;
    ItemGap(src, i);
    var (c, j) := NextItem(src, i).value;
    g := src[i..j - 1];
    HereSplit(src, i, g, [c]);
  }

  lemma Join3(src: Bytes, i: nat, a: Bytes, b: Bytes, c: Bytes)
    requires Here(src, i, a) && Here(src, i + |a|, b) && Here(src, i + |a| + |b|, c)
    ensures Here(src, i, a + (b + c)) && |a + (b + c)| == |a| + |b| + |c|
  {
    hide Here;
    HereJoin(src, i + |a|, b, c);
    HereJoin(src, i, a, b + c);
  }

  lemma Join4(src: Bytes, i: nat, a: Bytes, b: Bytes, c: Bytes, d: Bytes)
    requires Here(src, i, a) && Here(src, i + |a|, b) && Here(src, i + |a| + |b|, c) && Here(src, i + |a| + |b| + |c|, d)
    ensures Here(src, i, a + (b + (c + d))) && |a + (b + (c + d))| == |a| + |b| + |c| + |d|
  {
    hide Here;
    Join3(src, i + |a|, b, c, d);
    HereJoin(src, i, a, b + (c + d));
  }

  lemma KeySpelled(src: Bytes, i: nat) returns (k: seq<Piece>, c: Bytes, h: Bytes)
    requires 0 < i <= |src| && src[i - 1] == QUOTE && ReadKey(src, i).Ok?
    ensures var ((s, ch), end) := ReadKey(src, i).value;
      && AllValid(k) && White(c) && White(h) && StringOf(k) == s && i < end <= |src| && src[end - 1] == ch
      && forall w | Here(src, end - 1, w) ::
           Here(src, i - 1, KeyedText(k, c, h, w)) && |KeyedText(k, c, h, w)| == end - i + |w|
  {
    hide StringFrom, NextItem, QuotedPieces, StringOf, AllValid, White, Here;
    var (s, j) := StringFrom(src, i, i).value;
    k := StringSpelled(src, i);
    c := GapSpelled(src, j);
    var j1 := NextItem(src, j).value.1;
    h := GapSpelled(src, j1);
    var end := NextItem(src, j1).value.1;
    forall w | Here(src, end - 1, w)
      ensures Here(src, i - 1, KeyedText(k, c, h, w)) && |KeyedText(k, c, h, w)| == end - i + |w|
    {
      Join4(src, j, c, [COLON], h, w);
      HereJoin(src, i - 1, QuotedPieces(k), c + ([COLON] + (h + w)));
    }
  }

  lemma {:induction false} ValueSpelled(src: Bytes, i: nat, d: nat) returns (doc: Doc)
    requires 0 < i <= |src| && ReadValue(src, i, src[i - 1], d).Ok?
    ensures var (v, end) := ReadValue(src, i, src[i - 1], d).value; Spells(src, i - 1, end, doc, v)
    decreases |src| - i, 0
  {
    hide NextItem, ReadElems, ReadFields, ReadKey, ReadScalar, Spells, SpellsElems, SpellsFields;
    var c := src[i - 1];
    if c != OPEN_ARRAY && c != OPEN_OBJECT {
      doc := ScalarSpelled(src, i);
      return;
    }
    var (ch, j) := NextItem(src, i).value;
    var g := GapSpelled(src, i);
    if c == OPEN_ARRAY && ch == CLOSE_ARRAY {
      doc := EmptyArr(g);
      EmptySpells(src, i, g);
    } else if c == OPEN_ARRAY {
      assert ReadValue(src, i, c, d) == ReadArray(src, j, ch, d + 1);
      var x := ValueSpelled(src, j, d + 1);
      var (v, at) := ReadValue(src, j, ch, d + 1).value;
      var tl := ElemsSpelled(src, at, d + 1);
      doc := Arr(g, x, tl);
      ArrSpells(src, i, g, x, tl, v, at, ReadElems(src, at, d + 1).value.0, ReadElems(src, at, d + 1).value.1);
    } else if ch == CLOSE_OBJECT {
      doc := EmptyObj(g);
      EmptySpells(src, i, g);
    } else {
      assert ReadValue(src, i, c, d) == ReadObject(src, j, d + 1);
      var k, o, h := KeySpelled(src, j);
      var ((s, first), at) := ReadKey(src, j).value;
      var x := ValueSpelled(src, at, d + 1);
      var (v, mid) := ReadValue(src, at, first, d + 1).value;
      var tl := FieldsSpelled(src, mid, d + 1);
      doc := Obj(g, k, o, h, x, tl);
      ObjSpells(src, i, g, k, o, h, x, tl, j, at, s, v, mid, ReadFields(src, mid, d + 1).value.0, ReadFields(src, mid, d + 1).value.1);
    }
  }

  lemma EmptySpells(src: Bytes, i: nat, g: Bytes)
    requires 0 < i <= |src| && White(g) && Here(src, i, g)
    ensures src[i - 1] == OPEN_ARRAY && Here(src, i + |g|, [CLOSE_ARRAY]) ==>
      Spells(src, i - 1, i + |g| + 1, EmptyArr(g), Array(NoElems))
    ensures src[i - 1] == OPEN_OBJECT && Here(src, i + |g|, [CLOSE_OBJECT]) ==>
      Spells(src, i - 1, i + |g| + 1, EmptyObj(g), Object(NoFields))
  {
    hide Here, White;
    HereOne(src, i - 1);
    if src[i - 1] == OPEN_ARRAY && Here(src, i + |g|, [CLOSE_ARRAY]) {
      Join3(src, i - 1, [OPEN_ARRAY], g, [CLOSE_ARRAY]);
    }
    if src[i - 1] == OPEN_OBJECT && Here(src, i + |g|, [CLOSE_OBJECT]) {
      Join3(src, i - 1, [OPEN_OBJECT], g, [CLOSE_OBJECT]);
    }
  }

  lemma ArrSpells(src: Bytes, i: nat, g: Bytes, x: Doc, tl: Docs, v: Json, at: nat, es: Elems, end: nat)
    requires 0 < i <= |src| && src[i - 1] == OPEN_ARRAY && White(g) && Here(src, i, g)
    requires Spells(src, i + |g|, at, x, v) && SpellsElems(src, at, end, tl, es)
    ensures Spells(src, i - 1, end, Arr(g, x, tl), Array(Elem(v, es)))
  {
    hide Here, White;
    HereOne(src, i - 1);
    Join4(src, i - 1, [OPEN_ARRAY], g, DocText(x), DocsText(tl));
  }

  lemma ObjSpells(src: Bytes, i: nat, g: Bytes, k: seq<Piece>, o: Bytes, h: Bytes, x: Doc, tl: FieldDocs, j: nat, at: nat,
                  s: Bytes, v: Json, mid: nat, fs: Fields, end: nat)
    requires 0 < i <= |src| && src[i - 1] == OPEN_OBJECT && White(g) && Here(src, i, g) && j == i + |g| + 1 <= at
    requires AllValid(k) && White(o) && White(h) && StringOf(k) == s
    requires forall w | Here(src, at - 1, w) :: Here(src, j - 1, KeyedText(k, o, h, w)) && |KeyedText(k, o, h, w)| == at - j + |w|
    requires Spells(src, at - 1, mid, x, v) && SpellsFields(src, mid, end, tl, fs)
    ensures Spells(src, i - 1, end, Obj(g, k, o, h, x, tl), Object(Field(s, v, fs)))
  {
    hide Here, White, KeyedText, StringOf, AllValid;
    var w := DocText(x) + FieldDocsText(tl);
    HereOne(src, i - 1);
    HereJoin(src, at - 1, DocText(x), FieldDocsText(tl));
    Join3(src, i - 1, [OPEN_OBJECT], g, KeyedText(k, o, h, w));
  }

  lemma {:induction false} ElemsSpelled(src: Bytes, i: nat, d: nat) returns (ds: Docs)
    requires i <= |src| && ReadElems(src, i, d).Ok?
    ensures var (es, end) := ReadElems(src, i, d).value; SpellsElems(src, i, end, ds, es)
    decreases |src| - i, 1
  {
    hide NextItem, ReadValue, Spells, SpellsElems;
    var g := GapSpelled(src, i);
    var (c, j) := NextItem(src, i).value;
    if c == CLOSE_ARRAY {
      ds := EndDocs(g);
      EndSpells(src, i, g);
    } else {
      var b := GapSpelled(src, j);
      var (ch, n) := NextItem(src, j).value;
      var x := ValueSpelled(src, n, d);
      var (v, at) := ReadValue(src, n, ch, d).value;
      var tl := ElemsSpelled(src, at, d);
      ds := NextDoc(g, b, x, tl);
      NextSpells(src, i, g, b, x, tl, v, at, ReadElems(src, at, d).value.0, ReadElems(src, at, d).value.1);
    }
  }

  lemma EndSpells(src: Bytes, i: nat, g: Bytes)
    requires White(g) && Here(src, i, g)
    ensures Here(src, i + |g|, [CLOSE_ARRAY]) ==> SpellsElems(src, i, i + |g| + 1, EndDocs(g), NoElems)
    ensures Here(src, i + |g|, [CLOSE_OBJECT]) ==> SpellsFields(src, i, i + |g| + 1, EndFields(g), NoFields)
  {
    hide Here, White;
    if Here(src, i + |g|, [CLOSE_ARRAY]) {
      HereJoin(src, i, g, [CLOSE_ARRAY]);
    }
    if Here(src, i + |g|, [CLOSE_OBJECT]) {
      HereJoin(src, i, g, [CLOSE_OBJECT]);
    }
  }

  lemma NextSpells(src: Bytes, i: nat, g: Bytes, b: Bytes, x: Doc, tl: Docs, v: Json, at: nat, es: Elems, end: nat)
    requires White(g) && White(b) && Here(src, i, g) && Here(src, i + |g|, [COMMA]) && Here(src, i + |g| + 1, b)
    requires Spells(src, i + |g| + 1 + |b|, at, x, v) && SpellsElems(src, at, end, tl, es)
    ensures SpellsElems(src, i, end, NextDoc(g, b, x, tl), Elem(v, es))
  {
    hide Here, White;
    Join4(src, i + |g|, [COMMA], b, DocText(x), DocsText(tl));
    HereJoin(src, i, g, [COMMA] + (b + (DocText(x) + DocsText(tl))));
  }

  lemma {:induction false} FieldsSpelled(src: Bytes, i: nat, d: nat) returns (ds: FieldDocs)
    requires i <= |src| && ReadFields(src, i, d).Ok?
    ensures var (fs, end) := ReadFields(src, i, d).value; SpellsFields(src, i, end, ds, fs)
    decreases |src| - i, 1
  {
    hide NextItem, ReadValue, ReadKey, Spells, SpellsFields;
    var g := GapSpelled(src, i);
    var (c, j) := NextItem(src, i).value;
    if c == CLOSE_OBJECT {
      ds := EndFields(g);
      EndSpells(src, i, g);
    } else {
      var b := GapSpelled(src, j);
      var n := NextItem(src, j).value.1;
      var k, o, h := KeySpelled(src, n);
      var ((s, ch), at) := ReadKey(src, n).value;
      var x := ValueSpelled(src, at, d);
      var (v, mid) := ReadValue(src, at, ch, d).value;
      var tl := FieldsSpelled(src, mid, d);
      ds := NextDocField(g, b, k, o, h, x, tl);
      NextFieldSpells(src, i, g, b, k, o, h, x, tl, n, at, s, v, mid, ReadFields(src, mid, d).value.0, ReadFields(src, mid, d).value.1);
    }
  }

  lemma NextFieldSpells(src: Bytes, i: nat, g: Bytes, b: Bytes, k: seq<Piece>, o: Bytes, h: Bytes, x: Doc, tl: FieldDocs, n: nat, at: nat,
                        s: Bytes, v: Json, mid: nat, fs: Fields, end: nat)
    requires White(g) && White(b) && Here(src, i, g) && Here(src, i + |g|, [COMMA]) && Here(src, i + |g| + 1, b)
    requires n == i + |g| + 1 + |b| + 1 <= at && AllValid(k) && White(o) && White(h) && StringOf(k) == s
    requires forall w | Here(src, at - 1, w) :: Here(src, n - 1, KeyedText(k, o, h, w)) && |KeyedText(k, o, h, w)| == at - n + |w|
    requires Spells(src, at - 1, mid, x, v) && SpellsFields(src, mid, end, tl, fs)
    ensures SpellsFields(src, i, end, NextDocField(g, b, k, o, h, x, tl), Field(s, v, fs))
  {
    hide Here, White, KeyedText, StringOf, AllValid;
    var w := DocText(x) + FieldDocsText(tl);
    HereJoin(src, at - 1, DocText(x), FieldDocsText(tl));
    Join4(src, i, g, [COMMA], b, KeyedText(k, o, h, w));
  }

  // Whatever is accepted is such a text, but for the spelling of its numbers: between the tokens stands
  // white space and nothing else.
  lemma AcceptedSpelling(src: Bytes) returns (g: Bytes, doc: Doc, h: Bytes)
    requires ReadJson(src, 0).Ok?
    ensures src == g + (DocText(doc) + h) && White(g) && Well(doc, false) && White(h)
    ensures ValueOf(doc) == ReadJson(src, 0).value
  {
    hide NextItem, ReadValue, OnlySpace, White, Here, Well, DocText;
    g := GapSpelled(src, 0);
    var (c, j) := NextItem(src, 0).value;
    doc := ValueSpelled(src, j, 0);
    var end := ReadValue(src, j, c, 0).value.1;
    WhiteOnly(src, end);
    h := src[end..];
    Whole(src, g, DocText(doc));
  }

  lemma Whole(src: Bytes, g: Bytes, w: Bytes)
    requires Here(src, 0, g) && Here(src, |g|, w)
    ensures |g| + |w| <= |src| && src == g + (w + src[|g| + |w|..])
  {
    assert src == src[..|g|] + (src[|g|..|g| + |w|] + src[|g| + |w|..]);
  }

  // `src` is the text of `doc` between white space.
  ghost predicate IsJson(src: Bytes, doc: Doc, rfc: bool) {
    Well(doc, rfc) && exists g, h :: White(g) && White(h) && src == g + (DocText(doc) + h)
  }

  // The parser on a whole text: the events are those of the value, however it is spaced and spelled,
  // and only such texts are accepted.
  method ParseText(src: Bytes) returns (failure: Option<Error>, events: seq<Event>)
    ensures forall doc | IsJson(src, doc, true) && Depth(ValueOf(doc)) <= DEPTH_LIMIT ::
      failure.None? && events == [Begin] + Events(ValueOf(doc)) + [End]
    ensures failure.None? ==> exists doc :: IsJson(src, doc, false) && events == [Begin] + Events(ValueOf(doc)) + [End]
  {
    hide Well, DocText, White, ReadJson, Events, Depth;
    var lexer := new Lexer(src);
    var t := new Transcript();
    failure := Parse(lexer, t);
    events := t.events;
    assert [] + [Begin] == [Begin];
    forall doc | IsJson(src, doc, true) && Depth(ValueOf(doc)) <= DEPTH_LIMIT
      ensures ReadJson(src, 0) == Ok(ValueOf(doc))
    {
      var g, h :| White(g) && White(h) && src == g + (DocText(doc) + h);
      SpacedRead(g, doc, h);
    }
    if failure.None? {
      ghost var g, doc, h := AcceptedSpelling(src);
      assert IsJson(src, doc, false);
    }
  }
}
