/** `WriteTranscriber`, and that the JSON parser undoes it. */
module JsonPrinting {
  import opened Items
  import opened Slices
  import opened Wrappers
  import opened JsonLexing
  import opened JsonLexers
  import opened JsonMeanings
  import opened JsonParsing

  const SPACE: byte := 32

  // A number in decimal.
  function Digits(n: nat): (s: Bytes)
    ensures s != []
  {
    if n < 10 then [ZERO + n] else Digits(n / 10) + [ZERO + n % 10]
  }

  function NumberText(negative: bool, m: nat, e: int): Bytes {
    (if negative then [MINUS] else []) + Digits(m) + ExponentText(e)
  }

  function ExponentText(e: int): Bytes {
    if e == 0 then [] else if e < 0 then [SMALL_E, MINUS] + Digits(-e) else [SMALL_E] + Digits(e)
  }

  function Quoted(s: Bytes): Bytes {
    [QUOTE] + s + [QUOTE]
  }

  function KeyText(k: Bytes): Bytes {
    Quoted(k) + [COLON, SPACE]
  }

  // What one call writes.
  function Written(e: Event): Bytes {
    match e
    case Begin => []
    case End => []
    case DescendIndex(_, first) => if first then [OPEN_ARRAY] else []
    case AscendIndex(_, last) => if last then [CLOSE_ARRAY] else [COMMA, SPACE]
    case EmptyArray => [OPEN_ARRAY, CLOSE_ARRAY]
    case DescendKey(k, first) => (if first then [OPEN_OBJECT] else []) + KeyText(k)
    case AscendKey(_, last) => if last then [CLOSE_OBJECT] else [COMMA, SPACE]
    case EmptyObject => [OPEN_OBJECT, CLOSE_OBJECT]
    case String(s) => Quoted(s)
    case Num(negative, m, x) => NumberText(negative, m, x)
    case Constant(v) => ConstantText(v)
  }

  function ConstantText(v: Json): Bytes {
    if v.True? then [SMALL_T] + TRUE_REST else if v.False? then [SMALL_F] + FALSE_REST else [SMALL_N] + NULL_REST
  }

  function WrittenAll(es: seq<Event>): Bytes {
    if es == [] then [] else Written(es[0]) + WrittenAll(es[1..])
  }

  lemma {:induction false} WrittenAppend(es: seq<Event>, fs: seq<Event>)
    ensures WrittenAll(es + fs) == WrittenAll(es) + WrittenAll(fs)
  {
    hide *;
    WrittenNil();
    if es == [] {
      assert es + fs == fs;
      assert [] + WrittenAll(fs) == WrittenAll(fs);
    } else {
      WrittenAppend(es[1..], fs);
      assert (es + fs)[1..] == es[1..] + fs;
      WrittenCons(es + fs);
      WrittenCons(es);
      Assoc(Written(es[0]), WrittenAll(es[1..]), WrittenAll(fs));
    }
  }

  lemma WrittenNil()
    ensures WrittenAll([]) == []
  {
  }

  lemma WrittenCons(es: seq<Event>)
    requires es != []
    ensures WrittenAll(es) == Written(es[0]) + WrittenAll(es[1..])
  {
  }

  // `WriteTranscriber`, driven by a list of events.
  method WriteTranscript(events: seq<Event>) returns (w: Bytes)
    ensures w == WrittenAll(events)
  {
    w := [];
    for i := 0 to |events|
      invariant w == WrittenAll(events[..i])
    {
      WrittenAppend(events[..i], [events[i]]);
      assert events[..i + 1] == events[..i] + [events[i]];
      WrittenOne(events[i]);
      w := w + Written(events[i]);
    }
    assert events[..|events|] == events;
  }

  lemma WrittenOne(e: Event)
    ensures WrittenAll([e]) == Written(e)
  {
    assert [e][1..] == [];
  }

  /* ---- The text of a value ---- */

  function TextOf(v: Json): Bytes
    decreases v, 0
  {
    match v
    case Text(s) => Quoted(s)
    case Number(negative, m, e) => NumberText(negative, m, e)
    case Array(NoElems) => [OPEN_ARRAY, CLOSE_ARRAY]
    case Array(Elem(x, tl)) => [OPEN_ARRAY] + TextOf(x) + ElemsText(tl)
    case Object(NoFields) => [OPEN_OBJECT, CLOSE_OBJECT]
    case Object(Field(k, x, tl)) => [OPEN_OBJECT] + KeyText(k) + TextOf(x) + FieldsText(tl)
    case _ => ConstantText(v)
  }

  function ElemsText(tl: Elems): Bytes
    decreases tl
  {
    match tl
    case NoElems => [CLOSE_ARRAY]
    case Elem(x, more) => [COMMA, SPACE] + TextOf(x) + ElemsText(more)
  }

  function FieldsText(tl: Fields): Bytes
    decreases tl
  {
    match tl
    case NoFields => [CLOSE_OBJECT]
    case Field(k, x, more) => [COMMA, SPACE] + KeyText(k) + TextOf(x) + FieldsText(more)
  }

  lemma {:induction false} EventsText(v: Json)
    ensures WrittenAll(Events(v)) == TextOf(v)
    decreases v, 0
  {
    hide WrittenAll, Written, KeyText, Quoted, NumberText, ConstantText, ElemsText, FieldsText, ElemEvents, FieldEvents;
    match v
    case Array(Elem(x, tl)) =>
      EventsText(x);
      ElemsEventsText(0, tl);
      Three([DescendIndex(0, true)], Events(x), ElemEvents(0, tl));
      OneOf(DescendIndex(0, true));
    case Object(Field(k, x, tl)) =>
      EventsText(x);
      FieldsEventsText(k, tl);
      Three([DescendKey(k, true)], Events(x), FieldEvents(k, tl));
      OneOf(DescendKey(k, true));
    case Text(s) => OneOf(String(s));
    case Number(negative, m, e) => OneOf(Num(negative, m, e));
    case Array(NoElems) => OneOf(EmptyArray);
    case Object(NoFields) => OneOf(EmptyObject);
    case _ => OneOf(Constant(v));
  }

  lemma OneOf(e: Event)
    ensures WrittenAll([e]) == match e
      case DescendIndex(_, first) => if first then [OPEN_ARRAY] else []
      case DescendKey(k, first) => (if first then [OPEN_OBJECT] else []) + KeyText(k)
      case String(s) => Quoted(s)
      case Num(negative, m, x) => NumberText(negative, m, x)
      case EmptyArray => [OPEN_ARRAY, CLOSE_ARRAY]
      case EmptyObject => [OPEN_OBJECT, CLOSE_OBJECT]
      case Constant(v) => ConstantText(v)
      case _ => Written(e)
  {
    WrittenOne(e);
  }

  lemma Three(es: seq<Event>, fs: seq<Event>, gs: seq<Event>)
    ensures WrittenAll(es + fs + gs) == WrittenAll(es) + WrittenAll(fs) + WrittenAll(gs)
  {
    WrittenAppend(es + fs, gs);
    WrittenAppend(es, fs);
  }

  lemma {:induction false} ElemsEventsText(i: nat, tl: Elems)
    ensures WrittenAll(ElemEvents(i, tl)) == ElemsText(tl)
    decreases tl
  {
    hide WrittenAll, Written, TextOf, Events;
    match tl
    case NoElems => AscendText(i, [], true);
    case Elem(x, more) =>
      EventsText(x);
      ElemsEventsText(i + 1, more);
      Three([AscendIndex(i, false), DescendIndex(i + 1, false)], Events(x), ElemEvents(i + 1, more));
      AscendText(i, [], false);
  }

  lemma AscendText(i: nat, k: Bytes, last: bool)
    ensures last ==> WrittenAll([AscendIndex(i, true)]) == [CLOSE_ARRAY] && WrittenAll([AscendKey(k, true)]) == [CLOSE_OBJECT]
    ensures WrittenAll([AscendIndex(i, false), DescendIndex(i + 1, false)]) == [COMMA, SPACE]
  {
    WrittenOne(AscendIndex(i, true));
    WrittenOne(AscendKey(k, true));
    WrittenAppend([AscendIndex(i, false)], [DescendIndex(i + 1, false)]);
    WrittenOne(AscendIndex(i, false));
    WrittenOne(DescendIndex(i + 1, false));
    assert [AscendIndex(i, false)] + [DescendIndex(i + 1, false)] == [AscendIndex(i, false), DescendIndex(i + 1, false)];
  }

  lemma NextKeyText(k: Bytes, k': Bytes)
    ensures WrittenAll([AscendKey(k, false), DescendKey(k', false)]) == [COMMA, SPACE] + KeyText(k')
  {
    WrittenAppend([AscendKey(k, false)], [DescendKey(k', false)]);
    WrittenOne(AscendKey(k, false));
    WrittenOne(DescendKey(k', false));
    assert [AscendKey(k, false)] + [DescendKey(k', false)] == [AscendKey(k, false), DescendKey(k', false)];
    assert [] + KeyText(k') == KeyText(k');
  }

  lemma {:induction false} FieldsEventsText(k: Bytes, tl: Fields)
    ensures WrittenAll(FieldEvents(k, tl)) == FieldsText(tl)
    decreases tl
  {
    hide WrittenAll, Written, TextOf, Events, KeyText;
    match tl
    case NoFields => AscendText(0, k, true);
    case Field(k', x, more) =>
      EventsText(x);
      FieldsEventsText(k', more);
      Three([AscendKey(k, false), DescendKey(k', false)], Events(x), FieldEvents(k', more));
      NextKeyText(k, k');
  }

  /* ---- Reading numbers back ---- */

  // The digits of a number: the first is not 0 unless the number is, and they fold back to it.
  lemma {:induction false} DigitsFold(n: nat)
    ensures var ds := Digits(n);
            && AllDigits(ds) && (n > 0 ==> ds[0] != ZERO) && (n == 0 ==> ds == [ZERO])
            && Fold(0, ds) == n
  {
    if n >= 10 {
      DigitsFold(n / 10);
      FoldAppend(0, Digits(n / 10), [ZERO + n % 10]);
      assert [ZERO + n % 10][1..] == [];
    } else {
      assert [ZERO + n][1..] == [];
    }
  }

  // A digit kept after another was dropped: 184467440737095516165 is read as 18446744073709551615
  // with exponent 1, where `m` is what the two last digits follow.
  lemma LateDigit(m: nat)
    requires m == 1844674407370955161
    ensures var p := NumberParts(Digits(m) + [ZERO + 6, ZERO + 5], [], [], []);
      && p.Valid() && Fold(0, p.whole) == 184467440737095516165 && !DroppedForGood(0, p.whole)
      && p.Value() == Ok(Decimal(18446744073709551615, 1))
  {
    hide Digits, DroppedForGood, Fold, Absorb, Pow10;
    var ds: Bytes := [ZERO + 6, ZERO + 5];
    DigitsFold(m);
    FoldAppend(0, Digits(m), ds);
    AbsorbFits(0, Digits(m));
    AbsorbAppend(0, Digits(m), ds);
    AbsorbTruncates(0, Digits(m) + ds);
    TwoDigits(m, ds);
  }

  lemma TwoDigits(m: nat, ds: Bytes)
    requires m == 1844674407370955161 && ds == [ZERO + 6, ZERO + 5]
    ensures AllDigits(ds) && Fold(m, ds) == 100 * m + 65 && Absorb(m, ds) == (10 * m + 5, 1) && Pow10(1) == 10
    ensures Absorb(10 * m + 5, []) == (10 * m + 5, 0) && Absorb(m, []) == (m, 0)
  {
    var tl := ds[1..];
    assert tl == [ZERO + 5] && tl[1..] == [];
    assert Fold(10 * m + 6, tl) == Fold(100 * m + 65, tl[1..]);
    assert Absorb(m, tl) == (Absorb(10 * m + 5, tl[1..]).0, 1 + Absorb(10 * m + 5, tl[1..]).1);
  }

  // What is written for a number, in parts.
  function WrittenParts(m: nat, e: int): NumberParts {
    NumberParts(Digits(m), [], if e == 0 then [] else if e < 0 then [SMALL_E, MINUS] else [SMALL_E],
                if e == 0 then [] else if e < 0 then Digits(-e) else Digits(e))
  }

  lemma WrittenPartsAre(m: nat, e: int)
    ensures var p := WrittenParts(m, e); p.Valid() && p.Text() == Digits(m) + ExponentText(e)
    ensures m < U64_LIMIT && I16_MIN <= e <= I16_MAX ==>
      WrittenParts(m, e).Value() == Ok(Decimal(m, if e == I16_MIN then I16_MIN + 1 else e))
  {
    hide Digits, Fold, Absorb;
    var p := WrittenParts(m, e);
    DigitsFold(m);
    DigitsFold(if e < 0 then -e else e);
    assert Digits(m) + [] == Digits(m);
    assert p.Point() + (p.mark + p.exponent) == ExponentText(e);
    FittingNumber(p);
  }

  // A number is read back unchanged, unless its exponent is the least: its digits saturate before
  // the sign is applied, so that one comes back one larger.
  lemma NumberRead(src: Bytes, i: nat, m: nat, e: int)
    requires m < U64_LIMIT && I16_MIN <= e <= I16_MAX
    requires var w := Digits(m) + ExponentText(e); Here(src, i, w) && Stops(src, i + |w|)
    ensures i < |src| && IsDigit(src[i])
    ensures Unsigned(src, i + 1, src[i]) == Ok((Decimal(m, e), i + |Digits(m) + ExponentText(e)|)) <==> e > I16_MIN
    ensures e == I16_MIN ==> Unsigned(src, i + 1, src[i]) == Ok((Decimal(m, -32767), i + |Digits(m) + ExponentText(e)|))
  {
    hide Digits, ExponentText, WrittenParts, Unsigned, Here, Stops;
    WrittenPartsAre(m, e);
    NumberMeans(src, i, WrittenParts(m, e));
  }

  /* ---- Reading values back ---- */

  // Strings without escapes: every byte stands for itself.
  predicate EscapeFree(s: Bytes) {
    forall k | 0 <= k < |s| :: Allowed(s[k])
  }

  // The values that survive: escape-free strings, u64 mantissas, i16 exponents above the least.
  predicate Printable(v: Json)
    decreases v, 0
  {
    match v
    case Text(s) => EscapeFree(s)
    case Number(_, m, e) => m < U64_LIMIT && I16_MIN < e <= I16_MAX
    case Array(es) => PrintableElems(es)
    case Object(fs) => PrintableFields(fs)
    case _ => true
  }

  predicate PrintableElems(es: Elems)
    decreases es
  {
    match es
    case NoElems => true
    case Elem(x, tl) => Printable(x) && PrintableElems(tl)
  }

  predicate PrintableFields(fs: Fields)
    decreases fs
  {
    match fs
    case NoFields => true
    case Field(k, x, tl) => EscapeFree(k) && Printable(x) && PrintableFields(tl)
  }

  lemma {:induction false} StringRead(src: Bytes, start: nat, i: nat, s: Bytes)
    requires start <= i && Here(src, i, s + [QUOTE]) && EscapeFree(s)
    ensures i <= |src| && StringFrom(src, start, i) == Ok((src[start..i + |s|], i + |s| + 1))
    decreases |s|
  {
    HereFirst(src, i, s + [QUOTE]);
    if s != [] {
      assert (s + [QUOTE])[1..] == s[1..] + [QUOTE];
      StringRead(src, start, i + 1, s[1..]);
    }
  }

  // A quoted string, after its opening quote.
  lemma QuotedRead(src: Bytes, i: nat, s: Bytes)
    requires Here(src, i, Quoted(s)) && EscapeFree(s)
    ensures i < |src| && src[i] == QUOTE && StringFrom(src, i + 1, i + 1) == Ok((s, i + |Quoted(s)|))
  {
    hide *;
    Assoc([QUOTE], s, [QUOTE]);
    QuotedParts(s);
    HereSplit(src, i, [QUOTE], s + [QUOTE]);
    HereFirst(src, i, [QUOTE]);
    StringRead(src, i + 1, i + 1, s);
    HereSplit(src, i + 1, s, [QUOTE]);
    HereIs(src, i + 1, s);
  }

  lemma QuotedParts(s: Bytes)
    ensures Quoted(s) == [QUOTE] + s + [QUOTE] && |Quoted(s)| == |s| + 2
  {
  }

  // A byte that is not white space is the next item.
  lemma ItemHere(src: Bytes, i: nat)
    requires i < |src| && !IsSpace(src[i])
    ensures NextItem(src, i) == Ok((src[i], i + 1))
  {
  }

  lemma ItemAfterSpace(src: Bytes, i: nat)
    requires i + 1 < |src| && src[i] == SPACE && !IsSpace(src[i + 1])
    ensures NextItem(src, i) == Ok((src[i + 1], i + 2))
  {
    ItemHere(src, i + 1);
  }

  lemma LiteralRead(src: Bytes, i: nat, w: Bytes)
    requires Here(src, i, w)
    ensures i <= |src| && Literal(src, i, w) == Ok(((), i + |w|))
    decreases |w|
  {
    if w != [] {
      HereFirst(src, i, w);
      LiteralRead(src, i + 1, w[1..]);
    }
  }

  // The first byte of a value is neither white space nor a closing bracket.
  predicate StartsValue(c: byte) {
    !IsSpace(c) && c != CLOSE_ARRAY && c != CLOSE_OBJECT
  }

  lemma ScalarRead(src: Bytes, i: nat, v: Json)
    requires !v.Array? && !v.Object? && Printable(v) && Here(src, i, TextOf(v)) && Stops(src, i + |TextOf(v)|)
    ensures i < |src| && StartsValue(src[i]) && src[i] != OPEN_ARRAY && src[i] != OPEN_OBJECT
    ensures ReadScalar(src, i + 1, src[i]) == Ok((v, i + |TextOf(v)|))
  {
    hide StringFrom, Unsigned, Literal, Digits, ExponentText, NumberText, Stops, Here;
    match v
    case Text(s) => QuotedRead(src, i, s);
    case Number(negative, m, e) => NumberScalarRead(src, i, negative, m, e);
    case True => WordRead(src, i, SMALL_T, TRUE_REST);
    case False => WordRead(src, i, SMALL_F, FALSE_REST);
    case Null => WordRead(src, i, SMALL_N, NULL_REST);
  }

  lemma WordRead(src: Bytes, i: nat, c: byte, rest: Bytes)
    requires Here(src, i, [c] + rest)
    ensures i < |src| && src[i] == c && Literal(src, i + 1, rest) == Ok(((), i + 1 + |rest|))
  {
    hide *;
    HereSplit(src, i, [c], rest);
    HereFirst(src, i, [c]);
    LiteralRead(src, i + 1, rest);
  }

  lemma NumberScalarRead(src: Bytes, i: nat, negative: bool, m: nat, e: int)
    requires m < U64_LIMIT && I16_MIN < e <= I16_MAX
    requires Here(src, i, NumberText(negative, m, e)) && Stops(src, i + |NumberText(negative, m, e)|)
    ensures i < |src| && if negative then src[i] == MINUS else IsDigit(src[i])
    ensures ReadScalar(src, i + 1, src[i]) == Ok((Number(negative, m, e), i + |NumberText(negative, m, e)|))
  {
    hide Unsigned, Literal, StringFrom, Digits, ExponentText, Stops, Here;
    var w := Digits(m) + ExponentText(e);
    if negative {
      assert NumberText(negative, m, e) == [MINUS] + w;
      HereSplit(src, i, [MINUS], w);
      HereFirst(src, i, [MINUS]);
      NumberRead(src, i + 1, m, e);
    } else {
      assert NumberText(negative, m, e) == w;
      NumberRead(src, i, m, e);
    }
  }

  // What is written for a value is read as that value, wherever it stands.
  lemma {:induction false} ValueRead(src: Bytes, i: nat, v: Json, d: nat)
    requires Printable(v) && d + Depth(v) <= DEPTH_LIMIT && Here(src, i, TextOf(v)) && Stops(src, i + |TextOf(v)|)
    ensures i < |src| && StartsValue(src[i])
    ensures ReadValue(src, i + 1, src[i], d) == Ok((v, i + |TextOf(v)|))
    decreases v, 1
  {
    hide *;
    match v
    case Array(NoElems) => EmptyRead(src, i, v, d);
    case Object(NoFields) => EmptyRead(src, i, v, d);
    case Array(Elem(x, tl)) =>
      ArrayParts(src, i, x, tl, d);
      ValueRead(src, i + 1, x, d + 1);
      ElemsRead(src, i + 1 + |TextOf(x)|, tl, d + 1);
      ArrayWhole(src, i, x, tl, d, i + 1 + |TextOf(x)|, i + |TextOf(v)|);
    case Object(Field(k, x, tl)) =>
      ObjectParts(src, i, k, x, tl, d);
      ValueRead(src, i + 1 + |KeyText(k)|, x, d + 1);
      FieldsRead(src, i + 1 + |KeyText(k)| + |TextOf(x)|, tl, d + 1);
      ObjectWhole(src, i, k, x, tl, d, i + 1 + |KeyText(k)| + |TextOf(x)|, i + |TextOf(v)|);
    case _ =>
      ScalarRead(src, i, v);
      ScalarValue(src, i, d);
  }

  lemma ScalarValue(src: Bytes, i: nat, d: nat)
    requires i < |src| && src[i] != OPEN_ARRAY && src[i] != OPEN_OBJECT
    ensures ReadValue(src, i + 1, src[i], d) == ReadScalar(src, i + 1, src[i])
  {
  }

  lemma EmptyRead(src: Bytes, i: nat, v: Json, d: nat)
    requires v == Array(NoElems) || v == Object(NoFields)
    requires Here(src, i, TextOf(v))
    ensures i < |src| && StartsValue(src[i])
    ensures ReadValue(src, i + 1, src[i], d) == Ok((v, i + |TextOf(v)|))
  {
    HereFirst(src, i, TextOf(v));
    HereFirst(src, i + 1, TextOf(v)[1..]);
    ItemHere(src, i + 1);
  }

  // The rest of an array or of an object starts with a byte that ends every number.
  lemma RestStops(src: Bytes, j: nat, w: Bytes)
    requires Here(src, j, w) && w != [] && (w[0] == COMMA || w[0] == CLOSE_ARRAY || w[0] == CLOSE_OBJECT)
    ensures Stops(src, j)
  {
    HereFirst(src, j, w);
  }

  lemma RestFirst(es: Elems, fs: Fields)
    ensures ElemsText(es) != [] && (ElemsText(es)[0] == COMMA || ElemsText(es)[0] == CLOSE_ARRAY)
    ensures FieldsText(fs) != [] && (FieldsText(fs)[0] == COMMA || FieldsText(fs)[0] == CLOSE_OBJECT)
  {
  }

  lemma ArrayText(x: Json, tl: Elems)
    ensures TextOf(Array(Elem(x, tl))) == [OPEN_ARRAY] + (TextOf(x) + ElemsText(tl))
    ensures ElemsText(Elem(x, tl)) == [COMMA, SPACE] + (TextOf(x) + ElemsText(tl))
    ensures |[OPEN_ARRAY]| == 1 && |[COMMA, SPACE]| == 2
  {
    hide NumberText, ConstantText, KeyText, Quoted, FieldsText;
    Assoc([OPEN_ARRAY], TextOf(x), ElemsText(tl));
    Assoc([COMMA, SPACE], TextOf(x), ElemsText(tl));
  }

  lemma ArrayDepth(x: Json, tl: Elems)
    ensures Printable(Array(Elem(x, tl))) == PrintableElems(Elem(x, tl)) == (Printable(x) && PrintableElems(tl))
    ensures Depth(Array(Elem(x, tl))) == 1 + ElemDepth(Elem(x, tl))
    ensures Depth(x) <= ElemDepth(Elem(x, tl)) && ElemDepth(tl) <= ElemDepth(Elem(x, tl))
  {
    hide PrintableFields, FieldDepth, EscapeFree;
  }

  lemma ObjectText(k: Bytes, x: Json, tl: Fields)
    ensures TextOf(Object(Field(k, x, tl))) == [OPEN_OBJECT] + (KeyText(k) + (TextOf(x) + FieldsText(tl)))
    ensures FieldsText(Field(k, x, tl)) == [COMMA, SPACE] + (KeyText(k) + (TextOf(x) + FieldsText(tl)))
    ensures |[OPEN_OBJECT]| == 1
  {
    hide NumberText, ConstantText, KeyText, Quoted, ElemsText;
    Assoc([OPEN_OBJECT], KeyText(k), TextOf(x) + FieldsText(tl));
    Assoc([OPEN_OBJECT] + KeyText(k), TextOf(x), FieldsText(tl));
    Assoc([COMMA, SPACE], KeyText(k), TextOf(x) + FieldsText(tl));
    Assoc([COMMA, SPACE] + KeyText(k), TextOf(x), FieldsText(tl));
  }

  lemma ObjectDepth(k: Bytes, x: Json, tl: Fields)
    ensures Printable(Object(Field(k, x, tl))) == PrintableFields(Field(k, x, tl)) == (EscapeFree(k) && Printable(x) && PrintableFields(tl))
    ensures Depth(Object(Field(k, x, tl))) == 1 + FieldDepth(Field(k, x, tl))
    ensures Depth(x) <= FieldDepth(Field(k, x, tl)) && FieldDepth(tl) <= FieldDepth(Field(k, x, tl))
  {
    hide PrintableElems, ElemDepth, EscapeFree;
  }

  lemma ArrayParts(src: Bytes, i: nat, x: Json, tl: Elems, d: nat)
    requires var v := Array(Elem(x, tl)); Printable(v) && d + Depth(v) <= DEPTH_LIMIT && Here(src, i, TextOf(v))
    ensures i < |src| && src[i] == OPEN_ARRAY
    ensures Printable(x) && d + 1 + Depth(x) <= DEPTH_LIMIT && Here(src, i + 1, TextOf(x)) && Stops(src, i + 1 + |TextOf(x)|)
    ensures PrintableElems(tl) && d + 1 + ElemDepth(tl) <= DEPTH_LIMIT && Here(src, i + 1 + |TextOf(x)|, ElemsText(tl))
    ensures |TextOf(Array(Elem(x, tl)))| == 1 + |TextOf(x)| + |ElemsText(tl)|
  {
    hide *;
    var w, rest := TextOf(x), ElemsText(tl);
    ArrayText(x, tl);
    ArrayDepth(x, tl);
    RestFirst(tl, NoFields);
    HereSplit(src, i, [OPEN_ARRAY], w + rest);
    HereFirst(src, i, [OPEN_ARRAY]);
    HereSplit(src, i + 1, w, rest);
    RestStops(src, i + 1 + |w|, rest);
  }

  lemma ArrayWhole(src: Bytes, i: nat, x: Json, tl: Elems, d: nat, j: nat, end: nat)
    requires i + 1 < |src| && src[i] == OPEN_ARRAY && StartsValue(src[i + 1]) && d < DEPTH_LIMIT
    requires ReadValue(src, i + 2, src[i + 1], d + 1) == Ok((x, j)) && ReadElems(src, j, d + 1) == Ok((tl, end))
    ensures StartsValue(src[i]) && ReadValue(src, i + 1, src[i], d) == Ok((Array(Elem(x, tl)), end))
  {
    ItemHere(src, i + 1);
    hide ReadElems, NextItem;
    assert ReadValue(src, i + 1, src[i], d) == ReadArray(src, i + 2, src[i + 1], d + 1);
  }

  lemma {:induction false} ElemsRead(src: Bytes, i: nat, tl: Elems, d: nat)
    requires PrintableElems(tl) && d + ElemDepth(tl) <= DEPTH_LIMIT && Here(src, i, ElemsText(tl))
    ensures i <= |src| && ReadElems(src, i, d) == Ok((tl, i + |ElemsText(tl)|))
    decreases tl, 0
  {
    hide *;
    match tl
    case NoElems => ElemsEnd(src, i, d);
    case Elem(x, more) =>
      ElemParts(src, i, x, more, d);
      ValueRead(src, i + 2, x, d);
      ElemsRead(src, i + 2 + |TextOf(x)|, more, d);
      ElemWhole(src, i, x, more, d, i + 2 + |TextOf(x)|, i + |ElemsText(tl)|);
  }

  lemma ElemsEnd(src: Bytes, i: nat, d: nat)
    requires Here(src, i, ElemsText(NoElems))
    ensures i <= |src| && ReadElems(src, i, d) == Ok((NoElems, i + |ElemsText(NoElems)|))
  {
    HereFirst(src, i, [CLOSE_ARRAY]);
    ItemHere(src, i);
  }

  lemma ElemParts(src: Bytes, i: nat, x: Json, more: Elems, d: nat)
    requires var tl := Elem(x, more); PrintableElems(tl) && d + ElemDepth(tl) <= DEPTH_LIMIT && Here(src, i, ElemsText(tl))
    ensures i + 1 < |src| && src[i] == COMMA && src[i + 1] == SPACE
    ensures Printable(x) && d + Depth(x) <= DEPTH_LIMIT && Here(src, i + 2, TextOf(x)) && Stops(src, i + 2 + |TextOf(x)|)
    ensures PrintableElems(more) && d + ElemDepth(more) <= DEPTH_LIMIT && Here(src, i + 2 + |TextOf(x)|, ElemsText(more))
    ensures |ElemsText(Elem(x, more))| == 2 + |TextOf(x)| + |ElemsText(more)|
  {
    hide *;
    var w, rest := TextOf(x), ElemsText(more);
    ArrayText(x, more);
    ArrayDepth(x, more);
    RestFirst(more, NoFields);
    CommaSpace(src, i, w + rest);
    HereSplit(src, i + 2, w, rest);
    RestStops(src, i + 2 + |w|, rest);
  }

  lemma CommaSpace(src: Bytes, i: nat, w: Bytes)
    requires Here(src, i, [COMMA, SPACE] + w)
    ensures i + 1 < |src| && src[i] == COMMA && src[i + 1] == SPACE && Here(src, i + 2, w)
  {
    HereSplit(src, i, [COMMA, SPACE], w);
    HereFirst(src, i, [COMMA, SPACE]);
    HereFirst(src, i + 1, [COMMA, SPACE][1..]);
  }

  lemma ElemWhole(src: Bytes, i: nat, x: Json, more: Elems, d: nat, j: nat, end: nat)
    requires i + 2 < |src| && src[i] == COMMA && src[i + 1] == SPACE && StartsValue(src[i + 2])
    requires ReadValue(src, i + 3, src[i + 2], d) == Ok((x, j)) && ReadElems(src, j, d) == Ok((more, end))
    ensures ReadElems(src, i, d) == Ok((Elem(x, more), end))
  {
    ItemHere(src, i);
    ItemAfterSpace(src, i + 1);
    hide ReadValue, NextItem;
  }

  /* Objects */

  // A key with its colon, and the first byte of the value.
  lemma KeyRead(src: Bytes, i: nat, k: Bytes)
    requires Here(src, i, KeyText(k)) && EscapeFree(k) && i + |KeyText(k)| < |src| && StartsValue(src[i + |KeyText(k)|])
    ensures src[i] == QUOTE
    ensures ReadKey(src, i + 1) == Ok(((k, src[i + |KeyText(k)|]), i + |KeyText(k)| + 1))
  {
    hide StringFrom, NextItem, Quoted, Here, EscapeFree;
    HereSplit(src, i, Quoted(k), [COLON, SPACE]);
    QuotedRead(src, i, k);
    var j := i + |Quoted(k)|;
    HereFirst(src, j, [COLON, SPACE]);
    HereFirst(src, j + 1, [COLON, SPACE][1..]);
    ItemHere(src, j);
    ItemAfterSpace(src, j + 1);
  }

  lemma KeyFirst(src: Bytes, i: nat, k: Bytes)
    requires Here(src, i, KeyText(k))
    ensures i < |src| && src[i] == QUOTE && !IsSpace(src[i])
  {
    assert KeyText(k)[0] == QUOTE;
    HereFirst(src, i, KeyText(k));
  }

  lemma ObjectParts(src: Bytes, i: nat, k: Bytes, x: Json, tl: Fields, d: nat)
    requires var v := Object(Field(k, x, tl)); Printable(v) && d + Depth(v) <= DEPTH_LIMIT && Here(src, i, TextOf(v))
    ensures i < |src| && src[i] == OPEN_OBJECT && EscapeFree(k) && Here(src, i + 1, KeyText(k))
    ensures Printable(x) && d + 1 + Depth(x) <= DEPTH_LIMIT && Here(src, i + 1 + |KeyText(k)|, TextOf(x))
    ensures Stops(src, i + 1 + |KeyText(k)| + |TextOf(x)|)
    ensures PrintableFields(tl) && d + 1 + FieldDepth(tl) <= DEPTH_LIMIT
    ensures Here(src, i + 1 + |KeyText(k)| + |TextOf(x)|, FieldsText(tl))
    ensures |TextOf(Object(Field(k, x, tl)))| == 1 + |KeyText(k)| + |TextOf(x)| + |FieldsText(tl)|
  {
    hide *;
    var key, w, rest := KeyText(k), TextOf(x), FieldsText(tl);
    ObjectText(k, x, tl);
    ObjectDepth(k, x, tl);
    RestFirst(NoElems, tl);
    HereSplit(src, i, [OPEN_OBJECT], key + (w + rest));
    HereFirst(src, i, [OPEN_OBJECT]);
    HereSplit(src, i + 1, key, w + rest);
    HereSplit(src, i + 1 + |key|, w, rest);
    RestStops(src, i + 1 + |key| + |w|, rest);
  }

  lemma ObjectWhole(src: Bytes, i: nat, k: Bytes, x: Json, tl: Fields, d: nat, j: nat, end: nat)
    requires i < |src| && src[i] == OPEN_OBJECT && d < DEPTH_LIMIT && EscapeFree(k) && Here(src, i + 1, KeyText(k))
    requires var at := i + 1 + |KeyText(k)|;
             at < |src| && StartsValue(src[at]) && ReadValue(src, at + 1, src[at], d + 1) == Ok((x, j))
    requires ReadFields(src, j, d + 1) == Ok((tl, end))
    ensures StartsValue(src[i]) && ReadValue(src, i + 1, src[i], d) == Ok((Object(Field(k, x, tl)), end))
  {
    hide *;
    var at := i + 1 + |KeyText(k)|;
    KeyFirst(src, i + 1, k);
    KeyRead(src, i + 1, k);
    ItemHere(src, i + 1);
    OpenStarts();
    ObjectStep(src, i + 1, d, i + 2, at + 1, k, src[at], x, j, tl, end);
  }

  lemma OpenStarts()
    ensures StartsValue(OPEN_OBJECT) && StartsValue(OPEN_ARRAY)
  {
  }

  lemma {:induction false} FieldsRead(src: Bytes, i: nat, tl: Fields, d: nat)
    requires PrintableFields(tl) && d + FieldDepth(tl) <= DEPTH_LIMIT && Here(src, i, FieldsText(tl))
    ensures i <= |src| && ReadFields(src, i, d) == Ok((tl, i + |FieldsText(tl)|))
    decreases tl, 0
  {
    hide *;
    match tl
    case NoFields => FieldsEnd(src, i, d);
    case Field(k, x, more) =>
      FieldParts(src, i, k, x, more, d);
      ValueRead(src, i + 2 + |KeyText(k)|, x, d);
      FieldsRead(src, i + 2 + |KeyText(k)| + |TextOf(x)|, more, d);
      FieldWhole(src, i, k, x, more, d, i + 2 + |KeyText(k)| + |TextOf(x)|, i + |FieldsText(tl)|);
  }

  lemma FieldsEnd(src: Bytes, i: nat, d: nat)
    requires Here(src, i, FieldsText(NoFields))
    ensures i <= |src| && ReadFields(src, i, d) == Ok((NoFields, i + |FieldsText(NoFields)|))
  {
    HereFirst(src, i, [CLOSE_OBJECT]);
    ItemHere(src, i);
  }

  lemma FieldParts(src: Bytes, i: nat, k: Bytes, x: Json, more: Fields, d: nat)
    requires var tl := Field(k, x, more); PrintableFields(tl) && d + FieldDepth(tl) <= DEPTH_LIMIT && Here(src, i, FieldsText(tl))
    ensures i + 1 < |src| && src[i] == COMMA && src[i + 1] == SPACE && EscapeFree(k) && Here(src, i + 2, KeyText(k))
    ensures Printable(x) && d + Depth(x) <= DEPTH_LIMIT && Here(src, i + 2 + |KeyText(k)|, TextOf(x))
    ensures Stops(src, i + 2 + |KeyText(k)| + |TextOf(x)|)
    ensures PrintableFields(more) && d + FieldDepth(more) <= DEPTH_LIMIT
    ensures Here(src, i + 2 + |KeyText(k)| + |TextOf(x)|, FieldsText(more))
    ensures |FieldsText(Field(k, x, more))| == 2 + |KeyText(k)| + |TextOf(x)| + |FieldsText(more)|
  {
    hide *;
    var key, w, rest := KeyText(k), TextOf(x), FieldsText(more);
    ObjectText(k, x, more);
    ObjectDepth(k, x, more);
    RestFirst(NoElems, more);
    CommaSpace(src, i, key + (w + rest));
    HereSplit(src, i + 2, key, w + rest);
    HereSplit(src, i + 2 + |key|, w, rest);
    RestStops(src, i + 2 + |key| + |w|, rest);
  }

  lemma CommaItem()
    ensures !IsSpace(COMMA)
  {
  }

  lemma FieldStep(src: Bytes, i: nat, d: nat, i1: nat, i2: nat, i3: nat, k: Bytes, ch: byte, x: Json, j: nat, more: Fields, end: nat)
    requires i <= |src| && NextItem(src, i) == Ok((COMMA, i1)) && NextItem(src, i1) == Ok((QUOTE, i2))
    requires ReadKey(src, i2) == Ok(((k, ch), i3)) && ReadValue(src, i3, ch, d) == Ok((x, j)) && ReadFields(src, j, d) == Ok((more, end))
    ensures ReadFields(src, i, d) == Ok((Field(k, x, more), end))
  {
    hide NextItem, ReadKey, ReadValue;
  }

  lemma ObjectStep(src: Bytes, i: nat, d: nat, i2: nat, i3: nat, k: Bytes, ch: byte, x: Json, j: nat, tl: Fields, end: nat)
    requires 0 < i <= |src| && NextItem(src, i) == Ok((QUOTE, i2)) && d < DEPTH_LIMIT
    requires ReadKey(src, i2) == Ok(((k, ch), i3)) && ReadValue(src, i3, ch, d + 1) == Ok((x, j)) && ReadFields(src, j, d + 1) == Ok((tl, end))
    ensures ReadValue(src, i, OPEN_OBJECT, d) == Ok((Object(Field(k, x, tl)), end))
  {
    hide NextItem, ReadKey, ReadFields, ReadScalar;
    assert ReadValue(src, i, OPEN_OBJECT, d) == ReadObject(src, i2, d + 1);
  }

  lemma FieldWhole(src: Bytes, i: nat, k: Bytes, x: Json, more: Fields, d: nat, j: nat, end: nat)
    requires i + 1 < |src| && src[i] == COMMA && src[i + 1] == SPACE && EscapeFree(k) && Here(src, i + 2, KeyText(k))
    requires var at := i + 2 + |KeyText(k)|;
             at < |src| && StartsValue(src[at]) && ReadValue(src, at + 1, src[at], d) == Ok((x, j))
    requires ReadFields(src, j, d) == Ok((more, end))
    ensures ReadFields(src, i, d) == Ok((Field(k, x, more), end))
  {
    hide *;
    var at := i + 2 + |KeyText(k)|;
    KeyFirst(src, i + 2, k);
    KeyRead(src, i + 2, k);
    CommaItem();
    ItemHere(src, i);
    ItemAfterSpace(src, i + 1);
    FieldStep(src, i, d, i + 1, i + 3, at + 1, k, src[at], x, j, more, end);
  }

  // Parsing what `WriteTranscriber` prints for a value replays exactly that value's events.
  lemma ReadUndoesWrite(v: Json)
    requires Printable(v) && Depth(v) <= DEPTH_LIMIT
    ensures ReadJson(WrittenAll([Begin] + Events(v) + [End]), 0) == Ok(v)
  {
    hide Printable, Depth, TextOf, Events, WrittenAll, ReadValue, Written;
    var src := TextOf(v);
    Three([Begin], Events(v), [End]);
    WrittenOne(Begin);
    WrittenOne(End);
    EventsText(v);
    NothingWritten();
    assert [] + src + [] == src;
    assert src[0..0 + |src|] == src;
    ValueRead(src, 0, v, 0);
    ItemHere(src, 0);
  }

  lemma NothingWritten()
    ensures Written(Begin) == [] && Written(End) == []
  {
  }

  method WriteAndParse(v: Json) returns (events: seq<Event>)
    requires Printable(v) && Depth(v) <= DEPTH_LIMIT
    ensures events == [Begin] + Events(v) + [End]
  {
    hide *;
    ReadUndoesWrite(v);
    var text := WriteTranscript([Begin] + Events(v) + [End]);
    var lexer := new Lexer(text);
    var t := new Transcript();
    var failure := Parse(lexer, t);
    events := t.events;
    assert [] + [Begin] + Events(v) + [End] == [Begin] + Events(v) + [End];
  }
}
