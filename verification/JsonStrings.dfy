/** What the strings that the JSON parser reads mean (RFC 8259, section 7). */
module JsonStrings {
  import opened Items
  import opened Slices
  import opened Wrappers
  import opened JsonLexing

  /* ---- Code points ---- */

  predicate Scalar(c: nat) {
    c < 0xD800 || 0xE000 <= c < 0x110000
  }

  // UTF-16 (RFC 2781, section 2.1).
  function Utf16(c: nat): (us: seq<nat>)
    ensures 1 <= |us| <= 2
  {
    if c < 0x10000 then [c] else [0xD800 + (c - 0x10000) / 0x400, 0xDC00 + (c - 0x10000) % 0x400]
  }

  predicate AllHex(h: Bytes) {
    forall k | 0 <= k < |h| :: HexDigit(h[k]).Some?
  }

  // `h` is the unit `u` in hexadecimal, in capitals or not.
  predicate IsUnit(h: Bytes, u: nat) {
    && |h| == 4 && AllHex(h)
    && u == 0x1000 * HexDigit(h[0]).value + 0x100 * HexDigit(h[1]).value + 0x10 * HexDigit(h[2]).value + HexDigit(h[3]).value
  }

  lemma HexReads(src: Bytes, i: nat, u: nat, j: nat)
    requires i <= |src|
    ensures Hex(src, i, 4, 0) == Ok((u, j)) <==> i + 4 <= |src| && IsUnit(src[i..i + 4], u) && j == i + 4
  {
    hide Hex, HexDigit;
    HexStep(src, i, 4, 0);
    if i < |src| && HexDigit(src[i]).Some? {
      var a := HexDigit(src[i]).value;
      HexStep(src, i + 1, 3, a);
      if i + 1 < |src| && HexDigit(src[i + 1]).Some? {
        var b := 16 * a + HexDigit(src[i + 1]).value;
        HexStep(src, i + 2, 2, b);
        if i + 2 < |src| && HexDigit(src[i + 2]).Some? {
          var c := 16 * b + HexDigit(src[i + 2]).value;
          HexStep(src, i + 3, 1, c);
        }
      }
    }
    if i + 4 <= |src| {
      var h := src[i..i + 4];
      assert h[0] == src[i] && h[1] == src[i + 1] && h[2] == src[i + 2] && h[3] == src[i + 3];
    }
  }

  lemma HexStep(src: Bytes, i: nat, k: nat, acc: nat)
    requires i <= |src| && 0 < k
    ensures Hex(src, i, k, acc).Ok? ==> i < |src| && HexDigit(src[i]).Some?
    ensures i < |src| && HexDigit(src[i]).Some? ==>
      Hex(src, i, k, acc) == if k == 1 then Ok((16 * acc + HexDigit(src[i]).value, i + 1))
                             else Hex(src, i + 1, k - 1, 16 * acc + HexDigit(src[i]).value)
  {
    hide HexDigit;
  }

  // The hexadecimal digits of one unit, or of two with the second escape between them.
  predicate UnitsAt(src: Bytes, i: nat, us: seq<nat>)
    requires 1 <= |us| <= 2
  {
    && i + 4 <= |src| && IsUnit(src[i..i + 4], us[0])
    && (|us| == 2 ==> i + 10 <= |src| && src[i + 4..i + 6] == [BACKSLASH, SMALL_U] && IsUnit(src[i + 6..i + 10], us[1]))
  }

  function UnitsLength(us: seq<nat>): nat
    requires 1 <= |us| <= 2
  {
    if |us| == 1 then 4 else 10
  }

  // A code point is read exactly where a scalar value stands in UTF-16: surrogates only in pairs.
  lemma CodepointIs(src: Bytes, i: nat, c: nat, j: nat)
    requires i <= |src|
    ensures Codepoint(src, i) == Ok((c, j)) <==> Scalar(c) && UnitsAt(src, i, Utf16(c)) && j == i + UnitsLength(Utf16(c))
  {
    hide Hex, IsUnit;
    var high := Hex(src, i, 4, 0);
    if high.Ok? {
      HexReads(src, i, high.value.0, i + 4);
      UnitBelow(src[i..i + 4], high.value.0);
      if 0xD800 <= high.value.0 < 0xE000 {
        var mark := Literal(src, i + 4, [BACKSLASH, SMALL_U]);
        MarkReads(src, i + 4);
        if mark.Ok? {
          var low := Hex(src, i + 6, 4, 0);
          if low.Ok? {
            HexReads(src, i + 6, low.value.0, i + 10);
            UnitBelow(src[i + 6..i + 10], low.value.0);
            Surrogates(high.value.0, low.value.0);
          }
          if Scalar(c) && UnitsAt(src, i, Utf16(c)) && |Utf16(c)| == 2 {
            HexReads(src, i + 6, Utf16(c)[1], i + 10);
          }
        }
      }
    }
    if Scalar(c) && UnitsAt(src, i, Utf16(c)) {
      HexReads(src, i, Utf16(c)[0], i + 4);
    }
  }

  lemma UnitBelow(h: Bytes, u: nat)
    requires IsUnit(h, u)
    ensures u < 0x10000
    ensures forall v | IsUnit(h, v) :: v == u
  {
  }

  lemma MarkReads(src: Bytes, i: nat)
    requires i <= |src|
    ensures Literal(src, i, [BACKSLASH, SMALL_U]).Ok? <==> i + 2 <= |src| && src[i..i + 2] == [BACKSLASH, SMALL_U]
    ensures Literal(src, i, [BACKSLASH, SMALL_U]).Ok? ==> Literal(src, i, [BACKSLASH, SMALL_U]) == Ok(((), i + 2))
  {
    var w: Bytes := [BACKSLASH, SMALL_U];
    assert w[1..] == [SMALL_U] && w[1..][1..] == [];
    if i < |src| && src[i] == BACKSLASH {
      assert Literal(src, i, w) == Literal(src, i + 1, w[1..]);
      if i + 1 < |src| && src[i + 1] == SMALL_U {
        assert Literal(src, i + 1, w[1..]) == Literal(src, i + 2, w[1..][1..]);
      }
    }
    if i + 2 <= |src| {
      assert src[i..i + 2] == [src[i], src[i + 1]];
    }
  }

  // A high and a low surrogate are the UTF-16 of one scalar value.
  lemma Surrogates(high: nat, low: nat)
    requires 0xD800 <= high < 0xE000 && low < 0x10000
    ensures high < 0xDC00 <= low < 0xE000 ==>
      var c := 0x10000 + 0x400 * (high - 0xD800) + (low - 0xDC00); Scalar(c) && Utf16(c) == [high, low]
    ensures forall c: nat | Scalar(c) && Utf16(c) == [high, low] ::
      high < 0xDC00 <= low < 0xE000 && c == 0x10000 + 0x400 * (high - 0xD800) + (low - 0xDC00)
  {
    if high < 0xDC00 <= low < 0xE000 {
      var a, b := high - 0xD800, low - 0xDC00;
      var c := 0x10000 + 0x400 * a + b;
      assert (c - 0x10000) / 0x400 == a && (c - 0x10000) % 0x400 == b;
      assert Utf16(c) == [high, low];
    }
    forall c: nat | Scalar(c) && Utf16(c) == [high, low]
      ensures high < 0xDC00 <= low < 0xE000 && c == 0x10000 + 0x400 * (high - 0xD800) + (low - 0xDC00)
    {
      var us := Utf16(c);
      assert |us| == 2 && us[0] == high && us[1] == low;
    }
  }

  /* ---- UTF-8 ---- */

  predicate Continues(b: byte) {
    0x80 <= b < 0xC0
  }

  // A number followed by the six bits of a continuation byte.
  function Shifted(n: nat, b: byte): nat
    requires Continues(b)
  {
    0x40 * n + (b - 0x80)
  }

  // The first scalar value of UTF-8 text and its length (RFC 3629, section 3).
  function DecodeUtf8(b: Bytes): Option<(nat, nat)> {
    if b == [] then None else
      var lead: nat := b[0];
      if lead < 0x80 then Some((lead, 1))
      else if 0xC0 <= lead < 0xE0 && |b| >= 2 && Continues(b[1]) then Some((Shifted(lead - 0xC0, b[1]), 2))
      else if 0xE0 <= lead < 0xF0 && |b| >= 3 && Continues(b[1]) && Continues(b[2]) then
        Some((Shifted(Shifted(lead - 0xE0, b[1]), b[2]), 3))
      else if 0xF0 <= lead < 0xF8 && |b| >= 4 && Continues(b[1]) && Continues(b[2]) && Continues(b[3]) then
        Some((Shifted(Shifted(Shifted(lead - 0xF0, b[1]), b[2]), b[3]), 4))
      else None
  }

  // `encode_utf8` loses nothing, and its bytes tell where they end.
  lemma Utf8Decodes(c: nat, rest: Bytes)
    requires c < 0x200000
    ensures DecodeUtf8(Utf8(c) + rest) == Some((c, |Utf8(c)|))
  {
    hide Shifted;
    SixBits(c);
    SixBits(c / 0x40);
    SixBits(c / 0x1000);
    assert c / 0x1000 == c / 0x40 / 0x40 && c / 0x40000 == c / 0x1000 / 0x40;
    if c < 0x80 {
    } else if c < 0x800 {
      TwoBytes(c, rest);
    } else if c < 0x10000 {
      ThreeBytes(c, rest);
    } else {
      FourBytes(c, rest);
    }
  }

  lemma TwoBytes(c: nat, rest: Bytes)
    requires 0x80 <= c < 0x800
    ensures DecodeUtf8(Utf8(c) + rest) == Some((Shifted(c / 0x40, 0x80 + c % 0x40), 2))
  {
    hide Shifted;
    var w := Utf8(c) + rest;
    assert w[0] == 0xC0 + c / 0x40 && w[1] == 0x80 + c % 0x40;
  }

  lemma ThreeBytes(c: nat, rest: Bytes)
    requires 0x800 <= c < 0x10000
    ensures DecodeUtf8(Utf8(c) + rest) == Some((Shifted(Shifted(c / 0x1000, 0x80 + c / 0x40 % 0x40), 0x80 + c % 0x40), 3))
  {
    hide Shifted;
    var w := Utf8(c) + rest;
    assert w[0] == 0xE0 + c / 0x1000 && w[1] == 0x80 + c / 0x40 % 0x40 && w[2] == 0x80 + c % 0x40;
  }

  lemma FourBytes(c: nat, rest: Bytes)
    requires 0x10000 <= c < 0x200000
    ensures DecodeUtf8(Utf8(c) + rest) ==
      Some((Shifted(Shifted(Shifted(c / 0x40000, 0x80 + c / 0x1000 % 0x40), 0x80 + c / 0x40 % 0x40), 0x80 + c % 0x40), 4))
  {
    hide Shifted;
    var w := Utf8(c) + rest;
    assert w[0] == 0xF0 + c / 0x40000 && w[1] == 0x80 + c / 0x1000 % 0x40 && w[2] == 0x80 + c / 0x40 % 0x40 && w[3] == 0x80 + c % 0x40;
  }

  lemma SixBits(n: nat)
    ensures 0 <= n % 0x40 < 0x40 && Continues(0x80 + n % 0x40) && Shifted(n / 0x40, 0x80 + n % 0x40) == n
  {
  }

  lemma Utf8PrefixFree(c: nat, d: nat, x: Bytes, y: Bytes)
    requires Scalar(c) && Scalar(d) && Utf8(c) + x == Utf8(d) + y
    ensures c == d && x == y
  {
    hide Utf8, DecodeUtf8;
    Utf8Decodes(c, x);
    Utf8Decodes(d, y);
    assert x == (Utf8(c) + x)[|Utf8(c)|..];
    assert y == (Utf8(d) + y)[|Utf8(d)|..];
  }

  /* ---- Strings ---- */

  // A piece of a string: a byte that stands for itself, a short escape, or a code point.
  datatype Piece = Raw(b: byte) | Short(b: byte) | Code(c: nat, units: seq<Bytes>) {
    predicate Valid() {
      match this
      case Raw(b) => Allowed(b)
      case Short(b) => Escaped(b).Some?
      case Code(c, units) => Scalar(c) && |units| == |Utf16(c)| && forall k | 0 <= k < |units| :: IsUnit(units[k], Utf16(c)[k])
    }

    function Text(): Bytes {
      match this
      case Raw(b) => [b]
      case Short(b) => [BACKSLASH, b]
      case Code(_, units) => UnitsText(units)
    }

    // What the piece stands for.
    function Means(): Bytes
      requires Valid()
    {
      match this
      case Raw(b) => [b]
      case Short(b) => [Escaped(b).value]
      case Code(c, _) => Utf8(c)
    }
  }

  function UnitsText(units: seq<Bytes>): Bytes {
    if units == [] then [] else [BACKSLASH, SMALL_U] + units[0] + UnitsText(units[1..])
  }

  predicate AllValid(ps: seq<Piece>) {
    forall p | p in ps :: p.Valid()
  }

  function PiecesText(ps: seq<Piece>): Bytes {
    if ps == [] then [] else ps[0].Text() + PiecesText(ps[1..])
  }

  function PiecesMean(ps: seq<Piece>): Bytes
    requires AllValid(ps)
  {
    if ps == [] then [] else
      assert ps[0] in ps;
      ps[0].Means() + PiecesMean(ps[1..])
  }

  // Reading without escapes is the same as copying byte by byte.
  lemma {:induction false} StringIsComplex(src: Bytes, start: nat, i: nat)
    requires start <= i <= |src|
    ensures StringFrom(src, start, i) == Complex(src, i, src[start..i])
    decreases |src| - i
  {
    hide Escape;
    if i < |src| && Allowed(src[i]) {
      StringIsComplex(src, start, i + 1);
      assert src[start..i + 1] == src[start..i] + [src[i]];
    }
  }

  lemma UnitsRead(src: Bytes, i: nat, c: nat, units: seq<Bytes>)
    requires Code(c, units).Valid() && Here(src, i, UnitsText(units))
    ensures i + 2 <= |src| && src[i] == BACKSLASH && src[i + 1] == SMALL_U
    ensures Codepoint(src, i + 2) == Ok((c, i + |UnitsText(units)|))
  {
    hide IsUnit, Codepoint, Utf16;
    var mark: Bytes := [BACKSLASH, SMALL_U];
    HereSplit(src, i, mark + units[0], UnitsText(units[1..]));
    HereSplit(src, i, mark, units[0]);
    HereIs(src, i, mark);
    HereIs(src, i + 2, units[0]);
    assert src[i] == src[i..i + 2][0] && src[i + 1] == src[i..i + 2][1];
    UnitLength(units[0], Utf16(c)[0]);
    if |units| == 2 {
      OneUnit(units[1]);
      assert units[1..] == [units[1]];
      HereSplit(src, i + 6, mark, units[1]);
      HereIs(src, i + 6, mark);
      HereIs(src, i + 8, units[1]);
      UnitLength(units[1], Utf16(c)[1]);
    }
    CodepointIs(src, i + 2, c, i + |UnitsText(units)|);
  }

  lemma OneUnit(h: Bytes)
    ensures UnitsText([h]) == [BACKSLASH, SMALL_U] + h
  {
    var tl: seq<Bytes> := [h][1..];
    assert tl == [] && UnitsText(tl) == [];
    assert [BACKSLASH, SMALL_U] + h + [] == [BACKSLASH, SMALL_U] + h;
  }

  lemma UnitLength(h: Bytes, u: nat)
    requires IsUnit(h, u)
    ensures |h| == 4
  {
  }

  lemma PieceRead(src: Bytes, i: nat, p: Piece, buffer: Bytes)
    requires p.Valid() && Here(src, i, p.Text())
    ensures i + |p.Text()| <= |src| && |p.Text()| > 0
    ensures Complex(src, i, buffer) == Complex(src, i + |p.Text()|, buffer + p.Means())
  {
    hide Codepoint, Utf8, IsUnit;
    match p
    case Raw(b) => HereFirst(src, i, [b]);
    case Short(b) =>
      HereFirst(src, i, [BACKSLASH, b]);
      HereFirst(src, i + 1, [BACKSLASH, b][1..]);
    case Code(c, units) => UnitsRead(src, i, c, units);
  }

  lemma {:induction false} PiecesRead(src: Bytes, i: nat, ps: seq<Piece>, buffer: Bytes)
    requires AllValid(ps) && Here(src, i, PiecesText(ps) + [QUOTE])
    ensures i <= |src| && Complex(src, i, buffer) == Ok((buffer + PiecesMean(ps), i + |PiecesText(ps)| + 1))
    decreases |ps|
  {
    hide Complex, Here, Escaped, Utf8, Utf16, IsUnit, UnitsText;
    if ps == [] {
      assert [] + [QUOTE] == [QUOTE] && buffer + [] == buffer;
      HereFirst(src, i, [QUOTE]);
      QuoteRead(src, i, buffer);
    } else {
      var p := ps[0];
      assert p in ps && AllValid(ps[1..]);
      Assoc(p.Text(), PiecesText(ps[1..]), [QUOTE]);
      HereSplit(src, i, p.Text(), PiecesText(ps[1..]) + [QUOTE]);
      PieceRead(src, i, p, buffer);
      PiecesRead(src, i + |p.Text()|, ps[1..], buffer + p.Means());
      Assoc(buffer, p.Means(), PiecesMean(ps[1..]));
    }
  }

  lemma QuoteRead(src: Bytes, i: nat, buffer: Bytes)
    requires i < |src| && src[i] == QUOTE
    ensures Complex(src, i, buffer) == Ok((buffer, i + 1))
  {
  }

  // Whatever is read is made of pieces.
  lemma {:induction false} ComplexSplits(src: Bytes, i: nat, buffer: Bytes) returns (ps: seq<Piece>)
    requires i <= |src| && Complex(src, i, buffer).Ok?
    ensures AllValid(ps) && Here(src, i, PiecesText(ps) + [QUOTE])
    decreases |src| - i
  {
    hide Complex, Here, Utf8, IsUnit;
    InBounds(src, i, buffer);
    if src[i] == QUOTE {
      ps := [];
      assert [] + [QUOTE] == [QUOTE];
      HereOne(src, i);
    } else {
      var p := PieceAt(src, i, buffer);
      PieceRead(src, i, p, buffer);
      var tl := ComplexSplits(src, i + |p.Text()|, buffer + p.Means());
      ps := [p] + tl;
      assert ps[1..] == tl;
      Assoc(p.Text(), PiecesText(tl), [QUOTE]);
      HereJoin(src, i, p.Text(), PiecesText(tl) + [QUOTE]);
    }
  }

  lemma InBounds(src: Bytes, i: nat, buffer: Bytes)
    requires i <= |src| && Complex(src, i, buffer).Ok?
    ensures i < |src|
  {
  }

  // The first piece of a string that is read.
  lemma PieceAt(src: Bytes, i: nat, buffer: Bytes) returns (p: Piece)
    requires i < |src| && Complex(src, i, buffer).Ok? && src[i] != QUOTE
    ensures p.Valid() && Here(src, i, p.Text())
  {
    hide Codepoint, Utf8, IsUnit, Utf16;
    if Allowed(src[i]) {
      p := Raw(src[i]);
    } else if src[i + 1] != SMALL_U {
      p := Short(src[i + 1]);
      assert src[i..i + 2] == [BACKSLASH, src[i + 1]];
    } else {
      var (c, j) := Codepoint(src, i + 2).value;
      CodepointIs(src, i + 2, c, j);
      var mark: Bytes := [BACKSLASH, SMALL_U];
      assert src[i..i + 2] == mark;
      var u := src[i + 2..i + 6];
      if |Utf16(c)| == 1 {
        p := Code(c, [u]);
        OneUnit(u);
        assert src[i..i + 6] == mark + u;
        UnitLength(u, Utf16(c)[0]);
      } else {
        var v := src[i + 8..i + 12];
        p := Code(c, [u, v]);
        OneUnit(v);
        assert [u, v][1..] == [v];
        assert UnitsText([u, v]) == mark + u + (mark + v);
        assert src[i..i + 12] == mark + u + (mark + v);
        UnitLength(u, Utf16(c)[0]);
        UnitLength(v, Utf16(c)[1]);
      }
    }
  }

  // The pieces `ps` and the closing quote.
  predicate StringAt(src: Bytes, i: nat, ps: seq<Piece>) {
    AllValid(ps) && Here(src, i, PiecesText(ps) + [QUOTE])
  }

  // A string is read exactly when it is made of pieces up to its quote, and as what they mean.
  lemma StringMeans(src: Bytes, i: nat)
    requires i <= |src|
    ensures StringFrom(src, i, i).Ok? <==> exists ps: seq<Piece> :: StringAt(src, i, ps)
    ensures forall ps: seq<Piece> | StringAt(src, i, ps) ::
      StringFrom(src, i, i) == Ok((PiecesMean(ps), i + |PiecesText(ps)| + 1))
  {
    hide Complex, Here, StringFrom;
    StringIsComplex(src, i, i);
    assert src[i..i] == [];
    if Complex(src, i, []).Ok? {
      var ps := ComplexSplits(src, i, []);
      assert StringAt(src, i, ps);
    }
    forall ps: seq<Piece> | StringAt(src, i, ps)
      ensures StringFrom(src, i, i) == Ok((PiecesMean(ps), i + |PiecesText(ps)| + 1))
    {
      PiecesRead(src, i, ps, []);
      assert [] + PiecesMean(ps) == PiecesMean(ps);
    }
  }

  lemma {:induction false} PlainPrefix(src: Bytes, start: nat, i: nat)
    requires start <= i <= |src| && forall k | start <= k < i :: Allowed(src[k])
    ensures StringFrom(src, start, start) == StringFrom(src, start, i)
    decreases i
  {
    if start < i {
      PlainPrefix(src, start, i - 1);
    }
  }

  // The same, from the first escape on.
  lemma EscapeMeans(src: Bytes, start: nat, i: nat)
    requires start < i <= |src| && src[i - 1] == BACKSLASH && forall k | start <= k < i - 1 :: Allowed(src[k])
    ensures var r := Escape(src, i, src[start..i - 1]);
      && (r.Ok? <==> exists ps: seq<Piece> :: StringAt(src, start, ps))
      && forall ps: seq<Piece> | StringAt(src, start, ps) :: r == Ok((PiecesMean(ps), start + |PiecesText(ps)| + 1))
  {
    hide Escape, StringAt;
    PlainPrefix(src, start, i - 1);
    StringMeans(src, start);
  }
}
