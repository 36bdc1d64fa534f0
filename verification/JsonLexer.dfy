/** The lexer of the JSON parser: methods that move an index, proved against the recursive readers and
    against what those mean. */
module JsonLexers {
  import opened Items
  import opened Slices
  import opened Wrappers
  import opened JsonLexing
  import opened JsonMeanings
  import opened JsonStrings

  // A method that moves the index from where `f` starts to where it ends.
  ghost predicate Did<X>(r: Result<X, Error>, f: Read<X>, index: nat) {
    match f
    case Ok(v) => r == Ok(v.0) && index == v.1
    case Err(e) => r == Err(e)
  }

  class Lexer {
    const source: Bytes
    var index: nat

    ghost predicate Valid()
      reads this
    {
      index <= |source|
    }

    constructor (source: Bytes)
      ensures Valid() && this.source == source && index == 0
    {
      this.source, index := source, 0;
    }

    // `expect_byte`
    method ExpectByte() returns (r: Result<byte, Error>)
      requires Valid()
      modifies this
      ensures Valid() && Did(r, NextByte(source, old(index)), index)
    {
      if index == |source| {
        return Err(UnexpectedEndOfJson);
      }
      r := Ok(source[index]);
      index := index + 1;
    }

    method ExpectItem() returns (r: Result<byte, Error>)
      requires Valid()
      modifies this
      ensures Valid() && Did(r, NextItem(source, old(index)), index)
    {
      r := ExpectByte();
      while r.Ok? && IsSpace(r.value)
        invariant Valid() && (r.Ok? ==> index > 0)
        invariant match r
                  case Ok(ch) => ch == source[index - 1] && NextItem(source, index - 1) == NextItem(source, old(index))
                  case Err(e) => NextItem(source, old(index)) == Err(e)
        decreases if r.Ok? then |source| - index + 1 else 0
      {
        r := ExpectByte();
      }
    }

    method ExpectEof() returns (failure: Option<Error>)
      requires Valid()
      modifies this
      ensures Valid() && failure == OnlySpace(source, old(index))
    {
      while index < |source|
        invariant Valid() && OnlySpace(source, index) == OnlySpace(source, old(index))
        decreases |source| - index
      {
        if !IsSpace(source[index]) {
          index := index + 1;
          return Some(UnexpectedCharacter(index - 1));
        }
        index := index + 1;
      }
      failure := None;
    }

    method ExpectLiteral(rest: Bytes) returns (r: Result<(), Error>)
      requires Valid()
      modifies this
      ensures Valid() && Did(r, Literal(source, old(index), rest), index)
    {
      for k := 0 to |rest|
        invariant Valid() && Literal(source, index, rest[k..]) == Literal(source, old(index), rest)
      {
        var ch := ExpectByte();
        if ch.Err? {
          return Err(ch.error);
        }
        if ch.value != rest[k] {
          return Err(UnexpectedCharacter(index - 1));
        }
      }
      r := Ok(());
    }

    method ExpectString() returns (r: Result<Bytes, Error>)
      requires Valid()
      modifies this
      ensures Valid() && Did(r, StringFrom(source, old(index), old(index)), index)
      ensures r.Ok? <==> exists ps: seq<Piece> :: StringAt(source, old(index), ps)
      ensures forall ps | StringAt(source, old(index), ps) ::
        r == Ok(PiecesMean(ps)) && index == old(index) + |PiecesText(ps)| + 1
    {
      hide StringAt;
      StringMeans(source, index);
      var start := index;
      while true
        invariant Valid() && start <= index && forall k | start <= k < index :: Allowed(source[k])
        invariant StringFrom(source, start, index) == StringFrom(source, start, start)
        decreases |source| - index
      {
        var ch := ExpectByte();
        if ch.Err? {
          return Err(ch.error);
        }
        if Allowed(ch.value) {
          continue;
        }
        if ch.value == QUOTE {
          return Ok(source[start..index - 1]);
        }
        if ch.value == BACKSLASH {
          r := ReadComplexString(start);
          return;
        }
        return Err(UnexpectedCharacter(index - 1));
      }
    }

    // `read_hexdec_digit`
    method ReadHexDigit() returns (r: Result<nat, Error>)
      requires Valid()
      modifies this
      ensures Valid() && Did(r, Hex(source, old(index), 1, 0), index)
    {
      var ch := ExpectByte();
      if ch.Err? {
        return Err(ch.error);
      }
      var digit := HexDigit(ch.value);
      r := if digit.None? then Err(UnexpectedCharacter(index - 1)) else Ok(digit.value);
    }

    // `read_hexdec_codepoint`
    method ReadHex() returns (r: Result<nat, Error>)
      requires Valid()
      modifies this
      ensures Valid() && Did(r, Hex(source, old(index), 4, 0), index)
    {
      hide HexDigit;
      ghost var i := index;
      var a := ReadHexDigit();
      if a.Err? {
        return a;
      }
      var b := ReadHexDigit();
      assert Hex(source, i, 4, 0) == Hex(source, i + 1, 3, a.value);
      if b.Err? {
        return b;
      }
      var c := ReadHexDigit();
      assert Hex(source, i + 1, 3, a.value) == Hex(source, i + 2, 2, 16 * a.value + b.value);
      if c.Err? {
        return c;
      }
      var d := ReadHexDigit();
      r := if d.Err? then d else Ok(0x1000 * a.value + 0x100 * b.value + 0x10 * c.value + d.value);
    }

    // `read_codepoint`
    method ReadCodepoint() returns (r: Result<nat, Error>)
      requires Valid()
      modifies this
      ensures Valid() && Did(r, Codepoint(source, old(index)), index)
    {
      hide Hex, Literal;
      var unit := ReadHex();
      if unit.Err? || !(0xD800 <= unit.value < 0xE000) {
        return unit;
      }
      var mark := ExpectLiteral([BACKSLASH, SMALL_U]);
      if mark.Err? {
        return Err(mark.error);
      }
      var low := ReadHex();
      if low.Err? {
        return low;
      }
      if unit.value < 0xDC00 <= low.value < 0xE000 {
        r := Ok(0x10000 + 0x400 * (unit.value - 0xD800) + (low.value - 0xDC00));
      } else {
        r := Err(FailedUtf8Parsing);
      }
    }

    // `read_complex_string`, after the first backslash.
    method ReadComplexString(start: nat) returns (r: Result<Bytes, Error>)
      requires Valid() && start < index && source[index - 1] == BACKSLASH
      requires forall k | start <= k < index - 1 :: Allowed(source[k])
      modifies this
      ensures Valid() && Did(r, Escape(source, old(index), source[start..old(index) - 1]), index)
      ensures r.Ok? <==> exists ps: seq<Piece> :: StringAt(source, start, ps)
      ensures forall ps | StringAt(source, start, ps) :: r == Ok(PiecesMean(ps)) && index == start + |PiecesText(ps)| + 1
    {
      hide Escape, StringAt;
      EscapeMeans(source, start, index);
      r := ReadEscapes(start);
    }

    // Its loop.
    method ReadEscapes(start: nat) returns (r: Result<Bytes, Error>)
      requires Valid() && start < index
      modifies this
      ensures Valid() && Did(r, Escape(source, old(index), source[start..old(index) - 1]), index)
    {
      hide Codepoint, Utf8;
      var buffer := source[start..index - 1];
      var ch := Ok(BACKSLASH);
      while true
        invariant Valid() && (ch.Ok? ==> 0 < index)
        invariant match ch
                  case Ok(c) => AfterByte(source, index, c, buffer) == Escape(source, old(index), source[start..old(index) - 1])
                  case Err(e) => Escape(source, old(index), source[start..old(index) - 1]) == Err(e)
        decreases if ch.Ok? then |source| - index + 1 else 0
      {
        if ch.Err? {
          return Err(ch.error);
        }
        var c := ch.value;
        ghost var whole := AfterByte(source, index, c, buffer);
        if Allowed(c) {
          buffer := buffer + [c];
        } else if c == QUOTE {
          return Ok(buffer);
        } else if c == BACKSLASH {
          var escaped := ExpectByte();
          if escaped.Err? {
            return Err(escaped.error);
          }
          if escaped.value == SMALL_U {
            var code := ReadCodepoint();
            if code.Err? {
              return Err(code.error);
            }
            buffer := buffer + Utf8(code.value);
          } else {
            var plain := Escaped(escaped.value);
            if plain.None? {
              return Err(UnexpectedCharacter(index - 1));
            }
            buffer := buffer + [plain.value];
          }
        } else {
          return Err(UnexpectedCharacter(index - 1));
        }
        assert whole == Complex(source, index, buffer);
        ch := ExpectByte();
      }
    }

    method ReadNumber(first: byte) returns (r: Result<Decimal, Error>)
      requires Valid() && 0 < index && IsDigit(first)
      modifies this
      ensures Valid() && Did(r, Unsigned(source, old(index), first), index)
      ensures forall p: NumberParts | first == source[old(index) - 1] && NumberAt(source, old(index) - 1, p) ::
        Did(r, AsRead(p.Value(), old(index) - 1 + |p.Text()|), index)
    {
      hide BigNumber, FractionFrom, NumberAt, Unsigned;
      NumbersRead(source, index - 1);
      UnsignedIs(source, index, first);
      if first == 48 {
        r := AllowExtensions(Decimal(0, 0));
        return;
      }
      var mantissa: nat := first - 48;
      while true
        invariant Valid() && NumberFrom(source, index, mantissa) == NumberFrom(source, old(index), first - 48)
        decreases |source| - index
      {
        if mantissa >= MAX_PRECISION {
          r := ReadBigNumber(Decimal(mantissa, 0));
          return;
        }
        if index == |source| {
          return Ok(Decimal(mantissa, 0));
        }
        var ch := source[index];
        if !IsDigit(ch) {
          r := AllowExtensions(Decimal(mantissa, 0));
          return;
        }
        index := index + 1;
        mantissa := mantissa * 10 + (ch - 48);
      }
    }

    method AllowExtensions(x: Decimal) returns (r: Result<Decimal, Error>)
      requires Valid() && x.exponent >= I16_MIN
      modifies this
      ensures Valid() && Did(r, Extension(source, old(index), x), index)
    {
      hide FractionFrom, ExponentDigits;
      if index < |source| && source[index] == POINT {
        index := index + 1;
        r := ExpectFraction(x);
      } else if index < |source| && (source[index] == SMALL_E || source[index] == CAPITAL_E) {
        index := index + 1;
        r := ExpectExponent(x);
      } else {
        r := Ok(x);
      }
    }

    method ExpectFraction(x: Decimal) returns (r: Result<Decimal, Error>)
      requires Valid() && x.exponent >= I16_MIN
      modifies this
      ensures Valid() && Did(r, Fraction(source, old(index), x), index)
      ensures forall f | f != [] && DigitsAt(source, old(index), f) ::
        Did(r, AsRead(FractionValue(x, f), old(index) + |f|), index)
    {
      hide ExponentDigits, DigitsAt, FractionValue;
      FractionsRead(source, index, x);
      var ch := ExpectByte();
      if ch.Err? {
        return Err(ch.error);
      }
      if !IsDigit(ch.value) {
        return Err(UnexpectedCharacter(index - 1));
      }
      var y := FractionDigit(x, ch.value - 48);
      while true
        invariant Valid() && Fraction(source, old(index), x) == FractionFrom(source, index, y)
        decreases |source| - index
      {
        if y.exponent < I16_MIN {
          return Err(Overflow);
        }
        if index == |source| {
          return Ok(y);
        }
        var c := source[index];
        if IsDigit(c) {
          index := index + 1;
          y := FractionDigit(y, c - 48);
        } else if c == SMALL_E || c == CAPITAL_E {
          index := index + 1;
          r := ExpectExponent(y);
          return;
        } else {
          return Ok(y);
        }
      }
    }

    method ReadBigNumber(x: Decimal) returns (r: Result<Decimal, Error>)
      requires Valid() && I16_MIN <= x.exponent <= I16_MAX
      modifies this
      ensures Valid() && Did(r, BigNumber(source, old(index), x), index)
      ensures forall ds | DigitsAt(source, old(index), ds) :: Did(r, AsRead(BigValue(x, ds), old(index) + |ds|), index)
    {
      hide FractionFrom, ExponentDigits, Exponent, Fraction, DigitsAt, BigValue;
      BigNumbersRead(source, index, x);
      var y := x;
      while index < |source|
        invariant Valid() && y.exponent >= I16_MIN
        invariant BigNumber(source, index, y) == BigNumber(source, old(index), x)
        decreases |source| - index
      {
        var ch := source[index];
        if IsDigit(ch) {
          index := index + 1;
          var m := y.mantissa * 10 + (ch - 48);
          if m < U64_LIMIT {
            y := y.(mantissa := m);
          } else if y.exponent + 1 > I16_MAX {
            return Err(ExceededDepthLimit);
          } else {
            y := y.(exponent := y.exponent + 1);
          }
        } else if ch == POINT {
          index := index + 1;
          r := ExpectFraction(y);
          return;
        } else if ch == SMALL_E || ch == CAPITAL_E {
          index := index + 1;
          r := ExpectExponent(y);
          if r.Err? {
            return;
          }
          y := r.value;
        } else {
          break;
        }
      }
      r := Ok(y);
    }

    method ExpectExponent(x: Decimal) returns (r: Result<Decimal, Error>)
      requires Valid()
      modifies this
      ensures Valid() && Did(r, Exponent(source, old(index), x), index)
      ensures forall sign, ds | IsSign(sign) && ds != [] && DigitsAt(source, old(index) + |sign|, ds) && Here(source, old(index), sign) ::
        Did(r, Ok((x.(exponent := ExponentValue(x.exponent, sign, ds)), old(index) + |sign| + |ds|)), index)
    {
      hide ExponentDigits, DigitsAt, ExponentValue, Here;
      ExponentsRead(source, index, x);
      var ch := ExpectByte();
      var sign: int := 1;
      if ch == Ok(MINUS) {
        sign := -1;
        ch := ExpectByte();
      } else if ch == Ok(PLUS) {
        ch := ExpectByte();
      }
      if ch.Err? {
        return Err(ch.error);
      }
      if !IsDigit(ch.value) {
        return Err(UnexpectedCharacter(index - 1));
      }
      var e := ExponentRest(ch.value - 48);
      r := Ok(x.(exponent := Saturate(x.exponent + e * sign)));
    }

    // The digits of an exponent after the first.
    method ExponentRest(first: nat) returns (e: nat)
      requires Valid() && first <= I16_MAX
      modifies this
      ensures Valid() && (e, index) == ExponentDigits(source, old(index), first)
    {
      e := first;
      while index < |source|
        invariant Valid() && e <= I16_MAX
        invariant ExponentDigits(source, index, e) == ExponentDigits(source, old(index), first)
        decreases |source| - index
      {
        var c := source[index];
        if !IsDigit(c) {
          break;
        }
        index := index + 1;
        e := Saturate(Saturate(e * 10) + (c - 48));
      }
    }
  }

  lemma UnsignedIs(src: Bytes, i: nat, ch: byte)
    requires 0 < i <= |src| && IsDigit(ch)
    ensures Unsigned(src, i, ch) == if ch == 48 then Extension(src, i, Decimal(0, 0)) else NumberFrom(src, i, ch - 48)
  {
  }

  // The string after its byte `c` has been read.
  ghost function AfterByte(src: Bytes, i: nat, c: byte, buffer: Bytes): Read<Bytes>
    requires 0 < i <= |src|
  {
    if Allowed(c) then Complex(src, i, buffer + [c])
    else if c == QUOTE then Ok((buffer, i))
    else if c == BACKSLASH then Escape(src, i, buffer)
    else Err(UnexpectedCharacter(i - 1))
  }
}
