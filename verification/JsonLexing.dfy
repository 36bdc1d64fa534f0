/** The lexical part of the JSON parser: white space, strings and numbers (RFC 8259, sections 2, 6 and 7). */
module JsonLexing {
  import opened Items
  import opened Wrappers

  type Bytes = seq<byte>

  datatype Error =
    | UnexpectedCharacter(at: nat)
    | UnexpectedEndOfJson
    | ExceededDepthLimit
    | FailedUtf8Parsing
    | Overflow   // an exponent below the range of i16, which debug builds turn into a panic

  // What is read from an index on: a value and the index after it.
  type Read<X> = Result<(X, nat), Error>

  const QUOTE: byte := 34
  const PLUS: byte := 43
  const COMMA: byte := 44
  const MINUS: byte := 45
  const POINT: byte := 46
  const SLASH: byte := 47
  const COLON: byte := 58
  const CAPITAL_E: byte := 69
  const OPEN_ARRAY: byte := 91
  const BACKSLASH: byte := 92
  const CLOSE_ARRAY: byte := 93
  const SMALL_E: byte := 101
  const SMALL_U: byte := 117
  const OPEN_OBJECT: byte := 123
  const CLOSE_OBJECT: byte := 125

  const MAX_PRECISION: nat := 576460752303423500
  const U64_LIMIT: nat := 0x1_0000_0000_0000_0000
  const I16_MAX: int := 32767
  const I16_MIN: int := -32768

  predicate IsSpace(c: byte) {
    9 <= c <= 13 || c == 32
  }

  predicate IsDigit(c: byte) {
    48 <= c <= 57
  }

  /* ---- What is read ---- */

  function NextByte(src: Bytes, i: nat): (r: Read<byte>)
    requires i <= |src|
    ensures r.Ok? ==> r.value.1 == i + 1 <= |src|
  {
    if i == |src| then Err(UnexpectedEndOfJson) else Ok((src[i], i + 1))
  }

  // `expect_byte_ignore_whitespace`
  function NextItem(src: Bytes, i: nat): (r: Read<byte>)
    requires i <= |src|
    ensures r.Ok? ==> i < r.value.1 <= |src| && !IsSpace(r.value.0)
    decreases |src| - i
  {
    if i == |src| then Err(UnexpectedEndOfJson)
    else if IsSpace(src[i]) then NextItem(src, i + 1)
    else Ok((src[i], i + 1))
  }

  // `expect_eof`
  function OnlySpace(src: Bytes, i: nat): Option<Error>
    requires i <= |src|
    decreases |src| - i
  {
    if i == |src| then None
    else if IsSpace(src[i]) then OnlySpace(src, i + 1)
    else Some(UnexpectedCharacter(i))
  }

  // `expect_sequence`
  function Literal(src: Bytes, i: nat, rest: Bytes): (r: Read<()>)
    requires i <= |src|
    ensures r.Ok? ==> i <= r.value.1 <= |src|
    decreases |rest|
  {
    if rest == [] then Ok(((), i))
    else if i == |src| then Err(UnexpectedEndOfJson)
    else if src[i] == rest[0] then Literal(src, i + 1, rest[1..])
    else Err(UnexpectedCharacter(i))
  }

  // The characters that stand for themselves in a string.
  predicate Allowed(c: byte) {
    c >= 32 && c != QUOTE && c != BACKSLASH
  }

  // `expect_string`, from `i` on; the string started at `start`.
  function StringFrom(src: Bytes, start: nat, i: nat): (r: Read<Bytes>)
    requires start <= i <= |src|
    ensures r.Ok? ==> i < r.value.1 <= |src|
    decreases |src| - i
  {
    if i == |src| then Err(UnexpectedEndOfJson)
    else if Allowed(src[i]) then StringFrom(src, start, i + 1)
    else if src[i] == QUOTE then Ok((src[start..i], i + 1))
    else if src[i] == BACKSLASH then Escape(src, i + 1, src[start..i])
    else Err(UnexpectedCharacter(i))
  }

  // `read_complex_string`: after an ordinary byte of the string, and after a backslash.
  function Complex(src: Bytes, i: nat, buffer: Bytes): (r: Read<Bytes>)
    requires i <= |src|
    ensures r.Ok? ==> i < r.value.1 <= |src|
    decreases |src| - i
  {
    if i == |src| then Err(UnexpectedEndOfJson)
    else if Allowed(src[i]) then Complex(src, i + 1, buffer + [src[i]])
    else if src[i] == QUOTE then Ok((buffer, i + 1))
    else if src[i] == BACKSLASH then Escape(src, i + 1, buffer)
    else Err(UnexpectedCharacter(i))
  }

  function Escape(src: Bytes, i: nat, buffer: Bytes): (r: Read<Bytes>)
    requires i <= |src|
    ensures r.Ok? ==> i < r.value.1 <= |src|
    decreases |src| - i
  {
    if i == |src| then Err(UnexpectedEndOfJson)
    else if src[i] == SMALL_U then
      var code := Codepoint(src, i + 1);
      if code.Err? then Err(code.error) else Complex(src, code.value.1, buffer + Utf8(code.value.0))
    else if Escaped(src[i]).Some? then Complex(src, i + 1, buffer + [Escaped(src[i]).value])
    else Err(UnexpectedCharacter(i))
  }

  function Escaped(c: byte): Option<byte> {
    if c == QUOTE || c == BACKSLASH || c == SLASH then Some(c)
    else if c == 98 then Some(8)
    else if c == 102 then Some(12)
    else if c == 116 then Some(9)
    else if c == 114 then Some(13)
    else if c == 110 then Some(10)
    else None
  }

  function HexDigit(c: byte): Option<nat> {
    if IsDigit(c) then Some(c - 48)
    else if 97 <= c <= 102 then Some(c - 87)
    else if 65 <= c <= 70 then Some(c - 55)
    else None
  }

  // `read_hexdec_codepoint`, `k` digits before the end.
  function Hex(src: Bytes, i: nat, k: nat, acc: nat): (r: Read<nat>)
    requires i <= |src|
    ensures r.Ok? ==> r.value.1 == i + k <= |src|
    decreases k
  {
    if k == 0 then Ok((acc, i))
    else if i == |src| then Err(UnexpectedEndOfJson)
    else if HexDigit(src[i]).None? then Err(UnexpectedCharacter(i))
    else Hex(src, i + 1, k - 1, 16 * acc + HexDigit(src[i]).value)
  }

  // `read_codepoint`: a pair of surrogates makes one code point.
  function Codepoint(src: Bytes, i: nat): (r: Read<nat>)
    requires i <= |src|
    ensures r.Ok? ==> i < r.value.1 <= |src|
  {
    var high := Hex(src, i, 4, 0);
    if high.Err? || !(0xD800 <= high.value.0 < 0xE000) then high
    else
      var mark := Literal(src, high.value.1, [BACKSLASH, SMALL_U]);
      if mark.Err? then Err(mark.error)
      else
        var low := Hex(src, mark.value.1, 4, 0);
        if low.Err? then low
        else if high.value.0 < 0xDC00 <= low.value.0 < 0xE000 then
          Ok((0x10000 + 0x400 * (high.value.0 - 0xD800) + (low.value.0 - 0xDC00), low.value.1))
        else Err(FailedUtf8Parsing)
  }

  // `encode_utf8`
  function Utf8(c: nat): Bytes {
    if c < 0x80 then [c]
    else if c < 0x800 then [0xC0 + c / 0x40 % 0x20, 0x80 + c % 0x40]
    else if c < 0x10000 then [0xE0 + c / 0x1000 % 0x10, 0x80 + c / 0x40 % 0x40, 0x80 + c % 0x40]
    else [0xF0 + c / 0x40000 % 8, 0x80 + c / 0x1000 % 0x40, 0x80 + c / 0x40 % 0x40, 0x80 + c % 0x40]
  }

  /* ---- Numbers ---- */

  datatype Decimal = Decimal(mantissa: nat, exponent: int)

  // `expect_number`, with the digits read so far in `m`.
  function NumberFrom(src: Bytes, i: nat, m: nat): (r: Read<Decimal>)
    requires i <= |src|
    ensures r.Ok? ==> i <= r.value.1 <= |src|
    decreases |src| - i
  {
    if m >= MAX_PRECISION then BigNumber(src, i, Decimal(m, 0))
    else if i == |src| then Ok((Decimal(m, 0), i))
    else if IsDigit(src[i]) then NumberFrom(src, i + 1, m * 10 + (src[i] - 48))
    else Extension(src, i, Decimal(m, 0))
  }

  // `allow_number_extensions`
  function Extension(src: Bytes, i: nat, x: Decimal): (r: Read<Decimal>)
    requires i <= |src|
    ensures r.Ok? ==> i <= r.value.1 <= |src|
  {
    if i < |src| && src[i] == POINT then Fraction(src, i + 1, x)
    else if i < |src| && (src[i] == SMALL_E || src[i] == CAPITAL_E) then Exponent(src, i + 1, x)
    else Ok((x, i))
  }

  // One digit of a fraction, dropped when the mantissa would overflow.
  function FractionDigit(x: Decimal, d: nat): Decimal {
    if x.mantissa < MAX_PRECISION || x.mantissa * 10 + d < U64_LIMIT then Decimal(x.mantissa * 10 + d, x.exponent - 1) else x
  }

  // `expect_fraction`
  function Fraction(src: Bytes, i: nat, x: Decimal): (r: Read<Decimal>)
    requires i <= |src|
    ensures r.Ok? ==> i < r.value.1 <= |src|
  {
    if i == |src| then Err(UnexpectedEndOfJson)
    else if !IsDigit(src[i]) then Err(UnexpectedCharacter(i))
    else FractionFrom(src, i + 1, FractionDigit(x, src[i] - 48))
  }

  function FractionFrom(src: Bytes, i: nat, x: Decimal): (r: Read<Decimal>)
    requires i <= |src|
    ensures r.Ok? ==> i <= r.value.1 <= |src|
    decreases |src| - i
  {
    if x.exponent < I16_MIN then Err(Overflow)
    else if i == |src| then Ok((x, i))
    else if IsDigit(src[i]) then FractionFrom(src, i + 1, FractionDigit(x, src[i] - 48))
    else if src[i] == SMALL_E || src[i] == CAPITAL_E then Exponent(src, i + 1, x)
    else Ok((x, i))
  }

  // `read_big_number`: digits that no longer fit raise the exponent instead.
  function BigNumber(src: Bytes, i: nat, x: Decimal): (r: Read<Decimal>)
    requires i <= |src|
    ensures r.Ok? ==> i <= r.value.1 <= |src|
    decreases |src| - i
  {
    if i == |src| then Ok((x, i))
    else if IsDigit(src[i]) then
      var m := x.mantissa * 10 + (src[i] - 48);
      if m < U64_LIMIT then BigNumber(src, i + 1, x.(mantissa := m))
      else if x.exponent + 1 > I16_MAX then Err(ExceededDepthLimit)
      else BigNumber(src, i + 1, x.(exponent := x.exponent + 1))
    else if src[i] == POINT then Fraction(src, i + 1, x)
    else if src[i] == SMALL_E || src[i] == CAPITAL_E then
      var e := Exponent(src, i + 1, x);
      if e.Err? then e else BigNumber(src, e.value.1, e.value.0)
    else Ok((x, i))
  }

  function Saturate(e: int): int {
    if e > I16_MAX then I16_MAX else if e < I16_MIN then I16_MIN else e
  }

  // `expect_exponent`
  function Exponent(src: Bytes, i: nat, x: Decimal): (r: Read<Decimal>)
    requires i <= |src|
    ensures r.Ok? ==> i < r.value.1 <= |src| && I16_MIN <= r.value.0.exponent <= I16_MAX
  {
    var signed := i < |src| && (src[i] == MINUS || src[i] == PLUS);
    var j := if signed then i + 1 else i;
    if j == |src| then Err(UnexpectedEndOfJson)
    else if !IsDigit(src[j]) then Err(UnexpectedCharacter(j))
    else
      var digits := ExponentDigits(src, j + 1, src[j] - 48);
      var e: int := digits.0;
      Ok((x.(exponent := Saturate(if signed && src[i] == MINUS then x.exponent - e else x.exponent + e)), digits.1))
  }

  // Saturating at the range of i16.
  function ExponentDigits(src: Bytes, i: nat, e: nat): (r: (nat, nat))
    requires i <= |src| && e <= I16_MAX
    ensures i <= r.1 <= |src| && r.0 <= I16_MAX
    decreases |src| - i
  {
    if i == |src| || !IsDigit(src[i]) then (e, i)
    else ExponentDigits(src, i + 1, Saturate(Saturate(e * 10) + (src[i] - 48)))
  }

  // The number whose first digit `ch` has been read.
  function Unsigned(src: Bytes, i: nat, ch: byte): (r: Read<Decimal>)
    requires 0 < i <= |src|
    ensures r.Ok? ==> i <= r.value.1 <= |src|
  {
    if ch == 48 then Extension(src, i, Decimal(0, 0))
    else if IsDigit(ch) then NumberFrom(src, i, ch - 48)
    else Err(UnexpectedCharacter(i - 1))
  }
}
