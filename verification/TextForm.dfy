/** The text form of expressions: `serialize`, `parse` and `compute_length`. */
module TextForm {
  import opened Items
  import opened Slices
  import opened Wrappers
  import opened Coroutines

  type Text = seq<byte>

  const SPACE: byte := 32
  const DOLLAR: byte := 36
  const ZERO: byte := 48
  const OPEN: byte := 91
  const BACKSLASH: byte := 92
  const CLOSE: byte := 93
  const UNDERSCORE: byte := 95

  datatype Failure =
    | NumberOverflow   // a number above 255
    | AssertionFailed  // `item_byte`: a number or a word that does not fit the format
    | OutOfBounds      // the array is too short

  predicate IsDigit(c: byte) {
    48 <= c <= 57
  }

  /* ---- What `parse` writes ---- */

  function DigitCount(s: Text): (k: nat)
    ensures k <= |s|
  {
    if s == [] || !IsDigit(s[0]) then 0 else 1 + DigitCount(s[1..])
  }

  // The number that `k` digits after `n` make, as long as it fits a byte.
  function NumberOf(s: Text, k: nat, n: nat): Option<nat>
    requires k <= DigitCount(s)
    decreases k
  {
    if k == 0 then Some(n)
    else if n * 10 + (s[0] - ZERO) > 255 then None
    else NumberOf(s[1..], k - 1, n * 10 + (s[0] - ZERO))
  }

  function WordLength(s: Text): (k: nat)
    ensures k <= |s|
    ensures s != [] && s[0] != SPACE ==> k > 0
  {
    if s == [] || s[0] == SPACE then 0 else 1 + WordLength(s[1..])
  }

  function Put(tag: Tag, word: Text, rest: Result<seq<byte>, Failure>): Result<seq<byte>, Failure> {
    if !ValidTag(tag) then Err(AssertionFailed)
    else if rest.Err? then rest
    else Ok([ItemByte(tag)] + word + rest.value)
  }

  // The bytes that `parse` writes for a text.
  function Parsed(s: Text): Result<seq<byte>, Failure>
    decreases |s|
  {
    if s == [] then Ok([])
    else if s[0] == SPACE then Parsed(s[1..])
    else if s[0] == OPEN then
      var k := DigitCount(s[1..]);
      var n := NumberOf(s[1..], k, 0);
      if n.None? then Err(NumberOverflow)
      else if 1 + k < |s| && s[1 + k] == CLOSE then Put(Arity(n.value), [], Parsed(s[k + 2..]))
      else if 1 + k < |s| then Parsed(s[k + 2..])   // a missing bracket: the byte is skipped and nothing written
      else Ok([])
    else if s[0] == DOLLAR then Put(NewVar, [], Parsed(s[1..]))
    else if s[0] == UNDERSCORE then
      var k := DigitCount(s[1..]);
      var n := NumberOf(s[1..], k, 0);
      if n.None? then Err(NumberOverflow)
      else Put(VarRef(if n.value > 0 then n.value - 1 else 0), [], Parsed(s[k + 1..]))
    else
      var k := WordLength(s);
      Put(SymbolSize(k), s[..k], Parsed(s[k..]))
  }

  function BracketLength(s: Text): (k: nat)
    ensures k <= |s|
  {
    if s == [] then 0 else if s[0] == CLOSE then 1 else 1 + BracketLength(s[1..])
  }

  // `compute_length`
  function Length(s: Text): nat
    decreases |s|
  {
    if s == [] then 0
    else if s[0] == SPACE then Length(s[1..])
    else if s[0] == OPEN then 1 + Length(s[1 + BracketLength(s[1..])..])
    else if s[0] == DOLLAR then 1 + Length(s[1..])
    else if s[0] == UNDERSCORE then 1 + Length(s[1 + DigitCount(s[1..])..])
    else 1 + WordLength(s) + Length(s[WordLength(s)..])
  }

  // Every arity is a number with its bracket.
  predicate WellBracketed(s: Text)
    decreases |s|
  {
    if s == [] then true
    else if s[0] == SPACE then WellBracketed(s[1..])
    else if s[0] == OPEN then
      var k := DigitCount(s[1..]);
      1 + k < |s| && s[1 + k] == CLOSE && WellBracketed(s[k + 2..])
    else if s[0] == DOLLAR then WellBracketed(s[1..])
    else if s[0] == UNDERSCORE then WellBracketed(s[1 + DigitCount(s[1..])..])
    else WellBracketed(s[WordLength(s)..])
  }

  lemma {:induction false} DigitsThenBracket(s: Text)
    requires DigitCount(s) < |s| && s[DigitCount(s)] == CLOSE
    ensures BracketLength(s) == DigitCount(s) + 1
  {
    if IsDigit(s[0]) {
      DigitsThenBracket(s[1..]);
    }
  }

  // `compute_length` is the number of bytes that `parse` writes, when every arity has its bracket.
  lemma {:induction false} LengthIsParsedLength(s: Text)
    requires WellBracketed(s) && Parsed(s).Ok?
    ensures Length(s) == |Parsed(s).value|
    decreases |s|
  {
    if s == [] {
    } else if s[0] == SPACE {
      LengthIsParsedLength(s[1..]);
    } else if s[0] == OPEN {
      var k := DigitCount(s[1..]);
      DigitsThenBracket(s[1..]);
      LengthIsParsedLength(s[k + 2..]);
    } else if s[0] == DOLLAR {
      LengthIsParsedLength(s[1..]);
    } else if s[0] == UNDERSCORE {
      LengthIsParsedLength(s[1 + DigitCount(s[1..])..]);
    } else {
      LengthIsParsedLength(s[WordLength(s)..]);
    }
  }

  // Without the bracket the two disagree: "[1 2]" is given one byte and needs three.
  lemma MissingBracket()
    ensures var s := [OPEN, 49, SPACE, 50, CLOSE]; Length(s) == 1 && Parsed(s) == Ok([ItemByte(SymbolSize(2)), 50, CLOSE])
  {
    var s := [OPEN, 49, SPACE, 50, CLOSE];
    assert s[1..] == [49, SPACE, 50, CLOSE];
    assert [49, SPACE, 50, CLOSE][1..] == [SPACE, 50, CLOSE];
    assert [SPACE, 50, CLOSE][1..] == [50, CLOSE];
    assert [50, CLOSE][1..] == [CLOSE];
    assert BracketLength([CLOSE]) == 1 && BracketLength([50, CLOSE]) == 2 && BracketLength([SPACE, 50, CLOSE]) == 3;
    assert BracketLength([49, SPACE, 50, CLOSE]) == 4;
    assert s[5..] == [];
    assert DigitCount([SPACE, 50, CLOSE]) == 0 && DigitCount([49, SPACE, 50, CLOSE]) == 1;
    assert NumberOf([49, SPACE, 50, CLOSE], 1, 0) == Some(1);
    assert s[3..] == [50, CLOSE];
    assert WordLength([CLOSE]) == 1 && WordLength([50, CLOSE]) == 2;
    assert [50, CLOSE][..2] == [50, CLOSE] && [50, CLOSE][2..] == [];
    var w: Text := [50, CLOSE];
    assert Parsed(w[2..]) == Ok([]);
    assert Parsed(w) == Put(SymbolSize(2), w[..2], Ok([]));
    assert [ItemByte(SymbolSize(2))] + w + [] == [ItemByte(SymbolSize(2)), 50, CLOSE];
  }

  // By accident they can still agree: an unclosed arity counts for the `$` behind it.
  lemma AccidentalAgreement()
    ensures var s := [OPEN, SPACE, DOLLAR]; !WellBracketed(s) && Length(s) == 1 && Parsed(s) == Ok([ItemByte(NewVar)])
  {
    var s := [OPEN, SPACE, DOLLAR];
    assert s[1..] == [SPACE, DOLLAR] && [SPACE, DOLLAR][1..] == [DOLLAR] && s[2..] == [DOLLAR];
    assert BracketLength([DOLLAR]) == 1 && BracketLength(s[1..]) == 2 && s[3..] == [];
    assert DigitCount(s[1..]) == 0 && [DOLLAR][1..] == [];
    assert Parsed([DOLLAR]) == Put(NewVar, [], Ok([]));
    assert [ItemByte(NewVar)] + [] + [] == [ItemByte(NewVar)];
  }

  /* ---- The methods ---- */

  method ComputeLength(s: Text) returns (n: nat)
    ensures n == Length(s)
  {
    n := 0;
    var i := 0;
    assert s[0..] == s;
    while i < |s|
      invariant i <= |s| && n + Length(s[i..]) == Length(s)
      decreases |s| - i
    {
      var m;
      m, i := TokenLength(s, i);
      n := n + m;
    }
    assert s[i..] == [];
  }

  // One token: the bytes counted for it and where it ends.
  method TokenLength(s: Text, i: nat) returns (n: nat, next: nat)
    requires i < |s|
    ensures i < next <= |s| && Length(s[i..]) == n + Length(s[next..])
  {
    var t := s[i..];
    var b := s[i];
    n, next := 1, i + 1;
    assert t[1..] == s[next..];
    if b == SPACE {
      n := 0;
    } else if b == OPEN {
      next := SkipBracket(s, next);
      assert t[1 + BracketLength(t[1..])..] == s[next..];
    } else if b == UNDERSCORE {
      next := SkipDigits(s, next);
      assert t[1 + DigitCount(t[1..])..] == s[next..];
    } else if b != DOLLAR {
      next := SkipWord(s, i);
      n := 1 + (next - i);
      assert t[WordLength(t)..] == s[next..];
    }
  }

  method SkipBracket(s: Text, start: nat) returns (i: nat)
    requires start <= |s|
    ensures i == start + BracketLength(s[start..])
  {
    i := start;
    while i < |s| && s[i] != CLOSE
      invariant start <= i <= |s| && BracketLength(s[start..]) == i - start + BracketLength(s[i..])
      decreases |s| - i
    {
      assert s[i..][1..] == s[i + 1..];
      i := i + 1;
    }
    assert BracketLength(s[i..]) == if i < |s| then 1 else 0;
    i := if i < |s| then i + 1 else i;
  }

  method SkipDigits(s: Text, start: nat) returns (i: nat)
    requires start <= |s|
    ensures i == start + DigitCount(s[start..])
  {
    i := start;
    while i < |s| && IsDigit(s[i])
      invariant start <= i <= |s| && DigitCount(s[start..]) == i - start + DigitCount(s[i..])
      decreases |s| - i
    {
      assert s[i..][1..] == s[i + 1..];
      i := i + 1;
    }
    assert DigitCount(s[i..]) == 0;
  }

  method SkipWord(s: Text, start: nat) returns (i: nat)
    requires start <= |s|
    ensures i == start + WordLength(s[start..])
  {
    i := start;
    while i < |s| && s[i] != SPACE
      invariant start <= i <= |s| && WordLength(s[start..]) == i - start + WordLength(s[i..])
      decreases |s| - i
    {
      assert s[i..][1..] == s[i + 1..];
      i := i + 1;
    }
    assert WordLength(s[i..]) == 0;
  }

  // The digits of a number, read into a byte.
  method ReadNumber(s: Text, start: nat) returns (num: Option<nat>, i: nat)
    requires start <= |s|
    ensures num == NumberOf(s[start..], DigitCount(s[start..]), 0)
    ensures num.Some? ==> i == start + DigitCount(s[start..])
  {
    i := start;
    var n: nat := 0;
    while i < |s| && IsDigit(s[i])
      invariant start <= i <= |s| && DigitCount(s[start..]) == i - start + DigitCount(s[i..])
      invariant NumberOf(s[start..], DigitCount(s[start..]), 0) == NumberOf(s[i..], DigitCount(s[i..]), n)
      decreases |s| - i
    {
      assert s[i..][1..] == s[i + 1..];
      n := n * 10 + (s[i] - ZERO);
      if n > 255 {
        return None, i;
      }
      i := i + 1;
    }
    assert DigitCount(s[i..]) == 0;
    num := Some(n);
  }

  // What `parse` has written: the first `pos` bytes of the array.
  ghost predicate Writing(whole: Result<seq<byte>, Failure>, done: seq<byte>, rest: Result<seq<byte>, Failure>) {
    if rest.Err? then whole == rest else whole == Ok(done + rest.value)
  }

  // `parse`, into an array of the given length; what is not written stays 0.
  method Parse(s: Text, len: nat) returns (r: Result<seq<byte>, Failure>)
    ensures r.Ok? ==> Parsed(s).Ok? && |Parsed(s).value| <= len && r.value == Parsed(s).value + seq(len - |Parsed(s).value|, _ => 0)
    ensures Parsed(s).Ok? && |Parsed(s).value| <= len ==> r.Ok?
    ensures r == Err(OutOfBounds) ==> Parsed(s).Ok? ==> |Parsed(s).value| > len
  {
    hide Parsed;
    var arr := new byte[len](_ => 0);
    var i, pos := 0, 0;
    ParsedNothing(s);
    while i < |s|
      invariant i <= |s| && pos <= len
      invariant Writing(Parsed(s), arr[..pos], Parsed(s[i..]))
      invariant forall k | pos <= k < len :: arr[k] == 0
      decreases |s| - i
    {
      ghost var t, done := s[i..], arr[..pos];
      var failure, tag, word, next := Token(s, i);
      if failure.Some? {
        return Err(failure.value);
      }
      i := next;
      if tag.Some? {
        WritingOn(Parsed(s), done, [ItemByte(tag.value)] + word, Parsed(s[i..]));
        if pos + 1 + |word| > len {
          return Err(OutOfBounds);
        }
        arr[pos] := ItemByte(tag.value);
        pos := pos + 1;
        CopyWord(arr, pos, word);
        pos := pos + |word|;
        assert arr[..pos] == done + ([ItemByte(tag.value)] + word);
      }
    }
    assert s[i..] == [];
    ParsedEmpty();
    assert arr[..] == arr[..pos] + seq(len - pos, _ => 0);
    r := Ok(arr[..]);
  }

  method CopyWord(arr: array<byte>, pos: nat, word: Text)
    requires pos + |word| <= arr.Length
    modifies arr
    ensures arr[..pos] == old(arr[..pos]) && arr[pos..pos + |word|] == word
    ensures forall k | pos + |word| <= k < arr.Length :: arr[k] == old(arr[k])
  {
    for j := 0 to |word|
      invariant arr[..pos] == old(arr[..pos]) && arr[pos..pos + j] == word[..j]
      invariant forall k | pos + |word| <= k < arr.Length :: arr[k] == old(arr[k])
    {
      arr[pos + j] := word[j];
      assert word[..j + 1] == word[..j] + [word[j]];
      assert arr[pos..pos + j + 1] == arr[pos..pos + j] + [arr[pos + j]];
    }
  }

  lemma ParsedNothing(s: Text)
    ensures Writing(Parsed(s), [], Parsed(s[0..]))
  {
    assert s[0..] == s;
    if Parsed(s).Ok? {
      assert [] + Parsed(s).value == Parsed(s).value;
    }
  }

  lemma ParsedEmpty()
    ensures Parsed([]) == Ok([]) && WellBracketed([])
  {
  }

  lemma WritingOn(whole: Result<seq<byte>, Failure>, done: seq<byte>, more: seq<byte>, rest: Result<seq<byte>, Failure>)
    requires Writing(whole, done, if rest.Err? then rest else Ok(more + rest.value))
    ensures Writing(whole, done + more, rest)
    ensures whole.Ok? ==> |whole.value| >= |done| + |more|
  {
    if rest.Ok? {
      assert done + (more + rest.value) == done + more + rest.value;
    }
  }

  // What the first token of `t` writes, with `rest` behind it; or why it does not.
  ghost predicate Writes(t: Text, failure: Option<Failure>, tag: Option<Tag>, word: Text, rest: Text) {
    match failure
    case Some(f) => f != OutOfBounds && (Parsed(t) == Err(f) || (f == AssertionFailed && Parsed(t).Err?))
    case None =>
      && (tag.Some? ==> ValidTag(tag.value))
      && Parsed(t) == if tag.None? || Parsed(rest).Err? then Parsed(rest) else Ok([ItemByte(tag.value)] + word + Parsed(rest).value)
  }

  method Token(s: Text, i: nat) returns (failure: Option<Failure>, tag: Option<Tag>, word: Text, next: nat)
    requires i < |s|
    ensures next <= |s| && (failure.None? ==> i < next) && Writes(s[i..], failure, tag, word, s[next..])
  {
    var t := s[i..];
    failure, tag, word, next := None, None, [], i + 1;
    assert t[1..] == s[next..];
    var b := s[i];
    if b == SPACE {
      ParsedMark(t);
    } else if b == OPEN {
      failure, tag, next := ArityToken(s, i);
    } else if b == DOLLAR {
      ParsedMark(t);
      tag := Some(NewVar);
    } else if b == UNDERSCORE {
      failure, tag, next := RefToken(s, i);
    } else {
      next := SkipWord(s, i);
      assert t[..WordLength(t)] == s[i..next] && t[WordLength(t)..] == s[next..];
      ParsedWord(t);
      if next - i >= 64 {
        failure := Some(AssertionFailed);
      } else {
        tag, word := Some(SymbolSize(next - i)), s[i..next];
      }
    }
  }

  lemma ParsedMark(t: Text)
    requires t != [] && (t[0] == SPACE || t[0] == DOLLAR)
    ensures t[0] == SPACE ==> Writes(t, None, None, [], t[1..])
    ensures t[0] == DOLLAR ==> Writes(t, None, Some(NewVar), [], t[1..])
  {
  }

  lemma ParsedWord(t: Text)
    requires t != [] && t[0] != SPACE && t[0] != OPEN && t[0] != DOLLAR && t[0] != UNDERSCORE
    ensures var k := WordLength(t);
            if k >= 64 then Writes(t, Some(AssertionFailed), None, [], t[k..])
            else Writes(t, None, Some(SymbolSize(k)), t[..k], t[k..])
  {
  }

  lemma ParsedArity(t: Text)
    requires t != [] && t[0] == OPEN
    ensures var k := DigitCount(t[1..]);
            var n := NumberOf(t[1..], k, 0);
            && (n.None? ==> Writes(t, Some(NumberOverflow), None, [], t))
            && (n.Some? && k + 1 < |t| && t[k + 1] == CLOSE ==>
                  if n.value < 64 then Writes(t, None, Some(Arity(n.value)), [], t[k + 2..])
                  else Writes(t, Some(AssertionFailed), None, [], t))
            && (n.Some? && k + 1 < |t| && t[k + 1] != CLOSE ==> Writes(t, None, None, [], t[k + 2..]))
            && (n.Some? && k + 1 == |t| ==> Writes(t, None, None, [], []))
  {
  }

  lemma ParsedRef(t: Text)
    requires t != [] && t[0] == UNDERSCORE
    ensures var k := DigitCount(t[1..]);
            var n := NumberOf(t[1..], k, 0);
            && (n.None? ==> Writes(t, Some(NumberOverflow), None, [], t))
            && (n.Some? ==>
                  var level := if n.value > 0 then n.value - 1 else 0;
                  if level < 64 then Writes(t, None, Some(VarRef(level)), [], t[k + 1..])
                  else Writes(t, Some(AssertionFailed), None, [], t))
  {
  }

  method ArityToken(s: Text, i: nat) returns (failure: Option<Failure>, tag: Option<Tag>, next: nat)
    requires i < |s| && s[i] == OPEN
    ensures next <= |s| && (failure.None? ==> i < next) && Writes(s[i..], failure, tag, [], s[next..])
  {
    hide Writes, Parsed, NumberOf;
    var t := s[i..];
    assert t[1..] == s[i + 1..];
    ParsedArity(t);
    var num, j := ReadNumber(s, i + 1);
    if num.None? {
      return Some(NumberOverflow), None, i;
    }
    if j == |s| {
      assert s[j..] == [];
      return None, None, j;
    }
    assert t[DigitCount(t[1..]) + 2..] == s[j + 1..];
    if s[j] != CLOSE {
      return None, None, j + 1;
    }
    if num.value >= 64 {
      return Some(AssertionFailed), None, i;
    }
    return None, Some(Arity(num.value)), j + 1;
  }

  method RefToken(s: Text, i: nat) returns (failure: Option<Failure>, tag: Option<Tag>, next: nat)
    requires i < |s| && s[i] == UNDERSCORE
    ensures next <= |s| && (failure.None? ==> i < next) && Writes(s[i..], failure, tag, [], s[next..])
  {
    hide Writes, Parsed, NumberOf;
    var t := s[i..];
    assert t[1..] == s[i + 1..];
    ParsedRef(t);
    var num, j := ReadNumber(s, i + 1);
    if num.None? {
      return Some(NumberOverflow), None, i;
    }
    assert t[DigitCount(t[1..]) + 1..] == s[j..];
    var level := if num.value > 0 then num.value - 1 else 0;
    if level >= 64 {
      return Some(AssertionFailed), None, i;
    }
    return None, Some(VarRef(level)), j;
  }

  /* ---- Printing ---- */

  predicate Graphic(c: byte) {
    33 <= c <= 126
  }

  function HexDigit(d: nat): byte
    requires d < 16
  {
    if d < 10 then ZERO + d else 55 + d
  }

  // A byte that is not printable, in hexadecimal.
  function Hex(c: byte): Text {
    [BACKSLASH, 120, HexDigit(c / 16), HexDigit(c % 16)]
  }

  // A digit of 0 to 9 or A to F.
  function HexValue(c: byte): nat {
    if 48 <= c <= 57 then c - 48 else if 65 <= c <= 70 then c - 55 else 16
  }

  lemma HexReads(c: byte)
    ensures var w := Hex(c);
      && |w| == 4 && w[0] == '\\' as int && w[1] == 'x' as int
      && HexValue(w[2]) < 16 && HexValue(w[3]) < 16 && 16 * HexValue(w[2]) + HexValue(w[3]) == c
  {
  }

  function Shown(c: byte): Text {
    if (Graphic(c) || c == SPACE) && c != BACKSLASH then [c] else Hex(c)
  }

  function ShownAll(s: seq<byte>): Text {
    if s == [] then [] else Shown(s[0]) + ShownAll(s[1..])
  }

  // A number below 1000.
  function Decimal(n: nat): Text
    requires n < 1000
  {
    if n < 10 then [ZERO + n]
    else if n < 100 then [ZERO + n / 10, ZERO + n % 10]
    else [ZERO + n / 100, ZERO + n / 10 % 10, ZERO + n % 10]
  }

  const TRUNCATED: Text := [60, 116, 114, 117, 110, 99, 97, 116, 101, 100, 32]   // "<truncated "

  // What `serialize` writes for one item and the bytes that it covers; a symbol may be cut short.
  function ShownItem(s: seq<byte>): (r: (Text, nat))
    requires s != []
    ensures 0 < r.1 <= |s|
  {
    match MaybeByteItem(s[0])
    case Ok(NewVar) => ([DOLLAR], 1)
    case Ok(VarRef(i)) => ([UNDERSCORE] + Decimal(i + 1), 1)
    case Ok(Arity(a)) => ([OPEN] + Decimal(a) + [CLOSE], 1)
    case Ok(SymbolSize(n)) =>
      if 1 + n > |s| then (ShownAll(s[1..]) + TRUNCATED + Decimal(1 + n - |s|) + [62], |s|)
      else (ShownAll(s[1..1 + n]), 1 + n)
    case Err(b) => (Hex(b), 1)
  }

  function Serialized(s: seq<byte>): Text
    decreases |s|
  {
    if s == [] then [] else
      var item := ShownItem(s);
      item.0 + (if item.1 < |s| then [SPACE] else []) + Serialized(s[item.1..])
  }

  method Serialize(bytes: seq<byte>) returns (result: Text)
    ensures result == Serialized(bytes)
  {
    hide ShownItem;
    result := [];
    var i := 0;
    assert bytes[0..] == bytes;
    while i < |bytes|
      invariant i <= |bytes| && result + Serialized(bytes[i..]) == Serialized(bytes)
      decreases |bytes| - i
    {
      ghost var s, before := bytes[i..], result;
      var text, n := SerializeItem(bytes, i);
      result := result + text;
      assert s[n..] == bytes[i + n..];
      i := i + n;
      if i < |bytes| {
        result := result + [SPACE];
      }
      SerializedStep(s, before);
    }
    assert bytes[i..] == [];
  }

  lemma SerializedIs(s: seq<byte>)
    requires s != []
    ensures var item := ShownItem(s);
            Serialized(s) == item.0 + (if item.1 < |s| then [SPACE] else []) + Serialized(s[item.1..])
  {
    hide ShownItem;
  }

  lemma SerializedStep(s: seq<byte>, before: Text)
    requires s != []
    ensures var item := ShownItem(s);
            before + Serialized(s) == (if item.1 < |s| then before + item.0 + [SPACE] else before + item.0) + Serialized(s[item.1..])
  {
    hide *;
    SerializedIs(s);
    var item := ShownItem(s);
    var sp: Text := if item.1 < |s| then [SPACE] else [];
    Assoc(before, item.0 + sp, Serialized(s[item.1..]));
    Assoc(before, item.0, sp);
    assert before + item.0 + [] == before + item.0;
  }

  method SerializeItem(bytes: seq<byte>, i: nat) returns (text: Text, n: nat)
    requires i < |bytes|
    ensures (text, n) == ShownItem(bytes[i..])
  {
    var s := bytes[i..];
    match MaybeByteItem(bytes[i])
    case Ok(NewVar) => return [DOLLAR], 1;
    case Ok(VarRef(k)) => return [UNDERSCORE] + Decimal(k + 1), 1;
    case Ok(Arity(a)) => return [OPEN] + Decimal(a) + [CLOSE], 1;
    case Ok(SymbolSize(size)) =>
      if 1 + size > |s| {
        text := ShowBytes(s[1..]);
        return text + TRUNCATED + Decimal(1 + size - |s|) + [62], |s|;
      }
      text := ShowBytes(s[1..1 + size]);
      n := 1 + size;
    case Err(b) => return Hex(b), 1;
  }

  method ShowBytes(s: seq<byte>) returns (text: Text)
    ensures text == ShownAll(s)
  {
    hide Shown;
    text := [];
    assert s[0..] == s;
    for j := 0 to |s|
      invariant text + ShownAll(s[j..]) == ShownAll(s)
    {
      assert s[j..][1..] == s[j + 1..];
      Assoc(text, Shown(s[j]), ShownAll(s[j + 1..]));
      text := text + Shown(s[j]);
    }
    assert s[|s|..] == [];
  }

  /* ---- Parsing undoes serializing ---- */

  // The symbols that survive: graphic, without a backslash, and not starting like another token.
  predicate Survives(x: SourceItem) {
    match x
    case Item(tag) => ValidTag(tag) && !tag.SymbolSize?
    case Word(s) =>
      && 0 < |s| < 64 && s[0] != OPEN && s[0] != DOLLAR && s[0] != UNDERSCORE
      && forall k | 0 <= k < |s| :: Graphic(s[k]) && s[k] != BACKSLASH
  }

  function TokenText(x: SourceItem): Text
    requires ValidItem(x)
  {
    match x
    case Item(NewVar) => [DOLLAR]
    case Item(VarRef(i)) => [UNDERSCORE] + Decimal(i + 1)
    case Item(Arity(a)) => [OPEN] + Decimal(a) + [CLOSE]
    case Word(s) => s
  }

  predicate AllSurvive(xs: seq<SourceItem>) {
    forall k | 0 <= k < |xs| :: Survives(xs[k])
  }

  function ItemsText(xs: seq<SourceItem>): Text
    requires AllSurvive(xs)
  {
    if xs == [] then [] else TokenText(xs[0]) + (if |xs| > 1 then [SPACE] else []) + ItemsText(xs[1..])
  }

  function ItemsBytes(xs: seq<SourceItem>): seq<byte>
    requires AllSurvive(xs)
  {
    if xs == [] then [] else BytesOf(xs[0]) + ItemsBytes(xs[1..])
  }

  lemma {:induction false} WordShown(s: seq<byte>)
    requires forall k | 0 <= k < |s| :: Graphic(s[k]) && s[k] != BACKSLASH
    ensures ShownAll(s) == s
  {
    if s != [] {
      WordShown(s[1..]);
    }
  }

  lemma ItemShown(x: SourceItem, rest: seq<byte>)
    requires Survives(x)
    ensures BytesOf(x) + rest != [] && ShownItem(BytesOf(x) + rest) == (TokenText(x), |BytesOf(x)|)
    ensures (BytesOf(x) + rest)[|BytesOf(x)|..] == rest
  {
    var s := BytesOf(x) + rest;
    ItemByteRoundTrip(s[0]);
    if x.Word? {
      assert s[1..1 + |x.s|] == x.s;
      WordShown(x.s);
    }
  }

  lemma {:induction false} SerializedItems(xs: seq<SourceItem>)
    requires AllSurvive(xs)
    ensures Serialized(ItemsBytes(xs)) == ItemsText(xs)
    ensures ItemsBytes(xs) == [] <==> xs == []
  {
    hide ShownItem, TokenText, BytesOf, Survives, ValidItem;
    if xs != [] {
      SerializedItems(xs[1..]);
      ItemShown(xs[0], ItemsBytes(xs[1..]));
    }
  }

  // The digits of a number before something else.
  lemma DecimalRead(n: nat, tail: Text)
    requires n < 100 && (tail == [] || !IsDigit(tail[0]))
    ensures var t := Decimal(n) + tail;
            DigitCount(t) == |Decimal(n)| && NumberOf(t, |Decimal(n)|, 0) == Some(n) && t[|Decimal(n)|..] == tail
  {
    var t := Decimal(n) + tail;
    assert t[|Decimal(n)|..] == tail;
    assert DigitCount(tail) == 0;
    if n < 10 {
      assert t[1..] == tail;
      assert NumberOf(t[1..], 0, n) == Some(n);
    } else {
      var u := t[1..];
      assert u[1..] == tail;
      assert DigitCount(u) == 1;
      assert NumberOf(u[1..], 0, n) == Some(n);
      assert NumberOf(u, 1, n / 10) == Some(n);
    }
  }

  lemma {:induction false} WordRead(s: Text, tail: Text)
    requires (forall k | 0 <= k < |s| :: Graphic(s[k])) && (tail == [] || tail[0] == SPACE)
    ensures WordLength(s + tail) == |s|
  {
    if s == [] {
      assert s + tail == tail;
    } else {
      assert (s + tail)[1..] == s[1..] + tail;
      WordRead(s[1..], tail);
    }
  }

  lemma WordParsed(s: Text, tail: Text)
    requires Survives(Word(s)) && (tail == [] || tail[0] == SPACE) && Parsed(tail).Ok?
    ensures Parsed(s + tail) == Ok(BytesOf(Word(s)) + Parsed(tail).value) && WellBracketed(s + tail) == WellBracketed(tail)
  {
    var t := s + tail;
    WordRead(s, tail);
    assert t[..|s|] == s && t[|s|..] == tail;
    ParsedWord(t);
    hide Parsed;
  }

  lemma RefParsed(i: nat, tail: Text)
    requires i < 64 && (tail == [] || tail[0] == SPACE) && Parsed(tail).Ok?
    ensures var t := [UNDERSCORE] + Decimal(i + 1) + tail;
            Parsed(t) == Ok([ItemByte(VarRef(i))] + Parsed(tail).value) && WellBracketed(t) == WellBracketed(tail)
  {
    var t := [UNDERSCORE] + Decimal(i + 1) + tail;
    assert t[1..] == Decimal(i + 1) + tail;
    DecimalRead(i + 1, tail);
    assert t[|Decimal(i + 1)| + 1..] == tail;
    ParsedRef(t);
    hide Parsed, Decimal;
    assert [ItemByte(VarRef(i))] + [] == [ItemByte(VarRef(i))];
  }

  lemma ArityParsed(a: nat, tail: Text)
    requires a < 64 && Parsed(tail).Ok?
    ensures var t := [OPEN] + Decimal(a) + [CLOSE] + tail;
            Parsed(t) == Ok([ItemByte(Arity(a))] + Parsed(tail).value) && WellBracketed(t) == WellBracketed(tail)
  {
    var t := [OPEN] + Decimal(a) + [CLOSE] + tail;
    assert t[1..] == Decimal(a) + ([CLOSE] + tail);
    DecimalRead(a, [CLOSE] + tail);
    assert t[|Decimal(a)| + 1] == CLOSE && t[|Decimal(a)| + 2..] == tail;
    ParsedArity(t);
    hide Parsed, Decimal;
    assert [ItemByte(Arity(a))] + [] == [ItemByte(Arity(a))];
  }

  lemma NewVarParsed(tail: Text)
    requires Parsed(tail).Ok?
    ensures Parsed([DOLLAR] + tail) == Ok([ItemByte(NewVar)] + Parsed(tail).value)
    ensures WellBracketed([DOLLAR] + tail) == WellBracketed(tail)
  {
    var t := [DOLLAR] + tail;
    assert t[1..] == tail;
    ParsedMark(t);
    hide Parsed;
    assert [ItemByte(NewVar)] + [] == [ItemByte(NewVar)];
  }

  // The text of one item before the end or a space.
  lemma ItemParsed(x: SourceItem, tail: Text)
    requires Survives(x) && (tail == [] || tail[0] == SPACE) && Parsed(tail).Ok? && WellBracketed(tail)
    ensures Parsed(TokenText(x) + tail) == Ok(BytesOf(x) + Parsed(tail).value) && WellBracketed(TokenText(x) + tail)
  {
    match x
    case Word(s) => WordParsed(s, tail);
    case Item(NewVar) => NewVarParsed(tail);
    case Item(VarRef(i)) => hide Parsed, WellBracketed, Decimal; RefParsed(i, tail);
    case Item(Arity(a)) => hide Parsed, WellBracketed, Decimal; ArityParsed(a, tail);
  }

  // `parse` undoes `serialize`, and `compute_length` gives the length of the array it needs.
  lemma {:induction false} ParseUndoesSerialize(xs: seq<SourceItem>)
    requires AllSurvive(xs)
    ensures var text := Serialized(ItemsBytes(xs));
            Parsed(text) == Ok(ItemsBytes(xs)) && Length(text) == |ItemsBytes(xs)|
  {
    SerializedItems(xs);
    ItemsParsed(xs);
    LengthIsParsedLength(ItemsText(xs));
  }

  lemma {:induction false} ItemsParsed(xs: seq<SourceItem>)
    requires AllSurvive(xs)
    ensures Parsed(ItemsText(xs)) == Ok(ItemsBytes(xs)) && WellBracketed(ItemsText(xs))
  {
    hide TokenText, BytesOf, Parsed, WellBracketed;
    ParsedEmpty();
    if xs != [] {
      ItemsParsed(xs[1..]);
      var rest := ItemsText(xs[1..]);
      var tail: Text := if |xs| > 1 then [SPACE] + rest else rest;
      SpaceParsed(rest);
      ItemParsed(xs[0], tail);
      assert ItemsText(xs) == TokenText(xs[0]) + tail;
    }
  }

  lemma SpaceParsed(t: Text)
    ensures Parsed([SPACE] + t) == Parsed(t) && WellBracketed([SPACE] + t) == WellBracketed(t)
  {
    assert ([SPACE] + t)[1..] == t;
  }
}
