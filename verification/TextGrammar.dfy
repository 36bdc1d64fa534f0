/** What the text form of expressions means, token by token. */
module TextGrammar {
  import opened Items
  import opened Wrappers
  import opened TextForm

  // A space, `$`, `_` and `[ ]` with their digits, and a word.
  datatype Token = Gap | Dollar | Ref(digits: Text) | Bracket(digits: Text) | Word(text: Text) {
    function Text(): Text {
      match this
      case Gap => [32]
      case Dollar => [36]
      case Ref(ds) => [95] + ds
      case Bracket(ds) => [91] + ds + [93]
      case Word(w) => w
    }

    predicate Valid() {
      match this
      case Ref(ds) => AllDigits(ds)
      case Bracket(ds) => AllDigits(ds)
      case Word(w) => w != [] && 32 !in w && w[0] != 36 && w[0] != 91 && w[0] != 95
      case _ => true
    }

    // What may stand behind the token for it to end here: a word is ended by a space, a reference by
    // anything but a digit.
    predicate EndedBy(rest: Text) {
      && (Word? ==> rest == [] || rest[0] == 32)
      && (Ref? ==> rest == [] || !(48 <= rest[0] <= 57))
    }
  }

  predicate AllDigits(ds: Text) {
    forall k | 0 <= k < |ds| :: 48 <= ds[k] <= 57
  }

  function Value(n: nat, ds: Text): (v: nat)
    requires AllDigits(ds)
    ensures v >= n
    decreases |ds|
  {
    if ds == [] then n else Value(10 * n + (ds[0] - 48), ds[1..])
  }

  function TextAll(ts: seq<Token>): Text {
    if ts == [] then [] else ts[0].Text() + TextAll(ts[1..])
  }

  predicate Well(ts: seq<Token>) {
    ts == [] || (ts[0].Valid() && ts[0].EndedBy(TextAll(ts[1..])) && Well(ts[1..]))
  }

  // The bytes, or the first failure: a number above 255 or a payload that does not fit its item.
  // References count from 1, and `_` and `_0` are read as `_1`.
  function Meaning(ts: seq<Token>): Result<seq<byte>, Failure>
    requires Well(ts)
  {
    if ts == [] then Ok([]) else
      var rest := Meaning(ts[1..]);
      match ts[0]
      case Gap => rest
      case Dollar => Item(0xC0, [], rest)
      case Ref(ds) =>
        var v := Value(0, ds);
        if v > 255 then Err(NumberOverflow)
        else if v > 64 then Err(AssertionFailed)
        else Item(0x80 + if v == 0 then 0 else v - 1, [], rest)
      case Bracket(ds) =>
        var v := Value(0, ds);
        if v > 255 then Err(NumberOverflow) else if v > 63 then Err(AssertionFailed) else Item(v, [], rest)
      case Word(w) => if |w| > 63 then Err(AssertionFailed) else Item(0xC0 + |w|, w, rest)
  }

  function Item(b: byte, word: Text, rest: Result<seq<byte>, Failure>): Result<seq<byte>, Failure> {
    if rest.Err? then rest else Ok([b] + word + rest.value)
  }

  lemma {:induction false} DigitsCounted(ds: Text, rest: Text)
    requires AllDigits(ds) && (rest == [] || !(48 <= rest[0] <= 57))
    ensures DigitCount(ds + rest) == |ds|
    decreases |ds|
  {
    if ds == [] {
      assert ds + rest == rest;
    } else {
      assert (ds + rest)[1..] == ds[1..] + rest;
      DigitsCounted(ds[1..], rest);
    }
  }

  lemma {:induction false} NumberIs(ds: Text, rest: Text, n: nat)
    requires AllDigits(ds) && n <= 255 && |ds| <= DigitCount(ds + rest)
    ensures NumberOf(ds + rest, |ds|, n) == if Value(n, ds) > 255 then None else Some(Value(n, ds))
    decreases |ds|
  {
    if ds != [] {
      assert (ds + rest)[1..] == ds[1..] + rest;
      var m := 10 * n + (ds[0] - 48);
      if m <= 255 {
        NumberIs(ds[1..], rest, m);
      }
    }
  }

  lemma {:induction false} WordCounted(w: Text, rest: Text)
    requires 32 !in w && (rest == [] || rest[0] == 32)
    ensures WordLength(w + rest) == |w|
    decreases |w|
  {
    if w == [] {
      assert w + rest == rest;
    } else {
      assert (w + rest)[1..] == w[1..] + rest;
      WordCounted(w[1..], rest);
    }
  }

  // Every such text is parsed as its tokens.
  lemma {:induction false} ParsedMeans(ts: seq<Token>)
    requires Well(ts)
    ensures Parsed(TextAll(ts)) == Meaning(ts)
    decreases |ts|
  {
    if ts != [] {
      var rest := TextAll(ts[1..]);
      ParsedMeans(ts[1..]);
      match ts[0]
      case Gap => assert ([32] + rest)[1..] == rest;
      case Dollar => assert ([36] + rest)[1..] == rest;
      case Ref(ds) => RefParsed(ds, rest);
      case Bracket(ds) => BracketParsed(ds, rest);
      case Word(w) => WordParsed(w, rest);
    }
  }

  lemma RefStep(s: Text)
    requires s != [] && s[0] == UNDERSCORE
    ensures var k := DigitCount(s[1..]);
      var n := NumberOf(s[1..], k, 0);
      Parsed(s) == if n.None? then Err(NumberOverflow) else Put(VarRef(if n.value > 0 then n.value - 1 else 0), [], Parsed(s[k + 1..]))
  {
    hide DigitCount, NumberOf, WordLength, Put;
  }

  lemma RefParsed(ds: Text, rest: Text)
    requires AllDigits(ds) && (rest == [] || !(48 <= rest[0] <= 57))
    ensures var v := Value(0, ds);
      Parsed([95] + ds + rest) == if v > 255 then Err(NumberOverflow) else if v > 64 then Err(AssertionFailed)
                                  else Item(0x80 + if v == 0 then 0 else v - 1, [], Parsed(rest))
  {
    hide DigitCount, NumberOf, Value, WordLength, AllDigits, Parsed;
    var s := [95] + ds + rest;
    assert s[1..] == ds + rest && s[|ds| + 1..] == rest;
    DigitsCounted(ds, rest);
    NumberIs(ds, rest, 0);
    RefStep(s);
  }

  lemma BracketParsed(ds: Text, rest: Text)
    requires AllDigits(ds)
    ensures var v := Value(0, ds);
      Parsed([91] + ds + [93] + rest) == if v > 255 then Err(NumberOverflow) else if v > 63 then Err(AssertionFailed)
                                         else Item(v, [], Parsed(rest))
  {
    hide DigitCount, NumberOf, Value, WordLength, AllDigits;
    var s := [91] + ds + [93] + rest;
    assert s[1..] == ds + ([93] + rest) && s[|ds| + 2..] == rest && s[1 + |ds|] == 93;
    DigitsCounted(ds, [93] + rest);
    NumberIs(ds, [93] + rest, 0);
  }

  lemma WordParsed(w: Text, rest: Text)
    requires Word(w).Valid() && (rest == [] || rest[0] == 32)
    ensures Parsed(w + rest) == if |w| > 63 then Err(AssertionFailed) else Item(0xC0 + |w|, w, Parsed(rest))
  {
    hide DigitCount, NumberOf, Value, WordLength, AllDigits;
    var s := w + rest;
    assert s[0] == w[0] && w[0] in w && s[..|w|] == w && s[|w|..] == rest;
    WordCounted(w, rest);
  }

  // And every text whose arities have their brackets is such a text.
  lemma {:induction false} Tokens(s: Text) returns (ts: seq<Token>)
    requires WellBracketed(s)
    ensures Well(ts) && TextAll(ts) == s
    decreases |s|
  {
    if s == [] {
      return [];
    }
    var t := FirstToken(s);
    var rest := s[|t.Text()|..];
    var more := Tokens(rest);
    ts := [t] + more;
    assert ts[1..] == more;
  }

  lemma RefToken(s: Text) returns (t: Token)
    requires s != [] && s[0] == 95 && WellBracketed(s)
    ensures t.Valid() && 0 < |t.Text()| <= |s| && s == t.Text() + s[|t.Text()|..]
    ensures t.EndedBy(s[|t.Text()|..]) && WellBracketed(s[|t.Text()|..])
  {
    hide DigitCount;
    var k := DigitCount(s[1..]);
    DigitRun(s[1..]);
    var ds := s[1..][..k];
    t := Ref(ds);
    assert s == [95] + ds + s[1 + k..];
    assert s[1..][k..] == s[1 + k..];
    if k + 1 < |s| {
      assert s[1 + k..][0] == s[1..][k];
    }
  }

  lemma BracketToken(s: Text) returns (t: Token)
    requires s != [] && s[0] == 91 && WellBracketed(s)
    ensures t.Valid() && 0 < |t.Text()| <= |s| && s == t.Text() + s[|t.Text()|..]
    ensures t.EndedBy(s[|t.Text()|..]) && WellBracketed(s[|t.Text()|..])
  {
    hide DigitCount;
    var k := DigitCount(s[1..]);
    DigitRun(s[1..]);
    var ds := s[1..][..k];
    t := Bracket(ds);
    assert s == [91] + ds + [93] + s[k + 2..];
  }

  lemma FirstToken(s: Text) returns (t: Token)
    requires WellBracketed(s) && s != []
    ensures t.Valid() && 0 < |t.Text()| <= |s| && s == t.Text() + s[|t.Text()|..]
    ensures t.EndedBy(s[|t.Text()|..]) && WellBracketed(s[|t.Text()|..])
  {
    if s[0] == 32 {
      t := Gap;
    } else if s[0] == 36 {
      t := Dollar;
    } else if s[0] == 95 {
      t := RefToken(s);
    } else if s[0] == 91 {
      t := BracketToken(s);
    } else {
      var k := WordLength(s);
      WordRun(s);
      t := Word(s[..k]);
    }
  }

  lemma {:induction false} DigitRun(s: Text)
    ensures var k := DigitCount(s); AllDigits(s[..k]) && (k == |s| || !(48 <= s[k] <= 57))
  {
    if s != [] && IsDigit(s[0]) {
      DigitRun(s[1..]);
      var k := DigitCount(s);
      assert s[..k] == [s[0]] + s[1..][..k - 1];
    }
  }

  lemma {:induction false} WordRun(s: Text)
    ensures var k := WordLength(s); 32 !in s[..k] && (k == |s| || s[k] == 32)
  {
    if s != [] && s[0] != SPACE {
      WordRun(s[1..]);
      var k := WordLength(s);
      assert s[..k] == [s[0]] + s[1..][..k - 1];
    }
  }

  // `parse` on any text whose arities have their brackets: what the tokens mean, when it fits.
  lemma ParseMeans(s: Text) returns (ts: seq<Token>)
    requires WellBracketed(s)
    ensures Well(ts) && TextAll(ts) == s && Parsed(s) == Meaning(ts)
  {
    ts := Tokens(s);
    ParsedMeans(ts);
  }
}
