/** The S-expression parser, a reader of names that it refines, and the printer that it undoes. */
module Sexprs {
  import opened Items
  import opened Terms
  import opened Encoding
  import opened Wrappers
  import opened Numbering
  import opened Rendering

  type Name = seq<byte>
  type Named = Term<Name>

  const TAB: byte := 9
  const NEWLINE: byte := 10
  const SPACE: byte := 32
  const QUOTE: byte := 34
  const DOLLAR: byte := 36
  const OPEN: byte := 40
  const CLOSE: byte := 41
  const SEMICOLON: byte := 59
  const BACKSLASH: byte := 92

  const MAX_VARS: nat := 64

  datatype ParserError =
    | TooManyVars
    | UnexpectedEOF
    | InputFinished
    | UnexpectedRightBracket
    | UnfinishedEscapeSequence
    | AssertionFailed   // the assertions of `item_byte`: a symbol's length, an arity

  predicate IsWhitespace(c: byte) {
    c == SPACE || c == TAB || c == NEWLINE
  }

  predicate EndsToken(c: byte) {
    c == OPEN || c == CLOSE || IsWhitespace(c)
  }

  /* ---- Reading names ---- */

  // Past the next newline, or to the end.
  function CommentEnd(src: seq<byte>, i: nat): (j: nat)
    requires i <= |src|
    ensures i <= j <= |src|
    decreases |src| - i
  {
    if i == |src| then i else if src[i] == NEWLINE then i + 1 else CommentEnd(src, i + 1)
  }

  function TokenEnd(src: seq<byte>, i: nat): (j: nat)
    requires i <= |src|
    ensures i <= j <= |src|
    ensures forall k | i <= k < j :: !EndsToken(src[k])
    ensures j == |src| || EndsToken(src[j])
    decreases |src| - i
  {
    if i == |src| || EndsToken(src[i]) then i else TokenEnd(src, i + 1)
  }

  // Past the closing quote, or to the end; None after a backslash that is the last byte.
  function StringEnd(src: seq<byte>, i: nat): (j: Option<nat>)
    requires i <= |src|
    ensures j.Some? ==> i <= j.value <= |src|
    decreases |src| - i
  {
    if i == |src| then Some(i)
    else if src[i] == QUOTE then Some(i + 1)
    else if src[i] == BACKSLASH then (if i + 1 < |src| then StringEnd(src, i + 2) else None)
    else StringEnd(src, i + 1)
  }

  // The end of the quoted string or the plain token that starts at `i`.
  function SymbolEnd(src: seq<byte>, i: nat): (j: Option<nat>)
    requires i < |src|
    ensures j.Some? ==> i < j.value <= |src|
  {
    if src[i] == QUOTE then StringEnd(src, i + 1) else Some(TokenEnd(src, i + 1))
  }

  // The next expression from `i` on, with variables by name, and where it ends. The tokenizer maps
  // the text of a symbol to its bytes.
  function Read(tok: Name -> Symbol, src: seq<byte>, i: nat): (r: Result<(Named, nat), ParserError>)
    requires i <= |src|
    ensures r.Ok? ==> i < r.value.1 <= |src|
    decreases |src| - i, 0
  {
    if i == |src| then Err(InputFinished)
    else if src[i] == SEMICOLON then Read(tok, src, CommentEnd(src, i + 1))
    else if IsWhitespace(src[i]) then Read(tok, src, i + 1)
    else if src[i] == DOLLAR then
      var j := TokenEnd(src, i + 1);
      Ok((Var(src[i..j]), j))
    else if src[i] == OPEN then
      var l := ReadList(tok, src, i + 1);
      if l.Err? then Err(l.error) else Ok((App(l.value.0), l.value.1))
    else if src[i] == CLOSE then Err(UnexpectedRightBracket)
    else
      var j := SymbolEnd(src, i);
      if j.None? then Err(UnfinishedEscapeSequence) else Ok((Sym(tok(src[i..j.value])), j.value))
  }

  // The elements of a list up to its bracket.
  function ReadList(tok: Name -> Symbol, src: seq<byte>, i: nat): (r: Result<(Terms<Name>, nat), ParserError>)
    requires i <= |src|
    ensures r.Ok? ==> i < r.value.1 <= |src|
    decreases |src| - i, 1
  {
    if i == |src| then Err(UnexpectedEOF)
    else if src[i] == CLOSE then Ok((Nil, i + 1))
    else if IsWhitespace(src[i]) then ReadList(tok, src, i + 1)
    else
      var e := Read(tok, src, i);
      if e.Err? then Err(e.error) else
        var l := ReadList(tok, src, e.value.1);
        if l.Err? then Err(l.error) else Ok((Cons(e.value.0, l.value.0), l.value.1))
  }

  // Past the comments and the white space.
  function Skipped(src: seq<byte>, i: nat): (j: nat)
    requires i <= |src|
    ensures i <= j <= |src| && (j < |src| ==> src[j] != SEMICOLON && !IsWhitespace(src[j]))
    decreases |src| - i
  {
    if i == |src| then i
    else if src[i] == SEMICOLON then Skipped(src, CommentEnd(src, i + 1))
    else if IsWhitespace(src[i]) then Skipped(src, i + 1)
    else i
  }

  // Before an expression they do not matter.
  lemma {:induction false} ReadSkips(tok: Name -> Symbol, src: seq<byte>, i: nat)
    requires i <= |src|
    ensures Read(tok, src, i) == Read(tok, src, Skipped(src, i))
    decreases |src| - i
  {
    hide ReadList;
    if i < |src| && src[i] == SEMICOLON {
      ReadSkips(tok, src, CommentEnd(src, i + 1));
    } else if i < |src| && IsWhitespace(src[i]) {
      ReadSkips(tok, src, i + 1);
    }
  }

  // In a list a comment may be left out exactly when another element follows: the list cannot end
  // after it.
  lemma CommentInList(tok: Name -> Symbol, src: seq<byte>, i: nat)
    requires i < |src| && src[i] == SEMICOLON
    ensures var j := Skipped(src, i);
      && (ReadList(tok, src, i) == ReadList(tok, src, j) <==> j < |src| && src[j] != CLOSE)
      && (j < |src| && src[j] == CLOSE ==> ReadList(tok, src, i) == Err(UnexpectedRightBracket) && ReadList(tok, src, j) == Ok((Nil, j + 1)))
      && (j == |src| ==> ReadList(tok, src, i) == Err(InputFinished) && ReadList(tok, src, j) == Err(UnexpectedEOF))
  {
    ReadSkips(tok, src, i);
  }

  /* ---- The parser ---- */

  // What fits the format: at most 64 variables, symbols of 1 to 63 bytes, lists of at most 63.
  ghost predicate Fits(ts: Terms<Name>, vars: seq<Name>) {
    WF(Number(ts, vars)) && |Assigned(ts, vars)| <= MAX_VARS
  }

  class Context {
    const src: seq<byte>
    var loc: nat
    var variables: seq<Name>

    ghost predicate Valid()
      reads this
    {
      loc <= |src| && |variables| <= MAX_VARS && Distinct(variables)
    }

    constructor (r: seq<byte>)
      ensures Valid() && src == r && loc == 0 && variables == []
    {
      src, loc, variables := r, 0, [];
    }

    method Peek() returns (c: Result<byte, ParserError>)
      requires Valid()
      ensures c == if loc == |src| then Err(UnexpectedEOF) else Ok(src[loc])
    {
      c := if loc == |src| then Err(UnexpectedEOF) else Ok(src[loc]);
    }

    method Advance() returns (c: Result<byte, ParserError>)
      requires Valid()
      modifies this`loc
      ensures Valid()
      ensures old(loc) == |src| ==> c == Err(UnexpectedEOF) && loc == old(loc)
      ensures old(loc) < |src| ==> c == Ok(src[old(loc)]) && loc == old(loc) + 1
    {
      if loc == |src| {
        return Err(UnexpectedEOF);
      }
      c := Ok(src[loc]);
      loc := loc + 1;
    }

    // `get_or_put`: the level of a name, or a new level.
    method GetOrPut(name: Name) returns (r: Result<Option<nat>, ParserError>)
      requires Valid()
      modifies this`variables
      ensures Valid()
      ensures name in old(variables) ==> variables == old(variables) && r == Ok(Some(IndexOf(variables, name)))
      ensures name !in old(variables) && |old(variables)| < MAX_VARS ==> r == Ok(None) && variables == old(variables) + [name]
      ensures name !in old(variables) && |old(variables)| == MAX_VARS ==> r == Err(TooManyVars) && variables == old(variables)
    {
      for i := 0 to |variables|
        invariant forall j | 0 <= j < i :: variables[j] != name
      {
        if variables[i] == name {
          FirstIndex(variables, name, i);
          return Ok(Some(i));
        }
      }
      if |variables| < MAX_VARS {
        variables := variables + [name];
        r := Ok(None);
      } else {
        r := Err(TooManyVars);
      }
    }

    // The four scanning loops.
    method SkipComment()
      requires Valid()
      modifies this`loc
      ensures Valid() && loc == CommentEnd(src, old(loc))
    {
      while loc < |src|
        invariant Valid() && CommentEnd(src, loc) == CommentEnd(src, old(loc))
        decreases |src| - loc
      {
        var c := Advance();
        if c == Ok(NEWLINE) {
          return;
        }
      }
    }

    method SkipToken()
      requires Valid()
      modifies this`loc
      ensures Valid() && loc == TokenEnd(src, old(loc))
    {
      while loc < |src|
        invariant Valid() && TokenEnd(src, loc) == TokenEnd(src, old(loc))
        decreases |src| - loc
      {
        if EndsToken(src[loc]) {
          return;
        }
        var _ := Advance();
      }
    }

    method SkipString() returns (failure: Option<ParserError>)
      requires Valid()
      modifies this`loc
      ensures Valid()
      ensures failure.None? ==> StringEnd(src, old(loc)) == Some(loc)
      ensures failure.Some? ==> StringEnd(src, old(loc)) == None && failure.value == UnfinishedEscapeSequence
    {
      while loc < |src|
        invariant Valid() && StringEnd(src, loc) == StringEnd(src, old(loc))
        decreases |src| - loc
      {
        var c := Advance();
        if c == Ok(QUOTE) {
          return None;
        }
        if c == Ok(BACKSLASH) {
          if loc < |src| {
            var _ := Advance();
          } else {
            return Some(UnfinishedEscapeSequence);
          }
        }
      }
      failure := None;
    }

    // A quoted string or a plain token.
    method SkipSymbol() returns (failure: Option<ParserError>)
      requires Valid() && loc < |src| && !EndsToken(src[loc])
      modifies this`loc
      ensures Valid()
      ensures var j := SymbolEnd(src, old(loc));
              if failure.None? then j == Some(loc) else failure.value == UnfinishedEscapeSequence && j == None
    {
      if src[loc] == QUOTE {
        var _ := Advance();
        failure := SkipString();
      } else {
        TokenStart(src, loc);
        SkipToken();
        failure := None;
      }
    }
  }

  class Target {
    var out: seq<byte>

    constructor (out: seq<byte>)
      ensures this.out == out
    {
      this.out := out;
    }
  }

  // Why parsing fails: the reader fails, or the terms do not fit the format.
  ghost predicate Explains(e: ParserError, r: Result<(Terms<Name>, nat), ParserError>, vars: seq<Name>) {
    && (e.TooManyVars? && r.Ok? ==> |Assigned(r.value.0, vars)| > MAX_VARS)
    && (e.AssertionFailed? && r.Ok? ==> !WF(Number(r.value.0, vars)))
    && (!e.TooManyVars? && !e.AssertionFailed? ==> r == Err(e))
  }

  ghost function ReadOne(tok: Name -> Symbol, src: seq<byte>, i: nat): Result<(Terms<Name>, nat), ParserError>
    requires i <= |src|
  {
    var r := Read(tok, src, i);
    if r.Err? then Err(r.error) else Ok((One(r.value.0), r.value.1))
  }

  // The bytes and the variables after `ts` have been parsed.
  ghost predicate Parsed(ts: Terms<Name>, vars0: seq<Name>, out0: seq<byte>, vars: seq<Name>, out: seq<byte>) {
    WF(Number(ts, vars0)) && vars == Assigned(ts, vars0) && out == out0 + Enc(Number(ts, vars0))
  }

  // `sexpr`: succeeds exactly when the reader finds an expression that fits, and then appends its
  // encoding, with names as levels.
  method Sexpr(tok: Name -> Symbol, it: Context, target: Target) returns (failure: Option<ParserError>)
    requires it.Valid()
    modifies it, target
    ensures it.Valid()
    ensures failure.None? ==>
      var r := ReadOne(tok, it.src, old(it.loc));
      r.Ok? && it.loc == r.value.1 && Parsed(r.value.0, old(it.variables), old(target.out), it.variables, target.out)
    ensures failure.Some? ==> Explains(failure.value, ReadOne(tok, it.src, old(it.loc)), old(it.variables))
    decreases |it.src| - it.loc, 0
  {
    hide TokenEnd, SymbolEnd, CommentEnd, Enc, Explains, Parsed, Number, Assigned, WF, Distinct, IndexOf, ReadList;
    ghost var vars, out := it.variables, target.out;
    while it.loc < |it.src|
      invariant it.Valid() && it.loc >= old(it.loc)
      invariant Read(tok, it.src, it.loc) == Read(tok, it.src, old(it.loc))
      invariant it.variables == vars && target.out == out
      decreases |it.src| - it.loc
    {
      var c := it.src[it.loc];
      var start := it.loc;
      if c == SEMICOLON {
        CommentStart(it.src, it.loc);
        it.SkipComment();
      } else if IsWhitespace(c) {
        var _ := it.Advance();
      } else if c == DOLLAR {
        failure := Variable(it, target);
        if failure.Some? {
          ExplainsName(it.src[start..it.loc], vars, it.loc);
        }
        return;
      } else if c == OPEN {
        target.out := target.out + [ItemByte(Arity(0))];
        var _ := it.Advance();
        failure := List(tok, it, target, |target.out| - 1);
        return;
      } else if c == CLOSE {
        ExplainsError(UnexpectedRightBracket, vars);
        return Some(UnexpectedRightBracket);
      } else {
        failure := it.SkipSymbol();
        if failure.Some? {
          ExplainsError(UnfinishedEscapeSequence, vars);
          return;
        }
        var e := tok(it.src[start..it.loc]);
        if !(0 < |e| < 64) {
          ExplainsSymbol(e, vars, it.loc);
          return Some(AssertionFailed);
        }
        ParsedSymbol(e, vars, out);
        target.out := target.out + ([ItemByte(SymbolSize(|e|))] + e);
        return None;
      }
    }
    ExplainsError(InputFinished, vars);
    failure := Some(InputFinished);
  }

  // A name, as its level.
  method Variable(it: Context, target: Target) returns (failure: Option<ParserError>)
    requires it.Valid() && it.loc < |it.src| && it.src[it.loc] == DOLLAR
    modifies it, target
    ensures it.Valid() && it.loc == TokenEnd(it.src, old(it.loc) + 1)
    ensures var name := it.src[old(it.loc)..it.loc];
            if failure.None? then Parsed(One(Var(name)), old(it.variables), old(target.out), it.variables, target.out)
            else failure.value == TooManyVars && name !in old(it.variables) && |old(it.variables)| == MAX_VARS
  {
    hide TokenEnd, Enc, Parsed, Number, Assigned, WF;
    var start := it.loc;
    TokenStart(it.src, it.loc);
    it.SkipToken();
    var name := it.src[start..it.loc];
    ParsedName(name, it.variables, target.out);
    var level := it.GetOrPut(name);
    if level.Err? {
      return Some(level.error);
    }
    target.out := target.out + [ItemByte(if level.value.None? then NewVar else VarRef(level.value.value))];
    failure := None;
  }

  // The loop over the elements of a list: the arity byte at `arityLoc` counts them.
  method List(tok: Name -> Symbol, it: Context, target: Target, arityLoc: nat) returns (failure: Option<ParserError>)
    requires it.Valid() && 0 < it.loc && arityLoc + 1 == |target.out| && target.out[arityLoc] == ItemByte(Arity(0))
    modifies it, target
    ensures it.Valid()
    ensures failure.None? ==>
      var r := ReadList(tok, it.src, old(it.loc));
      r.Ok? && it.loc == r.value.1 && Parsed(One(App(r.value.0)), old(it.variables), old(target.out[..arityLoc]), it.variables, target.out)
    ensures failure.Some? ==> Explains(failure.value, InList(ReadList(tok, it.src, old(it.loc))), old(it.variables))
    decreases |it.src| - it.loc, 1
  {
    hide Enc, Explains, Parsed;
    ghost var vars, out0, done: Terms<Name> := it.variables, target.out[..arityLoc], Nil;
    ghost var whole := ReadList(tok, it.src, it.loc);
    ListStart(vars, out0, target.out, whole);
    while true
      invariant it.Valid() && it.loc >= old(it.loc)
      invariant arityLoc == |out0| < |target.out| && Len(done) < 64 && target.out[arityLoc] == ItemByte(Arity(Len(done)))
      invariant InProgress(done, vars, out0, it.variables, target.out)
      invariant Continues(whole, done, ReadList(tok, it.src, it.loc))
      decreases |it.src| - it.loc
    {
      var c := it.Peek();
      if c.Err? {
        ExplainsError(UnexpectedEOF, vars);
        return Some(UnexpectedEOF);
      }
      if c.value == CLOSE {
        var _ := it.Advance();
        ListEnd(done, vars, out0, it.variables, target.out);
        return None;
      }
      if IsWhitespace(c.value) {
        var _ := it.Advance();
      } else {
        ghost var from, vars1, out1 := it.loc, it.variables, target.out;
        failure := Sexpr(tok, it, target);
        ghost var r, l := ReadOne(tok, it.src, from), ReadList(tok, it.src, from);
        if failure.Some? {
          ExplainsWhole(failure.value, r, l, done, vars, vars1, out0, out1, whole);
          return;
        }
        ElementParsed(r.value.0.head, done, vars, out0, vars1, out1, it.variables, target.out);
        ContinuesOn(r.value.0.head, l, ReadList(tok, it.src, it.loc), done, whole);
        ItemByteRoundTrip(target.out[arityLoc]);
        var tag := MaybeByteItem(target.out[arityLoc]);
        if tag.value.a + 1 >= 64 {
          ExplainsLong(r.value.0.head, l, done, vars, whole);
          return Some(AssertionFailed);
        }
        LenAppend(done, r.value.0);
        target.out := target.out[arityLoc := ItemByte(Arity(tag.value.a + 1))];
        done := Append(done, r.value.0);
      }
    }
  }

  ghost function InList(r: Result<(Terms<Name>, nat), ParserError>): Result<(Terms<Name>, nat), ParserError> {
    if r.Err? then r else Ok((One(App(r.value.0)), r.value.1))
  }

  // Part of a list has been parsed; the arity byte counts the elements so far.
  ghost predicate InProgress(done: Terms<Name>, vars0: seq<Name>, out0: seq<byte>, vars: seq<Name>, out: seq<byte>) {
    && Len(done) < 64 && WF(Number(done, vars0)) && vars == Assigned(done, vars0)
    && out == out0 + [ItemByte(Arity(Len(done)))] + Enc(Number(done, vars0))
  }

  // The whole list is what has been read and what is still to be read.
  ghost predicate Continues(whole: Result<(Terms<Name>, nat), ParserError>, done: Terms<Name>,
                            rest: Result<(Terms<Name>, nat), ParserError>) {
    match rest
    case Ok(r) => whole == Ok((Append(done, r.0), r.1))
    case Err(e) => whole == Err(e)
  }

  lemma CommentStart(src: seq<byte>, i: nat)
    requires i < |src| && src[i] == SEMICOLON
    ensures CommentEnd(src, i) == CommentEnd(src, i + 1) > i
  {
  }

  lemma TokenStart(src: seq<byte>, i: nat)
    requires i < |src| && !EndsToken(src[i])
    ensures TokenEnd(src, i) == TokenEnd(src, i + 1) > i
  {
  }

  lemma ParsedName(name: Name, vars: seq<Name>, out: seq<byte>)
    requires |vars| <= MAX_VARS
    ensures name in vars ==> Parsed(One(Var(name)), vars, out, vars, out + [ItemByte(VarRef(IndexOf(vars, name)))])
    ensures name !in vars ==> Parsed(One(Var(name)), vars, out, vars + [name], out + [ItemByte(NewVar)])
  {
    RenderVar(name, Output(out, vars));
  }

  lemma ParsedSymbol(e: Symbol, vars: seq<Name>, out: seq<byte>)
    requires 0 < |e| < 64
    ensures Parsed(One(Sym(e)), vars, out, vars, out + ([ItemByte(SymbolSize(|e|))] + e))
  {
    RenderSym(e, Output(out, vars));
  }

  lemma ListStart(vars: seq<Name>, out0: seq<byte>, out: seq<byte>, whole: Result<(Terms<Name>, nat), ParserError>)
    requires out == out0 + [ItemByte(Arity(0))]
    ensures InProgress(Nil, vars, out0, vars, out) && Continues(whole, Nil, whole) && Len<Name>(Nil) == 0
  {
    NumberNil(vars);
    EncNil();
    assert out + [] == out;
  }

  lemma ListEnd(done: Terms<Name>, vars0: seq<Name>, out0: seq<byte>, vars: seq<Name>, out: seq<byte>)
    requires InProgress(done, vars0, out0, vars, out)
    ensures Parsed(One(App(done)), vars0, out0, vars, out) && Append(done, Nil) == done
  {
    hide Enc, WF, Number;
    AppendNil(done);
    RenderApp(done, Nil, Output(out0, vars0));
  }

  lemma ElementParsed(t: Named, done: Terms<Name>, vars0: seq<Name>, out0: seq<byte>, vars1: seq<Name>, out1: seq<byte>,
                      vars: seq<Name>, out: seq<byte>)
    requires InProgress(done, vars0, out0, vars1, out1) && Parsed(One(t), vars1, out1, vars, out)
    ensures |out0| < |out| && out[|out0|] == ItemByte(Arity(Len(done)))
    ensures Len(done) + 1 < 64 ==>
      InProgress(Append(done, One(t)), vars0, out0, vars, out[|out0| := ItemByte(Arity(Len(done) + 1))])
  {
    hide Enc, WF, Number, Assigned, Append, Len;
    NumberAppend(done, One(t), vars0);
    var x, y := Number(done, vars0), Number(One(t), vars1);
    WFAppend(x, y);
    EncAppend(x, y);
    LenAppend(done, One(t));
    LenSingle(t);
    if Len(done) + 1 < 64 {
      var a := [ItemByte(Arity(Len(done) + 1))];
      assert out[|out0| := a[0]] == out0 + a + (Enc(x) + Enc(y));
    }
  }

  lemma LenSingle<X>(t: Term<X>)
    ensures Len(One(t)) == 1
  {
  }

  lemma ContinuesOn(t: Named, l: Result<(Terms<Name>, nat), ParserError>, rest: Result<(Terms<Name>, nat), ParserError>,
                    done: Terms<Name>, whole: Result<(Terms<Name>, nat), ParserError>)
    requires Continues(whole, done, l) && Continues(l, One(t), rest)
    ensures Continues(whole, Append(done, One(t)), rest)
  {
    if rest.Ok? {
      AppendAssoc(done, One(t), rest.value.0);
    }
  }

  lemma ExplainsError(e: ParserError, vars: seq<Name>)
    requires !e.TooManyVars? && !e.AssertionFailed?
    ensures Explains(e, Err(e), vars)
  {
  }

  lemma ExplainsName(name: Name, vars: seq<Name>, j: nat)
    requires name !in vars && |vars| == MAX_VARS
    ensures Explains(TooManyVars, Ok((One(Var(name)), j)), vars)
  {
  }

  lemma ExplainsSymbol(e: Symbol, vars: seq<Name>, j: nat)
    requires !(0 < |e| < 64)
    ensures Explains(AssertionFailed, Ok((One(Sym(e)), j)), vars)
  {
  }

  // A failure in an element is a failure of the list.
  lemma ExplainsWhole(e: ParserError, r: Result<(Terms<Name>, nat), ParserError>, l: Result<(Terms<Name>, nat), ParserError>,
                      done: Terms<Name>, vars0: seq<Name>, vars1: seq<Name>, out0: seq<byte>, out1: seq<byte>,
                      whole: Result<(Terms<Name>, nat), ParserError>)
    requires Explains(e, r, vars1) && InProgress(done, vars0, out0, vars1, out1) && Distinct(vars0)
    requires Continues(whole, done, l)
    requires if r.Err? then l == Err(r.error) else l.Ok? ==> r.value.0.Cons? && r.value.0.tail == Nil && l.value.0.Cons? && l.value.0.head == r.value.0.head
    ensures Explains(e, InList(whole), vars0)
  {
    hide Enc;
    if whole.Ok? {
      var ts, tl := l.value.0, l.value.0.tail;
      NumberAppend(done, ts, vars0);
      AssignedGrows(done, vars0);
      NumberAppend(One(ts.head), tl, vars1);
      assert ts == Append(One(ts.head), tl);
      AssignedGrows(One(ts.head), vars1);
      AssignedGrows(tl, Assigned(One(ts.head), vars1));
      WFAppend(Number(done, vars0), Number(ts, vars1));
      WFAppend(Number(One(ts.head), vars1), Number(tl, Assigned(One(ts.head), vars1)));
      InListNumber(whole.value.0, vars0);
    }
  }

  lemma InListNumber(ts: Terms<Name>, vars: seq<Name>)
    ensures Number(One(App(ts)), vars) == One(App(Number(ts, vars))) && Assigned(One(App(ts)), vars) == Assigned(ts, vars)
    ensures WF(Number(One(App(ts)), vars)) <==> Len(ts) < 64 && WF(Number(ts, vars))
  {
    NumberLen(ts, vars);
    NumberNil(Assigned(ts, vars));
    assert Number(One(App(ts)), vars) == One(App(Number(ts, vars)));
  }

  lemma ExplainsLong(t: Named, l: Result<(Terms<Name>, nat), ParserError>, done: Terms<Name>, vars0: seq<Name>,
                     whole: Result<(Terms<Name>, nat), ParserError>)
    requires Len(done) + 1 >= 64 && Continues(whole, done, l) && (l.Ok? ==> l.value.0.Cons?)
    ensures Explains(AssertionFailed, InList(whole), vars0)
  {
    if whole.Ok? {
      LenAppend(done, l.value.0);
      InListNumber(whole.value.0, vars0);
    }
  }

  // What is appended is one closed expression: every `$` is a new entry of `variables`, and two
  // occurrences have the same level exactly when they have the same name.
  lemma ParsedMeans(t: Named, vars0: seq<Name>, out0: seq<byte>, vars: seq<Name>, out: seq<byte>, n: nat)
    requires Parsed(One(t), vars0, out0, vars, out) && Distinct(vars0)
    ensures var e := Number(One(t), vars0).head;
            && WF(One(e)) && out == out0 + Enc(One(e))
            && ClosedFrom(One(e), |vars0|) && vars0 <= vars && |vars| == |vars0| + NewVars(One(e))
            && Abs1(e, n, |vars0|) == Subst1(Levels(vars, n), t)
    ensures forall x, y | Occurs(x, One(t)) && Occurs(y, One(t)) :: Levels(vars, n)(x) == Levels(vars, n)(y) <==> x == y
  {
    hide WF, Enc;
    NumberLen(One(t), vars0);
    LenOne(Number(One(t), vars0));
    NumberDenotes(One(t), vars0, n);
    AssignedGrows(One(t), vars0);
    AbsCons(Number(One(t), vars0).head, Nil, n, |vars0|);
    assert Subst(Levels(vars, n), One(t)).head == Subst1(Levels(vars, n), t);
  }
}
