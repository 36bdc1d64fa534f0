/** The JSON parser: a stack machine that drives a transcriber, and the value it replays
    (RFC 8259, sections 3 to 5). */
module JsonParsing {
  import opened Items
  import opened Wrappers
  import opened JsonLexing
  import opened JsonLexers

  const DEPTH_LIMIT: nat := 512

  datatype Json =
    | Null
    | True
    | False
    | Text(s: Bytes)
    | Number(negative: bool, mantissa: nat, exponent: int)
    | Array(elems: Elems)
    | Object(fields: Fields)
  datatype Elems = NoElems | Elem(head: Json, tail: Elems)
  datatype Fields = NoFields | Field(key: Bytes, value: Json, rest: Fields)

  // The calls on a transcriber.
  datatype Event =
    | Begin
    | End
    | DescendIndex(i: nat, first: bool)
    | AscendIndex(i: nat, last: bool)
    | EmptyArray
    | DescendKey(key: Bytes, first: bool)
    | AscendKey(key: Bytes, last: bool)
    | EmptyObject
    | String(s: Bytes)
    | Num(negative: bool, mantissa: nat, exponent: int)
    | Constant(value: Json)

  /* ---- The events of a value ---- */

  function Events(v: Json): seq<Event>
    decreases v, 0
  {
    match v
    case Text(s) => [String(s)]
    case Number(negative, m, e) => [Num(negative, m, e)]
    case Array(NoElems) => [EmptyArray]
    case Array(Elem(x, tl)) => [DescendIndex(0, true)] + Events(x) + ElemEvents(0, tl)
    case Object(NoFields) => [EmptyObject]
    case Object(Field(k, x, tl)) => [DescendKey(k, true)] + Events(x) + FieldEvents(k, tl)
    case _ => [Constant(v)]
  }

  // After element `i` of an array, with `tl` to come.
  function ElemEvents(i: nat, tl: Elems): seq<Event>
    decreases tl
  {
    match tl
    case NoElems => [AscendIndex(i, true)]
    case Elem(x, more) => [AscendIndex(i, false), DescendIndex(i + 1, false)] + Events(x) + ElemEvents(i + 1, more)
  }

  function FieldEvents(k: Bytes, tl: Fields): seq<Event>
    decreases tl
  {
    match tl
    case NoFields => [AscendKey(k, true)]
    case Field(k', x, more) => [AscendKey(k, false), DescendKey(k', false)] + Events(x) + FieldEvents(k', more)
  }

  /* ---- Reading a value ---- */

  // The value whose first byte `ch` has been read, inside `d` arrays and objects.
  function ReadValue(src: Bytes, i: nat, ch: byte, d: nat): (r: Read<Json>)
    requires 0 < i <= |src|
    ensures r.Ok? ==> i <= r.value.1 <= |src|
    decreases |src| - i, 0
  {
    if ch == OPEN_ARRAY then
      var n := NextItem(src, i);
      if n.Err? then Err(n.error)
      else if n.value.0 == CLOSE_ARRAY then Ok((Array(NoElems), n.value.1))
      else if d == DEPTH_LIMIT then Err(ExceededDepthLimit)
      else ReadArray(src, n.value.1, n.value.0, d + 1)
    else if ch == OPEN_OBJECT then
      var n := NextItem(src, i);
      if n.Err? then Err(n.error)
      else if n.value.0 == CLOSE_OBJECT then Ok((Object(NoFields), n.value.1))
      else if d == DEPTH_LIMIT then Err(ExceededDepthLimit)
      else if n.value.0 != QUOTE then Err(UnexpectedCharacter(n.value.1 - 1))
      else ReadObject(src, n.value.1, d + 1)
    else ReadScalar(src, i, ch)
  }

  function ReadScalar(src: Bytes, i: nat, ch: byte): (r: Read<Json>)
    requires 0 < i <= |src|
    ensures r.Ok? ==> i <= r.value.1 <= |src|
  {
    if ch == QUOTE then
      var s := StringFrom(src, i, i);
      if s.Err? then Err(s.error) else Ok((Text(s.value.0), s.value.1))
    else if IsDigit(ch) then
      var x := Unsigned(src, i, ch);
      if x.Err? then Err(x.error) else Ok((Number(false, x.value.0.mantissa, x.value.0.exponent), x.value.1))
    else if ch == MINUS then
      if i == |src| then Err(UnexpectedEndOfJson) else
        var x := Unsigned(src, i + 1, src[i]);
        if x.Err? then Err(x.error) else Ok((Number(true, x.value.0.mantissa, x.value.0.exponent), x.value.1))
    else if ch == SMALL_T then Constants(Literal(src, i, TRUE_REST), True)
    else if ch == SMALL_F then Constants(Literal(src, i, FALSE_REST), False)
    else if ch == SMALL_N then Constants(Literal(src, i, NULL_REST), Null)
    else Err(UnexpectedCharacter(i - 1))
  }

  const SMALL_F: byte := 102
  const SMALL_N: byte := 110
  const SMALL_T: byte := 116
  const TRUE_REST: Bytes := [114, 117, 101]
  const FALSE_REST: Bytes := [97, 108, 115, 101]
  const NULL_REST: Bytes := [117, 108, 108]

  function Constants(r: Read<()>, v: Json): Read<Json> {
    if r.Err? then Err(r.error) else Ok((v, r.value.1))
  }

  function ReadArray(src: Bytes, i: nat, ch: byte, d: nat): (r: Read<Json>)
    requires 0 < i <= |src|
    ensures r.Ok? ==> i <= r.value.1 <= |src|
    decreases |src| - i, 2
  {
    var x := ReadValue(src, i, ch, d);
    if x.Err? then x else
      var more := ReadElems(src, x.value.1, d);
      if more.Err? then Err(more.error) else Ok((Array(Elem(x.value.0, more.value.0)), more.value.1))
  }

  // After an element: the other elements up to the bracket.
  function ReadElems(src: Bytes, i: nat, d: nat): (r: Read<Elems>)
    requires i <= |src|
    ensures r.Ok? ==> i < r.value.1 <= |src|
    decreases |src| - i, 1
  {
    var n := NextItem(src, i);
    if n.Err? then Err(n.error)
    else if n.value.0 == CLOSE_ARRAY then Ok((NoElems, n.value.1))
    else if n.value.0 != COMMA then Err(UnexpectedCharacter(n.value.1 - 1))
    else
      var m := NextItem(src, n.value.1);
      if m.Err? then Err(m.error) else
        var x := ReadValue(src, m.value.1, m.value.0, d);
        if x.Err? then Err(x.error) else
          var more := ReadElems(src, x.value.1, d);
          if more.Err? then Err(more.error) else Ok((Elem(x.value.0, more.value.0), more.value.1))
  }

  // A key after its opening quote, the colon, and the first byte of the value.
  function ReadKey(src: Bytes, i: nat): (r: Read<(Bytes, byte)>)
    requires i <= |src|
    ensures r.Ok? ==> i < r.value.1 <= |src|
  {
    var k := StringFrom(src, i, i);
    if k.Err? then Err(k.error) else
      var c := NextItem(src, k.value.1);
      if c.Err? then Err(c.error)
      else if c.value.0 != COLON then Err(UnexpectedCharacter(c.value.1 - 1))
      else
        var n := NextItem(src, c.value.1);
        if n.Err? then Err(n.error) else Ok(((k.value.0, n.value.0), n.value.1))
  }

  function ReadObject(src: Bytes, i: nat, d: nat): (r: Read<Json>)
    requires i <= |src|
    ensures r.Ok? ==> i <= r.value.1 <= |src|
    decreases |src| - i, 2
  {
    var k := ReadKey(src, i);
    if k.Err? then Err(k.error) else
      var x := ReadValue(src, k.value.1, k.value.0.1, d);
      if x.Err? then x else
        var more := ReadFields(src, x.value.1, d);
        if more.Err? then Err(more.error) else Ok((Object(Field(k.value.0.0, x.value.0, more.value.0)), more.value.1))
  }

  function ReadFields(src: Bytes, i: nat, d: nat): (r: Read<Fields>)
    requires i <= |src|
    ensures r.Ok? ==> i < r.value.1 <= |src|
    decreases |src| - i, 1
  {
    var n := NextItem(src, i);
    if n.Err? then Err(n.error)
    else if n.value.0 == CLOSE_OBJECT then Ok((NoFields, n.value.1))
    else if n.value.0 != COMMA then Err(UnexpectedCharacter(n.value.1 - 1))
    else
      var q := NextItem(src, n.value.1);
      if q.Err? then Err(q.error)
      else if q.value.0 != QUOTE then Err(UnexpectedCharacter(q.value.1 - 1))
      else
        var k := ReadKey(src, q.value.1);
        if k.Err? then Err(k.error) else
          var x := ReadValue(src, k.value.1, k.value.0.1, d);
          if x.Err? then Err(x.error) else
            var more := ReadFields(src, x.value.1, d);
            if more.Err? then Err(more.error) else Ok((Field(k.value.0.0, x.value.0, more.value.0), more.value.1))
  }

  // A whole text: one value and white space.
  function ReadJson(src: Bytes, i: nat): Result<Json, Error>
    requires i <= |src|
  {
    var n := NextItem(src, i);
    if n.Err? then Err(n.error) else
      var x := ReadValue(src, n.value.1, n.value.0, 0);
      if x.Err? then Err(x.error)
      else if OnlySpace(src, x.value.1).Some? then Err(OnlySpace(src, x.value.1).value)
      else Ok(x.value.0)
  }

  /* ---- The stack machine ---- */

  datatype Block = Index(i: nat) | Key(key: Bytes)

  type Replay = Result<seq<Event>, Error>

  // A transcriber, by the calls made on it.
  class Transcript {
    var events: seq<Event>

    constructor ()
      ensures events == []
    {
      events := [];
    }
  }

  ghost function Then(es: seq<Event>, r: Replay): Replay {
    if r.Err? then r else Ok(es + r.value)
  }

  lemma ThenThen(es: seq<Event>, fs: seq<Event>, r: Replay)
    ensures Then(es, Then(fs, r)) == Then(es + fs, r)
  {
    if r.Ok? {
      assert es + (fs + r.value) == es + fs + r.value;
    }
  }

  // What is still to be replayed once a value that ends at `i` is complete.
  ghost function Finish(src: Bytes, i: nat, stack: seq<Block>): Replay
    requires i <= |src|
    decreases |stack|
  {
    if stack == [] then
      if OnlySpace(src, i).Some? then Err(OnlySpace(src, i).value) else Ok([End])
    else
      var top := |stack| - 1;
      match stack[top]
      case Index(k) =>
        var more := ReadElems(src, i, |stack|);
        if more.Err? then Err(more.error) else Then(ElemEvents(k, more.value.0), Finish(src, more.value.1, stack[..top]))
      case Key(k) =>
        var more := ReadFields(src, i, |stack|);
        if more.Err? then Err(more.error) else Then(FieldEvents(k, more.value.0), Finish(src, more.value.1, stack[..top]))
  }

  // The same when the first byte of a value has been read.
  ghost function Upcoming(src: Bytes, i: nat, ch: byte, stack: seq<Block>): Replay
    requires 0 < i <= |src|
  {
    Afterwards(src, ReadValue(src, i, ch, |stack|), stack)
  }

  ghost function Afterwards(src: Bytes, x: Read<Json>, stack: seq<Block>): Replay
    requires x.Ok? ==> x.value.1 <= |src|
  {
    if x.Err? then Err(x.error) else Then(Events(x.value.0), Finish(src, x.value.1, stack))
  }

  lemma FinishElems(src: Bytes, i: nat, stack: seq<Block>, k: nat)
    requires i <= |src|
    ensures Finish(src, i, stack + [Index(k)])
         == (var more := ReadElems(src, i, |stack| + 1);
             if more.Err? then Err(more.error) else Then(ElemEvents(k, more.value.0), Finish(src, more.value.1, stack)))
  {
    hide ReadElems, ReadFields, OnlySpace, ElemEvents;
    assert (stack + [Index(k)])[..|stack|] == stack;
  }

  lemma FinishFields(src: Bytes, i: nat, stack: seq<Block>, k: Bytes)
    requires i <= |src|
    ensures Finish(src, i, stack + [Key(k)])
         == (var more := ReadFields(src, i, |stack| + 1);
             if more.Err? then Err(more.error) else Then(FieldEvents(k, more.value.0), Finish(src, more.value.1, stack)))
  {
    hide ReadElems, ReadFields, OnlySpace, FieldEvents;
    assert (stack + [Key(k)])[..|stack|] == stack;
  }

  // Three stretches of events, the last two of them first.
  lemma ThenAll(es: seq<Event>, fs: seq<Event>, gs: seq<Event>, r: Replay)
    ensures Then(es, Then(fs, Then(gs, r))) == Then(es + fs + gs, r)
  {
    ThenThen(fs, gs, r);
    ThenThen(es, fs + gs, r);
    assert es + (fs + gs) == es + fs + gs;
  }

  // An array opens a level.
  lemma OpenArray(src: Bytes, i: nat, stack: seq<Block>)
    requires 0 < i <= |src|
    ensures var n, all := NextItem(src, i), Upcoming(src, i, OPEN_ARRAY, stack);
            && (n.Err? ==> all == Err(n.error))
            && (n.Ok? ==> if n.value.0 == CLOSE_ARRAY then all == Then([EmptyArray], Finish(src, n.value.1, stack))
                          else if |stack| == DEPTH_LIMIT then all == Err(ExceededDepthLimit)
                          else all == Then([DescendIndex(0, true)], Upcoming(src, n.value.1, n.value.0, stack + [Index(0)])))
  {
    hide StringFrom, NextItem, OnlySpace, ReadElems, ReadScalar;
    var n := NextItem(src, i);
    if n.Ok? && n.value.0 != CLOSE_ARRAY && |stack| != DEPTH_LIMIT {
      var x := ReadValue(src, n.value.1, n.value.0, |stack| + 1);
      OpenLevel(src, x, stack);
      assert ReadValue(src, i, OPEN_ARRAY, |stack|) == ReadArray(src, n.value.1, n.value.0, |stack| + 1);
      assert Upcoming(src, n.value.1, n.value.0, stack + [Index(0)]) == Afterwards(src, x, stack + [Index(0)]);
    }
  }

  lemma OpenLevel(src: Bytes, x: Read<Json>, stack: seq<Block>)
    requires x.Ok? ==> x.value.1 <= |src|
    ensures Then([DescendIndex(0, true)], Afterwards(src, x, stack + [Index(0)]))
         == if x.Err? then Err(x.error) else
              var more := ReadElems(src, x.value.1, |stack| + 1);
              if more.Err? then Err(more.error)
              else Then(Events(Array(Elem(x.value.0, more.value.0))), Finish(src, more.value.1, stack))
  {
    hide ReadElems, OnlySpace, ReadFields, Finish;
    if x.Ok? {
      FinishElems(src, x.value.1, stack, 0);
      var more := ReadElems(src, x.value.1, |stack| + 1);
      if more.Ok? {
        ThenAll([DescendIndex(0, true)], Events(x.value.0), ElemEvents(0, more.value.0), Finish(src, more.value.1, stack));
      }
    }
  }

  // An object opens a level.
  lemma OpenObject(src: Bytes, i: nat, stack: seq<Block>)
    requires 0 < i <= |src|
    ensures var n, all := NextItem(src, i), Upcoming(src, i, OPEN_OBJECT, stack);
            && (n.Err? ==> all == Err(n.error))
            && (n.Ok? ==> if n.value.0 == CLOSE_OBJECT then all == Then([EmptyObject], Finish(src, n.value.1, stack))
                          else if |stack| == DEPTH_LIMIT then all == Err(ExceededDepthLimit)
                          else if n.value.0 != QUOTE then all == Err(UnexpectedCharacter(n.value.1 - 1))
                          else var k := ReadKey(src, n.value.1);
                               if k.Err? then all == Err(k.error)
                               else all == Then([DescendKey(k.value.0.0, true)],
                                                Upcoming(src, k.value.1, k.value.0.1, stack + [Key(k.value.0.0)])))
  {
    hide StringFrom, NextItem, OnlySpace, ReadFields, ReadScalar, ReadKey;
    var n := NextItem(src, i);
    if n.Ok? && n.value.0 != CLOSE_OBJECT && |stack| != DEPTH_LIMIT && n.value.0 == QUOTE {
      var k := ReadKey(src, n.value.1);
      assert ReadValue(src, i, OPEN_OBJECT, |stack|) == ReadObject(src, n.value.1, |stack| + 1);
      if k.Ok? {
        var key := Key(k.value.0.0);
        var x := ReadValue(src, k.value.1, k.value.0.1, |stack| + 1);
        OpenKey(src, x, stack, k.value.0.0);
        assert Upcoming(src, k.value.1, k.value.0.1, stack + [key]) == Afterwards(src, x, stack + [key]);
      }
    }
  }

  lemma OpenKey(src: Bytes, x: Read<Json>, stack: seq<Block>, k: Bytes)
    requires x.Ok? ==> x.value.1 <= |src|
    ensures Then([DescendKey(k, true)], Afterwards(src, x, stack + [Key(k)]))
         == if x.Err? then Err(x.error) else
              var more := ReadFields(src, x.value.1, |stack| + 1);
              if more.Err? then Err(more.error)
              else Then(Events(Object(Field(k, x.value.0, more.value.0))), Finish(src, more.value.1, stack))
  {
    hide ReadElems, OnlySpace, ReadFields, Finish;
    if x.Ok? {
      FinishFields(src, x.value.1, stack, k);
      var more := ReadFields(src, x.value.1, |stack| + 1);
      if more.Ok? {
        ThenAll([DescendKey(k, true)], Events(x.value.0), FieldEvents(k, more.value.0), Finish(src, more.value.1, stack));
      }
    }
  }

  lemma ScalarDone(src: Bytes, i: nat, ch: byte, stack: seq<Block>)
    requires 0 < i <= |src| && ch != OPEN_ARRAY && ch != OPEN_OBJECT
    ensures Upcoming(src, i, ch, stack) == Afterwards(src, ReadScalar(src, i, ch), stack)
  {
  }

  // The next element of an array, or its end.
  lemma NextElem(src: Bytes, i: nat, below: seq<Block>, k: nat)
    requires i <= |src|
    ensures var n, all := NextItem(src, i), Finish(src, i, below + [Index(k)]);
            && (n.Err? ==> all == Err(n.error))
            && (n.Ok? ==> if n.value.0 == CLOSE_ARRAY then all == Then([AscendIndex(k, true)], Finish(src, n.value.1, below))
                          else if n.value.0 != COMMA then all == Err(UnexpectedCharacter(n.value.1 - 1))
                          else var m := NextItem(src, n.value.1);
                               if m.Err? then all == Err(m.error)
                               else all == Then([AscendIndex(k, false), DescendIndex(k + 1, false)],
                                                Upcoming(src, m.value.1, m.value.0, below + [Index(k + 1)])))
  {
    hide NextItem, OnlySpace, ReadValue, ReadFields, Finish, Then, Afterwards, Events;
    FinishElems(src, i, below, k);
    var n := NextItem(src, i);
    if n.Ok? && n.value.0 == COMMA && NextItem(src, n.value.1).Ok? {
      var m := NextItem(src, n.value.1).value;
      ElemLevel(src, ReadValue(src, m.1, m.0, |below| + 1), below, k);
    }
  }

  lemma ElemLevel(src: Bytes, x: Read<Json>, below: seq<Block>, k: nat)
    requires x.Ok? ==> x.value.1 <= |src|
    ensures Then([AscendIndex(k, false), DescendIndex(k + 1, false)], Afterwards(src, x, below + [Index(k + 1)]))
         == if x.Err? then Err(x.error) else
              var more := ReadElems(src, x.value.1, |below| + 1);
              if more.Err? then Err(more.error)
              else Then(ElemEvents(k, Elem(x.value.0, more.value.0)), Finish(src, more.value.1, below))
  {
    hide ReadElems, OnlySpace, ReadFields, Finish;
    if x.Ok? {
      FinishElems(src, x.value.1, below, k + 1);
      var more := ReadElems(src, x.value.1, |below| + 1);
      if more.Ok? {
        ThenAll([AscendIndex(k, false), DescendIndex(k + 1, false)], Events(x.value.0), ElemEvents(k + 1, more.value.0),
                Finish(src, more.value.1, below));
      }
    }
  }

  // The next key of an object, or its end.
  lemma NextField(src: Bytes, i: nat, below: seq<Block>, k: Bytes)
    requires i <= |src|
    ensures var n, all := NextItem(src, i), Finish(src, i, below + [Key(k)]);
            && (n.Err? ==> all == Err(n.error))
            && (n.Ok? ==> if n.value.0 == CLOSE_OBJECT then all == Then([AscendKey(k, true)], Finish(src, n.value.1, below))
                          else if n.value.0 != COMMA then all == Err(UnexpectedCharacter(n.value.1 - 1))
                          else var q := NextItem(src, n.value.1);
                               if q.Err? then all == Err(q.error)
                               else if q.value.0 != QUOTE then all == Err(UnexpectedCharacter(q.value.1 - 1))
                               else var m := ReadKey(src, q.value.1);
                                    if m.Err? then all == Err(m.error)
                                    else all == Then([AscendKey(k, false), DescendKey(m.value.0.0, false)],
                                                     Upcoming(src, m.value.1, m.value.0.1, below + [Key(m.value.0.0)])))
  {
    hide NextItem, OnlySpace, ReadValue, ReadElems, ReadKey, Finish, Then, Afterwards, Events;
    FinishFields(src, i, below, k);
    var n := NextItem(src, i);
    if n.Ok? && n.value.0 == COMMA && NextItem(src, n.value.1).Ok? {
      var q := NextItem(src, n.value.1).value;
      if q.0 == QUOTE && ReadKey(src, q.1).Ok? {
        var m := ReadKey(src, q.1).value;
        FieldLevel(src, ReadValue(src, m.1, m.0.1, |below| + 1), below, k, m.0.0);
      }
    }
  }

  lemma FieldLevel(src: Bytes, x: Read<Json>, below: seq<Block>, k: Bytes, k': Bytes)
    requires x.Ok? ==> x.value.1 <= |src|
    ensures Then([AscendKey(k, false), DescendKey(k', false)], Afterwards(src, x, below + [Key(k')]))
         == if x.Err? then Err(x.error) else
              var more := ReadFields(src, x.value.1, |below| + 1);
              if more.Err? then Err(more.error)
              else Then(FieldEvents(k, Field(k', x.value.0, more.value.0)), Finish(src, more.value.1, below))
  {
    hide ReadElems, OnlySpace, ReadFields, Finish;
    if x.Ok? {
      FinishFields(src, x.value.1, below, k');
      var more := ReadFields(src, x.value.1, |below| + 1);
      if more.Ok? {
        ThenAll([AscendKey(k, false), DescendKey(k', false)], Events(x.value.0), FieldEvents(k', more.value.0),
                Finish(src, more.value.1, below));
      }
    }
  }

  // The calls so far lead to the whole replay: what is still to come is `r`.
  ghost predicate Leads(goal: Replay, done: seq<Event>, r: Replay) {
    goal == Then(done, r)
  }

  lemma LeadsOn(goal: Replay, done: seq<Event>, es: seq<Event>, r: Replay)
    requires Leads(goal, done, Then(es, r))
    ensures Leads(goal, done + es, r)
  {
    ThenThen(done, es, r);
  }

  // `parse`: the transcriber gets exactly the events of the value that is read.
  method Parse(lexer: Lexer, t: Transcript) returns (failure: Option<Error>)
    requires lexer.Valid()
    modifies lexer, t
    ensures failure.None? ==>
      var v := ReadJson(lexer.source, old(lexer.index));
      v.Ok? && t.events == old(t.events) + [Begin] + Events(v.value) + [End]
    ensures failure.Some? ==> ReadJson(lexer.source, old(lexer.index)) == Err(failure.value)
  {
    hide ReadValue, NextItem, Events, OnlySpace, Leads, Upcoming, Finish;
    ghost var src, start := lexer.source, lexer.index;
    var first := lexer.ExpectItem();
    if first.Err? {
      return Some(first.error);
    }
    var ch := first.value;
    t.events := t.events + [Begin];
    var stack: seq<Block> := [];
    ghost var before := t.events;
    ghost var goal := Then(before, Upcoming(src, lexer.index, ch, stack));
    WholeReplay(src, start, before);
    LeadsAtOnce(before, Upcoming(src, lexer.index, ch, stack));
    while true
      invariant lexer.Valid() && 0 < lexer.index
      invariant Leads(goal, t.events, Upcoming(src, lexer.index, ch, stack))
      decreases |src| - lexer.index
    {
      var deeper;
      failure, deeper, ch, stack := Putting(lexer, t, ch, stack, goal);
      if failure.Some? {
        return;
      }
      if deeper {
        continue;
      }
      var next;
      failure, next, stack := Popping(lexer, t, stack, goal);
      if failure.Some? || next.None? {
        return;
      }
      ch := next.value;
    }
  }

  lemma LeadsAtOnce(done: seq<Event>, r: Replay)
    ensures Leads(Then(done, r), done, r)
  {
  }

  // The whole replay, by the value.
  lemma WholeReplay(src: Bytes, start: nat, done: seq<Event>)
    requires start <= |src| && NextItem(src, start).Ok?
    ensures var n := NextItem(src, start).value;
            var all, v := Then(done, Upcoming(src, n.1, n.0, [])), ReadJson(src, start);
            if v.Err? then all == Err(v.error) else all == Ok(done + Events(v.value) + [End])
  {
    var n := NextItem(src, start).value;
    hide NextItem, ReadValue, OnlySpace, Events;
    var x := ReadValue(src, n.1, n.0, 0);
    if x.Ok? {
      assert done + (Events(x.value.0) + [End]) == done + Events(x.value.0) + [End];
    }
  }

  lemma LeadsToError(goal: Replay, done: seq<Event>, e: Error)
    requires Leads(goal, done, Err(e))
    ensures goal == Err(e)
  {
  }

  lemma LeadsToEnd(goal: Replay, done: seq<Event>)
    requires Leads(goal, done, Ok([End]))
    ensures goal == Ok(done + [End])
  {
  }

  // A key, its colon and the first byte of its value.
  method ExpectKey(lexer: Lexer, t: Transcript, first: bool) returns (r: Result<(Bytes, byte), Error>)
    requires lexer.Valid()
    modifies lexer, t
    ensures lexer.Valid() && Did(r, ReadKey(lexer.source, old(lexer.index)), lexer.index)
    ensures r.Ok? ==> t.events == old(t.events) + [DescendKey(r.value.0, first)]
  {
    hide StringFrom, NextItem;
    var k := lexer.ExpectString();
    if k.Err? {
      return Err(k.error);
    }
    t.events := t.events + [DescendKey(k.value, first)];
    var c := lexer.ExpectItem();
    if c.Err? {
      return Err(c.error);
    }
    if c.value != COLON {
      return Err(UnexpectedCharacter(lexer.index - 1));
    }
    var ch := lexer.ExpectItem();
    if ch.Err? {
      return Err(ch.error);
    }
    r := Ok((k.value, ch.value));
  }

  // `'parsing`: a value that is complete at once, or the start of an array or an object.
  method Putting(lexer: Lexer, t: Transcript, ch: byte, stack: seq<Block>, ghost goal: Replay)
      returns (failure: Option<Error>, deeper: bool, ch': byte, stack': seq<Block>)
    requires lexer.Valid() && 0 < lexer.index
    requires Leads(goal, t.events, Upcoming(lexer.source, lexer.index, ch, stack))
    modifies lexer, t
    ensures lexer.Valid()
    ensures failure.Some? ==> goal == Err(failure.value)
    ensures failure.None? && deeper ==>
      lexer.index > old(lexer.index) && Leads(goal, t.events, Upcoming(lexer.source, lexer.index, ch', stack'))
    ensures failure.None? && !deeper ==>
      stack' == stack && lexer.index >= old(lexer.index) && Leads(goal, t.events, Finish(lexer.source, lexer.index, stack))
  {
    hide ReadValue, NextItem, Events, OnlySpace, Leads, Upcoming, Finish, Then, ReadKey, ReadScalar;
    ghost var src, i, done := lexer.source, lexer.index, t.events;
    failure, deeper, ch', stack' := None, false, ch, stack;
    if ch == OPEN_ARRAY {
      OpenArray(src, i, stack);
      var n := lexer.ExpectItem();
      if n.Err? {
        failure := Fail(n.error, goal, done);
      } else if n.value == CLOSE_ARRAY {
        LeadsOn(goal, done, [EmptyArray], Finish(src, lexer.index, stack));
        t.events := t.events + [EmptyArray];
      } else if |stack| == DEPTH_LIMIT {
        failure := Fail(ExceededDepthLimit, goal, done);
      } else {
        deeper, ch', stack' := true, n.value, stack + [Index(0)];
        LeadsOn(goal, done, [DescendIndex(0, true)], Upcoming(src, lexer.index, ch', stack'));
        t.events := t.events + [DescendIndex(0, true)];
      }
    } else if ch == OPEN_OBJECT {
      OpenObject(src, i, stack);
      var n := lexer.ExpectItem();
      if n.Err? {
        failure := Fail(n.error, goal, done);
      } else if n.value == CLOSE_OBJECT {
        LeadsOn(goal, done, [EmptyObject], Finish(src, lexer.index, stack));
        t.events := t.events + [EmptyObject];
      } else if |stack| == DEPTH_LIMIT {
        failure := Fail(ExceededDepthLimit, goal, done);
      } else if n.value != QUOTE {
        failure := Fail(UnexpectedCharacter(lexer.index - 1), goal, done);
      } else {
        var k := ExpectKey(lexer, t, true);
        if k.Err? {
          failure := Fail(k.error, goal, done);
        } else {
          deeper, ch', stack' := true, k.value.1, stack + [Key(k.value.0)];
          LeadsOn(goal, done, [DescendKey(k.value.0, true)], Upcoming(src, lexer.index, ch', stack'));
        }
      }
    } else {
      ScalarDone(src, i, ch, stack);
      ScalarLeads(src, ReadScalar(src, i, ch), stack, goal, done);
      failure := Scalar(lexer, t, ch);
    }
  }

  method Fail(e: Error, ghost goal: Replay, ghost done: seq<Event>) returns (failure: Option<Error>)
    requires Leads(goal, done, Err(e))
    ensures failure == Some(e) && goal == Err(e)
  {
    LeadsToError(goal, done, e);
    failure := Some(e);
  }

  lemma ScalarLeads(src: Bytes, x: Read<Json>, stack: seq<Block>, goal: Replay, done: seq<Event>)
    requires x.Ok? ==> x.value.1 <= |src|
    requires Leads(goal, done, Afterwards(src, x, stack))
    ensures x.Err? ==> goal == Err(x.error)
    ensures x.Ok? ==> Leads(goal, done + Events(x.value.0), Finish(src, x.value.1, stack))
  {
    hide Finish, Events;
    if x.Ok? {
      LeadsOn(goal, done, Events(x.value.0), Finish(src, x.value.1, stack));
    }
  }

  method Scalar(lexer: Lexer, t: Transcript, ch: byte) returns (failure: Option<Error>)
    requires lexer.Valid() && 0 < lexer.index && ch != OPEN_ARRAY && ch != OPEN_OBJECT
    modifies lexer, t
    ensures lexer.Valid()
    ensures match ReadScalar(lexer.source, old(lexer.index), ch)
            case Ok(v) => failure.None? && lexer.index == v.1 && t.events == old(t.events) + Events(v.0)
            case Err(e) => failure == Some(e)
  {
    hide StringFrom, Unsigned, Literal;
    failure := None;
    if ch == QUOTE {
      var s := lexer.ExpectString();
      if s.Err? {
        return Some(s.error);
      }
      t.events := t.events + [String(s.value)];
    } else if IsDigit(ch) {
      var x := lexer.ReadNumber(ch);
      if x.Err? {
        return Some(x.error);
      }
      t.events := t.events + [Num(false, x.value.mantissa, x.value.exponent)];
    } else if ch == MINUS {
      var first := lexer.ExpectByte();
      if first.Err? {
        return Some(first.error);
      }
      if !IsDigit(first.value) {
        NotADigit(lexer.source, lexer.index, first.value);
        return Some(UnexpectedCharacter(lexer.index - 1));
      }
      var x := lexer.ReadNumber(first.value);
      if x.Err? {
        return Some(x.error);
      }
      t.events := t.events + [Num(true, x.value.mantissa, x.value.exponent)];
    } else if ch == SMALL_T {
      failure := Word(lexer, t, TRUE_REST, True);
    } else if ch == SMALL_F {
      failure := Word(lexer, t, FALSE_REST, False);
    } else if ch == SMALL_N {
      failure := Word(lexer, t, NULL_REST, Null);
    } else {
      failure := Some(UnexpectedCharacter(lexer.index - 1));
    }
  }

  lemma NotADigit(src: Bytes, i: nat, ch: byte)
    requires 0 < i <= |src| && !IsDigit(ch)
    ensures Unsigned(src, i, ch) == Err(UnexpectedCharacter(i - 1))
  {
  }

  // One of the three constants, after its first letter.
  method Word(lexer: Lexer, t: Transcript, rest: Bytes, v: Json) returns (failure: Option<Error>)
    requires lexer.Valid() && (v.True? || v.False? || v.Null?)
    modifies lexer, t
    ensures lexer.Valid()
    ensures match Literal(lexer.source, old(lexer.index), rest)
            case Ok(w) => failure.None? && lexer.index == w.1 && t.events == old(t.events) + Events(v)
            case Err(e) => failure == Some(e)
  {
    hide Literal;
    var w := lexer.ExpectLiteral(rest);
    if w.Err? {
      return Some(w.error);
    }
    t.events := t.events + [Constant(v)];
    failure := None;
  }

  // `'popping`: on to the next element or key, or up through the levels that end here.
  method Popping(lexer: Lexer, t: Transcript, stack0: seq<Block>, ghost goal: Replay)
      returns (failure: Option<Error>, next: Option<byte>, stack: seq<Block>)
    requires lexer.Valid() && Leads(goal, t.events, Finish(lexer.source, lexer.index, stack0))
    modifies lexer, t
    ensures lexer.Valid()
    ensures failure.Some? ==> goal == Err(failure.value)
    ensures failure.None? && next.Some? ==>
      lexer.index > old(lexer.index) && Leads(goal, t.events, Upcoming(lexer.source, lexer.index, next.value, stack))
    ensures failure.None? && next.None? ==> goal == Ok(t.events)
  {
    hide ReadValue, NextItem, OnlySpace, Leads, Upcoming, Finish, Then, ReadKey;
    ghost var src := lexer.source;
    stack, next := stack0, None;
    while stack != []
      invariant lexer.Valid() && lexer.index >= old(lexer.index)
      invariant Leads(goal, t.events, Finish(src, lexer.index, stack))
      decreases |stack|
    {
      var top := |stack| - 1;
      ghost var i, done := lexer.index, t.events;
      match stack[top] {
        case Index(k) =>
          NextElem(src, i, stack[..top], k);
          assert stack == stack[..top] + [Index(k)];
          var n := lexer.ExpectItem();
          if n.Err? {
            failure := Fail(n.error, goal, done);
            return;
          }
          if n.value == COMMA {
            var m := lexer.ExpectItem();
            if m.Err? {
              failure := Fail(m.error, goal, done);
              return;
            }
            stack := stack[..top] + [Index(k + 1)];
            LeadsOn(goal, done, [AscendIndex(k, false), DescendIndex(k + 1, false)], Upcoming(src, lexer.index, m.value, stack));
            t.events := t.events + [AscendIndex(k, false), DescendIndex(k + 1, false)];
            return None, Some(m.value), stack;
          }
          if n.value != CLOSE_ARRAY {
            failure := Fail(UnexpectedCharacter(lexer.index - 1), goal, done);
            return;
          }
          LeadsOn(goal, done, [AscendIndex(k, true)], Finish(src, lexer.index, stack[..top]));
          t.events := t.events + [AscendIndex(k, true)];
        case Key(k) =>
          NextField(src, i, stack[..top], k);
          assert stack == stack[..top] + [Key(k)];
          var n := lexer.ExpectItem();
          if n.Err? {
            failure := Fail(n.error, goal, done);
            return;
          }
          if n.value == COMMA {
            t.events := t.events + [AscendKey(k, false)];
            var q := lexer.ExpectItem();
            if q.Err? {
              failure := Fail(q.error, goal, done);
              return;
            }
            if q.value != QUOTE {
              failure := Fail(UnexpectedCharacter(lexer.index - 1), goal, done);
              return;
            }
            var m := ExpectKey(lexer, t, false);
            if m.Err? {
              failure := Fail(m.error, goal, done);
              return;
            }
            stack := stack[..top] + [Key(m.value.0)];
            LeadsOn(goal, done, [AscendKey(k, false), DescendKey(m.value.0, false)], Upcoming(src, lexer.index, m.value.1, stack));
            assert t.events == done + [AscendKey(k, false), DescendKey(m.value.0, false)];
            return None, Some(m.value.1), stack;
          }
          if n.value != CLOSE_OBJECT {
            failure := Fail(UnexpectedCharacter(lexer.index - 1), goal, done);
            return;
          }
          LeadsOn(goal, done, [AscendKey(k, true)], Finish(src, lexer.index, stack[..top]));
          t.events := t.events + [AscendKey(k, true)];
      }
      stack := stack[..top];
    }
    FinishAll(src, lexer.index);
    failure := lexer.ExpectEof();
    if failure.Some? {
      LeadsToError(goal, t.events, failure.value);
      return;
    }
    LeadsToEnd(goal, t.events);
    t.events := t.events + [End];
  }

  lemma FinishAll(src: Bytes, i: nat)
    requires i <= |src|
    ensures Finish(src, i, []) == if OnlySpace(src, i).Some? then Err(OnlySpace(src, i).value) else Ok([End])
  {
  }

  /* ---- Depth ---- */

  // Levels of arrays and objects that are not empty.
  function Depth(v: Json): nat
    decreases v, 0
  {
    match v
    case Array(es) => if es.NoElems? then 0 else 1 + ElemDepth(es)
    case Object(fs) => if fs.NoFields? then 0 else 1 + FieldDepth(fs)
    case _ => 0
  }

  function ElemDepth(es: Elems): nat
    decreases es
  {
    match es
    case NoElems => 0
    case Elem(x, tl) => if Depth(x) > ElemDepth(tl) then Depth(x) else ElemDepth(tl)
  }

  function FieldDepth(fs: Fields): nat
    decreases fs
  {
    match fs
    case NoFields => 0
    case Field(_, x, tl) => if Depth(x) > FieldDepth(tl) then Depth(x) else FieldDepth(tl)
  }

  // No value deeper than the limit is ever accepted.
  lemma {:induction false} AcceptedDepth(src: Bytes, i: nat, ch: byte, d: nat)
    requires 0 < i <= |src| && d <= DEPTH_LIMIT
    ensures var v := ReadValue(src, i, ch, d); v.Ok? ==> d + Depth(v.value.0) <= DEPTH_LIMIT
    decreases |src| - i, 0
  {
    hide NextItem, StringFrom, Unsigned, Literal;
    if ch == OPEN_ARRAY {
      var n := NextItem(src, i);
      if n.Ok? && n.value.0 != CLOSE_ARRAY && d != DEPTH_LIMIT {
        AcceptedDepth(src, n.value.1, n.value.0, d + 1);
        var x := ReadValue(src, n.value.1, n.value.0, d + 1);
        if x.Ok? {
          AcceptedElems(src, x.value.1, d + 1);
        }
      }
    } else if ch == OPEN_OBJECT {
      var n := NextItem(src, i);
      if n.Ok? && n.value.0 == QUOTE && d != DEPTH_LIMIT && ReadKey(src, n.value.1).Ok? {
        var k := ReadKey(src, n.value.1).value;
        AcceptedDepth(src, k.1, k.0.1, d + 1);
        var x := ReadValue(src, k.1, k.0.1, d + 1);
        if x.Ok? {
          AcceptedFields(src, x.value.1, d + 1);
        }
      }
    }
  }

  lemma {:induction false} AcceptedElems(src: Bytes, i: nat, d: nat)
    requires i <= |src| && d <= DEPTH_LIMIT
    ensures var r := ReadElems(src, i, d); r.Ok? ==> d + ElemDepth(r.value.0) <= DEPTH_LIMIT
    decreases |src| - i, 1
  {
    hide ReadValue, NextItem;
    var n := NextItem(src, i);
    if n.Ok? && NextItem(src, n.value.1).Ok? {
      var m := NextItem(src, n.value.1).value;
      AcceptedDepth(src, m.1, m.0, d);
      var x := ReadValue(src, m.1, m.0, d);
      if x.Ok? {
        AcceptedElems(src, x.value.1, d);
      }
    }
  }

  lemma {:induction false} AcceptedFields(src: Bytes, i: nat, d: nat)
    requires i <= |src| && d <= DEPTH_LIMIT
    ensures var r := ReadFields(src, i, d); r.Ok? ==> d + FieldDepth(r.value.0) <= DEPTH_LIMIT
    decreases |src| - i, 1
  {
    hide ReadValue, NextItem, ReadKey;
    var n := NextItem(src, i);
    if n.Ok? && NextItem(src, n.value.1).Ok? && ReadKey(src, NextItem(src, n.value.1).value.1).Ok? {
      var k := ReadKey(src, NextItem(src, n.value.1).value.1).value;
      AcceptedDepth(src, k.1, k.0.1, d);
      var x := ReadValue(src, k.1, k.0.1, d);
      if x.Ok? {
        AcceptedFields(src, x.value.1, d);
      }
    }
  }
}
