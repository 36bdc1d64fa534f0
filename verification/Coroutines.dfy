/** `item_source` and `item_sink`: an expression as a stream of items, in both directions. */
module Coroutines {
  import opened Items
  import opened Slices
  import opened Terms
  import opened Encoding
  import opened Wrappers
  import opened Zippers

  datatype SourceItem = Item(tag: Tag) | Word(s: Symbol)

  function ItemOf(e: Expr): SourceItem {
    if e.Sym? then Word(e.s) else Item(HeadTag(e))
  }

  // The assertions of the sink: symbols go in as bytes, and fit the format.
  predicate ValidItem(i: SourceItem) {
    match i
    case Item(tag) => ValidTag(tag) && !tag.SymbolSize?
    case Word(s) => 0 < |s| < 64
  }

  function BytesOf(i: SourceItem): seq<byte>
    requires ValidItem(i)
  {
    match i
    case Item(tag) => [ItemByte(tag)]
    case Word(s) => [ItemByte(SymbolSize(|s|))] + s
  }

  // The arguments that an item calls for.
  function Opens(i: SourceItem): nat {
    if i.Item? && i.tag.Arity? then i.tag.a else 0
  }

  // The arguments still to come at the levels of the stack, besides one that is under way.
  function Open(stack: seq<nat>): int {
    if stack == [] then 0 else Open(stack[..|stack| - 1]) + stack[|stack| - 1] - 1
  }

  predicate Positive(stack: seq<nat>) {
    forall i | 0 <= i < |stack| :: stack[i] > 0
  }

  lemma OpenPush(stack: seq<nat>, a: nat)
    ensures Open(stack + [a]) == Open(stack) + a - 1
  {
    assert (stack + [a])[..|stack|] == stack;
  }

  lemma {:induction false} OpenNonNegative(stack: seq<nat>)
    requires Positive(stack)
    ensures Open(stack) >= 0
  {
    if stack != [] {
      OpenNonNegative(stack[..|stack| - 1]);
    }
  }

  // The `'popping` loop of both coroutines: one argument is done; levels without more are closed.
  method Pop(stack0: seq<nat>) returns (stack: seq<nat>)
    requires Positive(stack0)
    ensures Positive(stack)
    ensures stack == [] <==> Open(stack0) == 0
    ensures stack != [] ==> Open(stack) == Open(stack0) - 1
  {
    stack := stack0;
    while stack != []
      invariant Positive(stack) && Open(stack) == Open(stack0)
      decreases |stack|
    {
      var top := |stack| - 1;
      var k := stack[top] - 1;
      if k != 0 {
        OpenNonNegative(stack[..top]);
        OpenPush(stack[..top], k);
        assert stack[top := k] == stack[..top] + [k];
        stack := stack[top := k];
        OpenNonNegative(stack);
        return;
      }
      stack := stack[..top];
    }
  }

  class ItemSink {
    var target: seq<byte>
    var stack: seq<nat>
    var j: nat
    var done: bool

    ghost predicate Valid()
      reads this
    {
      Positive(stack) && (done ==> stack == [])
    }

    // The expressions still to be completed.
    ghost function Left(): int
      reads this
    {
      if done then 0 else Open(stack) + 1
    }

    constructor (target: seq<byte>)
      ensures Valid() && this.target == target && j == 0 && Left() == 1
    {
      this.target := target;
      stack, j, done := [], 0, false;
    }

    // Completes when no expression is left; it must not be resumed after that.
    method Resume(i: SourceItem) returns (complete: bool)
      requires Valid() && Left() > 0 && ValidItem(i)
      modifies this
      ensures Valid() && target == old(target) + BytesOf(i) && j == old(j) + |BytesOf(i)|
      ensures Left() == old(Left()) - 1 + Opens(i) >= 0
      ensures complete == done == (Left() == 0)
    {
      OpenNonNegative(stack);
      target := target + BytesOf(i);
      j := j + |BytesOf(i)|;
      if i.Item? && i.tag.Arity? && i.tag.a > 0 {
        OpenPush(stack, i.tag.a);
        stack := stack + [i.tag.a];
        return false;
      }
      stack := Pop(stack);
      OpenNonNegative(stack);
      done := stack == [];
      complete := done;
    }
  }

  class ItemSource {
    const root: seq<byte>
    var stack: seq<nat>
    var j: nat
    var last: Option<SourceItem>   // what the coroutine is suspended at

    // How far `j` is from the next item.
    function Behind(): nat
      reads this
    {
      match last
      case Some(Word(s)) => |s| + 1
      case Some(Item(Arity(_))) => 1
      case _ => 0
    }

    // `pending` starts with the item last yielded.
    ghost predicate Valid(pending: Exprs)
      reads this
    {
      && pending.Cons? && Positive(stack)
      && Open(stack) + 1 == Len(pending)
      && if last.None? then At(root, j, pending) && stack == []
         else last.value == ItemOf(pending.head) && At(root, j + Behind(), After(pending))
    }

    // What is still to be yielded.
    ghost function Rest(pending: Exprs): Exprs
      requires pending.Cons?
      reads this
    {
      if last.None? then pending else After(pending)
    }

    constructor (root: seq<byte>, ghost e: Expr)
      requires At(root, 0, One(e))
      ensures Valid(One(e)) && Rest(One(e)) == One(e) && this.root == root && j == 0
    {
      this.root := root;
      stack, j, last := [], 0, None;
    }

    // Yields the items of the expression in order, and completes after the last one.
    method Resume(ghost pending: Exprs) returns (item: Option<SourceItem>)
      requires Valid(pending)
      modifies this
      ensures item.Some? <==> old(Rest(pending)).Cons?
      ensures item.Some? ==> Valid(old(Rest(pending))) && item == last == Some(ItemOf(old(Rest(pending)).head)) && ValidItem(item.value)
      ensures item.None? ==> j == old(j + Behind())
    {
      ghost var rest := Rest(pending);
      if last.Some? {
        LenAppend(Children(pending.head), pending.tail);
        j := j + Behind();
        if last.value.Item? && last.value.tag.Arity? && last.value.tag.a > 0 {
          OpenPush(stack, last.value.tag.a);
          stack := stack + [last.value.tag.a];
        } else {
          stack := Pop(stack);
          LenZero(rest);
          if stack == [] {
            return None;
          }
        }
      }
      item := Yield(rest);
    }

    // `'putting`
    method Yield(ghost rest: Exprs) returns (item: Option<SourceItem>)
      requires rest.Cons? && Positive(stack) && Open(stack) + 1 == Len(rest) && At(root, j, rest)
      modifies this`j, this`last
      ensures Valid(rest) && item == last == Some(ItemOf(rest.head)) && ValidItem(item.value)
    {
      hide At, Enc, WF;
      AtStep(root, j, rest.head, rest.tail);
      ItemIsValid(rest.head);
      var tag := ByteItem(root[j]);
      match tag {
        case SymbolSize(s) =>
          last := Some(Word(root[j + 1..j + 1 + s]));
        case Arity(_) =>
          last := Some(Item(tag));
        case _ =>
          j := j + 1;
          last := Some(Item(tag));
      }
      item := last;
    }
  }

  lemma LenZero<X>(ts: Terms<X>)
    ensures Len(ts) == 0 <==> ts == Nil
  {
  }

  lemma ItemIsValid(e: Expr)
    requires WF(One(e))
    ensures ValidItem(ItemOf(e)) && BytesOf(ItemOf(e)) == ItemBytes(e)
    ensures Opens(ItemOf(e)) == Len(Children(e))
  {
  }

  // Feeding the source into the sink reproduces the bytes, and the sink completes on exactly the
  // last item.
  method Copy(b: seq<byte>, ghost e: Expr) returns (out: seq<byte>, size: nat)
    requires At(b, 0, One(e))
    ensures out == Enc(One(e)) && size == |out|
  {
    hide At, Enc, WF, ItemBytes;
    var source := new ItemSource(b, e);
    var sink := new ItemSink([]);
    ghost var pending := One(e);
    CopyStart(b, e);
    var item := source.Resume(pending);
    while item.Some?
      invariant sink.Valid() && fresh(source) && fresh(sink)
      invariant item.Some? ==> source.Valid(pending) && source.last == item == Some(ItemOf(pending.head)) && ValidItem(item.value)
      invariant item.Some? ==> sink.Left() == Len(pending) && WF(pending) && sink.target + Enc(pending) == Enc(One(e))
      invariant item.None? ==> sink.done && sink.target == Enc(One(e))
      invariant sink.j == |sink.target|
      decreases if item.Some? then 1 + EncLen(pending) else 0
    {
      CopyStep(pending, sink.target);
      var complete := sink.Resume(item.value);
      LenAppend(Children(pending.head), pending.tail);
      ghost var rest := After(pending);
      LenZero(rest);
      assert complete <==> rest == Nil;
      item := source.Resume(pending);
      if rest.Cons? {
        pending := rest;
      } else {
        CopyEnd(sink.target);
      }
    }
    out, size := sink.target, sink.j;
  }

  lemma CopyStart(b: seq<byte>, e: Expr)
    requires At(b, 0, One(e))
    ensures WF(One(e)) && [] + Enc(One(e)) == Enc(One(e)) && Len(One(e)) == 1
  {
  }

  lemma CopyEnd(out: seq<byte>)
    ensures out + Enc(Nil) == out
  {
  }

  lemma CopyStep(pending: Exprs, out: seq<byte>)
    requires pending.Cons? && WF(pending)
    ensures WF(After(pending)) && EncLen(After(pending)) < EncLen(pending)
    ensures WF(One(pending.head)) && BytesOf(ItemOf(pending.head)) == ItemBytes(pending.head) && ValidItem(ItemOf(pending.head))
    ensures Opens(ItemOf(pending.head)) == Len(Children(pending.head))
    ensures out + Enc(pending) == out + ItemBytes(pending.head) + Enc(After(pending))
  {
    hide Enc, ItemBytes;
    EncStep(pending.head, pending.tail);
    ItemIsValid(pending.head);
    Assoc(out, ItemBytes(pending.head), Enc(After(pending)));
  }
}
