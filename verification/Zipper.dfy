/** `ExprZipper`: the breadcrumb walk over the items of an expression, and the output cursor. */
module Zippers {
  import opened Items
  import opened Terms
  import opened Encoding
  import opened Wrappers

  datatype Breadcrumb = Breadcrumb(parent: nat, arity: nat, seen: nat)

  // The number of items' subtrees that the breadcrumbs still announce.
  function Remaining(trace: seq<Breadcrumb>): int {
    if trace == [] then 0
    else Remaining(trace[..|trace| - 1]) + trace[|trace| - 1].arity - trace[|trace| - 1].seen
  }

  // The expressions left to visit after the first item of `pending`.
  function After(pending: Exprs): Exprs
    requires pending.Cons?
  {
    Append(Children(pending.head), pending.tail)
  }

  class ExprZipper {
    const root: seq<byte>
    var loc: nat
    var trace: seq<Breadcrumb>

    // `pending` is what is still to be visited, starting with the item at `loc`.
    ghost predicate Valid(pending: Exprs)
      reads this
    {
      && pending.Cons?
      && At(root, loc, pending)
      && (forall c | c in trace :: c.seen <= c.arity)
      && Remaining(trace) == Len(After(pending))
    }

    constructor (root: seq<byte>, ghost e: Expr)
      requires At(root, 0, One(e))
      ensures Valid(One(e)) && this.root == root && loc == 0
    {
      AtStep(root, 0, e, Nil);
      AppendNil(Children(e));
      this.root := root;
      loc := 0;
      trace := match MaybeByteItem(root[0])
      case Ok(Arity(a)) => [Breadcrumb(0, a, 0)]
      case _ => [];
    }

    // `tag` and `item`: a symbol's bytes, or the tag of any other item.
    method Item(ghost pending: Exprs) returns (item: Result<Tag, Symbol>)
      requires Valid(pending)
      ensures item == match pending.head case Sym(s) => Err(s) case _ => Ok(HeadTag(pending.head))
    {
      AtStep(root, loc, pending.head, pending.tail);
      match MaybeByteItem(root[loc])
      case Ok(SymbolSize(n)) => item := Err(root[loc + 1..loc + 1 + n]);
      case Ok(tag) => item := Ok(tag);
    }

    // `gnext(0)`: to the next item in reading order, or false at the last one.
    method Next(ghost pending: Exprs) returns (more: bool)
      requires Valid(pending)
      modifies this
      ensures more <==> After(pending).Cons?
      ensures more ==> Valid(After(pending)) && loc == old(loc) + ItemLen(pending.head)
      ensures !more ==> Valid(pending) && loc == old(loc)
      decreases |trace|
    {
      hide Enc, WF, At;
      if trace == [] {
        return false;
      }
      var top := |trace| - 1;
      var crumb := trace[top];
      if crumb.seen < crumb.arity {
        CountDown(trace);
        AtStep(root, loc, pending.head, pending.tail);
        trace := trace[top := crumb.(seen := crumb.seen + 1)];
        loc := loc + match MaybeByteItem(root[loc]) case Ok(SymbolSize(n)) => n + 1 case _ => 1;
        Descend(After(pending));
        return true;
      } else {
        trace := trace[..top];
        more := Next(pending);
      }
    }

    // A compound at the new location gets a breadcrumb of its own.
    method Descend(ghost pending: Exprs)
      requires pending.Cons? && At(root, loc, pending)
      requires forall c | c in trace :: c.seen <= c.arity
      requires Remaining(trace) == Len(pending) - 1
      modifies this`trace
      ensures Valid(pending)
    {
      hide Enc, WF, At, Remaining, MaybeByteItem, Append;
      AtStep(root, loc, pending.head, pending.tail);
      LenAppend(Children(pending.head), pending.tail);
      match MaybeByteItem(root[loc]) {
        case Ok(Arity(a)) =>
          RemainingPush(trace, Breadcrumb(loc, a, 0));
          trace := trace + [Breadcrumb(loc, a, 0)];
        case _ =>
      }
    }

    // `finish_span`: the length of the expression, read off at its last item.
    method FinishSpan(ghost last: Exprs) returns (size: nat)
      requires Valid(last) && After(last) == Nil
      ensures size == loc + EncLen(last)
    {
      AtStep(root, loc, last.head, last.tail);
      assert last.tail == Nil && Children(last.head) == Nil;
      size := loc + match MaybeByteItem(root[loc]) case Ok(SymbolSize(n)) => 1 + n case _ => 1;
    }
  }

  lemma RemainingNonNegative(trace: seq<Breadcrumb>)
    requires forall c | c in trace :: c.seen <= c.arity
    ensures Remaining(trace) >= 0
  {
  }

  lemma RemainingPush(trace: seq<Breadcrumb>, c: Breadcrumb)
    ensures Remaining(trace + [c]) == Remaining(trace) + c.arity - c.seen
  {
    assert (trace + [c])[..|trace|] == trace;
  }

  lemma CountDown(trace: seq<Breadcrumb>)
    requires forall c | c in trace :: c.seen <= c.arity
    requires trace != [] && trace[|trace| - 1].seen < trace[|trace| - 1].arity
    ensures var top := |trace| - 1;
            var trace' := trace[top := trace[top].(seen := trace[top].seen + 1)];
            Remaining(trace') == Remaining(trace) - 1 && Remaining(trace') >= 0
  {
    var top := |trace| - 1;
    var trace' := trace[top := trace[top].(seen := trace[top].seen + 1)];
    assert trace'[..top] == trace[..top];
    RemainingNonNegative(trace');
  }

  // `Expr::span`: walking to the last item finds exactly the encoding of the expression.
  method Span(b: seq<byte>, ghost e: Expr) returns (span: seq<byte>)
    requires At(b, 0, One(e))
    ensures span == Enc(One(e))
  {
    var ez := new ExprZipper(b, e);
    ghost var pending := One(e);
    while true
      invariant ez.Valid(pending) && ez.root == b
      invariant ez.loc + EncLen(pending) == EncLen(One(e))
      decreases EncLen(pending)
    {
      AtStep(b, ez.loc, pending.head, pending.tail);
      var more := ez.Next(pending);
      if !more {
        var size := ez.FinishSpan(pending);
        EncHasEncLen(One(e));
        return b[..size];
      }
      pending := After(pending);
    }
  }
}
