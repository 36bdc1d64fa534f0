/** `HeadTailSink`: the `max` first (head) or last (tail) paths of a stream. */
module HeadTail {
  import opened Items
  import opened Sets

  type BytePath = seq<byte>

  // The order of byte strings.
  predicate Less(a: BytePath, b: BytePath) {
    b != [] && (a == [] || a[0] < b[0] || (a[0] == b[0] && Less(a[1..], b[1..])))
  }

  lemma {:induction false} LessTotal(a: BytePath, b: BytePath)
    ensures Less(a, b) || Less(b, a) || a == b
  {
    if a != [] && b != [] && a[0] == b[0] {
      LessTotal(a[1..], b[1..]);
      if a[1..] == b[1..] {
        assert a == [a[0]] + a[1..] && b == [b[0]] + b[1..];
      }
    }
  }

  lemma {:induction false} LessTrans(a: BytePath, b: BytePath, c: BytePath)
    requires Less(a, b) && Less(b, c)
    ensures Less(a, c)
  {
    if a != [] && a[0] == b[0] == c[0] {
      LessTrans(a[1..], b[1..], c[1..]);
    }
  }

  lemma {:induction false} LessIrreflexive(a: BytePath)
    ensures !Less(a, a)
  {
    if a != [] {
      LessIrreflexive(a[1..]);
    }
  }

  // Two byte strings are in order when the first is a proper prefix of the second, or smaller at the
  // first byte where they differ.
  lemma {:induction false} LessIs(a: BytePath, b: BytePath)
    ensures Less(a, b) <==>
      exists n: nat :: n <= |a| && n < |b| && a[..n] == b[..n] && (n == |a| || a[n] < b[n])
  {
    if b != [] {
      if a == [] || a[0] < b[0] {
        assert a[..0] == b[..0];
      } else {
        LessIs(a[1..], b[1..]);
        if a[0] == b[0] && Less(a[1..], b[1..]) {
          var n: nat :| n <= |a[1..]| && n < |b[1..]| && a[1..][..n] == b[1..][..n] && (n == |a[1..]| || a[1..][n] < b[1..][n]);
          assert a[..n + 1] == [a[0]] + a[1..][..n] && b[..n + 1] == [b[0]] + b[1..][..n];
        }
        if n: nat :| n <= |a| && n < |b| && a[..n] == b[..n] && (n == |a| || a[n] < b[n]) {
          assert n > 0;
          assert a[..n][0] == a[0] && b[..n][0] == b[0];
          assert a[1..][..n - 1] == a[..n][1..] && b[1..][..n - 1] == b[..n][1..];
        }
      }
    }
  }

  // The paths a head sink prefers are the least, those a tail sink prefers the greatest.
  predicate Before(head: bool, a: BytePath, b: BytePath) {
    if head then Less(a, b) else Less(b, a)
  }

  lemma BeforeOrder(head: bool)
    ensures forall a, b :: Before(head, a, b) || Before(head, b, a) || a == b
    ensures forall a, b, c | Before(head, a, b) && Before(head, b, c) :: Before(head, a, c)
    ensures forall a :: !Before(head, a, a)
  {
    forall a, b
      ensures Before(head, a, b) || Before(head, b, a) || a == b
    {
      LessTotal(a, b);
    }
    forall a, b, c | Before(head, a, b) && Before(head, b, c)
      ensures Before(head, a, c)
    {
      if head {
        LessTrans(a, b, c);
      } else {
        LessTrans(c, b, a);
      }
    }
    forall a
      ensures !Before(head, a, a)
    {
      LessIrreflexive(a);
    }
  }

  // `kept` holds the first `max` of the paths seen, or all of them when there are fewer.
  ghost predicate KeepsFirst(head: bool, max: nat, seen: set<BytePath>, kept: set<BytePath>) {
    && kept <= seen
    && |kept| == (if |seen| < max then |seen| else max)
    && forall p, q | p in kept && q in seen && q !in kept :: Before(head, p, q)
  }

  ghost function Ahead(head: bool, seen: set<BytePath>, p: BytePath): set<BytePath> {
    set q | q in seen && Before(head, q, p)
  }

  lemma KeptAhead(head: bool, max: nat, seen: set<BytePath>, kept: set<BytePath>, p: BytePath)
    requires KeepsFirst(head, max, seen, kept) && p in seen
    ensures p in kept <==> |Ahead(head, seen, p)| < max
  {
    hide Before;
    BeforeOrder(head);
    var first := Ahead(head, seen, p);
    if p in kept {
      forall q | q in first
        ensures q in kept && q != p
      {
        assert q !in kept ==> Before(head, p, q);
      }
      assert p !in first && first + {p} <= kept;
      SubsetSize(first + {p}, kept);
    } else {
      assert kept <= first;
      SubsetSize(kept, seen);
      SubsetSize(kept, first);
    }
  }

  // A head sink keeps a path exactly when fewer than `max` of those seen are lexicographically below
  // it, and a tail sink when fewer than `max` are above it.
  lemma KeptByRank(head: bool, max: nat, seen: set<BytePath>, kept: set<BytePath>, p: BytePath)
    requires KeepsFirst(head, max, seen, kept) && p in seen
    ensures head ==> (p in kept <==> |set q | q in seen && Less(q, p)| < max)
    ensures !head ==> (p in kept <==> |set q | q in seen && Less(p, q)| < max)
  {
    hide Less, KeepsFirst;
    KeptAhead(head, max, seen, kept, p);
    assert head ==> Ahead(head, seen, p) == set q | q in seen && Less(q, p);
    assert !head ==> Ahead(head, seen, p) == set q | q in seen && Less(p, q);
  }

  ghost predicate IsLast(head: bool, kept: set<BytePath>, p: BytePath) {
    p in kept && forall q | q in kept :: q == p || Before(head, q, p)
  }

  // What is kept depends only on which paths were seen.
  lemma KeptUnique(head: bool, max: nat, seen: set<BytePath>, a: set<BytePath>, b: set<BytePath>)
    requires KeepsFirst(head, max, seen, a) && KeepsFirst(head, max, seen, b)
    ensures a == b
  {
    BeforeOrder(head);
    KeptWithin(head, max, seen, a, b);
    KeptWithin(head, max, seen, b, a);
  }

  lemma KeptWithin(head: bool, max: nat, seen: set<BytePath>, a: set<BytePath>, b: set<BytePath>)
    requires KeepsFirst(head, max, seen, a) && KeepsFirst(head, max, seen, b)
    ensures a <= b
  {
    SameSizeExtra(a, b);
    if a - b != {} {
      var x :| x in a - b;
      var y :| y in b - a;
      NoSwap(head, max, seen, a, b, x, y);
    }
  }

  lemma NoSwap(head: bool, max: nat, seen: set<BytePath>, a: set<BytePath>, b: set<BytePath>, x: BytePath, y: BytePath)
    requires KeepsFirst(head, max, seen, a) && KeepsFirst(head, max, seen, b)
    requires x in a && x !in b && y in b
    ensures y in a
  {
    BeforeOrder(head);
  }

  // What a sink holds after the paths `seen`.
  ghost predicate Holds(head: bool, max: nat, seen: set<BytePath>, kept: set<BytePath>, count: nat, last: BytePath) {
    && count == |kept| <= max
    && [] !in seen
    && KeepsFirst(head, max, seen, kept)
    && if kept == {} then last == [] else IsLast(head, kept, last)
  }

  class HeadTailSink {
    const head: bool
    const max: nat
    var extrema: set<BytePath>
    var count: nat
    var extremum: BytePath
    ghost var seen: set<BytePath>

    ghost predicate Valid()
      reads this
    {
      max > 0 && Holds(head, max, seen, extrema, count, extremum)
    }

    constructor (head: bool, max: nat)
      requires max > 0
      ensures Valid() && seen == {} && this.head == head && this.max == max
    {
      this.head, this.max := head, max;
      extrema, count, extremum, seen := {}, 0, [], {};
    }

    // The path furthest from being preferred: `descend_last_path` for head, `to_next_val` for tail.
    method FindExtremum() returns (p: BytePath)
      requires extrema != {}
      ensures IsLast(head, extrema, p)
    {
      BeforeOrder(head);
      p :| p in extrema;
      var rest := extrema - {p};
      while rest != {}
        invariant p in extrema && rest <= extrema
        invariant forall q | q in extrema && q !in rest :: q == p || Before(head, q, p)
        decreases rest
      {
        var q :| q in rest;
        if Before(head, p, q) {
          p := q;
        }
        rest := rest - {q};
      }
    }

    // False when the assertion that a displacing path is new fails. Paths are not empty.
    method Sink(mpath: BytePath) returns (ok: bool)
      requires Valid() && mpath != []
      modifies this
      ensures ok ==> Valid() && seen == old(seen) + {mpath}
      ensures !ok ==> mpath in old(seen)
    {
      hide Holds, IsLast, Before;
      ok := true;
      if count == max {
        if !Before(head, mpath, extremum) {
          Ignored(head, max, seen, extrema, count, extremum, mpath);
        } else if mpath in extrema {
          Kept(head, max, seen, extrema, count, extremum);
          return false;
        } else {
          Displaced(head, max, seen, extrema, count, extremum, mpath);
          extrema := extrema + {mpath} - {extremum};
          extremum := FindExtremum();
        }
      } else if mpath !in extrema {
        Added(head, max, seen, extrema, count, extremum, mpath);
        extrema := extrema + {mpath};
        count := count + 1;
        if extremum == [] || Before(head, extremum, mpath) {
          extremum := mpath;
        }
      } else {
        Kept(head, max, seen, extrema, count, extremum);
        assert seen + {mpath} == seen;
      }
      seen := seen + {mpath};
    }
  }

  lemma Kept(head: bool, max: nat, seen: set<BytePath>, kept: set<BytePath>, count: nat, last: BytePath)
    requires Holds(head, max, seen, kept, count, last)
    ensures kept <= seen
  {
  }

  lemma Ignored(head: bool, max: nat, seen: set<BytePath>, kept: set<BytePath>, count: nat, last: BytePath, p: BytePath)
    requires Holds(head, max, seen, kept, count, last) && count == max > 0 && !Before(head, p, last) && p != []
    ensures Holds(head, max, seen + {p}, kept, count, last)
  {
    BeforeOrder(head);
    SubsetSize(seen, seen + {p});
    forall q | q in kept && p !in kept
      ensures Before(head, q, p)
    {
      assert q == last || Before(head, q, last);
    }
  }

  lemma Displaced(head: bool, max: nat, seen: set<BytePath>, kept: set<BytePath>, count: nat, last: BytePath, p: BytePath)
    requires Holds(head, max, seen, kept, count, last) && count == max > 0
    requires Before(head, p, last) && p !in kept && p != []
    ensures var kept' := kept + {p} - {last};
      && kept' != {}
      && forall l | IsLast(head, kept', l) :: Holds(head, max, seen + {p}, kept', count, l)
  {
    BeforeOrder(head);
    SubsetSize(seen, seen + {p});
    var kept' := kept + {p} - {last};
    assert kept + {p} == kept' + {last};
    forall x, q | x in kept' && q in seen + {p} && q !in kept'
      ensures Before(head, x, q)
    {
      if q != last {
        assert q in seen && q !in kept;
        assert Before(head, last, q);
      }
    }
  }

  lemma Added(head: bool, max: nat, seen: set<BytePath>, kept: set<BytePath>, count: nat, last: BytePath, p: BytePath)
    requires Holds(head, max, seen, kept, count, last) && count != max && p !in kept && p != []
    ensures Holds(head, max, seen + {p}, kept + {p}, count + 1, if last == [] || Before(head, last, p) then p else last)
  {
    BeforeOrder(head);
    SubsetSize(kept, seen);
  }
}
