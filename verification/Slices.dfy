/** Sequences inside sequences. */
module Slices {
  lemma Assoc<T>(a: seq<T>, b: seq<T>, c: seq<T>)
    ensures (a + b) + c == a + (b + c)
  {
  }

  // `w` stands at index `i` of the source.
  predicate Here<T(==)>(src: seq<T>, i: nat, w: seq<T>) {
    i + |w| <= |src| && src[i..i + |w|] == w
  }

  lemma HereIs<T>(src: seq<T>, i: nat, w: seq<T>)
    requires Here(src, i, w)
    ensures i + |w| <= |src| && src[i..i + |w|] == w
  {
  }

  lemma HereSplit<T>(src: seq<T>, i: nat, x: seq<T>, y: seq<T>)
    requires Here(src, i, x + y)
    ensures Here(src, i, x) && Here(src, i + |x|, y)
  {
    var w := src[i..i + |x| + |y|];
    assert src[i..i + |x|] == w[..|x|];
    assert src[i + |x|..i + |x| + |y|] == w[|x|..];
  }

  lemma HereFirst<T>(src: seq<T>, i: nat, w: seq<T>)
    requires Here(src, i, w) && w != []
    ensures i < |src| && src[i] == w[0] && Here(src, i + 1, w[1..])
  {
    assert src[i] == src[i..i + |w|][0];
    assert src[i + 1..i + |w|] == src[i..i + |w|][1..];
  }

  lemma HereAll<T>(src: seq<T>)
    ensures Here(src, 0, src)
  {
    assert src[0..0 + |src|] == src;
  }

  lemma HereSlice<T>(src: seq<T>, i: nat, j: nat)
    requires i <= j <= |src|
    ensures Here(src, i, src[i..j])
  {
  }

  lemma HereOne<T>(src: seq<T>, i: nat)
    requires i < |src|
    ensures Here(src, i, [src[i]])
  {
  }

  lemma HereJoin<T>(src: seq<T>, i: nat, x: seq<T>, y: seq<T>)
    requires Here(src, i, x) && Here(src, i + |x|, y)
    ensures Here(src, i, x + y)
  {
  }
}
