/** `Slab` and `ThinBytes`: where the bytes of symbols are kept. */
module Slabs {
  import opened Items
  import opened Wrappers

  type Bytes = seq<byte>

  const U64_BYTES: nat := 8
  const SLAB_HEADER: nat := 32   // size_of::<Slab>()
  const MIN_SLAB: nat := 4096

  function Pow256(k: nat): nat {
    if k == 0 then 1 else 256 * Pow256(k - 1)
  }

  // `to_be_bytes` and `from_be_bytes`, for `k` bytes.
  function ToBe(n: nat, k: nat): (s: Bytes)
    ensures |s| == k
  {
    if k == 0 then [] else ToBe(n / 256, k - 1) + [n % 256]
  }

  function FromBe(s: Bytes): nat {
    if s == [] then 0 else 256 * FromBe(s[..|s| - 1]) + s[|s| - 1]
  }

  lemma {:induction false} BeRoundTrip(n: nat, k: nat)
    requires n < Pow256(k)
    ensures FromBe(ToBe(n, k)) == n
  {
    if k > 0 {
      BeRoundTrip(n / 256, k - 1);
      assert ToBe(n, k)[..k - 1] == ToBe(n / 256, k - 1);
    }
  }

  // The first byte of a number below half the range has its top bit clear.
  lemma {:induction false} BeTopBit(n: nat, k: nat)
    requires k > 0 && n < 128 * Pow256(k - 1)
    ensures ToBe(n, k)[0] < 128
  {
    if k > 1 {
      assert n / 256 < 128 * Pow256(k - 2);
      BeTopBit(n / 256, k - 1);
    }
  }

  // Lengths below `i64::MAX`.
  predicate Registrable(b: Bytes) {
    |b| < 128 * Pow256(7) - 1
  }

  // One byte `!len` for lengths below 127, eight bytes otherwise.
  function Header(len: nat): Bytes {
    if len < 127 then [255 - len] else ToBe(len, U64_BYTES)
  }

  function Record(b: Bytes): Bytes {
    Header(|b|) + b
  }

  lemma RecordFits(b: Bytes)
    ensures 0 < |Record(b)| <= |b| + U64_BYTES
  {
  }

  // `as_raw_slice`, for a pointer into `data`. None when the record does not lie within the data.
  function ReadAt(data: Bytes, off: nat): Option<Bytes> {
    if off >= |data| then None
    else
      var tag := data[off];
      if tag >= 128 then
        if off + 1 + (255 - tag) <= |data| then Some(data[off + 1..off + 1 + (255 - tag)]) else None
      else if off + U64_BYTES > |data| then None
      else
        var len := FromBe(data[off..off + U64_BYTES]);
        if off + U64_BYTES + len <= |data| then Some(data[off + U64_BYTES..off + U64_BYTES + len]) else None
  }

  ghost predicate Backs(data: Bytes, off: nat, b: Bytes) {
    Registrable(b) && off + |Record(b)| <= |data| && data[off..off + |Record(b)|] == Record(b)
  }

  // Reading gives back exactly the bytes that were registered, on both sides of the length switch.
  lemma ReadBack(data: Bytes, off: nat, b: Bytes)
    requires Backs(data, off, b)
    ensures ReadAt(data, off) == Some(b)
  {
    var r := Record(b);
    var h := |Header(|b|)|;
    assert data[off] == data[off..off + |r|][0] == r[0];
    assert data[off..off + h] == data[off..off + |r|][..h] == Header(|b|);
    assert data[off + h..off + h + |b|] == data[off..off + |r|][h..] == b;
    if |b| >= 127 {
      PowValues();
      BeTopBit(|b|, U64_BYTES);
      BeRoundTrip(|b|, U64_BYTES);
    }
  }

  lemma PowValues()
    ensures 128 * Pow256(7) <= Pow256(8) && Pow256(8) == 256 * Pow256(7)
  {
  }

  /* ---- Writing ---- */

  function Put(data: Bytes, pos: nat, r: Bytes): (d: Bytes)
    requires pos + |r| <= |data|
    ensures |d| == |data|
  {
    data[..pos] + r + data[pos + |r|..]
  }

  // Writing at `pos` leaves every record that ends there in place, and puts the new one.
  lemma PutKeeps(data: Bytes, pos: nat, new_: Bytes, off: nat, b: Bytes)
    requires pos + |Record(new_)| <= |data|
    requires Backs(data, off, b) && off + |Record(b)| <= pos
    ensures Backs(Put(data, pos, Record(new_)), off, b)
  {
    var d := Put(data, pos, Record(new_));
    assert d[off..off + |Record(b)|] == data[off..off + |Record(b)|];
  }

  lemma PutBacks(data: Bytes, pos: nat, b: Bytes)
    requires pos + |Record(b)| <= |data| && Registrable(b)
    ensures Backs(Put(data, pos, Record(b)), pos, b)
  {
    var d := Put(data, pos, Record(b));
    assert d[pos..pos + |Record(b)|] == Record(b);
  }

  lemma PutPut(data: Bytes, pos: nat, r: Bytes, s: Bytes)
    requires pos + |r| + |s| <= |data|
    ensures Put(Put(data, pos, r), pos + |r|, s) == Put(data, pos, r + s)
  {
  }

  lemma RecordParts(b: Bytes)
    ensures Record(b) == Header(|b|) + b && |Record(b)| == |Header(|b|)| + |b|
  {
  }

  // The size of the data of a slab allocated for `bytes` bytes.
  function SlabLen(bytes: nat): nat {
    (if bytes + SLAB_HEADER < MIN_SLAB then MIN_SLAB else bytes + SLAB_HEADER) - SLAB_HEADER
  }

  // A slab as a value: its owner and the slab linked behind it are known by number.
  datatype SlabState = SlabState(owner: nat, next: Option<nat>, writePos: nat, data: Bytes)

  predicate HasRoom(slab: SlabState, b: Bytes) {
    |b| + U64_BYTES <= |slab.data| - slab.writePos
  }

  // `register_bytes` in the slab's own data.
  function WriteIn(slab: SlabState, b: Bytes): SlabState
    requires slab.writePos + |Record(b)| <= |slab.data|
  {
    slab.(writePos := slab.writePos + |Record(b)|, data := Put(slab.data, slab.writePos, Record(b)))
  }

  // `Slab::allocate`.
  function NewSlab(owner: nat, bytes: nat): SlabState {
    SlabState(owner, None, 0, seq(SlabLen(bytes), _ => 0))
  }

  class Slab {
    var next: Slab?
    var writePos: nat
    const data: array<byte>

    ghost predicate Valid()
      reads this
    {
      writePos <= data.Length
    }

    // This slab as a value of `owner`, without its link.
    ghost function State(owner: nat): SlabState
      reads this, data
    {
      SlabState(owner, None, writePos, data[..])
    }

    // `Slab::allocate`.
    constructor Allocate(bytes: nat)
      ensures Valid() && next == null && writePos == 0 && data.Length == SlabLen(bytes) >= bytes && fresh(data)
      ensures forall o :: State(o) == NewSlab(o, bytes)
    {
      next, writePos := null, 0;
      data := new byte[SlabLen(bytes)](_ => 0);
      new;
      assert data[..] == seq(SlabLen(bytes), _ => 0);
    }

    // `Slab::register_bytes`: into this slab when there is room for the longest header, otherwise
    // into a new slab linked behind this one.
    method RegisterBytes(bytes: Bytes) returns (slab: Slab, off: nat)
      requires Valid() && Registrable(bytes)
      modifies this, data
      ensures Valid() && slab.Valid()
      ensures Backs(slab.data[..], off, bytes) && off + |Record(bytes)| == slab.writePos
      ensures |Record(bytes)| <= |bytes| + U64_BYTES <= SlabLen(|bytes| + U64_BYTES)
      ensures forall o :: if HasRoom(old(State(o)), bytes)
              then slab == this && off == old(writePos) && next == old(next)
                   && State(o) == WriteIn(old(State(o)), bytes)
              else fresh(slab) && fresh(slab.data) && next == slab && off == 0
                   && State(o) == old(State(o)) && slab.State(o) == WriteIn(NewSlab(o, |bytes| + U64_BYTES), bytes)
    {
      hide Put, Header, ToBe, Backs, Record;
      RecordFits(bytes);
      var len := |bytes|;
      slab := this;
      if len + U64_BYTES > data.Length - writePos {
        slab := new Slab.Allocate(len + U64_BYTES);
        next := slab;
      }
      ghost var before := slab.data[..];
      off := slab.writePos;
      var header := Header(len);
      RecordParts(bytes);
      Copy(slab.data, off, header);
      Copy(slab.data, off + |header|, bytes);
      slab.writePos := off + |header| + len;
      PutPut(before, off, header, bytes);
      PutBacks(before, off, bytes);
    }
  }

  // `copy_nonoverlapping`.
  method Copy(a: array<byte>, pos: nat, r: Bytes)
    requires pos + |r| <= a.Length
    modifies a
    ensures a[..] == Put(old(a[..]), pos, r)
  {
    hide Put;
    ghost var before := a[..];
    PutStart(before, pos, r);
    for i := 0 to |r|
      invariant a[..] == Put(before, pos, r[..i])
    {
      PutMore(before, pos, r, i);
      a[pos + i] := r[i];
    }
    assert r[..|r|] == r;
  }

  lemma PutStart(data: Bytes, pos: nat, r: Bytes)
    requires pos + |r| <= |data|
    ensures Put(data, pos, r[..0]) == data
  {
  }

  lemma PutMore(data: Bytes, pos: nat, r: Bytes, i: nat)
    requires pos + |r| <= |data| && i < |r|
    ensures Put(data, pos, r[..i + 1]) == Put(data, pos, r[..i])[pos + i := r[i]]
  {
  }
}
