/** The one-byte items of an expression: `Tag`, `item_byte` and `maybe_byte_item`. */
module Items {
  import opened Wrappers

  type byte = b: int | 0 <= b < 256

  datatype Tag = NewVar | VarRef(i: nat) | SymbolSize(s: nat) | Arity(a: nat)

  // The range conditions are the debug assertions of `item_byte`.
  predicate ValidTag(t: Tag) {
    match t
    case NewVar => true
    case VarRef(i) => i < 64
    case SymbolSize(s) => 0 < s < 64
    case Arity(a) => a < 64
  }

  // The two top bits hold the kind and the six low bits the payload, so `kind | payload` is a sum.
  function ItemByte(t: Tag): byte
    requires ValidTag(t)
  {
    match t
    case NewVar => 0xC0
    case SymbolSize(s) => 0xC0 + s
    case VarRef(i) => 0x80 + i
    case Arity(a) => a
  }

  function MaybeByteItem(b: byte): Result<Tag, byte> {
    if b == 0xC0 then Ok(NewVar)
    else if b >= 0xC0 then Ok(SymbolSize(b - 0xC0))
    else if b >= 0x80 then Ok(VarRef(b - 0x80))
    else if b < 0x40 then Ok(Arity(b))
    else Err(b)
  }

  // `byte_item` panics on the reserved bytes.
  function ByteItem(b: byte): Tag
    requires MaybeByteItem(b).Ok?
  {
    MaybeByteItem(b).value
  }

  // Decoding and encoding are inverse, and exactly the bytes 0x40..0x7F are reserved.
  lemma ItemByteRoundTrip(b: byte)
    ensures forall t | ValidTag(t) :: MaybeByteItem(ItemByte(t)) == Ok(t)
    ensures MaybeByteItem(b).Ok? ==> ValidTag(MaybeByteItem(b).value) && ItemByte(MaybeByteItem(b).value) == b
    ensures MaybeByteItem(b).Err? <==> 0x40 <= b < 0x80
  {
  }

  // The source takes a byte apart with masks: the two top bits tell the kind, the others are the payload.
  lemma ItemMasks(b: byte)
    ensures var v := b as bv8; var kind, payload := v & 0xC0, (v & 0x3F) as nat;
      && (v == 0xC0 ==> MaybeByteItem(b) == Ok(NewVar))
      && (kind == 0xC0 && v != 0xC0 ==> MaybeByteItem(b) == Ok(SymbolSize(payload)))
      && (kind == 0x80 ==> MaybeByteItem(b) == Ok(VarRef(payload)))
      && (kind == 0x40 ==> MaybeByteItem(b) == Err(b))
      && (kind == 0x00 ==> MaybeByteItem(b) == Ok(Arity(payload)))
  {
    var v := b as bv8;
    if v & 0xC0 == 0xC0 {
      assert v >= 0xC0 && v & 0x3F == v - 0xC0;
    } else if v & 0xC0 == 0x80 {
      assert 0x80 <= v < 0xC0 && v & 0x3F == v - 0x80;
    } else if v & 0xC0 == 0x40 {
      assert 0x40 <= v < 0x80;
    } else {
      assert v & 0xC0 == 0 && v < 0x40 && v & 0x3F == v;
    }
  }
}
