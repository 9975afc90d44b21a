/** The field catalog: each named field of a Payment is a (type, key)
    pair, which fixes both its tag bytes on the wire and its rank in the
    canonical field order. */
module Catalog {
  import opened Bytes

  /** The serialized types the encoder knows. */
  datatype FieldType = Int16 | Int32 | Amount | VL | Account

  /** The type codes of the `FieldType` enum. */
  function TypeCode(t: FieldType): (r: byte)
    ensures 1 <= r <= 8
  {
    match t
    case Int16 => 1
    case Int32 => 2
    case Amount => 6
    case VL => 7
    case Account => 8
  }

  /** The type whose code is c, if any. */
  function TypeOfCode(c: int): (r: Option<FieldType>)
    ensures r.Some? ==> TypeCode(r.value) == c
    ensures forall t: FieldType :: TypeCode(t) == c ==> r == Some(t)
  {
    if c == 1 then Some(Int16)
    else if c == 2 then Some(Int32)
    else if c == 6 then Some(Amount)
    else if c == 7 then Some(VL)
    else if c == 8 then Some(Account)
    else None
  }

  /** A catalog entry. Keys stay below 256: the tag writes the key as one byte. */
  datatype FieldMapping = FieldMapping(typ: FieldType, key: byte)

  const FmAccount := FieldMapping(Account, 1)
  const FmAmount := FieldMapping(Amount, 1)
  const FmDestination := FieldMapping(Account, 3)
  /** Declared by the catalog but never used by the serializer, which writes the fee under FmAmount. */
  const FmFee := FieldMapping(Amount, 8)
  const FmSequence := FieldMapping(Int32, 4)
  const FmType := FieldMapping(Int16, 2)
  const FmSigningPubKey := FieldMapping(VL, 3)
  const FmFlags := FieldMapping(Int32, 2)
  const FmTxnSignature := FieldMapping(VL, 4)
  const FmLastLedgerSequence := FieldMapping(Int32, 27)
  const FmDestinationTag := FieldMapping(Int32, 14)

  /** Position of a field in the canonical order: by type code, then by key. */
  function Rank(m: FieldMapping): (r: nat)
    ensures r < 256 * 9
  {
    TypeCode(m.typ) * 256 + m.key
  }

  /** The field-ID tag: one byte `type << 4 | key` for keys up to 15,
      otherwise the byte `type << 4` followed by the key byte. Since the
      low nibble of `type << 4` is zero, the `|` is an addition. */
  function TagBytes(m: FieldMapping): (r: seq<byte>)
    ensures 1 <= |r| <= 2 && (|r| == 1 <==> m.key <= 0xf)
    ensures r[0] / 16 == TypeCode(m.typ)
    ensures |r| == 1 ==> r[0] % 16 == m.key
    ensures |r| == 2 ==> r[0] % 16 == 0 && r[1] == m.key
  {
    if m.key <= 0xf then [TypeCode(m.typ) * 16 + m.key]
    else [TypeCode(m.typ) * 16, m.key]
  }

  /** Reads a tag: the high nibble of the first byte is the type code; a
      non-zero low nibble is the key, a zero one means the key follows in
      the next byte (and is then at least 16). Yields the mapping and the
      number of bytes read. */
  function DecodeTag(s: seq<byte>): (r: Option<(FieldMapping, nat)>)
    ensures r.Some? ==> 1 <= r.value.1 <= |s| && r.value.1 <= 2 && r.value.0.key != 0
    ensures r.Some? ==> (r.value.1 == 1 <==> r.value.0.key <= 0xf)
  {
    if |s| == 0 then None
    else
      match TypeOfCode(s[0] / 16)
      case None => None
      case Some(t) =>
        if s[0] % 16 != 0 then Some((FieldMapping(t, s[0] % 16), 1))
        else if |s| >= 2 && s[1] >= 16 then Some((FieldMapping(t, s[1]), 2))
        else None
  }

  /** Every tag with a non-zero key reads back as its mapping. */
  lemma TagRoundTrip(m: FieldMapping, rest: seq<byte>)
    requires m.key != 0
    ensures DecodeTag(TagBytes(m) + rest) == Some((m, |TagBytes(m)|))
  {
    var s := TagBytes(m) + rest;
    assert s[0] / 16 == TypeCode(m.typ);
  }

  /** Whatever reads as a tag is the tag of what it reads as. */
  lemma DecodeTagExact(s: seq<byte>)
    requires DecodeTag(s).Some?
    ensures TagBytes(DecodeTag(s).value.0) == s[..DecodeTag(s).value.1]
  {
  }

  /** A key of zero is written as the lone byte `type << 4`, which reads as the
      start of a two-byte tag, so it does not round-trip. */
  lemma ZeroKeyIsAmbiguous(t: FieldType)
    ensures DecodeTag(TagBytes(FieldMapping(t, 0))) == None
  {
  }
}
