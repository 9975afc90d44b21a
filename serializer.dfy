/** `ripple_serialize` as a specification: the ordered list of the fields a
    Payment puts on the wire, and running the field encoders over it with
    the first failure stopping the rest. */
module Serializer {
  import opened Bytes
  import opened Catalog
  import opened Codec
  import opened Encoders

  /** The payment to serialize; `None` is an unset presence flag. The
      transaction type is always Payment (code 0) and is not a field here.
      The flags are a 32-bit word of bits, held as its unsigned value. */
  datatype PaymentTx = PaymentTx(
    flags: Option<uint32>,
    sequence: Option<uint32>,
    destinationTag: Option<uint32>,
    lastLedgerSequence: Option<uint32>,
    amount: Option<uint64>,
    fee: Option<uint64>,
    destination: Option<string>)

  /** `base58_decode_check` with the ledger's alphabet: the bytes it decodes a
      string to, fewer or none when the string does not decode. */
  type Decoder = string -> seq<byte>

  /** One field encoder call: the mapping and the value handed to it. An
      address field carries what the decoder produced for the string. */
  datatype Field =
    | Int16Field(m: FieldMapping, v16: int16)
    | Int32Field(m: FieldMapping, v32: int32)
    | AmountField(m: FieldMapping, drops: int64)
    | BlobField(m: FieldMapping, bytes: seq<byte>)
    | AddressField(m: FieldMapping, raw: seq<byte>)

  /** Number of places in the fixed field order. */
  const Slots := 11

  /** The mapping the serializer passes at each place of the fixed order.
      The fee (place 6) goes out under the Amount mapping, not under FmFee. */
  function SlotMapping(k: nat): (r: FieldMapping)
    requires k < Slots
    ensures r != FmFee
  {
    [FmType, FmFlags, FmSequence, FmDestinationTag, FmLastLedgerSequence, FmAmount,
     FmAmount, FmSigningPubKey, FmTxnSignature, FmAccount, FmDestination][k]
  }

  /** The type each place is written with; the Amount mapping is used at
      exactly two places, the amount and the fee. */
  lemma SlotMappingTypes(k: nat)
    requires k < Slots
    ensures SlotMapping(k) == FmAmount <==> k == 5 || k == 6
    ensures SlotMapping(k).typ == (if k == 0 then Int16 else if k <= 4 then Int32 else if k <= 6 then Amount
                                   else if k <= 8 then VL else Account)
  {
  }

  /** The public key (33 bytes are read) and the signature (64 bytes are read) are long enough. */
  predicate Readable(pubkey: Option<seq<byte>>, sig: Option<seq<byte>>)
  {
    (pubkey.Some? ==> |pubkey.value| >= 33) && (sig.Some? ==> |sig.value| >= 64)
  }

  /** The field at place k of the fixed order, when it is present. */
  function Slot(tx: PaymentTx, source: Option<string>, pubkey: Option<seq<byte>>,
                sig: Option<seq<byte>>, decode: Decoder, k: nat): (r: Option<Field>)
    requires k < Slots && Readable(pubkey, sig)
    ensures r.Some? ==> r.value.m == SlotMapping(k)
  {
    match k
    case 0 => Some(Int16Field(FmType, 0))
    case 1 => if tx.flags.Some? then Some(Int32Field(FmFlags, ToInt32(tx.flags.value))) else None
    case 2 => if tx.sequence.Some? then Some(Int32Field(FmSequence, ToInt32(tx.sequence.value))) else None
    case 3 =>
      if tx.destinationTag.Some? then Some(Int32Field(FmDestinationTag, ToInt32(tx.destinationTag.value)))
      else None
    case 4 =>
      if tx.lastLedgerSequence.Some? then Some(Int32Field(FmLastLedgerSequence, ToInt32(tx.lastLedgerSequence.value)))
      else None
    case 5 => if tx.amount.Some? then Some(AmountField(FmAmount, ToInt64(tx.amount.value))) else None
    case 6 => if tx.fee.Some? then Some(AmountField(FmAmount, ToInt64(tx.fee.value))) else None
    case 7 => if pubkey.Some? then Some(BlobField(FmSigningPubKey, pubkey.value[..33])) else None
    case 8 => if sig.Some? then Some(BlobField(FmTxnSignature, sig.value[..64])) else None
    case 9 => if source.Some? then Some(AddressField(FmAccount, decode(source.value))) else None
    case _ => if tx.destination.Some? then Some(AddressField(FmDestination, decode(tx.destination.value))) else None
  }

  /** The present fields among the first k places, in order. */
  function FieldsUpTo(tx: PaymentTx, source: Option<string>, pubkey: Option<seq<byte>>,
                      sig: Option<seq<byte>>, decode: Decoder, k: nat): (r: seq<Field>)
    requires k <= Slots && Readable(pubkey, sig)
    ensures |r| <= k && (k >= 1 ==> |r| >= 1 && r[0] == Int16Field(FmType, 0))
  {
    if k == 0 then []
    else
      var s := Slot(tx, source, pubkey, sig, decode, k - 1);
      FieldsUpTo(tx, source, pubkey, sig, decode, k - 1) + if s.Some? then [s.value] else []
  }

  /** The fields `ripple_serialize` emits, in emission order. */
  function Fields(tx: PaymentTx, source: Option<string>, pubkey: Option<seq<byte>>,
                  sig: Option<seq<byte>>, decode: Decoder): (r: seq<Field>)
    requires Readable(pubkey, sig)
    ensures 1 <= |r| <= Slots && r[0] == Int16Field(FmType, 0)
  {
    FieldsUpTo(tx, source, pubkey, sig, decode, Slots)
  }

  /** An optional 32-bit field: nothing, or its value cast to `int32_t`. */
  function Int32Slot(m: FieldMapping, v: Option<uint32>): seq<Field>
  {
    if v.Some? then [Int32Field(m, ToInt32(v.value))] else []
  }

  /** An optional amount: nothing, or its value cast to `int64_t`. */
  function AmountSlot(m: FieldMapping, v: Option<uint64>): seq<Field>
  {
    if v.Some? then [AmountField(m, ToInt64(v.value))] else []
  }

  /** An optional buffer of which the first `count` bytes are sent. */
  function BlobSlot(m: FieldMapping, b: Option<seq<byte>>, count: nat): seq<Field>
    requires b.Some? ==> |b.value| >= count
  {
    if b.Some? then [BlobField(m, b.value[..count])] else []
  }

  /** An optional address, as the decoder reads it. */
  function AddressSlot(m: FieldMapping, a: Option<string>, decode: Decoder): seq<Field>
  {
    if a.Some? then [AddressField(m, decode(a.value))] else []
  }

  /** The first six places written out, as `ripple_serialize` lists its calls. */
  lemma HeaderInOrder(tx: PaymentTx, source: Option<string>, pubkey: Option<seq<byte>>,
                      sig: Option<seq<byte>>, decode: Decoder)
    requires Readable(pubkey, sig)
    ensures FieldsUpTo(tx, source, pubkey, sig, decode, 6)
         == [Int16Field(FmType, 0)] + Int32Slot(FmFlags, tx.flags) + Int32Slot(FmSequence, tx.sequence)
            + Int32Slot(FmDestinationTag, tx.destinationTag) + Int32Slot(FmLastLedgerSequence, tx.lastLedgerSequence)
            + AmountSlot(FmAmount, tx.amount)
  {
    assert FieldsUpTo(tx, source, pubkey, sig, decode, 1) == [Int16Field(FmType, 0)];
    assert FieldsUpTo(tx, source, pubkey, sig, decode, 2) == FieldsUpTo(tx, source, pubkey, sig, decode, 1) + Int32Slot(FmFlags, tx.flags);
    assert FieldsUpTo(tx, source, pubkey, sig, decode, 3) == FieldsUpTo(tx, source, pubkey, sig, decode, 2) + Int32Slot(FmSequence, tx.sequence);
    assert FieldsUpTo(tx, source, pubkey, sig, decode, 4) == FieldsUpTo(tx, source, pubkey, sig, decode, 3) + Int32Slot(FmDestinationTag, tx.destinationTag);
    assert FieldsUpTo(tx, source, pubkey, sig, decode, 5) == FieldsUpTo(tx, source, pubkey, sig, decode, 4) + Int32Slot(FmLastLedgerSequence, tx.lastLedgerSequence);
    assert FieldsUpTo(tx, source, pubkey, sig, decode, 6) == FieldsUpTo(tx, source, pubkey, sig, decode, 5) + AmountSlot(FmAmount, tx.amount);
  }

  /** The fields written out place by place, as `ripple_serialize` lists its calls. */
  lemma FieldsInOrder(tx: PaymentTx, source: Option<string>, pubkey: Option<seq<byte>>,
                      sig: Option<seq<byte>>, decode: Decoder)
    requires Readable(pubkey, sig)
    ensures Fields(tx, source, pubkey, sig, decode)
         == [Int16Field(FmType, 0)] + Int32Slot(FmFlags, tx.flags) + Int32Slot(FmSequence, tx.sequence)
            + Int32Slot(FmDestinationTag, tx.destinationTag) + Int32Slot(FmLastLedgerSequence, tx.lastLedgerSequence)
            + AmountSlot(FmAmount, tx.amount) + AmountSlot(FmAmount, tx.fee)
            + BlobSlot(FmSigningPubKey, pubkey, 33) + BlobSlot(FmTxnSignature, sig, 64)
            + AddressSlot(FmAccount, source, decode) + AddressSlot(FmDestination, tx.destination, decode)
  {
    HeaderInOrder(tx, source, pubkey, sig, decode);
    assert FieldsUpTo(tx, source, pubkey, sig, decode, 7) == FieldsUpTo(tx, source, pubkey, sig, decode, 6) + AmountSlot(FmAmount, tx.fee);
    assert FieldsUpTo(tx, source, pubkey, sig, decode, 8) == FieldsUpTo(tx, source, pubkey, sig, decode, 7) + BlobSlot(FmSigningPubKey, pubkey, 33);
    assert FieldsUpTo(tx, source, pubkey, sig, decode, 9) == FieldsUpTo(tx, source, pubkey, sig, decode, 8) + BlobSlot(FmTxnSignature, sig, 64);
    assert FieldsUpTo(tx, source, pubkey, sig, decode, 10) == FieldsUpTo(tx, source, pubkey, sig, decode, 9) + AddressSlot(FmAccount, source, decode);
    assert FieldsUpTo(tx, source, pubkey, sig, decode, 11) == FieldsUpTo(tx, source, pubkey, sig, decode, 10) + AddressSlot(FmDestination, tx.destination, decode);
  }

  /** The places before the signature do not depend on it. */
  lemma {:induction false} HeadIgnoresSignature(tx: PaymentTx, source: Option<string>, pubkey: Option<seq<byte>>,
                                                sig: seq<byte>, decode: Decoder, k: nat)
    requires k <= 8 && Readable(pubkey, Some(sig))
    ensures FieldsUpTo(tx, source, pubkey, Some(sig), decode, k) == FieldsUpTo(tx, source, pubkey, None, decode, k)
  {
    if k > 0 {
      HeadIgnoresSignature(tx, source, pubkey, sig, decode, k - 1);
      assert Slot(tx, source, pubkey, Some(sig), decode, k - 1) == Slot(tx, source, pubkey, None, decode, k - 1);
    }
  }

  /** The last three places after the first eight. */
  lemma FieldsTail(tx: PaymentTx, source: Option<string>, pubkey: Option<seq<byte>>,
                   sig: Option<seq<byte>>, decode: Decoder)
    requires Readable(pubkey, sig)
    ensures Fields(tx, source, pubkey, sig, decode)
         == FieldsUpTo(tx, source, pubkey, sig, decode, 8) + BlobSlot(FmTxnSignature, sig, 64)
            + AddressSlot(FmAccount, source, decode) + AddressSlot(FmDestination, tx.destination, decode)
  {
    assert FieldsUpTo(tx, source, pubkey, sig, decode, 9)
        == FieldsUpTo(tx, source, pubkey, sig, decode, 8) + BlobSlot(FmTxnSignature, sig, 64);
    assert FieldsUpTo(tx, source, pubkey, sig, decode, 10)
        == FieldsUpTo(tx, source, pubkey, sig, decode, 9) + AddressSlot(FmAccount, source, decode);
  }

  /** The signed serialization is the unsigned one with the signature's
      field, its first 64 bytes, inserted after the public key. */
  lemma SignatureInserted(tx: PaymentTx, source: Option<string>, pubkey: Option<seq<byte>>,
                          sig: seq<byte>, decode: Decoder) returns (n: nat)
    requires Readable(pubkey, Some(sig))
    ensures var unsigned := Fields(tx, source, pubkey, None, decode);
      n <= |unsigned| &&
      Fields(tx, source, pubkey, Some(sig), decode)
        == unsigned[..n] + [BlobField(FmTxnSignature, sig[..64])] + unsigned[n..]
  {
    HeadIgnoresSignature(tx, source, pubkey, sig, decode, 8);
    FieldsTail(tx, source, pubkey, Some(sig), decode);
    FieldsTail(tx, source, pubkey, None, decode);
    var head := FieldsUpTo(tx, source, pubkey, None, decode, 8);
    var rest := AddressSlot(FmAccount, source, decode) + AddressSlot(FmDestination, tx.destination, decode);
    var unsigned := Fields(tx, source, pubkey, None, decode);
    assert unsigned == head + rest;
    n := |head|;
    assert unsigned[..n] == head && unsigned[n..] == rest;
  }

  /** One field encoder call on the cursor. */
  function FieldStep(c: Cursor, f: Field): (r: Step)
    requires c.Valid()
    ensures r.cur.Valid()
  {
    match f
    case Int16Field(m, v) => Emit(c, TagBytes(m) + BigEndian(v, 2))
    case Int32Field(m, v) => Emit(c, TagBytes(m) + BigEndian(v, 4))
    case AmountField(m, drops) => AmountStep(c, m, drops)
    case BlobField(m, bytes) => VLStep(c, m, bytes)
    case AddressField(_, raw) => AddressStep(c, raw)
  }

  /** The encoders of fs in order, chained through `ok`: once one fails the
      rest are not called. */
  function RunFields(c: Cursor, fs: seq<Field>): (r: Step)
    requires c.Valid()
    ensures r.cur.Valid()
  {
    if fs == [] then Step(c, true)
    else
      var s := RunFields(c, fs[..|fs| - 1]);
      if !s.ok then s else FieldStep(s.cur, fs[|fs| - 1])
  }

  /** No field encoder changes a cell outside [pos, end) or moves the cursor back. */
  lemma FieldStepFramed(c: Cursor, f: Field)
    requires c.Valid()
    ensures Framed(c, FieldStep(c, f).cur)
  {
    match f
    case Int16Field(m, v) => EmitWrites(c, TagBytes(m) + BigEndian(v, 2));
    case Int32Field(m, v) => EmitWrites(c, TagBytes(m) + BigEndian(v, 4));
    case AmountField(m, drops) => AmountStepWrites(c, m, drops);
    case BlobField(m, bytes) => VLStepWrites(c, m, bytes);
    case AddressField(_, raw) => AddressStepEffect(c, raw);
  }

  /** A whole run changes no cell outside [c.pos, c.end), address skips
      included: a skip writes nothing, and every later write checks `end`. */
  lemma {:induction false} RunFieldsFramed(c: Cursor, fs: seq<Field>)
    requires c.Valid()
    ensures Framed(c, RunFields(c, fs).cur)
  {
    if fs != [] {
      var s := RunFields(c, fs[..|fs| - 1]);
      RunFieldsFramed(c, fs[..|fs| - 1]);
      if s.ok {
        FieldStepFramed(s.cur, fs[|fs| - 1]);
        FramedTrans(c, s.cur, RunFields(c, fs).cur);
      }
    }
  }

  /** Running one more field after fs is running fs and then, if all went well, that field. */
  lemma RunSnoc(c: Cursor, fs: seq<Field>, f: Field)
    requires c.Valid()
    ensures RunFields(c, fs + [f])
            == (var s := RunFields(c, fs); if s.ok then FieldStep(s.cur, f) else s)
  {
    assert (fs + [f])[..|fs|] == fs;
  }

  /** The address decoder produced something other than 20 bytes, so the address encoder skips. */
  predicate IsSkip(f: Field)
  {
    f.AddressField? && |f.raw| != 20
  }

  /** The bytes a field puts on the wire when it is not skipped. An amount
      out of range leaves only its tag. */
  function Encoding(f: Field): (r: seq<byte>)
    ensures !f.AddressField? ==> TagBytes(f.m) <= r
    ensures f.AddressField? ==> (r == [] <==> IsSkip(f))
    ensures f.AddressField? && !IsSkip(f) ==> |r| == 20 && r[0] == 19
  {
    match f
    case Int16Field(m, v) => TagBytes(m) + BigEndian(v, 2)
    case Int32Field(m, v) => TagBytes(m) + BigEndian(v, 4)
    case AmountField(m, drops) => TagBytes(m) + if 0 <= drops <= MaxDrops then AmountBytes(drops) else []
    case BlobField(m, bytes) => TagBytes(m) + PrefixOf(|bytes|) + bytes
    case AddressField(_, raw) => if |raw| == 20 then [19] + raw[1..] else []
  }

  /** The encodings of fs, one after the other. */
  function Encodings(fs: seq<Field>): (r: seq<byte>)
    ensures (forall i :: 0 <= i < |fs| ==> !IsSkip(fs[i])) ==> |r| >= |fs|
  {
    if fs == [] then [] else Encodings(fs[..|fs| - 1]) + Encoding(fs[|fs| - 1])
  }

  /** The encodings of two lists one after the other are the encodings of the
      joined list. */
  lemma {:induction false} EncodingsAppend(a: seq<Field>, b: seq<Field>)
    ensures Encodings(a + b) == Encodings(a) + Encodings(b)
    decreases |b|
  {
    if b != [] {
      var init := b[..|b| - 1];
      var last := b[|b| - 1];
      assert (a + b)[..|a + b| - 1] == a + init && (a + b)[|a + b| - 1] == last;
      EncodingsAppend(a, init);
      ConcatAssoc(Encodings(a), Encodings(init), Encoding(last));
    } else {
      assert a + b == a;
    }
  }

  /** A field that is not skipped writes a prefix of its encoding, all of it when it succeeds. */
  lemma FieldStepWrites(c: Cursor, f: Field)
    requires c.Valid() && !IsSkip(f)
    ensures Wrote(c, FieldStep(c, f).cur, Encoding(f))
    ensures FieldStep(c, f).ok ==> FieldStep(c, f).cur.pos == c.pos + |Encoding(f)|
  {
    match f
    case Int16Field(m, v) => EmitWrites(c, TagBytes(m) + BigEndian(v, 2));
    case Int32Field(m, v) => EmitWrites(c, TagBytes(m) + BigEndian(v, 4));
    case AmountField(m, drops) => AmountStepWrites(c, m, drops);
    case BlobField(m, bytes) => VLStepWrites(c, m, bytes);
    case AddressField(_, raw) => AddressStepEffect(c, raw); assert PrefixOf(19) == [19];
  }

  /** Without skips, a run writes a prefix of the concatenated encodings at
      the cursor, and a successful run writes all of it, ending at or before `end`. */
  lemma {:induction false} RunFieldsWrites(c: Cursor, fs: seq<Field>)
    requires c.Valid()
    requires forall i :: 0 <= i < |fs| ==> !IsSkip(fs[i])
    ensures Wrote(c, RunFields(c, fs).cur, Encodings(fs))
    ensures RunFields(c, fs).ok ==> RunFields(c, fs).cur.pos == c.pos + |Encodings(fs)|
  {
    if fs != [] {
      var init := fs[..|fs| - 1];
      var last := fs[|fs| - 1];
      RunFieldsWrites(c, init);
      var s := RunFields(c, init);
      if s.ok {
        FieldStepWrites(s.cur, last);
        WroteThen(c, s.cur, Encodings(init), FieldStep(s.cur, last).cur, Encoding(last));
      } else {
        WroteMore(c, s.cur, Encodings(init), Encoding(last));
      }
    } else {
      assert Splice(c.mem, c.pos, []) == c.mem;
    }
  }

  /** The serialized bytes of a run without skips that succeeded: memory is
      the old memory with the encodings at the cursor, and the cursor sits
      right after them, still at or before `end`. */
  lemma SerializedExactly(c: Cursor, fs: seq<Field>)
    requires c.Valid() && c.pos <= c.end
    requires forall i :: 0 <= i < |fs| ==> !IsSkip(fs[i])
    requires RunFields(c, fs).ok
    ensures c.pos + |Encodings(fs)| <= c.end
    ensures RunFields(c, fs).cur
            == Cursor(Splice(c.mem, c.pos, Encodings(fs)), c.pos + |Encodings(fs)|, c.end)
  {
    RunFieldsWrites(c, fs);
    assert Encodings(fs)[..|Encodings(fs)|] == Encodings(fs);
  }

  /** Short circuit: a failed run failed in some field k; the fields before
      k all succeeded, and the result is field k's, so no field after it
      wrote anything. */
  lemma {:induction false} StopsAtFirstFailure(c: Cursor, fs: seq<Field>)
    requires c.Valid() && !RunFields(c, fs).ok
    ensures exists k :: 0 <= k < |fs| && RunFields(c, fs[..k]).ok &&
              RunFields(c, fs) == FieldStep(RunFields(c, fs[..k]).cur, fs[k])
  {
    var init := fs[..|fs| - 1];
    var s := RunFields(c, init);
    if s.ok {
      var k := |fs| - 1;
      assert fs[..k] == init;
    } else {
      StopsAtFirstFailure(c, init);
      var k :| 0 <= k < |init| && RunFields(c, init[..k]).ok &&
                RunFields(c, init) == FieldStep(RunFields(c, init[..k]).cur, init[k]);
      assert init[..k] == fs[..k] && init[k] == fs[k];
    }
  }

  /** The rank of the mappings along the fixed order never decreases; it
      strictly increases everywhere except between the amount and the fee,
      which share the Amount mapping. */
  lemma SlotOrder(i: nat, j: nat)
    requires i < j < Slots
    ensures Rank(SlotMapping(i)) <= Rank(SlotMapping(j))
    ensures Rank(SlotMapping(i)) == Rank(SlotMapping(j)) <==> i == 5 && j == 6
  {
  }

  /** The first k places of the fixed order, present or not. */
  function Row(tx: PaymentTx, source: Option<string>, pubkey: Option<seq<byte>>,
               sig: Option<seq<byte>>, decode: Decoder, k: nat): (r: seq<Option<Field>>)
    requires k <= Slots && Readable(pubkey, sig)
    ensures |r| == k && forall p :: 0 <= p < k ==> r[p] == Slot(tx, source, pubkey, sig, decode, p)
  {
    seq(k, p requires 0 <= p < k => Slot(tx, source, pubkey, sig, decode, p))
  }

  /** The present entries of a row, in order. */
  function Present(row: seq<Option<Field>>): seq<Field>
  {
    if row == [] then []
    else Present(row[..|row| - 1]) + if row[|row| - 1].Some? then [row[|row| - 1].value] else []
  }

  /** The fields of the first k places are the present entries of the row. */
  lemma {:induction false} FieldsUpToRow(tx: PaymentTx, source: Option<string>, pubkey: Option<seq<byte>>,
                                         sig: Option<seq<byte>>, decode: Decoder, k: nat)
    requires k <= Slots && Readable(pubkey, sig)
    ensures FieldsUpTo(tx, source, pubkey, sig, decode, k) == Present(Row(tx, source, pubkey, sig, decode, k))
  {
    if k > 0 {
      FieldsUpToRow(tx, source, pubkey, sig, decode, k - 1);
      var s := Slot(tx, source, pubkey, sig, decode, k - 1);
      var row := Row(tx, source, pubkey, sig, decode, k);
      assert row[..k - 1] == Row(tx, source, pubkey, sig, decode, k - 1);
      assert row[k - 1] == s;
      assert Present(row) == Present(row[..k - 1]) + if s.Some? then [s.value] else [];
    }
  }

  /** The places of a row's present entries, in order. */
  function Places(row: seq<Option<Field>>): seq<nat>
  {
    if row == [] then []
    else Places(row[..|row| - 1]) + if row[|row| - 1].Some? then [|row| - 1] else []
  }

  /** The i-th present entry sits at the i-th place. */
  lemma {:induction false} PlacesMatch(row: seq<Option<Field>>)
    ensures |Places(row)| == |Present(row)|
    ensures forall i :: 0 <= i < |Places(row)| ==>
              Places(row)[i] < |row| && row[Places(row)[i]] == Some(Present(row)[i])
  {
    if row != [] {
      var init := row[..|row| - 1];
      PlacesMatch(init);
      forall i | 0 <= i < |Places(init)|
        ensures Places(row)[i] == Places(init)[i] && Present(row)[i] == Present(init)[i]
        ensures row[Places(row)[i]] == init[Places(init)[i]]
      {
      }
    }
  }

  /** The places strictly increase. */
  lemma {:induction false} PlacesIncrease(row: seq<Option<Field>>)
    ensures forall i :: 0 <= i < |Places(row)| ==> Places(row)[i] < |row|
    ensures forall i, j :: 0 <= i < j < |Places(row)| ==> Places(row)[i] < Places(row)[j]
  {
    if row != [] {
      PlacesIncrease(row[..|row| - 1]);
    }
  }

  /** Every present entry's place is listed. */
  lemma {:induction false} PlacesCover(row: seq<Option<Field>>)
    ensures forall p :: 0 <= p < |row| && row[p].Some? ==> p in Places(row)
  {
    if row != [] {
      var init := row[..|row| - 1];
      PlacesCover(init);
      forall p | 0 <= p < |row| && row[p].Some? ensures p in Places(row) {
        if p < |row| - 1 {
          assert init[p] == row[p];
        } else {
          assert Places(row)[|Places(init)|] == p;
        }
      }
    }
  }

  /** A present first entry comes first. */
  lemma {:induction false} PlacesFirst(row: seq<Option<Field>>)
    requires |row| >= 1 && row[0].Some?
    ensures |Places(row)| >= 1 && Places(row)[0] == 0
  {
    if |row| > 1 {
      var init := row[..|row| - 1];
      assert init[0] == row[0];
      PlacesFirst(init);
    }
  }

  lemma FixedFieldOrder(tx: PaymentTx, source: Option<string>, pubkey: Option<seq<byte>>,
                        sig: Option<seq<byte>>, decode: Decoder)
      returns (places: seq<nat>)
    requires Readable(pubkey, sig)
    ensures var fs := Fields(tx, source, pubkey, sig, decode);
      |places| == |fs| && |fs| >= 1 && fs[0] == Int16Field(FmType, 0) &&
      (forall i :: 0 <= i < |fs| ==> places[i] < Slots && Slot(tx, source, pubkey, sig, decode, places[i]) == Some(fs[i])) &&
      (forall i, j :: 0 <= i < j < |fs| ==> places[i] < places[j] && Rank(fs[i].m) <= Rank(fs[j].m)) &&
      (forall p :: 0 <= p < Slots && Slot(tx, source, pubkey, sig, decode, p).Some? ==> p in places)
  {
    FieldsUpToRow(tx, source, pubkey, sig, decode, Slots);
    var row := Row(tx, source, pubkey, sig, decode, Slots);
    places := Places(row);
    PlacesMatch(row);
    PlacesIncrease(row);
    PlacesCover(row);
    PlacesFirst(row);
    var fs := Fields(tx, source, pubkey, sig, decode);
    forall i, j | 0 <= i < j < |fs| ensures Rank(fs[i].m) <= Rank(fs[j].m) {
      SlotOrder(places[i], places[j]);
    }
  }
}
