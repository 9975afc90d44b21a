/** The encoders of lib/firmware/ripple.c as methods of a bounded writer: a
    byte array owned by the caller, the cursor `pos` into it and the
    `end` the cursor may not write at or beyond. Every method returns
    whether it succeeded and is proved to do to (array, pos) what the
    matching step function of `Encoders` does to a cursor value. */
module Writer {
  import opened Bytes
  import opened Catalog
  import opened Codec
  import opened Encoders
  import opened Serializer

  /** Eight single-byte appends build the eight-byte string. */
  lemma EightAppends(a: byte, b: byte, c: byte, d: byte, e: byte, f: byte, g: byte, h: byte)
    ensures [] + [a] + [b] + [c] + [d] + [e] + [f] + [g] + [h] == [a, b, c, d, e, f, g, h]
  {
  }

  class BoundedWriter {
    var buf: array<byte>
    var pos: nat
    var end: nat

    ghost predicate Valid()
      reads this
    {
      end <= buf.Length
    }

    /** The writer's state as a cursor value. */
    function Cur(): (c: Cursor)
      reads this, buf
      ensures c.Valid() <==> Valid()
    {
      Cursor(buf[..], pos, end)
    }

    /** The cursor pair `buf`, `buf + len` over `mem`, starting at `start`. */
    constructor (mem: array<byte>, start: nat, end: nat)
      requires end <= mem.Length
      ensures Valid() && buf == mem && pos == start && this.end == end
    {
      buf := mem;
      pos := start;
      this.end := end;
    }

    /** `append_u8`: store one byte at the cursor and advance, unless the cursor is at or past `end`. */
    method AppendU8(val: byte) returns (ok: bool)
      requires Valid()
      modifies this`pos, buf
      ensures Valid() && Step(Cur(), ok) == Put(old(Cur()), val)
    {
      if pos + 1 > end {
        return false;
      }
      buf[pos] := val;
      pos := pos + 1;
      ok := true;
      assert buf[..] == old(buf[..])[old(pos) := val];
    }

    /** `ok = ok && append_u8(...)`: one more link of a chain of appends
        that started at cursor `c` and has so far been asked for `done`. */
    method AndAppend(ok: bool, val: byte, ghost c: Cursor, ghost done: seq<byte>) returns (r: bool)
      requires Valid() && c.Valid() && Step(Cur(), ok) == Emit(c, done)
      modifies this`pos, buf
      ensures Valid() && Step(Cur(), r) == Emit(c, done + [val])
    {
      EmitSnoc(c, done, val);
      r := ok;
      if ok {
        r := AppendU8(val);
      }
    }

    /** `ripple_serializeType`: the field's tag. */
    method SerializeType(m: FieldMapping) returns (ok: bool)
      requires Valid()
      modifies this`pos, buf
      ensures Valid() && Step(Cur(), ok) == Emit(old(Cur()), TagBytes(m))
    {
      ghost var c0 := Cur();
      if m.key <= 0xf {
        ok := AndAppend(true, TypeCode(m.typ) * 16 + m.key, c0, []);
        assert [] + [TypeCode(m.typ) * 16 + m.key] == TagBytes(m);
      } else {
        ok := AndAppend(true, TypeCode(m.typ) * 16, c0, []);
        ok := AndAppend(ok, m.key, c0, [] + [TypeCode(m.typ) * 16]);
        assert [] + [TypeCode(m.typ) * 16] + [m.key] == TagBytes(m);
      }
    }

    /** `ripple_serializeInt16`: the tag, then `(val >> 8) & 0xff` and `val & 0xff`. */
    method SerializeInt16(m: FieldMapping, val: int16) returns (ok: bool)
      requires Valid() && m.typ == Int16
      modifies this`pos, buf
      ensures Valid() && Step(Cur(), ok) == Emit(old(Cur()), TagBytes(m) + BigEndian(val, 2))
    {
      ghost var c0 := Cur();
      ghost var tag := TagBytes(m);
      ok := SerializeType(m);
      ok := AndAppend(ok, val / 0x100 % 0x100, c0, tag);
      ok := AndAppend(ok, val % 0x100, c0, tag + [val / 0x100 % 0x100]);
      BigEndian2(val);
      assert tag + [val / 0x100 % 0x100] + [val % 0x100] == TagBytes(m) + BigEndian(val, 2);
    }

    /** `ripple_serializeInt32`: the tag, then `(val >> 24) & 0xff` down to `val & 0xff`. */
    method SerializeInt32(m: FieldMapping, val: int32) returns (ok: bool)
      requires Valid() && m.typ == Int32
      modifies this`pos, buf
      ensures Valid() && Step(Cur(), ok) == Emit(old(Cur()), TagBytes(m) + BigEndian(val, 4))
    {
      ghost var c0 := Cur();
      ghost var done := TagBytes(m);
      ok := SerializeType(m);
      ok := AndAppend(ok, val / 0x100_0000 % 0x100, c0, done);
      done := done + [val / 0x100_0000 % 0x100];
      ok := AndAppend(ok, val / 0x1_0000 % 0x100, c0, done);
      done := done + [val / 0x1_0000 % 0x100];
      ok := AndAppend(ok, val / 0x100 % 0x100, c0, done);
      done := done + [val / 0x100 % 0x100];
      ok := AndAppend(ok, val % 0x100, c0, done);
      done := done + [val % 0x100];
      BigEndian4(val);
      assert done == TagBytes(m) + BigEndian(val, 4);
    }

    /** `ripple_serializeAmount`: the tag; then the range checks, which fail
        the call; then the top byte with 0x80 cleared and 0x40 set, and the
        seven lower bytes, most significant first. */
    method SerializeAmount(m: FieldMapping, amount: int64) returns (ok: bool)
      requires Valid()
      modifies this`pos, buf
      ensures Valid() && Step(Cur(), ok) == AmountStep(old(Cur()), m, amount)
    {
      ok := SerializeType(m);
      if amount < 0 || amount > MaxDrops {
        return false;
      }
      if !ok {
        return;
      }
      ghost var c1 := Cur();
      var msb: byte := amount / 0x100_0000_0000_0000 % 0x100;
      msb := msb % 0x80;
      msb := if msb / 0x40 == 1 then msb else msb + 0x40;
      var b6: byte, b5: byte, b4: byte, b3: byte := amount / 0x1_0000_0000_0000 % 0x100, amount / 0x100_0000_0000 % 0x100,
                            amount / 0x1_0000_0000 % 0x100, amount / 0x100_0000 % 0x100;
      var b2: byte, b1: byte, b0: byte := amount / 0x1_0000 % 0x100, amount / 0x100 % 0x100, amount % 0x100;
      AmountDigits(amount, msb);
      ghost var done: seq<byte> := [];
      ok := AndAppend(ok, msb, c1, done);
      done := done + [msb];
      ok := AndAppend(ok, b6, c1, done);
      done := done + [b6];
      ok := AndAppend(ok, b5, c1, done);
      done := done + [b5];
      ok := AndAppend(ok, b4, c1, done);
      done := done + [b4];
      ok := AndAppend(ok, b3, c1, done);
      done := done + [b3];
      ok := AndAppend(ok, b2, c1, done);
      done := done + [b2];
      ok := AndAppend(ok, b1, c1, done);
      done := done + [b1];
      ok := AndAppend(ok, b0, c1, done);
      done := done + [b0];
      EightAppends(msb, b6, b5, b4, b3, b2, b1, b0);
    }

    /** `ripple_serializeVarint`: the three-tier length prefix. */
    method SerializeVarint(val: int) returns (ok: bool)
      requires Valid()
      modifies this`pos, buf
      ensures Valid() && Step(Cur(), ok) == VarintStep(old(Cur()), val)
    {
      ghost var c0 := Cur();
      if val < 0 {
        return false;
      }
      if val < 192 {
        ok := AndAppend(true, val, c0, []);
        assert [] + [val] == VarintBytes(val).value;
        return;
      }
      if val <= 12480 {
        var v := val - 193;
        ok := AndAppend(true, 193 + v / 0x100, c0, []);
        ok := AndAppend(ok, v % 0x100, c0, [] + [193 + v / 0x100]);
        assert [] + [193 + v / 0x100] + [v % 0x100] == VarintBytes(val).value;
        return;
      }
      if val < 918744 {
        if !(pos + 3 < end) {
          return false;
        }
        var v := val - 12481;
        ok := AndAppend(true, 241 + v / 0x1_0000, c0, []);
        ok := AndAppend(ok, v / 0x100 % 0x100, c0, [] + [241 + v / 0x1_0000]);
        ok := AndAppend(ok, v % 0x100, c0, [] + [241 + v / 0x1_0000] + [v / 0x100 % 0x100]);
        assert [] + [241 + v / 0x1_0000] + [v / 0x100 % 0x100] + [v % 0x100] == VarintBytes(val).value;
        return;
      }
      return false;
    }

    /** `ripple_serializeBytes`: the length prefix, then a copy of `bytes`
        when it leaves at least one cell before `end`. */
    method SerializeBytes(bytes: seq<byte>) returns (ok: bool)
      requires Valid()
      modifies this`pos, buf
      ensures Valid() && Step(Cur(), ok) == BytesStep(old(Cur()), bytes)
    {
      ok := SerializeVarint(|bytes|);
      if !ok || pos + |bytes| >= end {
        return false;
      }
      ghost var before := buf[..];
      forall i | 0 <= i < |bytes| {
        buf[pos + i] := bytes[i];
      }
      SpliceFrom(before, buf[..], pos, bytes);
      pos := pos + |bytes|;
    }

    /** `ripple_serializeVL`: the tag, then the prefixed bytes. */
    method SerializeVL(m: FieldMapping, bytes: seq<byte>) returns (ok: bool)
      requires Valid()
      modifies this`pos, buf
      ensures Valid() && Step(Cur(), ok) == VLStep(old(Cur()), m, bytes)
    {
      ok := SerializeType(m);
      if ok {
        ok := SerializeBytes(bytes);
      }
    }

    /** `ripple_serializeAddress`: decode the address; the mapping `m` is not
        used and no tag is written. A decode of any length but 20 moves the
        cursor 20 cells with no check and reports success. */
    method SerializeAddress(m: FieldMapping, address: string, decode: Decoder) returns (ok: bool)
      requires Valid()
      modifies this`pos, buf
      ensures Valid() && Step(Cur(), ok) == AddressStep(old(Cur()), decode(address))
    {
      var raw := decode(address);
      if |raw| != 20 {
        pos := pos + 20;
        return true;
      }
      ok := SerializeBytes(raw[1..]);
    }

    /** `ok = ok && ripple_serializeInt16(...)`, one more field of a run
        that started at cursor `c` and has so far been asked for `fs`. */
    method AndInt16(ok: bool, m: FieldMapping, val: int16, ghost c: Cursor, ghost fs: seq<Field>) returns (r: bool)
      requires Valid() && c.Valid() && m.typ == Int16 && Step(Cur(), ok) == RunFields(c, fs)
      modifies this`pos, buf
      ensures Valid() && Step(Cur(), r) == RunFields(c, fs + [Int16Field(m, val)])
    {
      RunSnoc(c, fs, Int16Field(m, val));
      r := ok;
      if ok {
        r := SerializeInt16(m, val);
      }
    }

    /** `if (has) ok = ok && ripple_serializeInt32(...)`, the value cast to `int32_t`. */
    method AndInt32(ok: bool, m: FieldMapping, val: Option<uint32>, ghost c: Cursor, ghost fs: seq<Field>)
      returns (r: bool)
      requires Valid() && c.Valid() && m.typ == Int32 && Step(Cur(), ok) == RunFields(c, fs)
      modifies this`pos, buf
      ensures Valid()
      ensures Step(Cur(), r) == RunFields(c, fs + Int32Slot(m, val))
    {
      r := ok;
      if val.Some? {
        RunSnoc(c, fs, Int32Field(m, ToInt32(val.value)));
        if ok {
          r := SerializeInt32(m, ToInt32(val.value));
        }
      } else {
        assert fs + [] == fs;
      }
    }

    /** `if (has) ok = ok && ripple_serializeAmount(...)`, the value cast to `int64_t`. */
    method AndAmount(ok: bool, m: FieldMapping, val: Option<uint64>, ghost c: Cursor, ghost fs: seq<Field>)
      returns (r: bool)
      requires Valid() && c.Valid() && Step(Cur(), ok) == RunFields(c, fs)
      modifies this`pos, buf
      ensures Valid()
      ensures Step(Cur(), r) == RunFields(c, fs + AmountSlot(m, val))
    {
      r := ok;
      if val.Some? {
        RunSnoc(c, fs, AmountField(m, ToInt64(val.value)));
        if ok {
          r := SerializeAmount(m, ToInt64(val.value));
        }
      } else {
        assert fs + [] == fs;
      }
    }

    /** `if (bytes) ok = ok && ripple_serializeVL(..., bytes, count)`. */
    method AndVL(ok: bool, m: FieldMapping, bytes: Option<seq<byte>>, count: nat, ghost c: Cursor, ghost fs: seq<Field>)
      returns (r: bool)
      requires Valid() && c.Valid() && Step(Cur(), ok) == RunFields(c, fs)
      requires bytes.Some? ==> |bytes.value| >= count
      modifies this`pos, buf
      ensures Valid()
      ensures Step(Cur(), r) == RunFields(c, fs + BlobSlot(m, bytes, count))
    {
      r := ok;
      if bytes.Some? {
        RunSnoc(c, fs, BlobField(m, bytes.value[..count]));
        if ok {
          r := SerializeVL(m, bytes.value[..count]);
        }
      } else {
        assert fs + [] == fs;
      }
    }

    /** `if (address) ok = ok && ripple_serializeAddress(...)`. */
    method AndAddress(ok: bool, m: FieldMapping, address: Option<string>, decode: Decoder, ghost c: Cursor,
                      ghost fs: seq<Field>) returns (r: bool)
      requires Valid() && c.Valid() && Step(Cur(), ok) == RunFields(c, fs)
      modifies this`pos, buf
      ensures Valid()
      ensures Step(Cur(), r) == RunFields(c, fs + AddressSlot(m, address, decode))
    {
      r := ok;
      if address.Some? {
        RunSnoc(c, fs, AddressField(m, decode(address.value)));
        if ok {
          r := SerializeAddress(m, address.value, decode);
        }
      } else {
        assert fs + [] == fs;
      }
    }

    /** `ripple_serialize`: the present fields in the fixed order, each
        encoder called only while every earlier one succeeded. */
    method Serialize(tx: PaymentTx, source: Option<string>, pubkey: Option<seq<byte>>,
                     sig: Option<seq<byte>>, decode: Decoder) returns (ok: bool)
      requires Valid() && Readable(pubkey, sig)
      modifies this`pos, buf
      ensures Valid() && Step(Cur(), ok) == RunFields(old(Cur()), Fields(tx, source, pubkey, sig, decode))
    {
      ghost var c0 := Cur();
      ok := AndInt16(true, FmType, 0, c0, []);
      ghost var fs := [Int16Field(FmType, 0)];
      ok := AndInt32(ok, FmFlags, tx.flags, c0, fs);
      fs := fs + Int32Slot(FmFlags, tx.flags);
      ok := AndInt32(ok, FmSequence, tx.sequence, c0, fs);
      fs := fs + Int32Slot(FmSequence, tx.sequence);
      ok := AndInt32(ok, FmDestinationTag, tx.destinationTag, c0, fs);
      fs := fs + Int32Slot(FmDestinationTag, tx.destinationTag);
      ok := AndInt32(ok, FmLastLedgerSequence, tx.lastLedgerSequence, c0, fs);
      fs := fs + Int32Slot(FmLastLedgerSequence, tx.lastLedgerSequence);
      ok := AndAmount(ok, FmAmount, tx.amount, c0, fs);
      fs := fs + AmountSlot(FmAmount, tx.amount);
      ok := AndAmount(ok, FmAmount, tx.fee, c0, fs);
      fs := fs + AmountSlot(FmAmount, tx.fee);
      ok := AndVL(ok, FmSigningPubKey, pubkey, 33, c0, fs);
      fs := fs + BlobSlot(FmSigningPubKey, pubkey, 33);
      ok := AndVL(ok, FmTxnSignature, sig, 64, c0, fs);
      fs := fs + BlobSlot(FmTxnSignature, sig, 64);
      ok := AndAddress(ok, FmAccount, source, decode, c0, fs);
      fs := fs + AddressSlot(FmAccount, source, decode);
      ok := AndAddress(ok, FmDestination, tx.destination, decode, c0, fs);
      fs := fs + AddressSlot(FmDestination, tx.destination, decode);
      FieldsInOrder(tx, source, pubkey, sig, decode);
    }
  }
}
