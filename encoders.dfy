/** What each encoder does to a bounded write cursor, as functions of the
    cursor's value. Every encoder is a chain of one-byte appends that stops
    at the first failure, so a failed encoder leaves a prefix of its
    encoding in memory; the exceptions are the unchecked address skip and
    the early checks of the length prefix, amount and blob encoders. */
module Encoders {
  import opened Bytes
  import opened Catalog
  import opened Codec

  /** A write cursor over caller-owned memory `mem`: `pos` is the next cell
      and `end` is one past the last cell the writer may use. `pos` may lie
      beyond `end`: the address encoder moves it without a check. */
  datatype Cursor = Cursor(mem: seq<byte>, pos: nat, end: nat) {
    predicate Valid() { end <= |mem| }
  }

  /** The cursor after an encoder, and what the encoder returned. */
  datatype Step = Step(cur: Cursor, ok: bool)

  /** Cells left before `end`. */
  function Room(c: Cursor): nat
  {
    if c.pos <= c.end then c.end - c.pos else 0
  }

  /** r is c after writing a prefix of e at c.pos and nothing else: the
      cursor moved over exactly what was written, never past `end`. */
  predicate Wrote(c: Cursor, r: Cursor, e: seq<byte>)
    requires c.Valid()
  {
    r.end == c.end && c.pos <= r.pos <= c.pos + |e| && r.pos <= c.pos + Room(c)
    && r.mem == Splice(c.mem, c.pos, e[..r.pos - c.pos])
  }

  /** r differs from c only in cells in [c.pos, c.end), and its cursor has not moved back. */
  predicate Framed(c: Cursor, r: Cursor)
  {
    r.end == c.end && |r.mem| == |c.mem| && c.pos <= r.pos
    && forall i :: 0 <= i < |c.mem| && !(c.pos <= i < c.end) ==> r.mem[i] == c.mem[i]
  }

  lemma WroteFramed(c: Cursor, r: Cursor, e: seq<byte>)
    requires c.Valid() && Wrote(c, r, e)
    ensures Framed(c, r) && r.Valid()
  {
  }

  lemma FramedTrans(a: Cursor, b: Cursor, c: Cursor)
    requires Framed(a, b) && Framed(b, c)
    ensures Framed(a, c)
  {
  }

  /** Writing e1 completely and then a prefix of e2 is writing a prefix of e1 + e2. */
  lemma WroteThen(c: Cursor, m: Cursor, e1: seq<byte>, r: Cursor, e2: seq<byte>)
    requires c.Valid() && Wrote(c, m, e1) && m.pos == c.pos + |e1|
    requires m.Valid() && Wrote(m, r, e2)
    ensures Wrote(c, r, e1 + e2)
  {
    var k := r.pos - m.pos;
    assert e1[..m.pos - c.pos] == e1;
    if k > 0 {
      assert m.pos + k <= m.end;
      assert c.pos + |e1| + k <= |c.mem|;
      SpliceSplice(c.mem, c.pos, e1, e2[..k]);
      assert (e1 + e2)[..r.pos - c.pos] == e1 + e2[..k];
    } else {
      assert e2[..k] == [];
      assert (e1 + e2)[..r.pos - c.pos] == e1;
    }
  }

  /** A prefix of e1 is also a prefix of e1 + e2. */
  lemma WroteMore(c: Cursor, r: Cursor, e1: seq<byte>, e2: seq<byte>)
    requires c.Valid() && Wrote(c, r, e1)
    ensures Wrote(c, r, e1 + e2)
  {
    assert (e1 + e2)[..r.pos - c.pos] == e1[..r.pos - c.pos];
  }

  /** One `append_u8`: store v at the cursor and advance, unless no cell is left before `end`. */
  function Put(c: Cursor, v: byte): (r: Step)
    requires c.Valid()
    ensures r.cur.Valid()
    ensures r.ok <==> c.pos < c.end
    ensures !r.ok ==> r.cur == c
    ensures r.ok ==> r.cur.pos == c.pos + 1 && r.cur.end == c.end && |r.cur.mem| == |c.mem| &&
                     r.cur.mem[c.pos] == v && forall i :: 0 <= i < |c.mem| && i != c.pos ==> r.cur.mem[i] == c.mem[i]
  {
    if c.pos + 1 > c.end then Step(c, false)
    else Step(Cursor(c.mem[c.pos := v], c.pos + 1, c.end), true)
  }

  /** A chain of `append_u8` calls, one per byte of `out`, joined by `ok = ok && ...`. */
  function Emit(c: Cursor, out: seq<byte>): (r: Step)
    requires c.Valid()
    ensures r.cur.Valid()
    decreases |out|
  {
    if out == [] then Step(c, true)
    else
      var s := Put(c, out[0]);
      if !s.ok then s else Emit(s.cur, out[1..])
  }

  /** A chain stores each byte and advances while a cell is left before
      `end`; at the first byte that does not fit it fails and writes nothing
      more. So it succeeds exactly when all of `out` fits, and a failed
      chain has filled the cells up to `end`. */
  lemma {:induction false} EmitWrites(c: Cursor, out: seq<byte>)
    requires c.Valid()
    ensures var r := Emit(c, out);
      Wrote(c, r.cur, out) &&
      (r.ok <==> out == [] || c.pos + |out| <= c.end) &&
      r.cur.pos == if r.ok then c.pos + |out| else c.pos + Room(c)
    decreases |out|
  {
    if out == [] {
      assert Splice(c.mem, c.pos, []) == c.mem;
    } else if c.pos + 1 <= c.end {
      var n := Put(c, out[0]).cur;
      EmitWrites(n, out[1..]);
      assert n.mem == Splice(c.mem, c.pos, [out[0]]);
      assert n.mem == Splice(c.mem, c.pos, [out[0]][..n.pos - c.pos]);
      WroteThen(c, n, [out[0]], Emit(n, out[1..]).cur, out[1..]);
      assert [out[0]] + out[1..] == out;
    } else {
      assert Splice(c.mem, c.pos, out[..0]) == c.mem;
    }
  }

  /** Running two chains one after the other, the second only if the first
      succeeded, is the chain of their concatenation. */
  lemma {:induction false} EmitConcat(c: Cursor, a: seq<byte>, b: seq<byte>)
    requires c.Valid()
    ensures Emit(c, a + b) == (var s := Emit(c, a); if s.ok then Emit(s.cur, b) else s)
    decreases |a|
  {
    if a == [] {
      assert a + b == b;
    } else if c.pos + 1 <= c.end {
      assert (a + b)[1..] == a[1..] + b;
      EmitConcat(Put(c, a[0]).cur, a[1..], b);
    }
  }

  /** A chain that is one byte longer: one more `ok && append_u8(...)`. */
  lemma EmitSnoc(c: Cursor, done: seq<byte>, v: byte)
    requires c.Valid()
    ensures Emit(c, done + [v]) == (var s := Emit(c, done); if s.ok then Put(s.cur, v) else s)
  {
    EmitConcat(c, done, [v]);
    assert [v][1..] == [];
  }

  /** `ripple_serializeAmount`: the tag, then, unless the amount is out of
      range, the 8 amount bytes. */
  function AmountStep(c: Cursor, m: FieldMapping, drops: int): (r: Step)
    requires c.Valid()
    ensures r.cur.Valid()
  {
    var t := Emit(c, TagBytes(m));
    if !t.ok || drops < 0 || drops > MaxDrops then Step(t.cur, false)
    else Emit(t.cur, AmountBytes(drops))
  }

  /** The amount encoder writes a prefix of the tag and the amount bytes; it
      succeeds exactly when the amount is in range and tag and amount fit.
      An amount out of range still has its tag emitted in full when it fits
      (the range checks come after the tag), and nothing after it. */
  lemma AmountStepWrites(c: Cursor, m: FieldMapping, drops: int)
    requires c.Valid()
    ensures var r := AmountStep(c, m, drops);
      Wrote(c, r.cur, TagBytes(m) + if 0 <= drops <= MaxDrops then AmountBytes(drops) else []) &&
      (r.ok <==> 0 <= drops <= MaxDrops && c.pos + |TagBytes(m)| + 8 <= c.end) &&
      (r.ok ==> r.cur.pos == c.pos + |TagBytes(m)| + 8) &&
      (!(0 <= drops <= MaxDrops) && c.pos + |TagBytes(m)| <= c.end ==> r.cur.pos == c.pos + |TagBytes(m)|)
  {
    var t := Emit(c, TagBytes(m));
    EmitWrites(c, TagBytes(m));
    if !t.ok || drops < 0 || drops > MaxDrops {
      WroteMore(c, t.cur, TagBytes(m), if 0 <= drops <= MaxDrops then AmountBytes(drops) else []);
    } else {
      EmitWrites(t.cur, AmountBytes(drops));
      WroteThen(c, t.cur, TagBytes(m), Emit(t.cur, AmountBytes(drops)).cur, AmountBytes(drops));
    }
  }

  /** The prefix a length n gets, or nothing when n cannot be encoded. */
  function PrefixOf(n: int): (r: seq<byte>)
    ensures |r| <= 3
  {
    if VarintBytes(n).Some? then VarintBytes(n).value else []
  }

  /** `ripple_serializeVarint`: fails without writing for a length that
      cannot be encoded, and for a three-byte prefix unless more than three
      cells are left (the check `*buf + 3 < end`); otherwise the appends of
      the prefix. */
  function VarintStep(c: Cursor, n: int): (r: Step)
    requires c.Valid()
    ensures r.cur.Valid()
  {
    match VarintBytes(n)
    case None => Step(c, false)
    case Some(out) => if |out| == 3 && !(c.pos + 3 < c.end) then Step(c, false) else Emit(c, out)
  }

  /** The length encoder writes a prefix of the length's prefix; it fails
      for a length that cannot be encoded, and otherwise succeeds exactly
      when the prefix fits (a three-byte prefix needs a fourth cell). */
  lemma VarintStepWrites(c: Cursor, n: int)
    requires c.Valid()
    ensures var r := VarintStep(c, n);
      Wrote(c, r.cur, PrefixOf(n)) &&
      (r.ok <==> 0 <= n <= MaxLength &&
                 if n <= 12480 then c.pos + |PrefixOf(n)| <= c.end else c.pos + 3 < c.end) &&
      (r.ok ==> r.cur.pos == c.pos + |PrefixOf(n)|)
  {
    if VarintBytes(n).Some? {
      EmitWrites(c, VarintBytes(n).value);
    }
    assert Splice(c.mem, c.pos, []) == c.mem;
  }

  /** `ripple_serializeBytes`: the length prefix, then `bytes` copied
      verbatim unless the copy would reach `end` (the check is
      `*buf + count >= end`). */
  function BytesStep(c: Cursor, bytes: seq<byte>): (r: Step)
    requires c.Valid()
    ensures r.cur.Valid()
  {
    var p := VarintStep(c, |bytes|);
    if !p.ok || p.cur.pos + |bytes| >= p.cur.end then Step(p.cur, false)
    else Step(Cursor(Splice(p.cur.mem, p.cur.pos, bytes), p.cur.pos + |bytes|, p.cur.end), true)
  }

  /** The blob encoder writes a prefix of the length prefix and the bytes;
      it succeeds exactly when both fit and leave at least one cell before
      `end`, so a blob that would end exactly at `end` is refused. */
  lemma BytesStepWrites(c: Cursor, bytes: seq<byte>)
    requires c.Valid()
    ensures var r := BytesStep(c, bytes);
      Wrote(c, r.cur, PrefixOf(|bytes|) + bytes) &&
      (r.ok <==> |bytes| <= MaxLength && c.pos + |PrefixOf(|bytes|)| + |bytes| < c.end) &&
      (r.ok ==> r.cur.pos == c.pos + |PrefixOf(|bytes|)| + |bytes|)
  {
    var p := VarintStep(c, |bytes|);
    VarintStepWrites(c, |bytes|);
    if !p.ok || p.cur.pos + |bytes| >= p.cur.end {
      WroteMore(c, p.cur, PrefixOf(|bytes|), bytes);
    } else {
      var r := BytesStep(c, bytes).cur;
      assert bytes[..r.pos - p.cur.pos] == bytes;
      WroteThen(c, p.cur, PrefixOf(|bytes|), r, bytes);
    }
  }

  /** `ripple_serializeVL`: the tag, then the prefixed bytes. */
  function VLStep(c: Cursor, m: FieldMapping, bytes: seq<byte>): (r: Step)
    requires c.Valid()
    ensures r.cur.Valid()
  {
    var t := Emit(c, TagBytes(m));
    if !t.ok then t else BytesStep(t.cur, bytes)
  }

  /** The VL encoder writes a prefix of tag, length prefix and bytes; it
      succeeds exactly when all of it fits with a cell to spare. */
  lemma VLStepWrites(c: Cursor, m: FieldMapping, bytes: seq<byte>)
    requires c.Valid()
    ensures var r := VLStep(c, m, bytes);
      Wrote(c, r.cur, TagBytes(m) + PrefixOf(|bytes|) + bytes) &&
      (r.ok <==> |bytes| <= MaxLength && c.pos + |TagBytes(m)| + |PrefixOf(|bytes|)| + |bytes| < c.end) &&
      (r.ok ==> r.cur.pos == c.pos + |TagBytes(m)| + |PrefixOf(|bytes|)| + |bytes|)
  {
    var t := Emit(c, TagBytes(m));
    EmitWrites(c, TagBytes(m));
    assert TagBytes(m) + PrefixOf(|bytes|) + bytes == TagBytes(m) + (PrefixOf(|bytes|) + bytes);
    if !t.ok {
      WroteMore(c, t.cur, TagBytes(m), PrefixOf(|bytes|) + bytes);
    } else {
      BytesStepWrites(t.cur, bytes);
      WroteThen(c, t.cur, TagBytes(m), BytesStep(t.cur, bytes).cur, PrefixOf(|bytes|) + bytes);
    }
  }

  /** The cursor an address skip leaves: 20 cells further on, nothing written. */
  function Skipped(c: Cursor): Cursor
  {
    Cursor(c.mem, c.pos + 20, c.end)
  }

  /** `ripple_serializeAddress`, given what the base58 decoder produced: no
      tag is written; a decode of any length but 20 skips; otherwise the 19
      bytes after the first go out as a prefixed blob. */
  function AddressStep(c: Cursor, raw: seq<byte>): (r: Step)
    requires c.Valid()
    ensures r.cur.Valid()
  {
    if |raw| != 20 then Step(Skipped(c), true)
    else BytesStep(c, raw[1..])
  }

  /** When the decoder did not yield exactly 20 bytes, the address encoder
      moves the cursor 20 cells with no check, writes nothing, and reports
      success; otherwise it writes a prefix of the length byte 19 and the
      19 bytes after the decoded version byte, succeeding exactly when they
      fit with a cell to spare. Either way nothing outside [pos, end) changes. */
  lemma AddressStepEffect(c: Cursor, raw: seq<byte>)
    requires c.Valid()
    ensures var r := AddressStep(c, raw);
      Framed(c, r.cur) &&
      (|raw| != 20 ==> r.ok && r.cur == Skipped(c)) &&
      (|raw| == 20 ==> Wrote(c, r.cur, [19] + raw[1..]) && (r.ok <==> c.pos + 20 < c.end))
  {
    if |raw| == 20 {
      BytesStepWrites(c, raw[1..]);
      assert PrefixOf(19) == [19];
      WroteFramed(c, AddressStep(c, raw).cur, [19] + raw[1..]);
    }
  }
}
