/** The value encodings of the wire format, independent of any buffer:
    the three-tier length prefix and the native-currency amount. */
module Codec {
  import opened Bytes

  /** The largest length the three-tier prefix can carry. */
  const MaxLength := 918743

  /** The largest amount of drops the encoder accepts (the ledger's total supply). */
  const MaxDrops := 100_000_000_000

  /** The length prefix of a byte string of n bytes: one byte below 192; two
      bytes `193 + ((n-193) >> 8)`, `(n-193) & 0xff` up to 12480; three bytes
      `241 + ((n-12481) >> 16)`, `((n-12481) >> 8) & 0xff`, `(n-12481) & 0xff`
      below 918744; nothing (an error) for negative or larger n.
      For n == 192 the two-byte form shifts -1 arithmetically and yields
      C0 FF. */
  function VarintBytes(n: int): (r: Option<seq<byte>>)
    ensures r.Some? <==> 0 <= n <= MaxLength
    ensures r.Some? ==> |r.value| == if n < 192 then 1 else if n <= 12480 then 2 else 3
  {
    if n < 0 then None
    else if n < 192 then Some([n])
    else if n <= 12480 then Some([193 + (n - 193) / 256, (n - 193) % 256])
    else if n < 918744 then Some([241 + (n - 12481) / 65536, (n - 12481) / 256 % 256, (n - 12481) % 256])
    else None
  }

  /** The ledger's reading of a length prefix: a first byte up to 192 is the
      whole length; 193 to 240 opens a two-byte prefix `193 + (b0-193)*256 + b1`;
      241 to 254 a three-byte one `12481 + (b0-241)*65536 + b1*256 + b2`; 255
      is malformed. Yields the length and the number of bytes read. */
  function VarintDecode(s: seq<byte>): (r: Option<(nat, nat)>)
    ensures r.Some? ==> 1 <= r.value.1 <= |s| && r.value.0 <= 929984  // FE FF FF
    ensures r.Some? ==> r.value.1 <= 3 && (r.value.1 == 1 <==> r.value.0 <= 192)
  {
    if |s| == 0 then None
    else if s[0] <= 192 then Some((s[0], 1))
    else if s[0] <= 240 then
      if |s| < 2 then None
      else Some((193 + (s[0] as int - 193) * 256 + s[1] as int, 2))
    else if s[0] <= 254 then
      if |s| < 3 then None
      else Some((12481 + (s[0] as int - 241) * 65536 + s[1] as int * 256 + s[2] as int, 3))
    else None
  }

  /** Every encodable length other than 192 reads back from its prefix,
      whatever follows it. */
  lemma VarintRoundTrip(n: int, rest: seq<byte>)
    requires 0 <= n <= MaxLength && n != 192
    ensures VarintDecode(VarintBytes(n).value + rest) == Some((n, |VarintBytes(n).value|))
  {
    var e := VarintBytes(n).value;
    var s := e + rest;
    assert s[0] == e[0];
    if 192 <= n {
      assert s[1] == e[1];
    }
    if 12480 < n {
      assert s[2] == e[2];
      var w := n - 12481;
      assert w == (w / 65536) * 65536 + (w / 256 % 256) * 256 + w % 256;
    }
  }

  /** What the ledger reads as a length prefix is exactly the encoder's prefix
      of that length, unless the length is 192 (whose encoder output C0 FF the
      ledger reads as C0 alone) or 918744 (which the encoder refuses). */
  lemma VarintDecodeExact(s: seq<byte>)
    requires VarintDecode(s).Some?
    ensures var (n, k) := VarintDecode(s).value;
            VarintBytes(n) == Some(s[..k]) <==> n != 192 && n <= MaxLength
  {
    var (n, k) := VarintDecode(s).value;
    if k == 3 {
      if n <= MaxLength {
        var w := n - 12481;
        assert w == (s[0] as int - 241) * 65536 + s[1] as int * 256 + s[2] as int;
        assert w / 256 == (s[0] as int - 241) * 256 + s[1] as int;
        assert w / 65536 == s[0] as int - 241;
        assert s[..3] == [s[0], s[1], s[2]];
      }
    } else if k == 2 {
      var w := n - 193;
      assert w == (s[0] as int - 193) * 256 + s[1] as int;
      assert w / 256 == s[0] as int - 193 && w % 256 == s[1] as int;
      assert s[..2] == [s[0], s[1]];
    } else if n != 192 {
      assert s[..1] == [s[0]];
    }
  }

  /** The length 192 does not survive: the encoder's two-byte form C0 FF is
      read by the ledger as the one-byte length C0, the FF becoming the first
      payload byte. */
  lemma Varint192Misread(rest: seq<byte>)
    ensures VarintBytes(192) == Some([0xC0, 0xFF])
    ensures VarintDecode(VarintBytes(192).value + rest) == Some((192, 1))
    ensures (VarintBytes(192).value + rest)[1] == 0xFF
  {
  }

  /** The prefix FE D4 17 reads as 918744, the ledger's own largest length,
      which this encoder refuses (it stops at 918743). */
  lemma VarintLedgerMax()
    ensures VarintDecode([0xFE, 0xD4, 0x17]) == Some((918744, 3))
    ensures VarintBytes(MaxLength + 1).None?
  {
  }

  /** The two-byte decoding rule recovers every length the two-byte form carries,
      192 included. */
  lemma TwoByteTier(n: int)
    requires 192 <= n <= 12480
    ensures var e := VarintBytes(n).value; (e[0] as int - 193) * 256 + e[1] as int + 193 == n
  {
  }

  /** The top byte of a native amount: bit 0x80 cleared (native currency) and
      bit 0x40 set (positive). */
  function NativePositive(b: byte): (r: byte)
    ensures r / 64 == 1 && r % 64 == b % 64
  {
    var low := b % 0x80;  // & 0x7f
    if low / 0x40 == 1 then low else low + 0x40  // | 0x40
  }

  /** The 8 amount bytes: the top byte of the 64-bit drop count with its two
      flag bits forced, then the low 7 bytes big-endian. */
  function AmountBytes(drops: int): (r: seq<byte>)
    requires 0 <= drops <= MaxDrops
    ensures |r| == 8 && r[0] == 0x40
  {
    [NativePositive(drops / 0x100_0000_0000_0000 % 256)] + BigEndian(drops, 7)
  }

  /** The amount bytes as `ripple_serializeAmount` computes them: the top byte
      `(amount >> 56) & 0xff` with 0x80 cleared and 0x40 set, then
      `(amount >> 48) & 0xff` down to `amount & 0xff`. */
  lemma AmountDigits(drops: int, msb: int)
    requires 0 <= drops <= MaxDrops
    requires msb == (var top := drops / 0x100_0000_0000_0000 % 0x100 % 0x80;
                     if top / 0x40 == 1 then top else top + 0x40)
    ensures AmountBytes(drops)
         == [msb, drops / 0x1_0000_0000_0000 % 0x100, drops / 0x100_0000_0000 % 0x100,
             drops / 0x1_0000_0000 % 0x100, drops / 0x100_0000 % 0x100, drops / 0x1_0000 % 0x100,
             drops / 0x100 % 0x100, drops % 0x100]
  {
    BigEndian7(drops);
  }

  /** Reads a native amount: 8 bytes whose top two bits are 01; the remaining
      62 bits are the drop count. */
  function AmountDecode(s: seq<byte>): (r: Option<nat>)
    ensures r.Some? <==> |s| == 8 && s[0] / 64 == 1
    ensures r.Some? ==> r.value < 64 * Pow256(7)
  {
    if |s| != 8 || s[0] / 64 != 1 then None
    else Some((s[0] % 64) * Pow256(7) + Unsigned(s[1..]))
  }

  lemma Pow256Seven()
    ensures Pow256(7) == 0x100_0000_0000_0000
  {
    assert Pow256(1) == 0x100;
    assert Pow256(2) == 0x1_0000;
    assert Pow256(3) == 0x100_0000;
    assert Pow256(4) == 0x1_0000_0000;
    assert Pow256(5) == 0x100_0000_0000;
    assert Pow256(6) == 0x1_0000_0000_0000;
  }

  /** A number below the base has no digit above the lowest. */
  lemma HighDigitZero(high: nat, low: nat, base: nat)
    requires high * base + low < base
    ensures high == 0
  {
  }

  /** Every accepted amount reads back. */
  lemma AmountRoundTrip(drops: int)
    requires 0 <= drops <= MaxDrops
    ensures AmountDecode(AmountBytes(drops)) == Some(drops)
  {
    Pow256Seven();
    var s := AmountBytes(drops);
    assert s[1..] == BigEndian(drops, 7);
    UnsignedBigEndian(drops, 7);
  }

  /** A string that reads as an accepted amount is that amount's encoding. */
  lemma AmountDecodeExact(s: seq<byte>)
    requires AmountDecode(s).Some? && AmountDecode(s).value <= MaxDrops
    ensures AmountBytes(AmountDecode(s).value) == s
  {
    Pow256Seven();
    var u := Unsigned(s[1..]);
    HighDigitZero(s[0] % 64, u, Pow256(7));
    assert s[0] == 0x40;
    var d := AmountDecode(s).value;
    assert d == u;
    assert d / 0x100_0000_0000_0000 % 256 == 0;
    BigEndianUnsigned(s[1..]);
    assert AmountBytes(d) == [0x40] + s[1..];
    assert s == [s[0]] + s[1..];
  }
}
