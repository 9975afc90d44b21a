/** Byte values, the byte sequences the serializer writes, and the
    big-endian integer layout every multi-byte field of the wire format uses. */
module Bytes {

  /** An unsigned 8-bit value, as stored in a `uint8_t` cell. */
  type byte = x: int | 0 <= x < 256

  /** Presence of an optional value (a protobuf `has_` flag with its field, a nullable pointer). */
  datatype Option<T> = None | Some(value: T)

  /** Fixed-width integers of the request message, as ranges of `int`. */
  type uint32 = x: int | 0 <= x < 0x1_0000_0000
  type uint64 = x: int | 0 <= x < 0x1_0000_0000_0000_0000
  type int16 = x: int | -0x8000 <= x < 0x8000
  type int32 = x: int | -0x8000_0000 <= x < 0x8000_0000
  type int64 = x: int | -0x8000_0000_0000_0000 <= x < 0x8000_0000_0000_0000

  /** 256 to the power n. */
  function Pow256(n: nat): (r: nat)
    ensures r > 0
  {
    if n == 0 then 1 else 256 * Pow256(n - 1)
  }

  /** The C conversion of an unsigned 32-bit value to `int32_t`: values from 2^31 up wrap to negatives. */
  function ToInt32(u: uint32): (r: int32)
    ensures r == u || r == u - 0x1_0000_0000
  {
    if u < 0x8000_0000 then u else u - 0x1_0000_0000
  }

  /** The C conversion of an unsigned 64-bit value to `int64_t`. */
  function ToInt64(u: uint64): (r: int64)
    ensures r == u || r == u - 0x1_0000_0000_0000_0000
  {
    if u < 0x8000_0000_0000_0000 then u else u - 0x1_0000_0000_0000_0000
  }

  /** The low n bytes of the two's-complement representation of v, most
      significant first. Byte i is `(v >> 8*(n-1-i)) & 0xff` with an
      arithmetic shift, i.e. floor division followed by a non-negative
      remainder, which is what Dafny's `/` and `%` by 256 compute. */
  function BigEndian(v: int, n: nat): (r: seq<byte>)
    ensures |r| == n
    decreases n
  {
    if n == 0 then [] else BigEndian(v / 256, n - 1) + [v % 256]
  }

  /** The unsigned value of a big-endian byte string. */
  function Unsigned(s: seq<byte>): (r: nat)
    ensures r < Pow256(|s|)
  {
    if s == [] then 0 else Unsigned(s[..|s| - 1]) * 256 + s[|s| - 1]
  }

  /** Reading back an n-byte big-endian value gives it back when it fits in n bytes. */
  lemma {:induction false} UnsignedBigEndian(v: int, n: nat)
    requires 0 <= v < Pow256(n)
    ensures Unsigned(BigEndian(v, n)) == v
  {
    if n > 0 {
      var s := BigEndian(v, n);
      assert s[..n - 1] == BigEndian(v / 256, n - 1);
      assert v / 256 < Pow256(n - 1) by {
        assert Pow256(n) == 256 * Pow256(n - 1);
      }
      UnsignedBigEndian(v / 256, n - 1);
      assert Unsigned(s) == Unsigned(s[..n - 1]) * 256 + s[n - 1];
    }
  }

  /** Writing the value of a byte string back gives the same bytes. */
  lemma {:induction false} BigEndianUnsigned(s: seq<byte>)
    ensures BigEndian(Unsigned(s), |s|) == s
  {
    if s != [] {
      var p := s[..|s| - 1];
      assert Unsigned(s) / 256 == Unsigned(p);
      BigEndianUnsigned(p);
      assert s == p + [s[|s| - 1]];
    }
  }

  /** The bytes depend only on v modulo 256^n: adding 256^n changes nothing. */
  lemma {:induction false} BigEndianWrap(v: int, n: nat)
    ensures BigEndian(v + Pow256(n), n) == BigEndian(v, n)
    decreases n
  {
    if n > 0 {
      var p := Pow256(n - 1);
      assert (v + 256 * p) / 256 == v / 256 + p;
      assert (v + 256 * p) % 256 == v % 256;
      BigEndianWrap(v / 256, n - 1);
    }
  }

  /** The bytes are the two's-complement bits of v: a negative v reads back as v + 256^n. */
  lemma TwosComplement(v: int, n: nat)
    requires -(Pow256(n) as int) <= v < Pow256(n)
    ensures Unsigned(BigEndian(v, n)) == if v < 0 then v + Pow256(n) else v
  {
    if v < 0 {
      BigEndianWrap(v, n);
      UnsignedBigEndian(v + Pow256(n), n);
    } else {
      UnsignedBigEndian(v, n);
    }
  }

  /** The 2-, 4- and 7-byte layouts written out as the shifts `(v >> 8k) & 0xff`. */
  lemma BigEndian2(v: int)
    ensures BigEndian(v, 2) == [v / 0x100 % 0x100, v % 0x100]
  {
  }

  lemma BigEndian4(v: int)
    ensures BigEndian(v, 4) == [v / 0x100_0000 % 0x100, v / 0x1_0000 % 0x100, v / 0x100 % 0x100, v % 0x100]
  {
    var v1 := v / 0x100;
    var v2 := v1 / 0x100;
    var v3 := v2 / 0x100;
    assert v2 == v / 0x1_0000 && v3 == v / 0x100_0000;
    assert BigEndian(v3, 1) == [v3 % 0x100];
    assert BigEndian(v2, 2) == BigEndian(v3, 1) + [v2 % 0x100];
    assert BigEndian(v1, 3) == BigEndian(v2, 2) + [v1 % 0x100];
  }

  lemma BigEndian7(v: int)
    ensures BigEndian(v, 7)
         == [v / 0x1_0000_0000_0000 % 0x100, v / 0x100_0000_0000 % 0x100, v / 0x1_0000_0000 % 0x100,
             v / 0x100_0000 % 0x100, v / 0x1_0000 % 0x100, v / 0x100 % 0x100, v % 0x100]
  {
    var v1 := v / 0x100;
    var v2 := v1 / 0x100;
    var v3 := v2 / 0x100;
    var v4 := v3 / 0x100;
    var v5 := v4 / 0x100;
    var v6 := v5 / 0x100;
    assert v2 == v / 0x1_0000 && v3 == v / 0x100_0000 && v4 == v / 0x1_0000_0000;
    assert v5 == v / 0x100_0000_0000 && v6 == v / 0x1_0000_0000_0000;
    assert BigEndian(v6, 1) == [v6 % 0x100];
    assert BigEndian(v5, 2) == BigEndian(v6, 1) + [v5 % 0x100];
    assert BigEndian(v4, 3) == BigEndian(v5, 2) + [v4 % 0x100];
    assert BigEndian(v3, 4) == BigEndian(v4, 3) + [v3 % 0x100];
    assert BigEndian(v2, 5) == BigEndian(v3, 4) + [v2 % 0x100];
    assert BigEndian(v1, 6) == BigEndian(v2, 5) + [v1 % 0x100];
  }

  /** mem with the cells [at, at + |out|) replaced by out. */
  function Splice(mem: seq<byte>, at: nat, out: seq<byte>): (r: seq<byte>)
    requires out == [] || at + |out| <= |mem|
    ensures |r| == |mem|
    ensures forall i :: 0 <= i < |mem| && !(at <= i < at + |out|) ==> r[i] == mem[i]
    ensures forall i :: 0 <= i < |out| ==> r[at + i] == out[i]
  {
    if out == [] then mem else mem[..at] + out + mem[at + |out|..]
  }

  /** A sequence that agrees with out on [at, at + |out|) and with mem elsewhere is the splice. */
  lemma SpliceFrom(mem: seq<byte>, after: seq<byte>, at: nat, out: seq<byte>)
    requires at + |out| <= |mem| == |after|
    requires forall i :: 0 <= i < |out| ==> after[at + i] == out[i]
    requires forall i :: 0 <= i < |mem| && !(at <= i < at + |out|) ==> after[i] == mem[i]
    ensures after == Splice(mem, at, out)
  {
    var r := Splice(mem, at, out);
    forall i | 0 <= i < |mem| ensures after[i] == r[i] {
      if at <= i < at + |out| {
        assert after[at + (i - at)] == out[i - at];
      }
    }
  }

  /** Splicing b right after a equals splicing a + b at once. */
  lemma SpliceSplice(mem: seq<byte>, at: nat, a: seq<byte>, b: seq<byte>)
    requires at + |a| + |b| <= |mem|
    ensures Splice(Splice(mem, at, a), at + |a|, b) == Splice(mem, at, a + b)
  {
    var l := Splice(Splice(mem, at, a), at + |a|, b);
    var r := Splice(mem, at, a + b);
    forall i | 0 <= i < |mem| ensures l[i] == r[i] {
      if at <= i < at + |a| {
        assert (a + b)[i - at] == a[i - at];
      } else if at + |a| <= i < at + |a| + |b| {
        assert (a + b)[i - at] == b[i - at - |a|];
      }
    }
  }

  /** n zero bytes, what `memset(p, 0, n)` stores. */
  function Zeros(n: nat): (r: seq<byte>)
    ensures |r| == n && forall i :: 0 <= i < n ==> r[i] == 0
  {
    seq(n, _ => 0)
  }

  /** Concatenation is associative. */
  lemma ConcatAssoc<T>(x: seq<T>, y: seq<T>, z: seq<T>)
    ensures x + y + z == x + (y + z)
  {
  }
}
