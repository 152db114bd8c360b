/** Bytes, Java's fixed-width integers and the big-endian layouts that
    `DataInputStream`, `DataOutputStream` and `ByteBuffer` use on the wire. */
module Bytes {

  newtype byte = x: int | 0 <= x < 256

  const TWO_15: int := 0x8000
  const TWO_16: int := 0x1_0000
  const TWO_31: int := 0x8000_0000
  const TWO_32: int := 0x1_0000_0000

  /** 256 to the power n: the number of values n bytes can hold. */
  function Pow256(n: nat): (r: nat)
    ensures r >= 1
  {
    if n == 0 then 1 else 256 * Pow256(n - 1)
  }

  /** 2 to the power n, for bit positions. */
  function Pow2(n: nat): (r: nat)
    ensures r >= 1
  {
    if n == 0 then 1 else 2 * Pow2(n - 1)
  }

  /** Java's narrowing of an integer to a 32-bit two's-complement `int`:
      what `*` and `+` on `int` do when the true result overflows. */
  function Int32(v: int): int
  {
    if -0x8000_0000 <= v < 0x8000_0000 then v else (v + 0x8000_0000) % 0x1_0000_0000 - 0x8000_0000
  }

  /** Java's narrowing to a 16-bit `short` (`DataInputStream.readShort`). */
  function Int16(v: int): int
  {
    if -0x8000 <= v < 0x8000 then v else (v + 0x8000) % 0x1_0000 - 0x8000
  }

  /** Java's `(byte) v` seen as the unsigned bit pattern written on the wire. */
  function LowByte(v: int): byte
  {
    (v % 256) as byte
  }

  /** Java's `(byte) v` as the signed value `byte` arithmetic sees. */
  function SignedByte(b: byte): int
  {
    if b < 128 then b as int else b as int - 256
  }

  lemma Int32Range(v: int)
    ensures -TWO_31 <= Int32(v) < TWO_31
    ensures -TWO_31 <= v < TWO_31 ==> Int32(v) == v
  {
  }

  /** An unsigned value of 32 bits with the top bit set reads as negative. */
  lemma Int32Wrap(v: int)
    requires TWO_31 <= v < TWO_32
    ensures Int32(v) == v - TWO_32
  {
    DivModUnique(v + 0x8000_0000, 0x1_0000_0000, 1, v + 0x8000_0000 - 0x1_0000_0000);
  }

  /** A 32-bit unsigned quantity narrowed to `int` is negative exactly when its top bit is set. */
  lemma Int32OfUnsigned(v: int)
    requires 0 <= v < TWO_32
    ensures Int32(v) < 0 <==> v >= TWO_31
    ensures v < TWO_31 ==> Int32(v) == v
  {
    if v >= TWO_31 {
      Int32Wrap(v);
    }
  }

  lemma Int16Range(v: int)
    ensures -TWO_15 <= Int16(v) < TWO_15
    ensures -TWO_15 <= v < TWO_15 ==> Int16(v) == v
  {
  }

  /** The unsigned value of a big-endian byte string (`new BigInteger(1, s)`,
      and every multi-byte read of `DataInputStream` before sign handling). */
  function BigEndian(s: seq<byte>): (r: nat)
    ensures r < Pow256(|s|)
  {
    if |s| == 0 then 0 else BigEndian(s[..|s| - 1]) * 256 + s[|s| - 1] as int
  }

  /** The low n bytes of v, most significant first: `writeShort`, `writeInt`,
      the two length bytes cut from `ByteBuffer.putInt`, and the fixed-width
      key encoding. */
  function FixedBigEndian(v: nat, n: nat): (r: seq<byte>)
    ensures |r| == n
  {
    if n == 0 then [] else FixedBigEndian(v / 256, n - 1) + [(v % 256) as byte]
  }

  /** The 4 bytes of a Java `int` as `writeInt` and the handshake's manual
      `(serverKeyLength & 0xff000000) >> 24, ...` arrays produce them. */
  function Int32Bytes(v: int): (r: seq<byte>)
    ensures |r| == 4
  {
    FixedBigEndian(v % TWO_32, 4)
  }

  lemma DivModUnique(a: int, d: int, q: int, m: int)
    requires d > 0 && 0 <= m < d && a == d * q + m
    ensures a / d == q && a % d == m
  {
    var q2 := a / d;
    var m2 := a % d;
    assert d * (q - q2) == m2 - m;
    if q2 < q {
      MulAtLeastOne(d, q - q2);
    } else if q2 > q {
      MulAtLeastOne(d, q2 - q);
    }
  }

  lemma MulAtLeastOne(d: int, k: int)
    requires d > 0 && k >= 1
    ensures d * k >= d
  {
  }

  /** Splitting off the last byte: ((v / 256) % 256^n) * 256 + v % 256 is v % 256^(n+1). */
  lemma ModPow256Step(v: nat, n: nat)
    ensures (v / 256) % Pow256(n) * 256 + v % 256 == v % Pow256(n + 1)
  {
    var q := v / 256;
    var m := v % 256;
    var k := q / Pow256(n);
    var j := q % Pow256(n);
    assert v == 256 * q + m;
    assert q == Pow256(n) * k + j;
    assert v == (256 * Pow256(n)) * k + (j * 256 + m) by {
      assert 256 * q == 256 * (Pow256(n) * k) + 256 * j;
      assert 256 * (Pow256(n) * k) == (256 * Pow256(n)) * k;
    }
    assert j * 256 + m < 256 * Pow256(n) by {
      assert j <= Pow256(n) - 1;
      assert j * 256 <= (Pow256(n) - 1) * 256;
    }
    DivModUnique(v, Pow256(n + 1), k, j * 256 + m);
  }

  /** Reading back what was written: the value of the n written bytes is v
      reduced modulo 256^n. */
  lemma {:induction false} BigEndianOfFixed(v: nat, n: nat)
    ensures BigEndian(FixedBigEndian(v, n)) == v % Pow256(n)
  {
    if n > 0 {
      var s := FixedBigEndian(v, n);
      assert s[..n - 1] == FixedBigEndian(v / 256, n - 1);
      BigEndianOfFixed(v / 256, n - 1);
      ModPow256Step(v, n - 1);
    }
  }

  /** Writing back what was read: the fixed-width encoding of a byte
      string's value is that byte string. */
  lemma {:induction false} FixedOfBigEndian(s: seq<byte>)
    ensures FixedBigEndian(BigEndian(s), |s|) == s
  {
    if |s| > 0 {
      var v := BigEndian(s);
      var init := s[..|s| - 1];
      DivModUnique(v, 256, BigEndian(init), s[|s| - 1] as int);
      FixedOfBigEndian(init);
    }
  }

  /** Reading the two bytes written for a length recovers the length when it
      fits in 16 bits. */
  lemma U16RoundTrip(v: nat)
    requires v < TWO_16
    ensures BigEndian(FixedBigEndian(v, 2)) == v
  {
    BigEndianOfFixed(v, 2);
    Pow256Values();
  }

  /** `readInt` after `writeInt` recovers every Java `int`. */
  lemma Int32RoundTrip(v: int)
    requires -TWO_31 <= v < TWO_31
    ensures Int32(BigEndian(Int32Bytes(v))) == v
  {
    BigEndianOfFixed(v % TWO_32, 4);
    Pow256Values();
    Int32OfResidue(v);
  }

  /** Narrowing the unsigned residue of an `int` gives the `int` back. */
  lemma Int32OfResidue(v: int)
    requires -TWO_31 <= v < TWO_31
    ensures Int32(v % TWO_32 % TWO_32) == v
  {
    if v < 0 {
      DivModUnique(v, TWO_32, -1, v + TWO_32);
      DivModUnique(v + TWO_32, TWO_32, 0, v + TWO_32);
    } else {
      DivModUnique(v, TWO_32, 0, v);
    }
  }

  /** The powers of 256 the fixed-width fields use. */
  lemma Pow256Values()
    ensures Pow256(2) == TWO_16 && Pow256(4) == TWO_32
  {
    assert Pow256(1) == 256 * Pow256(0);
    assert Pow256(2) == 256 * Pow256(1);
    assert Pow256(3) == 256 * Pow256(2);
    assert Pow256(4) == 256 * Pow256(3);
  }

  /** Whether bit i (0 = least significant) of a byte is set. */
  function BitAt(b: byte, i: nat): bool
    requires i < 8
  {
    (b as int / Pow2(i)) % 2 == 1
  }

  /** `Arrays.copyOfRange(a, 0, n)`: the first n bytes of a, padded with
      zeros when a is shorter. */
  function CopyPrefix(a: seq<byte>, n: nat): (r: seq<byte>)
    ensures |r| == n
    ensures n <= |a| ==> r == a[..n]
    ensures forall i :: |a| <= i < n ==> r[i] == 0
  {
    if n <= |a| then a[..n] else a + seq(n - |a|, _ => 0 as byte)
  }
}
