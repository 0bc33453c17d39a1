/** Little-endian integer assembly over bytes, as encoding/binary.LittleEndian
    does it for the fixed-width fields of the capture. */
module LittleEndian {

  type byte = b: int | 0 <= b < 256

  const Two31: int := 0x8000_0000
  const Two32: int := 0x1_0000_0000
  const MaxInt32: int := 0x7FFF_FFFF

  predicate IsInt32(x: int) { -Two31 <= x < Two31 }
  predicate IsInt8(x: int) { -128 <= x < 128 }

  function Pow256(n: nat): (p: nat)
    ensures p >= 1
  {
    if n == 0 then 1 else 256 * Pow256(n - 1)
  }

  /** The unsigned value of `b`, first byte least significant. */
  function Unsigned(b: seq<byte>): (v: nat)
    ensures v < Pow256(|b|)
  {
    if b == [] then 0 else b[0] + 256 * Unsigned(b[1..])
  }

  /** The `n` little-endian bytes of `v`, keeping only its low `8 * n` bits. */
  function Bytes(v: nat, n: nat): (b: seq<byte>)
    ensures |b| == n
  {
    if n == 0 then [] else [v % 256] + Bytes(v / 256, n - 1)
  }

  lemma {:induction false} UnsignedOfBytes(v: nat, n: nat)
    requires v < Pow256(n)
    ensures Unsigned(Bytes(v, n)) == v
  {
    if n > 0 {
      var b := Bytes(v, n);
      assert b[1..] == Bytes(v / 256, n - 1);
      UnsignedOfBytes(v / 256, n - 1);
    }
  }

  lemma {:induction false} BytesOfUnsigned(b: seq<byte>)
    ensures Bytes(Unsigned(b), |b|) == b
  {
    if b != [] {
      var u := Unsigned(b[1..]);
      var v := b[0] + 256 * u;
      assert v % 256 == b[0];
      assert v / 256 == u;
      BytesOfUnsigned(b[1..]);
    }
  }

  lemma Pow256Four()
    ensures Pow256(4) == Two32
  {
  }

  /** The value of four bytes written out digit by digit. */
  function Formula4(b: seq<byte>): int
    requires |b| == 4
  {
    (b[0] as int) + 256 * (b[1] as int) + 65536 * (b[2] as int) + 16777216 * (b[3] as int)
  }

  lemma UnsignedFour(b: seq<byte>)
    requires |b| == 4
    ensures Unsigned(b) == Formula4(b)
  {
    var t3, t2, t1 := b[3..], b[2..], b[1..];
    assert t3[1..] == [];
    assert Unsigned(t3) == b[3] as int;
    assert t2[1..] == t3;
    assert Unsigned(t2) == (b[2] as int) + 256 * (b[3] as int);
    assert t1[1..] == t2;
    assert Unsigned(t1) == (b[1] as int) + 256 * (b[2] as int) + 65536 * (b[3] as int);
  }

  /** A four-byte field read as binary.Read reads an int32: two's complement. */
  function Int32(b: seq<byte>): (x: int)
    requires |b| == 4
    ensures IsInt32(x)
  {
    var u := Formula4(b);
    if u >= Two31 then u - Two32 else u
  }

  /** The int32 is the unsigned value of its four bytes, less 2^32 exactly
      when the top bit of the last byte is set. */
  lemma Int32Unsigned(b: seq<byte>)
    requires |b| == 4
    ensures Int32(b) == Unsigned(b) - (if b[3] >= 128 then Two32 else 0)
    ensures Int32(b) < 0 <==> b[3] >= 128
  {
    UnsignedFour(b);
  }

  /** The four bytes an int32 is stored as. */
  function EncodeInt32(x: int): (b: seq<byte>)
    requires IsInt32(x)
    ensures |b| == 4
  {
    Bytes(if x < 0 then x + Two32 else x, 4)
  }

  lemma Int32OfEncode(x: int)
    requires IsInt32(x)
    ensures Int32(EncodeInt32(x)) == x
  {
    Pow256Four();
    UnsignedOfBytes(if x < 0 then x + Two32 else x, 4);
    Int32Unsigned(EncodeInt32(x));
  }

  lemma EncodeOfInt32(b: seq<byte>)
    requires |b| == 4
    ensures EncodeInt32(Int32(b)) == b
  {
    Pow256Four();
    var u := Unsigned(b);
    Int32Unsigned(b);
    assert (if Int32(b) < 0 then Int32(b) + Two32 else Int32(b)) == u;
    BytesOfUnsigned(b);
  }

  /** A one-byte field read as an int8. */
  function Int8(b: byte): (x: int)
    ensures IsInt8(x)
    ensures x < 0 <==> b >= 128
  {
    if b >= 128 then b - 256 else b
  }

  function EncodeInt8(x: int): (b: byte)
    requires IsInt8(x)
    ensures Int8(b) == x
  {
    if x < 0 then x + 256 else x
  }

  lemma EncodeOfInt8(b: byte)
    ensures EncodeInt8(Int8(b)) == b
  {
  }
}
