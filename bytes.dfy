/** Fixed-width integers laid out as bytes: the part of Python's `struct`
    module that the monitor decoder relies on (standard sizes, no alignment,
    a chosen byte order, two's-complement signed fields). */
module Bytes {

  /** One octet of a ZeroMQ frame. */
  type Byte = b: int | 0 <= b < 256

  /** The byte order a `struct` format with the `=` prefix takes from the
      host machine. */
  datatype ByteOrder = LittleEndian | BigEndian

  /** 256 to the power `n`: one more than the largest unsigned value that
      fits in `n` bytes. */
  function Pow256(n: nat): (p: nat)
    ensures p >= 1
    ensures n > 0 ==> p % 2 == 0
  {
    if n == 0 then 1 else 256 * Pow256(n - 1)
  }

  /** Half of Pow256(n): the smallest value that does not fit in a signed
      field of `n` bytes. */
  function Half(n: nat): (h: int)
    requires n > 0
    ensures 2 * h == Pow256(n)
  {
    128 * Pow256(n - 1)
  }

  /** The widths used by the `h` and `i` format codes. */
  lemma WidthsOfShortAndInt()
    ensures Pow256(2) == 0x1_0000 && Half(2) == 0x8000
    ensures Pow256(4) == 0x1_0000_0000 && Half(4) == 0x8000_0000
  {
  }

  /** The unsigned value of `s`, least significant byte first. */
  function LittleEndianValue(s: seq<Byte>): (u: nat)
    ensures u < Pow256(|s|)
  {
    if s == [] then 0
    else
      var rest := LittleEndianValue(s[1..]);
      assert 256 * rest <= 256 * (Pow256(|s| - 1) - 1);
      s[0] + 256 * rest
  }

  /** The `n` bytes of `u`, least significant byte first (keeping only the
      low `n` bytes, as a truncating store would). */
  function LittleEndianBytes(u: nat, n: nat): (s: seq<Byte>)
    ensures |s| == n
  {
    if n == 0 then [] else [u % 256] + LittleEndianBytes(u / 256, n - 1)
  }

  /** Reading back what was written gives the value, whenever it fits. */
  lemma {:induction false} LittleEndianValueOfBytes(u: nat, n: nat)
    requires u < Pow256(n)
    ensures LittleEndianValue(LittleEndianBytes(u, n)) == u
  {
    if n > 0 {
      var s := LittleEndianBytes(u, n);
      assert s[1..] == LittleEndianBytes(u / 256, n - 1);
      assert u / 256 < Pow256(n - 1);
      LittleEndianValueOfBytes(u / 256, n - 1);
    }
  }

  /** Writing back what was read gives the bytes: no two byte strings of the
      same length share a value. */
  lemma {:induction false} LittleEndianBytesOfValue(s: seq<Byte>)
    ensures LittleEndianBytes(LittleEndianValue(s), |s|) == s
  {
    if s != [] {
      var rest := LittleEndianValue(s[1..]);
      var u := s[0] + 256 * rest;
      assert u == LittleEndianValue(s);
      assert u % 256 == s[0] && u / 256 == rest;
      LittleEndianBytesOfValue(s[1..]);
    }
  }

  /** The bytes of `s` in the opposite order. */
  function Reverse(s: seq<Byte>): (r: seq<Byte>)
    ensures |r| == |s|
    ensures forall i :: 0 <= i < |s| ==> r[i] == s[|s| - 1 - i]
  {
    if s == [] then [] else Reverse(s[1..]) + [s[0]]
  }

  /** Reversing is its own inverse. */
  lemma ReverseReverse(s: seq<Byte>)
    ensures Reverse(Reverse(s)) == s
  {
  }

  /** The unsigned value of a field stored in `s` with byte order `order`. */
  function UnsignedValue(s: seq<Byte>, order: ByteOrder): (u: nat)
    ensures u < Pow256(|s|)
  {
    match order
    case LittleEndian => LittleEndianValue(s)
    case BigEndian => LittleEndianValue(Reverse(s))
  }

  /** The `n` bytes that store `u` with byte order `order`. */
  function UnsignedBytes(u: nat, n: nat, order: ByteOrder): (s: seq<Byte>)
    ensures |s| == n
  {
    match order
    case LittleEndian => LittleEndianBytes(u, n)
    case BigEndian => Reverse(LittleEndianBytes(u, n))
  }

  /** Unsigned fields round-trip through their bytes, in either byte order. */
  lemma UnsignedValueOfBytes(u: nat, n: nat, order: ByteOrder)
    requires u < Pow256(n)
    ensures UnsignedValue(UnsignedBytes(u, n, order), order) == u
  {
    LittleEndianValueOfBytes(u, n);
    ReverseReverse(LittleEndianBytes(u, n));
  }

  /** Bytes round-trip through their unsigned value, in either byte order. */
  lemma UnsignedBytesOfValue(s: seq<Byte>, order: ByteOrder)
    ensures UnsignedBytes(UnsignedValue(s, order), |s|, order) == s
  {
    match order
    case LittleEndian =>
      LittleEndianBytesOfValue(s);
    case BigEndian =>
      LittleEndianBytesOfValue(Reverse(s));
      ReverseReverse(s);
  }

  /** Two's-complement reading of an unsigned field of `n` bytes. */
  function ToSigned(u: nat, n: nat): (x: int)
    requires n > 0 && u < Pow256(n)
    ensures -Half(n) <= x < Half(n)
    ensures x == u || x == u - Pow256(n)
  {
    if u < Half(n) then u else u - Pow256(n)
  }

  /** Two's-complement encoding of a signed value into an unsigned field of
      `n` bytes. */
  function FromSigned(x: int, n: nat): (u: nat)
    requires n > 0 && -Half(n) <= x < Half(n)
    ensures u < Pow256(n)
    ensures u == x || u == x + Pow256(n)
  {
    if x < 0 then x + Pow256(n) else x
  }

  /** Every in-range signed value survives encoding and decoding. */
  lemma ToSignedFromSigned(x: int, n: nat)
    requires n > 0 && -Half(n) <= x < Half(n)
    ensures ToSigned(FromSigned(x, n), n) == x
  {
  }

  /** Every unsigned field survives decoding and re-encoding. */
  lemma FromSignedToSigned(u: nat, n: nat)
    requires n > 0 && u < Pow256(n)
    ensures FromSigned(ToSigned(u, n), n) == u
  {
  }
}
