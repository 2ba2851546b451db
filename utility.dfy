/**
 * Primitive decoding and byte-order adaptation of fixed-width unsigned
 * integers. The host is taken to be little-endian, so a "native" reading of
 * bytes is a little-endian reading; a byte-swapped value is the big-endian
 * reading of the same bytes.
 */
module Utility {
  import opened Wrappers
  import opened Types

  /** The decodable primitives: `u16` and `u32`. */
  datatype Primitive = U16 | U32 {
    /** `size_of::<T>()` */
    function Size(): (n: nat)
      ensures n == 2 || n == 4
    {
      if U16? then 2 else 4
    }

    /** One past the largest value of the primitive. */
    function Limit(): (m: nat)
      ensures m == Pow256(Size())
    {
      if U16? then 0x1_0000 else 0x1_0000_0000
    }
  }

  function Pow256(n: nat): (r: nat)
    ensures r >= 1
  {
    if n == 0 then 1 else 256 * Pow256(n - 1)
  }

  /** The value whose native (little-endian) representation is `s`. */
  function FromNeBytes(s: seq<u8>): (x: nat)
    ensures x < Pow256(|s|)
  {
    if s == [] then 0 else s[0] + 256 * FromNeBytes(s[1..])
  }

  /** The `n`-byte native (little-endian) representation of `x`. */
  function NeBytes(x: nat, n: nat): (s: seq<u8>)
    requires x < Pow256(n)
    ensures |s| == n && FromNeBytes(s) == x
  {
    if n == 0 then []
    else
      var s := [x % 256] + NeBytes(x / 256, n - 1);
      assert s[1..] == NeBytes(x / 256, n - 1);
      s
  }

  /** Reading a byte string natively and writing the value back gives the same bytes. */
  lemma {:induction false} NeBytesFromNeBytes(s: seq<u8>)
    ensures NeBytes(FromNeBytes(s), |s|) == s
  {
    if s != [] {
      var rest := s[1..];
      var x, y := FromNeBytes(s), FromNeBytes(rest);
      NeBytesFromNeBytes(rest);
      assert x == s[0] + 256 * y;
      assert x % 256 == s[0] && x / 256 == y;
      assert NeBytes(x, |s|) == [s[0]] + NeBytes(y, |rest|);
      assert [s[0]] + rest == s;
    }
  }

  function Reverse(s: seq<u8>): (r: seq<u8>)
    ensures |r| == |s|
    ensures forall i :: 0 <= i < |s| ==> r[i] == s[|s| - 1 - i]
  {
    if s == [] then [] else Reverse(s[1..]) + [s[0]]
  }

  lemma ReverseReverse(s: seq<u8>)
    ensures Reverse(Reverse(s)) == s
  {
  }

  /** `swap_bytes()`: reverses the order of the bytes of `x`. */
  function SwapBytes(p: Primitive, x: nat): (r: nat)
    requires x < p.Limit()
    ensures r < p.Limit()
  {
    match p
    case U16 => (x % 0x100) * 0x100 + x / 0x100
    case U32 =>
      (x % 0x100) * 0x100_0000 + (x / 0x100 % 0x100) * 0x1_0000
      + (x / 0x1_0000 % 0x100) * 0x100 + x / 0x100_0000
  }

  /** The native representation of a 4-byte value, byte by byte. */
  lemma NeBytesOfU32(x: nat)
    requires x < 0x1_0000_0000
    ensures NeBytes(x, 4) == [x % 0x100, x / 0x100 % 0x100, x / 0x1_0000 % 0x100, x / 0x100_0000]
  {
    assert NeBytes(x, 4) == [x % 0x100] + NeBytes(x / 0x100, 3);
    assert NeBytes(x / 0x100, 3) == [x / 0x100 % 0x100] + NeBytes(x / 0x100 / 0x100, 2);
    assert x / 0x100 / 0x100 == x / 0x1_0000;
    assert NeBytes(x / 0x1_0000, 2) == [x / 0x1_0000 % 0x100] + NeBytes(x / 0x1_0000 / 0x100, 1);
    assert x / 0x1_0000 / 0x100 == x / 0x100_0000;
  }

  /** The native representation of a 2-byte value, byte by byte. */
  lemma NeBytesOfU16(x: nat)
    requires x < 0x1_0000
    ensures NeBytes(x, 2) == [x % 0x100, x / 0x100]
  {
    assert NeBytes(x, 2) == [x % 0x100] + NeBytes(x / 0x100, 1);
  }

  /** The bytes of a value assembled from four bytes are those four bytes. */
  lemma BytesOfAssembledU32(b0: nat, b1: nat, b2: nat, b3: nat)
    requires b0 < 0x100 && b1 < 0x100 && b2 < 0x100 && b3 < 0x100
    ensures var v := b0 + b1 * 0x100 + b2 * 0x1_0000 + b3 * 0x100_0000;
      && v % 0x100 == b0 && v / 0x100 % 0x100 == b1
      && v / 0x1_0000 % 0x100 == b2 && v / 0x100_0000 == b3
  {
    var v := b0 + b1 * 0x100 + b2 * 0x1_0000 + b3 * 0x100_0000;
    assert v == (b1 + b2 * 0x100 + b3 * 0x1_0000) * 0x100 + b0;
    assert v / 0x100 == b1 + b2 * 0x100 + b3 * 0x1_0000;
    assert v == (b2 + b3 * 0x100) * 0x1_0000 + (b0 + b1 * 0x100);
    assert v / 0x1_0000 == b2 + b3 * 0x100;
    assert v == b3 * 0x100_0000 + (b0 + b1 * 0x100 + b2 * 0x1_0000);
  }

  /** Swapping reverses the native representation. */
  lemma SwapBytesReversesBytes(p: Primitive, x: nat)
    requires x < p.Limit()
    ensures NeBytes(SwapBytes(p, x), p.Size()) == Reverse(NeBytes(x, p.Size()))
  {
    match p
    case U16 =>
      NeBytesOfU16(x);
      NeBytesOfU16(SwapBytes(p, x));
    case U32 =>
      SwapU32ReversesBytes(x);
  }

  /** The four-byte case, byte by byte. */
  lemma SwapU32ReversesBytes(x: nat)
    requires x < 0x1_0000_0000
    ensures NeBytes(SwapBytes(U32, x), 4) == Reverse(NeBytes(x, 4))
  {
    var r := SwapBytes(U32, x);
    var b0, b1, b2, b3 := x % 0x100, x / 0x100 % 0x100, x / 0x1_0000 % 0x100, x / 0x100_0000;
    NeBytesOfU32(x);
    NeBytesOfU32(r);
    assert r == b3 + b2 * 0x100 + b1 * 0x1_0000 + b0 * 0x100_0000;
    BytesOfAssembledU32(b3, b2, b1, b0);
    var forward, backward := NeBytes(r, 4), Reverse(NeBytes(x, 4));
    assert forward == [b3, b2, b1, b0];
    assert backward == [b3, b2, b1, b0];
  }

  /** `ByteSwappable::swap_bytes_if`: swaps the byte order of `x` exactly when `swapped`. */
  function SwapBytesIf(p: Primitive, x: nat, swapped: bool): (r: nat)
    requires x < p.Limit()
    ensures r < p.Limit()
  {
    if swapped then SwapBytes(p, x) else x
  }

  /**
   * Without the flag the value is returned as it is; with it, the result's
   * native bytes are the reverse of the value's.
   */
  lemma SwapBytesIfReverses(p: Primitive, x: nat, swapped: bool)
    requires x < p.Limit()
    ensures !swapped ==> SwapBytesIf(p, x, swapped) == x
    ensures swapped ==> NeBytes(SwapBytesIf(p, x, swapped), p.Size()) == Reverse(NeBytes(x, p.Size()))
  {
    if swapped {
      SwapBytesReversesBytes(p, x);
    }
  }

  /** Swapping twice with the same flag gives back the original value. */
  lemma SwapBytesIfInvolution(p: Primitive, x: nat, swapped: bool)
    requires x < p.Limit()
    ensures SwapBytesIf(p, SwapBytesIf(p, x, swapped), swapped) == x
  {
    if swapped {
      var y := SwapBytes(p, x);
      var z := SwapBytes(p, y);
      SwapBytesReversesBytes(p, x);
      SwapBytesReversesBytes(p, y);
      ReverseReverse(NeBytes(x, p.Size()));
      assert NeBytes(z, p.Size()) == NeBytes(x, p.Size());
      assert z == FromNeBytes(NeBytes(z, p.Size()));
    }
  }

  /**
   * `DecodablePrimitive::decode_from_bytes`: reinterprets the first
   * `size_of::<T>()` bytes in native order, without any swapping.
   */
  function DecodeFromBytes(p: Primitive, bytes: seq<u8>): (r: Option<nat>)
    ensures r.Some? <==> |bytes| >= p.Size()
    ensures r.Some? ==> r.value < p.Limit() && NeBytes(r.value, p.Size()) == bytes[..p.Size()]
  {
    if |bytes| < p.Size() then None
    else
      NeBytesFromNeBytes(bytes[..p.Size()]);
      Some(FromNeBytes(bytes[..p.Size()]))
  }

  /** Bytes beyond the first `size_of::<T>()` do not affect the decoded value. */
  lemma DecodeIgnoresTrailingBytes(p: Primitive, bytes: seq<u8>, tail: seq<u8>)
    requires |bytes| >= p.Size()
    ensures DecodeFromBytes(p, bytes + tail) == DecodeFromBytes(p, bytes)
  {
    assert (bytes + tail)[..p.Size()] == bytes[..p.Size()];
  }
}
