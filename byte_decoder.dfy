/**
 * The bounds-checked decoding cursor over a byte buffer, together with the
 * positional readings it produces.
 */
module ByteDecoding {
  import opened Wrappers
  import opened Types
  import opened Utility

  /**
   * The native reading of the primitive at `offset`: present exactly when
   * `offset + size_of::<T>() <= |bytes|`, and then it is the value whose
   * native bytes are `bytes[offset..offset + size]`.
   */
  function DecodeAt(p: Primitive, bytes: seq<u8>, offset: nat): (r: Option<nat>)
    ensures r.Some? <==> offset + p.Size() <= |bytes|
    ensures r.Some? ==> r.value < p.Limit() && NeBytes(r.value, p.Size()) == bytes[offset..offset + p.Size()]
  {
    if offset > |bytes| then None else DecodeFromBytes(p, bytes[offset..])
  }

  /**
   * A field of the file: the primitive stored at `offset`, read natively
   * and then byte-swapped when `swap` is set.
   */
  function Field(p: Primitive, bytes: seq<u8>, offset: nat, swap: bool): (r: nat)
    requires offset + p.Size() <= |bytes|
    ensures r < p.Limit()
  {
    SwapBytesIf(p, FromNeBytes(bytes[offset..offset + p.Size()]), swap)
  }

  /** How a writer stores `value` for a reader that swaps when `swap` is set. */
  function EncodeField(p: Primitive, value: nat, swap: bool): (s: seq<u8>)
    requires value < p.Limit()
    ensures |s| == p.Size()
  {
    NeBytes(SwapBytesIf(p, value, swap), p.Size())
  }

  /** Reading back an encoded field, with the same flag, gives the stored value. */
  lemma FieldOfEncoded(p: Primitive, bytes: seq<u8>, offset: nat, value: nat, swap: bool)
    requires value < p.Limit()
    requires offset + p.Size() <= |bytes|
    requires bytes[offset..offset + p.Size()] == EncodeField(p, value, swap)
    ensures Field(p, bytes, offset, swap) == value
  {
    SwapBytesIfInvolution(p, value, swap);
  }

  /** A field inside a window of the buffer reads the same through the window. */
  lemma FieldOfWindow(p: Primitive, bytes: seq<u8>, base: nat, n: nat, offset: nat, swap: bool)
    requires base + n <= |bytes| && offset + p.Size() <= n
    ensures Field(p, bytes, base + offset, swap) == Field(p, bytes[base..base + n], offset, swap)
  {
    var window := bytes[base..base + n];
    var k := p.Size();
    var outer, inner := bytes[base + offset..base + offset + k], window[offset..offset + k];
    forall i | 0 <= i < k
      ensures outer[i] == inner[i]
    {
      assert window[offset + i] == bytes[base + offset + i];
    }
    assert outer == inner;
  }

  /** Bytes appended after a field do not change it. */
  lemma FieldOfPrefix(p: Primitive, a: seq<u8>, b: seq<u8>, offset: nat, swap: bool)
    requires offset + p.Size() <= |a|
    ensures Field(p, a + b, offset, swap) == Field(p, a, offset, swap)
  {
    var k := p.Size();
    var whole, part := (a + b)[offset..offset + k], a[offset..offset + k];
    forall i | 0 <= i < k
      ensures whole[i] == part[i]
    {
      assert (a + b)[offset + i] == a[offset + i];
    }
    assert whole == part;
  }

  /** A field encoded right after `a` reads back, with the same flag, as the value written. */
  lemma FieldAfter(p: Primitive, a: seq<u8>, value: nat, swap: bool)
    requires value < p.Limit()
    ensures |a + EncodeField(p, value, swap)| == |a| + p.Size()
    ensures Field(p, a + EncodeField(p, value, swap), |a|, swap) == value
  {
    var e := EncodeField(p, value, swap);
    var bytes := a + e;
    var slice := bytes[|a|..|a| + |e|];
    forall i | 0 <= i < |e|
      ensures slice[i] == e[i]
    {
      assert bytes[|a| + i] == e[i];
    }
    assert slice == e;
    FieldOfEncoded(p, bytes, |a|, value, swap);
  }

  /** A successful `DecodeAt` followed by the swap is the `Field` at that position. */
  lemma DecodeAtThenSwap(p: Primitive, bytes: seq<u8>, offset: nat, swap: bool)
    requires offset + p.Size() <= |bytes|
    ensures DecodeAt(p, bytes, offset).Some?
    ensures SwapBytesIf(p, DecodeAt(p, bytes, offset).value, swap) == Field(p, bytes, offset, swap)
  {
    var v := DecodeAt(p, bytes, offset).value;
    assert FromNeBytes(NeBytes(v, p.Size())) == v;
  }

  /** `ByteDecoder`: a buffer and a read position that moves forward on each successful read. */
  class ByteDecoder {
    const bytes: seq<u8>
    var offset: nat

    constructor (bytes: seq<u8>, offset: nat)
      ensures this.bytes == bytes && this.offset == offset
    {
      this.bytes := bytes;
      this.offset := offset;
    }

    /**
     * `advance::<T>()`: decodes the primitive at the current position; the
     * position moves forward by its size on success and stays put otherwise.
     */
    method Advance(p: Primitive) returns (r: Option<nat>)
      modifies this`offset
      ensures r == DecodeAt(p, bytes, old(offset))
      ensures r.Some? <==> old(offset) + p.Size() <= |bytes|
      ensures offset == if r.Some? then old(offset) + p.Size() else old(offset)
    {
      if offset > |bytes| {
        return None;
      }
      var slice := bytes[offset..];
      r := DecodeFromBytes(p, slice);
      if r.Some? {
        offset := offset + p.Size();
      }
    }
  }

  /**
   * One field read as the parsers write it, `advance::<T>()` followed by
   * `swap_bytes_if(swap)`: the cursor moves past the field only when it is
   * in the buffer.
   */
  method ReadField(decoder: ByteDecoder, p: Primitive, swap: bool) returns (r: Option<nat>)
    modifies decoder`offset
    ensures r.Some? <==> old(decoder.offset) + p.Size() <= |decoder.bytes|
    ensures r.Some? ==> r.value == Field(p, decoder.bytes, old(decoder.offset), swap)
    ensures decoder.offset == if r.Some? then old(decoder.offset) + p.Size() else old(decoder.offset)
  {
    var raw := decoder.Advance(p);
    if raw.None? {
      return None;
    }
    DecodeAtThenSwap(p, decoder.bytes, old(decoder.offset), swap);
    r := Some(SwapBytesIf(p, raw.value, swap));
  }

  /** The behaviour the decoder's own unit tests expect. */
  method DecoderExamples()
  {
    var decoder := new ByteDecoder([0xAB, 0xCD], 0);
    var value := decoder.Advance(U16);
    assert NeBytes(value.value, 2) == [0xAB, 0xCD];
    assert value == Some(0xCDAB);
    assert decoder.offset == 2;
    var exhausted := decoder.Advance(U16);
    assert exhausted == None && decoder.offset == 2;

    var empty := new ByteDecoder([], 0);
    var none := empty.Advance(U16);
    assert none == None;

    var far := new ByteDecoder([0xAB, 0xCD], 1024);
    var beyond := far.Advance(U16);
    assert beyond == None && far.offset == 1024;
  }
}
