/**
 * Bucket slots of the header map and the resolution of their string
 * offsets into NUL-terminated UTF-8 strings of the same buffer.
 */
module Buckets {
  import opened Wrappers
  import opened Types
  import opened Utility
  import opened ByteDecoding
  import opened Header
  import opened Utf8

  /**
   * A non-empty bucket: three offsets, relative to the string section, of
   * the key, prefix and suffix strings.
   */
  datatype Bucket = Bucket(keyOffset: u32, prefixOffset: u32, suffixOffset: u32)

  datatype BucketParseError =
    | OffsetParseError(bucketIndex: u32)
    | InvalidStringOffsetOverlapsPreambleSection(offset: nat)
    | InvalidStringOffsetOutOfBounds(offset: nat)
    | NoStringNullTerminatingByteFound(offset: nat)
    | InvalidUtf8String(offset: nat)
    | InternalError(offset: nat)

  /** `Bucket::packed_size()`: three 4-byte offsets. */
  const BUCKET_PACKED_SIZE: nat := 12

  /** The header and one bucket slot; no string may start inside this region. */
  const PREAMBLE_SIZE: nat := DATA_HEADER_PACKED_SIZE + BUCKET_PACKED_SIZE

  lemma PackedSizes()
    ensures BUCKET_PACKED_SIZE == 3 * U32.Size()
    ensures PREAMBLE_SIZE == 36
  {
  }

  /** Where the slot of bucket `bucketIndex` starts. */
  function BucketOffset(bucketIndex: u32): (offset: nat)
  {
    DATA_HEADER_PACKED_SIZE + bucketIndex * BUCKET_PACKED_SIZE
  }

  /**
   * The absolute position of a string: the string-section offset plus the
   * relative offset, added as 32-bit unsigned integers (wrapping around).
   */
  function AbsoluteOffset(header: DataHeader, relative: u32): (a: nat)
    ensures a < 0x1_0000_0000
    ensures header.stringSectionOffset + relative < 0x1_0000_0000 ==> a == header.stringSectionOffset + relative
    ensures header.stringSectionOffset + relative >= 0x1_0000_0000 ==> a == header.stringSectionOffset + relative - 0x1_0000_0000
  {
    (header.stringSectionOffset + relative) % 0x1_0000_0000
  }

  /** `iter().position(|&x| x == 0)`: the index of the first NUL byte, if any. */
  function NulPosition(s: seq<u8>): (r: Option<nat>)
    ensures r.Some? ==> r.value < |s| && s[r.value] == 0
    ensures r.Some? ==> forall j :: 0 <= j < r.value ==> s[j] != 0
    ensures r.None? ==> forall j :: 0 <= j < |s| ==> s[j] != 0
  {
    if s == [] then None
    else if s[0] == 0 then Some(0)
    else
      match NulPosition(s[1..])
      case None => None
      case Some(n) => Some(n + 1)
  }

  /** The `n` bytes at `start` are free of NUL and the byte right after them is NUL. */
  predicate TerminatedAt(bytes: seq<u8>, start: nat, n: nat)
  {
    && start + n < |bytes|
    && bytes[start + n] == 0
    && forall j :: start <= j < start + n ==> bytes[j] != 0
  }

  /** A NUL-terminated string has only one terminator: its first NUL byte. */
  lemma TerminatorIsUnique(bytes: seq<u8>, start: nat, n: nat, m: nat)
    requires TerminatedAt(bytes, start, n) && TerminatedAt(bytes, start, m)
    ensures n == m
  {
  }

  /**
   * `get_string_slice_at_offset`: the string a relative offset designates.
   * It is exactly the bytes from the absolute position up to, not
   * including, the first NUL byte, and must be valid UTF-8. The checks run
   * in order: overlap with the preamble, start past the buffer, no
   * terminator, invalid UTF-8; each error carries the absolute position.
   */
  function GetStringSliceAtOffset(bytes: seq<u8>, header: DataHeader, relative: u32)
    : (r: Result<seq<u8>, BucketParseError>)
    ensures var a := AbsoluteOffset(header, relative);
      r.Success? ==>
        && PREAMBLE_SIZE <= a
        && TerminatedAt(bytes, a, |r.value|)
        && r.value == bytes[a..a + |r.value|]
        && ValidUtf8(r.value)
    ensures var a := AbsoluteOffset(header, relative);
      r.Failure? ==>
        || r.error == InvalidStringOffsetOverlapsPreambleSection(a)
        || r.error == InvalidStringOffsetOutOfBounds(a)
        || r.error == NoStringNullTerminatingByteFound(a)
        || r.error == InvalidUtf8String(a)
    ensures var a := AbsoluteOffset(header, relative);
      r == Failure(InvalidStringOffsetOverlapsPreambleSection(a)) <==> a < PREAMBLE_SIZE
    ensures var a := AbsoluteOffset(header, relative);
      r == Failure(InvalidStringOffsetOutOfBounds(a)) <==> PREAMBLE_SIZE <= a && |bytes| < a
    ensures var a := AbsoluteOffset(header, relative);
      r == Failure(NoStringNullTerminatingByteFound(a)) <==>
        PREAMBLE_SIZE <= a <= |bytes| && forall j :: a <= j < |bytes| ==> bytes[j] != 0
  {
    var absolute := AbsoluteOffset(header, relative);
    if absolute < PREAMBLE_SIZE then Failure(InvalidStringOffsetOverlapsPreambleSection(absolute))
    else if absolute > |bytes| then Failure(InvalidStringOffsetOutOfBounds(absolute))
    else
      var searchBytes := bytes[absolute..];
      match NulPosition(searchBytes)
      case None =>
        assert forall j :: absolute <= j < |bytes| ==> bytes[j] == searchBytes[j - absolute];
        Failure(NoStringNullTerminatingByteFound(absolute))
      case Some(nulOffset) =>
        if nulOffset > |searchBytes| then Failure(InternalError(absolute))
        else
          var stringBytes := searchBytes[..nulOffset];
          assert searchBytes[nulOffset] == bytes[absolute + nulOffset];
          if ValidUtf8(stringBytes) then Success(stringBytes) else Failure(InvalidUtf8String(absolute))
  }

  /**
   * A string resolves exactly when its absolute position lies past the
   * preamble, a NUL byte follows it within the buffer, and the bytes before
   * that NUL are valid UTF-8; the internal-error path is never taken.
   */
  lemma StringSliceSucceedsIff(bytes: seq<u8>, header: DataHeader, relative: u32, n: nat)
    requires TerminatedAt(bytes, AbsoluteOffset(header, relative), n)
    ensures var a := AbsoluteOffset(header, relative);
      GetStringSliceAtOffset(bytes, header, relative) ==
        if a < PREAMBLE_SIZE then Failure(InvalidStringOffsetOverlapsPreambleSection(a))
        else if ValidUtf8(bytes[a..a + n]) then Success(bytes[a..a + n])
        else Failure(InvalidUtf8String(a))
  {
    var a := AbsoluteOffset(header, relative);
    var r := GetStringSliceAtOffset(bytes, header, relative);
    if PREAMBLE_SIZE <= a {
      assert bytes[a + n] == 0;
      if r.Success? {
        TerminatorIsUnique(bytes, a, n, |r.value|);
      } else if r.error == InvalidUtf8String(a) {
        var search := bytes[a..];
        var k := NulPosition(search).value;
        assert search[n] == 0;
        assert TerminatedAt(bytes, a, k);
        TerminatorIsUnique(bytes, a, n, k);
        assert search[..k] == bytes[a..a + n];
      }
    }
  }

  /**
   * `parse_string_section_offset`: reads one offset at the cursor; the
   * reserved value 0 stands for an empty slot. A missing offset is an error
   * naming the bucket.
   */
  method ParseStringSectionOffset(decoder: ByteDecoder, bucketIndex: u32, swapBytes: bool)
    returns (r: Result<Option<u32>, BucketParseError>)
    modifies decoder`offset
    ensures r.Success? <==> old(decoder.offset) + U32.Size() <= |decoder.bytes|
    ensures r.Failure? ==> r.error == OffsetParseError(bucketIndex)
    ensures r.Success? ==> r.value == NonReserved(Field(U32, decoder.bytes, old(decoder.offset), swapBytes))
    ensures decoder.offset == if r.Success? then old(decoder.offset) + U32.Size() else old(decoder.offset)
  {
    var offset := ReadField(decoder, U32, swapBytes);
    if offset.None? {
      return Failure(OffsetParseError(bucketIndex));
    }
    if offset.value == STRING_SECTION_OFFSET_RESERVED {
      r := Success(None);
    } else {
      r := Success(Some(offset.value));
    }
  }

  /** `Bucket::try_new`: a bucket only when all three offsets are present. */
  function TryNew(maybeKeyOffset: Option<u32>, maybePrefixOffset: Option<u32>, maybeSuffixOffset: Option<u32>)
    : (r: Option<Bucket>)
    ensures r.Some? <==> maybeKeyOffset.Some? && maybePrefixOffset.Some? && maybeSuffixOffset.Some?
    ensures r.Some? ==> r.value == Bucket(maybeKeyOffset.value, maybePrefixOffset.value, maybeSuffixOffset.value)
  {
    var keyOffset :- maybeKeyOffset;
    var prefixOffset :- maybePrefixOffset;
    var suffixOffset :- maybeSuffixOffset;
    Some(Bucket(keyOffset, prefixOffset, suffixOffset))
  }

  /** The offset stored at `offset`, or `None` when it is the reserved value. */
  function NonReserved(offset: u32): (r: Option<u32>)
  {
    if offset == STRING_SECTION_OFFSET_RESERVED then None else Some(offset)
  }

  /**
   * What the slot of bucket `bucketIndex` holds: an error when its 12 bytes
   * are not all in the buffer; otherwise empty when any of its three
   * (swapped-if-needed) offsets is 0, and a bucket of the three offsets, in
   * the order key, prefix, suffix, when none is.
   */
  function DecodedBucket(bytes: seq<u8>, bucketIndex: u32, swap: bool)
    : (r: Result<Option<Bucket>, BucketParseError>)
    ensures r.Failure? <==> |bytes| < BucketOffset(bucketIndex) + BUCKET_PACKED_SIZE
    ensures r.Failure? ==> r.error == OffsetParseError(bucketIndex)
    ensures r.Success? ==>
      var base := BucketOffset(bucketIndex);
      var key := Field(U32, bytes, base, swap);
      var prefix := Field(U32, bytes, base + 4, swap);
      var suffix := Field(U32, bytes, base + 8, swap);
      && (r.value.None? <==> key == 0 || prefix == 0 || suffix == 0)
      && (r.value.Some? ==> r.value.value == Bucket(key, prefix, suffix))
  {
    var base := BucketOffset(bucketIndex);
    if |bytes| < base + BUCKET_PACKED_SIZE then Failure(OffsetParseError(bucketIndex))
    else
      Success(TryNew(
        NonReserved(Field(U32, bytes, base, swap)),
        NonReserved(Field(U32, bytes, base + 4, swap)),
        NonReserved(Field(U32, bytes, base + 8, swap))))
  }

  /**
   * `Bucket::new_at_index`: reads the three offsets of the slot with one
   * cursor. All three are read even when an earlier one is the reserved
   * value, so a slot cut short by the end of the buffer is an error.
   */
  method NewAtIndex(bytes: seq<u8>, bucketIndex: u32, swapBytes: bool)
    returns (r: Result<Option<Bucket>, BucketParseError>)
    ensures r == DecodedBucket(bytes, bucketIndex, swapBytes)
  {
    var offset := DATA_HEADER_PACKED_SIZE + bucketIndex * BUCKET_PACKED_SIZE;
    var decoder := new ByteDecoder(bytes, offset);
    var maybeKeyOffset :- ParseStringSectionOffset(decoder, bucketIndex, swapBytes);
    var maybePrefixOffset :- ParseStringSectionOffset(decoder, bucketIndex, swapBytes);
    var maybeSuffixOffset :- ParseStringSectionOffset(decoder, bucketIndex, swapBytes);
    r := Success(TryNew(maybeKeyOffset, maybePrefixOffset, maybeSuffixOffset));
  }

  /** The three offsets of a bucket are the fields at 0, 4 and 8 of its 12-byte slot. */
  lemma SlotFields(bytes: seq<u8>, bucketIndex: u32, swap: bool)
    requires BucketOffset(bucketIndex) + BUCKET_PACKED_SIZE <= |bytes|
    ensures var base := BucketOffset(bucketIndex);
      var slot := bytes[base..base + BUCKET_PACKED_SIZE];
      && Field(U32, bytes, base, swap) == Field(U32, slot, 0, swap)
      && Field(U32, bytes, base + 4, swap) == Field(U32, slot, 4, swap)
      && Field(U32, bytes, base + 8, swap) == Field(U32, slot, 8, swap)
  {
    var base := BucketOffset(bucketIndex);
    FieldOfWindow(U32, bytes, base, BUCKET_PACKED_SIZE, 0, swap);
    FieldOfWindow(U32, bytes, base, BUCKET_PACKED_SIZE, 4, swap);
    FieldOfWindow(U32, bytes, base, BUCKET_PACKED_SIZE, 8, swap);
  }

  /** Decoding a bucket reads nothing outside its own 12-byte slot. */
  lemma DecodedBucketReadsOnlyItsSlot(bytes: seq<u8>, other: seq<u8>, bucketIndex: u32, swap: bool)
    requires BucketOffset(bucketIndex) + BUCKET_PACKED_SIZE <= |bytes|
    requires BucketOffset(bucketIndex) + BUCKET_PACKED_SIZE <= |other|
    requires var base := BucketOffset(bucketIndex);
      bytes[base..base + BUCKET_PACKED_SIZE] == other[base..base + BUCKET_PACKED_SIZE]
    ensures DecodedBucket(bytes, bucketIndex, swap) == DecodedBucket(other, bucketIndex, swap)
  {
    SlotFields(bytes, bucketIndex, swap);
    SlotFields(other, bucketIndex, swap);
  }

  /** A bucket slot as a writer lays it out for a reader that swaps when `swap` is set. */
  function EncodeBucket(keyOffset: u32, prefixOffset: u32, suffixOffset: u32, swap: bool): (s: seq<u8>)
    ensures |s| == BUCKET_PACKED_SIZE
  {
    EncodeField(U32, keyOffset, swap) + EncodeField(U32, prefixOffset, swap) + EncodeField(U32, suffixOffset, swap)
  }

  /** Each offset of an encoded slot reads back as written. */
  lemma EncodedSlotFields(keyOffset: u32, prefixOffset: u32, suffixOffset: u32, swap: bool)
    ensures var slot := EncodeBucket(keyOffset, prefixOffset, suffixOffset, swap);
      && Field(U32, slot, 0, swap) == keyOffset
      && Field(U32, slot, 4, swap) == prefixOffset
      && Field(U32, slot, 8, swap) == suffixOffset
  {
    var k, p, x := EncodeField(U32, keyOffset, swap), EncodeField(U32, prefixOffset, swap), EncodeField(U32, suffixOffset, swap);
    FieldAfter(U32, [], keyOffset, swap);
    assert [] + k == k;
    FieldOfPrefix(U32, k, p, 0, swap);
    FieldOfPrefix(U32, k + p, x, 0, swap);
    FieldAfter(U32, k, prefixOffset, swap);
    FieldOfPrefix(U32, k + p, x, 4, swap);
    FieldAfter(U32, k + p, suffixOffset, swap);
  }

  /**
   * Round trip: a slot written in either byte order decodes to the bucket
   * of its three offsets, or to an empty slot when any of them is 0.
   */
  lemma ParseEncodedBucket(bytes: seq<u8>, bucketIndex: u32, keyOffset: u32, prefixOffset: u32, suffixOffset: u32, swap: bool)
    requires BucketOffset(bucketIndex) + BUCKET_PACKED_SIZE <= |bytes|
    requires var base := BucketOffset(bucketIndex);
      bytes[base..base + BUCKET_PACKED_SIZE] == EncodeBucket(keyOffset, prefixOffset, suffixOffset, swap)
    ensures DecodedBucket(bytes, bucketIndex, swap) ==
      if keyOffset == 0 || prefixOffset == 0 || suffixOffset == 0 then Success(None)
      else Success(Some(Bucket(keyOffset, prefixOffset, suffixOffset)))
  {
    SlotFields(bytes, bucketIndex, swap);
    EncodedSlotFields(keyOffset, prefixOffset, suffixOffset, swap);
  }

  /** A resolved string: valid UTF-8 with no NUL byte inside. */
  predicate WellFormedString(s: seq<u8>)
  {
    ValidUtf8(s) && forall i :: 0 <= i < |s| ==> s[i] != 0
  }

  predicate WellFormedEntry(e: Entry)
  {
    WellFormedString(e.key) && WellFormedString(e.prefix) && WellFormedString(e.suffix)
  }

  /**
   * `Bucket::to_entry`: resolves the key, then the prefix, then the suffix.
   * It yields an entry of the three strings when all three resolve, and
   * otherwise the error of the first one that does not.
   */
  function ToEntry(bucket: Bucket, bytes: seq<u8>, header: DataHeader): (r: Result<Entry, BucketParseError>)
    ensures var key := GetStringSliceAtOffset(bytes, header, bucket.keyOffset);
      var prefix := GetStringSliceAtOffset(bytes, header, bucket.prefixOffset);
      var suffix := GetStringSliceAtOffset(bytes, header, bucket.suffixOffset);
      && (r.Success? <==> key.Success? && prefix.Success? && suffix.Success?)
      && (r.Success? ==> r.value == Entry(key.value, prefix.value, suffix.value) && WellFormedEntry(r.value))
      && (r.Failure? ==>
            || (key.Failure? && r.error == key.error)
            || (key.Success? && prefix.Failure? && r.error == prefix.error)
            || (key.Success? && prefix.Success? && suffix.Failure? && r.error == suffix.error))
  {
    var key :- GetStringSliceAtOffset(bytes, header, bucket.keyOffset);
    var prefix :- GetStringSliceAtOffset(bytes, header, bucket.prefixOffset);
    var suffix :- GetStringSliceAtOffset(bytes, header, bucket.suffixOffset);
    Success(Entry(key, prefix, suffix))
  }

  /**
   * What bucket `bucketIndex` contributes: nothing for an empty slot (no
   * string is resolved then), an entry when the slot is full and all its
   * strings resolve, and otherwise the first error met.
   */
  function EntryAtIndex(bytes: seq<u8>, header: DataHeader, bucketIndex: u32, swap: bool)
    : (r: Result<Option<Entry>, BucketParseError>)
    ensures r == Success(None) <==> DecodedBucket(bytes, bucketIndex, swap) == Success(None)
    ensures r == Failure(OffsetParseError(bucketIndex)) <==>
      |bytes| < BucketOffset(bucketIndex) + BUCKET_PACKED_SIZE
    ensures r.Success? && r.value.Some? ==>
      DecodedBucket(bytes, bucketIndex, swap).Success? && WellFormedEntry(r.value.value)
    ensures var slot := DecodedBucket(bytes, bucketIndex, swap);
      slot.Success? && slot.value.Some? ==>
        var entry := ToEntry(slot.value.value, bytes, header);
        && (r.Success? <==> entry.Success?)
        && (r.Success? ==> r.value == Some(entry.value))
        && (r.Failure? ==> r.error == entry.error)
  {
    match DecodedBucket(bytes, bucketIndex, swap)
    case Failure(e) => Failure(e)
    case Success(None) => Success(None)
    case Success(Some(bucket)) =>
      match ToEntry(bucket, bytes, header)
      case Failure(e) => Failure(e)
      case Success(entry) => Success(Some(entry))
  }

  /**
   * `parse_entry_at_bucket_index`: decodes the slot, then resolves its
   * strings when it is not empty.
   */
  method ParseEntryAtBucketIndex(bytes: seq<u8>, header: DataHeader, bucketIndex: u32, swapBytes: bool)
    returns (r: Result<Option<Entry>, BucketParseError>)
    ensures r == EntryAtIndex(bytes, header, bucketIndex, swapBytes)
  {
    var maybeBucket :- NewAtIndex(bytes, bucketIndex, swapBytes);
    match maybeBucket
    case None =>
      r := Success(None);
    case Some(bucket) =>
      var entry :- ToEntry(bucket, bytes, header);
      r := Success(Some(entry));
  }
}
