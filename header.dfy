/**
 * The fixed 24-byte header of a header-map file (version 1 of the Clang
 * header-map layout) and its validating parser.
 */
module Header {
  import opened Wrappers
  import opened Types
  import opened Utility
  import opened ByteDecoding

  /** 'hmap' read as a big-endian word. */
  const MAGIC_NATIVE_ENDIAN: u32 := 0x68_6D_61_70
  const MAGIC_NON_NATIVE_ENDIAN: u32 := SwapBytes(U32, MAGIC_NATIVE_ENDIAN)

  datatype DataHeader = DataHeader(
    magic: u32,
    version: u16,
    reserved: u16,
    stringSectionOffset: u32,
    stringCount: u32,
    bucketCount: u32,
    maxValueLength: u32)

  /** `DataHeader::packed_size()`: the header's fields laid out without padding. */
  const DATA_HEADER_PACKED_SIZE: nat := 24

  // Byte position of each header field: magic (u32), version (u16),
  // reserved (u16), then four u32 fields.
  const MAGIC_AT: nat := 0
  const VERSION_AT: nat := 4
  const RESERVED_AT: nat := 6
  const STRING_SECTION_OFFSET_AT: nat := 8
  const STRING_COUNT_AT: nat := 12
  const BUCKET_COUNT_AT: nat := 16
  const MAX_VALUE_LENGTH_AT: nat := 20

  /** The packed size is the sum of the seven field sizes, and the last field ends there. */
  lemma PackedSizeIsSumOfFields()
    ensures DATA_HEADER_PACKED_SIZE
      == U32.Size() + U16.Size() + U16.Size() + U32.Size() + U32.Size() + U32.Size() + U32.Size()
    ensures VERSION_AT == MAGIC_AT + U32.Size() && RESERVED_AT == VERSION_AT + U16.Size()
    ensures STRING_SECTION_OFFSET_AT == RESERVED_AT + U16.Size()
    ensures STRING_COUNT_AT == STRING_SECTION_OFFSET_AT + U32.Size()
    ensures BUCKET_COUNT_AT == STRING_COUNT_AT + U32.Size()
    ensures MAX_VALUE_LENGTH_AT == BUCKET_COUNT_AT + U32.Size()
    ensures DATA_HEADER_PACKED_SIZE == MAX_VALUE_LENGTH_AT + U32.Size()
  {
  }

  datatype DataHeaderError =
    | UnknownMagic(magic: u32)
    | MissingMagic
    | MissingVersion
    | UnsupportedVersion(version: u16)
    | MissingReservedValue
    | UnsupportedReserved(reserved: u16)
    | MissingStringSectionOffsetValue
    | MissingStringCountValue
    | MissingBucketCountValue
    | BucketCountNotPowerOfTwo(bucketCount: u32)
    | MissingMaxValueLengthValue
    | StringSectionOffsetOutOfBounds(stringSectionOffset: u32)
  {
    /** The error reports a field whose bytes are not in the buffer. */
    predicate IsMissing() {
      MissingMagic? || MissingVersion? || MissingReservedValue? || MissingStringSectionOffsetValue?
      || MissingStringCountValue? || MissingBucketCountValue? || MissingMaxValueLengthValue?
    }

    /** Where the missing field starts and ends. */
    function MissingFieldStart(): (start: nat)
      requires IsMissing()
    {
      match this
      case MissingMagic => MAGIC_AT
      case MissingVersion => VERSION_AT
      case MissingReservedValue => RESERVED_AT
      case MissingStringSectionOffsetValue => STRING_SECTION_OFFSET_AT
      case MissingStringCountValue => STRING_COUNT_AT
      case MissingBucketCountValue => BUCKET_COUNT_AT
      case MissingMaxValueLengthValue => MAX_VALUE_LENGTH_AT
    }

    function MissingFieldEnd(): (end: nat)
      requires IsMissing()
    {
      match this
      case MissingMagic => VERSION_AT
      case MissingVersion => RESERVED_AT
      case MissingReservedValue => STRING_SECTION_OFFSET_AT
      case MissingStringSectionOffsetValue => STRING_COUNT_AT
      case MissingStringCountValue => BUCKET_COUNT_AT
      case MissingBucketCountValue => MAX_VALUE_LENGTH_AT
      case MissingMaxValueLengthValue => DATA_HEADER_PACKED_SIZE
    }
  }

  /** A parsed header and whether every multi-byte value of the file must be byte-swapped. */
  datatype DataHeaderParseResult = DataHeaderParseResult(header: DataHeader, swapBytes: bool)

  /** `u32::is_power_of_two`: exactly one bit set (so 0 is not a power of two). */
  predicate IsPowerOfTwo(n: nat)
  {
    n == 1 || (n >= 2 && n % 2 == 0 && IsPowerOfTwo(n / 2))
  }

  function Pow2(k: nat): (r: nat)
    ensures r >= 1
  {
    if k == 0 then 1 else 2 * Pow2(k - 1)
  }

  /** Every power of two passes the check. */
  lemma {:induction false} Pow2IsPowerOfTwo(k: nat)
    ensures IsPowerOfTwo(Pow2(k))
  {
    if k > 0 {
      Pow2IsPowerOfTwo(k - 1);
    }
  }

  /** Only powers of two pass the check. */
  lemma {:induction false} PowerOfTwoIsPow2(n: nat)
    requires IsPowerOfTwo(n)
    ensures exists k: nat :: Pow2(k) == n
  {
    if n == 1 {
      assert Pow2(0) == n;
    } else {
      PowerOfTwoIsPow2(n / 2);
      var k: nat :| Pow2(k) == n / 2;
      assert Pow2(k + 1) == n;
    }
  }

  /**
   * What parsing the header yields, field by field at fixed positions: each
   * check runs in field order and the first one that fails names the error.
   * The magic is read without swapping and decides the flag for the rest.
   */
  function DecodedHeader(bytes: seq<u8>): (r: Result<DataHeaderParseResult, DataHeaderError>)
  {
    if |bytes| < VERSION_AT then Failure(MissingMagic)
    else
      var magic := Field(U32, bytes, MAGIC_AT, false);
      if magic != MAGIC_NATIVE_ENDIAN && magic != MAGIC_NON_NATIVE_ENDIAN then Failure(UnknownMagic(magic))
      else DecodedHeaderFields(bytes, magic == MAGIC_NON_NATIVE_ENDIAN)
  }

  /** Version, reserved value and string-section offset, read with the flag `swap`. */
  function DecodedHeaderFields(bytes: seq<u8>, swap: bool): (r: Result<DataHeaderParseResult, DataHeaderError>)
  {
    if |bytes| < RESERVED_AT then Failure(MissingVersion)
    else
      var version := Field(U16, bytes, VERSION_AT, swap);
      if version != VERSION_1 then Failure(UnsupportedVersion(version))
      else if |bytes| < STRING_SECTION_OFFSET_AT then Failure(MissingReservedValue)
      else
        var reserved := Field(U16, bytes, RESERVED_AT, swap);
        if reserved != RESERVED then Failure(UnsupportedReserved(reserved))
        else if |bytes| < STRING_COUNT_AT then Failure(MissingStringSectionOffsetValue)
        else
          var stringSectionOffset := Field(U32, bytes, STRING_SECTION_OFFSET_AT, swap);
          if |bytes| < stringSectionOffset then Failure(StringSectionOffsetOutOfBounds(stringSectionOffset))
          else DecodedHeaderCounts(bytes, swap, stringSectionOffset)
  }

  /** String count, bucket count and maximum value length, read with the flag `swap`. */
  function DecodedHeaderCounts(bytes: seq<u8>, swap: bool, stringSectionOffset: u32)
    : (r: Result<DataHeaderParseResult, DataHeaderError>)
  {
    if |bytes| < BUCKET_COUNT_AT then Failure(MissingStringCountValue)
    else
      var stringCount := Field(U32, bytes, STRING_COUNT_AT, swap);
      if |bytes| < MAX_VALUE_LENGTH_AT then Failure(MissingBucketCountValue)
      else
        var bucketCount := Field(U32, bytes, BUCKET_COUNT_AT, swap);
        if !IsPowerOfTwo(bucketCount) then Failure(BucketCountNotPowerOfTwo(bucketCount))
        else if |bytes| < DATA_HEADER_PACKED_SIZE then Failure(MissingMaxValueLengthValue)
        else
          var maxValueLength := Field(U32, bytes, MAX_VALUE_LENGTH_AT, swap);
          Success(DataHeaderParseResult(
            DataHeader(MAGIC_NATIVE_ENDIAN, VERSION_1, RESERVED, stringSectionOffset,
                       stringCount, bucketCount, maxValueLength),
            swap))
  }

  /**
   * `parse_header`: threads one decoding cursor through the seven header
   * fields, failing on the first missing or invalid one.
   */
  method ParseHeader(bytes: seq<u8>) returns (r: Result<DataHeaderParseResult, DataHeaderError>)
    ensures r == DecodedHeader(bytes)
  {
    var decoder := new ByteDecoder(bytes, 0);
    var magic := ReadField(decoder, U32, false);
    if magic.None? {
      return Failure(MissingMagic);
    }
    if magic.value != MAGIC_NATIVE_ENDIAN && magic.value != MAGIC_NON_NATIVE_ENDIAN {
      return Failure(UnknownMagic(magic.value));
    }
    var swapBytes := magic.value == MAGIC_NON_NATIVE_ENDIAN;
    assert DecodedHeader(bytes) == DecodedHeaderFields(bytes, swapBytes);

    var version := ReadField(decoder, U16, swapBytes);
    if version.None? {
      return Failure(MissingVersion);
    }
    if version.value != VERSION_1 {
      return Failure(UnsupportedVersion(version.value));
    }

    var reserved := ReadField(decoder, U16, swapBytes);
    if reserved.None? {
      return Failure(MissingReservedValue);
    }
    if reserved.value != RESERVED {
      return Failure(UnsupportedReserved(reserved.value));
    }

    var stringSectionOffset := ReadField(decoder, U32, swapBytes);
    if stringSectionOffset.None? {
      return Failure(MissingStringSectionOffsetValue);
    }
    if |bytes| < stringSectionOffset.value {
      return Failure(StringSectionOffsetOutOfBounds(stringSectionOffset.value));
    }
    assert DecodedHeader(bytes) == DecodedHeaderCounts(bytes, swapBytes, stringSectionOffset.value);

    var stringCount := ReadField(decoder, U32, swapBytes);
    if stringCount.None? {
      return Failure(MissingStringCountValue);
    }

    var bucketCount := ReadField(decoder, U32, swapBytes);
    if bucketCount.None? {
      return Failure(MissingBucketCountValue);
    }
    if !IsPowerOfTwo(bucketCount.value) {
      return Failure(BucketCountNotPowerOfTwo(bucketCount.value));
    }

    var maxValueLength := ReadField(decoder, U32, swapBytes);
    if maxValueLength.None? {
      return Failure(MissingMaxValueLengthValue);
    }

    var header := DataHeader(MAGIC_NATIVE_ENDIAN, version.value, reserved.value, stringSectionOffset.value,
                             stringCount.value, bucketCount.value, maxValueLength.value);
    r := Success(DataHeaderParseResult(header, swapBytes));
  }

  /** The two recognised magic values are distinct: 'hmap' and its byte reversal. */
  lemma MagicValues()
    ensures MAGIC_NON_NATIVE_ENDIAN == 0x70_61_6D_68
    ensures MAGIC_NATIVE_ENDIAN != MAGIC_NON_NATIVE_ENDIAN
  {
    var x := MAGIC_NATIVE_ENDIAN;
    assert x % 0x100 == 0x70 && x / 0x100 % 0x100 == 0x61;
    assert x / 0x1_0000 % 0x100 == 0x6D && x / 0x100_0000 == 0x68;
  }

  /** The conditions under which the header is accepted, stated on the raw buffer. */
  predicate WellFormedHeader(bytes: seq<u8>)
  {
    && |bytes| >= DATA_HEADER_PACKED_SIZE
    && var magic := Field(U32, bytes, MAGIC_AT, false);
    && (magic == MAGIC_NATIVE_ENDIAN || magic == MAGIC_NON_NATIVE_ENDIAN)
    && var swap := magic == MAGIC_NON_NATIVE_ENDIAN;
    && Field(U16, bytes, VERSION_AT, swap) == VERSION_1
    && Field(U16, bytes, RESERVED_AT, swap) == RESERVED
    && Field(U32, bytes, STRING_SECTION_OFFSET_AT, swap) <= |bytes|
    && IsPowerOfTwo(Field(U32, bytes, BUCKET_COUNT_AT, swap))
  }

  /**
   * The header parses exactly when the buffer holds all 24 header bytes, a
   * recognised magic, version 1, reserved 0, a string-section offset within
   * the buffer and a power-of-two bucket count. The parsed header then holds
   * the native magic and the decoded (swapped-if-needed) fields, the swap
   * flag says whether the magic was the byte-swapped one, and the bucket
   * count is at least one.
   */
  lemma ParseHeaderSucceedsIff(bytes: seq<u8>)
    ensures DecodedHeader(bytes).Success? <==> WellFormedHeader(bytes)
    ensures DecodedHeader(bytes).Success? ==>
      var parsed := DecodedHeader(bytes).value;
      var swap := Field(U32, bytes, MAGIC_AT, false) == MAGIC_NON_NATIVE_ENDIAN;
      && parsed.swapBytes == swap
      && parsed.header == DataHeader(
           MAGIC_NATIVE_ENDIAN, VERSION_1, RESERVED,
           Field(U32, bytes, STRING_SECTION_OFFSET_AT, swap),
           Field(U32, bytes, STRING_COUNT_AT, swap),
           Field(U32, bytes, BUCKET_COUNT_AT, swap),
           Field(U32, bytes, MAX_VALUE_LENGTH_AT, swap))
      && parsed.header.bucketCount >= 1
      && parsed.header.stringSectionOffset <= |bytes|
  {
  }

  /**
   * A buffer shorter than the header is always rejected, and a "missing"
   * error names the first field that does not fit: every earlier field was
   * read in full and this one runs past the end of the buffer.
   */
  lemma MissingFieldIsFirstUnreadable(bytes: seq<u8>)
    ensures |bytes| < DATA_HEADER_PACKED_SIZE ==> DecodedHeader(bytes).Failure?
    ensures DecodedHeader(bytes).Failure? && DecodedHeader(bytes).error.IsMissing() ==>
      DecodedHeader(bytes).error.MissingFieldStart() <= |bytes| < DecodedHeader(bytes).error.MissingFieldEnd()
  {
  }

  /**
   * Which value error a rejected header gets. The checks run in field order,
   * so each error occurs exactly when every earlier field was read and
   * accepted and this one is rejected; its payload is the field as read
   * (swapped when the magic is the byte-swapped one).
   */
  lemma HeaderValueErrors(bytes: seq<u8>)
    ensures var r := DecodedHeader(bytes);
      (r.Failure? && r.error.UnknownMagic?) <==>
        (VERSION_AT <= |bytes|
         && var magic := Field(U32, bytes, MAGIC_AT, false);
         magic != MAGIC_NATIVE_ENDIAN && magic != MAGIC_NON_NATIVE_ENDIAN)
    ensures var r := DecodedHeader(bytes);
      r.Failure? && r.error.UnknownMagic? ==> r.error.magic == Field(U32, bytes, MAGIC_AT, false)
    ensures var r := DecodedHeader(bytes);
      (r.Failure? && r.error.UnsupportedVersion?) <==>
        (RESERVED_AT <= |bytes|
         && var magic := Field(U32, bytes, MAGIC_AT, false);
         && (magic == MAGIC_NATIVE_ENDIAN || magic == MAGIC_NON_NATIVE_ENDIAN)
         && Field(U16, bytes, VERSION_AT, magic == MAGIC_NON_NATIVE_ENDIAN) != VERSION_1)
    ensures var r := DecodedHeader(bytes);
      r.Failure? && r.error.UnsupportedVersion? ==>
        r.error.version == Field(U16, bytes, VERSION_AT, Field(U32, bytes, MAGIC_AT, false) == MAGIC_NON_NATIVE_ENDIAN)
    ensures var r := DecodedHeader(bytes);
      (r.Failure? && r.error.UnsupportedReserved?) <==>
        (STRING_SECTION_OFFSET_AT <= |bytes|
         && var magic := Field(U32, bytes, MAGIC_AT, false);
         && (magic == MAGIC_NATIVE_ENDIAN || magic == MAGIC_NON_NATIVE_ENDIAN)
         && var swap := magic == MAGIC_NON_NATIVE_ENDIAN;
         && Field(U16, bytes, VERSION_AT, swap) == VERSION_1
         && Field(U16, bytes, RESERVED_AT, swap) != RESERVED)
    ensures var r := DecodedHeader(bytes);
      r.Failure? && r.error.UnsupportedReserved? ==>
        r.error.reserved == Field(U16, bytes, RESERVED_AT, Field(U32, bytes, MAGIC_AT, false) == MAGIC_NON_NATIVE_ENDIAN)
    ensures var r := DecodedHeader(bytes);
      (r.Failure? && r.error.StringSectionOffsetOutOfBounds?) <==>
        (STRING_COUNT_AT <= |bytes|
         && var magic := Field(U32, bytes, MAGIC_AT, false);
         && (magic == MAGIC_NATIVE_ENDIAN || magic == MAGIC_NON_NATIVE_ENDIAN)
         && var swap := magic == MAGIC_NON_NATIVE_ENDIAN;
         && Field(U16, bytes, VERSION_AT, swap) == VERSION_1
         && Field(U16, bytes, RESERVED_AT, swap) == RESERVED
         && |bytes| < Field(U32, bytes, STRING_SECTION_OFFSET_AT, swap))
    ensures var r := DecodedHeader(bytes);
      r.Failure? && r.error.StringSectionOffsetOutOfBounds? ==>
        r.error.stringSectionOffset
          == Field(U32, bytes, STRING_SECTION_OFFSET_AT, Field(U32, bytes, MAGIC_AT, false) == MAGIC_NON_NATIVE_ENDIAN)
    ensures var r := DecodedHeader(bytes);
      (r.Failure? && r.error.BucketCountNotPowerOfTwo?) <==>
        (MAX_VALUE_LENGTH_AT <= |bytes|
         && var magic := Field(U32, bytes, MAGIC_AT, false);
         && (magic == MAGIC_NATIVE_ENDIAN || magic == MAGIC_NON_NATIVE_ENDIAN)
         && var swap := magic == MAGIC_NON_NATIVE_ENDIAN;
         && Field(U16, bytes, VERSION_AT, swap) == VERSION_1
         && Field(U16, bytes, RESERVED_AT, swap) == RESERVED
         && Field(U32, bytes, STRING_SECTION_OFFSET_AT, swap) <= |bytes|
         && !IsPowerOfTwo(Field(U32, bytes, BUCKET_COUNT_AT, swap)))
    ensures var r := DecodedHeader(bytes);
      r.Failure? && r.error.BucketCountNotPowerOfTwo? ==>
        r.error.bucketCount == Field(U32, bytes, BUCKET_COUNT_AT, Field(U32, bytes, MAGIC_AT, false) == MAGIC_NON_NATIVE_ENDIAN)
  {
  }

  /**
   * Truncating a well-formed header: a prefix shorter than 24 bytes reports a
   * missing field (the first one that does not fit, by
   * `MissingFieldIsFirstUnreadable`) unless the string-section offset was
   * read and lies past the prefix's end. The offset is checked against the
   * buffer length before the string count is read, so in that case the
   * prefix is rejected with `StringSectionOffsetOutOfBounds` instead.
   */
  lemma TruncatedHeaderErrors(full: seq<u8>, n: nat)
    requires WellFormedHeader(full) && n < DATA_HEADER_PACKED_SIZE
    ensures var sso := Field(U32, full, STRING_SECTION_OFFSET_AT, Field(U32, full, MAGIC_AT, false) == MAGIC_NON_NATIVE_ENDIAN);
      var r := DecodedHeader(full[..n]);
      && (n < STRING_COUNT_AT || sso <= n ==> r.Failure? && r.error.IsMissing())
      && (STRING_COUNT_AT <= n && n < sso ==> r == Failure(StringSectionOffsetOutOfBounds(sso)))
  {
    var prefix := full[..n];
    assert prefix + full[n..] == full;
    var swap := Field(U32, full, MAGIC_AT, false) == MAGIC_NON_NATIVE_ENDIAN;
    if VERSION_AT <= n {
      FieldOfPrefix(U32, prefix, full[n..], MAGIC_AT, false);
    }
    if RESERVED_AT <= n {
      FieldOfPrefix(U16, prefix, full[n..], VERSION_AT, swap);
    }
    if STRING_SECTION_OFFSET_AT <= n {
      FieldOfPrefix(U16, prefix, full[n..], RESERVED_AT, swap);
    }
    if STRING_COUNT_AT <= n {
      FieldOfPrefix(U32, prefix, full[n..], STRING_SECTION_OFFSET_AT, swap);
    }
    if MAX_VALUE_LENGTH_AT <= n {
      FieldOfPrefix(U32, prefix, full[n..], BUCKET_COUNT_AT, swap);
    }
  }

  /** A header exactly as a writer lays it out for a reader that swaps when `swap` is set. */
  function EncodeHeader(h: DataHeader, swap: bool): (s: seq<u8>)
    ensures |s| == DATA_HEADER_PACKED_SIZE
  {
    EncodeField(U32, MAGIC_NATIVE_ENDIAN, swap) + EncodeField(U16, h.version, swap)
    + EncodeField(U16, h.reserved, swap) + EncodeField(U32, h.stringSectionOffset, swap)
    + EncodeField(U32, h.stringCount, swap) + EncodeField(U32, h.bucketCount, swap)
    + EncodeField(U32, h.maxValueLength, swap)
  }

  /** Each field of an encoded header reads back, after the swap, as the value written. */
  lemma {:induction false} EncodedHeaderFields(h: DataHeader, swap: bool, rest: seq<u8>)
    ensures var bytes := EncodeHeader(h, swap) + rest;
      && Field(U32, bytes, MAGIC_AT, false) == SwapBytesIf(U32, MAGIC_NATIVE_ENDIAN, swap)
      && Field(U16, bytes, VERSION_AT, swap) == h.version
      && Field(U16, bytes, RESERVED_AT, swap) == h.reserved
      && Field(U32, bytes, STRING_SECTION_OFFSET_AT, swap) == h.stringSectionOffset
      && Field(U32, bytes, STRING_COUNT_AT, swap) == h.stringCount
      && Field(U32, bytes, BUCKET_COUNT_AT, swap) == h.bucketCount
      && Field(U32, bytes, MAX_VALUE_LENGTH_AT, swap) == h.maxValueLength
  {
    var m := SwapBytesIf(U32, MAGIC_NATIVE_ENDIAN, swap);
    // The header as the running concatenation of its fields.
    var e2, e3, e4 := EncodeField(U16, h.version, swap), EncodeField(U16, h.reserved, swap), EncodeField(U32, h.stringSectionOffset, swap);
    var e5, e6, e7 := EncodeField(U32, h.stringCount, swap), EncodeField(U32, h.bucketCount, swap), EncodeField(U32, h.maxValueLength, swap);
    var p1 := EncodeField(U32, MAGIC_NATIVE_ENDIAN, swap);
    var p2 := p1 + e2;
    var p3 := p2 + e3;
    var p4 := p3 + e4;
    var p5 := p4 + e5;
    var p6 := p5 + e6;
    var p7 := p6 + e7;
    var bytes := p7 + rest;
    assert EncodeHeader(h, swap) == p7;
    // Each field is read back at the end of its prefix, then the fields
    // after it are peeled off one at a time.
    FieldAfter(U32, [], m, false);
    assert [] + EncodeField(U32, m, false) == p1;
    FieldOfPrefix(U32, p1, e2, MAGIC_AT, false);
    FieldOfPrefix(U32, p2, e3, MAGIC_AT, false);
    FieldOfPrefix(U32, p3, e4, MAGIC_AT, false);
    FieldOfPrefix(U32, p4, e5, MAGIC_AT, false);
    FieldOfPrefix(U32, p5, e6, MAGIC_AT, false);
    FieldOfPrefix(U32, p6, e7, MAGIC_AT, false);
    FieldOfPrefix(U32, p7, rest, MAGIC_AT, false);

    FieldAfter(U16, p1, h.version, swap);
    FieldOfPrefix(U16, p2, e3, VERSION_AT, swap);
    FieldOfPrefix(U16, p3, e4, VERSION_AT, swap);
    FieldOfPrefix(U16, p4, e5, VERSION_AT, swap);
    FieldOfPrefix(U16, p5, e6, VERSION_AT, swap);
    FieldOfPrefix(U16, p6, e7, VERSION_AT, swap);
    FieldOfPrefix(U16, p7, rest, VERSION_AT, swap);

    FieldAfter(U16, p2, h.reserved, swap);
    FieldOfPrefix(U16, p3, e4, RESERVED_AT, swap);
    FieldOfPrefix(U16, p4, e5, RESERVED_AT, swap);
    FieldOfPrefix(U16, p5, e6, RESERVED_AT, swap);
    FieldOfPrefix(U16, p6, e7, RESERVED_AT, swap);
    FieldOfPrefix(U16, p7, rest, RESERVED_AT, swap);

    FieldAfter(U32, p3, h.stringSectionOffset, swap);
    FieldOfPrefix(U32, p4, e5, STRING_SECTION_OFFSET_AT, swap);
    FieldOfPrefix(U32, p5, e6, STRING_SECTION_OFFSET_AT, swap);
    FieldOfPrefix(U32, p6, e7, STRING_SECTION_OFFSET_AT, swap);
    FieldOfPrefix(U32, p7, rest, STRING_SECTION_OFFSET_AT, swap);

    FieldAfter(U32, p4, h.stringCount, swap);
    FieldOfPrefix(U32, p5, e6, STRING_COUNT_AT, swap);
    FieldOfPrefix(U32, p6, e7, STRING_COUNT_AT, swap);
    FieldOfPrefix(U32, p7, rest, STRING_COUNT_AT, swap);

    FieldAfter(U32, p5, h.bucketCount, swap);
    FieldOfPrefix(U32, p6, e7, BUCKET_COUNT_AT, swap);
    FieldOfPrefix(U32, p7, rest, BUCKET_COUNT_AT, swap);

    FieldAfter(U32, p6, h.maxValueLength, swap);
    FieldOfPrefix(U32, p7, rest, MAX_VALUE_LENGTH_AT, swap);
  }

  /**
   * Round trip: a valid header written in either byte order parses back to
   * the same header (with the native magic), and the swap flag reports the
   * byte order it was written in.
   */
  lemma ParseEncodedHeader(h: DataHeader, swap: bool, rest: seq<u8>)
    requires h.version == VERSION_1 && h.reserved == RESERVED && IsPowerOfTwo(h.bucketCount)
    requires h.stringSectionOffset <= DATA_HEADER_PACKED_SIZE + |rest|
    ensures DecodedHeader(EncodeHeader(h, swap) + rest)
         == Success(DataHeaderParseResult(h.(magic := MAGIC_NATIVE_ENDIAN), swap))
  {
    MagicValues();
    EncodedHeaderFields(h, swap, rest);
    assert swap <==> SwapBytesIf(U32, MAGIC_NATIVE_ENDIAN, swap) == MAGIC_NON_NATIVE_ENDIAN;
  }
}
