/**
 * Whole files written in either byte order. A reader accepts both orders
 * and swaps every field of a file written in the other one, so the same
 * logical file should read the same whichever order it was written in.
 * That holds as long as no string starts inside the bucket array past its
 * first slot, since the bytes there differ between the two orders and the
 * overlap check guards only the header and bucket 0.
 */
module ByteOrder {
  import opened Wrappers
  import opened Types
  import opened Utility
  import opened ByteDecoding
  import opened Header
  import opened Buckets
  import opened Headermap
  import opened Utf8

  /**
   * A file as its writer sees it: the header, one slot per bucket (a slot
   * with a zero offset is empty), then the bytes after the bucket array.
   */
  datatype LogicalFile = LogicalFile(header: DataHeader, buckets: seq<Bucket>, strings: seq<u8>)

  /** Byte strings of one slot's size each, laid end to end. */
  function Concat(slots: seq<seq<u8>>): (s: seq<u8>)
    requires forall i :: 0 <= i < |slots| ==> |slots[i]| == BUCKET_PACKED_SIZE
    ensures |s| == BUCKET_PACKED_SIZE * |slots|
  {
    if slots == [] then [] else Concat(slots[..|slots| - 1]) + slots[|slots| - 1]
  }

  /** Slot `i` of a concatenation is its `i`-th part. */
  lemma {:induction false} ConcatAt(slots: seq<seq<u8>>, i: nat)
    requires forall i :: 0 <= i < |slots| ==> |slots[i]| == BUCKET_PACKED_SIZE
    requires i < |slots|
    ensures Concat(slots)[BUCKET_PACKED_SIZE * i..BUCKET_PACKED_SIZE * i + BUCKET_PACKED_SIZE] == slots[i]
    decreases |slots|
  {
    var init := slots[..|slots| - 1];
    var whole, front, tail := Concat(slots), Concat(init), slots[|slots| - 1];
    assert whole == front + tail;
    var lo := BUCKET_PACKED_SIZE * i;
    var slot := whole[lo..lo + BUCKET_PACKED_SIZE];
    if i < |slots| - 1 {
      ConcatAt(init, i);
      var inner := front[lo..lo + BUCKET_PACKED_SIZE];
      forall j | 0 <= j < BUCKET_PACKED_SIZE ensures slot[j] == inner[j] {
        assert whole[lo + j] == front[lo + j];
      }
      assert slot == inner;
    } else {
      forall j | 0 <= j < BUCKET_PACKED_SIZE ensures slot[j] == tail[j] {
        assert whole[|front| + j] == tail[j];
      }
      assert slot == tail;
    }
  }

  /** The encoding of each bucket's slot, in the byte order given by `swap`. */
  function EncodedSlots(buckets: seq<Bucket>, swap: bool): (slots: seq<seq<u8>>)
    ensures |slots| == |buckets|
    ensures forall i :: 0 <= i < |slots| ==> |slots[i]| == BUCKET_PACKED_SIZE
  {
    seq(|buckets|, i requires 0 <= i < |buckets| =>
      EncodeBucket(buckets[i].keyOffset, buckets[i].prefixOffset, buckets[i].suffixOffset, swap))
  }

  /** The bucket array, slot after slot. */
  function EncodeBuckets(buckets: seq<Bucket>, swap: bool): (s: seq<u8>)
    ensures |s| == BUCKET_PACKED_SIZE * |buckets|
  {
    Concat(EncodedSlots(buckets, swap))
  }

  /** The whole file: header, bucket array, then the rest. */
  function EncodeFile(f: LogicalFile, swap: bool): (s: seq<u8>)
    ensures |s| == DATA_HEADER_PACKED_SIZE + BUCKET_PACKED_SIZE * |f.buckets| + |f.strings|
  {
    EncodeHeader(f.header, swap) + (EncodeBuckets(f.buckets, swap) + f.strings)
  }

  /**
   * A file whose header a reader accepts and whose bucket array matches its
   * bucket count. The header is stated in the host's terms, with the native
   * magic; the byte order is chosen when the file is written.
   */
  predicate ValidLogicalFile(f: LogicalFile)
  {
    && f.header.magic == MAGIC_NATIVE_ENDIAN
    && f.header.version == VERSION_1
    && f.header.reserved == RESERVED
    && IsPowerOfTwo(f.header.bucketCount)
    && f.header.bucketCount == |f.buckets|
    && f.header.stringSectionOffset <= DATA_HEADER_PACKED_SIZE + BUCKET_PACKED_SIZE * |f.buckets| + |f.strings|
  }

  /** The string at `relative` is rejected as overlapping the preamble, or starts at or after `start`. */
  predicate StartsOutside(header: DataHeader, start: nat, relative: u32)
  {
    var a := AbsoluteOffset(header, relative);
    a < PREAMBLE_SIZE || start <= a
  }

  /** A full bucket's strings all start outside `[PREAMBLE_SIZE, start)`; an empty one resolves none. */
  predicate BucketStringsOutside(header: DataHeader, start: nat, b: Bucket)
  {
    b.keyOffset != 0 && b.prefixOffset != 0 && b.suffixOffset != 0 ==>
      && StartsOutside(header, start, b.keyOffset)
      && StartsOutside(header, start, b.prefixOffset)
      && StartsOutside(header, start, b.suffixOffset)
  }

  /** Where the bucket array ends and the bytes after it begin. */
  function BucketArrayEnd(f: LogicalFile): (end: nat)
  {
    DATA_HEADER_PACKED_SIZE + BUCKET_PACKED_SIZE * |f.buckets|
  }

  /** No string of a full bucket starts inside the bucket array past bucket 0. */
  predicate StringsOutsideBucketArray(f: LogicalFile)
  {
    forall i :: 0 <= i < |f.buckets| ==> BucketStringsOutside(f.header, BucketArrayEnd(f), f.buckets[i])
  }

  /** A window inside the middle part of `a + (b + c)` is the same window of `b`. */
  lemma WindowOfMiddle(a: seq<u8>, b: seq<u8>, c: seq<u8>, lo: nat, n: nat)
    requires lo + n <= |b|
    ensures (a + (b + c))[|a| + lo..|a| + lo + n] == b[lo..lo + n]
  {
    var whole := a + (b + c);
    var outer, inner := whole[|a| + lo..|a| + lo + n], b[lo..lo + n];
    forall j | 0 <= j < n ensures outer[j] == inner[j] {
      assert whole[|a| + lo + j] == b[lo + j];
    }
    assert outer == inner;
  }

  /** What follows the first two parts of `a + (b + c)` is `c`. */
  lemma RestAfterTwo(a: seq<u8>, b: seq<u8>, c: seq<u8>)
    ensures (a + (b + c))[|a| + |b|..] == c
  {
    var whole := a + (b + c);
    var rest := whole[|a| + |b|..];
    forall j | 0 <= j < |c| ensures rest[j] == c[j] {
      assert whole[|a| + |b| + j] == c[j];
    }
    assert rest == c;
  }

  /** In the whole file, the slot of bucket `i` holds the encoding of bucket `i`. */
  lemma EncodedFileSlot(f: LogicalFile, swap: bool, i: u32)
    requires i < |f.buckets|
    ensures BucketOffset(i) + BUCKET_PACKED_SIZE <= |EncodeFile(f, swap)|
    ensures var b := f.buckets[i];
      var base := BucketOffset(i);
      EncodeFile(f, swap)[base..base + BUCKET_PACKED_SIZE] == EncodeBucket(b.keyOffset, b.prefixOffset, b.suffixOffset, swap)
  {
    var slots := EncodedSlots(f.buckets, swap);
    ConcatAt(slots, i as nat);
    WindowOfMiddle(EncodeHeader(f.header, swap), Concat(slots), f.strings, BUCKET_PACKED_SIZE * i, BUCKET_PACKED_SIZE);
  }

  /** Past the bucket array, both encodings of a file hold the same bytes. */
  lemma EncodedFileTail(f: LogicalFile)
    ensures EncodeFile(f, false)[BucketArrayEnd(f)..] == f.strings
    ensures EncodeFile(f, true)[BucketArrayEnd(f)..] == f.strings
  {
    EncodedFileTailIn(f, false);
    EncodedFileTailIn(f, true);
  }

  lemma EncodedFileTailIn(f: LogicalFile, swap: bool)
    ensures EncodeFile(f, swap)[BucketArrayEnd(f)..] == f.strings
  {
    RestAfterTwo(EncodeHeader(f.header, swap), EncodeBuckets(f.buckets, swap), f.strings);
  }

  /**
   * A string is resolved from the bytes at and after its absolute position
   * only: two buffers of one length that agree from `start` on resolve any
   * string that is rejected as overlapping the preamble, or starts at or
   * after `start`, alike.
   */
  lemma StringSliceReadsOnlyFrom(bytes: seq<u8>, other: seq<u8>, start: nat, header: DataHeader, relative: u32)
    requires |bytes| == |other| && start <= |bytes|
    requires bytes[start..] == other[start..]
    requires var a := AbsoluteOffset(header, relative); a < PREAMBLE_SIZE || start <= a
    ensures GetStringSliceAtOffset(bytes, header, relative) == GetStringSliceAtOffset(other, header, relative)
  {
    var a := AbsoluteOffset(header, relative);
    if PREAMBLE_SIZE <= a <= |bytes| {
      var s, t := bytes[start..], other[start..];
      var bs, os := bytes[a..], other[a..];
      forall j | 0 <= j < |bs| ensures bs[j] == os[j] {
        assert bytes[a + j] == s[a - start + j];
        assert other[a + j] == t[a - start + j];
      }
      assert bs == os;
    }
  }

  /** The slot of bucket `i` decodes alike in both encodings: empty, or bucket `i` itself. */
  lemma SlotIndependent(f: LogicalFile, i: u32)
    requires i < |f.buckets|
    ensures var b := f.buckets[i];
      && DecodedBucket(EncodeFile(f, false), i, false) == DecodedBucket(EncodeFile(f, true), i, true)
      && DecodedBucket(EncodeFile(f, false), i, false) ==
           if b.keyOffset == 0 || b.prefixOffset == 0 || b.suffixOffset == 0 then Success(None) else Success(Some(b))
  {
    var b := f.buckets[i];
    EncodedFileSlot(f, false, i);
    EncodedFileSlot(f, true, i);
    ParseEncodedBucket(EncodeFile(f, false), i, b.keyOffset, b.prefixOffset, b.suffixOffset, false);
    ParseEncodedBucket(EncodeFile(f, true), i, b.keyOffset, b.prefixOffset, b.suffixOffset, true);
  }

  /** A bucket whose strings start outside `[PREAMBLE_SIZE, start)` resolves alike in two buffers that agree from `start` on. */
  lemma EntryReadsOnlyFrom(bytes: seq<u8>, other: seq<u8>, start: nat, header: DataHeader, b: Bucket)
    requires |bytes| == |other| && start <= |bytes|
    requires bytes[start..] == other[start..]
    requires StartsOutside(header, start, b.keyOffset)
    requires StartsOutside(header, start, b.prefixOffset)
    requires StartsOutside(header, start, b.suffixOffset)
    ensures ToEntry(b, bytes, header) == ToEntry(b, other, header)
  {
    StringSliceReadsOnlyFrom(bytes, other, start, header, b.keyOffset);
    StringSliceReadsOnlyFrom(bytes, other, start, header, b.prefixOffset);
    StringSliceReadsOnlyFrom(bytes, other, start, header, b.suffixOffset);
  }

  /**
   * Two buffers whose slot `i` decodes alike (the second read with swapping)
   * and that agree from `start` on give bucket `i` the same result, as long
   * as its strings start outside `[PREAMBLE_SIZE, start)`.
   */
  lemma SameBucketResult(bytes: seq<u8>, other: seq<u8>, start: nat, header: DataHeader, i: u32)
    requires |bytes| == |other| && start <= |bytes|
    requires bytes[start..] == other[start..]
    requires DecodedBucket(bytes, i, false) == DecodedBucket(other, i, true)
    requires var slot := DecodedBucket(bytes, i, false);
      slot.Success? && slot.value.Some? ==> BucketStringsOutside(header, start, slot.value.value)
    ensures EntryAtIndex(bytes, header, i, false) == EntryAtIndex(other, header, i, true)
  {
    var slot := DecodedBucket(bytes, i, false);
    if slot.Success? && slot.value.Some? {
      EntryReadsOnlyFrom(bytes, other, start, header, slot.value.value);
    }
  }

  /** Bucket `i` contributes the same in both encodings of a file that keeps its strings out of the bucket array. */
  lemma BucketResultIndependent(f: LogicalFile, i: u32)
    requires StringsOutsideBucketArray(f)
    requires i < |f.buckets|
    ensures EntryAtIndex(EncodeFile(f, false), f.header, i, false) == EntryAtIndex(EncodeFile(f, true), f.header, i, true)
  {
    SlotIndependent(f, i);
    EncodedFileTail(f);
    assert BucketStringsOutside(f.header, BucketArrayEnd(f), f.buckets[i]);
    SameBucketResult(EncodeFile(f, false), EncodeFile(f, true), BucketArrayEnd(f), f.header, i);
  }

  /** A valid file's header reads back in either byte order, with the order it was written in. */
  lemma EncodedFileHeader(f: LogicalFile, swap: bool)
    requires ValidLogicalFile(f)
    ensures DecodedHeader(EncodeFile(f, swap)) == Success(DataHeaderParseResult(f.header, swap))
  {
    assert f.header.(magic := MAGIC_NATIVE_ENDIAN) == f.header;
    ParseEncodedHeader(f.header, swap, EncodeBuckets(f.buckets, swap) + f.strings);
  }

  /** Every bucket contributes the same in both encodings of a file that keeps its strings out of the bucket array. */
  lemma BucketResultsIndependent(f: LogicalFile)
    requires StringsOutsideBucketArray(f)
    requires f.header.bucketCount == |f.buckets|
    ensures BucketResults(EncodeFile(f, false), DataHeaderParseResult(f.header, false)) ==
            BucketResults(EncodeFile(f, true), DataHeaderParseResult(f.header, true))
  {
    forall i: u32 | i < f.header.bucketCount
      ensures EntryAtIndex(EncodeFile(f, false), f.header, i, false) == EntryAtIndex(EncodeFile(f, true), f.header, i, true)
    {
      BucketResultIndependent(f, i);
    }
    SameBucketResults(EncodeFile(f, false), EncodeFile(f, true), f.header);
  }

  /** Buffers whose buckets all contribute alike (the second read with swapping) have the same bucket results. */
  lemma SameBucketResults(bytes: seq<u8>, other: seq<u8>, header: DataHeader)
    requires forall i: u32 :: i < header.bucketCount ==>
      EntryAtIndex(bytes, header, i, false) == EntryAtIndex(other, header, i, true)
    ensures BucketResults(bytes, DataHeaderParseResult(header, false)) == BucketResults(other, DataHeaderParseResult(header, true))
  {
    var hp, hpSwapped := DataHeaderParseResult(header, false), DataHeaderParseResult(header, true);
    var rs, rsSwapped := BucketResults(bytes, hp), BucketResults(other, hpSwapped);
    forall i | 0 <= i < |rs| ensures rs[i] == rsSwapped[i] {
      BucketResultAt(bytes, hp, i);
      BucketResultAt(other, hpSwapped, i);
    }
    assert rs == rsSwapped;
  }

  /**
   * Byte-order independence: a valid file whose strings stay out of the
   * bucket array past bucket 0 yields the same header map, or the same
   * error, whichever byte order it is written in.
   */
  lemma ByteOrderIndependent(f: LogicalFile, failOnBucketError: bool)
    requires ValidLogicalFile(f) && StringsOutsideBucketArray(f)
    ensures HeadermapResult(EncodeFile(f, false), failOnBucketError) == HeadermapResult(EncodeFile(f, true), failOnBucketError)
  {
    EncodedFileHeader(f, false);
    EncodedFileHeader(f, true);
    BucketResultsIndependent(f);
  }

  /**
   * A file whose bucket 0 points all three strings at position 36, the slot
   * of bucket 1, just past the guarded preamble; bucket 1 is empty, with
   * key offset 0x41.
   */
  function OverlappingFile(): (f: LogicalFile)
  {
    LogicalFile(DataHeader(MAGIC_NATIVE_ENDIAN, VERSION_1, RESERVED, 0, 0, 2, 0),
                [Bucket(36, 36, 36), Bucket(0x41, 0, 0)], [])
  }

  /**
   * Without the hypothesis the two orders can disagree. Written in the
   * host's order the slot of bucket 1 starts 41 00, which reads as "A";
   * written in the other order it starts 00, which reads as the empty
   * string.
   */
  lemma StringInBucketArrayDependsOnByteOrder(failOnBucketError: bool)
    ensures ValidLogicalFile(OverlappingFile())
    ensures !StringsOutsideBucketArray(OverlappingFile())
    ensures HeadermapResult(EncodeFile(OverlappingFile(), false), failOnBucketError) == Success([Entry([0x41], [0x41], [0x41])])
    ensures HeadermapResult(EncodeFile(OverlappingFile(), true), failOnBucketError) == Success([Entry([], [], [])])
  {
    var f := OverlappingFile();
    OverlappingFileIsValid();
    assert !BucketStringsOutside(f.header, BucketArrayEnd(f), f.buckets[0]);
    Readings(f, false, [0x41], failOnBucketError);
    Readings(f, true, [], failOnBucketError);
  }

  /** The overlapping file is one a reader accepts. */
  lemma OverlappingFileIsValid()
    ensures ValidLogicalFile(OverlappingFile())
  {
    Pow2IsPowerOfTwo(1);
  }

  /**
   * A file laid out like the overlapping one: string section at 0, two
   * buckets, the first pointing all three strings at position 36 and the
   * second empty with key offset 0x41.
   */
  predicate OverlappingLayout(f: LogicalFile)
  {
    && f.header.stringSectionOffset == 0
    && f.header.bucketCount == 2
    && f.buckets == [Bucket(36, 36, 36), Bucket(0x41, 0, 0)]
  }

  /**
   * Such a file read in one byte order: the slot of bucket 1 starts with the
   * string `s` and its terminator, so the map holds the one entry of bucket
   * 0, all three of its strings `s`.
   */
  lemma Readings(f: LogicalFile, swap: bool, s: seq<u8>, failOnBucketError: bool)
    requires ValidLogicalFile(f) && OverlappingLayout(f)
    requires s == (if swap then [] else [0x41])
    ensures HeadermapResult(EncodeFile(f, swap), failOnBucketError) == Success([Entry(s, s, s)])
  {
    EncodedFileHeader(f, swap);
    OverlappingResults(f, swap, s);
    OneEntryOfTwo(EncodeFile(f, swap), DataHeaderParseResult(f.header, swap), Entry(s, s, s), failOnBucketError);
  }

  /** A file of two buckets, the first resolving to `entry` and the second empty, maps to that one entry. */
  lemma OneEntryOfTwo(bytes: seq<u8>, hp: DataHeaderParseResult, entry: Entry, failOnBucketError: bool)
    requires DecodedHeader(bytes) == Success(hp)
    requires BucketResults(bytes, hp) == [Success(Some(entry)), Success(None)]
    ensures HeadermapResult(bytes, failOnBucketError) == Success([entry])
  {
    OneEntryOfTwoResults([Success(Some(entry)), Success(None)], entry);
  }

  lemma OneEntryOfTwoResults(rs: seq<BucketResult>, entry: Entry)
    requires rs == [Success(Some(entry)), Success(None)]
    ensures FirstFailingBucket(rs, 0, |rs|) == None
    ensures Entries(rs, 0, |rs|) == [entry]
  {
    assert Entries(rs, 0, 2) == [entry] + Entries(rs, 1, 2);
    assert Entries(rs, 1, 2) == Entries(rs, 2, 2);
  }

  /** What the two buckets of such a file contribute in one byte order. */
  lemma OverlappingResults(f: LogicalFile, swap: bool, s: seq<u8>)
    requires OverlappingLayout(f)
    requires s == (if swap then [] else [0x41])
    ensures BucketResults(EncodeFile(f, swap), DataHeaderParseResult(f.header, swap)) ==
      [Success(Some(Entry(s, s, s))), Success(None)]
  {
    OverlappingSlots(f, swap);
    OverlappingString(f, swap, s);
    ResultsOfTwo(EncodeFile(f, swap), DataHeaderParseResult(f.header, swap), s);
  }

  /** The two slots of such a file: bucket 0 full, bucket 1 empty. */
  lemma OverlappingSlots(f: LogicalFile, swap: bool)
    requires OverlappingLayout(f)
    ensures DecodedBucket(EncodeFile(f, swap), 0, swap) == Success(Some(Bucket(36, 36, 36)))
    ensures DecodedBucket(EncodeFile(f, swap), 1, swap) == Success(None)
  {
    EncodedFileSlot(f, swap, 0);
    EncodedFileSlot(f, swap, 1);
    ParseEncodedBucket(EncodeFile(f, swap), 0, 36, 36, 36, swap);
    ParseEncodedBucket(EncodeFile(f, swap), 1, 0x41, 0, 0, swap);
  }

  /**
   * Two buckets, the first full with all its strings at relative offset 36
   * and the second empty, contribute the first bucket's entry and nothing.
   */
  lemma ResultsOfTwo(bytes: seq<u8>, hp: DataHeaderParseResult, s: seq<u8>)
    requires hp.header.bucketCount == 2
    requires DecodedBucket(bytes, 0, hp.swapBytes) == Success(Some(Bucket(36, 36, 36)))
    requires DecodedBucket(bytes, 1, hp.swapBytes) == Success(None)
    requires GetStringSliceAtOffset(bytes, hp.header, 36) == Success(s)
    ensures BucketResults(bytes, hp) == [Success(Some(Entry(s, s, s))), Success(None)]
  {
    BucketResultAt(bytes, hp, 0);
    BucketResultAt(bytes, hp, 1);
  }

  /** The string at position 36 of such a file in one byte order. */
  lemma OverlappingString(f: LogicalFile, swap: bool, s: seq<u8>)
    requires OverlappingLayout(f)
    requires s == (if swap then [] else [0x41])
    ensures GetStringSliceAtOffset(EncodeFile(f, swap), f.header, 36) == Success(s)
  {
    EncodedFileSlot(f, swap, 1);
    StringInSlotOne(EncodeFile(f, swap), f.header, swap, s);
  }

  /** The string read at position 36 when bucket 1's slot holds key offset 0x41 and two zeros. */
  lemma StringInSlotOne(bytes: seq<u8>, header: DataHeader, swap: bool, s: seq<u8>)
    requires header.stringSectionOffset == 0
    requires 48 <= |bytes| && bytes[36..48] == EncodeBucket(0x41, 0, 0, swap)
    requires s == (if swap then [] else [0x41])
    ensures GetStringSliceAtOffset(bytes, header, 36) == Success(s)
  {
    SlotStart(swap);
    var slot := EncodeBucket(0x41, 0, 0, swap);
    assert bytes[36] == slot[0] && bytes[37] == slot[1];
    AsciiIsValidUtf8([0x41]);
    StringAtPreambleEnd(bytes, header, s);
  }

  /** A string at absolute position 36: its bytes, then a NUL. */
  lemma StringAtPreambleEnd(bytes: seq<u8>, header: DataHeader, s: seq<u8>)
    requires header.stringSectionOffset == 0
    requires s == [] || s == [0x41]
    requires 38 <= |bytes| && bytes[36 + |s|] == 0 && (s == [0x41] ==> bytes[36] == 0x41)
    requires ValidUtf8(s)
    ensures GetStringSliceAtOffset(bytes, header, 36) == Success(s)
  {
    assert s == bytes[36..36 + |s|];
    StringSliceSucceedsIff(bytes, header, 36, |s|);
  }

  /** The first two bytes of bucket 1's slot in each byte order. */
  lemma SlotStart(swap: bool)
    ensures var slot := EncodeBucket(0x41, 0, 0, swap);
      if swap then slot[0] == 0 else slot[0] == 0x41 && slot[1] == 0
  {
    var slot := EncodeBucket(0x41, 0, 0, swap);
    var key := EncodeField(U32, 0x41, swap);
    assert slot[0] == key[0] && slot[1] == key[1];
    NeBytesOfU32(SwapBytesIf(U32, 0x41, swap));
  }
}
