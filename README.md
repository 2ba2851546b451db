# cheadermap binary decoder, modelled in Dafny

This project models the read-only decoder that `cheadermap` uses for Clang
header maps, the `.hmap` files, format version 1. A header map is a hash
table stored in one byte buffer:

- A 24-byte header: magic, version, reserved, string-section offset,
  string count, bucket count and maximum value length.
- An array of 12-byte buckets. Each bucket holds three 32-bit offsets,
  relative to the string section, of a key, a prefix and a suffix.
- A string section of NUL-terminated UTF-8 strings.

The file may be written in either byte order. A magic value equal to the
byte-swapped constant makes every later field be byte-swapped after it is
read.

The model follows the source module by module:

| Dafny module | file | source |
|---|---|---|
| `Wrappers` | `wrappers.dfy` | `Option`, `Result` and a unit result `Outcome` |
| `Types` | `types.dfy` | `types.rs`, `entry.rs`: fixed-width integers as subset types, the reserved constants, `Entry` |
| `Utf8` | `utf8.dfy` | the UTF-8 check that `std::str::from_utf8` performs, stated as the grammar of section 4 of RFC 3629 |
| `Utility` | `utility.dfy` | `utility.rs`: `swap_bytes_if` and `decode_from_bytes` for `u16` and `u32` |
| `ByteDecoding` | `byte_decoder.dfy` | `byte_decoder.rs`: the `ByteDecoder` cursor as a class with a mutable `offset` |
| `Header` | `header.dfy` | `header.rs`: the magic constants, `DataHeader`, its errors and `parse_header` |
| `Buckets` | `bucket.dfy` | `bucket.rs`: bucket slots, string resolution and `parse_entry_at_bucket_index` |
| `Headermap` | `headermap.dfy` | `mod.rs`: `headermap_enumerate_entries` and `parse_headermap` |
| `ByteOrder` | `byte_order.dfy` | whole files written in either byte order, read back through `parse_headermap` |

Code that changes state step by step is written as methods. Most are
proved equal to a pure specification function:

- the decoder's `advance` (`ByteDecoder.Advance`) to `DecodeAt`;
- the cursor-driven `parse_header` (`ParseHeader`) to `DecodedHeader`;
- the cursor-driven `new_at_index` (`NewAtIndex`) to `DecodedBucket`;
- `parse_entry_at_bucket_index` (`ParseEntryAtBucketIndex`) to `EntryAtIndex`;
- `headermap_enumerate_entries` (`EnumerateEntries`) to `Enumeration`, and
  its bucket loop (`EnumerateBuckets`) to `EnumerateFrom`;
- `parse_headermap` (`ParseHeadermap`) to `HeadermapResult`.

`parse_string_section_offset` (`ParseStringSectionOffset`) and the
`advance().swap_bytes_if(swap)` idiom (`ReadField`) have no function of
their own: their contracts state the result directly in terms of the field
at the cursor. The properties are lemmas about the specification functions.

Modelling conventions:

- **Host byte order.** The host is taken to be little-endian, so a
  native reading (`from_ne_bytes`) is `FromNeBytes`, least significant byte
  first. `Utility.SwapBytesReversesBytes` states the byte swap as a
  reversal of the native bytes. On a big-endian host the general
  properties keep their form, with the roles of "native" and "swapped"
  exchanged. Three members pin down concrete byte readings and hold only on
  a little-endian host: `ByteDecoding.DecoderExamples`,
  `ByteOrder.SlotStart` and `ByteOrder.StringInBucketArrayDependsOnByteOrder`.
  On a big-endian host their two byte orders exchange: `[0xAB, 0xCD]` reads
  natively as `0xABCD`, and the overlapping file gives the "A" strings when
  written swapped and the empty strings when written natively.
- **Generic decoding.** The generic `advance::<T>()` and the
  `DecodablePrimitive` and `ByteSwappable` impls for `u16` and `u32` are
  one definition over `Primitive = U16 | U32`.
- **The enumerator callback.** The Rust callback is an `FnMut` closure. It is
  modelled as a total function `Visitor = (seq<Entry>, Entry) -> bool`: it
  receives every entry it has been shown so far and the new entry, and
  returns whether to continue. Any closure whose decision depends only on
  what it has been shown fits this shape. `EnumerateEntries` returns the
  entries it handed to the callback as a second out-parameter `visited`,
  which is the visible effect of the callback.
- **Byte-order independence.** `ByteOrder` writes one logical file (a
  header, its bucket slots and the bytes after them) in either byte order.
  The two files read back to the same header map, provided no string of a
  full bucket starts inside the bucket array past bucket 0. Without that
  condition the claim fails: the overlap check rejects only strings that
  start in the first 36 bytes, and the later bucket slots hold different
  bytes in the two orders. `ByteOrder.StringInBucketArrayDependsOnByteOrder`
  gives such a file.

## Model

Two definitions have no row of their own. Their lemmas speak for them:

- `Utility.SwapBytesIf` models `swap_bytes_if` (utility.rs:15-32). Its rows are `SwapBytesIfReverses` and `SwapBytesIfInvolution`.
- `Header.IsPowerOfTwo` models `u32::is_power_of_two` (header.rs:127). Its rows are `Pow2IsPowerOfTwo` and `PowerOfTwoIsPow2`.

| member | source | states |
|---|---|---|
| Utf8.AsciiIsValidUtf8 | cheadermap/src/binary/bucket.rs:73 | every all-ASCII byte string passes the UTF-8 check |
| Utility.NeBytesFromNeBytes | cheadermap/src/binary/utility.rs:47 | the native reading is injective: writing back the value read from `n` bytes gives the same `n` bytes |
| Utility.SwapBytesReversesBytes | cheadermap/src/binary/utility.rs:17-18 | `swap_bytes` of a `u16`/`u32` is the value whose native bytes are the original's in reverse order |
| Utility.SwapBytesIfReverses | cheadermap/src/binary/utility.rs:15-32 | `swap_bytes_if(x, false) == x`, and `swap_bytes_if(x, true)` has the byte-reversed representation of `x` |
| Utility.SwapBytesIfInvolution | cheadermap/src/binary/utility.rs:11-32 | applying `swap_bytes_if` twice with the same flag gives back `x` |
| Utility.DecodeFromBytes | cheadermap/src/binary/utility.rs:42-58 | a value exactly when at least `size_of::<T>()` bytes are given; it is the native reading of the first 2 or 4 bytes, with no swapping |
| Utility.DecodeIgnoresTrailingBytes | cheadermap/src/binary/utility.rs:44-46 | bytes after the first `size_of::<T>()` do not change the decoded value |
| ByteDecoding.DecodeAt | cheadermap/src/binary/byte_decoder.rs:11-20 | a value iff `offset + size <= len`, including an offset past the end and an empty buffer; it is the native reading of `bytes[offset..offset+size]` |
| ByteDecoding.ByteDecoder.constructor | cheadermap/src/binary/byte_decoder.rs:5-8 | a cursor over the given buffer at the given offset |
| ByteDecoding.ByteDecoder.Advance | cheadermap/src/binary/byte_decoder.rs:11-20 | returns `DecodeAt` at the old offset; the offset grows by exactly the size on success and is unchanged on failure; the buffer is a constant of the cursor, so it cannot change |
| ByteDecoding.FieldOfEncoded | cheadermap/src/binary/utility.rs:15-32 | a field written with a writer's byte order reads back, after `swap_bytes_if` with the same flag, as the value written |
| ByteDecoding.FieldOfWindow | cheadermap/src/binary/byte_decoder.rs:11-20 | a field read from the whole buffer equals the same field read from any window that contains it |
| ByteDecoding.FieldOfPrefix | cheadermap/src/binary/byte_decoder.rs:11-20 | bytes appended after a field do not change it |
| ByteDecoding.FieldAfter | cheadermap/src/binary/utility.rs:42-58 | a field appended to any buffer reads back, at the old length, as the value written |
| ByteDecoding.DecodeAtThenSwap | cheadermap/src/binary/header.rs:92-95 | an in-bounds `advance` followed by `swap_bytes_if` is the swapped-if-needed field at that position |
| ByteDecoding.ReadField | cheadermap/src/binary/header.rs:92-95 | the `advance().swap_bytes_if(swap)` idiom: present iff the field fits, then the swapped-if-needed field; the cursor moves past it only on success |
| Header.PackedSizeIsSumOfFields | cheadermap/src/binary/header.rs:26-35 | the packed header size 24 is the sum of the seven field sizes, and each field lies at the running sum of the sizes before it |
| Header.Pow2IsPowerOfTwo | cheadermap/src/binary/header.rs:127 | every `2^k` passes the power-of-two check |
| Header.PowerOfTwoIsPow2 | cheadermap/src/binary/header.rs:127 | only numbers `2^k` pass the check; 0 does not |
| Header.MagicValues | cheadermap/src/binary/header.rs:5-6 | the non-native magic is the byte swap of `0x686D6170`, which is `0x70616D68`, and the two magics differ |
| Header.ParseHeader | cheadermap/src/binary/header.rs:80-147 | the cursor-driven parse returns exactly `DecodedHeader(bytes)`, the field-by-field description |
| Header.ParseHeaderSucceedsIff | cheadermap/src/binary/header.rs:80-147 | the header parses iff all of the following hold: 24 bytes are present; the magic is one of the two; version is 1 and reserved is 0 after swapping; the string-section offset is at most the length (equal is accepted); the bucket count is a power of two, so 0 is rejected. On success the header has the native magic and the swapped-if-needed fields, and `swap_bytes` holds exactly when the magic was the swapped one |
| Header.MissingFieldIsFirstUnreadable | cheadermap/src/binary/header.rs:82-134 | fewer than 24 bytes always fails; a `Missing…` error names the first field that does not fit, so every earlier field is in the buffer |
| Header.HeaderValueErrors | cheadermap/src/binary/header.rs:82-129 | each of `UnknownMagic`, `UnsupportedVersion`, `UnsupportedReserved`, `StringSectionOffsetOutOfBounds` and `BucketCountNotPowerOfTwo` is reported iff every earlier field was read and accepted, this field was read and this check fails. Its payload is the field as read, swapped when the magic is the swapped one |
| Header.TruncatedHeaderErrors | cheadermap/src/binary/header.rs:108-134 | a well-formed header cut to fewer than 24 bytes reports a `Missing…` error, except when the string-section offset was read and lies past the cut. The offset is checked against the length before the string count is read, so that case reports `StringSectionOffsetOutOfBounds` with the offset |
| Header.EncodedHeaderFields | cheadermap/src/binary/header.rs:82-134 | each field of a header written in either byte order reads back as written |
| Header.ParseEncodedHeader | cheadermap/src/binary/header.rs:80-147 | round trip: a valid header written in either byte order parses back to itself, with the native magic and the writer's byte order as the swap flag |
| Buckets.PackedSizes | cheadermap/src/binary/bucket.rs:39-43 | a bucket is three 4-byte offsets (12 bytes), and the preamble, the header plus one bucket, is 36 bytes |
| Buckets.AbsoluteOffset | cheadermap/src/binary/bucket.rs:51-52 | the string position is below `2^32`; it is the plain sum of the string-section offset and the relative offset when that sum fits in 32 bits, and the sum minus `2^32` when it does not |
| Buckets.NulPosition | cheadermap/src/binary/bucket.rs:66 | `position(\|&x\| x == 0)`: the index of the first NUL, no NUL before it, and none at all when it is absent |
| Buckets.GetStringSliceAtOffset | cheadermap/src/binary/bucket.rs:46-79 | a success is `bytes[a..a+n]`, where `a >= 36`, `bytes[a+n]` is NUL, no NUL occurs before it, and the slice is valid UTF-8. An error always carries `a` and is one of four kinds: overlap iff `a < 36`; out of bounds iff `a > len`; no terminator iff no NUL occurs at or after `a`, which includes `a == len`; otherwise invalid UTF-8. `InternalError` never occurs |
| Buckets.StringSliceSucceedsIff | cheadermap/src/binary/bucket.rs:46-79 | given the string's terminator at `a+n`: an overlap error when `a < 36`, otherwise exactly `bytes[a..a+n]` when that is valid UTF-8, and the UTF-8 error when it is not |
| Buckets.ParseStringSectionOffset | cheadermap/src/binary/bucket.rs:98-113 | reads one offset; a missing offset is `OffsetParseError(bucket_index)` and the cursor stays put; the reserved value 0 means an empty slot; otherwise it is the swapped-if-needed offset |
| Buckets.TryNew | cheadermap/src/binary/bucket.rs:117-130 | a bucket iff all three offsets are present, holding them in the order key, prefix, suffix |
| Buckets.DecodedBucket | cheadermap/src/binary/bucket.rs:134-153 | bucket `i` is read from byte `24 + 12*i`. An error (`OffsetParseError(i)`) iff its 12 bytes are not all in the buffer, even when an earlier offset was 0. Otherwise the slot is empty iff some swapped offset is 0, and holds the three offsets when none is |
| Buckets.NewAtIndex | cheadermap/src/binary/bucket.rs:134-153 | the cursor-driven reading returns exactly `DecodedBucket` |
| Buckets.SlotFields | cheadermap/src/binary/bucket.rs:139-146 | the key, prefix and suffix offsets of bucket `i` are the fields at 0, 4 and 8 of its 12-byte slot |
| Buckets.DecodedBucketReadsOnlyItsSlot | cheadermap/src/binary/bucket.rs:139-146 | decoding bucket `i` depends on nothing but its own 12 bytes |
| Buckets.EncodedSlotFields | cheadermap/src/binary/bucket.rs:141-146 | a slot written in either byte order reads back, field by field, as the three offsets written |
| Buckets.ParseEncodedBucket | cheadermap/src/binary/bucket.rs:134-153 | round trip: a slot written in either byte order decodes to its three offsets, or to an empty slot when one of them is 0 |
| Buckets.ToEntry | cheadermap/src/binary/bucket.rs:155-166 | resolves key, then prefix, then suffix. It gives an entry of the three strings iff all three resolve, and otherwise the error of the first that fails. Every entry is valid UTF-8 with no NUL inside |
| Buckets.EntryAtIndex | cheadermap/src/binary/bucket.rs:81-93 | nothing iff the slot is empty, in which case no string is resolved; `OffsetParseError(i)` iff the slot is cut short; for a full slot, success iff `ToEntry` of its bucket succeeds, with that entry, and otherwise `ToEntry`'s error; every entry is well formed |
| Buckets.ParseEntryAtBucketIndex | cheadermap/src/binary/bucket.rs:83-93 | the method returns exactly `EntryAtIndex` |
| Headermap.EntriesMembership | cheadermap/src/binary/mod.rs:36-45 | an entry is among the collected entries iff some bucket in the range yields it; empty and failing buckets contribute nothing |
| Headermap.EntriesAreWellFormed | cheadermap/src/binary/mod.rs:63-70 | every collected entry is valid UTF-8 with no NUL inside |
| Headermap.FirstFailingBucket | cheadermap/src/binary/mod.rs:47-50 | the first bucket whose entry cannot be produced, with every earlier bucket succeeding; when there is none, every bucket succeeds |
| Headermap.VisitedIsPrefixOfEntries | cheadermap/src/binary/mod.rs:28-45 | whatever the callback does and in either mode, the entries it is shown are, in order, a prefix of the entries of the buckets in ascending order |
| Headermap.AlwaysContinueCollects | cheadermap/src/binary/mod.rs:28-55 | with a callback that always continues, the run hands over every entry up to the first failing bucket and fails there in strict mode; in lenient mode it hands over every entry |
| Headermap.CollectingRunMatchesEntries | cheadermap/src/binary/mod.rs:63-70 | the collecting run, read back as a result, is the strict-mode first bucket error or else all entries in bucket order |
| Headermap.LenientRunPasses | cheadermap/src/binary/mod.rs:47-55 | in lenient mode a run over the buckets never fails, whatever the callback does |
| Headermap.LenientFailsOnlyOnHeader | cheadermap/src/binary/mod.rs:26-55 | in lenient mode the enumeration succeeds iff the header parses |
| Headermap.RunToReadsOnlyEarlierBuckets | cheadermap/src/binary/mod.rs:28-45 | where a run stands on arriving at bucket `k` (or whether it ended before) depends only on the buckets before `k` |
| Headermap.RunToThenFrom | cheadermap/src/binary/mod.rs:28-45 | a run that arrives at bucket `k` with entries `v` shown continues exactly as a run started at `k` with `v` |
| Headermap.VisitorStopEndsRun | cheadermap/src/binary/mod.rs:37-44 | for any callback: if the run arrives at bucket `k`, bucket `k` yields an entry and the callback declines it, the run ends there with success and that entry last shown; later buckets, corrupt or not, are never looked at |
| Headermap.StopAtFirstFrom | cheadermap/src/binary/mod.rs:41-44 | with a callback that stops at once, when every bucket before `k` is empty (or, in lenient mode, fails) and bucket `k` yields an entry, the run ends at `k` with success and that one entry shown, whatever follows `k` |
| Headermap.StopAtFirstEntry | cheadermap/src/binary/mod.rs:41-44 | on a file, a stop-after-first callback is called exactly once, on the first entry; earlier buckets may be empty, or failing in lenient mode. The result is success in either mode, even if later buckets are corrupt |
| Headermap.StrictRejectsTruncatedBucketArray | cheadermap/src/binary/mod.rs:47-50 | a file whose header parses but whose bucket array is cut short is rejected in strict mode with a bucket error, and still parses in lenient mode |
| Headermap.EnumerateEntries | cheadermap/src/binary/mod.rs:18-56 | the outcome and callback trace are exactly `Enumeration`. A header error is returned unchanged with the callback never called; a bucket error is returned only in strict mode; the callback is shown a prefix of the entries in bucket order |
| Headermap.EnumerateBuckets | cheadermap/src/binary/mod.rs:28-55 | the bucket loop's outcome and callback trace are exactly `EnumerateFrom` from bucket 0; it fails only in strict mode and only with a bucket error; the callback is shown a prefix of the entries in bucket order |
| Headermap.CollectingRunIsHeadermap | cheadermap/src/binary/mod.rs:63-70 | enumerating with a storing, always-continue callback gives exactly `HeadermapResult`: the header error, or in strict mode the first bucket error, or else all entries in ascending bucket order |
| Headermap.HeadermapEntriesWellFormed | cheadermap/src/binary/mod.rs:63-70 | every entry `parse_headermap` returns is well formed |
| Headermap.ParseHeadermap | cheadermap/src/binary/mod.rs:63-70 | returns exactly `HeadermapResult(bytes, fail_on_bucket_error)`; all returned entries are well formed; in lenient mode it succeeds iff the header parses |
| ByteOrder.EncodedFileSlot | cheadermap/src/binary/bucket.rs:139 | in a whole file, bucket `i`'s slot starts at `24 + 12*i` and holds bucket `i`'s encoding |
| ByteOrder.EncodedFileHeader | cheadermap/src/binary/header.rs:80-91 | a valid file's header reads back in either byte order, and the swap flag is the order it was written in |
| ByteOrder.StringSliceReadsOnlyFrom | cheadermap/src/binary/bucket.rs:46-79 | a string is resolved from the bytes at and after its absolute position only: buffers of one length that agree from `start` on resolve alike any string that starts inside the first 36 bytes or at or after `start` |
| ByteOrder.EntryReadsOnlyFrom | cheadermap/src/binary/bucket.rs:156-166 | a bucket whose three strings each start inside the first 36 bytes or at or after `start` resolves to the same entry, or the same error, in two buffers of one length that agree from `start` on |
| ByteOrder.SlotIndependent | cheadermap/src/binary/bucket.rs:134-153 | a bucket slot decodes alike in both byte orders, to an empty slot or to the bucket written |
| ByteOrder.SameBucketResult | cheadermap/src/binary/bucket.rs:81-93 | two buffers whose slot `i` decodes alike and that agree from `start` on give bucket `i` the same result, when its strings start outside `[36, start)` |
| ByteOrder.BucketResultIndependent | cheadermap/src/binary/bucket.rs:81-93 | every bucket of a file that keeps its strings out of the bucket array contributes the same in both byte orders |
| ByteOrder.SameBucketResults | cheadermap/src/binary/mod.rs:28-35 | buffers whose buckets each contribute alike have the same sequence of bucket results |
| ByteOrder.ByteOrderIndependent | cheadermap/src/binary/mod.rs:63-70 | a valid file whose strings all start before 36 or past the bucket array gives the same `parse_headermap` result, entries or error, in either byte order, in either mode |
| ByteOrder.StringInBucketArrayDependsOnByteOrder | cheadermap/src/binary/bucket.rs:53-55 | without that condition the orders disagree: a valid two-bucket file whose strings start at 36, inside bucket 1's slot, maps to one entry with strings "A" in the host's order and with empty strings in the other |

## Left out

- `print_headermap` is left out. It reads a file, sorts by key and writes lines, so it is I/O.
- `json.rs` (JSON output) and the `chmap` command line are left out. They do I/O and are not part of the decoder.
- The `anyhow` error wrapping and the message texts of the errors are left out. Errors are returned as the plain error datatypes.
- The `Utf8Error` payload of `InvalidUtf8String` is left out. Only the absolute position is kept.
- Host byte order is fixed as little-endian. A big-endian host reads every field with the roles of "native" and "swapped" exchanged. The general properties keep their form there, but the three concrete readings named above (`ByteDecoding.DecoderExamples`, `ByteOrder.SlotStart`, `ByteOrder.StringInBucketArrayDependsOnByteOrder`) hold with the two orders exchanged.
- Strings are copied, not borrowed. Entries hold `seq<u8>` copies of the buffer, not `&str` slices. `Buckets.GetStringSliceAtOffset` states that each copy equals the bytes it would borrow.
- Buckets.AbsoluteOffset: models the string-section sum with 32-bit wrap-around, as in a release build. A debug build would panic on overflow instead.
- Headermap.EnumerateEntries: the callback is a function of the entries shown so far and the current entry. A closure reading outside state it does not receive this way is not captured.
- A zero bucket count is rejected with `BucketCountNotPowerOfTwo(0)`, because `is_power_of_two(0)` is false; the model does the same.
- Buckets.BucketOffset: `usize` is taken to be 64 bits wide, so `24 + 12*i` never overflows for a `u32` index. On a 32-bit target the computation in bucket.rs:139 would overflow (wrap, or panic in a debug build) for indices from 357913940 up; that is not modelled.
