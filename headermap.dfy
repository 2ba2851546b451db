/**
 * Enumeration of a header map's entries (`headermap_enumerate_entries`)
 * and the collecting parser built on it (`parse_headermap`).
 */
module Headermap {
  import opened Wrappers
  import opened Types
  import opened Header
  import opened Buckets

  datatype Error = HeaderError(header: DataHeaderError) | BucketError(bucket: BucketParseError)

  /**
   * The enumerator callback. A closure that may keep state of its own is
   * modelled as a function of everything it has been shown so far and of
   * the entry offered now; it answers whether to continue.
   */
  type Visitor = (seq<Entry>, Entry) -> bool

  /** The callback `parse_headermap` passes: store the entry and go on. */
  const AlwaysContinue: Visitor := (visited, entry) => true

  /** A callback that asks to stop after the first entry. */
  const StopAtFirst: Visitor := (visited, entry) => false

  /** What one bucket contributes: an error, nothing (an empty slot), or an entry. */
  type BucketResult = Result<Option<Entry>, BucketParseError>

  /** The result of every bucket of a file whose header parsed, by index. */
  function BucketResults(bytes: seq<u8>, hp: DataHeaderParseResult): (rs: seq<BucketResult>)
    ensures |rs| == hp.header.bucketCount
  {
    seq(hp.header.bucketCount, i requires 0 <= i < hp.header.bucketCount => EntryAtIndex(bytes, hp.header, i, hp.swapBytes))
  }

  lemma BucketResultAt(bytes: seq<u8>, hp: DataHeaderParseResult, i: nat)
    requires i < hp.header.bucketCount
    ensures BucketResults(bytes, hp)[i] == EntryAtIndex(bytes, hp.header, i, hp.swapBytes)
  {
  }

  /** Every entry that a bucket yields is well formed. */
  predicate EntriesWellFormed(rs: seq<BucketResult>)
  {
    forall i :: 0 <= i < |rs| && rs[i].Success? && rs[i].value.Some? ==> WellFormedEntry(rs[i].value.value)
  }

  lemma BucketResultsWellFormed(bytes: seq<u8>, hp: DataHeaderParseResult)
    ensures EntriesWellFormed(BucketResults(bytes, hp))
  {
    var rs := BucketResults(bytes, hp);
    forall i | 0 <= i < |rs| && rs[i].Success? && rs[i].value.Some?
      ensures WellFormedEntry(rs[i].value.value)
    {
      BucketResultAt(bytes, hp, i);
    }
  }

  /**
   * A run of the enumeration from bucket `i` on, with `visited` the entries
   * already handed to the visitor: its outcome and every entry handed over
   * by the end, in order.
   */
  function EnumerateFrom(rs: seq<BucketResult>, failOnBucketError: bool, visitor: Visitor,
                         i: nat, visited: seq<Entry>): (Outcome<Error>, seq<Entry>)
    requires i <= |rs|
    decreases |rs| - i
  {
    if i == |rs| then (Pass, visited)
    else
      match rs[i]
      case Success(None) =>
        EnumerateFrom(rs, failOnBucketError, visitor, i + 1, visited)
      case Success(Some(entry)) =>
        if visitor(visited, entry) then EnumerateFrom(rs, failOnBucketError, visitor, i + 1, visited + [entry])
        else (Pass, visited + [entry])
      case Failure(e) =>
        if failOnBucketError then (Fail(BucketError(e)), visited)
        else EnumerateFrom(rs, failOnBucketError, visitor, i + 1, visited)
  }

  /** A whole run: a header error ends it before any bucket is looked at. */
  function Enumeration(bytes: seq<u8>, failOnBucketError: bool, visitor: Visitor): (Outcome<Error>, seq<Entry>)
  {
    match DecodedHeader(bytes)
    case Failure(e) => (Fail(HeaderError(e)), [])
    case Success(hp) => EnumerateFrom(BucketResults(bytes, hp), failOnBucketError, visitor, 0, [])
  }

  /**
   * Reference definition: the entries of the buckets in `[lo, hi)` that are
   * not empty and resolve, in ascending bucket order.
   */
  function Entries(rs: seq<BucketResult>, lo: nat, hi: nat): (r: seq<Entry>)
    requires lo <= hi <= |rs|
    ensures |r| <= hi - lo
    decreases hi - lo
  {
    if lo == hi then []
    else
      match rs[lo]
      case Success(Some(entry)) => [entry] + Entries(rs, lo + 1, hi)
      case _ => Entries(rs, lo + 1, hi)
  }

  /** An entry is collected exactly when some bucket in the range yields it. */
  lemma {:induction false} EntriesMembership(rs: seq<BucketResult>, lo: nat, hi: nat, entry: Entry)
    requires lo <= hi <= |rs|
    ensures entry in Entries(rs, lo, hi) <==> exists j :: lo <= j < hi && rs[j] == Success(Some(entry))
    decreases hi - lo
  {
    if lo < hi {
      EntriesMembership(rs, lo + 1, hi, entry);
      if rs[lo] == Success(Some(entry)) {
        assert entry in Entries(rs, lo, hi);
      }
    }
  }

  /** Every collected entry is well formed. */
  lemma {:induction false} EntriesAreWellFormed(rs: seq<BucketResult>, lo: nat, hi: nat)
    requires lo <= hi <= |rs|
    requires EntriesWellFormed(rs)
    ensures forall k :: 0 <= k < |Entries(rs, lo, hi)| ==> WellFormedEntry(Entries(rs, lo, hi)[k])
    decreases hi - lo
  {
    if lo < hi {
      EntriesAreWellFormed(rs, lo + 1, hi);
    }
  }

  /**
   * The first bucket in `[lo, hi)` whose entry cannot be produced, if any;
   * every bucket before it yields an entry or is empty.
   */
  function FirstFailingBucket(rs: seq<BucketResult>, lo: nat, hi: nat): (r: Option<nat>)
    requires lo <= hi <= |rs|
    ensures r.Some? ==>
      && lo <= r.value < hi
      && rs[r.value].Failure?
      && forall j :: lo <= j < r.value ==> rs[j].Success?
    ensures r.None? ==> forall j :: lo <= j < hi ==> rs[j].Success?
    decreases hi - lo
  {
    if lo == hi then None
    else if rs[lo].Failure? then Some(lo)
    else FirstFailingBucket(rs, lo + 1, hi)
  }

  /**
   * What `parse_headermap` promises: the header's error, or, in strict mode,
   * the error of the first failing bucket, or else all entries of the
   * non-empty buckets that resolve, in ascending bucket order.
   */
  function HeadermapResult(bytes: seq<u8>, failOnBucketError: bool): (r: Result<seq<Entry>, Error>)
  {
    match DecodedHeader(bytes)
    case Failure(e) => Failure(HeaderError(e))
    case Success(hp) =>
      var rs := BucketResults(bytes, hp);
      var first := FirstFailingBucket(rs, 0, |rs|);
      if failOnBucketError && first.Some? then Failure(BucketError(rs[first.value].error))
      else Success(Entries(rs, 0, |rs|))
  }

  /**
   * Whatever the visitor does, the entries it is shown are, in order, a
   * prefix of the entries of the buckets still ahead.
   */
  lemma {:induction false} VisitedIsPrefixOfEntries(rs: seq<BucketResult>, failOnBucketError: bool,
                                                    visitor: Visitor, i: nat, visited: seq<Entry>)
    requires i <= |rs|
    ensures var run := EnumerateFrom(rs, failOnBucketError, visitor, i, visited);
      visited <= run.1 && run.1[|visited|..] <= Entries(rs, i, |rs|)
    decreases |rs| - i
  {
    if i < |rs| {
      var run := EnumerateFrom(rs, failOnBucketError, visitor, i, visited);
      match rs[i]
      case Success(None) =>
        VisitedIsPrefixOfEntries(rs, failOnBucketError, visitor, i + 1, visited);
      case Success(Some(entry)) =>
        assert Entries(rs, i, |rs|) == [entry] + Entries(rs, i + 1, |rs|);
        if visitor(visited, entry) {
          VisitedIsPrefixOfEntries(rs, failOnBucketError, visitor, i + 1, visited + [entry]);
          assert run.1[|visited|..] == [entry] + run.1[|visited| + 1..];
        } else {
          assert run.1[|visited|..] == [entry];
        }
      case Failure(e) =>
        if !failOnBucketError {
          VisitedIsPrefixOfEntries(rs, failOnBucketError, visitor, i + 1, visited);
        }
    }
  }

  /**
   * With a visitor that always continues, the run from bucket `i` hands over
   * every entry up to the first failing bucket; it fails there in strict
   * mode, and otherwise collects every entry to the end.
   */
  lemma {:induction false} AlwaysContinueCollects(rs: seq<BucketResult>, failOnBucketError: bool, i: nat, visited: seq<Entry>)
    requires i <= |rs|
    ensures var first := FirstFailingBucket(rs, i, |rs|);
      EnumerateFrom(rs, failOnBucketError, AlwaysContinue, i, visited) ==
        if failOnBucketError && first.Some? then
          (Fail(BucketError(rs[first.value].error)), visited + Entries(rs, i, first.value))
        else (Pass, visited + Entries(rs, i, |rs|))
    decreases |rs| - i
  {
    if i < |rs| {
      var first := FirstFailingBucket(rs, i, |rs|);
      match rs[i]
      case Success(None) =>
        AlwaysContinueCollects(rs, failOnBucketError, i + 1, visited);
        assert FirstFailingBucket(rs, i, |rs|) == FirstFailingBucket(rs, i + 1, |rs|);
        if failOnBucketError && first.Some? {
          assert Entries(rs, i, first.value) == Entries(rs, i + 1, first.value);
        } else {
          assert Entries(rs, i, |rs|) == Entries(rs, i + 1, |rs|);
        }
      case Success(Some(entry)) =>
        AlwaysContinueCollects(rs, failOnBucketError, i + 1, visited + [entry]);
        assert AlwaysContinue(visited, entry);
        if failOnBucketError && first.Some? {
          assert visited + Entries(rs, i, first.value) == visited + [entry] + Entries(rs, i + 1, first.value);
        } else {
          assert visited + Entries(rs, i, |rs|) == visited + [entry] + Entries(rs, i + 1, |rs|);
        }
      case Failure(e) =>
        if failOnBucketError {
          assert visited + Entries(rs, i, i) == visited;
        } else {
          AlwaysContinueCollects(rs, failOnBucketError, i + 1, visited);
          assert Entries(rs, i, |rs|) == Entries(rs, i + 1, |rs|);
        }
    } else {
      assert visited + Entries(rs, i, i) == visited;
    }
  }

  /** The collecting run, read back as a result, is the reference description. */
  lemma CollectingRunMatchesEntries(rs: seq<BucketResult>, failOnBucketError: bool)
    ensures var run := EnumerateFrom(rs, failOnBucketError, AlwaysContinue, 0, []);
      var first := FirstFailingBucket(rs, 0, |rs|);
      (if run.0.Fail? then Failure(run.0.error) else Success(run.1)) ==
        if failOnBucketError && first.Some? then Failure(BucketError(rs[first.value].error))
        else Success(Entries(rs, 0, |rs|))
  {
    AlwaysContinueCollects(rs, failOnBucketError, 0, []);
    assert [] + Entries(rs, 0, |rs|) == Entries(rs, 0, |rs|);
  }

  /** In lenient mode a run fails only on a header error, whatever the visitor does. */
  lemma {:induction false} LenientRunPasses(rs: seq<BucketResult>, visitor: Visitor, i: nat, visited: seq<Entry>)
    requires i <= |rs|
    ensures EnumerateFrom(rs, false, visitor, i, visited).0 == Pass
    decreases |rs| - i
  {
    if i < |rs| {
      match rs[i]
      case Success(Some(entry)) =>
        LenientRunPasses(rs, visitor, i + 1, visited + [entry]);
      case _ =>
        LenientRunPasses(rs, visitor, i + 1, visited);
    }
  }

  lemma LenientFailsOnlyOnHeader(bytes: seq<u8>, visitor: Visitor)
    ensures Enumeration(bytes, false, visitor).0 == Pass <==> DecodedHeader(bytes).Success?
  {
    if DecodedHeader(bytes).Success? {
      LenientRunPasses(BucketResults(bytes, DecodedHeader(bytes).value), visitor, 0, []);
    }
  }

  /**
   * The entries handed to the visitor by the time a run from bucket `i`
   * arrives at bucket `k`, or `None` when it ends before.
   */
  function RunTo(rs: seq<BucketResult>, failOnBucketError: bool, visitor: Visitor,
                 i: nat, visited: seq<Entry>, k: nat): Option<seq<Entry>>
    requires i <= k <= |rs|
    decreases k - i
  {
    if i == k then Some(visited)
    else
      match rs[i]
      case Success(None) =>
        RunTo(rs, failOnBucketError, visitor, i + 1, visited, k)
      case Success(Some(entry)) =>
        if visitor(visited, entry) then RunTo(rs, failOnBucketError, visitor, i + 1, visited + [entry], k)
        else None
      case Failure(e) =>
        if failOnBucketError then None
        else RunTo(rs, failOnBucketError, visitor, i + 1, visited, k)
  }

  /** Where a run arrives at bucket `k` depends on the buckets before `k` only. */
  lemma {:induction false} RunToReadsOnlyEarlierBuckets(rs: seq<BucketResult>, other: seq<BucketResult>,
                                                        failOnBucketError: bool, visitor: Visitor,
                                                        i: nat, visited: seq<Entry>, k: nat)
    requires i <= k <= |rs| && k <= |other|
    requires forall j :: i <= j < k ==> rs[j] == other[j]
    ensures RunTo(rs, failOnBucketError, visitor, i, visited, k) == RunTo(other, failOnBucketError, visitor, i, visited, k)
    decreases k - i
  {
    if i < k {
      assert rs[i] == other[i];
      match rs[i]
      case Success(Some(entry)) =>
        RunToReadsOnlyEarlierBuckets(rs, other, failOnBucketError, visitor, i + 1, visited + [entry], k);
      case _ =>
        RunToReadsOnlyEarlierBuckets(rs, other, failOnBucketError, visitor, i + 1, visited, k);
    }
  }

  /** A run that arrives at bucket `k` goes on from there as a run started at `k`. */
  lemma {:induction false} RunToThenFrom(rs: seq<BucketResult>, failOnBucketError: bool, visitor: Visitor,
                                         i: nat, visited: seq<Entry>, k: nat)
    requires i <= k <= |rs|
    requires RunTo(rs, failOnBucketError, visitor, i, visited, k).Some?
    ensures EnumerateFrom(rs, failOnBucketError, visitor, i, visited) ==
      EnumerateFrom(rs, failOnBucketError, visitor, k, RunTo(rs, failOnBucketError, visitor, i, visited, k).value)
    decreases k - i
  {
    if i < k {
      match rs[i]
      case Success(Some(entry)) =>
        RunToThenFrom(rs, failOnBucketError, visitor, i + 1, visited + [entry], k);
      case _ =>
        RunToThenFrom(rs, failOnBucketError, visitor, i + 1, visited, k);
    }
  }

  /**
   * Whatever the visitor: when the run arrives at bucket `k`, bucket `k`
   * resolves and the visitor declines its entry, the run ends there with
   * success and that entry last. The buckets after `k` are not looked at:
   * the result does not depend on them, and by
   * `RunToReadsOnlyEarlierBuckets` neither do the premises.
   */
  lemma VisitorStopEndsRun(rs: seq<BucketResult>, failOnBucketError: bool, visitor: Visitor,
                           i: nat, visited: seq<Entry>, k: nat, entry: Entry)
    requires i <= k < |rs|
    requires RunTo(rs, failOnBucketError, visitor, i, visited, k).Some?
    requires rs[k] == Success(Some(entry))
    requires !visitor(RunTo(rs, failOnBucketError, visitor, i, visited, k).value, entry)
    ensures EnumerateFrom(rs, failOnBucketError, visitor, i, visited) ==
      (Pass, RunTo(rs, failOnBucketError, visitor, i, visited, k).value + [entry])
  {
    RunToThenFrom(rs, failOnBucketError, visitor, i, visited, k);
  }

  /**
   * A visitor that stops at once is shown the first entry only: when every
   * bucket before bucket `k` is empty (or, in lenient mode, fails) and
   * bucket `k` resolves, the run ends
   * there with success, and the buckets after `k` are never looked at, so
   * nothing in them can make it fail.
   */
  lemma {:induction false} StopAtFirstFrom(rs: seq<BucketResult>, failOnBucketError: bool, i: nat, k: nat, entry: Entry)
    requires i <= k < |rs|
    requires forall j :: i <= j < k ==> rs[j] == Success(None) || (!failOnBucketError && rs[j].Failure?)
    requires rs[k] == Success(Some(entry))
    ensures EnumerateFrom(rs, failOnBucketError, StopAtFirst, i, []) == (Pass, [entry])
    decreases k - i
  {
    if i < k {
      StopAtFirstFrom(rs, failOnBucketError, i + 1, k, entry);
    } else {
      assert !StopAtFirst([], entry);
      assert [] + [entry] == [entry];
    }
  }

  lemma StopAtFirstEntry(bytes: seq<u8>, failOnBucketError: bool, k: nat, entry: Entry)
    requires DecodedHeader(bytes).Success?
    requires k < DecodedHeader(bytes).value.header.bucketCount
    requires var hp := DecodedHeader(bytes).value;
      forall j :: 0 <= j < k ==>
        var r := EntryAtIndex(bytes, hp.header, j, hp.swapBytes);
        r == Success(None) || (!failOnBucketError && r.Failure?)
    requires var hp := DecodedHeader(bytes).value;
      EntryAtIndex(bytes, hp.header, k, hp.swapBytes) == Success(Some(entry))
    ensures Enumeration(bytes, failOnBucketError, StopAtFirst) == (Pass, [entry])
  {
    var hp := DecodedHeader(bytes).value;
    var rs := BucketResults(bytes, hp);
    forall j | 0 <= j < k
      ensures rs[j] == Success(None) || (!failOnBucketError && rs[j].Failure?)
    {
      BucketResultAt(bytes, hp, j);
    }
    BucketResultAt(bytes, hp, k);
    StopAtFirstFrom(rs, failOnBucketError, 0, k, entry);
  }

  /**
   * A file whose header parses but whose bucket array is cut short fails in
   * strict mode, since its last bucket cannot be read, and still parses in
   * lenient mode.
   */
  lemma StrictRejectsTruncatedBucketArray(bytes: seq<u8>)
    requires DecodedHeader(bytes).Success?
    requires var bc := DecodedHeader(bytes).value.header.bucketCount;
      bc > 0 && |bytes| < BucketOffset(bc - 1) + BUCKET_PACKED_SIZE
    ensures HeadermapResult(bytes, true).Failure? && HeadermapResult(bytes, true).error.BucketError?
    ensures HeadermapResult(bytes, false).Success?
  {
    var hp := DecodedHeader(bytes).value;
    var rs := BucketResults(bytes, hp);
    var last := hp.header.bucketCount - 1;
    BucketResultAt(bytes, hp, last);
    assert rs[last] == Failure(OffsetParseError(last));
  }

  /**
   * `headermap_enumerate_entries`: parses the header, then visits its
   * buckets in order (`EnumerateBuckets`).
   */
  method EnumerateEntries(bytes: seq<u8>, failOnBucketError: bool, enumerator: Visitor)
    returns (r: Outcome<Error>, visited: seq<Entry>)
    ensures (r, visited) == Enumeration(bytes, failOnBucketError, enumerator)
    ensures DecodedHeader(bytes).Failure? ==> r == Fail(HeaderError(DecodedHeader(bytes).error)) && visited == []
    ensures r.Fail? && r.error.BucketError? ==> failOnBucketError
    ensures DecodedHeader(bytes).Success? ==>
      var rs := BucketResults(bytes, DecodedHeader(bytes).value);
      visited <= Entries(rs, 0, |rs|)
  {
    var parseResult := ParseHeader(bytes);
    if parseResult.Failure? {
      return Fail(HeaderError(parseResult.error)), [];
    }
    r, visited := EnumerateBuckets(bytes, parseResult.value, failOnBucketError, enumerator);
  }

  /**
   * The bucket loop of `headermap_enumerate_entries`: visits buckets 0 to
   * `bucket_count - 1` in order. Empty buckets are skipped; an entry is
   * handed to the visitor, which may stop the run; a bucket error ends the
   * run in strict mode and is dropped otherwise. `visited` is every entry
   * handed to the visitor, in order.
   */
  method EnumerateBuckets(bytes: seq<u8>, hp: DataHeaderParseResult, failOnBucketError: bool, enumerator: Visitor)
    returns (r: Outcome<Error>, visited: seq<Entry>)
    ensures (r, visited) == EnumerateFrom(BucketResults(bytes, hp), failOnBucketError, enumerator, 0, [])
    ensures r.Fail? ==> failOnBucketError && r.error.BucketError?
    ensures var rs := BucketResults(bytes, hp); visited <= Entries(rs, 0, |rs|)
  {
    ghost var rs := BucketResults(bytes, hp);
    VisitedIsPrefixOfEntries(rs, failOnBucketError, enumerator, 0, []);
    if !failOnBucketError {
      LenientRunPasses(rs, enumerator, 0, []);
    }
    visited := [];
    for bucketIndex := 0 to hp.header.bucketCount
      invariant EnumerateFrom(rs, failOnBucketError, enumerator, bucketIndex, visited)
             == EnumerateFrom(rs, failOnBucketError, enumerator, 0, [])
    {
      var entryResult := ParseEntryAtBucketIndex(bytes, hp.header, bucketIndex, hp.swapBytes);
      BucketResultAt(bytes, hp, bucketIndex);
      match entryResult
      case Success(maybeEntry) =>
        if maybeEntry.Some? {
          var entry := maybeEntry.value;
          var continueEnumerating := enumerator(visited, entry);
          visited := visited + [entry];
          if !continueEnumerating {
            break;
          }
        }
      case Failure(parseError) =>
        if failOnBucketError {
          return Fail(BucketError(parseError)), visited;
        }
    }
    r := Pass;
  }

  /**
   * Collecting every entry a run hands over, with a visitor that always
   * continues, gives exactly what `HeadermapResult` describes.
   */
  lemma CollectingRunIsHeadermap(bytes: seq<u8>, failOnBucketError: bool)
    ensures var run := Enumeration(bytes, failOnBucketError, AlwaysContinue);
      HeadermapResult(bytes, failOnBucketError) == if run.0.Fail? then Failure(run.0.error) else Success(run.1)
  {
    if DecodedHeader(bytes).Success? {
      CollectingRunMatchesEntries(BucketResults(bytes, DecodedHeader(bytes).value), failOnBucketError);
    }
  }

  /** Every entry `HeadermapResult` returns is well formed. */
  lemma HeadermapEntriesWellFormed(bytes: seq<u8>, failOnBucketError: bool)
    ensures HeadermapResult(bytes, failOnBucketError).Success? ==>
      forall k :: 0 <= k < |HeadermapResult(bytes, failOnBucketError).value| ==>
        WellFormedEntry(HeadermapResult(bytes, failOnBucketError).value[k])
  {
    if DecodedHeader(bytes).Success? {
      var rs := BucketResults(bytes, DecodedHeader(bytes).value);
      BucketResultsWellFormed(bytes, DecodedHeader(bytes).value);
      EntriesAreWellFormed(rs, 0, |rs|);
    }
  }

  /**
   * `parse_headermap`: enumerates with a visitor that stores every entry
   * and always continues, and returns what it stored.
   */
  method ParseHeadermap(bytes: seq<u8>, failOnBucketError: bool) returns (r: Result<seq<Entry>, Error>)
    ensures r == HeadermapResult(bytes, failOnBucketError)
    ensures r.Success? ==> forall k :: 0 <= k < |r.value| ==> WellFormedEntry(r.value[k])
    ensures !failOnBucketError ==> (r.Success? <==> DecodedHeader(bytes).Success?)
  {
    var outcome, accumulator := EnumerateEntries(bytes, failOnBucketError, AlwaysContinue);
    CollectingRunIsHeadermap(bytes, failOnBucketError);
    HeadermapEntriesWellFormed(bytes, failOnBucketError);
    LenientFailsOnlyOnHeader(bytes, AlwaysContinue);
    if outcome.Fail? {
      return Failure(outcome.error);
    }
    r := Success(accumulator);
  }
}
