/** One segment: a log file and its sparse index (internal/storage/segment.go). */
module Segments {
  import opened Bytes
  import opened Seqs
  import opened Files
  import opened Records
  import opened Streams
  import opened Indexes
  import opened SegmentModel
  import opened LogModel

  class Segment {
    const baseOffset: uint64
    const maxBytes: int
    const indexIntervalBytes: int
    var nextOffset: uint64
    var logFile: File
    var index: Index
    var currentSize: nat
    var lastIndexBytes: nat

    ghost var recs: seq<Record>
    ghost var tail: seq<byte>
    ghost var slots: seq<nat>

    ghost function View(): SegView
      reads this
    {
      SegView(baseOffset, nextOffset, recs)
    }

    ghost function Repr(): set<object>
      reads this
    {
      {this, logFile, index}
    }

    ghost predicate IndexValid()
      reads this, index
    {
      && index.Valid()
      && IndexOk(index.Entries(), slots, recs, nextOffset, indexIntervalBytes)
      && Paced(slots, recs, lastIndexBytes)
      && (NoDangling(slots, |recs|) || nextOffset == baseOffset + |recs|)
    }

    ghost predicate LogValid()
      reads this, logFile
    {
      && logFile.Valid()
      && LogOk(baseOffset, recs, tail, logFile.bytes)
      && currentSize == |EncodeAll(recs)|
      && baseOffset + |recs| <= nextOffset
    }

    ghost predicate Valid()
      reads this, logFile, index
    {
      LogValid() && IndexValid()
    }

    /** The state in which a plain write extends the file. */
    ghost predicate AtEnd()
      reads this, logFile
    {
      logFile.cursor == |logFile.bytes|
    }

    /** Offsets without gaps: the segment was never compacted. */
    ghost predicate Gapless()
      reads this
    {
      Contiguous(baseOffset, recs) && nextOffset == baseOffset + |recs|
    }

    /** `NewSegment` on a directory that holds `logBytes` and `indexBytes` for this base
        (both empty when the files do not exist yet).  The ghost arguments say what is
        in the files; recovery only sees the bytes. */
    constructor (base: uint64, logBytes: seq<byte>, indexBytes: seq<byte>, max: int, interval: int,
                 ghost stored: seq<Record>, ghost torn: seq<byte>, ghost anchors: seq<nat>)
      requires LogOk(base, stored, torn, logBytes)
      requires |indexBytes| % 16 == 0
      requires IndexOk(EntriesOf(indexBytes), anchors, stored, base + |stored|, interval)
      requires base + |stored| < TWO_64
      ensures Valid() && AtEnd() && fresh(logFile) && fresh(index)
      ensures View() == SegView(base, base + |stored|, stored)
      ensures tail == torn && slots == anchors
      ensures baseOffset == base && maxBytes == max && indexIntervalBytes == interval
      ensures logFile.bytes == logBytes && index.bytes == indexBytes
    {
      hide LogOk, EncodeAll, Pos, Anchored, Dense, EntriesOf;
      baseOffset, maxBytes, indexIntervalBytes := base, max, interval;
      nextOffset := base;
      logFile := new File(logBytes);
      index := new Index(indexBytes);
      currentSize, lastIndexBytes := 0, 0;
      recs, tail, slots := stored, torn, anchors;
      new;
      assert forall j :: 0 <= j < |anchors| ==> Anchored(index.Entries()[j], slots[j], recs, base + |stored|);
      SlotsInRange(index.Entries(), slots, recs, base + |stored|);
      RecoverState();
    }

    /** `recoverState`: one sequential scan that counts records and adds up their sizes. */
    method RecoverState()
      requires logFile.Valid() && LogOk(baseOffset, recs, tail, logFile.bytes)
      requires nextOffset == baseOffset && baseOffset + |recs| < TWO_64
      modifies this`nextOffset, this`currentSize, logFile
      ensures LogValid() && AtEnd() && logFile.bytes == old(logFile.bytes)
      ensures nextOffset == baseOffset + |recs|
    {
      hide LogOk, EncodeAll, Pos, Decode, Encode, Fits, AsInt64, U64;
      ghost var stored, torn, all := recs, tail, logFile.bytes;
      logFile.Seek(0);
      var size := 0;
      var lastOffset: int := -1;
      ghost var k := 0;
      StartOfLog(baseOffset, stored, torn, all);
      while true
        invariant logFile.Valid() && logFile.bytes == all
        invariant k <= |stored| && nextOffset == baseOffset + k && size == Pos(stored, k)
        invariant (lastOffset == -1) == (k == 0)
        invariant logFile.Rest() == EncodeAll(stored[k..]) + torn
        decreases |stored| - k
      {
        var out := ReadRecord(logFile);
        StepInLog(baseOffset, stored, torn, all, k);
        if out.Ended? {
          break;
        }
        NotMinusOne(nextOffset);
        lastOffset := AsInt64(nextOffset);
        nextOffset := nextOffset + 1;
        size := size + out.reported;
        k := k + 1;
      }
      PosEnd(stored);
      currentSize := size;
      if lastOffset == -1 {
        nextOffset := baseOffset;
      }
    }

    /** The sparse-index step of `Append`: an entry for the first record, then one
        whenever the interval has been written since the last. */
    method IndexAhead()
      requires Valid() && Gapless()
      modifies this`lastIndexBytes, this`slots, index
      ensures Valid() && index.Valid()
      ensures slots != [] && slots[|slots| - 1] <= |recs|
      ensures |EncodeAll(recs)| - Pos(recs, slots[|slots| - 1]) < Gap(indexIntervalBytes)
      ensures currentSize == 0 || currentSize - old(lastIndexBytes) >= indexIntervalBytes
              ==> index.Entries() == old(index.Entries()) + [Entry(nextOffset, currentSize)]
      ensures !(currentSize == 0 || currentSize - old(lastIndexBytes) >= indexIntervalBytes)
              ==> index.Entries() == old(index.Entries())
    {
      hide Pos, EncodeAll, Dense, EntriesOf, Anchored, Encode, Fits;
      SlotsInRange(index.Entries(), slots, recs, nextOffset);
      if currentSize == 0 || currentSize - lastIndexBytes >= indexIntervalBytes {
        IndexWritten(index.Entries(), slots, recs, nextOffset, indexIntervalBytes);
        index.WriteEntry(nextOffset, currentSize);
        slots := slots + [|recs|];
        lastIndexBytes := currentSize;
      } else {
        SizeZeroIff(recs);
        DenseNonEmpty(slots, recs, indexIntervalBytes);
        PosEnd(recs);
      }
    }

    /** `Append`.  On a file that ends on a record boundary the log grows by exactly the
        stamped record.  Behind a torn tail every scan finds the old records and then what
        the decoder makes of the torn bytes and the record together, and every index entry
        still points at one of the old records or at the torn bytes. */
    method Append(record: Record) returns (stored: Record)
      requires Valid() && Gapless() && AtEnd()
      requires Fits(record) && nextOffset + 1 < TWO_64
      requires currentSize + |Encode(record)| < TWO_63
      modifies this, logFile, index
      ensures logFile == old(logFile) && index == old(index)
      ensures stored == record.(offset := old(nextOffset))
      ensures logFile.bytes == old(logFile.bytes) + Encode(stored) && AtEnd()
      ensures nextOffset == old(nextOffset) + 1
      ensures currentSize == old(currentSize) + |Encode(stored)|
      ensures old(tail) == [] ==> Valid() && Gapless() && tail == [] && recs == old(recs) + [stored]
      ensures ScansAs(logFile.bytes, old(recs), old(tail) + Encode(stored))
      ensures index.Valid() && IndexMatches(index.Entries(), slots, old(recs), old(nextOffset))
    {
      hide Pos, EncodeAll, Dense, EntriesOf, Anchored, Encode, Fits, LogOk, ScansAs;
      stored := record.(offset := nextOffset);
      Restamped(record, nextOffset);
      var data := Marshal(stored);
      IndexAhead();
      BelowNext(baseOffset, recs);
      RecordWritten(index.Entries(), slots, recs, stored, nextOffset + 1, indexIntervalBytes);
      if tail == [] {
        LogGrows(baseOffset, recs, logFile.bytes, stored);
      }
      WrittenBehind(baseOffset, recs, tail, logFile.bytes, stored);
      logFile.Write(data);
      currentSize := currentSize + |data|;
      nextOffset := nextOffset + 1;
      recs := recs + [stored];
    }

    /** `Read`: an index lookup, a seek and a sequential scan to the end of the file. */
    method Read(startOffset: uint64) returns (records: seq<Record>)
      requires Valid()
      modifies logFile
      ensures Valid() && logFile.bytes == old(logFile.bytes)
      ensures records == if startOffset >= nextOffset then [] else From(recs, startOffset)
      ensures AtEnd() || logFile.cursor == old(logFile.cursor)
    {
      hide LogOk, EncodeAll, Pos, Decode, Encode, Fits, EntriesOf, Dense, Anchored, From, AllBelow, StartSlot, LookupIn;
      if startOffset >= nextOffset {
        return [];
      }
      IndexIsSorted(baseOffset, recs, tail, logFile.bytes, index.Entries(), slots, nextOffset);
      var pos := index.Lookup(startOffset);
      ghost var k := StartSlot(index.Entries(), slots, startOffset);
      ScanStart(baseOffset, recs, tail, logFile.bytes, index.Entries(), slots, nextOffset, startOffset);
      logFile.Seek(pos);
      records := [];
      while true
        invariant Valid() && logFile.bytes == old(logFile.bytes)
        invariant k <= |recs| && records == From(recs[..k], startOffset)
        invariant logFile.Rest() == EncodeAll(recs[k..]) + tail
        decreases |recs| - k
      {
        var out := ReadRecord(logFile);
        StepInLog(baseOffset, recs, tail, logFile.bytes, k);
        if out.Ended? {
          break;
        }
        FromStep(recs, k, startOffset);
        if out.rec.offset >= startOffset {
          records := records + [out.rec];
        }
        k := k + 1;
      }
      assert recs[..k] == recs;
    }

    /** The record at which a zero-copy read for `target` starts. */
    ghost function StartRecord(target: int): nat
      requires Valid()
      reads this, logFile, index
    {
      if target >= nextOffset then |recs| else StartSlot(index.Entries(), slots, target)
    }

    /** `ReadZeroCopy`: the bytes `SendFileToSocket` hands to the socket; the cursor does
        not move.  They start at a record which lies less than the index interval before
        the one asked for. */
    method ReadZeroCopy(startOffset: uint64, maxBytes: int) returns (sent: seq<byte>)
      requires Valid()
      ensures var start := StartRecord(startOffset);
              && start <= |recs|
              && sent == Cut(EncodeAll(recs[start..]), maxBytes)
              && (startOffset < baseOffset ==> start == 0)
              && (startOffset < nextOffset ==> AllBelow(recs[..start], startOffset))
              && (startOffset < nextOffset ==> StartsNear(recs, start, startOffset, indexIntervalBytes))
    {
      hide LogOk, EncodeAll, Pos, Decode, Encode, Fits, EntriesOf, Dense, Anchored, AllBelow, StartSlot, LookupIn,
           StartsNear;
      StartRecordFacts(startOffset);
      if startOffset >= nextOffset || maxBytes <= 0 {
        Unfold(recs[|recs|..]);
        return [];
      }
      IndexIsSorted(baseOffset, recs, tail, logFile.bytes, index.Entries(), slots, nextOffset);
      var startPos := index.Lookup(startOffset);
      ScanStart(baseOffset, recs, tail, logFile.bytes, index.Entries(), slots, nextOffset, startOffset);
      var availableBytes := currentSize - startPos;
      if availableBytes <= 0 {
        return [];
      }
      var transferLength := availableBytes;
      if maxBytes < availableBytes {
        transferLength := maxBytes;
      }
      sent := logFile.bytes[startPos..startPos + transferLength];
    }

    lemma StartRecordFacts(target: int)
      requires Valid()
      ensures var start := StartRecord(target);
              && start <= |recs|
              && (target < baseOffset ==> start == 0)
              && (target < nextOffset ==> AllBelow(recs[..start], target))
              && (target < nextOffset ==> StartsNear(recs, start, target, indexIntervalBytes))
    {
      hide LogOk, EncodeAll, Pos, EntriesOf, Dense, Anchored, AllBelow, StartSlot, LookupIn, StartsNear;
      if target < nextOffset {
        ScanStart(baseOffset, recs, tail, logFile.bytes, index.Entries(), slots, nextOffset, target);
        StartFacts(baseOffset, recs, tail, logFile.bytes, index.Entries(), slots, nextOffset,
                   indexIntervalBytes, target);
      }
    }

    /** `replaceContents`: rewrites the segment to hold exactly `records`, each with its
        own offset, through temporary files that are then reopened.  `nextOffset` stays. */
    method ReplaceContents(records: seq<Record>)
      requires Valid()
      requires AllFit(records) && Increasing(records) && AllFrom(records, baseOffset)
      requires |EncodeAll(records)| < TWO_63 && baseOffset + |records| <= nextOffset
      modifies this
      ensures Valid() && fresh(logFile) && fresh(index)
      ensures recs == records && tail == [] && nextOffset == old(nextOffset)
    {
      hide LogOk, IndexOk, Paced, EncodeAll, Encode, Fits, EntriesOf, Increasing, AllFrom, AllFit;
      var log, idx, size, last;
      ghost var anchors;
      log, idx, size, last, anchors := Rebuild(baseOffset, records, indexIntervalBytes, nextOffset);
      logFile := new File(log);
      index := new Index(idx);
      currentSize, lastIndexBytes := size, last;
      recs, tail, slots := records, [], anchors;
    }

    method IsFull() returns (full: bool)
      ensures full == (currentSize >= maxBytes)
    {
      full := currentSize >= maxBytes;
    }
  }

  lemma WrittenBehind(base: nat, recs: seq<Record>, tail: seq<byte>, bytes: seq<byte>, r: Record)
    requires LogOk(base, recs, tail, bytes)
    ensures ScansAs(bytes + Encode(r), recs, tail + Encode(r))
  {
    hide EncodeAll, Encode, Decode, Fits, ScansAs;
    ScansBehind(recs, tail + Encode(r));
    Assoc(EncodeAll(recs), tail, Encode(r));
  }

  lemma NotMinusOne(x: uint64)
    requires x + 1 < TWO_64
    ensures AsInt64(x) != -1
  {
  }

  lemma StartOfLog(base: nat, recs: seq<Record>, tail: seq<byte>, bytes: seq<byte>)
    requires LogOk(base, recs, tail, bytes)
    ensures bytes == EncodeAll(recs[0..]) + tail && Pos(recs, 0) == 0
  {
    hide Encode;
    assert recs[0..] == recs && recs[..0] == [];
  }

  /** What one `ReadRecord` finds at record `k` of a well-formed log. */
  lemma StepInLog(base: nat, recs: seq<Record>, tail: seq<byte>, bytes: seq<byte>, k: nat)
    requires LogOk(base, recs, tail, bytes) && k <= |recs|
    ensures var rest := EncodeAll(recs[k..]) + tail;
            var out := Decode(rest);
            if k < |recs| then
              && out == Got(recs[k], |Encode(recs[k])|, |Encode(recs[k])|)
              && rest[out.consumed..] == EncodeAll(recs[k + 1..]) + tail
              && Pos(recs, k + 1) == Pos(recs, k) + out.reported
            else out.Ended?
  {
    hide Encode, Fits, Decode, EncodeAll, Pos;
    if k < |recs| {
      DecodeHere(recs, tail, k);
      PosStep(recs, k);
    } else {
      Unfold(recs[k..]);
      assert EncodeAll(recs[k..]) + tail == tail;
    }
  }

  /** The first `n` bytes, or all of them; nothing for `n <= 0`. */
  function Cut(bs: seq<byte>, n: int): (cut: seq<byte>)
    ensures cut <= bs
    ensures n >= 0 ==> |cut| <= n
  {
    if n <= 0 then [] else if n < |bs| then bs[..n] else bs
  }

  /** Record `start` lies less than the index gap before every later record at or below
      `target`. */
  ghost predicate StartsNear(recs: seq<Record>, start: nat, target: int, interval: int)
    requires start <= |recs|
  {
    forall k :: start <= k < |recs| && recs[k].offset <= target ==>
      Pos(recs, k) - Pos(recs, start) < Gap(interval)
  }

  lemma StartFacts(base: nat, recs: seq<Record>, tail: seq<byte>, bytes: seq<byte>,
                   es: seq<Entry>, slots: seq<nat>, next: int, interval: int, target: int)
    requires LogOk(base, recs, tail, bytes) && IndexOk(es, slots, recs, next, interval) && base <= next
    requires StartSlot(es, slots, target) <= |recs|
    ensures target < base ==> StartSlot(es, slots, target) == 0
    ensures StartsNear(recs, StartSlot(es, slots, target), target, interval)
  {
    hide EncodeAll, Pos, Decode, Fits, Anchored, Dense, StartSlot;
    if target < base {
      LowTargetStartsAtZero(es, slots, recs, next, base, target);
    }
    var b := StartSlot(es, slots, target);
    forall k | b <= k < |recs| && recs[k].offset <= target
      ensures Pos(recs, k) - Pos(recs, b) < Gap(interval)
    {
      LookupNearBefore(es, slots, recs, next, interval, target, k);
    }
  }

  lemma SizeZeroIff(recs: seq<Record>)
    ensures |EncodeAll(recs)| == 0 <==> recs == []
  {
    hide Encode;
  }

  lemma BelowNext(base: nat, recs: seq<Record>)
    requires Contiguous(base, recs)
    ensures AllBelow(recs, base + |recs|)
  {
  }

  lemma IndexIsSorted(base: nat, recs: seq<Record>, tail: seq<byte>, bytes: seq<byte>,
                      es: seq<Entry>, slots: seq<nat>, next: int)
    requires LogOk(base, recs, tail, bytes) && IndexMatches(es, slots, recs, next)
    ensures Sorted(es)
  {
    hide EncodeAll, Decode, Fits, IndexMatches;
    EntriesSorted(es, slots, recs, next);
  }

  /** Where the scan of a read starts: on a record boundary, with nothing wanted before it. */
  lemma ScanStart(base: nat, recs: seq<Record>, tail: seq<byte>, bytes: seq<byte>,
                  es: seq<Entry>, slots: seq<nat>, next: int, target: int)
    requires LogOk(base, recs, tail, bytes) && IndexMatches(es, slots, recs, next)
    ensures var b := StartSlot(es, slots, target);
            var pos := LookupIn(es, target);
            && b <= |recs|
            && 0 <= pos <= |EncodeAll(recs)| <= |bytes|
            && bytes[pos..] == EncodeAll(recs[b..]) + tail
            && |EncodeAll(recs)| - pos == |EncodeAll(recs[b..])|
            && bytes[pos..|EncodeAll(recs)|] == EncodeAll(recs[b..])
            && AllBelow(recs[..b], target)
            && From(recs[..b], target) == []
  {
    hide EncodeAll, Decode, Fits, Anchored, StartSlot, LookupIn, AllBelow, From, Pos;
    LookupIsBoundary(es, slots, recs, next, target);
    var b := StartSlot(es, slots, target);
    DropAtRecord(recs, tail, b);
    FromBelow(recs[..b], target);
    SplitSizes(recs, b);
    Middle(EncodeAll(recs[..b]), EncodeAll(recs[b..]), tail, bytes);
  }

  lemma SplitSizes(recs: seq<Record>, b: nat)
    requires b <= |recs|
    ensures EncodeAll(recs) == EncodeAll(recs[..b]) + EncodeAll(recs[b..])
    ensures Pos(recs, b) == |EncodeAll(recs[..b])|
  {
    hide EncodeAll;
    EncodeSplit(recs, b);
  }

  lemma EmptyIndex(next: int, interval: int)
    ensures IndexOk(EntriesOf([]), [], [], next, interval)
    ensures |EncodeAll([])| == 0
  {
  }

  /** What the temporary files hold while a segment is being rewritten. */
  ghost predicate Rebuilt(base: nat, done: seq<Record>, anchors: seq<nat>, bytes: seq<byte>, es: seq<Entry>,
                          next: int, interval: int, size: int, last: int)
  {
    && LogOk(base, done, [], bytes)
    && size == |EncodeAll(done)|
    && IndexOk(es, anchors, done, next, interval)
    && NoDangling(anchors, |done|)
    && Paced(anchors, done, last)
  }

  /** The rewrite loop of `replaceContents`, from empty temporary files to their final
      contents. */
  method Rebuild(base: nat, records: seq<Record>, interval: int, ghost next: int)
    returns (log: seq<byte>, idx: seq<byte>, size: nat, last: nat, ghost anchors: seq<nat>)
    requires AllFit(records) && Increasing(records) && AllFrom(records, base)
    requires |EncodeAll(records)| < TWO_63
    ensures LogOk(base, records, [], log) && size == |EncodeAll(records)|
    ensures |idx| % 16 == 0 && IndexOk(EntriesOf(idx), anchors, records, next, interval)
    ensures NoDangling(anchors, |records|) && Paced(anchors, records, last)
  {
    hide Rebuilt, LogOk, IndexOk, Paced, EncodeAll, Encode, Fits, EntriesOf, Increasing, AllFrom, AllFit;
    var tmpLog := new File([]);
    var tmpIndex := new Index([]);
    size, last, anchors := 0, 0, [];
    RebuiltStart(base, next, interval);
    assert records[..0] == [];
    for i := 0 to |records|
      invariant tmpLog.Valid() && tmpLog.cursor == |tmpLog.bytes|
      invariant tmpIndex.Valid()
      invariant Rebuilt(base, records[..i], anchors, tmpLog.bytes, tmpIndex.Entries(), next, interval, size, last)
    {
      anchors := RebuildStep(base, records, i, anchors, tmpLog.bytes, tmpIndex.Entries(),
                             next, interval, size, last);
      var rec := records[i];
      var data := Marshal(rec);
      if i == 0 || size - last >= interval {
        tmpIndex.WriteEntry(rec.offset, size);
        last := size;
      }
      tmpLog.Write(data);
      size := size + |data|;
    }
    assert records[..|records|] == records;
    RebuiltDone(base, records, anchors, tmpLog.bytes, tmpIndex.Entries(), next, interval, size, last);
    log, idx := tmpLog.bytes, tmpIndex.bytes;
  }

  lemma RebuiltStart(base: nat, next: int, interval: int)
    ensures Rebuilt(base, [], [], [], EntriesOf([]), next, interval, 0, 0)
  {
    hide LogOk;
    EmptyLog(base);
    EmptyIndex(next, interval);
  }

  lemma RebuiltDone(base: nat, done: seq<Record>, anchors: seq<nat>, bytes: seq<byte>, es: seq<Entry>,
                    next: int, interval: int, size: int, last: int)
    requires Rebuilt(base, done, anchors, bytes, es, next, interval, size, last)
    ensures LogOk(base, done, [], bytes) && size == |EncodeAll(done)|
    ensures IndexOk(es, anchors, done, next, interval)
    ensures NoDangling(anchors, |done|) && Paced(anchors, done, last)
  {
    hide LogOk, IndexOk, Paced, EncodeAll;
  }

  /** One turn of the rewrite loop keeps the index cadence of `Append`. */
  lemma RebuildStep(base: nat, records: seq<Record>, i: nat, anchors: seq<nat>, bytes: seq<byte>, es: seq<Entry>,
                    next: int, interval: int, size: int, last: int) returns (anchors': seq<nat>)
    requires i < |records|
    requires AllFit(records) && Increasing(records) && AllFrom(records, base)
    requires |EncodeAll(records)| < TWO_63
    requires Rebuilt(base, records[..i], anchors, bytes, es, next, interval, size, last)
    ensures 0 <= size < TWO_63
    ensures var rec := records[i];
            var write := i == 0 || size - last >= interval;
            Rebuilt(base, records[..i + 1], anchors', bytes + Encode(rec),
                    if write then es + [Entry(rec.offset, size)] else es,
                    next, interval, size + |Encode(rec)|, if write then size else last)
  {
    hide LogOk, EncodeAll, Pos, Decode, Encode, Fits, Dense, Anchored, Increasing, AllFrom, AllFit;
    var done, rec := records[..i], records[i];
    RewriteStep(base, records, i);
    NextIrrelevant(es, anchors, done, next, rec.offset, interval);
    anchors' := anchors;
    var es' := es;
    if i == 0 || size - last >= interval {
      IndexWritten(es, anchors, done, rec.offset, interval);
      anchors', es' := anchors + [|done|], es + [Entry(rec.offset, size)];
    } else {
      DenseNonEmpty(anchors, done, interval);
      PosEnd(done);
    }
    RecordWritten(es', anchors', done, rec, next, interval);
    LogGrows(base, done, bytes, rec);
  }

  /** The facts about record `i` that the rewrite of `records` needs when it is added. */
  lemma RewriteStep(base: nat, records: seq<Record>, i: nat)
    requires i < |records|
    requires AllFit(records) && Increasing(records) && AllFrom(records, base)
    requires |EncodeAll(records)| < TWO_63
    ensures Fits(records[i]) && AllBelow(records[..i], records[i].offset) && base <= records[i].offset
    ensures |EncodeAll(records[..i])| + |Encode(records[i])| < TWO_63
    ensures records[..i + 1] == records[..i] + [records[i]]
  {
    hide Fits, Encode, EncodeAll;
    PosStep(records, i);
    PosMonotone(records, i + 1, |records|);
    PosEnd(records);
  }
}
