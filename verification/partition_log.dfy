/** A partition: an ordered list of segments, the last one active
    (internal/storage/partition_log.go).  Each method is one atomic step. */
module PartitionLogs {
  import opened Bytes
  import opened Seqs
  import opened Records
  import opened Streams
  import opened Indexes
  import opened SegmentModel
  import opened LogModel
  import opened Segments
  import opened Compaction
  import opened LogOps
  import opened Fetch
  import opened Recovery

  const TWO_62: int := 0x4000_0000_0000_0000

  ghost function ViewsOf(segs: seq<Segment>): (v: seq<SegView>)
    reads segs
    ensures |v| == |segs|
    ensures forall i :: 0 <= i < |segs| ==> v[i] == segs[i].View()
  {
    seq(|segs|, i requires 0 <= i < |segs| reads segs => segs[i].View())
  }

  /** Everything the segments consist of lies in `repr`, and no two segments share a
      file or an index. */
  ghost predicate Separate(segs: seq<Segment>, repr: set<object>)
    reads repr
  {
    && (forall i :: 0 <= i < |segs| ==> segs[i] in repr)
    && (forall i :: 0 <= i < |segs| ==> segs[i].logFile in repr && segs[i].index in repr)
    && (forall i, j :: 0 <= i < j < |segs| ==>
         && segs[i] != segs[j]
         && segs[i].logFile != segs[j].logFile
         && segs[i].index != segs[j].index)
  }

  ghost predicate Sound(segs: seq<Segment>, repr: set<object>, maxBytes: int, interval: int)
    reads repr
  {
    && Separate(segs, repr)
    && forall i :: 0 <= i < |segs| ==>
         segs[i].Valid() && segs[i].maxBytes == maxBytes && segs[i].indexIntervalBytes == interval
  }

  lemma SoundExtends(segs: seq<Segment>, seg: Segment, repr: set<object>, maxBytes: int, interval: int)
    requires Sound(segs, repr, maxBytes, interval)
    requires seg.Valid() && seg.maxBytes == maxBytes && seg.indexIntervalBytes == interval
    requires seg !in repr && seg.logFile !in repr && seg.index !in repr
    ensures Sound(segs + [seg], repr + {seg, seg.logFile, seg.index}, maxBytes, interval)
  {
    hide Segment.Valid;
  }

  /** What the partition knows about its active segment before an append. */
  lemma ActiveRoom(v: seq<SegView>, x: SegView, maxBytes: int, r: Record)
    requires LogWF(v) && x == Last(v) && 0 < maxBytes <= TWO_62
    requires |EncodeAll(x.recs)| < maxBytes && Fits(r) && LEO(v) < TWO_64
    ensures Contiguous(x.base, x.recs) && x.next == x.base + |x.recs|
    ensures |EncodeAll(x.recs)| + |Encode(r)| < TWO_63
    ensures var y := SegView(x.base, x.next + 1, x.recs + [r.(offset := x.next)]);
            Appended(v, maxBytes, r) == v[|v| - 1 := y]
    ensures LogWF(Appended(v, maxBytes, r))
  {
    hide EncodeAll, SegOk, Before;
    AppendKeepsWF(v, maxBytes, r);
  }

  lemma ReadAllStep(v: seq<SegView>, i: nat, s: int)
    requires i <= |v|
    ensures ReadAll(v[i..], s) == if i == |v| then [] else SegRead(v[i], s) + ReadAll(v[i + 1..], s)
  {
    hide SegRead;
    if i < |v| {
      assert v[i..][1..] == v[i + 1..];
    }
  }

  lemma SoundSuffix(segs: seq<Segment>, repr: set<object>, maxBytes: int, interval: int)
    requires Sound(segs, repr, maxBytes, interval) && segs != []
    ensures Sound(segs[1..], repr, maxBytes, interval)
  {
    hide Segment.Valid;
  }

  lemma NothingLatest(v: seq<SegView>)
    ensures Latest(Flatten(v[..0])) == map[]
  {
  }

  lemma LatestAppend(recs: seq<Record>, r: Record)
    ensures Latest(recs + [r]) == if Keyed(r) then Latest(recs)[KeyOf(r) := r.offset] else Latest(recs)
  {
    assert (recs + [r])[..|recs|] == recs;
  }

  /** The inner loop of the scan: later records of a key overwrite earlier ones. */
  method AddLatest(latest: map<Key, nat>, records: seq<Record>, ghost before: seq<Record>)
    returns (updated: map<Key, nat>)
    requires latest == Latest(before)
    ensures updated == Latest(before + records)
  {
    hide Latest;
    updated := latest;
    assert before + records[..0] == before;
    for j := 0 to |records|
      invariant updated == Latest(before + records[..j])
    {
      var rec := records[j];
      LatestAppend(before + records[..j], rec);
      assert before + records[..j + 1] == before + records[..j] + [rec];
      if rec.key.Some? && |rec.key.value| > 0 {
        updated := updated[rec.key.value := rec.offset];
      }
    }
    assert records[..|records|] == records;
  }

  lemma KeptStep(records: seq<Record>, j: nat, latest: map<Key, nat>)
    requires j < |records|
    ensures Kept(records[..j + 1], latest) ==
            Kept(records[..j], latest) + (if Keep(records[j], latest) then [records[j]] else [])
  {
    assert records[..j + 1][..j] == records[..j];
  }

  /** The filter loop of `CompactLogSegments`. */
  method FilterRecords(records: seq<Record>, latest: map<Key, nat>) returns (compacted: seq<Record>)
    ensures compacted == Kept(records, latest)
  {
    hide Kept;
    compacted := [];
    UnfoldKept(latest);
    assert records[..0] == [];
    for j := 0 to |records|
      invariant compacted == Kept(records[..j], latest)
    {
      var rec := records[j];
      KeptStep(records, j, latest);
      if rec.key.None? || |rec.key.value| == 0 {
        compacted := compacted + [rec];
        continue;
      }
      if rec.key.value in latest && latest[rec.key.value] == rec.offset {
        if rec.value.Some? && |rec.value.value| > 0 {
          compacted := compacted + [rec];
        }
      }
    }
    assert records[..|records|] == records;
  }

  /** `CompactLogSegments`: keeps the survivors and rewrites the files only when a record
      was removed. */
  method CompactLogSegments(seg: Segment, latest: map<Key, nat>) returns (kept: nat)
    requires seg.Valid()
    modifies seg, seg.logFile
    ensures seg.Valid() && seg.recs == Kept(old(seg.recs), latest) && kept == |seg.recs|
    ensures forall r :: r in seg.recs <==>
              r in old(seg.recs) &&
              (KeyOf(r) == [] || (KeyOf(r) in latest && latest[KeyOf(r)] == r.offset && ValueOf(r) != []))
    ensures seg.nextOffset == old(seg.nextOffset)
    ensures seg.currentSize == |EncodeAll(seg.recs)|
    ensures (seg.logFile == old(seg.logFile) || fresh(seg.logFile)) && (seg.index == old(seg.index) || fresh(seg.index))
  {
    hide Kept, EncodeAll, Segment.Valid, LogOk, From, IndexOk;
    SegmentContents(seg);
    KeptMembers(seg.recs, latest);
    var records := seg.Read(seg.baseOffset);
    FromAbove(seg.recs, seg.baseOffset);
    UnfoldKept(latest);
    if |records| == 0 {
      assert seg.recs == [];
      return 0;
    }
    var compacted := FilterRecords(records, latest);
    KeptLength(records, latest);
    kept := |compacted|;
    if |compacted| == |records| {
      return;
    }
    CompactSegOk(seg.View(), latest);
    KeptSize(records, latest);
    seg.ReplaceContents(compacted);
    SegmentContents(seg);
  }

  lemma SegmentContents(seg: Segment)
    requires seg.Valid()
    ensures SegOk(seg.View()) && seg.currentSize == |EncodeAll(seg.recs)| < TWO_63
  {
    hide EncodeAll, IndexOk, Fits, Decode;
  }

  /** Compacting one segment of a list leaves the others alone. */
  method RewriteSegment(segs: seq<Segment>, i: nat, latest: map<Key, nat>, ghost repr: set<object>,
                        ghost maxBytes: int, ghost interval: int)
    returns (ghost repr': set<object>)
    requires i < |segs| && Sound(segs, repr, maxBytes, interval)
    modifies segs[i], segs[i].logFile
    ensures Sound(segs, repr', maxBytes, interval) && repr <= repr' && fresh(repr' - repr)
    ensures ViewsOf(segs) == old(ViewsOf(segs))[i := CompactSeg(old(ViewsOf(segs))[i], latest)]
    ensures segs[i].currentSize == |EncodeAll(segs[i].recs)|
  {
    hide Segment.Valid, Kept, EncodeAll;
    var _ := CompactLogSegments(segs[i], latest);
    repr' := repr + {segs[i].logFile, segs[i].index};
    assert ViewsOf(segs) == old(ViewsOf(segs))[i := CompactSeg(old(ViewsOf(segs))[i], latest)];
  }

  lemma NoneLost(v: seq<SegView>, latest: map<Key, nat>)
    ensures Losers(v, 0, latest) == 0
  {
  }

  /** One turn of the compaction loop, in terms of the values. */
  lemma OneMoreLost(v: seq<SegView>, k: nat, latest: map<Key, nat>)
    requires k < |v|
    ensures var before, after := CompactFirst(v, k, latest), CompactFirst(v, k + 1, latest);
            && before[k] == v[k]
            && after == before[k := CompactSeg(before[k], latest)]
            && Losers(v, k + 1, latest) ==
               Losers(v, k, latest) + (if |EncodeAll(after[k].recs)| != |EncodeAll(before[k].recs)| then 1 else 0)
  {
    hide EncodeAll, Kept;
    CompactFirstStep(v, k, latest);
    KeptSize(v[k].recs, latest);
  }

  // ---------------------------------------------------------------- restart

  predicate Ascends(bases: seq<uint64>)
  {
    forall i, j :: 0 <= i < j < |bases| ==> bases[i] < bases[j]
  }

  /** `v` and `stored` describe the files of the directory, oldest first. */
  ghost predicate DirectoryOk(dir: Directory, v: seq<SegView>, stored: seq<Stored>, interval: int)
  {
    && v != [] && |stored| == |v|
    && (forall i :: 0 <= i < |v| ==> SegmentOnDisk(dir, v[i], stored[i], interval))
    && (dir.Keys == {} ==> |v| == 1 && v[0].base == 0)
    && (dir.Keys != {} ==> forall i :: 0 <= i < |v| ==> v[i].base in dir)
    && (forall b :: b in dir ==> exists i :: 0 <= i < |v| && v[i].base == b)
  }

  ghost predicate SegmentOnDisk(dir: Directory, x: SegView, w: Stored, interval: int)
  {
    && x.base < TWO_64
    && x == SegView(x.base, x.base + |w.recs|, w.recs)
    && DiskOk(x.base, if x.base in dir then dir[x.base] else NO_FILES, w, interval)
  }

  predicate IsLeast(m: uint64, bases: set<uint64>)
  {
    m in bases && forall x :: x in bases ==> m <= x
  }

  lemma {:induction false} LeastOf(bases: set<uint64>) returns (m: uint64)
    requires bases != {}
    ensures IsLeast(m, bases)
  {
    m :| m in bases;
    var rest := bases - {m};
    assert forall x :: x in bases ==> x == m || x in rest;
    if rest != {} {
      var n := LeastOf(rest);
      if n < m {
        m := n;
      }
    }
  }

  /** Stands for the library call `sort.Slice` on the base offsets found. */
  method SortBases(bases: set<uint64>) returns (sorted: seq<uint64>)
    ensures Ascends(sorted)
    ensures forall b :: b in sorted <==> b in bases
  {
    sorted := [];
    var rest := bases;
    while rest != {}
      invariant Ascends(sorted) && rest <= bases
      invariant forall i :: 0 <= i < |sorted| ==> sorted[i] in bases && forall b :: b in rest ==> sorted[i] < b
      invariant forall b :: b in bases ==> b in rest || b in sorted
      decreases |rest|
    {
      ghost var least := LeastOf(rest);
      var m :| IsLeast(m, rest);
      SortStep(sorted, rest, bases, m);
      sorted, rest := sorted + [m], rest - {m};
    }
  }

  lemma SortStep(sorted: seq<uint64>, rest: set<uint64>, bases: set<uint64>, m: uint64)
    requires IsLeast(m, rest)
    requires forall b :: b in bases ==> b in rest || b in sorted
    ensures forall b :: b in bases ==> b in rest - {m} || b in sorted + [m]
  {
  }

  lemma TailMembers(a: seq<uint64>, x: uint64)
    requires a != [] && Ascends(a)
    ensures x in a[1..] <==> x in a && x != a[0]
  {
    assert a == [a[0]] + a[1..];
  }

  /** Two ascending sequences with the same elements are equal. */
  lemma {:induction false} AscendingUnique(a: seq<uint64>, b: seq<uint64>)
    requires Ascends(a) && Ascends(b) && forall x :: x in a <==> x in b
    ensures a == b
  {
    assert a != [] ==> a[0] in b;
    assert b != [] ==> b[0] in a;
    if a != [] && b != [] {
      assert a[0] == b[0];
      forall x
        ensures x in a[1..] <==> x in b[1..]
      {
        TailMembers(a, x);
        TailMembers(b, x);
      }
      AscendingUnique(a[1..], b[1..]);
    }
  }

  /** The sorted base offsets are those of the segments described. */
  lemma BasesAreViews(dir: Directory, bases: seq<uint64>, v: seq<SegView>, stored: seq<Stored>, interval: int)
    requires DirectoryOk(dir, v, stored, interval) && LogWF(v) && Ascends(bases)
    requires if dir.Keys == {} then bases == [0] else forall b :: b in bases <==> b in dir
    ensures |bases| == |v| && forall i :: 0 <= i < |v| ==> bases[i] == v[i].base
  {
    hide DiskOk, AllOk, ActiveOk;
    if dir.Keys != {} {
      assert forall i :: 0 <= i < |v| ==> SegmentOnDisk(dir, v[i], stored[i], interval);
      var want: seq<uint64> := seq(|v|, i requires 0 <= i < |v| => v[i].base);
      forall i, j | 0 <= i < j < |want|
        ensures want[i] < want[j]
      {
        assert Before(v[i], v[j]);
      }
      forall x
        ensures x in bases <==> x in want
      {
        if x in want {
          var i :| 0 <= i < |v| && v[i].base == x;
          assert v[i].base in dir;
        }
        if x in bases {
          var i :| 0 <= i < |v| && v[i].base == x;
          assert want[i] == x;
        }
      }
      AscendingUnique(bases, want);
    }
  }

  /** One segment of the directory, recovered from its files. */
  method LoadSegment(dir: Directory, base: uint64, maxBytes: int, interval: int, ghost x: SegView, ghost w: Stored)
    returns (seg: Segment)
    requires SegmentOnDisk(dir, x, w, interval) && x.base == base
    ensures fresh(seg) && fresh(seg.logFile) && fresh(seg.index) && seg.Valid() && seg.AtEnd()
    ensures seg.View() == x && seg.tail == w.tail && seg.maxBytes == maxBytes && seg.indexIntervalBytes == interval
  {
    hide LogOk, IndexOk, Segment.Valid, EntriesOf;
    var files := if base in dir then dir[base] else NO_FILES;
    seg := new Segment(base, files.log, files.index, maxBytes, interval, w.recs, w.tail, w.slots);
  }

  /** The loop of `loadSegments`: one recovered segment per base offset. */
  method LoadSegments(dir: Directory, bases: seq<uint64>, maxBytes: int, interval: int,
                      ghost v: seq<SegView>, ghost stored: seq<Stored>)
    returns (segs: seq<Segment>, ghost repr: set<object>)
    requires DirectoryOk(dir, v, stored, interval)
    requires |bases| == |v| && forall i :: 0 <= i < |v| ==> bases[i] == v[i].base
    ensures fresh(repr) && Sound(segs, repr, maxBytes, interval) && ViewsOf(segs) == v
    ensures segs[|v| - 1].AtEnd() && segs[|v| - 1].tail == stored[|v| - 1].tail
  {
    hide SegmentOnDisk, Sound, Segment.Valid;
    segs, repr := [], {};
    NothingLoaded(maxBytes, interval);
    for i := 0 to |bases|
      invariant fresh(repr) && Sound(segs, repr, maxBytes, interval)
      invariant |segs| == i && ViewsOf(segs) == v[..i]
      invariant i > 0 ==> segs[i - 1].AtEnd() && segs[i - 1].tail == stored[i - 1].tail
    {
      var seg := LoadSegment(dir, bases[i], maxBytes, interval, v[i], stored[i]);
      SoundExtends(segs, seg, repr, maxBytes, interval);
      segs, repr := segs + [seg], repr + {seg, seg.logFile, seg.index};
    }
    assert v[..|v|] == v;
  }

  lemma NothingLoaded(maxBytes: int, interval: int)
    ensures Sound([], {}, maxBytes, interval)
  {
  }

  /** What a closed or cleanly closed segment leaves on disk. */
  lemma LeftOnDisk(seg: Segment)
    requires seg.Valid()
    ensures DiskOk(seg.baseOffset, DiskFile(seg.logFile.bytes, seg.index.bytes),
                   Stored(seg.recs, seg.tail, seg.slots), seg.indexIntervalBytes)
  {
    hide LogOk, IndexOk, EntriesOf;
    if NoDangling(seg.slots, |seg.recs|) {
      NextIrrelevant(seg.index.Entries(), seg.slots, seg.recs, seg.nextOffset,
                     seg.baseOffset + |seg.recs|, seg.indexIntervalBytes);
    }
  }

  /** What a crash in the middle of an append leaves on disk: possibly the index entry of
      the record, and any part of its bytes short of all of them. */
  function AfterCrash(f: DiskFile, torn: seq<byte>, entry: Option<Entry>): DiskFile
  {
    DiskFile(f.log + torn,
             if entry.Some? then f.index + EncodeEntry(entry.value.offset, entry.value.position) else f.index)
  }

  lemma CrashLeavesOnDisk(seg: Segment, torn: seq<byte>, entryWritten: bool)
    requires seg.Valid() && seg.Gapless() && seg.tail == [] && Decode(torn).Ended?
    ensures seg.currentSize < TWO_63
    ensures var entry := if entryWritten then Some(Entry(seg.nextOffset, seg.currentSize)) else None;
            var anchors := if entryWritten then seg.slots + [|seg.recs|] else seg.slots;
            DiskOk(seg.baseOffset, AfterCrash(DiskFile(seg.logFile.bytes, seg.index.bytes), torn, entry),
                   Stored(seg.recs, torn, anchors), seg.indexIntervalBytes)
  {
    hide IndexOk, EntriesOf, EncodeAll, Decode, Fits, EncodeEntry, EntryAt;
    assert EncodeAll(seg.recs) + [] == EncodeAll(seg.recs);
    BelowNext(seg.baseOffset, seg.recs);
    if entryWritten {
      EntriesGrow(seg.index.bytes, seg.nextOffset, seg.currentSize);
      IndexWritten(seg.index.Entries(), seg.slots, seg.recs, seg.nextOffset, seg.indexIntervalBytes);
    }
  }

  class PartitionLog {
    var segments: seq<Segment>
    var activeSegment: Segment
    const maxSegmentBytes: int
    const indexIntervalBytes: int
    ghost var Repr: set<object>

    ghost function Views(): seq<SegView>
      reads this, segments
    {
      ViewsOf(segments)
    }

    ghost predicate Valid()
      reads this, Repr
    {
      && segments != []
      && activeSegment == segments[|segments| - 1]
      && this !in Repr
      && 0 < maxSegmentBytes <= TWO_62
      && Sound(segments, Repr, maxSegmentBytes, indexIntervalBytes)
      && LogWF(Views())
      && activeSegment.AtEnd()
    }

    /** `roll`: a new active segment that starts where the old one ends.  Nothing in the
        directory carries that base yet, so its files are created empty. */
    method Roll()
      requires Valid() && activeSegment.recs != []
      modifies this
      ensures Valid() && activeSegment.tail == [] && fresh(Repr - old(Repr))
      ensures Views() == old(Views()) + [SegView(LEO(old(Views())), LEO(old(Views())), [])]
    {
      hide LogOk, IndexOk, EncodeAll, LogWF, Sound, Segment.Valid;
      assert Last(Views()).recs == activeSegment.recs;
      RollKeepsWF(Views());
      var base := activeSegment.nextOffset;
      EmptyLog(base);
      EmptyIndex(base, indexIntervalBytes);
      var seg := new Segment(base, [], [], maxSegmentBytes, indexIntervalBytes, [], [], []);
      SoundExtends(segments, seg, Repr, maxSegmentBytes, indexIntervalBytes);
      segments := segments + [seg];
      activeSegment := seg;
      Repr := Repr + {seg, seg.logFile, seg.index};
      assert Views() == old(Views()) + [SegView(LEO(old(Views())), LEO(old(Views())), [])];
    }

    /** Where the next record would go is a record boundary: the active file has no torn
        tail, or is about to be closed anyway. */
    ghost predicate Appendable()
      requires Valid()
      reads this, Repr
    {
      activeSegment.tail == [] || activeSegment.currentSize >= maxSegmentBytes
    }

    lemma ActiveFacts()
      requires Valid()
      ensures activeSegment in Repr && activeSegment.logFile in Repr && activeSegment.index in Repr
      ensures activeSegment.currentSize == |EncodeAll(activeSegment.recs)|
      ensures activeSegment.maxBytes == maxSegmentBytes
      ensures Last(Views()) == activeSegment.View()
    {
      hide LogOk, IndexOk, EncodeAll, LogWF;
    }

    /** The closed segments are those of `before`, and the active file was extended by the
        record: from whatever record a scan starts, it finds the old records from there on
        and then what the decoder makes of the torn bytes and the new record together. */
    ghost predicate WroteBehind(before: seq<SegView>, tail: seq<byte>, bytes: seq<byte>, stored: Record)
      reads this, segments, activeSegment, activeSegment.logFile
    {
      && |segments| == |before| > 0
      && Views()[..|before| - 1] == before[..|before| - 1]
      && activeSegment.logFile.bytes == bytes + Encode(stored)
      && ScansAs(activeSegment.logFile.bytes, Last(before).recs, tail + Encode(stored))
    }

    /** `Append` once there is room: the active segment takes the record. */
    method AppendActive(record: Record) returns (stored: Record)
      requires Valid() && activeSegment.currentSize < maxSegmentBytes
      requires Fits(record) && LEO(Views()) + 1 < TWO_64
      modifies activeSegment, activeSegment.logFile, activeSegment.index
      ensures stored == record.(offset := LEO(old(Views())))
      ensures old(activeSegment.tail) == [] ==> Valid() && activeSegment.tail == []
      ensures old(activeSegment.tail) == [] ==> Views() == Appended(old(Views()), maxSegmentBytes, record)
      ensures WroteBehind(old(Views()), old(activeSegment.tail), old(activeSegment.logFile.bytes), stored)
    {
      hide EncodeAll, LogWF, Fits, Appended, Segment.Valid, ScansAs;
      ghost var v := Views();
      ActiveFacts();
      ActiveRoom(v, activeSegment.View(), maxSegmentBytes, record);
      stored := activeSegment.Append(record);
      if old(activeSegment.tail) == [] {
        assert Views() == Appended(v, maxSegmentBytes, record);
      }
    }

    /** `Append`: rolls first when the active segment is full.  Behind a torn tail that no
        roll leaves behind, the closed segments stay as they are and the active file is
        extended by the record. */
    method Append(record: Record) returns (stored: Record)
      requires Valid() && Fits(record) && LEO(Views()) + 1 < TWO_64
      modifies this, Repr
      ensures stored == record.(offset := LEO(old(Views())))
      ensures fresh(Repr - old(Repr))
      ensures old(Appendable()) ==> Valid() && activeSegment.tail == []
      ensures old(Appendable()) ==> Views() == Appended(old(Views()), maxSegmentBytes, record)
      ensures !old(Appendable()) ==>
                && segments == old(segments) && activeSegment == old(activeSegment)
                && WroteBehind(old(Views()), old(activeSegment.tail), old(activeSegment.logFile.bytes), stored)
    {
      hide PartitionLog.WroteBehind, LogOk, IndexOk, EncodeAll, LogWF, Fits, Sound, Appended, Segment.Valid;
      ghost var v := Views();
      ActiveFacts();
      var full := activeSegment.IsFull();
      if full {
        RollThenAppend(v, maxSegmentBytes, record);
        Roll();
        SizeOfNone();
        ActiveFacts();
      }
      stored := AppendActive(record);
    }

    /** `findSegmentIndex`: the last segment that starts at or below the offset, or -1. */
    method FindSegmentIndex(startOffset: uint64) returns (result: int)
      requires Valid()
      ensures result == Reach(Views(), startOffset) - 1
    {
      hide Sound, AllOk, ActiveOk, Segment.Valid;
      ghost var v := Views();
      assert |v| == |segments|;
      var low, high := 0, |segments| - 1;
      result := -1;
      while low <= high
        invariant 0 <= low <= high + 1 <= |segments|
        invariant result == low - 1
        invariant low > 0 ==> v[low - 1].base <= startOffset
        invariant forall i :: high < i < |segments| ==> v[i].base > startOffset
      {
        var mid := low + (high - low) / 2;
        assert v[mid].base == segments[mid].baseOffset;
        if segments[mid].baseOffset <= startOffset {
          result := mid;
          low := mid + 1;
        } else {
          forall i | mid <= i < |segments|
            ensures v[i].base > startOffset
          {
            if mid < i {
              assert Before(v[mid], v[i]);
            }
          }
          high := mid - 1;
        }
      }
      ReachIs(v, startOffset, low);
    }

    /** Reading one segment moves only that segment's cursor, and for the active segment
        only to the end of the file. */
    method ReadOne(i: nat, startOffset: uint64) returns (records: seq<Record>)
      requires Valid() && i < |segments|
      modifies segments[i].logFile
      ensures Valid() && Views() == old(Views())
      ensures records == SegRead(Views()[i], startOffset)
    {
      hide LogWF, Segment.Valid, From;
      records := segments[i].Read(startOffset);
      assert Views() == old(Views());
    }

    /** The loop of `Read` over the segments from `first` on. */
    method ReadOnwards(first: nat, startOffset: uint64) returns (records: seq<Record>)
      requires Valid() && first < |segments|
      modifies set i | 0 <= i < |segments| :: segments[i].logFile
      ensures Valid() && Views() == old(Views())
      ensures records == ReadAll(Views()[first..], startOffset)
    {
      hide PartitionLog.Valid, SegRead, ReadAll;
      ghost var v := Views();
      records := [];
      var i := first;
      while i < |segments|
        invariant first <= i <= |segments|
        invariant Valid() && Views() == v
        invariant ReadAll(v[first..], startOffset) == records + ReadAll(v[i..], startOffset)
      {
        var segRecords := ReadOne(i, startOffset);
        ReadAllStep(v, i, startOffset);
        Assoc(records, segRecords, ReadAll(v[i + 1..], startOffset));
        records := records + segRecords;
        i := i + 1;
      }
      ReadAllStep(v, i, startOffset);
    }

    /** `Read`: the segments from the one that holds the start, each through its index. */
    method Read(startOffset: uint64) returns (records: seq<Record>)
      requires Valid()
      modifies set i | 0 <= i < |segments| :: segments[i].logFile
      ensures Valid() && Views() == old(Views())
      ensures records == ReadSegments(Views(), startOffset)
      ensures records == Answer(Views(), startOffset)
      ensures Exact(Views()) ==>
                records == if startOffset < Views()[0].base then [] else From(Flatten(Views()), startOffset)
    {
      hide Sound, AllOk, Ordered, ActiveOk, Flatten, From, ReadAll, Answer;
      ghost var v := Views();
      ReadAnywhere(v, startOffset);
      if Exact(v) {
        ReadRefines(v, startOffset);
      }
      var startIdx := FindSegmentIndex(startOffset);
      if startIdx == -1 {
        return [];
      }
      records := ReadOnwards(startIdx, startOffset);
    }

    /** Where a zero-copy read for `target` starts, as a position in the plain log. */
    ghost function FetchFrom(target: int): nat
      requires Valid() && target >= Views()[0].base
      reads this, Repr
    {
      ReachBounds(Views(), target);
      var i := Reach(Views(), target) - 1;
      |Flatten(Views()[..i])| + segments[i].StartRecord(target)
    }

    lemma WhereToFetch(target: int)
      requires Valid()
      ensures var i := Reach(Views(), target) - 1;
              if i == -1 then target < Views()[0].base
              else
                && Views()[0].base <= target && Views()[i].base <= target
                && (forall j :: i < j < |segments| ==> target < Views()[j].base)
                && segments[i].Valid()
                && FetchFrom(target) == |Flatten(Views()[..i])| + segments[i].StartRecord(target)
    {
      hide AllOk, ActiveOk, Segment.Valid, Segment.StartRecord, Flatten;
      ReachBounds(Views(), target);
    }

    /** One turn of the send loop.  Only the first segment can be entered in the middle. */
    method SendOne(first: nat, i: nat, startOffset: uint64, maxBytes: int) returns (sent: seq<byte>)
      requires Valid() && first <= i < |segments| && segments[first].Valid()
      requires i > first ==> startOffset < Views()[i].base
      ensures segments[first].StartRecord(startOffset) <= |Views()[first].recs|
      ensures var w := Trimmed(Views()[first..], segments[first].StartRecord(startOffset));
              sent == Cut(EncodeAll(w[i - first].recs), maxBytes)
    {
      hide LogWF, Segment.Valid, Segment.StartRecord, EncodeAll, Cut;
      segments[first].StartRecordFacts(startOffset);
      sent := segments[i].ReadZeroCopy(startOffset, maxBytes);
      assert segments[i].recs[0..] == segments[i].recs;
    }

    /** The send loop from segment `first` on. */
    method SendOnwards(first: nat, startOffset: uint64, maxBytes: int) returns (sent: seq<byte>)
      requires Valid() && first < |segments| && segments[first].Valid()
      requires forall i :: first < i < |segments| ==> startOffset < Views()[i].base
      ensures segments[first].StartRecord(startOffset) <= |Views()[first].recs|
      ensures sent == SendAll(Trimmed(Views()[first..], segments[first].StartRecord(startOffset)), maxBytes)
    {
      hide PartitionLog.Valid, PartitionLog.Views, Segment.Valid, Segment.StartRecord, SendAll, EncodeAll, Cut, Trimmed;
      HasSegments();
      RecordsMatch(first);
      segments[first].StartRecordFacts(startOffset);
      ghost var w := Trimmed(Views()[first..], segments[first].StartRecord(startOffset));
      sent := [];
      var remainingBytes := maxBytes;
      var i := first;
      assert w[0..] == w;
      while i < |segments|
        invariant first <= i <= |segments|
        invariant maxBytes <= 0 ==> remainingBytes == maxBytes
        invariant SendAll(w, maxBytes) == sent + SendAll(w[i - first..], remainingBytes)
      {
        if maxBytes > 0 && remainingBytes <= 0 {
          SendNothing(w[i - first..], remainingBytes);
          return;
        }
        var n := SendOne(first, i, startOffset, remainingBytes);
        SendTurn(w, i - first, sent, maxBytes, remainingBytes, n);
        sent := sent + n;
        if maxBytes > 0 {
          remainingBytes := remainingBytes - |n|;
        }
        i := i + 1;
      }
      SendAllStep(w, i - first, remainingBytes);
    }

    /** `ReadZeroCopy`: for a positive limit, one contiguous piece of the plain log's bytes
        that starts at a record boundary and is cut off at the limit. */
    method ReadZeroCopy(startOffset: uint64, maxBytes: int) returns (sent: seq<byte>)
      requires Valid()
      ensures startOffset < Views()[0].base || maxBytes <= 0 ==> sent == []
      ensures startOffset >= Views()[0].base ==>
                && FetchFrom(startOffset) <= |Flatten(Views())|
                && sent == Cut(EncodeAll(Flatten(Views())[FetchFrom(startOffset)..]), maxBytes)
      ensures startOffset >= Views()[0].base ==>
                StartsWell(Views(), startOffset, FetchFrom(startOffset), indexIntervalBytes)
    {
      hide PartitionLog.Valid, PartitionLog.Views, PartitionLog.FetchFrom, Segment.Valid, Segment.StartRecord, SendAll,
           EncodeAll, Cut, Flatten, FetchNear, AllBelow, Trimmed, Exact, StartsWell, Reach;
      HasSegments();
      ghost var v := Views();
      var startIdx := FindSegmentIndex(startOffset);
      WhereToFetch(startOffset);
      if startIdx == -1 {
        return [];
      }
      sent := SendOnwards(startIdx, startOffset, maxBytes);
      FetchSent(v, startIdx, segments[startIdx].StartRecord(startOffset), maxBytes);
      FetchClose(startIdx, startOffset);
    }

    lemma FetchClose(i: nat, startOffset: uint64)
      requires Valid() && i == Reach(Views(), startOffset) - 1 && 0 <= i && segments[i].Valid()
      requires Views()[i].base <= startOffset
      requires forall j :: i < j < |segments| ==> startOffset < Views()[j].base
      ensures var at := |Flatten(Views()[..i])| + segments[i].StartRecord(startOffset);
              at <= |Flatten(Views())| && StartsWell(Views(), startOffset, at, indexIntervalBytes)
    {
      hide LogWF, Segment.Valid, Flatten, FetchNear, AllBelow, Exact, StartsNear;
      segments[i].StartRecordFacts(startOffset);
      FetchFacts(Views(), i, segments[i].StartRecord(startOffset), startOffset, indexIntervalBytes);
    }

    /** `LEO`. */
    method LogEndOffset() returns (leo: uint64)
      requires Valid()
      ensures leo == LEO(Views())
    {
      hide LogWF, Sound;
      leo := activeSegment.nextOffset;
    }

    /** `RemoveOldestSegment`: never the active one. */
    method RemoveOldestSegment() returns (removed: bool)
      requires Valid()
      modifies this`segments
      ensures Valid() && Views() == WithoutOldest(old(Views()))
      ensures removed == (|old(Views())| > 1)
      ensures segments == if removed then old(segments)[1..] else old(segments)
    {
      hide LogWF, Segment.Valid, Sound;
      if |segments| <= 1 {
        return false;
      }
      RemoveKeepsWF(Views());
      SoundSuffix(segments, Repr, maxSegmentBytes, indexIntervalBytes);
      segments := segments[1..];
      assert Views() == old(Views())[1..];
      removed := true;
    }

    /** The scan of `CompactSegments` over every segment, the active one included. */
    method LatestOffsets() returns (latest: map<Key, nat>)
      requires Valid()
      modifies set i | 0 <= i < |segments| :: segments[i].logFile
      ensures Valid() && Views() == old(Views())
      ensures latest == Latest(Flatten(Views()))
    {
      hide PartitionLog.Valid, Latest, Flatten;
      latest := map[];
      ghost var v := Views();
      NothingLatest(v);
      for i := 0 to |segments|
        invariant Valid() && Views() == v
        invariant latest == Latest(Flatten(v[..i]))
      {
        var records := ReadOne(i, segments[i].baseOffset);
        WholeSegmentRead(v, i);
        latest := AddLatest(latest, records, Flatten(v[..i]));
        FlattenLast(v[..i + 1]);
        assert v[..i + 1][..i] == v[..i];
      }
      assert v[..|segments|] == v;
    }

    lemma WholeSegmentRead(v: seq<SegView>, i: nat)
      requires Valid() && v == Views() && i < |v|
      ensures SegRead(v[i], v[i].base) == v[i].recs
    {
      hide Sound, Fits;
      assert SegOk(v[i]);
      FromAbove(v[i].recs, v[i].base);
    }

    lemma HasSegments()
      requires Valid()
      ensures |Views()| == |segments| > 0
    {
    }

    lemma RecordsMatch(i: nat)
      requires i < |segments|
      ensures |Views()| == |segments| && Views()[i].recs == segments[i].recs
    {
    }

    lemma WellFormed()
      requires Valid()
      ensures LogWF(Views()) && maxSegmentBytes > 0
    {
    }

    lemma FilesOwned()
      requires Valid()
      ensures forall i :: 0 <= i < |segments| ==> segments[i].logFile in Repr
    {
      hide LogWF, Segment.Valid;
    }

    lemma SizeIs(i: nat)
      requires Valid() && i < |segments|
      ensures segments[i].currentSize == |EncodeAll(Views()[i].recs)|
    {
      hide LogWF, Segment.Valid, EncodeAll;
      SegmentContents(segments[i]);
    }

    lemma ClosedApart(i: nat)
      requires Valid() && i < |segments| - 1
      ensures activeSegment != segments[i] && activeSegment.logFile != segments[i].logFile
      ensures segments[i] in Repr && segments[i].logFile in Repr
    {
      hide LogWF, Segment.Valid;
    }

    /** One closed segment of `CompactSegments`. */
    method CompactOne(i: nat, latest: map<Key, nat>)
      requires Valid() && i < |segments| - 1
      modifies this`Repr, segments[i], segments[i].logFile
      ensures Valid() && fresh(Repr - old(Repr))
      ensures Views() == old(Views())[i := CompactSeg(old(Views())[i], latest)]
      ensures segments[i].currentSize == |EncodeAll(segments[i].recs)|
    {
      hide LogWF, Segment.Valid, Sound, Kept, EncodeAll, CompactSeg;
      CompactOneKeepsWF(Views(), i, latest);
      ClosedApart(i);
      ghost var repr := RewriteSegment(segments, i, latest, Repr, maxSegmentBytes, indexIntervalBytes);
      Repr := repr;
    }

    /** The rewrite loop of `CompactSegments`, oldest segment first. */
    method RewriteClosed(latest: map<Key, nat>) returns (rewritten: nat)
      requires Valid()
      modifies this`Repr, Repr
      ensures Valid() && fresh(Repr - old(Repr)) && activeSegment.tail == old(activeSegment.tail)
      ensures Views() == CompactFirst(old(Views()), |old(Views())| - 1, latest)
      ensures rewritten == Losers(old(Views()), |old(Views())| - 1, latest)
    {
      hide LogWF, Segment.Valid, Sound, Kept, EncodeAll, CompactSeg, CompactFirst, Losers;
      ghost var v := Views();
      rewritten := 0;
      CompactNone(v, latest);
      NoneLost(v, latest);
      for k := 0 to |segments| - 1
        invariant Valid() && fresh(Repr - old(Repr))
        invariant Views() == CompactFirst(v, k, latest)
        invariant rewritten == Losers(v, k, latest)
        invariant activeSegment.tail == old(activeSegment.tail)
      {
        ClosedApart(k);
        SizeIs(k);
        var before := segments[k].currentSize;
        CompactOne(k, latest);
        OneMoreLost(v, k, latest);
        if segments[k].currentSize != before {
          rewritten := rewritten + 1;
        }
      }
    }

    /** `CompactSegments`: every closed segment, oldest first, against one map of latest
        offsets.  Returns how many segments lost a record. */
    method CompactSegments() returns (rewritten: nat)
      requires Valid()
      modifies this`Repr, Repr
      ensures Valid() && fresh(Repr - old(Repr)) && activeSegment.tail == old(activeSegment.tail)
      ensures Views() == Compacted(old(Views())) && KeepsSurvivors(old(Views()), Views())
      ensures |Views()| == |old(Views())| && rewritten == |Differing(old(Views()), Views(), |Views()| - 1)|
    {
      hide LogWF, Segment.Valid, Sound, CompactFirst, Latest, Flatten, Losers, KeepsSurvivors, Differing;
      CompactedKeepsSurvivors(Views());
      LosersAreCounted(Views());
      if |segments| <= 1 {
        NoneLost(Views(), Latest(Flatten(Views())));
        return 0;
      }
      FilesOwned();
      var latest := LatestOffsets();
      rewritten := RewriteClosed(latest);
    }

    /** `NewPartitionLog` on a directory.  The ghost arguments describe what the files
        hold; an empty directory starts a log at offset 0. */
    constructor Open(dir: Directory, maxBytes: int, interval: int, ghost v: seq<SegView>, ghost stored: seq<Stored>)
      requires 0 < maxBytes <= TWO_62
      requires DirectoryOk(dir, v, stored, interval) && LogWF(v)
      ensures Valid() && Views() == v
      ensures maxSegmentBytes == maxBytes && indexIntervalBytes == interval
      ensures fresh(Repr) && activeSegment.tail == stored[|v| - 1].tail
    {
      hide LogWF, Sound, Segment.Valid, DirectoryOk;
      var bases := SortBases(dir.Keys);
      if |bases| == 0 {
        bases := [0];
      } else {
        assert bases[0] in dir;
      }
      BasesAreViews(dir, bases, v, stored, interval);
      var segs;
      ghost var repr;
      segs, repr := LoadSegments(dir, bases, maxBytes, interval, v, stored);
      segments := segs;
      activeSegment := segs[|segs| - 1];
      maxSegmentBytes, indexIntervalBytes := maxBytes, interval;
      Repr := repr;
    }

    ghost predicate Mirrors(dir: Directory)
      requires Valid()
      reads this, Repr
    {
      && (forall b :: b in dir ==> exists i :: 0 <= i < |segments| && segments[i].baseOffset == b)
      && (forall i :: 0 <= i < |segments| ==>
           segments[i].baseOffset in dir &&
           dir[segments[i].baseOffset] == DiskFile(segments[i].logFile.bytes, segments[i].index.bytes))
    }

    /** The directory as it is while the log is open. */
    method Snapshot() returns (dir: Directory)
      requires Valid()
      ensures Mirrors(dir)
    {
      hide Sound, AllOk, ActiveOk, Segment.Valid;
      dir := map[];
      ghost var v := Views();
      for i := 0 to |segments|
        invariant forall b :: b in dir ==> exists j :: 0 <= j < i && segments[j].baseOffset == b
        invariant forall j :: 0 <= j < i ==>
                    segments[j].baseOffset in dir &&
                    dir[segments[j].baseOffset] == DiskFile(segments[j].logFile.bytes, segments[j].index.bytes)
      {
        forall j | 0 <= j < i
          ensures segments[j].baseOffset != segments[i].baseOffset
        {
          assert Before(v[j], v[i]);
        }
        dir := dir[segments[i].baseOffset := DiskFile(segments[i].logFile.bytes, segments[i].index.bytes)];
      }
    }
  }
}
