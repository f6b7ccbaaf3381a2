/** Restarting a broker: reopening a partition from its own files, after a clean close or
    after a crash in the middle of an append. */
module Restarts {
  import opened Bytes
  import opened Records
  import opened Indexes
  import opened LogModel
  import opened Segments
  import opened Recovery
  import opened PartitionLogs

  ghost function StoredOf(segs: seq<Segment>): (stored: seq<Stored>)
    reads segs
    ensures |stored| == |segs|
    ensures forall i :: 0 <= i < |segs| ==> stored[i] == Stored(segs[i].recs, segs[i].tail, segs[i].slots)
  {
    seq(|segs|, i requires 0 <= i < |segs| reads segs => Stored(segs[i].recs, segs[i].tail, segs[i].slots))
  }

  /** The crash applied to the newest segment's files. */
  ghost function Crashed(stored: seq<Stored>, torn: seq<byte>, entryWritten: bool): seq<Stored>
    requires stored != []
  {
    var n := |stored| - 1;
    stored[n := Stored(stored[n].recs, stored[n].tail + torn,
                       if entryWritten then stored[n].slots + [|stored[n].recs|] else stored[n].slots)]
  }

  /** What an interrupted append can leave behind.  A file that already ends in torn bytes
      is only restarted as it is. */
  ghost predicate CanCrash(log: PartitionLog, torn: seq<byte>, entryWritten: bool)
    reads log, log.activeSegment
  {
    Decode(torn).Ended? && (log.activeSegment.tail == [] || (torn == [] && !entryWritten))
  }

  /** A segment file that the crash did not touch. */
  lemma ClosedOnDisk(log: PartitionLog, dir: Directory, i: nat)
    requires log.Valid() && i < |log.segments|
    requires log.segments[i].baseOffset in dir
    requires dir[log.segments[i].baseOffset] ==
             DiskFile(log.segments[i].logFile.bytes, log.segments[i].index.bytes)
    ensures SegmentOnDisk(dir, Recount(log.Views()[i]), StoredOf(log.segments)[i], log.indexIntervalBytes)
  {
    hide LogWF, Segment.Valid, DiskOk;
    LeftOnDisk(log.segments[i]);
  }

  lemma ActiveOnDisk(log: PartitionLog, dir: Directory, torn: seq<byte>, entryWritten: bool)
    requires log.Valid() && CanCrash(log, torn, entryWritten)
    requires log.activeSegment.currentSize < TWO_63
    requires log.activeSegment.baseOffset in dir
    requires var a := log.activeSegment;
             dir[a.baseOffset] == AfterCrash(DiskFile(a.logFile.bytes, a.index.bytes), torn,
               if entryWritten then Some(Entry(a.nextOffset, a.currentSize)) else None)
    ensures var n := |log.segments| - 1;
            SegmentOnDisk(dir, Recount(log.Views()[n]), Crashed(StoredOf(log.segments), torn, entryWritten)[n],
                          log.indexIntervalBytes)
  {
    hide AllOk, Ordered, Segment.Valid, DiskOk, AfterCrash, Decode;
    if log.activeSegment.tail == [] {
      CrashLeavesOnDisk(log.activeSegment, torn, entryWritten);
      assert log.activeSegment.tail + torn == torn;
    } else {
      LeftOnDisk(log.activeSegment);
      NoCrash(DiskFile(log.activeSegment.logFile.bytes, log.activeSegment.index.bytes));
      assert log.activeSegment.tail + torn == log.activeSegment.tail;
    }
  }

  lemma NoCrash(f: DiskFile)
    ensures AfterCrash(f, [], None) == f
  {
    assert f.log + [] == f.log;
  }

  /** Reopening a log from its directory.  `torn` and `entryWritten` say what an
      interrupted append left behind; a clean restart has neither.  The reopened log holds
      the same records at the same log end offset, and has forgotten only how far its
      compacted segments reach. */
  method Restart(log: PartitionLog, torn: seq<byte>, entryWritten: bool) returns (reopened: PartitionLog)
    requires log.Valid() && CanCrash(log, torn, entryWritten)
    ensures fresh(reopened) && fresh(reopened.Repr) && reopened.maxSegmentBytes == log.maxSegmentBytes
    ensures reopened.Valid() && reopened.Views() == Recovered(log.Views())
    ensures LEO(reopened.Views()) == LEO(log.Views()) && Flatten(reopened.Views()) == Flatten(log.Views())
    ensures Uncompacted(log.Views()) ==> reopened.Views() == log.Views()
    ensures reopened.activeSegment.tail == log.activeSegment.tail + torn
  {
    hide PartitionLog.Valid, AllOk, Ordered, ActiveOk, Flatten, DirectoryOk, Recovered, Uncompacted, CanCrash;
    ghost var v, stored := log.Views(), [];
    var dir;
    dir, stored := CrashedFiles(log, torn, entryWritten);
    RecoveredWF(v);
    if Uncompacted(v) {
      RecoveryExact(v);
    }
    reopened := new PartitionLog.Open(dir, log.maxSegmentBytes, log.indexIntervalBytes, Recovered(v), stored);
  }

  /** The files of a log after the crash. */
  method CrashedFiles(log: PartitionLog, torn: seq<byte>, entryWritten: bool)
    returns (dir: Directory, ghost stored: seq<Stored>)
    requires log.Valid() && CanCrash(log, torn, entryWritten)
    ensures LogWF(log.Views()) && 0 < log.maxSegmentBytes <= TWO_62
    ensures |stored| == |log.Views()| && stored[|stored| - 1].tail == log.activeSegment.tail + torn
    ensures DirectoryOk(dir, Recovered(log.Views()), stored, log.indexIntervalBytes)
  {
    hide LogWF, Segment.Valid, PartitionLog.Mirrors, Sound, Decode, AfterCrash, DirectoryOk, Recovered, CanCrash;
    dir := log.Snapshot();
    var a := log.activeSegment;
    CrashSize(log);
    stored := CrashedDirectory(log, dir, torn, entryWritten);
    dir := dir[a.baseOffset := AfterCrash(dir[a.baseOffset], torn,
                 if entryWritten then Some(Entry(a.nextOffset, a.currentSize)) else None)];
  }

  /** The directory with the crash applied to the active segment's files. */
  ghost function CrashedDir(log: PartitionLog, dir: Directory, torn: seq<byte>, entryWritten: bool): Directory
    requires log.Valid() && log.Mirrors(dir) && log.activeSegment.currentSize < TWO_63
    reads log, log.Repr
  {
    var a := log.activeSegment;
    dir[a.baseOffset := AfterCrash(dir[a.baseOffset], torn,
          if entryWritten then Some(Entry(a.nextOffset, a.currentSize)) else None)]
  }

  lemma CrashedSegment(log: PartitionLog, dir: Directory, torn: seq<byte>, entryWritten: bool, i: nat)
    requires log.Valid() && CanCrash(log, torn, entryWritten)
    requires log.activeSegment.currentSize < TWO_63 && log.Mirrors(dir) && i < |log.segments|
    ensures var dir' := CrashedDir(log, dir, torn, entryWritten);
            var x := Recovered(log.Views())[i];
            && SegmentOnDisk(dir', x, Crashed(StoredOf(log.segments), torn, entryWritten)[i], log.indexIntervalBytes)
            && x.base == log.segments[i].baseOffset
            && x.base in dir'
  {
    hide LogWF, Segment.Valid, Sound, Decode, AfterCrash, SegmentOnDisk, Recovered, CanCrash;
    RecoveredAt(log.Views(), i);
    if i < |log.segments| - 1 {
      BasesDiffer(log, i);
      ClosedOnDisk(log, CrashedDir(log, dir, torn, entryWritten), i);
    } else {
      ActiveOnDisk(log, CrashedDir(log, dir, torn, entryWritten), torn, entryWritten);
    }
  }

  /** The directory after the crash holds the log's segments as recovery counts them. */
  lemma CrashedDirectory(log: PartitionLog, dir: Directory, torn: seq<byte>, entryWritten: bool)
    returns (stored: seq<Stored>)
    requires log.Valid() && CanCrash(log, torn, entryWritten)
    requires log.activeSegment.currentSize < TWO_63 && log.Mirrors(dir)
    ensures log.activeSegment.baseOffset in dir
    ensures |stored| == |log.segments| && stored[|stored| - 1].tail == log.activeSegment.tail + torn
    ensures DirectoryOk(CrashedDir(log, dir, torn, entryWritten), Recovered(log.Views()), stored,
                        log.indexIntervalBytes)
  {
    hide LogWF, Segment.Valid, Sound, Decode, AfterCrash, SegmentOnDisk, Recovered, CanCrash;
    hide DirectoryOk;
    var dir' := CrashedDir(log, dir, torn, entryWritten);
    var v := log.Views();
    stored := Crashed(StoredOf(log.segments), torn, entryWritten);
    forall i | 0 <= i < |v|
      ensures SegmentOnDisk(dir', Recovered(v)[i], stored[i], log.indexIntervalBytes)
      ensures Recovered(v)[i].base == log.segments[i].baseOffset && Recovered(v)[i].base in dir'
    {
      CrashedSegment(log, dir, torn, entryWritten, i);
    }
    NoOtherFiles(log, dir, torn, entryWritten);
    DirectoryIs(dir', Recovered(v), stored, log.indexIntervalBytes);
  }

  /** The crash adds no file. */
  lemma NoOtherFiles(log: PartitionLog, dir: Directory, torn: seq<byte>, entryWritten: bool)
    requires log.Valid() && log.Mirrors(dir) && log.activeSegment.currentSize < TWO_63
    ensures forall b :: b in CrashedDir(log, dir, torn, entryWritten) ==>
              exists i :: 0 <= i < |log.Views()| && Recovered(log.Views())[i].base == b
  {
    hide LogWF, Segment.Valid, Sound, AfterCrash, Recovered;
    forall b | b in CrashedDir(log, dir, torn, entryWritten)
      ensures exists i :: 0 <= i < |log.Views()| && Recovered(log.Views())[i].base == b
    {
      var i :| 0 <= i < |log.segments| && log.segments[i].baseOffset == b;
      RecoveredAt(log.Views(), i);
      assert Recovered(log.Views())[i].base == b;
    }
  }

  lemma DirectoryIs(dir: Directory, v: seq<SegView>, stored: seq<Stored>, interval: int)
    requires v != [] && |stored| == |v| && v[0].base in dir
    requires forall i :: 0 <= i < |v| ==> SegmentOnDisk(dir, v[i], stored[i], interval) && v[i].base in dir
    requires forall b :: b in dir ==> exists i :: 0 <= i < |v| && v[i].base == b
    ensures DirectoryOk(dir, v, stored, interval)
  {
    hide SegmentOnDisk;
    assert v[0].base in dir.Keys;
  }

  lemma CrashSize(log: PartitionLog)
    requires log.Valid()
    ensures log.activeSegment.currentSize < TWO_63
  {
    hide LogWF, Segment.Valid;
    SegmentContents(log.activeSegment);
  }

  lemma BasesDiffer(log: PartitionLog, i: nat)
    requires log.Valid() && i < |log.segments| - 1
    ensures log.segments[i].baseOffset != log.activeSegment.baseOffset
  {
    hide Sound, AllOk, ActiveOk;
    assert Before(log.Views()[i], log.Views()[|log.segments| - 1]);
  }

  lemma RecoveredAt(v: seq<SegView>, i: nat)
    requires i < |v|
    ensures Recovered(v)[i] == Recount(v[i])
  {
  }
}
