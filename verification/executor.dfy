/** Runs of the real operations: a partition log driven through any sequence of appends,
    reads, removals and compactions behaves as the value-level run says. */
module Executor {
  import opened Bytes
  import opened Seqs
  import opened Records
  import opened Streams
  import opened SegmentModel
  import opened LogModel
  import opened Segments
  import opened LogOps
  import opened LogRuns
  import opened Recovery
  import opened PartitionLogs

  /** `NewPartitionLog` on an empty directory: a log with one empty segment at offset 0, from
      which every run can start. */
  method FreshLog(maxBytes: int, interval: int) returns (log: PartitionLog)
    requires 0 < maxBytes <= TWO_62
    ensures log.Valid() && fresh(log) && fresh(log.Repr)
    ensures log.Views() == [SegView(0, 0, [])] && Exact(log.Views()) && log.activeSegment.tail == []
    ensures log.maxSegmentBytes == maxBytes && log.indexIntervalBytes == interval
  {
    hide LogOk, IndexOk, EncodeAll;
    EmptyLog(0);
    EmptyIndex(0, interval);
    ghost var v := [SegView(0, 0, [])];
    ghost var stored := [Stored([], [], [])];
    assert SegmentOnDisk(map[], v[0], stored[0], interval);
    log := new PartitionLog.Open(map[], maxBytes, interval, v, stored);
  }

  /** One operation on the log. */
  method Perform(log: PartitionLog, op: Op) returns (answers: seq<seq<Record>>)
    requires log.Valid() && (op.Append? ==> log.activeSegment.tail == [])
    requires OpFits(op) && LEO(log.Views()) + 1 < TWO_64
    modifies log, log.Repr
    ensures log.Valid() && fresh(log.Repr - old(log.Repr))
    ensures old(log.activeSegment.tail) == [] ==> log.activeSegment.tail == []
    ensures log.Views() == Step(old(log.Views()), log.maxSegmentBytes, op)
    ensures answers == if op.Fetch? then [Answer(old(log.Views()), op.s)] else []
  {
    hide LogWF, Sound, Appended, WithoutOldest, Compacted, Fits, Exact, From, Flatten, Answer;
    answers := [];
    match op {
      case Append(r) =>
        var _ := log.Append(r);
      case Fetch(s) =>
        log.FilesOwned();
        var records := log.Read(s);
        answers := [records];
      case RemoveOldest =>
        var _ := log.RemoveOldestSegment();
      case Compact =>
        var _ := log.CompactSegments();
    }
  }

  /** Any run: the log ends in the state that the run prescribes and every read on the way
      returned what the plain log of that moment demands.  A torn active file excludes
      appends; see `PartitionLog.Append` for those. */
  method Execute(log: PartitionLog, ops: seq<Op>) returns (answers: seq<seq<Record>>)
    requires log.Valid() && (log.activeSegment.tail == [] || Sent(ops) == [])
    requires OpsFit(ops) && LEO(log.Views()) + |ops| < TWO_64
    modifies log, log.Repr
    ensures log.Valid() && fresh(log.Repr - old(log.Repr))
    ensures old(log.activeSegment.tail) == [] ==> log.activeSegment.tail == []
    ensures log.Views() == Run(old(log.Views()), log.maxSegmentBytes, ops)
    ensures answers == Answers(old(log.Views()), log.maxSegmentBytes, ops)
  {
    hide PartitionLog.Valid, AllOk, Ordered, ActiveOk, Exact, Run, Answers, Fits, Step, Answer, Sent;
    answers := [];
    ghost var start := log.Views();
    ghost var max, whole := log.maxSegmentBytes, log.activeSegment.tail == [];
    log.WellFormed();
    assert ops[0..] == ops;
    var i := 0;
    while i < |ops|
      invariant 0 <= i <= |ops|
      invariant log.Valid() && fresh(log.Repr - old(log.Repr))
      invariant if whole then log.activeSegment.tail == [] else Sent(ops[i..]) == []
      invariant LogWF(log.Views()) && LEO(log.Views()) + |ops[i..]| < TWO_64
      invariant Run(start, max, ops) == Run(log.Views(), max, ops[i..])
      invariant Answers(start, max, ops) == answers + Answers(log.Views(), max, ops[i..])
    {
      ghost var v := log.Views();
      StepKeeps(v, max, ops[i]);
      RunStep(v, max, ops, i);
      var more := Perform(log, ops[i]);
      log.WellFormed();
      Assoc(answers, more, Answers(log.Views(), max, ops[i + 1..]));
      answers := answers + more;
      i := i + 1;
    }
    RunDone(log.Views(), max);
  }

  lemma RunStep(v: seq<SegView>, max: int, ops: seq<Op>, i: nat)
    requires LogWF(v) && max > 0 && OpsFit(ops) && i < |ops| && LEO(v) + |ops[i..]| <= TWO_64
    ensures OpFits(ops[i]) && OpsFit(ops[i..]) && OpsFit(ops[i + 1..])
    ensures Sent(ops[i..]) == [] ==> !ops[i].Append? && Sent(ops[i + 1..]) == []
    ensures var w := Step(v, max, ops[i]);
            && LogWF(w) && LEO(w) + |ops[i + 1..]| <= TWO_64
            && Run(v, max, ops[i..]) == Run(w, max, ops[i + 1..])
            && Answers(v, max, ops[i..]) ==
               (if ops[i].Fetch? then [Answer(v, ops[i].s)] else []) + Answers(w, max, ops[i + 1..])
  {
    hide AllOk, Ordered, ActiveOk, Exact, Fits, Step, Answer;
    StepKeeps(v, max, ops[i]);
    assert ops[i..][0] == ops[i] && ops[i..][1..] == ops[i + 1..];
  }

  lemma RunDone(v: seq<SegView>, max: int)
    requires LogWF(v) && max > 0 && LEO(v) <= TWO_64
    ensures Run(v, max, []) == v && Answers(v, max, []) == []
  {
  }
}
