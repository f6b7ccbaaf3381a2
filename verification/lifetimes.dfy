/** A partition over any number of broker lifetimes: runs separated by restarts. */
module Lifetimes {
  import opened Bytes
  import opened Seqs
  import opened Records
  import opened LogModel
  import opened Compaction
  import opened LogRuns
  import opened Recovery
  import opened PartitionLogs
  import opened Executor
  import opened Restarts

  predicate LivesFit(lives: seq<seq<Op>>)
  {
    forall i :: 0 <= i < |lives| ==> OpsFit(lives[i])
  }

  /** All operations, one lifetime after the other. */
  function Together(lives: seq<seq<Op>>): seq<Op>
  {
    if lives == [] then [] else lives[0] + Together(lives[1..])
  }

  lemma {:induction false} SentConcat(a: seq<Op>, b: seq<Op>)
    ensures Sent(a + b) == Sent(a) + Sent(b)
  {
    hide Sent;
    UnfoldSent(a);
    if a == [] {
      assert a + b == b;
    } else {
      UnfoldSent(a + b);
      SentConcat(a[1..], b);
      assert (a + b)[1..] == a[1..] + b;
      Assoc(if a[0].Append? then [a[0].r] else [], Sent(a[1..]), Sent(b));
    }
  }

  lemma UnfoldSent(ops: seq<Op>)
    ensures Sent(ops) ==
            if ops == [] then [] else (if ops[0].Append? then [ops[0].r] else []) + Sent(ops[1..])
  {
  }

  /** The log after the runs, reopened at the end of every lifetime. */
  ghost function Lives(v: seq<SegView>, maxBytes: int, lives: seq<seq<Op>>): (w: seq<SegView>)
    requires LogWF(v) && maxBytes > 0 && LivesFit(lives) && LEO(v) + |Together(lives)| <= TWO_64
    ensures LogWF(w) && LEO(w) == LEO(v) + |Sent(Together(lives))|
    ensures v[0].base <= w[0].base
    decreases |lives|
  {
    if lives == [] then v
    else
      var w := Run(v, maxBytes, lives[0]);
      RecoveredWF(w);
      SentConcat(lives[0], Together(lives[1..]));
      Lives(Recovered(w), maxBytes, lives[1..])
  }

  lemma {:induction false} StampConcat(a: seq<Record>, b: seq<Record>, next: nat)
    requires next + |a| + |b| <= TWO_64
    ensures Stamp(a + b, next) == Stamp(a, next) + Stamp(b, next + |a|)
    decreases |a|
  {
    hide Stamp;
    UnfoldStamp(a, next);
    if a == [] {
      assert a + b == b;
    } else {
      UnfoldStamp(a + b, next);
      StampConcat(a[1..], b, next + 1);
      assert (a + b)[1..] == a[1..] + b;
      Assoc([a[0].(offset := next)], Stamp(a[1..], next + 1), Stamp(b, next + |a|));
    }
  }

  lemma UnfoldStamp(rs: seq<Record>, next: nat)
    requires next + |rs| <= TWO_64
    ensures rs == [] ==> Stamp(rs, next) == []
    ensures rs != [] ==> Stamp(rs, next) == [rs[0].(offset := next)] + Stamp(rs[1..], next + 1)
  {
  }

  /** Neither restarts nor compactions at any points show in the key-value view: without
      retention it is what the appends of all lifetimes alone would have produced. */
  lemma {:induction false} RestartsKeepView(v: seq<SegView>, maxBytes: int, lives: seq<seq<Op>>)
    requires LogWF(v) && maxBytes > 0 && LivesFit(lives) && LEO(v) + |Together(lives)| <= TWO_64
    requires forall i :: 0 <= i < |lives| ==> NoRemoval(lives[i])
    ensures KeyValues(Flatten(Lives(v, maxBytes, lives))) ==
            KeyValues(Flatten(v) + Stamp(Sent(Together(lives)), LEO(v)))
    decreases |lives|
  {
    hide Flatten, AllOk, Ordered, ActiveOk, Exact, KeyValues, Stamp, Sent, NoRemoval, OpsFit, Recovered, Run;
    if lives == [] {
      assert Stamp(Sent([]), LEO(v)) == [];
      assert Flatten(v) + [] == Flatten(v);
    } else {
      var w := Run(v, maxBytes, lives[0]);
      CompactionInvisible(v, maxBytes, lives[0]);
      RecoveredWF(w);
      RestartsKeepView(Recovered(w), maxBytes, lives[1..]);
      SentConcat(lives[0], Together(lives[1..]));
      ViewOfBoth(Flatten(w), Flatten(v), Sent(lives[0]), Sent(Together(lives[1..])), LEO(v));
    }
  }

  lemma ViewOfBoth(a: seq<Record>, b: seq<Record>, first: seq<Record>, rest: seq<Record>, next: nat)
    requires next + |first| + |rest| <= TWO_64 && KeyValues(a) == KeyValues(b + Stamp(first, next))
    ensures KeyValues(a + Stamp(rest, next + |first|)) == KeyValues(b + Stamp(first + rest, next))
  {
    hide KeyValues, Stamp;
    var more := Stamp(rest, next + |first|);
    ViewExtends(a, b + Stamp(first, next), more);
    StampConcat(first, rest, next);
    Assoc(b, Stamp(first, next), more);
  }

  lemma {:induction false} RunConcat(v: seq<SegView>, maxBytes: int, a: seq<Op>, b: seq<Op>)
    requires LogWF(v) && maxBytes > 0 && OpsFit(a) && OpsFit(b) && LEO(v) + |a| + |b| <= TWO_64
    ensures OpsFit(a + b) && Run(v, maxBytes, a + b) == Run(Run(v, maxBytes, a), maxBytes, b)
    decreases |a|
  {
    hide AllOk, Ordered, ActiveOk, Exact, Step, OpFits;
    if a == [] {
      assert a + b == b;
    } else {
      StepKeeps(v, maxBytes, a[0]);
      RunConcat(Step(v, maxBytes, a[0]), maxBytes, a[1..], b);
      assert (a + b)[1..] == a[1..] + b;
    }
  }

  /** Without compaction restarts change nothing at all: the lifetimes are one long run. */
  lemma {:induction false} LivesAreOneRun(v: seq<SegView>, maxBytes: int, lives: seq<seq<Op>>)
    requires LogWF(v) && maxBytes > 0 && LivesFit(lives) && LEO(v) + |Together(lives)| <= TWO_64
    requires Uncompacted(v)
    requires forall i, j :: 0 <= i < |lives| && 0 <= j < |lives[i]| ==> !lives[i][j].Compact?
    ensures OpsFit(Together(lives))
    ensures Lives(v, maxBytes, lives) == Run(v, maxBytes, Together(lives))
    decreases |lives|
  {
    hide AllOk, Ordered, ActiveOk, Exact, OpFits, Recovered, Uncompacted, Run;
    if lives == [] {
      RunDone(v, maxBytes);
    } else {
      var w := Run(v, maxBytes, lives[0]);
      RunThenReopen(v, maxBytes, lives[0]);
      LivesAreOneRun(w, maxBytes, lives[1..]);
      RunConcat(v, maxBytes, lives[0], Together(lives[1..]));
    }
  }

  lemma LivesStep(v: seq<SegView>, maxBytes: int, lives: seq<seq<Op>>, i: nat)
    requires LogWF(v) && maxBytes > 0 && LivesFit(lives) && i < |lives|
    requires LEO(v) + |Together(lives[i..])| < TWO_64
    ensures OpsFit(lives[i]) && LEO(v) + |lives[i]| < TWO_64
    ensures var w := Run(v, maxBytes, lives[i]);
            && LogWF(Recovered(w)) && LEO(Recovered(w)) + |Together(lives[i + 1..])| < TWO_64
            && Lives(v, maxBytes, lives[i..]) == Lives(Recovered(w), maxBytes, lives[i + 1..])
  {
    hide AllOk, Ordered, ActiveOk, Exact, OpFits, Recovered, Run, Sent;
    assert lives[i..][0] == lives[i] && lives[i..][1..] == lives[i + 1..];
    RecoveredWF(Run(v, maxBytes, lives[i]));
  }

  /** The real operations, with a clean restart at the end of every lifetime. */
  method LiveThrough(log: PartitionLog, lives: seq<seq<Op>>) returns (last: PartitionLog)
    requires log.Valid() && log.activeSegment.tail == [] && LivesFit(lives)
    requires LEO(log.Views()) + |Together(lives)| < TWO_64
    modifies log, log.Repr
    ensures last.Valid() && last.activeSegment.tail == []
    ensures last.Views() == Lives(old(log.Views()), log.maxSegmentBytes, lives)
  {
    hide PartitionLog.Valid, AllOk, Ordered, ActiveOk, LEO, OpsFit, Recovered, Run, Lives, Together, Answers, Flatten,
         Sent, Uncompacted, CanCrash;
    last := log;
    log.WellFormed();
    ghost var start, max := log.Views(), log.maxSegmentBytes;
    assert lives[0..] == lives;
    for i := 0 to |lives|
      invariant last.Valid() && last.activeSegment.tail == [] && last.maxSegmentBytes == max
      invariant (last == log && last.Repr == old(log.Repr)) || (fresh(last) && fresh(last.Repr))
      invariant LogWF(last.Views()) && LEO(last.Views()) + |Together(lives[i..])| < TWO_64
      invariant Lives(start, max, lives) == Lives(last.Views(), max, lives[i..])
    {
      LivesStep(last.Views(), max, lives, i);
      var _ := Execute(last, lives[i]);
      NothingTorn(last);
      last := Restart(last, [], false);
      last.WellFormed();
    }
    LivesOver(last.Views(), max);
  }

  lemma LivesOver(v: seq<SegView>, maxBytes: int)
    requires LogWF(v) && maxBytes > 0 && LEO(v) <= TWO_64
    ensures Lives(v, maxBytes, []) == v
  {
  }

  lemma NothingTorn(log: PartitionLog)
    ensures CanCrash(log, [], false)
  {
  }
}
