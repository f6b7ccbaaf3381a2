/** Retention: `cleanSizeRetention` and `cleanTimeRetention`
    (internal/storage/cleaner.go:123-170). */
module Cleaner {
  import opened Bytes
  import opened Records
  import opened Streams
  import opened LogModel
  import opened Segments
  import opened PartitionLogs

  function TotalSize(v: seq<SegView>): nat
  {
    if v == [] then 0 else TotalSize(v[..|v| - 1]) + |EncodeAll(Last(v).recs)|
  }

  /** The size of a log is the number of bytes of its records. */
  lemma {:induction false} SizeIsBytes(v: seq<SegView>)
    ensures TotalSize(v) == |EncodeAll(Flatten(v))|
  {
    hide EncodeAll, Flatten;
    if v == [] {
      UnfoldFlatten(v);
      Unfold([]);
    } else {
      SizeIsBytes(v[..|v| - 1]);
      FlattenLast(v);
      EncodeConcat(Flatten(v[..|v| - 1]), Last(v).recs);
    }
  }

  /** `Stats`. */
  method Stats(log: PartitionLog) returns (count: nat, totalSize: nat)
    requires log.Valid()
    ensures count == |log.Views()| && totalSize == TotalSize(log.Views())
    ensures totalSize == |EncodeAll(Flatten(log.Views()))|
  {
    hide LogWF, Sound, EncodeAll, TotalSize, Flatten;
    SizeIsBytes(log.Views());
    totalSize := 0;
    ghost var v := log.Views();
    SizeOfNothing(v);
    for i := 0 to |log.segments|
      invariant totalSize == TotalSize(v[..i])
    {
      log.SizeIs(i);
      SizeStep(v, i);
      totalSize := totalSize + log.segments[i].currentSize;
    }
    assert v[..|v|] == v;
    count := |log.segments|;
  }

  lemma SizeOfNothing(v: seq<SegView>)
    ensures TotalSize(v[..0]) == 0
  {
  }

  lemma SizeStep(v: seq<SegView>, i: nat)
    requires i < |v|
    ensures TotalSize(v[..i + 1]) == TotalSize(v[..i]) + |EncodeAll(v[i].recs)|
  {
    hide EncodeAll;
    assert v[..i + 1][..i] == v[..i];
  }

  /** How many segments size retention drops: as few as possible, but never the active one. */
  predicate SizeCut(v: seq<SegView>, limit: int, m: nat)
  {
    && m < |v|
    && (TotalSize(v[m..]) <= limit || m == |v| - 1)
    && (forall k :: 0 <= k < m ==> TotalSize(v[k..]) > limit)
  }

  /** The cut is unique, so the longest fitting suffix is what remains. */
  lemma SizeCutUnique(v: seq<SegView>, limit: int, m: nat, n: nat)
    requires SizeCut(v, limit, m) && SizeCut(v, limit, n)
    ensures m == n
  {
    hide TotalSize;
    assert TotalSize(v[m..]) <= limit || m == |v| - 1;
  }

  /** `cleanSizeRetention`: drops oldest segments until the rest fits; a limit that is not
      positive disables it. */
  method CleanSizeRetention(log: PartitionLog, retentionBytes: int) returns (dropped: nat)
    requires log.Valid()
    modifies log`segments
    ensures log.Valid()
    ensures retentionBytes <= 0 ==> dropped == 0 && log.Views() == old(log.Views())
    ensures retentionBytes > 0 ==>
              SizeCut(old(log.Views()), retentionBytes, dropped) && log.Views() == old(log.Views())[dropped..]
    ensures retentionBytes > 0 ==>
              && (|EncodeAll(Flatten(log.Views()))| <= retentionBytes || |log.Views()| == 1)
              && (dropped > 0 ==> |EncodeAll(Flatten(old(log.Views())[dropped - 1..]))| > retentionBytes)
  {
    hide PartitionLog.Valid, PartitionLog.Views, TotalSize, EncodeAll, Flatten;
    dropped := 0;
    if retentionBytes <= 0 {
      return;
    }
    ghost var v := log.Views();
    log.HasSegments();
    assert v[0..] == v;
    while true
      invariant log.Valid() && dropped < |v| && log.Views() == v[dropped..]
      invariant forall k :: 0 <= k < dropped ==> TotalSize(v[k..]) > retentionBytes
      decreases |v| - dropped
    {
      var _, totalSize := Stats(log);
      if totalSize <= retentionBytes {
        break;
      }
      var removed := log.RemoveOldestSegment();
      if !removed {
        break;
      }
      assert v[dropped..][1..] == v[dropped + 1..];
      dropped := dropped + 1;
    }
    SizeIsBytes(v[dropped..]);
    if dropped > 0 {
      SizeIsBytes(v[dropped - 1..]);
    }
  }

  // ---------------------------------------------------------- time retention

  /** A segment file older than the retention time; a base without a modification time is
      a file that cannot be examined. */
  predicate Expired(x: SegView, modTimes: map<nat, int>, now: int, retention: int)
  {
    x.base in modTimes && now - modTimes[x.base] > retention
  }

  /** How many of the first `k` segments have expired. */
  function ExpiredCount(v: seq<SegView>, k: nat, modTimes: map<nat, int>, now: int, retention: int): (n: nat)
    requires k <= |v|
    ensures n <= k
  {
    if k == 0 then 0
    else ExpiredCount(v, k - 1, modTimes, now, retention) +
         (if Expired(v[k - 1], modTimes, now, retention) then 1 else 0)
  }

  /** `cleanTimeRetention`: for every expired closed segment it removes the oldest segment
      there is at that moment. */
  method CleanTimeRetention(log: PartitionLog, modTimes: map<nat, int>, now: int, retention: int)
    returns (dropped: nat)
    requires log.Valid()
    modifies log`segments
    ensures log.Valid() && dropped < |old(log.Views())| && log.Views() == old(log.Views())[dropped..]
    ensures retention <= 0 ==> dropped == 0
    ensures retention > 0 ==>
              dropped == |TooOld(old(log.Views()), |old(log.Views())| - 1, modTimes, now, retention)|
  {
    hide PartitionLog.Valid, TooOld;
    dropped := 0;
    ghost var v := log.Views();
    log.HasSegments();
    assert v[0..] == v;
    if retention <= 0 {
      return;
    }
    var nonActive := log.segments[..|log.segments| - 1];
    dropped := DropExpired(log, nonActive, modTimes, now, retention, v);
    ExpiredCountIs(v, |v| - 1, modTimes, now, retention);
  }

  /** The loop over the closed segments there were at the start. */
  method DropExpired(log: PartitionLog, nonActive: seq<Segment>, modTimes: map<nat, int>, now: int, retention: int,
                     ghost v: seq<SegView>)
    returns (dropped: nat)
    requires log.Valid() && log.Views() == v && |nonActive| == |v| - 1
    requires forall i :: 0 <= i < |nonActive| ==> nonActive[i].baseOffset == v[i].base
    modifies log`segments
    ensures log.Valid() && dropped < |v| && log.Views() == v[dropped..]
    ensures dropped == ExpiredCount(v, |v| - 1, modTimes, now, retention)
  {
    hide PartitionLog.Valid, PartitionLog.Views, ExpiredCount;
    dropped := 0;
    assert v[0..] == v;
    CountNone(v, modTimes, now, retention);
    for i := 0 to |nonActive|
      invariant log.Valid() && dropped <= i && log.Views() == v[dropped..]
      invariant dropped == ExpiredCount(v, i, modTimes, now, retention)
    {
      var base := nonActive[i].baseOffset;
      CountStep(v, i, modTimes, now, retention);
      if base in modTimes && now - modTimes[base] > retention {
        var removed := log.RemoveOldestSegment();
        assert v[dropped..][1..] == v[dropped + 1..];
        dropped := dropped + 1;
      }
    }
  }

  /** The closed segments among the first `k` whose file can be examined and is strictly older
      than the retention time. */
  function TooOld(v: seq<SegView>, k: nat, modTimes: map<nat, int>, now: int, retention: int): set<int>
    requires k <= |v|
  {
    set i | 0 <= i < k && v[i].base in modTimes && now - modTimes[v[i].base] > retention
  }

  lemma {:induction false} ExpiredCountIs(v: seq<SegView>, k: nat, modTimes: map<nat, int>, now: int, retention: int)
    requires k <= |v|
    ensures ExpiredCount(v, k, modTimes, now, retention) == |TooOld(v, k, modTimes, now, retention)|
  {
    if k > 0 {
      ExpiredCountIs(v, k - 1, modTimes, now, retention);
      var before := TooOld(v, k - 1, modTimes, now, retention);
      if Expired(v[k - 1], modTimes, now, retention) {
        assert TooOld(v, k, modTimes, now, retention) == before + {k - 1};
      } else {
        assert TooOld(v, k, modTimes, now, retention) == before;
      }
    }
  }

  lemma CountNone(v: seq<SegView>, modTimes: map<nat, int>, now: int, retention: int)
    ensures ExpiredCount(v, 0, modTimes, now, retention) == 0
  {
  }

  lemma CountStep(v: seq<SegView>, i: nat, modTimes: map<nat, int>, now: int, retention: int)
    requires i < |v|
    ensures ExpiredCount(v, i + 1, modTimes, now, retention) ==
            ExpiredCount(v, i, modTimes, now, retention) +
            (if Expired(v[i], modTimes, now, retention) then 1 else 0)
  {
  }

  /** The segments that time retention drops are exactly the expired ones if and only if no
      expired segment follows one that has not expired. */
  lemma {:induction false} DropsExactlyExpiredIff(v: seq<SegView>, k: nat, modTimes: map<nat, int>, now: int,
                                                  retention: int)
    requires k <= |v|
    ensures var c := ExpiredCount(v, k, modTimes, now, retention);
            (forall i :: 0 <= i < k ==> (i < c <==> Expired(v[i], modTimes, now, retention))) <==>
            (forall i, j :: 0 <= i < j < k && Expired(v[j], modTimes, now, retention) ==>
                            Expired(v[i], modTimes, now, retention))
  {
    if forall i, j :: 0 <= i < j < k && Expired(v[j], modTimes, now, retention) ==>
                      Expired(v[i], modTimes, now, retention) {
      CountOfPrefix(v, k, modTimes, now, retention);
    }
  }

  lemma {:induction false} CountOfPrefix(v: seq<SegView>, k: nat, modTimes: map<nat, int>, now: int,
                                         retention: int)
    requires k <= |v|
    requires forall i, j :: 0 <= i < j < k && Expired(v[j], modTimes, now, retention) ==>
                            Expired(v[i], modTimes, now, retention)
    ensures var c := ExpiredCount(v, k, modTimes, now, retention);
            forall i :: 0 <= i < k ==> (i < c <==> Expired(v[i], modTimes, now, retention))
  {
    hide Expired;
    if k > 0 {
      CountOfPrefix(v, k - 1, modTimes, now, retention);
      if Expired(v[k - 1], modTimes, now, retention) && k > 1 {
        assert forall i :: 0 <= i < k - 1 ==> Expired(v[i], modTimes, now, retention);
        assert Expired(v[k - 2], modTimes, now, retention);
      }
    }
  }

  const OLD := SegView(0, 1, [Record(0, 0, None, None)])
  const NEWER := SegView(1, 2, [Record(1, 0, None, None)])
  const OUT_OF_ORDER := [OLD, NEWER, SegView(2, 2, [])]

  /** When the second file carries the older modification time, as after restoring files in
      another order, the first segment is removed although it has not expired and the
      expired one stays. */
  lemma UnexpiredRemovedExpiredStays()
    ensures var times: map<nat, int> := map[0 := 100, 1 := 0];
            && LogWF(OUT_OF_ORDER)
            && ExpiredCount(OUT_OF_ORDER, 2, times, 200, 150) == 1
            && !Expired(OUT_OF_ORDER[0], times, 200, 150) && Expired(OUT_OF_ORDER[1], times, 200, 150)
            && OUT_OF_ORDER[1..] == [NEWER, SegView(2, 2, [])]
  {
    hide LogWF, Encode;
    var times: map<nat, int> := map[0 := 100, 1 := 0];
    OutOfOrderWF();
    CountNone(OUT_OF_ORDER, times, 200, 150);
    CountStep(OUT_OF_ORDER, 0, times, 200, 150);
    CountStep(OUT_OF_ORDER, 1, times, 200, 150);
  }

  lemma OutOfOrderWF()
    ensures LogWF(OUT_OF_ORDER)
  {
    assert forall i, j :: 0 <= i < j < 3 ==> Before(OUT_OF_ORDER[i], OUT_OF_ORDER[j]);
  }

  /** Files written oldest first, as a log writes them, satisfy that condition. */
  lemma {:induction false} OrderedTimesDropExpired(v: seq<SegView>, k: nat, modTimes: map<nat, int>, now: int,
                                                   retention: int)
    requires k <= |v| && forall i :: 0 <= i < k ==> v[i].base in modTimes
    requires forall i, j :: 0 <= i < j < k ==> modTimes[v[i].base] <= modTimes[v[j].base]
    ensures var c := ExpiredCount(v, k, modTimes, now, retention);
            forall i :: 0 <= i < k ==> (i < c <==> Expired(v[i], modTimes, now, retention))
  {
    CountOfPrefix(v, k, modTimes, now, retention);
  }
}
