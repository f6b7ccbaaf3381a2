/** Replication: follower log end offsets and the high watermark
    (internal/replication/replica_manager.go). */
module Replication {
  import opened Decimal

  /** `replicas` maps a broker to its log end offset. */
  datatype PartitionState = PartitionState(replicas: map<int, int>, isr: seq<int>, hw: int)

  datatype Report = Report(follower: int, leo: int)

  function Max(a: int, b: int): int { if a >= b then a else b }

  /** The log end offsets of the in-sync replicas that are known, in list order. */
  function Known(isr: seq<int>, replicas: map<int, int>): seq<int>
  {
    if isr == [] then []
    else
      var id := isr[|isr| - 1];
      Known(isr[..|isr| - 1], replicas) + (if id in replicas then [replicas[id]] else [])
  }

  /** The minimum loop with its sentinel: -1 means "nothing seen yet", so an offset of -1
      makes the next one be taken whatever it is. */
  function Scan(xs: seq<int>): int
  {
    if xs == [] then -1
    else
      var s, x := Scan(xs[..|xs| - 1]), xs[|xs| - 1];
      if s == -1 || x < s then x else s
  }

  function MinOf(xs: seq<int>): (m: int)
    requires xs != []
    ensures m in xs && forall i :: 0 <= i < |xs| ==> m <= xs[i]
  {
    var x := xs[|xs| - 1];
    if |xs| == 1 then x
    else
      var m := MinOf(xs[..|xs| - 1]);
      if x < m then x else m
  }

  lemma {:induction false} ScanCases(xs: seq<int>)
    requires xs != []
    ensures MinOf(xs) != -1 ==> Scan(xs) == MinOf(xs)
    ensures MinOf(xs) == -1 ==> Scan(xs) >= -1 && (Scan(xs) == -1 <==> xs[|xs| - 1] == -1)
  {
    if |xs| > 1 {
      ScanCases(xs[..|xs| - 1]);
    }
  }

  /** The loop computes the minimum exactly when the minimum is not the sentinel, or the last
      offset looked at is. */
  lemma ScanIsMinimumIff(xs: seq<int>)
    requires xs != []
    ensures Scan(xs) == MinOf(xs) <==> MinOf(xs) != -1 || xs[|xs| - 1] == -1
  {
    ScanCases(xs);
  }

  /** A sentinel in the list makes the loop start over: what lies before it is forgotten. */
  lemma {:induction false} ScanStartsOver(a: seq<int>, b: seq<int>)
    requires (forall i :: 0 <= i < |a| ==> a[i] >= -1) && b != [] && (forall i :: 0 <= i < |b| ==> b[i] > -1)
    ensures Scan(a + [-1] + b) == MinOf(b)
  {
    var xs, n := a + [-1] + b, |b| - 1;
    assert xs[..|xs| - 1] == a + [-1] + b[..n];
    if n == 0 {
      assert xs[..|xs| - 1] == a + [-1];
      ScanCases(a + [-1]);
    } else {
      ScanStartsOver(a, b[..n]);
    }
  }

  lemma SentinelHidesMinimum()
    ensures Scan([-1, 5]) == 5 && MinOf([-1, 5]) == -1
  {
    ScanStartsOver([], [5]);
    assert [] + [-1] + [5] == [-1, 5];
    assert [-1, 5][0] == -1;
  }

  /** One report: the replica's offset is replaced and the watermark raised to the minimum
      of the in-sync offsets if that is higher.  A report from an unknown replica is refused. */
  function Reported(ps: PartitionState, r: Report): PartitionState
  {
    if r.follower !in ps.replicas then ps
    else
      var replicas := ps.replicas[r.follower := r.leo];
      PartitionState(replicas, ps.isr, Max(ps.hw, Scan(Known(ps.isr, replicas))))
  }

  /** What the sentinel does to a report: the watermark becomes the maximum of its old value
      and the in-sync minimum, exactly unless the minimum is -1, the last offset is not, and
      the loop's result lies above the old watermark.  It is then above the minimum. */
  lemma ReportedIsMinimumIff(ps: PartitionState, r: Report)
    requires r.follower in ps.replicas && Known(ps.isr, ps.replicas[r.follower := r.leo]) != []
    ensures var xs, hw := Known(ps.isr, ps.replicas[r.follower := r.leo]), Reported(ps, r).hw;
            && (hw == Max(ps.hw, MinOf(xs)) <==>
                MinOf(xs) != -1 || xs[|xs| - 1] == -1 || Scan(xs) <= ps.hw)
            && (hw != Max(ps.hw, MinOf(xs)) ==> hw > MinOf(xs) == -1 && hw > ps.hw)
  {
    hide Known, Scan, MinOf;
    ScanCases(Known(ps.isr, ps.replicas[r.follower := r.leo]));
  }

  /** Replica 2 reports 5 and then replica 1 reports -1: the watermark rises to 5 although
      replica 1, which is in sync, is at -1. */
  lemma WatermarkAboveInSyncMinimum()
    ensures var ps := PartitionState(map[1 := 0, 2 := 0], [1, 2], 0);
            var qs := AllReported(ps, [Report(2, 5), Report(1, -1)]);
            qs.hw == 5 && qs.isr == [1, 2] && qs.replicas[1] == -1
  {
    hide Scan;
    var ps := PartitionState(map[1 := 0, 2 := 0], [1, 2], 0);
    var mid := Reported(ps, Report(2, 5));
    TwoKnown(0, 5);
    TwoKnown(-1, 5);
    SentinelHidesMinimum();
    ScanCases([0, 5]);
    assert [0, 5][0] == 0;
    assert mid.replicas == map[1 := 0, 2 := 5];
    assert mid.replicas[1 := -1] == map[1 := -1, 2 := 5];
    var rs := [Report(2, 5), Report(1, -1)];
    assert rs[1..] == [Report(1, -1)] && [Report(1, -1)][1..] == [];
  }

  lemma TwoKnown(a: int, b: int)
    ensures Known([1, 2], map[1 := a, 2 := b]) == [a, b]
  {
    var m := map[1 := a, 2 := b];
    assert [1, 2][..1] == [1] && [1][..0] == [];
    assert Known([1], m) == Known([], m) + [a];
  }

  function AllReported(ps: PartitionState, rs: seq<Report>): PartitionState
    decreases |rs|
  {
    if rs == [] then ps else AllReported(Reported(ps, rs[0]), rs[1..])
  }

  /** The offset last reported for a broker, `start` if there is no report. */
  function LastReport(rs: seq<Report>, broker: int, start: int): int
  {
    if rs == [] then start
    else if rs[|rs| - 1].follower == broker then rs[|rs| - 1].leo
    else LastReport(rs[..|rs| - 1], broker, start)
  }

  /** What a partition knows after any reports: every known replica stands at the offset it
      last reported, lower ones included; nobody enters or leaves, and the in-sync list
      stays. */
  lemma {:induction false} ReplicasStandAtLastReport(ps: PartitionState, rs: seq<Report>)
    ensures var qs := AllReported(ps, rs);
            && qs.isr == ps.isr && qs.replicas.Keys == ps.replicas.Keys
            && forall b :: b in ps.replicas ==> qs.replicas[b] == LastReport(rs, b, ps.replicas[b])
    decreases |rs|
  {
    if rs != [] {
      var qs := Reported(ps, rs[0]);
      ReplicasStandAtLastReport(qs, rs[1..]);
      forall b | b in ps.replicas
        ensures LastReport(rs, b, ps.replicas[b]) == LastReport(rs[1..], b, qs.replicas[b])
      {
        ReportFromFront(rs, b, ps.replicas[b]);
      }
    }
  }

  lemma {:induction false} ReportFromFront(rs: seq<Report>, b: int, start: int)
    requires rs != []
    ensures LastReport(rs, b, start) ==
            LastReport(rs[1..], b, if rs[0].follower == b then rs[0].leo else start)
  {
    if |rs| == 1 {
      assert rs[..0] == [] && rs[1..] == [];
    } else {
      var init := rs[..|rs| - 1];
      ReportFromFront(init, b, start);
      assert rs[1..][..|rs| - 2] == init[1..];
      assert rs[1..][|rs| - 2] == rs[|rs| - 1];
    }
  }

  /** A partition with an in-sync list of known replicas and non-negative offsets. */
  predicate Tracked(ps: PartitionState)
  {
    && ps.isr != []
    && (forall i :: 0 <= i < |ps.isr| ==> ps.isr[i] in ps.replicas)
    && (forall b :: b in ps.replicas ==> ps.replicas[b] >= 0)
  }

  predicate NonNegative(rs: seq<Report>)
  {
    forall i :: 0 <= i < |rs| ==> rs[i].leo >= 0
  }

  /** The least log end offset among the in-sync replicas. */
  ghost function InSyncMin(ps: PartitionState): (m: int)
    requires Tracked(ps)
    ensures forall i :: 0 <= i < |ps.isr| ==> m <= ps.replicas[ps.isr[i]]
    ensures exists i :: 0 <= i < |ps.isr| && m == ps.replicas[ps.isr[i]]
  {
    KnownAll(ps.isr, ps.replicas);
    MinOf(Known(ps.isr, ps.replicas))
  }

  lemma {:induction false} KnownAll(isr: seq<int>, replicas: map<int, int>)
    requires forall i :: 0 <= i < |isr| ==> isr[i] in replicas
    ensures |Known(isr, replicas)| == |isr|
    ensures forall i :: 0 <= i < |isr| ==> Known(isr, replicas)[i] == replicas[isr[i]]
  {
    if isr != [] {
      KnownAll(isr[..|isr| - 1], replicas);
    }
  }

  /** With non-negative offsets the loop finds the in-sync minimum. */
  lemma ScanIsInSyncMin(ps: PartitionState)
    requires Tracked(ps)
    ensures Scan(Known(ps.isr, ps.replicas)) == InSyncMin(ps)
  {
    hide Scan, Known, MinOf;
    KnownAll(ps.isr, ps.replicas);
    var xs := Known(ps.isr, ps.replicas);
    ScanCases(xs);
    var i :| 0 <= i < |xs| && xs[i] == MinOf(xs);
    var b := ps.isr[i];
    assert b in ps.replicas && ps.replicas[b] >= 0;
  }

  lemma ReportedTracked(ps: PartitionState, r: Report)
    requires Tracked(ps) && r.leo >= 0
    ensures var qs := Reported(ps, r);
            && Tracked(qs) && qs.isr == ps.isr && ps.hw <= qs.hw
            && qs.hw == if r.follower in ps.replicas then Max(ps.hw, InSyncMin(qs)) else ps.hw
  {
    hide Scan, Known;
    if r.follower in ps.replicas {
      var qs := PartitionState(ps.replicas[r.follower := r.leo], ps.isr, 0);
      assert Tracked(qs);
      ScanIsInSyncMin(Reported(ps, r));
    }
  }

  /** The highest in-sync minimum in the history of a partition, its present state included. */
  ghost function RunningMax(ps: PartitionState, rs: seq<Report>): int
    requires Tracked(ps) && NonNegative(rs)
    decreases |rs|
  {
    if rs == [] then InSyncMin(ps)
    else
      ReportedTracked(ps, rs[0]);
      Max(InSyncMin(ps), RunningMax(Reported(ps, rs[0]), rs[1..]))
  }

  /** With non-negative reports the high watermark is the running maximum of the in-sync
      minimum over the whole history, and so it never goes down. */
  lemma {:induction false} WatermarkIsRunningMax(ps: PartitionState, rs: seq<Report>)
    requires Tracked(ps) && NonNegative(rs) && InSyncMin(ps) <= ps.hw
    ensures AllReported(ps, rs).hw == Max(ps.hw, RunningMax(ps, rs))
    decreases |rs|
  {
    hide Reported, InSyncMin;
    if rs != [] {
      ReportedTracked(ps, rs[0]);
      if rs[0].follower !in ps.replicas {
        UnchangedMin(ps, rs[0]);
      }
      WatermarkIsRunningMax(Reported(ps, rs[0]), rs[1..]);
      RunningMaxCoversNow(Reported(ps, rs[0]), rs[1..]);
    }
  }

  lemma UnchangedMin(ps: PartitionState, r: Report)
    requires Tracked(ps) && Tracked(Reported(ps, r)) && r.follower !in ps.replicas
    ensures InSyncMin(Reported(ps, r)) == InSyncMin(ps)
  {
  }

  lemma RunningMaxCoversNow(ps: PartitionState, rs: seq<Report>)
    requires Tracked(ps) && NonNegative(rs)
    ensures InSyncMin(ps) <= RunningMax(ps, rs)
  {
    hide InSyncMin, Reported;
  }

  /** Every replica reports non-decreasing offsets. */
  predicate Advancing(ps: PartitionState, rs: seq<Report>)
    decreases |rs|
  {
    rs == [] ||
    ((rs[0].follower in ps.replicas ==> ps.replicas[rs[0].follower] <= rs[0].leo) &&
     Advancing(Reported(ps, rs[0]), rs[1..]))
  }

  lemma MinAdvances(ps: PartitionState, qs: PartitionState)
    requires Tracked(ps) && Tracked(qs) && ps.isr == qs.isr
    requires forall i :: 0 <= i < |ps.isr| ==> ps.replicas[ps.isr[i]] <= qs.replicas[qs.isr[i]]
    ensures InSyncMin(ps) <= InSyncMin(qs)
  {
    hide InSyncMin;
  }

  /** If no replica ever reports a lower offset than before, the high watermark is the
      current in-sync minimum. */
  lemma {:induction false} WatermarkIsCurrentMin(ps: PartitionState, rs: seq<Report>)
    requires Tracked(ps) && NonNegative(rs) && Advancing(ps, rs) && ps.hw == InSyncMin(ps)
    ensures Tracked(AllReported(ps, rs)) && AllReported(ps, rs).hw == InSyncMin(AllReported(ps, rs))
    decreases |rs|
  {
    hide InSyncMin;
    if rs != [] {
      var qs := Reported(ps, rs[0]);
      ReportedTracked(ps, rs[0]);
      MinAdvances(ps, qs);
      WatermarkIsCurrentMin(qs, rs[1..]);
    }
  }

  /** A fresh partition starts with every offset and the watermark at 0. */
  lemma FreshWatermark(ps: PartitionState)
    requires Tracked(ps) && ps.hw == 0 && forall b :: b in ps.replicas ==> ps.replicas[b] == 0
    ensures InSyncMin(ps) == ps.hw
  {
    hide InSyncMin;
    var i :| 0 <= i < |ps.isr| && InSyncMin(ps) == ps.replicas[ps.isr[i]];
    var b := ps.isr[i];
    assert b in ps.replicas && ps.replicas[b] == 0;
  }

  /** A partition as `CreatePartition` starts it: every replica in sync at offset 0. */
  function Fresh(replicaIds: seq<int>): PartitionState
  {
    PartitionState(map id | id in replicaIds :: 0, replicaIds, 0)
  }

  lemma AllAtZero(replicas: map<int, int>, replicaIds: seq<int>)
    requires forall b :: b in replicas <==> b in replicaIds
    requires forall b :: b in replicas ==> replicas[b] == 0
    ensures replicas == Fresh(replicaIds).replicas
  {
    var zero := Fresh(replicaIds).replicas;
    forall b
      ensures b in replicas <==> b in zero
    {
    }
    assert replicas.Keys == zero.Keys;
    assert forall b :: b in zero ==> zero[b] == replicas[b];
    assert replicas == zero;
  }

  class ReplicaManager {
    var partitions: map<string, PartitionState>

    constructor ()
      ensures partitions == map[]
    {
      partitions := map[];
    }

    /** `CreatePartition`: keeps an existing partition, otherwise every replica starts in sync
        at offset 0. */
    method CreatePartition(topic: string, partitionId: int, replicaIds: seq<int>)
      modifies this
      ensures var key := PartitionKey(topic, partitionId);
              if key in old(partitions) then partitions == old(partitions)
              else
                && partitions == old(partitions)[key := Fresh(replicaIds)]
                && partitions[key].isr == replicaIds && partitions[key].hw == 0
                && (forall b :: b in partitions[key].replicas <==> b in replicaIds)
                && (forall b :: b in partitions[key].replicas ==> partitions[key].replicas[b] == 0)
                && (replicaIds != [] ==> Tracked(Fresh(replicaIds)))
    {
      var key := PartitionKey(topic, partitionId);
      if key in partitions {
        return;
      }
      var replicas: map<int, int> := map[];
      for i := 0 to |replicaIds|
        invariant forall b :: b in replicas <==> b in replicaIds[..i]
        invariant forall b :: b in replicas ==> replicas[b] == 0
      {
        replicas := replicas[replicaIds[i] := 0];
        assert replicaIds[..i + 1] == replicaIds[..i] + [replicaIds[i]];
      }
      assert replicaIds[..|replicaIds|] == replicaIds;
      AllAtZero(replicas, replicaIds);
      partitions := partitions[key := PartitionState(replicas, replicaIds, 0)];
    }

    /** `UpdateFollowerLEO`. */
    method UpdateFollowerLEO(topic: string, partitionId: int, followerId: int, leo: int)
      returns (hw: int, ok: bool)
      modifies this
      ensures var key := PartitionKey(topic, partitionId);
              if key !in old(partitions) then partitions == old(partitions) && hw == 0 && !ok
              else
                && partitions == old(partitions)[key := Reported(old(partitions)[key], Report(followerId, leo))]
                && hw == partitions[key].hw
                && ok == (followerId in old(partitions)[key].replicas)
    {
      hide PartitionKey, Known, Scan;
      var key := PartitionKey(topic, partitionId);
      if key !in partitions {
        return 0, false;
      }
      var ps := partitions[key];
      if followerId !in ps.replicas {
        assert partitions == partitions[key := ps];
        return ps.hw, false;
      }
      var replicas := ps.replicas[followerId := leo];
      var minISRLEO := LeastOffset(ps.isr, replicas);
      var watermark := ps.hw;
      if minISRLEO > watermark {
        watermark := minISRLEO;
      }
      partitions := partitions[key := PartitionState(replicas, ps.isr, watermark)];
      return watermark, true;
    }

    method GetHighWatermark(topic: string, partitionId: int) returns (hw: int)
      ensures var key := PartitionKey(topic, partitionId);
              hw == if key in partitions then partitions[key].hw else 0
    {
      var key := PartitionKey(topic, partitionId);
      hw := if key in partitions then partitions[key].hw else 0;
    }
  }

  /** What a manager answers after it has created a partition and taken any reports: with
      non-negative offsets the highest in-sync minimum there has ever been. */
  method WatermarkAfterReports(topic: string, partitionId: int, replicaIds: seq<int>, rs: seq<Report>)
    returns (hw: int)
    ensures hw == AllReported(Fresh(replicaIds), rs).hw
    ensures replicaIds != [] && NonNegative(rs) ==>
              Tracked(Fresh(replicaIds)) && hw == RunningMax(Fresh(replicaIds), rs)
  {
    hide PartitionKey, Reported, AllReported;
    ghost var ps := Fresh(replicaIds);
    var manager := new ReplicaManager();
    manager.CreatePartition(topic, partitionId, replicaIds);
    ghost var key := PartitionKey(topic, partitionId);
    assert rs[0..] == rs;
    for i := 0 to |rs|
      invariant key in manager.partitions
      invariant AllReported(ps, rs) == AllReported(manager.partitions[key], rs[i..])
    {
      ReportsStep(manager.partitions[key], rs, i);
      var _, _ := manager.UpdateFollowerLEO(topic, partitionId, rs[i].follower, rs[i].leo);
    }
    assert rs[|rs|..] == [];
    NoReports(manager.partitions[key]);
    hw := manager.GetHighWatermark(topic, partitionId);
    if replicaIds != [] && NonNegative(rs) {
      FreshRunningMax(replicaIds, rs);
    }
  }

  lemma FreshRunningMax(replicaIds: seq<int>, rs: seq<Report>)
    requires replicaIds != [] && NonNegative(rs)
    ensures Tracked(Fresh(replicaIds))
    ensures AllReported(Fresh(replicaIds), rs).hw == RunningMax(Fresh(replicaIds), rs)
  {
    hide InSyncMin, AllReported, RunningMax;
    var ps := Fresh(replicaIds);
    FreshWatermark(ps);
    WatermarkIsRunningMax(ps, rs);
    RunningMaxCoversNow(ps, rs);
  }

  lemma ReportsStep(ps: PartitionState, rs: seq<Report>, i: nat)
    requires i < |rs|
    ensures AllReported(ps, rs[i..]) == AllReported(Reported(ps, rs[i]), rs[i + 1..])
  {
    hide Reported;
    assert rs[i..][1..] == rs[i + 1..];
  }

  lemma NoReports(ps: PartitionState)
    ensures AllReported(ps, []) == ps
  {
  }

  /** The minimum loop. */
  method LeastOffset(isr: seq<int>, replicas: map<int, int>) returns (least: int)
    ensures least == Scan(Known(isr, replicas))
  {
    hide Scan, Known;
    least := -1;
    ScanNothing(isr, replicas);
    for i := 0 to |isr|
      invariant least == Scan(Known(isr[..i], replicas))
    {
      ScanStep(isr, replicas, i);
      if isr[i] in replicas {
        if least == -1 || replicas[isr[i]] < least {
          least := replicas[isr[i]];
        }
      }
    }
    assert isr[..|isr|] == isr;
  }

  lemma ScanNothing(isr: seq<int>, replicas: map<int, int>)
    ensures Scan(Known(isr[..0], replicas)) == -1
  {
  }

  lemma ScanStep(isr: seq<int>, replicas: map<int, int>, i: nat)
    requires i < |isr|
    ensures var s, id := Scan(Known(isr[..i], replicas)), isr[i];
            Scan(Known(isr[..i + 1], replicas)) ==
              if id in replicas && (s == -1 || replicas[id] < s) then replicas[id] else s
  {
    var xs, id := Known(isr[..i], replicas), isr[i];
    assert isr[..i + 1][..i] == isr[..i];
    if id in replicas {
      assert (xs + [replicas[id]])[..|xs|] == xs;
    } else {
      assert xs + [] == xs;
    }
  }
}
