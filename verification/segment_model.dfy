/** The relation between a segment's log bytes, the records in them and its sparse
    index.  Entry `j` of the index points at record `slots[j]`; a slot equal to the
    number of records is an entry whose record was never written (the index entry
    goes to disk before the record, internal/storage/segment.go:80-92). */
module SegmentModel {
  import opened Bytes
  import opened Records
  import opened Streams
  import opened Indexes

  ghost predicate Anchored(e: Entry, slot: nat, recs: seq<Record>, next: int)
  {
    && slot <= |recs|
    && e.position == Pos(recs, slot)
    && (slot < |recs| ==> e.offset == recs[slot].offset)
    && (slot == |recs| ==> e.offset == next && AllBelow(recs, next))
  }

  predicate Ascending(slots: seq<nat>)
  {
    forall i, j :: 0 <= i < j < |slots| ==> slots[i] <= slots[j]
  }

  ghost predicate IndexMatches(es: seq<Entry>, slots: seq<nat>, recs: seq<Record>, next: int)
  {
    && |es| == |slots|
    && Ascending(slots)
    && forall j :: 0 <= j < |es| ==> Anchored(es[j], slots[j], recs, next)
  }

  predicate NoDangling(slots: seq<nat>, n: nat)
  {
    forall j :: 0 <= j < |slots| ==> slots[j] < n
  }

  /** How many leading slots are at or below record `k`. */
  function Floor(slots: seq<nat>, k: nat): (n: nat)
    ensures n <= |slots|
  {
    if slots == [] then 0
    else if slots[|slots| - 1] <= k then |slots|
    else Floor(slots[..|slots| - 1], k)
  }

  function Gap(interval: int): (g: int)
    ensures g > 0 && (interval > 0 ==> g == interval)
  {
    if interval > 0 then interval else 1
  }

  /** Record `k` has an indexed record less than the gap before it. */
  ghost predicate Near(slots: seq<nat>, recs: seq<Record>, k: nat, interval: int)
    requires k < |recs|
  {
    var n := Floor(slots, k);
    && n > 0
    && slots[n - 1] <= k
    && Pos(recs, k) - Pos(recs, slots[n - 1]) < Gap(interval)
  }

  ghost predicate Dense(slots: seq<nat>, recs: seq<Record>, interval: int)
  {
    forall k :: 0 <= k < |recs| ==> Near(slots, recs, k, interval)
  }

  /** `lastIndexBytes` never runs ahead of the last entry; recovery leaves it at 0. */
  ghost predicate Paced(slots: seq<nat>, recs: seq<Record>, lastIndexBytes: int)
  {
    slots != [] ==>
      slots[|slots| - 1] <= |recs| && lastIndexBytes <= Pos(recs, slots[|slots| - 1])
  }

  ghost predicate IndexOk(es: seq<Entry>, slots: seq<nat>, recs: seq<Record>, next: int, interval: int)
  {
    IndexMatches(es, slots, recs, next) && Dense(slots, recs, interval)
  }

  ghost predicate LogOk(base: nat, recs: seq<Record>, tail: seq<byte>, bytes: seq<byte>)
  {
    && AllFit(recs)
    && Increasing(recs)
    && AllFrom(recs, base)
    && bytes == EncodeAll(recs) + tail
    && Decode(tail).Ended?
    && |EncodeAll(recs)| < TWO_63
  }

  // ------------------------------------------------------------- searching

  lemma EntriesSorted(es: seq<Entry>, slots: seq<nat>, recs: seq<Record>, next: int)
    requires IndexMatches(es, slots, recs, next) && Increasing(recs)
    ensures Sorted(es)
  {
    hide Pos;
    forall i, j | 0 <= i < j < |es|
      ensures es[i].offset <= es[j].offset
    {
      assert slots[i] <= slots[j];
      assert Anchored(es[i], slots[i], recs, next) && Anchored(es[j], slots[j], recs, next);
    }
  }

  /** The record at which a lookup makes the reader start. */
  function StartSlot(es: seq<Entry>, slots: seq<nat>, target: int): nat
    requires |es| == |slots|
  {
    var n := Covered(es, target);
    if n == 0 then 0 else slots[n - 1]
  }

  lemma {:induction false} CoveredBound(es: seq<Entry>, target: int)
    ensures var n := Covered(es, target); n > 0 ==> es[n - 1].offset <= target
  {
    if es != [] && es[|es| - 1].offset > target {
      CoveredBound(es[..|es| - 1], target);
    }
  }

  /** A lookup never starts the reader inside a record or past one it should return. */
  lemma LookupIsBoundary(es: seq<Entry>, slots: seq<nat>, recs: seq<Record>, next: int, target: int)
    requires IndexMatches(es, slots, recs, next) && Increasing(recs)
    ensures var b := StartSlot(es, slots, target);
            b <= |recs| && LookupIn(es, target) == Pos(recs, b) && AllBelow(recs[..b], target)
  {
    hide Encode;
    var n := Covered(es, target);
    CoveredBound(es, target);
    if n == 0 {
      assert recs[..0] == [];
    } else {
      assert Anchored(es[n - 1], slots[n - 1], recs, next);
    }
  }

  lemma {:induction false} FloorBound(slots: seq<nat>, k: nat)
    requires Ascending(slots)
    ensures var n := Floor(slots, k);
            && (n > 0 ==> slots[n - 1] <= k)
            && (forall j :: n <= j < |slots| ==> slots[j] > k)
  {
    if slots != [] && slots[|slots| - 1] > k {
      FloorBound(slots[..|slots| - 1], k);
    }
  }

  /** Looking up the offset of record `k` finds the closest indexed record before it. */
  lemma LookupFindsFloor(es: seq<Entry>, slots: seq<nat>, recs: seq<Record>, next: int, k: nat)
    requires IndexMatches(es, slots, recs, next) && Increasing(recs) && k < |recs|
    ensures Covered(es, recs[k].offset) == Floor(slots, k)
  {
    hide Pos;
    var n := Floor(slots, k);
    FloorBound(slots, k);
    if n > 0 {
      assert Anchored(es[n - 1], slots[n - 1], recs, next);
    }
    forall j | n <= j < |es|
      ensures es[j].offset > recs[k].offset
    {
      assert Anchored(es[j], slots[j], recs, next) && slots[j] > k;
    }
    CoveredIs(es, recs[k].offset, n);
  }

  /** The index gap: a lookup of a stored offset lands on a record boundary at or before
      that record and less than the index interval away from it. */
  lemma LookupGap(es: seq<Entry>, slots: seq<nat>, recs: seq<Record>, next: int, interval: int, k: nat)
    requires IndexOk(es, slots, recs, next, interval) && Increasing(recs) && k < |recs|
    ensures var b := StartSlot(es, slots, recs[k].offset);
            && b <= k
            && LookupIn(es, recs[k].offset) == Pos(recs, b) <= Pos(recs, k)
            && Pos(recs, k) - Pos(recs, b) < Gap(interval)
  {
    hide Pos;
    LookupFindsFloor(es, slots, recs, next, k);
    LookupIsBoundary(es, slots, recs, next, recs[k].offset);
    assert Near(slots, recs, k, interval);
    PosMonotone(recs, StartSlot(es, slots, recs[k].offset), k);
  }

  lemma {:induction false} CoveredMonotone(es: seq<Entry>, low: int, high: int)
    requires low <= high
    ensures Covered(es, low) <= Covered(es, high)
  {
    if es != [] && es[|es| - 1].offset > high {
      CoveredMonotone(es[..|es| - 1], low, high);
    }
  }

  /** A lookup of any offset, stored or not, starts less than the index interval before the
      last record at or below it. */
  lemma LookupNearBefore(es: seq<Entry>, slots: seq<nat>, recs: seq<Record>, next: int, interval: int,
                         target: int, k: nat)
    requires IndexOk(es, slots, recs, next, interval) && Increasing(recs)
    requires k < |recs| && recs[k].offset <= target && StartSlot(es, slots, target) <= |recs|
    ensures Pos(recs, k) - Pos(recs, StartSlot(es, slots, target)) < Gap(interval)
  {
    hide Pos, Dense, Increasing, Anchored;
    var b, c := StartSlot(es, slots, recs[k].offset), StartSlot(es, slots, target);
    LookupGap(es, slots, recs, next, interval, k);
    CoveredMonotone(es, recs[k].offset, target);
    assert b <= c;
    PosMonotone(recs, b, c);
  }

  /** A start below the whole segment makes the reader begin at its first byte. */
  lemma LowTargetStartsAtZero(es: seq<Entry>, slots: seq<nat>, recs: seq<Record>, next: int, base: int, target: int)
    requires IndexMatches(es, slots, recs, next) && AllFrom(recs, base) && target < base <= next
    ensures StartSlot(es, slots, target) == 0
  {
    hide Pos;
    CoveredBound(es, target);
    assert forall j :: 0 <= j < |es| ==> Anchored(es[j], slots[j], recs, next);
  }

  // --------------------------------------------------------------- growing

  lemma StillAnchored(e: Entry, slot: nat, recs: seq<Record>, r: Record, next: int, next': int)
    requires Anchored(e, slot, recs, next)
    requires slot == |recs| ==> r.offset == next
    ensures Anchored(e, slot, recs + [r], next')
  {
    hide Pos;
    PosOfPrefix(recs, [r], slot);
  }

  lemma GrowPlain(es: seq<Entry>, slots: seq<nat>, recs: seq<Record>, r: Record, next: int, next': int)
    requires IndexMatches(es, slots, recs, next)
    requires NoDangling(slots, |recs|) || r.offset == next
    ensures IndexMatches(es, slots, recs + [r], next')
  {
    hide Anchored;
    forall j | 0 <= j < |es|
      ensures Anchored(es[j], slots[j], recs + [r], next')
    {
      StillAnchored(es[j], slots[j], recs, r, next, next');
    }
  }

  /** Writing the index entry ahead of the record leaves a dangling entry behind the
      last record, and the index stays in order. */
  lemma EntryAhead(es: seq<Entry>, slots: seq<nat>, recs: seq<Record>, next: uint64)
    requires IndexMatches(es, slots, recs, next)
    requires AllBelow(recs, next) && |EncodeAll(recs)| < TWO_63
    ensures IndexMatches(es + [Entry(next, |EncodeAll(recs)|)], slots + [|recs|], recs, next)
  {
    hide EncodeAll;
    PosEnd(recs);
    var es', slots' := es + [Entry(next, |EncodeAll(recs)|)], slots + [|recs|];
    forall j | 0 <= j < |es'|
      ensures slots'[j] <= |recs| && Anchored(es'[j], slots'[j], recs, next)
    {
      if j < |es| {
        assert Anchored(es[j], slots[j], recs, next);
      }
    }
  }

  lemma {:induction false} FloorGrows(slots: seq<nat>, n: nat, k: nat)
    requires Ascending(slots) && (forall j :: 0 <= j < |slots| ==> slots[j] <= n)
    ensures k < n ==> Floor(slots + [n], k) == Floor(slots, k)
    ensures k >= n ==> Floor(slots + [n], k) == |slots| + 1
    ensures k >= n ==> Floor(slots, k) == |slots|
  {
    assert (slots + [n])[..|slots|] == slots;
  }

  lemma StillNear(slots: seq<nat>, slots': seq<nat>, recs: seq<Record>, more: seq<Record>, k: nat, interval: int)
    requires k < |recs| && Near(slots, recs, k, interval)
    requires Floor(slots', k) == Floor(slots, k) && slots <= slots'
    ensures Near(slots', recs + more, k, interval)
  {
    hide Pos;
    PosOfPrefix(recs, more, k);
    PosOfPrefix(recs, more, slots[Floor(slots, k) - 1]);
  }

  lemma DenseAhead(slots: seq<nat>, recs: seq<Record>, interval: int)
    requires Ascending(slots) && (forall j :: 0 <= j < |slots| ==> slots[j] <= |recs|)
    requires Dense(slots, recs, interval)
    ensures Dense(slots + [|recs|], recs, interval)
  {
    hide Pos, Near, Floor;
    var slots' := slots + [|recs|];
    forall k | 0 <= k < |recs|
      ensures Near(slots', recs, k, interval)
    {
      FloorGrows(slots, |recs|, k);
      assert recs + [] == recs;
      StillNear(slots, slots', recs, [], k, interval);
    }
  }

  /** Leaving a record out of the index keeps it dense as long as less than the
      interval has been written since the last entry. */
  lemma DensePlain(slots: seq<nat>, recs: seq<Record>, r: Record, interval: int)
    requires Ascending(slots) && (forall j :: 0 <= j < |slots| ==> slots[j] <= |recs|)
    requires Dense(slots, recs, interval)
    requires slots != [] && |EncodeAll(recs)| - Pos(recs, slots[|slots| - 1]) < Gap(interval)
    ensures Dense(slots, recs + [r], interval)
  {
    hide Pos, Near, EncodeAll;
    var recs' := recs + [r];
    forall k | 0 <= k < |recs'|
      ensures Near(slots, recs', k, interval)
    {
      if k < |recs| {
        StillNear(slots, slots, recs, [r], k, interval);
      } else {
        FloorGrows(slots, |recs|, k);
        NearLast(slots, recs, r, interval);
      }
    }
  }

  lemma NearLast(slots: seq<nat>, recs: seq<Record>, r: Record, interval: int)
    requires slots != [] && slots[|slots| - 1] <= |recs|
    requires |EncodeAll(recs)| - Pos(recs, slots[|slots| - 1]) < Gap(interval)
    requires Floor(slots, |recs|) == |slots|
    ensures Near(slots, recs + [r], |recs|, interval)
  {
    hide Pos, EncodeAll;
    PosOfPrefix(recs, [r], |recs|);
    PosEnd(recs);
    PosOfPrefix(recs, [r], slots[|slots| - 1]);
  }

  /** When records are present the dense index is not empty. */
  lemma DenseNonEmpty(slots: seq<nat>, recs: seq<Record>, interval: int)
    requires Dense(slots, recs, interval) && recs != []
    ensures slots != []
  {
    hide Pos;
    assert Near(slots, recs, 0, interval);
  }

  /** The index step that writes an entry. */
  lemma IndexWritten(es: seq<Entry>, slots: seq<nat>, recs: seq<Record>, next: uint64, interval: int)
    requires IndexOk(es, slots, recs, next, interval)
    requires AllBelow(recs, next) && |EncodeAll(recs)| < TWO_63
    ensures IndexOk(es + [Entry(next, |EncodeAll(recs)|)], slots + [|recs|], recs, next, interval)
    ensures Pos(recs, |recs|) == |EncodeAll(recs)|
  {
    hide Pos, EncodeAll, Dense, Anchored;
    SlotsInRange(es, slots, recs, next);
    PosEnd(recs);
    EntryAhead(es, slots, recs, next);
    DenseAhead(slots, recs, interval);
  }

  lemma SlotsInRange(es: seq<Entry>, slots: seq<nat>, recs: seq<Record>, next: int)
    requires IndexMatches(es, slots, recs, next)
    ensures forall j :: 0 <= j < |slots| ==> slots[j] <= |recs|
  {
    hide Pos;
    assert forall j :: 0 <= j < |es| ==> Anchored(es[j], slots[j], recs, next);
  }

  /** The step that then writes the record. */
  lemma RecordWritten(es: seq<Entry>, slots: seq<nat>, recs: seq<Record>, r: Record, next: int, interval: int)
    requires IndexOk(es, slots, recs, r.offset, interval)
    requires slots != [] && slots[|slots| - 1] <= |recs|
    requires |EncodeAll(recs)| - Pos(recs, slots[|slots| - 1]) < Gap(interval)
    ensures IndexOk(es, slots, recs + [r], next, interval)
    ensures NoDangling(slots, |recs| + 1)
    ensures Pos(recs + [r], slots[|slots| - 1]) == Pos(recs, slots[|slots| - 1])
  {
    hide Pos, EncodeAll, Dense, Anchored;
    SlotsInRange(es, slots, recs, r.offset);
    GrowPlain(es, slots, recs, r, r.offset, next);
    DensePlain(slots, recs, r, interval);
    PosOfPrefix(recs, [r], slots[|slots| - 1]);
  }

  /** Without dangling entries the index does not depend on the next offset. */
  lemma NextIrrelevant(es: seq<Entry>, slots: seq<nat>, recs: seq<Record>, next: int, next': int, interval: int)
    requires IndexOk(es, slots, recs, next, interval) && NoDangling(slots, |recs|)
    ensures IndexOk(es, slots, recs, next', interval)
  {
    hide Pos, Dense;
    assert forall j :: 0 <= j < |es| ==> Anchored(es[j], slots[j], recs, next);
    assert forall j :: 0 <= j < |es| ==> Anchored(es[j], slots[j], recs, next');
  }

  // -------------------------------------------------------------- log bytes

  lemma LogGrows(base: nat, recs: seq<Record>, bytes: seq<byte>, r: Record)
    requires LogOk(base, recs, [], bytes)
    requires Fits(r) && AllBelow(recs, r.offset) && base <= r.offset
    requires |EncodeAll(recs)| + |Encode(r)| < TWO_63
    ensures LogOk(base, recs + [r], [], bytes + Encode(r))
    ensures |EncodeAll(recs + [r])| == |EncodeAll(recs)| + |Encode(r)|
  {
    hide Encode, EncodeAll, Fits, Decode;
    EncodeAppend(recs, r);
    assert EncodeAll(recs) + [] == EncodeAll(recs);
    assert EncodeAll(recs + [r]) + [] == EncodeAll(recs + [r]);
  }

  /** From whatever record a scan starts, it finds the records from there on and then what
      the decoder makes of the bytes behind them. */
  ghost predicate ScansAs(bytes: seq<byte>, recs: seq<Record>, behind: seq<byte>)
  {
    forall k :: 0 <= k <= |recs| ==>
      Pos(recs, k) <= |bytes| && ParseAll(bytes[Pos(recs, k)..]) == Prepend(recs[k..], ParseAll(behind))
  }

  lemma ScansBehind(recs: seq<Record>, behind: seq<byte>)
    requires AllFit(recs)
    ensures ScansAs(EncodeAll(recs) + behind, recs, behind)
  {
    hide Pos, EncodeAll, ParseAll, Fits;
    forall k | 0 <= k <= |recs|
      ensures Pos(recs, k) <= |EncodeAll(recs) + behind|
      ensures ParseAll((EncodeAll(recs) + behind)[Pos(recs, k)..]) == Prepend(recs[k..], ParseAll(behind))
    {
      DropAtRecord(recs, behind, k);
      ParseFront(recs[k..], behind);
    }
  }

  /** What an indexed scan for any target finds in such a file. */
  lemma IndexedScan(bytes: seq<byte>, es: seq<Entry>, slots: seq<nat>, recs: seq<Record>, next: int,
                    behind: seq<byte>, target: int)
    requires IndexMatches(es, slots, recs, next) && Increasing(recs) && ScansAs(bytes, recs, behind)
    ensures var b, pos := StartSlot(es, slots, target), LookupIn(es, target);
            && b <= |recs| && AllBelow(recs[..b], target) && 0 <= pos <= |bytes|
            && ParseAll(bytes[pos..]) == Prepend(recs[b..], ParseAll(behind))
  {
    hide Pos, ParseAll, StartSlot, LookupIn, AllBelow, IndexMatches;
    LookupIsBoundary(es, slots, recs, next, target);
  }

  lemma EmptyLog(base: nat)
    ensures LogOk(base, [], [], [])
  {
    NothingLeft();
  }

  /** The size of a record on disk does not depend on its offset. */
  lemma Restamped(r: Record, offset: uint64)
    ensures |Encode(r.(offset := offset))| == |Encode(r)|
    ensures Fits(r.(offset := offset)) == Fits(r)
  {
  }
}
