/** The zero-copy fetch path as bytes: what a client makes of a cut stream
    (internal/storage/partition_log.go:102-131, internal/storage/cleaner.go:229-242). */
module Fetch {
  import opened Bytes
  import opened Seqs
  import opened Records
  import opened Streams
  import opened SegmentModel
  import opened LogModel
  import opened Segments

  /** The send loop: each segment's bytes, as long as the limit lasts. */
  function SendAll(v: seq<SegView>, n: int): seq<byte>
  {
    if v == [] then []
    else
      var first := Cut(EncodeAll(v[0].recs), n);
      first + SendAll(v[1..], n - |first|)
  }

  lemma CutConcat(a: seq<byte>, b: seq<byte>, n: nat)
    ensures Cut(a + b, n) == Cut(a, n) + Cut(b, n - |Cut(a, n)|)
  {
  }

  /** Sending segment by segment under one limit is cutting the whole log once. */
  lemma {:induction false} SendAllIsCut(v: seq<SegView>, n: nat)
    ensures SendAll(v, n) == Cut(EncodeAll(Flatten(v)), n)
  {
    hide EncodeAll, Flatten, Cut;
    UnfoldFlatten(v);
    if v == [] {
      CutNone(n);
    } else {
      var first := Cut(EncodeAll(v[0].recs), n);
      SendAllIsCut(v[1..], n - |first|);
      EncodeConcat(v[0].recs, Flatten(v[1..]));
      CutConcat(EncodeAll(v[0].recs), EncodeAll(Flatten(v[1..])), n);
    }
  }

  lemma CutNone(n: int)
    ensures Cut(EncodeAll([]), n) == []
  {
  }

  lemma {:induction false} SendNothing(v: seq<SegView>, n: int)
    requires n <= 0
    ensures SendAll(v, n) == []
  {
    hide EncodeAll;
    if v != [] {
      SendNothing(v[1..], n);
    }
  }

  /** Parsing what a limited fetch sent and dropping the offsets below the start gives a
      prefix of what `Read` returns, and all of it when the limit is large enough. */
  lemma FetchIsPrefixOfRead(log: seq<Record>, s: int, start: nat, maxBytes: int) returns (k: nat)
    requires AllFit(log) && start <= |log| && AllBelow(log[..start], s) && maxBytes > 0
    ensures k <= |log[start..]|
    ensures ParseAll(Cut(EncodeAll(log[start..]), maxBytes)) == Stream(log[start..][..k])
    ensures From(log[start..][..k], s) <= From(log, s)
    ensures maxBytes >= |EncodeAll(log[start..])| ==> From(log[start..][..k], s) == From(log, s)
    ensures Pos(log[start..], k) <= maxBytes
    ensures k < |log[start..]| ==> maxBytes < Pos(log[start..], k + 1)
  {
    hide EncodeAll, Fits, From, ParseAll, Whole, Pos, AllBelow;
    var sub := log[start..];
    var n := if maxBytes < |EncodeAll(sub)| then maxBytes else |EncodeAll(sub)|;
    assert Cut(EncodeAll(sub), maxBytes) == EncodeAll(sub)[..n];
    ParseCut(sub, n);
    WholeBounds(sub, n);
    k := Whole(sub, n);
    FromSkip(log, start, s);
    FromConcat(sub[..k], sub[k..], s);
    assert sub == sub[..k] + sub[k..];
    PosEnd(sub);
    if maxBytes >= |EncodeAll(sub)| {
      if k < |sub| {
        PosMonotone(sub, k + 1, |sub|);
      }
      assert sub[..k] == sub;
    } else if k < |sub| {
      assert n == maxBytes;
    }
  }

  /** A fetch whose limit covers what lies before a record and the record itself contains
      that whole record. */
  lemma FetchMakesProgress(log: seq<Record>, start: nat, k: nat, maxBytes: int)
    requires AllFit(log) && start <= k < |log|
    requires maxBytes >= |EncodeAll(log[start..k])| + |Encode(log[k])|
    ensures exists n :: n <= |log[start..]| && k - start < n &&
                        ParseAll(Cut(EncodeAll(log[start..]), maxBytes)) == Stream(log[start..][..n])
  {
    hide EncodeAll, Encode, Fits, From, ParseAll, Pos, Cut, AllBelow;
    var sub := log[start..];
    assert AllBelow(log[..start], TWO_64) by { BelowLimit(log[..start]); }
    var n := FetchIsPrefixOfRead(log, TWO_64, start, maxBytes);
    PrefixSize(log, start, k);
    PosStep(sub, k - start);
    if n <= k - start {
      PosMonotone(sub, n + 1, k - start + 1);
      assert false;
    }
  }

  lemma BelowLimit(recs: seq<Record>)
    ensures AllBelow(recs, TWO_64)
  {
  }

  lemma PrefixSize(log: seq<Record>, start: nat, k: nat)
    requires start <= k < |log|
    ensures Pos(log[start..], k - start) == |EncodeAll(log[start..k])|
  {
    hide EncodeAll;
    assert log[start..][..k - start] == log[start..k];
  }

  /** `v` without the records that the index lookup skipped in its first segment. */
  function Trimmed(v: seq<SegView>, start: nat): (w: seq<SegView>)
    requires v != [] && start <= |v[0].recs|
    ensures |w| == |v|
  {
    v[0 := v[0].(recs := v[0].recs[start..])]
  }

  lemma TrimmedPlain(v: seq<SegView>, start: nat)
    requires v != [] && start <= |v[0].recs|
    ensures start <= |Flatten(v)| && Flatten(Trimmed(v, start)) == Flatten(v)[start..]
  {
    hide Flatten;
    UnfoldFlatten(v);
    UnfoldFlatten(Trimmed(v, start));
    assert Trimmed(v, start)[1..] == v[1..];
  }

  /** The starting point of a multi-segment fetch in terms of the plain log. */
  lemma FetchStart(v: seq<SegView>, i: nat, start: nat)
    requires i < |v| && start <= |v[i].recs|
    ensures var at := |Flatten(v[..i])| + start;
            && at <= |Flatten(v)|
            && Flatten(Trimmed(v[i..], start)) == Flatten(v)[at..]
            && Flatten(v)[..at] == Flatten(v[..i]) + v[i].recs[..start]
  {
    hide Flatten;
    FlattenSplit(v, i);
    TrimmedPlain(v[i..], start);
    UnfoldFlatten(v[i..]);
  }

  lemma SendAllStep(v: seq<SegView>, i: nat, n: int)
    requires i <= |v|
    ensures SendAll(v[i..], n) ==
            if i == |v| then []
            else Cut(EncodeAll(v[i].recs), n) + SendAll(v[i + 1..], n - |Cut(EncodeAll(v[i].recs), n)|)
  {
    hide EncodeAll, Cut;
    if i < |v| {
      assert v[i..][1..] == v[i + 1..];
    }
  }

  lemma CutNothing(recs: seq<Record>, n: int)
    requires n <= 0
    ensures Cut(EncodeAll(recs), n) == []
  {
  }

  /** The fetch starts less than the index gap before every later record at or below the
      offset asked for. */
  ghost predicate FetchNear(log: seq<Record>, start: nat, target: int, interval: int)
    requires start <= |log|
  {
    forall k :: start <= k < |log| && log[k].offset <= target ==> |EncodeAll(log[start..k])| < Gap(interval)
  }

  /** Position `at` of the plain log is a good place to start a fetch for `s`.  Where the
      segment that holds `s` extends beyond it, only lower offsets are skipped and the start
      is near; otherwise exactly the later segments follow. */
  ghost predicate StartsWell(v: seq<SegView>, s: int, at: nat, interval: int)
    requires at <= |Flatten(v)|
  {
    var n := Reach(v, s);
    && n > 0
    && (s < v[n - 1].next || Exact(v) ==>
        AllBelow(Flatten(v)[..at], s) && FetchNear(Flatten(v), at, s, interval))
    && (s >= v[n - 1].next ==> Flatten(v)[at..] == Flatten(v[n..]))
  }

  /** The record at which a segment is entered is a good place in the plain log too. */
  lemma FetchFacts(v: seq<SegView>, i: nat, start: nat, s: int, interval: int)
    requires LogWF(v) && i < |v| && start <= |v[i].recs|
    requires v[i].base <= s && (forall j :: i < j < |v| ==> s < v[j].base)
    requires s < v[i].next ==> AllBelow(v[i].recs[..start], s) && StartsNear(v[i].recs, start, s, interval)
    requires s >= v[i].next ==> start == |v[i].recs|
    ensures var at := |Flatten(v[..i])| + start;
            && at <= |Flatten(v)|
            && (s < v[i].next || Exact(v) ==>
                AllBelow(Flatten(v)[..at], s) && FetchNear(Flatten(v), at, s, interval))
            && (s >= v[i].next ==> Flatten(v)[at..] == Flatten(v[i + 1..]))
  {
    hide Flatten, AllOk, Ordered, ActiveOk, EncodeAll, StartsNear, AllBelow, FetchNear, Exact;
    FetchStart(v, i, start);
    if s < v[i].next {
      SkippedBelow(v, i, start, s);
      VisibleNear(v, i, start, s, interval);
    } else {
      BehindSegment(v, i);
      if Exact(v) {
        EndOfSegment(v, i);
        BelowWeaken(v[i].recs, v[i].next, s);
        SkippedBelow(v, i, start, s);
        VisibleNear(v, i, start, s, interval);
      }
    }
  }

  lemma BelowWeaken(recs: seq<Record>, lo: int, hi: int)
    requires AllBelow(recs, lo) && lo <= hi
    ensures AllBelow(recs[..|recs|], hi)
  {
  }

  lemma BehindSegment(v: seq<SegView>, i: nat)
    requires i < |v|
    ensures var at := |Flatten(v[..i])| + |v[i].recs|;
            at <= |Flatten(v)| && Flatten(v)[at..] == Flatten(v[i + 1..])
  {
    hide Flatten;
    SplitAtSegment(v, i);
    DropFirst(Flatten(v[..i]) + v[i].recs, Flatten(v[i + 1..]));
  }

  lemma SkippedBelow(v: seq<SegView>, i: nat, start: nat, s: int)
    requires Ordered(v) && i < |v| && start <= |v[i].recs| && v[i].base <= s && AllBelow(v[i].recs[..start], s)
    ensures var at := |Flatten(v[..i])| + start;
            at <= |Flatten(v)| && AllBelow(Flatten(v)[..at], s)
  {
    hide Flatten, Before;
    FetchStart(v, i, start);
    EarlierSegmentsBelow(v, i + 1, s);
    assert v[..i + 1][..i] == v[..i];
  }

  lemma VisibleNear(v: seq<SegView>, i: nat, start: nat, s: int, interval: int)
    requires LogWF(v) && i < |v| && start <= |v[i].recs|
    requires v[i].base <= s && (forall j :: i < j < |v| ==> s < v[j].base)
    requires start < |v[i].recs| ==> StartsNear(v[i].recs, start, s, interval)
    ensures var at := |Flatten(v[..i])| + start;
            at <= |Flatten(v)| && FetchNear(Flatten(v), at, s, interval)
  {
    hide Flatten, AllOk, Ordered, ActiveOk, EncodeAll, StartsNear;
    FetchStart(v, i, start);
    var at := |Flatten(v[..i])| + start;
    forall k | at <= k < |Flatten(v)| && Flatten(v)[k].offset <= s
      ensures |EncodeAll(Flatten(v)[at..k])| < Gap(interval)
    {
      FoundInSegment(v, i, s, k);
      var k' := k - |Flatten(v[..i])|;
      NearInSegment(v[i].recs, start, s, interval, k');
      SubSlice(Flatten(v), |Flatten(v[..i])|, v[i].recs, start, k');
    }
  }

  lemma NearInSegment(recs: seq<Record>, start: nat, s: int, interval: int, k: nat)
    requires start <= k < |recs| && StartsNear(recs, start, s, interval) && recs[k].offset <= s
    ensures |EncodeAll(recs[start..k])| < Gap(interval)
  {
    hide EncodeAll;
    EncodeSplit(recs[..k], start);
    assert recs[..k][..start] == recs[..start] && recs[..k][start..] == recs[start..k];
  }

  /** What is stored at `s`, or below it behind the earlier segments, lies in the last segment
      that starts at or below `s`; that segment extends beyond it if it knows its end. */
  lemma FoundInSegment(v: seq<SegView>, i: nat, s: int, k: nat)
    requires LogWF(v) && i < |v| && v[i].base <= s
    requires forall j :: i < j < |v| ==> s < v[j].base
    requires k < |Flatten(v)| && Flatten(v)[k].offset <= s
    requires Flatten(v)[k].offset == s || |Flatten(v[..i])| <= k
    ensures var at := |Flatten(v[..i])|;
            && at <= k < at + |v[i].recs| <= |Flatten(v)|
            && Flatten(v)[at..at + |v[i].recs|] == v[i].recs
            && v[i].recs[k - at] == Flatten(v)[k]
            && (Exact(v) ==> Flatten(v)[k].offset < v[i].next)
  {
    hide Flatten, AllOk, ActiveOk, AllBelow, AllFrom, Exact;
    SplitAtSegment(v, i);
    EarlierSegmentsBelow(v, i + 1, s);
    assert v[..i + 1][..i] == v[..i];
    LaterSegmentsAbove(v, i, s);
    InMiddle(Flatten(v[..i]), v[i].recs, Flatten(v[i + 1..]), s, k);
    Middle(Flatten(v[..i]), v[i].recs, Flatten(v[i + 1..]), Flatten(v));
    if Exact(v) {
      EndOfSegment(v, i);
      BelowAt(v[i].recs, v[i].next, k - |Flatten(v[..i])|);
    }
  }

  lemma BelowAt(recs: seq<Record>, s: int, j: nat)
    requires AllBelow(recs, s) && j < |recs|
    ensures recs[j].offset < s
  {
  }

  lemma SplitAtSegment(v: seq<SegView>, i: nat)
    requires i < |v|
    ensures Flatten(v) == Flatten(v[..i]) + v[i].recs + Flatten(v[i + 1..])
  {
    hide Flatten;
    FlattenSplit(v, i);
    UnfoldFlatten(v[i..]);
    assert v[i..][1..] == v[i + 1..];
    Assoc(Flatten(v[..i]), v[i].recs, Flatten(v[i + 1..]));
  }

  lemma LaterSegmentsAbove(v: seq<SegView>, i: nat, s: int)
    requires AllOk(v) && i < |v| && forall j :: i < j < |v| ==> s < v[j].base
    ensures AllFrom(Flatten(v[i + 1..]), s + 1)
  {
    hide Flatten, SegOk;
    var later := v[i + 1..];
    forall j | 0 <= j < |later|
      ensures AllFrom(later[j].recs, s + 1)
    {
      assert later[j] == v[i + 1 + j];
      AboveStart(later[j], s);
    }
    FlattenFrom(later, s + 1);
  }

  /** A record found between what lies below and what lies above is in the middle. */
  lemma InMiddle(a: seq<Record>, b: seq<Record>, c: seq<Record>, s: int, k: nat)
    requires AllBelow(a, s) && AllFrom(c, s + 1) && k < |a + b + c| && (a + b + c)[k].offset <= s
    requires (a + b + c)[k].offset == s || |a| <= k
    ensures |a| <= k < |a| + |b| && b[k - |a|] == (a + b + c)[k]
  {
  }

  lemma AboveStart(x: SegView, s: int)
    requires SegOk(x) && s < x.base
    ensures AllFrom(x.recs, s + 1)
  {
  }

  /** The whole multi-segment fetch in terms of the plain log. */
  lemma FetchSent(v: seq<SegView>, i: nat, start: nat, maxBytes: int)
    requires i < |v| && start <= |v[i].recs|
    ensures var at := |Flatten(v[..i])| + start;
            && at <= |Flatten(v)|
            && SendAll(Trimmed(v[i..], start), maxBytes) == Cut(EncodeAll(Flatten(v)[at..]), maxBytes)
            && (maxBytes <= 0 ==> SendAll(Trimmed(v[i..], start), maxBytes) == [])
  {
    hide Flatten, EncodeAll, Cut, SendAll, Trimmed;
    FetchStart(v, i, start);
    if maxBytes <= 0 {
      SendNothing(Trimmed(v[i..], start), maxBytes);
      CutNothing(Flatten(v)[|Flatten(v[..i])| + start..], maxBytes);
    } else {
      SendAllIsCut(Trimmed(v[i..], start), maxBytes);
    }
  }

  /** One turn of the send loop: what is still to come under the remaining limit. */
  lemma SendTurn(w: seq<SegView>, k: nat, sent: seq<byte>, maxBytes: int, remaining: int, n: seq<byte>)
    requires k < |w| && n == Cut(EncodeAll(w[k].recs), remaining)
    requires maxBytes <= 0 ==> remaining == maxBytes
    ensures var left := if maxBytes > 0 then remaining - |n| else remaining;
            sent + SendAll(w[k..], remaining) == (sent + n) + SendAll(w[k + 1..], left)
  {
    hide EncodeAll, Cut, SendAll;
    SendAllStep(w, k, remaining);
    Assoc(sent, n, SendAll(w[k + 1..], remaining - |n|));
    if maxBytes <= 0 {
      CutNothing(w[k].recs, remaining);
    }
  }
}
