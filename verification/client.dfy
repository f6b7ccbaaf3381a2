/** A consumer on the zero-copy path: fetch raw bytes, parse them, drop what lies below the
    offset asked for.  It sees what a plain read returns, on a log reopened after compaction
    too. */
module Clients {
  import opened Bytes
  import opened Files
  import opened Records
  import opened Streams
  import opened SegmentModel
  import opened LogModel
  import opened Segments
  import opened Fetch
  import opened PartitionLogs

  /** How much a fetch from `s` may send ahead of record `k`, the first at or above `s`: less
      than the index interval ahead of the record itself when it is at `s`, and otherwise
      ahead of the one before it, which has to be sent too. */
  function Ahead(log: seq<Record>, s: int, interval: int, k: nat): int
    requires k < |log|
  {
    if k == 0 then 0
    else if log[k].offset == s then Gap(interval)
    else Gap(interval) + |Encode(log[k - 1])|
  }

  /** What a fetch from `s` under the limit promises about the plain log. */
  ghost predicate Delivers(log: seq<Record>, s: int, maxBytes: int, interval: int, records: seq<Record>)
  {
    && records <= From(log, s)
    && (maxBytes >= |EncodeAll(log)| ==> records == From(log, s))
    && (forall k :: First(log, s, k) && maxBytes >= Ahead(log, s, interval, k) + |Encode(log[k])| ==>
         records != [] && records[0] == log[k])
  }

  /** Record `k` is the first at or above `s`. */
  predicate First(log: seq<Record>, s: int, k: int)
  {
    0 <= k < |log| && s <= log[k].offset && (k > 0 ==> log[k - 1].offset < s)
  }

  lemma FirstFrom(recs: seq<Record>, s: int, k: nat)
    requires Increasing(recs) && First(recs, s, k)
    ensures AllBelow(recs[..k], s) && From(recs, s) == recs[k..]
  {
    hide From;
    FromSkip(recs, k, s);
    FromAbove(recs[k..], s);
  }

  lemma SubIncreasing(recs: seq<Record>, lo: nat, n: nat)
    requires Increasing(recs) && lo <= |recs| && n <= |recs[lo..]|
    ensures Increasing(recs[lo..][..n])
  {
  }

  /** The record asked for comes first. */
  lemma RecordFirst(log: seq<Record>, s: int, start: nat, n: nat, k: nat)
    requires Increasing(log) && start <= k && First(log, s, k)
    requires n <= |log[start..]| && k - start < n
    ensures From(log[start..][..n], s) != [] && From(log[start..][..n], s)[0] == log[k]
  {
    hide From, Increasing;
    SubIncreasing(log, start, n);
    FirstFrom(log[start..][..n], s, k - start);
  }

  /** What a fetch sends ahead of the first record it delivers. */
  lemma SentAhead(log: seq<Record>, s: int, start: nat, interval: int, k: nat)
    requires start <= |log| && AllBelow(log[..start], s) && FetchNear(log, start, s, interval) && First(log, s, k)
    ensures start <= k < |log|
    ensures |EncodeAll(log[start..k])| <= Ahead(log, s, interval, k)
  {
    hide EncodeAll, Encode;
    if start == k {
      assert log[start..k] == [];
      Unfold(log[start..k]);
    } else if log[k].offset != s {
      assert log[start..k] == log[start..k - 1] + [log[k - 1]];
      EncodeAppend(log[start..k - 1], log[k - 1]);
    }
  }

  lemma WholeLogFits(log: seq<Record>, start: nat, maxBytes: int)
    requires start <= |log| && maxBytes >= |EncodeAll(log)|
    ensures maxBytes >= |EncodeAll(log[start..])|
  {
    hide EncodeAll;
    EncodeSplit(log, start);
  }

  /** Parsing the bytes a fetch sends yields records that keep the promise. */
  lemma FetchDelivers(log: seq<Record>, s: int, start: nat, maxBytes: int, interval: int)
    returns (parsed: seq<Record>)
    requires AllFit(log) && Increasing(log) && start <= |log| && AllBelow(log[..start], s) && maxBytes > 0
    requires FetchNear(log, start, s, interval)
    ensures ParseAll(Cut(EncodeAll(log[start..]), maxBytes)) == Stream(parsed)
    ensures Delivers(log, s, maxBytes, interval, From(parsed, s))
  {
    hide EncodeAll, Encode, Fits, From, ParseAll, Cut, Pos, AllBelow, Increasing, Ahead, FetchNear;
    var n := FetchIsPrefixOfRead(log, s, start, maxBytes);
    parsed := log[start..][..n];
    if maxBytes >= |EncodeAll(log)| {
      WholeLogFits(log, start, maxBytes);
    }
    forall k | First(log, s, k) && maxBytes >= Ahead(log, s, interval, k) + |Encode(log[k])|
      ensures From(parsed, s) != [] && From(parsed, s)[0] == log[k]
    {
      SentAhead(log, s, start, interval, k);
      FetchMakesProgress(log, start, k, maxBytes);
      var m :| m <= |log[start..]| && k - start < m &&
               ParseAll(Cut(EncodeAll(log[start..]), maxBytes)) == Stream(log[start..][..m]);
      assert |log[start..][..m]| == m && |parsed| == n && parsed == log[start..][..m];
      RecordFirst(log, s, start, n, k);
    }
  }

  /** The consumer's filter. */
  method DropBelow(recs: seq<Record>, s: int) returns (kept: seq<Record>)
    ensures kept == From(recs, s)
  {
    hide From;
    kept := [];
    UnfoldFrom([], s);
    assert recs[..0] == [];
    for k := 0 to |recs|
      invariant kept == From(recs[..k], s)
    {
      FromStep(recs, k, s);
      if recs[k].offset >= s {
        kept := kept + [recs[k]];
      }
    }
    assert recs[..|recs|] == recs;
  }

  /** The segment in which `s` falls ends, as far as it knows, at or below `s`. */
  ghost predicate Hidden(v: seq<SegView>, s: int)
  {
    var n := Reach(v, s);
    n > 0 && v[n - 1].next <= s
  }

  /** What a fetch promises on any well-formed log: a prefix of what a read answers, all of it
      when the limit covers the log, led by the first record wanted when the limit covers the
      index interval plus that record, and the one before it if the offset itself is gone,
      and led by the first record of the later segments when the segment that should hold
      the start is skipped. */
  ghost predicate Promised(v: seq<SegView>, s: int, maxBytes: int, interval: int, records: seq<Record>)
  {
    var plain, answer := Flatten(v), Answer(v, s);
    && records <= answer
    && (maxBytes >= |EncodeAll(plain)| ==> records == answer)
    && (Hidden(v, s) && answer != [] && maxBytes >= |Encode(answer[0])| ==>
        records != [] && records[0] == answer[0])
    && (v != [] && v[0].base <= s && (Exact(v) || !Hidden(v, s)) ==>
        Delivers(plain, s, maxBytes, interval, records))
  }

  /** A start below the log or a limit that is not positive sends nothing. */
  lemma NothingPromised(v: seq<SegView>, s: int, maxBytes: int, interval: int)
    requires LogWF(v) && (s < v[0].base || maxBytes <= 0)
    ensures Promised(v, s, maxBytes, interval, [])
  {
    hide Flatten, From, EncodeAll, Encode, AllOk, Ordered, ActiveOk, Answer, Exact;
    if s < v[0].base {
      NothingBelow(v, s);
    } else {
      AnswerIsSuffix(v, s);
      SizeZeroIff(Flatten(v));
      FromNothing(s);
    }
  }

  lemma NothingBelow(v: seq<SegView>, s: int)
    requires LogWF(v) && s < v[0].base
    ensures Answer(v, s) == [] && Reach(v, s) == 0
  {
    hide Flatten, From, AllOk, ActiveOk;
    ReachBounds(v, s);
  }

  lemma FromNothing(s: int)
    ensures From([], s) == []
  {
  }

  /** What follows a skipped segment is sent from its first byte on. */
  lemma FetchLater(later: seq<Record>, s: int, maxBytes: int) returns (parsed: seq<Record>)
    requires AllFit(later) && AllFrom(later, s) && maxBytes > 0
    ensures ParseAll(Cut(EncodeAll(later), maxBytes)) == Stream(parsed)
    ensures From(parsed, s) <= later
    ensures maxBytes >= |EncodeAll(later)| ==> From(parsed, s) == later
    ensures later != [] && maxBytes >= |Encode(later[0])| ==>
              From(parsed, s) != [] && From(parsed, s)[0] == later[0]
  {
    hide EncodeAll, Encode, Fits, From, ParseAll, Cut, Pos;
    assert later[..0] == [] && later[0..] == later;
    var n := FetchIsPrefixOfRead(later, s, 0, maxBytes);
    parsed := later[..n];
    FromAbove(later, s);
    FromAbove(parsed, s);
    if later != [] {
      PosStep(later, 0);
      FirstStartsAtZero(later);
    }
  }

  lemma FirstStartsAtZero(recs: seq<Record>)
    ensures Pos(recs, 0) == 0
  {
    assert recs[..0] == [];
  }

  /** Fetching from a good place keeps the promise. */
  lemma FetchPromised(v: seq<SegView>, s: int, at: nat, maxBytes: int, interval: int)
    returns (parsed: seq<Record>)
    requires LogWF(v) && v[0].base <= s && at <= |Flatten(v)| && StartsWell(v, s, at, interval) && maxBytes > 0
    ensures ParseAll(Cut(EncodeAll(Flatten(v)[at..]), maxBytes)) == Stream(parsed)
    ensures Promised(v, s, maxBytes, interval, From(parsed, s))
  {
    hide Flatten, From, EncodeAll, Encode, AllOk, Ordered, ActiveOk, Exact, AllBelow, AllFrom, FetchNear, ParseAll, Cut,
         AllFit, Increasing;
    var plain, n := Flatten(v), Reach(v, s);
    PlainFacts(v);
    if s < v[n - 1].next {
      parsed := FetchDelivers(plain, s, at, maxBytes, interval);
    } else {
      LaterFacts(v, n, s);
      parsed := FetchLater(plain[at..], s, maxBytes);
      LaterFitsWhole(v, n);
      if Exact(v) {
        var same := FetchDelivers(plain, s, at, maxBytes, interval);
        assert same == parsed;
      }
    }
  }

  lemma LaterFacts(v: seq<SegView>, n: nat, s: int)
    requires LogWF(v) && n == Reach(v, s)
    ensures AllFit(Flatten(v[n..])) && AllFrom(Flatten(v[n..]), s)
  {
    hide Flatten, SegOk, Before, ActiveOk, Fits;
    ReachBounds(v, s);
    LaterSegmentsInFull(v[n..], s);
    FlattenFits(v[n..]);
  }

  lemma LaterFitsWhole(v: seq<SegView>, n: nat)
    requires n <= |v|
    ensures |EncodeAll(Flatten(v[n..]))| <= |EncodeAll(Flatten(v))|
  {
    hide Flatten, EncodeAll;
    FlattenSplit(v, n);
    EncodeConcat(Flatten(v[..n]), Flatten(v[n..]));
  }

  /** Fetching and parsing on any valid log. */
  method FetchRecords(log: PartitionLog, startOffset: uint64, maxBytes: int) returns (records: seq<Record>)
    requires log.Valid()
    ensures Promised(log.Views(), startOffset, maxBytes, log.indexIntervalBytes, records)
  {
    hide PartitionLog.Valid, PartitionLog.FetchFrom, AllOk, Ordered, ActiveOk, EncodeAll, From, ParseAll, Cut, Flatten,
         AllBelow, FetchNear, Promised, StartsWell;
    ghost var v, interval := log.Views(), log.indexIntervalBytes;
    log.WellFormed();
    var sent := log.ReadZeroCopy(startOffset, maxBytes);
    ghost var expected := [];
    if startOffset < v[0].base || maxBytes <= 0 {
      NothingPromised(v, startOffset, maxBytes, interval);
      NothingSent(startOffset);
    } else {
      expected := FetchPromised(v, startOffset, log.FetchFrom(startOffset), maxBytes, interval);
    }
    var reader := new File(sent);
    assert reader.Rest() == sent;
    var result := ParseRecordStream(reader);
    records := DropBelow(result.recs, startOffset);
  }

  lemma NothingSent(s: int)
    ensures ParseAll([]) == Stream([]) && From([], s) == []
  {
    hide Decode;
    NothingLeft();
  }

  lemma PlainFacts(v: seq<SegView>)
    requires LogWF(v)
    ensures AllFit(Flatten(v)) && Increasing(Flatten(v))
  {
    hide Flatten, Fits, SegOk, Before, ActiveOk;
    FlattenFits(v);
    FlattenIncreasing(v);
  }
}
