/** A partition log as a value: a sequence of segments, each a base offset, a next
    offset and its records.  `ReadSegments` is the multi-segment read as the code
    performs it; `ReadAnywhere` says what it returns in terms of one plain sequence, and
    `ReadRefines` that it is a filter when every segment knows its end. */
module LogModel {
  import opened Seqs
  import opened Records
  import opened Streams

  datatype SegView = SegView(base: nat, next: nat, recs: seq<Record>)

  /** Offsets run without gaps from the base: the shape of a segment that was never
      compacted. */
  predicate Contiguous(base: nat, recs: seq<Record>)
  {
    forall i :: 0 <= i < |recs| ==> recs[i].offset == base + i
  }

  predicate SegOk(x: SegView)
  {
    AllFit(x.recs) && Increasing(x.recs) && AllFrom(x.recs, x.base) && x.base + |x.recs| <= x.next
  }

  /** An earlier segment lies wholly below the base of a later one. */
  predicate Before(x: SegView, y: SegView)
  {
    x.base < y.base && x.next <= y.base && AllBelow(x.recs, y.base)
  }

  predicate Ordered(v: seq<SegView>)
  {
    forall i, j :: 0 <= i < j < |v| ==> Before(v[i], v[j])
  }

  predicate AllOk(v: seq<SegView>)
  {
    forall i :: 0 <= i < |v| ==> SegOk(v[i])
  }

  function Last(v: seq<SegView>): SegView
    requires v != []
  {
    v[|v| - 1]
  }

  /** The active segment has never been compacted. */
  predicate ActiveOk(x: SegView)
  {
    Contiguous(x.base, x.recs) && x.next == x.base + |x.recs|
  }

  predicate LogWF(v: seq<SegView>)
  {
    v != [] && AllOk(v) && Ordered(v) && ActiveOk(Last(v))
  }

  /** Every closed segment still knows where it ends.  An open log keeps this; reopening
      a compacted log loses it. */
  predicate Exact(v: seq<SegView>)
  {
    forall i :: 0 <= i < |v| - 1 ==> v[i].next == v[i + 1].base
  }

  function LEO(v: seq<SegView>): nat
    requires v != []
  {
    Last(v).next
  }

  /** The plain log: all records, oldest segment first. */
  function Flatten(v: seq<SegView>): seq<Record>
  {
    if v == [] then [] else v[0].recs + Flatten(v[1..])
  }

  lemma UnfoldFlatten(v: seq<SegView>)
    ensures Flatten(v) == if v == [] then [] else v[0].recs + Flatten(v[1..])
  {
  }

  lemma {:induction false} FlattenConcat(a: seq<SegView>, b: seq<SegView>)
    ensures Flatten(a + b) == Flatten(a) + Flatten(b)
  {
    hide Flatten;
    UnfoldFlatten(a);
    if a == [] {
      assert a + b == b;
    } else {
      UnfoldFlatten(a + b);
      FlattenConcat(a[1..], b);
      assert (a + b)[1..] == a[1..] + b;
      Assoc(a[0].recs, Flatten(a[1..]), Flatten(b));
    }
  }

  lemma FlattenOne(x: SegView)
    ensures Flatten([x]) == x.recs
  {
    assert [x][1..] == [];
    assert x.recs + [] == x.recs;
  }

  lemma FlattenLast(v: seq<SegView>)
    requires v != []
    ensures Flatten(v) == Flatten(v[..|v| - 1]) + Last(v).recs
  {
    hide Flatten;
    assert v == v[..|v| - 1] + [Last(v)];
    FlattenConcat(v[..|v| - 1], [Last(v)]);
    FlattenOne(Last(v));
  }

  lemma FlattenSplit(v: seq<SegView>, i: nat)
    requires i <= |v|
    ensures Flatten(v) == Flatten(v[..i]) + Flatten(v[i..])
  {
    hide Flatten;
    assert v == v[..i] + v[i..];
    FlattenConcat(v[..i], v[i..]);
  }

  lemma {:induction false} FlattenBelow(v: seq<SegView>, s: int)
    requires forall i :: 0 <= i < |v| ==> AllBelow(v[i].recs, s)
    ensures AllBelow(Flatten(v), s)
  {
    if v != [] {
      FlattenBelow(v[1..], s);
    }
  }

  lemma {:induction false} FlattenFrom(v: seq<SegView>, s: int)
    requires forall i :: 0 <= i < |v| ==> AllFrom(v[i].recs, s)
    ensures AllFrom(Flatten(v), s)
  {
    if v != [] {
      FlattenFrom(v[1..], s);
    }
  }

  lemma {:induction false} FlattenFits(v: seq<SegView>)
    requires AllOk(v)
    ensures AllFit(Flatten(v))
  {
    hide Fits;
    if v != [] {
      FlattenFits(v[1..]);
    }
  }

  lemma IncreasingConcat(a: seq<Record>, b: seq<Record>, s: int)
    requires Increasing(a) && Increasing(b) && AllBelow(a, s) && AllFrom(b, s)
    ensures Increasing(a + b)
  {
  }

  /** The plain log is in strictly increasing offset order. */
  lemma {:induction false} FlattenIncreasing(v: seq<SegView>)
    requires AllOk(v) && Ordered(v)
    ensures Increasing(Flatten(v))
  {
    hide Fits, Flatten;
    UnfoldFlatten(v);
    if v != [] {
      FlattenIncreasing(v[1..]);
      if |v| > 1 {
        forall i | 0 <= i < |v[1..]|
          ensures AllFrom(v[1..][i].recs, v[1].base)
        {
          BasesAscend(v, 1, i + 1);
        }
        FlattenFrom(v[1..], v[1].base);
        assert Before(v[0], v[1]);
        IncreasingConcat(v[0].recs, Flatten(v[1..]), v[1].base);
      } else {
        UnfoldFlatten(v[1..]);
        assert v[0].recs + [] == v[0].recs;
      }
    }
  }

  lemma BasesAscend(v: seq<SegView>, i: nat, j: nat)
    requires AllOk(v) && Ordered(v) && i <= j < |v|
    ensures v[i].base <= v[j].base
    ensures AllFrom(v[j].recs, v[i].base)
  {
    hide Fits;
    assert SegOk(v[j]);
    if i < j {
      assert Before(v[i], v[j]);
    }
  }

  // ------------------------------------------------------------------ reads

  /** `Segment.Read` on one segment. */
  function SegRead(x: SegView, s: int): seq<Record>
  {
    if s >= x.next then [] else From(x.recs, s)
  }

  /** The read loop over all of `v`. */
  function ReadAll(v: seq<SegView>, s: int): seq<Record>
  {
    if v == [] then [] else SegRead(v[0], s) + ReadAll(v[1..], s)
  }

  /** How many leading segments have a base at or below `s`. */
  function Reach(v: seq<SegView>, s: int): (n: nat)
    ensures n <= |v|
  {
    if v == [] then 0 else if Last(v).base <= s then |v| else Reach(v[..|v| - 1], s)
  }

  /** `PartitionLog.Read`: from the last segment that starts at or below `s`. */
  function ReadSegments(v: seq<SegView>, s: int): seq<Record>
  {
    var n := Reach(v, s);
    if n == 0 then [] else ReadAll(v[n - 1..], s)
  }

  lemma {:induction false} ReachBounds(v: seq<SegView>, s: int)
    requires Ordered(v)
    ensures var n := Reach(v, s);
            && (forall i :: 0 <= i < n ==> v[i].base <= s)
            && (forall i :: n <= i < |v| ==> v[i].base > s)
  {
    if v != [] {
      if Last(v).base <= s {
        forall i | 0 <= i < |v|
          ensures v[i].base <= s
        {
          if i < |v| - 1 {
            assert Before(v[i], v[|v| - 1]);
          }
        }
      } else {
        ReachBounds(v[..|v| - 1], s);
      }
    }
  }

  lemma ReachIs(v: seq<SegView>, s: int, n: nat)
    requires n <= |v| && (n > 0 ==> v[n - 1].base <= s)
    requires forall i :: n <= i < |v| ==> v[i].base > s
    ensures Reach(v, s) == n
  {
    if n < |v| {
      ReachIs(v[..|v| - 1], s, n);
    }
  }

  /** A segment whose whole range lies above the start, or that knows its end, is read
      completely. */
  predicate ReadsFully(x: SegView, s: int)
  {
    SegRead(x, s) == From(x.recs, s)
  }

  lemma {:induction false} ReadAllIsFilter(v: seq<SegView>, s: int)
    requires forall i :: 0 <= i < |v| ==> ReadsFully(v[i], s)
    ensures ReadAll(v, s) == From(Flatten(v), s)
  {
    hide Flatten, From, SegRead;
    UnfoldFlatten(v);
    if v == [] {
      UnfoldFrom([], s);
    } else {
      assert ReadsFully(v[0], s);
      ReadAllIsFilter(v[1..], s);
      FromConcat(v[0].recs, Flatten(v[1..]), s);
    }
  }

  lemma UnfoldReadAll(v: seq<SegView>, s: int)
    ensures ReadAll(v, s) == if v == [] then [] else SegRead(v[0], s) + ReadAll(v[1..], s)
  {
  }

  lemma OkFrom(v: seq<SegView>, n: nat)
    requires AllOk(v) && n <= |v|
    ensures AllOk(v[n..])
  {
    hide SegOk;
  }

  /** Segments that start above `s` are read in full. */
  lemma LaterSegmentsInFull(v: seq<SegView>, s: int)
    requires AllOk(v) && forall i :: 0 <= i < |v| ==> s < v[i].base
    ensures ReadAll(v, s) == Flatten(v) && AllFrom(Flatten(v), s)
  {
    hide Flatten, From, Fits, ReadAll;
    forall i | 0 <= i < |v|
      ensures ReadsFully(v[i], s) && AllFrom(v[i].recs, s)
    {
      assert SegOk(v[i]);
    }
    ReadAllIsFilter(v, s);
    FlattenFrom(v, s);
    FromAbove(Flatten(v), s);
  }

  /** In an exact log no segment holds a record at or above its end. */
  lemma EndOfSegment(v: seq<SegView>, i: nat)
    requires LogWF(v) && Exact(v) && i < |v|
    ensures AllBelow(v[i].recs, v[i].next)
  {
    hide Fits;
    if i < |v| - 1 {
      assert Before(v[i], v[i + 1]);
    }
  }

  /** The records of the segments before the one a read starts in are all below it. */
  lemma EarlierSegmentsBelow(v: seq<SegView>, n: nat, s: int)
    requires Ordered(v) && 0 < n <= |v| && v[n - 1].base <= s
    ensures AllBelow(Flatten(v[..n - 1]), s)
  {
    var before := v[..n - 1];
    forall i | 0 <= i < |before|
      ensures AllBelow(before[i].recs, s)
    {
      assert Before(v[i], v[n - 1]);
    }
    FlattenBelow(before, s);
  }

  /** The plain log from `s` on, split at the segment that holds `s`. */
  lemma SegmentFromStart(v: seq<SegView>, n: nat, s: int)
    requires AllOk(v) && Ordered(v) && 0 < n <= |v| && v[n - 1].base <= s
    requires forall i :: n <= i < |v| ==> v[i].base > s
    ensures From(Flatten(v), s) == From(v[n - 1].recs, s) + Flatten(v[n..])
  {
    hide Flatten, From, SegOk, ReadAll;
    FlattenSplit(v, n - 1);
    FlattenSplit(v[n - 1..], 1);
    assert v[n - 1..][..1] == [v[n - 1]] && v[n - 1..][1..] == v[n..];
    FlattenOne(v[n - 1]);
    EarlierSegmentsBelow(v, n, s);
    var a, b, c := Flatten(v[..n - 1]), v[n - 1].recs, Flatten(v[n..]);
    assert Flatten(v) == a + (b + c);
    FromConcat(a, b + c, s);
    FromBelow(a, s);
    FromConcat(b, c, s);
    LaterSegmentsInFull(v[n..], s);
    FromAbove(c, s);
  }

  /** What a read must return, said about the plain log: nothing for a start below the
      first base, everything from the start on when the segment that holds the start
      extends beyond it, and otherwise only what the later segments hold. */
  function Answer(v: seq<SegView>, s: int): seq<Record>
  {
    var n := Reach(v, s);
    if n == 0 then []
    else if s < v[n - 1].next then From(Flatten(v), s)
    else Flatten(v[n..])
  }

  /** The indexed multi-segment read of any well-formed log, whether or not its closed
      segments still know where they end. */
  lemma ReadAnywhere(v: seq<SegView>, s: int)
    requires LogWF(v)
    ensures ReadSegments(v, s) == Answer(v, s)
  {
    hide Flatten, From, AllOk, Ordered, ReadAll, ActiveOk;
    ReachBounds(v, s);
    var n := Reach(v, s);
    if n > 0 {
      SegmentFromStart(v, n, s);
      OkFrom(v, n);
      LaterSegmentsInFull(v[n..], s);
      assert v[n - 1..][0] == v[n - 1] && v[n - 1..][1..] == v[n..];
      UnfoldReadAll(v[n - 1..], s);
      assert [] + Flatten(v[n..]) == Flatten(v[n..]);
    }
  }

  /** From segment `k` on, every closed segment knows where it ends. */
  predicate ExactFrom(v: seq<SegView>, k: nat)
  {
    forall i :: k <= i < |v| - 1 ==> v[i].next == v[i + 1].base
  }

  /** Where no closed segment has forgotten its end, nothing stored is missed. */
  lemma KnownAnswer(v: seq<SegView>, k: nat, s: int)
    requires LogWF(v) && k < |v| && v[k].base <= s && ExactFrom(v, k)
    ensures Answer(v, s) == From(Flatten(v), s)
  {
    hide Flatten, From, SegOk, Before;
    ReachBounds(v, s);
    var n := Reach(v, s);
    if n == |v| && s >= Last(v).next {
      SegmentFromStart(v, n, s);
      FromBelow(v[n - 1].recs, s);
      assert [] + Flatten(v[n..]) == Flatten(v[n..]);
    } else {
      assert n < |v| ==> v[n - 1].next == v[n - 1 + 1].base;
    }
  }

  /** The indexed multi-segment read is a filter over the plain log: everything at or
      above the start offset, and nothing at all below the first base. */
  lemma ReadRefines(v: seq<SegView>, s: int)
    requires LogWF(v) && Exact(v)
    ensures ReadSegments(v, s) == if s < v[0].base then [] else From(Flatten(v), s)
  {
    hide Flatten, From, AllOk, Ordered, ActiveOk, ReadSegments;
    ReadAnywhere(v, s);
    ReachBounds(v, s);
    if v[0].base <= s {
      KnownAnswer(v, 0, s);
    }
  }

  /** An answer is a suffix of the plain log, so it is in order, and it starts no earlier
      than asked for. */
  lemma AnswerIsSuffix(v: seq<SegView>, s: int)
    requires LogWF(v)
    ensures IsSuffix(Answer(v, s), Flatten(v))
    ensures Increasing(Answer(v, s)) && AllFrom(Answer(v, s), s)
  {
    hide Flatten, From, AllOk, Ordered, ActiveOk, IsSuffix, Increasing, AllFrom;
    ReachBounds(v, s);
    FlattenIncreasing(v);
    FromSuffix(Flatten(v), s);
    EmptySuffix(Flatten(v), s);
    var n := Reach(v, s);
    FlattenSplit(v, n);
    OkFrom(v, n);
    LaterSegmentsInFull(v[n..], s);
    SuffixOf(Flatten(v[..n]), Flatten(v[n..]));
  }

  predicate IsSuffix(a: seq<Record>, b: seq<Record>)
  {
    |a| <= |b| && a == b[|b| - |a|..]
  }

  lemma SuffixOf(a: seq<Record>, b: seq<Record>)
    ensures IsSuffix(b, a + b)
    ensures Increasing(a + b) ==> Increasing(b)
  {
    assert (a + b)[|a|..] == b;
    assert forall i :: 0 <= i < |b| ==> (a + b)[|a| + i] == b[i];
  }

  lemma EmptySuffix(recs: seq<Record>, s: int)
    ensures IsSuffix([], recs) && Increasing([]) && AllFrom([], s)
  {
  }

  lemma FromSuffix(recs: seq<Record>, s: int)
    requires Increasing(recs)
    ensures IsSuffix(From(recs, s), recs) && Increasing(From(recs, s)) && AllFrom(From(recs, s), s)
  {
    FromIsSuffix(recs, s);
    var n := |From(recs, s)|;
    assert recs == recs[..|recs| - n] + recs[|recs| - n..];
    SuffixOf(recs[..|recs| - n], From(recs, s));
  }
}
