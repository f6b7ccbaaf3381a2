/** The operations that change a partition log, as functions on its value, and what
    every run of them keeps. */
module LogOps {
  import opened Bytes
  import opened Seqs
  import opened Records
  import opened Streams
  import opened LogModel
  import opened Compaction

  /** `Append` with its roll: a full active segment is closed and the record starts the
      next one (internal/storage/partition_log.go:55-67, 195-205). */
  function Appended(v: seq<SegView>, maxBytes: int, r: Record): seq<SegView>
    requires v != [] && LEO(v) < TWO_64
  {
    var x := Last(v);
    var stored := r.(offset := x.next);
    if |EncodeAll(x.recs)| >= maxBytes
    then v + [SegView(x.next, x.next + 1, [stored])]
    else v[..|v| - 1] + [SegView(x.base, x.next + 1, x.recs + [stored])]
  }

  function WithoutOldest(v: seq<SegView>): seq<SegView>
  {
    if |v| <= 1 then v else v[1..]
  }

  function CompactSeg(x: SegView, latest: map<Key, nat>): SegView
  {
    SegView(x.base, x.next, Kept(x.recs, latest))
  }

  /** The log after its first `k` segments have been rewritten. */
  function CompactFirst(v: seq<SegView>, k: nat, latest: map<Key, nat>): (w: seq<SegView>)
    ensures |w| == |v|
  {
    seq(|v|, i requires 0 <= i < |v| => if i < k then CompactSeg(v[i], latest) else v[i])
  }

  /** `CompactSegments`: every closed segment against the partition-wide latest offsets. */
  function Compacted(v: seq<SegView>): seq<SegView>
  {
    if |v| <= 1 then v else CompactFirst(v, |v| - 1, Latest(Flatten(v)))
  }

  /** How many of the first `k` segments lose a record. */
  function Losers(v: seq<SegView>, k: nat, latest: map<Key, nat>): nat
    requires k <= |v|
  {
    if k == 0 then 0
    else Losers(v, k - 1, latest) + (if Kept(v[k - 1].recs, latest) == v[k - 1].recs then 0 else 1)
  }

  // ----------------------------------------------------------------- append

  lemma ActiveBelow(x: SegView)
    requires ActiveOk(x)
    ensures AllBelow(x.recs, x.next)
  {
  }

  lemma AppendedSegOk(x: SegView, r: Record)
    requires SegOk(x) && ActiveOk(x) && Fits(r) && r.offset == x.next
    ensures SegOk(SegView(x.base, x.next + 1, x.recs + [r]))
    ensures ActiveOk(SegView(x.base, x.next + 1, x.recs + [r]))
  {
    hide Fits;
    var recs := x.recs + [r];
    forall i | 0 <= i < |recs|
      ensures recs[i].offset == x.base + i && Fits(recs[i])
    {
    }
  }

  lemma OrderedAppend(v: seq<SegView>, x: SegView)
    requires Ordered(v) && forall i :: 0 <= i < |v| ==> Before(v[i], x)
    ensures Ordered(v + [x])
  {
    hide Before;
  }

  /** An append keeps known segment ends known. */
  lemma AppendKeepsKnown(v: seq<SegView>, maxBytes: int, r: Record, k: nat)
    requires v != [] && LEO(v) < TWO_64 && k < |v| && ExactFrom(v, k)
    ensures var w := Appended(v, maxBytes, r);
            k < |w| && w[k].base == v[k].base && ExactFrom(w, k)
  {
    hide EncodeAll;
  }

  /** Appending, with or without a roll, keeps the log well formed.  The roll needs a
      positive segment size: only then is a full segment never empty. */
  lemma AppendKeepsWF(v: seq<SegView>, maxBytes: int, r: Record)
    requires LogWF(v) && maxBytes > 0 && Fits(r) && LEO(v) < TWO_64
    ensures LogWF(Appended(v, maxBytes, r))
    ensures Exact(v) ==> Exact(Appended(v, maxBytes, r))
    ensures LEO(Appended(v, maxBytes, r)) == LEO(v) + 1
    ensures Appended(v, maxBytes, r)[0].base == v[0].base
  {
    hide Fits, Flatten, EncodeAll, SegOk, ActiveOk, Before;
    var x := Last(v);
    var stored := r.(offset := x.next);
    StampFits(r, x.next);
    var init := v[..|v| - 1];
    if |EncodeAll(x.recs)| >= maxBytes {
      SizeOfNone();
      assert x.recs != [];
      var y := SegView(x.next, x.next + 1, [stored]);
      FreshSegment(stored);
      forall i | 0 <= i < |v|
        ensures Before(v[i], y)
      {
        BeforeRolled(v, i, y);
      }
      OrderedAppend(v, y);
    } else {
      var y := SegView(x.base, x.next + 1, x.recs + [stored]);
      AppendedSegOk(x, stored);
      forall i | 0 <= i < |init|
        ensures Before(init[i], y)
      {
        assert Before(v[i], x);
        SameBase(init[i], x, y);
      }
      OrderedAppend(init, y);
    }
  }

  lemma SizeOfNone()
    ensures EncodeAll([]) == []
  {
  }

  lemma StampFits(r: Record, offset: uint64)
    requires Fits(r)
    ensures Fits(r.(offset := offset))
  {
  }

  lemma FreshSegment(r: Record)
    requires Fits(r)
    ensures SegOk(SegView(r.offset, r.offset + 1, [r])) && ActiveOk(SegView(r.offset, r.offset + 1, [r]))
  {
    hide Fits;
  }

  lemma SameBase(w: SegView, x: SegView, y: SegView)
    requires Before(w, x) && y.base == x.base
    ensures Before(w, y)
  {
  }

  lemma BeforeRolled(v: seq<SegView>, i: nat, y: SegView)
    requires LogWF(v) && i < |v| && Last(v).recs != [] && y.base == LEO(v)
    ensures Before(v[i], y)
  {
    hide Fits;
    ActiveBelow(Last(v));
    if i < |v| - 1 {
      assert Before(v[i], Last(v));
    }
  }

  /** A roll on its own: the new segment is empty and starts at the log end offset. */
  lemma RollKeepsWF(v: seq<SegView>)
    requires LogWF(v) && Last(v).recs != []
    ensures LogWF(v + [SegView(LEO(v), LEO(v), [])])
  {
    hide Fits, SegOk, ActiveOk, Before;
    var y := SegView(LEO(v), LEO(v), []);
    EmptySegment(LEO(v));
    forall i | 0 <= i < |v|
      ensures Before(v[i], y)
    {
      BeforeRolled(v, i, y);
    }
    OrderedAppend(v, y);
  }

  /** Rolling a full segment and then appending is what `Appended` describes. */
  lemma RollThenAppend(v: seq<SegView>, maxBytes: int, r: Record)
    requires v != [] && LEO(v) < TWO_64 && |EncodeAll(Last(v).recs)| >= maxBytes > 0
    ensures Last(v).recs != []
    ensures Appended(v + [SegView(LEO(v), LEO(v), [])], maxBytes, r) == Appended(v, maxBytes, r)
  {
    hide EncodeAll;
    SizeOfNone();
    var w := v + [SegView(LEO(v), LEO(v), [])];
    assert w[..|w| - 1] == v;
    assert [] + [r.(offset := LEO(v))] == [r.(offset := LEO(v))];
  }

  lemma EmptySegment(base: nat)
    ensures SegOk(SegView(base, base, [])) && ActiveOk(SegView(base, base, []))
  {
  }

  /** Whether the append rolled or not, the plain log grew by exactly the stamped record. */
  lemma AppendGrowsPlain(v: seq<SegView>, maxBytes: int, r: Record)
    requires v != [] && LEO(v) < TWO_64
    ensures Flatten(Appended(v, maxBytes, r)) == Flatten(v) + [r.(offset := LEO(v))]
  {
    hide Flatten, EncodeAll;
    var x := Last(v);
    var stored := r.(offset := x.next);
    if |EncodeAll(x.recs)| >= maxBytes {
      var y := SegView(x.next, x.next + 1, [stored]);
      FlattenConcat(v, [y]);
      FlattenOne(y);
    } else {
      var y := SegView(x.base, x.next + 1, x.recs + [stored]);
      FlattenConcat(v[..|v| - 1], [y]);
      FlattenOne(y);
      FlattenLast(v);
      Assoc(Flatten(v[..|v| - 1]), x.recs, [stored]);
    }
  }

  /** The condition behind the positive segment size: a roll starts a segment with a base
      of its own exactly when the active segment holds a record, and an empty active
      segment counts as full exactly when the limit is not positive. */
  lemma RollReusesBaseIff(v: seq<SegView>, maxBytes: int)
    requires LogWF(v) && LEO(v) < TWO_64
    ensures Ordered(v + [SegView(LEO(v), LEO(v), [])]) <==> Last(v).recs != []
    ensures Last(v).recs == [] ==> (|EncodeAll(Last(v).recs)| >= maxBytes <==> maxBytes <= 0)
  {
    hide Fits;
    var x, y := Last(v), SegView(LEO(v), LEO(v), []);
    if x.recs == [] {
      SizeOfNone();
      var w := v + [y];
      assert !Before(w[|v| - 1], w[|v|]);
    } else {
      forall i | 0 <= i < |v|
        ensures Before(v[i], y)
      {
        BeforeRolled(v, i, y);
      }
      OrderedAppend(v, y);
    }
  }

  /** With a limit of 0 the first append to an empty log rolls onto the base it already has. */
  lemma ZeroLimitReusesBase(r: Record)
    requires Fits(r)
    ensures var v := [SegView(0, 0, [])];
            var w := Appended(v, 0, r);
            && LogWF(v) && w == [SegView(0, 0, []), SegView(0, 1, [r.(offset := 0)])]
            && !Ordered(w)
  {
    hide Fits;
    var v := [SegView(0, 0, [])];
    SizeOfNone();
    var w := Appended(v, 0, r);
    assert !Before(w[0], w[1]);
  }

  // ----------------------------------------------------------- remove oldest

  lemma RemoveKeepsWF(v: seq<SegView>)
    requires LogWF(v)
    ensures LogWF(WithoutOldest(v)) && LEO(WithoutOldest(v)) == LEO(v)
    ensures Exact(v) ==> Exact(WithoutOldest(v))
  {
    hide SegOk, ActiveOk, Before;
  }

  // -------------------------------------------------------------- compaction

  lemma CompactSegOk(x: SegView, latest: map<Key, nat>)
    requires SegOk(x)
    ensures SegOk(CompactSeg(x, latest))
  {
    hide Fits, Keep, Kept;
    var kept := Kept(x.recs, latest);
    KeptMembers(x.recs, latest);
    KeptOrder(x.recs, latest);
    KeptLength(x.recs, latest);
    forall i | 0 <= i < |kept|
      ensures Fits(kept[i]) && x.base <= kept[i].offset
    {
      assert kept[i] in x.recs;
    }
  }

  lemma CompactedBelow(recs: seq<Record>, latest: map<Key, nat>, s: int)
    requires AllBelow(recs, s)
    ensures AllBelow(Kept(recs, latest), s)
  {
    hide Keep, Kept;
    var kept := Kept(recs, latest);
    KeptMembers(recs, latest);
    forall i | 0 <= i < |kept|
      ensures kept[i].offset < s
    {
      assert kept[i] in recs;
    }
  }

  /** Rewriting any one closed segment keeps the log well formed. */
  lemma CompactOneKeepsWF(v: seq<SegView>, k: nat, latest: map<Key, nat>)
    requires LogWF(v) && k < |v| - 1
    ensures LogWF(v[k := CompactSeg(v[k], latest)])
  {
    hide SegOk, ActiveOk, Kept, AllBelow;
    var w := v[k := CompactSeg(v[k], latest)];
    CompactSegOk(v[k], latest);
    forall i, j | 0 <= i < j < |w|
      ensures Before(w[i], w[j])
    {
      assert Before(v[i], v[j]);
      CompactedBelow(v[i].recs, latest, v[j].base);
    }
  }

  lemma CompactFirstKeepsWF(v: seq<SegView>, k: nat, latest: map<Key, nat>)
    requires LogWF(v) && k < |v|
    ensures LogWF(CompactFirst(v, k, latest))
    ensures LEO(CompactFirst(v, k, latest)) == LEO(v)
    ensures Exact(v) ==> Exact(CompactFirst(v, k, latest))
  {
    hide SegOk, ActiveOk, Kept, AllBelow;
    var w := CompactFirst(v, k, latest);
    forall i | 0 <= i < |w|
      ensures SegOk(w[i])
    {
      CompactSegOk(v[i], latest);
    }
    forall i, j | 0 <= i < j < |w|
      ensures Before(w[i], w[j])
    {
      assert Before(v[i], v[j]);
      CompactedBelow(v[i].recs, latest, v[j].base);
    }
  }

  lemma CompactFirstStep(v: seq<SegView>, k: nat, latest: map<Key, nat>)
    requires k < |v|
    ensures CompactFirst(v, k + 1, latest) == CompactFirst(v, k, latest)[k := CompactSeg(v[k], latest)]
  {
    hide CompactSeg;
  }

  lemma CompactNone(v: seq<SegView>, latest: map<Key, nat>)
    ensures CompactFirst(v, 0, latest) == v
  {
    hide CompactSeg;
  }

  /** Rewriting the first `k` segments one by one is filtering their plain records. */
  lemma {:induction false} CompactFirstPlain(v: seq<SegView>, k: nat, latest: map<Key, nat>)
    requires k <= |v|
    ensures Flatten(CompactFirst(v, k, latest)) == Kept(Flatten(v[..k]), latest) + Flatten(v[k..])
  {
    hide Flatten, Kept;
    if k == 0 {
      CompactNone(v, latest);
      UnfoldFlatten(v[..0]);
      UnfoldKept(latest);
      assert v[0..] == v;
      assert [] + Flatten(v) == Flatten(v);
    } else {
      var w := CompactFirst(v, k, latest);
      FlattenSplit(w, k);
      assert w[k..] == v[k..];
      CompactPrefixPlain(v, k, latest);
    }
  }

  lemma UnfoldKept(latest: map<Key, nat>)
    ensures Kept([], latest) == []
  {
  }

  lemma {:induction false} CompactPrefixPlain(v: seq<SegView>, k: nat, latest: map<Key, nat>)
    requires k <= |v|
    ensures Flatten(CompactFirst(v, k, latest)[..k]) == Kept(Flatten(v[..k]), latest)
  {
    hide Flatten, Kept;
    if k == 0 {
      UnfoldFlatten(v[..0]);
      UnfoldFlatten(CompactFirst(v, 0, latest)[..0]);
      UnfoldKept(latest);
    } else {
      CompactPrefixPlain(v, k - 1, latest);
      var w := CompactFirst(v, k, latest)[..k];
      assert w[..k - 1] == CompactFirst(v, k - 1, latest)[..k - 1];
      FlattenLast(w);
      FlattenLast(v[..k]);
      assert v[..k][..k - 1] == v[..k - 1];
      KeptConcat(Flatten(v[..k - 1]), v[k - 1].recs, latest);
    }
  }

  /** The key-value view of the log is the same after every single segment rewrite, not
      only when compaction has finished. */
  lemma EveryRewriteKeepsView(v: seq<SegView>, k: nat)
    requires LogWF(v) && k <= |v|
    ensures KeyValues(Flatten(CompactFirst(v, k, Latest(Flatten(v))))) == KeyValues(Flatten(v))
  {
    hide Flatten, Kept, Latest, KeyValues, SegOk, ActiveOk, Before;
    CompactFirstPlain(v, k, Latest(Flatten(v)));
    FlattenSplit(v, k);
    FlattenIncreasing(v);
    CompactionKeepsView(Flatten(v[..k]), Flatten(v[k..]));
  }

  /** What compaction keeps, exactly: the whole active segment, and of the closed segments the
      records without a key and those that have a value and are the newest of their key in
      the whole partition. */
  lemma CompactionSurvivors(v: seq<SegView>, r: Record)
    requires LogWF(v)
    ensures r in Flatten(Compacted(v)) <==>
            || r in Last(v).recs
            || (r in Flatten(v[..|v| - 1]) &&
                (KeyOf(r) == [] ||
                 (ValueOf(r) != [] &&
                  forall x :: x in Flatten(v) && KeyOf(x) == KeyOf(r) ==> x.offset <= r.offset)))
  {
    hide Flatten, Latest, Keep, AllOk, Ordered, ActiveOk, Compacted;
    CompactionTest(v, r);
    FlattenIncreasing(v);
    FlattenLast(v);
    if r in Flatten(v[..|v| - 1]) {
      KeepIffSurviving(Flatten(v), r);
    }
  }

  /** All of that at once. */
  ghost predicate KeepsSurvivors(v: seq<SegView>, w: seq<SegView>)
    requires v != []
  {
    forall r :: r in Flatten(w) <==>
      || r in Last(v).recs
      || (r in Flatten(v[..|v| - 1]) &&
          (KeyOf(r) == [] ||
           (ValueOf(r) != [] && forall x :: x in Flatten(v) && KeyOf(x) == KeyOf(r) ==> x.offset <= r.offset)))
  }

  lemma CompactedKeepsSurvivors(v: seq<SegView>)
    requires LogWF(v)
    ensures KeepsSurvivors(v, Compacted(v))
  {
    hide Flatten, AllOk, Ordered, ActiveOk, Compacted;
    forall r
      ensures r in Flatten(Compacted(v)) <==>
              || r in Last(v).recs
              || (r in Flatten(v[..|v| - 1]) &&
                  (KeyOf(r) == [] ||
                   (ValueOf(r) != [] &&
                    forall x :: x in Flatten(v) && KeyOf(x) == KeyOf(r) ==> x.offset <= r.offset)))
    {
      CompactionSurvivors(v, r);
    }
  }

  /** Every survivor stays in its segment, and the segments keep their order and range. */
  lemma SurvivorsStayInPlace(v: seq<SegView>, i: nat, r: Record)
    requires LogWF(v) && i < |v|
    ensures var w := Compacted(v);
            && |w| == |v| && w[i].base == v[i].base && w[i].next == v[i].next && Increasing(w[i].recs)
            && (i == |v| - 1 ==> w[i] == v[i])
            && (i < |v| - 1 ==>
                  (r in w[i].recs <==>
                   r in v[i].recs &&
                   (KeyOf(r) == [] ||
                    (ValueOf(r) != [] &&
                     forall x :: x in Flatten(v) && KeyOf(x) == KeyOf(r) ==> x.offset <= r.offset))))
  {
    hide Flatten, Kept, Latest, Keep, Fits;
    var latest := Latest(Flatten(v));
    FlattenIncreasing(v);
    assert SegOk(v[i]);
    KeptMembers(v[i].recs, latest);
    KeptOrder(v[i].recs, latest);
    if r in v[i].recs {
      InFlatten(v, i, r);
      KeepIffSurviving(Flatten(v), r);
    }
  }

  lemma InFlatten(v: seq<SegView>, i: nat, r: Record)
    requires i < |v| && r in v[i].recs
    ensures r in Flatten(v)
  {
    hide Flatten;
    FlattenSplit(v, i);
    UnfoldFlatten(v[i..]);
  }

  /** The same with the filter's own test, for any log. */
  lemma CompactionTest(v: seq<SegView>, r: Record)
    requires v != []
    ensures Last(Compacted(v)) == Last(v)
    ensures r in Flatten(Compacted(v)) <==>
            r in Last(v).recs || (r in Flatten(v[..|v| - 1]) && Keep(r, Latest(Flatten(v))))
  {
    hide Flatten, Kept, Latest, Keep;
    FlattenLast(v);
    if |v| > 1 {
      var k, latest := |v| - 1, Latest(Flatten(v));
      CompactFirstPlain(v, k, latest);
      KeptMembers(Flatten(v[..k]), latest);
      assert v[k..] == [Last(v)];
      FlattenOne(Last(v));
    } else {
      UnfoldFlatten(v[..0]);
    }
  }

  /** The first `k` segments whose records differ between two logs. */
  function Differing(v: seq<SegView>, w: seq<SegView>, k: nat): set<int>
    requires k <= |v| && k <= |w|
  {
    set i | 0 <= i < k && w[i].recs != v[i].recs
  }

  /** The count that `CompactSegments` returns: the closed segments that lost a record. */
  lemma LosersAreCounted(v: seq<SegView>)
    requires v != []
    ensures |Compacted(v)| == |v|
    ensures Losers(v, |v| - 1, Latest(Flatten(v))) == |Differing(v, Compacted(v), |v| - 1)|
  {
    hide Flatten, Latest, Kept, Losers;
    LosersUpTo(v, Compacted(v), |v| - 1, Latest(Flatten(v)));
  }

  lemma {:induction false} LosersUpTo(v: seq<SegView>, w: seq<SegView>, k: nat, latest: map<Key, nat>)
    requires k <= |v| && k <= |w| && forall i :: 0 <= i < k ==> w[i].recs == Kept(v[i].recs, latest)
    ensures Losers(v, k, latest) == |Differing(v, w, k)|
  {
    hide Kept;
    if k > 0 {
      LosersUpTo(v, w, k - 1, latest);
      if w[k - 1].recs != v[k - 1].recs {
        assert Differing(v, w, k) == Differing(v, w, k - 1) + {k - 1};
      } else {
        assert Differing(v, w, k) == Differing(v, w, k - 1);
      }
    }
  }

  /** Running compaction twice with nothing appended in between rewrites nothing. */
  lemma SecondCompactionIdle(v: seq<SegView>)
    requires LogWF(v)
    ensures Compacted(Compacted(v)) == Compacted(v)
    ensures |v| > 1 ==> Losers(Compacted(v), |v| - 1, Latest(Flatten(Compacted(v)))) == 0
  {
    hide Flatten, Kept, Latest, SegOk, ActiveOk, Before, Keep, Losers;
    if |v| > 1 {
      var k := |v| - 1;
      var latest := Latest(Flatten(v));
      var w := CompactFirst(v, k, latest);
      CompactFirstPlain(v, k, latest);
      FlattenSplit(v, k);
      FlattenIncreasing(v);
      SurvivorsStay(Flatten(v[..k]), Flatten(v[k..]));
      FlattenSplit(w, k);
      assert w[k..] == v[k..];
      CompactPrefixPlain(v, k, latest);
      SegmentsIdle(w, k, Latest(Flatten(w)));
      assert CompactFirst(w, k, Latest(Flatten(w))) == w;
      NoLosers(w, k, Latest(Flatten(w)));
    }
  }

  lemma {:induction false} NoLosers(v: seq<SegView>, k: nat, latest: map<Key, nat>)
    requires k <= |v| && forall i :: 0 <= i < k ==> Kept(v[i].recs, latest) == v[i].recs
    ensures Losers(v, k, latest) == 0
  {
    if k > 0 {
      NoLosers(v, k - 1, latest);
    }
  }

  /** If filtering the plain records changes nothing, no segment changes. */
  lemma {:induction false} SegmentsIdle(v: seq<SegView>, k: nat, latest: map<Key, nat>)
    requires k <= |v| && Kept(Flatten(v[..k]), latest) == Flatten(v[..k])
    ensures forall i :: 0 <= i < k ==> Kept(v[i].recs, latest) == v[i].recs
  {
    hide Flatten, Kept;
    if k > 0 {
      var a, b := Flatten(v[..k - 1]), v[k - 1].recs;
      FlattenLast(v[..k]);
      assert v[..k][..k - 1] == v[..k - 1];
      KeptConcat(a, b, latest);
      KeptLength(a, latest);
      KeptLength(b, latest);
      assert |Kept(a, latest)| + |Kept(b, latest)| == |a| + |b|;
      SegmentsIdle(v, k - 1, latest);
    }
  }

  const PUT := Record(0, 0, Some([7]), Some([1]))
  const DELETE := Record(1, 0, Some([7]), None)
  const PUT_DELETE := [SegView(0, 1, [PUT]), SegView(1, 2, [DELETE]), SegView(2, 2, [])]

  lemma PutDeleteWF()
    ensures LogWF(PUT_DELETE) && Flatten(PUT_DELETE) == [PUT, DELETE]
  {
    hide Flatten;
    FlattenThree(PUT_DELETE[0], PUT_DELETE[1], PUT_DELETE[2]);
    assert [PUT] + [DELETE] + [] == [PUT, DELETE];
  }

  lemma TombstoneDropped()
    ensures Kept([DELETE], Latest([PUT, DELETE])) == []
  {
    hide Latest;
    assert [DELETE][..0] == [];
  }

  lemma ViewsDiffer()
    ensures KeyValues([PUT]) != KeyValues([PUT, DELETE])
  {
    hide KeyValues;
    ViewIsLast([PUT], [7]);
    ViewIsLast([PUT, DELETE], [7]);
  }

  /** Oldest first is what makes the intermediate states safe: rewriting a newer segment
      first drops a tombstone while the value it hides is still there. */
  lemma NewestFirstShowsDeletedValue()
    ensures LogWF(PUT_DELETE)
    ensures var latest := Latest(Flatten(PUT_DELETE));
            KeyValues(Flatten(PUT_DELETE[1 := CompactSeg(PUT_DELETE[1], latest)])) != KeyValues(Flatten(PUT_DELETE))
  {
    hide Flatten, Latest, Kept, KeyValues, LogWF;
    PutDeleteWF();
    TombstoneDropped();
    var v := PUT_DELETE;
    var y := SegView(1, 2, []);
    FlattenThree(v[0], y, v[2]);
    assert v[1 := y] == [v[0], y, v[2]];
    assert [PUT] + [] + [] == [PUT];
    ViewsDiffer();
  }

  lemma FlattenThree(x: SegView, y: SegView, z: SegView)
    ensures Flatten([x, y, z]) == x.recs + y.recs + z.recs
  {
    hide Flatten;
    FlattenLast([x, y, z]);
    assert [x, y, z][..2] == [x, y];
    FlattenLast([x, y]);
    assert [x, y][..1] == [x];
    FlattenOne(x);
  }
}
