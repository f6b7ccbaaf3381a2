/** Restart: what is on disk, and what a log reopened from it can still read
    (internal/storage/segment.go:195-223, internal/storage/partition_log.go:153-189). */
module Recovery {
  import opened Bytes
  import opened Records
  import opened Streams
  import opened Indexes
  import opened SegmentModel
  import opened LogModel
  import opened Compaction
  import opened LogOps
  import opened LogRuns

  /** The two files of one segment. */
  datatype DiskFile = DiskFile(log: seq<byte>, index: seq<byte>)

  /** What the two files hold: whole records, torn bytes after them, and the record each
      index entry points at. */
  datatype Stored = Stored(recs: seq<Record>, tail: seq<byte>, slots: seq<nat>)

  type Directory = map<uint64, DiskFile>

  const NO_FILES := DiskFile([], [])

  ghost predicate DiskOk(base: nat, f: DiskFile, w: Stored, interval: int)
  {
    && LogOk(base, w.recs, w.tail, f.log)
    && |f.index| % 16 == 0
    && IndexOk(EntriesOf(f.index), w.slots, w.recs, base + |w.recs|, interval)
    && base + |w.recs| < TWO_64
  }

  /** The next offset that counting records yields. */
  function Recount(x: SegView): SegView
  {
    x.(next := x.base + |x.recs|)
  }

  function Recovered(v: seq<SegView>): (w: seq<SegView>)
    ensures |w| == |v|
  {
    seq(|v|, i requires 0 <= i < |v| => Recount(v[i]))
  }

  lemma {:induction false} RecoveredPlain(v: seq<SegView>)
    ensures Flatten(Recovered(v)) == Flatten(v)
  {
    hide Flatten;
    UnfoldFlatten(v);
    UnfoldFlatten(Recovered(v));
    if v != [] {
      RecoveredPlain(v[1..]);
      assert Recovered(v)[1..] == Recovered(v[1..]);
    }
  }

  /** The reopened log is well formed, holds the same records and, because the active
      segment is never compacted, ends at the same offset. */
  lemma RecoveredWF(v: seq<SegView>)
    requires LogWF(v)
    ensures LogWF(Recovered(v)) && LEO(Recovered(v)) == LEO(v)
    ensures Flatten(Recovered(v)) == Flatten(v)
  {
    hide Flatten, Fits;
    var w := Recovered(v);
    RecoveredPlain(v);
    forall i | 0 <= i < |w|
      ensures SegOk(w[i])
    {
      assert SegOk(v[i]);
    }
    forall i, j | 0 <= i < j < |w|
      ensures Before(w[i], w[j])
    {
      assert SegOk(v[i]) && Before(v[i], v[j]);
    }
  }

  /** No segment has ever been compacted. */
  predicate Uncompacted(v: seq<SegView>)
  {
    forall i :: 0 <= i < |v| ==> ActiveOk(v[i])
  }

  /** Recovery is exact for a log that was never compacted. */
  lemma RecoveryExact(v: seq<SegView>)
    requires Uncompacted(v)
    ensures Recovered(v) == v
  {
  }

  /** A run without compaction from an uncompacted log stays uncompacted, so restarting
      after it changes nothing. */
  lemma {:induction false} RunThenReopen(v: seq<SegView>, maxBytes: int, ops: seq<Op>)
    requires LogWF(v) && maxBytes > 0 && OpsFit(ops) && LEO(v) + |ops| <= TWO_64
    requires Uncompacted(v) && forall i :: 0 <= i < |ops| ==> !ops[i].Compact?
    ensures Uncompacted(Run(v, maxBytes, ops))
    ensures Recovered(Run(v, maxBytes, ops)) == Run(v, maxBytes, ops)
    decreases |ops|
  {
    hide AllOk, Ordered, Exact, Appended, ActiveOk;
    if ops == [] {
      RecoveryExact(v);
    } else {
      StepKeeps(v, maxBytes, ops[0]);
      StepUncompacted(v, maxBytes, ops[0]);
      RunThenReopen(Step(v, maxBytes, ops[0]), maxBytes, ops[1..]);
    }
  }

  lemma StepUncompacted(v: seq<SegView>, maxBytes: int, op: Op)
    requires LogWF(v) && OpFits(op) && LEO(v) < TWO_64 && Uncompacted(v) && !op.Compact?
    ensures Uncompacted(Step(v, maxBytes, op))
  {
    hide Fits, EncodeAll, SegOk, Before, ActiveOk;
    if op.Append? {
      var stored := op.r.(offset := LEO(v));
      StampFits(op.r, LEO(v));
      FreshSegment(stored);
      AppendedSegOk(Last(v), stored);
    }
  }

  // ------------------------------------------- reads of a reopened log

  /** Reading a reopened log that may have been compacted: the segment that holds the
      start is read in full below base plus survivor count and not at all above it; every
      later segment is read in full. */
  lemma ReopenedRead(v: seq<SegView>, s: int)
    requires LogWF(v) && v[0].base <= s
    ensures var n := Reach(v, s);
            && n > 0
            && ReadSegments(Recovered(v), s) ==
               (if s < v[n - 1].base + |v[n - 1].recs| then From(Flatten(v), s) else Flatten(v[n..]))
  {
    hide Flatten, From, AllOk, Ordered, ReadSegments, ActiveOk;
    ReachBounds(v, s);
    var n := Reach(v, s);
    RecoveredReach(v, s);
    RecoveredWF(v);
    ReadAnywhere(Recovered(v), s);
    RecoveredPlain(v[n..]);
    assert Recovered(v)[n..] == Recovered(v[n..]);
  }

  lemma RecoveredReach(v: seq<SegView>, s: int)
    requires Ordered(v)
    ensures Reach(Recovered(v), s) == Reach(v, s)
  {
    hide Before;
    ReachBounds(v, s);
    ReachIs(Recovered(v), s, Reach(v, s));
  }

  /** Exactly when a restart loses nothing for this start: the start is below base plus
      survivor count of its segment, or that segment has nothing at or above it, or an
      earlier restart has already put the start beyond its end. */
  lemma ReopenedReadExactIff(v: seq<SegView>, s: int)
    requires LogWF(v) && v[0].base <= s
    ensures var n := Reach(v, s);
            && n > 0
            && (ReadSegments(Recovered(v), s) == ReadSegments(v, s) <==>
                || s < v[n - 1].base + |v[n - 1].recs|
                || From(v[n - 1].recs, s) == []
                || v[n - 1].next <= s)
  {
    hide Flatten, From, Fits, ReadSegments, ActiveOk, Before;
    var n := Reach(v, s);
    ReachBounds(v, s);
    ReopenedRead(v, s);
    ReadAnywhere(v, s);
    SegmentFromStart(v, n, s);
    assert SegOk(v[n - 1]);
    var f, c := From(v[n - 1].recs, s), Flatten(v[n..]);
    assert f + c == c ==> |f| == 0;
    assert [] + c == c;
  }

  const FIRST := Record(0, 0, Some([7]), Some([1]))
  const SECOND := Record(1, 0, Some([7]), Some([2]))
  const TWICE := [SegView(0, 2, [FIRST, SECOND]), SegView(2, 2, [])]
  const TWICE_COMPACTED := [SegView(0, 2, [SECOND]), SegView(2, 2, [])]

  /** A key written twice, compacted and reopened: offset 1 is stored but reading from it
      returns nothing. */
  lemma ReopenedCompactedLogHidesRecord()
    ensures LogWF(TWICE) && Exact(TWICE) && Compacted(TWICE) == TWICE_COMPACTED
    ensures ReadSegments(TWICE_COMPACTED, 1) == [SECOND]
    ensures ReadSegments(Recovered(TWICE_COMPACTED), 1) == []
  {
    hide ReadSegments, Flatten, Recovered, From, Compacted, LogWF, Exact, Reach, ReadAll;
    TwiceCompacts();
    var v := TWICE_COMPACTED;
    ReachIs(v, 1, 1);
    TwicePlain();
    ReopenedRead(v, 1);
    ReadRefines(v, 1);
  }

  lemma TwicePlain()
    ensures Flatten(TWICE_COMPACTED[1..]) == []
    ensures Flatten(TWICE_COMPACTED) == [SECOND] && From([SECOND], 1) == [SECOND]
  {
    hide Flatten, From;
    var v := TWICE_COMPACTED;
    assert v[1..] == [SegView(2, 2, [])];
    FlattenOne(SegView(2, 2, []));
    FlattenLast(v);
    assert v[..1] == [SegView(0, 2, [SECOND])];
    FlattenOne(SegView(0, 2, [SECOND]));
    assert [SECOND] + [] == [SECOND];
    FromAbove([SECOND], 1);
  }

  lemma TwiceCompacts()
    ensures LogWF(TWICE) && Exact(TWICE) && Compacted(TWICE) == TWICE_COMPACTED
    ensures LogWF(TWICE_COMPACTED) && Exact(TWICE_COMPACTED)
  {
    hide Flatten, Latest, Kept, Encode;
    FlattenLast(TWICE);
    assert TWICE[..1] == [SegView(0, 2, [FIRST, SECOND])];
    FlattenOne(SegView(0, 2, [FIRST, SECOND]));
    assert [FIRST, SECOND] + [] == [FIRST, SECOND];
    SecondWins();
  }

  lemma SecondWins()
    ensures Kept([FIRST, SECOND], Latest([FIRST, SECOND])) == [SECOND]
  {
    hide Latest;
    var recs := [FIRST, SECOND];
    assert recs[..1] == [FIRST] && [FIRST][..0] == [];
    LatestIsLast(recs, [7]);
    assert Kept([FIRST], Latest(recs)) == [];
  }

  // --------------------------------------------------------------- torn tails

  /** Recovery leaves torn bytes in place and appends go behind them.  A record appended
      there is decoded at the place where it was written if and only if there were none,
      whatever is written later. */
  lemma ReadAtItsPlaceIff(recs: seq<Record>, tail: seq<byte>, r: Record, more: seq<byte>)
    requires AllFit(recs) && Decode(tail).Ended?
    ensures ReadsAt(EncodeAll(recs) + (tail + (Encode(r) + more)), |EncodeAll(recs)| + |tail|) <==> tail == []
  {
    hide Decode, Encode, Fits, EncodeAll, ReadsAt;
    var bs := tail + (Encode(r) + more);
    ReadsAtFront(recs, bs, |tail|);
    ReadsAtStep(bs, |tail|);
    if tail != [] {
      DecodedPastTail(tail, Encode(r) + more);
    }
  }

  /** The first read that meets a torn tail runs on into what was written behind it. */
  lemma DecodedPastTail(tail: seq<byte>, more: seq<byte>)
    requires tail != [] && Decode(tail).Ended? && more != []
    ensures Decode(tail + more).consumed > |tail|
  {
    hide GetUint, DecodeBody;
    if |tail| >= 4 {
      assert (tail + more)[..4] == tail[..4];
    }
  }

  /** An append behind any tail leaves the readable records exactly as they were if and
      only if the file is still shorter than its next four bytes announce. */
  lemma AppendLostIff(recs: seq<Record>, tail: seq<byte>, r: Record)
    requires AllFit(recs)
    ensures ParseAll(EncodeAll(recs) + (tail + Encode(r))) == Stream(recs) <==>
            |tail| + |Encode(r)| < 4 + GetUint((tail + Encode(r))[..4])
  {
    hide GetUint, Encode, EncodeAll, ParseAll, DecodeBody, Fits;
    ParseWholeIff(recs, tail + Encode(r));
  }

  /** Such an append is forgotten by the next restart: the file is again the same records
      with a torn tail, so the offset that was handed out is handed out again. */
  lemma LostAppendIsForgotten(base: nat, recs: seq<Record>, tail: seq<byte>, r: Record, bytes: seq<byte>)
    requires LogOk(base, recs, tail, bytes)
    ensures LogOk(base, recs, tail + Encode(r), bytes + Encode(r)) <==>
            |tail| + |Encode(r)| < 4 + GetUint((tail + Encode(r))[..4])
  {
    hide GetUint, Encode, EncodeAll, DecodeBody, Fits;
    assert EncodeAll(recs) + tail + Encode(r) == EncodeAll(recs) + (tail + Encode(r));
  }

  const TORN: seq<byte> := [0, 0, 0, 24]
  const PLAIN := Record(0, 0, None, None)
  const PHANTOM := Record(24 * TWO_32, 0, Some([]), None)

  /** Past that length the bytes are swallowed: behind a torn length prefix a record without
      key and value turns into a record that nobody wrote, at an offset nobody assigned. */
  lemma AppendBehindTornTailReadsPhantom()
    ensures Decode(TORN).Ended? && Fits(PLAIN)
    ensures ParseAll(TORN + Encode(PLAIN)) == Stream([PHANTOM])
  {
    hide ParseAll, Decode, Encode;
    var left: seq<byte> := [255, 255, 255, 255];
    TornAndLeft();
    PhantomBytes();
    assert Fits(PHANTOM);
    ParseWhole([PHANTOM], left);
    EncodeOne(PHANTOM);
  }

  lemma TornAndLeft()
    ensures Decode(TORN).Ended? && Decode([255, 255, 255, 255]).Ended?
  {
    hide PutUint, GetUint;
    PhantomFields();
    Get32(24);
    Get32(TWO_32 - 1);
    var left: seq<byte> := [255, 255, 255, 255];
    assert TORN[..4] == TORN && left[..4] == left;
  }

  lemma PhantomBytes()
    ensures TORN + Encode(PLAIN) == Encode(PHANTOM) + [255, 255, 255, 255]
  {
    hide PutUint;
    PhantomFields();
  }

  lemma PhantomFields()
    ensures PutUint(4, 24) == TORN && PutUint(4, 0) == [0, 0, 0, 0]
    ensures PutUint(4, TWO_32 - 1) == [255, 255, 255, 255]
    ensures PutUint(8, 0) == [0, 0, 0, 0, 0, 0, 0, 0]
    ensures PutUint(8, 24 * TWO_32) == [0, 0, 0, 24, 0, 0, 0, 0]
  {
    hide PutUint;
    SmallFields();
    NextByte(3, 0xff_ffff, 255);
    NextByte(4, 24, 0);
    NextByte(5, 24 * 0x100, 0);
    NextByte(6, 24 * 0x1_0000, 0);
    NextByte(7, 24 * 0x100_0000, 0);
  }

  lemma SmallFields()
    ensures PutUint(4, 24) == TORN && PutUint(4, 0) == [0, 0, 0, 0]
    ensures PutUint(3, 0xff_ffff) == [255, 255, 255]
    ensures PutUint(8, 0) == [0, 0, 0, 0, 0, 0, 0, 0]
  {
    hide PutUint;
    Zeros(3);
    Zeros(4);
    Zeros(8);
    NextByte(3, 0, 24);
    assert PutUint(0, 0) == [];
    NextByte(0, 0, 255);
    NextByte(1, 0xff, 255);
    NextByte(2, 0xffff, 255);
  }

  lemma {:induction false} Zeros(width: nat)
    ensures PutUint(width, 0) == seq(width, _ => 0)
  {
    if width > 0 {
      Zeros(width - 1);
    }
  }

  lemma NextByte(width: nat, v: nat, low: byte)
    ensures PutUint(width + 1, v * 256 + low) == PutUint(width, v) + [low]
  {
  }
}
