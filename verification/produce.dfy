/** The record loop of `handleProduce` (internal/server/handler.go:381-426): from the raw
    payload of one partition to records in its log. */
module Produce {
  import opened Bytes
  import opened Seqs
  import opened Files
  import opened Records
  import opened Streams
  import opened LogModel
  import opened LogOps
  import opened LogRuns
  import opened Segments
  import opened PartitionLogs

  /** The records found in a payload, and whether decoding ends in a panic. */
  datatype Batch = Batch(recs: seq<Record>, crashed: bool)

  /** What the loop makes of the remaining payload: decoded records, and a payload that a
      corrupt record interrupts is wrapped, as far as it is unread, into one raw record. */
  function Parse(bs: seq<byte>, now: int64): Batch
    decreases |bs|
  {
    if bs == [] then Batch([], false)
    else
      match Decode(bs)
      case Got(rec, consumed, _) =>
        var rest := Parse(bs[consumed..], now);
        Batch([rec] + rest.recs, rest.crashed)
      case Ended(_, _, _) => Batch([], false)
      case Corrupt(consumed, _) =>
        if consumed == |bs| then Batch([], false)
        else Batch([Record(0, now, None, Some(bs[consumed..]))], false)
      case Panicked(_) => Batch([], true)
  }

  /** A well-formed payload yields its records. */
  lemma {:induction false} ParseEncoded(recs: seq<Record>, now: int64)
    requires AllFit(recs)
    ensures Parse(EncodeAll(recs), now) == Batch(recs, false)
  {
    hide Decode, Encode, Fits, EncodeAll;
    Unfold(recs);
    if recs != [] {
      ParseEncoded(recs[1..], now);
      DecodeHere(recs, [], 0);
      assert recs[0..] == recs;
      assert EncodeAll(recs) + [] == EncodeAll(recs);
      assert EncodeAll(recs[1..]) + [] == EncodeAll(recs[1..]);
      assert [recs[0]] + recs[1..] == recs;
    }
  }

  /** What becomes of payload bytes at which no record can be read, said about the bytes alone:
      a torn record is dropped; behind a corrupt one, whose length is taken from its first
      four bytes, everything that follows becomes the value of one raw record; a record too
      short for its fields ends the loop with a panic. */
  lemma ParseStuck(bs: seq<byte>, now: int64)
    ensures bs == [] || Decode(bs).Ended? ==> Parse(bs, now) == Batch([], false)
    ensures Decode(bs).Panicked? ==> Parse(bs, now) == Batch([], true)
    ensures Decode(bs).Corrupt? ==>
              && 4 + Word32(bs, 0) <= |bs|
              && Parse(bs, now) ==
                 if |bs| == 4 + Word32(bs, 0) then Batch([], false)
                 else Batch([Record(0, now, None, Some(bs[4 + Word32(bs, 0)..]))], false)
  {
    hide Decode, Word32;
    RecordOnDisk(bs);
    NothingLeft();
    UnfoldParse([], now);
    UnfoldParse(bs, now);
  }

  /** Records in front of such bytes are recognised one by one. */
  lemma {:induction false} ParseBehind(recs: seq<Record>, bs: seq<byte>, now: int64)
    requires AllFit(recs)
    ensures var rest := Parse(bs, now);
            Parse(EncodeAll(recs) + bs, now) == Batch(recs + rest.recs, rest.crashed)
  {
    hide Decode, Encode, Fits, EncodeAll, Parse;
    Unfold(recs);
    if recs == [] {
      assert EncodeAll(recs) + bs == bs;
    } else {
      ParseBehind(recs[1..], bs, now);
      DecodeHere(recs, bs, 0);
      assert recs[0..] == recs;
      UnfoldParse(EncodeAll(recs) + bs, now);
      assert [recs[0]] + (recs[1..] + Parse(bs, now).recs) == recs + Parse(bs, now).recs;
    }
  }

  lemma DecodedRecordFits(bs: seq<byte>)
    requires Decode(bs).Got? && |bs| <= MAX_FIELD_BYTES
    ensures Fits(Decode(bs).rec)
  {
    hide Decode;
    DecodedFits(bs);
  }

  lemma RawRecordFits(raw: seq<byte>, now: int64)
    requires |raw| <= MAX_FIELD_BYTES
    ensures Fits(Record(0, now, None, Some(raw)))
  {
  }

  lemma {:induction false} ParsedFits(bs: seq<byte>, now: int64)
    requires |bs| <= MAX_FIELD_BYTES
    ensures AllFit(Parse(bs, now).recs) && |Parse(bs, now).recs| <= |bs|
    decreases |bs|
  {
    hide Decode, Fits;
    if bs != [] {
      match Decode(bs) {
        case Got(rec, consumed, _) =>
          ParsedFits(bs[consumed..], now);
          DecodedRecordFits(bs);
        case Corrupt(consumed, _) =>
          RawRecordFits(bs[consumed..], now);
        case _ =>
      }
    }
  }

  /** The log after appending all of `recs`. */
  ghost function AppendAll(v: seq<SegView>, maxBytes: int, recs: seq<Record>): (w: seq<SegView>)
    requires LogWF(v) && maxBytes > 0 && AllFit(recs) && LEO(v) + |recs| <= TWO_64
    ensures LogWF(w) && LEO(w) == LEO(v) + |recs| && w[0].base == v[0].base
    ensures Exact(v) ==> Exact(w)
    decreases |recs|
  {
    if recs == [] then v
    else
      AppendKeepsWF(v, maxBytes, recs[0]);
      AppendAll(Appended(v, maxBytes, recs[0]), maxBytes, recs[1..])
  }

  /** Across any rolls, the plain log grows by the records in order at consecutive offsets
      from the old log end offset. */
  lemma {:induction false} AppendAllPlain(v: seq<SegView>, maxBytes: int, recs: seq<Record>)
    requires LogWF(v) && maxBytes > 0 && AllFit(recs) && LEO(v) + |recs| <= TWO_64
    ensures Flatten(AppendAll(v, maxBytes, recs)) == Flatten(v) + Stamp(recs, LEO(v))
    decreases |recs|
  {
    hide Flatten, AllOk, Ordered, ActiveOk, Appended, Exact, Fits;
    if recs == [] {
      assert Flatten(v) + [] == Flatten(v);
    } else {
      AppendKeepsWF(v, maxBytes, recs[0]);
      AppendGrowsPlain(v, maxBytes, recs[0]);
      AppendAllPlain(Appended(v, maxBytes, recs[0]), maxBytes, recs[1..]);
      Assoc(Flatten(v), [recs[0].(offset := LEO(v))], Stamp(recs[1..], LEO(v) + 1));
    }
  }

  /** Everything stored lies below the log end offset. */
  lemma PlainBelowEnd(v: seq<SegView>)
    requires LogWF(v)
    ensures AllBelow(Flatten(v), LEO(v)) && v[0].base <= LEO(v)
  {
    hide Flatten, Fits;
    forall i | 0 <= i < |v|
      ensures AllBelow(v[i].recs, LEO(v)) && v[i].base <= LEO(v)
    {
      if i < |v| - 1 {
        assert Before(v[i], Last(v));
      }
    }
    FlattenBelow(v, LEO(v));
  }

  /** However much older segments have forgotten, the one that was active before the batch
      and all that follow it know where they end. */
  lemma LastStaysKnown(v: seq<SegView>, maxBytes: int, recs: seq<Record>)
    requires LogWF(v) && maxBytes > 0 && AllFit(recs) && LEO(v) + |recs| <= TWO_64
    ensures var w, k := AppendAll(v, maxBytes, recs), |v| - 1;
            k < |w| && w[k].base <= LEO(v) && ExactFrom(w, k)
  {
    hide AllOk, Ordered, AppendAll;
    KnownAfterAll(v, maxBytes, recs, |v| - 1);
  }

  lemma {:induction false} KnownAfterAll(v: seq<SegView>, maxBytes: int, recs: seq<Record>, k: nat)
    requires LogWF(v) && maxBytes > 0 && AllFit(recs) && LEO(v) + |recs| <= TWO_64
    requires k < |v| && ExactFrom(v, k)
    ensures var w := AppendAll(v, maxBytes, recs);
            k < |w| && w[k].base == v[k].base && ExactFrom(w, k)
    decreases |recs|
  {
    hide AllOk, Ordered, ActiveOk, Appended, Exact, ExactFrom, Fits;
    if recs != [] {
      AppendKeepsWF(v, maxBytes, recs[0]);
      AppendKeepsKnown(v, maxBytes, recs[0], k);
      KnownAfterAll(Appended(v, maxBytes, recs[0]), maxBytes, recs[1..], k);
    }
  }

  /** Producing an encoded batch and reading from the reported base offset returns exactly
      the batch, with consecutive offsets. */
  lemma ProduceThenRead(v: seq<SegView>, maxBytes: int, recs: seq<Record>, now: int64)
    requires LogWF(v) && maxBytes > 0 && AllFit(recs) && LEO(v) + |recs| <= TWO_64
    ensures Parse(EncodeAll(recs), now) == Batch(recs, false)
    ensures ReadSegments(AppendAll(v, maxBytes, Parse(EncodeAll(recs), now).recs), LEO(v)) == Stamp(recs, LEO(v))
  {
    hide Flatten, From, AllOk, Ordered, ActiveOk, AppendAll, Exact, ReadSegments, AllBelow, Stamp, Parse, EncodeAll,
         Fits, ExactFrom, Answer;
    ParseEncoded(recs, now);
    var w, stored := AppendAll(v, maxBytes, recs), Stamp(recs, LEO(v));
    AppendAllPlain(v, maxBytes, recs);
    ReadAnywhere(w, LEO(v));
    LastStaysKnown(v, maxBytes, recs);
    KnownAnswer(w, |v| - 1, LEO(v));
    PlainBelowEnd(v);
    FromConcat(Flatten(v), stored, LEO(v));
    FromBelow(Flatten(v), LEO(v));
    FromAbove(stored, LEO(v));
  }

  datatype Ack = Acked(baseOffset: int64) | Panic

  lemma UnfoldParse(bs: seq<byte>, now: int64)
    ensures var out := Decode(bs);
            var rest := bs[out.consumed..];
            Parse(bs, now) ==
              if bs == [] || out.Ended? || (out.Corrupt? && rest == []) then Batch([], false)
              else if out.Got? then Batch([out.rec] + Parse(rest, now).recs, Parse(rest, now).crashed)
              else if out.Corrupt? then
                Batch([Record(0, now, None, Some(rest))] + Parse([], now).recs, Parse([], now).crashed)
              else Batch([], true)
  {
    hide Decode;
  }

  lemma AppendAllStep(v: seq<SegView>, maxBytes: int, recs: seq<Record>)
    requires LogWF(v) && maxBytes > 0 && AllFit(recs) && recs != [] && LEO(v) + |recs| <= TWO_64
    ensures Fits(recs[0]) && AllFit(recs[1..])
    ensures var w := Appended(v, maxBytes, recs[0]);
            && LogWF(w) && LEO(w) == LEO(v) + 1
            && AppendAll(v, maxBytes, recs) == AppendAll(w, maxBytes, recs[1..])
  {
    hide AllOk, Ordered, ActiveOk, Appended, Exact, Fits;
    AppendKeepsWF(v, maxBytes, recs[0]);
  }

  /** One turn: the next record of the payload, or the end of the loop. */
  method NextRecord(reader: File, now: int64) returns (rec: Option<Record>, panicked: bool)
    requires reader.Valid() && reader.Rest() != []
    modifies reader
    ensures reader.Valid() && (rec.Some? ==> |reader.Rest()| < |old(reader.Rest())|)
    ensures var bs := old(reader.Rest());
            match rec
            case Some(r) => !panicked && Parse(bs, now) == Batch([r] + Parse(reader.Rest(), now).recs,
                                                                 Parse(reader.Rest(), now).crashed)
            case None => Parse(bs, now) == Batch([], panicked)
  {
    hide Decode, Parse;
    ghost var bs := reader.Rest();
    UnfoldParse(bs, now);
    var out := ReadRecord(reader);
    if out.Got? {
      return Some(out.rec), false;
    }
    if out.Panicked? {
      return None, true;
    }
    var unread := |reader.bytes| - reader.cursor;
    if unread == 0 {
      return None, false;
    }
    ghost var rest := reader.Rest();
    var raw := reader.ReadFull(unread);
    assert raw == rest && reader.Rest() == [];
    return Some(Record(0, now, None, Some(raw))), false;
  }

  /** The loop.  An empty result is acknowledged with base offset 0. */
  method ProduceRecords(log: PartitionLog, data: seq<byte>, now: int64) returns (ack: Ack)
    requires log.Valid() && log.activeSegment.tail == []
    requires |data| <= MAX_FIELD_BYTES && LEO(log.Views()) + |data| < TWO_64
    modifies log, log.Repr
    ensures log.Valid() && fresh(log.Repr - old(log.Repr))
    ensures AllFit(Parse(data, now).recs) && |Parse(data, now).recs| <= |data|
    ensures log.Views() == AppendAll(old(log.Views()), log.maxSegmentBytes, Parse(data, now).recs)
    ensures ack == if Parse(data, now).crashed then Panic
                   else Acked(if Parse(data, now).recs == [] then 0 else AsInt64(LEO(old(log.Views()))))
  {
    hide PartitionLog.Valid, PartitionLog.WroteBehind, LogWF, Fits, AppendAll, Appended, Parse, Progress, AsInt64, U64,
         AllFit, ViewsOf;
    ghost var start, max := log.Views(), log.maxSegmentBytes;
    log.WellFormed();
    ParsedFits(data, now);
    ghost var all := Parse(data, now);
    var reader := new File(data);
    var firstOffset: int64 := -1;
    ProgressStart(start, max, all);
    while |reader.bytes| - reader.cursor > 0
      invariant reader.Valid() && reader !in log.Repr
      invariant log.Valid() && log.activeSegment.tail == [] && fresh(log.Repr - old(log.Repr))
      invariant Progress(start, max, all, log.Views(), Parse(reader.Rest(), now), firstOffset)
      decreases |reader.Rest()|
    {
      ghost var left := Parse(reader.Rest(), now);
      var rec, panicked := NextRecord(reader, now);
      if rec.None? {
        ProgressDone(start, max, all, log.Views(), left, firstOffset);
        if panicked {
          return Panic;
        }
        return Acked(if firstOffset == -1 then 0 else firstOffset);
      }
      ProgressStep(start, max, all, log.Views(), left, firstOffset);
      assert left.recs[1..] == Parse(reader.Rest(), now).recs;
      var stored := log.Append(rec.value);
      if firstOffset == -1 {
        firstOffset := AsInt64(stored.offset);
      }
    }
    UnfoldParse([], now);
    ProgressDone(start, max, all, log.Views(), Parse(reader.Rest(), now), firstOffset);
    ack := Acked(if firstOffset == -1 then 0 else firstOffset);
  }

  /** Where the loop stands: `cur` is the log so far, `left` what is still to come, and
      `first` the reported base offset, -1 as long as nothing has been appended. */
  ghost predicate Progress(start: seq<SegView>, max: int, all: Batch, cur: seq<SegView>, left: Batch, first: int)
  {
    && LogWF(start) && LogWF(cur) && max > 0
    && AllFit(all.recs) && LEO(start) + |all.recs| < TWO_64
    && AllFit(left.recs) && LEO(cur) + |left.recs| < TWO_64
    && AppendAll(start, max, all.recs) == AppendAll(cur, max, left.recs)
    && all.crashed == left.crashed
    && (first == -1 ==> cur == start && left.recs == all.recs)
    && (first != -1 ==> first == AsInt64(LEO(start)) && all.recs != [])
  }

  lemma ProgressStart(start: seq<SegView>, max: int, all: Batch)
    requires LogWF(start) && max > 0 && AllFit(all.recs) && LEO(start) + |all.recs| < TWO_64
    ensures Progress(start, max, all, start, all, -1)
  {
  }

  lemma ProgressStep(start: seq<SegView>, max: int, all: Batch, cur: seq<SegView>, left: Batch, first: int)
    requires Progress(start, max, all, cur, left, first) && left.recs != []
    ensures cur != [] && LEO(cur) + 1 < TWO_64 && Fits(left.recs[0])
    ensures Progress(start, max, all, Appended(cur, max, left.recs[0]), Batch(left.recs[1..], left.crashed),
                     if first == -1 then AsInt64(LEO(cur)) else first)
  {
    hide AllOk, Ordered, ActiveOk, Fits, AppendAll, Appended, AsInt64, U64, AllFit;
    AppendAllStep(cur, max, left.recs);
    NotMinusOne(LEO(start));
  }

  lemma ProgressDone(start: seq<SegView>, max: int, all: Batch, cur: seq<SegView>, left: Batch, first: int)
    requires Progress(start, max, all, cur, left, first) && left.recs == []
    ensures LogWF(start) && max > 0 && AllFit(all.recs) && LEO(start) + |all.recs| < TWO_64
    ensures cur == AppendAll(start, max, all.recs) && all.crashed == left.crashed
    ensures first == -1 <==> all.recs == []
    ensures all.recs != [] ==> first == AsInt64(LEO(start))
  {
    hide AllOk, Ordered, ActiveOk, Fits, AppendAll, AsInt64, U64, AllFit;
    NothingToAppend(cur, max);
  }

  lemma NothingToAppend(v: seq<SegView>, maxBytes: int)
    requires LogWF(v) && maxBytes > 0 && LEO(v) <= TWO_64
    ensures AppendAll(v, maxBytes, []) == v
  {
  }
}
