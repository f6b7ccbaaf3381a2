/** Whole runs on an open log: any interleaving of appends, reads, oldest-segment removals
    and compactions, starting from any well-formed log, one reopened after compaction
    included. */
module LogRuns {
  import opened Bytes
  import opened Seqs
  import opened Records
  import opened Streams
  import opened LogModel
  import opened Compaction
  import opened LogOps

  datatype Op = Append(r: Record) | Fetch(s: uint64) | RemoveOldest | Compact

  predicate OpFits(op: Op)
  {
    op.Append? ==> Fits(op.r)
  }

  predicate OpsFit(ops: seq<Op>)
  {
    forall i :: 0 <= i < |ops| ==> OpFits(ops[i])
  }

  function Step(v: seq<SegView>, maxBytes: int, op: Op): seq<SegView>
    requires v != [] && LEO(v) < TWO_64
  {
    match op
    case Append(r) => Appended(v, maxBytes, r)
    case Fetch(_) => v
    case RemoveOldest => WithoutOldest(v)
    case Compact => Compacted(v)
  }

  /** Every step keeps the log well formed, keeps known segment ends known, and moves the
      log's end by one exactly when it appends. */
  lemma StepKeeps(v: seq<SegView>, maxBytes: int, op: Op)
    requires LogWF(v) && maxBytes > 0 && OpFits(op) && LEO(v) < TWO_64
    ensures var w := Step(v, maxBytes, op);
            && LogWF(w) && (Exact(v) ==> Exact(w))
            && LEO(w) == LEO(v) + (if op.Append? then 1 else 0)
            && v[0].base <= w[0].base
  {
    hide Flatten, Latest, SegOk, ActiveOk, Appended, CompactFirst;
    match op {
      case Append(r) =>
        AppendKeepsWF(v, maxBytes, r);
      case Fetch(_) =>
      case RemoveOldest =>
        RemoveKeepsWF(v);
        if |v| > 1 {
          assert Before(v[0], v[1]);
        }
      case Compact =>
        if |v| > 1 {
          CompactFirstKeepsWF(v, |v| - 1, Latest(Flatten(v)));
          CompactFirstBase(v, |v| - 1, Latest(Flatten(v)));
        }
    }
  }

  lemma CompactFirstBase(v: seq<SegView>, k: nat, latest: map<Key, nat>)
    requires v != []
    ensures CompactFirst(v, k, latest)[0].base == v[0].base
  {
    hide Kept;
  }

  /** The log after a run; the run must not exhaust the 64-bit offsets. */
  ghost function Run(v: seq<SegView>, maxBytes: int, ops: seq<Op>): (w: seq<SegView>)
    requires LogWF(v) && maxBytes > 0 && OpsFit(ops) && LEO(v) + |ops| <= TWO_64
    ensures LogWF(w) && (Exact(v) ==> Exact(w))
    ensures LEO(w) == LEO(v) + |Sent(ops)|
    ensures v[0].base <= w[0].base
    decreases |ops|
  {
    if ops == [] then v
    else
      StepKeeps(v, maxBytes, ops[0]);
      Run(Step(v, maxBytes, ops[0]), maxBytes, ops[1..])
  }

  /** The records a run appends, in order. */
  function Sent(ops: seq<Op>): (rs: seq<Record>)
    ensures |rs| <= |ops|
  {
    if ops == [] then []
    else (if ops[0].Append? then [ops[0].r] else []) + Sent(ops[1..])
  }

  /** `rs` with the offsets `next`, `next + 1`, ... */
  function Stamp(rs: seq<Record>, next: nat): (stored: seq<Record>)
    requires next + |rs| <= TWO_64
    ensures |stored| == |rs|
    ensures Contiguous(next, stored)
    decreases |rs|
  {
    if rs == [] then [] else [rs[0].(offset := next)] + Stamp(rs[1..], next + 1)
  }

  /** Nothing but the offset changes when a record is stored. */
  lemma {:induction false} StampAt(rs: seq<Record>, next: nat, k: nat)
    requires next + |rs| <= TWO_64 && k < |rs|
    ensures Stamp(rs, next)[k] == rs[k].(offset := next + k)
    decreases |rs|
  {
    if k > 0 {
      StampAt(rs[1..], next + 1, k - 1);
    }
  }

  /** Reads after any run: a suffix of the stored records in strictly increasing order,
      none below the start.  From a log whose segments all know their ends it is exactly
      the stored records at or above the start, and nothing for a start below the base. */
  lemma ReadAfterRun(v: seq<SegView>, maxBytes: int, ops: seq<Op>, s: int)
    requires LogWF(v) && maxBytes > 0 && OpsFit(ops) && LEO(v) + |ops| <= TWO_64
    ensures var w := Run(v, maxBytes, ops);
            && ReadSegments(w, s) == Answer(w, s)
            && IsSuffix(ReadSegments(w, s), Flatten(w))
            && Increasing(ReadSegments(w, s)) && AllFrom(ReadSegments(w, s), s)
            && (Exact(v) ==>
                ReadSegments(w, s) == if s < w[0].base then [] else From(Flatten(w), s))
  {
    hide Flatten, AllOk, Ordered, ActiveOk, Exact, From, ReadSegments, Run, Answer, IsSuffix, Increasing, AllFrom;
    var w := Run(v, maxBytes, ops);
    ReadAnywhere(w, s);
    AnswerIsSuffix(w, s);
    if Exact(w) {
      ReadRefines(w, s);
    }
  }

  /** The answers to the reads of a run, in order. */
  ghost function Answers(v: seq<SegView>, maxBytes: int, ops: seq<Op>): seq<seq<Record>>
    requires LogWF(v) && maxBytes > 0 && OpsFit(ops) && LEO(v) + |ops| <= TWO_64
    decreases |ops|
  {
    if ops == [] then []
    else
      StepKeeps(v, maxBytes, ops[0]);
      (if ops[0].Fetch? then [Answer(v, ops[0].s)] else []) +
      Answers(Step(v, maxBytes, ops[0]), maxBytes, ops[1..])
  }

  // ------------------------------------------------------------- segment sizes

  /** Every closed segment has reached the size at which the log rolls. */
  predicate ClosedFull(v: seq<SegView>, maxBytes: int)
  {
    forall i :: 0 <= i < |v| - 1 ==> |EncodeAll(v[i].recs)| >= maxBytes
  }

  /** No segment exceeds that size by as much as one record. */
  predicate Bounded(v: seq<SegView>, maxBytes: int, largest: int)
  {
    forall i :: 0 <= i < |v| ==> |EncodeAll(v[i].recs)| < maxBytes + largest
  }

  lemma StampedSize(r: Record, offset: uint64)
    ensures |Encode(r.(offset := offset))| == |Encode(r)|
  {
  }

  lemma AppendSizes(v: seq<SegView>, maxBytes: int, r: Record, largest: int)
    requires LogWF(v) && maxBytes > 0 && LEO(v) < TWO_64
    ensures ClosedFull(v, maxBytes) ==> ClosedFull(Appended(v, maxBytes, r), maxBytes)
    ensures Bounded(v, maxBytes, largest) && |Encode(r)| <= largest ==>
              Bounded(Appended(v, maxBytes, r), maxBytes, largest)
  {
    hide AllOk, Ordered, ActiveOk, Encode, EncodeAll;
    var x, stored := Last(v), r.(offset := LEO(v));
    StampedSize(r, LEO(v));
    EncodeOne(stored);
    EncodeAppend(x.recs, stored);
  }

  lemma CompactSizes(v: seq<SegView>, maxBytes: int, largest: int)
    requires Bounded(v, maxBytes, largest)
    ensures Bounded(Compacted(v), maxBytes, largest)
  {
    hide EncodeAll, Kept, Latest, Flatten;
    var latest := Latest(Flatten(v));
    forall i | 0 <= i < |v|
      ensures |EncodeAll(Kept(v[i].recs, latest))| < maxBytes + largest
    {
      KeptSize(v[i].recs, latest);
    }
  }

  /** The segment size limit over any run: no segment ever exceeds it by as much as one
      record, and without compaction every closed segment has reached it. */
  lemma {:induction false} SegmentSizes(v: seq<SegView>, maxBytes: int, ops: seq<Op>, largest: int)
    requires LogWF(v) && maxBytes > 0 && OpsFit(ops) && LEO(v) + |ops| <= TWO_64
    requires Bounded(v, maxBytes, largest)
    requires forall i :: 0 <= i < |ops| && ops[i].Append? ==> |Encode(ops[i].r)| <= largest
    ensures Bounded(Run(v, maxBytes, ops), maxBytes, largest)
    ensures ClosedFull(v, maxBytes) && (forall i :: 0 <= i < |ops| ==> !ops[i].Compact?) ==>
              ClosedFull(Run(v, maxBytes, ops), maxBytes)
    decreases |ops|
  {
    hide AllOk, Ordered, ActiveOk, Exact, Encode, EncodeAll, Appended, Compacted, Bounded, ClosedFull, Flatten;
    if ops != [] {
      StepKeeps(v, maxBytes, ops[0]);
      var w := Step(v, maxBytes, ops[0]);
      match ops[0] {
        case Append(r) => AppendSizes(v, maxBytes, r, largest);
        case Fetch(_) =>
        case RemoveOldest => RemoveSizes(v, maxBytes, largest);
        case Compact => CompactSizes(v, maxBytes, largest);
      }
      SegmentSizes(w, maxBytes, ops[1..], largest);
    }
  }

  lemma RemoveSizes(v: seq<SegView>, maxBytes: int, largest: int)
    ensures ClosedFull(v, maxBytes) ==> ClosedFull(WithoutOldest(v), maxBytes)
    ensures Bounded(v, maxBytes, largest) ==> Bounded(WithoutOldest(v), maxBytes, largest)
  {
    hide EncodeAll;
  }

  predicate NoRemoval(ops: seq<Op>)
  {
    forall i :: 0 <= i < |ops| ==> !ops[i].RemoveOldest?
  }

  /** A run without compaction and removal, reads at any points included, adds exactly the
      records appended to the plain log: the k-th takes the old log end offset plus k. */
  lemma {:induction false} AppendsOnly(v: seq<SegView>, maxBytes: int, ops: seq<Op>)
    requires LogWF(v) && maxBytes > 0 && OpsFit(ops) && LEO(v) + |ops| <= TWO_64
    requires forall i :: 0 <= i < |ops| ==> ops[i].Append? || ops[i].Fetch?
    ensures Flatten(Run(v, maxBytes, ops)) == Flatten(v) + Stamp(Sent(ops), LEO(v))
    decreases |ops|
  {
    hide Flatten, AllOk, Ordered, ActiveOk, Exact, Appended, Stamp, Sent;
    if ops == [] {
      assert Stamp(Sent(ops), LEO(v)) == [];
      assert Flatten(v) + [] == Flatten(v);
    } else {
      var w := Step(v, maxBytes, ops[0]);
      StepKeeps(v, maxBytes, ops[0]);
      AppendsOnly(w, maxBytes, ops[1..]);
      StampStep(ops, LEO(v));
      if ops[0].Append? {
        AppendGrowsPlain(v, maxBytes, ops[0].r);
        Assoc(Flatten(v), [ops[0].r.(offset := LEO(v))], Stamp(Sent(ops[1..]), LEO(v) + 1));
      }
    }
  }

  lemma StampStep(ops: seq<Op>, next: nat)
    requires ops != [] && next + |ops| <= TWO_64
    ensures ops[0].Append? ==>
              Stamp(Sent(ops), next) == [ops[0].r.(offset := next)] + Stamp(Sent(ops[1..]), next + 1)
    ensures !ops[0].Append? ==> Sent(ops) == Sent(ops[1..])
  {
    if ops[0].Append? {
      assert Sent(ops)[1..] == Sent(ops[1..]);
    }
  }

  /** Compaction is invisible: in any run without retention, compactions at any points
      leave the key-value view that the appends alone would have produced. */
  lemma {:induction false} CompactionInvisible(v: seq<SegView>, maxBytes: int, ops: seq<Op>)
    requires LogWF(v) && maxBytes > 0 && OpsFit(ops) && LEO(v) + |ops| <= TWO_64
    requires NoRemoval(ops)
    ensures KeyValues(Flatten(Run(v, maxBytes, ops))) == KeyValues(Flatten(v) + Stamp(Sent(ops), LEO(v)))
    decreases |ops|
  {
    hide Flatten, AllOk, Ordered, ActiveOk, Exact, Appended, KeyValues, Latest, CompactFirst, Stamp, Sent;
    if ops == [] {
      assert Stamp(Sent(ops), LEO(v)) == [];
      assert Flatten(v) + [] == Flatten(v);
    } else {
      var w := Step(v, maxBytes, ops[0]);
      StepKeeps(v, maxBytes, ops[0]);
      CompactionInvisible(w, maxBytes, ops[1..]);
      var more := Stamp(Sent(ops[1..]), LEO(w));
      StampStep(ops, LEO(v));
      if ops[0].Append? {
        AppendGrowsPlain(v, maxBytes, ops[0].r);
        Assoc(Flatten(v), [ops[0].r.(offset := LEO(v))], more);
      } else {
        if ops[0].Compact? && |v| > 1 {
          EveryRewriteKeepsView(v, |v| - 1);
        }
        ViewExtends(Flatten(w), Flatten(v), more);
      }
    }
  }

  /** The view of a longer log depends on the view of its beginning only. */
  lemma {:induction false} ViewExtends(a: seq<Record>, b: seq<Record>, more: seq<Record>)
    requires KeyValues(a) == KeyValues(b)
    ensures KeyValues(a + more) == KeyValues(b + more)
  {
    hide KeyValues, Applied;
    if more == [] {
      assert a + more == a && b + more == b;
    } else {
      var init, r := more[..|more| - 1], more[|more| - 1];
      ViewExtends(a, b, init);
      assert more == init + [r];
      Assoc(a, init, [r]);
      Assoc(b, init, [r]);
      ViewAppend(a + init, r);
      ViewAppend(b + init, r);
    }
  }

  /** The offsets a run hands out, in order. */
  ghost function Assigned(v: seq<SegView>, maxBytes: int, ops: seq<Op>): seq<nat>
    requires LogWF(v) && maxBytes > 0 && OpsFit(ops) && LEO(v) + |ops| <= TWO_64
    decreases |ops|
  {
    if ops == [] then []
    else
      StepKeeps(v, maxBytes, ops[0]);
      (if ops[0].Append? then [LEO(v)] else []) + Assigned(Step(v, maxBytes, ops[0]), maxBytes, ops[1..])
  }

  /** No offset is ever reused: the k-th append of a run takes the initial log end offset
      plus k, whatever is removed or compacted in between. */
  lemma {:induction false} OffsetsNeverReused(v: seq<SegView>, maxBytes: int, ops: seq<Op>)
    requires LogWF(v) && maxBytes > 0 && OpsFit(ops) && LEO(v) + |ops| <= TWO_64
    ensures |Assigned(v, maxBytes, ops)| == |Sent(ops)|
    ensures forall k :: 0 <= k < |Sent(ops)| ==> Assigned(v, maxBytes, ops)[k] == LEO(v) + k
    decreases |ops|
  {
    hide AllOk, Ordered, ActiveOk, Exact, Step;
    if ops != [] {
      StepKeeps(v, maxBytes, ops[0]);
      OffsetsNeverReused(Step(v, maxBytes, ops[0]), maxBytes, ops[1..]);
    }
  }
}
