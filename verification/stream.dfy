/** Sequences of records as byte streams: what a log file holds, where each record
    starts, what a sequential parser makes of a whole or cut stream, and the
    offset filter that a read applies. */
module Streams {
  import opened Bytes
  import opened Seqs
  import opened Files
  import opened Records

  predicate AllFit(recs: seq<Record>)
  {
    forall i :: 0 <= i < |recs| ==> Fits(recs[i])
  }

  predicate Increasing(recs: seq<Record>)
  {
    forall i, j :: 0 <= i < j < |recs| ==> recs[i].offset < recs[j].offset
  }

  predicate AllBelow(recs: seq<Record>, s: int)
  {
    forall i :: 0 <= i < |recs| ==> recs[i].offset < s
  }

  predicate AllFrom(recs: seq<Record>, s: int)
  {
    forall i :: 0 <= i < |recs| ==> s <= recs[i].offset
  }

  function EncodeAll(recs: seq<Record>): seq<byte>
  {
    if recs == [] then [] else Encode(recs[0]) + EncodeAll(recs[1..])
  }

  /** The byte position at which record `k` starts. */
  function Pos(recs: seq<Record>, k: nat): nat
    requires k <= |recs|
  {
    |EncodeAll(recs[..k])|
  }

  lemma EncodeOne(r: Record)
    ensures EncodeAll([r]) == Encode(r)
  {
    hide Encode;
    assert [r][1..] == [];
  }

  lemma Unfold(recs: seq<Record>)
    ensures EncodeAll(recs) == if recs == [] then [] else Encode(recs[0]) + EncodeAll(recs[1..])
  {
  }

  lemma {:induction false} EncodeConcat(a: seq<Record>, b: seq<Record>)
    ensures EncodeAll(a + b) == EncodeAll(a) + EncodeAll(b)
  {
    hide Encode, EncodeAll;
    Unfold(a);
    if a == [] {
      assert a + b == b;
    } else {
      Unfold(a + b);
      EncodeConcat(a[1..], b);
      assert (a + b)[1..] == a[1..] + b;
      var x, y, z := Encode(a[0]), EncodeAll(a[1..]), EncodeAll(b);
      assert x + (y + z) == x + y + z;
    }
  }

  lemma EncodeSplit(recs: seq<Record>, k: nat)
    requires k <= |recs|
    ensures EncodeAll(recs) == EncodeAll(recs[..k]) + EncodeAll(recs[k..])
  {
    hide EncodeAll;
    EncodeConcat(recs[..k], recs[k..]);
    assert recs[..k] + recs[k..] == recs;
  }

  lemma EncodeAppend(recs: seq<Record>, r: Record)
    ensures EncodeAll(recs + [r]) == EncodeAll(recs) + Encode(r)
  {
    hide Encode, EncodeAll;
    EncodeConcat(recs, [r]);
    EncodeOne(r);
  }

  lemma PosStep(recs: seq<Record>, k: nat)
    requires k < |recs|
    ensures Pos(recs, k + 1) == Pos(recs, k) + |Encode(recs[k])|
    ensures Pos(recs, k) + 28 <= Pos(recs, k + 1)
  {
    hide Encode;
    assert recs[..k + 1] == recs[..k] + [recs[k]];
    EncodeAppend(recs[..k], recs[k]);
  }

  lemma PosEnd(recs: seq<Record>)
    ensures Pos(recs, |recs|) == |EncodeAll(recs)|
  {
    assert recs[..|recs|] == recs;
  }

  lemma {:induction false} PosMonotone(recs: seq<Record>, i: nat, j: nat)
    requires i <= j <= |recs|
    ensures Pos(recs, i) <= Pos(recs, j)
    ensures i < j ==> Pos(recs, i) + 28 <= Pos(recs, j)
    decreases j - i
  {
    hide Pos;
    if i < j {
      PosMonotone(recs, i, j - 1);
      PosStep(recs, j - 1);
    }
  }

  lemma PosOfPrefix(a: seq<Record>, b: seq<Record>, k: nat)
    requires k <= |a|
    ensures Pos(a + b, k) == Pos(a, k)
  {
    assert (a + b)[..k] == a[..k];
  }

  /** A sequential read starting at record `k` sees record `k` first. */
  lemma DropAtRecord(recs: seq<Record>, tail: seq<byte>, k: nat)
    requires k <= |recs|
    ensures Pos(recs, k) <= |EncodeAll(recs) + tail|
    ensures (EncodeAll(recs) + tail)[Pos(recs, k)..] == EncodeAll(recs[k..]) + tail
  {
    hide EncodeAll;
    EncodeSplit(recs, k);
    Assoc(EncodeAll(recs[..k]), EncodeAll(recs[k..]), tail);
    DropFirst(EncodeAll(recs[..k]), EncodeAll(recs[k..]) + tail);
  }

  /** The parser's step in the middle of a well-formed stream. */
  lemma DecodeHere(recs: seq<Record>, tail: seq<byte>, k: nat)
    requires k < |recs| && Fits(recs[k])
    ensures var bs := EncodeAll(recs[k..]) + tail;
            && Decode(bs) == Got(recs[k], |Encode(recs[k])|, |Encode(recs[k])|)
            && bs[|Encode(recs[k])|..] == EncodeAll(recs[k + 1..]) + tail
  {
    hide Decode, Encode, Fits;
    var r := recs[k];
    assert recs[k..][0] == r && recs[k..][1..] == recs[k + 1..];
    RoundTripIff(r, EncodeAll(recs[k + 1..]) + tail);
    assert EncodeAll(recs[k..]) + tail == Encode(r) + (EncodeAll(recs[k + 1..]) + tail);
  }

  // ---------------------------------------------------------------- parsing

  datatype ParseResult = Stream(recs: seq<Record>) | Failed | Crashed

  /** `ParseRecordStream` on the bytes `bs`. */
  function ParseAll(bs: seq<byte>): ParseResult
    decreases |bs|
  {
    match Decode(bs)
    case Got(rec, consumed, _) =>
      (match ParseAll(bs[consumed..])
       case Stream(more) => Stream([rec] + more)
       case Failed => Failed
       case Crashed => Crashed)
    case Ended(_, _, _) => Stream([])
    case Corrupt(_, _) => Failed
    case Panicked(_) => Crashed
  }

  /** Whole records in front of any bytes are parsed one by one; what follows them is up to
      those bytes alone. */
  lemma {:induction false} ParseFront(recs: seq<Record>, bs: seq<byte>)
    requires AllFit(recs)
    ensures ParseAll(EncodeAll(recs) + bs) == Prepend(recs, ParseAll(bs))
  {
    hide Decode, Encode, Fits, EncodeAll, ParseAll;
    Unfold(recs);
    if recs == [] {
      assert EncodeAll(recs) + bs == bs;
      PrependNone(ParseAll(bs));
    } else {
      ParseFront(recs[1..], bs);
      DecodeHere(recs, bs, 0);
      assert recs[0..] == recs;
      ParseStep(EncodeAll(recs) + bs);
      PrependFirst(recs, ParseAll(bs));
    }
  }

  lemma PrependNone(rest: ParseResult)
    ensures Prepend([], rest) == rest
  {
    if rest.Stream? {
      assert [] + rest.recs == rest.recs;
    }
  }

  lemma PrependFirst(recs: seq<Record>, rest: ParseResult)
    requires recs != []
    ensures Prepend([recs[0]], Prepend(recs[1..], rest)) == Prepend(recs, rest)
  {
    if rest.Stream? {
      assert [recs[0]] + (recs[1..] + rest.recs) == recs + rest.recs;
    }
  }

  /** A stream of whole records and some bytes behind them parses to exactly those records
      if and only if the decoder runs into the end of those bytes. */
  lemma ParseWholeIff(recs: seq<Record>, tail: seq<byte>)
    requires AllFit(recs)
    ensures ParseAll(EncodeAll(recs) + tail) == Stream(recs) <==> Decode(tail).Ended?
  {
    hide Decode, Fits, EncodeAll, ParseAll;
    ParseFront(recs, tail);
    if Decode(tail).Ended? {
      ParseEnds(tail);
      assert recs + [] == recs;
    } else if Decode(tail).Got? {
      ParseStep(tail);
      PrependStep(recs, Decode(tail).rec, ParseAll(tail[Decode(tail).consumed..]));
    } else {
      ParseStops(tail);
    }
  }

  /** A stream of whole records, possibly followed by a torn one, parses to exactly
      those records. */
  lemma ParseWhole(recs: seq<Record>, tail: seq<byte>)
    requires AllFit(recs) && Decode(tail).Ended?
    ensures ParseAll(EncodeAll(recs) + tail) == Stream(recs)
  {
    hide Decode, Fits, EncodeAll, ParseAll;
    ParseWholeIff(recs, tail);
  }

  /** The parser of `bs` calls the decoder at byte `p`. */
  predicate ReadsAt(bs: seq<byte>, p: nat)
    decreases |bs|
  {
    || p == 0
    || (Decode(bs).Got? && Decode(bs).consumed <= p && ReadsAt(bs[Decode(bs).consumed..], p - Decode(bs).consumed))
  }

  lemma ReadsAtStep(bs: seq<byte>, p: nat)
    ensures ReadsAt(bs, p) <==>
            || p == 0
            || (Decode(bs).Got? && Decode(bs).consumed <= p &&
                ReadsAt(bs[Decode(bs).consumed..], p - Decode(bs).consumed))
  {
    hide Decode;
  }

  /** Behind whole records the parser reads where it would read the remaining bytes alone. */
  lemma {:induction false} ReadsAtFront(recs: seq<Record>, bs: seq<byte>, p: nat)
    requires AllFit(recs)
    ensures ReadsAt(EncodeAll(recs) + bs, |EncodeAll(recs)| + p) <==> ReadsAt(bs, p)
  {
    hide Decode, Encode, Fits, EncodeAll, ReadsAt;
    Unfold(recs);
    if recs == [] {
      assert EncodeAll(recs) + bs == bs;
    } else {
      ReadsAtFront(recs[1..], bs, p);
      DecodeHere(recs, bs, 0);
      assert recs[0..] == recs;
      ReadsAtStep(EncodeAll(recs) + bs, |EncodeAll(recs)| + p);
    }
  }

  lemma ParseEnds(bs: seq<byte>)
    requires Decode(bs).Ended?
    ensures ParseAll(bs) == Stream([])
  {
    hide Decode;
  }

  lemma ParseStops(bs: seq<byte>)
    ensures Decode(bs).Corrupt? ==> ParseAll(bs) == Failed
    ensures Decode(bs).Panicked? ==> ParseAll(bs) == Crashed
  {
    hide Decode;
  }

  lemma ParseStep(bs: seq<byte>)
    requires Decode(bs).Got?
    ensures ParseAll(bs) == Prepend([Decode(bs).rec], ParseAll(bs[Decode(bs).consumed..]))
  {
    hide Decode;
  }

  function Prepend(recs: seq<Record>, rest: ParseResult): ParseResult
  {
    match rest
    case Stream(more) => Stream(recs + more)
    case Failed => Failed
    case Crashed => Crashed
  }

  lemma PrependStep(recs: seq<Record>, rec: Record, rest: ParseResult)
    ensures Prepend(recs, Prepend([rec], rest)) == Prepend(recs + [rec], rest)
  {
    if rest.Stream? {
      assert recs + ([rec] + rest.recs) == recs + [rec] + rest.recs;
    }
  }

  /** How many whole records lie in the first `n` bytes. */
  function Whole(recs: seq<Record>, n: nat): (k: nat)
    ensures k <= |recs|
  {
    if recs == [] || n < |Encode(recs[0])| then 0 else 1 + Whole(recs[1..], n - |Encode(recs[0])|)
  }

  lemma {:induction false} WholeBounds(recs: seq<Record>, n: nat)
    ensures var k := Whole(recs, n);
            Pos(recs, k) <= n && (k < |recs| ==> n < Pos(recs, k + 1))
  {
    hide Encode;
    if recs == [] || n < |Encode(recs[0])| {
      if recs != [] {
        PosStep(recs, 0);
      }
    } else {
      var n' := n - |Encode(recs[0])|;
      var k' := Whole(recs[1..], n');
      WholeBounds(recs[1..], n');
      PosOfRest(recs, k');
      if k' + 1 < |recs| {
        PosOfRest(recs, k' + 1);
      }
    }
  }

  lemma PosOfRest(recs: seq<Record>, k: nat)
    requires k < |recs|
    ensures Pos(recs, k + 1) == |Encode(recs[0])| + Pos(recs[1..], k)
  {
    hide Encode;
    assert recs[..k + 1][0] == recs[0];
    assert recs[..k + 1][1..] == recs[1..][..k];
  }

  /** Cutting a stream at any byte keeps exactly the records that lie before the cut. */
  lemma {:induction false} ParseCut(recs: seq<Record>, n: nat)
    requires AllFit(recs) && n <= |EncodeAll(recs)|
    ensures ParseAll(EncodeAll(recs)[..n]) == Stream(recs[..Whole(recs, n)])
  {
    hide Decode, Encode, Fits, EncodeAll, ParseAll;
    var bs := EncodeAll(recs)[..n];
    Unfold(recs);
    if recs == [] {
      NothingLeft();
      assert bs == [];
      ParseEnds(bs);
    } else if n < |Encode(recs[0])| {
      assert bs == Encode(recs[0])[..n];
      StrictPrefixEnds(recs[0], bs);
      ParseEnds(bs);
    } else {
      var e := Encode(recs[0]);
      var rest := EncodeAll(recs[1..])[..n - |e|];
      assert bs == e + rest;
      RoundTripIff(recs[0], rest);
      assert bs[|e|..] == rest;
      ParseStep(bs);
      ParseCut(recs[1..], n - |e|);
      var k := Whole(recs[1..], n - |e|);
      assert recs[..k + 1] == [recs[0]] + recs[1..][..k];
    }
  }

  lemma NothingLeft()
    ensures Decode([]) == Ended(0, 0, true)
  {
  }

  /** `ParseRecordStream`: reads records until the reader runs dry. */
  method ParseRecordStream(reader: File) returns (result: ParseResult)
    requires reader.Valid()
    modifies reader
    ensures result == ParseAll(old(reader.Rest()))
  {
    hide Decode, ParseAll;
    ghost var bs := reader.Rest();
    var records := [];
    while true
      invariant reader.Valid()
      invariant ParseAll(bs) == Prepend(records, ParseAll(reader.Rest()))
      decreases |reader.Rest()|
    {
      ghost var here := reader.Rest();
      var out := ReadRecord(reader);
      match out {
        case Got(rec, consumed, _) =>
          ParseStep(here);
          PrependStep(records, rec, ParseAll(reader.Rest()));
          records := records + [rec];
        case Ended(_, _, _) =>
          ParseEnds(here);
          assert records + [] == records;
          return Stream(records);
        case Corrupt(_, _) =>
          ParseStops(here);
          return Failed;
        case Panicked(_) =>
          ParseStops(here);
          return Crashed;
      }
    }
  }

  // -------------------------------------------------------------- filtering

  /** The records of `recs` with offset at least `s`, in order. */
  function From(recs: seq<Record>, s: int): seq<Record>
  {
    if recs == [] then []
    else (if recs[0].offset >= s then [recs[0]] else []) + From(recs[1..], s)
  }

  lemma UnfoldFrom(recs: seq<Record>, s: int)
    ensures From(recs, s) ==
            if recs == [] then []
            else (if recs[0].offset >= s then [recs[0]] else []) + From(recs[1..], s)
  {
  }

  lemma {:induction false} FromConcat(a: seq<Record>, b: seq<Record>, s: int)
    ensures From(a + b, s) == From(a, s) + From(b, s)
  {
    hide From;
    UnfoldFrom(a, s);
    if a == [] {
      assert a + b == b;
    } else {
      UnfoldFrom(a + b, s);
      FromConcat(a[1..], b, s);
      assert (a + b)[1..] == a[1..] + b;
      Assoc(if a[0].offset >= s then [a[0]] else [], From(a[1..], s), From(b, s));
    }
  }

  lemma {:induction false} FromBelow(recs: seq<Record>, s: int)
    requires AllBelow(recs, s)
    ensures From(recs, s) == []
  {
    if recs != [] {
      FromBelow(recs[1..], s);
    }
  }

  lemma {:induction false} FromAbove(recs: seq<Record>, s: int)
    requires AllFrom(recs, s)
    ensures From(recs, s) == recs
  {
    if recs != [] {
      FromAbove(recs[1..], s);
    }
  }

  lemma FromStep(recs: seq<Record>, k: nat, s: int)
    requires k < |recs|
    ensures From(recs[..k + 1], s) == From(recs[..k], s) + (if recs[k].offset >= s then [recs[k]] else [])
  {
    assert recs[..k + 1] == recs[..k] + [recs[k]];
    FromConcat(recs[..k], [recs[k]], s);
    assert [recs[k]][1..] == [];
  }

  /** Dropping a prefix that lies below the start does not change the result. */
  lemma FromSkip(recs: seq<Record>, k: nat, s: int)
    requires k <= |recs| && AllBelow(recs[..k], s)
    ensures From(recs[k..], s) == From(recs, s)
  {
    hide From;
    FromConcat(recs[..k], recs[k..], s);
    assert recs[..k] + recs[k..] == recs;
    FromBelow(recs[..k], s);
  }

  /** On an offset-ordered sequence the filter is a suffix. */
  lemma {:induction false} FromIsSuffix(recs: seq<Record>, s: int)
    requires Increasing(recs)
    ensures |From(recs, s)| <= |recs|
    ensures From(recs, s) == recs[|recs| - |From(recs, s)|..]
    ensures AllBelow(recs[..|recs| - |From(recs, s)|], s)
    ensures AllFrom(From(recs, s), s)
  {
    if recs != [] {
      if recs[0].offset >= s {
        FromAbove(recs, s);
      } else {
        FromIsSuffix(recs[1..], s);
        var n := |From(recs, s)|;
        assert recs[..|recs| - n][1..] == recs[1..][..|recs| - 1 - n];
      }
    }
  }
}
