/** The wire codec of request headers and produce requests
    (internal/protocol/header.go, internal/protocol/produce.go).  Strings are their bytes;
    nil and empty byte fields are the same thing on this side of the wire. */
module Wire {
  import opened Bytes
  import opened Seqs
  import opened Files

  const MAX_ARRAY_LEN: int := 0x10_0000

  datatype Parsed<+T> = Ok(value: T, rest: seq<byte>) | Fail

  // -------------------------------------------------------------- primitives

  function ReadInt16(bs: seq<byte>): Parsed<int16>
  {
    if |bs| < 2 then Fail else Ok(AsInt16(GetUint(bs[..2])), bs[2..])
  }

  function ReadInt32(bs: seq<byte>): Parsed<int32>
  {
    if |bs| < 4 then Fail else Ok(AsInt32(GetUint(bs[..4])), bs[4..])
  }

  function ReadN(bs: seq<byte>, n: nat): Parsed<seq<byte>>
  {
    if |bs| < n then Fail else Ok(bs[..n], bs[n..])
  }

  function ReadString(bs: seq<byte>): Parsed<seq<byte>>
  {
    match ReadInt16(bs)
    case Fail => Fail
    case Ok(n, rest) => if n <= 0 then Ok([], rest) else ReadN(rest, n)
  }

  function ReadBytes(bs: seq<byte>): Parsed<seq<byte>>
  {
    match ReadInt32(bs)
    case Fail => Fail
    case Ok(n, rest) => if n <= 0 then Ok([], rest) else if n > MAX_FIELD_BYTES then Fail else ReadN(rest, n)
  }

  function ReadArrayCount(bs: seq<byte>): Parsed<nat>
  {
    match ReadInt32(bs)
    case Fail => Fail
    case Ok(n, rest) => if n < 0 then Ok(0, rest) else if n > MAX_ARRAY_LEN then Fail else Ok(n, rest)
  }

  function WriteInt16(v: int): (bs: seq<byte>)
    ensures |bs| == 2
  {
    PutUint(2, U16(v))
  }

  function WriteInt32(v: int): (bs: seq<byte>)
    ensures |bs| == 4
  {
    PutUint(4, U32(v))
  }

  /** `WriteString`: the length is cut to 16 bits. */
  function WriteString(s: seq<byte>): seq<byte>
  {
    if s == [] then WriteInt16(0) else WriteInt16(AsInt16(|s|)) + s
  }

  /** How `EncodeProduceRequest` writes record data: the length is cut to 32 bits. */
  function WriteBytes(s: seq<byte>): seq<byte>
  {
    WriteInt32(AsInt32(|s|)) + s
  }

  lemma Int16RoundTrip(v: int16, rest: seq<byte>)
    ensures ReadInt16(WriteInt16(v) + rest) == Ok(v, rest)
  {
    hide GetUint, PutUint, AsInt16, U16;
    assert (WriteInt16(v) + rest)[..2] == WriteInt16(v);
    assert (WriteInt16(v) + rest)[2..] == rest;
    Get16(U16(v));
    BackToInt16(v);
  }

  lemma BackToInt16(v: int16)
    ensures AsInt16(U16(v)) == v
  {
  }

  lemma Int32RoundTrip(v: int32, rest: seq<byte>)
    ensures ReadInt32(WriteInt32(v) + rest) == Ok(v, rest)
  {
    hide GetUint, PutUint, AsInt32, U32;
    assert (WriteInt32(v) + rest)[..4] == WriteInt32(v);
    assert (WriteInt32(v) + rest)[4..] == rest;
    Get32(U32(v));
    BackToInt32(v);
  }

  lemma BackToInt32(v: int32)
    ensures AsInt32(U32(v)) == v
  {
  }

  lemma ReadNPrefix(s: seq<byte>, rest: seq<byte>)
    ensures ReadN(s + rest, |s|) == Ok(s, rest)
  {
  }

  lemma StringRoundTrip(s: seq<byte>, rest: seq<byte>)
    requires |s| < TWO_15
    ensures ReadString(WriteString(s) + rest) == Ok(s, rest)
  {
    hide WriteInt16, ReadInt16, ReadN;
    if s == [] {
      Int16RoundTrip(0, rest);
    } else {
      Int16RoundTrip(|s|, s + rest);
      Assoc(WriteInt16(|s|), s, rest);
      ReadNPrefix(s, rest);
    }
  }

  lemma BytesRoundTrip(s: seq<byte>, rest: seq<byte>)
    requires |s| <= MAX_FIELD_BYTES
    ensures ReadBytes(WriteBytes(s) + rest) == Ok(s, rest)
  {
    hide WriteInt32, ReadInt32, ReadN;
    Int32RoundTrip(|s|, s + rest);
    Assoc(WriteInt32(|s|), s, rest);
    ReadNPrefix(s, rest);
  }

  lemma CountRoundTrip(n: nat, rest: seq<byte>)
    requires n <= MAX_ARRAY_LEN
    ensures ReadArrayCount(WriteInt32(n) + rest) == Ok(n, rest)
  {
    hide WriteInt32, ReadInt32;
    Int32RoundTrip(n, rest);
  }

  // ----------------------------------------------------------- request header

  datatype RequestHeader = RequestHeader(apiKey: int16, apiVersion: int16, correlationId: int32, clientId: seq<byte>)

  function EncodeHeader(h: RequestHeader): seq<byte>
  {
    WriteInt16(h.apiKey) + (WriteInt16(h.apiVersion) + (WriteInt32(h.correlationId) + WriteString(h.clientId)))
  }

  function DecodeHeader(bs: seq<byte>): Parsed<RequestHeader>
  {
    match ReadInt16(bs)
    case Fail => Fail
    case Ok(apiKey, bs1) =>
      match ReadInt16(bs1)
      case Fail => Fail
      case Ok(apiVersion, bs2) =>
        match ReadInt32(bs2)
        case Fail => Fail
        case Ok(correlationId, bs3) =>
          match ReadString(bs3)
          case Fail => Fail
          case Ok(clientId, bs4) => Ok(RequestHeader(apiKey, apiVersion, correlationId, clientId), bs4)
  }

  lemma StringLimit(bs: seq<byte>)
    requires ReadString(bs).Ok?
    ensures |ReadString(bs).value| < TWO_15
  {
  }

  /** Decoding an encoded header followed by anything gives the header and the rest back,
      exactly when the client id fits a 16-bit length. */
  lemma HeaderRoundTripIff(h: RequestHeader, rest: seq<byte>)
    ensures DecodeHeader(EncodeHeader(h) + rest) == Ok(h, rest) <==> |h.clientId| < TWO_15
  {
    hide WriteInt16, ReadInt16, WriteInt32, ReadInt32, WriteString, ReadString;
    var s := WriteString(h.clientId);
    var c, v, k := WriteInt32(h.correlationId), WriteInt16(h.apiVersion), WriteInt16(h.apiKey);
    Assoc(k, v + (c + s), rest);
    Assoc(v, c + s, rest);
    Assoc(c, s, rest);
    Int16RoundTrip(h.apiKey, v + (c + (s + rest)));
    Int16RoundTrip(h.apiVersion, c + (s + rest));
    Int32RoundTrip(h.correlationId, s + rest);
    if |h.clientId| < TWO_15 {
      StringRoundTrip(h.clientId, rest);
    } else if ReadString(s + rest).Ok? {
      StringLimit(s + rest);
    }
  }

  // ---------------------------------------------------------- produce request

  datatype PartitionData = PartitionData(id: int32, records: seq<byte>)
  datatype TopicData = TopicData(name: seq<byte>, partitions: seq<PartitionData>)
  datatype ProduceRequest = ProduceRequest(acks: int16, timeout: int32, topics: seq<TopicData>)

  function EncodePartition(p: PartitionData): seq<byte>
  {
    WriteInt32(p.id) + WriteBytes(p.records)
  }

  function EncodePartitions(ps: seq<PartitionData>): seq<byte>
  {
    if ps == [] then [] else EncodePartition(ps[0]) + EncodePartitions(ps[1..])
  }

  function EncodeTopic(t: TopicData): seq<byte>
  {
    WriteString(t.name) + (WriteInt32(AsInt32(|t.partitions|)) + EncodePartitions(t.partitions))
  }

  function EncodeTopics(ts: seq<TopicData>): seq<byte>
  {
    if ts == [] then [] else EncodeTopic(ts[0]) + EncodeTopics(ts[1..])
  }

  function EncodeProduce(r: ProduceRequest): seq<byte>
  {
    WriteInt16(r.acks) + (WriteInt32(r.timeout) + (WriteInt32(AsInt32(|r.topics|)) + EncodeTopics(r.topics)))
  }

  function DecodePartition(bs: seq<byte>): Parsed<PartitionData>
  {
    match ReadInt32(bs)
    case Fail => Fail
    case Ok(id, bs1) =>
      match ReadBytes(bs1)
      case Fail => Fail
      case Ok(records, bs2) => Ok(PartitionData(id, records), bs2)
  }

  function DecodePartitions(bs: seq<byte>, n: nat): Parsed<seq<PartitionData>>
    decreases n
  {
    if n == 0 then Ok([], bs)
    else
      match DecodePartition(bs)
      case Fail => Fail
      case Ok(p, rest) => Prepend([p], DecodePartitions(rest, n - 1))
  }

  function Prepend<T>(done: seq<T>, more: Parsed<seq<T>>): Parsed<seq<T>>
  {
    match more
    case Fail => Fail
    case Ok(xs, rest) => Ok(done + xs, rest)
  }

  function DecodeTopic(bs: seq<byte>): Parsed<TopicData>
  {
    match ReadString(bs)
    case Fail => Fail
    case Ok(name, bs1) =>
      match ReadArrayCount(bs1)
      case Fail => Fail
      case Ok(n, bs2) =>
        match DecodePartitions(bs2, n)
        case Fail => Fail
        case Ok(ps, bs3) => Ok(TopicData(name, ps), bs3)
  }

  function DecodeTopics(bs: seq<byte>, n: nat): Parsed<seq<TopicData>>
    decreases n
  {
    if n == 0 then Ok([], bs)
    else
      match DecodeTopic(bs)
      case Fail => Fail
      case Ok(t, rest) => Prepend([t], DecodeTopics(rest, n - 1))
  }

  function DecodeProduce(bs: seq<byte>): Parsed<ProduceRequest>
  {
    match ReadInt16(bs)
    case Fail => Fail
    case Ok(acks, bs1) =>
      match ReadInt32(bs1)
      case Fail => Fail
      case Ok(timeout, bs2) =>
        match ReadArrayCount(bs2)
        case Fail => Fail
        case Ok(n, bs3) =>
          match DecodeTopics(bs3, n)
          case Fail => Fail
          case Ok(topics, bs4) => Ok(ProduceRequest(acks, timeout, topics), bs4)
  }

  // ------------------------------------------------------------------ limits

  predicate PartitionFits(p: PartitionData)
  {
    |p.records| <= MAX_FIELD_BYTES
  }

  predicate TopicFits(t: TopicData)
  {
    && |t.name| < TWO_15 && |t.partitions| <= MAX_ARRAY_LEN
    && forall i :: 0 <= i < |t.partitions| ==> PartitionFits(t.partitions[i])
  }

  predicate ProduceFits(r: ProduceRequest)
  {
    |r.topics| <= MAX_ARRAY_LEN && forall i :: 0 <= i < |r.topics| ==> TopicFits(r.topics[i])
  }

  lemma PartitionRoundTrip(p: PartitionData, rest: seq<byte>)
    requires PartitionFits(p)
    ensures DecodePartition(EncodePartition(p) + rest) == Ok(p, rest)
  {
    hide WriteInt32, ReadInt32, WriteBytes, ReadBytes;
    Assoc(WriteInt32(p.id), WriteBytes(p.records), rest);
    Int32RoundTrip(p.id, WriteBytes(p.records) + rest);
    BytesRoundTrip(p.records, rest);
  }

  lemma {:induction false} PartitionsRoundTrip(ps: seq<PartitionData>, rest: seq<byte>)
    requires forall i :: 0 <= i < |ps| ==> PartitionFits(ps[i])
    ensures DecodePartitions(EncodePartitions(ps) + rest, |ps|) == Ok(ps, rest)
  {
    hide EncodePartition, DecodePartition, PartitionFits;
    if ps == [] {
      assert EncodePartitions(ps) + rest == rest;
    } else {
      Assoc(EncodePartition(ps[0]), EncodePartitions(ps[1..]), rest);
      PartitionRoundTrip(ps[0], EncodePartitions(ps[1..]) + rest);
      PartitionsRoundTrip(ps[1..], rest);
      assert [ps[0]] + ps[1..] == ps;
    }
  }

  lemma TopicRoundTrip(t: TopicData, rest: seq<byte>)
    requires TopicFits(t)
    ensures DecodeTopic(EncodeTopic(t) + rest) == Ok(t, rest)
  {
    hide WriteInt32, WriteString, ReadString, ReadArrayCount, EncodePartitions, DecodePartitions, PartitionFits;
    var s, n, ps := WriteString(t.name), WriteInt32(|t.partitions|), EncodePartitions(t.partitions);
    Assoc(s, n + ps, rest);
    Assoc(n, ps, rest);
    StringRoundTrip(t.name, n + (ps + rest));
    CountRoundTrip(|t.partitions|, ps + rest);
    PartitionsRoundTrip(t.partitions, rest);
  }

  lemma {:induction false} TopicsRoundTrip(ts: seq<TopicData>, rest: seq<byte>)
    requires forall i :: 0 <= i < |ts| ==> TopicFits(ts[i])
    ensures DecodeTopics(EncodeTopics(ts) + rest, |ts|) == Ok(ts, rest)
  {
    hide EncodeTopic, DecodeTopic, TopicFits;
    if ts == [] {
      assert EncodeTopics(ts) + rest == rest;
    } else {
      Assoc(EncodeTopic(ts[0]), EncodeTopics(ts[1..]), rest);
      TopicRoundTrip(ts[0], EncodeTopics(ts[1..]) + rest);
      TopicsRoundTrip(ts[1..], rest);
      assert [ts[0]] + ts[1..] == ts;
    }
  }

  lemma ProduceRoundTrip(r: ProduceRequest, rest: seq<byte>)
    requires ProduceFits(r)
    ensures DecodeProduce(EncodeProduce(r) + rest) == Ok(r, rest)
  {
    hide WriteInt16, WriteInt32, ReadInt16, ReadInt32, ReadArrayCount, EncodeTopics, DecodeTopics, TopicFits;
    var a, o, n, ts := WriteInt16(r.acks), WriteInt32(r.timeout), WriteInt32(|r.topics|), EncodeTopics(r.topics);
    Assoc(a, o + (n + ts), rest);
    Assoc(o, n + ts, rest);
    Assoc(n, ts, rest);
    Int16RoundTrip(r.acks, o + (n + (ts + rest)));
    Int32RoundTrip(r.timeout, n + (ts + rest));
    CountRoundTrip(|r.topics|, ts + rest);
    TopicsRoundTrip(r.topics, rest);
  }

  // ------------------------------------------- what a decoder can return at all

  lemma {:induction false} DecodedPartitionsFit(bs: seq<byte>, n: nat)
    requires DecodePartitions(bs, n).Ok?
    ensures |DecodePartitions(bs, n).value| == n
    ensures forall i :: 0 <= i < n ==> PartitionFits(DecodePartitions(bs, n).value[i])
    decreases n
  {
    hide DecodePartition, PartitionFits;
    if n > 0 {
      DecodedPartitionFits(bs);
      DecodedPartitionsFit(DecodePartition(bs).rest, n - 1);
    }
  }

  lemma DecodedPartitionFits(bs: seq<byte>)
    requires DecodePartition(bs).Ok?
    ensures PartitionFits(DecodePartition(bs).value)
  {
    hide ReadInt32;
  }

  lemma DecodedTopicFits(bs: seq<byte>)
    requires DecodeTopic(bs).Ok?
    ensures TopicFits(DecodeTopic(bs).value)
  {
    hide ReadString, DecodePartitions, ReadInt32, PartitionFits;
    StringLimit(bs);
    var bs1 := ReadString(bs).rest;
    DecodedPartitionsFit(ReadArrayCount(bs1).rest, ReadArrayCount(bs1).value);
  }

  lemma {:induction false} DecodedTopicsFit(bs: seq<byte>, n: nat)
    requires DecodeTopics(bs, n).Ok?
    ensures |DecodeTopics(bs, n).value| == n
    ensures forall i :: 0 <= i < n ==> TopicFits(DecodeTopics(bs, n).value[i])
    decreases n
  {
    hide DecodeTopic, TopicFits;
    if n > 0 {
      DecodedTopicFits(bs);
      DecodedTopicsFit(DecodeTopic(bs).rest, n - 1);
    }
  }

  /** Whatever the decoder accepts is within the limits. */
  lemma DecodedProduceFits(bs: seq<byte>)
    requires DecodeProduce(bs).Ok?
    ensures ProduceFits(DecodeProduce(bs).value)
  {
    hide ReadInt16, ReadInt32, DecodeTopics, TopicFits;
    var bs2 := ReadInt32(ReadInt16(bs).rest).rest;
    DecodedTopicsFit(ReadArrayCount(bs2).rest, ReadArrayCount(bs2).value);
  }

  /** Decoding an encoded produce request followed by anything gives the request and the rest
      back, exactly when every name, array and payload is within the protocol's limits. */
  lemma ProduceRoundTripIff(r: ProduceRequest, rest: seq<byte>)
    ensures DecodeProduce(EncodeProduce(r) + rest) == Ok(r, rest) <==> ProduceFits(r)
  {
    hide DecodeProduce, EncodeProduce, ProduceFits;
    if ProduceFits(r) {
      ProduceRoundTrip(r, rest);
    } else if DecodeProduce(EncodeProduce(r) + rest).Ok? {
      DecodedProduceFits(EncodeProduce(r) + rest);
    }
  }

  // ---------------------------------------------------- which bytes hold what

  lemma IntsOnWire(bs: seq<byte>)
    ensures ReadInt16(bs) == if |bs| < 2 then Fail else Ok(AsInt16(Word16(bs, 0)), bs[2..])
    ensures ReadInt32(bs) == if |bs| < 4 then Fail else Ok(AsInt32(Word32(bs, 0)), bs[4..])
  {
    hide GetUint, Word16, Word32, AsInt16, AsInt32;
    if |bs| >= 2 {
      GetIsWord16(bs, 0);
      assert bs[0..2] == bs[..2];
    }
    if |bs| >= 4 {
      GetIsWord32(bs, 0);
      assert bs[0..4] == bs[..4];
    }
  }

  /** A string is a 16-bit length and that many bytes; no bytes for a length below 1. */
  lemma StringOnWire(bs: seq<byte>)
    ensures |bs| < 2 ==> ReadString(bs).Fail?
    ensures |bs| >= 2 ==>
              var n := AsInt16(Word16(bs, 0));
              ReadString(bs) == if n <= 0 then Ok([], bs[2..])
                                else if |bs| < 2 + n then Fail
                                else Ok(bs[2..2 + n], bs[2 + n..])
  {
    hide ReadInt16, Word16, AsInt16;
    IntsOnWire(bs);
    if |bs| >= 2 {
      Behind(bs, 2, AsInt16(Word16(bs, 0)));
    }
  }

  lemma Behind(bs: seq<byte>, k: nat, n: int)
    requires k <= |bs|
    ensures 0 <= n && k + n <= |bs| ==> bs[k..][..n] == bs[k..k + n] && bs[k..][n..] == bs[k + n..]
  {
  }

  /** A byte field is a 32-bit length and that many bytes, at most 64 MiB of them. */
  lemma BytesOnWire(bs: seq<byte>)
    ensures |bs| < 4 ==> ReadBytes(bs).Fail?
    ensures |bs| >= 4 ==>
              var n := AsInt32(Word32(bs, 0));
              ReadBytes(bs) == if n <= 0 then Ok([], bs[4..])
                               else if n > 0x400_0000 || |bs| < 4 + n then Fail
                               else Ok(bs[4..4 + n], bs[4 + n..])
  {
    hide ReadInt32, Word32, AsInt32;
    IntsOnWire(bs);
    if |bs| >= 4 {
      Behind(bs, 4, AsInt32(Word32(bs, 0)));
    }
  }

  /** An array count is a 32-bit number, negative for none, and at most 2^20. */
  lemma CountOnWire(bs: seq<byte>)
    ensures |bs| < 4 ==> ReadArrayCount(bs).Fail?
    ensures |bs| >= 4 ==>
              var n := AsInt32(Word32(bs, 0));
              ReadArrayCount(bs) == if n < 0 then Ok(0, bs[4..]) else if n > 0x10_0000 then Fail else Ok(n, bs[4..])
  {
    hide ReadInt32, Word32, AsInt32;
    IntsOnWire(bs);
  }

  /** Where a header's fields lie: api key, api version, correlation id, client id. */
  lemma HeaderOnWire(bs: seq<byte>)
    ensures |bs| < 10 ==> DecodeHeader(bs).Fail?
    ensures |bs| >= 10 ==>
              var n := AsInt16(256 * (bs[8] as int) + bs[9]);
              && (DecodeHeader(bs).Ok? <==> |bs| >= 10 + n)
              && (DecodeHeader(bs).Ok? ==>
                    var h := DecodeHeader(bs).value;
                    && h.apiKey == AsInt16(256 * (bs[0] as int) + bs[1])
                    && h.apiVersion == AsInt16(256 * (bs[2] as int) + bs[3])
                    && h.correlationId == AsInt32(Word32(bs, 4))
                    && h.clientId == (if n <= 0 then [] else bs[10..10 + n])
                    && DecodeHeader(bs).rest == (if n <= 0 then bs[10..] else bs[10 + n..]))
  {
    hide ReadInt16, ReadInt32, ReadString, AsInt16, AsInt32;
    IntsOnWire(bs);
    if |bs| >= 2 {
      IntsOnWire(bs[2..]);
      if |bs| >= 4 {
        IntsOnWire(bs[4..]);
        if |bs| >= 8 {
          StringOnWire(bs[8..]);
          HeaderSlices(bs);
        }
      }
    }
  }

  lemma HeaderSlices(bs: seq<byte>)
    requires |bs| >= 8
    ensures bs[2..][2..] == bs[4..] && bs[4..][4..] == bs[8..]
    ensures forall i :: 2 <= i && 8 + i <= |bs| ==> bs[8..][i..] == bs[8 + i..] && bs[8..][2..i] == bs[10..8 + i]
  {
    forall i | 2 <= i && 8 + i <= |bs|
      ensures bs[8..][i..] == bs[8 + i..] && bs[8..][2..i] == bs[10..8 + i]
    {
    }
  }

  /** And where the encoder puts them. */
  lemma HeaderLayout(h: RequestHeader)
    ensures var e := EncodeHeader(h);
            && |e| == 10 + |h.clientId|
            && 256 * (e[0] as int) + e[1] == U16(h.apiKey)
            && 256 * (e[2] as int) + e[3] == U16(h.apiVersion)
            && Word32(e, 4) == U32(h.correlationId)
            && 256 * (e[8] as int) + e[9] == U16(|h.clientId|)
            && e[10..] == h.clientId
  {
    hide PutUint, U16, U32, Word32, WriteString, WriteInt16, WriteInt32;
    var e := EncodeHeader(h);
    StringLayout(h.clientId);
    HeaderParts(WriteInt16(h.apiKey), WriteInt16(h.apiVersion), WriteInt32(h.correlationId), WriteString(h.clientId));
    IntsWritten(h.apiKey, h.apiVersion, h.correlationId);
    PutIsWord16(e, 0, U16(h.apiKey));
    PutIsWord16(e, 2, U16(h.apiVersion));
    PutIsWord32(e, 4, U32(h.correlationId));
  }

  lemma HeaderParts(k: seq<byte>, v: seq<byte>, c: seq<byte>, s: seq<byte>)
    requires |k| == 2 && |v| == 2 && |c| == 4
    ensures var e := k + (v + (c + s));
            e[0..2] == k && e[2..4] == v && e[4..8] == c && e[8..] == s
  {
  }

  lemma IntsWritten(k: int, v: int, c: int)
    ensures WriteInt16(k) == PutUint(2, U16(k)) && WriteInt16(v) == PutUint(2, U16(v))
    ensures WriteInt32(c) == PutUint(4, U32(c))
  {
  }

  lemma StringLayout(s: seq<byte>)
    ensures var e := WriteString(s);
            |e| == 2 + |s| && Word16(e, 0) == U16(|s|) && e[2..] == s
  {
    hide PutUint, U16, AsInt16;
    var e := WriteString(s);
    SameLow16(|s|);
    assert e[0..2] == WriteInt16(AsInt16(|s|));
    PutIsWord16(e, 0, U16(|s|));
  }

  lemma SameLow16(n: int)
    ensures U16(AsInt16(n)) == U16(n) && AsInt16(0) == 0
  {
  }

  /** A produce request: acks, timeout, topic count, topics. */
  lemma ProduceLayout(r: ProduceRequest)
    ensures var e := EncodeProduce(r);
            && |e| >= 10
            && Word16(e, 0) == U16(r.acks) && Word32(e, 2) == U32(r.timeout)
            && Word32(e, 6) == U32(|r.topics|) && e[10..] == EncodeTopics(r.topics)
  {
    hide PutUint, U16, U32, AsInt32, Word16, Word32, EncodeTopics;
    var e := EncodeProduce(r);
    assert e[0..2] == WriteInt16(r.acks) && e[2..6] == WriteInt32(r.timeout);
    assert e[6..10] == WriteInt32(AsInt32(|r.topics|));
    PutIsWord16(e, 0, U16(r.acks));
    PutIsWord32(e, 2, U32(r.timeout));
    PutIsWord32(e, 6, U32(|r.topics|));
  }

  /** A topic: its name, its partition count, its partitions. */
  lemma TopicLayout(t: TopicData)
    ensures var e, n := EncodeTopic(t), |t.name|;
            && |e| >= 6 + n
            && Word16(e, 0) == U16(n) && e[2..2 + n] == t.name
            && Word32(e, 2 + n) == U32(|t.partitions|) && e[6 + n..] == EncodePartitions(t.partitions)
  {
    hide PutUint, U16, U32, AsInt32, Word32, EncodePartitions, WriteString;
    var e, n := EncodeTopic(t), |t.name|;
    StringLayout(t.name);
    assert e[..2 + n] == WriteString(t.name);
    assert e[2 + n..6 + n] == WriteInt32(AsInt32(|t.partitions|));
    PutIsWord32(e, 2 + n, U32(|t.partitions|));
  }

  /** A partition: its id, the length of its records, the records. */
  lemma PartitionLayout(p: PartitionData)
    ensures var e := EncodePartition(p);
            && |e| == 8 + |p.records|
            && Word32(e, 0) == U32(p.id) && Word32(e, 4) == U32(|p.records|) && e[8..] == p.records
  {
    hide PutUint, U32, AsInt32, Word32;
    var e := EncodePartition(p);
    assert e[0..4] == WriteInt32(p.id) && e[4..8] == WriteInt32(AsInt32(|p.records|));
    PutIsWord32(e, 0, U32(p.id));
    PutIsWord32(e, 4, U32(|p.records|));
  }

  /** Topics follow one another in the order of the request. */
  lemma {:induction false} TopicsInOrder(a: seq<TopicData>, b: seq<TopicData>)
    ensures EncodeTopics(a + b) == EncodeTopics(a) + EncodeTopics(b)
    ensures |a| == 1 ==> EncodeTopics(a) == EncodeTopic(a[0])
  {
    hide EncodeTopic;
    if a == [] {
      assert a + b == b;
    } else {
      TopicsInOrder(a[1..], b);
      assert (a + b)[1..] == a[1..] + b;
      Assoc(EncodeTopic(a[0]), EncodeTopics(a[1..]), EncodeTopics(b));
    }
  }

  lemma {:induction false} PartitionsInOrder(a: seq<PartitionData>, b: seq<PartitionData>)
    ensures EncodePartitions(a + b) == EncodePartitions(a) + EncodePartitions(b)
    ensures |a| == 1 ==> EncodePartitions(a) == EncodePartition(a[0])
  {
    hide EncodePartition;
    if a == [] {
      assert a + b == b;
    } else {
      PartitionsInOrder(a[1..], b);
      assert (a + b)[1..] == a[1..] + b;
      Assoc(EncodePartition(a[0]), EncodePartitions(a[1..]), EncodePartitions(b));
    }
  }

  /** Where the decoder finds acks, timeout and topic count. */
  lemma ProduceOnWire(bs: seq<byte>)
    requires DecodeProduce(bs).Ok?
    ensures var r := DecodeProduce(bs).value;
            && |bs| >= 10
            && r.acks == AsInt16(Word16(bs, 0)) && r.timeout == AsInt32(Word32(bs, 2))
            && |r.topics| == (if AsInt32(Word32(bs, 6)) < 0 then 0 else AsInt32(Word32(bs, 6)))
  {
    hide ReadInt16, ReadInt32, ReadArrayCount, DecodeTopics, AsInt16, AsInt32;
    IntsOnWire(bs);
    IntsOnWire(bs[2..]);
    assert bs[2..][4..] == bs[6..];
    CountOnWire(bs[6..]);
    DecodedCount(ReadArrayCount(bs[6..]).rest, ReadArrayCount(bs[6..]).value);
  }

  lemma {:induction false} DecodedCount(bs: seq<byte>, n: nat)
    requires DecodeTopics(bs, n).Ok?
    ensures |DecodeTopics(bs, n).value| == n
    decreases n
  {
    hide DecodeTopic;
    if n > 0 {
      DecodedCount(DecodeTopic(bs).rest, n - 1);
    }
  }

  // ------------------------------------------- the stream code behind the functions

  /** A read from a stream did what the parser says: same value and same rest, or an error. */
  ghost predicate Follows<T>(p: Parsed<T>, value: Option<T>, rest: seq<byte>)
  {
    if p.Ok? then value == Some(p.value) && rest == p.rest else value == None
  }

  method TakeInt16(r: File) returns (v: Option<int16>)
    requires r.Valid()
    modifies r
    ensures r.Valid() && Follows(ReadInt16(old(r.Rest())), v, r.Rest())
  {
    hide GetUint;
    var buf := r.ReadFull(2);
    if |buf| < 2 {
      return None;
    }
    v := Some(AsInt16(GetUint(buf)));
  }

  method TakeInt32(r: File) returns (v: Option<int32>)
    requires r.Valid()
    modifies r
    ensures r.Valid() && Follows(ReadInt32(old(r.Rest())), v, r.Rest())
  {
    hide GetUint;
    var buf := r.ReadFull(4);
    if |buf| < 4 {
      return None;
    }
    v := Some(AsInt32(GetUint(buf)));
  }

  method TakeString(r: File) returns (v: Option<seq<byte>>)
    requires r.Valid()
    modifies r
    ensures r.Valid() && Follows(ReadString(old(r.Rest())), v, r.Rest())
  {
    hide ReadInt16;
    var length := TakeInt16(r);
    if length.None? {
      return None;
    }
    if length.value <= 0 {
      return Some([]);
    }
    var buf := r.ReadFull(length.value);
    if |buf| < length.value {
      return None;
    }
    v := Some(buf);
  }

  method TakeBytes(r: File) returns (v: Option<seq<byte>>)
    requires r.Valid()
    modifies r
    ensures r.Valid() && Follows(ReadBytes(old(r.Rest())), v, r.Rest())
  {
    hide ReadInt32;
    var length := TakeInt32(r);
    if length.None? {
      return None;
    }
    if length.value <= 0 {
      return Some([]);
    }
    if length.value > MAX_FIELD_BYTES {
      return None;
    }
    var buf := r.ReadFull(length.value);
    if |buf| < length.value {
      return None;
    }
    v := Some(buf);
  }

  method TakeArrayCount(r: File) returns (v: Option<nat>)
    requires r.Valid()
    modifies r
    ensures r.Valid() && Follows(ReadArrayCount(old(r.Rest())), v, r.Rest())
  {
    hide ReadInt32;
    var count := TakeInt32(r);
    if count.None? {
      return None;
    }
    if count.value < 0 {
      return Some(0);
    }
    if count.value > MAX_ARRAY_LEN {
      return None;
    }
    v := Some(count.value);
  }

  method DecodeRequestHeader(r: File) returns (v: Option<RequestHeader>)
    requires r.Valid()
    modifies r
    ensures r.Valid() && Follows(DecodeHeader(old(r.Rest())), v, r.Rest())
    ensures v.Some? ==>
              var bs := old(r.Rest());
              && |bs| >= 10
              && v.value.apiKey == AsInt16(256 * (bs[0] as int) + bs[1])
              && v.value.apiVersion == AsInt16(256 * (bs[2] as int) + bs[3])
              && v.value.correlationId == AsInt32(Word32(bs, 4))
  {
    hide ReadInt16, ReadInt32, ReadString, Word32, AsInt16, AsInt32;
    HeaderOnWire(r.Rest());
    var apiKey := TakeInt16(r);
    if apiKey.None? {
      return None;
    }
    var apiVersion := TakeInt16(r);
    if apiVersion.None? {
      return None;
    }
    var correlationId := TakeInt32(r);
    if correlationId.None? {
      return None;
    }
    var clientId := TakeString(r);
    if clientId.None? {
      return None;
    }
    v := Some(RequestHeader(apiKey.value, apiVersion.value, correlationId.value, clientId.value));
  }

  method TakePartition(r: File) returns (v: Option<PartitionData>)
    requires r.Valid()
    modifies r
    ensures r.Valid() && Follows(DecodePartition(old(r.Rest())), v, r.Rest())
  {
    hide ReadInt32, ReadBytes;
    var id := TakeInt32(r);
    if id.None? {
      return None;
    }
    var records := TakeBytes(r);
    if records.None? {
      return None;
    }
    v := Some(PartitionData(id.value, records.value));
  }

  lemma PrependNothing<T>(more: Parsed<seq<T>>)
    ensures Prepend([], more) == more
  {
    if more.Ok? {
      assert [] + more.value == more.value;
    }
  }

  lemma PrependStep<T>(done: seq<T>, x: T, more: Parsed<seq<T>>)
    ensures Prepend(done, Prepend([x], more)) == Prepend(done + [x], more)
  {
    if more.Ok? {
      assert done + ([x] + more.value) == done + [x] + more.value;
    }
  }

  /** The inner loop of `DecodeProduceRequest`. */
  method TakePartitions(r: File, n: nat) returns (v: Option<seq<PartitionData>>)
    requires r.Valid()
    modifies r
    ensures r.Valid() && Follows(DecodePartitions(old(r.Rest()), n), v, r.Rest())
  {
    hide DecodePartition;
    ghost var bs := r.Rest();
    var partitions := [];
    PrependNothing(DecodePartitions(bs, n));
    for j := 0 to n
      invariant r.Valid() && |partitions| == j
      invariant DecodePartitions(bs, n) == Prepend(partitions, DecodePartitions(r.Rest(), n - j))
    {
      var p := TakePartition(r);
      if p.None? {
        return None;
      }
      PrependStep(partitions, p.value, DecodePartitions(r.Rest(), n - j - 1));
      partitions := partitions + [p.value];
    }
    assert partitions + [] == partitions;
    v := Some(partitions);
  }

  method TakeTopic(r: File) returns (v: Option<TopicData>)
    requires r.Valid()
    modifies r
    ensures r.Valid() && Follows(DecodeTopic(old(r.Rest())), v, r.Rest())
  {
    hide ReadString, ReadArrayCount, DecodePartitions;
    var name := TakeString(r);
    if name.None? {
      return None;
    }
    var count := TakeArrayCount(r);
    if count.None? {
      return None;
    }
    var partitions := TakePartitions(r, count.value);
    if partitions.None? {
      return None;
    }
    v := Some(TopicData(name.value, partitions.value));
  }

  /** The outer loop of `DecodeProduceRequest`. */
  method TakeTopics(r: File, n: nat) returns (v: Option<seq<TopicData>>)
    requires r.Valid()
    modifies r
    ensures r.Valid() && Follows(DecodeTopics(old(r.Rest()), n), v, r.Rest())
  {
    hide DecodeTopic;
    ghost var bs := r.Rest();
    var topics := [];
    PrependNothing(DecodeTopics(bs, n));
    for i := 0 to n
      invariant r.Valid() && |topics| == i
      invariant DecodeTopics(bs, n) == Prepend(topics, DecodeTopics(r.Rest(), n - i))
    {
      var t := TakeTopic(r);
      if t.None? {
        return None;
      }
      PrependStep(topics, t.value, DecodeTopics(r.Rest(), n - i - 1));
      topics := topics + [t.value];
    }
    assert topics + [] == topics;
    v := Some(topics);
  }

  method DecodeProduceRequest(r: File) returns (v: Option<ProduceRequest>)
    requires r.Valid()
    modifies r
    ensures r.Valid() && Follows(DecodeProduce(old(r.Rest())), v, r.Rest())
  {
    hide ReadInt16, ReadInt32, ReadArrayCount, DecodeTopics;
    var acks := TakeInt16(r);
    if acks.None? {
      return None;
    }
    var timeout := TakeInt32(r);
    if timeout.None? {
      return None;
    }
    var count := TakeArrayCount(r);
    if count.None? {
      return None;
    }
    var topics := TakeTopics(r, count.value);
    if topics.None? {
      return None;
    }
    v := Some(ProduceRequest(acks.value, timeout.value, topics.value));
  }

  lemma EncodePartitionsStep(ps: seq<PartitionData>, j: nat)
    requires j <= |ps|
    ensures EncodePartitions(ps[j..]) ==
            if j == |ps| then [] else EncodePartition(ps[j]) + EncodePartitions(ps[j + 1..])
  {
    hide EncodePartition;
    if j < |ps| {
      assert ps[j..][1..] == ps[j + 1..];
    }
  }

  lemma EncodeTopicsStep(ts: seq<TopicData>, i: nat)
    requires i <= |ts|
    ensures EncodeTopics(ts[i..]) == if i == |ts| then [] else EncodeTopic(ts[i]) + EncodeTopics(ts[i + 1..])
  {
    hide EncodeTopic;
    if i < |ts| {
      assert ts[i..][1..] == ts[i + 1..];
    }
  }

  /** The inner loop of `EncodeProduceRequest`. */
  method PutPartitions(w: seq<byte>, ps: seq<PartitionData>) returns (out: seq<byte>)
    ensures out == w + EncodePartitions(ps)
  {
    hide WriteInt32, EncodePartitions;
    out := w;
    assert ps[0..] == ps;
    for j := 0 to |ps|
      invariant w + EncodePartitions(ps) == out + EncodePartitions(ps[j..])
    {
      EncodePartitionsStep(ps, j);
      var p := ps[j];
      Assoc(out, EncodePartition(p), EncodePartitions(ps[j + 1..]));
      Assoc(out, WriteInt32(p.id), WriteBytes(p.records));
      out := out + WriteInt32(p.id);
      var length := WriteInt32(AsInt32(|p.records|));
      Assoc(out, length, p.records);
      out := out + length;
      if |p.records| > 0 {
        out := out + p.records;
      }
    }
    EncodePartitionsStep(ps, |ps|);
  }

  /** `EncodeProduceRequest`: the stream grows by the encoding. */
  method EncodeProduceRequest(w: seq<byte>, req: ProduceRequest) returns (out: seq<byte>)
    ensures out == w + EncodeProduce(req)
  {
    hide WriteInt16, WriteInt32, WriteString, EncodePartitions, EncodeTopics;
    var acks, timeout, count := WriteInt16(req.acks), WriteInt32(req.timeout), WriteInt32(AsInt32(|req.topics|));
    Assoc(w, acks, timeout + (count + EncodeTopics(req.topics)));
    Assoc(w + acks, timeout, count + EncodeTopics(req.topics));
    Assoc(w + acks + timeout, count, EncodeTopics(req.topics));
    out := w + acks + timeout + count;
    assert req.topics[0..] == req.topics;
    for i := 0 to |req.topics|
      invariant w + EncodeProduce(req) == out + EncodeTopics(req.topics[i..])
    {
      EncodeTopicsStep(req.topics, i);
      var t := req.topics[i];
      Assoc(out, EncodeTopic(t), EncodeTopics(req.topics[i + 1..]));
      var n := WriteInt32(AsInt32(|t.partitions|));
      Assoc(out, WriteString(t.name), n + EncodePartitions(t.partitions));
      Assoc(out + WriteString(t.name), n, EncodePartitions(t.partitions));
      out := out + WriteString(t.name) + n;
      out := PutPartitions(out, t.partitions);
    }
    EncodeTopicsStep(req.topics, |req.topics|);
  }
}
