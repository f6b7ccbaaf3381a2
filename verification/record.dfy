/** The on-disk record format: `Record.Marshal` and `ReadRecord`
    (internal/storage/record.go). */
module Records {
  import opened Bytes
  import opened Seqs
  import opened Files

  /** A nil slice is `None`, an empty one is `Some([])`. */
  datatype Record = Record(
    offset: uint64,
    timestamp: int64,
    key: Option<seq<byte>>,
    value: Option<seq<byte>>)

  /** The 32-bit length written for a field: -1 for nil, otherwise `int32(len)`. */
  function FieldLen(field: Option<seq<byte>>): (n: int32)
    ensures field.Some? && |field.value| < TWO_31 ==> n == |field.value|
  {
    match field
    case None => -1
    case Some(bs) => AsInt32(|bs|)
  }

  /** The bytes written after the length: only a positive length writes any. */
  function Payload(field: Option<seq<byte>>): (bs: seq<byte>)
    ensures |bs| == if FieldLen(field) > 0 then FieldLen(field) else 0
  {
    match field
    case None => []
    case Some(bs) => if FieldLen(field) > 0 then TruncatedIsShort(bs); bs[..FieldLen(field)] else []
  }

  lemma TruncatedIsShort(bs: seq<byte>)
    ensures AsInt32(|bs|) <= |bs|
  {
  }

  /** The record body size as Go computes it, before the conversion to `uint32`. */
  function BodySize(r: Record): nat
  {
    24 + |Payload(r.key)| + |Payload(r.value)|
  }

  /** Offset, timestamp and key length. */
  function Head(r: Record): (bs: seq<byte>)
    ensures |bs| == 20
  {
    PutUint(8, r.offset) + PutUint(8, U64(r.timestamp)) + PutUint(4, U32(FieldLen(r.key)))
  }

  function Body(r: Record): (bs: seq<byte>)
    ensures |bs| == BodySize(r)
  {
    Head(r) + Payload(r.key) + PutUint(4, U32(FieldLen(r.value))) + Payload(r.value)
  }

  /** What `Marshal` writes. */
  function Encode(r: Record): (bs: seq<byte>)
    ensures |bs| == 4 + BodySize(r)
    ensures |bs| >= 28
  {
    PutUint(4, U32(BodySize(r))) + Body(r)
  }

  /** The records the format can hold: both lengths fit an `int32` and the size with
      its prefix fits the `uint32` in which `ReadRecord` adds them up. */
  predicate Fits(r: Record)
  {
    && (r.key.Some? ==> |r.key.value| < TWO_31)
    && (r.value.Some? ==> |r.value.value| < TWO_31)
    && 4 + BodySize(r) < TWO_32
  }

  /** How one `ReadRecord` call can end.  `Ended` is `io.EOF` when `clean`, which means
      that the read that failed found no byte at all, and `io.ErrUnexpectedEOF` otherwise;
      `Panicked` is a slice expression out of range.  `consumed` is how far the reader
      moved and `reported` the byte count handed back, which is added up in 32 bits. */
  datatype ReadOutcome =
    | Got(rec: Record, consumed: nat, reported: nat)
    | Ended(consumed: nat, reported: nat, clean: bool)
    | Corrupt(consumed: nat, reported: nat)
    | Panicked(consumed: nat)

  datatype BodyOutcome = Parsed(rec: Record) | BadBounds | OutOfRange

  function DecodeBody(body: seq<byte>): BodyOutcome
  {
    if |body| < 20 then OutOfRange
    else
      var offset := GetU64(body[..8]);
      var timestamp := AsInt64(GetUint(body[8..16]));
      var keyLen := AsInt32(GetUint(body[16..20]));
      if keyLen >= 0 && 20 + keyLen > |body| then OutOfRange
      else
        var key := if keyLen >= 0 then Some(body[20..20 + keyLen]) else None;
        var at := if keyLen >= 0 then 20 + keyLen else 20;
        if at + 4 > |body| then BadBounds
        else
          var valueLen := AsInt32(GetUint(body[at..at + 4]));
          if valueLen >= 0 && at + 4 + valueLen > |body| then BadBounds
          else
            var value := if valueLen >= 0 then Some(body[at + 4..at + 4 + valueLen]) else None;
            Parsed(Record(offset, timestamp, key, value))
  }

  /** What `ReadRecord` makes of a reader whose remaining bytes are `bs`. */
  function Decode(bs: seq<byte>): (out: ReadOutcome)
    ensures out.consumed <= |bs|
    ensures out.Got? ==> out.consumed >= 4
    ensures out.Ended? ==> out.consumed == |bs|
  {
    if |bs| < 4 then Ended(|bs|, 0, bs == [])
    else
      var size := GetUint(bs[..4]);
      if |bs| < 4 + size then Ended(|bs|, 4, |bs| == 4)
      else
        match DecodeBody(bs[4..4 + size])
        case Parsed(rec) => Got(rec, 4 + size, U32(4 + size))
        case BadBounds => Corrupt(4 + size, U32(4 + size))
        case OutOfRange => Panicked(4 + size)
  }

  lemma HeadFields(r: Record)
    ensures var h := Head(r);
            && h[..8] == PutUint(8, r.offset)
            && h[8..16] == PutUint(8, U64(r.timestamp))
            && h[16..20] == PutUint(4, U32(FieldLen(r.key)))
  {
    hide PutUint;
  }

  lemma BodyFields(r: Record)
    ensures var b, h, k, v := Body(r), Head(r), |Payload(r.key)|, |Payload(r.value)|;
            && b[..8] == h[..8] && b[8..16] == h[8..16] && b[16..20] == h[16..20]
            && b[20..20 + k] == Payload(r.key)
            && b[20 + k..24 + k] == PutUint(4, U32(FieldLen(r.value)))
            && b[24 + k..24 + k + v] == Payload(r.value)
  {
    hide PutUint, Head, Payload;
    var h, k, n, v := Head(r), Payload(r.key), PutUint(4, U32(FieldLen(r.value))), Payload(r.value);
    Middle(h, k, n + v, Body(r));
    Middle(h + k, n, v, Body(r));
    Middle(h + k + n, v, [], Body(r));
  }

  lemma BodyRoundTrip(r: Record)
    requires Fits(r)
    ensures DecodeBody(Body(r)) == Parsed(r)
  {
    hide PutUint, GetUint, Head, Body;
    HeadFields(r);
    BodyFields(r);
    Get64(r.offset);
    Get64(U64(r.timestamp));
    Get32(U32(FieldLen(r.key)));
    Get32(U32(FieldLen(r.value)));
    FieldRestored(r.key);
    FieldRestored(r.value);
  }

  lemma FieldRestored(field: Option<seq<byte>>)
    requires field.Some? ==> |field.value| < TWO_31
    ensures AsInt32(U32(FieldLen(field))) == FieldLen(field)
    ensures field.Some? ==> Payload(field) == field.value
    ensures field.None? ==> Payload(field) == []
  {
    if field.Some? && FieldLen(field) > 0 {
      assert field.value[..|field.value|] == field.value;
    }
  }

  /** What a successful decode returns: fields whose lengths fit 31 bits, and a record no
      larger than the bytes consumed, which are fewer than 2^32 + 4. */
  lemma DecodedFits(bs: seq<byte>)
    requires Decode(bs).Got?
    ensures var r := Decode(bs).rec;
            && (r.key.Some? ==> |r.key.value| < TWO_31)
            && (r.value.Some? ==> |r.value.value| < TWO_31)
            && 4 + BodySize(r) <= Decode(bs).consumed < TWO_32 + 4
  {
    Widths();
    GetBound(bs[..4]);
  }

  lemma RoundTrip(r: Record, rest: seq<byte>)
    requires Fits(r)
    ensures Decode(Encode(r) + rest) == Got(r, |Encode(r)|, |Encode(r)|)
  {
    hide PutUint, GetUint, DecodeBody, Body;
    var bs := Encode(r) + rest;
    assert bs[..4] == PutUint(4, U32(BodySize(r)));
    Get32(U32(BodySize(r)));
    assert bs[4..4 + BodySize(r)] == Body(r);
    BodyRoundTrip(r);
  }

  /** Decoding an encoding followed by anything gives the record back, says how many
      bytes it took, and leaves the rest: exactly for the records that fit. */
  lemma RoundTripIff(r: Record, rest: seq<byte>)
    ensures Fits(r) <==>
            Decode(Encode(r) + rest) == Got(r, |Encode(r)|, |Encode(r)|)
  {
    hide Decode, Encode;
    var bs := Encode(r) + rest;
    if Fits(r) {
      RoundTrip(r, rest);
    } else if Decode(bs) == Got(r, |Encode(r)|, |Encode(r)|) {
      DecodedFits(bs);
      ReportedWraps(bs);
      assert false;
    }
  }

  lemma ReportedWraps(bs: seq<byte>)
    requires Decode(bs).Got?
    ensures Decode(bs).reported < TWO_32
  {
    hide GetUint, DecodeBody;
  }

  /** A record cut short anywhere makes the decoder run into the end of the file, with
      `io.EOF` when the cut falls before or right behind the length prefix. */
  lemma StrictPrefixEnds(r: Record, bs: seq<byte>)
    requires Fits(r) && bs < Encode(r)
    ensures Decode(bs) == Ended(|bs|, if |bs| < 4 then 0 else 4, |bs| == 0 || |bs| == 4)
  {
    hide PutUint, GetUint, Body;
    if |bs| >= 4 {
      assert bs[..4] == Encode(r)[..4] == PutUint(4, U32(BodySize(r)));
      Get32(U32(BodySize(r)));
    }
  }

  /** The bytes a field contributes, and the length that stands before them. */
  function FieldBytes(field: Option<seq<byte>>): seq<byte>
  {
    if field.None? then [] else field.value
  }

  function FieldCount(field: Option<seq<byte>>): int
  {
    if field.None? then 0xffff_ffff else |field.value|
  }

  lemma FieldWritten(field: Option<seq<byte>>)
    requires field.Some? ==> |field.value| < TWO_31
    ensures U32(FieldLen(field)) == FieldCount(field) && Payload(field) == FieldBytes(field)
  {
    FieldRestored(field);
  }

  /** Where everything lies in an encoded record, byte by byte: size, offset, timestamp, key
      with its length, value with its length; a nil field is four bytes 0xff. */
  lemma RecordLayout(r: Record)
    requires Fits(r)
    ensures var e, k, v := Encode(r), FieldBytes(r.key), FieldBytes(r.value);
            && |e| == 28 + |k| + |v|
            && Word32(e, 0) == 24 + |k| + |v|
            && Word64(e, 4) == r.offset
            && Word64(e, 12) == U64(r.timestamp)
            && Word32(e, 20) == FieldCount(r.key)
            && e[24..24 + |k|] == k
            && Word32(e, 24 + |k|) == FieldCount(r.value)
            && e[28 + |k|..] == v
  {
    hide PutUint, Word32, Word64, Payload, FieldLen, Body, Head, U64;
    FieldWritten(r.key);
    FieldWritten(r.value);
    HeadFields(r);
    BodyFields(r);
    var e, b, k := Encode(r), Body(r), |Payload(r.key)|;
    assert e[0..4] == PutUint(4, U32(BodySize(r)));
    PutIsWord32(e, 0, U32(BodySize(r)));
    Shifted(r);
    PutIsWord64(e, 4, r.offset);
    PutIsWord64(e, 12, U64(r.timestamp));
    PutIsWord32(e, 20, U32(FieldLen(r.key)));
    PutIsWord32(e, 24 + k, U32(FieldLen(r.value)));
  }

  lemma Shifted(r: Record)
    ensures var e, b, k := Encode(r), Body(r), |Payload(r.key)|;
            && e[4..12] == b[..8] && e[12..20] == b[8..16] && e[20..24] == b[16..20]
            && e[24..24 + k] == b[20..20 + k] && e[24 + k..28 + k] == b[20 + k..24 + k]
            && e[28 + k..] == b[24 + k..24 + k + |Payload(r.value)|]
  {
    hide PutUint, Payload, Body;
  }

  /** What `ReadRecord` makes of any bytes, said about the bytes alone: when the reader runs
      dry, when a slice expression panics, when the record is corrupt, and otherwise which
      bytes become which field. */
  lemma RecordOnDisk(bs: seq<byte>)
    ensures Decode(bs).Ended? <==> |bs| < 4 || |bs| < 4 + Word32(bs, 0)
    ensures !Decode(bs).Ended? && Word32(bs, 0) < 20 ==> Decode(bs).Panicked?
    ensures !Decode(bs).Ended? && Word32(bs, 0) >= 20 ==>
              var size, keyLen := Word32(bs, 0), AsInt32(Word32(bs, 20));
              var at := if keyLen >= 0 then 24 + keyLen else 24;
              var out := Decode(bs);
              && (out.Panicked? <==> keyLen >= 0 && 20 + keyLen > size)
              && (!out.Panicked? && at > size ==> out.Corrupt?)
              && (!out.Panicked? && at <= size ==>
                    var valueLen := AsInt32(Word32(bs, at));
                    && (out.Corrupt? <==> valueLen >= 0 && at + valueLen > size)
                    && (out.Got? ==>
                          out.rec == Record(Word64(bs, 4), AsInt64(Word64(bs, 12)),
                                            if keyLen >= 0 then Some(bs[24..24 + keyLen]) else None,
                                            if valueLen >= 0 then Some(bs[at + 4..at + 4 + valueLen]) else None)))
    ensures Decode(bs).Got? || Decode(bs).Corrupt? ==>
              Decode(bs).consumed == 4 + Word32(bs, 0) && Decode(bs).reported == (4 + Word32(bs, 0)) % TWO_32
  {
    hide GetUint, Word32, Word64, AsInt32, AsInt64;
    if |bs| >= 4 {
      GetIsWord32(bs, 0);
      assert bs[0..4] == bs[..4];
      var size := Word32(bs, 0);
      if |bs| >= 4 + size && size >= 20 {
        HeadOnDisk(bs, size);
        var keyLen: int := AsInt32(Word32(bs, 20));
        var at := if keyLen >= 0 then 20 + keyLen else 20;
        if at <= size {
          BodySlice(bs, size, 20, at);
        }
        if at + 4 <= size {
          BodySlice(bs, size, at, at + 4);
          GetIsWord32(bs, 4 + at);
          var valueLen: int := AsInt32(Word32(bs, 4 + at));
          if 0 <= valueLen && at + 4 + valueLen <= size {
            BodySlice(bs, size, at + 4, at + 4 + valueLen);
          }
        }
      }
    }
  }

  lemma BodySlice(bs: seq<byte>, size: nat, i: nat, j: nat)
    requires i <= j <= size && 4 + size <= |bs|
    ensures bs[4..4 + size][i..j] == bs[4 + i..4 + j]
  {
    SubSlice(bs, 4, bs[4..4 + size], i, j);
  }

  lemma HeadOnDisk(bs: seq<byte>, size: nat)
    requires 20 <= size && 4 + size <= |bs|
    ensures var body := bs[4..4 + size];
            && GetUint(body[..8]) == Word64(bs, 4) && GetUint(body[8..16]) == Word64(bs, 12)
            && GetUint(body[16..20]) == Word32(bs, 20)
  {
    hide GetUint, Word32, Word64;
    var body := bs[4..4 + size];
    BodySlice(bs, size, 0, 8);
    BodySlice(bs, size, 8, 16);
    BodySlice(bs, size, 16, 20);
    assert body[0..8] == body[..8];
    GetIsWord64(bs, 4);
    GetIsWord64(bs, 12);
    GetIsWord32(bs, 20);
  }

  method CopyInto(buf: array<byte>, at: nat, src: seq<byte>) returns (end: nat)
    requires at + |src| <= buf.Length
    modifies buf
    ensures end == at + |src|
    ensures buf[..end] == old(buf[..at]) + src
  {
    forall i | 0 <= i < |src| {
      buf[at + i] := src[i];
    }
    end := at + |src|;
  }

  /** `Record.Marshal`: fills a buffer of the computed size left to right. */
  method Marshal(r: Record) returns (data: seq<byte>)
    ensures data == Encode(r)
  {
    hide PutUint, Head, Body;
    var keyLen := FieldLen(r.key);
    var valueLen := FieldLen(r.value);
    var recordSize: nat := 24;
    if keyLen > 0 {
      recordSize := recordSize + keyLen;
    }
    if valueLen > 0 {
      recordSize := recordSize + valueLen;
    }
    assert recordSize == BodySize(r);
    var buf := new byte[4 + recordSize];
    var curr := CopyInto(buf, 0, PutUint(4, U32(recordSize)));
    curr := MarshalHead(r, buf, curr);
    curr := MarshalPayload(r.key, buf, curr);
    curr := CopyInto(buf, curr, PutUint(4, U32(valueLen)));
    curr := MarshalPayload(r.value, buf, curr);
    data := buf[..];
    assert curr == buf.Length && data == buf[..curr];
    AssembledEncode(r);
  }

  lemma AssembledEncode(r: Record)
    ensures Encode(r) == PutUint(4, U32(BodySize(r))) + Head(r) + Payload(r.key) +
                         PutUint(4, U32(FieldLen(r.value))) + Payload(r.value)
  {
    hide PutUint, Head, Payload;
    var a, h, k, n, v := PutUint(4, U32(BodySize(r))), Head(r), Payload(r.key),
                         PutUint(4, U32(FieldLen(r.value))), Payload(r.value);
    assert a + (h + k + n + v) == a + h + k + n + v;
  }

  method MarshalHead(r: Record, buf: array<byte>, at: nat) returns (curr: nat)
    requires at + 20 <= buf.Length
    modifies buf
    ensures curr == at + 20
    ensures buf[..curr] == old(buf[..at]) + Head(r)
  {
    hide PutUint;
    curr := CopyInto(buf, at, PutUint(8, r.offset));
    curr := CopyInto(buf, curr, PutUint(8, U64(r.timestamp)));
    curr := CopyInto(buf, curr, PutUint(4, U32(FieldLen(r.key))));
  }

  method MarshalPayload(field: Option<seq<byte>>, buf: array<byte>, at: nat) returns (curr: nat)
    requires at + |Payload(field)| <= buf.Length
    modifies buf
    ensures curr == at + |Payload(field)|
    ensures buf[..curr] == old(buf[..at]) + Payload(field)
  {
    curr := at;
    var n := FieldLen(field);
    if n > 0 {
      TruncatedIsShort(field.value);
      curr := CopyInto(buf, curr, field.value[..n]);
    }
  }

  /** The parsing half of `ReadRecord`: a moving index over the record's own buffer. */
  method ParseBody(recordBuf: seq<byte>) returns (out: BodyOutcome)
    ensures out == DecodeBody(recordBuf)
  {
    hide GetUint;
    if |recordBuf| < 20 {
      return OutOfRange;
    }
    var offset := GetU64(recordBuf[..8]);
    var timestamp := AsInt64(GetUint(recordBuf[8..16]));
    var keyLen := AsInt32(GetUint(recordBuf[16..20]));
    var curr := 20;
    var key := None;
    if keyLen >= 0 {
      if curr + keyLen > |recordBuf| {
        return OutOfRange;
      }
      key := Some(recordBuf[curr..curr + keyLen]);
      curr := curr + keyLen;
    }
    if curr + 4 > |recordBuf| {
      return BadBounds;
    }
    var valueLen := AsInt32(GetUint(recordBuf[curr..curr + 4]));
    curr := curr + 4;
    var value := None;
    if valueLen >= 0 {
      if curr + valueLen > |recordBuf| {
        return BadBounds;
      }
      value := Some(recordBuf[curr..curr + valueLen]);
    }
    out := Parsed(Record(offset, timestamp, key, value));
  }

  /** `ReadRecord`: consumes one record from the reader. */
  method ReadRecord(reader: File) returns (out: ReadOutcome)
    requires reader.Valid()
    modifies reader
    ensures reader.Valid() && reader.bytes == old(reader.bytes)
    ensures out == Decode(old(reader.Rest()))
    ensures reader.cursor == old(reader.cursor) + out.consumed
    ensures reader.Rest() == old(reader.Rest())[out.consumed..]
  {
    hide GetUint, DecodeBody;
    ghost var rest := reader.Rest();
    var lenBuf := reader.ReadFull(4);
    if |lenBuf| < 4 {
      return Ended(|lenBuf|, 0, |lenBuf| == 0);
    }
    var recordSize := GetUint(lenBuf);
    var recordBuf := reader.ReadFull(recordSize);
    if |recordBuf| < recordSize {
      return Ended(4 + |recordBuf|, 4, |recordBuf| == 0);
    }
    assert recordBuf == rest[4..4 + recordSize];
    var body := ParseBody(recordBuf);
    match body {
      case Parsed(rec) => return Got(rec, 4 + recordSize, U32(4 + recordSize));
      case BadBounds => return Corrupt(4 + recordSize, U32(4 + recordSize));
      case OutOfRange => return Panicked(4 + recordSize);
    }
  }
}
