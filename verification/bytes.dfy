/** Fixed-width big-endian integers and Go's integer conversions.

    Every width that matters to the source is written out: an `int` that Go
    would hold in 16, 32 or 64 bits is wrapped by `U16`, `U32`, `U64`, `AsInt16`
    or `AsInt32` at the place where Go converts it. */
module Bytes {

  type byte = x: int | 0 <= x < 256

  const TWO_15: int := 0x8000
  const TWO_16: int := 0x1_0000
  const TWO_31: int := 0x8000_0000
  const TWO_32: int := 0x1_0000_0000
  const TWO_63: int := 0x8000_0000_0000_0000
  const TWO_64: int := 0x1_0000_0000_0000_0000

  type uint64 = x: int | 0 <= x < TWO_64
  type int64 = x: int | -TWO_63 <= x < TWO_63
  type int32 = x: int | -TWO_31 <= x < TWO_31
  type int16 = x: int | -TWO_15 <= x < TWO_15

  /** The cap on any byte field of a request (internal/protocol/header.go:14). */
  const MAX_FIELD_BYTES: int := 64 * 1024 * 1024

  datatype Option<+T> = None | Some(value: T)

  function U16(x: int): (u: nat) ensures u < TWO_16 { x % TWO_16 }
  function U32(x: int): (u: nat) ensures u < TWO_32 { x % TWO_32 }
  function U64(x: int): (u: nat) ensures u < TWO_64 { x % TWO_64 }

  /** Go's `int16(x)`: keep the low 16 bits, read as two's complement. */
  function AsInt16(x: int): (i: int16)
    ensures -TWO_15 <= x < TWO_15 ==> i == x
    ensures U16(i) == U16(x)
  {
    var u := U16(x);
    if u >= TWO_15 then u - TWO_16 else u
  }

  /** Go's `int32(x)`. */
  function AsInt32(x: int): (i: int32)
    ensures -TWO_31 <= x < TWO_31 ==> i == x
    ensures U32(i) == U32(x)
  {
    var u := U32(x);
    if u >= TWO_31 then u - TWO_32 else u
  }

  /** Go's `int64(x)`. */
  function AsInt64(x: int): (i: int64)
    ensures -TWO_63 <= x < TWO_63 ==> i == x
    ensures U64(i) == U64(x)
  {
    var u := U64(x);
    if u >= TWO_63 then u - TWO_64 else u
  }

  /** `binary.BigEndian.PutUint*`: the low `width` bytes of `v`, most significant first. */
  function PutUint(width: nat, v: nat): (bs: seq<byte>)
    ensures |bs| == width
  {
    if width == 0 then [] else PutUint(width - 1, v / 256) + [v % 256]
  }

  /** `binary.BigEndian.Uint*`. */
  function GetUint(bs: seq<byte>): nat
  {
    if bs == [] then 0 else GetUint(bs[..|bs| - 1]) * 256 + bs[|bs| - 1]
  }

  function Pow256(width: nat): nat
  {
    if width == 0 then 1 else 256 * Pow256(width - 1)
  }

  lemma Widths()
    ensures Pow256(2) == TWO_16
    ensures Pow256(4) == TWO_32
    ensures Pow256(8) == TWO_64
  {
    assert Pow256(4) == TWO_32 by { assert Pow256(2) == TWO_16; }
    assert Pow256(6) == TWO_16 * TWO_32;
  }

  lemma {:induction false} GetPut(width: nat, v: nat)
    requires v < Pow256(width)
    ensures GetUint(PutUint(width, v)) == v
  {
    if width > 0 {
      GetPut(width - 1, v / 256);
      assert PutUint(width, v)[..width - 1] == PutUint(width - 1, v / 256);
    }
  }

  lemma {:induction false} GetBound(bs: seq<byte>)
    ensures GetUint(bs) < Pow256(|bs|)
  {
    if bs != [] {
      GetBound(bs[..|bs| - 1]);
    }
  }

  lemma Get16(v: nat)
    requires v < TWO_16
    ensures GetUint(PutUint(2, v)) == v
  {
    Widths();
    GetPut(2, v);
  }

  lemma Get32(v: nat)
    requires v < TWO_32
    ensures GetUint(PutUint(4, v)) == v
  {
    Widths();
    GetPut(4, v);
  }

  lemma Get64(v: nat)
    requires v < TWO_64
    ensures GetUint(PutUint(8, v)) == v
  {
    Widths();
    GetPut(8, v);
  }

  /** A decoded 8-byte field is a `uint64`. */
  function GetU64(bs: seq<byte>): (v: uint64)
    requires |bs| == 8
    ensures v == GetUint(bs)
  {
    Widths();
    GetBound(bs);
    GetUint(bs)
  }

  // ------------------------------------------------- integers read byte by byte

  /** The 16-bit number whose high byte is at `i`. */
  function Word16(bs: seq<byte>, i: nat): (w: nat)
    requires i + 2 <= |bs|
    ensures w < TWO_16
  {
    256 * (bs[i] as int) + bs[i + 1]
  }

  /** The 32-bit number whose highest byte is at `i`. */
  function Word32(bs: seq<byte>, i: nat): (w: nat)
    requires i + 4 <= |bs|
    ensures w < TWO_32
  {
    TWO_16 * Word16(bs, i) + Word16(bs, i + 2)
  }

  /** The 64-bit number whose highest byte is at `i`. */
  function Word64(bs: seq<byte>, i: nat): (w: nat)
    requires i + 8 <= |bs|
    ensures w < TWO_64
  {
    TWO_32 * Word32(bs, i) + Word32(bs, i + 4)
  }

  lemma GetStep(bs: seq<byte>, i: nat, j: nat)
    requires i < j <= |bs|
    ensures GetUint(bs[i..j]) == GetUint(bs[i..j - 1]) * 256 + bs[j - 1]
  {
    assert bs[i..j][..j - i - 1] == bs[i..j - 1];
  }

  lemma GetNothing(bs: seq<byte>, i: nat)
    requires i <= |bs|
    ensures GetUint(bs[i..i]) == 0
  {
  }

  /** The decoder's integers are big-endian. */
  lemma GetIsWord16(bs: seq<byte>, i: nat)
    requires i + 2 <= |bs|
    ensures GetUint(bs[i..i + 2]) == Word16(bs, i)
  {
    hide GetUint;
    GetNothing(bs, i);
    GetStep(bs, i, i + 1);
    GetStep(bs, i, i + 2);
  }

  lemma GetIsWord32(bs: seq<byte>, i: nat)
    requires i + 4 <= |bs|
    ensures GetUint(bs[i..i + 4]) == Word32(bs, i)
  {
    hide GetUint;
    GetIsWord16(bs, i);
    GetStep(bs, i, i + 3);
    GetStep(bs, i, i + 4);
  }

  lemma GetIsWord64(bs: seq<byte>, i: nat)
    requires i + 8 <= |bs|
    ensures GetUint(bs[i..i + 8]) == Word64(bs, i)
  {
    hide GetUint;
    GetIsWord32(bs, i);
    GetStep(bs, i, i + 5);
    GetStep(bs, i, i + 6);
    GetStep(bs, i, i + 7);
    GetStep(bs, i, i + 8);
  }

  /** So are the encoder's, wherever they stand. */
  lemma PutIsWord16(bs: seq<byte>, i: nat, v: nat)
    requires v < TWO_16 && i + 2 <= |bs| && bs[i..i + 2] == PutUint(2, v)
    ensures Word16(bs, i) == v
  {
    hide GetUint, PutUint;
    Get16(v);
    GetIsWord16(bs, i);
  }

  lemma PutIsWord32(bs: seq<byte>, i: nat, v: nat)
    requires v < TWO_32 && i + 4 <= |bs| && bs[i..i + 4] == PutUint(4, v)
    ensures Word32(bs, i) == v
  {
    hide GetUint, PutUint;
    Get32(v);
    GetIsWord32(bs, i);
  }

  lemma PutIsWord64(bs: seq<byte>, i: nat, v: nat)
    requires v < TWO_64 && i + 8 <= |bs| && bs[i..i + 8] == PutUint(8, v)
    ensures Word64(bs, i) == v
  {
    hide GetUint, PutUint;
    Get64(v);
    GetIsWord64(bs, i);
  }
}
