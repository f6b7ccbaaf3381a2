/** The sparse offset index of a segment (internal/storage/index.go). */
module Indexes {
  import opened Bytes

  const ENTRY_SIZE: nat := 16

  datatype Entry = Entry(offset: uint64, position: int64)

  /** `index.go` reads entry `i` from the 16 bytes at `16 * i`. */
  function EntryAt(bytes: seq<byte>, i: nat): Entry
    requires 16 * i + 16 <= |bytes|
  {
    Entry(GetU64(bytes[16 * i..16 * i + 8]), AsInt64(GetUint(bytes[16 * i + 8..16 * i + 16])))
  }

  function EncodeEntry(offset: uint64, position: int64): (bs: seq<byte>)
    ensures |bs| == 16
  {
    PutUint(8, offset) + PutUint(8, U64(position))
  }

  function EntriesOf(bytes: seq<byte>): (es: seq<Entry>)
    ensures |es| == |bytes| / 16
  {
    seq(|bytes| / 16, i requires 0 <= i < |bytes| / 16 => EntryAt(bytes, i))
  }

  predicate Sorted(es: seq<Entry>)
  {
    forall i, j :: 0 <= i < j < |es| ==> es[i].offset <= es[j].offset
  }

  /** How many leading entries are at or below the target. */
  function Covered(es: seq<Entry>, target: int): (n: nat)
    ensures n <= |es|
  {
    if es == [] then 0
    else if es[|es| - 1].offset <= target then |es|
    else Covered(es[..|es| - 1], target)
  }

  /** The position of the last entry at or below the target; 0 when there is none. */
  function LookupIn(es: seq<Entry>, target: int): int
  {
    var n := Covered(es, target);
    if n == 0 then 0 else es[n - 1].position
  }

  lemma {:induction false} CoveredIs(es: seq<Entry>, target: int, n: nat)
    requires n <= |es|
    requires n > 0 ==> es[n - 1].offset <= target
    requires forall i :: n <= i < |es| ==> es[i].offset > target
    ensures Covered(es, target) == n
  {
    if n < |es| {
      CoveredIs(es[..|es| - 1], target, n);
    }
  }

  /** A lookup in a sorted index yields the position of the last entry at or below the target,
      and 0 if every entry lies above it. */
  lemma LookupIsLastBelow(es: seq<Entry>, target: int, n: nat)
    requires n <= |es| && (n > 0 ==> es[n - 1].offset <= target)
    requires forall i :: n <= i < |es| ==> es[i].offset > target
    ensures LookupIn(es, target) == if n == 0 then 0 else es[n - 1].position
  {
    CoveredIs(es, target, n);
  }

  lemma EntryRoundTrip(offset: uint64, position: int64)
    ensures EntryAt(EncodeEntry(offset, position), 0) == Entry(offset, position)
  {
    hide PutUint, GetUint;
    var bs := EncodeEntry(offset, position);
    assert bs[..8] == PutUint(8, offset);
    assert bs[8..16] == PutUint(8, U64(position));
    Get64(offset);
    Get64(U64(position));
  }

  /** Where an entry's fields lie, byte by byte. */
  lemma EntryLayout(offset: uint64, position: int64)
    ensures var e := EncodeEntry(offset, position);
            Word64(e, 0) == offset && Word64(e, 8) == U64(position)
  {
    hide PutUint, Word64;
    var e := EncodeEntry(offset, position);
    assert e[0..8] == PutUint(8, offset);
    assert e[8..16] == PutUint(8, U64(position));
    PutIsWord64(e, 0, offset);
    PutIsWord64(e, 8, U64(position));
  }

  /** And where a lookup reads them. */
  lemma EntryOnDisk(bytes: seq<byte>, i: nat)
    requires i < |bytes| / 16
    ensures EntriesOf(bytes)[i] == Entry(Word64(bytes, 16 * i), AsInt64(Word64(bytes, 16 * i + 8)))
  {
    hide GetUint, Word64;
    GetIsWord64(bytes, 16 * i);
    GetIsWord64(bytes, 16 * i + 8);
  }

  lemma EntryUnmoved(bytes: seq<byte>, more: seq<byte>, i: nat)
    requires 16 * i + 16 <= |bytes|
    ensures EntryAt(bytes + more, i) == EntryAt(bytes, i)
  {
    hide GetUint;
    assert (bytes + more)[16 * i..16 * i + 8] == bytes[16 * i..16 * i + 8];
    assert (bytes + more)[16 * i + 8..16 * i + 16] == bytes[16 * i + 8..16 * i + 16];
  }

  lemma EntryAppended(bytes: seq<byte>, offset: uint64, position: int64)
    requires |bytes| % 16 == 0
    ensures EntryAt(bytes + EncodeEntry(offset, position), |bytes| / 16) == Entry(offset, position)
  {
    hide GetUint, EncodeEntry;
    var bs := EncodeEntry(offset, position);
    var all, n := bytes + bs, |bytes|;
    assert all[n..n + 8] == bs[0..8];
    assert all[n + 8..n + 16] == bs[8..16];
    EntryRoundTrip(offset, position);
  }

  /** Writing an entry extends the decoded entries by exactly that entry. */
  lemma EntriesGrow(bytes: seq<byte>, offset: uint64, position: int64)
    requires |bytes| % 16 == 0
    ensures EntriesOf(bytes + EncodeEntry(offset, position)) == EntriesOf(bytes) + [Entry(offset, position)]
  {
    hide EntryAt, EncodeEntry;
    var all := bytes + EncodeEntry(offset, position);
    forall i | 0 <= i < |bytes| / 16
      ensures EntryAt(all, i) == EntryAt(bytes, i)
    {
      EntryUnmoved(bytes, EncodeEntry(offset, position), i);
    }
    EntryAppended(bytes, offset, position);
  }

  class Index {
    var bytes: seq<byte>
    var size: nat

    ghost predicate Valid()
      reads this
    {
      size == |bytes| && size % 16 == 0
    }

    ghost function Entries(): seq<Entry>
      reads this
    {
      EntriesOf(bytes)
    }

    /** `NewIndex`: the size is taken from the file. */
    constructor (contents: seq<byte>)
      ensures bytes == contents && size == |contents|
    {
      bytes, size := contents, |contents|;
    }

    /** The file is opened in append mode, so an entry always lands at the end. */
    method WriteEntry(offset: uint64, position: int64)
      requires Valid()
      modifies this
      ensures Valid()
      ensures Entries() == old(Entries()) + [Entry(offset, position)]
    {
      hide EncodeEntry, EntryAt, EntriesOf;
      EntriesGrow(bytes, offset, position);
      bytes := bytes + EncodeEntry(offset, position);
      size := size + ENTRY_SIZE;
    }

    method Lookup(target: uint64) returns (position: int)
      requires Valid() && Sorted(Entries())
      ensures position == LookupIn(Entries(), target)
    {
      hide EntryAt;
      var count := size / ENTRY_SIZE;
      if count == 0 {
        return 0;
      }
      ghost var es := Entries();
      var low, high := 0, count - 1;
      position := 0;
      while low <= high
        invariant 0 <= low <= high + 1 <= count
        invariant low > 0 ==> es[low - 1].offset <= target
        invariant forall i :: high < i < count ==> es[i].offset > target
        invariant position == if low == 0 then 0 else es[low - 1].position
      {
        var mid := low + (high - low) / 2;
        var entry := EntryAt(bytes, mid);
        assert entry == es[mid];
        if entry.offset <= target {
          position := entry.position;
          low := mid + 1;
        } else {
          high := mid - 1;
        }
      }
      CoveredIs(es, target, low);
    }
  }
}
