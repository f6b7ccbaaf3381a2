/** Key compaction on records (internal/storage/cleaner.go:194-226,
    internal/storage/partition_log.go:330-367), and why it cannot be seen through the
    key-value view of the log. */
module Compaction {
  import opened Bytes
  import opened Seqs
  import opened Records
  import opened Streams

  type Key = seq<byte>

  /** `len(rec.Key)` is 0 for a nil and for an empty key. */
  function KeyOf(r: Record): (key: Key)
    ensures r.key == Some(key) || (r.key == None && key == [])
  {
    if r.key.Some? then r.key.value else []
  }

  function ValueOf(r: Record): (value: seq<byte>)
    ensures r.value == Some(value) || (r.value == None && value == [])
  {
    if r.value.Some? then r.value.value else []
  }

  predicate Keyed(r: Record)
  {
    KeyOf(r) != []
  }

  /** The map from key to latest offset, as the scan over all segments builds it. */
  function Latest(recs: seq<Record>): map<Key, nat>
  {
    if recs == [] then map[]
    else
      var r := recs[|recs| - 1];
      var m := Latest(recs[..|recs| - 1]);
      if Keyed(r) then m[KeyOf(r) := r.offset] else m
  }

  predicate Keep(r: Record, latest: map<Key, nat>)
  {
    !Keyed(r) || (KeyOf(r) in latest && latest[KeyOf(r)] == r.offset && ValueOf(r) != [])
  }

  /** The records of a segment that survive compaction, in order. */
  function Kept(recs: seq<Record>, latest: map<Key, nat>): seq<Record>
  {
    if recs == [] then []
    else
      var r := recs[|recs| - 1];
      Kept(recs[..|recs| - 1], latest) + (if Keep(r, latest) then [r] else [])
  }

  /** The key-value view: the last value written for each non-empty key, where an empty
      or nil value means the key is absent. */
  function KeyValues(recs: seq<Record>): map<Key, seq<byte>>
  {
    if recs == [] then map[] else Applied(KeyValues(recs[..|recs| - 1]), recs[|recs| - 1])
  }

  function Applied(m: map<Key, seq<byte>>, r: Record): map<Key, seq<byte>>
  {
    if !Keyed(r) then m
    else if ValueOf(r) != [] then m[KeyOf(r) := ValueOf(r)]
    else m - {KeyOf(r)}
  }

  lemma ViewAppend(recs: seq<Record>, r: Record)
    ensures KeyValues(recs + [r]) == Applied(KeyValues(recs), r)
  {
    hide Applied;
    assert (recs + [r])[..|recs|] == recs;
  }

  /** The last record written for a key: an independent reading of both maps above. */
  function LastFor(recs: seq<Record>, key: Key): Option<Record>
  {
    if recs == [] then None
    else if KeyOf(recs[|recs| - 1]) == key then Some(recs[|recs| - 1])
    else LastFor(recs[..|recs| - 1], key)
  }

  lemma {:induction false} LatestIsLast(recs: seq<Record>, key: Key)
    requires key != []
    ensures LastFor(recs, key).None? ==> key !in Latest(recs)
    ensures LastFor(recs, key).Some? ==> key in Latest(recs) && Latest(recs)[key] == LastFor(recs, key).value.offset
  {
    if recs != [] {
      LatestIsLast(recs[..|recs| - 1], key);
    }
  }

  lemma {:induction false} LatestHasNoEmptyKey(recs: seq<Record>)
    ensures [] !in Latest(recs)
    ensures [] !in KeyValues(recs)
  {
    if recs != [] {
      LatestHasNoEmptyKey(recs[..|recs| - 1]);
    }
  }

  lemma {:induction false} ViewIsLast(recs: seq<Record>, key: Key)
    requires key != []
    ensures var last := LastFor(recs, key);
            if last.Some? && ValueOf(last.value) != []
            then key in KeyValues(recs) && KeyValues(recs)[key] == ValueOf(last.value)
            else key !in KeyValues(recs)
  {
    if recs != [] {
      ViewIsLast(recs[..|recs| - 1], key);
    }
  }

  lemma {:induction false} LastForConcat(a: seq<Record>, b: seq<Record>, key: Key)
    ensures LastFor(a + b, key) == if LastFor(b, key).Some? then LastFor(b, key) else LastFor(a, key)
  {
    if b == [] {
      assert a + b == a;
    } else {
      LastForConcat(a, b[..|b| - 1], key);
      assert (a + b)[..|a + b| - 1] == a + b[..|b| - 1];
    }
  }

  lemma {:induction false} LastForIn(recs: seq<Record>, key: Key)
    ensures var last := LastFor(recs, key);
            last.Some? ==> last.value in recs && KeyOf(last.value) == key
  {
    if recs != [] && KeyOf(recs[|recs| - 1]) != key {
      LastForIn(recs[..|recs| - 1], key);
    }
  }

  /** Two views with the same last record per key are equal. */
  lemma SameLastSameView(a: seq<Record>, b: seq<Record>)
    requires forall key: Key | key != [] ::
               || LastFor(a, key) == LastFor(b, key)
               || (Absent(a, key) && Absent(b, key))
    ensures KeyValues(a) == KeyValues(b)
  {
    var x, y := KeyValues(a), KeyValues(b);
    forall key: Key
      ensures (key in x <==> key in y) && (key in x ==> x[key] == y[key])
    {
      if key == [] {
        LatestHasNoEmptyKey(a);
        LatestHasNoEmptyKey(b);
      } else {
        ViewIsLast(a, key);
        ViewIsLast(b, key);
      }
    }
  }

  /** No value for the key: never written, or last written as a tombstone. */
  predicate Absent(recs: seq<Record>, key: Key)
  {
    var last := LastFor(recs, key);
    last.None? || ValueOf(last.value) == []
  }

  // ----------------------------------------------------- what survives

  /** A key whose latest offset is not among these records loses all of them. */
  lemma {:induction false} NoneKept(recs: seq<Record>, latest: map<Key, nat>, key: Key)
    requires key != []
    requires forall i :: 0 <= i < |recs| && KeyOf(recs[i]) == key ==> !Keep(recs[i], latest)
    ensures LastFor(Kept(recs, latest), key) == None
  {
    if recs != [] {
      var r, init := recs[|recs| - 1], recs[..|recs| - 1];
      NoneKept(init, latest, key);
      if Keep(r, latest) {
        LastForConcat(Kept(init, latest), [r], key);
      } else {
        assert Kept(init, latest) + [] == Kept(init, latest);
      }
    }
  }

  /** A key whose latest record is here keeps that record, unless it is a tombstone. */
  lemma {:induction false} LatestKept(recs: seq<Record>, latest: map<Key, nat>, key: Key)
    requires key != [] && Increasing(recs)
    requires LastFor(recs, key).Some? && key in latest && latest[key] == LastFor(recs, key).value.offset
    ensures LastFor(Kept(recs, latest), key) ==
            if ValueOf(LastFor(recs, key).value) != [] then LastFor(recs, key) else None
  {
    var r, init := recs[|recs| - 1], recs[..|recs| - 1];
    if KeyOf(r) == key {
      if Keep(r, latest) {
        LastForConcat(Kept(init, latest), [r], key);
      } else {
        assert Kept(init, latest) + [] == Kept(init, latest);
        NoneKept(init, latest, key);
      }
    } else {
      LatestKept(init, latest, key);
      LastForConcat(Kept(init, latest), if Keep(r, latest) then [r] else [], key);
    }
  }

  /** The effect of compacting an older part `a` against the latest offsets of `a + b`,
      key by key. */
  lemma CompactedLast(a: seq<Record>, b: seq<Record>, key: Key)
    requires key != [] && Increasing(a + b)
    ensures var latest := Latest(a + b);
            var before, after := LastFor(a + b, key), LastFor(Kept(a, latest) + b, key);
            after == if LastFor(b, key).None? && Absent(a, key) then None else before
  {
    hide Kept, Latest, Keep;
    var latest := Latest(a + b);
    LatestIsLast(a + b, key);
    LastForConcat(a, b, key);
    LastForConcat(Kept(a, latest), b, key);
    if LastFor(b, key).None? {
      forall i, j | 0 <= i < j < |a|
        ensures a[i].offset < a[j].offset
      {
        assert (a + b)[i] == a[i] && (a + b)[j] == a[j];
      }
      if LastFor(a, key).Some? {
        LatestKept(a, latest, key);
      } else {
        NoRecordFor(a, latest, key);
      }
    }
  }

  lemma {:induction false} NoRecordFor(recs: seq<Record>, latest: map<Key, nat>, key: Key)
    requires key != [] && LastFor(recs, key).None?
    ensures LastFor(Kept(recs, latest), key).None?
  {
    forall i | 0 <= i < |recs|
      ensures KeyOf(recs[i]) != key
    {
      AbsentEverywhere(recs, key, i);
    }
    NoneKept(recs, latest, key);
  }

  lemma {:induction false} AbsentEverywhere(recs: seq<Record>, key: Key, i: nat)
    requires LastFor(recs, key).None? && i < |recs|
    ensures KeyOf(recs[i]) != key
  {
    if i < |recs| - 1 {
      AbsentEverywhere(recs[..|recs| - 1], key, i);
    }
  }

  /** Compacting any older part of the log against the partition-wide latest offsets
      leaves the key-value view unchanged. */
  lemma CompactionKeepsView(a: seq<Record>, b: seq<Record>)
    requires Increasing(a + b)
    ensures KeyValues(Kept(a, Latest(a + b)) + b) == KeyValues(a + b)
  {
    hide Kept, Latest, KeyValues, LastFor;
    var c := Kept(a, Latest(a + b)) + b;
    forall key: Key | key != []
      ensures LastFor(c, key) == LastFor(a + b, key) || (Absent(c, key) && Absent(a + b, key))
    {
      CompactedLast(a, b, key);
      LastForConcat(a, b, key);
    }
    SameLastSameView(c, a + b);
  }

  // ------------------------------------------------- shape of the survivors

  lemma {:induction false} KeptConcat(a: seq<Record>, b: seq<Record>, latest: map<Key, nat>)
    ensures Kept(a + b, latest) == Kept(a, latest) + Kept(b, latest)
  {
    hide Keep;
    if b == [] {
      assert a + b == a;
    } else {
      var r := b[|b| - 1];
      KeptConcat(a, b[..|b| - 1], latest);
      assert (a + b)[..|a + b| - 1] == a + b[..|b| - 1];
      Assoc(Kept(a, latest), Kept(b[..|b| - 1], latest), if Keep(r, latest) then [r] else []);
    }
  }

  /** Exactly the records that pass the test survive. */
  lemma {:induction false} KeptMembers(recs: seq<Record>, latest: map<Key, nat>)
    ensures forall r :: r in Kept(recs, latest) <==> r in recs && Keep(r, latest)
  {
    hide Keep;
    if recs != [] {
      KeptMembers(recs[..|recs| - 1], latest);
      assert recs == recs[..|recs| - 1] + [recs[|recs| - 1]];
    }
  }

  lemma {:induction false} LastForIsHighest(recs: seq<Record>, x: Record)
    requires Increasing(recs) && x in recs
    ensures LastFor(recs, KeyOf(x)).Some? && x.offset <= LastFor(recs, KeyOf(x)).value.offset
  {
    var last, init := recs[|recs| - 1], recs[..|recs| - 1];
    assert recs == init + [last];
    if KeyOf(last) != KeyOf(x) {
      LastForIsHighest(init, x);
    }
  }

  /** The record has no key, or it has a value and no record of its key is newer. */
  predicate Surviving(all: seq<Record>, r: Record)
  {
    || KeyOf(r) == []
    || (ValueOf(r) != [] && forall x :: x in all && KeyOf(x) == KeyOf(r) ==> x.offset <= r.offset)
  }

  /** The map lookup of the filter decides just that. */
  lemma {:induction false} KeepIffSurviving(all: seq<Record>, r: Record)
    requires Increasing(all) && r in all
    ensures Keep(r, Latest(all)) <==> Surviving(all, r)
  {
    hide Latest, LastFor;
    var key := KeyOf(r);
    if key != [] {
      LatestIsLast(all, key);
      LastForIsHighest(all, r);
      LastForIn(all, key);
      forall x | x in all && KeyOf(x) == key
        ensures x.offset <= LastFor(all, key).value.offset
      {
        LastForIsHighest(all, x);
      }
    }
  }

  /** Survivors stay in offset order. */
  lemma {:induction false} KeptOrder(recs: seq<Record>, latest: map<Key, nat>)
    requires Increasing(recs)
    ensures Increasing(Kept(recs, latest))
  {
    hide Keep;
    if recs != [] {
      var r, init := recs[|recs| - 1], recs[..|recs| - 1];
      KeptOrder(init, latest);
      KeptMembers(init, latest);
      forall x | x in Kept(init, latest)
        ensures x.offset < r.offset
      {
        assert x in init;
      }
      if Keep(r, latest) {
        OrderAppend(Kept(init, latest), r);
      } else {
        assert Kept(init, latest) + [] == Kept(init, latest);
      }
    }
  }

  lemma OrderAppend(recs: seq<Record>, r: Record)
    requires Increasing(recs) && forall x :: x in recs ==> x.offset < r.offset
    ensures Increasing(recs + [r])
  {
    forall i, j | 0 <= i < j < |recs + [r]|
      ensures (recs + [r])[i].offset < (recs + [r])[j].offset
    {
      assert recs[i] in recs;
    }
  }

  lemma {:induction false} KeptLength(recs: seq<Record>, latest: map<Key, nat>)
    ensures |Kept(recs, latest)| <= |recs|
    ensures |Kept(recs, latest)| == |recs| ==> Kept(recs, latest) == recs
  {
    hide Keep;
    if recs != [] {
      KeptLength(recs[..|recs| - 1], latest);
    }
  }

  lemma {:induction false} AllKept(recs: seq<Record>, latest: map<Key, nat>)
    requires forall r :: r in recs ==> Keep(r, latest)
    ensures Kept(recs, latest) == recs
  {
    hide Keep;
    if recs != [] {
      AllKept(recs[..|recs| - 1], latest);
    }
  }

  /** The size comparison in `CompactSegments` detects exactly the lost records. */
  lemma {:induction false} KeptSize(recs: seq<Record>, latest: map<Key, nat>)
    ensures |EncodeAll(Kept(recs, latest))| <= |EncodeAll(recs)|
    ensures |EncodeAll(Kept(recs, latest))| == |EncodeAll(recs)| <==> Kept(recs, latest) == recs
  {
    hide Keep, Encode, EncodeAll;
    if recs != [] {
      var r, init := recs[|recs| - 1], recs[..|recs| - 1];
      KeptSize(init, latest);
      assert recs == init + [r];
      EncodeAppend(init, r);
      EncodeAppend(Kept(init, latest), r);
      if !Keep(r, latest) {
        assert Kept(recs, latest) == Kept(init, latest);
        KeptLength(init, latest);
      }
    }
  }

  /** What survived one compaction survives the next one, as long as nothing was
      appended in between. */
  lemma SurvivorsStay(a: seq<Record>, b: seq<Record>)
    requires Increasing(a + b)
    ensures var k := Kept(a, Latest(a + b));
            Kept(k, Latest(k + b)) == k
  {
    hide Kept, Latest, LastFor, Keep;
    var latest := Latest(a + b);
    var k := Kept(a, latest);
    KeptMembers(a, latest);
    forall r | r in k
      ensures Keep(r, Latest(k + b))
    {
      SurvivorStays(a, b, r);
    }
    AllKept(k, Latest(k + b));
  }

  lemma SurvivorStays(a: seq<Record>, b: seq<Record>, r: Record)
    requires Increasing(a + b) && r in a && Keep(r, Latest(a + b))
    ensures Keep(r, Latest(Kept(a, Latest(a + b)) + b))
  {
    hide Kept, Latest, LastFor;
    if Keyed(r) {
      var key := KeyOf(r);
      LatestIsLast(a + b, key);
      LastForIn(a + b, key);
      var i :| 0 <= i < |a| && a[i] == r;
      assert (a + b)[i] == r;
      var last := LastFor(a + b, key).value;
      var j :| 0 <= j < |a + b| && (a + b)[j] == last;
      assert i == j && last == r;
      LastForConcat(a, b, key);
      LastInA(a, b, key, i);
      CompactedLast(a, b, key);
      LatestIsLast(Kept(a, Latest(a + b)) + b, key);
    }
  }

  /** A last record that sits in the older part is not in the newer one. */
  lemma LastInA(a: seq<Record>, b: seq<Record>, key: Key, i: nat)
    requires Increasing(a + b) && i < |a| && LastFor(a + b, key) == Some(a[i])
    ensures LastFor(b, key).None?
  {
    hide LastFor;
    LastForConcat(a, b, key);
    LastForIn(b, key);
    forall j | 0 <= j < |b|
      ensures b[j] != a[i]
    {
      assert (a + b)[i] == a[i] && (a + b)[|a| + j] == b[j];
    }
  }
}
