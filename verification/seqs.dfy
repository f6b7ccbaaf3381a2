/** Facts about concatenation that the solver should not have to rediscover. */
module Seqs {
  lemma Assoc<T>(x: seq<T>, y: seq<T>, z: seq<T>)
    ensures x + (y + z) == x + y + z
  {
  }

  lemma DropFirst<T>(a: seq<T>, b: seq<T>)
    ensures (a + b)[|a|..] == b
  {
  }

  /** The slice of a concatenation that its middle part occupies. */
  lemma Middle<T>(a: seq<T>, b: seq<T>, c: seq<T>, whole: seq<T>)
    requires whole == a + b + c
    ensures whole[|a|..|a| + |b|] == b
  {
  }

  /** A slice of a slice. */
  lemma SubSlice<T>(whole: seq<T>, at: nat, part: seq<T>, lo: nat, hi: nat)
    requires lo <= hi <= |part| && at + |part| <= |whole| && whole[at..at + |part|] == part
    ensures whole[at + lo..at + hi] == part[lo..hi]
  {
    forall j | 0 <= j < hi - lo
      ensures whole[at + lo..at + hi][j] == part[lo..hi][j]
    {
      assert part[lo + j] == whole[at..at + |part|][lo + j];
    }
  }

  predicate Distinct<T(==)>(s: seq<T>)
  {
    forall i, j :: 0 <= i < j < |s| ==> s[i] != s[j]
  }

  lemma DistinctConcat<T>(a: seq<T>, b: seq<T>)
    requires Distinct(a) && Distinct(b) && forall x :: x in a ==> x !in b
    ensures Distinct(a + b)
  {
    forall i, j | 0 <= i < j < |a + b|
      ensures (a + b)[i] != (a + b)[j]
    {
      if i < |a| <= j {
        assert a[i] in a && b[j - |a|] in b;
      }
    }
  }
}
