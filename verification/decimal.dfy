/** Decimal rendering of integers (`%d`) and the map keys built from it. */
module Decimal {

  function Digit(d: nat): char
    requires d < 10
  {
    '0' + d as char
  }

  function Digits(n: nat): (s: string)
    ensures s != []
  {
    if n < 10 then [Digit(n)] else Digits(n / 10) + [Digit(n % 10)]
  }

  /** `%d`. */
  function Dec(i: int): string
  {
    if i < 0 then "-" + Digits(-i) else Digits(i)
  }

  lemma {:induction false} DigitsOnly(n: nat)
    ensures forall k :: 0 <= k < |Digits(n)| ==> '0' <= Digits(n)[k] <= '9'
  {
    if n >= 10 {
      DigitsOnly(n / 10);
    }
  }

  /** The number a decimal text stands for. */
  function Value(s: string): int
  {
    if s == [] then 0 else Value(s[..|s| - 1]) * 10 + (s[|s| - 1] as int - '0' as int)
  }

  lemma {:induction false} DigitsSpellNumber(n: nat)
    ensures Value(Digits(n)) == n
  {
    if n >= 10 {
      DigitsSpellNumber(n / 10);
      assert Digits(n)[..|Digits(n)| - 1] == Digits(n / 10);
    } else {
      assert Digits(n)[..0] == [];
    }
  }

  lemma DigitInjective(a: nat, b: nat)
    requires a < 10 && b < 10 && Digit(a) == Digit(b)
    ensures a == b
  {
    assert Digit(a) as int == 48 + a && Digit(b) as int == 48 + b;
  }

  lemma {:induction false} DigitsInjective(m: nat, n: nat)
    requires Digits(m) == Digits(n)
    ensures m == n
  {
    hide Digit;
    var s := Digits(m);
    assert s[|s| - 1] == Digit(m % 10) == Digit(n % 10);
    DigitInjective(m % 10, n % 10);
    assert (|Digits(m)| == 1) == (m < 10) && (|Digits(n)| == 1) == (n < 10);
    if m >= 10 {
      assert s[..|s| - 1] == Digits(m / 10) == Digits(n / 10);
      DigitsInjective(m / 10, n / 10);
    }
  }

  lemma DecInjective(i: int, j: int)
    requires Dec(i) == Dec(j)
    ensures i == j
  {
    hide Digits;
    DecStart(i);
    DecStart(j);
    if i < 0 && j < 0 {
      assert Dec(i)[1..] == Digits(-i) && Dec(j)[1..] == Digits(-j);
      DigitsInjective(-i, -j);
    } else if i >= 0 && j >= 0 {
      DigitsInjective(i, j);
    }
  }

  lemma DecStart(i: int)
    ensures Dec(i) != [] && (Dec(i)[0] == '-' <==> i < 0)
  {
    hide Digits;
    DigitsOnly(if i < 0 then -i else i);
  }

  predicate Lacks(s: string, c: char)
  {
    forall k :: 0 <= k < |s| ==> s[k] != c
  }

  lemma DecLacksColon(i: int)
    ensures Lacks(Dec(i), ':')
  {
    hide Digits;
    DigitsOnly(if i < 0 then -i else i);
  }

  lemma DigitsLackDash(n: nat)
    ensures Lacks(Digits(n), '-')
  {
    hide Digits;
    DigitsOnly(n);
  }

  /** A separator that the first part lacks splits the text in one way only. */
  lemma SplitFirst(a: string, b: string, a': string, b': string, c: char)
    requires a + [c] + b == a' + [c] + b' && Lacks(a, c) && Lacks(a', c)
    ensures a == a' && b == b'
  {
    var s := a + [c] + b;
    assert forall k :: 0 <= k < |a| ==> s[k] == a[k];
    assert forall k :: 0 <= k < |a'| ==> s[k] == a'[k];
    assert s[|a|] == c && s[|a'|] == c;
    assert a == s[..|a|] && a' == s[..|a'|];
    assert b == s[|a| + 1..] && b' == s[|a'| + 1..];
  }

  /** A separator that the last part lacks splits the text in one way only. */
  lemma SplitLast(a: string, b: string, a': string, b': string, c: char)
    requires a + [c] + b == a' + [c] + b' && Lacks(b, c) && Lacks(b', c)
    ensures a == a' && b == b'
  {
    var s := a + [c] + b;
    assert s == a' + [c] + b';
    assert forall k :: |a| < k < |s| ==> s[k] == b[k - |a| - 1];
    assert forall k :: |a'| < k < |s| ==> s[k] == b'[k - |a'| - 1];
    assert s[|a|] == c && s[|a'|] == c;
    assert a == s[..|a|] && a' == s[..|a'|];
    assert b == s[|a| + 1..] && b' == s[|a'| + 1..];
  }

  /** The sequence key `"%d:%s:%d"` (internal/coordinator/transaction.go:147). */
  function SequenceKey(pid: int, topic: string, partition: int): string
  {
    Dec(pid) + ":" + (topic + ":" + Dec(partition))
  }

  /** Distinct triples never share a key, even for topics that contain colons. */
  lemma SequenceKeyInjective(pid: int, topic: string, partition: int, pid': int, topic': string, partition': int)
    requires SequenceKey(pid, topic, partition) == SequenceKey(pid', topic', partition')
    ensures pid == pid' && topic == topic' && partition == partition'
  {
    hide Dec, Lacks;
    DecLacksColon(pid);
    DecLacksColon(pid');
    DecLacksColon(partition);
    DecLacksColon(partition');
    SplitFirst(Dec(pid), topic + ":" + Dec(partition), Dec(pid'), topic' + ":" + Dec(partition'), ':');
    SplitLast(topic, Dec(partition), topic', Dec(partition'), ':');
    DecInjective(pid, pid');
    DecInjective(partition, partition');
  }

  /** Producer 7 on partition -3 of topic "a:b" has the key "7:a:b:-3". */
  lemma SequenceKeyText()
    ensures SequenceKey(7, "a:b", -3) == "7:a:b:-3"
  {
    assert Digits(7) == "7" && Digits(3) == "3";
  }

  /** The partition key `"%s-%d"` (internal/replication/replica_manager.go:60). */
  function PartitionKey(topic: string, partition: int): string
  {
    topic + "-" + Dec(partition)
  }

  /** Two partitions share a replication key exactly when they are the same partition, or one
      has a negative id and the other is its positive twin of the topic with a dash added. */
  lemma PartitionKeyCollisionIff(t: string, p: int, t': string, p': int)
    ensures PartitionKey(t, p) == PartitionKey(t', p') <==>
            || (t == t' && p == p')
            || (p < 0 && p' == -p && t' == t + "-")
            || (p' < 0 && p == -p' && t == t' + "-")
  {
    hide Digits;
    KeySplit(t, p);
    KeySplit(t', p');
    var a, n := if p < 0 then t + "-" else t, if p < 0 then -p else p;
    var a', n' := if p' < 0 then t' + "-" else t', if p' < 0 then -p' else p';
    if PartitionKey(t, p) == PartitionKey(t', p') {
      DigitsLackDash(n);
      DigitsLackDash(n');
      SplitLast(a, Digits(n), a', Digits(n'), '-');
      DigitsInjective(n, n');
      if p < 0 && p' < 0 {
        assert t == a[..|a| - 1] && t' == a'[..|a'| - 1];
      }
    }
  }

  /** Partition -1 of "a" and partition 1 of "a-" share the key "a--1". */
  lemma NegativePartitionCollides()
    ensures PartitionKey("a", -1) == PartitionKey("a-", 1) == "a--1"
  {
    assert Digits(1) == "1";
    KeySplit("a", -1);
    KeySplit("a-", 1);
  }

  /** A key seen from its last dash. */
  lemma KeySplit(t: string, p: int)
    ensures PartitionKey(t, p) == (if p < 0 then t + "-" else t) + ['-'] + Digits(if p < 0 then -p else p)
  {
    hide Digits;
    if p < 0 {
      assert t + "-" + ("-" + Digits(-p)) == t + "-" + "-" + Digits(-p);
    }
  }
}
