/** The transaction coordinator (internal/coordinator/transaction.go): producer ids, epochs
    and the partitions registered with an open transaction. */
module Transactions {
  import opened Bytes
  import opened Decimal

  datatype Status = Empty | Ongoing | CompleteCommit | CompleteAbort

  datatype Txn = Txn(pid: int, epoch: int16, status: Status, partitions: map<string, seq<int>>)

  datatype Target = Target(topic: string, partition: int)

  datatype Coordinator = Coordinator(counter: int, txns: map<string, Txn>, owners: map<int, string>)

  const NEW := Coordinator(1000, map[], map[])

  /** The id of a transactional producer; nil and "" both mean a plain idempotent one. */
  predicate Transactional(id: Option<string>)
  {
    id.Some? && id.value != ""
  }

  /** The caller names the current incarnation of the transactional id. */
  predicate Live(c: Coordinator, txId: string, pid: int, epoch: int)
  {
    txId in c.txns && c.txns[txId].pid == pid && c.txns[txId].epoch == epoch
  }

  function AfterInit(c: Coordinator, id: Option<string>): Coordinator
  {
    if !Transactional(id) then c.(counter := c.counter + 1)
    else if id.value !in c.txns then
      Coordinator(c.counter + 1,
                  c.txns[id.value := Txn(c.counter + 1, 0, Empty, map[])],
                  c.owners[c.counter + 1 := id.value])
    else
      var t := c.txns[id.value];
      c.(txns := c.txns[id.value := Txn(t.pid, AsInt16(t.epoch + 1), Empty, map[])])
  }

  /** The producer id an `InitProducerId` call hands out. */
  function PidOf(c: Coordinator, id: Option<string>): int
  {
    if Transactional(id) && id.value in c.txns then c.txns[id.value].pid else c.counter + 1
  }

  function Registered(partitions: map<string, seq<int>>, topic: string, parts: seq<int>): map<string, seq<int>>
  {
    partitions[topic := (if topic in partitions then partitions[topic] else []) + parts]
  }

  function AfterAdd(c: Coordinator, txId: string, pid: int, epoch: int, topic: string, parts: seq<int>): Coordinator
  {
    if !Live(c, txId, pid, epoch) then c
    else
      var t := c.txns[txId];
      c.(txns := c.txns[txId := t.(status := Ongoing, partitions := Registered(t.partitions, topic, parts))])
  }

  function AfterEnd(c: Coordinator, txId: string, pid: int, epoch: int, committed: bool): Coordinator
  {
    if !Live(c, txId, pid, epoch) then c
    else
      var t := c.txns[txId];
      c.(txns := c.txns[txId := t.(status := if committed then CompleteCommit else CompleteAbort,
                                   partitions := map[])])
  }

  /** How often a partition is registered. */
  function Count(partitions: map<string, seq<int>>, t: Target): nat
  {
    if t.topic in partitions then multiset(partitions[t.topic])[t.partition] else 0
  }

  class TransactionCoordinator {
    var producerIdCounter: int
    var txns: map<string, Txn>
    var producerTxns: map<int, string>
    var sequences: map<string, int>

    ghost function State(): Coordinator
      reads this
    {
      Coordinator(producerIdCounter, txns, producerTxns)
    }

    constructor ()
      ensures State() == NEW && sequences == map[]
    {
      producerIdCounter, txns, producerTxns, sequences := 1000, map[], map[], map[];
    }

    method InitProducerId(transactionalId: Option<string>) returns (pid: int, epoch: int16)
      modifies this`producerIdCounter, this`txns, this`producerTxns
      ensures State() == AfterInit(old(State()), transactionalId)
      ensures pid == PidOf(old(State()), transactionalId)
      ensures transactionalId == None || transactionalId == Some("") ==>
                pid == old(producerIdCounter) + 1 && epoch == 0 && txns == old(txns)
      ensures transactionalId.Some? && transactionalId.value != "" ==>
                var id := transactionalId.value;
                && id in txns && txns[id] == Txn(pid, epoch, Empty, map[])
                && (if id in old(txns)
                    then pid == old(txns)[id].pid && epoch == AsInt16(old(txns)[id].epoch + 1)
                    else pid == old(producerIdCounter) + 1 && epoch == 0)
    {
      if transactionalId.None? || transactionalId.value == "" {
        producerIdCounter := producerIdCounter + 1;
        return producerIdCounter, 0;
      }
      var txId := transactionalId.value;
      if txId !in txns {
        producerIdCounter := producerIdCounter + 1;
        txns := txns[txId := Txn(producerIdCounter, 0, Empty, map[])];
        producerTxns := producerTxns[producerIdCounter := txId];
        return producerIdCounter, 0;
      }
      var txn := txns[txId];
      var next := AsInt16(txn.epoch + 1);
      txns := txns[txId := Txn(txn.pid, next, Empty, map[])];
      return txn.pid, next;
    }

    method AddPartitionsToTxn(txId: string, pid: int, epoch: int, topic: string, partitions: seq<int>)
      returns (ok: bool)
      modifies this`txns
      ensures State() == AfterAdd(old(State()), txId, pid, epoch, topic, partitions)
      ensures ok == (txId in old(txns) && old(txns)[txId].pid == pid && old(txns)[txId].epoch == epoch)
      ensures !ok ==> txns == old(txns)
      ensures ok ==> txId in txns && txns[txId].status == Ongoing
    {
      if txId !in txns || txns[txId].pid != pid || txns[txId].epoch != epoch {
        return false;
      }
      var txn := txns[txId];
      var registered := if topic in txn.partitions then txn.partitions[topic] else [];
      txns := txns[txId := txn.(status := Ongoing, partitions := txn.partitions[topic := registered + partitions])];
      return true;
    }

    /** `EndTxn`: the targets come out in the map's arbitrary order, each registered
        partition as often as it was registered. */
    method EndTxn(txId: string, pid: int, epoch: int, committed: bool) returns (targets: seq<Target>, ok: bool)
      modifies this`txns
      ensures State() == AfterEnd(old(State()), txId, pid, epoch, committed)
      ensures ok == (txId in old(txns) && old(txns)[txId].pid == pid && old(txns)[txId].epoch == epoch)
      ensures !ok ==> targets == [] && txns == old(txns)
      ensures ok ==> txId in txns &&
                     txns[txId] == Txn(pid, epoch, if committed then CompleteCommit else CompleteAbort, map[])
      ensures ok ==> forall t :: multiset(targets)[t] == Count(old(txns)[txId].partitions, t)
    {
      if txId !in txns || txns[txId].pid != pid || txns[txId].epoch != epoch {
        return [], false;
      }
      var txn := txns[txId];
      targets := AllTargets(txn.partitions);
      txns := txns[txId := txn.(status := if committed then CompleteCommit else CompleteAbort, partitions := map[])];
      ok := true;
    }

    /** `CheckAndSetSequence`. */
    method CheckAndSetSequence(pid: int, topic: string, partition: int, number: int) returns (duplicate: bool)
      modifies this`sequences
      ensures var key := SequenceKey(pid, topic, partition);
              && duplicate == (key in old(sequences) && number <= old(sequences)[key])
              && sequences == if duplicate then old(sequences) else old(sequences)[key := number]
    {
      hide SequenceKey;
      var key := SequenceKey(pid, topic, partition);
      if key !in sequences {
        sequences := sequences[key := number];
        return false;
      }
      var last := sequences[key];
      if number <= last {
        return true;
      }
      sequences := sequences[key := number];
      return false;
    }
  }

  /** The targets of one topic. */
  function TopicTargets(topic: string, parts: seq<int>): (ts: seq<Target>)
    ensures |ts| == |parts|
  {
    seq(|parts|, i requires 0 <= i < |parts| => Target(topic, parts[i]))
  }

  lemma {:induction false} TopicTargetsCount(topic: string, parts: seq<int>, t: Target)
    ensures multiset(TopicTargets(topic, parts))[t] == if t.topic == topic then multiset(parts)[t.partition] else 0
  {
    if parts != [] {
      var init, p := parts[..|parts| - 1], parts[|parts| - 1];
      TopicTargetsCount(topic, init, t);
      assert parts == init + [p];
      assert TopicTargets(topic, parts) == TopicTargets(topic, init) + [Target(topic, p)];
    }
  }

  /** The two nested loops of `EndTxn`; the outer one visits the topics in any order. */
  method AllTargets(partitions: map<string, seq<int>>) returns (targets: seq<Target>)
    ensures forall t :: multiset(targets)[t] == Count(partitions, t)
  {
    hide TopicTargets;
    targets := [];
    var rest := partitions.Keys;
    while rest != {}
      invariant rest <= partitions.Keys
      invariant forall t :: multiset(targets)[t] == if t.topic in rest then 0 else Count(partitions, t)
      decreases |rest|
    {
      var topic :| topic in rest;
      var more := TargetsOf(topic, partitions[topic]);
      forall t
        ensures multiset(targets + more)[t] == if t.topic in rest - {topic} then 0 else Count(partitions, t)
      {
        TopicTargetsCount(topic, partitions[topic], t);
      }
      targets, rest := targets + more, rest - {topic};
    }
  }

  method TargetsOf(topic: string, parts: seq<int>) returns (targets: seq<Target>)
    ensures targets == TopicTargets(topic, parts)
  {
    targets := [];
    for i := 0 to |parts|
      invariant targets == TopicTargets(topic, parts[..i])
    {
      targets := targets + [Target(topic, parts[i])];
    }
    assert parts[..|parts|] == parts;
  }

  /** A registration adds exactly the partitions named. */
  lemma RegisteredCount(partitions: map<string, seq<int>>, topic: string, parts: seq<int>, t: Target)
    ensures Count(Registered(partitions, topic, parts), t) ==
            Count(partitions, t) + (if t.topic == topic then multiset(parts)[t.partition] else 0)
  {
  }
}
