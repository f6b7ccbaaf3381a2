/** Whole runs of the transaction coordinator behind its request handlers
    (internal/server/handler.go:898-978): conservation of registered partitions, fencing by
    epochs, ownership of producer ids, and deduplication by sequence numbers. */
module TxnRuns {
  import opened Bytes
  import opened Decimal
  import opened Transactions

  datatype TopicParts = TopicParts(topic: string, parts: seq<int>)

  /** A request as the handlers see it.  `writable` is the set of topics for which the caller
      passes the write check at the moment of the request. */
  datatype Request =
    | Init(id: Option<string>)
    | Add(txId: string, pid: int, epoch: int, topics: seq<TopicParts>, writable: set<string>)
    | End(txId: string, pid: int, epoch: int, committed: bool)

  /** One coordinator call per partition of every topic that passes the write check. */
  function AfterTopics(c: Coordinator, txId: string, pid: int, epoch: int,
                       topics: seq<TopicParts>, writable: set<string>): Coordinator
  {
    if topics == [] then c
    else
      var before := AfterTopics(c, txId, pid, epoch, topics[..|topics| - 1], writable);
      var t := topics[|topics| - 1];
      if t.topic in writable then AfterParts(before, txId, pid, epoch, t.topic, t.parts) else before
  }

  function AfterParts(c: Coordinator, txId: string, pid: int, epoch: int, topic: string, parts: seq<int>): Coordinator
  {
    if parts == [] then c
    else
      AfterAdd(AfterParts(c, txId, pid, epoch, topic, parts[..|parts| - 1]), txId, pid, epoch, topic,
               [parts[|parts| - 1]])
  }

  function Step(c: Coordinator, r: Request): Coordinator
  {
    match r
    case Init(id) => AfterInit(c, id)
    case Add(txId, pid, epoch, topics, writable) => AfterTopics(c, txId, pid, epoch, topics, writable)
    case End(txId, pid, epoch, committed) => AfterEnd(c, txId, pid, epoch, committed)
  }

  function Run(c: Coordinator, rs: seq<Request>): Coordinator
  {
    if rs == [] then c else Step(Run(c, rs[..|rs| - 1]), rs[|rs| - 1])
  }

  // ------------------------------------------------- one step, seen from one id

  /** Nothing but the registered partitions and the status of `txId` differs. */
  predicate SameButPartitions(c: Coordinator, d: Coordinator, txId: string)
  {
    && d.counter == c.counter && d.owners == c.owners && d.txns.Keys == c.txns.Keys
    && (forall id :: id in c.txns && id != txId ==> d.txns[id] == c.txns[id])
    && (txId in c.txns ==> d.txns[txId].pid == c.txns[txId].pid && d.txns[txId].epoch == c.txns[txId].epoch)
  }

  lemma AddFrame(c: Coordinator, txId: string, pid: int, epoch: int, topic: string, parts: seq<int>)
    ensures SameButPartitions(c, AfterAdd(c, txId, pid, epoch, topic, parts), txId)
  {
    hide Registered;
  }

  lemma {:induction false} PartsFrame(c: Coordinator, txId: string, pid: int, epoch: int, topic: string,
                                      parts: seq<int>)
    ensures SameButPartitions(c, AfterParts(c, txId, pid, epoch, topic, parts), txId)
  {
    hide AfterAdd;
    if parts != [] {
      var init := parts[..|parts| - 1];
      PartsFrame(c, txId, pid, epoch, topic, init);
      AddFrame(AfterParts(c, txId, pid, epoch, topic, init), txId, pid, epoch, topic, [parts[|parts| - 1]]);
    }
  }

  lemma {:induction false} TopicsFrame(c: Coordinator, txId: string, pid: int, epoch: int,
                                       topics: seq<TopicParts>, writable: set<string>)
    ensures SameButPartitions(c, AfterTopics(c, txId, pid, epoch, topics, writable), txId)
  {
    hide AfterParts;
    if topics != [] {
      var init, t := topics[..|topics| - 1], topics[|topics| - 1];
      TopicsFrame(c, txId, pid, epoch, init, writable);
      PartsFrame(AfterTopics(c, txId, pid, epoch, init, writable), txId, pid, epoch, t.topic, t.parts);
    }
  }

  // ------------------------------------------------------------- conservation

  /** How often a request asks for a partition of a topic that passes the write check. */
  function Asked(topics: seq<TopicParts>, writable: set<string>, t: Target): nat
  {
    if topics == [] then 0
    else
      var last := topics[|topics| - 1];
      Asked(topics[..|topics| - 1], writable, t) +
      (if last.topic in writable && last.topic == t.topic then multiset(last.parts)[t.partition] else 0)
  }

  /** What a partition's registration count must be, said about the requests alone: the
      accepted additions since the last initialisation or accepted end of the id. */
  function Ledger(c: Coordinator, rs: seq<Request>, txId: string, t: Target): nat
  {
    if rs == [] then 0
    else
      var init, r := rs[..|rs| - 1], rs[|rs| - 1];
      var before, now := Ledger(c, init, txId, t), Run(c, init);
      if r.Init? then (if r.id == Some(txId) then 0 else before)
      else if r.txId != txId || !Live(now, txId, r.pid, r.epoch) then before
      else if r.Add? then before + Asked(r.topics, r.writable, t)
      else 0
  }

  function CountIn(c: Coordinator, txId: string, t: Target): nat
  {
    if txId in c.txns then Count(c.txns[txId].partitions, t) else 0
  }

  lemma {:induction false} PartsCount(c: Coordinator, txId: string, pid: int, epoch: int, topic: string,
                                      parts: seq<int>, t: Target)
    requires Live(c, txId, pid, epoch)
    ensures CountIn(AfterParts(c, txId, pid, epoch, topic, parts), txId, t) ==
            CountIn(c, txId, t) + (if t.topic == topic then multiset(parts)[t.partition] else 0)
  {
    hide Registered, Count;
    if parts != [] {
      var init, p := parts[..|parts| - 1], parts[|parts| - 1];
      var d := AfterParts(c, txId, pid, epoch, topic, init);
      PartsCount(c, txId, pid, epoch, topic, init, t);
      PartsFrame(c, txId, pid, epoch, topic, init);
      RegisteredCount(d.txns[txId].partitions, topic, [p], t);
      assert parts == init + [p];
    }
  }

  lemma {:induction false} TopicsCount(c: Coordinator, txId: string, pid: int, epoch: int,
                                       topics: seq<TopicParts>, writable: set<string>, t: Target)
    requires Live(c, txId, pid, epoch)
    ensures CountIn(AfterTopics(c, txId, pid, epoch, topics, writable), txId, t) ==
            CountIn(c, txId, t) + Asked(topics, writable, t)
  {
    hide AfterParts, CountIn;
    if topics != [] {
      var init, last := topics[..|topics| - 1], topics[|topics| - 1];
      TopicsCount(c, txId, pid, epoch, init, writable, t);
      TopicsFrame(c, txId, pid, epoch, init, writable);
      if last.topic in writable {
        PartsCount(AfterTopics(c, txId, pid, epoch, init, writable), txId, pid, epoch, last.topic, last.parts, t);
      }
    }
  }

  lemma {:induction false} PartsRefused(c: Coordinator, txId: string, pid: int, epoch: int, topic: string,
                                        parts: seq<int>)
    requires !Live(c, txId, pid, epoch)
    ensures AfterParts(c, txId, pid, epoch, topic, parts) == c
  {
    if parts != [] {
      PartsRefused(c, txId, pid, epoch, topic, parts[..|parts| - 1]);
    }
  }

  lemma {:induction false} TopicsRefused(c: Coordinator, txId: string, pid: int, epoch: int,
                                         topics: seq<TopicParts>, writable: set<string>)
    requires !Live(c, txId, pid, epoch)
    ensures AfterTopics(c, txId, pid, epoch, topics, writable) == c
  {
    hide AfterParts;
    if topics != [] {
      TopicsRefused(c, txId, pid, epoch, topics[..|topics| - 1], writable);
      var t := topics[|topics| - 1];
      PartsRefused(c, txId, pid, epoch, t.topic, t.parts);
    }
  }

  /** Conservation: after any run, what is registered with an id is exactly what was accepted
      since its last initialisation or end. */
  lemma {:induction false} RegistrationsConserved(c: Coordinator, rs: seq<Request>, txId: string, t: Target)
    requires txId != "" && CountIn(c, txId, t) == 0
    ensures CountIn(Run(c, rs), txId, t) == Ledger(c, rs, txId, t)
  {
    hide AfterTopics, Asked, Count;
    if rs != [] {
      var init, r := rs[..|rs| - 1], rs[|rs| - 1];
      RegistrationsConserved(c, init, txId, t);
      StepConserves(Run(c, init), r, txId, t);
    }
  }

  lemma StepConserves(c: Coordinator, r: Request, txId: string, t: Target)
    requires txId != ""
    ensures CountIn(Step(c, r), txId, t) ==
            if r.Init? then (if r.id == Some(txId) then 0 else CountIn(c, txId, t))
            else if r.txId != txId || !Live(c, txId, r.pid, r.epoch) then CountIn(c, txId, t)
            else if r.Add? then CountIn(c, txId, t) + Asked(r.topics, r.writable, t)
            else 0
  {
    hide AfterTopics, Asked, AsInt16;
    match r {
      case Init(id) =>
      case Add(id, pid, epoch, topics, writable) =>
        TopicsFrame(c, id, pid, epoch, topics, writable);
        if Live(c, id, pid, epoch) {
          TopicsCount(c, id, pid, epoch, topics, writable, t);
        } else {
          TopicsRefused(c, id, pid, epoch, topics, writable);
        }
      case End(id, pid, epoch, committed) =>
    }
  }

  /** Ending twice: the second end finds nothing. */
  lemma SecondEndFindsNothing(c: Coordinator, txId: string, pid: int, epoch: int, first: bool, t: Target)
    requires Live(c, txId, pid, epoch)
    ensures var d := AfterEnd(c, txId, pid, epoch, first);
            Live(d, txId, pid, epoch) && Count(d.txns[txId].partitions, t) == 0
  {
  }

  /** The request ends whatever was registered with the id. */
  predicate Closes(c: Coordinator, r: Request, txId: string)
  {
    || (r.Init? && r.id == Some(txId))
    || (r.End? && r.txId == txId && Live(c, txId, r.pid, r.epoch))
  }

  /** Request `i` is an accepted addition that names the partition under a topic that passed
      the write check, and nothing has closed the transaction since. */
  predicate Justifies(c: Coordinator, rs: seq<Request>, i: nat, txId: string, t: Target)
  {
    && i < |rs| && rs[i].Add? && rs[i].txId == txId
    && Live(Run(c, rs[..i]), txId, rs[i].pid, rs[i].epoch)
    && Asked(rs[i].topics, rs[i].writable, t) > 0
    && (forall j :: i < j < |rs| ==> !Closes(Run(c, rs[..j]), rs[j], txId))
  }

  predicate Justified(c: Coordinator, rs: seq<Request>, txId: string, t: Target)
  {
    exists i :: 0 <= i < |rs| && Justifies(c, rs, i, txId, t)
  }

  /** A partition is registered with an id if and only if an accepted request of the current
      transaction named it while its topic passed the write check.  Only such partitions can
      receive a control marker. */
  lemma MarkersOnlyWhereWritable(c: Coordinator, rs: seq<Request>, txId: string, t: Target)
    requires txId != "" && CountIn(c, txId, t) == 0
    ensures CountIn(Run(c, rs), txId, t) > 0 <==> Justified(c, rs, txId, t)
  {
    hide Run, Ledger, CountIn, Justified;
    RegistrationsConserved(c, rs, txId, t);
    LedgerJustified(c, rs, txId, t);
  }

  lemma {:induction false} LedgerJustified(c: Coordinator, rs: seq<Request>, txId: string, t: Target)
    ensures Ledger(c, rs, txId, t) > 0 <==> Justified(c, rs, txId, t)
  {
    hide Run, Live, Justifies;
    if rs != [] {
      var n := |rs| - 1;
      var init, r := rs[..n], rs[n];
      LedgerJustified(c, init, txId, t);
      LastJustifies(c, rs, txId, t);
      forall i | 0 <= i < n
        ensures Justifies(c, rs, i, txId, t) <==>
                Justifies(c, init, i, txId, t) && !Closes(Run(c, init), r, txId)
      {
        EarlierJustifies(c, rs, i, txId, t);
      }
      if r.Add? && r.txId == txId && Live(Run(c, init), txId, r.pid, r.epoch) && Asked(r.topics, r.writable, t) > 0 {
        assert Justifies(c, rs, n, txId, t);
      }
    }
  }

  lemma LastJustifies(c: Coordinator, rs: seq<Request>, txId: string, t: Target)
    requires rs != []
    ensures var n := |rs| - 1;
            var r := rs[n];
            Justifies(c, rs, n, txId, t) <==>
            && r.Add? && r.txId == txId && Live(Run(c, rs[..n]), txId, r.pid, r.epoch)
            && Asked(r.topics, r.writable, t) > 0
  {
    hide Run, Live, Asked;
  }

  lemma EarlierJustifies(c: Coordinator, rs: seq<Request>, i: nat, txId: string, t: Target)
    requires i < |rs| - 1
    ensures var n := |rs| - 1;
            Justifies(c, rs, i, txId, t) <==>
            Justifies(c, rs[..n], i, txId, t) && !Closes(Run(c, rs[..n]), rs[n], txId)
  {
    hide Run, Live, Asked, Closes;
    var n := |rs| - 1;
    assert forall j :: 0 <= j < n ==> rs[..n][..j] == rs[..j] && rs[..n][j] == rs[j];
  }

  /** A request asks for a partition exactly when it names it under a topic that passes the
      write check. */
  lemma {:induction false} AskedIff(topics: seq<TopicParts>, writable: set<string>, t: Target)
    ensures Asked(topics, writable, t) > 0 <==>
            t.topic in writable &&
            exists k :: 0 <= k < |topics| && topics[k].topic == t.topic && t.partition in topics[k].parts
  {
    if topics != [] {
      var n := |topics| - 1;
      AskedIff(topics[..n], writable, t);
      assert topics[n] == topics[|topics| - 1];
      assert forall k :: 0 <= k < n ==> topics[..n][k] == topics[k];
    }
  }

  // ----------------------------------------------------------------- fencing

  function Inits(rs: seq<Request>, txId: string): nat
  {
    if rs == [] then 0
    else Inits(rs[..|rs| - 1], txId) + (if rs[|rs| - 1] == Init(Some(txId)) then 1 else 0)
  }

  lemma StepEpoch(c: Coordinator, r: Request, txId: string)
    requires txId != "" && txId in c.txns
    ensures var d := Step(c, r);
            && txId in d.txns && d.txns[txId].pid == c.txns[txId].pid
            && d.txns[txId].epoch ==
               if r == Init(Some(txId)) then AsInt16(c.txns[txId].epoch + 1) else c.txns[txId].epoch
  {
    hide AfterTopics, AsInt16;
    if r.Add? {
      TopicsFrame(c, r.txId, r.pid, r.epoch, r.topics, r.writable);
    }
  }

  lemma Int16Steps(e: int, k: int)
    ensures AsInt16(AsInt16(e + k) + 1) == AsInt16(e + k + 1)
  {
    hide AsInt16;
    U16Plus(AsInt16(e + k), e + k);
    SameInt16(AsInt16(e + k) + 1, e + k + 1);
  }

  lemma U16Plus(a: int, b: int)
    requires U16(a) == U16(b)
    ensures U16(a + 1) == U16(b + 1)
  {
  }

  lemma SameInt16(a: int, b: int)
    requires U16(a) == U16(b)
    ensures AsInt16(a) == AsInt16(b)
  {
  }

  /** The epoch counts initialisations modulo 65536; nothing else moves it, and the producer
      id never changes. */
  lemma {:induction false} EpochCountsInits(c: Coordinator, rs: seq<Request>, txId: string)
    requires txId != "" && txId in c.txns
    ensures var d := Run(c, rs);
            && txId in d.txns && d.txns[txId].pid == c.txns[txId].pid
            && d.txns[txId].epoch == AsInt16(c.txns[txId].epoch + Inits(rs, txId))
  {
    hide Step, AsInt16;
    if rs != [] {
      var init, r := rs[..|rs| - 1], rs[|rs| - 1];
      EpochCountsInits(c, init, txId);
      StepEpoch(Run(c, init), r, txId);
      Int16Steps(c.txns[txId].epoch, Inits(init, txId));
    }
  }

  lemma SameEpochIff(e: int16, k: nat)
    ensures AsInt16(e + k) == e <==> k % TWO_16 == 0
  {
  }

  /** Fencing, exactly: a producer that holds the epoch of some moment is accepted after any
      further run if and only if its id was re-initialised a multiple of 65536 times since. */
  lemma FencedIff(c: Coordinator, rs: seq<Request>, txId: string)
    requires txId != "" && txId in c.txns
    ensures Live(Run(c, rs), txId, c.txns[txId].pid, c.txns[txId].epoch) <==> Inits(rs, txId) % TWO_16 == 0
  {
    hide Run, AsInt16;
    EpochCountsInits(c, rs, txId);
    SameEpochIff(c.txns[txId].epoch, Inits(rs, txId));
  }

  /** Fewer than 65536 re-initialisations, and at least one, always fence. */
  lemma FewInitsFence(c: Coordinator, rs: seq<Request>, txId: string)
    requires txId != "" && txId in c.txns && 0 < Inits(rs, txId) < TWO_16
    ensures !Live(Run(c, rs), txId, c.txns[txId].pid, c.txns[txId].epoch)
  {
    hide Run;
    FencedIff(c, rs, txId);
  }

  lemma {:induction false} InitsOfRepeat(txId: string, n: nat)
    ensures Inits(seq(n, _ => Init(Some(txId))), txId) == n
  {
    if n > 0 {
      var rs := seq(n, _ => Init(Some(txId)));
      assert rs[..n - 1] == seq(n - 1, _ => Init(Some(txId)));
      InitsOfRepeat(txId, n - 1);
    }
  }

  /** The producer of any moment is shut out by one more initialisation of its id and accepted
      again after 65536 of them. */
  lemma EpochWrapsAround(c: Coordinator, txId: string)
    requires txId != "" && txId in c.txns
    ensures var again := Init(Some(txId));
            var pid, epoch := c.txns[txId].pid, c.txns[txId].epoch;
            && !Live(Run(c, seq(1, _ => again)), txId, pid, epoch)
            && Live(Run(c, seq(TWO_16, _ => again)), txId, pid, epoch)
  {
    hide Run, Live;
    InitsOfRepeat(txId, 1);
    InitsOfRepeat(txId, TWO_16);
    FencedIff(c, seq(1, _ => Init(Some(txId))), txId);
    FencedIff(c, seq(TWO_16, _ => Init(Some(txId))), txId);
  }

  // ---------------------------------------------------------- producer ids

  /** The two id maps are mutually inverse and no id lies above the counter. */
  predicate Owned(c: Coordinator)
  {
    && (forall id :: id in c.txns ==> c.txns[id].pid in c.owners && c.owners[c.txns[id].pid] == id)
    && (forall p :: p in c.owners ==> p <= c.counter && c.owners[p] in c.txns && c.txns[c.owners[p]].pid == p)
  }

  /** What a step does to ownership: nobody loses an id, and new owners get new ids. */
  predicate OwnersGrow(c: Coordinator, d: Coordinator)
  {
    && c.counter <= d.counter
    && (forall p :: p in c.owners ==> p in d.owners && d.owners[p] == c.owners[p])
    && (forall p :: p in d.owners && p !in c.owners ==> p > c.counter)
  }

  lemma StepOwned(c: Coordinator, r: Request)
    requires Owned(c)
    ensures Owned(Step(c, r)) && OwnersGrow(c, Step(c, r))
  {
    hide AfterTopics, AsInt16;
    match r {
      case Init(id) =>
        InitOwned(c, id);
      case Add(txId, pid, epoch, topics, writable) =>
        TopicsFrame(c, txId, pid, epoch, topics, writable);
        FrameOwned(c, Step(c, r), txId);
      case End(txId, pid, epoch, committed) =>
        FrameOwned(c, Step(c, r), txId);
    }
  }

  lemma InitOwned(c: Coordinator, id: Option<string>)
    requires Owned(c)
    ensures Owned(AfterInit(c, id)) && OwnersGrow(c, AfterInit(c, id))
  {
    hide AsInt16;
    var d := AfterInit(c, id);
    forall p | p in d.owners
      ensures p <= d.counter && d.owners[p] in d.txns && d.txns[d.owners[p]].pid == p
    {
      if p in c.owners {
        assert c.owners[p] in c.txns;
      }
    }
    forall x | x in d.txns
      ensures d.txns[x].pid in d.owners && d.owners[d.txns[x].pid] == x
    {
      if x in c.txns {
        assert c.txns[x].pid in c.owners;
      }
    }
  }

  lemma FrameOwned(c: Coordinator, d: Coordinator, txId: string)
    requires Owned(c) && SameButPartitions(c, d, txId)
    ensures Owned(d) && OwnersGrow(c, d)
  {
    forall x | x in d.txns
      ensures d.txns[x].pid in d.owners && d.owners[d.txns[x].pid] == x
    {
      assert x in c.txns;
    }
    forall p | p in d.owners
      ensures p <= d.counter && d.owners[p] in d.txns && d.txns[d.owners[p]].pid == p
    {
      assert c.owners[p] in c.txns;
    }
  }

  /** Over any run the id maps stay mutually inverse. */
  lemma {:induction false} RunOwned(c: Coordinator, rs: seq<Request>, i: nat)
    requires Owned(c) && i <= |rs|
    ensures Owned(Run(c, rs[..i]))
  {
    hide Step, Owned;
    if i > 0 {
      RunOwned(c, rs, i - 1);
      assert rs[..i][..i - 1] == rs[..i - 1];
      StepOwned(Run(c, rs[..i - 1]), rs[i - 1]);
    }
  }

  lemma {:induction false} RunOwnersGrow(c: Coordinator, rs: seq<Request>, i: nat, j: nat)
    requires Owned(c) && i <= j <= |rs|
    ensures OwnersGrow(Run(c, rs[..i]), Run(c, rs[..j]))
    decreases j - i
  {
    hide Step, Owned;
    if i < j {
      RunOwnersGrow(c, rs, i, j - 1);
      RunOwned(c, rs, j - 1);
      assert rs[..j][..j - 1] == rs[..j - 1];
      StepOwned(Run(c, rs[..j - 1]), rs[j - 1]);
    }
  }

  /** A producer id handed out twice went to the same transactional id both times. */
  lemma ProducerIdsNotShared(c: Coordinator, rs: seq<Request>, i: nat, j: nat)
    requires Owned(c) && i < j < |rs| && rs[i].Init? && rs[j].Init?
    requires PidOf(Run(c, rs[..i]), rs[i].id) == PidOf(Run(c, rs[..j]), rs[j].id)
    ensures Transactional(rs[i].id) && rs[i].id == rs[j].id
  {
    hide Run, AsInt16, Owned;
    var a, b := Run(c, rs[..i]), Run(c, rs[..j]);
    RunOwned(c, rs, i);
    RunOwned(c, rs, j);
    RunOwnersGrow(c, rs, i + 1, j);
    AfterStep(c, rs, i);
    HandedOut(a, rs[i].id);
    HandedOut(b, rs[j].id);
  }

  lemma AfterStep(c: Coordinator, rs: seq<Request>, i: nat)
    requires i < |rs|
    ensures Run(c, rs[..i + 1]) == Step(Run(c, rs[..i]), rs[i])
  {
    hide Step;
    assert rs[..i + 1][..i] == rs[..i];
  }

  /** What an initialisation leaves behind about the id it hands out. */
  lemma HandedOut(c: Coordinator, id: Option<string>)
    requires Owned(c)
    ensures var p, d := PidOf(c, id), AfterInit(c, id);
            && p <= d.counter
            && (Transactional(id) ==> p in d.owners && d.owners[p] == id.value)
            && (!Transactional(id) ==> p !in d.owners)
            && (p in c.owners ==> Transactional(id) && c.owners[p] == id.value)
            && (p !in c.owners ==> p == c.counter + 1)
  {
    hide AsInt16;
  }

  /** A caller that names a producer id which does not belong to the transactional id changes
      nothing, whatever epoch it names. */
  lemma StrangerChangesNothing(c: Coordinator, txId: string, pid: int, epoch: int)
    requires Owned(c) && (pid !in c.owners || c.owners[pid] != txId)
    ensures forall topic, parts :: AfterAdd(c, txId, pid, epoch, topic, parts) == c
    ensures forall committed :: AfterEnd(c, txId, pid, epoch, committed) == c
    ensures forall topics, writable :: Step(c, Add(txId, pid, epoch, topics, writable)) == c
  {
    hide AfterTopics, Registered;
    assert !(txId in c.txns && c.txns[txId].pid == pid);
    forall topics, writable
      ensures Step(c, Add(txId, pid, epoch, topics, writable)) == c
    {
      TopicsRefused(c, txId, pid, epoch, topics, writable);
    }
  }

  /** The same over any run from a new coordinator: the id was never handed out for the
      transactional id. */
  lemma StrangerRefusedInRun(rs: seq<Request>, r: Request)
    requires !r.Init?
    requires var c := Run(NEW, rs); r.pid !in c.owners || c.owners[r.pid] != r.txId
    ensures Step(Run(NEW, rs), r) == Run(NEW, rs)
  {
    hide Run, AfterTopics, AfterEnd, Owned;
    NewIsOwned();
    RunOwned(NEW, rs, |rs|);
    assert rs[..|rs|] == rs;
    StrangerChangesNothing(Run(NEW, rs), r.txId, r.pid, r.epoch);
  }

  lemma NewIsOwned()
    ensures Owned(NEW)
  {
  }

  // ---------------------------------------------------------------- handlers

  const TOPIC_AUTHORIZATION_FAILED := 29

  /** The error code each requested partition is answered with. */
  function CodesFor(topics: seq<TopicParts>, writable: set<string>, live: bool): seq<seq<int>>
  {
    seq(|topics|, i requires 0 <= i < |topics| =>
      seq(|topics[i].parts|, _ => if topics[i].topic !in writable then TOPIC_AUTHORIZATION_FAILED
                                  else if live then 0 else 1))
  }

  /** The inner loop of `handleAddPartitionsToTxn`. */
  method AddParts(tc: TransactionCoordinator, txId: string, pid: int, epoch: int, topic: string, parts: seq<int>)
    returns (codes: seq<int>)
    modifies tc`txns
    ensures tc.State() == AfterParts(old(tc.State()), txId, pid, epoch, topic, parts)
    ensures codes == seq(|parts|, _ => if Live(old(tc.State()), txId, pid, epoch) then 0 else 1)
  {
    hide AfterAdd;
    codes := [];
    ghost var c := tc.State();
    for i := 0 to |parts|
      invariant tc.State() == AfterParts(c, txId, pid, epoch, topic, parts[..i])
      invariant |codes| == i && forall k :: 0 <= k < i ==> codes[k] == if Live(c, txId, pid, epoch) then 0 else 1
    {
      PartsFrame(c, txId, pid, epoch, topic, parts[..i]);
      assert parts[..i + 1][..i] == parts[..i];
      var ok := tc.AddPartitionsToTxn(txId, pid, epoch, topic, [parts[i]]);
      codes := codes + [if ok then 0 else 1];
    }
    assert parts[..|parts|] == parts;
  }

  /** `handleAddPartitionsToTxn`: a topic without write access is never handed to the
      coordinator. */
  method HandleAddPartitions(tc: TransactionCoordinator, txId: string, pid: int, epoch: int,
                             topics: seq<TopicParts>, writable: set<string>)
    returns (codes: seq<seq<int>>)
    modifies tc`txns
    ensures tc.State() == Step(old(tc.State()), Add(txId, pid, epoch, topics, writable))
    ensures codes == CodesFor(topics, writable, Live(old(tc.State()), txId, pid, epoch))
  {
    hide AfterParts;
    codes := [];
    ghost var c := tc.State();
    for i := 0 to |topics|
      invariant tc.State() == AfterTopics(c, txId, pid, epoch, topics[..i], writable)
      invariant codes == CodesFor(topics[..i], writable, Live(c, txId, pid, epoch))
    {
      TopicsFrame(c, txId, pid, epoch, topics[..i], writable);
      assert topics[..i + 1][..i] == topics[..i];
      var t := topics[i];
      var row: seq<int>;
      if t.topic !in writable {
        row := seq(|t.parts|, _ => TOPIC_AUTHORIZATION_FAILED);
      } else {
        row := AddParts(tc, txId, pid, epoch, t.topic, t.parts);
      }
      codes := codes + [row];
    }
    assert topics[..|topics|] == topics;
  }

  datatype Marker = Marker(target: Target, committed: bool)

  /** `handleEndTxn`: one control marker per registered partition. */
  method HandleEnd(tc: TransactionCoordinator, txId: string, pid: int, epoch: int, committed: bool)
    returns (markers: seq<Marker>, code: int)
    modifies tc`txns
    ensures tc.State() == Step(old(tc.State()), End(txId, pid, epoch, committed))
    ensures code == if Live(old(tc.State()), txId, pid, epoch) then 0 else 1
    ensures code != 0 ==> markers == []
    ensures code == 0 ==>
              forall t :: multiset(markers)[Marker(t, committed)] == Count(old(tc.txns)[txId].partitions, t)
    ensures forall i :: 0 <= i < |markers| ==> markers[i].committed == committed
  {
    hide Count;
    var targets, ok := tc.EndTxn(txId, pid, epoch, committed);
    if !ok {
      return [], 1;
    }
    code := 0;
    markers := MakeMarkers(targets, committed);
  }

  function MarkersFor(targets: seq<Target>, committed: bool): (markers: seq<Marker>)
    ensures |markers| == |targets|
  {
    seq(|targets|, i requires 0 <= i < |targets| => Marker(targets[i], committed))
  }

  lemma {:induction false} MarkerPerTarget(targets: seq<Target>, committed: bool, t: Target)
    ensures multiset(MarkersFor(targets, committed))[Marker(t, committed)] == multiset(targets)[t]
  {
    if targets != [] {
      var init, last := targets[..|targets| - 1], targets[|targets| - 1];
      MarkerPerTarget(init, committed, t);
      assert targets == init + [last];
      assert MarkersFor(targets, committed) == MarkersFor(init, committed) + [Marker(last, committed)];
    }
  }

  /** The marker loop. */
  method MakeMarkers(targets: seq<Target>, committed: bool) returns (markers: seq<Marker>)
    ensures forall t :: multiset(markers)[Marker(t, committed)] == multiset(targets)[t]
    ensures forall i :: 0 <= i < |markers| ==> markers[i].committed == committed
  {
    markers := [];
    for i := 0 to |targets|
      invariant markers == MarkersFor(targets[..i], committed)
    {
      markers := markers + [Marker(targets[i], committed)];
    }
    assert targets[..|targets|] == targets;
    forall t
      ensures multiset(markers)[Marker(t, committed)] == multiset(targets)[t]
    {
      MarkerPerTarget(targets, committed, t);
    }
  }

  /** What a handler answers. */
  datatype Reply =
    | Handed(pid: int, epoch: int)
    | Codes(codes: seq<seq<int>>)
    | Ended(code: int, markers: seq<Marker>)

  /** What one handler answers, given the coordinator's state. */
  ghost predicate Answers(c: Coordinator, r: Request, reply: Reply)
  {
    match r
    case Init(id) =>
      reply.Handed? && (Transactional(id) ==> Live(AfterInit(c, id), id.value, reply.pid, reply.epoch))
    case Add(txId, pid, epoch, topics, writable) =>
      reply == Codes(CodesFor(topics, writable, Live(c, txId, pid, epoch)))
    case End(txId, pid, epoch, committed) =>
      reply.Ended? &&
      if Live(c, txId, pid, epoch) then
        && reply.code == 0
        && (forall t :: multiset(reply.markers)[Marker(t, committed)] == CountIn(c, txId, t))
        && (forall k :: 0 <= k < |reply.markers| ==> reply.markers[k].committed == committed)
      else reply == Ended(1, [])
  }

  /** One request through its handler. */
  method ServeOne(tc: TransactionCoordinator, r: Request) returns (reply: Reply)
    modifies tc
    ensures tc.State() == Step(old(tc.State()), r)
    ensures Answers(old(tc.State()), r, reply)
  {
    hide AfterTopics, AfterInit, AfterEnd, Count, CodesFor;
    match r {
      case Init(id) =>
        var pid, epoch := tc.InitProducerId(id);
        reply := Handed(pid, epoch);
      case Add(txId, pid, epoch, topics, writable) =>
        var codes := HandleAddPartitions(tc, txId, pid, epoch, topics, writable);
        reply := Codes(codes);
      case End(txId, pid, epoch, committed) =>
        var markers, code := HandleEnd(tc, txId, pid, epoch, committed);
        reply := Ended(code, markers);
    }
  }

  /** Before request `j`, the pair was the last one handed out for the transactional id. */
  ghost predicate HoldsCurrent(rs: seq<Request>, replies: seq<Reply>, j: nat, txId: string, pid: int, epoch: int)
    requires j <= |rs| && j <= |replies|
  {
    && txId != ""
    && exists i :: 0 <= i < j && HandedLast(rs, replies, j, i, txId, pid, epoch)
  }

  ghost predicate HandedLast(rs: seq<Request>, replies: seq<Reply>, j: nat, i: nat, txId: string, pid: int, epoch: int)
    requires i < j <= |rs| && j <= |replies|
  {
    && rs[i] == Init(Some(txId)) && replies[i] == Handed(pid, epoch)
    && forall k :: i < k < j ==> rs[k] != Init(Some(txId))
  }

  /** What the replies of a run must be, said about requests and replies alone.  An addition
      or end is accepted if and only if its caller holds the pair last handed out for the
      id; a topic without write access is answered 29; an accepted end returns one marker of
      its kind for every addition accepted in that transaction, each justified by one. */
  ghost predicate ReplyRight(rs: seq<Request>, replies: seq<Reply>, j: nat)
    requires j < |rs| && |rs| <= |replies|
  {
    var r, reply, before := rs[j], replies[j], rs[..j];
    if r.Init? then reply.Handed?
    else
      var accepted := HoldsCurrent(rs, replies, j, r.txId, r.pid, r.epoch);
      if r.Add? then
        && reply.Codes? && |reply.codes| == |r.topics|
        && forall a :: 0 <= a < |r.topics| ==>
             && |reply.codes[a]| == |r.topics[a].parts|
             && forall b :: 0 <= b < |reply.codes[a]| ==>
                  reply.codes[a][b] == if r.topics[a].topic !in r.writable then 29 else if accepted then 0 else 1
      else if accepted then
        && reply.Ended? && reply.code == 0
        && (forall t :: multiset(reply.markers)[Marker(t, r.committed)] == Ledger(NEW, before, r.txId, t))
        && (forall k :: 0 <= k < |reply.markers| ==>
             reply.markers[k].committed == r.committed && Justified(NEW, before, r.txId, reply.markers[k].target))
      else reply == Ended(1, [])
  }

  /** The coordinator accepts at every moment exactly the pairs last handed out. */
  ghost predicate AcceptsCurrent(rs: seq<Request>, replies: seq<Reply>, j: nat)
    requires j <= |rs| && j <= |replies|
  {
    forall txId, pid, epoch ::
      Live(Run(NEW, rs[..j]), txId, pid, epoch) <==> HoldsCurrent(rs, replies, j, txId, pid, epoch)
  }

  /** Any run of requests through the handlers of a new coordinator. */
  method Serve(rs: seq<Request>) returns (tc: TransactionCoordinator, replies: seq<Reply>)
    ensures tc.State() == Run(NEW, rs) && Owned(tc.State())
    ensures |replies| == |rs| && forall j :: 0 <= j < |rs| ==> ReplyRight(rs, replies, j)
    ensures AcceptsCurrent(rs, replies, |rs|)
  {
    hide Run, Step, Owned, AcceptsCurrent, ReplyRight, Answers, Live;
    tc := new TransactionCoordinator();
    var answers := [];
    NoRequests(rs);
    NobodyHolds(rs);
    for j := 0 to |rs|
      invariant fresh(tc) && tc.State() == Run(NEW, rs[..j])
      invariant |answers| == j
      invariant forall k :: 0 <= k < j ==> Answers(Run(NEW, rs[..k]), rs[k], answers[k])
      invariant forall k :: 0 <= k <= j ==> AcceptsCurrent(rs, answers, k)
    {
      AfterStep(NEW, rs, j);
      var reply := ServeOne(tc, rs[j]);
      forall k | 0 <= k <= j
        ensures AcceptsCurrent(rs, answers + [reply], k)
      {
        StillAccepts(rs, answers, reply, k);
      }
      AcceptsNext(rs, answers + [reply], j);
      answers := answers + [reply];
    }
    replies := answers;
    forall j | 0 <= j < |rs|
      ensures ReplyRight(rs, replies, j)
    {
      RightReply(rs, replies, j);
    }
    NewIsOwned();
    RunOwned(NEW, rs, |rs|);
    assert rs[..|rs|] == rs;
  }

  lemma NobodyHolds(rs: seq<Request>)
    ensures AcceptsCurrent(rs, [], 0)
  {
    NoRequests(rs);
  }

  lemma StillAccepts(rs: seq<Request>, replies: seq<Reply>, reply: Reply, k: nat)
    requires k <= |rs| && k <= |replies| && AcceptsCurrent(rs, replies, k)
    ensures AcceptsCurrent(rs, replies + [reply], k)
  {
    hide Run, Live, HandedLast;
    forall txId, pid, epoch
      ensures HoldsCurrent(rs, replies + [reply], k, txId, pid, epoch) <==>
              HoldsCurrent(rs, replies, k, txId, pid, epoch)
    {
      forall i | 0 <= i < k
        ensures HandedLast(rs, replies + [reply], k, i, txId, pid, epoch) <==>
                HandedLast(rs, replies, k, i, txId, pid, epoch)
      {
        SameReply(rs, replies, reply, k, i, txId, pid, epoch);
      }
    }
  }

  lemma SameReply(rs: seq<Request>, replies: seq<Reply>, reply: Reply, k: nat, i: nat,
                  txId: string, pid: int, epoch: int)
    requires i < k <= |rs| && k <= |replies|
    ensures HandedLast(rs, replies + [reply], k, i, txId, pid, epoch) <==>
            HandedLast(rs, replies, k, i, txId, pid, epoch)
  {
  }

  /** One request moves both sides alike. */
  lemma AcceptsNext(rs: seq<Request>, replies: seq<Reply>, j: nat)
    requires j < |rs| && j < |replies| && AcceptsCurrent(rs, replies, j)
    requires Answers(Run(NEW, rs[..j]), rs[j], replies[j])
    ensures AcceptsCurrent(rs, replies, j + 1)
  {
    hide Run, Live, HoldsCurrent, Step, Answers;
    AfterStep(NEW, rs, j);
    var n, after := j + 1, Run(NEW, rs[..j + 1]);
    forall txId, pid, epoch
      ensures Live(after, txId, pid, epoch) <==> HoldsCurrent(rs, replies, n, txId, pid, epoch)
    {
      StepLive(Run(NEW, rs[..j]), rs[j], replies[j], txId, pid, epoch);
      HoldsNext(rs, replies, j, txId, pid, epoch);
    }
  }

  lemma StepLive(c: Coordinator, r: Request, reply: Reply, txId: string, pid: int, epoch: int)
    requires Answers(c, r, reply)
    ensures Live(Step(c, r), txId, pid, epoch) <==>
            if r == Init(Some(txId)) && txId != "" then reply == Handed(pid, epoch) else Live(c, txId, pid, epoch)
  {
    hide AfterTopics, AsInt16, CodesFor, CountIn;
    if r.Add? {
      TopicsFrame(c, r.txId, r.pid, r.epoch, r.topics, r.writable);
    }
  }

  lemma HoldsNext(rs: seq<Request>, replies: seq<Reply>, j: nat, txId: string, pid: int, epoch: int)
    requires j < |rs| && j < |replies|
    ensures HoldsCurrent(rs, replies, j + 1, txId, pid, epoch) <==>
            if rs[j] == Init(Some(txId)) && txId != "" then replies[j] == Handed(pid, epoch)
            else HoldsCurrent(rs, replies, j, txId, pid, epoch)
  {
    hide HandedLast;
    var n := j + 1;
    forall i | 0 <= i < n
      ensures HandedLast(rs, replies, n, i, txId, pid, epoch) <==>
              if i == j then rs[j] == Init(Some(txId)) && replies[j] == Handed(pid, epoch)
              else rs[j] != Init(Some(txId)) && HandedLast(rs, replies, j, i, txId, pid, epoch)
    {
      LastNext(rs, replies, j, i, txId, pid, epoch);
    }
    if HoldsCurrent(rs, replies, j, txId, pid, epoch) {
      var i :| 0 <= i < j && HandedLast(rs, replies, j, i, txId, pid, epoch);
      assert HandedLast(rs, replies, n, i, txId, pid, epoch) <==> rs[j] != Init(Some(txId));
    }
    assert HandedLast(rs, replies, n, j, txId, pid, epoch) <==>
           rs[j] == Init(Some(txId)) && replies[j] == Handed(pid, epoch);
  }

  lemma LastNext(rs: seq<Request>, replies: seq<Reply>, j: nat, i: nat, txId: string, pid: int, epoch: int)
    requires i <= j < |rs| && j < |replies|
    ensures HandedLast(rs, replies, j + 1, i, txId, pid, epoch) <==>
            if i == j then rs[j] == Init(Some(txId)) && replies[j] == Handed(pid, epoch)
            else rs[j] != Init(Some(txId)) && HandedLast(rs, replies, j, i, txId, pid, epoch)
  {
  }

  lemma RightReply(rs: seq<Request>, replies: seq<Reply>, j: nat)
    requires j < |rs| && |rs| <= |replies| && AcceptsCurrent(rs, replies, j)
    requires Answers(Run(NEW, rs[..j]), rs[j], replies[j])
    ensures ReplyRight(rs, replies, j)
  {
    hide Run, Live, HoldsCurrent, Ledger, Justified, CountIn;
    var r := rs[j];
    if !r.Init? {
      assert Live(Run(NEW, rs[..j]), r.txId, r.pid, r.epoch) <==>
             HoldsCurrent(rs, replies, j, r.txId, r.pid, r.epoch);
      if r.End? && Live(Run(NEW, rs[..j]), r.txId, r.pid, r.epoch) {
        MarkersJustified(rs, j, replies[j].markers);
      }
    }
  }

  lemma NoRequests(rs: seq<Request>)
    ensures Run(NEW, rs[..0]) == NEW
  {
  }

  lemma MarkersJustified(rs: seq<Request>, j: nat, ms: seq<Marker>)
    requires j < |rs| && rs[j].End? && Live(Run(NEW, rs[..j]), rs[j].txId, rs[j].pid, rs[j].epoch)
    requires var r := rs[j];
             && (forall t :: multiset(ms)[Marker(t, r.committed)] == CountIn(Run(NEW, rs[..j]), r.txId, t))
             && (forall k :: 0 <= k < |ms| ==> ms[k].committed == r.committed)
    ensures forall t :: multiset(ms)[Marker(t, rs[j].committed)] == Ledger(NEW, rs[..j], rs[j].txId, t)
    ensures forall k :: 0 <= k < |ms| ==> Justified(NEW, rs[..j], rs[j].txId, ms[k].target)
  {
    hide Run, Ledger, CountIn, Justified, Live;
    var c, r := Run(NEW, rs[..j]), rs[j];
    NoEmptyId(rs[..j]);
    LiveIsKnown(c, r.txId, r.pid, r.epoch);
    forall t
      ensures multiset(ms)[Marker(t, r.committed)] == Ledger(NEW, rs[..j], r.txId, t)
      ensures CountIn(c, r.txId, t) > 0 ==> Justified(NEW, rs[..j], r.txId, t)
    {
      NothingRegistered(r.txId, t);
      RegistrationsConserved(NEW, rs[..j], r.txId, t);
      MarkersOnlyWhereWritable(NEW, rs[..j], r.txId, t);
    }
    forall k | 0 <= k < |ms|
      ensures Justified(NEW, rs[..j], r.txId, ms[k].target)
    {
      assert ms[k] == Marker(ms[k].target, r.committed) && ms[k] in multiset(ms);
    }
  }

  lemma NothingRegistered(txId: string, t: Target)
    ensures CountIn(NEW, txId, t) == 0
  {
  }

  lemma LiveIsKnown(c: Coordinator, txId: string, pid: int, epoch: int)
    requires Live(c, txId, pid, epoch)
    ensures txId in c.txns
  {
  }

  /** The empty id is never a transactional one. */
  lemma {:induction false} NoEmptyId(rs: seq<Request>)
    ensures "" !in Run(NEW, rs).txns
  {
    hide AfterTopics, AsInt16;
    if rs != [] {
      var init, r := rs[..|rs| - 1], rs[|rs| - 1];
      NoEmptyId(init);
      if r.Add? {
        TopicsFrame(Run(NEW, init), r.txId, r.pid, r.epoch, r.topics, r.writable);
      }
    }
  }

  // ----------------------------------------------------------- deduplication

  /** One `CheckAndSetSequence` call. */
  datatype Call = Call(pid: int, topic: string, partition: int, number: int)

  predicate SameStream(a: Call, b: Call)
  {
    a.pid == b.pid && a.topic == b.topic && a.partition == b.partition
  }

  /** What the calls do to the rendered-key map. */
  function Checked(sequences: map<string, int>, call: Call): map<string, int>
  {
    var key := SequenceKey(call.pid, call.topic, call.partition);
    if key in sequences && call.number <= sequences[key] then sequences else sequences[key := call.number]
  }

  function AllChecked(calls: seq<Call>): map<string, int>
  {
    if calls == [] then map[] else Checked(AllChecked(calls[..|calls| - 1]), calls[|calls| - 1])
  }

  /** The sequence numbers accepted for one stream, said without any key: a number is
      accepted when it is above the last one accepted. */
  function Accepted(calls: seq<Call>, stream: Call): seq<int>
  {
    if calls == [] then []
    else
      var before, call := Accepted(calls[..|calls| - 1], stream), calls[|calls| - 1];
      if SameStream(call, stream) && (before == [] || before[|before| - 1] < call.number)
      then before + [call.number] else before
  }

  predicate Rising(a: seq<int>)
  {
    forall i, j :: 0 <= i < j < |a| ==> a[i] < a[j]
  }

  /** Accepted numbers are strictly increasing, so none is accepted twice. */
  lemma {:induction false} AcceptedIncrease(calls: seq<Call>, stream: Call)
    ensures Rising(Accepted(calls, stream))
  {
    hide Rising;
    if calls == [] {
      RisingAppend([], 0);
    } else {
      AcceptedIncrease(calls[..|calls| - 1], stream);
      RisingAppend(Accepted(calls[..|calls| - 1], stream), calls[|calls| - 1].number);
    }
  }

  lemma RisingAppend(a: seq<int>, x: int)
    ensures Rising([])
    ensures Rising(a) && (a == [] || a[|a| - 1] < x) ==> Rising(a + [x])
  {
  }

  /** The keyed map holds, for every stream, the last number accepted for it: streams never
      interfere because their keys differ. */
  lemma {:induction false} MapHoldsLastAccepted(calls: seq<Call>, stream: Call)
    ensures var m, a := AllChecked(calls), Accepted(calls, stream);
            var key := SequenceKey(stream.pid, stream.topic, stream.partition);
            && (key in m <==> a != [])
            && (a != [] ==> m[key] == a[|a| - 1])
  {
    hide SequenceKey;
    if calls != [] {
      var init, call := calls[..|calls| - 1], calls[|calls| - 1];
      MapHoldsLastAccepted(init, stream);
      if !SameStream(call, stream) &&
         SequenceKey(call.pid, call.topic, call.partition) == SequenceKey(stream.pid, stream.topic, stream.partition) {
        SequenceKeyInjective(call.pid, call.topic, call.partition, stream.pid, stream.topic, stream.partition);
        assert false;
      }
    }
  }

  /** A call is reported as a duplicate exactly when its number does not exceed every number
      accepted so far for its own stream. */
  lemma DuplicateIff(calls: seq<Call>, call: Call)
    ensures var m, key := AllChecked(calls), SequenceKey(call.pid, call.topic, call.partition);
            key in m && call.number <= m[key] <==>
            exists i :: 0 <= i < |Accepted(calls, call)| && call.number <= Accepted(calls, call)[i]
  {
    hide SequenceKey, AllChecked, Accepted;
    MapHoldsLastAccepted(calls, call);
    AcceptedIncrease(calls, call);
    var a := Accepted(calls, call);
    if a != [] {
      assert forall i :: 0 <= i < |a| ==> a[i] <= a[|a| - 1];
    }
  }

  /** An earlier call of the same stream with a number at least as high. */
  predicate Seen(calls: seq<Call>, k: nat)
    requires k < |calls|
  {
    exists i :: 0 <= i < k && SameStream(calls[i], calls[k]) && calls[k].number <= calls[i].number
  }

  /** The test `CheckAndSetSequence` makes. */
  predicate Repeats(sequences: map<string, int>, call: Call)
  {
    var key := SequenceKey(call.pid, call.topic, call.partition);
    key in sequences && call.number <= sequences[key]
  }

  /** The keyed map holds the highest number ever sent to a stream, accepted or not. */
  lemma {:induction false} MapHoldsHighest(calls: seq<Call>, call: Call)
    ensures Repeats(AllChecked(calls), call) <==>
            exists i :: 0 <= i < |calls| && SameStream(calls[i], call) && call.number <= calls[i].number
  {
    hide SequenceKey, SameStream;
    if calls != [] {
      var n := |calls| - 1;
      var last := calls[n];
      MapHoldsHighest(calls[..n], call);
      MapHoldsHighest(calls[..n], last);
      OneMoreCall(AllChecked(calls[..n]), last, call);
      assert forall i :: 0 <= i < n ==> calls[..n][i] == calls[i];
      if SameStream(last, call) && Repeats(AllChecked(calls[..n]), last) && call.number <= last.number {
        var i :| 0 <= i < n && SameStream(calls[i], last) && last.number <= calls[i].number;
        StreamsAlike(calls[i], last, call);
      }
    }
  }

  lemma StreamsAlike(a: Call, b: Call, c: Call)
    requires SameStream(a, b) && SameStream(b, c)
    ensures SameStream(a, c)
  {
  }

  /** What one call does to the test for another. */
  lemma OneMoreCall(m: map<string, int>, last: Call, call: Call)
    ensures Repeats(Checked(m, last), call) <==>
            Repeats(m, call) || (SameStream(last, call) && call.number <= last.number)
  {
    hide SequenceKey;
    if SequenceKey(last.pid, last.topic, last.partition) == SequenceKey(call.pid, call.topic, call.partition) {
      SequenceKeyInjective(last.pid, last.topic, last.partition, call.pid, call.topic, call.partition);
    }
  }

  /** Any calls to a new coordinator: a call is answered "duplicate" if and only if its stream
      was sent a number at least as high before, so the numbers answered "new" for one
      producer, topic and partition rise strictly. */
  method CheckAll(calls: seq<Call>) returns (duplicates: seq<bool>)
    ensures |duplicates| == |calls| && forall k :: 0 <= k < |calls| ==> duplicates[k] == Seen(calls, k)
    ensures forall i, j :: 0 <= i < j < |calls| && SameStream(calls[i], calls[j]) && !duplicates[j] ==>
              calls[i].number < calls[j].number
  {
    hide SequenceKey, Checked, AllChecked, SameStream;
    var tc := new TransactionCoordinator();
    duplicates := [];
    NothingChecked(calls);
    for k := 0 to |calls|
      invariant tc.sequences == AllChecked(calls[..k])
      invariant |duplicates| == k && forall i :: 0 <= i < k ==> duplicates[i] == Seen(calls, i)
    {
      var call := calls[k];
      CheckStep(calls, k);
      var duplicate := tc.CheckAndSetSequence(call.pid, call.topic, call.partition, call.number);
      duplicates := duplicates + [duplicate];
    }
  }

  lemma NothingChecked(calls: seq<Call>)
    ensures AllChecked(calls[..0]) == map[]
  {
  }

  lemma CheckStep(calls: seq<Call>, k: nat)
    requires k < |calls|
    ensures var m, call := AllChecked(calls[..k]), calls[k];
            var key := SequenceKey(call.pid, call.topic, call.partition);
            && (key in m && call.number <= m[key] <==> Seen(calls, k))
            && AllChecked(calls[..k + 1]) ==
               if key in m && call.number <= m[key] then m else m[key := call.number]
  {
    hide SequenceKey, SameStream;
    MapHoldsHighest(calls[..k], calls[k]);
    assert forall i :: 0 <= i < k ==> calls[..k][i] == calls[i];
    assert calls[..k + 1][..k] == calls[..k];
  }
}
