/** Majorities of a finite set. */
module Quorums {
  lemma {:induction false} SubsetSize<T>(a: set<T>, b: set<T>)
    requires a <= b
    ensures |a| <= |b|
  {
    if a != {} {
      var x :| x in a;
      SubsetSize(a - {x}, b - {x});
    }
  }

  lemma Pick<T>(s: set<T>) returns (x: T)
    requires |s| > 0
    ensures x in s
  {
    x :| x in s;
  }

  /** Two majorities share a member. */
  lemma QuorumsMeet<T>(all: set<T>, a: set<T>, b: set<T>)
    requires a <= all && b <= all && 2 * |a| > |all| && 2 * |b| > |all|
    ensures a * b != {}
  {
    if a * b == {} {
      assert |a + b| == |a| + |b|;
      SubsetSize(a + b, all);
      assert false;
    }
  }
}

/** The Raft voting node (internal/consensus/kraft.go) and elections in a cluster of such
    nodes (section 5.2 of "In Search of an Understandable Consensus Algorithm").

    The node methods do not check their callers, so the discipline the callers must keep is
    written out in `Allowed`: candidates are cluster members, a node becomes leader only of
    its current term with a majority of grants that includes its own, and a node is told to
    follow only in a term higher than its own. */
module Raft {
  import opened Quorums

  datatype Role = Follower | Candidate | Leader

  const NONE: int := -1

  datatype Node = Node(id: int, term: int, votedFor: int, role: Role, leaderId: int)

  /** When a node grants its vote. */
  predicate Grants(n: Node, candidate: int, term: int)
  {
    term > n.term || (term == n.term && n.votedFor in {NONE, candidate})
  }

  function AfterVote(n: Node, candidate: int, term: int): Node
  {
    if term > n.term then Node(n.id, term, candidate, Follower, NONE)
    else if Grants(n, candidate, term) then n.(votedFor := candidate)
    else n
  }

  function AfterLead(n: Node, term: int): Node
  {
    Node(n.id, term, n.id, Leader, n.id)
  }

  function AfterFollow(n: Node, term: int, leaderId: int): Node
  {
    Node(n.id, term, NONE, Follower, leaderId)
  }

  class KRaftNode {
    const nodeId: int
    const clusterSize: int
    var currentTerm: int
    var votedFor: int
    var role: Role
    var leaderId: int

    ghost function State(): Node
      reads this
    {
      Node(nodeId, currentTerm, votedFor, role, leaderId)
    }

    constructor (id: int, size: int)
      ensures State() == Node(id, 0, NONE, Follower, NONE) && clusterSize == size
    {
      nodeId, clusterSize := id, size;
      currentTerm, votedFor, role, leaderId := 0, NONE, Follower, NONE;
    }

    /** `RequestVote`: a lower term is refused, a higher one always granted, and in the node's
        own term the vote goes to one candidate, as often as that candidate asks. */
    method RequestVote(candidateId: int, candidateTerm: int) returns (granted: bool, term: int)
      modifies this
      ensures granted == Grants(old(State()), candidateId, candidateTerm)
      ensures State() == AfterVote(old(State()), candidateId, candidateTerm)
      ensures term == currentTerm >= old(currentTerm)
      ensures candidateTerm < old(currentTerm) ==> !granted && State() == old(State())
      ensures candidateTerm > old(currentTerm) ==>
                granted && State() == Node(nodeId, candidateTerm, candidateId, Follower, -1)
      ensures candidateTerm == old(currentTerm) ==>
                && granted == (old(votedFor) == -1 || old(votedFor) == candidateId)
                && State() == Node(nodeId, candidateTerm, if granted then candidateId else old(votedFor),
                                   old(role), old(leaderId))
    {
      if candidateTerm < currentTerm {
        return false, currentTerm;
      }
      if candidateTerm > currentTerm {
        currentTerm := candidateTerm;
        role := Follower;
        votedFor := NONE;
        leaderId := NONE;
      }
      if votedFor == NONE || votedFor == candidateId {
        votedFor := candidateId;
        return true, currentTerm;
      }
      return false, currentTerm;
    }

    method BecomeLeader(term: int)
      modifies this
      ensures State() == AfterLead(old(State()), term)
      ensures role == Leader && currentTerm == term && leaderId == nodeId && votedFor == nodeId
    {
      role := Leader;
      currentTerm := term;
      leaderId := nodeId;
      votedFor := nodeId;
    }

    method BecomeFollower(term: int, leader: int)
      modifies this
      ensures State() == AfterFollow(old(State()), term, leader)
      ensures role == Follower && currentTerm == term && leaderId == leader && votedFor == -1
    {
      role := Follower;
      currentTerm := term;
      leaderId := leader;
      votedFor := NONE;
    }
  }

  /** Why following needs a higher term: a node that has voted in its current term would
      vote for somebody else in that term after a `BecomeFollower` call if and only if the
      call's term is not higher. */
  lemma FollowRegrantsIff(n: Node, term: int, leaderId: int, other: int)
    requires n.votedFor != NONE && other != n.votedFor && other != NONE
    ensures !Grants(n, other, n.term)
    ensures Grants(AfterFollow(n, term, leaderId), other, n.term) <==> term <= n.term
  {
  }

  /** Why leading needs the node's own term and vote. */
  lemma LeadRegrantsIff(n: Node, term: int, other: int)
    requires n.votedFor != NONE && other != n.votedFor && other != NONE && n.id != NONE
    ensures Grants(AfterLead(n, term), other, n.term) <==> term < n.term || (term == n.term && other == n.id)
  {
  }

  // ---------------------------------------------------------------- clusters

  datatype Grant = Grant(voter: int, candidate: int, term: int)
  datatype Election = Election(winner: int, term: int)

  /** The nodes, and the history of grants given and elections won. */
  datatype Cluster = Cluster(nodes: map<int, Node>, grants: set<Grant>, elections: set<Election>)

  datatype Event =
    | Vote(voter: int, candidate: int, term: int)
    | Lead(node: int, term: int)
    | Follow(node: int, term: int, leaderId: int)

  function Voters(c: Cluster, candidate: int, term: int): set<int>
  {
    set g | g in c.grants && g.candidate == candidate && g.term == term :: g.voter
  }

  predicate Majority(c: Cluster, voters: set<int>)
  {
    2 * |voters| > |c.nodes|
  }

  predicate Allowed(c: Cluster, e: Event)
  {
    match e
    case Vote(voter, candidate, _) => voter in c.nodes && candidate in c.nodes
    case Lead(node, term) =>
      && node in c.nodes && c.nodes[node].term == term
      && node in Voters(c, node, term) && Majority(c, Voters(c, node, term))
    case Follow(node, term, _) => node in c.nodes && term > c.nodes[node].term
  }

  /** The node an event happens at. */
  function At(e: Event): int
  {
    if e.Vote? then e.voter else e.node
  }

  /** What the event does, whether the discipline allows it or not. */
  function Next(c: Cluster, e: Event): Cluster
    requires At(e) in c.nodes
  {
    match e
    case Vote(voter, candidate, term) =>
      var n := c.nodes[voter];
      c.(nodes := c.nodes[voter := AfterVote(n, candidate, term)],
         grants := if Grants(n, candidate, term) then c.grants + {Grant(voter, candidate, term)} else c.grants)
    case Lead(node, term) =>
      c.(nodes := c.nodes[node := AfterLead(c.nodes[node], term)], elections := c.elections + {Election(node, term)})
    case Follow(node, term, leaderId) =>
      c.(nodes := c.nodes[node := AfterFollow(c.nodes[node], term, leaderId)])
  }

  predicate Init(c: Cluster)
  {
    && (forall k :: k in c.nodes ==> k >= 0 && c.nodes[k] == Node(k, 0, NONE, Follower, NONE))
    && c.grants == {} && c.elections == {}
  }

  /** A grant is remembered by its voter for as long as the term lasts. */
  predicate Remembered(c: Cluster, g: Grant)
  {
    && g.voter in c.nodes && g.candidate in c.nodes
    && g.term <= c.nodes[g.voter].term
    && (g.term == c.nodes[g.voter].term ==> c.nodes[g.voter].votedFor == g.candidate)
  }

  predicate Identified(c: Cluster)
  {
    forall k :: k in c.nodes ==> k >= 0 && c.nodes[k].id == k
  }

  predicate AllRemembered(c: Cluster)
  {
    forall g :: g in c.grants ==> Remembered(c, g)
  }

  /** No node grants two candidates in one term. */
  predicate OneGrantPerTerm(c: Cluster)
  {
    forall g, h :: g in c.grants && h in c.grants && g.voter == h.voter && g.term == h.term ==> g == h
  }

  predicate WonByMajority(c: Cluster)
  {
    forall e :: e in c.elections ==> Majority(c, Voters(c, e.winner, e.term))
  }

  /** A leader won its term and knows itself as leader and as the one it voted for. */
  predicate LeadersWereElected(c: Cluster)
  {
    forall k :: k in c.nodes && c.nodes[k].role == Leader ==>
      Election(k, c.nodes[k].term) in c.elections && c.nodes[k].leaderId == k && c.nodes[k].votedFor == k
  }

  predicate Inv(c: Cluster)
  {
    Identified(c) && AllRemembered(c) && OneGrantPerTerm(c) && WonByMajority(c) && LeadersWereElected(c)
  }

  lemma InitInv(c: Cluster)
    requires Init(c)
    ensures Inv(c)
  {
  }

  lemma VoteKeepsGrants(c: Cluster, voter: int, candidate: int, term: int)
    requires Inv(c) && Allowed(c, Vote(voter, candidate, term))
    ensures var d := Next(c, Vote(voter, candidate, term));
            Identified(d) && AllRemembered(d) && OneGrantPerTerm(d) && LeadersWereElected(d)
  {
    hide Voters, Majority, WonByMajority;
    var d := Next(c, Vote(voter, candidate, term));
    forall g | g in d.grants
      ensures Remembered(d, g)
    {
      if g in c.grants {
        assert Remembered(c, g);
      }
    }
    forall g, h | g in d.grants && h in d.grants && g.voter == h.voter && g.term == h.term
      ensures g == h
    {
      assert g in c.grants ==> Remembered(c, g);
      assert h in c.grants ==> Remembered(c, h);
    }
  }

  /** A won election stays won: grants are never taken back. */
  lemma MajorityStays(c: Cluster, d: Cluster)
    requires c.grants <= d.grants && |c.nodes| == |d.nodes| && WonByMajority(c) && d.elections == c.elections
    ensures WonByMajority(d)
  {
    forall e | e in d.elections
      ensures Majority(d, Voters(d, e.winner, e.term))
    {
      assert Voters(c, e.winner, e.term) <= Voters(d, e.winner, e.term);
      SubsetSize(Voters(c, e.winner, e.term), Voters(d, e.winner, e.term));
    }
  }

  lemma SameSize(m: map<int, Node>, k: int, n: Node)
    requires k in m
    ensures |m[k := n]| == |m|
  {
    assert m[k := n].Keys == m.Keys;
  }

  /** Every allowed step keeps the invariant. */
  lemma StepKeepsInv(c: Cluster, e: Event)
    requires Inv(c) && Allowed(c, e)
    ensures Inv(Next(c, e))
  {
    hide Voters, Majority;
    match e {
      case Vote(voter, candidate, term) =>
        VoteKeepsGrants(c, voter, candidate, term);
        SameSize(c.nodes, voter, AfterVote(c.nodes[voter], candidate, term));
        MajorityStays(c, Next(c, e));
      case Lead(node, term) =>
        LeadKeepsInv(c, node, term);
      case Follow(node, term, leaderId) =>
        FollowKeepsInv(c, node, term, leaderId);
    }
  }

  lemma LeadKeepsInv(c: Cluster, node: int, term: int)
    requires Inv(c) && Allowed(c, Lead(node, term))
    ensures Inv(Next(c, Lead(node, term)))
  {
    var d := Next(c, Lead(node, term));
    SameSize(c.nodes, node, AfterLead(c.nodes[node], term));
    assert Grant(node, node, term) in c.grants;
    forall g | g in d.grants
      ensures Remembered(d, g)
    {
      assert Remembered(c, g);
    }
    forall e | e in d.elections
      ensures Majority(d, Voters(d, e.winner, e.term))
    {
      assert Voters(d, e.winner, e.term) == Voters(c, e.winner, e.term);
    }
  }

  lemma FollowKeepsInv(c: Cluster, node: int, term: int, leaderId: int)
    requires Inv(c) && Allowed(c, Follow(node, term, leaderId))
    ensures Inv(Next(c, Follow(node, term, leaderId)))
  {
    hide Voters, Majority;
    var d := Next(c, Follow(node, term, leaderId));
    SameSize(c.nodes, node, AfterFollow(c.nodes[node], term, leaderId));
    MajorityStays(c, d);
    forall g | g in d.grants
      ensures Remembered(d, g)
    {
      assert Remembered(c, g);
    }
  }

  // ---------------------------------------------------------------- winners

  /** Two elections of the same term were won by the same node. */
  lemma SameTermSameWinner(c: Cluster, e: Election, f: Election)
    requires Inv(c) && e in c.elections && f in c.elections && e.term == f.term
    ensures e == f
  {
    var a, b := Voters(c, e.winner, e.term), Voters(c, f.winner, f.term);
    forall v | v in a + b
      ensures v in c.nodes.Keys
    {
      assert exists g :: g in c.grants && g.voter == v && Remembered(c, g);
    }
    assert |c.nodes.Keys| == |c.nodes|;
    QuorumsMeet(c.nodes.Keys, a, b);
    var v :| v in a * b;
    assert Grant(v, e.winner, e.term) in c.grants && Grant(v, f.winner, f.term) in c.grants;
  }

  // -------------------------------------------------------------------- runs

  ghost predicate IsRun(states: seq<Cluster>, events: seq<Event>)
  {
    && |states| == |events| + 1
    && Init(states[0])
    && forall i :: 0 <= i < |events| ==> Allowed(states[i], events[i]) && states[i + 1] == Next(states[i], events[i])
  }

  lemma {:induction false} RunKeepsInv(states: seq<Cluster>, events: seq<Event>, i: nat)
    requires IsRun(states, events) && i < |states|
    ensures Inv(states[i])
  {
    hide Inv, Init, Allowed, Next;
    if i == 0 {
      InitInv(states[0]);
    } else {
      RunKeepsInv(states, events, i - 1);
      StepKeepsInv(states[i - 1], events[i - 1]);
    }
  }

  /** What a step leaves behind: history only grows, membership is fixed, and no node's term
      goes down. */
  predicate Grown(c: Cluster, d: Cluster)
  {
    && c.grants <= d.grants && c.elections <= d.elections && c.nodes.Keys == d.nodes.Keys
    && forall k :: k in c.nodes ==> k in d.nodes && c.nodes[k].term <= d.nodes[k].term
  }

  lemma StepGrows(c: Cluster, e: Event)
    requires Allowed(c, e)
    ensures Grown(c, Next(c, e))
  {
    hide Voters, Majority;
  }

  lemma {:induction false} RunGrows(states: seq<Cluster>, events: seq<Event>, i: nat, j: nat)
    requires IsRun(states, events) && i <= j < |states|
    ensures Grown(states[i], states[j])
    decreases j - i
  {
    hide Init, Allowed, Next;
    if i < j {
      RunGrows(states, events, i, j - 1);
      StepGrows(states[j - 1], events[j - 1]);
    }
  }

  /** Terms never decrease in any run. */
  lemma TermsNeverDecrease(states: seq<Cluster>, events: seq<Event>, i: nat, j: nat, node: int)
    requires IsRun(states, events) && i <= j < |states| && node in states[i].nodes
    ensures node in states[j].nodes && states[i].nodes[node].term <= states[j].nodes[node].term
  {
    hide IsRun;
    RunGrows(states, events, i, j);
  }

  /** In no run does a node grant its vote to two candidates in one term. */
  lemma NoDoubleVote(states: seq<Cluster>, events: seq<Event>, i: nat, j: nat)
    requires IsRun(states, events) && i <= j < |events|
    requires events[i].Vote? && events[j].Vote?
    requires events[i].voter == events[j].voter && events[i].term == events[j].term
    requires Grants(states[i].nodes[events[i].voter], events[i].candidate, events[i].term)
    requires Grants(states[j].nodes[events[j].voter], events[j].candidate, events[j].term)
    ensures events[i].candidate == events[j].candidate
  {
    hide Init;
    var e, f := events[i], events[j];
    assert Grant(e.voter, e.candidate, e.term) in states[i + 1].grants;
    assert Grant(f.voter, f.candidate, f.term) in states[j + 1].grants;
    RunGrows(states, events, i + 1, j + 1);
    RunKeepsInv(states, events, j + 1);
  }

  /** Election safety: over a whole run, two leaders of one term, at whatever moments, are
      the same node. */
  lemma ElectionSafety(states: seq<Cluster>, events: seq<Event>, i: nat, j: nat, m: int, n: int)
    requires IsRun(states, events) && i <= j < |states|
    requires m in states[i].nodes && states[i].nodes[m].role == Leader
    requires n in states[j].nodes && states[j].nodes[n].role == Leader
    requires states[i].nodes[m].term == states[j].nodes[n].term
    ensures m == n
  {
    hide IsRun, Voters, Majority;
    RunKeepsInv(states, events, i);
    RunKeepsInv(states, events, j);
    RunGrows(states, events, i, j);
    var t := states[i].nodes[m].term;
    SameTermSameWinner(states[j], Election(m, t), Election(n, t));
  }

  // ---------------------------------------------------------------- progress

  /** In any run a vote asked for in a term above the voter's is granted, and the voter moves
      to that term as a follower without a leader. */
  lemma HigherTermGranted(states: seq<Cluster>, events: seq<Event>, i: nat)
    requires IsRun(states, events) && i < |events| && events[i].Vote?
    requires events[i].term > states[i].nodes[events[i].voter].term
    ensures var e, d := events[i], states[i + 1];
            && Grant(e.voter, e.candidate, e.term) in d.grants
            && e.voter in d.nodes && d.nodes[e.voter] == Node(d.nodes[e.voter].id, e.term, e.candidate, Follower, NONE)
  {
    hide Init, Voters, Majority;
    var c, e := states[i], events[i];
    assert Allowed(c, e) && states[i + 1] == Next(c, e);
  }

  /** In any run a vote asked for in the voter's own term is granted if it has not voted
      there. */
  lemma FirstVoteGranted(states: seq<Cluster>, events: seq<Event>, i: nat)
    requires IsRun(states, events) && i < |events| && events[i].Vote?
    requires var n := states[i].nodes[events[i].voter]; events[i].term == n.term && n.votedFor == -1
    ensures var e, d := events[i], states[i + 1];
            && Grant(e.voter, e.candidate, e.term) in d.grants
            && e.voter in d.nodes && d.nodes[e.voter].votedFor == e.candidate
  {
    hide Init, Voters, Majority;
    var c, e := states[i], events[i];
    assert Allowed(c, e) && states[i + 1] == Next(c, e);
  }

  /** In any run a vote once granted is granted again to the same candidate for as long as
      the voter stays in that term. */
  lemma GrantRepeated(states: seq<Cluster>, events: seq<Event>, i: nat, j: nat)
    requires IsRun(states, events) && i < j < |events| && events[i].Vote? && events[j] == events[i]
    requires Grant(events[i].voter, events[i].candidate, events[i].term) in states[i + 1].grants
    requires states[j].nodes[events[j].voter].term == events[j].term
    ensures Grants(states[j].nodes[events[j].voter], events[j].candidate, events[j].term)
    ensures states[j + 1].nodes[events[j].voter] == states[j].nodes[events[j].voter]
  {
    hide Init, Voters, Majority, Grown;
    var e := events[i];
    RunGrows(states, events, i + 1, j);
    RunKeepsInv(states, events, j);
    GrantsKept(states[i + 1], states[j]);
    assert Remembered(states[j], Grant(e.voter, e.candidate, e.term));
    assert Allowed(states[j], events[j]) && states[j + 1] == Next(states[j], events[j]);
  }

  lemma GrantsKept(c: Cluster, d: Cluster)
    requires Grown(c, d)
    ensures c.grants <= d.grants
  {
  }

  /** A run from any cluster that the discipline allows. */
  predicate AllowedRun(c: Cluster, events: seq<Event>)
    decreases |events|
  {
    events == [] || (Allowed(c, events[0]) && AllowedRun(Next(c, events[0]), events[1..]))
  }

  function After(c: Cluster, events: seq<Event>): Cluster
    requires AllowedRun(c, events)
    decreases |events|
  {
    if events == [] then c else After(Next(c, events[0]), events[1..])
  }

  /** Everybody outside `rest` has voted for the candidate in the term. */
  predicate Polled(c: Cluster, candidate: int, term: int, rest: set<int>)
  {
    && candidate in c.nodes && rest <= c.nodes.Keys
    && (forall k :: k in rest ==> c.nodes[k].term < term)
    && (forall k :: k in c.nodes && k !in rest ==>
         c.nodes[k].term == term && c.nodes[k].votedFor == candidate && Grant(k, candidate, term) in c.grants)
  }

  /** Elections can always be held: whatever has happened before, a candidate that asks every
      node in a term above all of theirs becomes its leader, by allowed steps alone, and
      every other node has voted for it. */
  lemma ElectionPossible(c: Cluster, candidate: int, term: int) returns (events: seq<Event>)
    requires candidate in c.nodes && forall k :: k in c.nodes ==> c.nodes[k].term < term
    ensures AllowedRun(c, events) && Elected(After(c, events), candidate, term)
    ensures After(c, events).nodes.Keys == c.nodes.Keys
  {
    events := Poll(c, candidate, term, c.nodes.Keys);
  }

  predicate Elected(c: Cluster, candidate: int, term: int)
  {
    && candidate in c.nodes && c.nodes[candidate].role == Leader
    && forall k :: k in c.nodes ==> c.nodes[k].term == term && (k != candidate ==> c.nodes[k].votedFor == candidate)
  }

  lemma {:induction false} Poll(c: Cluster, candidate: int, term: int, rest: set<int>) returns (events: seq<Event>)
    requires Polled(c, candidate, term, rest)
    ensures AllowedRun(c, events) && Elected(After(c, events), candidate, term)
    ensures After(c, events).nodes.Keys == c.nodes.Keys
    decreases |rest|
  {
    hide Voters, Majority;
    if |rest| == 0 {
      AllVoted(c, candidate, term);
      events := [Lead(candidate, term)];
      assert events[1..] == [];
    } else {
      var v := Pick(rest);
      var e := Vote(v, candidate, term);
      PolledOneMore(c, candidate, term, rest, v);
      var more := Poll(Next(c, e), candidate, term, rest - {v});
      events := [e] + more;
      assert events[1..] == more;
    }
  }

  lemma PolledOneMore(c: Cluster, candidate: int, term: int, rest: set<int>, v: int)
    requires Polled(c, candidate, term, rest) && v in rest
    ensures Allowed(c, Vote(v, candidate, term))
    ensures Polled(Next(c, Vote(v, candidate, term)), candidate, term, rest - {v})
    ensures Next(c, Vote(v, candidate, term)).nodes.Keys == c.nodes.Keys
  {
    hide Voters, Majority;
  }

  lemma AllVoted(c: Cluster, candidate: int, term: int)
    requires Polled(c, candidate, term, {})
    ensures Allowed(c, Lead(candidate, term))
  {
    var voters := Voters(c, candidate, term);
    forall k | k in c.nodes.Keys
      ensures k in voters
    {
      assert Grant(k, candidate, term) in c.grants;
    }
    SubsetSize(c.nodes.Keys, voters);
    assert |c.nodes.Keys| == |c.nodes| > 0;
  }

  // ------------------------------------------------- the nodes behind the states

  ghost function StatesOf(nodes: map<int, KRaftNode>): map<int, Node>
    reads nodes.Values
  {
    map k | k in nodes :: nodes[k].State()
  }

  /** Delivering an event to the real nodes moves the cluster as `Next` says: the node
      concerned changes, all others stay as they are. */
  method Deliver(nodes: map<int, KRaftNode>, e: Event, ghost c: Cluster)
    requires forall k :: k in nodes ==> nodes[k].nodeId == k
    requires c.nodes == StatesOf(nodes) && At(e) in c.nodes
    modifies nodes[At(e)]
    ensures StatesOf(nodes) == Next(c, e).nodes
  {
    match e {
      case Vote(voter, candidate, term) =>
        var _, _ := nodes[voter].RequestVote(candidate, term);
      case Lead(node, term) =>
        nodes[node].BecomeLeader(term);
      case Follow(node, term, leaderId) =>
        nodes[node].BecomeFollower(term, leaderId);
    }
    assert forall k :: k in nodes && k != At(e) ==> nodes[k] != nodes[At(e)];
  }

  // --------------------------------------------- why the discipline is needed

  /** Three nodes after node 0 has won term 1 with its own vote and that of node 2. */
  const WON := Cluster(
    map[0 := Node(0, 1, 0, Leader, 0), 1 := Node(1, 0, NONE, Follower, NONE), 2 := Node(2, 1, 0, Follower, NONE)],
    {Grant(0, 0, 1), Grant(2, 0, 1)},
    {Election(0, 1)})

  const START := Cluster(
    map[0 := Node(0, 0, NONE, Follower, NONE),
        1 := Node(1, 0, NONE, Follower, NONE),
        2 := Node(2, 0, NONE, Follower, NONE)],
    {}, {})

  /** An ordinary election leads there: three allowed steps from the start. */
  lemma WonIsReachable()
    ensures Init(START) && Allowed(START, Vote(0, 0, 1))
    ensures var one := Next(START, Vote(0, 0, 1));
            && Allowed(one, Vote(2, 0, 1))
            && var two := Next(one, Vote(2, 0, 1));
            Allowed(two, Lead(0, 1)) && Next(two, Lead(0, 1)) == WON
  {
    var c := Next(Next(START, Vote(0, 0, 1)), Vote(2, 0, 1));
    assert c.nodes[0 := AfterLead(c.nodes[0], 1)] == WON.nodes;
    TwoOfThree(c, 0, 1, 0, 2);
  }

  /** Node 2 is told to follow node 0 in term 1, its own term. */
  function Misled(): (c: Cluster)
    ensures c.nodes.Keys == {0, 1, 2}
  {
    Next(WON, Follow(2, 1, 0))
  }

  /** The cluster after that, and after nodes 1 and 2 have voted for node 1 in that term. */
  function Revoted(): Cluster
  {
    Next(Next(Misled(), Vote(1, 1, 1)), Vote(2, 1, 1))
  }

  lemma RevotedGrants()
    ensures Revoted().nodes.Keys == {0, 1, 2}
    ensures Grant(1, 1, 1) in Revoted().grants && Grant(2, 1, 1) in Revoted().grants
    ensures Revoted().nodes[0] == WON.nodes[0] && Revoted().nodes[1].term == 1
  {
  }

  /** One call that breaks the discipline, an instruction to follow in a term that is not
      higher, is enough for two leaders of one term, every other step being allowed. */
  lemma SameTermFollowElectsTwoLeaders()
    ensures Inv(WON) && !Allowed(WON, Follow(2, 1, 0))
    ensures Allowed(Misled(), Vote(1, 1, 1)) && Allowed(Next(Misled(), Vote(1, 1, 1)), Vote(2, 1, 1))
    ensures Allowed(Revoted(), Lead(1, 1))
    ensures var d := Next(Revoted(), Lead(1, 1));
            d.nodes[0].role == Leader && d.nodes[1].role == Leader && d.nodes[0].term == d.nodes[1].term
  {
    hide Revoted;
    RevotedGrants();
    WonInv();
    TwoOfThree(Revoted(), 1, 1, 1, 2);
  }

  lemma WonInv()
    ensures Inv(WON)
  {
    TwoOfThree(WON, 0, 1, 0, 2);
  }

  /** Two grants make a majority of three nodes. */
  lemma TwoOfThree(c: Cluster, candidate: int, term: int, a: int, b: int)
    requires a != b && c.nodes.Keys == {0, 1, 2}
    requires Grant(a, candidate, term) in c.grants && Grant(b, candidate, term) in c.grants
    ensures a in Voters(c, candidate, term) && Majority(c, Voters(c, candidate, term))
  {
    assert {a, b} <= Voters(c, candidate, term);
    SubsetSize({a, b}, Voters(c, candidate, term));
    assert |c.nodes| == |c.nodes.Keys| == 3;
  }
}
