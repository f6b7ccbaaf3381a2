/** Consumer groups: membership, leadership and session timeouts
    (internal/coordinator/group.go). */
module Groups {
  import opened Bytes
  import opened Seqs

  datatype Status = Empty | PreparingRebalance | CompletingRebalance | Stable | Dead

  datatype Member = Member(lastHeartbeat: int, sessionTimeout: int)

  datatype Group = Group(status: Status, leader: string, generation: int32, members: map<string, Member>)

  const EMPTY_GROUP := Group(Empty, "", 0, map[])

  /** A group with members has one of them as its leader; a group without members has none
      and is in state Empty. */
  predicate GroupOk(g: Group)
  {
    && "" !in g.members
    && (g.members != map[] ==> g.leader in g.members && g.status != Empty)
    && (g.members == map[] ==> g.leader == "" && g.status == Empty)
  }

  /** A group that only the coordinator's own operations have touched. */
  predicate Unsettled(g: Group)
  {
    g.members != map[] ==> g.status == PreparingRebalance
  }

  predicate Expired(m: Member, now: int)
  {
    now - m.lastHeartbeat > m.sessionTimeout
  }

  function Survivors(g: Group, now: int): map<string, Member>
  {
    map id | id in g.members && !Expired(g.members[id], now) :: g.members[id]
  }

  function Casualties(g: Group, now: int): set<string>
  {
    set id | id in g.members && Expired(g.members[id], now)
  }

  // ------------------------------------------------- what an operation may do

  datatype Change =
    | Join(id: string, member: Member)
    | Leave(id: string)
    | Beat(id: string, now: int)
    | Timeout(now: int)

  /** `AddMember` on its group. */
  function Joined(g: Group, id: string, m: Member): Group
  {
    var members := g.members[id := m];
    Group(PreparingRebalance, if g.leader == "" || |members| == 1 then id else g.leader,
          AsInt32(g.generation + 1), members)
  }

  /** `RemoveMember`: the new leader, if one is needed, is any remaining member. */
  predicate Left(g: Group, id: string, h: Group)
  {
    && id in g.members
    && h.members == g.members - {id}
    && if h.members == map[] then h == Group(Empty, "", g.generation, map[])
       else
         && h.status == PreparingRebalance && h.generation == AsInt32(g.generation + 1)
         && (if g.leader == id then h.leader in h.members else h.leader == g.leader)
  }

  /** `Heartbeat` on its group: it counts only for a member of a group that is not
      rebalancing. */
  function Beaten(g: Group, id: string, now: int): Group
  {
    if id in g.members && g.status != PreparingRebalance
    then g.(members := g.members[id := g.members[id].(lastHeartbeat := now)])
    else g
  }

  /** `CheckHeartbeatTimeouts` on one group, whatever order its members are visited in:
      exactly the unexpired members remain, and the generation advances by the number of
      evictions, less one if the group emptied. */
  predicate TimedOut(g: Group, now: int, h: Group)
  {
    var n := |Casualties(g, now)|;
    if n == 0 then h == g
    else
      && h.members == Survivors(g, now)
      && (if h.members == map[] then
            h.status == Empty && h.leader == "" && h.generation == AsInt32(g.generation + n - 1)
          else
            && h.status == PreparingRebalance && h.generation == AsInt32(g.generation + n)
            && h.leader in h.members && (g.leader in h.members ==> h.leader == g.leader))
  }

  predicate Changes(g: Group, c: Change, h: Group)
  {
    match c
    case Join(id, m) => id != "" && h == Joined(g, id, m)
    case Leave(id) => Left(g, id, h)
    case Beat(id, now) => h == Beaten(g, id, now)
    case Timeout(now) => TimedOut(g, now, h)
  }

  lemma ChangeKeepsOk(g: Group, c: Change, h: Group)
    requires GroupOk(g) && Changes(g, c, h)
    ensures GroupOk(h) && (Unsettled(g) ==> Unsettled(h))
  {
    hide AsInt32, Casualties;
    if c.Join? || (c.Beat? && c.id in g.members) {
      assert c.id in h.members;
    }
  }

  ghost predicate IsHistory(states: seq<Group>, changes: seq<Change>)
  {
    && |states| == |changes| + 1
    && states[0] == EMPTY_GROUP
    && forall i :: 0 <= i < |changes| ==> Changes(states[i], changes[i], states[i + 1])
  }

  /** Every group that joins, leaves and timeouts can produce has a leader among its members
      or is properly empty, and never leaves the rebalancing state. */
  lemma {:induction false} HistoryKeepsLeader(states: seq<Group>, changes: seq<Change>, i: nat)
    requires IsHistory(states, changes) && i < |states|
    ensures GroupOk(states[i]) && Unsettled(states[i])
  {
    hide Changes, GroupOk, Unsettled;
    if i == 0 {
      EmptyGroupOk();
    } else {
      HistoryKeepsLeader(states, changes, i - 1);
      ChangeKeepsOk(states[i - 1], changes[i - 1], states[i]);
    }
  }

  /** No operation of the coordinator ever ends a rebalance, so in any such history a
      heartbeat has no effect at all: members expire however often they beat. */
  lemma HeartbeatsNeverCount(states: seq<Group>, changes: seq<Change>, i: nat)
    requires IsHistory(states, changes) && i < |changes| && changes[i].Beat?
    ensures states[i + 1] == states[i]
  {
    hide GroupOk;
    HistoryKeepsLeader(states, changes, i);
    var g := states[i];
    assert changes[i].id in g.members ==> g.members != map[];
  }

  /** A leader leads for as long as it is a member. */
  lemma LeaderStays(states: seq<Group>, changes: seq<Change>, i: nat)
    requires IsHistory(states, changes) && i < |changes|
    requires states[i].leader != "" && states[i].leader in states[i + 1].members
    ensures states[i + 1].leader == states[i].leader
  {
    hide AsInt32, Casualties;
    HistoryKeepsLeader(states, changes, i);
    assert Changes(states[i], changes[i], states[i + 1]);
    var g, c := states[i], changes[i];
    if c.Join? {
      OneMember(g, c.id, c.member);
    }
  }

  /** Whoever joins an empty group leads it. */
  lemma FirstMemberLeads(states: seq<Group>, changes: seq<Change>, i: nat)
    requires IsHistory(states, changes) && i < |changes| && changes[i].Join? && states[i].members == map[]
    ensures states[i + 1].leader == changes[i].id
  {
    hide AsInt32;
    HistoryKeepsLeader(states, changes, i);
    assert Changes(states[i], changes[i], states[i + 1]);
  }

  /** A join leaves the leadership alone unless the group was empty. */
  lemma OneMember(g: Group, id: string, m: Member)
    requires GroupOk(g)
    ensures Joined(g, id, m).leader == if g.members == map[] then id else g.leader
  {
    hide AsInt32;
    var members := g.members[id := m];
    if g.members == map[] {
      assert members.Keys == {id};
    } else if |members| == 1 {
      SubsetOfOne(members.Keys, id, g.leader);
    }
  }

  lemma SubsetOfOne(s: set<string>, a: string, b: string)
    requires |s| == 1 && a in s && b in s
    ensures a == b
  {
    assert |s - {a}| == 0;
    assert a != b ==> b in s - {a};
  }

  // ------------------------------------------------------------- who is a member

  /** The change takes the member with this record out of the group. */
  predicate Removes(c: Change, id: string, m: Member)
  {
    c == Leave(id) || (c.Timeout? && c.now - m.lastHeartbeat > m.sessionTimeout)
  }

  /** Change `j` let the member in, and nothing before change `i` has replaced or removed it. */
  predicate InSince(changes: seq<Change>, i: nat, j: nat, id: string, m: Member)
    requires j < i <= |changes|
  {
    && changes[j] == Join(id, m)
    && forall k :: j < k < i ==> !(changes[k].Join? && changes[k].id == id) && !Removes(changes[k], id, m)
  }

  predicate Has(g: Group, id: string, m: Member)
  {
    id in g.members && g.members[id] == m
  }

  /** Who is in a group, said about the history alone: exactly those who joined and have
      since neither joined anew nor left nor been timed out, with the clock reading and the
      session timeout of their last join. */
  lemma {:induction false} MembersAreTheJoined(states: seq<Group>, changes: seq<Change>, i: nat, id: string, m: Member)
    requires IsHistory(states, changes) && i < |states|
    ensures Has(states[i], id, m) <==> exists j :: 0 <= j < i && InSince(changes, i, j, id, m)
  {
    hide Changes, Has, InSince;
    if i == 0 {
      NobodyYet(id, m);
    } else {
      var n := i - 1;
      MembersAreTheJoined(states, changes, n, id, m);
      if changes[n].Beat? {
        HeartbeatsNeverCount(states, changes, n);
      }
      ChangeMembers(states[n], changes[n], states[i], id, m);
      forall j | 0 <= j < i
        ensures InSince(changes, i, j, id, m) <==>
                if j == n then changes[n] == Join(id, m)
                else InSince(changes, n, j, id, m) && !(changes[n].Join? && changes[n].id == id) &&
                     !Removes(changes[n], id, m)
      {
        InSinceStep(changes, n, j, id, m);
      }
      assert changes[n] == Join(id, m) ==> InSince(changes, i, n, id, m);
    }
  }

  lemma NobodyYet(id: string, m: Member)
    ensures !Has(EMPTY_GROUP, id, m)
  {
  }

  lemma InSinceStep(changes: seq<Change>, n: nat, j: nat, id: string, m: Member)
    requires j <= n < |changes|
    ensures InSince(changes, n + 1, j, id, m) <==>
            if j == n then changes[n] == Join(id, m)
            else InSince(changes, n, j, id, m) && !(changes[n].Join? && changes[n].id == id) &&
                 !Removes(changes[n], id, m)
  {
  }

  /** What one change does to one member. */
  lemma ChangeMembers(g: Group, c: Change, h: Group, id: string, m: Member)
    requires Changes(g, c, h) && (c.Beat? ==> h == g)
    ensures Has(h, id, m) <==>
            if c.Join? && c.id == id then c.member == m else Has(g, id, m) && !Removes(c, id, m)
  {
    hide AsInt32;
    if c.Timeout? {
      TimeoutMembers(g, c.now, h, id, m);
    }
  }

  lemma TimeoutMembers(g: Group, now: int, h: Group, id: string, m: Member)
    requires TimedOut(g, now, h)
    ensures Has(h, id, m) <==> Has(g, id, m) && !Removes(Timeout(now), id, m)
  {
    hide AsInt32;
    if |Casualties(g, now)| == 0 && id in g.members {
      assert id !in Casualties(g, now);
    }
  }

  /** By how much a change advances the generation. */
  function Advance(g: Group, c: Change): int
  {
    match c
    case Join(_, _) => 1
    case Leave(id) => if g.members - {id} == map[] then 0 else 1
    case Beat(_, _) => 0
    case Timeout(now) =>
      var n := |Casualties(g, now)|;
      if n > 0 && Survivors(g, now) == map[] then n - 1 else n
  }

  function Advances(states: seq<Group>, changes: seq<Change>, i: nat): int
    requires i <= |changes| < |states|
  {
    if i == 0 then 0 else Advances(states, changes, i - 1) + Advance(states[i - 1], changes[i - 1])
  }

  lemma ChangeAdvances(g: Group, c: Change, h: Group)
    requires Changes(g, c, h)
    ensures h.generation == AsInt32(g.generation + Advance(g, c))
  {
    hide AsInt32, Casualties, Survivors;
    SameGeneration(g.generation);
  }

  /** The generation of a group counts, in 32 bits, its joins, the leaves that left members
      behind, and its evictions less one for every timeout that emptied it. */
  lemma {:induction false} GenerationCounts(states: seq<Group>, changes: seq<Change>, i: nat)
    requires IsHistory(states, changes) && i < |states|
    ensures states[i].generation == AsInt32(Advances(states, changes, i))
  {
    hide Changes, Advance, AsInt32;
    if i == 0 {
      SameGeneration(0);
    } else {
      GenerationCounts(states, changes, i - 1);
      ChangeAdvances(states[i - 1], changes[i - 1], states[i]);
      PlusInt32(Advances(states, changes, i - 1), Advance(states[i - 1], changes[i - 1]));
    }
  }

  lemma PlusInt32(a: int, k: int)
    ensures AsInt32(AsInt32(a) + k) == AsInt32(a + k)
  {
    hide AsInt32, U32;
    var b := AsInt32(a);
    WholeTurns(b, a);
    Turned(a + k, (b - a) / TWO_32);
  }

  lemma WholeTurns(a: int, b: int)
    requires U32(a) == U32(b)
    ensures a - b == TWO_32 * ((a - b) / TWO_32)
  {
  }

  lemma Turned(x: int, q: int)
    ensures AsInt32(x + TWO_32 * q) == AsInt32(x)
  {
  }

  lemma EmptyGroupOk()
    ensures GroupOk(EMPTY_GROUP) && Unsettled(EMPTY_GROUP)
  {
  }

  /** A group that has lost a member to the timeout has lost exactly the expired ones. */
  lemma TimeoutPartitions(g: Group, now: int)
    ensures Survivors(g, now).Keys + Casualties(g, now) == g.members.Keys
    ensures Survivors(g, now).Keys !! Casualties(g, now)
    ensures |Survivors(g, now)| + |Casualties(g, now)| == |g.members|
  {
    assert Survivors(g, now).Keys + Casualties(g, now) == g.members.Keys;
  }

  // ------------------------------------------------------------ the eviction loop

  /** Who is in the group when the members in `rest` have not been visited yet. */
  ghost predicate MidwayMembers(g: Group, now: int, rest: set<string>, members: map<string, Member>,
                                evicted: seq<string>)
  {
    && rest <= members.Keys
    && (forall id :: id in members <==> id in g.members && (id in rest || !Expired(g.members[id], now)))
    && (forall id :: id in members ==> members[id] == g.members[id])
    && (forall id :: id in evicted <==> id in g.members && id !in rest && Expired(g.members[id], now))
    && |members| + |evicted| == |g.members| && Distinct(evicted)
    && "" !in members
  }

  /** Who leads it and where its generation stands after `n` evictions. */
  predicate MidwayHead(g: Group, h: Group, n: nat)
  {
    && (g.leader in h.members ==> h.leader == g.leader)
    && (if n == 0 then h == g
        else if h.members == map[] then
          h.leader == "" && h.status == Empty && h.generation == AsInt32(g.generation + n - 1)
        else
          h.leader in h.members && h.status == PreparingRebalance && h.generation == AsInt32(g.generation + n))
  }

  ghost predicate Midway(g: Group, now: int, rest: set<string>, h: Group, evicted: seq<string>)
  {
    MidwayMembers(g, now, rest, h.members, evicted) && MidwayHead(g, h, |evicted|)
  }

  lemma NextInt32(a: int, k: int)
    ensures AsInt32(AsInt32(a + k) + 1) == AsInt32(a + k + 1)
  {
    PlusInt32(a + k, 1);
  }

  lemma EvictMember(g: Group, now: int, rest: set<string>, members: map<string, Member>, evicted: seq<string>,
                    id: string)
    requires MidwayMembers(g, now, rest, members, evicted) && id in rest && Expired(g.members[id], now)
    ensures MidwayMembers(g, now, rest - {id}, members - {id}, evicted + [id])
  {
    hide Expired;
    var left := members - {id};
    assert left.Keys == members.Keys - {id};
    assert |left| == |members| - 1;
    DistinctConcat(evicted, [id]);
  }

  /** The group after evicting one member, with the leader the code picks. */
  function Evicted(h: Group, id: string, leader: string): Group
  {
    var left := h.members - {id};
    if left == map[] then h.(members := left, leader := leader, status := Empty)
    else h.(members := left, leader := leader, status := PreparingRebalance, generation := AsInt32(h.generation + 1))
  }

  /** Evicting one expired member. */
  lemma EvictStep(g: Group, now: int, rest: set<string>, h: Group, evicted: seq<string>, id: string, leader: string)
    requires GroupOk(g) && Midway(g, now, rest, h, evicted) && id in rest && Expired(g.members[id], now)
    requires var left := h.members - {id};
             if h.leader == id then (if left == map[] then leader == "" else leader in left) else leader == h.leader
    ensures Midway(g, now, rest - {id}, Evicted(h, id, leader), evicted + [id])
  {
    hide Expired, AsInt32, MidwayMembers, MidwayHead;
    EvictMember(g, now, rest, h.members, evicted, id);
    MemberUnchanged(g, now, rest, h, evicted, id);
    LeaderIsMember(g, now, rest, h, evicted);
    EvictHead(g, h, |evicted|, id, leader);
  }

  lemma EvictHead(g: Group, h: Group, n: nat, id: string, leader: string)
    requires MidwayHead(g, h, n) && h.leader in h.members && id in h.members
    requires var left := h.members - {id};
             if h.leader == id then (if left == map[] then leader == "" else leader in left) else leader == h.leader
    ensures MidwayHead(g, Evicted(h, id, leader), n + 1)
  {
    hide AsInt32;
    NextInt32(g.generation, n);
    SameGeneration(g.generation);
    if h.members - {id} == map[] {
      OnlyMember(h.members, id, h.leader);
    }
  }

  lemma SameGeneration(x: int32)
    ensures AsInt32(x) == x
  {
  }

  lemma LeaderIsMember(g: Group, now: int, rest: set<string>, h: Group, evicted: seq<string>)
    requires GroupOk(g) && Midway(g, now, rest, h, evicted) && h.members != map[]
    ensures h.leader in h.members
  {
    hide Expired, AsInt32;
  }

  lemma OnlyMember(members: map<string, Member>, id: string, other: string)
    requires members - {id} == map[] && other in members
    ensures other == id
  {
    assert other != id ==> other in members - {id};
  }

  lemma KeepStep(g: Group, now: int, rest: set<string>, h: Group, evicted: seq<string>, id: string)
    requires Midway(g, now, rest, h, evicted) && id in rest && !Expired(g.members[id], now)
    ensures Midway(g, now, rest - {id}, h, evicted)
  {
    hide Expired, AsInt32;
  }

  lemma MidwayStart(g: Group, now: int)
    requires GroupOk(g)
    ensures Midway(g, now, g.members.Keys, g, [])
  {
  }

  lemma MidwayMembersEnd(g: Group, now: int, members: map<string, Member>, evicted: seq<string>)
    requires MidwayMembers(g, now, {}, members, evicted)
    ensures members == Survivors(g, now) && |evicted| == |Casualties(g, now)|
    ensures Distinct(evicted) && forall id :: id in evicted <==> id in Casualties(g, now)
  {
    hide Expired;
    assert members == Survivors(g, now);
    TimeoutPartitions(g, now);
  }

  lemma MidwayEnd(g: Group, now: int, h: Group, evicted: seq<string>)
    requires GroupOk(g) && Midway(g, now, {}, h, evicted)
    ensures TimedOut(g, now, h) && |evicted| == |Casualties(g, now)|
    ensures Distinct(evicted) && forall id :: id in evicted <==> id in Casualties(g, now)
  {
    hide AsInt32, MidwayMembers, Survivors, Casualties;
    MidwayMembersEnd(g, now, h.members, evicted);
  }

  /** The inner loop of `CheckHeartbeatTimeouts`: members in any order, any new leader. */
  method EvictExpired(g: Group, now: int) returns (h: Group, evicted: seq<string>)
    requires GroupOk(g)
    ensures TimedOut(g, now, h) && |evicted| == |Casualties(g, now)|
    ensures Distinct(evicted) && forall id :: id in evicted <==> id in Casualties(g, now)
  {
    hide Midway, GroupOk, TimedOut, Casualties, AsInt32;
    h, evicted := g, [];
    var rest := g.members.Keys;
    MidwayStart(g, now);
    while rest != {}
      invariant Midway(g, now, rest, h, evicted)
      decreases |rest|
    {
      var id :| id in rest;
      MemberUnchanged(g, now, rest, h, evicted, id);
      var member := h.members[id];
      if now - member.lastHeartbeat > member.sessionTimeout {
        var left := h.members - {id};
        var leader := h.leader;
        if leader == id {
          leader := "";
          if left != map[] {
            SomeKey(left);
            leader :| leader in left;
          }
        }
        EvictStep(g, now, rest, h, evicted, id, leader);
        h := h.(members := left, leader := leader);
        assert left == map[] <==> |left| == 0;
        if |left| == 0 {
          h := h.(status := Empty);
        } else {
          h := h.(status := PreparingRebalance, generation := AsInt32(h.generation + 1));
        }
        evicted := evicted + [id];
      } else {
        KeepStep(g, now, rest, h, evicted, id);
      }
      rest := rest - {id};
    }
    MidwayEnd(g, now, h, evicted);
  }

  /** A timeout in plain terms. */
  lemma TimedOutIs(g: Group, now: int, h: Group)
    requires TimedOut(g, now, h)
    ensures var n := |Casualties(g, now)|;
            && (n == 0 ==> h == g)
            && (forall id :: id in h.members <==>
                  id in g.members && now - g.members[id].lastHeartbeat <= g.members[id].sessionTimeout)
            && (forall id :: id in h.members ==> h.members[id] == g.members[id])
            && h.generation == AsInt32(g.generation + n - (if h.members == map[] && n > 0 then 1 else 0))
            && (n > 0 ==> h.status == if h.members == map[] then Empty else PreparingRebalance)
            && (h.members != map[] && n > 0 ==> h.leader in h.members)
            && (g.leader in h.members ==> h.leader == g.leader)
  {
    hide AsInt32;
    SameGeneration(g.generation);
    assert g.leader in h.members ==> h.members != map[];
    forall id | id in g.members
      ensures id in Casualties(g, now) <==> now - g.members[id].lastHeartbeat > g.members[id].sessionTimeout
    {
    }
  }

  lemma SomeKey(m: map<string, Member>)
    requires m != map[]
    ensures exists k :: k in m
  {
    assert m.Keys == {} ==> m == map[];
  }

  lemma MemberUnchanged(g: Group, now: int, rest: set<string>, h: Group, evicted: seq<string>, id: string)
    requires Midway(g, now, rest, h, evicted) && id in rest
    ensures id in h.members && id in g.members && h.members[id] == g.members[id]
  {
    hide AsInt32, Expired;
  }

  // ------------------------------------------------------------- the coordinator

  datatype Outcome =
    | Ok
    | EmptyGroupId
    | TooManyGroups
    | GroupNotFound
    | MemberNotFound
    | UnknownMember
    | RebalanceInProgress

  predicate AllOk(groups: map<string, Group>)
  {
    forall id :: id in groups ==> GroupOk(groups[id])
  }

  class GroupCoordinator {
    var groups: map<string, Group>
    var maxGroups: int

    constructor ()
      ensures groups == map[] && maxGroups == 0
    {
      groups, maxGroups := map[], 0;
    }

    ghost predicate Valid()
      reads this
    {
      AllOk(groups)
    }

    /** `GetOrCreateGroup`: an unknown group is created empty unless the cap is reached. */
    method GetOrCreateGroup(groupId: string) returns (ok: bool)
      requires Valid()
      modifies this`groups
      ensures Valid()
      ensures ok == (groupId in old(groups) || maxGroups <= 0 || |old(groups)| < maxGroups)
      ensures groups == if ok && groupId !in old(groups) then old(groups)[groupId := EMPTY_GROUP] else old(groups)
      ensures maxGroups > 0 && |old(groups)| <= maxGroups ==> |groups| <= maxGroups
    {
      hide GroupOk;
      EmptyGroupOk();
      if groupId !in groups {
        if maxGroups > 0 && |groups| >= maxGroups {
          return false;
        }
        assert groups[groupId := EMPTY_GROUP].Keys == groups.Keys + {groupId};
        groups := groups[groupId := EMPTY_GROUP];
      }
      ok := true;
    }

    /** `AddMember`; `uuid` stands for the generated suffix and `now` for the clock. */
    method AddMember(groupId: string, clientId: string, uuid: string, sessionTimeout: int, now: int)
      returns (outcome: Outcome, memberId: string)
      requires Valid()
      modifies this`groups
      ensures Valid()
      ensures outcome == if groupId == "" then EmptyGroupId
                         else if groupId in old(groups) || maxGroups <= 0 || |old(groups)| < maxGroups then Ok
                         else TooManyGroups
      ensures outcome != Ok ==> groups == old(groups)
      ensures outcome == Ok ==>
                && memberId == clientId + "-" + uuid
                && var group := if groupId in old(groups) then old(groups)[groupId] else EMPTY_GROUP;
                && groups == old(groups)[groupId := Joined(group, memberId, Member(now, sessionTimeout))]
                && groups[groupId].members == group.members[memberId := Member(now, sessionTimeout)]
                && groups[groupId].leader == (if group.members == map[] then memberId else group.leader)
                && groups[groupId].status == PreparingRebalance
                && groups[groupId].generation == AsInt32(group.generation + 1)
    {
      hide GroupOk, AsInt32;
      memberId := "";
      if groupId == "" {
        return EmptyGroupId, memberId;
      }
      var ok := GetOrCreateGroup(groupId);
      if !ok {
        return TooManyGroups, memberId;
      }
      memberId := clientId + "-" + uuid;
      ghost var g := groups[groupId];
      OneMember(g, memberId, Member(now, sessionTimeout));
      var group := JoinGroup(groups[groupId], memberId, Member(now, sessionTimeout));
      ChangeKeepsOk(g, Join(memberId, Member(now, sessionTimeout)), group);
      groups := groups[groupId := group];
      outcome := Ok;
    }

    /** `RemoveMember`. */
    method RemoveMember(groupId: string, memberId: string) returns (outcome: Outcome)
      requires Valid()
      modifies this`groups
      ensures Valid()
      ensures outcome == if groupId !in old(groups) then GroupNotFound
                         else if memberId !in old(groups)[groupId].members then MemberNotFound else Ok
      ensures outcome != Ok ==> groups == old(groups)
      ensures outcome == Ok ==>
                && groupId in groups && groups == old(groups)[groupId := groups[groupId]]
                && Left(old(groups)[groupId], memberId, groups[groupId])
      ensures outcome == Ok ==>
                var g, h := old(groups)[groupId], groups[groupId];
                && h.members == g.members - {memberId}
                && (h.members == map[] ==> h == Group(Empty, "", g.generation, map[]))
                && (h.members != map[] ==>
                      && h.status == PreparingRebalance && h.generation == AsInt32(g.generation + 1)
                      && h.leader in h.members && (g.leader != memberId ==> h.leader == g.leader))
    {
      hide AsInt32;
      if groupId !in groups {
        return GroupNotFound;
      }
      var group := groups[groupId];
      if memberId !in group.members {
        return MemberNotFound;
      }
      var left := LeaveGroup(group, memberId);
      ChangeKeepsOk(group, Leave(memberId), left);
      groups := groups[groupId := left];
      outcome := Ok;
    }

    /** `Heartbeat`: refused while the group is rebalancing. */
    method Heartbeat(groupId: string, memberId: string, now: int) returns (outcome: Outcome)
      requires Valid()
      modifies this`groups
      ensures Valid()
      ensures outcome == if groupId !in old(groups) then GroupNotFound
                         else if memberId !in old(groups)[groupId].members then UnknownMember
                         else if old(groups)[groupId].status == PreparingRebalance then RebalanceInProgress else Ok
      ensures outcome != Ok ==> groups == old(groups)
      ensures groupId in old(groups) ==>
                groups == old(groups)[groupId := Beaten(old(groups)[groupId], memberId, now)]
      ensures outcome == Ok ==>
                var group := old(groups)[groupId];
                var beat := Member(now, group.members[memberId].sessionTimeout);
                groups == old(groups)[groupId := group.(members := group.members[memberId := beat])]
    {
      hide GroupOk;
      if groupId !in groups {
        return GroupNotFound;
      }
      var group := groups[groupId];
      if memberId !in group.members {
        return UnknownMember;
      }
      if group.status == PreparingRebalance {
        return RebalanceInProgress;
      }
      var member := group.members[memberId];
      ChangeKeepsOk(group, Beat(memberId, now), Beaten(group, memberId, now));
      groups := groups[groupId := group.(members := group.members[memberId := member.(lastHeartbeat := now)])];
      outcome := Ok;
    }

    /** `CheckHeartbeatTimeouts`: every group, in any order. */
    method CheckHeartbeatTimeouts(now: int) returns (evicted: seq<(string, string)>)
      requires Valid()
      modifies this`groups
      ensures Valid() && groups.Keys == old(groups).Keys
      ensures forall id :: id in groups ==> TimedOut(old(groups)[id], now, groups[id])
      ensures Distinct(evicted)
      ensures forall id, m :: (id, m) in evicted <==>
                && id in old(groups) && m in old(groups)[id].members
                && now - old(groups)[id].members[m].lastHeartbeat > old(groups)[id].members[m].sessionTimeout
    {
      hide GroupOk, TimedOut, Casualties, Distinct;
      EmptyDistinct();
      evicted := [];
      var rest := groups.Keys;
      ghost var start := groups;
      while rest != {}
        invariant rest <= groups.Keys && groups.Keys == start.Keys && Valid()
        invariant forall id :: id in groups && id in rest ==> groups[id] == start[id]
        invariant forall id :: id in groups && id !in rest ==> TimedOut(start[id], now, groups[id])
        invariant forall id, m :: (id, m) in evicted <==> id in start && id !in rest && m in Casualties(start[id], now)
        invariant Distinct(evicted)
        decreases |rest|
      {
        var id :| id in rest;
        var group, members := EvictExpired(groups[id], now);
        ChangeKeepsOk(groups[id], Timeout(now), group);
        var pairs := Tag(id, members);
        groups := groups[id := group];
        TaggedApart(evicted, pairs, id);
        evicted := evicted + pairs;
        rest := rest - {id};
      }
      forall id, m
        ensures (id, m) in evicted <==>
                && id in start && m in start[id].members
                && now - start[id].members[m].lastHeartbeat > start[id].members[m].sessionTimeout
      {
        if id in start {
          CasualtiesAre(start[id], now, m);
        }
      }
    }
  }

  lemma CasualtiesAre(g: Group, now: int, m: string)
    ensures m in Casualties(g, now) <==>
            m in g.members && now - g.members[m].lastHeartbeat > g.members[m].sessionTimeout
  {
  }

  lemma TaggedApart(evicted: seq<(string, string)>, pairs: seq<(string, string)>, id: string)
    requires Distinct(evicted) && Distinct(pairs)
    requires (forall m :: (id, m) !in evicted) && (forall x, m :: (x, m) in pairs ==> x == id)
    ensures Distinct(evicted + pairs)
  {
    forall p | p in evicted
      ensures p !in pairs
    {
      assert p == (p.0, p.1) && (id, p.1) !in evicted;
    }
    DistinctConcat(evicted, pairs);
  }

  lemma EmptyDistinct()
    ensures Distinct<(string, string)>([])
  {
  }

  method Tag(id: string, members: seq<string>) returns (pairs: seq<(string, string)>)
    requires Distinct(members)
    ensures Distinct(pairs) && forall x, m :: (x, m) in pairs <==> x == id && m in members
  {
    pairs := [];
    for i := 0 to |members|
      invariant |pairs| == i && forall k :: 0 <= k < i ==> pairs[k] == (id, members[k])
      invariant forall x, m :: (x, m) in pairs <==> x == id && m in members[..i]
    {
      assert members[..i + 1] == members[..i] + [members[i]];
      pairs := pairs + [(id, members[i])];
    }
    assert members[..|members|] == members;
  }

  /** The body of `AddMember` once the group is at hand. */
  method JoinGroup(g: Group, id: string, m: Member) returns (h: Group)
    ensures h == Joined(g, id, m)
  {
    var members := g.members[id := m];
    var leader := g.leader;
    if leader == "" || |members| == 1 {
      leader := id;
    }
    h := Group(PreparingRebalance, leader, AsInt32(g.generation + 1), members);
  }

  /** The body of `RemoveMember` once the member is found. */
  method LeaveGroup(g: Group, id: string) returns (h: Group)
    requires id in g.members
    ensures Left(g, id, h)
  {
    hide AsInt32;
    var members := g.members - {id};
    h := g.(members := members);
    if |members| == 0 {
      h := h.(status := Empty, leader := "");
    } else {
      if h.leader == id {
        SomeKey(members);
        var leader :| leader in members;
        h := h.(leader := leader);
      }
      h := h.(status := PreparingRebalance, generation := AsInt32(h.generation + 1));
    }
  }
}
