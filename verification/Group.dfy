/** Consumer groups as values: what each coordinator operation makes of a group, and what whole runs
    of operations guarantee. */
module Groups {
  import opened Wrappers
  import opened Seqs
  import opened Sorting
  import opened Assignors

  datatype State = Empty | PreparingRebalance | CompletingRebalance | Stable

  datatype Member = Member(topics: seq<string>, lastHeartbeat: int, joined: bool, synced: bool,
                           assignment: Option<Assignment>)

  datatype Group = Group(state: State, generation: int, members: map<string, Member>, leader: string)

  datatype Error = UnknownMember | GenerationMismatch | RebalanceInProgress | UnknownGroup

  /** Partition ids of each topic, as the metadata has them at some moment; an unknown topic has none. */
  type Partitions = map<string, seq<int>>

  function NewGroup(): Group {
    Group(Empty, 0, map[], "")
  }

  function PartitionsOf(parts: Partitions, topic: string): seq<int> {
    if topic in parts then parts[topic] else []
  }

  // ---------------------------------------------------------------------------------------------
  // Ids and topics of the members
  // ---------------------------------------------------------------------------------------------

  ghost function Enumerate(s: set<string>): (e: seq<string>)
    ensures Distinct(e) && forall x :: x in e <==> x in s
  {
    if s == {} then []
    else
      var x :| x in s;
      var rest := Enumerate(s - {x});
      assert forall i :: 0 <= i < |rest| ==> rest[i] in s - {x};
      [x] + rest
  }

  ghost function SortedIds(s: set<string>): seq<string> {
    SortStrings(Enumerate(s))
  }

  /** However the ids are collected, sorting them gives the same list: distinct, complete, least first. */
  lemma SortedIdsLaw(s: set<string>, collected: seq<string>)
    requires Distinct(collected) && forall x :: x in collected <==> x in s
    ensures SortStrings(collected) == SortedIds(s) == SortStrings(SortedIds(s))
    ensures Distinct(SortedIds(s)) && forall x :: x in SortedIds(s) <==> x in s
    ensures s != {} ==> SortedIds(s) != [] && SortedIds(s)[0] in s && forall x :: x in s ==> StrLe(SortedIds(s)[0], x)
  {
    var e := Enumerate(s);
    OrdersTotal();
    SameElements(collected, e);
    SortForgetsOrder(collected, e, StrLe);
    SortLaw(e, StrLe);
    SortForgetsOrder(SortedIds(s), e, StrLe);
    SortedMembers(e);
    LeastFirst(s);
  }

  lemma LeastFirst(s: set<string>)
    requires Sorted(SortedIds(s), StrLe) && forall x :: x in SortedIds(s) <==> x in s
    ensures s != {} ==> SortedIds(s) != [] && SortedIds(s)[0] in s && forall x :: x in s ==> StrLe(SortedIds(s)[0], x)
  {
    hide SortedIds, StrLe;
    var ids := SortedIds(s);
    if s != {} {
      var y :| y in s;
      assert y in ids;
      forall x | x in s ensures StrLe(ids[0], x) {
        var k :| 0 <= k < |ids| && ids[k] == x;
        if k == 0 {
          StrLeReflexive(x);
        }
      }
    }
  }

  lemma {:induction false} SameElements(a: seq<string>, b: seq<string>)
    requires Distinct(a) && Distinct(b) && forall x :: x in a <==> x in b
    ensures multiset(a) == multiset(b)
  {
    DistinctCounts(a);
    DistinctCounts(b);
    forall x ensures multiset(a)[x] == multiset(b)[x] {
      assert x in a <==> x in multiset(a);
      assert x in b <==> x in multiset(b);
    }
  }

  ghost function Subscribed(members: map<string, Member>): set<string> {
    set id, t | id in members && t in members[id].topics :: t
  }

  predicate AllJoined(members: map<string, Member>) {
    forall id :: id in members ==> members[id].joined
  }

  predicate AllSynced(members: map<string, Member>) {
    forall id :: id in members ==> members[id].synced
  }

  // ---------------------------------------------------------------------------------------------
  // Operations
  // ---------------------------------------------------------------------------------------------

  function Reset(m: Member): Member {
    m.(joined := false, synced := false, assignment := None)
  }

  function BeginRebalance(g: Group): Group {
    Group(PreparingRebalance, g.generation + 1, map id | id in g.members :: Reset(g.members[id]), "")
  }

  function Unexpired(members: map<string, Member>, now: int, session: int): map<string, Member> {
    map id | id in members && now - members[id].lastHeartbeat <= session :: members[id]
  }

  /** The topics assigned from: what the members subscribe to, with the partitions known now. */
  ghost function AssignedFrom(members: map<string, Member>, parts: Partitions): Partitions {
    map t | t in Subscribed(members) :: PartitionsOf(parts, t)
  }

  ghost function FinishAssignment(g: Group, parts: Partitions): Group {
    if g.members == map[] then g.(state := Empty, leader := "")
    else
      var ids := SortedIds(g.members.Keys);
      var tp := AssignedFrom(g.members, parts);
      SortedIdsLaw(g.members.Keys, Enumerate(g.members.Keys));
      Group(CompletingRebalance, g.generation, Handout(g.members, ids, tp), ids[0])
  }

  /** Every member with its share, waiting for its sync. */
  function Handout(members: map<string, Member>, ids: seq<string>, tp: Partitions): map<string, Member> {
    map id | id in members :: members[id].(assignment := Some(RangeShare(ids, id, tp)), synced := false)
  }

  lemma HandoutLaw(members: map<string, Member>, ids: seq<string>, tp: Partitions)
    ensures Handout(members, ids, tp).Keys == members.Keys
    ensures Subscribed(Handout(members, ids, tp)) == Subscribed(members)
    ensures forall id :: id in members ==>
              var m := Handout(members, ids, tp)[id];
              m.assignment == Some(RangeShare(ids, id, tp)) && !m.synced && m.lastHeartbeat == members[id].lastHeartbeat
  {
    hide RangeShare;
    assert Handout(members, ids, tp).Keys == members.Keys;
  }

  ghost function MaybeCompleteJoin(g: Group, now: int, session: int, parts: Partitions): Group {
    var h := g.(members := Unexpired(g.members, now, session));
    if !AllJoined(h.members) && h.members != map[] then h else FinishAssignment(h, parts)
  }

  function Enter(g: Group, id: string, topics: seq<string>, now: int): Group {
    var m := if id in g.members then g.members[id] else Member([], 0, false, false, None);
    g.(members := g.members[id := m.(topics := topics, lastHeartbeat := now, synced := false)])
  }

  function MarkJoined(g: Group, id: string): Group {
    if id in g.members then g.(members := g.members[id := g.members[id].(joined := true)]) else g
  }

  ghost function JoinStep(g: Group, id: string, topics: seq<string>, now: int, session: int, parts: Partitions): Group {
    var entered := Enter(g, id, topics, now);
    var begun := if entered.state != PreparingRebalance then BeginRebalance(entered) else entered;
    MaybeCompleteJoin(MarkJoined(begun, id), now, session, parts)
  }

  datatype SyncResult =
    | SyncOk(assignment: Assignment, generation: int, state: State)
    | SyncError(error: Error, generation: int, group: Option<State>)

  function SyncRefusal(g: Group, id: string, generation: int): Option<Error> {
    if generation != g.generation then Some(GenerationMismatch)
    else if id !in g.members then Some(UnknownMember)
    else if g.state == PreparingRebalance then Some(RebalanceInProgress)
    else None
  }

  function SyncStep(g: Group, id: string, generation: int, now: int): (r: (Group, SyncResult)) {
    match SyncRefusal(g, id, generation)
    case Some(e) => (g, SyncError(e, g.generation, Some(g.state)))
    case None =>
      var members := g.members[id := g.members[id].(lastHeartbeat := now, synced := true)];
      var state := if g.state == CompletingRebalance && AllSynced(members) then Stable else g.state;
      var mine := if g.members[id].assignment.Some? then g.members[id].assignment.value else map[];
      (g.(members := members, state := state), SyncOk(mine, g.generation, state))
  }

  function HeartbeatRefusal(g: Group, id: string, generation: int): Option<Error> {
    if id !in g.members then Some(UnknownMember)
    else if generation != g.generation || g.state != Stable then Some(RebalanceInProgress)
    else None
  }

  function HeartbeatStep(g: Group, id: string, generation: int, now: int): Group {
    if HeartbeatRefusal(g, id, generation).Some? then g
    else g.(members := g.members[id := g.members[id].(lastHeartbeat := now)])
  }

  ghost function LeaveStep(g: Group, id: string, now: int, session: int, parts: Partitions): Group {
    MaybeCompleteJoin(BeginRebalance(g.(members := g.members - {id})), now, session, parts)
  }

  /** Some member has not been heard from for longer than `wait`. */
  predicate SomeStale(members: map<string, Member>, now: int, wait: int) {
    exists id :: id in members && now - members[id].lastHeartbeat > wait
  }

  /** Members still there once those that never rejoined in time are dropped. */
  function Rejoined(members: map<string, Member>, now: int, wait: int): map<string, Member> {
    map id | id in members && (members[id].joined || now - members[id].lastHeartbeat <= wait) :: members[id]
  }

  ghost function CompleteDelayed(g: Group, now: int, wait: int, parts: Partitions): Group {
    if g.state == PreparingRebalance && (AllJoined(g.members) || SomeStale(g.members, now, wait))
    then FinishAssignment(g.(members := Rejoined(g.members, now, wait)), parts)
    else g
  }

  ghost function ExpireStep(g: Group, now: int, session: int, wait: int, parts: Partitions): Group {
    var live := Unexpired(g.members, now, session);
    if live == g.members then CompleteDelayed(g, now, wait, parts)
    else if live == map[] then BeginRebalance(g.(members := live)).(state := Empty)
    else CompleteDelayed(BeginRebalance(g.(members := live)), now, wait, parts)
  }

  // ---------------------------------------------------------------------------------------------
  // One group under any operation
  // ---------------------------------------------------------------------------------------------

  datatype Op =
    | Join(id: string, topics: seq<string>)
    | Sync(id: string, generation: int)
    | Heartbeat(id: string, generation: int)
    | Leave(id: string)
    | Expire

  datatype Event = Event(op: Op, now: int, parts: Partitions)

  datatype Config = Config(session: int, wait: int)

  ghost function Step(g: Group, e: Event, cfg: Config): Group {
    match e.op
    case Join(id, topics) => JoinStep(g, id, topics, e.now, cfg.session, e.parts)
    case Sync(id, generation) => SyncStep(g, id, generation, e.now).0
    case Heartbeat(id, generation) => HeartbeatStep(g, id, generation, e.now)
    case Leave(id) => LeaveStep(g, id, e.now, cfg.session, e.parts)
    case Expire => ExpireStep(g, e.now, cfg.session, cfg.wait, e.parts)
  }

  predicate Assigned(g: Group) {
    g.state == CompletingRebalance || g.state == Stable
  }

  /** All assignments come from one run of the range assignor over the sorted member ids and `tp`. */
  ghost predicate AssignedBy(g: Group, tp: Partitions) {
    && tp.Keys == Subscribed(g.members)
    && (forall t :: t in tp ==> Distinct(tp[t]))
    && forall id :: id in g.members ==> g.members[id].assignment == Some(RangeShare(SortedIds(g.members.Keys), id, tp))
  }

  predicate Unassigned(members: map<string, Member>) {
    forall id :: id in members ==> !members[id].synced && members[id].assignment == None
  }

  ghost predicate Inv(g: Group) {
    && (g.state == Empty <==> g.members == map[])
    && (!Assigned(g) ==> g.leader == "" && Unassigned(g.members))
    && (Assigned(g) ==> SortedIds(g.members.Keys) != [] && g.leader == SortedIds(g.members.Keys)[0])
    && (Assigned(g) ==> exists tp :: AssignedBy(g, tp))
    && (g.state == Stable ==> AllSynced(g.members))
    && (g.state == CompletingRebalance ==> !AllSynced(g.members))
  }

  predicate PartsOk(parts: Partitions) {
    forall t :: t in parts ==> Distinct(parts[t])
  }

  lemma FinishAssigned(g: Group, parts: Partitions)
    requires PartsOk(parts) && g.members != map[]
    ensures AssignedBy(FinishAssignment(g, parts), AssignedFrom(g.members, parts))
  {
    hide SortedIds, RangeShare, Enumerate, Subscribed, Handout;
    SortedIdsLaw(g.members.Keys, Enumerate(g.members.Keys));
    HandoutLaw(g.members, SortedIds(g.members.Keys), AssignedFrom(g.members, parts));
  }

  lemma FinishInv(g: Group, parts: Partitions)
    requires PartsOk(parts) && Unassigned(g.members)
    ensures Inv(FinishAssignment(g, parts)) && FinishAssignment(g, parts).generation == g.generation
    ensures FinishAssignment(g, parts).state == if g.members == map[] then Empty else CompletingRebalance
    ensures FinishAssignment(g, parts).members.Keys == g.members.Keys
    ensures forall id :: id in g.members ==>
              FinishAssignment(g, parts).members[id].lastHeartbeat == g.members[id].lastHeartbeat
  {
    hide SortedIds, RangeShare, AssignedBy, AssignedFrom, Enumerate, Subscribed, Handout, StrLe, Distinct, SortStrings;
    if g.members != map[] {
      FinishAssigned(g, parts);
      SortedIdsLaw(g.members.Keys, Enumerate(g.members.Keys));
      HandoutLaw(g.members, SortedIds(g.members.Keys), AssignedFrom(g.members, parts));
      assert SortedIds(g.members.Keys)[0] in FinishAssignment(g, parts).members;
    }
  }

  lemma MaybeCompleteInv(g: Group, now: int, session: int, parts: Partitions)
    requires PartsOk(parts) && g.state == PreparingRebalance && g.leader == "" && Unassigned(g.members)
    ensures Inv(MaybeCompleteJoin(g, now, session, parts))
    ensures MaybeCompleteJoin(g, now, session, parts).generation == g.generation
  {
    hide FinishAssignment, SortedIds;
    FinishInv(g.(members := Unexpired(g.members, now, session)), parts);
  }

  lemma JoinInv(g: Group, id: string, topics: seq<string>, now: int, session: int, parts: Partitions)
    requires Inv(g) && PartsOk(parts)
    ensures Inv(JoinStep(g, id, topics, now, session, parts))
    ensures JoinStep(g, id, topics, now, session, parts).generation
            == g.generation + if g.state == PreparingRebalance then 0 else 1
  {
    hide MaybeCompleteJoin, SortedIds, AssignedBy;
    var entered := Enter(g, id, topics, now);
    var begun := if entered.state != PreparingRebalance then BeginRebalance(entered) else entered;
    MaybeCompleteInv(MarkJoined(begun, id), now, session, parts);
  }

  lemma SyncInv(g: Group, id: string, generation: int, now: int)
    requires Inv(g)
    ensures Inv(SyncStep(g, id, generation, now).0)
  {
    hide RangeShare, SortedIds;
    var h := SyncStep(g, id, generation, now).0;
    if SyncRefusal(g, id, generation) == None {
      SameAssignment(g, h);
    }
  }

  /** Refreshing members keeps the assignment they share. */
  lemma SameAssignment(g: Group, h: Group)
    requires Inv(g) && Assigned(g) && h.members.Keys == g.members.Keys
    requires forall id :: id in g.members ==>
               h.members[id].assignment == g.members[id].assignment && h.members[id].topics == g.members[id].topics
    ensures exists tp :: AssignedBy(h, tp)
  {
    hide RangeShare, SortedIds;
    var tp :| AssignedBy(g, tp);
    assert Subscribed(h.members) == Subscribed(g.members);
    assert AssignedBy(h, tp);
  }

  lemma HeartbeatInv(g: Group, id: string, generation: int, now: int)
    requires Inv(g)
    ensures Inv(HeartbeatStep(g, id, generation, now))
  {
    hide RangeShare, SortedIds;
    var h := HeartbeatStep(g, id, generation, now);
    if HeartbeatRefusal(g, id, generation) == None {
      SameAssignment(g, h);
    }
  }

  lemma CompleteDelayedInv(g: Group, now: int, wait: int, parts: Partitions)
    requires Inv(g) && PartsOk(parts)
    ensures Inv(CompleteDelayed(g, now, wait, parts)) && CompleteDelayed(g, now, wait, parts).generation == g.generation
  {
    hide FinishAssignment, SortedIds;
    if g.state == PreparingRebalance {
      FinishInv(g.(members := Rejoined(g.members, now, wait)), parts);
    }
  }

  lemma BeginInv(g: Group)
    requires g.members != map[]
    ensures Inv(BeginRebalance(g))
  {
    var some :| some in g.members;
    assert some in BeginRebalance(g).members;
  }

  lemma StepKeepsInv(g: Group, e: Event, cfg: Config)
    requires Inv(g) && PartsOk(e.parts)
    ensures Inv(Step(g, e, cfg)) && g.generation <= Step(g, e, cfg).generation
  {
    hide MaybeCompleteJoin, FinishAssignment, SortedIds, AssignedBy, JoinStep, CompleteDelayed;
    match e.op
    case Join(id, topics) => JoinInv(g, id, topics, e.now, cfg.session, e.parts);
    case Sync(id, generation) => SyncInv(g, id, generation, e.now);
    case Heartbeat(id, generation) => HeartbeatInv(g, id, generation, e.now);
    case Leave(id) => MaybeCompleteInv(BeginRebalance(g.(members := g.members - {id})), e.now, cfg.session, e.parts);
    case Expire =>
      var live := Unexpired(g.members, e.now, cfg.session);
      if live == g.members {
        CompleteDelayedInv(g, e.now, cfg.wait, e.parts);
      } else if live != map[] {
        BeginInv(g.(members := live));
        CompleteDelayedInv(BeginRebalance(g.(members := live)), e.now, cfg.wait, e.parts);
      }
  }

  // ---------------------------------------------------------------------------------------------
  // One assignment per generation
  // ---------------------------------------------------------------------------------------------

  /** Same members with the same topics and assignments. */
  predicate SameShares(g: Group, h: Group) {
    && g.members.Keys == h.members.Keys
    && forall id :: id in g.members ==>
         g.members[id].assignment == h.members[id].assignment && g.members[id].topics == h.members[id].topics
  }

  /** Once assigned, a group keeps its members and their assignments until its generation changes. */
  lemma Frozen(g: Group, e: Event, cfg: Config)
    requires Inv(g) && Assigned(g) && Step(g, e, cfg).generation == g.generation
    requires PartsOk(e.parts)
    ensures Assigned(Step(g, e, cfg)) && SameShares(g, Step(g, e, cfg))
  {
    hide MaybeCompleteJoin, FinishAssignment, SortedIds, AssignedBy, JoinStep, CompleteDelayed;
    match e.op
    case Join(id, topics) => JoinInv(g, id, topics, e.now, cfg.session, e.parts);
    case Sync(id, generation) =>
    case Heartbeat(id, generation) =>
    case Leave(id) =>
      assert Unassigned(BeginRebalance(g.(members := g.members - {id})).members);
      MaybeCompleteInv(BeginRebalance(g.(members := g.members - {id})), e.now, cfg.session, e.parts);
    case Expire =>
      var live := Unexpired(g.members, e.now, cfg.session);
      if live == g.members {
        NotDelayed(g, e.now, cfg.wait, e.parts);
      } else if live != map[] {
        BeginInv(g.(members := live));
        CompleteDelayedInv(BeginRebalance(g.(members := live)), e.now, cfg.wait, e.parts);
      }
  }

  lemma NotDelayed(g: Group, now: int, wait: int, parts: Partitions)
    requires g.state != PreparingRebalance
    ensures CompleteDelayed(g, now, wait, parts) == g
  {
  }

  ghost function Run(g: Group, events: seq<Event>, cfg: Config): Group {
    if events == [] then g else Step(Run(g, events[..|events| - 1], cfg), events[|events| - 1], cfg)
  }

  predicate AllPartsOk(events: seq<Event>) {
    forall i :: 0 <= i < |events| ==> PartsOk(events[i].parts)
  }

  lemma {:induction false} RunKeepsInv(g: Group, events: seq<Event>, cfg: Config)
    requires Inv(g) && AllPartsOk(events)
    ensures Inv(Run(g, events, cfg)) && g.generation <= Run(g, events, cfg).generation
  {
    hide Step, Inv;
    if events != [] {
      var front := events[..|events| - 1];
      RunKeepsInv(g, front, cfg);
      StepKeepsInv(Run(g, front, cfg), events[|events| - 1], cfg);
    }
  }

  lemma {:induction false} RunConcat(g: Group, a: seq<Event>, b: seq<Event>, cfg: Config)
    ensures Run(g, a + b, cfg) == Run(Run(g, a, cfg), b, cfg)
    decreases |b|
  {
    hide Step;
    if b == [] {
      assert a + b == a;
    } else {
      var n := |b| - 1;
      assert (a + b)[..|a + b| - 1] == a + b[..n];
      RunConcat(g, a, b[..n], cfg);
    }
  }

  /** Between two moments of one generation, the first of them assigned, nothing moves. */
  lemma {:induction false} FrozenRun(g: Group, events: seq<Event>, cfg: Config)
    requires Inv(g) && Assigned(g) && AllPartsOk(events) && Run(g, events, cfg).generation == g.generation
    ensures Assigned(Run(g, events, cfg)) && SameShares(g, Run(g, events, cfg))
  {
    hide Step, Inv, Assigned;
    if events != [] {
      var front, last := events[..|events| - 1], events[|events| - 1];
      RunKeepsInv(g, front, cfg);
      StepKeepsInv(Run(g, front, cfg), last, cfg);
      FrozenRun(g, front, cfg);
      Frozen(Run(g, front, cfg), last, cfg);
    }
  }

  /** What a group answers to a sync request at some point of a run. */
  function Answer(g: Group, id: string, generation: int, now: int): SyncResult {
    SyncStep(g, id, generation, now).1
  }

  /** Two successful syncs of one generation, anywhere in a run: a member always gets the same answer,
      and two members never share a partition of any topic. */
  lemma OneAssignmentPerGeneration(g: Group, first: seq<Event>, more: seq<Event>, cfg: Config,
                                   id1: string, id2: string, generation: int, now1: int, now2: int)
    requires Inv(g) && AllPartsOk(first) && AllPartsOk(more)
    requires Answer(Run(g, first, cfg), id1, generation, now1).SyncOk?
    requires Answer(Run(g, first + more, cfg), id2, generation, now2).SyncOk?
    ensures var a1 := Answer(Run(g, first, cfg), id1, generation, now1).assignment;
            var a2 := Answer(Run(g, first + more, cfg), id2, generation, now2).assignment;
            && (id1 == id2 ==> a1 == a2)
            && (id1 != id2 ==> forall t, x :: t in a1 && t in a2 && x in a1[t] ==> x !in a2[t])
  {
    hide Step, Run, Inv, RangeShare, SortedIds;
    var s1, s2 := Run(g, first, cfg), Run(g, first + more, cfg);
    RunConcat(g, first, more, cfg);
    RunKeepsInv(g, first, cfg);
    SyncedIsAssigned(s1, id1, generation);
    FrozenRun(s1, more, cfg);
    AssignmentsDisjoint(s1);
  }

  lemma SyncedIsAssigned(g: Group, id: string, generation: int)
    requires Inv(g) && SyncRefusal(g, id, generation) == None
    ensures Assigned(g) && g.generation == generation && id in g.members && g.members[id].assignment.Some?
  {
    hide RangeShare, SortedIds;
  }

  /** In an assigned group all members have an assignment, and different members never share a partition. */
  lemma AssignmentsDisjoint(g: Group)
    requires Inv(g) && Assigned(g)
    ensures forall id :: id in g.members ==> g.members[id].assignment.Some?
    ensures forall i, j, t, x ::
              (i in g.members && j in g.members && i != j
               && t in g.members[i].assignment.value && t in g.members[j].assignment.value
               && x in g.members[i].assignment.value[t]) ==> x !in g.members[j].assignment.value[t]
  {
    hide RangeShare, SortedIds;
    var tp :| AssignedBy(g, tp);
    forall i, j, t, x | i in g.members && j in g.members && i != j
                        && t in g.members[i].assignment.value && t in g.members[j].assignment.value
                        && x in g.members[i].assignment.value[t]
      ensures x !in g.members[j].assignment.value[t]
    {
      SharesDisjoint(g.members.Keys, tp, i, j, t, x);
    }
  }

  lemma SharesDisjoint(members: set<string>, tp: Partitions, i: string, j: string, t: string, x: int)
    requires i in members && j in members && i != j && forall t :: t in tp ==> Distinct(tp[t])
    requires t in RangeShare(SortedIds(members), i, tp) && t in RangeShare(SortedIds(members), j, tp)
    requires x in RangeShare(SortedIds(members), i, tp)[t]
    ensures x !in RangeShare(SortedIds(members), j, tp)[t]
  {
    hide SortInts;
    var ids := Enumerate(members);
    SortedIdsLaw(members, ids);
    hide SortedIds, Share;
    SharesFromParts(SortedIds(members), i, SortInts(tp[t]), |SortedIds(members)|, x);
    SortedMembersOf(tp[t], x);
    var owner := RangeExact(ids, tp[t], x);
  }

  lemma {:induction false} SharesFromParts(ms: seq<string>, m: string, parts: seq<int>, k: nat, x: int)
    requires k <= |ms| && x in Share(ms, m, parts, k)
    ensures x in parts
  {
    if k > 0 && x !in Slice(k - 1, parts, |ms|) {
      SharesFromParts(ms, m, parts, k - 1, x);
    }
  }

  lemma SortedMembersOf(parts: seq<int>, x: int)
    requires x in SortInts(parts)
    ensures x in parts
  {
    OrdersTotal();
    SortLaw(parts, IntLe);
    assert x in multiset(SortInts(parts));
  }

  /** The members' assignments divide the reading `tp` of the metadata: every partition of every topic
      that members subscribe to belongs to exactly one member, and nobody holds anything else. */
  ghost predicate Divides(g: Group, tp: Partitions) {
    && tp.Keys == Subscribed(g.members)
    && (forall id :: id in g.members ==> g.members[id].assignment.Some?)
    && (forall t, x :: t in tp && x in tp[t] ==> exists owner :: owner in g.members && OwnedOnlyBy(g, t, x, owner))
    && (forall id, t, x :: Holds(g, id, t, x) ==> t in tp && x in tp[t])
  }

  predicate Holds(g: Group, id: string, t: string, x: int) {
    && id in g.members && g.members[id].assignment.Some?
    && t in g.members[id].assignment.value && x in g.members[id].assignment.value[t]
  }

  /** What one run of the range assignor hands out divides the reading it was run on. */
  lemma AssignmentExact(g: Group, tp: Partitions)
    requires AssignedBy(g, tp) && g.members != map[]
    ensures Divides(g, tp)
  {
    hide RangeShare, SortedIds, OwnedOnlyBy;
    forall t, x | t in tp && x in tp[t]
      ensures exists owner :: owner in g.members && OwnedOnlyBy(g, t, x, owner)
    {
      var owner := OwnerOf(g, tp, t, x);
    }
    forall id, t, x | Holds(g, id, t, x)
      ensures t in tp && x in tp[t]
    {
      HeldIsRead(SortedIds(g.members.Keys), id, tp, t, x);
    }
  }

  lemma HeldIsRead(ids: seq<string>, id: string, tp: Partitions, t: string, x: int)
    requires t in RangeShare(ids, id, tp) && x in RangeShare(ids, id, tp)[t]
    ensures t in tp && x in tp[t]
  {
    hide Share, SortInts;
    SharesFromParts(ids, id, SortInts(tp[t]), |ids|, x);
    SortedMembersOf(tp[t], x);
  }

  /** A step that leaves the group assigned either kept an assignment it had, in the same generation, or
      made a new one from the metadata it read itself. */
  lemma StepAssigns(g: Group, e: Event, cfg: Config)
    requires Inv(g) && PartsOk(e.parts) && Assigned(Step(g, e, cfg))
    ensures var h := Step(g, e, cfg);
            || (Assigned(g) && h.generation == g.generation && SameShares(g, h))
            || ((!Assigned(g) || h.generation > g.generation) && AssignedBy(h, AssignedFrom(h.members, e.parts)))
  {
    hide FinishAssignment, SortedIds, AssignedBy, AssignedFrom, RangeShare;
    StepKeepsInv(g, e, cfg);
    match e.op
    case Join(id, topics) =>
      var entered := Enter(g, id, topics, e.now);
      var begun := MarkJoined(if entered.state != PreparingRebalance then BeginRebalance(entered) else entered, id);
      JoinInv(g, id, topics, e.now, cfg.session, e.parts);
      FinishReads(begun.(members := Unexpired(begun.members, e.now, cfg.session)), e.parts);
    case Sync(id, generation) =>
    case Heartbeat(id, generation) =>
    case Leave(id) =>
      var begun := BeginRebalance(g.(members := g.members - {id}));
      MaybeCompleteInv(begun, e.now, cfg.session, e.parts);
      FinishReads(begun.(members := Unexpired(begun.members, e.now, cfg.session)), e.parts);
    case Expire =>
      var live := Unexpired(g.members, e.now, cfg.session);
      if live == g.members {
        FinishReads(g.(members := Rejoined(g.members, e.now, cfg.wait)), e.parts);
      } else if live != map[] {
        var begun := BeginRebalance(g.(members := live));
        BeginInv(g.(members := live));
        CompleteDelayedInv(begun, e.now, cfg.wait, e.parts);
        FinishReads(begun.(members := Rejoined(begun.members, e.now, cfg.wait)), e.parts);
      }
  }

  lemma FinishReads(g: Group, parts: Partitions)
    requires PartsOk(parts)
    ensures var h := FinishAssignment(g, parts);
            && h.generation == g.generation
            && (Assigned(h) && g.state == PreparingRebalance ==> AssignedBy(h, AssignedFrom(h.members, parts)))
  {
    hide SortedIds, RangeShare, AssignedBy, AssignedFrom, Enumerate, Subscribed, Handout, StrLe, Distinct, SortStrings;
    if g.members != map[] {
      FinishAssigned(g, parts);
      SortedIdsLaw(g.members.Keys, Enumerate(g.members.Keys));
      HandoutLaw(g.members, SortedIds(g.members.Keys), AssignedFrom(g.members, parts));
      AssignedFromFrame(g.members, FinishAssignment(g, parts).members, parts);
    }
  }

  lemma AssignedFromFrame(a: map<string, Member>, b: map<string, Member>, parts: Partitions)
    requires Subscribed(a) == Subscribed(b)
    ensures AssignedFrom(a, parts) == AssignedFrom(b, parts)
  {
  }

  /** The event that made the assignment an assigned group has: the group was not assigned before it, or
      was in an earlier generation, and has kept members, topics and shares from it on. */
  ghost predicate MadeBy(g: Group, events: seq<Event>, i: int, cfg: Config) {
    && 0 <= i < |events|
    && var before, after, now := Run(g, events[..i], cfg), Run(g, events[..i + 1], cfg), Run(g, events, cfg);
    && (!Assigned(before) || before.generation < after.generation)
    && Assigned(after) && after.generation == now.generation && SameShares(after, now)
  }

  /** Over whole runs: the assignment of an assigned group was made by one event of the run, and divides
      the metadata as that event read it. */
  lemma {:induction false} AssignmentOfRun(events: seq<Event>, cfg: Config) returns (i: nat)
    requires AllPartsOk(events) && Assigned(Run(NewGroup(), events, cfg))
    ensures MadeBy(NewGroup(), events, i, cfg)
    ensures var h := Run(NewGroup(), events, cfg);
            && AssignedBy(h, AssignedFrom(h.members, events[i].parts))
            && Divides(h, AssignedFrom(h.members, events[i].parts))
  {
    hide Step, Inv, AssignedBy, AssignedFrom, Assigned, Divides, PartsOk;
    NewGroupInv();
    var n := |events| - 1;
    var front, e, h := events[..n], events[n], Run(NewGroup(), events, cfg);
    var g := Run(NewGroup(), front, cfg);
    RunKeepsInv(NewGroup(), front, cfg);
    RunKeepsInv(NewGroup(), events, cfg);
    StepAssigns(g, e, cfg);
    if Assigned(g) && h.generation == g.generation && SameShares(g, h) {
      i := AssignmentOfRun(front, cfg);
      assert front[..i] == events[..i] && front[..i + 1] == events[..i + 1];
      SharesStay(g, h, events[i].parts);
    } else {
      i := n;
      assert events[..n + 1] == events;
    }
    HasMembers(h);
    AssignmentExact(h, AssignedFrom(h.members, events[i].parts));
  }

  lemma NewGroupInv()
    ensures Inv(NewGroup()) && !Assigned(NewGroup())
  {
  }

  lemma HasMembers(g: Group)
    requires Inv(g) && Assigned(g)
    ensures g.members != map[]
  {
    hide AssignedBy, SortedIds;
  }

  lemma SharesStay(g: Group, h: Group, parts: Partitions)
    requires SameShares(g, h) && AssignedBy(g, AssignedFrom(g.members, parts))
    ensures AssignedBy(h, AssignedFrom(h.members, parts))
  {
    hide RangeShare, SortedIds;
    assert Subscribed(g.members) == Subscribed(h.members);
    AssignedFromFrame(g.members, h.members, parts);
  }

  /** `owner` has the partition, and no other member does. */
  predicate OwnedOnlyBy(g: Group, t: string, x: int, owner: string) {
    forall id :: id in g.members ==> (Holds(g, id, t, x) <==> id == owner)
  }

  lemma OwnerOf(g: Group, tp: Partitions, t: string, x: int) returns (owner: string)
    requires AssignedBy(g, tp) && g.members != map[] && t in tp && x in tp[t]
    ensures owner in g.members && OwnedOnlyBy(g, t, x, owner)
  {
    var ids := Enumerate(g.members.Keys);
    SortedIdsLaw(g.members.Keys, ids);
    hide SortedIds, Share, SortInts;
    var some :| some in g.members;
    assert some in ids;
    owner := RangeExact(ids, tp[t], x);
  }

  // ---------------------------------------------------------------------------------------------
  // A rebalance is over in bounded time
  // ---------------------------------------------------------------------------------------------

  predicate HeardBy(members: map<string, Member>, now: int) {
    forall id :: id in members ==> members[id].lastHeartbeat <= now
  }

  /** While the group is rebalancing, whoever has not rejoined was last heard from at `since` or before. */
  predicate LateSince(g: Group, since: int) {
    g.state == PreparingRebalance ==>
      forall id :: id in g.members && !g.members[id].joined ==> g.members[id].lastHeartbeat <= since
  }

  lemma FinishHeard(g: Group, parts: Partitions)
    ensures FinishAssignment(g, parts).members.Keys == g.members.Keys
    ensures FinishAssignment(g, parts).state != PreparingRebalance
    ensures forall id :: id in g.members ==>
              FinishAssignment(g, parts).members[id].lastHeartbeat == g.members[id].lastHeartbeat
  {
    hide SortedIds, Enumerate, Subscribed, Handout, AssignedFrom;
    if g.members != map[] {
      SortedIdsLaw(g.members.Keys, Enumerate(g.members.Keys));
      HandoutLaw(g.members, SortedIds(g.members.Keys), AssignedFrom(g.members, parts));
    }
  }

  lemma MaybeCompleteHeard(g: Group, now: int, session: int, parts: Partitions, clock: int, since: int)
    requires HeardBy(g.members, clock)
    ensures HeardBy(MaybeCompleteJoin(g, now, session, parts).members, clock)
    ensures LateSince(g, since) ==> LateSince(MaybeCompleteJoin(g, now, session, parts), since)
  {
    hide FinishAssignment;
    FinishHeard(g.(members := Unexpired(g.members, now, session)), parts);
  }

  lemma CompleteDelayedHeard(g: Group, now: int, wait: int, parts: Partitions, clock: int, since: int)
    requires HeardBy(g.members, clock)
    ensures HeardBy(CompleteDelayed(g, now, wait, parts).members, clock)
    ensures LateSince(g, since) ==> LateSince(CompleteDelayed(g, now, wait, parts), since)
  {
    hide FinishAssignment;
    FinishHeard(g.(members := Rejoined(g.members, now, wait)), parts);
  }

  lemma StepHeard(g: Group, e: Event, cfg: Config)
    requires HeardBy(g.members, e.now)
    ensures HeardBy(Step(g, e, cfg).members, e.now)
  {
    hide MaybeCompleteJoin, CompleteDelayed;
    match e.op
    case Join(id, topics) =>
      var entered := Enter(g, id, topics, e.now);
      var begun := if entered.state != PreparingRebalance then BeginRebalance(entered) else entered;
      MaybeCompleteHeard(MarkJoined(begun, id), e.now, cfg.session, e.parts, e.now, e.now);
    case Sync(id, generation) =>
    case Heartbeat(id, generation) =>
    case Leave(id) =>
      MaybeCompleteHeard(BeginRebalance(g.(members := g.members - {id})), e.now, cfg.session, e.parts, e.now, e.now);
    case Expire =>
      var live := Unexpired(g.members, e.now, cfg.session);
      CompleteDelayedHeard(g, e.now, cfg.wait, e.parts, e.now, e.now);
      CompleteDelayedHeard(BeginRebalance(g.(members := live)), e.now, cfg.wait, e.parts, e.now, e.now);
  }

  /** Within a generation, nobody joins the late ones. */
  lemma StaysLate(g: Group, e: Event, cfg: Config, since: int)
    requires Inv(g) && PartsOk(e.parts) && HeardBy(g.members, e.now)
    requires LateSince(g, since) && Step(g, e, cfg).generation == g.generation
    ensures LateSince(Step(g, e, cfg), since)
  {
    hide MaybeCompleteJoin, CompleteDelayed, AssignedBy, SortedIds, JoinStep, LeaveStep;
    match e.op
    case Join(id, topics) =>
      JoinInv(g, id, topics, e.now, cfg.session, e.parts);
      JoinLate(g, id, topics, e.now, cfg.session, e.parts, since);
    case Sync(id, generation) =>
    case Heartbeat(id, generation) =>
    case Leave(id) =>
      LeaveGeneration(g, id, e.now, cfg.session, e.parts);
    case Expire =>
      var live := Unexpired(g.members, e.now, cfg.session);
      if live == g.members {
        CompleteDelayedHeard(g, e.now, cfg.wait, e.parts, e.now, since);
      } else if live != map[] {
        BeginInv(g.(members := live));
        CompleteDelayedInv(BeginRebalance(g.(members := live)), e.now, cfg.wait, e.parts);
      }
  }

  lemma JoinLate(g: Group, id: string, topics: seq<string>, now: int, session: int, parts: Partitions, since: int)
    requires g.state == PreparingRebalance && LateSince(g, since) && HeardBy(g.members, now)
    ensures LateSince(JoinStep(g, id, topics, now, session, parts), since)
  {
    hide MaybeCompleteJoin;
    var entered := Enter(g, id, topics, now);
    MaybeCompleteHeard(MarkJoined(entered, id), now, session, parts, now, since);
  }

  lemma LeaveGeneration(g: Group, id: string, now: int, session: int, parts: Partitions)
    requires PartsOk(parts)
    ensures LeaveStep(g, id, now, session, parts).generation == g.generation + 1
  {
    hide MaybeCompleteJoin;
    MaybeCompleteInv(BeginRebalance(g.(members := g.members - {id})), now, session, parts);
  }

  /** An expiry leaves nobody that has been silent for longer than the session timeout. */
  lemma ExpireDropsSilent(g: Group, now: int, parts: Partitions, cfg: Config)
    ensures var h := ExpireStep(g, now, cfg.session, cfg.wait, parts);
            forall id :: id in h.members ==> now - h.members[id].lastHeartbeat <= cfg.session
  {
    hide FinishAssignment;
    var live := Unexpired(g.members, now, cfg.session);
    if live == g.members {
      FinishHeard(g.(members := Rejoined(g.members, now, cfg.wait)), parts);
      forall id | id in g.members ensures now - g.members[id].lastHeartbeat <= cfg.session {
        assert id in live;
      }
    } else if live != map[] {
      var begun := BeginRebalance(g.(members := live));
      FinishHeard(begun.(members := Rejoined(begun.members, now, cfg.wait)), parts);
    }
  }

  /** An expiry later than `since` plus the rebalance wait ends the rebalance or opens another one. */
  lemma ExpireEnds(g: Group, now: int, since: int, parts: Partitions, cfg: Config)
    requires Inv(g) && PartsOk(parts) && LateSince(g, since) && now > since + cfg.wait
    ensures var h := ExpireStep(g, now, cfg.session, cfg.wait, parts);
            h.state != PreparingRebalance || h.generation > g.generation
  {
    hide FinishAssignment, AssignedBy, SortedIds;
    var live := Unexpired(g.members, now, cfg.session);
    if live == g.members {
      FinishHeard(g.(members := Rejoined(g.members, now, cfg.wait)), parts);
    } else if live != map[] {
      BeginInv(g.(members := live));
      CompleteDelayedInv(BeginRebalance(g.(members := live)), now, cfg.wait, parts);
    }
  }

  /** An assigned group rides out an expiry untouched if and only if every member was heard from within
      the session timeout; a successful heartbeat or sync is what counts as being heard. */
  lemma ExpireQuietIff(g: Group, now: int, parts: Partitions, cfg: Config)
    requires Inv(g) && Assigned(g) && PartsOk(parts)
    ensures ExpireStep(g, now, cfg.session, cfg.wait, parts) == g <==>
              forall id :: id in g.members ==> now - g.members[id].lastHeartbeat <= cfg.session
  {
    hide AssignedBy, SortedIds, CompleteDelayed;
    var live := Unexpired(g.members, now, cfg.session);
    NotDelayed(g, now, cfg.wait, parts);
    if live == g.members {
      forall id | id in g.members ensures now - g.members[id].lastHeartbeat <= cfg.session {
        assert id in live;
      }
    } else if live != map[] {
      BeginInv(g.(members := live));
      CompleteDelayedInv(BeginRebalance(g.(members := live)), now, cfg.wait, parts);
    }
  }

  /** The clock never runs backwards. */
  predicate InOrder(events: seq<Event>, start: int) {
    && (forall i :: 0 <= i < |events| ==> start <= events[i].now)
    && (forall i, j :: 0 <= i < j < |events| ==> events[i].now <= events[j].now)
  }

  function LastTime(events: seq<Event>, start: int): int {
    if events == [] then start else events[|events| - 1].now
  }

  lemma {:induction false} RunHeard(g: Group, events: seq<Event>, start: int, cfg: Config)
    requires HeardBy(g.members, start) && InOrder(events, start)
    ensures HeardBy(Run(g, events, cfg).members, LastTime(events, start))
  {
    hide Step;
    if events != [] {
      var n := |events| - 1;
      RunHeard(g, events[..n], start, cfg);
      var h := Run(g, events[..n], cfg);
      assert LastTime(events[..n], start) <= events[n].now;
      StepHeard(h, events[n], cfg);
    }
  }

  lemma {:induction false} RunLate(g: Group, events: seq<Event>, start: int, since: int, cfg: Config)
    requires Inv(g) && AllPartsOk(events) && HeardBy(g.members, start) && InOrder(events, start) && LateSince(g, since)
    ensures Run(g, events, cfg).generation > g.generation || LateSince(Run(g, events, cfg), since)
  {
    hide Step, Inv, LateSince;
    if events != [] {
      var n := |events| - 1;
      var front := events[..n];
      RunLate(g, front, start, since, cfg);
      RunKeepsInv(g, front, cfg);
      RunHeard(g, front, start, cfg);
      var h := Run(g, front, cfg);
      assert HeardBy(h.members, events[n].now) by { HeardLater(h.members, LastTime(front, start), events[n].now); }
      StepKeepsInv(h, events[n], cfg);
      if h.generation == g.generation && Step(h, events[n], cfg).generation == g.generation {
        StaysLate(h, events[n], cfg, since);
      }
    }
  }

  lemma HeardLater(members: map<string, Member>, early: int, late: int)
    requires HeardBy(members, early) && early <= late
    ensures HeardBy(members, late)
  {
  }

  /** Over whole runs: if some event opens generation G at time t0, then any expiry later than t0 plus
      the rebalance wait finds the group out of its rebalance or already at a later generation once it
      is done, and without any member silent for longer than the session timeout. */
  lemma BoundedRebalance(g: Group, before: seq<Event>, opening: Event, after: seq<Event>, start: int,
                         expiry: Event, cfg: Config)
    requires Inv(g) && HeardBy(g.members, start)
    requires AllPartsOk(before + [opening] + after) && InOrder(before + [opening] + after, start)
    requires Run(g, before, cfg).generation < Run(g, before + [opening], cfg).generation
    requires expiry.op == Expire && PartsOk(expiry.parts) && expiry.now > opening.now + cfg.wait
    ensures var begun := Run(g, before + [opening], cfg);
            var final := Run(g, before + [opening] + after + [expiry], cfg);
            && (final.state != PreparingRebalance || final.generation > begun.generation)
            && forall id :: id in final.members ==> expiry.now - final.members[id].lastHeartbeat <= cfg.session
  {
    hide Step, Inv, Run, InOrder, AllPartsOk, HeardBy, LateSince;
    var all := before + [opening] + after;
    SplitEvents(before, opening, after, start);
    var begun := Run(g, before + [opening], cfg);
    RunKeepsInv(g, before + [opening], cfg);
    RunHeard(g, before + [opening], start, cfg);
    HeardIsLate(begun, opening.now);
    RunConcat(g, before + [opening], after, cfg);
    RunLate(begun, after, opening.now, opening.now, cfg);
    RunKeepsInv(begun, after, cfg);
    RunSnoc(g, all, expiry, cfg);
    ExpiryStep(Run(g, all, cfg), expiry, opening.now, begun.generation, cfg);
  }

  lemma RunSnoc(g: Group, events: seq<Event>, e: Event, cfg: Config)
    ensures Run(g, events + [e], cfg) == Step(Run(g, events, cfg), e, cfg)
  {
    hide Step;
    assert (events + [e])[..|events|] == events;
  }

  lemma HeardIsLate(g: Group, since: int)
    requires HeardBy(g.members, since)
    ensures LateSince(g, since)
  {
  }

  lemma SplitEvents(before: seq<Event>, opening: Event, after: seq<Event>, start: int)
    requires AllPartsOk(before + [opening] + after) && InOrder(before + [opening] + after, start)
    ensures AllPartsOk(before + [opening]) && InOrder(before + [opening], start)
    ensures AllPartsOk(after) && InOrder(after, opening.now)
    ensures LastTime(before + [opening], start) == opening.now
  {
    var all := before + [opening] + after;
    assert all[..|before| + 1] == before + [opening] && all[|before|] == opening;
    assert all[|before| + 1..] == after;
  }

  lemma ExpiryStep(g: Group, expiry: Event, since: int, generation: int, cfg: Config)
    requires Inv(g) && expiry.op == Expire && PartsOk(expiry.parts) && expiry.now > since + cfg.wait
    requires g.generation > generation || (g.generation == generation && LateSince(g, since))
    ensures var h := Step(g, expiry, cfg);
            && (h.state != PreparingRebalance || h.generation > generation)
            && forall id :: id in h.members ==> expiry.now - h.members[id].lastHeartbeat <= cfg.session
  {
    hide ExpireStep;
    StepKeepsInv(g, expiry, cfg);
    ExpireDropsSilent(g, expiry.now, expiry.parts, cfg);
    if g.generation == generation {
      ExpireEnds(g, expiry.now, since, expiry.parts, cfg);
    }
  }
}
