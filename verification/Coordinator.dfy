/** The group coordinator in place: groups that its methods update field by field. */
module Coordinators {
  import opened Wrappers
  import opened Seqs
  import opened Sorting
  import opened Assignors
  import opened Groups
  import opened GroupLaws

  datatype JoinResult = JoinResult(memberID: string, generation: int, leaderID: string, members: seq<string>,
                                   state: State)

  /** The ids of a member map in the order a map iteration happens to give them. */
  method CollectIds(members: map<string, Member>) returns (ids: seq<string>)
    ensures Distinct(ids) && forall x :: x in ids <==> x in members
  {
    ids := [];
    var rest := members.Keys;
    while rest != {}
      invariant rest <= members.Keys && Distinct(ids)
      invariant forall x :: x in ids <==> x in members && x !in rest
      decreases rest
    {
      var id :| id in rest;
      ids := ids + [id];
      rest := rest - {id};
    }
  }

  method CollectTopics(members: map<string, Member>) returns (subs: set<string>)
    ensures subs == Subscribed(members)
  {
    subs := {};
    var rest := members.Keys;
    while rest != {}
      invariant rest <= members.Keys
      invariant subs == set id, t | id in members && id !in rest && t in members[id].topics :: t
      decreases rest
    {
      var id :| id in rest;
      var topics := members[id].topics;
      subs := subs + set t | t in topics;
      rest := rest - {id};
    }
  }

  class ConsumerGroup {
    var state: State
    var generation: int
    var members: map<string, Member>
    var leader: string

    constructor ()
      ensures Value() == NewGroup()
    {
      state, generation, members, leader := Empty, 0, map[], "";
    }

    function Value(): Group
      reads this
    {
      Group(state, generation, members, leader)
    }

    method BeginRebalanceLocked()
      modifies this
      ensures Value() == BeginRebalance(old(Value()))
    {
      state := PreparingRebalance;
      generation := generation + 1;
      leader := "";
      var rest := members.Keys;
      while rest != {}
        invariant rest <= members.Keys == old(members).Keys
        invariant forall id :: id in members ==>
                    members[id] == if id in rest then old(members)[id] else Reset(old(members)[id])
        invariant state == PreparingRebalance && generation == old(generation) + 1 && leader == ""
        decreases rest
      {
        var id :| id in rest;
        members := members[id := members[id].(joined := false, synced := false, assignment := None)];
        rest := rest - {id};
      }
    }

    method MaybeCompleteJoinLocked(now: int, session: int, parts: Partitions)
      modifies this
      ensures Value() == MaybeCompleteJoin(old(Value()), now, session, parts)
    {
      hide FinishAssignment;
      var all, rest := true, members.Keys;
      while rest != {}
        invariant members.Keys <= old(members).Keys && rest <= old(members).Keys
        invariant forall id :: id in old(members) ==>
                    (id in members <==> id in rest || now - old(members)[id].lastHeartbeat <= session)
        invariant forall id :: id in members ==> members[id] == old(members)[id]
        invariant all <==> forall id :: id in members && id !in rest ==> members[id].joined
        invariant state == old(state) && generation == old(generation) && leader == old(leader)
        decreases rest
      {
        var id :| id in rest;
        rest := rest - {id};
        if now - members[id].lastHeartbeat > session {
          members := members - {id};
          continue;
        }
        if !members[id].joined {
          all := false;
        }
      }
      assert members == Unexpired(old(members), now, session);
      if !all && |members| > 0 {
        return;
      }
      FinishAssignmentLocked(parts);
    }

    method FinishAssignmentLocked(parts: Partitions)
      modifies this
      ensures Value() == FinishAssignment(old(Value()), parts)
    {
      hide SortStrings, RangeShare, Subscribed, Handout, SortedIds, Enumerate;
      if |members| == 0 {
        state := Empty;
        leader := "";
        return;
      }
      var collected := CollectIds(members);
      var subs := CollectTopics(members);
      SortedIdsLaw(members.Keys, collected);
      var ids := SortStrings(collected);
      leader := ids[0];
      var tp := map t | t in subs :: PartitionsOf(parts, t);
      var asg := RangeAssign(ids, tp);
      HandOut(asg, ids, tp);
      state := CompletingRebalance;
    }

    /** Stores each member's assignment. */
    method HandOut(asg: map<string, Assignment>, ghost ids: seq<string>, ghost tp: Partitions)
      requires forall id :: id in asg <==> id in members
      requires forall id :: id in asg ==> asg[id] == RangeShare(ids, id, tp)
      modifies this`members
      ensures members == Handout(old(members), ids, tp)
    {
      hide RangeShare;
      var rest := asg.Keys;
      ghost var was := members;
      while rest != {}
        invariant rest <= asg.Keys == was.Keys == members.Keys
        invariant forall id :: id in members ==>
                    members[id] == if id in rest then was[id]
                                   else was[id].(assignment := Some(asg[id]), synced := false)
        decreases rest
      {
        var id :| id in rest;
        if id in members {
          members := members[id := members[id].(assignment := Some(asg[id]), synced := false)];
        }
        rest := rest - {id};
      }
      assert members == Handout(was, ids, tp);
    }

    method Join(memberID: string, topics: seq<string>, now: int, session: int, parts: Partitions)
        returns (res: JoinResult)
      modifies this
      ensures Value() == JoinStep(old(Value()), memberID, topics, now, session, parts)
      ensures session >= 0 ==> JoinMade(old(Value()), memberID, topics, now, session, Value())
      ensures res == JoinResult(memberID, generation, leader,
                                if leader == memberID then SortedIds(members.Keys) else [], state)
    {
      hide MaybeCompleteJoin, SortedIds, JoinMade;
      if session >= 0 {
        JoinExact(Value(), memberID, topics, now, session, parts);
      }
      if memberID !in members {
        members := members[memberID := Member([], 0, false, false, None)];
      }
      var m := members[memberID];
      members := members[memberID := m.(topics := topics, lastHeartbeat := now, synced := false)];
      assert Value() == Enter(old(Value()), memberID, topics, now);
      if state != PreparingRebalance {
        BeginRebalanceLocked();
      }
      m := members[memberID];
      members := members[memberID := m.(joined := true)];
      if state == PreparingRebalance {
        MaybeCompleteJoinLocked(now, session, parts);
      }
      var listed: seq<string> := [];
      if leader == memberID {
        listed := CollectIds(members);
        SortedIdsLaw(members.Keys, listed);
        listed := SortStrings(listed);
      }
      res := JoinResult(memberID, generation, leader, listed, state);
    }

    method Sync(memberID: string, gen: int, now: int) returns (res: SyncResult)
      modifies this
      ensures (Value(), res) == SyncStep(old(Value()), memberID, gen, now)
      ensures SyncMade(old(Value()), memberID, gen, now, Value(), res)
    {
      hide SyncMade;
      SyncExact(Value(), memberID, gen, now);
      if gen != generation {
        return SyncError(GenerationMismatch, generation, Some(state));
      }
      if memberID !in members {
        return SyncError(UnknownMember, generation, Some(state));
      }
      var m := members[memberID];
      if state == PreparingRebalance {
        return SyncError(RebalanceInProgress, generation, Some(state));
      }
      members := members[memberID := m.(lastHeartbeat := now, synced := true)];
      if state == CompletingRebalance {
        var all, rest := true, members.Keys;
        while rest != {}
          invariant rest <= members.Keys
          invariant all <==> forall id :: id in members && id !in rest ==> members[id].synced
          decreases rest
        {
          var id :| id in rest;
          rest := rest - {id};
          if !members[id].synced {
            all := false;
            break;
          }
        }
        if all {
          state := Stable;
        }
      }
      var asg := if m.assignment == None then map[] else m.assignment.value;
      return SyncOk(asg, generation, state);
    }

    method Heartbeat(memberID: string, gen: int, now: int) returns (st: State, refused: Option<Error>)
      modifies this
      ensures Value() == HeartbeatStep(old(Value()), memberID, gen, now)
      ensures st == state == old(state) && refused == HeartbeatRefusal(old(Value()), memberID, gen)
      ensures HeartbeatMade(old(Value()), memberID, gen, now, Value(), refused)
    {
      hide HeartbeatMade;
      HeartbeatExact(Value(), memberID, gen, now);
      if memberID !in members {
        return state, Some(UnknownMember);
      }
      if gen != generation || state != Stable {
        return state, Some(RebalanceInProgress);
      }
      members := members[memberID := members[memberID].(lastHeartbeat := now)];
      return state, None;
    }

    method Leave(memberID: string, now: int, session: int, parts: Partitions)
      modifies this
      ensures Value() == LeaveStep(old(Value()), memberID, now, session, parts)
      ensures LeaveMade(old(Value()), memberID, now, session, Value())
    {
      hide MaybeCompleteJoin, LeaveMade;
      LeaveExact(Value(), memberID, now, session, parts);
      members := members - {memberID};
      BeginRebalanceLocked();
      MaybeCompleteJoinLocked(now, session, parts);
    }

    /** Drops members silent for longer than `limit`; with `onlyLate`, only those that have not rejoined. */
    method DropSilent(now: int, limit: int, onlyLate: bool) returns (changed: bool)
      modifies this`members
      ensures members == if onlyLate then Rejoined(old(members), now, limit) else Unexpired(old(members), now, limit)
      ensures changed <==> members != old(members)
    {
      changed := false;
      var rest := members.Keys;
      ghost var was := members;
      while rest != {}
        invariant members.Keys <= was.Keys && rest <= was.Keys
        invariant forall id :: id in was ==>
                    (id in members <==>
                       id in rest || (onlyLate && was[id].joined) || now - was[id].lastHeartbeat <= limit)
        invariant forall id :: id in members ==> members[id] == was[id]
        invariant changed <==> members != was
        decreases rest
      {
        var id :| id in rest;
        rest := rest - {id};
        if (!onlyLate || !members[id].joined) && now - members[id].lastHeartbeat > limit {
          members := members - {id};
          assert id !in members && id in was;
          changed := true;
        }
      }
    }

    method ExpireGroup(now: int, session: int, wait: int, parts: Partitions)
      requires wait >= 0
      modifies this
      ensures Value() == ExpireStep(old(Value()), now, session, wait, parts)
      ensures ExpireMade(old(Value()), now, session, wait, Value())
    {
      hide CompleteDelayed, Unexpired, ExpireMade;
      ExpireExact(Value(), now, session, wait, parts);
      var changed := DropSilent(now, session, false);
      if changed {
        BeginRebalanceLocked();
        if |members| == 0 {
          state := Empty;
          return;
        }
      }
      FinishDelayed(now, wait, parts);
    }

    /** The second half of an expiry: completes a rebalance that has waited long enough. */
    method FinishDelayed(now: int, wait: int, parts: Partitions)
      requires wait >= 0
      modifies this
      ensures Value() == CompleteDelayed(old(Value()), now, wait, parts)
    {
      hide FinishAssignment, Rejoined;
      if state == PreparingRebalance {
        var allJoined, oldest, rest := true, now, members.Keys;
        while rest != {}
          invariant rest <= members.Keys && oldest <= now
          invariant allJoined <==> forall id :: id in members && id !in rest ==> members[id].joined
          invariant forall id :: id in members && id !in rest ==> oldest <= members[id].lastHeartbeat
          invariant oldest == now || exists id :: id in members && id !in rest && members[id].lastHeartbeat == oldest
          decreases rest
        {
          var id :| id in rest;
          rest := rest - {id};
          if !members[id].joined {
            allJoined := false;
          }
          if members[id].lastHeartbeat < oldest {
            oldest := members[id].lastHeartbeat;
          }
        }
        if allJoined || now - oldest > wait {
          var _ := DropSilent(now, wait, true);
          FinishAssignmentLocked(parts);
        }
      }
    }
  }

  // ---------------------------------------------------------------------------------------------
  // The coordinator
  // ---------------------------------------------------------------------------------------------

  type Table = map<string, Group>

  datatype Request = Request(group: string, op: Op, now: int, parts: Partitions)

  function GroupAt(t: Table, group: string): Group {
    if group in t then t[group] else NewGroup()
  }

  ghost function StepOf(g: Group, r: Request, cfg: Config): Group {
    Step(g, Event(r.op, r.now, r.parts), cfg)
  }

  /** A join creates its group if need be; other requests to a missing group do nothing; an expiry
      visits every group. */
  ghost function Serve(t: Table, r: Request, cfg: Config): Table {
    if r.op == Expire then map group | group in t :: StepOf(t[group], r, cfg)
    else if r.op.Join? || r.group in t then t[r.group := StepOf(GroupAt(t, r.group), r, cfg)]
    else t
  }

  class Coordinator {
    const cfg: Config
    var groups: map<string, ConsumerGroup>

    constructor (session: int, wait: int)
      ensures Valid() && Values() == map[]
      ensures cfg == Config(if session <= 0 then 10_000 else session, if wait <= 0 then 2_000 else wait)
    {
      cfg := Config(if session <= 0 then 10_000 else session, if wait <= 0 then 2_000 else wait);
      groups := map[];
    }

    ghost predicate Valid()
      reads this
    {
      cfg.wait > 0 && cfg.session > 0
      && forall a, b :: a in groups && b in groups && a != b ==> groups[a] != groups[b]
    }

    ghost function Values(): Table
      reads this, groups.Values
    {
      map id | id in groups :: groups[id].Value()
    }

    method Group(id: string) returns (g: ConsumerGroup)
      requires Valid()
      modifies this
      ensures Valid() && id in groups && g == groups[id]
      ensures id in old(groups) ==> groups == old(groups)
      ensures id !in old(groups) ==> fresh(g) && groups == old(groups)[id := g] && g.Value() == NewGroup()
    {
      if id in groups {
        return groups[id];
      }
      g := new ConsumerGroup();
      groups := groups[id := g];
    }

    /** An empty member id is replaced by a generated one. */
    method Join(groupID: string, memberID: string, generated: string, topics: seq<string>, now: int, parts: Partitions)
      returns (res: JoinResult)
      requires Valid()
      modifies this, groups.Values
      ensures Valid()
      ensures res.memberID == if memberID == "" then generated else memberID
      ensures Values() == Serve(old(Values()), Request(groupID, Op.Join(res.memberID, topics), now, parts), cfg)
      ensures groupID in groups
      ensures var g := groups[groupID].Value();
              res == JoinResult(res.memberID, g.generation, g.leader,
                                if g.leader == res.memberID then SortedIds(g.members.Keys) else [], g.state)
      ensures JoinMade(GroupAt(old(Values()), groupID), res.memberID, topics, now, cfg.session, groups[groupID].Value())
    {
      hide JoinStep, SortedIds, JoinMade;
      var id := if memberID == "" then generated else memberID;
      var g := Group(groupID);
      res := g.Join(id, topics, now, cfg.session, parts);
      assert Values() == old(Values())[groupID := g.Value()];
    }

    method Sync(groupID: string, memberID: string, generation: int, now: int) returns (res: SyncResult)
      requires Valid()
      modifies this, groups.Values
      ensures Valid()
      ensures forall parts ::
                Values() == Serve(old(Values()), Request(groupID, Op.Sync(memberID, generation), now, parts), cfg)
      ensures res == if groupID in old(groups) then Answer(old(groups[groupID].Value()), memberID, generation, now)
                     else SyncError(UnknownGroup, 0, None)
    {
      hide SyncStep;
      if groupID !in groups {
        return SyncError(UnknownGroup, 0, None);
      }
      var g := groups[groupID];
      res := g.Sync(memberID, generation, now);
      assert Values() == old(Values())[groupID := g.Value()];
    }

    /** The state of an unknown group is the empty string. */
    method Heartbeat(groupID: string, memberID: string, generation: int, now: int)
      returns (st: Option<State>, refused: Option<Error>)
      requires Valid()
      modifies this, groups.Values
      ensures Valid()
      ensures forall parts ::
                Values() == Serve(old(Values()), Request(groupID, Op.Heartbeat(memberID, generation), now, parts), cfg)
      ensures groupID in old(groups) ==>
                && st == Some(old(groups[groupID].state))
                && refused == HeartbeatRefusal(old(groups[groupID].Value()), memberID, generation)
      ensures groupID !in old(groups) ==> st == None && refused == Some(UnknownGroup)
    {
      hide HeartbeatStep;
      if groupID !in groups {
        return None, Some(UnknownGroup);
      }
      var g := groups[groupID];
      var found, e := g.Heartbeat(memberID, generation, now);
      assert Values() == old(Values())[groupID := g.Value()];
      return Some(found), e;
    }

    method Leave(groupID: string, memberID: string, now: int, parts: Partitions)
      requires Valid()
      modifies this, groups.Values
      ensures Valid()
      ensures Values() == Serve(old(Values()), Request(groupID, Op.Leave(memberID), now, parts), cfg)
    {
      hide LeaveStep;
      if groupID !in groups {
        return;
      }
      var g := groups[groupID];
      g.Leave(memberID, now, cfg.session, parts);
      assert Values() == old(Values())[groupID := g.Value()];
    }

    /** Drops dead members and completes delayed joins, group by group. */
    method Expire(now: int, parts: Partitions)
      requires Valid()
      modifies this, groups.Values
      ensures Valid()
      ensures forall group :: Values() == Serve(old(Values()), Request(group, Op.Expire, now, parts), cfg)
      ensures groups == old(groups)
      ensures forall id :: id in groups ==>
                ExpireMade(old(groups[id].Value()), now, cfg.session, cfg.wait, groups[id].Value())
    {
      hide ExpireStep, ExpireMade;
      var rest := groups.Keys;
      while rest != {}
        invariant rest <= groups.Keys && groups == old(groups) && Valid()
        invariant forall id :: id in groups ==>
                    groups[id].Value() == if id in rest then old(groups[id].Value())
                                          else ExpireStep(old(groups[id].Value()), now, cfg.session, cfg.wait, parts)
        invariant forall id :: id in groups && id !in rest ==>
                    ExpireMade(old(groups[id].Value()), now, cfg.session, cfg.wait, groups[id].Value())
        decreases rest
      {
        var id :| id in rest;
        groups[id].ExpireGroup(now, cfg.session, cfg.wait, parts);
        rest := rest - {id};
      }
      assert forall group :: Values() == Serve(old(Values()), Request(group, Op.Expire, now, parts), cfg);
    }
  }

  // ---------------------------------------------------------------------------------------------
  // Whole runs of the coordinator
  // ---------------------------------------------------------------------------------------------

  ghost function ServeAll(t: Table, requests: seq<Request>, cfg: Config): Table {
    if requests == [] then t
    else Serve(ServeAll(t, requests[..|requests| - 1], cfg), requests[|requests| - 1], cfg)
  }

  /** The requests that reach one group. */
  ghost function Own(requests: seq<Request>, group: string, cfg: Config): seq<Event> {
    if requests == [] then []
    else
      var n := |requests| - 1;
      var front, r := Own(requests[..n], group, cfg), requests[n];
      if (r.op == Expire && group in ServeAll(map[], requests[..n], cfg))
         || (r.op != Expire && r.group == group && (r.op.Join? || group in ServeAll(map[], requests[..n], cfg)))
      then front + [Event(r.op, r.now, r.parts)] else front
  }

  /** Whatever the coordinator serves, each of its groups goes through exactly the run of its own
      requests, so what is proved of one group's runs holds of every group in every run. */
  lemma {:induction false} GroupsAreIndependent(requests: seq<Request>, group: string, cfg: Config)
    ensures GroupAt(ServeAll(map[], requests, cfg), group) == Run(NewGroup(), Own(requests, group, cfg), cfg)
  {
    hide Step;
    if requests != [] {
      var n := |requests| - 1;
      GroupsAreIndependent(requests[..n], group, cfg);
      var r := requests[n];
      RunSnoc(NewGroup(), Own(requests[..n], group, cfg), Event(r.op, r.now, r.parts), cfg);
    }
  }

  lemma {:induction false} OwnPartsOk(requests: seq<Request>, group: string, cfg: Config)
    requires forall i :: 0 <= i < |requests| ==> PartsOk(requests[i].parts)
    ensures AllPartsOk(Own(requests, group, cfg))
  {
    hide ServeAll, PartsOk;
    if requests != [] {
      OwnPartsOk(requests[..|requests| - 1], group, cfg);
    }
  }

  /** Every group of a coordinator that started empty keeps the group invariant, whatever it serves. */
  lemma CoordinatorInvariant(requests: seq<Request>, group: string, cfg: Config)
    requires forall i :: 0 <= i < |requests| ==> PartsOk(requests[i].parts)
    ensures Inv(GroupAt(ServeAll(map[], requests, cfg), group))
  {
    GroupsAreIndependent(requests, group, cfg);
    OwnPartsOk(requests, group, cfg);
    hide Run, ServeAll, Own;
    RunKeepsInv(NewGroup(), Own(requests, group, cfg), cfg);
  }

  /** Later requests only extend what a group has gone through. */
  lemma {:induction false} OwnExtends(first: seq<Request>, more: seq<Request>, group: string, cfg: Config)
    ensures Own(first, group, cfg) <= Own(first + more, group, cfg)
    decreases |more|
  {
    hide ServeAll;
    if more == [] {
      assert first + more == first;
    } else {
      var n := |more| - 1;
      assert (first + more)[..|first + more| - 1] == first + more[..n];
      OwnExtends(first, more[..n], group, cfg);
    }
  }

  /** Whatever the coordinator serves, two syncs of one group that succeed at the same generation, at
      any two moments, come from one assignment: the same member gets the same answer, and different
      members have no partition in common. */
  lemma OneAssignmentEverywhere(first: seq<Request>, more: seq<Request>, group: string, cfg: Config,
                                id1: string, id2: string, generation: int, now1: int, now2: int)
    requires forall i :: 0 <= i < |first + more| ==> PartsOk((first + more)[i].parts)
    requires Answer(GroupAt(ServeAll(map[], first, cfg), group), id1, generation, now1).SyncOk?
    requires Answer(GroupAt(ServeAll(map[], first + more, cfg), group), id2, generation, now2).SyncOk?
    ensures var a1 := Answer(GroupAt(ServeAll(map[], first, cfg), group), id1, generation, now1).assignment;
            var a2 := Answer(GroupAt(ServeAll(map[], first + more, cfg), group), id2, generation, now2).assignment;
            && (id1 == id2 ==> a1 == a2)
            && (id1 != id2 ==> forall t, x :: t in a1 && t in a2 && x in a1[t] ==> x !in a2[t])
  {
    hide ServeAll, Own, Run, Answer, Inv, PartsOk;
    GroupsAreIndependent(first, group, cfg);
    GroupsAreIndependent(first + more, group, cfg);
    OwnExtends(first, more, group, cfg);
    OwnPartsOk(first + more, group, cfg);
    var early, late := Own(first, group, cfg), Own(first + more, group, cfg);
    var rest := late[|early|..];
    assert late == early + rest;
    assert forall i :: 0 <= i < |early| ==> early[i] == late[i];
    NewGroupInv();
    OneAssignmentPerGeneration(NewGroup(), early, rest, cfg, id1, id2, generation, now1, now2);
  }

  /** Whatever the coordinator serves, the assignment of an assigned group was made by one request that
      reached it, and divides the metadata as that request read it among the members: every partition of
      every topic a member last joined with has exactly one owner, and nobody holds anything else. The
      member with the least id leads. */
  lemma AssignmentEverywhere(requests: seq<Request>, group: string, cfg: Config) returns (i: nat)
    requires cfg.session >= 0 && forall k :: 0 <= k < |requests| ==> PartsOk(requests[k].parts)
    requires Assigned(GroupAt(ServeAll(map[], requests, cfg), group))
    ensures MadeBy(NewGroup(), Own(requests, group, cfg), i, cfg)
    ensures var g, events := GroupAt(ServeAll(map[], requests, cfg), group), Own(requests, group, cfg);
            && DividesReading(g, events[i].parts)
            && (forall id :: id in g.members ==> exists j :: LastJoin(events, j, id, g.members[id].topics))
            && g.leader in g.members && forall id :: id in g.members ==> NotAfter(g.leader, id)
  {
    hide ServeAll, Own, Run, DividesReading, PartsOk, MadeBy, LastJoin, NotAfter;
    GroupsAreIndependent(requests, group, cfg);
    OwnPartsOk(requests, group, cfg);
    i := AssignmentFromRequests(Own(requests, group, cfg), cfg);
  }

  /** The clock never runs backwards between requests. */
  predicate Ordered(requests: seq<Request>, start: int) {
    && (forall i :: 0 <= i < |requests| ==> start <= requests[i].now)
    && (forall i, j :: 0 <= i < j < |requests| ==> requests[i].now <= requests[j].now)
  }

  lemma {:induction false} OwnInOrder(requests: seq<Request>, group: string, start: int, cfg: Config)
    requires Ordered(requests, start)
    ensures InOrder(Own(requests, group, cfg), start)
    ensures forall i :: 0 <= i < |Own(requests, group, cfg)| ==>
              requests != [] && Own(requests, group, cfg)[i].now <= requests[|requests| - 1].now
  {
    hide ServeAll;
    if requests != [] {
      var n := |requests| - 1;
      OwnInOrder(requests[..n], group, start, cfg);
    }
  }

  /** A request that moves a group's generation has reached it. */
  lemma OwnOpening(before: seq<Request>, opening: Request, group: string, cfg: Config)
    requires GroupAt(ServeAll(map[], before, cfg), group) != GroupAt(ServeAll(map[], before + [opening], cfg), group)
    ensures Own(before + [opening], group, cfg)
            == Own(before, group, cfg) + [Event(opening.op, opening.now, opening.parts)]
  {
    hide Run, ServeAll, Step;
    GroupsAreIndependent(before, group, cfg);
    GroupsAreIndependent(before + [opening], group, cfg);
    assert (before + [opening])[..|before|] == before;
  }

  lemma OwnExpiry(requests: seq<Request>, expiry: Request, group: string, cfg: Config)
    requires expiry.op == Expire && GroupAt(ServeAll(map[], requests, cfg), group) != NewGroup()
    ensures Own(requests + [expiry], group, cfg)
            == Own(requests, group, cfg) + [Event(Expire, expiry.now, expiry.parts)]
  {
    hide Run, ServeAll, Step;
    assert (requests + [expiry])[..|requests|] == requests;
  }

  /** Whatever the coordinator serves: when a request opens generation G of a group at time t0, any
      expiry later than t0 plus the rebalance wait leaves the group out of its rebalance or at a later
      generation, and without any member silent for longer than the session timeout. */
  lemma BoundedEverywhere(before: seq<Request>, opening: Request, after: seq<Request>, expiry: Request,
                          group: string, start: int, cfg: Config)
    requires var all := before + [opening] + after;
             Ordered(all, start) && forall i :: 0 <= i < |all| ==> PartsOk(all[i].parts)
    requires GroupAt(ServeAll(map[], before, cfg), group).generation
             < GroupAt(ServeAll(map[], before + [opening], cfg), group).generation
    requires expiry.op == Expire && PartsOk(expiry.parts) && expiry.now > opening.now + cfg.wait
    ensures var begun := GroupAt(ServeAll(map[], before + [opening], cfg), group);
            var final := GroupAt(ServeAll(map[], before + [opening] + after + [expiry], cfg), group);
            && (final.state != PreparingRebalance || final.generation > begun.generation)
            && forall id :: id in final.members ==> expiry.now - final.members[id].lastHeartbeat <= cfg.session
  {
    hide ServeAll, Own, Run, Inv, PartsOk, InOrder, AllPartsOk, Ordered;
    var begun, all := before + [opening], before + [opening] + after;
    var early := Own(before, group, cfg);
    var open, last := Event(opening.op, opening.now, opening.parts), Event(Expire, expiry.now, expiry.parts);
    GroupsAreIndependent(before, group, cfg);
    GroupsAreIndependent(begun, group, cfg);
    GroupsAreIndependent(all, group, cfg);
    GroupsAreIndependent(all + [expiry], group, cfg);
    OwnOpening(before, opening, group, cfg);
    OwnExtends(begun, after, group, cfg);
    var rest := Own(all, group, cfg)[|early| + 1..];
    assert Own(all, group, cfg) == early + [open] + rest;
    OwnPartsOk(all, group, cfg);
    OwnInOrder(all, group, start, cfg);
    NewGroupInv();
    GenerationsRise(early, [open], rest, cfg);
    OwnExpiry(all, expiry, group, cfg);
    BoundedRebalance(NewGroup(), early, open, rest, start, last, cfg);
  }

  lemma GenerationsRise(first: seq<Event>, second: seq<Event>, third: seq<Event>, cfg: Config)
    requires AllPartsOk(first + second + third)
    ensures 0 <= Run(NewGroup(), first, cfg).generation <= Run(NewGroup(), first + second, cfg).generation
              <= Run(NewGroup(), first + second + third, cfg).generation
  {
    hide Run, Inv, PartsOk;
    var all, n := first + second + third, |first + second|;
    NewGroupInv();
    assert forall i :: 0 <= i < |first| ==> first[i] == all[i];
    assert forall i :: 0 <= i < |second| ==> second[i] == all[|first| + i];
    assert forall i :: 0 <= i < |third| ==> third[i] == all[n + i];
    RunKeepsInv(NewGroup(), first, cfg);
    RunKeepsInv(Run(NewGroup(), first, cfg), second, cfg);
    RunConcat(NewGroup(), first, second, cfg);
    RunKeepsInv(Run(NewGroup(), first + second, cfg), third, cfg);
    RunConcat(NewGroup(), first + second, third, cfg);
  }
}
