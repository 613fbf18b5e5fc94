/** What each coordinator operation does to a group, in terms of its members: who stays, what they
    subscribe to, when they were heard from, and where the group stands. */
module GroupLaws {
  import opened Wrappers
  import opened Seqs
  import opened Sorting
  import opened Assignors
  import opened Groups

  // ---------------------------------------------------------------------------------------------
  // The laws, as relations between a group before and after
  // ---------------------------------------------------------------------------------------------

  /** `id` is in with its topics, heard from now; the others stay if heard from within the session timeout,
      and start afresh unless a rebalance was under way. The group is assigned once all have joined. */
  ghost predicate JoinMade(g: Group, id: string, topics: seq<string>, now: int, session: int, h: Group) {
    && (forall j :: j in h.members <==> j == id || (j in g.members && now - g.members[j].lastHeartbeat <= session))
    && h.members[id].topics == topics && h.members[id].lastHeartbeat == now && h.members[id].joined
    && (forall j :: j in h.members && j != id ==>
          && h.members[j].topics == g.members[j].topics
          && h.members[j].lastHeartbeat == g.members[j].lastHeartbeat
          && (h.members[j].joined <==> g.state == PreparingRebalance && g.members[j].joined))
    && h.generation == (if g.state == PreparingRebalance then g.generation else g.generation + 1)
    && h.state == if forall j :: j in h.members ==> h.members[j].joined then CompletingRebalance else PreparingRebalance
  }

  /** `id` is gone; those heard from within the session timeout stay, and have to join again. */
  ghost predicate LeaveMade(g: Group, id: string, now: int, session: int, h: Group) {
    && (forall j :: j in h.members <==> j != id && j in g.members && now - g.members[j].lastHeartbeat <= session)
    && (forall j :: j in h.members ==>
          && h.members[j].topics == g.members[j].topics
          && h.members[j].lastHeartbeat == g.members[j].lastHeartbeat
          && !h.members[j].joined)
    && h.generation == g.generation + 1
    && h.state == if h.members == map[] then Empty else PreparingRebalance
  }

  /** With nobody silent beyond the session timeout, a rebalance completes if all have joined or somebody
      has been silent for longer than the wait; it then keeps exactly those that joined or were heard
      from within the wait. Otherwise nothing happens. With somebody silent beyond the session timeout
      a new generation begins, with those heard from within both limits, and it is assigned at once if
      that left some live member out. */
  ghost predicate ExpireMade(g: Group, now: int, session: int, wait: int, h: Group) {
    var silent := exists j :: j in g.members && now - g.members[j].lastHeartbeat > session;
    var late := exists j :: j in g.members && wait < now - g.members[j].lastHeartbeat <= session;
    var due := g.state == PreparingRebalance && ((forall j :: j in g.members ==> g.members[j].joined) || late);
    && (forall j :: j in h.members ==>
          && j in g.members
          && h.members[j].topics == g.members[j].topics
          && h.members[j].lastHeartbeat == g.members[j].lastHeartbeat)
    && (!silent && !due ==> h == g)
    && (!silent && due ==>
          && (forall j :: j in g.members ==>
                (j in h.members <==> g.members[j].joined || now - g.members[j].lastHeartbeat <= wait))
          && h.generation == g.generation
          && h.state == if h.members == map[] then Empty else CompletingRebalance)
    && (silent ==>
          && (forall j :: j in g.members ==>
                (j in h.members <==> now - g.members[j].lastHeartbeat <= session
                                     && now - g.members[j].lastHeartbeat <= wait))
          && h.generation == g.generation + 1
          && h.state == if h.members == map[] then Empty else if late then CompletingRebalance else PreparingRebalance)
  }

  /** A sync is refused at another generation, then to a stranger, then during a rebalance, and changes
      nothing. Otherwise it refreshes and marks the member, hands out what was assigned to it, and the
      last one to sync makes the group stable. */
  ghost predicate SyncMade(g: Group, id: string, generation: int, now: int, h: Group, r: SyncResult) {
    if generation != g.generation then h == g && r == SyncError(GenerationMismatch, g.generation, Some(g.state))
    else if id !in g.members then h == g && r == SyncError(UnknownMember, g.generation, Some(g.state))
    else if g.state == PreparingRebalance then
      h == g && r == SyncError(RebalanceInProgress, g.generation, Some(g.state))
    else
      && h.members.Keys == g.members.Keys && h.generation == g.generation && h.leader == g.leader
      && h.members[id] == g.members[id].(lastHeartbeat := now, synced := true)
      && (forall j :: j in g.members && j != id ==> h.members[j] == g.members[j])
      && h.state == (if g.state == CompletingRebalance && forall j :: j in g.members && j != id ==> g.members[j].synced
                     then Stable else g.state)
      && r.SyncOk? && r.generation == g.generation && r.state == h.state
      && r.assignment == match g.members[id].assignment case None => map[] case Some(a) => a
  }

  /** A heartbeat is refused to a stranger, then at another generation or before the group is stable. */
  ghost predicate HeartbeatMade(g: Group, id: string, generation: int, now: int, h: Group, refused: Option<Error>) {
    if id !in g.members then h == g && refused == Some(UnknownMember)
    else if generation != g.generation || g.state != Stable then h == g && refused == Some(RebalanceInProgress)
    else
      && refused == None
      && h == g.(members := h.members) && h.members.Keys == g.members.Keys
      && h.members[id] == g.members[id].(lastHeartbeat := now)
      && forall j :: j in g.members && j != id ==> h.members[j] == g.members[j]
  }

  // ---------------------------------------------------------------------------------------------
  // They hold
  // ---------------------------------------------------------------------------------------------

  /** An assignment leaves who is in, their topics, when they were heard from and whether they joined. */
  lemma FinishKeeps(g: Group, parts: Partitions)
    ensures var h := FinishAssignment(g, parts);
            && h.members.Keys == g.members.Keys && h.generation == g.generation
            && (forall j :: j in g.members ==>
                  && h.members[j].topics == g.members[j].topics
                  && h.members[j].lastHeartbeat == g.members[j].lastHeartbeat
                  && h.members[j].joined == g.members[j].joined)
            && h.state == if g.members == map[] then Empty else CompletingRebalance
  {
    hide SortedIds, Enumerate, Subscribed, AssignedFrom, RangeShare, SortStrings, Distinct;
    if g.members != map[] {
      SortedIdsLaw(g.members.Keys, Enumerate(g.members.Keys));
      hide StrLe;
      assert FinishAssignment(g, parts).members
             == Handout(g.members, SortedIds(g.members.Keys), AssignedFrom(g.members, parts));
    }
  }

  /** The check that may complete a join drops the silent and assigns once the rest have all joined. */
  lemma MaybeCompleteMade(g: Group, now: int, session: int, parts: Partitions)
    requires g.state == PreparingRebalance
    ensures var h := MaybeCompleteJoin(g, now, session, parts);
            && (forall j :: j in h.members <==> j in g.members && now - g.members[j].lastHeartbeat <= session)
            && (forall j :: j in h.members ==>
                  && h.members[j].topics == g.members[j].topics
                  && h.members[j].lastHeartbeat == g.members[j].lastHeartbeat
                  && h.members[j].joined == g.members[j].joined)
            && h.generation == g.generation
            && h.state == (if h.members == map[] then Empty
                           else if AllJoined(h.members) then CompletingRebalance else PreparingRebalance)
  {
    hide FinishAssignment;
    FinishKeeps(g.(members := Unexpired(g.members, now, session)), parts);
  }

  lemma JoinExact(g: Group, id: string, topics: seq<string>, now: int, session: int, parts: Partitions)
    requires session >= 0
    ensures JoinMade(g, id, topics, now, session, JoinStep(g, id, topics, now, session, parts))
  {
    hide MaybeCompleteJoin;
    var entered := Enter(g, id, topics, now);
    var begun := MarkJoined(if entered.state != PreparingRebalance then BeginRebalance(entered) else entered, id);
    MaybeCompleteMade(begun, now, session, parts);
    assert id in begun.members && begun.members[id].lastHeartbeat == now;
  }

  lemma LeaveExact(g: Group, id: string, now: int, session: int, parts: Partitions)
    ensures LeaveMade(g, id, now, session, LeaveStep(g, id, now, session, parts))
  {
    hide MaybeCompleteJoin;
    MaybeCompleteMade(BeginRebalance(g.(members := g.members - {id})), now, session, parts);
    var h := LeaveStep(g, id, now, session, parts);
    if h.members != map[] {
      var j :| j in h.members;
      assert !h.members[j].joined;
    }
  }

  /** The delayed completion of a rebalance. */
  lemma DelayedMade(g: Group, now: int, wait: int, parts: Partitions)
    ensures var h := CompleteDelayed(g, now, wait, parts);
            var due := g.state == PreparingRebalance && (AllJoined(g.members) || SomeStale(g.members, now, wait));
            && (!due ==> h == g)
            && (due ==>
                  && (forall j :: j in h.members <==>
                        j in g.members && (g.members[j].joined || now - g.members[j].lastHeartbeat <= wait))
                  && (forall j :: j in h.members ==>
                        && h.members[j].topics == g.members[j].topics
                        && h.members[j].lastHeartbeat == g.members[j].lastHeartbeat)
                  && h.generation == g.generation
                  && h.state == if h.members == map[] then Empty else CompletingRebalance)
  {
    hide FinishAssignment;
    FinishKeeps(g.(members := Rejoined(g.members, now, wait)), parts);
  }

  lemma ExpireExact(g: Group, now: int, session: int, wait: int, parts: Partitions)
    ensures ExpireMade(g, now, session, wait, ExpireStep(g, now, session, wait, parts))
  {
    SilenceIff(g.members, now, session);
    if Unexpired(g.members, now, session) == g.members {
      ExpireQuiet(g, now, session, wait, parts);
    } else {
      ExpireSilent(g, now, session, wait, parts);
    }
  }

  lemma SilenceIff(members: map<string, Member>, now: int, session: int)
    ensures Unexpired(members, now, session) == members
            <==> forall j :: j in members ==> now - members[j].lastHeartbeat <= session
  {
    if Unexpired(members, now, session) == members {
      forall j | j in members ensures now - members[j].lastHeartbeat <= session {
        assert j in Unexpired(members, now, session);
      }
    }
  }

  lemma ExpireQuiet(g: Group, now: int, session: int, wait: int, parts: Partitions)
    requires Unexpired(g.members, now, session) == g.members
    requires forall j :: j in g.members ==> now - g.members[j].lastHeartbeat <= session
    ensures ExpireMade(g, now, session, wait, ExpireStep(g, now, session, wait, parts))
  {
    hide CompleteDelayed, Unexpired;
    DelayedMade(g, now, wait, parts);
  }

  lemma ExpireSilent(g: Group, now: int, session: int, wait: int, parts: Partitions)
    requires Unexpired(g.members, now, session) != g.members
    requires exists j :: j in g.members && now - g.members[j].lastHeartbeat > session
    ensures ExpireMade(g, now, session, wait, ExpireStep(g, now, session, wait, parts))
  {
    hide CompleteDelayed;
    var live := Unexpired(g.members, now, session);
    assert forall j :: j in live <==> j in g.members && now - g.members[j].lastHeartbeat <= session;
    assert forall j :: j in live ==> live[j] == g.members[j];
    var begun := BeginRebalance(g.(members := live));
    DelayedMade(begun, now, wait, parts);
    hide Unexpired;
    if live != map[] {
      var j :| j in live;
      assert !begun.members[j].joined;
    }
  }

  lemma SyncExact(g: Group, id: string, generation: int, now: int)
    ensures SyncMade(g, id, generation, now, SyncStep(g, id, generation, now).0, SyncStep(g, id, generation, now).1)
  {
  }

  lemma HeartbeatExact(g: Group, id: string, generation: int, now: int)
    ensures HeartbeatMade(g, id, generation, now, HeartbeatStep(g, id, generation, now),
                          HeartbeatRefusal(g, id, generation))
  {
  }

  // ---------------------------------------------------------------------------------------------
  // Over runs
  // ---------------------------------------------------------------------------------------------

  /** `id` last joined with event `i`, has not left since, and those are its topics. */
  predicate LastJoin(events: seq<Event>, i: int, id: string, topics: seq<string>) {
    && 0 <= i < |events| && events[i].op == Join(id, topics)
    && forall j :: i < j < |events| ==> events[j].op != Leave(id) && !(events[j].op.Join? && events[j].op.id == id)
  }

  /** What one step does to who is in and to what they subscribe. */
  lemma StepTopics(g: Group, e: Event, cfg: Config, id: string)
    requires cfg.session >= 0 && id in Step(g, e, cfg).members
    ensures var m := Step(g, e, cfg).members[id];
            || (e.op == Join(id, m.topics) && m.lastHeartbeat == e.now)
            || (e.op != Leave(id) && !(e.op.Join? && e.op.id == id)
                && id in g.members && m.topics == g.members[id].topics)
  {
    hide JoinStep, LeaveStep, ExpireStep, SyncStep, HeartbeatStep;
    match e.op
    case Join(who, topics) => JoinExact(g, who, topics, e.now, cfg.session, e.parts);
    case Sync(who, generation) => SyncExact(g, who, generation, e.now);
    case Heartbeat(who, generation) => HeartbeatExact(g, who, generation, e.now);
    case Leave(who) => LeaveExact(g, who, e.now, cfg.session, e.parts);
    case Expire => ExpireExact(g, e.now, cfg.session, cfg.wait, e.parts);
  }

  /** Over whole runs, a member is in by its last join, which it has not taken back by leaving, and
      subscribes to exactly the topics of that join. */
  lemma {:induction false} TopicsOfLastJoin(events: seq<Event>, cfg: Config, id: string) returns (i: nat)
    requires cfg.session >= 0 && id in Run(NewGroup(), events, cfg).members
    ensures LastJoin(events, i, id, Run(NewGroup(), events, cfg).members[id].topics)
  {
    hide Step;
    var n := |events| - 1;
    var front := events[..n];
    StepTopics(Run(NewGroup(), front, cfg), events[n], cfg, id);
    var topics := Run(NewGroup(), events, cfg).members[id].topics;
    if events[n].op == Join(id, topics) {
      i := n;
    } else {
      i := TopicsOfLastJoin(front, cfg, id);
    }
  }

  /** The members' assignments divide what `parts` has for the topics they subscribe to: each partition of
      such a topic belongs to exactly one member, and nobody holds anything else. */
  ghost predicate DividesReading(g: Group, parts: Partitions) {
    && (forall id, t, x :: id in g.members && t in g.members[id].topics && t in parts && x in parts[t] ==>
          exists owner :: owner in g.members && OwnedOnlyBy(g, t, x, owner))
    && (forall id, t, x :: Holds(g, id, t, x) ==>
          t in parts && x in parts[t] && exists j :: j in g.members && t in g.members[j].topics)
  }

  lemma DividedReading(g: Group, parts: Partitions)
    requires Divides(g, AssignedFrom(g.members, parts))
    ensures DividesReading(g, parts)
  {
    hide OwnedOnlyBy, Holds;
    var tp := AssignedFrom(g.members, parts);
    forall id, t, x | id in g.members && t in g.members[id].topics && t in parts && x in parts[t]
      ensures exists owner :: owner in g.members && OwnedOnlyBy(g, t, x, owner)
    {
      assert t in tp && x in tp[t];
    }
    forall id, t, x | Holds(g, id, t, x)
      ensures t in parts && x in parts[t] && exists j :: j in g.members && t in g.members[j].topics
    {
      assert t in tp && x in tp[t];
    }
  }

  /** Over whole runs: an assigned group divides the metadata as the event read it that made the assignment,
      for the topics its members last joined with; and it is led by the member with the least id. */
  lemma AssignmentFromRequests(events: seq<Event>, cfg: Config) returns (i: nat)
    requires cfg.session >= 0 && AllPartsOk(events) && Assigned(Run(NewGroup(), events, cfg))
    ensures MadeBy(NewGroup(), events, i, cfg)
    ensures var h := Run(NewGroup(), events, cfg);
            && DividesReading(h, events[i].parts)
            && (forall id :: id in h.members ==> exists j :: LastJoin(events, j, id, h.members[id].topics))
            && h.leader in h.members && forall id :: id in h.members ==> NotAfter(h.leader, id)
  {
    hide Run, Divides, AssignedBy, AssignedFrom, NotAfter, LastJoin, SortedIds, PartsOk;
    var h := Run(NewGroup(), events, cfg);
    i := AssignmentOfRun(events, cfg);
    DividedReading(h, events[i].parts);
    forall id | id in h.members ensures exists j :: LastJoin(events, j, id, h.members[id].topics) {
      var j := TopicsOfLastJoin(events, cfg, id);
    }
    NewGroupInv();
    RunKeepsInv(NewGroup(), events, cfg);
    LeaderIsLeast(h);
  }

  lemma LeaderIsLeast(g: Group)
    requires Inv(g) && Assigned(g)
    ensures g.leader in g.members && forall id :: id in g.members ==> NotAfter(g.leader, id)
  {
    hide SortedIds, AssignedBy, NotAfter, StrLe, Distinct, SortStrings, Enumerate;
    HasMembers(g);
    SortedIdsLaw(g.members.Keys, Enumerate(g.members.Keys));
    forall id | id in g.members ensures NotAfter(g.leader, id) {
      StrLeIff(g.leader, id);
    }
  }
}
