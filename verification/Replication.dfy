/** One partition under one leader's tenure, as a system of atomic steps. Messages stay in the network
    for ever, so every step may act on a delayed, repeated or reordered one; which replicas are alive
    and fresh is chosen anew at every recomputation. */
module Replication {
  import opened Bytes
  import opened Records
  import opened Views
  import opened Index
  import opened ReadLaws
  import opened Segments
  import opened FailingReads
  import opened Logs

  // ---------------------------------------------------------------------------------------------
  // Leader and follower decisions, shared with the broker classes
  // ---------------------------------------------------------------------------------------------

  /** The replicas, other than the leader, that are eligible and have reported an end offset. */
  function Reporting(self: int, replicas: seq<int>, known: map<int, int>, eligible: set<int>): seq<int> {
    if replicas == [] then []
    else
      var front := Reporting(self, replicas[..|replicas| - 1], known, eligible);
      var id := replicas[|replicas| - 1];
      if id != self && id in eligible && id in known then front + [id] else front
  }

  function InSync(self: int, replicas: seq<int>, known: map<int, int>, eligible: set<int>): seq<int> {
    [self] + Reporting(self, replicas, known, eligible)
  }

  /** The least end offset the leader knows of in `isr`, starting from its own. */
  function MinLeo(self: int, isr: seq<int>, known: map<int, int>, leo: int): int {
    if isr == [] then leo
    else
      var m := MinLeo(self, isr[..|isr| - 1], known, leo);
      var id := isr[|isr| - 1];
      if id != self && id in known && known[id] < m then known[id] else m
  }

  /** Same length, and every element of `b` occurs in `a`. */
  predicate SameInts(a: seq<int>, b: seq<int>) {
    |a| == |b| && forall x :: x in b ==> x in a
  }

  /** The follower's record loop: skip what it has, stop at a gap, append the rest. */
  function ApplyBatch(log: seq<Record>, recs: seq<Record>, now: int64): seq<Record>
    decreases |recs|
  {
    if recs == [] then log
    else if recs[0].offset < |log| then ApplyBatch(log, recs[1..], now)
    else if recs[0].offset > |log| then log
    else ApplyBatch(log + [Stamp(recs[0], now)], recs[1..], now)
  }

  // ---------------------------------------------------------------------------------------------
  // State and steps
  // ---------------------------------------------------------------------------------------------

  datatype Follower = Follower(log: seq<Record>, hw: int)
  datatype Reply = Reply(recs: seq<Record>, hw: int)
  datatype Ack = Ack(id: int, leo: int)

  /** A high watermark together with the in-sync replicas it was computed from. */
  datatype Advance = Advance(h: int, isr: seq<int>)

  datatype Tenure = Tenure(
    self: int, replicas: seq<int>, maxBytes: int, start: int,
    view: seq<Seg>, hw: int, isr: seq<int>, known: map<int, int>,
    followers: map<int, Follower>,
    batches: set<seq<Record>>, replies: set<Reply>, acks: set<Ack>, pending: set<Advance>,
    advances: seq<Advance>, acked: set<int>, solo: bool)

  datatype Step =
    | Produce(key: seq<byte>, value: seq<byte>, now: int64)
    | NoteSelf
    | ServeRead(from: int, maxBytes: int, maxOffset: int)
    | SendReply(batch: seq<Record>)
    | Apply(follower: int, reply: Reply, clock: int64)
    | SendAck(follower: int)
    | NoteReplica(ack: Ack)
    | Recompute(eligible: set<int>)
    | SoloCheck
    | SoloPublish
    | SetHW(advance: Advance)
    | AckAll(offset: int)
    | OverwriteISR(isr: seq<int>)
    | RestartFollower(follower: int)

  /** A step that is not enabled changes nothing. A recomputation only hands its result to a pending
      advance: the source sets the high watermark later, outside the lock. Finding the leader alone in
      the stored set and publishing the log end are two steps as well; the set may change and the log
      may grow between them. */
  function Do(c: Tenure, s: Step): Tenure
    requires c.view != []
    ensures Do(c, s).view != []
  {
    match s
    case Produce(key, value, now) =>
      // The clock of a running system is not at the Unix epoch, and a log holds fewer than 2^63 records.
      if now != 0 && 0 <= Leo(c.view) < TWO_63 - 1
      then c.(view := AppendView(c.view, Record(Leo(c.view), now, key, value), c.maxBytes)) else c
    case NoteSelf => c.(known := c.known[c.self := Leo(c.view)])
    case ServeRead(from, maxBytes, maxOffset) => c.(batches := c.batches + {Read(c.view, from, maxBytes, maxOffset)})
    case SendReply(batch) => if batch in c.batches then c.(replies := c.replies + {Reply(batch, c.hw)}) else c
    case Apply(f, reply, clock) =>
      if f in c.followers && reply in c.replies then
        var log := ApplyBatch(c.followers[f].log, reply.recs, clock);
        c.(followers := c.followers[f := Follower(log, NewHighWatermark(c.followers[f].hw, reply.hw, |log|))])
      else c
    case SendAck(f) => if f in c.followers then c.(acks := c.acks + {Ack(f, |c.followers[f].log|)}) else c
    case NoteReplica(ack) => if ack in c.acks then c.(known := c.known[ack.id := ack.leo]) else c
    case Recompute(eligible) =>
      var isr := InSync(c.self, c.replicas, c.known, eligible);
      c.(isr := if SameInts(c.isr, isr) then c.isr else isr,
         pending := c.pending + {Advance(MinLeo(c.self, isr, c.known, Leo(c.view)), isr)})
    case SoloCheck => if c.isr == [c.self] then c.(solo := true) else c
    case SoloPublish => if c.solo then c.(pending := c.pending + {Advance(Leo(c.view), [c.self])}) else c
    case SetHW(a) =>
      if a !in c.pending then c
      else
        var hw := NewHighWatermark(c.hw, a.h, Leo(c.view));
        if hw > c.hw then c.(hw := hw, advances := c.advances + [Advance(hw, a.isr)]) else c
    case AckAll(o) => if c.start <= o < c.hw then c.(acked := c.acked + {o}) else c
    case OverwriteISR(isr) => c.(isr := isr)
    case RestartFollower(f) =>
      if f in c.followers then c.(followers := c.followers[f := c.followers[f].(hw := 0)]) else c
  }

  function Run(c: Tenure, steps: seq<Step>): (r: Tenure)
    requires c.view != []
    ensures r.view != []
  {
    if steps == [] then c else Do(Run(c, steps[..|steps| - 1]), steps[|steps| - 1])
  }

  // ---------------------------------------------------------------------------------------------
  // What every step keeps
  // ---------------------------------------------------------------------------------------------

  function LogOf(c: Tenure): seq<Record> {
    Flat(c.view)
  }

  /** Records that are the log's own, each at the offset it carries. */
  predicate FromLog(recs: seq<Record>, log: seq<Record>) {
    forall i :: 0 <= i < |recs| ==> 0 <= recs[i].offset < |log| && recs[i] == log[recs[i].offset]
  }

  predicate Timed(log: seq<Record>) {
    forall i :: 0 <= i < |log| ==> log[i].timestamp != 0
  }

  /** Every member other than the leader is a follower holding at least `h` records. */
  predicate HeldBy(isr: seq<int>, h: int, self: int, followers: map<int, Follower>) {
    forall i :: 0 <= i < |isr| && isr[i] != self ==> isr[i] in followers && h <= |followers[isr[i]].log|
  }

  predicate LogsOk(c: Tenure) {
    && c.view != [] && ValidView(c.view) && Timed(LogOf(c))
    && 0 <= c.hw <= |LogOf(c)| && 0 <= c.start <= |LogOf(c)|
    && c.self !in c.followers
    && forall f :: f in c.followers ==>
         c.followers[f].log <= LogOf(c) && 0 <= c.followers[f].hw <= |c.followers[f].log|
  }

  predicate MessagesOk(c: Tenure) {
    && (forall b :: b in c.batches ==> FromLog(b, LogOf(c)))
    && (forall r :: r in c.replies ==> FromLog(r.recs, LogOf(c)) && r.hw <= c.hw)
    && (forall a :: a in c.acks ==> a.id in c.followers && a.leo <= |c.followers[a.id].log|)
    && (forall id :: id in c.known && id != c.self ==> id in c.followers && c.known[id] <= |c.followers[id].log|)
    && (forall p :: p in c.pending ==> p.h <= |LogOf(c)| && HeldBy(p.isr, p.h, c.self, c.followers))
  }

  predicate HistoryOk(c: Tenure) {
    && (forall i :: 0 <= i < |c.advances| ==>
          0 < c.advances[i].h <= c.hw && HeldBy(c.advances[i].isr, c.advances[i].h, c.self, c.followers))
    && (c.advances != [] ==> c.advances[|c.advances| - 1].h == c.hw)
    && (c.advances == [] ==> c.hw <= c.start)
    && (forall o :: o in c.acked ==> c.start <= o < c.hw)
  }

  ghost predicate Inv(c: Tenure) {
    LogsOk(c) && MessagesOk(c) && HistoryOk(c)
  }

  /** A new tenure: nothing in flight yet, follower logs are prefixes of the leader's, and whatever the
      leader remembers of its followers' ends from earlier is not ahead of them. */
  ghost predicate Init(c: Tenure) {
    && LogsOk(c) && c.start == |LogOf(c)|
    && c.batches == {} && c.replies == {} && c.acks == {} && c.pending == {}
    && c.advances == [] && c.acked == {}
    && (forall id :: id in c.known && id != c.self ==> id in c.followers && c.known[id] <= |c.followers[id].log|)
  }

  /** Nothing is taken back: logs, high watermark, history and acknowledgements only grow. A follower's
      watermark gets past where it was only under the leader's. */
  predicate Grows(c: Tenure, d: Tenure) {
    && c.self == d.self && c.replicas == d.replicas && c.start == d.start
    && LogOf(c) <= LogOf(d) && c.hw <= d.hw
    && c.followers.Keys == d.followers.Keys
    && (forall f :: f in c.followers ==>
          && c.followers[f].log <= d.followers[f].log
          && (d.followers[f].hw <= c.followers[f].hw || d.followers[f].hw <= d.hw))
    && c.advances <= d.advances && c.acked <= d.acked && c.batches <= d.batches
  }

  // ---------------------------------------------------------------------------------------------
  // Step by step
  // ---------------------------------------------------------------------------------------------

  /** Applying records of the leader's log to a prefix of it gives a longer prefix, holes or not. */
  lemma {:induction false} ApplyKeepsPrefix(mine: seq<Record>, recs: seq<Record>, clock: int64, log: seq<Record>)
    requires mine <= log && FromLog(recs, log) && Timed(log)
    ensures mine <= ApplyBatch(mine, recs, clock) <= log
    decreases |recs|
  {
    if recs != [] {
      assert FromLog(recs[1..], log);
      if recs[0].offset < |mine| {
        ApplyKeepsPrefix(mine, recs[1..], clock, log);
      } else if recs[0].offset == |mine| {
        ApplyKeepsPrefix(mine + [Stamp(recs[0], clock)], recs[1..], clock, log);
      }
    }
  }

  /** What a follower gets out of a batch: all of its first run that reaches beyond its own end, and
      nothing after a gap. */
  lemma {:induction false} ApplyTakesRun(mine: seq<Record>, recs: seq<Record>, clock: int64, log: seq<Record>,
                                         from: nat, m: nat)
    requires mine <= log && Consecutive(log, 0) && Timed(log) && from <= |mine|
    requires m <= |recs| && Contiguous(recs[..m], log, from)
    requires m < |recs| ==> recs[m].offset > |mine| && recs[m].offset > from + m
    ensures ApplyBatch(mine, recs, clock) == log[..if from + m > |mine| then from + m else |mine|]
    decreases m
  {
    hide Consecutive;
    assert mine == log[..|mine|];
    if m > 0 {
      assert recs[0] == recs[..m][0] == log[from] && log[from].offset == from by { OffsetAt(log, from); }
      assert recs[1..][..m - 1] == recs[..m][1..] == log[from + 1..from + m];
      if from < |mine| {
        ApplyTakesRun(mine, recs[1..], clock, log, from + 1, m - 1);
      } else {
        assert mine + [log[from]] == log[..from + 1];
        ApplyTakesRun(mine + [Stamp(recs[0], clock)], recs[1..], clock, log, from + 1, m - 1);
      }
    }
  }

  lemma OffsetAt(log: seq<Record>, i: nat)
    requires Consecutive(log, 0) && i < |log|
    ensures log[i].offset == i
  {
  }

  /** Exactly the eligible replicas that have reported, the leader itself aside. */
  lemma {:induction false} ReportingExact(self: int, replicas: seq<int>, known: map<int, int>, eligible: set<int>)
    ensures forall id :: id in Reporting(self, replicas, known, eligible) <==>
              id != self && id in replicas && id in eligible && id in known
  {
    if replicas != [] {
      var n := |replicas| - 1;
      ReportingExact(self, replicas[..n], known, eligible);
      assert replicas == replicas[..n] + [replicas[n]];
    }
  }

  /** The minimum is at most the leader's own end and every end reported by a member, and it is one of them. */
  lemma {:induction false} MinLeoIsMinimum(self: int, isr: seq<int>, known: map<int, int>, leo: int)
    ensures var m := MinLeo(self, isr, known, leo);
            && m <= leo && (forall i :: 0 <= i < |isr| && isr[i] != self && isr[i] in known ==> m <= known[isr[i]])
            && (m == leo || exists i :: 0 <= i < |isr| && isr[i] != self && isr[i] in known && m == known[isr[i]])
  {
    if isr != [] {
      var n := |isr| - 1;
      var front := isr[..n];
      MinLeoIsMinimum(self, front, known, leo);
      var m := MinLeo(self, front, known, leo);
      if m != leo {
        var i :| 0 <= i < |front| && front[i] != self && front[i] in known && m == known[front[i]];
        assert isr[i] == front[i];
      }
      forall i | 0 <= i < n && isr[i] != self && isr[i] in known
        ensures m <= known[isr[i]]
      {
        assert front[i] == isr[i];
      }
    }
  }

  lemma RecomputeHeld(c: Tenure, eligible: set<int>)
    requires c.view != [] && MessagesOk(c)
    ensures var isr := InSync(c.self, c.replicas, c.known, eligible);
            var h := MinLeo(c.self, isr, c.known, Leo(c.view));
            h <= Leo(c.view) && HeldBy(isr, h, c.self, c.followers)
  {
    var isr := InSync(c.self, c.replicas, c.known, eligible);
    ReportingExact(c.self, c.replicas, c.known, eligible);
    assert forall i :: 1 <= i < |isr| ==> isr[i] in Reporting(c.self, c.replicas, c.known, eligible);
    MinLeoIsMinimum(c.self, isr, c.known, Leo(c.view));
  }

  lemma ReadFromLog(view: seq<Seg>, from: int, maxBytes: int, maxOffset: int)
    requires ValidView(view)
    ensures FromLog(Read(view, from, maxBytes, maxOffset), Flat(view))
  {
    hide ReadLoop, Flat;
    ValidTiles(view);
    ReadLoopSound(view, Flat(view), from, 0, EffectiveBytes(maxBytes), EffectiveCap(view, maxOffset));
  }

  lemma FromLogGrows(recs: seq<Record>, log: seq<Record>, more: seq<Record>)
    requires FromLog(recs, log) && log <= more
    ensures FromLog(recs, more)
  {
  }

  lemma HeldByGrows(isr: seq<int>, h: int, self: int, before: map<int, Follower>, after: map<int, Follower>)
    requires HeldBy(isr, h, self, before)
    requires forall f :: f in before ==> f in after && |before[f].log| <= |after[f].log|
    ensures HeldBy(isr, h, self, after)
  {
  }

  lemma ProduceLogs(c: Tenure, r: Record)
    requires LogsOk(c) && r.offset == Leo(c.view) && r.timestamp != 0
    ensures var d := c.(view := AppendView(c.view, r, c.maxBytes));
            LogsOk(d) && LogOf(c) <= LogOf(d)
  {
    hide Flat, AppendView;
    AppendGrowsFlat(c.view, r, c.maxBytes);
    hide ValidView;
  }

  lemma ApplyLogs(c: Tenure, f: int, reply: Reply, clock: int64)
    requires LogsOk(c) && f in c.followers && FromLog(reply.recs, LogOf(c)) && reply.hw <= c.hw
    ensures var log := ApplyBatch(c.followers[f].log, reply.recs, clock);
            var hw := NewHighWatermark(c.followers[f].hw, reply.hw, |log|);
            var d := c.(followers := c.followers[f := Follower(log, hw)]);
            LogsOk(d) && c.followers[f].log <= log
  {
    hide ValidView, Flat, FromLog, ApplyBatch;
    ApplyKeepsPrefix(c.followers[f].log, reply.recs, clock, LogOf(c));
  }

  lemma RestartLogs(c: Tenure, f: int)
    requires LogsOk(c) && f in c.followers
    ensures LogsOk(c.(followers := c.followers[f := c.followers[f].(hw := 0)])) && 0 <= c.followers[f].hw
  {
    hide ValidView, Flat, Timed;
  }

  lemma LogsFrame(c: Tenure, d: Tenure)
    requires LogsOk(c)
    requires d.view == c.view && d.followers == c.followers && d.start == c.start && d.self == c.self
    requires c.hw <= d.hw && (d.hw == c.hw || d.hw <= Leo(c.view))
    ensures LogsOk(d)
  {
    FlatLength(c.view);
    hide ValidView, Flat, Timed;
  }

  lemma StepLogs(c: Tenure, s: Step)
    requires Inv(c)
    ensures LogsOk(Do(c, s)) && Grows(c, Do(c, s))
  {
    hide Flat, Read, AppendView, ApplyBatch, FromLog, HeldBy, InSync, MinLeo, LogsOk, ValidView, SameInts;
    LogsShape(c);
    match s
    case Produce(key, value, now) =>
      if now != 0 && 0 <= Leo(c.view) < TWO_63 - 1 {
        ProduceLogs(c, Record(Leo(c.view), now, key, value));
      }
    case Apply(f, reply, clock) =>
      if f in c.followers && reply in c.replies {
        ApplyLogs(c, f, reply, clock);
      }
    case RestartFollower(f) =>
      if f in c.followers {
        RestartLogs(c, f);
      }
    case _ => OtherLogs(c, s);
  }

  /** The steps that leave the logs alone. */
  lemma OtherLogs(c: Tenure, s: Step)
    requires LogsOk(c) && c.view != [] && !s.Produce? && !s.Apply? && !s.RestartFollower?
    ensures LogsOk(Do(c, s)) && Grows(c, Do(c, s))
  {
    hide Flat, Read, InSync, MinLeo, LogsOk, ValidView, SameInts;
    LogsFrame(c, Do(c, s));
  }

  lemma LogsShape(c: Tenure)
    requires LogsOk(c)
    ensures c.view != [] && |LogOf(c)| == Leo(c.view)
  {
    FlatLength(c.view);
  }

  /** Messages already sent stay true when nothing is taken back. */
  lemma MessagesFrame(c: Tenure, d: Tenure)
    requires MessagesOk(c) && Grows(c, d)
    requires d.batches == c.batches && d.replies == c.replies && d.acks == c.acks && d.known == c.known
             && d.pending == c.pending
    ensures MessagesOk(d)
  {
    hide Flat;
    forall b | b in c.batches ensures FromLog(b, LogOf(d)) {
      FromLogGrows(b, LogOf(c), LogOf(d));
    }
    forall r | r in c.replies ensures FromLog(r.recs, LogOf(d)) {
      FromLogGrows(r.recs, LogOf(c), LogOf(d));
    }
    forall p | p in c.pending ensures HeldBy(p.isr, p.h, d.self, d.followers) {
      HeldByGrows(p.isr, p.h, c.self, c.followers, d.followers);
    }
  }

  lemma StepMessages(c: Tenure, s: Step)
    requires Inv(c) && Grows(c, Do(c, s))
    ensures MessagesOk(Do(c, s))
  {
    hide ValidView, Flat, Read, AppendView, ApplyBatch, FromLog, HeldBy, InSync, MinLeo, Grows;
    var d := Do(c, s);
    FlatLength(c.view);
    match s
    case ServeRead(from, maxBytes, maxOffset) => ReadFromLog(c.view, from, maxBytes, maxOffset);
    case SendReply(batch) =>
    case SendAck(f) =>
    case NoteReplica(ack) =>
    case NoteSelf =>
    case Recompute(eligible) => RecomputeHeld(c, eligible);
    case SoloPublish => LeaderHolds(c.self, Leo(c.view), c.followers);
    case _ => MessagesFrame(c, d);
  }

  lemma LeaderHolds(self: int, h: int, followers: map<int, Follower>)
    ensures HeldBy([self], h, self, followers)
  {
  }

  /** A pending result is still good when it is finally set, even capped at the log end. */
  lemma StepHistory(c: Tenure, s: Step)
    requires Inv(c) && Grows(c, Do(c, s))
    ensures HistoryOk(Do(c, s))
  {
    hide ValidView, Flat, Read, AppendView, ApplyBatch, FromLog, InSync, MinLeo;
    var d := Do(c, s);
    forall i | 0 <= i < |c.advances|
      ensures HeldBy(c.advances[i].isr, c.advances[i].h, d.self, d.followers)
    {
      HeldByGrows(c.advances[i].isr, c.advances[i].h, c.self, c.followers, d.followers);
    }
  }

  lemma StepKeepsInv(c: Tenure, s: Step)
    requires Inv(c)
    ensures Inv(Do(c, s)) && Grows(c, Do(c, s))
  {
    hide LogsOk, MessagesOk, HistoryOk, Grows, Do;
    StepLogs(c, s);
    StepMessages(c, s);
    StepHistory(c, s);
  }

  // ---------------------------------------------------------------------------------------------
  // Whole runs
  // ---------------------------------------------------------------------------------------------

  lemma GrowsTransitive(c: Tenure, d: Tenure, e: Tenure)
    requires Grows(c, d) && Grows(d, e)
    ensures Grows(c, e)
  {
  }

  lemma {:induction false} RunKeepsInv(c: Tenure, steps: seq<Step>)
    requires c.view != [] && Inv(c)
    ensures Inv(Run(c, steps)) && Grows(c, Run(c, steps))
  {
    hide Do, Inv;
    if steps == [] {
      assert Grows(c, c);
    } else {
      var front := steps[..|steps| - 1];
      RunKeepsInv(c, front);
      StepKeepsInv(Run(c, front), steps[|steps| - 1]);
      GrowsTransitive(c, Run(c, front), Run(c, steps));
    }
  }

  lemma {:induction false} RunConcat(c: Tenure, first: seq<Step>, more: seq<Step>)
    requires c.view != []
    ensures Run(c, first + more) == Run(Run(c, first), more)
    decreases |more|
  {
    hide Do;
    if more == [] {
      assert first + more == first;
    } else {
      var n := |more| - 1;
      assert (first + more)[..|first + more| - 1] == first + more[..n];
      RunConcat(c, first, more[..n]);
    }
  }

  lemma InitIsInv(c: Tenure)
    requires Init(c)
    ensures c.view != [] && Inv(c)
  {
    hide Flat;
  }

  /** Every follower's log is a prefix of the leader's, after any steps in any order. */
  lemma FollowerPrefix(c: Tenure, steps: seq<Step>, f: int)
    requires Init(c) && f in c.followers
    ensures var d := Run(c, steps); f in d.followers && d.followers[f].log <= LogOf(d)
  {
    InitIsInv(c);
    RunKeepsInv(c, steps);
  }

  /** `id` holds exactly the leader's records below `h`. */
  predicate HoldsBelow(c: Tenure, id: int, h: int) {
    && 0 <= h <= |LogOf(c)|
    && (id == c.self || (id in c.followers && h <= |c.followers[id].log| && c.followers[id].log[..h] == LogOf(c)[..h]))
  }

  /** Every member of the in-sync set that an advance of the high watermark was computed from holds
      the leader's records below it, from that moment on for the rest of the tenure. */
  lemma AdvanceSafety(c: Tenure, first: seq<Step>, more: seq<Step>, i: nat, id: int)
    requires Init(c) && c.view != [] && i < |Run(c, first).advances| && id in Run(c, first).advances[i].isr
    ensures var d, e := Run(c, first), Run(c, first + more);
            && i < |e.advances| && e.advances[i] == d.advances[i]
            && HoldsBelow(d, id, d.advances[i].h) && HoldsBelow(e, id, d.advances[i].h)
            && LogOf(e)[..d.advances[i].h] == LogOf(d)[..d.advances[i].h]
  {
    hide Do, Run, Inv, Init, HoldsBelow, Flat;
    InitIsInv(c);
    RunKeepsInv(c, first);
    RunConcat(c, first, more);
    RunKeepsInv(Run(c, first), more);
    AdvanceHeldOn(Run(c, first), Run(c, first + more), i, id);
  }

  lemma AdvanceHeldOn(d: Tenure, e: Tenure, i: nat, id: int)
    requires Inv(d) && Inv(e) && Grows(d, e) && i < |d.advances| && id in d.advances[i].isr
    ensures i < |e.advances| && e.advances[i] == d.advances[i]
    ensures HoldsBelow(d, id, d.advances[i].h) && HoldsBelow(e, id, d.advances[i].h)
    ensures LogOf(e)[..d.advances[i].h] == LogOf(d)[..d.advances[i].h]
  {
    hide Inv, HoldsBelow, Flat;
    AdvanceHeld(d, i, id);
    AdvanceHeld(e, i, id);
    hide Grows;
    HeldWithin(d, id, d.advances[i].h);
  }

  lemma HeldWithin(c: Tenure, id: int, h: int)
    requires HoldsBelow(c, id, h)
    ensures 0 <= h <= |LogOf(c)|
  {
  }

  lemma AdvanceHeld(c: Tenure, i: nat, id: int)
    requires Inv(c) && i < |c.advances| && id in c.advances[i].isr
    ensures HoldsBelow(c, id, c.advances[i].h)
  {
    var isr := c.advances[i].isr;
    var j :| 0 <= j < |isr| && isr[j] == id;
  }

  /** A produce with acks=all that returned success for offset o: some advance of this tenure went past
      o, and every member of the latest advance's in-sync set holds everything below the high
      watermark, the record at o included. Failing over to such a member keeps it. */
  lemma AckedDurable(c: Tenure, steps: seq<Step>, o: int)
    requires Init(c) && c.view != [] && o in Run(c, steps).acked
    ensures var d := Run(c, steps);
            && 0 <= o < d.hw && d.advances != []
            && var last := d.advances[|d.advances| - 1];
               last.h == d.hw && forall id :: id in last.isr ==> HoldsBelow(d, id, d.hw)
  {
    InitIsInv(c);
    RunKeepsInv(c, steps);
    var d := Run(c, steps);
    hide Run, Do, Init, HoldsBelow;
    var n := |d.advances|;
    forall id | n > 0 && id in d.advances[n - 1].isr
      ensures HoldsBelow(d, id, d.hw)
    {
      AdvanceHeld(d, n - 1, id);
    }
  }

  /** On every broker 0 <= HW <= LEO, and the leader's never decreases. A follower's never passes the
      leader's, unless it was past it when the tenure began (the leader restarts at 0), and then it
      stays where it was. */
  lemma HighWatermarkLaws(c: Tenure, first: seq<Step>, more: seq<Step>)
    requires Init(c) && c.view != []
    ensures var d, e := Run(c, first), Run(c, first + more);
            && 0 <= d.hw <= |LogOf(d)| && d.hw <= e.hw
            && (forall f :: f in c.followers ==>
                  && f in e.followers && 0 <= e.followers[f].hw <= |e.followers[f].log|
                  && (e.followers[f].hw <= c.followers[f].hw || e.followers[f].hw <= e.hw)
                  && (c.followers[f].hw <= c.hw ==> e.followers[f].hw <= e.hw))
  {
    InitIsInv(c);
    RunKeepsInv(c, first);
    RunKeepsInv(Run(c, first), more);
    RunConcat(c, first, more);
  }

  /** Once a record has been read at some offset, every later read that covers the offset returns it. */
  lemma ReadsAreStable(c: Tenure, first: seq<Step>, more: seq<Step>,
                       early: seq<Record>, late: seq<Record>, i: nat, j: nat)
    requires Init(c) && c.view != []
    requires early in Run(c, first).batches && late in Run(c, first + more).batches
    requires i < |early| && j < |late| && early[i].offset == late[j].offset
    ensures early[i] == late[j]
  {
    InitIsInv(c);
    RunKeepsInv(c, first);
    RunKeepsInv(Run(c, first), more);
    RunConcat(c, first, more);
    FromLogGrows(early, LogOf(Run(c, first)), LogOf(Run(c, first + more)));
  }

  // ---------------------------------------------------------------------------------------------
  // What is not promised
  // ---------------------------------------------------------------------------------------------

  /** After a recomputation whose result is set at once, the high watermark is the least end offset the
      leader knows in the in-sync set if and only if that least end is not below the old high
      watermark; otherwise a member has joined the set behind it and the watermark stays. */
  lemma WatermarkIsMinimumIff(c: Tenure, eligible: set<int>)
    requires Inv(c)
    ensures var isr := InSync(c.self, c.replicas, c.known, eligible);
            var h := MinLeo(c.self, isr, c.known, Leo(c.view));
            var d := Do(Do(c, Recompute(eligible)), SetHW(Advance(h, isr)));
            && (d.hw == h <==> c.hw <= h)
            && (c.hw > h ==> d.hw == c.hw)
  {
    hide ValidView, Flat, InSync, MinLeo;
    LogsShape(c);
    RecomputeHeld(c, eligible);
  }

  /** A follower that has reported an end offset of 0 and sits out the in-sync set for a while. */
  function LaggardStart(): Tenure {
    Tenure(1, [1, 2], 1000, 0, [Seg(0, [])], 0, [1], map[2 := 0], map[2 := Follower([], 0)],
           {}, {}, {}, {}, [], {}, false)
  }

  function LaggardSteps(key: seq<byte>, value: seq<byte>, now: int64): seq<Step> {
    [Produce(key, value, now), Recompute({}), SetHW(Advance(1, [1])), AckAll(0), Recompute({2})]
  }

  /** The run that shows it: a record acknowledged with acks=all, and a replica in the stored in-sync
      set that does not hold it, because joining the set asks only for a recent report. */
  lemma StoredSetMayLag(key: seq<byte>, value: seq<byte>, now: int64)
    requires now != 0
    ensures Init(LaggardStart())
    ensures var d := Run(LaggardStart(), LaggardSteps(key, value, now));
            && d.isr == [1, 2] && 0 in d.acked && d.hw == 1
            && 2 in d.followers && d.followers[2].log == []
  {
    hide Flat, Run, AppendView, Init, Do;
    LaggardInit();
    var c, s := LaggardStart(), LaggardSteps(key, value, now);
    var r := Record(0, now, key, value);
    RunAt(c, s, 0);
    LaggardProduced(key, value, now);
    assert Run(c, s[..1]) == c.(view := [Seg(0, [r])]);
    RunAt(c, s, 1);
    RunAt(c, s, 2);
    RunAt(c, s, 3);
    LaggardAcked(c.(view := [Seg(0, [r])]));
    LaggardJoins(Run(c, s[..4]));
    RunAt(c, s, 4);
    assert s[..5] == s;
  }

  lemma LaggardInit()
    ensures Init(LaggardStart())
  {
    var view := LaggardStart().view;
    assert view[..0] == [] && Flat(view) == Flat([]) + [] == [];
  }

  lemma LaggardProduced(key: seq<byte>, value: seq<byte>, now: int64)
    requires now != 0
    ensures Do(LaggardStart(), Produce(key, value, now))
            == LaggardStart().(view := [Seg(0, [Record(0, now, key, value)])])
  {
    hide AppendView;
    LaggardView(Record(0, now, key, value));
  }

  lemma LaggardAcked(c: Tenure)
    requires c.view != [] && Leo(c.view) == 1 && c == LaggardStart().(view := c.view)
    ensures var d := Do(Do(Do(c, Recompute({})), SetHW(Advance(1, [1]))), AckAll(0));
            && d.view == c.view && d.self == 1 && d.replicas == [1, 2] && d.known == c.known
            && d.followers == c.followers
            && d.hw == 1 && d.isr == [1] && d.acked == {0}
  {
    hide InSync, MinLeo;
    LaggardChoices();
  }

  lemma LaggardJoins(c: Tenure)
    requires c.view != [] && c.self == 1 && c.replicas == [1, 2] && c.known == map[2 := 0] && c.isr == [1]
    ensures Do(c, Recompute({2})) == c.(isr := [1, 2], pending := Do(c, Recompute({2})).pending)
  {
    hide InSync, MinLeo;
    LaggardChoices();
  }

  lemma LaggardView(r: Record)
    ensures AppendView([Seg(0, [])], r, 1000) == [Seg(0, [r])]
  {
    assert [Seg(0, [])][..0] == [] && [] + [r] == [r];
  }

  lemma LaggardChoices()
    ensures InSync(1, [1, 2], map[2 := 0], {}) == [1] && MinLeo(1, [1], map[2 := 0], 1) == 1
    ensures InSync(1, [1, 2], map[2 := 0], {2}) == [1, 2]
  {
    assert [1, 2][..1] == [1] && [1][..0] == [];
  }

  lemma RunAt(c: Tenure, s: seq<Step>, i: nat)
    requires c.view != [] && i < |s|
    ensures Run(c, s[..0]) == c
    ensures Run(c, s[..i + 1]) == Do(Run(c, s[..i]), s[i])
  {
    hide Do;
    assert s[..i + 1][..i] == s[..i];
  }

  // ---------------------------------------------------------------------------------------------
  // Catching up
  // ---------------------------------------------------------------------------------------------

  /** One reliable round of the follower loop against a quiet leader: fetch from the own log end up to
      the leader's, and apply. When the leader's read fails, the follower tries again later. */
  function FetchRound(view: seq<Seg>, interval: int, mine: seq<Record>, maxBytes: int, clock: int64): seq<Record>
    requires view != []
  {
    match ReadOrFail(view, interval, |mine|, maxBytes, Leo(view))
    case ReadFailed(_) => mine
    case ReadOk(recs) => ApplyBatch(mine, recs, clock)
  }

  function Rounds(view: seq<Seg>, interval: int, mine: seq<Record>, maxBytes: int, clock: int64, n: nat): seq<Record>
    requires view != []
    decreases n
  {
    if n == 0 then mine
    else Rounds(view, interval, FetchRound(view, interval, mine, maxBytes, clock), maxBytes, clock, n - 1)
  }

  /** A round keeps the follower's log a prefix of the leader's. It gains something, even when its batch
      has holes, if and only if the follower is behind and the leader's read does not fail. */
  lemma RoundProgress(view: seq<Seg>, interval: int, mine: seq<Record>, maxBytes: int, clock: int64)
    requires ValidView(view) && Timed(Flat(view)) && mine <= Flat(view)
    ensures var next := FetchRound(view, interval, mine, maxBytes, clock);
            && mine <= next <= Flat(view)
            && (|mine| < |next| <==>
                  |mine| < |Flat(view)| && ReadOrFail(view, interval, |mine|, maxBytes, Leo(view)).ReadOk?)
  {
    hide ReadOrFail, Read, Flat, NextTooBig, Batch;
    FlatLength(view);
    var recs := Read(view, |mine|, maxBytes, Leo(view));
    ReadWhenOk(view, interval, |mine|, maxBytes, Leo(view));
    ReadFromLog(view, |mine|, maxBytes, Leo(view));
    ApplyKeepsPrefix(mine, recs, clock, Flat(view));
    ReadRefines(view, |mine|, maxBytes, Leo(view));
    if |mine| < |Flat(view)| {
      assert FromLog(recs[1..], Flat(view));
      ApplyKeepsPrefix(mine + [Stamp(recs[0], clock)], recs[1..], clock, Flat(view));
    }
  }

  /** No round takes a follower past a record over 64 MiB. */
  lemma RoundBlocked(view: seq<Seg>, interval: int, mine: seq<Record>, maxBytes: int, clock: int64, o: nat)
    requires ValidView(view) && Timed(Flat(view)) && mine <= Flat(view)
    requires |mine| <= o < |Flat(view)| && !Storable(Flat(view)[o])
    ensures |FetchRound(view, interval, mine, maxBytes, clock)| <= o
  {
    hide ReadOrFail, Read, Flat;
    ReadWhenOk(view, interval, |mine|, maxBytes, Leo(view));
    ReadFromLog(view, |mine|, maxBytes, Leo(view));
    var got := ReadOrFail(view, interval, |mine|, maxBytes, Leo(view));
    if got.ReadOk? {
      ApplyBlocked(mine, got.recs, clock, Flat(view), o);
    }
  }

  lemma {:induction false} ApplyBlocked(mine: seq<Record>, recs: seq<Record>, clock: int64, log: seq<Record>, o: nat)
    requires FromLog(recs, log) && AllStorable(recs) && |mine| <= o < |log| && !Storable(log[o])
    ensures |ApplyBatch(mine, recs, clock)| <= o
    decreases |recs|
  {
    hide Storable;
    if recs != [] {
      assert FromLog(recs[1..], log);
      if recs[0].offset < |mine| {
        ApplyBlocked(mine, recs[1..], clock, log, o);
      } else if recs[0].offset == |mine| {
        ApplyBlocked(mine + [Stamp(recs[0], clock)], recs[1..], clock, log, o);
      }
    }
  }

  /** With the leader quiet and all its records readable, as many rounds as the follower is records
      behind make the logs equal. */
  lemma {:induction false} CatchUp(view: seq<Seg>, interval: int, mine: seq<Record>, maxBytes: int, clock: int64,
                                   n: nat)
    requires ValidView(view) && Timed(Flat(view)) && mine <= Flat(view) && Legible(view)
    requires n >= |Flat(view)| - |mine|
    ensures Rounds(view, interval, mine, maxBytes, clock, n) == Flat(view)
    decreases n
  {
    hide FetchRound, Flat, Legible, ReadOrFail;
    if n > 0 {
      RoundProgress(view, interval, mine, maxBytes, clock);
      ReadWhenOk(view, interval, |mine|, maxBytes, Leo(view));
      CatchUp(view, interval, FetchRound(view, interval, mine, maxBytes, clock), maxBytes, clock, n - 1);
    }
  }

  /** However long it tries, a follower stays at or before a record over 64 MiB that is ahead of it. */
  lemma {:induction false} StuckBehind(view: seq<Seg>, interval: int, mine: seq<Record>, maxBytes: int, clock: int64,
                                       n: nat, o: nat)
    requires ValidView(view) && Timed(Flat(view)) && mine <= Flat(view)
    requires |mine| <= o < |Flat(view)| && !Storable(Flat(view)[o])
    ensures |Rounds(view, interval, mine, maxBytes, clock, n)| <= o
    decreases n
  {
    hide FetchRound, Flat, Storable;
    if n > 0 {
      RoundProgress(view, interval, mine, maxBytes, clock);
      RoundBlocked(view, interval, mine, maxBytes, clock, o);
      StuckBehind(view, interval, FetchRound(view, interval, mine, maxBytes, clock), maxBytes, clock, n - 1, o);
    }
  }

  /** A follower whose own records are readable catches up if and only if all of the leader's are. */
  lemma CatchUpIff(view: seq<Seg>, interval: int, mine: seq<Record>, maxBytes: int, clock: int64, n: nat)
    requires ValidView(view) && Timed(Flat(view)) && mine <= Flat(view) && AllStorable(mine)
    requires n >= |Flat(view)| - |mine|
    ensures Rounds(view, interval, mine, maxBytes, clock, n) == Flat(view) <==> AllStorable(Flat(view))
  {
    hide Flat, Storable, Rounds, Legible;
    LegibleIsFlat(view);
    assert forall i :: 0 <= i < |mine| ==> mine[i] == Flat(view)[i];
    if AllStorable(Flat(view)) {
      CatchUp(view, interval, mine, maxBytes, clock, n);
    } else {
      var o :| 0 <= o < |Flat(view)| && !Storable(Flat(view)[o]);
      StuckBehind(view, interval, mine, maxBytes, clock, n, o);
    }
  }
}
