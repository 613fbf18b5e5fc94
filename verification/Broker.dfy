/** The broker's side of replication, in place: the leader's bookkeeping for one partition, its produce
    path, and the follower's record loop. */
module Brokers {
  import opened Bytes
  import opened Records
  import opened Views
  import opened Logs
  import opened Replication
  import Segments
  import Controllers
  import opened Seqs

  datatype ReplicaState = ReplicaState(leo: int, lastSeen: int)

  /** Equal lengths and every element of `b` found among those of `a`. */
  method SameIntsCheck(a: seq<int>, b: seq<int>) returns (same: bool)
    ensures same == SameInts(a, b)
  {
    if |a| != |b| {
      return false;
    }
    var ma: set<int> := {};
    for i := 0 to |a|
      invariant ma == set x | x in a[..i]
    {
      Seqs.TakeSnoc(a, i);
      ma := ma + {a[i]};
    }
    assert a[..|a|] == a;
    for i := 0 to |b|
      invariant forall x :: x in b[..i] ==> x in a
    {
      if b[i] !in ma {
        var x := b[i];
        assert x in b && x !in a;
        assert !SameInts(a, b);
        return false;
      }
      Seqs.TakeSnoc(b, i);
    }
    assert b[..|b|] == b;
    return true;
  }

  /** What this broker keeps for one partition it leads. */
  class LeaderPartition {
    const id: int
    const replicas: seq<int>
    const lagTime: int
    const produceTimeout: int
    const lg: Log
    var isr: seq<int>
    var replicaLEO: map<int, ReplicaState>

    constructor (id: int, replicas: seq<int>, lagTime: int, produceTimeout: int, isr: seq<int>, lg: Log)
      ensures this.id == id && this.replicas == replicas && this.lg == lg
      ensures this.lagTime == lagTime && this.produceTimeout == produceTimeout
      ensures this.isr == isr && replicaLEO == map[]
    {
      this.id, this.replicas, this.lagTime, this.produceTimeout := id, replicas, lagTime, produceTimeout;
      this.lg, this.isr := lg, isr;
      replicaLEO := map[];
    }

    /** The end offsets reported so far. */
    function Known(): map<int, int>
      reads this`replicaLEO
    {
      map r | r in replicaLEO :: replicaLEO[r].leo
    }

    /** Alive, and heard from within the lag time. */
    function Eligible(alive: set<int>, now: int): set<int>
      reads this`replicaLEO
    {
      set r | r in replicaLEO && r in alive && now - replicaLEO[r].lastSeen <= lagTime
    }

    /** This object shows what the leader has in tenure `c`. */
    ghost predicate Shows(c: Tenure)
      reads this, lg`view, lg`hw
    {
      && id == c.self && replicas == c.replicas && lg.maxSegmentBytes == c.maxBytes
      && lg.view == c.view && lg.hw == c.hw && isr == c.isr && Known() == c.known
    }

    method NoteReplica(broker: int, leo: int, now: int)
      modifies this`replicaLEO
      ensures replicaLEO == old(replicaLEO)[broker := ReplicaState(leo, now)]
      ensures forall c: Tenure :: old(Shows(c)) && c.view != [] && broker == c.self && leo == Leo(c.view) ==>
                Shows(Do(c, Step.NoteSelf))
      ensures forall c: Tenure :: old(Shows(c)) && c.view != [] && Ack(broker, leo) in c.acks ==>
                Shows(Do(c, Step.NoteReplica(Ack(broker, leo))))
      ensures Known() == old(Known())[broker := leo]
    {
      replicaLEO := replicaLEO[broker := ReplicaState(leo, now)];
    }

    /** Recomputes the in-sync set and advances the high watermark to the least end offset in it. */
    method RecomputeHW(alive: set<int>, now: int)
      requires lg.Valid() && this !in lg.Repr()
      modifies this`isr, lg`hw
      ensures lg.Valid() && lg.view == old(lg.view) && lg.Repr() == old(lg.Repr())
      ensures var sync := InSync(id, replicas, Known(), Eligible(alive, now));
              && isr == (if SameInts(old(isr), sync) then old(isr) else sync)
              && lg.hw == NewHighWatermark(old(lg.hw), MinLeo(id, sync, Known(), Leo(lg.view)), Leo(lg.view))
      ensures forall c: Tenure :: old(Shows(c)) && c.view != [] ==>
                Shows(Run(c, RecomputeSteps(c, Eligible(alive, now))))
      // Who is in sync: the leader, and the live replicas heard from within the lag time.
      ensures Distinct(replicas) && Distinct(old(isr)) ==>
                && Distinct(isr)
                && forall r :: r in isr <==>
                     || r == id
                     || (r in replicas && r in alive && r in replicaLEO && now - replicaLEO[r].lastSeen <= lagTime)
      // The watermark is raised to the least end among them, or is there already.
      ensures old(lg.hw) <= lg.hw
      ensures lg.hw > old(lg.hw) ==>
                && lg.hw <= Leo(lg.view)
                && forall r :: (r != id && r in replicas && r in alive && r in replicaLEO
                                && now - replicaLEO[r].lastSeen <= lagTime) ==> lg.hw <= replicaLEO[r].leo
      ensures || lg.hw >= Leo(lg.view)
              || exists r :: r != id && r in replicas && r in alive && r in replicaLEO
                             && now - replicaLEO[r].lastSeen <= lagTime && lg.hw >= replicaLEO[r].leo
    {
      hide SameInts, Log.Chain, Sound, Run;
      RecomputeFacts(alive, now);
      forall c: Tenure | Shows(c) && c.view != [] {
        RecomputeRun(c, Eligible(alive, now));
      }
      var sync := [id];
      assert replicas[..0] == [];
      ghost var eligible := Eligible(alive, now);
      for i := 0 to |replicas|
        invariant sync == InSync(id, replicas[..i], Known(), eligible)
      {
        var r := replicas[i];
        assert replicas[..i + 1][..i] == replicas[..i];
        if r == id {
          continue;
        }
        if r !in alive {
          continue;
        }
        if r !in replicaLEO {
          continue;
        }
        if now - replicaLEO[r].lastSeen <= lagTime {
          sync := sync + [r];
        }
      }
      assert replicas[..|replicas|] == replicas;
      var hw := lg.LEO();
      assert sync[..0] == [];
      for i := 0 to |sync|
        invariant hw == MinLeo(id, sync[..i], Known(), Leo(lg.view))
      {
        assert sync[..i + 1][..i] == sync[..i];
        if sync[i] == id {
          continue;
        }
        if sync[i] in replicaLEO && replicaLEO[sync[i]].leo < hw {
          hw := replicaLEO[sync[i]].leo;
        }
      }
      assert sync[..|sync|] == sync;
      var same := SameIntsCheck(isr, sync);
      if !same {
        isr := sync;
      }
      lg.SetHighWatermark(hw);
    }

    /** What the recomputed set and the least end in it are, in terms of the reports. */
    lemma RecomputeFacts(alive: set<int>, now: int)
      requires lg.view != []
      ensures var sync := InSync(id, replicas, Known(), Eligible(alive, now));
              && (forall r :: r in sync <==>
                    || r == id
                    || (r in replicas && r in alive && r in replicaLEO && now - replicaLEO[r].lastSeen <= lagTime))
              && (Distinct(replicas) ==> Distinct(sync))
              && (Distinct(replicas) && Distinct(isr) ==>
                    forall r :: r in (if SameInts(isr, sync) then isr else sync) <==> r in sync)
              && var h := MinLeo(id, sync, Known(), Leo(lg.view));
              && h <= Leo(lg.view) && (forall r :: r in sync && r != id ==> r in replicaLEO && h <= replicaLEO[r].leo)
              && (h == Leo(lg.view) || exists r :: r in sync && r != id && r in replicaLEO && h == replicaLEO[r].leo)
    {
      hide MinLeo, SameInts, Distinct;
      var eligible := Eligible(alive, now);
      var sync := InSync(id, replicas, Known(), eligible);
      ReportingExact(id, replicas, Known(), eligible);
      SyncMembers(id, replicas, Known(), eligible);
      SyncDistinct(id, replicas, Known(), eligible);
      MinOverMembers(id, sync, Known(), Leo(lg.view));
      SameMembers(isr, sync);
    }

    /** With acks=1 and the leader alone in the stored set, everything it has becomes visible. */
    method MaybeSoloHW()
      requires lg.Valid()
      modifies lg`hw
      ensures lg.Valid() && lg.view == old(lg.view) && lg.Repr() == old(lg.Repr())
      ensures lg.hw == if isr == [id] then Leo(lg.view) else old(lg.hw)
      ensures forall c: Tenure :: old(Shows(c)) && c.view != [] && c.hw <= Leo(c.view) ==> Shows(Run(c, SoloSteps(c)))
    {
      hide Log.Chain, Sound, Run;
      forall c: Tenure | Shows(c) && c.view != [] {
        SoloRun(c);
      }
      if |isr| == 1 && isr[0] == id {
        var leo := lg.LEO();
        lg.SetHighWatermark(leo);
      }
    }

    /** One record: append, note the own end, recompute, and then wait for the high watermark to pass
        it (acks=all) or publish it at once when the leader is alone in the stored set. Up to what others
        set the watermark to during the wait, that is a run of the tenure. */
    method ProduceOne(msg: Message, acksAll: bool, turn: Turn) returns (off: int, ok: bool)
      requires lg.Valid() && this !in lg.Repr() && Leo(lg.view) + 1 < TWO_63
      modifies this`isr, this`replicaLEO, lg.Repr()
      ensures lg.Valid() && this !in lg.Repr() && fresh(lg.Repr() - old(lg.Repr())) && old(lg.hw) <= lg.hw
      ensures off == old(Leo(lg.view)) && Leo(lg.view) == off + 1
      ensures lg.Contents() == old(lg.Contents()) + [Record(off, turn.clock, msg.key, msg.value)]
      ensures ok == (acksAll ==> off < lg.hw)
      ensures forall c: Tenure :: old(Shows(c)) && c.view != [] && turn.clock != 0 ==>
                var d := Run(c, ProduceSteps(c, msg, acksAll, Eligible(turn.alive, turn.now), turn.clock));
                if acksAll then Shows(d.(hw := lg.hw)) && d.hw <= lg.hw else Shows(d)
    {
      hide Log.Chain, Sound, Log.Contents, InSync, MinLeo, SameInts, AppendView, Run, Do, RecomputeSteps, SoloSteps;
      ContentsLength(lg);
      off := lg.Append(msg.key, msg.value, turn.clock);
      ContentsLength(lg);
      forall c: Tenure | old(Shows(c)) && c.view != [] && turn.clock != 0
        ensures Shows(Do(c, Produce(msg.key, msg.value, turn.clock)))
      {
        ProduceRun(c, msg, turn.clock);
      }
      var leo := lg.LEO();
      NoteReplica(id, leo, turn.now);
      RecomputeHW(turn.alive, turn.now);
      ghost var eligible := Eligible(turn.alive, turn.now);
      forall c: Tenure | old(Shows(c)) && c.view != [] && turn.clock != 0
        ensures Shows(Run(c, ProduceSteps(c, msg, true, eligible, turn.clock)))
        ensures Run(c, ProduceSteps(c, msg, false, eligible, turn.clock))
                == var d := Run(c, ProduceSteps(c, msg, true, eligible, turn.clock)); Run(d, SoloSteps(d))
      {
        ProduceStepsRun(c, msg, eligible, turn.clock);
      }
      if acksAll {
        ok := lg.WaitHighWatermark(off, produceTimeout, turn.now, turn.wakes);
      } else {
        MaybeSoloHW();
        ok := true;
      }
    }

    /** Appends the records one by one; with acks=all it goes on to the next only once the high
        watermark has passed the last, and gives up otherwise, leaving that record in the log. */
    method ProduceLocal(recs: seq<Message>, acksAll: bool, turns: seq<Turn>) returns (offsets: seq<int>, ok: bool)
      requires lg.Valid() && this !in lg.Repr() && Leo(lg.view) + |recs| < TWO_63 && |turns| == |recs|
      modifies this`isr, this`replicaLEO, lg.Repr()
      ensures lg.Valid() && fresh(lg.Repr() - old(lg.Repr())) && old(lg.hw) <= lg.hw
      ensures |offsets| <= |recs| && forall i :: 0 <= i < |offsets| ==> offsets[i] == old(Leo(lg.view)) + i
      ensures ok ==> |offsets| == |recs|
                     && lg.Contents() == old(lg.Contents()) + Numbered(recs, turns, old(Leo(lg.view)))
      ensures !ok ==> acksAll && |offsets| < |recs| && var n := |offsets| + 1;
                      lg.Contents() == old(lg.Contents()) + Numbered(recs[..n], turns[..n], old(Leo(lg.view)))
      ensures acksAll ==> forall i :: 0 <= i < |offsets| ==> offsets[i] < lg.hw
    {
      hide Log.Valid, Log.Contents, Shows, ProduceSteps;
      offsets := [];
      ContentsLength(lg);
      ghost var base, was := Leo(lg.view), lg.Contents();
      assert Numbered(recs[..0], turns[..0], base) == [];
      assert was + [] == was;
      for i := 0 to |recs|
        invariant lg.Valid() && this !in lg.Repr() && fresh(lg.Repr() - old(lg.Repr())) && lg.view != []
        invariant Leo(lg.view) == base + i && old(lg.hw) <= lg.hw
        invariant |offsets| == i && forall k :: 0 <= k < i ==> offsets[k] == base + k
        invariant lg.Contents() == was + Numbered(recs[..i], turns[..i], base)
        invariant acksAll ==> base + i <= lg.hw || i == 0
      {
        var off, done := ProduceOne(recs[i], acksAll, turns[i]);
        NumberedSnoc(recs, turns, i, base);
        ConcatAssoc(was, Numbered(recs[..i], turns[..i], base),
            [Record(base + i, turns[i].clock, recs[i].key, recs[i].value)]);
        ContentsLength(lg);
        if !done {
          return offsets, false;
        }
        offsets := offsets + [off];
      }
      assert recs[..|recs|] == recs && turns[..|recs|] == turns;
      ok := true;
    }
  }

  /** The circumstances of one record: which brokers are alive, the record's timestamp, the clock of the
      lag check, and what happens to the watermark while its acknowledgement is waited for. */
  datatype Turn = Turn(alive: set<int>, clock: int64, now: int, wakes: seq<Wake>)

  datatype Message = Message(key: seq<byte>, value: seq<byte>)

  /** The records that these messages become when appended from offset `base`. */
  function Numbered(recs: seq<Message>, turns: seq<Turn>, base: int): (out: seq<Record>)
    requires |turns| == |recs| && -TWO_63 <= base && base + |recs| <= TWO_63
    ensures |out| == |recs|
  {
    if recs == [] then []
    else
      var n := |recs| - 1;
      Numbered(recs[..n], turns[..n], base) + [Record(base + n, turns[n].clock, recs[n].key, recs[n].value)]
  }

  lemma NumberedSnoc(recs: seq<Message>, turns: seq<Turn>, i: nat, base: int)
    requires i < |recs| == |turns| && -TWO_63 <= base && base + |recs| <= TWO_63
    ensures Numbered(recs[..i + 1], turns[..i + 1], base)
            == Numbered(recs[..i], turns[..i], base) + [Record(base + i, turns[i].clock, recs[i].key, recs[i].value)]
  {
    assert recs[..i + 1][..i] == recs[..i] && turns[..i + 1][..i] == turns[..i];
  }

  // ---------------------------------------------------------------------------------------------
  // Method calls as runs of the tenure
  // ---------------------------------------------------------------------------------------------

  function RecomputeSteps(c: Tenure, eligible: set<int>): seq<Step>
    requires c.view != []
  {
    var sync := InSync(c.self, c.replicas, c.known, eligible);
    [Recompute(eligible), SetHW(Advance(MinLeo(c.self, sync, c.known, Leo(c.view)), sync))]
  }

  function SoloSteps(c: Tenure): seq<Step>
    requires c.view != []
  {
    if c.isr == [c.self] then [SoloCheck, SoloPublish, SetHW(Advance(Leo(c.view), [c.self]))] else []
  }

  function ProduceSteps(c: Tenure, msg: Message, acksAll: bool, eligible: set<int>, clock: int64): seq<Step>
    requires c.view != []
  {
    var noted := Do(Do(c, Produce(msg.key, msg.value, clock)), NoteSelf);
    var steps := [Produce(msg.key, msg.value, clock), NoteSelf] + RecomputeSteps(noted, eligible);
    if acksAll then steps else steps + SoloSteps(Run(c, steps))
  }

  lemma SyncMembers(self: int, replicas: seq<int>, known: map<int, int>, eligible: set<int>)
    ensures forall r :: r in InSync(self, replicas, known, eligible) <==>
              r == self || r in Reporting(self, replicas, known, eligible)
  {
  }

  lemma SyncDistinct(self: int, replicas: seq<int>, known: map<int, int>, eligible: set<int>)
    ensures Distinct(replicas) ==> Distinct(InSync(self, replicas, known, eligible))
  {
    if Distinct(replicas) {
      Controllers.ReportingSubset(self, replicas, known, eligible);
    }
  }

  lemma SameMembers(a: seq<int>, b: seq<int>)
    ensures Distinct(a) && Distinct(b) && SameInts(a, b) ==> forall r :: r in a <==> r in b
  {
    if Distinct(a) && Distinct(b) {
      Controllers.SameIntsIsSetEquality(a, b);
      assert forall r :: r in a <==> r in Controllers.Elements(a);
      assert forall r :: r in b <==> r in Controllers.Elements(b);
    }
  }

  lemma MinOverMembers(self: int, isr: seq<int>, known: map<int, int>, leo: int)
    ensures var m := MinLeo(self, isr, known, leo);
            && m <= leo && (forall r :: r in isr && r != self && r in known ==> m <= known[r])
            && (m == leo || exists r :: r in isr && r != self && r in known && m == known[r])
  {
    hide MinLeo;
    MinLeoIsMinimum(self, isr, known, leo);
    forall r | r in isr && r != self && r in known ensures MinLeo(self, isr, known, leo) <= known[r] {
      var i :| 0 <= i < |isr| && isr[i] == r;
    }
  }

  lemma {:induction false} RunOfTwo(c: Tenure, a: Step, b: Step)
    requires c.view != []
    ensures Run(c, [a, b]) == Do(Do(c, a), b)
  {
    hide Do, Run;
    var s := [a, b];
    RunAt(c, s, 0);
    RunAt(c, s, 1);
    assert s[..2] == s;
  }

  lemma RecomputeRun(c: Tenure, eligible: set<int>)
    requires c.view != []
    ensures var sync := InSync(c.self, c.replicas, c.known, eligible);
            var h := MinLeo(c.self, sync, c.known, Leo(c.view));
            var d := Run(c, RecomputeSteps(c, eligible));
            && d.isr == (if SameInts(c.isr, sync) then c.isr else sync)
            && d.hw == NewHighWatermark(c.hw, h, Leo(c.view))
            && d.view == c.view && d.known == c.known
            && d.self == c.self && d.replicas == c.replicas && d.maxBytes == c.maxBytes
  {
    hide InSync, MinLeo, SameInts;
    var sync := InSync(c.self, c.replicas, c.known, eligible);
    RunOfTwo(c, Recompute(eligible), SetHW(Advance(MinLeo(c.self, sync, c.known, Leo(c.view)), sync)));
  }

  lemma SoloRun(c: Tenure)
    requires c.view != []
    ensures var d := Run(c, SoloSteps(c));
            && d.hw == (if c.isr == [c.self] then NewHighWatermark(c.hw, Leo(c.view), Leo(c.view)) else c.hw)
            && d.isr == c.isr && d.view == c.view && d.known == c.known
            && d.self == c.self && d.replicas == c.replicas && d.maxBytes == c.maxBytes
  {
    if c.isr == [c.self] {
      var last := SetHW(Advance(Leo(c.view), [c.self]));
      assert [SoloCheck, SoloPublish, last][..2] == [SoloCheck, SoloPublish];
      RunOfTwo(c, SoloCheck, SoloPublish);
    }
  }

  lemma ProduceRun(c: Tenure, msg: Message, clock: int64)
    requires c.view != [] && clock != 0 && 0 <= Leo(c.view) < TWO_63 - 1
    ensures Do(c, Produce(msg.key, msg.value, clock))
            == c.(view := AppendView(c.view, Record(Leo(c.view), clock, msg.key, msg.value), c.maxBytes))
  {
  }

  lemma ProduceStepsRun(c: Tenure, msg: Message, eligible: set<int>, clock: int64)
    requires c.view != []
    ensures var noted := Do(Do(c, Produce(msg.key, msg.value, clock)), NoteSelf);
            var d := Run(c, ProduceSteps(c, msg, true, eligible, clock));
            && d == Run(noted, RecomputeSteps(noted, eligible))
            && Run(c, ProduceSteps(c, msg, false, eligible, clock)) == Run(d, SoloSteps(d))
  {
    hide Do, Run, RecomputeSteps, SoloSteps;
    RunOfTwo(c, Produce(msg.key, msg.value, clock), NoteSelf);
    var noted := Do(Do(c, Produce(msg.key, msg.value, clock)), NoteSelf);
    RunConcat(c, [Produce(msg.key, msg.value, clock), NoteSelf], RecomputeSteps(noted, eligible));
    var steps := ProduceSteps(c, msg, true, eligible, clock);
    RunConcat(c, steps, SoloSteps(Run(c, steps)));
  }

  /** The follower's half of one fetch: apply the records, take over the high watermark, report the end. */
  method ApplyFetch(lg: Log, recs: seq<Record>, hw: int, clock: int64) returns (leo: int)
    requires lg.Valid() && Leo(lg.view) + |recs| < TWO_63
    modifies lg.Repr()
    ensures lg.Valid() && fresh(lg.Repr() - old(lg.Repr()))
    ensures lg.Contents() == ApplyBatch(old(lg.Contents()), recs, clock)
    ensures leo == |lg.Contents()| && lg.hw == NewHighWatermark(old(lg.hw), hw, leo)
    ensures forall c: Tenure, f ::
              c.view != [] && f in c.followers && Reply(recs, hw) in c.replies
              && c.followers[f] == Follower(old(lg.Contents()), old(lg.hw)) ==>
                Do(c, Apply(f, Reply(recs, hw), clock)).followers == c.followers[f := Follower(lg.Contents(), lg.hw)]
  {
    hide Log.Chain, Sound, ApplyBatch, AppendView, Flat;
    ghost var wanted := ApplyBatch(lg.Contents(), recs, clock);
    var i := 0;
    assert recs[0..] == recs;
    ContentsLength(lg);
    while i < |recs|
      invariant 0 <= i <= |recs|
      invariant lg.Valid() && fresh(lg.Repr() - old(lg.Repr())) && lg.hw == old(lg.hw)
      invariant |lg.Contents()| == Leo(lg.view) <= old(Leo(lg.view)) + i
      invariant wanted == ApplyBatch(lg.Contents(), recs[i..], clock)
    {
      var rec := recs[i];
      ApplyBatchStep(lg.Contents(), recs, i, clock);
      i := i + 1;
      var end := lg.LEO();
      if rec.offset < end {
        continue;
      }
      if rec.offset > end {
        // A gap: the next round fetches from our own end again.
        assert wanted == lg.Contents();
        break;
      }
      var res := lg.AppendAt(rec, clock);
      ContentsLength(lg);
      if res != Segments.Appended(rec.offset) {
        break;
      }
    }
    assert wanted == lg.Contents() by {
      if i == |recs| {
        assert recs[i..] == [];
        ApplyBatchNone(lg.Contents(), clock);
      }
    }
    lg.SetHighWatermark(hw);
    leo := lg.LEO();
  }

  lemma ApplyBatchNone(log: seq<Record>, clock: int64)
    ensures ApplyBatch(log, [], clock) == log
  {
  }

  lemma ContentsLength(lg: Log)
    requires lg.Valid()
    ensures lg.view != [] && |lg.Contents()| == Leo(lg.view) && 0 <= Leo(lg.view)
  {
    FlatLength(lg.view);
  }

  lemma ApplyBatchStep(log: seq<Record>, recs: seq<Record>, i: nat, clock: int64)
    requires i < |recs|
    ensures ApplyBatch(log, recs[i..], clock) ==
            if recs[i].offset < |log| then ApplyBatch(log, recs[i + 1..], clock)
            else if recs[i].offset > |log| then log
            else ApplyBatch(log + [Stamp(recs[i], clock)], recs[i + 1..], clock)
  {
    Seqs.DropDrop(recs, i, 1);
  }
}
