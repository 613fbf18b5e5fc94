/** Replica placement and the controller's upkeep of leaders and in-sync sets. */
module Controllers {
  import opened Wrappers
  import opened Replication
  import Bytes
  import opened Seqs

  datatype PartitionMeta = PartitionMeta(id: int, leader: int, replicas: seq<int>, isr: seq<int>)

  /** What placement sets up and every later step keeps. */
  predicate MetaOk(p: PartitionMeta) {
    && Distinct(p.replicas) && p.leader in p.replicas
    && Distinct(p.isr) && p.leader in p.isr
    && forall id :: id in p.isr ==> id in p.replicas
  }

  function FilterAlive(ids: seq<int>, alive: set<int>): (out: seq<int>)
    ensures forall x :: x in out <==> x in ids && x in alive
    ensures |out| <= |ids|
    ensures Distinct(ids) ==> Distinct(out)
  {
    if ids == [] then []
    else
      var n := |ids| - 1;
      var front := FilterAlive(ids[..n], alive);
      assert ids == ids[..n] + [ids[n]];
      if ids[n] in alive then front + [ids[n]] else front
  }

  function FirstAlive(replicas: seq<int>, alive: set<int>): (id: int)
    requires replicas != []
    ensures id in replicas
    ensures id in alive <==> exists r :: r in replicas && r in alive
    ensures id !in alive ==> id == replicas[0]
    ensures replicas[0] in alive ==> id == replicas[0]
  {
    FirstAliveFrom(replicas, alive, replicas[0])
  }

  function FirstAliveFrom(replicas: seq<int>, alive: set<int>, otherwise: int): (id: int)
    ensures id in replicas || id == otherwise
    ensures (exists r :: r in replicas && r in alive) ==> id in replicas && id in alive
    ensures !(exists r :: r in replicas && r in alive) ==> id == otherwise
    ensures replicas != [] && replicas[0] in alive ==> id == replicas[0]
  {
    if replicas == [] then otherwise
    else if replicas[0] in alive then replicas[0]
    else
      assert forall r :: r in replicas && r in alive ==> r in replicas[1..];
      FirstAliveFrom(replicas[1..], alive, otherwise)
  }

  // ---------------------------------------------------------------------------------------------
  // The controller's tick
  // ---------------------------------------------------------------------------------------------

  /** The tick elects only from a non-empty placement; without one a dead leader makes it panic. */
  predicate Electable(p: PartitionMeta, alive: set<int>) {
    p.replicas != [] || p.leader in alive
  }

  function TickPartition(p: PartitionMeta, alive: set<int>): PartitionMeta
    requires Electable(p, alive)
  {
    var live := FilterAlive(p.isr, alive);
    var elected := if p.leader in alive then p.leader else FirstAlive(p.replicas, alive);
    var isr := if p.leader in alive || elected in live then live else [elected] + live;
    var leader := if p.replicas != [] && p.replicas[0] in alive && p.replicas[0] in isr then p.replicas[0] else elected;
    p.(leader := leader, isr := if isr == [] then [leader] else isr)
  }

  /** Whether the tick reports a change of this partition. */
  predicate TickReports(p: PartitionMeta, alive: set<int>) {
    || (exists id :: id in p.isr && id !in alive)
    || p.leader !in alive
    || (p.replicas != [] && p.replicas[0] != p.leader && p.replicas[0] in alive && p.replicas[0] in p.isr)
    || p.isr == []
  }

  datatype Topic = Topic(name: string, partitions: seq<PartitionMeta>)

  class Metadata {
    var topics: map<string, seq<PartitionMeta>>

    predicate AllElectable(alive: set<int>)
      reads this
    {
      forall n, i :: n in topics && 0 <= i < |topics[n]| ==> Electable(topics[n][i], alive)
    }

    /** Drops dead members, replaces dead leaders, returns leadership to preferred replicas. */
    method ControllerTick(alive: set<int>) returns (changed: bool)
      requires AllElectable(alive)
      modifies this
      ensures topics.Keys == old(topics).Keys
      ensures forall n :: n in topics ==> |topics[n]| == |old(topics)[n]|
      ensures forall n, i :: n in topics && 0 <= i < |topics[n]| ==>
                topics[n][i] == TickPartition(old(topics)[n][i], alive)
      ensures changed <==>
              exists n, i :: n in old(topics) && 0 <= i < |old(topics)[n]| && TickReports(old(topics)[n][i], alive)
    {
      hide TickPartition, TickReports;
      changed := false;
      var names := topics.Keys;
      ghost var was := topics;
      while names != {}
        invariant names <= topics.Keys == was.Keys
        invariant forall n :: n in names ==> topics[n] == was[n]
        invariant forall n :: n in was && n !in names ==> topics[n] == TickAll(was[n], alive)
        invariant changed <==> exists n :: n in was && n !in names && AnyReports(was[n], alive)
        decreases names
      {
        var n :| n in names;
        var ps, c := TickTopic(topics[n], alive);
        topics := topics[n := ps];
        if c {
          changed := true;
        }
        names := names - {n};
      }
    }
  }

  ghost predicate EachElectable(ps: seq<PartitionMeta>, alive: set<int>) {
    forall i :: 0 <= i < |ps| ==> Electable(ps[i], alive)
  }

  function TickAll(ps: seq<PartitionMeta>, alive: set<int>): seq<PartitionMeta>
    requires EachElectable(ps, alive)
  {
    seq(|ps|, i requires 0 <= i < |ps| => TickPartition(ps[i], alive))
  }

  ghost predicate AnyReports(ps: seq<PartitionMeta>, alive: set<int>) {
    exists i :: 0 <= i < |ps| && TickReports(ps[i], alive)
  }

  method TickTopic(ps: seq<PartitionMeta>, alive: set<int>) returns (out: seq<PartitionMeta>, changed: bool)
    requires EachElectable(ps, alive)
    ensures out == TickAll(ps, alive) && (changed <==> AnyReports(ps, alive))
  {
    hide TickPartition, TickReports;
    out, changed := ps, false;
    for i := 0 to |ps|
      invariant |out| == |ps|
      invariant forall k :: 0 <= k < i ==> out[k] == TickPartition(ps[k], alive)
      invariant forall k :: i <= k < |ps| ==> out[k] == ps[k]
      invariant changed <==> exists k :: 0 <= k < i && TickReports(ps[k], alive)
    {
      var p, c := TickOne(ps[i], alive);
      out := out[i := p];
      if c {
        changed := true;
      }
    }
  }

  method DropDead(isr: seq<int>, alive: set<int>) returns (live: seq<int>, dropped: bool)
    ensures live == FilterAlive(isr, alive) && (dropped <==> exists id :: id in isr && id !in alive)
  {
    live, dropped := [], false;
    for i := 0 to |isr|
      invariant live == FilterAlive(isr[..i], alive)
      invariant dropped <==> exists id :: id in isr[..i] && id !in alive
    {
      Seqs.TakeSnoc(isr, i);
      assert isr[..i + 1][..i] == isr[..i];
      assert forall id :: id in isr[..i + 1] <==> id in isr[..i] || id == isr[i];
      if isr[i] in alive {
        live := live + [isr[i]];
      } else {
        assert isr[i] in isr[..i + 1];
        dropped := true;
      }
    }
    assert isr[..|isr|] == isr;
  }

  /** The body of the tick for one partition, field by field. */
  method TickOne(was: PartitionMeta, alive: set<int>) returns (p: PartitionMeta, changed: bool)
    requires Electable(was, alive)
    ensures p == TickPartition(was, alive) && (changed <==> TickReports(was, alive))
  {
    hide Distinct;
    p := was;
    var live;
    live, changed := DropDead(was.isr, alive);
    p := p.(isr := live);
    if was.isr != [] && live == [] {
      var id := was.isr[0];
      assert id in was.isr && id !in live && id !in alive;
    }
    if p.leader !in alive {
      p := p.(leader := FirstAlive(p.replicas, alive));
      if p.leader !in p.isr {
        p := p.(isr := [p.leader] + p.isr);
      }
      changed := true;
    }
    if |p.replicas| > 0 {
      var pref := p.replicas[0];
      if pref != p.leader && pref in alive && pref in p.isr {
        p := p.(leader := pref);
        changed := true;
      }
    }
    if |p.isr| == 0 {
      p := p.(isr := [p.leader]);
      changed := true;
    }
  }

  // ---------------------------------------------------------------------------------------------
  // Laws of the tick
  // ---------------------------------------------------------------------------------------------

  lemma TickKeepsMeta(p: PartitionMeta, alive: set<int>)
    requires MetaOk(p)
    ensures MetaOk(TickPartition(p, alive))
  {
  }

  /** Who is in the set and who leads after a tick. The live old members stay, and a new leader joins them.
      A dead leader is replaced by the first live replica in placement order, or by the first of all
      when none lives; a live one makes way for the preferred replica as soon as that is a live member,
      and stays otherwise. */
  lemma TickExact(p: PartitionMeta, alive: set<int>)
    requires MetaOk(p)
    ensures var q := TickPartition(p, alive);
            && q.id == p.id && q.replicas == p.replicas
            && (forall id :: id in q.isr <==> (id in p.isr && id in alive) || (p.leader !in alive && id == q.leader))
            && (p.leader in alive ==>
                  q.leader == if p.replicas[0] in alive && p.replicas[0] in p.isr then p.replicas[0] else p.leader)
            && (forall k :: p.leader !in alive && FirstLive(p.replicas, alive, k) ==> q.leader == p.replicas[k])
            && (p.leader !in alive && (forall r :: r in p.replicas ==> r !in alive) ==> q.leader == p.replicas[0])
  {
    var q := TickPartition(p, alive);
    var live := FilterAlive(p.isr, alive);
    if p.leader in alive {
      assert p.leader in live;
      assert q.isr == live;
    } else {
      var elected := FirstAlive(p.replicas, alive);
      assert q.isr == (if elected in live then live else [elected] + live);
      forall k | FirstLive(p.replicas, alive, k) ensures elected == p.replicas[k] {
        FirstLiveIs(p.replicas, alive, p.replicas[0], k);
      }
    }
  }

  /** A tick reports a change exactly when it changed the partition or found its leader dead. */
  lemma TickReportsIff(p: PartitionMeta, alive: set<int>)
    requires MetaOk(p)
    ensures TickReports(p, alive) <==> TickPartition(p, alive) != p || p.leader !in alive
  {
    hide FilterAlive, Distinct;
    if p.leader in alive {
      if forall id :: id in p.isr ==> id in alive {
        forall i | 0 <= i < |p.isr| ensures p.isr[i] in alive {
          var id := p.isr[i];
          assert id in p.isr && id in alive;
        }
        FilterAllAlive(p.isr, alive);
      } else {
        TickExact(p, alive);
      }
    }
  }

  /** Filtering keeps the order. */
  lemma {:induction false} FilterInOrder(a: seq<int>, b: seq<int>, alive: set<int>)
    ensures FilterAlive(a + b, alive) == FilterAlive(a, alive) + FilterAlive(b, alive)
    decreases |b|
  {
    if b == [] {
      assert a + b == a;
    } else {
      var n := |b| - 1;
      assert (a + b)[..|a + b| - 1] == a + b[..n];
      FilterInOrder(a, b[..n], alive);
    }
  }

  /** With some replica alive, one tick leaves leader and in-sync set alive, and a second tick under the
      same liveness does nothing. With none alive the metadata settles too, on the preferred replica,
      yet every further tick still reports a change. */
  lemma TickSettles(p: PartitionMeta, alive: set<int>)
    requires MetaOk(p)
    ensures var q := TickPartition(p, alive);
            && TickPartition(q, alive) == q
            && (TickReports(q, alive) <==> !exists r :: r in p.replicas && r in alive)
            && ((exists r :: r in p.replicas && r in alive) ==>
                  q.leader in alive && forall id :: id in q.isr ==> id in alive)
            && (!(exists r :: r in p.replicas && r in alive) ==> q.leader == p.replicas[0] && q.isr == [q.leader])
  {
    hide FilterAlive, Distinct;
    if exists r :: r in p.replicas && r in alive {
      TickKeepsMeta(p, alive);
      TickAlive(p, alive);
      TickRests(TickPartition(p, alive), alive);
    } else {
      TickDead(p, alive);
      TickDead(TickPartition(p, alive), alive);
    }
  }

  lemma TickAlive(p: PartitionMeta, alive: set<int>)
    requires MetaOk(p) && exists r :: r in p.replicas && r in alive
    ensures var q := TickPartition(p, alive);
            && q.leader in alive && (forall id :: id in q.isr ==> id in alive)
            && (q.replicas[0] in q.isr ==> q.leader == q.replicas[0])
  {
    hide FilterAlive, Distinct;
  }

  lemma TickRests(q: PartitionMeta, alive: set<int>)
    requires MetaOk(q) && q.leader in alive && (forall id :: id in q.isr ==> id in alive)
    requires q.replicas[0] in q.isr ==> q.leader == q.replicas[0]
    ensures TickPartition(q, alive) == q && !TickReports(q, alive)
  {
    forall i | 0 <= i < |q.isr| ensures q.isr[i] in alive {
      var id := q.isr[i];
      assert id in q.isr && id in alive;
    }
    FilterAllAlive(q.isr, alive);
  }

  lemma TickDead(p: PartitionMeta, alive: set<int>)
    requires p.replicas != [] && p.leader !in alive && (forall id :: id in p.isr ==> id !in alive)
    requires forall r :: r in p.replicas ==> r !in alive
    ensures TickPartition(p, alive) == p.(leader := p.replicas[0], isr := [p.replicas[0]]) && TickReports(p, alive)
  {
    var first := p.replicas[0];
    assert first in p.replicas && first !in alive;
    FilterNoneAlive(p.isr, alive);
  }

  lemma {:induction false} FilterNoneAlive(ids: seq<int>, alive: set<int>)
    requires forall id :: id in ids ==> id !in alive
    ensures FilterAlive(ids, alive) == []
  {
    if ids != [] {
      var n := |ids| - 1;
      var last := ids[n];
      assert last in ids;
      FilterNoneAlive(ids[..n], alive);
    }
  }

  lemma {:induction false} FilterAllAlive(ids: seq<int>, alive: set<int>)
    requires forall i :: 0 <= i < |ids| ==> ids[i] in alive
    ensures FilterAlive(ids, alive) == ids
  {
    if ids != [] {
      var n := |ids| - 1;
      assert ids == ids[..n] + [ids[n]];
      FilterAllAlive(ids[..n], alive);
    }
  }

  /** When the leader is dead, the next one comes from the old in-sync set if and only if some live
      member of it has no live replica placed before it, or no replica lives at all and the first
      placed one was a member. A live member further down the placement is passed over. */
  lemma CleanElectionIff(p: PartitionMeta, alive: set<int>)
    requires MetaOk(p) && p.leader !in alive
    ensures TickPartition(p, alive).leader in p.isr <==>
              || (exists k :: FirstLive(p.replicas, alive, k) && p.replicas[k] in p.isr)
              || ((forall r :: r in p.replicas ==> r !in alive) && p.replicas[0] in p.isr)
  {
    forall k | FirstLive(p.replicas, alive, k)
      ensures p.replicas[k] == FirstAlive(p.replicas, alive) && p.replicas[k] in p.replicas
    {
      FirstLiveIs(p.replicas, alive, p.replicas[0], k);
    }
    if exists r :: r in p.replicas && r in alive {
      var k := FirstLiveAt(p.replicas, alive);
    }
  }

  /** The replica at `k` lives and every earlier one is dead. */
  predicate FirstLive(replicas: seq<int>, alive: set<int>, k: int) {
    0 <= k < |replicas| && replicas[k] in alive && forall j :: 0 <= j < k ==> replicas[j] !in alive
  }

  lemma {:induction false} FirstLiveIs(replicas: seq<int>, alive: set<int>, otherwise: int, k: nat)
    requires FirstLive(replicas, alive, k)
    ensures FirstAliveFrom(replicas, alive, otherwise) == replicas[k]
    decreases k
  {
    if k > 0 {
      assert replicas[0] !in alive;
      FirstLiveIs(replicas[1..], alive, otherwise, k - 1);
    }
  }

  lemma {:induction false} FirstLiveAt(replicas: seq<int>, alive: set<int>) returns (k: nat)
    requires exists r :: r in replicas && r in alive
    ensures FirstLive(replicas, alive, k)
  {
    k := 0;
    if replicas[0] !in alive {
      var rest := replicas[1..];
      var r :| r in replicas && r in alive;
      assert r in rest;
      var j := FirstLiveAt(rest, alive);
      k := j + 1;
      forall i | 1 <= i < k ensures replicas[i] !in alive {
        assert replicas[i] == rest[i - 1];
      }
    }
  }

  /** A live in-sync replica is passed over for an earlier replica outside the set. */
  lemma UncleanElection()
    ensures var p := PartitionMeta(0, 1, [1, 2, 3], [1, 3]);
            && MetaOk(p) && 3 in p.isr
            && TickPartition(p, {2, 3}).leader == 2 && 2 !in p.isr
  {
    var p := PartitionMeta(0, 1, [1, 2, 3], [1, 3]);
    assert p.replicas[1..][0] == 2;
    assert 1 in p.replicas && 3 in p.replicas && 1 in p.isr && 3 in p.isr;
  }

  /** What the leader's recomputation does to the metadata. */
  function RecomputeMeta(p: PartitionMeta, known: map<int, int>, eligible: set<int>): PartitionMeta {
    var isr := InSync(p.leader, p.replicas, known, eligible);
    p.(isr := if SameInts(p.isr, isr) then p.isr else isr)
  }

  lemma {:induction false} ReportingSubset(self: int, replicas: seq<int>, known: map<int, int>, eligible: set<int>)
    requires Distinct(replicas)
    ensures var s := Reporting(self, replicas, known, eligible);
            Distinct(s) && self !in s && forall i :: 0 <= i < |s| ==> s[i] in replicas
  {
    if replicas != [] {
      var n := |replicas| - 1;
      var front := replicas[..n];
      ReportingSubset(self, front, known, eligible);
      assert replicas == front + [replicas[n]];
      assert forall i :: 0 <= i < n ==> front[i] != replicas[n];
    }
  }

  lemma RecomputeKeepsMeta(p: PartitionMeta, known: map<int, int>, eligible: set<int>)
    requires MetaOk(p)
    ensures MetaOk(RecomputeMeta(p, known, eligible))
  {
    ReportingSubset(p.leader, p.replicas, known, eligible);
  }

  /** A life of one partition's metadata: ticks and recomputations in any order. */
  datatype MetaStep = Tick(alive: set<int>) | RecomputeStep(known: map<int, int>, eligible: set<int>)

  function MetaRun(p: PartitionMeta, steps: seq<MetaStep>): (q: PartitionMeta)
    requires p.replicas != []
    ensures q.replicas == p.replicas
  {
    if steps == [] then p
    else
      var q := MetaRun(p, steps[..|steps| - 1]);
      match steps[|steps| - 1]
      case Tick(alive) => TickPartition(q, alive)
      case RecomputeStep(known, eligible) => RecomputeMeta(q, known, eligible)
  }

  lemma {:induction false} MetaRunKeeps(p: PartitionMeta, steps: seq<MetaStep>)
    requires MetaOk(p)
    ensures MetaOk(MetaRun(p, steps)) && MetaRun(p, steps).replicas == p.replicas
  {
    hide TickPartition, RecomputeMeta;
    if steps != [] {
      var front := steps[..|steps| - 1];
      MetaRunKeeps(p, front);
      match steps[|steps| - 1]
      case Tick(alive) => TickKeepsMeta(MetaRun(p, front), alive);
      case RecomputeStep(known, eligible) => RecomputeKeepsMeta(MetaRun(p, front), known, eligible);
    }
  }

  // ---------------------------------------------------------------------------------------------
  // Placement of a new topic
  // ---------------------------------------------------------------------------------------------

  function Clamp(rf: int, brokers: nat): int {
    var atLeastOne := if rf < 1 then 1 else rf;
    if atLeastOne > brokers then brokers else atLeastOne
  }

  /** Partition i: the replicas are consecutive brokers from the i-th on, the first of them leads alone. */
  function Placement(i: nat, rf: nat, ids: seq<int>): PartitionMeta
    requires ids != [] && 0 < rf <= |ids|
  {
    var reps := seq(rf, r requires 0 <= r < rf => ids[(i + r) % |ids|]);
    PartitionMeta(i, reps[0], reps, [reps[0]])
  }

  method AssignReplicas(npart: nat, rf: int, ids: seq<int>) returns (out: array<PartitionMeta>)
    requires ids != []
    ensures fresh(out) && out.Length == npart
    ensures forall i :: 0 <= i < npart ==> out[i] == Placement(i, Clamp(rf, |ids|), ids)
    ensures forall i :: 0 <= i < npart ==>
              && |out[i].replicas| == (if rf < 1 then 1 else if rf > |ids| then |ids| else rf)
              && (forall r :: 0 <= r < |out[i].replicas| ==> out[i].replicas[r] == ids[(i + r) % |ids|])
              && out[i].id == i && out[i].leader == out[i].replicas[0] && out[i].isr == [out[i].leader]
  {
    hide Placement;
    var n := |ids|;
    var factor := if rf < 1 then 1 else rf;
    if factor > n {
      factor := n;
    }
    out := new PartitionMeta[npart](_ => PartitionMeta(0, 0, [], []));
    for i := 0 to npart
      invariant forall k :: 0 <= k < i ==> out[k] == Placement(k, factor, ids)
      invariant forall k :: 0 <= k < i ==>
                  && |out[k].replicas| == factor
                  && (forall r :: 0 <= r < factor ==> out[k].replicas[r] == ids[(k + r) % |ids|])
                  && out[k].id == k && out[k].leader == out[k].replicas[0] && out[k].isr == [out[k].leader]
    {
      var reps := ReplicasOf(i, factor, ids);
      PlacementIs(i, factor, ids, reps[..]);
      out[i] := PartitionMeta(i, reps[0], reps[..], [reps[0]]);
    }
  }

  method ReplicasOf(i: nat, rf: nat, ids: seq<int>) returns (reps: array<int>)
    requires ids != []
    ensures fresh(reps) && reps.Length == rf && forall k :: 0 <= k < rf ==> reps[k] == ids[(i + k) % |ids|]
  {
    reps := new int[rf](_ => 0);
    for r := 0 to rf
      invariant forall k :: 0 <= k < r ==> reps[k] == ids[(i + k) % |ids|]
    {
      reps[r] := ids[(i + r) % |ids|];
    }
  }

  lemma PlacementIs(i: nat, rf: nat, ids: seq<int>, reps: seq<int>)
    requires ids != [] && 0 < rf <= |ids| && |reps| == rf
    requires forall k :: 0 <= k < rf ==> reps[k] == ids[(i + k) % |ids|]
    ensures PartitionMeta(i, reps[0], reps, [reps[0]]) == Placement(i, rf, ids)
  {
    assert reps == Placement(i, rf, ids).replicas;
  }

  /** Fewer than n steps apart, two positions of a ring of n never coincide. */
  lemma RingDistinct(i: nat, a: nat, b: nat, n: nat)
    requires a < b < n
    ensures (i + a) % n != (i + b) % n
  {
    var q := (i + b) / n - (i + a) / n;
    assert b - a == n * q + (i + b) % n - (i + a) % n;
    Bytes.MulBound(n, q);
  }

  /** Distinct brokers give distinct replicas, and a sound starting point for every later step. */
  lemma PlacementOk(i: nat, rf: nat, ids: seq<int>)
    requires ids != [] && 0 < rf <= |ids| && Distinct(ids)
    ensures MetaOk(Placement(i, rf, ids)) && |Placement(i, rf, ids).replicas| == rf
  {
    var p := Placement(i, rf, ids);
    forall a, b | 0 <= a < b < rf
      ensures p.replicas[a] != p.replicas[b]
    {
      RingDistinct(i, a, b, |ids|);
    }
    assert p.replicas[0] in p.replicas;
  }

  /** Of the first `npart` partitions, how many the broker `b` leads. */
  function LedBy(b: int, npart: nat, rf: nat, ids: seq<int>): nat
    requires ids != [] && 0 < rf <= |ids|
  {
    if npart == 0 then 0
    else LedBy(b, npart - 1, rf, ids) + if Placement(npart - 1, rf, ids).leader == b then 1 else 0
  }

  lemma QuotientUnique(m: nat, n: nat, q: int, r: int)
    requires n > 0 && m == n * q + r && 0 <= r < n
    ensures m / n == q && m % n == r
  {
    var k := m / n - q;
    assert n * k == r - m % n;
    Bytes.MulBound(n, k);
  }

  lemma {:induction false} LeaderShareAt(j: nat, npart: nat, rf: nat, ids: seq<int>, q: nat, r: nat)
    requires 0 < rf <= |ids| && Distinct(ids) && j < |ids|
    requires npart == |ids| * q + r && r < |ids|
    ensures LedBy(ids[j], npart, rf, ids) == q + if j < r then 1 else 0
    decreases npart
  {
    hide Placement;
    if npart > 0 {
      var n := |ids|;
      var q', r' := if r > 0 then q else q - 1, if r > 0 then r - 1 else n - 1;
      assert r == 0 ==> n * q == n * q' + n;
      assert q' >= 0 by { Bytes.MulBound(n, q'); }
      LeaderShareAt(j, npart - 1, rf, ids, q', r');
      QuotientUnique(npart - 1, n, q', r');
      LeaderAt(npart - 1, rf, ids, r');
    }
  }

  lemma LeaderAt(i: nat, rf: nat, ids: seq<int>, r: nat)
    requires 0 < rf <= |ids| && i % |ids| == r
    ensures Placement(i, rf, ids).leader == ids[r]
  {
    assert (i + 0) % |ids| == r;
  }

  /** The j-th broker leads npart/n partitions, and one more if it is among the first npart mod n. */
  lemma LeaderShare(j: nat, npart: nat, rf: nat, ids: seq<int>)
    requires 0 < rf <= |ids| && Distinct(ids) && j < |ids|
    ensures LedBy(ids[j], npart, rf, ids) == npart / |ids| + if j < npart % |ids| then 1 else 0
  {
    LeaderShareAt(j, npart, rf, ids, npart / |ids|, npart % |ids|);
  }

  /** Leadership is spread evenly: any two brokers differ by at most one partition. */
  lemma LeadersBalanced(j: nat, k: nat, npart: nat, rf: nat, ids: seq<int>)
    requires 0 < rf <= |ids| && Distinct(ids) && j < |ids| && k < |ids|
    ensures -1 <= LedBy(ids[j], npart, rf, ids) - LedBy(ids[k], npart, rf, ids) <= 1
  {
    LeaderShare(j, npart, rf, ids);
    LeaderShare(k, npart, rf, ids);
  }

  // ---------------------------------------------------------------------------------------------
  // Comparing in-sync sets
  // ---------------------------------------------------------------------------------------------

  function Elements(s: seq<int>): set<int> {
    set x | x in s
  }

  lemma {:induction false} ElementsCount(s: seq<int>)
    ensures |Elements(s)| <= |s|
    ensures Distinct(s) ==> |Elements(s)| == |s|
  {
    if s != [] {
      var n := |s| - 1;
      var front := s[..n];
      ElementsCount(front);
      assert s == front + [s[n]];
      assert Elements(s) == Elements(front) + {s[n]};
      if Distinct(s) {
        assert forall i :: 0 <= i < n ==> front[i] != s[n];
        assert s[n] !in Elements(front);
      }
    }
  }

  lemma SubsetOfSameSize(a: set<int>, b: set<int>)
    requires b <= a && |a| <= |b|
    ensures a == b
  {
    assert a == b + (a - b);
    assert |a - b| == |a| - |b| <= 0;
  }

  /** The comparison that decides whether to store a new in-sync set is set equality on lists without
      repetitions. */
  lemma SameIntsIsSetEquality(a: seq<int>, b: seq<int>)
    requires Distinct(a) && Distinct(b)
    ensures SameInts(a, b) <==> Elements(a) == Elements(b)
  {
    ElementsCount(a);
    ElementsCount(b);
    if SameInts(a, b) {
      SubsetOfSameSize(Elements(a), Elements(b));
    }
    if Elements(a) == Elements(b) {
      forall x | x in b ensures x in a {
        assert x in Elements(b);
      }
    }
  }

  // ---------------------------------------------------------------------------------------------
  // Taking over pushed metadata
  // ---------------------------------------------------------------------------------------------

  /** One pushed partition against the local copy, on broker `self`, which always counts as alive. */
  function ApplyPartition(pushed: PartitionMeta, local: Option<PartitionMeta>, self: int, controller: bool,
                          alive: set<int>): PartitionMeta {
    if local.Some? && local.value.leader == self && pushed.leader == self then pushed.(isr := local.value.isr)
    else
      var leader := if controller && local.Some? && pushed.leader !in alive then local.value.leader else pushed.leader;
      var live := FilterAlive(pushed.isr, alive + {self});
      pushed.(leader := leader, isr := if live == [] then [leader] else live)
  }

  function Find(ps: seq<PartitionMeta>, id: int): Option<PartitionMeta> {
    if ps == [] then None else if ps[0].id == id then Some(ps[0]) else Find(ps[1..], id)
  }

  /** The first partition with that id, if there is one. */
  lemma {:induction false} FindFirst(ps: seq<PartitionMeta>, id: int)
    ensures Find(ps, id) == None ==> forall k :: 0 <= k < |ps| ==> ps[k].id != id
    ensures Find(ps, id).Some? ==>
              exists k :: 0 <= k < |ps| && ps[k] == Find(ps, id).value && ps[k].id == id
                          && forall j :: 0 <= j < k ==> ps[j].id != id
  {
    if ps != [] {
      var rest := ps[1..];
      FindFirst(rest, id);
      assert ps == [ps[0]] + rest;
      if ps[0].id == id {
        assert ps[0] == Find(ps, id).value;
      } else if Find(rest, id).Some? {
        var k :| 0 <= k < |rest| && rest[k] == Find(rest, id).value && rest[k].id == id
                 && forall j :: 0 <= j < k ==> rest[j].id != id;
        assert ps[k + 1] == rest[k];
        assert forall j :: 0 < j < k + 1 ==> ps[j] == rest[j - 1];
      }
    }
  }

  method FindPartition(ps: seq<PartitionMeta>, id: int) returns (local: Option<PartitionMeta>)
    ensures local == Find(ps, id)
  {
    assert ps[0..] == ps;
    for k := 0 to |ps|
      invariant Find(ps, id) == Find(ps[k..], id)
    {
      Seqs.DropDrop(ps, k, 1);
      if ps[k].id == id {
        return Some(ps[k]);
      }
    }
    return None;
  }

  method ApplyTopic(pushed: seq<PartitionMeta>, prev: seq<PartitionMeta>, self: int, controller: bool, alive: set<int>)
    returns (out: seq<PartitionMeta>)
    ensures |out| == |pushed|
    ensures forall j :: 0 <= j < |out| ==>
              out[j] == ApplyPartition(pushed[j], Find(prev, pushed[j].id), self, controller, alive)
  {
    hide FilterAlive;
    out := pushed;
    for j := 0 to |pushed|
      invariant |out| == |pushed|
      invariant forall k :: 0 <= k < j ==>
                  out[k] == ApplyPartition(pushed[k], Find(prev, pushed[k].id), self, controller, alive)
      invariant forall k :: j <= k < |pushed| ==> out[k] == pushed[k]
    {
      var p := out[j];
      var local := FindPartition(prev, p.id);
      if local.Some? && local.value.leader == self && p.leader == self {
        p := p.(isr := local.value.isr);
      } else {
        if controller && local.Some? && p.leader !in alive {
          p := p.(leader := local.value.leader);
        }
        p := p.(isr := FilterAlive(p.isr, alive + {self}));
        if |p.isr| == 0 {
          p := p.(isr := [p.leader]);
        }
      }
      out := out[j := p];
    }
  }

  /** What a push leaves: a partition that this broker leads on both sides keeps the local in-sync set; any
      other gets the pushed members that are alive here, or just its leader when none is, and a controller
      does not take over a leader that is dead. */
  lemma ApplyExact(pushed: PartitionMeta, local: Option<PartitionMeta>, self: int, controller: bool, alive: set<int>)
    ensures var p := ApplyPartition(pushed, local, self, controller, alive);
            && p.id == pushed.id && p.replicas == pushed.replicas
            && if local.Some? && local.value.leader == self && pushed.leader == self
               then p.leader == self && p.isr == local.value.isr
               else
                 && p.leader == (if controller && local.Some? && pushed.leader !in alive
                                 then local.value.leader else pushed.leader)
                 && forall id :: id in p.isr <==>
                      || (id in pushed.isr && (id in alive || id == self))
                      || (id == p.leader && forall m :: m in pushed.isr ==> m !in alive && m != self)
  {
    var p := ApplyPartition(pushed, local, self, controller, alive);
    var live := FilterAlive(pushed.isr, alive + {self});
    if live == [] {
      forall m | m in pushed.isr ensures m !in alive && m != self {
        assert m in alive + {self} ==> m in live;
      }
    } else {
      var m := live[0];
      assert m in live && m in pushed.isr;
    }
  }

  /** Pushed metadata can leave a leader outside its own in-sync set. It stays inside exactly if the
      local set is kept and has it, or the pushed set has it alive, or nothing of the pushed set is. */
  lemma LeaderInSyncIff(pushed: PartitionMeta, local: Option<PartitionMeta>, self: int, controller: bool,
                        alive: set<int>)
    ensures var p := ApplyPartition(pushed, local, self, controller, alive);
            var keeps := local.Some? && local.value.leader == self && pushed.leader == self;
            var next := if controller && local.Some? && pushed.leader !in alive
                        then local.value.leader else pushed.leader;
            && (p.isr != [] || keeps)
            && (p.leader in p.isr <==>
                  if keeps then self in local.value.isr
                  else (next in pushed.isr && next in alive + {self})
                       || forall id :: id in pushed.isr ==> id !in alive + {self})
  {
    hide FilterAlive;
    var up := alive + {self};
    var live := FilterAlive(pushed.isr, up);
    var p := ApplyPartition(pushed, local, self, controller, alive);
    if live == [] {
      forall id | id in pushed.isr ensures id !in up {
        assert id in up ==> id in live;
      }
      assert p.leader in [p.leader];
    } else {
      var id := live[0];
      assert id in live && id in pushed.isr && id in up;
      assert p.leader in live <==> p.leader in pushed.isr && p.leader in up;
    }
  }

  /** A push that drops the leader, because its broker is dead here, while another member lives. */
  lemma LeaderDropped()
    ensures var p := ApplyPartition(PartitionMeta(0, 1, [1, 2], [1, 2]), None, 3, false, {2, 3});
            p.leader == 1 && 1 !in p.isr && 2 in p.isr
  {
    assert 2 in [1, 2];
  }
}
