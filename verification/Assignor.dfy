/** The range assignor: contiguous slices of each topic's sorted partitions, in sorted member order. */
module Assignors {
  import opened Sorting
  import opened Seqs

  type Assignment = map<string, seq<int>>

  function Min(a: int, b: int): int {
    if a < b then a else b
  }

  /** Partitions for each member, and how many members take one more. */
  function Per(p: nat, n: nat): nat
    requires n > 0
  {
    p / n
  }

  function Extra(p: nat, n: nat): nat
    requires n > 0
  {
    p % n
  }

  /** The running index after `i` members: each takes `per`, the first `extra` of them one more. */
  function Taken(i: nat, per: nat, extra: nat): nat {
    if i == 0 then 0 else Taken(i - 1, per, extra) + per + if i - 1 < extra then 1 else 0
  }

  lemma {:induction false} TakenFormula(i: nat, per: nat, extra: nat)
    ensures Taken(i, per, extra) == i * per + Min(i, extra)
  {
    if i > 0 {
      TakenFormula(i - 1, per, extra);
    }
  }

  lemma {:induction false} TakenMonotone(i: nat, j: nat, per: nat, extra: nat)
    requires i <= j
    ensures Taken(i, per, extra) <= Taken(j, per, extra)
    decreases j - i
  {
    if i < j {
      TakenMonotone(i, j - 1, per, extra);
    }
  }

  /** Where slice i of p partitions over n members starts. */
  function Start(i: nat, p: nat, n: nat): (k: nat)
    requires n > 0 && i <= n
    ensures k <= p
  {
    StartBound(i, p, n);
    Taken(i, Per(p, n), Extra(p, n))
  }

  lemma StartBound(i: nat, p: nat, n: nat)
    requires n > 0 && i <= n
    ensures Taken(i, Per(p, n), Extra(p, n)) <= p && Taken(n, Per(p, n), Extra(p, n)) == p
  {
    TakenFormula(n, Per(p, n), Extra(p, n));
    TakenMonotone(i, n, Per(p, n), Extra(p, n));
    assert p == n * (p / n) + p % n;
  }

  /** Slice i starts at i * (p/n) + min(i, p mod n). */
  lemma StartFormula(i: nat, p: nat, n: nat)
    requires n > 0 && i <= n
    ensures Start(i, p, n) == i * (p / n) + Min(i, p % n)
  {
    TakenFormula(i, Per(p, n), Extra(p, n));
  }

  /** Slices follow one another; the first p mod n of them have one partition more than the rest. */
  lemma StartNext(i: nat, p: nat, n: nat)
    requires i < n
    ensures Start(i + 1, p, n) == Start(i, p, n) + Per(p, n) + if i < Extra(p, n) then 1 else 0
    ensures Start(0, p, n) == 0 && Start(n, p, n) == p
  {
    hide Per, Extra;
    StartBound(n, p, n);
  }

  function Slice(i: nat, parts: seq<int>, n: nat): seq<int>
    requires i < n
  {
    StartNext(i, |parts|, n);
    parts[Start(i, |parts|, n)..Start(i + 1, |parts|, n)]
  }

  /** What member `m` has been given after the first `k` positions of the member list. */
  function Share(ms: seq<string>, m: string, parts: seq<int>, k: nat): seq<int>
    requires k <= |ms|
  {
    if k == 0 then []
    else Share(ms, m, parts, k - 1) + if ms[k - 1] == m then Slice(k - 1, parts, |ms|) else []
  }

  /** A topic appears in an assignment only if something of it was given. */
  function AddShare(entry: Assignment, topic: string, share: seq<int>): Assignment {
    if share == [] then entry
    else entry[topic := (if topic in entry then entry[topic] else []) + share]
  }

  function RangeShare(ms: seq<string>, m: string, tp: map<string, seq<int>>): Assignment {
    map t | t in tp && Share(ms, m, SortInts(tp[t]), |ms|) != [] :: Share(ms, m, SortInts(tp[t]), |ms|)
  }

  // ---------------------------------------------------------------------------------------------
  // The assignor
  // ---------------------------------------------------------------------------------------------

  /** One topic, with the running index of the source's loop. */
  method AssignRange(members: seq<string>, topic: string, parts: seq<int>, given: map<string, Assignment>)
    returns (out: map<string, Assignment>)
    requires forall i :: 0 <= i < |members| ==> members[i] in given
    ensures out.Keys == given.Keys
    ensures forall m :: m in given ==> out[m] == AddShare(given[m], topic, Share(members, m, parts, |members|))
  {
    hide Per, Extra, Start, Share, AddShare;
    NoShareYet(given, topic, members, parts);
    out := given;
    var n, p := |members|, |parts|;
    if n == 0 {
      return;
    }
    if p == 0 {
      forall m | m in given ensures given[m] == AddShare(given[m], topic, Share(members, m, parts, n)) {
        NothingToShare(members, m, parts, n);
        AddShareIs(given[m], topic, []);
      }
      return;
    }
    var per, extra, idx := Per(p, n), Extra(p, n), 0;
    StartNext(0, p, n);
    for i := 0 to n
      invariant idx == Start(i, p, n)
      invariant out.Keys == given.Keys
      invariant forall m :: m in given ==> out[m] == AddShare(given[m], topic, Share(members, m, parts, i))
    {
      StartNext(i, p, n);
      var count := per;
      if i < extra {
        count := count + 1;
      }
      var m := members[i];
      var entry := out[m];
      var share := parts[idx..idx + count];
      assert share == Slice(i, parts, n);
      if count != 0 {
        out := out[m := entry[topic := (if topic in entry then entry[topic] else []) + share]];
      }
      AddShareIs(entry, topic, share);
      forall o | o in given
        ensures out[o] == AddShare(given[o], topic, Share(members, o, parts, i + 1))
      {
        ShareNext(members, o, parts, i);
        AddShareMore(given[o], topic, Share(members, o, parts, i), share);
      }
      idx := idx + count;
    }
  }

  lemma NoShareYet(given: map<string, Assignment>, topic: string, ms: seq<string>, parts: seq<int>)
    ensures forall m :: m in given ==> given[m] == AddShare(given[m], topic, Share(ms, m, parts, 0))
  {
  }

  lemma ShareNext(ms: seq<string>, m: string, parts: seq<int>, i: nat)
    requires i < |ms|
    ensures ms[i] == m ==> Share(ms, m, parts, i + 1) == Share(ms, m, parts, i) + Slice(i, parts, |ms|)
    ensures ms[i] != m ==> Share(ms, m, parts, i + 1) == Share(ms, m, parts, i)
  {
    hide Slice;
  }

  lemma AddShareIs(entry: Assignment, topic: string, share: seq<int>)
    ensures share == [] ==> AddShare(entry, topic, share) == entry
    ensures share != [] ==>
              AddShare(entry, topic, share) == entry[topic := (if topic in entry then entry[topic] else []) + share]
  {
  }

  lemma AddShareMore(entry: Assignment, topic: string, a: seq<int>, b: seq<int>)
    ensures AddShare(entry, topic, a + b) == AddShare(AddShare(entry, topic, a), topic, b)
  {
    if topic in entry {
      Seqs.ConcatAssoc(entry[topic], a, b);
    }
    if a == [] {
      assert a + b == b;
    } else if b == [] {
      assert a + b == a;
    } else {
      assert [] + (a + b) == [] + a + b;
    }
  }

  lemma {:induction false} NothingToShare(ms: seq<string>, m: string, parts: seq<int>, k: nat)
    requires parts == [] && k <= |ms|
    ensures Share(ms, m, parts, k) == []
  {
    if k > 0 {
      NothingToShare(ms, m, parts, k - 1);
    }
  }

  method RangeAssign(members: seq<string>, tp: map<string, seq<int>>) returns (out: map<string, Assignment>)
    ensures forall m :: m in out <==> m in members
    ensures forall m :: m in out ==> out[m] == RangeShare(SortStrings(members), m, tp)
    ensures forall m, t, i, j :: m in out && t in out[m] && 0 <= i < j < |out[m][t]| ==> out[m][t][i] <= out[m][t][j]
    ensures forall a, b, t, x, y ::
              (a in out && b in out && a != b && NotAfter(a, b)
               && t in out[a] && t in out[b] && x in out[a][t] && y in out[b][t]) ==> x <= y
  {
    hide Share, SortInts, SortStrings, NotAfter;
    SharesAscend(members, tp);
    var ms := SortStrings(members);
    SameMembers(members);
    out := map[];
    for i := 0 to |ms|
      invariant forall m :: m in out <==> m in ms[..i]
      invariant forall m :: m in out ==> out[m] == map[]
    {
      Seqs.TakeSnoc(ms, i);
      out := out[ms[i] := map[]];
    }
    assert ms[..|ms|] == ms;
    if |ms| == 0 {
      return;
    }
    // Topics are independent of each other, so the sorted order of the source is any order here.
    var topics, done := tp.Keys, {};
    while topics != {}
      invariant topics <= tp.Keys && done == tp.Keys - topics
      invariant forall m :: m in out <==> m in members
      invariant forall m :: m in out ==> out[m] == RangeShare(ms, m, map t | t in done :: tp[t])
      decreases topics
    {
      var topic :| topic in topics;
      var parts := SortInts(tp[topic]);
      ghost var before := out;
      out := AssignRange(ms, topic, parts, out);
      forall m | m in out
        ensures out[m] == RangeShare(ms, m, map t | t in done + {topic} :: tp[t])
      {
        OneMoreTopic(ms, m, tp, done, topic);
      }
      topics, done := topics - {topic}, done + {topic};
    }
    assert (map t | t in done :: tp[t]) == tp;
  }

  lemma SameMembers(members: seq<string>)
    ensures forall m :: m in SortStrings(members) <==> m in members
  {
    OrdersTotal();
    SortLaw(members, StrLe);
    forall m ensures m in SortStrings(members) <==> m in members {
      assert m in multiset(SortStrings(members)) <==> m in multiset(members);
    }
  }

  lemma OneMoreTopic(ms: seq<string>, m: string, tp: map<string, seq<int>>, done: set<string>, topic: string)
    requires done <= tp.Keys && topic in tp && topic !in done
    ensures RangeShare(ms, m, map t | t in done + {topic} :: tp[t])
            == AddShare(RangeShare(ms, m, map t | t in done :: tp[t]), topic, Share(ms, m, SortInts(tp[topic]), |ms|))
  {
    hide Share, SortInts;
    var share := Share(ms, m, SortInts(tp[topic]), |ms|);
    assert [] + share == share;
  }

  // ---------------------------------------------------------------------------------------------
  // Laws
  // ---------------------------------------------------------------------------------------------

  /** Distinct members get exactly the slice at their position. */
  lemma {:induction false} ShareIsSlice(ms: seq<string>, i: nat, parts: seq<int>, k: nat)
    requires Distinct(ms) && i < |ms| && k <= |ms|
    ensures Share(ms, ms[i], parts, k) == if i < k then Slice(i, parts, |ms|) else []
  {
    hide Slice;
    if k > 0 {
      ShareIsSlice(ms, i, parts, k - 1);
    }
  }

  function Slices(parts: seq<int>, n: nat, k: nat): seq<int>
    requires k <= n
  {
    if k == 0 then [] else Slices(parts, n, k - 1) + Slice(k - 1, parts, n)
  }

  /** Put one after another in member order, the slices give back the whole list. */
  lemma {:induction false} SlicesConcat(parts: seq<int>, n: nat, k: nat)
    requires 0 < n && k <= n
    ensures Slices(parts, n, k) == parts[..Start(k, |parts|, n)]
    ensures k == n ==> Slices(parts, n, k) == parts
  {
    hide Start;
    StartNext(if k > 0 then k - 1 else 0, |parts|, n);
    if k > 0 {
      SlicesConcat(parts, n, k - 1);
      var a, b := Start(k - 1, |parts|, n), Start(k, |parts|, n);
      assert parts[..a] + parts[a..b] == parts[..b];
    }
    assert parts[..|parts|] == parts;
  }

  /** Loads differ by at most one, and the longer slices come first. */
  lemma SlicesBalanced(parts: seq<int>, n: nat, i: nat, j: nat)
    requires i < j < n
    ensures 0 <= |Slice(i, parts, n)| - |Slice(j, parts, n)| <= 1
    ensures |Slice(i, parts, n)| == Per(|parts|, n) + if i < Extra(|parts|, n) then 1 else 0
  {
    hide Start, Per, Extra;
    StartNext(i, |parts|, n);
    StartNext(j, |parts|, n);
  }

  /** Slices of distinct partitions have nothing in common. */
  lemma SlicesDisjoint(parts: seq<int>, n: nat, i: nat, j: nat, x: int)
    requires Distinct(parts) && i < j < n
    ensures !(x in Slice(i, parts, n) && x in Slice(j, parts, n))
  {
    hide Per, Extra;
    TakenMonotone(i + 1, j, Per(|parts|, n), Extra(|parts|, n));
    StartNext(i, |parts|, n);
    StartNext(j, |parts|, n);
  }

  /** Every partition falls into some slice. */
  lemma {:induction false} SlicesCover(parts: seq<int>, n: nat, k: nat, x: int) returns (i: nat)
    requires k <= n && x in Slices(parts, n, k)
    ensures i < k && x in Slice(i, parts, n)
  {
    hide Slice;
    if x in Slice(k - 1, parts, n) {
      i := k - 1;
    } else {
      i := SlicesCover(parts, n, k - 1, x);
    }
  }

  /** Whatever has been given out so far comes from the front of the list. */
  lemma {:induction false} ShareFrom(ms: seq<string>, m: string, parts: seq<int>, k: nat, x: int)
    returns (p: nat, i: nat)
    requires k <= |ms| && x in Share(ms, m, parts, k)
    ensures p < k && ms[p] == m
    ensures Start(p, |parts|, |ms|) <= i < Start(p + 1, |parts|, |ms|) <= |parts| && parts[i] == x
  {
    hide Start;
    if x in Share(ms, m, parts, k - 1) {
      p, i := ShareFrom(ms, m, parts, k - 1, x);
    } else {
      var j :| 0 <= j < |Slice(k - 1, parts, |ms|)| && Slice(k - 1, parts, |ms|)[j] == x;
      p, i := k - 1, Start(k - 1, |parts|, |ms|) + j;
    }
  }

  predicate Ascending(s: seq<int>) {
    forall i, j :: 0 <= i < j < |s| ==> s[i] <= s[j]
  }

  lemma {:induction false} ShareAscends(ms: seq<string>, m: string, parts: seq<int>, k: nat)
    requires k <= |ms| && Ascending(parts)
    ensures Ascending(Share(ms, m, parts, k))
  {
    hide Start;
    if k > 0 {
      var front := Share(ms, m, parts, k - 1);
      var slice := Slice(k - 1, parts, |ms|);
      ShareAscends(ms, m, parts, k - 1);
      var start := Start(k - 1, |parts|, |ms|);
      SliceAt(k - 1, parts, |ms|);
      hide Slice;
      forall i, j | 0 <= i < |front| && 0 <= j < |slice| ensures front[i] <= slice[j] {
        var x := front[i];
        assert x in front;
        var p, at := ShareFrom(ms, m, parts, k - 1, x);
        StartsAscend(p + 1, k - 1, |parts|, |ms|);
        assert parts[at] <= parts[start + j];
      }
      assert Ascending(slice);
    }
  }

  lemma SliceAt(i: nat, parts: seq<int>, n: nat)
    requires i < n
    ensures var slice, start := Slice(i, parts, n), Start(i, |parts|, n);
            start + |slice| <= |parts| && forall j :: 0 <= j < |slice| ==> slice[j] == parts[start + j]
  {
    hide Start;
    StartNext(i, |parts|, n);
  }

  lemma StartsAscend(i: nat, j: nat, p: nat, n: nat)
    requires 0 < n && i <= j <= n
    ensures Start(i, p, n) <= Start(j, p, n)
  {
    TakenMonotone(i, j, Per(p, n), Extra(p, n));
  }

  /** Each member's partitions ascend, and an earlier member's are not above a later one's. */
  lemma SharesAscend(members: seq<string>, tp: map<string, seq<int>>)
    ensures var ms := SortStrings(members);
            && (forall m, t, i, j ::
                  t in RangeShare(ms, m, tp) && 0 <= i < j < |RangeShare(ms, m, tp)[t]| ==>
                    RangeShare(ms, m, tp)[t][i] <= RangeShare(ms, m, tp)[t][j])
            && (forall a, b, t, x, y ::
                  (a != b && NotAfter(a, b) && t in RangeShare(ms, a, tp) && t in RangeShare(ms, b, tp)
                   && x in RangeShare(ms, a, tp)[t] && y in RangeShare(ms, b, tp)[t]) ==> x <= y)
  {
    hide Share, SortInts, SortStrings, NotAfter, Ascending;
    var ms := SortStrings(members);
    forall m, t | t in RangeShare(ms, m, tp) ensures Ascending(RangeShare(ms, m, tp)[t]) {
      AscendingInts(tp[t]);
      ShareAscends(ms, m, SortInts(tp[t]), |ms|);
    }
    assert forall m, t, i, j ::
             t in RangeShare(ms, m, tp) && 0 <= i < j < |RangeShare(ms, m, tp)[t]| ==>
               RangeShare(ms, m, tp)[t][i] <= RangeShare(ms, m, tp)[t][j] by {
      forall m, t, i, j | t in RangeShare(ms, m, tp) && 0 <= i < j < |RangeShare(ms, m, tp)[t]|
        ensures RangeShare(ms, m, tp)[t][i] <= RangeShare(ms, m, tp)[t][j]
      {
        AscendingAt(RangeShare(ms, m, tp)[t], i, j);
      }
    }
    forall a, b, t, x, y | a != b && NotAfter(a, b) && t in RangeShare(ms, a, tp) && t in RangeShare(ms, b, tp)
                           && x in RangeShare(ms, a, tp)[t] && y in RangeShare(ms, b, tp)[t]
      ensures x <= y
    {
      SharesApart(members, SortInts(tp[t]), a, b, x, y) by { AscendingInts(tp[t]); }
    }
  }

  lemma AscendingInts(s: seq<int>)
    ensures Ascending(SortInts(s))
  {
    IntsAscend(s);
  }

  lemma AscendingAt(s: seq<int>, i: int, j: int)
    requires Ascending(s) && 0 <= i < j < |s|
    ensures s[i] <= s[j]
  {
  }

  lemma SharesApart(members: seq<string>, parts: seq<int>, a: string, b: string, x: int, y: int)
    requires Ascending(parts) && a != b && NotAfter(a, b)
    requires var ms := SortStrings(members);
             x in Share(ms, a, parts, |ms|) && y in Share(ms, b, parts, |ms|)
    ensures x <= y
  {
    hide Share, SortStrings, NotAfter, Start;
    var ms := SortStrings(members);
    var p, i := ShareFrom(ms, a, parts, |ms|, x);
    var q, j := ShareFrom(ms, b, parts, |ms|, y);
    StringsAscend(members);
    StrLeIff(a, b);
    StrLeIff(b, a);
    if q < p {
      StrLeAntisymmetric(a, b);
    } else {
      StartsAscend(p + 1, q, |parts|, |ms|);
    }
  }

  lemma SortedDistinct(parts: seq<int>)
    requires Distinct(parts)
    ensures Distinct(SortInts(parts)) && forall x :: x in parts ==> x in SortInts(parts)
  {
    OrdersTotal();
    SortLaw(parts, IntLe);
    DistinctByCount(parts, SortInts(parts));
    forall x | x in parts ensures x in SortInts(parts) {
      assert x in multiset(SortInts(parts));
    }
  }

  lemma SortedMembers(members: seq<string>)
    requires Distinct(members)
    ensures var ms := SortStrings(members);
            Distinct(ms) && |ms| == |members| && forall m :: m in ms <==> m in members
  {
    var ms := SortStrings(members);
    OrdersTotal();
    SortLaw(members, StrLe);
    assert |ms| == |multiset(ms)| == |multiset(members)| == |members|;
    DistinctByCount(members, ms);
    SameMembers(members);
  }

  lemma DistinctByCount<T(!new)>(a: seq<T>, b: seq<T>)
    requires Distinct(a) && multiset(a) == multiset(b)
    ensures Distinct(b)
  {
    DistinctCounts(a);
    CountsDistinct(b);
  }

  lemma {:induction false} DistinctCounts<T(!new)>(a: seq<T>)
    requires Distinct(a)
    ensures forall x :: multiset(a)[x] <= 1
  {
    if a != [] {
      DistinctCounts(a[1..]);
      assert a == [a[0]] + a[1..];
      assert a[0] !in a[1..];
    }
  }

  lemma {:induction false} CountsDistinct<T(!new)>(b: seq<T>)
    requires forall x :: multiset(b)[x] <= 1
    ensures Distinct(b)
  {
    if b != [] {
      assert b == [b[0]] + b[1..];
      assert multiset(b) == multiset{b[0]} + multiset(b[1..]);
      forall x ensures multiset(b[1..])[x] <= 1 {
        assert multiset(b[1..])[x] <= multiset(b)[x];
      }
      CountsDistinct(b[1..]);
      assert multiset(b)[b[0]] == 1 + multiset(b[1..])[b[0]];
      assert b[0] !in b[1..];
    }
  }

  /** One topic, distinct members and partitions: every partition goes to exactly one member. */
  lemma RangeExact(members: seq<string>, parts: seq<int>, x: int) returns (owner: string)
    requires Distinct(members) && Distinct(parts) && members != [] && x in parts
    ensures owner in members
    ensures forall m :: m in members ==>
              (x in Share(SortStrings(members), m, SortInts(parts), |SortStrings(members)|) <==> m == owner)
  {
    hide Slice, Share, SortInts, SortStrings;
    var ms, ps := SortStrings(members), SortInts(parts);
    SortedMembers(members);
    SortedDistinct(parts);
    SlicesConcat(ps, |ms|, |ms|);
    var i := SlicesCover(ps, |ms|, |ms|, x);
    owner := ms[i];
    forall m | m in members
      ensures x in Share(ms, m, ps, |ms|) <==> m == owner
    {
      var j :| 0 <= j < |ms| && ms[j] == m;
      ShareIsSlice(ms, j, ps, |ms|);
      if i < j {
        SlicesDisjoint(ps, |ms|, i, j, x);
      } else if j < i {
        SlicesDisjoint(ps, |ms|, j, i, x);
      }
    }
  }
}
