/** Sorting by a total order, as the library sorts the source relies on. */
module Sorting {

  ghost predicate TotalOrder<T(!new)>(le: (T, T) -> bool) {
    && (forall x :: le(x, x))
    && (forall x, y :: le(x, y) && le(y, x) ==> x == y)
    && (forall x, y, z :: le(x, y) && le(y, z) ==> le(x, z))
    && (forall x, y :: le(x, y) || le(y, x))
  }

  predicate Sorted<T>(s: seq<T>, le: (T, T) -> bool) {
    forall i, j :: 0 <= i < j < |s| ==> le(s[i], s[j])
  }

  function Insert<T>(x: T, s: seq<T>, le: (T, T) -> bool): seq<T> {
    if s == [] then [x]
    else if le(x, s[0]) then [x] + s
    else [s[0]] + Insert(x, s[1..], le)
  }

  function Sort<T>(s: seq<T>, le: (T, T) -> bool): seq<T> {
    if s == [] then [] else Insert(s[0], Sort(s[1..], le), le)
  }

  lemma {:induction false} InsertElements<T>(x: T, s: seq<T>, le: (T, T) -> bool)
    ensures multiset(Insert(x, s, le)) == multiset(s) + multiset{x}
  {
    if s != [] {
      assert s == [s[0]] + s[1..];
      InsertElements(x, s[1..], le);
    }
  }

  lemma {:induction false} InsertSorted<T(!new)>(x: T, s: seq<T>, le: (T, T) -> bool)
    requires TotalOrder(le) && Sorted(s, le)
    ensures Sorted(Insert(x, s, le), le)
  {
    if s != [] && !le(x, s[0]) {
      var rest := Insert(x, s[1..], le);
      InsertSorted(x, s[1..], le);
      InsertElements(x, s[1..], le);
      forall k | 0 <= k < |rest| ensures le(s[0], rest[k]) {
        assert rest[k] in multiset(rest);
        assert rest[k] == x || rest[k] in s[1..];
      }
    }
  }

  lemma {:induction false} SortLaw<T(!new)>(s: seq<T>, le: (T, T) -> bool)
    requires TotalOrder(le)
    ensures Sorted(Sort(s, le), le) && multiset(Sort(s, le)) == multiset(s)
  {
    if s != [] {
      SortLaw(s[1..], le);
      InsertElements(s[0], Sort(s[1..], le), le);
      InsertSorted(s[0], Sort(s[1..], le), le);
      assert s == [s[0]] + s[1..];
    }
  }

  /** A sorted arrangement of given elements is unique, so the order they were collected in is lost. */
  lemma {:induction false} SortedUnique<T(!new)>(a: seq<T>, b: seq<T>, le: (T, T) -> bool)
    requires TotalOrder(le) && Sorted(a, le) && Sorted(b, le) && multiset(a) == multiset(b)
    ensures a == b
    decreases |a|
  {
    assert |a| == |multiset(a)| == |multiset(b)| == |b|;
    if a != [] {
      assert a == [a[0]] + a[1..] && b == [b[0]] + b[1..];
      assert a[0] in multiset(b) && b[0] in multiset(a);
      assert le(b[0], a[0]) && le(a[0], b[0]);
      assert multiset(a[1..]) == multiset(a) - multiset{a[0]} == multiset(b[1..]);
      SortedUnique(a[1..], b[1..], le);
    }
  }

  lemma SortForgetsOrder<T(!new)>(a: seq<T>, b: seq<T>, le: (T, T) -> bool)
    requires TotalOrder(le) && multiset(a) == multiset(b)
    ensures Sort(a, le) == Sort(b, le)
  {
    SortLaw(a, le);
    SortLaw(b, le);
    SortedUnique(Sort(a, le), Sort(b, le), le);
  }

  // ---------------------------------------------------------------------------------------------
  // The two orders used
  // ---------------------------------------------------------------------------------------------

  /** Lexicographic order on strings. */
  predicate StrLe(a: string, b: string) {
    a == [] || (b != [] && (a[0] < b[0] || (a[0] == b[0] && StrLe(a[1..], b[1..]))))
  }

  predicate IntLe(a: int, b: int) {
    a <= b
  }

  lemma {:induction false} StrLeAntisymmetric(a: string, b: string)
    requires StrLe(a, b) && StrLe(b, a)
    ensures a == b
  {
    if a != [] && b != [] {
      StrLeAntisymmetric(a[1..], b[1..]);
      assert a == [a[0]] + a[1..] && b == [b[0]] + b[1..];
    }
  }

  lemma {:induction false} StrLeTransitive(a: string, b: string, c: string)
    requires StrLe(a, b) && StrLe(b, c)
    ensures StrLe(a, c)
  {
    if a != [] && a[0] == b[0] == c[0] {
      StrLeTransitive(a[1..], b[1..], c[1..]);
    }
  }

  lemma {:induction false} StrLeReflexive(a: string)
    ensures StrLe(a, a)
  {
    if a != [] {
      StrLeReflexive(a[1..]);
    }
  }

  lemma {:induction false} StrLeTotal(a: string, b: string)
    ensures StrLe(a, b) || StrLe(b, a)
  {
    if a != [] && b != [] && a[0] == b[0] {
      StrLeTotal(a[1..], b[1..]);
    }
  }

  lemma OrdersTotal()
    ensures TotalOrder(StrLe) && TotalOrder(IntLe)
  {
    forall a, b ensures StrLe(a, a) && (StrLe(a, b) || StrLe(b, a)) {
      StrLeReflexive(a);
      StrLeTotal(a, b);
    }
    forall a, b | StrLe(a, b) && StrLe(b, a) ensures a == b {
      StrLeAntisymmetric(a, b);
    }
    forall a, b, c | StrLe(a, b) && StrLe(b, c) ensures StrLe(a, c) {
      StrLeTransitive(a, b, c);
    }
  }

  function SortStrings(s: seq<string>): seq<string> {
    Sort(s, StrLe)
  }

  function SortInts(s: seq<int>): seq<int> {
    Sort(s, IntLe)
  }

  // ---------------------------------------------------------------------------------------------
  // What the orders are
  // ---------------------------------------------------------------------------------------------

  /** The order of strings by their first difference; a string comes after its own prefixes. */
  predicate NotAfter(a: string, b: string) {
    a <= b || exists k :: 0 <= k < |a| && k < |b| && a[..k] == b[..k] && a[k] < b[k]
  }

  lemma {:induction false} StrLeIff(a: string, b: string)
    ensures StrLe(a, b) <==> NotAfter(a, b)
  {
    if a != [] && b != [] && a[0] == b[0] {
      var c, d := a[1..], b[1..];
      assert a == [a[0]] + c && b == [b[0]] + d;
      StrLeIff(c, d);
      assert a <= b <==> c <= d;
      forall k | 0 <= k < |c| && k < |d| && c[..k] == d[..k] && c[k] < d[k]
        ensures a[..k + 1] == b[..k + 1] && a[k + 1] < b[k + 1]
      {
        assert a[..k + 1] == [a[0]] + c[..k] && b[..k + 1] == [b[0]] + d[..k];
      }
      forall k | 0 <= k < |a| && k < |b| && a[..k] == b[..k] && a[k] < b[k]
        ensures 0 < k && c[..k - 1] == d[..k - 1] && c[k - 1] < d[k - 1]
      {
        assert a[..k][1..] == c[..k - 1] && b[..k][1..] == d[..k - 1];
      }
    } else if a != [] && b != [] {
      forall k | 0 <= k < |a| && k < |b| && a[..k] == b[..k]
        ensures k == 0
      {
        SameStart(a, b, k);
      }
      assert a[..0] == b[..0];
    }
  }

  lemma SameStart(a: string, b: string, k: nat)
    requires k < |a| && k < |b|
    ensures k > 0 && a[..k] == b[..k] ==> a[0] == b[0]
  {
    if k > 0 && a[..k] == b[..k] {
      assert a[..k][0] == b[..k][0];
    }
  }

  /** Sorted integers ascend, and are the ones given. */
  lemma IntsAscend(s: seq<int>)
    ensures forall i, j :: 0 <= i < j < |SortInts(s)| ==> SortInts(s)[i] <= SortInts(s)[j]
    ensures multiset(SortInts(s)) == multiset(s)
  {
    OrdersTotal();
    SortLaw(s, IntLe);
  }

  /** Sorted strings ascend, and are the ones given. */
  lemma StringsAscend(s: seq<string>)
    ensures forall i, j :: 0 <= i < j < |SortStrings(s)| ==> NotAfter(SortStrings(s)[i], SortStrings(s)[j])
    ensures multiset(SortStrings(s)) == multiset(s)
  {
    OrdersTotal();
    SortLaw(s, StrLe);
    forall i, j | 0 <= i < j < |SortStrings(s)| ensures NotAfter(SortStrings(s)[i], SortStrings(s)[j]) {
      StrLeIff(SortStrings(s)[i], SortStrings(s)[j]);
    }
  }
}
