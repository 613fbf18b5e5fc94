/** The string keys under which replica state and committed offsets are filed. */
module Keys {
  import opened Wrappers

  function Digit(d: int): char
    requires 0 <= d < 10
  {
    ['0', '1', '2', '3', '4', '5', '6', '7', '8', '9'][d]
  }

  function Digits(n: nat): (s: string)
    ensures s != "" && forall c :: c in s ==> c != '/' && c != '-'
  {
    if n < 10 then [Digit(n)] else Digits(n / 10) + [Digit(n % 10)]
  }

  /** Decimal form of an integer. */
  function Itoa(n: int): (s: string)
    ensures forall c :: c in s ==> c != '/'
  {
    if n < 0 then ['-'] + Digits(-n) else Digits(n)
  }

  function DigitValue(c: char): Option<int> {
    if '0' <= c <= '9' then Some(c as int - '0' as int) else None
  }

  function ParseDigits(s: string): Option<nat>
    decreases |s|
  {
    if s == "" then None
    else
      match DigitValue(s[|s| - 1])
      case None => None
      case Some(d) =>
        if |s| == 1 then Some(d)
        else match ParseDigits(s[..|s| - 1]) case None => None case Some(q) => Some(10 * q + d)
  }

  /** Decimal parsing with an optional sign. */
  function Atoi(s: string): Option<int> {
    if s != "" && (s[0] == '-' || s[0] == '+') then
      match ParseDigits(s[1..])
      case None => None
      case Some(n) => Some(if s[0] == '-' then 0 - (n as int) else n)
    else
      match ParseDigits(s) case None => None case Some(n) => Some(n)
  }

  lemma {:induction false} ParseDigitsOf(n: nat)
    ensures ParseDigits(Digits(n)) == Some(n)
    ensures '0' <= Digits(n)[0] <= '9'
  {
    if n >= 10 {
      ParseDigitsOf(n / 10);
      assert Digits(n)[..|Digits(n)| - 1] == Digits(n / 10);
    }
  }

  lemma ItoaReads()
    ensures Itoa(120) == "120" && Itoa(-7) == "-7"
  {
    assert Digits(12) == "1" + [Digit(2)];
  }

  lemma AtoiItoa(n: int)
    ensures Atoi(Itoa(n)) == Some(n)
  {
    hide Digits, ParseDigits;
    if n < 0 {
      ParseDigitsOf(-n);
      assert Itoa(n)[1..] == Digits(-n);
    } else {
      ParseDigitsOf(n);
    }
  }

  /** Position of the last slash, -1 without one. */
  method LastSlash(s: string) returns (i: int)
    ensures i == SlashIn(s, |s|)
  {
    i := |s| - 1;
    while i >= 0
      invariant -1 <= i < |s| && SlashIn(s, |s|) == SlashIn(s, i + 1)
      decreases i
    {
      if s[i] == '/' {
        return;
      }
      i := i - 1;
    }
  }

  function SlashIn(s: string, n: nat): (i: int)
    requires n <= |s|
    ensures -1 <= i < n && (i >= 0 ==> s[i] == '/')
    ensures forall k :: i < k < n ==> s[k] != '/'
  {
    if n == 0 then -1 else if s[n - 1] == '/' then n - 1 else SlashIn(s, n - 1)
  }

  function ReplicaKey(topic: string, partition: int): string {
    topic + ['/'] + Itoa(partition)
  }

  /** The number parsed after the last slash; 0 when it is not one, as the ignored error leaves it. */
  function SplitReplicaKey(k: string): (string, int) {
    var i := SlashIn(k, |k|);
    if i < 0 then (k, 0)
    else (k[..i], match Atoi(k[i + 1..]) case Some(n) => n case None => 0)
  }

  lemma SlashBefore(a: string, b: string)
    requires forall c :: c in b ==> c != '/'
    ensures SlashIn(a + ['/'] + b, |a| + 1 + |b|) == |a|
  {
    var s := a + ['/'] + b;
    var i := SlashIn(s, |s|);
    assert s[|a|] == '/';
    forall k | |a| < k < |s| ensures s[k] != '/' {
      assert s[k] == b[k - |a| - 1] && b[k - |a| - 1] in b;
    }
  }

  /** Splitting a replica key gives topic and partition back, slashes in the topic or not. */
  lemma SplitAfterKey(topic: string, partition: int)
    ensures SplitReplicaKey(ReplicaKey(topic, partition)) == (topic, partition)
  {
    hide Itoa, Atoi, SlashIn;
    var k, number := ReplicaKey(topic, partition), Itoa(partition);
    SlashBefore(topic, number);
    AtoiItoa(partition);
    assert k[|topic| + 1..] == number && k[..|topic|] == topic;
  }

  function OffsetKey(group: string, topic: string, partition: int): string {
    group + ['/'] + topic + ['/'] + Itoa(partition)
  }

  /** How a stored offset is read back for `group`: the prefix must match, the rest splits at its last slash. */
  function ReadOffsetKey(group: string, k: string): Option<(string, int)> {
    var prefix := group + ['/'];
    if !(prefix <= k) then None
    else
      var rest := k[|prefix|..];
      var i := SlashIn(rest, |rest|);
      if i < 0 then None
      else match Atoi(rest[i + 1..]) case None => None case Some(p) => Some((rest[..i], p))
  }

  /** A group reads back what it committed. */
  lemma OffsetKeyRoundTrip(group: string, topic: string, partition: int)
    ensures ReadOffsetKey(group, OffsetKey(group, topic, partition)) == Some((topic, partition))
  {
    hide Itoa, Atoi, SlashIn;
    var k, prefix, number := OffsetKey(group, topic, partition), group + ['/'], Itoa(partition);
    var rest := topic + ['/'] + number;
    assert k == prefix + rest;
    assert k[|prefix|..] == rest;
    SlashBefore(topic, number);
    AtoiItoa(partition);
    assert rest[|topic| + 1..] == number && rest[..|topic|] == topic;
  }

  /** Exactly when two groups can collide: some key of one is some key of the other if and only if one
      name with a slash after it starts the other name with a slash after it. */
  lemma OffsetKeysMeetIff(g1: string, g2: string)
    ensures (exists t1, p1, t2, p2 :: OffsetKey(g1, t1, p1) == OffsetKey(g2, t2, p2))
            <==> g1 + ['/'] <= g2 + ['/'] || g2 + ['/'] <= g1 + ['/']
  {
    hide Itoa;
    if g1 + ['/'] <= g2 + ['/'] {
      KeyBelow(g1, g2);
    } else if g2 + ['/'] <= g1 + ['/'] {
      KeyBelow(g2, g1);
    } else {
      forall t1, p1, t2, p2 ensures OffsetKey(g1, t1, p1) != OffsetKey(g2, t2, p2) {
        if OffsetKey(g1, t1, p1) == OffsetKey(g2, t2, p2) {
          SharedKey(g1, t1, p1, g2, t2, p2);
        }
      }
    }
  }

  lemma SharedKey(g1: string, t1: string, p1: int, g2: string, t2: string, p2: int)
    requires OffsetKey(g1, t1, p1) == OffsetKey(g2, t2, p2)
    ensures g1 + ['/'] <= g2 + ['/'] || g2 + ['/'] <= g1 + ['/']
  {
    hide Itoa;
    var k := OffsetKey(g1, t1, p1);
    assert k[..|g1| + 1] == g1 + ['/'] && k[..|g2| + 1] == g2 + ['/'];
    if |g1| <= |g2| {
      assert k[..|g2| + 1][..|g1| + 1] == k[..|g1| + 1];
    } else {
      assert k[..|g1| + 1][..|g2| + 1] == k[..|g2| + 1];
    }
  }

  /** What the longer name has beyond the shorter one can be the start of a topic instead. */
  lemma KeyBelow(g1: string, g2: string)
    requires g1 + ['/'] <= g2 + ['/']
    ensures exists t1, p1, t2, p2 :: OffsetKey(g1, t1, p1) == OffsetKey(g2, t2, p2)
    ensures exists t1, p1, t2, p2 :: OffsetKey(g2, t2, p2) == OffsetKey(g1, t1, p1)
  {
    hide Itoa;
    var rest := (g2 + ['/'])[|g1| + 1..];
    assert g2 + ['/'] == g1 + ['/'] + rest;
    var topic := if rest == [] then "t" else rest + "t";
    assert OffsetKey(g1, topic, 0) == (g1 + ['/'] + rest) + "t" + ['/'] + Itoa(0);
    assert OffsetKey(g2, "t", 0) == (g2 + ['/']) + "t" + ['/'] + Itoa(0);
  }

  /** In particular, names without a slash never collide: an equal key means equal parts. */
  lemma OffsetKeysApart(g1: string, t1: string, p1: int, g2: string, t2: string, p2: int)
    requires OffsetKey(g1, t1, p1) == OffsetKey(g2, t2, p2)
    requires '/' !in g1 && '/' !in g2
    ensures g1 == g2 && t1 == t2 && p1 == p2
  {
    hide Itoa, ReadOffsetKey;
    SharedKey(g1, t1, p1, g2, t2, p2);
    if g1 + ['/'] <= g2 + ['/'] {
      StartsOnlyItself(g1, g2);
    } else {
      StartsOnlyItself(g2, g1);
    }
    OffsetKeyRoundTrip(g1, t1, p1);
    OffsetKeyRoundTrip(g2, t2, p2);
  }

  lemma StartsOnlyItself(g1: string, g2: string)
    requires g1 + ['/'] <= g2 + ['/'] && '/' !in g2
    ensures g1 == g2
  {
    assert (g2 + ['/'])[|g1|] == (g1 + ['/'])[|g1|] == '/';
    assert g1 == (g1 + ['/'])[..|g1|] == (g2 + ['/'])[..|g1|];
  }

  lemma OffsetKeysMeet()
    ensures OffsetKey("a", "b/c", 0) == OffsetKey("a/b", "c", 0)
    ensures ReadOffsetKey("a", OffsetKey("a/b", "c", 0)) == Some(("b/c", 0))
  {
    hide Itoa, ReadOffsetKey;
    OffsetKeyRoundTrip("a", "b/c", 0);
  }
}
