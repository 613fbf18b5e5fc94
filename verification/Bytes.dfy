/** Fixed-width integers and the big-endian form every on-disk structure uses. */
module Bytes {

  type byte = x: int | 0 <= x < 256
  type u32 = x: int | 0 <= x < 0x1_0000_0000
  type int64 = x: int | -0x8000_0000_0000_0000 <= x < 0x8000_0000_0000_0000

  const TWO_32: int := 0x1_0000_0000
  const TWO_63: int := 0x8000_0000_0000_0000
  const TWO_64: int := 0x1_0000_0000_0000_0000

  /** The low `w` bytes of `n`, most significant first. Negative numbers come out in two's complement. */
  function Put(n: int, w: nat): (s: seq<byte>)
    ensures |s| == w
    decreases w, n
  {
    if w == 0 then [] else Put(n / 256, w - 1) + [n % 256]
  }

  function Get(s: seq<byte>): nat {
    if s == [] then 0 else 256 * Get(s[..|s| - 1]) + s[|s| - 1]
  }

  function Pow256(w: nat): nat
    ensures Pow256(w) > 0
  {
    if w == 0 then 1 else 256 * Pow256(w - 1)
  }

  /** The four bytes of `n` modulo 2^32: this is also what the Go conversion uint32(n) keeps. */
  function PutU32(n: int): (s: seq<byte>)
    ensures |s| == 4
  {
    Put(n, 4)
  }

  function GetU32(s: seq<byte>): u32
    requires |s| == 4
  {
    GetBound(s);
    Get(s)
  }

  function PutI64(n: int): (s: seq<byte>)
    ensures |s| == 8
  {
    Put(n, 8)
  }

  function GetI64(s: seq<byte>): int64
    requires |s| == 8
  {
    GetBound(s);
    Wrap64(Get(s))
  }

  /** What int64 arithmetic leaves of the mathematical value `n`. */
  function Wrap64(n: int): int64 {
    (n + TWO_63) % TWO_64 - TWO_63
  }

  // ---------------------------------------------------------------------------------------------
  // Round trips
  // ---------------------------------------------------------------------------------------------

  /** The order of the bytes: most significant first. */
  lemma PutU32Bytes(n: u32)
    ensures PutU32(n) == [n / 0x100_0000, n / 0x1_0000 % 256, n / 256 % 256, n % 256]
  {
    assert Put(n, 4) == Put(n / 256, 3) + [n % 256];
    assert Put(n / 256, 3) == Put(n / 256 / 256, 2) + [n / 256 % 256];
    assert Put(n / 256 / 256, 2) == Put(n / 256 / 256 / 256, 1) + [n / 256 / 256 % 256];
    assert Put(n / 256 / 256 / 256, 1) == Put(n / 256 / 256 / 256 / 256, 0) + [n / 256 / 256 / 256 % 256];
  }

  lemma Widths()
    ensures Pow256(4) == TWO_32 && Pow256(8) == TWO_64
  {
  }

  lemma {:induction false} GetBound(s: seq<byte>)
    ensures Get(s) < Pow256(|s|)
    ensures |s| == 4 ==> Get(s) < TWO_32
    ensures |s| == 8 ==> Get(s) < TWO_64
  {
    if s != [] {
      GetBound(s[..|s| - 1]);
    }
    Widths();
  }

  /** Peeling the last base-256 digit off a residue. */
  lemma ModStep(n: int, p: nat)
    requires p > 0
    ensures n % (256 * p) == 256 * (n / 256 % p) + n % 256
  {
    var q, d := n / 256, n % 256;
    var m := 256 * p;
    var r := 256 * (q % p) + d;
    assert q == p * (q / p) + q % p;
    assert n == m * (q / p) + r;
    assert 0 <= q % p <= p - 1;
    ModUnique(n, m, q / p, r);
  }

  lemma ModUnique(n: int, m: nat, q: int, r: int)
    requires m > 0 && n == m * q + r && 0 <= r < m
    ensures n % m == r
  {
    var k := n / m - q;
    assert m * k == r - n % m;
    MulBound(m, k);
  }

  lemma MulBound(m: nat, k: int)
    ensures k > 0 ==> m * k >= m
    ensures k < 0 ==> m * k <= 0 - m
  {
  }

  lemma {:induction false} GetPut(n: int, w: nat)
    ensures Get(Put(n, w)) == n % Pow256(w)
    decreases w
  {
    if w > 0 {
      var s := Put(n, w);
      assert s[..w - 1] == Put(n / 256, w - 1);
      GetPut(n / 256, w - 1);
      ModStep(n, Pow256(w - 1));
    }
  }

  lemma {:induction false} PutGet(s: seq<byte>)
    ensures Put(Get(s), |s|) == s
  {
    if s != [] {
      PutGet(s[..|s| - 1]);
    }
  }

  /** Adding a multiple of 256^w does not change the low `w` bytes. */
  lemma {:induction false} PutShift(n: int, k: int, w: nat)
    ensures Put(n + k * Pow256(w), w) == Put(n, w)
    decreases w
  {
    if w > 0 {
      var p := Pow256(w - 1);
      assert k * Pow256(w) == 256 * (k * p);
      var m := n + 256 * (k * p);
      assert m / 256 == n / 256 + k * p && m % 256 == n % 256;
      PutShift(n / 256, k, w - 1);
    }
  }

  lemma GetPutU32(n: int)
    ensures GetU32(PutU32(n)) == n % TWO_32
  {
    GetPut(n, 4);
    Widths();
  }

  lemma PutGetU32(s: seq<byte>)
    requires |s| == 4
    ensures PutU32(GetU32(s)) == s
  {
    PutGet(s);
  }

  lemma GetPutI64(n: int64)
    ensures GetI64(PutI64(n)) == n
  {
    hide Put, Get, Pow256, Wrap64;
    GetPut(n, 8);
    Widths();
    WrapMod(n);
  }

  lemma WrapMod(n: int64)
    ensures Wrap64(n % TWO_64) == n
  {
    assert n % TWO_64 == if n < 0 then n + TWO_64 else n;
  }

  lemma PutGetI64(s: seq<byte>)
    requires |s| == 8
    ensures PutI64(GetI64(s)) == s
  {
    hide Put, Get, Pow256, Wrap64;
    var u := Get(s);
    GetBound(s);
    WrapShift(u);
    PutGet(s);
    PutShift(u, -1, 8);
    Widths();
  }

  lemma WrapShift(u: int)
    requires 0 <= u < TWO_64
    ensures Wrap64(u) == u || Wrap64(u) == u - TWO_64
  {
  }
}
