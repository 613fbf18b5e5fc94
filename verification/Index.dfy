/** The sparse offset index: its file, its in-memory entries, and the positions it answers with. */
module Index {
  import opened Bytes
  import opened Records

  datatype Entry = Entry(relOffset: u32, position: u32)

  function EntryBytes(e: Entry): (s: seq<byte>)
    ensures |s| == 8
  {
    PutU32(e.relOffset) + PutU32(e.position)
  }

  function FileOf(es: seq<Entry>): (s: seq<byte>)
    ensures |s| == 8 * |es|
  {
    if es == [] then [] else FileOf(es[..|es| - 1]) + EntryBytes(es[|es| - 1])
  }

  function EntryAt(file: seq<byte>, k: nat): Entry
    requires 8 * k + 8 <= |file|
  {
    Entry(GetU32(file[8 * k..8 * k + 4]), GetU32(file[8 * k + 4..8 * k + 8]))
  }

  /** The entries an index file holds; a torn last entry is ignored. */
  function Load(file: seq<byte>): seq<Entry> {
    seq(|file| / 8, k requires 0 <= k < |file| / 8 => EntryAt(file, k))
  }

  /** What writing an entry at `pos` makes of an index file; what lies beyond stays. */
  function WriteEntry(file: seq<byte>, pos: nat, e: Entry): seq<byte>
    requires pos <= |file|
  {
    file[..pos] + EntryBytes(e) + if pos + 8 <= |file| then file[pos + 8..] else []
  }

  /** An index file that held `before` when it was opened and was then given entries: they go over it
      from the front. */
  function Overwritten(before: seq<byte>, own: seq<Entry>): seq<byte> {
    FileOf(own) + if 8 * |own| <= |before| then before[8 * |own|..] else []
  }

  /** The entries it then holds. */
  function LeftOn(stale: seq<Entry>, own: seq<Entry>): seq<Entry> {
    own + if |own| < |stale| then stale[|own|..] else []
  }

  /** The index after a run of appends: the entries, and the bytes written since the last one. */
  datatype IndexState = IndexState(entries: seq<Entry>, since: nat)

  function IndexStep(st: IndexState, r: Record, pos: nat, base: int, interval: int): IndexState {
    var due := st.since == 0 || st.since >= interval;
    IndexState(
      if due then st.entries + [Entry((r.offset - base) % TWO_32, pos % TWO_32)] else st.entries,
      (if due then 0 else st.since) + EncodedSize(r))
  }

  function IndexOf(recs: seq<Record>, base: int, interval: int): IndexState {
    if recs == [] then IndexState([], 0)
    else
      var prefix := recs[..|recs| - 1];
      IndexStep(IndexOf(prefix, base, interval), recs[|recs| - 1], ByteLen(prefix), base, interval)
  }

  /** The position of the greatest indexed offset at or below `rel`; 0 when there is none. */
  function PositionFor(es: seq<Entry>, rel: int): nat {
    if es == [] then 0
    else if es[|es| - 1].relOffset <= rel then es[|es| - 1].position
    else PositionFor(es[..|es| - 1], rel)
  }

  /** The loop of sort.Search over "indexed offset > rel", on the entries from `i` up to `j`. */
  function SearchFrom(es: seq<Entry>, rel: int, i: nat, j: nat): (r: nat)
    requires i <= j <= |es|
    ensures i <= r <= j && (r > i ==> es[r - 1].relOffset <= rel) && (r < j ==> es[r].relOffset > rel)
    decreases j - i
  {
    if i == j then i
    else
      var h := (i + j) / 2;
      if es[h].relOffset > rel then SearchFrom(es, rel, i, h) else SearchFrom(es, rel, h + 1, j)
  }

  /** What a lookup answers, in order or not. */
  function Found(es: seq<Entry>, rel: int): nat {
    var i := SearchFrom(es, rel, 0, |es|);
    if i == 0 then 0 else es[i - 1].position
  }

  predicate SortedByOffset(es: seq<Entry>) {
    forall i, j :: 0 <= i < j < |es| ==> es[i].relOffset < es[j].relOffset
  }

  class SparseIndex {
    var file: seq<byte>
    var wpos: nat           // the file handle's own offset, where the next write lands
    var entries: seq<Entry>

    /** Opens an index file; reading it does not move the handle's offset. */
    constructor Open(file: seq<byte>)
      ensures this.file == file && wpos == 0 && entries == Load(file)
    {
      this.file, wpos, entries := file, 0, [];
      new;
      var n := |file| / 8;
      var k := 0;
      while k < n
        invariant k <= n && this.file == file && wpos == 0
        invariant entries == Load(file)[..k]
      {
        entries := entries + [Entry(GetU32(file[k * 8..k * 8 + 4]), GetU32(file[k * 8 + 4..k * 8 + 8]))];
        k := k + 1;
      }
    }

    predicate Valid()
      reads this
    {
      wpos <= |file|
    }

    /** Ready for appends: the handle stands right after the entries held in memory. */
    predicate Writable()
      reads this
    {
      wpos == 8 * |entries| && wpos <= |file| < wpos + 8 && file[..wpos] == FileOf(entries)
    }

    method Append(relOffset: int, position: int)
      requires Valid()
      modifies this
      ensures Valid()
      ensures entries == old(entries) + [Entry(relOffset % TWO_32, position % TWO_32)]
      ensures old(Writable()) ==> Writable() && wpos == |file|
      ensures wpos == old(wpos) + 8
      ensures file == WriteEntry(old(file), old(wpos), Entry(relOffset % TWO_32, position % TWO_32))
    {
      var e := Entry(relOffset % TWO_32, position % TWO_32);
      var buf := PutU32(e.relOffset) + PutU32(e.position);
      file := file[..wpos] + buf + if wpos + 8 <= |file| then file[wpos + 8..] else [];
      wpos := wpos + 8;
      entries := entries + [e];
      assert entries[..|entries| - 1] == old(entries);
    }

    /** What a full-scan recovery does first. */
    method Clear()
      modifies this
      ensures Writable() && Valid() && entries == [] && file == [] && wpos == 0
    {
      file, wpos, entries := [], 0, [];
    }

    method Lookup(relOffset: u32) returns (pos: nat)
      ensures pos == Found(entries, relOffset)
      ensures SortedByOffset(entries) ==> pos == PositionFor(entries, relOffset)
    {
      if SortedByOffset(entries) {
        FoundIsGreatest(entries, relOffset);
      }
      hide PositionFor, SortedByOffset;
      if |entries| == 0 {
        return 0;
      }
      var i, j := 0, |entries|;
      while i < j
        invariant 0 <= i <= j <= |entries|
        invariant SearchFrom(entries, relOffset, 0, |entries|) == SearchFrom(entries, relOffset, i, j)
      {
        var h := (i + j) / 2;
        if entries[h].relOffset > relOffset {
          j := h;
        } else {
          i := h + 1;
        }
      }
      if i == 0 {
        return 0;
      }
      return entries[i - 1].position;
    }
  }

  /** On sorted entries the search finds the greatest indexed offset at or below the target. */
  lemma FoundIsGreatest(es: seq<Entry>, rel: int)
    requires SortedByOffset(es)
    ensures Found(es, rel) == PositionFor(es, rel)
  {
    hide SearchFrom;
    PartitionPoint(es, rel, SearchFrom(es, rel, 0, |es|));
  }

  /** That is the position of the entry whose successor, if any, is beyond the target; and 0 when the
      first entry already is. */
  lemma FoundExact(es: seq<Entry>, rel: int)
    requires SortedByOffset(es)
    ensures es == [] || es[0].relOffset > rel ==> Found(es, rel) == 0
    ensures forall k :: (0 <= k < |es| && es[k].relOffset <= rel && (k == |es| - 1 || rel < es[k + 1].relOffset)) ==>
              Found(es, rel) == es[k].position
  {
    hide SearchFrom;
    var n := SearchFrom(es, rel, 0, |es|);
    assert forall i, j :: 0 <= i <= j < |es| ==> es[i].relOffset <= es[j].relOffset;
    forall k | 0 <= k < |es| && es[k].relOffset <= rel && (k == |es| - 1 || rel < es[k + 1].relOffset)
      ensures k == n - 1
    {
    }
  }

  /** An index ready for appends has on disk what it has in memory. */
  lemma WritableLoads(idx: SparseIndex)
    requires idx.Writable()
    ensures Load(idx.file) == idx.entries
  {
    assert idx.file == idx.file[..idx.wpos] + idx.file[idx.wpos..];
    LoadFileOf(idx.entries, idx.file[idx.wpos..]);
  }

  lemma OverwrittenNext(before: seq<byte>, own: seq<Entry>, e: Entry)
    ensures 8 * |own| <= |Overwritten(before, own)|
    ensures Overwritten(before, own + [e]) == WriteEntry(Overwritten(before, own), 8 * |own|, e)
  {
    hide EntryBytes;
    var k := 8 * |own|;
    var file := Overwritten(before, own);
    assert (own + [e])[..|own|] == own;
    assert FileOf(own + [e]) == FileOf(own) + EntryBytes(e);
    assert file[..k] == FileOf(own);
    if k + 8 <= |before| {
      assert file[k + 8..] == before[k + 8..];
    }
  }

  /** Reading such a file back gives the new entries, and those of the old ones they do not reach. */
  lemma LoadOverwritten(before: seq<byte>, own: seq<Entry>)
    ensures Load(Overwritten(before, own)) == LeftOn(Load(before), own)
  {
    hide EntryAt, FileOf;
    var file := Overwritten(before, own);
    if 8 * |own| <= |before| {
      forall k | 0 <= k < |before| / 8 ensures EntryAt(file, k) == if k < |own| then own[k] else EntryAt(before, k) {
        if k < |own| {
          EntryInFront(own, before[8 * |own|..], k);
        } else {
          EntryBeyond(file, before, k);
        }
      }
      assert |file| == |before|;
    } else {
      forall k | 0 <= k < |own| ensures EntryAt(file, k) == own[k] {
        EntryInFront(own, [], k);
      }
    }
  }

  lemma EntryBeyond(a: seq<byte>, b: seq<byte>, k: nat)
    requires 8 * k + 8 <= |a| == |b| && a[8 * k..] == b[8 * k..]
    ensures EntryAt(a, k) == EntryAt(b, k)
  {
    assert a[8 * k..8 * k + 4] == a[8 * k..][..4] && b[8 * k..8 * k + 4] == b[8 * k..][..4];
    assert a[8 * k + 4..8 * k + 8] == a[8 * k..][4..8] && b[8 * k + 4..8 * k + 8] == b[8 * k..][4..8];
  }

  lemma {:induction false} PartitionPoint(es: seq<Entry>, rel: int, n: nat)
    requires n <= |es|
    requires forall k :: 0 <= k < n ==> es[k].relOffset <= rel
    requires forall k :: n <= k < |es| ==> es[k].relOffset > rel
    ensures PositionFor(es, rel) == if n == 0 then 0 else es[n - 1].position
  {
    if n < |es| {
      PartitionPoint(es[..|es| - 1], rel, n);
    }
  }

  // ---------------------------------------------------------------------------------------------
  // The index file
  // ---------------------------------------------------------------------------------------------

  lemma {:induction false} FileAt(es: seq<Entry>, k: nat)
    requires k < |es|
    ensures FileOf(es)[8 * k..8 * k + 8] == EntryBytes(es[k])
  {
    var n := |es| - 1;
    var front := FileOf(es[..n]);
    assert FileOf(es) == front + EntryBytes(es[n]);
    if k < n {
      FileAt(es[..n], k);
      assert FileOf(es)[8 * k..8 * k + 8] == front[8 * k..8 * k + 8];
    } else {
      assert FileOf(es)[8 * k..8 * k + 8] == EntryBytes(es[n]);
    }
  }

  /** Reading the index file back gives the entries written, whatever torn entry follows them. */
  lemma LoadFileOf(es: seq<Entry>, torn: seq<byte>)
    requires |torn| < 8
    ensures Load(FileOf(es) + torn) == es
  {
    hide EntryAt;
    forall k | 0 <= k < |es|
      ensures EntryAt(FileOf(es) + torn, k) == es[k]
    {
      EntryInFront(es, torn, k);
    }
  }

  lemma EntryInFront(es: seq<Entry>, tail: seq<byte>, k: nat)
    requires k < |es|
    ensures EntryAt(FileOf(es) + tail, k) == es[k]
  {
    hide PutU32, GetU32, FileOf;
    FileAt(es, k);
    var file, e := FileOf(es) + tail, es[k];
    assert file[8 * k..8 * k + 4] == FileOf(es)[8 * k..8 * k + 8][..4] == PutU32(e.relOffset);
    assert file[8 * k + 4..8 * k + 8] == FileOf(es)[8 * k..8 * k + 8][4..] == PutU32(e.position);
    GetPutU32(e.relOffset);
    GetPutU32(e.position);
    assert EntryAt(file, k) == e;
  }

  // ---------------------------------------------------------------------------------------------
  // What the entries point at
  // ---------------------------------------------------------------------------------------------

  predicate Consecutive(recs: seq<Record>, base: int) {
    forall i :: 0 <= i < |recs| ==> recs[i].offset == base + i
  }

  /** Every record starts at a position that fits the index's 32 bits. */
  predicate Narrow(recs: seq<Record>) {
    recs == [] || ByteLen(recs[..|recs| - 1]) < TWO_32
  }

  lemma NarrowPrefix(recs: seq<Record>)
    requires recs != [] && Narrow(recs)
    ensures Narrow(recs[..|recs| - 1])
    ensures |recs| - 1 < TWO_32
  {
    var p := recs[..|recs| - 1];
    ByteLenAtLeast(p);
    if p != [] {
      ByteLenSplit(p, |p| - 1);
    }
  }

  /** Each entry holds the position of the first byte of the record it names. */
  predicate PointsInto(es: seq<Entry>, recs: seq<Record>) {
    forall k :: 0 <= k < |es| ==> es[k].relOffset < |recs| && es[k].position == ByteLen(recs[..es[k].relOffset])
  }

  predicate Increasing(es: seq<Entry>) {
    forall i, j :: 0 <= i < j < |es| ==> es[i].relOffset < es[j].relOffset && es[i].position < es[j].position
  }

  /** Entries strictly increase in offset and in position, and each points at its own record. */
  lemma {:induction false} EntriesPoint(recs: seq<Record>, base: int, interval: int)
    requires Consecutive(recs, base) && Narrow(recs)
    ensures PointsInto(IndexOf(recs, base, interval).entries, recs)
    ensures Increasing(IndexOf(recs, base, interval).entries)
  {
    if recs != [] {
      var n := |recs| - 1;
      var p := recs[..n];
      NarrowPrefix(recs);
      EntriesPoint(p, base, interval);
      EntriesPointStep(recs, IndexOf(p, base, interval).entries);
      var due := [Entry((recs[n].offset - base) % TWO_32, ByteLen(p) % TWO_32)];
      assert due == [Entry(n, ByteLen(p))];
    }
  }

  lemma EntriesPointStep(recs: seq<Record>, es: seq<Entry>)
    requires 0 < |recs| <= TWO_32 && ByteLen(recs[..|recs| - 1]) < TWO_32
    requires PointsInto(es, recs[..|recs| - 1]) && Increasing(es)
    ensures PointsInto(es, recs) && PointsInto(es + [Entry(|recs| - 1, ByteLen(recs[..|recs| - 1]))], recs)
    ensures Increasing(es + [Entry(|recs| - 1, ByteLen(recs[..|recs| - 1]))])
  {
    var p := recs[..|recs| - 1];
    forall k | 0 <= k < |es|
      ensures recs[..es[k].relOffset] == p[..es[k].relOffset]
      ensures es[k].position < ByteLen(p)
    {
      ByteLenSplit(p, es[k].relOffset);
      assert p[es[k].relOffset..] != [];
    }
  }

  /** How sparse the index is: the first record has an entry, from one entry to the next there are at
      least `interval` bytes, and a record has none only if fewer lie between the last entry and it. */
  lemma {:induction false} EntriesSpaced(recs: seq<Record>, base: int, interval: int)
    requires Consecutive(recs, base) && Narrow(recs)
    ensures var ix := IndexOf(recs, base, interval);
            var es := ix.entries;
            && (es == [] <==> recs == []) && (recs == [] ==> ix.since == 0)
            && (recs != [] ==>
                  && es[0] == Entry(0, 0) && es[|es| - 1].relOffset < |recs|
                  && ix.since == ByteLen(recs) - es[|es| - 1].position && ix.since > 0)
            && (forall k :: 0 <= k < |es| - 1 ==> es[k + 1].position - es[k].position >= interval)
            && (forall i :: 0 <= i < |recs| ==> Covered(es, i, ByteLen(recs[..i]), interval))
  {
    hide ByteLen, Consecutive, Covered, IndexStep;
    if recs != [] {
      var n := |recs| - 1;
      var p := recs[..n];
      NarrowPrefix(recs);
      assert p + [recs[n]] == recs && Consecutive(p, base) && recs[n].offset == base + n by { PrefixOf(recs, base); }
      EntriesSpaced(p, base, interval);
      ByteLenSnoc(p, recs[n]);
      NothingIsNone(p);
      var st := IndexOf(p, base, interval);
      SpacedStep(st, recs[n], n, ByteLen(p), base, interval);
      var es := IndexOf(recs, base, interval).entries;
      forall i | 0 <= i < n ensures Covered(es, i, ByteLen(recs[..i]), interval) {
        assert recs[..i] == p[..i];
        CoveredStill(st.entries, es, i, ByteLen(p[..i]), interval);
      }
    }
  }

  lemma PrefixOf(recs: seq<Record>, base: int)
    requires recs != [] && Consecutive(recs, base)
    ensures var n := |recs| - 1;
            recs[..n] + [recs[n]] == recs && Consecutive(recs[..n], base) && recs[n].offset == base + n
  {
  }

  lemma SpacedStep(st: IndexState, r: Record, n: nat, pos: nat, base: int, interval: int)
    requires r.offset == base + n && n < TWO_32 && pos < TWO_32 && (n == 0 <==> st.entries == [])
    requires if n == 0 then pos == 0 && st.since == 0
             else st.since > 0 && st.since == pos - st.entries[|st.entries| - 1].position
    requires n > 0 ==> st.entries[0] == Entry(0, 0) && st.entries[|st.entries| - 1].relOffset < n
    requires forall k :: 0 <= k < |st.entries| - 1 ==> st.entries[k + 1].position - st.entries[k].position >= interval
    ensures var ix := IndexStep(st, r, pos, base, interval);
            var es := ix.entries;
            && st.entries <= es && es != [] && es[0] == Entry(0, 0)
            && ix.since == pos + EncodedSize(r) - es[|es| - 1].position && ix.since > 0
            && (forall k :: 0 <= k < |es| - 1 ==> es[k + 1].position - es[k].position >= interval)
            && Covered(es, n, pos, interval) && es[|es| - 1].relOffset < n + 1
  {
    var es := IndexStep(st, r, pos, base, interval).entries;
    assert r.offset - base == n;
    var k := |es| - 1;
    assert es[k].relOffset <= n && (es[k].relOffset == n || pos - es[k].position < interval);
  }

  /** Record `i`, at byte `pos`, has an entry or has one closer than `interval` bytes before it. */
  predicate Covered(es: seq<Entry>, i: int, pos: int, interval: int) {
    exists k :: 0 <= k < |es| && es[k].relOffset <= i && (es[k].relOffset == i || pos - es[k].position < interval)
  }

  lemma CoveredStill(a: seq<Entry>, b: seq<Entry>, i: int, pos: int, interval: int)
    requires a <= b && Covered(a, i, pos, interval)
    ensures Covered(b, i, pos, interval)
  {
    var k :| 0 <= k < |a| && a[k].relOffset <= i && (a[k].relOffset == i || pos - a[k].position < interval);
    assert b[k] == a[k];
  }

  lemma NothingIsNone(recs: seq<Record>)
    ensures recs == [] ==> ByteLen(recs) == 0
  {
  }

  /** The greatest indexed offset at or below `rel`; 0 when there is none. */
  function IndexedBefore(es: seq<Entry>, rel: int): nat {
    if es == [] then 0
    else if es[|es| - 1].relOffset <= rel then es[|es| - 1].relOffset
    else IndexedBefore(es[..|es| - 1], rel)
  }

  /** A lookup lands on a record boundary at or before the offset asked for. */
  lemma {:induction false} LookupBoundary(recs: seq<Record>, es: seq<Entry>, rel: nat)
    requires PointsInto(es, recs) && rel < |recs|
    ensures IndexedBefore(es, rel) <= rel
    ensures PositionFor(es, rel) == ByteLen(recs[..IndexedBefore(es, rel)])
  {
    if es != [] && es[|es| - 1].relOffset > rel {
      LookupBoundary(recs, es[..|es| - 1], rel);
    }
  }
}
