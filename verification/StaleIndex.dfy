/** What index entries cost that were left behind beside an empty log file. Recovery keeps them in memory,
    where the entries of later records go on top of them and lookups search a list out of order; and it
    keeps them in the file, where later entries go over them from the front, so that some may be there
    still when the segment is opened again. */
module StaleIndex {
  import opened Bytes
  import opened Records
  import opened Index
  import opened Views
  import opened Segments
  import opened Recoveries
  import Seqs

  /** Records a segment can be given from `base` on. */
  predicate Writable(recs: seq<Record>, base: int) {
    0 <= base && base + |recs| < TWO_63 && Consecutive(recs, base) && Narrow(recs)
  }

  /** Such records that can also be read back. */
  predicate History(recs: seq<Record>, base: int) {
    Writable(recs, base) && AllStorable(recs)
  }

  /** A read before the segment is opened again: it looks its position up among the leftover entries and
      the records' own. */
  function LiveRead(stale: seq<Entry>, recs: seq<Record>, base: int, interval: int,
                    from: int, maxBytes: int, maxOffset: int): ReadResult {
    ReadBytes(EncodeAll(recs), ByteLen(recs), stale + IndexOf(recs, base, interval).entries, base, base + |recs|,
              from, maxBytes, maxOffset)
  }

  /** What opening the segment again makes of it, as the active or as a sealed one. */
  function Reopened(stale: seq<Entry>, recs: seq<Record>, base: int, interval: int, active: bool): Recovered {
    Recovery(base, interval, EncodeAll(recs), LeftOn(stale, IndexOf(recs, base, interval).entries), active)
  }

  function ReadOf(rc: Recovered, base: int, from: int, maxBytes: int, maxOffset: int): ReadResult {
    ReadBytes(rc.file, rc.size, rc.entries, base, rc.nextOffset, from, maxBytes, maxOffset)
  }

  /** Every read gives the batch that a plain scan of the records gives. */
  ghost predicate LiveWell(stale: seq<Entry>, recs: seq<Record>, base: int, interval: int) {
    forall from, maxBytes, maxOffset ::
      LiveRead(stale, recs, base, interval, from, maxBytes, maxOffset)
      == ReadOk(SegRead(Seg(base, recs), from, maxBytes, maxOffset))
  }

  /** So it does after the segment is opened again, which finds the right end. */
  ghost predicate ReopensWell(stale: seq<Entry>, recs: seq<Record>, base: int, interval: int, active: bool) {
    && !RecoveryPanics(EncodeAll(recs), LeftOn(stale, IndexOf(recs, base, interval).entries), active)
    && Reopened(stale, recs, base, interval, active).nextOffset == base + |recs|
    && forall from, maxBytes, maxOffset ::
         ReadOf(Reopened(stale, recs, base, interval, active), base, from, maxBytes, maxOffset)
         == ReadOk(SegRead(Seg(base, recs), from, maxBytes, maxOffset))
  }

  /** Whatever is appended later, all is well before and after the segment is opened again: as long as it
      is the active one, or once it has been sealed. */
  ghost predicate Harmless(stale: seq<Entry>, base: int, interval: int) {
    forall recs :: History(recs, base) ==>
      && LiveWell(stale, recs, base, interval)
      && (recs != [] ==> forall active :: ReopensWell(stale, recs, base, interval, active))
  }

  // ---------------------------------------------------------------------------------------------
  // Where those reads come from
  // ---------------------------------------------------------------------------------------------

  /** Reopens a segment whose log file is empty, and appends to it. */
  method ReopenAndFill(base: int, interval: int, indexFile: seq<byte>, recs: seq<Record>) returns (s: Segment)
    requires History(recs, base) && forall i :: 0 <= i < |recs| ==> recs[i].timestamp != 0
    ensures s.baseOffset == base && s.recs == recs && s.OnTopOf(indexFile)
    ensures s.file == EncodeAll(recs) && s.size == ByteLen(recs) && s.nextOffset == base + |recs|
    ensures var own := IndexOf(recs, base, interval).entries;
            s.idx.entries == Load(indexFile) + own && Load(s.idx.file) == LeftOn(Load(indexFile), own)
  {
    hide IndexOf, Load, Recovery, Describes, EncodeAll, ByteLen, Scan, AllStorable, Segment.OnTopOf, LeftOn,
         Overwritten;
    EmptyRecovery(base, interval, Load(indexFile), true);
    s := new Segment.Open(base, interval, [], indexFile, true, []);
    EmptyDescribes(base, interval);
    for i := 0 to |recs|
      invariant s.baseOffset == base && s.indexInterval == interval && s.idx.Valid()
      invariant s.recs == recs[..i] && s.OnTopOf(indexFile)
    {
      AppendOnTop(s, recs, i, indexFile);
    }
    assert recs[..|recs|] == recs;
    OnTopShows(s, indexFile);
  }

  method AppendOnTop(s: Segment, recs: seq<Record>, i: nat, ghost indexFile: seq<byte>)
    requires History(recs, s.baseOffset) && i < |recs| && recs[i].timestamp != 0
    requires s.idx.Valid() && s.recs == recs[..i] && s.OnTopOf(indexFile)
    modifies s, s.idx
    ensures s.idx.Valid() && s.recs == recs[..i + 1] && s.OnTopOf(indexFile)
  {
    hide IndexOf, IndexStep, Load, Describes, Encoding, EncodeAll, ByteLen, AllStorable, Overwritten, WriteEntry,
         EncodedSize;
    ghost var base, interval, before, size := s.baseOffset, s.indexInterval, s.recs, s.size;
    ghost var ix := IndexOf(before, base, interval);
    AppendKeepsDescribing(before, base, interval, s.file, ix.entries, recs[i]);
    StartsNarrow(recs, i, s.file, base, interval, ix.entries);
    OverwrittenNext(indexFile, ix.entries, Entry((recs[i].offset - base) % TWO_32, s.size % TWO_32));
    StepEntries(ix, recs[i], s.size, base, interval);
    var res := s.Append(recs[i], 1);
    assert recs[..i + 1] == before + [recs[i]];
    ghost var due := ix.since == 0 || ix.since >= interval;
    ghost var added := if due then [Entry((recs[i].offset - base) % TWO_32, size % TWO_32)] else [];
    Seqs.ConcatAssoc(Load(indexFile), ix.entries, added);
    assert ix.entries + [] == ix.entries;
  }

  lemma {:induction false} OnTopShows(s: Segment, indexFile: seq<byte>)
    requires s.OnTopOf(indexFile)
    ensures s.file == EncodeAll(s.recs) && s.size == ByteLen(s.recs) && s.nextOffset == s.baseOffset + |s.recs|
    ensures var own := IndexOf(s.recs, s.baseOffset, s.indexInterval).entries;
            s.idx.entries == Load(indexFile) + own && Load(s.idx.file) == LeftOn(Load(indexFile), own)
  {
    hide IndexOf, Load, LeftOn, Overwritten;
    LoadOverwritten(indexFile, IndexOf(s.recs, s.baseOffset, s.indexInterval).entries);
  }

  lemma {:induction false} StepEntries(ix: IndexState, r: Record, pos: nat, base: int, interval: int)
    ensures var due, e := ix.since == 0 || ix.since >= interval, Entry((r.offset - base) % TWO_32, pos % TWO_32);
            && IndexStep(ix, r, pos, base, interval).entries == ix.entries + (if due then [e] else [])
            && IndexStep(ix, r, pos, base, interval).since == (if due then 0 else ix.since) + EncodedSize(r)
  {
    assert ix.entries + [] == ix.entries;
  }

  method ReadLive(base: int, interval: int, indexFile: seq<byte>, recs: seq<Record>,
                  from: int, maxBytes: int, maxOffset: int) returns (res: ReadResult)
    requires History(recs, base) && forall i :: 0 <= i < |recs| ==> recs[i].timestamp != 0
    ensures res == LiveRead(Load(indexFile), recs, base, interval, from, maxBytes, maxOffset)
  {
    hide IndexOf, Load, ReadBytes, EncodeAll, ByteLen, History, SegReadOrFail, LeftOn, Segment.OnTopOf;
    var s := ReopenAndFill(base, interval, indexFile, recs);
    res := s.ReadFrom(from, maxBytes, maxOffset);
  }

  /** Opens that segment once more from the files it leaves. */
  method ReadReopened(base: int, interval: int, indexFile: seq<byte>, recs: seq<Record>, active: bool,
                      from: int, maxBytes: int, maxOffset: int) returns (next: int, res: ReadResult)
    requires History(recs, base) && forall i :: 0 <= i < |recs| ==> recs[i].timestamp != 0
    requires !RecoveryPanics(EncodeAll(recs), LeftOn(Load(indexFile), IndexOf(recs, base, interval).entries), active)
    ensures next == Reopened(Load(indexFile), recs, base, interval, active).nextOffset
    ensures res == ReadOf(Reopened(Load(indexFile), recs, base, interval, active), base, from, maxBytes, maxOffset)
  {
    hide IndexOf, Load, ReadBytes, EncodeAll, ByteLen, History, SegReadOrFail, LeftOn, Segment.OnTopOf, Recovery,
         RecoveryPanics;
    var s := ReopenAndFill(base, interval, indexFile, recs);
    var again := new Segment.Open(base, interval, s.file, s.idx.file, active, recs);
    next := again.nextOffset;
    res := again.ReadFrom(from, maxBytes, maxOffset);
  }

  lemma {:induction false} StartsNarrow(recs: seq<Record>, i: nat, file: seq<byte>, base: int, interval: int,
                                        entries: seq<Entry>)
    requires Narrow(recs) && i < |recs| && Describes(recs[..i], base, interval, file, entries)
    ensures |file| < TWO_32
  {
    var front := recs[..|recs| - 1];
    ByteLenSplit(front, i);
    assert front[..i] == recs[..i];
  }

  // ---------------------------------------------------------------------------------------------
  // Up to two stale entries do no harm
  // ---------------------------------------------------------------------------------------------

  /** The search never ends on the last stale entry: the one after it, for the first record, is at 0. */
  lemma {:induction false} FewFound(stale: seq<Entry>, recs: seq<Record>, own: seq<Entry>, rel: nat) returns (i: nat)
    requires |stale| <= 2 && (stale != [] ==> stale[0].position == 0)
    requires PointsInto(own, recs) && own != [] && own[0].relOffset == 0 && rel < |recs|
    ensures i <= rel && Found(stale + own, rel) == ByteLen(recs[..i])
  {
    hide ByteLen;
    NoneBefore(recs);
    var es := stale + own;
    var r := SearchFrom(es, rel, 0, |es|);
    assert es[|stale|] == own[0];
    if r <= 1 {
      i := 0;
      if r == 1 && stale == [] {
        i := own[0].relOffset;
      }
    } else {
      assert es[r - 1] == own[r - 1 - |stale|];
      i := own[r - 1 - |stale|].relOffset;
    }
  }

  lemma {:induction false} NoneBefore(recs: seq<Record>)
    ensures ByteLen(recs[..0]) == 0
  {
  }

  lemma {:induction false} FirstEntry(recs: seq<Record>, base: int, interval: int)
    requires recs != [] && Consecutive(recs, base)
    ensures var es := IndexOf(recs, base, interval).entries;
            es != [] && es[0] == Entry(0, 0)
  {
    var n := |recs| - 1;
    if n > 0 {
      FirstEntry(recs[..n], base, interval);
    } else {
      assert recs[..0] == [];
    }
  }

  lemma {:induction false} FewLiveWell(stale: seq<Entry>, recs: seq<Record>, base: int, interval: int)
    requires |stale| <= 2 && (stale != [] ==> stale[0].position == 0) && History(recs, base)
    ensures LiveWell(stale, recs, base, interval)
  {
    hide ScanBatch, Found, IndexOf, EncodeAll, ByteLen, TakeFrom, TakeBytes, Available, ScanStop;
    forall from, maxBytes, maxOffset
      ensures LiveRead(stale, recs, base, interval, from, maxBytes, maxOffset)
              == ReadOk(SegRead(Seg(base, recs), from, maxBytes, maxOffset))
    {
      if base <= from < base + |recs| && from < maxOffset {
        EntriesPoint(recs, base, interval);
        FirstEntry(recs, base, interval);
        NarrowPrefix(recs);
        var i := FewFound(stale, recs, IndexOf(recs, base, interval).entries, from - base);
        StorableIsSized(recs);
        assert (from - base) % TWO_32 == from - base;
        BatchFromBoundary(recs, base, i, from, 0, maxBytes, maxOffset);
        WantedIsAvailable(Seg(base, recs), from, maxOffset, maxBytes);
      }
    }
  }

  // ---------------------------------------------------------------------------------------------
  // Histories that expose more of them
  // ---------------------------------------------------------------------------------------------

  /** As long as there is one entry, all bytes count towards the next, and there were too few so far. */
  lemma {:induction false} OneEntry(recs: seq<Record>, base: int, interval: int)
    requires Consecutive(recs, base) && |IndexOf(recs, base, interval).entries| == 1
    ensures recs != [] && IndexOf(recs, base, interval).since == ByteLen(recs)
    ensures |recs| >= 2 ==> 33 * (|recs| - 1) < interval
  {
    var n := |recs| - 1;
    var front := recs[..n];
    ByteLenSnoc(front, recs[n]);
    assert front + [recs[n]] == recs;
    if n > 0 {
      FirstEntry(front, base, interval);
      OneEntry(front, base, interval);
      ByteLenAtLeast(front);
    }
  }

  /** The second entry comes with the record at which the bytes before first reach the interval. */
  lemma {:induction false} SecondEntry(recs: seq<Record>, base: int, interval: int)
    requires Consecutive(recs, base) && Narrow(recs) && |IndexOf(recs, base, interval).entries| >= 2
    ensures var k := IndexOf(recs, base, interval).entries[1].relOffset;
            k >= 2 ==> 33 * (k - 1) < interval
  {
    var n := |recs| - 1;
    var front := recs[..n];
    NarrowPrefix(recs);
    FirstEntryIfAny(front, base, interval);
    if |IndexOf(front, base, interval).entries| >= 2 {
      SecondEntry(front, base, interval);
    } else if front != [] {
      OneEntry(front, base, interval);
    }
  }

  lemma {:induction false} FirstEntryIfAny(recs: seq<Record>, base: int, interval: int)
    requires Consecutive(recs, base)
    ensures recs != [] ==> IndexOf(recs, base, interval).entries != []
  {
    if recs != [] {
      FirstEntry(recs, base, interval);
    }
  }

  /** `k` records of the least size, the last of them `extra` bytes longer, and one more of the least size. */
  function Thin(base: int, k: nat, extra: nat, n: nat): (recs: seq<Record>)
    requires 0 <= base && base + n <= TWO_63
    ensures |recs| == n && Consecutive(recs, base)
    ensures forall i :: 0 <= i < n ==> recs[i] == ThinRecord(base + i, if i + 1 == k then extra else 0)
  {
    if n == 0 then [] else Thin(base, k, extra, n - 1) + [ThinRecord(base + n - 1, if n == k then extra else 0)]
  }

  function ThinRecord(offset: int64, extra: nat): (r: Record)
    ensures EncodedSize(r) == 33 + extra && r.offset == offset
  {
    Record(offset, 1, [], Zeros(extra))
  }

  lemma {:induction false} ThinBytes(base: int, k: nat, extra: nat, n: nat)
    requires 0 <= base && base + n <= TWO_63 && n <= k + 1
    ensures ByteLen(Thin(base, k, extra, n)) == 33 * n + if n >= k > 0 then extra else 0
  {
    if n > 0 {
      ThinBytes(base, k, extra, n - 1);
      ByteLenSnoc(Thin(base, k, extra, n - 1), ThinRecord(base + n - 1, if n == k then extra else 0));
    }
  }

  /** Up to the first `k` of them there is one index entry; the last record may get another. */
  lemma {:induction false} ThinIndex(base: int, k: nat, extra: nat, n: nat, interval: int)
    requires 0 <= base && base + n <= TWO_63 && 0 < n <= k && (k >= 2 ==> 33 * (k - 1) < interval)
    ensures IndexOf(Thin(base, k, extra, n), base, interval)
            == IndexState([Entry(0, 0)], ByteLen(Thin(base, k, extra, n)))
  {
    hide Thin, IndexOf, IndexStep, ByteLen, EncodedSize, Consecutive;
    var front, r := Thin(base, k, extra, n - 1), ThinRecord(base + n - 1, if n == k then extra else 0);
    assert Thin(base, k, extra, n) == front + [r] by { ThinSplit(base, k, extra, n); }
    ByteLenSnoc(front, r);
    IndexOfSnoc(front, r, base, interval);
    if n > 1 {
      ThinIndex(base, k, extra, n - 1, interval);
      ThinBytes(base, k, extra, n - 1);
      StepQuiet(IndexOf(front, base, interval), r, ByteLen(front), base, interval);
    } else {
      StepFirst(r, base, interval);
      NoneBefore(front);
      IndexOfNone(base, interval);
      assert front == front[..0] == [];
    }
  }

  lemma {:induction false} StepQuiet(st: IndexState, r: Record, pos: nat, base: int, interval: int)
    requires 0 < st.since < interval
    ensures IndexStep(st, r, pos, base, interval) == IndexState(st.entries, st.since + EncodedSize(r))
  {
  }

  lemma {:induction false} StepFirst(r: Record, base: int, interval: int)
    requires r.offset == base
    ensures IndexStep(IndexState([], 0), r, 0, base, interval) == IndexState([Entry(0, 0)], EncodedSize(r))
  {
  }

  lemma {:induction false} ThinSplit(base: int, k: nat, extra: nat, n: nat)
    requires 0 <= base && base + n <= TWO_63 && 0 < n
    ensures Thin(base, k, extra, n) == Thin(base, k, extra, n - 1)
            + [ThinRecord(base + n - 1, if n == k then extra else 0)]
  {
  }

  /** With three or more stale entries and at most two of the records' own, all of those at or below
      `rel`, the first probe of the search falls among the stale ones, and it ends on the second. */
  lemma {:induction false} ManyFound(stale: seq<Entry>, own: seq<Entry>)
    requires |stale| >= 3 && Increasing(stale) && 1 <= |own| <= 2
    ensures Found(stale + own, stale[1].relOffset) == stale[1].position
  {
    var es, rel := stale + own, stale[1].relOffset;
    var h := |es| / 2;
    assert 2 <= h < |stale| && es[h] == stale[h] && es[h].relOffset > rel;
    var r := SearchFrom(es, rel, 0, |es|);
    assert r == SearchFrom(es, rel, 0, h);
    assert es[0] == stale[0] && es[1] == stale[1];
    assert forall i :: 2 <= i < h ==> es[i] == stale[i] && es[i].relOffset > rel;
  }

  /** The entries the thin history gets: one, or two with the second for its last record. */
  lemma {:induction false} ThinEntries(base: int, k: nat, extra: nat, interval: int)
    requires 0 <= base && base + k + 1 <= TWO_63 && 0 < k && (k >= 2 ==> 33 * (k - 1) < interval)
    ensures 1 <= |IndexOf(Thin(base, k, extra, k + 1), base, interval).entries| <= 2
  {
    hide IndexOf, Thin;
    var recs := Thin(base, k, extra, k + 1);
    ThinFront(base, k, extra);
    ThinIndex(base, k, extra, k, interval);
    AtMostOneMore(recs, base, interval);
  }

  lemma {:induction false} ThinFront(base: int, k: nat, extra: nat)
    requires 0 <= base && base + k + 1 <= TWO_63 && 0 < k
    ensures Thin(base, k, extra, k + 1)[..k] == Thin(base, k, extra, k)
  {
  }

  lemma {:induction false} AtMostOneMore(recs: seq<Record>, base: int, interval: int)
    requires recs != []
    ensures var before := |IndexOf(recs[..|recs| - 1], base, interval).entries|;
            before <= |IndexOf(recs, base, interval).entries| <= before + 1
  {
  }

  /** A position near the end of a file, with too few bytes after it for a record, is never one. */
  lemma {:induction false} NoRoom(s: seq<byte>)
    requires 0 < |s| < 33
    ensures !DecodeBytes(s).Decoded? && !DecodeBytes(s).EndOfFile?
  {
  }

  /** One byte before the last record of a file, no record starts. */
  lemma {:induction false} ByteBefore(b: byte, r: Record)
    requires PayloadSize(r) == 25
    ensures DecodeBytes([b] + Encoding(r)).Rejected?
  {
    hide Crc32c.Checksum, PutI64, GetI64, PutU32, GetU32;
    var s, sum := [b] + Encoding(r), PutU32(Crc32c.Checksum(Body(r)));
    assert Encoding(r)[..4] == sum && Encoding(r)[4..8] == PutU32(25) by {
      EncodingFields(r, []);
      assert Encoding(r) + [] == Encoding(r);
    }
    SmallSize();
    assert s[4..8] == [sum[3]] + PutU32(25)[..3] == [sum[3], 0, 0, 0];
    HighByte(sum[3]);
  }

  lemma {:induction false} SmallSize()
    ensures PutU32(25)[..3] == [0, 0, 0]
  {
    assert PutU32(25) == Put(0, 3) + [25];
    assert Put(0, 3) == Put(0, 2) + [0] && Put(0, 2) == Put(0, 1) + [0] && Put(0, 1) == Put(0, 0) + [0];
  }

  lemma {:induction false} HighByte(b: byte)
    ensures GetU32([b, 0, 0, 0]) == b * 0x100_0000
  {
    assert Get([b]) == b by { assert [b][..0] == []; }
    assert Get([b, 0]) == 256 * b by { assert [b, 0][..1] == [b]; }
    assert Get([b, 0, 0]) == 65536 * b by { assert [b, 0, 0][..2] == [b, 0]; }
    assert [b, 0, 0, 0][..3] == [b, 0, 0];
  }

  /** The position the second stale entry names is, in the thin history, past the end of the file or
      inside a record. */
  lemma {:induction false} ThinMisread(base: int, k: nat, pos: nat, from: int)
    requires 0 <= base && base + k + 1 <= TWO_63 && 0 < k && pos >= 33 * k
    ensures var recs := Thin(base, k, if pos == 33 * k then 1 else 0, k + 1);
            var got := ScanBatch(EncodeAll(recs), ByteLen(recs), pos, from, 0, 1, from + 1);
            got == ReadOk([]) || got.ReadFailed?
  {
    hide Thin, DecodeBytes, Encoding, EncodeAll, ByteLen;
    var extra := if pos == 33 * k then 1 else 0;
    var recs := Thin(base, k, extra, k + 1);
    var file := EncodeAll(recs);
    ThinFront(base, k, extra);
    ThinBytes(base, k, extra, k);
    ThinBytes(base, k, extra, k + 1);
    ByteLenSnoc(recs[..k], recs[k]);
    assert recs[..k] + [recs[k]] == recs;
    if pos < |file| {
      if pos == 33 * k {
        assert Tail(file, pos) == [file[pos]] + Encoding(recs[k]);
        ByteBefore(file[pos], recs[k]);
      } else {
        NoRoom(Tail(file, pos));
      }
    }
  }

  lemma {:induction false} ThinHistory(base: int, k: nat, extra: nat, n: nat)
    requires 0 <= base && base + n < TWO_63 && 0 < k && 0 < n <= k + 1 && 25 + extra <= MAX_PAYLOAD
    requires 33 * (n - 1) + (if n > k then extra else 0) < TWO_32
    ensures History(Thin(base, k, extra, n), base)
  {
    var recs := Thin(base, k, extra, n);
    assert recs[..n - 1] == Thin(base, k, extra, n - 1);
    ThinBytes(base, k, extra, n - 1);
    hide Thin, ByteLen;
    forall i | 0 <= i < |recs| ensures Storable(recs[i]) {
    }
  }

  lemma {:induction false} OneWanted(base: int, recs: seq<Record>, k: nat)
    requires |recs| == k + 1
    ensures SegRead(Seg(base, recs), base + k, 1, base + k + 1) == [recs[k]]
  {
    assert Available(Seg(base, recs), base + k, base + k + 1) == [recs[k]];
  }

  /** With three or more entries left from earlier records there is a history, of all different records,
      whose last record a read does not find although it is there. */
  lemma {:induction false} ManyHurt(lost: seq<Record>, base: int, interval: int) returns (recs: seq<Record>)
    requires Writable(lost, base) && |IndexOf(lost, base, interval).entries| >= 3
    ensures History(recs, base) && recs != [] && forall i :: 0 <= i < |recs| ==> recs[i].timestamp != 0
    ensures var from := base + |recs| - 1;
            var got := LiveRead(IndexOf(lost, base, interval).entries, recs, base, interval, from, 1, from + 1);
            && SegRead(Seg(base, recs), from, 1, from + 1) == [recs[|recs| - 1]]
            && (got == ReadOk([]) || got.ReadFailed?)
  {
    hide IndexOf, Thin, ScanBatch, ByteLen, EncodeAll, SearchFrom, Narrow, AllStorable, SegRead;
    var stale := IndexOf(lost, base, interval).entries;
    EntriesPoint(lost, base, interval);
    SecondEntry(lost, base, interval);
    var k, pos := stale[1].relOffset, stale[1].position;
    assert stale[0].relOffset < k;
    ByteLenAtLeast(lost[..k]);
    var extra := if pos == 33 * k then 1 else 0;
    recs := Thin(base, k, extra, k + 1);
    ThinHistory(base, k, extra, k + 1);
    ThinEntries(base, k, extra, interval);
    ManyFound(stale, IndexOf(recs, base, interval).entries);
    OneWanted(base, recs, k);
    ThinMisread(base, k, pos, base + k);
    assert (base + k - base) % TWO_32 == k;
  }

  /** As long as the segment is not opened again, leftovers are harmless to every read of every later
      history if and only if there are at most two. */
  lemma {:induction false} LiveIff(lost: seq<Record>, base: int, interval: int)
    requires Writable(lost, base)
    ensures var stale := IndexOf(lost, base, interval).entries;
            (forall recs :: History(recs, base) ==> LiveWell(stale, recs, base, interval)) <==> |stale| <= 2
  {
    hide IndexOf, LiveRead, SegRead, ByteLen, EncodeAll, History, LiveWell;
    var stale := IndexOf(lost, base, interval).entries;
    if |stale| <= 2 {
      StaleStart(lost, base, interval);
      forall recs | History(recs, base) ensures LiveWell(stale, recs, base, interval) {
        FewLiveWell(stale, recs, base, interval);
      }
    } else {
      var recs := ManyHurt(lost, base, interval);
      var from := base + |recs| - 1;
      NotLiveWell(stale, recs, base, interval, from);
    }
  }

  lemma {:induction false} NotLiveWell(stale: seq<Entry>, recs: seq<Record>, base: int, interval: int, from: int)
    requires LiveRead(stale, recs, base, interval, from, 1, from + 1)
             != ReadOk(SegRead(Seg(base, recs), from, 1, from + 1))
    ensures !LiveWell(stale, recs, base, interval)
  {
    hide LiveRead, SegRead;
  }

  lemma {:induction false} StaleStart(lost: seq<Record>, base: int, interval: int)
    requires Writable(lost, base)
    ensures var stale := IndexOf(lost, base, interval).entries;
            && (stale != [] ==> stale[0] == Entry(0, 0))
            && (|stale| >= 2 ==> 1 <= stale[1].relOffset && 33 * stale[1].relOffset <= stale[1].position)
  {
    hide IndexOf, ByteLen;
    var stale := IndexOf(lost, base, interval).entries;
    if lost == [] {
      IndexOfNone(base, interval);
    } else {
      FirstEntry(lost, base, interval);
      EntriesPoint(lost, base, interval);
      if |stale| >= 2 {
        ByteLenAtLeast(lost[..stale[1].relOffset]);
      }
    }
  }

  // ---------------------------------------------------------------------------------------------
  // Opening the segment again
  // ---------------------------------------------------------------------------------------------

  /** The state recovery should come to, whatever since-counter. */
  predicate Sound(rc: Recovered, recs: seq<Record>, base: int, interval: int) {
    && rc.file == EncodeAll(recs) && rc.size == ByteLen(recs) && rc.nextOffset == base + |recs|
    && rc.entries == IndexOf(recs, base, interval).entries
  }

  lemma {:induction false} SoundReads(rc: Recovered, recs: seq<Record>, base: int, interval: int,
                                      from: int, maxBytes: int, maxOffset: int)
    requires History(recs, base) && Sound(rc, recs, base, interval)
    ensures ReadOf(rc, base, from, maxBytes, maxOffset) == ReadOk(SegRead(Seg(base, recs), from, maxBytes, maxOffset))
  {
    hide IndexOf, EncodeAll, ByteLen, ReadBytes, SegReadOrFail, SegRead;
    StorableIsSized(recs);
    ReadBytesRefines(recs, base, interval, rc.file, rc.entries, from, maxBytes, maxOffset);
    SegReadWhenOk(Seg(base, recs), interval, from, maxBytes, maxOffset);
  }

  /** The active segment is scanned whole, whatever its index. */
  lemma {:induction false} ActiveWell(stale: seq<Entry>, recs: seq<Record>, base: int, interval: int)
    requires History(recs, base) && recs != []
    ensures ReopensWell(stale, recs, base, interval, true)
  {
    hide IndexOf, EncodeAll, ByteLen, Recovery, RecoveryPanics, LeftOn, ReadOf, SegRead;
    var entries := LeftOn(stale, IndexOf(recs, base, interval).entries);
    ByteLenAtLeast(recs);
    StorableIsSized(recs);
    ActiveRecovery(recs, base, interval, ByteLen(recs), entries, true);
    WholeIsAll(recs);
    assert EncodeAll(recs)[..ByteLen(recs)] == EncodeAll(recs);
    forall from, maxBytes, maxOffset
      ensures ReadOf(Reopened(stale, recs, base, interval, true), base, from, maxBytes, maxOffset)
              == ReadOk(SegRead(Seg(base, recs), from, maxBytes, maxOffset))
    {
      SoundReads(Reopened(stale, recs, base, interval, true), recs, base, interval, from, maxBytes, maxOffset);
    }
  }

  /** A sealed segment whose new entries have covered the old ones is recovered as if there had been none. */
  lemma {:induction false} CoveredWell(stale: seq<Entry>, recs: seq<Record>, base: int, interval: int)
    requires History(recs, base) && recs != [] && |stale| <= |IndexOf(recs, base, interval).entries|
    ensures ReopensWell(stale, recs, base, interval, false)
  {
    hide IndexOf, EncodeAll, ByteLen, Recovery, RecoveryPanics, ReadOf, SegRead, AllStorable;
    var own := IndexOf(recs, base, interval).entries;
    assert LeftOn(stale, own) == own;
    StorableIsSized(recs);
    StorableTail(recs, ScannedFrom(own));
    SealedShortcut(recs, base, interval, own);
    forall from, maxBytes, maxOffset
      ensures ReadOf(Reopened(stale, recs, base, interval, false), base, from, maxBytes, maxOffset)
              == ReadOk(SegRead(Seg(base, recs), from, maxBytes, maxOffset))
    {
      SoundReads(Reopened(stale, recs, base, interval, false), recs, base, interval, from, maxBytes, maxOffset);
    }
  }

  lemma {:induction false} StorableTail(recs: seq<Record>, k: nat)
    requires AllStorable(recs)
    ensures k <= |recs| ==> AllStorable(recs[k..])
  {
  }

  /** A single record, sealed under a second leftover entry that points past it and right behind it. */
  lemma {:induction false} SingleWell(stale: seq<Entry>, recs: seq<Record>, base: int, interval: int)
    requires History(recs, base) && |recs| == 1
    requires |stale| == 2 && stale[1].relOffset == 1 && stale[1].position >= ByteLen(recs)
    ensures ReopensWell(stale, recs, base, interval, false)
  {
    hide IndexOf, EncodeAll, ByteLen, SegRead, ReadBytes, AllStorable;
    var own, pos := IndexOf(recs, base, interval).entries, stale[1].position;
    SingleEntry(recs, base, interval);
    ByteLenAtLeast(recs);
    var entries := LeftOn(stale, own);
    assert entries == [Entry(0, 0), stale[1]];
    assert Tail(EncodeAll(recs), pos) == [];
    var rc := Reopened(stale, recs, base, interval, false);
    assert Scan([]) == ScanResult([], 0, EndOfFile);
    assert rc == Recovered(EncodeAll(recs), pos, base + 1, entries, 0);
    forall from, maxBytes, maxOffset
      ensures ReadOf(rc, base, from, maxBytes, maxOffset) == ReadOk(SegRead(Seg(base, recs), from, maxBytes, maxOffset))
    {
      SingleRead(recs, base, interval, pos, entries, from, maxBytes, maxOffset);
    }
  }

  lemma {:induction false} SingleEntry(recs: seq<Record>, base: int, interval: int)
    requires |recs| == 1 && Consecutive(recs, base)
    ensures IndexOf(recs, base, interval).entries == [Entry(0, 0)]
  {
    assert recs[..0] == [];
  }

  lemma {:induction false} SingleRead(recs: seq<Record>, base: int, interval: int, size: int, entries: seq<Entry>,
                   from: int, maxBytes: int, maxOffset: int)
    requires History(recs, base) && |recs| == 1 && size >= ByteLen(recs)
    requires |entries| == 2 && entries[0] == Entry(0, 0) && entries[1].relOffset == 1
    ensures ReadBytes(EncodeAll(recs), size, entries, base, base + 1, from, maxBytes, maxOffset)
            == ReadOk(SegRead(Seg(base, recs), from, maxBytes, maxOffset))
  {
    hide IndexOf, EncodeAll, ByteLen, SegRead, ScanBatch, SegReadOrFail;
    if from == base && from < maxOffset {
      SizeBeyond(EncodeAll(recs), size, 0, from, 0, maxBytes, maxOffset);
      SoundReads(Recovered(EncodeAll(recs), ByteLen(recs), base + 1, IndexOf(recs, base, interval).entries, 0),
                 recs, base, interval, from, maxBytes, maxOffset);
      SingleEntry(recs, base, interval);
    } else {
      OutOfRange(Seg(base, recs), from, maxBytes, maxOffset);
    }
  }

  lemma {:induction false} OutOfRange(s: Seg, from: int, maxBytes: int, maxOffset: int)
    requires from < s.base || from >= s.Next() || maxOffset <= from
    ensures SegRead(s, from, maxBytes, maxOffset) == []
  {
  }

  /** A size past the end of the file makes no difference to a scan. */
  lemma {:induction false} SizeBeyond(file: seq<byte>, size: int, pos: nat, from: int, n: nat, maxBytes: int,
                                      maxOffset: int)
    requires size >= |file|
    ensures ScanBatch(file, size, pos, from, n, maxBytes, maxOffset)
            == ScanBatch(file, |file|, pos, from, n, maxBytes, maxOffset)
    decreases |file| - pos
  {
    hide DecodeBytes, Prepend;
    if pos < |file| {
      var d := DecodeBytes(Tail(file, pos));
      if d.Decoded? {
        SizeBeyond(file, size, pos + d.n, from, n, maxBytes, maxOffset);
        SizeBeyond(file, size, pos + d.n, from, n + d.n, maxBytes, maxOffset);
      }
    } else {
      EmptyEnds();
      assert Tail(file, pos) == [];
    }
  }

  lemma {:induction false} EmptyEnds()
    ensures DecodeBytes([]) == EndOfFile
  {
  }

  /** With an interval of at most 33 bytes every record gets an entry. */
  lemma {:induction false} EveryEntry(recs: seq<Record>, base: int, interval: int)
    requires interval <= 33
    ensures |IndexOf(recs, base, interval).entries| == |recs|
    ensures recs != [] ==> IndexOf(recs, base, interval).since >= 33
  {
    if recs != [] {
      EveryEntry(recs[..|recs| - 1], base, interval);
    }
  }

  /** Two leftover entries: what a sealed segment loses. If the second is not for the second record, a
      single record is followed by a gap. */
  lemma {:induction false} GapHurts(stale: seq<Entry>, base: int, interval: int)
    requires 0 <= base && base + 1 < TWO_63 && |stale| == 2
    requires stale[1].relOffset >= 2 && stale[1].position >= 66
    ensures !Harmless(stale, base, interval)
  {
    hide IndexOf, EncodeAll, ByteLen, Thin, LiveWell, AllStorable;
    var recs := Thin(base, 1, 0, 1);
    ThinHistory(base, 1, 0, 1);
    SingleEntry(recs, base, interval);
    ThinBytes(base, 1, 0, 1);
    SealedBeyond(stale, recs, base, interval);
    assert !ReopensWell(stale, recs, base, interval, false);
  }

  /** The scan of a sealed segment that starts past the end of its file trusts the entry it started from. */
  lemma {:induction false} SealedBeyond(stale: seq<Entry>, recs: seq<Record>, base: int, interval: int)
    requires recs != [] && |stale| == 2 && |IndexOf(recs, base, interval).entries| == 1
    requires stale[1].position >= ByteLen(recs)
    ensures Reopened(stale, recs, base, interval, false).nextOffset == base + stale[1].relOffset
  {
    hide IndexOf, EncodeAll, ByteLen;
    var own, pos := IndexOf(recs, base, interval).entries, stale[1].position;
    ByteLenAtLeast(recs);
    assert LeftOn(stale, own) == own + [stale[1]];
    assert Tail(EncodeAll(recs), pos) == [];
    EmptyEnds();
    assert Scan([]) == ScanResult([], 0, EndOfFile);
  }

  /** If it is, and a record can be one byte longer than the position it names, a single such record is
      cut off by that byte. */
  lemma {:induction false} CutHurts(stale: seq<Entry>, base: int, interval: int)
    requires 0 <= base && base + 1 < TWO_63 && |stale| == 2
    requires 33 <= stale[1].position < MAX_PAYLOAD + 8
    ensures !Harmless(stale, base, interval)
  {
    hide IndexOf, EncodeAll, ByteLen, Thin, LiveWell, AllStorable, SegRead, Recovery;
    var pos := stale[1].position;
    var recs := Thin(base, 1, pos + 1 - 33, 1);
    ThinHistory(base, 1, pos + 1 - 33, 1);
    SingleEntry(recs, base, interval);
    ThinBytes(base, 1, pos + 1 - 33, 1);
    CutRead(stale, recs, base, interval);
    OneWanted(base, recs, 0);
    var rc := Reopened(stale, recs, base, interval, false);
    assert ReadOf(rc, base, base, 1, base + 1) != ReadOk(SegRead(Seg(base, recs), base, 1, base + 1));
    assert !ReopensWell(stale, recs, base, interval, false);
  }

  lemma {:induction false} CutRead(stale: seq<Entry>, recs: seq<Record>, base: int, interval: int)
    requires |recs| == 1 && AllSized(recs) && Consecutive(recs, base)
    requires |stale| == 2 && 33 <= stale[1].position == ByteLen(recs) - 1
    requires IndexOf(recs, base, interval).entries == [Entry(0, 0)]
    ensures ReadOf(Reopened(stale, recs, base, interval, false), base, base, 1, base + 1) != ReadOk([recs[0]])
  {
    hide IndexOf, Encoding, DecodeBytes, ByteLen;
    var pos, file := stale[1].position, EncodeAll(recs);
    assert file == Encoding(recs[0]) && ByteLen(recs) == EncodedSize(recs[0]) by { SingleFile(recs); }
    hide EncodeAll;
    var entries := LeftOn(stale, [Entry(0, 0)]);
    assert entries == [Entry(0, 0), stale[1]];
    NoRoom(Tail(file, pos));
    PrefixRejected(recs[0], pos);
    var rc := Reopened(stale, recs, base, interval, false);
    assert rc.file == file[..pos] && rc.entries == entries by {
      assert Scan(Tail(file, pos)) == ScanResult([], 0, DecodeBytes(Tail(file, pos)));
    }
    assert Tail(rc.file, 0) == file[..pos];
  }

  lemma {:induction false} SingleFile(recs: seq<Record>)
    requires |recs| == 1
    ensures EncodeAll(recs) == Encoding(recs[0]) && ByteLen(recs) == EncodedSize(recs[0])
  {
    assert recs[1..] == [];
    assert Encoding(recs[0]) + [] == Encoding(recs[0]);
  }

  /** If no record can, a second small record that gets no entry of its own is lost. */
  lemma {:induction false} SecondHurts(stale: seq<Entry>, base: int, interval: int)
    requires 0 <= base && base + 2 < TWO_63 && |stale| == 2 && interval > 33
    requires stale[1].relOffset == 1 && stale[1].position >= 66
    ensures !Harmless(stale, base, interval)
  {
    hide IndexOf, EncodeAll, ByteLen, Thin, LiveWell, AllStorable;
    var recs := Thin(base, 2, 0, 2);
    ThinHistory(base, 2, 0, 2);
    ThinIndex(base, 2, 0, 2, interval);
    ThinBytes(base, 2, 0, 2);
    SealedBeyond(stale, recs, base, interval);
    assert !ReopensWell(stale, recs, base, interval, false);
  }

  /** Exactly when leftovers do harm. An index file that records once appended to this segment left
      behind, beside a log file with nothing in it, is harmless to every later history, read before or
      after the segment is opened again, if and only if it holds at most one entry: or two, when every
      record gets an entry and no record is longer than the position of the second. */
  lemma {:induction false} StaleIndexIff(lost: seq<Record>, base: int, interval: int)
    requires Writable(lost, base)
    ensures var stale := IndexOf(lost, base, interval).entries;
            Harmless(stale, base, interval)
            <==> |stale| <= 1 || (|stale| == 2 && interval <= 33 && stale[1].position >= MAX_PAYLOAD + 8)
  {
    hide IndexOf, LiveWell, ReopensWell, Writable;
    var stale := IndexOf(lost, base, interval).entries;
    StaleStart(lost, base, interval);
    if |stale| >= 3 {
      LiveIff(lost, base, interval);
      var recs :| History(recs, base) && !LiveWell(stale, recs, base, interval);
      assert !Harmless(stale, base, interval);
    } else if |stale| == 2 && !(interval <= 33 && stale[1].position >= MAX_PAYLOAD + 8) {
      TwoHurt(lost, base, interval);
    } else {
      forall recs | History(recs, base)
        ensures LiveWell(stale, recs, base, interval)
        ensures recs != [] ==> forall active :: ReopensWell(stale, recs, base, interval, active)
      {
        FewLiveWell(stale, recs, base, interval);
        if recs != [] {
          ActiveWell(stale, recs, base, interval);
          FewReopenWell(lost, base, interval, recs);
        }
      }
    }
  }

  lemma {:induction false} TwoHurt(lost: seq<Record>, base: int, interval: int)
    requires Writable(lost, base) && |IndexOf(lost, base, interval).entries| == 2
    requires interval > 33 || IndexOf(lost, base, interval).entries[1].position < MAX_PAYLOAD + 8
    ensures !Harmless(IndexOf(lost, base, interval).entries, base, interval)
  {
    hide IndexOf, Harmless;
    var stale := IndexOf(lost, base, interval).entries;
    StaleStart(lost, base, interval);
    EntriesPoint(lost, base, interval);
    if stale[1].relOffset >= 2 {
      GapHurts(stale, base, interval);
    } else if stale[1].position < MAX_PAYLOAD + 8 {
      CutHurts(stale, base, interval);
    } else {
      SecondHurts(stale, base, interval);
    }
  }

  lemma {:induction false} FewReopenWell(lost: seq<Record>, base: int, interval: int, recs: seq<Record>)
    requires Writable(lost, base) && History(recs, base) && recs != []
    requires var stale := IndexOf(lost, base, interval).entries;
             |stale| <= 1 || (|stale| == 2 && interval <= 33 && stale[1].position >= MAX_PAYLOAD + 8)
    ensures ReopensWell(IndexOf(lost, base, interval).entries, recs, base, interval, false)
  {
    hide IndexOf, ReopensWell, ByteLen;
    var stale := IndexOf(lost, base, interval).entries;
    FirstEntry(recs, base, interval);
    if |stale| == 2 {
      StaleStart(lost, base, interval);
      SecondEntry(lost, base, interval);
      EveryEntry(recs, base, interval);
    }
    if |stale| <= |IndexOf(recs, base, interval).entries| {
      CoveredWell(stale, recs, base, interval);
    } else {
      SingleFile(recs);
      SingleWell(stale, recs, base, interval);
    }
  }
}
