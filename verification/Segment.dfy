/** One log segment: an append-only record file with its sparse index, and its recovery. */
module Segments {
  import opened Bytes
  import opened Records
  import opened Index
  import opened Views
  import Seqs

  datatype AppendResult = Appended(offset: int) | OffsetMismatch(want: int, got: int)

  datatype ReadResult = ReadOk(recs: seq<Record>) | ReadFailed(cause: DecodeResult)

  // ---------------------------------------------------------------------------------------------
  // Recovery, as a function of the bytes found on disk
  // ---------------------------------------------------------------------------------------------

  datatype Recovered = Recovered(file: seq<byte>, size: int, nextOffset: int, entries: seq<Entry>, since: int)

  /** Where a scan starts: at the last index entry of a sealed segment, else at byte 0. */
  function ScanStart(entries: seq<Entry>, active: bool): nat {
    if !active && entries != [] then entries[|entries| - 1].position else 0
  }

  function NextAfter(recs: seq<Record>, start: int): int {
    if recs == [] then start else Wrap64(recs[|recs| - 1].offset + 1)
  }

  /** An empty log file is left alone, index and all. A sealed segment with an index is scanned from
      its last entry; any other is scanned whole and its index rebuilt. A scan that does not end
      cleanly truncates the file there. */
  function Recovery(base: int, interval: int, file: seq<byte>, entries: seq<Entry>, active: bool): Recovered {
    if file == [] then Recovered(file, 0, base, entries, 0)
    else
      var start := ScanStart(entries, active);
      var sc := Scan(Tail(file, start));
      var end := start + sc.end;
      var kept := if sc.stop.EndOfFile? then file else file[..end];
      if !active && entries != [] then
        Recovered(kept, end, NextAfter(sc.recs, base + entries[|entries| - 1].relOffset), entries, 0)
      else
        var ix := IndexOf(sc.recs, base, interval);
        Recovered(kept, end, NextAfter(sc.recs, base), ix.entries, ix.since)
  }

  /** The scan runs into bytes on which the decoder itself panics. */
  predicate RecoveryPanics(file: seq<byte>, entries: seq<Entry>, active: bool) {
    Scan(Tail(file, ScanStart(entries, active))).stop.Panicked?
  }

  /** A scan of `s` that has read `done` and stands at `pos`. */
  ghost predicate ScanAt(s: seq<byte>, pos: nat, done: seq<Record>) {
    && pos <= |s| && pos == ByteLen(done)
    && var rest := Scan(s[pos..]);
       Scan(s) == ScanResult(done + rest.recs, pos + rest.end, rest.stop)
  }

  lemma ScanAtStart(s: seq<byte>)
    ensures ScanAt(s, 0, [])
  {
    hide DecodeBytes;
    assert s[0..] == s;
  }

  lemma ScanAtStep(s: seq<byte>, pos: nat, done: seq<Record>)
    requires ScanAt(s, pos, done)
    ensures match DecodeBytes(s[pos..])
            case Decoded(r, n) => n == EncodedSize(r) && ScanAt(s, pos + n, done + [r])
            case stop => Scan(s) == ScanResult(done, pos, stop)
  {
    hide DecodeBytes, Encoding, ByteLen, Storable, EncodedSize;
    var d := DecodeBytes(s[pos..]);
    if d.Decoded? {
      DecodedSize(s[pos..]);
      Seqs.DropDrop(s, pos, d.n);
      ByteLenSnoc(done, d.rec);
      Seqs.ConcatAssoc(done, [d.rec], Scan(s[pos + d.n..]).recs);
    } else {
      assert done + [] == done;
    }
  }

  lemma DecodedSize(s: seq<byte>)
    requires DecodeBytes(s).Decoded?
    ensures DecodeBytes(s).n == EncodedSize(DecodeBytes(s).rec) <= |s|
  {
    hide DecodeBytes, Encoding;
    EncodingDecode(s);
  }

  lemma ScanAtLength(s: seq<byte>, pos: nat, done: seq<Record>)
    requires ScanAt(s, pos, done)
    ensures pos == ByteLen(done)
  {
  }

  lemma IndexOfNone(base: int, interval: int)
    ensures IndexOf([], base, interval) == IndexState([], 0)
  {
  }

  lemma IndexOfSnoc(recs: seq<Record>, r: Record, base: int, interval: int)
    ensures IndexOf(recs + [r], base, interval)
            == IndexStep(IndexOf(recs, base, interval), r, ByteLen(recs), base, interval)
  {
    assert (recs + [r])[..|recs|] == recs;
  }

  /** A log file and its index entries both say exactly `recs`. */
  ghost predicate Describes(recs: seq<Record>, base: int, interval: int, file: seq<byte>, entries: seq<Entry>) {
    && 0 <= base && base + |recs| < TWO_63
    && Consecutive(recs, base) && Narrow(recs)
    && file == EncodeAll(recs) && entries == IndexOf(recs, base, interval).entries
  }

  lemma DescribesIndex(recs: seq<Record>, base: int, interval: int, file: seq<byte>, entries: seq<Entry>)
    requires Describes(recs, base, interval, file, entries)
    ensures PointsInto(entries, recs) && SortedByOffset(entries) && |recs| <= TWO_32 && |file| == ByteLen(recs)
  {
    EntriesPoint(recs, base, interval);
    if recs != [] {
      NarrowPrefix(recs);
    }
  }

  lemma DescribesAppend(recs: seq<Record>, base: int, interval: int, file: seq<byte>, entries: seq<Entry>, r: Record)
    requires Describes(recs, base, interval, file, entries)
    requires r.offset == base + |recs| && |file| < TWO_32 && base + |recs| + 1 < TWO_63
    ensures IndexOf(recs + [r], base, interval) == IndexStep(IndexOf(recs, base, interval), r, |file|, base, interval)
    ensures Describes(recs + [r], base, interval, file + Encoding(r), IndexOf(recs + [r], base, interval).entries)
  {
    hide Encoding;
    IndexOfSnoc(recs, r, base, interval);
    assert (recs + [r])[..|recs|] == recs;
    ByteLenSnoc(recs, r);
  }

  lemma StampKeeps(rec: Record, now: int64)
    ensures Stamp(rec, now).offset == rec.offset && EncodedSize(Stamp(rec, now)) == EncodedSize(rec)
  {
  }

  lemma AppendKeepsDescribing(recs: seq<Record>, base: int, interval: int, file: seq<byte>, entries: seq<Entry>,
                              r: Record)
    requires r.offset + 1 < TWO_63
    ensures var ix, grown := IndexOf(recs, base, interval), IndexOf(recs + [r], base, interval);
            Describes(recs, base, interval, file, entries) && r.offset == base + |recs| && |file| < TWO_32 ==>
              && entries == ix.entries && grown == IndexStep(ix, r, |file|, base, interval)
              && Describes(recs + [r], base, interval, file + Encoding(r), grown.entries)
  {
    hide IndexOf, IndexStep, Encoding;
    if Describes(recs, base, interval, file, entries) && r.offset == base + |recs| && |file| < TWO_32 {
      DescribesAppend(recs, base, interval, file, entries, r);
    }
  }

  lemma EmptyDescribes(base: int, interval: int)
    ensures IndexOf([], base, interval) == IndexState([], 0) && Scan([]).recs == []
    ensures 0 <= base < TWO_63 ==> Describes([], base, interval, [], [])
  {
    hide DecodeBytes;
  }

  /** The records a file holds: those it is thought to hold, if it does, or what a scan makes of it. */
  ghost function Held(file: seq<byte>, was: seq<Record>): seq<Record> {
    if EncodeAll(was) == file then was else Scan(file).recs
  }

  class Segment {
    const baseOffset: int
    const indexInterval: int
    const idx: SparseIndex
    var file: seq<byte>
    var size: int
    var nextOffset: int
    var bytesSinceIndex: int
    ghost var recs: seq<Record>     // the records the file encodes

    ghost function View(): Seg
      reads this
    {
      Seg(baseOffset, recs)
    }

    /** File, index and counters all describe the same records. */
    ghost predicate Readable()
      reads this, idx
    {
      && Describes(recs, baseOffset, indexInterval, file, idx.entries)
      && size == |file| && nextOffset == baseOffset + |recs|
      && Load(idx.file) == idx.entries
    }

    /** Readable, and set up to take the next append. */
    ghost predicate Writable()
      reads this, idx
    {
      && Readable() && idx.Writable()
      && bytesSinceIndex == IndexOf(recs, baseOffset, indexInterval).since
    }

    /** As after the same appends to a segment that had nothing but an index file with `before` in it. */
    ghost predicate OnTopOf(before: seq<byte>)
      reads this, idx
    {
      var ix := IndexOf(recs, baseOffset, indexInterval);
      && Describes(recs, baseOffset, indexInterval, file, ix.entries)
      && size == |file| && nextOffset == baseOffset + |recs| && bytesSinceIndex == ix.since
      && idx.entries == Load(before) + ix.entries
      && idx.wpos == 8 * |ix.entries| && idx.file == Overwritten(before, ix.entries)
    }

    constructor Create(base: int, interval: int)
      requires 0 <= base < TWO_63
      ensures Writable() && fresh(idx)
      ensures baseOffset == base && indexInterval == interval && recs == []
    {
      baseOffset, indexInterval := base, interval;
      idx := new SparseIndex.Open([]);
      file, size, nextOffset, bytesSinceIndex, recs := [], 0, base, 0, [];
      new;
      WritableLoads(idx);
    }

    /** `was` names the records the file is thought to hold; it does not affect what happens. */
    constructor Open(base: int, interval: int, logFile: seq<byte>, indexFile: seq<byte>, active: bool,
                     ghost was: seq<Record>)
      requires !RecoveryPanics(logFile, Load(indexFile), active)
      ensures fresh(idx)
      ensures baseOffset == base && indexInterval == interval
      ensures Recovered(file, size, nextOffset, idx.entries, bytesSinceIndex)
              == Recovery(base, interval, logFile, Load(indexFile), active)
      ensures logFile != [] && (active || Load(indexFile) == []) ==> idx.Writable()
      ensures logFile == [] ==> idx.file == indexFile && idx.wpos == 0
      ensures idx.file == indexFile || idx.Writable()
      ensures recs == Held(file, was) && idx.Valid()
      ensures logFile == [] && was == [] && 0 <= base < TWO_63 ==> OnTopOf(indexFile)
    {
      hide DecodeBytes, Scan, IndexOf, Load, Describes;
      EmptyDescribes(base, interval);
      assert Load(indexFile) + [] == Load(indexFile);
      assert Overwritten(indexFile, []) == indexFile by { assert FileOf([]) == []; }
      baseOffset, indexInterval := base, interval;
      idx := new SparseIndex.Open(indexFile);
      file, size, nextOffset, bytesSinceIndex := logFile, |logFile|, 0, 0;
      new;
      if size == 0 {
        nextOffset := baseOffset;
      } else if !active && |idx.entries| > 0 {
        RecoverSealed();
      } else {
        RecoverByFullScan();
      }
      recs := Held(file, was);
    }

    method RecoverSealed()
      requires file != [] && size == |file| && idx.entries != [] && bytesSinceIndex == 0
      requires !RecoveryPanics(file, idx.entries, false)
      modifies this
      ensures Recovered(file, size, nextOffset, idx.entries, bytesSinceIndex)
              == Recovery(baseOffset, indexInterval, old(file), idx.entries, false)
    {
      hide DecodeBytes, Scan, ScanAt, IndexOf;
      var last := idx.entries[|idx.entries| - 1];
      var off := baseOffset + last.relOffset;
      var pos: nat := last.position;
      // Seeking past the end leaves an empty stream.
      var r := new Reader(Tail(file, pos), 0, true);
      ghost var done: seq<Record> := [];
      ScanAtStart(r.data);
      while true
        invariant r.Valid() && pos == last.position + r.pos && ScanAt(r.data, r.pos, done)
        invariant file == old(file) && size == |file| && bytesSinceIndex == 0
        invariant off == NextAfter(done, baseOffset + last.relOffset)
        decreases |r.data| - r.pos
      {
        ScanAtStep(r.data, r.pos, done);
        var d := Decode(r);
        if d == EndOfFile {
          break;
        }
        if !d.Decoded? {
          file := file[..pos];
          size := pos;
          break;
        }
        off := Wrap64(d.rec.offset + 1);
        pos := pos + EncodedSize(d.rec);
        done := done + [d.rec];
      }
      nextOffset := off;
      size := pos;
    }

    method RecoverByFullScan()
      requires file != [] && size == |file|
      requires !RecoveryPanics(file, idx.entries, true)
      modifies this, idx
      ensures idx.Writable()
      ensures Recovered(file, size, nextOffset, idx.entries, bytesSinceIndex)
              == Recovery(baseOffset, indexInterval, old(file), old(idx.entries), true)
    {
      hide DecodeBytes, Scan, ScanAt, ByteLen, IndexOf;
      var pos, next, since := 0, baseOffset, 0;
      idx.Clear();
      var r := new Reader(file, 0, true);
      assert file[0..] == file;
      ghost var done: seq<Record> := [];
      ghost var ix := IndexState([], 0);
      ScanAtStart(file);
      IndexOfNone(baseOffset, indexInterval);
      while true
        invariant r.Valid() && r.data == file == old(file) && r.pos == pos && ScanAt(file, pos, done)
        invariant idx.Writable() && idx.Valid()
        invariant next == NextAfter(done, baseOffset)
        invariant ix == IndexOf(done, baseOffset, indexInterval) && idx.entries == ix.entries && since == ix.since
        decreases |file| - pos
      {
        ScanAtStep(file, pos, done);
        var d := Decode(r);
        if d == EndOfFile {
          break;
        }
        if !d.Decoded? {
          file := file[..pos];
          break;
        }
        ghost var at := ByteLen(done);
        assert at == pos by { ScanAtLength(file, pos, done); }
        IndexOfSnoc(done, d.rec, baseOffset, indexInterval);
        if since == 0 || since >= indexInterval {
          idx.Append(d.rec.offset - baseOffset, pos);
          since := 0;
        }
        var sz := EncodedSize(d.rec);
        pos := pos + sz;
        since := since + sz;
        next := Wrap64(d.rec.offset + 1);
        done := done + [d.rec];
        ix := IndexStep(ix, d.rec, at, baseOffset, indexInterval);
      }
      nextOffset, size, bytesSinceIndex := next, pos, since;
    }

    /** Writes any record at the next offset; what the files then describe follows from what they
        described before. */
    method Append(rec: Record, now: int64) returns (res: AppendResult)
      requires idx.Valid()
      modifies this, idx
      ensures idx.Valid()
      ensures rec.offset == old(nextOffset) ==>
                && res == Appended(rec.offset) && recs == old(recs) + [Stamp(rec, now)]
                && nextOffset == Wrap64(rec.offset + 1)
                && file == old(file) + Encoding(Stamp(rec, now)) && size == old(size) + EncodedSize(rec)
                && var due := old(bytesSinceIndex) == 0 || old(bytesSinceIndex) >= indexInterval;
                   var entry := Entry((rec.offset - baseOffset) % TWO_32, old(size) % TWO_32);
                && idx.entries == old(idx.entries) + (if due then [entry] else [])
                && idx.wpos == old(idx.wpos) + (if due then 8 else 0)
                && idx.file == (if due then WriteEntry(old(idx.file), old(idx.wpos), entry) else old(idx.file))
                && bytesSinceIndex == (if due then 0 else old(bytesSinceIndex)) + EncodedSize(rec)
      ensures old(idx.Writable()) ==> idx.Writable()
      ensures rec.offset == old(nextOffset) && rec.offset + 1 < TWO_63 && old(size) < TWO_32 && old(Writable()) ==>
                Writable()
      ensures rec.offset != old(nextOffset) ==>
                res == OffsetMismatch(nextOffset, rec.offset) && recs == old(recs) && unchanged(this) && unchanged(idx)
    {
      hide Encoding, IndexOf, Describes, Load, FileOf, Stamp, EncodedSize, EntryBytes;
      if rec.offset != nextOffset {
        return OffsetMismatch(nextOffset, rec.offset);
      }
      StampKeeps(rec, now);
      ghost var ix := IndexOf(recs, baseOffset, indexInterval);
      if rec.offset + 1 < TWO_63 {
        AppendKeepsDescribing(recs, baseOffset, indexInterval, file, idx.entries, Stamp(rec, now));
      }
      var pos := size;
      var enc := Encode(rec, now);
      file := file + enc[..];
      if bytesSinceIndex == 0 || bytesSinceIndex >= indexInterval {
        idx.Append(rec.offset - baseOffset, pos);
        bytesSinceIndex := 0;
      }
      bytesSinceIndex := bytesSinceIndex + enc.Length;
      size := size + enc.Length;
      nextOffset := Wrap64(nextOffset + 1);
      recs := recs + [Stamp(rec, now)];
      if old(Writable()) && rec.offset + 1 < TWO_63 && old(size) < TWO_32 {
        assert IndexOf(recs, baseOffset, indexInterval)
               == IndexStep(ix, Stamp(rec, now), old(size), baseOffset, indexInterval);
        WritableLoads(idx);
      }
      return Appended(rec.offset);
    }

    /** Reads through the index: the batch that a scan gives from where the lookup points. With file and
        index in step that is the batch of the records themselves, wherever the index sends it, unless
        the scan comes to a record over 64 MiB. */
    method ReadFrom(fromOffset: int, maxBytes: int, maxOffset: int) returns (res: ReadResult)
      ensures res == ReadBytes(file, size, idx.entries, baseOffset, nextOffset, fromOffset, maxBytes, maxOffset)
      ensures Readable() && AllSized(recs) ==>
                res == SegReadOrFail(View(), indexInterval, fromOffset, maxBytes, maxOffset)
    {
      hide Describes, ScanBatch, Found, DecodeBytes, Load, SegReadOrFail;
      if Readable() && AllSized(recs) {
        ReadBytesRefines(recs, baseOffset, indexInterval, file, idx.entries, fromOffset, maxBytes, maxOffset);
      }
      if fromOffset < baseOffset || fromOffset >= nextOffset {
        return ReadOk([]);
      }
      if maxOffset <= fromOffset {
        return ReadOk([]);
      }
      var pos := idx.Lookup((fromOffset - baseOffset) % TWO_32);
      res := ScanForward(pos, fromOffset, maxBytes, maxOffset);
    }

    /** The loop of ReadFrom. */
    method ScanForward(start: nat, fromOffset: int, maxBytes: int, maxOffset: int) returns (res: ReadResult)
      ensures res == ScanBatch(file, size, start, fromOffset, 0, maxBytes, maxOffset)
    {
      hide ScanBatch, DecodeBytes, Prepend, EncodedSize;
      var pos, out: seq<Record>, n: nat := start, [], 0;
      ghost var wanted := ScanBatch(file, size, pos, fromOffset, 0, maxBytes, maxOffset);
      PrependNone(wanted);
      while pos < size
        invariant wanted == Prepend(out, ScanBatch(file, size, pos, fromOffset, n, maxBytes, maxOffset))
        decreases size - pos
      {
        ScanBatchStep(file, size, pos, fromOffset, n, maxBytes, maxOffset);
        var d := DecodeAt(file, pos);
        if d == EndOfFile {
          ContentsDone(out);
          return ReadOk(out);
        }
        if !d.Decoded? {
          PrependFailed(out, d);
          return ReadFailed(d);
        }
        PrependStep(out, d.rec, ScanBatch(file, size, pos + d.n, fromOffset, n + d.n, maxBytes, maxOffset));
        pos := pos + d.n;
        if d.rec.offset < fromOffset {
          continue;
        }
        if d.rec.offset >= maxOffset {
          return ReadOk(out);
        }
        if n > 0 && n + d.n > maxBytes {
          return ReadOk(out);
        }
        out := out + [d.rec];
        n := n + d.n;
        if n >= maxBytes {
          return ReadOk(out);
        }
      }
      ScanBatchEnd(file, size, pos, fromOffset, n, maxBytes, maxOffset);
      ContentsDone(out);
      return ReadOk(out);
    }
  }

  // ---------------------------------------------------------------------------------------------
  // Reading, as a function of the bytes and the index entries
  // ---------------------------------------------------------------------------------------------

  function Prepend(out: seq<Record>, rest: ReadResult): ReadResult {
    match rest
    case ReadOk(recs) => ReadOk(out + recs)
    case ReadFailed(cause) => rest
  }

  /** The batch a scan from byte `pos` gives, with `n` bytes in it already. */
  function ScanBatch(file: seq<byte>, size: int, pos: nat, from: int, n: nat, maxBytes: int, maxOffset: int): ReadResult
    decreases |file| - pos
  {
    if pos >= size then ReadOk([])
    else
      var d := DecodeBytes(Tail(file, pos));
      match d
      case EndOfFile => ReadOk([])
      case Decoded(r, len) =>
        if r.offset < from then ScanBatch(file, size, pos + len, from, n, maxBytes, maxOffset)
        else if r.offset >= maxOffset || (n > 0 && n + len > maxBytes) then ReadOk([])
        else if n + len >= maxBytes then ReadOk([r])
        else Prepend([r], ScanBatch(file, size, pos + len, from, n + len, maxBytes, maxOffset))
      case _ => ReadFailed(d)
  }

  lemma ScanBatchStep(file: seq<byte>, size: int, pos: nat, from: int, n: nat, maxBytes: int, maxOffset: int)
    requires pos < size
    ensures var d := DecodeBytes(Tail(file, pos));
            ScanBatch(file, size, pos, from, n, maxBytes, maxOffset) ==
            if d.EndOfFile? then ReadOk([])
            else if !d.Decoded? then ReadFailed(d)
            else if d.rec.offset < from then ScanBatch(file, size, pos + d.n, from, n, maxBytes, maxOffset)
            else if d.rec.offset >= maxOffset || (n > 0 && n + d.n > maxBytes) then ReadOk([])
            else if n + d.n >= maxBytes then ReadOk([d.rec])
            else Prepend([d.rec], ScanBatch(file, size, pos + d.n, from, n + d.n, maxBytes, maxOffset))
  {
    hide DecodeBytes;
  }

  lemma PrependStep(out: seq<Record>, r: Record, rest: ReadResult)
    ensures Prepend(out, ReadOk([])) == ReadOk(out)
    ensures Prepend(out, ReadOk([r])) == ReadOk(out + [r])
    ensures Prepend(out, Prepend([r], rest)) == Prepend(out + [r], rest)
  {
    if rest.ReadOk? {
      assert out + ([r] + rest.recs) == out + [r] + rest.recs;
    }
    assert out + [] == out;
  }

  lemma PrependNone(rest: ReadResult)
    ensures Prepend([], rest) == rest
  {
  }

  lemma PrependFailed(out: seq<Record>, d: DecodeResult)
    ensures Prepend(out, ReadFailed(d)) == ReadFailed(d)
  {
  }

  lemma ContentsDone(out: seq<Record>)
    ensures Prepend(out, ReadOk([])) == ReadOk(out)
  {
    assert out + [] == out;
  }

  lemma ScanBatchEnd(file: seq<byte>, size: int, pos: nat, from: int, n: nat, maxBytes: int, maxOffset: int)
    requires pos >= size
    ensures ScanBatch(file, size, pos, from, n, maxBytes, maxOffset) == ReadOk([])
  {
  }

  function ReadBytes(file: seq<byte>, size: int, entries: seq<Entry>, base: int, next: int,
                     from: int, maxBytes: int, maxOffset: int): ReadResult {
    if from < base || from >= next || maxOffset <= from then ReadOk([])
    else ScanBatch(file, size, Found(entries, (from - base) % TWO_32), from, 0, maxBytes, maxOffset)
  }

  /** The first record that the scan of a read leaves alone: it decodes what its batch takes, and unless
      that fills the budget one more, to see that it does not belong to the batch. */
  function ScanStop(recs: seq<Record>, j: nat, hi: nat, n: nat, budget: int): (stop: nat)
    requires j <= hi <= |recs|
    ensures j <= stop <= |recs| && (j < |recs| ==> j < stop)
    decreases hi - j
  {
    if j == hi || (n > 0 && n + EncodedSize(recs[j]) > budget) then if j < |recs| then j + 1 else j
    else if n + EncodedSize(recs[j]) >= budget then j + 1
    else ScanStop(recs, j + 1, hi, n + EncodedSize(recs[j]), budget)
  }

  predicate Readables(recs: seq<Record>, i: nat, stop: nat)
    requires stop <= |recs|
  {
    forall k :: i <= k < stop ==> Storable(recs[k])
  }

  /** A scan from any record boundary at or before the offset gives the batch of the records there, or
      fails, which it does if and only if a record it comes to decode is over 64 MiB. */
  lemma {:induction false} BatchFromBoundary(recs: seq<Record>, base: int, i: nat, from: int, n: nat,
                                             maxBytes: int, maxOffset: int)
    requires AllSized(recs) && Consecutive(recs, base) && base <= from < base + |recs| && from < maxOffset
    requires i <= (if maxOffset < base + |recs| then maxOffset else base + |recs|) - base
    ensures var hi := (if maxOffset < base + |recs| then maxOffset else base + |recs|) - base;
            var j := if i < from - base then from - base else i;
            ScanBatch(EncodeAll(recs), ByteLen(recs), ByteLen(recs[..i]), from, n, maxBytes, maxOffset)
            == if Readables(recs, i, ScanStop(recs, j, hi, n, maxBytes))
               then ReadOk(TakeFrom(recs, j, hi, n, maxBytes)) else ReadFailed(Rejected(Corrupt))
    decreases |recs| - i
  {
    hide DecodeBytes, Encoding, ByteLen, EncodeAll, EncodedSize, TakeFrom, ScanBatch, AllSized, Storable;
    var hi := (if maxOffset < base + |recs| then maxOffset else base + |recs|) - base;
    var j := if i < from - base then from - base else i;
    TakeFromStep(recs, j, hi, n, maxBytes);
    var file, pos := EncodeAll(recs), ByteLen(recs[..i]);
    if i == |recs| {
      assert recs[..i] == recs;
      ScanBatchEnd(file, |file|, pos, from, n, maxBytes, maxOffset);
    } else {
      DecodeAtBoundary(recs, i);
      SizePositive(recs[i]);
      ScanBatchStep(file, |file|, pos, from, n, maxBytes, maxOffset);
      if Storable(recs[i]) {
        if i < from - base {
          BatchFromBoundary(recs, base, i + 1, from, n, maxBytes, maxOffset);
        } else if i < hi && n + EncodedSize(recs[i]) < maxBytes {
          BatchFromBoundary(recs, base, i + 1, from, n + EncodedSize(recs[i]), maxBytes, maxOffset);
        }
      }
    }
  }

  lemma SizePositive(r: Record)
    ensures EncodedSize(r) > 0
  {
  }

  /** What reading a segment gives, in terms of its records: the scan begins at the indexed record before
      the offset, and fails when it comes to one over 64 MiB. */
  function SegReadOrFail(s: Seg, interval: int, from: int, budget: int, maxOffset: int): ReadResult {
    if from < s.base || from >= s.Next() || maxOffset <= from then ReadOk([])
    else
      var hi := (if maxOffset < s.Next() then maxOffset else s.Next()) - s.base;
      if Readables(s.recs, IndexedBefore(IndexOf(s.recs, s.base, interval).entries, from - s.base),
                   ScanStop(s.recs, from - s.base, hi, 0, budget))
      then ReadOk(SegRead(s, from, budget, maxOffset)) else ReadFailed(Rejected(Corrupt))
  }

  lemma ReadBytesRefines(recs: seq<Record>, base: int, interval: int, file: seq<byte>, entries: seq<Entry>,
                         from: int, maxBytes: int, maxOffset: int)
    requires Describes(recs, base, interval, file, entries) && AllSized(recs)
    ensures ReadBytes(file, |file|, entries, base, base + |recs|, from, maxBytes, maxOffset)
            == SegReadOrFail(Seg(base, recs), interval, from, maxBytes, maxOffset)
  {
    hide ScanBatch, ByteLen, TakeFrom, TakeBytes, Available, Found, IndexOf, EncodeAll;
    if base <= from < base + |recs| && from < maxOffset {
      DescribesIndex(recs, base, interval, file, entries);
      FoundIsGreatest(entries, from - base);
      LookupBoundary(recs, entries, from - base);
      assert (from - base) % TWO_32 == from - base;
      hide PointsInto, SortedByOffset, PositionFor, IndexedBefore, ScanStop;
      BatchFromBoundary(recs, base, IndexedBefore(entries, from - base), from, 0, maxBytes, maxOffset);
      WantedIsAvailable(Seg(base, recs), from, maxOffset, maxBytes);
    }
  }

  /** A read that does not fail answers what the records say, and answers with readable records only; with
      all records readable it does not fail. */
  lemma SegReadWhenOk(s: Seg, interval: int, from: int, budget: int, maxOffset: int)
    ensures var got := SegReadOrFail(s, interval, from, budget, maxOffset);
            && (got.ReadOk? ==> got.recs == SegRead(s, from, budget, maxOffset) && AllStorable(got.recs))
            && (AllStorable(s.recs) ==> got.ReadOk?)
  {
    hide TakeBytes, IndexOf, TakeFrom, ScanStop, Available;
    if s.base <= from < s.Next() && from < maxOffset {
      var hi := (if maxOffset < s.Next() then maxOffset else s.Next()) - s.base;
      IndexedAtMost(IndexOf(s.recs, s.base, interval).entries, from - s.base);
      WantedIsAvailable(s, from, maxOffset, budget);
      TakenAreScanned(s.recs, from - s.base, hi, 0, budget);
    }
  }

  lemma {:induction false} IndexedAtMost(es: seq<Entry>, rel: nat)
    ensures IndexedBefore(es, rel) <= rel
  {
    if es != [] && es[|es| - 1].relOffset > rel {
      IndexedAtMost(es[..|es| - 1], rel);
    }
  }

  lemma {:induction false} TakenAreScanned(recs: seq<Record>, j: nat, hi: nat, n: nat, budget: int)
    requires j <= hi <= |recs|
    ensures var out := TakeFrom(recs, j, hi, n, budget);
            j + |out| <= ScanStop(recs, j, hi, n, budget) && out == recs[j..j + |out|]
    decreases hi - j
  {
    hide TakeFrom, EncodedSize;
    TakeFromStep(recs, j, hi, n, budget);
    if j < hi && !(n > 0 && n + EncodedSize(recs[j]) > budget) && n + EncodedSize(recs[j]) < budget {
      TakenAreScanned(recs, j + 1, hi, n + EncodedSize(recs[j]), budget);
    }
  }

  ghost function TakeFrom(recs: seq<Record>, j: nat, hi: nat, n: int, budget: int): seq<Record>
    requires j <= hi <= |recs|
  {
    TakeBytes(recs[j..hi], n, budget)
  }

  lemma WantedIsAvailable(s: Seg, from: int, maxOffset: int, budget: int)
    requires s.base <= from < s.Next() && from < maxOffset
    ensures var hi := (if maxOffset < s.Next() then maxOffset else s.Next()) - s.base;
            TakeFrom(s.recs, from - s.base, hi, 0, budget) == TakeBytes(Available(s, from, maxOffset), 0, budget)
  {
  }

  lemma TakeFromStep(recs: seq<Record>, j: nat, hi: nat, n: int, budget: int)
    requires j <= hi <= |recs|
    ensures TakeFrom(recs, j, hi, n, budget) ==
            if j == hi || (n > 0 && n + EncodedSize(recs[j]) > budget) then []
            else if n + EncodedSize(recs[j]) >= budget then [recs[j]]
            else [recs[j]] + TakeFrom(recs, j + 1, hi, n + EncodedSize(recs[j]), budget)
  {
    if j < hi {
      assert recs[j..hi][1..] == recs[j + 1..hi];
    }
  }
}
