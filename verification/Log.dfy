/** The partition log: a chain of segments behind one append-only interface. */
module Logs {
  import opened Bytes
  import opened Records
  import opened Index
  import opened Views
  import opened Segments
  import opened FailingReads
  import opened Recoveries
  import Seqs

  const DEFAULT_MAX_SEGMENT_BYTES: int := 0x10_0000
  const DEFAULT_INDEX_INTERVAL: int := 4096

  /** The two files of one segment, as a directory listing finds them. */
  datatype SegmentFiles = SegmentFiles(base: int, log: seq<byte>, index: seq<byte>)

  /** What rotation guarantees of a segment's size: within the limit, or a single oversized record. */
  predicate WithinLimit(s: Seg, maxBytes: int) {
    ByteLen(s.recs) <= maxBytes || |s.recs| <= 1
  }

  predicate AllWithinLimit(view: seq<Seg>, maxBytes: int) {
    forall k :: 0 <= k < |view| ==> WithinLimit(view[k], maxBytes)
  }

  /** A log history whose records can be numbered. */
  ghost predicate Sound(view: seq<Seg>, maxBytes: int) {
    ValidView(view) && Leo(view) < TWO_63 && AllWithinLimit(view, maxBytes)
  }

  /** Reopening finds every segment it had. A record over 64 MiB may sit in the last one, and in a sealed
      one before the record of its last index entry; a sealed segment with no index left has none. */
  ghost predicate Recoverable(view: seq<Seg>, disk: seq<SegmentFiles>) {
    && LengthsFit(view) && |disk| == |view|
    && forall k :: 0 <= k < |view| - 1 ==> ScansThrough(view[k], Load(disk[k].index))
  }

  predicate ScansThrough(s: Seg, entries: seq<Entry>) {
    ScannedFrom(entries) <= |s.recs| && AllStorable(s.recs[ScannedFrom(entries)..])
  }

  /** The history that a cut of the active file leaves: sealed segments whole, and the longest
      whole-record prefix of the last one. */
  function CutView(view: seq<Seg>, cut: nat): seq<Seg>
    requires view != []
  {
    var last := view[|view| - 1];
    view[..|view| - 1] + [Seg(last.base, Kept(last.recs, cut))]
  }

  /** Files that a log with history `view` can leave behind: sealed segments intact, their index
      complete or absent, and the active file cut anywhere, its index arbitrary unless the cut left
      nothing at all. */
  ghost predicate CrashImage(disk: seq<SegmentFiles>, view: seq<Seg>, cut: nat, interval: int) {
    && |disk| == |view| && view != []
    && (forall k :: 0 <= k < |view| ==> disk[k].base == view[k].base)
    && (forall k :: 0 <= k < |view| - 1 ==> SealedImage(disk[k], view[k], interval))
    && ActiveImage(disk[|view| - 1], view[|view| - 1], cut)
  }

  ghost predicate SealedImage(files: SegmentFiles, s: Seg, interval: int) {
    && files.log == EncodeAll(s.recs)
    && (Load(files.index) == [] || Load(files.index) == IndexOf(s.recs, s.base, interval).entries)
  }

  ghost predicate ActiveImage(files: SegmentFiles, s: Seg, cut: nat) {
    && cut <= ByteLen(s.recs) && files.log == EncodeAll(s.recs)[..cut]
    && (cut == 0 ==> Load(files.index) == [])
  }

  class Log {
    const maxSegmentBytes: int
    const indexInterval: int
    var segments: seq<Segment>
    var active: Segment
    var hw: int
    var appends: nat
    ghost var view: seq<Seg>

    ghost var Parts: set<object>    // the segments and their indexes

    ghost function Repr(): set<object>
      reads this`Parts
    {
      {this as object} + Parts
    }

    /** No segment or index object appears twice. */
    ghost predicate Unshared()
      reads this`segments
    {
      forall i, j :: 0 <= i < j < |segments| ==> segments[i] != segments[j] && segments[i].idx != segments[j].idx
    }

    /** The segment objects are distinct, each readable, and together show `view`. */
    ghost predicate Chain()
      reads this`segments, this`active, this`view, this`Parts, Parts
    {
      && segments != [] && active == segments[|segments| - 1]
      && |view| == |segments| && this !in Parts
      && (forall i :: 0 <= i < |segments| ==> segments[i] in Parts && segments[i].idx in Parts)
      && (forall i :: 0 <= i < |segments| ==> segments[i].Readable() && segments[i].View() == view[i])
      && (forall i :: 0 <= i < |segments| ==> segments[i].indexInterval == indexInterval)
      && Unshared()
      && active.Writable()
    }

    ghost predicate Valid()
      reads this, Repr()
    {
      && 0 < maxSegmentBytes < TWO_32 && 0 < indexInterval && view != []
      && Chain() && Sound(view, maxSegmentBytes)
      && 0 <= hw <= Leo(view)
    }

    /** Opens the segments found on disk, the last one as the active segment, or creates the first.
        `was` and `cut` name a history the files may come from; they do not affect what happens. */
    constructor Open(maxBytes: int, interval: int, disk: seq<SegmentFiles>, ghost was: seq<Seg>, ghost cut: nat)
      requires maxBytes < TWO_32
      requires forall k :: 0 <= k < |disk| ==> !RecoveryPanics(disk[k].log, Load(disk[k].index), k == |disk| - 1)
      ensures fresh(Repr()) && hw == 0
      ensures maxSegmentBytes == (if maxBytes <= 0 then DEFAULT_MAX_SEGMENT_BYTES else maxBytes)
      ensures indexInterval == (if interval <= 0 then DEFAULT_INDEX_INTERVAL else interval)
      ensures disk == [] ==> Valid() && view == [Seg(0, [])]
      ensures disk != [] ==>
                && |segments| == |disk|
                && forall k :: 0 <= k < |disk| ==>
                     SegmentReopened(segments[k], disk[k], k == |disk| - 1, Left(was, cut, k))
      ensures disk != [] && Recoverable(was, disk)
              && CrashImage(disk, was, cut, indexInterval) && Sound(was, maxSegmentBytes) ==>
                Valid() && view == CutView(was, cut)
    {
      hide CrashImage, CutView, Sound, Recovery, Load, Scan, RecoveryPanics, Describes, IndexOf, ByteLen, FileOf;
      FreshSound(maxBytes);
      FreshSound(DEFAULT_MAX_SEGMENT_BYTES);
      maxSegmentBytes := if maxBytes <= 0 then DEFAULT_MAX_SEGMENT_BYTES else maxBytes;
      var step := if interval <= 0 then DEFAULT_INDEX_INTERVAL else interval;
      indexInterval := step;
      hw, appends := 0, 0;
      var first := new Segment.Create(0, step);
      segments, active, view, Parts := [first], first, [Seg(0, [])], {};
      new;
      Parts := {first, first.idx};
      if |disk| > 0 {
        OpenSegments(disk, was, cut);
        Adopt(disk, was, cut);
      }
    }

    /** The last segment opened becomes the active one. */
    method Adopt(disk: seq<SegmentFiles>, ghost was: seq<Seg>, ghost cut: nat)
      requires 0 < maxSegmentBytes < TWO_32 && 0 < indexInterval && hw == 0
      requires |segments| == |disk| > 0 && Unshared() && this !in Parts
      requires forall i :: 0 <= i < |segments| ==> segments[i] in Parts && segments[i].idx in Parts
      requires forall i :: 0 <= i < |segments| ==>
                 SegmentReopened(segments[i], disk[i], i == |disk| - 1, Left(was, cut, i))
      modifies this`active, this`view
      ensures Recoverable(was, disk) && CrashImage(disk, was, cut, indexInterval) && Sound(was, maxSegmentBytes) ==>
                Valid() && view == CutView(was, cut)
    {
      hide CrashImage, CutView, Sound, SegmentReopened, Chain, LengthsFit, ScansThrough, Load, Left, Unshared;
      active := segments[|segments| - 1];
      if Recoverable(was, disk) && CrashImage(disk, was, cut, indexInterval) && Sound(was, maxSegmentBytes) {
        view := CutView(was, cut);
        CutSound(was, cut, maxSegmentBytes);
        assert forall i :: 0 <= i < |segments| ==>
                 SegmentReopened(segments[i], disk[i], i == |disk| - 1, Left(was, cut, i));
        ReopenedChain(disk, was, cut);
        SizeOfActive();
      }
    }

    method OpenSegments(disk: seq<SegmentFiles>, ghost was: seq<Seg>, ghost cut: nat)
      requires forall k :: 0 <= k < |disk| ==> !RecoveryPanics(disk[k].log, Load(disk[k].index), k == |disk| - 1)
      modifies this`segments, this`Parts
      ensures |segments| == |disk| && Unshared() && fresh(Parts)
      ensures forall i :: 0 <= i < |segments| ==> segments[i] in Parts && segments[i].idx in Parts
      ensures forall i :: 0 <= i < |disk| ==> SegmentReopened(segments[i], disk[i], i == |disk| - 1, Left(was, cut, i))
    {
      hide Left, Held, Recovery, Load, Scan, RecoveryPanics;
      segments, Parts := [], {};
      var k := 0;
      while k < |disk|
        invariant 0 <= k == |segments| <= |disk| && Unshared() && fresh(Parts)
        invariant forall i :: 0 <= i < k ==> segments[i] in Parts && segments[i].idx in Parts
        invariant forall i :: 0 <= i < k ==> SegmentReopened(segments[i], disk[i], i == |disk| - 1, Left(was, cut, i))
        modifies this`segments, this`Parts
      {
        var s := new Segment.Open(disk[k].base, indexInterval, disk[k].log, disk[k].index, k == |disk| - 1,
                                  Left(was, cut, k));
        segments, Parts := segments + [s], Parts + {s, s.idx};
        k := k + 1;
      }
    }

    lemma ReopenedChain(disk: seq<SegmentFiles>, was: seq<Seg>, cut: nat)
      requires 0 < maxSegmentBytes < TWO_32
      requires |segments| == |disk| > 0 && active == segments[|segments| - 1]
      requires Unshared() && this !in Parts
      requires forall i :: 0 <= i < |segments| ==> segments[i] in Parts && segments[i].idx in Parts
      requires forall i :: 0 <= i < |segments| ==>
                 SegmentReopened(segments[i], disk[i], i == |disk| - 1, Left(was, cut, i))
      requires CrashImage(disk, was, cut, indexInterval) && Sound(was, maxSegmentBytes) && view == CutView(was, cut)
      requires Recoverable(was, disk)
      ensures Chain()
    {
      hide Describes, Sound, SealedImage, ActiveImage, SegmentReopened, Kept, ScansThrough, AllSized;
      forall i | 0 <= i < |segments|
        ensures segments[i].Readable() && segments[i].View() == view[i] && segments[i].indexInterval == indexInterval
        ensures i == |segments| - 1 ==> segments[i].Writable()
      {
        SoundSegment(was, i, maxSegmentBytes);
        if i < |segments| - 1 {
          ReopenedSealed(segments[i], disk[i], was[i]);
        } else {
          ReopenedActive(segments[i], disk[i], was[i], cut);
        }
      }
    }

    lemma ReopenedSealed(s: Segment, files: SegmentFiles, v: Seg)
      requires SegmentReopened(s, files, false, v.recs) && files.base == v.base && SealedImage(files, v, indexInterval)
      requires v.recs != [] && Reopenable(v) && AllSized(v.recs) && ScansThrough(v, Load(files.index))
      ensures s.Readable() && s.View() == v && s.indexInterval == indexInterval
    {
      hide Describes, Load, Scan, Recovery, SparseIndex.Writable, IndexOf, EncodeAll, RecoveryPanics, Reopenable,
           ByteLen, ScansThrough, AllSized;
      SealedReopens(files, v, indexInterval);
      ByteLenAtLeast(v.recs);
      if s.idx.Writable() {
        WritableLoads(s.idx);
      }
    }

    lemma ReopenedActive(s: Segment, files: SegmentFiles, v: Seg, cut: nat)
      requires SegmentReopened(s, files, true, Kept(v.recs, cut)) && files.base == v.base && ActiveImage(files, v, cut)
      requires Reopenable(v) && AllSized(v.recs)
      ensures s.Writable() && s.View() == Seg(v.base, Kept(v.recs, cut)) && s.indexInterval == indexInterval
    {
      hide Describes, Scan, Load, Recovery, IndexOf, ByteLen, WholeRecords, EncodeAll, Narrow, Consecutive,
           AllStorable, RecoveryPanics, Reopenable;
      ActiveReopens(files, v, cut, indexInterval);
      if files.log == [] {
        assert cut == |files.log| == 0;
        EmptyIndexFile(files.index);
      }
      WritableLoads(s.idx);
    }

    /** `s` is what recovery makes of these files, thought to hold `rs`. */
    ghost predicate SegmentReopened(s: Segment, files: SegmentFiles, last: bool, rs: seq<Record>)
      reads s, s.idx
    {
      && s.baseOffset == files.base && s.indexInterval == indexInterval
      && Recovered(s.file, s.size, s.nextOffset, s.idx.entries, s.bytesSinceIndex)
         == Recovery(files.base, indexInterval, files.log, Load(files.index), last)
      && s.recs == Held(s.file, rs)
      && (files.log != [] && (last || Load(files.index) == []) ==> s.idx.Writable())
      && (files.log == [] ==> s.idx.file == files.index && s.idx.wpos == 0)
      && (s.idx.file == files.index || s.idx.Writable())
    }

    /** The files this log can leave behind when it stops, the active one cut after `cut` bytes. */
    ghost predicate LeftBehind(disk: seq<SegmentFiles>, cut: nat)
      reads this, segments, set s | s in segments :: s.idx
    {
      && segments != [] && |disk| == |segments|
      && (forall i :: 0 <= i < |segments| ==> disk[i].base == segments[i].baseOffset)
      && (forall i :: 0 <= i < |segments| - 1 ==>
            disk[i].log == segments[i].file && disk[i].index == segments[i].idx.file)
      && var n := |segments| - 1;
         cut <= |segments[n].file| && disk[n].log == segments[n].file[..cut] && (cut == 0 ==> |disk[n].index| < 8)
    }

    lemma LeftBehindIsImage(disk: seq<SegmentFiles>, cut: nat)
      requires Valid() && LeftBehind(disk, cut) && LengthsFit(view)
      ensures CrashImage(disk, view, cut, indexInterval) && disk != []
      ensures forall k :: 0 <= k < |disk| ==> !RecoveryPanics(disk[k].log, Load(disk[k].index), k == |disk| - 1)
    {
      hide Sound, RecoveryPanics, Load, Segment.Readable;
      forall k | 0 <= k < |disk|
        ensures disk[k].base == view[k].base
        ensures k < |disk| - 1 ==> SealedImage(disk[k], view[k], indexInterval)
        ensures k == |disk| - 1 ==> ActiveImage(disk[k], view[k], cut)
        ensures !RecoveryPanics(disk[k].log, Load(disk[k].index), k == |disk| - 1)
      {
        SegmentOnDisk(k);
        SoundSegment(view, k, maxSegmentBytes);
        if k < |disk| - 1 {
          SealedSafe(disk[k], view[k], indexInterval);
        } else {
          if cut == 0 {
            ShortIndexFile(disk[k].index);
          }
          ActiveReopens(disk[k], view[k], cut, indexInterval);
        }
      }
    }

    lemma SegmentOnDisk(k: nat)
      requires Chain() && k < |segments|
      ensures |view| == |segments| && segments[k].baseOffset == view[k].base
              && segments[k].file == EncodeAll(view[k].recs)
      ensures Load(segments[k].idx.file) == IndexOf(view[k].recs, view[k].base, indexInterval).entries
    {
      hide Consecutive, Narrow, IndexOf, EncodeAll, Load;
      assert segments[k].Readable() && segments[k].View() == view[k] && segments[k].indexInterval == indexInterval;
    }

    /** The abstract log. */
    ghost function Contents(): seq<Record>
      reads this`view
    {
      Flat(view)
    }

    /** Next offset to be assigned. */
    function LEO(): int
      requires Valid()
      reads this, Repr()
      ensures LEO() == Leo(view)
    {
      active.nextOffset
    }

    method Append(key: seq<byte>, value: seq<byte>, now: int64) returns (off: int)
      requires Valid() && LEO() + 1 < TWO_63
      modifies Repr()
      ensures Valid() && fresh(Repr() - old(Repr())) && hw == old(hw)
      ensures off == old(LEO())
      ensures view == AppendView(old(view), Record(off, now, key, value), maxSegmentBytes)
      ensures Contents() == old(Contents()) + [Record(off, now, key, value)]
    {
      var res := AppendLocked(Record(active.nextOffset, now, key, value), now);
      off := res.offset;
    }

    /** The follower's append: the offset comes from the leader and must be the next one. */
    method AppendAt(rec: Record, now: int64) returns (res: AppendResult)
      requires Valid() && LEO() + 1 < TWO_63
      modifies Repr()
      ensures Valid() && fresh(Repr() - old(Repr())) && hw == old(hw)
      ensures rec.offset == old(LEO()) ==>
                && res == Appended(rec.offset)
                && view == AppendView(old(view), Stamp(rec, now), maxSegmentBytes)
                && Contents() == old(Contents()) + [Stamp(rec, now)]
      ensures rec.offset != old(LEO()) ==> res == OffsetMismatch(LEO(), rec.offset) && view == old(view)
    {
      if rec.offset != active.nextOffset {
        return OffsetMismatch(active.nextOffset, rec.offset);
      }
      res := AppendLocked(rec, now);
    }

    method AppendLocked(rec: Record, now: int64) returns (res: AppendResult)
      requires Valid() && LEO() + 1 < TWO_63 && rec.offset == LEO()
      modifies Repr()
      ensures Valid() && fresh(Repr() - old(Repr())) && hw == old(hw)
      ensures res == Appended(rec.offset)
      ensures view == AppendView(old(view), Stamp(rec, now), maxSegmentBytes)
      ensures Contents() == old(Contents()) + [Stamp(rec, now)]
    {
      hide Sound, Chain, Flat, ByteLen;
      var r := rec;
      ghost var stored, v := Stamp(rec, now), view;
      SizeOfActive();
      AppendFacts(v, stored, maxSegmentBytes);
      ghost var grown := AppendView(v, stored, maxSegmentBytes);
      if active.size > 0 && active.size + EncodedSize(rec) > maxSegmentBytes {
        RotateLocked();
        SizeOfActive();
        ByteLenNone();
        assert (v + [Seg(Leo(v), [])])[..|v|] == v && [] + [stored] == [stored];
        r := r.(offset := active.nextOffset);
      }
      res := AppendActive(r, now);
      SizeOfActive();
      appends := appends + 1;
      assert view == grown;
    }

    lemma SizeOfActive()
      requires Chain()
      ensures active.size == ByteLen(view[|view| - 1].recs) && active.nextOffset == Leo(view)
      ensures active.idx.Valid() && active.View() == view[|view| - 1] && view[|view| - 1].recs == active.recs
      ensures active in Parts && active.idx in Parts && this !in Parts && view != [] && |view| == |segments|
    {
      hide Consecutive, Narrow, IndexOf, ByteLen;
      assert segments[|segments| - 1].Readable() && segments[|segments| - 1].View() == view[|view| - 1];
    }

    /** The append to the last segment, whichever it is by then. */
    method AppendActive(rec: Record, now: int64) returns (res: AppendResult)
      requires Chain() && rec.offset == Leo(view) && active.size < TWO_32 && Leo(view) + 1 < TWO_63
      modifies this`view, active, active.idx
      ensures Chain() && res == Appended(rec.offset)
      ensures var last := old(view)[|old(view)| - 1];
              view == old(view)[..|old(view)| - 1] + [Seg(last.base, last.recs + [Stamp(rec, now)])]
    {
      hide Describes, IndexOf, ByteLen, Consecutive, Narrow, FileOf, Load, Encoding, Stamp, EncodedSize,
           SparseIndex.Writable;
      SizeOfActive();
      res := active.Append(rec, now);
      view := view[..|view| - 1] + [active.View()];
    }

    /** Seals the active segment and starts an empty one at the next offset. */
    method RotateLocked()
      requires Chain() && 0 <= Leo(view) < TWO_63
      modifies this
      ensures Chain() && fresh(Repr() - old(Repr())) && hw == old(hw)
      ensures view == old(view) + [Seg(Leo(old(view)), [])] && segments[..|segments| - 1] == old(segments)
      ensures fresh(active) && fresh(active.idx)
    {
      hide Describes, IndexOf, ByteLen, Consecutive, Narrow, FileOf;
      SizeOfActive();
      var s := new Segment.Create(active.nextOffset, indexInterval);
      segments, Parts := segments + [s], Parts + {s, s.idx};
      active := s;
      view := view + [s.View()];
    }

    /** Answers what the abstract log says, or fails because of a record over 64 MiB that it comes to. */
    method Read(from: int, maxBytes: int, maxOffset: int) returns (res: ReadResult)
      requires Valid()
      ensures LengthsFit(view) ==> res == ReadOrFail(view, indexInterval, from, maxBytes, maxOffset)
      ensures Legible(view) ==> res == ReadOk(Views.Read(view, from, maxBytes, maxOffset))
    {
      hide LoopOrFail, SegReadOrFail, Views.Read, Sound, Chain, Segment.Readable, Legible, LengthsFit;
      SizeOfActive();
      LegibleFits(view);
      ReadWhenOk(view, indexInterval, from, maxBytes, maxOffset);
      var limit := if maxBytes <= 0 then DEFAULT_READ_BYTES else maxBytes;
      var cap := if maxOffset < 0 then active.nextOffset else maxOffset;
      if from >= active.nextOffset || from >= cap {
        return ReadOk([]);
      }
      res := ReadSegments(from, limit, cap);
    }

    /** The loop over segments of Read. */
    method ReadSegments(from: int, limit: int, cap: int) returns (res: ReadResult)
      requires Chain() && limit > 0
      ensures LengthsFit(view) ==> res == LoopOrFail(view, indexInterval, from, 0, limit, cap)
    {
      hide LoopOrFail, SegReadOrFail, Prepend, Chain, Segment.Readable, LengthsFit, AllSized, ReadBytes, ByteLen;
      SizeOfActive();
      ghost var wanted := LoopOrFail(view, indexInterval, from, 0, limit, cap);
      var start, out: seq<Record>, n, k := from, [], 0, 0;
      assert view[0..] == view;
      PrependNone(wanted);
      while k < |segments|
        invariant 0 <= k <= |segments| == |view| && n < limit
        invariant LengthsFit(view) ==>
                    wanted == Prepend(out, LoopOrFail(view[k..], indexInterval, start, n, limit, cap))
      {
        var s := segments[k];
        ShownSegment(k);
        PartsOfView(view, k);
        LoopStep(view, indexInterval, k, start, n, limit, cap);
        ContentsDone(out);
        k := k + 1;
        if s.nextOffset <= start {
          continue;
        }
        if s.baseOffset >= cap {
          return ReadOk(out);
        }
        var got := s.ReadFrom(start, limit - n, cap);
        if got.ReadFailed? {
          PrependFailed(out, got.cause);
          return got;
        }
        PrependMore(out, got.recs);
        out := out + got.recs;
        var bytes := TotalSize(got.recs);
        n := n + bytes;
        if n >= limit {
          return ReadOk(out);
        }
        if |got.recs| > 0 {
          start := got.recs[|got.recs| - 1].offset + 1;
        } else if s.nextOffset > start {
          start := s.nextOffset;
        }
      }
      assert view[k..] == [];
      LoopNone(indexInterval, start, n, limit, cap);
      ContentsDone(out);
      return ReadOk(out);
    }

    lemma ShownSegment(k: nat)
      requires Chain() && k < |segments|
      ensures |view| == |segments| && segments[k].Readable() && segments[k].View() == view[k]
      ensures segments[k].nextOffset == view[k].Next() && segments[k].baseOffset == view[k].base
      ensures segments[k].indexInterval == indexInterval
    {
      hide Consecutive, Narrow, IndexOf;
      assert segments[k].Readable();
    }

    /** Advances, never retreats, and never past the log end. */
    method SetHighWatermark(h: int)
      requires Valid()
      modifies this`hw
      ensures Valid() && Repr() == old(Repr()) && view == old(view)
      ensures hw == NewHighWatermark(old(hw), h, LEO())
      ensures hw >= old(hw) && (h <= hw || hw == LEO()) && (hw == old(hw) || hw == h || (hw == LEO() && LEO() < h))
    {
      hide Sound, Describes;
      SizeOfActive();
      var capped := if h > active.nextOffset then active.nextOffset else h;
      if capped > hw {
        hw := capped;
      }
    }

    /** Waits for the high watermark to pass `offset`. `wakes` is what happens during the wait, round by
        round; when it runs out, nothing else happens before the timer fires at the deadline. */
    method WaitHighWatermark(offset: int, timeout: int, start: int, wakes: seq<Wake>) returns (ok: bool)
      requires Valid()
      modifies this`hw
      ensures Valid() && Repr() == old(Repr()) && view == old(view) && old(hw) <= hw
      ensures ok <==> hw > offset
      ensures ok <==> exists k :: 0 <= k <= |wakes| && Watermark(old(hw), Leo(view), wakes, k) > offset
                                   && InTime(wakes, k, timeout, start + timeout)
    {
      hide Sound, Describes, Chain;
      var deadline := start + timeout;
      var k := 0;
      while hw <= offset
        invariant 0 <= k <= |wakes| && hw == Watermark(old(hw), Leo(view), wakes, k)
        invariant Valid() && Repr() == old(Repr()) && view == old(view) && old(hw) <= hw
        invariant forall j :: 0 <= j < k ==> timeout > 0 && wakes[j].ready < deadline
        invariant forall j :: 0 <= j < k ==> wakes[j].woken <= deadline || (j == k - 1 && hw > offset)
        invariant forall j :: 0 <= j < k ==> Watermark(old(hw), Leo(view), wakes, j) <= offset
        decreases |wakes| - k
      {
        if timeout <= 0 {
          return false;
        }
        if k == |wakes| {
          return false;         // the timer: no time remains and the watermark is where it was
        }
        if deadline - wakes[k].ready <= 0 {
          return false;
        }
        SetHighWatermark(wakes[k].h);
        k := k + 1;
        if wakes[k - 1].woken > deadline && hw <= offset {
          return false;
        }
      }
      ok := true;
    }
  }

  /** One round of a wait: the clock when the waiter looks at its deadline, the high watermark somebody
      sets while it sleeps, and the clock when it has woken up. */
  datatype Wake = Wake(ready: int, h: int, woken: int)

  /** The watermark after `k` rounds. */
  function Watermark(hw: int, leo: int, wakes: seq<Wake>, k: nat): int
    requires k <= |wakes|
  {
    if k == 0 then hw else NewHighWatermark(Watermark(hw, leo, wakes, k - 1), wakes[k - 1].h, leo)
  }

  /** A wait can go through `k` rounds: each starts before the deadline, and each but the last is over by
      then. A watermark found past the offset after the deadline still counts. */
  predicate InTime(wakes: seq<Wake>, k: nat, timeout: int, deadline: int)
    requires k <= |wakes|
  {
    forall j :: 0 <= j < k ==> timeout > 0 && wakes[j].ready < deadline && (j + 1 < k ==> wakes[j].woken <= deadline)
  }

  lemma {:induction false} WatermarkRises(hw: int, leo: int, wakes: seq<Wake>, j: nat, k: nat)
    requires j <= k <= |wakes|
    ensures Watermark(hw, leo, wakes, j) <= Watermark(hw, leo, wakes, k)
  {
    if j < k {
      WatermarkRises(hw, leo, wakes, j, k - 1);
    }
  }

  /** What a caller learns from a wait with a clock that does not run backwards. A success is never wrong,
      and whenever the watermark passes the offset in a round that began before the deadline, the wait
      succeeds; so a failure means that the deadline passed with the watermark at or below the offset. */
  lemma WaitOutcome(hw: int, leo: int, offset: int, wakes: seq<Wake>, timeout: int, deadline: int)
    requires timeout > 0 && forall j :: 0 <= j < |wakes| ==> wakes[j].ready <= wakes[j].woken
    requires forall j :: 0 <= j < |wakes| - 1 ==> wakes[j].woken <= wakes[j + 1].ready
    ensures (exists k :: 0 <= k <= |wakes|
                         && Watermark(hw, leo, wakes, k) > offset && InTime(wakes, k, timeout, deadline))
            <==> hw > offset
                 || (exists k :: 0 <= k < |wakes|
                                 && Watermark(hw, leo, wakes, k + 1) > offset && wakes[k].ready < deadline)
  {
    if hw > offset {
      assert Watermark(hw, leo, wakes, 0) > offset && InTime(wakes, 0, timeout, deadline);
    }
    forall k | 0 <= k < |wakes| && Watermark(hw, leo, wakes, k + 1) > offset && wakes[k].ready < deadline
      ensures InTime(wakes, k + 1, timeout, deadline)
    {
      ClockRises(wakes, k);
    }
    forall k | 0 < k <= |wakes| && Watermark(hw, leo, wakes, k) > offset && InTime(wakes, k, timeout, deadline)
      ensures wakes[k - 1].ready < deadline
    {
    }
  }

  lemma {:induction false} ClockRises(wakes: seq<Wake>, k: nat)
    requires k < |wakes| && forall j :: 0 <= j < |wakes| ==> wakes[j].ready <= wakes[j].woken
    requires forall j :: 0 <= j < |wakes| - 1 ==> wakes[j].woken <= wakes[j + 1].ready
    ensures forall j :: 0 <= j < k ==> wakes[j].ready <= wakes[j].woken <= wakes[k].ready
  {
    if k > 0 {
      ClockRises(wakes, k - 1);
    }
  }

  /** A crash that keeps the first `cut` bytes of the active file, followed by a reopening: the new
      log holds exactly the longest run of records that survive whole, and is ready for appends. */
  method CrashAndReopen(l: Log, disk: seq<SegmentFiles>, cut: nat) returns (again: Log)
    requires l.Valid() && l.LeftBehind(disk, cut) && Recoverable(l.view, disk)
    ensures fresh(again) && again.Valid() && again.hw == 0
    ensures again.view == CutView(l.view, cut) && again.Contents() <= l.Contents() && again.LEO() == |again.Contents()|
    ensures var last := l.view[|l.view| - 1];
            var kept := again.view[|l.view| - 1].recs;
            && ByteLen(kept) <= cut && AllStorable(kept)
            && (|kept| < |last.recs| ==> cut < ByteLen(last.recs[..|kept| + 1]) || !Storable(last.recs[|kept|]))
  {
    hide Log.Chain, Sound, CrashImage, RecoveryPanics, Load, CutView, Flat, Log.LeftBehind;
    l.LeftBehindIsImage(disk, cut);
    CutKeepsPrefix(l.view, cut, l.maxSegmentBytes);
    again := new Log.Open(l.maxSegmentBytes, l.indexInterval, disk, l.view, cut);
    FlatLength(again.view);
  }

  lemma CutKeepsPrefix(view: seq<Seg>, cut: nat, maxBytes: int)
    requires Sound(view, maxBytes)
    ensures Flat(CutView(view, cut)) <= Flat(view) && ValidView(CutView(view, cut))
    ensures var last := view[|view| - 1];
            var kept := CutView(view, cut)[|view| - 1].recs;
            && |CutView(view, cut)| == |view|
            && ByteLen(kept) <= cut && AllStorable(kept)
            && (|kept| < |last.recs| ==> cut < ByteLen(last.recs[..|kept| + 1]) || !Storable(last.recs[|kept|]))
  {
    CutSound(view, cut, maxBytes);
    hide WholeRecords, ByteLen;
    var n := |view| - 1;
    assert CutView(view, cut)[..n] == view[..n];
    var kept := Kept(view[n].recs, cut);
    FlatSnoc(view[..n], Seg(view[n].base, kept));
    assert Flat(view) == Flat(view[..n]) + view[n].recs;
    assert kept <= view[n].recs;
    assert CutView(view, cut) == view[..n] + [Seg(view[n].base, kept)];
    assert Flat(CutView(view, cut)) == Flat(view[..n]) + kept;
    assert CutView(view, cut)[n].recs == kept;
  }

  method TotalSize(recs: seq<Record>) returns (n: int)
    ensures n == ByteLen(recs)
  {
    n := 0;
    ByteLenNone();
    for i := 0 to |recs|
      invariant n == ByteLen(recs[..i])
    {
      Seqs.TakeSnoc(recs, i);
      ByteLenSnoc(recs[..i], recs[i]);
      n := n + EncodedSize(recs[i]);
    }
    assert recs[..|recs|] == recs;
  }

  function NewHighWatermark(hw: int, h: int, leo: int): int {
    var capped := if h > leo then leo else h;
    if capped > hw then capped else hw
  }

  /** What recovery needs of a segment's records. */
  ghost predicate Reopenable(s: Seg) {
    0 <= s.base && s.Next() < TWO_63 && Consecutive(s.recs, s.base) && Narrow(s.recs)
  }

  lemma SoundSegment(view: seq<Seg>, k: nat, maxBytes: int)
    requires Sound(view, maxBytes) && k < |view| && maxBytes < TWO_32
    ensures Reopenable(view[k]) && (k < |view| - 1 ==> view[k].recs != [])
  {
    SegmentFits(view, k);
    LimitIsNarrow(view[k], maxBytes);
  }

  /** What segment `k` of a history becomes when the last one is cut. */
  function Left(was: seq<Seg>, cut: nat, k: nat): seq<Record> {
    if k >= |was| then [] else if k == |was| - 1 then Kept(was[k].recs, cut) else was[k].recs
  }

  lemma PartsOfView(view: seq<Seg>, k: nat)
    requires k < |view|
    ensures LengthsFit(view) ==> AllSized(view[k].recs)
  {
  }

  lemma LegibleFits(view: seq<Seg>)
    ensures Legible(view) ==> LengthsFit(view)
  {
    hide Storable, Sized;
    if Legible(view) {
      forall k | 0 <= k < |view| ensures AllSized(view[k].recs) {
        StorableIsSized(view[k].recs);
      }
    }
  }

  lemma PrependMore(out: seq<Record>, recs: seq<Record>)
    ensures Prepend(out, ReadOk(recs)) == ReadOk(out + recs)
    ensures forall rest :: Prepend(out, Prepend(recs, rest)) == Prepend(out + recs, rest)
  {
    forall rest: ReadResult ensures Prepend(out, Prepend(recs, rest)) == Prepend(out + recs, rest) {
      if rest.ReadOk? {
        Seqs.ConcatAssoc(out, recs, rest.recs);
      }
    }
  }

  lemma ShortIndexFile(index: seq<byte>)
    requires |index| < 8
    ensures Load(index) == []
  {
    assert |Load(index)| == |index| / 8;
  }

  lemma FreshSound(maxBytes: int)
    ensures Sound([Seg(0, [])], maxBytes)
  {
  }

  lemma EmptyIndexFile(index: seq<byte>)
    requires Load(index) == []
    ensures |index| < 8
  {
    assert |Load(index)| == |index| / 8;
  }

  lemma SealedSafe(files: SegmentFiles, s: Seg, interval: int)
    requires files.base == s.base && SealedImage(files, s, interval)
    requires s.recs != [] && Reopenable(s) && AllSized(s.recs)
    ensures !RecoveryPanics(files.log, Load(files.index), false)
  {
    hide IndexOf, EncodeAll, Recovery, RecoveryPanics, Load;
    SealedRecovery(s.recs, s.base, interval, Load(files.index));
  }

  lemma SealedReopens(files: SegmentFiles, s: Seg, interval: int)
    requires files.base == s.base && SealedImage(files, s, interval)
    requires s.recs != [] && Reopenable(s) && AllSized(s.recs) && ScansThrough(s, Load(files.index))
    ensures var rc := Recovery(files.base, interval, files.log, Load(files.index), false);
            && Describes(s.recs, s.base, interval, rc.file, rc.entries) && rc.size == |rc.file|
            && rc.nextOffset == s.Next()
            && rc.file == EncodeAll(s.recs) && (Load(files.index) != [] ==> rc.entries == Load(files.index))
  {
    hide IndexOf, EncodeAll, Recovery, RecoveryPanics, Load;
    SealedShortcut(s.recs, s.base, interval, Load(files.index));
  }

  lemma ActiveReopens(files: SegmentFiles, s: Seg, cut: nat, interval: int)
    requires files.base == s.base && ActiveImage(files, s, cut)
    requires Reopenable(s) && AllSized(s.recs)
    ensures !RecoveryPanics(files.log, Load(files.index), true)
    ensures var kept := Kept(s.recs, cut);
            var rc := Recovery(files.base, interval, files.log, Load(files.index), true);
            && Describes(kept, s.base, interval, rc.file, rc.entries) && rc.size == |rc.file|
            && rc.nextOffset == s.base + |kept|
            && rc.since == IndexOf(kept, s.base, interval).since
            && rc.file == EncodeAll(kept) && (files.log == [] ==> rc.entries == [])
  {
    hide Scan, IndexOf, Recovery, RecoveryPanics, Load;
    var k := WholeRecords(s.recs, cut);
    DescribesPrefix(s.recs, k, s.base, interval);
    if cut > 0 {
      ActiveRecovery(s.recs, s.base, interval, cut, Load(files.index), true);
    } else {
      EmptyRecovery(s.base, interval, Load(files.index), true);
      EmptyKept(s.recs, s.base, interval);
    }
  }

  lemma EmptyKept(recs: seq<Record>, base: int, interval: int)
    ensures Kept(recs, 0) == [] && EncodeAll([]) == [] && IndexOf([], base, interval) == IndexState([], 0)
  {
    if WholeRecords(recs, 0) > 0 {
      ByteLenAtLeast(recs[..WholeRecords(recs, 0)]);
    }
  }

  lemma PrefixConsecutive(recs: seq<Record>, k: nat, base: int)
    requires k <= |recs| && Consecutive(recs, base)
    ensures Consecutive(recs[..k], base)
  {
  }

  lemma CutSound(view: seq<Seg>, cut: nat, maxBytes: int)
    requires Sound(view, maxBytes)
    ensures Sound(CutView(view, cut), maxBytes) && 0 <= Leo(CutView(view, cut))
  {
    var n := |view| - 1;
    var last := view[n];
    SegmentFits(view, n);
    PrefixConsecutive(last.recs, WholeRecords(last.recs, cut), last.base);
    CutWithin(last, cut, maxBytes);
    hide WholeRecords, Consecutive, WithinLimit, AllStorable;
    assert CutView(view, cut)[..n] == view[..n];
  }

  lemma CutWithin(s: Seg, cut: nat, maxBytes: int)
    requires WithinLimit(s, maxBytes)
    ensures WithinLimit(Seg(s.base, Kept(s.recs, cut)), maxBytes)
  {
    ByteLenSplit(s.recs, WholeRecords(s.recs, cut));
    hide ByteLen, WholeRecords;
  }

  /** In a sound history every segment's positions fit 32 bits and every sealed one is non-empty. */
  lemma {:induction false} SegmentFits(view: seq<Seg>, k: nat)
    requires ValidView(view) && k < |view|
    ensures Consecutive(view[k].recs, view[k].base)
    ensures 0 <= view[k].base && view[k].Next() <= Leo(view) && (k < |view| - 1 ==> view[k].recs != [])
    decreases |view|
  {
    var n := |view| - 1;
    if n > 0 {
      SegmentFits(view[..n], if k < n then k else n - 1);
    }
  }

  lemma LimitIsNarrow(s: Seg, maxBytes: int)
    requires WithinLimit(s, maxBytes) && maxBytes < TWO_32
    ensures Narrow(s.recs)
  {
    if s.recs != [] {
      ByteLenSplit(s.recs, |s.recs| - 1);
    }
  }

  lemma AppendFacts(view: seq<Seg>, r: Record, maxBytes: int)
    requires Sound(view, maxBytes) && r.offset == Leo(view) && Leo(view) + 1 < TWO_63
    ensures var grown := AppendView(view, r, maxBytes);
            && Sound(grown, maxBytes) && Flat(grown) == Flat(view) + [r] && Leo(grown) == Leo(view) + 1
    ensures 0 <= Leo(view)
  {
    AppendGrowsFlat(view, r, maxBytes);
    FlatLength(view);
    AppendWithinLimit(view, r, maxBytes);
    hide ValidView, Flat, ByteLen, WithinLimit;
  }

  /** Rotating before a record that does not fit is what keeps segments within the limit. */
  lemma AppendWithinLimit(view: seq<Seg>, r: Record, maxBytes: int)
    requires view != [] && AllWithinLimit(view, maxBytes)
    ensures AllWithinLimit(AppendView(view, r, maxBytes), maxBytes)
  {
    var last := view[|view| - 1];
    ByteLenSnoc(last.recs, r);
    if ByteLen(last.recs) == 0 {
      ByteLenAtLeast(last.recs);
    }
    hide ByteLen;
  }

  /** No segment is sealed early: the first record of the next one did not fit into it any more. */
  predicate Filled(view: seq<Seg>, maxBytes: int) {
    forall k :: 0 <= k < |view| - 1 && view[k + 1].recs != [] ==>
      view[k].recs != [] && ByteLen(view[k].recs) + EncodedSize(view[k + 1].recs[0]) > maxBytes
  }

  /** That holds of the log a run of appends builds, and an append puts the record last wherever it goes. */
  lemma AppendKeepsFilled(view: seq<Seg>, r: Record, maxBytes: int)
    requires view != [] && Filled(view, maxBytes)
    requires view[|view| - 1].recs != [] || |view| == 1
    ensures var grown := AppendView(view, r, maxBytes);
            && grown != [] && Filled(grown, maxBytes)
            && var last := grown[|grown| - 1]; last.recs != [] && last.recs[|last.recs| - 1] == r
  {
    var n := |view| - 1;
    var grown := AppendView(view, r, maxBytes);
    if |grown| == |view| {
      forall k | 0 <= k < n && grown[k + 1].recs != []
        ensures grown[k].recs != [] && ByteLen(grown[k].recs) + EncodedSize(grown[k + 1].recs[0]) > maxBytes
      {
        assert grown[k] == view[k] && grown[k + 1].recs[0] == view[k + 1].recs[0];
      }
    }
  }

  lemma ByteLenNone()
    ensures ByteLen([]) == 0
  {
  }
}
