/** What recovery makes of files that a valid log left behind. */
module Recoveries {
  import opened Bytes
  import opened Records
  import opened Index
  import opened Segments

  /** The records that survive when the file is cut after `cut` bytes: those that are whole, up to the
      first one over 64 MiB. */
  function Kept(recs: seq<Record>, cut: nat): seq<Record> {
    recs[..WholeRecords(recs, cut)]
  }

  lemma DescribesPrefix(recs: seq<Record>, k: nat, base: int, interval: int)
    requires k <= |recs|
    requires 0 <= base && base + |recs| < TWO_63 && Consecutive(recs, base) && Narrow(recs)
    ensures Describes(recs[..k], base, interval, EncodeAll(recs[..k]), IndexOf(recs[..k], base, interval).entries)
  {
    if 0 < k < |recs| {
      var p := recs[..|recs| - 1];
      ByteLenSplit(p, k - 1);
      assert p[..k - 1] == recs[..k][..k - 1];
    } else if k == |recs| {
      assert recs[..k] == recs;
    }
  }

  lemma NextAfterRun(recs: seq<Record>, from: nat, base: int, start: int)
    requires from <= |recs| && Consecutive(recs, base) && 0 <= base && base + |recs| < TWO_63
    requires from == |recs| ==> start == base + |recs|
    ensures NextAfter(recs[from..], start) == base + |recs|
  {
    if from < |recs| {
      assert recs[from..][|recs| - from - 1] == recs[|recs| - 1];
    }
  }

  /** Recovering the active segment, or a sealed one without an index, from a file cut at any non-zero
      byte gives exactly the state a segment has after appending the records that survive: same file,
      size, next offset, index entries and bytes since the last entry, whatever the index file of an
      active segment held. A record over 64 MiB is lost with everything after it. */
  lemma ActiveRecovery(recs: seq<Record>, base: int, interval: int, cut: nat, entries: seq<Entry>, active: bool)
    requires 0 <= base && base + |recs| < TWO_63 && AllSized(recs) && Consecutive(recs, base)
    requires 0 < cut <= ByteLen(recs) && (active || entries == [])
    ensures var file := EncodeAll(recs)[..cut];
            var kept := Kept(recs, cut);
            var ix := IndexOf(kept, base, interval);
            && !RecoveryPanics(file, entries, active)
            && Recovery(base, interval, file, entries, active)
               == Recovered(EncodeAll(kept), ByteLen(kept), base + |kept|, ix.entries, ix.since)
  {
    hide Encoding, Scan, DecodeBytes, IndexOf, EncodeAll, ByteLen, AllSized, WholeRecords;
    var file := EncodeAll(recs)[..cut];
    assert Tail(file, 0) == file;
    ScanCut(recs, cut);
    var kept := Kept(recs, cut);
    KeptBytes(recs, cut);
    NextAfterRun(kept, 0, base, base);
    assert kept[0..] == kept;
  }

  lemma KeptBytes(recs: seq<Record>, cut: nat)
    requires cut <= ByteLen(recs)
    ensures var kept, file := Kept(recs, cut), EncodeAll(recs)[..cut];
            && ByteLen(kept) <= cut && file[..ByteLen(kept)] == EncodeAll(kept)
            && (ByteLen(kept) == cut ==> file == EncodeAll(kept))
  {
    hide EncodeAll, ByteLen;
    ByteLenSplit(recs, WholeRecords(recs, cut));
  }

  /** Rebuilding a live segment by a full scan, whatever its index file held, changes nothing (same file,
      size, next offset, index entries and bytes since the last entry) if and only if it holds no record
      over 64 MiB. */
  lemma RebuildEqualsLive(s: Segment, entries: seq<Entry>)
    requires s.Writable() && s.recs != [] && AllSized(s.recs)
    ensures !RecoveryPanics(s.file, entries, true)
    ensures Recovery(s.baseOffset, s.indexInterval, s.file, entries, true)
            == Recovered(s.file, s.size, s.nextOffset, s.idx.entries, s.bytesSinceIndex)
            <==> AllStorable(s.recs)
  {
    hide IndexOf, EncodeAll, Recovery, RecoveryPanics, Narrow, AllStorable, AllSized;
    var cut := ByteLen(s.recs);
    ByteLenAtLeast(s.recs);
    ActiveRecovery(s.recs, s.baseOffset, s.indexInterval, cut, entries, true);
    WholeIsAll(s.recs);
    assert s.file[..cut] == s.file;
  }

  /** All of a whole file survives if and only if all its records are readable. */
  lemma WholeIsAll(recs: seq<Record>)
    ensures Kept(recs, ByteLen(recs)) == recs <==> AllStorable(recs)
    ensures |Kept(recs, ByteLen(recs))| == |recs| <==> AllStorable(recs)
  {
    var k := WholeRecords(recs, ByteLen(recs));
    if k < |recs| {
      ByteLenSplit(recs, k + 1);
    }
    assert recs[..|recs|] == recs;
  }

  /** The record a sealed segment is scanned from: that of its last index entry, or the first. */
  function ScannedFrom(entries: seq<Entry>): nat {
    if entries == [] then 0 else entries[|entries| - 1].relOffset
  }

  /** Recovering a sealed segment keeps everything up to the first record over 64 MiB at or after the
      last index entry; when the index is missing, at or after the start, and the index comes back. */
  lemma SealedRecovery(recs: seq<Record>, base: int, interval: int, entries: seq<Entry>)
    requires recs != [] && AllSized(recs)
    requires Describes(recs, base, interval, EncodeAll(recs), IndexOf(recs, base, interval).entries)
    requires entries == [] || entries == IndexOf(recs, base, interval).entries
    ensures ScannedFrom(entries) < |recs| && !RecoveryPanics(EncodeAll(recs), entries, false)
    ensures var from := ScannedFrom(entries);
            var kept := recs[..from + |Kept(recs[from..], ByteLen(recs[from..]))|];
            var ix := IndexOf(kept, base, interval);
            Recovery(base, interval, EncodeAll(recs), entries, false)
            == Recovered(EncodeAll(kept), ByteLen(kept), base + |kept|,
                         if entries == [] then ix.entries else entries, if entries == [] then ix.since else 0)
  {
    hide Encoding, Scan, DecodeBytes, IndexOf, EncodeAll, ByteLen, Narrow, AllSized, Consecutive, Tail;
    ByteLenAtLeast(recs);
    if entries == [] {
      hide Recovery, RecoveryPanics;
      assert recs[0..] == recs && EncodeAll(recs)[..ByteLen(recs)] == EncodeAll(recs);
      ActiveRecovery(recs, base, interval, ByteLen(recs), [], false);
    } else {
      LastEntry(recs, base, interval, entries);
      SealedScan(recs, base, entries[|entries| - 1].relOffset, entries[|entries| - 1].position);
      hide Describes;
    }
  }

  lemma LastEntry(recs: seq<Record>, base: int, interval: int, entries: seq<Entry>)
    requires Describes(recs, base, interval, EncodeAll(recs), entries) && entries != []
    ensures var last := entries[|entries| - 1];
            last.relOffset < |recs| && last.position == ByteLen(recs[..last.relOffset])
  {
    hide IndexOf, EncodeAll, ByteLen;
    DescribesIndex(recs, base, interval, EncodeAll(recs), entries);
  }

  lemma SealedScan(recs: seq<Record>, base: int, from: nat, pos: nat)
    requires from < |recs| && AllSized(recs) && Consecutive(recs, base) && 0 <= base && base + |recs| < TWO_63
    requires pos == ByteLen(recs[..from])
    ensures var file := EncodeAll(recs);
            var sc := Scan(Tail(file, pos));
            var kept := recs[..from + |Kept(recs[from..], ByteLen(recs[from..]))|];
            && !sc.stop.Panicked? && pos + sc.end == ByteLen(kept) <= |file|
            && (if sc.stop.EndOfFile? then file else file[..pos + sc.end]) == EncodeAll(kept)
            && NextAfter(sc.recs, base + from) == base + |kept|
  {
    hide Encoding, Scan, DecodeBytes, EncodeAll, ByteLen, NextAfter, WholeRecords;
    var rest := recs[from..];
    var k := |Kept(rest, ByteLen(rest))|;
    TailAtBoundary(recs, from);
    assert EncodeAll(rest)[..ByteLen(rest)] == EncodeAll(rest);
    ScanCut(rest, ByteLen(rest));
    KeptBytes(rest, ByteLen(rest));
    assert recs[..from + k] == recs[..from] + rest[..k];
    ByteLenConcat(recs[..from], rest[..k]);
    EncodeAllConcat(recs[..from], rest[..k]);
    ByteLenSplit(recs, from);
    ByteLenSplit(recs, from + k);
    var kept := recs[..from + k];
    assert kept[from..] == rest[..k];
    NextAfterRun(kept, from, base, base + from);
  }

  /** The shortcut: scanning a sealed segment from its last index entry finds its true end, and so
      recovers all of it, if and only if no record from that entry on is over 64 MiB; what comes
      before is not looked at. Without an index it is so from the first record on. */
  lemma SealedShortcut(recs: seq<Record>, base: int, interval: int, entries: seq<Entry>)
    requires recs != [] && AllSized(recs)
    requires Describes(recs, base, interval, EncodeAll(recs), IndexOf(recs, base, interval).entries)
    requires entries == [] || entries == IndexOf(recs, base, interval).entries
    ensures ScannedFrom(entries) < |recs| && !RecoveryPanics(EncodeAll(recs), entries, false)
    ensures var rc, ix := Recovery(base, interval, EncodeAll(recs), entries, false), IndexOf(recs, base, interval);
            && (rc.nextOffset == base + |recs| <==> AllStorable(recs[ScannedFrom(entries)..]))
            && (AllStorable(recs[ScannedFrom(entries)..]) ==>
                  rc == Recovered(EncodeAll(recs), ByteLen(recs), base + |recs|, ix.entries,
                                  if entries == [] then ix.since else 0))
  {
    hide Describes, IndexOf, EncodeAll, ByteLen, Recovery, RecoveryPanics, AllStorable, AllSized;
    SealedRecovery(recs, base, interval, entries);
    WholeIsAll(recs[ScannedFrom(entries)..]);
    assert recs[..|recs|] == recs;
  }

  lemma TailAtBoundary(recs: seq<Record>, k: nat)
    requires k <= |recs|
    ensures Tail(EncodeAll(recs), ByteLen(recs[..k])) == EncodeAll(recs[k..])
    ensures ByteLen(recs) == ByteLen(recs[..k]) + ByteLen(recs[k..])
  {
    ByteLenSplit(recs, k);
  }

  /** An empty log file is left with whatever its index file holds: the outcome describes the empty
      segment if and only if no whole index entry was there. */
  lemma EmptyRecovery(base: int, interval: int, entries: seq<Entry>, active: bool)
    requires 0 <= base < TWO_63
    ensures !RecoveryPanics([], entries, active)
    ensures var rc := Recovery(base, interval, [], entries, active);
            && rc.file == [] && rc.size == 0 && rc.nextOffset == base && rc.since == 0
            && (Describes([], base, interval, rc.file, rc.entries) <==> entries == [])
  {
    assert forall p: nat :: Tail([], p) == [];
    ScanAll([]);
  }
}
