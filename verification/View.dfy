/** A partition log as a chain of segments of records: what the byte files stand for. */
module Views {
  import opened Records
  import opened Index
  import Seqs

  datatype Seg = Seg(base: int, recs: seq<Record>) {
    function Next(): int { base + |recs| }
  }

  /** Segments chain without gaps from offset 0, and only the last one can be empty. */
  predicate ValidView(view: seq<Seg>) {
    && view != []
    && var n := |view| - 1;
    && Consecutive(view[n].recs, view[n].base)
    && if n == 0 then view[0].base == 0
       else ValidView(view[..n]) && view[n - 1].Next() == view[n].base && view[n - 1].recs != []
  }

  function Leo(view: seq<Seg>): int
    requires view != []
  {
    view[|view| - 1].Next()
  }

  /** The abstract log: every record, in offset order. */
  function Flat(view: seq<Seg>): seq<Record> {
    if view == [] then [] else Flat(view[..|view| - 1]) + view[|view| - 1].recs
  }

  // ---------------------------------------------------------------------------------------------
  // Append
  // ---------------------------------------------------------------------------------------------

  /** A record goes to the last segment unless that segment is non-empty and would exceed `maxBytes`. */
  function AppendView(view: seq<Seg>, r: Record, maxBytes: int): seq<Seg>
    requires view != []
  {
    var last := view[|view| - 1];
    if ByteLen(last.recs) > 0 && ByteLen(last.recs) + EncodedSize(r) > maxBytes
    then view + [Seg(last.Next(), [r])]
    else view[..|view| - 1] + [Seg(last.base, last.recs + [r])]
  }

  lemma FlatSnoc(view: seq<Seg>, s: Seg)
    ensures Flat(view + [s]) == Flat(view) + s.recs
  {
    assert (view + [s])[..|view|] == view;
  }

  lemma {:induction false} FlatLength(view: seq<Seg>)
    requires ValidView(view)
    ensures |Flat(view)| == Leo(view)
  {
    var n := |view| - 1;
    if n > 0 {
      FlatLength(view[..n]);
    }
  }

  /** The record at offset o of the abstract log sits in the segment that covers o. */
  lemma {:induction false} FlatAt(view: seq<Seg>, k: nat)
    requires ValidView(view) && k < |view|
    ensures 0 <= view[k].base && view[k].Next() <= |Flat(view)|
    ensures Flat(view)[view[k].base..view[k].Next()] == view[k].recs
  {
    var n := |view| - 1;
    if n > 0 {
      FlatLength(view[..n]);
      if k < n {
        FlatAt(view[..n], k);
        var front := Flat(view[..n]);
        assert Flat(view)[view[k].base..view[k].Next()] == front[view[k].base..view[k].Next()];
      } else {
        assert Flat(view)[view[n].base..] == view[n].recs;
      }
    } else {
      assert Flat(view) == Flat(view[..0]) + view[0].recs == view[0].recs;
    }
  }

  /** Offsets of the abstract log are its indices. */
  lemma {:induction false} FlatOffsets(view: seq<Seg>)
    requires ValidView(view)
    ensures Consecutive(Flat(view), 0)
  {
    var n := |view| - 1;
    if n > 0 {
      FlatOffsets(view[..n]);
      FlatLength(view[..n]);
    }
  }

  /** Appending grows the abstract log by exactly the record, wherever the segment boundary falls. */
  lemma AppendGrowsFlat(view: seq<Seg>, r: Record, maxBytes: int)
    requires ValidView(view) && r.offset == Leo(view)
    ensures ValidView(AppendView(view, r, maxBytes))
    ensures Flat(AppendView(view, r, maxBytes)) == Flat(view) + [r]
    ensures Leo(AppendView(view, r, maxBytes)) == Leo(view) + 1
  {
    hide Consecutive;
    var n := |view| - 1;
    var last := view[n];
    ConsecutiveSnoc(last, r);
    assert Consecutive([r], last.Next()) by {
      assert Consecutive([], last.Next()) by { EmptyConsecutive(last.Next()); }
      ConsecutiveSnoc(Seg(last.Next(), []), r);
      assert [] + [r] == [r];
    }
    if ByteLen(last.recs) > 0 && ByteLen(last.recs) + EncodedSize(r) > maxBytes {
      var s := Seg(last.Next(), [r]);
      FlatSnoc(view, s);
      assert (view + [s])[..n + 1] == view;
    } else {
      var s := Seg(last.base, last.recs + [r]);
      assert (view[..n] + [s])[..n] == view[..n];
      FlatSnoc(view[..n], s);
    }
  }

  lemma EmptyConsecutive(base: int)
    ensures Consecutive([], base)
  {
  }

  lemma ConsecutiveSnoc(s: Seg, r: Record)
    requires Consecutive(s.recs, s.base) && r.offset == s.Next()
    ensures Consecutive(s.recs + [r], s.base)
  {
  }

  // ---------------------------------------------------------------------------------------------
  // Read
  // ---------------------------------------------------------------------------------------------

  const DEFAULT_READ_BYTES: int := 0x10_0000

  /** The byte budget: the first record always comes, the next ones only while they fit. */
  function TakeBytes(rs: seq<Record>, n: int, budget: int): (out: seq<Record>)
    ensures |out| <= |rs| && out == rs[..|out|]
  {
    if rs == [] || (n > 0 && n + EncodedSize(rs[0]) > budget) then []
    else if n + EncodedSize(rs[0]) >= budget then [rs[0]]
    else
      var rest := TakeBytes(rs[1..], n + EncodedSize(rs[0]), budget);
      Seqs.TakeCons(rs, |rest|);
      [rs[0]] + rest
  }

  /** The records of one segment at offsets [from, min(next, maxOffset)). */
  function Available(s: Seg, from: int, maxOffset: int): seq<Record>
    requires s.base <= from < s.Next() && from < maxOffset
  {
    s.recs[from - s.base..(if maxOffset < s.Next() then maxOffset else s.Next()) - s.base]
  }

  function SegRead(s: Seg, from: int, budget: int, maxOffset: int): seq<Record> {
    if from < s.base || from >= s.Next() || maxOffset <= from then []
    else TakeBytes(Available(s, from, maxOffset), 0, budget)
  }

  /** The loop over segments, with its moving start and running byte count. */
  function ReadLoop(view: seq<Seg>, from: int, n: int, maxBytes: int, maxOffset: int): seq<Record> {
    if view == [] then []
    else
      var s := view[0];
      if s.Next() <= from then ReadLoop(view[1..], from, n, maxBytes, maxOffset)
      else if s.base >= maxOffset then []
      else
        var recs := SegRead(s, from, maxBytes - n, maxOffset);
        var n' := n + ByteLen(recs);
        if n' >= maxBytes then recs
        else
          var next := if recs != [] then recs[|recs| - 1].offset + 1 else s.Next();
          recs + ReadLoop(view[1..], next, n', maxBytes, maxOffset)
  }

  lemma ReadLoopNone(view: seq<Seg>, from: int, n: int, maxBytes: int, maxOffset: int)
    requires view == []
    ensures ReadLoop(view, from, n, maxBytes, maxOffset) == []
  {
  }

  function EffectiveBytes(maxBytes: int): int {
    if maxBytes <= 0 then DEFAULT_READ_BYTES else maxBytes
  }

  function EffectiveCap(view: seq<Seg>, maxOffset: int): int
    requires view != []
  {
    if maxOffset < 0 then Leo(view) else maxOffset
  }

  function Read(view: seq<Seg>, from: int, maxBytes: int, maxOffset: int): seq<Record>
    requires view != []
  {
    var cap := EffectiveCap(view, maxOffset);
    if from >= Leo(view) || from >= cap then []
    else ReadLoop(view, from, 0, EffectiveBytes(maxBytes), cap)
  }
}
