/** Reads over several segments as they are when a record over 64 MiB is stored: such a record is written
    like any other, but a read that comes to it fails as a whole. */
module FailingReads {
  import opened Records
  import opened Views
  import opened ReadLaws
  import opened Segments

  /** All records can be read back: none is over 64 MiB. */
  predicate Legible(view: seq<Seg>) {
    forall k :: 0 <= k < |view| ==> AllStorable(view[k].recs)
  }

  predicate LengthsFit(view: seq<Seg>) {
    forall k :: 0 <= k < |view| ==> AllSized(view[k].recs)
  }

  /** The loop over segments. */
  function LoopOrFail(view: seq<Seg>, interval: int, from: int, n: int, maxBytes: int, maxOffset: int): ReadResult {
    if view == [] then ReadOk([])
    else
      var s := view[0];
      if s.Next() <= from then LoopOrFail(view[1..], interval, from, n, maxBytes, maxOffset)
      else if s.base >= maxOffset then ReadOk([])
      else
        match SegReadOrFail(s, interval, from, maxBytes - n, maxOffset)
        case ReadFailed(cause) => ReadFailed(cause)
        case ReadOk(recs) =>
          var n' := n + ByteLen(recs);
          if n' >= maxBytes then ReadOk(recs)
          else
            var next := if recs != [] then recs[|recs| - 1].offset + 1 else s.Next();
            Prepend(recs, LoopOrFail(view[1..], interval, next, n', maxBytes, maxOffset))
  }

  function ReadOrFail(view: seq<Seg>, interval: int, from: int, maxBytes: int, maxOffset: int): ReadResult
    requires view != []
  {
    var cap := EffectiveCap(view, maxOffset);
    if from >= Leo(view) || from >= cap then ReadOk([])
    else LoopOrFail(view, interval, from, 0, EffectiveBytes(maxBytes), cap)
  }

  lemma LoopStep(view: seq<Seg>, interval: int, k: nat, from: int, n: int, maxBytes: int, maxOffset: int)
    requires k < |view|
    ensures var s, tail := view[k], view[k + 1..];
            LoopOrFail(view[k..], interval, from, n, maxBytes, maxOffset) ==
            if s.Next() <= from then LoopOrFail(tail, interval, from, n, maxBytes, maxOffset)
            else if s.base >= maxOffset then ReadOk([])
            else
              var got := SegReadOrFail(s, interval, from, maxBytes - n, maxOffset);
              if got.ReadFailed? then got
              else
                var n' := n + ByteLen(got.recs);
                if n' >= maxBytes then got
                else
                  var next := if got.recs != [] then got.recs[|got.recs| - 1].offset + 1 else s.Next();
                  Prepend(got.recs, LoopOrFail(tail, interval, next, n', maxBytes, maxOffset))
  {
    hide SegReadOrFail, ByteLen;
    assert view[k..][1..] == view[k + 1..];
  }

  lemma LoopNone(interval: int, from: int, n: int, maxBytes: int, maxOffset: int)
    ensures LoopOrFail([], interval, from, n, maxBytes, maxOffset) == ReadOk([])
  {
  }

  lemma {:induction false} LoopWhenOk(view: seq<Seg>, interval: int, from: int, n: int, maxBytes: int, maxOffset: int)
    ensures var got := LoopOrFail(view, interval, from, n, maxBytes, maxOffset);
            && (got.ReadOk? ==> got.recs == ReadLoop(view, from, n, maxBytes, maxOffset) && AllStorable(got.recs))
            && (Legible(view) ==> got.ReadOk?)
    decreases |view|
  {
    hide SegReadOrFail, SegRead, ByteLen;
    if view != [] {
      var s, tail := view[0], view[1..];
      SegReadWhenOk(s, interval, from, maxBytes - n, maxOffset);
      var recs := SegRead(s, from, maxBytes - n, maxOffset);
      LoopWhenOk(tail, interval, from, n, maxBytes, maxOffset);
      var next := if recs != [] then recs[|recs| - 1].offset + 1 else s.Next();
      LoopWhenOk(tail, interval, next, n + ByteLen(recs), maxBytes, maxOffset);
    }
  }

  /** A read that does not fail answers what the abstract log says, with readable records only; on a log
      of readable records it does not fail. */
  lemma ReadWhenOk(view: seq<Seg>, interval: int, from: int, maxBytes: int, maxOffset: int)
    requires view != []
    ensures var got := ReadOrFail(view, interval, from, maxBytes, maxOffset);
            && (got.ReadOk? ==> got.recs == Read(view, from, maxBytes, maxOffset) && AllStorable(got.recs))
            && (Legible(view) ==> got.ReadOk?)
  {
    hide LoopOrFail, ReadLoop;
    LoopWhenOk(view, interval, from, 0, EffectiveBytes(maxBytes), EffectiveCap(view, maxOffset));
  }

  /** A read from a record over 64 MiB always fails. */
  lemma FailsAt(view: seq<Seg>, interval: int, from: int, maxBytes: int, maxOffset: int)
    requires ValidView(view) && 0 <= from < |Flat(view)| && from < EffectiveCap(view, maxOffset)
    requires !Storable(Flat(view)[from])
    ensures ReadOrFail(view, interval, from, maxBytes, maxOffset).ReadFailed?
  {
    hide LoopOrFail, ReadLoop, Flat, Batch, NextTooBig, ByteLen;
    ReadWhenOk(view, interval, from, maxBytes, maxOffset);
    ReadRefines(view, from, maxBytes, maxOffset);
  }

  lemma {:induction false} LegibleIsFlat(view: seq<Seg>)
    ensures Legible(view) <==> AllStorable(Flat(view))
  {
    if view != [] {
      var n := |view| - 1;
      LegibleIsFlat(view[..n]);
      var front := Flat(view[..n]);
      assert Flat(view) == front + view[n].recs;
      if AllStorable(Flat(view)) {
        assert forall i :: 0 <= i < |front| ==> front[i] == Flat(view)[i];
        assert forall i :: 0 <= i < |view[n].recs| ==> view[n].recs[i] == Flat(view)[|front| + i];
      }
    }
  }
}
