/** What a byte-budgeted read over several segments returns, in terms of the abstract log. */
module ReadLaws {
  import opened Records
  import opened Index
  import opened Views
  import Seqs

  /** Consecutive segments of `log`, seen from the front; only the last can be empty. */
  predicate Tiles(view: seq<Seg>, log: seq<Record>) {
    view != [] ==>
      var s := view[0];
      && 0 <= s.base && s.Next() <= |log| && s.recs == log[s.base..s.Next()]
      && (|view| > 1 ==> s.recs != [] && s.Next() == view[1].base)
      && Tiles(view[1..], log)
  }

  /** Records of the log, in offset order, from `from` on and below `cap`. */
  predicate Batch(out: seq<Record>, log: seq<Record>, from: int, cap: int) {
    && (forall i :: 0 <= i < |out| ==>
          from <= out[i].offset < cap && 0 <= out[i].offset < |log| && out[i] == log[out[i].offset])
    && (forall i, j :: 0 <= i < j < |out| ==> out[i].offset < out[j].offset)
  }

  /** A run of the log without holes. */
  predicate Contiguous(out: seq<Record>, log: seq<Record>, from: int) {
    0 <= from && from + |out| <= |log| && out == log[from..from + |out|]
  }

  // ---------------------------------------------------------------------------------------------
  // From a valid view to tiles of the abstract log
  // ---------------------------------------------------------------------------------------------

  lemma {:induction false} Linked(view: seq<Seg>, k: nat)
    requires ValidView(view) && k < |view| - 1
    ensures view[k].Next() == view[k + 1].base && view[k].recs != []
    decreases |view|
  {
    if k < |view| - 2 {
      Linked(view[..|view| - 1], k);
    }
  }

  lemma {:induction false} TilesFrom(view: seq<Seg>, k: nat)
    requires ValidView(view) && k <= |view|
    ensures Tiles(view[k..], Flat(view))
    decreases |view| - k
  {
    if k < |view| {
      TilesFrom(view, k + 1);
      FlatAt(view, k);
      Seqs.DropDrop(view, k, 1);
      if k < |view| - 1 {
        Linked(view, k);
        assert view[k..][1] == view[k + 1];
      }
    }
  }

  lemma ValidTiles(view: seq<Seg>)
    requires ValidView(view)
    ensures Tiles(view, Flat(view)) && Consecutive(Flat(view), 0) && |Flat(view)| == Leo(view)
  {
    TilesFrom(view, 0);
    assert view[0..] == view;
    FlatOffsets(view);
    FlatLength(view);
  }

  /** One step of the segment loop, and what the first tile says. */
  lemma Unfold(view: seq<Seg>, log: seq<Record>, from: int, n: int, maxBytes: int, cap: int)
    requires Tiles(view, log) && view != []
    ensures var s := view[0];
            && Tiles(view[1..], log) && 0 <= s.base <= s.Next() <= |log| && s.recs == log[s.base..s.Next()]
            && (|view| > 1 ==> s.base < s.Next() == view[1].base)
    ensures var s := view[0];
            ReadLoop(view, from, n, maxBytes, cap) ==
            if s.Next() <= from then ReadLoop(view[1..], from, n, maxBytes, cap)
            else if s.base >= cap then []
            else
              var recs := SegRead(s, from, maxBytes - n, cap);
              var n' := n + ByteLen(recs);
              if n' >= maxBytes then recs
              else
                var next := if recs != [] then recs[|recs| - 1].offset + 1 else s.Next();
                recs + ReadLoop(view[1..], next, n', maxBytes, cap)
    ensures |view| == 1 ==> forall f, m :: ReadLoop(view[1..], f, m, maxBytes, cap) == []
  {
    hide ByteLen, SegRead;
  }

  // ---------------------------------------------------------------------------------------------
  // One segment
  // ---------------------------------------------------------------------------------------------

  /** The budget takes a prefix, never starts beyond it, and takes everything that fits. */
  lemma {:induction false} TakeBytesLaw(rs: seq<Record>, n: int, budget: int)
    requires 0 <= n < budget
    ensures var out := TakeBytes(rs, n, budget);
            && (out != [] ==> n + ByteLen(out[..|out| - 1]) < budget)
            && (n == 0 && rs != [] ==> out != [])
            && (n + ByteLen(rs) <= budget ==> out == rs)
            && (|out| < |rs| ==> n + ByteLen(out) + EncodedSize(rs[|out|]) > budget)
    decreases |rs|
  {
    if rs != [] {
      var sz := EncodedSize(rs[0]);
      var out := TakeBytes(rs, n, budget);
      if n + ByteLen(rs) <= budget && n + sz >= budget {
        ByteLenAtLeast(rs[1..]);
      }
      if n + sz < budget {
        TakeBytesLaw(rs[1..], n + sz, budget);
        if !(n > 0 && n + sz > budget) {
          var rest := TakeBytes(rs[1..], n + sz, budget);
          assert out == [rs[0]] + rest;
          if rest != [] {
            assert out[..|out| - 1][1..] == rest[..|rest| - 1];
          } else {
            assert out[..0] == [];
          }
        }
      } else if out != [] {
        assert out[..0] == [];
      }
    }
  }

  /** Only a first record can go over the budget. */
  lemma {:induction false} TakeBytesBudget(rs: seq<Record>, n: int, budget: int)
    requires 0 <= n < budget
    ensures var out := TakeBytes(rs, n, budget);
            n + ByteLen(out) > budget ==> n == 0 && |out| == 1
    decreases |rs|
  {
    if rs != [] {
      ByteLenOne(rs[0]);
    }
    if rs != [] && n + EncodedSize(rs[0]) < budget {
      TakeBytesBudget(rs[1..], n + EncodedSize(rs[0]), budget);
      var rest := TakeBytes(rs[1..], n + EncodedSize(rs[0]), budget);
      assert ([rs[0]] + rest)[1..] == rest;
    }
  }

  lemma {:induction false} SegReadBudget(s: Seg, from: int, budget: int, cap: int)
    requires budget > 0
    ensures ByteLen(SegRead(s, from, budget, cap)) > budget ==> |SegRead(s, from, budget, cap)| == 1
  {
    NoBytes();
    hide ByteLen, TakeBytes;
    if s.base <= from < s.Next() && from < cap {
      TakeBytesBudget(Available(s, from, cap), 0, budget);
    }
  }

  /** Reading one segment from an offset inside it: a non-empty run of the log from there. */
  lemma SegReadLaw(s: Seg, log: seq<Record>, from: int, budget: int, cap: int) returns (out: seq<Record>)
    requires 0 <= s.base <= from < s.Next() <= |log| && from < cap && s.recs == log[s.base..s.Next()] && budget > 0
    requires Consecutive(log, 0)
    ensures out == SegRead(s, from, budget, cap) && out != [] && Contiguous(out, log, from)
    ensures out[|out| - 1].offset + 1 == from + |out| <= (if cap < s.Next() then cap else s.Next())
    ensures ByteLen(out[..|out| - 1]) < budget
    ensures ByteLen(Available(s, from, cap)) <= budget ==> out == Available(s, from, cap)
    ensures from + |out| < (if cap < s.Next() then cap else s.Next()) ==>
              ByteLen(out) + EncodedSize(log[from + |out|]) > budget
  {
    hide ByteLen, TakeBytes;
    out := SegRead(s, from, budget, cap);
    var av := Available(s, from, cap);
    TakeBytesLaw(av, 0, budget);
    var hi := if cap < s.Next() then cap else s.Next();
    Seqs.SliceSlice(log, s.base, s.Next(), from - s.base, hi - s.base);
    assert out == av[..|out|] == log[from..hi][..|out|];
    Seqs.SliceSlice(log, from, hi, 0, |out|);
    assert log[from..from + |out|][|out| - 1] == log[from + |out| - 1];
  }

  // ---------------------------------------------------------------------------------------------
  // Batches
  // ---------------------------------------------------------------------------------------------

  lemma BatchJoin(a: seq<Record>, b: seq<Record>, log: seq<Record>, from: int, mid: int, cap: int)
    requires Batch(a, log, from, mid) && Batch(b, log, mid, cap) && from <= mid && (a == [] || mid <= cap)
    ensures Batch(a + b, log, from, cap)
  {
  }

  lemma ContiguousBatch(out: seq<Record>, log: seq<Record>, from: int)
    requires Contiguous(out, log, from) && Consecutive(log, 0)
    ensures Batch(out, log, from, from + |out|)
    ensures out != [] ==> out[|out| - 1].offset + 1 == from + |out|
  {
  }

  lemma ByteLenLast(a: seq<Record>, b: seq<Record>)
    requires b != []
    ensures ByteLen((a + b)[..|a + b| - 1]) == ByteLen(a) + ByteLen(b[..|b| - 1])
  {
    assert (a + b)[..|a + b| - 1] == a + b[..|b| - 1];
    ByteLenConcat(a, b[..|b| - 1]);
  }

  ghost predicate SoundFrom(out: seq<Record>, log: seq<Record>, from: int, n: int, maxBytes: int, cap: int) {
    Batch(out, log, from, cap) && (out != [] ==> n + ByteLen(out[..|out| - 1]) < maxBytes)
  }

  lemma {:induction false} SoundJoin(run: seq<Record>, rest: seq<Record>, log: seq<Record>,
                                     from: int, n: int, maxBytes: int, cap: int)
    requires run != [] && Contiguous(run, log, from) && Consecutive(log, 0) && from + |run| <= cap
    requires n + ByteLen(run[..|run| - 1]) < maxBytes
    requires SoundFrom(rest, log, from + |run|, n + ByteLen(run), maxBytes, cap)
    ensures SoundFrom(run + rest, log, from, n, maxBytes, cap)
  {
    hide ByteLen, Batch, Contiguous, Consecutive;
    ContiguousBatch(run, log, from);
    BatchJoin(run, rest, log, from, from + |run|, cap);
    if rest != [] {
      ByteLenLast(run, rest);
    } else {
      assert run + rest == run;
    }
  }

  /** Every batch is a strictly increasing selection of the log's own records below the cap, and all
      of it but the last record is under the byte budget. */
  lemma {:induction false} ReadLoopSound(view: seq<Seg>, log: seq<Record>, from: int, n: int, maxBytes: int, cap: int)
    requires Tiles(view, log) && Consecutive(log, 0) && 0 <= n < maxBytes
    ensures SoundFrom(ReadLoop(view, from, n, maxBytes, cap), log, from, n, maxBytes, cap)
    decreases |view|
  {
    hide ByteLen, Batch, Consecutive, SegRead, ReadLoop, Tiles, Contiguous, SoundFrom;
    SoundNone(log, from, n, maxBytes, cap);
    NoBytes();
    if view == [] {
      ReadLoopNone(view, from, n, maxBytes, cap);
    } else {
      Unfold(view, log, from, n, maxBytes, cap);
    }
    if view != [] && view[0].Next() <= from {
      ReadLoopSound(view[1..], log, from, n, maxBytes, cap);
    } else if view != [] && view[0].base < cap {
      var s := view[0];
      if s.base <= from < cap {
        var recs := SegReadLaw(s, log, from, maxBytes - n, cap);
        var n' := n + ByteLen(recs);
        if n' < maxBytes {
          var rest := ReadLoop(view[1..], from + |recs|, n', maxBytes, cap);
          ReadLoopSound(view[1..], log, from + |recs|, n', maxBytes, cap);
          SoundJoin(recs, rest, log, from, n, maxBytes, cap);
          assert ReadLoop(view, from, n, maxBytes, cap) == recs + rest;
        } else {
          SoundNone(log, from + |recs|, n', maxBytes, cap);
          SoundJoin(recs, [], log, from, n, maxBytes, cap);
          assert recs + [] == recs;
          assert ReadLoop(view, from, n, maxBytes, cap) == recs;
        }
      } else {
        SegReadNone(s, from, maxBytes - n, cap);
        ReadLoopSound(view[1..], log, s.Next(), n, maxBytes, cap);
        var rest := ReadLoop(view[1..], s.Next(), n, maxBytes, cap);
        SoundEarlier(rest, log, s.Next(), from, n, maxBytes, cap);
        assert [] + rest == rest;
        assert ReadLoop(view, from, n, maxBytes, cap) == rest;
      }
    }
  }

  lemma SegReadNone(s: Seg, from: int, budget: int, cap: int)
    requires !(s.base <= from < s.Next() && from < cap)
    ensures SegRead(s, from, budget, cap) == []
  {
  }

  lemma SoundNone(log: seq<Record>, from: int, n: int, maxBytes: int, cap: int)
    ensures SoundFrom([], log, from, n, maxBytes, cap)
  {
  }

  lemma SoundEarlier(out: seq<Record>, log: seq<Record>, from: int, earlier: int, n: int, maxBytes: int, cap: int)
    requires SoundFrom(out, log, from, n, maxBytes, cap) && earlier <= from
    ensures SoundFrom(out, log, earlier, n, maxBytes, cap)
  {
  }

  /** A read from an offset that is there starts exactly at it. */
  lemma {:induction false} ReadLoopStarts(view: seq<Seg>, log: seq<Record>, from: int, n: int, maxBytes: int, cap: int)
    requires Tiles(view, log) && Consecutive(log, 0) && 0 <= n < maxBytes && from < cap
    requires view != [] && view[0].base <= from < view[|view| - 1].Next()
    ensures var out := ReadLoop(view, from, n, maxBytes, cap);
            out != [] && from < |log| && out[0] == log[from]
    decreases |view|
  {
    var s := view[0];
    if s.Next() <= from {
      ReadLoopStarts(view[1..], log, from, n, maxBytes, cap);
    } else {
      var recs := SegReadLaw(s, log, from, maxBytes - n, cap);
    }
  }

  /** When the bytes left fit the budget, the batch is exactly the slice asked for. */
  lemma {:induction false} ReadLoopExact(view: seq<Seg>, log: seq<Record>, from: int, n: int, maxBytes: int, cap: int)
    requires Tiles(view, log) && Consecutive(log, 0) && 0 <= n < maxBytes
    requires view != [] && view[0].base <= from <= view[|view| - 1].Next() == |log| && from <= cap
    requires n + ByteLen(log[from..if cap < |log| then cap else |log|]) <= maxBytes
    ensures ReadLoop(view, from, n, maxBytes, cap) == log[from..if cap < |log| then cap else |log|]
    decreases |view|
  {
    hide ByteLen, SegRead, Consecutive, ReadLoop, Tiles, Available, Contiguous;
    NoBytes();
    Unfold(view, log, from, n, maxBytes, cap);
    var s := view[0];
    var hi := if cap < |log| then cap else |log|;
    if s.Next() <= from {
      if |view| > 1 {
        ReadLoopExact(view[1..], log, from, n, maxBytes, cap);
      }
    } else if from < cap {
      var end := if cap < s.Next() then cap else s.Next();
      var recs := SegReadLaw(s, log, from, maxBytes - n, cap);
      ExactHere(s, log, from, end, hi, cap, n, maxBytes);
      var n' := n + ByteLen(recs);
      if n' >= maxBytes {
        assert ReadLoop(view, from, n, maxBytes, cap) == recs;
      } else {
        var rest := ReadLoop(view[1..], end, n', maxBytes, cap);
        assert ReadLoop(view, from, n, maxBytes, cap) == recs + rest;
        if |view| > 1 {
          if end == s.Next() {
            ReadLoopExact(view[1..], log, end, n', maxBytes, cap);
          } else {
            ReadLoopBeyondCap(view[1..], log, end, n', maxBytes, cap);
          }
        }
        assert rest == log[end..hi];
      }
    } else {
      ReadLoopPastCap(view, from, n, maxBytes, cap);
    }
  }

  /** The part of the wanted slice that lies in this segment fits, so the segment returns all of it. */
  lemma ExactHere(s: Seg, log: seq<Record>, from: int, end: int, hi: int, cap: int, n: int, maxBytes: int)
    requires 0 <= s.base <= from < s.Next() <= |log| && from < cap && s.recs == log[s.base..s.Next()]
    requires end == (if cap < s.Next() then cap else s.Next()) && end <= hi <= |log|
    requires n + ByteLen(log[from..hi]) <= maxBytes
    ensures Available(s, from, cap) == log[from..end] && ByteLen(log[from..end]) <= maxBytes - n
    ensures n + ByteLen(log[from..end]) + ByteLen(log[end..hi]) <= maxBytes
    ensures log[from..hi] == log[from..end] + log[end..hi]
    ensures n + ByteLen(log[from..end]) >= maxBytes ==> log[from..hi] == log[from..end]
    ensures hi == end ==> log[from..hi] == log[from..end] && log[end..hi] == []
  {
    hide ByteLen;
    Seqs.SliceSlice(log, s.base, s.Next(), from - s.base, end - s.base);
    Seqs.SliceJoin(log, from, end, hi);
    ByteLenConcat(log[from..end], log[end..hi]);
    ByteLenAtLeast(log[end..hi]);
  }

  lemma {:induction false} ReadLoopPastCap(view: seq<Seg>, from: int, n: int, maxBytes: int, cap: int)
    requires from >= cap && n < maxBytes
    ensures ReadLoop(view, from, n, maxBytes, cap) == []
    decreases |view|
  {
    NoBytes();
    if view != [] {
      ReadLoopPastCap(view[1..], from, n, maxBytes, cap);
      if view[0].Next() > from {
        ReadLoopPastCap(view[1..], view[0].Next(), n, maxBytes, cap);
      }
    }
  }

  lemma ReadLoopBeyondCap(view: seq<Seg>, log: seq<Record>, from: int, n: int, maxBytes: int, cap: int)
    requires Tiles(view, log) && view != [] && view[0].base >= cap && view[0].Next() > from
    ensures ReadLoop(view, from, n, maxBytes, cap) == []
  {
  }

  // ---------------------------------------------------------------------------------------------
  // Holes
  // ---------------------------------------------------------------------------------------------

  /** The batch of this segment ends early, before the budget is used up: the next record is too big. */
  predicate ShortStop(s: Seg, from: int, budget: int, cap: int)
    requires s.base <= from < s.Next() && from < cap
  {
    var out := SegRead(s, from, budget, cap);
    |out| < |Available(s, from, cap)| && ByteLen(out) < budget
  }

  /** The read stops short inside some segment and there is a non-empty segment below the cap two
      places further on. */
  predicate LeavesHole(view: seq<Seg>, from: int, n: int, maxBytes: int, cap: int) {
    view != [] &&
      var s := view[0];
      if s.Next() <= from then LeavesHole(view[1..], from, n, maxBytes, cap)
      else if s.base > from || from >= cap then false
      else if ShortStop(s, from, maxBytes - n, cap) then |view| > 2 && view[2].base < cap && view[2].recs != []
      else
        var recs := SegRead(s, from, maxBytes - n, cap);
        n + ByteLen(recs) < maxBytes && LeavesHole(view[1..], from + |recs|, n + ByteLen(recs), maxBytes, cap)
  }

  /** After a short stop the next segment answers nothing, and the one after it starts a new run. */
  lemma AfterShortStop(view: seq<Seg>, log: seq<Record>, from: int, n: int, maxBytes: int, cap: int)
    requires Tiles(view, log) && Consecutive(log, 0) && 0 <= n < maxBytes
    requires view != [] && from < view[0].base
    ensures var out := ReadLoop(view, from, n, maxBytes, cap);
            if |view| > 1 && view[1].base < cap && view[1].recs != []
            then
              && out == ReadLoop(view[1..], view[1].base, n, maxBytes, cap)
              && out != [] && out[0].offset == view[1].base > from
            else out == []
  {
    hide ByteLen, SegRead, ReadLoop, Tiles;
    var s, tail := view[0], view[1..];
    NoBytes();
    TilesSpan(view, log);
    Unfold(view, log, from, n, maxBytes, cap);
    SegReadNone(s, from, maxBytes - n, cap);
    if |view| > 1 {
      Unfold(tail, log, s.Next(), n, maxBytes, cap);
      TilesSpan(tail, log);
      if s.base < cap && tail[0].base < cap && tail[0].recs != [] {
        ReadLoopStarts(tail, log, tail[0].base, n, maxBytes, cap);
      }
    }
  }

  lemma {:induction false} TilesSpan(view: seq<Seg>, log: seq<Record>)
    requires Tiles(view, log) && view != []
    ensures view[0].base <= view[0].Next() <= view[|view| - 1].Next() <= |log|
    decreases |view|
  {
    if |view| > 1 {
      TilesSpan(view[1..], log);
    }
  }

  lemma NoBytes()
    ensures ByteLen([]) == 0
  {
  }

  /** A batch is a run of the log without holes if and only if the read leaves none behind. */
  lemma {:induction false} ReadLoopContiguous(view: seq<Seg>, log: seq<Record>, from: int, n: int, maxBytes: int,
                                              cap: int)
    requires Tiles(view, log) && Consecutive(log, 0) && 0 <= n < maxBytes
    requires view != [] && view[0].base <= from <= |log|
    ensures Contiguous(ReadLoop(view, from, n, maxBytes, cap), log, from) <==> !LeavesHole(view, from, n, maxBytes, cap)
    decreases |view|
  {
    hide ByteLen, SegRead, ShortStop, ReadLoop, Tiles, Consecutive, Contiguous, Available;
    NoBytes();
    Unfold(view, log, from, n, maxBytes, cap);
    ContiguousNone(log, from);
    var s := view[0];
    if s.Next() <= from {
      if |view| > 1 {
        ReadLoopContiguous(view[1..], log, from, n, maxBytes, cap);
      }
    } else if from >= cap {
      ReadLoopPastCap(view, from, n, maxBytes, cap);
    } else {
      var recs := SegReadLaw(s, log, from, maxBytes - n, cap);
      var from', n' := from + |recs|, n + ByteLen(recs);
      ContiguousJoin(recs, [], log, from);
      assert recs + [] == recs;
      ContiguousNone(log, from');
      ShortStopFacts(s, from, maxBytes - n, cap);
      if n' < maxBytes {
        var rest := ReadLoop(view[1..], from', n', maxBytes, cap);
        ContiguousJoin(recs, rest, log, from);
        if |view| > 1 {
          if from' == s.Next() {
            ReadLoopContiguous(view[1..], log, from', n', maxBytes, cap);
          } else if from' < cap {
            assert |view| > 2 ==> view[1..][1] == view[2];
            AfterShortStop(view[1..], log, from', n', maxBytes, cap);
          } else {
            ReadLoopPastCap(view[1..], from', n', maxBytes, cap);
            TilesSpan(view[1..], log);
          }
        }
      }
    }
  }

  /** A segment read that stays within its budget stops short exactly when it ends before both the
      segment's end and the cap. */
  lemma ShortStopFacts(s: Seg, from: int, budget: int, cap: int)
    requires 0 <= s.base <= from < s.Next() && from < cap
    ensures ByteLen(SegRead(s, from, budget, cap)) >= budget ==> !ShortStop(s, from, budget, cap)
    ensures ByteLen(SegRead(s, from, budget, cap)) < budget ==>
              (ShortStop(s, from, budget, cap) <==> from + |SegRead(s, from, budget, cap)| < s.Next()
                                                    && from + |SegRead(s, from, budget, cap)| < cap)
  {
  }

  lemma ContiguousNone(log: seq<Record>, from: int)
    requires 0 <= from <= |log|
    ensures Contiguous([], log, from)
  {
  }

  lemma ContiguousJoin(a: seq<Record>, b: seq<Record>, log: seq<Record>, from: int)
    requires Contiguous(a, log, from) && Consecutive(log, 0)
    ensures Contiguous(a + b, log, from) <==> Contiguous(b, log, from + |a|)
    ensures b != [] && b[0].offset != from + |a| ==> !Contiguous(a + b, log, from)
  {
    if Contiguous(a + b, log, from) {
      assert b == (a + b)[|a|..] == log[from + |a|..from + |a + b|];
    }
  }

  ghost predicate NextTooBig(out: seq<Record>, log: seq<Record>, n: int, maxBytes: int, cap: int) {
    out != [] &&
      var next := out[|out| - 1].offset + 1;
      0 <= next < |log| && next < cap ==> n + ByteLen(out) + EncodedSize(log[next]) > maxBytes
  }

  lemma NextTooBigJoin(a: seq<Record>, b: seq<Record>, log: seq<Record>, n: int, maxBytes: int, cap: int)
    requires NextTooBig(b, log, n + ByteLen(a), maxBytes, cap)
    ensures NextTooBig(a + b, log, n, maxBytes, cap)
  {
    ByteLenConcat(a, b);
  }

  /** A batch ends only where it must: at the log end, at the cap, or before a record that does not fit. */
  lemma {:induction false} ReadLoopMaximal(view: seq<Seg>, log: seq<Record>, from: int, n: int, maxBytes: int, cap: int)
    requires Tiles(view, log) && Consecutive(log, 0) && 0 <= n < maxBytes && from < cap
    requires view != [] && view[0].base <= from < view[|view| - 1].Next() == |log|
    ensures NextTooBig(ReadLoop(view, from, n, maxBytes, cap), log, n, maxBytes, cap)
    decreases |view|
  {
    hide ByteLen, SegRead, ReadLoop, Tiles, Consecutive, Contiguous, Available;
    NoBytes();
    Unfold(view, log, from, n, maxBytes, cap);
    var s := view[0];
    if s.Next() <= from {
      ReadLoopMaximal(view[1..], log, from, n, maxBytes, cap);
    } else {
      var recs := SegReadLaw(s, log, from, maxBytes - n, cap);
      var from', n' := from + |recs|, n + ByteLen(recs);
      if n' < maxBytes {
        var rest := ReadLoop(view[1..], from', n', maxBytes, cap);
        if |view| > 1 {
          MaximalAfter(view, log, from', n', maxBytes, cap);
        }
        if rest == [] {
          assert recs + rest == recs;
        } else {
          NextTooBigJoin(recs, rest, log, n, maxBytes, cap);
        }
      }
    }
  }

  /** What follows the first segment, whether it was read to its end or stopped short. */
  lemma MaximalAfter(view: seq<Seg>, log: seq<Record>, from: int, n: int, maxBytes: int, cap: int)
    requires Tiles(view, log) && Consecutive(log, 0) && 0 <= n < maxBytes && |view| > 1
    requires view[0].base <= from <= view[0].Next() && view[|view| - 1].Next() == |log|
    ensures var rest := ReadLoop(view[1..], from, n, maxBytes, cap);
            && (rest != [] ==> NextTooBig(rest, log, n, maxBytes, cap))
            && (rest == [] ==> from < view[0].Next() || from >= cap || from >= |log|)
    decreases |view|, 0
  {
    hide ByteLen, SegRead, ReadLoop, Consecutive, Contiguous, Available;
    var tail := view[1..];
    TilesSpan(tail, log);
    if from >= cap {
      ReadLoopPastCap(tail, from, n, maxBytes, cap);
    } else if from == view[0].Next() {
      if from < |log| {
        ReadLoopStarts(tail, log, from, n, maxBytes, cap);
        ReadLoopMaximal(tail, log, from, n, maxBytes, cap);
      } else {
        Unfold(tail, log, from, n, maxBytes, cap);
      }
    } else {
      AfterShortStop(tail, log, from, n, maxBytes, cap);
      if |tail| > 1 && tail[1].base < cap && tail[1].recs != [] {
        TilesSpan(tail[1..], log);
        ReadLoopMaximal(tail[1..], log, tail[1].base, n, maxBytes, cap);
      }
    }
  }

  // ---------------------------------------------------------------------------------------------
  // The laws of Read
  // ---------------------------------------------------------------------------------------------

  /** Where a read really begins: one from a negative offset passes over the whole first segment. */
  function Start(view: seq<Seg>, from: int): int
    requires view != []
  {
    if from < 0 then view[0].Next() else from
  }

  /** A read returns nothing when its start is past the end or the cap. Otherwise it returns a non-empty
      batch that begins exactly there: a strictly increasing selection of the log's own records below
      the cap, with everything but its last record under the byte budget, that ends only where the
      next record is missing or does not fit. */
  lemma {:induction false} ReadRefines(view: seq<Seg>, from: int, maxBytes: int, maxOffset: int)
    requires ValidView(view)
    ensures var out, log := Read(view, from, maxBytes, maxOffset), Flat(view);
            var start := if from < 0 then view[0].Next() else from;
            var budget := if maxBytes <= 0 then 0x10_0000 else maxBytes;
            var cap := if maxOffset < 0 then |log| else maxOffset;
            && |log| == Leo(view) && Consecutive(log, 0) && 0 <= start
            && if start >= |log| || start >= cap then out == []
               else && Batch(out, log, start, cap) && out != [] && out[0] == log[start]
                    && ByteLen(out[..|out| - 1]) < budget && NextTooBig(out, log, 0, budget, cap)
  {
    hide ReadLoop, Flat, NextTooBig, Batch;
    var start := Start(view, from);
    FlatLength(view);
    ReadFromStart(view, from, maxBytes, maxOffset);
    ValidTiles(view);
    ValidViewFirst(view);
    if start < Leo(view) && start < EffectiveCap(view, maxOffset) {
      ReadMaximal(view, start, maxBytes, maxOffset);
      ReadLoopSound(view, Flat(view), start, 0, EffectiveBytes(maxBytes), EffectiveCap(view, maxOffset));
      ReadLoopStarts(view, Flat(view), start, 0, EffectiveBytes(maxBytes), EffectiveCap(view, maxOffset));
    }
  }

  /** The budget: it is overstepped only by a last record that the batch or a segment begins with. */
  ghost predicate Thrifty(out: seq<Record>, view: seq<Seg>, from: int, n: int, maxBytes: int) {
    || out == [] || n + ByteLen(out) <= maxBytes
    || (view != [] && view[0].base <= from && out[|out| - 1].offset == from)
    || exists k :: 0 <= k < |view| && out[|out| - 1].offset == view[k].base
  }

  lemma {:induction false} ThriftyTail(out: seq<Record>, view: seq<Seg>, from: int, from': int, n: int, maxBytes: int)
    requires |view| > 1 && Thrifty(out, view[1..], from', n, maxBytes)
    requires view[0].base <= view[1].base
    requires from' == view[1].base || from' == from || from' < view[1].base
    ensures Thrifty(out, view, from, n, maxBytes)
  {
    assert forall k :: 0 <= k < |view| - 1 ==> view[1..][k] == view[k + 1];
  }

  lemma {:induction false} ReadLoopThrifty(view: seq<Seg>, log: seq<Record>, from: int, n: int, maxBytes: int, cap: int)
    requires Tiles(view, log) && Consecutive(log, 0) && 0 <= n < maxBytes
    ensures Thrifty(ReadLoop(view, from, n, maxBytes, cap), view, from, n, maxBytes)
    decreases |view|
  {
    hide ByteLen, SegRead, ReadLoop, Tiles, Consecutive, Contiguous, Available, Thrifty;
    NoBytes();
    ThriftyNone(view, from, n, maxBytes);
    if view == [] {
      ReadLoopNone(view, from, n, maxBytes, cap);
    } else {
      Unfold(view, log, from, n, maxBytes, cap);
      var s, tail := view[0], view[1..];
      if s.Next() <= from {
        ReadLoopThrifty(tail, log, from, n, maxBytes, cap);
        if |view| > 1 {
          ThriftyTail(ReadLoop(tail, from, n, maxBytes, cap), view, from, from, n, maxBytes);
        }
      } else if s.base < cap {
        var recs: seq<Record>, from', n' := [], s.Next(), n;
        if s.base <= from < cap {
          recs := SegReadLaw(s, log, from, maxBytes - n, cap);
          from', n' := from + |recs|, n + ByteLen(recs);
          SegReadBudget(s, from, maxBytes - n, cap);
          ThriftyOne(recs, view, from, n, maxBytes);
        } else {
          SegReadNone(s, from, maxBytes - n, cap);
        }
        if n' < maxBytes && |view| > 1 {
          var rest := ReadLoop(tail, from', n', maxBytes, cap);
          ReadLoopThrifty(tail, log, from', n', maxBytes, cap);
          ThriftyTail(rest, view, from, from', n', maxBytes);
          ThriftyJoin(recs, rest, view, from, n, maxBytes);
        } else {
          assert recs + [] == recs;
        }
      }
    }
  }

  lemma {:induction false} ThriftyNone(view: seq<Seg>, from: int, n: int, maxBytes: int)
    ensures Thrifty([], view, from, n, maxBytes)
  {
  }

  lemma {:induction false} ThriftyOne(out: seq<Record>, view: seq<Seg>, from: int, n: int, maxBytes: int)
    requires view != [] && view[0].base <= from && out != [] && out[|out| - 1].offset + 1 == from + |out|
    requires n + ByteLen(out) > maxBytes ==> |out| == 1
    ensures Thrifty(out, view, from, n, maxBytes)
  {
    hide ByteLen;
  }

  lemma {:induction false} ThriftyJoin(a: seq<Record>, b: seq<Record>, view: seq<Seg>, from: int, n: int, maxBytes: int)
    requires n + ByteLen(a) < maxBytes && Thrifty(b, view, from, n + ByteLen(a), maxBytes)
    ensures Thrifty(a + b, view, from, n, maxBytes)
  {
    ByteLenConcat(a, b);
    hide ByteLen;
    if b == [] {
      assert a + b == a;
    }
  }

  /** A batch goes over the byte budget only by its last record, and only if that is its first record too
      or the first of a segment: each segment read takes its first record whatever its size. */
  lemma {:induction false} ReadBudget(view: seq<Seg>, from: int, maxBytes: int, maxOffset: int)
    requires ValidView(view)
    ensures var out := Read(view, from, maxBytes, maxOffset);
            var budget := if maxBytes <= 0 then 0x10_0000 else maxBytes;
            ByteLen(out) > budget ==>
              && out != [] && ByteLen(out[..|out| - 1]) < budget
              && (|out| == 1 || exists k :: 0 <= k < |view| && out[|out| - 1].offset == view[k].base)
  {
    hide ReadLoop, Flat, Tiles, Consecutive;
    var out, start := Read(view, from, maxBytes, maxOffset), Start(view, from);
    ValidTiles(view);
    ValidViewFirst(view);
    NoBytes();
    ReadFromStart(view, from, maxBytes, maxOffset);
    ReadRefines(view, from, maxBytes, maxOffset);
    if out != [] {
      ReadLoopThrifty(view, Flat(view), start, 0, EffectiveBytes(maxBytes), EffectiveCap(view, maxOffset));
      StartsIncreasing(out, Flat(view), start, EffectiveCap(view, maxOffset));
    }
  }

  lemma {:induction false} StartsIncreasing(out: seq<Record>, log: seq<Record>, from: int, cap: int)
    requires out != [] && Batch(out, log, from, cap)
    ensures out[|out| - 1].offset == from ==> |out| == 1
  {
    if |out| > 1 {
      assert out[0].offset < out[|out| - 1].offset;
    }
  }

  lemma {:induction false} ReadFromStart(view: seq<Seg>, from: int, maxBytes: int, maxOffset: int)
    requires ValidView(view)
    ensures Read(view, from, maxBytes, maxOffset) == Read(view, Start(view, from), maxBytes, maxOffset)
  {
    ValidTiles(view);
    ValidViewFirst(view);
    var cap := EffectiveCap(view, maxOffset);
    if from < 0 && from < cap {
      FirstPassedOver(view, Flat(view), from, EffectiveBytes(maxBytes), cap);
    }
  }

  lemma {:induction false} FirstPassedOver(view: seq<Seg>, log: seq<Record>, from: int, budget: int, cap: int)
    requires Tiles(view, log) && view != [] && view[0].base == 0 && from < 0 && budget > 0
    ensures var next := view[0].Next();
            ReadLoop(view, from, 0, budget, cap)
            == if next >= |log| || next >= cap then [] else ReadLoop(view, next, 0, budget, cap)
  {
    hide Tiles, ReadLoop, ByteLen, SegRead;
    var next := view[0].Next();
    NoBytes();
    Unfold(view, log, from, 0, budget, cap);
    Unfold(view, log, next, 0, budget, cap);
    if 0 < cap {
      SegReadNone(view[0], from, budget, cap);
      if next >= cap {
        ReadLoopPastCap(view[1..], next, 0, budget, cap);
      } else if next >= |log| {
        ReadLoopPastEnd(view[1..], log, next, 0, budget, cap);
      }
    }
  }

  lemma {:induction false} ReadLoopPastEnd(view: seq<Seg>, log: seq<Record>, from: int, n: int, maxBytes: int, cap: int)
    requires Tiles(view, log) && from >= |log|
    ensures ReadLoop(view, from, n, maxBytes, cap) == []
    decreases |view|
  {
    if view != [] {
      ReadLoopPastEnd(view[1..], log, from, n, maxBytes, cap);
    }
  }

  lemma {:induction false} ReadMaximal(view: seq<Seg>, from: int, maxBytes: int, maxOffset: int)
    requires ValidView(view) && 0 <= from < Leo(view) && from < EffectiveCap(view, maxOffset)
    ensures NextTooBig(Read(view, from, maxBytes, maxOffset), Flat(view), 0,
                       EffectiveBytes(maxBytes), EffectiveCap(view, maxOffset))
  {
    hide ReadLoop, Flat, NextTooBig;
    ValidTiles(view);
    ValidViewFirst(view);
    ReadLoopMaximal(view, Flat(view), from, 0, EffectiveBytes(maxBytes), EffectiveCap(view, maxOffset));
  }

  lemma {:induction false} ValidViewFirst(view: seq<Seg>)
    requires ValidView(view)
    ensures view[0].base == 0
    decreases |view|
  {
    if |view| > 1 {
      ValidViewFirst(view[..|view| - 1]);
    }
  }

  /** When the bytes left fit the budget, a read returns exactly the slice [from, min(LEO, cap)). */
  lemma ReadExact(view: seq<Seg>, from: int, maxBytes: int, maxOffset: int)
    requires ValidView(view) && 0 <= from < |Flat(view)| && from < EffectiveCap(view, maxOffset)
    requires var log, cap := Flat(view), EffectiveCap(view, maxOffset);
             ByteLen(log[from..if cap < |log| then cap else |log|]) <= EffectiveBytes(maxBytes)
    ensures var log, cap := Flat(view), EffectiveCap(view, maxOffset);
            Read(view, from, maxBytes, maxOffset) == log[from..if cap < |log| then cap else |log|]
  {
    hide ReadLoop, Flat, ByteLen;
    ValidTiles(view);
    ValidViewFirst(view);
    ReadLoopExact(view, Flat(view), from, 0, EffectiveBytes(maxBytes), EffectiveCap(view, maxOffset));
  }

  /** A read has no hole exactly when it does not stop short of its budget in a segment that has a
      non-empty segment below the cap two places after it. */
  lemma ReadContiguousIff(view: seq<Seg>, from: int, maxBytes: int, maxOffset: int)
    requires ValidView(view) && 0 <= from < Leo(view) && from < EffectiveCap(view, maxOffset)
    ensures Contiguous(Read(view, from, maxBytes, maxOffset), Flat(view), from)
            <==> !LeavesHole(view, from, 0, EffectiveBytes(maxBytes), EffectiveCap(view, maxOffset))
  {
    hide ReadLoop, Flat, LeavesHole, Contiguous;
    ValidTiles(view);
    ValidViewFirst(view);
    ReadLoopContiguous(view, Flat(view), from, 0, EffectiveBytes(maxBytes), EffectiveCap(view, maxOffset));
  }

  /** The batch runs without a hole to its record `i`, inside segment `k` but not at its end, and goes on
      with the first record two segments further. */
  ghost predicate Hole(out: seq<Record>, view: seq<Seg>, log: seq<Record>, from: int, i: int, k: int) {
    && 0 <= i && i + 1 < |out| && Contiguous(out[..i + 1], log, from)
    && 0 <= k && k + 2 < |view| && view[k].base <= from + i && from + i + 1 < view[k].Next()
    && view[k + 2].recs != [] && out[i + 1].offset == view[k + 2].base
  }

  lemma {:induction false} ReadLoopHole(view: seq<Seg>, log: seq<Record>, from: int, n: int, maxBytes: int, cap: int)
    returns (i: nat, k: nat)
    requires Tiles(view, log) && Consecutive(log, 0) && 0 <= n < maxBytes
    requires view != [] && view[0].base <= from <= |log|
    requires !Contiguous(ReadLoop(view, from, n, maxBytes, cap), log, from)
    ensures Hole(ReadLoop(view, from, n, maxBytes, cap), view, log, from, i, k)
    decreases |view|
  {
    hide ByteLen, SegRead, ShortStop, ReadLoop, Tiles, Consecutive, Contiguous, Available;
    NoBytes();
    Unfold(view, log, from, n, maxBytes, cap);
    ContiguousNone(log, from);
    var s, tail := view[0], view[1..];
    if s.Next() <= from {
      i, k := ReadLoopHole(tail, log, from, n, maxBytes, cap);
      k := k + 1;
    } else {
      if from >= cap {
        ReadLoopPastCap(view, from, n, maxBytes, cap);
      }
      var recs := SegReadLaw(s, log, from, maxBytes - n, cap);
      var from', n' := from + |recs|, n + ByteLen(recs);
      var rest := ReadLoop(tail, from', n', maxBytes, cap);
      ContiguousNone(log, from');
      ContiguousJoin(recs, [], log, from);
      assert recs + [] == recs;
      ContiguousJoin(recs, rest, log, from);
      if from' == s.Next() {
        i, k := ReadLoopHole(tail, log, from', n', maxBytes, cap);
        ContiguousJoin(recs, rest[..i + 1], log, from);
        i, k := |recs| + i, k + 1;
        assert (recs + rest)[..i + 1] == recs + rest[..i + 1 - |recs|];
      } else {
        if from' >= cap {
          ReadLoopPastCap(tail, from', n', maxBytes, cap);
        }
        AfterShortStop(tail, log, from', n', maxBytes, cap);
        i, k := |recs| - 1, 0;
        assert (recs + rest)[..|recs|] == recs;
      }
    }
  }

  /** The only shape a hole takes, for every read: the batch runs on without one to somewhere inside a
      segment, and continues at the start of the segment two places after it. */
  lemma {:induction false} HoleShape(view: seq<Seg>, from: int, maxBytes: int, maxOffset: int)
    requires ValidView(view) && 0 <= from < Leo(view) && from < EffectiveCap(view, maxOffset)
    ensures var out, log := Read(view, from, maxBytes, maxOffset), Flat(view);
            !Contiguous(out, log, from) <==> exists i, k :: Hole(out, view, log, from, i, k)
  {
    hide ReadLoop, Flat, Contiguous, Hole;
    ValidTiles(view);
    ValidViewFirst(view);
    var out, log := Read(view, from, maxBytes, maxOffset), Flat(view);
    if !Contiguous(out, log, from) {
      var i, k := ReadLoopHole(view, log, from, 0, EffectiveBytes(maxBytes), EffectiveCap(view, maxOffset));
    }
    forall i, k | Hole(out, view, log, from, i, k) ensures !Contiguous(out, log, from) {
      HoleBreaks(out, view, log, from, i, k);
    }
  }

  lemma {:induction false} HoleBreaks(out: seq<Record>, view: seq<Seg>, log: seq<Record>, from: int, i: int, k: int)
    requires Hole(out, view, log, from, i, k) && ValidView(view) && Consecutive(log, 0)
    ensures !Contiguous(out, log, from)
    ensures out[i + 1].offset > from + i + 1
  {
    hide ValidView;
    SegmentsInOrder(view, k, k + 2);
  }

  lemma {:induction false} SegmentsInOrder(view: seq<Seg>, j: nat, k: nat)
    requires ValidView(view) && j < k < |view|
    ensures view[j].Next() <= view[k].base
    decreases k
  {
    Linked(view, k - 1);
    if j < k - 1 {
      SegmentsInOrder(view, j, k - 1);
    }
  }

  /** Wherever the read came from: when its first run without a hole ends in segment `k` and the batch
      goes on, it goes on with the first record of segment k + 2. */
  lemma {:induction false} GoesOnTwoFurther(view: seq<Seg>, from: int, maxBytes: int, maxOffset: int, m: nat, k: nat)
    requires ValidView(view) && 0 <= from < Leo(view) && from < EffectiveCap(view, maxOffset)
    requires FirstRun(Read(view, from, maxBytes, maxOffset), Flat(view), from, m)
    requires k < |view| && view[k].base <= from + m - 1 < view[k].Next()
    ensures var out := Read(view, from, maxBytes, maxOffset);
            m < |out| ==>
              && k + 2 < |view| && view[k + 2].recs != []
              && out[m].offset == view[k + 2].base < EffectiveCap(view, maxOffset)
  {
    hide Read, Flat, Hole, ValidView, Consecutive, Contiguous;
    var out, log := Read(view, from, maxBytes, maxOffset), Flat(view);
    ReadBelowCap(view, from, maxBytes, maxOffset);
    HoleShape(view, from, maxBytes, maxOffset);
    if m < |out| {
      InRun(out, log, from, |out|, m);
      assert out[..|out|] == out;
      var i, j :| Hole(out, view, log, from, i, j);
      SameStop(out, view, log, from, m, k, i, j);
    }
  }

  lemma {:induction false} ReadBelowCap(view: seq<Seg>, from: int, maxBytes: int, maxOffset: int)
    requires ValidView(view) && 0 <= from < Leo(view) && from < EffectiveCap(view, maxOffset)
    ensures Consecutive(Flat(view), 0)
    ensures var out := Read(view, from, maxBytes, maxOffset);
            forall i :: 0 <= i < |out| ==> out[i].offset < EffectiveCap(view, maxOffset)
  {
    hide Read, Flat, ByteLen, NextTooBig;
    ReadRefines(view, from, maxBytes, maxOffset);
  }

  /** The first `m` records are a run without a hole, and the next one, if any, does not continue it. */
  ghost predicate FirstRun(out: seq<Record>, log: seq<Record>, from: int, m: nat) {
    0 < m <= |out| && Contiguous(out[..m], log, from) && (m < |out| ==> out[m].offset != from + m)
  }

  /** In particular, a run that ends where no non-empty segment below the cap is two places on is the
      whole batch. */
  lemma {:induction false} NoHoleNearTheEnd(view: seq<Seg>, from: int, maxBytes: int, maxOffset: int, m: nat, k: nat)
    requires ValidView(view) && 0 <= from < Leo(view) && from < EffectiveCap(view, maxOffset)
    requires FirstRun(Read(view, from, maxBytes, maxOffset), Flat(view), from, m)
    requires k < |view| && view[k].base <= from + m - 1 < view[k].Next()
    requires k + 2 >= |view| || view[k + 2].recs == [] || view[k + 2].base >= EffectiveCap(view, maxOffset)
    ensures Contiguous(Read(view, from, maxBytes, maxOffset), Flat(view), from)
  {
    hide ValidView, Read, Flat;
    GoesOnTwoFurther(view, from, maxBytes, maxOffset, m, k);
    var out := Read(view, from, maxBytes, maxOffset);
    assert out[..|out|] == out;
  }

  lemma {:induction false} InRun(out: seq<Record>, log: seq<Record>, from: int, m: nat, j: nat)
    requires Consecutive(log, 0) && j < m <= |out|
    ensures Contiguous(out[..m], log, from) ==> out[j].offset == from + j
  {
    if Contiguous(out[..m], log, from) {
      assert out[..m][j] == log[from + j];
    }
  }

  /** The run ends at the hole, and so in the segment the hole is in. */
  lemma {:induction false} SameStop(out: seq<Record>, view: seq<Seg>, log: seq<Record>, from: int, m: nat, k: nat,
                                    i: int, j: int)
    requires ValidView(view) && Consecutive(log, 0) && Hole(out, view, log, from, i, j)
    requires FirstRun(out, log, from, m) && m < |out|
    requires k < |view| && view[k].base <= from + m - 1 < view[k].Next()
    ensures i == m - 1 && j == k && k + 2 < |view| && view[k + 2].recs != [] && out[m].offset == view[k + 2].base
  {
    HoleBreaks(out, view, log, from, i, j);
    forall l | 0 <= l < m ensures out[l].offset == from + l {
      InRun(out, log, from, m, l);
    }
    forall l | 0 <= l < i + 1 ensures out[l].offset == from + l {
      InRun(out, log, from, i + 1, l);
    }
    hide ValidView;
    SegmentsApart(view, j, k);
  }

  lemma {:induction false} SegmentsApart(view: seq<Seg>, j: nat, k: nat)
    requires ValidView(view) && j < |view| && k < |view|
    ensures j < k ==> view[j].Next() <= view[k].base
    ensures k < j ==> view[k].Next() <= view[j].base
  {
    hide ValidView;
    if j < k {
      SegmentsInOrder(view, j, k);
    } else if k < j {
      SegmentsInOrder(view, k, j);
    }
  }

  /** Four appends that lay out three segments, and a read whose batch then skips records 1 and 2. */
  lemma HoleReachable(a: Record, b: Record, c: Record, d: Record)
    requires a.offset == 0 && b.offset == 1 && c.offset == 2 && d.offset == 3
    requires EncodedSize(c) == EncodedSize(d) == EncodedSize(a) + EncodedSize(b)
    ensures var limit := EncodedSize(c);
            var two := AppendView(AppendView([Seg(0, [])], a, limit), b, limit);
            var view := AppendView(AppendView(two, c, limit), d, limit);
            && view == [Seg(0, [a, b]), Seg(2, [c]), Seg(3, [d])]
            && Read(view, 0, EncodedSize(a) + 1, -1) == [a, d]
  {
    var limit := EncodedSize(c);
    ByteLenOne(a);
    ByteLenOne(c);
    ByteLenSnoc([a], b);
    assert [a] + [b] == [a, b];
    NoBytes();
    assert EncodedSize(a) > 0 && EncodedSize(b) > 0;
    hide ByteLen, EncodedSize, AppendView;
    AppendTo(Seg(0, []), a, limit);
    assert [] + [a] == [a];
    AppendTo(Seg(0, [a]), b, limit);
    AppendTo(Seg(0, [a, b]), c, limit);
    AppendOnto([Seg(0, [a, b])], Seg(2, [c]), d, limit);
    assert [Seg(0, [a, b])] + [Seg(2, [c])] == [Seg(0, [a, b]), Seg(2, [c])];
    assert [Seg(0, [a, b])] + [Seg(2, [c]), Seg(3, [d])] == [Seg(0, [a, b]), Seg(2, [c]), Seg(3, [d])];
    HoleRead(a, b, c, d);
  }

  lemma ByteLenOne(r: Record)
    ensures ByteLen([r]) == EncodedSize(r)
  {
    assert [r][1..] == [];
  }

  lemma AppendOnto(front: seq<Seg>, last: Seg, r: Record, limit: int)
    ensures AppendView(front + [last], r, limit) ==
            if ByteLen(last.recs) > 0 && ByteLen(last.recs) + EncodedSize(r) > limit
            then front + [last, Seg(last.Next(), [r])] else front + [Seg(last.base, last.recs + [r])]
  {
    assert (front + [last])[..|front|] == front;
  }

  lemma AppendTo(last: Seg, r: Record, limit: int)
    ensures AppendView([last], r, limit) ==
            if ByteLen(last.recs) > 0 && ByteLen(last.recs) + EncodedSize(r) > limit
            then [last, Seg(last.Next(), [r])] else [Seg(last.base, last.recs + [r])]
  {
    assert [last][..0] == [];
  }

  lemma HoleRead(a: Record, b: Record, c: Record, d: Record)
    requires a.offset == 0 && d.offset == 3
    ensures Read([Seg(0, [a, b]), Seg(2, [c]), Seg(3, [d])], 0, EncodedSize(a) + 1, -1) == [a, d]
  {
    var view := [Seg(0, [a, b]), Seg(2, [c]), Seg(3, [d])];
    var budget := EncodedSize(a) + 1;
    var n := EncodedSize(a);
    assert [a][1..] == [] && [a, b][1..] == [b];
    assert SegRead(view[0], 0, budget, 4) == [a] by {
      assert Available(view[0], 0, 4) == [a, b];
      assert TakeBytes([b], n, budget) == [];
    }
    assert ReadLoop(view[1..], 1, n, budget, 4) == ReadLoop(view[1..][1..], 3, n, budget, 4) by {
      NoBytes();
      assert SegRead(view[1], 1, budget - n, 4) == [];
    }
    assert view[1..][1..] == [Seg(3, [d])];
    assert ReadLoop([Seg(3, [d])], 3, n, budget, 4) == [d] by {
      assert Available(Seg(3, [d]), 3, 4) == [d];
      assert [d][1..] == [];
    }
  }
}
