/** The sparse builders _stream_to_sparse_COO_array_sum_frames (coordinates
    row, column, channel) and _stream_to_sparse_COO_array (coordinates
    frame, row, column, channel), and the sentinel that
    stream_to_sparse_COO_array appends before it calls them.

    Both builders walk the stream once with the raster cursor of the dense
    fillers and run-length encode each pixel: consecutive equal values of
    a pixel become one coordinate with their number as its datum. A run is
    written out when a different value arrives in the same pixel or when the
    sentinel closes the pixel. Their specification is stated on the pixel
    segments of the stream, as the dense one is. */
module SparseCoo {
  import opened Arith
  import opened StreamFormat
  import opened DenseFill

  // ------------------------------------------------------------------ runs

  /** `count` consecutive values `channel` of one pixel. */
  datatype Run = Run(channel: int, count: nat)

  /** The runs after one more value v: v lengthens the last run when it
      repeats its value and opens a new run of length 1 otherwise. */
  function Extend(runs: seq<Run>, v: int): seq<Run>
  {
    if runs != [] && runs[|runs| - 1].channel == v then
      runs[..|runs| - 1] + [Run(v, runs[|runs| - 1].count + 1)]
    else runs + [Run(v, 1)]
  }

  /** The maximal runs of equal consecutive values of a pixel segment, in order. */
  function RunsOf(seg: seq<int>): seq<Run>
    decreases |seg|
  {
    if seg == [] then [] else Extend(RunsOf(seg[..|seg| - 1]), seg[|seg| - 1])
  }

  /** The runs of a segment that are complete while the segment is still open:
      all but the last one, which the next value may lengthen. */
  function ClosedRuns(seg: seq<int>): seq<Run>
  {
    var runs := RunsOf(seg);
    if runs == [] then [] else runs[..|runs| - 1]
  }

  /** Length of the run still open at the end of seg (0 for an empty segment). */
  function OpenCount(seg: seq<int>): nat
  {
    var runs := RunsOf(seg);
    if runs == [] then 0 else runs[|runs| - 1].count
  }

  /** Value of the run still open at the end of seg. */
  function OpenChannel(seg: seq<int>): int
  {
    var runs := RunsOf(seg);
    if runs == [] then 0 else runs[|runs| - 1].channel
  }

  /** The values a list of runs stands for. */
  function Unrun(runs: seq<Run>): seq<int>
    decreases |runs|
  {
    if runs == [] then []
    else Unrun(runs[..|runs| - 1]) + Repeat(runs[|runs| - 1].channel, runs[|runs| - 1].count)
  }

  /** Sum of the lengths of the runs whose value falls in rebinned channel k. */
  function RunTotal(runs: seq<Run>, k: int, rebin: nat): nat
    requires rebin >= 1
    decreases |runs|
  {
    if runs == [] then 0
    else RunTotal(runs[..|runs| - 1], k, rebin) +
         (if runs[|runs| - 1].channel / rebin == k then runs[|runs| - 1].count else 0)
  }

  /** A segment has runs exactly when it has values. */
  lemma RunsEmpty(seg: seq<int>)
    ensures (RunsOf(seg) == []) == (seg == [])
  {
  }

  /** Every run is at least one value long and holds a value of the segment. */
  lemma {:induction false} RunsPositive(seg: seq<int>)
    ensures forall j :: 0 <= j < |RunsOf(seg)| ==> RunsOf(seg)[j].count >= 1 && RunsOf(seg)[j].channel in seg
    decreases |seg|
  {
    if seg != [] {
      var p := seg[..|seg| - 1];
      var v := seg[|seg| - 1];
      RunsPositive(p);
      var runs, runs' := RunsOf(p), RunsOf(seg);
      forall j | 0 <= j < |runs'| ensures runs'[j].count >= 1 && runs'[j].channel in seg {
        if j < |runs'| - 1 {
          assert runs'[j] == runs[j];
          assert runs[j].channel in p;
          assert forall w :: w in p ==> w in seg;
        }
      }
    }
  }

  /** Consecutive runs hold different values: the runs are maximal. */
  lemma {:induction false} RunsMaximal(seg: seq<int>)
    ensures forall j :: 0 < j < |RunsOf(seg)| ==> RunsOf(seg)[j - 1].channel != RunsOf(seg)[j].channel
    decreases |seg|
  {
    if seg != [] {
      var p := seg[..|seg| - 1];
      RunsMaximal(p);
      var runs, runs' := RunsOf(p), RunsOf(seg);
      forall j | 0 < j < |runs'| ensures runs'[j - 1].channel != runs'[j].channel {
        if j < |runs'| - 1 {
          assert runs'[j - 1] == runs[j - 1] && runs'[j] == runs[j];
        } else {
          assert runs'[j - 1] == runs[j - 1];
        }
      }
    }
  }

  lemma UnrunSnoc(runs: seq<Run>, r: Run)
    ensures Unrun(runs + [r]) == Unrun(runs) + Repeat(r.channel, r.count)
  {
    assert (runs + [r])[..|runs|] == runs;
  }

  /** Lengthening the last run by one appends one value. */
  lemma UnrunLonger(init: seq<Run>, v: int, n: nat)
    ensures Unrun(init + [Run(v, n + 1)]) == Unrun(init + [Run(v, n)]) + [v]
  {
    UnrunSnoc(init, Run(v, n + 1));
    UnrunSnoc(init, Run(v, n));
    assert Repeat(v, n + 1) == Repeat(v, n) + [v];
  }

  /** RunsOf on a segment with one more value. */
  lemma RunsOfSnoc(p: seq<int>, v: int)
    ensures RunsOf(p + [v]) == Extend(RunsOf(p), v)
  {
    var s := p + [v];
    assert s[..|s| - 1] == p && s[|s| - 1] == v;
  }

  /** Expanding the runs gives the segment back. */
  lemma {:induction false} RunsExpand(seg: seq<int>)
    ensures Unrun(RunsOf(seg)) == seg
    decreases |seg|
  {
    if seg != [] {
      var p, v := seg[..|seg| - 1], seg[|seg| - 1];
      assert seg == p + [v];
      forall q | q == p ensures Unrun(RunsOf(q)) == q {
        RunsExpand(q);
      }
      RunsExpandStep(p, v);
    }
  }

  lemma RunsExpandStep(p: seq<int>, v: int)
    requires Unrun(RunsOf(p)) == p
    ensures Unrun(RunsOf(p + [v])) == p + [v]
  {
    RunsOfSnoc(p, v);
    UnrunExtend(RunsOf(p), v);
  }

  lemma UnrunExtend(runs: seq<Run>, v: int)
    ensures Unrun(Extend(runs, v)) == Unrun(runs) + [v]
  {
    if runs != [] && runs[|runs| - 1].channel == v {
      var r := runs[|runs| - 1];
      var init := runs[..|runs| - 1];
      assert runs == init + [Run(v, r.count)];
      UnrunLonger(init, v, r.count);
    } else {
      UnrunSnoc(runs, Run(v, 1));
      assert Repeat(v, 1) == [v];
    }
  }

  /** Counting by runs gives the counts of the segment. */
  lemma {:induction false} RunsCount(seg: seq<int>, k: int, rebin: nat)
    requires rebin >= 1
    ensures RunTotal(RunsOf(seg), k, rebin) == Count(seg, k, rebin)
    decreases |seg|
  {
    if seg != [] {
      var p, v := seg[..|seg| - 1], seg[|seg| - 1];
      assert seg == p + [v];
      forall q | q == p ensures RunTotal(RunsOf(q), k, rebin) == Count(q, k, rebin) {
        RunsCount(q, k, rebin);
      }
      RunsCountStep(p, v, k, rebin);
    }
  }

  lemma RunsCountStep(p: seq<int>, v: int, k: int, rebin: nat)
    requires rebin >= 1 && RunTotal(RunsOf(p), k, rebin) == Count(p, k, rebin)
    ensures RunTotal(RunsOf(p + [v]), k, rebin) == Count(p + [v], k, rebin)
  {
    RunsOfSnoc(p, v);
    RunTotalExtend(RunsOf(p), v, k, rebin);
    assert (p + [v])[..|p|] == p;
  }

  lemma RunTotalExtend(runs: seq<Run>, v: int, k: int, rebin: nat)
    requires rebin >= 1
    ensures RunTotal(Extend(runs, v), k, rebin) == RunTotal(runs, k, rebin) + (if v / rebin == k then 1 else 0)
  {
    if runs != [] && runs[|runs| - 1].channel == v {
      var init := runs[..|runs| - 1];
      var r := Run(v, runs[|runs| - 1].count + 1);
      assert (init + [r])[..|init|] == init;
    } else {
      assert (runs + [Run(v, 1)])[..|runs|] == runs;
    }
  }

  /** A value extends the open run when it repeats it and opens a new run
      otherwise, completing the old one. */
  lemma RunsSnoc(seg: seq<int>, v: int)
    ensures var same := seg != [] && OpenChannel(seg) == v;
      ClosedRuns(seg + [v]) == (if same then ClosedRuns(seg) else RunsOf(seg)) &&
      OpenCount(seg + [v]) == (if same then OpenCount(seg) + 1 else 1) &&
      OpenChannel(seg + [v]) == v
  {
    assert (seg + [v])[..|seg|] == seg;
    var runs := RunsOf(seg);
    if runs != [] && runs[|runs| - 1].channel == v {
      assert (runs[..|runs| - 1] + [Run(v, runs[|runs| - 1].count + 1)])[..|runs| - 1] == runs[..|runs| - 1];
    } else {
      assert (runs + [Run(v, 1)])[..|runs|] == runs;
    }
  }

  /** The open run and the complete ones make up all runs of a segment. */
  lemma OpenRun(seg: seq<int>)
    ensures (OpenCount(seg) == 0) == (seg == [])
    ensures seg != [] ==> RunsOf(seg) == ClosedRuns(seg) + [Run(OpenChannel(seg), OpenCount(seg))]
  {
    RunsEmpty(seg);
    RunsPositive(seg);
  }

  // --------------------------------------------------------------- entries

  /** One emitted coordinate before it is projected: the cursor position at
      which the run was written out and the run itself. */
  datatype Entry = Entry(frame: nat, nav: nat, run: Run)

  function RunEntries(runs: seq<Run>, frame: nat, nav: nat): seq<Entry>
    decreases |runs|
  {
    if runs == [] then []
    else RunEntries(runs[..|runs| - 1], frame, nav) + [Entry(frame, nav, runs[|runs| - 1])]
  }

  /** Entry j of a run list is run j, recorded at (frame, nav). */
  lemma {:induction false} RunEntriesAt(runs: seq<Run>, frame: nat, nav: nat)
    ensures |RunEntries(runs, frame, nav)| == |runs|
    ensures forall j :: 0 <= j < |runs| ==> RunEntries(runs, frame, nav)[j] == Entry(frame, nav, runs[j])
    decreases |runs|
  {
    if runs != [] {
      RunEntriesAt(runs[..|runs| - 1], frame, nav);
    }
  }

  /** What the builders write out for segment g, visited at (frame, nav): all
      its runs once a sentinel has closed it, the complete runs only for the
      last segment, which no sentinel closes, and nothing for a segment the
      stream does not reach. */
  function SegmentEntries(segs: seq<seq<int>>, g: nat, frame: nat, nav: nat): seq<Entry>
  {
    if g + 1 < |segs| then RunEntries(RunsOf(segs[g]), frame, nav)
    else if g + 1 == |segs| then RunEntries(ClosedRuns(segs[g]), frame, nav)
    else []
  }

  /** Entries of raster positions 0 .. n - 1 of frame `frame`. */
  function NavEntries(segs: seq<seq<int>>, frameSize: nat, frame: nat, n: nat): seq<Entry>
    decreases n
  {
    if n == 0 then []
    else NavEntries(segs, frameSize, frame, n - 1) + SegmentEntries(segs, Slot(frame, n - 1, frameSize), frame, n - 1)
  }

  /** Entries of frames firstFrame .. lastFrame - 1, in stream order. */
  function FramesEntries(segs: seq<seq<int>>, frameSize: nat, firstFrame: nat, lastFrame: nat): seq<Entry>
    decreases lastFrame
  {
    if lastFrame <= firstFrame then []
    else FramesEntries(segs, frameSize, firstFrame, lastFrame - 1) + NavEntries(segs, frameSize, lastFrame - 1, frameSize)
  }

  /** The entries both builders produce from a stream, in order. */
  function Entries(s: seq<int>, frameSize: nat, firstFrame: nat, lastFrame: nat): seq<Entry>
  {
    FramesEntries(Segments(s), frameSize, firstFrame, lastFrame)
  }

  /** The coordinate tuple of the summed builder: row, column, rebinned channel. */
  function Coord3(e: Entry, width: nat, rebin: nat): (int, int, int)
    requires width > 0 && rebin >= 1
  {
    (e.nav / width, e.nav % width, e.run.channel / rebin)
  }

  /** The coordinate tuple of the per-frame builder: kept frame, row, column, rebinned channel. */
  function Coord4(e: Entry, width: nat, firstFrame: nat, rebin: nat): (int, int, int, int)
    requires width > 0 && rebin >= 1
  {
    (e.frame - firstFrame, e.nav / width, e.nav % width, e.run.channel / rebin)
  }

  /** The coordinate list of the summed builder, one tuple per entry. */
  function Coords3(es: seq<Entry>, width: nat, rebin: nat): (cs: seq<(int, int, int)>)
    requires width > 0 && rebin >= 1
    ensures |cs| == |es|
    ensures forall j :: 0 <= j < |es| ==> cs[j] == Coord3(es[j], width, rebin)
    decreases |es|
  {
    if es == [] then [] else Coords3(es[..|es| - 1], width, rebin) + [Coord3(es[|es| - 1], width, rebin)]
  }

  /** The coordinate list of the per-frame builder, one tuple per entry. */
  function Coords4(es: seq<Entry>, width: nat, firstFrame: nat, rebin: nat): (cs: seq<(int, int, int, int)>)
    requires width > 0 && rebin >= 1
    ensures |cs| == |es|
    ensures forall j :: 0 <= j < |es| ==> cs[j] == Coord4(es[j], width, firstFrame, rebin)
    decreases |es|
  {
    if es == [] then [] else Coords4(es[..|es| - 1], width, firstFrame, rebin) + [Coord4(es[|es| - 1], width, firstFrame, rebin)]
  }

  /** The data list: the run lengths. */
  function Values(es: seq<Entry>): (vs: seq<int>)
    ensures |vs| == |es|
    ensures forall j :: 0 <= j < |es| ==> vs[j] == es[j].run.count
    decreases |es|
  {
    if es == [] then [] else Values(es[..|es| - 1]) + [es[|es| - 1].run.count]
  }

  lemma EmitSnoc3(es: seq<Entry>, e: Entry, width: nat, rebin: nat)
    requires width > 0 && rebin >= 1
    ensures Coords3(es + [e], width, rebin) == Coords3(es, width, rebin) + [Coord3(e, width, rebin)]
    ensures Values(es + [e]) == Values(es) + [e.run.count]
  {
    assert (es + [e])[..|es|] == es;
  }

  lemma EmitSnoc4(es: seq<Entry>, e: Entry, width: nat, firstFrame: nat, rebin: nat)
    requires width > 0 && rebin >= 1
    ensures Coords4(es + [e], width, firstFrame, rebin) == Coords4(es, width, firstFrame, rebin) + [Coord4(e, width, firstFrame, rebin)]
    ensures Values(es + [e]) == Values(es) + [e.run.count]
  {
    assert (es + [e])[..|es|] == es;
  }

  lemma RunEntriesSnoc(runs: seq<Run>, r: Run, frame: nat, nav: nat)
    ensures RunEntries(runs + [r], frame, nav) == RunEntries(runs, frame, nav) + [Entry(frame, nav, r)]
  {
    assert (runs + [r])[..|runs|] == runs;
  }

  // ------------------------------------------- entries depend on few segments

  lemma ConcatAssoc(a: seq<Entry>, b: seq<Entry>, c: seq<Entry>)
    ensures a + (b + c) == a + b + c
  {
  }

  /** Segments a and b are equal below bound and closed by a sentinel in both. */
  ghost predicate ClosedAgree(a: seq<seq<int>>, b: seq<seq<int>>, bound: int)
  {
    forall g :: 0 <= g < bound ==> g + 1 < |a| && g + 1 < |b| && a[g] == b[g]
  }

  /** No segment from index bound on is closed, and if the open one is
      segment bound it has no complete run: segments from bound on
      contribute no entry. */
  ghost predicate QuietFrom(segs: seq<seq<int>>, bound: nat)
  {
    |segs| <= bound + 1 && (|segs| == bound + 1 ==> ClosedRuns(segs[bound]) == [])
  }

  lemma QuietLater(segs: seq<seq<int>>, bound: nat, later: nat)
    requires QuietFrom(segs, bound) && bound <= later
    ensures QuietFrom(segs, later)
  {
  }

  lemma QuietSegment(segs: seq<seq<int>>, bound: nat, g: nat, frame: nat, nav: nat)
    requires QuietFrom(segs, bound) && bound <= g
    ensures SegmentEntries(segs, g, frame, nav) == []
  {
  }

  lemma {:induction false} NavAgree(a: seq<seq<int>>, b: seq<seq<int>>, bound: int, frameSize: nat, frame: nat, n: nat)
    requires ClosedAgree(a, b, bound) && Slot(frame, n, frameSize) <= bound
    ensures NavEntries(a, frameSize, frame, n) == NavEntries(b, frameSize, frame, n)
    decreases n
  {
    if n > 0 {
      NavAgree(a, b, bound, frameSize, frame, n - 1);
      var g := Slot(frame, n - 1, frameSize);
      assert g + 1 < |a| && g + 1 < |b| && a[g] == b[g];
    }
  }

  lemma {:induction false} FramesAgree(a: seq<seq<int>>, b: seq<seq<int>>, bound: int, frameSize: nat,
                                       firstFrame: nat, lastFrame: nat)
    requires ClosedAgree(a, b, bound) && Mul(lastFrame, frameSize) <= bound
    ensures FramesEntries(a, frameSize, firstFrame, lastFrame) == FramesEntries(b, frameSize, firstFrame, lastFrame)
    decreases lastFrame
  {
    if lastFrame > firstFrame {
      FramesAgree(a, b, bound, frameSize, firstFrame, lastFrame - 1);
      NavAgree(a, b, bound, frameSize, lastFrame - 1, frameSize);
    }
  }

  lemma {:induction false} NavQuiet(segs: seq<seq<int>>, frameSize: nat, frame: nat, lo: nat, n: nat)
    requires QuietFrom(segs, Slot(frame, lo, frameSize)) && lo <= n
    ensures NavEntries(segs, frameSize, frame, n) == NavEntries(segs, frameSize, frame, lo)
    decreases n
  {
    if n > lo {
      NavQuiet(segs, frameSize, frame, lo, n - 1);
      QuietSegment(segs, Slot(frame, lo, frameSize), Slot(frame, n - 1, frameSize), frame, n - 1);
    }
  }

  lemma {:induction false} MulMonotoneSlots(a: nat, b: nat, size: nat)
    requires a <= b
    ensures Mul(a, size) <= Mul(b, size)
    decreases b
  {
    if a < b {
      MulMonotoneSlots(a, b - 1, size);
    }
  }

  lemma {:induction false} FramesQuiet(segs: seq<seq<int>>, frameSize: nat, firstFrame: nat, lo: nat, lastFrame: nat)
    requires QuietFrom(segs, Mul(lo, frameSize)) && lo <= lastFrame
    ensures FramesEntries(segs, frameSize, firstFrame, lastFrame) == FramesEntries(segs, frameSize, firstFrame, lo)
    decreases lastFrame
  {
    if lastFrame > lo {
      forall m: nat | m == lastFrame - 1
        ensures FramesEntries(segs, frameSize, firstFrame, m) == FramesEntries(segs, frameSize, firstFrame, lo)
        ensures FramesEntries(segs, frameSize, firstFrame, lastFrame) == FramesEntries(segs, frameSize, firstFrame, m)
      {
        FramesQuiet(segs, frameSize, firstFrame, lo, m);
        FramesQuietStep(segs, frameSize, firstFrame, lo, m, lastFrame);
      }
    }
  }

  /** A frame that starts at or after a quiet bound adds no entries. */
  lemma FramesQuietStep(segs: seq<seq<int>>, frameSize: nat, firstFrame: nat, lo: nat, frame: nat, next: nat)
    requires QuietFrom(segs, Mul(lo, frameSize)) && lo <= frame && next == frame + 1
    ensures FramesEntries(segs, frameSize, firstFrame, next) == FramesEntries(segs, frameSize, firstFrame, frame)
  {
    if frame >= firstFrame {
      assert NavEntries(segs, frameSize, frame, frameSize) == [] by {
        MulMonotoneSlots(lo, frame, frameSize);
        assert Slot(frame, 0, frameSize) == Mul(frame, frameSize);
        QuietLater(segs, Mul(lo, frameSize), Slot(frame, 0, frameSize));
        NavQuiet(segs, frameSize, frame, 0, frameSize);
      }
      FramesStep(segs, frameSize, firstFrame, frame, next);
    }
  }

  /** When nothing after segment n contributes, the entries are those of the
      segments before n followed by those of n, visited at (frame, nav). */
  lemma Decompose(segs: seq<seq<int>>, frameSize: nat, firstFrame: nat, lastFrame: nat, frame: nat, nav: nat)
    requires nav < frameSize && firstFrame <= frame < lastFrame
    requires QuietFrom(segs, Slot(frame, nav, frameSize) + 1)
    ensures FramesEntries(segs, frameSize, firstFrame, lastFrame) ==
      FramesEntries(segs, frameSize, firstFrame, frame) + NavEntries(segs, frameSize, frame, nav) +
      SegmentEntries(segs, Slot(frame, nav, frameSize), frame, nav)
  {
    DecomposeFrames(segs, frameSize, firstFrame, lastFrame, frame, nav);
    DecomposeNav(segs, frameSize, frame, nav);
    var a := FramesEntries(segs, frameSize, firstFrame, frame);
    var c := NavEntries(segs, frameSize, frame, nav);
    var d := SegmentEntries(segs, Slot(frame, nav, frameSize), frame, nav);
    ConcatAssoc(a, c, d);
  }

  /** The frames after the current one contribute nothing. */
  lemma DecomposeFrames(segs: seq<seq<int>>, frameSize: nat, firstFrame: nat, lastFrame: nat, frame: nat, nav: nat)
    requires nav < frameSize && firstFrame <= frame < lastFrame
    requires QuietFrom(segs, Slot(frame, nav, frameSize) + 1)
    ensures FramesEntries(segs, frameSize, firstFrame, lastFrame) ==
      FramesEntries(segs, frameSize, firstFrame, frame) + NavEntries(segs, frameSize, frame, frameSize)
  {
    var next := frame + 1;
    assert QuietFrom(segs, Mul(next, frameSize)) by {
      NextFrameStart(frame, next, nav, frameSize);
      QuietLater(segs, Slot(frame, nav, frameSize) + 1, Mul(next, frameSize));
    }
    FramesQuiet(segs, frameSize, firstFrame, next, lastFrame);
    FramesStep(segs, frameSize, firstFrame, frame, next);
  }

  lemma NextFrameStart(frame: nat, next: nat, nav: nat, frameSize: nat)
    requires next == frame + 1 && nav < frameSize
    ensures Slot(frame, nav, frameSize) + 1 <= Mul(next, frameSize)
  {
  }

  lemma FramesStep(segs: seq<seq<int>>, frameSize: nat, firstFrame: nat, frame: nat, next: nat)
    requires firstFrame <= frame && next == frame + 1
    ensures FramesEntries(segs, frameSize, firstFrame, next) ==
      FramesEntries(segs, frameSize, firstFrame, frame) + NavEntries(segs, frameSize, frame, frameSize)
  {
  }

  /** The positions after the current one contribute nothing. */
  lemma DecomposeNav(segs: seq<seq<int>>, frameSize: nat, frame: nat, nav: nat)
    requires nav < frameSize
    requires QuietFrom(segs, Slot(frame, nav, frameSize) + 1)
    ensures NavEntries(segs, frameSize, frame, frameSize) ==
      NavEntries(segs, frameSize, frame, nav) + SegmentEntries(segs, Slot(frame, nav, frameSize), frame, nav)
  {
    assert Slot(frame, nav + 1, frameSize) == Slot(frame, nav, frameSize) + 1;
    NavQuiet(segs, frameSize, frame, nav + 1, frameSize);
  }

  /** Segments before the first kept frame contribute nothing. */
  lemma Silent(segs: seq<seq<int>>, frameSize: nat, firstFrame: nat, lastFrame: nat)
    requires QuietFrom(segs, Mul(firstFrame, frameSize))
    ensures FramesEntries(segs, frameSize, firstFrame, lastFrame) == []
  {
    if firstFrame <= lastFrame {
      FramesQuiet(segs, frameSize, firstFrame, firstFrame, lastFrame);
    }
  }

  // -------------------------------------------------------- stream steps

  /** The segment the cursor is in: the values after the last sentinel. */
  function Current(s: seq<int>): seq<int>
  {
    var segs := Segments(s);
    segs[|segs| - 1]
  }

  /** The entries written out before segment Slot(frame, nav, frameSize). */
  function Before(segs: seq<seq<int>>, frameSize: nat, firstFrame: nat, frame: nat, nav: nat): seq<Entry>
  {
    FramesEntries(segs, frameSize, firstFrame, frame) + NavEntries(segs, frameSize, frame, nav)
  }

  /** Two segment lists that agree on the closed segments below n and have
      nothing after n differ in their entries only by what segment n gives. */
  lemma ReplaceCurrent(a: seq<seq<int>>, b: seq<seq<int>>, frameSize: nat, firstFrame: nat, lastFrame: nat,
                       frame: nat, nav: nat)
    requires nav < frameSize && firstFrame <= frame < lastFrame
    requires ClosedAgree(a, b, Slot(frame, nav, frameSize))
    requires QuietFrom(a, Slot(frame, nav, frameSize) + 1) && QuietFrom(b, Slot(frame, nav, frameSize) + 1)
    ensures FramesEntries(a, frameSize, firstFrame, lastFrame) ==
      Before(a, frameSize, firstFrame, frame, nav) + SegmentEntries(a, Slot(frame, nav, frameSize), frame, nav)
    ensures FramesEntries(b, frameSize, firstFrame, lastFrame) ==
      Before(a, frameSize, firstFrame, frame, nav) + SegmentEntries(b, Slot(frame, nav, frameSize), frame, nav)
  {
    Decompose(a, frameSize, firstFrame, lastFrame, frame, nav);
    Decompose(b, frameSize, firstFrame, lastFrame, frame, nav);
    FramesAgree(a, b, Slot(frame, nav, frameSize), frameSize, firstFrame, frame);
    NavAgree(a, b, Slot(frame, nav, frameSize), frameSize, frame, nav);
  }

  /** The entries a count value adds to the open segment cur, visited at (frame, nav). */
  function ValueEmits(cur: seq<int>, v: int, frame: nat, nav: nat): seq<Entry>
  {
    if cur != [] && OpenChannel(cur) != v then [Entry(frame, nav, Run(OpenChannel(cur), OpenCount(cur)))] else []
  }

  /** The entries a sentinel adds when it closes the open segment cur. */
  function SentinelEmits(cur: seq<int>, frame: nat, nav: nat): seq<Entry>
  {
    if cur != [] then [Entry(frame, nav, Run(OpenChannel(cur), OpenCount(cur)))] else []
  }

  lemma ValueSegment(cur: seq<int>, v: int, frame: nat, nav: nat)
    ensures RunEntries(ClosedRuns(cur + [v]), frame, nav) ==
      RunEntries(ClosedRuns(cur), frame, nav) + ValueEmits(cur, v, frame, nav)
  {
    RunsSnoc(cur, v);
    OpenRun(cur);
    if cur != [] && OpenChannel(cur) != v {
      RunEntriesSnoc(ClosedRuns(cur), Run(OpenChannel(cur), OpenCount(cur)), frame, nav);
    }
  }

  lemma SentinelSegment(cur: seq<int>, frame: nat, nav: nat)
    ensures RunEntries(RunsOf(cur), frame, nav) == RunEntries(ClosedRuns(cur), frame, nav) + SentinelEmits(cur, frame, nav)
  {
    OpenRun(cur);
    if cur != [] {
      RunEntriesSnoc(ClosedRuns(cur), Run(OpenChannel(cur), OpenCount(cur)), frame, nav);
    }
  }

  /** A count value on segment lists: segment n grows by v. */
  lemma ValueLists(segs: seq<seq<int>>, segs': seq<seq<int>>, v: int, frameSize: nat, firstFrame: nat,
                   lastFrame: nat, frame: nat, nav: nat)
    requires nav < frameSize && firstFrame <= frame < lastFrame
    requires Slot(frame, nav, frameSize) == |segs| - 1 && |segs'| == |segs|
    requires forall g :: 0 <= g < |segs| - 1 ==> segs'[g] == segs[g]
    requires segs'[|segs| - 1] == segs[|segs| - 1] + [v]
    ensures FramesEntries(segs', frameSize, firstFrame, lastFrame) ==
      FramesEntries(segs, frameSize, firstFrame, lastFrame) + ValueEmits(segs[|segs| - 1], v, frame, nav)
  {
    var n := |segs| - 1;
    ReplaceCurrent(segs, segs', frameSize, firstFrame, lastFrame, frame, nav);
    ValueSegment(segs[n], v, frame, nav);
    var before := Before(segs, frameSize, firstFrame, frame, nav);
    var old' := RunEntries(ClosedRuns(segs[n]), frame, nav);
    ConcatAssoc(before, old', ValueEmits(segs[n], v, frame, nav));
  }

  /** A sentinel on segment lists: segment n is closed and an empty one follows. */
  lemma SentinelLists(segs: seq<seq<int>>, segs': seq<seq<int>>, frameSize: nat, firstFrame: nat,
                      lastFrame: nat, frame: nat, nav: nat)
    requires nav < frameSize && firstFrame <= frame < lastFrame
    requires Slot(frame, nav, frameSize) == |segs| - 1 && segs' == segs + [[]]
    ensures FramesEntries(segs', frameSize, firstFrame, lastFrame) ==
      FramesEntries(segs, frameSize, firstFrame, lastFrame) + SentinelEmits(segs[|segs| - 1], frame, nav)
  {
    var n := |segs| - 1;
    assert RunsOf([]) == [];
    assert segs'[n + 1] == [];
    ReplaceCurrent(segs, segs', frameSize, firstFrame, lastFrame, frame, nav);
    SentinelSegment(segs[n], frame, nav);
    var before := Before(segs, frameSize, firstFrame, frame, nav);
    var old' := RunEntries(ClosedRuns(segs[n]), frame, nav);
    ConcatAssoc(before, old', SentinelEmits(segs[n], frame, nav));
  }

  /** A count value in a kept frame extends the current segment; if it opens a
      new run, the run it completes is the one new entry. */
  lemma ValueStep(p: seq<int>, v: int, frameSize: nat, firstFrame: nat, lastFrame: nat, frame: nat, nav: nat)
    requires v != SENTINEL && nav < frameSize && firstFrame <= frame < lastFrame
    requires Slot(frame, nav, frameSize) == |Segments(p)| - 1
    ensures |Segments(p + [v])| == |Segments(p)| && Current(p + [v]) == Current(p) + [v]
    ensures Entries(p + [v], frameSize, firstFrame, lastFrame) ==
      Entries(p, frameSize, firstFrame, lastFrame) + ValueEmits(Current(p), v, frame, nav)
  {
    SegmentsAppendValue(p, v);
    ValueLists(Segments(p), Segments(p + [v]), v, frameSize, firstFrame, lastFrame, frame, nav);
  }

  /** A sentinel in a kept frame closes the current segment: the run still
      open, if any, is the one new entry. */
  lemma SentinelStep(p: seq<int>, frameSize: nat, firstFrame: nat, lastFrame: nat, frame: nat, nav: nat)
    requires nav < frameSize && firstFrame <= frame < lastFrame
    requires Slot(frame, nav, frameSize) == |Segments(p)| - 1
    ensures |Segments(p + [SENTINEL])| == |Segments(p)| + 1 && Current(p + [SENTINEL]) == []
    ensures Entries(p + [SENTINEL], frameSize, firstFrame, lastFrame) ==
      Entries(p, frameSize, firstFrame, lastFrame) + SentinelEmits(Current(p), frame, nav)
  {
    SegmentsAppendSentinel(p);
    SentinelLists(Segments(p), Segments(p + [SENTINEL]), frameSize, firstFrame, lastFrame, frame, nav);
  }

  /** Before the first kept frame nothing has been written out, whatever comes. */
  lemma SkipStep(p: seq<int>, v: int, frameSize: nat, firstFrame: nat, lastFrame: nat, frame: nat, nav: nat)
    requires nav < frameSize && frame < firstFrame
    requires Slot(frame, nav, frameSize) == |Segments(p)| - 1
    ensures |Segments(p + [v])| == |Segments(p)| + (if v == SENTINEL then 1 else 0)
    ensures v == SENTINEL ==> Current(p + [v]) == []
    ensures Entries(p + [v], frameSize, firstFrame, lastFrame) == []
  {
    var segs' := Segments(p + [v]);
    MulBelow(frame, nav, firstFrame, frameSize);
    if v == SENTINEL {
      SegmentsAppendSentinel(p);
      assert RunsOf([]) == [];
      if nav + 1 < frameSize {
        MulBelow(frame, nav + 1, firstFrame, frameSize);
      } else {
        assert Mul(frame + 1, frameSize) == Mul(frame, frameSize) + frameSize;
        MulMonotoneSlots(frame + 1, firstFrame, frameSize);
      }
    } else {
      SegmentsAppendValue(p, v);
    }
    Silent(segs', frameSize, firstFrame, lastFrame);
  }

  /** Once the stream has reached the first pixel after the last kept frame,
      the rest of it changes no entry. */
  lemma StopStep(s: seq<int>, i: nat, frameSize: nat, firstFrame: nat, lastFrame: nat)
    requires i <= |s| && Mul(lastFrame, frameSize) <= |Segments(s[..i])| - 1
    ensures Entries(s, frameSize, firstFrame, lastFrame) == Entries(s[..i], frameSize, firstFrame, lastFrame)
  {
    SegmentsPrefix(s, i);
    FramesAgree(Segments(s), Segments(s[..i]), |Segments(s[..i])| - 1, frameSize, firstFrame, lastFrame);
  }

  // -------------------------------------------------------------- builders

  /** The cursor and run state the builders keep, described by the stream
      read so far: the cursor is at the current segment; before the first
      kept frame no run is open; from it on, the open run is the last run of
      the current segment, which is empty while the cursor waits at the end
      of a frame. */
  ghost predicate BuilderState(p: seq<int>, frameSize: nat, firstFrame: nat, lastFrame: nat,
                               frameNumber: nat, navigationIndex: nat, count: nat, countChannel: int)
  {
    frameNumber < lastFrame && navigationIndex <= frameSize &&
    Slot(frameNumber, navigationIndex, frameSize) == |Segments(p)| - 1 &&
    (frameNumber < firstFrame ==> navigationIndex < frameSize && count == 0) &&
    (firstFrame <= frameNumber ==>
      (navigationIndex == frameSize ==> Current(p) == []) &&
      count == OpenCount(Current(p)) && (count != 0 ==> countChannel == OpenChannel(Current(p))))
  }

  /** The entry a complete run of count values countChannel at (frame, nav)
      gives, when there is one. */
  function Emitted(emit: bool, frame: nat, nav: nat, countChannel: int, count: nat): seq<Entry>
  {
    if emit then [Entry(frame, nav, Run(countChannel, count))] else []
  }

  lemma StartState(frameSize: nat, firstFrame: nat, lastFrame: nat)
    requires frameSize > 0 && firstFrame < lastFrame
    ensures BuilderState([], frameSize, firstFrame, lastFrame, 0, 0, 0, 0)
    ensures Entries([], frameSize, firstFrame, lastFrame) == []
  {
    assert Segments([]) == [[]];
    assert RunsOf([]) == [];
    Silent(Segments([]), frameSize, firstFrame, lastFrame);
  }

  /** Before the first kept frame only sentinels matter: they move the
      cursor, wrapping it at once at the end of a frame. */
  lemma SkipState(p: seq<int>, v: int, frameSize: nat, firstFrame: nat, lastFrame: nat,
                  frameNumber: nat, navigationIndex: nat, count: nat, countChannel: int)
    requires firstFrame < lastFrame && frameNumber < firstFrame
    requires BuilderState(p, frameSize, firstFrame, lastFrame, frameNumber, navigationIndex, count, countChannel)
    ensures var nav := if v == SENTINEL then navigationIndex + 1 else navigationIndex;
      var frame' := if nav == frameSize then frameNumber + 1 else frameNumber;
      var nav' := if nav == frameSize then 0 else nav;
      BuilderState(p + [v], frameSize, firstFrame, lastFrame, frame', nav', count, countChannel) &&
      Entries(p + [v], frameSize, firstFrame, lastFrame) == []
  {
    SkipStep(p, v, frameSize, firstFrame, lastFrame, frameNumber, navigationIndex);
    assert RunsOf([]) == [];
    assert Mul(frameNumber + 1, frameSize) == Mul(frameNumber, frameSize) + frameSize;
  }

  /** At the end of a frame the cursor wraps to the next frame; when that is
      lastFrame, the stream read so far has reached the first segment after
      the kept frames. */
  lemma WrapState(p: seq<int>, frameSize: nat, firstFrame: nat, lastFrame: nat,
                  frameNumber: nat, count: nat, countChannel: int)
    requires firstFrame <= frameNumber
    requires BuilderState(p, frameSize, firstFrame, lastFrame, frameNumber, frameSize, count, countChannel)
    ensures Mul(frameNumber + 1, frameSize) == |Segments(p)| - 1
    ensures frameNumber + 1 < lastFrame ==>
      BuilderState(p, frameSize, firstFrame, lastFrame, frameNumber + 1, 0, count, countChannel)
  {
    assert Mul(frameNumber + 1, frameSize) == Mul(frameNumber, frameSize) + frameSize;
  }

  /** A count value in a kept frame lengthens the open run or opens a new one,
      completing the old run. */
  lemma ValueState(p: seq<int>, v: int, frameSize: nat, firstFrame: nat, lastFrame: nat,
                   frameNumber: nat, navigationIndex: nat, count: nat, countChannel: int)
    requires v != SENTINEL && firstFrame <= frameNumber && navigationIndex < frameSize
    requires BuilderState(p, frameSize, firstFrame, lastFrame, frameNumber, navigationIndex, count, countChannel)
    ensures var same := count != 0 && v == countChannel;
      BuilderState(p + [v], frameSize, firstFrame, lastFrame, frameNumber, navigationIndex,
                   if same then count + 1 else 1, v) &&
      Entries(p + [v], frameSize, firstFrame, lastFrame) == Entries(p, frameSize, firstFrame, lastFrame) +
        Emitted(count != 0 && v != countChannel, frameNumber, navigationIndex, countChannel, count)
  {
    ValueStep(p, v, frameSize, firstFrame, lastFrame, frameNumber, navigationIndex);
    RunsSnoc(Current(p), v);
    OpenRun(Current(p));
  }

  /** A sentinel in a kept frame completes the open run, if any, and moves
      the cursor to the next raster position. */
  lemma SentinelState(p: seq<int>, frameSize: nat, firstFrame: nat, lastFrame: nat,
                      frameNumber: nat, navigationIndex: nat, count: nat, countChannel: int)
    requires firstFrame <= frameNumber && navigationIndex < frameSize
    requires BuilderState(p, frameSize, firstFrame, lastFrame, frameNumber, navigationIndex, count, countChannel)
    ensures BuilderState(p + [SENTINEL], frameSize, firstFrame, lastFrame, frameNumber, navigationIndex + 1, 0,
                         countChannel)
    ensures Entries(p + [SENTINEL], frameSize, firstFrame, lastFrame) == Entries(p, frameSize, firstFrame, lastFrame) +
      Emitted(count != 0, frameNumber, navigationIndex, countChannel, count)
  {
    SentinelStep(p, frameSize, firstFrame, lastFrame, frameNumber, navigationIndex);
    OpenRun(Current(p));
    assert RunsOf([]) == [];
  }

  /** The loop state of both builders: cursor, open run, whether the loop has
      stopped, and the entries written out so far. */
  datatype Builder = Builder(frame: nat, nav: nat, count: nat, channel: int, stopped: bool, entries: seq<Entry>)

  /** A value read while skipping the frames before the first kept one: only
      sentinels move the cursor, which wraps at once at the end of a frame. */
  function Skip(b: Builder, v: int, frameSize: nat): Builder
  {
    if v != SENTINEL then b
    else if b.nav + 1 == frameSize then b.(frame := b.frame + 1, nav := 0)
    else b.(nav := b.nav + 1)
  }

  /** A value read inside a kept frame: a value extends or replaces the open
      run, a sentinel closes the pixel; a run that ends is written out. */
  function Take(c: Builder, v: int): Builder
  {
    var e := Entry(c.frame, c.nav, Run(c.channel, c.count));
    if v != SENTINEL then
      if c.count != 0 && v == c.channel then c.(count := c.count + 1)
      else if c.count != 0 then c.(entries := c.entries + [e], count := 1, channel := v)
      else c.(count := 1, channel := v)
    else if c.count != 0 then c.(entries := c.entries + [e], nav := c.nav + 1, count := 0)
    else c.(nav := c.nav + 1, count := 0)
  }

  /** One iteration of the builders' loop on value v. */
  function BuildStep(b: Builder, v: int, frameSize: nat, firstFrame: nat, lastFrame: nat): Builder
  {
    if b.stopped then b
    else if b.frame < firstFrame then Skip(b, v, frameSize)
    else if b.nav == frameSize && b.frame + 1 == lastFrame then b.(stopped := true)
    else if b.nav == frameSize then Take(b.(frame := b.frame + 1, nav := 0), v)
    else Take(b, v)
  }

  /** The builders' loop state after reading s. */
  function Build(s: seq<int>, frameSize: nat, firstFrame: nat, lastFrame: nat): Builder
    decreases |s|
  {
    if s == [] then Builder(0, 0, 0, 0, false, [])
    else BuildStep(Build(s[..|s| - 1], frameSize, firstFrame, lastFrame), s[|s| - 1], frameSize, firstFrame, lastFrame)
  }

  lemma BuildUnfold(p: seq<int>, v: int, frameSize: nat, firstFrame: nat, lastFrame: nat)
    ensures Build(p + [v], frameSize, firstFrame, lastFrame) ==
      BuildStep(Build(p, frameSize, firstFrame, lastFrame), v, frameSize, firstFrame, lastFrame)
  {
    assert (p + [v])[..|p|] == p;
  }

  /** Once stopped, the loop state no longer changes. */
  lemma BuildNext(s: seq<int>, i: nat, frameSize: nat, firstFrame: nat, lastFrame: nat)
    requires i < |s|
    ensures Build(s[..i + 1], frameSize, firstFrame, lastFrame) ==
      BuildStep(Build(s[..i], frameSize, firstFrame, lastFrame), s[i], frameSize, firstFrame, lastFrame)
  {
    assert s[..i + 1] == s[..i] + [s[i]];
    BuildUnfold(s[..i], s[i], frameSize, firstFrame, lastFrame);
  }

  lemma {:induction false} BuildStopped(s: seq<int>, i: nat, frameSize: nat, firstFrame: nat, lastFrame: nat)
    requires i <= |s| && Build(s[..i], frameSize, firstFrame, lastFrame).stopped
    ensures Build(s, frameSize, firstFrame, lastFrame) == Build(s[..i], frameSize, firstFrame, lastFrame)
    decreases |s| - i
  {
    if i < |s| {
      assert s[..i + 1] == s[..i] + [s[i]];
      BuildUnfold(s[..i], s[i], frameSize, firstFrame, lastFrame);
      BuildStopped(s, i + 1, frameSize, firstFrame, lastFrame);
    } else {
      assert s[..i] == s;
    }
  }

  /** What the loop state means: while running, BuilderState describes it;
      once stopped, the stream read has passed the kept frames; in either
      case the entries written out are the specified ones. */
  ghost predicate BuildMeans(s: seq<int>, b: Builder, frameSize: nat, firstFrame: nat, lastFrame: nat)
  {
    b.entries == Entries(s, frameSize, firstFrame, lastFrame) &&
    (b.stopped ==> Mul(lastFrame, frameSize) <= |Segments(s)| - 1) &&
    (!b.stopped && b.frame < firstFrame ==> b.entries == []) &&
    (!b.stopped ==> BuilderState(s, frameSize, firstFrame, lastFrame, b.frame, b.nav, b.count, b.channel))
  }

  lemma {:induction false} BuildMeaning(s: seq<int>, frameSize: nat, firstFrame: nat, lastFrame: nat)
    requires frameSize > 0 && firstFrame < lastFrame
    ensures BuildMeans(s, Build(s, frameSize, firstFrame, lastFrame), frameSize, firstFrame, lastFrame)
    decreases |s|
  {
    if s == [] {
      StartState(frameSize, firstFrame, lastFrame);
    } else {
      var p, v := s[..|s| - 1], s[|s| - 1];
      assert s == p + [v];
      BuildMeaning(p, frameSize, firstFrame, lastFrame);
      BuildUnfold(p, v, frameSize, firstFrame, lastFrame);
      MeaningStep(p, v, Build(p, frameSize, firstFrame, lastFrame), frameSize, firstFrame, lastFrame);
    }
  }

  lemma MeaningStep(p: seq<int>, v: int, b: Builder, frameSize: nat, firstFrame: nat, lastFrame: nat)
    requires frameSize > 0 && firstFrame < lastFrame
    requires BuildMeans(p, b, frameSize, firstFrame, lastFrame)
    ensures BuildMeans(p + [v], BuildStep(b, v, frameSize, firstFrame, lastFrame), frameSize, firstFrame, lastFrame)
  {
    var r := BuildStep(b, v, frameSize, firstFrame, lastFrame);
    if b.stopped {
      assert r == b;
      PastKept(p, v, frameSize, firstFrame, lastFrame);
      assert BuildMeans(p + [v], r, frameSize, firstFrame, lastFrame);
    } else if b.frame < firstFrame {
      assert r == Skip(b, v, frameSize);
      SkipMeans(p, v, b, frameSize, firstFrame, lastFrame);
      assert BuildMeans(p + [v], r, frameSize, firstFrame, lastFrame);
    } else if b.nav == frameSize && b.frame + 1 == lastFrame {
      assert r == b.(stopped := true);
      StopMeans(p, v, b, frameSize, firstFrame, lastFrame);
      assert BuildMeans(p + [v], r, frameSize, firstFrame, lastFrame);
    } else if b.nav == frameSize {
      var c := b.(frame := b.frame + 1, nav := 0);
      assert r == Take(c, v);
      WrapState(p, frameSize, firstFrame, lastFrame, b.frame, b.count, b.channel);
      TakeMeans(p, v, c, frameSize, firstFrame, lastFrame);
      assert BuildMeans(p + [v], r, frameSize, firstFrame, lastFrame);
    } else {
      assert r == Take(b, v);
      TakeMeans(p, v, b, frameSize, firstFrame, lastFrame);
      assert BuildMeans(p + [v], r, frameSize, firstFrame, lastFrame);
    }
  }

  lemma StopMeans(p: seq<int>, v: int, b: Builder, frameSize: nat, firstFrame: nat, lastFrame: nat)
    requires firstFrame < lastFrame && !b.stopped && firstFrame <= b.frame
    requires b.nav == frameSize && b.frame + 1 == lastFrame
    requires BuildMeans(p, b, frameSize, firstFrame, lastFrame)
    ensures BuildMeans(p + [v], b.(stopped := true), frameSize, firstFrame, lastFrame)
  {
    WrapState(p, frameSize, firstFrame, lastFrame, b.frame, b.count, b.channel);
    PastKept(p, v, frameSize, firstFrame, lastFrame);
  }

  lemma SkipMeans(p: seq<int>, v: int, b: Builder, frameSize: nat, firstFrame: nat, lastFrame: nat)
    requires firstFrame < lastFrame && !b.stopped && b.frame < firstFrame
    requires BuildMeans(p, b, frameSize, firstFrame, lastFrame)
    ensures BuildMeans(p + [v], Skip(b, v, frameSize), frameSize, firstFrame, lastFrame)
  {
    SkipState(p, v, frameSize, firstFrame, lastFrame, b.frame, b.nav, b.count, b.channel);
    var nav := if v == SENTINEL then b.nav + 1 else b.nav;
    var next := Skip(b, v, frameSize);
    assert next == b.(frame := if nav == frameSize then b.frame + 1 else b.frame,
                      nav := if nav == frameSize then 0 else nav);
  }

  lemma TakeMeans(p: seq<int>, v: int, c: Builder, frameSize: nat, firstFrame: nat, lastFrame: nat)
    requires !c.stopped && firstFrame <= c.frame && c.nav < frameSize
    requires c.entries == Entries(p, frameSize, firstFrame, lastFrame)
    requires BuilderState(p, frameSize, firstFrame, lastFrame, c.frame, c.nav, c.count, c.channel)
    ensures BuildMeans(p + [v], Take(c, v), frameSize, firstFrame, lastFrame)
  {
    if v != SENTINEL {
      ValueState(p, v, frameSize, firstFrame, lastFrame, c.frame, c.nav, c.count, c.channel);
    } else {
      SentinelState(p, frameSize, firstFrame, lastFrame, c.frame, c.nav, c.count, c.channel);
    }
  }

  /** Past the kept frames a value changes no entry. */
  lemma PastKept(p: seq<int>, v: int, frameSize: nat, firstFrame: nat, lastFrame: nat)
    requires Mul(lastFrame, frameSize) <= |Segments(p)| - 1
    ensures Mul(lastFrame, frameSize) <= |Segments(p + [v])| - 1
    ensures Entries(p + [v], frameSize, firstFrame, lastFrame) == Entries(p, frameSize, firstFrame, lastFrame)
  {
    assert (p + [v])[..|p|] == p;
    SegmentsPrefix(p + [v], |p|);
    StopStep(p + [v], |p|, frameSize, firstFrame, lastFrame);
  }

  /** The part of both builders' loop body that reads a value inside a kept
      frame (the cursor already wrapped): a value equal to the open run's
      lengthens it, another value completes it and opens a new run, a
      sentinel completes it and moves the cursor to the next pixel. `emit`
      says whether the open run (channel, count) was completed and must be
      written out. */
  method TakeValue(frame: nat, nav: nat, count: nat, channel: int, ghost entries: seq<Entry>, value: int)
    returns (nav': nat, count': nat, channel': int, emit: bool)
    ensures Take(Builder(frame, nav, count, channel, false, entries), value) ==
      Builder(frame, nav', count', channel', false,
              if emit then entries + [Entry(frame, nav, Run(channel, count))] else entries)
    ensures emit ==> count != 0
  {
    nav', count', channel', emit := nav, count, channel, false;
    if value != SENTINEL {
      if count != 0 {
        if value == channel {
          count' := count + 1;
        } else {
          emit := true;
          count' := 1;
          channel' := value;
        }
      } else {
        count' := 1;
        channel' := value;
      }
    } else {
      if count != 0 {
        emit := true;
      }
      nav' := nav + 1;
      count' := 0;
    }
  }

  /** _stream_to_sparse_COO_array_sum_frames: the coordinates (row, column,
      rebinned channel) and lengths of the runs of every pixel of the kept
      frames, and the shape of the summed cube. */
  method SparseSumFrames(streamData: seq<int>, lastFrame: nat, height: nat, width: nat, channels: nat,
                         rebin: nat, firstFrame: nat)
    returns (coords: seq<(int, int, int)>, data: seq<int>, finalShape: (int, int, int))
    requires height * width > 0 && rebin >= 1 && firstFrame < lastFrame
    ensures coords == Coords3(Entries(streamData, height * width, firstFrame, lastFrame), width, rebin)
    ensures data == Values(Entries(streamData, height * width, firstFrame, lastFrame))
    ensures |coords| == |data|
    ensures finalShape == (height, width, channels / rebin)
  {
    var navigationIndex: nat := 0;
    var frameNumber: nat := 0;
    var frameSize := height * width;
    var dataList: seq<int> := [];
    coords := [];
    var count: nat := 0;          // the length of the open run
    var countChannel: int := 0;   // its value; read only while count != 0
    ghost var entries: seq<Entry> := [];
    for i := 0 to |streamData|
      invariant Build(streamData[..i], frameSize, firstFrame, lastFrame) ==
        Builder(frameNumber, navigationIndex, count, countChannel, false, entries)
      invariant coords == Coords3(entries, width, rebin) && dataList == Values(entries)
    {
      var value := streamData[i];
      BuildNext(streamData, i, frameSize, firstFrame, lastFrame);
      if frameNumber < firstFrame {
        if value != SENTINEL {
          continue;
        }
        navigationIndex := navigationIndex + 1;
        if navigationIndex == frameSize {
          frameNumber := frameNumber + 1;
          navigationIndex := 0;
        }
        continue;
      }
      // at the end of a frame the raster cursor goes back to 0
      if navigationIndex == frameSize {
        navigationIndex := 0;
        frameNumber := frameNumber + 1;
        if frameNumber == lastFrame {
          BuildStopped(streamData, i + 1, frameSize, firstFrame, lastFrame);
          break;
        }
      }
      assert Build(streamData[..i + 1], frameSize, firstFrame, lastFrame) ==
        Take(Builder(frameNumber, navigationIndex, count, countChannel, false, entries), value);
      var e := Entry(frameNumber, navigationIndex, Run(countChannel, count));
      var emit: bool;
      navigationIndex, count, countChannel, emit := TakeValue(frameNumber, navigationIndex, count, countChannel, entries, value);
      if emit {
        // the run just completed: its coordinate tuple and its length
        coords := coords + [Coord3(e, width, rebin)];
        dataList := dataList + [e.run.count];
        EmitSnoc3(entries, e, width, rebin);
        entries := entries + [e];
      }
    }
    assert entries == Entries(streamData, frameSize, firstFrame, lastFrame) by {
      assert streamData[..|streamData|] == streamData;
      BuildMeaning(streamData, frameSize, firstFrame, lastFrame);
    }
    data := dataList;
    finalShape := (height, width, channels / rebin);
  }

  /** _stream_to_sparse_COO_array: the coordinates (kept frame, row, column,
      rebinned channel) and lengths of the runs of every pixel of the kept
      frames, and the shape of the per-frame cube. */
  method SparsePerFrame(streamData: seq<int>, lastFrame: nat, height: nat, width: nat, channels: nat,
                        rebin: nat, firstFrame: nat)
    returns (coords: seq<(int, int, int, int)>, data: seq<int>, finalShape: (int, int, int, int))
    requires height * width > 0 && rebin >= 1 && firstFrame < lastFrame
    ensures coords == Coords4(Entries(streamData, height * width, firstFrame, lastFrame), width, firstFrame, rebin)
    ensures data == Values(Entries(streamData, height * width, firstFrame, lastFrame))
    ensures |coords| == |data|
    ensures finalShape == (lastFrame - firstFrame, height, width, channels / rebin)
  {
    var navigationIndex: nat := 0;
    var frameNumber: nat := 0;
    var frameSize := height * width;
    var dataList: seq<int> := [];
    coords := [];
    var count: nat := 0;          // the length of the open run
    var countChannel: int := 0;   // its value; read only while count != 0
    ghost var entries: seq<Entry> := [];
    for i := 0 to |streamData|
      invariant Build(streamData[..i], frameSize, firstFrame, lastFrame) ==
        Builder(frameNumber, navigationIndex, count, countChannel, false, entries)
      invariant coords == Coords4(entries, width, firstFrame, rebin) && dataList == Values(entries)
    {
      var value := streamData[i];
      BuildNext(streamData, i, frameSize, firstFrame, lastFrame);
      if frameNumber < firstFrame {
        if value != SENTINEL {
          continue;
        }
        navigationIndex := navigationIndex + 1;
        if navigationIndex == frameSize {
          frameNumber := frameNumber + 1;
          navigationIndex := 0;
        }
        continue;
      }
      // at the end of a frame the raster cursor goes back to 0
      if navigationIndex == frameSize {
        navigationIndex := 0;
        frameNumber := frameNumber + 1;
        if frameNumber == lastFrame {
          BuildStopped(streamData, i + 1, frameSize, firstFrame, lastFrame);
          break;
        }
      }
      assert Build(streamData[..i + 1], frameSize, firstFrame, lastFrame) ==
        Take(Builder(frameNumber, navigationIndex, count, countChannel, false, entries), value);
      var e := Entry(frameNumber, navigationIndex, Run(countChannel, count));
      var emit: bool;
      navigationIndex, count, countChannel, emit := TakeValue(frameNumber, navigationIndex, count, countChannel, entries, value);
      if emit {
        // the run just completed: its coordinate tuple and its length
        coords := coords + [Coord4(e, width, firstFrame, rebin)];
        dataList := dataList + [e.run.count];
        EmitSnoc4(entries, e, width, firstFrame, rebin);
        entries := entries + [e];
      }
    }
    assert entries == Entries(streamData, frameSize, firstFrame, lastFrame) by {
      assert streamData[..|streamData|] == streamData;
      BuildMeaning(streamData, frameSize, firstFrame, lastFrame);
    }
    data := dataList;
    finalShape := (lastFrame - firstFrame, height, width, channels / rebin);
  }

  // --------------------------------------------------------------- wrapper

  /** The sparse array the wrapper builds: the COO coordinates, the data and
      the shape of the summed or of the per-frame cube. */
  datatype SparseArray =
    | Sparse3(coords3: seq<(int, int, int)>, data: seq<int>, shape3: (int, int, int))
    | Sparse4(coords4: seq<(int, int, int, int)>, data: seq<int>, shape4: (int, int, int, int))

  /** stream_to_sparse_COO_array: closes the last pixel with a sentinel, then
      runs the builder of the mode. */
  method StreamToSparse(streamData: seq<int>, height: nat, width: nat, channels: nat, lastFrame: nat,
                        rebin: nat, sumFrames: bool, firstFrame: nat)
    returns (result: SparseArray)
    requires height * width > 0 && rebin >= 1 && firstFrame < lastFrame
    ensures var es := Entries(streamData + [SENTINEL], height * width, firstFrame, lastFrame);
      if sumFrames then
        result == Sparse3(Coords3(es, width, rebin), Values(es), (height, width, channels / rebin))
      else
        result == Sparse4(Coords4(es, width, firstFrame, rebin), Values(es),
                          (lastFrame - firstFrame, height, width, channels / rebin))
  {
    var closed := streamData + [SENTINEL];
    if sumFrames {
      var coords, data, shape := SparseSumFrames(closed, lastFrame, height, width, channels, rebin, firstFrame);
      result := Sparse3(coords, data, shape);
    } else {
      var coords, data, shape := SparsePerFrame(closed, lastFrame, height, width, channels, rebin, firstFrame);
      result := Sparse4(coords, data, shape);
    }
  }
}
