/** What the sparse builders' output means: every entry is a run of a kept
    pixel, runs of one pixel are maximal, and once the stream is closed by a
    sentinel, summing the COO data at each coordinate (as the COO format
    does for repeated coordinates) gives the dense decoder's cube. */
module SparseProperties {
  import opened Arith
  import opened StreamFormat
  import opened DenseFill
  import opened SparseCoo

  // --------------------------------------------------- entries lie in the window

  /** Entry e is a run of the segment of a kept pixel it is recorded at. */
  ghost predicate EntryIn(e: Entry, segs: seq<seq<int>>, frameSize: nat, firstFrame: nat, lastFrame: nat)
  {
    firstFrame <= e.frame < lastFrame && e.nav < frameSize &&
    Slot(e.frame, e.nav, frameSize) < |segs| &&
    e.run.count >= 1 && e.run.channel in segs[Slot(e.frame, e.nav, frameSize)]
  }

  ghost predicate AllIn(es: seq<Entry>, segs: seq<seq<int>>, frameSize: nat, firstFrame: nat, lastFrame: nat)
  {
    forall j :: 0 <= j < |es| ==> EntryIn(es[j], segs, frameSize, firstFrame, lastFrame)
  }

  lemma AllInConcat(a: seq<Entry>, b: seq<Entry>, segs: seq<seq<int>>, frameSize: nat, firstFrame: nat,
                    lastFrame: nat)
    requires AllIn(a, segs, frameSize, firstFrame, lastFrame) && AllIn(b, segs, frameSize, firstFrame, lastFrame)
    ensures AllIn(a + b, segs, frameSize, firstFrame, lastFrame)
  {
    forall j | 0 <= j < |a + b|
      ensures EntryIn((a + b)[j], segs, frameSize, firstFrame, lastFrame)
    {
      if j < |a| {
        assert (a + b)[j] == a[j];
      } else {
        assert (a + b)[j] == b[j - |a|];
      }
    }
  }

  lemma SegmentIn(segs: seq<seq<int>>, frameSize: nat, firstFrame: nat, lastFrame: nat, frame: nat, nav: nat)
    requires firstFrame <= frame < lastFrame && nav < frameSize
    ensures AllIn(SegmentEntries(segs, Slot(frame, nav, frameSize), frame, nav), segs, frameSize, firstFrame, lastFrame)
  {
    var g := Slot(frame, nav, frameSize);
    if g < |segs| {
      RunsPositive(segs[g]);
      var runs := if g + 1 < |segs| then RunsOf(segs[g]) else ClosedRuns(segs[g]);
      var es := SegmentEntries(segs, g, frame, nav);
      RunEntriesAt(runs, frame, nav);
      forall j | 0 <= j < |es|
        ensures EntryIn(es[j], segs, frameSize, firstFrame, lastFrame)
      {
        assert es[j].run == runs[j];
      }
    }
  }

  lemma {:induction false} NavIn(segs: seq<seq<int>>, frameSize: nat, firstFrame: nat, lastFrame: nat,
                                 frame: nat, n: nat)
    requires firstFrame <= frame < lastFrame && n <= frameSize
    ensures AllIn(NavEntries(segs, frameSize, frame, n), segs, frameSize, firstFrame, lastFrame)
    decreases n
  {
    if n > 0 {
      forall m: nat | m == n - 1
        ensures AllIn(NavEntries(segs, frameSize, frame, m), segs, frameSize, firstFrame, lastFrame)
      {
        NavIn(segs, frameSize, firstFrame, lastFrame, frame, m);
      }
      NavInStep(segs, frameSize, firstFrame, lastFrame, frame, n);
    } else {
      assert NavEntries(segs, frameSize, frame, n) == [];
    }
  }

  lemma NavInStep(segs: seq<seq<int>>, frameSize: nat, firstFrame: nat, lastFrame: nat, frame: nat, n: nat)
    requires firstFrame <= frame < lastFrame && 0 < n <= frameSize
    requires AllIn(NavEntries(segs, frameSize, frame, n - 1), segs, frameSize, firstFrame, lastFrame)
    ensures AllIn(NavEntries(segs, frameSize, frame, n), segs, frameSize, firstFrame, lastFrame)
  {
    var nav := n - 1;
    SegmentIn(segs, frameSize, firstFrame, lastFrame, frame, nav);
    AllInConcat(NavEntries(segs, frameSize, frame, nav), SegmentEntries(segs, Slot(frame, nav, frameSize), frame, nav),
                segs, frameSize, firstFrame, lastFrame);
  }

  lemma {:induction false} FramesIn(segs: seq<seq<int>>, frameSize: nat, firstFrame: nat, lastFrame: nat,
                                    upTo: nat)
    requires upTo <= lastFrame
    ensures AllIn(FramesEntries(segs, frameSize, firstFrame, upTo), segs, frameSize, firstFrame, lastFrame)
    decreases upTo
  {
    if firstFrame < upTo {
      forall m: nat | m == upTo - 1
        ensures AllIn(FramesEntries(segs, frameSize, firstFrame, m), segs, frameSize, firstFrame, lastFrame)
        ensures AllIn(NavEntries(segs, frameSize, m, frameSize), segs, frameSize, firstFrame, lastFrame)
      {
        FramesIn(segs, frameSize, firstFrame, lastFrame, m);
        NavIn(segs, frameSize, firstFrame, lastFrame, m, frameSize);
      }
      FramesInStep(segs, frameSize, firstFrame, lastFrame, upTo);
    } else {
      assert FramesEntries(segs, frameSize, firstFrame, upTo) == [];
    }
  }

  lemma FramesInStep(segs: seq<seq<int>>, frameSize: nat, firstFrame: nat, lastFrame: nat, upTo: nat)
    requires firstFrame < upTo <= lastFrame
    requires AllIn(FramesEntries(segs, frameSize, firstFrame, upTo - 1), segs, frameSize, firstFrame, lastFrame)
    requires AllIn(NavEntries(segs, frameSize, upTo - 1, frameSize), segs, frameSize, firstFrame, lastFrame)
    ensures AllIn(FramesEntries(segs, frameSize, firstFrame, upTo), segs, frameSize, firstFrame, lastFrame)
  {
    AllInConcat(FramesEntries(segs, frameSize, firstFrame, upTo - 1),
                NavEntries(segs, frameSize, upTo - 1, frameSize), segs, frameSize, firstFrame, lastFrame);
  }

  /** Every value of a segment is a count value of the stream. */
  lemma {:induction false} SegmentValues(s: seq<int>)
    ensures forall g, v :: 0 <= g < |Segments(s)| && v in Segments(s)[g] ==> v in s && v != SENTINEL
    decreases |s|
  {
    if s != [] {
      var p := s[..|s| - 1];
      var w := s[|s| - 1];
      assert s == p + [w];
      SegmentValues(p);
      var segs, segs' := Segments(p), Segments(s);
      if w == SENTINEL {
        SegmentsAppendSentinel(p);
      } else {
        SegmentsAppendValue(p, w);
      }
      forall g, v | 0 <= g < |segs'| && v in segs'[g]
        ensures v in s && v != SENTINEL
      {
        if g < |segs| - 1 || (w == SENTINEL && g == |segs| - 1) {
          assert segs'[g] == segs[g];
        } else if w != SENTINEL {
          assert segs'[g] == segs[g] + [w];
        }
      }
    }
  }

  /** Every entry of a stream is a run of length >= 1 of a value that occurs
      in the segment of the pixel it is recorded at, which lies in the kept
      frames; so an empty pixel and a skipped frame record nothing. */
  lemma EntriesIn(s: seq<int>, frameSize: nat, firstFrame: nat, lastFrame: nat)
    ensures AllIn(Entries(s, frameSize, firstFrame, lastFrame), Segments(s), frameSize, firstFrame, lastFrame)
  {
    FramesIn(Segments(s), frameSize, firstFrame, lastFrame, lastFrame);
  }

  /** A recorded entry of a stream whose count values fit `bins` rebinned
      channels addresses a raster cell and a channel of the cube. */
  lemma EntryCell(e: Entry, s: seq<int>, height: nat, width: nat, bins: int, firstFrame: nat, lastFrame: nat,
                  rebin: nat)
    requires height * width > 0 && rebin >= 1 && ChannelsFit(s, rebin, bins)
    requires EntryIn(e, Segments(s), height * width, firstFrame, lastFrame)
    ensures 0 <= e.nav / width < height && 0 <= e.nav % width < width
    ensures 0 <= e.run.channel / rebin < bins
  {
    RowColBounds(e.nav, height, width);
    ChannelFits(s, Slot(e.frame, e.nav, height * width), e.run.channel, bins, rebin);
  }

  lemma ChannelFits(s: seq<int>, g: nat, v: int, bins: int, rebin: nat)
    requires rebin >= 1 && ChannelsFit(s, rebin, bins)
    requires g < |Segments(s)| && v in Segments(s)[g]
    ensures 0 <= v / rebin < bins
  {
    SegmentValues(s);
    assert v in s && v != SENTINEL;
  }

  /** The summed builder's coordinates lie in its cube and its data are run
      lengths of at least one. */
  lemma SumFramesInShape(s: seq<int>, height: nat, width: nat, channels: nat, firstFrame: nat, lastFrame: nat,
                         rebin: nat)
    requires height * width > 0 && rebin >= 1 && ChannelsFit(s, rebin, channels / rebin)
    ensures var es := Entries(s, height * width, firstFrame, lastFrame);
      var coords, data := Coords3(es, width, rebin), Values(es);
      forall j :: 0 <= j < |coords| ==>
        0 <= coords[j].0 < height && 0 <= coords[j].1 < width && 0 <= coords[j].2 < channels / rebin && data[j] >= 1
  {
    var es := Entries(s, height * width, firstFrame, lastFrame);
    EntriesIn(s, height * width, firstFrame, lastFrame);
    var coords, data := Coords3(es, width, rebin), Values(es);
    forall j | 0 <= j < |coords|
      ensures 0 <= coords[j].0 < height && 0 <= coords[j].1 < width && 0 <= coords[j].2 < channels / rebin
      ensures data[j] >= 1
    {
      EntryCell(es[j], s, height, width, channels / rebin, firstFrame, lastFrame, rebin);
    }
  }

  /** The per-frame builder's coordinates lie in its four-dimensional cube. */
  lemma PerFrameInShape(s: seq<int>, height: nat, width: nat, channels: nat, firstFrame: nat, lastFrame: nat,
                        rebin: nat)
    requires height * width > 0 && rebin >= 1 && ChannelsFit(s, rebin, channels / rebin)
    ensures var es := Entries(s, height * width, firstFrame, lastFrame);
      var coords, data := Coords4(es, width, firstFrame, rebin), Values(es);
      forall j :: 0 <= j < |coords| ==>
        0 <= coords[j].0 < lastFrame - firstFrame && 0 <= coords[j].1 < height && 0 <= coords[j].2 < width &&
        0 <= coords[j].3 < channels / rebin && data[j] >= 1
  {
    var es := Entries(s, height * width, firstFrame, lastFrame);
    EntriesIn(s, height * width, firstFrame, lastFrame);
    var coords, data := Coords4(es, width, firstFrame, rebin), Values(es);
    forall j | 0 <= j < |coords|
      ensures 0 <= coords[j].0 < lastFrame - firstFrame
      ensures 0 <= coords[j].1 < height && 0 <= coords[j].2 < width && 0 <= coords[j].3 < channels / rebin
      ensures data[j] >= 1
    {
      EntryCell(es[j], s, height, width, channels / rebin, firstFrame, lastFrame, rebin);
    }
  }

  // --------------------------------------------------------- maximal runs

  /** Consecutive entries recorded at the same pixel hold different values. */
  ghost predicate Separated(es: seq<Entry>)
  {
    forall i, j :: 0 <= i < j < |es| && j == i + 1 && es[i].frame == es[j].frame && es[i].nav == es[j].nav ==>
      es[i].run.channel != es[j].run.channel
  }

  /** Two separated lists stay separated when joined, provided the last entry
      of the first and the first entry of the second are at different pixels. */
  lemma SeparatedConcat(a: seq<Entry>, b: seq<Entry>)
    requires Separated(a) && Separated(b)
    requires a != [] && b != [] ==> (a[|a| - 1].frame, a[|a| - 1].nav) != (b[0].frame, b[0].nav)
    ensures Separated(a + b)
  {
    var c := a + b;
    forall i, j | 0 <= i < j < |c| && j == i + 1 && c[i].frame == c[j].frame && c[i].nav == c[j].nav
      ensures c[i].run.channel != c[j].run.channel
    {
      if j < |a| {
        assert c[i] == a[i] && c[j] == a[j];
      } else if j > |a| {
        assert c[i] == b[i - |a|] && c[j] == b[j - |a|];
      }
    }
  }

  /** Every entry of es is recorded in frame `frame` before position `nav`. */
  ghost predicate InFrameBefore(es: seq<Entry>, frame: nat, nav: nat)
  {
    forall j :: 0 <= j < |es| ==> es[j].frame == frame && es[j].nav < nav
  }

  ghost predicate AllAt(es: seq<Entry>, frame: nat, nav: nat)
  {
    forall j :: 0 <= j < |es| ==> es[j].frame == frame && es[j].nav == nav
  }

  lemma SegmentSeparated(segs: seq<seq<int>>, g: nat, frame: nat, nav: nat)
    ensures Separated(SegmentEntries(segs, g, frame, nav))
    ensures AllAt(SegmentEntries(segs, g, frame, nav), frame, nav)
  {
    if g < |segs| {
      RunsMaximal(segs[g]);
      var runs := if g + 1 < |segs| then RunsOf(segs[g]) else ClosedRuns(segs[g]);
      var es := SegmentEntries(segs, g, frame, nav);
      RunEntriesAt(runs, frame, nav);
      forall i, j | 0 <= i < j < |es| && j == i + 1
        ensures es[i].run.channel != es[j].run.channel
      {
        assert es[i].run == runs[i] && es[j].run == runs[j];
      }
    }
  }

  lemma InFrameConcat(a: seq<Entry>, b: seq<Entry>, frame: nat, nav: nat)
    requires InFrameBefore(a, frame, nav) && AllAt(b, frame, nav)
    ensures InFrameBefore(a + b, frame, nav + 1)
  {
    forall j | 0 <= j < |a + b|
      ensures (a + b)[j].frame == frame && (a + b)[j].nav < nav + 1
    {
      if j < |a| {
        assert (a + b)[j] == a[j];
      } else {
        assert (a + b)[j] == b[j - |a|];
      }
    }
  }

  /** One more pixel of entries keeps the frame's list separated. */
  lemma NavStep(a: seq<Entry>, b: seq<Entry>, frame: nat, nav: nat)
    requires Separated(a) && InFrameBefore(a, frame, nav)
    requires Separated(b) && AllAt(b, frame, nav)
    ensures Separated(a + b) && InFrameBefore(a + b, frame, nav + 1)
  {
    if a != [] && b != [] {
      assert a[|a| - 1].nav < nav;
      assert b[0].nav == nav;
    }
    SeparatedConcat(a, b);
    InFrameConcat(a, b, frame, nav);
  }

  lemma NavSeparatedStep(segs: seq<seq<int>>, frameSize: nat, frame: nat, n: nat)
    requires n > 0
    requires Separated(NavEntries(segs, frameSize, frame, n - 1))
    requires InFrameBefore(NavEntries(segs, frameSize, frame, n - 1), frame, n - 1)
    ensures Separated(NavEntries(segs, frameSize, frame, n))
    ensures InFrameBefore(NavEntries(segs, frameSize, frame, n), frame, n)
  {
    forall nav: nat | nav == n - 1
      ensures Separated(SegmentEntries(segs, Slot(frame, nav, frameSize), frame, nav))
      ensures AllAt(SegmentEntries(segs, Slot(frame, nav, frameSize), frame, nav), frame, nav)
    {
      SegmentSeparated(segs, Slot(frame, nav, frameSize), frame, nav);
    }
    NavStep(NavEntries(segs, frameSize, frame, n - 1),
            SegmentEntries(segs, Slot(frame, n - 1, frameSize), frame, n - 1), frame, n - 1);
  }

  lemma {:induction false} NavSeparated(segs: seq<seq<int>>, frameSize: nat, frame: nat, n: nat)
    ensures Separated(NavEntries(segs, frameSize, frame, n))
    ensures InFrameBefore(NavEntries(segs, frameSize, frame, n), frame, n)
    decreases n
  {
    if n > 0 {
      forall m: nat | m == n - 1
        ensures Separated(NavEntries(segs, frameSize, frame, m))
        ensures InFrameBefore(NavEntries(segs, frameSize, frame, m), frame, m)
      {
        NavSeparated(segs, frameSize, frame, m);
      }
      NavSeparatedStep(segs, frameSize, frame, n);
    } else {
      assert NavEntries(segs, frameSize, frame, n) == [];
    }
  }

  /** Every entry of es is recorded before frame `frame`. */
  ghost predicate FramesBelow(es: seq<Entry>, frame: nat)
  {
    forall j :: 0 <= j < |es| ==> es[j].frame < frame
  }

  lemma FramesBelowConcat(a: seq<Entry>, b: seq<Entry>, frame: nat, n: nat)
    requires FramesBelow(a, frame) && InFrameBefore(b, frame, n)
    ensures FramesBelow(a + b, frame + 1)
  {
    forall j | 0 <= j < |a + b|
      ensures (a + b)[j].frame < frame + 1
    {
      if j < |a| {
        assert (a + b)[j] == a[j];
      } else {
        assert (a + b)[j] == b[j - |a|];
      }
    }
  }

  /** One more frame of entries keeps the list separated and below the next frame. */
  lemma FramesStep(a: seq<Entry>, b: seq<Entry>, frame: nat, n: nat)
    requires Separated(a) && FramesBelow(a, frame)
    requires Separated(b) && InFrameBefore(b, frame, n)
    ensures Separated(a + b) && FramesBelow(a + b, frame + 1)
  {
    if a != [] && b != [] {
      assert a[|a| - 1].frame < frame;
      assert b[0].frame == frame;
    }
    SeparatedConcat(a, b);
    FramesBelowConcat(a, b, frame, n);
  }

  lemma FramesSeparatedStep(segs: seq<seq<int>>, frameSize: nat, firstFrame: nat, lastFrame: nat)
    requires firstFrame < lastFrame
    requires Separated(FramesEntries(segs, frameSize, firstFrame, lastFrame - 1))
    requires FramesBelow(FramesEntries(segs, frameSize, firstFrame, lastFrame - 1), lastFrame - 1)
    requires Separated(NavEntries(segs, frameSize, lastFrame - 1, frameSize))
    requires InFrameBefore(NavEntries(segs, frameSize, lastFrame - 1, frameSize), lastFrame - 1, frameSize)
    ensures Separated(FramesEntries(segs, frameSize, firstFrame, lastFrame))
    ensures FramesBelow(FramesEntries(segs, frameSize, firstFrame, lastFrame), lastFrame)
  {
    FramesStep(FramesEntries(segs, frameSize, firstFrame, lastFrame - 1),
               NavEntries(segs, frameSize, lastFrame - 1, frameSize), lastFrame - 1, frameSize);
  }

  lemma {:induction false} FramesSeparated(segs: seq<seq<int>>, frameSize: nat, firstFrame: nat, lastFrame: nat)
    ensures Separated(FramesEntries(segs, frameSize, firstFrame, lastFrame))
    ensures FramesBelow(FramesEntries(segs, frameSize, firstFrame, lastFrame), lastFrame)
    decreases lastFrame
  {
    if firstFrame < lastFrame {
      forall m: nat | m == lastFrame - 1
        ensures Separated(FramesEntries(segs, frameSize, firstFrame, m))
        ensures FramesBelow(FramesEntries(segs, frameSize, firstFrame, m), m)
        ensures Separated(NavEntries(segs, frameSize, m, frameSize))
        ensures InFrameBefore(NavEntries(segs, frameSize, m, frameSize), m, frameSize)
      {
        FramesSeparated(segs, frameSize, firstFrame, m);
        NavSeparated(segs, frameSize, m, frameSize);
      }
      FramesSeparatedStep(segs, frameSize, firstFrame, lastFrame);
    } else {
      assert FramesEntries(segs, frameSize, firstFrame, lastFrame) == [];
    }
  }

  /** Consecutive entries of one pixel hold different values: each entry is
      a maximal run. */
  lemma EntriesSeparated(s: seq<int>, frameSize: nat, firstFrame: nat, lastFrame: nat)
    ensures Separated(Entries(s, frameSize, firstFrame, lastFrame))
  {
    FramesSeparated(Segments(s), frameSize, firstFrame, lastFrame);
  }

  // --------------------------------------------------------- sparse == dense

  /** The sum of the data at coordinate c, as the COO format reads repeated
      coordinates. */
  function Scatter3(coords: seq<(int, int, int)>, data: seq<int>, c: (int, int, int)): int
    requires |coords| == |data|
    decreases |coords|
  {
    if coords == [] then 0
    else Scatter3(coords[..|coords| - 1], data[..|data| - 1], c) +
         (if coords[|coords| - 1] == c then data[|data| - 1] else 0)
  }

  function Scatter4(coords: seq<(int, int, int, int)>, data: seq<int>, c: (int, int, int, int)): int
    requires |coords| == |data|
    decreases |coords|
  {
    if coords == [] then 0
    else Scatter4(coords[..|coords| - 1], data[..|data| - 1], c) +
         (if coords[|coords| - 1] == c then data[|data| - 1] else 0)
  }

  /** Which frames a cell of a cube collects: all of them (summed cube) or one. */
  datatype FrameSel = AnyFrame | OnlyFrame(frame: nat)

  /** The total run length of the entries recorded at raster position pos of
      the selected frames in rebinned channel k. */
  ghost function Mass(es: seq<Entry>, frame: FrameSel, pos: nat, rebin: nat, k: int): int
    requires rebin >= 1
    decreases |es|
  {
    if es == [] then 0
    else
      var e := es[|es| - 1];
      Mass(es[..|es| - 1], frame, pos, rebin, k) +
      (if (frame.AnyFrame? || e.frame == frame.frame) && e.nav == pos && e.run.channel / rebin == k then e.run.count else 0)
  }

  lemma {:induction false} ScatterMass3(es: seq<Entry>, width: nat, rebin: nat, y: nat, x: nat, k: int)
    requires width > 0 && rebin >= 1 && x < width
    ensures Scatter3(Coords3(es, width, rebin), Values(es), (y, x, k)) == Mass(es, AnyFrame, Slot(y, x, width), rebin, k)
    decreases |es|
  {
    if es != [] {
      var init := es[..|es| - 1];
      var e := es[|es| - 1];
      forall p | p == init
        ensures Scatter3(Coords3(p, width, rebin), Values(p), (y, x, k)) == Mass(p, AnyFrame, Slot(y, x, width), rebin, k)
      {
        ScatterMass3(p, width, rebin, y, x, k);
      }
      assert es == init + [e];
      ScatterMass3Step(init, e, width, rebin, y, x, k);
    }
  }

  lemma ScatterMass3Step(init: seq<Entry>, e: Entry, width: nat, rebin: nat, y: nat, x: nat, k: int)
    requires width > 0 && rebin >= 1 && x < width
    requires Scatter3(Coords3(init, width, rebin), Values(init), (y, x, k)) ==
             Mass(init, AnyFrame, Slot(y, x, width), rebin, k)
    ensures Scatter3(Coords3(init + [e], width, rebin), Values(init + [e]), (y, x, k)) ==
            Mass(init + [e], AnyFrame, Slot(y, x, width), rebin, k)
  {
    var es := init + [e];
    assert es[..|es| - 1] == init && es[|es| - 1] == e;
    EmitSnoc3(init, e, width, rebin);
    assert Coords3(es, width, rebin)[..|es| - 1] == Coords3(init, width, rebin);
    assert Values(es)[..|es| - 1] == Values(init);
    RasterCell(e.nav, width);
  }

  lemma {:induction false} ScatterMass4(es: seq<Entry>, width: nat, firstFrame: nat, rebin: nat,
                                        f: nat, y: nat, x: nat, k: int)
    requires width > 0 && rebin >= 1 && x < width
    ensures Scatter4(Coords4(es, width, firstFrame, rebin), Values(es), (f, y, x, k)) ==
            Mass(es, OnlyFrame(firstFrame + f), Slot(y, x, width), rebin, k)
    decreases |es|
  {
    if es != [] {
      var init := es[..|es| - 1];
      var e := es[|es| - 1];
      forall p | p == init
        ensures Scatter4(Coords4(p, width, firstFrame, rebin), Values(p), (f, y, x, k)) ==
                Mass(p, OnlyFrame(firstFrame + f), Slot(y, x, width), rebin, k)
      {
        ScatterMass4(p, width, firstFrame, rebin, f, y, x, k);
      }
      assert es == init + [e];
      ScatterMass4Step(init, e, width, firstFrame, rebin, f, y, x, k);
    }
  }

  lemma ScatterMass4Step(init: seq<Entry>, e: Entry, width: nat, firstFrame: nat, rebin: nat,
                         f: nat, y: nat, x: nat, k: int)
    requires width > 0 && rebin >= 1 && x < width
    requires Scatter4(Coords4(init, width, firstFrame, rebin), Values(init), (f, y, x, k)) ==
             Mass(init, OnlyFrame(firstFrame + f), Slot(y, x, width), rebin, k)
    ensures Scatter4(Coords4(init + [e], width, firstFrame, rebin), Values(init + [e]), (f, y, x, k)) ==
            Mass(init + [e], OnlyFrame(firstFrame + f), Slot(y, x, width), rebin, k)
  {
    var es := init + [e];
    assert es[..|es| - 1] == init && es[|es| - 1] == e;
    EmitSnoc4(init, e, width, firstFrame, rebin);
    assert Coords4(es, width, firstFrame, rebin)[..|es| - 1] == Coords4(init, width, firstFrame, rebin);
    assert Values(es)[..|es| - 1] == Values(init);
    RasterCell(e.nav, width);
  }

  lemma {:induction false} MassConcat(a: seq<Entry>, b: seq<Entry>, frame: FrameSel, pos: nat, rebin: nat, k: int)
    requires rebin >= 1
    ensures Mass(a + b, frame, pos, rebin, k) == Mass(a, frame, pos, rebin, k) + Mass(b, frame, pos, rebin, k)
    decreases |b|
  {
    if b == [] {
      assert a + b == a;
    } else {
      var init := b[..|b| - 1];
      MassConcat(a, init, frame, pos, rebin, k);
      assert (a + b)[..|a + b| - 1] == a + init;
    }
  }

  /** The runs of the pixel at (frame, nav) add up, per rebinned channel, to
      RunTotal when that pixel is counted, and to nothing otherwise. */
  lemma {:induction false} MassRuns(runs: seq<Run>, frame: nat, nav: nat, sel: FrameSel, pos: nat, rebin: nat,
                                    k: int)
    requires rebin >= 1
    ensures Mass(RunEntries(runs, frame, nav), sel, pos, rebin, k) ==
      if (sel.AnyFrame? || frame == sel.frame) && nav == pos then RunTotal(runs, k, rebin) else 0
    decreases |runs|
  {
    if runs != [] {
      var init := runs[..|runs| - 1];
      MassRuns(init, frame, nav, sel, pos, rebin, k);
      assert runs == init + [runs[|runs| - 1]];
      RunEntriesSnoc(init, runs[|runs| - 1], frame, nav);
      var es := RunEntries(runs, frame, nav);
      assert es[..|es| - 1] == RunEntries(init, frame, nav);
    }
  }

  /** A closed stream's segment list ends with an empty segment: every pixel
      that holds a value has been closed by a sentinel. */
  ghost predicate Closed(segs: seq<seq<int>>)
  {
    |segs| >= 1 && segs[|segs| - 1] == []
  }

  /** In a closed segment list, every run of segment g is recorded. */
  lemma MassSegment(segs: seq<seq<int>>, g: nat, frame: nat, nav: nat, sel: FrameSel, pos: nat, rebin: nat, k: int)
    requires rebin >= 1 && Closed(segs)
    ensures Mass(SegmentEntries(segs, g, frame, nav), sel, pos, rebin, k) ==
      if (sel.AnyFrame? || frame == sel.frame) && nav == pos then PixelCount(segs, g, k, rebin) else 0
  {
    if g + 1 < |segs| {
      MassRuns(RunsOf(segs[g]), frame, nav, sel, pos, rebin, k);
      RunsCount(segs[g], k, rebin);
    } else if g + 1 == |segs| {
      assert RunsOf([]) == [];
    }
  }

  /** Positions 0 .. n - 1 of frame `frame` hold the counts of position pos
      of that frame when pos < n. */
  lemma {:induction false} MassNav(segs: seq<seq<int>>, frameSize: nat, frame: nat, n: nat, sel: FrameSel,
                                   pos: nat, rebin: nat, k: int)
    requires rebin >= 1 && Closed(segs)
    ensures Mass(NavEntries(segs, frameSize, frame, n), sel, pos, rebin, k) ==
      if (sel.AnyFrame? || frame == sel.frame) && pos < n then PixelCount(segs, Slot(frame, pos, frameSize), k, rebin)
      else 0
    decreases n
  {
    if n > 0 {
      var nav := n - 1;
      var g := Slot(frame, nav, frameSize);
      MassNav(segs, frameSize, frame, nav, sel, pos, rebin, k);
      MassSegment(segs, g, frame, nav, sel, pos, rebin, k);
      MassConcat(NavEntries(segs, frameSize, frame, nav), SegmentEntries(segs, g, frame, nav), sel, pos, rebin, k);
    }
  }

  lemma MassFrame(segs: seq<seq<int>>, frameSize: nat, lastFrame: nat, sel: FrameSel, pos: nat, rebin: nat, k: int)
    requires rebin >= 1 && Closed(segs) && pos < frameSize && lastFrame > 0
    ensures Mass(NavEntries(segs, frameSize, lastFrame - 1, frameSize), sel, pos, rebin, k) ==
      if sel.AnyFrame? || lastFrame - 1 == sel.frame then PixelCount(segs, Slot(lastFrame - 1, pos, frameSize), k, rebin)
      else 0
  {
    MassNav(segs, frameSize, lastFrame - 1, frameSize, sel, pos, rebin, k);
  }

  /** The counts at raster position pos, channel k, of the frames
      firstFrame .. lastFrame - 1 that sel selects. */
  ghost function Selected(segs: seq<seq<int>>, frameSize: nat, pos: nat, k: int, rebin: nat,
                          firstFrame: nat, lastFrame: nat, sel: FrameSel): nat
    requires rebin >= 1
    decreases lastFrame
  {
    if lastFrame <= firstFrame then 0
    else Selected(segs, frameSize, pos, k, rebin, firstFrame, lastFrame - 1, sel) +
         (if sel.AnyFrame? || lastFrame - 1 == sel.frame then PixelCount(segs, Slot(lastFrame - 1, pos, frameSize), k, rebin)
          else 0)
  }

  /** The entries of the kept frames hold, at pos and k, the counts of the selected frames. */
  lemma {:induction false} MassFrames(segs: seq<seq<int>>, frameSize: nat, firstFrame: nat, lastFrame: nat,
                                      sel: FrameSel, pos: nat, rebin: nat, k: int)
    requires rebin >= 1 && Closed(segs) && pos < frameSize
    ensures Mass(FramesEntries(segs, frameSize, firstFrame, lastFrame), sel, pos, rebin, k) ==
            Selected(segs, frameSize, pos, k, rebin, firstFrame, lastFrame, sel)
    decreases lastFrame
  {
    if firstFrame < lastFrame {
      forall m: nat | m == lastFrame - 1
        ensures Mass(FramesEntries(segs, frameSize, firstFrame, m), sel, pos, rebin, k) ==
                Selected(segs, frameSize, pos, k, rebin, firstFrame, m, sel)
      {
        MassFrames(segs, frameSize, firstFrame, m, sel, pos, rebin, k);
      }
      MassFrame(segs, frameSize, lastFrame, sel, pos, rebin, k);
      MassConcat(FramesEntries(segs, frameSize, firstFrame, lastFrame - 1),
                 NavEntries(segs, frameSize, lastFrame - 1, frameSize), sel, pos, rebin, k);
    } else {
      assert FramesEntries(segs, frameSize, firstFrame, lastFrame) == [];
    }
  }

  /** Selecting every frame gives the summed count. */
  lemma {:induction false} SelectedSummed(segs: seq<seq<int>>, frameSize: nat, pos: nat, k: int, rebin: nat,
                                          firstFrame: nat, lastFrame: nat)
    requires rebin >= 1
    ensures Selected(segs, frameSize, pos, k, rebin, firstFrame, lastFrame, AnyFrame) ==
            SummedCount(segs, frameSize, pos, k, rebin, firstFrame, lastFrame)
    decreases lastFrame
  {
    if firstFrame < lastFrame {
      forall m: nat | m == lastFrame - 1
        ensures Selected(segs, frameSize, pos, k, rebin, firstFrame, m, AnyFrame) ==
                SummedCount(segs, frameSize, pos, k, rebin, firstFrame, m)
      {
        SelectedSummed(segs, frameSize, pos, k, rebin, firstFrame, m);
      }
    }
  }

  /** Selecting one frame gives that frame's count when it is kept, else nothing. */
  lemma {:induction false} SelectedFrame(segs: seq<seq<int>>, frameSize: nat, pos: nat, k: int, rebin: nat,
                                         firstFrame: nat, lastFrame: nat, frame: nat)
    requires rebin >= 1
    ensures Selected(segs, frameSize, pos, k, rebin, firstFrame, lastFrame, OnlyFrame(frame)) ==
      if firstFrame <= frame < lastFrame then PixelCount(segs, Slot(frame, pos, frameSize), k, rebin) else 0
    decreases lastFrame
  {
    if firstFrame < lastFrame {
      forall m: nat | m == lastFrame - 1
        ensures Selected(segs, frameSize, pos, k, rebin, firstFrame, m, OnlyFrame(frame)) ==
          if firstFrame <= frame < m then PixelCount(segs, Slot(frame, pos, frameSize), k, rebin) else 0
      {
        SelectedFrame(segs, frameSize, pos, k, rebin, firstFrame, m, frame);
      }
    }
  }

  /** The summed builder's entries hold, at pos and k, the summed count. */
  lemma MassSummed(segs: seq<seq<int>>, frameSize: nat, firstFrame: nat, lastFrame: nat, pos: nat, rebin: nat, k: int)
    requires rebin >= 1 && Closed(segs) && pos < frameSize
    ensures Mass(FramesEntries(segs, frameSize, firstFrame, lastFrame), AnyFrame, pos, rebin, k) ==
            SummedCount(segs, frameSize, pos, k, rebin, firstFrame, lastFrame)
  {
    MassFrames(segs, frameSize, firstFrame, lastFrame, AnyFrame, pos, rebin, k);
    SelectedSummed(segs, frameSize, pos, k, rebin, firstFrame, lastFrame);
  }

  /** The entries of frame `frame` hold, at pos and k, that frame's count
      when it is kept. */
  lemma MassPerFrame(segs: seq<seq<int>>, frameSize: nat, firstFrame: nat, lastFrame: nat,
                     frame: nat, pos: nat, rebin: nat, k: int)
    requires rebin >= 1 && Closed(segs) && pos < frameSize
    ensures Mass(FramesEntries(segs, frameSize, firstFrame, lastFrame), OnlyFrame(frame), pos, rebin, k) ==
      if firstFrame <= frame < lastFrame then PixelCount(segs, Slot(frame, pos, frameSize), k, rebin) else 0
  {
    MassFrames(segs, frameSize, firstFrame, lastFrame, OnlyFrame(frame), pos, rebin, k);
    SelectedFrame(segs, frameSize, pos, k, rebin, firstFrame, lastFrame, frame);
  }

  /** No coordinate of the per-frame builder has a negative frame index. */
  lemma {:induction false} ScatterNone4(coords: seq<(int, int, int, int)>, data: seq<int>, c: (int, int, int, int))
    requires |coords| == |data| && c.0 < 0
    requires forall j :: 0 <= j < |coords| ==> coords[j].0 >= 0
    ensures Scatter4(coords, data, c) == 0
    decreases |coords|
  {
    if coords != [] {
      ScatterNone4(coords[..|coords| - 1], data[..|data| - 1], c);
    }
  }

  /** The closing sentinel adds an empty segment, which holds no counts. */
  lemma ClosingSentinel(s: seq<int>, rebin: nat)
    requires rebin >= 1
    ensures Closed(Segments(s + [SENTINEL]))
    ensures SamePixels(Segments(s + [SENTINEL]), Segments(s), rebin)
  {
    SegmentsAppendSentinel(s);
    var segs := Segments(s);
    var segs' := segs + [[]];
    forall g, k
      ensures PixelCount(segs', g, k, rebin) == PixelCount(segs, g, k, rebin)
    {
      if 0 <= g < |segs| {
        assert segs'[g] == segs[g];
      } else if g == |segs| {
        assert segs'[g] == [];
      }
    }
  }

  /** Densifying the summed builder's output on a stream closed by a sentinel,
      with repeated coordinates summed, gives the dense summed cube's cell. */
  lemma SparseMatchesDense3(s: seq<int>, height: nat, width: nat, firstFrame: nat, lastFrame: nat, rebin: nat,
                            y: nat, x: nat, k: int)
    requires height * width > 0 && rebin >= 1 && y < height && x < width
    ensures var es := Entries(s + [SENTINEL], height * width, firstFrame, lastFrame);
      Scatter3(Coords3(es, width, rebin), Values(es), (y, x, k)) ==
      SummedCell(Segments(s), height * width, width, firstFrame, lastFrame, rebin, y, x, k)
  {
    var frameSize := height * width;
    var segs := Segments(s + [SENTINEL]);
    var es := Entries(s + [SENTINEL], frameSize, firstFrame, lastFrame);
    ClosingSentinel(s, rebin);
    RasterBound(y, x, height, width);
    ScatterMass3(es, width, rebin, y, x, k);
    MassSummed(segs, frameSize, firstFrame, lastFrame, Slot(y, x, width), rebin, k);
    SummedSame(segs, Segments(s), frameSize, Slot(y, x, width), k, rebin, firstFrame, lastFrame);
  }

  /** Densifying the per-frame builder's output on a stream closed by a
      sentinel gives the dense per-frame cube's cell. */
  lemma SparseMatchesDense4(s: seq<int>, height: nat, width: nat, firstFrame: nat, lastFrame: nat, rebin: nat,
                            f: int, y: nat, x: nat, k: int)
    requires height * width > 0 && rebin >= 1 && y < height && x < width
    ensures var es := Entries(s + [SENTINEL], height * width, firstFrame, lastFrame);
      Scatter4(Coords4(es, width, firstFrame, rebin), Values(es), (f, y, x, k)) ==
      FrameCell(Segments(s), height * width, width, firstFrame, lastFrame, rebin, f, y, x, k)
  {
    var frameSize := height * width;
    var segs := Segments(s + [SENTINEL]);
    var es := Entries(s + [SENTINEL], frameSize, firstFrame, lastFrame);
    ClosingSentinel(s, rebin);
    RasterBound(y, x, height, width);
    if 0 <= f {
      ScatterMass4(es, width, firstFrame, rebin, f, y, x, k);
      MassPerFrame(segs, frameSize, firstFrame, lastFrame, firstFrame + f, Slot(y, x, width), rebin, k);
    } else {
      EntriesIn(s + [SENTINEL], frameSize, firstFrame, lastFrame);
      var coords := Coords4(es, width, firstFrame, rebin);
      forall j | 0 <= j < |coords|
        ensures coords[j].0 >= 0
      {
        assert EntryIn(es[j], segs, frameSize, firstFrame, lastFrame);
      }
      ScatterNone4(coords, Values(es), (f, y, x, k));
    }
    FrameSame(segs, Segments(s), frameSize, width, firstFrame, lastFrame, rebin, f, y, x, k);
  }

  // ------------------------------------------------------- the trailing run

  /** Without a closing sentinel the run still open at the end of the stream
      is not written out: closing the stream with a sentinel, as the wrapper
      does, adds exactly that run, at the pixel the stream ends in. */
  lemma TrailingRun(s: seq<int>, frameSize: nat, firstFrame: nat, lastFrame: nat, frame: nat, nav: nat)
    requires nav < frameSize && firstFrame <= frame < lastFrame
    requires Slot(frame, nav, frameSize) == |Segments(s)| - 1 && Current(s) != []
    ensures Entries(s + [SENTINEL], frameSize, firstFrame, lastFrame) ==
      Entries(s, frameSize, firstFrame, lastFrame) + [Entry(frame, nav, Run(OpenChannel(Current(s)), OpenCount(Current(s))))]
  {
    var a, b := Segments(s), Segments(s + [SENTINEL]);
    var n := Slot(frame, nav, frameSize);
    var seg := Current(s);
    ClosingSegments(s, n);
    ReplaceCurrent(a, b, frameSize, firstFrame, lastFrame, frame, nav);
    var before := Before(a, frameSize, firstFrame, frame, nav);
    var closed := RunEntries(ClosedRuns(seg), frame, nav);
    var last := Entry(frame, nav, Run(OpenChannel(seg), OpenCount(seg)));
    assert SegmentEntries(a, n, frame, nav) == closed;
    OpenRunEntry(seg, frame, nav);
    assert SegmentEntries(b, n, frame, nav) == closed + [last];
    ConcatAssoc(before, closed, [last]);
  }

  lemma ClosingSegments(s: seq<int>, n: nat)
    requires n == |Segments(s)| - 1
    ensures var a, b := Segments(s), Segments(s + [SENTINEL]);
      b == a + [[]] && b[n] == a[n] && ClosedAgree(a, b, n) && QuietFrom(a, n + 1) && QuietFrom(b, n + 1)
  {
    SegmentsAppendSentinel(s);
    assert RunsOf([]) == [];
  }

  /** All runs of a non-empty segment are its complete runs and its open one. */
  lemma OpenRunEntry(seg: seq<int>, frame: nat, nav: nat)
    requires seg != []
    ensures RunEntries(RunsOf(seg), frame, nav) ==
      RunEntries(ClosedRuns(seg), frame, nav) + [Entry(frame, nav, Run(OpenChannel(seg), OpenCount(seg)))]
  {
    var runs := RunsOf(seg);
    RunsEmpty(seg);
    assert runs[..|runs| - 1] == ClosedRuns(seg);
    assert runs[|runs| - 1] == Run(OpenChannel(seg), OpenCount(seg));
  }
}
