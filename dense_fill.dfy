/** The dense fillers _fill_array_with_stream_sum_frames (3-D cube: rows,
    columns, channels) and _fill_array_with_stream (4-D cube: frames, rows,
    columns, channels). Both walk the stream once with a raster cursor
    (navigationIndex, frameNumber) and add 1 to one cell per count value.

    Their specification is stated on the pixel segments of the stream:
    segment Slot(f, nav, frameSize) is raster position nav of frame f, and
    raster position Slot(y, x, width) is row y, column x. */
module DenseFill {
  import opened Arith
  import opened StreamFormat

  /** What the summed filler adds at raster position pos, rebinned channel k:
      the counts of that position in every frame firstFrame .. lastFrame - 1. */
  ghost function SummedCount(segs: seq<seq<int>>, frameSize: nat, pos: nat, k: int, rebin: nat,
                             firstFrame: nat, lastFrame: nat): nat
    requires rebin >= 1
    decreases lastFrame
  {
    if lastFrame <= firstFrame then 0
    else SummedCount(segs, frameSize, pos, k, rebin, firstFrame, lastFrame - 1)
         + PixelCount(segs, Slot(lastFrame - 1, pos, frameSize), k, rebin)
  }

  /** Cell (y, x, k) of the summed cube of a scan with frameSize pixels per
      frame in rows of width pixels. */
  ghost function SummedCell(segs: seq<seq<int>>, frameSize: nat, width: nat, firstFrame: nat, lastFrame: nat,
                            rebin: nat, y: nat, x: nat, k: int): nat
    requires rebin >= 1
  {
    SummedCount(segs, frameSize, Slot(y, x, width), k, rebin, firstFrame, lastFrame)
  }

  /** Cell (f, y, x, k) of the per-frame cube: the counts of pixel (y, x) in
      frame firstFrame + f, for the kept frames only. */
  ghost function FrameCell(segs: seq<seq<int>>, frameSize: nat, width: nat, firstFrame: nat, lastFrame: nat,
                           rebin: nat, f: int, y: nat, x: nat, k: int): nat
    requires rebin >= 1
  {
    if 0 <= f < lastFrame - firstFrame then PixelCount(segs, Slot(firstFrame + f, Slot(y, x, width), frameSize), k, rebin)
    else 0
  }

  /** The loop state both fillers keep between stream values: the frame
      number, the raster cursor (which may sit at frameSize until the next
      value wraps it), and whether the scan has stopped. */
  datatype Cursor = Cursor(frame: nat, nav: nat, stopped: bool)

  /** The cursor after the frame wrap: at the end of a frame the raster cursor
      goes back to 0 and the frame number moves on. */
  function Wrapped(c: Cursor, frameSize: nat): (w: Cursor)
    ensures c.nav == frameSize ==> w == Cursor(c.frame + 1, 0, c.stopped)
    ensures c.nav != frameSize ==> w == c
  {
    if c.nav == frameSize then Cursor(c.frame + 1, 0, c.stopped) else c
  }

  /** Reading the next value in state c stops the scan: the wrap has just
      reached frame lastFrame, so that value is not read. */
  predicate Stops(c: Cursor, frameSize: nat, lastFrame: nat)
  {
    !c.stopped && c.nav == frameSize && c.frame + 1 == lastFrame
  }

  /** The state after reading v in state c. */
  function Advance(c: Cursor, v: int, frameSize: nat, lastFrame: nat): (d: Cursor)
    ensures c.stopped ==> d == c
    ensures Stops(c, frameSize, lastFrame) ==> d == Cursor(lastFrame, 0, true)
    ensures !c.stopped && !Stops(c, frameSize, lastFrame) ==>
      var w := Wrapped(c, frameSize);
      d == if v == SENTINEL then Cursor(w.frame, w.nav + 1, false) else w
  {
    if c.stopped then c
    else if Stops(c, frameSize, lastFrame) then Cursor(lastFrame, 0, true)
    else
      var w := Wrapped(c, frameSize);
      if v == SENTINEL then Cursor(w.frame, w.nav + 1, false) else w
  }

  /** The state after reading the stream prefix s. */
  function Scan(s: seq<int>, frameSize: nat, lastFrame: nat): Cursor
    decreases |s|
  {
    if s == [] then Cursor(0, 0, false)
    else Advance(Scan(s[..|s| - 1], frameSize, lastFrame), s[|s| - 1], frameSize, lastFrame)
  }

  /** The value v, read in state c, is recorded: the scan goes on, v is a count
      value and its frame (after the wrap) is at or after firstFrame. */
  predicate Records(c: Cursor, v: int, frameSize: nat, firstFrame: nat, lastFrame: nat)
  {
    !c.stopped && !Stops(c, frameSize, lastFrame) && v != SENTINEL && firstFrame <= Wrapped(c, frameSize).frame
  }

  /** The value v, read in state c, is recorded in cell (y, x, k) of the
      frame the cursor is in. */
  predicate RecordsAt(c: Cursor, v: int, frameSize: nat, width: nat, firstFrame: nat, lastFrame: nat,
                      rebin: nat, y: nat, x: nat, k: int)
    requires rebin >= 1
  {
    Records(c, v, frameSize, firstFrame, lastFrame) && x < width &&
    Slot(y, x, width) == Wrapped(c, frameSize).nav && k == v / rebin
  }

  /** Cell (y, x, k) of the summed filler after reading s: one count for every
      recorded value whose raster position is (y, x) and whose rebinned
      channel is k. */
  ghost function SummedFill(s: seq<int>, frameSize: nat, width: nat, firstFrame: nat, lastFrame: nat,
                            rebin: nat, y: nat, x: nat, k: int): nat
    requires rebin >= 1
    decreases |s|
  {
    if s == [] then 0
    else
      var p, v := s[..|s| - 1], s[|s| - 1];
      SummedFill(p, frameSize, width, firstFrame, lastFrame, rebin, y, x, k) +
        (if RecordsAt(Scan(p, frameSize, lastFrame), v, frameSize, width, firstFrame, lastFrame, rebin, y, x, k)
         then 1 else 0)
  }

  /** Cell (f, y, x, k) of the per-frame filler after reading s: as SummedFill,
      for the values of frame firstFrame + f only. */
  ghost function FrameFill(s: seq<int>, frameSize: nat, width: nat, firstFrame: nat, lastFrame: nat,
                           rebin: nat, f: int, y: nat, x: nat, k: int): nat
    requires rebin >= 1
    decreases |s|
  {
    if s == [] then 0
    else
      var p, v := s[..|s| - 1], s[|s| - 1];
      var c := Scan(p, frameSize, lastFrame);
      FrameFill(p, frameSize, width, firstFrame, lastFrame, rebin, f, y, x, k) +
        (if RecordsAt(c, v, frameSize, width, firstFrame, lastFrame, rebin, y, x, k) &&
            f == Wrapped(c, frameSize).frame - firstFrame then 1 else 0)
  }

  method FillSumFrames(spectrumImage: array3<int>, stream: seq<int>, firstFrame: nat, lastFrame: nat,
                       rebin: nat)
    requires spectrumImage.Length0 * spectrumImage.Length1 > 0
    requires rebin >= 1 && firstFrame < lastFrame
    requires ChannelsFit(stream, rebin, spectrumImage.Length2)
    modifies spectrumImage
    ensures forall y, x, k :: 0 <= y < spectrumImage.Length0 && 0 <= x < spectrumImage.Length1 &&
                              0 <= k < spectrumImage.Length2 ==>
      spectrumImage[y, x, k] == old(spectrumImage[y, x, k]) +
        SummedCell(Segments(stream), spectrumImage.Length0 * spectrumImage.Length1, spectrumImage.Length1,
                   firstFrame, lastFrame, rebin, y, x, k)
  {
    var height, width := spectrumImage.Length0, spectrumImage.Length1;
    var frameSize := height * width;
    var navigationIndex := 0;
    var frameNumber := 0;
    for i := 0 to |stream|
      invariant navigationIndex <= frameSize && frameNumber < lastFrame
      invariant Scan(stream[..i], frameSize, lastFrame) == Cursor(frameNumber, navigationIndex, false)
      invariant forall y, x, k :: 0 <= y < height && 0 <= x < width && 0 <= k < spectrumImage.Length2 ==>
        spectrumImage[y, x, k] == old(spectrumImage[y, x, k]) +
          SummedFill(stream[..i], frameSize, width, firstFrame, lastFrame, rebin, y, x, k)
    {
      var countChannel := stream[i];
      assert stream[..i + 1] == stream[..i] + [countChannel];
      SummedUnfold(stream[..i], countChannel, frameSize, width, firstFrame, lastFrame, rebin);
      // when the end of the frame is reached, the raster cursor goes back to 0
      if navigationIndex == frameSize {
        navigationIndex := 0;
        frameNumber := frameNumber + 1;
        if frameNumber == lastFrame {
          SummedStopped(stream, i, frameSize, width, firstFrame, lastFrame, rebin);
          break;
        }
      }
      if countChannel != SENTINEL {
        RowColBounds(navigationIndex, height, width);
        RasterCell(navigationIndex, width);
        assert countChannel in stream;
        if firstFrame <= frameNumber {
          spectrumImage[navigationIndex / width, navigationIndex % width, countChannel / rebin] :=
            spectrumImage[navigationIndex / width, navigationIndex % width, countChannel / rebin] + 1;
        }
      } else {
        navigationIndex := navigationIndex + 1;
      }
    }
    assert stream[..|stream|] == stream;
    SummedFillMeaning(stream, height, width, firstFrame, lastFrame, rebin);
  }

  method Fill(spectrumImage: array4<int>, stream: seq<int>, firstFrame: nat, lastFrame: nat, rebin: nat)
    requires spectrumImage.Length1 * spectrumImage.Length2 > 0
    requires rebin >= 1 && firstFrame < lastFrame
    requires spectrumImage.Length0 >= lastFrame - firstFrame
    requires ChannelsFit(stream, rebin, spectrumImage.Length3)
    modifies spectrumImage
    ensures forall f, y, x, k :: 0 <= f < spectrumImage.Length0 && 0 <= y < spectrumImage.Length1 &&
                                 0 <= x < spectrumImage.Length2 && 0 <= k < spectrumImage.Length3 ==>
      spectrumImage[f, y, x, k] == old(spectrumImage[f, y, x, k]) +
        FrameCell(Segments(stream), spectrumImage.Length1 * spectrumImage.Length2, spectrumImage.Length2,
                  firstFrame, lastFrame, rebin, f, y, x, k)
  {
    var height, width := spectrumImage.Length1, spectrumImage.Length2;
    var frameSize := height * width;
    var navigationIndex := 0;
    var frameNumber := 0;
    for i := 0 to |stream|
      invariant navigationIndex <= frameSize && frameNumber < lastFrame
      invariant Scan(stream[..i], frameSize, lastFrame) == Cursor(frameNumber, navigationIndex, false)
      invariant forall f, y, x, k :: 0 <= f < spectrumImage.Length0 && 0 <= y < height && 0 <= x < width &&
                                     0 <= k < spectrumImage.Length3 ==>
        spectrumImage[f, y, x, k] == old(spectrumImage[f, y, x, k]) +
          FrameFill(stream[..i], frameSize, width, firstFrame, lastFrame, rebin, f, y, x, k)
    {
      var countChannel := stream[i];
      assert stream[..i + 1] == stream[..i] + [countChannel];
      FrameUnfold(stream[..i], countChannel, frameSize, width, firstFrame, lastFrame, rebin);
      // when the end of the frame is reached, the raster cursor goes back to 0
      if navigationIndex == frameSize {
        navigationIndex := 0;
        frameNumber := frameNumber + 1;
        if frameNumber == lastFrame {
          FrameStopped(stream, i, frameSize, width, firstFrame, lastFrame, rebin);
          break;
        }
      }
      if countChannel != SENTINEL {
        RowColBounds(navigationIndex, height, width);
        RasterCell(navigationIndex, width);
        assert countChannel in stream;
        if firstFrame <= frameNumber {
          // every write lands inside the kept frame window
          assert 0 <= frameNumber - firstFrame < lastFrame - firstFrame;
          spectrumImage[frameNumber - firstFrame, navigationIndex / width, navigationIndex % width,
                        countChannel / rebin] :=
            spectrumImage[frameNumber - firstFrame, navigationIndex / width, navigationIndex % width,
                          countChannel / rebin] + 1;
        }
      } else {
        navigationIndex := navigationIndex + 1;
      }
    }
    assert stream[..|stream|] == stream;
    FrameFillMeaning(stream, height, width, firstFrame, lastFrame, rebin);
  }

  // ------------------------------------------------------- the loop model

  /** Reading one more value: the state advances and each summed cell gains
      the value exactly when it records it there. */
  lemma SummedUnfold(p: seq<int>, v: int, frameSize: nat, width: nat, firstFrame: nat, lastFrame: nat,
                     rebin: nat)
    requires rebin >= 1
    ensures Scan(p + [v], frameSize, lastFrame) == Advance(Scan(p, frameSize, lastFrame), v, frameSize, lastFrame)
    ensures forall y: nat, x: nat, k ::
      SummedFill(p + [v], frameSize, width, firstFrame, lastFrame, rebin, y, x, k) ==
      SummedFill(p, frameSize, width, firstFrame, lastFrame, rebin, y, x, k) +
      (if RecordsAt(Scan(p, frameSize, lastFrame), v, frameSize, width, firstFrame, lastFrame, rebin, y, x, k)
       then 1 else 0)
  {
    assert (p + [v])[..|p|] == p;
  }

  /** Reading one more value, per-frame cells. */
  lemma FrameUnfold(p: seq<int>, v: int, frameSize: nat, width: nat, firstFrame: nat, lastFrame: nat,
                    rebin: nat)
    requires rebin >= 1
    ensures Scan(p + [v], frameSize, lastFrame) == Advance(Scan(p, frameSize, lastFrame), v, frameSize, lastFrame)
    ensures forall f, y: nat, x: nat, k ::
      FrameFill(p + [v], frameSize, width, firstFrame, lastFrame, rebin, f, y, x, k) ==
      FrameFill(p, frameSize, width, firstFrame, lastFrame, rebin, f, y, x, k) +
      (if RecordsAt(Scan(p, frameSize, lastFrame), v, frameSize, width, firstFrame, lastFrame, rebin, y, x, k) &&
          f == Wrapped(Scan(p, frameSize, lastFrame), frameSize).frame - firstFrame then 1 else 0)
  {
    assert (p + [v])[..|p|] == p;
  }

  /** Once the scan stops (or is about to stop) after the prefix s[..i], the
      rest of s records nothing and the scan stays stopped. */
  lemma {:induction false} SummedStopped(s: seq<int>, i: nat, frameSize: nat, width: nat, firstFrame: nat,
                                         lastFrame: nat, rebin: nat)
    requires i <= |s| && rebin >= 1
    requires Scan(s[..i], frameSize, lastFrame).stopped || Stops(Scan(s[..i], frameSize, lastFrame), frameSize, lastFrame)
    ensures i < |s| ==> Scan(s, frameSize, lastFrame).stopped
    ensures forall y: nat, x: nat, k :: SummedFill(s, frameSize, width, firstFrame, lastFrame, rebin, y, x, k) ==
                                        SummedFill(s[..i], frameSize, width, firstFrame, lastFrame, rebin, y, x, k)
    decreases |s|
  {
    if i == |s| {
      assert s[..i] == s;
    } else {
      var p := s[..|s| - 1];
      assert p[..i] == s[..i];
      SummedStopped(p, i, frameSize, width, firstFrame, lastFrame, rebin);
      if i == |p| {
        assert p == s[..i];
      }
    }
  }

  /** The same for the per-frame cells. */
  lemma {:induction false} FrameStopped(s: seq<int>, i: nat, frameSize: nat, width: nat, firstFrame: nat,
                                        lastFrame: nat, rebin: nat)
    requires i <= |s| && rebin >= 1
    requires Scan(s[..i], frameSize, lastFrame).stopped || Stops(Scan(s[..i], frameSize, lastFrame), frameSize, lastFrame)
    ensures i < |s| ==> Scan(s, frameSize, lastFrame).stopped
    ensures forall f, y: nat, x: nat, k :: FrameFill(s, frameSize, width, firstFrame, lastFrame, rebin, f, y, x, k) ==
                                           FrameFill(s[..i], frameSize, width, firstFrame, lastFrame, rebin, f, y, x, k)
    decreases |s|
  {
    if i == |s| {
      assert s[..i] == s;
    } else {
      var p := s[..|s| - 1];
      assert p[..i] == s[..i];
      FrameStopped(p, i, frameSize, width, firstFrame, lastFrame, rebin);
      if i == |p| {
        assert p == s[..i];
      }
    }
  }

  /** Where cursor c stands after n sentinels: while the scan goes on,
      Slot(frame, nav) is n (the index of the current segment) and the frame
      is before lastFrame; once stopped, the scan has reached the first
      segment of frame lastFrame. */
  predicate Placed(c: Cursor, n: nat, frameSize: nat, lastFrame: nat)
  {
    (!c.stopped ==> c.nav <= frameSize && c.frame < lastFrame && Slot(c.frame, c.nav, frameSize) == n) &&
    (c.stopped ==> Mul(lastFrame, frameSize) <= n)
  }

  /** Reading a value keeps the cursor placed: a sentinel moves it one segment on. */
  lemma AdvancePlaced(c: Cursor, v: int, n: nat, frameSize: nat, lastFrame: nat)
    requires frameSize > 0 && Placed(c, n, frameSize, lastFrame)
    ensures Placed(Advance(c, v, frameSize, lastFrame), if v == SENTINEL then n + 1 else n, frameSize, lastFrame)
  {
    assert Mul(c.frame + 1, frameSize) == Mul(c.frame, frameSize) + frameSize;
  }

  lemma {:induction false} ScanIndex(s: seq<int>, frameSize: nat, lastFrame: nat)
    requires frameSize > 0 && lastFrame >= 1
    ensures Placed(Scan(s, frameSize, lastFrame), multiset(s)[SENTINEL], frameSize, lastFrame)
    decreases |s|
  {
    if s != [] {
      var p, v := s[..|s| - 1], s[|s| - 1];
      assert s == p + [v];
      assert multiset(s)[SENTINEL] == multiset(p)[SENTINEL] + (if v == SENTINEL then 1 else 0);
      ScanIndex(p, frameSize, lastFrame);
      AdvancePlaced(Scan(p, frameSize, lastFrame), v, multiset(p)[SENTINEL], frameSize, lastFrame);
    } else {
      assert Slot(0, 0, frameSize) == 0;
    }
  }

  /** A stopped scan (or one that stops at the next value) has reached frame lastFrame. */
  lemma StoppedIndex(p: seq<int>, frameSize: nat, lastFrame: nat)
    requires frameSize > 0 && lastFrame >= 1
    requires Scan(p, frameSize, lastFrame).stopped || Stops(Scan(p, frameSize, lastFrame), frameSize, lastFrame)
    ensures Mul(lastFrame, frameSize) <= |Segments(p)| - 1
  {
    ScanIndex(p, frameSize, lastFrame);
    SegmentsLength(p);
    var c := Scan(p, frameSize, lastFrame);
    assert Mul(c.frame + 1, frameSize) == Mul(c.frame, frameSize) + frameSize;
  }

  /** While the scan goes on, the wrapped cursor names the current segment. */
  lemma WrappedIndex(p: seq<int>, frameSize: nat, lastFrame: nat)
    requires frameSize > 0 && lastFrame >= 1
    requires !Scan(p, frameSize, lastFrame).stopped && !Stops(Scan(p, frameSize, lastFrame), frameSize, lastFrame)
    ensures var w := Wrapped(Scan(p, frameSize, lastFrame), frameSize);
      w.nav < frameSize && w.frame < lastFrame && Slot(w.frame, w.nav, frameSize) == |Segments(p)| - 1
  {
    ScanIndex(p, frameSize, lastFrame);
    SegmentsLength(p);
    var c := Scan(p, frameSize, lastFrame);
    assert Mul(c.frame + 1, frameSize) == Mul(c.frame, frameSize) + frameSize;
  }

  /** The summed filler's cells are the segment counts of SummedCell. */
  lemma {:induction false} SummedFillSegments(s: seq<int>, frameSize: nat, width: nat, firstFrame: nat,
                                              lastFrame: nat, rebin: nat, y: nat, x: nat, k: int)
    requires rebin >= 1 && firstFrame < lastFrame && x < width && Slot(y, x, width) < frameSize
    ensures SummedFill(s, frameSize, width, firstFrame, lastFrame, rebin, y, x, k) ==
            SummedCell(Segments(s), frameSize, width, firstFrame, lastFrame, rebin, y, x, k)
    decreases |s|
  {
    if s == [] {
      SentinelsOnlyOutput([], frameSize, rebin, firstFrame, lastFrame);
    } else {
      var p, v := s[..|s| - 1], s[|s| - 1];
      assert s == p + [v];
      SummedFillSegments(p, frameSize, width, firstFrame, lastFrame, rebin, y, x, k);
      SummedStep(p, v, frameSize, width, firstFrame, lastFrame, rebin, y, x, k);
    }
  }

  /** One value changes the segment counts of SummedCell as it changes SummedFill. */
  lemma SummedStep(p: seq<int>, v: int, frameSize: nat, width: nat, firstFrame: nat,
                   lastFrame: nat, rebin: nat, y: nat, x: nat, k: int)
    requires rebin >= 1 && firstFrame < lastFrame && x < width && Slot(y, x, width) < frameSize
    ensures SummedCell(Segments(p + [v]), frameSize, width, firstFrame, lastFrame, rebin, y, x, k) ==
            SummedCell(Segments(p), frameSize, width, firstFrame, lastFrame, rebin, y, x, k) +
            (if RecordsAt(Scan(p, frameSize, lastFrame), v, frameSize, width, firstFrame, lastFrame, rebin, y, x, k)
             then 1 else 0)
  {
    var c := Scan(p, frameSize, lastFrame);
    var before, after := Segments(p), Segments(p + [v]);
    if v == SENTINEL {
      SentinelSame(p, rebin);
      SummedSame(after, before, frameSize, Slot(y, x, width), k, rebin, firstFrame, lastFrame);
    } else if c.stopped || Stops(c, frameSize, lastFrame) {
      StoppedIndex(p, frameSize, lastFrame);
      ValueAddsOne(p, v, rebin);
      SummedAgree(after, before, Mul(lastFrame, frameSize), frameSize, Slot(y, x, width), k, rebin,
                  firstFrame, lastFrame);
    } else {
      var w := Wrapped(c, frameSize);
      WrappedIndex(p, frameSize, lastFrame);
      ValueAddsOne(p, v, rebin);
      SummedAddsOne(before, after, v / rebin, frameSize, w.frame, w.nav, Slot(y, x, width), k, rebin,
                    firstFrame, lastFrame);
    }
  }

  lemma SummedFillMeaning(s: seq<int>, height: nat, width: nat, firstFrame: nat, lastFrame: nat, rebin: nat)
    requires rebin >= 1 && firstFrame < lastFrame
    ensures forall y: nat, x: nat, k :: y < height && x < width ==>
      SummedFill(s, height * width, width, firstFrame, lastFrame, rebin, y, x, k) ==
      SummedCell(Segments(s), height * width, width, firstFrame, lastFrame, rebin, y, x, k)
  {
    forall y: nat, x: nat, k | y < height && x < width
      ensures SummedFill(s, height * width, width, firstFrame, lastFrame, rebin, y, x, k) ==
              SummedCell(Segments(s), height * width, width, firstFrame, lastFrame, rebin, y, x, k)
    {
      RasterBound(y, x, height, width);
      SummedFillSegments(s, height * width, width, firstFrame, lastFrame, rebin, y, x, k);
    }
  }

  /** The per-frame filler's cells are the segment counts of FrameCell. */
  lemma {:induction false} FrameFillSegments(s: seq<int>, frameSize: nat, width: nat, firstFrame: nat,
                                             lastFrame: nat, rebin: nat, f: int, y: nat, x: nat, k: int)
    requires rebin >= 1 && firstFrame < lastFrame && x < width && Slot(y, x, width) < frameSize
    ensures FrameFill(s, frameSize, width, firstFrame, lastFrame, rebin, f, y, x, k) ==
            FrameCell(Segments(s), frameSize, width, firstFrame, lastFrame, rebin, f, y, x, k)
    decreases |s|
  {
    if s == [] {
      SentinelsOnlyOutput([], frameSize, rebin, 0, 0);
    } else {
      var p, v := s[..|s| - 1], s[|s| - 1];
      assert s == p + [v];
      FrameFillSegments(p, frameSize, width, firstFrame, lastFrame, rebin, f, y, x, k);
      FrameStep(p, v, frameSize, width, firstFrame, lastFrame, rebin, f, y, x, k);
    }
  }

  /** One value changes the segment counts of FrameCell as it changes FrameFill. */
  lemma FrameStep(p: seq<int>, v: int, frameSize: nat, width: nat, firstFrame: nat,
                  lastFrame: nat, rebin: nat, f: int, y: nat, x: nat, k: int)
    requires rebin >= 1 && firstFrame < lastFrame && x < width && Slot(y, x, width) < frameSize
    ensures var c := Scan(p, frameSize, lastFrame);
      FrameCell(Segments(p + [v]), frameSize, width, firstFrame, lastFrame, rebin, f, y, x, k) ==
      FrameCell(Segments(p), frameSize, width, firstFrame, lastFrame, rebin, f, y, x, k) +
        (if RecordsAt(c, v, frameSize, width, firstFrame, lastFrame, rebin, y, x, k) &&
            f == Wrapped(c, frameSize).frame - firstFrame then 1 else 0)
  {
    var c := Scan(p, frameSize, lastFrame);
    var before, after := Segments(p), Segments(p + [v]);
    if v == SENTINEL {
      SentinelSame(p, rebin);
      FrameSame(after, before, frameSize, width, firstFrame, lastFrame, rebin, f, y, x, k);
    } else if c.stopped || Stops(c, frameSize, lastFrame) {
      StoppedIndex(p, frameSize, lastFrame);
      ValueAddsOne(p, v, rebin);
      FrameAgree(after, before, Mul(lastFrame, frameSize), frameSize, width, firstFrame, lastFrame, rebin,
                 f, y, x, k);
    } else {
      var w := Wrapped(c, frameSize);
      WrappedIndex(p, frameSize, lastFrame);
      ValueAddsOne(p, v, rebin);
      FrameAddsOne(before, after, v / rebin, frameSize, w.frame, w.nav, width, firstFrame, lastFrame, rebin,
                   f, y, x, k);
    }
  }

  lemma FrameFillMeaning(s: seq<int>, height: nat, width: nat, firstFrame: nat, lastFrame: nat, rebin: nat)
    requires rebin >= 1 && firstFrame < lastFrame
    ensures forall f, y: nat, x: nat, k :: y < height && x < width ==>
      FrameFill(s, height * width, width, firstFrame, lastFrame, rebin, f, y, x, k) ==
      FrameCell(Segments(s), height * width, width, firstFrame, lastFrame, rebin, f, y, x, k)
  {
    forall f, y: nat, x: nat, k | y < height && x < width
      ensures FrameFill(s, height * width, width, firstFrame, lastFrame, rebin, f, y, x, k) ==
              FrameCell(Segments(s), height * width, width, firstFrame, lastFrame, rebin, f, y, x, k)
    {
      RasterBound(y, x, height, width);
      FrameFillSegments(s, height * width, width, firstFrame, lastFrame, rebin, f, y, x, k);
    }
  }

  // ------------------------------------------------------- pixel counts of two segment lists

  /** after holds one more count than before, in segment cur and rebinned
      channel kv, and is otherwise the same. */
  ghost predicate AddsOne(before: seq<seq<int>>, after: seq<seq<int>>, cur: int, kv: int, rebin: nat)
    requires rebin >= 1
  {
    forall g, k :: PixelCount(after, g, k, rebin) ==
                   PixelCount(before, g, k, rebin) + (if g == cur && k == kv then 1 else 0)
  }

  /** a and b hold the same counts in every segment. */
  ghost predicate SamePixels(a: seq<seq<int>>, b: seq<seq<int>>, rebin: nat)
    requires rebin >= 1
  {
    forall g, k :: PixelCount(a, g, k, rebin) == PixelCount(b, g, k, rebin)
  }

  /** a and b hold the same counts in every segment below bound. */
  ghost predicate AgreeBelow(a: seq<seq<int>>, b: seq<seq<int>>, bound: int, rebin: nat)
    requires rebin >= 1
  {
    forall g, k :: g < bound ==> PixelCount(a, g, k, rebin) == PixelCount(b, g, k, rebin)
  }

  /** A count value adds one count to the current segment, in its rebinned channel. */
  lemma PixelCountValue(p: seq<int>, v: int, g: int, k: int, rebin: nat)
    requires v != SENTINEL && rebin >= 1
    ensures PixelCount(Segments(p + [v]), g, k, rebin) ==
            PixelCount(Segments(p), g, k, rebin) + (if g == |Segments(p)| - 1 && v / rebin == k then 1 else 0)
  {
    SegmentsAppendValue(p, v);
    var segs := Segments(p);
    var last := segs[|segs| - 1];
    assert (last + [v])[..|last|] == last;
  }

  lemma ValueAddsOne(p: seq<int>, v: int, rebin: nat)
    requires v != SENTINEL && rebin >= 1
    ensures AddsOne(Segments(p), Segments(p + [v]), |Segments(p)| - 1, v / rebin, rebin)
  {
    forall g, k
      ensures PixelCount(Segments(p + [v]), g, k, rebin) ==
              PixelCount(Segments(p), g, k, rebin) + (if g == |Segments(p)| - 1 && k == v / rebin then 1 else 0)
    {
      PixelCountValue(p, v, g, k, rebin);
    }
  }

  /** Sentinels add nothing to any pixel. */
  lemma SentinelSame(p: seq<int>, rebin: nat)
    requires rebin >= 1
    ensures SamePixels(Segments(p + [SENTINEL]), Segments(p), rebin)
  {
    SegmentsAppendSentinel(p);
  }

  /** Pixels of a prefix below its current segment are pixels of the whole stream. */
  lemma PrefixAgrees(s: seq<int>, i: nat, rebin: nat)
    requires i <= |s| && rebin >= 1
    ensures AgreeBelow(Segments(s), Segments(s[..i]), |Segments(s[..i])| - 1, rebin)
  {
    SegmentsPrefix(s, i);
  }

  /** One more count at segment (frame, nav) adds one to the summed output at
      raster position pos exactly when frame is kept and pos is nav. */
  lemma {:induction false} SummedAddsOne(before: seq<seq<int>>, after: seq<seq<int>>, kv: int, frameSize: nat,
                                         frame: nat, nav: nat, pos: nat, k: int, rebin: nat,
                                         firstFrame: nat, lastFrame: nat)
    requires rebin >= 1 && pos < frameSize && nav < frameSize
    requires AddsOne(before, after, Slot(frame, nav, frameSize), kv, rebin)
    ensures SummedCount(after, frameSize, pos, k, rebin, firstFrame, lastFrame) ==
            SummedCount(before, frameSize, pos, k, rebin, firstFrame, lastFrame) +
            (if firstFrame <= frame < lastFrame && pos == nav && k == kv then 1 else 0)
    decreases lastFrame
  {
    if firstFrame < lastFrame {
      SummedAddsOne(before, after, kv, frameSize, frame, nav, pos, k, rebin, firstFrame, lastFrame - 1);
      SameSlot(lastFrame - 1, pos, frame, nav, frameSize);
    }
  }

  /** Segment lists with the same pixels have the same summed output. */
  lemma {:induction false} SummedSame(a: seq<seq<int>>, b: seq<seq<int>>, frameSize: nat, pos: nat, k: int,
                                      rebin: nat, firstFrame: nat, lastFrame: nat)
    requires rebin >= 1 && SamePixels(a, b, rebin)
    ensures SummedCount(a, frameSize, pos, k, rebin, firstFrame, lastFrame) ==
            SummedCount(b, frameSize, pos, k, rebin, firstFrame, lastFrame)
    decreases lastFrame
  {
    if firstFrame < lastFrame {
      SummedSame(a, b, frameSize, pos, k, rebin, firstFrame, lastFrame - 1);
    }
  }

  /** Segment lists agreeing below the first segment of frame lastFrame have
      the same summed output. */
  lemma {:induction false} SummedAgree(a: seq<seq<int>>, b: seq<seq<int>>, bound: int, frameSize: nat,
                                       pos: nat, k: int, rebin: nat, firstFrame: nat, lastFrame: nat)
    requires rebin >= 1 && pos < frameSize && Mul(lastFrame, frameSize) <= bound
    requires AgreeBelow(a, b, bound, rebin)
    ensures SummedCount(a, frameSize, pos, k, rebin, firstFrame, lastFrame) ==
            SummedCount(b, frameSize, pos, k, rebin, firstFrame, lastFrame)
    decreases lastFrame
  {
    if firstFrame < lastFrame {
      SummedAgree(a, b, bound, frameSize, pos, k, rebin, firstFrame, lastFrame - 1);
      MulBelow(lastFrame - 1, pos, lastFrame, frameSize);
    }
  }

  /** One more count at segment (frame, nav) adds one to the per-frame cell
      (f, y, x, k) exactly when frame is kept as index f and (y, x) is raster
      position nav. */
  lemma FrameAddsOne(before: seq<seq<int>>, after: seq<seq<int>>, kv: int, frameSize: nat, frame: nat, nav: nat,
                     width: nat, firstFrame: nat, lastFrame: nat, rebin: nat, f: int, y: nat, x: nat, k: int)
    requires rebin >= 1 && Slot(y, x, width) < frameSize && nav < frameSize && frame < lastFrame
    requires AddsOne(before, after, Slot(frame, nav, frameSize), kv, rebin)
    ensures FrameCell(after, frameSize, width, firstFrame, lastFrame, rebin, f, y, x, k) ==
            FrameCell(before, frameSize, width, firstFrame, lastFrame, rebin, f, y, x, k) +
            (if firstFrame <= frame && f == frame - firstFrame && Slot(y, x, width) == nav && k == kv then 1 else 0)
  {
    if 0 <= f < lastFrame - firstFrame {
      SameSlot(firstFrame + f, Slot(y, x, width), frame, nav, frameSize);
    }
  }

  /** Segment lists with the same pixels have the same per-frame cells. */
  lemma FrameSame(a: seq<seq<int>>, b: seq<seq<int>>, frameSize: nat, width: nat, firstFrame: nat,
                  lastFrame: nat, rebin: nat, f: int, y: nat, x: nat, k: int)
    requires rebin >= 1 && SamePixels(a, b, rebin)
    ensures FrameCell(a, frameSize, width, firstFrame, lastFrame, rebin, f, y, x, k) ==
            FrameCell(b, frameSize, width, firstFrame, lastFrame, rebin, f, y, x, k)
  {
  }

  /** Segment lists agreeing below the first segment of frame lastFrame have
      the same per-frame cells. */
  lemma FrameAgree(a: seq<seq<int>>, b: seq<seq<int>>, bound: int, frameSize: nat, width: nat, firstFrame: nat,
                   lastFrame: nat, rebin: nat, f: int, y: nat, x: nat, k: int)
    requires rebin >= 1 && Slot(y, x, width) < frameSize && Mul(lastFrame, frameSize) <= bound
    requires AgreeBelow(a, b, bound, rebin)
    ensures FrameCell(a, frameSize, width, firstFrame, lastFrame, rebin, f, y, x, k) ==
            FrameCell(b, frameSize, width, firstFrame, lastFrame, rebin, f, y, x, k)
  {
    if 0 <= f < lastFrame - firstFrame {
      MulBelow(firstFrame + f, Slot(y, x, width), lastFrame, frameSize);
    }
  }

  // ------------------------------------------------------- properties of the cubes

  /** Once the stream has reached the first segment of frame lastFrame at
      s[..i], the rest of the stream changes no cell of either cube. */
  lemma CellsPrefix(s: seq<int>, i: nat, frameSize: nat, width: nat, firstFrame: nat, lastFrame: nat,
                    rebin: nat)
    requires i <= |s| && rebin >= 1
    requires Mul(lastFrame, frameSize) <= |Segments(s[..i])| - 1
    ensures forall y: nat, x: nat, k :: Slot(y, x, width) < frameSize ==>
      SummedCell(Segments(s), frameSize, width, firstFrame, lastFrame, rebin, y, x, k) ==
      SummedCell(Segments(s[..i]), frameSize, width, firstFrame, lastFrame, rebin, y, x, k)
    ensures forall f, y: nat, x: nat, k :: Slot(y, x, width) < frameSize ==>
      FrameCell(Segments(s), frameSize, width, firstFrame, lastFrame, rebin, f, y, x, k) ==
      FrameCell(Segments(s[..i]), frameSize, width, firstFrame, lastFrame, rebin, f, y, x, k)
  {
    PrefixAgrees(s, i, rebin);
    forall y: nat, x: nat, k | Slot(y, x, width) < frameSize
      ensures SummedCell(Segments(s), frameSize, width, firstFrame, lastFrame, rebin, y, x, k) ==
              SummedCell(Segments(s[..i]), frameSize, width, firstFrame, lastFrame, rebin, y, x, k)
    {
      SummedAgree(Segments(s), Segments(s[..i]), |Segments(s[..i])| - 1, frameSize, Slot(y, x, width), k, rebin,
                  firstFrame, lastFrame);
    }
    forall f, y: nat, x: nat, k | Slot(y, x, width) < frameSize
      ensures FrameCell(Segments(s), frameSize, width, firstFrame, lastFrame, rebin, f, y, x, k) ==
              FrameCell(Segments(s[..i]), frameSize, width, firstFrame, lastFrame, rebin, f, y, x, k)
    {
      FrameAgree(Segments(s), Segments(s[..i]), |Segments(s[..i])| - 1, frameSize, width, firstFrame, lastFrame,
                 rebin, f, y, x, k);
    }
  }

  /** A stream of sentinels only (in particular the empty stream) fills nothing. */
  lemma {:induction false} SentinelsOnlyOutput(s: seq<int>, frameSize: nat, rebin: nat, firstFrame: nat, lastFrame: nat)
    requires rebin >= 1
    requires forall i :: 0 <= i < |s| ==> s[i] == SENTINEL
    ensures forall g, k :: PixelCount(Segments(s), g, k, rebin) == 0
    ensures forall pos: nat, k :: SummedCount(Segments(s), frameSize, pos, k, rebin, firstFrame, lastFrame) == 0
    decreases lastFrame
  {
    SentinelsOnly(s);
    if firstFrame < lastFrame {
      SentinelsOnlyOutput(s, frameSize, rebin, firstFrame, lastFrame - 1);
    }
  }

  // --------------------------------------------------- frame window and rebinning

  /** Segment lists whose pixels lo .. hi - 1 hold the same counts. */
  ghost predicate AgreeWithin(a: seq<seq<int>>, b: seq<seq<int>>, lo: int, hi: int, rebin: nat)
    requires rebin >= 1
  {
    forall g, k :: lo <= g < hi ==> PixelCount(a, g, k, rebin) == PixelCount(b, g, k, rebin)
  }

  /** The summed cube only reads the segments of frames firstFrame ..
      lastFrame - 1: whatever the scan holds before frame firstFrame (or from
      frame lastFrame on) adds nothing. */
  lemma {:induction false} SummedWindow(a: seq<seq<int>>, b: seq<seq<int>>, lo: int, hi: int, frameSize: nat,
                                        pos: nat, k: int, rebin: nat, firstFrame: nat, lastFrame: nat)
    requires rebin >= 1 && pos < frameSize
    requires lo <= Mul(firstFrame, frameSize) && Mul(lastFrame, frameSize) <= hi
    requires AgreeWithin(a, b, lo, hi, rebin)
    ensures SummedCount(a, frameSize, pos, k, rebin, firstFrame, lastFrame) ==
            SummedCount(b, frameSize, pos, k, rebin, firstFrame, lastFrame)
    decreases lastFrame
  {
    if firstFrame < lastFrame {
      forall m: nat | m == lastFrame - 1
        ensures SummedCount(a, frameSize, pos, k, rebin, firstFrame, m) ==
                SummedCount(b, frameSize, pos, k, rebin, firstFrame, m)
        ensures Mul(firstFrame, frameSize) <= Slot(m, pos, frameSize) < Mul(lastFrame, frameSize)
      {
        MulBelow(m, pos, lastFrame, frameSize);
        MulIsProduct(m, frameSize);
        MulIsProduct(firstFrame, frameSize);
        MulIsProduct(lastFrame, frameSize);
        MulMonotone(firstFrame, m, frameSize);
        SummedWindow(a, b, lo, hi, frameSize, pos, k, rebin, firstFrame, m);
      }
    }
  }

  /** The per-frame cube reads only the segments of its kept frames. */
  lemma FrameWindow(a: seq<seq<int>>, b: seq<seq<int>>, lo: int, hi: int, frameSize: nat, width: nat,
                    firstFrame: nat, lastFrame: nat, rebin: nat, f: int, y: nat, x: nat, k: int)
    requires rebin >= 1 && Slot(y, x, width) < frameSize
    requires lo <= Mul(firstFrame, frameSize) && Mul(lastFrame, frameSize) <= hi
    requires AgreeWithin(a, b, lo, hi, rebin)
    ensures FrameCell(a, frameSize, width, firstFrame, lastFrame, rebin, f, y, x, k) ==
            FrameCell(b, frameSize, width, firstFrame, lastFrame, rebin, f, y, x, k)
  {
    if 0 <= f < lastFrame - firstFrame {
      var frame := firstFrame + f;
      MulBelow(frame, Slot(y, x, width), lastFrame, frameSize);
      MulIsProduct(frame, frameSize);
      MulIsProduct(firstFrame, frameSize);
      MulMonotone(firstFrame, frame, frameSize);
    }
  }

  /** Per-frame cells (f, y, x, k) for f in 0 .. n - 1, added up: the per-frame
      cube of the window firstFrame .. lastFrame - 1 summed over its first n slabs. */
  ghost function FrameSum(segs: seq<seq<int>>, frameSize: nat, width: nat, firstFrame: nat, lastFrame: nat,
                          rebin: nat, n: nat, y: nat, x: nat, k: int): nat
    requires rebin >= 1
    decreases n
  {
    if n == 0 then 0
    else FrameSum(segs, frameSize, width, firstFrame, lastFrame, rebin, n - 1, y, x, k)
         + FrameCell(segs, frameSize, width, firstFrame, lastFrame, rebin, n - 1, y, x, k)
  }

  /** The first n slabs of the per-frame cube add up to the summed cube of
      frames firstFrame .. firstFrame + n - 1. */
  lemma {:induction false} FrameSumPrefix(segs: seq<seq<int>>, frameSize: nat, width: nat, firstFrame: nat,
                                          lastFrame: nat, rebin: nat, n: nat, y: nat, x: nat, k: int)
    requires rebin >= 1 && firstFrame + n <= lastFrame
    ensures FrameSum(segs, frameSize, width, firstFrame, lastFrame, rebin, n, y, x, k) ==
            SummedCount(segs, frameSize, Slot(y, x, width), k, rebin, firstFrame, firstFrame + n)
    decreases n
  {
    if n > 0 {
      forall m: nat | m == n - 1
        ensures FrameSum(segs, frameSize, width, firstFrame, lastFrame, rebin, m, y, x, k) ==
                SummedCount(segs, frameSize, Slot(y, x, width), k, rebin, firstFrame, firstFrame + m)
      {
        FrameSumPrefix(segs, frameSize, width, firstFrame, lastFrame, rebin, m, y, x, k);
      }
    }
  }

  /** Frame windowing: the summed cube of frames firstFrame .. lastFrame - 1
      is the per-frame cube of the same window summed over its frame axis. */
  lemma SummedIsFrameSum(segs: seq<seq<int>>, frameSize: nat, width: nat, firstFrame: nat, lastFrame: nat,
                         rebin: nat, y: nat, x: nat, k: int)
    requires rebin >= 1
    ensures SummedCell(segs, frameSize, width, firstFrame, lastFrame, rebin, y, x, k) ==
            FrameSum(segs, frameSize, width, firstFrame, lastFrame, rebin,
                     if firstFrame < lastFrame then lastFrame - firstFrame else 0, y, x, k)
  {
    if firstFrame < lastFrame {
      FrameSumPrefix(segs, frameSize, width, firstFrame, lastFrame, rebin, lastFrame - firstFrame, y, x, k);
    }
  }

  /** Unrebinned counts of channels lo .. hi - 1 of pixel segment g. */
  ghost function PixelRange(segs: seq<seq<int>>, g: int, lo: int, hi: int): nat
    decreases hi - lo
  {
    if hi <= lo then 0 else PixelRange(segs, g, lo, hi - 1) + PixelCount(segs, g, hi - 1, 1)
  }

  /** Unrebinned summed cells of channels lo .. hi - 1 at raster position pos. */
  ghost function SummedRange(segs: seq<seq<int>>, frameSize: nat, pos: nat, lo: int, hi: int,
                             firstFrame: nat, lastFrame: nat): nat
    decreases hi - lo
  {
    if hi <= lo then 0
    else SummedRange(segs, frameSize, pos, lo, hi - 1, firstFrame, lastFrame)
         + SummedCount(segs, frameSize, pos, hi - 1, 1, firstFrame, lastFrame)
  }

  /** Unrebinned per-frame cells (f, y, x, c) of channels lo .. hi - 1. */
  ghost function FrameRange(segs: seq<seq<int>>, frameSize: nat, width: nat, firstFrame: nat, lastFrame: nat,
                            f: int, y: nat, x: nat, lo: int, hi: int): nat
    decreases hi - lo
  {
    if hi <= lo then 0
    else FrameRange(segs, frameSize, width, firstFrame, lastFrame, f, y, x, lo, hi - 1)
         + FrameCell(segs, frameSize, width, firstFrame, lastFrame, 1, f, y, x, hi - 1)
  }

  lemma {:induction false} PixelRangeCounts(segs: seq<seq<int>>, g: int, lo: int, hi: int)
    ensures PixelRange(segs, g, lo, hi) == if 0 <= g < |segs| then CountRange(segs[g], lo, hi) else 0
    decreases hi - lo
  {
    if lo < hi {
      PixelRangeCounts(segs, g, lo, hi - 1);
    }
  }

  /** Summing the unrebinned cells frame by frame: one more frame adds its
      pixel's counts over the channel range. */
  lemma {:induction false} SummedRangeFrame(segs: seq<seq<int>>, frameSize: nat, pos: nat, lo: int, hi: int,
                                            firstFrame: nat, lastFrame: nat)
    requires firstFrame < lastFrame
    ensures SummedRange(segs, frameSize, pos, lo, hi, firstFrame, lastFrame) ==
            SummedRange(segs, frameSize, pos, lo, hi, firstFrame, lastFrame - 1) +
            PixelRange(segs, Slot(lastFrame - 1, pos, frameSize), lo, hi)
    decreases hi - lo
  {
    if lo < hi {
      SummedRangeFrame(segs, frameSize, pos, lo, hi - 1, firstFrame, lastFrame);
    }
  }

  /** Rebinning the summed cube: rebinned channel k holds the sum of the
      unrebinned channels k * rebin .. k * rebin + rebin - 1. */
  lemma {:induction false} SummedRebinned(segs: seq<seq<int>>, frameSize: nat, pos: nat, k: int, rebin: nat,
                                          firstFrame: nat, lastFrame: nat)
    requires rebin >= 1
    ensures SummedCount(segs, frameSize, pos, k, rebin, firstFrame, lastFrame) ==
            SummedRange(segs, frameSize, pos, k * rebin, k * rebin + rebin, firstFrame, lastFrame)
    decreases lastFrame
  {
    var lo, hi := k * rebin, k * rebin + rebin;
    if firstFrame < lastFrame {
      forall m: nat | m == lastFrame - 1
        ensures SummedCount(segs, frameSize, pos, k, rebin, firstFrame, m) ==
                SummedRange(segs, frameSize, pos, lo, hi, firstFrame, m)
      {
        SummedRebinned(segs, frameSize, pos, k, rebin, firstFrame, m);
      }
      var g := Slot(lastFrame - 1, pos, frameSize);
      PixelCountRebinned(segs, g, k, rebin);
      PixelRangeCounts(segs, g, lo, hi);
      SummedRangeFrame(segs, frameSize, pos, lo, hi, firstFrame, lastFrame);
    } else {
      SummedRangeNone(segs, frameSize, pos, lo, hi, firstFrame, lastFrame);
    }
  }

  lemma {:induction false} SummedRangeNone(segs: seq<seq<int>>, frameSize: nat, pos: nat, lo: int, hi: int,
                                           firstFrame: nat, lastFrame: nat)
    requires lastFrame <= firstFrame
    ensures SummedRange(segs, frameSize, pos, lo, hi, firstFrame, lastFrame) == 0
    decreases hi - lo
  {
    if lo < hi {
      SummedRangeNone(segs, frameSize, pos, lo, hi - 1, firstFrame, lastFrame);
    }
  }

  /** Rebinning the per-frame cube: rebinned channel k of a kept cell holds
      the sum of its unrebinned channels lo .. hi - 1, that is
      k * rebin .. k * rebin + rebin - 1. */
  lemma FrameRebinned(segs: seq<seq<int>>, frameSize: nat, width: nat, firstFrame: nat, lastFrame: nat,
                      rebin: nat, f: int, y: nat, x: nat, k: int, lo: int, hi: int)
    requires rebin >= 1 && lo == k * rebin && hi == lo + rebin
    ensures FrameCell(segs, frameSize, width, firstFrame, lastFrame, rebin, f, y, x, k) ==
            FrameRange(segs, frameSize, width, firstFrame, lastFrame, f, y, x, lo, hi)
  {
    FrameRangePixels(segs, frameSize, width, firstFrame, lastFrame, f, y, x, lo, hi);
    if 0 <= f < lastFrame - firstFrame {
      var g := Slot(firstFrame + f, Slot(y, x, width), frameSize);
      assert PixelCount(segs, g, k, rebin) == PixelRange(segs, g, lo, hi) by {
        PixelCountRebinned(segs, g, k, rebin);
        PixelRangeCounts(segs, g, lo, hi);
      }
    }
  }

  lemma {:induction false} FrameRangePixels(segs: seq<seq<int>>, frameSize: nat, width: nat, firstFrame: nat,
                                            lastFrame: nat, f: int, y: nat, x: nat, lo: int, hi: int)
    ensures FrameRange(segs, frameSize, width, firstFrame, lastFrame, f, y, x, lo, hi) ==
      if 0 <= f < lastFrame - firstFrame then PixelRange(segs, Slot(firstFrame + f, Slot(y, x, width), frameSize), lo, hi)
      else 0
    decreases hi - lo
  {
    if lo < hi {
      FrameRangePixels(segs, frameSize, width, firstFrame, lastFrame, f, y, x, lo, hi - 1);
    }
  }
}
