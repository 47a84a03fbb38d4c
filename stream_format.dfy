/** The FEI/Thermo-Fisher EMD spectrum stream: a flat sequence of 16-bit
    values where a value v != 65535 records one count in channel v of the
    current pixel and 65535 moves on to the next pixel of the raster scan.

    The stream is viewed here through its pixel segments: the runs of values
    between sentinels. Segment g belongs to the g-th pixel visited since the
    start of the stream; with frameSize pixels per frame, that is frame
    g / frameSize, raster position g % frameSize. */
module StreamFormat {
  import opened Arith

  /** The value that closes the spectrum of the current pixel. */
  const SENTINEL: int := 65535

  /** Every count value of the stream can be stored at channel v / rebin of a
      cube with `bins` channels (0 <= v, v / rebin < bins). */
  predicate ChannelsFit(s: seq<int>, rebin: nat, bins: int)
    requires rebin >= 1
  {
    forall v :: v in s && v != SENTINEL ==> 0 <= v && v / rebin < bins
  }

  /** c repeated n times (none when n <= 0, as Python's range(n)). */
  function Repeat(c: int, n: int): (r: seq<int>)
    ensures |r| == Max0(n)
    ensures forall i :: 0 <= i < |r| ==> r[i] == c
    decreases Max0(n)
  {
    if n <= 0 then [] else Repeat(c, n - 1) + [c]
  }

  /** The pixel segments of s, in stream order: a stream with n sentinels has
      n + 1 segments, the last one being what follows the last sentinel. */
  function Segments(s: seq<int>): (segs: seq<seq<int>>)
    ensures |segs| >= 1
    ensures forall g :: 0 <= g < |segs| ==> SENTINEL !in segs[g]
    decreases |s|
  {
    if s == [] then [[]]
    else
      var segs := Segments(s[..|s| - 1]);
      var v := s[|s| - 1];
      assert s == s[..|s| - 1] + [v];
      if v == SENTINEL then segs + [[]]
      else segs[..|segs| - 1] + [segs[|segs| - 1] + [v]]
  }

  /** The stream that lists the given segments with one sentinel between
      consecutive ones and none at the end. */
  function Join(segs: seq<seq<int>>): (s: seq<int>)
    requires |segs| >= 1
    decreases |segs|
  {
    if |segs| == 1 then segs[0]
    else Join(segs[..|segs| - 1]) + [SENTINEL] + segs[|segs| - 1]
  }

  /** Number of values of seg in rebinned channel k, that is with v / rebin == k. */
  function Count(seg: seq<int>, k: int, rebin: nat): (n: nat)
    requires rebin >= 1
    decreases |seg|
  {
    if seg == [] then 0
    else Count(seg[..|seg| - 1], k, rebin) + (if seg[|seg| - 1] / rebin == k then 1 else 0)
  }

  /** Counts of rebinned channel k in pixel segment g (nothing for a segment the stream does not reach). */
  function PixelCount(segs: seq<seq<int>>, g: int, k: int, rebin: nat): nat
    requires rebin >= 1
  {
    if 0 <= g < |segs| then Count(segs[g], k, rebin) else 0
  }

  /** Sum of the unrebinned counts of channels lo .. hi - 1 in seg. */
  function CountRange(seg: seq<int>, lo: int, hi: int): nat
    decreases hi - lo
  {
    if hi <= lo then 0 else CountRange(seg, lo, hi - 1) + Count(seg, hi - 1, 1)
  }

  // ---------------------------------------------------------------- Segments

  /** A stream with n sentinels has n + 1 segments. */
  lemma {:induction false} SegmentsLength(s: seq<int>)
    ensures |Segments(s)| == multiset(s)[SENTINEL] + 1
    decreases |s|
  {
    if s != [] {
      var p := s[..|s| - 1];
      SegmentsLength(p);
      assert s == p + [s[|s| - 1]];
    }
  }

  /** A count value extends the current (last) segment. */
  lemma SegmentsAppendValue(s: seq<int>, v: int)
    requires v != SENTINEL
    ensures var segs, segs' := Segments(s), Segments(s + [v]);
      |segs'| == |segs| && segs'[|segs| - 1] == segs[|segs| - 1] + [v] &&
      forall g :: 0 <= g < |segs| - 1 ==> segs'[g] == segs[g]
  {
    assert (s + [v])[..|s|] == s;
  }

  /** A sentinel closes the current segment and opens an empty one. */
  lemma SegmentsAppendSentinel(s: seq<int>)
    ensures Segments(s + [SENTINEL]) == Segments(s) + [[]]
  {
    assert (s + [SENTINEL])[..|s|] == s;
  }

  /** The segments of a prefix: all but its last are segments of the whole
      stream, and the whole stream has at least as many. */
  lemma {:induction false} SegmentsPrefix(s: seq<int>, i: nat)
    requires i <= |s|
    ensures |Segments(s[..i])| <= |Segments(s)|
    ensures forall g :: 0 <= g < |Segments(s[..i])| - 1 ==> Segments(s)[g] == Segments(s[..i])[g]
    decreases |s| - i
  {
    if i < |s| {
      SegmentsPrefix(s, i + 1);
      assert s[..i + 1] == s[..i] + [s[i]];
      if s[i] == SENTINEL {
        SegmentsAppendSentinel(s[..i]);
      } else {
        SegmentsAppendValue(s[..i], s[i]);
      }
    } else {
      assert s[..i] == s;
    }
  }

  /** Appending sentinel-free values t only lengthens the last segment. */
  lemma {:induction false} SegmentsExtend(x: seq<int>, t: seq<int>)
    requires SENTINEL !in t
    ensures var segs := Segments(x);
      Segments(x + t) == segs[..|segs| - 1] + [segs[|segs| - 1] + t]
    decreases |t|
  {
    var segs := Segments(x);
    var n := |segs|;
    if t == [] {
      assert x + t == x;
      assert segs[n - 1] + t == segs[n - 1];
      assert segs[..n - 1] + [segs[n - 1]] == segs;
    } else {
      var t' := t[..|t| - 1];
      var v := t[|t| - 1];
      assert t == t' + [v];
      assert SENTINEL !in t' && v != SENTINEL by {
        assert v in t;
        forall w | w in t' ensures w in t { }
      }
      SegmentsExtend(x, t');
      assert x + t == (x + t') + [v];
      ExtendStep(x + t', v, segs[..n - 1], segs[n - 1] + t');
      assert (segs[n - 1] + t') + [v] == segs[n - 1] + t;
    }
  }

  lemma ExtendStep(p: seq<int>, v: int, closed: seq<seq<int>>, open: seq<int>)
    requires v != SENTINEL
    requires Segments(p) == closed + [open]
    ensures Segments(p + [v]) == closed + [open + [v]]
  {
    SegmentsAppendValue(p, v);
    var after := Segments(p + [v]);
    assert |after| == |closed| + 1;
    forall g | 0 <= g <= |closed| ensures after[g] == (closed + [open + [v]])[g] {
      if g < |closed| {
        assert after[g] == (closed + [open])[g];
      }
    }
  }

  /** Splitting at the sentinels undoes Join. */
  lemma {:induction false} SegmentsJoin(segs: seq<seq<int>>)
    requires |segs| >= 1
    requires forall g :: 0 <= g < |segs| ==> SENTINEL !in segs[g]
    ensures Segments(Join(segs)) == segs
    decreases |segs|
  {
    if |segs| == 1 {
      SegmentsExtend([], segs[0]);
      assert [] + segs[0] == segs[0];
    } else {
      var init := segs[..|segs| - 1];
      var last := segs[|segs| - 1];
      SegmentsJoin(init);
      SegmentsAppendSentinel(Join(init));
      SegmentsExtend(Join(init) + [SENTINEL], last);
      assert Segments(Join(init) + [SENTINEL]) == init + [[]];
      assert (init + [[]])[..|init|] == init;
      assert [] + last == last;
      assert init + [last] == segs;
    }
  }

  /** Joining the segments of a stream gives the stream back. */
  lemma {:induction false} JoinSegments(s: seq<int>)
    ensures Join(Segments(s)) == s
    decreases |s|
  {
    if s != [] {
      var p := s[..|s| - 1];
      var v := s[|s| - 1];
      assert s == p + [v];
      JoinSegments(p);
      var segs := Segments(p);
      if v == SENTINEL {
        SegmentsAppendSentinel(p);
        var segs' := segs + [[]];
        assert segs'[..|segs'| - 1] == segs;
      } else {
        SegmentsAppendValue(p, v);
        var segs' := Segments(s);
        if |segs| > 1 {
          assert segs'[..|segs'| - 1] == segs[..|segs| - 1];
        }
      }
    }
  }

  // ------------------------------------------------------------------- Count

  /** With rebin 1, Count is the multiplicity of the channel in the segment. */
  lemma {:induction false} CountIsMultiplicity(seg: seq<int>, c: int)
    ensures Count(seg, c, 1) == multiset(seg)[c]
    decreases |seg|
  {
    if seg != [] {
      assert seg == seg[..|seg| - 1] + [seg[|seg| - 1]];
      CountIsMultiplicity(seg[..|seg| - 1], c);
    }
  }

  lemma {:induction false} CountConcat(a: seq<int>, b: seq<int>, k: int, rebin: nat)
    requires rebin >= 1
    ensures Count(a + b, k, rebin) == Count(a, k, rebin) + Count(b, k, rebin)
    decreases |b|
  {
    if b == [] {
      assert a + b == a;
    } else {
      var b' := b[..|b| - 1];
      assert a + b == (a + b') + [b[|b| - 1]];
      assert (a + b)[..|a + b| - 1] == a + b';
      CountConcat(a, b', k, rebin);
    }
  }

  lemma {:induction false} CountRepeat(c: int, n: int, k: int, rebin: nat)
    requires rebin >= 1
    ensures Count(Repeat(c, n), k, rebin) == if c / rebin == k then Max0(n) else 0
    decreases Max0(n)
  {
    if n > 0 {
      CountRepeat(c, n - 1, k, rebin);
      assert Repeat(c, n)[..|Repeat(c, n)| - 1] == Repeat(c, n - 1);
    }
  }

  /** v falls in rebinned channel k exactly when k * rebin <= v < k * rebin + rebin. */
  lemma RebinnedChannel(v: int, k: int, rebin: nat)
    requires rebin >= 1
    ensures v / rebin == k <==> k * rebin <= v < k * rebin + rebin
  {
    if k * rebin <= v < k * rebin + rebin {
      DivModOf(k, v - k * rebin, rebin);
    }
    DivModOf(v / rebin, v % rebin, rebin);
  }

  lemma {:induction false} CountRangeAppend(seg: seq<int>, v: int, lo: int, hi: int)
    ensures CountRange(seg + [v], lo, hi) == CountRange(seg, lo, hi) + (if lo <= v < hi then 1 else 0)
    decreases hi - lo
  {
    if hi > lo {
      CountRangeAppend(seg, v, lo, hi - 1);
      assert (seg + [v])[..|seg|] == seg;
    }
  }

  /** Rebinning: the counts of rebinned channel k are the sum of the counts of
      the unrebinned channels k * rebin .. k * rebin + rebin - 1. */
  lemma {:induction false} CountRebinned(seg: seq<int>, k: int, rebin: nat)
    requires rebin >= 1
    ensures Count(seg, k, rebin) == CountRange(seg, k * rebin, k * rebin + rebin)
    decreases |seg|
  {
    if seg == [] {
      CountRangeEmpty(k * rebin, k * rebin + rebin);
    } else {
      var p := seg[..|seg| - 1];
      var v := seg[|seg| - 1];
      assert seg == p + [v];
      CountRebinned(p, k, rebin);
      CountRangeAppend(p, v, k * rebin, k * rebin + rebin);
      RebinnedChannel(v, k, rebin);
    }
  }

  lemma {:induction false} CountRangeEmpty(lo: int, hi: int)
    ensures CountRange([], lo, hi) == 0
    decreases hi - lo
  {
    if hi > lo {
      CountRangeEmpty(lo, hi - 1);
    }
  }

  /** The same rebinning identity for a pixel of the decoded cube. */
  lemma PixelCountRebinned(segs: seq<seq<int>>, g: int, k: int, rebin: nat)
    requires rebin >= 1
    ensures PixelCount(segs, g, k, rebin) ==
      if 0 <= g < |segs| then CountRange(segs[g], k * rebin, k * rebin + rebin) else 0
  {
    if 0 <= g < |segs| {
      CountRebinned(segs[g], k, rebin);
    }
  }

  /** A stream of sentinels only has nothing but empty segments. */
  lemma {:induction false} SentinelsOnly(s: seq<int>)
    requires forall i :: 0 <= i < |s| ==> s[i] == SENTINEL
    ensures forall g :: 0 <= g < |Segments(s)| ==> Segments(s)[g] == []
    decreases |s|
  {
    if s != [] {
      var p := s[..|s| - 1];
      SentinelsOnly(p);
      assert s == p + [SENTINEL];
      SegmentsAppendSentinel(p);
    }
  }
}
