/** array_to_stream: the inverse direction, from a count cube to a stream.

    The cube arrives flattened in row-major order (NumPy's ravel), its last
    axis being the channel axis: pixel q holds flat[q * channels ..
    q * channels + channels]. For a 4-D cube the frames simply follow one
    another, so frame f, raster position nav is pixel f * frameSize + nav. */
module Encoder {
  import opened Arith
  import opened StreamFormat

  /** The flattened array has whole pixels (and no values when it has no channels). */
  predicate IsCube(flat: seq<int>, channels: nat)
  {
    if channels == 0 then flat == [] else |flat| % channels == 0
  }

  /** Number of pixels of a flattened cube. */
  function PixelTotal(flat: seq<int>, channels: nat): (p: nat)
    requires IsCube(flat, channels)
    ensures p * channels == |flat|
  {
    if channels == 0 then 0
    else
      DivModOf(|flat| / channels, 0, channels);
      assert |flat| == (|flat| / channels) * channels + |flat| % channels;
      |flat| / channels
  }

  /** The counts of pixel q. */
  function Spectrum(flat: seq<int>, channels: nat, q: nat): (counts: seq<int>)
    requires q * channels + channels <= |flat|
    ensures |counts| == channels
  {
    flat[q * channels .. q * channels + channels]
  }

  /** The stream values of one spectrum: each channel index c in ascending
      order, as many times as counts[c] says. */
  function Expand(counts: seq<int>): seq<int>
    decreases |counts|
  {
    if counts == [] then []
    else Expand(counts[..|counts| - 1]) + Repeat(|counts| - 1, counts[|counts| - 1])
  }

  /** Expanded spectra of pixels 0 .. p - 1. */
  ghost function Spectra(flat: seq<int>, channels: nat, p: nat): (r: seq<seq<int>>)
    requires p * channels <= |flat|
    ensures |r| == p
    decreases p
  {
    if p == 0 then []
    else Spectra(flat, channels, p - 1) + [Expand(Spectrum(flat, channels, p - 1))]
  }

  /** Expanded spectra of pixels 0 .. p - 1, each followed by a sentinel. */
  ghost function Terminated(flat: seq<int>, channels: nat, p: nat): seq<int>
    requires p * channels <= |flat|
    decreases p
  {
    if p == 0 then []
    else Terminated(flat, channels, p - 1) + Expand(Spectrum(flat, channels, p - 1)) + [SENTINEL]
  }

  /** The stream array_to_stream returns: every pixel's values and sentinel,
      with the final sentinel removed. */
  ghost function Encoding(flat: seq<int>, channels: nat): seq<int>
    requires IsCube(flat, channels)
  {
    var t := Terminated(flat, channels, PixelTotal(flat, channels));
    if t == [] then [] else t[..|t| - 1]
  }

  /** Sum of the counts of a spectrum or cube, a negative count counting as none. */
  function Total(counts: seq<int>): nat
    decreases |counts|
  {
    if counts == [] then 0 else Total(counts[..|counts| - 1]) + Max0(counts[|counts| - 1])
  }

  predicate Ascending(s: seq<int>)
  {
    forall i, j :: 0 <= i <= j < |s| ==> s[i] <= s[j]
  }

  method ArrayToStream(flat: seq<int>, channels: nat) returns (stream: seq<int>)
    requires IsCube(flat, channels)
    ensures stream == Encoding(flat, channels)
  {
    var streamData: seq<int> := [];
    var channel := 0;
    for i := 0 to |flat|
      invariant channels > 0 ==> Progress(streamData, channel) == EncodeRun(flat, channels, i)
      invariant channels == 0 ==> streamData == []
    {
      var value := flat[i];
      streamData := AppendCounts(streamData, channel, value);
      channel := channel + 1;
      if channel % channels == 0 {
        channel := 0;
        streamData := streamData + [SENTINEL];
      }
    }
    assert streamData == Terminated(flat, channels, PixelTotal(flat, channels)) by {
      if channels > 0 {
        EncodeRunWhole(flat, channels);
      }
    }
    stream := if |streamData| == 0 then [] else streamData[..|streamData| - 1];
  }

  /** The loop state of array_to_stream: the stream built so far and the channel counter. */
  datatype Progress = Progress(data: seq<int>, channel: int)

  /** One iteration of array_to_stream's loop on count `value`: the channel
      index repeated `value` times, then the counter moves on and wraps at
      the end of the pixel, where a sentinel is appended. */
  function EncodeStep(st: Progress, value: int, channels: nat): Progress
    requires channels > 0
  {
    var data := st.data + Repeat(st.channel, value);
    var channel := st.channel + 1;
    if channel % channels == 0 then Progress(data + [SENTINEL], 0) else Progress(data, channel)
  }

  /** The loop state after reading flat[..i]. */
  function EncodeRun(flat: seq<int>, channels: nat, i: nat): Progress
    requires channels > 0 && i <= |flat|
    decreases i
  {
    if i == 0 then Progress([], 0) else EncodeStep(EncodeRun(flat, channels, i - 1), flat[i - 1], channels)
  }

  /** After flat[..i] the loop holds the pixels before `pixel`, each
      terminated by a sentinel, then the counts of pixel `pixel` read so
      far; the channel counter is the position inside that pixel. */
  lemma {:induction false} EncodeRunMeaning(flat: seq<int>, channels: nat, i: nat) returns (pixel: nat)
    requires channels > 0 && i <= |flat|
    ensures 0 <= EncodeRun(flat, channels, i).channel < channels
    ensures i == pixel * channels + EncodeRun(flat, channels, i).channel
    ensures Encoded(flat, channels, pixel, pixel * channels, i, EncodeRun(flat, channels, i).data)
    decreases i
  {
    if i == 0 {
      pixel := 0;
      assert Expand(flat[0 .. 0]) == [];
    } else {
      var j := i - 1;
      var p := EncodeRunMeaning(flat, channels, j);
      pixel := EncodeRunStep(flat, channels, j, i, p);
    }
  }

  lemma EncodeRunStep(flat: seq<int>, channels: nat, j: nat, i: nat, p: nat) returns (pixel: nat)
    requires channels > 0 && i == j + 1 <= |flat|
    requires 0 <= EncodeRun(flat, channels, j).channel < channels
    requires j == p * channels + EncodeRun(flat, channels, j).channel
    requires Encoded(flat, channels, p, p * channels, j, EncodeRun(flat, channels, j).data)
    ensures 0 <= EncodeRun(flat, channels, i).channel < channels
    ensures i == pixel * channels + EncodeRun(flat, channels, i).channel
    ensures Encoded(flat, channels, pixel, pixel * channels, i, EncodeRun(flat, channels, i).data)
  {
    var st := EncodeRun(flat, channels, j);
    assert EncodeRun(flat, channels, i) == EncodeStep(st, flat[j], channels);
    var start := p * channels;
    var data := st.data + Repeat(st.channel, flat[j]);
    EncodeValueStep(flat, channels, p, start, j, st.data, data);
    WrapsAt(st.channel + 1, channels);
    if st.channel + 1 == channels {
      EncodePixelStep(flat, channels, p, start, i, data);
      MulSucc(p, channels);
      pixel := p + 1;
    } else {
      pixel := p;
    }
  }

  /** Once the whole array is read, the loop holds every pixel terminated by a sentinel. */
  lemma EncodeRunWhole(flat: seq<int>, channels: nat)
    requires IsCube(flat, channels) && channels > 0
    ensures EncodeRun(flat, channels, |flat|).data == Terminated(flat, channels, PixelTotal(flat, channels))
  {
    var pixel := EncodeRunMeaning(flat, channels, |flat|);
    EncodingWhole(flat, channels, pixel, EncodeRun(flat, channels, |flat|).channel);
    assert flat[pixel * channels .. |flat|] == [];
    assert Expand(flat[pixel * channels .. |flat|]) == [];
  }

  lemma TerminatedSnoc(flat: seq<int>, channels: nat, p: nat)
    requires p * channels + channels <= |flat|
    ensures (p + 1) * channels <= |flat|
    ensures Terminated(flat, channels, p + 1) ==
      Terminated(flat, channels, p) + Expand(Spectrum(flat, channels, p)) + [SENTINEL]
  {
    MulSucc(p, channels);
  }

  /** `for j in range(count): stream_data.append(channel)` */
  method AppendCounts(streamData: seq<int>, channel: int, count: int) returns (r: seq<int>)
    ensures r == streamData + Repeat(channel, count)
  {
    r := streamData;
    var j := 0;
    while j < count
      invariant 0 <= j <= Max0(count)
      invariant r == streamData + Repeat(channel, j)
    {
      r := r + [channel];
      j := j + 1;
    }
  }

  /** The channel counter wraps exactly when it reaches the channel count. */
  lemma WrapsAt(channel: int, channels: int)
    requires 0 < channel <= channels
    ensures (channel % channels == 0) <==> channel == channels
  {
    if channel < channels {
      DivModOf(0, channel, channels);
    } else {
      DivModOf(1, 0, channels);
    }
  }

  /** The loop state of array_to_stream after reading flat[..i]: the pixels
      before `pixel` terminated by sentinels, then the counts of the current
      pixel read so far, which starts at index `start`. */
  ghost predicate Encoded(flat: seq<int>, channels: nat, pixel: nat, start: nat, i: nat, streamData: seq<int>)
  {
    start == pixel * channels && start <= i <= |flat| &&
    streamData == Terminated(flat, channels, pixel) + Expand(flat[start .. i])
  }

  /** One count value of the current pixel appended. */
  lemma EncodeValueStep(flat: seq<int>, channels: nat, pixel: nat, start: nat, i: nat, before: seq<int>, after: seq<int>)
    requires i < |flat| && Encoded(flat, channels, pixel, start, i, before)
    requires after == before + Repeat(i - start, flat[i])
    ensures Encoded(flat, channels, pixel, start, i + 1, after)
  {
    var t := Terminated(flat, channels, pixel);
    var e := Expand(flat[start .. i]);
    var r := Repeat(i - start, flat[i]);
    assert Expand(flat[start .. i + 1]) == e + r by {
      var w := flat[start .. i + 1];
      ExpandSnoc(w);
      assert w[..i - start] == flat[start .. i];
    }
    IntConcatAssoc(t, e, r);
  }

  lemma IntConcatAssoc(a: seq<int>, b: seq<int>, c: seq<int>)
    ensures a + (b + c) == a + b + c
  {
  }

  /** The last channel of the current pixel done: the pixel is closed by a sentinel. */
  lemma EncodePixelStep(flat: seq<int>, channels: nat, pixel: nat, start: nat, i: nat, streamData: seq<int>)
    requires Encoded(flat, channels, pixel, start, i, streamData) && i == start + channels
    ensures Encoded(flat, channels, pixel + 1, start + channels, i, streamData + [SENTINEL])
  {
    MulSucc(pixel, channels);
    assert Spectrum(flat, channels, pixel) == flat[start .. i];
    TerminatedSnoc(flat, channels, pixel);
    assert flat[start + channels .. i] == [];
  }

  lemma ExpandSnoc(counts: seq<int>)
    requires counts != []
    ensures Expand(counts) == Expand(counts[..|counts| - 1]) + Repeat(|counts| - 1, counts[|counts| - 1])
  {
  }

  /** Once the whole array is consumed, the loop's pixel count is PixelTotal. */
  lemma EncodingWhole(flat: seq<int>, channels: nat, pixel: nat, channel: nat)
    requires IsCube(flat, channels)
    requires channels > 0 ==> channel < channels
    requires |flat| == pixel * channels + channel
    requires channels == 0 ==> pixel == 0
    ensures channel == 0 || channels == 0
    ensures pixel == PixelTotal(flat, channels)
  {
    if channels > 0 {
      DivModOf(pixel, channel, channels);
    }
  }

  // ------------------------------------------------------------- properties

  /** Channel c of a spectrum appears exactly counts[c] times in its expansion. */
  lemma {:induction false} ExpandCount(counts: seq<int>, c: int)
    ensures Count(Expand(counts), c, 1) == if 0 <= c < |counts| then Max0(counts[c]) else 0
    decreases |counts|
  {
    if counts != [] {
      var n := |counts| - 1;
      ExpandCount(counts[..n], c);
      CountConcat(Expand(counts[..n]), Repeat(n, counts[n]), c, 1);
      CountRepeat(n, counts[n], c, 1);
    }
  }

  /** The expansion lists channel indices 0 .. |counts| - 1 only, in ascending order. */
  lemma {:induction false} ExpandAscending(counts: seq<int>)
    ensures forall v :: v in Expand(counts) ==> 0 <= v < |counts|
    ensures Ascending(Expand(counts))
    decreases |counts|
  {
    if counts != [] {
      var n := |counts| - 1;
      ExpandAscending(counts[..n]);
      var a, b := Expand(counts[..n]), Repeat(n, counts[n]);
      assert Expand(counts) == a + b;
      forall v | v in a + b ensures 0 <= v < |counts| {
        if v in b {
          var i :| 0 <= i < |b| && b[i] == v;
        }
      }
      forall i, j | 0 <= i <= j < |a + b| ensures (a + b)[i] <= (a + b)[j] {
        if i < |a| {
          assert a[i] in a;
        }
        if j < |a| {
          assert a[j] in a;
        }
      }
    }
  }

  lemma {:induction false} TotalConcat(a: seq<int>, b: seq<int>)
    ensures Total(a + b) == Total(a) + Total(b)
    decreases |b|
  {
    if b == [] {
      assert a + b == a;
    } else {
      var b' := b[..|b| - 1];
      assert (a + b)[..|a + b| - 1] == a + b';
      TotalConcat(a, b');
    }
  }

  /** A spectrum expands to as many values as it holds counts. */
  lemma {:induction false} ExpandLength(counts: seq<int>)
    ensures |Expand(counts)| == Total(counts)
    decreases |counts|
  {
    if counts != [] {
      ExpandLength(counts[..|counts| - 1]);
    }
  }

  lemma {:induction false} TerminatedIsJoin(flat: seq<int>, channels: nat, p: nat)
    requires 1 <= p && p * channels <= |flat|
    ensures Terminated(flat, channels, p) == Join(Spectra(flat, channels, p)) + [SENTINEL]
    decreases p
  {
    var sp := Spectra(flat, channels, p);
    if p > 1 {
      TerminatedIsJoin(flat, channels, p - 1);
      assert sp[..p - 1] == Spectra(flat, channels, p - 1);
    }
  }

  lemma {:induction false} TerminatedLength(flat: seq<int>, channels: nat, p: nat)
    requires p * channels <= |flat|
    ensures |Terminated(flat, channels, p)| == Total(flat[..p * channels]) + p
    decreases p
  {
    if p > 0 {
      var q := p - 1;
      MulSucc(q, channels);
      TerminatedLength(flat, channels, q);
      TerminatedLengthStep(flat, channels, q, p);
    }
  }

  lemma TerminatedLengthStep(flat: seq<int>, channels: nat, q: nat, p: nat)
    requires p == q + 1 && q * channels + channels <= |flat| && p * channels == q * channels + channels
    requires |Terminated(flat, channels, q)| == Total(flat[..q * channels]) + q
    ensures |Terminated(flat, channels, p)| == Total(flat[..p * channels]) + p
  {
    var spectrum := Spectrum(flat, channels, q);
    assert flat[..p * channels] == flat[..q * channels] + spectrum;
    TotalConcat(flat[..q * channels], spectrum);
    ExpandLength(spectrum);
  }

  /** Layout of the encoder's output: the expanded pixels in row-major order,
      exactly one sentinel between consecutive pixels and none at the end. */
  lemma EncodingLayout(flat: seq<int>, channels: nat)
    requires IsCube(flat, channels) && PixelTotal(flat, channels) >= 1
    ensures Encoding(flat, channels) == Join(Spectra(flat, channels, PixelTotal(flat, channels)))
  {
    var p := PixelTotal(flat, channels);
    TerminatedIsJoin(flat, channels, p);
    var t := Terminated(flat, channels, p);
    assert t[..|t| - 1] == Join(Spectra(flat, channels, p));
  }

  /** The encoder's output holds every count once and one sentinel fewer than pixels. */
  lemma EncodingLength(flat: seq<int>, channels: nat)
    requires IsCube(flat, channels) && PixelTotal(flat, channels) >= 1
    ensures |Encoding(flat, channels)| == Total(flat) + PixelTotal(flat, channels) - 1
  {
    var p := PixelTotal(flat, channels);
    TerminatedLength(flat, channels, p);
    assert flat[..p * channels] == flat;
  }

  /** Read back at the sentinels, the encoder's output gives one segment per
      pixel: the pixel's expanded spectrum. This needs the channel indices to
      stay below the sentinel value. */
  lemma EncodingSegments(flat: seq<int>, channels: nat)
    requires IsCube(flat, channels) && PixelTotal(flat, channels) >= 1
    requires channels <= SENTINEL
    ensures Segments(Encoding(flat, channels)) == Spectra(flat, channels, PixelTotal(flat, channels))
  {
    var p := PixelTotal(flat, channels);
    var sp := Spectra(flat, channels, p);
    EncodingLayout(flat, channels);
    forall g | 0 <= g < |sp| ensures SENTINEL !in sp[g] {
      SpectraAt(flat, channels, p, g);
      ExpandAscending(Spectrum(flat, channels, g));
    }
    SegmentsJoin(sp);
  }

  lemma {:induction false} SpectraAt(flat: seq<int>, channels: nat, p: nat, q: nat)
    requires p * channels <= |flat| && q < p
    ensures q * channels + channels <= |flat|
    ensures Spectra(flat, channels, p)[q] == Expand(Spectrum(flat, channels, q))
    decreases p
  {
    MulMonotone(q + 1, p, channels);
    if q < p - 1 {
      SpectraAt(flat, channels, p - 1, q);
    }
  }

  /** Every value of the encoder's output is a channel index or the sentinel. */
  lemma EncodingValues(flat: seq<int>, channels: nat)
    requires IsCube(flat, channels) && PixelTotal(flat, channels) >= 1
    ensures forall v :: v in Encoding(flat, channels) ==> v == SENTINEL || 0 <= v < channels
  {
    var p := PixelTotal(flat, channels);
    EncodingLayout(flat, channels);
    var sp := Spectra(flat, channels, p);
    forall g | 0 <= g < |sp| ensures forall v :: v in sp[g] ==> 0 <= v < channels {
      SpectraAt(flat, channels, p, g);
      ExpandAscending(Spectrum(flat, channels, g));
    }
    JoinValues(sp, channels);
  }

  lemma {:induction false} JoinValues(segs: seq<seq<int>>, bound: int)
    requires |segs| >= 1
    requires forall g :: 0 <= g < |segs| ==> forall v :: v in segs[g] ==> 0 <= v < bound
    ensures forall v :: v in Join(segs) ==> v == SENTINEL || 0 <= v < bound
    decreases |segs|
  {
    if |segs| > 1 {
      JoinValues(segs[..|segs| - 1], bound);
    }
  }
}
