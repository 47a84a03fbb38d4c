/** stream_to_array: decode a stream into a dense cube. It allocates a zeroed
    cube of the requested shape when no buffer is supplied and hands it, or
    the supplied buffer, to one of the two dense fillers. The number of
    rebinned channels is channels / rebin. */
module StreamToArray {
  import opened Arith
  import opened StreamFormat
  import opened DenseFill

  datatype Option<T> = None | Some(value: T)

  /** The array that is filled and returned: the summed cube (rows, columns,
      channels) or the per-frame cube (frames, rows, columns, channels). */
  datatype SpectrumImage = Summed(cube: array3<int>) | PerFrame(frames: array4<int>)

  /** The supplied buffer, if any. */
  function Footprint(buffer: Option<SpectrumImage>): set<object>
  {
    match buffer
    case None => {}
    case Some(Summed(cube)) => {cube}
    case Some(PerFrame(frames)) => {frames}
  }

  /** What the filler that the call reaches needs: a cube to fill whose
      frames have at least one pixel, per-frame cubes with a slab for every
      kept frame, and every count value landing on a channel of the cube.
      A supplied buffer must have the kind the mode fills; its own shape,
      not the requested one, decides the raster geometry. */
  predicate Fillable(buffer: Option<SpectrumImage>, stream: seq<int>, sumFrames: bool, height: nat, width: nat,
                     channels: nat, firstFrame: nat, lastFrame: nat, rebin: nat)
    requires rebin >= 1
  {
    match buffer
    case None =>
      height * width > 0 && ChannelsFit(stream, rebin, channels / rebin)
    case Some(Summed(cube)) =>
      sumFrames && cube.Length0 * cube.Length1 > 0 && ChannelsFit(stream, rebin, cube.Length2)
    case Some(PerFrame(frames)) =>
      !sumFrames && frames.Length1 * frames.Length2 > 0 && frames.Length0 >= lastFrame - firstFrame &&
      ChannelsFit(stream, rebin, frames.Length3)
  }

  /** A fresh summed cube of the requested shape holding the decoded counts. */
  ghost predicate SummedResult(cube: array3<int>, stream: seq<int>, height: nat, width: nat, channels: nat,
                               firstFrame: nat, lastFrame: nat, rebin: nat)
    requires rebin >= 1
    reads cube
  {
    cube.Length0 == height && cube.Length1 == width && cube.Length2 == channels / rebin &&
    forall y, x, k :: 0 <= y < height && 0 <= x < width && 0 <= k < cube.Length2 ==>
      cube[y, x, k] == SummedCell(Segments(stream), height * width, width, firstFrame, lastFrame, rebin, y, x, k)
  }

  /** A fresh per-frame cube of the requested shape holding the decoded counts. */
  ghost predicate FrameResult(frames: array4<int>, stream: seq<int>, height: nat, width: nat, channels: nat,
                              firstFrame: nat, lastFrame: nat, rebin: nat)
    requires rebin >= 1 && firstFrame <= lastFrame
    reads frames
  {
    frames.Length0 == lastFrame - firstFrame && frames.Length1 == height && frames.Length2 == width &&
    frames.Length3 == channels / rebin &&
    forall f, y, x, k :: 0 <= f < frames.Length0 && 0 <= y < height && 0 <= x < width && 0 <= k < frames.Length3 ==>
      frames[f, y, x, k] ==
        FrameCell(Segments(stream), height * width, width, firstFrame, lastFrame, rebin, f, y, x, k)
  }

  method NewSummed(stream: seq<int>, height: nat, width: nat, channels: nat, lastFrame: nat, firstFrame: nat,
                   rebin: nat) returns (cube: array3<int>)
    requires rebin >= 1 && firstFrame < lastFrame
    requires height * width > 0 && ChannelsFit(stream, rebin, channels / rebin)
    ensures fresh(cube)
    ensures SummedResult(cube, stream, height, width, channels, firstFrame, lastFrame, rebin)
  {
    cube := new int[height, width, channels / rebin]((y, x, k) => 0);
    FillSumFrames(cube, stream, firstFrame, lastFrame, rebin);
  }

  method NewPerFrame(stream: seq<int>, height: nat, width: nat, channels: nat, lastFrame: nat, firstFrame: nat,
                     rebin: nat) returns (frames: array4<int>)
    requires rebin >= 1 && firstFrame < lastFrame
    requires height * width > 0 && ChannelsFit(stream, rebin, channels / rebin)
    ensures fresh(frames)
    ensures FrameResult(frames, stream, height, width, channels, firstFrame, lastFrame, rebin)
  {
    frames := new int[lastFrame - firstFrame, height, width, channels / rebin]((f, y, x, k) => 0);
    Fill(frames, stream, firstFrame, lastFrame, rebin);
  }

  /** stream_to_array as written. With a supplied buffer and sum_frames off,
      the filler call sits inside the branch that allocates, so the buffer
      comes back exactly as it went in. */
  method StreamToArrayAsWritten(stream: seq<int>, height: nat, width: nat, channels: nat, lastFrame: nat,
                                firstFrame: nat, rebin: nat, sumFrames: bool, spectrumImage: Option<SpectrumImage>)
    returns (result: SpectrumImage)
    requires rebin >= 1 && firstFrame < lastFrame
    requires spectrumImage.None? || sumFrames ==>
      Fillable(spectrumImage, stream, sumFrames, height, width, channels, firstFrame, lastFrame, rebin)
    modifies Footprint(spectrumImage)
    ensures spectrumImage.Some? ==> result == spectrumImage.value
    ensures spectrumImage.None? && sumFrames ==>
      result.Summed? && fresh(result.cube) &&
      SummedResult(result.cube, stream, height, width, channels, firstFrame, lastFrame, rebin)
    ensures spectrumImage.None? && !sumFrames ==>
      result.PerFrame? && fresh(result.frames) &&
      FrameResult(result.frames, stream, height, width, channels, firstFrame, lastFrame, rebin)
    ensures spectrumImage.Some? && sumFrames ==>
      var cube := result.cube;
      forall y, x, k :: 0 <= y < cube.Length0 && 0 <= x < cube.Length1 && 0 <= k < cube.Length2 ==>
        cube[y, x, k] == old(cube[y, x, k]) +
          SummedCell(Segments(stream), cube.Length0 * cube.Length1, cube.Length1, firstFrame, lastFrame, rebin, y, x, k)
    ensures spectrumImage.Some? && !sumFrames ==> unchanged(Footprint(spectrumImage))
  {
    if !sumFrames {
      if spectrumImage.None? {
        var frames := NewPerFrame(stream, height, width, channels, lastFrame, firstFrame, rebin);
        result := PerFrame(frames);
      } else {
        result := spectrumImage.value;
      }
    } else {
      if spectrumImage.None? {
        var cube := NewSummed(stream, height, width, channels, lastFrame, firstFrame, rebin);
        result := Summed(cube);
      } else {
        result := spectrumImage.value;
        FillSumFrames(result.cube, stream, firstFrame, lastFrame, rebin);
      }
    }
  }

  /** stream_to_array as its documentation describes it: a supplied buffer is
      filled in either mode, on top of what it already holds. */
  method StreamToArray(stream: seq<int>, height: nat, width: nat, channels: nat, lastFrame: nat, firstFrame: nat,
                       rebin: nat, sumFrames: bool, spectrumImage: Option<SpectrumImage>)
    returns (result: SpectrumImage)
    requires rebin >= 1 && firstFrame < lastFrame
    requires Fillable(spectrumImage, stream, sumFrames, height, width, channels, firstFrame, lastFrame, rebin)
    modifies Footprint(spectrumImage)
    ensures spectrumImage.Some? ==> result == spectrumImage.value
    ensures spectrumImage.None? && sumFrames ==>
      result.Summed? && fresh(result.cube) &&
      SummedResult(result.cube, stream, height, width, channels, firstFrame, lastFrame, rebin)
    ensures spectrumImage.None? && !sumFrames ==>
      result.PerFrame? && fresh(result.frames) &&
      FrameResult(result.frames, stream, height, width, channels, firstFrame, lastFrame, rebin)
    ensures spectrumImage.Some? && sumFrames ==>
      var cube := result.cube;
      forall y, x, k :: 0 <= y < cube.Length0 && 0 <= x < cube.Length1 && 0 <= k < cube.Length2 ==>
        cube[y, x, k] == old(cube[y, x, k]) +
          SummedCell(Segments(stream), cube.Length0 * cube.Length1, cube.Length1, firstFrame, lastFrame, rebin, y, x, k)
    ensures spectrumImage.Some? && !sumFrames ==>
      var frames := result.frames;
      forall f, y, x, k :: 0 <= f < frames.Length0 && 0 <= y < frames.Length1 && 0 <= x < frames.Length2 &&
                           0 <= k < frames.Length3 ==>
        frames[f, y, x, k] == old(frames[f, y, x, k]) +
          FrameCell(Segments(stream), frames.Length1 * frames.Length2, frames.Length2, firstFrame, lastFrame, rebin,
                    f, y, x, k)
  {
    if !sumFrames {
      if spectrumImage.None? {
        var frames := NewPerFrame(stream, height, width, channels, lastFrame, firstFrame, rebin);
        result := PerFrame(frames);
      } else {
        result := spectrumImage.value;
        Fill(result.frames, stream, firstFrame, lastFrame, rebin);
      }
    } else {
      if spectrumImage.None? {
        var cube := NewSummed(stream, height, width, channels, lastFrame, firstFrame, rebin);
        result := Summed(cube);
      } else {
        result := spectrumImage.value;
        FillSumFrames(result.cube, stream, firstFrame, lastFrame, rebin);
      }
    }
  }

  /** The count that a per-frame buffer of one pixel and one channel should
      receive from the stream [0], one count in channel 0 of frame 0. */
  lemma OneCountIntended()
    ensures FrameCell(Segments([0]), 1, 1, 0, 1, 1, 0, 0, 0, 0) == 1
  {
    assert Segments([0]) == [[0]] by {
      assert [0] == [] + [0];
    }
    assert Slot(0, Slot(0, 0, 1), 1) == 0;
    assert Count([0], 0, 1) == 1 by {
      assert [0][..0] == [];
    }
  }

  /** A zeroed one-pixel, one-channel, one-frame buffer and the stream [0]:
      as written the buffer still holds 0 afterwards; the intended decoder
      leaves the one count in it. */
  method UnfilledBuffer() returns (asWritten: int, intended: int)
    ensures asWritten == 0 && intended == 1
  {
    var stream := [0];
    var buffer := new int[1, 1, 1, 1]((f, y, x, k) => 0);
    assert buffer[0, 0, 0, 0] == 0;
    assert Footprint(Some(PerFrame(buffer))) == {buffer};
    var written := StreamToArrayAsWritten(stream, 1, 1, 1, 1, 0, 1, false, Some(PerFrame(buffer)));
    asWritten := buffer[0, 0, 0, 0];
    assert asWritten == 0;
    var other := new int[1, 1, 1, 1]((f, y, x, k) => 0);
    assert ChannelsFit(stream, 1, 1);
    var fixed := StreamToArray(stream, 1, 1, 1, 1, 0, 1, false, Some(PerFrame(other)));
    assert other[0, 0, 0, 0] == FrameCell(Segments(stream), 1, 1, 0, 1, 1, 0, 0, 0, 0);
    OneCountIntended();
    intended := other[0, 0, 0, 0];
    assert intended == 1;
  }
}
