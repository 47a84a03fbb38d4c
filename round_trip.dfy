/** Encoding a cube with array_to_stream and decoding the stream again into a
    zeroed cube, with no rebinning and every frame kept, gives the cube back:
    the summed filler for a 3-D cube (one frame), the per-frame filler for a
    4-D cube (one frame per slab). */
module RoundTrip {
  import opened Arith
  import opened StreamFormat
  import opened Encoder
  import opened DenseFill
  import opened StreamToArray

  /** Count k of pixel q of a flattened cube, a negative count counting as
      none; nothing outside the cube. */
  function CountAt(flat: seq<int>, channels: nat, q: nat, k: int): nat
    requires IsCube(flat, channels)
  {
    if q < PixelTotal(flat, channels) && 0 <= k < channels then
      PixelFits(flat, channels, q);
      Max0(flat[q * channels + k])
    else 0
  }

  lemma PixelFits(flat: seq<int>, channels: nat, q: nat)
    requires IsCube(flat, channels) && q < PixelTotal(flat, channels)
    ensures q * channels + channels <= |flat|
  {
    MulSucc(q, channels);
    MulMonotone(q + 1, PixelTotal(flat, channels), channels);
  }

  /** Pixel segment q of the encoder's output holds count k of pixel q of the
      cube, unrebinned. */
  lemma EncodedPixel(flat: seq<int>, channels: nat, q: nat, k: int)
    requires IsCube(flat, channels) && PixelTotal(flat, channels) >= 1 && channels <= SENTINEL
    requires q < PixelTotal(flat, channels)
    ensures PixelCount(Segments(Encoding(flat, channels)), q, k, 1) == CountAt(flat, channels, q, k)
  {
    var p := PixelTotal(flat, channels);
    var segs := Segments(Encoding(flat, channels));
    EncodingSegments(flat, channels);
    SpectraAt(flat, channels, p, q);
    var counts := Spectrum(flat, channels, q);
    assert segs[q] == Expand(counts);
    ExpandCount(counts, k);
    assert PixelCount(segs, q, k, 1) == if 0 <= k < channels then Max0(counts[k]) else 0;
    SpectrumCount(flat, channels, q, k);
  }

  lemma SpectrumCount(flat: seq<int>, channels: nat, q: nat, k: int)
    requires IsCube(flat, channels) && q < PixelTotal(flat, channels)
    ensures q * channels + channels <= |flat|
    ensures CountAt(flat, channels, q, k) == if 0 <= k < channels then Max0(Spectrum(flat, channels, q)[k]) else 0
  {
    PixelFits(flat, channels, q);
  }

  /** Decoding the encoded 3-D cube with the summed filler over frame 0 only
      gives every cell back. */
  lemma RoundTripSummed(flat: seq<int>, height: nat, width: nat, channels: nat)
    requires IsCube(flat, channels) && PixelTotal(flat, channels) == height * width >= 1
    requires channels <= SENTINEL
    ensures forall y: nat, x: nat, k :: y < height && x < width ==>
      SummedCell(Segments(Encoding(flat, channels)), height * width, width, 0, 1, 1, y, x, k) ==
      CountAt(flat, channels, Slot(y, x, width), k)
  {
    forall y: nat, x: nat, k | y < height && x < width
      ensures SummedCell(Segments(Encoding(flat, channels)), height * width, width, 0, 1, 1, y, x, k) ==
              CountAt(flat, channels, Slot(y, x, width), k)
    {
      var pos := Slot(y, x, width);
      RasterBound(y, x, height, width);
      assert Slot(0, pos, height * width) == pos;
      EncodedPixel(flat, channels, pos, k);
    }
  }

  /** Decoding the encoded 4-D cube of `frames` frames with the per-frame
      filler over frames 0 .. frames - 1 gives every cell back. */
  lemma RoundTripPerFrame(flat: seq<int>, frames: nat, height: nat, width: nat, channels: nat)
    requires IsCube(flat, channels) && PixelTotal(flat, channels) == frames * (height * width) >= 1
    requires channels <= SENTINEL
    ensures forall f: nat, y: nat, x: nat, k :: f < frames && y < height && x < width ==>
      FrameCell(Segments(Encoding(flat, channels)), height * width, width, 0, frames, 1, f, y, x, k) ==
      CountAt(flat, channels, Slot(f, Slot(y, x, width), height * width), k)
  {
    forall f: nat, y: nat, x: nat, k | f < frames && y < height && x < width
      ensures FrameCell(Segments(Encoding(flat, channels)), height * width, width, 0, frames, 1, f, y, x, k) ==
              CountAt(flat, channels, Slot(f, Slot(y, x, width), height * width), k)
    {
      var g := Slot(f, Slot(y, x, width), height * width);
      RasterBound(y, x, height, width);
      MulBelow(f, Slot(y, x, width), frames, height * width);
      MulIsProduct(frames, height * width);
      EncodedPixel(flat, channels, g, k);
    }
  }

  /** Every count value the encoder writes fits a cube of `channels` channels. */
  lemma EncodingFits(flat: seq<int>, channels: nat)
    requires IsCube(flat, channels) && PixelTotal(flat, channels) >= 1
    ensures ChannelsFit(Encoding(flat, channels), 1, channels)
  {
    EncodingValues(flat, channels);
  }

  /** array_to_stream followed by stream_to_array in summed mode on a fresh
      cube, one frame, no rebinning. */
  method EncodeDecodeSummed(flat: seq<int>, height: nat, width: nat, channels: nat) returns (cube: array3<int>)
    requires IsCube(flat, channels) && PixelTotal(flat, channels) == height * width >= 1
    requires channels <= SENTINEL
    ensures fresh(cube) && cube.Length0 == height && cube.Length1 == width && cube.Length2 == channels
    ensures forall y, x, k :: 0 <= y < height && 0 <= x < width && 0 <= k < channels ==>
      cube[y, x, k] == CountAt(flat, channels, Slot(y, x, width), k)
  {
    var stream := ArrayToStream(flat, channels);
    EncodingFits(flat, channels);
    var image := StreamToArray.StreamToArray(stream, height, width, channels, 1, 0, 1, true, None);
    cube := image.cube;
    RoundTripSummed(flat, height, width, channels);
  }

  /** array_to_stream followed by stream_to_array in per-frame mode on a
      fresh cube, every frame kept, no rebinning. */
  method EncodeDecodePerFrame(flat: seq<int>, frames: nat, height: nat, width: nat, channels: nat)
    returns (cube: array4<int>)
    requires IsCube(flat, channels) && PixelTotal(flat, channels) == frames * (height * width) >= 1
    requires channels <= SENTINEL
    ensures fresh(cube) && cube.Length0 == frames && cube.Length1 == height && cube.Length2 == width
    ensures cube.Length3 == channels
    ensures forall f, y, x, k :: 0 <= f < frames && 0 <= y < height && 0 <= x < width && 0 <= k < channels ==>
      cube[f, y, x, k] == CountAt(flat, channels, Slot(f, Slot(y, x, width), height * width), k)
  {
    var stream := ArrayToStream(flat, channels);
    EncodingFits(flat, channels);
    if frames == 0 || height * width == 0 {
      assert false;
    }
    var image := StreamToArray.StreamToArray(stream, height, width, channels, frames, 0, 1, false, None);
    cube := image.frames;
    RoundTripPerFrame(flat, frames, height, width, channels);
  }
}
