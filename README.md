# FEI EMD spectrum stream codec, modelled in Dafny

HyperSpy reads spectrum images that FEI/Thermo-Fisher microscopes save as a
flat stream of 16-bit values. A value other than 65535 is one X-ray count in
that energy channel of the current pixel. The value 65535 (the sentinel)
closes the pixel and moves the raster cursor to the next one. After
`height * width` pixels the scan wraps to the next frame. The stream carries
no closing sentinel.

The module `hyperspy/misc/io/fei_stream_readers.py` turns such a stream into:

- a dense cube, summed over frames (rows, columns, channels) or kept per
  frame (frames, rows, columns, channels);
- or the coordinates and data of a sparse COO array of the same cube.

Both readers keep only frames `first_frame .. last_frame - 1`. Both can
rebin the energy axis, so that channel `v` counts in bin `v // rebin_energy`.
`array_to_stream` encodes a cube back into a stream.

The model works on the stream's **pixel segments**: the runs of values
between sentinels (`StreamFormat.Segments`). Segment `g` is the `g`-th pixel
the scan visits. In a scan with `F` pixels per frame, that is frame `g / F`,
raster position `g % F`. Products are written as `Arith.Mul`, repeated
addition, and `Arith.Slot(a, m, size) = Mul(a, size) + m` names a segment by
(frame, position) and a raster position by (row, column).

Modules and files:

- `arith.dfy` (`Arith`): products, raster index arithmetic.
- `stream_format.dfy` (`StreamFormat`):
  - the sentinel and segments;
  - per-pixel channel counts (`Count`, `PixelCount`);
  - the rebinning identity.
- `dense_fill.dfy` (`DenseFill`):
  - the two dense fillers as methods over `array3`/`array4`;
  - the cube they fill, as a function of the segments (`SummedCell`, `FrameCell`);
  - the loop's cursor (`Cursor`, `Advance`, `Scan`);
  - per-value, frame-window and rebinning lemmas.
- `stream_to_array.dfy` (`StreamToArray`): `stream_to_array`, as written and
  as documented (see Findings).
- `sparse_coo.dfy` (`SparseCoo`):
  - the two sparse builders as methods;
  - the runs a pixel is encoded into;
  - the entries the builders write out, as a function of the segments;
  - the builders' loop state (`Builder`, `BuildStep`, `Build`) and the lemma
    linking it to the entries;
  - `stream_to_sparse_COO_array` with its appended sentinel.
- `sparse_properties.dfy` (`SparseProperties`):
  - coordinates lie in the cube's shape;
  - runs are maximal;
  - the trailing open run;
  - a densified sparse output equals the dense cube.
- `encoder.dfy` (`Encoder`): `array_to_stream` and the layout of its output.
- `round_trip.dfy` (`RoundTrip`): encoding, then decoding into a zero cube,
  gives the cube back.

The cube to encode is given flattened in row-major order (NumPy's `ravel`),
together with its channel count. Streams are `seq<int>`. Cubes are arrays of
unbounded `int`.

## Model

| member | source | states |
|---|---|---|
| DenseFill.FillSumFrames | hyperspy/misc/io/fei_stream_readers.py:209-230 | Each cell (y, x, k) ends as its old value plus the counts of rebinned channel k at raster position (y, x), summed over the kept frames. Every array write is in bounds when the count values fit the channel axis. |
| DenseFill.Fill | hyperspy/misc/io/fei_stream_readers.py:234-255 | Each cell (f, y, x, k) ends as its old value plus the counts of rebinned channel k at (y, x) in frame first_frame + f. Every array write is in bounds. |
| DenseFill.SummedAddsOne | hyperspy/misc/io/fei_stream_readers.py:224-228 | One more count value at segment (frame, nav) adds exactly 1 to the summed cell at position nav and channel v // rebin. It adds this only when the frame is kept, and changes no other cell. |
| DenseFill.FrameAddsOne | hyperspy/misc/io/fei_stream_readers.py:248-253 | One more count value adds exactly 1 to cell (frame - first_frame, nav // W, nav % W, v // rebin) of the per-frame cube and changes no other cell. |
| DenseFill.ValueAddsOne | hyperspy/misc/io/fei_stream_readers.py:224-228 | Appending a count value v to a stream adds one count of bin v // rebin to the current pixel and leaves every other pixel as it was. |
| DenseFill.SentinelSame | hyperspy/misc/io/fei_stream_readers.py:229-230 | A sentinel changes no pixel's counts. It only opens a new, empty pixel. |
| DenseFill.SentinelsOnlyOutput | hyperspy/misc/io/fei_stream_readers.py:224-230 | A stream of sentinels only, including the empty stream, puts nothing in any cell of any frame range. |
| DenseFill.CellsPrefix | hyperspy/misc/io/fei_stream_readers.py:217-222 | Once the stream has passed the last pixel of frame last_frame - 1, the rest of it changes no cell of either cube. The loop's break therefore loses nothing. |
| DenseFill.SummedWindow | hyperspy/misc/io/fei_stream_readers.py:225-228 | The summed cube depends only on the pixels of frames first_frame .. last_frame - 1. Frames before first_frame add nothing. |
| DenseFill.FrameWindow | hyperspy/misc/io/fei_stream_readers.py:249-253 | The per-frame cube depends only on the pixels of its kept frames. |
| DenseFill.SummedIsFrameSum | hyperspy/misc/io/fei_stream_readers.py:217-253 | Frame windowing: the summed cube of frames first_frame .. last_frame - 1 equals the per-frame cube of the same window summed over its frame axis, cell by cell. |
| DenseFill.SummedRebinned | hyperspy/misc/io/fei_stream_readers.py:226-228 | Summed cell k with rebin r is the sum of the unrebinned summed cells k*r .. k*r + r - 1. |
| DenseFill.FrameRebinned | hyperspy/misc/io/fei_stream_readers.py:250-253 | Per-frame cell k with rebin r is the sum of the unrebinned cells k*r .. k*r + r - 1. |
| StreamFormat.CountRebinned | hyperspy/misc/io/fei_stream_readers.py:228 | The values of a pixel with v // r == k are those in channels k*r .. k*r + r - 1. |
| StreamFormat.SegmentsJoin | hyperspy/misc/io/fei_stream_readers.py:329-333 | Joining sentinel-free pixels with one sentinel between each two gives a stream whose segments are exactly those pixels. |
| StreamToArray.StreamToArray | hyperspy/misc/io/fei_stream_readers.py:258-309 | Without a buffer, returns a fresh zeroed cube of shape (frames, H, W, channels / rebin) or (H, W, channels / rebin), filled with the decoded counts. With a buffer, adds the decoded counts to it in either mode, as its documentation promises. |
| StreamToArray.StreamToArrayAsWritten | hyperspy/misc/io/fei_stream_readers.py:283-309 | The code as it stands: a supplied buffer in per-frame mode comes back unchanged. The other three cases are as in StreamToArray. |
| StreamToArray.OneCountIntended | hyperspy/misc/io/fei_stream_readers.py:234-255 | The stream [0] puts one count in cell (0, 0, 0, 0) of a one-pixel, one-channel, one-frame per-frame cube. |
| StreamToArray.UnfilledBuffer | hyperspy/misc/io/fei_stream_readers.py:284-296 | Witness of the finding: a zeroed per-frame buffer and the stream [0] give 0 as written, 1 as intended. |
| SparseCoo.SparseSumFrames | hyperspy/misc/io/fei_stream_readers.py:25-88 | The coordinates are (nav // W, nav % W, channel // rebin) and the data are the lengths of every run the builder closes in the kept frames, in stream order. The lists have equal length. The shape is (H, W, channels // rebin). |
| SparseCoo.SparsePerFrame | hyperspy/misc/io/fei_stream_readers.py:92-158 | The same entries with coordinates (frame - first_frame, nav // W, nav % W, channel // rebin). The shape is (last - first, H, W, channels // rebin). |
| SparseCoo.StreamToSparse | hyperspy/misc/io/fei_stream_readers.py:184-204 | Appends one sentinel to the stream, then returns the output of the builder of the chosen mode. |
| SparseCoo.BuildMeaning | hyperspy/misc/io/fei_stream_readers.py:35-83 | After any prefix of the stream, the entries written are the specified ones. Before first_frame nothing is written. The loop stops only once the stream has passed every pixel of the kept frames (at a pixel boundary). |
| SparseCoo.StopStep | hyperspy/misc/io/fei_stream_readers.py:46-50 | Once the last kept frame is complete, the rest of the stream changes no entry. |
| SparseCoo.RunsPositive | hyperspy/misc/io/fei_stream_readers.py:53-72 | Every run of a pixel has length >= 1 and holds a value of that pixel. |
| SparseCoo.RunsMaximal | hyperspy/misc/io/fei_stream_readers.py:54-67 | Consecutive runs of a pixel hold different values. |
| SparseCoo.RunsExpand | hyperspy/misc/io/fei_stream_readers.py:52-72 | Expanding the runs gives the pixel's values back. |
| SparseCoo.RunsCount | hyperspy/misc/io/fei_stream_readers.py:52-83 | Summing the run lengths per rebinned channel gives the pixel's counts in that channel. |
| SparseCoo.RunsSnoc | hyperspy/misc/io/fei_stream_readers.py:53-72 | A value equal to the open run lengthens it. A different value closes the open run and opens a run of length 1. |
| SparseCoo.RunEntriesAt | hyperspy/misc/io/fei_stream_readers.py:58-63 | The entries of a pixel are its runs, in order, each recorded at that pixel. |
| SparseProperties.EntriesIn | hyperspy/misc/io/fei_stream_readers.py:36-83 | Every entry lies in a kept frame and in that frame's raster. It has length >= 1 and a value present in its pixel. So empty pixels and skipped frames emit nothing. |
| SparseProperties.SumFramesInShape | hyperspy/misc/io/fei_stream_readers.py:76-85 | Every summed coordinate lies inside (H, W, channels // rebin), and every datum is >= 1. |
| SparseProperties.PerFrameInShape | hyperspy/misc/io/fei_stream_readers.py:144-155 | Every per-frame coordinate lies inside (last - first, H, W, channels // rebin), and every datum is >= 1. |
| SparseProperties.EntriesSeparated | hyperspy/misc/io/fei_stream_readers.py:54-67 | Adjacent entries of the same pixel differ in channel, so every entry is a maximal run. |
| SparseProperties.TrailingRun | hyperspy/misc/io/fei_stream_readers.py:74-83 | A run still open when the stream ends is not written out. Appending a sentinel, as line 186 does, adds exactly that run. |
| SparseProperties.ClosingSentinel | hyperspy/misc/io/fei_stream_readers.py:186 | The appended sentinel leaves every pixel's counts unchanged and closes every pixel. |
| SparseProperties.ScatterMass3 | hyperspy/misc/io/fei_stream_readers.py:58-81 | Reading the summed COO output at (y, x, k), with repeated coordinates summed, gives the total length of the entries at that pixel and bin. |
| SparseProperties.SparseMatchesDense3 | hyperspy/misc/io/fei_stream_readers.py:186 | The summed sparse array of a stream, densified, equals the summed dense cube of the same stream, cell by cell. |
| SparseProperties.SparseMatchesDense4 | hyperspy/misc/io/fei_stream_readers.py:186 | The per-frame sparse array, densified, equals the per-frame dense cube, cell by cell. |
| Encoder.ArrayToStream | hyperspy/misc/io/fei_stream_readers.py:313-335 | The output is every pixel's channel indices, each repeated by its count and followed by a sentinel, with the final sentinel removed. |
| Encoder.AppendCounts | hyperspy/misc/io/fei_stream_readers.py:327-328 | Appends the channel index exactly count times, and none for a count <= 0. |
| Encoder.EncodingLayout | hyperspy/misc/io/fei_stream_readers.py:322-333 | The output is the pixels' expanded spectra in ravel order, with exactly one sentinel between consecutive pixels and none at the end. |
| Encoder.EncodingLength | hyperspy/misc/io/fei_stream_readers.py:326-333 | The output length is the sum of all counts plus the number of pixels minus one. |
| Encoder.EncodingSegments | hyperspy/misc/io/fei_stream_readers.py:326-333 | Read back at its sentinels, the output gives one segment per pixel: that pixel's expanded spectrum. |
| Encoder.ExpandCount | hyperspy/misc/io/fei_stream_readers.py:327-328 | Channel c occurs in a pixel's expansion exactly as many times as its count. |
| Encoder.ExpandAscending | hyperspy/misc/io/fei_stream_readers.py:326-329 | A pixel's expansion holds only channel indices below the channel count, in ascending order. |
| Encoder.EncodingValues | hyperspy/misc/io/fei_stream_readers.py:326-332 | Every output value is a channel index or the sentinel. |
| RoundTrip.EncodedPixel | hyperspy/misc/io/fei_stream_readers.py:313-335 | Segment q of the encoded stream holds, in channel k, exactly count k of pixel q of the cube. |
| RoundTrip.RoundTripSummed | hyperspy/misc/io/fei_stream_readers.py:209-230 | The summed filler, over frame 0 with rebin 1, gives every cell of an encoded 3-D cube back. |
| RoundTrip.RoundTripPerFrame | hyperspy/misc/io/fei_stream_readers.py:234-255 | The per-frame filler, over frames 0 .. n - 1 with rebin 1, gives every cell of an encoded 4-D cube of n frames back. |
| RoundTrip.EncodeDecodeSummed | hyperspy/misc/io/fei_stream_readers.py:298-308 | array_to_stream, then stream_to_array in summed mode into a fresh zero cube, returns the 3-D cube it started from. |
| RoundTrip.EncodeDecodePerFrame | hyperspy/misc/io/fei_stream_readers.py:284-296 | array_to_stream, then stream_to_array in per-frame mode, returns the 4-D cube it started from. |

## Left out

- Reading the file, NumPy, numba's `jit`, `np.nditer` and `np.hstack`.
  - Streams are sequences of integers.
  - Cubes are Dafny arrays.
  - The flattened cube passed to the encoder stands for `array.ravel()`.
- The `sparse` package:
  - the `try: import sparse` block and `DenseSliceCOO`;
  - the `sparse_installed` flag and the `ImportError` it raises (lines 6-21 and 179-183);
  - converting the coordinate list to a NumPy array (`.T`).

  `SparseCoo.StreamToSparse` returns the coordinate list, data and shape that
  are handed to `DenseSliceCOO`. The flag is `False` even after a successful
  import, which the model does not reflect.
- `split_pvoigt.py` and `registers.py` are not part of this model.
- DenseFill.FillSumFrames: does not model the wrap-around of `uint16` cells.
  The model's cells are unbounded integers. The same holds for
  DenseFill.Fill and the cubes of StreamToArray.StreamToArray.
- The `dtype` argument of `stream_to_array` is left out. Its default is
  `uint16`; cells are unbounded integers here.
- StreamToArray.StreamToArray: the channel count is `channels / rebin` in
  exact integer division. The source computes `int(channels / rebin_energy)`
  in floating point, which agrees for the sizes that occur.
- DenseFill.Fill: its requires are a sufficient condition for every write
  to be in bounds. They are stronger than what makes the source fail:
  - `ChannelsFit` asks every count value of the stream to land on a channel
    of the cube. The source indexes only with the values of kept frames.
    Values in frames before `first_frame` are skipped without indexing
    (lines 225 and 249). Values after the break are never read (lines 221
    and 245).
  - A supplied 4-D buffer must have a slab for every kept frame. The source
    fails only when a count actually lands in a missing slab.
  - The raster must have at least one pixel.

  A write out of range raises `IndexError` in Python and is unchecked
  under numba. DenseFill.FillSumFrames asks the same of the channel axis.
- All readers require `first_frame < last_frame`. The source behaves as
  follows when `first_frame >= last_frame`:
  - `stream_to_array` in per-frame mode calls `np.zeros` with
    `last_frame - first_frame` frames (line 286). A negative size raises
    `ValueError`, and nothing is allocated. Equal bounds give an empty
    frame axis. The summed cube (line 299) has no frame axis.
  - The dense fillers test `frame_number == last_frame` at each frame wrap,
    counting up from 0 (lines 221 and 245). With `last_frame >= 1` they stop
    there having written nothing, since `first_frame <= frame_number`
    (lines 225 and 249) never held. With `last_frame == 0` they never stop:
    the summed filler then adds up every frame from `first_frame` on, and
    the per-frame filler writes to slab `frame_number - first_frame`, which
    grows past the end of any buffer.
  - The sparse builders skip frames before `first_frame` without testing
    `last_frame` (lines 36-47 and 103-114). From `first_frame` on,
    `frame_number` only grows past `last_frame`, so they emit every frame up
    to the end of the stream.
- The builders' `count_channel = None` start value is 0 in the model. It is
  read only while a run is open, so the value never matters.
- Encoder.ArrayToStream: a cube whose channel axis has length 0 has an
  empty `ravel()`. The loop body, and with it `channel % channels`, never
  runs, and the output is the empty stream. `IsCube` states exactly this
  case.
  Counts are any integers; a negative count appends nothing, like
  `range(value)`.
- RoundTrip.RoundTripSummed: the cube is read back through `Max0`, so a
  negative count comes back as 0; the counts of a `uint16` cube are never
  negative. The round trip also needs the channel count to be at most
  65535, so that every channel index is below the sentinel 65535.

The sparse builders stop only at a pixel boundary. One could read an early
stop at `last_frame` as cutting a pixel short and dropping its open run.
In the code, the stop test runs only once the cursor has moved past the last
pixel of frame `last_frame - 1`, which happens after a sentinel. So every
pixel of the kept frames is complete when the loop breaks
(`SparseCoo.BuildMeaning`, `SparseCoo.StopStep`). The one run that can be
lost is the one still open when the stream ends. `SparseProperties.TrailingRun`
shows that it is lost without the sentinel of line 186 and recovered with it.

## Findings

| source | as written | input that shows it | evidently intended | confidence | as-written member | corrected member |
|---|---|---|---|---|---|---|
| hyperspy/misc/io/fei_stream_readers.py:284-296 | With `sum_frames=False`, the call to `_fill_array_with_stream` sits inside `if spectrum_image is None:`. A supplied buffer is returned without being filled. | a zeroed buffer of shape (1, 1, 1, 1), stream `[0]`, `sum_frames=False`, `last_frame=1`: the buffer still holds 0 | The buffer is filled, as in summed mode and as the function's documentation of `spectrum_image` promises, so it holds 1 | not executed | StreamToArray.StreamToArrayAsWritten (witness StreamToArray.UnfilledBuffer) | StreamToArray.StreamToArray |
