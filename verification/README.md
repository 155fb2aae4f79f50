# Streaming decoding, GIF compositing, containers and pixel arithmetic of the WebP plug-in

This project models the parts of the plug-in's vendored libwebp, and of the plug-in itself,
whose correctness depends on state carried from one call to the next, and proves what those
parts promise. Everything is plain Dafny 4.11; `dafny verify dfyconfig.toml` checks the whole
project.

## What is modelled

**The row pipeline of the lossy decoder** (`RowGeometry`, `LoopFilter`, `FilterOrder`,
`Dithering`, `DelayLine`, `CropFilter`, `LineUpsampler`, `FancyUpsampler`, `AlphaRows`,
`RowPipeline`, `UpsampledPicture`). Macroblock rows are reconstructed into a small cache; the
macroblocks near the cropping window are filtered and dithered, the others skipped; the last 0,
2 or 8 luma rows are held back for the loop filter of the next row, the cache is rotated, the
rows that became final are cropped and given to `put()`, the fancy upsampler delays one more
row, and the alpha emitter follows that delay. The reference has none of this: it filters and
dithers every macroblock of the whole planes, crops them once and computes each output row by
itself. `Pipeline.DecodeRows` computes the reference picture for every picture size, cropping
window with an even top, filter type, number of cache slots and upsampler. The filters are
taken apart into single pixels for that: `FilterOrder` says which edges are taken, in which
order, and what is done to each pixel of the reference; `CropFilter` shows for the simple and
for the complex filter that the macroblocks skipped, above, beside and below the window, never
change a pixel of it. `UpsampledPicture` puts it all together: each pixel written is the colour
of one filtered luma sample and of the blend of four filtered samples of each chroma plane.
`ThreadProtocol` is the version with a worker thread: single reads and writes of both threads
in any order; between two calls of `put()` the worker reads all that the row takes and nothing
else.

**The incremental decoder** (`IncrementalBuffer`, `PartitionLayout`, `DecoderStates`). A
pointer is an address; the ghost stream offset of an address says what the pointer means.
Appending may move the buffer and drop its front, and every live pointer keeps its stream
offset. `ParsePartitions` finds, on a prefix of the file, the partitions of the file, and those
are the ones that the encoder wrote. The control states only move forward, and whatever the
calls and their outcomes, each critical section is left exactly once. In a run of appends mixed
with decoded macroblocks each partition reader stands as many bytes further in the stream as
were read of its partition, inside that partition of the whole file, and a macroblock is read
exactly when its bytes are there.

**Two GIF compositors** (`GifCompositors`, `GifCanvases`, `Interlace`). The streaming
compositor of gif2webp keeps two canvases, the one of anim_util keeps all composed frames and
has shortcuts. They do not always agree: a frame that is restored to a frame which was itself
cleared to the background is restored to the canvas before that clearing by anim_util, and to
the canvas after it by gif2webp. The project gives the exact condition, once for given pixels
and once on the rectangles and disposal methods alone, and says what a pixel shows without any
canvas: what the last frame left that marked it.

**Container** (`Riff`, `WebpInfo`, `ContainerGrammar`, `MetadataWriter`). What cwebp writes
around an encoded image, byte by byte; what webpinfo makes of a file, chunk by chunk, and the
grammar of all files that it accepts; and which files with metadata it accepts when it accepts
the image that cwebp's encoder made: all whose RIFF size is one that it allows. Sections 2.3 to
2.7 of RFC 9649.

**Pixel and bit arithmetic** (`SharpYuv`, `IntraModes`, `ModeWriter`, `DibWriter`). Blocked
vector loops with 16- and 32-bit lanes against the plain loops; the rolling contexts of the
intra modes against a map of all modes, section 11 of RFC 6386, and reading back every picture
that the encoder writes; blending into a bottom-up bitmap.

**Small cores** (`IccSegments`, `FrameMerging`). ICC reassembly, Annex B.4 of ICC.1:2010, by a
pigeonhole argument; merging of equal frames against the timeline.

## Where the code differs from what one would expect

- `AgreeForAllPixels`, `TheyCanDiffer`: the two GIF compositors differ exactly when a restored
  frame goes back to a cleared one and the difference is not painted over.
- `CheckPasses`, `SizeCanWrap`: the size limit of `WriteWebPWithMetadata` is computed in `int`
  and becomes 2^64 - 10, so on a 64-bit machine it stops nothing; the RIFF size is right
  exactly when the file fits 32 bits. The limit also leaves out the VP8X chunk that may be
  added.
- `StillAndAnimation`, `AcceptedStillAndFrame`: webpinfo refuses a still image behind an ANIM
  chunk but accepts an ANIM chunk and frames behind a still image. An accepted file has both
  exactly when an image chunk comes before the first ANIM chunk; one such file is given.
- `AcceptedExactly`, `RefusedSize`: webpinfo refuses a RIFF size above 2^32 - 10 that cwebp may
  write; one such image and EXIF payload are given.
- `FramesAreSimilar`, `SimilarExactly`: with a tolerance, anim_diff compares bytes as if they
  were pixels; a byte taken for a pixel has alpha 0, so all frames are similar. That is right
  exactly for empty frames and for a tolerance of at least 255.
- `Sse2SumIsExact`: the SSE2 sum of `UpdateY` is right for all rows of a length exactly when
  the length, rounded down to a multiple of 8, times 0x3fff is below 2^32.
- `NearestExactly`: the comment in `WebPDecoder.cpp` says that the blend rounds to nearest; it
  is one too small exactly for remainder 128 with a quotient above 128.
- `Feed`, `ErrorThenOk`: when flipping or the final copy fails, the state is DONE all the same;
  the error is returned once, and every later call returns OK. That OK is true exactly when the
  call that led to DONE returned OK (`LaterOk`); two calls that return an error and then OK are
  given.

## Model

| member | source | states |
|---|---|---|
| RowGeometry.StepOfRow | codec/libwebp/src/dec/frame_dec.c:419-495 | each macroblock row makes available exactly the rows that follow those of the row before; from br_mb_y on it adds none |
| RowGeometry.AllRowsOut | codec/libwebp/src/dec/frame_dec.c:583-607 | the rows up to br_mb_y already deliver the whole cropping window, for every filter type and height |
| RowGeometry.BandsAreEven | codec/libwebp/src/dec/frame_dec.c:472-494 | every put() starts on an even row of the window and only the last may have an odd height |
| RowGeometry.PutsTileTheWindow | codec/libwebp/src/dec/frame_dec.c:419-495 | each row of the window is in the band of exactly one macroblock row, also when rows up to mb_h are visited |
| RowGeometry.SelectedExactly | codec/libwebp/src/dec/frame_dec.c:574-607 | a macroblock is selected exactly if it overlaps the window widened by the rows held back, or, with the complex filter, comes before it |
| DelayLine.BelowUntouched | codec/libwebp/src/dec/frame_dec.c:204-212 | filtering in macroblock-row order never reaches rows that are not reconstructed yet |
| DelayLine.AboveFinal | codec/libwebp/src/dec/frame_dec.c:204-212 | rows above the held-back ones are changed by no later filter |
| DelayLine.PlaneCache.Reconstruct | codec/libwebp/src/dec/frame_dec.c:82-201 | a row goes to its slot and changes no other row of the cache |
| DelayLine.PlaneCache.FilterRow | codec/libwebp/src/dec/frame_dec.c:264-271 | filtering in the cache gives the window of the row as the steps do and changes no other row |
| DelayLine.PlaneCache.DitherRow | codec/libwebp/src/dec/frame_dec.c:382-397 | so does dithering |
| DelayLine.PlaneCache.Rotate | codec/libwebp/src/dec/frame_dec.c:496-503 | the last rows of the last slot become the held-back rows in front of slot 0 |
| FancyUpsampler.LinePair | codec/libwebp/src/dec/io_dec.c:89-100 | rows 2k-1 and 2k depend on chroma rows k-1 and k in opposite roles |
| FancyUpsampler.FarIsAcross | codec/libwebp/src/dec/io_dec.c:89-117 | between rows the same |
| FancyUpsampler.FancyPixel | codec/libwebp/src/dsp/upsampling.c:30-101 | every pixel of the whole picture blends four samples of each channel with weights 9, 3, 3, 1, mirrored at all four edges |
| FancyUpsampler.BandPairs | codec/libwebp/src/dec/io_dec.c:89-100 | the pairs inside a band are the reference rows of the whole picture |
| FancyUpsampler.BandTop | codec/libwebp/src/dec/io_dec.c:80-88 | the first rows of a band depend only on the band and on what was saved of the band before |
| FancyUpsampler.BandBottom | codec/libwebp/src/dec/io_dec.c:111-117 | the last row of a picture of even height depends on the last band only |
| FancyUpsampler.RgbEmitter.EmitPairs | codec/libwebp/src/dec/io_dec.c:89-100 | the loop writes each inner row once, equal to the reference |
| FancyUpsampler.RgbEmitter.EmitFancyRGB | codec/libwebp/src/dec/io_dec.c:65-119 | for any band starting on an even row: the rows finished are those of the whole-picture call, earlier rows stay, the count is exact, and the row left over is saved |
| FancyUpsampler.RgbEmitter.EmitSampledRGB | codec/libwebp/src/dec/io_dec.c:50-60 | without fancy upsampling every row of the band is finished at once |
| FancyUpsampler.RgbEmitter.GetAlphaSourceRow | codec/libwebp/src/dec/io_dec.c:156-180 | the alpha rows to use are those of the colour rows that this put() completed |
| FancyUpsampler.RgbEmitter.EmitAlphaRGB | codec/libwebp/src/dec/io_dec.c:182-206 | output row r gets alpha row crop_top + r, once, and is premultiplied once |
| FancyUpsampler.RgbEmitter.CustomPut | codec/libwebp/src/dec/io_dec.c:634-650 | after every put() the finished rows are final and last_y counts exactly them; only a band without columns is refused |
| AlphaRows.UnfilteredPrefix | codec/libwebp/src/dec/alpha_dec.c:118-148 | unfiltering fewer rows gives the same first rows |
| AlphaRows.OneShotIs | codec/libwebp/src/dec/alpha_dec.c:118-234 | the reference plane is the chain of unfilters, each row from the row above, dequantized from the window's top on if the levels were reduced and dithering is wanted |
| AlphaRows.AlphaDecoder.ALPHDecode | codec/libwebp/src/dec/alpha_dec.c:118-148 | decoding rows in steps from row 0 on gives the one-pass plane, through alpha_prev_line; it fails exactly when a lossless stream is broken |
| AlphaRows.AlphaDecoder.DecodeAndSmooth | codec/libwebp/src/dec/alpha_dec.c:209-234 | dequantizing happens once, on all rows, before the first row is handed out |
| AlphaRows.AlphaDecoder.DecompressAlphaRows | codec/libwebp/src/dec/alpha_dec.c:191-238 | contiguous requests return rows of the one-shot plane and never change rows handed out before; failure exactly for rows outside and for a part that fails while it is needed |
| RowPipeline.RowIsFinal | codec/libwebp/src/dec/frame_dec.c:431-495 | a row given out after macroblock row n equals that row of the finished picture |
| RowPipeline.BandIsFinal | codec/libwebp/src/dec/frame_dec.c:443-495 | so does the whole band given to put() |
| RowPipeline.BandOfCrop | codec/libwebp/src/dec/frame_dec.c:472-494 | rows cut at io->y, io->u and io->v are a band of the cropped picture, luma and chroma in step |
| RowPipeline.BandNumbers | codec/libwebp/src/dec/frame_dec.c:444-482 | the delta added to y_start is even and the pointers move by the same rows in all planes |
| RowPipeline.ReferenceStep | codec/libwebp/src/dec/frame_dec.c:431-441 | one more macroblock row changes the window of that row only |
| RowPipeline.SeenIsExact | codec/libwebp/src/dec/frame_dec.c:565-607 | a row seen through the cropping window is that of the whole filtered plane |
| RowPipeline.CropIsExact | codec/libwebp/src/dec/frame_dec.c:565-607 | cropping what the skipping decoder leaves gives the reference picture, all three planes |
| RowPipeline.Pipeline.FinishPlane | codec/libwebp/src/dec/frame_dec.c:419-441 | reconstructing, filtering and dithering in the cache gives the rows of the whole plane |
| RowPipeline.Pipeline.FinalRows | codec/libwebp/src/dec/frame_dec.c:444-462 | the rows from y_start to y_end are exactly those that n + 1 macroblock rows make available and n did not |
| RowPipeline.Pipeline.DecodeAlpha | codec/libwebp/src/dec/frame_dec.c:463-471 | alpha is decoded exactly as far as luma is final; it fails exactly when alpha rows are still needed and their decoding fails |
| RowPipeline.Pipeline.PutBand | codec/libwebp/src/dec/frame_dec.c:483-494 | the put() of a band advances the output from the previous frontier to the next, unless put() aborts |
| RowPipeline.Pipeline.CropAndPut | codec/libwebp/src/dec/frame_dec.c:472-494 | a macroblock row moves the output frontier as the geometry says, and emits nothing above the window |
| RowPipeline.Pipeline.RotatePlane | codec/libwebp/src/dec/frame_dec.c:496-503 | after the rotation the held-back rows are the reference rows of the next macroblock row |
| RowPipeline.Pipeline.ProcessRow | codec/libwebp/src/dec/frame_dec.c:413-506 | the invariant of the pipeline goes from row n to row n + 1, for every number of slots; it fails exactly when needed alpha fails or a put() that is due aborts |
| RowPipeline.Pipeline.Complete | codec/libwebp/src/dec/vp8_dec.c:657-684 | once br_mb_y rows are done the whole output is the reference picture |
| RowPipeline.Pipeline.JobOfRow | codec/libwebp/src/dec/frame_dec.c:530-552 | the job launched for a row has the slot and the filter flag with which the row is finished here |
| RowPipeline.Pipeline.DecodeRows | codec/libwebp/src/dec/idec_dec.c:479-521 | the row loop, over br_mb_y or all rows, outputs the picture of the reference that skips nothing, every row and its alpha |
| UpsampledPicture.WholeIsBytes | codec/libwebp/src/dec/frame_dec.c:214-271 | filters and dithering that make bytes of bytes leave planes of bytes |
| UpsampledPicture.FinishedPixel | codec/libwebp/src/dec/io_dec.c:65-119 | once all rows are done each pixel written is the colour of one filtered luma sample and of the 9, 3, 3, 1 blends of four filtered samples of each chroma plane, mirrored at the edges of the window |
| UpsampledPicture.FinishedRow | codec/libwebp/src/dec/io_dec.c:182-206 | in the end each row is upsampled or sampled from the reference picture, and premultiplied with its row of the alpha plane if asked for; the alpha rows are those of the plane |
| LoopFilter.RunInWindow | codec/libwebp/src/dec/frame_dec.c:204-212 | the filter of a macroblock row works on that row and the rows held back in front of it; the rest of the plane is neither read nor written |
| LoopFilter.FilterLine | codec/libwebp/src/dsp/dec.c:495-547 | one line of an edge in place: up to 2 or 4 pixels read on each side, 1 or 3 written, the others unchanged |
| LoopFilter.FilterEdge | codec/libwebp/src/dsp/dec.c:605-688 | the lines of one edge are filtered in order |
| LoopFilter.DoFilter | codec/libwebp/src/dec/frame_dec.c:214-262 | all vertical edges of a macroblock before its horizontal ones, the border only inside the picture |
| LoopFilter.FilterRow | codec/libwebp/src/dec/frame_dec.c:264-271 | the selected macroblocks of a row are filtered from left to right, in the cache and nowhere else |
| LoopFilter.DitherRow | codec/libwebp/src/dec/frame_dec.c:382-397 | each pixel of the selected chroma blocks of a row is changed once, by a function of its place and value |
| FilterOrder.RowStepsExactly | codec/libwebp/src/dec/frame_dec.c:214-271 | the steps of a row are all lines of all edges of its macroblocks, borders between macroblocks included, and of no others; from left to right, vertical edges first, edges and lines in rising order |
| FilterOrder.EachStepOnce | codec/libwebp/src/dec/frame_dec.c:214-271 | each of them once |
| FilterOrder.OrderDecides | codec/libwebp/src/dec/frame_dec.c:264-271 | no other list has the same steps in this order |
| FilterOrder.TakenInOrder | codec/libwebp/src/dec/frame_dec.c:264-271 | steps are taken one after the other |
| FilterOrder.VerticalEdge | codec/libwebp/src/dsp/dec.c:495-636 | a step on a vertical edge sets 1 or 3 pixels on each side from 2 or 4 pixels on each side of its line, and no other pixel of the plane |
| FilterOrder.HorizontalEdge | codec/libwebp/src/dsp/dec.c:495-636 | the same in a column for a horizontal edge |
| FilterOrder.RowOfReference | codec/libwebp/src/dec/frame_dec.c:431-441 | in the reference a macroblock row is filtered, then each pixel of its own rows is dithered once; every other row is changed by the filter only |
| FilterOrder.UnfilteredReference | codec/libwebp/src/dec/frame_dec.c:439-441 | without a filter each sample of the plane is dithered exactly once, or stays if nothing is dithered |
| Dithering.Dither8x8 | codec/libwebp/src/dec/frame_dec.c:373-379 | a block takes the next 64 random numbers, and each pixel the one of its place in the block |
| Dithering.DitherRow | codec/libwebp/src/dec/frame_dec.c:382-397 | both chroma planes, drawing block by block and only for macroblocks that are dithered, are changed by one function of the place each; the generator then stands where the next row expects it |
| Dithering.NumbersTaken | codec/libwebp/src/dec/frame_dec.c:382-397 | before a macroblock 128 numbers were drawn for each dithered macroblock before it |
| Dithering.PixelDithered | codec/libwebp/src/dsp/dec.c:709-722 | each pixel of a dithered block gets its own number, less 120, by sixteenths, and stays a byte |
| CropFilter.SkippedStep | codec/libwebp/src/dec/frame_dec.c:512-517 | a row of the skipping decoder, in its window of rows, is the selected work on the whole plane |
| CropFilter.CommonStep | codec/libwebp/src/dsp/dec.c:495-636 | a filter step keeps two pictures equal on any region that it reads inside of or writes outside of |
| CropFilter.LoneIsOutside | codec/libwebp/src/dec/frame_dec.c:574-607 | a macroblock that is not selected writes nothing where the pictures must agree |
| CropFilter.ComplexSelected | codec/libwebp/src/dec/frame_dec.c:570-586 | with the complex filter the last selected column spoils only pixels right of the window and rows already filtered, because its vertical edges come first |
| CropFilter.SkippingKeepsAgreement | codec/libwebp/src/dec/frame_dec.c:565-607 | after every row the skipping decoder agrees with the whole work on a region given by the selected macroblocks, for all three filter types |
| CropFilter.WindowIsSafe | codec/libwebp/src/dec/frame_dec.c:596-607 | the cropping window lies in that region, in luma and in chroma |
| CropFilter.CroppedFilterIsExact | codec/libwebp/src/dec/frame_dec.c:565-607 | every pixel of the window has the value that filtering and dithering the whole plane gives it |
| LineUpsampler.PackedIsBlend | codec/libwebp/src/dsp/upsampling.c:63-87 | u and v in one 32-bit word, shifted twice, are each the blend with weights 9, 3, 3, 1 of its own samples |
| LineUpsampler.PackedAtEnd | codec/libwebp/src/dsp/upsampling.c:52-62 | at the ends of a row they are the mirrored blend |
| LineUpsampler.OtherIsAcross | codec/libwebp/src/dsp/upsampling.c:30-40 | the other chroma column is the one three quarters of a column away, if there is one, and otherwise the nearest again |
| LineUpsampler.UpsampleLinePair | codec/libwebp/src/dsp/upsampling.c:41-101 | for every width both lines hold the mirrored bilinear blend of each channel, the bottom line only if there is one |
| ThreadProtocol.StepInv | codec/libwebp/src/dec/frame_dec.c:512-555 | every step of either thread keeps the invariant on who holds which half |
| ThreadProtocol.ReachableInv | codec/libwebp/src/dec/frame_dec.c:512-555 | it holds after every interleaving |
| ThreadProtocol.WorkerReadsItsRow | codec/libwebp/src/dec/frame_dec.c:742-763 | the worker reconstructing, filtering and dithering row n reads only entries parsed for row n |
| ThreadProtocol.WorkerReadsAll | codec/libwebp/src/dec/frame_dec.c:413-441 | behind every put() the worker has read exactly: for each row so far all of mb_data, f_info of the selected macroblocks if the row is filtered, mb_data of the selected ones if there is dithering; once each, in this order |
| ThreadProtocol.WorkerReadsInOrder | codec/libwebp/src/dec/frame_dec.c:413-441 | at any other time a first part of that, and all of it when put() is called |
| ThreadProtocol.MainWritesElsewhere | codec/libwebp/src/dec/frame_dec.c:534-546 | the main thread never writes a half that the worker holds |
| ThreadProtocol.PutsInOrder | codec/libwebp/src/dec/frame_dec.c:525-552 | put() calls are those of a single thread, in order, all of them when decoding is done |
| ThreadProtocol.ErrorStops | codec/libwebp/src/dec/frame_dec.c:526-529 | after an aborted put() no job is launched |
| ThreadProtocol.ErrorsAreKept | codec/libwebp/src/dec/frame_dec.c:612-626 | decoding fails exactly when some put() failed |
| ThreadProtocol.NoDeadlock | codec/libwebp/src/dec/frame_dec.c:512-555 | until the main thread is done some step is possible |
| ThreadProtocol.RunLength | codec/libwebp/src/dec/frame_dec.c:652-669 | every run ends within (mb_h + 1)(4 mb_w + 2) steps |
| IncrementalBuffer.FollowedStaysWithin | codec/libwebp/src/dec/idec_dec.c:119-173 | readers that follow a move stay inside the new buffer |
| IncrementalBuffer.BoundsAreFinal | codec/libwebp/src/dec/vp8_dec.c:214-245 | once ParsePartitions succeeds on a prefix, more data moves no boundary between partitions |
| IncrementalBuffer.MemBuffer.UnconsumedIsBuffer | codec/libwebp/src/dec/idec_dec.c:98-100 | buf[start..end) is the unconsumed suffix of all data supplied |
| IncrementalBuffer.MemBuffer.CheckMemBufferMode | codec/libwebp/src/dec/idec_dec.c:255-264 | the first call settles the mode and the other mode is refused |
| IncrementalBuffer.MemBuffer.DoRemap | codec/libwebp/src/dec/idec_dec.c:119-173 | every reader and the alpha pointer move by the offset; the last partition is extended to the new end |
| IncrementalBuffer.MemBuffer.Grow | codec/libwebp/src/dec/idec_dec.c:195-209 | the new buffer starts at the oldest byte still needed and has a multiple of 4096 bytes |
| IncrementalBuffer.MemBuffer.AppendToMemBuffer | codec/libwebp/src/dec/idec_dec.c:177-218 | the unconsumed bytes grow by the data; every live pointer keeps its stream offset; failure changes nothing |
| IncrementalBuffer.FollowedTwice | codec/libwebp/src/dec/idec_dec.c:119-173 | two moves of the buffer are one move for every reader |
| IncrementalBuffer.MemBuffer.AppendAll | codec/libwebp/src/dec/idec_dec.c:177-218 | over any number of appends the data adds up and each partition reader, and the alpha pointer, keeps the stream offset it had before all of them |
| IncrementalBuffer.MemBuffer.RemapMemBuffer | codec/libwebp/src/dec/idec_dec.c:220-237 | a longer buffer with the same beginning keeps every stream offset, a shorter one is refused |
| IncrementalBuffer.MemBuffer.TakeHeaders | codec/libwebp/src/dec/idec_dec.c:343-363 | the headers are consumed and the alpha chunk keeps its stream offset |
| IncrementalBuffer.MemBuffer.FrameHeader | codec/libwebp/src/dec/vp8_dec.c:290-365 | exactly which headers are too short, broken, or not supported, and where partition #0 lies otherwise |
| IncrementalBuffer.MemBuffer.ParsePartitions | codec/libwebp/src/dec/vp8_dec.c:214-245 | the readers are the partitions, cut to the data at hand; OK exactly when the last one has begun |
| IncrementalBuffer.MemBuffer.GetHeaders | codec/libwebp/src/dec/vp8_dec.c:274-406 | OK exactly for a sound key frame with all of partition #0, all partition sizes and some of the last partition; then the reader of partition #0 has loaded 7, 1 or 0 bytes and what was seen, and each token reader stands 7, 1 or 0 bytes behind the start of its partition |
| IncrementalBuffer.MemBuffer.CopyParts0Data | codec/libwebp/src/dec/idec_dec.c:390-416 | in append mode the copy is that stretch of the stream; an empty partition is an error; the error cases change nothing |
| IncrementalBuffer.MemBuffer.TakePartition0 | codec/libwebp/src/dec/idec_dec.c:418-452 | a sound frame is accepted exactly if something of partition #0 is left behind what was loaded and seen, and memory is there for the copy |
| IncrementalBuffer.MemBuffer.AlphaHeaders | codec/libwebp/src/dec/alpha_dec.c:73-86 | the header bytes accepted, in numbers |
| IncrementalBuffer.MemBuffer.StartAlpha | codec/libwebp/src/dec/alpha_dec.c:52-112 | the header byte, taken from its place in the stream, is accepted exactly with a known method and pre-processing and enough data; the alpha reader lies inside the kept chunk |
| IncrementalBuffer.MemBuffer.DecodeMB | codec/libwebp/src/dec/idec_dec.c:489-514 | running out of data changes nothing; with one partition the bytes read are released, never more |
| IncrementalBuffer.MemBuffer.Token | codec/libwebp/src/dec/idec_dec.c:489-514 | a macroblock is read exactly when all its bytes are there |
| IncrementalBuffer.AppendKeepsPartitions | codec/libwebp/src/dec/vp8_dec.c:214-245 | readers inside the partitions of the data at hand are inside the partitions of all data that comes later |
| IncrementalBuffer.MemBuffer.RunAll | codec/libwebp/src/dec/idec_dec.c:177-218 | over any run of appends mixed with macroblocks, in which alpha may be finished: the kept bytes are the tail of the stream; each partition reader has moved by exactly the bytes read of its partition and stands inside that partition of all the data; a macroblock is read exactly when it ends before the next partition starts, or, in the last one, within the data so far; an append fails only for its size or for memory |
| PartitionLayout.PartitionsReadBack | codec/libwebp/src/enc/syntax_enc.c:253-270 | behind the sizes that the encoder writes, the bounds that the decoder finds enclose exactly the partitions that were written |
| PartitionLayout.FrameReadBack | codec/libwebp/src/enc/syntax_enc.c:120-151 | a frame as the encoder writes it is found sound, with partition #0 and the token partitions where they were put |
| DecoderStates.Decoder.IDecError | codec/libwebp/src/dec/idec_dec.c:306-313 | an error leaves the critical section if it is open, exactly once |
| DecoderStates.Decoder.DecodePartition0 | codec/libwebp/src/dec/idec_dec.c:418-468 | the critical section is entered exactly when everything up to setup succeeds, and left at once if VP8InitFrame fails; the status is that of the first part that fails |
| DecoderStates.Decoder.ParseIntraModeRow | codec/libwebp/src/dec/idec_dec.c:479-488 | intra modes of a row are parsed once however often decoding stops in the row |
| DecoderStates.Decoder.ProcessRow | codec/libwebp/src/dec/idec_dec.c:515-521 | rows are handed on in order, once each |
| DecoderStates.Decoder.DecodeRow | codec/libwebp/src/dec/idec_dec.c:489-514 | a row is decoded as far as the data lasts and resumes at the macroblock where it stopped |
| DecoderStates.Decoder.DecodeRemaining | codec/libwebp/src/dec/idec_dec.c:471-529 | it is DONE exactly if every row left can be parsed, decoded and output; otherwise it stops in the first row that cannot, waits if that lacks data, and fails otherwise; the section stays open only while it waits |
| DecoderStates.Decoder.IDecode | codec/libwebp/src/dec/idec_dec.c:588-618 | the state never moves backwards; it is DONE exactly when everything still to be done is there and succeeds; decoding stops only where data is lacking or something is wrong, and the status says which |
| DecoderStates.Decoder.Feed | codec/libwebp/src/dec/idec_dec.c:793-844 | DONE and ERROR are kept; mixing modes, or passing no data, changes nothing and is INVALID_PARAM; no error without a cause, no waiting without missing data |
| DecoderStates.Decoder.Delete | codec/libwebp/src/dec/idec_dec.c:693-710 | afterwards every critical section entered was left |
| DecoderStates.OneWayGrows | codec/libwebp/src/dec/idec_dec.c:793-844 | one more call keeps the properties of the call history |
| DecoderStates.LaterOk | codec/libwebp/src/dec/idec_dec.c:455-466 | an OK behind DONE is true exactly when the call that led there returned OK |
| DecoderStates.ErrorThenOk | codec/libwebp/src/dec/idec_dec.c:267-297 | two calls on a sound file: the first returns the error of the final copy, the second OK |
| DecoderStates.Life | codec/libwebp/src/dec/idec_dec.c:693-844 | over any calls ended by WebPIDelete: states only move forward, final states absorb, the call that leads to DONE returns what finishing returned, modes do not mix, enters equal exits, rows are in order |
| GifCompositors.SourceFrame | codec/libwebp/examples/anim_util.c:631-639 | the search finds the last frame that is not itself undone |
| GifCompositors.KeyFrameIsBlank | codec/libwebp/examples/anim_util.c:379-391 | a key frame starts from an empty canvas in the streaming compositor too |
| GifCompositors.UndoneRun | codec/libwebp/examples/gifdec.c:261-279 | undone frames leave the canvas as it was before the first of them |
| GifCompositors.LastMark | codec/libwebp/examples/gifdec.c:261-296 | before a frame each pixel shows what the last frame left that cleared it or painted it for good, and nothing if there is none |
| GifCompositors.PixelShown | codec/libwebp/examples/gif2webp.c:360-377 | the canvas encoded shows the frame's own colour or that |
| GifCompositors.PixelComposed | codec/libwebp/examples/anim_util.c:573-671 | so does the canvas of anim_util wherever the fault has not shown |
| GifCompositors.FrameAgrees | codec/libwebp/examples/anim_util.c:573-671 | if the canvases agreed so far, they agree on the next frame exactly when the restoring fault does not show |
| GifCompositors.AgreeExactly | codec/libwebp/examples/anim_util.c:573-671 | for given pixels both compositors emit the same canvases exactly when no frame shows the fault |
| GifCompositors.AgreeForAllPixels | codec/libwebp/examples/anim_util.c:613-661 | they agree for all pixels exactly when the rectangles and disposal methods rule the fault out |
| GifCompositors.AgreeWithoutClearedRuns | codec/libwebp/examples/anim_util.c:631-657 | they agree when no restored frame follows a cleared one |
| GifCompositors.TheyCanDiffer | codec/libwebp/examples/anim_util.c:631-657 | three frames of one pixel on which they differ |
| GifCanvases.ClearRectangle | codec/libwebp/examples/gifdec.c:238-246 | exactly the rectangle becomes transparent |
| GifCanvases.CopyRectangle | codec/libwebp/examples/anim_util.c:122-137 | exactly the rectangle is copied |
| GifCanvases.GIFDisposeFrame | codec/libwebp/examples/gifdec.c:261-279 | the three disposal methods on the frame's rectangle |
| GifCanvases.GIFBlendFrames | codec/libwebp/examples/gifdec.c:281-296 | only opaque pixels of the rectangle are written |
| GifCanvases.ReadPasses | codec/libwebp/examples/gifdec.c:144-158 | the four passes put each line of an interlaced frame into its row of the canvas |
| GifCanvases.LineIsShown | codec/libwebp/examples/gifdec.c:144-166 | the pixels that both compositors use are those of the lines in the order sent: four passes if interlaced, otherwise top to bottom |
| GifCanvases.GIFReadFrame | codec/libwebp/examples/gifdec.c:113-175 | interlaced or not, each line sent is in the row of the sub-picture that its place in the order gives, colour by colour, and nothing beside it changes; it fails exactly on an index outside the colour map |
| GifCanvases.UpdateCanvases | codec/libwebp/examples/gif2webp.c:375-377 | both canvases hold the canvas before the next frame |
| GifCanvases.Stream | codec/libwebp/examples/gif2webp.c:360-377 | the canvases given to the encoder are those of the pixel function, up to the first bad frame |
| GifCanvases.ReadFrameGIF | codec/libwebp/examples/anim_util.c:484-508 | transparent pixels let the base canvas show through |
| GifCanvases.PrepareBase | codec/libwebp/examples/anim_util.c:600-663 | key frame, covered rectangle and copy give the base canvas of the pixel function |
| GifCanvases.Undo | codec/libwebp/examples/anim_util.c:623-661 | the rectangle is cleared or restored from the frame that the search finds |
| GifCanvases.Compose | codec/libwebp/examples/anim_util.c:573-671 | all frames hold the canvases of the pixel function |
| GifCanvases.SameCanvasesAgree | codec/libwebp/examples/anim_util.c:573-671 | equality of the two lists of canvases is agreement of the pixel functions |
| GifCanvases.StreamAgainstCompose | codec/libwebp/examples/gif2webp.c:360-377 | the two loops, in place, produce equal canvases exactly when no frame shows the fault |
| Interlace.EachRowOnce | codec/libwebp/examples/gifdec.c:144-158 | sending order and rows of a frame are one to one |
| Interlace.SendingOrder | codec/libwebp/examples/gifdec.c:144-158 | rows are sent multiples of 8 first, then 4 modulo 8, then the other even ones, then the odd ones, each from top to bottom |
| Interlace.NextInPass | codec/libwebp/examples/gifdec.c:149-158 | a step within a pass is the next row sent; the last row of a pass ends it |
| Interlace.ReadInterlaced | codec/libwebp/examples/gifdec.c:144-158 | each row gets the line sent for it; it fails exactly when lines are missing |
| Interlace.RoundTrip | codec/libwebp/examples/gifdec.c:144-158 | reading the rows of a picture in sending order restores the picture |
| Riff.IdOfTag | codec/libwebp/examples/webpinfo.c:131-141 | every known tag is recognised as itself |
| Riff.GetOfLE32 | codec/libwebp/examples/cwebp.c:383-400 | a number written in four bytes is read back modulo 2^32 |
| Riff.NextChunk | codec/libwebp/examples/webpinfo.c:627-668 | a chunk read lies in the data; the walk moves past it, or to the first sub-chunk of an ANMF chunk |
| Riff.NextOfEncode | codec/libwebp/examples/webpinfo.c:627-668 | a chunk written is read back with its payload, whatever follows |
| Riff.NextOfFrame | codec/libwebp/examples/webpinfo.c:646-660 | an animation frame written is read back and leads to its first sub-chunk |
| Riff.NextOfPrefix | codec/libwebp/examples/webpinfo.c:627-668 | a complete chunk is read the same when more follows |
| Riff.ChunksAppend | codec/libwebp/examples/webpinfo.c:1089-1094 | the chunks of two sound pieces in a row are those of the first, then those of the second |
| Riff.RiffOfFile | codec/libwebp/examples/webpinfo.c:588-625 | the header of a file written leads back to its chunks |
| WebpInfo.TracksGrow | codec/libwebp/examples/webpinfo.c:815-895 | the two flags enforce the order of sub-chunks: one image, at most one ALPH before it, none beside VP8L |
| WebpInfo.StepOutside | codec/libwebp/examples/webpinfo.c:934-1000 | a chunk outside a frame keeps the counts; ANMF opens a frame whose payload end is start + anim_frame_data_size |
| WebpInfo.StepInside | codec/libwebp/examples/webpinfo.c:985-1000 | a sub-chunk keeps that sum; a frame that closes does so at its payload end and holds exactly one image |
| WebpInfo.Analyzer.ParseRIFFHeader | codec/libwebp/examples/webpinfo.c:588-625 | data behind the RIFF payload is cut off; each malformed header has its status |
| WebpInfo.Analyzer.ParseChunk | codec/libwebp/examples/webpinfo.c:627-668 | the position moves by the chunk, by 24 for ANMF even when its payload is shorter |
| WebpInfo.Analyzer.Count | codec/libwebp/examples/webpinfo.c:985-1000 | every frame that closes is whole |
| WebpInfo.Analyzer.AnalyzeWebP | codec/libwebp/examples/webpinfo.c:1078-1112 | the walk ends; on OK all ANMF frames are closed and whole, and num_frames counts images and frames |
| WebpInfo.Analyzer.AllFramesClosed | codec/libwebp/examples/webpinfo.c:1002-1057 | the final check lets no file end inside a frame |
| WebpInfo.CountsOfStep | codec/libwebp/examples/webpinfo.c:795-867 | behind an ANIM chunk no still image is counted, and frames are open only behind one |
| WebpInfo.StillAndAnimation | codec/libwebp/examples/webpinfo.c:714-867 | a walk without error has counted both a still image and an ANIM chunk exactly when an image chunk comes before the first ANIM chunk |
| WebpInfo.StillAndFrameAccepted | codec/libwebp/examples/webpinfo.c:1002-1057 | for every image of one pixel the file with VP8X, the image, ANIM and a frame with the image again is accepted, with these statistics |
| WebpInfo.AcceptedStillAndFrame | codec/libwebp/examples/webpinfo.c:1002-1057 | one such file, byte by byte |
| ContainerGrammar.HeaderExactly | codec/libwebp/examples/webpinfo.c:588-625 | the headers accepted |
| ContainerGrammar.ChunkExactly | codec/libwebp/examples/webpinfo.c:627-668 | the chunks that can be read, and what is read of them |
| ContainerGrammar.WalkIsGrammar | codec/libwebp/examples/webpinfo.c:934-1000 | the walk accepts a list of chunks exactly if each is allowed behind those before it, in the file or in its animation frame |
| ContainerGrammar.AcceptedIsGrammar | codec/libwebp/examples/webpinfo.c:1002-1112 | for every file: it is accepted if and only if it is a RIFF file of whole chunks, each allowed behind those before it, with an image, no open frame, and flags that tell what is there |
| MetadataWriter.FlagsStayBytes | codec/libwebp/examples/cwebp.c:412-423 | or-ing in metadata flags sets exactly those and leaves alpha and animation alone |
| MetadataWriter.ShiftWalk | codec/libwebp/examples/webpinfo.c:1089-1093 | chunks accepted in the bare file are accepted behind VP8X and ICCP with the same effect |
| MetadataWriter.WalkMetadata | codec/libwebp/examples/webpinfo.c:917-984 | a written metadata chunk adds one to its count |
| MetadataWriter.RoundTrip | codec/libwebp/examples/cwebp.c:466-514 | reading the file gives VP8X, ICCP if any, the image chunks, EXIF if any, XMP if any, with their payloads |
| MetadataWriter.NewVp8xIsChunk | codec/libwebp/examples/cwebp.c:487-498 | the eight header bytes, flags and sizes form one VP8X chunk |
| MetadataWriter.NewVp8xReadBack | codec/libwebp/examples/cwebp.c:487-498 | a reader finds the size of the canvas, a flag for each kind of metadata there is and for the alpha of a lossless image, and no animation |
| MetadataWriter.FinalCheckOfOld | codec/libwebp/examples/webpinfo.c:1002-1057 | with the flags or-ed in, the final check passes as before |
| MetadataWriter.FinalCheckOfNew | codec/libwebp/examples/webpinfo.c:1002-1057 | with a fresh VP8X chunk it passes, the alpha bit of a lossless image included |
| MetadataWriter.Accepted | codec/libwebp/examples/cwebp.c:429-518 | a bare file that webpinfo accepts is accepted with metadata, and the statistics differ only by it |
| MetadataWriter.AcceptedExactly | codec/libwebp/examples/webpinfo.c:602-612 | with metadata that fits 32 bits the file is accepted if and only if its RIFF size is at most 2^32 - 10 |
| MetadataWriter.RefusedSize | codec/libwebp/examples/cwebp.c:429-518 | an image and an EXIF payload that cwebp writes without an error, where webpinfo accepts the image alone but not the file |
| MetadataWriter.SizeField | codec/libwebp/examples/cwebp.c:469-475 | the RIFF size plus 8 is the length exactly when the length minus 8 fits 32 bits |
| MetadataWriter.CheckPasses | codec/libwebp/examples/cwebp.c:441-475 | the size check refuses nothing that memory can hold, and when the size field is right |
| MetadataWriter.SizeCanWrap | codec/libwebp/examples/cwebp.c:441-475 | an image and an EXIF payload of 2^32 bytes that pass the check and get a size field that does not tell the length |
| MetadataWriter.Output.WriteLE | codec/libwebp/examples/cwebp.c:383-392 | the low bytes of the number, lowest first |
| MetadataWriter.Output.WriteMetadataChunk | codec/libwebp/examples/cwebp.c:402-410 | tag, size, payload and padding, or failure |
| MetadataWriter.UpdateFlagsAndSize | codec/libwebp/examples/cwebp.c:412-423 | the size added is the size of the chunk that will be written |
| MetadataWriter.WriteWebPWithMetadata | codec/libwebp/examples/cwebp.c:429-518 | the bytes written are the file around the new chunks, or the original file without metadata; exactly when it fails |
| SharpYuv.NestedShifts | codec/libwebp/sharpyuv/sharpyuv_sse2.c:99-104 | a shift by 3, an addition and a shift by 1 are one shift by 4 |
| SharpYuv.Sse16IsWeighted | codec/libwebp/sharpyuv/sharpyuv_sse2.c:93-104 | the 16-bit lane is the weighted average for inputs up to 4094 |
| SharpYuv.Sse16BoundIsTight | codec/libwebp/sharpyuv/sharpyuv_sse2.c:93-104 | with 4095 it is not |
| SharpYuv.Neon16IsWeighted | codec/libwebp/sharpyuv/sharpyuv_neon.c:85-93 | the rounding form is the weighted average for inputs up to 4095 |
| SharpYuv.Form32IsWeighted | codec/libwebp/sharpyuv/sharpyuv_sse2.c:147-158 | both 32-bit forms are the weighted average for all 16-bit inputs |
| SharpYuv.TailIsWeighted | codec/libwebp/sharpyuv/sharpyuv_sse2.c:116-127 | the scalar tail computes the same average |
| SharpYuv.BlockOrder16 | codec/libwebp/sharpyuv/sharpyuv_sse2.c:105-114 | unpacking puts lane k of the two vectors at outputs 2k and 2k + 1 |
| SharpYuv.BlockOrder32 | codec/libwebp/sharpyuv/sharpyuv_sse2.c:159-164 | packing puts the lanes of a block of four in order |
| SharpYuv.FilterRow16 | codec/libwebp/sharpyuv/sharpyuv_sse2.c:80-128 | for every length the row is the one of the C version, blocks of eight and tail |
| SharpYuv.FilterRow32 | codec/libwebp/sharpyuv/sharpyuv_neon.c:115-153 | the same for blocks of four |
| SharpYuv.FilterRow | codec/libwebp/sharpyuv/sharpyuv_sse2.c:180-188 | the row selected by the bit depth is the one of the C version |
| SharpYuv.FilterRowC | codec/libwebp/sharpyuv/sharpyuv_dsp.c:53-64 | every output is the clipped weighted average, nothing else changes |
| SharpYuv.OutputPair | codec/libwebp/sharpyuv/sharpyuv_dsp.c:53-64 | the two outputs of a column, in numbers |
| SharpYuv.PairIsSum | codec/libwebp/sharpyuv/sharpyuv_sse2.c:43-50 | a lane of the multiply-add is the sum of two absolute differences |
| SharpYuv.Sse2SumIsExact | codec/libwebp/sharpyuv/sharpyuv_sse2.c:28-61 | for every length, the sum is exact for all rows of samples below 2^14 if and only if len / 8 * 8 * 0x3fff < 2^32 |
| SharpYuv.UpdateYSse2 | codec/libwebp/sharpyuv/sharpyuv_sse2.c:28-61 | dst is updated as in the C version; the sum is that of 32-bit lanes over whole blocks, and exact up to that length |
| SharpYuv.UpdateYNeon | codec/libwebp/sharpyuv/sharpyuv_neon.c:25-54 | dst and the sum as in the C version |
| SharpYuv.UpdateTail | codec/libwebp/sharpyuv/sharpyuv_dsp.c:30-42 | the plain loop |
| IntraModes.TableIsTree | codec/libwebp/src/dec/tree_dec.c:333-354 | the walk of the table and the written-out tree read the same bits with the same probabilities and find the same mode |
| IntraModes.ReadMode | codec/libwebp/src/dec/tree_dec.c:333-339 | the loop over the table is that tree |
| IntraModes.Parser.ParseBlock | codec/libwebp/src/dec/tree_dec.c:331-356 | a block is read with the modes of its true upper and left neighbours, and the contexts roll on |
| IntraModes.Parser.ParseI4x4 | codec/libwebp/src/dec/tree_dec.c:325-361 | the sixteen modes are those of the reference map, in raster order |
| IntraModes.Parser.ParseI16x16 | codec/libwebp/src/dec/tree_dec.c:316-324 | one mode fills the macroblock and both contexts |
| IntraModes.Parser.ParseIntraMode | codec/libwebp/src/dec/tree_dec.c:297-366 | a macroblock is read as by the reference, every bit |
| IntraModes.Parser.ParseIntraModeRow | codec/libwebp/src/dec/tree_dec.c:368-374 | a row is read as by the reference; false exactly when the reader ran out of data |
| IntraModes.Parser.InitScanline | codec/libwebp/src/dec/vp8_dec.c:649-655 | the contexts then stand at the next row |
| IntraModes.Parser.ParseFrame | codec/libwebp/src/dec/vp8_dec.c:657-684 | so is the whole picture, for every width and height; parsing stops behind the first row that ran out of data |
| ModeWriter.ReadI4 | codec/libwebp/src/enc/tree_enc.c:275-297 | a 4x4 mode that the encoder writes is read back |
| ModeWriter.MacroblockIsRead | codec/libwebp/src/enc/tree_enc.c:322-347 | so is a macroblock, with its segment and skip bit |
| ModeWriter.PictureIsRead | codec/libwebp/src/enc/tree_enc.c:318-349 | so is a whole picture, every bit with the probability it was written with |
| ModeWriter.ParseWritten | codec/libwebp/src/dec/vp8_dec.c:657-684 | the parser with its rolling contexts returns the picture that was written |
| IccSegments.Pigeonhole | codec/libwebp/imageio/jpegdec.c:116-126 | n different numbers from 1 to n are all of them |
| IccSegments.SortedAlready | codec/libwebp/imageio/jpegdec.c:128-131 | sorting changes nothing: the slots are in order |
| IccSegments.CompleteInAnyOrder | codec/libwebp/imageio/jpegdec.c:76-114 | rearranging the markers changes neither completeness nor the profile |
| IccSegments.PartIsInPlace | codec/libwebp/imageio/jpegdec.c:128-139 | each part lies in the profile where the parts with smaller numbers end |
| IccSegments.StorePart | codec/libwebp/imageio/jpegdec.c:80-112 | a marker is refused exactly for a zero, a different count or a repeated number |
| IccSegments.Refused | codec/libwebp/imageio/jpegdec.c:86-105 | a list with a refused marker is not complete |
| IccSegments.StoreICCP | codec/libwebp/imageio/jpegdec.c:63-147 | a profile results exactly when the numbers are 1 to n, once each, all with count n; it is the parts in order of their numbers |
| FrameMerging.FramesAreSimilar | codec/libwebp/examples/anim_diff.c:59-74 | any two frames are found similar |
| FrameMerging.PixelsCanDiffer | codec/libwebp/examples/anim_diff.c:42-74 | an opaque black and an opaque white frame of one pixel, byte by byte, are not similar |
| FrameMerging.SimilarExactly | codec/libwebp/examples/anim_diff.c:42-74 | finding all frames of a size similar is right if and only if they are empty or the tolerance is at least 255 |
| FrameMerging.MergeKeepsTotal | codec/libwebp/examples/anim_diff.c:96-104 | merging keeps the total duration |
| FrameMerging.MergeKeepsCanvas | codec/libwebp/examples/anim_diff.c:96-104 | merging equal frames keeps the canvas at every time |
| FrameMerging.StillDone | codec/libwebp/examples/anim_diff.c:80-106 | pairs passed over stay as they were judged |
| FrameMerging.AnimatedImage.MinimizeAnimationFrames | codec/libwebp/examples/anim_diff.c:78-106 | it ends; the timeline is kept when no difference is allowed; a pair is left only if it differs or would overflow |
| DibWriter.NearestExactly | codec/WebPDecoder.cpp:233-238 | the shifts round to nearest exactly outside one remainder in the upper half of the range |
| DibWriter.NotAlwaysNearest | codec/WebPDecoder.cpp:233-238 | a blend that is not the nearest value |
| DibWriter.BlendIsClose | codec/WebPDecoder.cpp:269-278 | the result is within 128/255 of the exact blend and between its two ends |
| DibWriter.ShortcutsAgree | codec/WebPDecoder.cpp:254-268 | the opaque and transparent branches are what the formula gives |
| DibWriter.CompositeRow | codec/WebPDecoder.cpp:247-284 | one row is written pixel by pixel, nothing beside it |
| DibWriter.CompositeBGRAtoBGR | codec/WebPDecoder.cpp:240-288 | row y lands in row h - 1 - y; bytes of no pixel keep their value |
| DibWriter.PixelOfRow | codec/WebPDecoder.cpp:247-284 | each byte of a pixel, in numbers: its place in the bitmap, the checkerboard, the blend |
| DibWriter.PaddingIsFree | codec/WebPDecoder.cpp:244-287 | the padding of a row belongs to no pixel |
| DibWriter.DirectIsComposite | codec/WebPDecoder.cpp:138-146 | the negative stride addresses the same rows, and opaque pixels have the same bytes |
| DibWriter.DirectPasses | codec/libwebp/src/dec/buffer_dec.c:78-86 | that buffer passes CheckDecBuffer exactly when a row fits its stride and there is memory |
| DibWriter.FlipTwice | codec/libwebp/src/dec/buffer_dec.c:156-179 | flipping reverses the rows, twice restores the buffer |

## Left out

- The lossless decoder, the bit readers, residual decoding, prediction and transforms: the row pipeline takes reconstructed rows; `IntraModes` takes the boolean decoder as a parameter.
- The boolean coder: in `ModeWriter` a bit is handed over together with its probability, and `VP8PutBit` appends it.
- The arithmetic of the loop filters on the pixels of one line, and their strengths: a filter is any function of the pixels it reads, the macroblock and the edge.
- The table of the random generator: its numbers are any sequence. It runs over the macroblocks that are dithered, so without cropping the program would draw other numbers; the reference uses the same ones.
- Rescaled output, YUV output and RGBA4444: rescaling rests on a component that is not modelled, the others add no state.
- mt_method 1: `VP8GetThreadMethod` returns 0 or 2 only.
- Cropping windows with an odd top or left: `WebPIoInitFromOptions` makes them even.
- ThreadProtocol.NoDeadlock: Sync and Launch are single steps; mutexes, condition variables and thread creation are not modelled.
- WebPParseHeaders, VP8LDecodeHeader, VP8LDecodeAlphaHeader, VP8LDecodeAlphaImageStream, WebPDequantizeLevels, a caller's own put() and WebPGetFeatures answer as parameters; `Accepted` asks that alpha is found in a lone image only where the alpha bit of a lossless image says so.
- malloc is a boolean and an address; memory that is freed is not tracked, and an append of no bytes before any other data leaves the buffer absent, where the source's assertion would fire.
- Frames with an empty rectangle, which gif2webp enlarges to the canvas and anim_util does not; frames outside the canvas, which gif2webp refuses.
- Colour maps that gif2webp or anim_util refuse for their size, and GIF frames without any colour map: composing asks that every index has a colour.
- The printing of webpinfo, its warnings, and the sub-chunk counts of ANMF frames, which nothing but the printing uses.
- Encoded images with metadata of their own, or with a VP8X chunk that is not the first: cwebp's encoder does not produce them.
- GIF, JPEG and file access libraries: the models start from decoded records, markers and bytes; qsort is any function that sorts.
- Gamma curves, PSNR, SSIM and all floating point.
- The plug-in's window procedures, option dialogs, icons, registry entries and HGLOBAL handling, and the viewers and file readers of the examples.
