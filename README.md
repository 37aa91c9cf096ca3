# GM12U320 projector: frame layouts, calibration sweeps and driver framing

The GM12U320 is a USB pico-projector chip. Its Linux driver hands the
projector a frame as a run of data blocks, each announced by a 31-byte
Command Block Wrapper (USB Mass Storage Class Bulk-Only Transport,
revision 1.0, section 5.1) and acknowledged by a 13-byte Command Status
Wrapper (section 5.2). The user-space tools around it turn an RGB picture
into the byte layout the projector consumes. That layout is rows of pixel
bytes in RGB or BGR order, each padded with zeros to a row stride. Some
tools search for that layout empirically, by sweeping resolutions, strides,
channel orders and fit modes.

This project models that core in Dafny and proves what the code promises
about it:

- the row-stride encoders of the Python tools and their C counterpart:
  buffer length, zero padding, byte positions, and channel reversal as an
  involution;
- the compositor geometry: Exact-fit, Aspect-fit letterboxing, and the dx/dy
  crop and pad;
- the three calibration sweeps: their enumeration order, trial numbering,
  tie-breaking and the persisted record;
- the live mirrors' fixed 2562-byte-stride frame and their per-frame step;
- the driver's command wrappers, data-block layout, 32→24 bpp packing,
  test-pattern fill and per-frame transfer sequence;
- the driver's dirty-rectangle union and framebuffer pitch, size and format
  rules;
- the driver's GEM object rules: page rounding, cache attributes, fault
  mapping and all-or-nothing page allocation;
- the raw-USB sender's command framing, 24-bit frame header, 1024-byte
  chunking and colour-bar frame.

One module per source file, plus shared modules:

- `Pixels` holds bytes, pixels, images and the resampling stand-in.
- `Stride` holds the stride encoder specification and its decoder.
- `Compositor` holds fit-mode geometry.
- `MirrorLayout` holds the fixed layout both mirrors share.
- `Kernel` holds error numbers, the page size, and `u32`/`u64` wrap-around.

Code that changes state is written as methods: loops with invariants, and
classes (`SmartMirror`, `SimpleMirror`, `FbUpdate`, `GemObject`,
`Gm12u320`) whose fields the source updates in place. Each method is
proved against a specification function, and the properties are proved
about those functions as lemmas.

Transfers, image loading, allocations and some file writes are parameters.
Examples are a transfer's reply, the success flag of the mirrors' writes, the
loaded image as an `Option`, and whether `kmalloc` succeeded. A method's
out-parameter `log` records what was sent. The writes of show_image.py and
fine_tune.py are taken to succeed (see "Left out").

Where the code's comments, names or evident intent and its behaviour disagree, the model
follows the code:

- The Python encoders do not all clamp the padding the same way. show_image.py
  pads only when `stride - 3·w` is positive. calibrate_aspect.py repeats
  `b'\x00'` a negative number of times, which gives nothing. fine_tune.py
  clamps explicitly. All three therefore produce the same bytes, the
  `Stride.EncodeImage` layout, and each is modelled as written.
- calibration.py imports `image_to_rgb_array_with_stride` and
  `write_image_to_file` from show_image.py, which defines neither. As
  written, the script therefore stops with an ImportError before
  `calibration()` runs. `Calibration.Calibrate` models the function as
  intended. Because the encoder and the writer it would use do not exist,
  whether each trial was encoded and written is an abstract predicate
  `delivered(idx)`.
- `resize_image` (and `resize_and_crop`) raise when a side of the resized
  picture is zero. Under Aspect-fit the short side is truncated with
  `int(...)`, so a source far wider or taller than the target scales to a
  zero side and PIL refuses it. A 1000×1 image at 640×480 is one example.
  The model keeps this: `Compositor.Raises` says when it happens,
  `ResizeImage` is defined only where it does not, and the callers stop
  where the scripts would.
- `gm12u320fb_create` has a branch for 24 bpp that can never be taken,
  because the function has already promoted 24 to 32. `FbCreateMode`
  follows the code, and `FbCreateDepths` shows that RGB888 is never chosen.

## Model

| member | source | states |
|---|---|---|
| Stride.ReverseChannels | show_image.py:100 | `arr[:, :, ::-1]`: the grid keeps its shape and every pixel has its red and blue channels exchanged |
| Stride.ReverseChannelsInvolution | show_image.py:100 | reversing the channels of a grid twice gives the grid back |
| Stride.RowBytes | show_image.py:107 | `arr[y].tobytes()`: three bytes per pixel, in channel order |
| Stride.RowBytesAt | show_image.py:107 | byte `3x + k` of a serialised row is channel `k` of pixel `x` |
| Stride.EncodeLength | show_image.py:101-108 | `h` rows of `w` pixels with `pad` padding serialise to `h·(3w + pad)` bytes |
| Stride.EncodeAt | show_image.py:105-108 | row `y` occupies `[y·S, (y+1)·S)`; its first `3w` bytes are the pixel bytes and the rest are zero |
| Stride.EncodeImageAt | show_image.py:98-110 | the bytes of pixel (x, y) in the encoded image, in RGB or BGR order as `swap` says |
| Stride.EncodeImagePadding | show_image.py:103-108 | the padding bytes of every row are zero |
| Stride.EncodeImageLength | show_image.py:101-108 | the buffer is `height·max(stride, 3·width)` bytes: a small stride neither pads nor truncates |
| Stride.Decode | show_image.py:98-110 | a reader with the same width, height and stride sees a `w`×`h` grid |
| Stride.DecodeEncode | show_image.py:98-110 | decoding an encoded image gives its rows back, reversed exactly when the encoder reversed them |
| Stride.SwapRoundTrip | show_image.py:100 | encoding with reversal and reversing again on reading recovers the original channels |
| Pixels.Resample | show_image.py:77 | resampling returns a valid image of exactly the requested size |
| Pixels.ResampleSameSize | show_image.py:77 | resampling to the image's own size returns the image unchanged |
| Pixels.Paste | show_image.py:94 | `canvas.paste(tmp, (x, y))` keeps the canvas's size, whatever the offsets and tile size |
| Pixels.Canvas | show_image.py:90 | `Image.new("RGB", (w, h), (0, 0, 0))`: a valid `w`×`h` image, all black |
| Compositor.ResizeImage | show_image.py:75-96 | on the inputs for which `resize_image` does not raise, it gives a `w`×`h` image under either fit mode |
| Compositor.RaisesExactly | show_image.py:80-91 | for positive sizes, the resize raises exactly under Aspect-fit when `w·img_h < img_w` for a wide source or `h·img_w < img_h` for a tall one; Exact-fit never raises |
| Compositor.StripRaises | show_image.py:80-91 | a 1000×1 image at 640×480 scales to 640×0 under Aspect-fit, so the resize raises; under Exact-fit it does not |
| Compositor.AspectSizeFits | show_image.py:81-89 | Aspect-fit sets the limiting side to the target and keeps the other within it |
| Compositor.CentredInside | show_image.py:92-93 | the `(w - nw) // 2` offset is non-negative, keeps the image inside and centres it to within a pixel |
| Compositor.AspectFitLetterbox | show_image.py:81-96 | inside the `((w-nw)//2, (h-nh)//2)` box the result is the scaled image; outside it is black |
| Compositor.AspectFitIdentity | show_image.py:81-96 | Aspect-fit of an image already at the target size returns it unchanged |
| Compositor.ExactFitSize | show_image.py:76-79 | Exact-fit yields exactly `w`×`h` |
| Compositor.WidescreenInto800x600 | show_image.py:81-96 | 1920×1080 into 800×600 is letterboxed to 800×450 with 75-pixel bands |
| ShowImage.ImageToRgb | show_image.py:98-110 | the buffer is the stride layout of the image, and the score is the absolute value of `stride - 3·w` |
| ShowImage.TestConfigs | show_image.py:141-146 | the test mode makes 16 trials: 4 resolutions × 2 modes × 2 swaps |
| ShowImage.TestConfigStep | show_image.py:143-146 | the loops' positions `(ri, mi, si)` make trial `4·ri + 2·mi + si`: resolution, then mode, then swap |
| ShowImage.BestIsEarliestMinimum | show_image.py:151-155 | the accumulator ends on the earliest trial of minimum score |
| ShowImage.RunTests | show_image.py:136-157 | the buffers written are those of the trials before the first whose resize raises, in order, each of a resizable trial; `raised` exactly when fewer than 16 were written, and then the next trial cannot be resized; the best configuration is that of the trials written; nothing when loading fails |
| ShowImage.RunMode | show_image.py:144-156 | for the loops' resolution and mode: if the resize raises nothing changes and the trial is marked unresizable, otherwise the two trials that follow extend the buffers and the best configuration consistently |
| ShowImage.RunSwaps | show_image.py:146-156 | the two channel orders of one resolution and mode each add their trial's buffer and keep the best configuration consistent |
| ShowImage.TestConfigAt | show_image.py:141-146 | trial `4·ri + 2·mi + si` is resolution `ri`, mode `mi` and channel order `si` of the loops |
| ShowImage.TestsEndedAt | show_image.py:136-157 | the state after the trials written, the first unresizable one, if any, and the best configuration so far is the end state of the tests |
| ShowImage.RunTest | show_image.py:146-156 | one trial: its buffer is written, and the best configuration changes only on a strictly smaller score |
| ShowImage.TestScores | show_image.py:104 | a trial's score is 248, 128, 160 or 1024 by its resolution, whatever its mode and swap |
| ShowImage.TestWinner | show_image.py:28-33 | with the listed resolutions the winner is (640, 480, 2048, RGB, Exact-fit) with score 128 |
| ShowImage.RunNormal | show_image.py:119-129 | the given configuration, or 800×600, stride 2560, RGB, Exact-fit by default; `raised` exactly when that resize raises, and then nothing is written; nothing is written when loading fails |
| ShowImage.EndsAtFirstRaise | show_image.py:136-157 | when trial k is the first that cannot be resized, every end state of the tests has written exactly k buffers and raised |
| ShowImage.StripStopsTests | show_image.py:136-145 | a 1000×1 image passes the two 600×480 Exact-fit trials and cannot be resized for the third, the 600×480 Aspect-fit one |
| ShowImage.StripEndsTests | show_image.py:136-157 | so every end state of `run_tests` on a 1000×1 image has written exactly two buffers and raised |
| ShowImage.DefaultLayout | show_image.py:126 | the default layout pads each row by 160 bytes, 1,536,000 bytes in all |
| Calibration.SweepTrials | calibration.py:17-36 | the sweep makes 48 trials: 3 resolutions × 2 modes × 4 strides × 2 swaps |
| Calibration.SweepStep | calibration.py:25-36 | the loops' positions name trial `16·ri + 8·mi + 2·sti + swi + 1`, and one more trial keeps `results` the delivered trials so far |
| Calibration.Displays | calibration.py:32-35 | one displayed event per delivered trial, in order |
| Calibration.Record | calibration.py:47-53 | the record holds exactly the trial's width, height, stride, channel order and mode |
| Calibration.ExitCode | calibration.py:11-14 | exit status 0 exactly when the record was saved |
| Calibration.Calibrate | calibration.py:10-58 | nothing is written when the device or image is missing; `results` are the delivered trials in order; the record of the chosen trial is saved last, or the choice fails |
| Calibration.SweepNumbering | calibration.py:23-36 | trials are numbered from 1 in sweep order |
| Calibration.DeliveredExactly | calibration.py:32-35 | `results` holds a trial iff the sweep made it and it was delivered, in order |
| Calibration.ResultsOrdered | calibration.py:25-36 | result numbers are strictly increasing, unique, and between 1 and 48 |
| Calibration.ChooseFinds | calibration.py:44-45 | the choice finds the result with that number, and finds one exactly when one exists |
| Calibration.SavedLast | calibration.py:38-56 | the configuration file is written after every displayed trial |
| FineTune.Clamp | fine_tune.py:121-122 | `max(100, side)`: at least 100, and the side itself when that is larger |
| FineTune.TuneTrials | fine_tune.py:115-135 | the sweep makes 180 trials: 4 bases × 5 factors × 3 × 3 offsets |
| FineTune.ImageToRgbArrayWithStride | fine_tune.py:63-76 | the stride layout with padding clamped to zero, channels reversed when `swap` is set |
| FineTune.TrialAt | fine_tune.py:117-125 | loop positions `(bi, fi, xi, yi)` make trial `45·bi + 9·fi + 3·xi + yi` |
| FineTune.TrialBufferNonEmpty | fine_tune.py:130-131 | every trial's buffer is non-empty, so `if rgb` always holds |
| FineTune.RunTrial | fine_tune.py:121-135 | one more trial, at its loop positions, is tried and its buffer written |
| FineTune.Sweep | fine_tune.py:115-135 | no trial's resize raises, and every trial is resized, encoded and written, in loop order |
| FineTune.FineTuneMain | fine_tune.py:102-139 | exit 1 with nothing written when the projector is missing or the image does not load; otherwise every trial is resizable and its buffer is written |
| FineTune.TrialShape | fine_tune.py:117-125 | every trial is at least 100×100 and keeps its base's channel order and mode, which is Exact-fit |
| FineTune.TrialStrideRange | fine_tune.py:117-123 | a trial's stride lies between 0.8 and 1.2 times its base stride, rounded down |
| FineTune.BaseIncluded | fine_tune.py:10-18 | every base configuration is itself one of the trials |
| FineTune.StridesAround2560 | fine_tune.py:117-123 | the factors turn 2560 into 2048, 2304, 2560, 2816 and 3072 |
| FineTune.SmallestTrial | fine_tune.py:121-122 | no trial is narrower than 540 or lower than 380, both above the floor, and trial 45 is 540×380 |
| CalibrateAspect.ResizeAndCrop | calibrate_aspect.py:40-73 | always a `w`×`h` image; `None` exactly when the call raises: the adjusted width is not positive, the adjusted height is zero, Exact-fit with a negative height, an Aspect-fit source without pixels, or an Aspect-fit side that rounds to zero (with a negative height the width limits, so the height is `(w+dx)·img_h / img_w`) |
| CalibrateAspect.NegativeHeightKeepsPicture | calibrate_aspect.py:59-72 | an 800×600 picture with `dy = -700` comes back unchanged under Aspect-fit, since the negative target ratio lets the width limit; Exact-fit refuses the same call |
| CalibrateAspect.NarrowTargetRaises | calibrate_aspect.py:59-68 | a 2×1 picture in an 800×600 canvas with `dx = -799` scales to 1×0 under Aspect-fit, so `resize_and_crop` raises; under Exact-fit it does not |
| CalibrateAspect.ZeroBytes | calibrate_aspect.py:85 | `b'\x00' * n`: `n` zeros, and none when `n` is not positive |
| CalibrateAspect.ImageToBytes | calibrate_aspect.py:75-86 | the stride layout, channels reversed when `swap_bgr` is set |
| CalibrateAspect.CalibrateAspectMain | calibrate_aspect.py:95-114 | dx and dy default to 0; the best layout of the adjusted image is written exactly when device, image and sizes allow |
| CalibrateAspect.ExactFitShrinkCentred | calibrate_aspect.py:53-58 | a smaller Exact-fit target is centred and the canvas around it is black |
| CalibrateAspect.ExactFitGrowCropped | calibrate_aspect.py:53-58 | a larger Exact-fit target is pinned top-left and cropped |
| CalibrateAspect.NoOffsetIsExactFit | calibrate_aspect.py:53-58 | with no offsets, Exact-fit here equals Exact-fit of show_image.py |
| CalibrateAspect.AspectFitInside | calibrate_aspect.py:59-72 | a target no larger than the canvas gives non-negative offsets and a picture inside it |
| CalibrateAspect.BestLayout | calibrate_aspect.py:75-86 | with the best layout (800×600, stride 2560, channels reversed) the written buffer is 1,536,000 bytes; bytes `3x`, `3x+1` and `3x+2` of row `y` are the blue, green and red of pixel (x, y), and bytes 2400 to 2559 of each row are zero |
| MirrorLayout.Crop | smart_mirror.py:258-260 | the top-left 800×600 pixels, the only ones the encoder reads |
| MirrorLayout.RowsAreReversedCrop | smart_mirror.py:258-262 | the frame's rows are the crop with channels reversed |
| MirrorLayout.CreateRgbBufferWithStride | smart_mirror.py:249-270 | the frame layout for an image that covers 800×600, `None` otherwise |
| MirrorLayout.WriteToFile | smart_mirror.py:272-290 | success iff the write succeeds and the file holds 1,537,200 bytes |
| MirrorLayout.LayoutConstants | smart_mirror.py:15-21 | 2400 data bytes, 162 padding bytes, 2562 per row, 1,537,200 in all |
| MirrorLayout.FrameLength | smart_mirror.py:258-267 | every frame is 1,537,200 bytes, so a successful write validates |
| MirrorLayout.FrameAt | smart_mirror.py:258-265 | byte `3x + k` of row `y` is channel `k` of pixel (x, y) in BGR order; bytes 2400 to 2561 are zero |
| MirrorLayout.FrameRoundTrip | smart_mirror.py:249-267 | reading a frame back at stride 2562 and reversing the channels recovers the crop |
| SmartMirror.FrameSource | smart_mirror.py:298-303 | the test pattern is used only when the capture fails |
| SmartMirror.SmartMirror.constructor | smart_mirror.py:27-31 | stopped, no frames, no capture, no framebuffer |
| SmartMirror.SmartMirror.UpdateProjector | smart_mirror.py:292-327 | the frame written; the frame count rises by one exactly when a picture existed and the write validated |
| SimpleMirror.Grab | simple_mirror.py:181-184 | "mss" selects the mss grab, anything else the alternative |
| SimpleMirror.SimpleMirror.constructor | simple_mirror.py:27-31 | stopped, no frames, no capture |
| SimpleMirror.SimpleMirror.UpdateProjector | simple_mirror.py:177-208 | the frame written; the frame count rises by one exactly when the chosen grab gave a picture and the write validated |
| ShowImageC.SourceOffset | show_image_c.c:134-144 | the sampled source pixel lies inside the captured screen |
| ShowImageC.Sampled | show_image_c.c:137-148 | the converted grid is 800×600 |
| ShowImageC.Converted | show_image_c.c:137-148 | a full-size buffer whose data bytes come from the screen and whose padding is untouched |
| ShowImageC.CaptureAndConvert | show_image_c.c:122-154 | the buffer afterwards is the conversion of the screen over its old contents |
| ShowImageC.ZeroedFrameIsLayout | show_image_c.c:181-182 | converting into a zeroed buffer gives the 2562-stride layout of the sampled grid |
| ShowImageC.FrameForgetsEarlier | show_image_c.c:137-148 | a frame does not depend on what earlier frames wrote |
| ShowImageC.ShowScreens | show_image_c.c:181-205 | frame `n` is written whole to B, A, B, … in turn, and `frames` counts the frames |
| ShowImageC.ShowScreen | show_image_c.c:196-202 | whatever frame the buffer held, after the conversion it holds the new screen's layout and that layout is what is written to the chosen file |
| ShowImageC.NextFrame | show_image_c.c:193-203 | converting the next screen over the previous frame gives that screen's layout |
| ShowImageC.FrameSize | show_image_c.c:29-34 | the buffer is 1,537,200 bytes |
| ShowImageC.OutputPixel | show_image_c.c:142-147 | output byte `3x + k` of row `y` is byte `k` of the sampled 4-byte source pixel |
| GmMain.TemplatesAreWrappers | gm12u320_main.c:64-83 | the three templates are wrappers with signature "USBC" and the right little-endian lengths and directions |
| GmMain.Layout | gm12u320_main.c:133-153 | a block is 64616 bytes, or 4136 for the last one |
| GmMain.LayoutFramed | gm12u320_main.c:35-44 | header at `[0, 84)`, footer at the end, zero content, header announcing the content size |
| GmMain.AllocLayout | gm12u320_main.c:142-152 | `kzalloc` then the two copies give exactly that layout |
| GmMain.AllocBlock | gm12u320_main.c:133-153 | a fresh block in the allocated layout |
| GmMain.Memcpy | gm12u320_main.c:149-152 | `memcpy`: the range is overwritten and the rest kept |
| GmMain.TestColour | gm12u320_main.c:309-311 | red on odd frames, green on even ones |
| GmMain.FillBlock | gm12u320_main.c:308-312 | the block's content filled with the frame's colour |
| GmMain.TestFillFramed | gm12u320_main.c:304-313 | the fill keeps header and footer and paints every content pixel |
| GmMain.TestFillIdempotent | gm12u320_main.c:304-313 | filling twice is filling once |
| GmMain.TestPattern | gm12u320_main.c:304-313 | every block filled |
| GmMain.DataCommandFields | gm12u320_main.c:323-327 | length `size` at bytes 8 and 9 (decoding back), `0xfc - 4·block` at 20, block and frame bit at 21, the rest from the template |
| GmMain.DataCommandTemplate | gm12u320_main.c:64-69 | the template is the command for block 0 of frame 0 |
| GmMain.BuildDataCommand | gm12u320_main.c:323-327 | the patched buffer is the data command |
| GmMain.MiscCommandFields | gm12u320_main.c:180-186 | bytes 20 to 25 hold the request and arguments, the rest is the template |
| GmMain.BuildMiscCommand | gm12u320_main.c:180-186 | the patched buffer is the misc command |
| GmMain.ExchangedOk | gm12u320_main.c:329-367 | a run succeeds exactly when every transfer moves its full length |
| GmMain.ExchangedUnique | gm12u320_main.c:329-367 | the replies determine the log and the outcome |
| GmMain.MiscRequest | gm12u320_main.c:169-223 | the value byte when all three transfers are exact, `-EIO` at the first short one, `-ENOMEM` without transfers when allocation fails |
| GmMain.EcoCommandBytes | gm12u320_main.c:522-524 | the eco-mode request sends (0xff, 0x35, 0x01, eco, 0, 1) |
| GmMain.SetEcomode | gm12u320_main.c:518-525 | `set_ecomode` is the misc request with those arguments |
| GmMain.Packed | gm12u320_main.c:225-233 | packing `len` pixels gives `3·len` bytes |
| GmMain.PackedAt | gm12u320_main.c:225-233 | `dst[3i + k] == src[4i + k]` for `k < 3` |
| GmMain.PackWidened | gm12u320_main.c:225-233 | packing undoes widening, whatever the fourth byte |
| GmMain.PackedPrefix | gm12u320_main.c:225-233 | packing reads only the first `4·len` source bytes |
| GmMain.Pack32To24 | gm12u320_main.c:225-233 | exactly the first `3·len` destination bytes are written, with the packed pixels |
| GmMain.CopyPixel | gm12u320_main.c:228-231 | three source bytes land at the destination position and nothing else in the destination changes |
| GmMain.Blocks | gm12u320_main.c:316-351 | three transfers per block, in block order |
| GmMain.ScriptAt | gm12u320_main.c:316-351 | transfer `3b + j` is step `j` of block `b` |
| GmMain.DrawAt | gm12u320_main.c:353-367 | the frame ends with the draw command and its status read |
| GmMain.CommandAnnouncesData | gm12u320_main.c:323-342 | each data command announces the length of the data transfer after it |
| GmMain.Gm12u320.constructor | gm12u320_main.c:119-157 | every block in the allocated layout, frame 0, the first-frame timeout |
| GmMain.Gm12u320.FillTestPattern | gm12u320_main.c:304-313 | the blocks hold the test pattern |
| GmMain.Gm12u320.UpdateFrame | gm12u320_main.c:298-370 | test fill without a framebuffer, then the frame's transfers; success toggles the frame and shortens the draw timeout |
| GmMain.Gm12u320.SendFrame | gm12u320_main.c:316-367 | the frame's transfers up to the first short one |
| GmMain.Gm12u320.SendBlock | gm12u320_main.c:316-351 | the data command, the block and the status read of one block, each sent only after the one before moved its full length; the run goes on or ends as the frame script says |
| GmMain.Gm12u320.BlockPlanned | gm12u320_main.c:316-342 | the frame script plans for each block the patched data command, the block's buffer as it stands and the status read, and the buffer has the block's size |
| GmMain.Gm12u320.ContentsFramed | gm12u320_main.c:133-153 | the class invariant keeps every data buffer's header and footer in place |
| GmMain.Gm12u320.Run | gm12u320_main.c:284-380 | the first `sent` passes are each the complete exchange of their frame script, built from the buffers as that pass's fill left them, with its frame bit and draw timeout, and log 3·blockCount + 2 transfers; when `failed` holds a log, `sent` falls short of the passes offered and that log is the failed exchange of the next pass, which ends the work; the final buffers are the start buffers with the test pattern applied at each pass that had no framebuffer; the frame bit alternates and only the first draw waits long |
| GmMain.Gm12u320.RunFrom | gm12u320_main.c:284-371 | the loop of the work function from a given start state, with the same guarantees as `Run` stated against that state |
| GmMain.Gm12u320.RunPass | gm12u320_main.c:287-371 | pass `n` fills the buffers when no framebuffer is pending and exchanges the frame script of the new buffers; only a complete exchange advances the frame bit and the timeout |
| GmMain.PassesDoneStep | gm12u320_main.c:284-371 | a completed pass extends the record of completed passes by its log |
| GmMain.PassesDoneAt | gm12u320_main.c:284-371 | each recorded pass `i` is the complete exchange of the script of pass `i` |
| GmMain.PassesDoneLengths | gm12u320_main.c:316-367 | every completed pass logs three transfers per block and two for the draw |
| GmFb.Union | gm12u320_fb.c:48-53 | the union encloses both rectangles |
| GmFb.UnionLeast | gm12u320_fb.c:48-53 | the union is the least rectangle that encloses both |
| GmFb.UnionLaws | gm12u320_fb.c:48-53 | union is idempotent, commutative and associative |
| GmFb.Bound | gm12u320_fb.c:95-106 | the bounding box encloses every clip |
| GmFb.BoundLeast | gm12u320_fb.c:95-106 | the bounding box is the least rectangle that does |
| GmFb.BoundingBox | gm12u320_fb.c:95-106 | the clip loop computes the bounding box |
| GmFb.Mark | gm12u320_fb.c:41-53 | another framebuffer replaces fb and rectangle; the same one grows the rectangle |
| GmFb.MarkIdempotent | gm12u320_fb.c:48-53 | marking the same rectangle twice is marking it once |
| GmFb.MarkCommutes | gm12u320_fb.c:41-53 | two marks of one framebuffer commute |
| GmFb.MarkBoundIsMarkEach | gm12u320_fb.c:95-108 | marking the bounding box equals marking every clip in turn |
| GmFb.FbUpdate.constructor | gm12u320_fb.c:31-62 | no framebuffer and an empty rectangle pending |
| GmFb.FbUpdate.MarkDirty | gm12u320_fb.c:31-62 | the pending state is marked and no wake-up is issued |
| GmFb.FbUpdate.UserFramebufferDirty | gm12u320_fb.c:83-111 | returns 0; with no clips nothing is marked, otherwise the bounding box is |
| GmFb.FbCreateModeFacts | gm12u320_fb.c:162-179 | 24 bpp promoted to 32, the pitch, the format, and the page-aligned size |
| GmFb.FbCreateDepths | gm12u320_fb.c:162-179 | for 16, 24 and 32 bpp the pitch is 2 or 4 bytes a pixel, the format RGB565 or XRGB8888 (never RGB888), and when nothing wraps the size is the byte count rounded up to whole pages |
| GmFb.UserFbCreate | gm12u320_fb.c:422-456 | `-ENOENT`, `-ENOMEM` for a too-small object or a failed allocation, `-EINVAL`, or 0 exactly when all checks pass |
| GmFb.UserFbFits | gm12u320_fb.c:436-444 | without wrap-around, an accepted framebuffer fits in its object |
| GmFb.UserFbWrapsWithoutRangeCheck | gm12u320_fb.c:436-444 | the `u32` product can wrap to 0 and pass the check |
| GmGem.GemCreate | gm12u320_gem.c:35-58 | the size rounded up to a page; `-ENOMEM` or the handle error on failure |
| GmGem.DumbLayout | gm12u320_gem.c:80-81 | `pitch = width·⌈bpp/8⌉` and `size = pitch·height`, in `u32` |
| GmGem.DumbCreate | gm12u320_gem.c:77-84 | the layout, then an object of at least that size |
| GmGem.DumbCreateHoldsLines | gm12u320_gem.c:77-84 | a 32 bpp dumb buffer holds `height` lines of `4·width` bytes |
| GmGem.CacheAttr | gm12u320_gem.c:60-75 | cacheable wins over write-combined; with neither the mapping is uncached |
| GmGem.CreatedMappedCached | gm12u320_gem.c:31 | created objects are mapped cached |
| GmGem.InsertFault | gm12u320_gem.c:117-126 | 0, `-EAGAIN`, `-ERESTARTSYS` give NOPAGE; `-ENOMEM` gives OOM; all else SIGBUS |
| GmGem.GemFault | gm12u320_gem.c:102-127 | no pages gives SIGBUS; otherwise the mapping of inserting the page |
| GmGem.FaultInsertsItsPage | gm12u320_gem.c:110-116 | a fault at byte `p·4096 + k` inserts page `p` |
| GmGem.FirstFailure | gm12u320_gem.c:152-154 | the first page allocation that fails, or `n` |
| GmGem.ReversedAt | gm12u320_gem.c:157-159 | rollback frees in reverse order, each page exactly once |
| GmGem.GetPagesAllOrNothing | gm12u320_gem.c:129-168 | all pages or none: on failure every allocated page is freed and none are kept |
| GmGem.GemObject.constructor | gm12u320_gem.c:17-33 | no pages, cacheable flags |
| GmGem.GemObject.GetPages | gm12u320_gem.c:129-168 | existing pages are left alone; otherwise the all-or-nothing outcome |
| GmGem.FreeAll | gm12u320_gem.c:157-159 | the pages are freed from the last allocated down |
| Kernel.PageAlign | gm12u320_gem.c:42 | a page multiple within a page above `x`, or 0 on wrap-around |
| Kernel.BytesPerPixel | gm12u320_gem.c:80 | `DIV_ROUND_UP(bpp, 8)`: whole bytes for `bpp` bits |
| Kernel.Pitch | gm12u320_fb.c:167 | `width·⌈bpp/8⌉` in `u32` |
| Kernel.U32 | gm12u320_fb.c:178 | a `u32` store keeps `x` modulo 2^32 |
| VideoProjector.CommandPacket | video_projector.c:32-38 | `[cmd, len, data…]`, `2 + len` bytes within the 64-byte buffer |
| VideoProjector.CommandRoundTrip | video_projector.c:32-38 | parsing a packet gives the opcode and data, and only that packet parses to them |
| VideoProjector.SendCommand | video_projector.c:27-47 | 1 on a successful transfer, 0 otherwise; the packet carries the command |
| VideoProjector.FrameHeader | video_projector.c:54 | four bytes, starting with `CMD_FRAME` |
| VideoProjector.FrameHeaderRoundTrip | video_projector.c:54 | the header announces the size modulo 2^24, so any size below 2^24 exactly |
| VideoProjector.FrameSizeFits | video_projector.c:16-19 | `FRAME_SIZE` is 1,440,000 and round-trips through the header |
| VideoProjector.Chunks | video_projector.c:61-77 | chunks of 1 to 1024 bytes; returns 1 exactly when everything was sent |
| VideoProjector.SendFrameReturns | video_projector.c:49-81 | the header first, then chunks of 1 to 1024 bytes; 1 only when the whole frame went out |
| VideoProjector.PerfectChunks | video_projector.c:65-77 | with whole transfers, `⌈(size - sent)/1024⌉` chunks that together are the rest of the frame |
| VideoProjector.PerfectSendFrame | video_projector.c:49-81 | with whole transfers, 1 after the header and `⌈size/1024⌉` chunks that are the frame |
| VideoProjector.SendFrame | video_projector.c:49-81 | the loop does what the chunk specification says |
| VideoProjector.SendChunk | video_projector.c:66-76 | one chunk: on failure the loop ends with the chunk logged; otherwise `sent` strictly grows, stays within the frame, and the rest follows the chunk specification |
| VideoProjector.ColourBars | video_projector.c:141-164 | the test frame is 1,440,000 bytes |
| VideoProjector.BarAt | video_projector.c:145-162 | pixel (x, y) is in bar `x / 100` of eight and holds its colour |
| VideoProjector.OffsetsTile | video_projector.c:145 | every frame byte is one pixel channel, and distinct channels have distinct offsets |
| VideoProjector.FillColourBars | video_projector.c:141-164 | every byte of the frame ends up as the colour-bar frame's |
| VideoProjector.PaintPixel | video_projector.c:144-162 | the three bytes of pixel (x, y) take the colour of its bar, extending the filled prefix of the frame |

## Left out

- Screen capture is not modelled: the X11/XShm setup, `/dev/fb*` reads, `import`/`xwd`/`mss` subprocesses and `find_active_framebuffer`. Captures are `Option<Image>` parameters.
- Image loading and downloads are not modelled. The loaded image is an `Option<Image>` parameter.
- File writes, `fsync`, `rename` and `os.remove` are not modelled. For the mirrors a write's success is a boolean parameter, and `write_frame_atomic` is recorded as a `FrameWrite` value.
- ShowImage.RunTests: `write_image` raises when the file cannot be opened or written, which ends the script. The model takes every write as succeeding.
- ShowImage.RunNormal: the same applies to its one `write_image`.
- FineTune.Sweep: `write_image_to_file` raises in the same way and would end the sweep. The model takes every write as succeeding.
- ShowImage.RunTests: when a resize raises, the script ends without reporting a best configuration. `best` is still returned, as the best of the trials written.
- Calibration.Calibrate: an Aspect-fit trial whose resize raises would end the sweep rather than be skipped. The model leaves this out because the script never reaches `calibration()`. Each trial is delivered or skipped, as `delivered(idx)` says.
- USB transfers are not modelled. Every `usb_bulk_msg` and `libusb_bulk_transfer` outcome is a reply function parameter.
- PIL's LANCZOS filter is external. `Pixels.Resample` is a nearest-neighbour stand-in, and only its output size is relied on.
- The dynamic test patterns (`create_dynamic_test_pattern`, `create_test_pattern`) depend on the clock and on font rendering. They are `Option<Image>` parameters.
- Floating point is not modelled. FPS computation, the capture interval and sleeps are left out.
- Aspect ratios are compared by integer cross-multiplication, with the other side as the exact floor.
- show_image_c.c's `(int)(y * sy)` is taken as the exact floor of the rational `y·height/600`.
- fine_tune.py's stride factors are integer tenths. For the four base strides this equals the double-precision product.
- Calibration.Calibrate: `int(input())` raising ValueError on non-numeric input is not modelled; the choice is an integer.
- Driver concurrency is not modelled: the workqueue, timer, mutex, `wait_event_timeout`, and the start and stop of the update work.
- `kmalloc`/`kvmalloc`/`vmap`/dma-buf and page handling are not modelled beyond the all-or-nothing rule.
- GmFb.UserFbCreate: the `u32` overflow of `pitch·height` is modelled but not prevented. The DRM core's range checks, which keep real requests small, are outside this model.
- GmGem.DumbLayout: the same applies to `u32` overflow in `dumb_create`.
- GmGem.GemObject.GetPages: the `int page_count` truncation of sizes above 2^43 bytes is not modelled.
- GmMain: the content of the user framebuffer is not copied into the data blocks. The source never does so: with a pending framebuffer it only re-marks it dirty. `GM12U320_BLOCK_COUNT`, `GM12U320_USER_WIDTH`, `GM12U320_HEIGHT` and the BO flag values live in gm12u320_drv.h, which is not part of this model. The block count is a parameter and the flags are two booleans.
- VideoProjector.SendCommand: `data_len` above 62, which overflows the 64-byte stack buffer, is excluded by its precondition. A NULL `data` with a nonzero length is not modelled.
- VideoProjector.SendFrame: a successful transfer that moves zero bytes of a non-empty request is excluded by the `Device` assumption. With such a transfer the C loop would never end.
- The `main` functions of video_projector.c and the libusb probe programs (usb_monitor.c, analyze_protocol.c, projector_control.c, usb_projector.c) are not modelled apart from the colour-bar fill. They only open devices and print results.
- fbmirror/fbmirror.c, gm12u320_connector.c and gm12u320_encoder.c are not part of this model. They are an mmap copy loop and DRM registration stubs.
- Framebuffer, page and GEM handle identities are natural numbers, not pointers.
