/**
 * show_image_c.c: grab the screen, sample it down to 800×600 by nearest
 * neighbour, keep three of the four bytes of every 32-bit pixel, and write the
 * frame into a zeroed buffer with rows of 2562 bytes, alternating between two
 * temporary files that are renamed onto the file the driver reads.
 */
module ShowImageC {
  import opened Pixels
  import opened Stride

  const ProjectorWidth: nat := 800
  const ProjectorHeight: nat := 600
  const BytesPerPixel: nat := 3
  const DataBytesPerLine: nat := ProjectorWidth * BytesPerPixel
  const StrideBytesPerLine: nat := 2562
  const TotalFileSize: nat := StrideBytesPerLine * ProjectorHeight

  /** A captured screen as the X server hands it over: 4 bytes per pixel, rows `bytesPerLine` apart. */
  datatype ScreenImage = ScreenImage(width: nat, height: nat, bytesPerLine: nat, data: seq<byte>)

  /** A screen the conversion can read: non-empty, every row holding its pixels. */
  ghost predicate WellFormed(s: ScreenImage)
  {
    s.width > 0 && s.height > 0 && s.bytesPerLine >= 4 * s.width &&
    |s.data| >= s.height * s.bytesPerLine
  }

  /**
   * Offset of the source pixel that output pixel (x, y) samples: row
   * `(int)(y·sy)` and column `(int)(x·sx)` with `sx = width / 800` and
   * `sy = height / 600`, taken as exact fractions.
   */
  function SourceOffset(s: ScreenImage, y: nat, x: nat): (off: nat)
    requires WellFormed(s) && y < ProjectorHeight && x < ProjectorWidth
    ensures off + 3 < |s.data|
  {
    var sy, sx := NearestIndex(y, s.height, ProjectorHeight), NearestIndex(x, s.width, ProjectorWidth);
    SourceInside(s, sy, sx);
    sy * s.bytesPerLine + sx * 4
  }

  lemma SourceInside(s: ScreenImage, sy: nat, sx: nat)
    requires WellFormed(s) && sy < s.height && sx < s.width
    ensures sy * s.bytesPerLine + sx * 4 + 3 < |s.data|
  {
    RowInside(sy, sx * 4 + 3, s.bytesPerLine, s.height);
  }

  /**
   * The output pixel (x, y): bytes 0, 1 and 2 of the sampled source pixel,
   * copied in that order. The X server stores blue, green, red there, so the
   * `r`, `g` and `b` fields hold blue, green and red: they name byte
   * positions 0, 1 and 2, not colours, and the output keeps the BGR order.
   */
  function SampledPixel(s: ScreenImage, y: nat, x: nat): Pixel
    requires WellFormed(s) && y < ProjectorHeight && x < ProjectorWidth
  {
    var off := SourceOffset(s, y, x);
    Pixel(s.data[off], s.data[off + 1], s.data[off + 2])
  }

  /** The 800×600 grid the conversion produces. */
  function Sampled(s: ScreenImage): (rows: seq<seq<Pixel>>)
    requires WellFormed(s)
    ensures |rows| == ProjectorHeight && Uniform(rows, ProjectorWidth)
  {
    seq(ProjectorHeight, y requires 0 <= y < ProjectorHeight =>
      seq(ProjectorWidth, x requires 0 <= x < ProjectorWidth => SampledPixel(s, y, x)))
  }

  /** Byte `c` (below 2400) of output row `y`. */
  function DataByte(s: ScreenImage, y: nat, c: nat): byte
    requires WellFormed(s) && y < ProjectorHeight && c < DataBytesPerLine
  {
    s.data[SourceOffset(s, y, c / 3) + c % 3]
  }

  /**
   * The buffer after one conversion over `prev`: the first 2400 bytes of
   * every row come from the screen, the last 162 are left as they were.
   */
  function Converted(s: ScreenImage, prev: seq<byte>): (out: seq<byte>)
    requires WellFormed(s) && |prev| == TotalFileSize
    ensures |out| == TotalFileSize
  {
    seq(TotalFileSize, i requires 0 <= i < TotalFileSize =>
      if i % StrideBytesPerLine < DataBytesPerLine
      then DataByte(s, i / StrideBytesPerLine, i % StrideBytesPerLine)
      else prev[i])
  }

  /** Pixel `x` of row `y` lands at `y·2562 + 3x + k`, a data byte of that row. */
  lemma CellOf(y: nat, x: nat, k: nat)
    requires y < ProjectorHeight && x < ProjectorWidth && k < 3
    ensures var i := y * StrideBytesPerLine + 3 * x + k;
      i < TotalFileSize && i / StrideBytesPerLine == y && i % StrideBytesPerLine == 3 * x + k &&
      (3 * x + k) / 3 == x && (3 * x + k) % 3 == k
  {
    Split(y * StrideBytesPerLine + 3 * x + k, y, 3 * x + k, StrideBytesPerLine);
    Split(3 * x + k, x, k, 3);
  }

  /** Whether buffer index `i` is one of the 2400 data bytes of its row. */
  predicate IsData(i: nat)
  {
    i % StrideBytesPerLine < DataBytesPerLine
  }

  /** What buffer index `i` holds once the conversion has written every data byte below `limit`. */
  function Want(s: ScreenImage, prev: seq<byte>, limit: nat, i: nat): byte
    requires WellFormed(s) && |prev| == TotalFileSize && i < TotalFileSize
  {
    if i < limit && IsData(i) then DataByte(s, i / StrideBytesPerLine, i % StrideBytesPerLine) else prev[i]
  }

  /** The buffer `a` holds the conversion's output below `limit` and `prev` elsewhere. */
  ghost predicate Filled(a: seq<byte>, s: ScreenImage, prev: seq<byte>, limit: nat)
  {
    WellFormed(s) && |a| == TotalFileSize && |prev| == TotalFileSize &&
    forall i :: 0 <= i < TotalFileSize ==> a[i] == Want(s, prev, limit, i)
  }

  /** Writing the three bytes of output pixel (x, y) moves the limit past them. */
  lemma FillPixel(a: seq<byte>, s: ScreenImage, prev: seq<byte>, y: nat, x: nat)
    requires y < ProjectorHeight && x < ProjectorWidth
    requires Filled(a, s, prev, y * StrideBytesPerLine + 3 * x)
    ensures var j, off := y * StrideBytesPerLine + 3 * x, SourceOffset(s, y, x);
      j + 2 < TotalFileSize &&
      Filled(a[j := s.data[off]][j + 1 := s.data[off + 1]][j + 2 := s.data[off + 2]], s, prev, j + 3)
  {
    var j, off := y * StrideBytesPerLine + 3 * x, SourceOffset(s, y, x);
    CellOf(y, x, 0);
    CellOf(y, x, 1);
    CellOf(y, x, 2);
    var b := a[j := s.data[off]][j + 1 := s.data[off + 1]][j + 2 := s.data[off + 2]];
    forall i | 0 <= i < TotalFileSize ensures b[i] == Want(s, prev, j + 3, i) {
      if j <= i < j + 3 {
        assert IsData(i);
      }
    }
  }

  /** After the 2400 data bytes of row `y`, its 162 padding bytes are left alone. */
  lemma FillRowEnd(a: seq<byte>, s: ScreenImage, prev: seq<byte>, y: nat)
    requires y < ProjectorHeight
    requires Filled(a, s, prev, y * StrideBytesPerLine + DataBytesPerLine)
    ensures Filled(a, s, prev, (y + 1) * StrideBytesPerLine)
  {
    forall i | y * StrideBytesPerLine + DataBytesPerLine <= i < (y + 1) * StrideBytesPerLine
      ensures !IsData(i)
    {
      Split(i, y, i - y * StrideBytesPerLine, StrideBytesPerLine);
    }
    var before, after := y * StrideBytesPerLine + DataBytesPerLine, (y + 1) * StrideBytesPerLine;
    forall i | 0 <= i < TotalFileSize ensures Want(s, prev, before, i) == Want(s, prev, after, i) {
    }
  }

  lemma FillDone(a: seq<byte>, s: ScreenImage, prev: seq<byte>)
    requires Filled(a, s, prev, TotalFileSize)
    ensures a == Converted(s, prev)
  {
  }

  /**
   * `capture_and_convert(dst)` for an already captured screen: for every
   * output row and column, bytes 0 to 2 of the sampled 4-byte source pixel
   * are copied; the fourth is dropped and the padding of every row is never
   * written.
   */
  method CaptureAndConvert(s: ScreenImage, dst: array<byte>)
    requires WellFormed(s) && dst.Length == TotalFileSize
    modifies dst
    ensures dst[..] == Converted(s, old(dst[..]))
  {
    ghost var prev := dst[..];
    for y := 0 to ProjectorHeight
      invariant Filled(dst[..], s, prev, y * StrideBytesPerLine)
    {
      var syy := NearestIndex(y, s.height, ProjectorHeight);
      var dstRow := y * StrideBytesPerLine;
      for x := 0 to ProjectorWidth
        invariant Filled(dst[..], s, prev, dstRow + 3 * x)
      {
        var sxx := NearestIndex(x, s.width, ProjectorWidth);
        var p := syy * s.bytesPerLine + sxx * 4;
        assert p == SourceOffset(s, y, x);
        FillPixel(dst[..], s, prev, y, x);
        dst[dstRow + x * 3 + 0] := s.data[p + 0];
        dst[dstRow + x * 3 + 1] := s.data[p + 1];
        dst[dstRow + x * 3 + 2] := s.data[p + 2];
      }
      FillRowEnd(dst[..], s, prev, y);
    }
    FillDone(dst[..], s, prev);
  }

  /**
   * Converting into a zeroed buffer gives exactly the stride layout of the
   * sampled grid: 2400 pixel bytes and 162 zero bytes per row.
   */
  lemma ZeroedFrameIsLayout(s: ScreenImage)
    requires WellFormed(s)
    ensures Converted(s, Zeros(TotalFileSize)) == Encode(Sampled(s), StrideBytesPerLine - DataBytesPerLine)
  {
    var rows, pad := Sampled(s), StrideBytesPerLine - DataBytesPerLine;
    var frame := Converted(s, Zeros(TotalFileSize));
    EncodeLength(rows, ProjectorWidth, pad);
    forall i | 0 <= i < TotalFileSize ensures frame[i] == Encode(rows, pad)[i] {
      ZeroedFrameAt(s, i);
    }
  }

  /** Byte `i` of a conversion into a zeroed buffer is byte `i` of the stride layout. */
  lemma ZeroedFrameAt(s: ScreenImage, i: nat)
    requires WellFormed(s) && i < TotalFileSize
    ensures var layout := Encode(Sampled(s), StrideBytesPerLine - DataBytesPerLine);
      |layout| == TotalFileSize && Converted(s, Zeros(TotalFileSize))[i] == layout[i]
  {
    var rows, pad := Sampled(s), StrideBytesPerLine - DataBytesPerLine;
    var y, c := i / StrideBytesPerLine, i % StrideBytesPerLine;
    EncodeAt(rows, ProjectorWidth, pad, y, c);
    assert i == y * (3 * ProjectorWidth + pad) + c;
    var layout := Encode(rows, pad);
    if c < DataBytesPerLine {
      var x, k := c / 3, c % 3;
      RowBytesAt(rows[y], x, k);
      assert layout[i] == PixelBytes(SampledPixel(s, y, x))[k];
      assert Converted(s, Zeros(TotalFileSize))[i] == DataByte(s, y, c);
    } else {
      assert layout[i] == 0;
    }
  }

  /**
   * Each frame depends only on its own capture: converting over a buffer
   * that already holds a frame gives what converting over the earlier
   * buffer gives, so the padding keeps whatever it started as.
   */
  lemma FrameForgetsEarlier(s: ScreenImage, earlier: ScreenImage, prev: seq<byte>)
    requires WellFormed(s) && WellFormed(earlier) && |prev| == TotalFileSize
    ensures Converted(s, Converted(earlier, prev)) == Converted(s, prev)
  {
  }

  /** The two temporary files `main` alternates between. */
  datatype TempFile = FileA | FileB

  /** One `write_frame_atomic`: the whole buffer written to `tmp`, then renamed onto the active file. */
  datatype FrameWrite = FrameWrite(tmp: TempFile, contents: seq<byte>)

  /** The temporary file of frame `n` (from 0): `flip` starts at 0, so B, A, B, … */
  function TempFor(n: nat): TempFile
  {
    if n % 2 == 0 then FileB else FileA
  }

  /**
   * The loop of `main`, one iteration per screen in `screens` (the signal
   * that stops it is the end of the sequence): every frame is converted into
   * the one zero-initialised buffer and written whole, alternating files;
   * `frames` counts them.
   */
  method ShowScreens(screens: seq<ScreenImage>) returns (writes: seq<FrameWrite>, frames: nat)
    requires forall n :: 0 <= n < |screens| ==> WellFormed(screens[n])
    ensures frames == |screens| && |writes| == |screens|
    ensures forall n :: 0 <= n < |screens| ==>
      writes[n] == FrameWrite(TempFor(n), Encode(Sampled(screens[n]), StrideBytesPerLine - DataBytesPerLine))
  {
    var buffer := new byte[TotalFileSize](_ => 0);
    assert buffer[..] == Zeros(TotalFileSize);
    var flip := false;
    frames := 0;
    writes := [];
    while frames < |screens|
      invariant Shown(screens, frames, writes, flip, buffer[..])
      decreases |screens| - frames
    {
      ghost var before := buffer[..];
      var w := ShowScreen(screens[frames], if frames == 0 then None else Some(screens[frames - 1]),
                          buffer, if flip then FileA else FileB);
      ShownStep(screens, frames, writes, flip, before, w);
      writes := writes + [w];
      flip := !flip;
      frames := frames + 1;
    }
  }

  /**
   * The loop of `main` after `frames` screens: `flip` says which file comes
   * next, the buffer holds the last frame (zeros before the first) and every
   * screen so far was written in its file.
   */
  ghost predicate Shown(screens: seq<ScreenImage>, frames: nat, writes: seq<FrameWrite>, flip: bool,
                        buf: seq<byte>)
  {
    (forall n :: 0 <= n < |screens| ==> WellFormed(screens[n])) &&
    frames <= |screens| && |writes| == frames && (flip <==> frames % 2 == 1) &&
    (frames == 0 ==> buf == Zeros(TotalFileSize)) &&
    (frames > 0 ==> buf == Converted(screens[frames - 1], Zeros(TotalFileSize))) &&
    forall n :: 0 <= n < frames ==>
      writes[n] == FrameWrite(TempFor(n), Encode(Sampled(screens[n]), StrideBytesPerLine - DataBytesPerLine))
  }

  /** Writing one more screen keeps the loop state consistent. */
  lemma ShownStep(screens: seq<ScreenImage>, frames: nat, writes: seq<FrameWrite>, flip: bool,
                  buf: seq<byte>, w: FrameWrite)
    requires Shown(screens, frames, writes, flip, buf)
    requires frames < |screens|
    requires w == FrameWrite(if flip then FileA else FileB,
                             Encode(Sampled(screens[frames]), StrideBytesPerLine - DataBytesPerLine))
    ensures Shown(screens, frames + 1, writes + [w], !flip, Converted(screens[frames], Zeros(TotalFileSize)))
  {
    assert TempFor(frames) == (if flip then FileA else FileB);
    assert (frames + 1) % 2 == 1 <==> frames % 2 == 0;
    var writes' := writes + [w];
    forall n | 0 <= n < frames + 1
      ensures writes'[n] ==
        FrameWrite(TempFor(n), Encode(Sampled(screens[n]), StrideBytesPerLine - DataBytesPerLine))
    {
      if n < frames {
        assert writes'[n] == writes[n];
      }
    }
  }

  /**
   * One pass of the loop of `main`: the screen is converted into the buffer,
   * which held the previous frame (or zeros), and the whole buffer is written
   * to `tmp`.
   */
  method ShowScreen(s: ScreenImage, ghost earlier: Option<ScreenImage>, buffer: array<byte>,
                    tmp: TempFile)
    returns (w: FrameWrite)
    requires WellFormed(s) && buffer.Length == TotalFileSize
    requires earlier.None? ==> buffer[..] == Zeros(TotalFileSize)
    requires earlier.Some? ==>
      WellFormed(earlier.value) && buffer[..] == Converted(earlier.value, Zeros(TotalFileSize))
    modifies buffer
    ensures buffer[..] == Converted(s, Zeros(TotalFileSize))
    ensures w == FrameWrite(tmp, Encode(Sampled(s), StrideBytesPerLine - DataBytesPerLine))
  {
    NextFrame(s, earlier, buffer[..]);
    CaptureAndConvert(s, buffer);
    w := FrameWrite(tmp, buffer[..]);
  }

  /**
   * Whatever frame the buffer held before, converting the next screen into
   * it writes that screen's stride layout and leaves the padding zero.
   */
  lemma NextFrame(s: ScreenImage, earlier: Option<ScreenImage>, before: seq<byte>)
    requires WellFormed(s)
    requires earlier.None? ==> before == Zeros(TotalFileSize)
    requires earlier.Some? ==> WellFormed(earlier.value) && before == Converted(earlier.value, Zeros(TotalFileSize))
    ensures |before| == TotalFileSize
    ensures Converted(s, before) == Converted(s, Zeros(TotalFileSize))
    ensures Converted(s, before) == Encode(Sampled(s), StrideBytesPerLine - DataBytesPerLine)
  {
    if earlier.Some? {
      FrameForgetsEarlier(s, earlier.value, Zeros(TotalFileSize));
    }
    ZeroedFrameIsLayout(s);
  }

  /** The buffer size: 2562 bytes per row, 600 rows, 1,537,200 bytes. */
  lemma FrameSize(s: ScreenImage)
    requires WellFormed(s)
    ensures TotalFileSize == 1537200
    ensures |Encode(Sampled(s), StrideBytesPerLine - DataBytesPerLine)| == TotalFileSize
  {
    EncodeLength(Sampled(s), ProjectorWidth, StrideBytesPerLine - DataBytesPerLine);
  }

  /**
   * Output byte `3x + k` of row `y` is byte `k` of the source pixel that
   * `SourceOffset` samples (row `⌊y·height/600⌋`, column `⌊x·width/800⌋`);
   * byte 3 of the source pixel is never copied.
   */
  lemma OutputPixel(s: ScreenImage, y: nat, x: nat, k: nat)
    requires WellFormed(s) && y < ProjectorHeight && x < ProjectorWidth && k < 3
    ensures y * StrideBytesPerLine + 3 * x + k < TotalFileSize
    ensures Converted(s, Zeros(TotalFileSize))[y * StrideBytesPerLine + 3 * x + k] ==
              s.data[SourceOffset(s, y, x) + k]
  {
    CellOf(y, x, k);
  }
}
