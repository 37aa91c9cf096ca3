/**
 * The fixed frame layout of the two live mirrors (smart_mirror.py and
 * simple_mirror.py carry identical copies of it): 600 rows of 800 pixels in
 * blue-green-red order, each row followed by 162 zero bytes, 2562 bytes per
 * row and 1,537,200 bytes per frame.
 */
module MirrorLayout {
  import opened Pixels
  import opened Stride

  const ProjectorWidth: nat := 800
  const ProjectorHeight: nat := 600
  const BytesPerPixel: nat := 3
  const DataBytesPerLine: nat := ProjectorWidth * BytesPerPixel
  const StrideBytesPerLine: nat := 2562
  const PaddingBytesPerLine: nat := StrideBytesPerLine - DataBytesPerLine
  const TotalFileSize: nat := StrideBytesPerLine * ProjectorHeight

  /** An image large enough for every `array[y, x]` the encoder reads. */
  ghost predicate Fits(img: Image)
  {
    Valid(img) && img.width >= ProjectorWidth && img.height >= ProjectorHeight
  }

  /** The top-left 800×600 pixels: the only ones the encoder reads. */
  function Crop(img: Image): (rows: seq<seq<Pixel>>)
    requires Fits(img)
    ensures |rows| == ProjectorHeight && Uniform(rows, ProjectorWidth)
  {
    seq(ProjectorHeight, y requires 0 <= y < ProjectorHeight => img.rows[y][..ProjectorWidth])
  }

  /**
   * The first `h` rows of pixels 0 to 799, channels reversed: what the
   * encoder has read once it has finished `h` rows.
   */
  function Rows(img: Image, h: nat): (rows: seq<seq<Pixel>>)
    requires Valid(img) && h <= img.height && (h > 0 ==> img.width >= ProjectorWidth)
    ensures |rows| == h && Uniform(rows, ProjectorWidth)
  {
    seq(h, y requires 0 <= y < h => Partial(img, y, ProjectorWidth))
  }

  /** Pixels 0 to `x - 1` of row `y`, channels reversed. */
  function Partial(img: Image, y: nat, x: nat): (row: seq<Pixel>)
    requires Valid(img) && y < img.height && x <= img.width
    ensures |row| == x
  {
    seq(x, i requires 0 <= i < x => Reversed(img.rows[y][i]))
  }

  /** The frame the mirrors write for an image: 600 reversed rows at stride 2562. */
  function MirrorFrame(img: Image): seq<byte>
    requires Fits(img)
  {
    Encode(Rows(img, ProjectorHeight), PaddingBytesPerLine)
  }

  /** The frame's rows are the crop with its channels reversed. */
  lemma RowsAreReversedCrop(img: Image)
    requires Fits(img)
    ensures Rows(img, ProjectorHeight) == ReverseChannels(Crop(img))
  {
    var rows, rev := Rows(img, ProjectorHeight), ReverseChannels(Crop(img));
    forall y | 0 <= y < ProjectorHeight ensures rows[y] == rev[y] {
      assert forall x :: 0 <= x < ProjectorWidth ==> rows[y][x] == rev[y][x];
    }
  }

  lemma EmitPixel(img: Image, y: nat, x: nat, buf: seq<byte>)
    requires Valid(img) && y < img.height && x < img.width
    requires y > 0 ==> img.width >= ProjectorWidth
    requires buf == Encode(Rows(img, y), PaddingBytesPerLine) + RowBytes(Partial(img, y, x))
    ensures var p := img.rows[y][x];
      buf + [p.b, p.g, p.r] == Encode(Rows(img, y), PaddingBytesPerLine) + RowBytes(Partial(img, y, x + 1))
  {
    assert Partial(img, y, x + 1)[..x] == Partial(img, y, x);
  }

  lemma EmitPadding(img: Image, y: nat, buf: seq<byte>)
    requires Valid(img) && y < img.height && img.width >= ProjectorWidth
    requires buf == Encode(Rows(img, y), PaddingBytesPerLine) + RowBytes(Partial(img, y, ProjectorWidth))
    ensures buf + Zeros(PaddingBytesPerLine) == Encode(Rows(img, y + 1), PaddingBytesPerLine)
  {
    assert Rows(img, y + 1)[..y] == Rows(img, y);
  }

  /**
   * `create_rgb_buffer_with_stride(image)` (smart_mirror.py:249,
   * simple_mirror.py:128): every pixel of the top-left 800×600 as `[b, g, r]`,
   * 162 zero bytes after each row. An image too small for the loops makes a
   * pixel read fail, and the method gives `None`.
   */
  method CreateRgbBufferWithStride(img: Image) returns (data: Option<seq<byte>>)
    requires Valid(img)
    ensures data.Some? <==> Fits(img)
    ensures data.Some? ==> data.value == MirrorFrame(img)
  {
    var buf: seq<byte> := [];
    for y := 0 to ProjectorHeight
      invariant y <= img.height && (y > 0 ==> img.width >= ProjectorWidth)
      invariant buf == Encode(Rows(img, y), PaddingBytesPerLine)
    {
      if y >= |img.rows| {
        return None;
      }
      for x := 0 to ProjectorWidth
        invariant x <= img.width
        invariant buf == Encode(Rows(img, y), PaddingBytesPerLine) + RowBytes(Partial(img, y, x))
      {
        if x >= |img.rows[y]| {
          return None;
        }
        var p := img.rows[y][x];
        EmitPixel(img, y, x, buf);
        buf := buf + [p.b, p.g, p.r];
      }
      EmitPadding(img, y, buf);
      buf := buf + Zeros(PaddingBytesPerLine);
    }
    data := Some(buf);
  }

  /**
   * `write_to_file(data)`: the write succeeds (`writeOk`, the file system's
   * part) and the file then holds exactly 1,537,200 bytes.
   */
  function WriteToFile(data: seq<byte>, writeOk: bool): (ok: bool)
    ensures ok <==> writeOk && |data| == 1537200
  {
    writeOk && |data| == TotalFileSize
  }

  /** The layout constants: 2400 data bytes, 162 padding bytes, 1,537,200 in all. */
  lemma LayoutConstants()
    ensures DataBytesPerLine == 2400 && PaddingBytesPerLine == 162
    ensures DataBytesPerLine + PaddingBytesPerLine == StrideBytesPerLine
    ensures TotalFileSize == 1537200
  {
  }

  /** Every frame is 600 rows of 2562 bytes, so a successful write always validates. */
  lemma FrameLength(img: Image)
    requires Fits(img)
    ensures |MirrorFrame(img)| == TotalFileSize
    ensures WriteToFile(MirrorFrame(img), true)
  {
    EncodeLength(Rows(img, ProjectorHeight), ProjectorWidth, PaddingBytesPerLine);
  }

  /**
   * Byte `3x + k` of row `y` is channel `k` of pixel (x, y) in blue, green,
   * red order; bytes 2400 to 2561 of every row are zero.
   */
  lemma FrameAt(img: Image, y: nat, c: nat)
    requires Fits(img) && y < ProjectorHeight && c < StrideBytesPerLine
    ensures |MirrorFrame(img)| == TotalFileSize
    ensures y * StrideBytesPerLine + c < TotalFileSize
    ensures c < DataBytesPerLine ==>
      var p := img.rows[y][c / 3];
      MirrorFrame(img)[y * StrideBytesPerLine + c] == [p.b, p.g, p.r][c % 3]
    ensures c >= DataBytesPerLine ==> MirrorFrame(img)[y * StrideBytesPerLine + c] == 0
  {
    var rows := Rows(img, ProjectorHeight);
    EncodeAt(rows, ProjectorWidth, PaddingBytesPerLine, y, c);
    if c < DataBytesPerLine {
      RowBytesAt(rows[y], c / 3, c % 3);
    }
  }

  /**
   * Reading a frame back at stride 2562 yields the crop with its channels
   * reversed; reversing them again recovers the pixels of the image.
   */
  lemma FrameRoundTrip(img: Image)
    requires Fits(img)
    ensures |MirrorFrame(img)| == ProjectorHeight * StrideBytesPerLine
    ensures ReverseChannels(Decode(MirrorFrame(img), ProjectorWidth, ProjectorHeight, StrideBytesPerLine)) ==
              Crop(img)
  {
    var crop := Image(ProjectorWidth, ProjectorHeight, Crop(img));
    RowsAreReversedCrop(img);
    DecodeEncode(crop, StrideBytesPerLine, true);
    ReverseChannelsInvolution(Crop(img));
  }
}
