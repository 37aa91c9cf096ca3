/**
 * calibrate_aspect.py: show one image with the best known layout (800×600,
 * stride 2560, channels reversed, Exact-fit), after growing or shrinking the
 * picture by the offsets `dx` and `dy` given on the command line.
 */
module CalibrateAspect {
  import opened Pixels
  import opened Stride
  import opened Compositor

  const BestWidth: nat := 800
  const BestHeight: nat := 600
  const BestStride: nat := 2560
  const BestSwapBgr: bool := true
  const BestMode: FitMode := ExactFit

  /**
   * Whether `resize_and_crop` raises for a `srcW`×`srcH` picture and the
   * target size `tw`×`th`. A width that is not positive always reaches PIL
   * as a size it refuses (or, under Aspect-fit with a zero-width picture,
   * divides by a zero ratio), and a zero height divides by zero in the
   * target ratio. A negative height is refused by Exact-fit; under Aspect-fit
   * the target ratio is then negative, below any picture's ratio, so the
   * width limits and only a picture without pixels or a height that rounds
   * down to zero raises. Positive sizes raise as `resize_image` does.
   */
  predicate CropRaises(srcW: nat, srcH: nat, tw: int, th: int, mode: FitMode)
  {
    tw <= 0 || th == 0 ||
    (th < 0 && (mode == ExactFit || srcW == 0 || srcH == 0 || tw * srcH < srcW)) ||
    (th > 0 && Raises(srcW, srcH, tw, th, mode))
  }

  /**
   * `resize_and_crop(image, w, h, dx, dy, mode)`: the picture is scaled to
   * `(w + dx)`×`(h + dy)` (Exact-fit) or fitted into that size keeping its
   * ratio (Aspect-fit), then pasted onto a black `w`×`h` canvas. Exact-fit
   * centres a smaller picture and pins a larger one to the top-left corner;
   * Aspect-fit centres it either way, so a larger picture is cropped on every
   * side. The raising cases, those of `CropRaises`, are `None`.
   */
  function ResizeAndCrop(img: Image, w: nat, h: nat, dx: int, dy: int, mode: FitMode): (r: Option<Image>)
    requires Valid(img)
    ensures r.None? <==> CropRaises(img.width, img.height, w + dx, h + dy, mode)
    ensures r.Some? ==> Valid(r.value) && r.value.width == w && r.value.height == h
  {
    if w + dx <= 0 || h + dy == 0 then None
    else if h + dy < 0 then
      match mode
      case ExactFit => None
      case AspectFit =>
        var tw: nat := w + dx;
        if img.width == 0 || img.height == 0 || tw * img.height < img.width then None
        else
          var nh := tw * img.height / img.width;
          Some(Paste(Canvas(w, h), Resample(img, tw, nh), CentreOffset(w, tw), CentreOffset(h, nh)))
    else
      var tw: nat, th: nat := w + dx, h + dy;
      match mode
      case ExactFit =>
        var x := if (w - tw) / 2 > 0 then (w - tw) / 2 else 0;
        var y := if (h - th) / 2 > 0 then (h - th) / 2 else 0;
        Some(Paste(Canvas(w, h), Resample(img, tw, th), x, y))
      case AspectFit =>
        if Raises(img.width, img.height, tw, th, mode) then None
        else
          var (nw, nh) := AspectSize(img.width, img.height, tw, th);
          Some(Paste(Canvas(w, h), Resample(img, nw, nh), CentreOffset(w, nw), CentreOffset(h, nh)))
  }

  /**
   * A negative target height under Aspect-fit still yields a picture: an
   * 800×600 picture with `dy = -700` is scaled to the full width, 800×600,
   * and fills the canvas unchanged. Exact-fit refuses the same call.
   */
  lemma NegativeHeightKeepsPicture(img: Image)
    requires Valid(img) && img.width == 800 && img.height == 600
    ensures ResizeAndCrop(img, 800, 600, 0, -700, AspectFit) == Some(img)
    ensures ResizeAndCrop(img, 800, 600, 0, -700, ExactFit) == None
  {
    assert 800 * 600 / 800 == 600;
    assert CentreOffset(800, 800) == 0 && CentreOffset(600, 600) == 0;
    ResampleSameSize(img);
    PasteWhole(Canvas(800, 600), img);
  }

  /** `b'\x00' * n`: `n` zero bytes, and none at all when `n` is not positive. */
  function ZeroBytes(n: int): (z: seq<byte>)
    ensures |z| == if n > 0 then n else 0
    ensures forall i :: 0 <= i < |z| ==> z[i] == 0
  {
    if n > 0 then Zeros(n) else []
  }

  /**
   * `image_to_bytes(image, stride, swap_bgr)`. The padding `stride - 3·w` is
   * not clamped here, but repeating a byte string a negative number of times
   * yields nothing, so the result is the same layout as the other encoders.
   */
  method ImageToBytes(img: Image, stride: int, swapBgr: bool) returns (data: seq<byte>)
    requires Valid(img)
    ensures data == EncodeImage(img, stride, swapBgr)
  {
    var arr := img.rows;
    if swapBgr {
      arr := ReverseChannels(arr);
    }
    var h, w := img.height, img.width;
    var lineBytes := w * 3;
    var pad := stride - lineBytes;
    assert ZeroBytes(pad) == Zeros(PadFor(w, stride));
    var buf: seq<byte> := [];
    for y := 0 to h
      invariant buf == Encode(arr[..y], PadFor(w, stride))
    {
      assert arr[..y + 1][..y] == arr[..y];
      buf := buf + RowBytes(arr[y]);
      buf := buf + ZeroBytes(pad);
    }
    assert arr[..h] == arr;
    data := buf;
  }

  /** `int(sys.argv[k + 2]) if len(sys.argv) > k + 2 else 0`, over the numbers after the image. */
  function OffsetArg(extra: seq<int>, k: nat): int
  {
    if |extra| > k then extra[k] else 0
  }

  /**
   * `main()`: nothing is written when the projector is missing, the image
   * cannot be loaded, or the offsets leave no picture to resize; otherwise
   * the best layout of the adjusted picture is written. `extra` holds the
   * command-line numbers after the image source.
   */
  method CalibrateAspectMain(deviceFound: bool, source: Option<Image>, extra: seq<int>)
    returns (written: Option<seq<byte>>)
    requires source.Some? ==> Valid(source.value)
    ensures var dx, dy := OffsetArg(extra, 0), OffsetArg(extra, 1);
      written.Some? <==>
        deviceFound && source.Some? && BestWidth + dx > 0 && BestHeight + dy > 0
    ensures written.Some? ==>
      var frame := ResizeAndCrop(source.value, BestWidth, BestHeight,
                                 OffsetArg(extra, 0), OffsetArg(extra, 1), BestMode);
      frame.Some? && written.value == EncodeImage(frame.value, BestStride, BestSwapBgr)
  {
    var dx := if |extra| > 0 then extra[0] else 0;
    var dy := if |extra| > 1 then extra[1] else 0;
    if !deviceFound || source.None? {
      return None;
    }
    var resized := ResizeAndCrop(source.value, BestWidth, BestHeight, dx, dy, BestMode);
    if resized.None? {
      return None;
    }
    var rgb := ImageToBytes(resized.value, BestStride, BestSwapBgr);
    written := Some(rgb);
  }

  /**
   * Exact-fit with a smaller target: the picture is centred, and every pixel
   * of the canvas outside it is black.
   */
  lemma ExactFitShrinkCentred(img: Image, w: nat, h: nat, dx: int, dy: int, cx: nat, cy: nat)
    requires Valid(img) && -(w as int) < dx <= 0 && -(h as int) < dy <= 0
    requires cx < w && cy < h
    ensures var r := ResizeAndCrop(img, w, h, dx, dy, ExactFit);
      var x, y := (-dx) / 2, (-dy) / 2;
      var tile := Resample(img, w + dx, h + dy);
      r.Some? && x + (w + dx) <= w && y + (h + dy) <= h &&
      (x <= cx < x + (w + dx) && y <= cy < y + (h + dy) ==> r.value.rows[cy][cx] == tile.rows[cy - y][cx - x]) &&
      (!(x <= cx < x + (w + dx) && y <= cy < y + (h + dy)) ==> r.value.rows[cy][cx] == Black)
  {
    assert w - (w + dx) == -dx;
    assert h - (h + dy) == -dy;
  }

  /**
   * Exact-fit with a larger target: the picture is pinned at the top-left
   * corner and cropped on the right and at the bottom.
   */
  lemma ExactFitGrowCropped(img: Image, w: nat, h: nat, dx: int, dy: int, cx: nat, cy: nat)
    requires Valid(img) && 0 <= dx && 0 <= dy && w + dx > 0 && h + dy > 0
    requires cx < w && cy < h
    ensures var r := ResizeAndCrop(img, w, h, dx, dy, ExactFit);
      r.Some? && r.value.rows[cy][cx] == Resample(img, w + dx, h + dy).rows[cy][cx]
  {
    var tw: int := w + dx;
    assert (w - tw) / 2 <= 0;
    var th: int := h + dy;
    assert (h - th) / 2 <= 0;
  }

  /**
   * With no offsets, Exact-fit here is Exact-fit in show_image.py and
   * fine_tune.py: the picture is simply resampled to `w`×`h`.
   */
  lemma NoOffsetIsExactFit(img: Image, w: nat, h: nat)
    requires Valid(img) && w > 0 && h > 0
    ensures ResizeAndCrop(img, w, h, 0, 0, ExactFit) == Some(ResizeImage(img, w, h, ExactFit))
  {
    var r := ResizeAndCrop(img, w, h, 0, 0, ExactFit).value;
    var tile := Resample(img, w, h);
    forall cy | 0 <= cy < h ensures r.rows[cy] == tile.rows[cy] {
      forall cx | 0 <= cx < w ensures r.rows[cy][cx] == tile.rows[cy][cx] {
        assert Covers(tile, 0, 0, cx, cy);
      }
    }
    assert r.rows == tile.rows;
  }

  /**
   * Aspect-fit with a target no larger than the canvas: the scaled picture
   * lies inside the canvas with non-negative offsets.
   */
  lemma AspectFitInside(img: Image, w: nat, h: nat, dx: int, dy: int)
    requires Valid(img) && img.width > 0 && img.height > 0
    requires -(w as int) < dx <= 0 && -(h as int) < dy <= 0
    ensures var (nw, nh) := AspectSize(img.width, img.height, w + dx, h + dy);
      0 <= CentreOffset(w, nw) && CentreOffset(w, nw) + nw <= w &&
      0 <= CentreOffset(h, nh) && CentreOffset(h, nh) + nh <= h
  {
    var (nw, nh) := AspectSize(img.width, img.height, w + dx, h + dy);
    AspectSizeFits(img.width, img.height, w + dx, h + dy);
    CentredInside(w, nw);
    CentredInside(h, nh);
  }

  /**
   * Shrinking the width of an 800×600 canvas by 799 leaves a 1-pixel-wide
   * target, into which a 2×1 picture scales to 1×0: the resize raises.
   */
  lemma NarrowTargetRaises(img: Image)
    requires Valid(img) && img.width == 2 && img.height == 1
    ensures AspectSize(2, 1, 1, 600) == (1, 0)
    ensures ResizeAndCrop(img, 800, 600, -799, 0, AspectFit) == None
    ensures ResizeAndCrop(img, 800, 600, -799, 0, ExactFit).Some?
  {
  }

  /**
   * The buffer written: 600 rows of 2560 bytes, 1,536,000 in all, each row
   * the 800 pixels in blue-green-red order followed by 160 zero bytes.
   */
  lemma BestLayout(frame: Image, y: nat, x: nat, c: nat)
    requires Valid(frame) && frame.width == BestWidth && frame.height == BestHeight
    requires y < BestHeight && x < BestWidth && 2400 <= c < 2560
    ensures |EncodeImage(frame, BestStride, BestSwapBgr)| == 1536000
    ensures var data, p := EncodeImage(frame, BestStride, BestSwapBgr), frame.rows[y][x];
      data[y * 2560 + 3 * x] == p.b && data[y * 2560 + 3 * x + 1] == p.g && data[y * 2560 + 3 * x + 2] == p.r
    ensures EncodeImage(frame, BestStride, BestSwapBgr)[y * 2560 + c] == 0
  {
    EncodeImageAt(frame, BestStride, BestSwapBgr, y, x, 0);
    EncodeImageAt(frame, BestStride, BestSwapBgr, y, x, 1);
    EncodeImageAt(frame, BestStride, BestSwapBgr, y, x, 2);
    EncodeImagePadding(frame, BestStride, BestSwapBgr, y, c);
  }
}
