/**
 * `resize_image` of show_image.py and fine_tune.py (the two are the same
 * code): Exact-fit stretches the image to the target size, Aspect-fit scales it
 * uniformly so that it fits and centres it on a black canvas.
 */
module Compositor {
  import opened Pixels

  /** The `mode` strings: "Exact-fit", and anything else meaning Aspect-fit. */
  datatype FitMode = ExactFit | AspectFit

  /** A display configuration: target size, row stride, channel order, fit. */
  datatype Config = Config(width: nat, height: nat, stride: nat, swapBgr: bool, mode: FitMode)

  /**
   * The scaled size Aspect-fit resamples to. The scripts compare the float
   * ratios `img_w / img_h > w / h`; for positive sizes that is the integer
   * comparison `img_w·h > w·img_h`. The other side is `int(w / img_ratio)`
   * or `int(h * img_ratio)`, taken here as the exact floor.
   */
  function AspectSize(srcW: nat, srcH: nat, w: nat, h: nat): (nat, nat)
    requires srcW > 0 && srcH > 0 && h > 0
  {
    if srcW * h > w * srcH then (w, w * srcH / srcW)
    else (h * srcW / srcH, h)
  }

  /** Left or top offset of the scaled image: `(w - nw) // 2`. */
  function CentreOffset(w: int, nw: int): int
  {
    (w - nw) / 2
  }

  /**
   * Whether `resize_image(image, w, h, mode)` raises instead of returning: PIL
   * refuses to resize to a zero width or height, Aspect-fit divides by the
   * target height and by the source height, and an Aspect-fit side that
   * `int(...)` rounds down to zero is again a zero size for PIL.
   */
  predicate Raises(srcW: nat, srcH: nat, w: nat, h: nat, mode: FitMode)
  {
    w == 0 || h == 0 ||
    (mode == AspectFit &&
     (srcW == 0 || srcH == 0 ||
      AspectSize(srcW, srcH, w, h).0 == 0 || AspectSize(srcW, srcH, w, h).1 == 0))
  }

  /** A well-formed image that `resize_image` can take to `w`×`h` under `mode`. */
  ghost predicate Resizable(img: Image, w: nat, h: nat, mode: FitMode)
  {
    Valid(img) && !Raises(img.width, img.height, w, h, mode)
  }

  /** `resize_image(image, w, h, mode)` on the inputs for which it returns. */
  function ResizeImage(img: Image, w: nat, h: nat, mode: FitMode): (r: Image)
    requires Resizable(img, w, h, mode)
    ensures Valid(r) && r.width == w && r.height == h
  {
    match mode
    case ExactFit => Resample(img, w, h)
    case AspectFit =>
      var (nw, nh) := AspectSize(img.width, img.height, w, h);
      Paste(Canvas(w, h), Resample(img, nw, nh), CentreOffset(w, nw), CentreOffset(h, nh))
  }

  /** `n // d` is zero exactly when `n < d`. */
  lemma QuotientZero(n: nat, d: nat)
    requires d > 0
    ensures n / d == 0 <==> n < d
  {
    if n >= d {
      assert n / d >= 1 by {
        assert n == d * (n / d) + n % d;
        assert n % d < d;
      }
    }
  }

  /**
   * For positive sizes, `resize_image` raises exactly under Aspect-fit when
   * the source is so much wider than the target that `w·img_h < img_w`, or so
   * much taller that `h·img_w < img_h`: the short side then rounds to zero.
   * Exact-fit never raises.
   */
  lemma RaisesExactly(srcW: nat, srcH: nat, w: nat, h: nat, mode: FitMode)
    requires srcW > 0 && srcH > 0 && w > 0 && h > 0
    ensures Raises(srcW, srcH, w, h, mode) <==>
      mode == AspectFit &&
      ((srcW * h > w * srcH && w * srcH < srcW) || (srcW * h <= w * srcH && h * srcW < srcH))
  {
    QuotientZero(w * srcH, srcW);
    QuotientZero(h * srcW, srcH);
  }

  /** A 1000×1 strip letterboxed into 640×480 scales to 640×0, so the resize raises. */
  lemma StripRaises()
    ensures AspectSize(1000, 1, 640, 480) == (640, 0)
    ensures Raises(1000, 1, 640, 480, AspectFit) && !Raises(1000, 1, 640, 480, ExactFit)
  {
  }

  /**
   * Aspect-fit sets the limiting side to the target: the width when the source
   * is wider than the target (`img_w·h > w·img_h`), else the height. The other
   * side never exceeds the target, so the scaled image fits.
   */
  lemma AspectSizeFits(srcW: nat, srcH: nat, w: nat, h: nat)
    requires srcW > 0 && srcH > 0 && h > 0
    ensures var (nw, nh) := AspectSize(srcW, srcH, w, h);
      nw <= w && nh <= h &&
      (srcW * h > w * srcH ==> nw == w && nh < h) &&
      (srcW * h <= w * srcH ==> nh == h)
  {
    if srcW * h > w * srcH {
      var nh := w * srcH / srcW;
      assert nh * srcW <= w * srcH;
      assert nh * srcW < h * srcW;
    } else {
      var nw := h * srcW / srcH;
      assert nw * srcH <= h * srcW <= w * srcH;
    }
  }

  /**
   * For a scaled size that fits, the `(w - nw) // 2` offset is non-negative,
   * keeps the scaled image inside the canvas and centres it: the margins on
   * the two sides differ by at most one pixel.
   */
  lemma CentredInside(w: nat, nw: nat)
    requires nw <= w
    ensures 0 <= CentreOffset(w, nw) && CentreOffset(w, nw) + nw <= w
    ensures var left := CentreOffset(w, nw);
      var right := w - nw - left;
      left <= right <= left + 1
  {
  }

  /**
   * Aspect-fit letterboxing: the result is the target size, the scaled image
   * sits at `((w - nw) // 2, (h - nh) // 2)` inside it, and every pixel
   * outside that box is black.
   */
  lemma AspectFitLetterbox(img: Image, w: nat, h: nat, x: nat, y: nat)
    requires Valid(img) && img.width > 0 && img.height > 0 && !Raises(img.width, img.height, w, h, AspectFit)
    requires x < w && y < h
    ensures var (nw, nh) := AspectSize(img.width, img.height, w, h);
      var ox, oy := CentreOffset(w, nw), CentreOffset(h, nh);
      var r := ResizeImage(img, w, h, AspectFit);
      0 <= ox && ox + nw <= w && 0 <= oy && oy + nh <= h &&
      (ox <= x < ox + nw && oy <= y < oy + nh ==>
         r.rows[y][x] == Resample(img, nw, nh).rows[y - oy][x - ox]) &&
      (!(ox <= x < ox + nw && oy <= y < oy + nh) ==> r.rows[y][x] == Black)
  {
    var (nw, nh) := AspectSize(img.width, img.height, w, h);
    AspectSizeFits(img.width, img.height, w, h);
    CentredInside(w, nw);
    CentredInside(h, nh);
  }

  /**
   * Aspect-fit of an image that already has the target size returns it
   * unchanged: the scale is one and there is no border.
   */
  lemma AspectFitIdentity(img: Image)
    requires Valid(img) && img.width > 0 && img.height > 0
    ensures !Raises(img.width, img.height, img.width, img.height, AspectFit)
    ensures ResizeImage(img, img.width, img.height, AspectFit) == img
  {
    var w, h := img.width, img.height;
    assert AspectSize(w, h, w, h) == (w, h) by {
      SameScale(w, h);
      assert h * w == w * h;
    }
    assert CentreOffset(w, w) == 0 && CentreOffset(h, h) == 0;
    ResampleSameSize(img);
    assert ResizeImage(img, w, h, AspectFit) == Paste(Canvas(w, h), img, 0, 0);
    PasteWhole(Canvas(w, h), img);
  }

  /** Exact-fit yields exactly the target size (and never letterboxes). */
  lemma ExactFitSize(img: Image, w: nat, h: nat)
    requires Valid(img) && w > 0 && h > 0
    ensures ResizeImage(img, w, h, ExactFit) == Resample(img, w, h)
    ensures ResizeImage(img, w, h, ExactFit).width == w
    ensures ResizeImage(img, w, h, ExactFit).height == h
  {
  }

  /** A 1920×1080 source letterboxed into 800×600: 800×450 with 75-pixel bands. */
  lemma WidescreenInto800x600()
    ensures AspectSize(1920, 1080, 800, 600) == (800, 450)
    ensures CentreOffset(800, 800) == 0 && CentreOffset(600, 450) == 75
  {
  }
}
