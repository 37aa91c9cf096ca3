/**
 * fine_tune.py: around each of four known-good configurations, try five row
 * strides (0.8 to 1.2 times the base stride) and every combination of a
 * -100/0/+100 change of width and height, 180 trials in all, writing each
 * trial's buffer for the operator to look at.
 */
module FineTune {
  import opened Pixels
  import opened Stride
  import opened Compositor

  /** `BEST_CONFIGS`. */
  const BestConfigs: seq<Config> := [
    Config(800, 600, 2560, true, ExactFit),
    Config(640, 480, 2048, true, ExactFit),
    Config(800, 600, 2560, false, ExactFit),
    Config(800, 600, 2816, true, ExactFit)
  ]

  /**
   * `STRIDE_FACTORS` in tenths: 0.8, 0.9, 1.0, 1.1, 1.2. For the four base
   * strides, `int(stride * factor)` in double precision equals the exact
   * `stride * tenths / 10` rounded down.
   */
  const StrideTenths: seq<nat> := [8, 9, 10, 11, 12]

  /** `RES_OFFSETS`. */
  const ResOffsets: seq<int> := [-100, 0, 100]

  /** The smallest width or height a trial uses. */
  const MinSide: nat := 100

  const TrialCount: nat := 180

  /** `max(100, side + offset)`. */
  function Clamp(side: int): (r: nat)
    ensures r >= MinSide
    ensures r == side || (side < MinSide && r == MinSide)
  {
    if side > MinSide then side else MinSide
  }

  /** `int(stride * factor)` for a factor of `tenths / 10`. */
  function ScaledStride(stride: nat, tenths: nat): nat
  {
    stride * tenths / 10
  }

  /** The configuration of the trial with the given loop positions. */
  function Variant(base: Config, tenths: nat, dx: int, dy: int): Config
  {
    Config(Clamp(base.width + dx), Clamp(base.height + dy),
           ScaledStride(base.stride, tenths), base.swapBgr, base.mode)
  }

  /** Trial `i` (from 0): base, then stride factor, then width offset, then height offset. */
  function TuneTrial(i: nat): Config
    requires i < TrialCount
  {
    Variant(BestConfigs[i / 45], StrideTenths[i / 9 % 5], ResOffsets[i / 3 % 3], ResOffsets[i % 3])
  }

  function TuneTrials(): (cs: seq<Config>)
    ensures |cs| == TrialCount
  {
    seq(TrialCount, i requires 0 <= i < TrialCount => TuneTrial(i))
  }

  /** The buffer a trial writes: the resized image in the trial's layout. */
  function TrialBuffer(img: Image, c: Config): seq<byte>
    requires Resizable(img, c.width, c.height, c.mode)
  {
    EncodeImage(ResizeImage(img, c.width, c.height, c.mode), c.stride, c.swapBgr)
  }

  /**
   * `image_to_rgb_array_with_stride(img, stride, swap)`: rows of pixel
   * bytes, channel-reversed when `swap` is set, each padded with zeros to
   * `stride` when the stride exceeds the row.
   */
  method ImageToRgbArrayWithStride(img: Image, stride: int, swap: bool) returns (data: seq<byte>)
    requires Valid(img)
    ensures data == EncodeImage(img, stride, swap)
  {
    var arr := img.rows;
    if swap {
      arr := ReverseChannels(arr);
    }
    var h, w := img.height, img.width;
    var lineBytes := w * 3;
    var pad: nat := if stride > lineBytes then stride - lineBytes else 0;
    var buf: seq<byte> := [];
    for y := 0 to h
      invariant buf == Encode(arr[..y], pad)
    {
      EncodeStep(arr, y, pad);
      buf := buf + RowBytes(arr[y]);
      buf := buf + Zeros(pad);
    }
    assert arr[..h] == arr;
    data := buf;
  }

  /**
   * The sweep after `k` trials: the configurations tried so far and the
   * buffers written for them.
   */
  ghost predicate Swept(img: Image, k: nat, tried: seq<Config>, written: seq<seq<byte>>)
  {
    Valid(img) && img.width > 0 && img.height > 0 &&
    k <= TrialCount && |tried| == k && |written| == k &&
    forall j :: 0 <= j < k ==>
      tried[j] == TuneTrial(j) && Resizable(img, tried[j].width, tried[j].height, tried[j].mode) &&
      written[j] == TrialBuffer(img, tried[j])
  }

  /** The loop positions `(bi, fi, xi, yi)` name trial `45·bi + 9·fi + 3·xi + yi`. */
  lemma TrialAt(bi: nat, fi: nat, xi: nat, yi: nat)
    requires bi < 4 && fi < 5 && xi < 3 && yi < 3
    ensures 45 * bi + 9 * fi + 3 * xi + yi < TrialCount
    ensures TuneTrial(45 * bi + 9 * fi + 3 * xi + yi) ==
      Variant(BestConfigs[bi], StrideTenths[fi], ResOffsets[xi], ResOffsets[yi])
  {
    var i := 45 * bi + 9 * fi + 3 * xi + yi;
    Split(i, bi, 9 * fi + 3 * xi + yi, 45);
    Split(i, 5 * bi + fi, 3 * xi + yi, 9);
    Split(i / 9, bi, fi, 5);
    Split(i, 15 * bi + 3 * fi + xi, yi, 3);
    Split(i / 3, 5 * bi + fi, xi, 3);
    assert i / 45 == bi && i / 9 % 5 == fi && i / 3 % 3 == xi && i % 3 == yi;
  }

  /** Every trial's buffer is non-empty: a trial image is at least 100×100. */
  lemma TrialBufferNonEmpty(img: Image, c: Config)
    requires Resizable(img, c.width, c.height, c.mode)
    requires c.width >= MinSide && c.height >= MinSide
    ensures |TrialBuffer(img, c)| > 0
  {
    var r := ResizeImage(img, c.width, c.height, c.mode);
    EncodeImageLength(r, c.stride, c.swapBgr);
    var row: nat := if c.stride > 3 * c.width then c.stride else 3 * c.width;
    assert |TrialBuffer(img, c)| == c.height * row;
    PositiveProduct(c.height, row);
  }

  lemma PositiveProduct(a: nat, b: nat)
    requires a > 0 && b > 0
    ensures a * b > 0
  {
  }

  /** One more trial keeps the sweep state consistent. */
  lemma SweptStep(img: Image, k: nat, tried: seq<Config>, written: seq<seq<byte>>,
                  c: Config, rgb: seq<byte>)
    requires Swept(img, k, tried, written) && k < TrialCount
    requires c == TuneTrial(k) && Resizable(img, c.width, c.height, c.mode)
    requires rgb == TrialBuffer(img, c)
    ensures Swept(img, k + 1, tried + [c], written + [rgb])
  {
    var tried', written' := tried + [c], written + [rgb];
    forall j | 0 <= j < k + 1
      ensures tried'[j] == TuneTrial(j) && Resizable(img, tried'[j].width, tried'[j].height, tried'[j].mode)
      ensures written'[j] == TrialBuffer(img, tried'[j])
    {
      if j < k {
        assert tried'[j] == tried[j] && written'[j] == written[j];
      }
    }
  }

  /**
   * One pass of the innermost loop body: the trial at loop positions
   * `(bi, fi, xi, yi)` is resized, encoded and, its buffer being non-empty,
   * written.
   */
  method RunTrial(img: Image, bi: nat, fi: nat, xi: nat, yi: nat,
                  tried: seq<Config>, written: seq<seq<byte>>)
    returns (tried': seq<Config>, written': seq<seq<byte>>)
    requires bi < |BestConfigs| && fi < |StrideTenths| && xi < |ResOffsets| && yi < |ResOffsets|
    requires Swept(img, 45 * bi + 9 * fi + 3 * xi + yi, tried, written)
    ensures Swept(img, 45 * bi + 9 * fi + 3 * xi + yi + 1, tried', written')
  {
    var base := BestConfigs[bi];
    var sf := StrideTenths[fi];
    var dx, dy := ResOffsets[xi], ResOffsets[yi];
    var w := Clamp(base.width + dx);
    var h := Clamp(base.height + dy);
    var stride := base.stride * sf / 10;
    var c := Config(w, h, stride, base.swapBgr, base.mode);
    ghost var k := 45 * bi + 9 * fi + 3 * xi + yi;
    TrialAt(bi, fi, xi, yi);
    assert c == Variant(base, sf, dx, dy);
    var resized := ResizeImage(img, w, h, base.mode);
    var rgb := ImageToRgbArrayWithStride(resized, stride, base.swapBgr);
    assert rgb == TrialBuffer(img, c);
    SweptStep(img, k, tried, written, c, rgb);
    TrialBufferNonEmpty(img, c);
    written' := written;
    if |rgb| > 0 {
      written' := written + [rgb];
    }
    tried' := tried + [c];
  }

  /**
   * The main sweep of fine_tune.py, for an image that loaded: 180 trials in
   * the order of the four nested loops, each resized, encoded and written
   * (`if rgb` always holds, since every buffer is non-empty). Every trial is
   * Exact-fit to at least 100×100, so no resize raises.
   */
  method Sweep(img: Image) returns (tried: seq<Config>, written: seq<seq<byte>>)
    requires Valid(img) && img.width > 0 && img.height > 0
    ensures tried == TuneTrials() && |written| == TrialCount
    ensures forall i :: 0 <= i < TrialCount ==>
      Resizable(img, TuneTrials()[i].width, TuneTrials()[i].height, TuneTrials()[i].mode)
    ensures forall i :: 0 <= i < TrialCount ==> written[i] == TrialBuffer(img, TuneTrials()[i])
  {
    tried, written := [], [];
    var idx := 1;
    for bi := 0 to |BestConfigs|
      invariant idx == 45 * bi + 1
      invariant Swept(img, idx - 1, tried, written)
    {
      for fi := 0 to |StrideTenths|
        invariant idx == 45 * bi + 9 * fi + 1
        invariant Swept(img, idx - 1, tried, written)
      {
        for xi := 0 to |ResOffsets|
          invariant idx == 45 * bi + 9 * fi + 3 * xi + 1
          invariant Swept(img, idx - 1, tried, written)
        {
          for yi := 0 to |ResOffsets|
            invariant idx == 45 * bi + 9 * fi + 3 * xi + yi + 1
            invariant Swept(img, idx - 1, tried, written)
          {
            tried, written := RunTrial(img, bi, fi, xi, yi, tried, written);
            idx := idx + 1;
          }
        }
      }
    }
    assert forall i :: 0 <= i < TrialCount ==> tried[i] == TuneTrials()[i];
  }

  /**
   * The outcome of the script: exit status 1 with nothing written when the
   * projector is missing or the image does not load, otherwise the sweep.
   */
  method FineTuneMain(projectorFound: bool, source: Option<Image>)
    returns (exitCode: nat, written: seq<seq<byte>>)
    requires source.Some? ==> Valid(source.value) && source.value.width > 0 && source.value.height > 0
    ensures exitCode == 1 <==> !projectorFound || source.None?
    ensures exitCode == 1 ==> written == []
    ensures exitCode == 0 ==>
      |written| == TrialCount &&
      forall i :: 0 <= i < TrialCount ==>
        var c := TuneTrials()[i];
        Resizable(source.value, c.width, c.height, c.mode) && written[i] == TrialBuffer(source.value, c)
  {
    if !projectorFound || source.None? {
      return 1, [];
    }
    var _, w := Sweep(source.value);
    return 0, w;
  }

  /**
   * Every trial is at least 100×100 and keeps its base's channel order and
   * fit mode, which is Exact-fit for all four bases.
   */
  lemma TrialShape(i: nat)
    requires i < TrialCount
    ensures var c := TuneTrials()[i];
      var base := BestConfigs[i / 45];
      c.width >= MinSide && c.height >= MinSide &&
      c.width >= base.width - 100 && c.width <= base.width + 100 &&
      c.height >= base.height - 100 && c.height <= base.height + 100 &&
      c.swapBgr == base.swapBgr && c.mode == base.mode && c.mode == ExactFit
  {
  }

  /** Every trial's stride lies between 0.8 and 1.2 times its base stride (up to rounding down). */
  lemma TrialStrideRange(i: nat)
    requires i < TrialCount
    ensures var c := TuneTrials()[i];
      var s := BestConfigs[i / 45].stride;
      10 * c.stride <= 12 * s && 8 * s < 10 * c.stride + 10
  {
    var t := StrideTenths[i / 9 % 5];
    var s := BestConfigs[i / 45].stride;
    var q := s * t / 10;
    assert 10 * q <= s * t < 10 * q + 10;
  }

  /**
   * Each base configuration is itself among the trials: factor 1.0 with no
   * width or height change is trial `45·b + 22`.
   */
  lemma BaseIncluded(b: nat)
    requires b < |BestConfigs|
    ensures TuneTrials()[45 * b + 22] == BestConfigs[b]
  {
    TrialAt(b, 2, 1, 1);
  }

  /** The strides the sweep tries around 2560: 2048, 2304, 2560, 2816 and 3072. */
  lemma StridesAround2560()
    ensures seq(5, k requires 0 <= k < 5 => ScaledStride(2560, StrideTenths[k])) ==
              [2048, 2304, 2560, 2816, 3072]
  {
  }

  /**
   * The smallest trial: no trial is narrower than 640 - 100 = 540 or lower
   * than 480 - 100 = 380, both above the floor, and trial 45 is 540×380.
   */
  lemma SmallestTrial()
    ensures TuneTrials()[45] == Config(540, 380, 1638, true, ExactFit)
    ensures forall i :: 0 <= i < TrialCount ==> TuneTrials()[i].width >= 540 && TuneTrials()[i].height >= 380
  {
    TrialAt(1, 0, 0, 0);
    forall i | 0 <= i < TrialCount
      ensures TuneTrials()[i].width >= 540 && TuneTrials()[i].height >= 380
    {
      TrialShape(i);
      var b := i / 45;
      assert b == 0 || b == 1 || b == 2 || b == 3;
    }
  }
}
