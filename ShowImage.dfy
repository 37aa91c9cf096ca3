/**
 * show_image.py: the single-image encoder `image_to_rgb`, the automatic test
 * mode `run_tests` that tries 16 configurations and keeps the one with the
 * least row padding, and the defaults of the normal mode `run_normal`.
 */
module ShowImage {
  import opened Pixels
  import opened Stride
  import opened Compositor

  /** `RESOLUTIONS`: (width, height, stride) triples tried by the test mode. */
  const Resolutions: seq<(nat, nat, nat)> :=
    [(600, 480, 2048), (640, 480, 2048), (800, 600, 2560), (1024, 768, 4096)]
  const Modes: seq<FitMode> := [ExactFit, AspectFit]
  const Swaps: seq<bool> := [false, true]

  /** The configuration `run_normal` uses when it is given none. */
  const DefaultConfig: Config := Config(800, 600, 2560, false, ExactFit)

  function Abs(x: int): nat
  {
    if x < 0 then -x else x
  }

  /** An image the scripts can resize under either fit mode. */
  ghost predicate Loadable(img: Image)
  {
    Valid(img) && img.width > 0 && img.height > 0
  }

  /**
   * `image_to_rgb(image, stride, swap_bgr)`: the buffer and its score
   * `|stride - 3·w|`. Padding is appended only when `stride - 3·w` is positive,
   * so a smaller stride leaves rows unpadded and untruncated.
   */
  method ImageToRgb(img: Image, stride: int, swapBgr: bool) returns (data: seq<byte>, score: nat)
    requires Valid(img)
    ensures data == EncodeImage(img, stride, swapBgr)
    ensures score == Abs(stride - 3 * img.width)
  {
    var arr := img.rows;
    if swapBgr {
      arr := ReverseChannels(arr);
    }
    var h, w := img.height, img.width;
    var lineBytes := w * 3;
    var pad := stride - lineBytes;
    score := Abs(pad);
    var buf: seq<byte> := [];
    for y := 0 to h
      invariant buf == Encode(arr[..y], PadFor(w, stride))
    {
      EncodeStep(arr, y, PadFor(w, stride));
      buf := buf + RowBytes(arr[y]);
      if pad > 0 {
        buf := buf + Zeros(pad);
      } else {
        assert Zeros(0) == [];
      }
    }
    assert arr[..h] == arr;
    data := buf;
  }

  /** Trial `i` (from 0) of the test mode: resolution, then mode, then swap. */
  function TestConfig(i: nat): Config
    requires i < 16
  {
    var (w, h, s) := Resolutions[i / 4];
    Config(w, h, s, Swaps[i % 2], Modes[i / 2 % 2])
  }

  function TestConfigs(): (cs: seq<Config>)
    ensures |cs| == 16
  {
    seq(16, i requires 0 <= i < 16 => TestConfig(i))
  }

  /** The score a trial gets: the row padding `|stride - 3·w|`. */
  function Score(c: Config): nat
  {
    Abs(c.stride - 3 * c.width)
  }

  /** The buffer written for configuration `c`, when the image can be resized to it. */
  function TrialBuffer(img: Image, c: Config): seq<byte>
    requires Resizable(img, c.width, c.height, c.mode)
  {
    EncodeImage(ResizeImage(img, c.width, c.height, c.mode), c.stride, c.swapBgr)
  }

  /**
   * The `best_config` accumulator after the trials `cs`: replaced only when a
   * trial scores strictly less than the best so far.
   */
  function Best(cs: seq<Config>): Option<Config>
  {
    if cs == [] then None
    else
      var prev := Best(cs[..|cs| - 1]);
      var c := cs[|cs| - 1];
      if prev.None? || Score(c) < Score(prev.value) then Some(c) else prev
  }

  /**
   * The accumulator ends on the earliest trial of minimum score: no trial
   * scores less, and every earlier trial scores strictly more.
   */
  lemma {:induction false} BestIsEarliestMinimum(cs: seq<Config>) returns (i: nat)
    requires cs != []
    ensures i < |cs| && Best(cs) == Some(cs[i])
    ensures forall j :: 0 <= j < |cs| ==> Score(cs[i]) <= Score(cs[j])
    ensures forall j :: 0 <= j < i ==> Score(cs[i]) < Score(cs[j])
  {
    var n := |cs|;
    if n == 1 {
      i := 0;
    } else {
      var k := BestIsEarliestMinimum(cs[..n - 1]);
      if Score(cs[n - 1]) < Score(cs[k]) {
        i := n - 1;
      } else {
        i := k;
      }
    }
  }

  /**
   * The state of `run_tests` after the trials `tried`: each trial resized
   * without raising and wrote one buffer, and the accumulator holds the best
   * of them with its score.
   */
  ghost predicate Accumulated(img: Image, tried: seq<Config>, shown: seq<seq<byte>>,
                              best: Option<Config>, bestScore: nat)
  {
    Loadable(img) &&
    |shown| == |tried| &&
    (forall k :: 0 <= k < |tried| ==> Resizable(img, tried[k].width, tried[k].height, tried[k].mode)) &&
    (forall k :: 0 <= k < |tried| ==> shown[k] == TrialBuffer(img, tried[k])) &&
    best == Best(tried) && (best.Some? ==> bestScore == Score(best.value))
  }

  /** One more trial keeps the accumulated state consistent. */
  lemma AccumulateStep(img: Image, tried: seq<Config>, shown: seq<seq<byte>>,
                       best: Option<Config>, bestScore: nat, c: Config, rgb: seq<byte>)
    requires Accumulated(img, tried, shown, best, bestScore)
    requires Resizable(img, c.width, c.height, c.mode) && rgb == TrialBuffer(img, c)
    ensures var better := best.None? || Score(c) < bestScore;
      Accumulated(img, tried + [c], shown + [rgb],
                  if better then Some(c) else best,
                  if better then Score(c) else bestScore)
  {
    assert (tried + [c])[..|tried|] == tried;
  }

  /**
   * How `run_tests` ends on a loaded image: the buffers written are those of
   * the trials before the first whose resize raises, in order; `raised` says
   * whether that happened, and then the next trial is one that cannot be
   * resized; the accumulator holds the best of the trials written.
   */
  ghost predicate TestsEnded(img: Image, shown: seq<seq<byte>>, best: Option<Config>, raised: bool)
  {
    var cs := TestConfigs();
    |shown| <= 16 && (raised <==> |shown| < 16) &&
    (forall i :: 0 <= i < |shown| ==>
       Resizable(img, cs[i].width, cs[i].height, cs[i].mode) && shown[i] == TrialBuffer(img, cs[i])) &&
    (raised ==> !Resizable(img, cs[|shown|].width, cs[|shown|].height, cs[|shown|].mode)) &&
    best == Best(cs[..|shown|])
  }

  /** The state after `n` trials is how the run ends, when trial `n` raises or none is left. */
  lemma TestsEndedAt(img: Image, n: nat, shown: seq<seq<byte>>, best: Option<Config>, bestScore: nat,
                     raised: bool)
    requires n <= 16 && Accumulated(img, TestConfigs()[..n], shown, best, bestScore)
    requires raised ==> n < 16 && !Resizable(img, TestConfigs()[n].width, TestConfigs()[n].height, TestConfigs()[n].mode)
    requires !raised ==> n == 16
    ensures TestsEnded(img, shown, best, raised)
  {
    var cs := TestConfigs();
    assert |shown| == n;
    forall i | 0 <= i < n
      ensures Resizable(img, cs[i].width, cs[i].height, cs[i].mode) && shown[i] == TrialBuffer(img, cs[i])
    {
      assert cs[..n][i] == cs[i];
    }
  }

  /**
   * `run_tests`: for each resolution and mode the image is resized once, then
   * encoded and written with and without channel reversal, 16 trials in all;
   * the buffers written and the best configuration are returned. A source
   * that fails to load ends the run before any trial. A resize that raises
   * ends the run there (`raised`): the buffers already written stay written,
   * and no later trial is tried.
   */
  method RunTests(source: Option<Image>) returns (shown: seq<seq<byte>>, best: Option<Config>, raised: bool)
    requires source.Some? ==> Loadable(source.value)
    ensures source.None? ==> shown == [] && best == None && !raised
    ensures source.Some? ==> TestsEnded(source.value, shown, best, raised)
  {
    shown, best, raised := [], None, false;
    if source.None? {
      return;
    }
    var img := source.value;
    var bestScore: nat := 0;
    ghost var tried: seq<Config> := [];
    for ri := 0 to |Resolutions|
      invariant tried == TestConfigs()[..4 * ri]
      invariant Accumulated(img, tried, shown, best, bestScore)
    {
      for mi := 0 to |Modes|
        invariant tried == TestConfigs()[..4 * ri + 2 * mi]
        invariant Accumulated(img, tried, shown, best, bestScore)
      {
        var stop;
        tried, shown, best, bestScore, stop := RunMode(img, ri, mi, tried, shown, best, bestScore);
        if stop {
          raised := true;
          TestsEndedAt(img, 4 * ri + 2 * mi, shown, best, bestScore, raised);
          return;
        }
      }
    }
    TestsEndedAt(img, 16, shown, best, bestScore, raised);
  }

  /**
   * One pass of the middle loop body of `run_tests`: the image is resized
   * once to the loops' resolution and mode, then tried with and without
   * channel reversal. When the resize raises, nothing changes and the next
   * trial is the one that could not be resized.
   */
  method RunMode(img: Image, ri: nat, mi: nat, ghost tried: seq<Config>,
                 shown: seq<seq<byte>>, best: Option<Config>, bestScore: nat)
    returns (ghost tried': seq<Config>, shown': seq<seq<byte>>, best': Option<Config>, bestScore': nat,
             raised: bool)
    requires ri < |Resolutions| && mi < |Modes|
    requires tried == TestConfigs()[..4 * ri + 2 * mi]
    requires Accumulated(img, tried, shown, best, bestScore)
    ensures raised ==> tried' == tried && shown' == shown && best' == best
    ensures raised ==>
      var c := TestConfigs()[4 * ri + 2 * mi];
      !Resizable(img, c.width, c.height, c.mode)
    ensures !raised ==> tried' == TestConfigs()[..4 * ri + 2 * mi + 2]
    ensures Accumulated(img, tried', shown', best', bestScore')
  {
    var (w, h, s) := Resolutions[ri];
    tried', shown', best', bestScore' := tried, shown, best, bestScore;
    if Raises(img.width, img.height, w, h, Modes[mi]) {
      TestConfigAt(ri, mi, 0);
      return tried', shown', best', bestScore', true;
    }
    raised := false;
    var resized := ResizeImage(img, w, h, Modes[mi]);
    tried', shown', best', bestScore' := RunSwaps(img, resized, ri, mi, tried, shown, best, bestScore);
  }

  /** The innermost loop of `run_tests`: the resized image with and without channel reversal. */
  method RunSwaps(img: Image, resized: Image, ri: nat, mi: nat, ghost tried: seq<Config>,
                  shown: seq<seq<byte>>, best: Option<Config>, bestScore: nat)
    returns (ghost tried': seq<Config>, shown': seq<seq<byte>>, best': Option<Config>, bestScore': nat)
    requires ri < |Resolutions| && mi < |Modes|
    requires Resizable(img, Resolutions[ri].0, Resolutions[ri].1, Modes[mi])
    requires resized == ResizeImage(img, Resolutions[ri].0, Resolutions[ri].1, Modes[mi])
    requires tried == TestConfigs()[..4 * ri + 2 * mi]
    requires Accumulated(img, tried, shown, best, bestScore)
    ensures tried' == TestConfigs()[..4 * ri + 2 * mi + 2]
    ensures Accumulated(img, tried', shown', best', bestScore')
  {
    tried', shown', best', bestScore' := tried, shown, best, bestScore;
    for si := 0 to |Swaps|
      invariant tried' == TestConfigs()[..4 * ri + 2 * mi + si]
      invariant Accumulated(img, tried', shown', best', bestScore')
    {
      tried', shown', best', bestScore' := RunTest(img, resized, ri, mi, si, tried', shown', best', bestScore');
    }
  }

  /**
   * One pass of the innermost loop body of `run_tests`: the resized image is
   * encoded with the loops' stride and channel order, the buffer written and
   * the best configuration updated when the score is strictly smaller.
   */
  method RunTest(img: Image, resized: Image, ri: nat, mi: nat, si: nat, ghost tried: seq<Config>,
                 shown: seq<seq<byte>>, best: Option<Config>, bestScore: nat)
    returns (ghost tried': seq<Config>, shown': seq<seq<byte>>, best': Option<Config>, bestScore': nat)
    requires ri < |Resolutions| && mi < |Modes| && si < |Swaps|
    requires Resizable(img, Resolutions[ri].0, Resolutions[ri].1, Modes[mi])
    requires resized == ResizeImage(img, Resolutions[ri].0, Resolutions[ri].1, Modes[mi])
    requires tried == TestConfigs()[..4 * ri + 2 * mi + si]
    requires Accumulated(img, tried, shown, best, bestScore)
    ensures tried' == TestConfigs()[..4 * ri + 2 * mi + si + 1]
    ensures Accumulated(img, tried', shown', best', bestScore')
  {
    var (w, h, s) := Resolutions[ri];
    var swap := Swaps[si];
    var rgb, score := ImageToRgb(resized, s, swap);
    var c := Config(w, h, s, swap, Modes[mi]);
    AccumulateStep(img, tried, shown, best, bestScore, c, rgb);
    shown', best', bestScore' := shown + [rgb], best, bestScore;
    if best.None? || score < bestScore {
      best', bestScore' := Some(c), score;
    }
    TestConfigStep(ri, mi, si);
    tried' := tried + [c];
  }

  /** Trial `4·ri + 2·mi + si` extends the enumeration by the loops' current configuration. */
  lemma TestConfigStep(ri: nat, mi: nat, si: nat)
    requires ri < 4 && mi < 2 && si < 2
    ensures var (w, h, s) := Resolutions[ri];
      TestConfigs()[..4 * ri + 2 * mi + si + 1] ==
        TestConfigs()[..4 * ri + 2 * mi + si] + [Config(w, h, s, Swaps[si], Modes[mi])]
  {
    var k := 4 * ri + 2 * mi + si;
    assert k / 4 == ri && k % 2 == si && k / 2 % 2 == mi;
  }

  /** Trial `4·ri + 2·mi + si` is the loops' configuration at those positions. */
  lemma TestConfigAt(ri: nat, mi: nat, si: nat)
    requires ri < 4 && mi < 2 && si < 2
    ensures 4 * ri + 2 * mi + si < 16
    ensures TestConfigs()[4 * ri + 2 * mi + si] ==
      Config(Resolutions[ri].0, Resolutions[ri].1, Resolutions[ri].2, Swaps[si], Modes[mi])
  {
    var k := 4 * ri + 2 * mi + si;
    assert k / 4 == ri && k % 2 == si && k / 2 % 2 == mi;
  }

  lemma TestScores(i: nat)
    requires i < 16
    ensures Score(TestConfig(i)) == [248, 128, 160, 1024][i / 4]
  {
  }

  /**
   * With the listed resolutions the winner is the first 640×480 trial:
   * stride 2048, no channel reversal, Exact-fit, score 128.
   */
  lemma TestWinner()
    ensures Best(TestConfigs()) == Some(Config(640, 480, 2048, false, ExactFit))
    ensures Score(Config(640, 480, 2048, false, ExactFit)) == 128
  {
    var cs := TestConfigs();
    var i := BestIsEarliestMinimum(cs);
    TestScores(i);
    TestScores(4);
    assert cs[4] == Config(640, 480, 2048, false, ExactFit);
    assert i == 4;
  }

  /**
   * `run_normal`: one pass with the given configuration, or with
   * 800×600, stride 2560, RGB order, Exact-fit when none is given. Nothing is
   * written when the source fails to load, nor when the resize raises, which
   * ends the script (`raised`).
   */
  method RunNormal(source: Option<Image>, config: Option<Config>) returns (written: Option<seq<byte>>, raised: bool)
    requires source.Some? ==> Loadable(source.value)
    ensures source.None? ==> written == None && !raised
    ensures source.Some? ==>
      var c := if config.Some? then config.value else DefaultConfig;
      (raised <==> !Resizable(source.value, c.width, c.height, c.mode)) &&
      (raised ==> written == None) &&
      (!raised ==> written == Some(TrialBuffer(source.value, c)))
  {
    if source.None? {
      return None, false;
    }
    var c := if config.Some? then config.value else DefaultConfig;
    if Raises(source.value.width, source.value.height, c.width, c.height, c.mode) {
      return None, true;
    }
    var img := ResizeImage(source.value, c.width, c.height, c.mode);
    var rgb, _ := ImageToRgb(img, c.stride, c.swapBgr);
    written, raised := Some(rgb), false;
  }

  /**
   * When trial `k` is the first whose resize raises, the tests end having
   * written exactly the `k` trials before it, and raised.
   */
  lemma EndsAtFirstRaise(img: Image, k: nat, shown: seq<seq<byte>>, best: Option<Config>, raised: bool)
    requires k < 16
    requires forall i :: 0 <= i < k ==>
      Resizable(img, TestConfigs()[i].width, TestConfigs()[i].height, TestConfigs()[i].mode)
    requires !Resizable(img, TestConfigs()[k].width, TestConfigs()[k].height, TestConfigs()[k].mode)
    requires TestsEnded(img, shown, best, raised)
    ensures |shown| == k && raised
  {
    var c := TestConfigs()[k];
    assert k < |shown| ==> Resizable(img, c.width, c.height, c.mode);
  }

  /**
   * A 1000×1 strip: the two 600×480 Exact-fit trials can be written, and the
   * 600×480 Aspect-fit resize scales it to 600×0, where `run_tests` raises.
   */
  lemma StripStopsTests(img: Image)
    requires Loadable(img) && img.width == 1000 && img.height == 1
    ensures var cs := TestConfigs();
      Resizable(img, cs[0].width, cs[0].height, cs[0].mode) &&
      Resizable(img, cs[1].width, cs[1].height, cs[1].mode) &&
      !Resizable(img, cs[2].width, cs[2].height, cs[2].mode)
  {
    assert AspectSize(1000, 1, 600, 480) == (600, 0);
  }

  /** So every way the tests can end on that strip has written exactly two buffers and raised. */
  lemma StripEndsTests(img: Image)
    requires Loadable(img) && img.width == 1000 && img.height == 1
    ensures forall shown, best, raised :: TestsEnded(img, shown, best, raised) ==> |shown| == 2 && raised
  {
    StripStopsTests(img);
    forall shown, best, raised | TestsEnded(img, shown, best, raised) ensures |shown| == 2 && raised {
      EndsAtFirstRaise(img, 2, shown, best, raised);
    }
  }

  /** The default layout: 160 padding bytes per row, 1,536,000 bytes in all. */
  lemma DefaultLayout(img: Image)
    requires Loadable(img)
    ensures PadFor(800, 2560) == 160
    ensures |TrialBuffer(img, DefaultConfig)| == 1536000
  {
    EncodeImageLength(ResizeImage(img, 800, 600, ExactFit), 2560, false);
  }
}
