/**
 * calibration.py: sweep 48 configurations, keep the ones that were displayed,
 * let the operator pick one by number, and persist it as a record of width,
 * height, stride, swap_bgr and mode.
 */
module Calibration {
  import opened Pixels
  import opened Compositor

  const Resolutions: seq<(nat, nat)> := [(640, 480), (720, 480), (800, 600)]
  const Modes: seq<FitMode> := [ExactFit, AspectFit]
  const Strides: seq<nat> := [2048, 2560, 2816, 3072]
  const Swaps: seq<bool> := [false, true]

  /** The number of trials: 3 resolutions × 2 modes × 4 strides × 2 swaps. */
  const TrialCount: nat := 48

  /** One entry of `results`: `(idx, w, h, stride, swap, mode)`. */
  datatype Trial = Trial(idx: nat, width: nat, height: nat, stride: nat, swapBgr: bool, mode: FitMode)

  /** What the sink sees: a displayed trial, or the configuration file being written. */
  datatype Event = Displayed(idx: nat) | ConfigSaved(record: Config)

  /**
   * How `calibration` ends: returning 1 because the projector or the image is
   * missing, failing in `next` because no result has the chosen number, or
   * returning 0 after saving the chosen record.
   */
  datatype Outcome = DeviceMissing | LoadFailed | NoSuchChoice | Saved(record: Config)

  /** Trial number `idx` (from 1): resolution, then mode, then stride, then swap. */
  function SweepTrial(idx: nat): Trial
    requires 1 <= idx <= TrialCount
  {
    var i := idx - 1;
    var res := Resolutions[i / 16];
    Trial(idx, res.0, res.1, Strides[i / 2 % 4], Swaps[i % 2], Modes[i / 8 % 2])
  }

  function SweepTrials(): (ts: seq<Trial>)
    ensures |ts| == TrialCount
  {
    seq(TrialCount, i requires 0 <= i < TrialCount => SweepTrial(i + 1))
  }

  /** `results`: the trials whose encode and write succeeded, in sweep order. */
  function Delivered(ts: seq<Trial>, ok: nat -> bool): seq<Trial>
  {
    if ts == [] then []
    else
      var last := ts[|ts| - 1];
      Delivered(ts[..|ts| - 1], ok) + if ok(last.idx) then [last] else []
  }

  function Displays(ts: seq<Trial>): (es: seq<Event>)
    ensures |es| == |ts|
    ensures forall i :: 0 <= i < |ts| ==> es[i] == Displayed(ts[i].idx)
  {
    seq(|ts|, i requires 0 <= i < |ts| => Displayed(ts[i].idx))
  }

  /** `next(r for r in results if r[0] == choice)`, with no match as `None`. */
  function Choose(results: seq<Trial>, choice: int): Option<Trial>
  {
    if results == [] then None
    else if results[0].idx == choice then Some(results[0])
    else Choose(results[1..], choice)
  }

  /** The dictionary `config` written to gm12u320_best.json. */
  function Record(t: Trial): (c: Config)
    ensures c.width == t.width && c.height == t.height && c.stride == t.stride
    ensures c.swapBgr == t.swapBgr && c.mode == t.mode
  {
    Config(t.width, t.height, t.stride, t.swapBgr, t.mode)
  }

  /** The process exit status for each outcome (an uncaught StopIteration exits with 1). */
  function ExitCode(o: Outcome): (code: nat)
    ensures code == 0 <==> o.Saved?
  {
    if o.Saved? then 0 else 1
  }

  /**
   * `calibration(image_path)`. The projector check and the image load are the
   * booleans `deviceFound` and `source`; whether trial `idx` was encoded and
   * written is `delivered(idx)` (the encoder and writer it imports are not
   * defined in show_image.py, so they stay abstract); `choice` is the number
   * the operator types. The sink sees every displayed trial in order, and the
   * record is written only after the sweep and the choice are complete.
   */
  method Calibrate(deviceFound: bool, source: Option<Image>, delivered: nat -> bool, choice: int)
    returns (outcome: Outcome, results: seq<Trial>, events: seq<Event>)
    ensures !deviceFound ==> outcome == DeviceMissing && results == [] && events == []
    ensures deviceFound && source.None? ==> outcome == LoadFailed && results == [] && events == []
    ensures deviceFound && source.Some? ==>
      results == Delivered(SweepTrials(), delivered) &&
      outcome == (match Choose(results, choice)
                  case None => NoSuchChoice
                  case Some(t) => Saved(Record(t))) &&
      events == Displays(results) + (if outcome.Saved? then [ConfigSaved(outcome.record)] else [])
  {
    results, events := [], [];
    if !deviceFound {
      return DeviceMissing, results, events;
    }
    if source.None? {
      return LoadFailed, results, events;
    }
    var idx := 1;
    for ri := 0 to |Resolutions|
      invariant idx == 16 * ri + 1
      invariant Swept(results, events, idx, delivered)
    {
      var w, h := Resolutions[ri].0, Resolutions[ri].1;
      for mi := 0 to |Modes|
        invariant idx == 16 * ri + 8 * mi + 1
        invariant Swept(results, events, idx, delivered)
      {
        for sti := 0 to |Strides|
          invariant idx == 16 * ri + 8 * mi + 2 * sti + 1
          invariant Swept(results, events, idx, delivered)
        {
          for swi := 0 to |Swaps|
            invariant idx == 16 * ri + 8 * mi + 2 * sti + swi + 1
            invariant Swept(results, events, idx, delivered)
          {
            var t := Trial(idx, w, h, Strides[sti], Swaps[swi], Modes[mi]);
            SweepStep(results, events, ri, mi, sti, swi, delivered);
            if delivered(idx) {
              results := results + [t];
              events := events + [Displayed(idx)];
            }
            idx := idx + 1;
          }
        }
      }
    }
    assert SweepTrials()[..idx - 1] == SweepTrials();
    var best := Choose(results, choice);
    if best.None? {
      return NoSuchChoice, results, events;
    }
    var config := Record(best.value);
    events := events + [ConfigSaved(config)];
    outcome := Saved(config);
  }

  /**
   * The sweep after trial `idx - 1`: `results` holds the delivered trials among
   * the first `idx - 1`, and the sink has seen each of them displayed.
   */
  ghost predicate Swept(results: seq<Trial>, events: seq<Event>, idx: nat, ok: nat -> bool)
  {
    1 <= idx <= TrialCount + 1 &&
    results == Delivered(SweepTrials()[..idx - 1], ok) &&
    events == Displays(results)
  }

  /** The four loop indices name trial `16·ri + 8·mi + 2·sti + swi + 1`, the next one. */
  lemma SweepStep(results: seq<Trial>, events: seq<Event>, ri: nat, mi: nat, sti: nat, swi: nat,
                  ok: nat -> bool)
    requires ri < 3 && mi < 2 && sti < 4 && swi < 2
    requires Swept(results, events, 16 * ri + 8 * mi + 2 * sti + swi + 1, ok)
    ensures var k := 16 * ri + 8 * mi + 2 * sti + swi;
      var t := Trial(k + 1, Resolutions[ri].0, Resolutions[ri].1, Strides[sti], Swaps[swi], Modes[mi]);
      Swept(results + (if ok(k + 1) then [t] else []),
            events + (if ok(k + 1) then [Displayed(k + 1)] else []), k + 2, ok)
  {
    var k := 16 * ri + 8 * mi + 2 * sti + swi;
    var t := Trial(k + 1, Resolutions[ri].0, Resolutions[ri].1, Strides[sti], Swaps[swi], Modes[mi]);
    Split(k, 8 * ri + 4 * mi + sti, swi, 2);
    Split(k / 2, 2 * ri + mi, sti, 4);
    Split(k, 2 * ri + mi, 2 * sti + swi, 8);
    Split(k / 8, ri, mi, 2);
    Split(k, ri, 8 * mi + 2 * sti + swi, 16);
    assert SweepTrials()[k] == SweepTrial(k + 1);
    assert SweepTrial(k + 1) == t;
    assert SweepTrials()[..k + 1][..k] == SweepTrials()[..k];
    assert Delivered(SweepTrials()[..k + 1], ok) == results + if ok(k + 1) then [t] else [];
  }

  /** Trials are numbered from 1 in sweep order. */
  lemma SweepNumbering(i: nat)
    requires i < TrialCount
    ensures SweepTrials()[i].idx == i + 1
  {
  }

  ghost predicate StrictlyIncreasing(ts: seq<Trial>)
  {
    forall i, j :: 0 <= i < j < |ts| ==> ts[i].idx < ts[j].idx
  }

  /**
   * Filtering keeps exactly the delivered trials, in their order: the result
   * holds a trial iff the sweep did and it was delivered.
   */
  lemma {:induction false} DeliveredExactly(ts: seq<Trial>, ok: nat -> bool)
    requires StrictlyIncreasing(ts)
    ensures StrictlyIncreasing(Delivered(ts, ok))
    ensures forall t :: t in Delivered(ts, ok) <==> t in ts && ok(t.idx)
  {
    if ts != [] {
      var n := |ts|;
      var prefix, last := ts[..n - 1], ts[n - 1];
      assert ts == prefix + [last];
      assert StrictlyIncreasing(prefix);
      DeliveredExactly(prefix, ok);
      var kept := Delivered(prefix, ok);
      var tail := if ok(last.idx) then [last] else [];
      assert Delivered(ts, ok) == kept + tail;
      forall i | 0 <= i < |kept| ensures kept[i].idx < last.idx {
        var j :| 0 <= j < |prefix| && prefix[j] == kept[i];
      }
    }
  }

  /**
   * The sweep's `results` have strictly increasing, hence unique, numbers
   * between 1 and 48, and are exactly the delivered trials.
   */
  lemma ResultsOrdered(ok: nat -> bool)
    ensures StrictlyIncreasing(Delivered(SweepTrials(), ok))
    ensures forall t :: t in Delivered(SweepTrials(), ok) ==> 1 <= t.idx <= TrialCount
    ensures forall t :: t in Delivered(SweepTrials(), ok) <==> t in SweepTrials() && ok(t.idx)
  {
    var ts := SweepTrials();
    assert StrictlyIncreasing(ts) by {
      forall i, j | 0 <= i < j < |ts| ensures ts[i].idx < ts[j].idx {
        assert ts[i].idx == i + 1 && ts[j].idx == j + 1;
      }
    }
    DeliveredExactly(ts, ok);
    forall t | t in Delivered(ts, ok) ensures 1 <= t.idx <= TrialCount {
      var k :| 0 <= k < |ts| && ts[k] == t;
    }
  }

  /**
   * The choice finds the result carrying the chosen number, and finds one
   * exactly when such a result exists.
   */
  lemma {:induction false} ChooseFinds(results: seq<Trial>, choice: int)
    ensures Choose(results, choice).Some? ==>
      Choose(results, choice).value in results && Choose(results, choice).value.idx == choice
    ensures Choose(results, choice).None? <==> forall t :: t in results ==> t.idx != choice
  {
    if results != [] && results[0].idx != choice {
      ChooseFinds(results[1..], choice);
      assert results == [results[0]] + results[1..];
    }
  }

  /** The configuration file is written last, after every displayed trial. */
  lemma SavedLast(results: seq<Trial>, outcome: Outcome)
    ensures var events := Displays(results) +
        (if outcome.Saved? then [ConfigSaved(outcome.record)] else []);
      forall i :: 0 <= i < |events| && events[i].ConfigSaved? ==>
        i == |events| - 1 && outcome.Saved?
  {
  }
}
