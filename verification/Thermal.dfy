/** Temperature averaging, correction and over-temperature events, over every history of one object. */
module Thermal {
  import opened Common
  import opened ObjMonitor
  import opened RingIndex

  // ---------------------------------------------------------------------
  // The four-sample moving average with its one-shot correction.
  // ---------------------------------------------------------------------

  function SumOf(xs: seq<int>): int {
    if xs == [] then 0 else SumOf(Front(xs)) + Last(xs)
  }

  lemma SumDropFirst(xs: seq<int>)
    requires xs != []
    ensures SumOf(xs) == xs[0] + SumOf(xs[1..])
  {
    if |xs| > 1 {
      SumDropFirst(Front(xs));
      assert Front(xs)[1..] == Front(xs[1..]);
    }
  }

  /** All samples of the object. */
  function Samples(es: seq<Event>): seq<int> {
    if es == [] then []
    else if Last(es).Sample? then Samples(Front(es)) + [Last(es).value]
    else Samples(Front(es))
  }

  /** The ring holds the last four samples, and `sum` is their sum. */
  ghost predicate Holds(a: AvgCalculator, samples: seq<int>)
    requires ValidAvg(a)
  {
    var live := LastN(samples, BUFFER_SIZE);
    && a.count == |live|
    && (a.count < BUFFER_SIZE ==> a.index == a.count)
    && ReadRound(a.buffer, a.index, a.count) == live
    && a.sum == SumOf(live)
  }

  lemma LastFourAfter(samples: seq<int>, value: int)
    ensures var live := LastN(samples, BUFFER_SIZE);
            LastN(samples + [value], BUFFER_SIZE) == (if |live| == BUFFER_SIZE then live[1..] else live) + [value]
            && SumOf(LastN(samples + [value], BUFFER_SIZE)) ==
               SumOf(live) + value - if |live| == BUFFER_SIZE then live[0] else 0
  {
    var live := LastN(samples, BUFFER_SIZE);
    var all := live + [value];
    assert Front(all) == live;
    if |live| == BUFFER_SIZE {
      SumDropFirst(all);
      assert LastN(samples + [value], BUFFER_SIZE) == all[1..];
    } else {
      assert LastN(samples + [value], BUFFER_SIZE) == all;
    }
  }

  lemma PushSampleHolds(a: AvgCalculator, samples: seq<int>, value: int)
    requires ValidAvg(a) && Holds(a, samples)
    ensures var r := PushSample(a, value);
            ValidAvg(r) && Holds(r, samples + [value])
  {
    var r := PushSample(a, value);
    assert a.count == BUFFER_SIZE ==> ReadRound(a.buffer, a.index, a.count)[0] == a.buffer[a.index];
    LastFourAfter(samples, value);
    ReadRoundAfterAdd(a.buffer, a.index, a.count, r.index, r.count, samples, value);
  }

  lemma AddValueHolds(o: Obj, samples: seq<int>, value: int)
    requires ValidAvg(o.tempAvg) && Holds(o.tempAvg, samples)
    ensures var r := AddValue(o, value);
            ValidAvg(r.tempAvg) && Holds(r.tempAvg, samples + [value])
            && r.bboxTemp == MeanTemp(samples + [value])
  {
    hide PushSample; hide Round;
    PushSampleHolds(o.tempAvg, samples, value);
  }

  /** Rounded mean of the last four samples, or of all while there are fewer. */
  function MeanTemp(samples: seq<int>): int
    requires samples != []
  {
    var live := LastN(samples, BUFFER_SIZE);
    Round(SumOf(live) as real / |live| as real)
  }

  /** The correction setting stays `c`. */
  ghost predicate CorrectionIs(es: History, c: int) {
    es == [] || (CorrectionIs(Front(es), c) && (Last(es).Correct? ==> Last(es).cfg.tempCorrection == c))
  }

  /** Some correction pass ran since the last sample. */
  predicate CorrectedSince(es: seq<Event>) {
    es != [] && !Last(es).Sample? && (Last(es).Correct? || CorrectedSince(Front(es)))
  }

  /** The detection path leaves the temperature fields alone. */
  lemma Untouched(o: Obj, e: Event)
    requires ValidEvent(e)
    ensures e.Second? ==> SameThermal(o, Tick(o, e.cfg))
    ensures e.Notify? ==> SameTemp(o, Trigger(o, e.cfg)) && Trigger(o, e.cfg).tempDuration == o.tempDuration
    ensures e.Clear? ==> SameThermal(o.(tempDuration := 0), Reset(o, e.cfg))
    ensures e.FlowRecord? ==> SameThermal(o, ProcessFlow(o, e.cfg, e.f, e.second, e.rgb, e.moveSpeed))
  {
    hide Tick; hide Trigger; hide ProcessFlow; hide Reset;
    match e
    case Second(cfg) => TickUntouched(o, cfg);
    case Notify(cfg) => TriggerUntouched(o, cfg);
    case Clear(cfg) => ResetUntouched(o, cfg);
    case FlowRecord(cfg, f, second, rgb, moveSpeed) => FlowUntouched(o, cfg, f, second, rgb, moveSpeed);
    case _ =>
  }

  lemma TickUntouched(o: Obj, cfg: Config)
    ensures SameThermal(o, Tick(o, cfg))
  {
    RaiseChanges(o.(duration := o.duration + 1), cfg);
    MarkChanges(RaiseIfDue(o.(duration := o.duration + 1), cfg), cfg);
    hide RaiseIfDue; hide MarkFlow;
  }

  lemma TriggerUntouched(o: Obj, cfg: Config)
    ensures SameTemp(o, Trigger(o, cfg)) && Trigger(o, cfg).tempDuration == o.tempDuration
  {
  }

  lemma ResetUntouched(o: Obj, cfg: Config)
    ensures SameThermal(o.(tempDuration := 0), Reset(o, cfg))
  {
  }

  lemma FlowUntouched(o: Obj, cfg: Config, f: Flow, second: bool, rgb: bool, moveSpeed: int)
    requires f.Valid()
    ensures SameThermal(o, ProcessFlow(o, cfg, f, second, rgb, moveSpeed))
  {
    hide BoxMotion; hide Confirms;
  }

  predicate SameThermal(o: Obj, r: Obj) {
    SameTemp(o, r) && r.tempDuration == o.tempDuration && r.tempEventTimeGap == o.tempEventTimeGap
  }

  predicate SameTemp(o: Obj, r: Obj) {
    r.tempAvg == o.tempAvg && r.bboxTemp == o.bboxTemp && r.corrected == o.corrected
  }

  /** However often the correction pass runs, an object that has samples shows the rounded mean of
      its last four, plus the correction once if a pass ran since the last sample. */
  lemma {:induction false} TemperatureShown(es: History, c: int)
    requires CorrectionIs(es, c)
    ensures Holds(Run(es).tempAvg, Samples(es))
    ensures Run(es).corrected <==> c != 0 && CorrectedSince(es)
    ensures Samples(es) != [] ==>
              Run(es).bboxTemp == MeanTemp(Samples(es)) + if CorrectedSince(es) then c else 0
  {
    if es != [] {
      hide Apply; hide Holds; hide MeanTemp;
      var o, e := Run(Front(es)), Last(es);
      TemperatureShown(Front(es), c);
      ApplyToTemp(o, e);
      if e.Sample? {
        AddValueHolds(o, Samples(Front(es)), e.value);
      }
    } else {
      assert LastN<int>([], BUFFER_SIZE) == [];
    }
  }

  lemma ApplyToTemp(o: Obj, e: Event)
    requires ValidAvg(o.tempAvg) && ValidEvent(e)
    ensures Apply(o, e) == match e
                           case Sample(value) => AddValue(o, value)
                           case Correct(cfg) => AddCorrection(o, cfg)
                           case _ => Apply(o, e)
    ensures !e.Sample? && !e.Correct? ==> SameTemp(o, Apply(o, e))
  {
    Untouched(o, e);
    hide Tick; hide ProcessFlow; hide Trigger; hide Reset; hide AddValue; hide AddCorrection;
  }

  /** Rounding is to the nearest whole degree, halves away from zero. */
  lemma MeanTempIsNearest(samples: seq<int>)
    requires samples != []
    ensures var live := LastN(samples, BUFFER_SIZE);
            var mean := SumOf(live) as real / |live| as real;
            var shown := MeanTemp(samples) as real;
            if mean >= 0.0 then shown - 0.5 <= mean < shown + 0.5 else shown - 0.5 < mean <= shown + 0.5
  {
    var live := LastN(samples, BUFFER_SIZE);
    RoundIsNearest(SumOf(live) as real / |live| as real);
    hide Round; hide SumOf;
  }

  lemma RoundIsNearest(x: real)
    ensures var r := Round(x) as real;
            if x >= 0.0 then r - 0.5 <= x < r + 0.5 else r - 0.5 < x <= r + 0.5
  {
  }

  // ---------------------------------------------------------------------
  // Over-temperature events.
  // ---------------------------------------------------------------------

  /** How many of the last evaluated passes in a row, with no reset in between, found the object hot. */
  ghost function HotPasses(es: History): nat {
    if es == [] then 0 else
    match Last(es)
    case Temperature(cfg, average) => if Hot(Run(Front(es)), cfg, average) then HotPasses(Front(es)) + 1 else 0
    case Clear(_) => 0
    case _ => HotPasses(Front(es))
  }

  /** The last `n` evaluated passes all found it plausible and above the average by more than the
      difference, with no reset since the first of them. */
  ghost predicate LastPassesHot(es: History, n: nat) {
    n == 0 || (es != [] && !Last(es).Clear? &&
      if Last(es).Temperature? then
        var temp, e := Run(Front(es)).bboxTemp, Last(es);
        && temp >= e.cfg.thresholdUnderTemp && temp > e.average + e.cfg.tempDiffThreshold
        && LastPassesHot(Front(es), n - 1)
      else LastPassesHot(Front(es), n))
  }

  lemma OtherKeepsTempDuration(o: Obj, e: Event)
    requires ValidAvg(o.tempAvg) && ValidEvent(e) && !e.Temperature? && !e.Clear?
    ensures Apply(o, e).tempDuration == o.tempDuration
  {
    Untouched(o, e);
    hide Tick; hide ProcessFlow; hide Trigger; hide Round;
  }

  lemma {:induction false} DurationWithinHotPasses(es: History)
    ensures Run(es).tempDuration <= HotPasses(es)
  {
    if es != [] {
      var o, e := Run(Front(es)), Last(es);
      DurationWithinHotPasses(Front(es));
      if !e.Temperature? && !e.Clear? {
        OtherKeepsTempDuration(o, e);
        hide Apply;
      }
    }
  }

  lemma {:induction false} HotPassesMeans(es: History, n: nat)
    requires n <= HotPasses(es)
    ensures LastPassesHot(es, n)
  {
    if n > 0 {
      HotPassesMeans(Front(es), if Last(es).Temperature? then n - 1 else n);
    }
  }

  /** A pass that turns an object into an over-temperature event, whether or not the tick of the same
      frame has already raised its flag, means that the last over_temp_time evaluated passes were all
      above the average plus the difference and that the gap since the last notification had run out. */
  lemma OverTempIsSound(es: History, cfg: Config, average: int)
    requires RaisesOverTemp(Run(es), cfg, average)
    ensures LastPassesHot(es + [Temperature(cfg, average)], Max(1, cfg.overTempTime))
    ensures Run(es).tempEventTimeGap == 0
    ensures Run(es + [Temperature(cfg, average)]).notificationFlag
            && Run(es + [Temperature(cfg, average)]).classId == OverTemp
  {
    var all := es + [Temperature(cfg, average)];
    assert Front(all) == es;
    DurationWithinHotPasses(es);
    HotPassesMeans(all, Max(1, cfg.overTempTime));
  }

  /** A pass raises a flag that was down, or makes an object an over-temperature event, only so. */
  lemma OverTempRaisesExactly(o: Obj, cfg: Config, average: int)
    ensures var r := TempPass(o, cfg, average);
            && (!o.notificationFlag ==> (r.notificationFlag <==> RaisesOverTemp(o, cfg, average)))
            && (o.classId != OverTemp ==> (r.classId == OverTemp <==> RaisesOverTemp(o, cfg, average)))
  {
  }

  // ---- completeness ----

  /** Some pass of the stretch `es` from `o` raises. */
  ghost predicate SomeOverTemp(o: Obj, es: History)
    requires ValidAvg(o.tempAvg)
  {
    es != [] && (SomeOverTemp(o, Front(es))
                 || (Last(es).Temperature? && RaisesOverTemp(RunFrom(o, Front(es)), Last(es).cfg, Last(es).average)))
  }

  ghost predicate SteadyPass(o: Obj, e: Event, t: int) {
    && !e.Clear?
    && (e.Temperature? ==> Hot(o, e.cfg, e.average) && e.cfg.overTempTime == t && o.tempEventTimeGap == 0)
  }

  /** No reset, and every evaluated pass finds the object hot, the limit `t` and the gap run out. */
  ghost predicate SteadilyHot(o: Obj, es: History, t: int)
    requires ValidAvg(o.tempAvg)
  {
    es == [] || (SteadilyHot(o, Front(es), t) && SteadyPass(RunFrom(o, Front(es)), Last(es), t))
  }

  /** Evaluated passes. */
  function Passes(es: seq<Event>): nat {
    if es == [] then 0 else Passes(Front(es)) + if Last(es).Temperature? then 1 else 0
  }

  lemma HotPassCounts(o: Obj, e: Event, t: int)
    requires ValidAvg(o.tempAvg) && ValidEvent(e) && SteadyPass(o, e, t)
    requires e.Temperature? ==> !RaisesOverTemp(o, e.cfg, e.average)
    ensures Apply(o, e).tempDuration == o.tempDuration + if e.Temperature? then 1 else 0
    ensures e.Temperature? ==> o.tempDuration + 1 < t
  {
    if !e.Temperature? {
      OtherKeepsTempDuration(o, e);
      hide Apply;
    }
  }

  lemma {:induction false} HotWithoutRaise(o: Obj, es: History, t: int)
    requires ValidAvg(o.tempAvg) && SteadilyHot(o, es, t) && !SomeOverTemp(o, es)
    ensures RunFrom(o, es).tempDuration == o.tempDuration + Passes(es)
    ensures Passes(es) > 0 ==> o.tempDuration + Passes(es) < t
  {
    hide Apply; hide SteadyPass; hide RaisesOverTemp;
    if es != [] {
      HotWithoutRaise(o, Front(es), t);
      HotPassCounts(RunFrom(o, Front(es)), Last(es), t);
    }
  }

  /** Completeness: over_temp_time passes that find the object hot and its gap run out, with no reset
      among them, include one that raises, whatever state they start from. */
  lemma EnoughPassesRaise(o: Obj, es: History, t: int)
    requires ValidAvg(o.tempAvg) && SteadilyHot(o, es, t) && Passes(es) >= Max(1, t)
    ensures SomeOverTemp(o, es)
  {
    if !SomeOverTemp(o, es) {
      HotWithoutRaise(o, es, t);
    }
  }

  // ---- spacing ----

  /** Gap ticks that found something to count down. */
  ghost function Decrements(o: Obj, es: History): nat
    requires ValidAvg(o.tempAvg)
  {
    if es == [] then 0
    else Decrements(o, Front(es)) + if Last(es).GapTick? && RunFrom(o, Front(es)).tempEventTimeGap > 0 then 1 else 0
  }

  lemma GapAfter(o: Obj, e: Event)
    requires ValidAvg(o.tempAvg) && ValidEvent(e) && o.tempEventTimeGap <= TEMP_EVENT_TIME_GAP
    ensures var r := Apply(o, e);
            r.tempEventTimeGap <= TEMP_EVENT_TIME_GAP
            && (r.tempEventTimeGap >= o.tempEventTimeGap
                || (e.GapTick? && r.tempEventTimeGap == o.tempEventTimeGap - 1))
  {
    Untouched(o, e);
    hide Tick; hide ProcessFlow; hide Reset; hide Round;
  }

  lemma {:induction false} GapFallsByDecrements(o: Obj, es: History)
    requires ValidAvg(o.tempAvg) && o.tempEventTimeGap <= TEMP_EVENT_TIME_GAP
    ensures RunFrom(o, es).tempEventTimeGap <= TEMP_EVENT_TIME_GAP
    ensures RunFrom(o, es).tempEventTimeGap >= o.tempEventTimeGap - Decrements(o, es)
  {
    if es != [] {
      GapFallsByDecrements(o, Front(es));
      GapAfter(RunFrom(o, Front(es)), Last(es));
      hide Apply;
    }
  }

  /** What can reach the object between the pass that raises its flag and the trigger at the end of
      the same frame: the flow scan of that frame, and resets and gap ticks of other threads. */
  ghost predicate SameFrame(es: History) {
    es == [] || (SameFrame(Front(es)) && (Last(es).FlowRecord? || Last(es).Clear? || Last(es).GapTick?))
  }

  lemma {:induction false} FlagWaits(o: Obj, es: History)
    requires ValidAvg(o.tempAvg) && SameFrame(es)
    requires o.notificationFlag && o.classId != FlipCow
    ensures RunFrom(o, es).notificationFlag && RunFrom(o, es).classId != FlipCow
  {
    if es != [] {
      FlagWaits(o, Front(es));
      FrameStep(RunFrom(o, Front(es)), Last(es));
      hide Apply;
    }
  }

  lemma FrameStep(o: Obj, e: Event)
    requires ValidAvg(o.tempAvg) && ValidEvent(e) && (e.FlowRecord? || e.Clear? || e.GapTick?)
    ensures var r := Apply(o, e);
            r.notificationFlag == o.notificationFlag && (r.classId == o.classId || r.classId == NormalCow)
  {
    hide BoxMotion; hide Confirms;
  }

  /** Spacing: an object whose over-temperature flag was raised, and triggered at the end of that
      frame, is not raised again before its gap was counted down 300 times. */
  lemma OverTempIsSpaced(o: Obj, cfg: Config, average: int, frame: History, cfg': Config, later: History,
                         cfg'': Config, average': int)
    requires ValidAvg(o.tempAvg) && RaisesOverTemp(o, cfg, average)
    requires SameFrame(frame)
    requires var raised := Apply(o, Temperature(cfg, average));
             var notified := Apply(RunFrom(raised, frame), Notify(cfg'));
             RaisesOverTemp(RunFrom(notified, later), cfg'', average')
    ensures var raised := Apply(o, Temperature(cfg, average));
            var notified := Apply(RunFrom(raised, frame), Notify(cfg'));
            Decrements(notified, later) >= TEMP_EVENT_TIME_GAP
  {
    var raised := Apply(o, Temperature(cfg, average));
    FlagWaits(raised, frame);
    var notified := Apply(RunFrom(raised, frame), Notify(cfg'));
    assert notified.tempEventTimeGap == TEMP_EVENT_TIME_GAP;
    GapFallsByDecrements(notified, later);
  }
}
