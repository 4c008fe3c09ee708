/** Optical flow across frames: what the running average holds when it is compared. */
module FlowFrames {
  import opened Common
  import opened ObjMonitor
  import opened OptFlow
  import opened Analyzer

  /** What one frame does to an object: `before` comes before the tick or the scan, and `passes` is how
      often the scan passes over the object. */
  datatype Frame = Frame(cfg: Config, before: History, second: bool, evaluated: bool, average: int,
                         records: Records, rgb: bool, moveSpeed: int, passes: nat)

  /** Everything but ticks, flow and triggers. */
  ghost predicate Quiet(e: Event) {
    !e.Second? && !e.FlowRecord? && !e.Notify? && (e.Clear? ==> e.cfg.optFlowApply)
  }

  ghost predicate AllQuiet(es: History) {
    es == [] || (AllQuiet(Front(es)) && Quiet(Last(es)))
  }

  ghost function FrameEvents(f: Frame): History {
    f.before +
    if f.second then SecondEvents(f.cfg, f.evaluated, f.average, f.records, f.rgb, f.moveSpeed, f.passes)
    else Times(FlowEvents(f.cfg, f.records, false, f.rgb, f.moveSpeed), f.passes)
  }

  /** The object as the scan finds it. */
  ghost function AtScan(o: Obj, f: Frame): Obj
    requires ValidAvg(o.tempAvg)
  {
    var quiet := RunFrom(o, f.before);
    if f.second then Warm(quiet, f.cfg, f.evaluated, f.average) else quiet
  }

  /** A frame with the switch on, in which the scan passes over the object if and only if it finds it
      flagged (PassesExactly); a one-second frame has a flow record. */
  ghost predicate Regular(o: Obj, f: Frame)
    requires ValidAvg(o.tempAvg)
  {
    && f.cfg.optFlowApply && AllQuiet(f.before)
    && (f.second ==> HasRecord(f.records))
    && (f.passes > 0 <==> AtScan(o, f).doOptFlow)
  }

  /** Frames one after another. */
  ghost function Played(o: Obj, frames: seq<Frame>): (r: Obj)
    requires ValidAvg(o.tempAvg)
    ensures ValidAvg(r.tempAvg)
  {
    if frames == [] then o else RunFrom(Played(o, Front(frames)), FrameEvents(Last(frames)))
  }

  ghost predicate AllRegular(o: Obj, frames: seq<Frame>)
    requires ValidAvg(o.tempAvg)
  {
    frames == [] || (AllRegular(o, Front(frames)) && Regular(Played(o, Front(frames)), Last(frames)))
  }

  /** Nothing in the average. */
  predicate Clean(o: Obj) {
    o.optFlowCheckCount == 0 && o.moveSizeAvg == 0.0
  }

  /** No flag, and nothing in the average. */
  predicate Cold(o: Obj) {
    !o.doOptFlow && Clean(o)
  }

  lemma QuietStep(o: Obj, e: Event)
    requires ValidAvg(o.tempAvg) && ValidEvent(e) && Quiet(e) && Cold(o)
    ensures Cold(Apply(o, e))
  {
    hide Tick; hide ProcessFlow; hide Trigger; hide Round;
  }

  lemma {:induction false} QuietKeepsCold(o: Obj, es: History)
    requires ValidAvg(o.tempAvg) && AllQuiet(es) && Cold(o)
    ensures Cold(RunFrom(o, es))
  {
    if es != [] {
      QuietKeepsCold(o, Front(es));
      QuietStep(RunFrom(o, Front(es)), Last(es));
      hide Apply;
    }
  }

  lemma TickIsClean(o: Obj, cfg: Config)
    requires Cold(o) && cfg.optFlowApply
    ensures Clean(Tick(o, cfg))
  {
    RaiseChanges(o.(duration := o.duration + 1), cfg);
    MarkChanges(RaiseIfDue(o.(duration := o.duration + 1), cfg), cfg);
    hide RaiseIfDue; hide MarkFlow;
  }

  lemma WarmIsClean(o: Obj, cfg: Config, evaluated: bool, average: int)
    requires Cold(o) && cfg.optFlowApply
    ensures Clean(Warm(o, cfg, evaluated, average))
  {
    hide Tick;
    TickIsClean(o, cfg);
  }

  lemma FlowEndsCold(o: Obj, cfg: Config, f: Flow, rgb: bool, moveSpeed: int)
    requires f.Valid() && cfg.optFlowApply
    ensures Cold(ProcessFlow(o, cfg, f, true, rgb, moveSpeed))
  {
    hide BoxMotion; hide Confirms;
  }

  lemma {:induction false} RecordsEndCold(o: Obj, cfg: Config, records: Records, rgb: bool, moveSpeed: int)
    requires cfg.optFlowApply && Clean(o)
    ensures Clean(ProcessRecords(o, cfg, records, true, rgb, moveSpeed))
    ensures HasRecord(records) ==> Cold(ProcessRecords(o, cfg, records, true, rgb, moveSpeed))
  {
    hide ProcessFlow;
    if records != [] {
      var before := ProcessRecords(o, cfg, Front(records), true, rgb, moveSpeed);
      RecordsEndCold(o, cfg, Front(records), rgb, moveSpeed);
      HasRecordStep(records);
      if Last(records).Some? {
        FlowEndsCold(before, cfg, Last(records).value, rgb, moveSpeed);
      }
    }
  }

  lemma {:induction false} TimesEndCold(o: Obj, cfg: Config, records: Records, rgb: bool, moveSpeed: int, k: nat)
    requires cfg.optFlowApply && Clean(o) && HasRecord(records) && (o.doOptFlow ==> k > 0)
    ensures Cold(ProcessTimes(o, cfg, records, true, rgb, moveSpeed, k))
  {
    hide ProcessRecords;
    if k > 1 {
      TimesEndCold(o, cfg, records, rgb, moveSpeed, k - 1);
      RecordsEndCold(ProcessTimes(o, cfg, records, true, rgb, moveSpeed, k - 1), cfg, records, rgb, moveSpeed);
    } else if k == 1 {
      RecordsEndCold(o, cfg, records, rgb, moveSpeed);
      assert ProcessTimes(o, cfg, records, true, rgb, moveSpeed, 0) == o;
    }
  }

  lemma TriggerKeepsCold(o: Obj, cfg: Config)
    requires Cold(o)
    ensures Cold(Trigger(o, cfg))
  {
  }

  /** A regular frame leaves the object cold, and between the one-second frames the scan does not pass
      over it. */
  lemma FrameKeepsCold(o: Obj, f: Frame)
    requires ValidAvg(o.tempAvg) && Cold(o) && Regular(o, f)
    ensures Cold(RunFrom(o, FrameEvents(f)))
    ensures Clean(AtScan(o, f))
    ensures !f.second ==> f.passes == 0
  {
    hide RunFrom; hide Warm; hide ProcessTimes; hide Trigger; hide FlowEvents; hide SecondEvents; hide HasRecord;
    var quiet := RunFrom(o, f.before);
    QuietKeepsCold(o, f.before);
    if f.second {
      WarmIsClean(quiet, f.cfg, f.evaluated, f.average);
      TimesEndCold(AtScan(o, f), f.cfg, f.records, f.rgb, f.moveSpeed, f.passes);
      var scanned := ProcessTimes(AtScan(o, f), f.cfg, f.records, true, f.rgb, f.moveSpeed, f.passes);
      TriggerKeepsCold(scanned, f.cfg);
      SecondIsHistory(quiet, f.cfg, f.evaluated, f.average, f.records, f.rgb, f.moveSpeed, f.passes);
      RunFromAppend(o, f.before,
                    SecondEvents(f.cfg, f.evaluated, f.average, f.records, f.rgb, f.moveSpeed, f.passes));
    } else {
      assert FrameEvents(f) == f.before;
    }
  }

  /** Over any run of regular frames from a fresh object, no frame between the one-second ones is ever
      passed over, and every one-second scan starts with an empty average: what repeated passes over
      a frame could do (LastSlotRepeats) needs a one-second frame without a record, or the switch off. */
  lemma {:induction false} FramesAreMeasuredAlone(frames: seq<Frame>, i: nat)
    requires AllRegular(ZERO, frames) && i < |frames|
    ensures Cold(Played(ZERO, frames))
    ensures Clean(AtScan(Played(ZERO, frames[..i]), frames[i]))
    ensures !frames[i].second ==> frames[i].passes == 0
  {
    hide Cold; hide Clean; hide RunFrom; hide AtScan; hide Regular; hide FrameEvents;
    ColdAtFirst();
    FramesEndCold(Front(frames));
    FrameKeepsCold(Played(ZERO, Front(frames)), Last(frames));
    if i < |frames| - 1 {
      FramesAreMeasuredAlone(Front(frames), i);
      assert Front(frames)[..i] == frames[..i];
    } else {
      assert frames[..i] == Front(frames);
    }
  }

  lemma ColdAtFirst()
    ensures Cold(ZERO)
  {
  }

  lemma {:induction false} FramesEndCold(frames: seq<Frame>)
    requires AllRegular(ZERO, frames)
    ensures Cold(Played(ZERO, frames))
  {
    hide Cold; hide Clean; hide RunFrom; hide AtScan; hide Regular; hide FrameEvents;
    ColdAtFirst();
    if frames != [] {
      FramesEndCold(Front(frames));
      FrameKeepsCold(Played(ZERO, Front(frames)), Last(frames));
    }
  }

  /** So the mean that a record is compared with is the motion of that record alone: it starts empty,
      and after the record it is empty again for the next one. */
  lemma MeanOfOneRecord(o: Obj, cfg: Config, f: Flow, rgb: bool, moveSpeed: int)
    requires f.Valid() && cfg.optFlowApply && Clean(o)
    ensures AddMotion(o, BoxMotion(o, f)).moveSizeAvg == match BoxMotion(o, f) case Some(m) => m case None => 0.0
    ensures Cold(ProcessFlow(o, cfg, f, true, rgb, moveSpeed))
  {
    hide BoxMotion;
    FlowEndsCold(o, cfg, f, rgb, moveSpeed);
  }
}
