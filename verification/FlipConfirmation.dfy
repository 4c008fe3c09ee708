/** Optical-flow confirmation of FLIP events, over every history of one object. */
module FlipConfirmation {
  import opened Common
  import opened NewtonSqrt
  import opened ObjMonitor
  import opened Debounce
  import opened OptFlow

  predicate FlowOnFor(e: Event) {
    match e
    case Second(cfg) => cfg.optFlowApply
    case Clear(cfg) => cfg.optFlowApply
    case FlowRecord(cfg, _, _, _, _) => cfg.optFlowApply
    case Notify(cfg) => cfg.optFlowApply
    case _ => true
  }

  /** The optical-flow switch stays on. */
  predicate FlowOn(es: seq<Event>) {
    es == [] || (FlowOn(Front(es)) && FlowOnFor(Last(es)))
  }

  /** A one-second flow record that confirms motion inside a resting box. */
  ghost predicate ConfirmsNow(o: Obj, e: Event)
    requires ValidEvent(e)
  {
    e.FlowRecord? && e.second && Confirms(AddMotion(o, BoxMotion(o, e.f)), e.cfg, e.rgb, e.moveSpeed)
  }

  /** A raised FLIP flag is taken down, confirmed or not. */
  predicate TriggersFlip(o: Obj) {
    o.notificationFlag && o.classId == FlipCow
  }

  /** Confirmations since the last tick without enough detections, reset, or FLIP trigger. */
  ghost function Confirmations(es: History): nat {
    if es == [] then 0 else
    var before, o, e := Confirmations(Front(es)), Run(Front(es)), Last(es);
    match e
    case FlowRecord(_, _, _, _, _) => if ConfirmsNow(o, e) then before + 1 else before
    case Second(_) => if Detections(Front(es)) >= PER_CAM_SEC_FRAME - 1 then before else 0
    case Clear(_) => 0
    case Notify(_) => if TriggersFlip(o) then 0 else before
    case _ => before
  }

  lemma TickConfirmations(o: Obj, cfg: Config)
    requires cfg.optFlowApply
    ensures Tick(o, cfg).optFlowDetectedCount == if Enough(o) then o.optFlowDetectedCount else 0
  {
    RaiseChanges(o.(duration := o.duration + 1), cfg);
    MarkChanges(RaiseIfDue(o.(duration := o.duration + 1), cfg), cfg);
    hide RaiseIfDue; hide MarkFlow;
  }

  lemma FlowConfirmations(o: Obj, e: Event)
    requires ValidEvent(e) && e.FlowRecord?
    ensures ProcessFlow(o, e.cfg, e.f, e.second, e.rgb, e.moveSpeed).optFlowDetectedCount ==
            o.optFlowDetectedCount + if ConfirmsNow(o, e) then 1 else 0
  {
    hide BoxMotion; hide Confirms;
  }

  lemma TriggerConfirmations(o: Obj, cfg: Config)
    requires cfg.optFlowApply
    ensures Trigger(o, cfg).optFlowDetectedCount == if TriggersFlip(o) then 0 else o.optFlowDetectedCount
  {
  }

  lemma {:induction false} CountIsConfirmations(es: History)
    requires FlowOn(es)
    ensures Run(es).optFlowDetectedCount == Confirmations(es)
  {
    hide Tick; hide ProcessFlow; hide Trigger;
    if es != [] {
      var o, e := Run(Front(es)), Last(es);
      CountIsConfirmations(Front(es));
      CountersMatch(Front(es));
      match e
      case Second(cfg) => TickConfirmations(o, cfg);
      case Notify(cfg) => TriggerConfirmations(o, cfg);
      case FlowRecord(_, _, _, _, _) => FlowConfirmations(o, e);
      case _ =>
    }
  }

  /** A raised FLIP object gets through to the notification step exactly when at least two
      confirmations were counted since its last broken tick, reset or FLIP trigger; the step then
      starts the 300-count gap, and either way the count starts over. */
  lemma FlipNeedsTwoConfirmations(es: History, cfg: Config)
    requires FlowOn(es) && cfg.optFlowApply && TriggersFlip(Run(es))
    ensures Fires(Run(es), cfg) <==> Confirmations(es) >= 2
    ensures Confirmations(es + [Notify(cfg)]) == 0
    ensures var before, after := Run(es), Run(es + [Notify(cfg)]);
            && !after.notificationFlag
            && after.tempEventTimeGap == if Confirmations(es) >= 2 then TEMP_EVENT_TIME_GAP else before.tempEventTimeGap
  {
    assert Front(es + [Notify(cfg)]) == es;
    CountIsConfirmations(es);
  }

  /** What a confirmation says: the box moved and changed by less than 30 pixels in the exact
      Euclidean sense (or has no earlier place), the camera stands still, the motion in it is above
      the threshold, which is raised for small boxes and for the RGB camera. */
  lemma ConfirmsExactly(o: Obj, cfg: Config, rgb: bool, moveSpeed: int)
    ensures Confirms(o, cfg, rgb, moveSpeed) <==>
            && (o.prevX == 0 || o.prevY == 0
                || (o.prevX - o.x) * (o.prevX - o.x) + (o.prevY - o.y) * (o.prevY - o.y) < 900)
            && (o.prevWidth == 0 || o.prevHeight == 0
                || (o.prevWidth - o.width) * (o.prevWidth - o.width)
                    + (o.prevHeight - o.height) * (o.prevHeight - o.height) < 900)
            && moveSpeed == 0
            && o.moveSizeAvg > (cfg.optFlowThreshold + CorrectionValue(o.diagonal) + if rgb then 9 else 0) as real
  {
    hide Change;
    ChangeBelow(o.prevX, o.prevY, o.x, o.y, 30);
    ChangeBelow(o.prevWidth, o.prevHeight, o.width, o.height, 30);
  }

  // ---------------------------------------------------------------------
  // The running average is the mean of the frames since it was last cleared.
  // ---------------------------------------------------------------------

  function Sum(xs: seq<real>): real {
    if xs == [] then 0.0 else Sum(Front(xs)) + Last(xs)
  }

  /** `o` has averaged exactly the motions `xs`. */
  ghost predicate Averages(o: Obj, xs: seq<real>) {
    o.optFlowCheckCount == |xs| && o.moveSizeAvg * |xs| as real == Sum(xs) && (xs == [] ==> o.moveSizeAvg == 0.0)
  }

  /** Mean box motions of the flow records processed since the average was last cleared; a record that
      the scan passes over several times is processed, and listed, as often. */
  ghost function Motions(es: History): seq<real> {
    if es == [] then [] else
    var before, o, e := Motions(Front(es)), Run(Front(es)), Last(es);
    match e
    case FlowRecord(_, f, second, _, _) =>
      if second then [] else
      (match BoxMotion(o, f) case None => before case Some(m) => before + [m])
    case Second(cfg) => if Enough(o) && o.classId == FlipCow then before else []
    case Clear(_) => []
    case Notify(_) => if TriggersFlip(o) then [] else before
    case _ => before
  }

  lemma AverageOfOneMore(previous: real, n: nat, sum: real, m: real)
    requires previous * n as real == sum
    ensures UpdateAverage(previous, n + 1, m) * (n + 1) as real == sum + m
  {
    assert (n + 1) as real - 1.0 == n as real;
  }

  lemma AddMotionAverages(o: Obj, xs: seq<real>, m: real)
    requires Averages(o, xs)
    ensures Averages(AddMotion(o, Some(m)), xs + [m])
  {
    AverageOfOneMore(o.moveSizeAvg, |xs|, Sum(xs), m);
    assert Front(xs + [m]) == xs;
  }

  lemma FlowAverages(o: Obj, e: Event, xs: seq<real>)
    requires ValidEvent(e) && e.FlowRecord? && e.cfg.optFlowApply && Averages(o, xs)
    ensures var m := BoxMotion(o, e.f);
            Averages(ProcessFlow(o, e.cfg, e.f, e.second, e.rgb, e.moveSpeed),
                     if e.second then [] else if m.Some? then xs + [m.value] else xs)
  {
    hide BoxMotion; hide Confirms;
    var m := BoxMotion(o, e.f);
    if m.Some? {
      AddMotionAverages(o, xs, m.value);
    }
  }

  lemma TickAverages(o: Obj, cfg: Config, xs: seq<real>)
    requires cfg.optFlowApply && Averages(o, xs)
    ensures Averages(Tick(o, cfg), if Enough(o) && o.classId == FlipCow then xs else [])
  {
    RaiseChanges(o.(duration := o.duration + 1), cfg);
    MarkChanges(RaiseIfDue(o.(duration := o.duration + 1), cfg), cfg);
    hide RaiseIfDue; hide MarkFlow;
  }

  lemma TriggerAverages(o: Obj, cfg: Config, xs: seq<real>)
    requires cfg.optFlowApply && Averages(o, xs)
    ensures Averages(Trigger(o, cfg), if TriggersFlip(o) then [] else xs)
  {
  }

  lemma OtherAverages(o: Obj, e: Event, xs: seq<real>)
    requires ValidAvg(o.tempAvg) && ValidEvent(e) && Averages(o, xs)
    requires !e.Second? && !e.Notify? && !e.FlowRecord? && !e.Clear?
    ensures Averages(Apply(o, e), xs)
  {
    hide Tick; hide ProcessFlow; hide Trigger; hide Reset;
  }

  /** In every history the running average is the mean of exactly these motions. */
  lemma {:induction false} AverageIsMean(es: History)
    requires FlowOn(es)
    ensures Averages(Run(es), Motions(es))
  {
    hide Tick; hide ProcessFlow; hide Trigger;
    if es != [] {
      var o, e, xs := Run(Front(es)), Last(es), Motions(Front(es));
      AverageIsMean(Front(es));
      match e
      case Second(cfg) => TickAverages(o, cfg, xs);
      case Notify(cfg) => TriggerAverages(o, cfg, xs);
      case FlowRecord(_, _, _, _, _) => FlowAverages(o, e, xs);
      case Clear(cfg) =>
      case _ => OtherAverages(o, e, xs);
    }
  }

  function Copies(m: Option<real>, k: nat): (r: seq<real>) {
    if k == 0 || m == None then [] else Copies(m, k - 1) + [m.value]
  }

  lemma FlowKeepsBox(o: Obj, cfg: Config, f: Flow, rgb: bool, moveSpeed: int)
    requires f.Valid()
    ensures BoxMotion(ProcessFlow(o, cfg, f, false, rgb, moveSpeed), f) == BoxMotion(o, f)
  {
    hide SumRect; hide Span;
  }

  lemma OnePass(es: History, cfg: Config, f: Flow, rgb: bool, moveSpeed: int)
    requires f.Valid()
    ensures var longer := es + [FlowRecord(cfg, f, false, rgb, moveSpeed)];
            && Motions(longer) == Motions(es) + Copies(BoxMotion(Run(es), f), 1)
            && BoxMotion(Run(longer), f) == BoxMotion(Run(es), f)
  {
    hide BoxMotion; hide Apply;
    var e := FlowRecord(cfg, f, false, rgb, moveSpeed);
    assert Front(es + [e]) == es;
    RunOne(ZERO, es, e);
    ApplyFlowRecord(Run(es), cfg, f, false, rgb, moveSpeed);
    FlowKeepsBox(Run(es), cfg, f, rgb, moveSpeed);
  }

  /** Between the one-second frames, `k` passes of the scan over a frame with one flow record put the
      same motion into the average `k` times; PassesExactly and LastSlotRepeats say how large `k` gets. */
  lemma {:induction false} PassesRepeatMotion(es: History, cfg: Config, f: Flow, rgb: bool, moveSpeed: int, k: nat)
    requires f.Valid()
    ensures var again := Times([FlowRecord(cfg, f, false, rgb, moveSpeed)], k);
            && Motions(es + again) == Motions(es) + Copies(BoxMotion(Run(es), f), k)
            && BoxMotion(Run(es + again), f) == BoxMotion(Run(es), f)
  {
    hide BoxMotion; hide Motions; hide Run;
    var one: History := [FlowRecord(cfg, f, false, rgb, moveSpeed)];
    if k == 0 {
      assert es + [] == es;
    } else {
      PassesRepeatMotion(es, cfg, f, rgb, moveSpeed, k - 1);
      OnePass(es + Times(one, k - 1), cfg, f, rgb, moveSpeed);
      assert es + Times(one, k) == es + Times(one, k - 1) + one;
    }
  }
}
