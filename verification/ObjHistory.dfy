/** What the record of one object shows, field by field, read off its history. */
module ObjHistory {
  import opened Common
  import opened NewtonSqrt
  import opened ObjMonitor
  import opened Debounce
  import opened FlipConfirmation

  // ---------------------------------------------------------------------
  // Class, notification flag and gap.
  // ---------------------------------------------------------------------

  /** A tick raises the flag, unless the heat check finds no classifier hit. */
  ghost predicate TickRaises(es: History, cfg: Config) {
    Raises(Run(es), cfg) && (ChecksHeat(Run(es), cfg) ==> HeatHits(es) >= 1)
  }

  /** The class of the last detection, frame or event that set one. */
  ghost function ClassOf(es: History): Class {
    if es == [] then NormalCow else
    var before, o := ClassOf(Front(es)), Run(Front(es));
    match Last(es)
    case Rect(c, _, _, _, _) => c
    case Gather(c) => if c == NormalCow || c == NormalCowSitting then before else c
    case Clear(_) => NormalCow
    case Temperature(cfg, average) =>
      if !Hot(o, cfg, average) then NormalCow else if RaisesOverTemp(o, cfg, average) then OverTemp else before
    case _ => before
  }

  /** Whether something was raised since the last trigger. */
  ghost function FlagOf(es: History): bool {
    if es == [] then false else
    var before := FlagOf(Front(es));
    match Last(es)
    case Second(cfg) => if Raises(Run(Front(es)), cfg) then TickRaises(Front(es), cfg) else before
    case Temperature(cfg, average) => before || RaisesOverTemp(Run(Front(es)), cfg, average)
    case Notify(_) => false
    case _ => before
  }

  /** The gap left: 300 from the last notification, less the gap ticks since. */
  ghost function GapOf(es: History): nat {
    if es == [] then 0 else
    var before := GapOf(Front(es));
    match Last(es)
    case Notify(cfg) => if Fires(Run(Front(es)), cfg) then 300 else before
    case GapTick => if before > 0 then before - 1 else 0
    case _ => before
  }

  lemma TickSigns(o: Obj, cfg: Config)
    ensures var r := Tick(o, cfg);
            && r.classId == o.classId && r.tempEventTimeGap == o.tempEventTimeGap
            && r.notificationFlag ==
               if Raises(o, cfg) then ChecksHeat(o, cfg) ==> o.heatCount >= 1 else o.notificationFlag
  {
    RaiseChanges(o.(duration := o.duration + 1), cfg);
    MarkChanges(RaiseIfDue(o.(duration := o.duration + 1), cfg), cfg);
    hide RaiseIfDue; hide MarkFlow;
  }

  lemma FlowSigns(o: Obj, cfg: Config, f: Flow, second: bool, rgb: bool, moveSpeed: int)
    requires f.Valid()
    ensures var r := ProcessFlow(o, cfg, f, second, rgb, moveSpeed);
            r.classId == o.classId && r.tempEventTimeGap == o.tempEventTimeGap
            && r.notificationFlag == o.notificationFlag
  {
    hide BoxMotion; hide Confirms;
  }

  lemma TriggerSigns(o: Obj, cfg: Config)
    ensures var r := Trigger(o, cfg);
            && r.classId == o.classId && !r.notificationFlag
            && r.tempEventTimeGap == if Fires(o, cfg) then 300 else o.tempEventTimeGap
  {
  }

  lemma TempSigns(o: Obj, cfg: Config, average: int)
    ensures var r := TempPass(o, cfg, average);
            && r.tempEventTimeGap == o.tempEventTimeGap
            && r.notificationFlag == (o.notificationFlag || RaisesOverTemp(o, cfg, average))
            && r.classId == if !Hot(o, cfg, average) then NormalCow
                            else if RaisesOverTemp(o, cfg, average) then OverTemp else o.classId
  {
  }

  lemma OtherSigns(o: Obj, e: Event)
    requires ValidAvg(o.tempAvg) && ValidEvent(e)
    requires !e.Second? && !e.FlowRecord? && !e.Notify? && !e.Temperature?
    ensures var r := Apply(o, e);
            && r.notificationFlag == o.notificationFlag
            && r.tempEventTimeGap ==
                (if e.GapTick? && o.tempEventTimeGap > 0 then o.tempEventTimeGap - 1 else o.tempEventTimeGap)
            && r.classId == match e
                            case Rect(c, _, _, _, _) => c
                            case Gather(c) => if c == NormalCow || c == NormalCowSitting then o.classId else c
                            case Clear(_) => NormalCow
                            case _ => o.classId
  {
    hide Tick; hide ProcessFlow; hide Trigger; hide TempPass; hide Round; hide Hypot;
  }

  lemma SignsStep(o: Obj, e: Event)
    requires ValidAvg(o.tempAvg) && ValidEvent(e)
    ensures e.Second? ==> Apply(o, e) == Tick(o, e.cfg)
    ensures e.Notify? ==> Apply(o, e) == Trigger(o, e.cfg)
    ensures e.Temperature? ==> Apply(o, e) == TempPass(o, e.cfg, e.average)
    ensures e.FlowRecord? ==> Apply(o, e) == ProcessFlow(o, e.cfg, e.f, e.second, e.rgb, e.moveSpeed)
  {
    hide Tick; hide ProcessFlow; hide Trigger; hide TempPass; hide Reset; hide AddValue; hide SetRect;
    hide AddCorrection;
  }

  /** In every history class, flag and gap are what the history says. */
  lemma {:induction false} SignsMatch(es: History)
    ensures Run(es).classId == ClassOf(es)
    ensures Run(es).notificationFlag == FlagOf(es)
    ensures Run(es).tempEventTimeGap == GapOf(es)
  {
    hide Apply; hide Tick; hide ProcessFlow; hide Trigger; hide TempPass;
    if es != [] {
      var o, e := Run(Front(es)), Last(es);
      SignsMatch(Front(es));
      CountersMatch(Front(es));
      SignsStep(o, e);
      hide Raises; hide Fires; hide RaisesOverTemp; hide Hot; hide ChecksHeat;
      match e
      case Second(cfg) => TickSigns(o, cfg);
      case FlowRecord(cfg, f, second, rgb, moveSpeed) => FlowSigns(o, cfg, f, second, rgb, moveSpeed);
      case Notify(cfg) => TriggerSigns(o, cfg);
      case Temperature(cfg, average) => TempSigns(o, cfg, average);
      case _ => OtherSigns(o, e);
    }
  }

  /** A trigger takes the flag down, whatever the class. A raised object that is no FLIP, or any with
      the switch off, gets through; and only a raised one is touched at all. */
  lemma TriggerIsExact(es: History, cfg: Config)
    ensures !Run(es + [Notify(cfg)]).notificationFlag
    ensures Fires(Run(es), cfg) <==>
            FlagOf(es) && (cfg.optFlowApply && ClassOf(es) == FlipCow ==> Run(es).optFlowDetectedCount >= 2)
    ensures Fires(Run(es), cfg) ==> Run(es + [Notify(cfg)]).tempEventTimeGap == 300
    ensures !FlagOf(es) ==> Run(es + [Notify(cfg)]) == Run(es)
  {
    SignsMatch(es);
    RunOne(ZERO, es, Notify(cfg));
    SignsStep(Run(es), Notify(cfg));
    TriggerSigns(Run(es), cfg);
    hide Apply;
  }

  // ---------------------------------------------------------------------
  // The optical-flow flag.
  // ---------------------------------------------------------------------

  lemma TickFlowFlag(o: Obj, cfg: Config)
    requires cfg.optFlowApply
    ensures Tick(o, cfg).doOptFlow <==> Enough(o) && o.classId == FlipCow
  {
    RaiseChanges(o.(duration := o.duration + 1), cfg);
    MarkChanges(RaiseIfDue(o.(duration := o.duration + 1), cfg), cfg);
    hide RaiseIfDue; hide MarkFlow;
  }

  /** With the switch on, a tick flags the object for the scan if and only if it found enough
      detections and a FLIP. */
  lemma FlowFlagIsExact(es: History, cfg: Config)
    requires cfg.optFlowApply
    ensures Run(es + [Second(cfg)]).doOptFlow <==> Detections(es) >= PER_CAM_SEC_FRAME - 1 && ClassOf(es) == FlipCow
  {
    hide Apply; hide Tick;
    CountersMatch(es);
    SignsMatch(es);
    RunOne(ZERO, es, Second(cfg));
    SignsStep(Run(es), Second(cfg));
    TickFlowFlag(Run(es), cfg);
  }

  // ---------------------------------------------------------------------
  // The box, and the box it is compared with.
  // ---------------------------------------------------------------------

  datatype Box = Box(x: int, y: int, width: int, height: int)

  const NO_BOX: Box := Box(0, 0, 0, 0)

  function Now(o: Obj): Box {
    Box(o.x, o.y, o.width, o.height)
  }

  function Before(o: Obj): Box {
    Box(o.prevX, o.prevY, o.prevWidth, o.prevHeight)
  }

  /** Everything measured is forgotten: on a tick without enough detections, a reset, or a FLIP trigger. */
  ghost predicate Forgets(es: History, e: Event) {
    match e
    case Second(cfg) => cfg.optFlowApply && Detections(es) < PER_CAM_SEC_FRAME - 1
    case Clear(cfg) => cfg.optFlowApply
    case Notify(cfg) => cfg.optFlowApply && FlagOf(es) && ClassOf(es) == FlipCow
    case _ => false
  }

  /** The box of the last detection since. */
  ghost function BoxOf(es: History): Box {
    if es == [] || Forgets(Front(es), Last(es)) then NO_BOX
    else if Last(es).Rect? then Box(Last(es).x, Last(es).y, Last(es).width, Last(es).height)
    else BoxOf(Front(es))
  }

  /** The box that the object had when a one-second flow record last measured it since. */
  ghost function MeasuredBox(es: History): Box {
    if es == [] || Forgets(Front(es), Last(es)) then NO_BOX
    else if Last(es).FlowRecord? && Last(es).second then BoxOf(Front(es))
    else MeasuredBox(Front(es))
  }

  /** The diagonal of the last detection. */
  ghost function DiagonalOf(es: History): real {
    if es == [] then 0.0
    else if Last(es).Rect? then Hypot(Last(es).width as real, Last(es).height as real)
    else DiagonalOf(Front(es))
  }

  lemma TickBoxes(o: Obj, cfg: Config)
    ensures var r := Tick(o, cfg);
            && Now(r) == (if cfg.optFlowApply && !Enough(o) then NO_BOX else Now(o))
            && Before(r) == (if cfg.optFlowApply && !Enough(o) then NO_BOX else Before(o))
            && r.diagonal == o.diagonal
  {
    RaiseChanges(o.(duration := o.duration + 1), cfg);
    MarkChanges(RaiseIfDue(o.(duration := o.duration + 1), cfg), cfg);
    hide RaiseIfDue; hide MarkFlow;
  }

  lemma FlowBoxes(o: Obj, cfg: Config, f: Flow, second: bool, rgb: bool, moveSpeed: int)
    requires f.Valid()
    ensures var r := ProcessFlow(o, cfg, f, second, rgb, moveSpeed);
            Now(r) == Now(o) && Before(r) == (if second then Now(o) else Before(o)) && r.diagonal == o.diagonal
  {
    hide BoxMotion; hide Confirms;
  }

  lemma TriggerBoxes(o: Obj, cfg: Config)
    ensures var r := Trigger(o, cfg);
            var forgets := cfg.optFlowApply && o.notificationFlag && o.classId == FlipCow;
            && Now(r) == (if forgets then NO_BOX else Now(o))
            && Before(r) == (if forgets then NO_BOX else Before(o))
            && r.diagonal == o.diagonal
  {
  }

  lemma TempBoxes(o: Obj, cfg: Config, average: int)
    ensures var r := TempPass(o, cfg, average); Now(r) == Now(o) && Before(r) == Before(o) && r.diagonal == o.diagonal
  {
  }

  lemma OtherBoxes(o: Obj, e: Event)
    requires ValidAvg(o.tempAvg) && ValidEvent(e)
    requires !e.Second? && !e.FlowRecord? && !e.Notify? && !e.Temperature?
    ensures var r := Apply(o, e);
            var forgets := e.Clear? && e.cfg.optFlowApply;
            && Now(r) == (if forgets then NO_BOX else if e.Rect? then Box(e.x, e.y, e.width, e.height) else Now(o))
            && Before(r) == (if forgets then NO_BOX else Before(o))
            && r.diagonal == if e.Rect? then Hypot(e.width as real, e.height as real) else o.diagonal
  {
    hide Tick; hide ProcessFlow; hide Trigger; hide TempPass; hide Round; hide Hypot;
  }

  /** In every history the box, the box it is compared with, and the diagonal are what the history says. */
  lemma {:induction false} BoxesMatch(es: History)
    ensures Now(Run(es)) == BoxOf(es) && Before(Run(es)) == MeasuredBox(es)
    ensures Run(es).diagonal == DiagonalOf(es)
  {
    hide Apply; hide Tick; hide ProcessFlow; hide Trigger; hide TempPass; hide Hypot;
    if es != [] {
      var o, e := Run(Front(es)), Last(es);
      BoxesMatch(Front(es));
      CountersMatch(Front(es));
      SignsMatch(Front(es));
      SignsStep(o, e);
      hide ClassOf; hide FlagOf; hide Detections;
      match e
      case Second(cfg) => TickBoxes(o, cfg);
      case FlowRecord(cfg, f, second, rgb, moveSpeed) => FlowBoxes(o, cfg, f, second, rgb, moveSpeed);
      case Notify(cfg) => TriggerBoxes(o, cfg);
      case Temperature(cfg, average) => TempBoxes(o, cfg, average);
      case _ => OtherBoxes(o, e);
    }
  }
}
