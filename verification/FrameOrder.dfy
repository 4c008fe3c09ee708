/** What follows from the order of the steps inside a one-second frame. */
module FrameOrder {
  import opened Common
  import opened ObjMonitor
  import opened Debounce
  import opened OptFlow
  import opened Analyzer
  import ObjHistory

  /** Signs that the scan leaves alone. */
  predicate SameSigns(o: Obj, r: Obj) {
    r.classId == o.classId && r.notificationFlag == o.notificationFlag && r.tempEventTimeGap == o.tempEventTimeGap
  }

  lemma {:induction false} RecordsKeepSigns(o: Obj, cfg: Config, records: Records, rgb: bool, moveSpeed: int)
    ensures SameSigns(o, ProcessRecords(o, cfg, records, true, rgb, moveSpeed))
  {
    hide ProcessFlow;
    if records != [] {
      RecordsKeepSigns(o, cfg, Front(records), rgb, moveSpeed);
      if Last(records).Some? {
        ObjHistory.FlowSigns(ProcessRecords(o, cfg, Front(records), true, rgb, moveSpeed), cfg, Last(records).value,
                             true, rgb, moveSpeed);
      }
    }
  }

  lemma {:induction false} PassesKeepSigns(o: Obj, cfg: Config, records: Records, rgb: bool, moveSpeed: int, k: nat)
    ensures SameSigns(o, ProcessTimes(o, cfg, records, true, rgb, moveSpeed, k))
  {
    hide ProcessRecords;
    if k > 0 {
      PassesKeepSigns(o, cfg, records, rgb, moveSpeed, k - 1);
      RecordsKeepSigns(ProcessTimes(o, cfg, records, true, rgb, moveSpeed, k - 1), cfg, records, rgb, moveSpeed);
    }
  }

  lemma AfterSecondSigns(o: Obj, cfg: Config, evaluated: bool, average: int, records: Records, rgb: bool,
                         moveSpeed: int, passes: nat)
    ensures var warm := Warm(o, cfg, evaluated, average);
            var r := AfterSecond(o, cfg, evaluated, average, records, rgb, moveSpeed, passes);
            && r.classId == warm.classId
            && (warm.notificationFlag && !(cfg.optFlowApply && warm.classId == FlipCow) ==> r.tempEventTimeGap == 300)
  {
    hide Warm; hide ProcessTimes; hide Trigger;
    var warm := Warm(o, cfg, evaluated, average);
    PassesKeepSigns(warm, cfg, records, rgb, moveSpeed, passes);
    ObjHistory.TriggerSigns(ProcessTimes(warm, cfg, records, true, rgb, moveSpeed, passes), cfg);
  }

  /** An over-temperature event is notified in the frame that raises it: the pass comes before the triggers. */
  lemma OverTempIsNotified(o: Obj, cfg: Config, average: int, records: Records, rgb: bool, moveSpeed: int, passes: nat)
    requires RaisesOverTemp(Tick(o, cfg), cfg, average)
    ensures var r := AfterSecond(o, cfg, true, average, records, rgb, moveSpeed, passes);
            r.classId == OverTemp && r.tempEventTimeGap == 300
  {
    hide Tick; hide TempPass;
    AfterSecondSigns(o, cfg, true, average, records, rgb, moveSpeed, passes);
    ObjHistory.TempSigns(Tick(o, cfg), cfg, average);
  }

  /** A raise that stands is notified in its own frame, except a FLIP that the scan has not confirmed.
      An evaluated pass that finds the object not hot comes behind the tick: it takes the class away,
      and with it the need for a confirmation, but not the raise. */
  lemma RaiseIsNotified(o: Obj, cfg: Config, evaluated: bool, average: int, records: Records, rgb: bool,
                        moveSpeed: int, passes: nat)
    requires Raises(o, cfg) && (ChecksHeat(o, cfg) ==> o.heatCount >= HEAT_COUNT_THRESHOLD)
    requires !(cfg.optFlowApply && o.classId == FlipCow) || (evaluated && !Hot(Tick(o, cfg), cfg, average))
    ensures var r := AfterSecond(o, cfg, evaluated, average, records, rgb, moveSpeed, passes);
            r.tempEventTimeGap == 300
            && (evaluated && !Hot(Tick(o, cfg), cfg, average) ==> r.classId == NormalCow)
  {
    hide Tick; hide TempPass; hide Raises; hide Hot; hide RaisesOverTemp; hide ChecksHeat;
    AfterSecondSigns(o, cfg, evaluated, average, records, rgb, moveSpeed, passes);
    ObjHistory.TickSigns(o, cfg);
    ObjHistory.TempSigns(Tick(o, cfg), cfg, average);
  }
}
