/** The table of tracked objects and the loops over it that run once a frame or once a second. */
module Analyzer {
  import opened Common
  import opened NewtonSqrt
  import opened ObjMonitor
  import opened OptFlow
  import Thermal
  import ObjHistory
  import Debounce

  const RGB_CAM: nat := 0
  const THERMAL_CAM: nat := 1

  // ---------------------------------------------------------------------
  // A one-second frame, for one object.
  // ---------------------------------------------------------------------

  /** The truncated mean of the temperatures, 0 without any. */
  function MeanOf(temps: seq<int>): int {
    if temps == [] then 0 else Quotient(Thermal.SumOf(temps), |temps|)
  }

  /** The object when the scan of the frame begins. */
  function Warm(o: Obj, cfg: Config, evaluated: bool, average: int): Obj {
    if evaluated then TempPass(Tick(o, cfg), cfg, average) else Tick(o, cfg)
  }

  /** What a one-second frame does to one object, in the order it happens, when the scan passes over it
      `passes` times. */
  ghost function AfterSecond(o: Obj, cfg: Config, evaluated: bool, average: int, records: Records, rgb: bool,
                             moveSpeed: int, passes: nat): Obj {
    Trigger(ProcessTimes(Warm(o, cfg, evaluated, average), cfg, records, true, rgb, moveSpeed, passes), cfg)
  }

  ghost function StartEvents(cfg: Config, evaluated: bool, average: int): History {
    [Second(cfg)] + if evaluated then [Temperature(cfg, average)] else []
  }

  /** The history that the frame appends to the object's own. */
  ghost function SecondEvents(cfg: Config, evaluated: bool, average: int, records: Records, rgb: bool, moveSpeed: int,
                              passes: nat): History {
    StartEvents(cfg, evaluated, average) + Times(FlowEvents(cfg, records, true, rgb, moveSpeed), passes) + [Notify(cfg)]
  }

  lemma StartIsHistory(o: Obj, cfg: Config, evaluated: bool, average: int)
    requires ValidAvg(o.tempAvg)
    ensures RunFrom(o, StartEvents(cfg, evaluated, average)) == Warm(o, cfg, evaluated, average)
  {
    hide Tick; hide TempPass; hide RunFrom;
    RunIs(o, Second(cfg));
    if evaluated {
      RunFromAppend(o, [Second(cfg)], [Temperature(cfg, average)]);
      RunIs(RunFrom(o, [Second(cfg)]), Temperature(cfg, average));
    } else {
      assert [Second(cfg)] + [] == [Second(cfg)];
    }
  }

  lemma SecondAppends(past: History, cfg: Config, evaluated: bool, average: int, records: Records, rgb: bool,
                      moveSpeed: int, passes: nat)
    ensures past + StartEvents(cfg, evaluated, average) + Times(FlowEvents(cfg, records, true, rgb, moveSpeed), passes)
            + [Notify(cfg)]
            == past + SecondEvents(cfg, evaluated, average, records, rgb, moveSpeed, passes)
  {
    hide StartEvents; hide FlowEvents; hide Times;
  }

  /** Every one-second frame is a stretch of the object's history. */
  lemma SecondIsHistory(o: Obj, cfg: Config, evaluated: bool, average: int, records: Records, rgb: bool,
                        moveSpeed: int, passes: nat)
    requires ValidAvg(o.tempAvg)
    ensures RunFrom(o, SecondEvents(cfg, evaluated, average, records, rgb, moveSpeed, passes)) ==
            AfterSecond(o, cfg, evaluated, average, records, rgb, moveSpeed, passes)
  {
    hide Warm; hide StartEvents; hide ProcessTimes; hide FlowEvents; hide Times; hide Trigger; hide RunFrom;
    var start := StartEvents(cfg, evaluated, average);
    var flow := Times(FlowEvents(cfg, records, true, rgb, moveSpeed), passes);
    StartIsHistory(o, cfg, evaluated, average);
    RunFromAppend(o, start, flow);
    TimesAreEvents(RunFrom(o, start), cfg, records, true, rgb, moveSpeed, passes);
    RunFromAppend(o, start + flow, [Notify(cfg)]);
    RunIs(RunFrom(o, start + flow), Notify(cfg));
  }

  /** At the end of this second the object is a FLIP with enough detections. */
  ghost predicate IsFlipNow(es: History) {
    Debounce.Detections(es) >= PER_CAM_SEC_FRAME - 1 && ObjHistory.ClassOf(es) == FlipCow
  }

  lemma WarmFlag(es: History, cfg: Config, evaluated: bool, average: int)
    requires cfg.optFlowApply
    ensures Warm(Run(es), cfg, evaluated, average).doOptFlow <==> IsFlipNow(es)
  {
    hide Tick; hide Run;
    Debounce.CountersMatch(es);
    ObjHistory.SignsMatch(es);
    ObjHistory.TickFlowFlag(Run(es), cfg);
  }

  /** With the switch on and a flow record, the scan of the same frame passes once over each of them. */
  lemma FlipIsScannedOnce(past: seq<History>, flags: seq<bool>, cfg: Config, evaluated: bool, average: int, i: nat)
    requires cfg.optFlowApply && |flags| == |past| && i < |flags|
    requires forall k :: 0 <= k < |flags| ==> flags[k] == Warm(Run(past[k]), cfg, evaluated, average).doOptFlow
    ensures Count(Visits(flags, true), i) == if IsFlipNow(past[i]) then 1 else 0
  {
    WarmFlag(past[i], cfg, evaluated, average);
    PassesExactly(flags, true, i);
  }

  lemma FlipsAreScannedOnce(row: seq<Obj>, past: seq<History>, flags: seq<bool>, cfg: Config, evaluated: bool,
                            average: int, records: seq<Option<Flow>>)
    requires |row| == |flags| == |past| && forall k :: 0 <= k < |row| ==> row[k] == Run(past[k])
    requires forall k :: 0 <= k < |flags| ==> flags[k] == Warm(row[k], cfg, evaluated, average).doOptFlow
    ensures cfg.optFlowApply && HasRecord(records) ==>
              forall i :: 0 <= i < |flags| ==>
                Count(Visits(flags, Clears(cfg, records, true)), i) == if IsFlipNow(past[i]) then 1 else 0
  {
    hide Warm; hide Visits; hide Count; hide HasRecord; hide Run; hide IsFlipNow;
    if cfg.optFlowApply && HasRecord(records) {
      forall i | 0 <= i < |flags|
        ensures Count(Visits(flags, true), i) == if IsFlipNow(past[i]) then 1 else 0
      {
        FlipIsScannedOnce(past, flags, cfg, evaluated, average, i);
      }
    }
  }

  function Flags(row: seq<Obj>): (flags: seq<bool>)
    ensures |flags| == |row|
  {
    seq(|row|, i requires 0 <= i < |row| => row[i].doOptFlow)
  }

  lemma FlagsAre(row: seq<Obj>)
    ensures forall i :: 0 <= i < |row| ==> Flags(row)[i] == row[i].doOptFlow
  {
  }

  /** Flags while the scan goes on. */
  lemma FlagsAfterPasses(row: seq<Obj>, now: seq<Obj>, cfg: Config, records: Records, second: bool, rgb: bool,
                         moveSpeed: int, visited: seq<nat>)
    requires |now| == |row|
    requires forall i :: 0 <= i < |row| ==>
             now[i] == ProcessTimes(row[i], cfg, records, second, rgb, moveSpeed, Count(visited, i))
    ensures StillUp(Flags(row), Flags(now), Clears(cfg, records, second), visited)
  {
    hide ProcessTimes; hide Count; hide Clears;
    forall i: nat | i < |row|
      ensures Flags(now)[i] == (Flags(row)[i] && !(Clears(cfg, records, second) && i in visited))
    {
      TimesFlag(row[i], cfg, records, second, rgb, moveSpeed, Count(visited, i));
      CountPositive(visited, i);
    }
  }

  lemma NextPass(o: Obj, past: History, cfg: Config, records: Records, second: bool, rgb: bool, moveSpeed: int, n: nat)
    ensures ProcessTimes(o, cfg, records, second, rgb, moveSpeed, n + 1) ==
            ProcessRecords(ProcessTimes(o, cfg, records, second, rgb, moveSpeed, n), cfg, records, second, rgb,
              moveSpeed)
    ensures var es := FlowEvents(cfg, records, second, rgb, moveSpeed);
            past + Times(es, n + 1) == past + Times(es, n) + es
  {
    hide ProcessRecords; hide FlowEvents;
  }

  /** A whole scan takes every flag down, or leaves every flag as it was. */
  lemma FlagsAfterScan(flags: seq<bool>, now: seq<bool>, clears: bool)
    requires StillUp(flags, now, clears, Visits(flags, clears))
    ensures forall i :: 0 <= i < |flags| ==> now[i] == (flags[i] && !clears)
  {
    hide FlaggedBelow;
    FlaggedBelowIsExact(flags, |flags|);
  }

  /** The class published after a row of objects: that of the last flagged one. */
  function Published(row: seq<Obj>, before: Class): Class {
    if row == [] then before
    else if Last(row).notificationFlag then Last(row).classId
    else Published(Front(row), before)
  }

  /** Some object of the row gets through to the notification step. */
  predicate SomeFires(row: seq<Obj>, cfg: Config) {
    exists i :: 0 <= i < |row| && Fires(row[i], cfg)
  }

  lemma SomeFiresNone(row: seq<Obj>, cfg: Config)
    ensures !SomeFires(row[..0], cfg)
  {
  }

  lemma SomeFiresNext(row: seq<Obj>, k: nat, cfg: Config)
    requires k < |row|
    ensures SomeFires(row[..k + 1], cfg) <==> SomeFires(row[..k], cfg) || Fires(row[k], cfg)
  {
    hide Fires;
    var longer := row[..k + 1];
    assert longer[k] == row[k];
    assert forall i :: 0 <= i < k ==> longer[i] == row[..k][i];
  }

  lemma {:induction false} PublishedIsLast(row: seq<Obj>, before: Class, i: nat)
    requires i <= |row| && forall j :: i <= j < |row| ==> !row[j].notificationFlag
    requires i > 0 ==> row[i - 1].notificationFlag
    ensures Published(row, before) == if i > 0 then row[i - 1].classId else before
  {
    if i < |row| {
      PublishedIsLast(Front(row), before, i);
    }
  }

  lemma PublishedNone(row: seq<Obj>, before: Class)
    ensures Published(row[..0], before) == before
  {
  }

  lemma PublishedNext(row: seq<Obj>, k: nat, before: Class)
    requires k < |row|
    ensures Published(row[..k + 1], before) == if row[k].notificationFlag then row[k].classId
            else Published(row[..k], before)
  {
    assert Front(row[..k + 1]) == row[..k];
  }

  // ---------------------------------------------------------------------
  // The table.
  // ---------------------------------------------------------------------

  /** The objects that something happens to. */
  datatype Scope = AllObjects | OfCamera(cam: nat) | OneObject(cam: nat, id: nat)

  predicate Covers(s: Scope, c: nat, i: nat) {
    match s
    case AllObjects => true
    case OfCamera(cam) => c == cam
    case OneObject(cam, id) => c == cam && i == id
  }

  /** The histories of all objects, by camera. */
  type Histories = seq<seq<History>>

  /** The histories of the objects in the scope have become longer by `es`; the others are as before. */
  ghost predicate Extends(before: Histories, after: Histories, s: Scope, es: History) {
    && |after| == |before|
    && forall c :: 0 <= c < |before| ==>
         && |after[c]| == |before[c]|
         && forall i :: 0 <= i < |before[c]| ==>
             after[c][i] == if Covers(s, c, i) then before[c][i] + es else before[c][i]
  }

  ghost function ExtendedRow(row: seq<History>, s: Scope, c: nat, es: History): seq<History> {
    seq(|row|, i requires 0 <= i < |row| => if Covers(s, c, i) then row[i] + es else row[i])
  }

  ghost function Extended(h: Histories, s: Scope, es: History): (r: Histories)
    ensures Extends(h, r, s, es)
  {
    seq(|h|, c requires 0 <= c < |h| => ExtendedRow(h[c], s, c, es))
  }

  ghost function NoHistories(cams: nat, objs: nat): (r: Histories)
    ensures |r| == cams && forall c :: 0 <= c < cams ==> |r[c]| == objs && forall i :: 0 <= i < objs ==> r[c][i] == []
  {
    var none: History := [];
    seq(cams, _ => seq(objs, _ => none))
  }

  lemma ExtendsAt(before: Histories, after: Histories, s: Scope, es: History, c: nat, i: nat)
    requires Extends(before, after, s, es) && c < |before| && i < |before[c]|
    ensures |after| == |before| && |after[c]| == |before[c]|
    ensures after[c][i] == if Covers(s, c, i) then before[c][i] + es else before[c][i]
  {
  }

  lemma ExtendsTwice(a: Histories, b: Histories, c: Histories, s: Scope, first: History, next: History)
    requires Extends(a, b, s, first) && Extends(b, c, s, next)
    ensures Extends(a, c, s, first + next)
  {
    forall k, i | 0 <= k < |a| && 0 <= i < |a[k]| && Covers(s, k, i)
      ensures c[k][i] == a[k][i] + (first + next)
    {
      assert c[k][i] == b[k][i] + next;
    }
  }

  /** The table, with everything that has happened to each object so far. */
  class ObjectTable {
    const info: array2<Obj>
    var notiCamIdx: nat
    var eventClassId: Class
    var objsTempAvg: int
    var objsTempTotal: int
    var objsCount: nat
    ghost var histories: Histories
    ghost var counted: seq<int>  // the temperatures counted since the mean was last started over

    /** Total and number of the temperatures counted so far. */
    ghost predicate Counted()
      reads this`counted, this`objsTempTotal, this`objsCount
    {
      objsTempTotal == Thermal.SumOf(counted) && objsCount == |counted|
    }

    ghost predicate Shaped()
      reads this`histories
    {
      |histories| == info.Length0 && forall c :: 0 <= c < info.Length0 ==> |histories[c]| == info.Length1
    }

    /** Every object is what its history has made of it, so that whatever holds of all histories holds
        of every object of every table. */
    ghost predicate Valid()
      reads this`histories, info
    {
      Shaped() && forall c, i :: 0 <= c < info.Length0 && 0 <= i < info.Length1 ==> info[c, i] == Run(histories[c][i])
    }

    constructor (numCams: nat, numObjs: nat)
      ensures Valid() && fresh(info) && info.Length0 == numCams && info.Length1 == numObjs
      ensures forall c, i :: 0 <= c < numCams && 0 <= i < numObjs ==> histories[c][i] == []
      ensures notiCamIdx == 0 && eventClassId == NormalCow
      ensures Counted() && counted == []
    {
      info := new Obj[numCams, numObjs]((c, i) => ZERO);
      notiCamIdx, eventClassId, objsTempAvg, objsTempTotal, objsCount := 0, NormalCow, 0, 0, 0;
      histories, counted := NoHistories(numCams, numObjs), [];
    }

    /** Puts down what the table already shows. */
    ghost method Append(s: Scope, es: History)
      requires Shaped()
      requires forall c, i :: 0 <= c < info.Length0 && 0 <= i < info.Length1 ==>
                 info[c, i] == if Covers(s, c, i) then RunFrom(Run(histories[c][i]), es) else Run(histories[c][i])
      modifies this`histories
      ensures Valid() && Extends(old(histories), histories, s, es)
    {
      hide RunFrom; hide Covers;
      forall c, i | 0 <= c < info.Length0 && 0 <= i < info.Length1
        ensures Run(histories[c][i] + es) == RunFrom(Run(histories[c][i]), es)
      {
        RunFromAppend(ZERO, histories[c][i], es);
      }
      histories := Extended(histories, s, es);
    }

    /** set_obj_rect_id, which alone reduces the tracker's id to a slot. */
    method SetObjRect(cam: int, id: int, c: Class, x: int, y: int, width: int, height: int)
      requires Valid() && info.Length1 > 0
      modifies info, this`histories
      ensures Valid()
      ensures if 0 <= cam < info.Length0 && id >= 0
              then Extends(old(histories), histories, OneObject(cam, id % info.Length1), [Rect(c, x, y, width, height)])
              else histories == old(histories)
    {
      hide Hypot; hide RunFrom;
      if cam < 0 || cam >= info.Length0 || id < 0 {
        return;
      }
      var slot := id % info.Length1;
      var diagonal := CalculateSqrt(width as real, height as real);
      ghost var before := info[cam, slot];
      info[cam, slot] := info[cam, slot].(x := x, y := y, width := width, height := height, diagonal := diagonal,
        classId := c);
      RunSingle(before, Rect(c, x, y, width, height));
      Append(OneObject(cam, slot), [Rect(c, x, y, width, height)]);
    }

    /** A classifier hit. */
    method CountHeatHit(cam: nat, objId: nat)
      requires Valid() && cam < info.Length0 && objId < info.Length1
      modifies info, this`histories
      ensures Valid() && Extends(old(histories), histories, OneObject(cam, objId), [HeatHit])
    {
      hide RunFrom;
      RunSingle(info[cam, objId], HeatHit);
      info[cam, objId] := info[cam, objId].(heatCount := info[cam, objId].heatCount + 1);
      Append(OneObject(cam, objId), [HeatHit]);
    }

    /** gather_event: detections of one object in a frame. The program indexes the table by the tracker's
        own id here; an id beyond the table reaches memory that is none of the object's, which the model
        leaves out. */
    method Detect(cam: nat, objId: int, c: Class)
      requires Valid() && cam < info.Length0 && objId < info.Length1
      modifies info, this`histories
      ensures Valid()
      ensures if objId < 0 then histories == old(histories)
              else Extends(old(histories), histories, OneObject(cam, objId), [Gather(c)])
      ensures forall d, i :: 0 <= d < info.Length0 && 0 <= i < info.Length1 ==>
                info[d, i] == if d == cam && i == objId then GatherEvent(old(info[d, i]), c) else old(info[d, i])
    {
      hide RunFrom;
      if objId < 0 {
        return;
      }
      RunSingle(info[cam, objId], Gather(c));
      if c != NormalCow && c != NormalCowSitting {
        var o := info[cam, objId];
        info[cam, objId] := o.(detectedFrameCount := o.detectedFrameCount + 1, classId := c);
      }
      Append(OneObject(cam, objId), [Gather(c)]);
    }

    /** check_events_for_notification(cam, 0). */
    method CheckEvents(cam: nat, cfg: Config)
      requires Valid() && cam < info.Length0
      modifies info, this`histories
      ensures Valid() && Extends(old(histories), histories, OfCamera(cam), [Second(cfg)])
      ensures forall c, i :: 0 <= c < info.Length0 && 0 <= i < info.Length1 ==>
                info[c, i] == if c == cam then Tick(old(info[c, i]), cfg) else old(info[c, i])
    {
      hide Tick; hide RunFrom; hide Extends;
      for objId := 0 to info.Length1
        invariant histories == old(histories)
        invariant forall c, i :: 0 <= c < info.Length0 && 0 <= i < info.Length1 ==>
                    info[c, i] == if c == cam && i < objId then Tick(old(info[c, i]), cfg) else old(info[c, i])
      {
        var o := TickInPlace(info[cam, objId], cfg);
        info[cam, objId] := o;
      }
      forall o: Obj | ValidAvg(o.tempAvg) ensures RunFrom(o, [Second(cfg)]) == Tick(o, cfg) { RunIs(o, Second(cfg)); }
      Append(OfCamera(cam), [Second(cfg)]);
    }

    /** The body of that loop, assignment by assignment. */
    method TickInPlace(before: Obj, cfg: Config) returns (o: Obj)
      ensures o == Tick(before, cfg)
    {
      o := before;
      if o.detectedFrameCount >= PER_CAM_SEC_FRAME - 1 {
        o := o.(duration := o.duration + 1);
        if o.duration >= cfg.threshold(o.classId) {
          o := o.(duration := 0);
          o := o.(notificationFlag := true);
          if cfg.resnetApply {
            if o.classId == HeatCow {
              o := CheckHeatCount(o);
            }
          }
        }
        if cfg.optFlowApply {
          if o.classId == FlipCow {
            o := o.(doOptFlow := true);
          } else {
            o := InitOptFlow(o, cfg, false);
          }
        }
      } else {
        o := o.(duration := 0);
        o := InitOptFlow(o, cfg, true);
      }
      o := o.(detectedFrameCount := 0);
    }

    /** check_events_for_notification(cam, 1): every object of every camera. */
    method ResetAll(cfg: Config)
      requires Valid()
      modifies info, this`histories
      ensures Valid() && Extends(old(histories), histories, AllObjects, [Clear(cfg)])
      ensures forall c, i :: 0 <= c < info.Length0 && 0 <= i < info.Length1 ==>
              info[c, i] == Reset(old(info[c, i]), cfg)
    {
      hide RunFrom; hide Extends;
      for c := 0 to info.Length0
        invariant histories == old(histories)
        invariant forall d, i :: 0 <= d < info.Length0 && 0 <= i < info.Length1 ==>
                    info[d, i] == if d < c then Reset(old(info[d, i]), cfg) else old(info[d, i])
      {
        for j := 0 to info.Length1
          invariant histories == old(histories)
          invariant forall d, i :: 0 <= d < info.Length0 && 0 <= i < info.Length1 ==>
                      info[d, i] == if d < c || (d == c && i < j) then Reset(old(info[d, i]), cfg) else old(info[d, i])
        {
          var o := info[c, j].(detectedFrameCount := 0, duration := 0, tempDuration := 0, classId := NormalCow,
              heatCount := 0);
          info[c, j] := InitOptFlow(o, cfg, true);
        }
      }
      forall o: Obj | ValidAvg(o.tempAvg) ensures RunFrom(o, [Clear(cfg)]) == Reset(o, cfg) { RunIs(o, Clear(cfg)); }
      Append(AllObjects, [Clear(cfg)]);
    }

    /** trigger_notification: takes every flag of the camera down and reports to `current`. The class of
        the last flagged object is published for the sender, whether the object gets through or not. */
    method TriggerNotification(cam: nat, cfg: Config, current: nat)
      requires Valid() && cam < info.Length0
      modifies this`notiCamIdx, this`eventClassId, this`histories, info
      ensures Valid() && Extends(old(histories), histories, OfCamera(cam), [Notify(cfg)])
      ensures forall c, i :: 0 <= c < info.Length0 && 0 <= i < info.Length1 ==>
                info[c, i] == if c == cam then Trigger(old(info[c, i]), cfg) else old(info[c, i])
      ensures notiCamIdx == if SomeFires(old(Row(cam)), cfg) then current else old(notiCamIdx)
      ensures eventClassId == Published(old(Row(cam)), old(eventClassId))
      ensures forall i :: 0 <= i < info.Length1 ==> !info[cam, i].notificationFlag
    {
      hide Trigger; hide Fires; hide RunFrom; hide Extends; hide Published; hide SomeFires;
      ghost var row := Row(cam);
      SomeFiresNone(row, cfg);
      PublishedNone(row, eventClassId);
      for objId := 0 to info.Length1
        invariant histories == old(histories)
        invariant forall c, i :: 0 <= c < info.Length0 && 0 <= i < info.Length1 ==>
                    info[c, i] == if c == cam && i < objId then Trigger(old(info[c, i]), cfg) else old(info[c, i])
        invariant notiCamIdx == if SomeFires(row[..objId], cfg) then current else old(notiCamIdx)
        invariant eventClassId == Published(row[..objId], old(eventClassId))
      {
        PublishedNext(row, objId, old(eventClassId));
        SomeFiresNext(row, objId, cfg);
        if info[cam, objId].notificationFlag {
          eventClassId := info[cam, objId].classId;
        }
        var o := info[cam, objId];
        var fired;
        o, fired := TriggerInPlace(o, cfg);
        info[cam, objId] := o;
        if fired {
          notiCamIdx := current;
        }
      }
      assert row[..info.Length1] == row;
      AppendTrigger(cam, cfg);
      forall o: Obj ensures !Trigger(o, cfg).notificationFlag { ObjHistory.TriggerSigns(o, cfg); }
    }

    ghost method AppendTrigger(cam: nat, cfg: Config)
      requires Shaped()
      requires forall c, i :: 0 <= c < info.Length0 && 0 <= i < info.Length1 ==>
                 info[c, i] == if c == cam then Trigger(Run(histories[c][i]), cfg) else Run(histories[c][i])
      modifies this`histories
      ensures Valid() && Extends(old(histories), histories, OfCamera(cam), [Notify(cfg)])
    {
      hide Trigger; hide RunFrom; hide Extends;
      forall o: Obj | ValidAvg(o.tempAvg)
        ensures RunFrom(o, [Notify(cfg)]) == Trigger(o, cfg) { RunIs(o, Notify(cfg)); }
      Append(OfCamera(cam), [Notify(cfg)]);
    }

    method TriggerInPlace(before: Obj, cfg: Config) returns (o: Obj, fired: bool)
      ensures o == Trigger(before, cfg) && fired == Fires(before, cfg)
    {
      o, fired := before, false;
      if o.notificationFlag {
        o := o.(notificationFlag := false);
        if cfg.optFlowApply {
          if o.classId == FlipCow {
            if o.optFlowDetectedCount < THRESHOLD_OVER_OPTICAL_FLOW_COUNT {
              o := InitOptFlow(o, cfg, true);
              return;
            }
            o := InitOptFlow(o, cfg, true);
          }
        }
        fired := true;
        o := o.(tempEventTimeGap := TEMP_EVENT_TIME_GAP);
      }
    }

    /** The objects of one camera. */
    ghost function Row(cam: nat): (row: seq<Obj>)
      reads info
      requires cam < info.Length0
      ensures |row| == info.Length1 && forall i :: 0 <= i < info.Length1 ==> row[i] == info[cam, i]
    {
      seq(info.Length1, i requires 0 <= i < info.Length1 reads info => info[cam, i])
    }

    /** First flagged slot from `start` on, or -1. */
    method GetOptFlowObject(cam: nat, start: nat) returns (objId: int)
      requires cam < info.Length0
      ensures FirstFrom(Flags(Row(cam)), start, objId)
    {
      var id := start;
      while id < info.Length1
        invariant start <= id
        invariant forall i :: start <= i < id && i < info.Length1 ==> !info[cam, i].doOptFlow
      {
        if info[cam, id].doOptFlow {
          return id;
        }
        id := id + 1;
      }
      objId := -1;
    }

    method ProcessOptFlow(cam: nat, objId: nat, cfg: Config, records: Records, second: bool, moveSpeed: int)
      requires Valid() && cam < info.Length0 && objId < info.Length1
      modifies info, this`histories
      ensures Valid()
      ensures Extends(old(histories), histories, OneObject(cam, objId),
              FlowEvents(cfg, records, second, cam == RGB_CAM, moveSpeed))
      ensures forall c, i :: 0 <= c < info.Length0 && 0 <= i < info.Length1 ==>
                info[c, i] == if c == cam && i == objId
                              then ProcessRecords(old(info[c, i]), cfg, records, second, cam == RGB_CAM, moveSpeed)
                              else old(info[c, i])
    {
      hide RunFrom; hide FlowEvents; hide Extends; hide BoxMotion; hide Confirms;
      ghost var before := info[cam, objId];
      for n := 0 to |records|
        invariant histories == old(histories)
        invariant forall c, i :: 0 <= c < info.Length0 && 0 <= i < info.Length1 && !(c == cam && i == objId) ==>
                    info[c, i] == old(info[c, i])
        invariant info[cam, objId] == ProcessRecords(before, cfg, records[..n], second, cam == RGB_CAM, moveSpeed)
      {
        assert Front(records[..n + 1]) == records[..n];
        match records[n]
        case None =>
        case Some(f) =>
          var motion := MeasureMotion(info[cam, objId], f);
          var o := AddMotion(info[cam, objId], motion);
          info[cam, objId] := if second then CloseSecond(o, cfg, cam == RGB_CAM, moveSpeed) else o;
      }
      assert records[..|records|] == records;
      RecordsAreEvents(before, cfg, records, second, cam == RGB_CAM, moveSpeed);
      Append(OneObject(cam, objId), FlowEvents(cfg, records, second, cam == RGB_CAM, moveSpeed));
    }

    /** The wrap-around scan over the flagged objects, on any frame. It visits the flagged slots once
        each and in order; only where its passes leave the flags up and the last slot is flagged it goes
        round and round, up to the cap. */
    method ScanOptFlow(cam: nat, cfg: Config, records: Records, second: bool, moveSpeed: int)
        returns (visited: seq<nat>)
      requires Valid() && cam < info.Length0 && info.Length1 <= MAX_OPT_FLOW_ITERATIONS
      modifies info, this`histories
      ensures Valid()
      ensures visited == Visits(Flags(old(Row(cam))), Clears(cfg, records, second))
      ensures Passed(cam, old(Row(cam)), old(histories[cam]), cfg, records, second, moveSpeed, visited)
      ensures forall c, i :: 0 <= c < info.Length0 && 0 <= i < info.Length1 && c != cam ==>
                info[c, i] == old(info[c, i]) && histories[c][i] == old(histories[c][i])
      ensures forall i :: 0 <= i < info.Length1 ==>
                info[cam, i].doOptFlow == (old(info[cam, i].doOptFlow) && !Clears(cfg, records, second))
    {
      hide ProcessRecords; hide Flagged; hide FlaggedBelow; hide Cycle; hide Turn; hide Flags; hide FirstFrom;
      hide Clears;
      hide FlowEvents; hide Visits; hide Ends; hide RunFrom; hide Found; hide StillUp;
      ghost var row, rgb, clears := Row(cam), cam == RGB_CAM, Clears(cfg, records, second);
      ghost var flags := Flags(row);
      ghost var past := histories[cam];
      visited := [];
      var startObjId := 0;
      var iterationCount := 0;
      var objId := GetOptFlowObject(cam, startObjId);
      ScanStarts(flags, clears, objId);
      CycleNone(Flagged(flags));
      while objId != -1
        invariant Valid() && -1 <= objId < info.Length1 && 0 <= iterationCount <= MAX_OPT_FLOW_ITERATIONS + 1
        invariant forall c, i :: 0 <= c < info.Length0 && 0 <= i < info.Length1 && c != cam ==>
                    info[c, i] == old(info[c, i]) && histories[c][i] == old(histories[c][i])
        invariant Passed(cam, row, past, cfg, records, second, moveSpeed, visited)
        invariant iterationCount > 0 ==> Flagged(flags) != []
        invariant visited == Cycle(Flagged(flags), iterationCount)
        invariant Found(flags, clears, iterationCount, objId)
        decreases MAX_OPT_FLOW_ITERATIONS + 1 - iterationCount
      {
        if iterationCount > MAX_OPT_FLOW_ITERATIONS {
          break;
        }
        FoundNext(flags, clears, iterationCount, objId);
        iterationCount := iterationCount + 1;
        Pass(cam, objId, cfg, records, second, moveSpeed, row, past, visited);
        visited := visited + [objId];
        startObjId := NextStart(objId);
        ghost var id := objId;
        objId := GetOptFlowObject(cam, startObjId);
        FlagsAfterPasses(row, Row(cam), cfg, records, second, rgb, moveSpeed, visited);
        ScanGoesOn(flags, Flags(Row(cam)), clears, iterationCount - 1, id, objId);
      }
      ScanResult(flags, clears, iterationCount, objId);
      FlagsAfterPasses(row, Row(cam), cfg, records, second, rgb, moveSpeed, visited);
      FlagsAfterScan(flags, Flags(Row(cam)), clears);
      FlagsAre(row);
      FlagsAre(Row(cam));
    }

    /** Each object of the camera has been passed over as often as `visited` says. */
    ghost predicate Passed(cam: nat, row: seq<Obj>, past: seq<History>, cfg: Config, records: Records, second: bool,
                           moveSpeed: int, visited: seq<nat>)
      requires Shaped() && cam < info.Length0 && |row| == |past| == info.Length1
      reads info, this`histories
    {
      forall i :: 0 <= i < info.Length1 ==>
        && info[cam, i] == ProcessTimes(row[i], cfg, records, second, cam == RGB_CAM, moveSpeed, Count(visited, i))
        && histories[cam][i] ==
            past[i] + Times(FlowEvents(cfg, records, second, cam == RGB_CAM, moveSpeed), Count(visited, i))
    }

    /** One pass of the scan. */
    method Pass(cam: nat, objId: nat, cfg: Config, records: Records, second: bool, moveSpeed: int,
                ghost row: seq<Obj>, ghost past: seq<History>, ghost visited: seq<nat>)
      requires Valid() && cam < info.Length0 && objId < info.Length1 && |row| == |past| == info.Length1
      requires Passed(cam, row, past, cfg, records, second, moveSpeed, visited)
      modifies info, this`histories
      ensures Valid() && Passed(cam, row, past, cfg, records, second, moveSpeed, visited + [objId])
      ensures forall c, i :: 0 <= c < info.Length0 && 0 <= i < info.Length1 && c != cam ==>
                info[c, i] == old(info[c, i]) && histories[c][i] == old(histories[c][i])
    {
      hide ProcessRecords; hide ProcessTimes; hide FlowEvents; hide Times; hide RunFrom; hide Count; hide Extends;
      ghost var rgb, before := cam == RGB_CAM, histories;
      ProcessOptFlow(cam, objId, cfg, records, second, moveSpeed);
      forall i | 0 <= i < info.Length1
        ensures info[cam, i] == ProcessTimes(row[i], cfg, records, second, rgb, moveSpeed, Count(visited + [objId], i))
        ensures histories[cam][i] ==
                past[i] + Times(FlowEvents(cfg, records, second, rgb, moveSpeed), Count(visited + [objId], i))
      {
        CountNext(visited, objId, i);
        NextPass(row[i], past[i], cfg, records, second, rgb, moveSpeed, Count(visited, i));
        ExtendsAt(before, histories, OneObject(cam, objId), FlowEvents(cfg, records, second, rgb, moveSpeed), cam, i);
      }
      forall c, i | 0 <= c < info.Length0 && 0 <= i < info.Length1 && c != cam
        ensures histories[c][i] == before[c][i]
      {
        ExtendsAt(before, histories, OneObject(cam, objId), FlowEvents(cfg, records, second, rgb, moveSpeed), c, i);
      }
    }

    method NextStart(objId: nat) returns (start: nat)
      requires objId < info.Length1
      ensures start == if objId + 1 == info.Length1 then 0 else objId + 1
    {
      ModOnce(objId + 1, info.Length1);
      start := (objId + 1) % info.Length1;
    }

    // ---- temperature, on the thermal camera only ----

    /** The end of get_bbox_temp, when some pixel of the box had a plausible temperature. */
    method AddSample(objId: nat, value: int)
      requires Valid() && THERMAL_CAM < info.Length0 && objId < info.Length1
      modifies info, this`histories
      ensures Valid() && Extends(old(histories), histories, OneObject(THERMAL_CAM, objId), [Sample(value)])
    {
      hide RunFrom; hide Round; hide Extends;
      ghost var before := info[THERMAL_CAM, objId];
      var o := AddValueInPlace(info[THERMAL_CAM, objId], value);
      info[THERMAL_CAM, objId] := o;
      RunIs(before, Sample(value));
      Append(OneObject(THERMAL_CAM, objId), [Sample(value)]);
    }

    /** add_value_and_calculate_avg, assignment by assignment. */
    method AddValueInPlace(before: Obj, value: int) returns (o: Obj)
      requires ValidAvg(before.tempAvg)
      ensures o == AddValue(before, value)
    {
      hide Round;
      var a := before.tempAvg;
      if a.count == BUFFER_SIZE {
        a := a.(sum := a.sum - a.buffer[a.index]);
      }
      a := a.(buffer := a.buffer[a.index := value]);
      a := a.(sum := a.sum + value);
      a := a.(index := (a.index + 1) % BUFFER_SIZE);
      if a.count < BUFFER_SIZE {
        a := a.(count := a.count + 1);
      }
      o := before.(tempAvg := a, bboxTemp := Round(a.sum as real / a.count as real));
      o := o.(corrected := false);
    }

    method InitTempAvg()
      modifies this`objsTempAvg, this`objsTempTotal, this`objsCount, this`counted
      ensures Counted() && counted == [] && objsTempAvg == 0
    {
      objsTempAvg, objsTempTotal, objsCount := 0, 0, 0;
      counted := [];
    }

    /** The same holds of the tracker's id as for Detect. */
    method GetTempTotal(objId: nat, cfg: Config)
      requires Counted() && THERMAL_CAM < info.Length0 && objId < info.Length1
      modifies this`objsTempTotal, this`objsCount, this`counted
      ensures Counted()
      ensures var t := info[THERMAL_CAM, objId].bboxTemp;
              counted == if t < cfg.thresholdUnderTemp then old(counted) else old(counted) + [t]
    {
      if info[THERMAL_CAM, objId].bboxTemp < cfg.thresholdUnderTemp {
        return;
      }
      objsTempTotal := objsTempTotal + info[THERMAL_CAM, objId].bboxTemp;
      objsCount := objsCount + 1;
      assert Front(counted + [info[THERMAL_CAM, objId].bboxTemp]) == counted;
      counted := counted + [info[THERMAL_CAM, objId].bboxTemp];
    }

    method GetTempAvg()
      requires Counted()
      modifies this`objsTempAvg
      ensures objsTempAvg == MeanOf(counted)
    {
      if objsCount == 0 || objsTempTotal == 0 {
        objsTempAvg := 0;
        return;
      }
      objsTempAvg := Quotient(objsTempTotal, objsCount);
    }

    /** check_for_temp_notification: nothing is evaluated without a plausible average. */
    method CheckForTempNotification(cfg: Config)
      requires Valid() && Counted() && THERMAL_CAM < info.Length0
      modifies this`objsTempAvg, this`objsTempTotal, this`objsCount, this`counted, this`histories, info
      ensures Valid()
      ensures var evaluated := old(objsTempAvg) >= cfg.thresholdUnderTemp && old(counted) != [];
              && Extends(old(histories), histories, OfCamera(THERMAL_CAM),
                  if evaluated then [Temperature(cfg, old(objsTempAvg))] else [])
              && forall c, i :: 0 <= c < info.Length0 && 0 <= i < info.Length1 ==>
                   info[c, i] == if evaluated && c == THERMAL_CAM then TempPass(old(info[c, i]), cfg, old(objsTempAvg))
                     else old(info[c, i])
      ensures Counted() && counted == [] && objsTempAvg == 0
    {
      hide RunFrom; hide TempPass;
      if objsTempAvg < cfg.thresholdUnderTemp || objsCount == 0 {
        InitTempAvg();
        return;
      }
      hide Extends;
      for objId := 0 to info.Length1
        invariant objsTempAvg == old(objsTempAvg) && histories == old(histories)
        invariant forall c, i :: 0 <= c < info.Length0 && 0 <= i < info.Length1 ==>
                    info[c, i] == if c == THERMAL_CAM && i < objId then TempPass(old(info[c, i]), cfg, objsTempAvg)
                      else old(info[c, i])
      {
        var o := TempPassInPlace(info[THERMAL_CAM, objId], cfg, objsTempAvg);
        info[THERMAL_CAM, objId] := o;
      }
      AppendTemperature(cfg, objsTempAvg);
      InitTempAvg();
    }

    /** The body of that loop, assignment by assignment. */
    method TempPassInPlace(before: Obj, cfg: Config, average: int) returns (o: Obj)
      ensures o == TempPass(before, cfg, average)
    {
      o := before;
      if o.bboxTemp < cfg.thresholdUnderTemp {
        o := o.(tempDuration := 0);
        o := o.(classId := NormalCow);
        return;
      }
      if o.bboxTemp > average + cfg.tempDiffThreshold {
        o := o.(tempDuration := o.tempDuration + 1);
        if o.tempDuration >= cfg.overTempTime {
          o := o.(tempDuration := 0);
          if o.tempEventTimeGap == 0 {
            o := o.(classId := OverTemp);
            o := o.(notificationFlag := true);
          }
        }
      } else {
        o := o.(tempDuration := 0);
        o := o.(classId := NormalCow);
      }
    }

    ghost method AppendTemperature(cfg: Config, average: int)
      requires Shaped()
      requires forall c, i :: 0 <= c < info.Length0 && 0 <= i < info.Length1 ==>
                 info[c, i] == if c == THERMAL_CAM then TempPass(Run(histories[c][i]), cfg, average)
                   else Run(histories[c][i])
      modifies this`histories
      ensures Valid() && Extends(old(histories), histories, OfCamera(THERMAL_CAM), [Temperature(cfg, average)])
    {
      hide TempPass; hide RunFrom; hide Extends;
      forall o: Obj | ValidAvg(o.tempAvg) ensures RunFrom(o, [Temperature(cfg, average)]) == TempPass(o, cfg, average) {
        RunIs(o, Temperature(cfg, average));
      }
      Append(OfCamera(THERMAL_CAM), [Temperature(cfg, average)]);
    }

    /** add_correction. */
    method AddCorrectionToAll(cfg: Config)
      requires Valid() && THERMAL_CAM < info.Length0
      modifies info, this`histories
      ensures Valid() && Extends(old(histories), histories, OfCamera(THERMAL_CAM), [Correct(cfg)])
      ensures forall c, i :: 0 <= c < info.Length0 && 0 <= i < info.Length1 ==>
                info[c, i] == if c == THERMAL_CAM then AddCorrection(old(info[c, i]), cfg) else old(info[c, i])
    {
      hide RunFrom; hide Extends;
      if cfg.tempCorrection != 0 {
        for i := 0 to info.Length1
          invariant histories == old(histories)
          invariant forall c, j :: 0 <= c < info.Length0 && 0 <= j < info.Length1 ==>
                      info[c, j] == if c == THERMAL_CAM && j < i then AddCorrection(old(info[c, j]), cfg)
                        else old(info[c, j])
        {
          var o := info[THERMAL_CAM, i];
          if !o.corrected {
            o := o.(bboxTemp := o.bboxTemp + cfg.tempCorrection);
            info[THERMAL_CAM, i] := o.(corrected := true);
          }
        }
      }
      forall o: Obj | ValidAvg(o.tempAvg)
        ensures RunFrom(o, [Correct(cfg)]) == AddCorrection(o, cfg) { RunIs(o, Correct(cfg)); }
      Append(OfCamera(THERMAL_CAM), [Correct(cfg)]);
    }

    method DecTempEventTimeGap()
      requires Valid() && THERMAL_CAM < info.Length0
      modifies info, this`histories
      ensures Valid() && Extends(old(histories), histories, OfCamera(THERMAL_CAM), [GapTick])
      ensures forall c, i :: 0 <= c < info.Length0 && 0 <= i < info.Length1 ==>
                info[c, i] == if c == THERMAL_CAM then DecGap(old(info[c, i])) else old(info[c, i])
    {
      hide RunFrom; hide Extends;
      for i := 0 to info.Length1
        invariant histories == old(histories)
        invariant forall c, j :: 0 <= c < info.Length0 && 0 <= j < info.Length1 ==>
                    info[c, j] == if c == THERMAL_CAM && j < i then DecGap(old(info[c, j])) else old(info[c, j])
      {
        var o := info[THERMAL_CAM, i];
        if o.tempEventTimeGap > 0 {
          info[THERMAL_CAM, i] := o.(tempEventTimeGap := o.tempEventTimeGap - 1);
        }
      }
      forall o: Obj | ValidAvg(o.tempAvg) ensures RunFrom(o, [GapTick]) == DecGap(o) { RunIs(o, GapTick); }
      Append(OfCamera(THERMAL_CAM), [GapTick]);
    }

    // ---- the tail of a one-second frame ----

    /** Tick and temperature check; `evaluated` says whether there was a plausible average. */
    method StartSecond(cam: nat, cfg: Config, tempApply: bool) returns (ghost evaluated: bool, ghost average: int)
      requires Valid() && Counted() && cam < info.Length0 && THERMAL_CAM < info.Length0
      modifies this`objsTempAvg, this`objsTempTotal, this`objsCount, this`counted, this`histories, info
      ensures average == MeanOf(old(counted))
      ensures evaluated == (tempApply && cam == THERMAL_CAM && average >= cfg.thresholdUnderTemp && old(counted) != [])
      ensures Counted() && counted == if tempApply && cam == THERMAL_CAM then [] else old(counted)
      ensures Valid() && Extends(old(histories), histories, OfCamera(cam), StartEvents(cfg, evaluated, average))
      ensures forall c, i :: 0 <= c < info.Length0 && 0 <= i < info.Length1 ==>
                info[c, i] == if c == cam then Warm(old(info[c, i]), cfg, evaluated, average) else old(info[c, i])
    {
      hide Tick; hide TempPass; hide Extends; hide RunFrom; hide MeanOf;
      average := MeanOf(counted);
      evaluated := tempApply && cam == THERMAL_CAM && average >= cfg.thresholdUnderTemp && counted != [];
      CheckEvents(cam, cfg);
      ghost var ticked := histories;
      if tempApply && cam == THERMAL_CAM {
        GetTempAvg();
        CheckForTempNotification(cfg);
        ExtendsTwice(old(histories), ticked, histories, OfCamera(cam), [Second(cfg)],
          if evaluated then [Temperature(cfg, average)] else []);
      } else {
        assert [Second(cfg)] + [] == [Second(cfg)];
      }
    }

    /** Tick, temperature check, flow scan, triggers. How often the scan passes over an object depends on
        the flags that the first two leave; PassesExactly gives the number. */
    method CloseSecondFrame(cam: nat, cfg: Config, tempApply: bool, records: Records, moveSpeed: int)
        returns (ghost evaluated: bool, ghost average: int, ghost flags: seq<bool>, ghost visited: seq<nat>)
      requires Valid() && Counted() && cam < info.Length0 && THERMAL_CAM < info.Length0
      requires info.Length1 <= MAX_OPT_FLOW_ITERATIONS
      modifies this, info
      ensures average == MeanOf(old(counted))
      ensures evaluated == (tempApply && cam == THERMAL_CAM && average >= cfg.thresholdUnderTemp && old(counted) != [])
      ensures Counted() && counted == if tempApply && cam == THERMAL_CAM then [] else old(counted)
      ensures |flags| == info.Length1
      ensures forall i :: 0 <= i < info.Length1 ==>
              flags[i] == Warm(old(info[cam, i]), cfg, evaluated, average).doOptFlow
      ensures visited == Visits(flags, Clears(cfg, records, true))
      ensures cfg.optFlowApply && HasRecord(records) ==> forall i :: 0 <= i < info.Length1 ==>
                Count(visited, i) == if IsFlipNow(old(histories[cam][i])) then 1 else 0
      ensures forall i :: 0 <= i < info.Length1 ==> !info[cam, i].notificationFlag
      ensures Valid()
      ensures forall i :: 0 <= i < info.Length1 ==>
                info[cam, i] == AfterSecond(old(info[cam, i]), cfg, evaluated, average, records, cam == RGB_CAM,
                  moveSpeed, Count(visited, i))
      ensures forall i :: 0 <= i < info.Length1 ==>
                histories[cam][i] == old(histories[cam][i])
                + SecondEvents(cfg, evaluated, average, records, cam == RGB_CAM, moveSpeed, Count(visited, i))
      ensures forall c, i :: 0 <= c < info.Length0 && 0 <= i < info.Length1 && c != cam ==>
                info[c, i] == old(info[c, i]) && histories[c][i] == old(histories[c][i])
    {
      hide Warm; hide ProcessTimes; hide Trigger; hide RunFrom; hide Visits; hide Count; hide Clears; hide FlowEvents;
      hide Times; hide StartEvents; hide SecondEvents; hide MeanOf; hide Flags; hide Extends; hide Run; hide IsFlipNow;
      hide HasRecord;
      ghost var first, past := Row(cam), histories[cam];
      assert forall i :: 0 <= i < info.Length1 ==> first[i] == Run(past[i]);
      evaluated, average := StartSecond(cam, cfg, tempApply);
      ghost var warm, started := Row(cam), histories;
      FlagsAre(warm);
      flags := Flags(warm);
      assert forall i :: 0 <= i < info.Length1 ==>
               flags[i] == warm[i].doOptFlow && warm[i] == Warm(first[i], cfg, evaluated, average);
      FlipsAreScannedOnce(first, past, flags, cfg, evaluated, average, records);
      visited := ScanAndTrigger(cam, cfg, records, moveSpeed);
      forall i | 0 <= i < info.Length1
        ensures histories[cam][i] == old(histories[cam][i])
                + SecondEvents(cfg, evaluated, average, records, cam == RGB_CAM, moveSpeed, Count(visited, i))
      {
        SecondAppends(past[i], cfg, evaluated, average, records, cam == RGB_CAM, moveSpeed, Count(visited, i));
        ExtendsAt(old(histories), started, OfCamera(cam), StartEvents(cfg, evaluated, average), cam, i);
      }
      forall c, i | 0 <= c < info.Length0 && 0 <= i < info.Length1 && c != cam
        ensures histories[c][i] == old(histories[c][i])
      {
        ExtendsAt(old(histories), started, OfCamera(cam), StartEvents(cfg, evaluated, average), c, i);
      }
    }

    /** The second half of that: flow scan, triggers. */
    method ScanAndTrigger(cam: nat, cfg: Config, records: Records, moveSpeed: int) returns (ghost visited: seq<nat>)
      requires Valid() && cam < info.Length0 && info.Length1 <= MAX_OPT_FLOW_ITERATIONS
      modifies this`notiCamIdx, this`eventClassId, this`histories, info
      ensures Valid()
      ensures visited == Visits(Flags(old(Row(cam))), Clears(cfg, records, true))
      ensures forall i :: 0 <= i < info.Length1 ==> !info[cam, i].notificationFlag
      ensures forall i :: 0 <= i < info.Length1 ==>
                && info[cam, i] == Trigger(ProcessTimes(old(info[cam, i]), cfg, records, true, cam == RGB_CAM,
                                                        moveSpeed, Count(visited, i)), cfg)
                && histories[cam][i] == old(histories[cam][i])
                   + Times(FlowEvents(cfg, records, true, cam == RGB_CAM, moveSpeed), Count(visited, i)) + [Notify(cfg)]
      ensures forall c, i :: 0 <= c < info.Length0 && 0 <= i < info.Length1 && c != cam ==>
                info[c, i] == old(info[c, i]) && histories[c][i] == old(histories[c][i])
    {
      hide ProcessTimes; hide Trigger; hide RunFrom; hide Visits; hide Count; hide Clears; hide Published;
      hide SomeFires;
      hide FlowEvents; hide Times; hide Flags; hide Extends;
      ghost var first, past := Row(cam), histories;
      var order := ScanOptFlow(cam, cfg, records, true, moveSpeed);
      visited := order;
      ghost var scanned := histories;
      TriggerNotification(cam, cfg, cam);
      forall c, i | 0 <= c < info.Length0 && 0 <= i < info.Length1
        ensures histories[c][i] == if c == cam then scanned[c][i] + [Notify(cfg)] else scanned[c][i]
      {
        ExtendsAt(scanned, histories, OfCamera(cam), [Notify(cfg)], c, i);
      }
      assert forall i :: 0 <= i < info.Length1 ==> first[i] == old(info[cam, i]);
    }
  }
}
