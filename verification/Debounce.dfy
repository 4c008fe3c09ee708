/** Debouncing of detections into notification flags, over every history of one object. */
module Debounce {
  import opened Common
  import opened ObjMonitor

  // ---------------------------------------------------------------------
  // Reference notions, read off the history alone.
  // ---------------------------------------------------------------------

  /** Abnormal detections since the last one-second tick or reset. */
  ghost function Detections(es: History): nat {
    if es == [] then 0 else
    match Last(es)
    case Gather(c) => Detections(Front(es)) + if Abnormal(c) then 1 else 0
    case Second(_) => 0
    case Clear(_) => 0
    case _ => Detections(Front(es))
  }

  /** How many of the last ticks in a row, with no reset in between, each came after at least
      PER_CAM_SEC_FRAME - 1 abnormal detections of their own. */
  ghost function GoodTicks(es: History): nat {
    if es == [] then 0 else
    match Last(es)
    case Second(_) => if Detections(Front(es)) >= PER_CAM_SEC_FRAME - 1 then GoodTicks(Front(es)) + 1 else 0
    case Clear(_) => 0
    case _ => GoodTicks(Front(es))
  }

  /** Classifier hits since the last reset or heat check. */
  ghost function HeatHits(es: History): nat {
    if es == [] then 0 else
    match Last(es)
    case HeatHit => HeatHits(Front(es)) + 1
    case Second(cfg) => if ChecksHeat(Run(Front(es)), cfg) then 0 else HeatHits(Front(es))
    case Clear(_) => 0
    case _ => HeatHits(Front(es))
  }

  function Ticks(es: seq<Event>): nat {
    if es == [] then 0 else Ticks(Front(es)) + if Last(es).Second? then 1 else 0
  }

  // ---------------------------------------------------------------------
  // The counters against the reference.
  // ---------------------------------------------------------------------

  lemma TickCounters(o: Obj, cfg: Config)
    ensures var r := Tick(o, cfg);
            && r.detectedFrameCount == 0
            && r.duration == (if Enough(o) && !Raises(o, cfg) then o.duration + 1 else 0)
            && r.heatCount == if ChecksHeat(o, cfg) then 0 else o.heatCount
  {
    RaiseChanges(o.(duration := o.duration + 1), cfg);
    MarkChanges(RaiseIfDue(o.(duration := o.duration + 1), cfg), cfg);
    hide RaiseIfDue; hide MarkFlow;
  }

  lemma FlowCounters(o: Obj, cfg: Config, f: Flow, second: bool, rgb: bool, moveSpeed: int)
    requires f.Valid()
    ensures var r := ProcessFlow(o, cfg, f, second, rgb, moveSpeed);
            r.detectedFrameCount == o.detectedFrameCount && r.duration == o.duration && r.heatCount == o.heatCount
  {
    hide BoxMotion; hide Confirms;
  }

  lemma TriggerCounters(o: Obj, cfg: Config)
    ensures var r := Trigger(o, cfg);
            r.detectedFrameCount == o.detectedFrameCount && r.duration == o.duration && r.heatCount == o.heatCount
  {
  }

  lemma ApplyCounters(o: Obj, e: Event)
    requires ValidAvg(o.tempAvg) && ValidEvent(e)
    ensures Apply(o, e).detectedFrameCount ==
            match e
            case Gather(c) => o.detectedFrameCount + (if Abnormal(c) then 1 else 0)
            case Second(_) => 0
            case Clear(_) => 0
            case _ => o.detectedFrameCount
    ensures Apply(o, e).duration ==
            match e
            case Second(cfg) => if Enough(o) && !Raises(o, cfg) then o.duration + 1 else 0
            case Clear(_) => 0
            case _ => o.duration
    ensures Apply(o, e).heatCount ==
            match e
            case HeatHit => o.heatCount + 1
            case Second(cfg) => if ChecksHeat(o, cfg) then 0 else o.heatCount
            case Clear(_) => 0
            case _ => o.heatCount
  {
    hide Tick; hide ProcessFlow; hide Trigger;
    match e
    case Second(cfg) => TickCounters(o, cfg);
    case Clear(cfg) =>
    case FlowRecord(cfg, f, second, rgb, moveSpeed) => FlowCounters(o, cfg, f, second, rgb, moveSpeed);
    case Notify(cfg) => TriggerCounters(o, cfg);
    case _ =>
  }

  lemma {:induction false} CountersMatch(es: History)
    ensures Run(es).detectedFrameCount == Detections(es)
    ensures Run(es).duration <= GoodTicks(es)
    ensures Run(es).heatCount == HeatHits(es)
  {
    hide Apply;
    if es != [] {
      CountersMatch(Front(es));
      ApplyCounters(Run(Front(es)), Last(es));
    }
  }

  /** The last `n` ticks of the history were each preceded, since the tick before, by enough
      detections, and no reset fell between the first of them and the end. */
  ghost predicate LastTicksGood(es: History, n: nat) {
    n == 0 || (es != [] && !Last(es).Clear? &&
      if Last(es).Second? then Detections(Front(es)) >= PER_CAM_SEC_FRAME - 1 && LastTicksGood(Front(es), n - 1)
      else LastTicksGood(Front(es), n))
  }

  lemma {:induction false} GoodTicksMeans(es: History, n: nat)
    requires n <= GoodTicks(es)
    ensures LastTicksGood(es, n)
  {
    if n > 0 {
      GoodTicksMeans(Front(es), if Last(es).Second? then n - 1 else n);
    }
  }

  /** A tick turns the flag on exactly when it raises and the heat check, if it runs, lets it stand. */
  lemma FlagTurnsOnExactly(o: Obj, cfg: Config)
    requires !o.notificationFlag
    ensures Tick(o, cfg).notificationFlag
            <==> Raises(o, cfg) && (ChecksHeat(o, cfg) ==> o.heatCount >= HEAT_COUNT_THRESHOLD)
  {
    RaiseChanges(o.(duration := o.duration + 1), cfg);
    MarkChanges(RaiseIfDue(o.(duration := o.duration + 1), cfg), cfg);
    hide RaiseIfDue; hide MarkFlow;
  }

  /** Soundness: a tick raises the flag for a class with threshold T only when each of the last T
      ticks saw enough detections, with no break or reset in between. */
  lemma RaiseIsSound(es: History, cfg: Config)
    requires Raises(Run(es), cfg)
    ensures LastTicksGood(es + [Second(cfg)], Max(1, cfg.threshold(Run(es).classId)))
  {
    var all := es + [Second(cfg)];
    assert Front(all) == es;
    CountersMatch(es);
    GoodTicksMeans(all, Max(1, cfg.threshold(Run(es).classId)));
  }

  /** With the classifier on, a HEAT flag survives its tick exactly when the classifier hit at least
      once since the last heat check or reset. */
  lemma HeatFlagNeedsHit(es: History, cfg: Config)
    requires ChecksHeat(Run(es), cfg)
    ensures Run(es + [Second(cfg)]).notificationFlag <==> HeatHits(es) >= 1
  {
    assert Front(es + [Second(cfg)]) == es;
    CountersMatch(es);
  }

  // ---------------------------------------------------------------------
  // Completeness and spacing, over any stretch of a history.
  // ---------------------------------------------------------------------

  /** Some tick of the stretch `es` from `o` raises. */
  ghost predicate SomeRaise(o: Obj, es: History)
    requires ValidAvg(o.tempAvg)
  {
    es != [] && (SomeRaise(o, Front(es)) || (Last(es).Second? && Raises(RunFrom(o, Front(es)), Last(es).cfg)))
  }

  ghost predicate SteadyEvent(o: Obj, e: Event, t: int) {
    !e.Clear? && (e.Second? ==> Enough(o) && e.cfg.threshold(o.classId) == t)
  }

  /** No reset, and every tick finds enough detections and a class whose threshold is `t`. */
  ghost predicate Steady(o: Obj, es: History, t: int)
    requires ValidAvg(o.tempAvg)
  {
    es == [] || (Steady(o, Front(es), t) && SteadyEvent(RunFrom(o, Front(es)), Last(es), t))
  }

  lemma {:induction false} DurationWithoutRaise(o: Obj, es: History, t: int)
    requires ValidAvg(o.tempAvg) && Steady(o, es, t) && !SomeRaise(o, es)
    ensures RunFrom(o, es).duration == o.duration + Ticks(es)
    ensures Ticks(es) > 0 ==> o.duration + Ticks(es) < t
  {
    hide Apply;
    if es != [] {
      DurationWithoutRaise(o, Front(es), t);
      ApplyCounters(RunFrom(o, Front(es)), Last(es));
    }
  }

  /** Completeness: T ticks with enough detections, threshold T and no reset include a raise,
      whatever state they start from. */
  lemma EnoughTicksRaise(o: Obj, es: History, t: int)
    requires ValidAvg(o.tempAvg) && Steady(o, es, t) && t >= 1 && Ticks(es) >= t
    ensures SomeRaise(o, es)
  {
    if !SomeRaise(o, es) {
      DurationWithoutRaise(o, es, t);
    }
  }

  lemma {:induction false} DurationGrowsSlowly(o: Obj, es: History)
    requires ValidAvg(o.tempAvg)
    ensures RunFrom(o, es).duration <= o.duration + Ticks(es)
  {
    hide Apply;
    if es != [] {
      DurationGrowsSlowly(o, Front(es));
      ApplyCounters(RunFrom(o, Front(es)), Last(es));
    }
  }

  /** Spacing: from one raise to the next, for a class with threshold T, there are at least T ticks,
      whatever happens in between. */
  lemma RaisesAreSpaced(es: History, cfg: Config, between: History, cfg': Config)
    requires Raises(Run(es), cfg)
    requires Raises(RunFrom(Run(es + [Second(cfg)]), between), cfg')
    ensures Ticks(between + [Second(cfg')]) >= cfg'.threshold(RunFrom(Run(es + [Second(cfg)]), between).classId)
  {
    assert Front(es + [Second(cfg)]) == es;
    assert Front(between + [Second(cfg')]) == between;
    DurationGrowsSlowly(Run(es + [Second(cfg)]), between);
  }
}
