/** The record kept for one tracked object and everything that changes it, branch by branch. */
module ObjMonitor {
  import opened Common
  import opened NewtonSqrt

  const PER_CAM_SEC_FRAME: nat := 10
  const HEAT_COUNT_THRESHOLD: nat := 1
  const THRESHOLD_OVER_OPTICAL_FLOW_COUNT: nat := 2
  const THRESHOLD_BBOX_MOVE: nat := 30
  const THRESHOLD_RECT_SIZE_CHANGE: nat := 30
  const SMALL_BBOX_DIAGONAL: real := 160.0
  const TEMP_EVENT_TIME_GAP: nat := 300
  const BUFFER_SIZE: nat := 4

  datatype Class = NormalCow | HeatCow | FlipCow | LaborSignCow | NormalCowSitting | OverTemp

  predicate Abnormal(c: Class) {
    c != NormalCow && c != NormalCowSitting
  }

  /** The settings that the detection path reads. */
  datatype Config = Config(threshold: Class -> int, resnetApply: bool, optFlowApply: bool, optFlowThreshold: int,
                           thresholdUnderTemp: int, tempDiffThreshold: int, overTempTime: int, tempCorrection: int)

  /** The last samples of one object's temperature. */
  datatype AvgCalculator = AvgCalculator(buffer: seq<int>, index: nat, count: nat, sum: int)

  datatype Obj = Obj(
    detectedFrameCount: nat, duration: nat, classId: Class, notificationFlag: bool, heatCount: nat,
    doOptFlow: bool, optFlowCheckCount: nat, moveSizeAvg: real, optFlowDetectedCount: nat,
    x: int, y: int, width: int, height: int, prevX: int, prevY: int, prevWidth: int, prevHeight: int, diagonal: real,
    bboxTemp: int, corrected: bool, tempDuration: nat, tempEventTimeGap: nat, tempAvg: AvgCalculator)

  /** Static storage starts out zero. */
  const ZERO: Obj := Obj(0, 0, NormalCow, false, 0, false, 0, 0.0, 0, 0, 0, 0, 0, 0, 0, 0, 0, 0.0,
                         0, false, 0, 0, AvgCalculator([0, 0, 0, 0], 0, 0, 0))

  // ---------------------------------------------------------------------
  // Detections and the one-second tick.
  // ---------------------------------------------------------------------

  /** set_obj_rect_id: the raw class of the detection overwrites the object's class. */
  function SetRect(o: Obj, c: Class, x: int, y: int, width: int, height: int): Obj {
    o.(x := x, y := y, width := width, height := height, classId := c,
       diagonal := Hypot(width as real, height as real))
  }

  /** gather_event: `c` is normal unless the detection was confident. */
  function GatherEvent(o: Obj, c: Class): Obj {
    if Abnormal(c) then o.(detectedFrameCount := o.detectedFrameCount + 1, classId := c) else o
  }

  function InitOptFlow(o: Obj, cfg: Config, total: bool): Obj {
    if !cfg.optFlowApply then o else
    var o := o.(optFlowCheckCount := 0, moveSizeAvg := 0.0, doOptFlow := false);
    if !total then o else
    o.(optFlowDetectedCount := 0, prevX := 0, prevY := 0, prevWidth := 0, prevHeight := 0, x := 0, y := 0, width := 0,
      height := 0)
  }

  function CheckHeatCount(o: Obj): Obj {
    o.(notificationFlag := o.notificationFlag && o.heatCount >= HEAT_COUNT_THRESHOLD, heatCount := 0)
  }

  predicate Enough(o: Obj) {
    o.detectedFrameCount >= PER_CAM_SEC_FRAME - 1
  }

  /** The tick reaches the branch that raises the flag. */
  predicate Raises(o: Obj, cfg: Config) {
    Enough(o) && o.duration + 1 >= cfg.threshold(o.classId)
  }

  /** That branch also runs the heat check. */
  predicate ChecksHeat(o: Obj, cfg: Config) {
    Raises(o, cfg) && cfg.resnetApply && o.classId == HeatCow
  }

  /** The part of the tick that raises the flag, `duration` already counted up. */
  function RaiseIfDue(o: Obj, cfg: Config): Obj {
    if o.duration < cfg.threshold(o.classId) then o else
    var o := o.(duration := 0, notificationFlag := true);
    if cfg.resnetApply && o.classId == HeatCow then CheckHeatCount(o) else o
  }

  /** The part that flags a FLIP for the optical-flow scan. */
  function MarkFlow(o: Obj, cfg: Config): Obj {
    if !cfg.optFlowApply then o
    else if o.classId == FlipCow then o.(doOptFlow := true)
    else InitOptFlow(o, cfg, false)
  }

  /** check_events_for_notification(cam, 0), for one object. */
  function Tick(o: Obj, cfg: Config): Obj {
    if Enough(o) then
      MarkFlow(RaiseIfDue(o.(duration := o.duration + 1), cfg), cfg).(detectedFrameCount := 0)
    else
      InitOptFlow(o.(duration := 0), cfg, true).(detectedFrameCount := 0)
  }

  /** What raising changes. */
  lemma RaiseChanges(o: Obj, cfg: Config)
    ensures var r := RaiseIfDue(o, cfg);
            var due := o.duration >= cfg.threshold(o.classId);
            var checks := due && cfg.resnetApply && o.classId == HeatCow;
            r == o.(duration := if due then 0 else o.duration,
                    heatCount := if checks then 0 else o.heatCount,
                    notificationFlag := if checks then o.heatCount >= HEAT_COUNT_THRESHOLD
                      else due || o.notificationFlag)
  {
  }

  /** What flagging for the scan changes. */
  lemma MarkChanges(o: Obj, cfg: Config)
    ensures var r := MarkFlow(o, cfg);
            var clears := cfg.optFlowApply && o.classId != FlipCow;
            r == o.(doOptFlow := if cfg.optFlowApply then o.classId == FlipCow else o.doOptFlow,
                    optFlowCheckCount := if clears then 0 else o.optFlowCheckCount,
                    moveSizeAvg := if clears then 0.0 else o.moveSizeAvg)
  {
  }

  /** check_events_for_notification(cam, 1), for one object. */
  function Reset(o: Obj, cfg: Config): Obj {
    InitOptFlow(o.(detectedFrameCount := 0, duration := 0, tempDuration := 0, classId := NormalCow, heatCount := 0),
      cfg, true)
  }

  /** The object gets through to the notification step of trigger_notification. */
  predicate Fires(o: Obj, cfg: Config) {
    o.notificationFlag && !(cfg.optFlowApply && o.classId == FlipCow
      && o.optFlowDetectedCount < THRESHOLD_OVER_OPTICAL_FLOW_COUNT)
  }

  /** trigger_notification, for one object. */
  function Trigger(o: Obj, cfg: Config): Obj {
    if !o.notificationFlag then o else
    var o' := o.(notificationFlag := false);
    var o' := if cfg.optFlowApply && o.classId == FlipCow then InitOptFlow(o', cfg, true) else o';
    if Fires(o, cfg) then o'.(tempEventTimeGap := TEMP_EVENT_TIME_GAP) else o'
  }

  // ---------------------------------------------------------------------
  // Optical flow.
  // ---------------------------------------------------------------------

  /** One optical-flow record of a frame: `rows * cols` vectors, row by row. */
  datatype Flow = Flow(rows: nat, cols: nat, vectors: seq<(int, int)>) {
    ghost predicate Valid() {
      rows > 0 && cols > 0 && |vectors| == rows * cols
    }
  }

  /** First cell and cell count of a box side of length `size` from `at` on a grid of `cells`. */
  function Span(at: int, size: int, cells: nat): (int, int)
    requires cells > 0
  {
    var start := Min(Max(Quotient(at, 4), 0), cells - 1);
    (start, Min(Quotient(size, 4), cells - start))
  }

  function UpdateAverage(previous: real, count: nat, value: real): real
    requires count > 0
  {
    (previous * (count - 1) as real + value) / count as real
  }

  function CorrectionValue(diagonal: real): int {
    if diagonal <= SMALL_BBOX_DIAGONAL then ((SMALL_BBOX_DIAGONAL - diagonal) / 10.0 + 1.0).Floor else 0
  }

  function MoveSize(v: (int, int)): real {
    Hypot(v.0 as real, v.1 as real)
  }

  /** Total of the move sizes of `n` cells from index `i`. */
  function SumCells(f: Flow, i: nat, n: nat): real
    requires i + n <= |f.vectors|
  {
    if n == 0 then 0.0 else SumCells(f, i, n - 1) + MoveSize(f.vectors[i + n - 1])
  }

  lemma CellInGrid(f: Flow, row: nat, col: nat, n: nat)
    requires f.Valid() && row < f.rows && col + n <= f.cols
    ensures 0 <= row * f.cols + col && row * f.cols + col + n <= |f.vectors|
  {
    assert (row + 1) * f.cols <= f.rows * f.cols;
  }

  /** The same over `rows` rows of a rectangle. */
  function SumRect(f: Flow, row: nat, col: nat, rows: nat, cols: nat): real
    requires f.Valid() && row + rows <= f.rows && col + cols <= f.cols
  {
    if rows == 0 then 0.0 else
    CellInGrid(f, row + rows - 1, col, cols);
    SumRect(f, row, col, rows - 1, cols) + SumCells(f, (row + rows - 1) * f.cols + col, cols)
  }

  /** Mean motion inside the object's box, None when the box covers no cell. */
  function BoxMotion(o: Obj, f: Flow): Option<real>
    requires f.Valid()
  {
    var (col, cols) := Span(o.x, o.width, f.cols);
    var (row, rows) := Span(o.y, o.height, f.rows);
    if rows <= 0 || cols <= 0 then None else Some(SumRect(f, row, col, rows, cols) / (rows * cols) as real)
  }

  function AddMotion(o: Obj, motion: Option<real>): Obj {
    match motion
    case None => o
    case Some(m) =>
      o.(optFlowCheckCount := o.optFlowCheckCount + 1,
        moveSizeAvg := UpdateAverage(o.moveSizeAvg, o.optFlowCheckCount + 1, m))
  }

  /** A one-second flow record counts as a confirmation. */
  predicate Confirms(o: Obj, cfg: Config, rgb: bool, moveSpeed: int) {
    && Change(o.prevX, o.prevY, o.x, o.y) < THRESHOLD_BBOX_MOVE
    && Change(o.prevWidth, o.prevHeight, o.width, o.height) < THRESHOLD_RECT_SIZE_CHANGE
    && moveSpeed == 0
    && o.moveSizeAvg > (cfg.optFlowThreshold + CorrectionValue(o.diagonal) + if rgb then 9 else 0) as real
  }

  function CloseSecond(o: Obj, cfg: Config, rgb: bool, moveSpeed: int): Obj {
    var o' := o.(prevX := o.x, prevY := o.y, prevWidth := o.width, prevHeight := o.height,
                 optFlowDetectedCount := o.optFlowDetectedCount + if Confirms(o, cfg, rgb, moveSpeed) then 1 else 0);
    InitOptFlow(o', cfg, false)
  }

  /** process_opt_flow for one record. */
  function ProcessFlow(o: Obj, cfg: Config, f: Flow, second: bool, rgb: bool, moveSpeed: int): Obj
    requires f.Valid()
  {
    var o := AddMotion(o, BoxMotion(o, f));
    if second then CloseSecond(o, cfg, rgb, moveSpeed) else o
  }

  // ---------------------------------------------------------------------
  // Temperature.
  // ---------------------------------------------------------------------

  /** C `round`: halves go away from zero. */
  function Round(x: real): int {
    if x >= 0.0 then (x + 0.5).Floor else -(0.5 - x).Floor
  }

  predicate ValidAvg(a: AvgCalculator) {
    |a.buffer| == BUFFER_SIZE && a.index < BUFFER_SIZE && a.count <= BUFFER_SIZE
  }

  function PushSample(a: AvgCalculator, value: int): AvgCalculator
    requires ValidAvg(a)
  {
    var sum := (if a.count == BUFFER_SIZE then a.sum - a.buffer[a.index] else a.sum) + value;
    var count := if a.count < BUFFER_SIZE then a.count + 1 else a.count;
    AvgCalculator(a.buffer[a.index := value], (a.index + 1) % BUFFER_SIZE, count, sum)
  }

  /** add_value_and_calculate_avg. */
  function AddValue(o: Obj, value: int): Obj
    requires ValidAvg(o.tempAvg)
  {
    var a := PushSample(o.tempAvg, value);
    o.(tempAvg := a, bboxTemp := Round(a.sum as real / a.count as real), corrected := false)
  }

  /** add_correction, for one object. */
  function AddCorrection(o: Obj, cfg: Config): Obj {
    if cfg.tempCorrection == 0 || o.corrected then o
    else o.(bboxTemp := o.bboxTemp + cfg.tempCorrection, corrected := true)
  }

  predicate Hot(o: Obj, cfg: Config, average: int) {
    o.bboxTemp >= cfg.thresholdUnderTemp && o.bboxTemp > average + cfg.tempDiffThreshold
  }

  /** An evaluated temperature pass raises the over-temperature flag. */
  predicate RaisesOverTemp(o: Obj, cfg: Config, average: int) {
    Hot(o, cfg, average) && o.tempDuration + 1 >= cfg.overTempTime && o.tempEventTimeGap == 0
  }

  /** check_for_temp_notification, for one object, when the pass is evaluated. */
  function TempPass(o: Obj, cfg: Config, average: int): Obj {
    if o.bboxTemp < cfg.thresholdUnderTemp then o.(tempDuration := 0, classId := NormalCow)
    else if o.bboxTemp > average + cfg.tempDiffThreshold then
      var o := o.(tempDuration := o.tempDuration + 1);
      if o.tempDuration >= cfg.overTempTime then
        var o := o.(tempDuration := 0);
        if o.tempEventTimeGap == 0 then o.(classId := OverTemp, notificationFlag := true) else o
      else o
    else o.(tempDuration := 0, classId := NormalCow)
  }

  function DecGap(o: Obj): Obj {
    if o.tempEventTimeGap > 0 then o.(tempEventTimeGap := o.tempEventTimeGap - 1) else o
  }

  // ---------------------------------------------------------------------
  // Everything that happens to one object, in order.
  // ---------------------------------------------------------------------

  datatype Event =
    | Rect(c: Class, x: int, y: int, width: int, height: int)
    | Gather(c: Class)
    | HeatHit
    | Second(cfg: Config)
    | Clear(cfg: Config)
    | FlowRecord(cfg: Config, f: Flow, second: bool, rgb: bool, moveSpeed: int)
    | Notify(cfg: Config)
    | Sample(value: int)
    | Correct(cfg: Config)
    | Temperature(cfg: Config, average: int)
    | GapTick

  ghost predicate ValidEvent(e: Event) {
    e.FlowRecord? ==> e.f.Valid()
  }

  ghost function Apply(o: Obj, e: Event): (r: Obj)
    requires ValidAvg(o.tempAvg) && ValidEvent(e)
    ensures ValidAvg(r.tempAvg)
  {
    match e
    case Rect(c, x, y, width, height) => SetRect(o, c, x, y, width, height)
    case Gather(c) => GatherEvent(o, c)
    case HeatHit => o.(heatCount := o.heatCount + 1)
    case Second(cfg) => Tick(o, cfg)
    case Clear(cfg) => Reset(o, cfg)
    case FlowRecord(cfg, f, second, rgb, moveSpeed) => ProcessFlow(o, cfg, f, second, rgb, moveSpeed)
    case Notify(cfg) => Trigger(o, cfg)
    case Sample(value) => AddValue(o, value)
    case Correct(cfg) => AddCorrection(o, cfg)
    case Temperature(cfg, average) => TempPass(o, cfg, average)
    case GapTick => DecGap(o)
  }

  type History = es: seq<Event> | forall e :: e in es ==> ValidEvent(e)

  /** The record after `es`, from `o`. */
  ghost function RunFrom(o: Obj, es: History): (r: Obj)
    requires ValidAvg(o.tempAvg)
    ensures ValidAvg(r.tempAvg)
  {
    if es == [] then o else Apply(RunFrom(o, Front(es)), Last(es))
  }

  ghost function Run(es: History): (r: Obj)
    ensures ValidAvg(r.tempAvg)
  {
    RunFrom(ZERO, es)
  }

  lemma RunOne(o: Obj, es: History, e: Event)
    requires ValidAvg(o.tempAvg) && ValidEvent(e)
    ensures RunFrom(o, es + [e]) == Apply(RunFrom(o, es), e)
  {
    hide Apply;
    assert Front(es + [e]) == es;
  }

  /** A history of one event. */
  lemma RunSingle(o: Obj, e: Event)
    requires ValidAvg(o.tempAvg) && ValidEvent(e)
    ensures RunFrom(o, [e]) == Apply(o, e)
  {
    hide Apply;
    assert Front([e]) == [];
  }

  /** What each kind of event makes of the object. */
  lemma RunIs(o: Obj, e: Event)
    requires ValidAvg(o.tempAvg) && ValidEvent(e)
    ensures e.Second? ==> RunFrom(o, [e]) == Tick(o, e.cfg)
    ensures e.Temperature? ==> RunFrom(o, [e]) == TempPass(o, e.cfg, e.average)
    ensures e.Notify? ==> RunFrom(o, [e]) == Trigger(o, e.cfg)
    ensures e.Clear? ==> RunFrom(o, [e]) == Reset(o, e.cfg)
    ensures e.Correct? ==> RunFrom(o, [e]) == AddCorrection(o, e.cfg)
    ensures e.GapTick? ==> RunFrom(o, [e]) == DecGap(o)
    ensures e.Sample? ==> RunFrom(o, [e]) == AddValue(o, e.value)
  {
    hide Tick; hide TempPass; hide Trigger; hide Reset; hide AddCorrection; hide DecGap; hide AddValue;
    hide ProcessFlow; hide SetRect; hide GatherEvent; hide RunFrom;
    RunSingle(o, e);
  }

  lemma {:induction false} RunFromAppend(o: Obj, a: History, b: History)
    requires ValidAvg(o.tempAvg)
    ensures RunFrom(o, a + b) == RunFrom(RunFrom(o, a), b)
  {
    hide Apply;
    if b == [] {
      assert a + b == a;
    } else {
      assert Front(a + b) == a + Front(b);
      RunFromAppend(o, a, Front(b));
    }
  }
}
