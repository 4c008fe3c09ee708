/** Optical flow of one frame: the motion in a box, the records of the frame, and which flagged objects
    the scan of the frame visits, how often, and in which order. */
module OptFlow {
  import opened Common
  import opened NewtonSqrt
  import opened ObjMonitor

  const MAX_OPT_FLOW_ITERATIONS: nat := 1000

  // ---------------------------------------------------------------------
  // Motion in a box.
  // ---------------------------------------------------------------------

  /** One row of the box, cell by cell; the guard on the index never strikes. */
  method AddRow(f: Flow, row: nat, col0: nat, cols: nat, total: real, count: nat) returns (total': real, count': nat)
    requires col0 + cols <= f.cols && row * f.cols + col0 + cols <= |f.vectors|
    ensures total' == total + SumCells(f, row * f.cols + col0, cols) && count' == count + cols
  {
    hide Hypot;
    total', count' := total, count;
    var col := col0;
    var rowStart := row * f.cols;
    while col < col0 + cols && col < f.cols
      invariant col0 <= col <= col0 + cols
      invariant total' == total + SumCells(f, rowStart + col0, col - col0) && count' == count + (col - col0)
    {
      var index := rowStart + col;
      assert 0 <= index < |f.vectors|;
      var v := f.vectors[index];
      var size := CalculateSqrt(v.0 as real, v.1 as real);
      ghost var n := col - col0;
      assert SumCells(f, rowStart + col0, n + 1) == SumCells(f, rowStart + col0, n) + MoveSize(v);
      total' := total' + size;
      count' := count' + 1;
      col := col + 1;
    }
  }

  /** Mean motion in the object's box. */
  method MeasureMotion(o: Obj, f: Flow) returns (motion: Option<real>)
    requires f.Valid()
    ensures motion == BoxMotion(o, f)
  {
    var (col0, cols) := Span(o.x, o.width, f.cols);
    var (row0, rows) := Span(o.y, o.height, f.rows);
    hide Span;
    if rows <= 0 || cols <= 0 {
      return None;
    }
    var total, count := 0.0, 0;
    var row := row0;
    while row < row0 + rows && row < f.rows
      invariant row0 <= row <= row0 + rows
      invariant total == SumRect(f, row0, col0, row - row0, cols) && count == (row - row0) * cols
    {
      CellInGrid(f, row, col0, cols);
      total, count := AddRow(f, row, col0, cols, total, count);
      NextRow(row - row0, cols);
      row := row + 1;
    }
    Positive(rows, cols);
    motion := Some(total / count as real);
  }

  // ---- what the box covers, and what is added up ----

  /** Cells are four pixels wide. The first cell is the one that holds the side's start, or the nearest
      one of the grid; the cells are as many whole ones as fit, or up to the end of the grid. */
  lemma SpanCovers(at: int, size: int, cells: nat)
    requires cells > 0
    ensures var (start, count) := Span(at, size, cells);
            && 0 <= start < cells && start + count <= cells
            && (0 <= at < 4 * cells ==> 4 * start <= at < 4 * start + 4)
            && (at < 0 ==> start == 0) && (at >= 4 * cells ==> start == cells - 1)
            && (size >= 0 ==> 0 <= 4 * count <= size && (size < 4 * count + 4 || start + count == cells))
            && (size < 4 ==> count <= 0)
  {
  }

  /** One is added for every ten pixels, begun or not, that the diagonal falls short of 160. */
  lemma CorrectionIs(diagonal: real)
    ensures var v := CorrectionValue(diagonal);
            if diagonal > 160.0 then v == 0
            else v >= 1 && 10.0 * (v - 1) as real <= 160.0 - diagonal < 10.0 * v as real
  {
  }

  /** The move sizes of row `r` at the columns from `lo` to below `hi`, over its first `k` columns. */
  ghost function RowTotal(f: Flow, r: nat, lo: int, hi: int, k: nat): real
    requires f.Valid() && r < f.rows && k <= f.cols
  {
    if k == 0 then 0.0 else
    CellInGrid(f, r, k - 1, 1);
    RowTotal(f, r, lo, hi, k - 1) + if lo <= k - 1 < hi then MoveSize(f.vectors[r * f.cols + (k - 1)]) else 0.0
  }

  /** The same over the rows from `top` to below `bottom`, over the first `k` rows of the grid. */
  ghost function GridTotal(f: Flow, top: int, bottom: int, lo: int, hi: int, k: nat): real
    requires f.Valid() && k <= f.rows
  {
    if k == 0 then 0.0 else
    GridTotal(f, top, bottom, lo, hi, k - 1) + if top <= k - 1 < bottom then RowTotal(f, k - 1, lo, hi, f.cols) else 0.0
  }

  lemma {:induction false} CellsAreRow(f: Flow, r: nat, lo: nat, n: nat, k: nat)
    requires f.Valid() && r < f.rows && lo + n <= f.cols && k <= f.cols
    ensures var done := if k <= lo then 0 else Min(k - lo, n);
            0 <= r * f.cols + lo && r * f.cols + lo + done <= |f.vectors|
            && SumCells(f, r * f.cols + lo, done) == RowTotal(f, r, lo, lo + n, k)
  {
    hide MoveSize;
    CellInGrid(f, r, lo, n);
    if k > 0 {
      CellsAreRow(f, r, lo, n, k - 1);
    }
  }

  lemma {:induction false} RectIsGrid(f: Flow, top: nat, lo: nat, rows: nat, cols: nat, k: nat)
    requires f.Valid() && top + rows <= f.rows && lo + cols <= f.cols && k <= f.rows
    ensures var done := if k <= top then 0 else Min(k - top, rows);
            SumRect(f, top, lo, done, cols) == GridTotal(f, top, top + rows, lo, lo + cols, k)
  {
    hide SumCells; hide RowTotal;
    if k > 0 {
      RectIsGrid(f, top, lo, rows, cols, k - 1);
      CellsAreRow(f, k - 1, lo, cols, f.cols);
    }
  }

  /** The motion of a box is the total of the move sizes of all cells of the grid that lie in its rows
      and columns, over their number; a box that covers no cell has none. */
  lemma MotionIsMean(o: Obj, f: Flow)
    requires f.Valid()
    ensures var (col, cols) := Span(o.x, o.width, f.cols);
            var (row, rows) := Span(o.y, o.height, f.rows);
            BoxMotion(o, f) == if rows <= 0 || cols <= 0 then None
                               else Some(GridTotal(f, row, row + rows, col, col + cols, f.rows) / (rows * cols) as real)
  {
    hide SumRect; hide GridTotal;
    var (col, cols) := Span(o.x, o.width, f.cols);
    var (row, rows) := Span(o.y, o.height, f.rows);
    if rows > 0 && cols > 0 {
      RectIsGrid(f, row, col, rows, cols, f.rows);
    }
  }

  lemma NextRow(n: nat, cols: nat)
    ensures (n + 1) * cols == n * cols + cols
  {
  }

  lemma Positive(rows: nat, cols: nat)
    requires rows > 0 && cols > 0
    ensures rows * cols > 0
  {
  }

  // ---------------------------------------------------------------------
  // What one pass of the scan does to an object, and what several do.
  // ---------------------------------------------------------------------

  /** The user metadata of a frame: None for an optical-flow record without data. */
  type Records = rs: seq<Option<Flow>> | forall i :: 0 <= i < |rs| ==> rs[i].Some? ==> rs[i].value.Valid()

  predicate HasRecord(records: seq<Option<Flow>>) {
    exists i :: 0 <= i < |records| && records[i].Some?
  }

  /** A pass over such a frame takes the object's optical-flow flag down; over any other it does not. */
  predicate Clears(cfg: Config, records: seq<Option<Flow>>, second: bool) {
    cfg.optFlowApply && second && HasRecord(records)
  }

  ghost function ProcessRecords(o: Obj, cfg: Config, records: Records, second: bool, rgb: bool, moveSpeed: int): Obj {
    if records == [] then o else
    var o := ProcessRecords(o, cfg, Front(records), second, rgb, moveSpeed);
    match Last(records)
    case None => o
    case Some(f) => ProcessFlow(o, cfg, f, second, rgb, moveSpeed)
  }

  ghost function ProcessTimes(o: Obj, cfg: Config, records: Records, second: bool, rgb: bool, moveSpeed: int,
                              times: nat): Obj {
    if times == 0 then o
    else ProcessRecords(ProcessTimes(o, cfg, records, second, rgb, moveSpeed, times - 1), cfg, records, second, rgb,
      moveSpeed)
  }

  lemma FlowFlag(o: Obj, cfg: Config, f: Flow, second: bool, rgb: bool, moveSpeed: int)
    requires f.Valid()
    ensures ProcessFlow(o, cfg, f, second, rgb, moveSpeed).doOptFlow == (o.doOptFlow && !(cfg.optFlowApply && second))
  {
    hide BoxMotion; hide Confirms;
  }

  lemma {:induction false} RecordsFlag(o: Obj, cfg: Config, records: Records, second: bool, rgb: bool, moveSpeed: int)
    ensures ProcessRecords(o, cfg, records, second, rgb, moveSpeed).doOptFlow ==
            (o.doOptFlow && !Clears(cfg, records, second))
  {
    hide ProcessFlow;
    if records != [] {
      var before := ProcessRecords(o, cfg, Front(records), second, rgb, moveSpeed);
      RecordsFlag(o, cfg, Front(records), second, rgb, moveSpeed);
      HasRecordStep(records);
      if Last(records).Some? {
        FlowFlag(before, cfg, Last(records).value, second, rgb, moveSpeed);
      }
    }
  }

  lemma HasRecordStep(records: seq<Option<Flow>>)
    requires records != []
    ensures HasRecord(records) <==> HasRecord(Front(records)) || Last(records).Some?
  {
    if i :| 0 <= i < |records| - 1 && records[i].Some? {
      assert Front(records)[i].Some?;
    }
  }

  /** What passes do to the flag. */
  lemma {:induction false} TimesFlag(o: Obj, cfg: Config, records: Records, second: bool, rgb: bool, moveSpeed: int,
                                     times: nat)
    ensures ProcessTimes(o, cfg, records, second, rgb, moveSpeed, times).doOptFlow ==
            (o.doOptFlow && !(Clears(cfg, records, second) && times > 0))
  {
    hide ProcessRecords;
    if times > 0 {
      TimesFlag(o, cfg, records, second, rgb, moveSpeed, times - 1);
      RecordsFlag(ProcessTimes(o, cfg, records, second, rgb, moveSpeed, times - 1), cfg, records, second, rgb,
        moveSpeed);
    }
  }

  lemma {:induction false} NothingRecorded(o: Obj, cfg: Config, records: Records, second: bool, rgb: bool,
                                           moveSpeed: int)
    requires !HasRecord(records)
    ensures ProcessRecords(o, cfg, records, second, rgb, moveSpeed) == o
  {
    if records != [] {
      HasRecordStep(records);
      NothingRecorded(o, cfg, Front(records), second, rgb, moveSpeed);
    }
  }

  /** Without a record the passes change nothing, however many there are. */
  lemma {:induction false} TimesWithoutRecord(o: Obj, cfg: Config, records: Records, second: bool, rgb: bool,
                                              moveSpeed: int, times: nat)
    requires !HasRecord(records)
    ensures ProcessTimes(o, cfg, records, second, rgb, moveSpeed, times) == o
  {
    hide ProcessRecords;
    if times > 0 {
      TimesWithoutRecord(o, cfg, records, second, rgb, moveSpeed, times - 1);
      NothingRecorded(o, cfg, records, second, rgb, moveSpeed);
    }
  }

  // ---------------------------------------------------------------------
  // Which slots the scan visits.
  // ---------------------------------------------------------------------

  /** The flagged slots below `k`, in order. */
  function FlaggedBelow(flags: seq<bool>, k: nat): seq<nat>
    requires k <= |flags|
  {
    if k == 0 then [] else FlaggedBelow(flags, k - 1) + (if flags[k - 1] then [k - 1] else [])
  }

  lemma {:induction false} FlaggedBelowHolds(flags: seq<bool>, k: nat, i: nat)
    requires k <= |flags|
    ensures i in FlaggedBelow(flags, k) <==> i < k && flags[i]
    ensures |FlaggedBelow(flags, k)| <= k
  {
    if k > 0 {
      FlaggedBelowHolds(flags, k - 1, i);
    }
  }

  lemma {:induction false} FlaggedBelowRises(flags: seq<bool>, k: nat, a: nat, b: nat)
    requires k <= |flags| && a < b < |FlaggedBelow(flags, k)|
    ensures FlaggedBelow(flags, k)[a] < FlaggedBelow(flags, k)[b]
  {
    var before := FlaggedBelow(flags, k - 1);
    if b < |before| {
      FlaggedBelowRises(flags, k - 1, a, b);
    } else {
      assert before[a] in before;
      FlaggedBelowHolds(flags, k - 1, before[a]);
    }
  }

  /** Each flagged slot is listed, once. */
  lemma FlaggedBelowIsExact(flags: seq<bool>, k: nat)
    requires k <= |flags|
    ensures |FlaggedBelow(flags, k)| <= k
    ensures forall i: nat :: i in FlaggedBelow(flags, k) <==> i < k && flags[i]
    ensures forall a, b :: 0 <= a < b < |FlaggedBelow(flags, k)| ==>
            FlaggedBelow(flags, k)[a] < FlaggedBelow(flags, k)[b]
  {
    hide FlaggedBelow;
    FlaggedBelowHolds(flags, k, 0);
    forall i: nat ensures i in FlaggedBelow(flags, k) <==> i < k && flags[i] {
      FlaggedBelowHolds(flags, k, i);
    }
    forall a, b | 0 <= a < b < |FlaggedBelow(flags, k)|
      ensures FlaggedBelow(flags, k)[a] < FlaggedBelow(flags, k)[b]
    {
      FlaggedBelowRises(flags, k, a, b);
    }
  }

  function Flagged(flags: seq<bool>): seq<nat> {
    FlaggedBelow(flags, |flags|)
  }

  /** Position after `n` steps round a cycle of `m`. */
  function Turn(n: nat, m: nat): (p: nat)
    requires m > 0
    ensures p < m
  {
    if n < m then n else Turn(n - m, m)
  }

  lemma {:induction false} TurnNext(n: nat, m: nat)
    requires m > 0
    ensures Turn(n + 1, m) == if Turn(n, m) + 1 == m then 0 else Turn(n, m) + 1
  {
    if n >= m {
      TurnNext(n - m, m);
    }
  }

  /** `n` elements of `xs`, over and over. */
  function Cycle(xs: seq<nat>, n: nat): (r: seq<nat>)
    requires n > 0 ==> xs != []
    ensures |r| == n
  {
    if n <= |xs| then xs[..n] else xs + Cycle(xs, n - |xs|)
  }

  lemma {:induction false} CycleNext(xs: seq<nat>, n: nat)
    requires xs != []
    ensures Cycle(xs, n + 1) == Cycle(xs, n) + [xs[Turn(n, |xs|)]]
  {
    if n >= |xs| {
      CycleNext(xs, n - |xs|);
      if n == |xs| {
        assert Cycle(xs, n) == xs && Cycle(xs, n + 1) == xs + Cycle(xs, 1);
      }
    }
  }

  /** The scan comes to an end by itself: passes take flags down, or the last slot is not flagged. */
  predicate Ends(flags: seq<bool>, clears: bool) {
    clears || flags == [] || !Last(flags)
  }

  /** The slots that the scan of a frame visits, in order: each flagged one once; or, when passes leave
      the flags up and the last slot is flagged, round and round up to the cap. */
  function Visits(flags: seq<bool>, clears: bool): seq<nat> {
    if Ends(flags, clears) then Flagged(flags)
    else
      assert FlaggedBelow(flags, |flags|) == FlaggedBelow(flags, |flags| - 1) + [|flags| - 1];
      Cycle(Flagged(flags), MAX_OPT_FLOW_ITERATIONS + 1)
  }

  function Count(xs: seq<nat>, x: nat): nat {
    if xs == [] then 0 else Count(Front(xs), x) + if Last(xs) == x then 1 else 0
  }

  lemma {:induction false} CountNext(xs: seq<nat>, y: nat, x: nat)
    ensures Count(xs + [y], x) == Count(xs, x) + if y == x then 1 else 0
  {
    assert Front(xs + [y]) == xs;
  }

  lemma {:induction false} CountAppend(xs: seq<nat>, ys: seq<nat>, x: nat)
    ensures Count(xs + ys, x) == Count(xs, x) + Count(ys, x)
  {
    if ys == [] {
      assert xs + ys == xs;
    } else {
      assert Front(xs + ys) == xs + Front(ys);
      CountAppend(xs, Front(ys), x);
    }
  }

  lemma {:induction false} CountPositive(xs: seq<nat>, x: nat)
    ensures Count(xs, x) > 0 <==> x in xs
  {
    if xs != [] {
      CountPositive(Front(xs), x);
      assert x in xs <==> x in Front(xs) || x == Last(xs);
    }
  }

  lemma {:induction false} CountDistinct(xs: seq<nat>, n: nat, p: nat)
    requires forall a, b :: 0 <= a < b < |xs| ==> xs[a] != xs[b]
    requires n <= |xs| && p < |xs|
    ensures Count(xs[..n], xs[p]) == if p < n then 1 else 0
  {
    if n > 0 {
      assert Front(xs[..n]) == xs[..n - 1];
      CountDistinct(xs, n - 1, p);
    }
  }

  lemma DivStep(x: nat, m: nat)
    requires m > 0
    ensures (x + m) / m == x / m + 1
  {
    assert x == m * (x / m) + x % m;
    assert x + m == m * (x / m + 1) + x % m;
    DivUnique(x + m, m, x / m + 1, x % m);
  }

  lemma DivUnique(x: nat, m: nat, q: nat, r: nat)
    requires m > 0 && r < m && x == m * q + r
    ensures x / m == q
  {
    var q' := x / m;
    assert x == m * q' + x % m;
    if q < q' {
      RowStep(m, q, q');
    } else if q' < q {
      RowStep(m, q', q);
    }
  }

  lemma {:induction false} CountCycle(xs: seq<nat>, n: nat, p: nat)
    requires forall a, b :: 0 <= a < b < |xs| ==> xs[a] != xs[b]
    requires p < |xs|
    ensures Count(Cycle(xs, n), xs[p]) == (n + |xs| - 1 - p) / |xs|
    decreases n
  {
    var m := |xs|;
    if n <= m {
      CountDistinct(xs, n, p);
      if p < n {
        DivUnique(n + m - 1 - p, m, 1, n - 1 - p);
      } else {
        DivUnique(n + m - 1 - p, m, 0, n + m - 1 - p);
      }
    } else {
      CountCycle(xs, n - m, p);
      CountDistinct(xs, m, p);
      assert xs[..m] == xs;
      CountAppend(xs, Cycle(xs, n - m), xs[p]);
      DivStep(n - m + m - 1 - p, m);
    }
  }

  /** How often the scan passes over a slot: the `p`-th flagged one once, or when the scan does not end
      by itself its share of the 1001 passes; one that is not flagged never. */
  lemma PassesExactly(flags: seq<bool>, clears: bool, i: nat)
    requires i < |flags|
    ensures !flags[i] ==> Count(Visits(flags, clears), i) == 0
    ensures flags[i] ==>
              exists p: nat :: p < |Flagged(flags)| && Flagged(flags)[p] == i
                               && Count(Visits(flags, clears), i) ==
                                  if Ends(flags, clears) then 1
                                  else (MAX_OPT_FLOW_ITERATIONS + |Flagged(flags)| - p) / |Flagged(flags)|
  {
    var once := Flagged(flags);
    hide FlaggedBelow; hide Count; hide Cycle;
    FlaggedBelowIsExact(flags, |flags|);
    CountPositive(Visits(flags, clears), i);
    if flags[i] {
      assert i in once;
      var p: nat :| p < |once| && once[p] == i;
      if Ends(flags, clears) {
        CountDistinct(once, |once|, p);
        assert once[..|once|] == once;
      } else {
        CountCycle(once, MAX_OPT_FLOW_ITERATIONS + 1, p);
      }
    } else if !Ends(flags, clears) {
      CycleWithin(once, MAX_OPT_FLOW_ITERATIONS + 1, i);
    }
  }

  lemma {:induction false} CycleWithin(xs: seq<nat>, n: nat, x: nat)
    requires n > 0 ==> xs != []
    requires x !in xs
    ensures x !in Cycle(xs, n)
  {
    if n > |xs| {
      CycleWithin(xs, n - |xs|, x);
    }
  }

  /** The last slot alone, on a frame that takes no flag down: 1001 passes over the same frame. */
  lemma LastSlotRepeats(n: nat)
    requires n > 0
    ensures var flags := seq(n, i => i == n - 1);
            |Visits(flags, false)| == 1001 && Count(Visits(flags, false), n - 1) == 1001
  {
    var flags := seq(n, i => i == n - 1);
    hide Cycle; hide Count;
    OnlyLast(flags, n - 1);
    assert Flagged(flags) == [n - 1];
    hide FlaggedBelow;
    LoneSlotRepeats(flags, n - 1);
  }

  lemma LoneSlotRepeats(flags: seq<bool>, last: nat)
    requires |flags| == last + 1 && flags[last] && Flagged(flags) == [last]
    ensures |Visits(flags, false)| == 1001 && Count(Visits(flags, false), last) == 1001
  {
    hide Cycle; hide Count; hide Flagged;
    var once: seq<nat> := [last];
    CountCycle(once, MAX_OPT_FLOW_ITERATIONS + 1, 0);
    assert (MAX_OPT_FLOW_ITERATIONS + 1 + |once| - 1 - 0) / |once| == 1001;
  }

  lemma {:induction false} OnlyLast(flags: seq<bool>, k: nat)
    requires k <= |flags| && forall i :: 0 <= i < k ==> !flags[i]
    ensures FlaggedBelow(flags, k) == []
  {
    if k > 0 {
      OnlyLast(flags, k - 1);
    }
  }

  // ---------------------------------------------------------------------
  // Where the scan stands.
  // ---------------------------------------------------------------------

  /** `id` is the first flagged slot from `start` on, or -1. */
  predicate FirstFrom(flags: seq<bool>, start: nat, id: int) {
    && -1 <= id < |flags|
    && if id == -1 then forall i :: start <= i < |flags| ==> !flags[i]
       else start <= id && flags[id] && forall i :: start <= i < id ==> !flags[i]
  }

  /** After `v` visits the search has found `id`. */
  ghost predicate Found(flags: seq<bool>, clears: bool, v: nat, id: int) {
    var once := Flagged(flags);
    if id == -1 then v == |once| && Ends(flags, clears)
    else once != [] && id == once[Turn(v, |once|)] && (Ends(flags, clears) ==> v < |once|)
  }

  /** The first flagged slot is the first of the list. */
  lemma FirstOfList(flags: seq<bool>, id: int)
    requires FirstFrom(flags, 0, id)
    ensures id == if Flagged(flags) == [] then -1 else Flagged(flags)[0]
  {
    var once := Flagged(flags);
    hide FlaggedBelow;
    FlaggedBelowIsExact(flags, |flags|);
    assert once != [] ==> once[0] in once;
    assert id >= 0 ==> id in once;
  }

  /** The first flagged slot behind one of the list is the next of the list. */
  lemma NextOfList(flags: seq<bool>, q: nat, next: int)
    requires q < |Flagged(flags)| && FirstFrom(flags, Flagged(flags)[q] + 1, next)
    ensures next == if q + 1 == |Flagged(flags)| then -1 else Flagged(flags)[q + 1]
  {
    var once := Flagged(flags);
    hide FlaggedBelow;
    FlaggedBelowIsExact(flags, |flags|);
    if next >= 0 {
      assert next in once;
      var p: nat :| p < |once| && once[p] == next;
      assert p > q;
    }
    if q + 1 < |once| {
      assert once[q + 1] in once;
    }
  }

  lemma ScanStarts(flags: seq<bool>, clears: bool, id: int)
    requires FirstFrom(flags, 0, id)
    ensures Found(flags, clears, 0, id)
  {
    hide FlaggedBelow;
    FlaggedBelowIsExact(flags, |flags|);
    FirstOfList(flags, id);
    assert Flagged(flags) == [] && flags != [] ==> !Last(flags);
  }

  /** The slot found is the next of the cycle. */
  lemma FoundNext(flags: seq<bool>, clears: bool, v: nat, id: nat)
    requires Found(flags, clears, v, id)
    ensures Flagged(flags) != [] && Cycle(Flagged(flags), v + 1) == Cycle(Flagged(flags), v) + [id]
  {
    hide Flagged; hide Cycle; hide Turn;
    CycleNext(Flagged(flags), v);
  }

  lemma CycleNone(xs: seq<nat>)
    ensures Cycle(xs, 0) == []
  {
  }

  /** The flags that are still up after the slots of `visited`. */
  ghost predicate StillUp(flags: seq<bool>, now: seq<bool>, clears: bool, visited: seq<nat>) {
    |now| == |flags| && forall i: nat :: i < |flags| ==> now[i] == (flags[i] && !(clears && i in visited))
  }

  lemma ScanGoesOn(flags: seq<bool>, now: seq<bool>, clears: bool, v: nat, id: nat, next: int)
    requires Found(flags, clears, v, id) && Flagged(flags) != [] && id < |flags|
    requires StillUp(flags, now, clears, Cycle(Flagged(flags), v + 1))
    requires FirstFrom(now, if id + 1 == |flags| then 0 else id + 1, next)
    ensures Found(flags, clears, v + 1, next)
  {
    var once := Flagged(flags);
    var q := Turn(v, |once|);
    hide FlaggedBelow; hide Cycle;
    TurnNext(v, |once|);
    UpAhead(flags, now, clears, v);
    if id + 1 < |flags| {
      assert FirstFrom(flags, id + 1, next);
      NextOfList(flags, q, next);
      assert next == -1 ==> !flags[|flags| - 1];
      assert Ends(flags, clears) ==> v == q;
    } else {
      FlaggedBelowIsExact(flags, |flags|);
      assert once[q] in once;
      assert FirstFrom(flags, id + 1, -1);
      NextOfList(flags, q, -1);
      if !clears {
        assert now == flags;
        FirstOfList(flags, next);
      }
    }
  }

  /** Behind the slot visited last the flags are as they were; once all are visited, all are down. */
  lemma UpAhead(flags: seq<bool>, now: seq<bool>, clears: bool, v: nat)
    requires var once := Flagged(flags);
             once != [] && (clears ==> v < |once|) && StillUp(flags, now, clears, Cycle(once, v + 1))
    ensures var once := Flagged(flags);
            var q := Turn(v, |once|);
            && (forall i :: once[q] < i < |flags| ==> now[i] == flags[i])
            && (clears ==> v == q)
            && (clears && q + 1 == |once| ==> forall i :: 0 <= i < |flags| ==> !now[i])
  {
    var once := Flagged(flags);
    hide FlaggedBelow;
    FlaggedBelowIsExact(flags, |flags|);
    if clears {
      assert Cycle(once, v + 1) == once[..v + 1];
      if v + 1 == |once| {
        assert once[..v + 1] == once;
      }
      forall i | once[v] < i < |flags|
        ensures now[i] == flags[i]
      {
        assert forall p :: 0 <= p <= v ==> once[p] <= once[v];
      }
    }
  }

  lemma ScanResult(flags: seq<bool>, clears: bool, v: nat, id: int)
    requires Found(flags, clears, v, id) && |flags| <= MAX_OPT_FLOW_ITERATIONS
    requires id == -1 || v == MAX_OPT_FLOW_ITERATIONS + 1
    ensures (v > 0 ==> Flagged(flags) != []) && Cycle(Flagged(flags), v) == Visits(flags, clears)
  {
    FlaggedBelowIsExact(flags, |flags|);
  }

  // ---------------------------------------------------------------------
  // The passes as a history.
  // ---------------------------------------------------------------------

  ghost function FlowEvents(cfg: Config, records: Records, second: bool, rgb: bool, moveSpeed: int): History {
    if records == [] then [] else
    FlowEvents(cfg, Front(records), second, rgb, moveSpeed) +
    match Last(records) case None => [] case Some(f) => [FlowRecord(cfg, f, second, rgb, moveSpeed)]
  }

  /** The records of a frame count one after another ... */
  lemma {:induction false} FlowEventsAppend(cfg: Config, a: Records, b: Records, second: bool, rgb: bool,
                                            moveSpeed: int)
    ensures FlowEvents(cfg, a + b, second, rgb, moveSpeed) ==
            FlowEvents(cfg, a, second, rgb, moveSpeed) + FlowEvents(cfg, b, second, rgb, moveSpeed)
  {
    if b == [] {
      assert a + b == a;
    } else {
      assert Front(a + b) == a + Front(b);
      FlowEventsAppend(cfg, a, Front(b), second, rgb, moveSpeed);
    }
  }

  /** ... each one with data as one event, one without data as none. */
  lemma FlowEventsOfOne(cfg: Config, record: Option<Flow>, second: bool, rgb: bool, moveSpeed: int)
    requires record.Some? ==> record.value.Valid()
    ensures FlowEvents(cfg, [record], second, rgb, moveSpeed) ==
            match record case None => [] case Some(f) => [FlowRecord(cfg, f, second, rgb, moveSpeed)]
  {
    assert Front([record]) == [];
  }

  ghost function Times(es: History, k: nat): History {
    if k == 0 then [] else Times(es, k - 1) + es
  }

  lemma ApplyFlowRecord(o: Obj, cfg: Config, f: Flow, second: bool, rgb: bool, moveSpeed: int)
    requires ValidAvg(o.tempAvg) && f.Valid()
    ensures Apply(o, FlowRecord(cfg, f, second, rgb, moveSpeed)) == ProcessFlow(o, cfg, f, second, rgb, moveSpeed)
  {
    hide ProcessFlow;
  }

  lemma {:induction false} RecordsAreEvents(o: Obj, cfg: Config, records: Records, second: bool, rgb: bool,
                                            moveSpeed: int)
    requires ValidAvg(o.tempAvg)
    ensures RunFrom(o, FlowEvents(cfg, records, second, rgb, moveSpeed)) ==
            ProcessRecords(o, cfg, records, second, rgb, moveSpeed)
  {
    hide ProcessFlow; hide Apply;
    if records != [] {
      RecordsAreEvents(o, cfg, Front(records), second, rgb, moveSpeed);
      var before := FlowEvents(cfg, Front(records), second, rgb, moveSpeed);
      match Last(records)
      case None => assert before + [] == before;
      case Some(f) =>
        RunOne(o, before, FlowRecord(cfg, f, second, rgb, moveSpeed));
        ApplyFlowRecord(RunFrom(o, before), cfg, f, second, rgb, moveSpeed);
    }
  }

  lemma {:induction false} TimesAreEvents(o: Obj, cfg: Config, records: Records, second: bool, rgb: bool,
                                          moveSpeed: int, k: nat)
    requires ValidAvg(o.tempAvg)
    ensures RunFrom(o, Times(FlowEvents(cfg, records, second, rgb, moveSpeed), k)) ==
            ProcessTimes(o, cfg, records, second, rgb, moveSpeed, k)
  {
    hide FlowEvents; hide ProcessRecords; hide Apply;
    if k > 0 {
      var es := FlowEvents(cfg, records, second, rgb, moveSpeed);
      TimesAreEvents(o, cfg, records, second, rgb, moveSpeed, k - 1);
      RunFromAppend(o, Times(es, k - 1), es);
      RecordsAreEvents(RunFrom(o, Times(es, k - 1)), cfg, records, second, rgb, moveSpeed);
    }
  }
}
