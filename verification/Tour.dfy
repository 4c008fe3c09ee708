/** The automatic PTZ tour: one serial controller, the threads it starts, and the state they share. */
module Tour {
  import opened Common

  const MAX_PTZ_PRESET: nat := 12
  const END_MARK: byte := 0xFF

  // ---------------------------------------------------------------------
  // Sequences.
  // ---------------------------------------------------------------------

  /** A parsed sequence is at least two configured presets, the end mark, and the stay time. */
  ghost predicate ValidSequence(data: seq<byte>, configured: seq<bool>)
    requires |configured| == MAX_PTZ_PRESET
  {
    && 4 <= |data| <= MAX_PTZ_PRESET + 2
    && data[|data| - 2] == END_MARK
    && forall i :: 0 <= i < |data| - 2 ==> data[i] < MAX_PTZ_PRESET && configured[data[i]]
  }

  /** The positions of the sequence written over the front of the old ones. */
  function Overwrite(entries: seq<byte>, data: seq<byte>): (r: seq<byte>)
    requires 2 <= |data| <= |entries| + 2
    ensures |r| == |entries|
  {
    data[..|data| - 2] + entries[|data| - 2..]
  }

  /** The move sequence and the preset table as auto_move_ptz keeps them. */
  class Store {
    const moveSeq: array<byte>   // run flag, stay time, count, positions
    const configured: array<bool>

    constructor ()
      ensures fresh(moveSeq) && fresh(configured)
      ensures moveSeq.Length == MAX_PTZ_PRESET + 3 && configured.Length == MAX_PTZ_PRESET
    {
      moveSeq := new byte[MAX_PTZ_PRESET + 3](_ => 0);
      configured := new bool[MAX_PTZ_PRESET](_ => false);
    }

    /** The checks of auto_move_ptz, and the sequence they let in; a refused one changes nothing. */
    method LoadSequence(data: seq<byte>) returns (ok: bool)
      requires moveSeq.Length == MAX_PTZ_PRESET + 3 && configured.Length == MAX_PTZ_PRESET
      modifies moveSeq
      ensures ok <==> ValidSequence(data, configured[..])
      ensures !ok ==> moveSeq[..] == old(moveSeq[..])
      ensures ok ==> moveSeq[0] == 1 && moveSeq[1] == Last(data) && moveSeq[2] as int == |data| - 2
      ensures ok ==> forall k :: 0 <= k < |data| - 2 ==> moveSeq[3 + k] == data[k]
      ensures ok ==> forall k :: 3 + (|data| - 2) <= k < moveSeq.Length ==> moveSeq[k] == old(moveSeq[k])
    {
      var len := |data|;
      if len < 4 || len > MAX_PTZ_PRESET + 2 {
        return false;
      }
      if data[len - 2] != END_MARK {
        return false;
      }
      for i := 0 to len - 2
        invariant forall k :: 0 <= k < i ==> data[k] < MAX_PTZ_PRESET && configured[data[k]]
      {
        if data[i] >= MAX_PTZ_PRESET {
          return false;
        }
        if !configured[data[i]] {
          return false;
        }
      }
      moveSeq[0] := 1;
      moveSeq[1] := data[len - 1];
      moveSeq[2] := (len - 2) as byte;
      for i := 0 to len - 2
        invariant moveSeq[0] == 1 && moveSeq[1] == data[len - 1] && moveSeq[2] as int == len - 2
        invariant forall k :: 0 <= k < i ==> moveSeq[3 + k] == data[k]
        invariant forall k :: 3 + i <= k < moveSeq.Length ==> moveSeq[k] == old(moveSeq[k])
      {
        moveSeq[3 + i] := data[i];
      }
      ok := true;
    }
  }

  /** wait_for_ptz_completion: polled once a second. `settled(k)` says that the camera stands still at
      poll `k` and is at its target or cannot be asked; `running(k)` is the run flag after `k` seconds.
      It gives up early only on a lowered flag, and reports a time only for a settled camera or at the
      timeout. */
  method WaitForCompletion(timeoutSec: nat, settled: nat -> bool, running: nat -> bool) returns (elapsed: int)
    ensures -1 <= elapsed <= timeoutSec
    ensures elapsed == -1 ==> exists k :: 0 < k <= timeoutSec && !running(k) && forall j :: 0 <= j < k ==> !settled(j)
    ensures elapsed >= 0 ==>
            && (forall k :: 0 <= k < elapsed ==> !settled(k)) && (forall k :: 0 < k <= elapsed ==> running(k))
                             && (elapsed < timeoutSec ==> settled(elapsed))
  {
    elapsed := 0;
    while elapsed < timeoutSec
      invariant 0 <= elapsed <= timeoutSec
      invariant forall k :: 0 <= k < elapsed ==> !settled(k)
      invariant forall k :: 0 < k <= elapsed ==> running(k)
    {
      if settled(elapsed) {
        return;
      }
      elapsed := elapsed + 1;
      if !running(elapsed) {
        return -1;
      }
    }
  }

  // ---------------------------------------------------------------------
  // The system: controller and tour threads, one step at a time.
  // ---------------------------------------------------------------------

  /** What a tour thread does. Compare is the comparison of the zooms of the presets at two positions,
      `out` its outcome. A move call sends a command unless the camera is already at the preset; Off
      and On are where the analysis is switched, when that is enabled. */
  datatype Act =
    | Compare(prev: nat, pos: nat, out: bool)
    | Move(pos: nat, preset: nat, noZoom: bool, sent: bool)
    | Off
    | On

  /** A finished stop and everything done for it. */
  datatype Stop = Stop(pos: nat, preset: nat, acts: seq<Act>)

  datatype Pc = Begin | Top | Comparing | Picking | Moving | Switching | Waiting | Staying

  /** `sequence` is what the Start command asked for; `done` and `acts` record what has been done. */
  datatype Thread = Thread(id: nat, sequence: seq<byte>, pc: Pc, maxIndex: nat, continueTag: bool, currentPreset: nat,
                           done: seq<Stop>, acts: seq<Act>)

  datatype Command = Start(data: seq<byte>) | Halt | SetPreset(preset: nat, read: bool) | Manual

  datatype Controller = Idle | Joining(c: Command) | Ready(c: Command)

  /** `entries` are the positions of AUTO_PTZ_MOVE_SEQ, of which the first `count` belong to the
      current sequence; `used` is the length of the longest sequence so far; `index` and `prevIndex`
      are the static variables of the thread function. */
  datatype State = State(flag: bool, stay: nat, count: nat, entries: seq<byte>, used: nat, configured: seq<bool>,
                         noZoom: bool, index: nat, prevIndex: nat,
                         threads: seq<Thread>, tid: nat, controller: Controller)

  datatype Action =
    | Call(c: Command)
    | Joined
    | Finish(created: bool)
    | Run(t: nat, zoomOut: bool, leave: bool, sent: bool)

  ghost predicate Initial(s: State) {
    && !s.flag && !s.noZoom && s.count == 0 && s.used == 0 && s.index == 0 && s.prevIndex == 0
    && s.threads == [] && s.controller == Idle
    && |s.entries| == MAX_PTZ_PRESET && |s.configured| == MAX_PTZ_PRESET
  }

  /** request_auto_move_ptz_stop: take the flag down and wait for the thread, if the flag was up. */
  function Request(s: State, c: Command): State {
    if s.flag then s.(flag := false, controller := Joining(c)) else s.(controller := Ready(c))
  }

  ghost function FinishCall(s: State, c: Command, created: bool): State
    requires |s.entries| == MAX_PTZ_PRESET && |s.configured| == MAX_PTZ_PRESET
  {
    var s := s.(controller := Idle);
    match c
    case Start(data) =>
      if !ValidSequence(data, s.configured) then s else
      var s := s.(flag := true, stay := Last(data), count := |data| - 2, entries := Overwrite(s.entries, data),
                  used := Max(s.used, |data| - 2));
      if !created then s else
      var t := Thread(s.tid + 1, data[..|data| - 2], Begin, 0, false, 0, [], []);
      s.(threads := s.threads + [t], tid := s.tid + 1)
    case Halt => s
    case SetPreset(preset, read) =>
      if read && preset < MAX_PTZ_PRESET then s.(configured := s.configured[preset := true]) else s
    case Manual => s.(noZoom := false)
  }

  /** AUTO_PTZ_MOVE_SEQ[i + 3]; out of bounds it could be any byte. */
  function Entry(s: State, i: nat): byte {
    if i < |s.entries| then s.entries[i] else END_MARK
  }

  /** The next position of a sequence of `n`. */
  function Succ(p: nat, n: nat): (q: nat)
    ensures n > 0 ==> q < n
  {
    if n == 0 then p else (p + 1) % n
  }

  /** One step of thread `t`, up to its next look at the run flag or at what the controller shares with
      it. `zoomOut` is the outcome of the zoom comparison; `leave` picks, where the run flag is down, the
      branch that notices it; `sent` says whether a move call sends a command. */
  function ThreadStep(s: State, t: Thread, zoomOut: bool, leave: bool, sent: bool): (State, Option<Thread>) {
    match t.pc
    case Begin => (s, Some(t.(pc := Top, maxIndex := s.count)))
    case Top =>
      if !s.flag then (s.(noZoom := false), None)
      else (s, Some(t.(pc := Comparing)))
    case Comparing =>
      if t.continueTag then (s.(noZoom := false), Some(t.(pc := Picking, continueTag := false)))
      else (s.(noZoom := zoomOut), Some(t.(pc := Picking, acts := t.acts + [Compare(s.prevIndex, s.index, zoomOut)])))
    case Picking => (s, Some(t.(pc := Moving, currentPreset := Entry(s, s.index))))
    case Moving => (s, Some(t.(pc := Switching, acts := t.acts + [Move(s.index, t.currentPreset, s.noZoom, sent)])))
    case Switching => (s, Some(t.(pc := Waiting, acts := t.acts + [Off])))
    case Waiting =>
      if leave && !s.flag then (s.(index := Succ(s.index, t.maxIndex), noZoom := false), None)
      else if s.noZoom then (s, Some(t.(pc := Top, continueTag := true)))
      else (s, Some(t.(pc := Staying, continueTag := false, acts := [],
        done := t.done + [Stop(s.index, t.currentPreset, t.acts + [On])])))
    case Staying =>
      if !s.flag then (s.(noZoom := false), None)
      else (s.(prevIndex := s.index, index := Succ(s.index, t.maxIndex)), Some(t.(pc := Top)))
  }

  ghost predicate Next(s: State, a: Action, s': State)
    requires |s.entries| == MAX_PTZ_PRESET && |s.configured| == MAX_PTZ_PRESET
  {
    match a
    case Call(c) => s.controller == Idle && s' == Request(s, c)
    case Joined =>
      && s.controller.Joining?
      && (forall i :: 0 <= i < |s.threads| ==> s.threads[i].id != s.tid)
      && s' == s.(controller := Ready(s.controller.c))
    case Finish(created) => s.controller.Ready? && s' == FinishCall(s, s.controller.c, created)
    case Run(i, zoomOut, leave, sent) =>
      && i < |s.threads|
      && var (r, t) := ThreadStep(s, s.threads[i], zoomOut, leave, sent);
         s' == r.(threads := s.threads[..i] + (if t.Some? then [t.value] else []) + s.threads[i + 1..])
  }

  // ---------------------------------------------------------------------
  // What every reachable state keeps.
  // ---------------------------------------------------------------------

  /** Every position that the static indices can name holds a configured preset, from this sequence
      or an older one. */
  ghost predicate Stored(s: State) {
    && |s.entries| == MAX_PTZ_PRESET && |s.configured| == MAX_PTZ_PRESET
    && s.count <= s.used <= MAX_PTZ_PRESET && (s.used == 0 || s.count >= 2)
    && s.index < Max(s.used, 1) && s.prevIndex < Max(s.used, 1)
    && forall k :: 0 <= k < s.used ==> s.entries[k] < MAX_PTZ_PRESET && s.configured[s.entries[k]]
  }

  /** A thread lives only while the run flag is up or the controller waits for it. */
  ghost predicate Lives(s: State) {
    && |s.threads| <= 1
    && (if s.threads != [] then s.threads[0].id == s.tid && s.used >= 2 else !s.noZoom)
    && match s.controller
       case Idle => s.threads != [] ==> s.flag
       case Joining(_) => !s.flag
       case Ready(_) => !s.flag && s.threads == []
  }

  predicate IsMove(a: Act, pos: nat, preset: nat, noZoom: bool) {
    a.Move? && a.pos == pos && a.preset == preset && a.noZoom == noZoom
  }

  predicate IsCompare(a: Act, prev: nat, pos: nat, out: bool) {
    a == Compare(prev, pos, out)
  }

  /** The first half of a zoom-out. */
  predicate HalfStop(acts: seq<Act>, prev: nat, pos: nat, preset: nat) {
    |acts| == 3 && IsCompare(acts[0], prev, pos, true) && IsMove(acts[1], pos, preset, true) && acts[2] == Off
  }

  /** A stop begins with a comparison. It goes on with one move call, or for a zoom-out with two at the
      same position of which only the first holds the zoom back; the analysis is switched off behind
      each and on behind the last. */
  predicate WholeStop(x: Stop) {
    var a := x.acts;
    && |a| >= 4 && a[0].Compare? && a[0].pos == x.pos
    && if a[0].out
       then |a| == 6 && IsMove(a[1], x.pos, x.preset, true) && a[2] == Off
            && IsMove(a[3], x.pos, x.preset, false) && a[4] == Off && a[5] == On
       else |a| == 4 && IsMove(a[1], x.pos, x.preset, false) && a[2] == Off && a[3] == On
  }

  /** `y` is the stop behind `x`: the next position of the round, compared with the one before. */
  predicate Succeeds(x: Stop, y: Stop, n: nat) {
    y.pos == Succ(x.pos, n) && y.acts != [] && y.acts[0].Compare? && y.acts[0].prev == x.pos
  }

  /** A stop at a position of the sequence drives to the preset there. */
  predicate AtItsPreset(x: Stop, sequence: seq<byte>) {
    x.pos < |sequence| ==> x.preset == sequence[x.pos]
  }

  /** Stops so far are whole and at their presets, and each succeeds the one before. */
  ghost predicate InOrder(t: Thread) {
    && (forall i :: 0 <= i < |t.done| ==> WholeStop(t.done[i]) && AtItsPreset(t.done[i], t.sequence))
    && (forall i :: 0 <= i < |t.done| - 1 ==> Succeeds(t.done[i], t.done[i + 1], t.maxIndex))
  }

  ghost predicate AtStep(s: State, t: Thread) {
    var n, preset := |t.acts|, Entry(s, s.index);
    var half := n >= 3 && HalfStop(t.acts[..3], s.prevIndex, s.index, preset);
    var again := half && !s.noZoom;
    var compared := n >= 1 && IsCompare(t.acts[0], s.prevIndex, s.index, s.noZoom);
    match t.pc
    case Begin => t.done == [] && n == 0 && !t.continueTag
    case Top => if t.continueTag then n == 3 && half else n == 0
    case Comparing => if t.continueTag then n == 3 && half else n == 0
    case Picking => (n == 1 && compared) || (n == 3 && again)
    case Moving => (n == 1 && compared) || (n == 3 && again)
    case Switching =>
      && ((n == 2 && compared) || (n == 4 && again))
      && IsMove(t.acts[n - 1], s.index, preset, s.noZoom)
    case Waiting =>
      && ((n == 3 && compared) || (n == 5 && again))
      && IsMove(t.acts[n - 2], s.index, preset, s.noZoom) && t.acts[n - 1] == Off
    case Staying => n == 0 && !t.continueTag
  }

  ghost predicate Placed(s: State, t: Thread) {
    && (if t.pc == Begin then t.done == [] else t.maxIndex == s.count)
    && |t.sequence| == s.count <= |s.entries| && (forall k :: 0 <= k < s.count ==> s.entries[k] == t.sequence[k])
    && (t.pc == Picking || t.pc == Moving || t.pc == Switching || t.pc == Waiting ==> !t.continueTag)
    && (t.pc == Moving || t.pc == Switching || t.pc == Waiting ==> t.currentPreset == Entry(s, s.index))
    && (t.pc == Staying ==> t.done != [] && Last(t.done).pos == s.index)
    && (t.pc != Staying && t.done != [] ==>
        s.index == Succ(Last(t.done).pos, t.maxIndex) && s.prevIndex == Last(t.done).pos)
  }

  ghost predicate Follows(s: State, t: Thread) {
    Placed(s, t) && AtStep(s, t) && InOrder(t)
  }

  ghost predicate Safe(s: State) {
    Stored(s) && Lives(s) && forall i :: 0 <= i < |s.threads| ==> Follows(s, s.threads[i])
  }

  lemma ThreadStepKeepsShared(s: State, t: Thread, zoomOut: bool, leave: bool, sent: bool)
    requires Stored(s) && Lives(s) && s.threads == [t] && Follows(s, t)
    ensures var (r, t') := ThreadStep(s, t, zoomOut, leave, sent);
            var s' := r.(threads := if t'.Some? then [t'.value] else []);
            Stored(s') && Lives(s')
  {
    hide AtStep; hide InOrder; hide Succ; hide Entry;
  }

  lemma FinishesStop(s: State, t: Thread)
    requires t.pc == Waiting && AtStep(s, t) && !s.noZoom && t.currentPreset == Entry(s, s.index)
    ensures var x := Stop(s.index, t.currentPreset, t.acts + [On]);
            WholeStop(x) && x.acts[0].prev == s.prevIndex
  {
    hide Entry;
    assert |t.acts| >= 3 ==> t.acts[..3][0] == t.acts[0] && t.acts[..3][1] == t.acts[1] && t.acts[..3][2] == t.acts[2];
  }

  lemma InOrderExtends(t: Thread, x: Stop)
    requires InOrder(t) && WholeStop(x) && AtItsPreset(x, t.sequence)
    requires t.done != [] ==> Succeeds(Last(t.done), x, t.maxIndex)
    ensures InOrder(t.(done := t.done + [x]))
  {
    hide WholeStop; hide Succeeds; hide AtItsPreset;
  }

  lemma CompareAtStep(s: State, t: Thread, zoomOut: bool)
    requires AtStep(s, t) && Placed(s, t) && (t.pc == Begin || t.pc == Top || t.pc == Comparing || t.pc == Picking)
    ensures var (r, t') := ThreadStep(s, t, zoomOut, false, false);
            t'.Some? ==> AtStep(r, t'.value)
  {
    hide Succ;
    assert |t.acts| == 3 ==> t.acts[..3] == t.acts;
  }

  lemma MoveAtStep(s: State, t: Thread, sent: bool)
    requires AtStep(s, t) && Placed(s, t) && (t.pc == Moving || t.pc == Switching)
    ensures var (r, t') := ThreadStep(s, t, false, false, sent);
            t'.Some? ==> AtStep(r, t'.value)
  {
    hide Succ; hide Entry;
    var next := ThreadStep(s, t, false, false, sent).1.value;
    assert |t.acts| >= 3 ==> next.acts[..3] == t.acts[..3];
  }

  lemma WaitAtStep(s: State, t: Thread, leave: bool)
    requires AtStep(s, t) && Placed(s, t) && (t.pc == Waiting || t.pc == Staying)
    ensures var (r, t') := ThreadStep(s, t, false, leave, false);
            t'.Some? ==> AtStep(r, t'.value)
  {
    hide Succ; hide Entry;
    assert |t.acts| == 3 ==> t.acts[..3] == t.acts;
  }

  lemma ThreadStepAtStep(s: State, t: Thread, zoomOut: bool, leave: bool, sent: bool)
    requires AtStep(s, t) && Placed(s, t)
    ensures var (r, t') := ThreadStep(s, t, zoomOut, leave, sent);
            t'.Some? ==> AtStep(r, t'.value)
  {
    hide AtStep; hide Placed; hide Succ; hide Entry;
    match t.pc
    case Moving => MoveAtStep(s, t, sent);
    case Switching => MoveAtStep(s, t, sent);
    case Waiting => WaitAtStep(s, t, leave);
    case Staying => WaitAtStep(s, t, leave);
    case _ => CompareAtStep(s, t, zoomOut);
  }

  lemma ThreadStepFollows(s: State, t: Thread, zoomOut: bool, leave: bool, sent: bool)
    requires Follows(s, t)
    ensures var (r, t') := ThreadStep(s, t, zoomOut, leave, sent);
            t'.Some? ==> Follows(r, t'.value)
  {
    ThreadStepAtStep(s, t, zoomOut, leave, sent);
    ThreadStepPlaced(s, t, zoomOut, leave, sent);
    ThreadStepInOrder(s, t, zoomOut, leave, sent);
    hide Placed; hide AtStep; hide InOrder; hide ThreadStep;
  }

  lemma ThreadStepPlaced(s: State, t: Thread, zoomOut: bool, leave: bool, sent: bool)
    requires Placed(s, t)
    ensures var (r, t') := ThreadStep(s, t, zoomOut, leave, sent);
            t'.Some? ==> Placed(r, t'.value)
  {
    hide Succ; hide Entry;
  }

  lemma ThreadStepInOrder(s: State, t: Thread, zoomOut: bool, leave: bool, sent: bool)
    requires Follows(s, t)
    ensures var (r, t') := ThreadStep(s, t, zoomOut, leave, sent);
            t'.Some? ==> InOrder(t'.value)
  {
    if t.pc == Waiting && !(leave && !s.flag) && !s.noZoom {
      FinishesStop(s, t);
      InOrderExtends(t, Stop(s.index, t.currentPreset, t.acts + [On]));
    }
    hide Succ; hide WholeStop; hide AtStep; hide Entry; hide Succeeds; hide AtItsPreset;
    assert t.pc == Begin ==> t.done == [];
  }

  lemma FollowsAlone(s: State, s': State, t: Thread)
    requires Follows(s, t) && s' == s.(threads := s'.threads)
    ensures Follows(s', t)
  {
    hide InOrder; hide Succ; hide HalfStop;
  }

  lemma ThreadStepIsSafe(s: State, zoomOut: bool, leave: bool, sent: bool)
    requires Safe(s) && s.threads != []
    ensures var (r, t) := ThreadStep(s, s.threads[0], zoomOut, leave, sent);
            var s' := r.(threads := if t.Some? then [t.value] else []);
            Stored(s') && Lives(s') && (t.Some? ==> Follows(s', t.value))
  {
    assert s.threads == [s.threads[0]];
    ThreadStepKeepsShared(s, s.threads[0], zoomOut, leave, sent);
    ThreadStepFollows(s, s.threads[0], zoomOut, leave, sent);
    var (r, t) := ThreadStep(s, s.threads[0], zoomOut, leave, sent);
    if t.Some? {
      FollowsAlone(r, r.(threads := [t.value]), t.value);
    }
    hide Follows; hide ThreadStep; hide Stored; hide Lives; hide InOrder;
  }

  lemma FinishIsSafe(s: State, c: Command, created: bool)
    requires Safe(s) && s.controller == Ready(c)
    ensures Safe(FinishCall(s, c, created))
  {
    if c.Start? && ValidSequence(c.data, s.configured) {
      var entries := Overwrite(s.entries, c.data);
      forall k | 0 <= k < Max(s.used, |c.data| - 2)
        ensures entries[k] < MAX_PTZ_PRESET && s.configured[entries[k]]
      {
        assert entries[k] == if k < |c.data| - 2 then c.data[k] else s.entries[k];
      }
    }
  }

  lemma RequestIsSafe(s: State, c: Command)
    requires Safe(s) && s.controller == Idle
    ensures Safe(Request(s, c))
  {
    hide InOrder; hide Succ;
  }

  lemma JoinedIsSafe(s: State)
    requires Safe(s) && s.controller.Joining?
    requires forall i :: 0 <= i < |s.threads| ==> s.threads[i].id != s.tid
    ensures Safe(s.(controller := Ready(s.controller.c)))
  {
    hide InOrder; hide Succ;
  }

  lemma NextIsSafe(s: State, a: Action, s': State)
    requires Safe(s) && Next(s, a, s')
    ensures Safe(s')
  {
    match a
    case Call(c) =>
      RequestIsSafe(s, c);
      hide Safe; hide Request;
    case Joined =>
      JoinedIsSafe(s);
      hide Safe;
    case Finish(created) =>
      FinishIsSafe(s, s.controller.c, created);
      hide FinishCall; hide Safe;
    case Run(i, zoomOut, leave, sent) =>
      ThreadStepIsSafe(s, zoomOut, leave, sent);
      hide ThreadStep; hide Follows; hide Stored;
      var (r, t) := ThreadStep(s, s.threads[0], zoomOut, leave, sent);
      assert s'.threads == if t.Some? then [t.value] else [];
  }

  lemma InitialIsSafe(s: State)
    requires Initial(s)
    ensures Safe(s)
  {
  }

  ghost predicate IsRun(run: seq<State>, actions: seq<Action>) {
    && |run| == |actions| + 1 && Initial(run[0])
    && forall i :: 0 <= i < |actions| ==>
         |run[i].entries| == MAX_PTZ_PRESET && |run[i].configured| == MAX_PTZ_PRESET
           && Next(run[i], actions[i], run[i + 1])
  }

  lemma {:induction false} RunIsSafe(run: seq<State>, actions: seq<Action>)
    requires IsRun(run, actions)
    ensures forall i :: 0 <= i < |run| ==> Safe(run[i])
  {
    if actions == [] {
      InitialIsSafe(run[0]);
    } else {
      hide Safe; hide Next; hide Initial;
      RunIsSafe(Front(run), Front(actions));
      assert Safe(Front(run)[|run| - 2]);
      NextIsSafe(run[|run| - 2], Last(actions), Last(run));
    }
  }

  // ---------------------------------------------------------------------
  // What this means for the camera.
  // ---------------------------------------------------------------------

  /** In every reachable state at most one tour thread is alive, and whatever it is about to drive to,
      or to compare the zoom of, is a configured preset, even when the static index survived a switch
      to a shorter sequence. */
  lemma ToursAreSafe(run: seq<State>, actions: seq<Action>, i: nat)
    requires IsRun(run, actions) && i < |run|
    ensures |run[i].threads| <= 1 && (run[i].threads == [] ==> !run[i].noZoom)
    ensures forall k :: 0 <= k < |run[i].threads| ==>
              var s, t := run[i], run[i].threads[k];
              && (t.pc != Begin ==> 2 <= t.maxIndex <= MAX_PTZ_PRESET)
              && (t.pc == Comparing || t.pc == Picking ==>
                  Drivable(s, Entry(s, s.index)) && Drivable(s, Entry(s, s.prevIndex)))
              && (t.pc == Moving || t.pc == Switching || t.pc == Waiting ==> Drivable(s, t.currentPreset))
  {
    RunIsSafe(run, actions);
    hide AtStep; hide InOrder; hide Succ; hide Next;
    assert Safe(run[i]);
  }

  ghost predicate Drivable(s: State, preset: nat) {
    preset < MAX_PTZ_PRESET && preset < |s.configured| && s.configured[preset]
  }

  predicate SameSequence(s: State, s': State) {
    s'.stay == s.stay && s'.count == s.count && s'.entries == s.entries && s'.configured == s.configured
  }

  lemma ThreadStepKeepsSequence(s: State, t: Thread, zoomOut: bool, leave: bool, sent: bool)
    ensures SameSequence(s, ThreadStep(s, t, zoomOut, leave, sent).0)
  {
    hide Succ; hide Entry;
  }

  /** While a tour thread is alive nothing but the run flag of the sequence changes, nor do the presets. */
  lemma SequenceIsFixedWhileRunning(run: seq<State>, actions: seq<Action>, i: nat)
    requires IsRun(run, actions) && i < |actions| && run[i].threads != []
    ensures SameSequence(run[i], run[i + 1])
  {
    RunIsSafe(run, actions);
    assert Safe(run[i]) && Next(run[i], actions[i], run[i + 1]);
    hide Follows; hide Stored; hide FinishCall; hide ThreadStep;
    match actions[i]
    case Run(k, zoomOut, leave, sent) => ThreadStepKeepsSequence(run[i], run[i].threads[k], zoomOut, leave, sent);
    case _ =>
  }

  /** What a finished Start has stored. */
  lemma StartTakes(s: State, data: seq<byte>, created: bool)
    requires |s.entries| == MAX_PTZ_PRESET && |s.configured| == MAX_PTZ_PRESET
    ensures var s' := FinishCall(s, Start(data), created);
            if !ValidSequence(data, s.configured) then s' == s.(controller := Idle)
            else
              && s'.flag && s'.stay == Last(data) && s'.count == |data| - 2 && s'.configured == s.configured
              && (forall k :: 0 <= k < s'.count ==> s'.entries[k] == data[k])
              && (forall k :: s'.count <= k < MAX_PTZ_PRESET ==> s'.entries[k] == s.entries[k])
              && |s'.threads| == |s.threads| + (if created then 1 else 0)
              && (created ==> Last(s'.threads).sequence == data[..|data| - 2])
  {
  }

  /** What a finished preset command has stored. */
  lemma PresetIsStored(s: State, preset: nat, read: bool)
    requires |s.entries| == MAX_PTZ_PRESET && |s.configured| == MAX_PTZ_PRESET
    ensures var s' := FinishCall(s, SetPreset(preset, read), false);
            && |s'.configured| == MAX_PTZ_PRESET && s' == s.(controller := Idle, configured := s'.configured)
            && forall k :: 0 <= k < MAX_PTZ_PRESET ==> s'.configured[k] == (s.configured[k] || (read && k == preset))
  {
  }

  /** The sequence of a live tour is that of a Start command of the run. */
  lemma {:induction false} SequenceIsAsked(run: seq<State>, actions: seq<Action>, i: nat)
    requires IsRun(run, actions) && i < |run| && run[i].threads != []
    ensures exists j, data :: 0 <= j < i && AsksFor(run[j], actions[j], data)
                              && run[i].threads[0].sequence == data[..|data| - 2]
  {
    RunIsSafe(run, actions);
    if i > 0 {
      assert Safe(run[i - 1]) && Safe(run[i]) && Next(run[i - 1], actions[i - 1], run[i]);
      SequenceStep(run[i - 1], actions[i - 1], run[i]);
      hide Next; hide Safe; hide Initial; hide AsksFor;
      if run[i - 1].threads != [] {
        SequenceIsAsked(run, actions, i - 1);
      }
    }
  }

  /** A Start command for a well-formed sequence ends. */
  ghost predicate AsksFor(s: State, a: Action, data: seq<byte>) {
    && a.Finish? && s.controller == Ready(Start(data)) && |s.configured| == MAX_PTZ_PRESET
    && ValidSequence(data, s.configured)
  }

  lemma FinishStarts(s: State, c: Command, created: bool)
    requires |s.entries| == MAX_PTZ_PRESET && |s.configured| == MAX_PTZ_PRESET
    requires s.threads == [] && FinishCall(s, c, created).threads != []
    ensures c.Start? && ValidSequence(c.data, s.configured)
    ensures FinishCall(s, c, created).threads[0].sequence == c.data[..|c.data| - 2]
  {
  }

  lemma StoredSizes(s: State)
    requires Stored(s)
    ensures |s.entries| == MAX_PTZ_PRESET && |s.configured| == MAX_PTZ_PRESET
  {
  }

  lemma SequenceStep(s: State, a: Action, s': State)
    requires Safe(s) && Safe(s') && Next(s, a, s') && s'.threads != []
    ensures if s.threads != [] then s'.threads[0].sequence == s.threads[0].sequence
            else exists data :: AsksFor(s, a, data) && s'.threads[0].sequence == data[..|data| - 2]
  {
    hide Placed; hide AtStep; hide InOrder; hide Succ; hide Entry; hide Stored;
    StoredSizes(s);
    if a.Finish? && s.threads == [] {
      FinishStarts(s, s.controller.c, a.created);
      hide FinishCall;
      assert AsksFor(s, a, s.controller.c.data);
    }
  }

  /** Completed stops of a tour: whole ones; from the second on they go round the positions, and each
      drives to the preset that the sequence names there. Only the first may still be at a position of
      an older, longer sequence. */
  lemma TourOrder(run: seq<State>, actions: seq<Action>, i: nat)
    requires IsRun(run, actions) && i < |run| && run[i].threads != []
    ensures var t := run[i].threads[0];
            && (forall k :: 0 <= k < |t.done| ==> WholeStop(t.done[k]) && AtItsPreset(t.done[k], t.sequence))
            && (forall k :: 0 <= k < |t.done| - 1 ==> Succeeds(t.done[k], t.done[k + 1], t.maxIndex))
            && (forall k :: 0 < k < |t.done| ==>
                t.done[k].pos < |t.sequence| && t.done[k].preset == t.sequence[t.done[k].pos])
  {
    RunIsSafe(run, actions);
    hide Next; hide Stored; hide WholeStop; hide AtStep;
    var s, t := run[i], run[i].threads[0];
    assert Follows(s, t) && s.count >= 2 by {
      assert Safe(s);
      StoredCount(s);
    }
    forall k | 0 < k < |t.done|
      ensures t.done[k].pos < |t.sequence| && t.done[k].preset == t.sequence[t.done[k].pos]
    {
      assert Succeeds(t.done[k - 1], t.done[k - 1 + 1], t.maxIndex);
      assert AtItsPreset(t.done[k], t.sequence);
    }
  }

  lemma StoredCount(s: State)
    requires Stored(s) && s.used >= 2
    ensures s.count >= 2
  {
  }

  lemma {:induction false} RoundFrom(stops: seq<Stop>, n: nat, k: nat, i: nat)
    requires n > 0 && k + i < |stops| && i < n && stops[k].pos < n
    requires forall j :: 0 <= j < |stops| - 1 ==> stops[j + 1].pos == Succ(stops[j].pos, n)
    ensures stops[k + i].pos == if stops[k].pos + i < n then stops[k].pos + i else stops[k].pos + i - n
  {
    if i > 0 {
      RoundFrom(stops, n, k, i - 1);
      ModOnce(stops[k + i - 1].pos + 1, n);
    }
  }

  /** Exactly one of the stops is at position `p`. */
  ghost predicate VisitsOnce(round: seq<Stop>, p: nat) {
    && (exists i :: 0 <= i < |round| && round[i].pos == p)
    && (forall i, j :: 0 <= i < j < |round| && round[i].pos == p ==> round[j].pos != p)
  }

  lemma RoundOfStops(stops: seq<Stop>, n: nat, k: nat, p: nat)
    requires n > 0 && 1 <= k && k + n <= |stops| && p < n
    requires forall j :: 0 <= j < |stops| - 1 ==> stops[j + 1].pos == Succ(stops[j].pos, n)
    ensures VisitsOnce(stops[k..k + n], p)
  {
    var round := stops[k..k + n];
    assert stops[k].pos < n by {
      assert stops[k - 1 + 1].pos == Succ(stops[k - 1].pos, n);
    }
    hide Succ;
    var first := stops[k].pos;
    forall i | 0 <= i < n
      ensures round[i].pos == if first + i < n then first + i else first + i - n
    {
      RoundFrom(stops, n, k, i);
    }
    var at := if p >= first then p - first else p + n - first;
    assert round[at].pos == p;
  }

  /** After the first advance of any tour in any run, any `n` completed stops in a row visit every
      position of its sequence of `n` exactly once. */
  lemma RoundVisitsEachOnce(run: seq<State>, actions: seq<Action>, i: nat, k: nat, p: nat)
    requires IsRun(run, actions) && i < |run| && run[i].threads != []
    requires 1 <= k && k + run[i].threads[0].maxIndex <= |run[i].threads[0].done|
    requires p < run[i].threads[0].maxIndex
    ensures var t := run[i].threads[0];
            VisitsOnce(t.done[k..k + t.maxIndex], p)
  {
    TourOrder(run, actions, i);
    hide IsRun; hide Succ; hide WholeStop;
    var t := run[i].threads[0];
    assert forall j :: 0 <= j < |t.done| - 1 ==> Succeeds(t.done[j], t.done[j + 1], t.maxIndex);
    RoundOfStops(t.done, t.maxIndex, k, p);
  }
}
