/** The event-frame ring of one camera and the clip cut from it. */
module CircularBuffer {
  import opened Common
  import opened RingIndex

  const MAX_LEAD_IN: nat := 50

  /** What a slot holds, as a value. */
  datatype Frame = Frame(data: seq<byte>, isKeyframe: bool, pts: int, timestamp: real, index: nat)

  // ---------------------------------------------------------------------
  // What a clip request should select from the live frames, oldest first.
  // ---------------------------------------------------------------------

  /** First position whose timestamp is at or after `t`; |live| when there is none. */
  function FirstAtOrAfter(live: seq<Frame>, t: real): (i: nat)
    ensures i <= |live|
    ensures forall k :: 0 <= k < i ==> live[k].timestamp < t
    ensures i < |live| ==> live[i].timestamp >= t
  {
    if live == [] || live[0].timestamp >= t then 0 else 1 + FirstAtOrAfter(live[1..], t)
  }

  /** First position whose timestamp is after `t`; |live| when there is none. */
  function FirstAfter(live: seq<Frame>, t: real): (i: nat)
    ensures i <= |live|
    ensures forall k :: 0 <= k < i ==> live[k].timestamp <= t
    ensures i < |live| ==> live[i].timestamp > t
  {
    if live == [] || live[0].timestamp > t then 0 else 1 + FirstAfter(live[1..], t)
  }

  /** The nearest keyframe at or before `j` and not before `lo`. */
  function KeyframeBack(live: seq<Frame>, j: nat, lo: nat): (r: Option<nat>)
    requires lo <= j < |live|
    ensures r.Some? ==> lo <= r.value <= j && live[r.value].isKeyframe
    ensures forall k :: (if r.Some? then r.value + 1 else lo) <= k <= j ==> !live[k].isKeyframe
  {
    if live[j].isKeyframe then Some(j)
    else if j == lo then None
    else KeyframeBack(live, j - 1, lo)
  }

  /** Where a clip starts whose first wanted frame is `i0`: at the nearest keyframe at most
      MAX_LEAD_IN frames back, or at `i0` itself when no keyframe is in reach. */
  function LeadStart(live: seq<Frame>, i0: nat): (a: nat)
    requires i0 < |live|
    ensures Max(0, i0 - MAX_LEAD_IN) <= a <= i0
  {
    match KeyframeBack(live, i0, Max(0, i0 - MAX_LEAD_IN))
    case Some(k) => k
    case None => i0
  }

  /** First and last position of the clip for the window [from, to], or a failure. */
  function ClipRange(live: seq<Frame>, from: real, to: real): (r: Option<(nat, nat)>)
    ensures r.Some? ==> r.value.0 <= r.value.1 < |live|
  {
    var i0 := FirstAtOrAfter(live, from);
    var stop := FirstAfter(live, to);
    if i0 == |live| || stop < i0 || stop <= LeadStart(live, i0) then None
    else Some((LeadStart(live, i0), stop - 1))
  }

  ghost predicate NonDecreasing(live: seq<Frame>) {
    forall i, j :: 0 <= i < j < |live| ==> live[i].timestamp <= live[j].timestamp
  }

  predicate InWindow(f: Frame, from: real, to: real) {
    from <= f.timestamp <= to
  }

  /** With a clock that does not go back, a successful clip covers the window, ends inside it,
      and adds only a lead-in of at most 50 earlier frames, which starts at the nearest keyframe
      at or before the first wanted frame (and is empty when none is in reach). A failed call
      means that the window holds no live frame. */
  lemma ClipSelection(live: seq<Frame>, from: real, to: real)
    requires NonDecreasing(live)
    ensures var r := ClipRange(live, from, to);
            var i0 := FirstAtOrAfter(live, from);
            if r == None then forall k :: 0 <= k < |live| ==> !InWindow(live[k], from, to)
            else
              var (a, b) := r.value;
              && a <= i0 < |live| && i0 - a <= MAX_LEAD_IN
              && (forall k :: 0 <= k < |live| && InWindow(live[k], from, to) ==> a <= k <= b)
              && (forall k :: a <= k <= b ==> live[k].timestamp <= to)
              && (forall k :: a <= k <= b ==> (live[k].timestamp < from <==> k < i0))
              && (forall k :: a < k <= i0 ==> !live[k].isKeyframe)
              && (live[a].isKeyframe
                  || (a == i0 && forall k :: Max(0, i0 - MAX_LEAD_IN) <= k <= i0 ==> !live[k].isKeyframe))
  {
    hide FirstAtOrAfter; hide FirstAfter; hide KeyframeBack;
  }

  /** Exactly when a request succeeds: a live frame lies in the window, or the window falls in the
      gap before a frame that is no keyframe but has one in reach (the clip is then all lead-in). */
  lemma ClipSucceedsExactly(live: seq<Frame>, from: real, to: real)
    requires NonDecreasing(live) && from <= to
    ensures ClipRange(live, from, to).Some? <==>
            || (exists k :: 0 <= k < |live| && InWindow(live[k], from, to))
            || (exists k: nat, j: nat :: InGapBefore(live, from, to, k) && !live[k].isKeyframe
                                         && k - MAX_LEAD_IN <= j < k && live[j].isKeyframe)
  {
    hide FirstAtOrAfter; hide FirstAfter; hide KeyframeBack;
    var i0 := FirstAtOrAfter(live, from);
    var stop := FirstAfter(live, to);
    if i0 < |live| && i0 < stop {
      assert InWindow(live[i0], from, to);
    }
    if ClipRange(live, from, to).Some? && stop == i0 {
      assert InGapBefore(live, from, to, i0) && live[LeadStart(live, i0)].isKeyframe;
    }
  }

  /** Such a gap: a keyframe at 0 s and a frame at 100 s, asked for 40 s to 60 s. */
  lemma GapGivesOnlyLeadIn()
    ensures var live := [Frame([], true, 0, 0.0, 0), Frame([], false, 0, 100.0, 1)];
            && ClipRange(live, 40.0, 60.0) == Some((0, 0))
            && forall k :: 0 <= k < |live| ==> !InWindow(live[k], 40.0, 60.0)
  {
    var live := [Frame([], true, 0, 0.0, 0), Frame([], false, 0, 100.0, 1)];
    ClipSucceedsExactly(live, 40.0, 60.0);
    assert InGapBefore(live, 40.0, 60.0, 1) && live[0].isKeyframe;
  }

  /** The window lies strictly between the frame before `k` and frame `k`. */
  ghost predicate InGapBefore(live: seq<Frame>, from: real, to: real, k: nat) {
    0 < k < |live| && live[k - 1].timestamp < from && to < live[k].timestamp
  }

  /** If at most `n` frames were accepted since the window opened, the clip cut from the last `n`
      accepted frames misses no window frame of the full history. */
  lemma NoWindowFrameMissing(history: seq<Frame>, n: nat, from: real, to: real, k: nat)
    requires NonDecreasing(history)
    requires |history| - FirstAtOrAfter(history, from) <= n
    requires k < |history| && InWindow(history[k], from, to)
    ensures var live := LastN(history, n);
            var i := k - (|history| - |live|);
            var r := ClipRange(live, from, to);
            r.Some? && r.value.0 <= i <= r.value.1 && live[i] == history[k]
  {
    hide FirstAtOrAfter; hide ClipRange;
    var live := LastN(history, n);
    ClipSelection(live, from, to);
    assert InWindow(live[k - (|history| - |live|)], from, to);
  }

  function TotalSize(frames: seq<Frame>): nat {
    if frames == [] then 0 else TotalSize(Front(frames)) + |Last(frames).data|
  }

  lemma TotalSizeDropFirst(frames: seq<Frame>)
    requires frames != []
    ensures TotalSize(frames) == |frames[0].data| + TotalSize(frames[1..])
  {
    if |frames| > 1 {
      TotalSizeDropFirst(Front(frames));
      assert Front(frames)[1..] == Front(frames[1..]);
    }
  }

  // ---------------------------------------------------------------------
  // The ring itself.
  // ---------------------------------------------------------------------

  /** One H264Frame: a byte buffer of fixed capacity and the frame's attributes. */
  class Slot {
    const data: array<byte>
    var size: nat
    var isKeyframe: bool
    var pts: int
    var timestamp: real
    var index: nat

    constructor (capacity: nat)
      ensures fresh(data) && data.Length == capacity && size == 0
    {
      data := new byte[capacity];
      size := 0;
    }

    /** Overwrites the slot in place. */
    method Store(input: seq<byte>, isKeyframe: bool, pts: int, timestamp: real, index: nat)
      requires |input| <= data.Length
      modifies this, data
      ensures size == |input| && View() == Frame(input, isKeyframe, pts, timestamp, index)
    {
      forall i | 0 <= i < |input| {
        data[i] := input[i];
      }
      size := |input|;
      this.isKeyframe := isKeyframe;
      this.pts := pts;
      this.timestamp := timestamp;
      this.index := index;
      assert data[..size] == input;
    }

    /** A deep copy. */
    constructor Copy(src: Slot)
      requires src.size <= src.data.Length
      ensures fresh(data) && size == data.Length && View() == src.View()
    {
      data := new byte[src.size](i requires 0 <= i < src.data.Length reads src.data => src.data[i]);
      size, isKeyframe, pts, timestamp, index := src.size, src.isKeyframe, src.pts, src.timestamp, src.index;
    }

    ghost function View(): Frame
      reads this, data
      requires size <= data.Length
    {
      Frame(data[..size], isKeyframe, pts, timestamp, index)
    }
  }

  lemma TotalSizeAfterAdd(history: seq<Frame>, n: nat, f: Frame)
    requires 0 < n
    ensures TotalSize(LastN(history + [f], n)) ==
            TotalSize(LastN(history, n)) + |f.data| - if |history| >= n then |LastN(history, n)[0].data| else 0
  {
    var live := LastN(history, n);
    assert Front(live + [f]) == live;
    if |history| >= n {
      TotalSizeDropFirst(live + [f]);
      assert LastN(history + [f], n) == (live + [f])[1..];
    } else {
      assert LastN(history + [f], n) == live + [f];
    }
  }

  /** Write position, live count, frames written and live bytes of a ring that holds `v` after `history`. */
  ghost predicate Accounts(v: seq<Frame>, w: nat, c: nat, written: nat, bytes: nat, history: seq<Frame>) {
    && w < |v| && c == Min(|history|, |v|)
    && (c < |v| ==> w == c)
    && ReadRound(v, w, c) == LastN(history, |v|)
    && written == |history|
    && (forall k :: 0 <= k < |history| ==> history[k].index == k)
    && bytes == TotalSize(LastN(history, |v|))
  }

  lemma AccountsAfterAdd(v: seq<Frame>, w: nat, c: nat, written: nat, bytes: nat, history: seq<Frame>, f: Frame,
                         w': nat, c': nat)
    requires Accounts(v, w, c, written, bytes, history) && f.index == |history|
    requires w' == (if w + 1 < |v| then w + 1 else 0) && c' == Min(c + 1, |v|)
    ensures var replaced := if c < |v| then 0 else |v[w].data|;
            replaced <= bytes && Accounts(v[w := f], w', c', written + 1, bytes - replaced + |f.data|, history + [f])
  {
    ReadRoundAfterAdd(v, w, c, w', c', history, f);
    TotalSizeAfterAdd(history, |v|, f);
    if c == |v| {
      assert ReadRound(v, w, c)[0] == v[w];
      TotalSizeDropFirst(LastN(history, |v|));
    }
  }

  class Ring {
    const slots: seq<Slot>
    const maxFrameSize: nat
    var writePos: nat
    var frameCount: nat
    var totalFramesWritten: nat
    var totalBytes: nat
    ghost var views: seq<Frame>    // what each slot holds
    ghost var history: seq<Frame>  // every frame accepted so far, oldest first

    ghost predicate Distinct() {
      && |slots| > 0
      && (forall i, j :: 0 <= i < |slots| && 0 <= j < |slots| && i != j ==>
          slots[i] != slots[j] && slots[i].data != slots[j].data)
      && (forall i :: 0 <= i < |slots| ==> slots[i].data.Length == maxFrameSize)
    }

    /** The frames a clip request can see, oldest first. */
    ghost function Live(): seq<Frame>
      reads this
    {
      LastN(history, |slots|)
    }

    /** `views` is what the slots hold. */
    ghost predicate Stored()
      reads this`views, slots, set s | s in slots :: s.data
    {
      && Distinct()
      && |views| == |slots|
      && forall i :: 0 <= i < |slots| ==> slots[i].size <= maxFrameSize && slots[i].View() == views[i]
    }

    /** The running totals and the live range are right when the slots hold `v`. */
    ghost predicate Counted(v: seq<Frame>)
      reads this
    {
      0 < |slots| == |v| && Accounts(v, writePos, frameCount, totalFramesWritten, totalBytes, history)
    }

    ghost predicate Valid()
      reads this, slots, set s | s in slots :: s.data
    {
      Stored() && Counted(views)
    }

    constructor (maxFrames: nat, maxFrameSize: nat)
      requires maxFrames > 0
      ensures Valid() && fresh(slots) && fresh(set s | s in slots :: s.data)
      ensures history == [] && |slots| == maxFrames && this.maxFrameSize == maxFrameSize
    {
      var s: seq<Slot> := [];
      ghost var v: seq<Frame> := [];
      while |s| < maxFrames
        invariant |v| == |s| <= maxFrames
        invariant forall i :: 0 <= i < |s| ==> fresh(s[i]) && fresh(s[i].data)
        invariant forall i :: 0 <= i < |s| ==> s[i].data.Length == maxFrameSize && s[i].size == 0 && s[i].View() == v[i]
        invariant forall i, j :: 0 <= i < |s| && 0 <= j < |s| && i != j ==> s[i] != s[j] && s[i].data != s[j].data
      {
        var slot := new Slot(maxFrameSize);
        s, v := s + [slot], v + [slot.View()];
      }
      slots, this.maxFrameSize := s, maxFrameSize;
      writePos, frameCount, totalFramesWritten, totalBytes := 0, 0, 0, 0;
      views, history := v, [];
    }

    /** Position of the `i`-th oldest live frame, as the index arithmetic computes it. */
    function At(i: nat): (p: nat)
      reads this
      requires writePos < |slots| && frameCount <= |slots| && i < |slots|
      ensures p == Pos(writePos, frameCount, |slots|, i)
    {
      ModOnce(writePos - frameCount + |slots|, |slots|);
      var bufferStart := (writePos - frameCount + |slots|) % |slots|;
      ModOnce(bufferStart + i, |slots|);
      (bufferStart + i) % |slots|
    }

    method Overwrite(p: nat, input: seq<byte>, isKeyframe: bool, pts: int, timestamp: real, index: nat)
      requires Stored() && p < |slots| && |input| <= maxFrameSize
      modifies this`views, slots[p], slots[p].data
      ensures Stored() && views == old(views)[p := Frame(input, isKeyframe, pts, timestamp, index)]
    {
      slots[p].Store(input, isKeyframe, pts, timestamp, index);
      views := views[p := slots[p].View()];
    }

    method NextPos() returns (p: nat)
      requires writePos < |slots|
      ensures p == if writePos + 1 < |slots| then writePos + 1 else 0
    {
      ModOnce(writePos + 1, |slots|);
      p := (writePos + 1) % |slots|;
    }

    /** Moves the bookkeeping on after the slot at writePos has been overwritten. */
    method Advance(ghost before: seq<Frame>, ghost f: Frame, replaced: nat, size: nat)
      requires Counted(before) && writePos < |slots| && frameCount <= |slots|
      requires f.index == |history| && size == |f.data|
      requires replaced == if frameCount < |slots| then 0 else |before[writePos].data|
      modifies this`writePos, this`frameCount, this`totalFramesWritten, this`totalBytes, this`history
      ensures Counted(before[old(writePos) := f]) && history == old(history) + [f]
    {
      hide Accounts;
      var nextPos := NextPos();
      var nextCount := if frameCount < |slots| then frameCount + 1 else frameCount;
      AccountsAfterAdd(before, writePos, frameCount, totalFramesWritten, totalBytes, history, f, nextPos, nextCount);
      totalBytes, totalFramesWritten := totalBytes - replaced + size, totalFramesWritten + 1;
      writePos, frameCount := nextPos, nextCount;
      history := history + [f];
    }

    /** Copies one encoded buffer into the slot at writePos. `mapped` is the outcome of mapping the
        buffer; an oversize or unmapped buffer leaves the ring as it was. */
    method AddFrame(input: seq<byte>, mapped: bool, isKeyframe: bool, pts: int, timestamp: real)
      requires Valid()
      modifies this, slots, set s | s in slots :: s.data
      ensures Valid()
      ensures history == if mapped && |input| <= maxFrameSize
                         then old(history) + [Frame(input, isKeyframe, pts, timestamp, |old(history)|)]
                         else old(history)
    {
      if !mapped || |input| > maxFrameSize {
        return;
      }
      ghost var before, stored := views, Frame(input, isKeyframe, pts, timestamp, |history|);
      var replaced := if frameCount >= |slots| then slots[writePos].size else 0;
      Overwrite(writePos, input, isKeyframe, pts, timestamp, totalFramesWritten);
      Advance(before, stored, replaced, |input|);
    }

    method FrameAt(i: nat) returns (slot: Slot)
      requires Valid() && i < frameCount
      ensures slot in slots && slot.size <= slot.data.Length && slot.View() == Live()[i]
    {
      slot := slots[At(i)];
      assert ReadRound(views, writePos, frameCount)[i] == slot.View();
    }

    /** Live frame count, live time span and live bytes. */
    method GetBufferStatus() returns (count: nat, duration: Option<real>, totalSize: nat)
      requires Valid()
      ensures count == |Live()| && totalSize == TotalSize(Live())
      ensures duration == if Live() == [] then None else Some(Last(Live()).timestamp - Live()[0].timestamp)
    {
      hide Stored; hide ReadRound; hide TotalSize; hide LastN;
      count, totalSize, duration := frameCount, totalBytes, None;
      if frameCount > 0 {
        var first := FrameAt(0);
        var last := FrameAt(frameCount - 1);
        duration := Some(last.timestamp - first.timestamp);
      }
    }

    /** The two-phase search: back to a keyframe for the start, forward for the end. */
    method FindRange(from: real, to: real) returns (r: Option<(nat, nat)>)
      requires Valid()
      ensures r == ClipRange(Live(), from, to)
    {
      hide Stored; hide LastN; hide ReadRound; hide TotalSize; hide FirstAtOrAfter; hide FirstAfter; hide LeadStart;
      ghost var live := Live();
      ghost var i0 := FirstAtOrAfter(live, from);
      var startIdx: int, endIdx: int := -1, -1;
      var i := 0;
      while i < frameCount
        invariant 0 <= i <= frameCount && endIdx == i - 1
        invariant forall k :: 0 <= k < i ==> live[k].timestamp <= to
        invariant startIdx == if i0 < i then LeadStart(live, i0) else -1
      {
        var frame := FrameAt(i);
        if startIdx == -1 && frame.timestamp >= from {
          startIdx := SearchKeyframe(i);
        }
        if frame.timestamp <= to {
          endIdx := i;
        } else {
          break;
        }
        i := i + 1;
      }
      assert endIdx == FirstAfter(live, to) - 1 by {
        assert i == FirstAfter(live, to);
      }
      r := if startIdx == -1 || endIdx == -1 || endIdx < startIdx then None else Some((startIdx, endIdx));
    }

    method SearchKeyframe(i: nat) returns (startIdx: nat)
      requires Valid() && i < frameCount
      ensures startIdx == LeadStart(Live(), i)
    {
      hide Stored; hide ReadRound; hide TotalSize; hide LastN;
      ghost var lo := Max(0, i - MAX_LEAD_IN);
      var j: int := i;
      while j >= Max(0, i - MAX_LEAD_IN)
        invariant lo - 1 <= j <= i
        invariant KeyframeBack(Live(), i, lo) == if j < lo then None else KeyframeBack(Live(), j, lo)
      {
        var frame := FrameAt(j);
        if frame.isKeyframe {
          return j;
        }
        j := j - 1;
      }
      startIdx := i;
    }

    /** Cuts the clip around an event. Its frames are deep copies in fresh memory. */
    method ExtractEventClip(eventTime: real, beforeSec: int, afterSec: int) returns (clip: Option<seq<Slot>>)
      requires Valid()
      ensures match ClipRange(Live(), eventTime - beforeSec as real, eventTime + afterSec as real)
              case None => clip == None
              case Some((a, b)) =>
                clip.Some? && IsCopy(clip.value, Live()[a..b + 1])
                && forall k :: 0 <= k < |clip.value| ==> fresh(clip.value[k]) && fresh(clip.value[k].data)
    {
      hide Stored; hide ReadRound; hide TotalSize; hide FirstAtOrAfter; hide FirstAfter; hide LeadStart;
      if frameCount == 0 {
        return None;
      }
      var range := FindRange(eventTime - beforeSec as real, eventTime + afterSec as real);
      if range == None {
        return None;
      }
      var frames := CopyRange(range.value.0, range.value.1);
      clip := Some(frames);
    }

    method CopyRange(startIdx: nat, endIdx: nat) returns (frames: seq<Slot>)
      requires Valid() && startIdx <= endIdx < frameCount
      ensures IsCopy(frames, Live()[startIdx..endIdx + 1])
      ensures forall k :: 0 <= k < |frames| ==> fresh(frames[k]) && fresh(frames[k].data)
    {
      hide Stored; hide ReadRound; hide TotalSize; hide LastN;
      frames := [];
      for i := 0 to endIdx - startIdx + 1
        invariant |frames| == i
        invariant forall k :: 0 <= k < i ==> fresh(frames[k]) && fresh(frames[k].data)
        invariant forall k :: 0 <= k < i ==>
                  frames[k].size <= frames[k].data.Length && frames[k].View() == Live()[startIdx + k]
      {
        var src := FrameAt(startIdx + i);
        var dst := new Slot.Copy(src);
        frames := frames + [dst];
      }
    }
  }

  ghost predicate IsCopy(clip: seq<Slot>, frames: seq<Frame>)
    reads clip, set s | s in clip :: s.data
  {
    && |clip| == |frames|
    && forall i :: 0 <= i < |clip| ==> clip[i].size <= clip[i].data.Length && clip[i].View() == frames[i]
  }

  /** One buffer offered to the ring. */
  datatype Input = Input(data: seq<byte>, mapped: bool, isKeyframe: bool, pts: int, timestamp: real)

  /** The frames that a run of buffers adds when `first` frames were accepted before. */
  function Accepted(inputs: seq<Input>, maxFrameSize: nat, first: nat): seq<Frame> {
    if inputs == [] then [] else
    var fs := Accepted(Front(inputs), maxFrameSize, first);
    var f := Last(inputs);
    if !f.mapped || |f.data| > maxFrameSize then fs
    else fs + [Frame(f.data, f.isKeyframe, f.pts, f.timestamp, first + |fs|)]
  }

  lemma AcceptedNone(maxFrameSize: nat, first: nat)
    ensures Accepted([], maxFrameSize, first) == []
  {
  }

  lemma AcceptedStep(inputs: seq<Input>, f: Input, maxFrameSize: nat, first: nat)
    ensures var fs := Accepted(inputs, maxFrameSize, first);
            Accepted(inputs + [f], maxFrameSize, first) ==
            if !f.mapped || |f.data| > maxFrameSize then fs
            else fs + [Frame(f.data, f.isKeyframe, f.pts, f.timestamp, first + |fs|)]
  {
    assert Front(inputs + [f]) == inputs;
  }

  /** Feeds a run of buffers to the ring. */
  method AddAll(ring: Ring, inputs: seq<Input>)
    requires ring.Valid()
    modifies ring, ring.slots, set s | s in ring.slots :: s.data
    ensures ring.Valid()
    ensures ring.history == old(ring.history) + Accepted(inputs, ring.maxFrameSize, |old(ring.history)|)
  {
    hide ring.Valid; hide Accepted;
    ghost var before, accepted := ring.history, [];
    assert accepted == Accepted([], ring.maxFrameSize, |before|) by { AcceptedNone(ring.maxFrameSize, |before|); }
    for n := 0 to |inputs|
      invariant ring.Valid()
      invariant accepted == Accepted(inputs[..n], ring.maxFrameSize, |before|)
      invariant ring.history == before + accepted
    {
      var f := inputs[n];
      assert inputs[..n + 1] == inputs[..n] + [f];
      AcceptedStep(inputs[..n], f, ring.maxFrameSize, |before|);
      ring.AddFrame(f.data, f.mapped, f.isKeyframe, f.pts, f.timestamp);
      accepted := Accepted(inputs[..n + 1], ring.maxFrameSize, |before|);
    }
    assert inputs[..|inputs|] == inputs;
  }

  /** The clip shares no memory with the ring. */
  ghost predicate Apart(ring: Ring, clip: seq<Slot>) {
    forall i, k :: 0 <= i < |ring.slots| && 0 <= k < |clip| ==>
      ring.slots[i] != clip[k] && ring.slots[i].data != clip[k].data
  }

  /** Recording on never changes a clip that was cut before. */
  method KeepRecording(ring: Ring, ghost clip: seq<Slot>, ghost frames: seq<Frame>, later: seq<Input>)
    requires ring.Valid() && IsCopy(clip, frames) && Apart(ring, clip)
    modifies ring, ring.slots, set s | s in ring.slots :: s.data
    ensures ring.Valid() && IsCopy(clip, frames)
  {
    hide ring.Valid; hide Accepted;
    AddAll(ring, later);
    assert forall k :: 0 <= k < |clip| ==> clip[k].View() == old(clip[k].View());
  }

  /** A clip taken after `earlier` shows the window of those frames, whatever is recorded while
      the clip is being written out. */
  method RecordAndSave(ring: Ring, earlier: seq<Input>, eventTime: real, later: seq<Input>)
      returns (clip: Option<seq<Slot>>)
    requires ring.Valid() && ring.history == []
    modifies ring, ring.slots, set s | s in ring.slots :: s.data
    ensures var live := LastN(Accepted(earlier, ring.maxFrameSize, 0), |ring.slots|);
            match ClipRange(live, eventTime - 15.0, eventTime + 15.0)
            case None => clip == None
            case Some((a, b)) => clip.Some? && IsCopy(clip.value, live[a..b + 1])
  {
    hide ring.Valid; hide Accepted; hide ClipRange; hide LastN; hide IsCopy;
    AddAll(ring, earlier);
    assert ring.history == Accepted(earlier, ring.maxFrameSize, 0);
    ghost var range := ClipRange(ring.Live(), eventTime - 15.0, eventTime + 15.0);
    ghost var live := ring.Live();
    clip := ring.ExtractEventClip(eventTime, 15, 15);
    if clip.Some? {
      KeepRecording(ring, clip.value, live[range.value.0..range.value.1 + 1], later);
    } else {
      AddAll(ring, later);
    }
  }
}
