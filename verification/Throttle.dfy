/** The 60-second throttle in front of the event recorder. */
module Throttle {
  import opened Common

  const INTERVAL: real := 60.0
  const BEFORE: real := 15.0
  const AFTER: real := 15.0

  /** One request to record an event and the clock reading it was made at. */
  datatype Call = Call(classId: nat, cam: nat, time: real)

  /** The table starts out zero. */
  function LastTime(times: seq<real>): real {
    if times == [] then 0.0 else Last(times)
  }

  /** Times of the accepted events of one class and camera. */
  function Accepted(calls: seq<Call>, classId: nat, cam: nat): seq<real> {
    if calls == [] then [] else
    var times := Accepted(Front(calls), classId, cam);
    var c := Last(calls);
    if c.classId == classId && c.cam == cam && c.time - LastTime(times) >= INTERVAL then times + [c.time] else times
  }

  /** Whatever the clock reads, accepted events of one class and camera are 60 seconds apart. */
  lemma {:induction false} AcceptedAreSpaced(calls: seq<Call>, classId: nat, cam: nat, i: nat, j: nat)
    requires i < j < |Accepted(calls, classId, cam)|
    ensures Accepted(calls, classId, cam)[j] - Accepted(calls, classId, cam)[i] >= INTERVAL * (j - i) as real
  {
    var times := Accepted(calls, classId, cam);
    var before := Accepted(Front(calls), classId, cam);
    if j < |before| {
      AcceptedAreSpaced(Front(calls), classId, cam, i, j);
    } else if i < j - 1 {
      AcceptedAreSpaced(Front(calls), classId, cam, i, j - 1);
    }
  }

  /** A span of `width` seconds holds at most floor(width / 60) + 1 of them. */
  lemma SpanHoldsFew(calls: seq<Call>, classId: nat, cam: nat, i: nat, j: nat, width: real)
    requires i <= j < |Accepted(calls, classId, cam)|
    requires Accepted(calls, classId, cam)[j] - Accepted(calls, classId, cam)[i] <= width
    ensures j - i + 1 <= (width / INTERVAL).Floor + 1
  {
    if i < j {
      AcceptedAreSpaced(calls, classId, cam, i, j);
    }
  }

  /** The clip windows requested for them never overlap. */
  lemma ClipWindowsDisjoint(calls: seq<Call>, classId: nat, cam: nat, i: nat, j: nat)
    requires i < j < |Accepted(calls, classId, cam)|
    ensures Accepted(calls, classId, cam)[i] + AFTER < Accepted(calls, classId, cam)[j] - BEFORE
  {
    AcceptedAreSpaced(calls, classId, cam, i, j);
  }

  /** Nothing else is turned down: a request is accepted, or comes less than 60 seconds after one of its
      class and camera that was accepted before (or, before any, after the clock's zero). */
  lemma {:induction false} RejectedComesSoon(calls: seq<Call>, k: nat)
    requires k < |calls|
    ensures var c, before := calls[k], Accepted(calls[..k], calls[k].classId, calls[k].cam);
            var after := Accepted(calls[..k + 1], c.classId, c.cam);
            if after == before then c.time - LastTime(before) < INTERVAL
            else after == before + [c.time] && c.time - LastTime(before) >= INTERVAL
    ensures forall classId: nat, cam: nat :: (classId, cam) != (calls[k].classId, calls[k].cam) ==>
              Accepted(calls[..k + 1], classId, cam) == Accepted(calls[..k], classId, cam)
  {
    assert Front(calls[..k + 1]) == calls[..k] && Last(calls[..k + 1]) == calls[k];
  }

  class EventThrottle {
    const lastEventTime: array2<real>
    ghost var calls: seq<Call>

    ghost predicate Valid()
      reads this, lastEventTime
    {
      forall c: nat, k: nat :: c < lastEventTime.Length0 && k < lastEventTime.Length1 ==>
        lastEventTime[c, k] == LastTime(Accepted(calls, c, k))
    }

    constructor (numClasses: nat, numCams: nat)
      ensures Valid() && calls == [] && fresh(lastEventTime)
      ensures lastEventTime.Length0 == numClasses && lastEventTime.Length1 == numCams
    {
      lastEventTime := new real[numClasses, numCams]((c, k) => 0.0);
      calls := [];
    }

    /** A request is turned down exactly when it comes less than 60 seconds after the last accepted one
        (or, before any, less than 60 seconds after the clock's zero). */
    method SendEvent(classId: nat, cam: nat, eventTime: real) returns (accepted: bool)
      requires Valid() && classId < lastEventTime.Length0 && cam < lastEventTime.Length1
      modifies this, lastEventTime
      ensures Valid() && calls == old(calls) + [Call(classId, cam, eventTime)]
      ensures accepted <==> eventTime - LastTime(Accepted(old(calls), classId, cam)) >= INTERVAL
      ensures Accepted(calls, classId, cam) ==
              Accepted(old(calls), classId, cam) + if accepted then [eventTime] else []
    {
      var timeDiff := eventTime - lastEventTime[classId, cam];
      ghost var call := Call(classId, cam, eventTime);
      assert Front(calls + [call]) == calls;
      calls := calls + [call];
      if timeDiff < INTERVAL {
        return false;
      }
      lastEventTime[classId, cam] := eventTime;
      accepted := true;
    }
  }
}
