/** The command throttle: a gate that lets a command through only when the last successful
    command is at least the command interval old, and that moves only on success. */
module Throttle {
  import opened Config
  import opened Optional
  import opened Actuator

  /** The single piece of cross-call state: when the last command was delivered. */
  datatype ThrottleState = ThrottleState(lastCommandTime: real)

  /** The state before any command has been delivered. */
  const Initial: ThrottleState := ThrottleState(InitialCommandTime)

  /** The throttle's two logical states at a given moment. */
  datatype Phase = Cooling | Ready

  /** Cooling while less than the interval has passed since the last delivered command. */
  function PhaseAt(s: ThrottleState, now: real): Phase
  {
    if now - s.lastCommandTime < CommandInterval then Cooling else Ready
  }

  /** What one call does: the state after it, whether it reports success,
      and the URL it requested, if it contacted the controller at all. */
  datatype Dispatch = Dispatch(next: ThrottleState, sent: bool, request: Option<string>)

  /** One call of the throttled sender. `now` is the clock read at entry and `response`
      is what the controller would answer if asked. */
  function SendCommand(s: ThrottleState, c: Command, now: real, response: Response): (d: Dispatch)
    ensures PhaseAt(s, now) == Cooling ==> d == Dispatch(s, false, None)
    ensures d.request.Some? <==> PhaseAt(s, now) == Ready
    ensures d.request.Some? ==> d.request.value == RequestUrl(Esp8266Url, c)
    ensures d.sent <==> PhaseAt(s, now) == Ready && Succeeded(response)
    ensures d.sent ==> d.next.lastCommandTime == now && now >= s.lastCommandTime + CommandInterval
    ensures !d.sent ==> d.next == s
    ensures d.next.lastCommandTime >= s.lastCommandTime
  {
    if now - s.lastCommandTime < CommandInterval then
      Dispatch(s, false, None)
    else
      var url := RequestUrl(Esp8266Url, c);
      if Succeeded(response) then Dispatch(ThrottleState(now), true, Some(url))
      else Dispatch(s, false, Some(url))
  }

  /** Only status 200 is a delivery: any other status, 2xx ones included, and a request
      exception fail and leave the state alone. */
  lemma OnlyStatus200Succeeds(s: ThrottleState, c: Command, now: real, code: int)
    requires code != SuccessStatus
    ensures Succeeded(Status(200))
    ensures !Succeeded(Status(code)) && !Succeeded(RequestFailed)
    ensures !SendCommand(s, c, now, Status(code)).sent
    ensures SendCommand(s, c, now, Status(code)).next == s
  {
  }

  /** A failed attempt leaves the throttle in the phase it would have been in anyway,
      at every later moment: failures never extend the cooldown. */
  lemma FailureKeepsPhase(s: ThrottleState, c: Command, now: real, response: Response, later: real)
    requires !Succeeded(response)
    ensures PhaseAt(SendCommand(s, c, now, response).next, later) == PhaseAt(s, later)
  {
  }

  /** After a delivered command, any call less than the interval later is refused without a request. */
  lemma SecondCallWithinIntervalRefused(s: ThrottleState, c1: Command, t1: real, r1: Response,
                                        c2: Command, t2: real, r2: Response)
    requires t2 - t1 < CommandInterval
    requires SendCommand(s, c1, t1, r1).sent
    ensures SendCommand(SendCommand(s, c1, t1, r1).next, c2, t2, r2)
            == Dispatch(SendCommand(s, c1, t1, r1).next, false, None)
  {
  }

  /** One call of a sequence of calls to the throttled sender. */
  datatype Call = Call(command: Command, now: real, response: Response)

  /** The state after a sequence of calls. */
  function Run(s: ThrottleState, calls: seq<Call>): ThrottleState
    decreases |calls|
  {
    if |calls| == 0 then s
    else Run(SendCommand(s, calls[0].command, calls[0].now, calls[0].response).next, calls[1..])
  }

  /** The entry times of the calls that delivered a command, in order. */
  function SentTimes(s: ThrottleState, calls: seq<Call>): seq<real>
    decreases |calls|
  {
    if |calls| == 0 then []
    else
      var d := SendCommand(s, calls[0].command, calls[0].now, calls[0].response);
      (if d.sent then [calls[0].now] else []) + SentTimes(d.next, calls[1..])
  }

  /** The URLs requested by a sequence of calls, in order: one per call the gate let through. */
  function Requests(s: ThrottleState, calls: seq<Call>): seq<string>
    decreases |calls|
  {
    if |calls| == 0 then []
    else
      var d := SendCommand(s, calls[0].command, calls[0].now, calls[0].response);
      (if d.request.Some? then [d.request.value] else []) + Requests(d.next, calls[1..])
  }

  /** Each time is at least the interval after the one before it, the first at least the
      interval after `prev`. */
  predicate SpacedFrom(prev: real, ts: seq<real>)
    decreases |ts|
  {
    |ts| == 0 || (ts[0] - prev >= CommandInterval && SpacedFrom(ts[0], ts[1..]))
  }

  /** The time of the last command never decreases over any sequence of calls,
      whatever the clock does. */
  lemma {:induction false} RunNeverDecreases(s: ThrottleState, calls: seq<Call>)
    ensures Run(s, calls).lastCommandTime >= s.lastCommandTime
    decreases |calls|
  {
    if |calls| > 0 {
      var d := SendCommand(s, calls[0].command, calls[0].now, calls[0].response);
      RunNeverDecreases(d.next, calls[1..]);
    }
  }

  /** The state after a sequence of calls is the entry time of the last delivered command,
      or the starting state when nothing was delivered. */
  lemma {:induction false} RunEndsAtLastSent(s: ThrottleState, calls: seq<Call>)
    ensures var ts := SentTimes(s, calls);
            Run(s, calls).lastCommandTime == if |ts| == 0 then s.lastCommandTime else ts[|ts| - 1]
    decreases |calls|
  {
    if |calls| > 0 {
      var d := SendCommand(s, calls[0].command, calls[0].now, calls[0].response);
      RunEndsAtLastSent(d.next, calls[1..]);
      if !d.sent {
        assert SentTimes(s, calls) == SentTimes(d.next, calls[1..]);
      }
    }
  }

  /** Delivered commands are spaced at least the interval apart, the first one at least the
      interval after the starting state. */
  lemma {:induction false} SentTimesSpaced(s: ThrottleState, calls: seq<Call>)
    ensures SpacedFrom(s.lastCommandTime, SentTimes(s, calls))
    decreases |calls|
  {
    if |calls| > 0 {
      var d := SendCommand(s, calls[0].command, calls[0].now, calls[0].response);
      SentTimesSpaced(d.next, calls[1..]);
      var rest := SentTimes(d.next, calls[1..]);
      if d.sent {
        assert SentTimes(s, calls) == [calls[0].now] + rest;
        assert ([calls[0].now] + rest)[1..] == rest;
      } else {
        assert SentTimes(s, calls) == rest;
      }
    }
  }

  /** In a spaced sequence, the j-th time is at least (j - i) intervals after the i-th. */
  lemma {:induction false} SpacedPairwise(prev: real, ts: seq<real>, i: int, j: int)
    requires SpacedFrom(prev, ts)
    requires 0 <= i < j < |ts|
    ensures ts[j] - ts[i] >= (j - i) as real * CommandInterval
    decreases j
  {
    if i > 0 {
      SpacedPairwise(ts[0], ts[1..], i - 1, j - 1);
    } else if j > 1 {
      SpacedPairwise(ts[0], ts[1..], 0, j - 1);
    }
  }

  /** Rate limit over any run: the i-th and j-th delivered commands are at least (j - i)
      intervals apart. */
  lemma DeliveriesRateLimited(s: ThrottleState, calls: seq<Call>, i: int, j: int)
    requires 0 <= i < j < |SentTimes(s, calls)|
    ensures SentTimes(s, calls)[j] - SentTimes(s, calls)[i] >= (j - i) as real * CommandInterval
  {
    SentTimesSpaced(s, calls);
    SpacedPairwise(s.lastCommandTime, SentTimes(s, calls), i, j);
  }

  /** The calls whose request would get status 200. */
  function KeepSucceeding(calls: seq<Call>): (kept: seq<Call>)
    ensures |kept| <= |calls|
    ensures forall k :: 0 <= k < |kept| ==> Succeeded(kept[k].response) && kept[k] in calls
    ensures forall k :: 0 <= k < |calls| && Succeeded(calls[k].response) ==> calls[k] in kept
    decreases |calls|
  {
    if |calls| == 0 then []
    else (if Succeeded(calls[0].response) then [calls[0]] else []) + KeepSucceeding(calls[1..])
  }

  /** Failed attempts leave no trace: dropping every call whose request fails changes neither
      the final state nor which commands are delivered when. */
  lemma {:induction false} FailuresLeaveNoTrace(s: ThrottleState, calls: seq<Call>)
    ensures Run(s, KeepSucceeding(calls)) == Run(s, calls)
    ensures SentTimes(s, KeepSucceeding(calls)) == SentTimes(s, calls)
    decreases |calls|
  {
    if |calls| > 0 {
      var c := calls[0];
      var d := SendCommand(s, c.command, c.now, c.response);
      var tail := KeepSucceeding(calls[1..]);
      if Succeeded(c.response) {
        FailuresLeaveNoTrace(d.next, calls[1..]);
        assert KeepSucceeding(calls) == [c] + tail;
        assert ([c] + tail)[0] == c;
        assert ([c] + tail)[1..] == tail;
      } else {
        FailuresLeaveNoTrace(s, calls[1..]);
        assert KeepSucceeding(calls) == tail;
      }
    }
  }
}
