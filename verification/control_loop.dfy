/** One pass of the controller's main loop and sequences of passes: detect both colour classes,
    pick at most one command with red first, and hand it to the throttled sender. */
module ControlLoop {
  import opened Config
  import opened Optional
  import opened Actuator
  import opened Detection
  import opened Throttle

  /** What one pass of the loop sees: the clock at the time of sending, the contour areas of
      the red and blue masks, and what the controller would answer if asked. */
  datatype Frame = Frame(now: real, redAreas: seq<real>, blueAreas: seq<real>, response: Response)

  /** The command a pass attempts: red asks for up, blue for down, red wins when both are present. */
  function Decide(redDetected: bool, blueDetected: bool): (c: Option<Command>)
    ensures c == Some(Up) <==> redDetected
    ensures c == Some(Down) <==> !redDetected && blueDetected
    ensures c == None <==> !redDetected && !blueDetected
  {
    if redDetected then Some(Up)
    else if blueDetected then Some(Down)
    else None
  }

  /** The outcome of one pass: the next throttle state, the command attempted (if any),
      the URL requested (if any) and whether the command was delivered. */
  datatype Step = Step(next: ThrottleState, attempted: Option<Command>, request: Option<string>, sent: bool)

  /** One pass of the loop body. */
  function Iterate(s: ThrottleState, f: Frame): (st: Step)
    ensures Detected(f.redAreas) ==> st.attempted == Some(Up)
    ensures st.attempted == Some(Down) <==> !Detected(f.redAreas) && Detected(f.blueAreas)
    ensures st.attempted == None <==> !Detected(f.redAreas) && !Detected(f.blueAreas)
    ensures st.request.Some? ==> st.attempted.Some? && st.request.value == RequestUrl(Esp8266Url, st.attempted.value)
    ensures st.request.Some? <==> st.attempted.Some? && PhaseAt(s, f.now) == Ready
    ensures st.sent <==> st.request.Some? && Succeeded(f.response)
    ensures st.sent ==> st.next == ThrottleState(f.now)
    ensures !st.sent ==> st.next == s
  {
    var c := Decide(Detected(f.redAreas), Detected(f.blueAreas));
    match c
    case None => Step(s, None, None, false)
    case Some(cmd) =>
      var d := SendCommand(s, cmd, f.now, f.response);
      Step(d.next, c, d.request, d.sent)
  }

  /** The throttle state after a sequence of passes. */
  function RunLoop(s: ThrottleState, frames: seq<Frame>): ThrottleState
    decreases |frames|
  {
    if |frames| == 0 then s
    else RunLoop(Iterate(s, frames[0]).next, frames[1..])
  }

  /** The times of the passes that delivered a command, in order. */
  function LoopSentTimes(s: ThrottleState, frames: seq<Frame>): seq<real>
    decreases |frames|
  {
    if |frames| == 0 then []
    else
      var st := Iterate(s, frames[0]);
      (if st.sent then [frames[0].now] else []) + LoopSentTimes(st.next, frames[1..])
  }

  /** The URLs requested by a sequence of passes, in order. */
  function LoopRequests(s: ThrottleState, frames: seq<Frame>): seq<string>
    decreases |frames|
  {
    if |frames| == 0 then []
    else
      var st := Iterate(s, frames[0]);
      (if st.request.Some? then [st.request.value] else []) + LoopRequests(st.next, frames[1..])
  }

  /** The calls a sequence of passes makes on the throttled sender: one per pass with a detection. */
  function Attempts(frames: seq<Frame>): (calls: seq<Call>)
    ensures |calls| <= |frames|
    decreases |frames|
  {
    if |frames| == 0 then []
    else
      var f := frames[0];
      var c := Decide(Detected(f.redAreas), Detected(f.blueAreas));
      (if c.Some? then [Call(c.value, f.now, f.response)] else []) + Attempts(frames[1..])
  }

  /** A single pass calls the sender with up when red is present, with down when only blue is,
      and not at all otherwise; each call carries the pass's time and the controller's answer. */
  lemma AttemptsOfOnePass(f: Frame)
    ensures Detected(f.redAreas) ==> Attempts([f]) == [Call(Up, f.now, f.response)]
    ensures !Detected(f.redAreas) && Detected(f.blueAreas) ==> Attempts([f]) == [Call(Down, f.now, f.response)]
    ensures !Detected(f.redAreas) && !Detected(f.blueAreas) ==> Attempts([f]) == []
  {
  }

  /** The calls of consecutive stretches of passes are the calls of each stretch, in order. */
  lemma {:induction false} AttemptsConcat(a: seq<Frame>, b: seq<Frame>)
    ensures Attempts(a + b) == Attempts(a) + Attempts(b)
    decreases |a|
  {
    if |a| > 0 {
      assert (a + b)[0] == a[0];
      assert (a + b)[1..] == a[1..] + b;
      AttemptsConcat(a[1..], b);
    } else {
      assert a + b == b;
    }
  }

  /** The loop is the throttle driven by the attempted commands: passes without a detection
      leave no trace, and the rest behave exactly like calls of the sender. */
  lemma {:induction false} LoopIsThrottledAttempts(s: ThrottleState, frames: seq<Frame>)
    ensures RunLoop(s, frames) == Run(s, Attempts(frames))
    ensures LoopSentTimes(s, frames) == SentTimes(s, Attempts(frames))
    ensures LoopRequests(s, frames) == Requests(s, Attempts(frames))
    decreases |frames|
  {
    if |frames| > 0 {
      var f := frames[0];
      var st := Iterate(s, f);
      var c := Decide(Detected(f.redAreas), Detected(f.blueAreas));
      var tail := Attempts(frames[1..]);
      LoopIsThrottledAttempts(st.next, frames[1..]);
      if c.Some? {
        var call := Call(c.value, f.now, f.response);
        assert Attempts(frames) == [call] + tail;
        assert ([call] + tail)[0] == call;
        assert ([call] + tail)[1..] == tail;
      } else {
        assert Attempts(frames) == tail;
      }
    }
  }

  /** Commands delivered by the loop are spaced by the interval: the i-th and j-th are at least
      (j - i) intervals apart, and the time of the last command never decreases. */
  lemma LoopRateLimited(s: ThrottleState, frames: seq<Frame>, i: int, j: int)
    requires 0 <= i < j < |LoopSentTimes(s, frames)|
    ensures LoopSentTimes(s, frames)[j] - LoopSentTimes(s, frames)[i] >= (j - i) as real * CommandInterval
    ensures RunLoop(s, frames).lastCommandTime >= s.lastCommandTime
  {
    LoopIsThrottledAttempts(s, frames);
    DeliveriesRateLimited(s, Attempts(frames), i, j);
    RunNeverDecreases(s, Attempts(frames));
  }

  /** When both colours are present, only the up command is attempted. */
  lemma RedTakesPriority(s: ThrottleState, f: Frame)
    requires Detected(f.redAreas) && Detected(f.blueAreas)
    ensures Iterate(s, f).attempted == Some(Up)
    ensures Iterate(s, f).request.Some? ==> Iterate(s, f).request.value == RequestUrl(Esp8266Url, Up)
  {
  }

  /** A pass whose contours are all at or below the threshold attempts nothing and changes nothing. */
  lemma SmallContoursIgnored(s: ThrottleState, f: Frame)
    requires forall i :: 0 <= i < |f.redAreas| ==> f.redAreas[i] <= MinContourArea
    requires forall i :: 0 <= i < |f.blueAreas| ==> f.blueAreas[i] <= MinContourArea
    ensures Iterate(s, f) == Step(s, None, None, false)
  {
  }

  /** With the controller unreachable, no pass ever delivers a command and the throttle never moves. */
  lemma {:induction false} UnreachableActuator(s: ThrottleState, frames: seq<Frame>)
    requires forall k :: 0 <= k < |frames| ==> frames[k].response == RequestFailed
    ensures RunLoop(s, frames) == s
    ensures LoopSentTimes(s, frames) == []
    decreases |frames|
  {
    if |frames| > 0 {
      assert frames[0].response == RequestFailed;
      UnreachableActuator(s, frames[1..]);
    }
  }

  /** Three passes from a fresh start at t0, t0 + 0.5 and t0 + 1.6 seconds: red with area 1500
      sends up; red with area 2000 half a second later is refused without a request; blue with
      area 1200 after the interval sends down. */
  lemma ThreeFrameScenario(t0: real)
    requires t0 >= InitialCommandTime + CommandInterval
    ensures var st1 := Iterate(Initial, Frame(t0, [1500.0], [], Status(200)));
            && st1.attempted == Some(Up) && st1.sent && st1.next == ThrottleState(t0)
            && var st2 := Iterate(st1.next, Frame(t0 + 0.5, [2000.0], [], Status(200)));
            && st2.attempted == Some(Up) && st2.request == None && st2.next == st1.next
            && var st3 := Iterate(st2.next, Frame(t0 + 1.6, [], [1200.0], Status(200)));
            && st3.attempted == Some(Down) && st3.sent && st3.next == ThrottleState(t0 + 1.6)
  {
    assert Qualifies([1500.0][0]);
    assert Qualifies([2000.0][0]);
    assert Qualifies([1200.0][0]);
  }
}
