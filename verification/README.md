# Colour-triggered servo controller — Dafny model

The controller watches a camera, looks for a red or a blue object in each frame, and sends
`up` (red) or `down` (blue) to an ESP8266 servo controller over HTTP. The sender is
rate-limited. This project models the decision core of `color.py`:

- **Colour segmentation** (`Hsv`): HSV pixels, the two fixed inclusive colour ranges, and the
  range mask (`cv2.inRange`) as a per-pixel membership flag.
- **Detection** (`Detection`): a colour class is present when one of its contour areas is
  *strictly* greater than `MIN_CONTOUR_AREA` = 1000. The loop stops at the first such contour.
- **Actuator protocol** (`Actuator`): the commands `up`/`down`, the request URL
  `http://192.168.137.134/<command>`, and the request outcome. The outcome is a status code or
  a request exception.
- **Command throttle** (`Throttle`): `send_command` as a pure transition
  `(state, command, now, response) -> (state', success, requested URL)`. The state is
  `last_command_time`, which starts at 0. A call is refused without a request when
  `now - last < 1.5`. The state moves to the call's entry time only when the status is exactly 200.
- **Control loop** (`ControlLoop`): one pass detects both classes and attempts at most one
  command, red first. Sequences of passes are shown to be the throttle driven by the
  attempted commands.

Time is a `real` number of seconds and contour areas are `real`, so there is no float rounding.
The actuator's answer is an input of each call (`Response`), so there is no networking.
The throttle states `Cooling` and `Ready` are given by `Throttle.PhaseAt`.

Three details of the code fix the model's edge cases:
- The area test is strict (`> 1000`, color.py:101 and 107), so an area of exactly 1000 is not detected.
- A command counts as delivered only on status 200 (color.py:61). Every other status is a failure.
- `last_command_time` starts at 0 (color.py:26). Under a wall clock this never refuses the first
  command. With abstract time, a call earlier than 1.5 is refused, which is why
  `ThreeFrameScenario` starts at `t0 >= 1.5`.

## Model

| member | source | states |
|---|---|---|
| `Hsv.RedRange` | color.py:17-18 | the red range is hue 0..10, saturation 120..255, value 70..255, valid for 8-bit HSV, lower ≤ upper componentwise |
| `Hsv.BlueRange` | color.py:19-20 | the blue range is hue 100..130, saturation 150..255, value 50..255, valid for 8-bit HSV, lower ≤ upper componentwise |
| `Hsv.InRange` | color.py:88-92 | a pixel is in a mask iff lower ≤ pixel ≤ upper in hue, saturation and value, both bounds inclusive |
| `Hsv.BoundsInRange` | color.py:17-20 | each configured range, red and blue, contains both of its bounds, so neither is empty |
| `Hsv.RedBlueDisjoint` | color.py:17-20 | no pixel lies in both the red and the blue range |
| `Hsv.InRangeMask` | color.py:88 | the mask has the image's shape, and a pixel is set iff lower ≤ pixel ≤ upper in all three channels, inclusive |
| `Detection.Qualifies` | color.py:101 | a contour counts iff its area is strictly above 1000 |
| `Detection.Detected` | color.py:100-109 | a colour is detected iff at least one of its contours qualifies |
| `Detection.ScanContours` | color.py:100-103 | the early-exit scan reports a detection iff some contour area is strictly above 1000 |
| `Detection.MaxArea` | color.py:100-109 | the largest area bounds every area and is one of them |
| `Detection.DetectedIffLargestQualifies` | color.py:100-109 | a class is detected iff its list of areas is non-empty and its largest area is above the threshold |
| `Detection.ThresholdIsStrict` | color.py:101 | one contour is detected iff its area exceeds 1000; an area of exactly 1000 is not detected |
| `Detection.DetectedConcat` | color.py:100-109 | detection over two groups of contours is the disjunction of the groups, so extra qualifying contours change nothing |
| `Detection.DetectedPermutation` | color.py:100-103 | reordering the contours does not change the detection |
| `Actuator.CommandNamed` | color.py:112-115 | a path segment read as a command is that command's name |
| `Actuator.Name` | color.py:112-115 | the up command is the path segment "up" and the down command is "down" |
| `Actuator.RequestUrl` | color.py:55 | the URL is the base, then "/", then the command name |
| `Actuator.UrlRoundTrip` | color.py:55 | the command can be read back from its request URL |
| `Actuator.UrlParseSound` | color.py:55 | any URL that reads as a command is exactly that command's request URL |
| `Actuator.UrlInjective` | color.py:55 | up and down are sent to different URLs |
| `Actuator.Succeeded` | color.py:61 | a response is a success iff it has status 200; a request exception is never a success |
| `Throttle.SendCommand` | color.py:44-70 | while cooling, the call returns false, makes no request and keeps the state; otherwise it requests the command's URL; it succeeds iff the status is exactly 200, and then the state becomes the entry time; otherwise the state is unchanged |
| `Throttle.PhaseAt` | color.py:50 | the throttle is cooling iff less than 1.5 s has passed since the last delivered command, and ready otherwise |
| `Throttle.OnlyStatus200Succeeds` | color.py:61-67 | status 200 is a success; any other status (201 and 204 included) and a request exception are not, and such a call delivers nothing and keeps the state |
| `Throttle.FailureKeepsPhase` | color.py:65-70 | after a non-200 status or a request exception the throttle is cooling or ready at every later moment exactly as before |
| `Throttle.SecondCallWithinIntervalRefused` | color.py:47-63 | after a delivered command, a call less than 1.5 s later is refused without a request and without a state change |
| `Throttle.Run` | color.py:26-63 | the state after a sequence of calls, each call feeding the next |
| `Throttle.SentTimes` | color.py:47-64 | the entry times of the calls that returned true, in order |
| `Throttle.RunNeverDecreases` | color.py:26-63 | over any sequence of calls the last-command time never decreases, even if the clock goes backwards |
| `Throttle.RunEndsAtLastSent` | color.py:61-64 | after any sequence of calls the state is the entry time of the last delivered command, or the start state if none was delivered |
| `Throttle.Requests` | color.py:53-60 | the URLs a sequence of calls requests, in order, one per call the gate lets through |
| `Throttle.SentTimesSpaced` | color.py:47-64 | each delivered command is at least 1.5 s after the previous one, and the first is at least 1.5 s after the start state |
| `Throttle.SpacedPairwise` | color.py:50-51 | in such a spaced sequence, the j-th time is at least (j − i) intervals after the i-th |
| `Throttle.DeliveriesRateLimited` | color.py:47-64 | in any run, the i-th and j-th delivered commands are at least (j − i) × 1.5 s apart |
| `Throttle.KeepSucceeding` | color.py:61 | keeps exactly the calls answered with status 200: every kept call is one of the input calls and got 200, and every input call that got 200 is kept |
| `Throttle.FailuresLeaveNoTrace` | color.py:65-70 | dropping every failed call from a run changes neither the final state nor the delivery times, so failures never extend the cooldown |
| `ControlLoop.Decide` | color.py:111-116 | up iff red is detected; down iff red is absent and blue is present; nothing iff neither is present |
| `ControlLoop.Iterate` | color.py:96-116 | a pass attempts at most one command, red first; it requests that command's URL only when the throttle is ready; the state moves to the pass time iff the request got 200 |
| `ControlLoop.RunLoop` | color.py:73-116 | the throttle state after a sequence of loop passes, each pass feeding the next |
| `ControlLoop.LoopSentTimes` | color.py:111-116 | the times of the passes whose command was delivered, in order |
| `ControlLoop.LoopRequests` | color.py:111-116 | the URLs a sequence of passes requests, in order |
| `ControlLoop.Attempts` | color.py:111-116 | a sequence of passes makes at most one call of the sender per pass |
| `ControlLoop.AttemptsOfOnePass` | color.py:111-116 | one pass calls the sender with up when red is present, with down when only blue is, and not at all otherwise, carrying the pass's time and answer |
| `ControlLoop.AttemptsConcat` | color.py:73-116 | the calls of consecutive stretches of passes are those of each stretch, in order |
| `ControlLoop.LoopIsThrottledAttempts` | color.py:73-116 | running the loop equals running the throttle on the attempted commands, in final state, delivery times and the sequence of requested URLs |
| `ControlLoop.LoopRateLimited` | color.py:111-116 | commands delivered by the loop are spaced by the interval, and the last-command time never decreases |
| `ControlLoop.RedTakesPriority` | color.py:111-114 | with red and blue both present, only up is attempted and only the up URL can be requested |
| `ControlLoop.SmallContoursIgnored` | color.py:96-109 | when every contour is at or below 1000, a pass attempts nothing and changes nothing |
| `ControlLoop.UnreachableActuator` | color.py:65-70 | when every request raises, no command is ever delivered and the throttle never moves |
| `ControlLoop.ThreeFrameScenario` | color.py:96-116 | red 1500 at t0 sends up; red 2000 at t0+0.5 is refused with no request; blue 1200 at t0+1.6 sends down |

## Left out

- Camera opening, resolution, frame rate, buffer size, buffer-flushing grabs, frame reads and the read-failure exit (color.py:29-37, 75-81): device I/O.
- `cv2.resize`, `cv2.cvtColor`, `cv2.findContours` and `cv2.contourArea` (color.py:84-85, 89, 93, 101, 107): foreign OpenCV calls. A pass takes contour areas as given, so the model does not connect a mask to its contours. An image with no in-range pixels is covered only through its contour list being empty.
- The red hue band wrapping around 180 is not something the code handles, and neither does the model: only hues 0..10 count as red.
- `Hsv.InRangeMask` gives a boolean per pixel where OpenCV writes 255 or 0.
- `requests.get`, its 2-second timeout and its `Connection: close` header (color.py:56-60): the network. The outcome of each request is an input, either a status code or `RequestFailed` for a `RequestException`. Exceptions that are not `RequestException` would escape `send_command`; they are not modelled.
- `time.time()` (color.py:47): the clock is the `now` parameter. Floating-point rounding of the time and of contour areas is not modelled, because both are reals.
- Logging with `print`, the preview window, the `q` key exit, the Qt environment variable and cleanup (color.py:9, 40-41, 62, 66, 69, 113, 116, 119-124): display and process plumbing with no effect on the decision.
