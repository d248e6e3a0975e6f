/** Presence detection: a colour class is present when one of its contours is large enough. */
module Detection {
  import opened Config

  /** A contour counts as an object only when its area is strictly above the threshold. */
  predicate Qualifies(area: real)
  {
    area > MinContourArea
  }

  /** Reference definition: some contour of the class qualifies. */
  predicate Detected(areas: seq<real>)
  {
    exists i | 0 <= i < |areas| :: Qualifies(areas[i])
  }

  /** The scan the controller runs over one class's contour areas, stopping at the first qualifying one. */
  method ScanContours(areas: seq<real>) returns (detected: bool)
    ensures detected <==> Detected(areas)
  {
    detected := false;
    var i := 0;
    while i < |areas|
      invariant 0 <= i <= |areas|
      invariant !detected
      invariant forall k :: 0 <= k < i ==> !Qualifies(areas[k])
    {
      if Qualifies(areas[i]) {
        detected := true;
        break;
      }
      i := i + 1;
    }
  }

  /** The largest contour area of a non-empty list. */
  function MaxArea(areas: seq<real>): (m: real)
    requires |areas| > 0
    ensures forall i :: 0 <= i < |areas| ==> areas[i] <= m
    ensures exists i :: 0 <= i < |areas| && areas[i] == m
    decreases |areas|
  {
    if |areas| == 1 then areas[0]
    else
      var rest := MaxArea(areas[1..]);
      if areas[0] >= rest then areas[0] else rest
  }

  /** A class is detected exactly when its largest contour is above the threshold. */
  lemma DetectedIffLargestQualifies(areas: seq<real>)
    ensures Detected(areas) <==> |areas| > 0 && Qualifies(MaxArea(areas))
  {
  }

  /** The threshold is exclusive: a single contour is detected exactly when its area exceeds 1000. */
  lemma ThresholdIsStrict(area: real)
    ensures Detected([area]) <==> area > 1000.0
    ensures !Detected([MinContourArea])
  {
    assert [area][0] == area;
    assert [MinContourArea][0] == MinContourArea;
  }

  /** Detection over two groups of contours is the disjunction of the groups' detections,
      so extra contours never switch a detection off and extra qualifying ones change nothing. */
  lemma {:induction false} DetectedConcat(a: seq<real>, b: seq<real>)
    ensures Detected(a + b) <==> Detected(a) || Detected(b)
  {
    if Detected(a + b) {
      var i :| 0 <= i < |a + b| && Qualifies((a + b)[i]);
      if i < |a| {
        assert a[i] == (a + b)[i];
      } else {
        assert b[i - |a|] == (a + b)[i];
      }
    }
    if Detected(a) {
      var i :| 0 <= i < |a| && Qualifies(a[i]);
      assert (a + b)[i] == a[i];
    }
    if Detected(b) {
      var i :| 0 <= i < |b| && Qualifies(b[i]);
      assert (a + b)[|a| + i] == b[i];
    }
  }

  /** Detection does not depend on the order in which contours are reported. */
  lemma DetectedPermutation(a: seq<real>, b: seq<real>)
    requires multiset(a) == multiset(b)
    ensures Detected(a) <==> Detected(b)
  {
    if Detected(a) {
      var i :| 0 <= i < |a| && Qualifies(a[i]);
      assert a[i] in multiset(b);
      var j :| 0 <= j < |b| && b[j] == a[i];
    }
    if Detected(b) {
      var j :| 0 <= j < |b| && Qualifies(b[j]);
      assert b[j] in multiset(a);
      var i :| 0 <= i < |a| && a[i] == b[j];
    }
  }
}
