/** Colour segmentation: HSV pixels, the fixed colour ranges, and range masks. */
module Hsv {

  /** One pixel of an 8-bit HSV image as OpenCV stores it. */
  datatype Pixel = Pixel(h: int, s: int, v: int)

  /** Hue lies in 0..179 and saturation and value in 0..255 for 8-bit OpenCV images. */
  predicate ValidPixel(p: Pixel)
  {
    0 <= p.h <= 179 && 0 <= p.s <= 255 && 0 <= p.v <= 255
  }

  /** Componentwise order on pixels. */
  predicate Below(a: Pixel, b: Pixel)
  {
    a.h <= b.h && a.s <= b.s && a.v <= b.v
  }

  /** An inclusive box of HSV values. */
  datatype ColorRange = ColorRange(lower: Pixel, upper: Pixel)

  /** Both bounds are valid pixels and the lower bound is below the upper one. */
  predicate WellFormed(r: ColorRange)
  {
    ValidPixel(r.lower) && ValidPixel(r.upper) && Below(r.lower, r.upper)
  }

  /** A pixel is inside a range when it lies between the bounds, inclusive on both ends. */
  predicate InRange(r: ColorRange, p: Pixel)
  {
    Below(r.lower, p) && Below(p, r.upper)
  }

  /** The range of hues, saturations and values the controller calls red. */
  function RedRange(): (r: ColorRange)
    ensures WellFormed(r)
    ensures r.lower.h == 0 && r.upper.h == 10
    ensures r.lower.s == 120 && r.lower.v == 70 && r.upper.s == 255 && r.upper.v == 255
  {
    ColorRange(Pixel(0, 120, 70), Pixel(10, 255, 255))
  }

  /** The range of hues, saturations and values the controller calls blue. */
  function BlueRange(): (r: ColorRange)
    ensures WellFormed(r)
    ensures r.lower.h == 100 && r.upper.h == 130
    ensures r.lower.s == 150 && r.lower.v == 50 && r.upper.s == 255 && r.upper.v == 255
  {
    ColorRange(Pixel(100, 150, 50), Pixel(130, 255, 255))
  }

  /** Neither configured range is empty: each contains both of its bounds. */
  lemma BoundsInRange()
    ensures InRange(RedRange(), RedRange().lower) && InRange(RedRange(), RedRange().upper)
    ensures InRange(BlueRange(), BlueRange().lower) && InRange(BlueRange(), BlueRange().upper)
  {
  }

  /** No pixel is both red and blue: the two hue bands do not overlap. */
  lemma RedBlueDisjoint(p: Pixel)
    ensures !(InRange(RedRange(), p) && InRange(BlueRange(), p))
  {
  }

  /** The mask of an image: one flag per pixel, set exactly when the pixel is inside the range. */
  method InRangeMask(image: seq<seq<Pixel>>, r: ColorRange) returns (mask: seq<seq<bool>>)
    ensures |mask| == |image|
    ensures forall i :: 0 <= i < |image| ==> |mask[i]| == |image[i]|
    ensures forall i, j :: 0 <= i < |image| && 0 <= j < |image[i]| ==> (mask[i][j] <==> InRange(r, image[i][j]))
  {
    mask := [];
    var i := 0;
    while i < |image|
      invariant 0 <= i <= |image|
      invariant |mask| == i
      invariant forall k :: 0 <= k < i ==> |mask[k]| == |image[k]|
      invariant forall k, j :: 0 <= k < i && 0 <= j < |image[k]| ==> (mask[k][j] <==> InRange(r, image[k][j]))
    {
      var row: seq<bool> := [];
      var j := 0;
      while j < |image[i]|
        invariant 0 <= j <= |image[i]|
        invariant |row| == j
        invariant forall m :: 0 <= m < j ==> (row[m] <==> InRange(r, image[i][m]))
      {
        row := row + [InRange(r, image[i][j])];
        j := j + 1;
      }
      mask := mask + [row];
      i := i + 1;
    }
  }
}
