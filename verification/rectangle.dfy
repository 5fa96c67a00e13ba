/** `RectangleObject` of `pypdf/generic/_rectangle.py`: a page box, an
    array of four numbers `[llx lly urx ury]` (section 7.9.5 of
    ISO 32000-1), read through its four corners. */
module Rectangles {
  import opened PyBase

  /** The four numbers, in the order they were given. */
  datatype Rectangle = Rectangle(coords: seq<real>)

  datatype Corner = Corner(x: real, y: real)

  /** `RectangleObject(arr)`: exactly four entries, else AssertionError. */
  function New(arr: seq<real>): (r: Result<Rectangle>)
    ensures r.Ok? <==> |arr| == 4
    ensures r.Err? ==> r.exc == AssertionError
    ensures r.Ok? ==> |r.value.coords| == 4
                      && forall i :: 0 <= i < 4 ==> r.value.coords[i] == arr[i]
  {
    if |arr| != 4 then Err(AssertionError) else Ok(Rectangle(arr))
  }

  /** A rectangle as the constructor leaves it. */
  predicate Valid(r: Rectangle) { |r.coords| == 4 }

  function LowerLeft(r: Rectangle): Corner
    requires Valid(r)
  {
    Corner(r.coords[0], r.coords[1])
  }

  function LowerRight(r: Rectangle): Corner
    requires Valid(r)
  {
    Corner(r.coords[2], r.coords[1])
  }

  function UpperLeft(r: Rectangle): Corner
    requires Valid(r)
  {
    Corner(r.coords[0], r.coords[3])
  }

  function UpperRight(r: Rectangle): Corner
    requires Valid(r)
  {
    Corner(r.coords[2], r.coords[3])
  }

  /** The corners share their sides: the left corners one x, the right
      corners the other, the lower corners one y, the upper corners the
      other. */
  lemma CornersAgree(r: Rectangle)
    requires Valid(r)
    ensures LowerLeft(r).x == UpperLeft(r).x && LowerRight(r).x == UpperRight(r).x
    ensures LowerLeft(r).y == LowerRight(r).y && UpperLeft(r).y == UpperRight(r).y
  {
  }

  /** The lower-left and upper-right corners give back the four numbers
      the rectangle was built from, so two rectangles with the same
      opposite corners are the same rectangle. */
  lemma CornersRoundTrip(arr: seq<real>)
    requires |arr| == 4
    ensures var r := New(arr).value;
            New([LowerLeft(r).x, LowerLeft(r).y, UpperRight(r).x, UpperRight(r).y]) == New(arr)
  {
    var r := New(arr).value;
    assert [LowerLeft(r).x, LowerLeft(r).y, UpperRight(r).x, UpperRight(r).y] == arr;
  }
}
