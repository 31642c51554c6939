/** From contours to rooftop polygons (`mask_to_polygons`).

    Contour tracing on the mask is done by an image library and is not part
    of this model: each mask is given as the contours that tracing found, in
    the order it found them.  Each contour is a list of pixel points, held by
    the library as an array of shape (n, 1, 2).  A contour is kept when it has
    at least three points, its squeezed array is two-dimensional, and the
    polygon built from its points is valid; `IsValid` is the geometry
    library's validity test, passed in as a parameter. */
module Contours {
  import opened CoordinateMapper

  /** The points of one traced contour, in tracing order. */
  type Contour = seq<Point>

  /** numpy's `squeeze`: the shape with every axis of length one removed. */
  function Squeeze(shape: seq<nat>): (r: seq<nat>)
    ensures forall i :: 0 <= i < |r| ==> r[i] != 1
    ensures |r| <= |shape|
  {
    if shape == [] then []
    else if shape[0] == 1 then Squeeze(shape[1..])
    else [shape[0]] + Squeeze(shape[1..])
  }

  /** The number of axes of a contour of n points after squeezing its
      (n, 1, 2) array. */
  function SqueezedRank(n: nat): nat
  {
    |Squeeze([n, 1, 2])|
  }

  /** Squeezing drops the middle axis; the point axis goes too when there
      is a single point. */
  lemma SqueezedRankValue(n: nat)
    ensures SqueezedRank(n) == if n == 1 then 1 else 2
  {
    assert [n, 1, 2][1..] == [1, 2];
    assert [1, 2][1..] == [2];
    assert [2][1..] == [];
  }

  /** The three tests a contour must pass to become a polygon. */
  predicate Accepted(c: Contour, isValid: Contour -> bool)
  {
    |c| >= 3 && SqueezedRank(|c|) == 2 && isValid(c)
  }

  /** The accepted contours, in their original order. */
  function KeptContours(contours: seq<Contour>, isValid: Contour -> bool): (kept: seq<Contour>)
    ensures forall p :: p in kept ==> Accepted(p, isValid)
  {
    if contours == [] then []
    else
      var last := contours[|contours| - 1];
      KeptContours(contours[..|contours| - 1], isValid) + (if Accepted(last, isValid) then [last] else [])
  }

  /** xs is obtained from ys by deleting elements, keeping the order. */
  predicate IsSubsequence<T(==)>(xs: seq<T>, ys: seq<T>)
  {
    if xs == [] then true
    else if ys == [] then false
    else if xs[|xs| - 1] == ys[|ys| - 1] then IsSubsequence(xs[..|xs| - 1], ys[..|ys| - 1])
    else IsSubsequence(xs, ys[..|ys| - 1])
  }

  /** `mask_to_polygons`: walk the contours and append each accepted one. */
  method MaskToPolygons(contours: seq<Contour>, isValid: Contour -> bool) returns (polygons: seq<Contour>)
    ensures polygons == KeptContours(contours, isValid)
    ensures forall p :: p in polygons ==> Accepted(p, isValid)
    ensures IsSubsequence(polygons, contours)
  {
    polygons := [];
    for i := 0 to |contours|
      invariant polygons == KeptContours(contours[..i], isValid)
    {
      assert contours[..i + 1][..i] == contours[..i];
      if |contours[i]| >= 3 {
        var rank := SqueezedRank(|contours[i]|);
        if rank == 2 {
          if isValid(contours[i]) {
            polygons := polygons + [contours[i]];
          }
        }
      }
    }
    assert contours[..|contours|] == contours;
    KeptContoursSubsequence(contours, isValid);
  }

  /** Every contour of the input that passes the three tests is kept. */
  lemma {:induction false} KeptContoursComplete(contours: seq<Contour>, isValid: Contour -> bool)
    ensures forall c :: c in contours && Accepted(c, isValid) ==> c in KeptContours(contours, isValid)
  {
    if contours != [] {
      var init := contours[..|contours| - 1];
      KeptContoursComplete(init, isValid);
      assert contours == init + [contours[|contours| - 1]];
    }
  }

  /** Appending one element to ys keeps a subsequence a subsequence. */
  lemma {:induction false} SubsequenceExtend<T>(xs: seq<T>, ys: seq<T>, y: T)
    requires IsSubsequence(xs, ys)
    ensures IsSubsequence(xs, ys + [y])
    decreases |ys|, 1
  {
    assert (ys + [y])[..|ys|] == ys;
    if xs != [] && xs[|xs| - 1] == y {
      SubsequenceDropLast(xs, ys);
    }
  }

  /** Dropping the last element of a subsequence keeps it a subsequence. */
  lemma {:induction false} SubsequenceDropLast<T>(xs: seq<T>, ys: seq<T>)
    requires xs != [] && IsSubsequence(xs, ys)
    ensures IsSubsequence(xs[..|xs| - 1], ys)
    decreases |ys|, 0
  {
    var n, m := |xs|, |ys|;
    if xs[n - 1] == ys[m - 1] {
      SubsequenceExtend(xs[..n - 1], ys[..m - 1], ys[m - 1]);
      assert ys[..m - 1] + [ys[m - 1]] == ys;
    } else {
      SubsequenceDropLast(xs, ys[..m - 1]);
      SubsequenceExtend(xs[..n - 1], ys[..m - 1], ys[m - 1]);
      assert ys[..m - 1] + [ys[m - 1]] == ys;
    }
  }

  /** The kept contours are the input with some contours deleted and the
      order unchanged. */
  lemma {:induction false} KeptContoursSubsequence(contours: seq<Contour>, isValid: Contour -> bool)
    ensures IsSubsequence(KeptContours(contours, isValid), contours)
  {
    if contours != [] {
      var n := |contours|;
      var init := contours[..n - 1];
      var last := contours[n - 1];
      KeptContoursSubsequence(init, isValid);
      var kept := KeptContours(init, isValid);
      if Accepted(last, isValid) {
        assert (kept + [last])[..|kept|] == kept;
      } else {
        assert kept + [] == kept;
        SubsequenceExtend(kept, init, last);
        assert init + [last] == contours;
      }
    }
  }

  /** A contour of fewer than three points never becomes a polygon. */
  lemma ShortContourRejected(contours: seq<Contour>, c: Contour, isValid: Contour -> bool)
    requires |c| < 3
    ensures KeptContours(contours + [c], isValid) == KeptContours(contours, isValid)
  {
    assert (contours + [c])[..|contours|] == contours;
  }

  /** `Polygon(pts).exterior.coords`: the ring is closed by repeating the
      first point unless the last point already equals it. */
  function ExteriorRing(pts: seq<Point>): (ring: seq<Point>)
    requires |pts| > 0
    ensures |ring| == if pts[0] == pts[|pts| - 1] then |pts| else |pts| + 1
    ensures ring[..|pts|] == pts
    ensures ring[0] == ring[|ring| - 1]
  {
    if pts[0] == pts[|pts| - 1] then pts else pts + [pts[0]]
  }
}
