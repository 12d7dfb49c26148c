/**
  Geometry primitives of the round: the scalar clamp, the square-square
  overlap test and the square-circle overlap test by closest point.
 */
module Geometry {
  import opened Entities

  /** Point (px, py) lies in the closed square s. */
  predicate InSquare(s: Square, px: real, py: real) {
    s.x <= px <= s.x + s.w && s.y <= py <= s.y + s.w
  }

  /** Squared Euclidean distance between two points. */
  function Dist2(px: real, py: real, qx: real, qy: real): real {
    (px - qx) * (px - qx) + (py - qy) * (py - qy)
  }

  /** Clamp v to [a, b]; the lower bound is tested first. */
  function Clamp(v: real, a: real, b: real): (r: real)
    ensures a <= b ==> a <= r <= b
    ensures a <= v <= b ==> r == v
    ensures r == v || r == a || r == b
  {
    if v < a then a
    else if v > b then b
    else v
  }

  /** Within a non-empty interval the clamped value is a nearest point to v. */
  lemma ClampIsNearest(v: real, a: real, b: real, y: real)
    requires a <= y <= b
    ensures Abs(Clamp(v, a, b) - v) <= Abs(y - v)
  {
  }

  function Max(u: real, v: real): real {
    if u < v then v else u
  }

  function Min(u: real, v: real): real {
    if u < v then u else v
  }

  /** The closed intervals [lo1, hi1] and [lo2, hi2] share a point. */
  predicate IntervalsMeet(lo1: real, hi1: real, lo2: real, hi2: real) {
    Max(lo1, lo2) <= Min(hi1, hi2)
  }

  /**
    Two squares overlap unless one of the four strict separating tests
    holds, so squares whose edges merely touch do overlap. For sizes >= 0
    this is the same as their closed projections meeting on both axes.
   */
  predicate AabbOverlap(a: Square, b: Square): (r: bool)
    ensures 0.0 <= a.w && 0.0 <= b.w ==>
              (r <==> IntervalsMeet(a.x, a.x + a.w, b.x, b.x + b.w)
                      && IntervalsMeet(a.y, a.y + a.w, b.y, b.y + b.w))
  {
    !(a.x + a.w < b.x || b.x + b.w < a.x || a.y + a.w < b.y || b.y + b.w < a.y)
  }

  lemma AabbOverlapSymmetric(a: Square, b: Square)
    ensures AabbOverlap(a, b) <==> AabbOverlap(b, a)
  {
  }

  /** Edge contact counts as overlap: b starts exactly where a ends. */
  lemma TouchingSquaresOverlap(a: Square, b: Square)
    requires a.x + a.w == b.x && a.y == b.y
    requires 0.0 <= a.w && 0.0 <= b.w
    ensures AabbOverlap(a, b)
  {
  }

  /** For squares of non-negative size the overlap test is exactly "share a point". */
  lemma AabbOverlapIffCommonPoint(a: Square, b: Square)
    requires 0.0 <= a.w && 0.0 <= b.w
    ensures AabbOverlap(a, b) <==> exists px, py :: InSquare(a, px, py) && InSquare(b, px, py)
  {
    if AabbOverlap(a, b) {
      var px := if a.x < b.x then b.x else a.x;
      var py := if a.y < b.y then b.y else a.y;
      assert InSquare(a, px, py) && InSquare(b, px, py);
    }
  }

  /**
    The square overlaps the circle when its point closest to the centre is
    within the radius. The test never reports a contact that is not there:
    on a yes, some point of the square lies within the circle.
   */
  predicate OverlapsSquareCircle(s: Square, c: Pickup): (r: bool)
    ensures r && 0.0 <= s.w ==>
              exists qx, qy :: InSquare(s, qx, qy) && Dist2(qx, qy, c.x, c.y) <= c.r * c.r
  {
    var cx := Clamp(c.x, s.x, s.x + s.w);
    var cy := Clamp(c.y, s.y, s.y + s.w);
    assert 0.0 <= s.w ==> InSquare(s, cx, cy);
    Dist2(cx, cy, c.x, c.y) <= c.r * c.r
  }

  /** A circle whose centre lies inside the square always overlaps it. */
  lemma CentreInsideOverlaps(s: Square, c: Pickup)
    requires InSquare(s, c.x, c.y)
    ensures OverlapsSquareCircle(s, c)
  {
  }

  lemma SquareOfAbs(u: real)
    ensures Abs(u) * Abs(u) == u * u
  {
    if u < 0.0 {
      assert Abs(u) == -u;
      assert (-u) * (-u) == u * u;
    }
  }

  lemma SquareMonotoneNonNeg(a: real, b: real)
    requires 0.0 <= a <= b
    ensures a * a <= b * b
  {
    assert a * a <= a * b by {
      assert a * (b - a) >= 0.0;
    }
    assert a * b <= b * b by {
      assert (b - a) * b >= 0.0;
    }
  }

  lemma SquareMonotone(u: real, v: real)
    requires Abs(u) <= Abs(v)
    ensures u * u <= v * v
  {
    SquareOfAbs(u);
    SquareOfAbs(v);
    SquareMonotoneNonNeg(Abs(u), Abs(v));
  }

  /** No point of the square is nearer to the centre than the clamped point. */
  lemma ClosestPointIsNearest(s: Square, c: Pickup, qx: real, qy: real)
    requires InSquare(s, qx, qy)
    ensures Dist2(Clamp(c.x, s.x, s.x + s.w), Clamp(c.y, s.y, s.y + s.w), c.x, c.y)
            <= Dist2(qx, qy, c.x, c.y)
  {
    var cx := Clamp(c.x, s.x, s.x + s.w);
    var cy := Clamp(c.y, s.y, s.y + s.w);
    ClampIsNearest(c.x, s.x, s.x + s.w, qx);
    ClampIsNearest(c.y, s.y, s.y + s.w, qy);
    SquareMonotone(cx - c.x, qx - c.x);
    SquareMonotone(cy - c.y, qy - c.y);
  }

  /**
    The closest-point test is exact: for a square of non-negative size it
    holds iff some point of the square lies within the circle.
   */
  lemma OverlapsIffSomePointInCircle(s: Square, c: Pickup)
    requires 0.0 <= s.w
    ensures OverlapsSquareCircle(s, c) <==>
            exists qx, qy :: InSquare(s, qx, qy) && Dist2(qx, qy, c.x, c.y) <= c.r * c.r
  {
    forall qx, qy | InSquare(s, qx, qy) && Dist2(qx, qy, c.x, c.y) <= c.r * c.r
      ensures OverlapsSquareCircle(s, c)
    {
      ClosestPointIsNearest(s, c, qx, qy);
    }
  }
}
