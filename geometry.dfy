/**
 * Hit-test geometry of the gesture pad (lib/utils.js).
 *
 * `getDistance` takes a square root; the model never does. It works with the
 * squared distance and states, through `IsDistance`, that any non-negative
 * root of it is the Euclidean distance the source computes.
 */
module Geometry {

  /** A screen coordinate, in the absolute page units of the pointer events. */
  datatype Position = Position(x: real, y: real)

  /** `Math.pow(v, 2)`. */
  function Square(v: real): real
  {
    v * v
  }

  /**
   * The square of the Euclidean distance between `a` and `b`; `Math.abs` is
   * dropped because it does not change a square.
   */
  function SquaredDistance(a: Position, b: Position): (d: real)
    ensures d >= 0.0
    ensures d == 0.0 <==> a == b
  {
    SquarePositive(a.x - b.x);
    SquarePositive(a.y - b.y);
    Square(a.x - b.x) + Square(a.y - b.y)
  }

  /** `d` is the value `getDistance(a, b)` returns: the non-negative root of the squared distance. */
  ghost predicate IsDistance(a: Position, b: Position, d: real)
  {
    d >= 0.0 && Square(d) == SquaredDistance(a, b)
  }

  /** `isInPoint`: `location` lies strictly inside the circle of `radius` around `origin`. */
  predicate IsInPoint(location: Position, origin: Position, radius: real)
  {
    radius > 0.0 && SquaredDistance(location, origin) < Square(radius)
  }

  /** The product of two positive reals is positive. */
  lemma MulPositive(a: real, b: real)
    requires a > 0.0 && b > 0.0
    ensures a * b > 0.0
  {
  }

  /** Multiplying by a non-negative factor keeps a non-strict order. */
  lemma MulLeft(k: real, a: real, b: real)
    requires k >= 0.0 && a <= b
    ensures k * a <= k * b
  {
    assert k * b - k * a == k * (b - a);
  }

  lemma SquareBelowProduct(a: real, b: real)
    requires 0.0 <= a <= b
    ensures Square(a) <= a * b
  {
    MulLeft(a, a, b);
  }

  lemma ProductBelowSquare(a: real, b: real)
    requires 0.0 <= a < b
    ensures a * b < Square(b)
  {
    MulPositive(b, b - a);
    assert b * (b - a) == b * b - a * b;
  }

  /** A square is never negative, and positive unless its base is zero. */
  lemma SquarePositive(v: real)
    ensures Square(v) >= 0.0
    ensures v != 0.0 ==> Square(v) > 0.0
  {
    if v < 0.0 {
      ProductBelowSquare(0.0, -v);
      assert Square(-v) == Square(v) by {
        assert (-v) * (-v) == v * v;
      }
    } else if v > 0.0 {
      ProductBelowSquare(0.0, v);
    }
  }

  /** For non-negative reals, comparing squares is comparing the numbers. */
  lemma SquareMonotone(a: real, b: real)
    requires a >= 0.0 && b >= 0.0
    ensures a < b <==> Square(a) < Square(b)
  {
    if a < b {
      SquareBelowProduct(a, b);
      ProductBelowSquare(a, b);
    } else {
      SquareBelowProduct(b, a);
      MulLeft(a, b, a);
      assert a * b <= a * a;
    }
  }

  /** The distance does not depend on the order of its arguments. */
  lemma DistanceSymmetric(a: Position, b: Position)
    ensures SquaredDistance(a, b) == SquaredDistance(b, a)
  {
    assert (a.x - b.x) * (a.x - b.x) == (b.x - a.x) * (b.x - a.x);
    assert (a.y - b.y) * (a.y - b.y) == (b.y - a.y) * (b.y - a.y);
  }

  /** There is at most one distance between two positions. */
  lemma DistanceUnique(a: Position, b: Position, d1: real, d2: real)
    requires IsDistance(a, b, d1) && IsDistance(a, b, d2)
    ensures d1 == d2
  {
    SquareMonotone(d1, d2);
    SquareMonotone(d2, d1);
  }

  /** The distance between two positions is zero exactly when they coincide. */
  lemma DistanceZero(a: Position, b: Position, d: real)
    requires IsDistance(a, b, d)
    ensures d == 0.0 <==> a == b
  {
    SquarePositive(d);
  }

  /**
   * The sqrt-free test agrees with the source's `radius > getDistance(location, origin)`
   * for the true distance `d`.
   */
  lemma InPointIffCloserThanRadius(location: Position, origin: Position, radius: real, d: real)
    requires IsDistance(location, origin, d)
    ensures IsInPoint(location, origin, radius) <==> d < radius
  {
    if radius > 0.0 {
      SquareMonotone(d, radius);
    }
  }

  /** The test is strict: a location exactly one radius away is outside. */
  lemma BoundaryIsOutside(location: Position, origin: Position, radius: real)
    requires IsDistance(location, origin, radius)
    ensures !IsInPoint(location, origin, radius)
  {
  }

  /** The centre of a point is inside it exactly when its radius is positive. */
  lemma CentreIsInside(origin: Position, radius: real)
    ensures IsInPoint(origin, origin, radius) <==> radius > 0.0
  {
    SquarePositive(radius);
  }

  /** A point with a radius that is not positive contains no location. */
  lemma EmptyWhenRadiusNotPositive(location: Position, origin: Position, radius: real)
    requires radius <= 0.0
    ensures !IsInPoint(location, origin, radius)
  {
  }

  /** A location inside at some radius is inside at every larger radius. */
  lemma RadiusMonotone(location: Position, origin: Position, radius: real, larger: real)
    requires IsInPoint(location, origin, radius)
    requires radius <= larger
    ensures IsInPoint(location, origin, larger)
  {
    SquareMonotone(radius, larger);
  }

  /** A location inside a point is less than one radius away along each axis. */
  lemma InsideBoundsAxes(location: Position, origin: Position, radius: real)
    requires IsInPoint(location, origin, radius)
    ensures -radius < location.x - origin.x < radius
    ensures -radius < location.y - origin.y < radius
  {
    var dx, dy := location.x - origin.x, location.y - origin.y;
    SquarePositive(dx);
    SquarePositive(dy);
    AbsBelow(dx, radius);
    AbsBelow(dy, radius);
  }

  /** A number whose square is below that of a positive `r` lies strictly between `-r` and `r`. */
  lemma AbsBelow(v: real, r: real)
    requires r > 0.0 && Square(v) < Square(r)
    ensures -r < v < r
  {
    var m := if v >= 0.0 then v else -v;
    assert Square(m) == Square(v) by {
      assert (-v) * (-v) == v * v;
    }
    SquareMonotone(m, r);
  }
}
