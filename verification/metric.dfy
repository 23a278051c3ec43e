/**
 * The three norms offered by `validateNorm` (table keys 0, 1, 2) and
 * `computeDistance`, which applies the chosen norm to the coordinate
 * differences `origin - city`.
 *
 * Dafny's reals have no square root, so the Euclidean norm (`std::hypot`) is
 * represented by its square: `Apply(Euclidean, dx, dy) == dx*dx + dy*dy`, and
 * `WithinRadius` compares it with `radius * radius`. Because the square root is
 * strictly increasing on non-negative reals, both the inclusion test
 * `hypot(dx, dy) <= radius` and the order of distances are unchanged.
 */
module Metric {
  import opened Wrappers
  import opened CityStore

  datatype Norm = Euclidean | Chebyshev | Manhattan

  /** The `norms` table of `validateNorm`: keys 0, 1 and 2; any other key is rejected. */
  function NormOfKey(key: int): (r: Option<Norm>)
    ensures r.Some? <==> 0 <= key <= 2
    ensures key == 0 ==> r == Some(Euclidean)
    ensures key == 1 ==> r == Some(Chebyshev)
    ensures key == 2 ==> r == Some(Manhattan)
  {
    if key == 0 then Some(Euclidean)
    else if key == 1 then Some(Chebyshev)
    else if key == 2 then Some(Manhattan)
    else None
  }

  function Abs(x: real): real
  {
    if x < 0.0 then -x else x
  }

  function Max(a: real, b: real): real
  {
    if a < b then b else a
  }

  /** The norm of the difference vector (squared for `Euclidean`): never negative. */
  function Apply(norm: Norm, dx: real, dy: real): (r: real)
    ensures 0.0 <= r
  {
    SquarePositive(dx);
    SquarePositive(dy);
    match norm
    case Euclidean => dx * dx + dy * dy
    case Chebyshev => Max(Abs(dx), Abs(dy))
    case Manhattan => Abs(dx) + Abs(dy)
  }

  /**
   * `computeDistance(norm, coord1, coord2)`: the norm of `coord1 - coord2`,
   * never negative.
   */
  function ComputeDistance(norm: Norm, c1: Coordinates, c2: Coordinates): (d: real)
    ensures 0.0 <= d
  {
    Apply(norm, c1.lat - c2.lat, c1.lon - c2.lon)
  }

  lemma ProductPositive(a: real, b: real)
    requires a > 0.0 && b > 0.0
    ensures a * b > 0.0
  {
  }

  lemma SquarePositive(x: real)
    ensures x * x >= 0.0
    ensures x != 0.0 ==> x * x > 0.0
  {
    if x < 0.0 {
      ProductPositive(-x, -x);
      assert x * x == (-x) * (-x);
    } else if x > 0.0 {
      ProductPositive(x, x);
    }
  }

  /**
   * `distance <= radius`, with the Euclidean distance given by its square.
   * A negative radius admits no distance.
   */
  predicate WithinRadius(norm: Norm, d: real, radius: real)
    ensures radius < 0.0 && 0.0 <= d ==> !WithinRadius(norm, d, radius)
  {
    match norm
    case Euclidean => 0.0 <= radius && d <= radius * radius
    case _ => d <= radius
  }

  /** Distances are symmetric in the two cities. */
  lemma Symmetric(norm: Norm, a: Coordinates, b: Coordinates)
    ensures ComputeDistance(norm, a, b) == ComputeDistance(norm, b, a)
  {
  }

  /** Every distance is non-negative, and it is 0 between equal coordinates. */
  lemma NonNegative(norm: Norm, a: Coordinates, b: Coordinates)
    ensures ComputeDistance(norm, a, b) >= 0.0
    ensures a == b ==> ComputeDistance(norm, a, b) == 0.0
  {
    SquarePositive(a.lat - b.lat);
    SquarePositive(a.lon - b.lon);
  }

  /** Chebyshev and Manhattan distances are 0 only between equal coordinates. */
  lemma PositiveApart(norm: Norm, a: Coordinates, b: Coordinates)
    requires norm != Euclidean && a != b
    ensures ComputeDistance(norm, a, b) > 0.0
  {
  }

  /**
   * The squared Euclidean norm is at least the square of each non-zero
   * difference, and that square is positive: the Euclidean distance is 0 only
   * between equal coordinates.
   */
  lemma EuclideanPositiveApart(dx: real, dy: real)
    ensures dx != 0.0 ==> Apply(Euclidean, dx, dy) >= dx * dx > 0.0
    ensures dy != 0.0 ==> Apply(Euclidean, dx, dy) >= dy * dy > 0.0
  {
    SquarePositive(dx);
    SquarePositive(dy);
  }

  /** Chebyshev never exceeds Manhattan. */
  lemma ChebyshevAtMostManhattan(a: Coordinates, b: Coordinates)
    ensures ComputeDistance(Chebyshev, a, b) <= ComputeDistance(Manhattan, a, b)
  {
  }

  lemma SquareMonotone(x: real, y: real)
    requires 0.0 <= x <= y
    ensures x * x <= y * y
  {
    assert x * x <= x * y;
  }

  lemma SquareStrictlyMonotone(x: real, y: real)
    requires 0.0 <= x < y
    ensures x * x < y * y
  {
    ProductPositive(y - x, y + x);
    assert (y - x) * (y + x) == y * y - x * x;
  }

  /**
   * Chebyshev <= Euclidean <= Manhattan, stated on squares since the Euclidean
   * value is kept squared.
   */
  lemma NormsNested(a: Coordinates, b: Coordinates)
    ensures var c := ComputeDistance(Chebyshev, a, b);
            var e := ComputeDistance(Euclidean, a, b);
            var m := ComputeDistance(Manhattan, a, b);
            c * c <= e <= m * m
  {
    var dx, dy := Abs(a.lat - b.lat), Abs(a.lon - b.lon);
    assert dx * dx == (a.lat - b.lat) * (a.lat - b.lat);
    assert dy * dy == (a.lon - b.lon) * (a.lon - b.lon);
    assert 0.0 <= dx * dy;
    assert (dx + dy) * (dx + dy) == dx * dx + 2.0 * dx * dy + dy * dy;
  }

  /** Growing the radius never drops a city: the inclusion test is monotone in the radius. */
  lemma WithinRadiusMonotone(norm: Norm, d: real, r1: real, r2: real)
    requires r1 <= r2 && WithinRadius(norm, d, r1)
    ensures WithinRadius(norm, d, r2)
  {
    if norm == Euclidean {
      SquareMonotone(r1, r2);
    }
  }

  /**
   * For one radius, a city within the Manhattan radius is within the Euclidean
   * radius, and one within the Euclidean radius is within the Chebyshev radius.
   */
  lemma WithinRadiusNested(a: Coordinates, b: Coordinates, radius: real)
    ensures WithinRadius(Manhattan, ComputeDistance(Manhattan, a, b), radius) ==>
            WithinRadius(Euclidean, ComputeDistance(Euclidean, a, b), radius)
    ensures WithinRadius(Euclidean, ComputeDistance(Euclidean, a, b), radius) ==>
            WithinRadius(Chebyshev, ComputeDistance(Chebyshev, a, b), radius)
  {
    NormsNested(a, b);
    NonNegative(Chebyshev, a, b);
    NonNegative(Manhattan, a, b);
    var c := ComputeDistance(Chebyshev, a, b);
    var e := ComputeDistance(Euclidean, a, b);
    var m := ComputeDistance(Manhattan, a, b);
    if m <= radius {
      BelowSquare(e, m, radius);
    }
    if 0.0 <= radius && e <= radius * radius {
      AboveSquare(c, e, radius);
    }
  }

  /**
   * The Euclidean test on the square decides as `hypot(dx, dy) <= radius` does:
   * a non-negative length `e` is within `radius` exactly when `e * e` passes.
   */
  lemma WithinRadiusSquare(e: real, radius: real)
    requires 0.0 <= e
    ensures WithinRadius(Euclidean, e * e, radius) <==> e <= radius
  {
    if e <= radius {
      SquareMonotone(e, radius);
    } else if 0.0 <= radius {
      SquareStrictlyMonotone(radius, e);
    }
  }

  lemma BelowSquare(e: real, m: real, r: real)
    requires 0.0 <= m <= r && e <= m * m
    ensures e <= r * r
  {
    SquareMonotone(m, r);
  }

  lemma AboveSquare(c: real, e: real, r: real)
    requires 0.0 <= c && c * c <= e && 0.0 <= r && e <= r * r
    ensures c <= r
  {
    if r < c {
      SquareStrictlyMonotone(r, c);
    }
  }
}
