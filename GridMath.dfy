/** The geometry helpers of the game (sqr, dist_sq, min, max). Distances on the
    integer grid are compared through their squares: for a bound d >= 0,
    dist(a, b) <= d holds exactly when dist_sq(a, b) <= d * d, which
    DistLeIffSquaresLe proves. */
module GridMath {
  import opened Components

  /** sqr(a) = a * a. */
  function Sqr(a: int): (r: int)
    ensures r >= 0
    ensures r == 0 <==> a == 0
    ensures r >= a
  {
    a * a
  }

  /** Squared Euclidean distance between two grid cells. */
  function DistSq(a: Pos, b: Pos): (r: int)
    ensures r >= 0
    ensures r == 0 <==> a == b
  {
    Sqr(a.x - b.x) + Sqr(a.y - b.y)
  }

  lemma DistSqSymmetric(a: Pos, b: Pos)
    ensures DistSq(a, b) == DistSq(b, a)
  {
    assert Sqr(a.x - b.x) == Sqr(b.x - a.x) by { assert (a.x - b.x) == -(b.x - a.x); }
    assert Sqr(a.y - b.y) == Sqr(b.y - a.y) by { assert (a.y - b.y) == -(b.y - a.y); }
  }

  /** min over floats: a when a < b, otherwise b (so a tie returns b). */
  function Min(a: real, b: real): (r: real)
    ensures r <= a && r <= b
    ensures r == a || r == b
  {
    if a < b then a else b
  }

  /** max over floats: a when a > b, otherwise b (so a tie returns b). */
  function Max(a: real, b: real): (r: real)
    ensures r >= a && r >= b
    ensures r == a || r == b
  {
    if a > b then a else b
  }

  /** dist(a, b) <= d, stated over the squared distance. */
  predicate WithinDist(a: Pos, b: Pos, d: real) {
    d >= 0.0 && DistSq(a, b) as real <= d * d
  }

  /** dist(a, b) < d, stated over the squared distance. */
  predicate CloserThan(a: Pos, b: Pos, d: real) {
    d > 0.0 && DistSq(a, b) as real < d * d
  }

  /** Comparing a non-negative length s (the square root of a squared distance)
      with a bound d is the same as comparing s * s with d * d when d >= 0; for a
      negative d neither dist <= d nor dist < d can hold. This is what licenses
      WithinDist and CloserThan in place of the source's sqrtf-based comparisons. */
  lemma DistLeIffSquaresLe(s: real, d: real)
    requires s >= 0.0
    ensures s <= d <==> (d >= 0.0 && s * s <= d * d)
    ensures s < d <==> (d > 0.0 && s * s < d * d)
  {
    if 0.0 <= d {
      if s < d {
        PosProduct(d - s, d + s);
        assert (d - s) * (d + s) == d * d - s * s;
        assert s * s < d * d;
      } else if s == d {
        assert s * s == d * d;
      } else {
        PosProduct(s - d, s + d);
        assert (s - d) * (s + d) == s * s - d * d;
        assert d * d < s * s;
      }
    }
  }

  lemma PosProduct(p: real, q: real)
    requires p > 0.0 && q > 0.0
    ensures p * q > 0.0
  {
  }
}
