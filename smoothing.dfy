/**
 * Temporal part of one tick: the exponential moving average of accepted face centres
 * and the movement test that compares it with the current centre.
 */
module Smoothing {
  import opened Wrappers
  import opened Geometry

  /** Weight of the newest centre in the moving average. */
  const EMA_ALPHA: real := 0.3
  /** Allowed movement, as a fraction of the frame width. */
  const RELATIVE_MOVEMENT_LIMIT: real := 0.02

  /** Squared Euclidean distance between two points. */
  function Dist2(p: Point, q: Point): real
  {
    (p.x - q.x) * (p.x - q.x) + (p.y - q.y) * (p.y - q.y)
  }

  /**
   * The new smoothed centre of an accepted tick: the current centre when none is set,
   * otherwise `old * (1 - alpha) + current * alpha`.
   */
  function Smooth(prev: Option<Point>, current: Point): (r: Point)
    ensures prev.None? ==> r == current
  {
    match prev
    case None => current
    case Some(s) =>
      Point(s.x * (1.0 - EMA_ALPHA) + current.x * EMA_ALPHA,
            s.y * (1.0 - EMA_ALPHA) + current.y * EMA_ALPHA)
  }

  /**
   * Each smoothing step lies on the segment between the old average and the current
   * centre, and shrinks the squared distance to the current centre by the factor 0.49.
   */
  lemma SmoothContracts(prev: Point, current: Point)
    ensures var r := Smooth(Some(prev), current);
      Dist2(r, current) == 0.49 * Dist2(prev, current) &&
      Min(prev.x, current.x) <= r.x <= Max(prev.x, current.x) &&
      Min(prev.y, current.y) <= r.y <= Max(prev.y, current.y)
  {
    var r := Smooth(Some(prev), current);
    assert r.x - current.x == 0.7 * (prev.x - current.x);
    assert r.y - current.y == 0.7 * (prev.y - current.y);
  }

  /** A centre that has stayed put is a fixed point of the average. */
  lemma SmoothFixedPoint(c: Point)
    ensures Smooth(Some(c), c) == c
  {
  }

  /** The movement limit of a frame: 2% of its width. */
  function MoveLimit(width: nat): (m: real)
    ensures m >= 0.0
  {
    width as real * RELATIVE_MOVEMENT_LIMIT
  }

  /**
   * The movement test `sqrt(dx*dx + dy*dy) > moveLimit`, written without the square
   * root: because the limit is never negative, comparing the squares is equivalent.
   */
  predicate Moved(smoothed: Point, current: Point, width: nat)
  {
    Dist2(smoothed, current) > MoveLimit(width) * MoveLimit(width)
  }

  /**
   * The squared comparison agrees with the source's comparison of the Euclidean
   * distance (any non-negative `d` with `d * d` equal to the squared distance).
   */
  lemma MovedIffDistanceAboveLimit(smoothed: Point, current: Point, width: nat, d: real)
    requires d >= 0.0 && d * d == Dist2(smoothed, current)
    ensures Moved(smoothed, current, width) <==> d > MoveLimit(width)
  {
    SquaresOrdered(d, MoveLimit(width));
  }

  /** On non-negative numbers, comparing squares is comparing the numbers. */
  lemma SquaresOrdered(a: real, b: real)
    requires a >= 0.0 && b >= 0.0
    ensures a > b <==> a * a > b * b
  {
    if a > b {
      var x, y := a - b, a + b;
      assert x > 0.0 && y > 0.0;
      ProductSign(x, y);
      assert x * y > 0.0;
      assert x * y == a * a - b * b;
    } else {
      var x, y := b - a, a + b;
      ProductSign(x, y);
      assert x * y >= 0.0;
      assert x * y == b * b - a * a;
    }
  }

  lemma ProductSign(x: real, y: real)
    requires x >= 0.0 && y >= 0.0
    ensures x * y >= 0.0
    ensures x > 0.0 && y > 0.0 ==> x * y > 0.0
  {
  }

  /** With no smoothed centre yet, the first accepted tick never counts as movement. */
  lemma FirstSampleNeverMoves(current: Point, width: nat)
    ensures !Moved(Smooth(None, current), current, width)
  {
  }

  /**
   * Moving from an earlier average: the tick counts as movement exactly when the old
   * average was more than `limit / 0.7` away from the current centre.
   */
  lemma MovedAfterSmoothing(prev: Point, current: Point, width: nat)
    ensures Moved(Smooth(Some(prev), current), current, width) <==>
            0.49 * Dist2(prev, current) > MoveLimit(width) * MoveLimit(width)
  {
    SmoothContracts(prev, current);
  }
}
