/**
 Axis-aligned bounds and the bounded translation of the cube's position
 (`Bound` and `translate_with_bounds` in src/main.rs).

 Coordinates are `real`: the single-precision rounding, NaN and infinity
 behaviour of `f32::min`/`f32::max` are not modelled. A `Range` is read as
 the closed interval `[start, end]`, which is how the translation uses it,
 even though the range type it stands for normally excludes its end.
 */
module Bounds {

  /** A position or a translation in 3D space. */
  datatype Vec3 = Vec3(x: real, y: real, z: real)
  {
    function Add(other: Vec3): Vec3 {
      Vec3(x + other.x, y + other.y, z + other.z)
    }

    function Sub(other: Vec3): Vec3 {
      Vec3(x - other.x, y - other.y, z - other.z)
    }
  }

  const Zero := Vec3(0.0, 0.0, 0.0)

  /** One axis of a bound. Nothing forces `start <= end`. */
  datatype Range = Range(start: real, end: real)
  {
    /** The range is a non-empty closed interval. */
    predicate Valid() {
      start <= end
    }

    predicate Contains(v: real) {
      start <= v <= end
    }
  }

  /** Three independent ranges, one per axis. */
  datatype Bound = Bound(xRange: Range, yRange: Range, zRange: Range)
  {
    predicate Valid() {
      xRange.Valid() && yRange.Valid() && zRange.Valid()
    }

    predicate Contains(p: Vec3) {
      xRange.Contains(p.x) && yRange.Contains(p.y) && zRange.Contains(p.z)
    }
  }

  /** The smaller of two values, as `f32::min` returns it for ordinary numbers. */
  function Min(a: real, b: real): real {
    if a <= b then a else b
  }

  /** The larger of two values, as `f32::max` returns it for ordinary numbers. */
  function Max(a: real, b: real): real {
    if a >= b then a else b
  }

  function Abs(v: real): real {
    if v < 0.0 then -v else v
  }

  /**
   Clamps one coordinate: the upper limit is applied first, the lower limit
   second. On a valid range the result always lies in the range.
   */
  function Clamp(v: real, r: Range): (c: real)
    ensures r.Valid() ==> r.Contains(c)
  {
    Max(Min(v, r.end), r.start)
  }

  /** On a valid range, clamping keeps a value exactly when the range contains it. */
  lemma ClampPassthrough(v: real, r: Range)
    requires r.Valid()
    ensures Clamp(v, r) == v <==> r.Contains(v)
  {
  }

  /**
   Saturation and clamp order: a value above a valid range lands on its end,
   a value below the start lands on the start, and since the upper limit is
   applied first an inverted or degenerate range always yields its start.
   */
  lemma ClampSaturates(v: real, r: Range)
    ensures r.Valid() && v > r.end ==> Clamp(v, r) == r.end
    ensures v < r.start ==> Clamp(v, r) == r.start
    ensures r.start > r.end ==> Clamp(v, r) == r.start
    ensures r.start == r.end ==> Clamp(v, r) == r.start
  {
  }

  /** Clamping gives the point of the range nearest to the input. */
  lemma ClampIsNearest(v: real, r: Range, w: real)
    requires r.Contains(w)
    ensures r.Contains(Clamp(v, r))
    ensures Abs(Clamp(v, r) - v) <= Abs(w - v)
  {
  }

  /** Clamping never moves two values further apart. */
  lemma ClampNonExpansive(a: real, b: real, r: Range)
    ensures Abs(Clamp(a, r) - Clamp(b, r)) <= Abs(a - b)
  {
  }

  /** Clamping twice is clamping once, whatever the range, inverted or not. */
  lemma ClampIdempotent(v: real, r: Range)
    ensures Clamp(Clamp(v, r), r) == Clamp(v, r)
  {
  }

  /** Clamping is monotone in its input. */
  lemma ClampMonotone(a: real, b: real, r: Range)
    requires a <= b
    ensures Clamp(a, r) <= Clamp(b, r)
  {
  }

  /**
   From a value inside the range, a move of at most `e` either way is
   clamped to a value at most `e` away from where it started.
   */
  lemma ClampStaysNear(v: real, dv: real, e: real, r: Range)
    requires r.Contains(v)
    requires -e <= dv <= e
    ensures v - e <= Clamp(v + dv, r) <= v + e
  {
  }

  /**
   Adds `delta` to `position` and clamps every axis into its range of
   `bounds`, independently of the other axes. On a valid bound the result
   is always inside it, however large `delta` is.
   */
  function TranslateWithBounds(position: Vec3, delta: Vec3, bounds: Bound): (p: Vec3)
    ensures bounds.Valid() ==> bounds.Contains(p)
  {
    var moved := position.Add(delta);
    Vec3(Clamp(moved.x, bounds.xRange), Clamp(moved.y, bounds.yRange), Clamp(moved.z, bounds.zRange))
  }

  /**
   Passthrough: on a valid bound the translation returns `position + delta`
   unchanged exactly when that sum is already inside the bound.
   */
  lemma TranslatePassthrough(position: Vec3, delta: Vec3, bounds: Bound)
    requires bounds.Valid()
    ensures TranslateWithBounds(position, delta, bounds) == position.Add(delta)
      <==> bounds.Contains(position.Add(delta))
  {
  }

  /**
   Per-axis saturation: an axis of `position + delta` above its range's end
   lands exactly on the end, one below its start exactly on the start, and
   one inside is kept exactly.
   */
  lemma TranslateSaturates(position: Vec3, delta: Vec3, bounds: Bound)
    requires bounds.Valid()
    ensures var p := TranslateWithBounds(position, delta, bounds);
      && (position.x + delta.x > bounds.xRange.end ==> p.x == bounds.xRange.end)
      && (position.x + delta.x < bounds.xRange.start ==> p.x == bounds.xRange.start)
      && (bounds.xRange.Contains(position.x + delta.x) ==> p.x == position.x + delta.x)
      && (position.y + delta.y > bounds.yRange.end ==> p.y == bounds.yRange.end)
      && (position.y + delta.y < bounds.yRange.start ==> p.y == bounds.yRange.start)
      && (bounds.yRange.Contains(position.y + delta.y) ==> p.y == position.y + delta.y)
      && (position.z + delta.z > bounds.zRange.end ==> p.z == bounds.zRange.end)
      && (position.z + delta.z < bounds.zRange.start ==> p.z == bounds.zRange.start)
      && (bounds.zRange.Contains(position.z + delta.z) ==> p.z == position.z + delta.z)
  {
  }

  /**
   Axis independence: each axis of the result is determined by that axis of
   the position, the delta and the bound alone.
   */
  lemma TranslateAxisIndependent(p1: Vec3, d1: Vec3, b1: Bound, p2: Vec3, d2: Vec3, b2: Bound)
    ensures p1.x == p2.x && d1.x == d2.x && b1.xRange == b2.xRange ==>
      TranslateWithBounds(p1, d1, b1).x == TranslateWithBounds(p2, d2, b2).x
    ensures p1.y == p2.y && d1.y == d2.y && b1.yRange == b2.yRange ==>
      TranslateWithBounds(p1, d1, b1).y == TranslateWithBounds(p2, d2, b2).y
    ensures p1.z == p2.z && d1.z == d2.z && b1.zRange == b2.zRange ==>
      TranslateWithBounds(p1, d1, b1).z == TranslateWithBounds(p2, d2, b2).z
  {
  }

  /** With a zero delta, a position inside the bounds is left where it is. */
  lemma TranslateZeroInside(position: Vec3, bounds: Bound)
    requires bounds.Contains(position)
    ensures TranslateWithBounds(position, Zero, bounds) == position
  {
  }

  /**
   Idempotence: translating a result by zero returns the same result. This
   holds for any bound, including inverted ranges.
   */
  lemma TranslateZeroIdempotent(position: Vec3, delta: Vec3, bounds: Bound)
    ensures var p := TranslateWithBounds(position, delta, bounds);
      TranslateWithBounds(p, Zero, bounds) == p
  {
  }

  /** A degenerate range `[v, v]` pins its axis to `v` whatever the input. */
  lemma TranslateDegenerateAxis(position: Vec3, delta: Vec3, bounds: Bound)
    ensures bounds.xRange.start == bounds.xRange.end ==>
      TranslateWithBounds(position, delta, bounds).x == bounds.xRange.start
    ensures bounds.yRange.start == bounds.yRange.end ==>
      TranslateWithBounds(position, delta, bounds).y == bounds.yRange.start
    ensures bounds.zRange.start == bounds.zRange.end ==>
      TranslateWithBounds(position, delta, bounds).z == bounds.zRange.start
  {
  }

  /** No axis of the result moves further than the same axis of `delta`, from an in-bounds start. */
  lemma TranslateStepBounded(position: Vec3, delta: Vec3, bounds: Bound)
    requires bounds.Contains(position)
    ensures var p := TranslateWithBounds(position, delta, bounds);
      && Abs(p.x - position.x) <= Abs(delta.x)
      && Abs(p.y - position.y) <= Abs(delta.y)
      && Abs(p.z - position.z) <= Abs(delta.z)
  {
  }
}
