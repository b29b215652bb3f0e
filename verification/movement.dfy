/**
 The per-tick movement of the cube: the held keys are turned into a delta,
 the reset key overwrites the position first, and the delta is then applied
 through the bounded translation with the fixed arena of ±10 on every axis.

 The keyboard resource and the entity query are replaced by explicit
 parameters: a snapshot of the five keys and the cube's current position.
 */
module Movement {
  import opened Bounds

  /** Which of the five keys the movement reads are held during one tick. */
  datatype Keys = Keys(reset: bool, up: bool, down: bool, left: bool, right: bool)

  /** The position the reset key puts the cube back to. */
  const ResetPoint := Vec3(0.0, 0.5, 0.0)

  /** Distance moved per tick along an axis for one held key. */
  const Speed: real := 0.1

  const UnitX := Vec3(1.0, 0.0, 0.0)
  const UnitZ := Vec3(0.0, 0.0, 1.0)

  /** The bound every tick clamps into: `[-10, 10]` on each axis. */
  const Arena := Bound(Range(-10.0, 10.0), Range(-10.0, 10.0), Range(-10.0, 10.0))

  const NoKeys := Keys(false, false, false, false, false)

  /**
   Reference definition of the unit contribution of one pair of opposite
   keys: 1 toward `plus`, -1 toward `minus`, and 0 when neither or both are
   held.
   */
  function UnitAxis(minus: bool, plus: bool): real {
    if minus == plus then 0.0 else if plus then 1.0 else -1.0
  }

  /**
   The unscaled direction: starting from zero, `up` subtracts the Z unit,
   `down` adds it, `left` subtracts the X unit and `right` adds it, in that
   order. The contributions are summed, so opposite keys cancel, and the
   reset key contributes nothing.
   */
  function KeyDirection(keys: Keys): (d: Vec3)
    ensures d == Vec3(UnitAxis(keys.left, keys.right), 0.0, UnitAxis(keys.up, keys.down))
  {
    var d0 := Zero;
    var d1 := if keys.up then d0.Sub(UnitZ) else d0;
    var d2 := if keys.down then d1.Add(UnitZ) else d1;
    var d3 := if keys.left then d2.Sub(UnitX) else d2;
    var d4 := if keys.right then d3.Add(UnitX) else d3;
    d4
  }

  /**
   Reference definition of one horizontal axis of the delta: `Speed` toward
   the `plus` key, `-Speed` toward the `minus` key, and nothing when neither
   or both are held.
   */
  function AxisDelta(minus: bool, plus: bool): (a: real)
    ensures a == -Speed || a == 0.0 || a == Speed
    ensures a == Speed <==> plus && !minus
    ensures a == -Speed <==> minus && !plus
    ensures a == 0.0 <==> minus == plus
  {
    if minus == plus then 0.0 else if plus then Speed else -Speed
  }

  /** Scaling a unit contribution by 0.1 gives the reference per-axis delta. */
  lemma ScaledUnitAxis(minus: bool, plus: bool)
    ensures UnitAxis(minus, plus) * 0.1 == AxisDelta(minus, plus)
  {
  }

  /**
   The delta of one tick: the direction multiplied component-wise by 0.1.
   The Left/Right keys set the X axis, the Up/Down keys the Z axis (Up
   toward negative Z), and the vertical axis never moves.
   */
  function TickDelta(keys: Keys): (d: Vec3)
    ensures d == Vec3(AxisDelta(keys.left, keys.right), 0.0, AxisDelta(keys.up, keys.down))
  {
    var dir := KeyDirection(keys);
    ScaledUnitAxis(keys.left, keys.right);
    ScaledUnitAxis(keys.up, keys.down);
    Vec3(dir.x * 0.1, dir.y * 0.1, dir.z * 0.1)
  }

  /**
   Shape of the delta: each horizontal axis is one of -0.1, 0 and 0.1, the
   vertical axis is 0, and holding both keys of an opposite pair cancels
   that axis to 0.
   */
  lemma TickDeltaShape(keys: Keys)
    ensures var d := TickDelta(keys);
      && (d.x == -0.1 || d.x == 0.0 || d.x == 0.1)
      && (d.z == -0.1 || d.z == 0.0 || d.z == 0.1)
      && d.y == 0.0
      && (keys.left && keys.right ==> d.x == 0.0)
      && (keys.up && keys.down ==> d.z == 0.0)
      && (d.x == 0.1 <==> keys.right && !keys.left)
      && (d.z == -0.1 <==> keys.up && !keys.down)
  {
  }

  /** No arrow key is held. */
  predicate NoArrows(keys: Keys) {
    !keys.up && !keys.down && !keys.left && !keys.right
  }

  /**
   One tick of the movement: reset overwrites the position, and then the
   delta from the arrow keys is added and clamped into the arena, in both
   cases.
   */
  function Step(position: Vec3, keys: Keys): (p: Vec3)
    ensures Arena.Contains(p)
  {
    var start := if keys.reset then ResetPoint else position;
    TranslateWithBounds(start, TickDelta(keys), Arena)
  }

  /** With neither reset nor an arrow key held, a cube inside the arena stays exactly where it is. */
  lemma StepIdle(position: Vec3, keys: Keys)
    requires Arena.Contains(position)
    requires !keys.reset && NoArrows(keys)
    ensures Step(position, keys) == position
  {
  }

  /** With reset and no arrow key held, the cube ends exactly on the reset point, wherever it was. */
  lemma StepResetOnly(position: Vec3, keys: Keys)
    requires keys.reset && NoArrows(keys)
    ensures Step(position, keys) == ResetPoint
  {
  }

  /**
   Without reset, a move that stays inside the arena is taken exactly: the
   new position is the old one plus the delta of the held keys.
   */
  lemma StepMovesFreely(position: Vec3, keys: Keys)
    requires !keys.reset
    requires Arena.Contains(position.Add(TickDelta(keys)))
    ensures Step(position, keys) == position.Add(TickDelta(keys))
  {
  }

  /**
   Reset is a discrete overwrite followed by the ordinary move: a tick with
   reset held moves from the reset point exactly as a tick without reset
   would, so the arrow keys held in the same tick are not suppressed, and
   the position before the tick plays no part.
   */
  lemma ResetThenMove(position: Vec3, other: Vec3, keys: Keys)
    requires keys.reset
    ensures Step(position, keys) == Step(ResetPoint, keys.(reset := false))
    ensures Step(position, keys) == Step(other, keys)
    ensures Step(position, keys) == ResetPoint.Add(TickDelta(keys))
  {
  }

  /** With reset and the right arrow held, the cube lands one step right of the reset point. */
  lemma ResetWithRight(position: Vec3)
    ensures Step(position, Keys(true, false, false, false, true)) == Vec3(Speed, 0.5, 0.0)
  {
    var keys := Keys(true, false, false, false, true);
    var d := TickDelta(keys);
    assert d == Vec3(Speed, 0.0, 0.0);
    assert ResetPoint.Add(d) == Vec3(Speed, 0.5, 0.0);
    assert Step(position, keys) == TranslateWithBounds(ResetPoint, d, Arena);
    TranslatePassthrough(ResetPoint, d, Arena);
  }

  /** Moving right from x = 9.95 saturates at the arena's edge x = 10. */
  lemma SaturatesAtEdge()
    ensures Step(Vec3(9.95, 0.0, 0.0), Keys(false, false, false, false, true)) == Vec3(10.0, 0.0, 0.0)
  {
    var keys := Keys(false, false, false, false, true);
    var d := TickDelta(keys);
    assert d == Vec3(Speed, 0.0, 0.0);
    assert Step(Vec3(9.95, 0.0, 0.0), keys) == TranslateWithBounds(Vec3(9.95, 0.0, 0.0), d, Arena);
    assert Vec3(9.95, 0.0, 0.0).Add(d) == Vec3(10.05, 0.0, 0.0);
    assert Clamp(10.05, Range(-10.0, 10.0)) == 10.0;
    assert Clamp(0.0, Range(-10.0, 10.0)) == 0.0;
  }

  /** A whole unit of movement in one call from x = 9.95 is clamped back to x = 10 as well. */
  lemma SaturatesAtEdgeUnit()
    ensures TranslateWithBounds(Vec3(9.95, 0.0, 0.0), UnitX, Arena) == Vec3(10.0, 0.0, 0.0)
  {
  }

  /**
   The position after running one tick per element of `ticks`, as the
   engine calls the movement once per frame.
   */
  function Run(position: Vec3, ticks: seq<Keys>): (p: Vec3)
    ensures |ticks| > 0 ==> Arena.Contains(p)
    ensures Arena.Contains(position) ==> Arena.Contains(p)
    decreases |ticks|
  {
    if |ticks| == 0 then position else Run(Step(position, ticks[0]), ticks[1..])
  }

  /** No tick of `ticks` holds reset. */
  predicate NoResets(ticks: seq<Keys>) {
    forall i :: 0 <= i < |ticks| ==> !ticks[i].reset
  }

  lemma NoResetsTail(ticks: seq<Keys>)
    requires |ticks| > 0 && NoResets(ticks)
    ensures !ticks[0].reset && NoResets(ticks[1..])
  {
  }

  /**
   A tick without reset, from inside the arena, keeps the height and moves
   each horizontal axis by at most `Speed`.
   */
  lemma StepWithoutReset(position: Vec3, keys: Keys)
    requires Arena.Contains(position)
    requires !keys.reset
    ensures Step(position, keys).y == position.y
    ensures position.x - Speed <= Step(position, keys).x <= position.x + Speed
    ensures position.z - Speed <= Step(position, keys).z <= position.z + Speed
  {
    var d := TickDelta(keys);
    assert Step(position, keys) == TranslateWithBounds(position, d, Arena);
    ClampPassthrough(position.y, Arena.yRange);
    ClampStaysNear(position.x, d.x, Speed, Arena.xRange);
    ClampStaysNear(position.z, d.z, Speed, Arena.zRange);
  }

  /**
   Without reset, the cube never changes height once inside the arena: the
   movement has no vertical component.
   */
  lemma {:induction false} RunKeepsHeight(position: Vec3, ticks: seq<Keys>)
    requires Arena.Contains(position)
    requires NoResets(ticks)
    ensures Run(position, ticks).y == position.y
    decreases |ticks|
  {
    if |ticks| > 0 {
      NoResetsTail(ticks);
      var next := Step(position, ticks[0]);
      StepWithoutReset(position, ticks[0]);
      RunKeepsHeight(next, ticks[1..]);
    }
  }

  /** The farthest `n` ticks can carry the cube along one axis: `n` steps of `Speed`. */
  function MaxTravel(n: nat): (d: real)
    ensures d >= 0.0
    ensures d == (n as real) * 0.1
  {
    if n == 0 then 0.0 else MaxTravel(n - 1) + Speed
  }

  /** Two moves of at most `e` and at most `m` add up to a move of at most `e + m`. */
  lemma TravelAdds(a: real, b: real, c: real, e: real, m: real)
    requires a - e <= b <= a + e
    requires b - m <= c <= b + m
    ensures a - (e + m) <= c <= a + (e + m)
  {
  }

  /**
   Without reset, starting inside the arena, `n` ticks move the cube at
   most `n` steps of `Speed` along each horizontal axis.
   */
  lemma {:induction false} RunDisplacementBounded(position: Vec3, ticks: seq<Keys>)
    requires Arena.Contains(position)
    requires NoResets(ticks)
    ensures position.x - MaxTravel(|ticks|) <= Run(position, ticks).x <= position.x + MaxTravel(|ticks|)
    ensures position.z - MaxTravel(|ticks|) <= Run(position, ticks).z <= position.z + MaxTravel(|ticks|)
    decreases |ticks|
  {
    if |ticks| > 0 {
      var next := Step(position, ticks[0]);
      var rest := ticks[1..];
      assert Arena.Contains(next) && NoResets(rest)
        && position.x - Speed <= next.x <= position.x + Speed
        && position.z - Speed <= next.z <= position.z + Speed by {
        NoResetsTail(ticks);
        StepWithoutReset(position, ticks[0]);
      }
      RunDisplacementBounded(next, rest);
      var last := Run(next, rest);
      assert Run(position, ticks) == last;
      assert |rest| == |ticks| - 1;
      assert MaxTravel(|ticks|) == MaxTravel(|rest|) + Speed;
      TravelAdds(position.x, next.x, last.x, Speed, MaxTravel(|rest|));
      TravelAdds(position.z, next.z, last.z, Speed, MaxTravel(|rest|));
    }
  }

  /** Ticks with no key held leave a cube inside the arena where it is. */
  lemma {:induction false} RunIdleIsStill(position: Vec3, n: nat)
    requires Arena.Contains(position)
    ensures Run(position, seq(n, _ => NoKeys)) == position
    decreases n
  {
    if n > 0 {
      var ticks := seq(n, _ => NoKeys);
      assert ticks[0] == NoKeys;
      assert ticks[1..] == seq(n - 1, _ => NoKeys);
      StepIdle(position, NoKeys);
      RunIdleIsStill(position, n - 1);
    }
  }
}
