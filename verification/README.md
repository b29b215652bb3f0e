# Bounded cube movement

A Dafny model of the one piece of first-party logic in this small game-engine
demo: the per-frame movement of the cube. Each frame the movement system

1. overwrites the cube's translation with the start point `(0, 0.5, 0)` when
   the R key is held;
2. sums unit vectors for the held arrow keys (Up is `-Z`, Down `+Z`, Left
   `-X`, Right `+X`) and multiplies the sum by `0.1`;
3. calls `translate_with_bounds`, which adds that delta to the translation
   and clamps each axis into `[-10, 10]`, applying `min(end)` first and
   `max(start)` second.

`bounds.dfy` (module `Bounds`) holds `Vec3`, `Range`, `Bound`, `Clamp` and
`TranslateWithBounds`, for any bound, including inverted ranges.
`movement.dfy` (module `Movement`) holds the key snapshot `Keys`, the delta
assembly (`KeyDirection`, `TickDelta`), one frame `Step` with the fixed
arena, and `Run`, which applies one `Step` per frame to a sequence of key
snapshots.

Coordinates are `real`, and `0.1` is the exact rational one tenth. A
`Range` is the closed interval `[start, end]`. The source uses Rust's
`Range<f32>`, whose end is normally exclusive, but the clamp can return
`end` itself. The engine's keyboard resource and entity query become two
plain parameters: a `Keys` record of the five key states and the current
position.

A held R overwrites the translation with `(0, 0.5, 0)`, and the arrow
delta of the same frame is still added and clamped (src/main.rs:19-39).
`ResetThenMove` and `ResetWithRight` state this.

## Model

| member | source | states |
|---|---|---|
| Bounds.Clamp | src/main.rs:51-53 | on a valid range (`start <= end`) the clamped coordinate lies in `[start, end]`, whatever the input |
| Bounds.ClampPassthrough | src/main.rs:51-53 | on a valid range, clamping returns the value unchanged if and only if the range contains it |
| Bounds.ClampSaturates | src/main.rs:51-53 | a value above a valid range becomes exactly `end`; a value below `start` becomes exactly `start`; because `min(end)` runs before `max(start)`, an inverted range always yields `start` and a degenerate range `[v, v]` yields `v` |
| Bounds.ClampIsNearest | src/main.rs:51-53 | the clamped value is a point of the range at least as close to the input as any other point of the range |
| Bounds.ClampNonExpansive | src/main.rs:51-53 | clamping never moves two values further apart |
| Bounds.ClampIdempotent | src/main.rs:51-53 | clamping an already clamped value changes nothing, for every range including inverted ones |
| Bounds.ClampMonotone | src/main.rs:51-53 | clamping preserves the order of its inputs |
| Bounds.ClampStaysNear | src/main.rs:51-53 | from a value inside the range, a move of at most `e` is clamped to a value at most `e` from the start |
| Bounds.TranslateWithBounds | src/main.rs:48-54 | containment: on a valid bound every axis of the result lies in that axis's range, however large the delta |
| Bounds.TranslatePassthrough | src/main.rs:49-53 | on a valid bound the result equals `position + delta` if and only if that sum is inside the bound |
| Bounds.TranslateSaturates | src/main.rs:49-53 | per axis: a sum above `end` gives exactly `end`, a sum below `start` gives exactly `start`, and a sum inside the range is kept exactly |
| Bounds.TranslateAxisIndependent | src/main.rs:51-53 | each axis of the result depends only on that axis's position, delta and range; changing another axis's inputs leaves it unchanged |
| Bounds.TranslateZeroInside | src/main.rs:49-53 | with a zero delta, a position inside the bound is returned unchanged |
| Bounds.TranslateZeroIdempotent | src/main.rs:49-53 | translating a result by a zero delta with the same bound returns that result, for every bound |
| Bounds.TranslateDegenerateAxis | src/main.rs:51-53 | an axis whose range is `[v, v]` always comes out as `v` |
| Bounds.TranslateStepBounded | src/main.rs:49-53 | from a position inside the bound, no axis moves further than the size of that axis of the delta |
| Movement.KeyDirection | src/main.rs:18-33 | the key sum starts from zero: X is +1 for Right, -1 for Left and 0 for both or neither; Z is +1 for Down and -1 for Up; Y is 0 |
| Movement.AxisDelta | src/main.rs:22-35 | the reference per-axis delta is one of `-0.1`, `0`, `0.1`; it is `0.1` if and only if only the plus key is held, `-0.1` if and only if only the minus key is held, and `0` if and only if both or neither are held |
| Movement.ScaledUnitAxis | src/main.rs:35 | multiplying a pair's unit contribution by `0.1` gives the reference per-axis delta |
| Movement.TickDelta | src/main.rs:18-35 | the scaled delta is the reference delta: X from Left/Right, Z from Up/Down, Y zero |
| Movement.TickDeltaShape | src/main.rs:18-35 | X and Z of the delta each lie in {-0.1, 0, 0.1}; Y is 0; Left+Right cancel X to 0; Up+Down cancel Z to 0 |
| Movement.Step | src/main.rs:16-40 | after a frame the cube is always inside the `[-10, 10]` arena, from any position, with or without reset |
| Movement.StepIdle | src/main.rs:19-39 | with neither reset nor an arrow key held, a cube inside the arena does not move |
| Movement.StepResetOnly | src/main.rs:19-39 | with R held and no arrow key, the new position is exactly `(0, 0.5, 0)`, wherever the cube was |
| Movement.StepMovesFreely | src/main.rs:35-39 | without reset, when `position + delta` is inside the arena, the new position is exactly that sum |
| Movement.ResetThenMove | src/main.rs:19-39 | with R held, a frame equals a frame from `(0, 0.5, 0)` without R; it does not depend on the earlier position; it equals `(0, 0.5, 0)` plus the delta, so the arrow keys are not suppressed |
| Movement.ResetWithRight | src/main.rs:19-39 | R and Right together put the cube at `(0.1, 0.5, 0)`, not at the start point |
| Movement.SaturatesAtEdge | src/main.rs:31-39 | Right from `x = 9.95` gives exactly `x = 10`, the arena's end |
| Movement.SaturatesAtEdgeUnit | src/main.rs:48-53 | a whole unit step right from `x = 9.95` is also clamped to exactly `x = 10` |
| Movement.Run | src/main.rs:9 | the movement runs once per frame; after any non-empty run the cube is inside the arena, and a run that starts inside stays inside |
| Movement.StepWithoutReset | src/main.rs:22-39 | without reset, from inside the arena, one frame keeps the height and moves X and Z by at most `0.1` each |
| Movement.RunKeepsHeight | src/main.rs:16-40 | without reset, a cube inside the arena keeps its height over any number of frames |
| Movement.RunDisplacementBounded | src/main.rs:16-40 | without reset, from inside the arena, `n` frames move X and Z by at most `n` steps of `0.1` each, that is `n × 0.1` (`MaxTravel`) |
| Movement.RunIdleIsStill | src/main.rs:16-40 | any number of frames with no key held leave a cube inside the arena where it is |

## Left out

- `main` and `setup_scene` (src/main.rs:4-11, 57-100): engine plugin wiring and scene spawning, with no first-party behaviour. The one exception is the once-per-frame scheduling of the movement system registered at src/main.rs:9, which `Run` models as one `Step` per key snapshot.
- src/tutorial.rs: an entity spawn, an engine-driven timer and console output. Its behaviour lives in the external engine and in I/O.
- `Query::single_mut`, which panics unless exactly one entity has a `Cube`. The model takes the one position as a parameter.
- The engine's `Input<KeyCode>` resource. The model takes a `Keys` snapshot of the five keys as a parameter.
- `Transform` rotation and scale. Only the translation is modelled.
- `f32` rounding, and the NaN and infinity rules of `f32::min`/`f32::max`. Coordinates are exact reals. So `9.95 + 0.1` is exactly `10.05`, and results that single-precision rounding would move slightly are not modelled.
