# Tile-position coordinate algebra

A Dafny model of the tile-grid coordinate types of the `crisscross` crate
(`src/position/tile_position.rs`). It covers two value types:

- `TilePosition`: an unsigned 32-bit cell index `(x, y)` plus an offset `(relX, relY)` inside
  the cell.
- `SignedTilePosition`: the same with signed 64-bit indices. It is used as a delta between two
  positions or as a position that may lie off the grid.

The model covers the rounding constructors, widening and fallible narrowing between the two
types, the precision-tolerant equality of `TilePosition`, subtraction and addition, and the
input band that `normalized` demands.

Everything is a pure value transformation, so the model has datatypes, functions and lemmas
and no state. It is split into two modules:

- `precision.dfy` (module `Precision`): decimal rounding of offsets.
- `tile_position.dfy` (module `TilePositions`): the two position types and their operations.

Modelling choices:

- Offsets are exact `real`s, not `f32`.
- `Round(n, decimals)` rounds `n · 10^decimals` to the nearest integer, with halves going
  away from zero. This is the rule of the repository's rounding helper.
- The constructors round to `TilePositionPrecision = 3` digits, which is the precision of
  test builds. The production value, 8, is not modelled.
- An offset that rounding leaves unchanged is "on the grid": a whole number of `10^-3` quanta.
- Widening and narrowing build their records with struct literals, so they copy offsets
  without rounding. The Dafny datatype constructors do the same.
- `uint32` and `int64` are newtypes. The `as i64` conversion in subtraction is therefore a
  checked obligation: proving it is the proof that the difference never overflows.
- Addition of 64-bit indices panics on overflow in debug builds, which is where the source's
  tests run. `Add` models this as a `requires` saying the sums fit in 64 bits.
- `u32` cast: narrowing casts with `as u32`, which keeps the low 32 bits. `TruncateToU32`
  models this as the Euclidean `% 2^32`, which is also the right result for negative inputs.
- The by-value `Sub`/`Add` impls only delegate to the by-reference impls. Dafny values have
  no ownership, so one function models both forms. The by-value and by-reference results
  therefore agree by construction.
- `normalized` calls `WorldCoords::new(..).to_signed_tile_position()`, and `WorldCoords` is
  not part of this model. `Normalized` takes that conversion as a function parameter, and
  its band check (a `debug_assert!`) is its `requires`.

Behaviour of the code that the model keeps:

- Narrowing checks only that the integer indices are non-negative, never the combined
  coordinate `index + offset`, so `(0, 0, -0.1, 0.0)` narrows successfully
  (`NarrowIgnoresOffsets`).
- Indices are `u32`, as in the source.
- Narrowing has no upper-bound check (see Findings).

## Model

| member | source | states |
|---|---|---|
| `Precision.Round` | tests/common/mod.rs:4-7 | the rounded value is a whole number of `10^-decimals` quanta and keeps the input's sign; it lies within half a quantum of the input, with the bound open on the side towards zero, so an exact half rounds away from zero and the result is the unique grid point meeting the bounds |
| `Precision.RoundOnGrid` | tests/common/mod.rs:4-7 | rounding leaves a value that is already on the grid unchanged |
| `Precision.RoundIdempotent` | tests/common/mod.rs:4-7 | rounding twice equals rounding once |
| `Precision.RoundNeg` | tests/common/mod.rs:4-7 | rounding is symmetric about zero, `Round(-n) == -Round(n)` |
| `Precision.RoundHalfAwayFromZero` | tests/common/mod.rs:6 | exact halves go away from zero: `Round(0.0005, 3) == 0.001` and `Round(-0.0005, 3) == -0.001` |
| `Precision.SameRoundingIsClose` | src/position/tile_position.rs:99-102 | two offsets that round alike differ by strictly less than one quantum |
| `TilePositions.NewTilePosition` | src/position/tile_position.rs:27-34 | `TilePosition::new` keeps `x`, `y` and leaves both offsets rounded, each within half a quantum of its input |
| `TilePositions.NewSignedTilePosition` | src/position/tile_position.rs:38-45 | `SignedTilePosition::new` keeps `x`, `y` and leaves both offsets rounded, each within half a quantum of its input |
| `TilePositions.NewTilePositionIdempotent` | src/position/tile_position.rs:27-34 | constructing from already-rounded offsets returns that exact record; constructing a constructed position again changes nothing |
| `TilePositions.NewSignedTilePositionIdempotent` | src/position/tile_position.rs:38-45 | the same two idempotence facts for the signed constructor |
| `TilePositions.ToSigned` | src/position/tile_position.rs:57-66 | widening keeps both offsets and gives non-negative 64-bit indices equal in value to the 32-bit ones |
| `TilePositions.TruncateToU32` | src/position/tile_position.rs:73-74 | the `as u32` cast is the identity on `[0, 2^32)` and always agrees with its input modulo `2^32` |
| `TilePositions.TryFromSigned` | src/position/tile_position.rs:68-82 | narrowing succeeds iff `x >= 0 && y >= 0`; otherwise it fails with the off-grid message; on success the offsets are copied and the indices are truncated modulo `2^32` |
| `TilePositions.TryFromSignedChecked` | src/position/tile_position.rs:68-82 | corrected narrowing succeeds iff both indices lie in `[0, 2^32)`, and widening its result gives back the input exactly |
| `TilePositions.WidenThenNarrow` | src/position/tile_position.rs:57-82 | widening and then narrowing (either narrowing) always succeeds and returns the original position |
| `TilePositions.NarrowThenWiden` | src/position/tile_position.rs:57-82 | for indices below `2^32`, a successful narrowing widens back to the input, and the two narrowings agree |
| `TilePositions.NarrowIgnoresOffsets` | src/position/tile_position.rs:71-77 | whether narrowing succeeds never depends on the offsets; `(0, 0, -0.1, 0.0)` narrows successfully |
| `TilePositions.NarrowWrapsAboveU32` | src/position/tile_position.rs:71-74 | as written, index `2^32` narrows successfully to index 0, and widening the result does not give back the input |
| `TilePositions.TileEq` | src/position/tile_position.rs:95-103 | two positions are equal iff constructing both gives the same value: same indices and same rounded offsets |
| `TilePositions.TileEqIsEquivalence` | src/position/tile_position.rs:95-103 | equality is reflexive, symmetric and transitive |
| `TilePositions.TileEqNoiseBound` | src/position/tile_position.rs:95-103 | equal positions have offsets strictly less than one quantum apart: equality ignores only noise below the precision |
| `TilePositions.TileEqExactOnRounded` | src/position/tile_position.rs:95-103 | on rounded positions, equality is exact structural equality |
| `TilePositions.NewTilePositionEqualsRaw` | src/position/tile_position.rs:27-34 | a constructed position equals (under `TileEq`) the unrounded record with the same raw fields |
| `TilePositions.Sub` | src/position/tile_position.rs:106-123 | the difference's indices are `a.x - b.x` and `a.y - b.y`, computed without overflow, with magnitude at most `2^32 - 1`; its offsets are the rounded offset differences, not renormalised |
| `TilePositions.Add` | src/position/tile_position.rs:125-142 | the sum's indices are `a.x + d.x` and `a.y + d.y` when these fit in 64 bits; its offsets are the rounded offset sums, not renormalised |
| `TilePositions.SubExamples` | src/position/tile_position.rs:162-177 | `(2,3,0,0) - (1,4,0,0) == (1,-1,0,0)` and `(1,1,0.5,0.2) - (1,4,1.0,0.1) == (0,-3,-0.5,0.1)` |
| `TilePositions.SubAntisymmetric` | src/position/tile_position.rs:106-116 | `a - a` is the zero delta, and `b - a` negates every field of `a - b` |
| `TilePositions.AddSubInverse` | src/position/tile_position.rs:106-135 | `b + (a - b)` never overflows and has `a`'s indices; with rounded offsets it equals `a` widened, and both narrowings return `a` |
| `TilePositions.SubAddInverse` | src/position/tile_position.rs:106-135 | for rounded `a` and `d` whose sum stays in the 32-bit grid, `(a + d) - a == d` |
| `TilePositions.Normalized` | src/position/tile_position.rs:47-54 | `normalized` requires both offsets strictly inside `(-2·tile_size, 2·tile_size)`; the result is the world conversion of the combined point `index + offset` |
| `TilePositions.ArithmeticStaysInBand` | src/position/tile_position.rs:47-51 | for rounded, normalised operands, the offsets of `a - b` lie in `(-tile_size, tile_size)` and those of `a + d` lie in `[0, 2·tile_size)`; both are inside the band `normalized` accepts |
| `TilePositions.ComposedStepStaysInBand` | src/position/tile_position.rs:47-51 | for rounded, normalised `a`, `b`, `c`, the step `a + (b - c)` never overflows and has offsets in `(-tile_size, 2·tile_size)`, inside the band `normalized` accepts |

## Left out

- `crate::util::round` is not part of this model. It is replaced by the exact decimal rounding
  `Precision.Round`, which uses the half-away-from-zero rule of `tests/common/mod.rs`.
- The `f32` semantics of offsets are not modelled: no precision loss in `+` and `-`, no NaN,
  and no infinities. Because there is no NaN, `TileEq` is reflexive here. It is not reflexive
  for NaN offsets in the source.
- `TilePositions.Normalized`: its body beyond the band check is not modelled, because
  `WorldCoords` is not part of this model. The conversion is a parameter. Its `x as f32`
  cast, which loses precision above `2^24`, is not modelled either.
- Release builds are not modelled. In release builds, `debug_assert!` in `normalized` does
  nothing and 64-bit overflow in `Add` wraps. The model follows debug builds, where both
  panic, and states them as `requires`.
- Production precision (8 digits) is not modelled. `Round` is generic in the number of
  digits, but the constructors use the test-build value 3.
- The `Debug` formatting of `TilePosition` is not modelled, because it is float-to-string
  rendering.
- The test-only tuple `From` impls are not modelled, because they only call `new`.
- The test helpers `round_tp` and `round_cutoff` are not modelled, because they are test
  fixtures.
- The `Crossing` bracket type and any boundary search are not part of this model. No search
  code is among the modelled sources.
- `SignedTilePosition`'s derived `PartialEq` is Dafny's structural `==` on the datatype.

## Findings

| source | as written | input that shows it | evidently intended | confidence | as-written member | corrected member |
|---|---|---|---|---|---|---|
| src/position/tile_position.rs:71-74 | narrowing checks only `x >= 0 && y >= 0` and then casts each index with `as u32`, which wraps | `SignedTilePosition(2^32, 0, 0.0, 0.0)` narrows to `TilePosition(0, 0, 0.0, 0.0)` instead of failing | indices that do not fit in `u32` are refused as off grid, so that a successful narrowing loses nothing | medium, not executed | `TilePositions.NarrowWrapsAboveU32` (on `TilePositions.TryFromSigned`) | `TilePositions.TryFromSignedChecked` |
