/** The tile-grid coordinate algebra.

    A `TilePosition` is an unsigned 32-bit cell index plus an offset inside the cell; a
    `SignedTilePosition` has signed 64-bit indices and serves as a delta or as a position
    that may lie off the grid. Offsets are exact reals that the constructors round to
    `TilePositionPrecision` decimal digits; the source's record literals (widening,
    narrowing) copy offsets without rounding, and so do the datatype constructors here.
 */
module TilePositions {
  import opened Precision

  /** Digits kept in an offset (the value of test builds). */
  const TilePositionPrecision: nat := 3

  const U32Limit: int := 0x1_0000_0000

  newtype uint32 = x: int | 0 <= x < 0x1_0000_0000
  newtype int64 = x: int | -0x8000_0000_0000_0000 <= x < 0x8000_0000_0000_0000

  predicate InInt64(v: int) {
    -0x8000_0000_0000_0000 <= v < 0x8000_0000_0000_0000
  }

  datatype TilePosition = TilePosition(x: uint32, y: uint32, relX: real, relY: real)

  datatype SignedTilePosition = SignedTilePosition(x: int64, y: int64, relX: real, relY: real)

  datatype Result<T> = Ok(value: T) | Err(error: string)

  const OffGridError: string := "Tile Position is off grid, cannot convert"

  /** Both offsets are whole numbers of quanta, as the constructors leave them. */
  predicate IsRounded(p: TilePosition) {
    OnGrid(p.relX, TilePositionPrecision) && OnGrid(p.relY, TilePositionPrecision)
  }

  predicate IsRoundedSigned(s: SignedTilePosition) {
    OnGrid(s.relX, TilePositionPrecision) && OnGrid(s.relY, TilePositionPrecision)
  }

  // ---------------------------------------------------------------------------------------
  // Constructors

  /** `TilePosition::new`: keeps the indices and rounds both offsets onto the grid. */
  function NewTilePosition(x: uint32, y: uint32, relX: real, relY: real): (p: TilePosition)
    ensures p.x == x && p.y == y
    ensures IsRounded(p)
    ensures relX - HalfQuantum(TilePositionPrecision) <= p.relX <= relX + HalfQuantum(TilePositionPrecision)
    ensures relY - HalfQuantum(TilePositionPrecision) <= p.relY <= relY + HalfQuantum(TilePositionPrecision)
  {
    TilePosition(x, y, Round(relX, TilePositionPrecision), Round(relY, TilePositionPrecision))
  }

  /** `SignedTilePosition::new`: keeps the indices and rounds both offsets onto the grid. */
  function NewSignedTilePosition(x: int64, y: int64, relX: real, relY: real): (s: SignedTilePosition)
    ensures s.x == x && s.y == y
    ensures IsRoundedSigned(s)
    ensures relX - HalfQuantum(TilePositionPrecision) <= s.relX <= relX + HalfQuantum(TilePositionPrecision)
    ensures relY - HalfQuantum(TilePositionPrecision) <= s.relY <= relY + HalfQuantum(TilePositionPrecision)
  {
    SignedTilePosition(x, y, Round(relX, TilePositionPrecision), Round(relY, TilePositionPrecision))
  }

  /** Constructing from offsets that are already rounded changes nothing, so constructing
      twice is constructing once. */
  lemma NewTilePositionIdempotent(x: uint32, y: uint32, relX: real, relY: real)
    ensures IsRounded(TilePosition(x, y, relX, relY)) ==>
              NewTilePosition(x, y, relX, relY) == TilePosition(x, y, relX, relY)
    ensures var p := NewTilePosition(x, y, relX, relY);
            NewTilePosition(p.x, p.y, p.relX, p.relY) == p
  {
    if IsRounded(TilePosition(x, y, relX, relY)) {
      RoundOnGrid(relX, TilePositionPrecision);
      RoundOnGrid(relY, TilePositionPrecision);
    }
    RoundIdempotent(relX, TilePositionPrecision);
    RoundIdempotent(relY, TilePositionPrecision);
  }

  lemma NewSignedTilePositionIdempotent(x: int64, y: int64, relX: real, relY: real)
    ensures IsRoundedSigned(SignedTilePosition(x, y, relX, relY)) ==>
              NewSignedTilePosition(x, y, relX, relY) == SignedTilePosition(x, y, relX, relY)
    ensures var s := NewSignedTilePosition(x, y, relX, relY);
            NewSignedTilePosition(s.x, s.y, s.relX, s.relY) == s
  {
    if IsRoundedSigned(SignedTilePosition(x, y, relX, relY)) {
      RoundOnGrid(relX, TilePositionPrecision);
      RoundOnGrid(relY, TilePositionPrecision);
    }
    RoundIdempotent(relX, TilePositionPrecision);
    RoundIdempotent(relY, TilePositionPrecision);
  }

  // ---------------------------------------------------------------------------------------
  // Widening and narrowing

  /** `From<TilePosition> for SignedTilePosition`: every field copied, the indices widened
      to non-negative 64-bit values of equal value. */
  function ToSigned(p: TilePosition): (s: SignedTilePosition)
    ensures s.x as int == p.x as int && s.y as int == p.y as int
    ensures 0 <= s.x < U32Limit as int64 && 0 <= s.y < U32Limit as int64
    ensures s.relX == p.relX && s.relY == p.relY
  {
    SignedTilePosition(p.x as int64, p.y as int64, p.relX, p.relY)
  }

  /** The cast `v as u32` on a 64-bit signed `v`: keeps the low 32 bits (two's complement). */
  function TruncateToU32(v: int64): (r: uint32)
    ensures 0 <= v < U32Limit as int64 ==> r as int == v as int
    ensures (r as int - v as int) % U32Limit == 0
  {
    (v as int % U32Limit) as uint32
  }

  /** `TryFrom<SignedTilePosition> for TilePosition`, as written: succeeds exactly when both
      indices are non-negative, never looks at the offsets, and truncates each index to its
      low 32 bits. */
  function TryFromSigned(s: SignedTilePosition): (r: Result<TilePosition>)
    ensures r.Ok? <==> s.x >= 0 && s.y >= 0
    ensures r.Err? ==> r.error == OffGridError
    ensures r.Ok? ==> r.value.relX == s.relX && r.value.relY == s.relY
    ensures r.Ok? ==>
              r.value.x as int == s.x as int % U32Limit && r.value.y as int == s.y as int % U32Limit
  {
    if s.x >= 0 && s.y >= 0 then
      Ok(TilePosition(TruncateToU32(s.x), TruncateToU32(s.y), s.relX, s.relY))
    else
      Err(OffGridError)
  }

  /** Narrowing with the upper bound checked as well: it succeeds exactly when the indices
      fit in 32 bits unsigned, and then it loses nothing. */
  function TryFromSignedChecked(s: SignedTilePosition): (r: Result<TilePosition>)
    ensures r.Ok? <==> 0 <= s.x < U32Limit as int64 && 0 <= s.y < U32Limit as int64
    ensures r.Err? ==> r.error == OffGridError
    ensures r.Ok? ==> ToSigned(r.value) == s
  {
    if 0 <= s.x < U32Limit as int64 && 0 <= s.y < U32Limit as int64 then
      Ok(TilePosition(s.x as int as uint32, s.y as int as uint32, s.relX, s.relY))
    else
      Err(OffGridError)
  }

  /** Widening then narrowing gives back the original position, on both narrowings. */
  lemma WidenThenNarrow(p: TilePosition)
    ensures TryFromSigned(ToSigned(p)) == Ok(p)
    ensures TryFromSignedChecked(ToSigned(p)) == Ok(p)
  {
  }

  /** Narrowing then widening gives back the original, as long as the indices fit in
      32 bits; outside that range only the checked narrowing refuses. */
  lemma NarrowThenWiden(s: SignedTilePosition)
    requires s.x < U32Limit as int64 && s.y < U32Limit as int64
    ensures TryFromSigned(s).Ok? ==> ToSigned(TryFromSigned(s).value) == s
    ensures TryFromSigned(s) == TryFromSignedChecked(s)
  {
  }

  /** Narrowing decides on the indices alone: offsets, even negative ones, never matter. */
  lemma NarrowIgnoresOffsets(s: SignedTilePosition, relX: real, relY: real)
    ensures TryFromSigned(s).Ok? == TryFromSigned(SignedTilePosition(s.x, s.y, relX, relY)).Ok?
    ensures TryFromSigned(SignedTilePosition(0, 0, -0.1, 0.0)) == Ok(TilePosition(0, 0, -0.1, 0.0))
  {
  }

  /** An index one past the 32-bit range is not refused: it wraps to 0, and widening the
      result does not give back the input. */
  lemma NarrowWrapsAboveU32()
    ensures var s := SignedTilePosition(U32Limit as int64, 0, 0.0, 0.0);
            && TryFromSigned(s) == Ok(TilePosition(0, 0, 0.0, 0.0))
            && ToSigned(TryFromSigned(s).value) != s
            && TryFromSignedChecked(s) == Err(OffGridError)
  {
  }

  // ---------------------------------------------------------------------------------------
  // Equality

  /** `PartialEq for TilePosition`: equal indices, and offsets that round alike. Two
      positions are equal exactly when constructing them gives the same value. */
  function TileEq(a: TilePosition, b: TilePosition): (eq: bool)
    ensures eq <==> NewTilePosition(a.x, a.y, a.relX, a.relY) == NewTilePosition(b.x, b.y, b.relX, b.relY)
  {
    && a.x == b.x
    && a.y == b.y
    && Round(a.relX, TilePositionPrecision) == Round(b.relX, TilePositionPrecision)
    && Round(a.relY, TilePositionPrecision) == Round(b.relY, TilePositionPrecision)
  }

  /** Equality is an equivalence relation (offsets here are never NaN). */
  lemma TileEqIsEquivalence(a: TilePosition, b: TilePosition, c: TilePosition)
    ensures TileEq(a, a)
    ensures TileEq(a, b) ==> TileEq(b, a)
    ensures TileEq(a, b) && TileEq(b, c) ==> TileEq(a, c)
  {
  }

  /** Equal positions have offsets within one quantum of each other: equality only ignores
      noise below the precision. */
  lemma TileEqNoiseBound(a: TilePosition, b: TilePosition)
    requires TileEq(a, b)
    ensures -2.0 * HalfQuantum(TilePositionPrecision) < a.relX - b.relX < 2.0 * HalfQuantum(TilePositionPrecision)
    ensures -2.0 * HalfQuantum(TilePositionPrecision) < a.relY - b.relY < 2.0 * HalfQuantum(TilePositionPrecision)
  {
    SameRoundingIsClose(a.relX, b.relX, TilePositionPrecision);
    SameRoundingIsClose(a.relY, b.relY, TilePositionPrecision);
  }

  /** On rounded positions, such as those `NewTilePosition` builds, equality is exact. */
  lemma TileEqExactOnRounded(a: TilePosition, b: TilePosition)
    requires IsRounded(a) && IsRounded(b)
    ensures TileEq(a, b) <==> a == b
  {
    RoundOnGrid(a.relX, TilePositionPrecision);
    RoundOnGrid(a.relY, TilePositionPrecision);
    RoundOnGrid(b.relX, TilePositionPrecision);
    RoundOnGrid(b.relY, TilePositionPrecision);
  }

  /** A constructed position equals the record its raw fields make. */
  lemma NewTilePositionEqualsRaw(x: uint32, y: uint32, relX: real, relY: real)
    ensures TileEq(NewTilePosition(x, y, relX, relY), TilePosition(x, y, relX, relY))
  {
    RoundIdempotent(relX, TilePositionPrecision);
    RoundIdempotent(relY, TilePositionPrecision);
  }

  // ---------------------------------------------------------------------------------------
  // Arithmetic

  /** `TilePosition - TilePosition` (by reference and by value): indices widened to 64 bits
      before subtracting, so the difference never wraps; offsets subtracted and rounded,
      never renormalised into the indices. */
  function Sub(a: TilePosition, b: TilePosition): (d: SignedTilePosition)
    ensures d.x as int == a.x as int - b.x as int && d.y as int == a.y as int - b.y as int
    ensures -(U32Limit - 1) <= d.x as int <= U32Limit - 1 && -(U32Limit - 1) <= d.y as int <= U32Limit - 1
    ensures d.relX == Round(a.relX - b.relX, TilePositionPrecision)
    ensures d.relY == Round(a.relY - b.relY, TilePositionPrecision)
  {
    NewSignedTilePosition(
      (a.x as int - b.x as int) as int64, (a.y as int - b.y as int) as int64,
      a.relX - b.relX, a.relY - b.relY)
  }

  /** `TilePosition + SignedTilePosition` (by reference and by value): indices added in
      64 bits, which must not overflow; offsets added and rounded, never renormalised. */
  function Add(a: TilePosition, d: SignedTilePosition): (s: SignedTilePosition)
    requires InInt64(a.x as int + d.x as int) && InInt64(a.y as int + d.y as int)
    ensures s.x as int == a.x as int + d.x as int && s.y as int == a.y as int + d.y as int
    ensures s.relX == Round(a.relX + d.relX, TilePositionPrecision)
    ensures s.relY == Round(a.relY + d.relY, TilePositionPrecision)
  {
    NewSignedTilePosition(
      (a.x as int + d.x as int) as int64, (a.y as int + d.y as int) as int64,
      a.relX + d.relX, a.relY + d.relY)
  }

  /** The two cases of the source's unit test. */
  lemma SubExamples()
    ensures Sub(NewTilePosition(2, 3, 0.0, 0.0), NewTilePosition(1, 4, 0.0, 0.0))
              == NewSignedTilePosition(1, -1, 0.0, 0.0)
    ensures Sub(NewTilePosition(1, 1, 0.5, 0.2), NewTilePosition(1, 4, 1.0, 0.1))
              == NewSignedTilePosition(0, -3, -0.5, 0.1)
  {
    assert Factor(TilePositionPrecision) == 1000.0;
    forall v | v in {0.0, 0.1, 0.2, 0.5, 1.0}
      ensures Round(v, TilePositionPrecision) == v
    {
      assert (v * 1000.0).Floor as real == v * 1000.0;
      RoundOnGrid(v, TilePositionPrecision);
    }
  }

  /** A position minus itself is the zero delta, and swapping the operands negates the
      delta in every field. */
  lemma SubAntisymmetric(a: TilePosition, b: TilePosition)
    ensures Sub(a, a) == SignedTilePosition(0, 0, 0.0, 0.0)
    ensures Sub(b, a).x == -Sub(a, b).x && Sub(b, a).y == -Sub(a, b).y
    ensures Sub(b, a).relX == -Sub(a, b).relX && Sub(b, a).relY == -Sub(a, b).relY
  {
    RoundNeg(a.relX - b.relX, TilePositionPrecision);
    RoundNeg(a.relY - b.relY, TilePositionPrecision);
  }

  /** `b + (a - b)` lands on `a`'s cell; with rounded offsets it is `a` itself, widened,
      and narrowing it gives back `a`. */
  lemma AddSubInverse(a: TilePosition, b: TilePosition)
    ensures InInt64(b.x as int + Sub(a, b).x as int) && InInt64(b.y as int + Sub(a, b).y as int)
    ensures Add(b, Sub(a, b)).x as int == a.x as int && Add(b, Sub(a, b)).y as int == a.y as int
    ensures IsRounded(a) && IsRounded(b) ==> Add(b, Sub(a, b)) == ToSigned(a)
    ensures IsRounded(a) && IsRounded(b) ==> TryFromSigned(Add(b, Sub(a, b))) == Ok(a)
    ensures IsRounded(a) && IsRounded(b) ==> TryFromSignedChecked(Add(b, Sub(a, b))) == Ok(a)
  {
    if IsRounded(a) && IsRounded(b) {
      var d := Sub(a, b);
      OnGridAddSub(a.relX, b.relX, TilePositionPrecision);
      OnGridAddSub(a.relY, b.relY, TilePositionPrecision);
      RoundOnGrid(a.relX - b.relX, TilePositionPrecision);
      RoundOnGrid(a.relY - b.relY, TilePositionPrecision);
      assert b.relX + d.relX == a.relX && b.relY + d.relY == a.relY;
      RoundOnGrid(a.relX, TilePositionPrecision);
      RoundOnGrid(a.relY, TilePositionPrecision);
    }
  }

  /** `(a + d) - a` is `d` again, for a rounded delta whose sum stays on the 32-bit grid. */
  lemma SubAddInverse(a: TilePosition, d: SignedTilePosition)
    requires IsRounded(a) && IsRoundedSigned(d)
    requires 0 <= a.x as int + d.x as int < U32Limit && 0 <= a.y as int + d.y as int < U32Limit
    ensures TryFromSignedChecked(Add(a, d)).Ok?
    ensures Sub(TryFromSignedChecked(Add(a, d)).value, a) == d
  {
    OnGridAddSub(a.relX, d.relX, TilePositionPrecision);
    OnGridAddSub(a.relY, d.relY, TilePositionPrecision);
    RoundOnGrid(a.relX + d.relX, TilePositionPrecision);
    RoundOnGrid(a.relY + d.relY, TilePositionPrecision);
    assert a.relX + d.relX - a.relX == d.relX && a.relY + d.relY - a.relY == d.relY;
    RoundOnGrid(d.relX, TilePositionPrecision);
    RoundOnGrid(d.relY, TilePositionPrecision);
  }

  // ---------------------------------------------------------------------------------------
  // Normalisation

  /** The band `normalized` accepts: strictly within two tile widths of zero. */
  predicate InBand(rel: real, tileSize: real) {
    -2.0 * tileSize < rel < 2.0 * tileSize
  }

  /** `SignedTilePosition::normalized`: both offsets must lie in the band (a debug assertion
      in the source). The result is whatever the world-coordinate conversion, which is
      passed in as `worldToSigned`, makes of the combined point `index + offset`. */
  function Normalized(s: SignedTilePosition, tileSize: real,
                      worldToSigned: (real, real, real) -> SignedTilePosition): (r: SignedTilePosition)
    requires InBand(s.relX, tileSize) && InBand(s.relY, tileSize)
    ensures r == worldToSigned(s.x as real + s.relX, s.y as real + s.relY, tileSize)
  {
    worldToSigned(s.x as real + s.relX, s.y as real + s.relY, tileSize)
  }

  /** The band admits one step of arithmetic on normalised, rounded operands: a difference
      of two such positions, and the sum of one and a normalised delta, may be normalised. */
  lemma ArithmeticStaysInBand(a: TilePosition, b: TilePosition, d: SignedTilePosition, tileSize: real)
    requires IsRounded(a) && IsRounded(b) && IsRoundedSigned(d)
    requires 0.0 <= a.relX < tileSize && 0.0 <= a.relY < tileSize
    requires 0.0 <= b.relX < tileSize && 0.0 <= b.relY < tileSize
    requires 0.0 <= d.relX < tileSize && 0.0 <= d.relY < tileSize
    requires InInt64(a.x as int + d.x as int) && InInt64(a.y as int + d.y as int)
    ensures -tileSize < Sub(a, b).relX < tileSize && -tileSize < Sub(a, b).relY < tileSize
    ensures InBand(Sub(a, b).relX, tileSize) && InBand(Sub(a, b).relY, tileSize)
    ensures 0.0 <= Add(a, d).relX < 2.0 * tileSize && 0.0 <= Add(a, d).relY < 2.0 * tileSize
    ensures InBand(Add(a, d).relX, tileSize) && InBand(Add(a, d).relY, tileSize)
  {
    OnGridAddSub(a.relX, b.relX, TilePositionPrecision);
    OnGridAddSub(a.relY, b.relY, TilePositionPrecision);
    RoundOnGrid(a.relX - b.relX, TilePositionPrecision);
    RoundOnGrid(a.relY - b.relY, TilePositionPrecision);
    OnGridAddSub(a.relX, d.relX, TilePositionPrecision);
    OnGridAddSub(a.relY, d.relY, TilePositionPrecision);
    RoundOnGrid(a.relX + d.relX, TilePositionPrecision);
    RoundOnGrid(a.relY + d.relY, TilePositionPrecision);
  }

  /** A position plus the difference of two others, all rounded and normalised, stays in
      the band: the delta's offsets lie in `(-tileSize, tileSize)`, so the sum's lie in
      `(-tileSize, 2 * tileSize)`, which `normalized` accepts. */
  lemma ComposedStepStaysInBand(a: TilePosition, b: TilePosition, c: TilePosition, tileSize: real)
    requires IsRounded(a) && IsRounded(b) && IsRounded(c)
    requires 0.0 <= a.relX < tileSize && 0.0 <= a.relY < tileSize
    requires 0.0 <= b.relX < tileSize && 0.0 <= b.relY < tileSize
    requires 0.0 <= c.relX < tileSize && 0.0 <= c.relY < tileSize
    ensures InInt64(a.x as int + Sub(b, c).x as int) && InInt64(a.y as int + Sub(b, c).y as int)
    ensures -tileSize < Add(a, Sub(b, c)).relX < 2.0 * tileSize
    ensures -tileSize < Add(a, Sub(b, c)).relY < 2.0 * tileSize
    ensures InBand(Add(a, Sub(b, c)).relX, tileSize) && InBand(Add(a, Sub(b, c)).relY, tileSize)
  {
    OnGridAddSub(b.relX, c.relX, TilePositionPrecision);
    OnGridAddSub(b.relY, c.relY, TilePositionPrecision);
    RoundOnGrid(b.relX - c.relX, TilePositionPrecision);
    RoundOnGrid(b.relY - c.relY, TilePositionPrecision);
    OnGridAddSub(a.relX, b.relX - c.relX, TilePositionPrecision);
    OnGridAddSub(a.relY, b.relY - c.relY, TilePositionPrecision);
    RoundOnGrid(a.relX + (b.relX - c.relX), TilePositionPrecision);
    RoundOnGrid(a.relY + (b.relY - c.relY), TilePositionPrecision);
  }
}
