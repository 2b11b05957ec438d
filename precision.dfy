/** Decimal rounding, the precision utility behind tile offsets.

    Offsets are exact reals here. `Round(n, decimals)` rounds `n * 10^decimals` to the
    nearest integer, halves away from zero, and scales back. A value that rounding leaves
    alone is "on the grid": a whole number of quanta `10^-decimals`.
 */
module Precision {

  /** 10 to the power `d`. */
  function Pow10(d: nat): (r: nat)
    ensures r >= 1
  {
    if d == 0 then 1 else 10 * Pow10(d - 1)
  }

  /** The scale factor `10^decimals` as a real. */
  function Factor(decimals: nat): (f: real)
    ensures f >= 1.0
  {
    Pow10(decimals) as real
  }

  /** Half a quantum: the farthest rounding may move a value. */
  function HalfQuantum(decimals: nat): (h: real)
    ensures 0.0 < h <= 0.5
  {
    0.5 / Factor(decimals)
  }

  /** `v` is a whole number of `10^-decimals` quanta. */
  predicate OnGrid(v: real, decimals: nat) {
    (v * Factor(decimals)).Floor as real == v * Factor(decimals)
  }

  lemma FloorOfInt(k: int)
    ensures (k as real).Floor == k
  {
  }

  /** The nearest integer to `s`, halves rounded up. */
  function HalfUp(s: real): (k: int)
    ensures s - 0.5 < k as real <= s + 0.5
  {
    (s + 0.5).Floor
  }

  /** `n` rounded to `decimals` decimal digits, halves away from zero. The result is on
      the grid, within half a quantum of `n`, and has the sign of `n`; the bounds are
      half-open on the side towards zero, so an exact half goes away from zero and the
      result is the only grid point that meets them. */
  function Round(n: real, decimals: nat): (r: real)
    ensures OnGrid(r, decimals)
    ensures n >= 0.0 ==> n - HalfQuantum(decimals) < r <= n + HalfQuantum(decimals)
    ensures n <= 0.0 ==> n - HalfQuantum(decimals) <= r < n + HalfQuantum(decimals)
    ensures n >= 0.0 ==> r >= 0.0
    ensures n <= 0.0 ==> r <= 0.0
  {
    var k := if n >= 0.0 then HalfUp(n * Factor(decimals)) else -HalfUp(-n * Factor(decimals));
    QuantumBounds(k, n, decimals);
    k as real / Factor(decimals)
  }

  /** `k` quanta are on the grid, and lie within half a quantum of `n` when `k` is the
      nearest integer to `n * 10^decimals`. */
  lemma QuantumBounds(k: int, n: real, decimals: nat)
    requires n * Factor(decimals) - 0.5 <= k as real <= n * Factor(decimals) + 0.5
    ensures OnGrid(k as real / Factor(decimals), decimals)
    ensures n - HalfQuantum(decimals) <= k as real / Factor(decimals) <= n + HalfQuantum(decimals)
    ensures n * Factor(decimals) - 0.5 < k as real ==> n - HalfQuantum(decimals) < k as real / Factor(decimals)
    ensures k as real < n * Factor(decimals) + 0.5 ==> k as real / Factor(decimals) < n + HalfQuantum(decimals)
    ensures k >= 0 ==> k as real / Factor(decimals) >= 0.0
    ensures k <= 0 ==> k as real / Factor(decimals) <= 0.0
  {
    var f := Factor(decimals);
    assert (k as real / f) * f == k as real;
    FloorOfInt(k);
    assert (n + 0.5 / f) * f == n * f + 0.5;
    assert (n - 0.5 / f) * f == n * f - 0.5;
  }

  /** The grid is closed under addition and subtraction. */
  lemma OnGridAddSub(u: real, v: real, decimals: nat)
    requires OnGrid(u, decimals) && OnGrid(v, decimals)
    ensures OnGrid(u + v, decimals)
    ensures OnGrid(u - v, decimals)
  {
    var a, b := (u * Factor(decimals)).Floor, (v * Factor(decimals)).Floor;
    assert (u + v) * Factor(decimals) == (a + b) as real;
    assert (u - v) * Factor(decimals) == (a - b) as real;
    FloorOfInt(a + b);
    FloorOfInt(a - b);
  }

  /** Rounding leaves a value that is already on the grid unchanged. */
  lemma RoundOnGrid(v: real, decimals: nat)
    requires OnGrid(v, decimals)
    ensures Round(v, decimals) == v
  {
    var m := (v * Factor(decimals)).Floor;
    if v >= 0.0 {
      assert (m as real + 0.5).Floor == m;
    } else {
      assert (-m as real + 0.5).Floor == -m;
    }
  }

  /** Rounding twice is rounding once. */
  lemma RoundIdempotent(n: real, decimals: nat)
    ensures Round(Round(n, decimals), decimals) == Round(n, decimals)
  {
    RoundOnGrid(Round(n, decimals), decimals);
  }

  /** Rounding is symmetric about zero: halves go away from zero on both sides. */
  lemma RoundNeg(n: real, decimals: nat)
    ensures Round(-n, decimals) == -Round(n, decimals)
  {
  }

  /** Two values that round alike lie strictly within one quantum of each other. */
  lemma SameRoundingIsClose(u: real, v: real, decimals: nat)
    ensures Round(u, decimals) == Round(v, decimals) ==>
              -2.0 * HalfQuantum(decimals) < u - v < 2.0 * HalfQuantum(decimals)
  {
  }

  /** Exact halves go away from zero: at three digits 0.0005 rounds up to 0.001 and
      -0.0005 down to -0.001. */
  lemma RoundHalfAwayFromZero()
    ensures Round(0.0005, 3) == 0.001
    ensures Round(-0.0005, 3) == -0.001
  {
    assert Factor(3) == 1000.0;
    var up, down := Round(0.0005, 3), Round(-0.0005, 3);
    assert 0.0 < up * 1000.0 <= 1.0;
    assert (up * 1000.0).Floor == 1;
    assert -1.0 <= down * 1000.0 < 0.0;
    assert (down * 1000.0).Floor == -1;
  }
}
