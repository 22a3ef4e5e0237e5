/**
 Money in hundredths of a currency unit.  A stored balance is a whole number of
 hundredths; a requested amount is any real number of hundredths.
 */
module Money {

  /** NUMERIC(18,2) holds 18 decimal digits: every stored value is strictly below this. */
  const LIMIT := 1_000_000_000_000_000_000

  /** Rounding to a whole number, halves away from zero (math.Round, and storing into NUMERIC). */
  function Round(x: real): (n: int)
    ensures -0.5 <= n as real - x <= 0.5
  {
    if x >= 0.0 then (x + 0.5).Floor else -((0.5 - x).Floor)
  }

  /** The SQL assignment of a computed value to a NUMERIC(18,2) column fits without error. */
  predicate Fits(n: int) {
    -LIMIT < n < LIMIT
  }

  function Abs(x: real): (r: real)
    ensures r >= 0.0 && (r == x || r == -x)
  {
    if x >= 0.0 then x else -x
  }

  /** Rounding is the nearest whole number, and a tie goes to the one of larger magnitude. */
  lemma RoundIsNearestAwayFromZero(x: real, n: int)
    ensures Round(x) == n <==>
      Abs(n as real - x) < 0.5
      || (Abs(n as real - x) == 0.5 && Abs(n as real) > Abs(x))
  {
    var r := Round(x);
    if r != n && Abs(n as real - x) <= 0.5 {
      assert n == r + 1 || n == r - 1;
    }
  }

  lemma RoundWhole(n: int)
    ensures Round(n as real) == n
  {
  }

  lemma RoundMonotone(x: real, y: real)
    requires x <= y
    ensures Round(x) <= Round(y)
  {
  }
}
