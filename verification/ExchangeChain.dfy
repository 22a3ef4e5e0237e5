/**
 Exchanging an amount, then exchanging what was credited, and so on.  Each hop
 rounds its credit to a whole hundredth; the chain bounds how far the roundings can
 carry the result away from the exact product of the rates.
 */
module ExchangeChain {
  import opened Money
  import opened Ledger

  /** Multiplication under a name, so that the proofs below can reason about products without expanding them. */
  function Times(x: real, y: real): real {
    x * y
  }

  /** The amount credited for a request: math.Round(amount * rate * 100) / 100, in hundredths. */
  function Credited(amount: real, rate: real): int {
    Round(Times(amount, rate))
  }

  /** The credit is the whole hundredth nearest to amount times rate; a tie goes to the larger in magnitude. */
  lemma CreditedIsNearest(amount: real, rate: real, n: int)
    ensures Credited(amount, rate) == n <==>
      Abs(n as real - amount * rate) < 0.5
      || (Abs(n as real - amount * rate) == 0.5 && Abs(n as real) > Abs(amount * rate))
  {
    RoundIsNearestAwayFromZero(amount * rate, n);
  }

  function ChainResult(amount: real, rates: seq<real>): real
    decreases |rates|
  {
    if rates == [] then amount else ChainResult(Credited(amount, rates[0]) as real, rates[1..])
  }

  function Product(rates: seq<real>): real {
    if rates == [] then 1.0 else Times(rates[0], Product(rates[1..]))
  }

  /** The sum over the hops of the product of the rates still to come. */
  function LaterProducts(rates: seq<real>): real {
    if rates == [] then 0.0 else Product(rates[1..]) + LaterProducts(rates[1..])
  }

  lemma NonNegativeProduct(x: real, y: real)
    requires x >= 0.0 && y >= 0.0
    ensures Times(x, y) >= 0.0
  {
  }

  lemma Associate(x: real, y: real, z: real)
    ensures Times(x, Times(y, z)) == Times(Times(x, y), z)
  {
  }

  lemma ScaledError(x: real, y: real, p: real)
    requires -0.5 <= x - y <= 0.5 && p >= 0.0
    ensures -0.5 * p <= Times(x, p) - Times(y, p) <= 0.5 * p
  {
    NonNegativeProduct(x - y + 0.5, p);
    NonNegativeProduct(0.5 - x + y, p);
    assert (x - y + 0.5) * p == x * p - y * p + 0.5 * p;
    assert (0.5 - x + y) * p == 0.5 * p - x * p + y * p;
  }

  lemma {:induction false} ProductNonNegative(rates: seq<real>)
    requires forall r :: r in rates ==> r >= 0.0
    ensures Product(rates) >= 0.0
  {
    if rates != [] {
      assert rates[0] in rates && forall r :: r in rates[1..] ==> r in rates;
      ProductNonNegative(rates[1..]);
      NonNegativeProduct(rates[0], Product(rates[1..]));
    }
  }

  /** The chain ends within half a hundredth, times the later products, of the exact value. */
  lemma {:induction false} ChainBound(amount: real, rates: seq<real>)
    requires forall r :: r in rates ==> r >= 0.0
    ensures Abs(ChainResult(amount, rates) - Times(amount, Product(rates))) <= 0.5 * LaterProducts(rates)
    decreases |rates|
  {
    if rates == [] {
      assert Times(amount, 1.0) == amount;
    } else {
      ChainBoundStep(amount, rates);
    }
  }

  lemma {:induction false} ChainBoundStep(amount: real, rates: seq<real>)
    requires rates != [] && forall r :: r in rates ==> r >= 0.0
    ensures Abs(ChainResult(amount, rates) - Times(amount, Product(rates))) <= 0.5 * LaterProducts(rates)
    decreases |rates|, 0
  {
    hide Times;
    var rest, next := rates[1..], Credited(amount, rates[0]) as real;
    assert rates[0] in rates && forall r :: r in rest ==> r in rates;
    var p := Product(rest);
    ProductNonNegative(rest);
    ChainBound(next, rest);
    ScaledError(next, Times(amount, rates[0]), p);
    Associate(amount, rates[0], p);
  }

  // ---------------------------------------------------------------- the chain on the ledger

  datatype Hop = Hop(to: string, rate: real)

  /** The exchanges of one wallet that spend each credited amount in full on the next hop. */
  function ChainOps(w: int, from: string, amount: real, hops: seq<Hop>): seq<Op>
    decreases |hops|
  {
    if hops == [] then [] else
      var c := Credited(amount, hops[0].rate) as real;
      [Exchange(w, from, hops[0].to, amount, c)] + ChainOps(w, hops[0].to, c, hops[1..])
  }

  /** Running the operations in order, stopping at the first that does not commit. */
  function RunAll(rows: Rows, ops: seq<Op>): Outcome
    decreases |ops|
  {
    if ops == [] then Done(rows) else
      match Apply(rows, ops[0])
      case Done(after) => RunAll(after, ops[1..])
      case Refused => Refused
      case Overflowed => Overflowed
  }

  function LastCurrency(from: string, hops: seq<Hop>): string {
    if hops == [] then from else hops[|hops| - 1].to
  }

  function Rates(hops: seq<Hop>): (rates: seq<real>)
    ensures |rates| == |hops| && forall i :: 0 <= i < |hops| ==> rates[i] == hops[i].rate
  {
    if hops == [] then [] else [hops[0].rate] + Rates(hops[1..])
  }

  function CurrencyBefore(from: string, hops: seq<Hop>, i: nat): string
    requires i < |hops|
  {
    if i == 0 then from else hops[i - 1].to
  }

  /** Every hop changes currency, between rows the wallet has. */
  ghost predicate Walkable(rows: Rows, w: int, from: string, hops: seq<Hop>) {
    && Key(w, from) in rows
    && (forall i :: 0 <= i < |hops| ==> Key(w, hops[i].to) in rows && hops[i].rate >= 0.0)
    && (forall i :: 0 <= i < |hops| ==> hops[i].to != CurrencyBefore(from, hops, i))
  }

  /** One hop: never refused, and afterwards the next row holds at least what was credited. */
  lemma OneHop(rows: Rows, w: int, from: string, to: string, amount: real, rate: real)
    requires InRange(rows) && amount >= 0.0 && rate >= 0.0 && from != to
    requires Key(w, from) in rows && Key(w, to) in rows && rows[Key(w, from)] as real >= amount
    ensures
      var c := Credited(amount, rate);
      var o := Apply(rows, Exchange(w, from, to, amount, c as real));
      && c >= 0 && !o.Refused?
      && (o.Done? ==> InRange(o.rows) && o.rows.Keys == rows.Keys && o.rows[Key(w, to)] >= c)
  {
    var c := Credited(amount, rate);
    var kf, kt := Key(w, from), Key(w, to);
    NonNegativeProduct(amount, rate);
    RoundMonotone(0.0, amount * rate);
    ExchangeMoves(rows, w, from, to, amount, c as real);
    assert rows[kt] as real + c as real == (rows[kt] + c) as real;
    RoundWhole(rows[kt] + c);
    RoundMonotone(0.0, rows[kf] as real - amount);
    RoundMonotone(rows[kf] as real - amount, rows[kf] as real);
    RoundWhole(rows[kf]);
  }

  lemma NextHops(rows: Rows, after: Rows, w: int, from: string, hops: seq<Hop>)
    requires hops != [] && Walkable(rows, w, from, hops) && after.Keys == rows.Keys
    ensures Walkable(after, w, hops[0].to, hops[1..])
    ensures Rates(hops)[1..] == Rates(hops[1..])
    ensures LastCurrency(from, hops) == LastCurrency(hops[0].to, hops[1..])
  {
    assert Key(w, hops[0].to) in rows;
    var rest := hops[1..];
    forall i | 0 <= i < |rest|
      ensures Key(w, rest[i].to) in after && rest[i].rate >= 0.0
      ensures rest[i].to != CurrencyBefore(hops[0].to, rest, i)
    {
      assert rest[i] == hops[i + 1] && hops[i + 1].to != CurrencyBefore(from, hops, i + 1);
    }
  }

  /**
   A chain started with enough money is never refused for insufficient funds: each
   hop finds at least what the hop before credited.  It can only stop on overflow, and
   when it completes the last row holds at least the chain's result.
   */
  lemma {:induction false} ChainNeverShort(rows: Rows, w: int, from: string, amount: real, hops: seq<Hop>)
    requires InRange(rows) && amount >= 0.0
    requires Walkable(rows, w, from, hops) && rows[Key(w, from)] as real >= amount
    ensures !RunAll(rows, ChainOps(w, from, amount, hops)).Refused?
    ensures
      var o := RunAll(rows, ChainOps(w, from, amount, hops));
      var last := Key(w, LastCurrency(from, hops));
      o.Done? ==> last in o.rows && o.rows[last] as real >= ChainResult(amount, Rates(hops))
    decreases |hops|
  {
    hide Apply, Credited;
    if hops != [] {
      var to, c := hops[0].to, Credited(amount, hops[0].rate);
      var op := Exchange(w, from, to, amount, c as real);
      var ops := ChainOps(w, from, amount, hops);
      assert ops[0] == op && ops[1..] == ChainOps(w, to, c as real, hops[1..]);
      assert hops[0].to != CurrencyBefore(from, hops, 0) && Key(w, hops[0].to) in rows;
      OneHop(rows, w, from, to, amount, hops[0].rate);
      var o := Apply(rows, op);
      if o.Done? {
        NextHops(rows, o.rows, w, from, hops);
        ChainNeverShort(o.rows, w, to, c as real, hops[1..]);
      }
    }
  }
}
