/** The minimum-fee check for Cosmos transactions: the fee market's price in
    18-decimal units, converted to the fee coin and rounded. */
module MinGasPrice {
  import opened Common

  /** Scale of fixed-point decimals: a price p is held as p * 10^18. */
  const PRECISION: nat := 1_000_000_000_000_000_000

  /** Division of decimals rounds to the nearest, halves to even. */
  function DivRound(x: nat, f: nat): nat
    requires f > 0
  {
    var q, r := x / f, x % f;
    if 2 * r < f || (2 * r == f && q % 2 == 0) then q else q + 1
  }

  function CeilDiv(x: nat, f: nat): nat
    requires f > 0
  {
    if x % f == 0 then x / f else x / f + 1
  }

  /** The price divided by the conversion factor of the fee coin (10^12 for six
      decimals), then cosmosMinGasPrice.Mul(gasLimit).Ceil(): the product is exact, the ceiling is
      taken at 18 decimals. */
  function RequiredFee(price: nat, factor: nat, gas: nat): nat
    requires factor > 0
  {
    CeilDiv(DivRound(price, factor) * gas, PRECISION)
  }

  datatype FeeTx = FeeTx(gas: nat, fee: Option<seq<Coin>>)

  datatype Decision = Pass | InvalidType | InsufficientFee | InvalidCoins

  /** IsAnyGTE against a single required coin of positive amount. */
  predicate IsAnyGTE(coins: seq<Coin>, required: Coin) {
    exists c <- coins :: c.denom == required.denom && 0 < required.amount <= c.amount
  }

  /** AnteHandle; None stands for a transaction without fees in its type, and a fee
      of None for nil coins. */
  function AnteHandle(price: nat, factor: nat, evmDenom: string, tx: Option<FeeTx>, simulate: bool): Decision
    requires factor > 0
  {
    if tx.None? then InvalidType
    else if price == 0 || simulate then Pass
    else
      var required := RequiredFee(price, factor, tx.value.gas);
      if required == 0 then Pass
      else if tx.value.fee.None? then InsufficientFee
      else
        var coins := tx.value.fee.value;
        if |coins| > 1 then InvalidCoins
        else if |coins| == 1 && coins[0].denom != evmDenom then InvalidCoins
        else if !IsAnyGTE(coins, Coin(evmDenom, required)) then InsufficientFee
        else Pass
  }

  // ---------- rounding ----------

  /** The quotient is the nearest one, and of two equally near the even one. */
  lemma DivRoundNearest(x: nat, f: nat)
    requires f > 0
    ensures 0 - f <= 2 * (DivRound(x, f) * f - x) <= f
    ensures x % f == 0 ==> DivRound(x, f) * f == x
    ensures 2 * (x % f) == f ==> DivRound(x, f) % 2 == 0
  {
    var q, r := x / f, x % f;
    assert x == q * f + r;
    assert (q + 1) * f == q * f + f;
  }

  lemma CeilDivBounds(x: nat, f: nat)
    requires f > 0
    ensures x <= CeilDiv(x, f) * f < x + f
  {
    var q, r := x / f, x % f;
    assert x == q * f + r;
    assert (q + 1) * f == q * f + f;
  }

  /** The demanded fee is off the exact value price * gas / (10^18 * factor) by less
      than one unit plus half a decimal unit per gas, on either side; both sides
      are multiplied out here. For six decimals: less than 1 + gas / (2 * 10^18). */
  lemma FeeBound(price: nat, factor: nat, gas: nat)
    requires factor > 0
    ensures var exact := price * gas;
      var scaled := RequiredFee(price, factor, gas) * 1_000_000_000_000_000_000 * factor;
      -(gas * factor) <= 2 * (scaled - exact) < 2 * 1_000_000_000_000_000_000 * factor + gas * factor
  {
    var q := DivRound(price, factor);
    var fee := RequiredFee(price, factor, gas);
    DivRoundNearest(price, factor);
    CeilDivBounds(q * gas, PRECISION);
    Expand(fee * PRECISION, q, price, factor, gas);
    ErrorBound(fee * PRECISION - q * gas, q * factor - price, PRECISION, factor, gas);
  }

  /** The error of the ceiling and the error of the price add up. */
  lemma Expand(x: int, q: int, price: int, factor: int, gas: int)
    ensures (x - q * gas) * factor + (q * factor - price) * gas == x * factor - price * gas
  {
  }

  lemma ErrorBound(up: int, err: int, unit: nat, factor: nat, gas: nat)
    requires 0 <= up < unit && 0 - factor <= 2 * err <= factor && factor > 0
    ensures -(gas * factor) <= 2 * (up * factor + err * gas) < 2 * unit * factor + gas * factor
  {
    MulOrder(0 - factor, 2 * err, gas);
    MulOrder(2 * err, factor, gas);
    MulOrder(0, up, factor);
    MulOrder(up + 1, unit, factor);
    assert (2 * err) * gas == 2 * (err * gas);
    assert (0 - factor) * gas == -(gas * factor);
    assert (up + 1) * factor == up * factor + factor;
  }

  /** When the price is a multiple of the smallest convertible step (10^-6 for six
      decimals) the demand is the exact ceiling. */
  lemma FeeExact(price: nat, factor: nat, gas: nat)
    requires factor > 0 && price % factor == 0
    ensures var unit := 1_000_000_000_000_000_000 * factor; var fee := RequiredFee(price, factor, gas);
      fee * unit >= price * gas && (fee > 0 ==> (fee - 1) * unit < price * gas)
  {
    var q := DivRound(price, factor);
    var fee := RequiredFee(price, factor, gas);
    DivRoundNearest(price, factor);
    CeilDivBounds(q * gas, PRECISION);
    assert q * gas * factor == price * gas;
    MulOrder(q * gas, fee * PRECISION, factor);
    MulOrder(fee * PRECISION - PRECISION + 1, q * gas, factor);
    assert fee * PRECISION * factor == fee * (PRECISION * factor);
    assert (fee * PRECISION - PRECISION + 1) * factor == fee * PRECISION * factor - PRECISION * factor + factor;
  }

  lemma DivMonotone(x: nat, y: nat, f: nat)
    requires f > 0 && x <= y
    ensures x / f <= y / f
    ensures x / f == y / f ==> x % f <= y % f
  {
    var a, b := x / f, y / f;
    assert x == a * f + x % f && y == b * f + y % f;
    assert (b + 1) * f == b * f + f;
    if b < a {
      MulOrder(b + 1, a, f);
    }
  }

  lemma DivRoundMonotone(x: nat, y: nat, f: nat)
    requires f > 0 && x <= y
    ensures DivRound(x, f) <= DivRound(y, f)
  {
    DivMonotone(x, y, f);
  }

  /** A higher price or more gas never lowers the demand. */
  lemma FeeMonotone(price: nat, price': nat, factor: nat, gas: nat, gas': nat)
    requires factor > 0 && price <= price' && gas <= gas'
    ensures RequiredFee(price, factor, gas) <= RequiredFee(price', factor, gas')
  {
    var q, q' := DivRound(price, factor), DivRound(price', factor);
    DivRoundMonotone(price, price', factor);
    MulOrder(q, q', gas);
    MulOrder(gas, gas', q');
    CeilDivBounds(q * gas, PRECISION);
    CeilDivBounds(q' * gas', PRECISION);
    DivMonotone(q * gas, q' * gas', PRECISION);
  }

  /** Exactly who passes: fee-bearing transactions that are simulated, or owe
      nothing, or pay one coin of the EVM denom that covers the demand. */
  lemma PassesExactly(price: nat, factor: nat, evmDenom: string, tx: Option<FeeTx>, simulate: bool)
    requires factor > 0
    ensures AnteHandle(price, factor, evmDenom, tx, simulate) == Pass <==>
      tx.Some? &&
      var required := RequiredFee(price, factor, tx.value.gas);
      || simulate || required == 0
      || exists amount: nat :: tx.value.fee == Some([Coin(evmDenom, amount)]) && amount >= required
  {
    if tx.Some? && price == 0 {
      assert DivRound(0, factor) == 0;
      assert RequiredFee(0, factor, tx.value.gas) == 0;
    }
    if tx.Some? && tx.value.fee.Some? && |tx.value.fee.value| == 1 {
      var c := tx.value.fee.value[0];
      assert tx.value.fee.value == [c] && c == Coin(c.denom, c.amount);
      assert c in tx.value.fee.value;
    }
  }

  /** Exactly who is turned away, and how: a type without fees; fees of more than one
      coin or of another denom; no fee at all, or less than the demand. */
  lemma RejectsExactly(price: nat, factor: nat, evmDenom: string, tx: Option<FeeTx>, simulate: bool)
    requires factor > 0
    ensures var r := AnteHandle(price, factor, evmDenom, tx, simulate);
      && (r == InvalidType <==> tx.None?)
      && (tx.Some? && !simulate && RequiredFee(price, factor, tx.value.gas) > 0 ==>
            var fee := tx.value.fee;
            && (r == InvalidCoins <==>
                  fee.Some? && (|fee.value| > 1 || (|fee.value| == 1 && fee.value[0].denom != evmDenom)))
            && (r == InsufficientFee <==>
                  || fee.None? || fee.value == []
                  || (|fee.value| == 1 && fee.value[0].denom == evmDenom &&
                      fee.value[0].amount < RequiredFee(price, factor, tx.value.gas))))
  {
    hide DivRound;
    if tx.Some? && price == 0 { FreeOfCharge(factor, tx.value.gas); }
    hide RequiredFee;
  }

  lemma FreeOfCharge(factor: nat, gas: nat)
    requires factor > 0
    ensures RequiredFee(0, factor, gas) == 0
  {
    assert DivRound(0, factor) == 0;
  }
}
