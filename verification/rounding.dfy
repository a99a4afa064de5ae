/**
 The two float-to-share conversions of a trial: the truncating conversion
 that fixes how many shares the initial capital buys, and the ceiling that
 fixes how many whole shares a withdrawal sells.
 */
module Rounding {

  /** Go's conversion of a float to an integer: truncation toward zero. */
  function Trunc(x: real): (n: int)
    ensures 0.0 <= x ==> 0 <= n && n as real <= x < n as real + 1.0
    ensures x < 0.0 ==> n <= 0 && n as real - 1.0 < x <= n as real
  {
    if x >= 0.0 then x.Floor else -((-x).Floor)
  }

  /** The least whole number not below `x` (rounding up). */
  function Ceil(x: real): (n: int)
    ensures x <= n as real < x + 1.0
  {
    -((-x).Floor)
  }

  /** Buying `Trunc(cash / price)` shares never costs more than `cash`, and
      leaves less than one share's price unspent. */
  lemma PurchaseIsAffordable(cash: real, price: real)
    requires 0.0 <= cash && 0.0 < price
    ensures Trunc(cash / price) as real * price <= cash
    ensures cash < (Trunc(cash / price) + 1) as real * price
  {
    var q := cash / price;
    assert 0.0 <= q;
    var n := Trunc(q);
    assert n as real <= q < n as real + 1.0;
    assert q * price == cash;
    MultiplyPreservesOrder(n as real, q, price);
    MultiplyPreservesStrictOrder(q, n as real + 1.0, price);
    assert (n as real + 1.0) * price == (n + 1) as real * price;
    assert cash < (n + 1) as real * price;
  }

  /** At a positive price, `Trunc(cash / price)` buys at least one share
      exactly when the cash covers one share's price; negative cash buys
      none. */
  lemma BuysAShareIff(cash: real, price: real)
    requires 0.0 < price
    ensures 0 < Trunc(cash / price) <==> price <= cash
  {
    var q := cash / price;
    assert q * price == cash;
    if price <= cash {
      if q < 1.0 {
        MultiplyPreservesStrictOrder(q, 1.0, price);
        assert false;
      }
    } else if q >= 1.0 {
      MultiplyPreservesOrder(1.0, q, price);
      assert false;
    }
  }

  /** The purchase facts at any non-zero price: at a positive price the
      truncated purchase is affordable when there is cash to spend, and buys
      nothing when the cash is negative. */
  lemma PurchaseBounds(cash: real, price: real)
    requires price != 0.0
    ensures 0.0 < price && 0.0 <= cash ==>
      && Trunc(cash / price) as real * price <= cash
      && cash < (Trunc(cash / price) + 1) as real * price
    ensures 0.0 < price && cash < 0.0 ==> Trunc(cash / price) <= 0
  {
    if 0.0 < price && 0.0 <= cash {
      PurchaseIsAffordable(cash, price);
    } else if 0.0 < price && cash < 0.0 {
      BuysAShareIff(cash, price);
    }
  }

  /** Selling `Ceil(amount / price)` shares always raises at least `amount`,
      and at most one share's price more. */
  lemma SaleCoversAmount(amount: real, price: real)
    requires 0.0 < price
    ensures Ceil(amount / price) as real * price >= amount
    ensures Ceil(amount / price) as real * price < amount + price
  {
    var q := amount / price;
    var n := Ceil(q);
    assert q * price == amount;
    MultiplyPreservesOrder(q, n as real, price);
    MultiplyPreservesStrictOrder(n as real, q + 1.0, price);
    assert (q + 1.0) * price == amount + price;
    assert n as real * price < amount + price;
  }

  /** A positive withdrawal at a positive price sells at least one share. */
  lemma SaleIsAtLeastOneShare(amount: real, price: real)
    requires 0.0 < amount && 0.0 < price
    ensures Ceil(amount / price) >= 1
  {
    assert amount / price > 0.0;
  }

  lemma MultiplyPreservesOrder(a: real, b: real, c: real)
    requires a <= b && 0.0 < c
    ensures a * c <= b * c
  {
  }

  lemma MultiplyPreservesStrictOrder(a: real, b: real, c: real)
    requires a < b && 0.0 < c
    ensures a * c < b * c
  {
  }
}
