/**
 * The canonical offer record every crawler produces, and the normaliser
 * that builds it (the base crawler's `_create_offer`).  Prices are exact
 * reals; Python's round() is modelled as exact rounding to the nearest
 * multiple of 0.1 or 0.01 with ties to even.
 */
module Offers {
  import opened Wrappers

  /** One discounted product at one store. `brand` is absent when unknown. */
  datatype Offer = Offer(
    store: string,
    name: string,
    brand: Option<string>,
    salePrice: real,
    ordinaryPrice: real,
    pctOff: real,
    unit: string)

  /** Why the normaliser produced no record: the division by the ordinary price failed. */
  datatype OfferError = ZeroOrdinaryPrice

  /** The nearest integer to `y`, the even one on a tie. */
  function RoundHalfEven(y: real): (n: int)
    ensures n as real - 0.5 <= y <= n as real + 0.5
    ensures y == n as real - 0.5 || y == n as real + 0.5 ==> n % 2 == 0
  {
    var f := y.Floor;
    var frac := y - f as real;
    if frac < 0.5 then f
    else if frac > 0.5 then f + 1
    else if f % 2 == 0 then f else f + 1
  }

  lemma RoundHalfEvenMonotone(x: real, y: real)
    requires x <= y
    ensures RoundHalfEven(x) <= RoundHalfEven(y)
  {
  }

  lemma RoundHalfEvenOfInt(k: int)
    ensures RoundHalfEven(k as real) == k
  {
  }

  /** `x` is a whole number of tenths. */
  predicate OnTenths(x: real) {
    (10.0 * x).Floor as real == 10.0 * x
  }

  /** `x` is a whole number of hundredths (of öre, for a price). */
  predicate OnHundredths(x: real) {
    (100.0 * x).Floor as real == 100.0 * x
  }

  /** round(x, 1): the nearest multiple of 0.1. */
  function Round1(x: real): (r: real)
    ensures x - 0.05 <= r <= x + 0.05
    ensures OnTenths(r)
  {
    var n := RoundHalfEven(10.0 * x);
    assert 10.0 * (n as real / 10.0) == n as real;
    n as real / 10.0
  }

  /** round(x, 2): the nearest multiple of 0.01. */
  function Round2(x: real): (r: real)
    ensures x - 0.005 <= r <= x + 0.005
    ensures OnHundredths(r)
  {
    var n := RoundHalfEven(100.0 * x);
    assert 100.0 * (n as real / 100.0) == n as real;
    n as real / 100.0
  }

  lemma Round1Monotone(x: real, y: real)
    requires x <= y
    ensures Round1(x) <= Round1(y)
  {
    RoundHalfEvenMonotone(10.0 * x, 10.0 * y);
  }

  lemma Round1Zero()
    ensures Round1(0.0) == 0.0
  {
    RoundHalfEvenOfInt(0);
  }

  /** The relative saving behind a discount: non-negative exactly when the
      sale price is at most a positive ordinary price, and one for a free item. */
  lemma QuotientFacts(salePrice: real, ordinaryPrice: real)
    requires ordinaryPrice != 0.0
    ensures ordinaryPrice > 0.0 ==>
      ((ordinaryPrice - salePrice) / ordinaryPrice >= 0.0 <==> salePrice <= ordinaryPrice)
    ensures salePrice == 0.0 ==> (ordinaryPrice - salePrice) / ordinaryPrice == 1.0
  {
    var q := (ordinaryPrice - salePrice) / ordinaryPrice;
    assert q * ordinaryPrice == ordinaryPrice - salePrice;
    if ordinaryPrice > 0.0 && q < 0.0 {
      assert q * ordinaryPrice < 0.0;
    }
    if salePrice == 0.0 {
      assert q * ordinaryPrice == ordinaryPrice;
    }
  }

  /** The exact discount percentage of a sale price against an ordinary price. */
  function Discount(salePrice: real, ordinaryPrice: real): (d: real)
    requires ordinaryPrice != 0.0
    ensures ordinaryPrice > 0.0 ==> (d >= 0.0 <==> salePrice <= ordinaryPrice)
    ensures salePrice == 0.0 ==> d == 100.0
    ensures salePrice == ordinaryPrice ==> d == 0.0
  {
    QuotientFacts(salePrice, ordinaryPrice);
    (ordinaryPrice - salePrice) / ordinaryPrice * 100.0
  }

  /** A crawler is identified by the store name it stamps on every offer. */
  datatype Crawler = Crawler(storeName: string) {

    /** The normaliser: the percentage is rounded to one decimal from the
        unrounded prices, the stored prices are rounded to two decimals, and
        an ordinary price of zero makes the division fail. */
    function CreateOffer(
      name: string,
      salePrice: real,
      ordinaryPrice: real,
      unit: string := "st",
      brand: Option<string> := None): (r: Result<Offer, OfferError>)
      ensures r.Err? <==> ordinaryPrice == 0.0
      ensures r.Ok? ==>
        && r.value.store == storeName
        && r.value.name == name
        && r.value.brand == brand
        && r.value.unit == unit
      ensures r.Ok? ==>
        && Discount(salePrice, ordinaryPrice) - 0.05 <= r.value.pctOff <= Discount(salePrice, ordinaryPrice) + 0.05
        && OnTenths(r.value.pctOff)
      ensures r.Ok? ==>
        && salePrice - 0.005 <= r.value.salePrice <= salePrice + 0.005
        && ordinaryPrice - 0.005 <= r.value.ordinaryPrice <= ordinaryPrice + 0.005
        && OnHundredths(r.value.salePrice) && OnHundredths(r.value.ordinaryPrice)
    {
      if ordinaryPrice == 0.0 then Err(ZeroOrdinaryPrice)
      else
        Ok(Offer(
          store := storeName,
          name := name,
          brand := brand,
          salePrice := Round2(salePrice),
          ordinaryPrice := Round2(ordinaryPrice),
          pctOff := Round1(Discount(salePrice, ordinaryPrice)),
          unit := unit))
    }
  }

  /** The defaults of the normaliser: unit "st" and no brand. */
  lemma CreateOfferDefaults(c: Crawler, name: string, salePrice: real, ordinaryPrice: real)
    requires ordinaryPrice != 0.0
    ensures c.CreateOffer(name, salePrice, ordinaryPrice).Ok?
    ensures c.CreateOffer(name, salePrice, ordinaryPrice).value.unit == "st"
    ensures c.CreateOffer(name, salePrice, ordinaryPrice).value.brand == None
  {
  }

  /** The percentage is not clamped: with a positive ordinary price it is
      zero at equal prices, at least zero for a real discount, at most zero
      for a sale price above the ordinary one, and negative once the exact
      percentage is below -0.05. */
  lemma {:induction false} PctOffSign(c: Crawler, name: string, salePrice: real, ordinaryPrice: real)
    requires ordinaryPrice > 0.0
    ensures salePrice == ordinaryPrice ==> c.CreateOffer(name, salePrice, ordinaryPrice).value.pctOff == 0.0
    ensures salePrice <= ordinaryPrice ==> c.CreateOffer(name, salePrice, ordinaryPrice).value.pctOff >= 0.0
    ensures salePrice >= ordinaryPrice ==> c.CreateOffer(name, salePrice, ordinaryPrice).value.pctOff <= 0.0
    ensures Discount(salePrice, ordinaryPrice) < -0.05 ==> c.CreateOffer(name, salePrice, ordinaryPrice).value.pctOff < 0.0
  {
    var d := Discount(salePrice, ordinaryPrice);
    var q := (ordinaryPrice - salePrice) / ordinaryPrice;
    assert q * ordinaryPrice == ordinaryPrice - salePrice;
    assert salePrice <= ordinaryPrice ==> q >= 0.0;
    assert salePrice >= ordinaryPrice ==> q <= 0.0;
    Round1Zero();
    if salePrice <= ordinaryPrice {
      Round1Monotone(0.0, d);
    }
    if salePrice >= ordinaryPrice {
      Round1Monotone(d, 0.0);
    }
  }

  /** The percentage comes from the unrounded prices: it can differ from the
      percentage the stored, rounded prices would give. */
  lemma PctOffFromUnroundedPrices()
    ensures var o := Crawler("ICA").CreateOffer("x", 0.994, 1.0).value;
      o.pctOff == 0.6 && o.salePrice == 0.99 && Round1(Discount(o.salePrice, o.ordinaryPrice)) == 1.0
  {
    assert (10.0 * 0.6).Floor == 6;
    assert (100.0 * 0.994).Floor == 99;
    assert (100.0 * 1.0).Floor == 100;
    assert (10.0 * 1.0).Floor == 10;
  }
}
