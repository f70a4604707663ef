/** Catalog records (products/models.py): categories, products and the derived sell price.
    Money columns are `DecimalField(decimal_places=2)`, so a price is held as its coefficient
    at scale 2 (kopecks) and a discount as hundredths of a percent. */
module Products {
  import opened Basics
  import opened Decimals

  type ProductId = nat

  datatype Category = Category(id: nat, name: string, slug: Option<string>)

  /** `quantity` is the stock on hand (a PositiveIntegerField, hence `nat`). */
  datatype Product = Product(
    id: ProductId,
    name: string,
    slug: Option<string>,
    description: Option<string>,
    price: int,
    discount: int,
    quantity: nat,
    category: Category)

  /** The `price` column as a decimal with two places. */
  function PriceOf(p: Product): (r: Decimal)
    ensures r.scale == 2
  {
    Decimal(p.price, 2)
  }

  /** The `discount` column (a percentage) as a decimal with two places. */
  function DiscountOf(p: Product): (r: Decimal)
    ensures r.scale == 2
  {
    Decimal(p.discount, 2)
  }

  /** `Product.sell_price`: the price itself when the discount is zero (a zero Decimal is
      falsy), otherwise price * (1 - discount / 100) rounded half-to-even to two places.
      The result is a whole number of kopecks, within half a kopeck of the exact
      discounted price, and equal to the price when there is no discount. */
  function SellPrice(p: Product): (r: Decimal)
    ensures r.scale == 2
    ensures p.discount == 0 ==> r.units == p.price
    ensures -5000 <= p.price * (10000 - p.discount) - 10000 * r.units <= 5000
    ensures p.discount != 0 ==> r.units == RoundHalfEven(p.price * (10000 - p.discount), 10000)
  {
    if p.discount != 0 then
      var factor := Sub(FromInt(1), DivBy100(DiscountOf(p)));
      var r := RoundTo(Mul(PriceOf(p), factor), 2);
      SellPriceUnits(p);
      r
    else
      PriceOf(p)
  }

  /** The shortcut for a zero discount changes nothing: the formula would give the price
      too, so the sell price is the half-even kopeck formula for every discount. */
  lemma SellPriceFormula(p: Product)
    ensures SellPrice(p).units == RoundHalfEven(p.price * (10000 - p.discount), 10000)
  {
    if p.discount == 0 {
      RoundHalfEvenExact(p.price, 10000);
    }
  }

  /** Unfolds the decimal operations of a discount down to the coefficient. Dividing the
      discount by 100 keeps two, three or four places depending on its trailing zeros;
      the rounding to two places comes out the same in each case. */
  lemma SellPriceUnits(p: Product)
    ensures var r := RoundTo(Mul(PriceOf(p), Sub(FromInt(1), DivBy100(DiscountOf(p)))), 2);
      r.units == RoundHalfEven(p.price * (10000 - p.discount), 10000)
  {
    assert Pow10(1) == 10;
    assert Pow10(2) == 100;
    assert Pow10(3) == 1000;
    assert Pow10(4) == 10000;
    if p.discount % 100 == 0 {
      WholePercentUnits(p);
    } else if p.discount % 10 == 0 {
      TenthPercentUnits(p);
    } else {
      var factor := Sub(FromInt(1), DivBy100(DiscountOf(p)));
      assert factor == Decimal(10000 - p.discount, 4);
      assert Mul(PriceOf(p), factor) == Decimal(p.price * (10000 - p.discount), 6);
    }
  }

  /** A whole-percent discount: `discount / 100` keeps two places. */
  lemma WholePercentUnits(p: Product)
    requires p.discount % 100 == 0
    requires Pow10(2) == 100 && Pow10(4) == 10000
    ensures var r := RoundTo(Mul(PriceOf(p), Sub(FromInt(1), DivBy100(DiscountOf(p)))), 2);
      r.units == RoundHalfEven(p.price * (10000 - p.discount), 10000)
  {
    var q := p.discount / 100;
    var factor := Sub(FromInt(1), DivBy100(DiscountOf(p)));
    assert factor == Decimal(100 - q, 2);
    var m := p.price * (100 - q);
    assert Mul(PriceOf(p), factor) == Decimal(m, 4);
    assert (p.price * (100 - q)) * 100 == p.price * ((100 - q) * 100);
    RoundHalfEvenScaled(m, 100, 100);
  }

  /** A discount in tenths of a percent: `discount / 100` has three places. */
  lemma TenthPercentUnits(p: Product)
    requires p.discount % 100 != 0 && p.discount % 10 == 0
    requires Pow10(1) == 10 && Pow10(2) == 100 && Pow10(3) == 1000
    ensures var r := RoundTo(Mul(PriceOf(p), Sub(FromInt(1), DivBy100(DiscountOf(p)))), 2);
      r.units == RoundHalfEven(p.price * (10000 - p.discount), 10000)
  {
    var q := p.discount / 10;
    assert Pow10(5) == 100000;
    var factor := Sub(FromInt(1), DivBy100(DiscountOf(p)));
    assert factor == Decimal(1000 - q, 3);
    var m := p.price * (1000 - q);
    assert Mul(PriceOf(p), factor) == Decimal(m, 5);
    assert (p.price * (1000 - q)) * 10 == p.price * ((1000 - q) * 10);
    RoundHalfEvenScaled(m, 1000, 10);
  }

  /** With a discount between 0 and 100 percent and a non-negative price, the sell price
      lies between zero and the price. */
  lemma SellPriceWithinPrice(p: Product)
    requires 0 <= p.discount <= 10000 && 0 <= p.price
    ensures 0 <= SellPrice(p).units <= p.price
  {
    var n := p.price * (10000 - p.discount);
    MulNonNegative(p.price, 10000 - p.discount);
    MulNonNegative(p.price, p.discount);
    assert n == 10000 * p.price - p.price * p.discount;
    NearestKopeckBetween(n, SellPrice(p).units, p.price);
  }

  /** A whole number of kopecks within half a kopeck of an amount between 0 and the
      price lies between 0 and the price. */
  lemma NearestKopeckBetween(n: int, s: int, price: int)
    requires -5000 <= n - 10000 * s <= 5000
    requires 0 <= n <= 10000 * price
    ensures 0 <= s <= price
  {
  }

  lemma MulNonNegative(a: int, b: int)
    requires 0 <= a && 0 <= b
    ensures 0 <= a * b
  {
  }

  /** A 100% discount sells for nothing, whatever the price. */
  lemma FullDiscountIsFree(p: Product)
    requires p.discount == 10000
    ensures SellPrice(p).units == 0
  {
    var s := SellPrice(p).units;
    assert p.price * (10000 - p.discount) == 0;
    assert -5000 <= 10000 * s <= 5000;
  }

  /** Nothing rejects a negative discount, and it moves the price away from zero: a
      non-negative price never drops and rises once the increase exceeds half a kopeck; a
      negative price never rises and drops once the decrease exceeds half a kopeck. */
  lemma NegativeDiscountRaisesPrice(p: Product)
    requires p.discount < 0
    ensures 0 <= p.price ==> SellPrice(p).units >= p.price
    ensures 0 <= p.price && p.price * (-p.discount) > 5000 ==> SellPrice(p).units > p.price
    ensures p.price <= 0 ==> SellPrice(p).units <= p.price
    ensures p.price <= 0 && (-p.price) * (-p.discount) > 5000 ==> SellPrice(p).units < p.price
  {
    var s := SellPrice(p).units;
    DiscountSplit(p.price, p.discount);
    if 0 <= p.price {
      MulNonNegative(p.price, -p.discount);
      NearestKopeckAbove(p.price * (10000 - p.discount), s, p.price);
    } else {
      MulNonNegative(-p.price, -p.discount);
      NearestKopeckBelow(p.price * (10000 - p.discount), s, p.price);
    }
  }

  /** The discounted amount is the price plus the discount's share, of either sign. */
  lemma DiscountSplit(price: int, discount: int)
    ensures price * (10000 - discount) == 10000 * price + price * (-discount)
    ensures (-price) * (-discount) == -(price * (-discount))
  {
  }

  /** The mirror image of `NearestKopeckAbove`, for an amount at or below the price. */
  lemma NearestKopeckBelow(n: int, s: int, price: int)
    requires -5000 <= n - 10000 * s <= 5000
    requires n <= 10000 * price
    ensures s <= price
    ensures 10000 * price - n > 5000 ==> s < price
  {
  }

  /** A whole number of kopecks within half a kopeck of an amount at or above the price is
      at least the price, and above it once the amount is more than half a kopeck
      above. */
  lemma NearestKopeckAbove(n: int, s: int, price: int)
    requires -5000 <= n - 10000 * s <= 5000
    requires n >= 10000 * price
    ensures s >= price
    ensures n - 10000 * price > 5000 ==> s > price
  {
  }

  /** The default ordering of products (`ordering = ("id",)`). */
  predicate IdOrdered(ps: seq<Product>)
  {
    StrictlyIncreasing(ps, (p: Product) => p.id as int)
  }
}
