/** The exchange's admission rules. */
module Rules {
  import opened Types

  datatype RuleSet = RuleSet(
    tickSize: Price,
    lotSize: Quantity,
    minQuantity: Quantity,
    maxQuantity: Quantity,
    minNotional: Price)
  {
    /** Neither modulus below divides by zero. */
    predicate Valid() {
      tickSize != 0 && lotSize != 0
    }

    /** The price is positive here, so Euclidean and truncating remainders vanish together. */
    predicate IsValidPrice(price: Price)
      requires Valid()
    {
      price > 0 && price % tickSize == 0
    }

    predicate IsValidQuantity(quantity: Quantity)
      requires Valid()
    {
      minQuantity <= quantity <= maxQuantity && quantity % lotSize == 0
    }

    /** The 64-bit product of a 32-bit price and a 32-bit quantity cannot overflow. */
    predicate IsValidNotional(price: Price, quantity: Quantity) {
      price * quantity >= minNotional
    }

    /** Everything ValidateOrder asks besides a fresh id: a sentinel price skips the price rules. */
    predicate Admits(price: Price, quantity: Quantity)
      requires Valid()
    {
      && (IsSentinel(price) || IsValidPrice(price))
      && IsValidQuantity(quantity)
      && (IsSentinel(price) || IsValidNotional(price, quantity))
    }
  }

  /** The product IsValidNotional forms fits in 64 signed bits, so the unbounded product is the source's. */
  lemma NotionalFits(price: Price, quantity: Quantity)
    ensures -0x8000_0000_0000_0000 <= price * quantity <= 0x7fff_ffff_ffff_ffff
  {
  }

  const DEFAULT_RULES := RuleSet(1, 1, 1, 1000000, 0)

  /** Rules the engine may be given: a zero tick or lot is a division by zero in it. */
  type ExchangeRules = r: RuleSet | r.Valid() witness DEFAULT_RULES

  function Times(k: int, unit: int): int {
    k * unit
  }

  ghost predicate IsMultiple(x: int, unit: int) {
    exists k :: x == Times(k, unit)
  }

  lemma Multiple(x: int, k: int, unit: int)
    requires unit != 0 && x == k * unit
    ensures x % unit == 0
  {
    var d := x / unit - k;
    assert d * unit == (x / unit) * unit - k * unit;
    assert d * unit + x % unit == 0;
    assert unit > 0 && d >= 1 ==> d * unit >= unit;
    assert unit > 0 && d <= -1 ==> d * unit <= -unit;
    assert unit < 0 && d >= 1 ==> d * unit <= unit;
    assert unit < 0 && d <= -1 ==> d * unit >= -unit;
  }

  lemma RemainderIsMultiple(x: int, unit: int)
    requires unit != 0
    ensures x % unit == 0 <==> IsMultiple(x, unit)
  {
    if x % unit == 0 {
      assert x == Times(x / unit, unit);
    }
    if IsMultiple(x, unit) {
      var k :| x == Times(k, unit);
      Multiple(x, k, unit);
    }
  }

  /** What an order needs to get in: whole ticks, whole lots, a quantity in range and enough value. */
  lemma AdmitsExactly(rules: ExchangeRules, price: Price, quantity: Quantity)
    ensures rules.Admits(price, quantity) <==>
            && rules.minQuantity <= quantity <= rules.maxQuantity && IsMultiple(quantity, rules.lotSize)
            && (IsSentinel(price)
                || (price > 0 && IsMultiple(price, rules.tickSize) && price * quantity >= rules.minNotional))
  {
    RemainderIsMultiple(price, rules.tickSize);
    RemainderIsMultiple(quantity, rules.lotSize);
  }
}
