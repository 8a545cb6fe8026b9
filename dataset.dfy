/** The transaction records of the sales dataset, the derived Total_price
    column and the calendar used for the weekly buckets. */
module Dataset {

  datatype Option<+T> = None | Some(value: T)

  /** One row of the dataset as it stands after loading. `date` is a day
      number: the count of days since 1970-01-01, which was a Thursday. */
  datatype Transaction = Transaction(
    customerId: int,
    gender: string,
    location: Option<string>,
    category: string,
    quantity: int,
    avgPrice: real,
    date: int,
    month: int,
    discountPct: real)

  /** The ranges the loaded data is expected to respect. */
  predicate WellFormed(t: Transaction) {
    && t.quantity >= 0
    && t.avgPrice >= 0.0
    && 0.0 <= t.discountPct <= 100.0
    && 1 <= t.month <= 12
  }

  /** The integer nearest to y, with a tie going to the even neighbour
      (the rounding rule of numpy's `round`). */
  function RoundHalfEven(y: real): (r: int)
    ensures y - 0.5 <= r as real <= y + 0.5
    ensures (r as real == y - 0.5 || r as real == y + 0.5) ==> r % 2 == 0
  {
    var f := y.Floor;
    var frac := y - f as real;
    if frac < 0.5 then f
    else if frac > 0.5 then f + 1
    else if f % 2 == 0 then f else f + 1
  }

  /** x rounded to three decimal places. */
  function Round3(x: real): (r: real)
    ensures x - 0.0005 <= r <= x + 0.0005
    ensures (r * 1000.0).Floor as real == r * 1000.0
  {
    RoundHalfEven(x * 1000.0) as real / 1000.0
  }

  /** The discount factor: one minus the discount, rounded to three places. */
  function DiscountFactor(discountPct: real): real {
    Round3(1.0 - discountPct / 100.0)
  }

  /** Total_price: only the discount factor is rounded, not the product. */
  function TotalPrice(t: Transaction): real {
    t.quantity as real * t.avgPrice * DiscountFactor(t.discountPct)
  }

  /** A discount given to a tenth of a percent loses nothing to the rounding. */
  lemma DiscountFactorExact(discountPct: real)
    requires (discountPct * 10.0).Floor as real == discountPct * 10.0
    ensures DiscountFactor(discountPct) == 1.0 - discountPct / 100.0
  {
    var y := (1.0 - discountPct / 100.0) * 1000.0;
    var n := 1000 - (discountPct * 10.0).Floor;
    assert y == n as real;
    assert RoundHalfEven(y) == n;
  }

  /** A discount between 0 and 100 percent gives a factor between 0 and 1. */
  lemma DiscountFactorInUnit(discountPct: real)
    requires 0.0 <= discountPct <= 100.0
    ensures 0.0 <= DiscountFactor(discountPct) <= 1.0
  {
    var y := (1.0 - discountPct / 100.0) * 1000.0;
    var n := RoundHalfEven(y);
    assert 0.0 <= y <= 1000.0;
    assert 0 <= n <= 1000;
  }

  /** A well-formed row never has a negative Total_price. */
  lemma TotalPriceNonNegative(t: Transaction)
    requires WellFormed(t)
    ensures TotalPrice(t) >= 0.0
  {
    DiscountFactorInUnit(t.discountPct);
    var q := t.quantity as real;
    var f := DiscountFactor(t.discountPct);
    assert q * t.avgPrice >= 0.0;
    assert (q * t.avgPrice) * f >= 0.0;
  }

  /** The Sunday that closes the week of `day` (pandas' weekly frequency
      'W' puts a row in the week ending on the Sunday on or after its date,
      and labels the week with that Sunday). Day 3 is 1970-01-04, a Sunday. */
  function WeekEnd(day: int): (w: int)
    ensures day <= w < day + 7
    ensures (w - 3) % 7 == 0
  {
    day + (3 - day) % 7
  }
}
