/** The revenue aggregate `calculer_chiffre_affaire`: the sum of Total_price. */
module Revenue {
  import opened Dataset
  import opened Selection

  function TotalRevenue(rows: seq<Transaction>): real {
    if rows == [] then 0.0 else TotalPrice(rows[0]) + TotalRevenue(rows[1..])
  }

  /** Revenue adds up over concatenated row sets; no rows give 0. */
  lemma {:induction false} RevenueAppend(a: seq<Transaction>, b: seq<Transaction>)
    ensures TotalRevenue(a + b) == TotalRevenue(a) + TotalRevenue(b)
    ensures TotalRevenue([]) == 0.0
  {
    if a == [] {
      assert a + b == b;
    } else {
      RevenueAppend(a[1..], b);
      assert (a + b)[1..] == a[1..] + b;
    }
  }

  /** The revenue of well-formed rows is never negative. */
  lemma {:induction false} RevenueNonNegative(rows: seq<Transaction>)
    requires forall t :: t in rows ==> WellFormed(t)
    ensures TotalRevenue(rows) >= 0.0
  {
    if rows != [] {
      TotalPriceNonNegative(rows[0]);
      RevenueNonNegative(rows[1..]);
    }
  }
}
