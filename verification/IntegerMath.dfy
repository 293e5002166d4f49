/** The few facts about integer quotients the audio arithmetic rests on. */
module IntegerMath {

  lemma ProductOrder(a: nat, b: nat, c: nat)
    requires a <= b
    ensures a * c <= b * c
  {
  }

  lemma ProductGap(a: nat, b: nat, d: nat)
    requires a < b
    ensures a * d + d <= b * d
  {
    assert a * d + d == (a + 1) * d;
    ProductOrder(a + 1, b, d);
  }

  lemma DivMod(a: nat, d: nat)
    requires d > 0
    ensures a == a / d * d + a % d && 0 <= a % d < d
  {
  }

  /** A quotient is the only number whose multiple is that close below. */
  lemma QuotientIs(a: nat, d: nat, q: nat)
    requires d > 0 && q * d <= a < q * d + d
    ensures a / d == q
  {
    DivMod(a, d);
    if a / d < q {
      ProductGap(a / d, q, d);
      assert false;
    }
    if a / d > q {
      ProductGap(q, a / d, d);
      assert false;
    }
  }

  lemma QuotientOrder(a: nat, b: nat, d: nat)
    requires a <= b && d > 0
    ensures a / d <= b / d
  {
    DivMod(a, d);
    DivMod(b, d);
    if a / d > b / d {
      ProductGap(b / d, a / d, d);
      assert false;
    }
  }

  lemma ExactQuotient(k: nat, d: nat)
    requires d > 0
    ensures k * d / d == k
  {
    QuotientIs(k * d, d, k);
  }

  /** Whole multiples pass through a quotient. */
  lemma QuotientOfSum(a: nat, k: nat, d: nat)
    requires d > 0
    ensures (a + k * d) / d == a / d + k
  {
    DivMod(a, d);
    assert (a / d + k) * d == a / d * d + k * d;
    QuotientIs(a + k * d, d, a / d + k);
  }

  /** Below a whole multiple, the quotient is below it too. */
  lemma QuotientBelow(a: nat, k: nat, d: nat)
    requires d > 0 && a < k * d
    ensures a / d < k
  {
    DivMod(a, d);
    if a / d >= k {
      ProductOrder(k, a / d, d);
      assert false;
    }
  }
}
