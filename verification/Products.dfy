/** Products of reals, named so that proofs can keep the nonlinear solver out. */
module Products {

  function Times(x: real, y: real): real {
    x * y
  }

  lemma TimesUnit(x: real, y: real)
    requires 0.0 < x && 0.0 < y <= 1.0
    ensures 0.0 < Times(x, y) <= x
    ensures Times(x, 1.0) == x
  {
  }

  lemma TimesMonotone(k: real, x: real, y: real)
    requires 0.0 < k && x <= y
    ensures Times(k, x) <= Times(k, y)
  {
  }

  lemma TimesStrict(k: real, x: real, y: real)
    requires 0.0 < k && 0.0 <= x < y
    ensures 0.0 <= Times(k, x) < Times(k, y)
  {
  }

  lemma TimesAssociative(x: real, y: real, z: real)
    ensures Times(x, Times(y, z)) == Times(Times(x, y), z)
    ensures Times(x, y) == Times(y, x)
  {
  }

  lemma TimesDistributes(x: real, y: real, z: real)
    ensures Times(x + y, z) == Times(x, z) + Times(y, z)
    ensures Times(0.0, z) == 0.0 && Times(z, 1.0) == z
  {
  }

  lemma SquareNonNegative(x: real)
    ensures Times(x, x) >= 0.0
  {
  }

  lemma SquareOfProduct(x: real, y: real)
    ensures Times(Times(x, y), Times(x, y)) == Times(Times(x, x), Times(y, y))
  {
    calc {
      (x * y) * (x * y);
      x * (y * (x * y));
      x * (x * (y * y));
      (x * x) * (y * y);
    }
  }

  lemma ProductBelow(x: real, y: real)
    requires 0.0 <= x < 1.0 && 0.0 <= y < 1.0
    ensures 0.0 <= Times(x, y) < 1.0
  {
    hide Times;
    TimesDistributes(0.0, 0.0, y);
    TimesDistributes(0.0, 0.0, x);
    if x > 0.0 {
      TimesStrict(x, y, 1.0);
    }
  }

  lemma QuotientTimes(x: real, y: real)
    requires y > 0.0
    ensures Times(x / y, y) == x
  {
  }

  lemma HalfOfTwo()
    ensures Times(0.5, 2.0) == 1.0
  {
  }

  /** Fractions multiply numerator by numerator and denominator by denominator. */
  lemma FractionsMultiply(x: real, m: nat, k: nat, y: real, n: nat, l: nat)
    requires Times(x, m as real) == k as real && Times(y, n as real) == l as real
    ensures Times(Times(x, y), (m * n) as real) == (k * l) as real
  {
    assert (m * n) as real == (m as real) * (n as real) && (k * l) as real == (k as real) * (l as real);
    calc {
      (x * y) * ((m as real) * (n as real));
      x * (y * ((m as real) * (n as real)));
      x * ((m as real) * (y * (n as real)));
      (x * (m as real)) * (y * (n as real));
    }
  }

  lemma SameFactor(x: real, y: real, z: real)
    requires z > 0.0 && Times(x, z) == Times(y, z)
    ensures x == y
  {
    hide Times;
    if x < y {
      TimesShift(z, x, y);
    } else if y < x {
      TimesShift(z, y, x);
    }
  }

  lemma TimesShift(k: real, x: real, y: real)
    requires k > 0.0 && x < y
    ensures Times(x, k) < Times(y, k)
  {
  }
}
