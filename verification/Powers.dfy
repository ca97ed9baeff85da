/** Integer powers and quotients. */
module Powers {
  function Pow(b: nat, e: nat): nat {
    if e == 0 then 1 else b * Pow(b, e - 1)
  }

  lemma {:induction false} PowPositive(b: nat, e: nat)
    requires 0 < b
    ensures 0 < Pow(b, e)
  {
    if e > 0 {
      PowPositive(b, e - 1);
      ProductGrows(1, b, 1, Pow(b, e - 1));
    }
  }

  lemma ProductGrows(a: nat, b: nat, x: nat, y: nat)
    requires a <= b && x <= y
    ensures a * x <= b * y
  {
    assert b * y - a * x == (b - a) * y + a * (y - x);
  }

  lemma {:induction false} PowGrows(a: nat, b: nat, e: nat)
    requires a <= b
    ensures Pow(a, e) <= Pow(b, e)
  {
    if e > 0 {
      PowGrows(a, b, e - 1);
      ProductGrows(a, b, Pow(a, e - 1), Pow(b, e - 1));
    }
  }

  /** Powers with a positive exponent grow strictly in the base. */
  lemma PowGrowsStrictly(a: nat, b: nat, e: nat)
    requires a < b && 0 < e
    ensures Pow(a, e) < Pow(b, e)
  {
    PowGrows(a, b, e - 1);
    PowPositive(b, e - 1);
    ProductGrows(a, b - 1, Pow(a, e - 1), Pow(b, e - 1));
    assert b * Pow(b, e - 1) == (b - 1) * Pow(b, e - 1) + Pow(b, e - 1);
  }

  lemma PowAtLeastBase(b: nat, e: nat)
    requires 0 < b && 0 < e
    ensures b <= Pow(b, e)
  {
    PowPositive(b, e - 1);
    ProductGrows(b, b, 1, Pow(b, e - 1));
  }

  lemma Regroup(a: int, b: int, p: int, q: int)
    ensures (a * b) * (p * q) == (a * p) * (b * q)
  {
    calc {
      (a * b) * (p * q);
      { Associate(a, b, p * q); }
      a * (b * (p * q));
      { Associate(b, p, q); Associate(p, b, q); }
      a * (p * (b * q));
      { Associate(a, p, b * q); }
      (a * p) * (b * q);
    }
  }

  lemma Associate(a: int, b: int, c: int)
    ensures (a * b) * c == a * (b * c)
  {
  }

  lemma Distribute(a: int, b: int, c: int)
    ensures a * (b + c) == a * b + a * c
  {
  }

  lemma {:induction false} PowOfProduct(a: nat, b: nat, e: nat)
    ensures Pow(a * b, e) == Pow(a, e) * Pow(b, e)
  {
    if e > 0 {
      PowOfProduct(a, b, e - 1);
      Regroup(a, b, Pow(a, e - 1), Pow(b, e - 1));
    }
  }

  /** Bernoulli's inequality, homogeneous: (x + y)^k >= x^(k-1) (x + k y). */
  lemma {:induction false} Bernoulli(x: nat, y: nat, k: nat)
    requires 0 < k
    ensures Pow(x + y, k) >= Pow(x, k - 1) * (x + k * y)
  {
    if k == 1 {
      assert Pow(x + y, 1) == (x + y) * Pow(x + y, 0);
    } else {
      Bernoulli(x, y, k - 1);
      var p := Pow(x, k - 2);
      var z := x + (k - 1) * y;
      assert Pow(x + y, k) == (x + y) * Pow(x + y, k - 1) && Pow(x, k - 1) == x * p;
      hide Pow;
      BernoulliStep(x, y, k, p, z);
      ProductGrows(x + y, x + y, p * z, Pow(x + y, k - 1));
    }
  }

  lemma BernoulliStep(x: nat, y: nat, k: nat, p: nat, z: nat)
    requires 1 < k && z == x + (k - 1) * y
    ensures (x + y) * (p * z) >= (x * p) * (x + k * y)
  {
    var a := (k - 1) * y;
    Distribute(y, k - 1, 1);
    assert a + y == k * y;
    CrossTerms(x, y, a);
    ProductGrows(p, p, x * (x + k * y), (x + y) * z);
    Associate(p, x, x + k * y);
    Associate(p, x + y, z);
    Associate(x + y, p, z);
  }

  lemma CrossTerms(x: nat, y: nat, a: nat)
    ensures (x + y) * (x + a) >= x * (x + (a + y))
  {
    Distribute(x + y, x, a);
    Distribute(x, x, a + y);
    Distribute(x, a, y);
    Distribute(a, x, y);
  }

  // ---------------------------------------------------------------------------------
  // Quotients
  // ---------------------------------------------------------------------------------

  lemma AtLeastOnce(d: nat, k: int)
    requires 1 <= k
    ensures d * k >= d
  {
  }

  lemma Minus(d: int, a: int, b: int)
    ensures d * (a - b) == d * a - d * b
  {
  }

  lemma Euclid(x: nat, d: nat)
    requires 0 < d
    ensures x == d * (x / d) + x % d
  {
  }

  lemma QuotientIs(x: nat, d: nat, q: nat, r: nat)
    requires x == d * q + r && r < d
    ensures x / d == q
  {
    Euclid(x, d);
    var e := x / d;
    Minus(d, q, e);
    Minus(d, e, q);
    if e < q {
      AtLeastOnce(d, q - e);
    } else if q < e {
      AtLeastOnce(d, e - q);
    }
  }

  lemma Nested(a: nat, b: nat, p: nat, t: nat)
    ensures a * (b * p + t) == (a * b) * p + a * t
  {
  }

  lemma Within(a: nat, b: nat, t: nat, r: nat)
    requires t < b && r < a
    ensures a * t + r < a * b
  {
    AtLeastOnce(a, b - t);
    Minus(a, b, t);
  }

  lemma TwoQuotients(x: nat, a: nat, b: nat, p: nat, t: nat, r: nat)
    requires x == a * (b * p + t) + r && t < b && r < a
    ensures 0 < a * b && x / (a * b) == p
  {
    AtLeastOnce(a, b);
    Nested(a, b, p, t);
    Within(a, b, t, r);
    QuotientIs(x, a * b, p, a * t + r);
  }

  lemma QuotientOfQuotient(x: nat, a: nat, b: nat)
    requires 0 < a && 0 < b
    ensures 0 < a * b && x / a / b == x / (a * b)
  {
    Euclid(x, a);
    Euclid(x / a, b);
    TwoQuotients(x, a, b, x / a / b, x / a % b, x % a);
  }
}
