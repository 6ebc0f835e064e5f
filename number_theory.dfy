/** Integer powers and the modular-arithmetic facts that make the textbook-RSA
    round trip with n = 61 * 53 = 3233, e = 17, d = 2753 work: Fermat's little
    theorem (through the binomial theorem) and the Chinese remainder step for
    the two primes. */
module NumberTheory {

  /** b raised to the non-negative power e. */
  function Pow(b: int, e: nat): int
    decreases e
  {
    if e == 0 then 1 else b * Pow(b, e - 1)
  }

  /** d divides x (for a positive d). */
  predicate Divides(d: int, x: int)
    requires d > 0
  {
    x % d == 0
  }

  predicate IsPrime(p: int)
  {
    p > 1 && forall d :: 1 < d < p ==> !Divides(d, p)
  }

  // ---------------------------------------------------------------------------
  // Powers

  lemma {:induction false} PowNonNegative(b: int, e: nat)
    requires b >= 0
    ensures Pow(b, e) >= 0
  {
    if e > 0 {
      PowNonNegative(b, e - 1);
      MulNonNegative(b, Pow(b, e - 1));
    }
  }

  lemma {:induction false} PowAdd(b: int, e1: nat, e2: nat)
    ensures Pow(b, e1 + e2) == Pow(b, e1) * Pow(b, e2)
    decreases e1
  {
    if e1 > 0 {
      PowAdd(b, e1 - 1, e2);
      assert Pow(b, e1 + e2) == b * Pow(b, e1 - 1 + e2);
      MulAssociative(b, Pow(b, e1 - 1), Pow(b, e2));
    }
  }

  lemma {:induction false} PowMul(b: int, e1: nat, e2: nat)
    ensures Pow(b, e1 * e2) == Pow(Pow(b, e1), e2)
    decreases e2
  {
    if e2 > 0 {
      calc {
        Pow(b, e1 * e2);
        { assert e1 * e2 == e1 + e1 * (e2 - 1); }
        Pow(b, e1 + e1 * (e2 - 1));
        { PowAdd(b, e1, e1 * (e2 - 1)); }
        Pow(b, e1) * Pow(b, e1 * (e2 - 1));
        { PowMul(b, e1, e2 - 1); }
        Pow(b, e1) * Pow(Pow(b, e1), e2 - 1);
      }
    }
  }

  /** Squaring the base halves the exponent: the step of square-and-multiply. */
  lemma PowSquare(b: int, k: nat)
    ensures Pow(b, 2 * k) == Pow(b * b, k)
  {
    PowMul(b, 2, k);
    assert Pow(b, 2) == b * b;
  }

  // ---------------------------------------------------------------------------
  // Products and remainders

  lemma MulNonNegative(a: int, b: int)
    requires a >= 0 && b >= 0
    ensures a * b >= 0
  {
  }

  lemma MulAssociative(a: int, b: int, c: int)
    ensures a * (b * c) == (a * b) * c
  {
  }

  /** Adding a multiple of n does not change the remainder. */
  lemma ModAddMultiple(x: int, k: int, n: int)
    requires n > 0
    ensures (x + n * k) % n == x % n
  {
    var q, r := x / n, x % n;
    assert x + n * k == n * (q + k) + r;
    ModUnique(x + n * k, q + k, r, n);
  }

  /** The remainder is determined by any decomposition x == n * q + r with 0 <= r < n. */
  lemma ModUnique(x: int, q: int, r: int, n: int)
    requires n > 0 && 0 <= r < n && x == n * q + r
    ensures x % n == r && x / n == q
  {
    var q', r' := x / n, x % n;
    assert n * q' + r' == n * q + r;
    if q' < q {
      assert n * (q - q') == r' - r;
      MulMonotone(n, 1, q - q');
      assert false;
    } else if q' > q {
      assert n * (q' - q) == r - r';
      MulMonotone(n, 1, q' - q);
      assert false;
    }
  }

  lemma MulMonotone(n: int, a: int, b: int)
    requires n >= 0 && a <= b
    ensures n * a <= n * b
  {
  }

  lemma ModOfMultiple(n: int, k: int)
    requires n > 0
    ensures (n * k) % n == 0
  {
    ModAddMultiple(0, k, n);
  }

  lemma {:induction false} ModMul(a: int, b: int, n: int)
    requires n > 0
    ensures (a * b) % n == ((a % n) * (b % n)) % n
  {
    var qa, ra := a / n, a % n;
    var qb, rb := b / n, b % n;
    ProductOfSplit(a, b, n, qa, ra, qb, rb);
    ModAddMultiple(ra * rb, qa * qb * n + qa * rb + ra * qb, n);
  }

  /** (n qa + ra)(n qb + rb) written as ra rb plus a multiple of n. */
  lemma ProductOfSplit(a: int, b: int, n: int, qa: int, ra: int, qb: int, rb: int)
    requires a == n * qa + ra && b == n * qb + rb
    ensures a * b == ra * rb + n * (qa * qb * n + qa * rb + ra * qb)
  {
  }

  lemma ModAdd(a: int, b: int, n: int)
    requires n > 0
    ensures (a + b) % n == ((a % n) + (b % n)) % n
  {
    var qa, ra := a / n, a % n;
    var qb, rb := b / n, b % n;
    assert a + b == ra + rb + n * (qa + qb);
    ModAddMultiple(ra + rb, qa + qb, n);
  }

  /** A power can be computed on the remainder of its base. */
  lemma {:induction false} PowModBase(b: int, e: nat, n: int)
    requires n > 0
    ensures Pow(b % n, e) % n == Pow(b, e) % n
    decreases e
  {
    if e > 0 {
      PowModBase(b, e - 1, n);
      MulModLeft(b, Pow(b % n, e - 1), Pow(b, e - 1), n);
    }
  }

  /** Multiplying by b or by its remainder, and by two numbers with the same
      remainder, gives the same remainder. */
  lemma MulModLeft(b: int, x: int, y: int, n: int)
    requires n > 0 && x % n == y % n
    ensures ((b % n) * x) % n == (b * y) % n
  {
    var r := b % n;
    ModUnique(r, 0, r, n);
    ModMul(r, x, n);
    ModMul(b, y, n);
  }

  // ---------------------------------------------------------------------------
  // Euclid's lemma for a prime

  /** A prime that divides k * c with 0 < k < p divides c. */
  lemma {:induction false} Euclid(p: int, k: int, c: int)
    requires IsPrime(p) && 0 < k < p && Divides(p, k * c)
    ensures Divides(p, c)
    decreases k
  {
    if k > 1 {
      var q, r := p / k, p % k;
      assert r != 0 by {
        assert !Divides(k, p);
      }
      var t := (k * c) / p;
      assert k * c == p * t;
      assert p == k * q + r;
      assert r * c == p * (c - q * t) by {
        calc {
          r * c;
          (p - k * q) * c;
          p * c - q * (k * c);
          p * c - q * (p * t);
          p * (c - q * t);
        }
      }
      ModOfMultiple(p, c - q * t);
      Euclid(p, r, c);
    }
  }

  // ---------------------------------------------------------------------------
  // Binomial coefficients

  /** Pascal's triangle: Binom(n, k) is "n choose k". */
  function Binom(n: nat, k: nat): nat
  {
    if k == 0 then 1
    else if n == 0 then 0
    else Binom(n - 1, k - 1) + Binom(n - 1, k)
  }

  lemma {:induction false} BinomAbove(n: nat, k: nat)
    requires k > n
    ensures Binom(n, k) == 0
  {
    if n > 0 {
      BinomAbove(n - 1, k - 1);
      BinomAbove(n - 1, k);
    }
  }

  lemma {:induction false} BinomDiagonal(n: nat)
    ensures Binom(n, n) == 1
  {
    if n > 0 {
      BinomDiagonal(n - 1);
      BinomAbove(n - 1, n);
    }
  }

  lemma {:induction false} BinomOne(n: nat)
    ensures Binom(n, 1) == n
  {
    if n > 0 {
      BinomOne(n - 1);
    }
  }

  /** The absorption identity k * C(n, k) == n * C(n - 1, k - 1). */
  lemma {:induction false} Absorption(n: nat, k: nat)
    requires n >= 1 && k >= 1
    ensures k * Binom(n, k) == n * Binom(n - 1, k - 1)
    decreases n
  {
    if k == 1 {
      BinomOne(n);
    } else if n == 1 {
      BinomAbove(1, k);
      BinomAbove(0, k - 1);
    } else {
      var a, b := Binom(n - 1, k - 1), Binom(n - 1, k);
      var c, d := Binom(n - 2, k - 2), Binom(n - 2, k - 1);
      assert Binom(n, k) == a + b;
      assert a == c + d;
      Absorption(n - 1, k);
      assert k * b == (n - 1) * d;
      Absorption(n - 1, k - 1);
      assert (k - 1) * a == (n - 1) * c;
      calc {
        k * Binom(n, k);
        k * (a + b);
        { Distribute(k, a, b); }
        k * a + k * b;
        { Distribute(k - 1, a, 0); }
        (k - 1) * a + a + k * b;
        (n - 1) * c + a + (n - 1) * d;
        { Distribute(n - 1, c, d); }
        (n - 1) * (c + d) + a;
        (n - 1) * a + a;
        n * a;
      }
    }
  }

  lemma Distribute(x: int, y: int, z: int)
    ensures x * (y + z) == x * y + x * z
    ensures (y + z) * x == y * x + z * x
    ensures (x + 1) * y == x * y + y
  {
  }

  /** A prime divides every inner entry of its row of Pascal's triangle. */
  lemma PrimeDividesBinom(p: nat, k: nat)
    requires IsPrime(p) && 0 < k < p
    ensures Divides(p, Binom(p, k))
  {
    Absorption(p, k);
    ModOfMultiple(p, Binom(p - 1, k - 1));
    Euclid(p, k, Binom(p, k));
  }

  /** The first k + 1 terms of the binomial expansion of (a + 1)^n. */
  function BinomSum(a: int, n: nat, k: nat): int
  {
    if k == 0 then 1 else BinomSum(a, n, k - 1) + Binom(n, k) * Pow(a, k)
  }

  lemma {:induction false} BinomSumPascal(a: int, n: nat, k: nat)
    requires k >= 1
    ensures BinomSum(a, n + 1, k) == BinomSum(a, n, k) + a * BinomSum(a, n, k - 1)
  {
    if k >= 2 {
      BinomSumPascal(a, n, k - 1);
      var s1, s2 := BinomSum(a, n, k - 1), BinomSum(a, n, k - 2);
      var c1, c2 := Binom(n, k - 1), Binom(n, k);
      var w := Pow(a, k - 1);
      assert Binom(n + 1, k) == c1 + c2;
      assert Pow(a, k) == a * w;
      assert s1 == s2 + c1 * w;
      var aw := a * w;
      assert BinomSum(a, n + 1, k) == s1 + a * s2 + (c1 + c2) * aw;
      assert (c1 + c2) * aw == c1 * aw + c2 * aw by { Distribute(aw, c1, c2); }
      assert a * (s2 + c1 * w) == a * s2 + a * (c1 * w) by { Distribute(a, s2, c1 * w); }
      assert a * (c1 * w) == c1 * aw by { MulAssociative(a, c1, w); MulAssociative(c1, a, w); }
      assert BinomSum(a, n, k) == s1 + c2 * aw;
    } else {
      assert Binom(n + 1, 1) == 1 + Binom(n, 1);
    }
  }

  /** The binomial theorem for (a + 1)^n. */
  lemma {:induction false} BinomialTheorem(a: int, n: nat)
    ensures Pow(a + 1, n) == BinomSum(a, n, n)
  {
    if n > 0 {
      var m := n - 1;
      BinomialTheorem(a, m);
      BinomSumPascal(a, m, n);
      BinomAbove(m, n);
      assert BinomSum(a, m, n) == BinomSum(a, m, m);
      calc {
        BinomSum(a, n, n);
        BinomSum(a, m, n) + a * BinomSum(a, m, m);
        Pow(a + 1, m) + a * Pow(a + 1, m);
        (a + 1) * Pow(a + 1, m);
      }
    }
  }

  /** Modulo a prime p, the inner terms of the expansion of (a + 1)^p vanish. */
  lemma {:induction false} BinomSumModPrime(a: int, p: nat, k: nat)
    requires IsPrime(p) && k < p
    ensures BinomSum(a, p, k) % p == 1
  {
    if k > 0 {
      BinomSumModPrime(a, p, k - 1);
      PrimeDividesBinom(p, k);
      AddMultipleKeepsMod(BinomSum(a, p, k - 1), Binom(p, k), Pow(a, k), p);
    }
  }

  /** Adding a multiple of n keeps a remainder of 1. */
  lemma AddMultipleKeepsMod(s: int, c: int, w: int, n: int)
    requires n > 0 && s % n == 1 && c % n == 0
    ensures (s + c * w) % n == 1
  {
    var t := c / n;
    assert c * w == n * (t * w) by {
      assert c == n * t;
      MulAssociative(n, t, w);
    }
    ModAddMultiple(s, t * w, n);
  }

  /** (a + 1)^p == a^p + 1 modulo a prime p. */
  lemma FreshmansDream(a: int, p: nat)
    requires IsPrime(p)
    ensures Pow(a + 1, p) % p == (Pow(a, p) + 1) % p
  {
    var inner := BinomSum(a, p, p - 1);
    assert Pow(a + 1, p) == inner + Pow(a, p) by {
      BinomialTheorem(a, p);
      BinomDiagonal(p);
    }
    BinomSumModPrime(a, p, p - 1);
    AddOneMod(inner, Pow(a, p), p);
  }

  /** Adding a number whose remainder is 1 is adding 1. */
  lemma AddOneMod(s: int, x: int, n: int)
    requires n > 1 && s % n == 1
    ensures (s + x) % n == (x + 1) % n
  {
    ModAdd(s, x, n);
    ModAdd(1, x, n);
    ModUnique(1, 0, 1, n);
  }

  /** Fermat's little theorem: a^p == a modulo a prime p. */
  lemma {:induction false} Fermat(p: nat, a: nat)
    requires IsPrime(p)
    ensures Pow(a, p) % p == a % p
  {
    if a == 0 {
      assert Pow(0, p) == 0 * Pow(0, p - 1);
    } else {
      Fermat(p, a - 1);
      FreshmansDream(a - 1, p);
      ModAdd(Pow(a - 1, p), 1, p);
      ModAdd(a - 1, 1, p);
    }
  }

  /** x^(1 + k * (p - 1)) == x modulo a prime p. */
  lemma {:induction false} FermatIterated(p: nat, x: nat, k: nat)
    requires IsPrime(p)
    ensures Pow(x, 1 + k * (p - 1)) % p == x % p
  {
    if k > 0 {
      var e := 1 + (k - 1) * (p - 1);
      var a := Pow(x, p - 1);
      assert 1 + k * (p - 1) == (p - 1) + e by {
        Distribute(p - 1, k - 1, 1);
      }
      FermatIterated(p, x, k - 1);
      assert Pow(x, 1 + k * (p - 1)) == a * Pow(x, e) by {
        PowAdd(x, p - 1, e);
      }
      MulModRight(a, Pow(x, e), x, p);
      assert a * x == Pow(x, p) by {
        PowAdd(x, p - 1, 1);
      }
      Fermat(p, x);
    }
  }

  /** Multiplying two numbers with the same remainder by a gives the same remainder. */
  lemma MulModRight(a: int, y: int, z: int, n: int)
    requires n > 0 && y % n == z % n
    ensures (a * y) % n == (a * z) % n
  {
    ModMul(a, y, n);
    ModMul(a, z, n);
  }


  // ---------------------------------------------------------------------------
  // The modulus 3233 = 61 * 53

  lemma Prime61()
    ensures IsPrime(61)
  {
    forall d | 1 < d < 61 ensures !Divides(d, 61) {
      if d >= 9 {
        assert 61 / d < 7;
      }
    }
  }

  lemma Prime53()
    ensures IsPrime(53)
  {
    forall d | 1 < d < 53 ensures !Divides(d, 53) {
      if d >= 8 {
        assert 53 / d < 7;
      }
    }
  }

  /** A number divisible by both 61 and 53 is divisible by 3233. */
  lemma ChineseRemainder(x: int)
    requires Divides(61, x) && Divides(53, x)
    ensures Divides(3233, x)
  {
    var a := x / 61;
    assert x == 61 * a;
    // 53 divides 61 * a, hence 8 * a, hence a
    assert 8 * a == x - 53 * a;
    ModAdd(x, -53 * a, 53);
    ModOfMultiple(53, -a);
    assert Divides(53, 8 * a);
    Prime53();
    Euclid(53, 8, a);
    var b := a / 53;
    assert x == 3233 * b;
    ModOfMultiple(3233, b);
  }

  /** y == x modulo the prime p, stated as divisibility of the difference. */
  lemma DifferenceDivisible(y: int, x: int, p: int)
    requires p > 0 && y % p == x % p
    ensures Divides(p, y - x)
  {
    var qy, qx := y / p, x / p;
    assert y - x == p * (qy - qx);
    ModOfMultiple(p, qy - qx);
  }

  /** m^(17 * 2753) == m modulo 3233 for every residue m. */
  lemma RsaExponentIdentity(m: nat)
    requires m < 3233
    ensures Pow(m, 17 * 2753) % 3233 == m
  {
    var y := Pow(m, 17 * 2753);
    assert y % 61 == m % 61 by {
      Prime61();
      assert 17 * 2753 == 1 + 780 * (61 - 1);
      FermatIterated(61, m, 780);
    }
    assert y % 53 == m % 53 by {
      Prime53();
      assert 17 * 2753 == 1 + 900 * (53 - 1);
      FermatIterated(53, m, 900);
    }
    assert Divides(3233, y - m) by {
      DifferenceDivisible(y, m, 61);
      DifferenceDivisible(y, m, 53);
      ChineseRemainder(y - m);
    }
    ModOfDivisibleDifference(y, m, 3233);
  }

  /** If n divides y - m and 0 <= m < n, then m is the remainder of y. */
  lemma ModOfDivisibleDifference(y: int, m: int, n: int)
    requires n > 0 && 0 <= m < n && Divides(n, y - m)
    ensures y % n == m
  {
    var t := (y - m) / n;
    assert y == m + n * t;
    ModAddMultiple(m, t, n);
    ModUnique(m, 0, m, n);
  }
}
