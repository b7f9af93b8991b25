/** Integer arithmetic behind the RSA engine: powers, remainders, greatest
    common divisors with Bezout coefficients, primes, and the two theorems
    textbook RSA rests on (Fermat's little theorem and the identity
    m^(e*d) = m modulo p*q). */
module NumberTheory {

  import opened Wrappers

  // ---------------------------------------------------------------------
  // powers

  function Pow(b: int, e: nat): int
  {
    if e == 0 then 1 else b * Pow(b, e - 1)
  }

  lemma {:induction false} PowAdd(b: int, e1: nat, e2: nat)
    ensures Pow(b, e1 + e2) == Pow(b, e1) * Pow(b, e2)
  {
    if e1 > 0 {
      PowAdd(b, e1 - 1, e2);
      assert Pow(b, e1 + e2) == b * Pow(b, e1 - 1 + e2);
      assert b * (Pow(b, e1 - 1) * Pow(b, e2)) == (b * Pow(b, e1 - 1)) * Pow(b, e2);
    }
  }

  lemma {:induction false} PowMul(b: int, e1: nat, e2: nat)
    ensures Pow(b, e1 * e2) == Pow(Pow(b, e1), e2)
  {
    if e2 > 0 {
      PowMul(b, e1, e2 - 1);
      assert e1 * e2 == e1 + e1 * (e2 - 1);
      PowAdd(b, e1, e1 * (e2 - 1));
    }
  }

  lemma {:induction false} PowOne(e: nat)
    ensures Pow(1, e) == 1
  {
    if e > 0 { PowOne(e - 1); }
  }

  lemma {:induction false} PowZero(e: nat)
    requires e > 0
    ensures Pow(0, e) == 0
  {
  }

  lemma {:induction false} PowNonNegative(b: int, e: nat)
    requires b >= 0
    ensures Pow(b, e) >= 0
  {
    if e > 0 {
      PowNonNegative(b, e - 1);
      MulNonNegative(b, Pow(b, e - 1));
    }
  }

  lemma {:induction false} PowPositive(b: int, e: nat)
    requires b > 0
    ensures Pow(b, e) > 0
  {
    if e > 0 {
      PowPositive(b, e - 1);
      MulAtLeast(Pow(b, e - 1), b);
    }
  }

  lemma MulNonNegative(x: int, y: int)
    requires x >= 0 && y >= 0
    ensures x * y >= 0
  {
  }

  // ---------------------------------------------------------------------
  // Euclidean remainders

  /** The remainder of m*q + r is the remainder of r. */
  lemma ModMultiple(m: int, q: int, r: int)
    requires m > 0
    ensures (m * q + r) % m == r % m
  {
    var a := m * q + r;
    var k := q + r / m;
    assert r == m * (r / m) + r % m;
    assert a == m * k + r % m;
    DivModUnique(a, m, k, r % m);
  }

  /** Division with a remainder in [0, m) is unique. */
  lemma DivModUnique(a: int, m: int, q: int, r: int)
    requires m > 0 && 0 <= r < m && a == m * q + r
    ensures a % m == r && a / m == q
  {
    var q0, r0 := a / m, a % m;
    assert a == m * q0 + r0 && 0 <= r0 < m;
    assert m * (q - q0) == r0 - r;
    if q > q0 {
      MulAtLeast(m, q - q0);
    } else if q < q0 {
      MulAtLeast(m, q0 - q);
    }
  }

  lemma MulAtLeast(m: int, k: int)
    requires m > 0 && k >= 1
    ensures m * k >= m
  {
  }

  lemma MulSign(m: int, k: int)
    requires m > 0
    ensures k >= 1 ==> m * k >= m
    ensures k <= 0 ==> m * k <= 0
  {
  }

  lemma ModOfMod(x: int, m: int)
    requires m > 0
    ensures (x % m) % m == x % m
  {
    DivModUnique(x % m, m, 0, x % m);
  }

  lemma ModAdd(x: int, y: int, m: int)
    requires m > 0
    ensures (x + y) % m == (x % m + y % m) % m
  {
    assert x + y == m * (x / m + y / m) + (x % m + y % m);
    ModMultiple(m, x / m + y / m, x % m + y % m);
  }

  lemma ModMul(x: int, y: int, m: int)
    requires m > 0
    ensures (x * y) % m == ((x % m) * (y % m)) % m
  {
    ModMulLeft(x, y, m);
    ModMulLeft(y, x % m, m);
    assert (x % m) * y == y * (x % m);
    assert (y % m) * (x % m) == (x % m) * (y % m);
  }

  lemma ModMulLeft(x: int, y: int, m: int)
    requires m > 0
    ensures (x * y) % m == ((x % m) * y) % m
  {
    var q, r := x / m, x % m;
    MulExpand(x, y, m, q, r);
    ModMultiple(m, q * y, r * y);
  }

  lemma MulExpand(x: int, y: int, m: int, q: int, r: int)
    requires x == m * q + r
    ensures x * y == m * (q * y) + r * y
  {
  }

  /** A power's remainder depends only on the base's remainder. */
  lemma {:induction false} PowMod(b: int, e: nat, m: int)
    requires m > 0
    ensures Pow(b, e) % m == Pow(b % m, e) % m
  {
    if e > 0 {
      PowMod(b, e - 1, m);
      ModMul(b, Pow(b, e - 1), m);
      ModMul(b % m, Pow(b % m, e - 1), m);
      ModOfMod(b, m);
    }
  }

  // ---------------------------------------------------------------------
  // divisibility

  /** d divides n, for a positive d. */
  predicate Divides(d: int, n: int)
    requires d > 0
  {
    n % d == 0
  }

  lemma DividesMul(d: int, n: int, k: int)
    requires d > 0 && Divides(d, n)
    ensures Divides(d, n * k)
  {
    assert n == d * (n / d);
    assert n * k == d * ((n / d) * k) + 0;
    ModMultiple(d, (n / d) * k, 0);
  }

  lemma DividesAdd(d: int, x: int, y: int)
    requires d > 0 && Divides(d, x) && Divides(d, y)
    ensures Divides(d, x + y)
  {
    ModAdd(x, y, d);
  }

  lemma DividesSub(d: int, x: int, y: int)
    requires d > 0 && Divides(d, x) && Divides(d, y)
    ensures Divides(d, x - y)
  {
    DividesMul(d, y, -1);
    DividesAdd(d, x, y * -1);
  }

  lemma DividesSelf(d: int, k: int)
    requires d > 0
    ensures Divides(d, d * k)
  {
    ModMultiple(d, k, 0);
  }

  /** A positive multiple of d is at least d. */
  lemma DividesBound(d: int, n: int)
    requires d > 0 && n > 0 && Divides(d, n)
    ensures d <= n
  {
    assert n == d * (n / d);
    MulSign(d, n / d);
  }

  /** Two numbers are congruent modulo m when m divides their difference. */
  lemma CongruentWhenDivides(x: int, y: int, m: int)
    requires m > 0 && Divides(m, x - y)
    ensures x % m == y % m
  {
    assert x == m * ((x - y) / m) + y;
    ModMultiple(m, (x - y) / m, y);
  }

  lemma DividesWhenCongruent(x: int, y: int, m: int)
    requires m > 0 && x % m == y % m
    ensures Divides(m, x - y)
  {
    assert x - y == m * (x / m - y / m) + 0;
    ModMultiple(m, x / m - y / m, 0);
  }

  // ---------------------------------------------------------------------
  // greatest common divisor

  /** `math.gcd` on non-negative arguments, by Euclid's algorithm. */
  function Gcd(a: nat, b: nat): nat
    decreases b
  {
    if b == 0 then a else Gcd(b, a % b)
  }

  /** Coefficients x, y with a*x + b*y == Gcd(a, b), by the extended
      algorithm. */
  function Bezout(a: nat, b: nat): (r: (int, int))
    ensures a * r.0 + b * r.1 == Gcd(a, b)
    decreases b
  {
    if b == 0 then (1, 0)
    else
      var (x, y) := Bezout(b, a % b);
      BezoutStep(a, b, x, y);
      (y, x - (a / b) * y)
  }

  lemma BezoutStep(a: nat, b: nat, x: int, y: int)
    requires b > 0
    ensures b * x + (a % b) * y == a * y + b * (x - (a / b) * y)
  {
    assert a % b == a - b * (a / b);
    assert (a % b) * y == a * y - b * ((a / b) * y);
  }

  /** The gcd divides both arguments. */
  lemma {:induction false} GcdDivides(a: nat, b: nat)
    requires a > 0 || b > 0
    ensures Gcd(a, b) > 0 && Divides(Gcd(a, b), a) && Divides(Gcd(a, b), b)
    decreases b
  {
    if b == 0 {
      DividesSelf(a, 1);
      DividesSelf(a, 0);
    } else {
      GcdDivides(b, a % b);
      var g := Gcd(a, b);
      DividesMul(g, b, a / b);
      DividesAdd(g, b * (a / b), a % b);
      assert b * (a / b) + a % b == a;
    }
  }

  /** Every common divisor divides the gcd. */
  lemma CommonDivisorDividesGcd(d: int, a: nat, b: nat)
    requires d > 0 && Divides(d, a) && Divides(d, b)
    ensures Divides(d, Gcd(a, b))
  {
    var (x, y) := Bezout(a, b);
    DividesMul(d, a, x);
    DividesMul(d, b, y);
    DividesAdd(d, a * x, b * y);
  }

  // ---------------------------------------------------------------------
  // primes

  predicate Prime(p: int)
  {
    p >= 2 && forall d :: 2 <= d < p ==> p % d != 0
  }

  /** The only positive divisors of a prime are 1 and itself. */
  lemma PrimeDivisor(p: int, d: int)
    requires Prime(p) && d > 0 && Divides(d, p)
    ensures d == 1 || d == p
  {
    DividesBound(d, p);
  }

  /** A prime that does not divide a is coprime to it. */
  lemma PrimeCoprime(p: nat, a: nat)
    requires Prime(p) && !Divides(p, a)
    ensures Gcd(p, a) == 1
  {
    GcdDivides(p, a);
    var g := Gcd(p, a);
    PrimeDivisor(p, g);
  }

  /** Euclid's lemma: a prime dividing a product divides a factor. */
  lemma EuclidLemma(p: nat, a: int, b: int)
    requires Prime(p) && Divides(p, a * b)
    ensures Divides(p, a) || Divides(p, b)
  {
    if !Divides(p, a) {
      var a' := a % p;
      assert !Divides(p, a') by { ModOfMod(a, p); }
      PrimeCoprime(p, a');
      var (x, y) := Bezout(p, a');
      // b == p*x*b + a'*b*y, and p divides both terms
      BezoutTimes(p, a', b, x, y);
      ModMulLeft(a, b, p);
      assert Divides(p, a' * b);
      DividesMul(p, a' * b, y);
      DividesSelf(p, x * b);
      DividesAdd(p, p * (x * b), a' * b * y);
    }
  }

  lemma BezoutTimes(p: int, a: int, b: int, x: int, y: int)
    requires p * x + a * y == 1
    ensures b == p * (x * b) + a * b * y
  {
    assert b == (p * x + a * y) * b;
  }

  /** A number both distinct primes divide is a multiple of their product. */
  lemma DistinctPrimesDivide(p: nat, q: nat, x: int)
    requires Prime(p) && Prime(q) && p != q
    requires Divides(p, x) && Divides(q, x)
    ensures Divides(p * q, x)
  {
    var k := x / p;
    assert x == p * k;
    EuclidLemma(q, p, k);
    if Divides(q, p) {
      PrimeDivisor(p, q);
      assert false;
    }
    var j := k / q;
    assert k == q * j;
    assert x == (p * q) * j;
    DividesSelf(p * q, j);
  }

  // ---------------------------------------------------------------------
  // binomial coefficients and Fermat's little theorem

  /** Pascal's triangle. */
  function Binom(n: nat, k: nat): nat
  {
    if k == 0 then 1
    else if n == 0 then 0
    else Binom(n - 1, k - 1) + Binom(n - 1, k)
  }

  lemma {:induction false} BinomAbove(n: nat, k: nat)
    requires k > n
    ensures Binom(n, k) == 0
  {
    if n > 0 { BinomAbove(n - 1, k - 1); BinomAbove(n - 1, k); }
  }

  lemma {:induction false} BinomDiagonal(n: nat)
    ensures Binom(n, n) == 1
  {
    if n > 0 { BinomDiagonal(n - 1); BinomAbove(n - 1, n); }
  }

  /** The absorption identity k * C(n, k) == n * C(n-1, k-1). */
  lemma {:induction false} Absorption(n: nat, k: nat)
    requires n >= 1 && k >= 1
    ensures k * Binom(n, k) == n * Binom(n - 1, k - 1)
  {
    if n == 1 {
      if k > 1 { BinomAbove(0, k - 1); BinomAbove(1, k); }
    } else if k == 1 {
      Absorption(n - 1, 1);
    } else {
      Absorption(n - 1, k);
      Absorption(n - 1, k - 1);
      AbsorptionStep(n, k, Binom(n - 1, k - 1), Binom(n - 1, k), Binom(n - 2, k - 2), Binom(n - 2, k - 1));
    }
  }

  lemma AbsorptionStep(n: int, k: int, a: int, b: int, c: int, d: int)
    requires k * b == (n - 1) * d && (k - 1) * a == (n - 1) * c && a == c + d
    ensures k * (a + b) == n * a
  {
    calc {
      k * (a + b);
      (k - 1) * a + a + k * b;
      (n - 1) * c + a + (n - 1) * d;
      (n - 1) * (c + d) + a;
      n * a;
    }
  }

  /** A prime p divides C(p, k) for 0 < k < p. */
  lemma PrimeDividesBinom(p: nat, k: nat)
    requires Prime(p) && 0 < k < p
    ensures Divides(p, Binom(p, k))
  {
    Absorption(p, k);
    DividesSelf(p, Binom(p - 1, k - 1));
    EuclidLemma(p, k, Binom(p, k));
    if Divides(p, k) {
      DividesBound(p, k);
    }
  }

  /** The first j terms of the binomial expansion of (a + 1)^n. */
  function BinomSum(n: nat, a: int, j: nat): int
  {
    if j == 0 then 0 else BinomSum(n, a, j - 1) + Binom(n, j - 1) * Pow(a, j - 1)
  }

  lemma {:induction false} BinomSumShift(n: nat, a: int, j: nat)
    ensures BinomSum(n + 1, a, j + 1) == a * BinomSum(n, a, j) + BinomSum(n, a, j + 1)
  {
    if j > 0 {
      BinomSumShift(n, a, j - 1);
      ShiftStep(a, BinomSum(n, a, j - 1), BinomSum(n, a, j), BinomSum(n + 1, a, j),
        Binom(n, j - 1), Binom(n, j), Pow(a, j - 1), Pow(a, j));
    }
  }

  lemma ShiftStep(a: int, s: int, t: int, u: int, x: int, y: int, p: int, q: int)
    requires u == a * s + t && t == s + x * p && q == a * p
    ensures u + (x + y) * q == a * t + (t + y * q)
  {
    calc {
      u + (x + y) * q;
      a * s + t + x * (a * p) + y * q;
      a * (s + x * p) + t + y * q;
    }
  }

  /** The binomial theorem for (a + 1)^n. */
  lemma {:induction false} BinomialTheorem(n: nat, a: int)
    ensures Pow(a + 1, n) == BinomSum(n, a, n + 1)
  {
    if n > 0 {
      BinomialTheorem(n - 1, a);
      BinomSumShift(n - 1, a, n);
      BinomAbove(n - 1, n);
      assert BinomSum(n - 1, a, n + 1) == BinomSum(n - 1, a, n);
      TimesSucc(a, BinomSum(n - 1, a, n));
    }
  }

  lemma TimesSucc(a: int, s: int)
    ensures (a + 1) * s == a * s + s
  {
  }

  /** Modulo a prime p, the inner terms of the expansion of (a + 1)^p vanish. */
  lemma {:induction false} InnerTermsVanish(p: nat, a: int, j: nat)
    requires Prime(p) && 1 <= j <= p
    ensures BinomSum(p, a, j) % p == 1 % p
  {
    if j > 1 {
      InnerTermsVanish(p, a, j - 1);
      PrimeDividesBinom(p, j - 1);
      DividesMul(p, Binom(p, j - 1), Pow(a, j - 1));
      ModAdd(BinomSum(p, a, j - 1), Binom(p, j - 1) * Pow(a, j - 1), p);
      ModOfMod(1, p);
    }
  }

  /** The freshman's dream: (a + 1)^p == a^p + 1 modulo a prime p. */
  lemma FreshmansDream(p: nat, a: int)
    requires Prime(p)
    ensures Pow(a + 1, p) % p == (Pow(a, p) + 1) % p
  {
    BinomialTheorem(p, a);
    InnerTermsVanish(p, a, p);
    BinomDiagonal(p);
    assert BinomSum(p, a, p + 1) == BinomSum(p, a, p) + Pow(a, p);
    ModAdd(BinomSum(p, a, p), Pow(a, p), p);
    ModAdd(1, Pow(a, p), p);
  }

  /** a^p == a modulo a prime p, for every a >= 0. */
  lemma {:induction false} FermatPower(p: nat, a: nat)
    requires Prime(p)
    ensures Pow(a, p) % p == a % p
  {
    if a == 0 {
      PowZero(p);
    } else {
      FermatPower(p, a - 1);
      FreshmansDream(p, a - 1);
      ModAdd(Pow(a - 1, p), 1, p);
      ModAdd(a - 1, 1, p);
    }
  }

  /** Fermat's little theorem: a^(p-1) == 1 modulo p, for a prime p that
      does not divide a. */
  lemma FermatLittle(p: nat, a: int)
    requires Prime(p) && !Divides(p, a)
    ensures Pow(a, p - 1) % p == 1
  {
    var r := a % p;
    ModOfMod(a, p);
    PowMod(a, p - 1, p);
    FermatPower(p, r);
    // p divides r^p - r == r * (r^(p-1) - 1), and not r
    assert Pow(r, p) == r * Pow(r, p - 1);
    DividesWhenCongruent(Pow(r, p), r, p);
    assert Pow(r, p) - r == r * (Pow(r, p - 1) - 1);
    EuclidLemma(p, r, Pow(r, p - 1) - 1);
    CongruentWhenDivides(Pow(r, p - 1), 1, p);
    DivModUnique(1, p, 0, 1);
  }

  // ---------------------------------------------------------------------
  // modular inverse

  /** The inverse of a modulo m, as `pow(a, -1, m)` computes it with the
      extended Euclidean algorithm: None when a and m are not coprime. */
  function Inverse(a: int, m: nat): (r: Option<nat>)
    requires m > 0
    ensures r.Some? <==> Gcd(a % m, m) == 1
    ensures r.Some? ==> r.value < m && (a * r.value) % m == 1 % m
  {
    if Gcd(a % m, m) == 1 then
      var x := Bezout(a % m, m).0;
      InverseValue(a, m, x, Bezout(a % m, m).1);
      Some(x % m)
    else None
  }

  lemma InverseValue(a: int, m: nat, x: int, y: int)
    requires m > 0 && (a % m) * x + m * y == 1
    ensures (a * (x % m)) % m == 1 % m
  {
    ModMul(a, x % m, m);
    ModOfMod(x, m);
    ModMul(a, x, m);
    ModMul(a % m, x, m);
    ModOfMod(a, m);
    assert (a % m) * x == m * (-y) + 1;
    ModMultiple(m, -y, 1);
  }

  /** When a and m share a factor, no number inverts a modulo m. */
  lemma NoInverse(a: int, m: nat, r: int)
    requires m > 0 && Gcd(a % m, m) != 1
    ensures (a * r) % m != 1 % m
  {
    GcdDivides(a % m, m);
    var g := Gcd(a % m, m);
    if (a * r) % m == 1 % m {
      // g divides m, hence a*r - 1; and a, hence a*r; so it divides 1
      DividesWhenCongruent(a * r, 1, m);
      DividesTransitive(g, m, a * r - 1);
      DividesFromMod(g, a, m);
      DividesMul(g, a, r);
      DividesSub(g, a * r, a * r - 1);
      DividesBound(g, 1);
      assert false;
    }
  }

  lemma DividesTransitive(g: int, m: int, x: int)
    requires g > 0 && m > 0 && Divides(g, m) && Divides(m, x)
    ensures Divides(g, x)
  {
    assert x == m * (x / m);
    DividesMul(g, m, x / m);
  }

  /** A divisor of m and of a % m divides a. */
  lemma DividesFromMod(g: int, a: int, m: int)
    requires g > 0 && m > 0 && Divides(g, m) && Divides(g, a % m)
    ensures Divides(g, a)
  {
    assert a == m * (a / m) + a % m;
    DividesMul(g, m, a / m);
    DividesAdd(g, m * (a / m), a % m);
  }

  // ---------------------------------------------------------------------
  // the RSA identity

  /** m^(1 + j*(p-1)) == m modulo a prime p, whether or not p divides m. */
  lemma FermatExponent(p: nat, m: int, j: nat)
    requires Prime(p)
    ensures Pow(m, 1 + (p - 1) * j) % p == m % p
  {
    if Divides(p, m) {
      PowOfMultiple(p, m, 1 + (p - 1) * j);
    } else {
      var x := Pow(m, p - 1);
      PowAdd(m, 1, (p - 1) * j);
      PowMul(m, p - 1, j);
      assert Pow(m, 1 + (p - 1) * j) == m * Pow(x, j);
      FermatLittle(p, m);
      PowOfOneMod(x, j, p);
      MulByOneMod(m, Pow(x, j), p);
    }
  }

  lemma PowOfMultiple(p: nat, m: int, e: nat)
    requires p > 0 && e > 0 && Divides(p, m)
    ensures Pow(m, e) % p == m % p
  {
    PowMod(m, e, p);
    PowZero(e);
    DivModUnique(0, p, 0, 0);
  }

  lemma PowOfOneMod(x: int, j: nat, p: nat)
    requires p > 1 && x % p == 1
    ensures Pow(x, j) % p == 1
  {
    PowMod(x, j, p);
    PowOne(j);
    DivModUnique(1, p, 0, 1);
  }

  lemma MulByOneMod(m: int, y: int, p: nat)
    requires p > 1 && y % p == 1
    ensures (m * y) % p == m % p
  {
    ModMul(m, y, p);
    ModOfMod(m, p);
  }

  /** An exponent that is 1 modulo phi is 1 plus a multiple of phi. */
  lemma ExponentSplit(ed: nat, phi: nat) returns (t: nat)
    requires phi > 0 && ed % phi == 1
    ensures ed == 1 + phi * t
  {
    var k := ed / phi;
    assert ed == phi * k + 1;
    MulSign(phi, k);
    t := k;
  }

  /** m^ed - m is a multiple of p when ed == 1 + (p-1)*k. */
  lemma FactorDivides(p: nat, ed: nat, k: nat, m: int)
    requires Prime(p) && ed == 1 + (p - 1) * k
    ensures Divides(p, Pow(m, ed) - m)
  {
    FermatExponent(p, m, k);
    DividesWhenCongruent(Pow(m, ed), m, p);
  }

  lemma RsaExponent(p: nat, q: nat, ed: nat, t: nat, m: int)
    requires Prime(p) && Prime(q) && p != q
    requires ed == 1 + ((p - 1) * (q - 1)) * t
    requires 0 <= m < p * q
    ensures Pow(m, ed) % (p * q) == m
  {
    Regroup(p - 1, q - 1, t);
    FactorDivides(p, ed, (q - 1) * t, m);
    FactorDivides(q, ed, (p - 1) * t, m);
    CombineFactors(p, q, Pow(m, ed), m);
  }

  lemma Regroup(a: int, b: int, t: int)
    requires a >= 0 && b >= 0 && t >= 0
    ensures (a * b) * t == a * (b * t) && (a * b) * t == b * (a * t)
    ensures a * t >= 0 && b * t >= 0
  {
    MulNonNegative(a, t);
    MulNonNegative(b, t);
  }

  /** x == m modulo p*q once it is so modulo both distinct primes. */
  lemma CombineFactors(p: nat, q: nat, x: int, m: int)
    requires Prime(p) && Prime(q) && p != q
    requires Divides(p, x - m) && Divides(q, x - m)
    requires 0 <= m < p * q
    ensures x % (p * q) == m
  {
    DistinctPrimesDivide(p, q, x - m);
    CongruentWhenDivides(x, m, p * q);
    DivModUnique(m, p * q, 0, m);
  }

  /** Textbook RSA is correct: for distinct primes p and q and exponents
      with e*d == 1 modulo (p-1)*(q-1), raising any m in [0, p*q) to e*d
      gives m back modulo p*q. */
  lemma RsaIdentity(p: nat, q: nat, e: nat, d: nat, m: int)
    requires Prime(p) && Prime(q) && p != q
    requires (e * d) % ((p - 1) * (q - 1)) == 1
    requires 0 <= m < p * q
    ensures Pow(m, e * d) % (p * q) == m
  {
    var t := ExponentSplit(e * d, (p - 1) * (q - 1));
    RsaExponent(p, q, e * d, t, m);
  }

  /** Decrypting the remainder of an encryption: (m^e mod n)^d mod n ==
      m^(e*d) mod n. */
  lemma PowPowMod(m: int, e: nat, d: nat, n: int)
    requires n > 0
    ensures Pow(Pow(m, e) % n, d) % n == Pow(m, e * d) % n
  {
    PowMod(Pow(m, e), d, n);
    PowMul(m, e, d);
  }
}
