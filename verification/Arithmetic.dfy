/** Factorials, binomial coefficients and divisibility, as far as the counting functions of
    src/CombinatoricUtils.hpp need them: which divisions are exact, and which products grow. */
module Arithmetic {

  function Factorial(n: nat): (r: nat)
    ensures r >= 1
  {
    if n == 0 then 1 else n * Factorial(n - 1)
  }

  /** The number of ways to choose k of n elements. */
  function Binomial(n: nat, k: nat): nat {
    if k == 0 then 1 else if n == 0 then 0 else Binomial(n - 1, k - 1) + Binomial(n - 1, k)
  }

  lemma {:induction false} BinomialBeyond(n: nat, k: nat)
    requires k > n
    ensures Binomial(n, k) == 0
    decreases n
  {
    if n > 0 {
      BinomialBeyond(n - 1, k - 1);
      BinomialBeyond(n - 1, k);
    }
  }

  lemma {:induction false} BinomialAll(n: nat)
    ensures Binomial(n, n) == 1
    decreases n
  {
    if n > 0 {
      BinomialAll(n - 1);
      BinomialBeyond(n - 1, n);
    }
  }

  lemma {:induction false} BinomialOne(n: nat)
    ensures Binomial(n, 1) == n
    decreases n
  {
    if n > 0 {
      BinomialOne(n - 1);
      assert Binomial(n, 1) == Binomial(n - 1, 0) + Binomial(n - 1, 1);
    }
  }

  /** C(n, k) * k! * (n - k)! = n!. */
  lemma {:induction false} BinomialFactorial(n: nat, k: nat)
    requires k <= n
    ensures Binomial(n, k) * (Factorial(k) * Factorial(n - k)) == Factorial(n)
    decreases n
  {
    if k == 0 {
    } else if k == n {
      BinomialAll(n);
    } else {
      BinomialFactorial(n - 1, k - 1);
      BinomialFactorial(n - 1, k);
      PascalFactorial(Binomial(n - 1, k - 1), Binomial(n - 1, k), n, k,
        Factorial(k - 1), Factorial(n - k - 1), Factorial(n - 1));
    }
  }

  lemma PascalFactorial(a: nat, b: nat, n: nat, k: nat, f: nat, g: nat, h: nat)
    requires 0 < k < n
    requires a * (f * ((n - k) * g)) == h && b * ((k * f) * g) == h
    ensures (a + b) * ((k * f) * ((n - k) * g)) == n * h
  {
    calc {
      (a + b) * ((k * f) * ((n - k) * g));
      a * ((k * f) * ((n - k) * g)) + b * ((k * f) * ((n - k) * g));
      { assert a * ((k * f) * ((n - k) * g)) == k * (a * (f * ((n - k) * g))); }
      { assert b * ((k * f) * ((n - k) * g)) == (n - k) * (b * ((k * f) * g)); }
      k * h + (n - k) * h;
      n * h;
    }
  }

  lemma BinomialSymmetric(n: nat, k: nat)
    requires k <= n
    ensures Binomial(n, k) == Binomial(n, n - k)
  {
    BinomialFactorial(n, k);
    BinomialFactorial(n, n - k);
    assert Factorial(k) * Factorial(n - k) == Factorial(n - k) * Factorial(k);
    CancelFactor(Binomial(n, k), Binomial(n, n - k), Factorial(k) * Factorial(n - k));
  }

  lemma CancelFactor(a: int, b: int, c: int)
    requires c != 0 && a * c == b * c
    ensures a == b
  {
    assert (a - b) * c == 0;
  }

  /** k * C(n, k) = (n - k + 1) * C(n, k - 1). */
  lemma BinomialStep(n: nat, k: nat)
    requires 0 < k <= n
    ensures k * Binomial(n, k) == (n - k + 1) * Binomial(n, k - 1)
  {
    BinomialFactorial(n, k);
    BinomialFactorial(n, k - 1);
    Neighbours(Binomial(n, k), Binomial(n, k - 1), k, n - k + 1, Factorial(k - 1), Factorial(n - k));
  }

  lemma Neighbours(b: int, a: int, k: int, m: int, f: int, g: int)
    requires f > 0 && g > 0 && b * ((k * f) * g) == a * (f * (m * g))
    ensures k * b == m * a
  {
    Positive(f, g);
    Rearrange(b, k, f, g);
    assert (m * a) * (f * g) == a * (f * (m * g)) by { Rearrange(a, m, f, g); Swap(f, m, g); }
    CancelFactor(k * b, m * a, f * g);
  }

  lemma Rearrange(b: int, k: int, f: int, g: int)
    ensures (k * b) * (f * g) == b * ((k * f) * g)
  {
    assert (k * f) * g == k * (f * g) by { Associate(k, f, g); }
    assert b * (k * (f * g)) == (b * k) * (f * g) by { Associate(b, k, f * g); }
  }

  lemma Swap(f: int, m: int, g: int)
    ensures f * (m * g) == (m * f) * g
  {
  }

  lemma Associate(a: int, b: int, c: int)
    ensures (a * b) * c == a * (b * c)
  {
  }

  lemma Positive(a: int, b: int)
    requires a > 0 && b > 0
    ensures a * b > 0
  {
  }

  /** Up to the middle the coefficients do not decrease. */
  lemma {:induction false} BinomialMonotone(n: nat, j: nat, k: nat)
    requires j <= k && 2 * k <= n
    ensures Binomial(n, j) <= Binomial(n, k)
    decreases k - j
  {
    if j < k {
      BinomialMonotone(n, j, k - 1);
      BinomialStep(n, k);
      var a, b := Binomial(n, k - 1), Binomial(n, k);
      MulAtMost(k, n - k + 1, a);
      if b < a { MulLess(k, b, a); }
    }
  }

  lemma MulLess(k: int, a: int, b: int)
    requires k > 0 && a < b
    ensures k * a < k * b
  {
  }

  lemma MulAtMost(a: int, b: int, c: int)
    requires a <= b && c >= 0
    ensures a * c <= b * c
  {
  }

  // ----- greatest common divisors

  function Gcd(x: nat, y: nat): nat
    decreases y
  {
    if y == 0 then x else Gcd(y, x % y)
  }

  /** d divides n. */
  ghost predicate Divides(d: int, n: int) {
    exists q :: n == d * q
  }

  lemma {:induction false} GcdDivides(x: nat, y: nat) returns (a: nat, b: nat)
    ensures x == Gcd(x, y) * a && y == Gcd(x, y) * b
    decreases y
  {
    if y == 0 {
      a, b := 1, 0;
    } else {
      var c, e := GcdDivides(y, x % y);
      var g, q := Gcd(x, y), x / y;
      a, b := c * q + e, c;
      calc {
        x;
        y * q + x % y;
        (g * c) * q + g * e;
        g * (c * q + e);
      }
    }
  }

  /** The greatest common divisor is a combination of its arguments. */
  lemma {:induction false} Bezout(x: nat, y: nat) returns (u: int, v: int)
    ensures u * x + v * y == Gcd(x, y)
    decreases y
  {
    if y == 0 {
      u, v := 1, 0;
    } else {
      var a, b := Bezout(y, x % y);
      var q := x / y;
      u, v := b, a - b * q;
      assert x % y == x - y * q;
      calc {
        Gcd(x, y);
        a * y + b * (x % y);
        a * y + b * (x - y * q);
        a * y + b * x - b * (y * q);
        { assert b * (y * q) == (b * q) * y; }
        b * x + (a - b * q) * y;
      }
    }
  }

  /** Every common divisor divides it. */
  lemma GcdGreatest(x: nat, y: nat, d: int)
    requires Divides(d, x) && Divides(d, y)
    ensures Divides(d, Gcd(x, y))
  {
    var u, v := Bezout(x, y);
    var a :| x == d * a;
    var b :| y == d * b;
    assert u * (d * a) + v * (d * b) == d * (u * a + v * b);
  }

  /** What divides a product and is prime to one factor divides the other: with
      u * r + v * k = 1 and r * n = k * q, n is k times a number. */
  lemma Gauss(r: int, k: int, n: int, q: int, u: int, v: int)
    requires u * r + v * k == 1 && r * n == k * q
    ensures n == k * (u * q + n * v)
  {
    calc {
      n;
      n * (u * r + v * k);
      u * (r * n) + n * v * k;
      u * (k * q) + n * v * k;
      k * (u * q + n * v);
    }
  }

  /** The step of count_each_combination: r * n / k without a remainder on the way. */
  lemma ExactStep(r: nat, n: nat, k: nat, b: nat)
    requires r > 0 && k > 0 && n > 0 && r * n == k * b
    ensures var g := Gcd(r, k);
      g > 0 && k / g > 0 && n / (k / g) > 0
      && n % (k / g) == 0 && (r / g) * (n / (k / g)) == b
  {
    hide Gcd;
    var g := Gcd(r, k);
    var r', k' := GcdDivides(r, k);
    var u, v := Bezout(r, k);
    ExactParts(r, n, k, b, g, r', k', u, v);
    QuotientOf(r, g, r');
    QuotientOf(k, g, k');
    var w := u * b + n * v;
    Gauss(r', k', n, b, u, v);
    QuotientOf(n, k', w);
    ExactResult(r', k', n, b, w);
  }

  lemma ExactParts(r: nat, n: nat, k: nat, b: nat, g: nat, r': nat, k': nat, u: int, v: int)
    requires r > 0 && k > 0 && n > 0 && r * n == k * b
    requires r == g * r' && k == g * k' && u * r + v * k == g
    ensures g > 0 && r' > 0 && k' > 0 && r' * n == k' * b && u * r' + v * k' == 1
  {
    Associate(g, r', n);
    Associate(g, k', b);
    assert (r' * n) * g == (k' * b) * g;
    CancelFactor(r' * n, k' * b, g);
    Combination(g, r', k', u, v);
    CancelFactor(u * r' + v * k', 1, g);
  }

  lemma Combination(g: int, r: int, k: int, u: int, v: int)
    ensures (u * r + v * k) * g == u * (g * r) + v * (g * k)
  {
  }

  lemma ExactResult(r: int, k: int, n: int, b: int, w: int)
    requires k > 0 && n > 0 && n == k * w && r * n == k * b
    ensures w > 0 && r * w == b
  {
    if w <= 0 { NotPositive(k, w); }
    assert (r * w) * k == r * n by { Associate(r, w, k); }
    CancelFactor(r * w, b, k);
  }

  lemma NotPositive(k: int, w: int)
    requires k > 0 && w <= 0
    ensures k * w <= 0
  {
  }

  lemma QuotientOf(n: int, d: int, q: int)
    requires d > 0 && n == d * q
    ensures n / d == q && n % d == 0
  {
    assert n % d == 0 by { MultipleRemainder(d, q); }
    assert n == d * (n / d) + n % d;
    CancelFactor(n / d, q, d);
  }

  lemma MultipleRemainder(d: int, q: int)
    requires d > 0
    ensures (d * q) % d == 0
  {
    var x, y := (d * q) / d, (d * q) % d;
    assert d * q == d * x + y;
    assert y == d * (q - x);
    if q - x >= 1 {
      MulAtMost(1, q - x, d);
    } else if q - x <= -1 {
      MulAtMost(q - x, -1, d);
    }
  }

  lemma {:induction false} FactorialMonotone(m: nat, n: nat)
    requires m <= n
    ensures Factorial(m) <= Factorial(n)
    decreases n - m
  {
    if m < n {
      FactorialMonotone(m, n - 1);
      MulAtMost(1, n, Factorial(n - 1));
    }
  }
}
