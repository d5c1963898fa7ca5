/** The overflow-checked counts of src/CombinatoricUtils.hpp. UInt holds 0 to max. */
module Counting {
  import opened Arithmetic

  /** A count, or the overflow_error that is thrown instead. */
  datatype Count = Count(value: nat) | Overflow

  /** c is num / den, exactly, or an overflow that happens just when this exceeds max. */
  ghost predicate IsQuotient(c: Count, num: nat, den: nat, max: nat) {
    match c
    case Count(v) => v <= max && v * den == num
    case Overflow => num > max * den
  }

  /** Euclid's algorithm. */
  method ComputeGcd(x: nat, y: nat) returns (g: nat)
    ensures Divides(g, x) && Divides(g, y)
    ensures forall d :: Divides(d, x) && Divides(d, y) ==> Divides(d, g)
    ensures g == Gcd(x, y)
  {
    var a, b := x, y;
    while b != 0
      invariant Gcd(a, b) == Gcd(x, y)
      decreases b
    {
      a, b := b, a % b;
    }
    g := a;
    var p, q := GcdDivides(x, y);
    assert x == g * p && y == g * q;
    forall d | Divides(d, x) && Divides(d, y) ensures Divides(d, g) { GcdGreatest(x, y, d); }
  }

  /** r exceeds max / n exactly when r * n exceeds max. */
  lemma OverflowTest(r: nat, n: nat, max: nat)
    requires n > 0
    ensures r > max / n <==> r * n > max
  {
    var q := max / n;
    assert max == n * q + max % n;
    if r > q {
      MulAtMost(q + 1, r, n);
    } else {
      MulAtMost(r, q, n);
    }
  }

  lemma Quotient(v: nat, num: nat, den: nat, max: nat)
    requires v * den == num && den > 0
    ensures IsQuotient(if v > max then Overflow else Count(v), num, den, max)
  {
    if v > max { MulLess(den, max, v); }
  }

  // ----- count_each_combination

  /** r * n / k, which is b, without leaving UInt unless b does. */
  method MultiplyDivide(r: nat, n: nat, k: nat, max: nat, ghost b: nat) returns (c: Count)
    requires r > 0 && n > 0 && k > 0 && r * n == k * b
    ensures c == if b > max then Overflow else Count(b)
  {
    hide Gcd;
    ExactStep(r, n, k, b);
    var g := ComputeGcd(r, k);
    var t := n / (k / g);
    OverflowTest(r / g, t, max);
    if r / g > max / t {
      return Overflow;
    }
    c := Count(r / g * t);
  }

  method CountEachCombination(d1: nat, d2: nat, max: nat) returns (c: Count)
    requires d1 <= max && d2 <= max && max >= 1
    ensures IsQuotient(c, Factorial(d1 + d2), Factorial(d1) * Factorial(d2), max)
    ensures c == if Binomial(d1 + d2, d1) > max then Overflow else Count(Binomial(d1 + d2, d1))
  {
    hide Factorial, Binomial, IsQuotient;
    var e1, e2 := d1, d2;
    if e2 < e1 {
      e1, e2 := e2, e1;
    }
    CombinationQuotient(d1, d2, max);
    BinomialSymmetric(d1 + d2, d1);
    BinomialZero(e1 + e2);
    if e1 == 0 {
      return Count(1);
    }
    BinomialOne(e1 + e2);
    BinomialMonotone(e1 + e2, 1, e1);
    if e1 > max - e2 {
      return Overflow;
    }
    ghost var all := e1 + e2;
    var n := e1 + e2;
    var r := n;
    n := n - 1;
    var k := 2;
    while k <= e1
      invariant 2 <= k <= e1 + 1 && n == all - k + 1
      invariant r == Binomial(all, k - 1) && 0 < r <= max
    {
      BinomialStep(all, k);
      BinomialMonotone(all, k, e1);
      BinomialMonotone(all, 0, k);
      var s := MultiplyDivide(r, n, k, max, Binomial(all, k));
      if s.Overflow? {
        return Overflow;
      }
      r := s.value;
      k, n := k + 1, n - 1;
    }
    c := Count(r);
  }

  lemma BinomialZero(n: nat)
    ensures Binomial(n, 0) == 1
  {
  }

  lemma CombinationQuotient(d1: nat, d2: nat, max: nat)
    ensures var b := Binomial(d1 + d2, d1);
      IsQuotient(if b > max then Overflow else Count(b), Factorial(d1 + d2), Factorial(d1) * Factorial(d2), max)
  {
    BinomialFactorial(d1 + d2, d1);
    hide Factorial, Binomial, IsQuotient;
    Positive(Factorial(d1), Factorial(d2));
    Quotient(Binomial(d1 + d2, d1), Factorial(d1 + d2), Factorial(d1) * Factorial(d2), max);
  }

  // ----- count_each_permutation

  /** The quotient is out of range when the part of it computed so far is: num is
      r * n * rest with rest at least den. */
  lemma TooLarge(r: nat, n: nat, rest: nat, den: nat, num: nat, max: nat)
    requires num == (r * n) * rest && rest >= den > 0 && r * n > max
    ensures num > max * den
  {
    MulAtMost(den, rest, r * n);
    MulLess(den, max, r * n);
  }

  /** A product of the numbers from n down to d2 + 1, times r. */
  method MultiplyDown(r0: nat, n0: nat, d2: nat, max: nat, ghost den: nat, ghost num: nat) returns (c: Count)
    requires d2 <= n0 && r0 <= max && num == r0 * (den * Factorial(n0)) && den > 0
    ensures match c
      case Count(r) => r <= max && num == r * (den * Factorial(d2))
      case Overflow => num > max * (den * Factorial(d2))
  {
    hide IsQuotient;
    var r, n := r0, n0;
    while n > d2
      invariant d2 <= n <= n0 && r <= max && num == r * (den * Factorial(n))
      decreases n
    {
      OverflowTest(r, n, max);
      TakeFactor(r, den, n, Factorial(n - 1));
      if r > max / n {
        FactorialMonotone(d2, n - 1);
        MulAtMost(Factorial(d2), Factorial(n - 1), den);
        Positive(den, Factorial(d2));
        TooLarge(r, n, den * Factorial(n - 1), den * Factorial(d2), num, max);
        return Overflow;
      }
      r := r * n;
      n := n - 1;
    }
    c := Count(r);
  }

  lemma TakeFactor(r: nat, den: nat, n: nat, f: nat)
    ensures r * (den * (n * f)) == (r * n) * (den * f)
  {
    assert den * (n * f) == n * (den * f) by { Swap(den, n, f); Associate(n, den, f); }
    Associate(r, n, den * f);
  }

  /** (d1 + d2)! is at least (d1 + d2) * d2!. */
  lemma FactorialGrows(d1: nat, d2: nat)
    requires d1 > 0
    ensures Factorial(d1 + d2) >= (d1 + d2) * Factorial(d2)
  {
    FactorialMonotone(d2, d1 + d2 - 1);
    MulAtMost(Factorial(d2), Factorial(d1 + d2 - 1), d1 + d2);
  }

  lemma FactorialStart()
    ensures forall n: nat {:trigger Factorial(n)} :: 1 * (1 * Factorial(n)) == Factorial(n)
  {
  }

  method CountEachPermutation(d1: nat, d2: nat, max: nat) returns (c: Count)
    requires d1 <= max && d2 <= max && max >= 1
    ensures IsQuotient(c, Factorial(d1 + d2), Factorial(d2), max)
  {
    hide Factorial;
    FactorialStart();
    if d1 > max - d2 {
      FactorialGrows(d1, d2);
      MulLess(Factorial(d2), max, d1 + d2);
      return Overflow;
    }
    c := MultiplyDown(1, d1 + d2, d2, max, 1, Factorial(d1 + d2));
  }

  // ----- count_each_circular_permutation

  /** The product of the numbers from j down to from, times r. */
  method MultiplyUpTo(r0: nat, j0: nat, from: nat, max: nat, ghost den: nat, ghost num: nat) returns (c: Count)
    requires from <= j0 + 1 && 1 <= from && r0 <= max && num == r0 * (den * Factorial(j0)) && den > 0
    ensures match c
      case Count(r) => r <= max && num == r * (den * Factorial(from - 1))
      case Overflow => num > max * (den * Factorial(from - 1))
  {
    c := MultiplyDown(r0, j0, from - 1, max, den, num);
  }

  method CountEachCircularPermutation(d1: nat, d2: nat, max: nat) returns (c: Count)
    requires d1 <= max && d2 <= max && max >= 1
    ensures d1 == 0 ==> c == Count(1)
    ensures d1 != 0 ==> IsQuotient(c, Factorial(d1 + d2), d1 * Factorial(d2), max)
  {
    if d1 == 0 {
      return Count(1);
    }
    ghost var num, den := Factorial(d1 + d2), d1 * Factorial(d2);
    Positive(d1, Factorial(d2));
    if d1 <= d2 {
      var b := CountEachCombination(d1, d2, max);
      CircularDen(d1, d2);
      if b.Overflow? {
        FactorialMonotone(0, d1 - 1);
        MulAtMost(1, Factorial(d1 - 1), den);
        MulAtMost(den, den * Factorial(d1 - 1), max);
        return Overflow;
      }
      c := MultiplyUpTo(b.value, d1 - 1, if d1 == 1 then 1 else 2, max, den, num);
    } else {
      if d1 > max - d2 {
        CircularGrows(d1, d2, max);
        return Overflow;
      }
      c := CountCircularLarge(d1, d2, max);
    }
  }

  lemma CircularDen(d1: nat, d2: nat)
    requires d1 > 0
    ensures Factorial(d1) * Factorial(d2) == (d1 * Factorial(d2)) * Factorial(d1 - 1)
  {
    Associate(d1, Factorial(d1 - 1), Factorial(d2));
    Associate(d1, Factorial(d2), Factorial(d1 - 1));
  }

  lemma CircularGrows(d1: nat, d2: nat, max: nat)
    requires d2 < d1 <= max < d1 + d2
    ensures Factorial(d1 + d2) > max * (d1 * Factorial(d2))
  {
    var n := d1 + d2;
    FactorialMonotone(d1, n - 1);
    FactorialMonotone(d2, d1 - 1);
    MulAtMost(Factorial(d2), Factorial(d1 - 1), d1);
    Positive(d1, Factorial(d2));
    TooLarge(1, n, Factorial(n - 1), d1 * Factorial(d2), Factorial(n), max);
  }

  /** The case d2 < d1: the factors d1 and d2! are left out. */
  method CountCircularLarge(d1: nat, d2: nat, max: nat) returns (c: Count)
    requires d2 < d1 && d1 + d2 <= max
    ensures IsQuotient(c, Factorial(d1 + d2), d1 * Factorial(d2), max)
  {
    ghost var num := Factorial(d1 + d2);
    FactorialMonotone(d2, d1 - 1);
    MulAtMost(Factorial(d2), Factorial(d1 - 1), d1);
    var r := MultiplyDown(1, d1 + d2, d1, max, 1, num);
    if r.Overflow? {
      MulAtMost(d1 * Factorial(d2), Factorial(d1), max);
      return Overflow;
    }
    c := MultiplyDown(r.value, d1 - 1, d2, max, d1, num);
  }

  // ----- count_each_reversible_permutation

  method CountEachReversiblePermutation(d1: nat, d2: nat, max: nat) returns (c: Count)
    requires d1 <= max && d2 <= max && max >= 1
    ensures IsQuotient(c, Factorial(d1 + d2), if d1 > 1 then 2 * Factorial(d2) else Factorial(d2), max)
  {
    var n := d1 + d2;
    ghost var num := Factorial(n);
    if d1 > max - d2 {
      ReversibleGrows(d1, d2, max);
      return Overflow;
    }
    var r := 1;
    if d1 > 1 {
      r := n;
      if n % 2 == 0 {
        r := r / 2;
      }
      n := n - 1;
      var t := n;
      if t % 2 == 0 {
        t := t / 2;
      }
      HalfProduct(d1 + d2, r, t);
      OverflowTest(r, t, max);
      ReversiblePair(d1 + d2, r, t);
      if r > max / t {
        FactorialMonotone(d2, n - 1);
        TooLarge(r, t, 2 * Factorial(n - 1), 2 * Factorial(d2), num, max);
        return Overflow;
      }
      r := r * t;
      n := n - 1;
      c := MultiplyDown(r, n, d2, max, 2, num);
    } else {
      c := MultiplyDown(r, n, d2, max, 1, num);
    }
  }

  /** Halving the even one of two neighbours halves their product. */
  lemma HalfProduct(n: nat, r: nat, t: nat)
    requires n >= 2
    requires r == (if n % 2 == 0 then n / 2 else n) && t == (if (n - 1) % 2 == 0 then (n - 1) / 2 else n - 1)
    ensures 2 * (r * t) == n * (n - 1) && t > 0
  {
    if n % 2 == 0 {
      assert n == 2 * r;
      Associate(2, r, t);
    } else {
      assert n - 1 == 2 * t;
      Swap(n, 2, t);
      Associate(2, n, t);
    }
  }

  lemma ReversiblePair(n: nat, r: nat, t: nat)
    requires n >= 2 && 2 * (r * t) == n * (n - 1)
    ensures Factorial(n) == (r * t) * (2 * Factorial(n - 2))
  {
    var f := Factorial(n - 2);
    assert Factorial(n) == n * ((n - 1) * f);
    Associate(n, n - 1, f);
    Associate(2, r * t, f);
    Swap(r * t, 2, f);
  }

  lemma ReversibleGrows(d1: nat, d2: nat, max: nat)
    requires d1 <= max && d2 <= max < d1 + d2
    ensures Factorial(d1 + d2) > max * (if d1 > 1 then 2 * Factorial(d2) else Factorial(d2))
  {
    var n := d1 + d2;
    if d1 > 1 {
      FactorialMonotone(d2, n - 2);
      MulAtMost(2, n - 1, Factorial(n - 2));
      TooLarge(1, n, Factorial(n - 1), 2 * Factorial(d2), Factorial(n), max);
    } else {
      FactorialMonotone(d2, n - 1);
      TooLarge(1, n, Factorial(n - 1), Factorial(d2), Factorial(n), max);
    }
  }

  // ----- count_each_reversible_circular_permutation

  method CountEachReversibleCircularPermutation(d1: nat, d2: nat, max: nat) returns (c: Count)
    requires d1 <= max && d2 <= max && max >= 1
    ensures d1 == 0 ==> c == Count(1)
    ensures d1 != 0 ==>
      IsQuotient(c, Factorial(d1 + d2), if d1 <= 2 then d1 * Factorial(d2) else 2 * (d1 * Factorial(d2)), max)
  {
    var b := CountEachCombination(d1, d2, max);
    if d1 == 0 {
      BinomialZero(d2);
      return b;
    }
    ghost var num, den := Factorial(d1 + d2), d1 * Factorial(d2);
    Positive(d1, Factorial(d2));
    CircularDen(d1, d2);
    if d1 <= 3 {
      assert Factorial(d1 - 1) == if d1 == 3 then 2 else 1;
      return b;
    }
    if b.Overflow? {
      FactorialMonotone(2, d1 - 1);
      MulAtMost(2, Factorial(d1 - 1), den);
      MulAtMost(2 * den, den * Factorial(d1 - 1), max);
      return Overflow;
    }
    c := MultiplyUpTo(b.value, d1 - 1, 3, max, den, num);
  }
}
