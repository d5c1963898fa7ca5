/** How many states an enumeration shows, as the counting functions say. */
module VisitCounts {
  import opened Arithmetic
  import opened Lists
  import opened Enumeration
  import opened Functors
  import opened PermutationSteps
  import opened CombinationSteps
  import opened Exactness
  import opened Exactness3
  import opened ReversibleSteps
  import opened Counting
  import opened ForEach

  lemma {:induction false} PermsCount<T>(s: seq<T>)
    ensures |Perms(s)| == Factorial(|s|)
    decreases |s|, |s| + 1
  {
    if s != [] { PermsFromCount(s, 0); }
  }

  lemma {:induction false} PermsFromCount<T>(s: seq<T>, p: nat)
    requires p <= |s| && s != []
    ensures |PermsFrom(s, p)| == (|s| - p) * Factorial(|s| - 1)
    decreases |s|, |s| - p
  {
    hide Factorial;
    if p < |s| {
      PermsCount(Without(s, p));
      PermsFromCount(s, p + 1);
      OneMore(|s| - p, Factorial(|s| - 1));
    }
  }

  lemma {:induction false} SplitsNumber<T>(s: seq<T>, k: nat)
    ensures |Splits(s, k)| == Binomial(|s|, k)
    decreases |s|
  {
    hide Splits;
    if k == 0 {
      SplitsEnds(s, k);
    } else if k > |s| {
      SplitsEnds(s, k);
      BinomialBeyond(|s|, k);
    } else if k == |s| {
      SplitsEnds(s, k);
      BinomialAll(|s|);
    } else {
      SplitsCount(s, k);
      SplitsNumber(s[1..], k - 1);
      SplitsNumber(s[1..], k);
    }
  }

  lemma {:induction false} Splits3Number<T>(p: seq<T>, q: seq<T>, k: nat)
    requires Splittable(p, q, k)
    ensures |Splits3(p, q, k)| == Binomial(|p| + |q|, k)
    decreases |p|
  {
    hide Splits3, Splits;
    Counts(p, q, k);
    if k == 1 {
      SplitsNumber(p, 1);
      SplitsNumber(q, 1);
      BinomialOne(|p|);
      BinomialOne(|q|);
      BinomialOne(|p| + |q|);
    } else if k == |p| {
      SplitsNumber(p + q, k);
    } else {
      Splits3Number(p[1..], q, k - 1);
      Splits3Number(p[1..], q, k);
    }
  }

  /** Half of m!. */
  function HalfFactorial(m: nat): nat
    requires m >= 2
  {
    if m % 2 == 0 then (m / 2) * Factorial(m - 1) else (m / 2) * (m * Factorial(m - 2))
  }

  lemma HalfFactorialDoubled(m: nat)
    requires m >= 2
    ensures 2 * HalfFactorial(m) == Factorial(m)
  {
    if m % 2 == 0 {
      Associate(2, m / 2, Factorial(m - 1));
    } else {
      var f := Factorial(m - 2);
      assert Factorial(m) == m * ((m - 1) * f);
      Associate(2, m / 2, m * f);
      Swap(m - 1, m, f);
      Associate(m, m - 1, f);
    }
  }

  /** The number of states that f shows. */
  function ShownBy(f: Functor, n: nat): nat
    requires Valid(f, n)
  {
    match f
    case BoundRange => 1
    case CallPermute(lo, hi, g) => Factorial(hi - lo) * ShownBy(g, n)
    case CallCombine(lo1, hi1, lo2, hi2, g) => Binomial(hi1 - lo1 + (hi2 - lo2), hi1 - lo1) * ShownBy(g, n)
    case CallCombine3(lo1, hi1, lo2, hi2, lo3, hi3, g) =>
      Binomial(hi1 - lo1 + (hi2 - lo2) + (hi3 - lo3), hi1 - lo1) *
      (Binomial(hi2 - lo2 + (hi3 - lo3), hi2 - lo2) * ShownBy(g, n))
    case CircularPermutation(lo, hi, g) => (if hi - lo <= 1 then 1 else Factorial(hi - lo - 1)) * ShownBy(g, n)
    case ReversiblePermutation(lo, hi, g) => (if hi - lo < 2 then 1 else HalfFactorial(hi - lo)) * ShownBy(g, n)
    case ReverseCircularPermutation(lo, hi, g) =>
      (if hi - lo <= 2 then 1 else HalfFactorial(hi - lo - 1)) * ShownBy(g, n)
  }

  ghost predicate EachShows<T(!new)>(g: Functor, n: nat, c: nat) {
    forall st: seq<T> {:trigger Visits(g, st)} :: |st| == n ==> |Visits(g, st)| == c
  }

  ghost predicate AllOfSize<T>(sts: seq<seq<T>>, n: nat) {
    forall st <- sts :: |st| == n
  }

  lemma {:induction false} EachCount<T(!new)>(g: Functor, sts: seq<seq<T>>, n: nat, c: nat)
    requires EachShows<T>(g, n, c) && AllOfSize(sts, n)
    ensures |VisitsEach(g, sts)| == |sts| * c
    decreases |sts|
  {
    hide Visits;
    if sts == [] {
    } else {
      EachCount(g, sts[1..], n, c);
      OneMore(|sts|, c);
    }
  }

  lemma {:induction false} PutEachSize<T>(s: seq<T>, lo: nat, ts: seq<seq<T>>)
    ensures AllOfSize(PutEach(s, lo, ts), |s|)
    decreases |ts|
  {
    hide Put;
    if ts != [] { PutEachSize(s, lo, ts[1..]); }
  }

  lemma {:induction false} FillEachSize<T>(s: seq<T>, lo1: nat, lo2: nat, ps: seq<Split<T>>)
    ensures AllOfSize(FillEach(s, lo1, lo2, ps), |s|)
    decreases |ps|
  {
    hide Put;
    if ps != [] { FillEachSize(s, lo1, lo2, ps[1..]); }
  }

  lemma {:induction false} Fill3EachSize<T>(s: seq<T>, lo1: nat, lo2: nat, lo3: nat, ps: seq<Split3<T>>)
    ensures AllOfSize(Fill3Each(s, lo1, lo2, lo3, ps), |s|)
    decreases |ps|
  {
    hide Put;
    if ps != [] { Fill3EachSize(s, lo1, lo2, lo3, ps[1..]); }
  }

  lemma PermuteCount<T(!new)>(lo: nat, hi: nat, g: Functor, s: seq<T>, c: nat)
    requires lo <= hi <= |s| && Valid(g, |s|) && EachShows<T>(g, |s|, c)
    ensures |Visits(CallPermute(lo, hi, g), s)| == Factorial(hi - lo) * c
  {
    hide Visits, VisitsEach, PutEach, Perms, EachShows, AllOfSize;
    PermuteVisits(g, s, lo, hi);
    PutEachSize(s, lo, Perms(s[lo..hi]));
    EachCount(g, PutEach(s, lo, Perms(s[lo..hi])), |s|, c);
    PermsCount(s[lo..hi]);
  }

  lemma CombineCount<T(!new)>(lo1: nat, hi1: nat, lo2: nat, hi2: nat, g: Functor, s: seq<T>, c: nat)
    requires lo1 <= hi1 <= lo2 <= hi2 <= |s| && Valid(g, |s|) && EachShows<T>(g, |s|, c)
    ensures |Visits(CallCombine(lo1, hi1, lo2, hi2, g), s)| == Binomial(hi1 - lo1 + (hi2 - lo2), hi1 - lo1) * c
  {
    hide Visits, VisitsEach, FillEach, Splits, EachShows, AllOfSize;
    var ps := Splits(Both(s, lo1, hi1, lo2, hi2), hi1 - lo1);
    CombineVisits(g, s, lo1, hi1, lo2, hi2);
    FillEachSize(s, lo1, lo2, ps);
    EachCount(g, FillEach(s, lo1, lo2, ps), |s|, c);
    SplitsNumber(Both(s, lo1, hi1, lo2, hi2), hi1 - lo1);
  }

  lemma Combine3Count<T(!new)>(lo1: nat, hi1: nat, lo2: nat, hi2: nat, lo3: nat, hi3: nat, g: Functor, s: seq<T>,
                        c: nat)
    requires lo1 < hi1 <= lo2 < hi2 <= lo3 < hi3 <= |s| && Valid(g, |s|)
    requires EachShows<T>(CallCombine(lo2, hi2, lo3, hi3, g), |s|, c)
    ensures |Visits(CallCombine3(lo1, hi1, lo2, hi2, lo3, hi3, g), s)|
      == Binomial(hi1 - lo1 + (hi2 - lo2) + (hi3 - lo3), hi1 - lo1) * c
  {
    hide Visits, VisitsEach, Fill3Each, Splits3, EachShows, AllOfSize;
    var p, q := Both(s, lo1, hi1, lo2, hi2), s[lo3..hi3];
    Combine3Visits(g, s, lo1, hi1, lo2, hi2, lo3, hi3);
    Fill3EachSize(s, lo1, lo2, lo3, Splits3(p, q, hi1 - lo1));
    EachCount(CallCombine(lo2, hi2, lo3, hi3, g), Fill3Each(s, lo1, lo2, lo3, Splits3(p, q, hi1 - lo1)), |s|, c);
    Splits3Number(p, q, hi1 - lo1);
  }

  // ----- reversible permutations

  /** rev2 and rev3 over windows of given sizes. */
  lemma Rev2Count<T(!new)>(lo1: nat, hi1: nat, lo2: nat, hi2: nat, g: Functor, s: seq<T>, c: nat)
    requires lo1 <= hi1 <= lo2 <= hi2 <= |s| && Valid(g, |s|) && EachShows<T>(g, |s|, c)
    ensures EachShows<T>(Rev2(lo1, hi1, lo2, hi2, g), |s|, Factorial(hi1 - lo1) * (Factorial(hi2 - lo2) * c))
  {
    hide Visits;
    forall st: seq<T> | |st| == |s|
      ensures |Visits(Rev2(lo1, hi1, lo2, hi2, g), st)| == Factorial(hi1 - lo1) * (Factorial(hi2 - lo2) * c)
    {
      forall st': seq<T> | |st'| == |s| ensures |Visits(CallPermute(lo2, hi2, g), st')| == Factorial(hi2 - lo2) * c {
        PermuteCount(lo2, hi2, g, st', c);
      }
      PermuteCount(lo1, hi1, CallPermute(lo2, hi2, g), st, Factorial(hi2 - lo2) * c);
    }
  }

  /** Combining two windows and permuting both shows all arrangements of them. */
  lemma CombinePermuteCount<T(!new)>(lo1: nat, hi1: nat, lo2: nat, hi2: nat, g: Functor, s: seq<T>, c: nat)
    requires lo1 <= hi1 <= lo2 <= hi2 <= |s| && Valid(g, |s|) && EachShows<T>(g, |s|, c)
    ensures |Visits(CallCombine(lo1, hi1, lo2, hi2, Rev2(lo1, hi1, lo2, hi2, g)), s)|
      == Factorial(hi1 - lo1 + (hi2 - lo2)) * c
  {
    hide Visits, EachShows, Rev2, Factorial, Binomial;
    var d1, d2 := hi1 - lo1, hi2 - lo2;
    Rev2Count(lo1, hi1, lo2, hi2, g, s, c);
    CombineCount(lo1, hi1, lo2, hi2, Rev2(lo1, hi1, lo2, hi2, g), s, Factorial(d1) * (Factorial(d2) * c));
    BinomialFactorial(d1 + d2, d1);
    Associate(Factorial(d1), Factorial(d2), c);
    Associate(Binomial(d1 + d2, d1), Factorial(d1) * Factorial(d2), c);
  }

  lemma Combine3PermuteCount<T(!new)>(
    lo1: nat, hi1: nat, lo2: nat, hi2: nat, lo3: nat, hi3: nat, g: Functor, s: seq<T>, c: nat)
    requires lo1 < hi1 <= lo2 < hi2 <= lo3 < hi3 <= |s| && Valid(g, |s|) && EachShows<T>(g, |s|, c)
    ensures |Visits(CallCombine3(lo1, hi1, lo2, hi2, lo3, hi3, Rev3(lo1, hi1, lo2, hi2, lo3, hi3, g)), s)|
      == Factorial(hi1 - lo1 + (hi2 - lo2) + (hi3 - lo3)) * c
  {
    hide Visits, EachShows, Rev3, Factorial, Binomial;
    var d1, d2, d3 := hi1 - lo1, hi2 - lo2, hi3 - lo3;
    var g3 := Rev3(lo1, hi1, lo2, hi2, lo3, hi3, g);
    var c3 := Factorial(d1) * (Factorial(d2) * (Factorial(d3) * c));
    Rev3Count(lo1, hi1, lo2, hi2, lo3, hi3, g, s, c);
    var b := Binomial(d2 + d3, d2) * c3;
    LastTwoCount(lo2, hi2, lo3, hi3, g3, s, c3);
    Combine3Count(lo1, hi1, lo2, hi2, lo3, hi3, g3, s, b);
    BinomialFactorial(d2 + d3, d2);
    BinomialFactorial(d1 + d2 + d3, d1);
    Trinomial(Binomial(d1 + d2 + d3, d1), Binomial(d2 + d3, d2), Factorial(d1), Factorial(d2), Factorial(d3),
      Factorial(d2 + d3), Factorial(d1 + d2 + d3), c);
  }

  lemma Rev3Count<T(!new)>(lo1: nat, hi1: nat, lo2: nat, hi2: nat, lo3: nat, hi3: nat, g: Functor, s: seq<T>, c: nat)
    requires lo1 <= hi1 <= lo2 <= hi2 <= lo3 <= hi3 <= |s| && Valid(g, |s|) && EachShows<T>(g, |s|, c)
    ensures EachShows<T>(Rev3(lo1, hi1, lo2, hi2, lo3, hi3, g), |s|,
                      Factorial(hi1 - lo1) * (Factorial(hi2 - lo2) * (Factorial(hi3 - lo3) * c)))
  {
    hide Visits, Factorial;
    var h := Rev2(lo2, hi2, lo3, hi3, g);
    var c2 := Factorial(hi2 - lo2) * (Factorial(hi3 - lo3) * c);
    Rev2Count(lo2, hi2, lo3, hi3, g, s, c);
    forall st: seq<T> | |st| == |s|
      ensures |Visits(Rev3(lo1, hi1, lo2, hi2, lo3, hi3, g), st)| == Factorial(hi1 - lo1) * c2
    {
      PermuteCount(lo1, hi1, h, st, c2);
    }
  }

  lemma LastTwoCount<T(!new)>(lo2: nat, hi2: nat, lo3: nat, hi3: nat, g: Functor, s: seq<T>, c: nat)
    requires lo2 <= hi2 <= lo3 <= hi3 <= |s| && Valid(g, |s|) && EachShows<T>(g, |s|, c)
    ensures EachShows<T>(CallCombine(lo2, hi2, lo3, hi3, g), |s|, Binomial(hi2 - lo2 + (hi3 - lo3), hi2 - lo2) * c)
  {
    hide Visits, Binomial;
    forall st: seq<T> | |st| == |s|
      ensures |Visits(CallCombine(lo2, hi2, lo3, hi3, g), st)| == Binomial(hi2 - lo2 + (hi3 - lo3), hi2 - lo2) * c
    {
      CombineCount(lo2, hi2, lo3, hi3, g, st, c);
    }
  }

  lemma Trinomial(a: nat, b: nat, f1: nat, f2: nat, f3: nat, f23: nat, all: nat, c: nat)
    requires b * (f2 * f3) == f23 && a * (f1 * f23) == all
    ensures a * (b * (f1 * (f2 * (f3 * c)))) == all * c
  {
    Associate(f2, f3, c);
    Swap(b, f1, (f2 * f3) * c);
    Associate(f1, b, (f2 * f3) * c);
    Associate(b, f2 * f3, c);
    Associate(f1, f23, c);
    Associate(a, f1 * f23, c);
  }

  lemma {:induction false} FirstMovedCount<T(!new)>(lo: nat, hi: nat, g: Functor, s: seq<T>, i: nat, c: nat)
    requires 1 <= i <= (hi - lo) / 2 && lo + 3 <= hi <= |s| && Valid(g, |s|) && EachShows<T>(g, |s|, c)
    ensures |FirstMovedFrom(lo, hi, g, s, i)| == ((hi - lo) / 2 - i) * (Factorial(hi - lo - 1) * c)
    decreases hi - i
  {
    hide Visits, EachShows, Rev2, FirstMoved, Factorial;
    if i < (hi - lo) / 2 {
      var st := FirstMoved(s, lo, i);
      CombinePermuteCount(lo, lo + i, lo + i + 1, hi, g, st, c);
      FirstMovedCount(lo, hi, g, s, i + 1, c);
      OneMore((hi - lo) / 2 - i, Factorial(hi - lo - 1) * c);
    }
  }

  lemma OneMore(k: int, c: int)
    ensures k * c == c + (k - 1) * c
  {
  }

  lemma {:induction false} SecondMovedCount<T(!new)>(lo: nat, hi: nat, g: Functor, mid: seq<T>, i: nat, c: nat)
    requires 1 <= i <= (hi - lo) / 2 - 1 && lo + 3 < hi <= |mid| && Valid(g, |mid|) && EachShows<T>(g, |mid|, c)
    ensures |SecondMovedFrom(lo, hi, g, mid, i)| == ((hi - lo) / 2 - 1 - i) * (Factorial(hi - lo - 2) * c)
    decreases hi - i
  {
    hide Visits, EachShows, Rev3, FirstMoved, Factorial;
    var m := lo + (hi - lo) / 2;
    if i < m - lo - 1 {
      var st := FirstMoved(mid, lo, i);
      Combine3PermuteCount(lo, lo + i, lo + i + 1, m, m + 1, hi, g, st, c);
      SecondMovedCount(lo, hi, g, mid, i + 1, c);
      OneMore((hi - lo) / 2 - 1 - i, Factorial(hi - lo - 2) * c);
    }
  }

  lemma MiddleCount<T(!new)>(lo: nat, hi: nat, g: Functor, s: seq<T>, c: nat)
    requires lo + 3 <= hi <= |s| && Valid(g, |s|) && EachShows<T>(g, |s|, c)
    ensures |FirstInMiddle(lo, hi, g, s)|
      == if (hi - lo) % 2 == 0 then 0 else ((hi - lo) / 2) * (Factorial(hi - lo - 2) * c)
  {
    hide Visits, Rev2, FirstMoved, FirstInMiddle, SecondMovedFrom;
    if (hi - lo) % 2 == 0 || hi - lo == 3 {
      NoMiddle(g, s, lo, hi);
      assert Factorial(1) == 1;
    } else {
      var m := lo + (hi - lo) / 2;
      var mid := FirstMoved(s, lo, m - lo);
      var end := FirstMoved(mid, lo, m - lo - 1);
      InMiddleParts(g, s, lo, hi);
      CombinePermuteCount(lo + 1, m, m + 1, hi, g, mid, c);
      SecondMovedCount(lo, hi, g, mid, 1, c);
      CombinePermuteCount(lo, m - 1, m + 1, hi, g, end, c);
      OneMore(m - lo, Factorial(hi - lo - 2) * c);
      OneMore(m - lo - 1, Factorial(hi - lo - 2) * c);
    }
  }

  lemma ReversibleCount<T(!new)>(lo: nat, hi: nat, g: Functor, s: seq<T>, c: nat)
    requires lo + 3 <= hi <= |s| && Valid(g, |s|) && EachShows<T>(g, |s|, c)
    ensures |Visits(ReversiblePermutation(lo, hi, g), s)| == HalfFactorial(hi - lo) * c
  {
    hide Visits, EachShows, FirstMovedFrom, FirstInMiddle;
    var m := hi - lo;
    ReversibleVisits(g, s, lo, hi);
    PermuteCount(lo + 1, hi, g, s, c);
    FirstMovedCount(lo, hi, g, s, 1, c);
    MiddleCount(lo, hi, g, s, c);
    OneMore(m / 2, Factorial(m - 1) * c);
    HalfSum(m, Factorial(m - 2), c);
  }

  lemma HalfSum(m: nat, f: nat, c: nat)
    requires m >= 3
    ensures m % 2 == 0 ==> (m / 2) * (((m - 1) * f) * c) == ((m / 2) * ((m - 1) * f)) * c
    ensures m % 2 == 1 ==> (m / 2) * (((m - 1) * f) * c) + (m / 2) * (f * c) == ((m / 2) * (m * f)) * c
  {
    var h := m / 2;
    Associate(h, (m - 1) * f, c);
    Associate(h, m * f, c);
    assert (m - 1) * f + f == m * f;
    assert ((m - 1) * f) * c + f * c == (m * f) * c;
    assert h * (((m - 1) * f) * c) + h * (f * c) == h * ((m * f) * c);
  }

  // ----- all function objects

  /** An enumeration shows the same number of states wherever it starts. */
  lemma {:induction false} ShownCount<T(!new)>(f: Functor, s: seq<T>)
    requires Valid(f, |s|)
    ensures |Visits(f, s)| == ShownBy(f, |s|)
    decreases Rank(f), 0
  {
    hide HalfFactorial, Factorial, Binomial, FirstMovedFrom, FirstInMiddle, VisitsEach, PutEach, FillEach, Fill3Each,
         Perms, Splits, Splits3;
    match f
    case BoundRange =>
    case CallPermute(lo, hi, g) =>
      ShownEach(g, s);
      PermuteCount(lo, hi, g, s, ShownBy(g, |s|));
    case CallCombine(lo1, hi1, lo2, hi2, g) =>
      ShownEach(g, s);
      CombineCount(lo1, hi1, lo2, hi2, g, s, ShownBy(g, |s|));
    case CallCombine3(lo1, hi1, lo2, hi2, lo3, hi3, g) =>
      var h := CallCombine(lo2, hi2, lo3, hi3, g);
      ShownEach(h, s);
      Combine3Count(lo1, hi1, lo2, hi2, lo3, hi3, g, s, ShownBy(h, |s|));
    case CircularPermutation(lo, hi, g) =>
      ShownEach(g, s);
      if hi - lo <= 1 { ShownCount(g, s); } else { PermuteCount(lo + 1, hi, g, s, ShownBy(g, |s|)); }
    case ReversiblePermutation(lo, hi, g) =>
      ShownEach(g, s);
      if hi - lo < 3 {
        ShownCount(g, s);
        HalfOfTwo();
      } else {
        ReversibleCount(lo, hi, g, s, ShownBy(g, |s|));
      }
    case ReverseCircularPermutation(lo, hi, g) =>
      if hi - lo == 1 { ShownCount(g, s); } else { ShownCount(ReversiblePermutation(lo + 1, hi, g), s); }
  }

  lemma HalfOfTwo()
    ensures HalfFactorial(2) == 1
  {
    assert Factorial(1) == 1 * Factorial(0);
  }

  lemma {:induction false} ShownEach<T(!new)>(g: Functor, s: seq<T>)
    requires Valid(g, |s|)
    ensures EachShows<T>(g, |s|, ShownBy(g, |s|))
    decreases Rank(g), 1
  {
    hide Visits;
    forall st: seq<T> | |st| == |s| ensures |Visits(g, st)| == ShownBy(g, |s|) { ShownCount(g, st); }
  }

  // ----- the counting functions compute these numbers

  /** The numbers of states, as the documented quotients of factorials. */
  lemma Quotients<T(!new)>(s: seq<T>, d1: nat)
    requires d1 <= |s|
    ensures var d2, all := |s| - d1, Factorial(|s|);
      && |Visits(AllCombinations(d1, |s|), s)| * (Factorial(d1) * Factorial(d2)) == all
      && |Visits(AllPermutations(d1, |s|), s)| * Factorial(d2) == all
      && |Visits(AllCircular(0, |s|), s)| == 1
      && (d1 > 0 ==> |Visits(AllCircular(d1, |s|), s)| * (d1 * Factorial(d2)) == all)
      && |Visits(AllReversible(d1, |s|), s)| * (if d1 > 1 then 2 * Factorial(d2) else Factorial(d2)) == all
      && (d1 > 0 ==>
            |Visits(AllReversibleCircular(d1, |s|), s)|
            * (if d1 <= 2 then d1 * Factorial(d2) else 2 * (d1 * Factorial(d2)))
            == all)
  {
    hide Visits, Factorial, Binomial, HalfFactorial;
    var n, d2 := |s|, |s| - d1;
    var b := Binomial(n, d1);
    ShownCount(AllCombinations(d1, n), s);
    ShownCount(AllPermutations(d1, n), s);
    ShownCount(AllCircular(d1, n), s);
    ShownCount(AllReversible(d1, n), s);
    BinomialFactorial(n, d1);
    Associate(b, Factorial(d1), Factorial(d2));
    OneCircular(s);
    if d1 > 0 {
      ReversibleCircularQuotient(s, d1);
      FactorialStep(d1);
      CircularDen(d1, d2);
      var f := Factorial(d1 - 1);
      assert (b * f) * (d1 * Factorial(d2)) == b * (f * (d1 * Factorial(d2))) by {
        Associate(b, f, d1 * Factorial(d2));
      }
    }
    if d1 > 1 {
      HalfFactorialDoubled(d1);
      var h := HalfFactorial(d1);
      assert (b * h) * (2 * Factorial(d2)) == b * (h * (2 * Factorial(d2))) by { Associate(b, h, 2 * Factorial(d2)); }
      Swap(h, 2, Factorial(d2));
    } else {
      FactorialSmall(d1);
    }
  }

  /** With no element chosen there is one circular arrangement. */
  lemma OneCircular<T(!new)>(s: seq<T>)
    ensures |Visits(AllCircular(0, |s|), s)| == 1
  {
    hide Visits;
    assert Valid(BoundRange, |s|) && Valid(CircularPermutation(0, 0, BoundRange), |s|);
    ShownCount(AllCircular(0, |s|), s);
    assert ShownBy(CircularPermutation(0, 0, BoundRange), |s|) == 1 * ShownBy(BoundRange, |s|);
    BinomialZero(|s|);
  }

  /** Half of the circular ones, if there are three or more elements. */
  lemma ReversibleCircularQuotient<T(!new)>(s: seq<T>, d1: nat)
    requires 0 < d1 <= |s|
    ensures var d2 := |s| - d1;
      |Visits(AllReversibleCircular(d1, |s|), s)| * (if d1 <= 2 then d1 * Factorial(d2) else 2 * (d1 * Factorial(d2)))
        == Factorial(|s|)
  {
    hide Visits, Factorial, Binomial, HalfFactorial;
    var n := |s|;
    assert Valid(BoundRange, n) && Valid(ReverseCircularPermutation(0, d1, BoundRange), n);
    ShownCount(AllReversibleCircular(d1, n), s);
    var c := if d1 <= 2 then 1 else HalfFactorial(d1 - 1);
    assert ShownBy(ReverseCircularPermutation(0, d1, BoundRange), n) == c * ShownBy(BoundRange, n);
    HalfOfCircular(n, d1, c);
  }

  lemma HalfOfCircular(n: nat, d1: nat, c: nat)
    requires 0 < d1 <= n && c == if d1 <= 2 then 1 else HalfFactorial(d1 - 1)
    ensures (Binomial(n, d1) * c) * (if d1 <= 2 then d1 * Factorial(n - d1) else 2 * (d1 * Factorial(n - d1)))
      == Factorial(n)
  {
    hide Factorial, Binomial, HalfFactorial;
    var b, f, den := Binomial(n, d1), Factorial(n - d1), d1 * Factorial(n - d1);
    BinomialFactorial(n, d1);
    Associate(b, Factorial(d1), f);
    FactorialStep(d1);
    if d1 <= 2 {
      if d1 == 2 { FactorialStep(1); }
    } else {
      HalfFactorialDoubled(d1 - 1);
      CircularDen(d1, n - d1);
      Associate(b, c, 2 * den);
      Associate(c, 2, den);
    }
  }

  lemma FactorialStep(n: nat)
    requires n > 0
    ensures Factorial(n) == n * Factorial(n - 1) && (n == 1 ==> Factorial(n - 1) == 1)
  {
  }

  lemma FactorialSmall(n: nat)
    requires n <= 1
    ensures Factorial(n) == 1
  {
    if n == 1 { assert Factorial(1) == 1 * Factorial(0); }
  }

  /** What the enumeration shows can be counted before it is run. */
  method CountShown<T(!new)>(a: array<T>, mid: nat, max: nat)
    returns (combinations: Count, permutations: Count, circular: Count, reversible: Count, reversibleCircular: Count)
    requires mid <= a.Length && a.Length <= max && max >= 1
    ensures ghost var n, s := a.Length, a[..];
      && (combinations.Count? ==> combinations.value == |Visits(AllCombinations(mid, n), s)|)
      && (permutations.Count? ==> permutations.value == |Visits(AllPermutations(mid, n), s)|)
      && (circular.Count? ==> circular.value == |Visits(AllCircular(mid, n), s)|)
      && (reversible.Count? ==> reversible.value == |Visits(AllReversible(mid, n), s)|)
      && (reversibleCircular.Count? && mid > 0 ==>
            reversibleCircular.value == |Visits(AllReversibleCircular(mid, n), s)|)
  {
    hide Visits, Factorial, Binomial;
    var d2 := a.Length - mid;
    combinations := CountEachCombination(mid, d2, max);
    permutations := CountEachPermutation(mid, d2, max);
    circular := CountEachCircularPermutation(mid, d2, max);
    reversible := CountEachReversiblePermutation(mid, d2, max);
    reversibleCircular := CountEachReversibleCircularPermutation(mid, d2, max);
    ghost var s := a[..];
    Quotients(s, mid);
    Positive(Factorial(mid), Factorial(d2));
    if combinations.Count? {
      CancelFactor(combinations.value, |Visits(AllCombinations(mid, |s|), s)|, Factorial(mid) * Factorial(d2));
    }
    if permutations.Count? {
      CancelFactor(permutations.value, |Visits(AllPermutations(mid, |s|), s)|, Factorial(d2));
    }
    if circular.Count? && mid > 0 {
      Positive(mid, Factorial(d2));
      CancelFactor(circular.value, |Visits(AllCircular(mid, |s|), s)|, mid * Factorial(d2));
    }
    if reversibleCircular.Count? && mid > 0 {
      Positive(mid, Factorial(d2));
      CancelFactor(reversibleCircular.value, |Visits(AllReversibleCircular(mid, |s|), s)|,
                   if mid <= 2 then mid * Factorial(d2) else 2 * (mid * Factorial(d2)));
    }
    if reversible.Count? {
      CancelFactor(reversible.value, |Visits(AllReversible(mid, |s|), s)|,
                   if mid > 1 then 2 * Factorial(d2) else Factorial(d2));
    }
  }
}
