/** The splits over three windows: each choice from the first window on exactly once, with
    the elements left over in the other two. While the choice is a single element, the last
    two elements of the first window can be apart. */
module Exactness3 {
  import opened Lists
  import opened Enumeration
  import opened Functors
  import opened PermutationSteps
  import opened CombinationSteps
  import opened Exactness
  import opened VisitsExact

  ghost predicate Splittable<T>(p: seq<T>, q: seq<T>, k: nat) {
    1 <= k <= |p| && (k == 1 ==> k < |p|) && q != []
  }

  lemma {:induction false} OnlyFirstAt<T>(ps: seq<Split<T>>, q: seq<T>, i: nat)
    requires i < |ps|
    ensures OnlyFirst(ps, q)[i] == Split3(ps[i].chosen, ps[i].rest, q)
    decreases i
  {
    if i > 0 { OnlyFirstAt(ps[1..], q, i - 1); }
  }

  lemma {:induction false} OnlySecondAt<T>(ps: seq<Split<T>>, i: nat)
    requires i < |ps|
    ensures OnlySecond(ps)[i] == Split3(ps[i].chosen, [], ps[i].rest)
    decreases i
  {
    if i > 0 { OnlySecondAt(ps[1..], i - 1); }
  }

  lemma {:induction false} Swapped3At<T>(rest1: seq<T>, x: T, ps: seq<Split<T>>, i: nat)
    requires i < |ps|
    ensures Swapped3(rest1, x, ps)[i] == Split3(ps[i].chosen, rest1, [x] + ps[i].rest)
    decreases i
  {
    if i > 0 { Swapped3At(rest1, x, ps[1..], i - 1); }
  }

  lemma {:induction false} ChooseHead3At<T>(x: T, ps: seq<Split3<T>>, i: nat)
    requires i < |ps|
    ensures ChooseHead3(x, ps)[i] == Split3([x] + ps[i].chosen, ps[i].rest1, ps[i].rest2)
    decreases i
  {
    if i > 0 { ChooseHead3At(x, ps[1..], i - 1); }
  }

  lemma {:induction false} LeaveOut3At<T>(pre: seq<T>, ps: seq<Split3<T>>, i: nat)
    requires i < |ps|
    ensures LeaveOut3(pre, ps)[i] == Split3(ps[i].chosen, pre + ps[i].rest1, ps[i].rest2)
    decreases i
  {
    if i > 0 { LeaveOut3At(pre, ps[1..], i - 1); }
  }

  // ----- the three forms of an entry

  lemma CasesOne<T>(p: seq<T>, q: seq<T>, i: nat)
    requires Splittable(p, q, 1) && i < |Splits3(p, q, 1)|
    ensures var x, y, n := Splits(p, 1), Splits(q, 1), |p| - 2;
      && |Splits3(p, q, 1)| == |x| + |y|
      && Splits3(p, q, 1)[i] ==
         if i < |x| then Split3(x[i].chosen, x[i].rest, q)
         else Split3(y[i - |x|].chosen, p[..n] + [p[n + 1]], [p[n]] + y[i - |x|].rest)
  {
    hide OnlyFirst, Swapped3, Splits;
    var x, y, n := Splits(p, 1), Splits(q, 1), |p| - 2;
    if i < |x| { OnlyFirstAt(x, q, i); } else { Swapped3At(p[..n] + [p[n + 1]], p[n], y, i - |x|); }
  }

  lemma CasesAll<T>(p: seq<T>, q: seq<T>, i: nat)
    requires |p| > 1 && i < |Splits3(p, q, |p|)|
    ensures var x := Splits(p + q, |p|);
      |Splits3(p, q, |p|)| == |x| && Splits3(p, q, |p|)[i] == Split3(x[i].chosen, [], x[i].rest)
  {
    hide OnlySecond, Splits;
    OnlySecondAt(Splits(p + q, |p|), i);
  }

  lemma CasesSome<T>(p: seq<T>, q: seq<T>, k: nat, i: nat)
    requires 1 < k < |p| && i < |Splits3(p, q, k)|
    ensures var x, y := Splits3(p[1..], q, k - 1), Splits3(p[1..], q, k);
      && |Splits3(p, q, k)| == |x| + |y|
      && Splits3(p, q, k)[i] ==
         if i < |x| then Split3([p[0]] + x[i].chosen, x[i].rest1, x[i].rest2)
         else Split3(y[i - |x|].chosen, [p[0]] + y[i - |x|].rest1, y[i - |x|].rest2)
  {
    hide ChooseHead3, LeaveOut3;
    var x, y := Splits3(p[1..], q, k - 1), Splits3(p[1..], q, k);
    if i < |x| { ChooseHead3At(p[0], x, i); } else { LeaveOut3At([p[0]], y, i - |x|); }
  }

  lemma Counts<T>(p: seq<T>, q: seq<T>, k: nat)
    requires Splittable(p, q, k)
    ensures |Splits3(p, q, k)| ==
      if k == 1 then |Splits(p, 1)| + |Splits(q, 1)|
      else if k == |p| then |Splits(p + q, k)|
      else |Splits3(p[1..], q, k - 1)| + |Splits3(p[1..], q, k)|
  {
    hide ChooseHead3, LeaveOut3, OnlyFirst, Swapped3, OnlySecond, Splits;
  }

  // ----- nothing lost, every choice, none twice

  lemma SwapOneApart<T>(p: seq<T>)
    requires |p| >= 2
    ensures multiset(p) == multiset(p[..|p| - 2] + [p[|p| - 1]]) + multiset{p[|p| - 2]}
  {
    var n := |p| - 2;
    MultisetWithout(p, n);
    assert Without(p, n) == p[..n] + [p[n + 1]];
  }

  lemma Regroup<T>(x: multiset<T>, a: multiset<T>, b: multiset<T>, c: multiset<T>, p: multiset<T>, q: multiset<T>)
    requires a + b + c == p + q
    ensures (x + a) + b + c == (x + p) + q && a + (x + b) + c == (x + p) + q
  {
    assert (x + a) + b + c == x + (a + b + c) == a + (x + b) + c;
    assert (x + p) + q == x + (p + q);
  }

  lemma {:induction false} Splits3Part<T>(p: seq<T>, q: seq<T>, k: nat, i: nat)
    requires Splittable(p, q, k) && i < |Splits3(p, q, k)|
    ensures var e := Splits3(p, q, k)[i];
      multiset(e.chosen) + multiset(e.rest1) + multiset(e.rest2) == multiset(p) + multiset(q)
    decreases |p|
  {
    hide Splits3, Splits;
    if k == 1 {
      CasesOne(p, q, i);
      var n := |Splits(p, 1)|;
      if i < n {
        SplitsPart(p, 1, i);
      } else {
        SplitsPart(q, 1, i - n);
        SwapOneApart(p);
      }
    } else if k == |p| {
      CasesAll(p, q, i);
      SplitsPart(p + q, k, i);
    } else {
      CasesSome(p, q, k, i);
      MultisetCons(p);
      var x := Splits3(p[1..], q, k - 1);
      if i < |x| {
        Splits3Part(p[1..], q, k - 1, i);
        assert multiset([p[0]] + x[i].chosen) == multiset{p[0]} + multiset(x[i].chosen);
        Regroup(multiset{p[0]}, multiset(x[i].chosen), multiset(x[i].rest1), multiset(x[i].rest2), multiset(p[1..]),
                multiset(q));
      } else {
        var e := Splits3(p[1..], q, k)[i - |x|];
        Splits3Part(p[1..], q, k, i - |x|);
        assert multiset([p[0]] + e.rest1) == multiset{p[0]} + multiset(e.rest1);
        Regroup(multiset{p[0]}, multiset(e.chosen), multiset(e.rest1), multiset(e.rest2), multiset(p[1..]),
                multiset(q));
      }
    }
  }

  lemma {:induction false} Splits3Complete<T>(p: seq<T>, q: seq<T>, k: nat, m: multiset<T>) returns (i: nat)
    requires Splittable(p, q, k) && m <= multiset(p) + multiset(q) && |m| == k
    ensures i < |Splits3(p, q, k)| && multiset(Splits3(p, q, k)[i].chosen) == m
    decreases |p|
  {
    hide Splits3, Splits;
    if k == 1 {
      i := Splits3CompleteOne(p, q, m);
    } else if k == |p| {
      Counts(p, q, k);
      i := SplitsComplete(p + q, k, m);
      CasesAll(p, q, i);
    } else {
      i := Splits3CompleteSome(p, q, k, m);
    }
  }

  lemma Splits3CompleteOne<T>(p: seq<T>, q: seq<T>, m: multiset<T>) returns (i: nat)
    requires Splittable(p, q, 1) && m <= multiset(p) + multiset(q) && |m| == 1
    ensures i < |Splits3(p, q, 1)| && multiset(Splits3(p, q, 1)[i].chosen) == m
  {
    hide Splits3, Splits;
    Counts(p, q, 1);
    if m <= multiset(p) {
      i := SplitsComplete(p, 1, m);
    } else {
      OneElement(m);
      var j := SplitsComplete(q, 1, m);
      i := |Splits(p, 1)| + j;
    }
    CasesOne(p, q, i);
  }

  lemma {:induction false} Splits3CompleteSome<T>(p: seq<T>, q: seq<T>, k: nat, m: multiset<T>) returns (i: nat)
    requires Splittable(p, q, k) && 1 < k < |p| && m <= multiset(p) + multiset(q) && |m| == k
    ensures i < |Splits3(p, q, k)| && multiset(Splits3(p, q, k)[i].chosen) == m
    decreases |p|, 0
  {
    hide Splits3, Splits;
    Counts(p, q, k);
    MultisetCons(p);
    if p[0] in m {
      i := Splits3Complete(p[1..], q, k - 1, m - multiset{p[0]});
      CasesSome(p, q, k, i);
      assert m == multiset{p[0]} + (m - multiset{p[0]});
    } else {
      assert m <= multiset(p[1..]) + multiset(q);
      var j := Splits3Complete(p[1..], q, k, m);
      i := |Splits3(p[1..], q, k - 1)| + j;
      CasesSome(p, q, k, i);
    }
  }

  lemma OneElement<T>(m: multiset<T>)
    requires |m| == 1
    ensures exists x :: m == multiset{x}
  {
    var x :| x in m;
    var r := m - multiset{x};
    assert m == multiset{x} + r;
    assert |r| == 0;
  }

  lemma {:induction false} Splits3Unique<T>(p: seq<T>, q: seq<T>, k: nat, i: nat, j: nat)
    requires Splittable(p, q, k) && Distinct(p + q) && i < |Splits3(p, q, k)| && j < |Splits3(p, q, k)|
    requires multiset(Splits3(p, q, k)[i].chosen) == multiset(Splits3(p, q, k)[j].chosen)
    ensures i == j
    decreases |p|
  {
    hide Splits3, Splits;
    if k == 1 {
      Splits3UniqueOne(p, q, i, j);
    } else if k == |p| {
      CasesAll(p, q, i);
      CasesAll(p, q, j);
      SplitsUnique(p + q, k, i, j);
    } else {
      var x := Splits3(p[1..], q, k - 1);
      Splits3SameSide(p, q, k, i, j);
      assert p[1..] + q == (p + q)[1..];
      if i < |x| {
        Splits3Unique(p[1..], q, k - 1, i, j);
      } else {
        Splits3Unique(p[1..], q, k, i - |x|, j - |x|);
      }
    }
  }

  lemma Splits3UniqueOne<T>(p: seq<T>, q: seq<T>, i: nat, j: nat)
    requires Splittable(p, q, 1) && Distinct(p + q) && i < |Splits3(p, q, 1)| && j < |Splits3(p, q, 1)|
    requires multiset(Splits3(p, q, 1)[i].chosen) == multiset(Splits3(p, q, 1)[j].chosen)
    ensures i == j
  {
    hide Splits3, Splits;
    CasesOne(p, q, i);
    CasesOne(p, q, j);
    var n := |Splits(p, 1)|;
    ChosenFrom(p, q, i);
    ChosenFrom(p, q, j);
    if i < n {
      SplitsUnique(p, 1, i, j);
    } else {
      DistinctTail(p, q);
      SplitsUnique(q, 1, i - n, j - n);
    }
  }

  /** Entries with the same chosen elements come from the same half of the list. */
  lemma Splits3SameSide<T>(p: seq<T>, q: seq<T>, k: nat, i: nat, j: nat)
    requires Splittable(p, q, k) && 1 < k < |p| && Distinct(p + q) && i < |Splits3(p, q, k)| && j < |Splits3(p, q, k)|
    requires multiset(Splits3(p, q, k)[i].chosen) == multiset(Splits3(p, q, k)[j].chosen)
    ensures var x, y := Splits3(p[1..], q, k - 1), Splits3(p[1..], q, k);
      if i < |x| then j < |x| && multiset(x[i].chosen) == multiset(x[j].chosen)
      else |x| <= j && i < |x| + |y| && j < |x| + |y| && multiset(y[i - |x|].chosen) == multiset(y[j - |x|].chosen)
  {
    hide Splits3;
    CasesSome(p, q, k, i);
    CasesSome(p, q, k, j);
    ChoosesHead3(p, q, k, i);
    ChoosesHead3(p, q, k, j);
    var x := Splits3(p[1..], q, k - 1);
    if i < |x| {
      assert multiset(x[i].chosen) == multiset([p[0]] + x[i].chosen) - multiset{p[0]};
      assert multiset(x[j].chosen) == multiset([p[0]] + x[j].chosen) - multiset{p[0]};
    }
  }

  lemma DistinctTail<T>(p: seq<T>, q: seq<T>)
    requires Distinct(p + q)
    ensures Distinct(p) && Distinct(q) && forall x :: x in p ==> x !in q
  {
    forall i, j | 0 <= i < j < |q| ensures q[i] != q[j] {
      assert (p + q)[|p| + i] == q[i] && (p + q)[|p| + j] == q[j];
    }
    forall i, j | 0 <= i < j < |p| ensures p[i] != p[j] {
      assert (p + q)[i] == p[i] && (p + q)[j] == p[j];
    }
    forall x | x in p ensures x !in q {
      var i :| 0 <= i < |p| && p[i] == x;
      forall j | 0 <= j < |q| ensures q[j] != x { assert (p + q)[i] == x && (p + q)[|p| + j] == q[j]; }
    }
  }

  /** A single element comes from p exactly in the first part of the list. */
  lemma ChosenFrom<T>(p: seq<T>, q: seq<T>, i: nat)
    requires Splittable(p, q, 1) && Distinct(p + q) && i < |Splits3(p, q, 1)|
    ensures Distinct(p) && i < |Splits(p, 1)| <==> multiset(Splits3(p, q, 1)[i].chosen) <= multiset(p)
    ensures Distinct(p)
  {
    hide Splits3, Splits;
    CasesOne(p, q, i);
    DistinctTail(p, q);
    var n := |Splits(p, 1)|;
    if i < n {
      SplitsPart(p, 1, i);
    } else {
      SplitsPart(q, 1, i - n);
      SplitsLengths(q, 1);
      var c := Splits(q, 1)[i - n];
      assert c in Splits(q, 1);
      assert c.chosen[0] in multiset(c.chosen);
      assert c.chosen[0] in multiset(q);
      assert c.chosen[0] in q;
      assert c.chosen[0] !in p;
      assert c.chosen[0] !in multiset(p);
    }
  }

  lemma ChoosesHead3<T>(p: seq<T>, q: seq<T>, k: nat, i: nat)
    requires Splittable(p, q, k) && 1 < k < |p| && Distinct(p + q) && i < |Splits3(p, q, k)|
    ensures i < |Splits3(p[1..], q, k - 1)| <==> p[0] in multiset(Splits3(p, q, k)[i].chosen)
  {
    hide Splits3;
    CasesSome(p, q, k, i);
    var x := Splits3(p[1..], q, k - 1);
    if i < |x| {
      assert multiset([p[0]] + x[i].chosen) == multiset{p[0]} + multiset(x[i].chosen);
    } else {
      Splits3Part(p[1..], q, k, i - |x|);
      assert p[1..] + q == (p + q)[1..];
      assert multiset((p + q)[1..]) == multiset(p[1..]) + multiset(q);
      assert p[0] == (p + q)[0] && p[0] !in (p + q)[1..];
      assert p[0] !in multiset((p + q)[1..]);
    }
  }

  // ----- combining three windows

  /** t redistributes the elements of three windows of s. */
  ghost predicate Redistributes3<T>(s: seq<T>, t: seq<T>, lo1: nat, hi1: nat, lo2: nat, hi2: nat, lo3: nat, hi3: nat)
    requires lo1 <= hi1 <= lo2 <= hi2 <= lo3 <= hi3 <= |s|
  {
    && SameOutside(s, t, lo1, hi1, lo2, hi2, lo3, hi3)
    && multiset(t[lo1..hi1]) + multiset(t[lo2..hi2]) + multiset(t[lo3..hi3])
       == multiset(s[lo1..hi1]) + multiset(s[lo2..hi2]) + multiset(s[lo3..hi3])
  }

  lemma Fill3At<T>(s: seq<T>, lo1: nat, c: seq<T>, lo2: nat, r1: seq<T>, lo3: nat, r2: seq<T>, k: nat)
    requires lo1 + |c| <= lo2 && lo2 + |r1| <= lo3 && lo3 + |r2| <= |s| && k < |s|
    ensures Fill3(s, lo1, c, lo2, r1, lo3, r2)[k] ==
      if lo1 <= k < lo1 + |c| then c[k - lo1] else if lo2 <= k < lo2 + |r1| then r1[k - lo2]
      else if lo3 <= k < lo3 + |r2| then r2[k - lo3] else s[k]
  {
    hide Put;
    PutAt(s, lo1, c, k);
    PutAt(Put(s, lo1, c), lo2, r1, k);
    PutAt(Fill(s, lo1, c, lo2, r1), lo3, r2, k);
  }

  lemma Fill3Outside<T>(s: seq<T>, lo1: nat, hi1: nat, c: seq<T>, lo2: nat, hi2: nat, r1: seq<T>, lo3: nat, hi3: nat,
                        r2: seq<T>)
    requires lo1 <= hi1 <= lo2 <= hi2 <= lo3 <= hi3 <= |s|
    requires |c| == hi1 - lo1 && |r1| == hi2 - lo2 && |r2| == hi3 - lo3
    ensures var st := Fill3(s, lo1, c, lo2, r1, lo3, r2);
      SameOutside(s, st, lo1, hi1, lo2, hi2, lo3, hi3) && st[lo1..hi1] == c && st[lo2..hi2] == r1 && st[lo3..hi3] == r2
  {
    hide Fill3;
    var st := Fill3(s, lo1, c, lo2, r1, lo3, r2);
    assert st[lo1..hi1] == c by {
      forall k | lo1 <= k < hi1 ensures st[k] == c[k - lo1] { Fill3At(s, lo1, c, lo2, r1, lo3, r2, k); }
    }
    assert st[lo2..hi2] == r1 by {
      forall k | lo2 <= k < hi2 ensures st[k] == r1[k - lo2] { Fill3At(s, lo1, c, lo2, r1, lo3, r2, k); }
    }
    assert st[lo3..hi3] == r2 by {
      forall k | lo3 <= k < hi3 ensures st[k] == r2[k - lo3] { Fill3At(s, lo1, c, lo2, r1, lo3, r2, k); }
    }
    forall k | 0 <= k < |s| && !(lo1 <= k < hi1) && !(lo2 <= k < hi2) && !(lo3 <= k < hi3) ensures st[k] == s[k] {
      Fill3At(s, lo1, c, lo2, r1, lo3, r2, k);
    }
  }

  lemma Redistributes3Distinct<T>(s: seq<T>, t: seq<T>, lo1: nat, hi1: nat, lo2: nat, hi2: nat, lo3: nat, hi3: nat)
    requires lo1 <= hi1 <= lo2 <= hi2 <= lo3 <= hi3 <= |s| && Distinct(s)
    requires Redistributes3(s, t, lo1, hi1, lo2, hi2, lo3, hi3)
    ensures Distinct(t)
  {
    Windows3Multiset(s, lo1, hi1, lo2, hi2, lo3, hi3);
    Windows3Multiset(t, lo1, hi1, lo2, hi2, lo3, hi3);
    assert t[..lo1] == s[..lo1];
    assert t[hi1..lo2] == s[hi1..lo2];
    assert t[hi2..lo3] == s[hi2..lo3];
    assert t[hi3..] == s[hi3..];
    assert multiset(s) == multiset(t);
    DistinctArrangement(s, t);
  }

  lemma Windows3Multiset<T>(s: seq<T>, lo1: nat, hi1: nat, lo2: nat, hi2: nat, lo3: nat, hi3: nat)
    requires lo1 <= hi1 <= lo2 <= hi2 <= lo3 <= hi3 <= |s|
    ensures multiset(s) == multiset(s[lo1..hi1]) + multiset(s[lo2..hi2]) + multiset(s[lo3..hi3])
      + (multiset(s[..lo1]) + multiset(s[hi1..lo2]) + multiset(s[hi2..lo3]) + multiset(s[hi3..]))
  {
    MultisetSplit(s, lo1);
    WindowMultiset(s, lo1, hi1);
    WindowMultiset(s, hi1, lo2);
    WindowMultiset(s, lo2, hi2);
    WindowMultiset(s, hi2, lo3);
    WindowMultiset(s, lo3, hi3);
  }

  lemma Split3Fills<T>(s: seq<T>, lo1: nat, hi1: nat, lo2: nat, hi2: nat, lo3: nat, hi3: nat, i: nat)
    requires lo1 < hi1 <= lo2 < hi2 <= lo3 < hi3 <= |s| && Distinct(s)
    requires i < |Splits3(Both(s, lo1, hi1, lo2, hi2), s[lo3..hi3], hi1 - lo1)|
    ensures var e := Splits3(Both(s, lo1, hi1, lo2, hi2), s[lo3..hi3], hi1 - lo1)[i];
      var st := Fill3(s, lo1, e.chosen, lo2, e.rest1, lo3, e.rest2);
      && Redistributes3(s, st, lo1, hi1, lo2, hi2, lo3, hi3) && Distinct(st) && st[lo1..hi1] == e.chosen
  {
    hide Splits3, Fill3;
    var p, q, k := Both(s, lo1, hi1, lo2, hi2), s[lo3..hi3], hi1 - lo1;
    var e := Splits3(p, q, k)[i];
    Splits3Lengths(p, q, k);
    assert e in Splits3(p, q, k);
    Splits3Part(p, q, k, i);
    Fill3Outside(s, lo1, hi1, e.chosen, lo2, hi2, e.rest1, lo3, hi3, e.rest2);
    Redistributes3Distinct(s, Fill3(s, lo1, e.chosen, lo2, e.rest1, lo3, e.rest2), lo1, hi1, lo2, hi2, lo3, hi3);
  }

  lemma Combine3Visits<T>(g: Functor, s: seq<T>, lo1: nat, hi1: nat, lo2: nat, hi2: nat, lo3: nat, hi3: nat)
    requires lo1 < hi1 <= lo2 < hi2 <= lo3 < hi3 <= |s| && Valid(g, |s|)
    ensures Visits(CallCombine3(lo1, hi1, lo2, hi2, lo3, hi3, g), s)
      == VisitsEach(CallCombine(lo2, hi2, lo3, hi3, g),
                    Fill3Each(s, lo1, lo2, lo3, Splits3(Both(s, lo1, hi1, lo2, hi2), s[lo3..hi3], hi1 - lo1)))
  {
    hide VisitsEach, PutEach, FillEach, Fill3Each, Perms, Splits, Splits3, FirstMovedFrom, FirstInMiddle;
  }

  /** All combinations of three windows, all permuted: every redistribution. */
  lemma CombineThree<T>(s: seq<T>, lo1: nat, hi1: nat, lo2: nat, hi2: nat, lo3: nat, hi3: nat, t: seq<T>)
    requires lo1 < hi1 <= lo2 < hi2 <= lo3 < hi3 <= |s| && Distinct(s)
    ensures t in Visits(CallCombine3(lo1, hi1, lo2, hi2, lo3, hi3, Rev3(lo1, hi1, lo2, hi2, lo3, hi3, BoundRange)), s)
      <==> Redistributes3(s, t, lo1, hi1, lo2, hi2, lo3, hi3)
  {
    hide Visits, VisitsEach, Fill3, Fill3Each, Splits3, Rev3;
    var g := Rev3(lo1, hi1, lo2, hi2, lo3, hi3, BoundRange);
    assert Valid(BoundRange, |s|);
    var bc := CallCombine(lo2, hi2, lo3, hi3, g);
    var p, q, k := Both(s, lo1, hi1, lo2, hi2), s[lo3..hi3], hi1 - lo1;
    var es := Splits3(p, q, k);
    var sts := Fill3Each(s, lo1, lo2, lo3, es);
    Combine3Visits(g, s, lo1, hi1, lo2, hi2, lo3, hi3);
    VisitsEachMember(bc, sts, t);
    if i :| 0 <= i < |sts| && t in Visits(bc, sts[i]) {
      CombineThreeFrom(s, lo1, hi1, lo2, hi2, lo3, hi3, i, t);
    }
    if Redistributes3(s, t, lo1, hi1, lo2, hi2, lo3, hi3) {
      assert |multiset(t[lo1..hi1])| == k;
      var i := Splits3Complete(p, q, k, multiset(t[lo1..hi1]));
      CombineThreeFrom(s, lo1, hi1, lo2, hi2, lo3, hi3, i, t);
    }
  }

  /** One entry of the list: what is shown from there. */
  lemma CombineThreeFrom<T>(s: seq<T>, lo1: nat, hi1: nat, lo2: nat, hi2: nat, lo3: nat, hi3: nat, i: nat, t: seq<T>)
    requires lo1 < hi1 <= lo2 < hi2 <= lo3 < hi3 <= |s| && Distinct(s)
    requires i < |Splits3(Both(s, lo1, hi1, lo2, hi2), s[lo3..hi3], hi1 - lo1)|
    ensures var es := Splits3(Both(s, lo1, hi1, lo2, hi2), s[lo3..hi3], hi1 - lo1);
      t in Visits(CallCombine(lo2, hi2, lo3, hi3, Rev3(lo1, hi1, lo2, hi2, lo3, hi3, BoundRange)),
                  Fill3Each(s, lo1, lo2, lo3, es)[i])
      <==> Redistributes3(s, t, lo1, hi1, lo2, hi2, lo3, hi3) && multiset(t[lo1..hi1]) == multiset(es[i].chosen)
  {
    hide Visits, Fill3, Fill3Each, Splits3, Rev3;
    var es := Splits3(Both(s, lo1, hi1, lo2, hi2), s[lo3..hi3], hi1 - lo1);
    var st := Fill3Each(s, lo1, lo2, lo3, es)[i];
    Fill3EachAt(s, lo1, lo2, lo3, es, i);
    Split3Fills(s, lo1, hi1, lo2, hi2, lo3, hi3, i);
    CombineLastTwo(st, lo1, hi1, lo2, hi2, lo3, hi3, t);
    if ArrangesRedistributes(st, t, lo1, hi1, lo2, hi2, lo3, hi3) {
      Reached(s, st, t, lo1, hi1, lo2, hi2, lo3, hi3);
    }
    if Redistributes3(s, t, lo1, hi1, lo2, hi2, lo3, hi3) && multiset(t[lo1..hi1]) == multiset(es[i].chosen) {
      Reaches(s, st, t, lo1, hi1, lo2, hi2, lo3, hi3);
    }
  }

  lemma Reached<T>(s: seq<T>, st: seq<T>, t: seq<T>, lo1: nat, hi1: nat, lo2: nat, hi2: nat, lo3: nat, hi3: nat)
    requires lo1 <= hi1 <= lo2 <= hi2 <= lo3 <= hi3 <= |s|
    requires Redistributes3(s, st, lo1, hi1, lo2, hi2, lo3, hi3)
      && ArrangesRedistributes(st, t, lo1, hi1, lo2, hi2, lo3, hi3)
    ensures Redistributes3(s, t, lo1, hi1, lo2, hi2, lo3, hi3)
  {
    MultisetAssociative(multiset(t[lo1..hi1]), multiset(t[lo2..hi2]), multiset(t[lo3..hi3]));
    MultisetAssociative(multiset(st[lo1..hi1]), multiset(st[lo2..hi2]), multiset(st[lo3..hi3]));
  }

  lemma Reaches<T>(s: seq<T>, st: seq<T>, t: seq<T>, lo1: nat, hi1: nat, lo2: nat, hi2: nat, lo3: nat, hi3: nat)
    requires lo1 <= hi1 <= lo2 <= hi2 <= lo3 <= hi3 <= |s|
    requires Redistributes3(s, st, lo1, hi1, lo2, hi2, lo3, hi3) && Redistributes3(s, t, lo1, hi1, lo2, hi2, lo3, hi3)
    requires multiset(st[lo1..hi1]) == multiset(t[lo1..hi1])
    ensures ArrangesRedistributes(st, t, lo1, hi1, lo2, hi2, lo3, hi3)
  {
    var all := multiset(s[lo1..hi1]) + multiset(s[lo2..hi2]) + multiset(s[lo3..hi3]);
    assert multiset(t[lo2..hi2]) + multiset(t[lo3..hi3]) == all - multiset(t[lo1..hi1]);
    assert multiset(st[lo2..hi2]) + multiset(st[lo3..hi3]) == all - multiset(st[lo1..hi1]);
  }

  lemma CombineThreeDistinct<T(!new)>(s: seq<T>, lo1: nat, hi1: nat, lo2: nat, hi2: nat, lo3: nat, hi3: nat)
    requires lo1 < hi1 <= lo2 < hi2 <= lo3 < hi3 <= |s| && Distinct(s)
    ensures Distinct(Visits(CallCombine3(lo1, hi1, lo2, hi2, lo3, hi3, Rev3(lo1, hi1, lo2, hi2, lo3, hi3, BoundRange)),
                            s))
  {
    hide Visits, VisitsEach, Fill3, Fill3Each, Splits3, Rev3;
    var g := Rev3(lo1, hi1, lo2, hi2, lo3, hi3, BoundRange);
    assert Valid(BoundRange, |s|);
    var bc := CallCombine(lo2, hi2, lo3, hi3, g);
    var p, q, k := Both(s, lo1, hi1, lo2, hi2), s[lo3..hi3], hi1 - lo1;
    var es := Splits3(p, q, k);
    var sts := Fill3Each(s, lo1, lo2, lo3, es);
    Combine3Visits(g, s, lo1, hi1, lo2, hi2, lo3, hi3);
    forall i | 0 <= i < |sts| ensures Distinct(Visits(bc, sts[i])) {
      Fill3EachAt(s, lo1, lo2, lo3, es, i);
      Split3Fills(s, lo1, hi1, lo2, hi2, lo3, hi3, i);
      CombineLastTwoDistinct(sts[i], lo1, hi1, lo2, hi2, lo3, hi3);
    }
    WindowsDistinct(s, lo1, hi1, lo2, hi2, lo3, hi3);
    forall i, j, t | 0 <= i < j < |sts| && t in Visits(bc, sts[i]) ensures t !in Visits(bc, sts[j]) {
      CombineThreeFrom(s, lo1, hi1, lo2, hi2, lo3, hi3, i, t);
      CombineThreeFrom(s, lo1, hi1, lo2, hi2, lo3, hi3, j, t);
      if multiset(es[i].chosen) == multiset(es[j].chosen) {
        Splits3Unique(p, q, k, i, j);
      }
    }
    VisitsEachDistinct(bc, sts);
  }

  lemma WindowsDistinct<T>(s: seq<T>, lo1: nat, hi1: nat, lo2: nat, hi2: nat, lo3: nat, hi3: nat)
    requires lo1 <= hi1 <= lo2 <= hi2 <= lo3 <= hi3 <= |s| && Distinct(s)
    ensures Distinct(Both(s, lo1, hi1, lo2, hi2) + s[lo3..hi3])
  {
    var u := Both(s, lo1, hi1, lo2, hi2) + s[lo3..hi3];
    var d1, d2 := hi1 - lo1, hi2 - lo2;
    forall i, j | 0 <= i < j < |u| ensures u[i] != u[j] {
      var x := if i < d1 then lo1 + i else if i < d1 + d2 then lo2 + (i - d1) else lo3 + (i - d1 - d2);
      var y := if j < d1 then lo1 + j else if j < d1 + d2 then lo2 + (j - d1) else lo3 + (j - d1 - d2);
      assert u[i] == s[x] && u[j] == s[y];
    }
  }
}
