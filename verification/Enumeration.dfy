/** Reference definitions for the enumerations of src/CombinatoricUtils.hpp: the
    lexicographic list of the permutations of a sequence, and of its splits into a
    chosen subsequence and the rest.  Nothing here swaps or rotates. */
module Enumeration {
  import opened Lists

  /** x put in front of every sequence of the list. */
  function Prepend<T>(x: T, ss: seq<seq<T>>): (r: seq<seq<T>>)
    ensures |r| == |ss|
  {
    if ss == [] then [] else [[x] + ss[0]] + Prepend(x, ss[1..])
  }

  /** All permutations of `s`, ordered by the positions their elements come from. */
  function Perms<T>(s: seq<T>): (r: seq<seq<T>>)
    decreases |s|, |s| + 1
  {
    if s == [] then [[]] else PermsFrom(s, 0)
  }

  /** The permutations whose first element comes from position p or later. */
  function PermsFrom<T>(s: seq<T>, p: nat): (r: seq<seq<T>>)
    requires p <= |s|
    decreases |s|, |s| - p
  {
    if p == |s| then [] else Prepend(s[p], Perms(Without(s, p))) + PermsFrom(s, p + 1)
  }

  datatype Split<T> = Split(chosen: seq<T>, rest: seq<T>)

  function ChooseHead<T>(x: T, ps: seq<Split<T>>): (r: seq<Split<T>>)
    ensures |r| == |ps|
  {
    if ps == [] then [] else [Split([x] + ps[0].chosen, ps[0].rest)] + ChooseHead(x, ps[1..])
  }

  function LeaveOut<T>(pre: seq<T>, ps: seq<Split<T>>): (r: seq<Split<T>>)
    ensures |r| == |ps|
  {
    if ps == [] then [] else [Split(ps[0].chosen, pre + ps[0].rest)] + LeaveOut(pre, ps[1..])
  }

  /** Every way to choose a subsequence of k elements, in lexicographic order of
      positions, each with the elements left over in their original order. */
  function Splits<T>(s: seq<T>, k: nat): (r: seq<Split<T>>)
  {
    if k == 0 then [Split([], s)]
    else if k > |s| then []
    else if k == |s| then [Split(s, [])]
    else ChooseHead(s[0], Splits(s[1..], k - 1)) + LeaveOut([s[0]], Splits(s[1..], k))
  }

  datatype Split3<T> = Split3(chosen: seq<T>, rest1: seq<T>, rest2: seq<T>)

  function ChooseHead3<T>(x: T, ps: seq<Split3<T>>): (r: seq<Split3<T>>)
    ensures |r| == |ps|
  {
    if ps == [] then [] else [Split3([x] + ps[0].chosen, ps[0].rest1, ps[0].rest2)] + ChooseHead3(x, ps[1..])
  }

  function LeaveOut3<T>(pre: seq<T>, ps: seq<Split3<T>>): (r: seq<Split3<T>>)
    ensures |r| == |ps|
  {
    if ps == [] then [] else [Split3(ps[0].chosen, pre + ps[0].rest1, ps[0].rest2)] + LeaveOut3(pre, ps[1..])
  }

  function OnlySecond<T>(ps: seq<Split<T>>): (r: seq<Split3<T>>)
    ensures |r| == |ps|
  {
    if ps == [] then [] else [Split3(ps[0].chosen, [], ps[0].rest)] + OnlySecond(ps[1..])
  }

  function OnlyFirst<T>(ps: seq<Split<T>>, q: seq<T>): (r: seq<Split3<T>>)
    ensures |r| == |ps|
  {
    if ps == [] then [] else [Split3(ps[0].chosen, ps[0].rest, q)] + OnlyFirst(ps[1..], q)
  }

  /** One element chosen from p + q, p first. While it comes from q, the last two
      elements of p are apart: the second to last one stands in front of q. */
  function Singles3<T>(p: seq<T>, q: seq<T>): (r: seq<Split3<T>>)
    requires |p| >= 2
  {
    var k := |p| - 2;
    OnlyFirst(Splits(p, 1), q) + Swapped3(p[..k] + [p[k + 1]], p[k], Splits(q, 1))
  }

  function Swapped3<T>(rest1: seq<T>, x: T, ps: seq<Split<T>>): (r: seq<Split3<T>>)
    ensures |r| == |ps|
  {
    if ps == [] then [] else [Split3(ps[0].chosen, rest1, [x] + ps[0].rest)] + Swapped3(rest1, x, ps[1..])
  }

  /** The splits of p + q into k chosen elements and two ranges left over. */
  function Splits3<T>(p: seq<T>, q: seq<T>, k: nat): (r: seq<Split3<T>>)
    requires 1 <= k <= |p| && (k == 1 ==> k < |p|)
    decreases |p|
  {
    if k == 1 then Singles3(p, q)
    else if k == |p| then OnlySecond(Splits(p + q, k))
    else ChooseHead3(p[0], Splits3(p[1..], q, k - 1)) + LeaveOut3([p[0]], Splits3(p[1..], q, k))
  }

  // ----- single entries of the lists

  lemma {:induction false} PrependAt<T>(x: T, ss: seq<seq<T>>, i: nat)
    requires i < |ss|
    ensures Prepend(x, ss)[i] == [x] + ss[i]
    decreases i
  {
    if i > 0 { PrependAt(x, ss[1..], i - 1); }
  }

  lemma {:induction false} ChooseHeadAt<T>(x: T, ps: seq<Split<T>>, i: nat)
    requires i < |ps|
    ensures ChooseHead(x, ps)[i] == Split([x] + ps[i].chosen, ps[i].rest)
    decreases i
  {
    if i > 0 { ChooseHeadAt(x, ps[1..], i - 1); }
  }

  lemma {:induction false} LeaveOutAt<T>(pre: seq<T>, ps: seq<Split<T>>, i: nat)
    requires i < |ps|
    ensures LeaveOut(pre, ps)[i] == Split(ps[i].chosen, pre + ps[i].rest)
    decreases i
  {
    if i > 0 { LeaveOutAt(pre, ps[1..], i - 1); }
  }

  /** The splits that choose the first element come first. */
  lemma SplitsCases<T>(s: seq<T>, k: nat, i: nat)
    requires 0 < k < |s| && i < |Splits(s, k)|
    ensures var x, y := Splits(s[1..], k - 1), Splits(s[1..], k);
      && |Splits(s, k)| == |x| + |y|
      && Splits(s, k)[i] ==
         if i < |x| then Split([s[0]] + x[i].chosen, x[i].rest)
         else Split(y[i - |x|].chosen, [s[0]] + y[i - |x|].rest)
  {
    hide ChooseHead, LeaveOut;
    var x, y := Splits(s[1..], k - 1), Splits(s[1..], k);
    if i < |x| { ChooseHeadAt(s[0], x, i); } else { LeaveOutAt([s[0]], y, i - |x|); }
  }

  lemma SplitsEnds<T>(s: seq<T>, k: nat)
    requires k == 0 || k >= |s|
    ensures Splits(s, k) ==
      if k == 0 then [Split([], s)] else if k == |s| then [Split(s, [])] else []
  {
  }

  // ----- what the lists consist of

  ghost predicate AllOfLength<T>(ts: seq<seq<T>>, k: nat) {
    forall t <- ts :: |t| == k
  }

  ghost predicate AllArrange<T>(ts: seq<seq<T>>, s: seq<T>) {
    forall t <- ts :: |t| == |s| && multiset(t) == multiset(s)
  }

  lemma {:induction false} PermsArrange<T>(s: seq<T>)
    ensures AllArrange(Perms(s), s) && AllOfLength(Perms(s), |s|)
    decreases |s|, |s| + 1
  {
    if s != [] { PermsFromArrange(s, 0); }
  }

  lemma {:induction false} PermsFromArrange<T>(s: seq<T>, p: nat)
    requires p <= |s|
    ensures AllArrange(PermsFrom(s, p), s)
    decreases |s|, |s| - p
  {
    if p < |s| {
      var ts := Perms(Without(s, p));
      PermsArrange(Without(s, p));
      PermsFromArrange(s, p + 1);
      MultisetWithout(s, p);
      forall t | t in Prepend(s[p], ts) ensures |t| == |s| && multiset(t) == multiset(s) {
        var i :| 0 <= i < |ts| && t == Prepend(s[p], ts)[i];
        PrependAt(s[p], ts, i);
        assert ts[i] in ts;
      }
    }
  }

  ghost predicate SplitLengths<T>(ps: seq<Split<T>>, k: nat, m: nat) {
    forall p <- ps :: |p.chosen| == k && |p.rest| == m
  }

  lemma {:induction false} SplitsLengths<T>(s: seq<T>, k: nat)
    requires k <= |s|
    ensures SplitLengths(Splits(s, k), k, |s| - k)
  {
    hide Splits;
    forall p | p in Splits(s, k) ensures |p.chosen| == k && |p.rest| == |s| - k {
      var i :| 0 <= i < |Splits(s, k)| && Splits(s, k)[i] == p;
      SplitLengthsAt(s, k, i);
    }
  }

  lemma {:induction false} SplitLengthsAt<T>(s: seq<T>, k: nat, i: nat)
    requires k <= |s| && i < |Splits(s, k)|
    ensures |Splits(s, k)[i].chosen| == k && |Splits(s, k)[i].rest| == |s| - k
    decreases |s|
  {
    hide Splits;
    if k == 0 || k == |s| {
      SplitsEnds(s, k);
    } else {
      var x := Splits(s[1..], k - 1);
      SplitsCases(s, k, i);
      if i < |x| { SplitLengthsAt(s[1..], k - 1, i); } else { SplitLengthsAt(s[1..], k, i - |x|); }
    }
  }

  lemma {:induction false} LeaveOutNothing<T>(ps: seq<Split<T>>)
    ensures LeaveOut([], ps) == ps
    decreases |ps|
  {
    if ps != [] {
      LeaveOutNothing(ps[1..]);
      assert [] + ps[0].rest == ps[0].rest;
      assert ps == [ps[0]] + ps[1..];
    }
  }

  lemma {:induction false} LeaveOutTwice<T>(x: seq<T>, y: seq<T>, ps: seq<Split<T>>)
    ensures LeaveOut(x, LeaveOut(y, ps)) == LeaveOut(x + y, ps)
    decreases |ps|
  {
    if ps != [] {
      LeaveOutTwice(x, y, ps[1..]);
      assert LeaveOut(y, ps)[1..] == LeaveOut(y, ps[1..]);
      assert x + (y + ps[0].rest) == x + y + ps[0].rest;
    }
  }

  lemma {:induction false} LeaveOutConcat<T>(x: seq<T>, ps: seq<Split<T>>, qs: seq<Split<T>>)
    ensures LeaveOut(x, ps + qs) == LeaveOut(x, ps) + LeaveOut(x, qs)
    decreases |ps|
  {
    if ps == [] {
      assert ps + qs == qs;
    } else {
      assert (ps + qs)[1..] == ps[1..] + qs;
      LeaveOutConcat(x, ps[1..], qs);
    }
  }

  ghost predicate Split3Lengths<T>(ps: seq<Split3<T>>, k: nat, m1: nat, m2: nat) {
    forall p <- ps :: |p.chosen| == k && |p.rest1| == m1 && |p.rest2| == m2
  }

  lemma {:induction false} ChooseHead3Lengths<T>(x: T, ps: seq<Split3<T>>, k: nat, m1: nat, m2: nat)
    requires Split3Lengths(ps, k, m1, m2)
    ensures Split3Lengths(ChooseHead3(x, ps), k + 1, m1, m2)
    decreases |ps|
  {
    if ps != [] { ChooseHead3Lengths(x, ps[1..], k, m1, m2); }
  }

  lemma {:induction false} LeaveOut3Lengths<T>(x: seq<T>, ps: seq<Split3<T>>, k: nat, m1: nat, m2: nat)
    requires Split3Lengths(ps, k, m1, m2)
    ensures Split3Lengths(LeaveOut3(x, ps), k, |x| + m1, m2)
    decreases |ps|
  {
    if ps != [] { LeaveOut3Lengths(x, ps[1..], k, m1, m2); }
  }

  lemma {:induction false} OnlyFirstLengths<T>(ps: seq<Split<T>>, q: seq<T>, k: nat, m: nat)
    requires SplitLengths(ps, k, m)
    ensures Split3Lengths(OnlyFirst(ps, q), k, m, |q|)
    decreases |ps|
  {
    if ps != [] { OnlyFirstLengths(ps[1..], q, k, m); }
  }

  lemma {:induction false} OnlySecondLengths<T>(ps: seq<Split<T>>, k: nat, m: nat)
    requires SplitLengths(ps, k, m)
    ensures Split3Lengths(OnlySecond(ps), k, 0, m)
    decreases |ps|
  {
    if ps != [] { OnlySecondLengths(ps[1..], k, m); }
  }

  lemma {:induction false} Swapped3Lengths<T>(rest1: seq<T>, x: T, ps: seq<Split<T>>, k: nat, m: nat)
    requires SplitLengths(ps, k, m)
    ensures Split3Lengths(Swapped3(rest1, x, ps), k, |rest1|, m + 1)
    decreases |ps|
  {
    if ps != [] { Swapped3Lengths(rest1, x, ps[1..], k, m); }
  }

  lemma Split3LengthsConcat<T>(x: seq<Split3<T>>, y: seq<Split3<T>>, k: nat, m1: nat, m2: nat)
    requires Split3Lengths(x, k, m1, m2) && Split3Lengths(y, k, m1, m2)
    ensures Split3Lengths(x + y, k, m1, m2)
  {
  }

  lemma {:induction false} Splits3Lengths<T>(p: seq<T>, q: seq<T>, k: nat)
    requires 1 <= k <= |p| && (k == 1 ==> k < |p|) && q != []
    ensures Split3Lengths(Splits3(p, q, k), k, |p| - k, |q|)
    decreases |p|
  {
    hide ChooseHead3, LeaveOut3, OnlyFirst, OnlySecond, Swapped3, Splits, Split3Lengths, SplitLengths;
    if k == 1 {
      SplitsLengths(p, 1);
      SplitsLengths(q, 1);
      OnlyFirstLengths(Splits(p, 1), q, 1, |p| - 1);
      Swapped3Lengths(p[..|p| - 2] + [p[|p| - 1]], p[|p| - 2], Splits(q, 1), 1, |q| - 1);
      Split3LengthsConcat(OnlyFirst(Splits(p, 1), q),
        Swapped3(p[..|p| - 2] + [p[|p| - 1]], p[|p| - 2], Splits(q, 1)), 1, |p| - 1, |q|);
    } else if k == |p| {
      SplitsLengths(p + q, k);
      OnlySecondLengths(Splits(p + q, k), k, |q|);
    } else {
      Splits3Lengths(p[1..], q, k - 1);
      Splits3Lengths(p[1..], q, k);
      ChooseHead3Lengths(p[0], Splits3(p[1..], q, k - 1), k - 1, |p| - k, |q|);
      LeaveOut3Lengths([p[0]], Splits3(p[1..], q, k), k, |p| - 1 - k, |q|);
      Split3LengthsConcat(ChooseHead3(p[0], Splits3(p[1..], q, k - 1)),
        LeaveOut3([p[0]], Splits3(p[1..], q, k)), k, |p| - k, |q|);
    }
  }
}
