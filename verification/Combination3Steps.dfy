/** The steps of combine_discontinuous3_ on sequences. Its two loops go over the second and
    the third window; while the third window is untouched the states are those of
    combine_discontinuous on the first two. */
module Combination3Steps {
  import opened Lists
  import opened Enumeration
  import opened Functors
  import opened Rotations
  import opened PermutationSteps
  import opened CombinationSteps

  /** What combine_discontinuous3_ shows to g. */
  function Visits3<T>(g: Functor, s: seq<T>, lo1: nat, hi1: nat, lo2: nat, hi2: nat, lo3: nat, hi3: nat): seq<seq<T>>
    requires lo1 < hi1 <= lo2 < hi2 <= lo3 < hi3 <= |s|
  {
    VisitsEach(g, Fill3Each(s, lo1, lo2, lo3, Splits3(Both(s, lo1, hi1, lo2, hi2), s[lo3..hi3], hi1 - lo1)))
  }

  /** What is still to be shown once the combinations that contain one of the first j
      elements are done. */
  function Comb3Remaining<T>(g: Functor, s: seq<T>, lo1: nat, hi1: nat, lo2: nat, hi2: nat, lo3: nat, hi3: nat, j: nat)
    : seq<seq<T>>
    requires lo1 + 1 < hi1 <= lo2 < hi2 <= lo3 < hi3 <= |s| && j <= hi2 - lo2
  {
    var p := Both(s, lo1, hi1, lo2, hi2);
    VisitsEach(g, Fill3Each(s, lo1, lo2, lo3, LeaveOut3(p[..j], Splits3(p[j..], s[lo3..hi3], hi1 - lo1))))
  }

  // ----- lists

  lemma {:induction false} LeaveOut3Nothing<T>(ps: seq<Split3<T>>)
    ensures LeaveOut3([], ps) == ps
    decreases |ps|
  {
    if ps != [] {
      LeaveOut3Nothing(ps[1..]);
      assert [] + ps[0].rest1 == ps[0].rest1;
      assert ps == [ps[0]] + ps[1..];
    }
  }

  lemma {:induction false} LeaveOut3Twice<T>(x: seq<T>, y: seq<T>, ps: seq<Split3<T>>)
    ensures LeaveOut3(x, LeaveOut3(y, ps)) == LeaveOut3(x + y, ps)
    decreases |ps|
  {
    if ps != [] {
      LeaveOut3Twice(x, y, ps[1..]);
      assert LeaveOut3(y, ps)[1..] == LeaveOut3(y, ps[1..]);
      assert x + (y + ps[0].rest1) == x + y + ps[0].rest1;
    }
  }

  lemma {:induction false} LeaveOut3Concat<T>(x: seq<T>, ps: seq<Split3<T>>, qs: seq<Split3<T>>)
    ensures LeaveOut3(x, ps + qs) == LeaveOut3(x, ps) + LeaveOut3(x, qs)
    decreases |ps|
  {
    if ps == [] {
      assert ps + qs == qs;
    } else {
      assert (ps + qs)[1..] == ps[1..] + qs;
      LeaveOut3Concat(x, ps[1..], qs);
    }
  }

  lemma {:induction false} Fill3EachConcat<T>(s: seq<T>, lo1: nat, lo2: nat, lo3: nat, x: seq<Split3<T>>,
                                              y: seq<Split3<T>>)
    ensures Fill3Each(s, lo1, lo2, lo3, x + y) == Fill3Each(s, lo1, lo2, lo3, x) + Fill3Each(s, lo1, lo2, lo3, y)
    decreases |x|
  {
    hide Fill3;
    if x == [] {
      assert x + y == y;
    } else {
      assert (x + y)[1..] == x[1..] + y;
      Fill3EachConcat(s, lo1, lo2, lo3, x[1..], y);
    }
  }

  lemma {:induction false} Fill3EachNested<T>(
    s: seq<T>, lo1: nat, lo2: nat, lo3: nat, x: T, c': seq<T>, p: seq<T>, r': seq<T>, ps: seq<Split3<T>>, m: nat)
    requires Split3Lengths(ps, |c'|, |r'|, m) && lo1 + 1 + |c'| <= lo2 && lo2 + |p| + |r'| <= |s|
    ensures Fill3Each(s, lo1, lo2, lo3, LeaveOut3(p, ChooseHead3(x, ps)))
      == Fill3Each(Fill(s, lo1, [x] + c', lo2, p + r'), lo1 + 1, lo2 + |p|, lo3, ps)
    decreases |ps|
  {
    hide Fill, Put;
    if ps != [] {
      FillNested(s, lo1, lo2, x, ps[0].chosen, c', p, ps[0].rest1, r');
      Fill3EachNested(s, lo1, lo2, lo3, x, c', p, r', ps[1..], m);
      assert ChooseHead3(x, ps)[1..] == ChooseHead3(x, ps[1..]);
      assert LeaveOut3(p, ChooseHead3(x, ps))[1..] == LeaveOut3(p, ChooseHead3(x, ps[1..]));
    }
  }

  /** A third window that keeps its contents need not be filled. */
  lemma ThirdKept<T>(s: seq<T>, lo1: nat, c: seq<T>, lo2: nat, r: seq<T>, lo3: nat, hi3: nat)
    requires lo1 + |c| <= lo2 && lo2 + |r| <= lo3 <= hi3 <= |s|
    ensures Fill3(s, lo1, c, lo2, r, lo3, s[lo3..hi3]) == Fill(s, lo1, c, lo2, r)
  {
    hide Put;
    var st := Fill(s, lo1, c, lo2, r);
    forall k | 0 <= k < |s| ensures Put(st, lo3, s[lo3..hi3])[k] == st[k] {
      PutAt(st, lo3, s[lo3..hi3], k);
      PutAt(Put(s, lo1, c), lo2, r, k);
      PutAt(s, lo1, c, k);
    }
  }

  lemma {:induction false} FillEachFirst<T>(s: seq<T>, lo1: nat, lo2: nat, lo3: nat, hi3: nat, ps: seq<Split<T>>,
                                            k: nat, m: nat)
    requires SplitLengths(ps, k, m) && lo1 + k <= lo2 && lo2 + m <= lo3 <= hi3 <= |s|
    ensures Fill3Each(s, lo1, lo2, lo3, OnlyFirst(ps, s[lo3..hi3])) == FillEach(s, lo1, lo2, ps)
    decreases |ps|
  {
    hide Fill, Fill3;
    if ps != [] {
      ThirdKept(s, lo1, ps[0].chosen, lo2, ps[0].rest, lo3, hi3);
      FillEachFirst(s, lo1, lo2, lo3, hi3, ps[1..], k, m);
    }
  }

  /** Filling three windows, the second one being in place already. */
  lemma SecondKept<T>(s: seq<T>, lo1: nat, c: seq<T>, c': seq<T>, lo2: nat, r1: seq<T>, lo3: nat, r2: seq<T>)
    requires |c| == |c'| && lo1 + |c| <= lo2 && lo2 + |r1| <= lo3 && lo3 + |r2| <= |s|
    ensures Fill3(s, lo1, c, lo2, r1, lo3, r2) == Fill(Fill(s, lo1, c', lo2, r1), lo1, c, lo3, r2)
  {
    hide Put;
    var t := Fill(s, lo1, c', lo2, r1);
    forall k | 0 <= k < |s|
      ensures Fill3(s, lo1, c, lo2, r1, lo3, r2)[k] == Fill(t, lo1, c, lo3, r2)[k]
    {
      PutAt(Fill(s, lo1, c, lo2, r1), lo3, r2, k);
      PutAt(Put(s, lo1, c), lo2, r1, k);
      PutAt(s, lo1, c, k);
      PutAt(Put(t, lo1, c), lo3, r2, k);
      PutAt(t, lo1, c, k);
      PutAt(Put(s, lo1, c'), lo2, r1, k);
      PutAt(s, lo1, c', k);
    }
  }

  lemma {:induction false} FillEachSecond<T>(
    s: seq<T>, lo1: nat, c': seq<T>, lo2: nat, r1: seq<T>, lo3: nat, ps: seq<Split<T>>, m: nat)
    requires SplitLengths(ps, |c'|, m) && lo1 + |c'| <= lo2 && lo2 + |r1| <= lo3 && lo3 + m <= |s|
    ensures Fill3Each(s, lo1, lo2, lo3, LeaveOut3(r1, OnlySecond(ps)))
      == FillEach(Fill(s, lo1, c', lo2, r1), lo1, lo3, ps)
    decreases |ps|
  {
    hide Fill, Fill3;
    if ps != [] {
      SecondKept(s, lo1, ps[0].chosen, c', lo2, r1, lo3, ps[0].rest);
      FillEachSecond(s, lo1, c', lo2, r1, lo3, ps[1..], m);
      assert OnlySecond(ps)[1..] == OnlySecond(ps[1..]);
      assert r1 + [] == r1;
    }
  }

  lemma {:induction false} FillEachSwapped<T>(
    s: seq<T>, lo1: nat, c': seq<T>, lo2: nat, r1: seq<T>, lo3: nat, x: T, ps: seq<Split<T>>, m: nat)
    requires SplitLengths(ps, |c'|, m) && lo1 + |c'| <= lo2 && lo2 + |r1| <= lo3 && lo3 + m + 1 <= |s|
    ensures Fill3Each(s, lo1, lo2, lo3, Swapped3(r1, x, ps))
      == FillEach(Fill(s, lo1, c', lo2, r1), lo1, lo3, LeaveOut([x], ps))
    decreases |ps|
  {
    hide Fill, Fill3;
    if ps != [] {
      SecondKept(s, lo1, ps[0].chosen, c', lo2, r1, lo3, [x] + ps[0].rest);
      FillEachSwapped(s, lo1, c', lo2, r1, lo3, x, ps[1..], m);
      assert LeaveOut([x], ps)[1..] == LeaveOut([x], ps[1..]);
    }
  }

  // ----- the first loop

  lemma Comb3Start<T>(g: Functor, s: seq<T>, lo1: nat, hi1: nat, lo2: nat, hi2: nat, lo3: nat, hi3: nat)
    requires lo1 + 1 < hi1 <= lo2 < hi2 <= lo3 < hi3 <= |s|
    ensures Visits3(g, s, lo1, hi1, lo2, hi2, lo3, hi3) == Comb3Remaining(g, s, lo1, hi1, lo2, hi2, lo3, hi3, 0)
  {
    hide VisitsEach, Fill3Each, Splits3, LeaveOut3;
    var p := Both(s, lo1, hi1, lo2, hi2);
    assert p[..0] == [] && p[0..] == p;
    LeaveOut3Nothing(Splits3(p, s[lo3..hi3], hi1 - lo1));
  }

  lemma CombStateThird<T>(s: seq<T>, lo1: nat, hi1: nat, lo2: nat, hi2: nat, j: nat, lo3: nat, hi3: nat)
    requires lo1 <= hi1 <= lo2 <= hi2 <= lo3 <= hi3 <= |s| && j <= hi2 - lo2
    ensures CombState(s, lo1, hi1, lo2, hi2, j)[lo3..hi3] == s[lo3..hi3]
  {
    hide CombState;
    forall k | lo3 <= k < hi3 ensures CombState(s, lo1, hi1, lo2, hi2, j)[k] == s[k] {
      CombStateAt(s, lo1, hi1, lo2, hi2, j, k);
    }
  }

  lemma Comb3Nested<T>(g: Functor, s: seq<T>, lo1: nat, hi1: nat, lo2: nat, hi2: nat, lo3: nat, hi3: nat, j: nat)
    requires lo1 + 1 < hi1 <= lo2 && lo2 + j < hi2 <= lo3 < hi3 <= |s|
    ensures var p := Both(s, lo1, hi1, lo2, hi2);
      VisitsEach(g, Fill3Each(s, lo1, lo2, lo3,
                              LeaveOut3(p[..j], ChooseHead3(p[j], Splits3(p[j + 1..], s[lo3..hi3], hi1 - lo1 - 1)))))
      == Visits3(g, CombState(s, lo1, hi1, lo2, hi2, j), lo1 + 1, hi1, lo2 + j, hi2, lo3, hi3)
  {
    hide VisitsEach, Fill3Each, LeaveOut3, ChooseHead3, Splits3, Fill, Split3Lengths;
    var p := Both(s, lo1, hi1, lo2, hi2);
    var d1 := hi1 - lo1;
    Splits3Lengths(p[j + 1..], s[lo3..hi3], d1 - 1);
    var c', r' := p[j + 1..j + d1], p[j + d1..];
    assert p[j..j + d1] == [p[j]] + c';
    Fill3EachNested(s, lo1, lo2, lo3, p[j], c', p[..j], r', Splits3(p[j + 1..], s[lo3..hi3], d1 - 1), hi3 - lo3);
    CombStateBoth(s, lo1, hi1, lo2, hi2, j);
    CombStateThird(s, lo1, hi1, lo2, hi2, j, lo3, hi3);
  }

  lemma Comb3Step<T>(g: Functor, s: seq<T>, lo1: nat, hi1: nat, lo2: nat, hi2: nat, lo3: nat, hi3: nat, j: nat)
    requires lo1 + 1 < hi1 <= lo2 && lo2 + j < hi2 <= lo3 < hi3 <= |s|
    ensures Comb3Remaining(g, s, lo1, hi1, lo2, hi2, lo3, hi3, j)
      == Visits3(g, CombState(s, lo1, hi1, lo2, hi2, j), lo1 + 1, hi1, lo2 + j, hi2, lo3, hi3) +
         Comb3Remaining(g, s, lo1, hi1, lo2, hi2, lo3, hi3, j + 1)
  {
    hide Visits3, VisitsEach, Fill3Each, LeaveOut3, ChooseHead3, CombState;
    var p, q := Both(s, lo1, hi1, lo2, hi2), s[lo3..hi3];
    var d1 := hi1 - lo1;
    var x := ChooseHead3(p[j], Splits3(p[j + 1..], q, d1 - 1));
    var y := Splits3(p[j + 1..], q, d1);
    assert p[j..][1..] == p[j + 1..];
    assert Splits3(p[j..], q, d1) == x + LeaveOut3([p[j]], y);
    LeaveOut3Concat(p[..j], x, LeaveOut3([p[j]], y));
    LeaveOut3Twice(p[..j], [p[j]], y);
    assert p[..j] + [p[j]] == p[..j + 1];
    Fill3EachConcat(s, lo1, lo2, lo3, LeaveOut3(p[..j], x), LeaveOut3(p[..j + 1], y));
    VisitsEachConcat(g, Fill3Each(s, lo1, lo2, lo3, LeaveOut3(p[..j], x)),
                     Fill3Each(s, lo1, lo2, lo3, LeaveOut3(p[..j + 1], y)));
    Comb3Nested(g, s, lo1, hi1, lo2, hi2, lo3, hi3, j);
  }

  // ----- the second loop

  /** Once the second window holds the first elements for good, what remains is to combine
      the first and the third window. */
  lemma Comb3Turn<T>(g: Functor, s: seq<T>, lo1: nat, hi1: nat, lo2: nat, hi2: nat, lo3: nat, hi3: nat)
    requires lo1 + 1 < hi1 <= lo2 < hi2 <= lo3 < hi3 <= |s|
    ensures Comb3Remaining(g, s, lo1, hi1, lo2, hi2, lo3, hi3, hi2 - lo2)
      == CombRemaining(g, CombState(s, lo1, hi1, lo2, hi2, hi2 - lo2), lo1, hi1, lo3, hi3, 0)
  {
    hide VisitsEach, Fill3Each, FillEach, LeaveOut3, LeaveOut, OnlySecond, Splits, Fill, SplitLengths;
    var p, q := Both(s, lo1, hi1, lo2, hi2), s[lo3..hi3];
    var d1, d2 := hi1 - lo1, hi2 - lo2;
    var st := CombState(s, lo1, hi1, lo2, hi2, d2);
    assert p[d2..d2 + d1] == p[d2..] && p[..d2] + p[d2 + d1..] == p[..d2];
    assert Splits3(p[d2..], q, d1) == OnlySecond(Splits(p[d2..] + q, d1));
    SplitsLengths(p[d2..] + q, d1);
    FillEachSecond(s, lo1, p[d2..], lo2, p[..d2], lo3, Splits(p[d2..] + q, d1), hi3 - lo3);
    CombStateThird(s, lo1, hi1, lo2, hi2, d2, lo3, hi3);
    CombStateFirst(s, lo1, hi1, lo2, hi2, d2);
    var u := Both(st, lo1, hi1, lo3, hi3);
    assert u == p[d2..] + q;
    assert u[..0] == [] && u[0..] == u;
    LeaveOutNothing(Splits(u, d1));
  }

  lemma CombStateFirst<T>(s: seq<T>, lo1: nat, hi1: nat, lo2: nat, hi2: nat, j: nat)
    requires lo1 <= hi1 <= lo2 <= hi2 <= |s| && j <= hi2 - lo2
    ensures CombState(s, lo1, hi1, lo2, hi2, j)[lo1..hi1] == Both(s, lo1, hi1, lo2, hi2)[j..j + hi1 - lo1]
  {
    hide CombState;
    forall k | lo1 <= k < hi1
      ensures CombState(s, lo1, hi1, lo2, hi2, j)[k] == Both(s, lo1, hi1, lo2, hi2)[j + (k - lo1)]
    {
      CombStateAt(s, lo1, hi1, lo2, hi2, j, k);
    }
  }

  /** With a single element to choose: first from the first two windows, then from the
      third, the exchanges in between having set one element of the second one apart. */
  lemma Comb3One<T>(g: Functor, s: seq<T>, lo1: nat, lo2: nat, hi2: nat, lo3: nat, hi3: nat)
    requires lo1 + 1 <= lo2 < hi2 <= lo3 < hi3 <= |s|
    ensures Visits3(g, s, lo1, lo1 + 1, lo2, hi2, lo3, hi3)
      == CombRemaining(g, s, lo1, lo1 + 1, lo2, hi2, 0) +
         CombRemaining(g, CombState(s, lo1, lo1 + 1, lo2, hi2, hi2 - lo2 - 1), lo1, lo1 + 1, lo3, hi3, 1)
  {
    hide VisitsEach, Fill3Each, FillEach, LeaveOut, OnlyFirst, Swapped3, Splits, Fill, SplitLengths;
    var p, q := Both(s, lo1, lo1 + 1, lo2, hi2), s[lo3..hi3];
    var k := hi2 - lo2 - 1;
    var st := CombState(s, lo1, lo1 + 1, lo2, hi2, k);
    var r1 := p[..k] + [p[k + 1]];
    assert p[k..k + 1] == [p[k]] && p[..k] + p[k + 1..] == r1;
    SplitsLengths(p, 1);
    SplitsLengths(q, 1);
    FillEachFirst(s, lo1, lo2, lo3, hi3, Splits(p, 1), 1, hi2 - lo2);
    FillEachSwapped(s, lo1, [p[k]], lo2, r1, lo3, p[k], Splits(q, 1), hi3 - lo3 - 1);
    Fill3EachConcat(s, lo1, lo2, lo3, OnlyFirst(Splits(p, 1), q), Swapped3(r1, p[k], Splits(q, 1)));
    VisitsEachConcat(g, Fill3Each(s, lo1, lo2, lo3, OnlyFirst(Splits(p, 1), q)),
      Fill3Each(s, lo1, lo2, lo3, Swapped3(r1, p[k], Splits(q, 1))));
    assert p[..0] == [] && p[0..] == p;
    LeaveOutNothing(Splits(p, 1));
    CombStateThird(s, lo1, lo1 + 1, lo2, hi2, k, lo3, hi3);
    CombStateFirst(s, lo1, lo1 + 1, lo2, hi2, k);
    var u := Both(st, lo1, lo1 + 1, lo3, hi3);
    assert u == [p[k]] + q;
    assert u[..1] == [p[k]] && u[1..] == q;
  }

  // ----- the end

  /** The state after both loops. */
  function Comb3Final<T>(s: seq<T>, lo1: nat, hi1: nat, lo2: nat, hi2: nat, lo3: nat, hi3: nat): (r: seq<T>)
    requires lo1 < hi1 <= lo2 < hi2 <= lo3 < hi3 <= |s|
    ensures |r| == |s|
  {
    CombState(CombState(s, lo1, hi1, lo2, hi2, hi2 - lo2), lo1, hi1, lo3, hi3, hi3 - lo3)
  }

  lemma Comb3Mend<T>(s: seq<T>, lo1: nat, lo2: nat, hi2: nat, lo3: nat, hi3: nat)
    requires lo1 + 1 <= lo2 < hi2 <= lo3 < hi3 <= |s|
    ensures Transposed(CombState(CombState(s, lo1, lo1 + 1, lo2, hi2, hi2 - lo2 - 1),
                                 lo1, lo1 + 1, lo3, hi3, hi3 - lo3),
                       hi2 - 1, lo3)
      == Comb3Final(s, lo1, lo1 + 1, lo2, hi2, lo3, hi3)
  {
    hide CombState;
    var d2, d3 := hi2 - lo2, hi3 - lo3;
    var t := CombState(s, lo1, lo1 + 1, lo2, hi2, d2 - 1);
    var t' := CombState(s, lo1, lo1 + 1, lo2, hi2, d2);
    var w := CombState(t, lo1, lo1 + 1, lo3, hi3, d3);
    var w' := CombState(t', lo1, lo1 + 1, lo3, hi3, d3);
    forall k | 0 <= k < |s| ensures Transposed(w, hi2 - 1, lo3)[k] == w'[k] {
      var i := if k == hi2 - 1 then lo3 else if k == lo3 then hi2 - 1 else k;
      CombStateAt(t, lo1, lo1 + 1, lo3, hi3, d3, i);
      CombStateAt(s, lo1, lo1 + 1, lo2, hi2, d2 - 1, CombSource(i, lo1, lo1 + 1, lo3, hi3, d3));
      CombStateAt(t', lo1, lo1 + 1, lo3, hi3, d3, k);
      CombStateAt(s, lo1, lo1 + 1, lo2, hi2, d2, CombSource(k, lo1, lo1 + 1, lo3, hi3, d3));
    }
  }

  /** The final rotation at depth 0 leads back to the start. */
  lemma Comb3Restore<T>(s: seq<T>, lo1: nat, hi1: nat, lo2: nat, hi2: nat, lo3: nat, hi3: nat)
    requires lo1 < hi1 <= lo2 < hi2 <= lo3 < hi3 <= |s|
    ensures Rotated3(Comb3Final(s, lo1, hi1, lo2, hi2, lo3, hi3), lo1, hi1, lo2, hi2, lo3, hi3) == s
  {
    hide CombState, Rotated3, Rotated;
    var w := Comb3Final(s, lo1, hi1, lo2, hi2, lo3, hi3);
    forall k | 0 <= k < |s| ensures Rotated3(w, lo1, hi1, lo2, hi2, lo3, hi3)[k] == s[k] {
      Rotated3At(w, lo1, hi1, lo2, hi2, lo3, hi3, k);
      Comb3Source(s, lo1, hi1, lo2, hi2, lo3, hi3, RotationSource3(k, lo1, hi1, lo2, hi2, lo3, hi3));
    }
  }

  /** Below depth 0 it moves the first window on by one. */
  lemma Comb3Shift<T>(s: seq<T>, lo1: nat, hi1: nat, lo2: nat, hi2: nat, lo3: nat, hi3: nat)
    requires lo1 < hi1 <= lo2 && lo2 + 1 < hi2 <= lo3 < hi3 <= |s|
    ensures Rotated3(Comb3Final(s, lo1, hi1, lo2, hi2, lo3, hi3), lo1, hi1, lo2 + 1, hi2, lo3, hi3)
      == CombState(s, lo1, hi1, lo2, hi2, 1)
  {
    hide CombState, Rotated3, Rotated;
    var w := Comb3Final(s, lo1, hi1, lo2, hi2, lo3, hi3);
    forall k | 0 <= k < |s|
      ensures Rotated3(w, lo1, hi1, lo2 + 1, hi2, lo3, hi3)[k] == CombState(s, lo1, hi1, lo2, hi2, 1)[k]
    {
      Rotated3At(w, lo1, hi1, lo2 + 1, hi2, lo3, hi3, k);
      Comb3Source(s, lo1, hi1, lo2, hi2, lo3, hi3, RotationSource3(k, lo1, hi1, lo2 + 1, hi2, lo3, hi3));
      CombStateAt(s, lo1, hi1, lo2, hi2, 1, k);
    }
  }

  /** The same for a second window of one element. */
  lemma Comb3ShiftOne<T>(s: seq<T>, lo1: nat, hi1: nat, lo2: nat, hi2: nat, lo3: nat, hi3: nat)
    requires lo1 < hi1 <= lo2 && lo2 + 1 == hi2 <= lo3 < hi3 <= |s|
    ensures Rotated(Comb3Final(s, lo1, hi1, lo2, hi2, lo3, hi3), lo1, hi1, lo3, hi3)
      == CombState(s, lo1, hi1, lo2, hi2, 1)
  {
    hide CombState, Rotated3, Rotated;
    var w := Comb3Final(s, lo1, hi1, lo2, hi2, lo3, hi3);
    forall k | 0 <= k < |s| ensures Rotated(w, lo1, hi1, lo3, hi3)[k] == CombState(s, lo1, hi1, lo2, hi2, 1)[k] {
      RotatedAt(w, lo1, hi1, lo3, hi3, k);
      Comb3Source(s, lo1, hi1, lo2, hi2, lo3, hi3, RotationSource(k, lo1, hi1, lo3, hi3));
      CombStateAt(s, lo1, hi1, lo2, hi2, 1, k);
    }
  }

  lemma Comb3Source<T>(s: seq<T>, lo1: nat, hi1: nat, lo2: nat, hi2: nat, lo3: nat, hi3: nat, k: nat)
    requires lo1 < hi1 <= lo2 < hi2 <= lo3 < hi3 <= |s| && k < |s|
    ensures Comb3Final(s, lo1, hi1, lo2, hi2, lo3, hi3)[k]
      == s[CombSource(CombSource(k, lo1, hi1, lo3, hi3, hi3 - lo3), lo1, hi1, lo2, hi2, hi2 - lo2)]
  {
    hide CombState;
    CombStateAt(CombState(s, lo1, hi1, lo2, hi2, hi2 - lo2), lo1, hi1, lo3, hi3, hi3 - lo3, k);
    CombStateAt(s, lo1, hi1, lo2, hi2, hi2 - lo2, CombSource(k, lo1, hi1, lo3, hi3, hi3 - lo3));
  }
}
