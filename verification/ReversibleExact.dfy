/** reversible_permutation shows exactly one of every arrangement and its reverse: those in
    which the first element lies in the first half of the range, and if it is in the middle,
    those in which the second one does. */
module ReversibleExact {
  import opened Lists
  import opened Enumeration
  import opened Functors
  import opened Rotations
  import opened ReversibleSteps
  import opened Exactness
  import opened VisitsExact
  import opened Exactness3

  // ----- holding elements in place

  lemma HoldMultiset<T>(s: seq<T>, lo: nat, h: nat, hi: nat)
    requires lo <= h < hi <= |s|
    ensures multiset(s[lo..hi]) == multiset(s[lo..h]) + multiset(s[h + 1..hi]) + multiset{s[h]}
  {
    assert s[lo..hi] == s[lo..h] + [s[h]] + s[h + 1..hi];
  }

  lemma CancelMultiset<T>(a: multiset<T>, b: multiset<T>, x: multiset<T>)
    ensures a + x == b + x <==> a == b
  {
    if a + x == b + x { assert a == (a + x) - x == (b + x) - x == b; }
  }

  lemma OutsideHeld<T>(s: seq<T>, t: seq<T>, lo: nat, h: nat, hi: nat)
    requires lo <= h < hi <= |s|
    ensures SameOutside(s, t, lo, h, h + 1, hi, h + 1, hi)
      <==> SameOutside(s, t, lo, hi, lo, hi, lo, hi) && t[h] == s[h]
  {
  }

  lemma OutsideHeldTwo<T>(s: seq<T>, t: seq<T>, lo: nat, h1: nat, h2: nat, hi: nat)
    requires lo <= h1 < h2 < hi <= |s|
    ensures SameOutside(s, t, lo, h1, h1 + 1, h2, h2 + 1, hi)
      <==> SameOutside(s, t, lo, hi, lo, hi, lo, hi) && t[h1] == s[h1] && t[h2] == s[h2]
  {
  }

  lemma OutsideLength<T>(s: seq<T>, t: seq<T>, lo1: nat, hi1: nat, lo2: nat, hi2: nat, lo3: nat, hi3: nat)
    requires SameOutside(s, t, lo1, hi1, lo2, hi2, lo3, hi3)
    ensures |t| == |s|
  {
  }

  /** Redistributing what surrounds position h rearranges the window with h held. */
  lemma HoldOne<T>(s: seq<T>, t: seq<T>, lo: nat, h: nat, hi: nat)
    requires lo <= h < hi <= |s|
    ensures Redistributes(s, t, lo, h, h + 1, hi) <==> Arranges(s, t, lo, hi) && t[h] == s[h]
  {
    OutsideHeld(s, t, lo, h, hi);
    if SameOutside(s, t, lo, hi, lo, hi, lo, hi) && t[h] == s[h] {
      OutsideLength(s, t, lo, hi, lo, hi, lo, hi);
      hide SameOutside;
      HoldMultiset(s, lo, h, hi);
      HoldMultiset(t, lo, h, hi);
      CancelMultiset(multiset(t[lo..h]) + multiset(t[h + 1..hi]), multiset(s[lo..h])
        + multiset(s[h + 1..hi]), multiset{s[h]});
    }
  }

  /** An empty window adds nothing. */
  lemma EmptyWindow<T>(s: seq<T>, k: nat, m: multiset<T>)
    requires k <= |s|
    ensures multiset(s[k..k]) + m == m && m + multiset(s[k..k]) == m
  {
    assert s[k..k] == [];
  }

  lemma HoldFirst<T>(s: seq<T>, t: seq<T>, lo: nat, hi: nat)
    requires lo < hi <= |s|
    ensures Arranges(s, t, lo + 1, hi) <==> Arranges(s, t, lo, hi) && t[lo] == s[lo]
  {
    HoldOne(s, t, lo, lo, hi);
    EmptyWindow(s, lo, multiset(s[lo + 1..hi]));
    if |t| == |s| { EmptyWindow(t, lo, multiset(t[lo + 1..hi])); }
  }

  lemma HoldTwoMultiset<T>(s: seq<T>, lo: nat, h1: nat, h2: nat, hi: nat)
    requires lo <= h1 < h2 < hi <= |s|
    ensures multiset(s[lo..hi])
      == (multiset(s[lo..h1]) + multiset(s[h1 + 1..h2]) + multiset(s[h2 + 1..hi])) + multiset{s[h1], s[h2]}
  {
    assert s[lo..hi] == s[lo..h1] + [s[h1]] + s[h1 + 1..h2] + [s[h2]] + s[h2 + 1..hi];
  }

  lemma HoldTwo<T>(s: seq<T>, t: seq<T>, lo: nat, h1: nat, h2: nat, hi: nat)
    requires lo <= h1 < h2 < hi <= |s|
    ensures Redistributes3(s, t, lo, h1, h1 + 1, h2, h2 + 1, hi)
      <==> Arranges(s, t, lo, hi) && t[h1] == s[h1] && t[h2] == s[h2]
  {
    OutsideHeldTwo(s, t, lo, h1, h2, hi);
    if SameOutside(s, t, lo, hi, lo, hi, lo, hi) && t[h1] == s[h1] && t[h2] == s[h2] {
      OutsideLength(s, t, lo, hi, lo, hi, lo, hi);
      hide SameOutside;
      HoldTwoMultiset(s, lo, h1, h2, hi);
      HoldTwoMultiset(t, lo, h1, h2, hi);
      CancelMultiset(multiset(t[lo..h1]) + multiset(t[h1 + 1..h2]) + multiset(t[h2 + 1..hi]),
        multiset(s[lo..h1]) + multiset(s[h1 + 1..h2]) + multiset(s[h2 + 1..hi]), multiset{s[h1], s[h2]});
    }
  }

  lemma HoldTwoLeft<T>(s: seq<T>, t: seq<T>, lo: nat, h2: nat, hi: nat)
    requires lo < h2 < hi <= |s|
    ensures Redistributes(s, t, lo + 1, h2, h2 + 1, hi) <==> Arranges(s, t, lo, hi) && t[lo] == s[lo] && t[h2] == s[h2]
  {
    HoldTwo(s, t, lo, lo, h2, hi);
    EmptyWindow(s, lo, multiset(s[lo + 1..h2]));
    if |t| == |s| { EmptyWindow(t, lo, multiset(t[lo + 1..h2])); }
  }

  lemma HoldTwoAdjacent<T>(s: seq<T>, t: seq<T>, lo: nat, h2: nat, hi: nat)
    requires lo < h2 < hi <= |s|
    ensures Redistributes(s, t, lo, h2 - 1, h2 + 1, hi)
      <==> Arranges(s, t, lo, hi) && t[h2 - 1] == s[h2 - 1] && t[h2] == s[h2]
  {
    HoldTwo(s, t, lo, h2 - 1, h2, hi);
    EmptyWindow(s, h2, multiset(s[lo..h2 - 1]));
    if |t| == |s| { EmptyWindow(t, h2, multiset(t[lo..h2 - 1])); }
  }

  /** Moving the first element keeps the arrangements of the window. */
  lemma MovedArranges<T>(s: seq<T>, lo: nat, i: nat, hi: nat)
    requires lo + i < hi <= |s|
    ensures Arranges(s, FirstMoved(s, lo, i), lo, hi)
  {
    hide FirstMoved;
    var st := FirstMoved(s, lo, i);
    forall k | 0 <= k < |s| && !(lo <= k < hi) ensures st[k] == s[k] { FirstMovedAt(s, lo, i, k); }
    var w := s[lo + 1..lo + i + 1] + [s[lo]] + s[lo + i + 1..hi];
    forall j | 0 <= j < hi - lo ensures st[lo..hi][j] == w[j] { FirstMovedAt(s, lo, i, lo + j); }
    assert st[lo..hi] == w;
    assert s[lo..hi] == [s[lo]] + s[lo + 1..lo + i + 1] + s[lo + i + 1..hi];
  }

  lemma ArrangesFrom<T>(s: seq<T>, st: seq<T>, t: seq<T>, lo: nat, hi: nat)
    requires lo <= hi <= |s| && Arranges(s, st, lo, hi)
    ensures Arranges(s, t, lo, hi) <==> Arranges(st, t, lo, hi)
  {
  }

  lemma ArrangesDistinct<T>(s: seq<T>, t: seq<T>, lo: nat, hi: nat)
    requires lo <= hi <= |s| && Distinct(s) && Arranges(s, t, lo, hi)
    ensures Distinct(t)
  {
    RedistributesDistinct(s, t, lo, hi, hi, hi);
  }

  // ----- the phases of reversible_permutation

  /** x occurs in positions from to below to. */
  ghost predicate Within<T>(t: seq<T>, x: T, from: nat, to: nat) {
    exists p :: from <= p < to && p < |t| && t[p] == x
  }

  lemma PhaseFirst<T>(s: seq<T>, lo: nat, hi: nat, i: nat, t: seq<T>)
    requires lo + i < hi <= |s| && Distinct(s)
    ensures t in Visits(CallCombine(lo, lo + i, lo + i + 1, hi, Rev2(lo, lo + i, lo + i + 1, hi, BoundRange)),
                        FirstMoved(s, lo, i))
      <==> Arranges(s, t, lo, hi) && t[lo + i] == s[lo]
  {
    hide Visits, FirstMoved, Arranges, Redistributes, Rev2;
    var st := FirstMoved(s, lo, i);
    MovedArranges(s, lo, i, hi);
    ArrangesDistinct(s, st, lo, hi);
    CombineTwo(st, lo, lo + i, lo + i + 1, hi, t);
    HoldOne(st, t, lo, lo + i, hi);
    ArrangesFrom(s, st, t, lo, hi);
    FirstMovedAt(s, lo, i, lo + i);
  }

  lemma {:induction false} PhaseFirstFrom<T>(s: seq<T>, lo: nat, hi: nat, i: nat, t: seq<T>)
    requires 1 <= i <= (hi - lo) / 2 && lo + 3 <= hi <= |s| && Distinct(s)
    ensures t in FirstMovedFrom(lo, hi, BoundRange, s, i)
      <==> Arranges(s, t, lo, hi) && Within(t, s[lo], lo + i, lo + (hi - lo) / 2)
    decreases hi - i
  {
    hide Visits, FirstMoved, Arranges, Rev2;
    if i < (hi - lo) / 2 {
      PhaseFirst(s, lo, hi, i, t);
      PhaseFirstFrom(s, lo, hi, i + 1, t);
      if Arranges(s, t, lo, hi) {
        assert |t| == |s| by { ArrangesLengths(s, t, lo, hi); }
        assert Within(t, s[lo], lo + i, lo + (hi - lo) / 2)
          <==> t[lo + i] == s[lo] || Within(t, s[lo], lo + i + 1, lo + (hi - lo) / 2);
      }
    }
  }

  lemma ArrangesLengths<T>(s: seq<T>, t: seq<T>, lo: nat, hi: nat)
    requires lo <= hi <= |s| && Arranges(s, t, lo, hi)
    ensures |t| == |s|
  {
  }

  /** Distinct elements are found in one place only. */
  lemma WithinOnce<T>(t: seq<T>, x: T, p: nat, from: nat, to: nat)
    requires Distinct(t) && p < |t| && t[p] == x
    ensures Within(t, x, from, to) <==> from <= p < to
  {
  }

  lemma {:induction false} PhaseFirstDistinct<T(!new)>(s: seq<T>, lo: nat, hi: nat, i: nat)
    requires 1 <= i <= (hi - lo) / 2 && lo + 3 <= hi <= |s| && Distinct(s)
    ensures Distinct(FirstMovedFrom(lo, hi, BoundRange, s, i))
    decreases hi - i
  {
    hide Visits, FirstMoved, Arranges, Rev2;
    if i < (hi - lo) / 2 {
      var st := FirstMoved(s, lo, i);
      MovedArranges(s, lo, i, hi);
      ArrangesDistinct(s, st, lo, hi);
      CombineTwoDistinct(st, lo, lo + i, lo + i + 1, hi);
      PhaseFirstDistinct(s, lo, hi, i + 1);
      var x := Visits(CallCombine(lo, lo + i, lo + i + 1, hi, Rev2(lo, lo + i, lo + i + 1, hi, BoundRange)), st);
      var y := FirstMovedFrom(lo, hi, BoundRange, s, i + 1);
      forall t | t in x ensures t !in y {
        PhaseFirst(s, lo, hi, i, t);
        PhaseFirstFrom(s, lo, hi, i + 1, t);
        ArrangesDistinct(s, t, lo, hi);
        ArrangesLengths(s, t, lo, hi);
        WithinOnce(t, s[lo], lo + i, lo + i + 1, lo + (hi - lo) / 2);
      }
      DistinctConcat(x, y);
    }
  }

  // ----- the first element in the middle

  /** The state with the first element in the middle. */
  function Middled<T>(s: seq<T>, lo: nat, hi: nat): (r: seq<T>)
    requires lo < hi <= |s|
    ensures |r| == |s|
  {
    FirstMoved(s, lo, (hi - lo) / 2)
  }

  lemma MiddledArranges<T>(s: seq<T>, lo: nat, hi: nat)
    requires lo + 3 <= hi <= |s| && Distinct(s)
    ensures var mid := Middled(s, lo, hi);
      && Arranges(s, mid, lo, hi) && Distinct(mid)
      && mid[lo + (hi - lo) / 2] == s[lo] && mid[lo] == s[lo + 1]
  {
    hide FirstMoved, Arranges;
    var k := (hi - lo) / 2;
    MovedArranges(s, lo, k, hi);
    ArrangesDistinct(s, FirstMoved(s, lo, k), lo, hi);
    FirstMovedAt(s, lo, k, lo + k);
    FirstMovedAt(s, lo, k, lo);
  }

  lemma PhaseSecond<T>(mid: seq<T>, lo: nat, hi: nat, i: nat, t: seq<T>)
    requires var m := lo + (hi - lo) / 2;
      lo + 3 < hi <= |mid| && 1 <= i && lo + i + 1 < m && Distinct(mid)
    ensures var m := lo + (hi - lo) / 2;
      t in Visits(CallCombine3(lo, lo + i, lo + i + 1, m, m
        + 1, hi, Rev3(lo, lo + i, lo + i + 1, m, m + 1, hi, BoundRange)), FirstMoved(mid, lo, i))
      <==> Arranges(mid, t, lo, hi) && t[lo + i] == mid[lo] && t[m] == mid[m]
  {
    hide Visits, FirstMoved, Arranges, Redistributes3, Rev3;
    var m := lo + (hi - lo) / 2;
    var st := FirstMoved(mid, lo, i);
    MovedArranges(mid, lo, i, hi);
    ArrangesDistinct(mid, st, lo, hi);
    CombineThree(st, lo, lo + i, lo + i + 1, m, m + 1, hi, t);
    HoldTwo(st, t, lo, lo + i, m, hi);
    ArrangesFrom(mid, st, t, lo, hi);
    FirstMovedAt(mid, lo, i, lo + i);
    FirstMovedAt(mid, lo, i, m);
  }

  lemma {:induction false} PhaseSecondFrom<T>(mid: seq<T>, lo: nat, hi: nat, i: nat, t: seq<T>)
    requires 1 <= i <= (hi - lo) / 2 - 1 && lo + 3 < hi <= |mid| && Distinct(mid)
    ensures var m := lo + (hi - lo) / 2;
      t in SecondMovedFrom(lo, hi, BoundRange, mid, i)
      <==> Arranges(mid, t, lo, hi) && t[m] == mid[m] && Within(t, mid[lo], lo + i, m - 1)
    decreases hi - i
  {
    hide Visits, FirstMoved, Arranges, Rev3;
    var m := lo + (hi - lo) / 2;
    if i < m - lo - 1 {
      PhaseSecond(mid, lo, hi, i, t);
      PhaseSecondFrom(mid, lo, hi, i + 1, t);
      if Arranges(mid, t, lo, hi) {
        assert |t| == |mid| by { ArrangesLengths(mid, t, lo, hi); }
        assert Within(t, mid[lo], lo + i, m - 1) <==> t[lo + i] == mid[lo] || Within(t, mid[lo], lo + i + 1, m - 1);
      }
    }
  }

  lemma {:induction false} PhaseSecondDistinct<T(!new)>(mid: seq<T>, lo: nat, hi: nat, i: nat)
    requires 1 <= i <= (hi - lo) / 2 - 1 && lo + 3 < hi <= |mid| && Distinct(mid)
    ensures Distinct(SecondMovedFrom(lo, hi, BoundRange, mid, i))
    decreases hi - i
  {
    hide Visits, FirstMoved, Arranges, Rev3;
    var m := lo + (hi - lo) / 2;
    if i < m - lo - 1 {
      var st := FirstMoved(mid, lo, i);
      MovedArranges(mid, lo, i, hi);
      ArrangesDistinct(mid, st, lo, hi);
      CombineThreeDistinct(st, lo, lo + i, lo + i + 1, m, m + 1, hi);
      PhaseSecondDistinct(mid, lo, hi, i + 1);
      var x := Visits(CallCombine3(lo, lo + i, lo + i + 1, m, m
        + 1, hi, Rev3(lo, lo + i, lo + i + 1, m, m + 1, hi, BoundRange)), st);
      var y := SecondMovedFrom(lo, hi, BoundRange, mid, i + 1);
      forall t | t in x ensures t !in y {
        PhaseSecond(mid, lo, hi, i, t);
        PhaseSecondFrom(mid, lo, hi, i + 1, t);
        ArrangesDistinct(mid, t, lo, hi);
        ArrangesLengths(mid, t, lo, hi);
        WithinOnce(t, mid[lo], lo + i, lo + i + 1, m - 1);
      }
      DistinctConcat(x, y);
    }
  }

  /** The two phases that surround SecondMovedFrom. */
  lemma PhaseEdges<T>(mid: seq<T>, lo: nat, hi: nat, t: seq<T>)
    requires lo + 5 <= hi <= |mid| && Distinct(mid)
    ensures var m := lo + (hi - lo) / 2;
      t in Visits(CallCombine(lo + 1, m, m + 1, hi, Rev2(lo + 1, m, m + 1, hi, BoundRange)), mid)
      <==> Arranges(mid, t, lo, hi) && t[m] == mid[m] && t[lo] == mid[lo]
    ensures var m := lo + (hi - lo) / 2;
      t in Visits(CallCombine(lo, m - 1, m + 1, hi, Rev2(lo, m - 1, m + 1, hi, BoundRange)),
                  FirstMoved(mid, lo, m - lo - 1))
      <==> Arranges(mid, t, lo, hi) && t[m] == mid[m] && t[m - 1] == mid[lo]
  {
    hide Visits, FirstMoved, Arranges, Redistributes, Rev2;
    var m := lo + (hi - lo) / 2;
    CombineTwo(mid, lo + 1, m, m + 1, hi, t);
    HoldTwoLeft(mid, t, lo, m, hi);
    var st := FirstMoved(mid, lo, m - lo - 1);
    MovedArranges(mid, lo, m - lo - 1, hi);
    ArrangesDistinct(mid, st, lo, hi);
    CombineTwo(st, lo, m - 1, m + 1, hi, t);
    HoldTwoAdjacent(st, t, lo, m, hi);
    ArrangesFrom(mid, st, t, lo, hi);
    FirstMovedAt(mid, lo, m - lo - 1, m - 1);
    FirstMovedAt(mid, lo, m - lo - 1, m);
  }

  /** The first element in the middle and the second one before it. */
  ghost predicate MiddleForm<T>(s: seq<T>, t: seq<T>, lo: nat, hi: nat)
    requires lo + 3 <= hi <= |s| && |t| == |s|
  {
    var m := lo + (hi - lo) / 2;
    (hi - lo) % 2 == 1 && t[m] == s[lo] && Within(t, s[lo + 1], lo, m)
  }

  lemma PhaseMiddle<T>(s: seq<T>, lo: nat, hi: nat, t: seq<T>)
    requires lo + 3 <= hi <= |s| && Distinct(s)
    ensures t in FirstInMiddle(lo, hi, BoundRange, s) <==> Arranges(s, t, lo, hi) && MiddleForm(s, t, lo, hi)
  {
    hide Visits, FirstMoved, Arranges, Rev2, SecondMovedFrom, FirstInMiddle, Middled;
    if (hi - lo) % 2 == 0 {
      NoMiddle(BoundRange, s, lo, hi);
    } else if hi - lo == 3 {
      PhaseThree(s, lo, hi, t);
    } else {
      PhaseMiddleOdd(s, lo, hi, t);
    }
  }

  lemma PhaseThree<T>(s: seq<T>, lo: nat, hi: nat, t: seq<T>)
    requires lo + 3 == hi <= |s| && Distinct(s)
    ensures t in FirstInMiddle(lo, hi, BoundRange, s) <==> Arranges(s, t, lo, hi) && MiddleForm(s, t, lo, hi)
  {
    hide Visits, FirstMoved, FirstInMiddle;
    var st := FirstMoved(s, lo, 1);
    assert Valid(BoundRange, |s|);
    NoMiddle(BoundRange, s, lo, hi);
    BoundShows(st, t);
    MovedArranges(s, lo, 1, hi);
    FirstMovedAt(s, lo, 1, lo);
    FirstMovedAt(s, lo, 1, lo + 1);
    FirstMovedAt(s, lo, 1, lo + 2);
    if Arranges(s, t, lo, hi) && MiddleForm(s, t, lo, hi) {
      assert t[lo] == s[lo + 1] && t[lo + 1] == s[lo];
      ThirdFollows(s, t, lo, st);
    }
    if t == st {
      assert Within(t, s[lo + 1], lo, lo + 1);
    }
  }

  /** Two of three elements in place put the third one in place. */
  lemma ThirdFollows<T>(s: seq<T>, t: seq<T>, lo: nat, st: seq<T>)
    requires lo + 3 <= |s| && Arranges(s, t, lo, lo + 3) && Arranges(s, st, lo, lo + 3)
    requires t[lo] == st[lo] && t[lo + 1] == st[lo + 1]
    ensures t == st
  {
    hide Arranges;
    ArrangesFrom(s, st, t, lo, lo + 3);
    ArrangesLengths(s, st, lo, lo + 3);
    HoldFirst(st, t, lo, lo + 3);
    HoldFirst(st, t, lo + 1, lo + 3);
    OneElementLeft(st, t, lo + 2);
  }

  lemma PhaseMiddleOdd<T>(s: seq<T>, lo: nat, hi: nat, t: seq<T>)
    requires lo + 3 < hi <= |s| && (hi - lo) % 2 == 1 && Distinct(s)
    ensures t in FirstInMiddle(lo, hi, BoundRange, s) <==> Arranges(s, t, lo, hi) && MiddleForm(s, t, lo, hi)
  {
    hide Visits, FirstMoved, Arranges, Rev2, SecondMovedFrom, FirstInMiddle;
    var m := lo + (hi - lo) / 2;
    var mid := Middled(s, lo, hi);
    assert Valid(BoundRange, |s|);
    InMiddleParts(BoundRange, s, lo, hi);
    MiddledArranges(s, lo, hi);
    PhaseEdges(mid, lo, hi, t);
    PhaseSecondFrom(mid, lo, hi, 1, t);
    ArrangesFrom(s, mid, t, lo, hi);
    if Arranges(s, t, lo, hi) {
      ArrangesLengths(s, t, lo, hi);
      WithinCases(t, mid[lo], lo, m);
    }
  }

  lemma WithinCases<T>(t: seq<T>, x: T, lo: nat, m: nat)
    requires lo + 2 <= m <= |t|
    ensures Within(t, x, lo, m) <==> t[lo] == x || Within(t, x, lo + 1, m - 1) || t[m - 1] == x
  {
  }

  lemma PhaseMiddleDistinct<T(!new)>(s: seq<T>, lo: nat, hi: nat)
    requires lo + 3 <= hi <= |s| && Distinct(s)
    ensures Distinct(FirstInMiddle(lo, hi, BoundRange, s))
  {
    hide Visits, FirstMoved, Arranges, Rev2, SecondMovedFrom, FirstInMiddle;
    assert Valid(BoundRange, |s|);
    if (hi - lo) % 2 == 0 || hi - lo == 3 {
      NoMiddle(BoundRange, s, lo, hi);
      BoundShows(FirstMoved(s, lo, 1), []);
    } else {
      var m := lo + (hi - lo) / 2;
      var mid := Middled(s, lo, hi);
      InMiddleParts(BoundRange, s, lo, hi);
      MiddledArranges(s, lo, hi);
      var st := FirstMoved(mid, lo, m - lo - 1);
      MovedArranges(mid, lo, m - lo - 1, hi);
      ArrangesDistinct(mid, st, lo, hi);
      var x := Visits(CallCombine(lo + 1, m, m + 1, hi, Rev2(lo + 1, m, m + 1, hi, BoundRange)), mid);
      var y := SecondMovedFrom(lo, hi, BoundRange, mid, 1);
      var z := Visits(CallCombine(lo, m - 1, m + 1, hi, Rev2(lo, m - 1, m + 1, hi, BoundRange)), st);
      CombineTwoDistinct(mid, lo + 1, m, m + 1, hi);
      PhaseSecondDistinct(mid, lo, hi, 1);
      CombineTwoDistinct(st, lo, m - 1, m + 1, hi);
      forall t | t in y ensures t !in z && t !in x { SecondOnce(mid, lo, hi, t); }
      forall t | t in x ensures t !in z { SecondOnce(mid, lo, hi, t); }
      DistinctConcat(y, z);
      DistinctConcat(x, y + z);
    }
  }

  /** The three phases with the first element in the middle do not overlap. */
  lemma SecondOnce<T>(mid: seq<T>, lo: nat, hi: nat, t: seq<T>)
    requires lo + 5 <= hi <= |mid| && Distinct(mid)
    ensures var m := lo + (hi - lo) / 2;
      var inX := t in Visits(CallCombine(lo + 1, m, m + 1, hi, Rev2(lo + 1, m, m + 1, hi, BoundRange)), mid);
      var inY := t in SecondMovedFrom(lo, hi, BoundRange, mid, 1);
      var inZ := t in Visits(CallCombine(lo, m - 1, m + 1, hi, Rev2(lo, m - 1, m + 1, hi, BoundRange)),
                             FirstMoved(mid, lo, m - lo - 1));
      !(inX && inY) && !(inX && inZ) && !(inY && inZ)
  {
    hide Visits, FirstMoved, Arranges, Rev2, SecondMovedFrom;
    var m := lo + (hi - lo) / 2;
    PhaseEdges(mid, lo, hi, t);
    PhaseSecondFrom(mid, lo, hi, 1, t);
    if Arranges(mid, t, lo, hi) {
      ArrangesLengths(mid, t, lo, hi);
      ArrangesDistinct(mid, t, lo, hi);
    }
  }

  // ----- all phases

  /** The arrangements that are shown themselves: the first element in the first half, or
      in the middle with the second one before it. */
  ghost predicate Canonical<T>(s: seq<T>, t: seq<T>, lo: nat, hi: nat)
    requires lo + 2 <= hi <= |s| && |t| == |s|
  {
    Within(t, s[lo], lo, lo + (hi - lo) / 2) || (lo + 3 <= hi && MiddleForm(s, t, lo, hi))
  }

  lemma ReversibleShows<T>(s: seq<T>, lo: nat, hi: nat, t: seq<T>)
    requires lo + 2 <= hi <= |s| && Distinct(s)
    ensures t in Visits(ReversiblePermutation(lo, hi, BoundRange), s)
      <==> Arranges(s, t, lo, hi) && Canonical(s, t, lo, hi)
  {
    hide FirstMovedFrom, FirstInMiddle, Arranges, MiddleForm, PutEach, VisitsEach, Perms;
    if hi - lo == 2 {
      BoundShows(s, t);
      if Arranges(s, t, lo, hi) {
        ArrangesLengths(s, t, lo, hi);
        if Canonical(s, t, lo, hi) {
          HoldFirst(s, t, lo, hi);
          OneElementLeft(s, t, lo + 1);
        }
      }
      if t == s {
        ArrangesItself(s, lo, hi);
        assert Within(t, s[lo], lo, lo + 1);
      }
    } else {
      assert Valid(BoundRange, |s|);
      ReversibleVisits(BoundRange, s, lo, hi);
      OneWindow(s, lo + 1, hi, t);
      HoldFirst(s, t, lo, hi);
      PhaseFirstFrom(s, lo, hi, 1, t);
      PhaseMiddle(s, lo, hi, t);
      if Arranges(s, t, lo, hi) {
        ArrangesLengths(s, t, lo, hi);
        var m := lo + (hi - lo) / 2;
        assert Within(t, s[lo], lo, m) <==> t[lo] == s[lo] || Within(t, s[lo], lo + 1, m);
      }
    }
  }

  lemma ArrangesItself<T>(s: seq<T>, lo: nat, hi: nat)
    requires lo <= hi <= |s|
    ensures Arranges(s, s, lo, hi)
  {
  }

  lemma OneElementLeft<T>(s: seq<T>, t: seq<T>, lo: nat)
    requires lo < |s| && Arranges(s, t, lo, lo + 1)
    ensures t == s
  {
    assert s[lo..lo + 1] == [s[lo]] && t[lo..lo + 1] == [t[lo]];
    assert t[lo] in multiset(t[lo..lo + 1]);
    assert t[lo] in multiset(s[lo..lo + 1]);
  }

  lemma ReversibleDistinct<T(!new)>(s: seq<T>, lo: nat, hi: nat)
    requires lo <= hi <= |s| && Distinct(s)
    ensures Distinct(Visits(ReversiblePermutation(lo, hi, BoundRange), s))
  {
    hide FirstMovedFrom, FirstInMiddle, Arranges, MiddleForm, PutEach, VisitsEach, Perms;
    if hi - lo < 3 {
      BoundShows(s, []);
    } else {
      assert Valid(BoundRange, |s|);
      ReversibleVisits(BoundRange, s, lo, hi);
      var x := Visits(CallPermute(lo + 1, hi, BoundRange), s);
      var y, z := FirstMovedFrom(lo, hi, BoundRange, s, 1), FirstInMiddle(lo, hi, BoundRange, s);
      OneWindowDistinct(s, lo + 1, hi);
      PhaseFirstDistinct(s, lo, hi, 1);
      PhaseMiddleDistinct(s, lo, hi);
      forall t | t in y ensures t !in z && t !in x { FirstOnce(s, lo, hi, t); }
      forall t | t in x ensures t !in z { FirstOnce(s, lo, hi, t); }
      DistinctConcat(y, z);
      DistinctConcat(x, y + z);
    }
  }

  lemma FirstOnce<T>(s: seq<T>, lo: nat, hi: nat, t: seq<T>)
    requires lo + 3 <= hi <= |s| && Distinct(s)
    ensures var inX := t in Visits(CallPermute(lo + 1, hi, BoundRange), s);
      var inY := t in FirstMovedFrom(lo, hi, BoundRange, s, 1);
      var inZ := t in FirstInMiddle(lo, hi, BoundRange, s);
      !(inX && inY) && !(inX && inZ) && !(inY && inZ)
  {
    hide Visits, FirstMovedFrom, FirstInMiddle, Arranges;
    OneWindow(s, lo + 1, hi, t);
    HoldFirst(s, t, lo, hi);
    PhaseFirstFrom(s, lo, hi, 1, t);
    PhaseMiddle(s, lo, hi, t);
    if Arranges(s, t, lo, hi) {
      ArrangesLengths(s, t, lo, hi);
      ArrangesDistinct(s, t, lo, hi);
    }
  }

  /** Reversing an arrangement gives an arrangement. */
  lemma FlippedArranges<T>(s: seq<T>, t: seq<T>, lo: nat, hi: nat)
    requires lo <= hi <= |s| && Arranges(s, t, lo, hi)
    ensures Arranges(s, Flipped(t, lo, hi), lo, hi)
  {
    assert Flipped(t, lo, hi)[lo..hi] == Reversed(t[lo..hi]);
    ReversedMultiset(t[lo..hi]);
    forall k | 0 <= k < |s| && !(lo <= k < hi) ensures Flipped(t, lo, hi)[k] == s[k] { FlippedAt(t, lo, hi, k); }
  }

  lemma {:induction false} ReversedMultiset<T>(s: seq<T>)
    ensures multiset(Reversed(s)) == multiset(s)
    decreases |s|
  {
    if s != [] {
      ReversedMultiset(s[1..]);
      MultisetCons(s);
      assert Reversed(s) == Reversed(s[1..]) + [s[0]];
    }
  }

  /** Of an arrangement and its reverse exactly one is shown. */
  lemma ExactlyOneOfTwo<T>(s: seq<T>, lo: nat, hi: nat, t: seq<T>)
    requires lo + 2 <= hi <= |s| && Distinct(s) && Arranges(s, t, lo, hi)
    ensures var shown := Visits(ReversiblePermutation(lo, hi, BoundRange), s);
      t in shown <==> Flipped(t, lo, hi) !in shown
  {
    hide Visits, Flipped, Arranges, Canonical;
    ArrangesLengths(s, t, lo, hi);
    var r := Flipped(t, lo, hi);
    FlippedArranges(s, t, lo, hi);
    ReversibleShows(s, lo, hi, t);
    ReversibleShows(s, lo, hi, r);
    CanonicalFlips(s, lo, hi, t);
  }

  lemma CanonicalFlips<T>(s: seq<T>, lo: nat, hi: nat, t: seq<T>)
    requires lo + 2 <= hi <= |s| && Distinct(s) && |t| == |s| && Arranges(s, t, lo, hi)
    ensures Canonical(s, t, lo, hi) <==> !Canonical(s, Flipped(t, lo, hi), lo, hi)
  {
    hide Flipped, Arranges;
    var r := Flipped(t, lo, hi);
    FlippedArranges(s, t, lo, hi);
    ArrangesDistinct(s, t, lo, hi);
    ArrangesDistinct(s, r, lo, hi);
    var p := PositionOf(s, t, lo, hi, lo);
    var p' := lo + hi - 1 - p;
    FlippedAt(t, lo, hi, p');
    var m := lo + (hi - lo) / 2;
    WithinOnce(t, s[lo], p, lo, m);
    WithinOnce(r, s[lo], p', lo, m);
    if lo + 3 <= hi && (hi - lo) % 2 == 1 && p == m {
      var q := PositionOf(s, t, lo, hi, lo + 1);
      var q' := lo + hi - 1 - q;
      FlippedAt(t, lo, hi, q');
      WithinOnce(t, s[lo + 1], q, lo, m);
      WithinOnce(r, s[lo + 1], q', lo, m);
    }
  }

  lemma PositionOf<T>(s: seq<T>, t: seq<T>, lo: nat, hi: nat, k: nat) returns (p: nat)
    requires lo <= k < hi <= |s| && Arranges(s, t, lo, hi)
    ensures lo <= p < hi && p < |t| && t[p] == s[k]
  {
    assert s[lo..hi][k - lo] == s[k];
    assert s[k] in multiset(s[lo..hi]);
    assert s[k] in multiset(t[lo..hi]);
    assert s[k] in t[lo..hi];
    var j :| 0 <= j < |t[lo..hi]| && t[lo..hi][j] == s[k];
    p := lo + j;
  }
}
