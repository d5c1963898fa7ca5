/** The moves of single elements in reversible_permutation, on sequences: the first element
    wanders through the first half of the range, in the odd case the second one does so as
    well, and both are brought back at the end. */
module ReversibleSteps {
  import opened Lists
  import opened Enumeration
  import opened Functors
  import opened Rotations
  import opened PermutationSteps

  lemma FirstMovedAt<T>(s: seq<T>, lo: nat, i: nat, k: nat)
    requires lo + i < |s| && k < |s|
    ensures FirstMoved(s, lo, i)[k] == if lo <= k < lo + i then s[k + 1] else if k == lo + i then s[lo] else s[k]
  {
    hide Put;
    PutAt(s, lo, s[lo + 1..lo + i + 1] + [s[lo]], k);
  }

  lemma MoveNowhere<T>(s: seq<T>, lo: nat)
    requires lo < |s|
    ensures FirstMoved(s, lo, 0) == s
  {
    hide FirstMoved;
    forall k | 0 <= k < |s| ensures FirstMoved(s, lo, 0)[k] == s[k] { FirstMovedAt(s, lo, 0, k); }
  }

  lemma MoveOneFurther<T>(s: seq<T>, lo: nat, i: nat)
    requires 0 < i && lo + i < |s|
    ensures Transposed(FirstMoved(s, lo, i - 1), lo + i - 1, lo + i) == FirstMoved(s, lo, i)
  {
    hide FirstMoved;
    var st := FirstMoved(s, lo, i - 1);
    forall k | 0 <= k < |s| ensures Transposed(st, lo + i - 1, lo + i)[k] == FirstMoved(s, lo, i)[k] {
      FirstMovedAt(s, lo, i, k);
      FirstMovedAt(s, lo, i - 1, if k == lo + i - 1 then lo + i else if k == lo + i then lo + i - 1 else k);
    }
  }

  lemma MoveBack<T>(s: seq<T>, lo: nat, i: nat)
    requires lo + i < |s|
    ensures Rotated(FirstMoved(s, lo, i), lo, lo + i, lo + i, lo + i + 1) == s
  {
    hide FirstMoved, Rotated;
    var st := FirstMoved(s, lo, i);
    forall k | 0 <= k < |s| ensures Rotated(st, lo, lo + i, lo + i, lo + i + 1)[k] == s[k] {
      RotatedAt(st, lo, lo + i, lo + i, lo + i + 1, k);
      FirstMovedAt(s, lo, i, RotationSource(k, lo, lo + i, lo + i, lo + i + 1));
    }
  }

  /** The two reversals at the end of the case of odd length. */
  lemma MoveBackTwice<T>(s: seq<T>, lo: nat, i: nat)
    requires 0 < i && lo + i < |s|
    ensures Flipped(Flipped(FirstMoved(FirstMoved(s, lo, i), lo, i - 1), lo, lo + i - 1), lo, lo + i + 1) == s
  {
    hide FirstMoved, Flipped;
    var t := FirstMoved(s, lo, i);
    var u := FirstMoved(t, lo, i - 1);
    var v := Flipped(u, lo, lo + i - 1);
    forall k | 0 <= k < |s| ensures Flipped(v, lo, lo + i + 1)[k] == s[k] {
      FlippedAt(v, lo, lo + i + 1, k);
      var x := if lo <= k < lo + i + 1 then lo + lo + i - k else k;
      FlippedAt(u, lo, lo + i - 1, x);
      var y := if lo <= x < lo + i - 1 then lo + lo + i - 2 - x else x;
      FirstMovedAt(t, lo, i - 1, y);
      FirstMovedAt(s, lo, i, if lo <= y < lo + i - 1 then y + 1 else if y == lo + i - 1 then lo else y);
    }
  }

  lemma ReversibleVisits<T>(g: Functor, s: seq<T>, lo: nat, hi: nat)
    requires lo + 3 <= hi <= |s| && Valid(g, |s|)
    ensures Visits(ReversiblePermutation(lo, hi, g), s)
      == Visits(CallPermute(lo + 1, hi, g), s) + (FirstMovedFrom(lo, hi, g, s, 1) + FirstInMiddle(lo, hi, g, s))
  {
    hide VisitsEach, PutEach, FillEach, Fill3Each, Perms, Splits, Splits3, FirstMovedFrom, FirstInMiddle;
  }

  lemma FirstMovedStep<T>(g: Functor, s: seq<T>, lo: nat, hi: nat, i: nat, rest: seq<seq<T>>)
    requires 1 <= i < (hi - lo) / 2 && lo + 3 <= hi <= |s| && Valid(g, |s|)
    ensures FirstMovedFrom(lo, hi, g, s, i) + rest
      == Visits(CallCombine(lo, lo + i, lo + i + 1, hi, Rev2(lo, lo + i, lo + i + 1, hi, g)), FirstMoved(s, lo, i)) +
         (FirstMovedFrom(lo, hi, g, s, i + 1) + rest)
  {
    hide Visits, Rev2;
  }

  lemma SecondMovedStep<T>(g: Functor, mid: seq<T>, lo: nat, hi: nat, i: nat, rest: seq<seq<T>>)
    requires 1 <= i < (hi - lo) / 2 - 1 && lo + 3 < hi <= |mid| && Valid(g, |mid|)
    ensures var m := lo + (hi - lo) / 2;
      SecondMovedFrom(lo, hi, g, mid, i) + rest
      == Visits(CallCombine3(lo, lo + i, lo + i + 1, m, m + 1, hi, Rev3(lo, lo + i, lo + i + 1, m, m + 1, hi, g)),
                FirstMoved(mid, lo, i)) +
         (SecondMovedFrom(lo, hi, g, mid, i + 1) + rest)
  {
    hide Visits, Rev3;
  }

  lemma InMiddleParts<T>(g: Functor, s: seq<T>, lo: nat, hi: nat)
    requires lo + 3 < hi <= |s| && (hi - lo) % 2 == 1 && Valid(g, |s|)
    ensures var m := lo + (hi - lo) / 2;
      var mid := FirstMoved(s, lo, m - lo);
      FirstInMiddle(lo, hi, g, s)
      == Visits(CallCombine(lo + 1, m, m + 1, hi, Rev2(lo + 1, m, m + 1, hi, g)), mid) +
         (SecondMovedFrom(lo, hi, g, mid, 1) +
          Visits(CallCombine(lo, m - 1, m + 1, hi, Rev2(lo, m - 1, m + 1, hi, g)), FirstMoved(mid, lo, m - lo - 1)))
  {
    hide Visits, Rev2, SecondMovedFrom, FirstMoved;
  }


  lemma NoneMoved<T>(g: Functor, s: seq<T>, lo: nat, hi: nat)
    requires lo + 3 <= hi <= |s| && Valid(g, |s|)
    ensures FirstMovedFrom(lo, hi, g, s, (hi - lo) / 2) == []
  {
  }

  lemma NoneMovedSecond<T>(g: Functor, mid: seq<T>, lo: nat, hi: nat)
    requires lo + 5 <= hi <= |mid| && Valid(g, |mid|)
    ensures SecondMovedFrom(lo, hi, g, mid, (hi - lo) / 2 - 1) == []
  {
  }

  lemma NoMiddle<T>(g: Functor, s: seq<T>, lo: nat, hi: nat)
    requires lo + 3 <= hi <= |s| && Valid(g, |s|) && (hi - lo == 3 || (hi - lo) % 2 == 0)
    ensures FirstInMiddle(lo, hi, g, s) == if hi - lo == 3 then Visits(g, FirstMoved(s, lo, 1)) else []
  {
    hide Visits, FirstMoved;
  }
}
