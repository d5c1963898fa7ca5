/** The function objects of src/CombinatoricUtils.hpp as data, and what each of them
    shows to the user's function, as a list of states of the whole range. A nest of
    function objects is a nest of datatype values, with the user's function at its end. */
module Functors {
  import opened Lists
  import opened Enumeration

  /** Positions are offsets into the range [0, n). */
  datatype Functor =
    | BoundRange
    | CallPermute(first: nat, last: nat, f: Functor)
    | CallCombine(first1: nat, last1: nat, first2: nat, last2: nat, f: Functor)
    | CallCombine3(first1: nat, last1: nat, first2: nat, last2: nat, first3: nat, last3: nat, f: Functor)
    | CircularPermutation(first: nat, last: nat, f: Functor)
    | ReversiblePermutation(first: nat, last: nat, f: Functor)
    | ReverseCircularPermutation(first: nat, last: nat, f: Functor)

  /** rev2: for each permutation of one window, all permutations of another. */
  function Rev2(first1: nat, last1: nat, first2: nat, last2: nat, f: Functor): (r: Functor)
    ensures Rank(r) == Rank(f) + 2
    ensures forall n {:trigger Valid(f, n)} ::
      Valid(f, n) && first1 <= last1 <= n && first2 <= last2 <= n ==> Valid(r, n)
  {
    CallPermute(first1, last1, CallPermute(first2, last2, f))
  }

  /** rev3: the same over three windows. */
  function Rev3(first1: nat, last1: nat, first2: nat, last2: nat, first3: nat, last3: nat, f: Functor): (r: Functor)
    ensures Rank(r) == Rank(f) + 3
    ensures forall n {:trigger Valid(f, n)} ::
      Valid(f, n) && first1 <= last1 <= n && first2 <= last2 <= n && first3 <= last3 <= n ==> Valid(r, n)
  {
    CallPermute(first1, last1, Rev2(first2, last2, first3, last3, f))
  }

  /** The windows lie inside a range of n elements, in order, without overlap. */
  predicate Valid(f: Functor, n: nat) {
    match f
    case BoundRange => true
    case CallPermute(lo, hi, g) => lo <= hi <= n && Valid(g, n)
    case CallCombine(lo1, hi1, lo2, hi2, g) => lo1 <= hi1 <= lo2 <= hi2 <= n && Valid(g, n)
    case CallCombine3(lo1, hi1, lo2, hi2, lo3, hi3, g) =>
      && lo1 < hi1 <= lo2 < hi2 <= lo3 < hi3 <= n && Valid(g, n)
    case CircularPermutation(lo, hi, g) => lo <= hi <= n && Valid(g, n)
    case ReversiblePermutation(lo, hi, g) => lo <= hi <= n && Valid(g, n)
    case ReverseCircularPermutation(lo, hi, g) => lo < hi <= n && Valid(g, n)
  }

  /** Bounds the nesting of calls. */
  function Rank(f: Functor): nat {
    match f
    case BoundRange => 0
    case CallPermute(_, _, g) => Rank(g) + 1
    case CallCombine(_, _, _, _, g) => Rank(g) + 1
    case CallCombine3(_, _, _, _, _, _, g) => Rank(g) + 2
    case CircularPermutation(_, _, g) => Rank(g) + 2
    case ReversiblePermutation(_, _, g) => Rank(g) + 6
    case ReverseCircularPermutation(_, _, g) => Rank(g) + 7
  }

  // ----- lists of states

  function PutEach<T>(s: seq<T>, lo: nat, ts: seq<seq<T>>): (r: seq<seq<T>>)
    ensures |r| == |ts|
  {
    if ts == [] then [] else [Put(s, lo, ts[0])] + PutEach(s, lo, ts[1..])
  }

  function Fill<T>(s: seq<T>, lo1: nat, c: seq<T>, lo2: nat, r: seq<T>): (t: seq<T>)
    ensures |t| == |s|
  {
    Put(Put(s, lo1, c), lo2, r)
  }

  function FillEach<T>(s: seq<T>, lo1: nat, lo2: nat, ps: seq<Split<T>>): (r: seq<seq<T>>)
    ensures |r| == |ps|
  {
    if ps == [] then [] else [Fill(s, lo1, ps[0].chosen, lo2, ps[0].rest)] + FillEach(s, lo1, lo2, ps[1..])
  }

  function Fill3<T>(s: seq<T>, lo1: nat, c: seq<T>, lo2: nat, r1: seq<T>, lo3: nat, r2: seq<T>): (t: seq<T>)
    ensures |t| == |s|
  {
    Put(Fill(s, lo1, c, lo2, r1), lo3, r2)
  }

  function Fill3Each<T>(s: seq<T>, lo1: nat, lo2: nat, lo3: nat, ps: seq<Split3<T>>): (r: seq<seq<T>>)
    ensures |r| == |ps|
  {
    if ps == [] then [] else
      [Fill3(s, lo1, ps[0].chosen, lo2, ps[0].rest1, lo3, ps[0].rest2)] + Fill3Each(s, lo1, lo2, lo3, ps[1..])
  }

  // ----- what a functor shows, if nobody stops it

  /** The states in which the user's function is called when f is called in state s; an ill-formed
      function object shows nothing. */
  function Visits<T>(f: Functor, s: seq<T>): seq<seq<T>>
    decreases Rank(f), 0
  {
    if !Valid(f, |s|) then [] else
    match f
    case BoundRange => [s]
    case CallPermute(lo, hi, g) => VisitsEach(g, PutEach(s, lo, Perms(s[lo..hi])))
    case CallCombine(lo1, hi1, lo2, hi2, g) =>
      VisitsEach(g, FillEach(s, lo1, lo2, Splits(s[lo1..hi1] + s[lo2..hi2], hi1 - lo1)))
    case CallCombine3(lo1, hi1, lo2, hi2, lo3, hi3, g) =>
      VisitsEach(CallCombine(lo2, hi2, lo3, hi3, g),
                 Fill3Each(s, lo1, lo2, lo3, Splits3(s[lo1..hi1] + s[lo2..hi2], s[lo3..hi3], hi1 - lo1)))
    case CircularPermutation(lo, hi, g) =>
      if hi - lo <= 1 then Visits(g, s) else Visits(CallPermute(lo + 1, hi, g), s)
    case ReversiblePermutation(lo, hi, g) =>
      if hi - lo < 3 then Visits(g, s) else
        Visits(CallPermute(lo + 1, hi, g), s) +
        FirstMovedFrom(lo, hi, g, s, 1) +
        FirstInMiddle(lo, hi, g, s)
    case ReverseCircularPermutation(lo, hi, g) =>
      if hi - lo == 1 then Visits(g, s) else Visits(ReversiblePermutation(lo + 1, hi, g), s)
  }

  function VisitsEach<T>(f: Functor, sts: seq<seq<T>>): (r: seq<seq<T>>)
    decreases Rank(f), 1, |sts|
  {
    if sts == [] then [] else Visits(f, sts[0]) + VisitsEach(f, sts[1..])
  }

  /** The window [lo, hi) with its first element moved i positions to the right. */
  function FirstMoved<T>(s: seq<T>, lo: nat, i: nat): (r: seq<T>)
    requires lo + i < |s|
    ensures |r| == |s|
  {
    Put(s, lo, s[lo + 1..lo + i + 1] + [s[lo]])
  }

  /** The first element held at positions i, i + 1, ... of the first half, with every
      permutation of the others around it. */
  function FirstMovedFrom<T>(lo: nat, hi: nat, g: Functor, s: seq<T>, i: nat): seq<seq<T>>
    requires 1 <= i <= (hi - lo) / 2 && lo + 3 <= hi <= |s| && Valid(g, |s|)
    decreases Rank(g) + 5, hi - i
  {
    if i == (hi - lo) / 2 then [] else
      Visits(CallCombine(lo, lo + i, lo + i + 1, hi, Rev2(lo, lo + i, lo + i + 1, hi, g)), FirstMoved(s, lo, i)) +
      FirstMovedFrom(lo, hi, g, s, i + 1)
  }

  /** For an odd length, the first element held in the middle and the second one at
      every position of the first half. */
  function FirstInMiddle<T>(lo: nat, hi: nat, g: Functor, s: seq<T>): seq<seq<T>>
    requires lo + 3 <= hi <= |s| && Valid(g, |s|)
    decreases Rank(g) + 5, hi
  {
    var m := lo + (hi - lo) / 2;
    if (hi - lo) % 2 == 0 then []
    else if hi - lo == 3 then Visits(g, FirstMoved(s, lo, 1))
    else
      var mid := FirstMoved(s, lo, m - lo);
      Visits(CallCombine(lo + 1, m, m + 1, hi, Rev2(lo + 1, m, m + 1, hi, g)), mid) +
      SecondMovedFrom(lo, hi, g, mid, 1) +
      Visits(CallCombine(lo, m - 1, m + 1, hi, Rev2(lo, m - 1, m + 1, hi, g)), FirstMoved(mid, lo, m - lo - 1))
  }

  /** The element now in front held at positions i, i + 1, ... before the last of the
      first half: the others fill three separate windows. */
  function SecondMovedFrom<T>(lo: nat, hi: nat, g: Functor, mid: seq<T>, i: nat): seq<seq<T>>
    requires 1 <= i <= (hi - lo) / 2 - 1 && lo + 3 < hi <= |mid| && Valid(g, |mid|)
    decreases Rank(g) + 5, hi - i
  {
    var m := lo + (hi - lo) / 2;
    if i == m - lo - 1 then [] else
      Visits(CallCombine3(lo, lo + i, lo + i + 1, m, m + 1, hi, Rev3(lo, lo + i, lo + i + 1, m, m + 1, hi, g)),
             FirstMoved(mid, lo, i)) +
      SecondMovedFrom(lo, hi, g, mid, i + 1)
  }

  lemma {:induction false} VisitsEachConcat<T>(f: Functor, x: seq<seq<T>>, y: seq<seq<T>>)
    ensures VisitsEach(f, x + y) == VisitsEach(f, x) + VisitsEach(f, y)
    decreases |x|
  {
    hide Visits;
    if x == [] {
      assert x + y == y;
    } else {
      assert (x + y)[1..] == x[1..] + y;
      VisitsEachConcat(f, x[1..], y);
    }
  }
}
