/** The in-place enumerations of src/CombinatoricUtils.hpp over an array. */
module Engine {
  import opened Lists
  import opened Enumeration
  import opened Functors
  import opened Rotations
  import opened Feeding
  import opened PermutationSteps
  import opened CombinationSteps
  import opened Combination3Steps
  import opened ReversibleSteps

  class Range<T> {
    const f: seq<seq<T>> -> bool
    const a: array<T>
    var visited: seq<seq<T>>

    constructor (f: seq<seq<T>> -> bool, a: array<T>)
      ensures this.f == f && this.a == a && visited == []
    {
      this.f := f;
      this.a := a;
      visited := [];
    }

    /** The range is in the state that was shown last. */
    ghost predicate AtLastShown()
      reads this, a
    {
      visited != [] && a[..] == visited[|visited| - 1]
    }

    // ----- std::swap, std::reverse, std::swap_ranges, std::rotate

    method Swap(i: nat, j: nat)
      requires i < a.Length && j < a.Length
      modifies a
      ensures a[..] == old(a[..])[i := old(a[j])][j := old(a[i])]
    {
      a[i], a[j] := a[j], a[i];
    }

    method ReverseRange(lo: nat, hi: nat)
      requires lo <= hi <= a.Length
      modifies a
      ensures a[..] == Flipped(old(a[..]), lo, hi)
    {
      hide *;
      var i, j := lo, hi;
      while i + 1 < j
        invariant lo <= i <= j <= hi
        invariant Flipped(a[..], i, j) == Flipped(old(a[..]), lo, hi)
      {
        FlippedStep(a[..], i, j);
        j := j - 1;
        Swap(i, j);
        i := i + 1;
      }
      FlippedDone(a[..], i, j);
    }

    /** [first1, last1) trades places with the elements from first2 on. */
    method SwapRanges(first1: nat, last1: nat, first2: nat)
      requires first1 <= last1 <= first2 && first2 + (last1 - first1) <= a.Length
      modifies a
      ensures a[..] == Exchanged(old(a[..]), first1, first2, last1 - first1)
    {
      hide *;
      var i1, i2 := first1, first2;
      while i1 < last1
        invariant first1 <= i1 <= last1 && i2 - first2 == i1 - first1
        invariant Exchanged(a[..], i1, i2, last1 - i1) == Exchanged(old(a[..]), first1, first2, last1 - first1)
      {
        ExchangedStep(a[..], i1, i2, last1 - i1);
        Swap(i1, i2);
        i1, i2 := i1 + 1, i2 + 1;
      }
      ExchangedDone(a[..], i1, i2);
    }

    /** [middle, last) moves in front of [first, middle). */
    method Rotate(first: nat, middle: nat, last: nat)
      requires first <= middle <= last <= a.Length
      modifies a
      ensures a[..] == Rotated(old(a[..]), first, middle, middle, last)
    {
      hide *;
      RotatedByFlips(a[..], first, middle, last);
      ReverseRange(first, middle);
      ReverseRange(middle, last);
      ReverseRange(first, last);
    }

    // ----- rotate_discontinuous

    /** Two windows read as one sequence are rotated to put the second one first. */
    method RotateDiscontinuous(first1: nat, last1: nat, first2: nat, last2: nat)
      requires first1 <= last1 <= first2 <= last2 <= a.Length
      modifies a
      ensures a[..] == Rotated(old(a[..]), first1, last1, first2, last2)
    {
      hide *;
      var d1, d2 := last1 - first1, last2 - first2;
      if d1 <= d2 {
        RotatedShort(a[..], first1, last1, first2, last2);
        SwapRanges(first1, last1, first2);
        Rotate(first2, first2 + d1, last2);
      } else {
        RotatedLong(a[..], first1, last1, first2, last2);
        var i1, i2 := last1, last2;
        while first2 != i2
          invariant first2 <= i2 <= last2 && last1 - i1 == last2 - i2
          invariant Exchanged(a[..], last1 - d2, first2, i2 - first2) == Exchanged(old(a[..]), last1 - d2, first2, d2)
        {
          ExchangedStep(a[..], last1 - d2, first2, i2 - first2);
          i1, i2 := i1 - 1, i2 - 1;
          Swap(i1, i2);
        }
        ExchangedDone(a[..], last1 - d2, first2);
        Rotate(first1, i1, last1);
      }
    }

    /** The same, the second window being two windows. */
    method RotateDiscontinuous3(first1: nat, last1: nat, first2: nat, last2: nat, first3: nat, last3: nat)
      requires first1 <= last1 <= first2 <= last2 <= first3 <= last3 <= a.Length
      modifies a
      ensures a[..] == Rotated3(old(a[..]), first1, last1, first2, last2, first3, last3)
    {
      hide *;
      var d1, d2 := last1 - first1, last2 - first2;
      ghost var was := a[..];
      RotateDiscontinuous(first1, last1, first2, last2);
      if d1 <= d2 {
        Rotated3Short(was, first1, last1, first2, last2, first3, last3);
        RotateDiscontinuous(first2 + (d2 - d1), last2, first3, last3);
      } else {
        Rotated3Long(was, first1, last1, first2, last2, first3, last3);
        RotateDiscontinuous(first1 + d2, last1, first3, last3);
        RotateDiscontinuous(first2, last2, first3, last3);
      }
    }

    // ----- permute_, permute

    /** Shows every permutation of [first1, last1) to g and leaves the window reversed. */
    method Permute_(first1: nat, last1: nat, g: Functor) returns (stop: bool)
      requires first1 <= last1 <= a.Length && Valid(g, a.Length)
      modifies this`visited, a
      decreases Rank(g), 2, last1 - first1
      ensures (visited, stop) == Feed(f, old(visited), Visits(CallPermute(first1, last1, g), old(a[..])))
      ensures !stop ==> a[..] == Flipped(old(a[..]), first1, last1)
      ensures stop ==> AtLastShown()
    {
      hide Visits, VisitsEach, Feed, Flipped, PermState, PermsRemaining;
      ghost var s, log := a[..], visited;
      ghost var all := Visits(CallPermute(first1, last1, g), s);
      var d1 := last1 - first1;
      if d1 <= 1 {
        ShortWindow(g, s, first1, last1);
        stop := Call(g);
        return;
      }
      if d1 == 2 {
        PermsOfTwo(g, s, first1);
        FeedConcat(f, log, Visits(g, s), Visits(g, Transposed(s, first1, first1 + 1)));
        stop := Call(g);
        if stop { return; }
        Swap(first1, first1 + 1);
        stop := Call(g);
        return;
      }
      if d1 == 3 {
        stop := PermuteThree(first1, g);
        return;
      }
      PermsStart(g, s, first1, last1);
      var fp1 := first1 + 1;
      var p := fp1;
      while p != last1
        invariant fp1 <= p <= last1
        invariant a[..] == PermState(s, first1, last1, p - fp1)
        invariant Feed(f, log, all) == Feed(f, visited, PermsRemaining(g, s, first1, last1, p - fp1))
      {
        ghost var st := a[..];
        PermsStep(g, s, first1, last1, p - fp1);
        FeedConcat(f, visited, Visits(CallPermute(fp1, last1, g), st),
                   PermsRemaining(g, s, first1, last1, p - fp1 + 1));
        stop := Permute_(fp1, last1, g);
        if stop { return; }
        FlippedTwice(st, fp1, last1);
        PermsMove(s, first1, last1, p - fp1);
        ReverseRange(fp1, last1);
        Swap(first1, p);
        p := p + 1;
      }
      PermsStep(g, s, first1, last1, d1 - 1);
      PermsNoneLeft(g, s, first1, last1);
      PermsEnd(s, first1, last1);
      assert PermsRemaining(g, s, first1, last1, d1 - 1) == Visits(CallPermute(fp1, last1, g), a[..]);
      stop := Permute_(fp1, last1, g);
    }

    /** The case d1 == 3 of permute_. */
    method PermuteThree(first1: nat, g: Functor) returns (stop: bool)
      requires first1 + 3 <= a.Length && Valid(g, a.Length)
      modifies this`visited, a
      decreases Rank(g), 1
      ensures (visited, stop) == Feed(f, old(visited), Visits(CallPermute(first1, first1 + 3, g), old(a[..])))
      ensures !stop ==> a[..] == Flipped(old(a[..]), first1, first1 + 3)
      ensures stop ==> AtLastShown()
    {
      hide Visits, Feed, Flipped;
      var f2, f3 := first1 + 1, first1 + 2;
      PermsOfThree(g, a[..], first1);
      ghost var s := a[..];
      ghost var s1 := Transposed(s, f2, f3);
      ghost var s2 := Transposed(Transposed(s1, first1, f3), f2, f3);
      ghost var s3 := Transposed(s2, f2, f3);
      ghost var s4 := Transposed(Transposed(s3, first1, f2), f2, f3);
      ghost var v5 := Visits(g, Transposed(s4, f2, f3));
      ghost var v4 := Visits(g, s4) + v5;
      ghost var v3 := Visits(g, s3) + v4;
      ghost var v2 := Visits(g, s2) + v3;
      ghost var v1 := Visits(g, s1) + v2;
      FeedConcat(f, visited, Visits(g, s), v1);
      stop := Call(g);
      if stop { return; }
      Swap(f2, f3);
      FeedConcat(f, visited, Visits(g, s1), v2);
      stop := Call(g);
      if stop { return; }
      Swap(first1, f3);
      Swap(f2, f3);
      FeedConcat(f, visited, Visits(g, s2), v3);
      stop := Call(g);
      if stop { return; }
      Swap(f2, f3);
      FeedConcat(f, visited, Visits(g, s3), v4);
      stop := Call(g);
      if stop { return; }
      Swap(first1, f2);
      Swap(f2, f3);
      FeedConcat(f, visited, Visits(g, s4), v5);
      stop := Call(g);
      if stop { return; }
      Swap(f2, f3);
      stop := Call(g);
    }

    /** Shows every permutation of [first1, last1) to g and restores the window. */
    method Permute(first1: nat, last1: nat, g: Functor) returns (stop: bool)
      requires first1 <= last1 <= a.Length && Valid(g, a.Length)
      modifies this`visited, a
      decreases Rank(g), 3
      ensures (visited, stop) == Feed(f, old(visited), Visits(CallPermute(first1, last1, g), old(a[..])))
      ensures !stop ==> a[..] == old(a[..])
      ensures stop ==> AtLastShown()
    {
      hide Visits, VisitsEach, Feed, Flipped, PermState, PermsRemaining;
      FlippedTwice(a[..], first1, last1);
      stop := Permute_(first1, last1, g);
      if stop { return; }
      ReverseRange(first1, last1);
    }

    // ----- combine_discontinuous

    /** Shows every combination to g. Restores both windows at depth 0; below, it leaves
        the first window moved on by one element. */
    method CombineDiscontinuous(first1: nat, last1: nat, first2: nat, last2: nat, g: Functor, d: nat)
      returns (stop: bool)
      requires first1 <= last1 <= first2 <= last2 <= a.Length && Valid(g, a.Length)
      requires d != 0 ==> first1 < last1 && first2 < last2
      modifies this`visited, a
      decreases Rank(g), 2, 2 * (last1 - first1) + 1
      ensures (visited, stop) == Feed(f, old(visited), Visits(CallCombine(first1, last1, first2, last2, g), old(a[..])))
      ensures !stop ==> a[..] == if d == 0 then old(a[..]) else CombState(old(a[..]), first1, last1, first2, last2, 1)
      ensures stop ==> AtLastShown()
    {
      hide Visits, VisitsEach, Feed, Rotated, CombState, CombRemaining;
      ghost var s, log := a[..], visited;
      ghost var all := Visits(CallCombine(first1, last1, first2, last2, g), s);
      var d1, d2 := last1 - first1, last2 - first2;
      if d1 == 0 || d2 == 0 {
        NothingToChoose(g, s, first1, last1, first2, last2);
        stop := Call(g);
        return;
      }
      CombStart(g, s, first1, last1, first2, last2);
      CombStateZero(s, first1, last1, first2, last2);
      stop := CombineLoop(first1, last1, first2, last2, g, d, 0, s);
      if stop { return; }
      CombLast(g, s, first1, last1, first2, last2);
      stop := Call(g);
      if stop { return; }
      CombRotate(s, first1, last1, first2, last2);
      if d != 0 {
        RotateDiscontinuous(first1, last1, first2 + 1, last2);
      } else {
        RotateDiscontinuous(first1, last1, first2, last2);
      }
    }

    /** The loop of combine_discontinuous over the second window, from offset j on; s is
        the state at its start. */
    method CombineLoop(first1: nat, last1: nat, first2: nat, last2: nat, g: Functor, d: nat, j: nat, ghost s: seq<T>)
      returns (stop: bool)
      requires first1 < last1 <= first2 && first2 + j <= last2 <= a.Length && Valid(g, a.Length) && |s| == a.Length
      requires a[..] == CombState(s, first1, last1, first2, last2, j)
      modifies this`visited, a
      decreases Rank(g), 2, 2 * (last1 - first1)
      ensures var all := Feed(f, old(visited), CombRemaining(g, s, first1, last1, first2, last2, j));
        if stop then (visited, true) == all
        else all == Feed(f, visited, CombRemaining(g, s, first1, last1, first2, last2, last2 - first2))
      ensures !stop ==> a[..] == CombState(s, first1, last1, first2, last2, last2 - first2)
      ensures stop ==> AtLastShown()
    {
      hide Visits, VisitsEach, Feed, CombState, CombRemaining;
      ghost var log := visited;
      var i2 := first2 + j;
      while i2 != last2
        invariant first2 + j <= i2 <= last2
        invariant a[..] == CombState(s, first1, last1, first2, last2, i2 - first2)
        invariant Feed(f, log, CombRemaining(g, s, first1, last1, first2, last2, j))
          == Feed(f, visited, CombRemaining(g, s, first1, last1, first2, last2, i2 - first2))
      {
        ghost var k := i2 - first2;
        ghost var rest := CombRemaining(g, s, first1, last1, first2, last2, k + 1);
        if last1 == first1 + 1 {
          CombStepOne(g, s, first1, first2, last2, k);
          FeedConcat(f, visited, Visits(g, a[..]), rest);
          CombMoveOne(s, first1, first2, last2, k);
          stop := Call(g);
        } else {
          CombStep(g, s, first1, last1, first2, last2, k);
          FeedConcat(f, visited, Visits(CallCombine(first1 + 1, last1, i2, last2, g), a[..]), rest);
          CombMove(s, first1, last1, first2, last2, k);
          stop := CombineDiscontinuous(first1 + 1, last1, i2, last2, g, d + 1);
        }
        if stop { return; }
        Swap(first1, i2);
        i2 := i2 + 1;
      }
      stop := false;
    }

    // ----- combine_discontinuous3_

    /** Shows every combination of three windows to g. Restores them at depth 0; below, it
        leaves the first window moved on by one element of the second. */
    method CombineDiscontinuous3_(first1: nat, last1: nat, first2: nat, last2: nat, first3: nat, last3: nat, g: Functor,
                                  d: nat)
      returns (stop: bool)
      requires first1 < last1 <= first2 < last2 <= first3 < last3 <= a.Length && Valid(g, a.Length)
      modifies this`visited, a
      decreases Rank(g), 3, 2 * (last1 - first1) + 1
      ensures (visited, stop)
        == Feed(f, old(visited), Visits3(g, old(a[..]), first1, last1, first2, last2, first3, last3))
      ensures !stop ==> a[..] == if d == 0 then old(a[..]) else CombState(old(a[..]), first1, last1, first2, last2, 1)
      ensures stop ==> AtLastShown()
    {
      hide Visits3, Visits, VisitsEach, Feed, Rotated, Rotated3, CombState, CombRemaining, Comb3Remaining;
      ghost var s, log := a[..], visited;
      ghost var all := Visits3(g, s, first1, last1, first2, last2, first3, last3);
      var d1, d2, d3 := last1 - first1, last2 - first2, last3 - first3;
      if d1 == 1 {
        stop := CombineOneOfThree(first1, first2, last2, first3, last3, g, d);
      } else {
        stop := CombineMoreOfThree(first1, last1, first2, last2, first3, last3, g, d);
      }
      if stop { return; }
      if d != 0 {
        if d2 > 1 {
          Comb3Shift(s, first1, last1, first2, last2, first3, last3);
          RotateDiscontinuous3(first1, last1, first2 + 1, last2, first3, last3);
        } else {
          Comb3ShiftOne(s, first1, last1, first2, last2, first3, last3);
          RotateDiscontinuous(first1, last1, first3, last3);
        }
      } else {
        Comb3Restore(s, first1, last1, first2, last2, first3, last3);
        RotateDiscontinuous3(first1, last1, first2, last2, first3, last3);
      }
    }

    /** The case d1 == 1 of combine_discontinuous3_, up to the final rotation. */
    method CombineOneOfThree(first1: nat, first2: nat, last2: nat, first3: nat, last3: nat, g: Functor, d: nat)
      returns (stop: bool)
      requires first1 + 1 <= first2 < last2 <= first3 < last3 <= a.Length && Valid(g, a.Length)
      modifies this`visited, a
      decreases Rank(g), 3, 0
      ensures (visited, stop)
        == Feed(f, old(visited), Visits3(g, old(a[..]), first1, first1 + 1, first2, last2, first3, last3))
      ensures !stop ==> a[..] == Comb3Final(old(a[..]), first1, first1 + 1, first2, last2, first3, last3)
      ensures stop ==> AtLastShown()
    {
      hide Visits3, Visits, VisitsEach, Feed, CombState, CombRemaining, Comb3Final;
      ghost var s, log := a[..], visited;
      var last1, d2 := first1 + 1, last2 - first2;
      ghost var t := CombState(s, first1, last1, first2, last2, d2 - 1);
      ghost var rest := CombRemaining(g, t, first1, last1, first3, last3, 1);
      Comb3One(g, s, first1, first2, last2, first3, last3);
      FeedConcat(f, log, CombRemaining(g, s, first1, last1, first2, last2, 0), rest);
      CombStateZero(s, first1, last1, first2, last2);
      stop := CombineLoop(first1, last1, first2, last2, g, d, 0, s);
      if stop { return; }
      CombLast(g, s, first1, last1, first2, last2);
      stop := Call(g);
      if stop { return; }
      CombMoveOne(s, first1, first2, last2, d2 - 1);
      Swap(first1, last2 - 1);
      assert a[..] == t;
      CombStateZero(t, first1, last1, first3, last3);
      CombMoveOne(t, first1, first3, last3, 0);
      Swap(first1, first3);
      stop := CombineLoop(first1, last1, first3, last3, g, d, 1, t);
      if stop { return; }
      CombLast(g, t, first1, last1, first3, last3);
      stop := Call(g);
      if stop { return; }
      Comb3Mend(s, first1, first2, last2, first3, last3);
      Swap(last2 - 1, first3);
    }

    /** The case d1 > 1 of combine_discontinuous3_, up to the final rotation. */
    method CombineMoreOfThree(first1: nat, last1: nat, first2: nat, last2: nat, first3: nat, last3: nat, g: Functor,
                              d: nat)
      returns (stop: bool)
      requires first1 + 1 < last1 <= first2 < last2 <= first3 < last3 <= a.Length && Valid(g, a.Length)
      modifies this`visited, a
      decreases Rank(g), 3, 2 * (last1 - first1)
      ensures (visited, stop)
        == Feed(f, old(visited), Visits3(g, old(a[..]), first1, last1, first2, last2, first3, last3))
      ensures !stop ==> a[..] == Comb3Final(old(a[..]), first1, last1, first2, last2, first3, last3)
      ensures stop ==> AtLastShown()
    {
      hide Visits3, Visits, VisitsEach, Feed, CombState, CombRemaining, Comb3Remaining;
      ghost var s, log := a[..], visited;
      ghost var all := Visits3(g, s, first1, last1, first2, last2, first3, last3);
      var d2 := last2 - first2;
      Comb3Start(g, s, first1, last1, first2, last2, first3, last3);
      CombStateZero(s, first1, last1, first2, last2);
      var i2 := first2;
      while i2 != last2
        invariant first2 <= i2 <= last2
        invariant a[..] == CombState(s, first1, last1, first2, last2, i2 - first2)
        invariant Feed(f, log, all)
          == Feed(f, visited, Comb3Remaining(g, s, first1, last1, first2, last2, first3, last3, i2 - first2))
      {
        ghost var k := i2 - first2;
        Comb3Step(g, s, first1, last1, first2, last2, first3, last3, k);
        FeedConcat(f, visited, Visits3(g, a[..], first1 + 1, last1, i2, last2, first3, last3),
          Comb3Remaining(g, s, first1, last1, first2, last2, first3, last3, k + 1));
        CombMove(s, first1, last1, first2, last2, k);
        stop := CombineDiscontinuous3_(first1 + 1, last1, i2, last2, first3, last3, g, d + 1);
        if stop { return; }
        Swap(first1, i2);
        i2 := i2 + 1;
      }
      ghost var t := a[..];
      Comb3Turn(g, s, first1, last1, first2, last2, first3, last3);
      CombStateZero(t, first1, last1, first3, last3);
      stop := CombineLoop(first1, last1, first3, last3, g, d, 0, t);
      if stop { return; }
      CombLast(g, t, first1, last1, first3, last3);
      stop := Call(g);
    }

    // ----- reversible_permutation

    method Reversible(first: nat, last: nat, g: Functor) returns (stop: bool)
      requires first + 3 <= last <= a.Length && Valid(g, a.Length)
      modifies this`visited, a
      decreases Rank(g) + 5, 5
      ensures (visited, stop) == Feed(f, old(visited), Visits(ReversiblePermutation(first, last, g), old(a[..])))
      ensures !stop ==> a[..] == old(a[..])
      ensures stop ==> AtLastShown()
    {
      hide Visits, VisitsEach, Feed, Rotated, Flipped, FirstMoved, FirstMovedFrom, FirstInMiddle, Rev2;
      ghost var s, log := a[..], visited;
      ghost var all := Visits(ReversiblePermutation(first, last, g), s);
      ghost var middle := FirstInMiddle(first, last, g, s);
      var size := last - first;
      ReversibleVisits(g, s, first, last);
      FeedConcat(f, log, Visits(CallPermute(first + 1, last, g), s), FirstMovedFrom(first, last, g, s, 1) + middle);
      stop := Permute(first + 1, last, g);
      if stop { return; }
      var s2 := size / 2;
      var am1, p := first, first + 1;
      var i := 1;
      MoveNowhere(s, first);
      while i < s2
        invariant 1 <= i <= s2 && am1 == first + i - 1 && p == am1 + 1
        invariant a[..] == FirstMoved(s, first, i - 1)
        invariant Feed(f, log, all) == Feed(f, visited, FirstMovedFrom(first, last, g, s, i) + middle)
      {
        MoveOneFurther(s, first, i);
        Swap(am1, p);
        var f2 := Rev2(first, p, p + 1, last, g);
        FirstMovedStep(g, s, first, last, i, middle);
        FeedConcat(f, visited, Visits(CallCombine(first, p, p + 1, last, f2), a[..]),
          FirstMovedFrom(first, last, g, s, i + 1) + middle);
        stop := CombineDiscontinuous(first, p, p + 1, last, f2, 0);
        if stop { return; }
        i, am1, p := i + 1, am1 + 1, p + 1;
      }
      assert FirstMovedFrom(first, last, g, s, s2) + middle == middle by { NoneMoved(g, s, first, last); }
      FeedFew(f, visited, s);
      if 2 * s2 == size {
        MoveBack(s, first, s2 - 1);
        NoMiddle(g, s, first, last);
        Rotate(first, am1, p);
      } else if size == 3 {
        NoMiddle(g, s, first, last);
        MoveOneFurther(s, first, 1);
        Swap(am1, p);
        stop := Call(g);
        if stop { return; }
        Swap(am1, p);
      } else {
        stop := ReversibleOdd(first, p, last, g, s);
      }
    }

    /** The case of an odd length greater than 3: the first element goes to the middle. */
    method ReversibleOdd(first: nat, middle: nat, last: nat, g: Functor, ghost s: seq<T>) returns (stop: bool)
      requires first + 3 < last <= a.Length && Valid(g, a.Length) && |s| == a.Length
      requires middle == first + (last - first) / 2 && (last - first) % 2 == 1
      requires a[..] == FirstMoved(s, first, middle - 1 - first)
      modifies this`visited, a
      decreases Rank(g) + 5, 4
      ensures (visited, stop) == Feed(f, old(visited), FirstInMiddle(first, last, g, s))
      ensures !stop ==> a[..] == s
      ensures stop ==> AtLastShown()
    {
      hide Visits, VisitsEach, Feed, Flipped, FirstMoved, SecondMovedFrom, FirstInMiddle, Rev2, Rev3;
      ghost var log := visited;
      var s2, ap1 := middle - first, middle + 1;
      MoveOneFurther(s, first, s2);
      Swap(middle - 1, middle);
      ghost var mid := a[..];
      InMiddleParts(g, s, first, last);
      var f2 := Rev2(first + 1, middle, ap1, last, g);
      ghost var end := Visits(CallCombine(first, middle - 1, ap1, last, Rev2(first, middle - 1, ap1, last, g)),
                              FirstMoved(mid, first, s2 - 1));
      FeedConcat(f, visited, Visits(CallCombine(first + 1, middle, ap1, last, f2), mid),
        SecondMovedFrom(first, last, g, mid, 1) + end);
      stop := CombineDiscontinuous(first + 1, middle, ap1, last, f2, 0);
      if stop { return; }
      stop := MoveSecond(first, middle, last, g, mid, end);
      if stop { return; }
      var bm1, b := middle - 2, middle - 1;
      MoveOneFurther(mid, first, s2 - 1);
      Swap(bm1, b);
      var f21 := Rev2(first, b, ap1, last, g);
      stop := CombineDiscontinuous(first, b, ap1, last, f21, 0);
      if stop { return; }
      MoveBackTwice(s, first, s2);
      ReverseRange(first, b);
      ReverseRange(first, ap1);
    }

    /** The loop of reversible_permutation that moves the element now in front. */
    method MoveSecond(first: nat, middle: nat, last: nat, g: Functor, ghost mid: seq<T>, ghost end: seq<seq<T>>)
      returns (stop: bool)
      requires first + 3 < last <= a.Length && Valid(g, a.Length) && a[..] == mid
      requires middle == first + (last - first) / 2 && (last - first) % 2 == 1
      modifies this`visited, a
      decreases Rank(g) + 5, 3
      ensures var all := Feed(f, old(visited), SecondMovedFrom(first, last, g, mid, 1) + end);
        if stop then (visited, true) == all else all == Feed(f, visited, end)
      ensures !stop ==> a[..] == FirstMoved(mid, first, middle - 2 - first)
      ensures stop ==> AtLastShown()
    {
      hide Visits, Feed, FirstMoved, SecondMovedFrom, Rev3;
      ghost var log := visited;
      var s2, ap1 := middle - first, middle + 1;
      var bm1, b := first, first + 1;
      var i := 1;
      MoveNowhere(mid, first);
      while i < s2 - 1
        invariant 1 <= i <= s2 - 1 && bm1 == first + i - 1 && b == bm1 + 1
        invariant a[..] == FirstMoved(mid, first, i - 1)
        invariant Feed(f, log, SecondMovedFrom(first, last, g, mid, 1) + end)
          == Feed(f, visited, SecondMovedFrom(first, last, g, mid, i) + end)
      {
        MoveOneFurther(mid, first, i);
        Swap(bm1, b);
        var f3 := Rev3(first, b, b + 1, middle, ap1, last, g);
        SecondMovedStep(g, mid, first, last, i, end);
        FeedConcat(f, visited, Visits(CallCombine3(first, b, b + 1, middle, ap1, last, f3), a[..]),
          SecondMovedFrom(first, last, g, mid, i + 1) + end);
        stop := Call(CallCombine3(first, b, b + 1, middle, ap1, last, f3));
        if stop { return; }
        i, bm1, b := i + 1, bm1 + 1, b + 1;
      }
      stop := false;
      NoneMovedSecond(g, mid, first, last);
      assert SecondMovedFrom(first, last, g, mid, s2 - 1) + end == end;
    }

    /** Calls the function object g on the range. */
    method Call(g: Functor) returns (stop: bool)
      requires Valid(g, a.Length)
      modifies this`visited, a
      decreases Rank(g), 0
      ensures (visited, stop) == Feed(f, old(visited), Visits(g, old(a[..])))
      ensures !stop ==> a[..] == old(a[..])
      ensures stop ==> AtLastShown()
    {
      hide VisitsEach, PutEach, FillEach, Fill3Each, FirstMovedFrom, FirstInMiddle, Feed, Perms, Splits, Splits3,
           Flipped, CombState;
      match g
      case BoundRange =>
        FeedFew(f, visited, a[..]);
        visited := visited + [a[..]];
        stop := f(visited);
      case CallPermute(first, last, h) =>
        stop := Permute(first, last, h);
      case CallCombine(first1, last1, first2, last2, h) =>
        stop := CombineDiscontinuous(first1, last1, first2, last2, h, 0);
      case CallCombine3(first1, last1, first2, last2, first3, last3, h) =>
        // combine_discontinuous3: its function object combines the second and the third window
        var bc := CallCombine(first2, last2, first3, last3, h);
        stop := CombineDiscontinuous3_(first1, last1, first2, last2, first3, last3, bc, 0);
      case CircularPermutation(first, last, h) =>
        if last - first <= 1 {
          stop := Call(h);
        } else {
          stop := Permute(first + 1, last, h);
        }
      case ReversiblePermutation(first, last, h) =>
        if last - first < 3 {
          stop := Call(h);
        } else {
          stop := Reversible(first, last, h);
        }
      case ReverseCircularPermutation(first, last, h) =>
        if last - first == 1 {
          stop := Call(h);
        } else {
          stop := Call(ReversiblePermutation(first + 1, last, h));
        }
    }
  }
}
