/** The steps of permute_ on sequences: which permutations are still to be shown, and in
    which state the range is meanwhile. Each element takes the first place in turn, and
    the range ends up reversed. */
module PermutationSteps {
  import opened Lists
  import opened Enumeration
  import opened Functors
  import opened Rotations

  function Transposed<T>(s: seq<T>, i: nat, j: nat): (r: seq<T>)
    requires i < |s| && j < |s|
    ensures |r| == |s|
  {
    s[i := s[j]][j := s[i]]
  }

  /** The window with its p-th element brought to the front. */
  function PermState<T>(s: seq<T>, lo: nat, hi: nat, p: nat): (r: seq<T>)
    requires lo + p < hi <= |s|
    ensures |r| == |s|
  {
    Put(s, lo, [s[lo + p]] + Without(s[lo..hi], p))
  }

  /** What is still to be shown once the permutations starting with one of the first p
      elements of the window are done. */
  function PermsRemaining<T>(g: Functor, s: seq<T>, lo: nat, hi: nat, p: nat): seq<seq<T>>
    requires lo + p <= hi <= |s| && Valid(g, |s|)
  {
    VisitsEach(g, PutEach(s, lo, PermsFrom(s[lo..hi], p)))
  }

  lemma PermuteVisits<T>(g: Functor, s: seq<T>, lo: nat, hi: nat)
    requires lo <= hi <= |s| && Valid(g, |s|)
    ensures Visits(CallPermute(lo, hi, g), s) == VisitsEach(g, PutEach(s, lo, Perms(s[lo..hi])))
  {
    hide VisitsEach, PutEach, FillEach, Fill3Each, Perms, Splits, Splits3, FirstMovedFrom, FirstInMiddle;
  }

  lemma PermStateZero<T>(s: seq<T>, lo: nat, hi: nat)
    requires lo < hi <= |s|
    ensures PermState(s, lo, hi, 0) == s
  {
  }

  lemma PermsStart<T>(g: Functor, s: seq<T>, lo: nat, hi: nat)
    requires lo < hi <= |s| && Valid(g, |s|)
    ensures Visits(CallPermute(lo, hi, g), s) == PermsRemaining(g, s, lo, hi, 0)
    ensures s == PermState(s, lo, hi, 0)
  {
    hide Visits, VisitsEach, PutEach, PermsFrom;
    PermuteVisits(g, s, lo, hi);
    PermStateZero(s, lo, hi);
  }

  lemma {:induction false} PutEachPrepend<T>(s: seq<T>, s': seq<T>, lo: nat, x: T, ts: seq<seq<T>>, k: nat)
    requires lo + k < |s| && |s'| == |s|
    requires AllOfLength(ts, k)
    requires s' == Put(s, lo, [x] + s'[lo + 1..lo + 1 + k])
    ensures PutEach(s, lo, Prepend(x, ts)) == PutEach(s', lo + 1, ts)
    decreases |ts|
  {
    if ts != [] {
      var t := ts[0];
      assert Put(s, lo, [x] + t) == Put(s', lo + 1, t);
      assert Prepend(x, ts)[1..] == Prepend(x, ts[1..]);
      PutEachPrepend(s, s', lo, x, ts[1..], k);
    }
  }

  lemma {:induction false} PutEachConcat<T>(s: seq<T>, lo: nat, x: seq<seq<T>>, y: seq<seq<T>>)
    ensures PutEach(s, lo, x + y) == PutEach(s, lo, x) + PutEach(s, lo, y)
    decreases |x|
  {
    if x == [] {
      assert x + y == y;
    } else {
      assert (x + y)[1..] == x[1..] + y;
      PutEachConcat(s, lo, x[1..], y);
    }
  }

  lemma PermStateAt<T>(s: seq<T>, lo: nat, hi: nat, p: nat, k: nat)
    requires lo + p < hi <= |s| && k < |s|
    ensures PermState(s, lo, hi, p)[k]
      == if k == lo then s[lo + p] else if lo < k <= lo + p then s[k - 1] else s[k]
  {
  }

  lemma PermStateWindow<T>(s: seq<T>, lo: nat, hi: nat, p: nat)
    requires lo + p < hi <= |s|
    ensures PermState(s, lo, hi, p)[lo + 1..hi] == Without(s[lo..hi], p)
    ensures PermState(s, lo, hi, p)
      == Put(s, lo, [s[lo..hi][p]] + PermState(s, lo, hi, p)[lo + 1..lo + 1 + (hi - lo - 1)])
  {
  }

  lemma PermsStartingWith<T>(g: Functor, s: seq<T>, lo: nat, hi: nat, p: nat)
    requires lo + p < hi <= |s|
    ensures VisitsEach(g, PutEach(s, lo, Prepend(s[lo..hi][p], Perms(Without(s[lo..hi], p)))))
      == VisitsEach(g, PutEach(PermState(s, lo, hi, p), lo + 1, Perms(Without(s[lo..hi], p))))
  {
    hide *;
    var ts := Perms(Without(s[lo..hi], p));
    PermsArrange(Without(s[lo..hi], p));
    PermStateWindow(s, lo, hi, p);
    PutEachPrepend(s, PermState(s, lo, hi, p), lo, s[lo..hi][p], ts, hi - lo - 1);
  }

  /** The permutations that start with the p-th element are those of the others, shown
      while it stands in front. */
  lemma PermsStep<T>(g: Functor, s: seq<T>, lo: nat, hi: nat, p: nat)
    requires lo + p < hi <= |s| && Valid(g, |s|)
    ensures PermsRemaining(g, s, lo, hi, p)
      == Visits(CallPermute(lo + 1, hi, g), PermState(s, lo, hi, p)) + PermsRemaining(g, s, lo, hi, p + 1)
  {
    hide Visits, VisitsEach, PutEach, Perms, Put, PermState, Without, Prepend, Valid;
    var w := s[lo..hi];
    var x := Prepend(w[p], Perms(Without(w, p)));
    PermsStartingWith(g, s, lo, hi, p);
    PermStateWindow(s, lo, hi, p);
    PermuteVisits(g, PermState(s, lo, hi, p), lo + 1, hi);
    assert PermsFrom(w, p) == x + PermsFrom(w, p + 1);
    PutEachConcat(s, lo, x, PermsFrom(w, p + 1));
    VisitsEachConcat(g, PutEach(s, lo, x), PutEach(s, lo, PermsFrom(w, p + 1)));
  }

  lemma PermsMove<T>(s: seq<T>, lo: nat, hi: nat, p: nat)
    requires lo + p + 1 < hi <= |s|
    ensures Transposed(PermState(s, lo, hi, p), lo, lo + p + 1) == PermState(s, lo, hi, p + 1)
  {
  }

  lemma PermsNoneLeft<T>(g: Functor, s: seq<T>, lo: nat, hi: nat)
    requires lo <= hi <= |s| && Valid(g, |s|)
    ensures PermsRemaining(g, s, lo, hi, hi - lo) == []
  {
  }

  lemma PermsEnd<T>(s: seq<T>, lo: nat, hi: nat)
    requires lo < hi <= |s|
    ensures Flipped(PermState(s, lo, hi, hi - lo - 1), lo + 1, hi) == Flipped(s, lo, hi)
  {
    hide *;
    var st := PermState(s, lo, hi, hi - lo - 1);
    forall k | 0 <= k < |s| ensures Flipped(st, lo + 1, hi)[k] == Flipped(s, lo, hi)[k] {
      FlippedAt(s, lo, hi, k);
      FlippedAt(st, lo + 1, hi, k);
      PermStateAt(s, lo, hi, hi - lo - 1, if lo < k < hi then lo + hi - k else k);
    }
  }

  lemma FlippedTwice<T>(s: seq<T>, lo: nat, hi: nat)
    requires lo <= hi <= |s|
    ensures Flipped(Flipped(s, lo, hi), lo, hi) == s
  {
    hide Flipped;
    forall k | 0 <= k < |s| ensures Flipped(Flipped(s, lo, hi), lo, hi)[k] == s[k] {
      FlippedAt(Flipped(s, lo, hi), lo, hi, k);
      FlippedAt(s, lo, hi, if lo <= k < hi then lo + hi - 1 - k else k);
    }
  }

  /** A window of at most one element has one arrangement. */
  lemma ShortWindow<T>(g: Functor, s: seq<T>, lo: nat, hi: nat)
    requires lo <= hi <= |s| && hi <= lo + 1 && Valid(g, |s|)
    ensures Visits(CallPermute(lo, hi, g), s) == Visits(g, s)
    ensures Flipped(s, lo, hi) == s
  {
    hide Visits, PutEach, Put, Valid;
    FlippedDone(s, lo, hi);
    PermuteVisits(g, s, lo, hi);
    var w := s[lo..hi];
    PermsOfOne(w);
    PutUnchanged(s, lo, hi);
    PutEachOne(s, lo, w);
    assert VisitsEach(g, [s]) == Visits(g, s) + VisitsEach(g, []);
  }

  lemma PermsOfOne<T>(w: seq<T>)
    requires |w| <= 1
    ensures Perms(w) == [w]
  {
    if w != [] {
      assert Without(w, 0) == [] && w == [w[0]];
      var e: seq<seq<T>> := [[]];
      assert e[1..] == [];
      assert Prepend(w[0], e) == [[w[0]] + e[0]] + Prepend(w[0], e[1..]);
      assert [w[0]] + e[0] == w;
      assert Perms<T>([]) == [[]];
      assert PermsFrom(w, 0) == Prepend(w[0], [[]]) + PermsFrom(w, 1);
      assert PermsFrom(w, 1) == [];
      assert Perms(w) == PermsFrom(w, 0);
    }
  }

  lemma PutUnchanged<T>(s: seq<T>, lo: nat, hi: nat)
    requires lo <= hi <= |s|
    ensures Put(s, lo, s[lo..hi]) == s
  {
  }

  lemma PutEachOne<T>(s: seq<T>, lo: nat, t: seq<T>)
    ensures PutEach(s, lo, [t]) == [Put(s, lo, t)]
  {
    assert PutEach(s, lo, [t]) == [Put(s, lo, t)] + PutEach(s, lo, []);
  }

  /** A window of two elements, as permute_ treats it. */
  lemma PermsOfTwo<T>(g: Functor, s: seq<T>, lo: nat)
    requires lo + 2 <= |s| && Valid(g, |s|)
    ensures Visits(CallPermute(lo, lo + 2, g), s) == Visits(g, s) + Visits(g, Transposed(s, lo, lo + 1))
    ensures Flipped(s, lo, lo + 2) == Transposed(s, lo, lo + 1)
  {
    hide Visits, PermsRemaining, PermState, Flipped;
    var s' := Transposed(s, lo, lo + 1);
    PermsStart(g, s, lo, lo + 2);
    PermsStep(g, s, lo, lo + 2, 0);
    ShortWindow(g, s, lo + 1, lo + 2);
    PermsMove(s, lo, lo + 2, 0);
    PermsStep(g, s, lo, lo + 2, 1);
    ShortWindow(g, s', lo + 1, lo + 2);
    PermsNoneLeft(g, s, lo, lo + 2);
    PermsEnd(s, lo, lo + 2);
  }

  /** A window of three elements: the states that permute_ goes through. */
  lemma PermsOfThree<T>(g: Functor, s: seq<T>, lo: nat)
    requires lo + 3 <= |s| && Valid(g, |s|)
    ensures var s1 := Transposed(s, lo + 1, lo + 2);
      var s2 := Transposed(Transposed(s1, lo, lo + 2), lo + 1, lo + 2);
      var s3 := Transposed(s2, lo + 1, lo + 2);
      var s4 := Transposed(Transposed(s3, lo, lo + 1), lo + 1, lo + 2);
      var s5 := Transposed(s4, lo + 1, lo + 2);
      && Visits(CallPermute(lo, lo + 3, g), s)
        == Visits(g, s) + (Visits(g, s1) + (Visits(g, s2) + (Visits(g, s3) + (Visits(g, s4) + Visits(g, s5)))))
      && s5 == Flipped(s, lo, lo + 3)
  {
    hide Visits, PermsRemaining, PermState, Flipped;
    var s1 := Transposed(s, lo + 1, lo + 2);
    var s2 := Transposed(Transposed(s1, lo, lo + 2), lo + 1, lo + 2);
    var s3 := Transposed(s2, lo + 1, lo + 2);
    var s4 := Transposed(Transposed(s3, lo, lo + 1), lo + 1, lo + 2);
    PermsStart(g, s, lo, lo + 3);
    PermsStep(g, s, lo, lo + 3, 0);
    PermsOfTwo(g, s, lo + 1);
    PermsMove(s, lo, lo + 3, 0);
    assert PermState(s, lo, lo + 3, 1) == s2;
    PermsStep(g, s, lo, lo + 3, 1);
    PermsOfTwo(g, s2, lo + 1);
    PermsMove(s, lo, lo + 3, 1);
    assert PermState(s, lo, lo + 3, 2) == s4;
    PermsStep(g, s, lo, lo + 3, 2);
    PermsOfTwo(g, s4, lo + 1);
    PermsNoneLeft(g, s, lo, lo + 3);
    PermsEnd(s, lo, lo + 3);
  }
}
