/** The steps of combine_discontinuous on sequences: which combinations are still to be
    shown, and in which state the two windows are meanwhile. The first window moves on by
    one element at a time, past the elements that are left over. */
module CombinationSteps {
  import opened Lists
  import opened Enumeration
  import opened Functors
  import opened Rotations
  import opened PermutationSteps

  /** The two windows read as one sequence. */
  function Both<T>(s: seq<T>, lo1: nat, hi1: nat, lo2: nat, hi2: nat): (r: seq<T>)
    requires lo1 <= hi1 <= lo2 <= hi2 <= |s|
    ensures |r| == hi1 - lo1 + hi2 - lo2
  {
    s[lo1..hi1] + s[lo2..hi2]
  }

  /** The first window holds the elements from j on, the second one the others in order. */
  function CombState<T>(s: seq<T>, lo1: nat, hi1: nat, lo2: nat, hi2: nat, j: nat): (r: seq<T>)
    requires lo1 <= hi1 <= lo2 <= hi2 <= |s| && j <= hi2 - lo2
    ensures |r| == |s|
  {
    var u := Both(s, lo1, hi1, lo2, hi2);
    Fill(s, lo1, u[j..j + hi1 - lo1], lo2, u[..j] + u[j + hi1 - lo1..])
  }

  /** What is still to be shown once the combinations that contain one of the first j
      elements are done. */
  function CombRemaining<T>(g: Functor, s: seq<T>, lo1: nat, hi1: nat, lo2: nat, hi2: nat, j: nat): seq<seq<T>>
    requires lo1 <= hi1 <= lo2 <= hi2 <= |s| && j <= hi2 - lo2
  {
    var u := Both(s, lo1, hi1, lo2, hi2);
    VisitsEach(g, FillEach(s, lo1, lo2, LeaveOut(u[..j], Splits(u[j..], hi1 - lo1))))
  }

  // ----- states

  /** Where CombState takes the element of position k from. */
  function CombSource(k: nat, lo1: nat, hi1: nat, lo2: nat, hi2: nat, j: nat): (r: nat)
    requires lo1 <= hi1 <= lo2 <= hi2 && j <= hi2 - lo2
    ensures if k < hi2 then r < hi2 else r == k
  {
    var d1 := hi1 - lo1;
    // the position among the two windows read as one
    var p := if k < hi1 then k - lo1 + j else if k - lo2 < j then k - lo2 else k - lo2 + d1;
    if lo1 <= k < hi1 || lo2 <= k < hi2 then (if p < d1 then lo1 + p else lo2 + (p - d1)) else k
  }

  lemma CombStateAt<T>(s: seq<T>, lo1: nat, hi1: nat, lo2: nat, hi2: nat, j: nat, k: nat)
    requires lo1 <= hi1 <= lo2 <= hi2 <= |s| && j <= hi2 - lo2 && k < |s|
    ensures CombState(s, lo1, hi1, lo2, hi2, j)[k] == s[CombSource(k, lo1, hi1, lo2, hi2, j)]
  {
    hide Put;
    var u := Both(s, lo1, hi1, lo2, hi2);
    var c, r := u[j..j + hi1 - lo1], u[..j] + u[j + hi1 - lo1..];
    PutAt(s, lo1, c, k);
    PutAt(Put(s, lo1, c), lo2, r, k);
  }

  lemma CombStateZero<T>(s: seq<T>, lo1: nat, hi1: nat, lo2: nat, hi2: nat)
    requires lo1 <= hi1 <= lo2 <= hi2 <= |s|
    ensures CombState(s, lo1, hi1, lo2, hi2, 0) == s
  {
    hide CombState;
    forall k | 0 <= k < |s| ensures CombState(s, lo1, hi1, lo2, hi2, 0)[k] == s[k] {
      CombStateAt(s, lo1, hi1, lo2, hi2, 0, k);
    }
  }

  /** What combine_discontinuous leaves below depth 0: the first element of the second window
      has joined the end of the first, whose own first element has taken its place. */
  lemma LeftBehind<T>(s: seq<T>, lo1: nat, hi1: nat, lo2: nat, hi2: nat)
    requires lo1 < hi1 <= lo2 < hi2 <= |s|
    ensures var t := CombState(s, lo1, hi1, lo2, hi2, 1);
      && t[lo1..hi1] == s[lo1 + 1..hi1] + [s[lo2]]
      && t[lo2..hi2] == [s[lo1]] + s[lo2 + 1..hi2]
      && t[..lo1] == s[..lo1] && t[hi1..lo2] == s[hi1..lo2] && t[hi2..] == s[hi2..]
  {
    hide CombState;
    var t := CombState(s, lo1, hi1, lo2, hi2, 1);
    forall k | 0 <= k < |s| ensures t[k] == s[CombSource(k, lo1, hi1, lo2, hi2, 1)] {
      CombStateAt(s, lo1, hi1, lo2, hi2, 1, k);
    }
  }

  /** The nested call and the exchange that follows it move both windows on by one. */
  lemma CombMove<T>(s: seq<T>, lo1: nat, hi1: nat, lo2: nat, hi2: nat, j: nat)
    requires lo1 + 1 < hi1 <= lo2 && lo2 + j < hi2 <= |s|
    ensures Transposed(CombState(CombState(s, lo1, hi1, lo2, hi2, j), lo1 + 1, hi1, lo2 + j, hi2, 1), lo1, lo2 + j)
      == CombState(s, lo1, hi1, lo2, hi2, j + 1)
  {
    hide CombState;
    var st := CombState(s, lo1, hi1, lo2, hi2, j);
    var nested := CombState(st, lo1 + 1, hi1, lo2 + j, hi2, 1);
    var next := CombState(s, lo1, hi1, lo2, hi2, j + 1);
    forall k | 0 <= k < |s| ensures Transposed(nested, lo1, lo2 + j)[k] == next[k] {
      var i := if k == lo1 then lo2 + j else if k == lo2 + j then lo1 else k;
      CombStateAt(st, lo1 + 1, hi1, lo2 + j, hi2, 1, i);
      CombStateAt(s, lo1, hi1, lo2, hi2, j, CombSource(i, lo1 + 1, hi1, lo2 + j, hi2, 1));
      CombStateAt(s, lo1, hi1, lo2, hi2, j + 1, k);
    }
  }

  lemma CombMoveOne<T>(s: seq<T>, lo1: nat, lo2: nat, hi2: nat, j: nat)
    requires lo1 + 1 <= lo2 && lo2 + j < hi2 <= |s|
    ensures Transposed(CombState(s, lo1, lo1 + 1, lo2, hi2, j), lo1, lo2 + j)
      == CombState(s, lo1, lo1 + 1, lo2, hi2, j + 1)
  {
    hide CombState;
    var st := CombState(s, lo1, lo1 + 1, lo2, hi2, j);
    var next := CombState(s, lo1, lo1 + 1, lo2, hi2, j + 1);
    forall k | 0 <= k < |s| ensures Transposed(st, lo1, lo2 + j)[k] == next[k] {
      var i := if k == lo1 then lo2 + j else if k == lo2 + j then lo1 else k;
      CombStateAt(s, lo1, lo1 + 1, lo2, hi2, j, i);
      CombStateAt(s, lo1, lo1 + 1, lo2, hi2, j + 1, k);
    }
  }

  /** The final rotation: back to the start at depth 0, one further below. */
  lemma CombRotate<T>(s: seq<T>, lo1: nat, hi1: nat, lo2: nat, hi2: nat)
    requires lo1 < hi1 <= lo2 < hi2 <= |s|
    ensures var st := CombState(s, lo1, hi1, lo2, hi2, hi2 - lo2);
      && Rotated(st, lo1, hi1, lo2, hi2) == s
      && Rotated(st, lo1, hi1, lo2 + 1, hi2) == CombState(s, lo1, hi1, lo2, hi2, 1)
  {
    hide CombState, Rotated;
    var st := CombState(s, lo1, hi1, lo2, hi2, hi2 - lo2);
    forall k | 0 <= k < |s|
      ensures Rotated(st, lo1, hi1, lo2, hi2)[k] == s[k]
      ensures Rotated(st, lo1, hi1, lo2 + 1, hi2)[k] == CombState(s, lo1, hi1, lo2, hi2, 1)[k]
    {
      RotatedAt(st, lo1, hi1, lo2, hi2, k);
      CombStateAt(s, lo1, hi1, lo2, hi2, hi2 - lo2, RotationSource(k, lo1, hi1, lo2, hi2));
      RotatedAt(st, lo1, hi1, lo2 + 1, hi2, k);
      CombStateAt(s, lo1, hi1, lo2, hi2, hi2 - lo2, RotationSource(k, lo1, hi1, lo2 + 1, hi2));
      CombStateAt(s, lo1, hi1, lo2, hi2, 1, k);
    }
  }

  // ----- what remains to be shown

  lemma {:induction false} FillEachConcat<T>(s: seq<T>, lo1: nat, lo2: nat, x: seq<Split<T>>, y: seq<Split<T>>)
    ensures FillEach(s, lo1, lo2, x + y) == FillEach(s, lo1, lo2, x) + FillEach(s, lo1, lo2, y)
    decreases |x|
  {
    hide Fill;
    if x == [] {
      assert x + y == y;
    } else {
      assert (x + y)[1..] == x[1..] + y;
      FillEachConcat(s, lo1, lo2, x[1..], y);
    }
  }

  /** Filling both windows, or only what follows parts that are in place already. */
  lemma FillNested<T>(s: seq<T>, lo1: nat, lo2: nat, x: T, c: seq<T>, c': seq<T>, p: seq<T>, r: seq<T>, r': seq<T>)
    requires |c| == |c'| && |r| == |r'| && lo1 + 1 + |c| <= lo2 && lo2 + |p| + |r| <= |s|
    ensures Fill(s, lo1, [x] + c, lo2, p + r) == Fill(Fill(s, lo1, [x] + c', lo2, p + r'), lo1 + 1, c, lo2 + |p|, r)
  {
    hide Put;
    var st := Fill(s, lo1, [x] + c', lo2, p + r');
    forall k | 0 <= k < |s|
      ensures Fill(s, lo1, [x] + c, lo2, p + r)[k] == Fill(st, lo1 + 1, c, lo2 + |p|, r)[k]
    {
      PutAt(s, lo1, [x] + c, k);
      PutAt(Put(s, lo1, [x] + c), lo2, p + r, k);
      PutAt(s, lo1, [x] + c', k);
      PutAt(Put(s, lo1, [x] + c'), lo2, p + r', k);
      PutAt(st, lo1 + 1, c, k);
      PutAt(Put(st, lo1 + 1, c), lo2 + |p|, r, k);
    }
  }

  lemma {:induction false} FillEachNested<T>(s: seq<T>, lo1: nat, lo2: nat, x: T, c': seq<T>, p: seq<T>, r': seq<T>,
                                             ps: seq<Split<T>>)
    requires SplitLengths(ps, |c'|, |r'|) && lo1 + 1 + |c'| <= lo2 && lo2 + |p| + |r'| <= |s|
    ensures FillEach(s, lo1, lo2, LeaveOut(p, ChooseHead(x, ps)))
      == FillEach(Fill(s, lo1, [x] + c', lo2, p + r'), lo1 + 1, lo2 + |p|, ps)
    decreases |ps|
  {
    hide Fill;
    if ps != [] {
      FillNested(s, lo1, lo2, x, ps[0].chosen, c', p, ps[0].rest, r');
      FillEachNested(s, lo1, lo2, x, c', p, r', ps[1..]);
      assert ChooseHead(x, ps)[1..] == ChooseHead(x, ps[1..]);
      assert LeaveOut(p, ChooseHead(x, ps))[1..] == LeaveOut(p, ChooseHead(x, ps[1..]));
    }
  }

  lemma CombineVisits<T>(g: Functor, s: seq<T>, lo1: nat, hi1: nat, lo2: nat, hi2: nat)
    requires lo1 <= hi1 <= lo2 <= hi2 <= |s| && Valid(g, |s|)
    ensures Visits(CallCombine(lo1, hi1, lo2, hi2, g), s)
      == VisitsEach(g, FillEach(s, lo1, lo2, Splits(Both(s, lo1, hi1, lo2, hi2), hi1 - lo1)))
  {
    hide VisitsEach, PutEach, FillEach, Fill3Each, Perms, Splits, Splits3, FirstMovedFrom, FirstInMiddle;
  }

  lemma CombStart<T>(g: Functor, s: seq<T>, lo1: nat, hi1: nat, lo2: nat, hi2: nat)
    requires lo1 <= hi1 <= lo2 <= hi2 <= |s| && Valid(g, |s|)
    ensures Visits(CallCombine(lo1, hi1, lo2, hi2, g), s) == CombRemaining(g, s, lo1, hi1, lo2, hi2, 0)
  {
    hide Visits, VisitsEach, FillEach, Splits, LeaveOut;
    var u := Both(s, lo1, hi1, lo2, hi2);
    CombineVisits(g, s, lo1, hi1, lo2, hi2);
    assert u[..0] == [] && u[0..] == u;
    LeaveOutNothing(Splits(u, hi1 - lo1));
  }

  /** The combinations that contain the j-th element and none before it, and the others. */
  lemma CombSplit<T>(g: Functor, s: seq<T>, lo1: nat, hi1: nat, lo2: nat, hi2: nat, j: nat)
    requires lo1 < hi1 <= lo2 && lo2 + j < hi2 <= |s|
    ensures var u := Both(s, lo1, hi1, lo2, hi2);
      CombRemaining(g, s, lo1, hi1, lo2, hi2, j)
      == VisitsEach(g, FillEach(s, lo1, lo2, LeaveOut(u[..j], ChooseHead(u[j], Splits(u[j + 1..], hi1 - lo1 - 1))))) +
         CombRemaining(g, s, lo1, hi1, lo2, hi2, j + 1)
  {
    hide Visits, VisitsEach, FillEach, LeaveOut, ChooseHead;
    var u := Both(s, lo1, hi1, lo2, hi2);
    var d1 := hi1 - lo1;
    var x := ChooseHead(u[j], Splits(u[j + 1..], d1 - 1));
    var y := Splits(u[j + 1..], d1);
    assert u[j..][1..] == u[j + 1..];
    assert Splits(u[j..], d1) == x + LeaveOut([u[j]], y);
    LeaveOutConcat(u[..j], x, LeaveOut([u[j]], y));
    LeaveOutTwice(u[..j], [u[j]], y);
    assert u[..j] + [u[j]] == u[..j + 1];
    FillEachConcat(s, lo1, lo2, LeaveOut(u[..j], x), LeaveOut(u[..j + 1], y));
    VisitsEachConcat(g, FillEach(s, lo1, lo2, LeaveOut(u[..j], x)), FillEach(s, lo1, lo2, LeaveOut(u[..j + 1], y)));
  }

  lemma CombStep<T>(g: Functor, s: seq<T>, lo1: nat, hi1: nat, lo2: nat, hi2: nat, j: nat)
    requires lo1 + 1 < hi1 <= lo2 && lo2 + j < hi2 <= |s| && Valid(g, |s|)
    ensures CombRemaining(g, s, lo1, hi1, lo2, hi2, j)
      == Visits(CallCombine(lo1 + 1, hi1, lo2 + j, hi2, g), CombState(s, lo1, hi1, lo2, hi2, j)) +
         CombRemaining(g, s, lo1, hi1, lo2, hi2, j + 1)
  {
    hide *;
    CombSplit(g, s, lo1, hi1, lo2, hi2, j);
    CombNested(g, s, lo1, hi1, lo2, hi2, j);
  }

  lemma CombNested<T>(g: Functor, s: seq<T>, lo1: nat, hi1: nat, lo2: nat, hi2: nat, j: nat)
    requires lo1 < hi1 <= lo2 && lo2 + j < hi2 <= |s| && Valid(g, |s|)
    ensures var u := Both(s, lo1, hi1, lo2, hi2);
      VisitsEach(g, FillEach(s, lo1, lo2, LeaveOut(u[..j], ChooseHead(u[j], Splits(u[j + 1..], hi1 - lo1 - 1)))))
      == Visits(CallCombine(lo1 + 1, hi1, lo2 + j, hi2, g), CombState(s, lo1, hi1, lo2, hi2, j))
  {
    hide Visits, VisitsEach, FillEach, LeaveOut, ChooseHead, Splits, Valid, Fill;
    var u := Both(s, lo1, hi1, lo2, hi2);
    var d1 := hi1 - lo1;
    var st := CombState(s, lo1, hi1, lo2, hi2, j);
    SplitsLengths(u[j + 1..], d1 - 1);
    var c', r' := u[j + 1..j + d1], u[j + d1..];
    assert u[j..j + d1] == [u[j]] + c';
    FillEachNested(s, lo1, lo2, u[j], c', u[..j], r', Splits(u[j + 1..], d1 - 1));
    CombineVisits(g, st, lo1 + 1, hi1, lo2 + j, hi2);
    CombStateBoth(s, lo1, hi1, lo2, hi2, j);
  }

  lemma CombStateBoth<T>(s: seq<T>, lo1: nat, hi1: nat, lo2: nat, hi2: nat, j: nat)
    requires lo1 < hi1 <= lo2 && lo2 + j < hi2 <= |s|
    ensures Both(CombState(s, lo1, hi1, lo2, hi2, j), lo1 + 1, hi1, lo2 + j, hi2)
      == Both(s, lo1, hi1, lo2, hi2)[j + 1..]
  {
    hide CombState;
    var st := CombState(s, lo1, hi1, lo2, hi2, j);
    var u := Both(s, lo1, hi1, lo2, hi2)[j + 1..];
    var d := hi1 - lo1 - 1;
    forall k | 0 <= k < |u| ensures Both(st, lo1 + 1, hi1, lo2 + j, hi2)[k] == u[k] {
      CombStateAt(s, lo1, hi1, lo2, hi2, j, if k < d then lo1 + 1 + k else lo2 + j + (k - d));
    }
  }

  /** A first window of one element needs no nested call. */
  lemma CombStepOne<T>(g: Functor, s: seq<T>, lo1: nat, lo2: nat, hi2: nat, j: nat)
    requires lo1 + 1 <= lo2 && lo2 + j < hi2 <= |s| && Valid(g, |s|)
    ensures CombRemaining(g, s, lo1, lo1 + 1, lo2, hi2, j)
      == Visits(g, CombState(s, lo1, lo1 + 1, lo2, hi2, j)) + CombRemaining(g, s, lo1, lo1 + 1, lo2, hi2, j + 1)
  {
    hide CombRemaining, CombState, Visits, Valid;
    var st := CombState(s, lo1, lo1 + 1, lo2, hi2, j);
    CombSplit(g, s, lo1, lo1 + 1, lo2, hi2, j);
    CombNested(g, s, lo1, lo1 + 1, lo2, hi2, j);
    NothingToChoose(g, st, lo1 + 1, lo1 + 1, lo2 + j, hi2);
  }

  /** With one of the windows empty there is one combination. */
  lemma NothingToChoose<T>(g: Functor, s: seq<T>, lo1: nat, hi1: nat, lo2: nat, hi2: nat)
    requires lo1 <= hi1 <= lo2 <= hi2 <= |s| && (lo1 == hi1 || lo2 == hi2) && Valid(g, |s|)
    ensures Visits(CallCombine(lo1, hi1, lo2, hi2, g), s) == Visits(g, s)
  {
    hide Visits, VisitsEach, Put, Valid;
    CombineVisits(g, s, lo1, hi1, lo2, hi2);
    PutUnchanged(s, lo1, hi1);
    PutUnchanged(s, lo2, hi2);
    var u := Both(s, lo1, hi1, lo2, hi2);
    var p := if lo1 == hi1 then Split([], u) else Split(u, []);
    assert u == (if lo1 == hi1 then s[lo2..hi2] else s[lo1..hi1]);
    assert s[lo1..hi1] == p.chosen && s[lo2..hi2] == p.rest;
    assert Splits(u, hi1 - lo1) == [p];
    OneState(g, s, lo1, lo2, p);
  }

  lemma OneState<T>(g: Functor, s: seq<T>, lo1: nat, lo2: nat, p: Split<T>)
    ensures VisitsEach(g, FillEach(s, lo1, lo2, [p])) == Visits(g, Fill(s, lo1, p.chosen, lo2, p.rest))
  {
    hide Fill, Visits;
    var st := Fill(s, lo1, p.chosen, lo2, p.rest);
    assert [p][1..] == [];
    assert FillEach(s, lo1, lo2, [p]) == [st];
    assert [st][1..] == [];
    assert VisitsEach(g, [st]) == Visits(g, st) + VisitsEach(g, []);
  }

  lemma CombLast<T>(g: Functor, s: seq<T>, lo1: nat, hi1: nat, lo2: nat, hi2: nat)
    requires lo1 < hi1 <= lo2 < hi2 <= |s| && Valid(g, |s|)
    ensures CombRemaining(g, s, lo1, hi1, lo2, hi2, hi2 - lo2)
      == Visits(g, CombState(s, lo1, hi1, lo2, hi2, hi2 - lo2))
  {
    hide Fill, Visits, VisitsEach, FillEach, Splits, LeaveOut, Valid;
    var u := Both(s, lo1, hi1, lo2, hi2);
    var d1, d2 := hi1 - lo1, hi2 - lo2;
    assert u[d2..d2 + d1] == u[d2..];
    assert u[..d2] + u[d2 + d1..] == u[..d2];
    LastSplit(u[..d2], u[d2..]);
    OneState(g, s, lo1, lo2, Split(u[d2..], u[..d2]));
  }

  lemma LastSplit<T>(x: seq<T>, v: seq<T>)
    requires v != []
    ensures LeaveOut(x, Splits(v, |v|)) == [Split(v, x)]
  {
    var q := [Split(v, [])];
    assert q[1..] == [];
    assert Splits(v, |v|) == q;
    assert LeaveOut(x, q) == [Split(v, x + [])] + LeaveOut(x, q[1..]);
    assert x + [] == x;
  }
}
