/** Which states the function objects over one, two or three windows show: every state
    that rearranges the windows, each exactly once. Combining two windows also moves
    elements between them. */
module VisitsExact {
  import opened Lists
  import opened Enumeration
  import opened Functors
  import opened PermutationSteps
  import opened CombinationSteps
  import opened Exactness

  /** t agrees with s outside of three windows. */
  ghost predicate SameOutside<T>(s: seq<T>, t: seq<T>, lo1: nat, hi1: nat, lo2: nat, hi2: nat, lo3: nat, hi3: nat) {
    && |t| == |s|
    && forall k {:trigger t[k]} {:trigger s[k]} ::
      0 <= k < |s| && !(lo1 <= k < hi1) && !(lo2 <= k < hi2) && !(lo3 <= k < hi3) ==> t[k] == s[k]
  }

  /** t rearranges one window of s. */
  ghost predicate Arranges<T>(s: seq<T>, t: seq<T>, lo: nat, hi: nat)
    requires lo <= hi <= |s|
  {
    SameOutside(s, t, lo, hi, lo, hi, lo, hi) && multiset(t[lo..hi]) == multiset(s[lo..hi])
  }

  /** t rearranges two windows of s, each for itself. */
  ghost predicate Arranges2<T>(s: seq<T>, t: seq<T>, lo1: nat, hi1: nat, lo2: nat, hi2: nat)
    requires lo1 <= hi1 <= lo2 <= hi2 <= |s|
  {
    && SameOutside(s, t, lo1, hi1, lo2, hi2, lo2, hi2)
    && multiset(t[lo1..hi1]) == multiset(s[lo1..hi1])
    && multiset(t[lo2..hi2]) == multiset(s[lo2..hi2])
  }

  // ----- lists of states

  lemma {:induction false} VisitsEachMember<T>(g: Functor, sts: seq<seq<T>>, t: seq<T>)
    ensures t in VisitsEach(g, sts) <==> exists i :: 0 <= i < |sts| && t in Visits(g, sts[i])
    decreases |sts|
  {
    hide Visits;
    if sts != [] {
      VisitsEachMember(g, sts[1..], t);
      if i :| 0 <= i < |sts[1..]| && t in Visits(g, sts[1..][i]) { assert t in Visits(g, sts[i + 1]); }
      if i :| 0 <= i < |sts| && t in Visits(g, sts[i]) {
        if i > 0 { assert t in Visits(g, sts[1..][i - 1]); }
      }
    }
  }

  lemma {:induction false} VisitsEachDistinct<T>(g: Functor, sts: seq<seq<T>>)
    requires forall i :: 0 <= i < |sts| ==> Distinct(Visits(g, sts[i]))
    requires forall i, j, t :: 0 <= i < j < |sts| && t in Visits(g, sts[i]) ==> t !in Visits(g, sts[j])
    ensures Distinct(VisitsEach(g, sts))
    decreases |sts|
  {
    hide Visits;
    if sts != [] {
      var x, y := Visits(g, sts[0]), VisitsEach(g, sts[1..]);
      forall i | 0 <= i < |sts[1..]| ensures Distinct(Visits(g, sts[1..][i])) { assert sts[1..][i] == sts[i + 1]; }
      forall i, j, t | 0 <= i < j < |sts[1..]| && t in Visits(g, sts[1..][i]) ensures t !in Visits(g, sts[1..][j]) {
        assert sts[1..][i] == sts[i + 1] && sts[1..][j] == sts[j + 1];
      }
      VisitsEachDistinct(g, sts[1..]);
      forall t | t in x ensures t !in y {
        VisitsEachMember(g, sts[1..], t);
        forall i | 0 <= i < |sts[1..]| ensures t !in Visits(g, sts[1..][i]) { assert sts[1..][i] == sts[i + 1]; }
      }
      DistinctConcat(x, y);
    }
  }

  lemma {:induction false} PutEachAt<T>(s: seq<T>, lo: nat, ts: seq<seq<T>>, i: nat)
    requires i < |ts|
    ensures PutEach(s, lo, ts)[i] == Put(s, lo, ts[i])
    decreases i
  {
    hide Put;
    if i > 0 { PutEachAt(s, lo, ts[1..], i - 1); }
  }

  lemma {:induction false} FillEachAt<T>(s: seq<T>, lo1: nat, lo2: nat, ps: seq<Split<T>>, i: nat)
    requires i < |ps|
    ensures FillEach(s, lo1, lo2, ps)[i] == Fill(s, lo1, ps[i].chosen, lo2, ps[i].rest)
    decreases i
  {
    hide Fill;
    if i > 0 { FillEachAt(s, lo1, lo2, ps[1..], i - 1); }
  }

  lemma {:induction false} Fill3EachAt<T>(s: seq<T>, lo1: nat, lo2: nat, lo3: nat, ps: seq<Split3<T>>, i: nat)
    requires i < |ps|
    ensures Fill3Each(s, lo1, lo2, lo3, ps)[i] == Fill3(s, lo1, ps[i].chosen, lo2, ps[i].rest1, lo3, ps[i].rest2)
    decreases i
  {
    hide Fill3;
    if i > 0 { Fill3EachAt(s, lo1, lo2, lo3, ps[1..], i - 1); }
  }

  // ----- permuting a window

  /** Permuting a window: some arrangement of it is in place when g is called. */
  lemma PermuteMember<T>(g: Functor, s: seq<T>, lo: nat, hi: nat, t: seq<T>)
    requires lo <= hi <= |s| && Valid(g, |s|)
    ensures t in Visits(CallPermute(lo, hi, g), s)
      <==> exists u :: u in Perms(s[lo..hi]) && t in Visits(g, Put(s, lo, u))
  {
    hide Visits, VisitsEach, Put, PutEach, Perms, Valid;
    var ps := Perms(s[lo..hi]);
    var sts := PutEach(s, lo, ps);
    PermuteVisits(g, s, lo, hi);
    VisitsEachMember(g, sts, t);
    if i :| 0 <= i < |sts| && t in Visits(g, sts[i]) {
      PutEachAt(s, lo, ps, i);
      assert ps[i] in ps;
    }
    if u :| u in ps && t in Visits(g, Put(s, lo, u)) {
      var i :| 0 <= i < |ps| && ps[i] == u;
      PutEachAt(s, lo, ps, i);
    }
  }

  /** What g shows after u was put into the window still holds u there. */
  ghost predicate KeepsWindow<T(!new)>(g: Functor, s: seq<T>, lo: nat, hi: nat, u: seq<T>)
    requires lo <= hi <= |s|
  {
    forall t {:trigger t in Visits(g, Put(s, lo, u))} :: t in Visits(g, Put(s, lo, u)) ==> |t| == |s| && t[lo..hi] == u
  }

  lemma ShownApart<T(!new)>(g: Functor, s: seq<T>, lo: nat, hi: nat, u: seq<T>, v: seq<T>, t: seq<T>)
    requires lo <= hi <= |s| && KeepsWindow(g, s, lo, hi, u) && KeepsWindow(g, s, lo, hi, v) && u != v
    ensures !(t in Visits(g, Put(s, lo, u)) && t in Visits(g, Put(s, lo, v)))
  {
    hide Visits, Put;
  }

  lemma PermuteDistinct<T(!new)>(g: Functor, s: seq<T>, lo: nat, hi: nat)
    requires lo <= hi <= |s| && Valid(g, |s|) && Distinct(s)
    requires forall u :: u in Perms(s[lo..hi]) ==> Distinct(Visits(g, Put(s, lo, u)))
    requires forall u :: u in Perms(s[lo..hi]) ==> KeepsWindow(g, s, lo, hi, u)
    ensures Distinct(Visits(CallPermute(lo, hi, g), s))
  {
    hide Visits, VisitsEach, Put, PutEach, Perms, Valid;
    var ps := Perms(s[lo..hi]);
    var sts := PutEach(s, lo, ps);
    PermuteVisits(g, s, lo, hi);
    PermsIncreasing(s[lo..hi]);
    IncreasingDistinct(s[lo..hi], ps);
    forall i | 0 <= i < |sts| ensures Distinct(Visits(g, sts[i])) { PutEachAt(s, lo, ps, i); }
    forall i, j, t | 0 <= i < j < |sts| && t in Visits(g, sts[i]) ensures t !in Visits(g, sts[j]) {
      PutEachAt(s, lo, ps, i);
      PutEachAt(s, lo, ps, j);
      assert ps[i] in ps && ps[j] in ps;
      assert ps[i] != ps[j];
      ShownApart(g, s, lo, hi, ps[i], ps[j], t);
    }
    VisitsEachDistinct(g, sts);
  }

  lemma BoundShows<T>(s: seq<T>, t: seq<T>)
    ensures t in Visits(BoundRange, s) <==> t == s
    ensures Distinct(Visits(BoundRange, s))
  {
  }

  lemma PutBack<T>(s: seq<T>, t: seq<T>, lo: nat, hi: nat)
    requires lo <= hi <= |s| && SameOutside(s, t, lo, hi, lo, hi, lo, hi)
    ensures t == Put(s, lo, t[lo..hi])
  {
    hide Put;
    forall k | 0 <= k < |s| ensures t[k] == Put(s, lo, t[lo..hi])[k] { PutAt(s, lo, t[lo..hi], k); }
  }

  lemma PutOutside<T>(s: seq<T>, u: seq<T>, lo: nat, hi: nat)
    requires lo <= hi <= |s| && |u| == hi - lo
    ensures SameOutside(s, Put(s, lo, u), lo, hi, lo, hi, lo, hi)
    ensures Put(s, lo, u)[lo..hi] == u
  {
    hide Put;
    forall k | 0 <= k < |s| ensures Put(s, lo, u)[k] == if lo <= k < hi then u[k - lo] else s[k] { PutAt(s, lo, u, k); }
  }

  /** permute over one window. */
  lemma OneWindow<T>(s: seq<T>, lo: nat, hi: nat, t: seq<T>)
    requires lo <= hi <= |s| && Distinct(s)
    ensures t in Visits(CallPermute(lo, hi, BoundRange), s) <==> Arranges(s, t, lo, hi)
  {
    hide Visits, Put, Perms;
    PermuteMember(BoundRange, s, lo, hi, t);
    if t in Visits(CallPermute(lo, hi, BoundRange), s) {
      var u :| u in Perms(s[lo..hi]) && t in Visits(BoundRange, Put(s, lo, u));
      BoundShows(Put(s, lo, u), t);
      PermsExact(s[lo..hi], u);
      SameLength(u, s[lo..hi]);
      PutOutside(s, u, lo, hi);
    }
    if Arranges(s, t, lo, hi) {
      PermsExact(s[lo..hi], t[lo..hi]);
      PutBack(s, t, lo, hi);
      BoundShows(Put(s, lo, t[lo..hi]), t);
    }
  }

  lemma OneWindowDistinct<T(!new)>(s: seq<T>, lo: nat, hi: nat)
    requires lo <= hi <= |s| && Distinct(s)
    ensures Distinct(Visits(CallPermute(lo, hi, BoundRange), s))
  {
    hide Visits, Put, Perms;
    forall u | u in Perms(s[lo..hi])
      ensures Distinct(Visits(BoundRange, Put(s, lo, u)))
      ensures KeepsWindow(BoundRange, s, lo, hi, u)
    {
      PermsExact(s[lo..hi], u);
      SameLength(u, s[lo..hi]);
      PutOutside(s, u, lo, hi);
      forall t | t in Visits(BoundRange, Put(s, lo, u)) ensures t == Put(s, lo, u) { BoundShows(Put(s, lo, u), t); }
      BoundShows(Put(s, lo, u), []);
    }
    PermuteDistinct(BoundRange, s, lo, hi);
  }

  /** Rearranging a window keeps a state free of repetitions. */
  lemma PutDistinct<T>(s: seq<T>, lo: nat, hi: nat, u: seq<T>)
    requires lo <= hi <= |s| && Distinct(s) && multiset(u) == multiset(s[lo..hi])
    ensures |u| == hi - lo && Distinct(Put(s, lo, u))
  {
    SameLength(u, s[lo..hi]);
    assert s == s[..lo] + s[lo..hi] + s[hi..];
    DistinctArrangement(s, Put(s, lo, u));
  }

  /** rev2 over two windows. */
  lemma TwoWindows<T>(s: seq<T>, lo1: nat, hi1: nat, lo2: nat, hi2: nat, t: seq<T>)
    requires lo1 <= hi1 <= lo2 <= hi2 <= |s| && Distinct(s)
    ensures t in Visits(Rev2(lo1, hi1, lo2, hi2, BoundRange), s) <==> Arranges2(s, t, lo1, hi1, lo2, hi2)
  {
    hide Visits, Put, Perms, Arranges2;
    var g := CallPermute(lo2, hi2, BoundRange);
    PermuteMember(g, s, lo1, hi1, t);
    if t in Visits(CallPermute(lo1, hi1, g), s) {
      var u :| u in Perms(s[lo1..hi1]) && t in Visits(g, Put(s, lo1, u));
      TwoWindowsFrom(s, lo1, hi1, lo2, hi2, u, t);
    }
    if Arranges2(s, t, lo1, hi1, lo2, hi2) {
      TwoWindowsTo(s, lo1, hi1, lo2, hi2, t);
    }
  }

  lemma TwoWindowsTo<T>(s: seq<T>, lo1: nat, hi1: nat, lo2: nat, hi2: nat, t: seq<T>)
    requires lo1 <= hi1 <= lo2 <= hi2 <= |s| && Distinct(s) && Arranges2(s, t, lo1, hi1, lo2, hi2)
    ensures t[lo1..hi1] in Perms(s[lo1..hi1])
    ensures t in Visits(CallPermute(lo2, hi2, BoundRange), Put(s, lo1, t[lo1..hi1]))
  {
    hide Visits, Put, Perms;
    var u := t[lo1..hi1];
    PermsExact(s[lo1..hi1], u);
    PutDistinct(s, lo1, hi1, u);
    PutOutside(s, u, lo1, hi1);
    var st := Put(s, lo1, u);
    assert st[lo2..hi2] == s[lo2..hi2];
    forall k | 0 <= k < |s| && !(lo2 <= k < hi2) ensures t[k] == st[k] {
      if lo1 <= k < hi1 { assert st[lo1..hi1][k - lo1] == u[k - lo1] == t[k]; }
    }
    OneWindow(st, lo2, hi2, t);
  }

  lemma TwoWindowsFrom<T>(s: seq<T>, lo1: nat, hi1: nat, lo2: nat, hi2: nat, u: seq<T>, t: seq<T>)
    requires lo1 <= hi1 <= lo2 <= hi2 <= |s| && Distinct(s)
    requires u in Perms(s[lo1..hi1]) && t in Visits(CallPermute(lo2, hi2, BoundRange), Put(s, lo1, u))
    ensures Arranges2(s, t, lo1, hi1, lo2, hi2) && t[lo1..hi1] == u
  {
    hide Visits, Put, Perms;
    PermsExact(s[lo1..hi1], u);
    PutDistinct(s, lo1, hi1, u);
    PutOutside(s, u, lo1, hi1);
    var st := Put(s, lo1, u);
    OneWindow(st, lo2, hi2, t);
    assert st[lo2..hi2] == s[lo2..hi2];
    assert t[lo1..hi1] == st[lo1..hi1];
  }

  lemma TwoWindowsDistinct<T(!new)>(s: seq<T>, lo1: nat, hi1: nat, lo2: nat, hi2: nat)
    requires lo1 <= hi1 <= lo2 <= hi2 <= |s| && Distinct(s)
    ensures Distinct(Visits(Rev2(lo1, hi1, lo2, hi2, BoundRange), s))
  {
    hide Visits, Put, Perms;
    var g := CallPermute(lo2, hi2, BoundRange);
    forall u | u in Perms(s[lo1..hi1])
      ensures Distinct(Visits(g, Put(s, lo1, u)))
      ensures KeepsWindow(g, s, lo1, hi1, u)
    {
      PermsExact(s[lo1..hi1], u);
      PutDistinct(s, lo1, hi1, u);
      OneWindowDistinct(Put(s, lo1, u), lo2, hi2);
      forall t | t in Visits(g, Put(s, lo1, u)) ensures |t| == |s| && t[lo1..hi1] == u {
        TwoWindowsFrom(s, lo1, hi1, lo2, hi2, u, t);
      }
    }
    PermuteDistinct(g, s, lo1, hi1);
  }

  /** t rearranges three windows of s, each for itself. */
  ghost predicate Arranges3<T>(s: seq<T>, t: seq<T>, lo1: nat, hi1: nat, lo2: nat, hi2: nat, lo3: nat, hi3: nat)
    requires lo1 <= hi1 <= lo2 <= hi2 <= lo3 <= hi3 <= |s|
  {
    && SameOutside(s, t, lo1, hi1, lo2, hi2, lo3, hi3)
    && multiset(t[lo1..hi1]) == multiset(s[lo1..hi1])
    && multiset(t[lo2..hi2]) == multiset(s[lo2..hi2])
    && multiset(t[lo3..hi3]) == multiset(s[lo3..hi3])
  }

  /** rev3 over three windows. */
  lemma ThreeWindows<T>(s: seq<T>, lo1: nat, hi1: nat, lo2: nat, hi2: nat, lo3: nat, hi3: nat, t: seq<T>)
    requires lo1 <= hi1 <= lo2 <= hi2 <= lo3 <= hi3 <= |s| && Distinct(s)
    ensures t in Visits(Rev3(lo1, hi1, lo2, hi2, lo3, hi3, BoundRange), s)
      <==> Arranges3(s, t, lo1, hi1, lo2, hi2, lo3, hi3)
  {
    hide Visits, Put, Perms, Rev2, Arranges2;
    var g := Rev2(lo2, hi2, lo3, hi3, BoundRange);
    assert Valid(BoundRange, |s|);
    PermuteMember(g, s, lo1, hi1, t);
    if t in Visits(CallPermute(lo1, hi1, g), s) {
      var u :| u in Perms(s[lo1..hi1]) && t in Visits(g, Put(s, lo1, u));
      ThreeWindowsFrom(s, lo1, hi1, lo2, hi2, lo3, hi3, u, t);
    }
    if Arranges3(s, t, lo1, hi1, lo2, hi2, lo3, hi3) {
      ThreeWindowsTo(s, lo1, hi1, lo2, hi2, lo3, hi3, t);
    }
  }

  lemma ThreeWindowsTo<T>(s: seq<T>, lo1: nat, hi1: nat, lo2: nat, hi2: nat, lo3: nat, hi3: nat, t: seq<T>)
    requires lo1 <= hi1 <= lo2 <= hi2 <= lo3 <= hi3 <= |s| && Distinct(s)
    requires Arranges3(s, t, lo1, hi1, lo2, hi2, lo3, hi3)
    ensures t[lo1..hi1] in Perms(s[lo1..hi1])
    ensures t in Visits(Rev2(lo2, hi2, lo3, hi3, BoundRange), Put(s, lo1, t[lo1..hi1]))
  {
    hide Visits, Put, Perms, Rev2;
    var u := t[lo1..hi1];
    PermsExact(s[lo1..hi1], u);
    PutDistinct(s, lo1, hi1, u);
    PutOutside(s, u, lo1, hi1);
    var st := Put(s, lo1, u);
    assert st[lo2..hi2] == s[lo2..hi2] && st[lo3..hi3] == s[lo3..hi3];
    forall k | 0 <= k < |s| && !(lo2 <= k < hi2) && !(lo3 <= k < hi3) ensures t[k] == st[k] {
      if lo1 <= k < hi1 { assert st[lo1..hi1][k - lo1] == u[k - lo1] == t[k]; }
    }
    TwoWindows(st, lo2, hi2, lo3, hi3, t);
  }

  lemma ThreeWindowsFrom<T>(s: seq<T>, lo1: nat, hi1: nat, lo2: nat, hi2: nat, lo3: nat, hi3: nat, u: seq<T>, t: seq<T>)
    requires lo1 <= hi1 <= lo2 <= hi2 <= lo3 <= hi3 <= |s| && Distinct(s)
    requires u in Perms(s[lo1..hi1]) && t in Visits(Rev2(lo2, hi2, lo3, hi3, BoundRange), Put(s, lo1, u))
    ensures Arranges3(s, t, lo1, hi1, lo2, hi2, lo3, hi3) && t[lo1..hi1] == u
  {
    hide Visits, Put, Perms, Rev2;
    PermsExact(s[lo1..hi1], u);
    PutDistinct(s, lo1, hi1, u);
    PutOutside(s, u, lo1, hi1);
    var st := Put(s, lo1, u);
    TwoWindows(st, lo2, hi2, lo3, hi3, t);
    assert st[lo2..hi2] == s[lo2..hi2] && st[lo3..hi3] == s[lo3..hi3];
    assert t[lo1..hi1] == st[lo1..hi1];
  }

  lemma ThreeWindowsDistinct<T(!new)>(s: seq<T>, lo1: nat, hi1: nat, lo2: nat, hi2: nat, lo3: nat, hi3: nat)
    requires lo1 <= hi1 <= lo2 <= hi2 <= lo3 <= hi3 <= |s| && Distinct(s)
    ensures Distinct(Visits(Rev3(lo1, hi1, lo2, hi2, lo3, hi3, BoundRange), s))
  {
    hide Visits, Put, Perms, Rev2, Arranges3;
    var g := Rev2(lo2, hi2, lo3, hi3, BoundRange);
    assert Valid(BoundRange, |s|);
    forall u | u in Perms(s[lo1..hi1])
      ensures Distinct(Visits(g, Put(s, lo1, u)))
      ensures KeepsWindow(g, s, lo1, hi1, u)
    {
      PermsExact(s[lo1..hi1], u);
      PutDistinct(s, lo1, hi1, u);
      TwoWindowsDistinct(Put(s, lo1, u), lo2, hi2, lo3, hi3);
      forall t | t in Visits(g, Put(s, lo1, u)) ensures |t| == |s| && t[lo1..hi1] == u {
        ThreeWindowsFrom(s, lo1, hi1, lo2, hi2, lo3, hi3, u, t);
        ArrangesLength(s, t, lo1, hi1, lo2, hi2, lo3, hi3);
      }
    }
    PermuteDistinct(g, s, lo1, hi1);
  }

  lemma ArrangesLength<T>(s: seq<T>, t: seq<T>, lo1: nat, hi1: nat, lo2: nat, hi2: nat, lo3: nat, hi3: nat)
    requires lo1 <= hi1 <= lo2 <= hi2 <= lo3 <= hi3 <= |s|
    requires Arranges3(s, t, lo1, hi1, lo2, hi2, lo3, hi3)
    ensures |t| == |s|
  {
  }

  // ----- combining two windows

  lemma CombineMember<T>(g: Functor, s: seq<T>, lo1: nat, hi1: nat, lo2: nat, hi2: nat, t: seq<T>)
    requires lo1 <= hi1 <= lo2 <= hi2 <= |s| && Valid(g, |s|)
    ensures var ps := Splits(Both(s, lo1, hi1, lo2, hi2), hi1 - lo1);
      t in Visits(CallCombine(lo1, hi1, lo2, hi2, g), s)
      <==> exists i :: 0 <= i < |ps| && t in Visits(g, Fill(s, lo1, ps[i].chosen, lo2, ps[i].rest))
  {
    hide Visits, VisitsEach, Fill, FillEach, Splits, Valid;
    var ps := Splits(Both(s, lo1, hi1, lo2, hi2), hi1 - lo1);
    var sts := FillEach(s, lo1, lo2, ps);
    CombineVisits(g, s, lo1, hi1, lo2, hi2);
    VisitsEachMember(g, sts, t);
    if i :| 0 <= i < |sts| && t in Visits(g, sts[i]) {
      FillEachAt(s, lo1, lo2, ps, i);
      assert t in Visits(g, Fill(s, lo1, ps[i].chosen, lo2, ps[i].rest));
    }
    if i :| 0 <= i < |ps| && t in Visits(g, Fill(s, lo1, ps[i].chosen, lo2, ps[i].rest)) {
      FillEachAt(s, lo1, lo2, ps, i);
      assert t in Visits(g, sts[i]);
    }
  }

  /** What g shows after p was put into the windows has the chosen elements in the first. */
  ghost predicate KeepsElements<T(!new)>(g: Functor, s: seq<T>, lo1: nat, hi1: nat, lo2: nat, p: Split<T>)
    requires lo1 <= hi1 <= |s|
  {
    forall t {:trigger t in Visits(g, Fill(s, lo1, p.chosen, lo2, p.rest))} ::
      t in Visits(g, Fill(s, lo1, p.chosen, lo2, p.rest)) ==>
        |t| == |s| && multiset(t[lo1..hi1]) == multiset(p.chosen)
  }

  lemma CombinedApart<T(!new)>(g: Functor, s: seq<T>, lo1: nat, hi1: nat, lo2: nat, p: Split<T>, q: Split<T>, t: seq<T>)
    requires lo1 <= hi1 <= |s| && KeepsElements(g, s, lo1, hi1, lo2, p) && KeepsElements(g, s, lo1, hi1, lo2, q)
    requires multiset(p.chosen) != multiset(q.chosen)
    ensures !(t in Visits(g, Fill(s, lo1, p.chosen, lo2, p.rest))
      && t in Visits(g, Fill(s, lo1, q.chosen, lo2, q.rest)))
  {
    hide Visits, Fill;
  }

  lemma CombineDistinct<T(!new)>(g: Functor, s: seq<T>, lo1: nat, hi1: nat, lo2: nat, hi2: nat)
    requires lo1 <= hi1 <= lo2 <= hi2 <= |s| && Valid(g, |s|) && Distinct(s)
    requires var ps := Splits(Both(s, lo1, hi1, lo2, hi2), hi1 - lo1);
      forall i :: 0 <= i < |ps| ==> Distinct(Visits(g, Fill(s, lo1, ps[i].chosen, lo2, ps[i].rest)))
    requires var ps := Splits(Both(s, lo1, hi1, lo2, hi2), hi1 - lo1);
      forall i :: 0 <= i < |ps| ==> KeepsElements(g, s, lo1, hi1, lo2, ps[i])
    ensures Distinct(Visits(CallCombine(lo1, hi1, lo2, hi2, g), s))
  {
    hide Visits, VisitsEach, Fill, FillEach, Splits, Valid;
    var u := Both(s, lo1, hi1, lo2, hi2);
    var ps := Splits(u, hi1 - lo1);
    var sts := FillEach(s, lo1, lo2, ps);
    CombineVisits(g, s, lo1, hi1, lo2, hi2);
    forall i | 0 <= i < |sts| ensures Distinct(Visits(g, sts[i])) { FillEachAt(s, lo1, lo2, ps, i); }
    forall i, j, t | 0 <= i < j < |sts| && t in Visits(g, sts[i]) ensures t !in Visits(g, sts[j]) {
      FillEachAt(s, lo1, lo2, ps, i);
      FillEachAt(s, lo1, lo2, ps, j);
      if multiset(ps[i].chosen) == multiset(ps[j].chosen) {
        SplitsUnique(u, hi1 - lo1, i, j);
      }
      CombinedApart(g, s, lo1, hi1, lo2, ps[i], ps[j], t);
    }
    VisitsEachDistinct(g, sts);
  }

  /** t redistributes the elements of two windows of s. */
  ghost predicate Redistributes<T>(s: seq<T>, t: seq<T>, lo1: nat, hi1: nat, lo2: nat, hi2: nat)
    requires lo1 <= hi1 <= lo2 <= hi2 <= |s|
  {
    && SameOutside(s, t, lo1, hi1, lo2, hi2, lo2, hi2)
    && multiset(t[lo1..hi1]) + multiset(t[lo2..hi2]) == multiset(s[lo1..hi1]) + multiset(s[lo2..hi2])
  }

  lemma FillOutside<T>(s: seq<T>, lo1: nat, hi1: nat, c: seq<T>, lo2: nat, hi2: nat, r: seq<T>)
    requires lo1 <= hi1 <= lo2 <= hi2 <= |s| && |c| == hi1 - lo1 && |r| == hi2 - lo2
    ensures var st := Fill(s, lo1, c, lo2, r);
      SameOutside(s, st, lo1, hi1, lo2, hi2, lo2, hi2) && st[lo1..hi1] == c && st[lo2..hi2] == r
  {
    hide Put;
    forall k | 0 <= k < |s|
      ensures Fill(s, lo1, c, lo2, r)[k]
        == if lo1 <= k < hi1 then c[k - lo1] else if lo2 <= k < hi2 then r[k - lo2] else s[k]
    {
      PutAt(s, lo1, c, k);
      PutAt(Put(s, lo1, c), lo2, r, k);
    }
  }

  lemma WindowsMultiset<T>(s: seq<T>, lo1: nat, hi1: nat, lo2: nat, hi2: nat)
    requires lo1 <= hi1 <= lo2 <= hi2 <= |s|
    ensures multiset(s) == multiset(s[lo1..hi1]) + multiset(s[lo2..hi2])
      + (multiset(s[..lo1]) + multiset(s[hi1..lo2]) + multiset(s[hi2..]))
  {
    MultisetSplit(s, lo1);
    WindowMultiset(s, lo1, hi1);
    WindowMultiset(s, hi1, lo2);
    WindowMultiset(s, lo2, hi2);
  }

  lemma WindowMultiset<T>(s: seq<T>, lo: nat, hi: nat)
    requires lo <= hi <= |s|
    ensures multiset(s[lo..]) == multiset(s[lo..hi]) + multiset(s[hi..])
  {
    assert s[lo..] == s[lo..hi] + s[hi..];
  }

  /** Redistributing two windows keeps a state free of repetitions. */
  lemma RedistributesDistinct<T>(s: seq<T>, t: seq<T>, lo1: nat, hi1: nat, lo2: nat, hi2: nat)
    requires lo1 <= hi1 <= lo2 <= hi2 <= |s| && Distinct(s) && Redistributes(s, t, lo1, hi1, lo2, hi2)
    ensures Distinct(t)
  {
    WindowsMultiset(s, lo1, hi1, lo2, hi2);
    WindowsMultiset(t, lo1, hi1, lo2, hi2);
    assert t[..lo1] == s[..lo1];
    assert t[hi1..lo2] == s[hi1..lo2];
    assert t[hi2..] == s[hi2..];
    assert multiset(s) == multiset(t);
    DistinctArrangement(s, t);
  }

  /** Each split put into the windows redistributes them. */
  lemma SplitFills<T>(s: seq<T>, lo1: nat, hi1: nat, lo2: nat, hi2: nat, i: nat)
    requires lo1 <= hi1 <= lo2 <= hi2 <= |s| && Distinct(s)
    requires i < |Splits(Both(s, lo1, hi1, lo2, hi2), hi1 - lo1)|
    ensures var p := Splits(Both(s, lo1, hi1, lo2, hi2), hi1 - lo1)[i];
      var st := Fill(s, lo1, p.chosen, lo2, p.rest);
      && Redistributes(s, st, lo1, hi1, lo2, hi2) && Distinct(st)
      && st[lo1..hi1] == p.chosen && st[lo2..hi2] == p.rest
  {
    hide Splits, Fill;
    var u := Both(s, lo1, hi1, lo2, hi2);
    var ps := Splits(u, hi1 - lo1);
    SplitsLengths(u, hi1 - lo1);
    assert ps[i] in ps;
    SplitsPart(u, hi1 - lo1, i);
    FillOutside(s, lo1, hi1, ps[i].chosen, lo2, hi2, ps[i].rest);
    RedistributesDistinct(s, Fill(s, lo1, ps[i].chosen, lo2, ps[i].rest), lo1, hi1, lo2, hi2);
  }

  /** Some split has the elements that t has in the first window. */
  lemma SplitOf<T>(s: seq<T>, t: seq<T>, lo1: nat, hi1: nat, lo2: nat, hi2: nat) returns (i: nat)
    requires lo1 <= hi1 <= lo2 <= hi2 <= |s| && |t| == |s|
    requires multiset(t[lo1..hi1]) + multiset(t[lo2..hi2]) == multiset(s[lo1..hi1]) + multiset(s[lo2..hi2])
    ensures i < |Splits(Both(s, lo1, hi1, lo2, hi2), hi1 - lo1)|
    ensures multiset(Splits(Both(s, lo1, hi1, lo2, hi2), hi1 - lo1)[i].chosen) == multiset(t[lo1..hi1])
    ensures multiset(Splits(Both(s, lo1, hi1, lo2, hi2), hi1 - lo1)[i].rest) == multiset(t[lo2..hi2])
  {
    hide Splits;
    var u := Both(s, lo1, hi1, lo2, hi2);
    assert |multiset(t[lo1..hi1])| == hi1 - lo1;
    i := SplitsComplete(u, hi1 - lo1, multiset(t[lo1..hi1]));
    SplitsPart(u, hi1 - lo1, i);
    var p := Splits(u, hi1 - lo1)[i];
    assert multiset(p.rest) == multiset(u) - multiset(p.chosen);
    assert multiset(t[lo2..hi2]) == multiset(u) - multiset(t[lo1..hi1]);
  }

  /** All combinations of two windows, both permuted: every redistribution. */
  lemma CombineTwo<T>(s: seq<T>, lo1: nat, hi1: nat, lo2: nat, hi2: nat, t: seq<T>)
    requires lo1 <= hi1 <= lo2 <= hi2 <= |s| && Distinct(s)
    ensures t in Visits(CallCombine(lo1, hi1, lo2, hi2, Rev2(lo1, hi1, lo2, hi2, BoundRange)), s)
      <==> Redistributes(s, t, lo1, hi1, lo2, hi2)
  {
    hide Visits, Fill, Splits, Rev2;
    var g := Rev2(lo1, hi1, lo2, hi2, BoundRange);
    assert Valid(BoundRange, |s|);
    var ps := Splits(Both(s, lo1, hi1, lo2, hi2), hi1 - lo1);
    CombineMember(g, s, lo1, hi1, lo2, hi2, t);
    if t in Visits(CallCombine(lo1, hi1, lo2, hi2, g), s) {
      var i :| 0 <= i < |ps| && t in Visits(g, Fill(s, lo1, ps[i].chosen, lo2, ps[i].rest));
      SplitFills(s, lo1, hi1, lo2, hi2, i);
      TwoWindows(Fill(s, lo1, ps[i].chosen, lo2, ps[i].rest), lo1, hi1, lo2, hi2, t);
    }
    if Redistributes(s, t, lo1, hi1, lo2, hi2) {
      var i := SplitOf(s, t, lo1, hi1, lo2, hi2);
      SplitFills(s, lo1, hi1, lo2, hi2, i);
      TwoWindows(Fill(s, lo1, ps[i].chosen, lo2, ps[i].rest), lo1, hi1, lo2, hi2, t);
    }
  }

  lemma CombineTwoDistinct<T(!new)>(s: seq<T>, lo1: nat, hi1: nat, lo2: nat, hi2: nat)
    requires lo1 <= hi1 <= lo2 <= hi2 <= |s| && Distinct(s)
    ensures Distinct(Visits(CallCombine(lo1, hi1, lo2, hi2, Rev2(lo1, hi1, lo2, hi2, BoundRange)), s))
  {
    hide Visits, Fill, Splits, Rev2;
    var g := Rev2(lo1, hi1, lo2, hi2, BoundRange);
    assert Valid(BoundRange, |s|);
    var ps := Splits(Both(s, lo1, hi1, lo2, hi2), hi1 - lo1);
    forall i | 0 <= i < |ps|
      ensures Distinct(Visits(g, Fill(s, lo1, ps[i].chosen, lo2, ps[i].rest)))
      ensures KeepsElements(g, s, lo1, hi1, lo2, ps[i])
    {
      var st := Fill(s, lo1, ps[i].chosen, lo2, ps[i].rest);
      SplitFills(s, lo1, hi1, lo2, hi2, i);
      TwoWindowsDistinct(st, lo1, hi1, lo2, hi2);
      forall t | t in Visits(g, st) ensures |t| == |s| && multiset(t[lo1..hi1]) == multiset(ps[i].chosen) {
        TwoWindows(st, lo1, hi1, lo2, hi2, t);
      }
    }
    CombineDistinct(g, s, lo1, hi1, lo2, hi2);
  }

  /** t rearranges the first window of s and redistributes the other two. */
  ghost predicate ArrangesRedistributes<T>(s: seq<T>, t: seq<T>, lo1: nat, hi1: nat, lo2: nat, hi2: nat, lo3: nat,
                                           hi3: nat)
    requires lo1 <= hi1 <= lo2 <= hi2 <= lo3 <= hi3 <= |s|
  {
    && SameOutside(s, t, lo1, hi1, lo2, hi2, lo3, hi3)
    && multiset(t[lo1..hi1]) == multiset(s[lo1..hi1])
    && multiset(t[lo2..hi2]) + multiset(t[lo3..hi3]) == multiset(s[lo2..hi2]) + multiset(s[lo3..hi3])
  }

  /** The second and the third window combined, all three permuted. */
  lemma CombineLastTwo<T>(s: seq<T>, lo1: nat, hi1: nat, lo2: nat, hi2: nat, lo3: nat, hi3: nat, t: seq<T>)
    requires lo1 <= hi1 <= lo2 <= hi2 <= lo3 <= hi3 <= |s| && Distinct(s)
    ensures t in Visits(CallCombine(lo2, hi2, lo3, hi3, Rev3(lo1, hi1, lo2, hi2, lo3, hi3, BoundRange)), s)
      <==> ArrangesRedistributes(s, t, lo1, hi1, lo2, hi2, lo3, hi3)
  {
    hide Visits, Fill, Splits, Rev3;
    var g := Rev3(lo1, hi1, lo2, hi2, lo3, hi3, BoundRange);
    assert Valid(BoundRange, |s|);
    var ps := Splits(Both(s, lo2, hi2, lo3, hi3), hi2 - lo2);
    CombineMember(g, s, lo2, hi2, lo3, hi3, t);
    if t in Visits(CallCombine(lo2, hi2, lo3, hi3, g), s) {
      var i :| 0 <= i < |ps| && t in Visits(g, Fill(s, lo2, ps[i].chosen, lo3, ps[i].rest));
      LastTwoFrom(s, lo1, hi1, lo2, hi2, lo3, hi3, i, t);
    }
    if ArrangesRedistributes(s, t, lo1, hi1, lo2, hi2, lo3, hi3) {
      OutsideLength3(s, t, lo1, hi1, lo2, hi2, lo3, hi3);
      var i := SplitOf(s, t, lo2, hi2, lo3, hi3);
      LastTwoFrom(s, lo1, hi1, lo2, hi2, lo3, hi3, i, t);
    }
  }

  lemma OutsideLength3<T>(s: seq<T>, t: seq<T>, lo1: nat, hi1: nat, lo2: nat, hi2: nat, lo3: nat, hi3: nat)
    requires SameOutside(s, t, lo1, hi1, lo2, hi2, lo3, hi3)
    ensures |t| == |s|
  {
  }

  /** What is shown from the i-th split of the second and third window. */
  lemma LastTwoFrom<T>(s: seq<T>, lo1: nat, hi1: nat, lo2: nat, hi2: nat, lo3: nat, hi3: nat, i: nat, t: seq<T>)
    requires lo1 <= hi1 <= lo2 <= hi2 <= lo3 <= hi3 <= |s| && Distinct(s)
    requires i < |Splits(Both(s, lo2, hi2, lo3, hi3), hi2 - lo2)|
    ensures var p := Splits(Both(s, lo2, hi2, lo3, hi3), hi2 - lo2)[i];
      t in Visits(Rev3(lo1, hi1, lo2, hi2, lo3, hi3, BoundRange), Fill(s, lo2, p.chosen, lo3, p.rest))
      <==> ArrangesRedistributes(s, t, lo1, hi1, lo2, hi2, lo3, hi3)
           && multiset(t[lo2..hi2]) == multiset(p.chosen) && multiset(t[lo3..hi3]) == multiset(p.rest)
  {
    hide Visits, Fill, Splits, Rev3;
    var p := Splits(Both(s, lo2, hi2, lo3, hi3), hi2 - lo2)[i];
    var st := Fill(s, lo2, p.chosen, lo3, p.rest);
    SplitFills(s, lo2, hi2, lo3, hi3, i);
    ThreeWindows(st, lo1, hi1, lo2, hi2, lo3, hi3, t);
    LastTwoStates(s, st, t, lo1, hi1, lo2, hi2, lo3, hi3);
  }

  lemma LastTwoStates<T>(s: seq<T>, st: seq<T>, t: seq<T>, lo1: nat, hi1: nat, lo2: nat, hi2: nat, lo3: nat, hi3: nat)
    requires lo1 <= hi1 <= lo2 <= hi2 <= lo3 <= hi3 <= |s| && Redistributes(s, st, lo2, hi2, lo3, hi3)
    ensures Arranges3(st, t, lo1, hi1, lo2, hi2, lo3, hi3)
      <==> ArrangesRedistributes(s, t, lo1, hi1, lo2, hi2, lo3, hi3)
           && multiset(t[lo2..hi2]) == multiset(st[lo2..hi2]) && multiset(t[lo3..hi3]) == multiset(st[lo3..hi3])
  {
    assert st[lo1..hi1] == s[lo1..hi1];
    assert SameOutside(st, t, lo1, hi1, lo2, hi2, lo3, hi3) <==> SameOutside(s, t, lo1, hi1, lo2, hi2, lo3, hi3);
  }

  lemma CombineLastTwoDistinct<T(!new)>(s: seq<T>, lo1: nat, hi1: nat, lo2: nat, hi2: nat, lo3: nat, hi3: nat)
    requires lo1 <= hi1 <= lo2 <= hi2 <= lo3 <= hi3 <= |s| && Distinct(s)
    ensures Distinct(Visits(CallCombine(lo2, hi2, lo3, hi3, Rev3(lo1, hi1, lo2, hi2, lo3, hi3, BoundRange)), s))
  {
    hide Visits, Fill, Splits, Rev3;
    var g := Rev3(lo1, hi1, lo2, hi2, lo3, hi3, BoundRange);
    assert Valid(BoundRange, |s|);
    var ps := Splits(Both(s, lo2, hi2, lo3, hi3), hi2 - lo2);
    forall i | 0 <= i < |ps|
      ensures Distinct(Visits(g, Fill(s, lo2, ps[i].chosen, lo3, ps[i].rest)))
      ensures KeepsElements(g, s, lo2, hi2, lo3, ps[i])
    {
      var st := Fill(s, lo2, ps[i].chosen, lo3, ps[i].rest);
      SplitFills(s, lo2, hi2, lo3, hi3, i);
      ThreeWindowsDistinct(st, lo1, hi1, lo2, hi2, lo3, hi3);
      forall t | t in Visits(g, st) ensures |t| == |s| && multiset(t[lo2..hi2]) == multiset(ps[i].chosen) {
        ThreeWindows(st, lo1, hi1, lo2, hi2, lo3, hi3, t);
      }
    }
    CombineDistinct(g, s, lo2, hi2, lo3, hi3);
  }
}
