/** The public enumerations: for_each_combination and its relatives. */
module ForEach {
  import opened Lists
  import opened Enumeration
  import opened Functors
  import opened Rotations
  import opened Feeding
  import opened PermutationSteps
  import opened CombinationSteps
  import opened Exactness
  import opened VisitsExact
  import opened ReversibleExact
  import opened Engine

  function AllCombinations(mid: nat, n: nat): Functor {
    CallCombine(0, mid, mid, n, BoundRange)
  }

  function AllPermutations(mid: nat, n: nat): Functor {
    CallCombine(0, mid, mid, n, CallPermute(0, mid, BoundRange))
  }

  function AllCircular(mid: nat, n: nat): Functor {
    CallCombine(0, mid, mid, n, CircularPermutation(0, mid, BoundRange))
  }

  function AllReversibleCircular(mid: nat, n: nat): Functor {
    CallCombine(0, mid, mid, n, ReverseCircularPermutation(0, mid, BoundRange))
  }

  function AllReversible(mid: nat, n: nat): Functor {
    CallCombine(0, mid, mid, n, ReversiblePermutation(0, mid, BoundRange))
  }

  /** Runs one of the enumerations on an array. The user's function f is asked after every
      state, shown what it has been shown so far; true stops the enumeration. */
  method Run<T>(a: array<T>, g: Functor, f: seq<seq<T>> -> bool) returns (shown: seq<seq<T>>, stopped: bool)
    requires Valid(g, a.Length)
    modifies a
    ensures shown <= Visits(g, old(a[..]))
    ensures !stopped ==> shown == Visits(g, old(a[..])) && a[..] == old(a[..])
    ensures stopped <==> exists k :: 0 < k <= |Visits(g, old(a[..]))| && f(Visits(g, old(a[..]))[..k])
    ensures stopped ==> shown != [] && a[..] == shown[|shown| - 1]
    ensures stopped ==> f(shown) && forall k :: 0 < k < |shown| ==> !f(shown[..k])
  {
    hide Visits, Feed;
    var r := new Range(f, a);
    ghost var vs := Visits(g, a[..]);
    stopped := r.Call(g);
    shown := r.visited;
    FeedShows(f, [], vs);
    assert [] + vs == vs;
    forall k | 0 < k <= |vs| ensures [] + vs[..k] == vs[..k] {}
    if stopped {
      ghost var n := FeedStops(f, [], vs);
      assert shown == vs[..n];
      forall k | 0 < k < n ensures shown[..k] == [] + vs[..k] {}
    }
  }

  // ----- every combination on its own

  lemma {:induction false} BoundVisits<T>(sts: seq<seq<T>>)
    ensures VisitsEach(BoundRange, sts) == sts
    decreases |sts|
  {
    if sts != [] {
      BoundVisits(sts[1..]);
      assert sts == [sts[0]] + sts[1..];
    }
  }

  /** for_each_combination: the choices in lexicographic order of positions, each with the
      others behind it in their original order. */
  lemma CombinationsInOrder<T>(s: seq<T>, mid: nat, i: nat)
    requires mid <= |s|
    ensures var vs, ps := Visits(AllCombinations(mid, |s|), s), Splits(s, mid);
      |vs| == |ps| && (i < |vs| ==> vs[i] == ps[i].chosen + ps[i].rest)
    ensures Distinct(s) ==> Increasing(s, Chosen(Splits(s, mid)))
  {
    hide Visits, VisitsEach, FillEach, Splits, Fill, Increasing, Chosen;
    var vs, ps := Visits(AllCombinations(mid, |s|), s), Splits(s, mid);
    assert Valid(BoundRange, |s|);
    CombineVisits(BoundRange, s, 0, mid, mid, |s|);
    assert Both(s, 0, mid, mid, |s|) == s;
    BoundVisits(FillEach(s, 0, mid, ps));
    if i < |vs| {
      FillEachAt(s, 0, mid, ps, i);
      SplitsLengths(s, mid);
      assert ps[i] in ps;
      FillOutside(s, 0, mid, ps[i].chosen, mid, |s|, ps[i].rest);
      assert vs[i] == vs[i][0..mid] + vs[i][mid..|s|];
    }
    if Distinct(s) { SplitsIncreasing(s, mid); }
  }

  // ----- combinations whose first part is rearranged

  /** g, called on any state, only rearranges the first part, and shows nothing twice. */
  ghost predicate Rearranges<T(!new)>(g: Functor, n: nat, mid: nat)
    requires mid <= n
  {
    && Valid(g, n)
    && (forall st: seq<T>, t {:trigger t in Visits(g, st)} ::
          |st| == n && Distinct(st) && t in Visits(g, st) ==> Arranges(st, t, 0, mid))
    && (forall st: seq<T> {:trigger Visits(g, st)} :: |st| == n && Distinct(st) ==> Distinct(Visits(g, st)))
  }

  lemma PermuteRearranges<T(!new)>(n: nat, mid: nat)
    requires mid <= n
    ensures Rearranges<T>(CallPermute(0, mid, BoundRange), n, mid)
  {
    hide Visits, Arranges;
    var g := CallPermute(0, mid, BoundRange);
    assert Valid(BoundRange, n) && Valid(g, n);
    forall st: seq<T> | |st| == n && Distinct(st) ensures Distinct(Visits(g, st)) {
      OneWindowDistinct(st, 0, mid);
    }
    forall st: seq<T>, t | |st| == n && Distinct(st) && t in Visits(g, st)
      ensures Arranges(st, t, 0, mid)
    {
      OneWindow(st, 0, mid, t);
    }
  }

  lemma ReversibleRearranges<T(!new)>(n: nat, mid: nat)
    requires 2 <= mid <= n
    ensures Rearranges<T>(ReversiblePermutation(0, mid, BoundRange), n, mid)
  {
    hide Visits, Arranges, Canonical;
    var g := ReversiblePermutation(0, mid, BoundRange);
    assert Valid(BoundRange, n) && Valid(g, n);
    forall st: seq<T> | |st| == n && Distinct(st) ensures Distinct(Visits(g, st)) {
      ReversibleDistinct(st, 0, mid);
    }
    forall st: seq<T>, t | |st| == n && Distinct(st) && t in Visits(g, st) ensures Arranges(st, t, 0, mid) {
      ReversibleShows(st, 0, mid, t);
    }
  }

  lemma CircularShows<T>(s: seq<T>, mid: nat, t: seq<T>)
    requires mid <= |s| && Distinct(s)
    ensures t in Visits(CircularPermutation(0, mid, BoundRange), s)
      <==> Arranges(s, t, 0, mid) && (mid > 0 ==> |t| > 0 && t[0] == s[0])
  {
    hide Arranges, VisitsEach, PutEach, Perms;
    if mid == 0 {
      BoundShows(s, t);
      NothingArranged(s, t);
    } else if mid == 1 {
      BoundShows(s, t);
      ArrangesItself(s, 0, 1);
      if Arranges(s, t, 0, mid) { OneElementLeft(s, t, 0); }
    } else {
      OneWindow(s, 1, mid, t);
      HoldFirst(s, t, 0, mid);
      if Arranges(s, t, 0, mid) { ArrangesLengths(s, t, 0, mid); }
    }
  }

  lemma NothingArranged<T>(s: seq<T>, t: seq<T>)
    ensures Arranges(s, t, 0, 0) <==> t == s
  {
    ArrangesItself(s, 0, 0);
    if Arranges(s, t, 0, 0) { assert |t| == |s|; }
  }

  lemma CircularDistinct<T(!new)>(s: seq<T>, mid: nat)
    requires mid <= |s| && Distinct(s)
    ensures Distinct(Visits(CircularPermutation(0, mid, BoundRange), s))
  {
    hide VisitsEach, PutEach, Perms;
    if mid <= 1 { BoundShows(s, []); } else { OneWindowDistinct(s, 1, mid); }
  }

  lemma CircularRearranges<T(!new)>(n: nat, mid: nat)
    requires mid <= n
    ensures Rearranges<T>(CircularPermutation(0, mid, BoundRange), n, mid)
  {
    hide Arranges, Visits;
    var g := CircularPermutation(0, mid, BoundRange);
    assert Valid(BoundRange, n) && Valid(g, n);
    forall st: seq<T> | |st| == n && Distinct(st) ensures Distinct(Visits(g, st)) {
      CircularDistinct(st, mid);
    }
    forall st: seq<T>, t | |st| == n && Distinct(st) && t in Visits(g, st) ensures Arranges(st, t, 0, mid) {
      CircularShows(st, mid, t);
    }
  }

  lemma RearrangesAt<T(!new)>(g: Functor, mid: nat, st: seq<T>, t: seq<T>)
    requires mid <= |st| && Rearranges<T>(g, |st|, mid) && Distinct(st)
    ensures t in Visits(g, st) ==> Arranges(st, t, 0, mid) && |t| == |st| && multiset(t[..mid]) == multiset(st[..mid])
    ensures Distinct(Visits(g, st))
  {
    hide Visits;
    assert st[0..mid] == st[..mid];
    if t in Visits(g, st) { assert t[0..mid] == t[..mid]; }
  }

  /** The state from which everything with the elements m in its first part is shown. */
  lemma StateOf<T(!new)>(g: Functor, s: seq<T>, mid: nat, m: multiset<T>) returns (st: seq<T>)
    requires mid <= |s| && Distinct(s) && Rearranges<T>(g, |s|, mid)
    requires m <= multiset(s) && |m| == mid
    ensures |st| == |s| && Distinct(st) && multiset(st) == multiset(s) && multiset(st[..mid]) == m
    ensures forall t ::
      (t in Visits(CallCombine(0, mid, mid, |s|, g), s) && |t| == |s| && multiset(t[..mid]) == m)
        <==> t in Visits(g, st)
  {
    hide Visits, Splits, Fill, Rearranges;
    var n := |s|;
    var u := Both(s, 0, mid, mid, n);
    assert u == s;
    var ps := Splits(u, mid);
    var i := SplitsComplete(u, mid, m);
    st := Fill(s, 0, ps[i].chosen, mid, ps[i].rest);
    SplitFills(s, 0, mid, mid, n, i);
    assert st[..mid] == st[0..mid];
    RedistributedWhole(s, st, mid);
    forall t
      ensures (t in Visits(CallCombine(0, mid, mid, n, g), s) && |t| == n && multiset(t[..mid]) == m)
        <==> t in Visits(g, st)
    {
      ShownFromSplit(g, s, mid, i, t);
    }
  }

  lemma RedistributedWhole<T>(s: seq<T>, st: seq<T>, mid: nat)
    requires mid <= |s| && Redistributes(s, st, 0, mid, mid, |s|)
    ensures multiset(st) == multiset(s)
  {
    WindowsMultiset(s, 0, mid, mid, |s|);
    WindowsMultiset(st, 0, mid, mid, |s|);
    NothingOutside(s, mid);
    NothingOutside(st, mid);
  }

  /** What has the elements of the i-th split in its first part is shown from there. */
  lemma ShownFromSplit<T(!new)>(g: Functor, s: seq<T>, mid: nat, i: nat, t: seq<T>)
    requires mid <= |s| && Distinct(s) && Rearranges<T>(g, |s|, mid)
    requires i < |Splits(Both(s, 0, mid, mid, |s|), mid)|
    ensures var p := Splits(Both(s, 0, mid, mid, |s|), mid)[i];
      (t in Visits(CallCombine(0, mid, mid, |s|, g), s) && |t| == |s| && multiset(t[..mid]) == multiset(p.chosen))
      <==> t in Visits(g, Fill(s, 0, p.chosen, mid, p.rest))
  {
    hide Visits, Splits, Fill, Rearranges;
    var n := |s|;
    var u := Both(s, 0, mid, mid, n);
    assert u == s;
    var ps := Splits(u, mid);
    RearrangesValid<T>(g, n, mid);
    CombineMember(g, s, 0, mid, mid, n, t);
    if t in Visits(g, Fill(s, 0, ps[i].chosen, mid, ps[i].rest)) {
      FromSplit(g, s, mid, i, t);
    }
    if t in Visits(CallCombine(0, mid, mid, n, g), s) && |t| == n && multiset(t[..mid]) == multiset(ps[i].chosen) {
      var j :| 0 <= j < |ps| && t in Visits(g, Fill(s, 0, ps[j].chosen, mid, ps[j].rest));
      FromSplit(g, s, mid, j, t);
      SplitsUnique(u, mid, i, j);
    }
  }

  lemma NothingOutside<T>(s: seq<T>, mid: nat)
    requires mid <= |s|
    ensures s[..0] == [] && s[mid..mid] == [] && s[|s|..] == []
  {
  }

  lemma RearrangesValid<T(!new)>(g: Functor, n: nat, mid: nat)
    requires mid <= n && Rearranges<T>(g, n, mid)
    ensures Valid(g, n)
  {
    hide Visits;
  }

  /** What is shown from the j-th split has its elements in the first part. */
  lemma FromSplit<T(!new)>(g: Functor, s: seq<T>, mid: nat, j: nat, t: seq<T>)
    requires mid <= |s| && Distinct(s) && Rearranges<T>(g, |s|, mid)
    requires var ps := Splits(Both(s, 0, mid, mid, |s|), mid);
      j < |ps| && t in Visits(g, Fill(s, 0, ps[j].chosen, mid, ps[j].rest))
    ensures |t| == |s| && multiset(t[..mid]) == multiset(Splits(Both(s, 0, mid, mid, |s|), mid)[j].chosen)
  {
    hide Visits, Splits, Fill, Rearranges;
    var p := Splits(Both(s, 0, mid, mid, |s|), mid)[j];
    var st := Fill(s, 0, p.chosen, mid, p.rest);
    SplitFills(s, 0, mid, mid, |s|, j);
    assert st[..mid] == st[0..mid];
    RearrangesAt(g, mid, st, t);
  }

  /** Every state shown is a rearrangement of the whole range. */
  lemma ShownRearranged<T(!new)>(g: Functor, s: seq<T>, mid: nat, t: seq<T>)
    requires mid <= |s| && Distinct(s) && Rearranges<T>(g, |s|, mid)
    requires t in Visits(CallCombine(0, mid, mid, |s|, g), s)
    ensures |t| == |s| && multiset(t) == multiset(s)
  {
    hide Visits, Rearranges, Splits, Fill;
    RearrangesValid<T>(g, |s|, mid);
    CombineMember(g, s, 0, mid, mid, |s|, t);
    var ps := Splits(Both(s, 0, mid, mid, |s|), mid);
    var j :| 0 <= j < |ps| && t in Visits(g, Fill(s, 0, ps[j].chosen, mid, ps[j].rest));
    var st := Fill(s, 0, ps[j].chosen, mid, ps[j].rest);
    SplitFills(s, 0, mid, mid, |s|, j);
    RedistributedWhole(s, st, mid);
    RearrangesAt(g, mid, st, t);
    assert t[mid..] == st[mid..];
    MultisetSplit(t, mid);
    MultisetSplit(st, mid);
  }

  lemma AllDistinct<T(!new)>(g: Functor, s: seq<T>, mid: nat)
    requires mid <= |s| && Distinct(s) && Rearranges<T>(g, |s|, mid)
    ensures Distinct(Visits(CallCombine(0, mid, mid, |s|, g), s))
  {
    hide Visits, Splits, Fill, Rearranges;
    var n := |s|;
    var ps := Splits(Both(s, 0, mid, mid, n), mid);
    RearrangesValid<T>(g, n, mid);
    forall i | 0 <= i < |ps|
      ensures Distinct(Visits(g, Fill(s, 0, ps[i].chosen, mid, ps[i].rest)))
      ensures KeepsElements(g, s, 0, mid, mid, ps[i])
    {
      var st := Fill(s, 0, ps[i].chosen, mid, ps[i].rest);
      SplitFills(s, 0, mid, mid, n, i);
      RearrangesAt(g, mid, st, []);
      forall t | t in Visits(g, st) ensures |t| == n && multiset(t[0..mid]) == multiset(ps[i].chosen) {
        FromSplit(g, s, mid, i, t);
        assert t[0..mid] == t[..mid];
      }
    }
    CombineDistinct(g, s, 0, mid, mid, n);
  }

  // ----- the main results

  /** Exactly one of the states has a first part of the kind `like`. */
  ghost predicate ExactlyOne<T>(vs: seq<seq<T>>, mid: nat, kind: set<seq<T>>) {
    exists i :: OnlyAt(vs, mid, kind, i)
  }

  ghost predicate OnlyAt<T>(vs: seq<seq<T>>, mid: nat, kind: set<seq<T>>, i: nat) {
    && i < |vs| && Starts(vs[i], mid, kind)
    && forall j :: 0 <= j < |vs| && Starts(vs[j], mid, kind) ==> j == i
  }

  ghost predicate Starts<T>(t: seq<T>, mid: nat, kind: set<seq<T>>) {
    mid <= |t| && t[..mid] in kind
  }

  /** A choice of mid elements of s, in some order. */
  ghost predicate Arrangement<T>(u: seq<T>, s: seq<T>, mid: nat) {
    |u| == mid && multiset(u) <= multiset(s)
  }

  lemma OnlyState<T>(vs: seq<seq<T>>, mid: nat, kind: set<seq<T>>, t: seq<T>)
    requires Distinct(vs) && t in vs && Starts(t, mid, kind)
    requires forall t' :: t' in vs && Starts(t', mid, kind) ==> t' == t
    ensures ExactlyOne(vs, mid, kind)
  {
    var i :| 0 <= i < |vs| && vs[i] == t;
    forall j | 0 <= j < |vs| && Starts(vs[j], mid, kind) ensures j == i { assert vs[j] in vs; }
    assert OnlyAt(vs, mid, kind, i);
  }

  /** for_each_permutation shows every arrangement of mid elements exactly once. */
  lemma EveryPermutationOnce<T(!new)>(s: seq<T>, mid: nat, u: seq<T>)
    requires mid <= |s| && Distinct(s) && Arrangement(u, s, mid)
    ensures ExactlyOne(Visits(AllPermutations(mid, |s|), s), mid, {u})
  {
    hide Visits, Rearranges, Arranges, ExactlyOne;
    var g := CallPermute(0, mid, BoundRange);
    var vs := Visits(AllPermutations(mid, |s|), s);
    PermuteRearranges<T>(|s|, mid);
    AllDistinct(g, s, mid);
    var st := StateOf(g, s, mid, multiset(u));
    var t := WithFirst(st, mid, u);
    OneWindow(st, 0, mid, t);
    forall t' | t' in vs && Starts(t', mid, {u}) ensures t' == t {
      assert t' in Visits(g, st) by { Member(g, s, mid, t', multiset(u), st); }
      OneWindow(st, 0, mid, t');
      SameFirst(st, mid, t', t);
    }
    assert t in vs;
    OnlyState(vs, mid, {u}, t);
  }

  lemma Member<T(!new)>(g: Functor, s: seq<T>, mid: nat, t: seq<T>, m: multiset<T>, st: seq<T>)
    requires mid <= |s| && Distinct(s) && Rearranges<T>(g, |s|, mid)
    requires t in Visits(CallCombine(0, mid, mid, |s|, g), s) && mid <= |t| && multiset(t[..mid]) == m
    requires forall t ::
      (t in Visits(CallCombine(0, mid, mid, |s|, g), s) && |t| == |s| && multiset(t[..mid]) == m)
        <==> t in Visits(g, st)
    ensures t in Visits(g, st)
  {
    hide Visits, Rearranges, Splits, Fill;
    RearrangesValid<T>(g, |s|, mid);
    CombineMember(g, s, 0, mid, mid, |s|, t);
    var ps := Splits(Both(s, 0, mid, mid, |s|), mid);
    var j :| 0 <= j < |ps| && t in Visits(g, Fill(s, 0, ps[j].chosen, mid, ps[j].rest));
    FromSplit(g, s, mid, j, t);
  }

  /** The arrangement of st that starts with u. */
  lemma WithFirst<T>(st: seq<T>, mid: nat, u: seq<T>) returns (t: seq<T>)
    requires mid <= |st| && multiset(u) == multiset(st[..mid])
    ensures |t| == |st| && t[..mid] == u && Arranges(st, t, 0, mid)
  {
    SameLength(u, st[..mid]);
    t := u + st[mid..];
    assert t[0..mid] == u && st[0..mid] == st[..mid];
  }

  lemma SameFirst<T>(st: seq<T>, mid: nat, t: seq<T>, t': seq<T>)
    requires mid <= |st| && Arranges(st, t, 0, mid) && Arranges(st, t', 0, mid) && t[..mid] == t'[..mid]
    ensures t == t'
  {
    forall k | 0 <= k < |st| ensures t[k] == t'[k] {
      if k < mid { assert t[k] == t[..mid][k]; }
    }
  }

  /** for_each_reversible_permutation shows exactly one of every arrangement of two or more
      elements and its reverse. */
  lemma EveryReversibleOnce<T(!new)>(s: seq<T>, mid: nat, u: seq<T>)
    requires 2 <= mid <= |s| && Distinct(s) && Arrangement(u, s, mid)
    ensures ExactlyOne(Visits(AllReversible(mid, |s|), s), mid, {u, Reversed(u)})
  {
    hide Visits, Rearranges, Arranges, ExactlyOne, Reversed, Flipped;
    var g := ReversiblePermutation(0, mid, BoundRange);
    var vs := Visits(AllReversible(mid, |s|), s);
    ReversibleRearranges<T>(|s|, mid);
    AllDistinct(g, s, mid);
    var st := StateOf(g, s, mid, multiset(u));
    var t := WithFirst(st, mid, u);
    ReversedMultiset(u);
    var r := WithFirst(st, mid, Reversed(u));
    FlippedFirst(st, mid, t, r);
    ExactlyOneOfTwo(st, 0, mid, t);
    var shown := if t in Visits(g, st) then t else r;
    forall t' | t' in vs && Starts(t', mid, {u, Reversed(u)}) ensures t' == shown {
      assert t' in Visits(g, st) by { Member(g, s, mid, t', multiset(u), st); }
      RearrangesAt(g, mid, st, t');
      if t'[..mid] == u { SameFirst(st, mid, t', t); } else { SameFirst(st, mid, t', r); }
    }
    OnlyState(vs, mid, {u, Reversed(u)}, shown);
  }

  lemma FlippedFirst<T>(st: seq<T>, mid: nat, t: seq<T>, r: seq<T>)
    requires mid <= |st| && |t| == |st| && |r| == |st| && Arranges(st, t, 0, mid) && Arranges(st, r, 0, mid)
    requires r[..mid] == Reversed(t[..mid])
    ensures r == Flipped(t, 0, mid)
  {
    hide Reversed, Flipped;
    forall k | 0 <= k < |st| ensures r[k] == Flipped(t, 0, mid)[k] {
      FlippedAt(t, 0, mid, k);
      if k < mid { assert r[k] == r[..mid][k] == t[..mid][mid - 1 - k]; }
    }
  }

  /** All rotations of u. */
  ghost function RotationsOf<T>(u: seq<T>): set<seq<T>> {
    set r | 0 <= r <= |u| :: Rotation(u, r)
  }

  /** for_each_circular_permutation shows exactly one of the rotations of every arrangement. */
  lemma EveryCircularOnce<T(!new)>(s: seq<T>, mid: nat, u: seq<T>)
    requires mid <= |s| && Distinct(s) && Arrangement(u, s, mid)
    ensures ExactlyOne(Visits(AllCircular(mid, |s|), s), mid, RotationsOf(u))
  {
    hide Visits, Rearranges, Arranges, ExactlyOne;
    var g := CircularPermutation(0, mid, BoundRange);
    var vs := Visits(AllCircular(mid, |s|), s);
    CircularRearranges<T>(|s|, mid);
    AllDistinct(g, s, mid);
    var st := StateOf(g, s, mid, multiset(u));
    var p := WhereFirst(st, mid, u);
    RotationMultiset(u, p);
    var v := Rotation(u, p);
    var t := WithFirst(st, mid, v);
    if mid > 0 { assert t[0] == t[..mid][0] == st[0]; }
    CircularShows(st, mid, t);
    forall t' | t' in vs && Starts(t', mid, RotationsOf(u)) ensures t' == t {
      var q :| 0 <= q <= |u| && t'[..mid] == Rotation(u, q);
      RotationMultiset(u, q);
      Member(g, s, mid, t', multiset(u), st);
      CircularShows(st, mid, t');
      if mid > 0 {
        assert t'[..mid][0] == st[0];
        DistinctPart(u, s);
        SameRotation(u, p, q);
      }
      SameFirst(st, mid, t', t);
    }
    OnlyState(vs, mid, RotationsOf(u), t);
  }

  function Rotation<T>(u: seq<T>, r: nat): (v: seq<T>)
    requires r <= |u|
    ensures |v| == |u|
  {
    u[r..] + u[..r]
  }

  /** Where in u the first element of the state is. */
  lemma WhereFirst<T>(st: seq<T>, mid: nat, u: seq<T>) returns (p: nat)
    requires mid <= |st| && multiset(st[..mid]) == multiset(u)
    ensures |u| == mid && p <= mid && (mid > 0 ==> p < mid && u[p] == st[0])
  {
    SameLength(st[..mid], u);
    p := 0;
    if mid > 0 {
      assert st[..mid][0] in multiset(st[..mid]);
      p :| 0 <= p < mid && u[p] == st[0];
    }
  }

  lemma RotationMultiset<T>(u: seq<T>, r: nat)
    requires r <= |u|
    ensures multiset(Rotation(u, r)) == multiset(u)
  {
    assert u == u[..r] + u[r..];
  }

  lemma DistinctPart<T>(u: seq<T>, s: seq<T>)
    requires Distinct(s) && multiset(u) <= multiset(s)
    ensures Distinct(u)
  {
    DistinctMultiset(s);
    DistinctMultiset(u);
    forall x | x in u ensures multiset(u)[x] == 1 {
      assert x in multiset(u) && x in multiset(s) && x in s;
    }
  }

  /** Two rotations of distinct elements that start alike are the same. */
  lemma SameRotation<T>(u: seq<T>, p: nat, q: nat)
    requires Distinct(u) && p < |u| && q <= |u| && Rotation(u, q)[0] == u[p]
    ensures Rotation(u, q) == Rotation(u, p)
  {
    if q == |u| {
      assert Rotation(u, q) == u;
      assert u[0] == u[p];
      assert p == 0;
      assert Rotation(u, p) == u;
    } else {
      assert u[q] == u[p];
    }
  }

  // ----- reversible circular permutations

  /** The rotations of u and of its reverse. */
  ghost function RotationsAndReflections<T>(u: seq<T>): set<seq<T>> {
    RotationsOf(u) + RotationsOf(Reversed(u))
  }

  lemma ReverseCircularShows<T>(s: seq<T>, mid: nat, t: seq<T>)
    requires 1 <= mid <= |s| && Distinct(s)
    ensures t in Visits(ReverseCircularPermutation(0, mid, BoundRange), s) ==> Arranges(s, t, 0, mid) && t[0] == s[0]
    ensures mid <= 2 ==> (t in Visits(ReverseCircularPermutation(0, mid, BoundRange), s) <==> t == s)
    ensures mid >= 3 ==>
      (t in Visits(ReverseCircularPermutation(0, mid, BoundRange), s)
       <==> t in Visits(ReversiblePermutation(1, mid, BoundRange), s))
  {
    hide Arranges, FirstMovedFrom, FirstInMiddle, VisitsEach, PutEach, Perms, Canonical;
    assert Valid(BoundRange, |s|);
    if mid <= 2 {
      BoundShows(s, t);
      ArrangesItself(s, 0, mid);
    } else {
      ReversibleShows(s, 1, mid, t);
      HoldFirst(s, t, 0, mid);
    }
  }

  lemma ReverseCircularDistinct<T(!new)>(s: seq<T>, mid: nat)
    requires 1 <= mid <= |s| && Distinct(s)
    ensures Distinct(Visits(ReverseCircularPermutation(0, mid, BoundRange), s))
  {
    hide FirstMovedFrom, FirstInMiddle, VisitsEach, PutEach, Perms;
    if mid == 1 { BoundShows(s, []); } else { ReversibleDistinct(s, 1, mid); }
  }

  lemma ReverseCircularRearranges<T(!new)>(n: nat, mid: nat)
    requires 1 <= mid <= n
    ensures Rearranges<T>(ReverseCircularPermutation(0, mid, BoundRange), n, mid)
  {
    hide Arranges, Visits;
    var g := ReverseCircularPermutation(0, mid, BoundRange);
    assert Valid(BoundRange, n) && Valid(g, n);
    forall st: seq<T> | |st| == n && Distinct(st) ensures Distinct(Visits(g, st)) {
      ReverseCircularDistinct(st, mid);
    }
    forall st: seq<T>, t | |st| == n && Distinct(st) && t in Visits(g, st) ensures Arranges(st, t, 0, mid) {
      ReverseCircularShows(st, mid, t);
    }
  }

  lemma RotationAt<T>(u: seq<T>, r: nat, k: nat)
    requires r <= |u| && k < |u|
    ensures Rotation(u, r)[k] == if r + k < |u| then u[r + k] else u[r + k - |u|]
  {
  }

  /** The reflection that keeps the first element in its place. */
  lemma Reflected<T>(u: seq<T>, p: nat, k: nat)
    requires p < |u| && 1 <= k < |u|
    ensures Rotation(Reversed(u), |u| - 1 - p)[k] == Rotation(u, p)[|u| - k]
  {
    var i := if k <= p then |u| - 1 - p + k else k - 1 - p;
    ReversedAt(u, i);
    ReflectedAt(u, Reversed(u), p, k, i);
  }

  lemma ReflectedAt<T>(u: seq<T>, r: seq<T>, p: nat, k: nat, i: nat)
    requires p < |u| && 1 <= k < |u| && |r| == |u| && i == if k <= p then |u| - 1 - p + k else k - 1 - p
    requires r[i] == u[|u| - 1 - i]
    ensures Rotation(r, |u| - 1 - p)[k] == Rotation(u, p)[|u| - k]
  {
    hide Rotation;
    RotationAt(u, p, |u| - k);
    RotationAt(r, |u| - 1 - p, k);
  }

  lemma ReversedAt<T>(u: seq<T>, i: nat)
    requires i < |u|
    ensures Reversed(u)[i] == u[|u| - 1 - i]
  {
  }

  lemma ReversedDistinct<T>(u: seq<T>)
    requires Distinct(u)
    ensures Distinct(Reversed(u))
  {
  }

  /** Two states, the one the other's reflection: both start as st does. */
  lemma ReflectedState<T>(st: seq<T>, mid: nat, t: seq<T>, r: seq<T>)
    requires 1 <= mid <= |st| && Arranges(st, t, 0, mid) && Arranges(st, r, 0, mid) && |t| == |st| == |r|
    requires r[0] == t[0] && forall k :: 1 <= k < mid ==> r[k] == t[mid - k]
    ensures r == Flipped(t, 1, mid)
  {
    hide Flipped;
    forall k | 0 <= k < |st| ensures r[k] == Flipped(t, 1, mid)[k] { FlippedAt(t, 1, mid, k); }
  }

  /** A first part that is a rotation or reflection of u and starts with u[p] is one of two. */
  lemma OneOfTwo<T>(u: seq<T>, p: nat, v: seq<T>)
    requires Distinct(u) && p < |u| && v in RotationsAndReflections(u) && v[0] == u[p]
    ensures v == Rotation(u, p) || v == Rotation(Reversed(u), |u| - 1 - p)
  {
    hide Reversed, Rotation, Distinct;
    if v in RotationsOf(u) {
      var q :| 0 <= q <= |u| && v == Rotation(u, q);
      SameRotation(u, p, q);
    } else {
      var r := Reversed(u);
      var q :| 0 <= q <= |r| && v == Rotation(r, q);
      ReversedDistinct(u);
      assert r[|u| - 1 - p] == u[p];
      SameRotation(r, |u| - 1 - p, q);
    }
  }

  /** for_each_reversible_circular_permutation shows exactly one of the rotations of every
      arrangement and of its reverse. */
  lemma EveryReversibleCircularOnce<T(!new)>(s: seq<T>, mid: nat, u: seq<T>)
    requires 1 <= mid <= |s| && Distinct(s) && Arrangement(u, s, mid)
    ensures ExactlyOne(Visits(AllReversibleCircular(mid, |s|), s), mid, RotationsAndReflections(u))
  {
    hide Visits, Rearranges, Arranges, ExactlyOne, Reversed, Flipped, RotationsAndReflections, Rotation;
    var g := ReverseCircularPermutation(0, mid, BoundRange);
    var vs := Visits(AllReversibleCircular(mid, |s|), s);
    ReverseCircularRearranges<T>(|s|, mid);
    AllDistinct(g, s, mid);
    var st := StateOf(g, s, mid, multiset(u));
    var p := WhereFirst(st, mid, u);
    DistinctPart(u, s);
    var t, r := Mirrored(st, mid, u, p);
    OneIsShown(st, mid, t, r);
    var shown := if t in Visits(g, st) then t else r;
    forall t' | t' in vs && Starts(t', mid, RotationsAndReflections(u)) ensures t' == shown {
      KindMultiset(u, t'[..mid]);
      Member(g, s, mid, t', multiset(u), st);
      ReverseCircularShows(st, mid, t');
      assert t'[..mid][0] == st[0];
      OneOfTwo(u, p, t'[..mid]);
      if t'[..mid] == t[..mid] { SameFirst(st, mid, t', t); } else { SameFirst(st, mid, t', r); }
    }
    OnlyState(vs, mid, RotationsAndReflections(u), shown);
  }

  lemma KindMultiset<T>(u: seq<T>, v: seq<T>)
    requires v in RotationsAndReflections(u)
    ensures multiset(v) == multiset(u)
  {
    hide Reversed, Rotation;
    if v in RotationsOf(u) {
      var q :| 0 <= q <= |u| && v == Rotation(u, q);
      RotationMultiset(u, q);
    } else {
      var q :| 0 <= q <= |u| && v == Rotation(Reversed(u), q);
      RotationMultiset(Reversed(u), q);
      ReversedMultiset(u);
    }
  }

  /** The two arrangements of st of the kind of u that start as st does. */
  lemma Mirrored<T>(st: seq<T>, mid: nat, u: seq<T>, p: nat) returns (t: seq<T>, r: seq<T>)
    requires 1 <= mid <= |st| && multiset(st[..mid]) == multiset(u) && |u| == mid && p < mid && u[p] == st[0]
    ensures |t| == |st| == |r| && Arranges(st, t, 0, mid) && Arranges(st, r, 0, mid)
    ensures t[..mid] == Rotation(u, p) && r[..mid] == Rotation(Reversed(u), mid - 1 - p)
    ensures t[..mid] in RotationsAndReflections(u) && r[..mid] in RotationsAndReflections(u)
    ensures t[0] == r[0] == st[0] && r == Flipped(t, 1, mid)
    ensures mid <= 2 ==> t == r
  {
    hide Reversed, Rotation, Arranges, Flipped;
    RotationMultiset(u, p);
    t := WithFirst(st, mid, Rotation(u, p));
    RotationMultiset(Reversed(u), mid - 1 - p);
    ReversedMultiset(u);
    r := WithFirst(st, mid, Rotation(Reversed(u), mid - 1 - p));
    StartsAlike(u, p);
    assert t[0] == t[..mid][0] && r[0] == r[..mid][0];
    forall k | 1 <= k < mid ensures r[k] == t[mid - k] {
      Reflected(u, p, k);
      assert r[k] == r[..mid][k] && t[mid - k] == t[..mid][mid - k];
    }
    ReflectedState(st, mid, t, r);
    if mid <= 2 {
      forall k | 0 <= k < mid ensures t[..mid][k] == r[..mid][k] {}
      SameFirst(st, mid, t, r);
    }
  }

  lemma StartsAlike<T>(u: seq<T>, p: nat)
    requires p < |u|
    ensures Rotation(u, p)[0] == u[p] && Rotation(Reversed(u), |u| - 1 - p)[0] == u[p]
  {
    RotationAt(u, p, 0);
    RotationAt(Reversed(u), |u| - 1 - p, 0);
  }

  /** Exactly one of them is shown. */
  lemma OneIsShown<T>(st: seq<T>, mid: nat, t: seq<T>, r: seq<T>)
    requires 1 <= mid <= |st| && Distinct(st) && Arranges(st, t, 0, mid) && |t| == |st| && t[0] == st[0]
    requires r == Flipped(t, 1, mid) && (mid <= 2 ==> t == r)
    ensures var shown := Visits(ReverseCircularPermutation(0, mid, BoundRange), st);
      if mid >= 3 then (t in shown <==> r !in shown) else t == r && t in shown
  {
    hide Arranges, Visits, Flipped;
    ReverseCircularShows(st, mid, t);
    ReverseCircularShows(st, mid, r);
    if mid >= 3 {
      HoldFirst(st, t, 0, mid);
      ExactlyOneOfTwo(st, 1, mid, t);
    } else {
      FewArranged(st, t, mid);
    }
  }

  lemma FewArranged<T>(st: seq<T>, t: seq<T>, mid: nat)
    requires 1 <= mid <= 2 && mid <= |st| && Arranges(st, t, 0, mid) && |t| == |st| && t[0] == st[0]
    ensures t == st
  {
    hide Arranges;
    HoldFirst(st, t, 0, mid);
    if mid == 1 { OneElementLeft(st, t, 0); } else { OneElementLeft(st, t, 1); }
  }
}
