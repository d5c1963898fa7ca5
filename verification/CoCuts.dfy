/** calcCoOrderings: what the branch for equal accesses misses. */
module CoCuts {
  import opened Events
  import opened Lists
  import opened MixedAccess
  import opened RfOptions
  import opened Coherence
  import opened CoInsertion
  import opened CoOrderings
  import opened CoEqual
  import opened CoFront

  // ----- the stores that any placement has in front

  /** The least closed set of positions with those of K. */
  function Closure(w: Word, before: Event -> bool, lab: Event, K: set<nat>): set<nat>
    requires lab in w.stores && forall i <- K :: i < |w.co|
    decreases |w.co| - |K|
  {
    var more := set i: nat | i < |w.co| && i !in K && Forced(w, before, lab, K, i);
    if more == {} then K
    else
      FewerLeft(K, more, |w.co|);
      Closure(w, before, lab, K + more)
  }

  lemma FewerLeft(K: set<nat>, more: set<nat>, n: nat)
    requires (forall i <- K :: i < n) && (forall i <- more :: i < n && i !in K) && more != {}
    ensures |K| < |K + more| <= n
  {
    Below(K + more, n);
  }

  lemma {:induction false} Below(s: set<nat>, n: nat)
    requires forall i <- s :: i < n
    ensures |s| <= n
  {
    if n > 0 {
      Below(s - {n - 1}, n - 1);
    } else {
      assert s == {};
    }
  }

  lemma {:induction false} ClosureIsClosed(w: Word, before: Event -> bool, lab: Event, K: set<nat>)
    requires lab in w.stores && forall i <- K :: i < |w.co|
    ensures K <= Closure(w, before, lab, K) && Closed(w, before, lab, Closure(w, before, lab, K))
    decreases |w.co| - |K|
  {
    hide Forced;
    var more := set i: nat | i < |w.co| && i !in K && Forced(w, before, lab, K, i);
    if more == {} {
      forall i: nat | i < |w.co| && Forced(w, before, lab, K, i) ensures i in K { assert i !in more; }
    } else {
      FewerLeft(K, more, |w.co|);
      ClosureIsClosed(w, before, lab, K + more);
    }
  }

  lemma ForcedMore(w: Word, before: Event -> bool, lab: Event, K: set<nat>, C: set<nat>, i: nat)
    requires lab in w.stores && i < |w.co| && K <= C && Forced(w, before, lab, K, i)
    ensures Forced(w, before, lab, C, i)
  {
    hide StoresOverlap, StoreCovers;
    if w.co[i] in w.stores && w.stores[w.co[i]].rmw {
      forall b | b in Fragment(w.stores[lab].access) && FirstOutside(w, K, i, b) ensures FirstOutside(w, C, i, b) {}
    }
  }

  lemma {:induction false} ClosureIsLeast(w: Word, before: Event -> bool, lab: Event, K: set<nat>, C: set<nat>)
    requires lab in w.stores && (forall i <- K :: i < |w.co|) && K <= C && Closed(w, before, lab, C)
    ensures Closure(w, before, lab, K) <= C
    decreases |w.co| - |K|
  {
    hide Forced;
    var more := set i: nat | i < |w.co| && i !in K && Forced(w, before, lab, K, i);
    if more != {} {
      FewerLeft(K, more, |w.co|);
      forall i | i in more ensures i in C { ForcedMore(w, before, lab, K, C, i); }
      ClosureIsLeast(w, before, lab, K + more, C);
    }
  }

  /** Any placement has in front all overlapping stores from before the places. */
  predicate NothingSlips(w: Word, before: Event -> bool, lab: Event)
    requires lab in w.stores
  {
    forall i: nat | i < PlacesFrom(w, before, lab, |w.co|) && StoresOverlap(w, lab, w.co[i]) ::
      i in Closure(w, before, lab, {})
  }

  /** Whether there is a cut can be computed. */
  lemma NoCutIff(w: Word, before: Event -> bool, lab: Event)
    requires lab in w.stores
    ensures NothingSlips(w, before, lab) <==> !exists K :: Cut(w, before, lab, K)
  {
    hide Closed, Closure, StoresOverlap, PlacesFrom;
    var none: set<nat> := {};
    var C := Closure(w, before, lab, none);
    ClosureIsClosed(w, before, lab, none);
    if !NothingSlips(w, before, lab) {
      var i: nat :| i < PlacesFrom(w, before, lab, |w.co|) && StoresOverlap(w, lab, w.co[i]) && i !in C;
      assert SlipsPast(w, before, lab, C, i);
      assert Cut(w, before, lab, C);
    }
    forall K | Cut(w, before, lab, K) ensures !NothingSlips(w, before, lab) {
      ClosureIsLeast(w, before, lab, none, K);
    }
  }

  // ----- a cut gives an order that is missed, and nothing else is missed

  /** The placement of a cut is ordered like nothing that the branch queues. */
  lemma CutMisses(w: Word, before: Event -> bool, lab: Event, K: set<nat>)
    requires StoresOf(w, w.co) && lab in w.stores && InWord(w.stores[lab].access) && Distinct(w.co) && lab !in w.co
    requires Cut(w, before, lab, K)
    ensures Placed(w, before, lab, BehindChosen(w, lab, K))
    ensures forall a <- EqualOrders(w, before, lab, |w.co|) :: !SameByteOrders(w, a, BehindChosen(w, lab, K))
  {
    hide Placed, SameByteOrders, EqualOrders, Closed, StoresOverlap, PlacesFrom, BehindChosen, Inserted;
    var i: nat :| SlipsPast(w, before, lab, K, i);
    CutPlacement(w, before, lab, K, i);
    var added := EqualOrders(w, before, lab, |w.co|);
    forall a | a in added ensures !SameByteOrders(w, a, BehindChosen(w, lab, K)) {
      var h :| 0 <= h < |added| && added[h] == a;
      var j := EqualOrdersAt(w, before, lab, |w.co|, h);
      BehindDiffers(w, before, lab, K, i, j);
    }
  }

  /** A placement is a cut, or the branch queues one with the same orders per byte. */
  lemma CutOrCovered(w: Word, before: Event -> bool, lab: Event, q: seq<Event>, p: seq<Event>, k: nat)
    requires StoresOf(w, w.co) && lab in w.stores && InWord(w.stores[lab].access) && Distinct(w.co)
    requires PlacesEqual(w, before, lab) && Placement(w, before, lab, q, p, k)
    ensures || Cut(w, before, lab, PositionsIn(w, p[..k]))
      || exists a :: a in EqualOrders(w, before, lab, |w.co|) && SameByteOrders(w, a, q)
  {
    hide SameByteOrders, StoresOf, StoresOverlap, PlacesEqual, EqualPlace, EqualOrders, NumOverlapping,
         PositionsIn, Closed, Cut, Inserted;
    var K := PositionsIn(w, p[..k]);
    FrontClosed(w, before, lab, p, k);
    if !Cut(w, before, lab, K) {
      var j := FirstLeft(w, lab, p, k);
      NoCutIsPlace(w, before, lab, K, j);
      CoveredAt(w, before, lab, p, k, j);
      EqualOrdersHas(w, before, lab, |w.co|, j);
    }
  }

  // ----- exactly when the branch covers all placements

  /** What the branch for equal accesses queues covers all placements if and only if there
      is no cut. */
  lemma CoversIffNoCut(w: Word, before: Event -> bool, lab: Event)
    requires StoresOf(w, w.co) && lab in w.stores && InWord(w.stores[lab].access) && Distinct(w.co) && lab !in w.co
    requires PlacesEqual(w, before, lab)
    ensures Queued(w, before, lab, EqualOrders(w, before, lab, |w.co|)) <==> !exists K :: Cut(w, before, lab, K)
  {
    hide Placement, SameByteOrders, EqualOrders, Cut, PlacesEqual, BehindChosen, StoresOf;
    var added := EqualOrders(w, before, lab, |w.co|);
    EqualOrdersApart(w, before, lab);
    if K :| Cut(w, before, lab, K) {
      CutMisses(w, before, lab, K);
    } else {
      forall q | Placed(w, before, lab, q) ensures exists a :: a in added && SameByteOrders(w, a, q) {
        var p, k :| Placement(w, before, lab, q, p, k);
        CutOrCovered(w, before, lab, q, p, k);
      }
    }
  }

  /** The same with a condition that can be computed. */
  lemma CoversIffNothingSlips(w: Word, before: Event -> bool, lab: Event)
    requires StoresOf(w, w.co) && lab in w.stores && InWord(w.stores[lab].access) && Distinct(w.co) && lab !in w.co
    requires PlacesEqual(w, before, lab)
    ensures Queued(w, before, lab, EqualOrders(w, before, lab, |w.co|)) <==> NothingSlips(w, before, lab)
  {
    hide Queued, Cut, NothingSlips, EqualOrders, PlacesEqual, StoresOf;
    CoversIffNoCut(w, before, lab);
    NoCutIff(w, before, lab);
  }

  /** If all stores that the new one overlaps have its access, none slips. */
  lemma EqualOrdersQueued(w: Word, before: Event -> bool, lab: Event)
    requires StoresOf(w, w.co) && lab in w.stores && InWord(w.stores[lab].access) && Distinct(w.co) && lab !in w.co
    requires PlacesEqual(w, before, lab) && OverlappingEqual(w, lab)
    ensures Queued(w, before, lab, EqualOrders(w, before, lab, |w.co|))
  {
    hide Queued, EqualOrders, PlacesEqual, Closed, StoresOverlap;
    forall K ensures !Cut(w, before, lab, K) {
      if Cut(w, before, lab, K) { EqualNeverCut(w, before, lab, K); }
    }
    CoversIffNoCut(w, before, lab);
  }

  lemma EqualNeverCut(w: Word, before: Event -> bool, lab: Event, K: set<nat>)
    requires StoresOf(w, w.co) && lab in w.stores && InWord(w.stores[lab].access) && OverlappingEqual(w, lab)
    ensures !Cut(w, before, lab, K)
  {
    hide StoresOverlap, FirstOutside, InWord, PlacesFrom, SameAccess;
    if Cut(w, before, lab, K) {
      var i: nat :| SlipsPast(w, before, lab, K, i);
      LastBefore(w, before, lab, |w.co|);
      var l := PlacesFrom(w, before, lab, |w.co|) - 1;
      assert Forced(w, before, lab, K, l);
      assert w.co[i] in w.co && w.co[l] in w.co;
      EqualOverlap(w, lab, w.co[i], w.co[l]);
    }
  }

  lemma {:induction false} LastBefore(w: Word, before: Event -> bool, lab: Event, n: nat)
    requires n <= |w.co| && PlacesFrom(w, before, lab, n) > 0
    ensures var e := w.co[PlacesFrom(w, before, lab, n) - 1]; StoresOverlap(w, lab, e) && before(e)
  {
    hide StoresOverlap;
    if !(StoresOverlap(w, lab, w.co[n - 1]) && before(w.co[n - 1])) { LastBefore(w, before, lab, n - 1); }
  }

  lemma EqualOverlap(w: Word, lab: Event, d: Event, e: Event)
    requires SameAccess(w, lab, d) && SameAccess(w, lab, e) && StoresOverlap(w, lab, e)
    ensures StoresOverlap(w, d, e)
  {
  }

  // ----- an order that is missed

  /** The new store writes bytes 0 and 1, and so does the only store it may be placed before.
      Two earlier stores write one byte each, and only the second happens before it. The new
      store could also go between them, with their places exchanged. */
  function MissedWord(): Word {
    Word([Event(1, 1), Event(2, 1), Event(3, 1)],
         map[Event(1, 1) := Store(Access(0, 1), 0, false), Event(2, 1) := Store(Access(1, 1), 0, false),
             Event(3, 1) := Store(Access(0, 2), 0, false), Event(4, 1) := Store(Access(0, 2), 0, false)], 0)
  }

  lemma MissedOverlaps()
    ensures var w := MissedWord();
      && StoresOf(w, w.co)
      && StoresOverlap(w, Event(4, 1), Event(1, 1)) && StoresOverlap(w, Event(4, 1), Event(2, 1))
      && StoresOverlap(w, Event(4, 1), Event(3, 1)) && !StoresOverlap(w, Event(1, 1), Event(2, 1))
  {
  }

  /** Keeping only the second store in front is a cut. */
  lemma MissedCut(before: Event -> bool)
    requires !before(Event(1, 1)) && before(Event(2, 1)) && !before(Event(3, 1))
    ensures PlacesEqual(MissedWord(), before, Event(4, 1)) && Cut(MissedWord(), before, Event(4, 1), {1})
  {
    hide StoresOverlap;
    MissedOverlaps();
    var w, lab := MissedWord(), Event(4, 1);
    assert PlacesFrom(w, before, lab, 2) == 2 && PlacesFrom(w, before, lab, 3) == 2;
    assert SlipsPast(w, before, lab, {1}, 0);
  }

  /** The branch for equal accesses misses a placement there. */
  lemma EqualBranchMisses(before: Event -> bool)
    requires !before(Event(1, 1)) && before(Event(2, 1)) && !before(Event(3, 1))
    ensures var w, lab, q := MissedWord(), Event(4, 1), [Event(2, 1), Event(4, 1), Event(1, 1), Event(3, 1)];
      && StoresOf(w, w.co) && PlacesEqual(w, before, lab) && Placed(w, before, lab, q)
      && forall a :: a in EqualOrders(w, before, lab, |w.co|) ==> !SameByteOrders(w, a, q)
  {
    hide SameByteOrders, EqualOrders, Placed, Cut, PlacesEqual, StoresOverlap;
    var w, lab := MissedWord(), Event(4, 1);
    MissedOverlaps();
    MissedCut(before);
    CutMisses(w, before, lab, {1});
    BehindOne();
  }

  lemma BehindOne()
    ensures BehindChosen(MissedWord(), Event(4, 1), {1}) == [Event(2, 1), Event(4, 1), Event(1, 1), Event(3, 1)]
  {
    var w := MissedWord();
    var rest := Rest(w.co, {1});
    assert Chosen(w.co, {1}, 0) == [] && Chosen(w.co, rest, 0) == [];
    assert Chosen(w.co, {1}, 1) == [] && Chosen(w.co, rest, 1) == [Event(1, 1)];
    assert Chosen(w.co, {1}, 2) == [Event(2, 1)] && Chosen(w.co, rest, 2) == [Event(1, 1)];
  }
}
