/** Which old stores a placement of a new store has in front of it. A set of positions that is
    closed under what must be in front can be put there, with the new store directly behind it
    and the other stores after that; and the stores in front of a placement that is not blocked
    are such a set. */
module CoFront {
  import opened Events
  import opened Lists
  import opened MixedAccess
  import opened RfOptions
  import opened Coherence
  import opened CoInsertion
  import opened CoOrderings
  import opened CoEqual

  // ----- which stores can go in front of the new one

  /** With the stores at positions K in front of the new store, the i-th goes there too: it
      is ordered before one of them, or happens before the new store, or is the write of an
      RMW that would be next on a byte of the new store. */
  predicate Forced(w: Word, before: Event -> bool, lab: Event, K: set<nat>, i: nat)
    requires lab in w.stores && i < |w.co|
  {
    || (exists j: nat :: i < j < |w.co| && j in K && StoresOverlap(w, w.co[i], w.co[j]))
    || (StoresOverlap(w, lab, w.co[i]) && before(w.co[i]))
    || (&& w.co[i] in w.stores && w.stores[w.co[i]].rmw
        && exists b <- Fragment(w.stores[lab].access) :: FirstOutside(w, K, i, b))
  }

  /** The i-th store writes byte b, and so do no earlier ones outside K. */
  predicate FirstOutside(w: Word, K: set<nat>, i: nat, b: nat)
    requires i < |w.co|
  {
    StoreCovers(w, w.co[i], b) && forall m: nat | m < i && StoreCovers(w, w.co[m], b) :: m in K
  }

  ghost predicate Closed(w: Word, before: Event -> bool, lab: Event, K: set<nat>)
    requires lab in w.stores
  {
    forall i: nat | i < |w.co| && Forced(w, before, lab, K, i) :: i in K
  }

  /** The new store can go directly behind the stores of K, though one that it overlaps,
      from before the places, is not among them. */
  ghost predicate Cut(w: Word, before: Event -> bool, lab: Event, K: set<nat>)
    requires lab in w.stores
  {
    Closed(w, before, lab, K) && exists i: nat :: SlipsPast(w, before, lab, K, i)
  }

  predicate SlipsPast(w: Word, before: Event -> bool, lab: Event, K: set<nat>, i: nat) {
    i < PlacesFrom(w, before, lab, |w.co|) && i !in K && StoresOverlap(w, lab, w.co[i])
  }

  // ----- the stores of a set of positions, in order

  function Chosen(co: seq<Event>, K: set<nat>, n: nat): seq<Event>
    requires n <= |co|
  {
    if n == 0 then [] else Chosen(co, K, n - 1) + if n - 1 in K then [co[n - 1]] else []
  }

  function Rest(co: seq<Event>, K: set<nat>): set<nat> {
    set i: nat | i < |co| && i !in K
  }

  lemma {:induction false} ChosenElements(co: seq<Event>, K: set<nat>, n: nat, e: Event)
    requires n <= |co|
    ensures e in Chosen(co, K, n) <==> exists i: nat :: i < n && i in K && co[i] == e
  {
    if n > 0 { ChosenElements(co, K, n - 1, e); }
  }

  lemma {:induction false} ChosenMultiset(co: seq<Event>, K: set<nat>, n: nat)
    requires n <= |co|
    ensures multiset(Chosen(co, K, n)) + multiset(Chosen(co, Rest(co, K), n)) == multiset(co[..n])
  {
    hide Chosen;
    if n == 0 {
      NothingChosen(co, K);
    } else {
      ChosenMultiset(co, K, n - 1);
      ChosenStep(co, K, n);
      assert co[..n] == co[..n - 1] + [co[n - 1]];
    }
  }

  lemma NothingChosen(co: seq<Event>, K: set<nat>)
    ensures Chosen(co, K, 0) == [] && Chosen(co, Rest(co, K), 0) == []
  {
  }

  lemma ChosenStep(co: seq<Event>, K: set<nat>, n: nat)
    requires 0 < n <= |co|
    ensures multiset(Chosen(co, K, n)) + multiset(Chosen(co, Rest(co, K), n))
      == multiset(Chosen(co, K, n - 1)) + multiset(Chosen(co, Rest(co, K), n - 1)) + multiset{co[n - 1]}
  {
    var kept, left := Chosen(co, K, n - 1), Chosen(co, Rest(co, K), n - 1);
    if n - 1 in K {
      assert Chosen(co, K, n) == kept + [co[n - 1]] && Chosen(co, Rest(co, K), n) == left;
    } else {
      assert Chosen(co, K, n) == kept && Chosen(co, Rest(co, K), n) == left + [co[n - 1]];
    }
  }

  lemma ChosenByte(w: Word, K: set<nat>, n: nat, b: nat)
    requires 0 < n <= |w.co|
    ensures ByteOrder(w, Chosen(w.co, K, n), b)
      == ByteOrder(w, Chosen(w.co, K, n - 1), b)
        + if n - 1 in K && StoreCovers(w, w.co[n - 1], b) then [w.co[n - 1]] else []
  {
    hide ByteOrder, StoreCovers;
    if n - 1 in K {
      ByteOrderAppend(w, Chosen(w.co, K, n - 1), w.co[n - 1], b);
    } else {
      assert Chosen(w.co, K, n) == Chosen(w.co, K, n - 1);
    }
  }

  /** No store to byte b that is left behind is followed by one that is not. */
  ghost predicate InFrontOnByte(w: Word, K: set<nat>, b: nat) {
    forall i: nat, j: nat ::
      i < j < |w.co| && j in K && StoreCovers(w, w.co[i], b) && StoreCovers(w, w.co[j], b) ==> i in K
  }

  lemma {:induction false} ChosenSplit(w: Word, K: set<nat>, n: nat, b: nat)
    requires n <= |w.co| && InFrontOnByte(w, K, b)
    ensures ByteOrder(w, Chosen(w.co, K, n), b) + ByteOrder(w, Chosen(w.co, Rest(w.co, K), n), b)
      == ByteOrder(w, w.co[..n], b)
  {
    hide ByteOrder, StoreCovers, Chosen;
    if n == 0 {
      NoneChosen(w, K, b);
    } else {
      ChosenSplit(w, K, n - 1, b);
      ChosenByte(w, K, n, b);
      ChosenByte(w, Rest(w.co, K), n, b);
      assert w.co[..n] == w.co[..n - 1] + [w.co[n - 1]];
      ByteOrderAppend(w, w.co[..n - 1], w.co[n - 1], b);
      if StoreCovers(w, w.co[n - 1], b) && n - 1 in K { NoneBehind(w, K, n - 1, n - 1, b); }
    }
  }

  lemma NoneChosen(w: Word, K: set<nat>, b: nat)
    ensures ByteOrder(w, Chosen(w.co, K, 0), b) == [] && ByteOrder(w, Chosen(w.co, Rest(w.co, K), 0), b) == []
    ensures ByteOrder(w, w.co[..0], b) == []
  {
  }

  lemma {:induction false} NoneBehind(w: Word, K: set<nat>, j: nat, n: nat, b: nat)
    requires n <= j < |w.co| && j in K && StoreCovers(w, w.co[j], b) && InFrontOnByte(w, K, b)
    ensures ByteOrder(w, Chosen(w.co, Rest(w.co, K), n), b) == []
  {
    hide ByteOrder, StoreCovers, Chosen;
    if n == 0 {
      NoneChosen(w, K, b);
    } else {
      ChosenByte(w, Rest(w.co, K), n, b);
      NoneBehind(w, K, j, n - 1, b);
    }
  }

  /** The first store to byte b that is left behind. */
  lemma {:induction false} FirstBehind(w: Word, K: set<nat>, n: nat, b: nat) returns (i: nat)
    requires n <= |w.co| && ByteOrder(w, Chosen(w.co, Rest(w.co, K), n), b) != []
    ensures i < n && i !in K && FirstOutside(w, K, i, b)
    ensures ByteOrder(w, Chosen(w.co, Rest(w.co, K), n), b)[0] == w.co[i]
  {
    hide ByteOrder, StoreCovers, Chosen;
    if n == 0 {
      NoneChosen(w, K, b);
    } else {
      ChosenByte(w, Rest(w.co, K), n, b);
      i := n - 1;
      if ByteOrder(w, Chosen(w.co, Rest(w.co, K), n - 1), b) != [] {
        i := FirstBehind(w, K, n - 1, b);
      } else {
        forall m: nat | m < i && StoreCovers(w, w.co[m], b) ensures m in K {
          if m !in K {
            ChosenElements(w.co, Rest(w.co, K), n - 1, w.co[m]);
            ByteOrderElements(w, Chosen(w.co, Rest(w.co, K), n - 1), b, w.co[m]);
          }
        }
      }
    }
  }

  // ----- the placement of a cut

  /** The new store can be placed directly behind a closed set of stores. */
  lemma CutPlacement(w: Word, before: Event -> bool, lab: Event, K: set<nat>, i: nat)
    requires StoresOf(w, w.co) && lab in w.stores && InWord(w.stores[lab].access)
    requires Closed(w, before, lab, K) && i < |w.co| && i !in K && StoresOverlap(w, lab, w.co[i])
    ensures Placed(w, before, lab, BehindChosen(w, lab, K))
  {
    hide ByteOrder, StoresOverlap, StoreCovers, RmwFirst, Inserted, Forced, Chosen;
    var front, back := Chosen(w.co, K, |w.co|), Chosen(w.co, Rest(w.co, K), |w.co|);
    var p := front + back;
    ChosenMultiset(w.co, K, |w.co|);
    assert w.co[..|w.co|] == w.co;
    StoresRearranged(w, p);
    OrdersKept(w, before, lab, K);
    assert p[..|front|] == front && p[|front|..] == back;
    ChosenElements(w.co, Rest(w.co, K), |w.co|, w.co[i]);
    assert w.co[i] in p[|front|..];
    MayGoBehind(w, before, lab, K);
    IsPlaced(w, before, lab, BehindChosen(w, lab, K), p, |front|);
  }

  /** The stores at the positions of K, the new store, and the others. */
  function BehindChosen(w: Word, lab: Event, K: set<nat>): seq<Event> {
    var front, back := Chosen(w.co, K, |w.co|), Chosen(w.co, Rest(w.co, K), |w.co|);
    Inserted(front + back, |front|, lab)
  }

  lemma OrdersKept(w: Word, before: Event -> bool, lab: Event, K: set<nat>)
    requires lab in w.stores && Closed(w, before, lab, K)
    ensures SameByteOrders(w, Chosen(w.co, K, |w.co|) + Chosen(w.co, Rest(w.co, K), |w.co|), w.co)
  {
    hide ByteOrder, StoresOverlap, StoreCovers, Chosen;
    var front, back := Chosen(w.co, K, |w.co|), Chosen(w.co, Rest(w.co, K), |w.co|);
    assert w.co[..|w.co|] == w.co;
    forall b: nat | b < WORD_BYTES ensures ByteOrder(w, front + back, b) == ByteOrder(w, w.co, b) {
      forall i: nat, j: nat | i < j < |w.co| && j in K && StoreCovers(w, w.co[i], b) && StoreCovers(w, w.co[j], b)
        ensures i in K
      {
        SharedByte(w, w.co[i], w.co[j], b);
        assert Forced(w, before, lab, K, i);
      }
      ChosenSplit(w, K, |w.co|, b);
      ByteOrderConcat(w, front, back, b);
    }
  }

  lemma MayGoBehind(w: Word, before: Event -> bool, lab: Event, K: set<nat>)
    requires StoresOf(w, w.co) && lab in w.stores && Closed(w, before, lab, K)
    ensures MayPrecede(w, before, lab, Chosen(w.co, Rest(w.co, K), |w.co|))
  {
    hide ByteOrder, StoresOverlap, StoreCovers, Chosen, FirstOutside;
    var back := Chosen(w.co, Rest(w.co, K), |w.co|);
    forall b | b in Fragment(w.stores[lab].access) ensures !RmwFirst(w, back, b) {
      if ByteOrder(w, back, b) != [] {
        var i := FirstBehind(w, K, |w.co|, b);
        assert !Forced(w, before, lab, K, i);
      }
    }
    forall e | e in back && StoresOverlap(w, lab, e) ensures !before(e) {
      ChosenElements(w.co, Rest(w.co, K), |w.co|, e);
      var i: nat :| i < |w.co| && i in Rest(w.co, K) && w.co[i] == e;
      assert !Forced(w, before, lab, K, i);
    }
  }

  lemma InsertedDistinct(l: seq<Event>, k: nat, lab: Event)
    requires Distinct(l) && lab !in l && k <= |l|
    ensures Distinct(Inserted(l, k, lab)) && forall e <- Inserted(l, k, lab) :: e == lab || e in l
  {
    var q := Inserted(l, k, lab);
    forall i, j | 0 <= i < j < |q| ensures q[i] != q[j] {
      assert q[i] == if i < k then l[i] else if i == k then lab else l[i - 1];
      assert q[j] == if j < k then l[j] else if j == k then lab else l[j - 1];
    }
  }

  /** Whatever the branch queues has the new store behind all overlapping stores from before
      the places. */
  lemma BehindDiffers(w: Word, before: Event -> bool, lab: Event, K: set<nat>, i: nat, j: nat)
    requires StoresOf(w, w.co) && lab in w.stores && InWord(w.stores[lab].access) && Distinct(w.co) && lab !in w.co
    requires i < j < |w.co| && i !in K && StoresOverlap(w, lab, w.co[i])
    ensures !SameByteOrders(w, Inserted(w.co, j, lab), BehindChosen(w, lab, K))
  {
    hide SameByteOrders, StoresOverlap, Chosen, Inserted;
    var front, back := Chosen(w.co, K, |w.co|), Chosen(w.co, Rest(w.co, K), |w.co|);
    var a, q := Inserted(w.co, j, lab), BehindChosen(w, lab, K);
    ChosenMultiset(w.co, K, |w.co|);
    assert w.co[..|w.co|] == w.co;
    DistinctArrangement(w.co, front + back);
    StoresRearranged(w, front + back);
    assert lab !in multiset(w.co) && lab !in multiset(front + back);
    InsertedDistinct(w.co, j, lab);
    InsertedDistinct(front + back, |front|, lab);
    ChosenElements(w.co, Rest(w.co, K), |w.co|, w.co[i]);
    InsertedPrecedes(w.co, j, lab, i);
    var m :| 0 <= m < |back| && back[m] == w.co[i];
    InsertedPrecedes(front + back, |front|, lab, |front| + m);
    assert StoresOverlap(w, w.co[i], lab) by { OverlapEitherWay(w, lab, w.co[i]); }
    if SameByteOrders(w, a, q) { SameOrdersAgree(w, a, q, w.co[i], lab); }
  }

  lemma OverlapEitherWay(w: Word, d: Event, e: Event)
    requires StoresOverlap(w, d, e)
    ensures StoresOverlap(w, e, d)
  {
  }

  lemma InsertedPrecedes(l: seq<Event>, k: nat, lab: Event, i: nat)
    requires k <= |l| && i < |l|
    ensures if i < k then Precedes(Inserted(l, k, lab), l[i], lab) else Precedes(Inserted(l, k, lab), lab, l[i])
  {
    var q := Inserted(l, k, lab);
    assert q[k] == lab && if i < k then q[i] == l[i] else q[i + 1] == l[i];
  }

  // ----- the stores in front of a placement

  /** The positions of the old stores among those of the list. */
  function PositionsIn(w: Word, l: seq<Event>): set<nat> {
    set i: nat | i < |w.co| && w.co[i] in l
  }

  ghost predicate Arranged(w: Word, p: seq<Event>) {
    StoresOf(w, w.co) && Distinct(w.co) && multiset(p) == multiset(w.co) && SameByteOrders(w, p, w.co)
  }

  lemma ArrangedFacts(w: Word, p: seq<Event>)
    requires Arranged(w, p)
    ensures StoresOf(w, p) && Distinct(p) && |p| == |w.co| && forall e :: e in p <==> e in w.co
  {
    StoresRearranged(w, p);
    DistinctArrangement(w.co, p);
    SameLength(p, w.co);
    forall e
      ensures e in p <==> e in w.co
    {
      assert e in p <==> e in multiset(p);
      assert e in w.co <==> e in multiset(w.co);
    }
  }

  /** What is in front stays in front of what is behind. */
  lemma FrontPrecedes(w: Word, p: seq<Event>, k: nat, i: nat, j: nat)
    requires Arranged(w, p) && k <= |p| && i < j < |w.co|
    requires w.co[j] in p[..k] && StoresOverlap(w, w.co[i], w.co[j])
    ensures w.co[i] in p[..k]
  {
    hide SameByteOrders, StoresOverlap;
    ArrangedFacts(w, p);
    var y :| 0 <= y < k && p[y] == w.co[j];
    assert w.co[i] in w.co;
    var x :| 0 <= x < |p| && p[x] == w.co[i];
    if x >= k {
      assert Precedes(p, w.co[j], w.co[i]) && Precedes(w.co, w.co[i], w.co[j]);
      OverlapEitherWay(w, w.co[i], w.co[j]);
      SameOrdersAgree(w, p, w.co, w.co[j], w.co[i]);
    } else {
      assert p[..k][x] == w.co[i];
    }
  }

  lemma InOneHalf(p: seq<Event>, k: nat, e: Event)
    requires Distinct(p) && k <= |p| && e in p
    ensures e in p[k..] <==> e !in p[..k]
  {
    var x :| 0 <= x < |p| && p[x] == e;
    if x < k { assert p[..k][x] == e; } else { assert p[k..][x - k] == e; }
  }

  /** The first store to a byte behind the place is the first left behind. */
  lemma FirstOutsideIsNext(w: Word, p: seq<Event>, k: nat, i: nat, b: nat)
    requires Arranged(w, p) && k <= |p| && i < |w.co|
    requires i !in PositionsIn(w, p[..k]) && FirstOutside(w, PositionsIn(w, p[..k]), i, b)
    ensures ByteOrder(w, p[k..], b) != [] && ByteOrder(w, p[k..], b)[0] == w.co[i]
    ensures w.co[i] in w.stores && w.stores[w.co[i]].rmw ==> RmwFirst(w, p[k..], b)
  {
    hide ByteOrder, StoresOverlap, StoreCovers, SameByteOrders;
    ArrangedFacts(w, p);
    var back := ByteOrder(w, p[k..], b);
    assert w.co[i] in w.co;
    InOneHalf(p, k, w.co[i]);
    ByteOrderElements(w, p[k..], b, w.co[i]);
    var e := back[0];
    ByteOrderElements(w, p[k..], b, e);
    assert e in p;
    InOneHalf(p, k, e);
    var m: nat :| m < |w.co| && w.co[m] == e;
    if m > i {
      var h :| 0 <= h < |back| && back[h] == w.co[i];
      assert Precedes(back, e, w.co[i]) && Precedes(w.co, w.co[i], e);
      PrecedesBehind(w, p, k, b, e, w.co[i]);
      PrecedesInByte(w, w.co, b, w.co[i], e);
      ByteOrderDistinct(w, w.co, b);
      PrecedesOneWay(ByteOrder(w, w.co, b), e, w.co[i]);
    }
  }

  lemma PrecedesBehind(w: Word, p: seq<Event>, k: nat, b: nat, d: Event, e: Event)
    requires Arranged(w, p) && k <= |p| && StoreCovers(w, d, b) && InWord(w.stores[d].access)
    requires Precedes(ByteOrder(w, p[k..], b), d, e)
    ensures Precedes(ByteOrder(w, w.co, b), d, e)
  {
    hide ByteOrder;
    assert p == p[..k] + p[k..];
    ByteOrderConcat(w, p[..k], p[k..], b);
    var front, back := ByteOrder(w, p[..k], b), ByteOrder(w, p[k..], b);
    var i, j :| 0 <= i < j < |back| && back[i] == d && back[j] == e;
    assert (front + back)[|front| + i] == d && (front + back)[|front| + j] == e;
    assert b < WORD_BYTES;
  }

  /** The stores in front of a placement are closed. */
  lemma FrontClosed(w: Word, before: Event -> bool, lab: Event, p: seq<Event>, k: nat)
    requires Arranged(w, p) && lab in w.stores && k <= |p| && MayPrecede(w, before, lab, p[k..])
    ensures Closed(w, before, lab, PositionsIn(w, p[..k]))
  {
    hide Arranged, StoresOverlap, StoreCovers, FirstOutside, ByteOrder;
    ArrangedFacts(w, p);
    var K := PositionsIn(w, p[..k]);
    forall i: nat | i < |w.co| && Forced(w, before, lab, K, i) ensures i in K {
      assert w.co[i] in w.co;
      InOneHalf(p, k, w.co[i]);
      if j: nat :| i < j < |w.co| && j in K && StoresOverlap(w, w.co[i], w.co[j]) {
        FrontPrecedes(w, p, k, i, j);
      } else if i !in K && !(StoresOverlap(w, lab, w.co[i]) && before(w.co[i])) {
        var b :| b in Fragment(w.stores[lab].access) && FirstOutside(w, K, i, b);
        FirstOutsideIsNext(w, p, k, i, b);
      }
    }
  }

  /** The first overlapping store that is not in front. */
  lemma FirstLeft(w: Word, lab: Event, p: seq<Event>, k: nat) returns (j: nat)
    requires Arranged(w, p) && k <= |p| && exists e :: e in p[k..] && StoresOverlap(w, lab, e)
    ensures j < |w.co| && j !in PositionsIn(w, p[..k]) && StoresOverlap(w, lab, w.co[j])
    ensures forall m: nat :: m < j && StoresOverlap(w, lab, w.co[m]) ==> m in PositionsIn(w, p[..k])
  {
    hide Arranged, StoresOverlap, NumOverlapping;
    ArrangedFacts(w, p);
    var e :| e in p[k..] && StoresOverlap(w, lab, e);
    assert e in p;
    InOneHalf(p, k, e);
    var i: nat :| i < |w.co| && w.co[i] == e;
    j := LeastLeft(w, lab, PositionsIn(w, p[..k]), i);
  }

  lemma {:induction false} LeastLeft(w: Word, lab: Event, K: set<nat>, i: nat) returns (j: nat)
    requires i < |w.co| && i !in K && StoresOverlap(w, lab, w.co[i])
    ensures j < |w.co| && j !in K && StoresOverlap(w, lab, w.co[j])
    ensures forall m: nat :: m < j && StoresOverlap(w, lab, w.co[m]) ==> m in K
    decreases i
  {
    hide StoresOverlap;
    j := i;
    if m: nat :| m < i && StoresOverlap(w, lab, w.co[m]) && m !in K { j := LeastLeft(w, lab, K, m); }
  }

  /** The stores up to the place: exactly the overlapping ones up to j are in front. */
  ghost predicate CutsAt(w: Word, lab: Event, K: set<nat>, j: nat) {
    && j < |w.co| && j !in K && SameAccess(w, lab, w.co[j])
    && forall m: nat :: m < j && StoresOverlap(w, lab, w.co[m]) ==> m in K
  }

  lemma NoCutIsPlace(w: Word, before: Event -> bool, lab: Event, K: set<nat>, j: nat)
    requires StoresOf(w, w.co) && lab in w.stores && InWord(w.stores[lab].access) && PlacesEqual(w, before, lab)
    requires Closed(w, before, lab, K) && !Cut(w, before, lab, K)
    requires j < |w.co| && j !in K && StoresOverlap(w, lab, w.co[j])
    requires forall m: nat :: m < j && StoresOverlap(w, lab, w.co[m]) ==> m in K
    ensures EqualPlace(w, before, lab, j) && CutsAt(w, lab, K, j)
  {
    hide StoresOverlap, StoreCovers, PlacesFrom;
    assert !SlipsPast(w, before, lab, K, j);
    assert IsPlace(w, before, lab, j);
    var b := w.stores[lab].access.first;
    assert StoreCovers(w, lab, b) && StoreCovers(w, w.co[j], b) by { FirstCovered(w, lab, w.co[j]); }
    forall m: nat | m < j && StoreCovers(w, w.co[m], b) ensures m in K { SharedByte(w, lab, w.co[m], b); }
    assert FirstOutside(w, K, j, b);
    assert b in Fragment(w.stores[lab].access);
    assert !Forced(w, before, lab, K, j);
    assert w.co[j] in w.co;
  }

  lemma FirstCovered(w: Word, lab: Event, e: Event)
    requires SameAccess(w, lab, e) && InWord(w.stores[lab].access)
    ensures StoreCovers(w, lab, w.stores[lab].access.first) && StoreCovers(w, e, w.stores[lab].access.first)
  {
  }

  /** On a byte of the new store, what is in front is what comes before the place. */
  lemma SameInFront(w: Word, before: Event -> bool, lab: Event, p: seq<Event>, k: nat, j: nat, b: nat, e: Event)
    requires Arranged(w, p) && lab in w.stores && k <= |p| && StoreCovers(w, lab, b)
    requires Closed(w, before, lab, PositionsIn(w, p[..k])) && CutsAt(w, lab, PositionsIn(w, p[..k]), j)
    ensures e in ByteOrder(w, p[..k], b) <==> e in ByteOrder(w, w.co[..j], b)
  {
    hide ByteOrder, StoresOverlap, StoreCovers, SameByteOrders;
    ArrangedFacts(w, p);
    ByteOrderElements(w, p[..k], b, e);
    ByteOrderElements(w, w.co[..j], b, e);
    var K := PositionsIn(w, p[..k]);
    SharedByte(w, lab, e, b);
    if e in w.co[..j] && StoreCovers(w, e, b) {
      var m: nat :| m < j && w.co[m] == e;
      assert m in K;
    }
    if e in p[..k] && StoreCovers(w, e, b) {
      assert e in p && e in w.co;
      var m: nat :| m < |w.co| && w.co[m] == e;
      assert m in K;
      if m > j {
        assert StoreCovers(w, w.co[j], b) by { SameAccessCovers(w, lab, w.co[j], b); }
        SharedByte(w, w.co[j], e, b);
      }
      assert w.co[..j][m] == e;
    }
  }

  lemma SameAccessCovers(w: Word, lab: Event, e: Event, b: nat)
    requires SameAccess(w, lab, e) && StoreCovers(w, lab, b)
    ensures StoreCovers(w, e, b)
  {
  }

  lemma SameHalves(s: seq<Event>, t: seq<Event>, s': seq<Event>, t': seq<Event>)
    requires s + t == s' + t' && Distinct(s + t) && forall e :: e in s <==> e in s'
    ensures s == s' && t == t'
  {
    NotLonger(s, s', s + t);
    NotLonger(s', s, s + t);
    assert s == (s + t)[..|s|] && s' == (s' + t')[..|s|] && t == (s + t)[|s|..] && t' == (s' + t')[|s|..];
  }

  lemma NotLonger(s: seq<Event>, s': seq<Event>, all: seq<Event>)
    requires s <= all && s' <= all && Distinct(all) && forall e <- s' :: e in s
    ensures |s'| <= |s|
  {
    if s' != [] {
      var last := |s'| - 1;
      assert s'[last] in s';
      var i :| 0 <= i < |s| && s[i] == s'[last];
      assert all[i] == all[last];
    }
  }

  lemma NotCovered(w: Word, l: seq<Event>, k: nat, lab: Event, b: nat)
    requires k <= |l| && !StoreCovers(w, lab, b)
    ensures ByteOrder(w, Inserted(l, k, lab), b) == ByteOrder(w, l, b)
  {
    hide ByteOrder, StoreCovers;
    ByteOrderConcat(w, l[..k] + [lab], l[k..], b);
    ByteOrderAppend(w, l[..k], lab, b);
    assert l == l[..k] + l[k..];
    ByteOrderConcat(w, l[..k], l[k..], b);
  }

  lemma CoveredAt(w: Word, before: Event -> bool, lab: Event, p: seq<Event>, k: nat, j: nat)
    requires Arranged(w, p) && lab in w.stores && k <= |p|
    requires Closed(w, before, lab, PositionsIn(w, p[..k])) && CutsAt(w, lab, PositionsIn(w, p[..k]), j)
    ensures SameByteOrders(w, Inserted(w.co, j, lab), Inserted(p, k, lab))
  {
    hide ByteOrder, StoreCovers, Closed, CutsAt, PositionsIn, Inserted;
    assert j < |w.co| by { CutsInside(w, lab, PositionsIn(w, p[..k]), j); }
    forall b: nat | b < WORD_BYTES
      ensures ByteOrder(w, Inserted(w.co, j, lab), b) == ByteOrder(w, Inserted(p, k, lab), b)
    {
      assert ByteOrder(w, p, b) == ByteOrder(w, w.co, b);
      if StoreCovers(w, lab, b) {
        InsertedByte(w, p, k, lab, b);
        InsertedByte(w, w.co, j, lab, b);
        forall e ensures e in ByteOrder(w, p[..k], b) <==> e in ByteOrder(w, w.co[..j], b) {
          SameInFront(w, before, lab, p, k, j, b, e);
        }
        ByteOrderDistinct(w, w.co, b);
        SameHalves(ByteOrder(w, p[..k], b), ByteOrder(w, p[k..], b), ByteOrder(w, w.co[..j], b),
                   ByteOrder(w, w.co[j..], b));
      } else {
        NotCovered(w, p, k, lab, b);
        NotCovered(w, w.co, j, lab, b);
      }
    }
  }

  lemma CutsInside(w: Word, lab: Event, K: set<nat>, j: nat)
    requires CutsAt(w, lab, K, j)
    ensures j < |w.co|
  {
  }
}
