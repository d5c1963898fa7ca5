/** calcCoOrderings of src/GenMCDriver.cpp: the branch for equal accesses. */
module CoEqual {
  import opened Events
  import opened Lists
  import opened MixedAccess
  import opened RfOptions
  import opened Coherence
  import opened CoInsertion
  import opened CoOrderings

  // ----- where a store may be placed (getCoherentPlacings of src/RADriver.cpp)

  /** The position after the last of the first n stores that overlaps the new one and
      happens before it. */
  function PlacesFrom(w: Word, before: Event -> bool, lab: Event, n: nat): (k: nat)
    requires n <= |w.co|
    ensures k <= n
  {
    if n == 0 then 0
    else if StoresOverlap(w, lab, w.co[n - 1]) && before(w.co[n - 1]) then n
    else PlacesFrom(w, before, lab, n - 1)
  }

  /** The new store can be placed directly before the k-th store. */
  predicate IsPlace(w: Word, before: Event -> bool, lab: Event, k: nat) {
    PlacesFrom(w, before, lab, |w.co|) <= k < |w.co| && StoresOverlap(w, lab, w.co[k])
  }

  predicate SameAccess(w: Word, lab: Event, e: Event) {
    lab in w.stores && e in w.stores && w.stores[lab].access == w.stores[e].access
  }

  /** The places of the branch for equal accesses that are queued. */
  predicate EqualPlace(w: Word, before: Event -> bool, lab: Event, k: nat) {
    IsPlace(w, before, lab, k) && w.co[k] in w.stores && !w.stores[w.co[k]].rmw && !before(w.co[k])
  }

  function EqualOrders(w: Word, before: Event -> bool, lab: Event, n: nat): seq<seq<Event>>
    requires n <= |w.co|
  {
    if n == 0 then []
    else if EqualPlace(w, before, lab, n - 1) then EqualOrders(w, before, lab, n - 1) + [Inserted(w.co, n - 1, lab)]
    else EqualOrders(w, before, lab, n - 1)
  }

  /** All places have the access of the new store. */
  ghost predicate PlacesEqual(w: Word, before: Event -> bool, lab: Event) {
    forall k: nat {:trigger IsPlace(w, before, lab, k)} :: IsPlace(w, before, lab, k) ==> SameAccess(w, lab, w.co[k])
  }

  /** All stores that the new one overlaps have its access. */
  ghost predicate OverlappingEqual(w: Word, lab: Event) {
    forall e <- w.co :: StoresOverlap(w, lab, e) ==> SameAccess(w, lab, e)
  }

  method FirstPlace(w: Word, before: Event -> bool, lab: Event) returns (from: nat)
    ensures from == PlacesFrom(w, before, lab, |w.co|)
    ensures from > 0 ==> StoresOverlap(w, lab, w.co[from - 1]) && before(w.co[from - 1])
    ensures forall m :: from <= m < |w.co| && StoresOverlap(w, lab, w.co[m]) ==> !before(w.co[m])
  {
    from := |w.co|;
    while from > 0
      invariant from <= |w.co| && PlacesFrom(w, before, lab, from) == PlacesFrom(w, before, lab, |w.co|)
      invariant forall m :: from <= m < |w.co| && StoresOverlap(w, lab, w.co[m]) ==> !before(w.co[m])
    {
      if StoresOverlap(w, lab, w.co[from - 1]) && before(w.co[from - 1]) { return; }
      from := from - 1;
    }
  }

  method AllEqual(w: Word, before: Event -> bool, lab: Event, from: nat) returns (equal: bool)
    requires from == PlacesFrom(w, before, lab, |w.co|)
    ensures equal == PlacesEqual(w, before, lab)
  {
    for k := from to |w.co|
      invariant forall j: nat {:trigger IsPlace(w, before, lab, j)} ::
        IsPlace(w, before, lab, j) && j < k ==> SameAccess(w, lab, w.co[j])
    {
      if StoresOverlap(w, lab, w.co[k]) && !SameAccess(w, lab, w.co[k]) {
        assert IsPlace(w, before, lab, k);
        return false;
      }
    }
    return true;
  }

  /** The branch for equal accesses. */
  method SameSizeOrderings(w: Word, before: Event -> bool, lab: Event, from: nat) returns (added: seq<seq<Event>>)
    requires from == PlacesFrom(w, before, lab, |w.co|) && StoresOf(w, w.co)
    ensures added == EqualOrders(w, before, lab, |w.co|)
  {
    hide StoresOverlap;
    added := [];
    NoneBeforePlaces(w, before, lab, from);
    for k := from to |w.co|
      invariant added == EqualOrders(w, before, lab, k)
    {
      assert w.co[k] in w.co;
      if StoresOverlap(w, lab, w.co[k]) && !w.stores[w.co[k]].rmw && !before(w.co[k]) {
        added := added + [Inserted(w.co, k, lab)];
      }
    }
  }

  lemma {:induction false} NoneBeforePlaces(w: Word, before: Event -> bool, lab: Event, n: nat)
    requires n <= PlacesFrom(w, before, lab, |w.co|)
    ensures EqualOrders(w, before, lab, n) == []
  {
    if n > 0 { NoneBeforePlaces(w, before, lab, n - 1); }
  }

  /** The orders are placements that differ pairwise on some byte. */
  ghost predicate PlacedApart(w: Word, before: Event -> bool, lab: Event, added: seq<seq<Event>>)
    requires StoresOf(w, w.co) && lab in w.stores
  {
    && (forall q <- added :: Placed(w, before, lab, q))
    && (forall i, j :: 0 <= i < j < |added| ==> !SameByteOrders(w, added[i], added[j]))
  }

  lemma QueuedApart(w: Word, before: Event -> bool, lab: Event, added: seq<seq<Event>>)
    requires StoresOf(w, w.co) && lab in w.stores && Queued(w, before, lab, added)
    ensures PlacedApart(w, before, lab, added)
  {
    hide Placed, SameByteOrders;
  }

  lemma SomePlace(w: Word, before: Event -> bool, lab: Event)
    requires !PlacesEqual(w, before, lab)
    ensures w.co != []
  {
  }

  // ----- what the branch for equal accesses queues

  /** No overlapping store from the first place on happens before the new one. */
  lemma {:induction false} NothingBeforeAfter(w: Word, before: Event -> bool, lab: Event, n: nat, m: nat)
    requires n <= |w.co| && PlacesFrom(w, before, lab, n) <= m < n && StoresOverlap(w, lab, w.co[m])
    ensures !before(w.co[m])
  {
    hide StoresOverlap;
    if m < n - 1 { NothingBeforeAfter(w, before, lab, n - 1, m); }
  }

  /** Each of its places gives a placement. */
  lemma EqualPlaceIsPlacement(w: Word, before: Event -> bool, lab: Event, k: nat)
    requires StoresOf(w, w.co) && lab in w.stores && InWord(w.stores[lab].access)
    requires EqualPlace(w, before, lab, k) && SameAccess(w, lab, w.co[k])
    ensures Placement(w, before, lab, Inserted(w.co, k, lab), w.co, k)
  {
    hide ByteOrder, StoresOverlap, PlacesFrom, Inserted;
    var rest := w.co[k..];
    assert rest[0] in rest;
    forall b | b in Fragment(w.stores[lab].access) ensures !RmwFirst(w, rest, b) {
      ByteOrderFirst(w, rest, b);
      assert StoreCovers(w, rest[0], b);
    }
    forall e | e in rest && StoresOverlap(w, lab, e) ensures !before(e) {
      var m :| 0 <= m < |rest| && rest[m] == e;
      NothingBeforeAfter(w, before, lab, |w.co|, k + m);
    }
  }

  lemma {:induction false} EqualOrdersAt(w: Word, before: Event -> bool, lab: Event, n: nat, i: nat) returns (k: nat)
    requires n <= |w.co| && i < |EqualOrders(w, before, lab, n)|
    ensures k < n && EqualPlace(w, before, lab, k) && EqualOrders(w, before, lab, n)[i] == Inserted(w.co, k, lab)
    ensures EqualOrders(w, before, lab, k) == EqualOrders(w, before, lab, n)[..i]
  {
    hide EqualPlace, Inserted;
    if i < |EqualOrders(w, before, lab, n - 1)| {
      k := EqualOrdersAt(w, before, lab, n - 1, i);
      assert EqualOrders(w, before, lab, n)[..i] == EqualOrders(w, before, lab, n - 1)[..i];
    } else {
      k := n - 1;
      assert EqualOrders(w, before, lab, n)[..i] == EqualOrders(w, before, lab, n - 1);
    }
  }

  lemma {:induction false} EqualOrdersHas(w: Word, before: Event -> bool, lab: Event, n: nat, k: nat)
    requires k < n <= |w.co| && EqualPlace(w, before, lab, k)
    ensures Inserted(w.co, k, lab) in EqualOrders(w, before, lab, n)
  {
    hide EqualPlace, Inserted;
    if k < n - 1 { EqualOrdersHas(w, before, lab, n - 1, k); }
  }

  // ----- different places differ

  /** On a byte of the new store, the insertion shows how many stores are before it. */
  lemma InsertedByte(w: Word, l: seq<Event>, k: nat, lab: Event, b: nat)
    requires k <= |l| && StoreCovers(w, lab, b)
    ensures ByteOrder(w, Inserted(l, k, lab), b) == ByteOrder(w, l[..k], b) + [lab] + ByteOrder(w, l[k..], b)
    ensures ByteOrder(w, l, b) == ByteOrder(w, l[..k], b) + ByteOrder(w, l[k..], b)
  {
    hide ByteOrder;
    ByteOrderConcat(w, l[..k] + [lab], l[k..], b);
    ByteOrderAppend(w, l[..k], lab, b);
    assert l == l[..k] + l[k..];
    ByteOrderConcat(w, l[..k], l[k..], b);
  }

  lemma {:induction false} ByteOrderGrows(w: Word, l: seq<Event>, j: nat, k: nat, b: nat)
    requires j < k <= |l| && StoreCovers(w, l[j], b)
    ensures |ByteOrder(w, l[..j], b)| < |ByteOrder(w, l[..k], b)|
  {
    hide ByteOrder, StoreCovers;
    assert l[..k] == l[..j] + [l[j]] + l[j + 1..k];
    ByteOrderConcat(w, l[..j] + [l[j]], l[j + 1..k], b);
    ByteOrderAppend(w, l[..j], l[j], b);
  }

  lemma PlacesDiffer(w: Word, lab: Event, j: nat, k: nat)
    requires StoresOf(w, w.co) && lab in w.stores && InWord(w.stores[lab].access) && lab !in w.co
    requires j < k <= |w.co| && SameAccess(w, lab, w.co[j])
    ensures !SameByteOrders(w, Inserted(w.co, j, lab), Inserted(w.co, k, lab))
  {
    hide ByteOrder, Inserted;
    var b := w.stores[lab].access.first;
    InsertedByte(w, w.co, j, lab, b);
    InsertedByte(w, w.co, k, lab, b);
    ByteOrderGrows(w, w.co, j, k, b);
    var i := |ByteOrder(w, w.co[..j], b)|;
    ByteOrderElements(w, w.co[..k], b, lab);
    assert ByteOrder(w, Inserted(w.co, j, lab), b)[i] == lab;
    assert ByteOrder(w, Inserted(w.co, k, lab), b)[i] == ByteOrder(w, w.co[..k], b)[i];
  }

  /** What the branch for equal accesses queues are placements that differ pairwise. */
  lemma EqualOrdersApart(w: Word, before: Event -> bool, lab: Event)
    requires StoresOf(w, w.co) && lab in w.stores && InWord(w.stores[lab].access) && lab !in w.co
    requires PlacesEqual(w, before, lab)
    ensures PlacedApart(w, before, lab, EqualOrders(w, before, lab, |w.co|))
  {
    hide Placement, SameByteOrders, EqualOrders, Inserted, SameAccess, StoresOverlap;
    var added := EqualOrders(w, before, lab, |w.co|);
    forall q | q in added ensures Placed(w, before, lab, q) {
      var i :| 0 <= i < |added| && added[i] == q;
      var k := EqualOrdersAt(w, before, lab, |w.co|, i);
      EqualPlaceIsPlacement(w, before, lab, k);
    }
    forall i, j | 0 <= i < j < |added| ensures !SameByteOrders(w, added[i], added[j]) {
      var k := EqualOrdersAt(w, before, lab, |w.co|, j);
      var h := EqualOrdersAt(w, before, lab, k, i);
      assert IsPlace(w, before, lab, h);
      PlacesDiffer(w, lab, h, k);
    }
  }
}
