/** calcCoOrderings of src/GenMCDriver.cpp: coherence orders for a new store. */
module CoOrderings {
  import opened Events
  import opened Lists
  import opened MixedAccess
  import opened RfOptions
  import opened Coherence
  import opened CoInsertion
  import opened Functors
  import opened Engine
  import opened ForEach

  type Orders = map<seq<seq<Event>>, seq<Event>>

  /** The new store may go in front of these: on no byte of it is the first of them the write
      of an RMW, and none that it overlaps happens before it. */
  ghost predicate MayPrecede(w: Word, before: Event -> bool, lab: Event, rest: seq<Event>)
    requires lab in w.stores
  {
    && (forall b :: b in Fragment(w.stores[lab].access) ==> !RmwFirst(w, rest, b))
    && (forall e :: e in rest && StoresOverlap(w, lab, e) ==> !before(e))
  }

  /** q is the old stores in an order that is the old one on every byte, with the new store
      inserted before at least one store that it overlaps, where it may go. */
  ghost predicate Placement(w: Word, before: Event -> bool, lab: Event, q: seq<Event>, p: seq<Event>, k: nat)
    requires StoresOf(w, w.co) && lab in w.stores
  {
    && multiset(p) == multiset(w.co) && SameByteOrders(w, p, w.co)
    && k <= |p| && q == Inserted(p, k, lab)
    && (exists e :: e in p[k..] && StoresOverlap(w, lab, e)) && MayPrecede(w, before, lab, p[k..])
  }

  ghost predicate Placed(w: Word, before: Event -> bool, lab: Event, q: seq<Event>)
    requires StoresOf(w, w.co) && lab in w.stores
  {
    exists p, k :: Placement(w, before, lab, q, p, k)
  }

  /** Every cached order is a placement, filed under its orders per byte. */
  ghost predicate Sound(w: Word, before: Event -> bool, lab: Event, cache: Orders)
    requires StoresOf(w, w.co) && lab in w.stores
  {
    forall key <- cache :: key == PerByte(w, cache[key], WORD_BYTES) && Placed(w, before, lab, cache[key])
  }

  /** What the callback adds for permutation p and its i-th overlapping store is there. */
  ghost predicate Cached(w: Word, before: Event -> bool, lab: Event, p: seq<Event>, i: nat, cache: Orders)
    requires StoresOf(w, w.co) && lab in w.stores
  {
    var k := Spot(w, p, lab, i);
    StoresIn(w, p) && SameByteOrders(w, p, w.co) && !Blocked(w, before, lab, p[k..], Fragment(w.stores[lab].access))
    ==> PerByte(w, Inserted(p, k, lab), WORD_BYTES) in cache
  }

  /** The callback of calcCoOrderings for one permutation of the old stores. */
  method AddPlacements(w: Word, before: Event -> bool, lab: Event, p: seq<Event>, order: seq<seq<Event>>,
                       overlapping: nat, cache0: Orders) returns (cache: Orders)
    requires StoresOf(w, w.co) && lab in w.stores && multiset(p) == multiset(w.co)
    requires order == PerByte(w, w.co, WORD_BYTES) && overlapping == NumOverlapping(w, w.co, lab)
    requires Sound(w, before, lab, cache0)
    ensures Sound(w, before, lab, cache) && cache0.Keys <= cache.Keys
    ensures forall i | 0 <= i < overlapping :: Cached(w, before, lab, p, i, cache)
  {
    hide PerByte, Blocked, NumOverlapping, Spot, Placed, SameByteOrders;
    cache := cache0;
    StoresRearranged(w, p);
    SameOverlapping(w, p, w.co, lab);
    var perByte := GetPerByteCoherence(w, p);
    SamePerByte(w, p, w.co);
    if perByte != order { return; }
    for i := 0 to overlapping
      invariant Sound(w, before, lab, cache) && cache0.Keys <= cache.Keys
      invariant forall j | 0 <= j < i :: Cached(w, before, lab, p, j, cache)
    {
      var newCoh, index := ConstructCoSeq(w, p, lab, i);
      InsertedAt(p, index, lab);
      assert newCoh[index] == lab;
      var blocked := IsBlocked(w, before, lab, newCoh, index);
      if !blocked {
        var key := GetPerByteCoherence(w, newCoh);
        SpotIsPlacement(w, before, lab, p, i);
        StaysSound(w, before, lab, cache, key, newCoh);
        ghost var was := cache;
        cache := cache[key := newCoh];
        forall j | 0 <= j < i ensures Cached(w, before, lab, p, j, cache) {
          StaysCached(w, before, lab, p, j, was, key, newCoh);
        }
      }
      NowCached(w, before, lab, p, i, cache);
    }
  }

  lemma StoresRearranged(w: Word, p: seq<Event>)
    requires StoresOf(w, w.co) && multiset(p) == multiset(w.co)
    ensures StoresOf(w, p) && StoresIn(w, p)
  {
    forall e <- p ensures e in w.co { assert e in multiset(p); assert e in multiset(w.co); }
  }

  lemma NowCached(w: Word, before: Event -> bool, lab: Event, p: seq<Event>, i: nat, cache: Orders)
    requires StoresOf(w, w.co) && lab in w.stores && StoresIn(w, p)
    requires var k := Spot(w, p, lab, i);
      Blocked(w, before, lab, p[k..], Fragment(w.stores[lab].access))
        || PerByte(w, Inserted(p, k, lab), WORD_BYTES) in cache
    ensures Cached(w, before, lab, p, i, cache)
  {
    hide PerByte, Blocked, SameByteOrders, Spot;
  }

  /** An insertion that is not rejected is a placement. */
  lemma SpotIsPlacement(w: Word, before: Event -> bool, lab: Event, p: seq<Event>, i: nat)
    requires StoresOf(w, w.co) && lab in w.stores && StoresIn(w, p)
    requires multiset(p) == multiset(w.co) && SameByteOrders(w, p, w.co) && i < NumOverlapping(w, p, lab)
    requires !Blocked(w, before, lab, p[Spot(w, p, lab, i)..], Fragment(w.stores[lab].access))
    ensures Placed(w, before, lab, Inserted(p, Spot(w, p, lab, i), lab))
  {
    hide Blocked, NumOverlapping, Spot, SameByteOrders, StoresOverlap, RmwFirst, Inserted;
    var k := Spot(w, p, lab, i);
    SpotCounts(w, p, lab, i);
    OverlapsBehind(w, p, lab, k);
    BlockedIff(w, before, lab, p[k..], Fragment(w.stores[lab].access));
    IsPlaced(w, before, lab, Inserted(p, k, lab), p, k);
  }

  lemma IsPlaced(w: Word, before: Event -> bool, lab: Event, q: seq<Event>, p: seq<Event>, k: nat)
    requires StoresOf(w, w.co) && lab in w.stores && Placement(w, before, lab, q, p, k)
    ensures Placed(w, before, lab, q)
  {
  }

  lemma StaysSound(w: Word, before: Event -> bool, lab: Event, cache: Orders, key: seq<seq<Event>>, q: seq<Event>)
    requires StoresOf(w, w.co) && lab in w.stores && Sound(w, before, lab, cache)
    requires key == PerByte(w, q, WORD_BYTES) && Placed(w, before, lab, q)
    ensures Sound(w, before, lab, cache[key := q])
  {
    hide PerByte, Placed;
  }

  lemma StaysCached(w: Word, before: Event -> bool, lab: Event, p: seq<Event>, i: nat, cache: Orders,
                    key: seq<seq<Event>>, q: seq<Event>)
    requires StoresOf(w, w.co) && lab in w.stores && Cached(w, before, lab, p, i, cache)
    ensures Cached(w, before, lab, p, i, cache[key := q])
  {
    hide PerByte, Blocked, SameByteOrders;
  }

  // ----- every permutation of the old stores is shown

  lemma Singleton(n: nat)
    ensures AllPermutations(n, n) == CallCombine(0, n, n, n, CallPermute(0, n, BoundRange))
    ensures Valid(AllPermutations(n, n), n)
  {
    assert Valid(BoundRange, n);
  }

  lemma OnlyPosition(vs: seq<seq<Event>>, n: nat, kind: set<seq<Event>>) returns (i: nat)
    requires ExactlyOne(vs, n, kind)
    ensures OnlyAt(vs, n, kind, i)
  {
    i :| OnlyAt(vs, n, kind, i);
  }

  /** for_each_permutation over a whole range shows its permutations and nothing else. */
  lemma ShowsPermutations(co: seq<Event>, p: seq<Event>)
    requires co != [] && Distinct(co)
    ensures p in Visits(AllPermutations(|co|, |co|), co) <==> multiset(p) == multiset(co)
  {
    hide Visits, Rearranges, ExactlyOne;
    var n := |co|;
    var vs := Visits(AllPermutations(n, n), co);
    if multiset(p) == multiset(co) {
      SameLength(p, co);
      EveryPermutationOnce(co, n, p);
      var i := OnlyPosition(vs, n, {p});
      PermutationsSound(co, vs[i]);
      assert vs[i][..n] == vs[i];
    }
    if p in vs { PermutationsSound(co, p); }
  }

  lemma PermutationsSound(co: seq<Event>, t: seq<Event>)
    requires co != [] && Distinct(co) && t in Visits(AllPermutations(|co|, |co|), co)
    ensures |t| == |co| && multiset(t) == multiset(co)
  {
    hide Visits, Rearranges;
    PermuteRearranges<Event>(|co|, |co|);
    ShownRearranged(CallPermute(0, |co|, BoundRange), co, |co|, t);
  }

  // ----- every placement is covered

  /** The callback has queued, for permutation p, an order with the same orders per byte as
      the new store inserted at any position of p. */
  lemma PlacementCached(w: Word, before: Event -> bool, lab: Event, q: seq<Event>, p: seq<Event>, k: nat, cache: Orders)
    requires StoresOf(w, w.co) && lab in w.stores && InWord(w.stores[lab].access)
    requires Placement(w, before, lab, q, p, k)
    requires Cached(w, before, lab, p, NumOverlapping(w, p[..k], lab), cache)
    ensures PerByte(w, q, WORD_BYTES) in cache
  {
    hide PerByte, Blocked, SameByteOrders, Spot, NumOverlapping, StoresOverlap;
    StoresRearranged(w, p);
    var s := Spot(w, p, lab, NumOverlapping(w, p[..k], lab));
    NoneSkipped(w, p, lab, k);
    NoneOverlaps(w, p[s..k], lab);
    forall e <- p[s..k] ensures e in p {}
    InsertedSame(w, p, s, k, lab);
    SamePerByte(w, Inserted(p, s, lab), q);
    assert p[s..] == p[s..k] + p[k..];
    BlockedIff(w, before, lab, p[k..], Fragment(w.stores[lab].access));
    BlockedSame(w, before, lab, p[s..k], p[k..], Fragment(w.stores[lab].access));
  }

  lemma AllCached(w: Word, before: Event -> bool, lab: Event, cache: Orders, q: seq<Event>)
    requires StoresOf(w, w.co) && lab in w.stores && InWord(w.stores[lab].access) && w.co != [] && Distinct(w.co)
    requires forall p {:trigger p in Visits(AllPermutations(|w.co|, |w.co|), w.co)} ::
      p in Visits(AllPermutations(|w.co|, |w.co|), w.co) ==> CachedAll(w, before, lab, p, cache)
    requires Placed(w, before, lab, q)
    ensures PerByte(w, q, WORD_BYTES) in cache
  {
    hide PerByte, Cached, Blocked, SameByteOrders, NumOverlapping, Visits;
    var p, k :| Placement(w, before, lab, q, p, k);
    ShowsPermutations(w.co, p);
    SameOverlapping(w, p, w.co, lab);
    OverlapsBehind(w, p, lab, k);
    PlacementCached(w, before, lab, q, p, k, cache);
  }

  ghost predicate CachedAll(w: Word, before: Event -> bool, lab: Event, p: seq<Event>, cache: Orders)
    requires StoresOf(w, w.co) && lab in w.stores
  {
    forall i | 0 <= i < NumOverlapping(w, w.co, lab) :: Cached(w, before, lab, p, i, cache)
  }

  lemma StayCached(w: Word, before: Event -> bool, lab: Event, p: seq<Event>, cache: Orders, more: Orders)
    requires StoresOf(w, w.co) && lab in w.stores && CachedAll(w, before, lab, p, cache) && cache.Keys <= more.Keys
    ensures CachedAll(w, before, lab, p, more)
  {
    hide PerByte, Blocked, SameByteOrders, NumOverlapping, Spot, StoresIn;
    forall i | 0 <= i < NumOverlapping(w, w.co, lab) ensures Cached(w, before, lab, p, i, more) {
      assert Cached(w, before, lab, p, i, cache);
      assert forall key :: key in cache.Keys ==> key in more.Keys;
    }
  }

  method CacheOrders(w: Word, before: Event -> bool, lab: Event) returns (cache: Orders)
    requires StoresOf(w, w.co) && lab in w.stores && InWord(w.stores[lab].access) && w.co != [] && Distinct(w.co)
    ensures Sound(w, before, lab, cache)
    ensures forall q :: Placed(w, before, lab, q) ==> PerByte(w, q, WORD_BYTES) in cache
  {
    hide PerByte, Placed, Visits, CachedAll, Sound, StoresOf;
    var n := |w.co|;
    var order := GetPerByteCoherence(w, w.co);
    var overlapping := NumberOverlapping(w, lab);
    var coh := new Event[n](i requires 0 <= i < n => w.co[i]);
    assert coh[..] == w.co;
    Singleton(n);
    var shown, stopped := Run(coh, AllPermutations(n, n), _ => false);
    cache := map[];
    NothingCached(w, before, lab);
    for i := 0 to |shown|
      invariant Sound(w, before, lab, cache)
      invariant forall j | 0 <= j < i :: CachedAll(w, before, lab, shown[j], cache)
    {
      PermutationsSound(w.co, shown[i]);
      ghost var was := cache;
      cache := AddPlacements(w, before, lab, shown[i], order, overlapping, cache);
      NowCachedAll(w, before, lab, shown[i], cache);
      forall j | 0 <= j < i ensures CachedAll(w, before, lab, shown[j], cache) {
        StayCached(w, before, lab, shown[j], was, cache);
      }
    }
    forall q | Placed(w, before, lab, q) ensures PerByte(w, q, WORD_BYTES) in cache {
      AllCached(w, before, lab, cache, q);
    }
  }

  lemma NothingCached(w: Word, before: Event -> bool, lab: Event)
    requires StoresOf(w, w.co) && lab in w.stores
    ensures Sound(w, before, lab, map[])
  {
  }

  lemma NowCachedAll(w: Word, before: Event -> bool, lab: Event, p: seq<Event>, cache: Orders)
    requires StoresOf(w, w.co) && lab in w.stores
    requires forall i | 0 <= i < NumOverlapping(w, w.co, lab) :: Cached(w, before, lab, p, i, cache)
    ensures CachedAll(w, before, lab, p, cache)
  {
  }

  method NumberOverlapping(w: Word, lab: Event) returns (n: nat)
    ensures n == NumOverlapping(w, w.co, lab)
  {
    n := 0;
    for k := 0 to |w.co|
      invariant n == NumOverlapping(w, w.co[..k], lab)
    {
      assert w.co[..k + 1][..k] == w.co[..k];
      if StoresOverlap(w, lab, w.co[k]) { n := n + 1; }
    }
    assert w.co[..|w.co|] == w.co;
  }

  /** The cached orders. */
  method ValuesOf(w: Word, before: Event -> bool, lab: Event, cache: Orders) returns (added: seq<seq<Event>>)
    requires StoresOf(w, w.co) && lab in w.stores && Sound(w, before, lab, cache)
    requires forall q :: Placed(w, before, lab, q) ==> PerByte(w, q, WORD_BYTES) in cache
    ensures Queued(w, before, lab, added)
  {
    hide PerByte, Placed, Queued;
    var keys := cache.Keys;
    added := [];
    while keys != {}
      invariant keys <= cache.Keys
      invariant forall q <- added ::
        PerByte(w, q, WORD_BYTES) in cache.Keys - keys && cache[PerByte(w, q, WORD_BYTES)] == q
      invariant forall key <- cache :: key in keys || cache[key] in added
      invariant Distinct(added)
      decreases |keys|
    {
      var key :| key in keys;
      assert cache[key] !in added;
      added := added + [cache[key]];
      keys := keys - {key};
    }
    CoversAll(w, before, lab, cache, added);
  }

  /** The branch of calcCoOrderings for stores of different accesses. */
  method MixedOrderings(w: Word, before: Event -> bool, lab: Event) returns (added: seq<seq<Event>>)
    requires StoresOf(w, w.co) && lab in w.stores && InWord(w.stores[lab].access) && w.co != [] && Distinct(w.co)
    ensures Queued(w, before, lab, added)
  {
    hide PerByte, Placed, Queued, Sound;
    var cache := CacheOrders(w, before, lab);
    added := ValuesOf(w, before, lab, cache);
  }

  /** The queued orders are placements that differ pairwise on some byte, and every
      placement orders each byte like one of them. */
  ghost predicate Queued(w: Word, before: Event -> bool, lab: Event, added: seq<seq<Event>>)
    requires StoresOf(w, w.co) && lab in w.stores
  {
    && (forall q <- added :: Placed(w, before, lab, q))
    && (forall i, j :: 0 <= i < j < |added| ==> !SameByteOrders(w, added[i], added[j]))
    && (forall q :: Placed(w, before, lab, q) ==> exists a :: a in added && SameByteOrders(w, a, q))
  }

  lemma CoversAll(w: Word, before: Event -> bool, lab: Event, cache: Orders, added: seq<seq<Event>>)
    requires StoresOf(w, w.co) && lab in w.stores && Sound(w, before, lab, cache)
    requires forall q :: Placed(w, before, lab, q) ==> PerByte(w, q, WORD_BYTES) in cache
    requires forall q <- added :: PerByte(w, q, WORD_BYTES) in cache && cache[PerByte(w, q, WORD_BYTES)] == q
    requires forall key <- cache :: cache[key] in added
    requires Distinct(added)
    ensures Queued(w, before, lab, added)
  {
    hide PerByte, Placed, SameByteOrders;
    forall i, j | 0 <= i < j < |added| ensures !SameByteOrders(w, added[i], added[j]) {
      SamePerByte(w, added[i], added[j]);
    }
    forall q | Placed(w, before, lab, q)
      ensures exists a :: a in added && SameByteOrders(w, a, q)
    {
      var key := PerByte(w, q, WORD_BYTES);
      var a := cache[key];
      SamePerByte(w, a, q);
      assert a in added && SameByteOrders(w, a, q);
    }
  }
}
