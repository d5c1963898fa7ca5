/** completeRevisitedRMW of src/GenMCDriver.cpp: where the write of a revisited
    read-modify-write goes in coherence. Stores that overlap a part that was read from an
    earlier store go behind it, the others stay in front. */
module RmwPlacement {
  import opened Events
  import opened Lists
  import opened MixedAccess
  import opened RfOptions
  import opened RfExact
  import opened Coherence

  /** s is initialization or one of the first n stores. */
  predicate Earlier(co: seq<Event>, n: nat, s: Source)
    requires n <= |co|
  {
    s.Init? || s.write in co[..n]
  }

  predicate PartOverlaps(w: Word, p: Part, e: Event) {
    e in w.stores && Overlap(p.access, w.stores[e].access)
  }

  /** The i-th store overlaps a part that was read from an earlier store. */
  predicate Overtaken(w: Word, rfs: Rfs, co: seq<Event>, i: nat)
    requires i < |co|
  {
    exists k :: 0 <= k < |rfs| && PartOverlaps(w, rfs[k], co[i]) && Earlier(co, i, rfs[k].from)
  }

  /** An rf list such as the enumeration yields: no part comes from a store that another
      part's store, which is later in coherence, overwrites there. */
  ghost predicate Justified(w: Word, rfs: Rfs, co: seq<Event>) {
    forall i, k {:trigger co[i], rfs[k]} ::
      0 <= i < |co| && 0 <= k < |rfs| && rfs[k].from == FromWrite(co[i]) ==> !Overtaken(w, rfs, co, i)
  }

  /** Those of the first n stores that stay before the RMW's write. */
  function Kept(w: Word, rfs: Rfs, co: seq<Event>, n: nat): seq<Event>
    requires n <= |co|
  {
    if n == 0 then []
    else Kept(w, rfs, co, n - 1) + if Overtaken(w, rfs, co, n - 1) then [] else [co[n - 1]]
  }

  /** Those that go after it. */
  function Moved(w: Word, rfs: Rfs, co: seq<Event>, n: nat): seq<Event>
    requires n <= |co|
  {
    if n == 0 then []
    else Moved(w, rfs, co, n - 1) + if Overtaken(w, rfs, co, n - 1) then [co[n - 1]] else []
  }

  /** The new coherence order. */
  function Placed(w: Word, rfs: Rfs, co: seq<Event>, lab: Event): seq<Event> {
    Kept(w, rfs, co, |co|) + [lab] + Moved(w, rfs, co, |co|)
  }

  class Bucket {
    var co: seq<Event>

    constructor (co0: seq<Event>)
      ensures co == co0
    {
      co := co0;
    }

    /** Places the write lab of an RMW whose read part reads from rfs. */
    method PlaceRMW(w: Word, rfs: Rfs, lab: Event)
      requires Justified(w, rfs, co)
      modifies this
      ensures co == Placed(w, rfs, old(co), lab)
    {
      hide PartOverlaps, Kept, Moved, Justified, AllSeen, AllRemaining;
      var before, after: seq<Event> := [], [];
      var seen, remaining := MarkSeen(Init, [], rfs);
      NoneKept(w, rfs, co);
      SeenFromInit(rfs, co, seen, remaining);
      ghost var was := co;
      for i := 0 to |co|
        invariant co == was
        invariant before == Kept(w, rfs, co, i) && after == Moved(w, rfs, co, i)
        invariant AllSeen(rfs, co, i, seen) && AllRemaining(rfs, co, i, remaining)
      {
        var overtaken := AnyOverlaps(w, seen, co[i]);
        OvertakenIfSeen(w, rfs, co, i, seen);
        KeptStep(w, rfs, co, i + 1);
        ghost var seen0, remaining0 := seen, remaining;
        if overtaken {
          after := after + [co[i]];
          NotASource(w, rfs, co, i);
          StillSeen(rfs, co, i, seen, remaining);
        } else {
          before := before + [co[i]];
          seen, remaining := MarkSeen(FromWrite(co[i]), seen, remaining);
          NowSeen(rfs, co, i, seen0, remaining0, seen, remaining);
        }
      }
      co := before + [lab] + after;
    }
  }

  method AnyOverlaps(w: Word, seen: seq<Access>, e: Event) returns (found: bool)
    ensures found == exists a :: a in seen && AccessOverlaps(w, a, e)
  {
    for i := 0 to |seen|
      invariant forall j :: 0 <= j < i ==> !AccessOverlaps(w, seen[j], e)
    {
      if AccessOverlaps(w, seen[i], e) { return true; }
    }
    return false;
  }

  predicate AccessOverlaps(w: Word, a: Access, e: Event) {
    e in w.stores && Overlap(a, w.stores[e].access)
  }

  /** Moves the parts read from s to what has been seen. */
  method MarkSeen(s: Source, seen0: seq<Access>, remaining0: Rfs) returns (seen: seq<Access>, remaining: Rfs)
    ensures Marked(s, seen0, remaining0, seen, remaining)
  {
    seen, remaining := seen0, remaining0;
    var it := 0;
    while it < |remaining|
      invariant it <= |remaining|
      invariant forall k :: 0 <= k < it ==> remaining[k].from != s
      invariant forall p :: p in remaining ==> p in remaining0
      invariant forall p :: p in remaining0 ==> p in remaining || (p.from == s && p.access in seen)
      invariant forall a :: a in seen0 ==> a in seen
      invariant forall a :: a in seen ==> a in seen0 || Part(s, a) in remaining0
      decreases |remaining| - it
    {
      if remaining[it].from == s {
        assert remaining == remaining[..it] + [remaining[it]] + remaining[it + 1..];
        assert remaining[it] == Part(s, remaining[it].access);
        seen := seen + [remaining[it].access];
        remaining := remaining[..it] + remaining[it + 1..];
      } else {
        it := it + 1;
      }
    }
  }

  ghost predicate Marked(s: Source, seen0: seq<Access>, remaining0: Rfs, seen: seq<Access>, remaining: Rfs) {
    && (forall a :: a in seen <==> a in seen0 || Part(s, a) in remaining0)
    && (forall p :: p in remaining <==> p in remaining0 && p.from != s)
  }

  // ----- what has been seen before the i-th store

  ghost predicate AllSeen(rfs: Rfs, co: seq<Event>, i: nat, seen: seq<Access>)
    requires i <= |co|
  {
    forall a :: a in seen <==> exists p :: p in rfs && p.access == a && Earlier(co, i, p.from)
  }

  ghost predicate AllRemaining(rfs: Rfs, co: seq<Event>, i: nat, remaining: Rfs)
    requires i <= |co|
  {
    forall p :: p in remaining <==> p in rfs && !Earlier(co, i, p.from)
  }

  lemma SeenFromInit(rfs: Rfs, co: seq<Event>, seen: seq<Access>, remaining: Rfs)
    requires Marked(Init, [], rfs, seen, remaining)
    ensures AllSeen(rfs, co, 0, seen) && AllRemaining(rfs, co, 0, remaining)
  {
    forall a | a in seen
      ensures exists p :: p in rfs && p.access == a && Earlier(co, 0, p.from)
    {
      assert Part(Init, a) in rfs;
    }
    forall p | p in rfs && Earlier(co, 0, p.from)
      ensures p.access in seen
    {
      assert p == Part(Init, p.access);
    }
  }

  lemma EarlierStep(co: seq<Event>, i: nat, s: Source)
    requires i < |co|
    ensures Earlier(co, i + 1, s) <==> Earlier(co, i, s) || s == FromWrite(co[i])
  {
    assert co[..i + 1] == co[..i] + [co[i]];
  }

  lemma StillSeen(rfs: Rfs, co: seq<Event>, i: nat, seen: seq<Access>, remaining: Rfs)
    requires i < |co| && AllSeen(rfs, co, i, seen) && AllRemaining(rfs, co, i, remaining)
    requires forall p <- rfs :: p.from != FromWrite(co[i])
    ensures AllSeen(rfs, co, i + 1, seen) && AllRemaining(rfs, co, i + 1, remaining)
  {
    forall p | p in rfs ensures Earlier(co, i + 1, p.from) == Earlier(co, i, p.from) { EarlierStep(co, i, p.from); }
  }

  lemma NowSeen(rfs: Rfs, co: seq<Event>, i: nat, seen0: seq<Access>, remaining0: Rfs, seen: seq<Access>,
                remaining: Rfs)
    requires i < |co| && AllSeen(rfs, co, i, seen0) && AllRemaining(rfs, co, i, remaining0)
    requires Marked(FromWrite(co[i]), seen0, remaining0, seen, remaining)
    ensures AllSeen(rfs, co, i + 1, seen) && AllRemaining(rfs, co, i + 1, remaining)
  {
    var s := FromWrite(co[i]);
    forall p: Part
      ensures Earlier(co, i + 1, p.from) <==> Earlier(co, i, p.from) || p.from == s
    {
      EarlierStep(co, i, p.from);
    }
    hide Earlier;
    forall a
      ensures a in seen <==> exists p :: p in rfs && p.access == a && Earlier(co, i + 1, p.from)
    {
      if p :| p in rfs && p.access == a && Earlier(co, i + 1, p.from) {
        if !Earlier(co, i, p.from) { assert p == Part(s, a); }
      }
      if a in seen && a !in seen0 { assert Part(s, a) in remaining0; }
    }
  }

  lemma OvertakenIfSeen(w: Word, rfs: Rfs, co: seq<Event>, i: nat, seen: seq<Access>)
    requires i < |co| && AllSeen(rfs, co, i, seen)
    ensures Overtaken(w, rfs, co, i) <==> exists a :: a in seen && AccessOverlaps(w, a, co[i])
  {
    hide Earlier;
    if Overtaken(w, rfs, co, i) {
      var k :| 0 <= k < |rfs| && PartOverlaps(w, rfs[k], co[i]) && Earlier(co, i, rfs[k].from);
      assert rfs[k] in rfs;
      assert rfs[k].access in seen && AccessOverlaps(w, rfs[k].access, co[i]);
    }
    if a :| a in seen && AccessOverlaps(w, a, co[i]) {
      var p :| p in rfs && p.access == a && Earlier(co, i, p.from);
      var k :| 0 <= k < |rfs| && rfs[k] == p;
      assert PartOverlaps(w, rfs[k], co[i]);
    }
  }

  lemma NotASource(w: Word, rfs: Rfs, co: seq<Event>, i: nat)
    requires i < |co| && Justified(w, rfs, co) && Overtaken(w, rfs, co, i)
    ensures forall p <- rfs :: p.from != FromWrite(co[i])
  {
    hide Overtaken;
    forall p | p in rfs ensures p.from != FromWrite(co[i]) {
      var k :| 0 <= k < |rfs| && rfs[k] == p;
      assert co[i] == co[i];
    }
  }

  lemma NoneKept(w: Word, rfs: Rfs, co: seq<Event>)
    ensures Kept(w, rfs, co, 0) == [] && Moved(w, rfs, co, 0) == []
  {
  }

  lemma KeptStep(w: Word, rfs: Rfs, co: seq<Event>, n: nat)
    requires 0 < n <= |co|
    ensures Kept(w, rfs, co, n) == Kept(w, rfs, co, n - 1) + if Overtaken(w, rfs, co, n - 1) then [] else [co[n - 1]]
    ensures Moved(w, rfs, co, n) == Moved(w, rfs, co, n - 1) + if Overtaken(w, rfs, co, n - 1) then [co[n - 1]] else []
  {
  }
}
