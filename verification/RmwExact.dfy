/** What the placement of a read-modify-write guarantees, and what not. */
module RmwExact {
  import opened Events
  import opened Lists
  import opened MixedAccess
  import opened RfOptions
  import opened RfExact
  import opened Coherence
  import opened RmwPlacement

  // On every byte the write directly follows the store that byte was read from. The old
  // stores, however, can change places.

  // ----- nothing is lost or duplicated

  lemma {:induction false} KeptOrMoved(w: Word, rfs: Rfs, co: seq<Event>, n: nat)
    requires n <= |co|
    ensures multiset(Kept(w, rfs, co, n)) + multiset(Moved(w, rfs, co, n)) == multiset(co[..n])
  {
    hide Overtaken, Kept, Moved;
    if n > 0 {
      KeptOrMoved(w, rfs, co, n - 1);
      KeptStep(w, rfs, co, n);
      assert co[..n] == co[..n - 1] + [co[n - 1]];
      MovedLast(Kept(w, rfs, co, n - 1), Moved(w, rfs, co, n - 1), co[n - 1]);
    } else {
      NoneKept(w, rfs, co);
    }
  }

  lemma MovedLast(kept: seq<Event>, moved: seq<Event>, e: Event)
    ensures multiset(kept + [e]) + multiset(moved) == multiset(kept) + multiset(moved) + multiset{e}
    ensures multiset(kept) + multiset(moved + [e]) == multiset(kept) + multiset(moved) + multiset{e}
    ensures kept + [] == kept && moved + [] == moved
  {
  }

  /** The new order consists of the old stores and the new one. */
  lemma NothingLost(w: Word, rfs: Rfs, co: seq<Event>, lab: Event)
    ensures multiset(Placed(w, rfs, co, lab)) == multiset(co) + multiset{lab}
  {
    hide Kept, Moved;
    KeptOrMoved(w, rfs, co, |co|);
    assert co[..|co|] == co;
  }

  // ----- atomicity

  /** The store directly before e. */
  function PredecessorOf(l: seq<Event>, e: Event): Source {
    if l == [] then Init
    else if l[|l| - 1] != e then PredecessorOf(l[..|l| - 1], e)
    else if |l| == 1 then Init
    else FromWrite(l[|l| - 2])
  }

  lemma {:induction false} PredecessorBetween(l: seq<Event>, e: Event, m: seq<Event>)
    requires e !in m
    ensures PredecessorOf(l + [e] + m, e) == if l == [] then Init else FromWrite(l[|l| - 1])
    decreases |m|
  {
    var all := l + [e] + m;
    if m != [] {
      assert all[..|all| - 1] == l + [e] + m[..|m| - 1];
      PredecessorBetween(l, e, m[..|m| - 1]);
    }
  }

  /** rfs reads byte b once, from a store that writes it or from initialization. */
  ghost predicate ReadsByte(w: Word, rfs: Rfs, co: seq<Event>, b: nat) {
    && |Reads(rfs, b)| == 1
    && var s := Reads(rfs, b)[0];
      s.FromWrite? ==> s.write in co && StoreCovers(w, s.write, b)
  }

  lemma {:induction false} PartReading(rfs: Rfs, b: nat) returns (k: nat)
    requires |Reads(rfs, b)| == 1
    ensures k < |rfs| && Covers(rfs[k].access, b) && rfs[k].from == Reads(rfs, b)[0]
  {
    if Covers(rfs[0].access, b) {
      k := 0;
    } else {
      k := PartReading(rfs[1..], b);
      k := k + 1;
    }
  }

  /** Later stores to a byte that has been read from an earlier one are overtaken. */
  lemma LaterOvertaken(w: Word, rfs: Rfs, co: seq<Event>, b: nat, i: nat)
    requires StoresOf(w, co) && ReadsByte(w, rfs, co, b) && i < |co| && StoreCovers(w, co[i], b)
    requires Earlier(co, i, Reads(rfs, b)[0])
    ensures Overtaken(w, rfs, co, i)
  {
    hide Reads;
    var k := PartReading(rfs, b);
    assert PartOverlaps(w, rfs[k], co[i]);
  }

  lemma KeptByte(w: Word, rfs: Rfs, co: seq<Event>, b: nat, n: nat)
    requires 0 < n <= |co|
    ensures ByteOrder(w, Kept(w, rfs, co, n), b) == ByteOrder(w, Kept(w, rfs, co, n - 1), b)
      + if !Overtaken(w, rfs, co, n - 1) && StoreCovers(w, co[n - 1], b) then [co[n - 1]] else []
    ensures ByteOrder(w, Moved(w, rfs, co, n), b) == ByteOrder(w, Moved(w, rfs, co, n - 1), b)
      + if Overtaken(w, rfs, co, n - 1) && StoreCovers(w, co[n - 1], b) then [co[n - 1]] else []
  {
    hide Overtaken, StoreCovers, ByteOrder, Kept, Moved;
    KeptStep(w, rfs, co, n);
    ByteOrderAppend(w, Kept(w, rfs, co, n - 1), co[n - 1], b);
    ByteOrderAppend(w, Moved(w, rfs, co, n - 1), co[n - 1], b);
    assert Kept(w, rfs, co, n - 1) + [] == Kept(w, rfs, co, n - 1);
    assert Moved(w, rfs, co, n - 1) + [] == Moved(w, rfs, co, n - 1);
  }

  lemma NoneByte(w: Word, rfs: Rfs, co: seq<Event>, b: nat)
    ensures ByteOrder(w, Kept(w, rfs, co, 0), b) == [] && ByteOrder(w, Moved(w, rfs, co, 0), b) == []
  {
  }

  lemma {:induction false} LastKeptIsSource(w: Word, rfs: Rfs, co: seq<Event>, b: nat, j: nat, n: nat)
    requires StoresOf(w, co) && Justified(w, rfs, co) && ReadsByte(w, rfs, co, b)
    requires j < n <= |co| && Reads(rfs, b)[0] == FromWrite(co[j])
    ensures var kept := ByteOrder(w, Kept(w, rfs, co, n), b); kept != [] && kept[|kept| - 1] == co[j]
  {
    hide Reads, Overtaken, StoreCovers, ByteOrder, Kept, Moved;
    KeptByte(w, rfs, co, b, n);
    if n == j + 1 {
      var k := PartReading(rfs, b);
      assert rfs[k].from == FromWrite(co[j]);
    } else {
      LastKeptIsSource(w, rfs, co, b, j, n - 1);
      assert co[j] == co[..n - 1][j];
      if StoreCovers(w, co[n - 1], b) { LaterOvertaken(w, rfs, co, b, n - 1); }
    }
  }

  lemma {:induction false} NoneKeptOnInit(w: Word, rfs: Rfs, co: seq<Event>, b: nat, n: nat)
    requires StoresOf(w, co) && ReadsByte(w, rfs, co, b) && n <= |co| && Reads(rfs, b)[0] == Init
    ensures ByteOrder(w, Kept(w, rfs, co, n), b) == []
  {
    hide Reads, Overtaken, StoreCovers, ByteOrder, Kept, Moved;
    if n > 0 {
      KeptByte(w, rfs, co, b, n);
      NoneKeptOnInit(w, rfs, co, b, n - 1);
      if StoreCovers(w, co[n - 1], b) { LaterOvertaken(w, rfs, co, b, n - 1); }
    } else {
      NoneByte(w, rfs, co, b);
    }
  }

  lemma ByteIsRead(w: Word, rfs: Rfs, co: seq<Event>, b: nat)
    requires ReadsByte(w, rfs, co, b)
    ensures |Reads(rfs, b)| == 1 && (Reads(rfs, b)[0].FromWrite? ==> Reads(rfs, b)[0].write in co)
  {
  }

  /** On every byte of the RMW, its write directly follows the store the byte was read
      from; it is the first store to the byte if that was read from initialization. */
  lemma DirectlyAfterSource(w: Word, rfs: Rfs, co: seq<Event>, lab: Event, b: nat)
    requires StoresOf(w, co) && Justified(w, rfs, co) && ReadsByte(w, rfs, co, b)
    requires lab !in co && StoreCovers(w, lab, b)
    ensures var order := ByteOrder(w, Placed(w, rfs, co, lab), b);
      lab in order && PredecessorOf(order, lab) == Reads(rfs, b)[0]
  {
    hide Reads, Justified, ByteOrder, PredecessorOf, StoreCovers, Kept, Moved, ReadsByte;
    var kept, moved := Kept(w, rfs, co, |co|), Moved(w, rfs, co, |co|);
    ByteOrderConcat(w, kept + [lab], moved, b);
    ByteOrderAppend(w, kept, lab, b);
    KeptOrMoved(w, rfs, co, |co|);
    assert co[..|co|] == co;
    assert multiset(co)[lab] == 0;
    assert multiset(moved)[lab] == 0;
    ByteOrderElements(w, moved, b, lab);
    PredecessorBetween(ByteOrder(w, kept, b), lab, ByteOrder(w, moved, b));
    ByteIsRead(w, rfs, co, b);
    if Reads(rfs, b)[0].Init? {
      NoneKeptOnInit(w, rfs, co, b, |co|);
    } else {
      var j :| 0 <= j < |co| && co[j] == Reads(rfs, b)[0].write;
      LastKeptIsSource(w, rfs, co, b, j, |co|);
    }
  }

  // ----- the order of the new bucket

  /** An old store goes behind the RMW's write if it overlaps a part that was read from
      initialization or from a store before it, and stays in front otherwise. */
  lemma BehindIff(w: Word, rfs: Rfs, co: seq<Event>, lab: Event, e: Event)
    requires Distinct(co) && lab !in co && e in co
    ensures Precedes(Placed(w, rfs, co, lab), lab, e) <==> exists p ::
      && p in rfs && e in w.stores && Overlap(p.access, w.stores[e].access)
      && (p.from.Init? || Precedes(co, p.from.write, e))
    ensures Precedes(Placed(w, rfs, co, lab), e, lab) <==> !Precedes(Placed(w, rfs, co, lab), lab, e)
  {
    hide Overtaken, Kept, Moved, Distinct;
    var i :| 0 <= i < |co| && co[i] == e;
    OvertakenIff(w, rfs, co, i);
    PlacedSplits(w, rfs, co, lab, i);
  }

  lemma OvertakenIff(w: Word, rfs: Rfs, co: seq<Event>, i: nat)
    requires Distinct(co) && i < |co|
    ensures Overtaken(w, rfs, co, i) <==> exists p ::
      && p in rfs && co[i] in w.stores && Overlap(p.access, w.stores[co[i]].access)
      && (p.from.Init? || Precedes(co, p.from.write, co[i]))
  {
    forall s ensures Earlier(co, i, s) <==> s.Init? || Precedes(co, s.write, co[i]) { EarlierIff(co, i, s); }
    hide Earlier, Precedes;
    if Overtaken(w, rfs, co, i) {
      var k :| 0 <= k < |rfs| && PartOverlaps(w, rfs[k], co[i]) && Earlier(co, i, rfs[k].from);
      assert rfs[k] in rfs;
    }
    if p :| p in rfs && co[i] in w.stores && Overlap(p.access, w.stores[co[i]].access) && Earlier(co, i, p.from) {
      var k :| 0 <= k < |rfs| && rfs[k] == p;
      assert PartOverlaps(w, rfs[k], co[i]);
    }
  }

  lemma EarlierIff(co: seq<Event>, i: nat, s: Source)
    requires Distinct(co) && i < |co|
    ensures Earlier(co, i, s) <==> s.Init? || Precedes(co, s.write, co[i])
  {
    if s.FromWrite? && s.write in co[..i] {
      var h :| 0 <= h < i && co[..i][h] == s.write;
      assert co[h] == s.write;
    }
    if s.FromWrite? && Precedes(co, s.write, co[i]) {
      var h, j :| 0 <= h < j < |co| && co[h] == s.write && co[j] == co[i];
      assert co[..i][h] == s.write;
    }
  }

  lemma PlacedDistinct(w: Word, rfs: Rfs, co: seq<Event>, lab: Event)
    requires Distinct(co) && lab !in co
    ensures Distinct(Placed(w, rfs, co, lab))
  {
    hide Kept, Moved;
    NothingLost(w, rfs, co, lab);
    assert multiset(co + [lab]) == multiset(Placed(w, rfs, co, lab));
    assert Distinct(co + [lab]);
    DistinctArrangement(co + [lab], Placed(w, rfs, co, lab));
  }

  lemma PlacedSplits(w: Word, rfs: Rfs, co: seq<Event>, lab: Event, i: nat)
    requires Distinct(co) && lab !in co && i < |co|
    ensures var placed := Placed(w, rfs, co, lab);
      && (Precedes(placed, lab, co[i]) <==> Overtaken(w, rfs, co, i))
      && (Precedes(placed, co[i], lab) <==> !Overtaken(w, rfs, co, i))
  {
    hide Overtaken, Kept, Moved, Distinct, Precedes;
    var kept, moved := Kept(w, rfs, co, |co|), Moved(w, rfs, co, |co|);
    PlacedDistinct(w, rfs, co, lab);
    WhereOvertaken(w, rfs, co, i, |co|);
    if Overtaken(w, rfs, co, i) {
      InHalves([lab], moved, lab, co[i]);
      InFrontOf(kept, [lab] + moved, lab, co[i]);
      assert Placed(w, rfs, co, lab) == kept + ([lab] + moved);
      PrecedesOneWay(Placed(w, rfs, co, lab), lab, co[i]);
    } else {
      InHalves(kept, [lab], co[i], lab);
      PrecedesInLonger(kept + [lab], moved, co[i], lab);
      PrecedesOneWay(Placed(w, rfs, co, lab), co[i], lab);
    }
  }

  lemma InHalves(l: seq<Event>, m: seq<Event>, d: Event, e: Event)
    requires d in l && e in m
    ensures Precedes(l + m, d, e)
  {
    var i :| 0 <= i < |l| && l[i] == d;
    var j :| 0 <= j < |m| && m[j] == e;
    assert (l + m)[i] == d && (l + m)[|l| + j] == e;
  }

  lemma InFrontOf(l: seq<Event>, m: seq<Event>, d: Event, e: Event)
    requires Precedes(m, d, e)
    ensures Precedes(l + m, d, e)
  {
    var i, j :| 0 <= i < j < |m| && m[i] == d && m[j] == e;
    assert (l + m)[|l| + i] == d && (l + m)[|l| + j] == e;
  }

  /** Old stores on the same side of the RMW's write keep their order. */
  lemma PlacedOrder(w: Word, rfs: Rfs, co: seq<Event>, lab: Event, d: Event, e: Event)
    requires Distinct(co) && lab !in co && d in co && e in co && d != e
    ensures var placed := Placed(w, rfs, co, lab);
      Precedes(placed, d, e)
      <==> if Precedes(placed, lab, d) == Precedes(placed, lab, e) then Precedes(co, d, e) else Precedes(placed, lab, e)
  {
    hide Overtaken, Kept, Moved, Distinct, Precedes;
    var i :| 0 <= i < |co| && co[i] == d;
    var j :| 0 <= j < |co| && co[j] == e;
    PlacedSplits(w, rfs, co, lab, i);
    PlacedSplits(w, rfs, co, lab, j);
    PlacedDistinct(w, rfs, co, lab);
    if i < j { InOrder(w, rfs, co, lab, i, j); } else { InOrder(w, rfs, co, lab, j, i); }
  }

  lemma InOrder(w: Word, rfs: Rfs, co: seq<Event>, lab: Event, i: nat, j: nat)
    requires Distinct(co) && lab !in co && i < j < |co|
    ensures var placed := Placed(w, rfs, co, lab);
      && Precedes(co, co[i], co[j]) && !Precedes(co, co[j], co[i])
      && (Precedes(placed, co[i], co[j]) <==> !Overtaken(w, rfs, co, i) || Overtaken(w, rfs, co, j))
      && (Precedes(placed, co[j], co[i]) <==> Overtaken(w, rfs, co, i) && !Overtaken(w, rfs, co, j))
  {
    hide Overtaken, Kept, Moved, Distinct;
    var kept, moved := Kept(w, rfs, co, |co|), Moved(w, rfs, co, |co|);
    var placed := Placed(w, rfs, co, lab);
    PlacedDistinct(w, rfs, co, lab);
    assert Precedes(co, co[i], co[j]);
    PrecedesOneWay(co, co[i], co[j]);
    WhereOvertaken(w, rfs, co, i, |co|);
    WhereOvertaken(w, rfs, co, j, |co|);
    hide Precedes;
    if Overtaken(w, rfs, co, i) && !Overtaken(w, rfs, co, j) {
      InHalves(kept + [lab], moved, co[j], co[i]);
      PrecedesOneWay(placed, co[j], co[i]);
    } else {
      if Overtaken(w, rfs, co, i) {
        SameSide(w, rfs, co, i, j, |co|);
        InFrontOf(kept + [lab], moved, co[i], co[j]);
      } else if Overtaken(w, rfs, co, j) {
        InHalves(kept + [lab], moved, co[i], co[j]);
      } else {
        SameSide(w, rfs, co, i, j, |co|);
        PrecedesInLonger(kept, [lab], co[i], co[j]);
        PrecedesInLonger(kept + [lab], moved, co[i], co[j]);
      }
      PrecedesOneWay(placed, co[i], co[j]);
    }
  }

  lemma {:induction false} SameSide(w: Word, rfs: Rfs, co: seq<Event>, i: nat, j: nat, n: nat)
    requires i < j < n <= |co| && Overtaken(w, rfs, co, i) == Overtaken(w, rfs, co, j)
    ensures Precedes(if Overtaken(w, rfs, co, i) then Moved(w, rfs, co, n) else Kept(w, rfs, co, n), co[i], co[j])
  {
    hide Overtaken, Kept, Moved, Precedes;
    KeptStep(w, rfs, co, n);
    if j < n - 1 {
      SameSide(w, rfs, co, i, j, n - 1);
      var last := [co[n - 1]];
      assert Moved(w, rfs, co, n - 1) + [] == Moved(w, rfs, co, n - 1)
        && Kept(w, rfs, co, n - 1) + [] == Kept(w, rfs, co, n - 1);
      if Overtaken(w, rfs, co, i) {
        PrecedesInLonger(Moved(w, rfs, co, n - 1), if Overtaken(w, rfs, co, n - 1) then last else [], co[i], co[j]);
      } else {
        PrecedesInLonger(Kept(w, rfs, co, n - 1), if Overtaken(w, rfs, co, n - 1) then [] else last, co[i], co[j]);
      }
    } else {
      WhereOvertaken(w, rfs, co, i, n - 1);
      InHalves(if Overtaken(w, rfs, co, i) then Moved(w, rfs, co, n - 1) else Kept(w, rfs, co, n - 1),
               [co[j]], co[i], co[j]);
    }
  }

  // ----- when the old stores keep their order

  /** A store that goes after the RMW's write, though a later one does not. */
  ghost predicate ChangePlaces(w: Word, rfs: Rfs, co: seq<Event>, i: int, j: int) {
    0 <= i < j < |co| && Overtaken(w, rfs, co, i) && !Overtaken(w, rfs, co, j)
  }

  /** The old stores in their new order. */
  function Others(w: Word, rfs: Rfs, co: seq<Event>, n: nat): seq<Event>
    requires n <= |co|
  {
    Kept(w, rfs, co, n) + Moved(w, rfs, co, n)
  }

  /** On the first n stores, byte b's order is the old one if no two stores to it change places. */
  lemma {:induction false} ByteOrderKept(w: Word, rfs: Rfs, co: seq<Event>, b: nat, n: nat)
    requires n <= |co|
    requires forall i, j {:trigger ChangePlaces(w, rfs, co, i, j)} ::
      0 <= i < j < n && StoreCovers(w, co[i], b) && StoreCovers(w, co[j], b) ==> !ChangePlaces(w, rfs, co, i, j)
    ensures ByteOrder(w, Kept(w, rfs, co, n), b) + ByteOrder(w, Moved(w, rfs, co, n), b) == ByteOrder(w, co[..n], b)
  {
    hide Overtaken, StoreCovers, ByteOrder, Kept, Moved, ChangePlaces;
    if n == 0 {
      NoneByte(w, rfs, co, b);
      ByteOrderOfNone(w, b);
    } else {
      ByteOrderKept(w, rfs, co, b, n - 1);
      KeptByte(w, rfs, co, b, n);
      assert co[..n] == co[..n - 1] + [co[n - 1]];
      ByteOrderAppend(w, co[..n - 1], co[n - 1], b);
      if StoreCovers(w, co[n - 1], b) && !Overtaken(w, rfs, co, n - 1) {
        NoneMovedBefore(w, rfs, co, b, n - 1, n - 1);
      }
    }
  }

  lemma {:induction false} NoneMovedBefore(w: Word, rfs: Rfs, co: seq<Event>, b: nat, j: nat, n: nat)
    requires n <= j < |co| && !Overtaken(w, rfs, co, j)
    requires forall i {:trigger ChangePlaces(w, rfs, co, i, j)} ::
      0 <= i < j && StoreCovers(w, co[i], b) ==> !ChangePlaces(w, rfs, co, i, j)
    ensures ByteOrder(w, Moved(w, rfs, co, n), b) == []
  {
    hide Overtaken, StoreCovers, ByteOrder, Kept, Moved;
    if n == 0 {
      NoneByte(w, rfs, co, b);
    } else {
      KeptByte(w, rfs, co, b, n);
      NoneMovedBefore(w, rfs, co, b, j, n - 1);
      assert StoreCovers(w, co[n - 1], b) ==> !ChangePlaces(w, rfs, co, n - 1, j);
    }
  }

  lemma {:induction false} WhereOvertaken(w: Word, rfs: Rfs, co: seq<Event>, i: nat, n: nat)
    requires i < n <= |co|
    ensures if Overtaken(w, rfs, co, i) then co[i] in Moved(w, rfs, co, n) else co[i] in Kept(w, rfs, co, n)
  {
    hide Overtaken;
    if i < n - 1 { WhereOvertaken(w, rfs, co, i, n - 1); }
  }

  /** The new bucket without the new store consists of the others. */
  lemma WithoutNew(w: Word, rfs: Rfs, co: seq<Event>, lab: Event, k: nat)
    requires lab !in co && k < |Placed(w, rfs, co, lab)| && Placed(w, rfs, co, lab)[k] == lab
    ensures Without(Placed(w, rfs, co, lab), k) == Others(w, rfs, co, |co|)
  {
    hide Kept, Moved;
    KeptOrMoved(w, rfs, co, |co|);
    assert co[..|co|] == co;
    var kept, moved := Kept(w, rfs, co, |co|), Moved(w, rfs, co, |co|);
    assert multiset(kept)[lab] + multiset(moved)[lab] == multiset(co)[lab] == 0;
    assert lab !in kept && lab !in moved;
    OnlyPlace(kept, lab, moved, k);
  }

  lemma OnlyPlace(l: seq<Event>, e: Event, m: seq<Event>, k: nat)
    requires e !in l && e !in m && k < |l + [e] + m| && (l + [e] + m)[k] == e
    ensures k == |l|
  {
  }

  /** The placement keeps the old stores' order on every byte if and only if no two
      overlapping stores change places: none is sent behind the RMW's write while a later
      one that overlaps it stays in front. */
  lemma OrderKeptIff(w: Word, rfs: Rfs, co: seq<Event>, lab: Event, k: nat)
    requires StoresOf(w, co) && Distinct(co) && lab !in co
    requires k < |Placed(w, rfs, co, lab)| && Placed(w, rfs, co, lab)[k] == lab
    ensures SameByteOrders(w, Without(Placed(w, rfs, co, lab), k), co)
      <==> (forall i, j :: ChangePlaces(w, rfs, co, i, j) ==> !StoresOverlap(w, co[i], co[j]))
  {
    hide Overtaken, Kept, Moved, StoresOverlap, SameByteOrders, Placed;
    WithoutNew(w, rfs, co, lab, k);
    OthersKeepOrder(w, rfs, co);
  }

  lemma OthersKeepOrder(w: Word, rfs: Rfs, co: seq<Event>)
    requires StoresOf(w, co) && Distinct(co)
    ensures SameByteOrders(w, Others(w, rfs, co, |co|), co)
      <==> (forall i, j :: ChangePlaces(w, rfs, co, i, j) ==> !StoresOverlap(w, co[i], co[j]))
  {
    hide Overtaken, StoreCovers, ByteOrder, Kept, Moved, StoresOverlap;
    var n := |co|;
    var others := Others(w, rfs, co, n);
    assert co[..n] == co;
    if forall i, j :: ChangePlaces(w, rfs, co, i, j) ==> !StoresOverlap(w, co[i], co[j]) {
      forall b | 0 <= b < WORD_BYTES ensures ByteOrder(w, others, b) == ByteOrder(w, co, b) {
        forall i, j {:trigger ChangePlaces(w, rfs, co, i, j)} | 0 <= i < j < n && StoreCovers(w, co[i], b)
          && StoreCovers(w, co[j], b)
          ensures !ChangePlaces(w, rfs, co, i, j)
        {
          OverlapIffByte(w, co[i], co[j]);
        }
        ByteOrderConcat(w, Kept(w, rfs, co, n), Moved(w, rfs, co, n), b);
        ByteOrderKept(w, rfs, co, b, n);
      }
    }
    if i, j :| ChangePlaces(w, rfs, co, i, j) && StoresOverlap(w, co[i], co[j]) {
      OrderLost(w, rfs, co, i, j);
    }
  }

  lemma OrderLost(w: Word, rfs: Rfs, co: seq<Event>, i: nat, j: nat)
    requires StoresOf(w, co) && Distinct(co) && ChangePlaces(w, rfs, co, i, j) && StoresOverlap(w, co[i], co[j])
    ensures !SameByteOrders(w, Others(w, rfs, co, |co|), co)
  {
    hide Overtaken, StoreCovers, ByteOrder, Kept, Moved, SameByteOrders;
    var kept, moved := Kept(w, rfs, co, |co|), Moved(w, rfs, co, |co|);
    WhereOvertaken(w, rfs, co, i, |co|);
    WhereOvertaken(w, rfs, co, j, |co|);
    var p :| 0 <= p < |kept| && kept[p] == co[j];
    var q :| 0 <= q < |moved| && moved[q] == co[i];
    assert (kept + moved)[p] == co[j] && (kept + moved)[|kept| + q] == co[i];
    assert Precedes(kept + moved, co[j], co[i]) && Precedes(co, co[i], co[j]);
    KeptOrMoved(w, rfs, co, |co|);
    assert co[..|co|] == co;
    assert multiset(kept + moved) == multiset(co);
    DistinctArrangement(co, kept + moved);
    SameElements(w, co, kept + moved);
    if SameByteOrders(w, kept + moved, co) {
      SameOrdersAgree(w, kept + moved, co, co[j], co[i]);
    }
  }

  lemma SameElements(w: Word, co: seq<Event>, l: seq<Event>)
    requires StoresOf(w, co) && multiset(l) == multiset(co)
    ensures StoresOf(w, l)
  {
    forall e <- l ensures e in co { assert e in multiset(l); assert e in multiset(co); }
  }

  lemma EarlierLater(co: seq<Event>, i: nat, j: nat, s: Source)
    requires i <= j <= |co| && Earlier(co, i, s)
    ensures Earlier(co, j, s)
  {
    assert co[..i] == co[..j][..i];
  }

  /** If all stores have the same access, a store behind an overtaken one is overtaken. */
  lemma OvertakenStays(w: Word, rfs: Rfs, co: seq<Event>, i: nat, j: nat)
    requires i < j < |co| && co[i] in w.stores && co[j] in w.stores && w.stores[co[i]].access == w.stores[co[j]].access
    requires Overtaken(w, rfs, co, i)
    ensures Overtaken(w, rfs, co, j)
  {
    hide Earlier;
    var k :| 0 <= k < |rfs| && PartOverlaps(w, rfs[k], co[i]) && Earlier(co, i, rfs[k].from);
    EarlierLater(co, i, j, rfs[k].from);
    assert PartOverlaps(w, rfs[k], co[j]);
  }

  /** With same-sized accesses, as without mixed sizes, the RMW's write is just inserted. */
  lemma SameAccessInserts(w: Word, rfs: Rfs, co: seq<Event>, access: Access, lab: Event, k: nat)
    requires lab !in co && forall e <- co :: e in w.stores && w.stores[e].access == access
    requires k < |Placed(w, rfs, co, lab)| && Placed(w, rfs, co, lab)[k] == lab
    ensures Without(Placed(w, rfs, co, lab), k) == co
  {
    hide Overtaken, Kept, Moved, Placed;
    WithoutNew(w, rfs, co, lab, k);
    SameAccessKeeps(w, rfs, co, access, |co|);
    assert co[..|co|] == co;
  }

  lemma {:induction false} SameAccessKeeps(w: Word, rfs: Rfs, co: seq<Event>, access: Access, n: nat)
    requires n <= |co| && forall e <- co :: e in w.stores && w.stores[e].access == access
    ensures Others(w, rfs, co, n) == co[..n]
  {
    hide Overtaken, Kept, Moved;
    if n == 0 {
      NoneKept(w, rfs, co);
    } else {
      SameAccessKeeps(w, rfs, co, access, n - 1);
      KeptStep(w, rfs, co, n);
      assert co[..n] == co[..n - 1] + [co[n - 1]];
      if !Overtaken(w, rfs, co, n - 1) { NoneMoved(w, rfs, co, access, n - 1, n - 1); }
    }
  }

  lemma {:induction false} NoneMoved(w: Word, rfs: Rfs, co: seq<Event>, access: Access, j: nat, n: nat)
    requires n <= j < |co| && !Overtaken(w, rfs, co, j)
      && forall e <- co :: e in w.stores && w.stores[e].access == access
    ensures Moved(w, rfs, co, n) == []
  {
    hide Overtaken, Kept, Moved;
    if n == 0 {
      NoneKept(w, rfs, co);
    } else {
      KeptStep(w, rfs, co, n);
      NoneMoved(w, rfs, co, access, j, n - 1);
      if Overtaken(w, rfs, co, n - 1) { OvertakenStays(w, rfs, co, n - 1, j); }
    }
  }
}
