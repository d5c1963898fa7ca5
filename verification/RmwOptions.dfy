/** Every rf option of a load is one that the placement of an RMW works for. */
module RmwOptions {
  import opened Events
  import opened Lists
  import opened MixedAccess
  import opened RfOptions
  import opened RfExact
  import opened RfValue
  import opened Coherence
  import opened RmwPlacement
  import opened RmwExact

  lemma {:induction false} PartIsRead(o: Rfs, k: nat, b: nat)
    requires k < |o| && Covers(o[k].access, b)
    ensures o[k].from in Reads(o, b)
  {
    if k > 0 { PartIsRead(o[1..], k - 1, b); }
  }

  /** A chosen store hides the stores before it. */
  lemma {:induction false} LatestNotBefore(w: Word, stores: seq<Source>, c: Choice, p: nat, b: nat) returns (q: nat)
    requires AllKnown(w, stores) && |c| == |stores| && p < |stores| && c[p] && CoversByte(w, stores[p], b)
    ensures p <= q < |stores| && c[q] && Latest(w, stores, c, b) == [stores[q]]
    decreases |stores|
  {
    hide CoversByte;
    var n := |stores| - 1;
    q := n;
    if !(c[n] && CoversByte(w, stores[n], b)) { q := LatestNotBefore(w, stores[..n], c[..n], p, b); }
  }

  lemma {:induction false} LatestIsChosen(w: Word, stores: seq<Source>, c: Choice, b: nat) returns (q: nat)
    requires AllKnown(w, stores) && |c| == |stores| && Latest(w, stores, c, b) != []
    ensures q < |stores| && c[q] && CoversByte(w, stores[q], b) && Latest(w, stores, c, b) == [stores[q]]
    decreases |stores|
  {
    hide CoversByte;
    var n := |stores| - 1;
    q := n;
    if !(c[n] && CoversByte(w, stores[n], b)) { q := LatestIsChosen(w, stores[..n], c[..n], b); }
  }

  /** The stores a load can choose from are in coherence order. */
  lemma {:induction false} CoherentOrder(w: Word, co: seq<Event>, access: Access, q: nat) returns (j: nat)
    requires forall e <- co :: e in w.stores
    requires 0 < q < |CoherentStores(w, co, access)|
    ensures j < |co| && CoherentStores(w, co, access)[q] == FromWrite(co[j])
    ensures forall p {:trigger CoherentStores(w, co, access)[p]} :: 0 < p <= q ==>
      exists i :: 0 <= i <= j && CoherentStores(w, co, access)[p] == FromWrite(co[i])
    decreases |co|
  {
    var n := |co| - 1;
    var before := CoherentStores(w, co[..n], access);
    var stores := CoherentStores(w, co, access);
    assert forall p {:trigger stores[p]} :: 0 <= p < |before| ==> stores[p] == before[p];
    if q < |before| {
      j := CoherentOrder(w, co[..n], access, q);
    } else {
      j := n;
      forall p {:trigger stores[p]} | 0 < p <= q
        ensures exists i :: 0 <= i <= j && stores[p] == FromWrite(co[i])
      {
        if p < |before| { var i := CoherentOrder(w, co[..n], access, p); }
      }
    }
  }

  /** A store with a part is chosen. */
  lemma SourceIsChosen(w: Word, stores: seq<Source>, c: Choice, f: set<nat>, k: nat) returns (p: nat)
    requires AllKnown(w, stores) && |c| == |stores|
    requires k < |RfOf(w, stores, c, f)| && InWord(RfOf(w, stores, c, f)[k].access)
    ensures p < |stores| && c[p] && stores[p] == RfOf(w, stores, c, f)[k].from
  {
    hide RfOf, Reads, Latest;
    var o := RfOf(w, stores, c, f);
    var b := o[k].access.first;
    PartIsRead(o, k, b);
    ReadsLatest(w, stores, c, f, b);
    p := LatestIsChosen(w, stores, c, b);
  }

  /** No store of a choice is overtaken by what is read from it. */
  lemma ChoiceNotOvertaken(w: Word, c: Choice, access: Access, i: nat, k: nat)
    requires WellFormed(w) && InWord(access) && |c| == |CoherentStores(w, w.co, access)|
    requires AllKnown(w, CoherentStores(w, w.co, access))
    requires var o := RfOf(w, CoherentStores(w, w.co, access), c, Fragment(access));
      Fits(w, o, access) && i < |w.co| && k < |o| && o[k].from == FromWrite(w.co[i])
    ensures !Overtaken(w, RfOf(w, CoherentStores(w, w.co, access), c, Fragment(access)), w.co, i)
  {
    hide RfOf, Reads, Latest, CoherentStores;
    var stores := CoherentStores(w, w.co, access);
    var o := RfOf(w, stores, c, Fragment(access));
    StartsWithInit(w, w.co, access);
    assert Readable(w, o[k]);
    var p := SourceIsChosen(w, stores, c, Fragment(access), k);
    if m :| 0 <= m < |o| && PartOverlaps(w, o[m], w.co[i]) && Earlier(w.co, i, o[m].from) {
      assert Readable(w, o[m]);
      OverlapIffCommonByte(o[m].access, w.stores[w.co[i]].access);
      var b :| Covers(o[m].access, b) && Covers(w.stores[w.co[i]].access, b);
      PartIsRead(o, m, b);
      ReadsLatest(w, stores, c, Fragment(access), b);
      var q := LatestNotBefore(w, stores, c, p, b);
      assert o[m].from == stores[q];
      NotEarlier(w, access, i, p, q);
    }
  }

  lemma NotEarlier(w: Word, access: Access, i: nat, p: nat, q: nat)
    requires WellFormed(w) && i < |w.co| && p <= q < |CoherentStores(w, w.co, access)|
    requires CoherentStores(w, w.co, access)[p] == FromWrite(w.co[i])
    ensures !Earlier(w.co, i, CoherentStores(w, w.co, access)[q])
  {
    hide CoherentStores;
    var stores := CoherentStores(w, w.co, access);
    StartsWithInit(w, w.co, access);
    var j := CoherentOrder(w, w.co, access, q);
    assert stores[p] == FromWrite(w.co[i]);
    assert w.co[j] !in w.co[..i];
  }

  /** Every rf option of a load can be used to place an RMW's write. */
  lemma OptionsJustified(w: Word, before: (Event, Access) -> bool, access: Access, mustUse: set<Source>, o: Rfs)
    requires WellFormed(w) && InWord(access) && AllKnown(w, CoherentStores(w, w.co, access))
    requires o in Options(w, before, CoherentStores(w, w.co, access), [], Fragment(access), mustUse)
    ensures Justified(w, o, w.co)
    ensures forall b {:trigger Covers(access, b)} :: Covers(access, b) ==> ReadsByte(w, o, w.co, b)
  {
    hide Options, RfOf, Fits, Allowed, CoherentStores, Overtaken, Reads, Latest, ReadsByte;
    var stores := CoherentStores(w, w.co, access);
    var f := Fragment(access);
    var c := OptionIsChoice(w, before, stores, [], f, mustUse, o);
    LengthOfChoice(w, before, stores, f, mustUse, c);
    assert o == RfOf(w, stores, c, f);
    OptionFits(w, before, stores, access, mustUse, o);
    forall i, k {:trigger w.co[i], o[k]} | 0 <= i < |w.co| && 0 <= k < |o| && o[k].from == FromWrite(w.co[i])
      ensures !Overtaken(w, o, w.co, i)
    {
      ChoiceNotOvertaken(w, c, access, i, k);
    }
    forall b {:trigger Covers(access, b)} | Covers(access, b)
      ensures ReadsByte(w, o, w.co, b)
    {
      ReadsItsByte(w, before, access, mustUse, c, b);
    }
  }

  lemma ReadsItsByte(w: Word, before: (Event, Access) -> bool, access: Access, mustUse: set<Source>, c: Choice, b: nat)
    requires WellFormed(w) && InWord(access) && Covers(access, b)
    requires var stores := CoherentStores(w, w.co, access);
      AllKnown(w, stores) && |c| == |stores| && Allowed(w, before, stores, Fragment(access), mustUse, c)
    ensures ReadsByte(w, RfOf(w, CoherentStores(w, w.co, access), c, Fragment(access)), w.co, b)
  {
    hide RfOf, Reads, Latest, CoherentStores, Passes, Supply;
    var stores := CoherentStores(w, w.co, access);
    ReadsLatest(w, stores, c, Fragment(access), b);
    assert Shadowed(w, stores, c, -1, b);
    var j :| 0 <= j < |stores| && c[j] && CoversByte(w, stores[j], b);
    var q := LatestNotBefore(w, stores, c, j, b);
    var q' := LatestIsChosen(w, stores, c, b);
    assert stores[q'] in stores;
  }

  /** Cutting the graph before the revisit leaves the rf list usable: the order of the
      stores that remain is the same. */
  lemma JustifiedInPart(w: Word, rfs: Rfs, co: seq<Event>, part: seq<Event>)
    requires Distinct(co) && Justified(w, rfs, co)
    requires forall e <- part :: e in co
    requires forall d, e :: Precedes(part, d, e) ==> Precedes(co, d, e)
    ensures Justified(w, rfs, part)
    ensures (forall k :: 0 <= k < |rfs| && rfs[k].from.FromWrite? ==> rfs[k].from.write in part)
      ==> forall b {:trigger ReadsByte(w, rfs, part, b)} :: ReadsByte(w, rfs, co, b) ==> ReadsByte(w, rfs, part, b)
  {
    if forall k :: 0 <= k < |rfs| && rfs[k].from.FromWrite? ==> rfs[k].from.write in part {
      forall b {:trigger ReadsByte(w, rfs, part, b)} | ReadsByte(w, rfs, co, b) ensures ReadsByte(w, rfs, part, b) {
        var k := PartReading(rfs, b);
      }
    }
    forall i, k {:trigger part[i], rfs[k]} | 0 <= i < |part| && 0 <= k < |rfs| && rfs[k].from == FromWrite(part[i])
      ensures !Overtaken(w, rfs, part, i)
    {
      assert part[i] in part;
      var j :| 0 <= j < |co| && co[j] == part[i];
      assert !Overtaken(w, rfs, co, j) by { assert co[j] == co[j]; }
      if m :| 0 <= m < |rfs| && PartOverlaps(w, rfs[m], part[i]) && Earlier(part, i, rfs[m].from) {
        StillEarlier(co, part, i, j, rfs[m].from);
      }
    }
  }

  lemma StillEarlier(co: seq<Event>, part: seq<Event>, i: nat, j: nat, s: Source)
    requires Distinct(co) && i < |part| && j < |co| && co[j] == part[i] && Earlier(part, i, s)
    requires forall d, e :: Precedes(part, d, e) ==> Precedes(co, d, e)
    ensures Earlier(co, j, s)
  {
    if s.FromWrite? {
      var h :| 0 <= h < i && part[h] == s.write;
      assert Precedes(part, part[h], part[i]);
      var x, y :| 0 <= x < y < |co| && co[x] == part[h] && co[y] == part[i];
      assert co[..j][x] == s.write;
    }
  }

  // ----- the old stores can change places

  /** The runs of one byte. */
  lemma OneByte(b: nat)
    requires b < WORD_BYTES
    ensures Runs({b}, 0) == [Access(b, 1)]
  {
    RunsOfByte(b, 0);
  }

  lemma {:induction false} RunsOfByte(b: nat, lo: nat)
    requires lo <= b < WORD_BYTES
    ensures Runs({b}, lo) == [Access(b, 1)]
    decreases b - lo
  {
    if lo < b {
      RunsOfByte(b, lo + 1);
    } else {
      RunLengthFrom({b}, b);
      RunLengthFrom({b}, b + 1);
      RunsFrom({b}, b);
      NoRuns(b, b + 1);
    }
  }

  lemma {:induction false} NoRuns(b: nat, lo: nat)
    requires b < lo
    ensures Runs({b}, lo) == []
    decreases WORD_BYTES - lo
  {
    if lo < WORD_BYTES { NoRuns(b, lo + 1); }
  }

  lemma InitReadsRest(w: Word, before: (Event, Access) -> bool, current: Rfs, left: set<nat>, o: Rfs)
    requires NoFilter(before) && left != {} && o == current + Parts(Init, Runs(left, 0))
    ensures AllKnown(w, [Init]) && o in Options(w, before, [Init], current, left, {})
  {
    hide Passes, NoFilter, OverlapWith, Runs, Parts;
    var none: set<Source> := {};
    var stores: seq<Source> := [Init];
    NoFilterPasses(w, before, Init, left);
    InitCoversAll(w, left);
    assert left - left == {} && none - {Init} == none && stores[..0] == [];
    OptionsOfNothing(w, before, [], o);
  }

  /** Reading byte 1 from the last of three sources, skipping the second and reading byte 0
      from the first is one of the options. */
  lemma SkippingIsOption(w: Word, before: (Event, Access) -> bool, stores: seq<Source>, f: set<nat>)
    requires NoFilter(before) && AllKnown(w, stores) && |stores| == 3 && stores[0] == Init
    requires f == {0, 1} && OverlapWith(w, stores[2], f) == {1}
    ensures [Part(stores[2], Access(1, 1)), Part(Init, Access(0, 1))] in Options(w, before, stores, [], f, {})
  {
    hide Passes, NoFilter, OverlapWith, Runs, Options;
    OneByte(0);
    OneByte(1);
    var none: set<Source> := {};
    var rest := stores[..2];
    var first := stores[..1];
    assert rest[..1] == first;
    NoFilterPasses(w, before, stores[2], {1});
    NoFilterPasses(w, before, Init, {0});
    InitCoversAll(w, {0});
    var current := [Part(stores[2], Access(1, 1))];
    assert Parts(stores[2], [Access(1, 1)]) == current;
    assert Parts(Init, [Access(0, 1)]) == [Part(Init, Access(0, 1))];
    assert f - {1} == {0} && none - {stores[2]} == none && none - {Init} == none;
    var left: set<nat> := {0};
    assert left - {0} == {};
    var o := current + [Part(Init, Access(0, 1))];
    InitReadsRest(w, before, current, left, o);
    assert first == [Init];
    OptionsStep(w, before, rest, current, left, none);
    assert o in Options(w, before, rest, current, left, none);
    assert [] + current == current;
    OptionsStep(w, before, stores, [], f, none);
    assert Taking(w, before, stores, [], f, none) == Options(w, before, rest, current, left, none);
    assert 0 in f && f != {};
    assert o == [Part(stores[2], Access(1, 1)), Part(Init, Access(0, 1))];
  }

  lemma ByEnumeration(w: Word, before: (Event, Access) -> bool, s: Event, t: Event)
    requires NoFilter(before) && s != t
    requires w == Word([s, t], map[s := Store(Access(0, 2), 0, false), t := Store(Access(1, 1), 0, false)], 0)
    ensures AllKnown(w, CoherentStores(w, w.co, Access(0, 2)))
    ensures [Part(FromWrite(t), Access(1, 1)), Part(Init, Access(0, 1))]
      in Options(w, before, CoherentStores(w, w.co, Access(0, 2)), [], Fragment(Access(0, 2)), {})
  {
    hide Options, NoFilter;
    assert w.co[..1] == [s] && [s][..0] == [];
    assert Overlapping(w, [], Access(0, 2)) == [];
    assert Overlapping(w, [s], Access(0, 2)) == [FromWrite(s)];
    assert Overlapping(w, w.co, Access(0, 2)) == [FromWrite(s), FromWrite(t)];
    var stores := CoherentStores(w, w.co, Access(0, 2));
    assert stores == [Init, FromWrite(s), FromWrite(t)];
    CoherentStoresKnown(w, w.co, Access(0, 2));
    assert Fragment(Access(0, 2)) == {0, 1};
    assert OverlapWith(w, FromWrite(t), {0, 1}) == {1};
    SkippingIsOption(w, before, stores, {0, 1});
  }

  /** s writes bytes 0 and 1, t is later and writes byte 1; the RMW accesses both bytes and
      reads byte 0 from initialization and byte 1 from t. */
  lemma OldOrderCanChange(before: (Event, Access) -> bool) returns (w: Word, rfs: Rfs, lab: Event)
    requires NoFilter(before)
    ensures WellFormed(w) && Justified(w, rfs, w.co) && lab !in w.co
    ensures AllKnown(w, CoherentStores(w, w.co, Access(0, 2)))
    ensures rfs in Options(w, before, CoherentStores(w, w.co, Access(0, 2)), [], Fragment(Access(0, 2)), {})
    ensures forall b :: 0 <= b < 2 ==> ReadsByte(w, rfs, w.co, b)
    ensures forall k :: 0 <= k < |Placed(w, rfs, w.co, lab)| && Placed(w, rfs, w.co, lab)[k] == lab ==>
      !SameByteOrders(w, Without(Placed(w, rfs, w.co, lab), k), w.co)
  {
    var s, t := Event(1, 1), Event(2, 1);
    lab := Event(3, 2);
    w := Word([s, t], map[s := Store(Access(0, 2), 0, false), t := Store(Access(1, 1), 0, false)], 0);
    rfs := [Part(FromWrite(t), Access(1, 1)), Part(Init, Access(0, 1))];
    ByEnumeration(w, before, s, t);
    hide Options, CoherentStores, Justified, ReadsByte;
    OptionsJustified(w, before, Access(0, 2), {}, rfs);
    forall b | 0 <= b < 2 ensures ReadsByte(w, rfs, w.co, b) { assert Covers(Access(0, 2), b); }
    PlacesChange(w, s, t, rfs);
    hide Placed, SameByteOrders;
    forall k: nat | k < |Placed(w, rfs, w.co, lab)| && Placed(w, rfs, w.co, lab)[k] == lab
      ensures Without(Placed(w, rfs, w.co, lab), k) == Others(w, rfs, w.co, |w.co|)
    {
      WithoutNew(w, rfs, w.co, lab, k);
    }
  }

  lemma PlacesChange(w: Word, s: Event, t: Event, rfs: Rfs)
    requires s != t
    requires w == Word([s, t], map[s := Store(Access(0, 2), 0, false), t := Store(Access(1, 1), 0, false)], 0)
    requires rfs == [Part(FromWrite(t), Access(1, 1)), Part(Init, Access(0, 1))]
    ensures !SameByteOrders(w, Others(w, rfs, w.co, |w.co|), w.co)
  {
    hide SameByteOrders, Kept, Moved;
    assert PartOverlaps(w, rfs[1], w.co[0]) && Overtaken(w, rfs, w.co, 0);
    assert !Overtaken(w, rfs, w.co, 1);
    assert StoresOverlap(w, s, t);
    assert ChangePlaces(w, rfs, w.co, 0, 1);
    OthersKeepOrder(w, rfs, w.co);
  }
}
