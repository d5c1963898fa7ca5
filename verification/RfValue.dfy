/** The value a load gets from its rf list (src/GenMCDriver.cpp, src/EventLabel.hpp). */
module RfValue {
  import opened Events
  import opened Lists
  import opened MixedAccess
  import opened WordValues
  import opened RfOptions
  import opened RfExact

  /** The part of a store's value that lies in access a, which must be inside the store's. */
  function SizedValAtOffset(st: Store, a: Access): bv64
    requires InWord(st.access) && InWord(a) && Covers(st.access, a.first)
  {
    Both(Right(st.val, a.first - st.access.first), Mask(a.size))
  }

  /** A part can be read: it lies in the word, and its store covers it. */
  ghost predicate Readable(w: Word, p: Part) {
    && InWord(p.access) && Known(w, p.from)
    && (p.from.FromWrite? ==> InWord(w.stores[p.from.write].access))
    && forall b {:trigger Covers(p.access, b)} :: Covers(p.access, b) ==> CoversByte(w, p.from, b)
  }

  ghost predicate Fits(w: Word, o: Rfs, access: Access) {
    forall i {:trigger o[i]} :: 0 <= i < |o| ==> Readable(w, o[i]) && access.first <= o[i].access.first
  }

  /** getWriteValue for one element of an rf list. */
  function PartValue(w: Word, p: Part): bv64
    requires Readable(w, p)
  {
    assert Covers(p.access, p.access.first);
    if p.from.Init? then Both(Right(w.init, p.access.first), Mask(p.access.size))
    else SizedValAtOffset(w.stores[p.from.write], p.access)
  }

  /** The parts from the n-th on, put together. */
  function ValueFrom(w: Word, o: Rfs, access: Access): bv64
    requires Fits(w, o, access)
  {
    if o == [] then ZERO
    else
      assert Fits(w, o[..|o| - 1], access);
      Either(ValueFrom(w, o[..|o| - 1], access), Left(PartValue(w, o[|o| - 1]), o[|o| - 1].access.first - access.first))
  }

  method GetWriteValue(w: Word, o: Rfs, access: Access) returns (val: bv64)
    requires Fits(w, o, access)
    ensures val == ValueFrom(w, o, access)
  {
    hide Right, Left, Either, Both, Readable;
    val := ZERO;
    assert o[..0] == [];
    for i := 0 to |o|
      invariant Fits(w, o[..i], access) && val == ValueFrom(w, o[..i], access)
    {
      assert o[..i + 1][..i] == o[..i];
      assert Fits(w, o[..i + 1], access);
      val := Either(val, Left(PartValue(w, o[i]), o[i].access.first - access.first));
    }
    assert o[..|o|] == o;
  }

  // ----- byte by byte

  /** The byte that a source holds at offset b of the word. */
  function ByteAt(w: Word, s: Source, b: nat): bv64
    requires Known(w, s) && CoversByte(w, s, b)
  {
    if s.Init? then ByteOf(w.init, b) else ByteOf(w.stores[s.write].val, b - w.stores[s.write].access.first)
  }

  lemma PartValueByte(w: Word, p: Part, j: nat)
    requires Readable(w, p)
    ensures j < p.access.size ==> Known(w, p.from) && CoversByte(w, p.from, p.access.first + j)
    ensures ByteOf(PartValue(w, p), j) == if j < p.access.size then ByteAt(w, p.from, p.access.first + j) else ZERO
  {
    hide ByteOf, Right, Both, Mask;
    assert Covers(p.access, p.access.first);
    assert j < p.access.size ==> Covers(p.access, p.access.first + j);
    if p.from.Init? {
      ByteOfMasked(Right(w.init, p.access.first), p.access.size, j);
      ByteOfRight(w.init, p.access.first, j);
    } else {
      var st := w.stores[p.from.write];
      var d := p.access.first - st.access.first;
      ByteOfMasked(Right(st.val, d), p.access.size, j);
      ByteOfRight(st.val, d, j);
    }
  }

  lemma PartByte(w: Word, p: Part, access: Access, k: nat)
    requires Readable(w, p) && access.first <= p.access.first && k < WORD_BYTES
    ensures Covers(p.access, access.first + k) ==> Known(w, p.from) && CoversByte(w, p.from, access.first + k)
    ensures ByteOf(Left(PartValue(w, p), p.access.first - access.first), k)
      == if Covers(p.access, access.first + k) then ByteAt(w, p.from, access.first + k) else ZERO
  {
    hide ByteOf, Left, PartValue, Readable, ByteAt, CoversByte, Known;
    var n := p.access.first - access.first;
    ByteOfLeft(PartValue(w, p), n, k);
    if k >= n { PartValueByte(w, p, k - n); }
  }

  lemma {:induction false} ReadsLast(o: Rfs, b: nat)
    requires o != []
    ensures Reads(o, b) == Reads(o[..|o| - 1], b) + (if Covers(o[|o| - 1].access, b) then [o[|o| - 1].from] else [])
  {
    assert o == o[..|o| - 1] + [o[|o| - 1]];
    ReadsConcat(o[..|o| - 1], [o[|o| - 1]], b);
  }

  /** Each byte of the value is the byte of the one store it is read from; bytes that are
      not read are zero. */
  lemma {:induction false} ValueByte(w: Word, o: Rfs, access: Access, k: nat)
    requires Fits(w, o, access) && k < WORD_BYTES && |Reads(o, access.first + k)| <= 1
    ensures var r := Reads(o, access.first + k);
      && (r == [] ==> ByteOf(ValueFrom(w, o, access), k) == ZERO)
      && (r != [] ==>
        && Known(w, r[0]) && CoversByte(w, r[0], access.first + k)
        && ByteOf(ValueFrom(w, o, access), k) == ByteAt(w, r[0], access.first + k))
    decreases |o|
  {
    hide ByteOf, Either, Left, Right, Reads, PartValue;
    if o == [] {
      RightOfZero(k);
      NoReads(access.first + k);
    } else {
      var last := o[|o| - 1];
      var before := o[..|o| - 1];
      assert Fits(w, before, access);
      ReadsLast(o, access.first + k);
      ValueByte(w, before, access, k);
      PartByte(w, last, access, k);
      ByteOfEither(ValueFrom(w, before, access), Left(PartValue(w, last), last.access.first - access.first), k);
      EitherZero(ValueFrom(w, before, access), Left(PartValue(w, last), last.access.first - access.first), k);
    }
  }

  lemma EitherZero(u: bv64, v: bv64, k: nat)
    ensures Either(ByteOf(u, k), ZERO) == ByteOf(u, k) && Either(ZERO, ByteOf(v, k)) == ByteOf(v, k)
  {
  }

  lemma NoReads(b: nat)
    ensures Reads([], b) == []
  {
  }

  // ----- the options of a load can be read

  lemma {:induction false} PartsAt(s: Source, accesses: seq<Access>, i: nat)
    requires i < |accesses|
    ensures Parts(s, accesses)[i] == Part(s, accesses[i])
  {
    if i > 0 { PartsAt(s, accesses[1..], i - 1); }
  }

  lemma OwnFits(w: Word, stores: seq<Source>, c: Choice, access: Access, i: nat)
    requires WellFormed(w) && InWord(access) && AllKnown(w, stores) && |c| == |stores| && i < |stores|
    ensures Fits(w, Own(w, stores, c, Fragment(access), i), access)
  {
    hide Runs, Shadowed, Parts;
    var supply := Supply(w, stores, c, Fragment(access), i);
    if c[i] {
      forall j | 0 <= j < |Runs(supply, 0)|
        ensures var p := Parts(stores[i], Runs(supply, 0))[j]; Readable(w, p) && access.first <= p.access.first
      {
        PartsAt(stores[i], Runs(supply, 0), j);
        RunsAreMaximal(supply, 0, j);
        var r := Runs(supply, 0)[j];
        assert Covers(r, r.first);
        assert r.first in supply && r.first in Fragment(access);
        assert stores[i] in stores;
        forall b {:trigger Covers(r, b)} | Covers(r, b) ensures CoversByte(w, stores[i], b) { assert b in supply; }
      }
    }
  }

  lemma FitsConcat(w: Word, o: Rfs, p: Rfs, access: Access)
    requires Fits(w, o, access) && Fits(w, p, access)
    ensures Fits(w, o + p, access)
  {
    hide Readable;
  }

  lemma {:induction false} CollectFits(w: Word, stores: seq<Source>, c: Choice, access: Access, n: nat)
    requires WellFormed(w) && InWord(access) && AllKnown(w, stores) && |c| == |stores| && n <= |stores|
    ensures Fits(w, Collect(w, stores, c, Fragment(access), n), access)
  {
    hide Fits, Own;
    if n > 0 {
      CollectFits(w, stores, c, access, n - 1);
      OwnFits(w, stores, c, access, n - 1);
      FitsConcat(w, Own(w, stores, c, Fragment(access), n - 1), Collect(w, stores, c, Fragment(access), n - 1), access);
    } else {
      EmptyFits(w, access);
    }
  }

  lemma EmptyFits(w: Word, access: Access)
    ensures Fits(w, [], access)
  {
  }

  /** Every option of a load can be read. */
  lemma OptionFits(w: Word, before: (Event, Access) -> bool, stores: seq<Source>, access: Access, mustUse: set<Source>,
                   o: Rfs)
    requires WellFormed(w) && InWord(access) && AllKnown(w, stores)
    requires o in Options(w, before, stores, [], Fragment(access), mustUse)
    ensures Fits(w, o, access)
  {
    hide Fits, Allowed, Collect, Options;
    var c := OptionIsChoice(w, before, stores, [], Fragment(access), mustUse, o);
    LengthOfChoice(w, before, stores, Fragment(access), mustUse, c);
    CollectFits(w, stores, c, access, |stores|);
    assert o == RfOf(w, stores, c, Fragment(access));
  }

  // ----- the first option of the enumeration, which is the last one in the result

  function All(n: nat): (c: Choice)
    ensures |c| == n
  {
    if n == 0 then [] else All(n - 1) + [true]
  }

  /** The store latest in coherence that covers a byte. */
  ghost function LatestOf(w: Word, stores: seq<Source>, b: nat): seq<Source>
    requires AllKnown(w, stores)
  {
    Latest(w, stores, All(|stores|), b)
  }

  lemma LatestOfStep(w: Word, stores: seq<Source>, b: nat)
    requires AllKnown(w, stores) && stores != []
    ensures var n := |stores| - 1;
      LatestOf(w, stores, b) == if CoversByte(w, stores[n], b) then [stores[n]] else LatestOf(w, stores[..n], b)
  {
    assert All(|stores|)[..|stores| - 1] == All(|stores| - 1);
  }

  lemma AtMostOneLatest(w: Word, stores: seq<Source>, b: nat)
    requires AllKnown(w, stores)
    ensures |LatestOf(w, stores, b)| <= 1
  {
    LatestIsOneOf(w, stores, All(|stores|), b);
  }

  /** Nothing is filtered out. */
  ghost predicate NoFilter(before: (Event, Access) -> bool) {
    forall e, a :: !before(e, a)
  }

  lemma NoFilterPasses(w: Word, before: (Event, Access) -> bool, s: Source, f: set<nat>)
    requires NoFilter(before)
    ensures Passes(w, before, s, f)
  {
  }

  /** Without a filter there is a first option, and it reads each byte from the store
      latest in coherence. */
  lemma {:induction false} FirstReadsLatest(w: Word, before: (Event, Access) -> bool, stores: seq<Source>, current: Rfs,
                                            f: set<nat>, b: nat)
    requires AllKnown(w, stores) && NoFilter(before) && stores != [] && stores[0] == Init
    requires b < WORD_BYTES
    ensures var options := Options(w, before, stores, current, f, {});
      options != [] && Reads(options[0], b) == Reads(current, b) + if b in f then LatestOf(w, stores, b) else []
    decreases |stores|
  {
    hide Passes, OverlapWith, Parts, Runs, NoFilter, Reads, LatestOf, CoversByte;
    if f != {} {
      var n := |stores| - 1;
      var s := stores[n];
      var overlap := OverlapWith(w, s, f);
      LatestOfStep(w, stores, b);
      assert stores[..n] != [] ==> stores[..n][0] == Init;
      if overlap != {} {
        NoFilterPasses(w, before, s, overlap);
        var parts := Parts(s, Runs(overlap, 0));
        RunsPartition(overlap, 0, b);
        ReadsParts(s, Runs(overlap, 0), b);
        ReadsConcat(current, parts, b);
        var none: set<Source> := {};
        assert none - {s} == none;
        if n > 0 {
          FirstReadsLatest(w, before, stores[..n], current + parts, f - overlap, b);
        } else {
          InitCoversAll(w, f);
          assert f - overlap == {};
          OptionsOfNothing(w, before, stores[..n], current + parts);
          assert CoversByte(w, s, b);
        }
      } else {
        InitCoversAll(w, f);
        FirstReadsLatest(w, before, stores[..n], current, f, b);
        OptionsStep(w, before, stores, current, f, {});
        assert b in f ==> b !in overlap;
      }
    }
  }

  lemma OptionsOfNothing(w: Word, before: (Event, Access) -> bool, stores: seq<Source>, current: Rfs)
    requires AllKnown(w, stores)
    ensures Options(w, before, stores, current, {}, {}) == [current]
  {
  }

  lemma InitCoversAll(w: Word, f: set<nat>)
    ensures OverlapWith(w, Init, f) == f
    ensures forall b {:trigger CoversByte(w, Init, b)} :: CoversByte(w, Init, b)
  {
  }

  // ----- memory

  /** The word's memory as bytes, after the store has written its own. */
  function StoreBytes(mem: seq<bv64>, st: Store, n: nat): (r: seq<bv64>)
    requires |mem| == WORD_BYTES && InWord(st.access) && n <= st.access.size
    ensures |r| == WORD_BYTES
  {
    if n == 0 then mem else StoreBytes(mem, st, n - 1)[st.access.first + n - 1 := ByteOf(st.val, n - 1)]
  }

  function InitialBytes(init: bv64, n: nat): (r: seq<bv64>)
    ensures |r| == n
  {
    if n == 0 then [] else InitialBytes(init, n - 1) + [ByteOf(init, n - 1)]
  }

  /** Replays stores in coherence order on the word's initial bytes. */
  function Replay(w: Word, co: seq<Event>): (r: seq<bv64>)
    requires forall e <- co :: e in w.stores && InWord(w.stores[e].access)
    ensures |r| == WORD_BYTES
  {
    if co == [] then InitialBytes(w.init, WORD_BYTES)
    else
      var st := w.stores[co[|co| - 1]];
      StoreBytes(Replay(w, co[..|co| - 1]), st, st.access.size)
  }

  lemma {:induction false} StoreBytesAt(mem: seq<bv64>, st: Store, n: nat, b: nat)
    requires |mem| == WORD_BYTES && InWord(st.access) && n <= st.access.size && b < WORD_BYTES
    ensures StoreBytes(mem, st, n)[b]
      == if st.access.first <= b < st.access.first + n then ByteOf(st.val, b - st.access.first) else mem[b]
  {
    hide ByteOf;
    if n > 0 { StoreBytesAt(mem, st, n - 1, b); }
  }

  lemma {:induction false} InitialBytesAt(init: bv64, n: nat, b: nat)
    requires b < n
    ensures InitialBytes(init, n)[b] == ByteOf(init, b)
  {
    hide ByteOf;
    if b < n - 1 { InitialBytesAt(init, n - 1, b); }
  }

  // ----- which stores a load can choose from

  function Overlapping(w: Word, co: seq<Event>, access: Access): seq<Source>
    requires forall e <- co :: e in w.stores
  {
    if co == [] then []
    else
      var e := co[|co| - 1];
      Overlapping(w, co[..|co| - 1], access) + if Overlap(w.stores[e].access, access) then [FromWrite(e)] else []
  }

  /** Initialization, and then the stores that overlap the access, in coherence order. */
  function CoherentStores(w: Word, co: seq<Event>, access: Access): seq<Source>
    requires forall e <- co :: e in w.stores
  {
    [Init] + Overlapping(w, co, access)
  }

  lemma {:induction false} CoherentStoresKnown(w: Word, co: seq<Event>, access: Access)
    requires forall e <- co :: e in w.stores && e in w.co
    ensures AllKnown(w, CoherentStores(w, co, access))
  {
    if co != [] { CoherentStoresKnown(w, co[..|co| - 1], access); }
  }

  /** The latest store that covers a byte of the access holds what memory has there. */
  lemma {:induction false} LatestIsMemory(w: Word, co: seq<Event>, access: Access, b: nat)
    requires forall e <- co :: e in w.stores && e in w.co && InWord(w.stores[e].access)
    requires InWord(access) && Covers(access, b)
    ensures AllKnown(w, CoherentStores(w, co, access))
    ensures var l := LatestOf(w, CoherentStores(w, co, access), b);
      l != [] && Known(w, l[0]) && CoversByte(w, l[0], b) && ByteAt(w, l[0], b) == Replay(w, co)[b]
  {
    hide ByteOf, LatestOf;
    CoherentStoresKnown(w, co, access);
    var stores := CoherentStores(w, co, access);
    var n := |stores| - 1;
    if co == [] {
      LatestOfStep(w, stores, b);
      InitialBytesAt(w.init, WORD_BYTES, b);
    } else {
      var e := co[|co| - 1];
      var st := w.stores[e];
      var before := CoherentStores(w, co[..|co| - 1], access);
      LatestIsMemory(w, co[..|co| - 1], access, b);
      StoreBytesAt(Replay(w, co[..|co| - 1]), st, st.access.size, b);
      if Overlap(st.access, access) {
        assert stores == before + [FromWrite(e)];
        assert stores[..n] == before;
        LatestOfStep(w, stores, b);
      } else {
        assert stores == before;
      }
    }
  }

  // ----- main results

  /** With no filter and no store that must be used, the option that handleLoad installs
      (the last one) gives the value of replaying all stores in coherence order onto the
      initial bytes and reading the access. */
  lemma InstalledValueIsMemory(w: Word, before: (Event, Access) -> bool, access: Access)
    requires WellFormed(w) && InWord(access) && NoFilter(before)
    ensures var stores := CoherentStores(w, w.co, access);
      AllKnown(w, stores) &&
      var options := Reversed(Options(w, before, stores, [], Fragment(access), {}));
      options != [] &&
      var installed := options[|options| - 1];
      Fits(w, installed, access) &&
      ValueFrom(w, installed, access) == WordOf(Replay(w, w.co)[access.first..access.first + access.size])
  {
    hide ByteOf, ValueFrom, Replay, Options, LatestOf, Fits, Reads, CoherentStores, WordOf;
    CoherentStoresKnown(w, w.co, access);
    var stores := CoherentStores(w, w.co, access);
    StartsWithInit(w, w.co, access);
    var options := Options(w, before, stores, [], Fragment(access), {});
    FirstReadsLatest(w, before, stores, [], Fragment(access), 0);
    OptionFits(w, before, stores, access, {}, options[0]);
    forall k | 0 <= k < WORD_BYTES
      ensures ByteOf(ValueFrom(w, options[0], access), k)
        == if k < access.size then Replay(w, w.co)[access.first + k] else ZERO
    {
      InstalledByte(w, before, access, options[0], k);
    }
    OnlyWord(w, access, ValueFrom(w, options[0], access));
  }

  /** A word whose bytes are those of the accessed memory is that memory's word. */
  lemma OnlyWord(w: Word, access: Access, value: bv64)
    requires WellFormed(w) && InWord(access)
    requires forall k: nat ::
      k < WORD_BYTES ==> ByteOf(value, k) == if k < access.size then Replay(w, w.co)[access.first + k] else ZERO
    ensures value == WordOf(Replay(w, w.co)[access.first..access.first + access.size])
  {
    hide ByteOf, Replay, WordOf, IsByte;
    var bytes := Replay(w, w.co)[access.first..access.first + access.size];
    ReplayBytes(w, w.co);
    forall b | b in bytes ensures IsByte(b) {
      var i :| 0 <= i < |bytes| && bytes[i] == b;
      assert b == Replay(w, w.co)[access.first + i];
    }
    forall k: nat | k < WORD_BYTES ensures ByteOf(value, k) == ByteOf(WordOf(bytes), k) { ByteOfWord(bytes, k); }
    SameBytes(value, WordOf(bytes));
  }

  /** Memory consists of bytes. */
  lemma {:induction false} ReplayBytes(w: Word, co: seq<Event>)
    requires forall e <- co :: e in w.stores && InWord(w.stores[e].access)
    ensures forall i :: 0 <= i < WORD_BYTES ==> IsByte(Replay(w, co)[i])
  {
    hide ByteOf, IsByte;
    if co != [] { ReplayBytes(w, co[..|co| - 1]); }
    forall i | 0 <= i < WORD_BYTES ensures IsByte(Replay(w, co)[i]) {
      if co == [] {
        InitialBytesAt(w.init, WORD_BYTES, i);
        ByteIsByte(w.init, i);
      } else {
        var st := w.stores[co[|co| - 1]];
        StoreBytesAt(Replay(w, co[..|co| - 1]), st, st.access.size, i);
        if Covers(st.access, i) { ByteIsByte(st.val, i - st.access.first); }
      }
    }
  }

  lemma ByteIsByte(v: bv64, k: nat)
    ensures IsByte(ByteOf(v, k))
  {
    hide Low, Right, IsByte;
    LowIsByte(Right(v, k));
  }

  lemma {:induction false} NothingOutsideWord(w: Word, o: Rfs, access: Access, b: nat)
    requires Fits(w, o, access) && b >= WORD_BYTES
    ensures Reads(o, b) == []
  {
    if o != [] {
      var rest := o[1..];
      assert forall i {:trigger rest[i]} :: 0 <= i < |rest| ==> rest[i] == o[i + 1];
      NothingOutsideWord(w, rest, access, b);
      assert Readable(w, o[0]);
    }
  }

  lemma InstalledByte(w: Word, before: (Event, Access) -> bool, access: Access, o: Rfs, k: nat)
    requires WellFormed(w) && InWord(access) && NoFilter(before) && k < WORD_BYTES
    requires var stores := CoherentStores(w, w.co, access);
      AllKnown(w, stores) && Fits(w, o, access) &&
      var options := Options(w, before, stores, [], Fragment(access), {});
      options != [] && o == options[0]
    ensures ByteOf(ValueFrom(w, o, access), k) == if k < access.size then Replay(w, w.co)[access.first + k] else ZERO
  {
    hide ByteOf, ValueFrom, Replay, Options, LatestOf, Fits, Reads, CoherentStores;
    var stores := CoherentStores(w, w.co, access);
    var b := access.first + k;
    StartsWithInit(w, w.co, access);
    if b < WORD_BYTES {
      FirstReadsLatest(w, before, stores, [], Fragment(access), b);
      NoReads(b);
    } else {
      NothingOutsideWord(w, o, access, b);
    }
    if k < access.size {
      LatestIsMemory(w, w.co, access, b);
      AtMostOneLatest(w, stores, b);
    }
    ValueByte(w, o, access, k);
  }

  lemma StartsWithInit(w: Word, co: seq<Event>, access: Access)
    requires forall e <- co :: e in w.stores
    ensures CoherentStores(w, co, access) != [] && CoherentStores(w, co, access)[0] == Init
  {
  }
}
