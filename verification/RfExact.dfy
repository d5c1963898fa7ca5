/** The rf options of a load are those of the allowed choices of stores, each once. */
module RfExact {
  import opened Events
  import opened Lists
  import opened MixedAccess
  import opened RfOptions
  import opened Coherence

  // A choice of stores is allowed if it covers the load, contains the stores that must be
  // used, uses each of its stores and reads nothing hidden. Its option reads each byte from
  // the chosen store that is latest in coherence.

  /** Which of the stores are chosen. */
  type Choice = seq<bool>

  ghost predicate AllKnown(w: Word, stores: seq<Source>) {
    forall s <- stores :: Known(w, s)
  }

  /** A chosen store after position i covers the byte. */
  ghost predicate Shadowed(w: Word, stores: seq<Source>, c: Choice, i: int, b: nat)
    requires AllKnown(w, stores) && |c| == |stores|
  {
    exists j {:trigger stores[j]} :: 0 <= j < |stores| && i < j && c[j] && CoversByte(w, stores[j], b)
  }

  /** Store i is the latest chosen store that covers the byte. */
  ghost predicate Supplies(w: Word, stores: seq<Source>, c: Choice, i: nat, b: nat)
    requires AllKnown(w, stores) && |c| == |stores| && i < |stores|
  {
    c[i] && CoversByte(w, stores[i], b) && !Shadowed(w, stores, c, i, b)
  }

  /** The bytes of f for which that is so. */
  ghost function Supply(w: Word, stores: seq<Source>, c: Choice, f: set<nat>, i: nat): set<nat>
    requires AllKnown(w, stores) && |c| == |stores| && i < |stores|
  {
    set b <- f | Supplies(w, stores, c, i, b)
  }

  ghost predicate Allowed(w: Word, before: (Event, Access) -> bool, stores: seq<Source>, f: set<nat>,
                          mustUse: set<Source>, c: Choice)
    requires AllKnown(w, stores)
  {
    && |c| == |stores|
    && (forall b <- f :: Shadowed(w, stores, c, -1, b))
    && (forall s <- mustUse :: Uses(stores, c, s))
    && (forall i {:trigger SuppliesWell(w, before, stores, c, f, i)} ::
          0 <= i < |stores| ==> SuppliesWell(w, before, stores, c, f, i))
  }

  /** A chosen store supplies some byte, and the load can read what it supplies: no later
      store that happens before the load overlaps a maximal run of the bytes supplied. */
  ghost predicate SuppliesWell(w: Word, before: (Event, Access) -> bool, stores: seq<Source>, c: Choice, f: set<nat>,
                               i: nat)
    requires AllKnown(w, stores) && |c| == |stores| && i < |stores|
  {
    c[i] ==>
      && Supply(w, stores, c, f, i) != {}
      && forall e, a {:trigger before(e, a)} ::
          && e in w.co && (stores[i].Init? || Precedes(w.co, stores[i].write, e))
          && MaximalRun(Supply(w, stores, c, f, i), a) && e in w.stores && Overlap(w.stores[e].access, a)
          ==> !before(e, a)
  }

  /** The stores after s in coherence order; all of them are after initialization. */
  lemma {:induction false} AfterIff(co: seq<Event>, s: Source, e: Event)
    requires s.Init? || s.write in co
    ensures e in After(co, s) <==> e in co && (s.Init? || Precedes(co, s.write, e))
    decreases |co|
  {
    if s.FromWrite? {
      assert co == [co[0]] + co[1..];
      if co[0] == s.write {
        if e in co[1..] {
          var j :| 0 <= j < |co[1..]| && co[1..][j] == e;
          assert co[0] == s.write && co[j + 1] == e;
        }
        if Precedes(co, s.write, e) {
          var i, j :| 0 <= i < j < |co| && co[i] == s.write && co[j] == e;
          assert co[1..][j - 1] == e;
        }
      } else {
        AfterIff(co[1..], s, e);
        if Precedes(co, s.write, e) {
          var i, j :| 0 <= i < j < |co| && co[i] == s.write && co[j] == e;
          assert co[1..][i - 1] == s.write && co[1..][j - 1] == e;
        }
        if Precedes(co[1..], s.write, e) { PrecedesInLater(co, s.write, e); }
      }
    }
  }

  lemma PrecedesInLater(co: seq<Event>, d: Event, e: Event)
    requires co != [] && Precedes(co[1..], d, e)
    ensures Precedes(co, d, e)
  {
    var i, j :| 0 <= i < j < |co[1..]| && co[1..][i] == d && co[1..][j] == e;
    assert co[i + 1] == d && co[j + 1] == e;
  }

  /** A source passes the filter exactly if no store after it in coherence that happens
      before the load overlaps a maximal run of the bytes to be read from it. */
  lemma PassesIff(w: Word, before: (Event, Access) -> bool, s: Source, f: set<nat>)
    requires Known(w, s)
    ensures Passes(w, before, s, f) <==>
      !exists e, a {:trigger before(e, a)} ::
        && e in w.co && (s.Init? || Precedes(w.co, s.write, e))
        && MaximalRun(f, a) && e in w.stores && Overlap(w.stores[e].access, a) && before(e, a)
  {
    hide Runs, After, MaximalRun, Precedes;
    var runs, later := Runs(f, 0), After(w.co, s);
    forall e ensures e in later <==> e in w.co && (s.Init? || Precedes(w.co, s.write, e)) { AfterIff(w.co, s, e); }
    forall a ensures a in runs <==> MaximalRun(f, a) { RunsExact(f, 0, a); }
    if e, a :| e in later && a in runs && e in w.stores && Overlap(w.stores[e].access, a) && before(e, a) {
      var i :| 0 <= i < |runs| && runs[i] == a;
      var j :| 0 <= j < |later| && later[j] == e;
      assert HiddenBy(w, before, later[j], a) && Hidden(w, before, later, runs[i]);
    }
    if i :| 0 <= i < |runs| && Hidden(w, before, later, runs[i]) {
      var j :| 0 <= j < |later| && HiddenBy(w, before, later[j], runs[i]);
      assert later[j] in later && runs[i] in runs && before(later[j], runs[i]);
    }
  }

  ghost predicate Uses(stores: seq<Source>, c: Choice, s: Source)
    requires |c| == |stores|
  {
    exists i :: 0 <= i < |stores| && c[i] && stores[i] == s
  }

  /** The option of a choice: the parts of the chosen stores, latest first. */
  ghost function RfOf(w: Word, stores: seq<Source>, c: Choice, f: set<nat>): Rfs
    requires AllKnown(w, stores) && |c| == |stores|
  {
    Collect(w, stores, c, f, |stores|)
  }

  ghost function Collect(w: Word, stores: seq<Source>, c: Choice, f: set<nat>, n: nat): Rfs
    requires AllKnown(w, stores) && |c| == |stores| && n <= |stores|
  {
    if n == 0 then []
    else Own(w, stores, c, f, n - 1) + Collect(w, stores, c, f, n - 1)
  }

  ghost function Own(w: Word, stores: seq<Source>, c: Choice, f: set<nat>, i: nat): Rfs
    requires AllKnown(w, stores) && |c| == |stores| && i < |stores|
  {
    if c[i] then Parts(stores[i], Runs(Supply(w, stores, c, f, i), 0)) else []
  }

  // ----- one step of the enumeration is one step of the choice

  lemma ShadowedStep(w: Word, stores: seq<Source>, c: Choice, i: int, b: nat)
    requires AllKnown(w, stores) && |c| == |stores| > 0 && i < |stores| - 1
    ensures var n := |stores| - 1;
      Shadowed(w, stores, c, i, b)
      <==> (c[n] && CoversByte(w, stores[n], b)) || Shadowed(w, stores[..n], c[..n], i, b)
  {
    hide CoversByte;
    var n := |stores| - 1;
    var rest := stores[..n];
    if j :| 0 <= j < |stores| && i < j && c[j] && CoversByte(w, stores[j], b) {
      assert j < n ==> rest[j] == stores[j];
    }
    if j :| 0 <= j < |rest| && i < j && c[..n][j] && CoversByte(w, rest[j], b) {
      assert stores[j] == rest[j];
    }
  }

  /** Taking the last store leaves the others the bytes it does not cover. */
  lemma SupplyStep(w: Word, stores: seq<Source>, c: Choice, f: set<nat>, i: nat)
    requires AllKnown(w, stores) && |c| == |stores| > 0 && i < |stores| - 1
    ensures var n := |stores| - 1;
      Supply(w, stores, c, f, i)
      == Supply(w, stores[..n], c[..n], if c[n] then f - OverlapWith(w, stores[n], f) else f, i)
  {
    hide Shadowed, CoversByte;
    var n := |stores| - 1;
    var left := if c[n] then f - OverlapWith(w, stores[n], f) else f;
    forall b | b in f
      ensures Supplies(w, stores, c, i, b) <==> b in left && Supplies(w, stores[..n], c[..n], i, b)
    {
      ShadowedStep(w, stores, c, i, b);
    }
  }

  lemma SupplyOfLast(w: Word, stores: seq<Source>, c: Choice, f: set<nat>)
    requires AllKnown(w, stores) && |c| == |stores| > 0 && c[|stores| - 1]
    ensures Supply(w, stores, c, f, |stores| - 1) == OverlapWith(w, stores[|stores| - 1], f)
  {
  }

  lemma OwnStep(w: Word, stores: seq<Source>, c: Choice, f: set<nat>, left: set<nat>, i: nat)
    requires AllKnown(w, stores) && |c| == |stores| > 0 && i < |stores| - 1
    requires left == if c[|stores| - 1] then f - OverlapWith(w, stores[|stores| - 1], f) else f
    ensures Own(w, stores, c, f, i) == Own(w, stores[..|stores| - 1], c[..|stores| - 1], left, i)
  {
    hide Supply, OverlapWith, Runs;
    SupplyStep(w, stores, c, f, i);
  }

  lemma {:induction false} CollectStep(w: Word, stores: seq<Source>, c: Choice, f: set<nat>, left: set<nat>, k: nat)
    requires AllKnown(w, stores) && |c| == |stores| > 0 && k < |stores|
    requires left == if c[|stores| - 1] then f - OverlapWith(w, stores[|stores| - 1], f) else f
    ensures Collect(w, stores, c, f, k) == Collect(w, stores[..|stores| - 1], c[..|stores| - 1], left, k)
  {
    hide Own, OverlapWith;
    if k > 0 {
      CollectStep(w, stores, c, f, left, k - 1);
      OwnStep(w, stores, c, f, left, k - 1);
    }
  }

  lemma RfOfStep(w: Word, stores: seq<Source>, c: Choice, f: set<nat>)
    requires AllKnown(w, stores) && |c| == |stores| > 0
    ensures var n := |stores| - 1;
      var overlap := OverlapWith(w, stores[n], f);
      RfOf(w, stores, c, f)
      == (if c[n] then Parts(stores[n], Runs(overlap, 0)) else [])
         + RfOf(w, stores[..n], c[..n], if c[n] then f - overlap else f)
  {
    hide Supply, OverlapWith, Runs;
    var n := |stores| - 1;
    CollectStep(w, stores, c, f, if c[n] then f - OverlapWith(w, stores[n], f) else f, n);
    if c[|stores| - 1] { SupplyOfLast(w, stores, c, f); }
  }

  lemma UsesStep(stores: seq<Source>, c: Choice, s: Source)
    requires |c| == |stores| > 0
    ensures var n := |stores| - 1;
      Uses(stores, c, s) <==> (c[n] && stores[n] == s) || Uses(stores[..n], c[..n], s)
  {
    var n := |stores| - 1;
    if i :| 0 <= i < |stores| && c[i] && stores[i] == s {
      assert i < n ==> c[..n][i] && stores[..n][i] == s;
    }
    if i :| 0 <= i < n && c[..n][i] && stores[..n][i] == s {
      assert c[i] && stores[i] == s;
    }
  }

  lemma SuppliesWellStep(w: Word, before: (Event, Access) -> bool, stores: seq<Source>, c: Choice, f: set<nat>, i: nat)
    requires AllKnown(w, stores) && |c| == |stores| > 0 && i < |stores| - 1
    ensures var n := |stores| - 1;
      SuppliesWell(w, before, stores, c, f, i)
      == SuppliesWell(w, before, stores[..n], c[..n], if c[n] then f - OverlapWith(w, stores[n], f) else f, i)
  {
    hide Supply, MaximalRun, Precedes;
    SupplyStep(w, stores, c, f, i);
  }

  /** A choice is allowed exactly if its last step is one the enumeration takes and the
      rest is allowed for what is then left. */
  lemma AllowedStep(w: Word, before: (Event, Access) -> bool, stores: seq<Source>, f: set<nat>, mustUse: set<Source>,
                    c: Choice)
    requires AllKnown(w, stores) && |c| == |stores| > 0
    ensures var n := |stores| - 1;
      var overlap := OverlapWith(w, stores[n], f);
      Allowed(w, before, stores, f, mustUse, c) <==>
      if c[n] then
        && overlap != {} && Passes(w, before, stores[n], overlap)
        && Allowed(w, before, stores[..n], f - overlap, mustUse - {stores[n]}, c[..n])
      else Allowed(w, before, stores[..n], f, mustUse, c[..n])
  {
    hide Shadowed, Uses, Supply, Passes, SuppliesWell, CoversByte;
    var n := |stores| - 1;
    var overlap := OverlapWith(w, stores[n], f);
    var left := if c[n] then f - overlap else f;
    var must := if c[n] then mustUse - {stores[n]} else mustUse;
    forall b | b in f
      ensures Shadowed(w, stores, c, -1, b) <==> (b in left ==> Shadowed(w, stores[..n], c[..n], -1, b))
    {
      ShadowedStep(w, stores, c, -1, b);
    }
    forall s | s in mustUse ensures Uses(stores, c, s) <==> (s in must ==> Uses(stores[..n], c[..n], s)) {
      UsesStep(stores, c, s);
    }
    forall i | 0 <= i < n
      ensures SuppliesWell(w, before, stores, c, f, i) == SuppliesWell(w, before, stores[..n], c[..n], left, i)
    {
      SuppliesWellStep(w, before, stores, c, f, i);
    }
    SuppliesWellLast(w, before, stores, c, f);
  }

  lemma SuppliesWellLast(w: Word, before: (Event, Access) -> bool, stores: seq<Source>, c: Choice, f: set<nat>)
    requires AllKnown(w, stores) && |c| == |stores| > 0
    ensures var n := |stores| - 1;
      var overlap := OverlapWith(w, stores[n], f);
      SuppliesWell(w, before, stores, c, f, n) <==> (c[n] ==> overlap != {} && Passes(w, before, stores[n], overlap))
  {
    hide Supply, Passes, OverlapWith, MaximalRun, Precedes;
    var n := |stores| - 1;
    if c[n] {
      SupplyOfLast(w, stores, c, f);
      assert stores[n] in stores;
      PassesIff(w, before, stores[n], Supply(w, stores, c, f, n));
    }
  }

  // ----- the options are the allowed choices

  function Nothing(n: nat): (c: Choice)
    ensures |c| == n
  {
    if n == 0 then [] else Nothing(n - 1) + [false]
  }

  /** Once every byte is read, only the empty choice is left. */
  lemma {:induction false} NothingLeft(w: Word, before: (Event, Access) -> bool, stores: seq<Source>,
                                       mustUse: set<Source>, c: Choice)
    requires AllKnown(w, stores) && |c| == |stores|
    ensures Allowed(w, before, stores, {}, mustUse, c) <==> c == Nothing(|stores|) && mustUse == {}
    ensures Allowed(w, before, stores, {}, mustUse, c) ==> RfOf(w, stores, c, {}) == []
    decreases |stores|
  {
    var f: set<nat> := {};
    if stores == [] {
      NothingToChoose(w, before, stores, f, mustUse, c);
    } else {
      hide Allowed, RfOf, Passes, OverlapWith;
      var n := |stores| - 1;
      AllowedStep(w, before, stores, f, mustUse, c);
      NothingLeft(w, before, stores[..n], mustUse, c[..n]);
      assert c == c[..n] + [c[n]];
      RfOfStep(w, stores, c, f);
    }
  }

  lemma NothingToChoose(w: Word, before: (Event, Access) -> bool, stores: seq<Source>, f: set<nat>,
                        mustUse: set<Source>, c: Choice)
    requires stores == [] && |c| == 0
    ensures Allowed(w, before, stores, f, mustUse, c) <==> f == {} && mustUse == {}
  {
    hide Supply, Passes;
    forall s ensures !Uses(stores, c, s) {}
    forall b ensures !Shadowed(w, stores, c, -1, b) {}
  }

  /** Every option is that of an allowed choice. */
  lemma {:induction false} OptionIsChoice(w: Word, before: (Event, Access) -> bool, stores: seq<Source>, current: Rfs,
                                          f: set<nat>, mustUse: set<Source>, o: Rfs) returns (c: Choice)
    requires AllKnown(w, stores) && o in Options(w, before, stores, current, f, mustUse)
    ensures Allowed(w, before, stores, f, mustUse, c) && o == current + RfOf(w, stores, c, f)
    decreases |stores|
  {
    hide Allowed, RfOf, Passes, OverlapWith, Parts, Runs;
    c := Nothing(|stores|);
    if f == {} {
      NothingLeft(w, before, stores, mustUse, c);
    } else {
      var n := |stores| - 1;
      var s := stores[n];
      var overlap := OverlapWith(w, s, f);
      if o in Taking(w, before, stores, current, f, mustUse) {
        var parts := Parts(s, Runs(overlap, 0));
        var rest := OptionIsChoice(w, before, stores[..n], current + parts, f - overlap, mustUse - {s}, o);
        LengthOfChoice(w, before, stores[..n], f - overlap, mustUse - {s}, rest);
        c := rest + [true];
        assert c[..n] == rest;
        RfOfStep(w, stores, c, f);
        assert o == current + (parts + RfOf(w, stores[..n], rest, f - overlap));
      } else {
        var rest := OptionIsChoice(w, before, stores[..n], current, f, mustUse, o);
        LengthOfChoice(w, before, stores[..n], f, mustUse, rest);
        c := rest + [false];
        assert c[..n] == rest;
        RfOfStep(w, stores, c, f);
      }
      AllowedStep(w, before, stores, f, mustUse, c);
    }
  }

  lemma LengthOfChoice(w: Word, before: (Event, Access) -> bool, stores: seq<Source>, f: set<nat>, mustUse: set<Source>,
                       c: Choice)
    requires AllKnown(w, stores) && Allowed(w, before, stores, f, mustUse, c)
    ensures |c| == |stores|
  {
  }

  /** The option of every allowed choice is there. */
  lemma {:induction false} ChoiceIsOption(w: Word, before: (Event, Access) -> bool, stores: seq<Source>, current: Rfs,
                                          f: set<nat>, mustUse: set<Source>, c: Choice)
    requires AllKnown(w, stores) && |c| == |stores| && Allowed(w, before, stores, f, mustUse, c)
    ensures current + RfOf(w, stores, c, f) in Options(w, before, stores, current, f, mustUse)
    decreases |stores|
  {
    hide Allowed, RfOf, Passes, OverlapWith, Parts, Runs;
    if f == {} {
      NothingLeft(w, before, stores, mustUse, c);
      assert current + RfOf(w, stores, c, f) == current;
    } else if stores == [] {
      NothingToChoose(w, before, stores, f, mustUse, c);
    } else {
      var n := |stores| - 1;
      var s := stores[n];
      var overlap := OverlapWith(w, s, f);
      AllowedStep(w, before, stores, f, mustUse, c);
      RfOfStep(w, stores, c, f);
      if c[n] {
        var parts := Parts(s, Runs(overlap, 0));
        ChoiceIsOption(w, before, stores[..n], current + parts, f - overlap, mustUse - {s}, c[..n]);
        assert current + (parts + RfOf(w, stores[..n], c[..n], f - overlap))
            == current + parts + RfOf(w, stores[..n], c[..n], f - overlap);
      } else {
        ChoiceIsOption(w, before, stores[..n], current, f, mustUse, c[..n]);
        assert current + RfOf(w, stores, c, f) == current + RfOf(w, stores[..n], c[..n], f);
      }
    }
  }

  // ----- which store each byte is read from

  /** The sources of the parts that cover a byte. */
  function Reads(o: Rfs, b: nat): seq<Source> {
    if o == [] then []
    else (if Covers(o[0].access, b) then [o[0].from] else []) + Reads(o[1..], b)
  }

  lemma NothingRead(b: nat)
    ensures Reads([], b) == []
  {
  }

  lemma {:induction false} ReadsConcat(o: Rfs, p: Rfs, b: nat)
    ensures Reads(o + p, b) == Reads(o, b) + Reads(p, b)
  {
    if o == [] {
      assert o + p == p;
    } else {
      hide Covers;
      assert (o + p)[1..] == o[1..] + p;
      ReadsConcat(o[1..], p, b);
      ConcatAssociative(if Covers(o[0].access, b) then [o[0].from] else [], Reads(o[1..], b), Reads(p, b));
    }
  }

  lemma {:induction false} ReadsParts(s: Source, accesses: seq<Access>, b: nat)
    requires TimesCovered(accesses, b) <= 1
    ensures Reads(Parts(s, accesses), b) == if TimesCovered(accesses, b) == 1 then [s] else []
  {
    if accesses != [] {
      assert Parts(s, accesses)[1..] == Parts(s, accesses[1..]);
      ReadsParts(s, accesses[1..], b);
    }
  }

  /** The latest chosen store that covers a byte. */
  ghost function Latest(w: Word, stores: seq<Source>, c: Choice, b: nat): seq<Source>
    requires AllKnown(w, stores) && |c| == |stores|
    decreases |stores|
  {
    if stores == [] then []
    else
      var n := |stores| - 1;
      if c[n] && CoversByte(w, stores[n], b) then [stores[n]] else Latest(w, stores[..n], c[..n], b)
  }

  /** An option reads every byte of the load once, from the latest chosen store that covers
      it, and reads no other byte. */
  lemma {:induction false} ReadsLatest(w: Word, stores: seq<Source>, c: Choice, f: set<nat>, b: nat)
    requires AllKnown(w, stores) && |c| == |stores| && b < WORD_BYTES
    ensures Reads(RfOf(w, stores, c, f), b) == if b in f then Latest(w, stores, c, b) else []
    decreases |stores|
  {
    hide RfOf, Parts, Runs, TimesCovered, CoversByte, Reads;
    if stores == [] {
      EmptyRf(w, stores, c, f);
      NothingRead(b);
    } else {
      var n := |stores| - 1;
      var overlap := OverlapWith(w, stores[n], f);
      RfOfStep(w, stores, c, f);
      if c[n] {
        RunsPartition(overlap, 0, b);
        ReadsParts(stores[n], Runs(overlap, 0), b);
        ReadsConcat(Parts(stores[n], Runs(overlap, 0)), RfOf(w, stores[..n], c[..n], f - overlap), b);
        ReadsLatest(w, stores[..n], c[..n], f - overlap, b);
      } else {
        ReadsLatest(w, stores[..n], c[..n], f, b);
        assert RfOf(w, stores, c, f) == RfOf(w, stores[..n], c[..n], f);
      }
    }
  }

  lemma EmptyRf(w: Word, stores: seq<Source>, c: Choice, f: set<nat>)
    requires AllKnown(w, stores) && |c| == |stores| == 0
    ensures RfOf(w, stores, c, f) == []
  {
  }

  lemma {:induction false} LatestSupplies(w: Word, stores: seq<Source>, c: Choice, i: nat, b: nat)
    requires AllKnown(w, stores) && |c| == |stores| && i < |stores| && Distinct(stores)
    ensures Supplies(w, stores, c, i, b) <==> Latest(w, stores, c, b) == [stores[i]]
    decreases |stores|
  {
    hide CoversByte, Shadowed;
    var n := |stores| - 1;
    if i == n {
      NothingAfterLast(w, stores, c, b);
      LatestIsOneOf(w, stores[..n], c[..n], b);
      assert stores[n] !in stores[..n];
    } else {
      ShadowedStep(w, stores, c, i, b);
      LatestSupplies(w, stores[..n], c[..n], i, b);
    }
  }

  lemma NothingAfterLast(w: Word, stores: seq<Source>, c: Choice, b: nat)
    requires AllKnown(w, stores) && |c| == |stores| > 0
    ensures !Shadowed(w, stores, c, |stores| - 1, b)
  {
  }

  lemma {:induction false} LatestIsOneOf(w: Word, stores: seq<Source>, c: Choice, b: nat)
    requires AllKnown(w, stores) && |c| == |stores|
    ensures |Latest(w, stores, c, b)| <= 1 && forall s <- Latest(w, stores, c, b) :: s in stores
    decreases |stores|
  {
    if stores != [] {
      var n := |stores| - 1;
      LatestIsOneOf(w, stores[..n], c[..n], b);
    }
  }

  /** The bytes' sources determine the choice: it consists of the stores some byte is read from. */
  lemma ChoiceFromReads(w: Word, before: (Event, Access) -> bool, stores: seq<Source>, f: set<nat>,
                        mustUse: set<Source>, c: Choice, i: nat)
    requires AllKnown(w, stores) && |c| == |stores| && i < |stores| && Distinct(stores)
    requires Allowed(w, before, stores, f, mustUse, c) && forall b <- f :: b < WORD_BYTES
    ensures c[i] <==> exists b :: b in f && Reads(RfOf(w, stores, c, f), b) == [stores[i]]
  {
    hide RfOf, Supplies, Shadowed, Passes, Latest;
    forall b | b in f
      ensures Supplies(w, stores, c, i, b) <==> Reads(RfOf(w, stores, c, f), b) == [stores[i]]
    {
      ReadsLatest(w, stores, c, f, b);
      LatestSupplies(w, stores, c, i, b);
    }
    if c[i] {
      assert SuppliesWell(w, before, stores, c, f, i);
      var b :| b in Supply(w, stores, c, f, i);
    } else if b :| b in f && Reads(RfOf(w, stores, c, f), b) == [stores[i]] {
      SuppliesOnlyChosen(w, stores, c, i, b);
    }
  }

  lemma SuppliesOnlyChosen(w: Word, stores: seq<Source>, c: Choice, i: nat, b: nat)
    requires AllKnown(w, stores) && |c| == |stores| && i < |stores|
    ensures Supplies(w, stores, c, i, b) ==> c[i]
  {
  }

  /** Different choices read some byte from different stores. */
  lemma ChoicesDiffer(w: Word, before: (Event, Access) -> bool, stores: seq<Source>, f: set<nat>,
                      mustUse: set<Source>, c: Choice, d: Choice)
    requires AllKnown(w, stores) && Distinct(stores) && forall b <- f :: b < WORD_BYTES
    requires |c| == |stores| && |d| == |stores|
    requires Allowed(w, before, stores, f, mustUse, c) && Allowed(w, before, stores, f, mustUse, d)
    requires forall b <- f :: Reads(RfOf(w, stores, c, f), b) == Reads(RfOf(w, stores, d, f), b)
    ensures c == d
  {
    hide RfOf, Allowed, Reads;
    forall i | 0 <= i < |stores| ensures c[i] == d[i] {
      ChoiceFromReads(w, before, stores, f, mustUse, c, i);
      ChoiceFromReads(w, before, stores, f, mustUse, d, i);
    }
  }

  // ----- no option comes twice

  /** What an option adds starts with a part from one of the stores. */
  lemma {:induction false} StartsWithStore(w: Word, before: (Event, Access) -> bool, stores: seq<Source>, current: Rfs,
                                           f: set<nat>, mustUse: set<Source>, o: Rfs)
    requires AllKnown(w, stores) && f != {} && forall b <- f :: b < WORD_BYTES
    requires o in Options(w, before, stores, current, f, mustUse)
    ensures |current| < |o| && o[|current|].from in stores
    decreases |stores|
  {
    hide Passes, OverlapWith, Parts, Runs;
    var n := |stores| - 1;
    if o in Taking(w, before, stores, current, f, mustUse) {
      StartsWithLast(w, before, stores, current, f, mustUse, o);
    } else {
      StartsWithStore(w, before, stores[..n], current, f, mustUse, o);
    }
  }

  lemma StartsWithLast(w: Word, before: (Event, Access) -> bool, stores: seq<Source>, current: Rfs,
                       f: set<nat>, mustUse: set<Source>, o: Rfs)
    requires AllKnown(w, stores) && stores != [] && forall b <- f :: b < WORD_BYTES
    requires o in Taking(w, before, stores, current, f, mustUse)
    ensures |current| < |o| && o[|current|].from == stores[|stores| - 1]
  {
    hide Passes, Allowed, RfOf, Runs, Options, CoversByte;
    var n := |stores| - 1;
    var s := stores[n];
    var overlap := OverlapWith(w, s, f);
    var parts := Parts(s, Runs(overlap, 0));
    var b :| b in overlap;
    SomeRun(overlap, 0, b);
    var c := OptionIsChoice(w, before, stores[..n], current + parts, f - overlap, mustUse - {s}, o);
  }

  /** If the stores are distinct, so are the options. */
  lemma {:induction false} OptionsDistinct(w: Word, before: (Event, Access) -> bool, stores: seq<Source>, current: Rfs,
                                           f: set<nat>, mustUse: set<Source>)
    requires AllKnown(w, stores) && Distinct(stores) && forall b <- f :: b < WORD_BYTES
    ensures Distinct(Options(w, before, stores, current, f, mustUse))
    decreases |stores|
  {
    hide Passes, OverlapWith, Parts, Runs;
    if f != {} && stores != [] {
      var n := |stores| - 1;
      var s := stores[n];
      var overlap := OverlapWith(w, s, f);
      OptionsDistinct(w, before, stores[..n], current, f, mustUse);
      OptionsDistinct(w, before, stores[..n], current + Parts(s, Runs(overlap, 0)), f - overlap, mustUse - {s});
      forall o | o in Taking(w, before, stores, current, f, mustUse)
        ensures o !in Options(w, before, stores[..n], current, f, mustUse)
      {
        StartsWithLast(w, before, stores, current, f, mustUse, o);
        assert s !in stores[..n];
        if o in Options(w, before, stores[..n], current, f, mustUse) {
          StartsWithStore(w, before, stores[..n], current, f, mustUse, o);
        }
      }
      DistinctConcat(Taking(w, before, stores, current, f, mustUse),
                     Options(w, before, stores[..n], current, f, mustUse));
    }
  }

  // ----- the order of the options

  /** The latest store on which the two choices differ is chosen by c. */
  ghost predicate LaterChoice(c: Choice, d: Choice) {
    |c| == |d| && exists n :: 0 <= n < |c| && c[n] && !d[n] && forall m :: n < m < |c| ==> c[m] == d[m]
  }

  ghost predicate InOrder(cs: seq<Choice>) {
    forall i, j :: 0 <= i < j < |cs| ==> LaterChoice(cs[i], cs[j])
  }

  /** The choices, extended by one more store. */
  function Extended(cs: seq<Choice>, chosen: bool): (r: seq<Choice>)
    ensures |r| == |cs| && forall i :: 0 <= i < |cs| ==> r[i] == cs[i] + [chosen]
  {
    if cs == [] then [] else Extended(cs[..|cs| - 1], chosen) + [cs[|cs| - 1] + [chosen]]
  }

  /** o is the option of the allowed choice c. */
  ghost predicate OptionOf(w: Word, before: (Event, Access) -> bool, stores: seq<Source>, current: Rfs, f: set<nat>,
                           mustUse: set<Source>, o: Rfs, c: Choice)
    requires AllKnown(w, stores)
  {
    |c| == |stores| && Allowed(w, before, stores, f, mustUse, c) && o == current + RfOf(w, stores, c, f)
  }

  /** The options are those of the choices, one after the other, and the choices of later
      stores come first. */
  ghost predicate OptionsOf(w: Word, before: (Event, Access) -> bool, stores: seq<Source>, current: Rfs, f: set<nat>,
                            mustUse: set<Source>, options: seq<Rfs>, cs: seq<Choice>)
    requires AllKnown(w, stores)
  {
    && |cs| == |options| && InOrder(cs)
    && forall i {:trigger cs[i]} {:trigger options[i]} :: 0 <= i < |cs| ==>
        OptionOf(w, before, stores, current, f, mustUse, options[i], cs[i])
  }

  lemma {:induction false} OptionsInOrder(w: Word, before: (Event, Access) -> bool, stores: seq<Source>, current: Rfs,
                                          f: set<nat>, mustUse: set<Source>) returns (cs: seq<Choice>)
    requires AllKnown(w, stores)
    ensures OptionsOf(w, before, stores, current, f, mustUse, Options(w, before, stores, current, f, mustUse), cs)
    decreases |stores|
  {
    hide OptionOf, Passes, OverlapWith, Parts, Runs, InOrder, Known;
    if f == {} || stores == [] {
      cs := if f == {} && mustUse == {} then [Nothing(|stores|)] else [];
      AtMostOne(cs);
      if f == {} { EmptyOption(w, before, stores, current, mustUse); }
    } else {
      var n := |stores| - 1;
      var s := stores[n];
      var overlap := OverlapWith(w, s, f);
      var parts := Parts(s, Runs(overlap, 0));
      var taken: seq<Choice> := [];
      if overlap != {} && Passes(w, before, s, overlap) {
        var options := Options(w, before, stores[..n], current + parts, f - overlap, mustUse - {s});
        taken := OptionsInOrder(w, before, stores[..n], current + parts, f - overlap, mustUse - {s});
        TakenOptions(w, before, stores, current, f, mustUse, options, taken);
      } else {
        AtMostOne(taken);
      }
      var rest := OptionsInOrder(w, before, stores[..n], current, f, mustUse);
      LeftOptions(w, before, stores, current, f, mustUse, Options(w, before, stores[..n], current, f, mustUse), rest);
      cs := Extended(taken, true) + Extended(rest, false);
      ExtendedInOrder(taken, rest, n);
    }
  }

  lemma AtMostOne(cs: seq<Choice>)
    requires |cs| <= 1
    ensures InOrder(cs)
  {
  }

  lemma EmptyOption(w: Word, before: (Event, Access) -> bool, stores: seq<Source>, current: Rfs, mustUse: set<Source>)
    requires AllKnown(w, stores)
    ensures mustUse == {} ==> OptionOf(w, before, stores, current, {}, mustUse, current, Nothing(|stores|))
  {
    hide Allowed, RfOf;
    NothingLeft(w, before, stores, mustUse, Nothing(|stores|));
  }

  lemma TakenOptions(w: Word, before: (Event, Access) -> bool, stores: seq<Source>, current: Rfs, f: set<nat>,
                     mustUse: set<Source>, options: seq<Rfs>, cs: seq<Choice>)
    requires AllKnown(w, stores) && stores != []
    requires var n := |stores| - 1;
      var overlap := OverlapWith(w, stores[n], f);
      && overlap != {} && Passes(w, before, stores[n], overlap)
      && OptionsOf(w, before, stores[..n], current + Parts(stores[n], Runs(overlap, 0)), f - overlap,
                   mustUse - {stores[n]}, options, cs)
    ensures forall i {:trigger cs[i]} {:trigger options[i]} :: 0 <= i < |cs| ==>
      |cs[i]| == |stores| - 1 && OptionOf(w, before, stores, current, f, mustUse, options[i], cs[i] + [true])
  {
    hide Allowed, RfOf, Passes, OverlapWith, Parts, Runs, InOrder;
    var n := |stores| - 1;
    var overlap := OverlapWith(w, stores[n], f);
    var parts := Parts(stores[n], Runs(overlap, 0));
    forall i {:trigger cs[i]} {:trigger options[i]} | 0 <= i < |cs|
      ensures |cs[i]| == n && OptionOf(w, before, stores, current, f, mustUse, options[i], cs[i] + [true])
    {
      var c := cs[i] + [true];
      assert c[..n] == cs[i];
      AllowedStep(w, before, stores, f, mustUse, c);
      RfOfStep(w, stores, c, f);
      assert current + (parts + RfOf(w, stores[..n], cs[i], f - overlap))
          == current + parts + RfOf(w, stores[..n], cs[i], f - overlap);
    }
  }

  lemma LeftOptions(w: Word, before: (Event, Access) -> bool, stores: seq<Source>, current: Rfs, f: set<nat>,
                    mustUse: set<Source>, options: seq<Rfs>, cs: seq<Choice>)
    requires AllKnown(w, stores) && stores != []
    requires OptionsOf(w, before, stores[..|stores| - 1], current, f, mustUse, options, cs)
    ensures forall i {:trigger cs[i]} {:trigger options[i]} :: 0 <= i < |cs| ==>
      |cs[i]| == |stores| - 1 && OptionOf(w, before, stores, current, f, mustUse, options[i], cs[i] + [false])
  {
    hide Allowed, RfOf, Passes, OverlapWith, Parts, Runs, InOrder;
    var n := |stores| - 1;
    forall i {:trigger cs[i]} {:trigger options[i]} | 0 <= i < |cs|
      ensures |cs[i]| == n && OptionOf(w, before, stores, current, f, mustUse, options[i], cs[i] + [false])
    {
      var c := cs[i] + [false];
      assert c[..n] == cs[i];
      AllowedStep(w, before, stores, f, mustUse, c);
      RfOfStep(w, stores, c, f);
      assert [] + RfOf(w, stores[..n], cs[i], f) == RfOf(w, stores[..n], cs[i], f);
    }
  }

  lemma ExtendedInOrder(taken: seq<Choice>, rest: seq<Choice>, n: nat)
    requires (forall i :: 0 <= i < |taken| ==> |taken[i]| == n) && (forall i :: 0 <= i < |rest| ==> |rest[i]| == n)
    requires InOrder(taken) && InOrder(rest)
    ensures InOrder(Extended(taken, true) + Extended(rest, false))
  {
    hide LaterChoice;
    var x, y := Extended(taken, true), Extended(rest, false);
    forall i, j | 0 <= i < j < |x| ensures LaterChoice(x[i], x[j]) { StillLater(taken[i], taken[j], true); }
    forall i, j | 0 <= i < j < |y| ensures LaterChoice(y[i], y[j]) { StillLater(rest[i], rest[j], false); }
    forall i, j | 0 <= i < |x| && 0 <= j < |y| ensures LaterChoice(x[i], y[j]) { ChosenIsLater(taken[i], rest[j]); }
  }

  lemma StillLater(c: Choice, d: Choice, chosen: bool)
    requires LaterChoice(c, d)
    ensures LaterChoice(c + [chosen], d + [chosen])
  {
    var n :| 0 <= n < |c| && c[n] && !d[n] && forall m :: n < m < |c| ==> c[m] == d[m];
    assert (c + [chosen])[n] && !(d + [chosen])[n];
  }

  lemma ChosenIsLater(c: Choice, d: Choice)
    requires |c| == |d|
    ensures LaterChoice(c + [true], d + [false])
  {
    assert (c + [true])[|c|] && !(d + [false])[|c|];
  }

  // ----- main result

  /** The options of a load are sound, complete and free of repetitions: exactly those of
      the allowed choices, each once. */
  lemma OptionsExact(w: Word, before: (Event, Access) -> bool, stores: seq<Source>, f: set<nat>, mustUse: set<Source>)
    requires AllKnown(w, stores) && Distinct(stores) && forall b <- f :: b < WORD_BYTES
    ensures var options := Options(w, before, stores, [], f, mustUse);
      && Distinct(options)
      && (forall o :: o in options
            <==> exists c :: Allowed(w, before, stores, f, mustUse, c) && RfIs(w, stores, c, f, o))
  {
    hide Options, Allowed, RfOf;
    OptionsDistinct(w, before, stores, [], f, mustUse);
    var options := Options(w, before, stores, [], f, mustUse);
    forall o {:trigger o in options}
      ensures o in options <==> exists c :: Allowed(w, before, stores, f, mustUse, c) && RfIs(w, stores, c, f, o)
    {
      if o in options {
        var c := OptionIsChoice(w, before, stores, [], f, mustUse, o);
        LengthOfChoice(w, before, stores, f, mustUse, c);
        assert RfIs(w, stores, c, f, o);
      }
      if c :| Allowed(w, before, stores, f, mustUse, c) && RfIs(w, stores, c, f, o) {
        ChoiceIsOption(w, before, stores, [], f, mustUse, c);
        assert [] + RfOf(w, stores, c, f) == o;
      }
    }
  }

  /** o is the option of choice c. */
  ghost predicate RfIs(w: Word, stores: seq<Source>, c: Choice, f: set<nat>, o: Rfs)
    requires AllKnown(w, stores)
  {
    |c| == |stores| && o == RfOf(w, stores, c, f)
  }
}
