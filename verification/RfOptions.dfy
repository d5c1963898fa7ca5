/** enumerateRfHelper and enumerateRfOptions of src/GenMCDriver.cpp: from which stores the
    bytes of a mixed-size load can be read. Stores are tried from the latest on; each is
    read from as far as it reaches, or not at all. */
module RfOptions {
  import opened Events
  import opened Lists
  import opened MixedAccess

  datatype Store = Store(access: Access, val: bv64, rmw: bool)

  /** The stores to one word in coherence order, and the word's initial value. */
  datatype Word = Word(co: seq<Event>, stores: map<Event, Store>, init: bv64)

  /** One element of a read's rf list: a store and the bytes read from it. */
  datatype Part = Part(from: Source, access: Access)

  type Rfs = seq<Part>

  /** The stores of the word are distinct and stay inside it. */
  ghost predicate WellFormed(w: Word) {
    Distinct(w.co) && forall e <- w.co :: e in w.stores && InWord(w.stores[e].access)
  }

  /** The source is initialization or a store of the word. */
  predicate Known(w: Word, s: Source) {
    s.Init? || (s.write in w.co && s.write in w.stores)
  }

  predicate CoversByte(w: Word, s: Source, b: nat)
    requires Known(w, s)
  {
    s.Init? || Covers(w.stores[s.write].access, b)
  }

  /** The overlap of the source's access with a fragment. */
  function OverlapWith(w: Word, s: Source, f: set<nat>): (o: set<nat>)
    requires Known(w, s)
    ensures o <= f && forall b {:trigger b in o} :: b in o <==> b in f && CoversByte(w, s, b)
  {
    if s.Init? then f else f * Fragment(w.stores[s.write].access)
  }

  /** The stores after s in coherence order. */
  function After(co: seq<Event>, s: Source): seq<Event>
    decreases |co|
  {
    if s.Init? || co == [] then co
    else if co[0] == s.write then co[1..]
    else After(co[1..], s)
  }

  /** Some later store to the accessed bytes happens before the load (up to a reads-from). */
  predicate Hidden(w: Word, before: (Event, Access) -> bool, later: seq<Event>, a: Access) {
    exists i :: 0 <= i < |later| && HiddenBy(w, before, later[i], a)
  }

  predicate HiddenBy(w: Word, before: (Event, Access) -> bool, e: Event, a: Access) {
    e in w.stores && Overlap(w.stores[e].access, a) && before(e, a)
  }

  /** The load can read f from s. */
  predicate Passes(w: Word, before: (Event, Access) -> bool, s: Source, f: set<nat>) {
    forall i :: 0 <= i < |Runs(f, 0)| ==> !Hidden(w, before, After(w.co, s), Runs(f, 0)[i])
  }

  function Parts(s: Source, accesses: seq<Access>): (p: Rfs)
    ensures |p| == |accesses|
  {
    if accesses == [] then [] else [Part(s, accesses[0])] + Parts(s, accesses[1..])
  }

  // ----- what the recursion computes

  /** The options that read the remaining bytes from the given stores, latest first. */
  function Options(w: Word, before: (Event, Access) -> bool, stores: seq<Source>, current: Rfs,
                   remaining: set<nat>, mustUse: set<Source>): seq<Rfs>
    requires forall s <- stores :: Known(w, s)
    decreases |stores|
  {
    if remaining == {} then (if mustUse == {} then [current] else [])
    else if stores == [] then []
    else
      var s := stores[|stores| - 1];
      var rest := stores[..|stores| - 1];
      Taking(w, before, stores, current, remaining, mustUse)
      + Options(w, before, rest, current, remaining, mustUse)
  }

  /** Those of them that read from the last store. */
  function Taking(w: Word, before: (Event, Access) -> bool, stores: seq<Source>, current: Rfs,
                  remaining: set<nat>, mustUse: set<Source>): seq<Rfs>
    requires stores != [] && forall s <- stores :: Known(w, s)
    decreases |stores|, 0
  {
    var s := stores[|stores| - 1];
    var rest := stores[..|stores| - 1];
    var overlap := OverlapWith(w, s, remaining);
    if overlap != {} && Passes(w, before, s, overlap) then
      Options(w, before, rest, current + Parts(s, Runs(overlap, 0)), remaining - overlap, mustUse - {s})
    else []
  }

  // ----- the code

  method AnyHiding(w: Word, before: (Event, Access) -> bool, later: seq<Event>, a: Access) returns (found: bool)
    ensures found == Hidden(w, before, later, a)
  {
    for i := 0 to |later|
      invariant forall j :: 0 <= j < i ==> !HiddenBy(w, before, later[j], a)
    {
      if HiddenBy(w, before, later[i], a) { return true; }
    }
    return false;
  }

  method EnumerateRfHelper(w: Word, before: (Event, Access) -> bool, options0: seq<Rfs>, stores0: seq<Source>,
                           current: Rfs, remaining: set<nat>, mustUse: set<Source>)
    returns (options: seq<Rfs>)
    requires forall s <- stores0 :: Known(w, s)
    requires forall b <- remaining :: b < WORD_BYTES
    ensures options == options0 + Options(w, before, stores0, current, remaining, mustUse)
    decreases |stores0|
  {
    hide Options, Known, Passes, Hidden, OverlapWith, Runs, Parts;
    OptionsStep(w, before, stores0, current, remaining, mustUse);
    options := options0;
    if remaining == {} {
      if mustUse == {} { options := options + [current]; }
      return;
    }
    if stores0 == [] { return; }
    var s := stores0[|stores0| - 1];
    var stores := stores0[..|stores0| - 1];
    var overlap := OverlapWith(w, s, remaining);
    ghost var taking := Taking(w, before, stores0, current, remaining, mustUse);
    if overlap != {} {
      var accesses := GetAccesses(overlap);
      var newCurrent, all := TakeAll(w, before, s, accesses, current);
      TakenIffPasses(w, before, s, overlap);
      if all {
        options := EnumerateRfHelper(w, before, options, stores, newCurrent, remaining - overlap, mustUse - {s});
      }
    }
    assert options == options0 + taking;
    options := EnumerateRfHelper(w, before, options, stores, current, remaining, mustUse);
  }

  /** Adds the accesses to what has been read so far, unless one of them is hidden. */
  method TakeAll(w: Word, before: (Event, Access) -> bool, s: Source, accesses: seq<Access>, current: Rfs)
    returns (newCurrent: Rfs, all: bool)
    ensures all == forall i :: 0 <= i < |accesses| ==> !Hidden(w, before, After(w.co, s), accesses[i])
    ensures all ==> newCurrent == current + Parts(s, accesses)
  {
    hide Hidden, After;
    newCurrent := current;
    var later := After(w.co, s);
    for i := 0 to |accesses|
      invariant newCurrent + Parts(s, accesses[i..]) == current + Parts(s, accesses)
      invariant forall j :: 0 <= j < i ==> !Hidden(w, before, later, accesses[j])
    {
      var h := AnyHiding(w, before, later, accesses[i]);
      if h { return newCurrent, false; }
      newCurrent := newCurrent + [Part(s, accesses[i])];
      assert accesses[i..][1..] == accesses[i + 1..];
    }
    return newCurrent, true;
  }

  lemma TakenIffPasses(w: Word, before: (Event, Access) -> bool, s: Source, f: set<nat>)
    ensures Passes(w, before, s, f)
      == forall i :: 0 <= i < |Runs(f, 0)| ==> !Hidden(w, before, After(w.co, s), Runs(f, 0)[i])
  {
  }

  lemma OptionsStep(w: Word, before: (Event, Access) -> bool, stores: seq<Source>, current: Rfs,
                    remaining: set<nat>, mustUse: set<Source>)
    requires forall s <- stores :: Known(w, s)
    ensures Options(w, before, stores, current, remaining, mustUse) ==
      if remaining == {} then (if mustUse == {} then [current] else [])
      else if stores == [] then []
      else
        Taking(w, before, stores, current, remaining, mustUse)
        + Options(w, before, stores[..|stores| - 1], current, remaining, mustUse)
  {
  }

  /** The coherence-maximal option comes last. */
  method EnumerateRfOptions(w: Word, before: (Event, Access) -> bool, stores: seq<Source>, access: Access,
                            mustUse: set<Source>)
    returns (options: seq<Rfs>)
    requires InWord(access) && forall s <- stores :: Known(w, s)
    ensures options == Reversed(Options(w, before, stores, [], Fragment(access), mustUse))
  {
    options := EnumerateRfHelper(w, before, [], stores, [], Fragment(access), mustUse);
    options := Reversed(options);
  }
}
