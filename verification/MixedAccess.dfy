/** src/MemAccess.hpp inside one 8-byte word: an access is a run of byte offsets, a
    fragment is any set of them. */
module MixedAccess {
  const WORD_BYTES: nat := 8

  datatype Access = Access(first: nat, size: nat)

  predicate InWord(a: Access) {
    a.size > 0 && a.first + a.size <= WORD_BYTES
  }

  predicate Covers(a: Access, b: nat) {
    a.first <= b < a.first + a.size
  }

  /** The bytes of an access. */
  function Fragment(a: Access): (f: set<nat>)
    ensures forall b {:trigger b in f} :: b in f <==> a.first <= b < a.first + a.size
    decreases a.size
  {
    if a.size == 0 then {} else Fragment(Access(a.first, a.size - 1)) + {a.first + a.size - 1}
  }

  predicate Overlap(a: Access, b: Access) {
    a.first < b.first + b.size && b.first < a.first + a.size
  }

  lemma OverlapIffCommonByte(a: Access, b: Access)
    requires InWord(a) && InWord(b)
    ensures Overlap(a, b) <==> exists k {:trigger Covers(a, k)} :: Covers(a, k) && Covers(b, k)
  {
    if Overlap(a, b) {
      var k := if a.first < b.first then b.first else a.first;
      assert Covers(a, k) && Covers(b, k);
    }
  }

  // ----- getAccesses: the accesses a fragment consists of

  /** How many bytes from b on are in f. */
  function RunLength(f: set<nat>, b: nat): nat
    decreases WORD_BYTES - b
  {
    if b < WORD_BYTES && b in f then 1 + RunLength(f, b + 1) else 0
  }

  /** The maximal runs of the bytes of f from lo on. */
  function Runs(f: set<nat>, lo: nat): seq<Access>
    decreases WORD_BYTES - lo
  {
    if lo >= WORD_BYTES then []
    else if lo !in f then Runs(f, lo + 1)
    else [Access(lo, RunLength(f, lo))] + Runs(f, lo + RunLength(f, lo))
  }

  lemma {:induction false} RunLengthIsMaximal(f: set<nat>, b: nat, k: nat)
    requires b <= WORD_BYTES
    ensures b + RunLength(f, b) <= WORD_BYTES
    ensures b <= k < b + RunLength(f, b) ==> k in f
    ensures k == b + RunLength(f, b) < WORD_BYTES ==> k !in f
    decreases WORD_BYTES - b
  {
    if b < WORD_BYTES && b in f { RunLengthIsMaximal(f, b + 1, k); }
  }

  /** How many of the accesses cover a byte. */
  function TimesCovered(accesses: seq<Access>, b: nat): nat {
    if accesses == [] then 0
    else (if Covers(accesses[0], b) then 1 else 0) + TimesCovered(accesses[1..], b)
  }

  /** The runs cover every byte of the fragment once and no other byte. */
  lemma {:induction false} RunsPartition(f: set<nat>, lo: nat, b: nat)
    ensures TimesCovered(Runs(f, lo), b) == if lo <= b < WORD_BYTES && b in f then 1 else 0
    decreases WORD_BYTES - lo
  {
    if lo < WORD_BYTES {
      if lo !in f {
        RunsPartition(f, lo + 1, b);
      } else {
        var n := RunLength(f, lo);
        RunLengthIsMaximal(f, lo, b);
        RunsPartition(f, lo + n, b);
        assert Runs(f, lo)[1..] == Runs(f, lo + n);
      }
    }
  }

  /** They are non-empty, come in order and cannot be merged. */
  lemma {:induction false} RunsAreMaximal(f: set<nat>, lo: nat, i: nat)
    requires i < |Runs(f, lo)|
    ensures var r := Runs(f, lo)[i];
      && lo <= r.first && InWord(r)
      && (i + 1 < |Runs(f, lo)| ==> r.first + r.size < Runs(f, lo)[i + 1].first)
      && forall b {:trigger b in f} :: Covers(r, b) ==> b in f
    decreases WORD_BYTES - lo
  {
    if lo !in f {
      RunsAreMaximal(f, lo + 1, i);
    } else {
      var n := RunLength(f, lo);
      RunLengthIsMaximal(f, lo, lo + n);
      if i > 0 {
        RunsAreMaximal(f, lo + n, i - 1);
        assert Runs(f, lo)[i] == Runs(f, lo + n)[i - 1];
      } else {
        forall b ensures Covers(Access(lo, n), b) ==> b in f { RunLengthIsMaximal(f, lo, b); }
        if 1 < |Runs(f, lo)| {
          RunsAreMaximal(f, lo + n, 0);
          var next := Runs(f, lo + n)[0];
          assert Runs(f, lo)[1] == next;
          assert Covers(next, next.first);
          assert next.first in f;
        }
      }
    }
  }

  /** An access inside the word whose bytes all belong to f, and which cannot be extended. */
  ghost predicate MaximalRun(f: set<nat>, a: Access) {
    && InWord(a) && (forall b {:trigger b in f} :: Covers(a, b) ==> b in f)
    && (a.first > 0 ==> a.first - 1 !in f) && (a.first + a.size < WORD_BYTES ==> a.first + a.size !in f)
  }

  /** The accesses are exactly the maximal runs. */
  lemma {:induction false} RunsExact(f: set<nat>, lo: nat, a: Access)
    requires 0 < lo < WORD_BYTES && lo in f ==> lo - 1 !in f
    ensures a in Runs(f, lo) <==> MaximalRun(f, a) && lo <= a.first
    decreases WORD_BYTES - lo
  {
    if lo < WORD_BYTES {
      if lo !in f {
        RunsExact(f, lo + 1, a);
        assert Covers(a, a.first) == (a.size > 0);
      } else {
        var n := RunLength(f, lo);
        RunLengthIsMaximal(f, lo, lo + n);
        RunsExact(f, lo + n, a);
        FirstRun(f, lo, a);
      }
    }
  }

  lemma FirstRun(f: set<nat>, lo: nat, a: Access)
    requires lo < WORD_BYTES && lo in f && (lo > 0 ==> lo - 1 !in f)
    ensures MaximalRun(f, a) && lo <= a.first < lo + RunLength(f, lo) <==> a == Access(lo, RunLength(f, lo))
  {
    var n := RunLength(f, lo);
    forall k: nat ensures lo <= k < lo + n ==> k in f { RunLengthIsMaximal(f, lo, k); }
    RunLengthIsMaximal(f, lo, lo + n);
    var end := lo + n;
    assert Covers(a, end) <==> a.first <= end < a.first + a.size;
    assert lo < a.first <= end ==> a.first - 1 in f;
    assert lo <= a.first + a.size < end ==> a.first + a.size in f;
  }

  lemma {:induction false} SomeRun(f: set<nat>, lo: nat, b: nat)
    requires lo <= b < WORD_BYTES && b in f
    ensures Runs(f, lo) != []
    decreases WORD_BYTES - lo
  {
    if lo !in f { SomeRun(f, lo + 1, b); }
  }

  method GetAccesses(f: set<nat>) returns (accesses: seq<Access>)
    requires forall b <- f :: b < WORD_BYTES
    ensures accesses == Runs(f, 0)
  {
    hide Runs, RunLength;
    accesses := [];
    var at := 0;
    while at < WORD_BYTES
      invariant accesses + Runs(f, at) == Runs(f, 0)
      decreases WORD_BYTES - at
    {
      RunsFrom(f, at);
      if at in f {
        var beg, size := at, 0;
        while at in f
          invariant at == beg + size && at <= WORD_BYTES
          invariant RunLength(f, beg) == size + RunLength(f, at)
          decreases WORD_BYTES - at
        {
          RunLengthFrom(f, at);
          at := at + 1;
          size := size + 1;
        }
        RunLengthFrom(f, at);
        accesses := accesses + [Access(beg, size)];
        RunLengthFrom(f, beg);
      } else {
        at := at + 1;
      }
    }
    RunsFrom(f, at);
  }

  lemma RunsFrom(f: set<nat>, lo: nat)
    ensures Runs(f, lo) ==
      if lo >= WORD_BYTES then []
      else if lo !in f then Runs(f, lo + 1)
      else [Access(lo, RunLength(f, lo))] + Runs(f, lo + RunLength(f, lo))
  {
  }

  lemma RunLengthFrom(f: set<nat>, b: nat)
    ensures RunLength(f, b) == if b < WORD_BYTES && b in f then 1 + RunLength(f, b + 1) else 0
  {
  }
}
