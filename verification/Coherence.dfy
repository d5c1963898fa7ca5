/** Coherence orders of the stores to one word, byte by byte (getPerByteCoherence of
    src/GenMCDriver.cpp). */
module Coherence {
  import opened Events
  import opened Lists
  import opened MixedAccess
  import opened RfOptions

  /** Every event of the list is a store to the word. */
  ghost predicate StoresOf(w: Word, l: seq<Event>) {
    forall e <- l :: e in w.stores && InWord(w.stores[e].access)
  }

  predicate StoreCovers(w: Word, e: Event, b: nat) {
    e in w.stores && Covers(w.stores[e].access, b)
  }

  predicate StoresOverlap(w: Word, d: Event, e: Event) {
    d in w.stores && e in w.stores && Overlap(w.stores[d].access, w.stores[e].access)
  }

  lemma OverlapIffByte(w: Word, d: Event, e: Event)
    requires d in w.stores && e in w.stores && InWord(w.stores[d].access) && InWord(w.stores[e].access)
    ensures StoresOverlap(w, d, e)
      <==> exists b {:trigger StoreCovers(w, d, b)} ::
        0 <= b < WORD_BYTES && StoreCovers(w, d, b) && StoreCovers(w, e, b)
  {
    OverlapIffCommonByte(w.stores[d].access, w.stores[e].access);
    if k :| Covers(w.stores[d].access, k) && Covers(w.stores[e].access, k) {
      assert StoreCovers(w, d, k) && StoreCovers(w, e, k);
    }
    if b :| 0 <= b < WORD_BYTES && StoreCovers(w, d, b) && StoreCovers(w, e, b) {
      assert Covers(w.stores[d].access, b) && Covers(w.stores[e].access, b);
    }
  }

  /** The stores of the list that write byte b, in order. */
  function ByteOrder(w: Word, l: seq<Event>, b: nat): seq<Event> {
    if l == [] then []
    else ByteOrder(w, l[..|l| - 1], b) + if StoreCovers(w, l[|l| - 1], b) then [l[|l| - 1]] else []
  }

  /** getPerByteCoherence, for the first n bytes. */
  function PerByte(w: Word, l: seq<Event>, n: nat): seq<seq<Event>> {
    if n == 0 then [] else PerByte(w, l, n - 1) + [ByteOrder(w, l, n - 1)]
  }

  method GetPerByteCoherence(w: Word, l: seq<Event>) returns (result: seq<seq<Event>>)
    ensures result == PerByte(w, l, WORD_BYTES)
  {
    result := [];
    for i := 0 to WORD_BYTES
      invariant result == PerByte(w, l, i)
    {
      var byteResult := [];
      for k := 0 to |l|
        invariant byteResult == ByteOrder(w, l[..k], i)
      {
        assert l[..k + 1][..k] == l[..k];
        if StoreCovers(w, l[k], i) { byteResult := byteResult + [l[k]]; }
      }
      assert l[..|l|] == l;
      result := result + [byteResult];
    }
  }

  lemma {:induction false} PerByteAt(w: Word, l: seq<Event>, n: nat, b: nat)
    requires b < n
    ensures |PerByte(w, l, n)| == n && PerByte(w, l, n)[b] == ByteOrder(w, l, b)
    decreases n
  {
    hide ByteOrder;
    PerByteLength(w, l, n - 1);
    if b < n - 1 { PerByteAt(w, l, n - 1, b); }
  }

  lemma {:induction false} PerByteLength(w: Word, l: seq<Event>, n: nat)
    ensures |PerByte(w, l, n)| == n
  {
    if n > 0 { PerByteLength(w, l, n - 1); }
  }

  /** The two orders agree on every byte. */
  ghost predicate SameByteOrders(w: Word, l: seq<Event>, m: seq<Event>) {
    forall b {:trigger ByteOrder(w, l, b)} {:trigger ByteOrder(w, m, b)} ::
      0 <= b < WORD_BYTES ==> ByteOrder(w, l, b) == ByteOrder(w, m, b)
  }

  lemma SamePerByte(w: Word, l: seq<Event>, m: seq<Event>)
    ensures PerByte(w, l, WORD_BYTES) == PerByte(w, m, WORD_BYTES) <==> SameByteOrders(w, l, m)
  {
    hide PerByte, ByteOrder;
    forall b: nat | b < WORD_BYTES
      ensures |PerByte(w, l, WORD_BYTES)| == WORD_BYTES && PerByte(w, l, WORD_BYTES)[b] == ByteOrder(w, l, b)
      ensures |PerByte(w, m, WORD_BYTES)| == WORD_BYTES && PerByte(w, m, WORD_BYTES)[b] == ByteOrder(w, m, b)
    {
      PerByteAt(w, l, WORD_BYTES, b);
      PerByteAt(w, m, WORD_BYTES, b);
    }
    PerByteLength(w, l, WORD_BYTES);
    PerByteLength(w, m, WORD_BYTES);
  }

  lemma {:induction false} ByteOrderConcat(w: Word, l: seq<Event>, m: seq<Event>, b: nat)
    ensures ByteOrder(w, l + m, b) == ByteOrder(w, l, b) + ByteOrder(w, m, b)
    decreases |m|
  {
    if m == [] {
      assert l + m == l;
    } else {
      assert (l + m)[..|l + m| - 1] == l + m[..|m| - 1];
      ByteOrderConcat(w, l, m[..|m| - 1], b);
    }
  }

  lemma ByteOrderOfNone(w: Word, b: nat)
    ensures ByteOrder(w, [], b) == []
  {
  }

  /** Adding one more store at the end. */
  lemma ByteOrderAppend(w: Word, l: seq<Event>, e: Event, b: nat)
    ensures ByteOrder(w, l + [e], b) == ByteOrder(w, l, b) + if StoreCovers(w, e, b) then [e] else []
  {
    assert (l + [e])[..|l|] == l;
  }

  lemma {:induction false} ByteOrderElements(w: Word, l: seq<Event>, b: nat, e: Event)
    ensures e in ByteOrder(w, l, b) <==> e in l && StoreCovers(w, e, b)
    decreases |l|
  {
    if l != [] {
      assert l == l[..|l| - 1] + [l[|l| - 1]];
      ByteOrderElements(w, l[..|l| - 1], b, e);
    }
  }

  // ----- which of two stores comes first

  ghost predicate Precedes(l: seq<Event>, d: Event, e: Event) {
    exists i, j :: 0 <= i < j < |l| && l[i] == d && l[j] == e
  }

  lemma PrecedesOneWay(l: seq<Event>, d: Event, e: Event)
    requires Distinct(l) && Precedes(l, d, e)
    ensures !Precedes(l, e, d)
  {
  }

  lemma {:induction false} PrecedesInByte(w: Word, l: seq<Event>, b: nat, d: Event, e: Event)
    requires Precedes(l, d, e) && StoreCovers(w, d, b) && StoreCovers(w, e, b)
    ensures Precedes(ByteOrder(w, l, b), d, e)
    decreases |l|
  {
    hide StoreCovers;
    var i, j :| 0 <= i < j < |l| && l[i] == d && l[j] == e;
    var rest := l[..|l| - 1];
    if j < |rest| {
      assert rest[i] == d && rest[j] == e;
      PrecedesInByte(w, rest, b, d, e);
      PrecedesInLonger(ByteOrder(w, rest, b), if StoreCovers(w, l[|l| - 1], b) then [l[|l| - 1]] else [], d, e);
    } else {
      assert rest[i] == d;
      ByteOrderElements(w, rest, b, d);
      var k :| 0 <= k < |ByteOrder(w, rest, b)| && ByteOrder(w, rest, b)[k] == d;
      var whole := ByteOrder(w, l, b);
      assert whole[k] == d && whole[|whole| - 1] == e;
    }
  }

  lemma PrecedesInLonger(l: seq<Event>, m: seq<Event>, d: Event, e: Event)
    requires Precedes(l, d, e)
    ensures Precedes(l + m, d, e)
  {
    var i, j :| 0 <= i < j < |l| && l[i] == d && l[j] == e;
    assert (l + m)[i] == d && (l + m)[j] == e;
  }

  lemma {:induction false} ByteOrderDistinct(w: Word, l: seq<Event>, b: nat)
    requires Distinct(l)
    ensures Distinct(ByteOrder(w, l, b))
    decreases |l|
  {
    if l != [] {
      ByteOrderDistinct(w, l[..|l| - 1], b);
      ByteOrderElements(w, l[..|l| - 1], b, l[|l| - 1]);
    }
  }

  /** Lists with the same byte orders order overlapping stores the same way. */
  lemma SameOrdersAgree(w: Word, l: seq<Event>, m: seq<Event>, d: Event, e: Event)
    requires StoresOf(w, l) && StoresOf(w, m) && Distinct(l) && Distinct(m) && SameByteOrders(w, l, m)
    requires Precedes(l, d, e) && StoresOverlap(w, d, e)
    ensures !Precedes(m, e, d)
  {
    hide ByteOrder, StoreCovers, StoresOverlap, Distinct;
    assert d in l && e in l;
    OverlapIffByte(w, d, e);
    var b :| 0 <= b < WORD_BYTES && StoreCovers(w, d, b) && StoreCovers(w, e, b);
    PrecedesInByte(w, l, b, d, e);
    ByteOrderDistinct(w, l, b);
    PrecedesOneWay(ByteOrder(w, l, b), d, e);
    if Precedes(m, e, d) { PrecedesInByte(w, m, b, e, d); }
  }
}
