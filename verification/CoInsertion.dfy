/** Inserting a new store among the old ones, and the filters of calcCoOrderings. */
module CoInsertion {
  import opened Events
  import opened Lists
  import opened MixedAccess
  import opened RfOptions
  import opened Coherence

  /** How many stores of the list overlap the new one. */
  function NumOverlapping(w: Word, l: seq<Event>, lab: Event): nat {
    if l == [] then 0
    else NumOverlapping(w, l[..|l| - 1], lab) + if StoresOverlap(w, lab, l[|l| - 1]) then 1 else 0
  }

  /** The first position of the list that has i overlapping stores in front. */
  function Spot(w: Word, l: seq<Event>, lab: Event, i: nat): (k: nat)
    ensures k <= |l|
  {
    if l == [] || NumOverlapping(w, l[..|l| - 1], lab) < i then |l|
    else Spot(w, l[..|l| - 1], lab, i)
  }

  function Inserted(l: seq<Event>, k: nat, lab: Event): seq<Event>
    requires k <= |l|
  {
    l[..k] + [lab] + l[k..]
  }

  /** The new store, in front of the given ones, would be directly before an RMW's write on
      one of the remaining bytes, or before a store that happens before it. */
  predicate Blocked(w: Word, before: Event -> bool, lab: Event, rest: seq<Event>, remaining: set<nat>)
    requires StoresIn(w, rest)
  {
    rest != [] &&
    var e := rest[0];
    var overlap := remaining * Fragment(w.stores[e].access);
    || (overlap != {} && w.stores[e].rmw)
    || (StoresOverlap(w, lab, e) && before(e))
    || Blocked(w, before, lab, rest[1..], remaining - overlap)
  }

  predicate StoresIn(w: Word, l: seq<Event>) {
    forall e <- l :: e in w.stores
  }

  // ----- constructCoSeq

  /** Inserts the new store after the lsize-th overlapping store of the list. */
  method ConstructCoSeq(w: Word, l: seq<Event>, lab: Event, lsize: nat) returns (coSeq: seq<Event>, index: nat)
    requires lsize <= NumOverlapping(w, l, lab)
    ensures index == Spot(w, l, lab, lsize) && coSeq == Inserted(l, index, lab)
  {
    hide StoresOverlap, NumOverlapping, Spot, Inserted;
    coSeq, index := [], 0;
    var overlaps := 0;
    if lsize == 0 { coSeq := [lab]; SpotOfNone(w, l[..0], lab); }
    NothingBefore(w, l, lab);
    for k := 0 to |l|
      invariant overlaps == NumOverlapping(w, l[..k], lab)
      invariant index <= k
      invariant lsize > 0 && overlaps < lsize ==> coSeq == l[..k]
      invariant lsize == 0 || overlaps >= lsize ==>
        index == Spot(w, l[..k], lab, lsize) && coSeq == Inserted(l[..k], index, lab)
    {
      SpotStep(w, l, lab, k, lsize);
      InsertedStep(l, k, index, lab);
      coSeq := coSeq + [l[k]];
      if StoresOverlap(w, lab, l[k]) {
        overlaps := overlaps + 1;
        if overlaps == lsize {
          index := |coSeq|;
          coSeq := coSeq + [lab];
        }
      }
    }
    assert l[..|l|] == l;
  }

  lemma NothingBefore(w: Word, l: seq<Event>, lab: Event)
    ensures NumOverlapping(w, l[..0], lab) == 0 && Inserted(l[..0], 0, lab) == [lab]
  {
  }

  lemma SpotStep(w: Word, l: seq<Event>, lab: Event, k: nat, i: nat)
    requires k < |l|
    ensures NumOverlapping(w, l[..k + 1], lab)
      == NumOverlapping(w, l[..k], lab) + if StoresOverlap(w, lab, l[k]) then 1 else 0
    ensures Spot(w, l[..k + 1], lab, i) == if NumOverlapping(w, l[..k], lab) < i then k + 1 else Spot(w, l[..k], lab, i)
  {
    hide StoresOverlap;
    assert l[..k + 1][..k] == l[..k];
  }

  lemma InsertedStep(l: seq<Event>, k: nat, index: nat, lab: Event)
    requires index <= k < |l|
    ensures Inserted(l[..k + 1], index, lab) == Inserted(l[..k], index, lab) + [l[k]]
    ensures Inserted(l[..k + 1], k + 1, lab) == l[..k] + [l[k]] + [lab]
  {
    assert l[..k + 1] == l[..k] + [l[k]];
    assert l[..k + 1][..index] == l[..k][..index];
    assert l[..k + 1][index..] == l[..k][index..] + [l[k]];
  }

  lemma {:induction false} SpotOfNone(w: Word, l: seq<Event>, lab: Event)
    ensures Spot(w, l, lab, 0) == 0
    decreases |l|
  {
    if l != [] { SpotOfNone(w, l[..|l| - 1], lab); }
  }

  // ----- the filters

  method IsBlocked(w: Word, before: Event -> bool, lab: Event, newCoh: seq<Event>, index: nat) returns (blocked: bool)
    requires index < |newCoh| && StoresIn(w, newCoh) && lab in w.stores
    ensures blocked == Blocked(w, before, lab, newCoh[index + 1..], Fragment(w.stores[lab].access))
  {
    hide StoresOverlap;
    var remaining := Fragment(w.stores[lab].access);
    for k := index + 1 to |newCoh|
      invariant Blocked(w, before, lab, newCoh[k..], remaining)
        == Blocked(w, before, lab, newCoh[index + 1..], Fragment(w.stores[lab].access))
    {
      var e := newCoh[k];
      assert newCoh[k..][0] == e && newCoh[k..][1..] == newCoh[k + 1..];
      var overlap := remaining * Fragment(w.stores[e].access);
      if overlap != {} && w.stores[e].rmw { return true; }
      remaining := remaining - overlap;
      if StoresOverlap(w, lab, e) && before(e) { return true; }
    }
    return false;
  }

  // ----- where the new store goes

  lemma InsertedAt(l: seq<Event>, k: nat, lab: Event)
    requires k <= |l|
    ensures |Inserted(l, k, lab)| == |l| + 1 && Inserted(l, k, lab)[..k] == l[..k]
    ensures Inserted(l, k, lab)[k] == lab && Inserted(l, k, lab)[k + 1..] == l[k..]
  {
  }

  lemma {:induction false} NumOverlappingUpTo(w: Word, l: seq<Event>, lab: Event, k: nat)
    requires k <= |l|
    ensures NumOverlapping(w, l[..k], lab) <= NumOverlapping(w, l, lab)
    decreases |l|
  {
    hide StoresOverlap;
    if k < |l| {
      assert l[..|l| - 1][..k] == l[..k];
      NumOverlappingUpTo(w, l[..|l| - 1], lab, k);
    } else {
      assert l[..k] == l;
    }
  }

  /** The spot is the first position with i overlapping stores in front. */
  lemma {:induction false} SpotCounts(w: Word, l: seq<Event>, lab: Event, i: nat)
    requires i <= NumOverlapping(w, l, lab)
    ensures NumOverlapping(w, l[..Spot(w, l, lab, i)], lab) == i
    decreases |l|
  {
    hide StoresOverlap;
    if l != [] && NumOverlapping(w, l[..|l| - 1], lab) >= i {
      SpotCounts(w, l[..|l| - 1], lab, i);
      assert l[..|l| - 1][..Spot(w, l, lab, i)] == l[..Spot(w, l, lab, i)];
    } else {
      assert l[..|l|] == l;
    }
  }

  lemma {:induction false} SpotIsFirst(w: Word, l: seq<Event>, lab: Event, k: nat)
    requires k <= |l|
    ensures Spot(w, l, lab, NumOverlapping(w, l[..k], lab)) <= k
    decreases |l|
  {
    hide StoresOverlap;
    if k < |l| {
      assert l[..|l| - 1][..k] == l[..k];
      NumOverlappingUpTo(w, l[..|l| - 1], lab, k);
      SpotIsFirst(w, l[..|l| - 1], lab, k);
    }
  }

  lemma {:induction false} NumOverlappingConcat(w: Word, l: seq<Event>, m: seq<Event>, lab: Event)
    ensures NumOverlapping(w, l + m, lab) == NumOverlapping(w, l, lab) + NumOverlapping(w, m, lab)
    decreases |m|
  {
    hide StoresOverlap;
    if m == [] {
      assert l + m == l;
    } else {
      assert (l + m)[..|l + m| - 1] == l + m[..|m| - 1];
      NumOverlappingConcat(w, l, m[..|m| - 1], lab);
    }
  }

  /** The number does not depend on the order. */
  lemma {:induction false} SameOverlapping(w: Word, l: seq<Event>, m: seq<Event>, lab: Event)
    requires multiset(l) == multiset(m)
    ensures NumOverlapping(w, l, lab) == NumOverlapping(w, m, lab)
    decreases |l|
  {
    hide StoresOverlap, NumOverlapping;
    SameLength(l, m);
    if l == [] {
      assert m == [];
    } else {
      var n := |l| - 1;
      assert l == l[..n] + [l[n]];
      assert l[n] in multiset(l);
      assert l[n] in multiset(m);
      var k :| 0 <= k < |m| && m[k] == l[n];
      MultisetWithout(m, k);
      CancelOne(multiset(l[..n]), multiset(Without(m, k)), l[n]);
      SameOverlapping(w, l[..n], Without(m, k), lab);
      NumOverlappingConcat(w, l[..n], [l[n]], lab);
      assert m == m[..k] + ([m[k]] + m[k + 1..]);
      NumOverlappingConcat(w, m[..k], [m[k]] + m[k + 1..], lab);
      NumOverlappingConcat(w, [m[k]], m[k + 1..], lab);
      NumOverlappingConcat(w, m[..k], m[k + 1..], lab);
    }
  }

  lemma CancelOne(a: multiset<Event>, b: multiset<Event>, x: Event)
    requires a + multiset{x} == b + multiset{x}
    ensures a == b
  {
    forall y ensures a[y] == b[y] { assert (a + multiset{x})[y] == (b + multiset{x})[y]; }
  }

  /** Between the spot and any other position with as many overlapping stores in front,
      nothing overlaps the new store. */
  lemma NoneSkipped(w: Word, l: seq<Event>, lab: Event, k: nat)
    requires k <= |l|
    ensures var s := Spot(w, l, lab, NumOverlapping(w, l[..k], lab));
      s <= k && NumOverlapping(w, l[s..k], lab) == 0
  {
    hide NumOverlapping, Spot;
    SpotIsFirst(w, l, lab, k);
    NumOverlappingUpTo(w, l, lab, k);
    var s := Spot(w, l, lab, NumOverlapping(w, l[..k], lab));
    SpotCounts(w, l, lab, NumOverlapping(w, l[..k], lab));
    assert l[..k] == l[..s] + l[s..k];
    NumOverlappingConcat(w, l[..s], l[s..k], lab);
  }

  lemma {:induction false} NoneOverlaps(w: Word, l: seq<Event>, lab: Event)
    requires NumOverlapping(w, l, lab) == 0
    ensures forall e <- l :: !StoresOverlap(w, lab, e)
    decreases |l|
  {
    hide StoresOverlap;
    if l != [] {
      assert l == l[..|l| - 1] + [l[|l| - 1]];
      NoneOverlaps(w, l[..|l| - 1], lab);
    }
  }

  lemma {:induction false} SomeOverlaps(w: Word, l: seq<Event>, lab: Event) returns (e: Event)
    requires NumOverlapping(w, l, lab) > 0
    ensures e in l && StoresOverlap(w, lab, e)
    decreases |l|
  {
    hide StoresOverlap;
    e := l[|l| - 1];
    if !StoresOverlap(w, lab, e) { e := SomeOverlaps(w, l[..|l| - 1], lab); }
  }

  /** The number counts the positions of overlapping stores. */
  lemma {:induction false} NumOverlappingCounts(w: Word, l: seq<Event>, lab: Event)
    ensures NumOverlapping(w, l, lab) == |set i | 0 <= i < |l| && StoresOverlap(w, lab, l[i])|
    decreases |l|
  {
    hide StoresOverlap;
    var here := set i | 0 <= i < |l| && StoresOverlap(w, lab, l[i]);
    if l == [] {
      assert here == {};
    } else {
      var n := |l| - 1;
      NumOverlappingCounts(w, l[..n], lab);
      var before := set i | 0 <= i < |l[..n]| && StoresOverlap(w, lab, l[..n][i]);
      assert here == before + if StoresOverlap(w, lab, l[n]) then {n} else {};
    }
  }

  /** Fewer overlapping stores are in front of a position exactly if one is behind it. */
  lemma OverlapsBehind(w: Word, l: seq<Event>, lab: Event, k: nat)
    requires k <= |l|
    ensures NumOverlapping(w, l[..k], lab) < NumOverlapping(w, l, lab)
      <==> exists e :: e in l[k..] && StoresOverlap(w, lab, e)
  {
    hide NumOverlapping, StoresOverlap;
    assert l == l[..k] + l[k..];
    NumOverlappingConcat(w, l[..k], l[k..], lab);
    if NumOverlapping(w, l[k..], lab) == 0 {
      NoneOverlaps(w, l[k..], lab);
    } else {
      var e := SomeOverlaps(w, l[k..], lab);
    }
  }

  /** The new store is inserted in front, or directly behind the i-th store that it overlaps. */
  lemma SpotIs(w: Word, l: seq<Event>, lab: Event, i: nat)
    requires i <= NumOverlapping(w, l, lab)
    ensures var k := Spot(w, l, lab, i);
      && NumOverlapping(w, l[..k], lab) == i
      && if i == 0 then k == 0 else k > 0 && StoresOverlap(w, lab, l[k - 1])
  {
    hide NumOverlapping, StoresOverlap, Spot;
    var k := Spot(w, l, lab, i);
    SpotCounts(w, l, lab, i);
    if i == 0 {
      SpotOfNone(w, l, lab);
    } else {
      NoneInFront(w, lab, l[..0]);
      if !StoresOverlap(w, lab, l[k - 1]) {
        SpotStep(w, l, lab, k - 1, i);
        SpotIsFirst(w, l, lab, k - 1);
      }
    }
  }

  lemma NoneInFront(w: Word, lab: Event, l: seq<Event>)
    requires l == []
    ensures NumOverlapping(w, l, lab) == 0
  {
  }

  lemma SharedByte(w: Word, d: Event, e: Event, b: nat)
    ensures StoreCovers(w, d, b) && StoreCovers(w, e, b) ==> StoresOverlap(w, d, e)
  {
  }

  /** Moving the new store past stores that it does not overlap changes no byte's order. */
  lemma {:induction false} PastOthers(w: Word, m: seq<Event>, lab: Event, b: nat)
    requires lab in w.stores && InWord(w.stores[lab].access) && StoresOf(w, m)
    requires forall e <- m :: !StoresOverlap(w, lab, e)
    ensures ByteOrder(w, [lab] + m, b) == ByteOrder(w, m + [lab], b)
  {
    hide ByteOrder, StoreCovers, StoresOverlap;
    ByteOrderConcat(w, [lab], m, b);
    ByteOrderConcat(w, m, [lab], b);
    ByteOrderAppend(w, [], lab, b);
    assert [] + [lab] == [lab];
    ByteOrderOfNone(w, b);
    if StoreCovers(w, lab, b) && ByteOrder(w, m, b) != [] {
      var e := ByteOrder(w, m, b)[0];
      ByteOrderElements(w, m, b, e);
      SharedByte(w, lab, e, b);
    }
  }

  lemma InsertedSame(w: Word, l: seq<Event>, s: nat, k: nat, lab: Event)
    requires lab in w.stores && InWord(w.stores[lab].access) && StoresOf(w, l)
    requires s <= k <= |l| && forall e <- l[s..k] :: !StoresOverlap(w, lab, e)
    ensures SameByteOrders(w, Inserted(l, s, lab), Inserted(l, k, lab))
  {
    hide ByteOrder, StoresOverlap;
    var m := l[s..k];
    assert Inserted(l, s, lab) == (l[..s] + ([lab] + m)) + l[k..];
    assert Inserted(l, k, lab) == (l[..s] + (m + [lab])) + l[k..];
    forall b | 0 <= b < WORD_BYTES
      ensures ByteOrder(w, Inserted(l, s, lab), b) == ByteOrder(w, Inserted(l, k, lab), b)
    {
      PastOthers(w, m, lab, b);
      ByteOrderConcat(w, l[..s] + ([lab] + m), l[k..], b);
      ByteOrderConcat(w, l[..s] + (m + [lab]), l[k..], b);
      ByteOrderConcat(w, l[..s], [lab] + m, b);
      ByteOrderConcat(w, l[..s], m + [lab], b);
    }
  }

  /** Nor does it change what the filters say. */
  lemma {:induction false} BlockedSame(w: Word, before: Event -> bool, lab: Event, m: seq<Event>, rest: seq<Event>,
                                       remaining: set<nat>)
    requires lab in w.stores && InWord(w.stores[lab].access) && StoresOf(w, m) && StoresIn(w, rest)
    requires StoresIn(w, m + rest)
    requires forall e <- m :: !StoresOverlap(w, lab, e)
    requires remaining <= Fragment(w.stores[lab].access)
    ensures Blocked(w, before, lab, m + rest, remaining) == Blocked(w, before, lab, rest, remaining)
    decreases |m|
  {
    hide StoresOverlap;
    if m == [] {
      assert m + rest == rest;
    } else {
      assert (m + rest)[1..] == m[1..] + rest;
      var overlap := remaining * Fragment(w.stores[m[0]].access);
      NothingCommon(w, lab, m[0], remaining);
      assert remaining - overlap == remaining;
      BlockedSame(w, before, lab, m[1..], rest, remaining);
    }
  }

  lemma NothingCommon(w: Word, lab: Event, e: Event, remaining: set<nat>)
    requires lab in w.stores && InWord(w.stores[lab].access) && e in w.stores && InWord(w.stores[e].access)
    requires !StoresOverlap(w, lab, e) && remaining <= Fragment(w.stores[lab].access)
    ensures remaining * Fragment(w.stores[e].access) == {}
  {
    var common := remaining * Fragment(w.stores[e].access);
    forall b: nat ensures b !in common { SharedByte(w, lab, e, b); }
  }

  // ----- what the filters mean

  /** The first store of the list to byte b is the write of an RMW. */
  ghost predicate RmwFirst(w: Word, rest: seq<Event>, b: nat) {
    var order := ByteOrder(w, rest, b);
    order != [] && order[0] in w.stores && w.stores[order[0]].rmw
  }

  lemma {:induction false} ByteOrderFirst(w: Word, l: seq<Event>, b: nat)
    requires l != []
    ensures ByteOrder(w, l, b) == (if StoreCovers(w, l[0], b) then [l[0]] else []) + ByteOrder(w, l[1..], b)
  {
    hide StoreCovers;
    assert l == [l[0]] + l[1..];
    ByteOrderConcat(w, [l[0]], l[1..], b);
    assert ByteOrder(w, [l[0]][..0], b) == [];
  }

  lemma NoneFirst(w: Word, b: nat)
    ensures !RmwFirst(w, [], b)
  {
  }

  /** A position is blocked if and only if on some byte of the new store the next store is
      the write of an RMW, or some overlapping later store happens before the new one. */
  lemma {:induction false} BlockedIff(w: Word, before: Event -> bool, lab: Event, rest: seq<Event>, remaining: set<nat>)
    requires StoresIn(w, rest) && lab in w.stores
    ensures Blocked(w, before, lab, rest, remaining) <==>
      || (exists b :: b in remaining && RmwFirst(w, rest, b))
      || (exists e :: e in rest && StoresOverlap(w, lab, e) && before(e))
    decreases |rest|
  {
    hide StoresOverlap, RmwFirst;
    if rest == [] {
      forall b ensures !RmwFirst(w, rest, b) { NoneFirst(w, b); }
    } else {
      var e := rest[0];
      var overlap := remaining * Fragment(w.stores[e].access);
      BlockedIff(w, before, lab, rest[1..], remaining - overlap);
      forall b | b in remaining
        ensures RmwFirst(w, rest, b) <==> if b in overlap then w.stores[e].rmw else RmwFirst(w, rest[1..], b)
      {
        RmwFirstStep(w, rest, b);
      }
      assert rest == [e] + rest[1..];
    }
  }

  lemma RmwFirstStep(w: Word, rest: seq<Event>, b: nat)
    requires StoresIn(w, rest) && rest != []
    ensures RmwFirst(w, rest, b)
      <==> if b in Fragment(w.stores[rest[0]].access) then w.stores[rest[0]].rmw else RmwFirst(w, rest[1..], b)
  {
    hide ByteOrder;
    ByteOrderFirst(w, rest, b);
  }
}
