/** The order that linearizations of an execution graph respect, and what isSCMaximal
    has to do with it. */
module ContextOrder {
  import opened Options
  import opened Events
  import opened ContextBound

  // ----- the order of events

  /** b must come after a: program order, reads-from, coherence, from-read, thread
      creation and join. */
  ghost predicate Edge(g: Graph, a: Event, b: Event) {
    && InGraph(g, a) && InGraph(g, b)
    && (|| (a.thread == b.thread && a.index < b.index)
        || (LabelOf(g, b).Read? && LabelOf(g, b).rf == FromWrite(a))
        || CoBefore(g, a, b)
        || FromRead(g, a, b)
        || (LabelOf(g, a).Create? && LabelOf(g, a).child == b.thread)
        || (LabelOf(g, a).Finish? && LabelOf(g, a).join == Some(b)))
  }

  ghost predicate CoBefore(g: Graph, a: Event, b: Event)
    requires InGraph(g, a)
  {
    LabelOf(g, a).Write? &&
    exists i, j :: 0 <= i < j < |Stores(g, LabelOf(g, a).addr)|
      && Stores(g, LabelOf(g, a).addr)[i] == a && Stores(g, LabelOf(g, a).addr)[j] == b
  }

  /** b overwrites what the read a reads. */
  ghost predicate FromRead(g: Graph, a: Event, b: Event)
    requires InGraph(g, a)
  {
    LabelOf(g, a).Read? &&
    var l := LabelOf(g, a);
    match l.rf
    case Init => b in Stores(g, l.readAddr)
    case FromWrite(w) => InGraph(g, w) && LabelOf(g, w).Write? && LabelOf(g, w).addr == l.readAddr && CoBefore(g, w, b)
  }

  /** The order has no cycle: events can be ranked along it. */
  ghost predicate Acyclic(g: Graph) {
    exists rank: Event -> int :: Ranks(g, rank)
  }

  ghost predicate Ranks(g: Graph, rank: Event -> int) {
    forall a, b :: Edge(g, a, b) ==> rank(a) < rank(b)
  }

  ghost predicate Closed(g: Graph, v: View) {
    forall a, b :: Edge(g, a, b) && Contains(v, b) ==> Contains(v, a)
  }

  function Last(v: View, t: nat): Event
    requires t < |v|
  {
    Event(t, v[t])
  }

  /** Nothing in v comes after e. */
  ghost predicate Maximal(g: Graph, v: View, e: Event) {
    forall b {:trigger Edge(g, e, b)} :: Edge(g, e, b) ==> !Contains(v, b)
  }

  // ----- isSCMaximal only looks at immediate successors, and that is enough

  lemma {:induction false} NextOfStoreAt(w: Event, stores: seq<Event>, i: nat)
    requires i < |stores| && stores[i] == w
    requires forall j :: 0 <= j < i ==> stores[j] != w
    ensures NextStore(FromWrite(w), stores) == if i + 1 < |stores| then Some(stores[i + 1]) else None
    decreases i
  {
    if i > 0 { NextOfStoreAt(w, stores[1..], i - 1); }
  }

  lemma CoBeforeAt(g: Graph, i: nat, j: nat, addr: int)
    requires WellFormed(g) && i < j < |Stores(g, addr)|
    ensures InGraph(g, Stores(g, addr)[i]) && InGraph(g, Stores(g, addr)[j])
    ensures CoBefore(g, Stores(g, addr)[i], Stores(g, addr)[j]) && Edge(g, Stores(g, addr)[i], Stores(g, addr)[j])
  {
    assert IsWriteTo(g, Stores(g, addr)[i], addr) && IsWriteTo(g, Stores(g, addr)[j], addr);
  }

  lemma StoreInGraph(g: Graph, addr: int, b: Event)
    requires WellFormed(g) && b in Stores(g, addr)
    ensures InGraph(g, b)
  {
    var j :| 0 <= j < |Stores(g, addr)| && Stores(g, addr)[j] == b;
    assert IsWriteTo(g, Stores(g, addr)[j], addr);
  }

  lemma LaterInGraph(g: Graph, w: Event, b: Event)
    requires WellFormed(g) && InGraph(g, w) && CoBefore(g, w, b)
    ensures InGraph(g, b)
  {
    var addr := LabelOf(g, w).addr;
    var i, j :| 0 <= i < j < |Stores(g, addr)| && Stores(g, addr)[i] == w && Stores(g, addr)[j] == b;
    CoBeforeAt(g, i, j, addr);
  }

  /** In a closed view, a store's immediate successor is there if any later one is. */
  lemma LaterStores(g: Graph, v: View, addr: int, i: nat, j: nat)
    requires WellFormed(g) && Closed(g, v)
    requires i < j < |Stores(g, addr)| && Contains(v, Stores(g, addr)[j])
    ensures Contains(v, Stores(g, addr)[i])
  {
    CoBeforeAt(g, i, j, addr);
  }

  /** NextStore tells whether any later store is in a closed view. */
  lemma NoLaterStore(g: Graph, v: View, w: Event, addr: int)
    requires WellFormed(g) && Closed(g, v) && IsWriteTo(g, w, addr)
    ensures var next := NextStore(FromWrite(w), Stores(g, addr));
      (next == None || !Contains(v, next.value))
      <==> (forall b {:trigger CoBefore(g, w, b)} :: CoBefore(g, w, b) ==> !Contains(v, b))
  {
    hide NextStore, Closed, Edge, WellFormed;
    var stores := Stores(g, addr);
    var i := NextStoreOf(g, w, addr);
    forall b {:trigger CoBefore(g, w, b)}
      ensures CoBefore(g, w, b) <==> b in stores[i + 1..]
    {
      LaterThan(g, w, addr, i, b);
    }
    if i + 1 < |stores| {
      assert stores[i + 1..][0] == stores[i + 1];
      assert CoBefore(g, w, stores[i + 1]);
      forall b | CoBefore(g, w, b) && Contains(v, b)
        ensures Contains(v, stores[i + 1])
      {
        var j :| i + 1 <= j < |stores| && stores[j] == b;
        if i + 1 < j { LaterStores(g, v, addr, i + 1, j); }
      }
    }
  }

  /** The position of a store, and what follows it. */
  lemma NextStoreOf(g: Graph, w: Event, addr: int) returns (i: nat)
    requires WellFormed(g) && IsWriteTo(g, w, addr)
    ensures var stores := Stores(g, addr);
      i < |stores| && stores[i] == w
        && NextStore(FromWrite(w), stores) == if i + 1 < |stores| then Some(stores[i + 1]) else None
  {
    hide NextStore;
    var stores := Stores(g, addr);
    assert WellFormedLabel(g, w, LabelOf(g, w));
    i :| 0 <= i < |stores| && stores[i] == w;
    NextOfStoreAt(w, stores, i);
  }

  lemma LaterThan(g: Graph, w: Event, addr: int, i: nat, b: Event)
    requires WellFormed(g) && IsWriteTo(g, w, addr) && i < |Stores(g, addr)| && Stores(g, addr)[i] == w
    ensures CoBefore(g, w, b) <==> b in Stores(g, addr)[i + 1..]
  {
    hide Stores;
    var stores := Stores(g, addr);
    if CoBefore(g, w, b) {
      var k, j :| 0 <= k < j < |stores| && stores[k] == w && stores[j] == b;
      assert k == i;
      assert stores[i + 1..][j - i - 1] == b;
    }
    if b in stores[i + 1..] {
      var j :| i + 1 <= j < |stores| && stores[j] == b;
    }
  }

  lemma NoFirstStore(g: Graph, v: View, addr: int)
    requires WellFormed(g) && Closed(g, v)
    ensures var next := NextStore(Init, Stores(g, addr));
      (next == None || !Contains(v, next.value)) <==> (forall b :: b in Stores(g, addr) ==> !Contains(v, b))
  {
    var stores := Stores(g, addr);
    forall b | b in stores && Contains(v, b)
      ensures Contains(v, stores[0])
    {
      var j :| 0 <= j < |stores| && stores[j] == b;
      if 0 < j { LaterStores(g, v, addr, 0, j); }
    }
    if stores != [] { assert stores[0] in stores; }
  }

  // The outgoing edges of the last event of a thread, by the kind of its label.

  lemma PlainMaximal(g: Graph, v: View, t: nat)
    requires WellFormed(g) && ViewOf(g, v) && Closed(g, v) && t < |v| && v[t] > 0
    requires var l := g.threads[t][v[t]]; l.Join? || l.Stop? || l.Other?
    ensures Maximal(g, v, Last(v, t))
  {
    forall b | Edge(g, Last(v, t), b)
      ensures !Contains(v, b)
    {
      assert WellFormedLabel(g, b, LabelOf(g, b));
    }
  }

  lemma CreateMaximal(g: Graph, v: View, t: nat)
    requires WellFormed(g) && ViewOf(g, v) && Closed(g, v) && t < |v| && v[t] > 0
    requires g.threads[t][v[t]].Create?
    ensures IsMaximal(g, v, t) <==> Maximal(g, v, Last(v, t))
  {
    var e := Last(v, t);
    assert WellFormedLabel(g, e, LabelOf(g, e));
    var c := LabelOf(g, e).child;
    if v[c] > 0 { assert Edge(g, e, Last(v, c)); }
    forall b | v[c] == 0 && Edge(g, e, b)
      ensures !Contains(v, b)
    {
      assert WellFormedLabel(g, b, LabelOf(g, b));
    }
  }

  lemma FinishMaximal(g: Graph, v: View, t: nat)
    requires WellFormed(g) && ViewOf(g, v) && Closed(g, v) && t < |v| && v[t] > 0
    requires g.threads[t][v[t]].Finish?
    ensures IsMaximal(g, v, t) <==> Maximal(g, v, Last(v, t))
  {
    var e := Last(v, t);
    assert WellFormedLabel(g, e, LabelOf(g, e));
    var j := LabelOf(g, e).join;
    if j.Some? { assert Edge(g, e, j.value); }
    forall b | IsMaximal(g, v, t) && Edge(g, e, b)
      ensures !Contains(v, b)
    {
      assert WellFormedLabel(g, b, LabelOf(g, b));
    }
  }

  lemma WriteMaximal(g: Graph, v: View, t: nat)
    requires WellFormed(g) && ViewOf(g, v) && Closed(g, v) && t < |v| && v[t] > 0
    requires g.threads[t][v[t]].Write?
    ensures IsMaximal(g, v, t) <==> Maximal(g, v, Last(v, t))
  {
    var e := Last(v, t);
    var l := LabelOf(g, e);
    assert WellFormedLabel(g, e, l);
    NoLaterStore(g, v, e, l.addr);
    if Maximal(g, v, e) {
      forall b | CoBefore(g, e, b)
        ensures Edge(g, e, b)
      {
        LaterInGraph(g, e, b);
      }
      forall r | r in l.readers
        ensures Edge(g, e, r)
      {}
    }
    forall b | IsMaximal(g, v, t) && Edge(g, e, b)
      ensures !Contains(v, b)
    {
      assert WellFormedLabel(g, b, LabelOf(g, b));
    }
  }

  lemma ReadNext(g: Graph, v: View, t: nat)
    requires WellFormed(g) && ViewOf(g, v) && Closed(g, v) && t < |v| && v[t] > 0
    requires g.threads[t][v[t]].Read?
    ensures IsMaximal(g, v, t)
      <==> (forall b {:trigger FromRead(g, Last(v, t), b)} :: FromRead(g, Last(v, t), b) ==> !Contains(v, b))
  {
    hide NextStore, Closed, Edge;
    var e := Last(v, t);
    var l := LabelOf(g, e);
    assert l == g.threads[t][v[t]];
    assert WellFormedLabel(g, e, l);
    if l.rf.Init? {
      NoFirstStore(g, v, l.readAddr);
      assert forall b {:trigger FromRead(g, e, b)} {:trigger b in Stores(g, l.readAddr)} ::
        FromRead(g, e, b) <==> b in Stores(g, l.readAddr);
    } else {
      NoLaterStore(g, v, l.rf.write, l.readAddr);
      assert forall b {:trigger FromRead(g, e, b)} {:trigger CoBefore(g, l.rf.write, b)} ::
        FromRead(g, e, b) <==> CoBefore(g, l.rf.write, b);
    }
  }

  lemma ReadMaximal(g: Graph, v: View, t: nat)
    requires WellFormed(g) && ViewOf(g, v) && Closed(g, v) && t < |v| && v[t] > 0
    requires g.threads[t][v[t]].Read?
    ensures IsMaximal(g, v, t) <==> Maximal(g, v, Last(v, t))
  {
    var e := Last(v, t);
    var l := LabelOf(g, e);
    assert WellFormedLabel(g, e, l);
    ReadNext(g, v, t);
    forall b | FromRead(g, e, b)
      ensures Edge(g, e, b)
    {
      if l.rf.Init? { StoreInGraph(g, l.readAddr, b); } else { LaterInGraph(g, l.rf.write, b); }
    }
    forall b | IsMaximal(g, v, t) && Edge(g, e, b)
      ensures !Contains(v, b)
    {
      assert WellFormedLabel(g, b, LabelOf(g, b));
    }
  }

  /** isSCMaximal is exactly maximality in po, rf, co, fr, create and join, though it looks
      at immediate coherence successors only. */
  lemma MaximalIffNoEdge(g: Graph, v: View, t: nat)
    requires WellFormed(g) && ViewOf(g, v) && Closed(g, v) && t < |v| && v[t] > 0
    ensures IsMaximal(g, v, t) <==> Maximal(g, v, Last(v, t))
  {
    hide Closed, Edge, Maximal, NextStore;
    var e := Last(v, t);
    assert WellFormedLabel(g, e, LabelOf(g, e));
    match g.threads[t][v[t]] {
      case Create(_) => CreateMaximal(g, v, t);
      case Finish(_) => FinishMaximal(g, v, t);
      case Read(_, _, _) => ReadMaximal(g, v, t);
      case Write(_, _, _, _) => WriteMaximal(g, v, t);
      case _ => PlainMaximal(g, v, t);
    }
  }

  // ----- candidates exist

  /** The thread whose last event has the highest rank. */
  lemma {:induction false} Latest(g: Graph, v: View, rank: Event -> int, n: nat) returns (t: nat)
    requires n <= |v| && exists u :: 0 <= u < n && v[u] > 0
    ensures t < n && v[t] > 0
    ensures forall u {:trigger Last(v, u)} :: 0 <= u < n && v[u] > 0 ==> rank(Last(v, u)) <= rank(Last(v, t))
  {
    if u :| 0 <= u < n - 1 && v[u] > 0 {
      t := Latest(g, v, rank, n - 1);
      if v[n - 1] > 0 && rank(Last(v, n - 1)) > rank(Last(v, t)) { t := n - 1; }
    } else {
      t := n - 1;
    }
  }

  lemma BelowLatest(g: Graph, v: View, rank: Event -> int, t: nat, b: Event)
    requires Ranks(g, rank) && ViewOf(g, v) && t < |v| && InGraph(g, b) && Contains(v, b)
    requires forall u {:trigger Last(v, u)} :: 0 <= u < |v| && v[u] > 0 ==> rank(Last(v, u)) <= rank(Last(v, t))
    ensures rank(b) <= rank(Last(v, t))
  {
    var l := Last(v, b.thread);
    assert b == l || Edge(g, b, l);
  }

  /** In an acyclic graph, every non-empty downward-closed view has a maximal thread. */
  lemma CandidateExists(g: Graph, v: View)
    requires WellFormed(g) && Acyclic(g) && ViewOf(g, v) && Closed(g, v) && !IsEmpty(v)
    ensures exists t :: Candidate(g, v, t)
  {
    hide IsMaximal, FromRead, CoBefore;
    var rank :| Ranks(g, rank);
    var t := Latest(g, v, rank, |v|);
    var e := Last(v, t);
    forall b | Edge(g, e, b)
      ensures !Contains(v, b)
    {
      if Contains(v, b) { BelowLatest(g, v, rank, t, b); }
    }
    MaximalIffNoEdge(g, v, t);
    assert Candidate(g, v, t);
  }

  /** What is left after taking a maximal event is still downward closed. */
  lemma ShrinkClosed(g: Graph, v: View, t: nat)
    requires WellFormed(g) && ViewOf(g, v) && Closed(g, v) && Candidate(g, v, t)
    ensures ViewOf(g, Shrink(v, t)) && Closed(g, Shrink(v, t))
  {
    hide IsMaximal, FromRead, CoBefore, WellFormed;
    MaximalIffNoEdge(g, v, t);
    forall a, b | Edge(g, a, b) && Contains(Shrink(v, t), b)
      ensures Contains(Shrink(v, t), a)
    {
      assert Contains(v, b) && Contains(v, a);
      assert a != Last(v, t);
    }
  }

  /** The whole graph. */
  function Full(g: Graph): (v: View)
    requires WellFormed(g)
    ensures ViewOf(g, v)
  {
    FullUpTo(g, |g.threads|)
  }

  function FullUpTo(g: Graph, n: nat): (v: View)
    requires WellFormed(g) && n <= |g.threads|
    ensures |v| == n && forall t :: 0 <= t < n ==> v[t] == |g.threads[t]| - 1
  {
    if n == 0 then [] else FullUpTo(g, n - 1) + [|g.threads[n - 1]| - 1]
  }

  lemma FullClosed(g: Graph)
    requires WellFormed(g)
    ensures Closed(g, Full(g))
  {
  }
}
