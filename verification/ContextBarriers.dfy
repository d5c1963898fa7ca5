/** Barrier reads in src/ContextBoundDecider.cpp: they do not harm the calculated minimum if
    each thread that waits has arrived before, and can do harm otherwise, as the graph at
    the end shows. */
module ContextBarriers {
  import opened Options
  import opened Events
  import opened ContextBound
  import opened ContextOrder
  import opened ContextSearch
  import opened ContextEnabled
  import opened ContextOptimal
  import opened ContextSteps

  // ----- waiting after arriving

  /** The thread of e has arrived with its p-th store to a before e, which reads the q-th
      store; from the arrival up to that store the barrier is closed. */
  ghost predicate Arrived(g: Graph, e: Event, stores: seq<Event>, p: nat, q: nat) {
    && p <= q < |stores| && stores[p].thread == e.thread && stores[p].index < e.index
    && (forall m :: 0 <= m < |stores| ==> InGraph(g, stores[m]) && LabelOf(g, stores[m]).Write?)
    && forall m :: p <= m < q ==> LabelOf(g, stores[m]).val != LabelOf(g, stores[0]).val
  }

  ghost predicate WaitsAfterArriving(g: Graph, e: Event)
    requires InGraph(g, e) && LabelOf(g, e).Read?
  {
    var l := LabelOf(g, e);
    var stores := Stores(g, l.readAddr);
    l.readKind == BarrierRead && exists p: nat, q: nat :: Arrived(g, e, stores, p, q) && l.rf == FromWrite(stores[q])
  }

  /** The only reads that wait are those of barriers, and their threads have arrived. */
  ghost predicate OnlyBarriers(g: Graph) {
    forall e {:trigger LabelOf(g, e)} :: InGraph(g, e) && LabelOf(g, e).Read? ==>
      LabelOf(g, e).readKind == PlainRead || WaitsAfterArriving(g, e)
  }

  /** The latest store of a view, by its position. */
  lemma {:induction false} LatestAt(v: View, stores: seq<Event>, p: nat) returns (m: nat)
    requires p < |stores| && Contains(v, stores[p])
    ensures p <= m < |stores| && LatestIn(v, stores) == Some(stores[m]) && Contains(v, stores[m])
    ensures forall k :: m < k < |stores| ==> !Contains(v, stores[k])
    decreases |stores|
  {
    m := |stores| - 1;
    if !Contains(v, stores[m]) { m := LatestAt(v, stores[..m], p); }
  }

  /** Once it is open in a smaller view, it is open in every larger one in which the wait
      has not happened yet. */
  lemma StaysOpen(g: Graph, w: View, v: View, e: Event)
    requires WellFormed(g) && ViewOf(g, w) && ViewOf(g, v) && Closed(g, v) && Below(w, v)
    requires InGraph(g, e) && LabelOf(g, e).Read? && WaitsAfterArriving(g, e)
    requires e.thread < |w| && e.index == w[e.thread] + 1 && e.index == v[e.thread] + 1
    requires BarrierOpen(g, w, LabelOf(g, e).readAddr)
    ensures BarrierOpen(g, v, LabelOf(g, e).readAddr)
  {
    hide Closed, WellFormed, Stores, LatestIn;
    var a := LabelOf(g, e).readAddr;
    var stores := Stores(g, a);
    var p: nat, q: nat :| Arrived(g, e, stores, p, q) && LabelOf(g, e).rf == FromWrite(stores[q]);
    var m := LatestAt(w, stores, p);
    var n := LatestAt(v, stores, p);
    NoneAfterSource(g, v, e, q, n);
    assert Contains(v, stores[m]);
    assert m <= n <= q;
  }

  /** What the wait reads is not overwritten in a closed view without it. */
  lemma NoneAfterSource(g: Graph, v: View, e: Event, q: nat, n: nat)
    requires WellFormed(g) && Closed(g, v)
    requires InGraph(g, e) && LabelOf(g, e).Read? && !Contains(v, e)
    requires var stores := Stores(g, LabelOf(g, e).readAddr);
      q < |stores| && LabelOf(g, e).rf == FromWrite(stores[q]) && n < |stores| && Contains(v, stores[n])
    ensures n <= q
  {
    var a := LabelOf(g, e).readAddr;
    var stores := Stores(g, a);
    if q < n {
      CoBeforeAt(g, q, n, a);
      assert IsWriteTo(g, stores[q], a);
      assert FromRead(g, e, stores[n]);
      assert Edge(g, e, stores[n]);
    }
  }

  lemma BarrierWait(g: Graph, v: View, t: nat)
    requires ViewOf(g, v) && t < |v| && v[t] + 1 < |g.threads[t]|
    requires g.threads[t][v[t] + 1].Read? && g.threads[t][v[t] + 1].readKind == BarrierRead
    ensures IsEnabled(g, v, t)
      <==> (&& !g.threads[t][v[t]].Stop? && !g.threads[t][v[t]].Finish?
            && BarrierOpen(g, v, g.threads[t][v[t] + 1].readAddr))
  {
    hide BarrierOpen, LockFree;
  }

  /** With such barriers, too, taking an event early enables no thread. */
  lemma BarriersNeverFree(g: Graph)
    requires WellFormed(g) && OnlyBarriers(g)
    ensures NeverFrees(g)
  {
    hide IsMaximal, IsEnabled, CanBlock, WellFormed, OnlyBarriers, Closed;
    forall v, t, tp {:trigger Frees(g, v, t, tp)} | ViewOf(g, v) && Closed(g, v) ensures !Frees(g, v, t, tp) {
      if Frees(g, v, t, tp) { NoBarrierFreed(g, v, t, tp); }
    }
  }

  lemma NoBarrierFreed(g: Graph, v: View, t: nat, tp: nat)
    requires WellFormed(g) && OnlyBarriers(g) && ViewOf(g, v) && Closed(g, v) && t != tp && t < |v| && tp < |v|
      && v[t] > 0
    requires ViewOf(g, Shrink(v, t)) && IsEnabled(g, Shrink(v, t), tp)
    ensures IsEnabled(g, v, tp)
  {
    hide IsEnabled, WellFormed, Closed, WaitsAfterArriving, BarrierOpen;
    var w := Shrink(v, t);
    var next := v[tp] + 1;
    if next < |g.threads[tp]| && g.threads[tp][next].Read? && g.threads[tp][next].readKind != PlainRead {
      var e := Event(tp, next);
      assert InGraph(g, e) && LabelOf(g, e) == g.threads[tp][next];
      WaitsAtBarrier(g, e);
      BarrierWait(g, w, tp);
      BarrierWait(g, v, tp);
      StaysOpen(g, w, v, e);
    } else {
      EnabledUnlessSpecial(g, w, v, tp);
    }
  }

  lemma WaitsAtBarrier(g: Graph, e: Event)
    requires OnlyBarriers(g) && InGraph(g, e) && LabelOf(g, e).Read? && LabelOf(g, e).readKind != PlainRead
    ensures WaitsAfterArriving(g, e) && LabelOf(g, e).readKind == BarrierRead
  {
  }

  // ----- waiting without arriving

  const DATA: int := 0
  const BARRIER: int := 1

  /** Thread 2 initializes the barrier and waits for it without arriving; thread 1 writes
      another value to it in between, and the initial value again. */
  function Unarrived(): Graph {
    Graph(
      [ [Start, Read(PlainRead, DATA, Init)],
        [Start, Write(PlainWrite, DATA, 1, {Event(2, 3)}), Write(PlainWrite, BARRIER, 0, {}),
         Write(PlainWrite, DATA, 2, {}), Write(PlainWrite, BARRIER, 1, {Event(2, 4)})],
        [Start, Read(PlainRead, DATA, Init), Write(PlainWrite, BARRIER, 1, {}),
         Read(PlainRead, DATA, FromWrite(Event(1, 1))), Read(BarrierRead, BARRIER, FromWrite(Event(1, 4)))] ],
      map[DATA := [Event(1, 1), Event(1, 3)], BARRIER := [Event(2, 2), Event(1, 2), Event(1, 4)]],
      {Event(0, 1), Event(2, 1)})
  }

  lemma UnarrivedStores()
    ensures Stores(Unarrived(), DATA) == [Event(1, 1), Event(1, 3)]
    ensures Stores(Unarrived(), BARRIER) == [Event(2, 2), Event(1, 2), Event(1, 4)]
  {
  }

  lemma NextOfUnarrived()
    ensures var xs := [Event(1, 1), Event(1, 3)];
      && NextStore(Init, xs) == Some(Event(1, 1))
      && NextStore(FromWrite(Event(1, 1)), xs) == Some(Event(1, 3)) && NextStore(FromWrite(Event(1, 3)), xs) == None
    ensures var bs := [Event(2, 2), Event(1, 2), Event(1, 4)];
      && NextStore(FromWrite(Event(2, 2)), bs) == Some(Event(1, 2))
      && NextStore(FromWrite(Event(1, 2)), bs) == Some(Event(1, 4)) && NextStore(FromWrite(Event(1, 4)), bs) == None
  {
    var xs, bs := [Event(1, 1), Event(1, 3)], [Event(2, 2), Event(1, 2), Event(1, 4)];
    NextOfStoreAt(Event(1, 1), xs, 0);
    NextOfStoreAt(Event(1, 3), xs, 1);
    NextOfStoreAt(Event(2, 2), bs, 0);
    NextOfStoreAt(Event(1, 2), bs, 1);
    NextOfStoreAt(Event(1, 4), bs, 2);
  }

  // What the decider's predicates say in the views that the searches visit.

  lemma MaximalFirst()
    ensures ViewOf(Unarrived(), [1, 4, 4]) && ViewOf(Unarrived(), [1, 4, 3]) && ViewOf(Unarrived(), [1, 3, 3])
    ensures !IsMaximal(Unarrived(), [1, 4, 4], 0) && !IsMaximal(Unarrived(), [1, 4, 4], 1)
      && IsMaximal(Unarrived(), [1, 4, 4], 2)
    ensures !IsMaximal(Unarrived(), [1, 4, 3], 0) && IsMaximal(Unarrived(), [1, 4, 3], 1)
      && !IsMaximal(Unarrived(), [1, 4, 3], 2)
    ensures IsMaximal(Unarrived(), [1, 3, 3], 1)
  {
    hide NextStore, Stores;
    UnarrivedStores();
    NextOfUnarrived();
  }

  lemma MaximalSecond()
    ensures ViewOf(Unarrived(), [1, 2, 3]) && ViewOf(Unarrived(), [1, 1, 3]) && ViewOf(Unarrived(), [1, 1, 2])
    ensures IsMaximal(Unarrived(), [1, 2, 3], 1) && IsMaximal(Unarrived(), [1, 2, 3], 2)
    ensures !IsMaximal(Unarrived(), [1, 1, 3], 0) && !IsMaximal(Unarrived(), [1, 1, 3], 1)
      && IsMaximal(Unarrived(), [1, 1, 3], 2)
    ensures IsMaximal(Unarrived(), [1, 1, 2], 1) && IsMaximal(Unarrived(), [1, 1, 2], 2)
  {
    hide NextStore, Stores;
    UnarrivedStores();
    NextOfUnarrived();
  }

  lemma MaximalThird()
    ensures ViewOf(Unarrived(), [1, 1, 1]) && ViewOf(Unarrived(), [1, 0, 1]) && ViewOf(Unarrived(), [0, 0, 1])
      && ViewOf(Unarrived(), [1, 0, 0])
    ensures !IsMaximal(Unarrived(), [1, 1, 1], 0) && IsMaximal(Unarrived(), [1, 1, 1], 1)
      && !IsMaximal(Unarrived(), [1, 1, 1], 2)
    ensures IsMaximal(Unarrived(), [1, 0, 1], 0) && IsMaximal(Unarrived(), [1, 0, 1], 2)
    ensures IsMaximal(Unarrived(), [0, 0, 1], 2) && IsMaximal(Unarrived(), [1, 0, 0], 0)
  {
    hide NextStore, Stores;
    UnarrivedStores();
    NextOfUnarrived();
  }

  lemma MaximalElsewhere()
    ensures ViewOf(Unarrived(), [1, 2, 2]) && ViewOf(Unarrived(), [1, 0, 2]) && ViewOf(Unarrived(), [0, 0, 2])
    ensures IsMaximal(Unarrived(), [1, 2, 2], 1) && IsMaximal(Unarrived(), [1, 0, 2], 0)
      && IsMaximal(Unarrived(), [0, 0, 2], 2)
  {
    hide NextStore, Stores;
    UnarrivedStores();
    NextOfUnarrived();
  }

  lemma UnarrivedBlocks()
    ensures ViewOf(Unarrived(), [1, 4, 3]) && CanBlock(Unarrived(), [1, 4, 3], 2)
    ensures ViewOf(Unarrived(), [1, 3, 3]) && !CanBlock(Unarrived(), [1, 3, 3], 1)
    ensures ViewOf(Unarrived(), [1, 2, 3]) && !CanBlock(Unarrived(), [1, 2, 3], 1)
    ensures ViewOf(Unarrived(), [1, 1, 2]) && !CanBlock(Unarrived(), [1, 1, 2], 2)
  {
  }

  lemma LatestBarrier()
    ensures LatestIn([1, 2, 3], [Event(2, 2), Event(1, 2), Event(1, 4)]) == Some(Event(1, 2))
    ensures LatestIn([1, 1, 3], [Event(2, 2), Event(1, 2), Event(1, 4)]) == Some(Event(2, 2))
  {
    var bs := [Event(2, 2), Event(1, 2), Event(1, 4)];
    assert bs[..2] == [Event(2, 2), Event(1, 2)] && bs[..2][..1] == [Event(2, 2)];
    var m := LatestAt([1, 2, 3], bs, 1);
    var n := LatestAt([1, 1, 3], bs, 0);
  }

  lemma UnarrivedEnabled()
    ensures ViewOf(Unarrived(), [1, 4, 3]) && !IsEnabled(Unarrived(), [1, 4, 3], 1)
    ensures ViewOf(Unarrived(), [1, 2, 3]) && !IsEnabled(Unarrived(), [1, 2, 3], 2)
    ensures ViewOf(Unarrived(), [1, 1, 3]) && IsEnabled(Unarrived(), [1, 1, 3], 2)
    ensures ViewOf(Unarrived(), [1, 1, 1]) && IsEnabled(Unarrived(), [1, 1, 1], 1)
    ensures ViewOf(Unarrived(), [1, 0, 1]) && !IsEnabled(Unarrived(), [1, 0, 1], 0)
      && IsEnabled(Unarrived(), [1, 0, 1], 2)
    ensures ViewOf(Unarrived(), [0, 0, 1]) && IsEnabled(Unarrived(), [0, 0, 1], 2)
    ensures ViewOf(Unarrived(), [1, 0, 0]) && !IsEnabled(Unarrived(), [1, 0, 0], 0)
    ensures ViewOf(Unarrived(), [1, 0, 2]) && !IsEnabled(Unarrived(), [1, 0, 2], 0)
  {
    hide LatestIn, Stores;
    UnarrivedStores();
    LatestBarrier();
  }

  // ----- the graph is a proper one

  lemma StoreLabels(a: int, i: int)
    requires 0 <= i < |Stores(Unarrived(), a)|
    ensures IsWriteTo(Unarrived(), Stores(Unarrived(), a)[i], a)
    ensures a == DATA || a == BARRIER
  {
  }

  lemma LabelsOf(t: nat, i: nat)
    requires t < 3 && InGraph(Unarrived(), Event(t, i))
    ensures WellFormedLabel(Unarrived(), Event(t, i), LabelOf(Unarrived(), Event(t, i)))
  {
    hide Stores;
    UnarrivedStores();
    if t == 0 {} else if t == 1 {} else {}
  }

  lemma UnarrivedWellFormed()
    ensures WellFormed(Unarrived()) && Full(Unarrived()) == [1, 4, 4]
  {
    hide Stores, WellFormedLabel;
    var g := Unarrived();
    forall e {:trigger LabelOf(g, e)} | InGraph(g, e)
      ensures WellFormedLabel(g, e, LabelOf(g, e))
    {
      LabelsOf(e.thread, e.index);
    }
    forall a, i {:trigger Stores(g, a)[i]} | 0 <= i < |Stores(g, a)|
      ensures IsWriteTo(g, Stores(g, a)[i], a)
    {
      StoreLabels(a, i);
    }
    forall a, i, j | 0 <= i < j < |Stores(g, a)| ensures Stores(g, a)[i] != Stores(g, a)[j] {
      StoreLabels(a, i);
      UnarrivedStores();
    }
  }

  /** The position of an event in a linearization of the graph. */
  function Position(e: Event): int {
    if e.thread == 0 then 3
    else if e.thread == 1 then (if e.index <= 2 then e.index + 3 else e.index + 4)
    else if e.index <= 2 then e.index
    else if e.index == 3 then 6 else e.index + 5
  }

  lemma EdgePositions(a: Event, b: Event)
    requires Edge(Unarrived(), a, b)
    ensures Position(a) < Position(b)
  {
    hide Stores;
    UnarrivedStores();
  }

  lemma UnarrivedAcyclic()
    ensures Acyclic(Unarrived())
  {
    hide Edge, Unarrived;
    var rank := e => Position(e);
    forall a, b | Edge(Unarrived(), a, b) ensures rank(a) < rank(b) { EdgePositions(a, b); }
    assert Ranks(Unarrived(), rank);
  }

  // ----- the greedy search

  lemma UnarrivedUnfolds()
    ensures ViewOf(Unarrived(), [1, 4, 3]) && Unfold(Unarrived(), [1, 4, 3], 2) == [1, 4, 3]
    ensures ViewOf(Unarrived(), [1, 3, 3]) && Unfold(Unarrived(), [1, 3, 3], 1) == [1, 1, 3]
    ensures ViewOf(Unarrived(), [1, 1, 2]) && Unfold(Unarrived(), [1, 1, 2], 2) == [1, 1, 1]
  {
    hide Unarrived, IsMaximal, CanBlock, Unfold, ViewOf;
    MaximalFirst();
    MaximalSecond();
    MaximalThird();
    UnarrivedBlocks();
    UnfoldOnce(Unarrived(), [1, 4, 3], 2);
    UnfoldOnce(Unarrived(), [1, 3, 3], 1);
    assert Shrink([1, 3, 3], 1) == [1, 2, 3];
    UnfoldOnce(Unarrived(), [1, 2, 3], 1);
    assert Shrink([1, 2, 3], 1) == [1, 1, 3];
    UnfoldOnce(Unarrived(), [1, 1, 3], 1);
    UnfoldOnce(Unarrived(), [1, 1, 2], 2);
    assert Shrink([1, 1, 2], 2) == [1, 1, 1];
    UnfoldOnce(Unarrived(), [1, 1, 1], 2);
  }

  lemma LastSteps()
    ensures ViewOf(Unarrived(), [0, 0, 1]) && Search(Unarrived(), true, [0, 0, 1], Some(0)) == Some(1)
    ensures ViewOf(Unarrived(), [1, 0, 0]) && Search(Unarrived(), true, [1, 0, 0], Some(2)) == Some(0)
  {
    hide Unarrived, IsMaximal, CanBlock, ViewOf, IsEnabled, SearchFrom, Search, Unfold;
    var g := Unarrived();
    MaximalThird();
    UnarrivedEnabled();
    NothingLeft();
    NothingToUnfold(g, [0, 0, 1], 0);
    GreedySearch(g, [0, 0, 1], 0, [0, 0, 1]);
    OnlyCandidate(g, true, [0, 0, 1], Some(0), 2, 3);
    assert Shrink([0, 0, 1], 2) == [0, 0, 0];
    NothingToUnfold(g, [1, 0, 0], 2);
    GreedySearch(g, [1, 0, 0], 2, [1, 0, 0]);
    OnlyCandidate(g, true, [1, 0, 0], Some(2), 0, 3);
    assert Shrink([1, 0, 0], 0) == [0, 0, 0];
  }

  lemma NothingLeft()
    ensures ViewOf(Unarrived(), [0, 0, 0])
    ensures Search(Unarrived(), true, [0, 0, 0], Some(0)) == Some(0)
      && Search(Unarrived(), true, [0, 0, 0], Some(2)) == Some(0)
    ensures Search(Unarrived(), false, [0, 0, 0], Some(2)) == Some(0)
  {
    UnfoldOnce(Unarrived(), [0, 0, 0], 0);
    UnfoldOnce(Unarrived(), [0, 0, 0], 2);
  }

  /** Where the greedy search has a choice, both ways cost one switch. */
  lemma EitherWay()
    ensures ViewOf(Unarrived(), [1, 0, 1]) && Search(Unarrived(), true, [1, 0, 1], Some(1)) == Some(1)
  {
    hide Unarrived, IsMaximal, CanBlock, ViewOf, IsEnabled, Search, Unfold, SearchFrom;
    var g := Unarrived();
    MaximalThird();
    UnarrivedEnabled();
    LastSteps();
    NothingToUnfold(g, [1, 0, 1], 1);
    GreedySearch(g, [1, 0, 1], 1, [1, 0, 1]);
    assert Shrink([1, 0, 1], 0) == [0, 0, 1] && Shrink([1, 0, 1], 2) == [1, 0, 0];
    TwoCandidates(g, [1, 0, 1], Some(1));
  }

  /** Three threads, of which the middle one is no candidate. */
  lemma TwoCandidates(g: Graph, v: View, t: Option<nat>)
    requires ViewOf(g, v) && |v| == 3 && Candidate(g, v, 0) && !Candidate(g, v, 1) && Candidate(g, v, 2)
    ensures ViewOf(g, Shrink(v, 0)) && ViewOf(g, Shrink(v, 2))
    ensures SearchFrom(g, true, v, t, 3)
      == Min(Plus(Search(g, true, Shrink(v, 0), Some(0)), Switch(g, v, 0, t)),
             Plus(Search(g, true, Shrink(v, 2), Some(2)), Switch(g, v, 2, t)))
  {
    hide Search, Candidate, IsEnabled;
    CandidateShrinks(g, v, 0);
    CandidateShrinks(g, v, 2);
    assert SearchFrom(g, true, v, t, 0) == None;
    assert SearchFrom(g, true, v, t, 1) == Min(None, Choice(g, true, v, t, 0));
    assert SearchFrom(g, true, v, t, 2) == Min(SearchFrom(g, true, v, t, 1), Choice(g, true, v, t, 1));
    assert SearchFrom(g, true, v, t, 3) == Min(SearchFrom(g, true, v, t, 2), Choice(g, true, v, t, 2));
  }

  lemma MiddleSteps()
    ensures ViewOf(Unarrived(), [1, 3, 3]) && Search(Unarrived(), true, [1, 3, 3], Some(1)) == Some(3)
  {
    hide Unarrived, IsMaximal, CanBlock, ViewOf, IsEnabled, SearchFrom, Search, Unfold;
    var g := Unarrived();
    MaximalSecond();
    MaximalThird();
    UnarrivedUnfolds();
    UnarrivedEnabled();
    EitherWay();
    GreedySearch(g, [1, 1, 2], 2, [1, 1, 1]);
    OnlyCandidate(g, true, [1, 1, 1], Some(2), 1, 3);
    assert Shrink([1, 1, 1], 1) == [1, 0, 1];
    GreedySearch(g, [1, 3, 3], 1, [1, 1, 3]);
    OnlyCandidate(g, true, [1, 1, 3], Some(1), 2, 3);
    assert Shrink([1, 1, 3], 2) == [1, 1, 2];
  }

  /** The greedy search needs three preemptive switches. */
  lemma GreedyCost()
    ensures WellFormed(Unarrived()) && Search(Unarrived(), true, Full(Unarrived()), None) == Some(3)
  {
    hide Unarrived, IsMaximal, CanBlock, ViewOf, IsEnabled, SearchFrom, Unfold, WellFormed, Full;
    var g := Unarrived();
    UnarrivedWellFormed();
    MaximalFirst();
    FirstSteps();
    OnlyCandidate(g, true, [1, 4, 4], None, 2, 3);
    assert Shrink([1, 4, 4], 2) == [1, 4, 3];
  }

  lemma FirstSteps()
    ensures ViewOf(Unarrived(), [1, 4, 3]) && Search(Unarrived(), true, [1, 4, 3], Some(2)) == Some(3)
  {
    hide Unarrived, IsMaximal, CanBlock, ViewOf, IsEnabled, SearchFrom, Search, Unfold;
    var g := Unarrived();
    MaximalFirst();
    UnarrivedUnfolds();
    UnarrivedEnabled();
    MiddleSteps();
    GreedySearch(g, [1, 4, 3], 2, [1, 4, 3]);
    OnlyCandidate(g, true, [1, 4, 3], Some(2), 1, 3);
    assert Shrink([1, 4, 3], 1) == [1, 3, 3];
  }

  // ----- a linearization with fewer

  lemma TwoSwitchesLater()
    ensures ViewOf(Unarrived(), [1, 2, 2]) && AtMost(Fewest(Unarrived(), [1, 2, 2], 2), Some(2))
  {
    hide Unarrived, IsMaximal, ViewOf, IsEnabled, Search;
    var g := Unarrived();
    MaximalSecond();
    MaximalThird();
    MaximalElsewhere();
    UnarrivedEnabled();
    NothingLeft();
    Taken(g, [0, 0, 1], 2, 2, [0, 0, 0], 0, 0);
    Taken(g, [0, 0, 2], 0, 2, [0, 0, 1], 0, 1);
    Taken(g, [1, 0, 2], 1, 0, [0, 0, 2], 1, 1);
    Taken(g, [1, 1, 2], 1, 1, [1, 0, 2], 1, 1);
    Taken(g, [1, 2, 2], 2, 1, [1, 1, 2], 1, 2);
  }

  lemma TwoSwitches()
    ensures ViewOf(Unarrived(), [1, 4, 4]) && AtMost(Search(Unarrived(), false, [1, 4, 4], None), Some(2))
  {
    hide Unarrived, IsMaximal, ViewOf, IsEnabled, SearchFrom, Search;
    var g := Unarrived();
    MaximalFirst();
    MaximalSecond();
    UnarrivedEnabled();
    TwoSwitchesLater();
    Taken(g, [1, 2, 3], 1, 2, [1, 2, 2], 2, 2);
    Taken(g, [1, 3, 3], 1, 1, [1, 2, 3], 2, 2);
    Taken(g, [1, 4, 3], 2, 1, [1, 3, 3], 2, 2);
    LastStep();
  }

  lemma LastStep()
    requires ViewOf(Unarrived(), [1, 4, 4]) && Candidate(Unarrived(), [1, 4, 4], 2)
    ensures ViewOf(Unarrived(), [1, 4, 3])
    ensures AtMost(Search(Unarrived(), false, [1, 4, 4], None), Fewest(Unarrived(), [1, 4, 3], 2))
  {
    hide Unarrived, IsMaximal, SearchFrom;
    ShrinkView(Unarrived(), [1, 4, 4], 2);
    assert Shrink([1, 4, 4], 2) == [1, 4, 3];
    BestIsBound(Unarrived(), false, [1, 4, 4], None, 3, 2);
  }

  /** A barrier read whose thread has not arrived can do harm like a lock: calculate returns
      three, though there is a linearization with at most two preemptive switches. */
  lemma NotMinimalWithoutArriving() returns (es: seq<Event>)
    ensures WellFormed(Unarrived()) && Acyclic(Unarrived()) && !NeverFrees(Unarrived())
    ensures Search(Unarrived(), true, Full(Unarrived()), None) == Some(3)
    ensures Linearizes(Unarrived(), Full(Unarrived()), es) && |Preempted(Unarrived(), es)| <= 2
  {
    hide Unarrived, WellFormed, Acyclic, Search, Linearizes, Closed, Preemptions, Preempted, Full, NeverFrees;
    var g := Unarrived();
    UnarrivedWellFormed();
    UnarrivedAcyclic();
    GreedyCost();
    TwoSwitches();
    FullClosed(g);
    es := MinimumAttained(g, Full(g), None);
    NoContinuation(g, es);
    PreemptionsCounted(g, Full(g), es);
    if NeverFrees(g) {
      var best := CalculateIsMinimum(g);
    }
  }
}
