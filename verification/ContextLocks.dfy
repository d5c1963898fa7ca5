/** With locks, the minimum that src/ContextBoundDecider.cpp calculates is never too small,
    but it can be too large: leaving out a lock that a thread has taken can enable another
    thread, and then a switch counts as preemptive that was forced before. */
module ContextLocks {
  import opened Options
  import opened Events
  import opened ContextBound
  import opened ContextOrder
  import opened ContextSearch
  import opened ContextEnabled
  import opened ContextOptimal
  import opened ContextSteps

  // ----- never too small

  lemma AtMostTwice(a: Option<nat>, b: Option<nat>, c: Option<nat>)
    requires AtMost(a, b) && AtMost(b, c)
    ensures AtMost(a, c)
  {
  }

  lemma {:induction false} UnfoldCostsNothing(g: Graph, v: View, t: nat)
    requires ViewOf(g, v) && t < |v|
    ensures AtMost(Fewest(g, v, t), Fewest(g, Unfold(g, v, t), t))
    decreases v[t]
  {
    hide Search, IsMaximal, IsEnabled, CanBlock;
    if v[t] > 0 && IsMaximal(g, v, t) && !CanBlock(g, v, t) {
      FewestIsBound(g, v, t, t);
      UnfoldCostsNothing(g, Shrink(v, t), t);
      AtMostTwice(Fewest(g, v, t), Fewest(g, Shrink(v, t), t), Fewest(g, Unfold(g, v, t), t));
    }
  }

  /** Unfolding never makes the result smaller, whatever the graph. */
  lemma {:induction false} GreedyNeverBelow(g: Graph, v: View, t: Option<nat>)
    requires ViewOf(g, v) && (t.Some? ==> t.value < |v|)
    ensures AtMost(Search(g, false, v, t), Search(g, true, v, t))
    decreases Size(v), |v| + 1
  {
    hide Unfold, IsMaximal, IsEnabled, SearchFrom, Size;
    if t.Some? {
      var u := Unfold(g, v, t.value);
      UnfoldCostsNothing(g, v, t.value);
      GreedyNeverBelowFrom(g, u, t, |u|);
      AtMostTwice(Search(g, false, v, t), Search(g, false, u, t), Search(g, true, v, t));
    } else {
      GreedyNeverBelowFrom(g, v, t, |v|);
    }
  }

  lemma {:induction false} GreedyNeverBelowFrom(g: Graph, v: View, t: Option<nat>, n: nat)
    requires ViewOf(g, v) && n <= |v|
    ensures AtMost(SearchFrom(g, false, v, t, n), SearchFrom(g, true, v, t, n))
    decreases Size(v), n
  {
    hide Search, IsMaximal, IsEnabled, Size;
    if n > 0 {
      GreedyNeverBelowFrom(g, v, t, n - 1);
      if Candidate(g, v, n - 1) {
        ShrinkView(g, v, n - 1);
        GreedyNeverBelow(g, Shrink(v, n - 1), Some(n - 1));
      }
    }
  }

  // ----- too large

  const DATA: int := 0
  const LOCK: int := 1

  /** Thread 0 reads DATA, takes LOCK, writes DATA and releases; thread 1 writes DATA and then
      takes LOCK and releases it. Thread 1's write to DATA comes after the read and before the
      write of thread 0. */
  function Contended(): Graph {
    Graph(
      [ [Start, Read(PlainRead, DATA, Init), Read(LockRead, LOCK, Init), Write(PlainWrite, LOCK, 1, {}),
         Write(PlainWrite, DATA, 1, {}), Write(UnlockWrite, LOCK, 0, {Event(1, 2)})],
        [Start, Write(PlainWrite, DATA, 2, {}), Read(LockRead, LOCK, FromWrite(Event(0, 5))),
         Write(PlainWrite, LOCK, 1, {}), Write(UnlockWrite, LOCK, 0, {})] ],
      map[DATA := [Event(1, 1), Event(0, 4)], LOCK := [Event(0, 3), Event(0, 5), Event(1, 3), Event(1, 4)]],
      {Event(0, 1), Event(0, 2)})
  }

  lemma ContendedStores()
    ensures Stores(Contended(), DATA) == [Event(1, 1), Event(0, 4)]
    ensures Stores(Contended(), LOCK) == [Event(0, 3), Event(0, 5), Event(1, 3), Event(1, 4)]
  {
  }

  lemma NextStores()
    ensures NextStore(Init, [Event(1, 1), Event(0, 4)]) == Some(Event(1, 1))
    ensures NextStore(FromWrite(Event(1, 1)), [Event(1, 1), Event(0, 4)]) == Some(Event(0, 4))
    ensures NextStore(FromWrite(Event(0, 4)), [Event(1, 1), Event(0, 4)]) == None
    ensures var ls := [Event(0, 3), Event(0, 5), Event(1, 3), Event(1, 4)];
      && NextStore(Init, ls) == Some(Event(0, 3)) && NextStore(FromWrite(Event(0, 3)), ls) == Some(Event(0, 5))
      && NextStore(FromWrite(Event(0, 5)), ls) == Some(Event(1, 3))
        && NextStore(FromWrite(Event(1, 3)), ls) == Some(Event(1, 4))
      && NextStore(FromWrite(Event(1, 4)), ls) == None
  {
    var xs, ls := [Event(1, 1), Event(0, 4)], [Event(0, 3), Event(0, 5), Event(1, 3), Event(1, 4)];
    NextOfStoreAt(Event(1, 1), xs, 0);
    NextOfStoreAt(Event(0, 4), xs, 1);
    NextOfStoreAt(Event(0, 3), ls, 0);
    NextOfStoreAt(Event(0, 5), ls, 1);
    NextOfStoreAt(Event(1, 3), ls, 2);
    NextOfStoreAt(Event(1, 4), ls, 3);
  }

  // What the decider's predicates say in the views that the greedy search visits.

  lemma MaximalAtEnd()
    ensures ViewOf(Contended(), [5, 4]) && !IsMaximal(Contended(), [5, 4], 0) && IsMaximal(Contended(), [5, 4], 1)
    ensures ViewOf(Contended(), [5, 3]) && IsMaximal(Contended(), [5, 3], 1)
    ensures ViewOf(Contended(), [5, 2]) && IsMaximal(Contended(), [5, 2], 1)
  {
    hide NextStore, Stores;
    ContendedStores();
    NextStores();
  }

  lemma MaximalInMiddle()
    ensures ViewOf(Contended(), [5, 1]) && IsMaximal(Contended(), [5, 1], 0) && !IsMaximal(Contended(), [5, 1], 1)
    ensures ViewOf(Contended(), [4, 1]) && IsMaximal(Contended(), [4, 1], 0)
    ensures ViewOf(Contended(), [3, 1]) && IsMaximal(Contended(), [3, 1], 0)
  {
    hide NextStore, Stores;
    ContendedStores();
    NextStores();
  }

  lemma MaximalAtStart()
    ensures ViewOf(Contended(), [2, 1]) && IsMaximal(Contended(), [2, 1], 0)
    ensures ViewOf(Contended(), [1, 1]) && !IsMaximal(Contended(), [1, 1], 0) && IsMaximal(Contended(), [1, 1], 1)
    ensures ViewOf(Contended(), [1, 0]) && IsMaximal(Contended(), [1, 0], 0)
  {
    hide NextStore, Stores;
    ContendedStores();
    NextStores();
  }

  lemma Blocks()
    ensures forall a, b :: 0 <= a <= 5 && 0 <= b <= 4 ==> ViewOf(Contended(), [a, b])
    ensures !CanBlock(Contended(), [5, 3], 1) && !CanBlock(Contended(), [5, 2], 1) && CanBlock(Contended(), [5, 1], 1)
    ensures !CanBlock(Contended(), [4, 1], 0) && !CanBlock(Contended(), [3, 1], 0) && !CanBlock(Contended(), [2, 1], 0)
    ensures CanBlock(Contended(), [1, 1], 0)
  {
  }

  lemma LockFreeAtStart(b: nat)
    requires b <= 1
    ensures LockFree(Contended(), [1, b], LOCK)
  {
    hide LatestIn;
    ContendedStores();
    NoStoreYet(b);
  }

  lemma NoStoreYet(b: nat)
    requires b <= 1
    ensures LatestIn([1, b], [Event(0, 3), Event(0, 5), Event(1, 3), Event(1, 4)]) == None
  {
    NoneInView([1, b], [Event(0, 3), Event(0, 5), Event(1, 3), Event(1, 4)]);
  }

  lemma {:induction false} NoneInView(v: View, stores: seq<Event>)
    requires forall s <- stores :: !Contains(v, s)
    ensures LatestIn(v, stores) == None
    decreases |stores|
  {
    if stores != [] { NoneInView(v, stores[..|stores| - 1]); }
  }

  lemma EnabledThere()
    ensures ViewOf(Contended(), [5, 1]) && !IsEnabled(Contended(), [5, 1], 0)
    ensures ViewOf(Contended(), [1, 1]) && IsEnabled(Contended(), [1, 1], 1)
    ensures ViewOf(Contended(), [1, 0]) && IsEnabled(Contended(), [1, 0], 0)
  {
    hide LockFree;
    LockFreeAtStart(1);
    LockFreeAtStart(0);
  }

  // ----- the graph is a proper one

  lemma StoreLabels(a: int, i: int)
    requires 0 <= i < |Stores(Contended(), a)|
    ensures IsWriteTo(Contended(), Stores(Contended(), a)[i], a)
    ensures a == DATA || a == LOCK
  {
  }

  lemma LabelsWellFormed(e: Event)
    requires InGraph(Contended(), e)
    ensures WellFormedLabel(Contended(), e, LabelOf(Contended(), e))
  {
    hide Stores;
    ContendedStores();
    if e.thread == 0 { LabelsOfFirst(e.index); } else { LabelsOfSecond(e.index); }
  }

  lemma LabelsOfFirst(i: nat)
    requires 0 < i <= 5
    ensures WellFormedLabel(Contended(), Event(0, i), LabelOf(Contended(), Event(0, i)))
  {
    hide Stores;
    ContendedStores();
  }

  lemma LabelsOfSecond(i: nat)
    requires 0 < i <= 4
    ensures WellFormedLabel(Contended(), Event(1, i), LabelOf(Contended(), Event(1, i)))
  {
    hide Stores;
    ContendedStores();
  }

  lemma ContendedWellFormed()
    ensures WellFormed(Contended()) && Full(Contended()) == [5, 4]
  {
    hide Stores, WellFormedLabel;
    var g := Contended();
    forall e {:trigger LabelOf(g, e)} | InGraph(g, e)
      ensures WellFormedLabel(g, e, LabelOf(g, e))
    {
      LabelsWellFormed(e);
    }
    forall a, i {:trigger Stores(g, a)[i]} | 0 <= i < |Stores(g, a)|
      ensures IsWriteTo(g, Stores(g, a)[i], a)
    {
      StoreLabels(a, i);
    }
    forall a, i, j | 0 <= i < j < |Stores(g, a)| ensures Stores(g, a)[i] != Stores(g, a)[j] {
      StoreLabels(a, i);
      ContendedStores();
    }
  }

  // ----- the greedy search

  lemma Unfolded()
    ensures ViewOf(Contended(), [5, 3]) && Unfold(Contended(), [5, 3], 1) == [5, 1]
    ensures ViewOf(Contended(), [4, 1]) && Unfold(Contended(), [4, 1], 0) == [1, 1]
    ensures ViewOf(Contended(), [1, 0]) && Unfold(Contended(), [1, 0], 1) == [1, 0]
  {
    hide Contended, IsMaximal, CanBlock, Unfold, ViewOf;
    MaximalAtEnd();
    MaximalInMiddle();
    MaximalAtStart();
    Blocks();
    UnfoldOnce(Contended(), [5, 3], 1);
    assert Shrink([5, 3], 1) == [5, 2];
    UnfoldOnce(Contended(), [5, 2], 1);
    assert Shrink([5, 2], 1) == [5, 1];
    UnfoldOnce(Contended(), [5, 1], 1);
    UnfoldOnce(Contended(), [4, 1], 0);
    assert Shrink([4, 1], 0) == [3, 1];
    UnfoldOnce(Contended(), [3, 1], 0);
    assert Shrink([3, 1], 0) == [2, 1];
    UnfoldOnce(Contended(), [2, 1], 0);
    assert Shrink([2, 1], 0) == [1, 1];
    UnfoldOnce(Contended(), [1, 1], 0);
    UnfoldOnce(Contended(), [1, 0], 1);
  }

  /** The greedy search has no choice at all here: it needs two preemptive switches. */
  lemma GreedyCost()
    ensures WellFormed(Contended()) && Search(Contended(), true, Full(Contended()), None) == Some(2)
  {
    hide Contended, IsMaximal, CanBlock, Unfold, ViewOf, IsEnabled, SearchFrom, WellFormed, Full;
    var g := Contended();
    ContendedWellFormed();
    MaximalAtEnd();
    MaximalInMiddle();
    MaximalAtStart();
    Unfolded();
    EnabledThere();
    GreedySteps();
    OnlyCandidate(g, true, [5, 4], None, 1, 2);
    assert Shrink([5, 4], 1) == [5, 3];
  }

  lemma GreedySteps()
    ensures ViewOf(Contended(), [5, 3]) && Search(Contended(), true, [5, 3], Some(1)) == Some(2)
  {
    hide Contended, IsMaximal, CanBlock, Unfold, ViewOf, IsEnabled, SearchFrom, Search;
    var g := Contended();
    MaximalInMiddle();
    Unfolded();
    EnabledThere();
    GreedyRest();
    GreedySearch(Contended(), [5, 3], 1, [5, 1]);
    OnlyCandidate(g, true, [5, 1], Some(1), 0, 2);
    assert Shrink([5, 1], 0) == [4, 1];
  }

  lemma GreedyRest()
    ensures ViewOf(Contended(), [4, 1]) && Search(Contended(), true, [4, 1], Some(0)) == Some(2)
  {
    hide Contended, IsMaximal, CanBlock, Unfold, ViewOf, IsEnabled, SearchFrom, Search;
    var g := Contended();
    MaximalAtStart();
    Unfolded();
    EnabledThere();
    NothingLeft();
    GreedySearch(Contended(), [4, 1], 0, [1, 1]);
    OnlyCandidate(g, true, [1, 1], Some(0), 1, 2);
    assert Shrink([1, 1], 1) == [1, 0];
    GreedySearch(Contended(), [1, 0], 1, [1, 0]);
    OnlyCandidate(g, true, [1, 0], Some(1), 0, 2);
    assert Shrink([1, 0], 0) == [0, 0];
  }

  lemma NothingLeft()
    ensures ViewOf(Contended(), [0, 0]) && Search(Contended(), true, [0, 0], Some(0)) == Some(0)
    ensures Search(Contended(), false, [0, 0], Some(0)) == Some(0)
  {
    UnfoldOnce(Contended(), [0, 0], 0);
  }

  // ----- a linearization with one preemptive switch

  lemma MaximalOnTheWay()
    ensures ViewOf(Contended(), [2, 1]) && IsMaximal(Contended(), [2, 1], 1) && !IsEnabled(Contended(), [2, 1], 1)
    ensures ViewOf(Contended(), [2, 0]) && IsMaximal(Contended(), [2, 0], 0)
  {
    hide NextStore, Stores, LatestIn;
    ContendedStores();
    NextStores();
    NoneInView([2, 1], Stores(Contended(), LOCK));
  }

  lemma OneSwitchAtStart()
    ensures ViewOf(Contended(), [2, 1]) && AtMost(Fewest(Contended(), [2, 1], 0), Some(1))
  {
    hide Contended, IsMaximal, ViewOf, IsEnabled, Search;
    MaximalAtStart();
    MaximalOnTheWay();
    NothingLeft();
    Taken(Contended(), [1, 0], 0, 0, [0, 0], 0, 0);
    Taken(Contended(), [2, 0], 1, 0, [1, 0], 0, Switch(Contended(), [2, 0], 0, Some(1)));
    Taken(Contended(), [2, 1], 0, 1, [2, 0], Switch(Contended(), [2, 0], 0, Some(1)),
          Switch(Contended(), [2, 0], 0, Some(1)));
  }

  lemma OneSwitchInMiddle()
    ensures ViewOf(Contended(), [5, 1]) && AtMost(Fewest(Contended(), [5, 1], 1), Some(1))
  {
    hide Contended, IsMaximal, ViewOf, IsEnabled, Fewest;
    MaximalInMiddle();
    EnabledThere();
    OneSwitchAtStart();
    Taken(Contended(), [3, 1], 0, 0, [2, 1], 1, 1);
    Taken(Contended(), [4, 1], 0, 0, [3, 1], 1, 1);
    Taken(Contended(), [5, 1], 1, 0, [4, 1], 1, 1);
  }

  lemma OneSwitch()
    ensures ViewOf(Contended(), [5, 4]) && AtMost(Search(Contended(), false, [5, 4], None), Some(1))
  {
    hide Contended, IsMaximal, ViewOf, IsEnabled, SearchFrom;
    MaximalAtEnd();
    OneSwitchInMiddle();
    hide Search;
    Taken(Contended(), [5, 2], 1, 1, [5, 1], 1, 1);
    Taken(Contended(), [5, 3], 1, 1, [5, 2], 1, 1);
    NoContinuationBound();
  }

  lemma NoContinuationBound()
    requires ViewOf(Contended(), [5, 4]) && Candidate(Contended(), [5, 4], 1)
    ensures ViewOf(Contended(), [5, 3])
    ensures AtMost(Search(Contended(), false, [5, 4], None), Fewest(Contended(), [5, 3], 1))
  {
    hide Contended, IsMaximal, SearchFrom;
    ShrinkView(Contended(), [5, 4], 1);
    assert Shrink([5, 4], 1) == [5, 3];
    BestIsBound(Contended(), false, [5, 4], None, 2, 1);
  }

  // ----- the graph is acyclic

  /** The position of an event in a linearization of the graph. */
  function Position(e: Event): int {
    if e.thread == 0 then (if e.index <= 2 then e.index else e.index + 1)
    else if e.index == 1 then 3 else e.index + 5
  }

  lemma EdgePositions(a: Event, b: Event)
    requires Edge(Contended(), a, b)
    ensures Position(a) < Position(b)
  {
    hide Stores;
    ContendedStores();
  }

  lemma ContendedAcyclic()
    ensures Acyclic(Contended())
  {
    hide Edge, Contended;
    var rank := e => Position(e);
    forall a, b | Edge(Contended(), a, b) ensures rank(a) < rank(b) { EdgePositions(a, b); }
    assert Ranks(Contended(), rank);
  }

  /** So with locks, calculate can return more than the minimum: here it returns two, though
      there is a linearization with at most one preemptive switch. */
  lemma NotMinimalWithLocks() returns (es: seq<Event>)
    ensures WellFormed(Contended()) && Acyclic(Contended())
    ensures Search(Contended(), true, Full(Contended()), None) == Some(2)
    ensures Linearizes(Contended(), Full(Contended()), es) && |Preempted(Contended(), es)| <= 1
  {
    hide Contended, WellFormed, Acyclic, Search, Linearizes, Closed, Preemptions, Preempted, Full;
    ContendedWellFormed();
    ContendedAcyclic();
    GreedyCost();
    OneSwitch();
    FullClosed(Contended());
    es := MinimumAttained(Contended(), Full(Contended()), None);
    NoContinuation(Contended(), es);
    PreemptionsCounted(Contended(), Full(Contended()), es);
  }

  /** The graph violates the condition under which the minimum is found: leaving out the
      read part of the lock that thread 0 holds enables thread 1. */
  lemma LockFrees()
    ensures !NeverFrees(Contended())
  {
    hide Contended, IsMaximal, IsEnabled, CanBlock, WellFormed, ViewOf;
    ContendedWellFormed();
    MaximalAtStart();
    MaximalOnTheWay();
    EnabledThere();
    Blocks();
    RunnableThere();
    assert Shrink([2, 1], 0) == [1, 1];
    assert Frees(Contended(), [2, 1], 0, 1);
    LockClosed();
  }

  lemma RunnableThere()
    ensures ViewOf(Contended(), [2, 1]) && Runnable(Contended(), [2, 1], 0)
  {
  }

  lemma LockClosed()
    ensures Closed(Contended(), [2, 1])
  {
    hide Edge, Contended;
    forall a, b | Edge(Contended(), a, b) && Contains([2, 1], b) ensures Contains([2, 1], a) {
      EdgePositions(a, b);
      InThreads(a, b);
    }
  }

  lemma InThreads(a: Event, b: Event)
    requires Edge(Contended(), a, b)
    ensures a.thread < 2 && 0 < a.index && b.thread < 2 && 0 < b.index
  {
  }
}
