/** The decider's result on any graph: the minimum over greedy linearizations. */
module ContextGreedy {
  import opened Options
  import opened Events
  import opened ContextBound
  import opened ContextOrder
  import opened ContextSearch
  import opened ContextEnabled
  import opened ContextOptimal
  import opened ContextSteps

  // ----- which events are taken first

  /** In view v, the last event of t has to come directly before what t does next: nothing in
      the view comes after it, and what t does next cannot block. */
  ghost predicate Greedily(g: Graph, v: View, t: nat)
    requires ViewOf(g, v) && t < |v|
  {
    && v[t] > 0 && Maximal(g, v, Last(v, t))
    && (v[t] + 1 < |g.threads[t]| ==>
          var l := g.threads[t][v[t] + 1];
          !l.Join? && (l.Read? ==> l.readKind == PlainRead))
  }

  lemma GreedilyIff(g: Graph, v: View, t: nat)
    requires WellFormed(g) && ViewOf(g, v) && Closed(g, v) && t < |v|
    ensures Greedily(g, v, t) <==> v[t] > 0 && IsMaximal(g, v, t) && !CanBlock(g, v, t)
  {
    hide Maximal, IsMaximal, WellFormed, Closed;
    if v[t] > 0 { MaximalIffNoEdge(g, v, t); }
  }

  /** unfoldPrefix takes away events of one thread only, each of them as it has to be, and
      stops where the next one does not have to be. */
  lemma {:induction false} UnfoldTakes(g: Graph, v: View, t: nat)
    requires WellFormed(g) && ViewOf(g, v) && Closed(g, v) && t < |v|
    ensures var u := Unfold(g, v, t);
      && |u| == |v| && u[t] <= v[t] && u == v[t := u[t]] && !Greedily(g, u, t)
      && forall n {:trigger v[t := n]} :: u[t] < n <= v[t] ==> ViewOf(g, v[t := n]) && Greedily(g, v[t := n], t)
    decreases v[t]
  {
    hide Greedily, IsMaximal, CanBlock, WellFormed, Closed;
    GreedilyIff(g, v, t);
    if Greedily(g, v, t) {
      var w := Shrink(v, t);
      ShrinkClosed(g, v, t);
      UnfoldTakes(g, w, t);
      var u := Unfold(g, v, t);
      assert v[t := v[t]] == v;
      forall n {:trigger v[t := n]} | u[t] < n <= v[t] ensures ViewOf(g, v[t := n]) && Greedily(g, v[t := n], t) {
        assert n < v[t] ==> w[t := n] == v[t := n];
      }
    } else {
      assert v[t := v[t]] == v;
    }
  }

  // ----- greedy linearizations

  /** Read backwards, es takes events greedily: whenever the event before has to come directly
      before what its thread does next, it does. The last event is followed by one of t. */
  ghost predicate Greedy(g: Graph, es: seq<Event>, t: Option<nat>) {
    forall i: nat {:trigger Follower(es, t, i)} :: i < |es| ==> GreedyAt(g, es, Follower(es, t, i), i)
  }

  /** The thread that runs after the i-th event. */
  function Follower(es: seq<Event>, t: Option<nat>, i: nat): Option<nat>
    requires i < |es|
  {
    if i + 1 < |es| then Some(es[i + 1].thread) else t
  }

  /** What thread t does next follows the i-th event. */
  ghost predicate GreedyAt(g: Graph, es: seq<Event>, t: Option<nat>, i: nat)
    requires i < |es|
  {
    forall v {:trigger ViewOf(g, v)} ::
      t.Some? && t.value < |g.threads| && ViewOf(g, v) && Done(g, v) == EventsIn(es[..i + 1]) && Greedily(g, v, t.value)
      ==> es[i].thread == t.value
  }

  lemma SameGreedyAt(g: Graph, es: seq<Event>, before: seq<Event>, t: Option<nat>, i: nat)
    requires i < |es| && i < |before| && es[..i + 1] == before[..i + 1]
    ensures GreedyAt(g, es, t, i) <==> GreedyAt(g, before, t, i)
  {
    hide Greedily, Done, EventsIn;
    assert es[i] == es[..i + 1][i] && before[i] == before[..i + 1][i];
  }

  lemma GreedyBefore(g: Graph, es: seq<Event>, t: Option<nat>)
    requires es != [] && Greedy(g, es, t)
    ensures Greedy(g, es[..|es| - 1], Some(es[|es| - 1].thread))
    ensures GreedyAt(g, es, t, |es| - 1)
  {
    hide GreedyAt;
    var before := es[..|es| - 1];
    var last := Some(es[|es| - 1].thread);
    assert Follower(es, t, |es| - 1) == t;
    forall i: nat {:trigger Follower(before, last, i)} | i < |before|
      ensures GreedyAt(g, before, Follower(before, last, i), i)
    {
      assert es[..i + 1] == before[..i + 1];
      assert Follower(es, t, i) == Follower(before, last, i);
      SameGreedyAt(g, es, before, Follower(es, t, i), i);
    }
  }

  lemma GreedyAppended(g: Graph, before: seq<Event>, e: Event, t: Option<nat>)
    requires Greedy(g, before, Some(e.thread)) && GreedyAt(g, before + [e], t, |before|)
    ensures Greedy(g, before + [e], t)
  {
    hide GreedyAt;
    var es := before + [e];
    var last := Some(e.thread);
    forall i: nat {:trigger Follower(es, t, i)} | i < |es| ensures GreedyAt(g, es, Follower(es, t, i), i) {
      if i < |before| {
        assert es[..i + 1] == before[..i + 1];
        assert Follower(es, t, i) == Follower(before, last, i);
        SameGreedyAt(g, es, before, Follower(es, t, i), i);
      }
    }
  }

  /** At the end of a linearization of v, the view is v. */
  lemma GreedyAtEnd(g: Graph, v: View, es: seq<Event>, t: Option<nat>)
    requires WellFormed(g) && ViewOf(g, v) && Closed(g, v) && Linearizes(g, v, es) && es != []
    requires t.Some? ==> t.value < |v|
    ensures GreedyAt(g, es, t, |es| - 1) <==> (t.Some? && Greedily(g, v, t.value) ==> es[|es| - 1].thread == t.value)
  {
    hide Greedily, Done, EventsIn, Linearizes, WellFormed, Closed;
    assert es[..|es| - 1 + 1] == es;
    DoneIsRan(g, v, es);
    forall u | ViewOf(g, u) && Done(g, u) == Done(g, v) ensures u == v { SameView(g, u, v); }
  }

  lemma SameView(g: Graph, u: View, v: View)
    requires ViewOf(g, u) && ViewOf(g, v) && Done(g, u) == Done(g, v)
    ensures u == v
  {
    forall t: nat | t < |v| ensures u[t] == v[t] {
      assert u[t] > 0 ==> Event(t, u[t]) in Done(g, u);
      assert v[t] > 0 ==> Event(t, v[t]) in Done(g, v);
    }
  }

  // ----- one step of the search

  lemma SearchTakes(g: Graph, v: View, t: nat)
    requires WellFormed(g) && ViewOf(g, v) && Closed(g, v) && t < |v| && Greedily(g, v, t)
    ensures v[t] > 0 && ViewOf(g, Shrink(v, t))
    ensures Candidate(g, v, t) && Search(g, true, v, Some(t)) == Search(g, true, Shrink(v, t), Some(t))
  {
    hide Greedily, IsMaximal, CanBlock, SearchFrom, WellFormed, Closed;
    GreedilyIff(g, v, t);
    UnfoldOnce(g, v, t);
  }

  lemma SearchChooses(g: Graph, v: View, t: Option<nat>)
    requires WellFormed(g) && ViewOf(g, v) && Closed(g, v) && (t.Some? ==> t.value < |v| && !Greedily(g, v, t.value))
    requires !IsEmpty(v)
    ensures Search(g, true, v, t) == SearchFrom(g, true, v, t, |v|)
  {
    hide Greedily, IsMaximal, CanBlock, SearchFrom, WellFormed, Closed;
    if t.Some? {
      GreedilyIff(g, v, t.value);
      UnfoldOnce(g, v, t.value);
    }
  }

  lemma NoSwitchToItself(g: Graph, v: View, t: nat)
    requires ViewOf(g, v) && t < |v|
    ensures Switch(g, v, t, Some(t)) == 0
  {
  }

  // ----- the result is the minimum

  /** No greedy linearization costs less. */
  lemma {:induction false} NoGreedyCheaper(g: Graph, v: View, es: seq<Event>, t: Option<nat>)
    requires WellFormed(g) && ViewOf(g, v) && Closed(g, v) && (t.Some? ==> t.value < |v|)
    requires Linearizes(g, v, es) && Greedy(g, es, t)
    ensures AtMost(Search(g, true, v, t), Some(Cost(g, es, t)))
    decreases |es|
  {
    hide Closed, IsMaximal, WellFormed, Linearizes, Cost, Switch, SearchFrom, Greedy, GreedyAt, Greedily, Search;
    if es == [] {
      NothingToLinearize(g, v);
      EmptySearch(g, v, t);
    } else {
      var tp := LinearizationEnds(g, v, es);
      ShrinkClosed(g, v, tp);
      CostSplits(g, v, es, t, tp);
      GreedyBefore(g, es, t);
      NoGreedyCheaper(g, Shrink(v, tp), es[..|es| - 1], Some(tp));
      GreedyAtEnd(g, v, es, t);
      if t.Some? && Greedily(g, v, t.value) {
        SearchTakes(g, v, t.value);
      } else {
        NotEmpty(v, tp);
        SearchChooses(g, v, t);
        BestIsBound(g, true, v, t, |v|, tp);
        ChoiceIs(g, v, t, tp);
      }
    }
  }

  lemma ChoiceIs(g: Graph, v: View, t: Option<nat>, tp: nat)
    requires ViewOf(g, v) && Candidate(g, v, tp)
    ensures ViewOf(g, Shrink(v, tp))
    ensures Choice(g, true, v, t, tp) == Plus(Search(g, true, Shrink(v, tp), Some(tp)), Switch(g, v, tp, t))
  {
    hide Search, IsMaximal, Switch;
    ShrinkView(g, v, tp);
  }

  lemma EmptySearch(g: Graph, v: View, t: Option<nat>)
    requires ViewOf(g, v) && (t.Some? ==> t.value < |v|) && IsEmpty(v)
    ensures Search(g, true, v, t) == Some(0)
  {
    if t.Some? { NothingToUnfold(g, v, t.value); }
  }

  /** Some greedy linearization costs as little. */
  lemma {:induction false} GreedyAttained(g: Graph, v: View, t: Option<nat>) returns (es: seq<Event>)
    requires WellFormed(g) && Acyclic(g) && ViewOf(g, v) && Closed(g, v) && (t.Some? ==> t.value < |v|)
    requires Search(g, true, v, t).Some?
    ensures Linearizes(g, v, es) && Greedy(g, es, t) && Cost(g, es, t) == Search(g, true, v, t).value
    decreases Size(v)
  {
    hide Closed, IsMaximal, WellFormed, Linearizes, Cost, Switch, SearchFrom, Acyclic, Greedy, GreedyAt, Greedily,
         Search;
    if IsEmpty(v) {
      es := [];
      EmptySearch(g, v, t);
      EmptyLinearized(g, v);
      EmptyIsFree(g, t);
      EmptyIsGreedy(g, t);
    } else {
      var tp: nat;
      if t.Some? && Greedily(g, v, t.value) {
        tp := t.value;
        SearchTakes(g, v, tp);
        NoSwitchToItself(g, v, tp);
      } else {
        SearchChooses(g, v, t);
        tp := BestIsChoice(g, true, v, t, |v|);
        ChosenIsCandidate(g, v, t, tp);
      }
      ShrinkClosed(g, v, tp);
      ShrinkView(g, v, tp);
      var before := GreedyAttained(g, Shrink(v, tp), Some(tp));
      NoLoop(g, Last(v, tp));
      LinearizationAppended(g, v, before, tp);
      es := before + [Last(v, tp)];
      assert es[..|es| - 1] == before;
      CostSplits(g, v, es, t, tp);
      GreedyAtEnd(g, v, es, t);
      GreedyAppended(g, before, Last(v, tp), t);
    }
  }

  lemma ChosenIsCandidate(g: Graph, v: View, t: Option<nat>, tp: nat)
    requires ViewOf(g, v) && tp < |v| && Choice(g, true, v, t, tp).Some?
    ensures Candidate(g, v, tp) && ViewOf(g, Shrink(v, tp))
    ensures Choice(g, true, v, t, tp) == Plus(Search(g, true, Shrink(v, tp), Some(tp)), Switch(g, v, tp, t))
  {
    hide Search, IsMaximal, Switch;
    if Candidate(g, v, tp) { ShrinkView(g, v, tp); }
  }

  lemma EmptyIsGreedy(g: Graph, t: Option<nat>)
    ensures Greedy(g, [], t)
  {
  }

  /** On any graph, also with locks and barriers, calculate returns the fewest preemptive
      switches of a greedy linearization, and the bound is exceeded exactly if every greedy
      linearization has more. */
  lemma CalculateIsGreedyMinimum(g: Graph) returns (best: seq<Event>)
    requires WellFormed(g) && Acyclic(g)
    ensures var c := Search(g, true, Full(g), None);
      && c.Some?
      && (forall es :: Linearizes(g, Full(g), es) && Greedy(g, es, None) ==> c.value <= |Preempted(g, es)|)
      && Linearizes(g, Full(g), best) && Greedy(g, best, None) && |Preempted(g, best)| == c.value
    ensures forall bound: nat ::
      ExceedsBound(g, bound)
      <==> (forall es :: Linearizes(g, Full(g), es) && Greedy(g, es, None) ==> |Preempted(g, es)| > bound)
  {
    hide Closed, WellFormed, Linearizes, Search, Acyclic, Preemptions, Preempted, Full, Greedy, ExceedsBound;
    var v := Full(g);
    FullClosed(g);
    SearchDefined(g, true, v, None);
    best := GreedyAttained(g, v, None);
    NoContinuation(g, best);
    PreemptionsCounted(g, v, best);
    forall es | Linearizes(g, v, es) && Greedy(g, es, None)
      ensures Search(g, true, v, None).value <= |Preempted(g, es)|
    {
      NoGreedyCheaper(g, v, es, None);
      NoContinuation(g, es);
      PreemptionsCounted(g, v, es);
    }
    forall bound: nat
      ensures ExceedsBound(g, bound)
        <==> (forall es :: Linearizes(g, Full(g), es) && Greedy(g, es, None) ==> |Preempted(g, es)| > bound)
    {
      ExceedsIffAbove(g, bound, bound);
    }
  }
}
