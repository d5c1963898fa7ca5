/** When the calculated minimum is the true one. */
module ContextOptimal {
  import opened Options
  import opened Events
  import opened ContextBound
  import opened ContextOrder
  import opened ContextSearch
  import opened ContextEnabled

  // Taking the events of the current thread greedily never costs more, as long as that does
  // not enable a thread that had to wait; without lock and barrier reads it never does.

  /** No read waits for a lock or a barrier; joins are allowed. */
  ghost predicate OnlyPlainReads(g: Graph) {
    forall e {:trigger LabelOf(g, e)} :: InGraph(g, e) && LabelOf(g, e).Read? ==> LabelOf(g, e).readKind == PlainRead
  }

  /** w is a part of v. */
  ghost predicate Below(w: View, v: View) {
    |w| == |v| && forall t :: 0 <= t < |w| ==> w[t] <= v[t]
  }

  // ----- how the decider's predicates depend on the view

  lemma CandidateAntitone(g: Graph, w: View, v: View, t: nat)
    requires ViewOf(g, w) && ViewOf(g, v) && Below(w, v) && t < |v| && w[t] == v[t]
    requires Candidate(g, v, t)
    ensures Candidate(g, w, t)
  {
    hide NextStore, Stores;
    forall e | Contains(w, e) ensures Contains(v, e) {}
  }

  lemma EnabledMonotone(g: Graph, w: View, v: View, t: nat)
    requires OnlyPlainReads(g) && ViewOf(g, w) && ViewOf(g, v) && Below(w, v) && t < |v| && w[t] == v[t]
    requires IsEnabled(g, w, t)
    ensures IsEnabled(g, v, t)
  {
    hide IsEnabled;
    var next := v[t] + 1;
    if next < |g.threads[t]| {
      assert InGraph(g, Event(t, next));
      assert LabelOf(g, Event(t, next)) == g.threads[t][next];
    }
    EnabledUnlessSpecial(g, w, v, t);
  }

  /** Whatever is next, unless it is a lock or barrier read, is not disabled by more events. */
  lemma EnabledUnlessSpecial(g: Graph, w: View, v: View, t: nat)
    requires ViewOf(g, w) && ViewOf(g, v) && Below(w, v) && t < |v| && w[t] == v[t]
    requires IsEnabled(g, w, t)
    requires v[t] + 1 < |g.threads[t]| && g.threads[t][v[t] + 1].Read? ==> g.threads[t][v[t] + 1].readKind == PlainRead
    ensures IsEnabled(g, v, t)
  {
  }

  /** t has an event after v, and nothing can block it. */
  predicate Runnable(g: Graph, v: View, t: nat)
    requires ViewOf(g, v)
  {
    t < |v| && v[t] + 1 < |g.threads[t]| && !CanBlock(g, v, t)
  }

  lemma RunnableIsEnabled(g: Graph, v: View, t: nat)
    requires WellFormed(g) && ViewOf(g, v) && Runnable(g, v, t)
    ensures IsEnabled(g, v, t)
  {
    if v[t] > 0 {
      var e := Event(t, v[t]);
      assert WellFormedLabel(g, e, LabelOf(g, e));
    }
  }

  /** Taking the last event of thread t enables thread tp, which could have been taken as well. */
  ghost predicate Frees(g: Graph, v: View, t: nat, tp: nat)
    requires ViewOf(g, v)
  {
    && t != tp && Candidate(g, v, t) && Candidate(g, v, tp) && Runnable(g, v, t)
    && ViewOf(g, Shrink(v, t)) && IsEnabled(g, Shrink(v, t), tp) && !IsEnabled(g, v, tp)
  }

  /** In no downward-closed view does taking an event early enable another thread. This is
      what the greedy search needs: a switch that is forced stays so. */
  ghost predicate NeverFrees(g: Graph) {
    forall v, t, tp {:trigger Frees(g, v, t, tp)} :: ViewOf(g, v) && Closed(g, v) ==> !Frees(g, v, t, tp)
  }

  /** It holds without lock and barrier reads. */
  lemma PlainReadsNeverFree(g: Graph)
    requires OnlyPlainReads(g)
    ensures NeverFrees(g)
  {
    hide IsMaximal, IsEnabled, OnlyPlainReads, CanBlock;
    forall v, t, tp {:trigger Frees(g, v, t, tp)} | ViewOf(g, v) && Closed(g, v) ensures !Frees(g, v, t, tp) {
      if Frees(g, v, t, tp) { EnabledMonotone(g, Shrink(v, t), v, tp); }
    }
  }

  lemma StaysForced(g: Graph, v: View, t: nat, tp: nat)
    requires NeverFrees(g) && ViewOf(g, v) && Closed(g, v) && t != tp
    requires Candidate(g, v, t) && Candidate(g, v, tp) && Runnable(g, v, t)
    requires ViewOf(g, Shrink(v, t)) && IsEnabled(g, Shrink(v, t), tp)
    ensures IsEnabled(g, v, tp)
  {
    hide IsMaximal, IsEnabled, CanBlock, Closed;
    assert !Frees(g, v, t, tp);
  }

  // ----- the greedy argument, on the search that is not greedy

  function Fewest(g: Graph, v: View, t: nat): Option<nat>
    requires ViewOf(g, v) && t < |v|
  {
    Search(g, false, v, Some(t))
  }

  /** Any candidate bounds the minimum. */
  lemma FewestIsBound(g: Graph, v: View, t: nat, tp: nat)
    requires ViewOf(g, v) && t < |v| && Candidate(g, v, tp)
    ensures ViewOf(g, Shrink(v, tp))
    ensures AtMost(Fewest(g, v, t), Plus(Fewest(g, Shrink(v, tp), tp), Switch(g, v, tp, Some(t))))
  {
    hide IsMaximal, IsEnabled, SearchFrom;
    BestIsBound(g, false, v, Some(t), |v|, tp);
  }

  /** Some candidate attains it. */
  lemma FewestIsChoice(g: Graph, v: View, t: nat) returns (tp: nat)
    requires ViewOf(g, v) && t < |v| && Fewest(g, v, t).Some? && !IsEmpty(v)
    ensures Candidate(g, v, tp) && ViewOf(g, Shrink(v, tp))
    ensures Fewest(g, v, t) == Plus(Fewest(g, Shrink(v, tp), tp), Switch(g, v, tp, Some(t)))
  {
    hide IsMaximal, IsEnabled, SearchFrom;
    tp := BestIsChoice(g, false, v, Some(t), |v|);
  }

  /** Who continues matters by at most one preemption. */
  lemma ContinuesWithinOne(g: Graph, v: View, t: nat, u: nat)
    requires ViewOf(g, v) && t < |v| && u < |v|
    ensures AtMost(Fewest(g, v, u), Plus(Fewest(g, v, t), 1))
  {
    hide Search, Candidate, IsEnabled;
    if IsEmpty(v) {
      EmptyCostsNothing(g, v, u);
    } else if Fewest(g, v, t).Some? {
      var tp := FewestIsChoice(g, v, t);
      FewestIsBound(g, v, u, tp);
    }
  }

  lemma EmptyCostsNothing(g: Graph, v: View, t: nat)
    requires ViewOf(g, v) && t < |v| && IsEmpty(v)
    ensures Fewest(g, v, t) == Some(0)
  {
  }

  lemma ShrinkCommutes(v: View, t: nat, u: nat)
    requires t < |v| && u < |v| && t != u && v[t] > 0 && v[u] > 0
    ensures Shrink(Shrink(v, t), u) == Shrink(Shrink(v, u), t)
    ensures Below(Shrink(v, t), v) && Below(Shrink(v, u), v)
  {
  }

  /** A maximal event of a runnable thread t can be left out: what t does first in any
      linearization can be moved past the others. */
  lemma {:induction false} LeaveOutLast(g: Graph, v: View, t: nat, u: nat)
    requires WellFormed(g) && NeverFrees(g) && ViewOf(g, v) && Closed(g, v) && u < |v| && u != t
    requires Runnable(g, v, t) && Candidate(g, v, t)
    ensures ViewOf(g, Shrink(v, t)) && AtMost(Fewest(g, Shrink(v, t), u), Fewest(g, v, u))
    decreases Size(v)
  {
    hide Search, IsMaximal, IsEnabled, WellFormed, NeverFrees, IsEmpty, Size, CanBlock, Closed;
    ShrinkView(g, v, t);
    var w := Shrink(v, t);
    if Fewest(g, v, u).Some? {
      NotEmpty(v, t);
      var tp := FewestIsChoice(g, v, u);
      if tp == t {
        RunnableIsEnabled(g, v, t);
        ContinuesWithinOne(g, w, t, u);
      } else {
        ShrinkCommutes(v, t, tp);
        ShrinkView(g, v, tp);
        var v' := Shrink(v, tp);
        ShrinkClosed(g, v, tp);
        RunnableInside(g, v', v, t);
        CandidateAntitone(g, v', v, t);
        LeaveOutLast(g, v', t, tp);
        CandidateAntitone(g, w, v, tp);
        if IsEnabled(g, w, tp) { StaysForced(g, v, t, tp); }
        FewestIsBound(g, w, u, tp);
      }
    }
  }

  lemma NotEmpty(v: View, t: nat)
    requires t < |v| && v[t] > 0
    ensures !IsEmpty(v)
  {
  }

  lemma RunnableInside(g: Graph, w: View, v: View, t: nat)
    requires ViewOf(g, w) && ViewOf(g, v) && t < |v| && w[t] == v[t] && Runnable(g, v, t)
    ensures Runnable(g, w, t)
  {
  }

  /** Removing a maximal event of the current thread first never costs more, nor less. */
  lemma GreedyStep(g: Graph, v: View, t: nat)
    requires WellFormed(g) && NeverFrees(g) && ViewOf(g, v) && Closed(g, v)
    requires Runnable(g, v, t) && Candidate(g, v, t)
    ensures ViewOf(g, Shrink(v, t)) && Fewest(g, v, t) == Fewest(g, Shrink(v, t), t)
  {
    hide Search, IsMaximal, IsEnabled, WellFormed, NeverFrees, IsEmpty, CanBlock, Closed;
    var w := Shrink(v, t);
    NotEmpty(v, t);
    FewestIsBound(g, v, t, t);
    if Fewest(g, v, t).Some? {
      var tp := FewestIsChoice(g, v, t);
      if tp != t {
        ShrinkCommutes(v, t, tp);
        var v' := Shrink(v, tp);
        ShrinkClosed(g, v, tp);
        RunnableInside(g, v', v, t);
        CandidateAntitone(g, v', v, t);
        LeaveOutLast(g, v', t, tp);
        CandidateAntitone(g, w, v, tp);
        if IsEnabled(g, w, tp) { StaysForced(g, v, t, tp); }
        FewestIsBound(g, w, t, tp);
      }
    }
  }

  // ----- the greedy search finds the minimum

  lemma {:induction false} UnfoldKeepsFewest(g: Graph, v: View, t: nat)
    requires WellFormed(g) && NeverFrees(g) && ViewOf(g, v) && Closed(g, v) && t < |v|
    requires v[t] + 1 < |g.threads[t]|
    ensures var u := Unfold(g, v, t); u[t] <= v[t] && Fewest(g, v, t) == Fewest(g, u, t)
    decreases v[t]
  {
    hide Search, IsMaximal, IsEnabled, WellFormed, NeverFrees, CanBlock, Closed;
    if v[t] > 0 && IsMaximal(g, v, t) && !CanBlock(g, v, t) {
      GreedyStep(g, v, t);
      ShrinkClosed(g, v, t);
      UnfoldKeepsFewest(g, Shrink(v, t), t);
    }
  }

  /** Unfolding does not change the result. */
  lemma {:induction false} GreedyFindsFewest(g: Graph, v: View, t: nat)
    requires WellFormed(g) && NeverFrees(g) && ViewOf(g, v) && Closed(g, v) && t < |v|
    requires v[t] + 1 < |g.threads[t]|
    ensures Search(g, true, v, Some(t)) == Fewest(g, v, t)
    decreases Size(v), |v| + 1
  {
    hide Unfold, IsMaximal, IsEnabled, WellFormed, NeverFrees, IsEmpty, SearchFrom, Size, Closed;
    UnfoldKeepsFewest(g, v, t);
    UnfoldClosed(g, v, t);
    var u := Unfold(g, v, t);
    GreedyFindsFewestFrom(g, u, Some(t), |u|);
  }

  lemma {:induction false} GreedyFindsFewestFrom(g: Graph, v: View, t: Option<nat>, n: nat)
    requires WellFormed(g) && NeverFrees(g) && ViewOf(g, v) && Closed(g, v) && n <= |v|
    ensures SearchFrom(g, true, v, t, n) == SearchFrom(g, false, v, t, n)
    decreases Size(v), n
  {
    hide Search, IsMaximal, IsEnabled, WellFormed, NeverFrees, Size, Closed;
    if n > 0 {
      GreedyFindsFewestFrom(g, v, t, n - 1);
      if Candidate(g, v, n - 1) {
        ShrinkView(g, v, n - 1);
        ShrinkClosed(g, v, n - 1);
        GreedyFindsFewest(g, Shrink(v, n - 1), n - 1);
      }
    }
  }

  // ----- linearizations

  /** es holds every event of v once, and respects the order. */
  ghost predicate Linearizes(g: Graph, v: View, es: seq<Event>) {
    && (forall e {:trigger e in es} :: e in es <==> (InGraph(g, e) && Contains(v, e)))
    && (forall i, j :: 0 <= i < j < |es| ==> es[i] != es[j])
    && (forall i, j :: 0 <= i <= j < |es| ==> !Edge(g, es[j], es[i]))
  }

  /** The view reached by running es. */
  function Ran(es: seq<Event>, threads: nat): (v: View)
    ensures |v| == threads
  {
    if es == [] then Zeros(threads)
    else
      var v := Ran(es[..|es| - 1], threads);
      var t := es[|es| - 1].thread;
      if t < threads then v[t := v[t] + 1] else v
  }

  function Zeros(n: nat): (v: View)
    ensures |v| == n && forall i :: 0 <= i < n ==> v[i] == 0
  {
    if n == 0 then [] else Zeros(n - 1) + [0]
  }

  /** Is letting t run after es a preemption of the thread that ran last? */
  function Preempts(g: Graph, es: seq<Event>, t: Option<nat>): nat {
    if es == [] then 0
    else
      var v := Ran(es, |g.threads|);
      var tp := es[|es| - 1].thread;
      if tp < |v| && ViewOf(g, v) then Switch(g, v, tp, t) else 0
  }

  /** The preemptive switches in es. */
  function Preemptions(g: Graph, es: seq<Event>): nat {
    if es == [] then 0
    else
      var before := es[..|es| - 1];
      Preemptions(g, before) + Preempts(g, before, Some(es[|es| - 1].thread))
  }

  /** A linearization of a closed view ends with the last event of a candidate, and what
      comes before linearizes the rest. */
  lemma LinearizationEnds(g: Graph, v: View, es: seq<Event>) returns (t: nat)
    requires WellFormed(g) && ViewOf(g, v) && Closed(g, v) && Linearizes(g, v, es) && es != []
    ensures es[|es| - 1].thread == t && Candidate(g, v, t) && es[|es| - 1] == Last(v, t)
    ensures Linearizes(g, Shrink(v, t), es[..|es| - 1])
  {
    hide Closed, IsMaximal, WellFormed;
    var e := es[|es| - 1];
    assert e in es;
    t := e.thread;
    NothingAfterLast(g, v, es);
    assert e == Last(v, t) by {
      hide CoBefore, FromRead;
      assert e.index < v[t] ==> Edge(g, e, Last(v, t));
    }
    MaximalIffNoEdge(g, v, t);
    WithoutLast(g, v, es, t);
  }

  lemma NothingAfterLast(g: Graph, v: View, es: seq<Event>)
    requires Linearizes(g, v, es) && es != []
    ensures Maximal(g, v, es[|es| - 1])
  {
    hide CoBefore, FromRead;
    var e := es[|es| - 1];
    forall b {:trigger b in es} | b in es ensures !Edge(g, e, b) {
      var i :| 0 <= i < |es| && es[i] == b;
      assert !Edge(g, es[|es| - 1], es[i]);
    }
    forall b | Edge(g, e, b) ensures !Contains(v, b) {
      assert b in es <==> Contains(v, b);
    }
  }

  lemma WithoutLast(g: Graph, v: View, es: seq<Event>, t: nat)
    requires ViewOf(g, v) && Linearizes(g, v, es) && es != [] && t < |v| && v[t] > 0
    requires es[|es| - 1] == Last(v, t)
    ensures Linearizes(g, Shrink(v, t), es[..|es| - 1])
  {
    hide Edge;
    var before := es[..|es| - 1];
    var last := es[|es| - 1];
    assert es == before + [last];
    forall e {:trigger e in before}
      ensures e in before <==> (InGraph(g, e) && Contains(Shrink(v, t), e))
    {
      assert e in es <==> e in before || e == last;
      assert e in es <==> (InGraph(g, e) && Contains(v, e));
      if e in before {
        var i :| 0 <= i < |before| && before[i] == e;
        assert es[i] != es[|es| - 1];
      }
    }
  }

  /** A candidate's last event can end a linearization. */
  lemma LinearizationAppended(g: Graph, v: View, es: seq<Event>, t: nat)
    requires WellFormed(g) && ViewOf(g, v) && Closed(g, v) && Candidate(g, v, t)
    requires Linearizes(g, Shrink(v, t), es)
    requires !Edge(g, Last(v, t), Last(v, t))
    ensures Linearizes(g, v, es + [Last(v, t)])
  {
    hide Edge, Closed, IsMaximal, WellFormed;
    MaximalIffNoEdge(g, v, t);
    var last := Last(v, t);
    var all := es + [last];
    forall e {:trigger e in all}
      ensures e in all <==> (InGraph(g, e) && Contains(v, e))
    {
      assert e in all <==> e in es || e == last;
    }
    assert last !in es;
    forall i, j | 0 <= i <= j < |all|
      ensures !Edge(g, all[j], all[i])
    {
      assert all[i] in all;
    }
    forall i, j | 0 <= i < j < |all|
      ensures all[i] != all[j]
    {
      assert all[i] in es;
    }
  }

  lemma {:induction false} RanLinearization(g: Graph, v: View, es: seq<Event>)
    requires WellFormed(g) && ViewOf(g, v) && Closed(g, v) && Linearizes(g, v, es)
    ensures Ran(es, |g.threads|) == v
    decreases |es|
  {
    hide Closed, IsMaximal, WellFormed, Linearizes;
    if es == [] {
      NothingToLinearize(g, v);
    } else {
      var t := LinearizationEnds(g, v, es);
      ShrinkClosed(g, v, t);
      RanLinearization(g, Shrink(v, t), es[..|es| - 1]);
    }
  }

  lemma NothingToLinearize(g: Graph, v: View)
    requires ViewOf(g, v) && Linearizes(g, v, [])
    ensures v == Zeros(|g.threads|)
  {
    forall t | 0 <= t < |v| ensures v[t] == 0 {
      var none: seq<Event> := [];
      assert v[t] > 0 ==> Last(v, t) in none;
    }
  }

  /** What a linearization costs if t continues. */
  function Cost(g: Graph, es: seq<Event>, t: Option<nat>): nat {
    Preemptions(g, es) + Preempts(g, es, t)
  }

  /** The cost splits like the search's. */
  lemma CostSplits(g: Graph, v: View, es: seq<Event>, t: Option<nat>, tp: nat)
    requires WellFormed(g) && ViewOf(g, v) && Closed(g, v) && Linearizes(g, v, es)
    requires es != [] && es[|es| - 1].thread == tp && tp < |v|
    ensures Cost(g, es, t) == Cost(g, es[..|es| - 1], Some(tp)) + Switch(g, v, tp, t)
  {
    hide Closed, IsMaximal, WellFormed, Linearizes, Ran, Switch;
    RanLinearization(g, v, es);
  }

  /** No linearization costs less than the minimum found. */
  lemma {:induction false} NoneCheaper(g: Graph, v: View, es: seq<Event>, t: Option<nat>)
    requires WellFormed(g) && ViewOf(g, v) && Closed(g, v) && (t.Some? ==> t.value < |v|)
    requires Linearizes(g, v, es)
    ensures AtMost(Search(g, false, v, t), Some(Cost(g, es, t)))
    decreases |es|
  {
    hide Closed, IsMaximal, WellFormed, Linearizes, Cost, Switch, SearchFrom;
    if es == [] {
      NothingToLinearize(g, v);
    } else {
      var tp := LinearizationEnds(g, v, es);
      ShrinkClosed(g, v, tp);
      CostSplits(g, v, es, t, tp);
      NoneCheaper(g, Shrink(v, tp), es[..|es| - 1], Some(tp));
      NotEmpty(v, tp);
      BestIsBound(g, false, v, t, |v|, tp);
    }
  }

  /** Some linearization costs as little as the minimum found. */
  lemma {:induction false} MinimumAttained(g: Graph, v: View, t: Option<nat>) returns (es: seq<Event>)
    requires WellFormed(g) && Acyclic(g) && ViewOf(g, v) && Closed(g, v) && (t.Some? ==> t.value < |v|)
    requires Search(g, false, v, t).Some?
    ensures Linearizes(g, v, es) && Cost(g, es, t) == Search(g, false, v, t).value
    decreases Size(v)
  {
    hide Closed, IsMaximal, WellFormed, Linearizes, Cost, Switch, SearchFrom, Acyclic;
    if IsEmpty(v) {
      es := [];
      EmptyLinearized(g, v);
      EmptyIsFree(g, t);
    } else {
      var tp := BestIsChoice(g, false, v, t, |v|);
      ShrinkClosed(g, v, tp);
      ShrinkView(g, v, tp);
      var before := MinimumAttained(g, Shrink(v, tp), Some(tp));
      NoLoop(g, Last(v, tp));
      LinearizationAppended(g, v, before, tp);
      es := before + [Last(v, tp)];
      assert es[..|es| - 1] == before;
      CostSplits(g, v, es, t, tp);
    }
  }

  lemma NoLoop(g: Graph, e: Event)
    requires Acyclic(g)
    ensures !Edge(g, e, e)
  {
    hide Edge;
    var rank :| Ranks(g, rank);
  }

  lemma EmptyIsFree(g: Graph, t: Option<nat>)
    ensures Cost(g, [], t) == 0
  {
  }

  lemma EmptyLinearized(g: Graph, v: View)
    requires ViewOf(g, v) && IsEmpty(v)
    ensures Linearizes(g, v, [])
  {
  }

  // ----- preemptive switches, counted in the linearization itself

  ghost function EventsIn(es: seq<Event>): iset<Event> {
    iset e | e in es
  }

  /** Another thread runs at position i, though the one before it could have gone on. */
  ghost predicate PreemptedAt(g: Graph, es: seq<Event>, i: int) {
    0 < i < |es| && es[i].thread != es[i - 1].thread && CouldRun(g, EventsIn(es[..i]), es[i - 1].thread)
  }

  /** The preemptive switches of es. */
  ghost function Preempted(g: Graph, es: seq<Event>): set<int> {
    set i | 0 < i < |es| && PreemptedAt(g, es, i)
  }

  lemma DoneIsRan(g: Graph, v: View, es: seq<Event>)
    requires Linearizes(g, v, es)
    ensures Done(g, v) == EventsIn(es)
  {
    hide Edge;
    forall e ensures e in Done(g, v) <==> e in es {
      assert e in es <==> (InGraph(g, e) && Contains(v, e));
    }
  }

  lemma PreemptedStep(g: Graph, es: seq<Event>)
    requires es != []
    ensures var n := |es| - 1;
      Preempted(g, es) == Preempted(g, es[..n]) + (if PreemptedAt(g, es, n) then {n} else {})
        && n !in Preempted(g, es[..n])
  {
    hide CouldRun;
    var n := |es| - 1;
    forall i | 0 < i < n ensures PreemptedAt(g, es, i) <==> PreemptedAt(g, es[..n], i) {
      assert es[..n][..i] == es[..i];
    }
  }

  /** The switches that the recursion counts are the preemptive ones. */
  lemma {:induction false} PreemptionsCounted(g: Graph, v: View, es: seq<Event>)
    requires WellFormed(g) && ViewOf(g, v) && Closed(g, v) && Linearizes(g, v, es)
    ensures Preemptions(g, es) == |Preempted(g, es)|
    decreases |es|
  {
    hide Closed, IsMaximal, WellFormed, Linearizes, Preempted, PreemptedAt, Preempts;
    if es == [] {
      NoneSwitched(g);
    } else {
      var n := |es| - 1;
      var t := LinearizationEnds(g, v, es);
      ShrinkClosed(g, v, t);
      PreemptionsCounted(g, Shrink(v, t), es[..n]);
      PreemptedStep(g, es);
      LastSwitch(g, Shrink(v, t), es, t);
    }
  }

  lemma NoneSwitched(g: Graph)
    ensures |Preempted(g, [])| == 0
  {
  }

  lemma LastSwitch(g: Graph, v: View, es: seq<Event>, t: nat)
    requires WellFormed(g) && ViewOf(g, v) && Closed(g, v) && es != [] && t == es[|es| - 1].thread
    requires Linearizes(g, v, es[..|es| - 1])
    ensures Preempts(g, es[..|es| - 1], Some(t)) == if PreemptedAt(g, es, |es| - 1) then 1 else 0
  {
    hide Closed, IsMaximal, IsEnabled, WellFormed, Linearizes, Ran, CouldRun, Done;
    var before := es[..|es| - 1];
    if before != [] {
      RanLinearization(g, v, before);
      DoneIsRan(g, v, before);
      var tp := LinearizationEnds(g, v, before);
      EnabledIffCouldRun(g, v, tp);
    }
  }

  // ----- main results

  /** calculate returns the true minimum: no linearization of the graph has fewer
      preemptive switches, and one has exactly as many. */
  lemma CalculateIsMinimum(g: Graph) returns (best: seq<Event>)
    requires WellFormed(g) && Acyclic(g) && NeverFrees(g)
    ensures var c := Search(g, true, Full(g), None);
      && c.Some?
      && (forall es :: Linearizes(g, Full(g), es) ==> c.value <= |Preempted(g, es)|)
      && Linearizes(g, Full(g), best) && |Preempted(g, best)| == c.value
  {
    hide Closed, WellFormed, Linearizes, SearchFrom, Acyclic, NeverFrees, Preemptions, Preempted, Full;
    var v := Full(g);
    FullClosed(g);
    SearchDefined(g, false, v, None);
    GreedyFindsFewestFrom(g, v, None, |v|);
    best := MinimumAttained(g, v, None);
    NoContinuation(g, best);
    PreemptionsCounted(g, v, best);
    forall es | Linearizes(g, v, es)
      ensures Search(g, true, v, None).value <= |Preempted(g, es)|
    {
      NoneCheaper(g, v, es, None);
      NoContinuation(g, es);
      PreemptionsCounted(g, v, es);
    }
  }

  lemma NoContinuation(g: Graph, es: seq<Event>)
    ensures Cost(g, es, None) == Preemptions(g, es)
  {
  }

  /** In particular on graphs without lock and barrier reads. */
  lemma CalculateIsMinimumOfPlain(g: Graph) returns (best: seq<Event>)
    requires WellFormed(g) && Acyclic(g) && OnlyPlainReads(g)
    ensures var c := Search(g, true, Full(g), None);
      && c.Some?
      && (forall es :: Linearizes(g, Full(g), es) ==> c.value <= |Preempted(g, es)|)
      && Linearizes(g, Full(g), best) && |Preempted(g, best)| == c.value
    ensures forall bound: nat ::
      ExceedsBound(g, bound) <==> forall es :: Linearizes(g, Full(g), es) ==> |Preempted(g, es)| > bound
  {
    hide WellFormed, Acyclic, Search, Linearizes, Preempted, Full, OnlyPlainReads, NeverFrees, ExceedsBound;
    PlainReadsNeverFree(g);
    best := CalculateIsMinimum(g);
    forall bound: nat
      ensures ExceedsBound(g, bound) <==> forall es :: Linearizes(g, Full(g), es) ==> |Preempted(g, es)| > bound
    {
      ExceedsIffAllAbove(g, bound);
    }
  }

  /** So the verdict on a bound is about linearizations: it is exceeded exactly if every
      linearization has more preemptive switches. */
  lemma ExceedsIffAllAbove(g: Graph, bound: nat)
    requires WellFormed(g) && Acyclic(g) && NeverFrees(g)
    ensures ExceedsBound(g, bound) <==> (forall es :: Linearizes(g, Full(g), es) ==> |Preempted(g, es)| > bound)
  {
    hide Linearizes, Preempted, Search, ExceedsBound, WellFormed, Acyclic, NeverFrees, Full;
    ExceedsIffAbove(g, bound, bound);
    var best := CalculateIsMinimum(g);
  }
}
