/** The searches of src/ContextBoundDecider.cpp over backward linearizations. */
module ContextSearch {
  import opened Options
  import opened Events
  import opened ContextBound
  import opened ContextOrder

  // ----- costs, where None stands for a search without a result

  ghost predicate AtMost(a: Option<nat>, b: Option<nat>) {
    b.Some? ==> a.Some? && a.value <= b.value
  }

  function Min(a: Option<nat>, b: Option<nat>): Option<nat> {
    if a.Some? && (b.None? || a.value <= b.value) then a else b
  }

  function Plus(a: Option<nat>, n: nat): Option<nat> {
    if a.Some? then Some(a.value + n) else None
  }

  // ----- specifications

  /** What unfoldPrefix leaves: the events of t go while they are maximal and cannot block. */
  function Unfold(g: Graph, v: View, t: nat): (u: View)
    requires ViewOf(g, v) && t < |v|
    ensures ViewOf(g, u) && Size(u) <= Size(v)
    decreases v[t]
  {
    if v[t] > 0 && IsMaximal(g, v, t) && !CanBlock(g, v, t) then
      ShrinkView(g, v, t);
      Unfold(g, Shrink(v, t), t)
    else v
  }

  /** Is it a preemption to run t right after prefix v, whose last event is by tp? */
  function Switch(g: Graph, v: View, tp: nat, t: Option<nat>): nat
    requires ViewOf(g, v) && tp < |v|
  {
    if t.Some? && t.value != tp && IsEnabled(g, v, tp) then 1 else 0
  }

  /** The fewest preemptions of a linearization of v that t continues (None: nobody does).
      If unfold, the events of t are taken first, as far as possible. */
  function Search(g: Graph, unfold: bool, v: View, t: Option<nat>): Option<nat>
    requires ViewOf(g, v) && (t.Some? ==> t.value < |v|)
    decreases Size(v), |v| + 1
  {
    var u := if unfold && t.Some? then Unfold(g, v, t.value) else v;
    if IsEmpty(u) then Some(0) else SearchFrom(g, unfold, u, t, |u|)
  }

  /** The same, where one of the first n threads runs last in v. */
  function SearchFrom(g: Graph, unfold: bool, v: View, t: Option<nat>, n: nat): Option<nat>
    requires ViewOf(g, v) && n <= |v|
    decreases Size(v), n
  {
    if n == 0 then None
    else Min(SearchFrom(g, unfold, v, t, n - 1), Choice(g, unfold, v, t, n - 1))
  }

  /** The same, where tp runs last in v. */
  function Choice(g: Graph, unfold: bool, v: View, t: Option<nat>, tp: nat): Option<nat>
    requires ViewOf(g, v) && tp < |v|
    decreases Size(v), 0
  {
    if Candidate(g, v, tp) then
      ShrinkView(g, v, tp);
      Plus(Search(g, unfold, Shrink(v, tp), Some(tp)), Switch(g, v, tp, t))
    else None
  }

  /** Can v be finished with at most bound preemptions? */
  ghost predicate Finishable(g: Graph, v: View, t: Option<nat>, bound: nat)
    requires ViewOf(g, v) && (t.Some? ==> t.value < |v|)
    decreases Size(v), |v| + 1
  {
    var u := if t.Some? then Unfold(g, v, t.value) else v;
    IsEmpty(u) || FinishableFrom(g, u, t, bound, |u|)
  }

  /** The same, where one of the first n threads runs last in v. */
  ghost predicate FinishableFrom(g: Graph, v: View, t: Option<nat>, bound: nat, n: nat)
    requires ViewOf(g, v) && n <= |v|
    decreases Size(v), n
  {
    n > 0 && (FinishableFrom(g, v, t, bound, n - 1) || FinishableVia(g, v, t, bound, n - 1))
  }

  ghost predicate FinishableVia(g: Graph, v: View, t: Option<nat>, bound: nat, tp: nat)
    requires ViewOf(g, v) && tp < |v|
    decreases Size(v), 0
  {
    Candidate(g, v, tp) &&
    var s := Switch(g, v, tp, t);
    ShrinkView(g, v, tp);
    s <= bound && Finishable(g, Shrink(v, tp), Some(tp), bound - s)
  }

  // ----- the search result is the best choice

  lemma {:induction false} BestIsBound(g: Graph, unfold: bool, v: View, t: Option<nat>, n: nat, tp: nat)
    requires ViewOf(g, v) && tp < n <= |v|
    ensures AtMost(SearchFrom(g, unfold, v, t, n), Choice(g, unfold, v, t, tp))
  {
    hide Choice, Candidate;
    if tp < n - 1 { BestIsBound(g, unfold, v, t, n - 1, tp); }
  }

  lemma {:induction false} BestIsChoice(g: Graph, unfold: bool, v: View, t: Option<nat>, n: nat) returns (tp: nat)
    requires ViewOf(g, v) && n <= |v| && SearchFrom(g, unfold, v, t, n).Some?
    ensures tp < n && SearchFrom(g, unfold, v, t, n) == Choice(g, unfold, v, t, tp)
  {
    hide Choice, Candidate;
    tp := n - 1;
    if SearchFrom(g, unfold, v, t, n) != Choice(g, unfold, v, t, n - 1) {
      tp := BestIsChoice(g, unfold, v, t, n - 1);
    }
  }

  // ----- the bounded search agrees with the minimum

  /** A prefix can be finished within a bound exactly when its cost is within it. */
  lemma {:induction false} FinishableIffWithin(g: Graph, v: View, t: Option<nat>, bound: nat)
    requires ViewOf(g, v) && (t.Some? ==> t.value < |v|)
    ensures Finishable(g, v, t, bound) <==> AtMost(Search(g, true, v, t), Some(bound))
    decreases Size(v), |v| + 1
  {
    hide Unfold, FinishableVia, Choice, IsEmpty, SearchFrom, FinishableFrom;
    var u := if t.Some? then Unfold(g, v, t.value) else v;
    if !IsEmpty(u) { FromIffWithin(g, u, t, bound, |u|); }
  }

  lemma {:induction false} FromIffWithin(g: Graph, v: View, t: Option<nat>, bound: nat, n: nat)
    requires ViewOf(g, v) && n <= |v|
    ensures FinishableFrom(g, v, t, bound, n) <==> AtMost(SearchFrom(g, true, v, t, n), Some(bound))
    decreases Size(v), n
  {
    hide FinishableVia, Choice;
    if n > 0 {
      FromIffWithin(g, v, t, bound, n - 1);
      ViaIffWithin(g, v, t, bound, n - 1);
    }
  }

  lemma {:induction false} ViaIffWithin(g: Graph, v: View, t: Option<nat>, bound: nat, tp: nat)
    requires ViewOf(g, v) && tp < |v|
    ensures FinishableVia(g, v, t, bound, tp) <==> AtMost(Choice(g, true, v, t, tp), Some(bound))
    decreases Size(v), 0
  {
    hide Search, Finishable, IsMaximal, IsEnabled;
    if Candidate(g, v, tp) {
      ShrinkView(g, v, tp);
      if Switch(g, v, tp, t) <= bound {
        FinishableIffWithin(g, Shrink(v, tp), Some(tp), bound - Switch(g, v, tp, t));
      }
    }
  }

  /** The verdict doesExecutionExceedBound gives. */
  ghost predicate ExceedsBound(g: Graph, bound: nat)
    requires WellFormed(g)
  {
    !Finishable(g, Full(g), None, bound)
  }

  /** The bound is exceeded exactly if calculate's result is above it, and if it is
      exceeded then so is every smaller one. */
  lemma ExceedsIffAbove(g: Graph, bound: nat, smaller: nat)
    requires WellFormed(g)
    ensures ExceedsBound(g, bound) <==> !AtMost(Search(g, true, Full(g), None), Some(bound))
    ensures ExceedsBound(g, bound) && smaller <= bound ==> ExceedsBound(g, smaller)
  {
    hide Finishable, Search;
    FinishableIffWithin(g, Full(g), None, bound);
    FinishableIffWithin(g, Full(g), None, smaller);
  }

  lemma {:induction false} FinishedBy(g: Graph, v: View, t: Option<nat>, bound: nat, n: nat, tp: nat)
    requires ViewOf(g, v) && tp < n <= |v| && FinishableVia(g, v, t, bound, tp)
    ensures FinishableFrom(g, v, t, bound, n)
  {
    hide FinishableVia;
    if tp < n - 1 { FinishedBy(g, v, t, bound, n - 1, tp); }
  }

  // ----- both searches are defined

  lemma {:induction false} UnfoldClosed(g: Graph, v: View, t: nat)
    requires WellFormed(g) && ViewOf(g, v) && Closed(g, v) && t < |v|
    ensures Closed(g, Unfold(g, v, t))
    decreases v[t]
  {
    hide IsMaximal, Closed, WellFormed;
    if v[t] > 0 && IsMaximal(g, v, t) && !CanBlock(g, v, t) {
      ShrinkClosed(g, v, t);
      UnfoldClosed(g, Shrink(v, t), t);
    }
  }

  /** On an acyclic graph, the searches find a result for every downward-closed view. */
  lemma {:induction false} SearchDefined(g: Graph, unfold: bool, v: View, t: Option<nat>)
    requires WellFormed(g) && Acyclic(g) && ViewOf(g, v) && Closed(g, v) && (t.Some? ==> t.value < |v|)
    ensures Search(g, unfold, v, t).Some?
    decreases Size(v)
  {
    hide IsMaximal, Closed, WellFormed, Acyclic, SearchFrom, IsEmpty;
    var u := if unfold && t.Some? then Unfold(g, v, t.value) else v;
    if t.Some? { UnfoldClosed(g, v, t.value); }
    if !IsEmpty(u) {
      CandidateExists(g, u);
      var tp :| Candidate(g, u, tp);
      ShrinkClosed(g, u, tp);
      ShrinkView(g, u, tp);
      SearchDefined(g, unfold, Shrink(u, tp), Some(tp));
      BestIsBound(g, unfold, u, t, |u|, tp);
    }
  }

  // ----- the decider

  method UnfoldPrefix(g: Graph, v: View, t: nat) returns (u: View)
    requires ViewOf(g, v) && t < |v|
    ensures u == Unfold(g, v, t)
  {
    u := v;
    while u[t] > 0 && IsMaximal(g, u, t) && !CanBlock(g, u, t)
      invariant ViewOf(g, u) && |u| == |v|
      invariant Unfold(g, u, t) == Unfold(g, v, t)
      decreases u[t]
    {
      u := Shrink(u, t);
    }
  }

  /** Despite its name, it answers whether the prefix can be finished within the bound. */
  method DoesPrefixExceedBound(g: Graph, v0: View, t: nat, bound: nat) returns (finished: bool)
    requires WellFormed(g) && Acyclic(g) && ViewOf(g, v0) && Closed(g, v0) && t < |v0|
    ensures finished == Finishable(g, v0, Some(t), bound)
    decreases Size(v0)
  {
    hide IsMaximal, IsEnabled, IsEmpty, WellFormed, Acyclic, Closed, Unfold, Size;
    UnfoldClosed(g, v0, t);
    var v := UnfoldPrefix(g, v0, t);
    if IsEmpty(v) { return true; }
    var found := false;
    for tp := 0 to |v|
      invariant !FinishableFrom(g, v, Some(t), bound, tp)
      invariant found == exists u :: 0 <= u < tp && Candidate(g, v, u)
    {
      if v[tp] == 0 || !IsMaximal(g, v, tp) { continue; }
      found := true;
      var sp := Shrink(v, tp);
      ShrinkClosed(g, v, tp);
      ShrinkView(g, v, tp);
      if tp != t && IsEnabled(g, v, tp) {
        if bound > 0 {
          var r := DoesPrefixExceedBound(g, sp, tp, bound - 1);
          if r { FinishedBy(g, v, Some(t), bound, |v|, tp); return true; }
        }
      } else {
        var r := DoesPrefixExceedBound(g, sp, tp, bound);
        if r { FinishedBy(g, v, Some(t), bound, |v|, tp); return true; }
      }
    }
    CandidateExists(g, v);
    assert found;
    return false;
  }

  method DoesExecutionExceedBound(g: Graph, bound: nat) returns (exceeds: bool)
    requires WellFormed(g) && Acyclic(g) && !IsEmpty(Full(g))
    ensures exceeds == ExceedsBound(g, bound)
  {
    hide IsMaximal, IsEnabled, IsEmpty, WellFormed, Acyclic, Closed, Unfold, Full;
    var v := Full(g);
    FullClosed(g);
    var found := false;
    for i := 0 to |v|
      invariant !FinishableFrom(g, v, None, bound, i)
      invariant found == exists u :: 0 <= u < i && Candidate(g, v, u)
    {
      if v[i] == 0 || !IsMaximal(g, v, i) { continue; }
      found := true;
      ShrinkClosed(g, v, i);
      var sp := Shrink(v, i);
      var r := DoesPrefixExceedBound(g, sp, i, bound);
      if r { FinishedBy(g, v, None, bound, |v|, i); return false; }
    }
    CandidateExists(g, v);
    assert found;
    return true;
  }

  method CalculatePrefix(g: Graph, v0: View, t: nat) returns (cost: nat)
    requires WellFormed(g) && Acyclic(g) && ViewOf(g, v0) && Closed(g, v0) && t < |v0|
    ensures Search(g, true, v0, Some(t)) == Some(cost)
    decreases Size(v0)
  {
    hide IsMaximal, IsEnabled, IsEmpty, WellFormed, Acyclic, Closed, Unfold, Size;
    UnfoldClosed(g, v0, t);
    SearchDefined(g, true, v0, Some(t));
    var v := UnfoldPrefix(g, v0, t);
    if IsEmpty(v) { return 0; }
    var res: Option<nat> := None;
    for tp := 0 to |v|
      invariant res == SearchFrom(g, true, v, Some(t), tp)
    {
      if v[tp] == 0 || !IsMaximal(g, v, tp) { continue; }
      var sp := Shrink(v, tp);
      ShrinkClosed(g, v, tp);
      ShrinkView(g, v, tp);
      var c := CalculatePrefix(g, sp, tp);
      var bound := c + if t != tp && IsEnabled(g, v, tp) then 1 else 0;
      res := Some(if res.Some? && res.value <= bound then res.value else bound);
    }
    return res.value;
  }

  method Calculate(g: Graph) returns (cost: nat)
    requires WellFormed(g) && Acyclic(g) && !IsEmpty(Full(g))
    ensures Search(g, true, Full(g), None) == Some(cost)
  {
    hide IsMaximal, IsEnabled, IsEmpty, WellFormed, Acyclic, Closed, Unfold, Full;
    var v := Full(g);
    FullClosed(g);
    SearchDefined(g, true, v, None);
    var res: Option<nat> := None;
    for i := 0 to |v|
      invariant res == SearchFrom(g, true, v, None, i)
    {
      if v[i] == 0 || !IsMaximal(g, v, i) { continue; }
      ShrinkClosed(g, v, i);
      var sp := Shrink(v, i);
      var b := CalculatePrefix(g, sp, i);
      res := Some(if res.Some? && res.value <= b then res.value else b);
    }
    return res.value;
  }
}
