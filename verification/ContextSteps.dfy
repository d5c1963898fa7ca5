/** Following the searches of src/ContextBoundDecider.cpp on a given graph: what a search
    with one candidate costs, what is unfolded, and that any sequence of candidates bounds
    the minimum. */
module ContextSteps {
  import opened Options
  import opened Events
  import opened ContextBound
  import opened ContextOrder
  import opened ContextSearch
  import opened ContextOptimal

  /** With one candidate, a search has no choice. */
  lemma {:induction false} OnlyCandidate(g: Graph, unfold: bool, v: View, t: Option<nat>, tp: nat, n: nat)
    requires ViewOf(g, v) && tp < |v| && n <= |v| && Candidate(g, v, tp)
    requires forall u {:trigger Candidate(g, v, u)} :: 0 <= u < |v| && u != tp ==> !Candidate(g, v, u)
    ensures ViewOf(g, Shrink(v, tp))
    ensures SearchFrom(g, unfold, v, t, n)
      == if tp < n then Plus(Search(g, unfold, Shrink(v, tp), Some(tp)), Switch(g, v, tp, t)) else None
  {
    hide Search, Candidate, IsEnabled;
    CandidateShrinks(g, v, tp);
    if n > 0 {
      OnlyCandidate(g, unfold, v, t, tp, n - 1);
    }
  }

  lemma CandidateShrinks(g: Graph, v: View, tp: nat)
    requires ViewOf(g, v) && Candidate(g, v, tp)
    ensures v[tp] > 0 && ViewOf(g, Shrink(v, tp))
  {
  }

  lemma UnfoldOnce(g: Graph, v: View, t: nat)
    requires ViewOf(g, v) && t < |v|
    ensures v[t] > 0 && IsMaximal(g, v, t) && !CanBlock(g, v, t)
      ==> ViewOf(g, Shrink(v, t)) && Unfold(g, v, t) == Unfold(g, Shrink(v, t), t)
    ensures v[t] == 0 || CanBlock(g, v, t) || !IsMaximal(g, v, t) ==> Unfold(g, v, t) == v
  {
    hide IsMaximal, CanBlock;
    if v[t] > 0 { ShrinkView(g, v, t); }
  }

  /** A greedy search that unfolds v to u. */
  lemma GreedySearch(g: Graph, v: View, t: nat, u: View)
    requires ViewOf(g, v) && t < |v| && Unfold(g, v, t) == u && !IsEmpty(u)
    ensures ViewOf(g, u) && Search(g, true, v, Some(t)) == SearchFrom(g, true, u, Some(t), |u|)
  {
    hide Unfold, SearchFrom;
  }

  /** A step of a search that is not greedy. */
  lemma Taken(g: Graph, v: View, t: nat, tp: nat, w: View, n: nat, m: nat)
    requires ViewOf(g, v) && ViewOf(g, w) && t < |v| && Candidate(g, v, tp) && w == Shrink(v, tp)
    requires AtMost(Fewest(g, w, tp), Some(n)) && m >= n + Switch(g, v, tp, Some(t))
    ensures AtMost(Fewest(g, v, t), Some(m))
  {
    hide Fewest, IsMaximal, IsEnabled, ViewOf;
    FewestIsBound(g, v, t, tp);
  }

  /** A thread without events left has nothing to unfold. */
  lemma NothingToUnfold(g: Graph, v: View, t: nat)
    requires ViewOf(g, v) && t < |v| && v[t] == 0
    ensures Unfold(g, v, t) == v
  {
  }
}
