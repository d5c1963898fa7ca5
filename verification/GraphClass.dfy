/** The execution graph as an object, with the operations that restrict it: the view of a
    stamp, cutting in place, and copying. Cutting and copying are both proved to yield the
    graph restricted to the view, so they agree. */
module GraphClass {
  import opened Options
  import opened Events
  import opened RfOptions
  import opened GraphModel
  import opened GraphCut

  class ExecutionGraph {
    var threads: seq<Thread>
    var co: map<nat, seq<Event>>
    var initRfs: map<nat, seq<Event>>
    var timestamp: nat

    ghost function G(): Graph
      reads this
    {
      Graph(threads, co, initRfs, timestamp)
    }

    /** Only the initializer. */
    constructor ()
      ensures G() == Graph([[Lab(0, Start)]], map[], map[], 1)
    {
      threads, co, initRfs, timestamp := [[Lab(0, Start)]], map[], map[], 1;
    }

    method GetViewFromStamp(stamp: nat) returns (preds: View)
      ensures preds == ViewFromStamp(threads, stamp, |threads|)
    {
      preds := [];
      for i := 0 to |threads|
        invariant preds == ViewFromStamp(threads, stamp, i)
      {
        var max, j := 0, |threads[i]| - 1;
        while j >= 0
          invariant -1 <= j < |threads[i]|
          invariant max == 0
          invariant LastUpTo(threads[i], stamp, j + 1) == LastUpTo(threads[i], stamp, |threads[i]|)
        {
          if threads[i][j].stamp <= stamp {
            max := j;
            break;
          }
          j := j - 1;
        }
        preds := preds + [max];
      }
    }

    /** Which locations are kept: those the view's events access. */
    method RemoveAfter(preds: View)
      requires ViewOf(threads, preds)
      modifies this`co, this`initRfs
      ensures co == FilterMap(old(co), Buckets(threads, preds, |threads|), preds)
      ensures initRfs == FilterMap(old(initRfs), Buckets(threads, preds, |threads|), preds)
    {
      hide FilterMap;
      var keep: set<nat> := {};
      for i := 0 to |threads|
        invariant keep == Buckets(threads, preds, i)
      {
        ghost var before := keep;
        for j := 0 to preds[i] + 1
          invariant keep == before + ThreadBuckets(threads[i], j)
        {
          keep := keep + BucketOf(threads[i][j].body);
        }
      }
      co := FilterBuckets(co, keep, preds);
      initRfs := FilterBuckets(initRfs, keep, preds);
    }

    /** Keeps the events with stamps up to the given one, and every thread's start. */
    method CutToStamp(stamp: nat)
      requires forall t :: 0 <= t < |threads| ==> threads[t] != []
      modifies this
      ensures ViewOf(old(threads), ViewFromStamp(old(threads), stamp, |old(threads)|))
      ensures G() == Restrict(old(G()), ViewFromStamp(old(threads), stamp, |old(threads)|))
    {
      hide ViewFromStamp, Buckets, FilterMap, PruneThread, PruneThreads, Restrict;
      var preds := GetViewFromStamp(stamp);
      ViewFromStampIsView(threads, stamp);
      RemoveAfter(preds);
      ghost var was := threads;
      RemoveLinks(preds);
      Truncate(was, preds);
      PrunedThreads(was, preds, threads);
      RestrictIs(old(G()), preds);
    }

    /** Removes the links of the events that stay to events that will be removed. */
    method RemoveLinks(preds: View)
      requires ViewOf(threads, preds)
      modifies this`threads
      ensures |threads| == |old(threads)|
      ensures forall t ::
        0 <= t < |threads| ==>
          threads[t] == PruneThread(old(threads)[t], preds, preds[t] + 1) + old(threads)[t][preds[t] + 1..]
    {
      hide PruneThread;
      ghost var was := threads;
      for i := 0 to |threads|
        invariant |threads| == |was|
        invariant forall t ::
          0 <= t < i ==>
            threads[t] == PruneThread(was[t], preds, preds[t] + 1) + was[t][preds[t] + 1..]
        invariant forall t :: i <= t < |threads| ==> threads[t] == was[t]
      {
        var thr := CutThread(threads[i], preds, preds[i] + 1);
        threads := threads[i := thr];
      }
    }

    /** Erases what is not in the view. */
    method Truncate(ghost was: seq<Thread>, preds: View)
      requires ViewOf(was, preds) && |threads| == |was|
      requires forall t ::
        0 <= t < |threads| ==>
          threads[t] == PruneThread(was[t], preds, preds[t] + 1) + was[t][preds[t] + 1..]
      modifies this`threads
      ensures |threads| == |was|
      ensures forall t :: 0 <= t < |threads| ==> threads[t] == PruneThread(was[t], preds, preds[t] + 1)
    {
      hide PruneThread;
      for i := 0 to |threads|
        invariant |threads| == |was|
        invariant forall t :: 0 <= t < i ==> threads[t] == PruneThread(was[t], preds, preds[t] + 1)
        invariant forall t ::
          i <= t < |threads| ==>
            threads[t] == PruneThread(was[t], preds, preds[t] + 1) + was[t][preds[t] + 1..]
      {
        threads := threads[i := threads[i][..preds[i] + 1]];
      }
    }

    /** Makes other a copy of the events in the view. */
    method CopyGraphUpTo(other: ExecutionGraph, v: View)
      requires this != other && ViewOf(threads, v)
      requires LinksInside(G()) && BucketsTracked(G())
      modifies other
      ensures other.G() == Restrict(G(), v)
    {
      hide Restrict, Buckets, FilterMap, PruneThread, CloneThread, LinkedInside;
      other.timestamp := timestamp;
      other.threads := [];
      var buckets: set<nat> := {};
      NoBuckets(threads, v);
      for i := 0 to |threads|
        invariant |other.threads| == i
        invariant forall t :: 0 <= t < i ==> other.threads[t] == CloneThread(threads[t], v, v[t] + 1)
        invariant buckets == Buckets(threads, v, i)
        invariant other.timestamp == timestamp
      {
        var thr, seen := CopyLabels(threads[i], v, v[i] + 1);
        other.threads := other.threads + [thr];
        BucketsStep(threads, v, i);
        buckets := buckets + seen;
      }
      var cloned := other.threads;
      var linked: seq<Thread> := [];
      for i := 0 to |threads|
        invariant |linked| == i && other.timestamp == timestamp
        invariant forall t :: 0 <= t < i ==> linked[t] == PruneThread(threads[t], v, v[t] + 1)
      {
        forall j | 0 <= j < |threads[i]| ensures LinkedInside(threads, threads[i][j].body) {
          assert ContainsPos(threads, Event(i, j));
        }
        var thr := RelinkThread(i, threads, cloned, v);
        linked := linked + [thr];
      }
      other.threads := linked;
      PrunedThreads(threads, v, linked);
      TrackedBuckets(G(), v);
      other.co := CopyBuckets(co, buckets, v);
      other.initRfs := CopyBuckets(initRfs, buckets, v);
      RestrictIs(G(), v);
    }
  }

  lemma BucketsStep(threads: seq<Thread>, v: View, n: nat)
    requires ViewOf(threads, v) && n < |threads|
    ensures Buckets(threads, v, n + 1) == Buckets(threads, v, n) + ThreadBuckets(threads[n], v[n] + 1)
  {
  }

  lemma NoBuckets(threads: seq<Thread>, v: View)
    requires ViewOf(threads, v)
    ensures Buckets(threads, v, 0) == {}
  {
  }

  lemma RestrictIs(g: Graph, v: View)
    requires ViewOf(g.threads, v)
    ensures var keep := Buckets(g.threads, v, |g.threads|);
      Restrict(g, v) == Graph(PruneThreads(g.threads, v, |g.threads|), FilterMap(g.co, keep, v),
                              FilterMap(g.initRfs, keep, v), g.timestamp)
  {
  }

  lemma PrunedThreads(threads: seq<Thread>, v: View, pruned: seq<Thread>)
    requires ViewOf(threads, v) && |pruned| == |threads|
    requires forall t :: 0 <= t < |pruned| ==> pruned[t] == PruneThread(threads[t], v, v[t] + 1)
    ensures pruned == PruneThreads(threads, v, |threads|)
  {
    hide PruneThread, PruneThreads;
    forall t | 0 <= t < |threads| ensures pruned[t] == PruneThreads(threads, v, |threads|)[t] {
      PruneThreadsAt(threads, v, |threads|, t);
    }
  }

  /** The buckets that the copied events access are tracked, and are all that coherence and
      the initializer's readers need. */
  lemma TrackedBuckets(g: Graph, v: View)
    requires ViewOf(g.threads, v) && BucketsTracked(g)
    ensures var keep := Buckets(g.threads, v, |g.threads|);
      && keep <= g.co.Keys && keep <= g.initRfs.Keys
      && (forall a, e :: a in g.co && e in g.co[a] && Contains(v, e) ==> a in keep)
      && (forall a, e :: a in g.initRfs && e in g.initRfs[a] && Contains(v, e) ==> a in keep)
  {
    hide Buckets;
    var keep := Buckets(g.threads, v, |g.threads|);
    forall a | a in keep ensures a in g.co {
      var e := BucketsFrom(g.threads, v, |g.threads|, a);
      assert ContainsPos(g.threads, e);
    }
    forall a, e | a in g.co && e in g.co[a] && Contains(v, e) ensures a in keep {
      assert ContainsPos(g.threads, e);
      BucketsHas(g.threads, v, |g.threads|, e);
    }
    forall a, e | a in g.initRfs && e in g.initRfs[a] && Contains(v, e) ensures a in keep {
      assert ContainsPos(g.threads, e);
      BucketsHas(g.threads, v, |g.threads|, e);
    }
  }

  /** Cutting a graph in place gives the same graph as copying it up to the stamp's view. */
  method CutAndCopyAgree(g: ExecutionGraph, other: ExecutionGraph, stamp: nat)
    requires g != other && LinksInside(g.G()) && BucketsTracked(g.G())
    modifies g, other
    ensures g.G() == other.G()
  {
    hide Restrict, LinkedInside, Prune;
    var v := g.GetViewFromStamp(stamp);
    ViewFromStampIsView(g.threads, stamp);
    g.CopyGraphUpTo(other, v);
    g.CutToStamp(stamp);
  }
}
