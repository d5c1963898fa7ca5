/** What a graph restricted to a view holds, label by label. */
module GraphRestrict {
  import opened Options
  import opened Events
  import opened RfOptions
  import opened GraphModel

  // ----- leaving elements out

  /** r consists of the elements of s that are kept, each occurrence once, in their order: at
      holds their positions. */
  ghost predicate PicksAt<T(!new)>(s: seq<T>, keep: T -> bool, r: seq<T>, at: seq<nat>) {
    && |at| == |r|
    && (forall i, j :: 0 <= i < j < |at| ==> at[i] < at[j])
    && (forall i {:trigger at[i]} :: 0 <= i < |at| ==> at[i] < |s| && r[i] == s[at[i]])
    && (forall k {:trigger s[k]} :: 0 <= k < |s| ==> (k in at <==> keep(s[k])))
  }

  ghost predicate Picked<T(!new)>(s: seq<T>, keep: T -> bool, r: seq<T>) {
    exists at :: PicksAt(s, keep, r, at)
  }

  lemma PickedNone<T(!new)>(keep: T -> bool)
    ensures Picked([], keep, [])
  {
    var none: seq<nat> := [];
    assert PicksAt<T>([], keep, [], none);
  }

  lemma PickedStep<T(!new)>(s: seq<T>, keep: T -> bool, r: seq<T>)
    requires s != [] && Picked(s[..|s| - 1], keep, r)
    ensures Picked(s, keep, if keep(s[|s| - 1]) then r + [s[|s| - 1]] else r)
  {
    var n := |s| - 1;
    var at :| PicksAt(s[..n], keep, r, at);
    assert s == s[..n] + [s[n]];
    if keep(s[n]) {
      PicksNext(s, keep, r, at);
      assert PicksAt(s, keep, r + [s[n]], at + [n]);
    } else {
      PicksOn(s, keep, r, at);
      assert PicksAt(s, keep, r, at);
    }
  }

  lemma PicksNext<T(!new)>(s: seq<T>, keep: T -> bool, r: seq<T>, at: seq<nat>)
    requires s != [] && PicksAt(s[..|s| - 1], keep, r, at) && keep(s[|s| - 1])
    ensures PicksAt(s, keep, r + [s[|s| - 1]], at + [|s| - 1])
  {
    var n: nat := |s| - 1;
    var before := s[..n];
    forall k {:trigger s[k]} | 0 <= k < |s| ensures k in at + [n] <==> keep(s[k]) {
      if k < n { assert before[k] == s[k]; }
    }
    forall i {:trigger at[i]} | 0 <= i < |at|
      ensures at[i] < n && r[i] == s[at[i]]
    {
      assert before[at[i]] == s[at[i]];
    }
  }

  lemma PicksOn<T(!new)>(s: seq<T>, keep: T -> bool, r: seq<T>, at: seq<nat>)
    requires s != [] && PicksAt(s[..|s| - 1], keep, r, at) && !keep(s[|s| - 1])
    ensures PicksAt(s, keep, r, at)
  {
    var n: nat := |s| - 1;
    var before := s[..n];
    forall i {:trigger at[i]} | 0 <= i < |at|
      ensures at[i] < n && r[i] == s[at[i]]
    {
      assert before[at[i]] == s[at[i]];
    }
    forall k {:trigger s[k]} | 0 <= k < |s| ensures k in at <==> keep(s[k]) {
      if k < n { assert before[k] == s[k]; }
    }
  }

  function InView(v: View): Event -> bool {
    e => Contains(v, e)
  }

  function ReadsFromView(v: View): Part -> bool {
    (p: Part) => p.from.Init? || Contains(v, p.from.write)
  }

  lemma {:induction false} EventsPicked(es: seq<Event>, v: View)
    ensures Picked(es, InView(v), FilterEvents(es, v))
    decreases |es|
  {
    if es == [] {
      PickedNone(InView(v));
    } else {
      EventsPicked(es[..|es| - 1], v);
      PickedStep(es, InView(v), FilterEvents(es[..|es| - 1], v));
      assert FilterEvents(es[..|es| - 1], v) + [] == FilterEvents(es[..|es| - 1], v);
    }
  }

  lemma {:induction false} PartsPicked(rfs: Rfs, v: View)
    ensures Picked(rfs, ReadsFromView(v), FilterRfs(rfs, v))
    decreases |rfs|
  {
    if rfs == [] {
      PickedNone(ReadsFromView(v));
    } else {
      PartsPicked(rfs[..|rfs| - 1], v);
      PickedStep(rfs, ReadsFromView(v), FilterRfs(rfs[..|rfs| - 1], v));
      assert FilterRfs(rfs[..|rfs| - 1], v) + [] == FilterRfs(rfs[..|rfs| - 1], v);
    }
  }

  // ----- the labels

  /** What is left of a label that the view holds: its kind and bucket, the links that lead to
      events of the view, and of its lists exactly what is in the view, in the old order. */
  lemma RestrictedLabel(g: Graph, v: View, e: Event)
    requires ViewOf(g.threads, v) && ContainsPos(g.threads, e) && Contains(v, e)
    ensures ContainsPos(Restrict(g, v).threads, e)
    ensures Restrict(g, v).threads[e.thread][e.index].stamp == g.threads[e.thread][e.index].stamp
    ensures var c := BodyAt(Restrict(g, v).threads, e);
      match BodyAt(g.threads, e)
      case Start => c == Start
      case Other => c == Other
      case Read(a, rfs, alloc) =>
        && c.Read? && c.rbucket == a && Picked(rfs, ReadsFromView(v), c.rfs)
        && c.ralloc == (if alloc.Some? && Contains(v, alloc.value) then alloc else None)
      case Write(a, readers, alloc) =>
        && c.Write? && c.wbucket == a && Picked(readers, InView(v), c.readers)
        && c.walloc == (if alloc.Some? && Contains(v, alloc.value) then alloc else None)
      case Malloc(free, accesses) =>
        && c.Malloc? && Picked(accesses, InView(v), c.accesses)
        && c.free == (if free.Some? && Contains(v, free.value) then free else None)
      case Free(alloc) => c == Free(if alloc.Some? && Contains(v, alloc.value) then alloc else None)
      case Finish(join) => c == Finish(if join.Some? && Contains(v, join.value) then join else None)
  {
    hide Restrict, FilterEvents, FilterRfs, Picked;
    RestrictedPos(g, v, e);
    match BodyAt(g.threads, e) {
      case Read(_, rfs, _) => PartsPicked(rfs, v);
      case Write(_, readers, _) => EventsPicked(readers, v);
      case Malloc(_, accesses) => EventsPicked(accesses, v);
      case _ =>
    }
  }

  /** Exactly the events of the view are left. */
  lemma RestrictedEvents(g: Graph, v: View, e: Event)
    requires ViewOf(g.threads, v)
    ensures ContainsPos(Restrict(g, v).threads, e) <==> ContainsPos(g.threads, e) && Contains(v, e)
    ensures |Restrict(g, v).threads| == |g.threads| && Restrict(g, v).timestamp == g.timestamp
  {
    hide PruneThreads, Buckets, FilterMap;
    RestrictedPos(g, v, e);
  }

  // ----- the buckets

  /** Some event of the view accesses the bucket. */
  ghost predicate Accessed(g: Graph, v: View, a: nat) {
    exists e :: ContainsPos(g.threads, e) && Contains(v, e) && Accesses(BodyAt(g.threads, e), a)
  }

  predicate Accesses(b: Body, a: nat) {
    (b.Read? && b.rbucket == a) || (b.Write? && b.wbucket == a)
  }

  lemma AccessedIff(g: Graph, v: View, a: nat)
    requires ViewOf(g.threads, v)
    ensures a in Buckets(g.threads, v, |g.threads|) <==> Accessed(g, v, a)
  {
    hide Buckets;
    if a in Buckets(g.threads, v, |g.threads|) {
      var e := BucketsFrom(g.threads, v, |g.threads|, a);
      assert ContainsPos(g.threads, e) && Contains(v, e) && Accesses(BodyAt(g.threads, e), a);
    }
    if e :| ContainsPos(g.threads, e) && Contains(v, e) && Accesses(BodyAt(g.threads, e), a) {
      BucketsHas(g.threads, v, |g.threads|, e);
    }
  }

  /** Coherence and the readers of initialization are left for the buckets that events of the
      view access: exactly the events of the view, in the old order. */
  lemma RestrictedBuckets(g: Graph, v: View, a: nat)
    requires ViewOf(g.threads, v)
    ensures var g' := Restrict(g, v);
      && (a in g'.co <==> a in g.co && Accessed(g, v, a))
      && (a in g'.co ==> Picked(g.co[a], InView(v), g'.co[a]))
      && (a in g'.initRfs <==> a in g.initRfs && Accessed(g, v, a))
      && (a in g'.initRfs ==> Picked(g.initRfs[a], InView(v), g'.initRfs[a]))
  {
    hide PruneThreads, Buckets, Accessed, Picked;
    AccessedIff(g, v, a);
    if a in g.co { EventsPicked(g.co[a], v); }
    if a in g.initRfs { EventsPicked(g.initRfs[a], v); }
  }

  // ----- restricting to everything

  lemma {:induction false} AllEvents(es: seq<Event>, v: View)
    requires forall e <- es :: Contains(v, e)
    ensures FilterEvents(es, v) == es
    decreases |es|
  {
    if es != [] {
      assert es == es[..|es| - 1] + [es[|es| - 1]];
      AllEvents(es[..|es| - 1], v);
    }
  }

  lemma {:induction false} AllParts(rfs: Rfs, v: View)
    requires forall p <- rfs :: SourceIn(v, p.from)
    ensures FilterRfs(rfs, v) == rfs
    decreases |rfs|
  {
    if rfs != [] {
      assert rfs == rfs[..|rfs| - 1] + [rfs[|rfs| - 1]];
      AllParts(rfs[..|rfs| - 1], v);
    }
  }

  /** v sees all of the graph. */
  ghost predicate FullView(threads: seq<Thread>, v: View) {
    |v| == |threads| && forall t :: 0 <= t < |v| ==> v[t] + 1 == |threads[t]|
  }

  /** Restricting to the whole graph changes no label and no order. */
  lemma RestrictedToAll(g: Graph, v: View)
    requires FullView(g.threads, v) && LinksInside(g) && BucketsTracked(g)
    ensures Restrict(g, v).threads == g.threads
    ensures forall a :: a in Restrict(g, v).co ==> Restrict(g, v).co[a] == g.co[a]
    ensures forall a :: a in Restrict(g, v).initRfs ==> Restrict(g, v).initRfs[a] == g.initRfs[a]
  {
    hide Restrict, LinkedInside, Prune;
    var g' := Restrict(g, v);
    RestrictedEvents(g, v, Event(0, 0));
    forall t: nat | t < |g.threads| ensures g'.threads[t] == g.threads[t] { SameThread(g, v, t); }
    assert g'.threads == g.threads;
    BucketsOfAll(g, v);
  }

  lemma SameThread(g: Graph, v: View, t: nat)
    requires FullView(g.threads, v) && LinksInside(g) && t < |g.threads|
    ensures t < |Restrict(g, v).threads| && Restrict(g, v).threads[t] == g.threads[t]
  {
    hide Restrict, LinkedInside, Prune;
    var ls := Restrict(g, v).threads;
    forall i: nat ensures ContainsPos(ls, Event(t, i)) <==> ContainsPos(g.threads, Event(t, i)) {
      RestrictedPos(g, v, Event(t, i));
    }
    assert ContainsPos(g.threads, Event(t, 0));
    assert ContainsPos(ls, Event(t, |ls[t]|)) <==> ContainsPos(g.threads, Event(t, |ls[t]|));
    assert ContainsPos(ls, Event(t, |g.threads[t]|)) <==> ContainsPos(g.threads, Event(t, |g.threads[t]|));
    assert |ls[t]| == |g.threads[t]|;
    forall i: nat | i < |ls[t]| ensures ls[t][i] == g.threads[t][i] {
      var e := Event(t, i);
      RestrictedPos(g, v, e);
      assert ContainsPos(g.threads, e);
      SameBody(g, v, BodyAt(g.threads, e));
    }
  }

  lemma InFullView(threads: seq<Thread>, v: View, e: Event)
    requires FullView(threads, v) && ContainsPos(threads, e)
    ensures Contains(v, e)
  {
  }

  lemma SameBody(g: Graph, v: View, b: Body)
    requires FullView(g.threads, v) && LinkedInside(g.threads, b)
    ensures Prune(b, v) == b
  {
    hide FullView, FilterEvents, FilterRfs;
    forall e | ContainsPos(g.threads, e) ensures Contains(v, e) { InFullView(g.threads, v, e); }
    match b {
      case Read(_, rfs, _) => AllParts(rfs, v);
      case Write(_, readers, _) => AllEvents(readers, v);
      case Malloc(_, accesses) => AllEvents(accesses, v);
      case _ =>
    }
  }

  lemma BucketsOfAll(g: Graph, v: View)
    requires FullView(g.threads, v) && BucketsTracked(g)
    ensures forall a :: a in Restrict(g, v).co ==> Restrict(g, v).co[a] == g.co[a]
    ensures forall a :: a in Restrict(g, v).initRfs ==> Restrict(g, v).initRfs[a] == g.initRfs[a]
  {
    hide PruneThreads, Buckets, FilterEvents, FullView;
    assert ViewOf(g.threads, v) by { FullIsView(g.threads, v); }
    forall e | ContainsPos(g.threads, e) ensures Contains(v, e) { InFullView(g.threads, v, e); }
    forall a | a in g.co ensures FilterEvents(g.co[a], v) == g.co[a] { AllEvents(g.co[a], v); }
    forall a | a in g.initRfs ensures FilterEvents(g.initRfs[a], v) == g.initRfs[a] { AllEvents(g.initRfs[a], v); }
  }

  lemma FullIsView(threads: seq<Thread>, v: View)
    requires FullView(threads, v)
    ensures ViewOf(threads, v)
  {
  }
}
