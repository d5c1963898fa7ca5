/** Reads-from and reader lists mirror each other in every graph of every run. */
module GraphRuns {
  import opened Options
  import opened Events
  import opened Lists
  import opened RfOptions
  import opened GraphModel
  import opened GraphClass
  import opened GraphMirror
  import opened GraphRf
  import opened Stamps
  import opened GraphLinks

  // ----- restricting

  lemma {:induction false} FilterSources(rfs: Rfs, v: View, s: Source)
    ensures HasSource(FilterRfs(rfs, v), s) <==> HasSource(rfs, s) && SourceIn(v, s)
    decreases |rfs|
  {
    if rfs != [] {
      var n := |rfs| - 1;
      FilterSources(rfs[..n], v, s);
      SourcesStep(rfs, n);
      assert rfs[..n + 1] == rfs;
      assert s in SourcesUpTo(rfs, n + 1) <==> s in SourcesUpTo(rfs, n) || s == rfs[n].from;
      var filtered := FilterRfs(rfs, v);
      if SourceIn(v, rfs[n].from) {
        var m := |filtered| - 1;
        SourcesStep(filtered, m);
        assert filtered[..m + 1] == filtered && filtered[..m] == FilterRfs(rfs[..n], v);
        assert s in SourcesUpTo(filtered, m + 1) <==> s in SourcesUpTo(filtered, m) || s == filtered[m].from;
      } else {
        assert filtered == FilterRfs(rfs[..n], v);
      }
    }
  }

  lemma RestrictedReads(g: Graph, v: View, e: Event, s: Source)
    requires ViewOf(g.threads, v)
    ensures IsRead(Restrict(g, v).threads, e) <==> IsRead(g.threads, e) && Contains(v, e)
    ensures IsWrite(Restrict(g, v).threads, e) <==> IsWrite(g.threads, e) && Contains(v, e)
    ensures ReadsFrom(Restrict(g, v).threads, e, s) <==> ReadsFrom(g.threads, e, s) && Contains(v, e) && SourceIn(v, s)
  {
    hide Restrict, HasSource;
    RestrictedPos(g, v, e);
    if IsRead(g.threads, e) { FilterSources(BodyAt(g.threads, e).rfs, v, s); }
  }

  lemma RestrictedInit(g: Graph, v: View, a: nat)
    requires ViewOf(g.threads, v)
    ensures a in Restrict(g, v).initRfs <==> a in g.initRfs && a in Buckets(g.threads, v, |g.threads|)
    ensures a in Restrict(g, v).initRfs ==> Restrict(g, v).initRfs[a] == FilterEvents(g.initRfs[a], v)
  {
  }

  /** Cutting and copying keep the mirror. */
  lemma RestrictKeepsMirror(g: Graph, v: View)
    requires ViewOf(g.threads, v) && Mirror(g)
    ensures Mirror(Restrict(g, v))
  {
    hide Restrict, HasSource, ReadsFrom, IsRead, IsWrite;
    var g' := Restrict(g, v);
    forall w, e {:trigger IsWrite(g'.threads, w), ReadsFrom(g'.threads, e, FromWrite(w))} | IsWrite(g'.threads, w)
      ensures ContainsPos(g'.threads, w) && BodyAt(g'.threads, w).Write?
      ensures multiset(BodyAt(g'.threads, w).readers)[e] == Times(ReadsFrom(g'.threads, e, FromWrite(w)))
    {
      RestrictedReads(g, v, w, Init);
      RestrictedReads(g, v, e, FromWrite(w));
      RestrictedPos(g, v, w);
      WriteIs(g.threads, w);
      FilterElements(BodyAt(g.threads, w).readers, v, e);
      var listed := IsWrite(g.threads, w) && ReadsFrom(g.threads, e, FromWrite(w));
    }
    forall a, e {:trigger g'.initRfs[a], ReadsFrom(g'.threads, e, Init)} | a in g'.initRfs
      ensures ReadsFrom(g'.threads, e, Init) ==> ContainsPos(g'.threads, e) && BodyAt(g'.threads, e).Read?
      ensures multiset(g'.initRfs[a])[e] == Times(ReadsFrom(g'.threads, e, Init) && BodyAt(g'.threads, e).rbucket == a)
    {
      RestrictedInit(g, v, a);
      RestrictedReads(g, v, e, Init);
      RestrictedPos(g, v, e);
      ReadsFromIsRead(g.threads, e, Init);
      ReadIs(g.threads, e);
      FilterElements(g.initRfs[a], v, e);
      var listed := ReadsFrom(g.threads, e, Init);
    }
    forall e, w {:trigger ReadsFrom(g'.threads, e, FromWrite(w))} | ReadsFrom(g'.threads, e, FromWrite(w))
      ensures IsWrite(g'.threads, w)
    {
      RestrictedReads(g, v, e, FromWrite(w));
      RestrictedReads(g, v, w, Init);
    }
    forall e {:trigger IsRead(g'.threads, e)} | IsRead(g'.threads, e)
      ensures ContainsPos(g'.threads, e) && BodyAt(g'.threads, e).Read? && BodyAt(g'.threads, e).rbucket in g'.initRfs
    {
      RestrictedReads(g, v, e, Init);
      RestrictedPos(g, v, e);
      ReadIs(g.threads, e);
      BucketsHas(g.threads, v, |g.threads|, e);
      RestrictedInit(g, v, BodyAt(g.threads, e).rbucket);
    }
  }

  lemma WriteIs(threads: seq<Thread>, e: Event)
    ensures IsWrite(threads, e) <==> ContainsPos(threads, e) && BodyAt(threads, e).Write?
  {
  }

  lemma ReadIs(threads: seq<Thread>, e: Event)
    ensures IsRead(threads, e) <==> ContainsPos(threads, e) && BodyAt(threads, e).Read?
  {
  }

  // ----- adding a label

  lemma AddedReads(g: Graph, t: nat, b: Body, e: Event, s: Source)
    requires Fresh(g.threads, t, b)
    ensures ReadsFrom(Added(g, t, b).threads, e, s) <==> ReadsFrom(g.threads, e, s)
  {
    hide Added;
    AddedPos(g, t, b, e);
  }

  lemma AddKeepsMirror(g: Graph, t: nat, b: Body)
    requires Fresh(g.threads, t, b) && Mirror(g)
    ensures Mirror(Added(g, t, b))
  {
    hide HasSource, ReadsFrom, IsRead, IsWrite;
    var g' := Added(g, t, b);
    var pos := NextPos(g.threads, t);
    forall w, e {:trigger IsWrite(g'.threads, w), ReadsFrom(g'.threads, e, FromWrite(w))} | IsWrite(g'.threads, w)
      ensures ContainsPos(g'.threads, w) && BodyAt(g'.threads, w).Write?
      ensures multiset(BodyAt(g'.threads, w).readers)[e] == Times(ReadsFrom(g'.threads, e, FromWrite(w)))
    {
      WriteIs(g'.threads, w);
      WriteIs(g.threads, w);
      AddedPos(g, t, b, w);
      AddedReads(g, t, b, e, FromWrite(w));
      assert ReadsFrom(g.threads, e, FromWrite(w)) ==> IsWrite(g.threads, w);
    }
    forall a, e {:trigger g'.initRfs[a], ReadsFrom(g'.threads, e, Init)} | a in g'.initRfs
      ensures ReadsFrom(g'.threads, e, Init) ==> ContainsPos(g'.threads, e) && BodyAt(g'.threads, e).Read?
      ensures multiset(g'.initRfs[a])[e] == Times(ReadsFrom(g'.threads, e, Init) && BodyAt(g'.threads, e).rbucket == a)
    {
      AddedReads(g, t, b, e, Init);
      AddedPos(g, t, b, e);
      ReadsFromIsRead(g.threads, e, Init);
      ReadIs(g.threads, e);
      assert ReadsFrom(g.threads, e, Init) ==> BodyAt(g.threads, e).rbucket in g.initRfs;
    }
    forall e, w {:trigger ReadsFrom(g'.threads, e, FromWrite(w))} | ReadsFrom(g'.threads, e, FromWrite(w))
      ensures IsWrite(g'.threads, w)
    {
      AddedReads(g, t, b, e, FromWrite(w));
      WriteIs(g.threads, w);
      WriteIs(g'.threads, w);
      AddedPos(g, t, b, w);
    }
    forall e {:trigger IsRead(g'.threads, e)} | IsRead(g'.threads, e)
      ensures ContainsPos(g'.threads, e) && BodyAt(g'.threads, e).Read? && BodyAt(g'.threads, e).rbucket in g'.initRfs
    {
      ReadIs(g'.threads, e);
      ReadIs(g.threads, e);
      AddedPos(g, t, b, e);
    }
  }

  // ----- renumbering

  lemma CompressKeepsMirror(g: Graph, st: nat, g': Graph)
    requires Mirror(g) && Compressed(g.threads, st, g'.threads) && g'.initRfs == g.initRfs
    ensures Mirror(g')
  {
    hide HasSource, Compressed;
    forall e
      ensures ContainsPos(g'.threads, e) <==> ContainsPos(g.threads, e)
      ensures ContainsPos(g.threads, e) ==> BodyAt(g'.threads, e) == BodyAt(g.threads, e)
    {
      SamePositions(g.threads, st, g'.threads, e);
      if ContainsPos(g.threads, e) { CompressedStamp(g.threads, st, g'.threads, e); }
    }
    SameBodiesMirror(g, g');
  }

  lemma SameBodiesMirror(g: Graph, g': Graph)
    requires Mirror(g) && g'.initRfs == g.initRfs
    requires forall e {:trigger ContainsPos(g'.threads, e)} :: ContainsPos(g'.threads, e) <==> ContainsPos(g.threads, e)
    requires forall e {:trigger ContainsPos(g'.threads, e)} ::
      ContainsPos(g'.threads, e) ==> Relinks(BodyAt(g.threads, e), BodyAt(g'.threads, e))
    ensures Mirror(g')
  {
    hide HasSource, Mirror;
    forall e
      ensures (IsRead(g'.threads, e) <==> IsRead(g.threads, e)) && (IsWrite(g'.threads, e) <==> IsWrite(g.threads, e))
      ensures IsRead(g.threads, e) || IsWrite(g.threads, e) ==> SameListing(g.threads, g'.threads, e)
      ensures forall s {:trigger ReadsFrom(g'.threads, e, s)} ::
        ReadsFrom(g'.threads, e, s) <==> ReadsFrom(g.threads, e, s)
    {
      assert ContainsPos(g'.threads, e) <==> ContainsPos(g.threads, e);
    }
    SameListed(g, g');
  }

  /** What the two have in common that the mirror depends on. */
  predicate SameListing(threads: seq<Thread>, threads': seq<Thread>, e: Event) {
    && ContainsPos(threads, e) && ContainsPos(threads', e)
    && var b, c := BodyAt(threads, e), BodyAt(threads', e);
    && (b.Read? ==> c.Read? && c.rbucket == b.rbucket)
    && (b.Write? ==> c.Write? && c.readers == b.readers)
  }

  /** The mirror depends only on what is read, on the reader lists and on the buckets. */
  lemma SameListed(g: Graph, g': Graph)
    requires Mirror(g) && g'.initRfs == g.initRfs
    requires forall e, s {:trigger ReadsFrom(g'.threads, e, s)} ::
      ReadsFrom(g'.threads, e, s) <==> ReadsFrom(g.threads, e, s)
    requires forall e {:trigger IsRead(g'.threads, e)} {:trigger IsWrite(g'.threads, e)} ::
      && (IsRead(g'.threads, e) <==> IsRead(g.threads, e)) && (IsWrite(g'.threads, e) <==> IsWrite(g.threads, e))
      && (IsRead(g.threads, e) || IsWrite(g.threads, e) ==> SameListing(g.threads, g'.threads, e))
    ensures Mirror(g')
  {
    hide HasSource, IsRead, IsWrite, ReadsFrom;
    forall a, e {:trigger g'.initRfs[a], ReadsFrom(g'.threads, e, Init)} | a in g'.initRfs
      ensures ReadsFrom(g'.threads, e, Init) ==> ContainsPos(g'.threads, e) && BodyAt(g'.threads, e).Read?
      ensures multiset(g'.initRfs[a])[e] == Times(ReadsFrom(g'.threads, e, Init) && BodyAt(g'.threads, e).rbucket == a)
    {
      assert a in g.initRfs && (ReadsFrom(g'.threads, e, Init) <==> ReadsFrom(g.threads, e, Init));
      assert IsRead(g'.threads, e) <==> IsRead(g.threads, e);
      ReadsFromIsRead(g'.threads, e, Init);
      ReadsFromIsRead(g.threads, e, Init);
      ReadIs(g.threads, e);
      assert multiset(g.initRfs[a])[e] == Times(ReadsFrom(g.threads, e, Init) && BodyAt(g.threads, e).rbucket == a);
    }
    forall w, e {:trigger IsWrite(g'.threads, w), ReadsFrom(g'.threads, e, FromWrite(w))} | IsWrite(g'.threads, w)
      ensures ContainsPos(g'.threads, w) && BodyAt(g'.threads, w).Write?
      ensures multiset(BodyAt(g'.threads, w).readers)[e] == Times(ReadsFrom(g'.threads, e, FromWrite(w)))
    {
      WriteIs(g.threads, w);
      assert IsWrite(g.threads, w);
    }
    forall e {:trigger IsRead(g'.threads, e)} | IsRead(g'.threads, e)
      ensures ContainsPos(g'.threads, e) && BodyAt(g'.threads, e).Read? && BodyAt(g'.threads, e).rbucket in g'.initRfs
    {
      ReadIs(g.threads, e);
      assert IsRead(g.threads, e);
    }
  }

  // ----- links to allocations, frees and joins

  lemma RelinkKeepsMirror(g: Graph, e: Event, c: Body)
    requires Mirror(g) && CanRelink(g.threads, e, c)
    ensures Mirror(g.(threads := SetBody(g.threads, e, c)))
  {
    hide Mirror, SetBody, OtherLinksInside;
    var g' := g.(threads := SetBody(g.threads, e, c));
    forall d
      ensures ContainsPos(g'.threads, d) <==> ContainsPos(g.threads, d)
      ensures ContainsPos(g.threads, d) ==> Relinks(BodyAt(g.threads, d), BodyAt(g'.threads, d))
    {
      SetBodyAt(g.threads, e, c, d);
    }
    SameBodiesMirror(g, g');
  }

  lemma AllocKeepsMirror(g: Graph, alloc: Event, access: Event)
    requires Tidy(g) && Mirror(g) && CanAddAlloc(g.threads, alloc, access)
    ensures Mirror(AllocAdded(g, alloc, access))
  {
    hide Mirror, Tidy, SetBody, Relinks, OtherLinksInside, WithAlloc;
    AllocSteps(g, alloc, access);
    TidyLinked(g, alloc);
    var g1 := g.(threads := SetBody(g.threads, access, WithAlloc(BodyAt(g.threads, access), alloc)));
    RelinkKeepsMirror(g, access, WithAlloc(BodyAt(g.threads, access), alloc));
    var a := BodyAt(g.threads, alloc);
    RelinkKeepsMirror(g1, alloc, a.(accesses := a.accesses + [access]));
  }

  lemma LinkKeepsMirror(g: Graph, e: Event, to: Event)
    requires Tidy(g) && Mirror(g) && CanLink(g.threads, e, to)
    ensures Mirror(LinkSet(g, e, to))
  {
    hide Mirror, Tidy, SetBody, CanRelink;
    LinkKeepsTidy(g, e, to);
    RelinkKeepsMirror(g, e, Linking(BodyAt(g.threads, e), to));
  }

  /** Coherence has nothing to do with the mirror. */
  lemma OtherCoherence(g: Graph, co: map<nat, seq<Event>>)
    requires Mirror(g)
    ensures Mirror(g.(co := co))
  {
  }

  // ----- runs

  datatype Op =
    | AddLabel(thread: nat, body: Body)
    | AddAccess(alloc: Event, access: Event)
    | Link(from: Event, to: Event)
    | AddStore(store: Event, at: nat)
    | Reorder(bucket: nat, order: seq<Event>)
    | ChangeRead(read: Event, rfs: Rfs)
    | Cut(view: View)
    | Compress(stamp: nat)

  /** Cut stands for cutting in place and for going on with a copy. */
  ghost predicate Step(g: Graph, op: Op, g': Graph) {
    match op
    case AddLabel(t, b) => Fresh(g.threads, t, b) && g' == Added(g, t, b)
    case AddAccess(alloc, access) => CanAddAlloc(g.threads, alloc, access) && g' == AllocAdded(g, alloc, access)
    case Link(e, to) => CanLink(g.threads, e, to) && g' == LinkSet(g, e, to)
    case AddStore(w, k) => CanPlace(g, w, k) && g' == StoreAdded(g, w, k)
    case Reorder(a, order) => a in g.co && multiset(order) == multiset(g.co[a]) && g' == Reordered(g, a, order)
    case ChangeRead(r, rfs) => IsRead(g.threads, r) && SourcesPresent(g.threads, rfs) && g' == Changed(g, r, rfs)
    case Cut(v) => ViewOf(g.threads, v) && g' == Restrict(g, v)
    case Compress(st) =>
      && Compressed(g.threads, st, g'.threads) && g'.co == g.co && g'.initRfs == g.initRfs
      && g'.timestamp == FirstNumber(g.threads, st, |g.threads|)
  }

  /** A run from the graph that holds only the initializer. */
  ghost predicate Run(gs: seq<Graph>, ops: seq<Op>) {
    && |gs| == |ops| + 1 && gs[0] == Graph([[Lab(0, Start)]], map[], map[], 1)
    && forall i {:trigger ops[i]} :: 0 <= i < |ops| ==> Step(gs[i], ops[i], gs[i + 1])
  }

  lemma StepKeepsMirror(g: Graph, op: Op, g': Graph)
    requires Tidy(g) && Mirror(g) && Step(g, op, g')
    ensures Mirror(g')
  {
    hide Tidy, Mirror, Added, Changed, Restrict, Compressed, Fresh, SourcesPresent, AllocAdded, LinkSet, CanAddAlloc,
         CanLink, CanPlace;
    match op {
      case AddLabel(t, b) => AddKeepsMirror(g, t, b);
      case AddAccess(alloc, access) => AllocKeepsMirror(g, alloc, access);
      case Link(e, to) => LinkKeepsMirror(g, e, to);
      case AddStore(_, _) => OtherCoherence(g, g'.co);
      case Reorder(_, _) => OtherCoherence(g, g'.co);
      case ChangeRead(r, rfs) => ChangeKeepsMirror(g, r, rfs);
      case Cut(v) => RestrictKeepsMirror(g, v);
      case Compress(st) => CompressKeepsMirror(g, st, g');
    }
  }

  lemma StepKeepsTidy(g: Graph, op: Op, g': Graph)
    requires Tidy(g) && Mirror(g) && Step(g, op, g')
    ensures Tidy(g')
  {
    hide Tidy, Mirror, Added, Changed, Restrict, Compressed, Fresh, SourcesPresent, AllocAdded, LinkSet, StoreAdded,
         CanAddAlloc, CanLink, CanPlace;
    match op {
      case AddLabel(t, b) => AddKeepsTidy(g, t, b);
      case AddAccess(alloc, access) => AllocKeepsTidy(g, alloc, access);
      case Link(e, to) => LinkKeepsTidy(g, e, to);
      case AddStore(w, k) => StoreKeepsTidy(g, w, k);
      case Reorder(a, order) => ReorderKeepsTidy(g, a, order);
      case ChangeRead(r, rfs) =>
        ReadBucketKnown(g, r);
        ChangedApart(g, r, rfs);
        ApartKeepsTidy(g, g');
      case Cut(v) => RestrictKeepsTidy(g, v);
      case Compress(st) => CompressKeepsTidy(g, st, g');
    }
  }

  lemma ReadBucketKnown(g: Graph, r: Event)
    requires Mirror(g) && IsRead(g.threads, r)
    ensures BucketKnown(g, r)
  {
  }

  lemma StepKeepsStamps(g: Graph, op: Op, g': Graph)
    requires Tidy(g) && Mirror(g) && StampsOrdered(g.threads) && Step(g, op, g')
    ensures StampsOrdered(g'.threads)
  {
    hide Tidy, Mirror, Added, Changed, Restrict, Compressed, SourcesPresent, SetBody, StampsDistinct, StampsIncrease;
    match op {
      case AddLabel(t, b) => AddKeepsStamps(g, t, b);
      case AddAccess(alloc, access) =>
        var c := WithAlloc(BodyAt(g.threads, access), alloc);
        SetKeepsStamps(g.threads, access, c);
        SetBodyAt(g.threads, access, c, alloc);
        var a := BodyAt(g.threads, alloc);
        SetKeepsStamps(SetBody(g.threads, access, c), alloc, a.(accesses := a.accesses + [access]));
      case Link(e, to) => SetKeepsStamps(g.threads, e, Linking(BodyAt(g.threads, e), to));
      case AddStore(_, _) =>
      case Reorder(_, _) =>
      case ChangeRead(r, rfs) =>
        ReadBucketKnown(g, r);
        ChangedApart(g, r, rfs);
        SameStamps(g.threads, g'.threads);
      case Cut(v) =>
        RestrictIncreasing(g, v);
        RestrictDistinct(g, v);
      case Compress(st) =>
        IncreasingStaysIncreasing(g.threads, st, g'.threads);
        DistinctStaysDistinct(g.threads, st, g'.threads);
    }
  }

  /** What holds of every graph of every run. */
  lemma {:induction false} RunInvariant(gs: seq<Graph>, ops: seq<Op>, i: nat)
    requires Run(gs, ops) && i < |gs|
    ensures Mirror(gs[i]) && Tidy(gs[i]) && StampsOrdered(gs[i].threads)
  {
    hide Mirror, Step, Tidy, StampsOrdered;
    if i > 0 {
      RunInvariant(gs, ops, i - 1);
      assert Step(gs[i - 1], ops[i - 1], gs[i]);
      StepKeepsMirror(gs[i - 1], ops[i - 1], gs[i]);
      StepKeepsTidy(gs[i - 1], ops[i - 1], gs[i]);
      StepKeepsStamps(gs[i - 1], ops[i - 1], gs[i]);
    } else {
      InitialInvariant();
    }
  }

  lemma InitialInvariant()
    ensures var g := Graph([[Lab(0, Start)]], map[], map[], 1); Mirror(g) && Tidy(g) && StampsOrdered(g.threads)
  {
  }

  /** Every graph of every run is mirrored. */
  lemma RunKeepsMirror(gs: seq<Graph>, ops: seq<Op>, i: nat)
    requires Run(gs, ops) && i < |gs|
    ensures Mirror(gs[i])
  {
    hide Mirror, Run, Tidy;
    RunInvariant(gs, ops, i);
  }

  /** In every graph of every run links stay inside and coherence orders the stores of each
      bucket, each of them once: it can be cut in place or copied. */
  lemma RunKeepsLinks(gs: seq<Graph>, ops: seq<Op>, i: nat)
    requires Run(gs, ops) && i < |gs|
    ensures LinksInside(gs[i]) && BucketsTracked(gs[i])
    ensures forall a :: a in gs[i].co ==> Distinct(gs[i].co[a])
  {
    hide Mirror, Run, StampsOrdered, TidyLabel, LinksInside, BucketsTracked, Distinct;
    RunInvariant(gs, ops, i);
    TidyLinks(gs[i]);
    forall a | a in gs[i].co ensures Distinct(gs[i].co[a]) { assert TidyBucket(gs[i].threads, a, gs[i].co[a]); }
  }

  /** Stamps are different and increase along threads: the view of a stamp is well defined. */
  lemma RunKeepsStamps(gs: seq<Graph>, ops: seq<Op>, i: nat)
    requires Run(gs, ops) && i < |gs|
    ensures StampsIncrease(gs[i].threads) && StampsDistinct(gs[i].threads)
    ensures forall e {:trigger ContainsPos(gs[i].threads, e)} ::
      ContainsPos(gs[i].threads, e) ==> LabAt(gs[i].threads, e).stamp < gs[i].timestamp
  {
    hide Mirror, Run, StampsIncrease, StampsDistinct;
    RunInvariant(gs, ops, i);
    forall e {:trigger ContainsPos(gs[i].threads, e)} | ContainsPos(gs[i].threads, e)
      ensures LabAt(gs[i].threads, e).stamp < gs[i].timestamp
    {
      assert TidyLabel(gs[i], LabAt(gs[i].threads, e));
    }
  }
}
