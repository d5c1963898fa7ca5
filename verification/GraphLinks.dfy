/** The other ways in which src/ExecutionGraph.cpp and src/GenMCDriver.cpp change a graph: new
    labels, links between allocations and accesses, frees and joins, and stores put into coherence.
    What keeps a graph tidy: links stay inside, accessed buckets are tracked, and coherence
    has each store at most once and only in its bucket. */
module GraphLinks {
  import opened Options
  import opened Events
  import opened Lists
  import opened RfOptions
  import opened GraphModel
  import opened GraphClass
  import opened GraphMirror
  import opened GraphRf
  import opened Stamps

  // ----- tidy graphs

  predicate LinkIn(threads: seq<Thread>, link: Option<Event>) {
    link.Some? ==> ContainsPos(threads, link.value)
  }

  /** The links of a label besides reads-from and readers. */
  predicate OtherLinksInside(threads: seq<Thread>, b: Body) {
    match b
    case Read(_, _, alloc) => LinkIn(threads, alloc)
    case Write(_, _, alloc) => LinkIn(threads, alloc)
    case Malloc(free, accesses) => LinkIn(threads, free) && forall e <- accesses :: ContainsPos(threads, e)
    case Free(alloc) => LinkIn(threads, alloc)
    case Finish(join) => LinkIn(threads, join)
    case _ => true
  }

  predicate TidyLabel(g: Graph, lab: Lab) {
    lab.stamp < g.timestamp && BucketOf(lab.body) <= g.co.Keys && OtherLinksInside(g.threads, lab.body)
  }

  ghost predicate TidyBucket(threads: seq<Thread>, a: nat, es: seq<Event>) {
    Distinct(es) && forall e <- es :: StoreOf(threads, a, e)
  }

  predicate StoreOf(threads: seq<Thread>, a: nat, e: Event) {
    IsWrite(threads, e) && BodyAt(threads, e).wbucket == a
  }

  function LabAt(threads: seq<Thread>, e: Event): Lab
    requires ContainsPos(threads, e)
  {
    threads[e.thread][e.index]
  }

  ghost predicate StartsFirst(threads: seq<Thread>) {
    forall t :: 0 <= t < |threads| ==> threads[t] != [] && threads[t][0].body == Start
  }

  ghost predicate Tidy(g: Graph) {
    && StartsFirst(g.threads) && g.co.Keys == g.initRfs.Keys
    && (forall e {:trigger ContainsPos(g.threads, e)} ::
          ContainsPos(g.threads, e) ==> TidyLabel(g, LabAt(g.threads, e)))
    && (forall a :: a in g.co ==> TidyBucket(g.threads, a, g.co[a]))
  }

  /** A tidy graph whose reads-from and readers mirror each other has its links inside and
      its buckets tracked. */
  lemma TidyLinks(g: Graph)
    requires Tidy(g) && Mirror(g)
    ensures LinksInside(g) && BucketsTracked(g)
  {
    hide IsWrite, IsRead, HasSource, ReadsFrom, TidyLabel, OtherLinksInside, Distinct;
    forall e {:trigger ContainsPos(g.threads, e)} | ContainsPos(g.threads, e)
      ensures LinkedInside(g.threads, BodyAt(g.threads, e)) && BucketOf(BodyAt(g.threads, e)) <= g.co.Keys
    {
      assert TidyLabel(g, LabAt(g.threads, e));
      TidyBody(g, e);
    }
    forall a, e | a in g.co && e in g.co[a]
      ensures ContainsPos(g.threads, e) && BodyAt(g.threads, e).Write? && BodyAt(g.threads, e).wbucket == a
    {
      assert StoreOf(g.threads, a, e);
      WriteAt(g.threads, e);
    }
    forall a, e | a in g.initRfs && e in g.initRfs[a]
      ensures ContainsPos(g.threads, e) && BodyAt(g.threads, e).Read? && BodyAt(g.threads, e).rbucket == a
    {
      assert multiset(g.initRfs[a])[e] > 0;
      ReadsFromIsRead(g.threads, e, Init);
      ReadAt(g.threads, e);
      assert multiset(g.initRfs[a])[e] == Times(ReadsFrom(g.threads, e, Init) && BodyAt(g.threads, e).rbucket == a);
    }
  }

  lemma TidyBody(g: Graph, e: Event)
    requires Mirror(g) && ContainsPos(g.threads, e) && TidyLabel(g, LabAt(g.threads, e))
    ensures LinkedInside(g.threads, BodyAt(g.threads, e)) && BucketOf(BodyAt(g.threads, e)) <= g.co.Keys
  {
    hide ReadsFrom;
    var b := BodyAt(g.threads, e);
    match b {
      case Read(_, rfs, _) =>
        forall i | 0 <= i < |rfs| && rfs[i].from.FromWrite? ensures ContainsPos(g.threads, rfs[i].from.write) {
          SourceIsPresent(g, e, i);
        }
      case Write(_, readers, _) =>
        forall r | r in readers ensures ContainsPos(g.threads, r) {
          assert multiset(readers)[r] > 0;
          assert IsWrite(g.threads, e);
          ReadsFromIsRead(g.threads, r, FromWrite(e));
          assert multiset(readers)[r] == Times(ReadsFrom(g.threads, r, FromWrite(e)));
        }
      case _ =>
    }
  }

  lemma SourceIsPresent(g: Graph, e: Event, i: nat)
    requires Mirror(g) && IsRead(g.threads, e) && i < |BodyAt(g.threads, e).rfs|
      && BodyAt(g.threads, e).rfs[i].from.FromWrite?
    ensures ContainsPos(g.threads, BodyAt(g.threads, e).rfs[i].from.write)
  {
    assert ReadsFrom(g.threads, e, FromWrite(BodyAt(g.threads, e).rfs[i].from.write));
  }

  // ----- graphs that differ in reads-from and readers only

  function Unread(b: Body): Body {
    match b
    case Read(a, _, alloc) => Read(a, [], alloc)
    case Write(a, _, alloc) => Write(a, [], alloc)
    case _ => b
  }

  ghost predicate SameLabels(threads: seq<Thread>, threads': seq<Thread>) {
    && |threads'| == |threads|
    && forall e {:trigger ContainsPos(threads', e)} {:trigger ContainsPos(threads, e)} ::
        && (ContainsPos(threads', e) <==> ContainsPos(threads, e))
        && (ContainsPos(threads, e) ==>
              && LabAt(threads', e).stamp == LabAt(threads, e).stamp
              && Unread(BodyAt(threads', e)) == Unread(BodyAt(threads, e)))
  }

  ghost predicate SameApart(g: Graph, g': Graph) {
    && g'.co == g.co && g'.initRfs.Keys == g.initRfs.Keys && g'.timestamp == g.timestamp
    && SameLabels(g.threads, g'.threads)
  }

  lemma ApartTwice(g: Graph, g1: Graph, g2: Graph)
    requires SameApart(g, g1) && SameApart(g1, g2)
    ensures SameApart(g, g2)
  {
    hide Unread, ContainsPos;
  }

  lemma SetUnread(threads: seq<Thread>, e: Event, b: Body)
    requires ContainsPos(threads, e) && Unread(b) == Unread(BodyAt(threads, e))
    ensures SameLabels(threads, SetBody(threads, e, b))
  {
    hide Unread;
    forall d
      ensures ContainsPos(SetBody(threads, e, b), d) <==> ContainsPos(threads, d)
      ensures ContainsPos(threads, d) ==>
        LabAt(SetBody(threads, e, b), d) == if d == e then LabAt(threads, e).(body := b) else LabAt(threads, d)
    {
    }
  }

  /** The bucket of a read is tracked for initialization. */
  predicate BucketKnown(g: Graph, r: Event) {
    IsRead(g.threads, r) && BodyAt(g.threads, r).rbucket in g.initRfs.Keys
  }

  lemma ApartBucket(g: Graph, g': Graph, r: Event)
    requires SameApart(g, g') && BucketKnown(g, r)
    ensures BucketKnown(g', r)
  {
    assert ContainsPos(g'.threads, r) <==> ContainsPos(g.threads, r);
  }

  lemma LinkedApart(g: Graph, r: Event, s: Source)
    requires BucketKnown(g, r)
    ensures SameApart(g, Linked(g, r, s)) && SameApart(g, Unlinked(g, r, s))
  {
    hide SetBody;
    if s.FromWrite? && IsWrite(g.threads, s.write) {
      var b := BodyAt(g.threads, s.write);
      SetUnread(g.threads, s.write, b.(readers := Dropped(b.readers, r)));
      SetUnread(g.threads, s.write, b.(readers := b.readers + [r]));
    }
  }

  lemma {:induction false} UnlinkedAllApart(g: Graph, r: Event, rfs: Rfs, n: nat)
    requires BucketKnown(g, r) && n <= |rfs|
    ensures SameApart(g, UnlinkedAll(g, r, rfs, n))
  {
    hide SameApart, Unlinked;
    if n == 0 {
      ApartItself(g);
    } else {
      UnlinkedAllApart(g, r, rfs, n - 1);
      var before := UnlinkedAll(g, r, rfs, n - 1);
      ApartBucket(g, before, r);
      LinkedApart(before, r, rfs[n - 1].from);
      ApartTwice(g, before, UnlinkedAll(g, r, rfs, n));
    }
  }

  lemma ApartItself(g: Graph)
    ensures SameApart(g, g)
  {
  }

  lemma {:induction false} LinkedAllApart(g: Graph, r: Event, stores: seq<Source>, n: nat)
    requires BucketKnown(g, r) && n <= |stores|
    ensures SameApart(g, LinkedAll(g, r, stores, n))
  {
    hide SameApart, Linked;
    if n == 0 {
      ApartItself(g);
    } else {
      LinkedAllApart(g, r, stores, n - 1);
      var before := LinkedAll(g, r, stores, n - 1);
      ApartBucket(g, before, r);
      LinkedApart(before, r, stores[n - 1]);
      ApartTwice(g, before, LinkedAll(g, r, stores, n));
    }
  }

  /** changeRf changes reads-from and readers only. */
  lemma ChangedApart(g: Graph, r: Event, rfs: Rfs)
    requires BucketKnown(g, r)
    ensures SameApart(g, Changed(g, r, rfs))
  {
    hide SameApart, UnlinkedAll, LinkedAll, Stores;
    var oldRfs := BodyAt(g.threads, r).rfs;
    var g1 := WithRfs(g, r, rfs);
    ReplacedApart(g, r, rfs);
    ApartBucket(g, g1, r);
    UnlinkedAllApart(g1, r, oldRfs, |oldRfs|);
    var g2 := UnlinkedAll(g1, r, oldRfs, |oldRfs|);
    ApartBucket(g1, g2, r);
    LinkedAllApart(g2, r, Stores(rfs), |Stores(rfs)|);
    ApartTwice(g1, g2, Changed(g, r, rfs));
    ApartTwice(g, g1, Changed(g, r, rfs));
  }

  lemma ReplacedApart(g: Graph, r: Event, rfs: Rfs)
    requires IsRead(g.threads, r)
    ensures SameApart(g, WithRfs(g, r, rfs))
  {
    hide SetBody;
    SetUnread(g.threads, r, BodyAt(g.threads, r).(rfs := rfs));
  }

  // ----- what keeps a graph tidy

  lemma LinksStay(threads: seq<Thread>, threads': seq<Thread>, b: Body)
    requires OtherLinksInside(threads, b)
    requires forall e {:trigger ContainsPos(threads, e)} :: ContainsPos(threads, e) ==> ContainsPos(threads', e)
    ensures OtherLinksInside(threads', b)
  {
    hide ContainsPos;
  }

  lemma UnreadSame(threads: seq<Thread>, b: Body, c: Body)
    requires Unread(c) == Unread(b)
    ensures OtherLinksInside(threads, c) <==> OtherLinksInside(threads, b)
    ensures BucketOf(c) == BucketOf(b)
    ensures (c.Write? <==> b.Write?) && (b.Write? ==> c.wbucket == b.wbucket) && (b == Start ==> c == Start)
  {
  }

  lemma ApartKeepsTidy(g: Graph, g': Graph)
    requires Tidy(g) && SameApart(g, g')
    ensures Tidy(g')
  {
    hide Unread, OtherLinksInside, BucketOf, Distinct;
    forall e {:trigger ContainsPos(g'.threads, e)} | ContainsPos(g'.threads, e)
      ensures TidyLabel(g', LabAt(g'.threads, e))
    {
      assert ContainsPos(g.threads, e);
      assert TidyLabel(g, LabAt(g.threads, e));
      UnreadSame(g'.threads, BodyAt(g.threads, e), BodyAt(g'.threads, e));
      LinksStay(g.threads, g'.threads, BodyAt(g.threads, e));
    }
    forall t: nat | t < |g'.threads| ensures g'.threads[t] != [] && g'.threads[t][0].body == Start {
      assert ContainsPos(g.threads, Event(t, 0));
      UnreadSame(g'.threads, BodyAt(g.threads, Event(t, 0)), BodyAt(g'.threads, Event(t, 0)));
    }
    forall a, e | a in g.co && e in g.co[a] ensures StoreOf(g'.threads, a, e) {
      assert StoreOf(g.threads, a, e);
      UnreadSame(g'.threads, BodyAt(g.threads, e), BodyAt(g'.threads, e));
    }
  }

  lemma FilterDistinct(es: seq<Event>, v: View)
    requires Distinct(es)
    ensures Distinct(FilterEvents(es, v))
  {
    hide FilterEvents;
    DistinctMultiset(es);
    DistinctMultiset(FilterEvents(es, v));
    forall e | e in FilterEvents(es, v) ensures multiset(FilterEvents(es, v))[e] == 1 { FilterElements(es, v, e); }
  }

  lemma RestrictKeepsTidy(g: Graph, v: View)
    requires Tidy(g) && ViewOf(g.threads, v)
    ensures Tidy(Restrict(g, v))
  {
    hide Restrict, Buckets, TidyLabel, FilterEvents, Distinct, IsWrite;
    var g' := Restrict(g, v);
    var keep := Buckets(g.threads, v, |g.threads|);
    RestrictIs(g, v);
    forall e {:trigger ContainsPos(g'.threads, e)} | ContainsPos(g'.threads, e)
      ensures TidyLabel(g', LabAt(g'.threads, e))
    {
      RestrictedPos(g, v, e);
      BucketsHas(g.threads, v, |g.threads|, e);
      assert TidyLabel(g, LabAt(g.threads, e));
      PrunedTidy(g, v, e);
    }
    assert |g'.threads| == |g.threads|;
    forall t: nat | t < |g'.threads| ensures g'.threads[t] != [] && g'.threads[t][0].body == Start {
      RestrictedPos(g, v, Event(t, 0));
      assert ContainsPos(g.threads, Event(t, 0));
    }
    forall a | a in g'.co ensures TidyBucket(g'.threads, a, g'.co[a]) {
      assert TidyBucket(g.threads, a, g.co[a]);
      FilterDistinct(g.co[a], v);
      forall e | e in g'.co[a] ensures StoreOf(g'.threads, a, e) {
        FilterElements(g.co[a], v, e);
        PrunedStore(g, v, a, e);
      }
    }
  }

  lemma PrunedStore(g: Graph, v: View, a: nat, e: Event)
    requires ViewOf(g.threads, v) && StoreOf(g.threads, a, e) && Contains(v, e)
    ensures StoreOf(Restrict(g, v).threads, a, e)
  {
    hide Restrict;
    RestrictedPos(g, v, e);
  }

  lemma PrunedTidy(g: Graph, v: View, e: Event)
    requires ViewOf(g.threads, v) && ContainsPos(g.threads, e) && Contains(v, e) && TidyLabel(g, LabAt(g.threads, e))
    requires BucketOf(BodyAt(g.threads, e)) <= Buckets(g.threads, v, |g.threads|)
    ensures ContainsPos(Restrict(g, v).threads, e) && TidyLabel(Restrict(g, v), LabAt(Restrict(g, v).threads, e))
  {
    hide Restrict, Buckets, FilterEvents;
    RestrictIs(g, v);
    var g' := Restrict(g, v);
    RestrictedPos(g, v, e);
    forall d
      ensures ContainsPos(g'.threads, d) <==> ContainsPos(g.threads, d) && Contains(v, d)
    {
      RestrictedPos(g, v, d);
    }
    var b := BodyAt(g.threads, e);
    if b.Malloc? {
      forall d | d in FilterEvents(b.accesses, v)
        ensures ContainsPos(g'.threads, d)
      {
        FilterElements(b.accesses, v, d);
      }
    }
    assert OtherLinksInside(g'.threads, Prune(b, v));
  }

  lemma CompressKeepsTidy(g: Graph, st: nat, g': Graph)
    requires Tidy(g) && Compressed(g.threads, st, g'.threads) && g'.co == g.co && g'.initRfs == g.initRfs
    requires g'.timestamp == FirstNumber(g.threads, st, |g.threads|)
    ensures Tidy(g')
  {
    hide Compressed, OtherLinksInside, FirstNumber, Distinct, BucketOf;
    forall e
      ensures ContainsPos(g'.threads, e) <==> ContainsPos(g.threads, e)
      ensures ContainsPos(g.threads, e)
        ==> BodyAt(g'.threads, e) == BodyAt(g.threads, e) && LabAt(g'.threads, e).stamp < g'.timestamp
    {
      SamePositions(g.threads, st, g'.threads, e);
      if ContainsPos(g.threads, e) { CompressedBelow(g.threads, st, g'.threads, e); }
    }
    forall e {:trigger ContainsPos(g'.threads, e)} | ContainsPos(g'.threads, e)
      ensures TidyLabel(g', LabAt(g'.threads, e))
    {
      assert TidyLabel(g, LabAt(g.threads, e));
      LinksStay(g.threads, g'.threads, BodyAt(g.threads, e));
    }
    assert |g'.threads| == |g.threads| by { SameThreads(g.threads, st, g'.threads); }
    forall t: nat | t < |g'.threads| ensures g'.threads[t] != [] && g'.threads[t][0].body == Start {
      assert ContainsPos(g.threads, Event(t, 0));
      assert ContainsPos(g'.threads, Event(t, 0));
    }
    forall a, e | a in g.co && e in g.co[a] ensures StoreOf(g'.threads, a, e) {
      assert StoreOf(g.threads, a, e);
    }
  }

  lemma SameThreads(threads: seq<Thread>, st: nat, compressed: seq<Thread>)
    requires Compressed(threads, st, compressed)
    ensures |compressed| == |threads|
  {
  }

  lemma CompressedBelow(threads: seq<Thread>, st: nat, compressed: seq<Thread>, e: Event)
    requires Compressed(threads, st, compressed) && ContainsPos(threads, e)
    ensures ContainsPos(compressed, e) && BodyAt(compressed, e) == BodyAt(threads, e)
    ensures LabAt(compressed, e).stamp < FirstNumber(threads, st, |threads|)
  {
    hide Compressed, NewStampOf;
    CompressedStamp(threads, st, compressed, e);
    NewStampIs(threads, st, e);
    if threads[e.thread][e.index].stamp > st { NumberBelow(threads, st, e); }
  }

  // ----- links between labels

  /** c differs from b at most in links to an allocation, accesses, a free or a join. */
  predicate Relinks(b: Body, c: Body) {
    match b
    case Read(a, rfs, _) => c.Read? && c.rbucket == a && c.rfs == rfs
    case Write(a, readers, _) => c.Write? && c.wbucket == a && c.readers == readers
    case Malloc(_, _) => c.Malloc?
    case Free(_) => c.Free?
    case Finish(_) => c.Finish?
    case _ => c == b
  }

  /** Whether body c can replace that of e. */
  predicate CanRelink(threads: seq<Thread>, e: Event, c: Body) {
    ContainsPos(threads, e) && Relinks(BodyAt(threads, e), c) && OtherLinksInside(threads, c)
  }

  lemma RelinkKeepsTidy(g: Graph, e: Event, c: Body)
    requires Tidy(g) && CanRelink(g.threads, e, c)
    ensures Tidy(g.(threads := SetBody(g.threads, e, c)))
  {
    hide OtherLinksInside, Distinct;
    var g' := g.(threads := SetBody(g.threads, e, c));
    forall d
      ensures ContainsPos(g'.threads, d) <==> ContainsPos(g.threads, d)
      ensures ContainsPos(g.threads, d)
        ==> LabAt(g'.threads, d) == if d == e then LabAt(g.threads, e).(body := c) else LabAt(g.threads, d)
    {
    }
    hide SetBody;
    assert TidyLabel(g, LabAt(g.threads, e));
    forall d {:trigger ContainsPos(g'.threads, d)} | ContainsPos(g'.threads, d)
      ensures TidyLabel(g', LabAt(g'.threads, d))
    {
      assert TidyLabel(g, LabAt(g.threads, d));
      LinksStay(g.threads, g'.threads, BodyAt(g'.threads, d));
    }
    assert |g'.threads| == |g.threads| by { SetLength(g.threads, e, c); }
    forall t: nat | t < |g'.threads| ensures g'.threads[t] != [] && g'.threads[t][0].body == Start {
      assert ContainsPos(g.threads, Event(t, 0));
      assert ContainsPos(g'.threads, Event(t, 0));
    }
    forall a, d | a in g.co && d in g.co[a] ensures StoreOf(g'.threads, a, d) {
      assert StoreOf(g.threads, a, d);
    }
  }

  lemma SetLength(threads: seq<Thread>, e: Event, c: Body)
    requires ContainsPos(threads, e)
    ensures |SetBody(threads, e, c)| == |threads|
  {
  }

  /** setAlloc of an access. */
  function WithAlloc(b: Body, alloc: Event): Body
    requires b.Read? || b.Write?
  {
    if b.Read? then b.(ralloc := Some(alloc)) else b.(walloc := Some(alloc))
  }

  /** addAlloc: the access points to the allocation, and the allocation lists it. */
  predicate CanAddAlloc(threads: seq<Thread>, alloc: Event, access: Event) {
    && ContainsPos(threads, alloc) && BodyAt(threads, alloc).Malloc?
    && ContainsPos(threads, access) && (BodyAt(threads, access).Read? || BodyAt(threads, access).Write?)
  }

  function AllocAdded(g: Graph, alloc: Event, access: Event): Graph
    requires CanAddAlloc(g.threads, alloc, access)
  {
    var a := BodyAt(g.threads, alloc);
    var threads := SetBody(g.threads, access, WithAlloc(BodyAt(g.threads, access), alloc));
    g.(threads := SetBody(threads, alloc, a.(accesses := a.accesses + [access])))
  }

  method AddAlloc(g: ExecutionGraph, alloc: Event, access: Event)
    requires CanAddAlloc(g.threads, alloc, access)
    modifies g
    ensures g.G() == AllocAdded(old(g.G()), alloc, access)
  {
    g.threads := SetBody(g.threads, access, WithAlloc(BodyAt(g.threads, access), alloc));
    var a := BodyAt(g.threads, alloc);
    g.threads := SetBody(g.threads, alloc, a.(accesses := a.accesses + [access]));
  }

  /** Both steps are replacements that keep the graph tidy. */
  lemma AllocSteps(g: Graph, alloc: Event, access: Event)
    requires CanAddAlloc(g.threads, alloc, access)
    ensures var c := WithAlloc(BodyAt(g.threads, access), alloc);
      var threads := SetBody(g.threads, access, c);
      var a := BodyAt(g.threads, alloc);
      && ContainsPos(threads, alloc) && BodyAt(threads, alloc) == a
      && Relinks(BodyAt(g.threads, access), c) && OtherLinksInside(g.threads, c)
      && Relinks(a, a.(accesses := a.accesses + [access]))
      && (OtherLinksInside(g.threads, a) ==> OtherLinksInside(threads, a.(accesses := a.accesses + [access])))
  {
    hide SetBody;
    var c := WithAlloc(BodyAt(g.threads, access), alloc);
    forall d
      ensures ContainsPos(SetBody(g.threads, access, c), d) <==> ContainsPos(g.threads, d)
    {
      SetBodyAt(g.threads, access, c, d);
    }
    SetBodyAt(g.threads, access, c, alloc);
  }

  lemma AllocKeepsTidy(g: Graph, alloc: Event, access: Event)
    requires Tidy(g) && CanAddAlloc(g.threads, alloc, access)
    ensures Tidy(AllocAdded(g, alloc, access))
  {
    hide Tidy, SetBody, Relinks, OtherLinksInside, WithAlloc;
    AllocSteps(g, alloc, access);
    TidyLinked(g, alloc);
    var g1 := g.(threads := SetBody(g.threads, access, WithAlloc(BodyAt(g.threads, access), alloc)));
    RelinkKeepsTidy(g, access, WithAlloc(BodyAt(g.threads, access), alloc));
    var a := BodyAt(g.threads, alloc);
    RelinkKeepsTidy(g1, alloc, a.(accesses := a.accesses + [access]));
  }

  lemma TidyLinked(g: Graph, e: Event)
    requires Tidy(g) && ContainsPos(g.threads, e)
    ensures OtherLinksInside(g.threads, BodyAt(g.threads, e))
  {
    assert TidyLabel(g, LabAt(g.threads, e));
  }

  /** setFree of an allocation, and setParentJoin of the end of a thread. */
  function Linking(b: Body, to: Event): Body
    requires b.Malloc? || b.Finish?
  {
    if b.Malloc? then b.(free := Some(to)) else b.(join := Some(to))
  }

  predicate CanLink(threads: seq<Thread>, e: Event, to: Event) {
    ContainsPos(threads, to) && ContainsPos(threads, e) && (BodyAt(threads, e).Malloc? || BodyAt(threads, e).Finish?)
  }

  function LinkSet(g: Graph, e: Event, to: Event): Graph
    requires CanLink(g.threads, e, to)
  {
    g.(threads := SetBody(g.threads, e, Linking(BodyAt(g.threads, e), to)))
  }

  method SetLink(g: ExecutionGraph, e: Event, to: Event)
    requires CanLink(g.threads, e, to)
    modifies g
    ensures g.G() == LinkSet(old(g.G()), e, to)
  {
    g.threads := SetBody(g.threads, e, Linking(BodyAt(g.threads, e), to));
  }

  lemma LinkKeepsTidy(g: Graph, e: Event, to: Event)
    requires Tidy(g) && CanLink(g.threads, e, to)
    ensures Tidy(LinkSet(g, e, to)) && CanRelink(g.threads, e, Linking(BodyAt(g.threads, e), to))
  {
    hide Tidy, SetBody;
    TidyLinked(g, e);
    RelinkKeepsTidy(g, e, Linking(BodyAt(g.threads, e), to));
  }

  // ----- coherence

  predicate CanPlace(g: Graph, w: Event, k: nat) {
    && IsWrite(g.threads, w) && BodyAt(g.threads, w).wbucket in g.co
    && w !in g.co[BodyAt(g.threads, w).wbucket] && k <= |g.co[BodyAt(g.threads, w).wbucket]|
  }

  /** addStoreToCO: puts a store before the k-th of its bucket. */
  function StoreAdded(g: Graph, w: Event, k: nat): Graph
    requires CanPlace(g, w, k)
  {
    var a := BodyAt(g.threads, w).wbucket;
    g.(co := g.co[a := g.co[a][..k] + [w] + g.co[a][k..]])
  }

  method AddStoreToCO(g: ExecutionGraph, w: Event, k: nat)
    requires CanPlace(g.G(), w, k)
    modifies g
    ensures g.G() == StoreAdded(old(g.G()), w, k)
  {
    var a := BodyAt(g.threads, w).wbucket;
    g.co := g.co[a := g.co[a][..k] + [w] + g.co[a][k..]];
  }

  lemma InsertedOnce(es: seq<Event>, k: nat, w: Event)
    requires k <= |es| && w !in es && Distinct(es)
    ensures Distinct(es[..k] + [w] + es[k..])
    ensures forall e <- es[..k] + [w] + es[k..] :: e == w || e in es
  {
    var s := es[..k] + [w] + es[k..];
    forall i, j | 0 <= i < j < |s| ensures s[i] != s[j] {
      assert s[i] == if i < k then es[i] else if i == k then w else es[i - 1];
      assert s[j] == if j < k then es[j] else if j == k then w else es[j - 1];
    }
  }

  lemma StoreKeepsTidy(g: Graph, w: Event, k: nat)
    requires Tidy(g) && CanPlace(g, w, k)
    ensures Tidy(StoreAdded(g, w, k))
  {
    hide OtherLinksInside, Distinct;
    var a := BodyAt(g.threads, w).wbucket;
    assert TidyBucket(g.threads, a, g.co[a]);
    InsertedOnce(g.co[a], k, w);
    BucketReplaced(g, a, g.co[a][..k] + [w] + g.co[a][k..]);
  }

  lemma BucketReplaced(g: Graph, a: nat, es: seq<Event>)
    requires Tidy(g) && a in g.co && TidyBucket(g.threads, a, es)
    ensures Tidy(g.(co := g.co[a := es]))
  {
    hide OtherLinksInside, TidyBucket, StartsFirst;
    var g' := g.(co := g.co[a := es]);
    assert g'.co.Keys == g.co.Keys;
    forall e {:trigger ContainsPos(g'.threads, e)} | ContainsPos(g'.threads, e)
      ensures TidyLabel(g', LabAt(g'.threads, e))
    {
      assert TidyLabel(g, LabAt(g.threads, e));
    }
  }

  /** Building a bucket anew from its stores (revisitWrite, completeRevisitedRMW). */
  function Reordered(g: Graph, a: nat, order: seq<Event>): Graph {
    g.(co := g.co[a := order])
  }

  lemma ReorderKeepsTidy(g: Graph, a: nat, order: seq<Event>)
    requires Tidy(g) && a in g.co && multiset(order) == multiset(g.co[a])
    ensures Tidy(Reordered(g, a, order))
  {
    hide Tidy, Distinct;
    TidyIn(g, a);
    DistinctArrangement(g.co[a], order);
    forall e | e in order
      ensures StoreOf(g.threads, a, e)
    {
      assert e in multiset(order);
      assert e in multiset(g.co[a]);
    }
    BucketReplaced(g, a, order);
  }

  lemma TidyIn(g: Graph, a: nat)
    requires Tidy(g) && a in g.co
    ensures TidyBucket(g.threads, a, g.co[a])
  {
  }

  // ----- adding a label

  /** A label as it is added: without sources or readers, and without links, except that a
      free points to its allocation. A thread begins with its start. */
  predicate Fresh(threads: seq<Thread>, t: nat, b: Body) {
    && t <= |threads| && (t == |threads| ==> b == Start)
    && match b
       case Read(_, rfs, alloc) => rfs == [] && alloc.None?
       case Write(_, readers, alloc) => readers == [] && alloc.None?
       case Malloc(free, accesses) => free.None? && accesses == []
       case Free(alloc) => alloc.Some? ==> ContainsPos(threads, alloc.value) && BodyAt(threads, alloc.value).Malloc?
       case Finish(join) => join.None?
       case _ => true
  }

  /** addLabelToGraph at the end of thread t (or at the start of the next one), with
      trackCoherenceAtLoc for an access. */
  function Added(g: Graph, t: nat, b: Body): Graph
    requires t <= |g.threads|
  {
    var lab := Lab(g.timestamp, b);
    var threads := if t < |g.threads| then g.threads[t := g.threads[t] + [lab]] else g.threads + [[lab]];
    g.(threads := threads, co := Tracked(g.co, BucketOf(b)), initRfs := Tracked(g.initRfs, BucketOf(b)),
       timestamp := g.timestamp + 1)
  }

  method AddLabelToGraph(g: ExecutionGraph, t: nat, b: Body)
    requires t <= |g.threads|
    modifies g
    ensures g.G() == Added(old(g.G()), t, b)
  {
    var lab := Lab(g.timestamp, b);
    g.timestamp := g.timestamp + 1;
    if t < |g.threads| {
      g.threads := g.threads[t := g.threads[t] + [lab]];
    } else {
      g.threads := g.threads + [[lab]];
    }
    g.co := TrackBucket(g.co, b);
    g.initRfs := TrackBucket(g.initRfs, b);
  }

  /** trackCoherenceAtLoc, for an access. */
  method TrackBucket(m: map<nat, seq<Event>>, b: Body) returns (r: map<nat, seq<Event>>)
    ensures r == Tracked(m, BucketOf(b))
  {
    r := m;
    if b.Read? && b.rbucket !in r { r := r[b.rbucket := []]; }
    if b.Write? && b.wbucket !in r { r := r[b.wbucket := []]; }
  }

  function Tracked(m: map<nat, seq<Event>>, buckets: set<nat>): map<nat, seq<Event>> {
    map a | a in m.Keys + buckets :: if a in m then m[a] else []
  }

  /** Where it goes. */
  function NextPos(threads: seq<Thread>, t: nat): Event
    requires t <= |threads|
  {
    Event(t, if t < |threads| then |threads[t]| else 0)
  }

  lemma AddedPos(g: Graph, t: nat, b: Body, e: Event)
    requires t <= |g.threads|
    ensures ContainsPos(Added(g, t, b).threads, e) <==> ContainsPos(g.threads, e) || e == NextPos(g.threads, t)
    ensures ContainsPos(g.threads, e) ==> BodyAt(Added(g, t, b).threads, e) == BodyAt(g.threads, e)
    ensures !ContainsPos(g.threads, NextPos(g.threads, t))
    ensures e == NextPos(g.threads, t) ==> BodyAt(Added(g, t, b).threads, e) == b
  {
  }

  lemma AddKeepsTidy(g: Graph, t: nat, b: Body)
    requires Fresh(g.threads, t, b) && Tidy(g)
    ensures Tidy(Added(g, t, b))
  {
    hide Distinct, TidyLabel, Added, IsWrite;
    var g' := Added(g, t, b);
    var pos := NextPos(g.threads, t);
    AddedParts(g, t, b);
    forall e {:trigger ContainsPos(g'.threads, e)} | ContainsPos(g'.threads, e)
      ensures TidyLabel(g', LabAt(g'.threads, e))
    {
      AddedPos(g, t, b, e);
      AddedLabel(g, t, b, e);
    }
    forall a | a in g'.co ensures TidyBucket(g'.threads, a, g'.co[a]) {
      if a in g.co {
        assert TidyBucket(g.threads, a, g.co[a]);
        forall e | e in g.co[a] ensures StoreOf(g'.threads, a, e) {
          AddedPos(g, t, b, e);
          AddedStore(g, t, b, a, e);
        }
      } else {
        NothingTwice();
      }
    }
  }

  lemma NothingTwice()
    ensures Distinct<Event>([])
  {
  }

  lemma AddedParts(g: Graph, t: nat, b: Body)
    requires Fresh(g.threads, t, b) && StartsFirst(g.threads)
    ensures var g' := Added(g, t, b);
      && StartsFirst(g'.threads) && g'.timestamp == g.timestamp + 1
      && g'.co == Tracked(g.co, BucketOf(b)) && g'.initRfs == Tracked(g.initRfs, BucketOf(b))
  {
  }

  lemma AddedStore(g: Graph, t: nat, b: Body, a: nat, e: Event)
    requires t <= |g.threads| && StoreOf(g.threads, a, e)
    ensures StoreOf(Added(g, t, b).threads, a, e)
  {
    hide Added;
    AddedPos(g, t, b, e);
  }

  lemma AddedLabel(g: Graph, t: nat, b: Body, e: Event)
    requires t <= |g.threads| && Fresh(g.threads, t, b) && Tidy(g) && ContainsPos(Added(g, t, b).threads, e)
    ensures TidyLabel(Added(g, t, b), LabAt(Added(g, t, b).threads, e))
  {
    hide Added, OtherLinksInside, Fresh;
    var g' := Added(g, t, b);
    AddedParts(g, t, b);
    AddedPos(g, t, b, e);
    AddedStamp(g, t, b, e);
    forall d ensures ContainsPos(g.threads, d) ==> ContainsPos(g'.threads, d) { AddedPos(g, t, b, d); }
    assert g.co.Keys <= g'.co.Keys && BucketOf(b) <= g'.co.Keys;
    if ContainsPos(g.threads, e) {
      assert TidyLabel(g, LabAt(g.threads, e));
      LinksStay(g.threads, g'.threads, BodyAt(g.threads, e));
    } else {
      FreshLinks(g.threads, t, b);
      LinksStay(g.threads, g'.threads, b);
    }
  }

  lemma FreshLinks(threads: seq<Thread>, t: nat, b: Body)
    requires Fresh(threads, t, b)
    ensures OtherLinksInside(threads, b)
  {
  }

  lemma AddedStamp(g: Graph, t: nat, b: Body, e: Event)
    requires t <= |g.threads| && ContainsPos(Added(g, t, b).threads, e)
    ensures ContainsPos(g.threads, e) ==> LabAt(Added(g, t, b).threads, e) == LabAt(g.threads, e)
    ensures !ContainsPos(g.threads, e)
      ==> e == NextPos(g.threads, t) && LabAt(Added(g, t, b).threads, e) == Lab(g.timestamp, b)
  {
  }

  // ----- stamps

  /** Stamps increase along each thread, and no two labels have the same one. */
  ghost predicate StampsOrdered(threads: seq<Thread>) {
    StampsIncrease(threads) && StampsDistinct(threads)
  }

  lemma SameStamps(threads: seq<Thread>, threads': seq<Thread>)
    requires StampsOrdered(threads)
    requires forall e {:trigger ContainsPos(threads', e)} ::
      ContainsPos(threads', e) ==> ContainsPos(threads, e) && LabAt(threads', e).stamp == LabAt(threads, e).stamp
    ensures StampsOrdered(threads')
  {
    forall t: nat, i: nat, j: nat {:trigger threads'[t][i], threads'[t][j]} | t < |threads'| && i < j < |threads'[t]|
      ensures threads'[t][i].stamp < threads'[t][j].stamp
    {
      assert ContainsPos(threads', Event(t, i)) && ContainsPos(threads', Event(t, j));
      assert threads[t][i].stamp < threads[t][j].stamp;
    }
    forall d, e {:trigger ContainsPos(threads', d), ContainsPos(threads', e)} | ContainsPos(threads', d)
      && ContainsPos(threads', e) && d != e
      ensures threads'[d.thread][d.index].stamp != threads'[e.thread][e.index].stamp
    {
      assert LabAt(threads, d).stamp != LabAt(threads, e).stamp;
    }
  }

  lemma SetKeepsStamps(threads: seq<Thread>, e: Event, b: Body)
    requires StampsOrdered(threads) && ContainsPos(threads, e)
    ensures StampsOrdered(SetBody(threads, e, b))
  {
    hide StampsOrdered;
    forall d
      ensures ContainsPos(SetBody(threads, e, b), d) <==> ContainsPos(threads, d)
      ensures ContainsPos(threads, d) ==> LabAt(SetBody(threads, e, b), d).stamp == LabAt(threads, d).stamp
    {
    }
    SameStamps(threads, SetBody(threads, e, b));
  }

  lemma AddKeepsStamps(g: Graph, t: nat, b: Body)
    requires t <= |g.threads| && Fresh(g.threads, t, b) && Tidy(g) && StampsOrdered(g.threads)
    ensures StampsOrdered(Added(g, t, b).threads)
  {
    hide Added, Fresh, OtherLinksInside;
    var threads: seq<Thread> := Added(g, t, b).threads;
    forall d, e {:trigger ContainsPos(threads, d), ContainsPos(threads, e)} | ContainsPos(threads, d)
      && ContainsPos(threads, e) && d != e
      ensures LabAt(threads, d).stamp != LabAt(threads, e).stamp
      ensures d.thread == e.thread && d.index < e.index ==> LabAt(threads, d).stamp < LabAt(threads, e).stamp
    {
      AddedStamp(g, t, b, d);
      AddedStamp(g, t, b, e);
      StampsOfTwo(g, d, e);
    }
    forall u: nat, i: nat, j: nat {:trigger threads[u][i], threads[u][j]} | u < |threads| && i < j < |threads[u]|
      ensures threads[u][i].stamp < threads[u][j].stamp
    {
      assert ContainsPos(threads, Event(u, i)) && ContainsPos(threads, Event(u, j));
    }
  }

  lemma StampsOfTwo(g: Graph, d: Event, e: Event)
    requires Tidy(g) && StampsOrdered(g.threads)
    ensures ContainsPos(g.threads, d) ==> LabAt(g.threads, d).stamp < g.timestamp
    ensures ContainsPos(g.threads, e) ==> LabAt(g.threads, e).stamp < g.timestamp
    ensures ContainsPos(g.threads, d) && ContainsPos(g.threads, e) && d != e ==>
      && LabAt(g.threads, d).stamp != LabAt(g.threads, e).stamp
      && (d.thread == e.thread && d.index < e.index ==> LabAt(g.threads, d).stamp < LabAt(g.threads, e).stamp)
  {
    if ContainsPos(g.threads, d) { assert TidyLabel(g, LabAt(g.threads, d)); }
    if ContainsPos(g.threads, e) { assert TidyLabel(g, LabAt(g.threads, e)); }
  }

  // ----- exactly what the operations change

  lemma ChangedReads(g: Graph, r: Event, rfs: Rfs)
    requires Mirror(g) && IsRead(g.threads, r) && SourcesPresent(g.threads, rfs)
    ensures IsRead(WithRfs(g, r, rfs).threads, r)
    ensures SameReads(WithRfs(g, r, rfs).threads, Changed(g, r, rfs).threads)
  {
    hide MirrorBut, Mirror, SameReads, HasSource, SetBody, Stores, UnlinkedAll, LinkedAll, WithRfs;
    ChangeSteps(g, r, rfs);
    var oldRfs := BodyAt(g.threads, r).rfs;
    var g1 := WithRfs(g, r, rfs);
    UnlinkedAllMirror(g1, r, oldRfs, |oldRfs|);
    var g2 := UnlinkedAll(g1, r, oldRfs, |oldRfs|);
    LinkedAllMirror(g2, r, Stores(rfs), |Stores(rfs)|);
    SameReadsTwice(g1.threads, g2.threads, Changed(g, r, rfs).threads);
  }

  /** changeRf gives the read its new list. It changes no other read and nothing of other
      labels but the reader lists of writes. */
  lemma ChangedLabel(g: Graph, r: Event, rfs: Rfs, e: Event)
    requires Mirror(g) && IsRead(g.threads, r) && SourcesPresent(g.threads, rfs)
    ensures var g' := Changed(g, r, rfs);
      && g'.co == g.co && g'.initRfs.Keys == g.initRfs.Keys && g'.timestamp == g.timestamp
      && (ContainsPos(g'.threads, e) <==> ContainsPos(g.threads, e))
      && (ContainsPos(g.threads, e) ==>
            && LabAt(g'.threads, e).stamp == LabAt(g.threads, e).stamp
            && var b, c := BodyAt(g.threads, e), BodyAt(g'.threads, e);
               if b.Read? then c == if e == r then b.(rfs := rfs) else b
               else if b.Write? then c.Write? && c == b.(readers := c.readers)
               else c == b)
  {
    hide Changed, WithRfs, SameReads, HasSource, SetBody;
    KnownBucket(g, r);
    ChangedApart(g, r, rfs);
    ChangedReads(g, r, rfs);
    var g' := Changed(g, r, rfs);
    assert ContainsPos(g'.threads, e) <==> ContainsPos(g.threads, e);
    if ContainsPos(g.threads, e) && BodyAt(g.threads, e).Read? { StaysAsRead(g, r, rfs, g', e); }
  }

  lemma KnownBucket(g: Graph, r: Event)
    requires Mirror(g) && IsRead(g.threads, r)
    ensures BucketKnown(g, r)
  {
  }

  lemma StaysAsRead(g: Graph, r: Event, rfs: Rfs, g': Graph, e: Event)
    requires IsRead(g.threads, r) && SameReads(WithRfs(g, r, rfs).threads, g'.threads) && IsRead(g.threads, e)
    ensures ContainsPos(g'.threads, e)
    ensures BodyAt(g'.threads, e) == if e == r then BodyAt(g.threads, r).(rfs := rfs) else BodyAt(g.threads, e)
  {
    hide SetBody;
    SetBodyAt(g.threads, r, BodyAt(g.threads, r).(rfs := rfs), e);
    assert IsRead(WithRfs(g, r, rfs).threads, e);
    assert IsRead(g'.threads, e);
  }

  /** Of the lists of readers it changes only the entry of the read: that is there once exactly
      where some part of the new list comes from. */
  lemma ChangedReaders(g: Graph, r: Event, rfs: Rfs, w: Event, d: Event)
    requires Mirror(g) && IsRead(g.threads, r) && SourcesPresent(g.threads, rfs) && IsWrite(g.threads, w)
    ensures IsWrite(Changed(g, r, rfs).threads, w)
    ensures multiset(BodyAt(Changed(g, r, rfs).threads, w).readers)[d]
      == if d == r then Times(HasSource(rfs, FromWrite(w))) else multiset(BodyAt(g.threads, w).readers)[d]
  {
    hide Changed, HasSource;
    var g' := Changed(g, r, rfs);
    ChangeKeepsMirror(g, r, rfs);
    ChangedLabel(g, r, rfs, w);
    ChangedLabel(g, r, rfs, d);
    ChangedLabel(g, r, rfs, r);
    assert IsWrite(g'.threads, w);
    assert d != r ==> (ReadsFrom(g'.threads, d, FromWrite(w)) <==> ReadsFrom(g.threads, d, FromWrite(w)));
    assert ReadsFrom(g'.threads, r, FromWrite(w)) <==> HasSource(rfs, FromWrite(w));
    assert multiset(BodyAt(g'.threads, w).readers)[d] == Times(ReadsFrom(g'.threads, d, FromWrite(w)));
    assert multiset(BodyAt(g.threads, w).readers)[d] == Times(ReadsFrom(g.threads, d, FromWrite(w)));
  }

  /** The same for the readers of initialization. */
  lemma ChangedInitReaders(g: Graph, r: Event, rfs: Rfs, a: nat, d: Event)
    requires Mirror(g) && IsRead(g.threads, r) && SourcesPresent(g.threads, rfs) && a in g.initRfs
    ensures a in Changed(g, r, rfs).initRfs
    ensures multiset(Changed(g, r, rfs).initRfs[a])[d]
      == if d == r then Times(BodyAt(g.threads, r).rbucket == a && HasSource(rfs, Init)) else multiset(g.initRfs[a])[d]
  {
    hide Changed, HasSource;
    var g' := Changed(g, r, rfs);
    ChangeKeepsMirror(g, r, rfs);
    ChangedLabel(g, r, rfs, d);
    ChangedLabel(g, r, rfs, r);
    assert a in g'.initRfs.Keys;
    assert d != r ==> (ReadsFrom(g'.threads, d, Init) <==> ReadsFrom(g.threads, d, Init));
    assert ReadsFrom(g'.threads, r, Init) <==> HasSource(rfs, Init);
    assert multiset(g'.initRfs[a])[d] == Times(ReadsFrom(g'.threads, d, Init) && BodyAt(g'.threads, d).rbucket == a);
    assert multiset(g.initRfs[a])[d] == Times(ReadsFrom(g.threads, d, Init) && BodyAt(g.threads, d).rbucket == a);
  }

  /** addAlloc changes the two labels and nothing else. */
  lemma AllocAddedExactly(g: Graph, alloc: Event, access: Event, e: Event)
    requires CanAddAlloc(g.threads, alloc, access)
    ensures var g' := AllocAdded(g, alloc, access);
      && g'.co == g.co && g'.initRfs == g.initRfs && g'.timestamp == g.timestamp
      && (ContainsPos(g'.threads, e) <==> ContainsPos(g.threads, e))
      && (ContainsPos(g.threads, e) ==>
            && LabAt(g'.threads, e).stamp == LabAt(g.threads, e).stamp
            && var b := BodyAt(g.threads, e);
               BodyAt(g'.threads, e)
               == if e == alloc then b.(accesses := b.accesses + [access])
                  else if e == access && b.Read? then b.(ralloc := Some(alloc))
                  else if e == access then b.(walloc := Some(alloc))
                  else b)
  {
    var c := WithAlloc(BodyAt(g.threads, access), alloc);
    SetLabAt(g.threads, access, c, e);
    SetLabAt(g.threads, access, c, alloc);
    var threads := SetBody(g.threads, access, c);
    var a := BodyAt(g.threads, alloc);
    SetLabAt(threads, alloc, a.(accesses := a.accesses + [access]), e);
  }

  lemma SetLabAt(threads: seq<Thread>, e: Event, b: Body, d: Event)
    requires ContainsPos(threads, e)
    ensures ContainsPos(SetBody(threads, e, b), d) <==> ContainsPos(threads, d)
    ensures ContainsPos(threads, d) ==>
      LabAt(SetBody(threads, e, b), d) == if d == e then LabAt(threads, e).(body := b) else LabAt(threads, d)
  {
  }

  /** setFree and setParentJoin change one link. */
  lemma LinkSetExactly(g: Graph, from: Event, to: Event, e: Event)
    requires CanLink(g.threads, from, to)
    ensures var g' := LinkSet(g, from, to);
      && g'.co == g.co && g'.initRfs == g.initRfs && g'.timestamp == g.timestamp
      && (ContainsPos(g'.threads, e) <==> ContainsPos(g.threads, e))
      && (ContainsPos(g.threads, e) ==>
            && LabAt(g'.threads, e).stamp == LabAt(g.threads, e).stamp
            && var b := BodyAt(g.threads, e);
               BodyAt(g'.threads, e)
               == if e != from then b else if b.Malloc? then b.(free := Some(to)) else Finish(Some(to)))
  {
    SetLabAt(g.threads, from, Linking(BodyAt(g.threads, from), to), e);
  }

  /** addStoreToCO puts the store where it is told, and changes no other bucket. */
  lemma StoreAddedExactly(g: Graph, w: Event, k: nat, a: nat)
    requires CanPlace(g, w, k)
    ensures var g' := StoreAdded(g, w, k);
      && g'.threads == g.threads && g'.initRfs == g.initRfs && g'.timestamp == g.timestamp && g'.co.Keys == g.co.Keys
      && (a in g.co && a != BodyAt(g.threads, w).wbucket ==> g'.co[a] == g.co[a])
      && (a == BodyAt(g.threads, w).wbucket ==> k < |g'.co[a]| && g'.co[a][k] == w && Without(g'.co[a], k) == g.co[a])
  {
  }

  /** A label is added at the end of its thread, with the next stamp and with its bucket. */
  lemma AddedExactly(g: Graph, t: nat, b: Body, e: Event, a: nat)
    requires t <= |g.threads|
    ensures var g' := Added(g, t, b);
      && g'.timestamp == g.timestamp + 1
      && (ContainsPos(g'.threads, e) <==> ContainsPos(g.threads, e) || e == NextPos(g.threads, t))
      && (ContainsPos(g'.threads, e) ==>
            LabAt(g'.threads, e) == if ContainsPos(g.threads, e) then LabAt(g.threads, e) else Lab(g.timestamp, b))
      && (a in g'.co <==> a in g.co || (b.Read? && b.rbucket == a) || (b.Write? && b.wbucket == a))
      && (a in g'.co ==> g'.co[a] == if a in g.co then g.co[a] else [])
      && (a in g'.initRfs <==> a in g.initRfs || (b.Read? && b.rbucket == a) || (b.Write? && b.wbucket == a))
      && (a in g'.initRfs ==> g'.initRfs[a] == if a in g.initRfs then g.initRfs[a] else [])
  {
  }
}
