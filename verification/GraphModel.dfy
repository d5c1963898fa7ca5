/** The execution graph of src/ExecutionGraph.cpp: labels with their links, coherence and the
    readers of initialization. What is left of a graph in a view, and the view of a stamp. */
module GraphModel {
  import opened Options
  import opened Events
  import opened RfOptions

  /** What a label holds besides its stamp. Links to other labels are events. */
  datatype Body =
    | Start
    | Read(rbucket: nat, rfs: Rfs, ralloc: Option<Event>)
    | Write(wbucket: nat, readers: seq<Event>, walloc: Option<Event>)
    | Malloc(free: Option<Event>, accesses: seq<Event>)
    | Free(freed: Option<Event>)
    | Finish(join: Option<Event>)
    | Other

  datatype Lab = Lab(stamp: nat, body: Body)

  type Thread = seq<Lab>

  datatype Graph = Graph(threads: seq<Thread>, co: map<nat, seq<Event>>, initRfs: map<nat, seq<Event>>, timestamp: nat)

  /** For each thread, the last event that is seen. */
  type View = seq<nat>

  predicate Contains(v: View, e: Event) {
    e.index <= if e.thread < |v| then v[e.thread] else 0
  }

  predicate ContainsPos(threads: seq<Thread>, e: Event) {
    e.thread < |threads| && e.index < |threads[e.thread]|
  }

  /** v is a view of the threads: it sees at least every thread's start. */
  predicate ViewOf(threads: seq<Thread>, v: View) {
    |v| == |threads| && forall t :: 0 <= t < |v| ==> v[t] < |threads[t]|
  }

  function SourceIn(v: View, s: Source): bool {
    s.Init? || Contains(v, s.write)
  }

  // ----- a graph restricted to a view

  function FilterEvents(es: seq<Event>, v: View): seq<Event> {
    if es == [] then []
    else FilterEvents(es[..|es| - 1], v) + if Contains(v, es[|es| - 1]) then [es[|es| - 1]] else []
  }

  function FilterRfs(rfs: Rfs, v: View): Rfs {
    if rfs == [] then []
    else FilterRfs(rfs[..|rfs| - 1], v) + if SourceIn(v, rfs[|rfs| - 1].from) then [rfs[|rfs| - 1]] else []
  }

  function KeepLink(link: Option<Event>, v: View): Option<Event> {
    if link.Some? && !Contains(v, link.value) then None else link
  }

  /** A body without links to events outside the view. */
  function Prune(b: Body, v: View): Body {
    match b
    case Start => Start
    case Read(a, rfs, alloc) => Read(a, FilterRfs(rfs, v), KeepLink(alloc, v))
    case Write(a, readers, alloc) => Write(a, FilterEvents(readers, v), KeepLink(alloc, v))
    case Malloc(free, accesses) => Malloc(KeepLink(free, v), FilterEvents(accesses, v))
    case Free(alloc) => Free(KeepLink(alloc, v))
    case Finish(join) => Finish(KeepLink(join, v))
    case Other => Other
  }

  /** The first n labels of a thread, pruned. */
  function PruneThread(ls: Thread, v: View, n: nat): (r: Thread)
    requires n <= |ls|
    ensures |r| == n
  {
    if n == 0 then [] else PruneThread(ls, v, n - 1) + [Lab(ls[n - 1].stamp, Prune(ls[n - 1].body, v))]
  }

  function PruneThreads(threads: seq<Thread>, v: View, n: nat): (r: seq<Thread>)
    requires ViewOf(threads, v) && n <= |threads|
    ensures |r| == n
  {
    if n == 0 then [] else PruneThreads(threads, v, n - 1) + [PruneThread(threads[n - 1], v, v[n - 1] + 1)]
  }

  function BucketOf(b: Body): set<nat> {
    if b.Read? then {b.rbucket} else if b.Write? then {b.wbucket} else {}
  }

  /** The buckets that the first n labels of a thread access. */
  function ThreadBuckets(ls: Thread, n: nat): set<nat>
    requires n <= |ls|
  {
    if n == 0 then {} else ThreadBuckets(ls, n - 1) + BucketOf(ls[n - 1].body)
  }

  function Buckets(threads: seq<Thread>, v: View, n: nat): set<nat>
    requires ViewOf(threads, v) && n <= |threads|
  {
    if n == 0 then {} else Buckets(threads, v, n - 1) + ThreadBuckets(threads[n - 1], v[n - 1] + 1)
  }

  function FilterMap(m: map<nat, seq<Event>>, keep: set<nat>, v: View): map<nat, seq<Event>> {
    map a | a in m && a in keep :: FilterEvents(m[a], v)
  }

  /** The graph restricted to the events of the view. */
  function Restrict(g: Graph, v: View): Graph
    requires ViewOf(g.threads, v)
  {
    var keep := Buckets(g.threads, v, |g.threads|);
    Graph(PruneThreads(g.threads, v, |g.threads|), FilterMap(g.co, keep, v), FilterMap(g.initRfs, keep, v), g.timestamp)
  }

  // ----- the view of a stamp

  /** The last of the first n labels whose stamp is at most s; position 0 if there is none. */
  function LastUpTo(ls: Thread, s: nat, n: nat): (j: nat)
    requires n <= |ls|
    ensures j < n || (n == 0 && j == 0)
  {
    if n == 0 then 0
    else if ls[n - 1].stamp <= s then n - 1
    else if n == 1 then 0
    else LastUpTo(ls, s, n - 1)
  }

  function ViewFromStamp(threads: seq<Thread>, s: nat, n: nat): (v: View)
    requires n <= |threads|
    ensures |v| == n
  {
    if n == 0 then [] else ViewFromStamp(threads, s, n - 1) + [LastUpTo(threads[n - 1], s, |threads[n - 1]|)]
  }

  // ----- graphs whose links are in order

  /** Every thread has its start, and links do not leave the graph. */
  ghost predicate LinksInside(g: Graph) {
    && (forall t :: 0 <= t < |g.threads| ==> g.threads[t] != [] && g.threads[t][0].body == Start)
    && (forall e {:trigger ContainsPos(g.threads, e)} ::
          ContainsPos(g.threads, e) ==> LinkedInside(g.threads, BodyAt(g.threads, e)))
  }

  function BodyAt(threads: seq<Thread>, e: Event): Body
    requires ContainsPos(threads, e)
  {
    threads[e.thread][e.index].body
  }

  ghost predicate LinkInside(threads: seq<Thread>, link: Option<Event>) {
    link.Some? ==> ContainsPos(threads, link.value)
  }

  ghost predicate LinkedInside(threads: seq<Thread>, b: Body) {
    match b
    case Start => true
    case Read(_, rfs, alloc) =>
      LinkInside(threads, alloc)
        && forall i :: 0 <= i < |rfs| && rfs[i].from.FromWrite? ==> ContainsPos(threads, rfs[i].from.write)
    case Write(_, readers, alloc) => LinkInside(threads, alloc) && forall r <- readers :: ContainsPos(threads, r)
    case Malloc(free, accesses) => LinkInside(threads, free) && forall r <- accesses :: ContainsPos(threads, r)
    case Free(alloc) => LinkInside(threads, alloc)
    case Finish(join) => LinkInside(threads, join)
    case Other => true
  }

  /** Every accessed bucket is tracked, and coherence orders the bucket's stores. */
  ghost predicate BucketsTracked(g: Graph) {
    && g.co.Keys == g.initRfs.Keys
    && (forall e {:trigger ContainsPos(g.threads, e)} ::
          ContainsPos(g.threads, e) ==> BucketOf(BodyAt(g.threads, e)) <= g.co.Keys)
    && (forall a, e :: a in g.co && e in g.co[a]
          ==> ContainsPos(g.threads, e) && BodyAt(g.threads, e).Write? && BodyAt(g.threads, e).wbucket == a)
    && (forall a, e :: a in g.initRfs && e in g.initRfs[a]
          ==> ContainsPos(g.threads, e) && BodyAt(g.threads, e).Read? && BodyAt(g.threads, e).rbucket == a)
  }

  /** Stamps increase along each thread. */
  ghost predicate StampsIncrease(threads: seq<Thread>) {
    forall t, i, j {:trigger threads[t][i], threads[t][j]} ::
      0 <= t < |threads| && 0 <= i < j < |threads[t]| ==> threads[t][i].stamp < threads[t][j].stamp
  }

  // ----- basic facts

  lemma {:induction false} ViewFromStampAt(threads: seq<Thread>, s: nat, n: nat, t: nat)
    requires t < n <= |threads|
    ensures ViewFromStamp(threads, s, n)[t] == LastUpTo(threads[t], s, |threads[t]|)
  {
    if t < n - 1 { ViewFromStampAt(threads, s, n - 1, t); }
  }

  /** The view from a stamp holds, besides each thread's start, exactly the events with
      stamps up to it. */
  lemma {:induction false} LastUpToIff(ls: Thread, s: nat, n: nat, i: nat)
    requires 0 < i < n <= |ls| && forall i, j :: 0 <= i < j < |ls| ==> ls[i].stamp < ls[j].stamp
    ensures i <= LastUpTo(ls, s, n) <==> ls[i].stamp <= s
  {
    if ls[n - 1].stamp > s && n > 1 && i < n - 1 { LastUpToIff(ls, s, n - 1, i); }
  }

  lemma ViewFromStampIff(threads: seq<Thread>, s: nat, e: Event)
    requires StampsIncrease(threads) && ContainsPos(threads, e)
    ensures Contains(ViewFromStamp(threads, s, |threads|), e) <==> e.index == 0 || threads[e.thread][e.index].stamp <= s
  {
    ViewFromStampAt(threads, s, |threads|, e.thread);
    var ls := threads[e.thread];
    forall i, j | 0 <= i < j < |ls| ensures ls[i].stamp < ls[j].stamp {
      assert threads[e.thread][i].stamp < threads[e.thread][j].stamp;
    }
    if e.index > 0 { LastUpToIff(ls, s, |ls|, e.index); }
  }

  lemma ViewFromStampIsView(threads: seq<Thread>, s: nat)
    requires forall t :: 0 <= t < |threads| ==> threads[t] != []
    ensures ViewOf(threads, ViewFromStamp(threads, s, |threads|))
  {
    forall t | 0 <= t < |threads| ensures ViewFromStamp(threads, s, |threads|)[t] < |threads[t]| {
      ViewFromStampAt(threads, s, |threads|, t);
    }
  }

  lemma {:induction false} FilterElements(es: seq<Event>, v: View, e: Event)
    ensures multiset(FilterEvents(es, v))[e] == if Contains(v, e) then multiset(es)[e] else 0
    ensures e in FilterEvents(es, v) <==> e in es && Contains(v, e)
    decreases |es|
  {
    if es != [] {
      assert es == es[..|es| - 1] + [es[|es| - 1]];
      FilterElements(es[..|es| - 1], v, e);
    }
  }

  lemma {:induction false} PruneThreadAt(ls: Thread, v: View, n: nat, i: nat)
    requires i < n <= |ls|
    ensures PruneThread(ls, v, n)[i] == Lab(ls[i].stamp, Prune(ls[i].body, v))
  {
    hide Prune;
    if i < n - 1 { PruneThreadAt(ls, v, n - 1, i); }
  }

  lemma {:induction false} PruneThreadsAt(threads: seq<Thread>, v: View, n: nat, t: nat)
    requires ViewOf(threads, v) && t < n <= |threads|
    ensures PruneThreads(threads, v, n)[t] == PruneThread(threads[t], v, v[t] + 1)
  {
    hide PruneThread;
    if t < n - 1 { PruneThreadsAt(threads, v, n - 1, t); }
  }

  lemma {:induction false} ThreadBucketsHas(ls: Thread, n: nat, i: nat)
    requires i < n <= |ls|
    ensures BucketOf(ls[i].body) <= ThreadBuckets(ls, n)
  {
    hide BucketOf;
    if i < n - 1 { ThreadBucketsHas(ls, n - 1, i); }
  }

  lemma {:induction false} BucketsHas(threads: seq<Thread>, v: View, n: nat, e: Event)
    requires ViewOf(threads, v) && e.thread < n <= |threads| && e.index <= v[e.thread]
    ensures BucketOf(BodyAt(threads, e)) <= Buckets(threads, v, n)
  {
    hide BucketOf, ThreadBuckets;
    if e.thread < n - 1 {
      BucketsHas(threads, v, n - 1, e);
    } else {
      ThreadBucketsHas(threads[e.thread], v[e.thread] + 1, e.index);
    }
  }

  lemma {:induction false} ThreadBucketsFrom(ls: Thread, n: nat, a: nat) returns (i: nat)
    requires n <= |ls| && a in ThreadBuckets(ls, n)
    ensures i < n && a in BucketOf(ls[i].body)
  {
    hide BucketOf;
    i := n - 1;
    if a !in BucketOf(ls[i].body) { i := ThreadBucketsFrom(ls, n - 1, a); }
  }

  lemma {:induction false} BucketsFrom(threads: seq<Thread>, v: View, n: nat, a: nat) returns (e: Event)
    requires ViewOf(threads, v) && n <= |threads| && a in Buckets(threads, v, n)
    ensures e.thread < n && e.index <= v[e.thread] && a in BucketOf(BodyAt(threads, e))
  {
    hide BucketOf, ThreadBuckets;
    if a in ThreadBuckets(threads[n - 1], v[n - 1] + 1) {
      var i := ThreadBucketsFrom(threads[n - 1], v[n - 1] + 1, a);
      e := Event(n - 1, i);
    } else {
      e := BucketsFrom(threads, v, n - 1, a);
    }
  }

  /** What is left of a label in a view. */
  lemma RestrictedPos(g: Graph, v: View, e: Event)
    requires ViewOf(g.threads, v)
    ensures ContainsPos(Restrict(g, v).threads, e) <==> ContainsPos(g.threads, e) && Contains(v, e)
    ensures ContainsPos(g.threads, e) && Contains(v, e) ==>
      && BodyAt(Restrict(g, v).threads, e) == Prune(BodyAt(g.threads, e), v)
      && Restrict(g, v).threads[e.thread][e.index].stamp == g.threads[e.thread][e.index].stamp
  {
    hide Prune, PruneThread, PruneThreads;
    if e.thread < |g.threads| {
      PruneThreadsAt(g.threads, v, |g.threads|, e.thread);
      if e.index <= v[e.thread] { PruneThreadAt(g.threads[e.thread], v, v[e.thread] + 1, e.index); }
    }
  }

  /** Stamps stay increasing. */
  lemma RestrictIncreasing(g: Graph, v: View)
    requires ViewOf(g.threads, v) && StampsIncrease(g.threads)
    ensures StampsIncrease(Restrict(g, v).threads)
  {
    hide Restrict;
    var threads: seq<Thread> := Restrict(g, v).threads;
    forall t: nat, i: nat, j: nat {:trigger threads[t][i], threads[t][j]} | t < |threads| && i < j < |threads[t]|
      ensures threads[t][i].stamp < threads[t][j].stamp
    {
      RestrictedPos(g, v, Event(t, i));
      RestrictedPos(g, v, Event(t, j));
      assert g.threads[t][i].stamp < g.threads[t][j].stamp;
    }
  }

  /** In the view of a stamp only thread starts have later stamps. */
  lemma OnlyStartsLater(g: Graph, s: nat, e: Event)
    requires StampsIncrease(g.threads) && ViewOf(g.threads, ViewFromStamp(g.threads, s, |g.threads|))
    requires ContainsPos(Restrict(g, ViewFromStamp(g.threads, s, |g.threads|)).threads, e) && e.index > 0
    ensures Restrict(g, ViewFromStamp(g.threads, s, |g.threads|)).threads[e.thread][e.index].stamp <= s
  {
    hide Restrict, ViewFromStamp;
    RestrictedPos(g, ViewFromStamp(g.threads, s, |g.threads|), e);
    ViewFromStampIff(g.threads, s, e);
  }
}
