/** src/ContextBoundDecider.cpp: how few preemptive context switches an execution graph
    can be linearized with. A view holds, for each thread, how many of its events (beyond
    its start) are still there; linearizations are built backwards, from the full view. */
module ContextBound {
  import opened Options
  import opened Events

  datatype ReadKind = PlainRead | LockRead | BarrierRead
  datatype WriteKind = PlainWrite | UnlockWrite

  datatype Label =
    | Start
    | Create(child: nat)
    | Join(joined: nat)
    | Finish(join: Option<Event>)
    | Stop // any other label that ends a thread
    | Read(readKind: ReadKind, readAddr: int, rf: Source)
    | Write(writeKind: WriteKind, addr: int, val: int, readers: set<Event>)
    | Other

  /** Coherence orders the writes to each address; initReaders are the reads from Init. */
  datatype Graph = Graph(threads: seq<seq<Label>>, co: map<int, seq<Event>>, initReaders: set<Event>)

  type View = seq<nat>

  function Stores(g: Graph, a: int): seq<Event> {
    if a in g.co then g.co[a] else []
  }

  predicate InGraph(g: Graph, e: Event) {
    e.thread < |g.threads| && 0 < e.index < |g.threads[e.thread]|
  }

  function LabelOf(g: Graph, e: Event): Label
    requires InGraph(g, e)
  {
    g.threads[e.thread][e.index]
  }

  predicate Contains(v: View, e: Event) {
    e.thread < |v| && e.index <= v[e.thread]
  }

  /** v is a view of g. */
  predicate ViewOf(g: Graph, v: View) {
    |v| == |g.threads| && forall t :: 0 <= t < |v| ==> v[t] < |g.threads[t]|
  }

  predicate IsWriteTo(g: Graph, e: Event, a: int) {
    InGraph(g, e) && LabelOf(g, e).Write? && LabelOf(g, e).addr == a
  }

  /** The links between labels are consistent. */
  ghost predicate WellFormed(g: Graph) {
    && (forall t :: 0 <= t < |g.threads| ==> |g.threads[t]| > 0 && g.threads[t][0] == Start)
    && (forall e {:trigger LabelOf(g, e)} :: InGraph(g, e) ==> WellFormedLabel(g, e, LabelOf(g, e)))
    && (forall a, i {:trigger Stores(g, a)[i]} :: 0 <= i < |Stores(g, a)| ==> IsWriteTo(g, Stores(g, a)[i], a))
    && (forall a, i, j :: 0 <= i < j < |Stores(g, a)| ==> Stores(g, a)[i] != Stores(g, a)[j])
  }

  ghost predicate WellFormedLabel(g: Graph, e: Event, l: Label)
    requires InGraph(g, e)
  {
    match l
    case Start => false
    case Create(c) => c < |g.threads|
    case Join(c) =>
      && c < |g.threads| && |g.threads[c]| > 1
      && g.threads[c][|g.threads[c]| - 1] == Finish(Some(e))
    case Finish(j) =>
      && e.index == |g.threads[e.thread]| - 1
      && (j.Some? ==> InGraph(g, j.value) && LabelOf(g, j.value) == Join(e.thread))
    case Stop => e.index == |g.threads[e.thread]| - 1
    case Read(_, a, Init) => true
    case Read(_, a, FromWrite(w)) => IsWriteTo(g, w, a) && e in LabelOf(g, w).readers
    case Write(_, a, _, rs) =>
      && e in Stores(g, a)
      && (forall r <- rs :: InGraph(g, r) && LabelOf(g, r).Read? && LabelOf(g, r).rf == FromWrite(e))
    case Other => true
  }

  // ----- the predicates of the decider

  /** canBlock: the thread's next event may have to wait for another thread. */
  predicate CanBlock(g: Graph, v: View, t: nat)
    requires ViewOf(g, v) && t < |v|
  {
    v[t] + 1 < |g.threads[t]| &&
    var l := g.threads[t][v[t] + 1];
    l.Join? || (l.Read? && l.readKind != PlainRead)
  }

  /** The latest store of the list that is in the view. */
  function LatestIn(v: View, stores: seq<Event>): Option<Event> {
    if stores == [] then None
    else if Contains(v, stores[|stores| - 1]) then Some(stores[|stores| - 1])
    else LatestIn(v, stores[..|stores| - 1])
  }

  /** A lock can be taken: the latest store is an unlock, or there is none, and no
      completed lock in the view reads from it. */
  predicate LockFree(g: Graph, v: View, a: int)
  {
    match LatestIn(v, Stores(g, a))
    case None =>
      forall r | r in g.initReaders && InGraph(g, r) && LabelOf(g, r).Read? && LabelOf(g, r).readAddr == a ::
        !Contains(v, r)
    case Some(w) =>
      && InGraph(g, w) && LabelOf(g, w).Write? && LabelOf(g, w).writeKind == UnlockWrite
      && forall r | r in LabelOf(g, w).readers :: !Contains(v, Event(r.thread, r.index + 1))
  }

  /** A barrier lets its waiters go: its latest value is the initial one. */
  predicate BarrierOpen(g: Graph, v: View, a: int)
  {
    var stores := Stores(g, a);
    match LatestIn(v, stores)
    case None => false
    case Some(w) =>
      && stores != [] && InGraph(g, stores[0]) && InGraph(g, w)
      && LabelOf(g, stores[0]).Write? && LabelOf(g, w).Write?
      && LabelOf(g, stores[0]).val == LabelOf(g, w).val
  }

  predicate IsEnabled(g: Graph, v: View, t: nat)
    requires ViewOf(g, v) && t < |v|
  {
    var last := g.threads[t][v[t]];
    if last.Stop? || last.Finish? then false
    else if v[t] + 1 == |g.threads[t]| then false
    else
      match g.threads[t][v[t] + 1]
      case Join(c) => c < |v| && Contains(v, Event(c, |g.threads[c]| - 1))
      case Read(LockRead, a, _) => LockFree(g, v, a)
      case Read(BarrierRead, a, _) => BarrierOpen(g, v, a)
      case _ => true
  }

  /** The store that follows w in a list of stores; the first one if w is Init. */
  function NextStore(w: Source, stores: seq<Event>): Option<Event>
    decreases |stores|
  {
    if stores == [] then None
    else if w.Init? then Some(stores[0])
    else if stores[0] == w.write then NextStore(Init, stores[1..])
    else NextStore(w, stores[1..])
  }

  /** isSCMaximal: nothing in the view comes after the last event of t. */
  predicate IsMaximal(g: Graph, v: View, t: nat)
    requires ViewOf(g, v) && t < |v|
  {
    match g.threads[t][v[t]]
    case Finish(j) => j == None || !Contains(v, j.value)
    case Create(c) => c < |v| ==> v[c] == 0
    case Write(_, a, _, rs) =>
      && (forall r | r in rs :: !Contains(v, r))
      && (var next := NextStore(FromWrite(Event(t, v[t])), Stores(g, a)); next == None || !Contains(v, next.value))
    case Read(_, a, w) =>
      var next := NextStore(w, Stores(g, a)); next == None || !Contains(v, next.value)
    case _ => true
  }

  /** t can be the thread that ran last. */
  predicate Candidate(g: Graph, v: View, t: nat)
    requires ViewOf(g, v)
  {
    t < |v| && v[t] > 0 && IsMaximal(g, v, t)
  }

  predicate IsEmpty(v: View) {
    forall t :: 0 <= t < |v| ==> v[t] == 0
  }

  function Shrink(v: View, t: nat): (r: View)
    requires t < |v| && v[t] > 0
    ensures |r| == |v|
  {
    v[t := v[t] - 1]
  }

  function Size(v: View): nat {
    if v == [] then 0 else v[0] + Size(v[1..])
  }

  lemma {:induction false} ShrinkSize(v: View, t: nat)
    requires t < |v| && v[t] > 0
    ensures Size(Shrink(v, t)) == Size(v) - 1
    decreases |v|
  {
    if t > 0 {
      assert Shrink(v, t)[1..] == Shrink(v[1..], t - 1);
      ShrinkSize(v[1..], t - 1);
    } else {
      assert Shrink(v, t)[1..] == v[1..];
    }
  }

  lemma ShrinkView(g: Graph, v: View, t: nat)
    requires ViewOf(g, v) && t < |v| && v[t] > 0
    ensures ViewOf(g, Shrink(v, t)) && Size(Shrink(v, t)) < Size(v)
  {
    ShrinkSize(v, t);
  }
}
