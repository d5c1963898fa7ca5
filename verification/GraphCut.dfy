/** Cutting a graph in place (cutToStamp, removeAfter) and copying a part of it
    (copyGraphUpTo), from src/ExecutionGraph.cpp, label by label. The two go about it
    differently, and both prune labels to what the view contains. */
module GraphCut {
  import opened Options
  import opened Events
  import opened RfOptions
  import opened GraphModel

  // ----- removing links

  method FilterList(es: seq<Event>, v: View) returns (r: seq<Event>)
    ensures r == FilterEvents(es, v)
  {
    r := [];
    for i := 0 to |es|
      invariant r == FilterEvents(es[..i], v)
    {
      assert es[..i + 1][..i] == es[..i];
      if Contains(v, es[i]) { r := r + [es[i]]; }
    }
    assert es[..|es|] == es;
  }

  method FilterParts(rfs: Rfs, v: View) returns (r: Rfs)
    ensures r == FilterRfs(rfs, v)
  {
    r := [];
    for i := 0 to |rfs|
      invariant r == FilterRfs(rfs[..i], v)
    {
      assert rfs[..i + 1][..i] == rfs[..i];
      if SourceIn(v, rfs[i].from) { r := r + [rfs[i]]; }
    }
    assert rfs[..|rfs|] == rfs;
  }

  /** What cutToStamp does to one label that it keeps. */
  method CutLinks(b: Body, preds: View) returns (c: Body)
    ensures c == Prune(b, preds)
  {
    c := b;
    if c.Write? {
      var readers := FilterList(c.readers, preds);
      c := c.(readers := readers);
    }
    if c.Read? {
      var rfs := FilterParts(c.rfs, preds);
      c := c.(rfs := rfs);
    }
    if c.Read? && c.ralloc.Some? && !Contains(preds, c.ralloc.value) { c := c.(ralloc := None); }
    if c.Write? && c.walloc.Some? && !Contains(preds, c.walloc.value) { c := c.(walloc := None); }
    if c.Finish? && c.join.Some? && !Contains(preds, c.join.value) { c := c.(join := None); }
    if c.Free? && c.freed.Some? && !Contains(preds, c.freed.value) { c := c.(freed := None); }
    if c.Malloc? {
      if c.free.Some? && !Contains(preds, c.free.value) { c := c.(free := None); }
      var accesses := FilterList(c.accesses, preds);
      c := c.(accesses := accesses);
    }
  }

  /** The same for the first n labels of a thread. */
  method CutThread(ls: Thread, preds: View, n: nat) returns (r: Thread)
    requires n <= |ls|
    ensures r == PruneThread(ls, preds, n) + ls[n..]
  {
    hide Prune;
    r := ls;
    for j := 0 to n
      invariant r == PruneThread(ls, preds, j) + ls[j..]
    {
      var b := CutLinks(r[j].body, preds);
      r := r[j := r[j].(body := b)];
    }
  }

  /** Drops buckets that are not kept, and events outside the view from the others. */
  method FilterBuckets(m: map<nat, seq<Event>>, keep: set<nat>, preds: View) returns (r: map<nat, seq<Event>>)
    ensures r == FilterMap(m, keep, preds)
  {
    hide FilterEvents;
    r := m;
    var todo := m.Keys;
    while todo != {}
      invariant todo <= m.Keys && r.Keys <= m.Keys
      invariant forall a :: a in todo ==> a in r && r[a] == m[a]
      invariant forall a :: a in m && a !in todo ==> (a in r <==> a in keep)
      invariant forall a :: a in r && a !in todo ==> r[a] == FilterEvents(m[a], preds)
      decreases |todo|
    {
      var a :| a in todo;
      if a !in keep {
        r := map b | b in r && b != a :: r[b];
      } else {
        var es := FilterList(r[a], preds);
        r := r[a := es];
      }
      todo := todo - {a};
    }
  }

  // ----- copying

  /** A freshly copied label: readers that are not copied are gone. */
  function Cloned(b: Body, v: View): Body {
    if b.Write? then b.(readers := FilterEvents(b.readers, v)) else b
  }

  function CloneThread(ls: Thread, v: View, n: nat): (r: Thread)
    requires n <= |ls|
    ensures |r| == n
  {
    if n == 0 then [] else CloneThread(ls, v, n - 1) + [Lab(ls[n - 1].stamp, Cloned(ls[n - 1].body, v))]
  }

  lemma {:induction false} CloneThreadAt(ls: Thread, v: View, n: nat, i: nat)
    requires i < n <= |ls|
    ensures CloneThread(ls, v, n)[i] == Lab(ls[i].stamp, Cloned(ls[i].body, v))
  {
    hide Cloned;
    if i < n - 1 { CloneThreadAt(ls, v, n - 1, i); }
  }

  /** Copies the first n labels of a thread; the start is copied as it is. */
  method CopyLabels(ls: Thread, v: View, n: nat) returns (r: Thread, buckets: set<nat>)
    requires 0 < n <= |ls| && ls[0].body == Start
    ensures r == CloneThread(ls, v, n) && buckets == ThreadBuckets(ls, n)
  {
    hide FilterEvents;
    r, buckets := [ls[0]], {};
    assert CloneThread(ls, v, 1) == r && ThreadBuckets(ls, 1) == buckets;
    for j := 1 to n
      invariant r == CloneThread(ls, v, j) && buckets == ThreadBuckets(ls, j)
    {
      var nLab := ls[j];
      if nLab.body.Write? {
        var readers := FilterList(nLab.body.readers, v);
        nLab := nLab.(body := nLab.body.(readers := readers));
      }
      r := r + [nLab];
      buckets := buckets + BucketOf(nLab.body);
    }
  }

  /** The two ways to ask whether an event is copied agree for events of the graph. */
  ghost predicate CopiedThreads(threads: seq<Thread>, copied: seq<Thread>, v: View) {
    && ViewOf(threads, v) && |copied| == |threads|
    && forall t :: 0 <= t < |copied| ==> |copied[t]| == v[t] + 1
  }

  lemma CopiedIffIn(threads: seq<Thread>, copied: seq<Thread>, v: View, e: Event)
    requires CopiedThreads(threads, copied, v) && ContainsPos(threads, e)
    ensures ContainsPos(copied, e) <==> Contains(v, e)
  {
  }

  /** Links of a copied label to labels of the copy (oLab is the original). */
  method Relink(b: Body, oLab: Body, threads: seq<Thread>, copied: seq<Thread>, v: View) returns (c: Body)
    requires CopiedThreads(threads, copied, v) && LinkedInside(threads, oLab) && b == Cloned(oLab, v)
    ensures c == Prune(oLab, v)
  {
    hide FilterEvents, FilterRfs;
    c := b;
    if c.Read? {
      var rfs := AddRfs(c.rfs, threads, copied, v);
      c := c.(rfs := rfs);
    }
    if c.Write? {
      var readers := FilterList(oLab.readers, v);
      c := c.(readers := readers);
    }
    if c.Read? && c.ralloc.Some? {
      CopiedIffIn(threads, copied, v, c.ralloc.value);
      if !ContainsPos(copied, c.ralloc.value) { c := c.(ralloc := None); }
    }
    if c.Write? && c.walloc.Some? {
      CopiedIffIn(threads, copied, v, c.walloc.value);
      if !ContainsPos(copied, c.walloc.value) { c := c.(walloc := None); }
    }
    if c.Finish? && c.join.Some? && !Contains(v, c.join.value) { c := c.(join := None); }
    if c.Malloc? && c.free.Some? && !Contains(v, c.free.value) { c := c.(free := None); }
    if c.Malloc? {
      var accesses := FilterList(oLab.accesses, v);
      c := c.(accesses := accesses);
    }
    if c.Free? && c.freed.Some? && !Contains(v, c.freed.value) { c := c.(freed := None); }
  }

  method AddRfs(rfs: Rfs, threads: seq<Thread>, copied: seq<Thread>, v: View) returns (r: Rfs)
    requires CopiedThreads(threads, copied, v)
    requires forall i :: 0 <= i < |rfs| && rfs[i].from.FromWrite? ==> ContainsPos(threads, rfs[i].from.write)
    ensures r == FilterRfs(rfs, v)
  {
    r := [];
    for i := 0 to |rfs|
      invariant r == FilterRfs(rfs[..i], v)
    {
      assert rfs[..i + 1][..i] == rfs[..i];
      if rfs[i].from.FromWrite? { CopiedIffIn(threads, copied, v, rfs[i].from.write); }
      if rfs[i].from.Init? || ContainsPos(copied, rfs[i].from.write) { r := r + [rfs[i]]; }
    }
    assert rfs[..|rfs|] == rfs;
  }

  method RelinkThread(t: nat, threads: seq<Thread>, copied: seq<Thread>, v: View) returns (r: Thread)
    requires t < |threads| && CopiedThreads(threads, copied, v)
    requires forall j :: 0 <= j < |threads[t]| ==> LinkedInside(threads, threads[t][j].body)
    requires copied[t] == CloneThread(threads[t], v, v[t] + 1)
    ensures r == PruneThread(threads[t], v, v[t] + 1)
  {
    hide Prune, Cloned, LinkedInside;
    r := [];
    for j := 0 to v[t] + 1
      invariant r == PruneThread(threads[t], v, j)
    {
      CloneThreadAt(threads[t], v, v[t] + 1, j);
      var b := Relink(copied[t][j].body, threads[t][j].body, threads, copied, v);
      r := r + [copied[t][j].(body := b)];
    }
  }

  /** Copies the events of the view, bucket by bucket; tracked buckets exist already. */
  method CopyBuckets(m: map<nat, seq<Event>>, tracked: set<nat>, v: View) returns (r: map<nat, seq<Event>>)
    requires tracked <= m.Keys
    requires forall a, e :: a in m && e in m[a] && Contains(v, e) ==> a in tracked
    ensures r == FilterMap(m, tracked, v)
  {
    hide FilterEvents;
    r := map a | a in tracked :: [];
    var todo := m.Keys;
    while todo != {}
      invariant todo <= m.Keys && r.Keys == tracked
      invariant forall a :: a in r ==> r[a] == if a in todo then [] else FilterEvents(m[a], v)
      decreases |todo|
    {
      var a :| a in todo;
      r := CopyBucket(r, a, m[a], v);
      todo := todo - {a};
    }
  }

  method CopyBucket(r0: map<nat, seq<Event>>, a: nat, es: seq<Event>, v: View) returns (r: map<nat, seq<Event>>)
    requires a in r0 ==> r0[a] == []
    requires forall e <- es :: Contains(v, e) ==> a in r0
    ensures r == if a in r0 then r0[a := FilterEvents(es, v)] else r0
  {
    hide FilterEvents;
    r := r0;
    NothingFiltered(es, v);
    for i := 0 to |es|
      invariant r == if a in r0 then r0[a := FilterEvents(es[..i], v)] else r0
    {
      FilterNext(es, v, i);
      assert es[i] in es;
      ghost var filtered := FilterEvents(es[..i], v);
      if Contains(v, es[i]) {
        r := r[a := r[a] + [es[i]]];
        assert r == r0[a := filtered + [es[i]]];
      } else {
        assert filtered + [] == filtered;
      }
    }
    assert es[..|es|] == es;
  }

  lemma NothingFiltered(es: seq<Event>, v: View)
    ensures FilterEvents(es[..0], v) == []
  {
  }

  lemma FilterNext(es: seq<Event>, v: View, i: nat)
    requires i < |es|
    ensures FilterEvents(es[..i + 1], v) == FilterEvents(es[..i], v) + if Contains(v, es[i]) then [es[i]] else []
  {
    assert es[..i + 1][..i] == es[..i];
  }
}
