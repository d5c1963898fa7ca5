/** changeRf of src/ExecutionGraph.cpp for a read with several sources: the read is unlinked from
    its old sources one by one, and then linked once to each different source of the new list. */
module GraphRf {
  import opened Options
  import opened Events
  import opened Lists
  import opened RfOptions
  import opened GraphModel
  import opened GraphClass
  import opened GraphMirror

  // ----- changing one label

  function SetBody(threads: seq<Thread>, e: Event, b: Body): seq<Thread>
    requires ContainsPos(threads, e)
  {
    threads[e.thread := threads[e.thread][e.index := threads[e.thread][e.index].(body := b)]]
  }

  lemma SetBodyAt(threads: seq<Thread>, e: Event, b: Body, d: Event)
    requires ContainsPos(threads, e)
    ensures ContainsPos(SetBody(threads, e, b), d) <==> ContainsPos(threads, d)
    ensures ContainsPos(threads, d) ==> BodyAt(SetBody(threads, e, b), d) == if d == e then b else BodyAt(threads, d)
  {
  }

  /** removeReader for one reader. */
  function Dropped(es: seq<Event>, r: Event): seq<Event> {
    if es == [] then []
    else Dropped(es[..|es| - 1], r) + if es[|es| - 1] == r then [] else [es[|es| - 1]]
  }

  lemma {:induction false} DroppedCount(es: seq<Event>, r: Event, e: Event)
    ensures multiset(Dropped(es, r))[e] == if e == r then 0 else multiset(es)[e]
    decreases |es|
  {
    if es != [] {
      assert es == es[..|es| - 1] + [es[|es| - 1]];
      DroppedCount(es[..|es| - 1], r, e);
    }
  }

  function WithRfs(g: Graph, r: Event, rfs: Rfs): Graph
    requires IsRead(g.threads, r)
  {
    g.(threads := SetBody(g.threads, r, BodyAt(g.threads, r).(rfs := rfs)))
  }

  /** Source s no longer lists r. */
  function Unlinked(g: Graph, r: Event, s: Source): Graph
    requires IsRead(g.threads, r)
  {
    if s.Init? then
      var a := BodyAt(g.threads, r).rbucket;
      g.(initRfs := g.initRfs[a := Dropped(if a in g.initRfs then g.initRfs[a] else [], r)])
    else if IsWrite(g.threads, s.write) then
      var b := BodyAt(g.threads, s.write);
      g.(threads := SetBody(g.threads, s.write, b.(readers := Dropped(b.readers, r))))
    else g
  }

  /** Source s lists r. */
  function Linked(g: Graph, r: Event, s: Source): Graph
    requires IsRead(g.threads, r)
  {
    if s.Init? then
      var a := BodyAt(g.threads, r).rbucket;
      g.(initRfs := g.initRfs[a := (if a in g.initRfs then g.initRfs[a] else []) + [r]])
    else if IsWrite(g.threads, s.write) then
      var b := BodyAt(g.threads, s.write);
      g.(threads := SetBody(g.threads, s.write, b.(readers := b.readers + [r])))
    else g
  }

  // ----- one step keeps the mirror for everything but r

  /** The labels are the same up to reader lists. */
  ghost predicate SameReads(threads: seq<Thread>, threads': seq<Thread>) {
    forall e {:trigger IsRead(threads', e)} {:trigger IsRead(threads, e)} {:trigger IsWrite(threads',
        e)} {:trigger IsWrite(threads, e)} ::
      && (IsRead(threads', e) <==> IsRead(threads, e))
      && (IsWrite(threads', e) <==> IsWrite(threads, e))
      && (IsRead(threads, e) ==> BodyAt(threads', e) == BodyAt(threads, e))
  }

  lemma SameReadsFrom(threads: seq<Thread>, threads': seq<Thread>, e: Event, s: Source)
    requires SameReads(threads, threads')
    ensures ReadsFrom(threads', e, s) <==> ReadsFrom(threads, e, s)
  {
    hide HasSource, IsRead, IsWrite;
    assert IsRead(threads', e) <==> IsRead(threads, e);
  }

  lemma SetReaders(threads: seq<Thread>, w: Event, readers: seq<Event>)
    requires IsWrite(threads, w)
    ensures SameReads(threads, SetBody(threads, w, BodyAt(threads, w).(readers := readers)))
  {
    hide SetBody;
    var b := BodyAt(threads, w).(readers := readers);
    forall e
      ensures ContainsPos(SetBody(threads, w, b), e) <==> ContainsPos(threads, e)
      ensures ContainsPos(threads, e) ==> BodyAt(SetBody(threads, w, b), e) == if e == w then b else BodyAt(threads, e)
    {
      SetBodyAt(threads, w, b, e);
    }
  }

  lemma WriteAt(threads: seq<Thread>, e: Event)
    ensures IsWrite(threads, e) ==> ContainsPos(threads, e) && BodyAt(threads, e).Write?
  {
  }

  lemma ReadAt(threads: seq<Thread>, e: Event)
    ensures IsRead(threads, e) ==> ContainsPos(threads, e) && BodyAt(threads, e).Read?
  {
  }

  /** A step that changes the readers of write w by r's entry only. */
  lemma WriteStep(g: Graph, r: Event, linked: iset<Source>, linked': iset<Source>, w: Event, readers: seq<Event>)
    requires IsRead(g.threads, r) && IsWrite(g.threads, w) && MirrorBut(g, r, linked)
    requires forall s :: s != FromWrite(w) ==> (s in linked' <==> s in linked)
    requires forall e ::
      multiset(readers)[e]
      == if e == r then Times(FromWrite(w) in linked') else multiset(BodyAt(g.threads, w).readers)[e]
    ensures var g' := g.(threads := SetBody(g.threads, w, BodyAt(g.threads, w).(readers := readers)));
      IsRead(g'.threads, r) && MirrorBut(g', r, linked')
  {
    hide SetBody, HasSource, ReadsFrom, IsRead, IsWrite;
    WriteAt(g.threads, w);
    var b := BodyAt(g.threads, w).(readers := readers);
    var g' := g.(threads := SetBody(g.threads, w, b));
    SetReaders(g.threads, w, readers);
    forall e, s
      ensures ReadsFrom(g'.threads, e, s) <==> ReadsFrom(g.threads, e, s)
    {
      SameReadsFrom(g.threads, g'.threads, e, s);
    }
    forall x, e | IsWrite(g'.threads, x)
      ensures WriteListed(g'.threads, r, linked', x, e)
    {
      assert IsWrite(g.threads, x);
      assert WriteListed(g.threads, r, linked, x, e);
      WriteAt(g.threads, x);
      SetBodyAt(g.threads, w, b, x);
    }
    forall a, e | a in g'.initRfs ensures InitListed(g', r, linked', a, e) {
      assert InitListed(g, r, linked, a, e);
      assert IsRead(g'.threads, e) <==> IsRead(g.threads, e);
    }
    forall e, x | ReadsFrom(g'.threads, e, FromWrite(x)) ensures IsWrite(g'.threads, x) {
      assert ReadsFrom(g.threads, e, FromWrite(x));
    }
  }

  /** A step that changes the initializer's readers of r's bucket by r's entry only. */
  lemma InitStep(g: Graph, r: Event, linked: iset<Source>, linked': iset<Source>, readers: seq<Event>)
    requires IsRead(g.threads, r) && MirrorBut(g, r, linked)
    requires forall s :: s != Init ==> (s in linked' <==> s in linked)
    requires var a := BodyAt(g.threads, r).rbucket;
      a in g.initRfs && forall e ::
        multiset(readers)[e] == if e == r then Times(Init in linked') else multiset(g.initRfs[a])[e]
    ensures MirrorBut(g.(initRfs := g.initRfs[BodyAt(g.threads, r).rbucket := readers]), r, linked')
  {
    hide HasSource, ReadsFrom, IsRead, IsWrite;
    ReadAt(g.threads, r);
    var a := BodyAt(g.threads, r).rbucket;
    var g' := g.(initRfs := g.initRfs[a := readers]);
    forall w, e | IsWrite(g.threads, w) ensures WriteListed(g'.threads, r, linked', w, e) {
      assert WriteListed(g.threads, r, linked, w, e);
    }
    forall b, e | b in g'.initRfs ensures InitListed(g', r, linked', b, e) {
      assert InitListed(g, r, linked, b, e);
      ReadAt(g.threads, e);
    }
  }

  lemma NoteBucket(g: Graph, r: Event, linked: iset<Source>)
    requires IsRead(g.threads, r) && MirrorBut(g, r, linked)
    ensures BodyAt(g.threads, r).rbucket in g.initRfs
  {
    hide HasSource, ReadsFrom;
  }

  /** How often r itself is listed. */
  lemma ListedCount(g: Graph, r: Event, linked: iset<Source>, s: Source)
    requires IsRead(g.threads, r) && MirrorBut(g, r, linked)
    requires s.Init? || IsWrite(g.threads, s.write)
    ensures BodyAt(g.threads, r).rbucket in g.initRfs
    ensures multiset(if s.Init? then g.initRfs[BodyAt(g.threads, r).rbucket] else BodyAt(g.threads, s.write).readers)[r]
      == Times(s in linked)
  {
    hide HasSource, ReadsFrom;
    NoteBucket(g, r, linked);
    if s.Init? {
      assert InitListed(g, r, linked, BodyAt(g.threads, r).rbucket, r);
    } else {
      assert WriteListed(g.threads, r, linked, s.write, r);
    }
  }

  lemma UnlinkStep(g: Graph, r: Event, linked: iset<Source>, s: Source)
    requires IsRead(g.threads, r) && MirrorBut(g, r, linked) && (s.Init? || IsWrite(g.threads, s.write))
    ensures IsRead(Unlinked(g, r, s).threads, r) && MirrorBut(Unlinked(g, r, s), r, linked - iset{s})
    ensures SameReads(g.threads, Unlinked(g, r, s).threads)
  {
    hide MirrorBut, SetBody, HasSource, SameReads;
    ListedCount(g, r, linked, s);
    SameReadsItself(g.threads);
    if s.Init? {
      var readers := g.initRfs[BodyAt(g.threads, r).rbucket];
      forall e
        ensures multiset(Dropped(readers, r))[e] == if e == r then 0 else multiset(readers)[e]
      {
        DroppedCount(readers, r, e);
      }
      InitStep(g, r, linked, linked - iset{s}, Dropped(readers, r));
    } else {
      var readers := BodyAt(g.threads, s.write).readers;
      forall e
        ensures multiset(Dropped(readers, r))[e] == if e == r then 0 else multiset(readers)[e]
      {
        DroppedCount(readers, r, e);
      }
      WriteStep(g, r, linked, linked - iset{s}, s.write, Dropped(readers, r));
      SetReaders(g.threads, s.write, Dropped(readers, r));
    }
  }

  lemma LinkStep(g: Graph, r: Event, linked: iset<Source>, s: Source)
    requires IsRead(g.threads, r) && MirrorBut(g, r, linked) && (s.Init? || IsWrite(g.threads, s.write)) && s !in linked
    ensures IsRead(Linked(g, r, s).threads, r) && MirrorBut(Linked(g, r, s), r, linked + iset{s})
    ensures SameReads(g.threads, Linked(g, r, s).threads)
  {
    hide MirrorBut, SetBody, HasSource, SameReads;
    ListedCount(g, r, linked, s);
    SameReadsItself(g.threads);
    if s.Init? {
      var readers := g.initRfs[BodyAt(g.threads, r).rbucket];
      InitStep(g, r, linked, linked + iset{s}, readers + [r]);
    } else {
      var readers := BodyAt(g.threads, s.write).readers;
      WriteStep(g, r, linked, linked + iset{s}, s.write, readers + [r]);
      SetReaders(g.threads, s.write, readers + [r]);
    }
  }

  lemma SameReadsItself(threads: seq<Thread>)
    ensures SameReads(threads, threads)
  {
  }

  lemma SameReadsTwice(a: seq<Thread>, b: seq<Thread>, c: seq<Thread>)
    requires SameReads(a, b) && SameReads(b, c)
    ensures SameReads(a, c)
  {
    hide IsRead, IsWrite;
  }

  // ----- all of a read's sources

  ghost predicate SourcesPresent(threads: seq<Thread>, rfs: Rfs) {
    forall k :: 0 <= k < |rfs| && rfs[k].from.FromWrite? ==> IsWrite(threads, rfs[k].from.write)
  }

  /** The sources of the first n parts. */
  ghost function SourcesUpTo(rfs: Rfs, n: nat): iset<Source>
    requires n <= |rfs|
  {
    SourcesOf(rfs[..n])
  }

  lemma SourcesStep(rfs: Rfs, n: nat)
    requires n < |rfs|
    ensures SourcesUpTo(rfs, n + 1) == SourcesUpTo(rfs, n) + iset{rfs[n].from}
  {
    forall s ensures s in SourcesUpTo(rfs, n + 1) <==> s in SourcesUpTo(rfs, n) || s == rfs[n].from {
      if HasSource(rfs[..n + 1], s) {
        var k :| 0 <= k < n + 1 && rfs[..n + 1][k].from == s;
        assert k < n ==> rfs[..n][k].from == s;
      }
      if HasSource(rfs[..n], s) {
        var k :| 0 <= k < n && rfs[..n][k].from == s;
        assert rfs[..n + 1][k].from == s;
      }
      assert rfs[..n + 1][n].from == rfs[n].from;
    }
  }

  /** The different sources of an rf list, in order. */
  function Stores(rfs: Rfs): seq<Source> {
    if rfs == [] then []
    else
      var before := Stores(rfs[..|rfs| - 1]);
      if rfs[|rfs| - 1].from in before then before else before + [rfs[|rfs| - 1].from]
  }

  lemma {:induction false} StoresAreSources(rfs: Rfs, s: Source)
    ensures Distinct(Stores(rfs))
    ensures s in Stores(rfs) <==> HasSource(rfs, s)
    decreases |rfs|
  {
    if rfs != [] {
      var n := |rfs| - 1;
      StoresAreSources(rfs[..n], s);
      StoresAreSources(rfs[..n], rfs[n].from);
      SourcesStep(rfs, n);
      assert rfs[..n + 1] == rfs;
      assert s in SourcesUpTo(rfs, n + 1) <==> s in SourcesUpTo(rfs, n) || s == rfs[n].from;
    }
  }

  lemma {:induction false} ReplaceRfs(g: Graph, r: Event, rfs: Rfs)
    requires Mirror(g) && IsRead(g.threads, r) && SourcesPresent(g.threads, rfs)
    ensures var g' := WithRfs(g, r, rfs);
      && IsRead(g'.threads, r) && BodyAt(g'.threads, r).rfs == rfs
        && BodyAt(g'.threads, r).rbucket == BodyAt(g.threads, r).rbucket
      && MirrorBut(g', r, SourcesOf(BodyAt(g.threads, r).rfs))
      && (forall w {:trigger IsWrite(g'.threads, w)} :: IsWrite(g'.threads, w) <==> IsWrite(g.threads, w))
  {
    hide SetBody, HasSource;
    var linked := SourcesOf(BodyAt(g.threads, r).rfs);
    MirrorIffBut(g, r);
    var b := BodyAt(g.threads, r).(rfs := rfs);
    var g' := WithRfs(g, r, rfs);
    forall d
      ensures ContainsPos(g'.threads, d) <==> ContainsPos(g.threads, d)
      ensures ContainsPos(g.threads, d) ==> BodyAt(g'.threads, d) == if d == r then b else BodyAt(g.threads, d)
    {
      SetBodyAt(g.threads, r, b, d);
    }
    forall e, s ensures e != r ==> (ReadsFrom(g'.threads, e, s) <==> ReadsFrom(g.threads, e, s)) {}
    forall w, e | IsWrite(g'.threads, w) ensures WriteListed(g'.threads, r, linked, w, e) {
      assert WriteListed(g.threads, r, linked, w, e);
    }
    forall a, e | a in g'.initRfs ensures InitListed(g', r, linked, a, e) {
      assert InitListed(g, r, linked, a, e);
    }
    forall e, w | ReadsFrom(g'.threads, e, FromWrite(w)) ensures IsWrite(g'.threads, w) {
      if e == r { SourcePresent(g.threads, rfs, w); } else { assert ReadsFrom(g.threads, e, FromWrite(w)); }
    }
    forall e {:trigger IsRead(g'.threads, e)} | IsRead(g'.threads, e)
      ensures BodyAt(g'.threads, e).rbucket in g'.initRfs
    {
      assert IsRead(g.threads, e);
    }
  }

  lemma SourcePresent(threads: seq<Thread>, rfs: Rfs, w: Event)
    requires SourcesPresent(threads, rfs) && HasSource(rfs, FromWrite(w))
    ensures IsWrite(threads, w)
  {
    var k :| 0 <= k < |rfs| && rfs[k].from == FromWrite(w);
  }

  // ----- the operation

  function UnlinkedAll(g: Graph, r: Event, rfs: Rfs, n: nat): (g': Graph)
    requires IsRead(g.threads, r) && n <= |rfs|
    ensures IsRead(g'.threads, r)
  {
    if n == 0 then g
    else
      var before := UnlinkedAll(g, r, rfs, n - 1);
      StaysRead(before, r, rfs[n - 1].from);
      Unlinked(before, r, rfs[n - 1].from)
  }

  function LinkedAll(g: Graph, r: Event, stores: seq<Source>, n: nat): (g': Graph)
    requires IsRead(g.threads, r) && n <= |stores|
    ensures IsRead(g'.threads, r)
  {
    if n == 0 then g
    else
      var before := LinkedAll(g, r, stores, n - 1);
      StaysRead(before, r, stores[n - 1]);
      Linked(before, r, stores[n - 1])
  }

  lemma StaysRead(g: Graph, r: Event, s: Source)
    requires IsRead(g.threads, r)
    ensures IsRead(Unlinked(g, r, s).threads, r) && IsRead(Linked(g, r, s).threads, r)
  {
  }

  /** Replaces a read's rf list, and updates the reader lists of its old and new sources. */
  function Changed(g: Graph, r: Event, rfs: Rfs): Graph
    requires IsRead(g.threads, r)
  {
    var oldRfs := BodyAt(g.threads, r).rfs;
    ReplacedIsRead(g, r, rfs);
    var unlinked := UnlinkedAll(WithRfs(g, r, rfs), r, oldRfs, |oldRfs|);
    LinkedAll(unlinked, r, Stores(rfs), |Stores(rfs)|)
  }

  lemma ReplacedIsRead(g: Graph, r: Event, rfs: Rfs)
    requires IsRead(g.threads, r)
    ensures IsRead(WithRfs(g, r, rfs).threads, r)
  {
  }

  method UnlinkReader(g: ExecutionGraph, r: Event, s: Source)
    requires IsRead(g.threads, r) && (s.FromWrite? ==> IsWrite(g.threads, s.write))
    modifies g
    ensures g.G() == Unlinked(old(g.G()), r, s)
  {
    if s.FromWrite? {
      var b := BodyAt(g.threads, s.write);
      var readers := RemoveReader(b.readers, r);
      g.threads := SetBody(g.threads, s.write, b.(readers := readers));
    } else {
      var a := BodyAt(g.threads, r).rbucket;
      var readers := RemoveReader(if a in g.initRfs then g.initRfs[a] else [], r);
      g.initRfs := g.initRfs[a := readers];
    }
  }

  method RemoveReader(es: seq<Event>, r: Event) returns (readers: seq<Event>)
    ensures readers == Dropped(es, r)
  {
    readers := [];
    for i := 0 to |es|
      invariant readers == Dropped(es[..i], r)
    {
      assert es[..i + 1][..i] == es[..i];
      if es[i] != r { readers := readers + [es[i]]; }
    }
    assert es[..|es|] == es;
  }

  /** addReader, which must not be called for a reader that is listed already. */
  method AddReader(g: ExecutionGraph, r: Event, s: Source)
    requires IsRead(g.threads, r) && (s.FromWrite? ==> IsWrite(g.threads, s.write))
    requires s.FromWrite? ==> r !in BodyAt(g.threads, s.write).readers
    requires s.Init? ==> var a := BodyAt(g.threads, r).rbucket; a in g.initRfs ==> r !in g.initRfs[a]
    modifies g
    ensures g.G() == Linked(old(g.G()), r, s)
  {
    if s.FromWrite? {
      var b := BodyAt(g.threads, s.write);
      g.threads := SetBody(g.threads, s.write, b.(readers := b.readers + [r]));
    } else {
      var a := BodyAt(g.threads, r).rbucket;
      g.initRfs := g.initRfs[a := (if a in g.initRfs then g.initRfs[a] else []) + [r]];
    }
  }

  lemma PresentStays(threads: seq<Thread>, threads': seq<Thread>, rfs: Rfs)
    requires SourcesPresent(threads, rfs) && SameReads(threads, threads')
    ensures SourcesPresent(threads', rfs)
  {
    hide IsRead;
    forall k | 0 <= k < |rfs| && rfs[k].from.FromWrite? ensures IsWrite(threads', rfs[k].from.write) {
      assert IsWrite(threads, rfs[k].from.write);
    }
  }

  lemma ReadStays(threads: seq<Thread>, threads': seq<Thread>, r: Event)
    requires SameReads(threads, threads') && IsRead(threads, r)
    ensures IsRead(threads', r) && BodyAt(threads', r) == BodyAt(threads, r)
  {
    assert IsRead(threads', r) <==> IsRead(threads, r);
  }

  lemma {:induction false} UnlinkedAllMirror(g: Graph, r: Event, oldRfs: Rfs, n: nat)
    requires IsRead(g.threads, r) && SourcesPresent(g.threads, oldRfs) && MirrorBut(g, r, SourcesOf(oldRfs))
      && n <= |oldRfs|
    ensures var g' := UnlinkedAll(g, r, oldRfs, n);
      MirrorBut(g', r, SourcesOf(oldRfs) - SourcesUpTo(oldRfs, n)) && SameReads(g.threads, g'.threads)
  {
    hide MirrorBut, SameReads, Unlinked, IsRead, IsWrite, SourcesOf;
    if n == 0 {
      SameReadsItself(g.threads);
      NoSources(oldRfs);
      assert SourcesOf(oldRfs) - iset{} == SourcesOf(oldRfs);
    } else {
      UnlinkedAllMirror(g, r, oldRfs, n - 1);
      var before := UnlinkedAll(g, r, oldRfs, n - 1);
      var rest := SourcesOf(oldRfs) - SourcesUpTo(oldRfs, n - 1);
      PresentStays(g.threads, before.threads, oldRfs);
      UnlinkStep(before, r, rest, oldRfs[n - 1].from);
      SourcesStep(oldRfs, n - 1);
      assert SourcesOf(oldRfs) - SourcesUpTo(oldRfs, n) == rest - iset{oldRfs[n - 1].from};
      SameReadsTwice(g.threads, before.threads, UnlinkedAll(g, r, oldRfs, n).threads);
    }
  }

  lemma NoSources(rfs: Rfs)
    ensures SourcesUpTo(rfs, 0) == iset{}
  {
  }

  /** The first n of the stores. */
  ghost function FirstStores(stores: seq<Source>, n: nat): iset<Source>
    requires n <= |stores|
  {
    iset s | s in stores[..n]
  }

  lemma FirstStoresStep(stores: seq<Source>, n: nat)
    requires n < |stores| && Distinct(stores)
    ensures stores[n] !in FirstStores(stores, n)
    ensures FirstStores(stores, n + 1) == FirstStores(stores, n) + iset{stores[n]}
    ensures FirstStores(stores, 0) == iset{}
  {
    assert stores[..n + 1] == stores[..n] + [stores[n]];
  }

  lemma {:induction false} LinkedAllMirror(g: Graph, r: Event, stores: seq<Source>, n: nat)
    requires IsRead(g.threads, r) && Distinct(stores) && MirrorBut(g, r, iset{}) && n <= |stores|
    requires forall s <- stores :: s.FromWrite? ==> IsWrite(g.threads, s.write)
    ensures var g' := LinkedAll(g, r, stores, n);
      MirrorBut(g', r, FirstStores(stores, n)) && SameReads(g.threads, g'.threads)
  {
    hide MirrorBut, SameReads, Linked, IsRead, IsWrite, Distinct;
    if n == 0 {
      SameReadsItself(g.threads);
      ghost var none := FirstStores(stores, 0);
      assert none == iset{};
    } else {
      LinkedAllMirror(g, r, stores, n - 1);
      var before := LinkedAll(g, r, stores, n - 1);
      assert stores[n - 1] in stores;
      WriteStays(g.threads, before.threads, stores[n - 1]);
      FirstStoresStep(stores, n - 1);
      LinkStep(before, r, FirstStores(stores, n - 1), stores[n - 1]);
      SameReadsTwice(g.threads, before.threads, LinkedAll(g, r, stores, n).threads);
    }
  }

  lemma WriteStays(threads: seq<Thread>, threads': seq<Thread>, s: Source)
    requires SameReads(threads, threads') && (s.FromWrite? ==> IsWrite(threads, s.write))
    ensures s.FromWrite? ==> IsWrite(threads', s.write)
  {
    hide IsRead, IsWrite;
    if s.FromWrite? { assert IsWrite(threads', s.write) <==> IsWrite(threads, s.write); }
  }

  method CollectStores(rfs: Rfs) returns (stores: seq<Source>)
    ensures stores == Stores(rfs)
  {
    stores := [];
    for i := 0 to |rfs|
      invariant stores == Stores(rfs[..i])
    {
      assert rfs[..i + 1][..i] == rfs[..i];
      if rfs[i].from !in stores { stores := stores + [rfs[i].from]; }
    }
    assert rfs[..|rfs|] == rfs;
  }

  lemma OldSourcesPresent(g: Graph, r: Event)
    requires Mirror(g) && IsRead(g.threads, r)
    ensures SourcesPresent(g.threads, BodyAt(g.threads, r).rfs)
  {
    var rfs := BodyAt(g.threads, r).rfs;
    forall k | 0 <= k < |rfs| && rfs[k].from.FromWrite? ensures IsWrite(g.threads, rfs[k].from.write) {
      assert ReadsFrom(g.threads, r, FromWrite(rfs[k].from.write));
    }
  }

  lemma StillPresent(g: Graph, r: Event, rfs: Rfs, others: Rfs)
    requires IsRead(g.threads, r) && SourcesPresent(g.threads, others)
    ensures SourcesPresent(WithRfs(g, r, rfs).threads, others)
  {
    forall k | 0 <= k < |others| && others[k].from.FromWrite?
      ensures IsWrite(WithRfs(g, r, rfs).threads, others[k].from.write)
    {
      SetBodyAt(g.threads, r, BodyAt(g.threads, r).(rfs := rfs), others[k].from.write);
    }
  }

  lemma StoresPresent(threads: seq<Thread>, rfs: Rfs)
    requires SourcesPresent(threads, rfs)
    ensures Distinct(Stores(rfs)) && forall s <- Stores(rfs) :: s.FromWrite? ==> IsWrite(threads, s.write)
  {
    hide IsWrite, Stores;
    StoresAreSources(rfs, Init);
    forall s <- Stores(rfs) ensures s.FromWrite? ==> IsWrite(threads, s.write) {
      StoresAreSources(rfs, s);
      if s.FromWrite? { SourcePresent(threads, rfs, s.write); }
    }
  }

  lemma AllStores(rfs: Rfs)
    ensures (iset s | s in Stores(rfs)) == SourcesOf(rfs)
  {
    hide Stores, HasSource;
    forall s ensures s in Stores(rfs) <==> s in SourcesOf(rfs) { StoresAreSources(rfs, s); }
  }

  /** What holds between the steps of changeRf. */
  lemma ChangeSteps(g: Graph, r: Event, rfs: Rfs)
    requires Mirror(g) && IsRead(g.threads, r) && SourcesPresent(g.threads, rfs)
    ensures var oldRfs := BodyAt(g.threads, r).rfs;
      var g1 := WithRfs(g, r, rfs);
      && IsRead(g1.threads, r) && SourcesPresent(g1.threads, oldRfs) && MirrorBut(g1, r, SourcesOf(oldRfs))
      && var g2 := UnlinkedAll(g1, r, oldRfs, |oldRfs|);
      && MirrorBut(g2, r, iset{}) && Distinct(Stores(rfs))
      && (forall s <- Stores(rfs) :: s.FromWrite? ==> IsWrite(g2.threads, s.write))
      && BodyAt(g2.threads, r).rfs == rfs
  {
    hide MirrorBut, Mirror, SameReads, HasSource, SetBody, Stores;
    ReplaceRfs(g, r, rfs);
    var oldRfs := BodyAt(g.threads, r).rfs;
    OldSourcesPresent(g, r);
    StillPresent(g, r, rfs, oldRfs);
    var g1 := WithRfs(g, r, rfs);
    UnlinkedAllMirror(g1, r, oldRfs, |oldRfs|);
    AllSources(oldRfs);
    var g2 := UnlinkedAll(g1, r, oldRfs, |oldRfs|);
    ReadStays(g1.threads, g2.threads, r);
    StillPresent(g, r, rfs, rfs);
    PresentStays(g1.threads, g2.threads, rfs);
    StoresPresent(g2.threads, rfs);
  }

  lemma AllSources(rfs: Rfs)
    ensures SourcesOf(rfs) - SourcesUpTo(rfs, |rfs|) == iset{}
  {
    assert rfs[..|rfs|] == rfs;
  }

  /** Changing a read's sources keeps the mirror. */
  lemma ChangeKeepsMirror(g: Graph, r: Event, rfs: Rfs)
    requires Mirror(g) && IsRead(g.threads, r) && SourcesPresent(g.threads, rfs)
    ensures Mirror(Changed(g, r, rfs))
  {
    hide MirrorBut, Mirror, SameReads, HasSource, SetBody, Stores, UnlinkedAll, LinkedAll, WithRfs;
    ChangeSteps(g, r, rfs);
    var oldRfs := BodyAt(g.threads, r).rfs;
    var g2 := UnlinkedAll(WithRfs(g, r, rfs), r, oldRfs, |oldRfs|);
    var stores := Stores(rfs);
    LinkedAllMirror(g2, r, stores, |stores|);
    ReadStays(g2.threads, LinkedAll(g2, r, stores, |stores|).threads, r);
    AllStores(rfs);
    assert stores[..|stores|] == stores;
    assert FirstStores(stores, |stores|) == iset s | s in stores;
    MirrorIffBut(Changed(g, r, rfs), r);
  }

  method ChangeRf(g: ExecutionGraph, r: Event, rfs: Rfs)
    requires Mirror(g.G()) && IsRead(g.threads, r) && SourcesPresent(g.threads, rfs)
    modifies g
    ensures g.G() == Changed(old(g.G()), r, rfs)
    ensures Mirror(g.G())
  {
    hide MirrorBut, Mirror, SameReads, HasSource, SetBody, Stores, Linked, Unlinked, IsRead, IsWrite, SourcesOf,
         Distinct;
    ghost var g0 := g.G();
    ChangeSteps(g0, r, rfs);
    ChangeKeepsMirror(g0, r, rfs);
    ReadAt(g.threads, r);
    var oldRfs := BodyAt(g.threads, r).rfs;
    g.threads := SetBody(g.threads, r, BodyAt(g.threads, r).(rfs := rfs));
    ghost var g1 := g.G();
    assert g1 == WithRfs(g0, r, rfs);
    for i := 0 to |oldRfs|
      invariant g.G() == UnlinkedAll(g1, r, oldRfs, i)
    {
      UnlinkedAllMirror(g1, r, oldRfs, i);
      PresentStays(g1.threads, g.threads, oldRfs);
      UnlinkReader(g, r, oldRfs[i].from);
    }
    ghost var g2 := g.G();
    var stores := CollectStores(rfs);
    for i := 0 to |stores|
      invariant g.G() == LinkedAll(g2, r, stores, i)
    {
      LinkedAllMirror(g2, r, stores, i);
      assert stores[i] in stores;
      WriteStays(g2.threads, g.threads, stores[i]);
      FirstStoresStep(stores, i);
      ListedCount(g.G(), r, FirstStores(stores, i), stores[i]);
      AddReader(g, r, stores[i]);
    }
  }
}
