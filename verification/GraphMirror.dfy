/** What it means that reads-from lists and reader lists mirror each other. */
module GraphMirror {
  import opened Options
  import opened Events
  import opened RfOptions
  import opened GraphModel
  import opened GraphClass

  ghost predicate HasSource(rfs: Rfs, s: Source) {
    exists k :: 0 <= k < |rfs| && rfs[k].from == s
  }

  predicate IsRead(threads: seq<Thread>, e: Event) {
    ContainsPos(threads, e) && BodyAt(threads, e).Read?
  }

  predicate IsWrite(threads: seq<Thread>, e: Event) {
    ContainsPos(threads, e) && BodyAt(threads, e).Write?
  }

  /** Some part of read e comes from s. */
  ghost predicate ReadsFrom(threads: seq<Thread>, e: Event, s: Source) {
    IsRead(threads, e) && HasSource(BodyAt(threads, e).rfs, s)
  }

  function Times(yes: bool): nat {
    if yes then 1 else 0
  }

  /** How often e should be listed as a reader of s, if r counts as reading from the
      linked sources only. */
  ghost predicate Expected(threads: seq<Thread>, r: Event, linked: iset<Source>, e: Event, s: Source) {
    if e == r then s in linked else ReadsFrom(threads, e, s)
  }

  ghost predicate WriteListed(threads: seq<Thread>, r: Event, linked: iset<Source>, w: Event, e: Event)
    requires IsWrite(threads, w)
  {
    multiset(BodyAt(threads, w).readers)[e] == Times(Expected(threads, r, linked, e, FromWrite(w)))
  }

  ghost predicate InitListed(g: Graph, r: Event, linked: iset<Source>, a: nat, e: Event)
    requires a in g.initRfs
  {
    multiset(g.initRfs[a])[e]
    == Times(IsRead(g.threads, e) && BodyAt(g.threads, e).rbucket == a && Expected(g.threads, r, linked, e, Init))
  }

  /** Every reader is listed once by each of its sources and by no other, where r counts as
      reading from the linked sources. */
  ghost predicate MirrorBut(g: Graph, r: Event, linked: iset<Source>) {
    && (forall w, e :: IsWrite(g.threads, w) ==> WriteListed(g.threads, r, linked, w, e))
    && (forall a, e :: a in g.initRfs ==> InitListed(g, r, linked, a, e))
    && (forall e, w {:trigger ReadsFrom(g.threads, e, FromWrite(w))} ::
          ReadsFrom(g.threads, e, FromWrite(w)) ==> IsWrite(g.threads, w))
    && (forall e {:trigger IsRead(g.threads, e)} :: IsRead(g.threads, e) ==> BodyAt(g.threads, e).rbucket in g.initRfs)
  }

  /** r is listed exactly once as a reader of w (or of initialization) if and only if some
      part of r's rf list comes from w. */
  ghost predicate Mirror(g: Graph) {
    && (forall w, e {:trigger IsWrite(g.threads, w), ReadsFrom(g.threads, e, FromWrite(w))} ::
          IsWrite(g.threads, w) ==>
            multiset(BodyAt(g.threads, w).readers)[e] == Times(ReadsFrom(g.threads, e, FromWrite(w))))
    && (forall a, e {:trigger g.initRfs[a], ReadsFrom(g.threads, e, Init)} ::
          a in g.initRfs ==>
            multiset(g.initRfs[a])[e] == Times(ReadsFrom(g.threads, e, Init) && BodyAt(g.threads, e).rbucket == a))
    && (forall e, w {:trigger ReadsFrom(g.threads, e, FromWrite(w))} ::
          ReadsFrom(g.threads, e, FromWrite(w)) ==> IsWrite(g.threads, w))
    && (forall e {:trigger IsRead(g.threads, e)} :: IsRead(g.threads, e) ==> BodyAt(g.threads, e).rbucket in g.initRfs)
  }

  ghost function SourcesOf(rfs: Rfs): iset<Source> {
    iset s | HasSource(rfs, s)
  }

  /** The two agree if r counts as what it reads from. */
  lemma MirrorIffBut(g: Graph, r: Event)
    requires IsRead(g.threads, r)
    ensures Mirror(g) <==> MirrorBut(g, r, SourcesOf(BodyAt(g.threads, r).rfs))
  {
    hide HasSource;
    var linked := SourcesOf(BodyAt(g.threads, r).rfs);
    forall e, s ensures Expected(g.threads, r, linked, e, s) <==> ReadsFrom(g.threads, e, s) {}
    hide Expected, ReadsFrom, IsRead, IsWrite;
    if Mirror(g) {
      forall w, e | IsWrite(g.threads, w) ensures WriteListed(g.threads, r, linked, w, e) {}
      forall a, e | a in g.initRfs ensures InitListed(g, r, linked, a, e) { ReadsFromIsRead(g.threads, e, Init); }
    }
    if MirrorBut(g, r, linked) {
      forall w, e | IsWrite(g.threads, w)
        ensures multiset(BodyAt(g.threads, w).readers)[e] == Times(ReadsFrom(g.threads, e, FromWrite(w)))
      {
        assert WriteListed(g.threads, r, linked, w, e);
      }
      forall a, e | a in g.initRfs
        ensures ReadsFrom(g.threads, e, Init) ==> IsRead(g.threads, e)
        ensures multiset(g.initRfs[a])[e] == Times(ReadsFrom(g.threads, e, Init) && BodyAt(g.threads, e).rbucket == a)
      {
        ReadsFromIsRead(g.threads, e, Init);
        assert InitListed(g, r, linked, a, e);
      }
    }
  }

  lemma ReadsFromIsRead(threads: seq<Thread>, e: Event, s: Source)
    ensures ReadsFrom(threads, e, s) ==> IsRead(threads, e) && ContainsPos(threads, e)
  {
  }
}
