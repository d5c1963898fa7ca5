/** isEnabled of src/ContextBoundDecider.cpp, case by case. */
module ContextEnabled {
  import opened Options
  import opened Events
  import opened ContextBound

  // ----- a view's events

  /** A thread's events up to its last one in the view are in the view, and no others. */
  lemma ThreadInView(g: Graph, v: View, e: Event)
    requires ViewOf(g, v) && e.thread < |v|
    ensures Contains(v, e) <==> e.index <= v[e.thread]
    ensures Contains(v, e) && e.index > 0 ==> InGraph(g, e)
  {
  }

  /** A thread that has ended, or has no further event, is not enabled. */
  lemma EndedNeverEnabled(g: Graph, v: View, t: nat)
    requires WellFormed(g) && ViewOf(g, v) && t < |v|
    requires (forall e :: InGraph(g, e) && e.thread == t ==> Contains(v, e))
      || g.threads[t][v[t]].Stop? || g.threads[t][v[t]].Finish?
    ensures !IsEnabled(g, v, t)
  {
    if v[t] + 1 < |g.threads[t]| { assert InGraph(g, Event(t, v[t] + 1)); }
  }

  lemma EndIsLast(g: Graph, v: View, t: nat)
    requires WellFormed(g) && ViewOf(g, v) && t < |v| && v[t] + 1 < |g.threads[t]|
    ensures !g.threads[t][v[t]].Stop? && !g.threads[t][v[t]].Finish?
  {
    if v[t] > 0 { assert WellFormedLabel(g, Event(t, v[t]), LabelOf(g, Event(t, v[t]))); }
  }

  /** A thread that waits at a join can go on exactly if the other thread has run to its end. */
  lemma JoinEnabledIff(g: Graph, v: View, t: nat)
    requires WellFormed(g) && ViewOf(g, v) && t < |v| && v[t] + 1 < |g.threads[t]|
    requires g.threads[t][v[t] + 1].Join?
    ensures IsEnabled(g, v, t)
      <==> forall e :: InGraph(g, e) && e.thread == g.threads[t][v[t] + 1].joined ==> Contains(v, e)
  {
    EndIsLast(g, v, t);
    var next := Event(t, v[t] + 1);
    assert WellFormedLabel(g, next, LabelOf(g, next));
    var c := LabelOf(g, next).joined;
    assert InGraph(g, Event(c, |g.threads[c]| - 1));
  }

  /** The i-th store is the latest of the list that is in the view. */
  ghost predicate LatestAt(v: View, stores: seq<Event>, i: int) {
    0 <= i < |stores| && Contains(v, stores[i]) && forall j :: i < j < |stores| ==> !Contains(v, stores[j])
  }

  lemma OneLatest(v: View, stores: seq<Event>, i: int, j: int)
    requires LatestAt(v, stores, i) && LatestAt(v, stores, j)
    ensures i == j
  {
    hide Contains;
  }

  /** A thread that waits for a lock can go on exactly if the latest store in the view is an
      unlock that no completed lock of the view reads; without any store in the view, if no
      reader of the initial value is there. */
  lemma LockEnabledIff(g: Graph, v: View, t: nat)
    requires WellFormed(g) && ViewOf(g, v) && t < |v| && v[t] + 1 < |g.threads[t]|
    requires g.threads[t][v[t] + 1].Read? && g.threads[t][v[t] + 1].readKind == LockRead
    ensures var a := g.threads[t][v[t] + 1].readAddr;
      var stores := Stores(g, a);
      IsEnabled(g, v, t)
      <==>
      || (&& (forall i :: 0 <= i < |stores| ==> !Contains(v, stores[i]))
          && (forall r <- g.initReaders ::
                InGraph(g, r) && LabelOf(g, r).Read? && LabelOf(g, r).readAddr == a ==> !Contains(v, r)))
      || (exists i ::
            && LatestAt(v, stores, i) && InGraph(g, stores[i])
            && LabelOf(g, stores[i]).Write? && LabelOf(g, stores[i]).writeKind == UnlockWrite
            && (forall r {:trigger LabelOf(g, r)} ::
                  InGraph(g, r) && LabelOf(g, r).Read? && LabelOf(g, r).rf == FromWrite(stores[i]) ==>
                  !Contains(v, Event(r.thread, r.index + 1))))
  {
    hide WellFormed, IsEnabled, LockFree, LatestIn, Contains, Stores, LatestAt;
    SpecialEnabled(g, v, t);
    var stores := Stores(g, g.threads[t][v[t] + 1].readAddr);
    if i :| LatestAt(v, stores, i) {
      SomeLatest(v, stores, i);
      LatestInIs(v, stores, i);
      LockFreeAt(g, v, g.threads[t][v[t] + 1].readAddr, i);
      forall j | LatestAt(v, stores, j) ensures i == j { OneLatest(v, stores, i, j); }
    } else {
      NoLatest(v, stores);
      LockFreeWithout(g, v, g.threads[t][v[t] + 1].readAddr);
    }
  }

  lemma SpecialEnabled(g: Graph, v: View, t: nat)
    requires WellFormed(g) && ViewOf(g, v) && t < |v| && v[t] + 1 < |g.threads[t]| && g.threads[t][v[t] + 1].Read?
    ensures var l := g.threads[t][v[t] + 1];
      && (l.readKind == LockRead ==> IsEnabled(g, v, t) == LockFree(g, v, l.readAddr))
      && (l.readKind == BarrierRead ==> IsEnabled(g, v, t) == BarrierOpen(g, v, l.readAddr))
  {
    hide LockFree, BarrierOpen, WellFormed;
    EndIsLast(g, v, t);
  }

  lemma SomeLatest(v: View, stores: seq<Event>, i: int)
    requires LatestAt(v, stores, i)
    ensures 0 <= i < |stores| && Contains(v, stores[i])
  {
  }

  lemma NoLatest(v: View, stores: seq<Event>)
    requires forall i :: !LatestAt(v, stores, i)
    ensures LatestIn(v, stores).None? && forall i :: 0 <= i < |stores| ==> !Contains(v, stores[i])
  {
    hide LatestAt, LatestIn, Contains;
    LatestInAt(v, stores);
  }

  lemma LockFreeAt(g: Graph, v: View, a: int, i: nat)
    requires WellFormed(g) && i < |Stores(g, a)| && LatestIn(v, Stores(g, a)) == Some(Stores(g, a)[i])
    ensures var w := Stores(g, a)[i];
      LockFree(g, v, a)
      <==> (&& InGraph(g, w) && LabelOf(g, w).Write? && LabelOf(g, w).writeKind == UnlockWrite
            && (forall r {:trigger LabelOf(g, r)} ::
                  InGraph(g, r) && LabelOf(g, r).Read? && LabelOf(g, r).rf == FromWrite(w) ==>
                  !Contains(v, Event(r.thread, r.index + 1))))
  {
    hide WellFormed, LatestIn, Contains, Stores;
    ReadersAre(g, a, i);
    var w := Stores(g, a)[i];
    forall r | InGraph(g, r) && LabelOf(g, r).Read? && LabelOf(g, r).rf == FromWrite(w)
      ensures r in LabelOf(g, w).readers
    {
    }
  }

  lemma LockFreeWithout(g: Graph, v: View, a: int)
    requires LatestIn(v, Stores(g, a)).None?
    ensures LockFree(g, v, a)
      <==> forall r <- g.initReaders ::
        InGraph(g, r) && LabelOf(g, r).Read? && LabelOf(g, r).readAddr == a ==> !Contains(v, r)
  {
    hide LatestIn, Contains, Stores;
  }

  /** LatestIn is the latest store of the list that is in the view. */
  lemma {:induction false} LatestInAt(v: View, stores: seq<Event>)
    ensures LatestIn(v, stores).None? <==> forall i :: 0 <= i < |stores| ==> !Contains(v, stores[i])
    ensures LatestIn(v, stores).Some? ==> exists i :: LatestAt(v, stores, i)
    decreases |stores|
  {
    hide Contains;
    if stores != [] {
      var n := |stores| - 1;
      if Contains(v, stores[n]) {
        assert LatestAt(v, stores, n);
      } else {
        LatestInAt(v, stores[..n]);
        if LatestIn(v, stores[..n]).Some? {
          var i :| LatestAt(v, stores[..n], i);
          assert LatestAt(v, stores, i) by {
            forall j | i < j < n ensures !Contains(v, stores[j]) { assert stores[..n][j] == stores[j]; }
          }
        } else {
          forall i | 0 <= i < n ensures !Contains(v, stores[i]) { assert stores[..n][i] == stores[i]; }
        }
      }
    }
  }

  lemma {:induction false} LatestInIs(v: View, stores: seq<Event>, i: nat)
    requires LatestAt(v, stores, i)
    ensures LatestIn(v, stores) == Some(stores[i])
    decreases |stores|
  {
    hide Contains;
    var n := |stores| - 1;
    if i < n { LatestInIs(v, stores[..n], i); }
  }

  /** The readers that a store lists are the reads from it. */
  lemma ReadersAre(g: Graph, a: int, i: nat)
    requires WellFormed(g) && i < |Stores(g, a)|
    ensures IsWriteTo(g, Stores(g, a)[i], a)
    ensures forall r {:trigger r in LabelOf(g, Stores(g, a)[i]).readers} ::
      r in LabelOf(g, Stores(g, a)[i]).readers
      <==> InGraph(g, r) && LabelOf(g, r).Read? && LabelOf(g, r).rf == FromWrite(Stores(g, a)[i])
  {
    var w := Stores(g, a)[i];
    assert WellFormedLabel(g, w, LabelOf(g, w));
    forall r {:trigger r in LabelOf(g, w).readers}
      ensures r in LabelOf(g, w).readers <==> InGraph(g, r) && LabelOf(g, r).Read? && LabelOf(g, r).rf == FromWrite(w)
    {
      if InGraph(g, r) { assert WellFormedLabel(g, r, LabelOf(g, r)); }
    }
  }

  /** A thread that waits at a barrier can go on exactly if the value of the latest store in
      the view is that of the first store. */
  lemma BarrierEnabledIff(g: Graph, v: View, t: nat)
    requires WellFormed(g) && ViewOf(g, v) && t < |v| && v[t] + 1 < |g.threads[t]|
    requires g.threads[t][v[t] + 1].Read? && g.threads[t][v[t] + 1].readKind == BarrierRead
    ensures var stores := Stores(g, g.threads[t][v[t] + 1].readAddr);
      IsEnabled(g, v, t)
      <==> exists i ::
        && LatestAt(v, stores, i)
        && InGraph(g, stores[0]) && LabelOf(g, stores[0]).Write?
        && InGraph(g, stores[i]) && LabelOf(g, stores[i]).Write?
        && LabelOf(g, stores[i]).val == LabelOf(g, stores[0]).val
  {
    hide WellFormed, IsEnabled, BarrierOpen, LatestIn, Contains, Stores, LatestAt;
    SpecialEnabled(g, v, t);
    var stores := Stores(g, g.threads[t][v[t] + 1].readAddr);
    if i :| LatestAt(v, stores, i) {
      SomeLatest(v, stores, i);
      LatestInIs(v, stores, i);
      BarrierOpenAt(g, v, g.threads[t][v[t] + 1].readAddr, i);
      forall j | LatestAt(v, stores, j) ensures i == j { OneLatest(v, stores, i, j); }
    } else {
      NoLatest(v, stores);
      BarrierShutWithout(g, v, g.threads[t][v[t] + 1].readAddr);
    }
  }

  lemma BarrierOpenAt(g: Graph, v: View, a: int, i: nat)
    requires i < |Stores(g, a)| && LatestIn(v, Stores(g, a)) == Some(Stores(g, a)[i])
    ensures BarrierOpen(g, v, a)
      <==> (&& InGraph(g, Stores(g, a)[0]) && LabelOf(g, Stores(g, a)[0]).Write?
            && InGraph(g, Stores(g, a)[i]) && LabelOf(g, Stores(g, a)[i]).Write?
            && LabelOf(g, Stores(g, a)[i]).val == LabelOf(g, Stores(g, a)[0]).val)
  {
    hide LatestIn, Stores;
  }

  lemma BarrierShutWithout(g: Graph, v: View, a: int)
    requires LatestIn(v, Stores(g, a)).None?
    ensures !BarrierOpen(g, v, a)
  {
    hide LatestIn, Stores;
  }

  /** Any other next event can be run. */
  lemma OthersEnabled(g: Graph, v: View, t: nat)
    requires WellFormed(g) && ViewOf(g, v) && t < |v| && v[t] + 1 < |g.threads[t]|
    requires !g.threads[t][v[t] + 1].Join?
    requires g.threads[t][v[t] + 1].Read? ==> g.threads[t][v[t] + 1].readKind == PlainRead
    ensures IsEnabled(g, v, t)
  {
    EndIsLast(g, v, t);
  }

  /** canBlock says whether the next event is one of the three kinds that may have to wait. */
  lemma CanBlockIff(g: Graph, v: View, t: nat)
    requires ViewOf(g, v) && t < |v|
    ensures CanBlock(g, v, t) <==> exists e ::
      && InGraph(g, e) && e.thread == t && e.index == v[t] + 1
      && (LabelOf(g, e).Join? || (LabelOf(g, e).Read? && LabelOf(g, e).readKind in {LockRead, BarrierRead}))
  {
    if v[t] + 1 < |g.threads[t]| { assert InGraph(g, Event(t, v[t] + 1)); }
  }

  // ----- the same about the events that have run

  /** The events of a view. */
  ghost function Done(g: Graph, v: View): iset<Event> {
    iset e | InGraph(g, e) && Contains(v, e)
  }

  /** With the given events run, the i-th store to a is the latest. */
  ghost predicate LatestDone(g: Graph, done: iset<Event>, a: int, i: int) {
    0 <= i < |Stores(g, a)| && Stores(g, a)[i] in done
      && forall j :: i < j < |Stores(g, a)| ==> Stores(g, a)[j] !in done
  }

  /** With the given events run, e is the next one of its thread. */
  ghost predicate NextOf(g: Graph, done: iset<Event>, e: Event) {
    InGraph(g, e) && e !in done && forall d :: InGraph(g, d) && d.thread == e.thread && d.index < e.index ==> d in done
  }

  /** With the given events run, event e does not have to wait. */
  ghost predicate MayRun(g: Graph, done: iset<Event>, e: Event)
    requires InGraph(g, e)
  {
    match LabelOf(g, e)
    case Join(c) => forall d :: InGraph(g, d) && d.thread == c ==> d in done
    case Read(LockRead, a, _) =>
      || ((forall w <- Stores(g, a) :: w !in done)
          && forall r <- g.initReaders ::
            InGraph(g, r) && LabelOf(g, r).Read? && LabelOf(g, r).readAddr == a ==> r !in done)
      || exists i :: LatestDone(g, done, a, i) && UnlockNotRead(g, done, Stores(g, a)[i])
    case Read(BarrierRead, a, _) =>
      exists i :: LatestDone(g, done, a, i) && SameValue(g, Stores(g, a)[i], Stores(g, a)[0])
    case _ => true
  }

  /** w is an unlock, and no lock that reads it is completed by its write. */
  ghost predicate UnlockNotRead(g: Graph, done: iset<Event>, w: Event) {
    && InGraph(g, w) && LabelOf(g, w).Write? && LabelOf(g, w).writeKind == UnlockWrite
    && forall r {:trigger LabelOf(g, r)} ::
        InGraph(g, r) && LabelOf(g, r).Read? && LabelOf(g, r).rf == FromWrite(w) ==>
        Event(r.thread, r.index + 1) !in done
  }

  predicate SameValue(g: Graph, d: Event, e: Event) {
    && InGraph(g, d) && InGraph(g, e) && LabelOf(g, d).Write? && LabelOf(g, e).Write?
    && LabelOf(g, d).val == LabelOf(g, e).val
  }

  /** With the given events run, thread t could go on. */
  ghost predicate CouldRun(g: Graph, done: iset<Event>, t: nat) {
    exists e: Event :: e.thread == t && NextOf(g, done, e) && MayRun(g, done, e)
  }

  lemma NextInView(g: Graph, v: View, t: nat, e: Event)
    requires ViewOf(g, v) && t < |v| && e.thread == t
    ensures NextOf(g, Done(g, v), e) <==> e == Event(t, v[t] + 1) && v[t] + 1 < |g.threads[t]|
  {
    if v[t] + 1 < |g.threads[t]| { assert InGraph(g, Event(t, v[t] + 1)); }
  }

  /** isEnabled depends on the events that have run, and says whether the thread could go on. */
  lemma EnabledIffCouldRun(g: Graph, v: View, t: nat)
    requires WellFormed(g) && ViewOf(g, v) && t < |v|
    ensures IsEnabled(g, v, t) <==> CouldRun(g, Done(g, v), t)
  {
    hide IsEnabled, NextOf, MayRun, WellFormed;
    var done := Done(g, v);
    var next := Event(t, v[t] + 1);
    forall e: Event | e.thread == t ensures NextOf(g, done, e) <==> e == next && v[t] + 1 < |g.threads[t]| {
      NextInView(g, v, t, e);
    }
    if v[t] + 1 == |g.threads[t]| {
      EndedNeverEnabled(g, v, t);
    } else {
      MayRunIffEnabled(g, v, t);
    }
  }

  lemma MayRunIffEnabled(g: Graph, v: View, t: nat)
    requires WellFormed(g) && ViewOf(g, v) && t < |v| && v[t] + 1 < |g.threads[t]|
    ensures InGraph(g, Event(t, v[t] + 1))
    ensures MayRun(g, Done(g, v), Event(t, v[t] + 1)) <==> IsEnabled(g, v, t)
  {
    hide IsEnabled;
    var done := Done(g, v);
    match g.threads[t][v[t] + 1] {
      case Join(_) => JoinEnabledIff(g, v, t);
      case Read(LockRead, a, _) => LockMayRun(g, v, t);
      case Read(BarrierRead, a, _) => BarrierMayRun(g, v, t);
      case _ => OthersEnabled(g, v, t);
    }
  }

  lemma StoreDone(g: Graph, v: View, a: int, i: nat)
    requires WellFormed(g) && ViewOf(g, v) && i < |Stores(g, a)|
    ensures Stores(g, a)[i] in Done(g, v) <==> Contains(v, Stores(g, a)[i])
  {
    assert IsWriteTo(g, Stores(g, a)[i], a);
  }

  lemma LockMayRun(g: Graph, v: View, t: nat)
    requires WellFormed(g) && ViewOf(g, v) && t < |v| && v[t] + 1 < |g.threads[t]|
    requires g.threads[t][v[t] + 1].Read? && g.threads[t][v[t] + 1].readKind == LockRead
    ensures MayRun(g, Done(g, v), Event(t, v[t] + 1)) <==> IsEnabled(g, v, t)
  {
    hide IsEnabled, WellFormed, Stores, LatestAt, LatestDone, Done, UnlockNotRead, Contains;
    var done := Done(g, v);
    var a := g.threads[t][v[t] + 1].readAddr;
    var stores := Stores(g, a);
    LockEnabledIff(g, v, t);
    forall i: nat | i < |stores| ensures stores[i] in done <==> Contains(v, stores[i]) { StoreDone(g, v, a, i); }
    forall i
      ensures LatestDone(g, done, a, i) <==> LatestAt(v, stores, i)
      ensures LatestAt(v, stores, i) ==> 0 <= i < |stores| && InGraph(g, stores[i])
    {
      LatestDoneIff(g, v, a, i);
    }
    forall w ensures UnlockNotRead(g, done, w) <==> UnlockUnread(g, v, w) { NotReadIff(g, v, w); }
    forall r | InGraph(g, r) ensures r in done <==> Contains(v, r) { DoneIff(g, v, r); }
  }

  lemma DoneIff(g: Graph, v: View, e: Event)
    requires InGraph(g, e)
    ensures e in Done(g, v) <==> Contains(v, e)
  {
  }

  lemma LatestDoneIff(g: Graph, v: View, a: int, i: int)
    requires WellFormed(g) && ViewOf(g, v)
    ensures LatestDone(g, Done(g, v), a, i) <==> LatestAt(v, Stores(g, a), i)
    ensures LatestAt(v, Stores(g, a), i) ==> 0 <= i < |Stores(g, a)| && InGraph(g, Stores(g, a)[i])
  {
    hide Stores, Contains, Done, WellFormed;
    var stores := Stores(g, a);
    forall j: nat | j < |stores| ensures stores[j] in Done(g, v) <==> Contains(v, stores[j]) { StoreDone(g, v, a, j); }
    if 0 <= i < |stores| { ReadersAre(g, a, i); }
  }

  /** The same about a view. */
  ghost predicate UnlockUnread(g: Graph, v: View, w: Event) {
    && InGraph(g, w) && LabelOf(g, w).Write? && LabelOf(g, w).writeKind == UnlockWrite
    && forall r {:trigger LabelOf(g, r)} ::
        InGraph(g, r) && LabelOf(g, r).Read? && LabelOf(g, r).rf == FromWrite(w) ==>
        !Contains(v, Event(r.thread, r.index + 1))
  }

  lemma NotReadIff(g: Graph, v: View, w: Event)
    requires ViewOf(g, v)
    ensures UnlockNotRead(g, Done(g, v), w) <==> UnlockUnread(g, v, w)
  {
    forall r: Event ensures Event(r.thread, r.index + 1) in Done(g, v) <==> Contains(v, Event(r.thread, r.index + 1)) {
      if Contains(v, Event(r.thread, r.index + 1)) { ThreadInView(g, v, Event(r.thread, r.index + 1)); }
    }
  }

  lemma BarrierMayRun(g: Graph, v: View, t: nat)
    requires WellFormed(g) && ViewOf(g, v) && t < |v| && v[t] + 1 < |g.threads[t]|
    requires g.threads[t][v[t] + 1].Read? && g.threads[t][v[t] + 1].readKind == BarrierRead
    ensures MayRun(g, Done(g, v), Event(t, v[t] + 1)) <==> IsEnabled(g, v, t)
  {
    hide IsEnabled, WellFormed, Stores;
    var done := Done(g, v);
    var a := g.threads[t][v[t] + 1].readAddr;
    var stores := Stores(g, a);
    BarrierEnabledIff(g, v, t);
    forall i: nat | i < |stores| ensures stores[i] in done <==> Contains(v, stores[i]) { StoreDone(g, v, a, i); }
  }
}
