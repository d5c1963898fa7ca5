/** compressStampsAfter of src/ExecutionGraph.cpp: renumbering the labels that remain after
    a cut. */
module Stamps {
  import opened Events
  import opened GraphModel
  import opened GraphClass

  /** How many of the first n labels have a stamp above st. */
  function Later(ls: Thread, st: nat, n: nat): nat
    requires n <= |ls|
  {
    if n == 0 then 0 else Later(ls, st, n - 1) + if ls[n - 1].stamp > st then 1 else 0
  }

  /** How many labels of the first t threads do. */
  function LaterIn(threads: seq<Thread>, st: nat, t: nat): nat
    requires t <= |threads|
  {
    if t == 0 then 0 else LaterIn(threads, st, t - 1) + Later(threads[t - 1], st, |threads[t - 1]|)
  }

  /** The new stamp of label i, if the first label above st gets number next. */
  function NewStamp(ls: Thread, st: nat, next: nat, i: nat): nat
    requires i < |ls|
  {
    if ls[i].stamp > st then next + Later(ls, st, i) else ls[i].stamp
  }

  /** Only stamps differ, and they are the new ones in the first n labels. */
  ghost predicate Renumbered(ls: Thread, st: nat, next: nat, n: nat, ms: Thread) {
    && |ms| == |ls|
    && forall i {:trigger ms[i]} :: 0 <= i < |ls| ==>
        ms[i] == Lab(if i < n then NewStamp(ls, st, next, i) else ls[i].stamp, ls[i].body)
  }

  /** The number of the first label above st of thread t. */
  function FirstNumber(threads: seq<Thread>, st: nat, t: nat): nat
    requires t <= |threads|
  {
    st + 1 + LaterIn(threads, st, t)
  }

  method CompressThread(ls: Thread, st: nat, next0: nat) returns (ms: Thread, next: nat)
    ensures Renumbered(ls, st, next0, |ls|, ms)
    ensures next == next0 + Later(ls, st, |ls|)
  {
    ms, next := ls, next0;
    for i := 0 to |ls|
      invariant Renumbered(ls, st, next0, i, ms)
      invariant next == next0 + Later(ls, st, i)
    {
      if ms[i].stamp > st {
        ms := ms[i := ms[i].(stamp := next)];
        next := next + 1;
      }
    }
  }

  /** Stamps up to st stay; the others become consecutive from st + 1, thread by thread. */
  ghost predicate Compressed(threads: seq<Thread>, st: nat, compressed: seq<Thread>) {
    && |compressed| == |threads|
    && forall t {:trigger compressed[t]} :: 0 <= t < |threads| ==>
        Renumbered(threads[t], st, FirstNumber(threads, st, t), |threads[t]|, compressed[t])
  }

  method CompressStampsAfter(g: ExecutionGraph, st: nat)
    modifies g
    ensures g.co == old(g.co) && g.initRfs == old(g.initRfs)
    ensures Compressed(old(g.threads), st, g.threads)
    ensures g.timestamp == FirstNumber(old(g.threads), st, |old(g.threads)|)
  {
    hide Renumbered;
    g.timestamp := st + 1;
    ghost var was := g.threads;
    for t := 0 to |g.threads|
      invariant |g.threads| == |was|
      invariant g.co == old(g.co) && g.initRfs == old(g.initRfs)
      invariant g.timestamp == FirstNumber(was, st, t)
      invariant forall u {:trigger g.threads[u]} ::
        0 <= u < t ==> Renumbered(was[u], st, FirstNumber(was, st, u), |was[u]|, g.threads[u])
      invariant forall u {:trigger g.threads[u]} :: t <= u < |was| ==> g.threads[u] == was[u]
    {
      var ls, next := CompressThread(g.threads[t], st, g.timestamp);
      g.threads := g.threads[t := ls];
      g.timestamp := next;
    }
  }

  // ----- what the renumbering keeps

  lemma {:induction false} LaterMonotone(ls: Thread, st: nat, i: nat, j: nat)
    requires i <= j <= |ls|
    ensures Later(ls, st, i) <= Later(ls, st, j) <= Later(ls, st, i) + (j - i)
    decreases j
  {
    if i < j { LaterMonotone(ls, st, i, j - 1); }
  }

  lemma {:induction false} LaterInMonotone(threads: seq<Thread>, st: nat, t: nat, u: nat)
    requires t <= u <= |threads|
    ensures LaterIn(threads, st, t) <= LaterIn(threads, st, u)
    decreases u
  {
    if t < u { LaterInMonotone(threads, st, t, u - 1); }
  }

  /** The new stamp of an event. */
  function NewStampOf(threads: seq<Thread>, st: nat, e: Event): nat
    requires ContainsPos(threads, e)
  {
    NewStamp(threads[e.thread], st, FirstNumber(threads, st, e.thread), e.index)
  }

  lemma CompressedStamp(threads: seq<Thread>, st: nat, compressed: seq<Thread>, e: Event)
    requires Compressed(threads, st, compressed) && ContainsPos(threads, e)
    ensures ContainsPos(compressed, e)
    ensures compressed[e.thread][e.index] == Lab(NewStampOf(threads, st, e), BodyAt(threads, e))
  {
    assert Renumbered(threads[e.thread], st, FirstNumber(threads, st, e.thread), |threads[e.thread]|,
                      compressed[e.thread]);
  }

  /** Later labels get later numbers, in the order of threads and inside each of them. */
  lemma NumbersIncrease(threads: seq<Thread>, st: nat, d: Event, e: Event)
    requires ContainsPos(threads, d) && ContainsPos(threads, e)
    requires d.thread < e.thread || (d.thread == e.thread && d.index < e.index)
    requires threads[d.thread][d.index].stamp > st && threads[e.thread][e.index].stamp > st
    ensures st < NewStampOf(threads, st, d) < NewStampOf(threads, st, e)
  {
    var ls := threads[d.thread];
    assert Later(ls, st, d.index + 1) == Later(ls, st, d.index) + 1;
    if d.thread == e.thread {
      LaterMonotone(ls, st, d.index + 1, e.index);
    } else {
      LaterMonotone(ls, st, d.index + 1, |ls|);
      LaterInMonotone(threads, st, d.thread + 1, e.thread);
    }
  }

  /** Only stamps above st change, and those come in the order of threads and inside each of
      them: of two labels with such stamps, the earlier one has the smaller new stamp. */
  lemma CompressedExactly(threads: seq<Thread>, st: nat, compressed: seq<Thread>, d: Event, e: Event)
    requires Compressed(threads, st, compressed) && ContainsPos(threads, d) && ContainsPos(threads, e)
    ensures ContainsPos(compressed, d) && BodyAt(compressed, d) == BodyAt(threads, d)
    ensures threads[d.thread][d.index].stamp <= st ==>
      compressed[d.thread][d.index].stamp == threads[d.thread][d.index].stamp
    ensures ContainsPos(compressed, e)
    ensures && (d.thread < e.thread || (d.thread == e.thread && d.index < e.index))
      && threads[d.thread][d.index].stamp > st && threads[e.thread][e.index].stamp > st
      ==> st < compressed[d.thread][d.index].stamp < compressed[e.thread][e.index].stamp
  {
    hide Later, LaterIn, Compressed, NewStampOf;
    CompressedStamp(threads, st, compressed, d);
    CompressedStamp(threads, st, compressed, e);
    NewStampIs(threads, st, d);
    if && (d.thread < e.thread || (d.thread == e.thread && d.index < e.index))
      && threads[d.thread][d.index].stamp > st && threads[e.thread][e.index].stamp > st {
      NumbersIncrease(threads, st, d, e);
    }
  }

  /** No two labels have the same stamp. */
  ghost predicate StampsDistinct(threads: seq<Thread>) {
    forall d, e {:trigger ContainsPos(threads, d), ContainsPos(threads, e)} ::
      ContainsPos(threads, d) && ContainsPos(threads, e) && d != e
      ==> threads[d.thread][d.index].stamp != threads[e.thread][e.index].stamp
  }

  /** Renumbering keeps stamps up to st, and keeps stamps distinct. */
  lemma DistinctStaysDistinct(threads: seq<Thread>, st: nat, compressed: seq<Thread>)
    requires Compressed(threads, st, compressed) && StampsDistinct(threads)
    ensures StampsDistinct(compressed)
  {
    hide Later, LaterIn, Compressed, NewStampOf;
    forall d, e {:trigger ContainsPos(compressed, d), ContainsPos(compressed, e)} | ContainsPos(compressed, d)
      && ContainsPos(compressed, e) && d != e
      ensures compressed[d.thread][d.index].stamp != compressed[e.thread][e.index].stamp
    {
      SamePositions(threads, st, compressed, d);
      SamePositions(threads, st, compressed, e);
      CompressedStamp(threads, st, compressed, d);
      CompressedStamp(threads, st, compressed, e);
      NewStampIs(threads, st, d);
      NewStampIs(threads, st, e);
      if threads[d.thread][d.index].stamp > st && threads[e.thread][e.index].stamp > st {
        if d.thread < e.thread || (d.thread == e.thread && d.index < e.index) {
          NumbersIncrease(threads, st, d, e);
        } else {
          NumbersIncrease(threads, st, e, d);
        }
      }
    }
  }

  lemma SamePositions(threads: seq<Thread>, st: nat, compressed: seq<Thread>, e: Event)
    requires Compressed(threads, st, compressed)
    ensures ContainsPos(compressed, e) <==> ContainsPos(threads, e)
  {
    if e.thread < |threads| {
      assert Renumbered(threads[e.thread], st, FirstNumber(threads, st, e.thread), |threads[e.thread]|,
                        compressed[e.thread]);
    }
  }

  lemma NewStampIs(threads: seq<Thread>, st: nat, e: Event)
    requires ContainsPos(threads, e)
    ensures if threads[e.thread][e.index].stamp > st then NewStampOf(threads, st, e) > st
      else NewStampOf(threads, st, e) == threads[e.thread][e.index].stamp
  {
  }

  /** Renumbering keeps stamps increasing along each thread. */
  lemma IncreasingStaysIncreasing(threads: seq<Thread>, st: nat, compressed: seq<Thread>)
    requires Compressed(threads, st, compressed) && StampsIncrease(threads)
    ensures StampsIncrease(compressed)
  {
    hide Later, LaterIn, Compressed, NewStampOf;
    forall t, i, j {:trigger compressed[t][i], compressed[t][j]} | 0 <= t < |compressed| && 0 <= i < j < |compressed[t]|
      ensures compressed[t][i].stamp < compressed[t][j].stamp
    {
      var d, e := Event(t, i), Event(t, j);
      SamePositions(threads, st, compressed, d);
      SamePositions(threads, st, compressed, e);
      CompressedStamp(threads, st, compressed, d);
      CompressedStamp(threads, st, compressed, e);
      NewStampIs(threads, st, d);
      NewStampIs(threads, st, e);
      assert threads[t][i].stamp < threads[t][j].stamp;
      if threads[t][i].stamp > st { NumbersIncrease(threads, st, d, e); }
    }
  }

  lemma {:induction false} LaterFrom(ls: Thread, st: nat, n: nat, k: nat) returns (i: nat)
    requires n <= |ls| && k < Later(ls, st, n)
    ensures i < n && ls[i].stamp > st && Later(ls, st, i) == k
  {
    if k < Later(ls, st, n - 1) { i := LaterFrom(ls, st, n - 1, k); } else { i := n - 1; }
  }

  lemma {:induction false} NumberFrom(threads: seq<Thread>, st: nat, t: nat, k: nat) returns (e: Event)
    requires t <= |threads| && k < LaterIn(threads, st, t)
    ensures ContainsPos(threads, e) && threads[e.thread][e.index].stamp > st && NewStampOf(threads, st, e) == st + 1 + k
  {
    if k < LaterIn(threads, st, t - 1) {
      e := NumberFrom(threads, st, t - 1, k);
    } else {
      var i := LaterFrom(threads[t - 1], st, |threads[t - 1]|, k - LaterIn(threads, st, t - 1));
      e := Event(t - 1, i);
    }
  }

  lemma NumberBelow(threads: seq<Thread>, st: nat, e: Event)
    requires ContainsPos(threads, e) && threads[e.thread][e.index].stamp > st
    ensures NewStampOf(threads, st, e) < FirstNumber(threads, st, |threads|)
  {
    var ls := threads[e.thread];
    assert Later(ls, st, e.index + 1) == Later(ls, st, e.index) + 1;
    LaterMonotone(ls, st, e.index + 1, |ls|);
    LaterInMonotone(threads, st, e.thread + 1, |threads|);
  }

  /** The numbers given are consecutive: exactly those from st + 1 up to the next stamp. */
  lemma NumbersConsecutive(threads: seq<Thread>, st: nat, compressed: seq<Thread>, n: nat)
    requires Compressed(threads, st, compressed)
    ensures st < n < FirstNumber(threads, st, |threads|)
      <==> (n > st && exists e :: ContainsPos(compressed, e) && StampIs(compressed, e, n))
  {
    hide Later, LaterIn, Compressed, NewStampOf;
    if st < n < FirstNumber(threads, st, |threads|) {
      var e := NumberFrom(threads, st, |threads|, n - st - 1);
      CompressedStamp(threads, st, compressed, e);
      assert StampIs(compressed, e, n);
    }
    if n > st && exists e :: ContainsPos(compressed, e) && StampIs(compressed, e, n) {
      var e :| ContainsPos(compressed, e) && StampIs(compressed, e, n);
      SamePositions(threads, st, compressed, e);
      CompressedStamp(threads, st, compressed, e);
      NewStampIs(threads, st, e);
      NumberBelow(threads, st, e);
    }
  }

  ghost predicate StampIs(threads: seq<Thread>, e: Event, n: nat)
    requires ContainsPos(threads, e)
  {
    threads[e.thread][e.index].stamp == n
  }

  // ----- both together

  /** Thread starts alone carry stamps above st, and those are numbered from st + 1 on. */
  ghost predicate StartsNumbered(threads: seq<Thread>, st: nat, next: nat) {
    && (forall e {:trigger ContainsPos(threads, e)} ::
          ContainsPos(threads, e) && threads[e.thread][e.index].stamp > st ==> e.index == 0)
    && (forall n {:trigger Numbered(threads, n)} :: n > st ==> (Numbered(threads, n) <==> n < next))
  }

  ghost predicate Numbered(threads: seq<Thread>, n: nat) {
    exists e :: ContainsPos(threads, e) && StampIs(threads, e, n)
  }

  /** The part of restrictGraph that concerns stamps: cuts the graph to a stamp and closes the
      gaps between the stamps of the starts that stay. */
  method RestrictGraph(g: ExecutionGraph, st: nat)
    requires (forall t :: 0 <= t < |g.threads| ==> g.threads[t] != []) && StampsIncrease(g.threads)
    modifies g
    ensures ViewOf(old(g.threads), ViewFromStamp(old(g.threads), st, |old(g.threads)|))
    ensures Compressed(Restrict(old(g.G()), ViewFromStamp(old(g.threads), st, |old(g.threads)|)).threads, st, g.threads)
    ensures StampsIncrease(g.threads) && StartsNumbered(g.threads, st, g.timestamp)
    ensures StampsDistinct(old(g.threads)) ==> StampsDistinct(g.threads)
  {
    hide ViewFromStamp, Restrict, StampsIncrease, StampsDistinct, Compressed, StartsNumbered, LaterIn, Later, ViewOf;
    ghost var was := g.G();
    g.CutToStamp(st);
    ghost var v := ViewFromStamp(was.threads, st, |was.threads|);
    ghost var cut := g.threads;
    RestrictIncreasing(was, v);
    CompressStampsAfter(g, st);
    IncreasingStaysIncreasing(cut, st, g.threads);
    OnlyStarts(was, st, g.threads);
    if StampsDistinct(was.threads) {
      RestrictDistinct(was, v);
      DistinctStaysDistinct(cut, st, g.threads);
    }
  }

  lemma OnlyStarts(g: Graph, st: nat, compressed: seq<Thread>)
    requires StampsIncrease(g.threads) && ViewOf(g.threads, ViewFromStamp(g.threads, st, |g.threads|))
    requires Compressed(Restrict(g, ViewFromStamp(g.threads, st, |g.threads|)).threads, st, compressed)
    ensures var cut := Restrict(g, ViewFromStamp(g.threads, st, |g.threads|)).threads;
      StartsNumbered(compressed, st, FirstNumber(cut, st, |cut|))
  {
    hide ViewFromStamp, Restrict, StampsIncrease, Compressed, LaterIn, Later, NewStampOf, ViewOf;
    var cut := Restrict(g, ViewFromStamp(g.threads, st, |g.threads|)).threads;
    forall e {:trigger ContainsPos(compressed, e)} | ContainsPos(compressed, e)
      && compressed[e.thread][e.index].stamp > st
      ensures e.index == 0
    {
      SamePositions(cut, st, compressed, e);
      CompressedStamp(cut, st, compressed, e);
      NewStampIs(cut, st, e);
      if e.index > 0 { OnlyStartsLater(g, st, e); }
    }
    forall n {:trigger Numbered(compressed, n)} | n > st
      ensures Numbered(compressed, n) <==> n < FirstNumber(cut, st, |cut|)
    {
      NumbersConsecutive(cut, st, compressed, n);
    }
  }

  lemma RestrictDistinct(g: Graph, v: View)
    requires ViewOf(g.threads, v) && StampsDistinct(g.threads)
    ensures StampsDistinct(Restrict(g, v).threads)
  {
    hide Restrict;
    var threads: seq<Thread> := Restrict(g, v).threads;
    forall d, e {:trigger ContainsPos(threads, d), ContainsPos(threads, e)} | ContainsPos(threads, d)
      && ContainsPos(threads, e) && d != e
      ensures threads[d.thread][d.index].stamp != threads[e.thread][e.index].stamp
    {
      RestrictedPos(g, v, d);
      RestrictedPos(g, v, e);
    }
  }
}
