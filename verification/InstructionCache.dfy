/** The instruction cache of src/GenMCDriver.cpp, for one thread. */
module InstructionCache {
  import opened Options

  type Value = int

  /** What a label is, before the driver gives it a stamp or sources. */
  datatype Lab = Lab(kind: nat, hasValue: bool)

  /** A label in the graph, with the value the thread obtained from it, if any. */
  datatype Item = Item(lab: Lab, val: Option<Value>)

  type Thread = seq<Item>

  /** A cached label and its index in the thread. */
  datatype Entry = Entry(index: nat, lab: Lab)

  /** Execution of the thread: the n-th label that it emits after having obtained the
      values, counted from the last of them. */
  type Program = (seq<Value>, nat) -> Lab

  function Vals(t: Thread): seq<Value> {
    if t == [] then []
    else
      var last := t[|t| - 1];
      Vals(t[..|t| - 1]) + if last.val.Some? then [last.val.value] else []
  }

  /** How many labels come after the last one with a value. */
  function Since(t: Thread): (n: nat)
    ensures n <= |t|
  {
    if t == [] || t[|t| - 1].val.Some? then 0 else Since(t[..|t| - 1]) + 1
  }

  /** What execution emits next. */
  function Emit(p: Program, t: Thread): Lab {
    p(Vals(t), Since(t))
  }

  /** The thread's labels are those that execution emits, starting with the thread's start,
      which has a value. */
  ghost predicate Consistent(p: Program, t: Thread) {
    && t != [] && t[0].lab.hasValue
    && forall i {:trigger t[i]} ::
      0 <= i < |t| ==> t[i].lab == Emit(p, t[..i]) && (t[i].val.Some? <==> t[i].lab.hasValue)
  }

  // ----- the values obtained determine the labels

  lemma {:induction false} ValsUpTo(t: Thread, i: nat)
    requires i <= |t|
    ensures |Vals(t[..i])| <= |Vals(t)| && Vals(t)[..|Vals(t[..i])|] == Vals(t[..i])
    ensures i < |t| && t[i].val.Some? ==> |Vals(t[..i])| < |Vals(t)| && Vals(t)[|Vals(t[..i])|] == t[i].val.value
    decreases |t|
  {
    if i == |t| {
      assert t[..i] == t;
    } else {
      var n := |t| - 1;
      assert t[..n][..i] == t[..i];
      ValsUpTo(t[..n], i);
      assert i < n ==> t[..n][i] == t[i];
    }
  }

  /** Two executions that obtained the same values emitted the same labels. */
  lemma {:induction false} SameUpTo(p: Program, t: Thread, u: Thread, i: nat)
    requires Consistent(p, t) && Consistent(p, u) && Vals(t) == Vals(u) && i <= |t| && i <= |u|
    ensures t[..i] == u[..i]
  {
    hide Vals, Since, Emit;
    if i > 0 {
      SameUpTo(p, t, u, i - 1);
      ValsUpTo(t, i - 1);
      ValsUpTo(u, i - 1);
      assert t[i - 1].lab == u[i - 1].lab;
      assert t[..i] == t[..i - 1] + [t[i - 1]] && u[..i] == u[..i - 1] + [u[i - 1]];
    }
  }

  /** If both end with a value, they are the same. */
  lemma SameValuesSameThread(p: Program, t: Thread, u: Thread)
    requires Consistent(p, t) && Consistent(p, u) && Vals(t) == Vals(u)
    requires t[|t| - 1].val.Some? && u[|u| - 1].val.Some?
    ensures t == u
  {
    hide Vals, Since, Emit, Consistent;
    assert t[..|t|] == t && u[..|u|] == u;
    if |t| < |u| {
      SameUpTo(p, t, u, |t|);
      LongerHasMore(u, |t|);
    } else if |u| < |t| {
      SameUpTo(p, t, u, |u|);
      LongerHasMore(t, |u|);
    } else {
      SameUpTo(p, t, u, |t|);
    }
  }

  lemma LongerHasMore(t: Thread, i: nat)
    requires i < |t| && t[|t| - 1].val.Some?
    ensures |Vals(t[..i])| < |Vals(t)|
  {
    var n := |t| - 1;
    assert t[..n][..i] == t[..i];
    ValsUpTo(t[..n], i);
  }

  /** The part of the thread up to the last value. */
  function Valued(t: Thread): Thread {
    t[..|t| - Since(t)]
  }

  lemma {:induction false} ValuedVals(t: Thread)
    ensures Vals(Valued(t)) == Vals(t)
    ensures Valued(t) != [] ==> Valued(t)[|Valued(t)| - 1].val.Some?
    decreases |t|
  {
    if t != [] && t[|t| - 1].val.None? {
      ValuedVals(t[..|t| - 1]);
      assert Valued(t[..|t| - 1]) == Valued(t);
    } else {
      assert t[..|t|] == t;
    }
  }

  /** Nothing after it has a value. */
  lemma {:induction false} AfterValued(t: Thread, i: nat)
    requires |Valued(t)| <= i <= |t|
    ensures i < |t| ==> t[i].val == None
    ensures Since(t[..i]) == i - |Valued(t)| && Vals(t[..i]) == Vals(t)
    decreases |t|
  {
    if i == |t| {
      assert t[..i] == t;
    } else {
      var n := |t| - 1;
      assert Valued(t[..n]) == Valued(t);
      AfterValued(t[..n], i);
      assert t[..n][..i] == t[..i];
      assert i < n ==> t[..n][i] == t[i];
    }
  }

  lemma ValuedConsistent(p: Program, t: Thread)
    requires Consistent(p, t)
    ensures Valued(t) != [] && Consistent(p, Valued(t))
  {
    hide Vals, Since, Emit;
    var u := Valued(t);
    if u == [] { AfterValued(t, 0); }
    forall i {:trigger u[i]} | 0 <= i < |u|
      ensures u[i].lab == Emit(p, u[..i]) && (u[i].val.Some? <==> u[i].lab.hasValue)
    {
      assert u[..i] == t[..i] && u[i] == t[i];
    }
  }

  // ----- what the cache holds

  /** The labels from the one after the values on: entry n is the n-th that execution emits.
      Only the last may carry a value. */
  ghost predicate EmittedRun(p: Program, vals: seq<Value>, base: nat, data: seq<Entry>) {
    forall n {:trigger Emitted(p, vals, base, data, n)} :: 0 <= n < |data| ==> Emitted(p, vals, base, data, n)
  }

  ghost predicate Emitted(p: Program, vals: seq<Value>, base: nat, data: seq<Entry>, n: nat)
    requires n < |data|
  {
    data[n] == Entry(base + n, p(vals, n)) && (n < |data| - 1 ==> !data[n].lab.hasValue)
  }

  /** The cached sequence belongs to a thread that has obtained the values. */
  ghost predicate SoundFor(p: Program, vals: seq<Value>, data: seq<Entry>) {
    exists w :: Witness(p, vals, w) && EmittedRun(p, vals, |w|, data)
  }

  ghost predicate Witness(p: Program, vals: seq<Value>, w: Thread) {
    Consistent(p, w) && Vals(w) == vals && w[|w| - 1].val.Some?
  }

  ghost predicate Sound(p: Program, seen: map<seq<Value>, seq<Entry>>) {
    forall vals <- seen :: seen[vals] != [] && SoundFor(p, vals, seen[vals])
  }

  /** The cache never shrinks. */
  ghost predicate Grows(seen: map<seq<Value>, seq<Entry>>, more: map<seq<Value>, seq<Entry>>) {
    forall vals <- seen :: vals in more && seen[vals] <= more[vals]
  }

  /** If labels after the thread's values are cached, those the thread has are among them. */
  predicate Covers(seen: map<seq<Value>, seq<Entry>>, t: Thread) {
    Vals(t) in seen ==> |seen[Vals(t)]| >= Since(t)
  }

  /** Whatever thread led to the cached sequence, it starts where this thread's values end. */
  lemma SoundHere(p: Program, t: Thread, data: seq<Entry>)
    requires Consistent(p, t) && SoundFor(p, Vals(t), data)
    ensures EmittedRun(p, Vals(t), |t| - Since(t), data)
  {
    hide Vals, Since, Emit, Consistent, EmittedRun;
    var w :| Witness(p, Vals(t), w) && EmittedRun(p, Vals(t), |w|, data);
    ValuedConsistent(p, t);
    ValuedVals(t);
    SameValuesSameThread(p, Valued(t), w);
  }

  lemma SoundFrom(p: Program, t: Thread, data: seq<Entry>)
    requires Consistent(p, t) && EmittedRun(p, Vals(t), |t| - Since(t), data)
    ensures SoundFor(p, Vals(t), data)
  {
    hide Vals, Since, Emit, Consistent, EmittedRun;
    ValuedConsistent(p, t);
    ValuedVals(t);
    assert Witness(p, Vals(t), Valued(t));
  }

  /** The labels of positions from to |t|, the last of which is lab, not in the graph yet. */
  function Collected(t: Thread, lab: Lab, from: nat): (r: seq<Entry>)
    requires from <= |t|
    ensures |r| == |t| + 1 - from
    decreases |t| - from
  {
    if from == |t| then [Entry(|t|, lab)] else [Entry(from, t[from].lab)] + Collected(t, lab, from + 1)
  }

  lemma {:induction false} CollectedAt(t: Thread, lab: Lab, from: nat, n: nat)
    requires from + n <= |t|
    ensures Collected(t, lab, from)[n] == Entry(from + n, if from + n == |t| then lab else t[from + n].lab)
    decreases |t| - from
  {
    if n > 0 { CollectedAt(t, lab, from + 1, n - 1); }
  }

  /** A label that the thread has after its values. */
  lemma ThreadEmits(p: Program, t: Thread, n: nat)
    requires Consistent(p, t) && n <= Since(t)
    ensures var at := |t| - Since(t) + n;
      if at < |t| then t[at].lab == p(Vals(t), n) && !t[at].lab.hasValue else Emit(p, t) == p(Vals(t), n)
  {
    hide Vals, Since, Consistent;
    var at := |t| - Since(t) + n;
    AfterValued(t, at);
    if at < |t| { ConsistentAt(p, t, at); } else { assert t[..at] == t; }
  }

  lemma ConsistentAt(p: Program, t: Thread, i: nat)
    requires Consistent(p, t) && i < |t|
    ensures t[i].lab == p(Vals(t[..i]), Since(t[..i])) && (t[i].val.Some? <==> t[i].lab.hasValue)
  {
    hide Vals, Since;
    assert t[i].lab == Emit(p, t[..i]);
  }

  /** Appending what the thread has emitted since keeps the sequence one of emitted labels. */
  lemma AppendEmitted(p: Program, t: Thread, data: seq<Entry>)
    requires Consistent(p, t) && |data| <= Since(t)
    requires EmittedRun(p, Vals(t), |t| - Since(t), data)
    ensures EmittedRun(p, Vals(t), |t| - Since(t), data + Collected(t, Emit(p, t), |t| - Since(t) + |data|))
  {
    hide Vals, Since, Collected, Consistent, Emit;
    var base := |t| - Since(t);
    var more := Collected(t, Emit(p, t), base + |data|);
    var all := data + more;
    forall n {:trigger Emitted(p, Vals(t), base, all, n)} | 0 <= n < |all|
      ensures Emitted(p, Vals(t), base, all, n)
    {
      ThreadEmits(p, t, n);
      if n < |data| {
        assert Emitted(p, Vals(t), base, data, n);
      } else {
        CollectedAt(t, Emit(p, t), base + |data|, n - |data|);
      }
    }
  }

  method ExtractValPrefix(t: Thread) returns (vals: seq<Value>, last: int)
    ensures vals == Vals(t) && last == |t| - Since(t) - 1
  {
    vals, last := [], -1;
    for i := 0 to |t|
      invariant vals == Vals(t[..i]) && last == i - Since(t[..i]) - 1
    {
      assert t[..i + 1][..i] == t[..i];
      if t[i].val.Some? {
        vals := vals + [t[i].val.value];
        last := i;
      }
    }
    assert t[..|t|] == t;
  }

  /** What findNextLabelToAdd and the handlers add when they are given cached labels. */
  ghost predicate Replays(p: Program, t: Thread, added: seq<Entry>) {
    forall n {:trigger added[n]} :: 0 <= n < |added| ==>
      added[n] == Entry(|t| + n, Emit(p, t + Valueless(added[..n])))
  }

  /** The labels as the graph holds them, if none has a value. */
  function Valueless(es: seq<Entry>): (t: Thread)
    ensures |t| == |es|
  {
    if es == [] then [] else Valueless(es[..|es| - 1]) + [Item(es[|es| - 1].lab, None)]
  }

  class Cache {
    var seen: map<seq<Value>, seq<Entry>>

    constructor ()
      ensures seen == map[]
    {
      seen := map[];
    }

    /** Caches the label that execution emits next, before it is added to the graph. */
    method CacheEventLabel(ghost p: Program, t: Thread, lab: Lab)
      requires Sound(p, seen) && Consistent(p, t) && Covers(seen, t) && lab == Emit(p, t)
      modifies this
      ensures seen == Recorded(old(seen), t, lab)
      ensures Sound(p, seen)
      ensures forall vals :: vals != Vals(t) ==>
        (vals in seen <==> vals in old(seen)) && (vals in seen ==> seen[vals] == old(seen)[vals])
      ensures Vals(t) in seen && |seen[Vals(t)]| > Since(t)
      ensures Grows(old(seen), seen)
    {
      hide Vals, Since, Emit, Consistent, Collected, EmittedRun, SoundFor, Sound, Grows;
      RecordKeepsSound(p, seen, t);
      DataHere(p, seen, t);
      var vals, last := ExtractValPrefix(t);
      var data := if vals in seen then seen[vals] else [];
      var fromIdx := if data == [] then last else data[|data| - 1].index;
      var toIdx := |t|;
      if data != [] && data[|data| - 1].index >= toIdx { return; }
      var labs := [];
      for i := fromIdx + 1 to toIdx + 1
        invariant seen == old(seen)
        invariant i <= |t| ==> labs + Collected(t, lab, i) == Collected(t, lab, fromIdx + 1)
        invariant i > |t| ==> labs == Collected(t, lab, fromIdx + 1)
      {
        CollectedStep(t, lab, i);
        labs := labs + [Entry(i, if i == |t| then lab else t[i].lab)];
      }
      if vals !in seen {
        assert data + labs == labs;
        seen := seen[vals := labs];
      } else {
        // the label to be cached directly follows what has been cached
        assert data[|data| - 1].index + 1 == toIdx;
        seen := seen[vals := data + labs];
      }
    }

    /** Finds out whether the thread's next labels are cached, and gives those to add. Handling
        a cached label can end the replay: ends says after which, counted from the first. */
    method TryOptimizeScheduling(ghost p: Program, t: Thread, ends: nat -> bool)
      returns (hit: bool, added: seq<Entry>, handled: nat)
      requires Sound(p, seen) && Consistent(p, t)
      ensures hit <==> Vals(t) in seen && |seen[Vals(t)]| > Since(t)
      ensures hit ==>
        && 0 < handled <= |seen[Vals(t)]| && (forall i | 0 <= i < handled - 1 :: !ends(i))
        && (handled == |seen[Vals(t)]| || ends(handled - 1))
      ensures hit ==>
        Replays(p, t, added) && added == if handled <= Since(t) then [] else seen[Vals(t)][Since(t)..handled]
      ensures !hit ==> added == [] && handled == 0
    {
      hide Vals, Since, Emit, Consistent, EmittedRun, SoundFor, Replays;
      var next := |t|;
      var vals, last := ExtractValPrefix(t);
      if vals !in seen { return false, [], 0; }
      var res := seen[vals];
      SoundHere(p, t, res);
      EntryIndex(p, Vals(t), |t| - Since(t), res);
      if res[|res| - 1].index < next { return false, [], 0; }
      hit, added, handled := true, [], 0;
      // labels that the graph has already are not added again
      while handled < |res|
        invariant handled <= |res| && forall i | 0 <= i < handled :: !ends(i)
        invariant added == if handled <= Since(t) then [] else res[Since(t)..handled]
      {
        EntryAt(p, Vals(t), |t| - Since(t), res, handled);
        if res[handled].index >= next { added := added + [res[handled]]; }
        handled := handled + 1;
        if ends(handled - 1) { break; }
      }
      CachedReplays(p, t, res, res[Since(t)..]);
      ReplaysPart(p, t, res[Since(t)..], added);
    }
  }

  /** The labels cached after the thread's values. */
  function Data(seen: map<seq<Value>, seq<Entry>>, t: Thread): seq<Entry> {
    if Vals(t) in seen then seen[Vals(t)] else []
  }

  /** The index of the last label that is cached, or of the last one with a value. */
  function LastIndex(seen: map<seq<Value>, seq<Entry>>, t: Thread): int {
    var data := Data(seen, t);
    if data == [] then |t| - Since(t) - 1 else data[|data| - 1].index
  }

  /** The cache after the next label of the thread has been cached. */
  function Recorded(seen: map<seq<Value>, seq<Entry>>, t: Thread, lab: Lab): map<seq<Value>, seq<Entry>> {
    if LastIndex(seen, t) >= |t| then seen
    else seen[Vals(t) := Data(seen, t)
      + Collected(t, lab, if LastIndex(seen, t) < 0 then 0 else LastIndex(seen, t) + 1)]
  }

  /** What a sound cache holds for a consistent thread. */
  lemma DataHere(p: Program, seen: map<seq<Value>, seq<Entry>>, t: Thread)
    requires Sound(p, seen) && Consistent(p, t)
    ensures EmittedRun(p, Vals(t), |t| - Since(t), Data(seen, t))
    ensures LastIndex(seen, t) == |t| - Since(t) + |Data(seen, t)| - 1 && LastIndex(seen, t) >= 0
    ensures Vals(t) in seen ==> seen[Vals(t)] != []
  {
    hide Vals, Since, Emit, Consistent, EmittedRun, SoundFor;
    ValuedConsistent(p, t);
    var data := Data(seen, t);
    if Vals(t) in seen { SoundHere(p, t, data); } else { EmptyRun(p, Vals(t), |t| - Since(t)); }
    EntryIndex(p, Vals(t), |t| - Since(t), data);
  }

  /** Caching the next label keeps the cache sound, and loses nothing. */
  lemma RecordKeepsSound(p: Program, seen: map<seq<Value>, seq<Entry>>, t: Thread)
    requires Sound(p, seen) && Consistent(p, t) && Covers(seen, t)
    ensures var more := Recorded(seen, t, Emit(p, t));
      Sound(p, more) && Grows(seen, more) && Vals(t) in more && |more[Vals(t)]| > Since(t)
  {
    hide Vals, Since, Emit, Consistent, Collected, EmittedRun, SoundFor;
    DataHere(p, seen, t);
    var data := Data(seen, t);
    if LastIndex(seen, t) < |t| {
      AppendEmitted(p, t, data);
      SoundFrom(p, t, data + Collected(t, Emit(p, t), LastIndex(seen, t) + 1));
    }
  }

  lemma EmptyRun(p: Program, vals: seq<Value>, base: nat)
    ensures EmittedRun(p, vals, base, [])
  {
  }

  lemma EntryAt(p: Program, vals: seq<Value>, base: nat, data: seq<Entry>, i: nat)
    requires EmittedRun(p, vals, base, data) && i < |data|
    ensures data[i].index == base + i
  {
    assert Emitted(p, vals, base, data, i);
  }

  lemma EntryIndex(p: Program, vals: seq<Value>, base: nat, data: seq<Entry>)
    requires EmittedRun(p, vals, base, data)
    ensures data != [] ==> data[|data| - 1].index == base + |data| - 1
  {
    if data != [] { EntryAt(p, vals, base, data, |data| - 1); }
  }

  lemma CollectedStep(t: Thread, lab: Lab, i: nat)
    requires i <= |t|
    ensures Collected(t, lab, i)
      == [Entry(i, if i == |t| then lab else t[i].lab)] + if i < |t| then Collected(t, lab, i + 1) else []
  {
  }

  /** Labels without values leave the values as they are. */
  lemma {:induction false} ExtendedVals(t: Thread, es: seq<Entry>)
    ensures Vals(t + Valueless(es)) == Vals(t) && Since(t + Valueless(es)) == Since(t) + |es|
    decreases |es|
  {
    if es == [] {
      assert t + Valueless(es) == t;
    } else {
      var n := |es| - 1;
      var u := t + Valueless(es);
      assert u[..|u| - 1] == t + Valueless(es[..n]);
      ExtendedVals(t, es[..n]);
    }
  }

  /** The labels fed back equal what execution would add. */
  lemma CachedReplays(p: Program, t: Thread, res: seq<Entry>, added: seq<Entry>)
    requires EmittedRun(p, Vals(t), |t| - Since(t), res) && Since(t) <= |res| && added == res[Since(t)..]
    ensures Replays(p, t, added)
  {
    hide Vals, Since, Emit, Valueless, EmittedRun;
    forall n {:trigger added[n]} | 0 <= n < |added|
      ensures added[n] == Entry(|t| + n, Emit(p, t + Valueless(added[..n])))
    {
      ReplayAt(p, t, res, added, n);
    }
  }

  lemma ReplaysPart(p: Program, t: Thread, all: seq<Entry>, added: seq<Entry>)
    requires Replays(p, t, all) && added <= all
    ensures Replays(p, t, added)
  {
    hide Emit, Valueless;
    forall n {:trigger added[n]} | 0 <= n < |added|
      ensures added[n] == Entry(|t| + n, Emit(p, t + Valueless(added[..n])))
    {
      assert added[..n] == all[..n] && added[n] == all[n];
    }
  }

  lemma ReplayAt(p: Program, t: Thread, res: seq<Entry>, added: seq<Entry>, n: nat)
    requires EmittedRun(p, Vals(t), |t| - Since(t), res) && Since(t) <= |res| && added == res[Since(t)..] && n < |added|
    ensures added[n] == Entry(|t| + n, Emit(p, t + Valueless(added[..n])))
  {
    hide Vals, Since, Emit, Valueless;
    assert Emitted(p, Vals(t), |t| - Since(t), res, Since(t) + n);
    NextEmitted(p, t, added[..n]);
  }

  lemma NextEmitted(p: Program, t: Thread, es: seq<Entry>)
    ensures Emit(p, t + Valueless(es)) == p(Vals(t), Since(t) + |es|)
  {
    hide Vals, Since, Valueless;
    ExtendedVals(t, es);
  }
}
