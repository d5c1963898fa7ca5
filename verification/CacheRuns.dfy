/** The instruction cache over whole runs of the executions that share it. */
module CacheRuns {
  import opened Options
  import opened InstructionCache

  lemma NextConsistent(p: Program, t: Thread, val: Option<Value>)
    requires Consistent(p, t) && (val.Some? <==> Emit(p, t).hasValue)
    ensures Consistent(p, t + [Item(Emit(p, t), val)])
  {
    hide Emit;
    var t' := t + [Item(Emit(p, t), val)];
    assert t'[..|t|] == t;
    forall i {:trigger t'[i]} | 0 <= i < |t'|
      ensures t'[i].lab == Emit(p, t'[..i]) && (t'[i].val.Some? <==> t'[i].lab.hasValue)
    {
      if i < |t| { assert t'[..i] == t[..i] && t'[i] == t[i]; }
    }
  }

  /** Whatever the thread has emitted after its values is cached. */
  predicate Cached(seen: map<seq<Value>, seq<Entry>>, t: Thread) {
    Since(t) == 0 || (Vals(t) in seen && |seen[Vals(t)]| >= Since(t))
  }

  /** So are all its prefixes: what a cut can leave of it. */
  ghost predicate AllCached(seen: map<seq<Value>, seq<Entry>>, t: Thread) {
    forall i {:trigger t[..i]} :: 0 <= i <= |t| ==> Cached(seen, t[..i])
  }

  /** Cutting the thread, caching elsewhere and adding the label just cached keep everything
      the thread has emitted in the cache, so that the cache covers it at the next call. */
  lemma RunKeepsCached(p: Program, seen: map<seq<Value>, seq<Entry>>, more: map<seq<Value>, seq<Entry>>, t: Thread,
                       n: nat, item: Item)
    requires AllCached(seen, t) && Grows(seen, more) && n <= |t|
    ensures AllCached(more, t[..n]) && Covers(more, t[..n])
    ensures Vals(t) in more && |more[Vals(t)]| > Since(t) ==> AllCached(more, t + [item])
  {
    hide Vals, Since;
    forall i {:trigger t[..i]} | 0 <= i <= |t| ensures Cached(more, t[..i]) {
      assert Cached(seen, t[..i]);
    }
    forall i {:trigger t[..n][..i]} | 0 <= i <= n ensures Cached(more, t[..n][..i]) {
      assert t[..n][..i] == t[..i];
    }
    assert t[..n][..n] == t[..n];
    if Vals(t) in more && |more[Vals(t)]| > Since(t) {
      var t' := t + [item];
      NextCached(more, t, item);
      forall i {:trigger t'[..i]} | 0 <= i <= |t'| ensures Cached(more, t'[..i]) {
        if i <= |t| { assert t'[..i] == t[..i]; } else { assert t'[..i] == t'; }
      }
    }
  }

  lemma NextCached(seen: map<seq<Value>, seq<Entry>>, t: Thread, item: Item)
    requires Vals(t) in seen && |seen[Vals(t)]| > Since(t)
    ensures Cached(seen, t + [item])
  {
    var t' := t + [item];
    assert t'[..|t'| - 1] == t;
    if item.val.None? { assert Vals(t') == Vals(t); }
  }

  /** A part of an execution is one. */
  lemma PrefixConsistent(p: Program, t: Thread, n: nat)
    requires Consistent(p, t) && 0 < n <= |t|
    ensures Consistent(p, t[..n])
  {
    hide Emit;
    forall i {:trigger t[..n][i]} | 0 <= i < n
      ensures t[..n][i].lab == Emit(p, t[..n][..i]) && (t[..n][i].val.Some? <==> t[..n][i].lab.hasValue)
    {
      assert t[..n][..i] == t[..i] && t[..n][i] == t[i];
    }
  }

  // ----- runs

  /** Executions of the thread that are kept for exploration, and the cache they share. */
  datatype State = State(threads: seq<Thread>, seen: map<seq<Value>, seq<Entry>>)

  datatype Op =
    | Start(first: Value)
    | Copy(source: nat)
    | Execute(thread: nat, val: Option<Value>)
    | Reread(thread: nat, other: Value)
    | Cut(thread: nat, length: nat)

  /** A new execution, a copy of one, the next label of one (which is cached, whatever value
      it obtains), another value for the last label, or a cut. */
  ghost predicate Step(p: Program, s: State, op: Op, s': State) {
    match op
    case Start(v) => p([], 0).hasValue && s' == s.(threads := s.threads + [[Item(p([], 0), Some(v))]])
    case Copy(i) => i < |s.threads| && s' == s.(threads := s.threads + [s.threads[i]])
    case Execute(i, val) =>
      && i < |s.threads|
      && var t := s.threads[i];
      && (val.Some? <==> Emit(p, t).hasValue)
      && s' == State(s.threads[i := t + [Item(Emit(p, t), val)]], Recorded(s.seen, t, Emit(p, t)))
    case Reread(i, v) =>
      && i < |s.threads| && s.threads[i] != []
      && var t := s.threads[i];
      && t[|t| - 1].val.Some?
      && s' == s.(threads := s.threads[i := t[|t| - 1 := t[|t| - 1].(val := Some(v))]])
    case Cut(i, n) =>
      i < |s.threads| && 0 < n <= |s.threads[i]| && s' == s.(threads := s.threads[i := s.threads[i][..n]])
  }

  ghost predicate Run(p: Program, ss: seq<State>, ops: seq<Op>) {
    && |ss| == |ops| + 1 && ss[0] == State([], map[])
    && forall i {:trigger ops[i]} :: 0 <= i < |ops| ==> Step(p, ss[i], ops[i], ss[i + 1])
  }

  /** The cache is sound, and holds whatever each of the executions has emitted. */
  ghost predicate Invariant(p: Program, s: State) {
    && Sound(p, s.seen)
    && forall i {:trigger s.threads[i]} :: 0 <= i < |s.threads| ==> Covered(p, s.seen, s.threads[i])
  }

  /** What CacheEventLabel needs, now and after any cut. */
  ghost predicate Covered(p: Program, seen: map<seq<Value>, seq<Entry>>, t: Thread) {
    Consistent(p, t) && AllCached(seen, t) && Covers(seen, t)
  }

  lemma StartCovered(p: Program, seen: map<seq<Value>, seq<Entry>>, v: Value)
    requires p([], 0).hasValue
    ensures Covered(p, seen, [Item(p([], 0), Some(v))])
  {
    var t := [Item(p([], 0), Some(v))];
    assert t[..0] == [] && t[..1] == t;
  }

  lemma StillCovered(p: Program, seen: map<seq<Value>, seq<Entry>>, more: map<seq<Value>, seq<Entry>>, t: Thread)
    requires Covered(p, seen, t) && Grows(seen, more)
    ensures Covered(p, more, t)
  {
    hide Consistent, Covers, AllCached, Grows;
    RunKeepsCached(p, seen, more, t, |t|, Item(Emit(p, t), None));
    assert t[..|t|] == t;
  }

  lemma CutCovered(p: Program, seen: map<seq<Value>, seq<Entry>>, t: Thread, n: nat)
    requires Covered(p, seen, t) && 0 < n <= |t|
    ensures Covered(p, seen, t[..n])
  {
    hide Consistent, Covers, AllCached;
    PrefixConsistent(p, t, n);
    RunKeepsCached(p, seen, seen, t, n, Item(Emit(p, t), None));
  }

  lemma RereadCovered(p: Program, seen: map<seq<Value>, seq<Entry>>, t: Thread, v: Value)
    requires Covered(p, seen, t) && t[|t| - 1].val.Some?
    ensures Covered(p, seen, t[|t| - 1 := t[|t| - 1].(val := Some(v))])
  {
    hide Emit, Vals;
    var n := |t| - 1;
    var u := t[n := t[n].(val := Some(v))];
    forall i | 0 <= i <= n ensures u[..i] == t[..i] {}
    forall i {:trigger u[i]} | 0 <= i < |u|
      ensures u[i].lab == Emit(p, u[..i]) && (u[i].val.Some? <==> u[i].lab.hasValue)
    {
      assert t[i].lab == Emit(p, t[..i]);
    }
    forall i {:trigger u[..i]} | 0 <= i <= |u| ensures Cached(seen, u[..i]) {
      if i <= n { assert Cached(seen, t[..i]); } else { assert u[..i] == u; }
    }
  }

  lemma ExecuteCovered(p: Program, seen: map<seq<Value>, seq<Entry>>, t: Thread, val: Option<Value>)
    requires Sound(p, seen) && Covered(p, seen, t) && (val.Some? <==> Emit(p, t).hasValue)
    ensures var more := Recorded(seen, t, Emit(p, t));
      Sound(p, more) && Grows(seen, more) && Covered(p, more, t + [Item(Emit(p, t), val)])
  {
    hide Consistent, AllCached, Grows, Sound, Recorded, Emit, Vals, Since, Covers;
    RecordKeepsSound(p, seen, t);
    NextConsistent(p, t, val);
    var more := Recorded(seen, t, Emit(p, t));
    var t' := t + [Item(Emit(p, t), val)];
    RunKeepsCached(p, seen, more, t, |t|, Item(Emit(p, t), val));
    RunKeepsCached(p, more, more, t', |t'|, Item(Emit(p, t), val)) by { GrowsItself(more); }
    assert t'[..|t'|] == t';
  }

  lemma GrowsItself(seen: map<seq<Value>, seq<Entry>>)
    ensures Grows(seen, seen)
  {
  }

  lemma StepKeepsInvariant(p: Program, s: State, op: Op, s': State)
    requires Invariant(p, s) && Step(p, s, op, s')
    ensures Invariant(p, s')
  {
    hide Covered, Sound, Recorded, Emit, Grows;
    match op {
      case Start(v) => StartCovered(p, s.seen, v);
      case Copy(i) =>
      case Execute(i, val) =>
        ExecuteCovered(p, s.seen, s.threads[i], val);
        forall j | 0 <= j < |s.threads|
          ensures Covered(p, s'.seen, s.threads[j])
        {
          StillCovered(p, s.seen, s'.seen, s.threads[j]);
        }
      case Reread(i, v) => RereadCovered(p, s.seen, s.threads[i], v);
      case Cut(i, n) => CutCovered(p, s.seen, s.threads[i], n);
    }
  }

  /** In every state of every run the cache is sound, and it covers each execution, so that
      CacheEventLabel may be called for its next label. */
  lemma {:induction false} RunKeepsInvariant(p: Program, ss: seq<State>, ops: seq<Op>, i: nat)
    requires Run(p, ss, ops) && i < |ss|
    ensures Invariant(p, ss[i])
  {
    hide Invariant, Step;
    if i > 0 {
      RunKeepsInvariant(p, ss, ops, i - 1);
      assert Step(p, ss[i - 1], ops[i - 1], ss[i]);
      StepKeepsInvariant(p, ss[i - 1], ops[i - 1], ss[i]);
    } else {
      NothingYet(p);
    }
  }

  lemma NothingYet(p: Program)
    ensures Invariant(p, State([], map[]))
  {
  }
}
