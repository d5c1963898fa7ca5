/** The vector clocks of src/DepView.cpp and src/DepView.hpp, against the set of events that a
    clock stands for: all events of each thread up to the latest seen, except for its holes. */
module DepViews {
  import opened Events
  import opened Lists

  // ----- the clock's data

  function MaxAt(max: seq<nat>, t: nat): nat {
    if t < |max| then max[t] else 0
  }

  function HolesAt(holes: seq<set<nat>>, t: nat): set<nat> {
    if t < |holes| then holes[t] else {}
  }

  function GrownMax(max: seq<nat>, n: nat): (r: seq<nat>)
    ensures |r| == (if |max| < n then n else |max|) && max <= r
    ensures forall t {:trigger r[t]} :: |max| <= t < |r| ==> r[t] == 0
    decreases n - |max|
  {
    if |max| < n then GrownMax(max + [0], n) else max
  }

  function GrownHoles(holes: seq<set<nat>>, n: nat): (r: seq<set<nat>>)
    ensures |r| == (if |holes| < n then n else |holes|) && holes <= r
    ensures forall t {:trigger r[t]} :: |holes| <= t < |r| ==> r[t] == {}
    decreases n - |holes|
  {
    if |holes| < n then GrownHoles(holes + [{}], n) else holes
  }

  /** view_.setMax: the map grows to hold the thread. */
  function MaxSet(max: seq<nat>, e: Event): seq<nat> {
    GrownMax(max, e.thread + 1)[e.thread := e.index]
  }

  function HolesSet(holes: seq<set<nat>>, t: nat, hs: set<nat>): seq<set<nat>> {
    GrownHoles(holes, t + 1)[t := hs]
  }

  lemma MaxSetAt(max: seq<nat>, e: Event, t: nat)
    ensures MaxAt(MaxSet(max, e), t) == if t == e.thread then e.index else MaxAt(max, t)
    ensures |MaxSet(max, e)| == if |max| < e.thread + 1 then e.thread + 1 else |max|
  {
  }

  lemma HolesSetAt(holes: seq<set<nat>>, u: nat, hs: set<nat>, t: nat)
    ensures HolesAt(HolesSet(holes, u, hs), t) == if t == u then hs else HolesAt(holes, t)
    ensures |HolesSet(holes, u, hs)| == if |holes| < u + 1 then u + 1 else |holes|
  {
  }

  /** lo, lo + 1, ..., hi - 1 */
  function Between(lo: nat, hi: nat): (r: set<nat>)
    ensures forall i {:trigger i in r} :: i in r <==> lo <= i < hi
    decreases hi
  {
    if lo < hi then Between(lo, hi - 1) + {hi - 1} else {}
  }

  // ----- what the clock contains

  predicate In(max: seq<nat>, holes: seq<set<nat>>, e: Event) {
    e.index <= MaxAt(max, e.thread) && (e.index == 0 || (e.thread < |holes| && e.index !in holes[e.thread]))
  }

  /** Holes are at or below the latest event of their thread. */
  ghost predicate HolesBelowMax(max: seq<nat>, holes: seq<set<nat>>) {
    |max| <= |holes| && forall t, h {:trigger h in HolesAt(holes, t)} :: h in HolesAt(holes, t) ==> h <= MaxAt(max, t)
  }

  lemma InIs(max: seq<nat>, holes: seq<set<nat>>, e: Event)
    requires |max| <= |holes|
    ensures In(max, holes, e)
      <==> e.index <= MaxAt(max, e.thread) && (e.index == 0 || e.index !in HolesAt(holes, e.thread))
  {
  }

  // ----- what the operations do to the data

  function HoleAdded(holes: seq<set<nat>>, e: Event): seq<set<nat>> {
    HolesSet(holes, e.thread, HolesAt(holes, e.thread) + {e.index})
  }

  function HoleRemoved(holes: seq<set<nat>>, e: Event): seq<set<nat>> {
    HolesSet(holes, e.thread, HolesAt(holes, e.thread) - {e.index})
  }

  function RangeAdded(holes: seq<set<nat>>, t: nat, lo: nat, hi: nat): seq<set<nat>> {
    if lo < hi then HolesSet(holes, t, HolesAt(holes, t) + Between(lo, hi)) else holes
  }

  function RangeRemoved(holes: seq<set<nat>>, t: nat, lo: nat, hi: nat): seq<set<nat>> {
    if lo < hi then HolesSet(holes, t, HolesAt(holes, t) - Between(lo, hi)) else holes
  }

  lemma RangeAddedStep(holes: seq<set<nat>>, t: nat, lo: nat, i: nat)
    requires lo <= i
    ensures HoleAdded(RangeAdded(holes, t, lo, i), Event(t, i)) == RangeAdded(holes, t, lo, i + 1)
  {
    var was := HolesAt(holes, t);
    hide HolesSet, HolesAt;
    assert Between(lo, i + 1) == Between(lo, i) + {i};
    if lo < i {
      HolesSetTwice(holes, t, was + Between(lo, i), was + Between(lo, i + 1));
      assert was + Between(lo, i) + {i} == was + Between(lo, i + 1);
    } else {
      assert was + {i} == was + Between(lo, i + 1);
    }
  }

  lemma RangeRemovedStep(holes: seq<set<nat>>, t: nat, lo: nat, i: nat)
    requires lo <= i
    ensures HoleRemoved(RangeRemoved(holes, t, lo, i), Event(t, i)) == RangeRemoved(holes, t, lo, i + 1)
  {
    var was := HolesAt(holes, t);
    hide HolesSet, HolesAt;
    assert Between(lo, i + 1) == Between(lo, i) + {i};
    if lo < i {
      HolesSetTwice(holes, t, was - Between(lo, i), was - Between(lo, i + 1));
      assert was - Between(lo, i) - {i} == was - Between(lo, i + 1);
    } else {
      assert was - {i} == was - Between(lo, i + 1);
    }
  }

  lemma HolesSetTwice(holes: seq<set<nat>>, t: nat, a: set<nat>, b: set<nat>)
    ensures HolesSet(HolesSet(holes, t, a), t, b) == HolesSet(holes, t, b)
    ensures HolesAt(HolesSet(holes, t, a), t) == a
  {
  }

  lemma RangeAddedAt(holes: seq<set<nat>>, u: nat, lo: nat, hi: nat, t: nat)
    ensures |RangeAdded(holes, u, lo, hi)| >= |holes|
    ensures HolesAt(RangeAdded(holes, u, lo, hi), t)
      == if t == u then HolesAt(holes, t) + Between(lo, hi) else HolesAt(holes, t)
  {
    hide HolesSet, HolesAt;
    HolesSetAt(holes, u, HolesAt(holes, u) + Between(lo, hi), t);
  }

  lemma RangeRemovedAt(holes: seq<set<nat>>, u: nat, lo: nat, hi: nat, t: nat)
    ensures |RangeRemoved(holes, u, lo, hi)| >= |holes|
    ensures HolesAt(RangeRemoved(holes, u, lo, hi), t)
      == if t == u then HolesAt(holes, t) - Between(lo, hi) else HolesAt(holes, t)
  {
    hide HolesSet, HolesAt;
    HolesSetAt(holes, u, HolesAt(holes, u) - Between(lo, hi), t);
  }

  lemma GrownHolesAt(holes: seq<set<nat>>, n: nat, t: nat)
    ensures HolesAt(GrownHoles(holes, n), t) == HolesAt(holes, t)
  {
  }

  /** One clock of a thread merged into another: what neither misses. */
  function MergedHoles(m: nat, hs: set<nat>, n: nat, gs: set<nat>): set<nat> {
    hs * gs + if m < n then gs - Between(0, m + 1) else hs - Between(0, n + 1)
  }

  // ----- what they do to the contained events

  /** updateIdx adds e and nothing else. */
  lemma UpdateIdxAdds(max: seq<nat>, holes: seq<set<nat>>, e: Event, max': seq<nat>, holes': seq<set<nat>>)
    requires HolesBelowMax(max, holes)
    requires
      if e.index > MaxAt(max, e.thread) then
        && max' == MaxSet(max, e)
        && holes' == RangeAdded(GrownHoles(holes, e.thread + 1), e.thread, MaxAt(max, e.thread) + 1, e.index)
      else max' == max && holes' == HoleRemoved(holes, e)
    ensures HolesBelowMax(max', holes')
    ensures forall d :: In(max', holes', d) <==> In(max, holes, d) || d == e
  {
    hide HolesSet, HolesAt, MaxSet, MaxAt, RangeAdded, In;
    MaxSetAt(max, e, 0);
    HolesSetAt(holes, e.thread, HolesAt(holes, e.thread) - {e.index}, 0);
    var grown := GrownHoles(holes, e.thread + 1);
    RangeAddedAt(grown, e.thread, MaxAt(max, e.thread) + 1, e.index, 0);
    forall t
      ensures MaxAt(max', t) == if t == e.thread && e.index > MaxAt(max, t) then e.index else MaxAt(max, t)
      ensures HolesAt(holes', t) ==
        if t != e.thread then HolesAt(holes, t)
        else if e.index > MaxAt(max, t) then HolesAt(holes, t) + Between(MaxAt(max, t) + 1, e.index)
        else HolesAt(holes, t) - {e.index}
    {
      MaxSetAt(max, e, t);
      HolesSetAt(holes, e.thread, HolesAt(holes, e.thread) - {e.index}, t);
      GrownHolesAt(holes, e.thread + 1, t);
      RangeAddedAt(grown, e.thread, MaxAt(max, e.thread) + 1, e.index, t);
    }
    forall d ensures In(max', holes', d) <==> In(max, holes, d) || d == e {
      InIs(max, holes, d);
      InIs(max', holes', d);
    }
  }

  /** setMax drops the later events of e's thread and adds e. */
  lemma SetMaxDropsLater(max: seq<nat>, holes: seq<set<nat>>, e: Event, max': seq<nat>, holes': seq<set<nat>>)
    requires HolesBelowMax(max, holes) && max' == MaxSet(max, e)
    requires
      var grown := if e.thread >= |max| then GrownHoles(holes, e.thread + 1) else holes;
      var was := MaxAt(max, e.thread);
      holes' == if was < e.index then RangeAdded(grown, e.thread, was + 1, e.index)
        else RangeRemoved(grown, e.thread, e.index, was + 1)
    ensures HolesBelowMax(max', holes')
    ensures forall d ::
      In(max', holes', d) <==> (In(max, holes, d) && (d.thread == e.thread ==> d.index <= e.index)) || d == e
  {
    hide HolesSet, HolesAt, MaxSet, MaxAt, RangeAdded, RangeRemoved, In;
    var was := MaxAt(max, e.thread);
    var grown := if e.thread >= |max| then GrownHoles(holes, e.thread + 1) else holes;
    MaxSetAt(max, e, 0);
    RangeAddedAt(grown, e.thread, was + 1, e.index, 0);
    RangeRemovedAt(grown, e.thread, e.index, was + 1, 0);
    forall t
      ensures MaxAt(max', t) == if t == e.thread then e.index else MaxAt(max, t)
      ensures HolesAt(holes', t) ==
        if t != e.thread then HolesAt(holes, t)
        else if was < e.index then HolesAt(holes, t) + Between(was + 1, e.index)
        else HolesAt(holes, t) - Between(e.index, was + 1)
    {
      MaxSetAt(max, e, t);
      GrownHolesAt(holes, e.thread + 1, t);
      RangeAddedAt(grown, e.thread, was + 1, e.index, t);
      RangeRemovedAt(grown, e.thread, e.index, was + 1, t);
    }
    forall d
      ensures In(max', holes', d) <==> (In(max, holes, d) && (d.thread == e.thread ==> d.index <= e.index)) || d == e
    {
      InIs(max, holes, d);
      InIs(max', holes', d);
    }
  }

  /** Adding holes removes exactly the range's events (but never a thread's first). */
  lemma RangeAddedRemoves(max: seq<nat>, holes: seq<set<nat>>, t: nat, lo: nat, hi: nat)
    requires HolesBelowMax(max, holes) && hi <= MaxAt(max, t) + 1
    ensures HolesBelowMax(max, RangeAdded(holes, t, lo, hi))
    ensures forall d :: (In(max, RangeAdded(holes, t, lo, hi), d)
      <==> In(max, holes, d) && !(d.thread == t && d.index > 0 && lo <= d.index < hi))
  {
    hide HolesSet, HolesAt, MaxAt, RangeAdded, In;
    var holes' := RangeAdded(holes, t, lo, hi);
    RangeAddedAt(holes, t, lo, hi, 0);
    forall u ensures HolesAt(holes', u) == if u == t then HolesAt(holes, u) + Between(lo, hi) else HolesAt(holes, u) {
      RangeAddedAt(holes, t, lo, hi, u);
    }
    forall d
      ensures In(max, holes', d) <==> In(max, holes, d) && !(d.thread == t && d.index > 0 && lo <= d.index < hi)
    {
      InIs(max, holes, d);
      InIs(max, holes', d);
    }
  }

  /** Removing holes adds exactly the range's events up to the thread's latest. */
  lemma RangeRemovedAdds(max: seq<nat>, holes: seq<set<nat>>, t: nat, lo: nat, hi: nat)
    requires HolesBelowMax(max, holes)
    ensures HolesBelowMax(max, RangeRemoved(holes, t, lo, hi))
    ensures forall d :: (In(max, RangeRemoved(holes, t, lo, hi), d)
      <==> In(max, holes, d) || (d.thread == t && lo <= d.index < hi && d.index <= MaxAt(max, t)))
  {
    hide HolesSet, HolesAt, MaxAt, RangeRemoved, In;
    var holes' := RangeRemoved(holes, t, lo, hi);
    RangeRemovedAt(holes, t, lo, hi, 0);
    forall u ensures HolesAt(holes', u) == if u == t then HolesAt(holes, u) - Between(lo, hi) else HolesAt(holes, u) {
      RangeRemovedAt(holes, t, lo, hi, u);
    }
    forall d
      ensures In(max, holes', d)
        <==> In(max, holes, d) || (d.thread == t && lo <= d.index < hi && d.index <= MaxAt(max, t))
    {
      InIs(max, holes, d);
      InIs(max, holes', d);
    }
  }

  /** One hole is a range of one. */
  lemma OneHole(holes: seq<set<nat>>, e: Event)
    ensures HoleAdded(holes, e) == RangeAdded(holes, e.thread, e.index, e.index + 1)
    ensures HoleRemoved(holes, e) == RangeRemoved(holes, e.thread, e.index, e.index + 1)
  {
    hide HolesSet, HolesAt;
    assert Between(e.index, e.index + 1) == {e.index};
  }

  class DepView {
    var max: seq<nat>
    var holes: seq<set<nat>>

    ghost predicate Valid()
      reads this
    {
      HolesBelowMax(max, holes)
    }

    /** The clock as the set of events it contains. */
    ghost function Contained(): iset<Event>
      reads this
    {
      iset e | In(max, holes, e)
    }

    constructor ()
      ensures Valid() && Contained() == iset e: Event | e.index == 0
    {
      max, holes := [], [];
    }

    function GetMax(t: nat): nat
      reads this
    {
      MaxAt(max, t)
    }

    predicate Contains(e: Event)
      reads this
      ensures Contains(e) <==> e in Contained()
    {
      e.index <= GetMax(e.thread) && (e.index == 0 || (e.thread < |holes| && e.index !in holes[e.thread]))
    }

    method AddHole(e: Event)
      requires e.index <= GetMax(e.thread)
      modifies this`holes
      ensures holes == HoleAdded(old(holes), e)
      ensures old(Valid()) ==> Valid() && Contained() == iset d | d in old(Contained()) && (d == e ==> e.index == 0)
    {
      ghost var was := holes;
      if Valid() { OneHole(was, e); RangeAddedRemoves(max, was, e.thread, e.index, e.index + 1); }
      holes := GrownHoles(holes, e.thread + 1);
      holes := holes[e.thread := holes[e.thread] + {e.index}];
      assert holes == HoleAdded(was, e);
    }

    method RemoveHole(e: Event)
      modifies this`holes
      ensures holes == HoleRemoved(old(holes), e)
      ensures old(Valid())
        ==> Valid() && Contained() == old(Contained()) + if e.index <= GetMax(e.thread) then iset{e} else iset{}
    {
      ghost var was := holes;
      if Valid() { OneHole(was, e); RangeRemovedAdds(max, was, e.thread, e.index, e.index + 1); }
      holes := GrownHoles(holes, e.thread + 1);
      holes := holes[e.thread := holes[e.thread] - {e.index}];
      assert holes == HoleRemoved(was, e);
    }

    method AddHolesInRange(start: Event, endIdx: nat)
      requires endIdx <= GetMax(start.thread) + 1
      modifies this`holes
      ensures holes == RangeAdded(old(holes), start.thread, start.index, endIdx)
      ensures old(Valid()) ==> Valid()
      ensures old(Valid()) ==>
        Contained() == iset d | d in old(Contained())
          && !(d.thread == start.thread && d.index > 0 && start.index <= d.index < endIdx)
    {
      if Valid() { RangeAddedRemoves(max, holes, start.thread, start.index, endIdx); }
      hide RangeAdded, HoleAdded;
      EmptyRange(holes, start.thread, start.index, start.index);
      var i := start.index;
      while i < endIdx
        invariant start.index <= i && (if start.index < endIdx then i <= endIdx else i == start.index)
        invariant holes == RangeAdded(old(holes), start.thread, start.index, i)
      {
        AddHole(Event(start.thread, i));
        RangeAddedStep(old(holes), start.thread, start.index, i);
        i := i + 1;
      }
      if start.index >= endIdx { EmptyRange(old(holes), start.thread, start.index, endIdx); }
    }

    method RemoveHolesInRange(start: Event, endIdx: nat)
      modifies this`holes
      ensures holes == RangeRemoved(old(holes), start.thread, start.index, endIdx)
      ensures old(Valid()) ==> Valid()
      ensures old(Valid()) ==>
        Contained() == old(Contained()) + iset d: Event | d.thread == start.thread && start.index <= d.index < endIdx
          && d.index <= GetMax(start.thread)
    {
      if Valid() { RangeRemovedAdds(max, holes, start.thread, start.index, endIdx); }
      hide RangeRemoved, HoleRemoved;
      EmptyRange(holes, start.thread, start.index, start.index);
      var i := start.index;
      while i < endIdx
        invariant start.index <= i && (if start.index < endIdx then i <= endIdx else i == start.index)
        invariant holes == RangeRemoved(old(holes), start.thread, start.index, i)
      {
        RemoveHole(Event(start.thread, i));
        RangeRemovedStep(old(holes), start.thread, start.index, i);
        i := i + 1;
      }
      if start.index >= endIdx { EmptyRange(old(holes), start.thread, start.index, endIdx); }
    }

    /** Adds e and nothing else. */
    method UpdateIdx(e: Event)
      requires Valid()
      modifies this
      ensures Valid() && Contained() == old(Contained()) + iset{e}
    {
      hide In, HolesBelowMax, MaxSet, RangeAdded, HoleRemoved;
      ghost var max0, holes0 := max, holes;
      var was := GetMax(e.thread);
      if e.index > was {
        max := MaxSet(max, e);
        holes := GrownHoles(holes, e.thread + 1);
        MaxSetAt(max0, e, e.thread);
        AddHolesInRange(Event(e.thread, was + 1), e.index);
      } else {
        RemoveHole(e);
      }
      UpdateIdxAdds(max0, holes0, e, max, holes);
    }

    /** Drops the later events of e's thread and adds e. */
    method SetMax(e: Event)
      requires Valid()
      modifies this
      ensures Valid()
      ensures Contained() == (iset d | d in old(Contained()) && (d.thread == e.thread ==> d.index <= e.index)) + iset{e}
    {
      hide In, HolesBelowMax, MaxSet, RangeAdded, RangeRemoved;
      ghost var max0, holes0 := max, holes;
      if e.thread >= |max| { holes := GrownHoles(holes, e.thread + 1); }
      var was := GetMax(e.thread);
      max := MaxSet(max, e);
      MaxSetAt(max0, e, e.thread);
      if was < e.index {
        AddHolesInRange(Event(e.thread, was + 1), e.index);
      } else {
        RemoveHolesInRange(e, was + 1);
      }
      SetMaxDropsLater(max0, holes0, e, max, holes);
    }

    /** Adds everything that v contains, and nothing else. */
    method Update(v: DepView)
      requires Valid() && v.Valid()
      modifies this
      ensures Valid() && Contained() == old(Contained()) + old(v.Contained())
    {
      hide In, Merged, MergedHoles;
      ghost var max0, holes0, max1, holes1 := max, holes, v.max, v.holes;
      NothingMerged(max0, holes0, max1, holes1);
      var size := |v.max|;
      if size > 0 {
        for i := 0 to size
          invariant Merged(max0, holes0, max1, holes1, i, max, holes)
          invariant v != this ==> v.max == max1 && v.holes == holes1
          invariant v == this ==> max == max0 && holes == holes0 && max1 == max0 && holes1 == holes0
        {
          ghost var was, wasHoles := max, holes;
          MergedHere(max0, holes0, max1, holes1, i, max, holes, i);
          if v == this { SelfMerge(holes, i, GetMax(i)); }
          var m, n := GetMax(i), v.GetMax(i);
          var isec := HolesAt(holes, i) * HolesAt(v.holes, i);
          if m < n {
            isec := isec + (HolesAt(v.holes, i) - Between(0, m + 1));
            max := MaxSet(max, Event(i, n));
          } else {
            isec := isec + (HolesAt(holes, i) - Between(0, n + 1));
          }
          MergedIs(m, HolesAt(holes, i), n, HolesAt(v.holes, i), isec);
          holes := HolesSet(holes, i, isec);
          MergeStep(max0, holes0, max1, holes1, i, was, wasHoles, max, holes);
        }
      }
      MergeIsUnion(max0, holes0, max1, holes1, max, holes);
    }
  }

  // ----- update

  /** Threads 0 to n - 1 of the clock (max2, holes2) merged into (max, holes). */
  ghost predicate Merged(max: seq<nat>, holes: seq<set<nat>>, max2: seq<nat>, holes2: seq<set<nat>>, n: nat,
                         max': seq<nat>, holes': seq<set<nat>>) {
    && |max'| <= |holes'|
    && forall t: nat :: MergedAt(max, holes, max2, holes2, n, max', holes', t)
  }

  ghost predicate MergedAt(max: seq<nat>, holes: seq<set<nat>>, max2: seq<nat>, holes2: seq<set<nat>>, n: nat,
                           max': seq<nat>, holes': seq<set<nat>>, t: nat) {
    && MaxAt(max', t) == (if t < n then Larger(MaxAt(max, t), MaxAt(max2, t)) else MaxAt(max, t))
    && HolesAt(holes', t) ==
        if t < n then MergedHoles(MaxAt(max, t), HolesAt(holes, t), MaxAt(max2, t), HolesAt(holes2, t))
          else HolesAt(holes, t)
  }

  /** Merging is set union. */
  lemma MergeIsUnion(max: seq<nat>, holes: seq<set<nat>>, max2: seq<nat>, holes2: seq<set<nat>>,
                     max': seq<nat>, holes': seq<set<nat>>)
    requires HolesBelowMax(max, holes) && HolesBelowMax(max2, holes2)
    requires Merged(max, holes, max2, holes2, |max2|, max', holes')
    ensures HolesBelowMax(max', holes')
    ensures forall e :: In(max', holes', e) <==> In(max, holes, e) || In(max2, holes2, e)
  {
    hide HolesAt, MaxAt, In;
    forall t, h {:trigger h in HolesAt(holes', t)} | h in HolesAt(holes', t) ensures h <= MaxAt(max', t) {
      assert MergedAt(max, holes, max2, holes2, |max2|, max', holes', t);
    }
    forall e ensures In(max', holes', e) <==> In(max, holes, e) || In(max2, holes2, e) {
      InIs(max, holes, e);
      InIs(max', holes', e);
      InIs(max2, holes2, e);
      assert MergedAt(max, holes, max2, holes2, |max2|, max', holes', e.thread);
      if e.thread >= |max2| { BeyondMax(max2, e.thread); }
    }
  }

  lemma MergedHere(max: seq<nat>, holes: seq<set<nat>>, max2: seq<nat>, holes2: seq<set<nat>>, n: nat,
                   max': seq<nat>, holes': seq<set<nat>>, t: nat)
    requires Merged(max, holes, max2, holes2, n, max', holes')
    ensures MergedAt(max, holes, max2, holes2, n, max', holes', t)
  {
  }

  lemma NothingMerged(max: seq<nat>, holes: seq<set<nat>>, max2: seq<nat>, holes2: seq<set<nat>>)
    requires |max| <= |holes|
    ensures Merged(max, holes, max2, holes2, 0, max, holes)
  {
    hide HolesAt, MaxAt;
    forall t: nat ensures MergedAt(max, holes, max2, holes2, 0, max, holes, t) {}
  }

  /** Thread i is merged next. */
  lemma MergeStep(max: seq<nat>, holes: seq<set<nat>>, max2: seq<nat>, holes2: seq<set<nat>>, i: nat,
                  was: seq<nat>, wasHoles: seq<set<nat>>, max': seq<nat>, holes': seq<set<nat>>)
    requires Merged(max, holes, max2, holes2, i, was, wasHoles)
    requires max' == if MaxAt(max, i) < MaxAt(max2, i) then MaxSet(was, Event(i, MaxAt(max2, i))) else was
    requires holes' == HolesSet(wasHoles, i,
                                MergedHoles(MaxAt(max, i), HolesAt(holes, i), MaxAt(max2, i), HolesAt(holes2, i)))
    ensures Merged(max, holes, max2, holes2, i + 1, max', holes')
  {
    hide HolesAt, MaxAt, MaxSet, HolesSet, MergedHoles;
    var hs := MergedHoles(MaxAt(max, i), HolesAt(holes, i), MaxAt(max2, i), HolesAt(holes2, i));
    MaxSetAt(was, Event(i, MaxAt(max2, i)), i);
    HolesSetAt(wasHoles, i, hs, i);
    var next := i + 1;
    forall t: nat ensures MergedAt(max, holes, max2, holes2, next, max', holes', t)
    {
      assert MergedAt(max, holes, max2, holes2, i, was, wasHoles, t);
      MaxSetAt(was, Event(i, MaxAt(max2, i)), t);
      HolesSetAt(wasHoles, i, hs, t);
    }
  }

  lemma MergedIs(m: nat, hs: set<nat>, n: nat, gs: set<nat>, isec: set<nat>)
    requires isec == hs * gs + if m < n then gs - Between(0, m + 1) else hs - Between(0, n + 1)
    ensures isec == MergedHoles(m, hs, n, gs)
  {
  }

  /** Merging a clock into itself leaves it as it is. */
  lemma SelfMerge(holes: seq<set<nat>>, i: nat, m: nat)
    requires i < |holes|
    ensures MergedHoles(m, HolesAt(holes, i), m, HolesAt(holes, i)) == HolesAt(holes, i)
    ensures HolesSet(holes, i, HolesAt(holes, i)) == holes
  {
  }

  lemma BeyondMax(max: seq<nat>, t: nat)
    requires t >= |max|
    ensures MaxAt(max, t) == 0
  {
  }

  lemma EmptyRange(holes: seq<set<nat>>, t: nat, lo: nat, hi: nat)
    requires lo >= hi
    ensures RangeAdded(holes, t, lo, hi) == holes && RangeRemoved(holes, t, lo, hi) == holes
  {
  }
}
