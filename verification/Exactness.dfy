/** The reference lists are complete, free of repetitions, and in lexicographic order. */
module Exactness {
  import opened Lists
  import opened Enumeration

  /** x stands before y in s. */
  ghost predicate Before<T>(s: seq<T>, x: T, y: T) {
    exists i, j :: 0 <= i < j < |s| && s[i] == x && s[j] == y
  }

  /** Lexicographic order of sequences over the elements of s, by their positions in s. */
  ghost predicate LexLess<T>(s: seq<T>, u: seq<T>, v: seq<T>) {
    u != [] && v != [] && if u[0] == v[0] then LexLess(s, u[1..], v[1..]) else Before(s, u[0], v[0])
  }

  ghost predicate Increasing<T>(s: seq<T>, ts: seq<seq<T>>) {
    forall i, j :: 0 <= i < j < |ts| ==> LexLess(s, ts[i], ts[j])
  }

  lemma {:induction false} LexIrreflexive<T>(s: seq<T>, u: seq<T>)
    ensures !LexLess(s, u, u)
    decreases |u|
  {
    if u != [] { LexIrreflexive(s, u[1..]); }
  }

  lemma IncreasingDistinct<T>(s: seq<T>, ts: seq<seq<T>>)
    requires Increasing(s, ts)
    ensures Distinct(ts)
  {
    forall i, j | 0 <= i < j < |ts| ensures ts[i] != ts[j] { LexIrreflexive(s, ts[i]); }
  }

  /** Inserting an element into s changes no comparison. */
  lemma {:induction false} LexWithout<T>(s: seq<T>, k: nat, u: seq<T>, v: seq<T>)
    requires k < |s| && LexLess(Without(s, k), u, v)
    ensures LexLess(s, u, v)
    decreases |u|
  {
    if u[0] == v[0] {
      LexWithout(s, k, u[1..], v[1..]);
    } else {
      var w := Without(s, k);
      var i, j :| 0 <= i < j < |w| && w[i] == u[0] && w[j] == v[0];
      assert s[if i < k then i else i + 1] == u[0] && s[if j < k then j else j + 1] == v[0];
    }
  }

  // ----- permutations

  lemma {:induction false} PermsComplete<T>(s: seq<T>, t: seq<T>)
    requires multiset(t) == multiset(s)
    ensures t in Perms(s)
    decreases |s|
  {
    SameLength(s, t);
    if s != [] {
      assert t[0] in multiset(t);
      var p :| 0 <= p < |s| && s[p] == t[0];
      MultisetWithout(s, p);
      MultisetCons(t);
      assert multiset(Without(s, p)) == multiset(s) - multiset{s[p]} == multiset(t[1..]);
      PermsComplete(Without(s, p), t[1..]);
      var ts := Perms(Without(s, p));
      var i :| 0 <= i < |ts| && ts[i] == t[1..];
      PrependAt(s[p], ts, i);
      assert t == [s[p]] + t[1..];
      PermsFromMember(s, 0, p, t);
    }
  }

  lemma {:induction false} PermsFromMember<T>(s: seq<T>, q: nat, p: nat, t: seq<T>)
    requires q <= p < |s| && t in Prepend(s[p], Perms(Without(s, p)))
    ensures t in PermsFrom(s, q)
    decreases p - q
  {
    if q < p { PermsFromMember(s, q + 1, p, t); }
  }

  lemma {:induction false} PermsIncreasing<T>(s: seq<T>)
    requires Distinct(s)
    ensures Increasing(s, Perms(s))
    decreases |s|, |s| + 1
  {
    if s != [] { PermsFromIncreasing(s, 0); }
  }

  lemma {:induction false} PermsFromIncreasing<T>(s: seq<T>, p: nat)
    requires Distinct(s) && p <= |s|
    ensures Increasing(s, PermsFrom(s, p))
    ensures forall t <- PermsFrom(s, p) :: t != [] && t[0] in s[p..]
    decreases |s|, |s| - p
  {
    if p < |s| {
      var ts := Perms(Without(s, p));
      var x, y := Prepend(s[p], ts), PermsFrom(s, p + 1);
      PermsIncreasing(Without(s, p));
      PermsFromIncreasing(s, p + 1);
      forall i | 0 <= i < |x| ensures x[i] != [] && x[i][0] == s[p] && x[i][1..] == ts[i] { PrependAt(s[p], ts, i); }
      forall i, j | 0 <= i < j < |x + y| ensures LexLess(s, (x + y)[i], (x + y)[j]) {
        if j < |x| {
          LexWithout(s, p, ts[i], ts[j]);
        } else if i < |x| {
          assert y[j - |x|] in y;
          var k :| 0 <= k < |s[p + 1..]| && s[p + 1..][k] == y[j - |x|][0];
          assert s[p + 1 + k] == y[j - |x|][0];
        } else {
          assert LexLess(s, y[i - |x|], y[j - |x|]);
        }
      }
      forall t | t in x + y ensures t != [] && t[0] in s[p..] {
        if t in x {
          assert s[p..][0] == s[p];
        } else {
          var k :| 0 <= k < |s[p + 1..]| && s[p + 1..][k] == t[0];
          assert s[p..][k + 1] == t[0];
        }
      }
    }
  }

  /** The permutations of distinct elements: each arrangement exactly once, in order. */
  lemma PermsExact<T>(s: seq<T>, t: seq<T>)
    requires Distinct(s)
    ensures t in Perms(s) <==> multiset(t) == multiset(s)
    ensures Increasing(s, Perms(s)) && Distinct(Perms(s))
  {
    PermsArrange(s);
    if multiset(t) == multiset(s) { PermsComplete(s, t); }
    PermsIncreasing(s);
    IncreasingDistinct(s, Perms(s));
  }

  // ----- splits

  function Chosen<T>(ps: seq<Split<T>>): (r: seq<seq<T>>)
    ensures |r| == |ps|
    ensures forall i :: 0 <= i < |ps| ==> r[i] == ps[i].chosen
  {
    if ps == [] then [] else [ps[0].chosen] + Chosen(ps[1..])
  }

  lemma {:induction false} SplitsPart<T>(s: seq<T>, k: nat, i: nat)
    requires i < |Splits(s, k)|
    ensures multiset(Splits(s, k)[i].chosen) + multiset(Splits(s, k)[i].rest) == multiset(s)
    decreases |s|
  {
    hide Splits;
    if k == 0 || k >= |s| {
      SplitsEnds(s, k);
    } else {
      var x := Splits(s[1..], k - 1);
      SplitsCases(s, k, i);
      MultisetCons(s);
      if i < |x| { SplitsPart(s[1..], k - 1, i); } else { SplitsPart(s[1..], k, i - |x|); }
    }
  }

  /** Every choice of k elements occurs. */
  lemma {:induction false} SplitsComplete<T>(s: seq<T>, k: nat, m: multiset<T>) returns (i: nat)
    requires m <= multiset(s) && |m| == k
    ensures i < |Splits(s, k)| && multiset(Splits(s, k)[i].chosen) == m
    decreases |s|
  {
    var l := multiset(s) - m;
    assert multiset(s) == m + l;
    assert |multiset(s)| == |s|;
    if k == 0 {
      i := 0;
    } else if k == |s| {
      i := 0;
      assert |l| == 0;
    } else {
      i := SplitsCompleteStep(s, k, m);
    }
  }

  lemma {:induction false} SplitsCompleteStep<T>(s: seq<T>, k: nat, m: multiset<T>) returns (i: nat)
    requires m <= multiset(s) && |m| == k && 0 < k < |s|
    ensures i < |Splits(s, k)| && multiset(Splits(s, k)[i].chosen) == m
    decreases |s|, 0
  {
    hide Splits;
    MultisetCons(s);
    SplitsCount(s, k);
    if s[0] in m {
      i := SplitsComplete(s[1..], k - 1, m - multiset{s[0]});
      SplitsCases(s, k, i);
    } else {
      var j := SplitsComplete(s[1..], k, m);
      i := |Splits(s[1..], k - 1)| + j;
      SplitsCases(s, k, i);
    }
  }

  lemma SplitsTrivial<T>(s: seq<T>, k: nat)
    requires k <= |s| && (k == 0 || k == |s|)
    ensures |Splits(s, k)| == 1
  {
  }

  lemma SplitsCount<T>(s: seq<T>, k: nat)
    requires 0 < k < |s|
    ensures |Splits(s, k)| == |Splits(s[1..], k - 1)| + |Splits(s[1..], k)|
  {
  }

  lemma {:induction false} SplitsIncreasing<T>(s: seq<T>, k: nat)
    requires Distinct(s) && k <= |s|
    ensures Increasing(s, Chosen(Splits(s, k)))
  {
    hide Splits, LexLess;
    var ps := Splits(s, k);
    forall i, j | 0 <= i < j < |ps| ensures LexLess(s, Chosen(ps)[i], Chosen(ps)[j]) {
      SplitsOrdered(s, k, i, j);
    }
  }

  lemma {:induction false} SplitsOrdered<T>(s: seq<T>, k: nat, i: nat, j: nat)
    requires Distinct(s) && k <= |s| && i < j < |Splits(s, k)|
    ensures LexLess(s, Splits(s, k)[i].chosen, Splits(s, k)[j].chosen)
    decreases |s|
  {
    hide Splits, Before;
    if k == 0 || k == |s| {
      SplitsTrivial(s, k);
    } else {
      var x, y := Splits(s[1..], k - 1), Splits(s[1..], k);
      SplitsCases(s, k, i);
      SplitsCases(s, k, j);
      assert Without(s, 0) == s[1..];
      if j < |x| {
        SplitsOrdered(s[1..], k - 1, i, j);
        LexWithout(s, 0, x[i].chosen, x[j].chosen);
      } else if i < |x| {
        HeadBefore(s, k, j - |x|);
      } else {
        SplitsOrdered(s[1..], k, i - |x|, j - |x|);
        LexWithout(s, 0, y[i - |x|].chosen, y[j - |x|].chosen);
      }
    }
  }

  lemma HeadBefore<T>(s: seq<T>, k: nat, j: nat)
    requires Distinct(s) && 0 < k < |s| && j < |Splits(s[1..], k)|
    ensures var c := Splits(s[1..], k)[j].chosen;
      c != [] && c[0] != s[0] && Before(s, s[0], c[0])
  {
    hide Splits;
    var y := Splits(s[1..], k);
    SplitsLengths(s[1..], k);
    SplitsPart(s[1..], k, j);
    assert y[j] in y;
    assert y[j].chosen[0] in multiset(s[1..]);
    var e :| 0 <= e < |s[1..]| && s[1..][e] == y[j].chosen[0];
    assert s[e + 1] == y[j].chosen[0];
  }

  /** No choice occurs twice. */
  lemma {:induction false} SplitsUnique<T>(s: seq<T>, k: nat, i: nat, j: nat)
    requires Distinct(s) && k <= |s| && i < |Splits(s, k)| && j < |Splits(s, k)|
    requires multiset(Splits(s, k)[i].chosen) == multiset(Splits(s, k)[j].chosen)
    ensures i == j
    decreases |s|
  {
    hide Splits;
    if k == 0 || k == |s| {
      SplitsTrivial(s, k);
    } else {
      var x := Splits(s[1..], k - 1);
      SplitsCases(s, k, i);
      SplitsCases(s, k, j);
      ChoosesHead(s, k, i);
      ChoosesHead(s, k, j);
      if i < |x| {
        assert multiset(x[i].chosen) == multiset([s[0]] + x[i].chosen) - multiset{s[0]};
        assert multiset(x[j].chosen) == multiset([s[0]] + x[j].chosen) - multiset{s[0]};
        SplitsUnique(s[1..], k - 1, i, j);
      } else {
        SplitsUnique(s[1..], k, i - |x|, j - |x|);
      }
    }
  }

  lemma ChoosesHead<T>(s: seq<T>, k: nat, i: nat)
    requires Distinct(s) && 0 < k < |s| && i < |Splits(s, k)|
    ensures i < |Splits(s[1..], k - 1)| <==> s[0] in multiset(Splits(s, k)[i].chosen)
  {
    hide Splits;
    var x, y := Splits(s[1..], k - 1), Splits(s[1..], k);
    SplitsCases(s, k, i);
    if i >= |x| {
      SplitsPart(s[1..], k, i - |x|);
      assert s[0] !in multiset(s[1..]);
    }
  }
}
