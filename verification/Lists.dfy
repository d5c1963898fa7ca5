/** Small facts about sequences that the other modules share: writing a part of a sequence,
    leaving out one element, reversing, and how sequences without repetitions relate to
    the multisets of their elements. */
module Lists {

  /** `s` with the elements of `t` written over the positions from `lo` on; nothing is
      written where they do not fit. */
  function Put<T>(s: seq<T>, lo: nat, t: seq<T>): (r: seq<T>)
    ensures |r| == |s|
  {
    if lo + |t| <= |s| then s[..lo] + t + s[lo + |t|..] else s
  }

  lemma PutAt<T>(s: seq<T>, lo: nat, t: seq<T>, k: nat)
    requires k < |s| && lo + |t| <= |s|
    ensures Put(s, lo, t)[k] == if lo <= k < lo + |t| then t[k - lo] else s[k]
  {
  }

  /** `s` without position k. */
  function Without<T>(s: seq<T>, k: nat): (r: seq<T>)
    requires k < |s|
    ensures |r| == |s| - 1
  {
    s[..k] + s[k + 1..]
  }

  function Reversed<T>(s: seq<T>): (r: seq<T>)
    ensures |r| == |s|
    ensures forall i :: 0 <= i < |s| ==> r[i] == s[|s| - 1 - i]
  {
    if s == [] then [] else Reversed(s[1..]) + [s[0]]
  }

  function Larger(m: nat, n: nat): nat {
    if m < n then n else m
  }

  /** No element occurs twice. */
  ghost predicate Distinct<T>(s: seq<T>) {
    forall i, j :: 0 <= i < j < |s| ==> s[i] != s[j]
  }

  lemma ConcatAssociative<T>(r: seq<T>, s: seq<T>, t: seq<T>)
    ensures (r + s) + t == r + (s + t)
  {
  }

  lemma MultisetWithout<T>(s: seq<T>, k: nat)
    requires k < |s|
    ensures multiset(s) == multiset(Without(s, k)) + multiset{s[k]}
  {
    assert s == s[..k] + [s[k]] + s[k + 1..];
  }

  lemma MultisetSplit<T>(s: seq<T>, k: nat)
    requires k <= |s|
    ensures multiset(s) == multiset(s[..k]) + multiset(s[k..])
  {
    assert s == s[..k] + s[k..];
  }

  lemma MultisetCons<T>(s: seq<T>)
    requires s != []
    ensures multiset(s) == multiset{s[0]} + multiset(s[1..])
  {
    assert s == [s[0]] + s[1..];
  }

  lemma DistinctConcat<T>(x: seq<T>, y: seq<T>)
    requires Distinct(x) && Distinct(y) && forall t :: t in x ==> t !in y
    ensures Distinct(x + y)
  {
    forall i, j | 0 <= i < j < |x + y| ensures (x + y)[i] != (x + y)[j] {
      if i < |x| <= j { assert x[i] in x && y[j - |x|] in y; }
    }
  }

  /** A sequence is free of repetitions exactly when every multiplicity is at most one. */
  lemma DistinctMultiset<T>(s: seq<T>)
    ensures Distinct(s) <==> forall x <- s :: multiset(s)[x] == 1
  {
    if Distinct(s) {
      forall x <- s ensures multiset(s)[x] == 1 {
        var k :| 0 <= k < |s| && s[k] == x;
        MultisetWithout(s, k);
        assert x !in Without(s, k);
      }
    } else {
      var i, j :| 0 <= i < j < |s| && s[i] == s[j];
      MultisetWithout(s, i);
      assert Without(s, i)[j - 1] == s[j];
      assert s[i] in Without(s, i);
      assert multiset(s)[s[i]] >= 2;
    }
  }

  lemma DistinctArrangement<T>(s: seq<T>, t: seq<T>)
    requires Distinct(s) && multiset(s) == multiset(t)
    ensures Distinct(t)
  {
    DistinctMultiset(s);
    DistinctMultiset(t);
    forall x | x in t ensures multiset(t)[x] == 1 {
      assert x in multiset(t);
      assert x in s;
    }
  }

  lemma SameLength<T>(s: seq<T>, t: seq<T>)
    requires multiset(s) == multiset(t)
    ensures |s| == |t|
  {
    assert |multiset(s)| == |s| && |multiset(t)| == |t|;
  }

  lemma MultisetAssociative<T>(a: multiset<T>, b: multiset<T>, c: multiset<T>)
    ensures (a + b) + c == a + (b + c)
  {
  }
}
