/** What the rotations, reversals and exchanges of windows do, on sequences: where each
    element of the result comes from, and that the loops of rotate_discontinuous and its
    relatives, over swapped ranges or single elements, reach that result. */
module Rotations {
  import opened Lists

  /** The windows [first1, last1) and [first2, last2), read as one sequence, rotated to
      put the second one first. */
  function Rotated<T>(s: seq<T>, first1: nat, last1: nat, first2: nat, last2: nat): (r: seq<T>)
    requires first1 <= last1 <= first2 <= last2 <= |s|
    ensures |r| == |s|
  {
    var t := s[first2..last2] + s[first1..last1];
    s[..first1] + t[..last1 - first1] + s[last1..first2] + t[last1 - first1..] + s[last2..]
  }

  /** The same for three windows: the first one moves behind the other two. */
  function Rotated3<T>(s: seq<T>, first1: nat, last1: nat, first2: nat, last2: nat, first3: nat,
                       last3: nat): (r: seq<T>)
    requires first1 <= last1 <= first2 <= last2 <= first3 <= last3 <= |s|
    ensures |r| == |s|
  {
    var t := s[first2..last2] + s[first3..last3] + s[first1..last1];
    var d1, d2 := last1 - first1, last2 - first2;
    s[..first1] + t[..d1] + s[last1..first2] + t[d1..d1 + d2] + s[last2..first3] + t[d1 + d2..] + s[last3..]
  }

  /** [lo, hi) back to front. */
  function Flipped<T>(s: seq<T>, lo: nat, hi: nat): (r: seq<T>)
    requires lo <= hi <= |s|
    ensures |r| == |s|
  {
    s[..lo] + Reversed(s[lo..hi]) + s[hi..]
  }

  /** The d elements from i on trade places with the d elements from j on. */
  function Exchanged<T>(s: seq<T>, i: nat, j: nat, d: nat): (r: seq<T>)
    requires i + d <= j && j + d <= |s|
    ensures |r| == |s|
  {
    s[..i] + s[j..j + d] + s[i + d..j] + s[i..i + d] + s[j + d..]
  }

  /** Position k of a rotation, by the position its element comes from. */
  function RotationSource(k: nat, first1: nat, last1: nat, first2: nat, last2: nat): (r: nat)
    requires first1 <= last1 <= first2 <= last2
    ensures if k < last2 then r < last2 else r == k
  {
    var d1, d2 := last1 - first1, last2 - first2;
    if first1 <= k < last1 then (if k - first1 < d2 then first2 + (k - first1) else k - d2)
    else if first2 <= k < last2 then (if k + d1 < last2 then k + d1 else k + d1 - last2 + first1)
    else k
  }

  lemma RotatedAt<T>(s: seq<T>, first1: nat, last1: nat, first2: nat, last2: nat, k: nat)
    requires first1 <= last1 <= first2 <= last2 <= |s| && k < |s|
    ensures Rotated(s, first1, last1, first2, last2)[k] == s[RotationSource(k, first1, last1, first2, last2)]
  {
    var d1 := last1 - first1;
    var t := s[first2..last2] + s[first1..last1];
    if first1 <= k < last1 {
      assert t[..d1][k - first1] == t[k - first1];
    } else if first2 <= k < last2 {
      assert t[d1..][k - first2] == t[k - first2 + d1];
    }
  }

  function RotationSource3(k: nat, first1: nat, last1: nat, first2: nat, last2: nat, first3: nat, last3: nat): (r: nat)
    requires first1 <= last1 <= first2 <= last2 <= first3 <= last3
    ensures if k < last3 then r < last3 else r == k
  {
    var d1, d2, d3 := last1 - first1, last2 - first2, last3 - first3;
    // the position among the three windows read as one
    var p := if k < last1 then k - first1 else if k < last2 then k - first2 + d1 else k - first3 + d1 + d2;
    if first1 <= k < last1 || first2 <= k < last2 || first3 <= k < last3 then
      if p < d2 then first2 + p else if p < d2 + d3 then first3 + (p - d2) else first1 + (p - d2 - d3)
    else k
  }

  lemma Rotated3At<T>(s: seq<T>, first1: nat, last1: nat, first2: nat, last2: nat, first3: nat, last3: nat, k: nat)
    requires first1 <= last1 <= first2 <= last2 <= first3 <= last3 <= |s| && k < |s|
    ensures Rotated3(s, first1, last1, first2, last2, first3, last3)[k]
      == s[RotationSource3(k, first1, last1, first2, last2, first3, last3)]
  {
    var d1, d2 := last1 - first1, last2 - first2;
    var t := s[first2..last2] + s[first3..last3] + s[first1..last1];
    if first1 <= k < last1 {
      assert t[..d1][k - first1] == t[k - first1];
    } else if first2 <= k < last2 {
      assert t[d1..d1 + d2][k - first2] == t[k - first2 + d1];
    } else if first3 <= k < last3 {
      assert t[d1 + d2..][k - first3] == t[k - first3 + d1 + d2];
    }
  }

  lemma FlippedAt<T>(s: seq<T>, lo: nat, hi: nat, k: nat)
    requires lo <= hi <= |s| && k < |s|
    ensures Flipped(s, lo, hi)[k] == if lo <= k < hi then s[lo + hi - 1 - k] else s[k]
  {
  }

  lemma ExchangedAt<T>(s: seq<T>, i: nat, j: nat, d: nat, k: nat)
    requires i + d <= j && j + d <= |s| && k < |s|
    ensures Exchanged(s, i, j, d)[k]
      == if i <= k < i + d then s[k - i + j] else if j <= k < j + d then s[k - j + i] else s[k]
  {
  }

  lemma RotatedByFlips<T>(s: seq<T>, first: nat, middle: nat, last: nat)
    requires first <= middle <= last <= |s|
    ensures Flipped(Flipped(Flipped(s, first, middle), middle, last), first, last)
      == Rotated(s, first, middle, middle, last)
  {
    hide Flipped, Rotated;
    var u := Flipped(s, first, middle);
    var v := Flipped(u, middle, last);
    var w := Flipped(v, first, last);
    var r := Rotated(s, first, middle, middle, last);
    forall k | 0 <= k < |s| ensures w[k] == r[k] {
      FlippedAt(v, first, last, k);
      var j := if first <= k < last then first + last - 1 - k else k;
      FlippedAt(u, middle, last, j);
      FlippedAt(s, first, middle, if middle <= j < last then middle + last - 1 - j else j);
      RotatedAt(s, first, middle, middle, last, k);
    }
  }

  lemma FlippedStep<T>(s: seq<T>, i: nat, j: nat)
    requires i + 1 < j <= |s|
    ensures Flipped(s[i := s[j - 1]][j - 1 := s[i]], i + 1, j - 1) == Flipped(s, i, j)
  {
  }

  lemma FlippedDone<T>(s: seq<T>, i: nat, j: nat)
    requires i <= j <= i + 1 && j <= |s|
    ensures Flipped(s, i, j) == s
  {
  }

  lemma ExchangedStep<T>(s: seq<T>, i: nat, j: nat, d: nat)
    requires i + d <= j && j + d <= |s| && d > 0
    ensures Exchanged(s[i := s[j]][j := s[i]], i + 1, j + 1, d - 1) == Exchanged(s, i, j, d)
    ensures Exchanged(s[i + d - 1 := s[j + d - 1]][j + d - 1 := s[i + d - 1]], i, j, d - 1) == Exchanged(s, i, j, d)
  {
    hide Exchanged;
    var u, v := s[i := s[j]][j := s[i]], s[i + d - 1 := s[j + d - 1]][j + d - 1 := s[i + d - 1]];
    forall k | 0 <= k < |s|
      ensures Exchanged(u, i + 1, j + 1, d - 1)[k] == Exchanged(s, i, j, d)[k] == Exchanged(v, i, j, d - 1)[k]
    {
      ExchangedAt(s, i, j, d, k);
      ExchangedAt(u, i + 1, j + 1, d - 1, k);
      ExchangedAt(v, i, j, d - 1, k);
    }
  }

  lemma ExchangedDone<T>(s: seq<T>, i: nat, j: nat)
    requires i <= j <= |s|
    ensures Exchanged(s, i, j, 0) == s
  {
  }

  lemma RotatedShort<T>(s: seq<T>, first1: nat, last1: nat, first2: nat, last2: nat)
    requires first1 <= last1 <= first2 <= last2 <= |s| && last1 - first1 <= last2 - first2
    ensures var d1 := last1 - first1;
      Rotated(Exchanged(s, first1, first2, d1), first2, first2 + d1, first2 + d1, last2)
      == Rotated(s, first1, last1, first2, last2)
  {
    hide Exchanged, Rotated;
    var d1 := last1 - first1;
    var u := Exchanged(s, first1, first2, d1);
    var m := first2 + d1;
    forall k | 0 <= k < |s|
      ensures Rotated(u, first2, m, m, last2)[k] == Rotated(s, first1, last1, first2, last2)[k]
    {
      RotatedAt(u, first2, m, m, last2, k);
      ExchangedAt(s, first1, first2, d1, RotationSource(k, first2, m, m, last2));
      RotatedAt(s, first1, last1, first2, last2, k);
    }
  }

  lemma RotatedLong<T>(s: seq<T>, first1: nat, last1: nat, first2: nat, last2: nat)
    requires first1 <= last1 <= first2 <= last2 <= |s| && last2 - first2 < last1 - first1
    ensures var d2 := last2 - first2;
      Rotated(Exchanged(s, last1 - d2, first2, d2), first1, last1 - d2, last1 - d2, last1)
      == Rotated(s, first1, last1, first2, last2)
  {
    hide Exchanged, Rotated;
    var d2 := last2 - first2;
    var m := last1 - d2;
    var u := Exchanged(s, m, first2, d2);
    forall k | 0 <= k < |s|
      ensures Rotated(u, first1, m, m, last1)[k] == Rotated(s, first1, last1, first2, last2)[k]
    {
      RotatedAt(u, first1, m, m, last1, k);
      ExchangedAt(s, m, first2, d2, RotationSource(k, first1, m, m, last1));
      RotatedAt(s, first1, last1, first2, last2, k);
    }
  }

  lemma Rotated3Short<T>(s: seq<T>, first1: nat, last1: nat, first2: nat, last2: nat, first3: nat, last3: nat)
    requires first1 <= last1 <= first2 <= last2 <= first3 <= last3 <= |s| && last1 - first1 <= last2 - first2
    ensures Rotated(Rotated(s, first1, last1, first2, last2), last2 - (last1 - first1), last2, first3, last3)
      == Rotated3(s, first1, last1, first2, last2, first3, last3)
  {
    hide Rotated, Rotated3;
    var m := last2 - (last1 - first1);
    var r1 := Rotated(s, first1, last1, first2, last2);
    var r2 := Rotated(r1, m, last2, first3, last3);
    var r := Rotated3(s, first1, last1, first2, last2, first3, last3);
    forall k | 0 <= k < |s| ensures r2[k] == r[k] {
      Rotated3At(s, first1, last1, first2, last2, first3, last3, k);
      RotatedAt(r1, m, last2, first3, last3, k);
      RotatedAt(s, first1, last1, first2, last2, RotationSource(k, m, last2, first3, last3));
    }
  }

  lemma Rotated3Long<T>(s: seq<T>, first1: nat, last1: nat, first2: nat, last2: nat, first3: nat, last3: nat)
    requires first1 <= last1 <= first2 <= last2 <= first3 <= last3 <= |s| && last2 - first2 < last1 - first1
    ensures Rotated(Rotated(Rotated(s, first1, last1, first2, last2),
                            first1 + (last2 - first2), last1, first3, last3), first2, last2, first3, last3)
      == Rotated3(s, first1, last1, first2, last2, first3, last3)
  {
    hide Rotated, Rotated3;
    var m := first1 + (last2 - first2);
    var r1 := Rotated(s, first1, last1, first2, last2);
    var r2 := Rotated(r1, m, last1, first3, last3);
    var r3 := Rotated(r2, first2, last2, first3, last3);
    var r := Rotated3(s, first1, last1, first2, last2, first3, last3);
    forall k | 0 <= k < |s| ensures r3[k] == r[k] {
      Rotated3At(s, first1, last1, first2, last2, first3, last3, k);
      RotatedAt(r2, first2, last2, first3, last3, k);
      var j := RotationSource(k, first2, last2, first3, last3);
      RotatedAt(r1, m, last1, first3, last3, j);
      RotatedAt(s, first1, last1, first2, last2, RotationSource(j, m, last1, first3, last3));
    }
  }
}
