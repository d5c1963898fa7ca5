/** getMatchingLock and getMatchingUnlock of src/ExecutionGraph.cpp. */
module LockMatching {
  import opened Options

  /** A successful lock operation (or trylock) is a read directly followed by a write. */
  datatype LockLabel = LockRead(addr: int) | LockWrite(addr: int) | Unlock(addr: int) | Other

  type Thread = seq<LockLabel>

  /** The read part of every successful lock directly precedes its write, and the thread
      starts with a label of another kind. */
  ghost predicate WellFormed(ls: Thread) {
    && (ls != [] ==> ls[0] == Other)
    && forall i :: 0 < i < |ls| && ls[i].LockWrite? ==> ls[i - 1] == LockRead(ls[i].addr)
  }

  // ----- how deep locks are nested

  function Change(l: LockLabel, a: int): int {
    if l == LockWrite(a) then 1 else if l == Unlock(a) then -1 else 0
  }

  /** Locks taken minus locks released from position i up to j. */
  function Balance(ls: Thread, a: int, i: nat, j: nat): int
    requires i <= j <= |ls|
    decreases j - i
  {
    if i == j then 0 else Change(ls[i], a) + Balance(ls, a, i + 1, j)
  }

  lemma {:induction false} BalanceSplit(ls: Thread, a: int, i: nat, k: nat, j: nat)
    requires i <= k <= j <= |ls|
    ensures Balance(ls, a, i, j) == Balance(ls, a, i, k) + Balance(ls, a, k, j)
    decreases k - i
  {
    if i < k { BalanceSplit(ls, a, i + 1, k, j); }
  }

  /** The lock whose write is at position w is released at u: what is locked in between is
      released in between. */
  ghost predicate Matches(ls: Thread, a: int, w: nat, u: nat) {
    && w < u < |ls| && ls[w] == LockWrite(a) && ls[u] == Unlock(a)
    && Balance(ls, a, w + 1, u) == 0
    && forall m {:trigger Balance(ls, a, w + 1, m)} :: w < m < u ==> Balance(ls, a, w + 1, m) >= 0
  }

  // ----- the searches

  /** Forward from j, with depth locks taken on the way. */
  function UnlockAfter(ls: Thread, a: int, j: nat, depth: nat): Option<nat>
    decreases |ls| - j
  {
    if j >= |ls| then None
    else if ls[j] == LockWrite(a) then UnlockAfter(ls, a, j + 1, depth + 1)
    else if ls[j] == Unlock(a) then
      if depth == 0 then Some(j) else UnlockAfter(ls, a, j + 1, depth - 1)
    else UnlockAfter(ls, a, j + 1, depth)
  }

  /** Backward from position n - 1 down to 1: the write of a lock. */
  function LockBefore(ls: Thread, a: int, n: nat, depth: nat): Option<nat>
    requires n <= |ls|
  {
    if n <= 1 then None
    else if ls[n - 1] == Unlock(a) then LockBefore(ls, a, n - 1, depth + 1)
    else if ls[n - 1] == LockWrite(a) then
      if depth == 0 then Some(n - 1) else LockBefore(ls, a, n - 1, depth - 1)
    else LockBefore(ls, a, n - 1, depth)
  }

  method GetMatchingLock(ls: Thread, unlock: nat) returns (lock: Option<nat>)
    requires unlock < |ls| && ls[unlock].Unlock?
    ensures lock == LockOf(ls, unlock)
  {
    var a := ls[unlock].addr;
    var locUnlocks: seq<nat> := [];
    var j := unlock - 1;
    while j > 0
      invariant -1 <= j < unlock
      invariant LockBefore(ls, a, j + 1, |locUnlocks|) == LockBefore(ls, a, unlock, 0)
    {
      if ls[j] == Unlock(a) {
        locUnlocks := locUnlocks + [j];
      } else if ls[j] == LockWrite(a) {
        if locUnlocks == [] { return Some(j - 1); }
        locUnlocks := locUnlocks[..|locUnlocks| - 1];
      }
      j := j - 1;
    }
    return None;
  }

  method GetMatchingUnlock(ls: Thread, lock: nat) returns (unlock: Option<nat>)
    requires lock < |ls| && ls[lock].LockRead?
    ensures unlock == UnlockOf(ls, lock)
  {
    var a := ls[lock].addr;
    var locLocks: seq<nat> := [];
    var j := lock + 2;
    while j < |ls|
      invariant UnlockAfter(ls, a, j, |locLocks|) == UnlockAfter(ls, a, lock + 2, 0)
    {
      if ls[j] == LockWrite(a) {
        locLocks := locLocks + [j];
      } else if ls[j] == Unlock(a) {
        if locLocks == [] { return Some(j); }
        locLocks := locLocks[..|locLocks| - 1];
      }
      j := j + 1;
    }
    return None;
  }

  // ----- what they find

  /** From j, u is the first release at which depth + 1 more locks are released than taken. */
  ghost predicate FirstRelease(ls: Thread, a: int, j: nat, depth: nat, u: nat) {
    && j <= u < |ls| && ls[u] == Unlock(a) && Balance(ls, a, j, u) + depth == 0
    && forall m {:trigger Balance(ls, a, j, m)} :: j <= m < u ==> Balance(ls, a, j, m) + depth >= 0
  }

  lemma {:induction false} UnlockAfterFinds(ls: Thread, a: int, j: nat, depth: nat, u: nat)
    ensures UnlockAfter(ls, a, j, depth) == Some(u) <==> FirstRelease(ls, a, j, depth, u)
    decreases |ls| - j
  {
    if j < |ls| {
      var next := depth + Change(ls[j], a);
      if next >= 0 {
        UnlockAfterFinds(ls, a, j + 1, next, u);
        ReleaseStep(ls, a, j, depth, u);
      } else {
        NoDepthLeft(ls, a, j, u);
      }
    }
  }

  lemma ReleaseStep(ls: Thread, a: int, j: nat, depth: nat, u: nat)
    requires j < |ls| && depth + Change(ls[j], a) >= 0
    ensures FirstRelease(ls, a, j, depth, u) <==> FirstRelease(ls, a, j + 1, depth + Change(ls[j], a), u)
  {
    var next := depth + Change(ls[j], a);
    if FirstRelease(ls, a, j, depth, u) {
      forall m {:trigger Balance(ls, a, j + 1, m)} | j + 1 <= m < u ensures Balance(ls, a, j + 1, m) + next >= 0 {
        assert Balance(ls, a, j, m) + depth >= 0;
      }
    }
    if FirstRelease(ls, a, j + 1, next, u) {
      forall m {:trigger Balance(ls, a, j, m)} | j <= m < u ensures Balance(ls, a, j, m) + depth >= 0 {
        if m > j { assert Balance(ls, a, j + 1, m) + next >= 0; }
      }
    }
  }

  lemma OneRelease(ls: Thread, a: int, j: nat)
    requires j < |ls| && ls[j] == Unlock(a)
    ensures Balance(ls, a, j, j + 1) == -1
  {
  }

  lemma NoDepthLeft(ls: Thread, a: int, j: nat, u: nat)
    requires j < |ls| && ls[j] == Unlock(a)
    ensures FirstRelease(ls, a, j, 0, u) <==> u == j
  {
    if FirstRelease(ls, a, j, 0, u) && u > j {
      OneRelease(ls, a, j);
    }
  }

  /** The forward search finds exactly the release that matches. */
  lemma UnlockAfterMatches(ls: Thread, a: int, w: nat, u: nat)
    requires w < |ls| && ls[w] == LockWrite(a)
    ensures UnlockAfter(ls, a, w + 1, 0) == Some(u) <==> Matches(ls, a, w, u)
  {
    UnlockAfterFinds(ls, a, w + 1, 0, u);
  }

  /** Up to n, w is the last lock with depth more locks taken than released after it. */
  ghost predicate LastLock(ls: Thread, a: int, n: nat, depth: nat, w: nat) {
    && 0 < w < n <= |ls| && ls[w] == LockWrite(a) && Balance(ls, a, w + 1, n) == depth
    && forall m {:trigger Balance(ls, a, m, n)} :: w < m <= n ==> Balance(ls, a, m, n) <= depth
  }

  lemma {:induction false} LockBeforeFinds(ls: Thread, a: int, n: nat, depth: nat, w: nat)
    requires n <= |ls|
    ensures LockBefore(ls, a, n, depth) == Some(w) <==> LastLock(ls, a, n, depth, w)
  {
    if n > 1 {
      var next := depth - Change(ls[n - 1], a);
      if next >= 0 {
        LockBeforeFinds(ls, a, n - 1, next, w);
        LockStep(ls, a, n, depth, w);
      } else {
        NoDepthLeftBack(ls, a, n, w);
      }
    }
  }

  lemma BalanceLast(ls: Thread, a: int, m: nat, n: nat)
    requires m < n <= |ls|
    ensures Balance(ls, a, m, n) == Balance(ls, a, m, n - 1) + Change(ls[n - 1], a)
  {
    BalanceSplit(ls, a, m, n - 1, n);
    assert Balance(ls, a, n - 1, n) == Change(ls[n - 1], a) + Balance(ls, a, n, n);
  }

  lemma LockStep(ls: Thread, a: int, n: nat, depth: nat, w: nat)
    requires 1 < n <= |ls| && depth - Change(ls[n - 1], a) >= 0
    ensures LastLock(ls, a, n, depth, w) <==> LastLock(ls, a, n - 1, depth - Change(ls[n - 1], a), w)
  {
    var next := depth - Change(ls[n - 1], a);
    forall m | 0 <= m < n ensures Balance(ls, a, m, n) == Balance(ls, a, m, n - 1) + Change(ls[n - 1], a) {
      BalanceLast(ls, a, m, n);
    }
    if LastLock(ls, a, n, depth, w) {
      assert w < n - 1;
      forall m {:trigger Balance(ls, a, m, n - 1)} | w < m <= n - 1 ensures Balance(ls, a, m, n - 1) <= next {
        assert Balance(ls, a, m, n) <= depth;
      }
    }
  }

  lemma NoDepthLeftBack(ls: Thread, a: int, n: nat, w: nat)
    requires 1 < n <= |ls| && ls[n - 1] == LockWrite(a)
    ensures LastLock(ls, a, n, 0, w) <==> w == n - 1
  {
    assert Balance(ls, a, n - 1, n) == 1 + Balance(ls, a, n, n);
  }

  /** The backward search finds exactly the lock that matches. */
  lemma LockBeforeMatches(ls: Thread, a: int, w: nat, u: nat)
    requires u < |ls| && ls[u] == Unlock(a) && w > 0
    ensures LockBefore(ls, a, u, 0) == Some(w) <==> Matches(ls, a, w, u)
  {
    LockBeforeFinds(ls, a, u, 0, w);
    if w < u && Balance(ls, a, w + 1, u) == 0 {
      forall m | w < m <= u
        ensures Balance(ls, a, w + 1, m) + Balance(ls, a, m, u) == 0
      {
        BalanceSplit(ls, a, w + 1, m, u);
      }
      if LastLock(ls, a, u, 0, w) {
        forall m {:trigger Balance(ls, a, w + 1, m)} | w < m < u ensures Balance(ls, a, w + 1, m) >= 0 {
          assert Balance(ls, a, m, u) <= 0;
        }
      }
      if Matches(ls, a, w, u) {
        forall m {:trigger Balance(ls, a, m, u)} | w < m <= u ensures Balance(ls, a, m, u) <= 0 {
          assert m < u ==> Balance(ls, a, w + 1, m) >= 0;
        }
      }
    }
  }

  // ----- the results of the two searches

  function LockOf(ls: Thread, unlock: nat): Option<nat>
    requires unlock < |ls| && ls[unlock].Unlock?
  {
    match LockBefore(ls, ls[unlock].addr, unlock, 0)
    case None => None
    case Some(w) => if w > 0 then Some(w - 1) else None
  }

  function UnlockOf(ls: Thread, lock: nat): Option<nat>
    requires lock < |ls| && ls[lock].LockRead?
  {
    UnlockAfter(ls, ls[lock].addr, lock + 2, 0)
  }

  /** getMatchingLock yields the read part of the lock that the unlock matches. */
  lemma LockOfIff(ls: Thread, u: nat, k: nat)
    requires u < |ls| && ls[u].Unlock?
    ensures LockOf(ls, u) == Some(k) <==> Matches(ls, ls[u].addr, k + 1, u)
  {
    LockBeforeMatches(ls, ls[u].addr, k + 1, u);
  }

  /** A lock that getMatchingLock finds is mapped back. */
  lemma UnlockOfLock(ls: Thread, u: nat)
    requires WellFormed(ls) && u < |ls| && ls[u].Unlock? && LockOf(ls, u).Some?
    ensures var k := LockOf(ls, u).value;
      k < u && ls[k] == LockRead(ls[u].addr) && UnlockOf(ls, k) == Some(u)
  {
    var a := ls[u].addr;
    var w := LockBefore(ls, a, u, 0).value;
    LockBeforeFinds(ls, a, u, 0, w);
    LockBeforeMatches(ls, a, w, u);
    UnlockAfterMatches(ls, a, w, u);
  }

  /** An unlock that getMatchingUnlock finds is mapped back if and only if the lock was
      successful: its write follows. */
  lemma LockOfUnlock(ls: Thread, k: nat)
    requires WellFormed(ls) && k < |ls| && ls[k].LockRead? && UnlockOf(ls, k).Some?
    ensures var u := UnlockOf(ls, k).value;
      k < u < |ls| && ls[u] == Unlock(ls[k].addr)
      && (LockOf(ls, u) == Some(k) <==> ls[k + 1] == LockWrite(ls[k].addr))
  {
    var a := ls[k].addr;
    var u := UnlockOf(ls, k).value;
    UnlockAfterFinds(ls, a, k + 2, 0, u);
    if ls[k + 1] == LockWrite(a) {
      UnlockAfterMatches(ls, a, k + 1, u);
      LockBeforeMatches(ls, a, k + 1, u);
    } else if LockOf(ls, u) == Some(k) {
      LockBeforeFinds(ls, a, u, 0, k + 1);
    }
  }

  /** Of any lock, successful or not, the search yields the first unlock behind it at which one
      more lock has been released than taken, counting from behind its write; None if there is
      no such unlock. */
  lemma UnlockOfIff(ls: Thread, k: nat, u: nat)
    requires k < |ls| && ls[k].LockRead?
    ensures UnlockOf(ls, k) == Some(u) <==> FirstRelease(ls, ls[k].addr, k + 2, 0, u)
  {
    UnlockAfterFinds(ls, ls[k].addr, k + 2, 0, u);
  }

  /** A failed lock whose search finds an unlock that belongs to no lock of the thread. */
  lemma FailedLock(a: int) returns (ls: Thread)
    ensures WellFormed(ls) && |ls| == 4 && ls[1] == LockRead(a) && ls[3] == Unlock(a)
    ensures UnlockOf(ls, 1) == Some(3) && LockOf(ls, 3) == None
  {
    ls := [Other, LockRead(a), Other, Unlock(a)];
    assert UnlockAfter(ls, a, 3, 0) == Some(3);
    assert LockBefore(ls, a, 1, 0) == None && LockBefore(ls, a, 2, 0) == None && LockBefore(ls, a, 3, 0) == None;
  }
}
