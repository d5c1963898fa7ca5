/** What a user's function sees of a list of states, up to the point where it stops. Its
    answers may depend on everything it has been shown before, so that showing one list
    after another is not the same as showing each of them on its own. */
module Feeding {
  /** The user's function, called on one state after the other until it answers true.
      Its answer may depend on everything it has been shown.  Yields what it has been
      shown in the end, and whether it stopped the enumeration. */
  function Feed<T>(f: seq<seq<T>> -> bool, log: seq<seq<T>>, states: seq<seq<T>>): (r: (seq<seq<T>>, bool))
    decreases |states|
  {
    if states == [] then (log, false)
    else if f(log + [states[0]]) then (log + [states[0]], true)
    else Feed(f, log + [states[0]], states[1..])
  }

  lemma {:induction false} FeedConcat<T>(f: seq<seq<T>> -> bool, log: seq<seq<T>>, x: seq<seq<T>>, y: seq<seq<T>>)
    ensures Feed(f, log, x + y) == if Feed(f, log, x).1 then Feed(f, log, x) else Feed(f, Feed(f, log, x).0, y)
    decreases |x|
  {
    if x == [] {
      assert x + y == y;
    } else {
      assert (x + y)[1..] == x[1..] + y;
      FeedConcat(f, log + [x[0]], x[1..], y);
    }
  }

  /** Without an early stop the user's function sees every state, in order; with one, it
      has seen a prefix of them. */
  lemma {:induction false} FeedShows<T>(f: seq<seq<T>> -> bool, log: seq<seq<T>>, states: seq<seq<T>>)
    ensures !Feed(f, log, states).1 ==> Feed(f, log, states).0 == log + states
    ensures Feed(f, log, states).0 <= log + states
    ensures Feed(f, log, states).1 <==>
      exists k :: 0 < k <= |states| && f(log + states[..k])
    decreases |states|
  {
    if states != [] {
      var log' := log + [states[0]];
      assert log' + states[1..] == log + states;
      assert states[..1] == [states[0]];
      FeedShows(f, log', states[1..]);
      if f(log') {
        assert f(log + states[..1]);
      } else {
        if k :| 0 < k <= |states[1..]| && f(log' + states[1..][..k]) {
          assert log' + states[1..][..k] == log + states[..k + 1];
        }
        if k :| 0 < k <= |states| && f(log + states[..k]) {
          assert k > 1;
          assert log' + states[1..][..k - 1] == log + states[..k];
        }
      }
    }
  }

  /** It stops at the first state where the function answers true, and has seen it. */
  lemma {:induction false} FeedStops<T>(f: seq<seq<T>> -> bool, log: seq<seq<T>>, states: seq<seq<T>>) returns (k: nat)
    requires Feed(f, log, states).1
    ensures 0 < k <= |states| && Feed(f, log, states).0 == log + states[..k] && f(log + states[..k])
    ensures forall j :: 0 < j < k ==> !f(log + states[..j])
    decreases |states|
  {
    var log' := log + [states[0]];
    if f(log') {
      k := 1;
      assert states[..1] == [states[0]];
    } else {
      k := FeedStops(f, log', states[1..]);
      k := k + 1;
      forall j | 1 <= j <= k ensures log + states[..j] == log' + states[1..][..j - 1] {}
      forall j | 0 < j < k ensures !f(log + states[..j]) {
        if j == 1 { assert log + states[..1] == log'; } else { assert !f(log' + states[1..][..j - 1]); }
      }
    }
  }

  lemma FeedFew<T>(f: seq<seq<T>> -> bool, log: seq<seq<T>>, state: seq<T>)
    ensures Feed(f, log, []) == (log, false)
    ensures Feed(f, log, [state]) == (log + [state], f(log + [state]))
  {
    assert [state][1..] == [];
  }
}
