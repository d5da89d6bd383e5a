/** Runs of a machine whose step is a function of the state and a call, as the states they go through. */
module Traces {

  /** The state before the first call and after each of the calls. */
  function States<S, C>(step: (S, C) -> S, s: S, calls: seq<C>): (t: seq<S>)
    ensures |t| == |calls| + 1 && t[0] == s
  {
    if |calls| == 0 then [s] else [s] + States(step, step(s, calls[0]), calls[1..])
  }

  lemma {:induction false} StatesLinked<S, C>(step: (S, C) -> S, s: S, calls: seq<C>, k: nat)
    requires k < |calls|
    ensures States(step, s, calls)[k + 1] == step(States(step, s, calls)[k], calls[k])
  {
    if k > 0 {
      StatesLinked(step, step(s, calls[0]), calls[1..], k - 1);
    }
  }

  /** Every step from a good state leads to a good state exactly under the condition. */
  ghost predicate GoodExactly<S, C>(t: seq<S>, calls: seq<C>, good: S -> bool, meets: (S, C) -> bool)
    requires |t| == |calls| + 1
  {
    forall k {:trigger calls[k]} :: 0 <= k < |calls| && good(t[k]) ==> (good(t[k + 1]) <==> meets(t[k], calls[k]))
  }

  /** The states up to k are good exactly when the calls up to there satisfy the condition. */
  lemma {:induction false} GoodUpTo<S, C>(t: seq<S>, calls: seq<C>, good: S -> bool, meets: (S, C) -> bool, k: nat)
    requires k < |t| == |calls| + 1 && good(t[0]) && GoodExactly(t, calls, good, meets)
    ensures (forall j :: 0 <= j <= k ==> good(t[j])) <==> (forall j :: 0 <= j < k ==> meets(t[j], calls[j]))
  {
    if k > 0 {
      GoodUpTo(t, calls, good, meets, k - 1);
      assert good(t[k - 1]) ==> (good(t[k]) <==> meets(t[k - 1], calls[k - 1]));
    }
  }

  /** Call i sets the flag, and no call from it up to k clears it. */
  ghost predicate SetSince<S, C>(t: seq<S>, calls: seq<C>, sets: (S, C) -> bool, clears: (S, C) -> bool, i: nat, k: nat)
    requires |t| == |calls| + 1
  {
    && i < k <= |calls| && sets(t[i], calls[i])
    && forall m :: i <= m < k ==> !clears(t[m], calls[m])
  }

  predicate IsFlagAt<S, C>(s: S, c: C, s1: S, flag: S -> bool, sets: (S, C) -> bool, clears: (S, C) -> bool) {
    flag(s1) <==> !clears(s, c) && (sets(s, c) || flag(s))
  }

  ghost predicate IsFlag<S, C>(t: seq<S>, calls: seq<C>, flag: S -> bool, sets: (S, C) -> bool, clears: (S, C) -> bool,
                               n: nat)
    requires n < |t| == |calls| + 1
  {
    forall k {:trigger calls[k]} :: 0 <= k < n ==> IsFlagAt(t[k], calls[k], t[k + 1], flag, sets, clears)
  }

  /** A flag that calls set and clear is on exactly when one set it and none cleared it since. */
  lemma {:induction false} FlagIff<S, C>(t: seq<S>, calls: seq<C>, flag: S -> bool, sets: (S, C) -> bool,
                                         clears: (S, C) -> bool, k: nat)
    requires k < |t| == |calls| + 1 && !flag(t[0]) && IsFlag(t, calls, flag, sets, clears, k)
    ensures flag(t[k]) <==> exists i :: SetSince(t, calls, sets, clears, i, k)
  {
    if k > 0 {
      FlagIff(t, calls, flag, sets, clears, k - 1);
      var s, c := t[k - 1], calls[k - 1];
      assert IsFlagAt(s, c, t[k], flag, sets, clears);
      if flag(t[k]) {
        if sets(s, c) {
          assert SetSince(t, calls, sets, clears, k - 1, k);
        } else {
          var i: nat :| SetSince(t, calls, sets, clears, i, k - 1);
          assert SetSince(t, calls, sets, clears, i, k);
        }
      }
      if i: nat :| SetSince(t, calls, sets, clears, i, k) {
        assert !clears(t[k - 1], calls[k - 1]);
        assert i == k - 1 || SetSince(t, calls, sets, clears, i, k - 1);
      }
    }
  }

  predicate SpoilsAt<S, C>(s: S, c: C, s1: S, good: S -> bool, flag: S -> bool, ends: C -> bool) {
    good(s1) <==> !(ends(c) && flag(s))
  }

  /** Good states stay good but when a call that ends something finds the flag on. */
  ghost predicate FlagSpoils<S, C>(t: seq<S>, calls: seq<C>, good: S -> bool, flag: S -> bool, ends: C -> bool)
    requires |t| == |calls| + 1
  {
    forall k {:trigger calls[k]} :: 0 <= k < |calls| && good(t[k]) ==>
      SpoilsAt(t[k], calls[k], t[k + 1], good, flag, ends)
  }

  ghost predicate EndsAfter<S, C>(t: seq<S>, calls: seq<C>, ends: C -> bool, sets: (S, C) -> bool,
                                  clears: (S, C) -> bool, i: nat, j: nat)
    requires |t| == |calls| + 1
  {
    j < |calls| && ends(calls[j]) && SetSince(t, calls, sets, clears, i, j)
  }

  lemma {:induction false} GoodUnlessEnded<S, C>(t: seq<S>, calls: seq<C>, good: S -> bool, flag: S -> bool,
                                                 ends: C -> bool, sets: (S, C) -> bool, clears: (S, C) -> bool, k: nat)
    requires k < |t| == |calls| + 1 && good(t[0]) && !flag(t[0]) && FlagSpoils(t, calls, good, flag, ends)
    requires forall n {:trigger calls[n]} :: 0 <= n < |calls| && good(t[n]) ==>
             IsFlagAt(t[n], calls[n], t[n + 1], flag, sets, clears)
    requires !exists i, j :: EndsAfter(t, calls, ends, sets, clears, i, j)
    ensures forall j :: 0 <= j <= k ==> good(t[j])
  {
    if k > 0 {
      GoodUnlessEnded(t, calls, good, flag, ends, sets, clears, k - 1);
      FlagIff(t, calls, flag, sets, clears, k - 1);
      var m := k - 1;
      assert SpoilsAt(t[m], calls[m], t[k], good, flag, ends);
      forall i: nat | SetSince(t, calls, sets, clears, i, m) ensures !ends(calls[m]) {
        assert !EndsAfter(t, calls, ends, sets, clears, i, m);
      }
    }
  }

  /** Every state is good exactly when nothing is ended after a call that set the flag and before one that clears it. */
  lemma GoodThroughoutIff<S, C>(t: seq<S>, calls: seq<C>, good: S -> bool, flag: S -> bool, ends: C -> bool,
                                sets: (S, C) -> bool, clears: (S, C) -> bool)
    requires |t| == |calls| + 1 && good(t[0]) && !flag(t[0]) && FlagSpoils(t, calls, good, flag, ends)
    requires forall n {:trigger calls[n]} :: 0 <= n < |calls| && good(t[n]) ==>
             IsFlagAt(t[n], calls[n], t[n + 1], flag, sets, clears)
    ensures (forall j :: 0 <= j < |t| ==> good(t[j])) <==> !exists i, j :: EndsAfter(t, calls, ends, sets, clears, i, j)
  {
    if i: nat, j: nat :| EndsAfter(t, calls, ends, sets, clears, i, j) {
      if forall n :: 0 <= n < |t| ==> good(t[n]) {
        FlagIff(t, calls, flag, sets, clears, j);
        assert false;
      }
    } else {
      GoodUnlessEnded(t, calls, good, flag, ends, sets, clears, |calls|);
    }
  }
}
