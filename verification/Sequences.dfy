/** Sequences without repetition, and what a filter keeps of a sequence. */
module Sequences {
  predicate NoDuplicates(s: seq<nat>) {
    forall j, k :: 0 <= j < k < |s| ==> s[j] != s[k]
  }

  function Filter<T>(keep: T -> bool, s: seq<T>): seq<T> {
    if s == [] then [] else (if keep(s[0]) then [s[0]] else []) + Filter(keep, s[1..])
  }

  lemma {:induction false} FilterMembers<T>(keep: T -> bool, s: seq<T>)
    ensures forall x :: x in Filter(keep, s) <==> x in s && keep(x)
  {
    if s != [] {
      FilterMembers(keep, s[1..]);
      assert s == [s[0]] + s[1..];
    }
  }

  /** `at` lists positions of `s` in increasing order, and `r` is what stands there. */
  ghost predicate TakenAt<T(!new)>(s: seq<T>, at: seq<nat>, r: seq<T>) {
    && |r| == |at|
    && (forall j, k :: 0 <= j < k < |at| ==> at[j] < at[k])
    && (forall k :: 0 <= k < |at| ==> at[k] < |s| && r[k] == s[at[k]])
  }

  function Shifted(at: seq<nat>): seq<nat> {
    seq(|at|, k requires 0 <= k < |at| => at[k] + 1)
  }

  lemma ShiftedHas(at: seq<nat>, i: nat)
    ensures i in Shifted(at) <==> i > 0 && i - 1 in at
  {
    if i > 0 && i - 1 in at {
      var k :| 0 <= k < |at| && at[k] == i - 1;
      assert Shifted(at)[k] == i;
    }
  }

  lemma TakenBehind<T(!new)>(x: T, s: seq<T>, at: seq<nat>, r: seq<T>)
    requires TakenAt(s, at, r)
    ensures TakenAt([x] + s, Shifted(at), r) && TakenAt([x] + s, [0] + Shifted(at), [x] + r)
  {
  }

  /** What a filter keeps is exactly what passes it, position by position and in the order it had. */
  lemma {:induction false} FilterKeepsOrder<T(!new)>(keep: T -> bool, s: seq<T>) returns (at: seq<nat>)
    ensures TakenAt(s, at, Filter(keep, s))
    ensures forall i: nat :: i in at <==> i < |s| && keep(s[i])
  {
    if s == [] {
      at := [];
    } else {
      var rest := FilterKeepsOrder(keep, s[1..]);
      at := (if keep(s[0]) then [0] else []) + Shifted(rest);
      assert s == [s[0]] + s[1..];
      TakenBehind(s[0], s[1..], rest, Filter(keep, s[1..]));
      forall i: nat ensures i in at <==> i < |s| && keep(s[i]) {
        ShiftedHas(rest, i);
      }
    }
  }
}
