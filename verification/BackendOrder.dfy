/** The order in which one member's callbacks run is the same on both backends. */
module BackendOrder {
  import opened Priority
  import Chain = InterceptChain
  import Xposed = XposedRegistry

  /** A hook as a module asks for it; requests are known by their position. */
  datatype Request = Request(hookType: HookType, priority: Int32, callback: Chain.Callback)

  function Rank(d: DefaultPriority, reqs: seq<Request>, i: nat): int
    requires i < |reqs|
  {
    FrameworkPriority(d, reqs[i].hookType, reqs[i].priority)
  }

  predicate InRange(reqs: seq<Request>, ids: seq<nat>) {
    forall k :: 0 <= k < |ids| ==> ids[k] < |reqs|
  }

  ghost predicate Descending(d: DefaultPriority, reqs: seq<Request>, ids: seq<nat>)
    requires InRange(reqs, ids)
  {
    forall x, y :: 0 <= x < y < |ids| ==> Rank(d, reqs, ids[x]) >= Rank(d, reqs, ids[y])
  }

  ghost predicate Ascending(d: DefaultPriority, reqs: seq<Request>, ids: seq<nat>)
    requires InRange(reqs, ids)
  {
    forall x, y :: 0 <= x < y < |ids| ==> Rank(d, reqs, ids[x]) <= Rank(d, reqs, ids[y])
  }

  /** The framework keeps every hook, highest priority outermost; how it orders equal ones is its own affair. */
  ghost predicate FrameworkKeeps(d: DefaultPriority, reqs: seq<Request>, order: seq<nat>) {
    && InRange(reqs, order)
    && (forall i :: 0 <= i < |reqs| ==> i in order)
    && Descending(d, reqs, order)
  }

  function Hookers(reqs: seq<Request>, order: seq<nat>): seq<Chain.Hooker>
    requires InRange(reqs, order)
  {
    if order == [] then []
    else
      var r := reqs[order[0]];
      [Chain.Hooker(order[0], r.hookType, r.callback, false)] + Hookers(reqs, order[1..])
  }

  lemma {:induction false} IdsAreTyped(reqs: seq<Request>, order: seq<nat>, t: HookType)
    requires InRange(reqs, order)
    ensures forall i: nat ::
              i in Chain.IdsOf(t, Hookers(reqs, order)) <==> i in order && i < |reqs| && reqs[i].hookType == t
  {
    if order != [] {
      IdsAreTyped(reqs, order[1..], t);
      assert order == [order[0]] + order[1..];
      assert Hookers(reqs, order)[1..] == Hookers(reqs, order[1..]);
    }
  }

  lemma DescendingCons(d: DefaultPriority, reqs: seq<Request>, first: nat, rest: seq<nat>)
    requires first < |reqs| && InRange(reqs, rest) && Descending(d, reqs, rest)
    requires forall y :: 0 <= y < |rest| ==> Rank(d, reqs, first) >= Rank(d, reqs, rest[y])
    ensures InRange(reqs, [first] + rest) && Descending(d, reqs, [first] + rest)
  {
  }

  lemma FirstIsHighest(d: DefaultPriority, reqs: seq<Request>, order: seq<nat>, i: nat)
    requires InRange(reqs, order) && Descending(d, reqs, order) && order != [] && i in order[1..]
    ensures i < |reqs| && Rank(d, reqs, order[0]) >= Rank(d, reqs, i)
  {
    var k :| 0 <= k < |order[1..]| && order[1..][k] == i;
    assert order[k + 1] == i;
  }

  lemma {:induction false} IdsInOrder(d: DefaultPriority, reqs: seq<Request>, order: seq<nat>, t: HookType)
    requires InRange(reqs, order) && Descending(d, reqs, order)
    ensures InRange(reqs, Chain.IdsOf(t, Hookers(reqs, order)))
    ensures Descending(d, reqs, Chain.IdsOf(t, Hookers(reqs, order)))
  {
    if order != [] {
      IdsInOrder(d, reqs, order[1..], t);
      IdsAreTyped(reqs, order[1..], t);
      assert Hookers(reqs, order)[1..] == Hookers(reqs, order[1..]);
      var rest := Chain.IdsOf(t, Hookers(reqs, order[1..]));
      forall y | 0 <= y < |rest| ensures Rank(d, reqs, order[0]) >= Rank(d, reqs, rest[y]) {
        assert rest[y] in rest;
        FirstIsHighest(d, reqs, order, rest[y]);
      }
      DescendingCons(d, reqs, order[0], rest);
    }
  }

  lemma {:induction false} ReversedAscends(d: DefaultPriority, reqs: seq<Request>, ids: seq<nat>)
    requires InRange(reqs, ids) && Descending(d, reqs, ids)
    ensures var r := Chain.Reversed(ids);
            && InRange(reqs, r) && Ascending(d, reqs, r)
            && forall i :: i in r <==> i in ids
  {
    if ids != [] {
      ReversedAscends(d, reqs, ids[1..]);
      assert ids == [ids[0]] + ids[1..];
      var rest := Chain.Reversed(ids[1..]);
      forall x | 0 <= x < |rest| ensures Rank(d, reqs, rest[x]) <= Rank(d, reqs, ids[0]) {
        assert rest[x] in ids[1..];
      }
    }
  }

  /** `a` runs somewhere before `b`. */
  ghost predicate Precedes(ids: seq<nat>, a: nat, b: nat) {
    exists x, y :: 0 <= x < y < |ids| && ids[x] == a && ids[y] == b
  }

  lemma DescendingPrecedes(d: DefaultPriority, reqs: seq<Request>, ids: seq<nat>, a: nat, b: nat)
    requires InRange(reqs, ids) && Descending(d, reqs, ids) && a in ids && b in ids && a < |reqs| && b < |reqs|
    requires Rank(d, reqs, a) != Rank(d, reqs, b)
    ensures Precedes(ids, a, b) <==> Rank(d, reqs, a) > Rank(d, reqs, b)
  {
    var x :| 0 <= x < |ids| && ids[x] == a;
    var y :| 0 <= y < |ids| && ids[y] == b;
    assert x < y || y < x;
  }

  lemma AscendingPrecedes(d: DefaultPriority, reqs: seq<Request>, ids: seq<nat>, a: nat, b: nat)
    requires InRange(reqs, ids) && Ascending(d, reqs, ids) && a in ids && b in ids && a < |reqs| && b < |reqs|
    requires Rank(d, reqs, a) != Rank(d, reqs, b)
    ensures Precedes(ids, a, b) <==> Rank(d, reqs, a) < Rank(d, reqs, b)
  {
    var x :| 0 <= x < |ids| && ids[x] == a;
    var y :| 0 <= y < |ids| && ids[y] == b;
    assert x < y || y < x;
  }

  /** LSPosed's order of the callbacks of one type: into the chain for BEFORE, out of it for AFTER. */
  function LSPosedOrder(reqs: seq<Request>, order: seq<nat>, t: HookType): seq<nat>
    requires InRange(reqs, order)
  {
    var ids := Chain.IdsOf(t, Hookers(reqs, order));
    if t == Before then ids else Chain.Reversed(ids)
  }

  /** A run of the chain in which no callback throws or short-circuits calls them in this order. */
  lemma LSPosedRuns(d: DefaultPriority, reqs: seq<Request>, order: seq<nat>, original: Chain.Body, args: Chain.Args)
    returns (out: Chain.History)
    requires FrameworkKeeps(d, reqs, order)
    requires Chain.LetsThrough(Hookers(reqs, order), [], original, args, [])
    ensures var (args1, into) := Chain.WayIn(Hookers(reqs, order), args, []);
            && Chain.Proceed(Hookers(reqs, order), original, args, []).1 == into + [Chain.Original(args1)] + out
            && Chain.CalledIds(into) == LSPosedOrder(reqs, order, Before)
            && Chain.CalledIds(out) == LSPosedOrder(reqs, order, After)
  {
    out := Chain.TransparentChain(Hookers(reqs, order), original, args);
  }

  /** The list the Xposed backend builds from the first `n` requests. */
  function XposedList(reqs: seq<Request>, n: nat): seq<Xposed.HookHandle>
    requires n <= |reqs|
  {
    if n == 0 then []
    else Xposed.Inserted(XposedList(reqs, n - 1), XposedHandle(reqs, n - 1))
  }

  function XposedHandle(reqs: seq<Request>, i: nat): Xposed.HookHandle
    requires i < |reqs|
  {
    Xposed.HookHandle(i, 0, reqs[i].hookType, reqs[i].priority, i)
  }

  lemma {:induction false} XposedListOrdered(reqs: seq<Request>, n: nat)
    requires n <= |reqs|
    ensures Xposed.Ordered(XposedList(reqs, n)) && Xposed.AllOlder(XposedList(reqs, n), n)
  {
    if n > 0 {
      XposedListOrdered(reqs, n - 1);
      Xposed.InsertedFacts(XposedList(reqs, n - 1), XposedHandle(reqs, n - 1));
    }
  }

  lemma {:induction false} XposedListHas(reqs: seq<Request>, n: nat, h: Xposed.HookHandle)
    requires n <= |reqs|
    ensures h in XposedList(reqs, n) <==> h.no < n && h == XposedHandle(reqs, h.no)
  {
    if n > 0 {
      XposedListHas(reqs, n - 1, h);
      Xposed.InsertedMembers(XposedList(reqs, n - 1), XposedHandle(reqs, n - 1));
    }
  }

  /** `a` runs somewhere before `b` when the handles of type `t` are run in list order. */
  ghost predicate XposedPrecedes(reqs: seq<Request>, t: HookType, a: nat, b: nat) {
    var handles := Xposed.Typed(XposedList(reqs, |reqs|), t);
    exists x, y :: 0 <= x < y < |handles| && handles[x].no == a && handles[y].no == b
  }

  /** Xposed runs callbacks in exactly descending priority, equal ones in the order of the requests. */
  lemma XposedRuns(reqs: seq<Request>, t: HookType, a: nat, b: nat)
    requires a < |reqs| && b < |reqs| && a != b && reqs[a].hookType == t && reqs[b].hookType == t
    ensures XposedPrecedes(reqs, t, a, b)
            <==> reqs[a].priority > reqs[b].priority || (reqs[a].priority == reqs[b].priority && a < b)
  {
    var all := XposedList(reqs, |reqs|);
    var handles := Xposed.Typed(all, t);
    XposedListOrdered(reqs, |reqs|);
    Xposed.TypedFacts(all, t);
    XposedListHas(reqs, |reqs|, XposedHandle(reqs, a));
    XposedListHas(reqs, |reqs|, XposedHandle(reqs, b));
    var x :| 0 <= x < |handles| && handles[x] == XposedHandle(reqs, a);
    var y :| 0 <= y < |handles| && handles[y] == XposedHandle(reqs, b);
    forall k | 0 <= k < |handles| ensures handles[k].no < |reqs| && handles[k] == XposedHandle(reqs, handles[k].no) {
      assert handles[k] in handles;
      XposedListHas(reqs, |reqs|, handles[k]);
    }
    assert x < y || y < x;
    assert x < y ==> Xposed.ComesBefore(handles[x], handles[y]);
    assert y < x ==> Xposed.ComesBefore(handles[y], handles[x]);
  }

  /** For two hooks of one type whose framework priorities differ, either backend runs the one with the
  higher requested priority first. */
  lemma BackendsAgree(d: DefaultPriority, reqs: seq<Request>, order: seq<nat>, t: HookType, a: nat, b: nat)
    requires FrameworkKeeps(d, reqs, order)
    requires a < |reqs| && b < |reqs| && reqs[a].hookType == t && reqs[b].hookType == t
    requires Rank(d, reqs, a) != Rank(d, reqs, b)
    ensures Precedes(LSPosedOrder(reqs, order, t), a, b) <==> reqs[a].priority > reqs[b].priority
    ensures XposedPrecedes(reqs, t, a, b) <==> reqs[a].priority > reqs[b].priority
  {
    IdsInOrder(d, reqs, order, t);
    IdsAreTyped(reqs, order, t);
    var ids := Chain.IdsOf(t, Hookers(reqs, order));
    if t == Before {
      DescendingPrecedes(d, reqs, ids, a, b);
    } else {
      ReversedAscends(d, reqs, ids);
      AscendingPrecedes(d, reqs, Chain.Reversed(ids), a, b);
    }
    if reqs[a].priority < reqs[b].priority {
      FrameworkOrder(d, reqs[a].priority, reqs[b].priority);
    } else {
      FrameworkOrder(d, reqs[b].priority, reqs[a].priority);
    }
    XposedRuns(reqs, t, a, b);
  }
}
