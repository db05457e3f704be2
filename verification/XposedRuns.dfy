/** Runs of the Xposed backend: any sequence of hooks and of unhook closures, on the registry and on the
plain lists it stands for. */
module XposedRuns {
  import opened Priority
  import opened XposedRegistry

  /** `Unhook(k)` calls the closure that registration `k` handed out. */
  datatype Op = Hook(member: Member, hookType: HookType, priority: Int32, callback: nat) | Unhook(k: nat)

  /** What a run should leave: the handles in force for each member that has any, and every handle ever made. */
  datatype Lists = Lists(lists: map<Member, seq<HookHandle>>, made: seq<HookHandle>)

  function In(s: Lists, member: Member): seq<HookHandle> {
    if member in s.lists then s.lists[member] else []
  }

  function MadeBy(s: Lists, op: Op): HookHandle
    requires op.Hook?
  {
    HookHandle(|s.made|, op.member, op.hookType, op.priority, op.callback)
  }

  function After(s: Lists, op: Op): Lists {
    match op
    case Hook(member, _, _, _) =>
      var handle := MadeBy(s, op);
      Lists(s.lists[member := Inserted(In(s, member), handle)], s.made + [handle])
    case Unhook(k) =>
      if k >= |s.made| then s
      else
        var rest := Without(In(s, s.made[k].member), s.made[k].callback);
        s.(lists := if rest == [] then s.lists - {s.made[k].member} else s.lists[s.made[k].member := rest])
  }

  function AfterAll(ops: seq<Op>): Lists {
    if ops == [] then Lists(map[], []) else After(AfterAll(ops[..|ops| - 1]), ops[|ops| - 1])
  }

  /** An unhook is called while its own handle is listed. */
  predicate Allowed(s: Lists, op: Op) {
    op.Unhook? ==> op.k < |s.made| && s.made[op.k] in In(s, s.made[op.k].member)
  }

  ghost predicate RunOk(ops: seq<Op>) {
    forall i :: 0 <= i < |ops| ==> Allowed(AfterAll(ops[..i]), ops[i])
  }

  // What the lists hold

  predicate Hits(s: Lists, op: Op, h: HookHandle) {
    op.Unhook? && op.k < |s.made| && s.made[op.k].member == h.member && s.made[op.k].callback == h.callback
  }

  lemma WithoutHits(s: Lists, op: Op, h: HookHandle)
    requires op.Unhook?
    ensures h in In(After(s, op), h.member) <==> h in In(s, h.member) && !Hits(s, op, h)
  {
    if op.k < |s.made| {
      WithoutFacts(In(s, s.made[op.k].member), s.made[op.k].callback);
    }
  }

  lemma {:induction false} MadeKnown(ops: seq<Op>, k: nat)
    requires k < |AfterAll(ops).made|
    ensures AfterAll(ops).made[k].no == k
  {
    var front := AfterAll(ops[..|ops| - 1]);
    if k < |front.made| {
      MadeKnown(ops[..|ops| - 1], k);
    }
  }

  lemma {:induction false} ListedAreMade(ops: seq<Op>, member: Member, h: HookHandle)
    requires h in In(AfterAll(ops), member)
    ensures h.no < |AfterAll(ops).made| && AfterAll(ops).made[h.no] == h && h.member == member
  {
    var front, op := ops[..|ops| - 1], ops[|ops| - 1];
    var s := AfterAll(front);
    match op
    case Hook(m, _, _, _) =>
      InsertedMembers(In(s, m), MadeBy(s, op));
      if h != MadeBy(s, op) || member != m {
        ListedAreMade(front, member, h);
      }
    case Unhook(k) =>
      if k < |s.made| {
        WithoutFacts(In(s, s.made[k].member), s.made[k].callback);
      }
      ListedAreMade(front, member, h);
  }

  /** Operation `i` calls, after handle `h` was made, a closure of a handle with its member and callback. */
  ghost predicate UnhookedAt(ops: seq<Op>, h: HookHandle, i: nat) {
    i < |ops| && h.no < |AfterAll(ops[..i]).made| && Hits(AfterAll(ops[..i]), ops[i], h)
  }

  /** A handle is listed exactly while no operation since it was made has unhooked its callback from its member. */
  lemma {:induction false} ListedUntilUnhooked(ops: seq<Op>, k: nat)
    requires k < |AfterAll(ops).made|
    ensures var h := AfterAll(ops).made[k];
            h in In(AfterAll(ops), h.member) <==> forall i: nat :: !UnhookedAt(ops, h, i)
  {
    var n := |ops| - 1;
    var s, h := AfterAll(ops[..n]), AfterAll(ops).made[k];
    MadeKnown(ops, k);
    UnhookedStep(ops, h);
    if k < |s.made| {
      ListedUntilUnhooked(ops[..n], k);
      ListedStep(s, ops[n], h);
    } else {
      InsertedMembers(In(s, ops[n].member), h);
      forall i: nat ensures !UnhookedAt(ops[..n], h, i) {
        if i < n {
          MadeGrows(ops[..n], i);
        }
      }
    }
  }

  /** After any run a member lists exactly the handles made for it that nothing has unhooked since. */
  lemma ListedExactly(ops: seq<Op>, member: Member, h: HookHandle)
    ensures var s := AfterAll(ops);
            h in In(s, member)
            <==> && h.no < |s.made| && s.made[h.no] == h && h.member == member
                 && forall i: nat :: !UnhookedAt(ops, h, i)
  {
    var s := AfterAll(ops);
    if h in In(s, member) {
      ListedAreMade(ops, member, h);
    }
    if h.no < |s.made| && s.made[h.no] == h {
      ListedUntilUnhooked(ops, h.no);
    }
  }

  lemma UnhookedStep(ops: seq<Op>, h: HookHandle)
    requires ops != []
    ensures var n := |ops| - 1;
            (forall i: nat :: !UnhookedAt(ops, h, i))
            <==> && (forall i: nat :: !UnhookedAt(ops[..n], h, i))
                 && !(h.no < |AfterAll(ops[..n]).made| && Hits(AfterAll(ops[..n]), ops[n], h))
  {
    var n := |ops| - 1;
    forall i: nat ensures UnhookedAt(ops[..n], h, i) <==> i < n && UnhookedAt(ops, h, i) {
      assert i < n ==> ops[..n][..i] == ops[..i];
    }
    assert UnhookedAt(ops, h, n) <==> h.no < |AfterAll(ops[..n]).made| && Hits(AfterAll(ops[..n]), ops[n], h);
  }

  lemma ListedStep(s: Lists, op: Op, h: HookHandle)
    requires h.no < |s.made|
    ensures h in In(After(s, op), h.member) <==> h in In(s, h.member) && !Hits(s, op, h)
  {
    if op.Hook? {
      InsertedMembers(In(s, op.member), MadeBy(s, op));
    } else {
      WithoutHits(s, op, h);
    }
  }

  lemma {:induction false} MadeGrows(ops: seq<Op>, i: nat)
    requires i <= |ops|
    ensures |AfterAll(ops[..i]).made| <= |AfterAll(ops).made|
    decreases |ops|
  {
    if i < |ops| {
      MadeGrows(ops[..|ops| - 1], i);
      assert ops[..|ops| - 1][..i] == ops[..i];
    } else {
      assert ops[..i] == ops;
    }
  }

  // The registry along a run

  /** The registry and its targets at one moment. */
  datatype View = View(hooked: map<Member, Target>, handles: map<Target, seq<HookHandle>>)

  ghost function ViewOf(r: Registry): View
    reads r, r.targets
  {
    View(r.hookedMembers, map t | t in r.targets :: t.handles)
  }

  /** Of these handles each one's closure holds on to `t`. */
  ghost predicate HoldsOwn(handles: seq<HookHandle>, t: Target, closures: seq<Target>, made: seq<HookHandle>) {
    forall h :: h in handles ==> h.no < |closures| && h.no < |made| && made[h.no] == h && closures[h.no] == t
  }

  ghost predicate CurrentOk(v: View) {
    && (forall m :: m in v.hooked ==> v.hooked[m] in v.handles && v.hooked[m].member == m)
    && (forall t :: t in v.handles && v.handles[t] != [] ==> t.member in v.hooked && v.hooked[t.member] == t)
  }

  ghost predicate ClosuresOk(v: View, closures: seq<Target>, s: Lists) {
    && |closures| == |s.made|
    && (forall k :: 0 <= k < |closures| ==> closures[k] in v.handles && closures[k].member == s.made[k].member)
    && (forall t :: t in v.handles ==> HoldsOwn(v.handles[t], t, closures, s.made))
  }

  /** A member is registered iff it has a list, which is that of its target. */
  ghost predicate Shows(v: View, s: Lists)
    requires CurrentOk(v)
  {
    s.lists == map m | m in v.hooked :: v.handles[v.hooked[m]]
  }

  ghost predicate Tied(v: View, closures: seq<Target>, s: Lists) {
    CurrentOk(v) && ClosuresOk(v, closures, s) && Shows(v, s)
  }

  lemma HoldsLonger(handles: seq<HookHandle>, t: Target, closures: seq<Target>, made: seq<HookHandle>, u: Target,
                    handle: HookHandle)
    requires HoldsOwn(handles, t, closures, made) && |closures| == |made|
    ensures HoldsOwn(handles, t, closures + [u], made + [handle])
  {
  }

  lemma HoldsInserted(handles: seq<HookHandle>, t: Target, closures: seq<Target>, made: seq<HookHandle>,
                      handle: HookHandle)
    requires HoldsOwn(handles, t, closures, made) && |closures| == |made| == handle.no
    ensures HoldsOwn(Inserted(handles, handle), t, closures + [t], made + [handle])
  {
    InsertedMembers(handles, handle);
  }

  lemma HoldsWithout(handles: seq<HookHandle>, t: Target, closures: seq<Target>, made: seq<HookHandle>, callback: nat)
    requires HoldsOwn(handles, t, closures, made)
    ensures HoldsOwn(Without(handles, callback), t, closures, made)
  {
    WithoutFacts(handles, callback);
  }

  lemma HookStaysTied(v: View, closures: seq<Target>, s: Lists, op: Op, target: Target)
    requires Tied(v, closures, s) && op.Hook? && target.member == op.member
    requires if op.member in v.hooked then target == v.hooked[op.member] else target !in v.handles
    ensures var handles := Inserted(In(s, op.member), MadeBy(s, op));
            Tied(View(v.hooked[op.member := target], v.handles[target := handles]), closures + [target], After(s, op))
  {
    var handle := MadeBy(s, op);
    var handles := Inserted(In(s, op.member), handle);
    var v' := View(v.hooked[op.member := target], v.handles[target := handles]);
    assert handles != [];
    forall t | t in v'.handles ensures HoldsOwn(v'.handles[t], t, closures + [target], s.made + [handle]) {
      if t == target {
        HoldsInserted(In(s, op.member), target, closures, s.made, handle);
      } else {
        HoldsLonger(v.handles[t], t, closures, s.made, target, handle);
      }
    }
  }

  lemma UnhookStaysTied(v: View, closures: seq<Target>, s: Lists, k: nat)
    requires Tied(v, closures, s) && Allowed(s, Unhook(k)) && s.made[k].no == k
    ensures var m := s.made[k].member;
            && m in v.hooked && closures[k] == v.hooked[m]
            && var rest := Without(v.handles[closures[k]], s.made[k].callback);
               Tied(View(if rest == [] then v.hooked - {m} else v.hooked, v.handles[closures[k] := rest]),
                   closures, After(s, Unhook(k)))
  {
    var m, t := s.made[k].member, closures[k];
    assert In(s, m) == v.handles[v.hooked[m]];
    assert HoldsOwn(v.handles[v.hooked[m]], v.hooked[m], closures, s.made);
    HoldsWithout(v.handles[t], t, closures, s.made, s.made[k].callback);
  }

  /** What Hook changes, as views. */
  method HookSeen(r: Registry, op: Op) returns (target: Target, ghost handle: HookHandle)
    requires r.Valid() && op.Hook?
    modifies r, r.targets
    ensures r.Valid() && r.registrations == old(r.registrations) + 1 && target.member == op.member
    ensures handle == HookHandle(old(r.registrations), op.member, op.hookType, op.priority, op.callback)
    ensures ViewOf(r) == View(old(r.hookedMembers)[op.member := target],
                              old(ViewOf(r)).handles[target := Inserted(old(r.Listed(op.member)), handle)])
    ensures if op.member in old(r.hookedMembers) then target == old(r.hookedMembers)[op.member] else fresh(target)
    ensures r.targets == old(r.targets) + {target}
  {
    ghost var v := ViewOf(r);
    target, handle := r.Hook(op.member, op.hookType, op.priority, op.callback);
    assert ViewOf(r).handles == v.handles[target := target.handles];
  }

  /** What the closure of a current target changes, as views. */
  method UnhookSeen(r: Registry, target: Target, callback: nat)
    requires r.Valid() && target in r.targets && r.IsCurrent(target)
    modifies r, target
    ensures r.Valid() && r.registrations == old(r.registrations) && r.targets == old(r.targets)
    ensures var rest := Without(old(target.handles), callback);
            ViewOf(r) == View(if rest == [] then old(r.hookedMembers) - {target.member} else old(r.hookedMembers),
                              old(ViewOf(r)).handles[target := rest])
  {
    ghost var v := ViewOf(r);
    r.Unhook(target, callback);
    assert ViewOf(r).handles == v.handles[target := target.handles];
  }

  /** The registry, its closures and their callbacks are as the lists say. */
  ghost predicate OnTrack(r: Registry, closures: seq<Target>, callbacks: seq<nat>, s: Lists)
    reads r, r.targets
  {
    && r.Valid() && r.registrations == |s.made| && Tied(ViewOf(r), closures, s)
    && Remembers(callbacks, s)
  }

  ghost predicate Remembers(callbacks: seq<nat>, s: Lists) {
    |callbacks| == |s.made| && forall k :: 0 <= k < |callbacks| ==>
        callbacks[k] == s.made[k].callback && s.made[k].no == k
  }

  method StepHook(r: Registry, closures: seq<Target>, callbacks: seq<nat>, ghost s: Lists, op: Op)
    returns (closures': seq<Target>)
    requires OnTrack(r, closures, callbacks, s) && op.Hook?
    modifies r, r.targets
    ensures OnTrack(r, closures', callbacks + [op.callback], After(s, op))
    ensures fresh(r.targets - old(r.targets))
  {
    ghost var v := ViewOf(r);
    assert r.Listed(op.member) == In(s, op.member);
    var target, handle := HookSeen(r, op);
    closures' := closures + [target];
    HookStaysTied(v, closures, s, op, target);
  }

  method StepUnhook(r: Registry, closures: seq<Target>, callbacks: seq<nat>, ghost s: Lists, k: nat)
    requires OnTrack(r, closures, callbacks, s) && Allowed(s, Unhook(k))
    modifies r, r.targets
    ensures OnTrack(r, closures, callbacks, After(s, Unhook(k)))
    ensures r.targets == old(r.targets)
  {
    UnhookStaysTied(ViewOf(r), closures, s, k);
    UnhookSeen(r, closures[k], callbacks[k]);
  }

  /** One operation of a run. */
  method Step(r: Registry, closures: seq<Target>, callbacks: seq<nat>, ghost s: Lists, op: Op)
    returns (closures': seq<Target>, callbacks': seq<nat>)
    requires OnTrack(r, closures, callbacks, s) && Allowed(s, op)
    modifies r, r.targets
    ensures OnTrack(r, closures', callbacks', After(s, op))
    ensures fresh(r.targets - old(r.targets))
  {
    match op
    case Hook(_, _, _, callback) =>
      closures' := StepHook(r, closures, callbacks, s, op);
      callbacks' := callbacks + [callback];
    case Unhook(k) =>
      StepUnhook(r, closures, callbacks, s, k);
      return closures, callbacks;
  }

  /** Over any run in which each unhook is called while its handle is listed, the registry stays valid, so
  that a member is registered iff its list is non-empty iff the framework hook is on it, lists are in
  descending priority with ties in the order of registration, and the lists are those the run should leave. */
  method Perform(ops: seq<Op>) returns (r: Registry)
    requires RunOk(ops)
    ensures r.Valid() && Shows(ViewOf(r), AfterAll(ops))
  {
    r := new Registry();
    var closures: seq<Target>, callbacks: seq<nat> := [], [];
    ghost var s := Lists(map[], []);
    for i := 0 to |ops|
      invariant fresh(r) && fresh(r.targets) && s == AfterAll(ops[..i])
      invariant OnTrack(r, closures, callbacks, s)
    {
      assert ops[..i + 1][..i] == ops[..i];
      assert Allowed(s, ops[i]);
      closures, callbacks := Step(r, closures, callbacks, s, ops[i]);
      s := After(s, ops[i]);
    }
    assert ops[..|ops|] == ops;
  }

  lemma OnlyHandle(handle: HookHandle)
    ensures Inserted([], handle) == [handle]
    ensures Without([handle], handle.callback) == [] == Without([], handle.callback)
  {
    assert [handle][1..] == [];
    assert Without([], handle.callback) == [];
    WithoutFacts([handle], handle.callback);
    assert |Without([handle], handle.callback)| <= 1;
    assert handle !in Without([handle], handle.callback);
  }

  /** Without the condition it fails: a closure called after its own target was retired takes the member's
  new registration down with it, whose handle is then listed for nobody. */
  method StaleUnhook(member: Member, hookType: HookType, priority: Int32, first: nat, second: nat)
    returns (r: Registry, target: Target)
    ensures target in r.targets && target.member == member && target.handles != []
    ensures member !in r.hookedMembers && member !in r.installed
    ensures !r.Valid()
  {
    r := new Registry();
    var retired, gone := r.Hook(member, hookType, priority, first);
    OnlyHandle(gone);
    r.Unhook(retired, first);
    var handle;
    target, handle := r.Hook(member, hookType, priority, second);
    OnlyHandle(handle);
    assert target != retired && r.IsCurrent(target);
    r.Unhook(retired, first);
    assert target.handles == [handle];
  }
}
