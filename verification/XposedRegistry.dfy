/** The hooks of the Xposed backend: one framework hook per member, behind it a list of handles kept in
descending priority, and dispatch along that list. */
module XposedRegistry {
  import opened Priority
  import opened Sequences
  import opened Wrappers
  import Chain = InterceptChain

  type Member = nat

  /** `no` counts the registrations; callbacks are told apart by identity. */
  datatype HookHandle = HookHandle(no: nat, member: Member, hookType: HookType, priority: Int32, callback: nat)

  /** Descending priority, and among equals the order of registration. */
  ghost predicate Ordered(handles: seq<HookHandle>) {
    forall i, j :: 0 <= i < j < |handles| ==> ComesBefore(handles[i], handles[j])
  }

  predicate ComesBefore(a: HookHandle, b: HookHandle) {
    a.priority > b.priority || (a.priority == b.priority && a.no < b.no)
  }

  /** The new handle goes behind everything of at least its priority. */
  function Inserted(handles: seq<HookHandle>, handle: HookHandle): seq<HookHandle> {
    if handles == [] || handles[0].priority < handle.priority then [handle] + handles
    else [handles[0]] + Inserted(handles[1..], handle)
  }

  predicate AllOlder(handles: seq<HookHandle>, no: nat) {
    forall i :: 0 <= i < |handles| ==> handles[i].no < no
  }

  /** Nothing is lost or doubled. */
  lemma {:induction false} InsertedCounts(handles: seq<HookHandle>, handle: HookHandle)
    ensures multiset(Inserted(handles, handle)) == multiset(handles) + multiset{handle}
  {
    if handles != [] {
      assert handles == [handles[0]] + handles[1..];
      if handles[0].priority >= handle.priority {
        InsertedCounts(handles[1..], handle);
      }
    }
  }

  lemma InsertedMembers(handles: seq<HookHandle>, handle: HookHandle)
    ensures forall h :: h in Inserted(handles, handle) <==> h in handles || h == handle
  {
    InsertedCounts(handles, handle);
    forall h ensures h in Inserted(handles, handle) <==> h in handles || h == handle {
      assert h in Inserted(handles, handle) <==> h in multiset(Inserted(handles, handle));
      assert h in handles <==> h in multiset(handles);
    }
  }

  /** Insertion behind equals keeps the order, because the new handle is the youngest. */
  lemma {:induction false} InsertedOrdered(handles: seq<HookHandle>, handle: HookHandle)
    requires Ordered(handles) && AllOlder(handles, handle.no)
    ensures Ordered(Inserted(handles, handle))
  {
    if handles != [] && handles[0].priority >= handle.priority {
      InsertedOrdered(handles[1..], handle);
      InsertedMembers(handles[1..], handle);
      OrderedCons(handles[0], handles[1..], Inserted(handles[1..], handle), handle);
    }
  }

  lemma InsertedFacts(handles: seq<HookHandle>, handle: HookHandle)
    requires Ordered(handles) && AllOlder(handles, handle.no)
    ensures Ordered(Inserted(handles, handle)) && AllOlder(Inserted(handles, handle), handle.no + 1)
  {
    InsertedOrdered(handles, handle);
    InsertedMembers(handles, handle);
    var r := Inserted(handles, handle);
    forall i | 0 <= i < |r| ensures r[i].no < handle.no + 1 {
      assert r[i] in r;
    }
  }

  lemma OrderedCons(first: HookHandle, rest: seq<HookHandle>, inserted: seq<HookHandle>, handle: HookHandle)
    requires forall k :: 0 <= k < |rest| ==> ComesBefore(first, rest[k])
    requires first.priority >= handle.priority && first.no < handle.no
    requires Ordered(inserted) && forall h :: h in inserted <==> h in rest || h == handle
    ensures Ordered([first] + inserted)
  {
    forall j | 0 <= j < |inserted| ensures ComesBefore(first, inserted[j]) {
      assert inserted[j] in inserted;
    }
  }

  lemma InsertFurther(handles: seq<HookHandle>, k: nat, handle: HookHandle)
    requires k < |handles| && handles[k].priority >= handle.priority
    ensures handles[..k] + Inserted(handles[k..], handle) == handles[..k + 1] + Inserted(handles[k + 1..], handle)
  {
    assert handles[..k + 1] == handles[..k] + [handles[k]];
    assert handles[k..][1..] == handles[k + 1..];
    assert Inserted(handles[k..], handle) == [handles[k]] + Inserted(handles[k + 1..], handle);
  }

  lemma InsertHere(handles: seq<HookHandle>, k: nat, handle: HookHandle)
    requires k <= |handles| && (k < |handles| ==> handles[k].priority < handle.priority)
    ensures handles[..k] + Inserted(handles[k..], handle) == handles[..k] + [handle] + handles[k..]
  {
    assert Inserted(handles[k..], handle) == [handle] + handles[k..];
  }

  /** indexOfFirst { it.priority < priority }, or the end, and an insertion there. */
  method Insert(handles: seq<HookHandle>, handle: HookHandle) returns (r: seq<HookHandle>)
    ensures r == Inserted(handles, handle)
  {
    var k := 0;
    while k < |handles| && handles[k].priority >= handle.priority
      invariant 0 <= k <= |handles|
      invariant handles[..k] + Inserted(handles[k..], handle) == Inserted(handles, handle)
    {
      InsertFurther(handles, k, handle);
      k := k + 1;
    }
    InsertHere(handles, k, handle);
    return handles[..k] + [handle] + handles[k..];
  }

  function Without(handles: seq<HookHandle>, callback: nat): seq<HookHandle> {
    Filter((h: HookHandle) => h.callback != callback, handles)
  }

  lemma TakenOrdered(handles: seq<HookHandle>, at: seq<nat>, r: seq<HookHandle>)
    requires TakenAt(handles, at, r) && Ordered(handles)
    ensures Ordered(r)
  {
  }

  lemma WithoutFacts(handles: seq<HookHandle>, callback: nat)
    ensures forall h :: h in Without(handles, callback) <==> h in handles && h.callback != callback
    ensures Ordered(handles) ==> Ordered(Without(handles, callback))
  {
    FilterMembers((h: HookHandle) => h.callback != callback, handles);
    var at := WithoutKeepsOrder(handles, callback);
    if Ordered(handles) {
      TakenOrdered(handles, at, Without(handles, callback));
    }
  }

  /** Of any list, ordered or not, what is left are the handles with other callbacks, as often as before and in
  their order. */
  lemma WithoutKeepsOrder(handles: seq<HookHandle>, callback: nat) returns (at: seq<nat>)
    ensures TakenAt(handles, at, Without(handles, callback))
    ensures forall i: nat :: i in at <==> i < |handles| && handles[i].callback != callback
  {
    at := FilterKeepsOrder((h: HookHandle) => h.callback != callback, handles);
  }

  /** HookedMember: what a member's framework hook dispatches to. */
  class Target {
    const member: Member
    var handles: seq<HookHandle>

    constructor (member: Member)
      ensures this.member == member && handles == []
    {
      this.member := member;
      handles := [];
    }
  }

  class Registry {
    var hookedMembers: map<Member, Target>
    /** The members that carry the backend's framework hook. */
    var installed: set<Member>
    var registrations: nat
    /** Every target ever made: an unhook closure may hold on to any of them. */
    ghost var targets: set<Target>

    /** A member is registered iff the framework hook is on it, and a target is registered iff it lists
    handles; the lists are ordered. */
    ghost predicate Valid()
      reads this, targets
    {
      && installed == hookedMembers.Keys
      && (forall m :: m in hookedMembers ==> hookedMembers[m] in targets && hookedMembers[m].member == m)
      && (forall t :: t in targets ==> (t.handles != [] <==> IsCurrent(t)))
      && (forall t :: t in targets ==> Ordered(t.handles))
      && (forall t :: t in targets ==> AllOlder(t.handles, registrations))
    }

    ghost predicate IsCurrent(t: Target)
      reads this
    {
      t.member in hookedMembers && hookedMembers[t.member] == t
    }

    constructor ()
      ensures Valid() && hookedMembers == map[] && targets == {} && registrations == 0
    {
      hookedMembers := map[];
      installed := {};
      registrations := 0;
      targets := {};
    }

    method GetOrPut(member: Member) returns (target: Target)
      requires Valid()
      modifies this
      ensures old(member in hookedMembers) ==> target == old(hookedMembers[member]) && unchanged(this)
      ensures !old(member in hookedMembers) ==>
                && fresh(target) && target.member == member && target.handles == []
                && hookedMembers == old(hookedMembers)[member := target]
                && installed == old(installed) + {member}
                && registrations == old(registrations) && targets == old(targets) + {target}
    {
      if member in hookedMembers {
        return hookedMembers[member];
      }
      target := new Target(member);
      hookedMembers := hookedMembers[member := target];
      installed := installed + {member};
      targets := targets + {target};
    }

    /** The handles listed for a member: none when it is not registered. */
    ghost function Listed(member: Member): seq<HookHandle>
      reads this, targets
      requires Valid()
    {
      if member in hookedMembers then hookedMembers[member].handles else []
    }

    /** The tail of hook: the handle is put into its target's list. */
    method AddTo(target: Target, handle: HookHandle)
      requires target in targets && handle.no == registrations
      requires forall t :: t in targets ==> Ordered(t.handles) && AllOlder(t.handles, registrations)
      modifies this`registrations, target
      ensures registrations == old(registrations) + 1
      ensures target.handles == Inserted(old(target.handles), handle) && target.handles != []
      ensures forall t :: t in targets ==> Ordered(t.handles) && AllOlder(t.handles, registrations)
    {
      InsertedFacts(target.handles, handle);
      target.handles := Insert(target.handles, handle);
      registrations := registrations + 1;
    }

    /** hook. */
    method Hook(member: Member, hookType: HookType, priority: Int32, callback: nat)
      returns (target: Target, handle: HookHandle)
      requires Valid()
      modifies this, targets
      ensures Valid() && IsCurrent(target) && target.member == member
      ensures handle == HookHandle(old(registrations), member, hookType, priority, callback)
      ensures target.handles == Inserted(old(Listed(member)), handle)
      ensures forall t :: t in old(targets) && t != target ==> t.handles == old(t.handles)
      ensures targets == old(targets) + {target} && hookedMembers == old(hookedMembers)[member := target]
      ensures registrations == old(registrations) + 1
      ensures if old(member in hookedMembers) then target == old(hookedMembers[member]) else fresh(target)
    {
      target := GetOrPut(member);
      handle := HookHandle(registrations, member, hookType, priority, callback);
      AddTo(target, handle);
    }

    /** The unhook closure of a handle: it knows the target it was registered with and its callback. It keeps
    the registry valid exactly when that target is the member's current one or the member has none. */
    method Unhook(target: Target, callback: nat)
      requires Valid() && target in targets
      modifies this, target
      ensures Valid() <==> old(IsCurrent(target) || target.member !in hookedMembers)
      ensures target.handles == Without(old(target.handles), callback)
      ensures registrations == old(registrations) && targets == old(targets)
      ensures target.handles != [] ==> hookedMembers == old(hookedMembers) && installed == old(installed)
      ensures target.handles == [] ==>
                && hookedMembers == old(hookedMembers) - {target.member}
                && installed == old(installed) - {target.member}
    {
      WithoutFacts(target.handles, callback);
      target.handles := Without(target.handles, callback);
      assert forall t :: t in targets ==> Ordered(t.handles) && AllOlder(t.handles, registrations);
      if target.handles == [] {
        hookedMembers := hookedMembers - {target.member};
        installed := installed - {target.member};
      }
    }

    /** runCallback: dispatch over the handles of the member, if it is registered. */
    method RunCallback(member: Member, hookType: HookType, behave: Behaviour)
      returns (called: seq<HookHandle>, threw: Option<Chain.Exn>, result: Option<Chain.Value>)
      requires Valid()
      ensures Dispatched(Listed(member), hookType, behave, called, threw, result)
    {
      if member !in hookedMembers {
        return [], None, None;
      }
      called, threw, result := Dispatch(hookedMembers[member].handles, hookType, behave);
    }
  }

  /** The handles of the given type have run in list order, up to the first that threw; `result` is the last
  result any of them assigned. */
  ghost predicate Dispatched(handles: seq<HookHandle>, hookType: HookType, behave: Behaviour,
                             called: seq<HookHandle>, threw: Option<Chain.Exn>, result: Option<Chain.Value>) {
    && NoneThrewBefore(behave, called, if threw.None? then |called| else |called| - 1)
    && (threw.None? ==> called == Typed(handles, hookType))
    && (threw.Some? ==> called != [] && called <= Typed(handles, hookType) && Last(behave, called).throws == threw)
    && result == LastWrite(behave, called)
  }

  /** Of the callbacks of the type, the first that throws is the last to run, and its exception is the one
  passed on; when none throws all of them run. */
  lemma DispatchStopsAtFirstThrow(handles: seq<HookHandle>, hookType: HookType, behave: Behaviour, k: nat,
                                  called: seq<HookHandle>, threw: Option<Chain.Exn>, result: Option<Chain.Value>)
    requires Dispatched(handles, hookType, behave, called, threw, result)
    requires var typed := Typed(handles, hookType);
             k <= |typed| && forall j :: 0 <= j < k ==> behave(typed[..j], typed[j]).throws == None
    ensures var typed := Typed(handles, hookType);
            && (k == |typed| ==> called == typed && threw == None)
            && (k < |typed| && behave(typed[..k], typed[k]).throws.Some? ==>
                  called == typed[..k + 1] && threw == behave(typed[..k], typed[k]).throws)
  {
    var typed := Typed(handles, hookType);
    assert forall j :: 0 <= j < |called| ==> called[..j] == typed[..j] && called[j] == typed[j];
    if threw.Some? {
      var last := |called| - 1;
      assert behave(typed[..last], typed[last]).throws == threw;
    }
  }

  /** Where dispatch stands before handle `i`. */
  ghost predicate Dispatching(handles: seq<HookHandle>, hookType: HookType, behave: Behaviour, i: nat,
                              called: seq<HookHandle>, result: Option<Chain.Value>) {
    && i <= |handles|
    && called + Typed(handles[i..], hookType) == Typed(handles, hookType)
    && NoneThrewBefore(behave, called, |called|)
    && result == LastWrite(behave, called)
  }

  /** One turn of the loop. */
  method RunOne(handles: seq<HookHandle>, hookType: HookType, behave: Behaviour, i: nat,
                before: seq<HookHandle>, last: Option<Chain.Value>)
    returns (called: seq<HookHandle>, threw: Option<Chain.Exn>, result: Option<Chain.Value>)
    requires i < |handles| && Dispatching(handles, hookType, behave, i, before, last)
    ensures threw.None? ==> Dispatching(handles, hookType, behave, i + 1, called, result)
    ensures threw.Some? ==> Dispatched(handles, hookType, behave, called, threw, result)
  {
    called, threw, result := before, None, last;
    TypedAt(handles, i, hookType, before);
    if handles[i].hookType == hookType {
      var reaction := behave(before, handles[i]);
      OneMore(behave, before, handles[i]);
      called, threw := before + [handles[i]], reaction.throws;
      if reaction.writes != [] {
        result := Some(reaction.writes[|reaction.writes| - 1]);
      }
    }
  }

  /** The loop of runCallback; `result` is what param.result is set to afterwards, if anything. */
  method Dispatch(handles: seq<HookHandle>, hookType: HookType, behave: Behaviour)
    returns (called: seq<HookHandle>, threw: Option<Chain.Exn>, result: Option<Chain.Value>)
    ensures Dispatched(handles, hookType, behave, called, threw, result)
  {
    called, threw, result := [], None, None;
    for i := 0 to |handles|
      invariant threw.None? && Dispatching(handles, hookType, behave, i, called, result)
    {
      called, threw, result := RunOne(handles, hookType, behave, i, called, result);
      if threw.Some? {
        return;
      }
    }
    assert handles[|handles|..] == [];
  }

  /** The reaction of the last of the called callbacks. */
  function Last(behave: Behaviour, called: seq<HookHandle>): Reaction
    requires called != []
  {
    behave(called[..|called| - 1], called[|called| - 1])
  }

  ghost predicate NoneThrewBefore(behave: Behaviour, called: seq<HookHandle>, n: int) {
    forall k :: 0 <= k < n && k < |called| ==> behave(called[..k], called[k]).throws.None?
  }

  lemma OneMore(behave: Behaviour, called: seq<HookHandle>, handle: HookHandle)
    ensures var reaction := behave(called, handle);
            && Last(behave, called + [handle]) == reaction
            && LastWrite(behave, called + [handle])
               == (if reaction.writes == [] then LastWrite(behave, called)
                   else Some(reaction.writes[|reaction.writes| - 1]))
    ensures NoneThrewBefore(behave, called, |called|) ==>
              NoneThrewBefore(behave, called + [handle],
                              if behave(called, handle).throws.None? then |called| + 1 else |called|)
  {
    var more := called + [handle];
    assert more[..|called|] == called;
    assert forall k :: 0 <= k < |called| ==> more[..k] == called[..k];
  }

  /** The result kept is the last one assigned by the last callback that assigned any. */
  lemma {:induction false} LastWriteIs(behave: Behaviour, called: seq<HookHandle>)
    ensures LastWrite(behave, called).None? <==>
            forall k :: 0 <= k < |called| ==> behave(called[..k], called[k]).writes == []
    ensures LastWrite(behave, called).Some? ==>
              exists k :: 0 <= k < |called| && WroteLast(behave, called, k, LastWrite(behave, called).value)
  {
    if called != [] {
      var last := |called| - 1;
      var front := called[..last];
      LastWriteIs(behave, front);
      assert forall k :: 0 <= k < last ==> front[..k] == called[..k] && front[k] == called[k];
      if behave(front, called[last]).writes != [] {
        assert WroteLast(behave, called, last, LastWrite(behave, called).value);
      } else if LastWrite(behave, front).Some? {
        var k :| 0 <= k < |front| && WroteLast(behave, front, k, LastWrite(behave, front).value);
        assert WroteLast(behave, called, k, LastWrite(behave, called).value);
      }
    }
  }

  /** Callback `k` assigned the value last, and none after it assigned any. */
  ghost predicate WroteLast(behave: Behaviour, called: seq<HookHandle>, k: nat, value: Chain.Value)
    requires k < |called|
  {
    var writes := behave(called[..k], called[k]).writes;
    && writes != [] && value == writes[|writes| - 1]
    && forall j :: k < j < |called| ==> behave(called[..j], called[j]).writes == []
  }

  /** What a callback does when it runs after the given ones: the results it assigns and how it ends. */
  datatype Reaction = Reaction(writes: seq<Chain.Value>, throws: Option<Chain.Exn>)

  type Behaviour = (seq<HookHandle>, HookHandle) -> Reaction

  function Typed(handles: seq<HookHandle>, hookType: HookType): seq<HookHandle> {
    Filter((h: HookHandle) => h.hookType == hookType, handles)
  }

  lemma TypedAt(handles: seq<HookHandle>, i: nat, hookType: HookType, called: seq<HookHandle>)
    requires i < |handles|
    ensures called + Typed(handles[i..], hookType)
            == (if handles[i].hookType == hookType then called + [handles[i]] else called)
                + Typed(handles[i + 1..], hookType)
  {
    assert handles[i..][1..] == handles[i + 1..];
  }

  /** The last result assigned by any of the called callbacks. */
  function LastWrite(behave: Behaviour, called: seq<HookHandle>): Option<Chain.Value> {
    if called == [] then None
    else
      var front := called[..|called| - 1];
      var writes := behave(front, called[|called| - 1]).writes;
      if writes == [] then LastWrite(behave, front) else Some(writes[|writes| - 1])
  }

  /** Of any list, the handles of one type are chosen as often as they stand there and in their order. */
  lemma TypedKeepsOrder(handles: seq<HookHandle>, hookType: HookType) returns (at: seq<nat>)
    ensures TakenAt(handles, at, Typed(handles, hookType))
    ensures forall i: nat :: i in at <==> i < |handles| && handles[i].hookType == hookType
  {
    at := FilterKeepsOrder((h: HookHandle) => h.hookType == hookType, handles);
  }

  lemma TypedFacts(handles: seq<HookHandle>, hookType: HookType)
    ensures forall h :: h in Typed(handles, hookType) <==> h in handles && h.hookType == hookType
    ensures Ordered(handles) ==> Ordered(Typed(handles, hookType))
  {
    FilterMembers((h: HookHandle) => h.hookType == hookType, handles);
    var at := TypedKeepsOrder(handles, hookType);
    if Ordered(handles) {
      TakenOrdered(handles, at, Typed(handles, hookType));
    }
  }
}
