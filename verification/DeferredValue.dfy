/** A set-once cell with callbacks and suspended waiters.

`Core` and the class `Cell` are the state under the lock and its critical sections. The module below
them interleaves any number of calls, one critical section or one delivery per step. */
module DeferredCell {
  import opened Wrappers

  /** The fields guarded by the lock; callbacks and waiters are named by the calls that brought them. */
  datatype Core<T> = Core(value: Option<T>, callbacks: seq<nat>, waiters: seq<nat>)

  /** What a setter takes away with it when it wins. */
  datatype Snapshot = Snapshot(callbacks: seq<nat>, waiters: seq<nat>)

  function AfterSet<T>(c: Core<T>, v: T): Core<T> {
    if c.value.Some? then c else Core(Some(v), [], [])
  }

  function AfterRegister<T>(c: Core<T>, block: nat): Core<T> {
    if c.value.Some? then c else c.(callbacks := c.callbacks + [block])
  }

  function AfterPark<T>(c: Core<T>, waiter: nat): Core<T> {
    if c.value.Some? then c else c.(waiters := c.waiters + [waiter])
  }

  class Cell<T> {
    var value: Option<T>
    var callbacks: seq<nat>
    var waiters: seq<nat>

    function View(): Core<T>
      reads this
    {
      Core(value, callbacks, waiters)
    }

    constructor ()
      ensures View() == Core(None, [], [])
    {
      value, callbacks, waiters := None, [], [];
    }

    /** The setter's critical section: None is the exception for a value already set. */
    method Set(v: T) returns (taken: Option<Snapshot>)
      modifies this
      ensures View() == AfterSet(old(View()), v)
      ensures taken == if old(value).Some? then None else Some(Snapshot(old(callbacks), old(waiters)))
    {
      if value.Some? {
        return None;
      }
      value := Some(v);
      var taking := Snapshot(callbacks, waiters);
      callbacks := [];
      waiters := [];
      return Some(taking);
    }

    /** The critical section of whenInitialize: the value, when the caller has to run the block itself. */
    method Register(block: nat) returns (now: Option<T>)
      modifies this
      ensures View() == AfterRegister(old(View()), block)
      ensures now == old(value)
    {
      if value.Some? {
        return value;
      }
      callbacks := callbacks + [block];
      return None;
    }

    /** The critical section of await: the value to resume with at once, or the waiter is parked. */
    method Park(waiter: nat) returns (now: Option<T>)
      modifies this
      ensures View() == AfterPark(old(View()), waiter)
      ensures now == old(value)
    {
      if value.Some? {
        return value;
      }
      waiters := waiters + [waiter];
      return None;
    }
  }
}

module DeferredValue {
  import opened DeferredCell
  import opened Sequences
  import opened Wrappers

  /** The calls made on the cell, each by its own thread or coroutine; call `i` names its own block or waiter. */
  datatype Call<T> = Set(v: T) | WhenInitialize | Await

  datatype Pc<T> =
    | Ready
    | SlowAwait                                         // saw no value outside the lock
    | RunBlock(v: T)                                    // whenInitialize has the value and runs its own block
    | Delivering(callbacks: seq<nat>, waiters: seq<nat>, v: T)
    | Queued                                            // left its block or waiter in the cell
    | Served                                            // ran its own block, or got the value directly
    | Finished
    | Rejected                                          // the setter that threw

  /** A delivery: the block or waiter of call `id`, with the value it got. */
  datatype Event<T> = Event(id: nat, v: T)

  /** `queued` and `parked` record every block and waiter ever left in the cell; `started` and `resumed` the
  deliveries out of the setter's snapshot; `direct` those that got the value without being queued; `failed`
  the blocks that threw. */
  datatype State<T> = State(
    core: Core<T>, pcs: seq<Pc<T>>,
    queued: seq<nat>, parked: seq<nat>,
    started: seq<Event<T>>, resumed: seq<Event<T>>, direct: seq<Event<T>>, failed: seq<nat>)

  function Init<T>(calls: seq<Call<T>>): State<T> {
    State(Core(None, [], []), seq(|calls|, _ => Ready), [], [], [], [], [], [])
  }

  /** One step of call `i`. `throws` says whether a block that this step starts throws; None when the call
  has nothing left to do. */
  function Step<T>(calls: seq<Call<T>>, s: State<T>, i: nat, throws: bool): Option<State<T>>
    requires |calls| == |s.pcs| && i < |calls|
  {
    match s.pcs[i]
    case Ready =>
      (match calls[i]
       case Set(v) =>
         if s.core.value.Some? then Some(s.(pcs := s.pcs[i := Rejected]))
         else Some(s.(core := AfterSet(s.core, v), pcs := s.pcs[i := Delivering(s.core.callbacks, s.core.waiters, v)]))
       case WhenInitialize =>
         if s.core.value.Some? then Some(s.(pcs := s.pcs[i := RunBlock(s.core.value.value)]))
         else Some(s.(core := AfterRegister(s.core, i), queued := s.queued + [i], pcs := s.pcs[i := Queued]))
       case Await =>
         if s.core.value.Some? then
           Some(s.(direct := s.direct + [Event(i, s.core.value.value)], pcs := s.pcs[i := Served]))
         else Some(s.(pcs := s.pcs[i := SlowAwait])))
    case SlowAwait =>
      if s.core.value.Some? then
        Some(s.(direct := s.direct + [Event(i, s.core.value.value)], pcs := s.pcs[i := Served]))
      else Some(s.(core := AfterPark(s.core, i), parked := s.parked + [i], pcs := s.pcs[i := Queued]))
    case RunBlock(v) =>
      Some(s.(direct := s.direct + [Event(i, v)], failed := Fail(s.failed, i, throws), pcs := s.pcs[i := Served]))
    case Delivering(callbacks, waiters, v) =>
      if callbacks != [] then
        Some(s.(started := s.started + [Event(callbacks[0], v)], failed := Fail(s.failed, callbacks[0], throws),
                pcs := s.pcs[i := Delivering(callbacks[1..], waiters, v)]))
      else if waiters != [] then
        Some(s.(resumed := s.resumed + [Event(waiters[0], v)], pcs := s.pcs[i := Delivering([], waiters[1..], v)]))
      else Some(s.(pcs := s.pcs[i := Finished]))
    case _ => None
  }

  function Fail(failed: seq<nat>, id: nat, throws: bool): seq<nat> {
    if throws then failed + [id] else failed
  }

  datatype Choice = Choice(call: nat, throws: bool)

  function Next<T>(calls: seq<Call<T>>, s: State<T>, c: Choice): State<T>
    requires |calls| == |s.pcs|
  {
    if c.call < |calls| && Step(calls, s, c.call, c.throws).Some? then Step(calls, s, c.call, c.throws).value else s
  }

  function Run<T>(calls: seq<Call<T>>, s: State<T>, schedule: seq<Choice>): (r: State<T>)
    requires |calls| == |s.pcs|
    ensures |calls| == |r.pcs|
    decreases |schedule|
  {
    if schedule == [] then s else Run(calls, Next(calls, s, schedule[0]), schedule[1..])
  }

  /** No call can take a step: the setters and the blocks are done, and only parked waiters remain. */
  predicate Quiet<T>(calls: seq<Call<T>>, s: State<T>)
    requires |calls| == |s.pcs|
  {
    forall i, throws | 0 <= i < |calls| && throws in {false, true} :: Step(calls, s, i, throws).None?
  }

  // The invariant

  function Ids<T>(events: seq<Event<T>>): (ids: seq<nat>)
    ensures |ids| == |events|
  {
    seq(|events|, k requires 0 <= k < |events| => events[k].id)
  }

  /** The setter that won, if it is still at work. */
  ghost predicate IsWinner<T>(s: State<T>, w: nat) {
    w < |s.pcs| && (s.pcs[w].Delivering? || s.pcs[w].Finished?)
  }

  ghost function LeftBlocks<T>(s: State<T>, w: nat): seq<nat>
    requires w < |s.pcs|
  {
    if s.pcs[w].Delivering? then s.pcs[w].callbacks else []
  }

  ghost function LeftWaiters<T>(s: State<T>, w: nat): seq<nat>
    requires w < |s.pcs|
  {
    if s.pcs[w].Delivering? then s.pcs[w].waiters else []
  }

  /** Before a value is set: everything queued is in the cell. */
  ghost predicate Unset<T>(s: State<T>) {
    && s.core.callbacks == s.queued && s.core.waiters == s.parked
    && s.started == [] && s.resumed == [] && s.direct == []
    && (forall i :: 0 <= i < |s.pcs| ==> s.pcs[i].Ready? || s.pcs[i].SlowAwait? || s.pcs[i].Queued?)
  }

  /** After: one setter has it, and what was queued is what it has delivered, in order, and has yet to deliver. */
  ghost predicate SetBy<T>(s: State<T>, w: nat, v: T) {
    && IsWinner(s, w)
    && s.core.callbacks == [] && s.core.waiters == []
    && (forall i :: 0 <= i < |s.pcs| && i != w ==> !IsWinner(s, i))
    && (s.pcs[w].Delivering? ==> s.pcs[w].v == v)
    && s.queued == Ids(s.started) + LeftBlocks(s, w)
    && s.parked == Ids(s.resumed) + LeftWaiters(s, w)
    && (LeftBlocks(s, w) != [] ==> s.resumed == [])
    && AllGet(s.started, v) && AllGet(s.resumed, v) && AllGet(s.direct, v)
    && (forall i :: 0 <= i < |s.pcs| && s.pcs[i].RunBlock? ==> s.pcs[i].v == v)
  }

  predicate AllGet<T(==)>(events: seq<Event<T>>, v: T) {
    forall k :: 0 <= k < |events| ==> events[k].v == v
  }

  /** Each call leaves its block or waiter in one place at most, and where its program counter says. */
  ghost predicate Placed<T>(calls: seq<Call<T>>, s: State<T>) {
    && |calls| == |s.pcs|
    && NoDuplicates(s.queued) && NoDuplicates(s.parked) && NoDuplicates(Ids(s.direct))
    && (forall i :: i in s.queued <==> 0 <= i < |calls| && s.pcs[i].Queued? && calls[i].WhenInitialize?)
    && (forall i :: i in s.parked <==> 0 <= i < |calls| && s.pcs[i].Queued? && calls[i].Await?)
    && (forall i :: i in Ids(s.direct) <==> 0 <= i < |calls| && s.pcs[i].Served?)
    && (forall i :: 0 <= i < |calls| ==> PcFits(calls[i], s.pcs[i]))
  }

  predicate PcFits<T>(c: Call<T>, pc: Pc<T>) {
    match pc
    case Ready => true
    case SlowAwait => c.Await?
    case RunBlock(_) => c.WhenInitialize?
    case Delivering(_, _, _) => c.Set?
    case Queued => !c.Set?
    case Served => !c.Set?
    case Finished => c.Set?
    case Rejected => c.Set?
  }

  ghost predicate Inv<T(!new)>(calls: seq<Call<T>>, s: State<T>) {
    && Placed(calls, s)
    && match s.core.value
       case None => Unset(s)
       case Some(v) => exists w: nat :: SetBy(s, w, v)
  }

  lemma IdsAppend<T>(events: seq<Event<T>>, e: Event<T>)
    ensures Ids(events + [e]) == Ids(events) + [e.id]
  {
  }

  lemma InitInv<T(!new)>(calls: seq<Call<T>>)
    ensures Inv(calls, Init(calls))
  {
  }

  /** Steps that move no block and no waiter. */
  lemma KeepsPlaces<T(!new)>(calls: seq<Call<T>>, s: State<T>, s': State<T>, i: nat)
    requires Placed(calls, s) && i < |calls| && |s'.pcs| == |s.pcs|
    requires s'.queued == s.queued && s'.parked == s.parked && s'.direct == s.direct
    requires s'.pcs == s.pcs[i := s'.pcs[i]] && PcFits(calls[i], s'.pcs[i])
    requires !s.pcs[i].Queued? && !s.pcs[i].Served? && !s'.pcs[i].Queued? && !s'.pcs[i].Served?
    ensures Placed(calls, s')
  {
  }

  /** A call that gets the value directly. */
  lemma KeepsPlacesDirect<T(!new)>(calls: seq<Call<T>>, s: State<T>, s': State<T>, i: nat, v: T)
    requires Placed(calls, s) && i < |calls| && |s'.pcs| == |s.pcs|
    requires s'.queued == s.queued && s'.parked == s.parked && s'.direct == s.direct + [Event(i, v)]
    requires s'.pcs == s.pcs[i := Served] && !calls[i].Set?
    requires !s.pcs[i].Queued? && !s.pcs[i].Served?
    ensures Placed(calls, s')
  {
    IdsAppend(s.direct, Event(i, v));
    assert i !in Ids(s.direct);
  }

  lemma KeepsPlacesQueued<T(!new)>(calls: seq<Call<T>>, s: State<T>, s': State<T>, i: nat)
    requires Placed(calls, s) && i < |calls| && |s'.pcs| == |s.pcs| && calls[i].WhenInitialize?
    requires s'.queued == s.queued + [i] && s'.parked == s.parked
    requires s'.direct == s.direct && s'.pcs == s.pcs[i := Queued]
    requires !s.pcs[i].Queued? && !s.pcs[i].Served?
    ensures Placed(calls, s')
  {
    assert i !in s.queued;
  }

  lemma KeepsPlacesParked<T(!new)>(calls: seq<Call<T>>, s: State<T>, s': State<T>, i: nat)
    requires Placed(calls, s) && i < |calls| && |s'.pcs| == |s.pcs| && calls[i].Await?
    requires s'.queued == s.queued && s'.parked == s.parked + [i]
    requires s'.direct == s.direct && s'.pcs == s.pcs[i := Queued]
    requires !s.pcs[i].Queued? && !s.pcs[i].Served?
    ensures Placed(calls, s')
  {
    assert i !in s.parked;
  }

  lemma StepBeforeSet<T(!new)>(calls: seq<Call<T>>, s: State<T>, i: nat, throws: bool)
    requires Inv(calls, s) && s.core.value.None? && i < |calls| && Step(calls, s, i, throws).Some?
    ensures Inv(calls, Step(calls, s, i, throws).value)
  {
    var s' := Step(calls, s, i, throws).value;
    match s.pcs[i]
    case Ready =>
      if calls[i].WhenInitialize? {
        KeepsPlacesQueued(calls, s, s', i);
      } else {
        KeepsPlaces(calls, s, s', i);
        if calls[i].Set? {
          assert SetBy(s', i, calls[i].v);
        }
      }
    case SlowAwait =>
      KeepsPlacesParked(calls, s, s', i);
  }

  /** The winner delivers the next block, then the next waiter, then is done. */
  lemma StepOfWinner<T(!new)>(calls: seq<Call<T>>, s: State<T>, throws: bool, w: nat, v: T)
    requires Placed(calls, s) && s.core.value == Some(v) && SetBy(s, w, v)
    requires Step(calls, s, w, throws).Some?
    ensures var s' := Step(calls, s, w, throws).value;
            Placed(calls, s') && s'.core == s.core && SetBy(s', w, v)
  {
    var s' := Step(calls, s, w, throws).value;
    KeepsPlaces(calls, s, s', w);
    var callbacks, waiters := s.pcs[w].callbacks, s.pcs[w].waiters;
    if callbacks != [] {
      IdsAppend(s.started, Event(callbacks[0], v));
      assert Ids(s.started) + callbacks == Ids(s'.started) + callbacks[1..];
    } else if waiters != [] {
      IdsAppend(s.resumed, Event(waiters[0], v));
      assert Ids(s.resumed) + waiters == Ids(s'.resumed) + waiters[1..];
    }
    forall j | 0 <= j < |s'.pcs| && j != w ensures !IsWinner(s', j) {
      assert !IsWinner(s, j);
    }
  }

  lemma StepOfOther<T(!new)>(calls: seq<Call<T>>, s: State<T>, i: nat, throws: bool, w: nat, v: T)
    requires Placed(calls, s) && s.core.value == Some(v) && SetBy(s, w, v)
    requires i < |calls| && i != w && Step(calls, s, i, throws).Some?
    ensures var s' := Step(calls, s, i, throws).value;
            Placed(calls, s') && s'.core == s.core && SetBy(s', w, v)
  {
    var s' := Step(calls, s, i, throws).value;
    assert !IsWinner(s, i);
    if s'.pcs[i] == Served {
      KeepsPlacesDirect(calls, s, s', i, v);
    } else {
      KeepsPlaces(calls, s, s', i);
    }
    forall j | 0 <= j < |s'.pcs| && j != w ensures !IsWinner(s', j) {
      assert !IsWinner(s, j);
    }
  }

  lemma {:induction false} RunKeepsInv<T(!new)>(calls: seq<Call<T>>, s: State<T>, schedule: seq<Choice>)
    requires Inv(calls, s)
    ensures Inv(calls, Run(calls, s, schedule))
    decreases |schedule|
  {
    if schedule != [] {
      var c := schedule[0];
      if c.call < |calls| && Step(calls, s, c.call, c.throws).Some? {
        if s.core.value.None? {
          StepBeforeSet(calls, s, c.call, c.throws);
        } else {
          var w: nat :| SetBy(s, w, s.core.value.value);
          if c.call == w {
            StepOfWinner(calls, s, c.throws, w, s.core.value.value);
          } else {
            StepOfOther(calls, s, c.call, c.throws, w, s.core.value.value);
          }
        }
      }
      RunKeepsInv(calls, Next(calls, s, c), schedule[1..]);
    }
  }

  // What the invariant means

  function Times(id: nat, ids: seq<nat>): nat {
    multiset(ids)[id]
  }

  lemma {:induction false} OnceAtMost(ids: seq<nat>, id: nat)
    requires NoDuplicates(ids)
    ensures Times(id, ids) == if id in ids then 1 else 0
  {
    if ids != [] {
      var rest := ids[..|ids| - 1];
      assert ids == rest + [ids[|ids| - 1]];
      OnceAtMost(rest, id);
    }
  }

  /** How often call `i`'s block has started. */
  function Starts<T>(s: State<T>, i: nat): nat {
    Times(i, Ids(s.started)) + Times(i, Ids(s.direct))
  }

  /** How often call `i`'s waiter has been resumed. */
  function Resumes<T>(s: State<T>, i: nat): nat {
    Times(i, Ids(s.resumed)) + Times(i, Ids(s.direct))
  }

  lemma PrefixNoDuplicates(a: seq<nat>, b: seq<nat>)
    requires NoDuplicates(a + b)
    ensures NoDuplicates(a)
  {
    assert forall k :: 0 <= k < |a| ==> a[k] == (a + b)[k];
  }

  /** At every moment of every run, no block has started twice and no waiter was resumed twice, nothing is
  delivered before a value is set, and every delivery is of the value that was set. */
  lemma NeverTwice<T(!new)>(calls: seq<Call<T>>, schedule: seq<Choice>, i: nat)
    requires i < |calls|
    ensures var s := Run(calls, Init(calls), schedule);
            && (calls[i].WhenInitialize? ==> Starts(s, i) <= 1)
            && (calls[i].Await? ==> Resumes(s, i) <= 1)
            && (s.core.value.None? ==> s.started == [] && s.resumed == [] && s.direct == [])
            && (s.core.value.Some? ==>
                  var v := s.core.value.value; AllGet(s.started, v) && AllGet(s.resumed, v) && AllGet(s.direct, v))
  {
    InitInv(calls);
    RunKeepsInv(calls, Init(calls), schedule);
    var s := Run(calls, Init(calls), schedule);
    OnceAtMost(Ids(s.direct), i);
    if s.core.value.Some? {
      var w: nat :| SetBy(s, w, s.core.value.value);
      PrefixNoDuplicates(Ids(s.started), LeftBlocks(s, w));
      PrefixNoDuplicates(Ids(s.resumed), LeftWaiters(s, w));
      OnceAtMost(Ids(s.started), i);
      OnceAtMost(Ids(s.resumed), i);
      assert i in Ids(s.started) ==> i in s.queued;
      assert i in Ids(s.resumed) ==> i in s.parked;
    }
  }

  /** At rest with a value set, the winner has delivered all that was queued, and every other call that brought
  a block or a waiter either queued it or was served directly. */
  lemma AtRest<T(!new)>(calls: seq<Call<T>>, s: State<T>, i: nat)
    requires Inv(calls, s) && Quiet(calls, s) && i < |calls| && !calls[i].Set?
    ensures s.pcs[i].Queued? || (s.pcs[i].Served? && s.core.value.Some?)
    ensures s.core.value.Some? ==> s.queued == Ids(s.started) && s.parked == Ids(s.resumed)
  {
    assert Step(calls, s, i, false).None?;
    if s.core.value.Some? {
      var w: nat :| SetBy(s, w, s.core.value.value);
      assert Step(calls, s, w, false).None?;
      assert s.pcs[w].Finished?;
    }
  }

  /** When a run with a set value has come to rest, every block has started exactly once and every waiter
  was resumed exactly once; without a value, none of them was. */
  lemma ExactlyOnce<T(!new)>(calls: seq<Call<T>>, schedule: seq<Choice>, i: nat)
    requires i < |calls| && Quiet(calls, Run(calls, Init(calls), schedule))
    ensures var s := Run(calls, Init(calls), schedule);
            var times := if s.core.value.Some? then 1 else 0;
            && (calls[i].WhenInitialize? ==> Starts(s, i) == times)
            && (calls[i].Await? ==> Resumes(s, i) == times)
  {
    InitInv(calls);
    RunKeepsInv(calls, Init(calls), schedule);
    var s := Run(calls, Init(calls), schedule);
    if !calls[i].Set? {
      AtRest(calls, s, i);
      CountAtRest(calls, s, i);
    }
  }

  lemma CountAtRest<T(!new)>(calls: seq<Call<T>>, s: State<T>, i: nat)
    requires Inv(calls, s) && i < |calls| && !calls[i].Set?
    requires s.pcs[i].Queued? || (s.pcs[i].Served? && s.core.value.Some?)
    requires s.core.value.Some? ==> s.queued == Ids(s.started) && s.parked == Ids(s.resumed)
    ensures var times := if s.core.value.Some? then 1 else 0;
            && (calls[i].WhenInitialize? ==> Starts(s, i) == times)
            && (calls[i].Await? ==> Resumes(s, i) == times)
  {
    OnceAtMost(Ids(s.direct), i);
    if s.core.value.Some? {
      OnceAtMost(s.queued, i);
      OnceAtMost(s.parked, i);
    }
  }

  /** The blocks that were queued start in the order of their registration, whichever of them throw,
  and all of them before any parked waiter is resumed. */
  lemma RegistrationOrder<T(!new)>(calls: seq<Call<T>>, schedule: seq<Choice>)
    ensures var s := Run(calls, Init(calls), schedule);
            && Ids(s.started) <= s.queued && Ids(s.resumed) <= s.parked
            && (s.resumed != [] ==> Ids(s.started) == s.queued)
  {
    InitInv(calls);
    RunKeepsInv(calls, Init(calls), schedule);
    var s := Run(calls, Init(calls), schedule);
    if s.core.value.Some? {
      var w: nat :| SetBy(s, w, s.core.value.value);
    }
  }

  // The delivery loop

  /** How a block ends. */
  datatype Attempt = Completed | Thrown(exn: nat)

  /** What a block does may depend on the blocks that have run before it. */
  type Action = (seq<nat>, nat) -> Attempt

  function Caught(elements: seq<nat>, action: Action, n: nat): seq<(nat, nat)>
    requires n <= |elements|
  {
    if n == 0 then []
    else
      var attempt := action(elements[..n - 1], elements[n - 1]);
      Caught(elements, action, n - 1) + if attempt.Thrown? then [(elements[n - 1], attempt.exn)] else []
  }

  /** forEachCatching: an exception is caught and printed inside the loop, so that every element has its turn
  whatever the others do. */
  method ForEachCatching(elements: seq<nat>, action: Action) returns (acted: seq<nat>, printed: seq<(nat, nat)>)
    ensures acted == elements
    ensures printed == Caught(elements, action, |elements|)
  {
    acted, printed := [], [];
    for k := 0 to |elements|
      invariant acted == elements[..k]
      invariant printed == Caught(elements, action, k)
    {
      var attempt := action(acted, elements[k]);
      acted := acted + [elements[k]];
      match attempt
      case Completed =>
      case Thrown(exn) => printed := printed + [(elements[k], exn)];
    }
  }

  /** Turns of one setter, the k-th with the given outcome. */
  function Turns(w: nat, outcomes: seq<bool>): (r: seq<Choice>)
    ensures |r| == |outcomes|
  {
    seq(|outcomes|, k requires 0 <= k < |outcomes| => Choice(w, outcomes[k]))
  }

  function Failing(callbacks: seq<nat>, outcomes: seq<bool>): seq<nat>
    requires |callbacks| <= |outcomes|
  {
    if callbacks == [] then []
    else (if outcomes[0] then [callbacks[0]] else []) + Failing(callbacks[1..], outcomes[1..])
  }

  /** What has been delivered, and which blocks threw. */
  datatype Log = Log(started: seq<nat>, resumed: seq<nat>, failed: seq<nat>)

  function LogOf<T>(s: State<T>): Log {
    Log(Ids(s.started), Ids(s.resumed), s.failed)
  }

  function Extended(l: Log, m: Log): Log {
    Log(l.started + m.started, l.resumed + m.resumed, l.failed + m.failed)
  }

  lemma ExtendedTwice(l: Log, m: Log, n: Log)
    ensures Extended(Extended(l, m), n) == Extended(l, Extended(m, n))
  {
  }

  /** The log of what a setter still has to deliver, when its blocks end in the given ways. */
  function ToDeliver(callbacks: seq<nat>, waiters: seq<nat>, outcomes: seq<bool>): Log
    requires |callbacks| <= |outcomes|
  {
    Log(callbacks, waiters, Failing(callbacks, outcomes))
  }

  function FirstDelivery(callbacks: seq<nat>, waiters: seq<nat>, throws: bool): Log
    requires callbacks != [] || waiters != []
  {
    if callbacks != [] then Log([callbacks[0]], [], if throws then [callbacks[0]] else [])
    else Log([], [waiters[0]], [])
  }

  lemma DeliverFirst(callbacks: seq<nat>, waiters: seq<nat>, outcomes: seq<bool>)
    requires callbacks != [] || waiters != []
    requires |callbacks| <= |outcomes| && outcomes != []
    ensures ToDeliver(callbacks, waiters, outcomes)
         == Extended(FirstDelivery(callbacks, waiters, outcomes[0]),
                     if callbacks != [] then ToDeliver(callbacks[1..], waiters, outcomes[1..])
                     else ToDeliver([], waiters[1..], outcomes[1..]))
  {
    if callbacks != [] {
      assert [callbacks[0]] + callbacks[1..] == callbacks;
    } else {
      assert [waiters[0]] + waiters[1..] == waiters;
    }
  }

  /** One turn of the winner. */
  lemma OneTurn<T(!new)>(calls: seq<Call<T>>, s: State<T>, w: nat, throws: bool)
    requires |calls| == |s.pcs| && w < |calls| && s.pcs[w].Delivering?
    ensures var next := Next(calls, s, Choice(w, throws));
            var (callbacks, waiters, v) := (s.pcs[w].callbacks, s.pcs[w].waiters, s.pcs[w].v);
            if callbacks == [] == waiters then
              next.pcs[w].Finished? && LogOf(next) == LogOf(s)
            else
              && LogOf(next) == Extended(LogOf(s), FirstDelivery(callbacks, waiters, throws))
              && next.pcs[w] == if callbacks != [] then Delivering(callbacks[1..], waiters, v)
                  else Delivering([], waiters[1..], v)
  {
    var callbacks, waiters, v := s.pcs[w].callbacks, s.pcs[w].waiters, s.pcs[w].v;
    if callbacks != [] {
      IdsAppend(s.started, Event(callbacks[0], v));
    } else if waiters != [] {
      IdsAppend(s.resumed, Event(waiters[0], v));
    }
  }

  /** However each block ends, the winner's turns reach every block and every waiter of its snapshot, in
  order, and the failures on record are exactly the blocks that threw. */
  lemma {:induction false} TurnsReachAll<T(!new)>(calls: seq<Call<T>>, s: State<T>, w: nat, outcomes: seq<bool>)
    requires |calls| == |s.pcs| && w < |calls| && s.pcs[w].Delivering?
    requires |outcomes| == |s.pcs[w].callbacks| + |s.pcs[w].waiters| + 1
    ensures var end := Run(calls, s, Turns(w, outcomes));
            && end.pcs[w].Finished?
            && LogOf(end) == Extended(LogOf(s), ToDeliver(s.pcs[w].callbacks, s.pcs[w].waiters, outcomes))
    decreases |outcomes|
  {
    var next := Next(calls, s, Choice(w, outcomes[0]));
    var callbacks, waiters := s.pcs[w].callbacks, s.pcs[w].waiters;
    OneTurn(calls, s, w, outcomes[0]);
    assert Turns(w, outcomes)[1..] == Turns(w, outcomes[1..]);
    assert Run(calls, s, Turns(w, outcomes)) == Run(calls, next, Turns(w, outcomes[1..]));
    if callbacks == [] == waiters {
      assert Turns(w, outcomes[1..]) == [];
    } else {
      TurnsReachAll(calls, next, w, outcomes[1..]);
      DeliverFirst(callbacks, waiters, outcomes);
      ExtendedTwice(LogOf(s), FirstDelivery(callbacks, waiters, outcomes[0]),
                    ToDeliver(next.pcs[w].callbacks, next.pcs[w].waiters, outcomes[1..]));
    }
  }

  predicate SameButFailures<T(==)>(a: State<T>, b: State<T>) {
    a == b.(failed := a.failed)
  }

  /** No step looks at what has failed before, nor does its own failure change anything else. */
  lemma StepIgnoresFailures<T(!new)>(calls: seq<Call<T>>, a: State<T>, b: State<T>, c: Choice)
    requires |calls| == |a.pcs| && SameButFailures(a, b)
    ensures SameButFailures(Next(calls, a, c), Next(calls, b, c.(throws := false)))
  {
  }

  function Quieted(schedule: seq<Choice>): (r: seq<Choice>)
    ensures |r| == |schedule|
  {
    seq(|schedule|, k requires 0 <= k < |schedule| => schedule[k].(throws := false))
  }

  /** A block that throws changes no other delivery: with every exception left out the run is the same. */
  lemma {:induction false} ExceptionsChangeNothing<T(!new)>(calls: seq<Call<T>>, a: State<T>, b: State<T>,
                                                            schedule: seq<Choice>)
    requires |calls| == |a.pcs| && SameButFailures(a, b)
    ensures SameButFailures(Run(calls, a, schedule), Run(calls, b, Quieted(schedule)))
    decreases |schedule|
  {
    if schedule != [] {
      assert Quieted(schedule)[1..] == Quieted(schedule[1..]);
      var c := schedule[0];
      StepIgnoresFailures(calls, a, b, c);
      ExceptionsChangeNothing(calls, Next(calls, a, c), Next(calls, b, c.(throws := false)), schedule[1..]);
    }
  }

  /** Once set, the value and the empty lists stay for good: another setter is rejected and changes nothing. */
  lemma {:induction false} SetOnce<T(!new)>(calls: seq<Call<T>>, s: State<T>, schedule: seq<Choice>)
    requires |calls| == |s.pcs| && s.core.value.Some?
    ensures Run(calls, s, schedule).core == s.core
    decreases |schedule|
  {
    if schedule != [] {
      SetOnce(calls, Next(calls, s, schedule[0]), schedule[1..]);
    }
  }

  // Every run comes to rest

  function PcWeight<T>(pc: Pc<T>): nat {
    match pc
    case Ready => 4
    case SlowAwait => 3
    case RunBlock(_) => 1
    case Delivering(callbacks, waiters, _) => 1 + |callbacks| + |waiters|
    case _ => 0
  }

  function Weights<T>(pcs: seq<Pc<T>>): nat {
    if pcs == [] then 0 else Weights(pcs[..|pcs| - 1]) + PcWeight(pcs[|pcs| - 1])
  }

  function WorkLeft<T>(s: State<T>): nat {
    Weights(s.pcs) + 2 * |s.core.callbacks| + 2 * |s.core.waiters|
  }

  lemma {:induction false} WeightsUpdate<T(!new)>(pcs: seq<Pc<T>>, i: nat, pc: Pc<T>)
    requires i < |pcs|
    ensures Weights(pcs[i := pc]) == Weights(pcs) - PcWeight(pcs[i]) + PcWeight(pc)
  {
    var last := |pcs| - 1;
    if i < last {
      assert pcs[i := pc][..last] == pcs[..last][i := pc];
      WeightsUpdate(pcs[..last], i, pc);
    } else {
      assert pcs[i := pc][..last] == pcs[..last];
    }
  }

  /** Every step leaves less to do, so no schedule of effective steps goes on for ever. */
  lemma StepsRunOut<T(!new)>(calls: seq<Call<T>>, s: State<T>, i: nat, throws: bool)
    requires |calls| == |s.pcs| && i < |calls| && Step(calls, s, i, throws).Some?
    ensures WorkLeft(Step(calls, s, i, throws).value) < WorkLeft(s)
  {
    var s' := Step(calls, s, i, throws).value;
    WeightsUpdate(s.pcs, i, s'.pcs[i]);
    assert s'.pcs == s.pcs[i := s'.pcs[i]];
  }

  /** Any run can be carried on until it comes to rest. */
  lemma {:induction false} CanComeToRest<T(!new)>(calls: seq<Call<T>>, s: State<T>) returns (rest: seq<Choice>)
    requires |calls| == |s.pcs|
    ensures Quiet(calls, Run(calls, s, rest))
    decreases WorkLeft(s)
  {
    if Quiet(calls, s) {
      return [];
    }
    var i, throws :| 0 <= i < |calls| && throws in {false, true} && Step(calls, s, i, throws).Some?;
    StepsRunOut(calls, s, i, throws);
    var c := Choice(i, throws);
    var more := CanComeToRest(calls, Next(calls, s, c));
    rest := [c] + more;
    assert rest[1..] == more;
  }
}
