/** The double-checked guard that xDL puts around everything it computes once: the `.dynsym` and
`.symtab` loads, the API level, the page size.

Any number of threads call the guarded function once each; a step is one atomic access or one lock
operation, and the loader spans two steps so that others can run while it is at work. */
module LoadOnce {
  import opened Wrappers

  /** `Flag` guards a load by a boolean; the other two guard a value by a sentinel in its own cell. */
  datatype Kind = Flag | ApiLevel | PageSize

  /** `result` is what the guarded computation would store; a flag stores 1. */
  datatype Guard = Guard(kind: Kind, result: int)

  predicate IsUnset(kind: Kind, cell: int) {
    match kind
    case Flag => cell == 0
    case ApiLevel => cell < 0
    case PageSize => cell == 0
  }

  function Initial(kind: Kind): int {
    if kind == ApiLevel then -1 else 0
  }

  const API_JELLY_BEAN := 16

  /** The API level that is stored: the device's, else the build property's, and at least Jelly Bean. */
  function ApiLevelFound(device: int, buildProp: int): int {
    var val := if device < 0 then buildProp else device;
    if val < API_JELLY_BEAN then API_JELLY_BEAN else val
  }

  /** The device's level when it tells one, else the build property's, but never less than 16. */
  lemma ApiLevelIs(device: int, buildProp: int)
    ensures device >= 16 ==> ApiLevelFound(device, buildProp) == device
    ensures 0 <= device < 16 ==> ApiLevelFound(device, buildProp) == 16
    ensures device < 0 && buildProp >= 16 ==> ApiLevelFound(device, buildProp) == buildProp
    ensures device < 0 && buildProp < 16 ==> ApiLevelFound(device, buildProp) == 16
  {
  }

  datatype Pc =
    | Check            // first, unlocked load of the cell
    | WantLock         // saw it unset
    | Recheck          // holds the lock
    | Loading          // inside the loader
    | Storing          // loader finished, value not yet published
    | Unlocking(val: int)
    | Done(val: int)

  datatype State = State(cell: int, owner: Option<nat>, pcs: seq<Pc>, entered: nat, finished: nat)

  function Init(g: Guard, threads: nat): State {
    State(Initial(g.kind), None, seq(threads, _ => Check), 0, 0)
  }

  /** One step of thread `t`; None when it has to wait for the lock or is done. */
  function Step(g: Guard, s: State, t: nat): Option<State>
    requires t < |s.pcs|
  {
    match s.pcs[t]
    case Check =>
      Some(s.(pcs := s.pcs[t := if IsUnset(g.kind, s.cell) then WantLock else Done(s.cell)]))
    case WantLock =>
      if s.owner.Some? then None else Some(s.(owner := Some(t), pcs := s.pcs[t := Recheck]))
    case Recheck =>
      if IsUnset(g.kind, s.cell) then Some(s.(pcs := s.pcs[t := Loading], entered := s.entered + 1))
      else Some(s.(pcs := s.pcs[t := Unlocking(s.cell)]))
    case Loading =>
      Some(s.(pcs := s.pcs[t := Storing], finished := s.finished + 1))
    case Storing =>
      Some(s.(cell := g.result, pcs := s.pcs[t := Unlocking(g.result)]))
    case Unlocking(val) =>
      Some(s.(owner := None, pcs := s.pcs[t := Done(val)]))
    case Done(_) => None
  }

  /** The state after the given threads have stepped in turn; a step that cannot be taken is skipped. */
  function Run(g: Guard, s: State, schedule: seq<nat>): State
    decreases |schedule|
  {
    if schedule == [] then s
    else
      var t := schedule[0];
      var next := if t < |s.pcs| && Step(g, s, t).Some? then Step(g, s, t).value else s;
      Run(g, next, schedule[1..])
  }

  predicate HoldsLock(pc: Pc) {
    pc.Recheck? || pc.Loading? || pc.Storing? || pc.Unlocking?
  }

  predicate InLoader(pc: Pc) {
    pc.Loading? || pc.Storing?
  }

  predicate Settled(pc: Pc) {
    pc.Unlocking? || pc.Done?
  }

  ghost predicate Inv(g: Guard, s: State) {
    && (s.owner.Some? ==> s.owner.value < |s.pcs|)
    && (forall t :: 0 <= t < |s.pcs| ==> (HoldsLock(s.pcs[t]) <==> s.owner == Some(t)))
    && (IsUnset(g.kind, s.cell) ==>
          && (forall t :: 0 <= t < |s.pcs| ==> !Settled(s.pcs[t]))
          && s.entered == (if LoaderBusy(s) then 1 else 0)
          && s.finished == (if LoaderBusy(s) && s.pcs[s.owner.value].Storing? then 1 else 0))
    && (!IsUnset(g.kind, s.cell) ==>
          && s.cell == g.result
          && s.entered == 1 && s.finished == 1
          && (forall t :: 0 <= t < |s.pcs| ==> !InLoader(s.pcs[t]))
          && (forall t :: 0 <= t < |s.pcs| && Settled(s.pcs[t]) ==> s.pcs[t].val == g.result))
  }

  predicate LoaderBusy(s: State) {
    s.owner.Some? && s.owner.value < |s.pcs| && InLoader(s.pcs[s.owner.value])
  }

  lemma StepKeepsInv(g: Guard, s: State, t: nat)
    requires !IsUnset(g.kind, g.result) && Inv(g, s)
    requires t < |s.pcs| && Step(g, s, t).Some?
    ensures Inv(g, Step(g, s, t).value)
  {
    var s' := Step(g, s, t).value;
    forall u | 0 <= u < |s'.pcs| && u != t ensures s'.pcs[u] == s.pcs[u] {
    }
  }

  lemma {:induction false} RunKeepsInv(g: Guard, s: State, schedule: seq<nat>)
    requires !IsUnset(g.kind, g.result) && Inv(g, s)
    ensures Inv(g, Run(g, s, schedule))
    decreases |schedule|
  {
    if schedule != [] {
      var t := schedule[0];
      if t < |s.pcs| && Step(g, s, t).Some? {
        StepKeepsInv(g, s, t);
        RunKeepsInv(g, Step(g, s, t).value, schedule[1..]);
      } else {
        RunKeepsInv(g, s, schedule[1..]);
      }
    }
  }

  /** Over any number of threads and any schedule, the loader is entered at most once, by one thread at a
  time, and whoever returns does so after it has finished and with its value. */
  lemma LoadsOnce(g: Guard, threads: nat, schedule: seq<nat>)
    requires !IsUnset(g.kind, g.result)
    ensures var s := Run(g, Init(g, threads), schedule);
            && s.entered <= 1
            && (forall t, u :: 0 <= t < |s.pcs| && 0 <= u < |s.pcs| && InLoader(s.pcs[t]) && InLoader(s.pcs[u]) ==>
                t == u)
            && (forall t :: 0 <= t < |s.pcs| && s.pcs[t].Done? ==> s.finished == 1 && s.pcs[t].val == g.result)
  {
    RunKeepsInv(g, Init(g, threads), schedule);
  }

  lemma {:induction false} RunAppend(g: Guard, s: State, a: seq<nat>, b: seq<nat>)
    ensures Run(g, s, a + b) == Run(g, Run(g, s, a), b)
    decreases |a|
  {
    if a == [] {
      assert a + b == b;
    } else {
      assert (a + b)[1..] == a[1..] + b;
      var t := a[0];
      var next := if t < |s.pcs| && Step(g, s, t).Some? then Step(g, s, t).value else s;
      RunAppend(g, next, a[1..], b);
    }
  }

  lemma ThreeSteps(g: Guard, s: State, t: nat)
    requires t < |s.pcs| && Step(g, s, t).Some?
    requires Step(g, Step(g, s, t).value, t).Some?
    requires Step(g, Step(g, Step(g, s, t).value, t).value, t).Some?
    ensures Run(g, s, [t, t, t]) == Step(g, Step(g, Step(g, s, t).value, t).value, t).value
  {
    var s1 := Step(g, s, t).value;
    var s2 := Step(g, s1, t).value;
    assert [t, t, t][1..] == [t, t] && [t, t][1..] == [t] && [t][1..] == [];
    assert Run(g, s, [t, t, t]) == Run(g, s1, [t, t]);
    assert Run(g, s1, [t, t]) == Run(g, s2, [t]);
    assert Run(g, s2, [t]) == Run(g, Step(g, s2, t).value, []);
  }

  lemma EnterLoader(g: Guard, s: State, t: nat)
    requires t < |s.pcs| && s.pcs[t].Check? && IsUnset(g.kind, s.cell) && s.owner.None?
    ensures Run(g, s, [t, t, t]) == s.(owner := Some(t), pcs := s.pcs[t := Loading], entered := s.entered + 1)
  {
    ThreeSteps(g, s, t);
  }

  lemma LeaveLoader(g: Guard, s: State, t: nat)
    requires t < |s.pcs| && s.pcs[t].Loading?
    ensures Run(g, s, [t, t, t])
         == s.(cell := g.result, owner := None, pcs := s.pcs[t := Done(g.result)], finished := s.finished + 1)
  {
    ThreeSteps(g, s, t);
  }

  /** Two threads one after the other: the second finds the sentinel that the first one stored. */
  const TWICE: seq<nat> := [0, 0, 0] + [0, 0, 0] + [1, 1, 1]

  lemma SentinelLoadsTwice(g: Guard, threads: nat)
    requires IsUnset(g.kind, g.result) && threads >= 2
    ensures Run(g, Init(g, threads), TWICE).entered == 2
  {
    var s := Init(g, threads);
    RunAppend(g, s, [0, 0, 0] + [0, 0, 0], [1, 1, 1]);
    RunAppend(g, s, [0, 0, 0], [0, 0, 0]);
    EnterLoader(g, s, 0);
    var s1 := Run(g, s, [0, 0, 0]);
    LeaveLoader(g, s1, 0);
    EnterLoader(g, Run(g, s1, [0, 0, 0]), 1);
  }

  /** The guard loads once on every schedule exactly when its loader never yields the sentinel. */
  lemma LoadsOnceExactlyWhen(g: Guard, threads: nat)
    requires threads >= 2
    ensures (forall schedule :: Run(g, Init(g, threads), schedule).entered <= 1) <==> !IsUnset(g.kind, g.result)
  {
    if IsUnset(g.kind, g.result) {
      SentinelLoadsTwice(g, threads);
    } else {
      forall schedule ensures Run(g, Init(g, threads), schedule).entered <= 1 {
        LoadsOnce(g, threads, schedule);
      }
    }
  }

  /** The flag and the clamped API level meet the condition whatever the device says; the page size
  meets it on any system whose page size is not 0. */
  lemma GuardsOfXdl(device: int, buildProp: int, pageSize: nat)
    ensures !IsUnset(Flag, 1)
    ensures !IsUnset(ApiLevel, ApiLevelFound(device, buildProp))
    ensures !IsUnset(PageSize, pageSize) <==> pageSize != 0
  {
  }

  // Every run ends

  function PcWeight(pc: Pc): nat {
    match pc
    case Check => 6
    case WantLock => 5
    case Recheck => 4
    case Loading => 3
    case Storing => 2
    case Unlocking(_) => 1
    case Done(_) => 0
  }

  function WorkLeft(pcs: seq<Pc>): nat {
    if pcs == [] then 0 else WorkLeft(pcs[..|pcs| - 1]) + PcWeight(pcs[|pcs| - 1])
  }

  lemma {:induction false} WorkAfter(pcs: seq<Pc>, t: nat, pc: Pc)
    requires t < |pcs|
    ensures WorkLeft(pcs[t := pc]) == WorkLeft(pcs) - PcWeight(pcs[t]) + PcWeight(pc)
  {
    var last := |pcs| - 1;
    if t < last {
      assert pcs[t := pc][..last] == pcs[..last][t := pc];
      WorkAfter(pcs[..last], t, pc);
    } else {
      assert pcs[t := pc][..last] == pcs[..last];
    }
  }

  lemma {:induction false} WorkAtStart(threads: nat)
    ensures WorkLeft(seq(threads, _ => Check)) == 6 * threads
  {
    if threads > 0 {
      assert seq(threads, _ => Check)[..threads - 1] == seq(threads - 1, _ => Check);
      WorkAtStart(threads - 1);
    }
  }

  /** How many steps of a schedule are taken and not skipped. */
  function Taken(g: Guard, s: State, schedule: seq<nat>): nat
    decreases |schedule|
  {
    if schedule == [] then 0
    else
      var t := schedule[0];
      if t < |s.pcs| && Step(g, s, t).Some? then 1 + Taken(g, Step(g, s, t).value, schedule[1..])
      else Taken(g, s, schedule[1..])
  }

  lemma {:induction false} StepsUseUpWork(g: Guard, s: State, schedule: seq<nat>)
    ensures Taken(g, s, schedule) + WorkLeft(Run(g, s, schedule).pcs) <= WorkLeft(s.pcs)
    decreases |schedule|
  {
    if schedule != [] {
      var t := schedule[0];
      if t < |s.pcs| && Step(g, s, t).Some? {
        var next := Step(g, s, t).value;
        WorkAfter(s.pcs, t, next.pcs[t]);
        assert next.pcs == s.pcs[t := next.pcs[t]];
        StepsUseUpWork(g, next, schedule[1..]);
      } else {
        StepsUseUpWork(g, s, schedule[1..]);
      }
    }
  }

  /** On any schedule at most six steps a thread are taken, and when no step is left to take every thread has
  returned. */
  lemma AllReturn(g: Guard, threads: nat, schedule: seq<nat>)
    requires !IsUnset(g.kind, g.result)
    ensures Taken(g, Init(g, threads), schedule) <= 6 * threads
    ensures var s := Run(g, Init(g, threads), schedule);
            (forall t :: 0 <= t < |s.pcs| ==> Step(g, s, t).None?) ==> forall t :: 0 <= t < |s.pcs| ==> s.pcs[t].Done?
  {
    WorkAtStart(threads);
    StepsUseUpWork(g, Init(g, threads), schedule);
    NeverStuck(g, threads, schedule);
  }

  /** On every schedule, while some thread has not returned some thread can step. */
  lemma NeverStuck(g: Guard, threads: nat, schedule: seq<nat>)
    requires !IsUnset(g.kind, g.result)
    ensures var s := Run(g, Init(g, threads), schedule);
            (exists t :: 0 <= t < |s.pcs| && !s.pcs[t].Done?) ==> exists t :: 0 <= t < |s.pcs| && Step(g, s, t).Some?
  {
    RunKeepsInv(g, Init(g, threads), schedule);
    var s := Run(g, Init(g, threads), schedule);
    if t :| 0 <= t < |s.pcs| && !s.pcs[t].Done? {
      var u := if s.owner.Some? then s.owner.value else t;
      assert s.owner.Some? ==> HoldsLock(s.pcs[u]);
      assert Step(g, s, u).Some?;
    }
  }
}
