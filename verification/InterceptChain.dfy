/** LSPosed's interceptors: a chain in which each hooker calls the rest of the chain, BEFORE hookers on
the way in and AFTER hookers on the way out.

The framework itself is not part of this model; of it the chain only uses that `proceed` runs the next
hooker, and the original after the last, with the arguments it is given. */
module InterceptChain {
  import opened Priority
  import opened Wrappers

  datatype Value = Null | Obj(ref: nat)
  type Args = seq<Value>
  type Exn = nat

  datatype Outcome = Returned(value: Value) | Threw(exn: Exn)
  {
    function OrNull(): Value {
      if Returned? then value else Null
    }

    function Exception(): Option<Exn> {
      if Threw? then Some(exn) else None
    }
  }

  /** What a callback is shown of a call. */
  datatype Info = Info(args: Args, result: Value, exception: Option<Exn>)

  /** What a callback does: the arguments as it leaves them, the results it assigns one after the other,
  and the exception it ends with. */
  datatype Effect = Effect(args: Args, writes: seq<Value>, throws: Option<Exn>)

  datatype Event = Called(id: nat, info: Info) | Original(args: Args)

  /** Everything that has run so far; what a callback does may depend on it. */
  type History = seq<Event>

  type Callback = (History, Info) -> Effect
  type Body = (History, Args) -> Outcome

  datatype Hooker = Hooker(id: nat, hookType: HookType, callback: Callback, ignoreResult: bool)

  // The state a callback writes to

  function LastOr(initial: Value, writes: seq<Value>): Value {
    if writes == [] then initial else writes[|writes| - 1]
  }

  class InvokeInfo {
    const args: Args
    const exception: Option<Exn>
    var result: Value
    var hasChanged: bool

    constructor (info: Info)
      ensures args == info.args && exception == info.exception
      ensures result == info.result && !hasChanged
    {
      args, exception := info.args, info.exception;
      result, hasChanged := info.result, false;
    }

    method SetResult(value: Value)
      modifies this
      ensures result == value && hasChanged
    {
      result := value;
      hasChanged := true;
    }

    /** Any number of assignments: the last one stands, and any at all counts as a change, even to the same value. */
    method Perform(writes: seq<Value>)
      modifies this
      ensures result == LastOr(old(result), writes)
      ensures hasChanged == (old(hasChanged) || writes != [])
    {
      for k := 0 to |writes|
        invariant result == LastOr(old(result), writes[..k])
        invariant hasChanged == (old(hasChanged) || k > 0)
      {
        SetResult(writes[k]);
      }
      assert writes[..|writes|] == writes;
    }
  }

  // The chain

  /** Running the hookers of `chain`, outermost first, around `original`. A BEFORE hooker's own exception
  field is always null, so only a throw, a result or the rest of the chain can follow its callback; an
  AFTER hooker rethrows the exception it was shown whatever its callback assigned. */
  function Proceed(chain: seq<Hooker>, original: Body, args: Args, h: History): (Outcome, History)
    decreases |chain|
  {
    if chain == [] then (original(h, args), h + [Original(args)])
    else
      var hooker := chain[0];
      match hooker.hookType
      case Before =>
        var info := Info(args, Null, None);
        var effect := hooker.callback(h, info);
        var h1 := h + [Called(hooker.id, info)];
        if effect.throws.Some? then (Threw(effect.throws.value), h1)
        else if !hooker.ignoreResult && effect.writes != [] then (Returned(LastOr(Null, effect.writes)), h1)
        else Proceed(chain[1..], original, effect.args, h1)
      case After =>
        var (inner, h1) := Proceed(chain[1..], original, args, h);
        var info := Info(args, inner.OrNull(), inner.Exception());
        var effect := hooker.callback(h1, info);
        var h2 := h1 + [Called(hooker.id, info)];
        if effect.throws.Some? then (Threw(effect.throws.value), h2)
        else if inner.Threw? then (inner, h2)
        else if hooker.ignoreResult then (inner, h2)
        else (Returned(LastOr(inner.OrNull(), effect.writes)), h2)
  }

  /** InterceptHooker.intercept: one hooker, which shows its callback an InvokeInfo and reads that back. */
  method Intercept(hooker: Hooker, inside: seq<Hooker>, original: Body, args: Args, h: History)
    returns (outcome: Outcome, end: History)
    ensures (outcome, end) == Proceed([hooker] + inside, original, args, h)
    decreases |inside|, 1
  {
    assert ([hooker] + inside)[0] == hooker && ([hooker] + inside)[1..] == inside;
    match hooker.hookType
    case Before =>
      var shown := Info(args, Null, None);
      var info := new InvokeInfo(shown);
      var effect := hooker.callback(h, shown);
      info.Perform(effect.writes);
      end := h + [Called(hooker.id, shown)];
      if effect.throws.Some? {
        return Threw(effect.throws.value), end;
      }
      if !hooker.ignoreResult && info.hasChanged {
        return Returned(info.result), end;
      }
      outcome, end := RunChain(inside, original, effect.args, end);
    case After =>
      outcome, end := RunChain(inside, original, args, h);
      var shown := Info(args, outcome.OrNull(), outcome.Exception());
      var info := new InvokeInfo(shown);
      var effect := hooker.callback(end, shown);
      info.Perform(effect.writes);
      end := end + [Called(hooker.id, shown)];
      if effect.throws.Some? {
        return Threw(effect.throws.value), end;
      }
      if info.exception.Some? {
        return Threw(info.exception.value), end;
      }
      outcome := Returned(if hooker.ignoreResult then outcome.OrNull() else info.result);
  }

  /** chain.proceed. */
  method RunChain(chain: seq<Hooker>, original: Body, args: Args, h: History) returns (outcome: Outcome, end: History)
    ensures (outcome, end) == Proceed(chain, original, args, h)
    decreases |chain|, 0
  {
    if chain == [] {
      return original(h, args), h + [Original(args)];
    }
    assert [chain[0]] + chain[1..] == chain;
    outcome, end := Intercept(chain[0], chain[1..], original, args, h);
  }

  // Runs in which hookers let the call through

  /** The call of a BEFORE callback on the way in. */
  function CallIn(hooker: Hooker, args: Args, h: History): Effect {
    hooker.callback(h, Info(args, Null, None))
  }

  /** The call of an AFTER callback on the way out. */
  function CallOut(hooker: Hooker, args: Args, inside: Outcome, h: History): Effect {
    hooker.callback(h, Info(args, inside.OrNull(), inside.Exception()))
  }

  function Entered(hooker: Hooker, args: Args, h: History): History {
    h + [Called(hooker.id, Info(args, Null, None))]
  }

  /** In this run no callback of `outer` throws, and none of its BEFORE callbacks assigns a result that counts. */
  ghost predicate LetsThrough(outer: seq<Hooker>, inner: seq<Hooker>, original: Body, args: Args, h: History)
    decreases |outer|
  {
    outer != [] ==>
      var hooker, rest := outer[0], outer[1..];
      if hooker.hookType == Before then
        var effect := CallIn(hooker, args, h);
        && effect.throws.None? && (hooker.ignoreResult || effect.writes == [])
        && LetsThrough(rest, inner, original, effect.args, Entered(hooker, args, h))
      else
        var (r, h1) := Proceed(rest + inner, original, args, h);
        LetsThrough(rest, inner, original, args, h) && CallOut(hooker, args, r, h1).throws.None?
  }

  /** In this run no AFTER callback of `outer` assigns a result that counts. */
  ghost predicate LeavesResult(outer: seq<Hooker>, inner: seq<Hooker>, original: Body, args: Args, h: History)
    decreases |outer|
  {
    outer != [] ==>
      var hooker, rest := outer[0], outer[1..];
      if hooker.hookType == Before then
        LeavesResult(rest, inner, original, CallIn(hooker, args, h).args, Entered(hooker, args, h))
      else
        var (r, h1) := Proceed(rest + inner, original, args, h);
        && LeavesResult(rest, inner, original, args, h)
        && (hooker.ignoreResult || CallOut(hooker, args, r, h1).writes == [])
  }

  /** The way in: BEFORE callbacks alone, outermost first, each passing its arguments on. */
  function WayIn(chain: seq<Hooker>, args: Args, h: History): (Args, History) {
    if chain == [] then (args, h)
    else if chain[0].hookType == After then WayIn(chain[1..], args, h)
    else WayIn(chain[1..], CallIn(chain[0], args, h).args, Entered(chain[0], args, h))
  }

  function IdsOf(hookType: HookType, chain: seq<Hooker>): seq<nat> {
    if chain == [] then []
    else (if chain[0].hookType == hookType then [chain[0].id] else []) + IdsOf(hookType, chain[1..])
  }

  function Reversed(ids: seq<nat>): seq<nat> {
    if ids == [] then [] else Reversed(ids[1..]) + [ids[0]]
  }

  /** The hookers an event list names, originals left out. */
  function CalledIds(events: History): seq<nat> {
    if events == [] then []
    else (if events[0].Called? then [events[0].id] else []) + CalledIds(events[1..])
  }

  function Originals(events: History): nat {
    if events == [] then 0 else (if events[0].Original? then 1 else 0) + Originals(events[1..])
  }

  ghost predicate AllSee(events: History, exn: Option<Exn>) {
    forall k :: 0 <= k < |events| ==> events[k].Called? && events[k].info.exception == exn
  }

  /** Each of these callbacks was shown the value and no exception. */
  ghost predicate AllShown(events: History, value: Value) {
    forall k :: 0 <= k < |events| ==>
      events[k].Called? && events[k].info.result == value && events[k].info.exception == None
  }

  lemma {:induction false} CalledIdsAppend(a: History, b: History)
    ensures CalledIds(a + b) == CalledIds(a) + CalledIds(b)
    ensures Originals(a + b) == Originals(a) + Originals(b)
  {
    if a == [] {
      assert a + b == b;
    } else {
      assert (a + b)[1..] == a[1..] + b && (a + b)[0] == a[0];
      CalledIdsAppend(a[1..], b);
    }
  }

  /** What an outer part that lets the call through does to a run: `out` is what it adds on the way out. */
  ghost predicate Surrounds(outer: seq<Hooker>, inner: seq<Hooker>, original: Body, args: Args, h: History,
                            out: History, leaves: bool) {
    var (args1, h1) := WayIn(outer, args, h);
    var (r, h2) := Proceed(inner, original, args1, h1);
    var (result, end) := Proceed(outer + inner, original, args, h);
    && end == h2 + out
    && CalledIds(out) == Reversed(IdsOf(After, outer)) && Originals(out) == 0
    && (r.Threw? ==> result == r && AllSee(out, Some(r.exn)))
    && (leaves ==> result == r)
    && (leaves && r.Returned? ==> AllShown(out, r.value))
    && (r.Returned? ==> result.Returned?)
  }

  /** Around an outer part that lets this call through, the inner part runs as on its own with the arguments
  of the way in, and on the way out every AFTER hooker of the outer part runs once, innermost first. An
  exception of the inner part reaches each of them and leaves the chain; a normal return is the inner
  part's unless one of them assigns a result. */
  lemma {:induction false} OuterPart(outer: seq<Hooker>, inner: seq<Hooker>, original: Body, args: Args, h: History)
    returns (out: History)
    requires LetsThrough(outer, inner, original, args, h)
    ensures Surrounds(outer, inner, original, args, h, out, LeavesResult(outer, inner, original, args, h))
    decreases |outer|
  {
    if outer == [] {
      assert outer + inner == inner;
      out := [];
      var (r, h2) := Proceed(inner, original, args, h);
      assert h2 + out == h2;
    } else if outer[0].hookType == Before {
      out := OuterPart(outer[1..], inner, original, CallIn(outer[0], args, h).args, Entered(outer[0], args, h));
      OneIn(outer, inner, original, args, h, out, LeavesResult(outer, inner, original, args, h));
    } else {
      var rest := OuterPart(outer[1..], inner, original, args, h);
      out := OneOut(outer, inner, original, args, h, rest, LeavesResult(outer[1..], inner, original, args, h));
    }
  }

  /** The step of OuterPart for a BEFORE hooker in front. */
  lemma OneIn(outer: seq<Hooker>, inner: seq<Hooker>, original: Body, args: Args, h: History, out: History,
              leaves: bool)
    requires outer != [] && outer[0].hookType == Before
    requires CallIn(outer[0], args, h).throws.None? && (outer[0].ignoreResult || CallIn(outer[0], args, h).writes == [])
    requires Surrounds(outer[1..], inner, original, CallIn(outer[0], args, h).args, Entered(outer[0], args, h),
        out, leaves)
    ensures Surrounds(outer, inner, original, args, h, out, leaves)
  {
    assert (outer + inner)[1..] == outer[1..] + inner && (outer + inner)[0] == outer[0];
    assert IdsOf(After, outer) == IdsOf(After, outer[1..]);
  }

  /** The step of OuterPart for an AFTER hooker in front. */
  lemma OneOut(outer: seq<Hooker>, inner: seq<Hooker>, original: Body, args: Args, h: History, rest: History,
               leaves: bool)
    returns (out: History)
    requires outer != [] && outer[0].hookType == After
    requires Surrounds(outer[1..], inner, original, args, h, rest, leaves)
    requires var (r, h1) := Proceed(outer[1..] + inner, original, args, h); CallOut(outer[0], args, r, h1).throws.None?
    ensures var (r, h1) := Proceed(outer[1..] + inner, original, args, h);
            var quiet := outer[0].ignoreResult || CallOut(outer[0], args, r, h1).writes == [];
            Surrounds(outer, inner, original, args, h, out, leaves && quiet)
  {
    var hooker := outer[0];
    assert (outer + inner)[1..] == outer[1..] + inner && (outer + inner)[0] == hooker;
    var (mid, h1) := Proceed(outer[1..] + inner, original, args, h);
    var event := Called(hooker.id, Info(args, mid.OrNull(), mid.Exception()));
    out := rest + [event];
    CalledIdsAppend(rest, [event]);
    assert CalledIds([event]) == [hooker.id] by {
      assert CalledIds([event][1..]) == [];
    }
    assert Reversed(IdsOf(After, outer)) == Reversed(IdsOf(After, outer[1..])) + [hooker.id] by {
      assert IdsOf(After, outer) == [hooker.id] + IdsOf(After, outer[1..]);
    }
    var (args1, hIn) := WayIn(outer, args, h);
    var (r, h2) := Proceed(inner, original, args1, hIn);
    assert (h2 + rest) + [event] == h2 + out;
  }

  lemma {:induction false} WayInCalls(chain: seq<Hooker>, args: Args, h: History)
    ensures CalledIds(WayIn(chain, args, h).1) == CalledIds(h) + IdsOf(Before, chain)
    ensures Originals(WayIn(chain, args, h).1) == Originals(h)
    decreases |chain|
  {
    if chain != [] {
      if chain[0].hookType == After {
        WayInCalls(chain[1..], args, h);
      } else {
        var info := Info(args, Null, None);
        var event := Called(chain[0].id, info);
        CalledIdsAppend(h, [event]);
        assert CalledIds([event]) == [chain[0].id] && Originals([event]) == 0 by {
          assert CalledIds([event][1..]) == [] && Originals([event][1..]) == 0;
        }
        WayInCalls(chain[1..], CallIn(chain[0], args, h).args, h + [event]);
      }
    }
  }

  // The arguments on the way in

  function OfType(hookType: HookType, chain: seq<Hooker>): seq<Hooker> {
    if chain == [] then []
    else (if chain[0].hookType == hookType then [chain[0]] else []) + OfType(hookType, chain[1..])
  }

  /** `shown[j]` is what the j-th BEFORE callback is given: the arguments of the call to the first, and to each
  next one, and in the end to the original, what the one before it left. None is shown a result or an exception. */
  ghost predicate Flows(befores: seq<Hooker>, args: Args, h: History, shown: seq<Args>, args1: Args, h1: History) {
    && |shown| == |befores| + 1 && shown[0] == args && shown[|befores|] == args1
    && |h1| == |h| + |befores| && h1[..|h|] == h
    && forall j :: 0 <= j < |befores| ==>
         && h1[|h| + j] == Called(befores[j].id, Info(shown[j], Null, None))
         && shown[j + 1] == befores[j].callback(h1[..|h| + j], Info(shown[j], Null, None)).args
  }

  lemma {:induction false} WayInFlows(chain: seq<Hooker>, args: Args, h: History) returns (shown: seq<Args>)
    ensures Flows(OfType(Before, chain), args, h, shown, WayIn(chain, args, h).0, WayIn(chain, args, h).1)
    decreases |chain|
  {
    if chain == [] {
      shown := [args];
      assert h[..|h|] == h;
    } else if chain[0].hookType == After {
      shown := WayInFlows(chain[1..], args, h);
    } else {
      var info := Info(args, Null, None);
      var event := Called(chain[0].id, info);
      var left := chain[0].callback(h, info).args;
      var rest := WayInFlows(chain[1..], left, h + [event]);
      shown := [args] + rest;
      var (args1, h1) := WayIn(chain, args, h);
      FlowsFromFirst(chain[0], OfType(Before, chain[1..]), args, h, rest, args1, h1);
    }
  }

  lemma FlowsFromFirst(first: Hooker, rest: seq<Hooker>, args: Args, h: History, shown: seq<Args>, args1: Args,
                       h1: History)
    requires Flows(rest, first.callback(h, Info(args, Null, None)).args, h + [Called(first.id, Info(args, Null, None))],
                   shown, args1, h1)
    ensures Flows([first] + rest, args, h, [args] + shown, args1, h1)
  {
    var event := Called(first.id, Info(args, Null, None));
    assert h1[..|h| + 1] == h + [event];
    assert h1[..|h|] == h1[..|h| + 1][..|h|] == h;
    assert h1[|h|] == h1[..|h| + 1][|h|];
    assert |h + [event]| == |h| + 1;
  }

  // The theorems

  /** If in a run no callback throws and no BEFORE callback short-circuits, the original runs exactly once, on
  the arguments the BEFORE callbacks left; before it every BEFORE hooker has run, outermost first, and after
  it every AFTER hooker runs, innermost first. If no callback assigns a result either, the outcome is the
  original's. If the original throws, every AFTER hooker sees its exception and it leaves the chain. */
  lemma TransparentChain(chain: seq<Hooker>, original: Body, args: Args)
    returns (out: History)
    requires LetsThrough(chain, [], original, args, [])
    ensures var (args1, h1) := WayIn(chain, args, []);
            var body := original(h1, args1);
            var (result, end) := Proceed(chain, original, args, []);
            && end == h1 + [Original(args1)] + out
            && Originals(end) == 1
            && CalledIds(h1) == IdsOf(Before, chain)
            && CalledIds(out) == Reversed(IdsOf(After, chain))
            && (LeavesResult(chain, [], original, args, []) ==>
                  result == body && (body.Returned? ==> AllShown(out, body.value)))
            && (body.Threw? ==> result == body && AllSee(out, Some(body.exn)))
  {
    assert chain + [] == chain;
    out := OuterPart(chain, [], original, args, []);
    WayInCalls(chain, args, []);
    var (args1, h1) := WayIn(chain, args, []);
    CalledIdsAppend(h1 + [Original(args1)], out);
    CalledIdsAppend(h1, [Original(args1)]);
    assert Originals([Original(args1)]) == 1 by {
      assert Originals([Original(args1)][1..]) == 0;
    }
  }

  /** A BEFORE hooker whose callback assigns a result, below an outer part that lets the call through, skips
  exactly what is inside it: no inner hooker and no original runs, whatever they are; the outer AFTER hookers
  all run; and the outcome is the assigned result unless one of those assigns another. */
  lemma ShortCircuit(outer: seq<Hooker>, cut: Hooker, inner: seq<Hooker>, original: Body, args: Args)
    returns (out: History)
    requires LetsThrough(outer, [cut] + inner, original, args, [])
    requires cut.hookType == Before && !cut.ignoreResult
    requires var (args1, h1) := WayIn(outer, args, []);
             CallIn(cut, args1, h1).throws.None? && CallIn(cut, args1, h1).writes != []
    ensures var (args1, h1) := WayIn(outer, args, []);
            var (result, end) := Proceed(outer + ([cut] + inner), original, args, []);
            && end == Entered(cut, args1, h1) + out
            && Originals(end) == 0
            && CalledIds(end) == IdsOf(Before, outer) + [cut.id] + Reversed(IdsOf(After, outer))
            && (LeavesResult(outer, [cut] + inner, original, args, []) ==>
                  result == Returned(LastOr(Null, CallIn(cut, args1, h1).writes)))
  {
    out := OuterPart(outer, [cut] + inner, original, args, []);
    WayInCalls(outer, args, []);
    var (args1, h1) := WayIn(outer, args, []);
    var event := Called(cut.id, Info(args1, Null, None));
    assert ([cut] + inner)[0] == cut;
    CalledIdsAppend(h1 + [event], out);
    CalledIdsAppend(h1, [event]);
    assert CalledIds([event]) == [cut.id] && Originals([event]) == 0 by {
      assert CalledIds([event][1..]) == [] && Originals([event][1..]) == 0;
    }
  }

  /** A BEFORE hooker whose callback throws, below an outer part that lets the call through: no inner hooker
  and no original runs, whatever they are; the outer AFTER hookers all run, see the exception, and it is what
  the chain ends with. */
  lemma BeforeThrows(outer: seq<Hooker>, bad: Hooker, inner: seq<Hooker>, original: Body, args: Args, e: Exn)
    returns (out: History)
    requires LetsThrough(outer, [bad] + inner, original, args, [])
    requires bad.hookType == Before
    requires var (args1, h1) := WayIn(outer, args, []);
             bad.callback(h1, Info(args1, Null, None)).throws == Some(e)
    ensures var (args1, h1) := WayIn(outer, args, []);
            var (result, end) := Proceed(outer + ([bad] + inner), original, args, []);
            && end == h1 + [Called(bad.id, Info(args1, Null, None))] + out
            && Originals(end) == 0
            && CalledIds(end) == IdsOf(Before, outer) + [bad.id] + Reversed(IdsOf(After, outer))
            && AllSee(out, Some(e)) && result == Threw(e)
  {
    out := OuterPart(outer, [bad] + inner, original, args, []);
    WayInCalls(outer, args, []);
    var (args1, h1) := WayIn(outer, args, []);
    var event := Called(bad.id, Info(args1, Null, None));
    assert ([bad] + inner)[0] == bad;
    CalledIdsAppend(h1 + [event], out);
    CalledIdsAppend(h1, [event]);
    assert CalledIds([event]) == [bad.id] && Originals([event]) == 0 by {
      assert CalledIds([event][1..]) == [] && Originals([event][1..]) == 0;
    }
  }

  /** An AFTER hooker whose callback throws: its exception replaces whatever came from inside, result or
  exception; the outer AFTER hookers all run, see it, and it is what the chain ends with. */
  lemma AfterThrows(outer: seq<Hooker>, bad: Hooker, inner: seq<Hooker>, original: Body, args: Args, e: Exn)
    returns (out: History)
    requires LetsThrough(outer, [bad] + inner, original, args, [])
    requires bad.hookType == After
    requires var (args1, h1) := WayIn(outer, args, []);
             var (r, h2) := Proceed(inner, original, args1, h1);
             bad.callback(h2, Info(args1, r.OrNull(), r.Exception())).throws == Some(e)
    ensures var (args1, h1) := WayIn(outer, args, []);
            var (r, h2) := Proceed(inner, original, args1, h1);
            var (result, end) := Proceed(outer + ([bad] + inner), original, args, []);
            && end == h2 + [Called(bad.id, Info(args1, r.OrNull(), r.Exception()))] + out
            && CalledIds(out) == Reversed(IdsOf(After, outer)) && Originals(out) == 0
            && AllSee(out, Some(e)) && result == Threw(e)
  {
    out := OuterPart(outer, [bad] + inner, original, args, []);
    var (args1, h1) := WayIn(outer, args, []);
    ThrownInside(bad, inner, original, args1, h1, e);
  }

  lemma ThrownInside(bad: Hooker, inner: seq<Hooker>, original: Body, args: Args, h: History, e: Exn)
    requires bad.hookType == After
    requires var (r, h1) := Proceed(inner, original, args, h);
             bad.callback(h1, Info(args, r.OrNull(), r.Exception())).throws == Some(e)
    ensures var (r, h1) := Proceed(inner, original, args, h);
            Proceed([bad] + inner, original, args, h)
              == (Threw(e), h1 + [Called(bad.id, Info(args, r.OrNull(), r.Exception()))])
  {
    assert ([bad] + inner)[0] == bad && ([bad] + inner)[1..] == inner;
  }

  /** An AFTER hooker that assigns a result, below an outer part that leaves results alone: its last
  assignment is the outcome when what is inside it returned, and counts for nothing when that threw. */
  lemma OutermostAssignmentStands(outer: seq<Hooker>, last: Hooker, inner: seq<Hooker>, original: Body, args: Args)
    requires LetsThrough(outer, [last] + inner, original, args, [])
        && LeavesResult(outer, [last] + inner, original, args, [])
    requires last.hookType == After && !last.ignoreResult
    requires var (args1, h1) := WayIn(outer, args, []);
             var (r, h2) := Proceed(inner, original, args1, h1);
             CallOut(last, args1, r, h2).throws.None?
    ensures var (args1, h1) := WayIn(outer, args, []);
            var (r, h2) := Proceed(inner, original, args1, h1);
            var result := Proceed(outer + ([last] + inner), original, args, []).0;
            result == if r.Returned? then Returned(LastOr(r.value, CallOut(last, args1, r, h2).writes)) else r
  {
    var out := OuterPart(outer, [last] + inner, original, args, []);
    var (args1, h1) := WayIn(outer, args, []);
    AssignmentStands(last, inner, original, args1, h1);
  }

  lemma AssignmentStands(last: Hooker, inner: seq<Hooker>, original: Body, args: Args, h: History)
    requires last.hookType == After && !last.ignoreResult
    requires var (r, h1) := Proceed(inner, original, args, h); CallOut(last, args, r, h1).throws.None?
    ensures var (r, h1) := Proceed(inner, original, args, h);
            Proceed([last] + inner, original, args, h).0
              == if r.Returned? then Returned(LastOr(r.value, CallOut(last, args, r, h1).writes)) else r
  {
    assert ([last] + inner)[0] == last && ([last] + inner)[1..] == inner;
  }
}
