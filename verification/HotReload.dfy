/** The hot-reload protocol of the LSPosed backend: old framework handles are matched by the type and
priority in their ids and replaced in place; what is not replaced is unhooked.

The framework is not part of this model. Of it the protocol uses that `replaceHook` keeps a hook's
executable, priority and id, and that a hook built without a priority gets the default one. */
module HotReload {
  import opened HookIdentifier
  import opened MapBags
  import opened Priority
  import opened Sequences
  import opened Wrappers

  datatype Member = Method(cls: nat, signature: nat) | Clinit(cls: nat)

  datatype Hooker = Hooker(hookType: HookType, callback: nat, ignoreResult: bool)

  /** A hook as the framework holds it, under a handle. */
  datatype FrameworkHook = FrameworkHook(executable: Member, priority: Int32, id: Option<string>, hooker: Hooker)

  /** What a module asks for; `random` is the random part its identifier gets. */
  datatype Request =
    | Hook(member: Member, hookType: HookType, priority: Int32, callback: nat, random: string)
    | HookClinit(cls: nat, hookType: HookType, callback: nat)

  datatype Framework = Framework(apiVersion: int, defaultPriority: DefaultPriority)

  const GENERATED := "0"

  predicate RequestOk(r: Request) {
    r.Hook? ==> NoColon(r.random) && !IsBlank(r.random)
  }

  function IdentifierOf(fw: Framework, r: Request): Identifier
    requires r.Hook?
  {
    Identifier(r.hookType, FrameworkPriority(fw.defaultPriority, r.hookType, r.priority), r.random)
  }

  function HookerOf(r: Request): Hooker {
    Hooker(r.hookType, r.callback, r.HookClinit?)
  }

  /** The hook a request installs when there is nothing to replace. */
  function FreshHook(fw: Framework, r: Request): FrameworkHook {
    match r
    case Hook(member, _, _, _, _) =>
      var id := IdentifierOf(fw, r);
      FrameworkHook(member, id.priority, if fw.apiVersion >= 102 then Some(ToId(id)) else None, HookerOf(r))
    case HookClinit(cls, _, _) =>
      FrameworkHook(Clinit(cls), fw.defaultPriority, None, HookerOf(r))
  }

  /** `live` is the framework's table. `previous` holds the old handles not yet replaced, by executable, and
  `replaced` those that were, in order. */
  datatype State = State(live: map<nat, FrameworkHook>, previous: map<Member, seq<nat>>, hot: bool, next: nat,
                         replaced: seq<nat>)

  predicate Fits(hook: FrameworkHook, wanted: Identifier) {
    && hook.id.Some?
    && FromId(hook.id.value, GENERATED).Some?
    && SameHook(FromId(hook.id.value, GENERATED).value, wanted)
  }

  /** indexOfFirst over the handles of a member; the length of the list when none fits. */
  function FirstFit(live: map<nat, FrameworkHook>, handles: seq<nat>, wanted: Identifier): (k: nat)
    ensures k <= |handles|
    ensures forall i :: 0 <= i < k ==> !(handles[i] in live && Fits(live[handles[i]], wanted))
    ensures k < |handles| ==> handles[k] in live && Fits(live[handles[k]], wanted)
  {
    if handles == [] || (handles[0] in live && Fits(live[handles[0]], wanted)) then 0
    else 1 + FirstFit(live, handles[1..], wanted)
  }

  function RemoveAt(handles: seq<nat>, k: nat): seq<nat>
    requires k < |handles|
  {
    handles[..k] + handles[k + 1..]
  }

  /** replaceHook on the old handle at position `k` of a member's list. */
  function Replace(s: State, member: Member, k: nat, hooker: Hooker): State
    requires member in s.previous && k < |s.previous[member]| && s.previous[member][k] in s.live
  {
    var h := s.previous[member][k];
    s.(live := s.live[h := s.live[h].(hooker := hooker)],
       previous := s.previous[member := RemoveAt(s.previous[member], k)],
       replaced := s.replaced + [h])
  }

  function Install(fw: Framework, s: State, r: Request): State {
    s.(live := s.live[s.next := FreshHook(fw, r)], next := s.next + 1)
  }

  /** The old handle a request takes over: for a member the first whose id fits, for a class initializer the last. */
  function Match(fw: Framework, s: State, r: Request): Option<(Member, nat)> {
    if !s.hot then None
    else match r
      case Hook(member, _, _, _, _) =>
        if member !in s.previous then None
        else
          var k := FirstFit(s.live, s.previous[member], IdentifierOf(fw, r));
          if k == |s.previous[member]| then None else Some((member, k))
      case HookClinit(cls, _, _) =>
        if Clinit(cls) !in s.previous || s.previous[Clinit(cls)] == [] then None
        else Some((Clinit(cls), |s.previous[Clinit(cls)]| - 1))
  }

  /** Every handle listed is live and of the member it is listed under, and listed once. */
  ghost predicate PreviousOk(s: State) {
    forall m :: m in s.previous ==> ListOk(s, m)
  }

  /** Handle numbers are never used twice. */
  ghost predicate StateOk(s: State) {
    PreviousOk(s) && forall h :: h in s.live ==> h < s.next
  }

  ghost predicate ListOk(s: State, m: Member)
    requires m in s.previous
  {
    var handles := s.previous[m];
    && (forall k :: 0 <= k < |handles| ==> handles[k] in s.live && s.live[handles[k]].executable == m)
    && NoDuplicates(handles)
  }

  lemma ReplaceKeepsOk(s: State, m: Member, k: nat, hooker: Hooker)
    requires StateOk(s) && m in s.previous && k < |s.previous[m]| && s.previous[m][k] in s.live
    ensures StateOk(Replace(s, m, k, hooker))
  {
    var s' := Replace(s, m, k, hooker);
    forall n | n in s'.previous ensures ListOk(s', n) {
      assert ListOk(s, n);
    }
  }

  lemma InstallKeepsOk(fw: Framework, s: State, r: Request)
    requires StateOk(s)
    ensures StateOk(Install(fw, s, r))
  {
    var s' := Install(fw, s, r);
    forall n | n in s'.previous ensures ListOk(s', n) {
      assert ListOk(s, n);
    }
  }

  /** One request: the new state and the handle that now carries it. */
  ghost function Do(fw: Framework, s: State, r: Request): (result: (State, nat))
    requires StateOk(s)
    ensures StateOk(result.0)
  {
    var found := Match(fw, s, r);
    if found.None? then
      InstallKeepsOk(fw, s, r);
      (Install(fw, s, r), s.next)
    else
      var (m, k) := found.value;
      assert ListOk(s, m);
      ReplaceKeepsOk(s, m, k, HookerOf(r));
      (Replace(s, m, k, HookerOf(r)), s.previous[m][k])
  }

  // A whole reload

  /** The requests of a module one after the other, and the handles that carry them. */
  ghost function Serve(fw: Framework, s: State, reqs: seq<Request>): (result: (State, seq<nat>))
    requires StateOk(s)
    ensures StateOk(result.0) && |result.1| == |reqs|
    decreases |reqs|
  {
    if reqs == [] then (s, [])
    else
      var (front, installed) := Serve(fw, s, reqs[..|reqs| - 1]);
      var (end, h) := Do(fw, front, reqs[|reqs| - 1]);
      (end, installed + [h])
  }

  function Under(live: map<nat, FrameworkHook>, handles: seq<nat>, m: Member): seq<nat> {
    if handles == [] then []
    else
      var here := if handles[0] in live && live[handles[0]].executable == m then [handles[0]] else [];
      here + Under(live, handles[1..], m)
  }

  /** groupBy executable. */
  function Grouped(live: map<nat, FrameworkHook>, handles: seq<nat>): map<Member, seq<nat>> {
    map m | m in (set h | h in handles && h in live :: live[h].executable) :: Under(live, handles, m)
  }

  function Begin(s: State, handles: seq<nat>): State {
    s.(previous := Grouped(s.live, handles), hot := true, replaced := [])
  }

  /** An old handle nobody has taken over yet. */
  predicate IsLeft(s: State, h: nat) {
    h in s.live && s.live[h].executable in s.previous && h in s.previous[s.live[h].executable]
  }

  /** Afterwards: the handles left are unhooked; with none left the lists, all empty, stay where they are. */
  ghost function End(s: State): State {
    s.(live := map h | h in s.live && !IsLeft(s, h) :: s.live[h],
       hot := false,
       previous := if exists h :: IsLeft(s, h) then map[] else s.previous)
  }

  lemma {:induction false} UnderFacts(live: map<nat, FrameworkHook>, handles: seq<nat>, m: Member)
    requires NoDuplicates(handles)
    ensures forall h :: h in Under(live, handles, m) <==> h in handles && h in live && live[h].executable == m
    ensures NoDuplicates(Under(live, handles, m))
  {
    if handles != [] {
      UnderFacts(live, handles[1..], m);
      assert handles == [handles[0]] + handles[1..];
      assert handles[0] !in handles[1..];
    }
  }

  lemma BeginFacts(s: State, handles: seq<nat>)
    requires Lists(handles, s.live) && forall h :: h in s.live ==> h < s.next
    ensures StateOk(Begin(s, handles))
    ensures forall h :: h in s.live <==> IsLeft(Begin(s, handles), h)
  {
    var b := Begin(s, handles);
    forall m | m in b.previous ensures ListOk(b, m) {
      UnderFacts(s.live, handles, m);
    }
    forall h ensures h in s.live <==> IsLeft(b, h) {
      if h in s.live {
        UnderFacts(s.live, handles, s.live[h].executable);
      }
    }
  }

  ghost function Reload(fw: Framework, s: State, handles: seq<nat>, reqs: seq<Request>): (State, seq<nat>)
    requires Lists(handles, s.live) && forall h :: h in s.live ==> h < s.next
  {
    BeginFacts(s, handles);
    var (mid, installed) := Serve(fw, Begin(s, handles), reqs);
    (End(mid), installed)
  }

  // What a request does

  function Executable(r: Request): Member {
    if r.Hook? then r.member else Clinit(r.cls)
  }

  /** `r` took over the old handle `h`, which keeps its executable, priority and id. */
  ghost predicate TookOver(fw: Framework, s: State, r: Request, s': State, h: nat) {
    && IsLeft(s, h) && s'.replaced == s.replaced + [h]
    && s'.live == s.live[h := s.live[h].(hooker := HookerOf(r))]
    && s.live[h].executable == Executable(r)
    && (r.Hook? ==> Fits(s.live[h], IdentifierOf(fw, r)))
  }

  /** `r` installed a hook of its own. */
  ghost predicate Installed(fw: Framework, s: State, r: Request, s': State, h: nat) {
    && h !in s.live && s'.replaced == s.replaced
    && s'.live == s.live[h := FreshHook(fw, r)]
  }

  lemma DoFacts(fw: Framework, s: State, r: Request)
    requires StateOk(s)
    ensures var (s', h) := Do(fw, s, r);
            && (TookOver(fw, s, r, s', h) || Installed(fw, s, r, s', h))
            && (forall g :: IsLeft(s', g) <==> IsLeft(s, g) && g != h)
            && s'.hot == s.hot
  {
    var (s', h) := Do(fw, s, r);
    var found := Match(fw, s, r);
    if found.None? {
      InstallLeaves(fw, s, r);
    } else {
      var (m, k) := found.value;
      assert ListOk(s, m);
      ReplaceLeaves(s, m, k, HookerOf(r));
    }
  }

  lemma InstallLeaves(fw: Framework, s: State, r: Request)
    requires StateOk(s)
    ensures forall g :: IsLeft(Install(fw, s, r), g) <==> IsLeft(s, g) && g != s.next
  {
    forall m | m in s.previous ensures s.next !in s.previous[m] {
      assert ListOk(s, m);
    }
  }

  lemma ReplaceLeaves(s: State, m: Member, k: nat, hooker: Hooker)
    requires StateOk(s) && m in s.previous && k < |s.previous[m]| && s.previous[m][k] in s.live
    ensures forall g :: IsLeft(Replace(s, m, k, hooker), g) <==> IsLeft(s, g) && g != s.previous[m][k]
    ensures IsLeft(s, s.previous[m][k])
  {
    var s' := Replace(s, m, k, hooker);
    assert ListOk(s, m);
    var handles := s.previous[m];
    assert handles == handles[..k] + [handles[k]] + handles[k + 1..];
    assert forall g :: g in RemoveAt(handles, k) <==> g in handles && g != handles[k];
  }

  // When a request takes over an old handle

  /** The id of the hook reads as the type and the framework priority that the request asks for. */
  predicate Answers(fw: Framework, hook: FrameworkHook, r: Request)
    requires r.Hook?
  {
    && hook.id.Some?
    && var id := FromId(hook.id.value, GENERATED);
       id.Some? && id.value.hookType == r.hookType
       && id.value.priority == FrameworkPriority(fw.defaultPriority, r.hookType, r.priority)
  }

  /** While reloading, hook takes over the first old handle of the member whose id answers the request, in
  the order of the list, and installs nothing. */
  lemma HookTakesOverFirst(fw: Framework, s: State, r: Request, k: nat)
    requires StateOk(s) && s.hot && r.Hook? && r.member in s.previous
    requires var prior := s.previous[r.member];
             && k < |prior| && prior[k] in s.live && Answers(fw, s.live[prior[k]], r)
             && forall i :: 0 <= i < k && prior[i] in s.live ==> !Answers(fw, s.live[prior[i]], r)
    ensures var (s', h) := Do(fw, s, r);
            var prior := s.previous[r.member];
            && h == prior[k] && s'.next == s.next && s'.replaced == s.replaced + [h] && s'.hot
            && s'.live == s.live[h := s.live[h].(hooker := Hooker(r.hookType, r.callback, false))]
            && s'.previous == s.previous[r.member := prior[..k] + prior[k + 1..]]
  {
  }

  /** It installs a hook of its own exactly when there is no such handle. */
  lemma HookInstalls(fw: Framework, s: State, r: Request)
    requires StateOk(s) && r.Hook?
    requires s.hot && r.member in s.previous ==>
               forall i :: 0 <= i < |s.previous[r.member]| && s.previous[r.member][i] in s.live ==>
                 !Answers(fw, s.live[s.previous[r.member][i]], r)
    ensures Do(fw, s, r) == (s.(live := s.live[s.next := FreshHook(fw, r)], next := s.next + 1), s.next)
  {
  }

  /** While reloading, hookClassInitializer takes over the last old handle of the class's initializer. */
  lemma ClinitTakesOverLast(fw: Framework, s: State, r: Request)
    requires StateOk(s) && s.hot && r.HookClinit?
    requires Clinit(r.cls) in s.previous && s.previous[Clinit(r.cls)] != []
    ensures var (s', h) := Do(fw, s, r);
            var prior := s.previous[Clinit(r.cls)];
            && h == prior[|prior| - 1] && h in s.live && s'.next == s.next && s'.replaced == s.replaced + [h] && s'.hot
            && s'.live == s.live[h := s.live[h].(hooker := Hooker(r.hookType, r.callback, true))]
            && s'.previous == s.previous[Clinit(r.cls) := prior[..|prior| - 1]]
  {
    assert ListOk(s, Clinit(r.cls));
    var prior := s.previous[Clinit(r.cls)];
    assert prior[..|prior| - 1] + prior[|prior|..] == prior[..|prior| - 1];
  }

  lemma ClinitInstalls(fw: Framework, s: State, r: Request)
    requires StateOk(s) && r.HookClinit?
    requires s.hot && Clinit(r.cls) in s.previous ==> s.previous[Clinit(r.cls)] == []
    ensures Do(fw, s, r) == (s.(live := s.live[s.next := FreshHook(fw, r)], next := s.next + 1), s.next)
  {
  }

  function IsUnder(live: map<nat, FrameworkHook>, m: Member): nat -> bool {
    (h: nat) => h in live && live[h].executable == m
  }

  /** The old handles of a member stand in its list in the order in which the framework gave them. */
  lemma {:induction false} UnderKeepsOrder(live: map<nat, FrameworkHook>, handles: seq<nat>, m: Member)
    returns (at: seq<nat>)
    ensures TakenAt(handles, at, Under(live, handles, m))
    ensures forall i: nat ::
              i in at <==> i < |handles| && handles[i] in live && live[handles[i]].executable == m
  {
    UnderIsFilter(live, handles, m);
    at := FilterKeepsOrder(IsUnder(live, m), handles);
  }

  lemma {:induction false} UnderIsFilter(live: map<nat, FrameworkHook>, handles: seq<nat>, m: Member)
    ensures Under(live, handles, m) == Filter(IsUnder(live, m), handles)
  {
    if handles != [] {
      UnderIsFilter(live, handles[1..], m);
    }
  }

  // Conservation

  /** Where the handles stand in the middle of a reload that began with the hooks `before`. */
  ghost predicate Accounted(before: map<nat, FrameworkHook>, s: State, installed: seq<nat>) {
    && NoDuplicates(installed) && NoDuplicates(s.replaced)
    && (forall h :: h in s.live <==> IsLeft(s, h) || h in installed)
    && (forall h :: h in installed ==> !IsLeft(s, h))
    && (forall h :: h in before <==> IsLeft(s, h) || h in s.replaced)
    && (forall h :: h in s.replaced ==> h in installed)
  }

  lemma {:induction false} ServeAccounts(fw: Framework, before: map<nat, FrameworkHook>, s: State, reqs: seq<Request>)
    requires StateOk(s) && Accounted(before, s, [])
    ensures Accounted(before, Serve(fw, s, reqs).0, Serve(fw, s, reqs).1)
    decreases |reqs|
  {
    if reqs != [] {
      ServeAccounts(fw, before, s, reqs[..|reqs| - 1]);
      var (front, installed) := Serve(fw, s, reqs[..|reqs| - 1]);
      DoAccounts(fw, before, front, installed, reqs[|reqs| - 1]);
    }
  }

  lemma DoAccounts(fw: Framework, before: map<nat, FrameworkHook>, s: State, installed: seq<nat>, r: Request)
    requires StateOk(s) && Accounted(before, s, installed)
    ensures Accounted(before, Do(fw, s, r).0, installed + [Do(fw, s, r).1])
  {
    DoFacts(fw, s, r);
    var (s', h) := Do(fw, s, r);
    if TookOver(fw, s, r, s', h) {
      TakeOverAccounts(fw, before, s, installed, r, s', h);
    } else {
      InstallAccounts(fw, before, s, installed, r, s', h);
    }
  }

  lemma TakeOverAccounts(fw: Framework, before: map<nat, FrameworkHook>, s: State, installed: seq<nat>, r: Request,
                         s': State, h: nat)
    requires Accounted(before, s, installed) && TookOver(fw, s, r, s', h)
    requires forall g :: IsLeft(s', g) <==> IsLeft(s, g) && g != h
    ensures Accounted(before, s', installed + [h])
  {
    assert h !in installed && h !in s.replaced;
  }

  lemma InstallAccounts(fw: Framework, before: map<nat, FrameworkHook>, s: State, installed: seq<nat>, r: Request,
                        s': State, h: nat)
    requires Accounted(before, s, installed) && Installed(fw, s, r, s', h)
    requires forall g :: IsLeft(s', g) <==> IsLeft(s, g) && g != h
    ensures Accounted(before, s', installed + [h])
  {
    assert h !in installed;
  }

  /** Every old handle is either taken over, exactly once, or unhooked, and never both; afterwards exactly
  the handles that the requests ended up with are live, one for each. */
  lemma Conservation(fw: Framework, s: State, handles: seq<nat>, reqs: seq<Request>)
    requires Lists(handles, s.live) && forall h :: h in s.live ==> h < s.next
    ensures var (end, installed) := Reload(fw, s, handles, reqs);
            && NoDuplicates(end.replaced) && NoDuplicates(installed) && |installed| == |reqs|
            && (forall h :: h in end.live <==> h in installed)
            && (forall h :: h in s.live ==> (h in end.replaced <==> h in end.live))
            && (forall h :: h in end.replaced ==> h in s.live)
  {
    BeginFacts(s, handles);
    ServeAccounts(fw, s.live, Begin(s, handles), reqs);
  }

  // Equivalence with a fresh load

  /** What matters about a live hook. */
  datatype Triple = Triple(executable: Member, priority: Int32, hooker: Hooker)

  function TripleOf(hook: FrameworkHook): Triple {
    Triple(hook.executable, hook.priority, hook.hooker)
  }

  function RequestTriples(fw: Framework, reqs: seq<Request>): seq<Triple> {
    seq(|reqs|, k requires 0 <= k < |reqs| => AskedFor(fw, reqs[k]))
  }

  /** What a request asks for: its own executable, type and callback, the priority as the framework knows it,
  and results that count only for hook. */
  function AskedFor(fw: Framework, r: Request): Triple {
    match r
    case Hook(member, hookType, priority, callback, _) =>
      Triple(member, FrameworkPriority(fw.defaultPriority, hookType, priority), Hooker(hookType, callback, false))
    case HookClinit(cls, hookType, callback) =>
      Triple(Clinit(cls), fw.defaultPriority, Hooker(hookType, callback, true))
  }

  /** The hook a request installs is what it asks for; hook gives it an id from version 102 on, and the id
  reads back as the type, the framework priority and the random part. */
  lemma FreshHookIs(fw: Framework, r: Request)
    requires RequestOk(r)
    ensures TripleOf(FreshHook(fw, r)) == AskedFor(fw, r)
    ensures FreshHook(fw, r).id.Some? <==> r.Hook? && fw.apiVersion >= 102
    ensures FreshHook(fw, r).id.Some? ==>
              FromId(FreshHook(fw, r).id.value, GENERATED)
              == Some(Identifier(r.hookType, FrameworkPriority(fw.defaultPriority, r.hookType, r.priority), r.random))
  {
    if r.Hook? {
      IdRoundTrip(IdentifierOf(fw, r), GENERATED);
    }
  }

  /** The hooks a module's requests ask for. */
  function RequestBag(fw: Framework, reqs: seq<Request>): multiset<Triple> {
    multiset(RequestTriples(fw, reqs))
  }

  /** The hooks that are live. */
  ghost function LiveBag(live: map<nat, FrameworkHook>): multiset<Triple> {
    Bag(Triples(live))
  }

  function Triples(live: map<nat, FrameworkHook>): map<nat, Triple> {
    map h | h in live :: TripleOf(live[h])
  }

  /** Every id carries the priority that the framework was given. */
  ghost predicate IdsTellPriorities(live: map<nat, FrameworkHook>) {
    forall h :: h in live ==> IdTellsPriority(live[h])
  }

  predicate IdTellsPriority(hook: FrameworkHook) {
    hook.id.Some? ==>
      var id := FromId(hook.id.value, GENERATED);
      id.Some? && id.value.priority == hook.priority
  }

  /** Hooks on class initializers have the priority that hookClassInitializer gives them. */
  ghost predicate ClinitsAreDefault(fw: Framework, live: map<nat, FrameworkHook>) {
    forall h :: h in live && live[h].executable.Clinit? ==> live[h].priority == fw.defaultPriority
  }

  ghost predicate RequestsOk(reqs: seq<Request>) {
    forall k :: 0 <= k < |reqs| ==> RequestOk(reqs[k])
  }

  lemma FreshHookTells(fw: Framework, r: Request)
    requires RequestOk(r)
    ensures IdTellsPriority(FreshHook(fw, r))
  {
    if r.Hook? {
      IdRoundTrip(IdentifierOf(fw, r), GENERATED);
    }
  }

  /** The old handles left in the middle of a reload are as the reload needs them. */
  ghost predicate LeftAreGood(fw: Framework, s: State) {
    forall h :: IsLeft(s, h) ==>
      && IdTellsPriority(s.live[h])
      && (s.live[h].executable.Clinit? ==> s.live[h].priority == fw.defaultPriority)
  }

  /** Each request is carried by a hook like the one it would install afresh, and the ids tell priorities. */
  ghost predicate Carried(fw: Framework, s: State, reqs: seq<Request>, installed: seq<nat>) {
    && |installed| == |reqs|
    && forall k :: 0 <= k < |reqs| ==>
         && installed[k] in s.live
         && TripleOf(s.live[installed[k]]) == TripleOf(FreshHook(fw, reqs[k]))
         && IdTellsPriority(s.live[installed[k]])
  }

  lemma DoCarries(fw: Framework, before: map<nat, FrameworkHook>, s: State, reqs: seq<Request>, installed: seq<nat>,
                  r: Request)
    requires StateOk(s) && Accounted(before, s, installed) && LeftAreGood(fw, s) && RequestOk(r)
    requires Carried(fw, s, reqs, installed)
    ensures LeftAreGood(fw, Do(fw, s, r).0)
    ensures Carried(fw, Do(fw, s, r).0, reqs + [r], installed + [Do(fw, s, r).1])
  {
    DoFacts(fw, s, r);
    FreshHookTells(fw, r);
    var (s', h) := Do(fw, s, r);
    assert h !in installed;
    assert TripleOf(s'.live[h]) == TripleOf(FreshHook(fw, r)) && IdTellsPriority(s'.live[h]);
    forall k | 0 <= k < |reqs| ensures installed[k] in s'.live && s'.live[installed[k]] == s.live[installed[k]] {
      assert installed[k] in installed;
    }
  }

  lemma {:induction false} ServeCarries(fw: Framework, before: map<nat, FrameworkHook>, s: State, reqs: seq<Request>)
    requires StateOk(s) && Accounted(before, s, []) && LeftAreGood(fw, s) && RequestsOk(reqs)
    ensures LeftAreGood(fw, Serve(fw, s, reqs).0)
    ensures Carried(fw, Serve(fw, s, reqs).0, reqs, Serve(fw, s, reqs).1)
    decreases |reqs|
  {
    if reqs != [] {
      var last := |reqs| - 1;
      ServeCarries(fw, before, s, reqs[..last]);
      ServeAccounts(fw, before, s, reqs[..last]);
      var (front, installed) := Serve(fw, s, reqs[..last]);
      DoCarries(fw, before, front, reqs[..last], installed, reqs[last]);
      assert reqs == reqs[..last] + [reqs[last]];
    }
  }

  /** When exactly the carrying handles are live, the live hooks are the requested ones. */
  lemma CarriedBag(fw: Framework, s: State, reqs: seq<Request>, installed: seq<nat>)
    requires Carried(fw, s, reqs, installed) && NoDuplicates(installed)
    requires forall h :: h in s.live <==> h in installed
    ensures LiveBag(s.live) == RequestBag(fw, reqs)
  {
    BagAlong(Triples(s.live), installed, RequestTriples(fw, reqs));
  }

  lemma StillCarried(fw: Framework, mid: State, reqs: seq<Request>, installed: seq<nat>)
    requires Carried(fw, mid, reqs, installed) && forall h :: h in installed ==> !IsLeft(mid, h)
    ensures Carried(fw, End(mid), reqs, installed)
  {
    forall k | 0 <= k < |reqs| ensures installed[k] in End(mid).live
        && End(mid).live[installed[k]] == mid.live[installed[k]] {
      assert installed[k] in installed;
    }
  }

  /** After a reload the live hooks are those that the same requests ask for, and the ids still tell priorities. */
  lemma ReloadGivesRequests(fw: Framework, s: State, handles: seq<nat>, reqs: seq<Request>)
    requires Lists(handles, s.live) && forall h :: h in s.live ==> h < s.next
    requires IdsTellPriorities(s.live) && ClinitsAreDefault(fw, s.live) && RequestsOk(reqs)
    ensures var end := Reload(fw, s, handles, reqs).0;
            && LiveBag(end.live) == RequestBag(fw, reqs)
            && IdsTellPriorities(end.live) && forall h :: h in end.live ==> h < end.next
  {
    BeginFacts(s, handles);
    var b := Begin(s, handles);
    ServeAccounts(fw, s.live, b, reqs);
    ServeCarries(fw, s.live, b, reqs);
    var (mid, installed) := Serve(fw, b, reqs);
    StillCarried(fw, mid, reqs, installed);
    CarriedBag(fw, End(mid), reqs, installed);
    forall h | h in End(mid).live ensures IdTellsPriority(End(mid).live[h]) {
      var k :| 0 <= k < |installed| && installed[k] == h;
    }
  }

  /** A fresh load: the same requests with no old handles. */
  lemma FreshLoadGivesRequests(fw: Framework, reqs: seq<Request>)
    requires RequestsOk(reqs)
    ensures LiveBag(Serve(fw, EMPTY, reqs).0.live) == RequestBag(fw, reqs)
    ensures IdsTellPriorities(Serve(fw, EMPTY, reqs).0.live)
  {
    ServeAccounts(fw, map[], EMPTY, reqs);
    ServeCarries(fw, map[], EMPTY, reqs);
    var (s, installed) := Serve(fw, EMPTY, reqs);
    assert forall h :: !IsLeft(s, h);
    CarriedBag(fw, s, reqs, installed);
    forall h | h in s.live ensures IdTellsPriority(s.live[h]) {
      var k :| 0 <= k < |installed| && installed[k] == h;
    }
  }

  ghost predicate EqualsFresh(fw: Framework, s: State, handles: seq<nat>, reqs: seq<Request>)
    requires Lists(handles, s.live) && forall h :: h in s.live ==> h < s.next
  {
    LiveBag(Reload(fw, s, handles, reqs).0.live) == LiveBag(Serve(fw, EMPTY, reqs).0.live)
  }

  function ClinitRequests(cls: nat, n: nat): seq<Request> {
    seq(n, _ => HookClinit(cls, Before, 0))
  }

  /** The hooks of `s` are live in `s'` too, with their executables and priorities. */
  ghost predicate Keeps(s: State, s': State) {
    forall h :: h in s.live ==>
      h in s'.live && s'.live[h].executable == s.live[h].executable && s'.live[h].priority == s.live[h].priority
  }

  ghost predicate HasOld(s: State, m: Member, n: nat) {
    s.hot && m in s.previous && |s.previous[m]| == n
  }

  lemma DoPops(fw: Framework, s: State, r: Request, n: nat)
    requires StateOk(s) && r.HookClinit? && n > 0 && HasOld(s, Clinit(r.cls), n)
    ensures Keeps(s, Do(fw, s, r).0) && HasOld(Do(fw, s, r).0, Clinit(r.cls), n - 1)
  {
    DoFacts(fw, s, r);
    assert ListOk(s, Clinit(r.cls));
  }

  /** Requests for one class initializer use up its old handles, and none of them changes a priority. */
  lemma {:induction false} ServePops(fw: Framework, s: State, cls: nat, total: nat, n: nat)
    requires StateOk(s) && n <= total && HasOld(s, Clinit(cls), total)
    ensures Keeps(s, Serve(fw, s, ClinitRequests(cls, n)).0)
    ensures HasOld(Serve(fw, s, ClinitRequests(cls, n)).0, Clinit(cls), total - n)
  {
    if n > 0 {
      ServePops(fw, s, cls, total, n - 1);
      var reqs := ClinitRequests(cls, n);
      assert reqs[..n - 1] == ClinitRequests(cls, n - 1);
      DoPops(fw, Serve(fw, s, reqs[..n - 1]).0, reqs[n - 1], total - (n - 1));
    }
  }

  lemma {:induction false} InBag<T(!new)>(m: map<nat, T>, k: nat)
    requires k in m
    ensures m[k] in Bag(m)
  {
    BagWithout(m, k);
  }

  /** An old hook on a class initializer outlives as many requests for it as there are old handles, with
  its priority. */
  lemma OldClinitSurvives(fw: Framework, s: State, handles: seq<nat>, x: nat) returns (reqs: seq<Request>)
    requires Lists(handles, s.live) && forall h :: h in s.live ==> h < s.next
    requires x in s.live && s.live[x].executable.Clinit?
    ensures reqs == ClinitRequests(s.live[x].executable.cls, |Under(s.live, handles, s.live[x].executable)|)
    ensures var end := Reload(fw, s, handles, reqs).0;
            x in end.live && end.live[x].priority == s.live[x].priority
  {
    BeginFacts(s, handles);
    var b := Begin(s, handles);
    var c := s.live[x].executable;
    assert IsLeft(b, x);
    reqs := ClinitRequests(c.cls, |b.previous[c]|);
    ServePops(fw, b, c.cls, |b.previous[c]|, |b.previous[c]|);
    var mid := Serve(fw, b, reqs).0;
    assert mid.previous[c] == [] && !IsLeft(mid, x);
  }

  lemma ClinitRequestsAreDefault(fw: Framework, cls: nat, n: nat)
    ensures RequestsOk(ClinitRequests(cls, n))
    ensures forall t :: t in RequestBag(fw, ClinitRequests(cls, n)) ==> t.priority == fw.defaultPriority
  {
    var triples := RequestTriples(fw, ClinitRequests(cls, n));
    assert forall t :: t in multiset(triples) ==> t in triples;
  }

  /** A class initializer hooked at another priority breaks the equivalence for some module. */
  lemma OddClinitBreaks(fw: Framework, s: State, handles: seq<nat>, x: nat)
    requires Lists(handles, s.live) && forall h :: h in s.live ==> h < s.next
    requires x in s.live && s.live[x].executable.Clinit? && s.live[x].priority != fw.defaultPriority
    ensures exists reqs :: RequestsOk(reqs) && !EqualsFresh(fw, s, handles, reqs)
  {
    var reqs := OldClinitSurvives(fw, s, handles, x);
    OddPriorityShows(fw, s, handles, x, s.live[x].executable.cls, |reqs|);
  }

  /** A live hook at another priority is none that requests for class initializers ask for. */
  lemma OddPriorityShows(fw: Framework, s: State, handles: seq<nat>, x: nat, cls: nat, n: nat)
    requires Lists(handles, s.live) && forall h :: h in s.live ==> h < s.next
    requires var end := Reload(fw, s, handles, ClinitRequests(cls, n)).0;
             x in end.live && end.live[x].priority != fw.defaultPriority
    ensures RequestsOk(ClinitRequests(cls, n)) && !EqualsFresh(fw, s, handles, ClinitRequests(cls, n))
  {
    var reqs := ClinitRequests(cls, n);
    ClinitRequestsAreDefault(fw, cls, n);
    var end := Reload(fw, s, handles, reqs).0;
    InBag(Triples(end.live), x);
    FreshLoadGivesRequests(fw, reqs);
    assert TripleOf(end.live[x]) in LiveBag(end.live);
  }

  /** Such a module: it hooks a class initializer with plain hook. */
  const ODD_REQUEST := Hook(Clinit(0), Before, INT_MIN, 0, "0")

  lemma OddLoad(fw: Framework)
    ensures RequestsOk([ODD_REQUEST])
    ensures Serve(fw, EMPTY, [ODD_REQUEST]).0.live == map[0 := FreshHook(fw, ODD_REQUEST)]
    ensures Serve(fw, EMPTY, [ODD_REQUEST]).0.next == 1
    ensures FreshHook(fw, ODD_REQUEST).priority == INT_MIN
  {
    assert ODD_REQUEST.random[0] == '0' && RequestOk(ODD_REQUEST);
    assert [ODD_REQUEST][..0] == [];
    assert Serve(fw, EMPTY, []) == (EMPTY, []);
    assert Do(fw, EMPTY, ODD_REQUEST) == (Install(fw, EMPTY, ODD_REQUEST), 0);
  }

  /** A concrete run whatever the framework: the module is loaded, and reloaded with one request for the
  same class initializer through hookClassInitializer. */
  lemma OddModuleReloadsDifferently(fw: Framework)
    ensures var s := Serve(fw, EMPTY, [ODD_REQUEST]).0;
            var reqs := [HookClinit(0, Before, 0)];
            && RequestsOk([ODD_REQUEST]) && RequestsOk(reqs)
            && Lists([0], s.live) && (forall h :: h in s.live ==> h < s.next)
            && !EqualsFresh(fw, s, [0], reqs)
  {
    OddLoad(fw);
    var s := Serve(fw, EMPTY, [ODD_REQUEST]).0;
    var reqs := OldClinitSurvives(fw, s, [0], 0);
    assert Under(s.live, [0], Clinit(0)) == [0] + Under(s.live, [0][1..], Clinit(0));
    assert |reqs| == 1 && reqs == [HookClinit(0, Before, 0)];
    OddPriorityShows(fw, s, [0], 0, 0, 1);
  }

  /** A reload is equivalent to a fresh load for every module exactly when the old hooks on class
  initializers have the priority that hookClassInitializer gives. */
  lemma ReloadEqualsFreshLoad(fw: Framework, s: State, handles: seq<nat>)
    requires Lists(handles, s.live) && (forall h :: h in s.live ==> h < s.next) && IdsTellPriorities(s.live)
    ensures (forall reqs :: RequestsOk(reqs) ==> EqualsFresh(fw, s, handles, reqs)) <==> ClinitsAreDefault(fw, s.live)
  {
    if ClinitsAreDefault(fw, s.live) {
      forall reqs | RequestsOk(reqs) ensures EqualsFresh(fw, s, handles, reqs) {
        ReloadGivesRequests(fw, s, handles, reqs);
        FreshLoadGivesRequests(fw, reqs);
      }
    } else {
      var x :| x in s.live && s.live[x].executable.Clinit? && s.live[x].priority != fw.defaultPriority;
      OddClinitBreaks(fw, s, handles, x);
    }
  }

  // Any number of reloads

  /** One reload: the old handles in the order the framework lists them, and the new module's requests. */
  datatype Round = Round(handles: seq<nat>, reqs: seq<Request>)

  ghost predicate Rounds(fw: Framework, s: State, rounds: seq<Round>, end: State)
    decreases |rounds|
  {
    if rounds == [] then end == s
    else
      && Lists(rounds[0].handles, s.live) && (forall h :: h in s.live ==> h < s.next)
      && Rounds(fw, Reload(fw, s, rounds[0].handles, rounds[0].reqs).0, rounds[1..], end)
  }

  /** A module that hooks class initializers only through hookClassInitializer, or at the default priority. */
  ghost predicate SparesClinits(fw: Framework, reqs: seq<Request>) {
    forall k :: 0 <= k < |reqs| && reqs[k].Hook? && reqs[k].member.Clinit? ==>
      FreshHook(fw, reqs[k]).priority == fw.defaultPriority
  }

  lemma ReloadKeepsClinitsDefault(fw: Framework, s: State, handles: seq<nat>, reqs: seq<Request>)
    requires Lists(handles, s.live) && forall h :: h in s.live ==> h < s.next
    requires IdsTellPriorities(s.live) && ClinitsAreDefault(fw, s.live) && RequestsOk(reqs) && SparesClinits(fw, reqs)
    ensures ClinitsAreDefault(fw, Reload(fw, s, handles, reqs).0.live)
  {
    BeginFacts(s, handles);
    var b := Begin(s, handles);
    ServeAccounts(fw, s.live, b, reqs);
    ServeCarries(fw, s.live, b, reqs);
    var (mid, installed) := Serve(fw, b, reqs);
    forall h | h in End(mid).live && mid.live[h].executable.Clinit? ensures mid.live[h].priority == fw.defaultPriority {
      var k :| 0 <= k < |installed| && installed[k] == h;
      assert TripleOf(mid.live[installed[k]]) == TripleOf(FreshHook(fw, reqs[k]));
    }
  }

  ghost predicate RoundOk(fw: Framework, round: Round) {
    RequestsOk(round.reqs) && SparesClinits(fw, round.reqs)
  }

  /** After any number of reloads the live hooks are those the last module asks for. */
  lemma {:induction false} ManyReloads(fw: Framework, s: State, rounds: seq<Round>, end: State)
    requires rounds != [] && Rounds(fw, s, rounds, end)
    requires IdsTellPriorities(s.live) && ClinitsAreDefault(fw, s.live)
    requires forall k :: 0 <= k < |rounds| ==> RoundOk(fw, rounds[k])
    ensures LiveBag(end.live) == RequestBag(fw, rounds[|rounds| - 1].reqs)
    decreases |rounds|
  {
    var next := Reload(fw, s, rounds[0].handles, rounds[0].reqs).0;
    assert RoundOk(fw, rounds[0]);
    ReloadGivesRequests(fw, s, rounds[0].handles, rounds[0].reqs);
    if |rounds| > 1 {
      ReloadKeepsClinitsDefault(fw, s, rounds[0].handles, rounds[0].reqs);
      ManyReloads(fw, next, rounds[1..], end);
    }
  }

  const EMPTY := State(map[], map[], false, 0, [])

  /** The methods of the backend that change this state. */
  class LSPosed {
    const fw: Framework
    var live: map<nat, FrameworkHook>
    var previousHookHandles: map<Member, seq<nat>>
    var isHotReloading: bool
    var next: nat
    ghost var replaced: seq<nat>

    ghost function View(): State
      reads this
    {
      State(live, previousHookHandles, isHotReloading, next, replaced)
    }

    method IndexOfFirst(handles: seq<nat>, wanted: Identifier) returns (k: nat)
      ensures k == FirstFit(live, handles, wanted)
    {
      k := 0;
      while k < |handles|
        invariant k <= |handles|
        invariant k + FirstFit(live, handles[k..], wanted) == FirstFit(live, handles, wanted)
      {
        assert handles[k..][1..] == handles[k + 1..];
        if handles[k] in live && Fits(live[handles[k]], wanted) {
          return;
        }
        k := k + 1;
      }
    }

    method TakeOver(member: Member, k: nat, hooker: Hooker) returns (h: nat)
      requires member in previousHookHandles && k < |previousHookHandles[member]|
          && previousHookHandles[member][k] in live
      modifies this
      ensures h == old(previousHookHandles[member][k])
      ensures View() == Replace(old(View()), member, k, hooker)
    {
      h := previousHookHandles[member][k];
      previousHookHandles := previousHookHandles[member := RemoveAt(previousHookHandles[member], k)];
      live := live[h := live[h].(hooker := hooker)];
      replaced := replaced + [h];
    }

    method Add(hook: FrameworkHook) returns (h: nat)
      modifies this
      ensures h == old(next)
      ensures View() == old(View()).(live := old(live)[h := hook], next := h + 1)
    {
      h := next;
      live := live[h := hook];
      next := next + 1;
    }

    /** hook and hookClassInitializer. */
    method Handle(r: Request) returns (h: nat)
      requires StateOk(View())
      modifies this
      ensures (View(), h) == Do(fw, old(View()), r)
    {
      match r
      case Hook(member, _, _, _, _) =>
        if isHotReloading && member in previousHookHandles {
          assert ListOk(View(), member);
          var k := IndexOfFirst(previousHookHandles[member], IdentifierOf(fw, r));
          if k < |previousHookHandles[member]| {
            h := TakeOver(member, k, HookerOf(r));
            return;
          }
        }
        h := Add(FreshHook(fw, r));
      case HookClinit(cls, _, _) =>
        if isHotReloading && Clinit(cls) in previousHookHandles && previousHookHandles[Clinit(cls)] != [] {
          assert ListOk(View(), Clinit(cls));
          h := TakeOver(Clinit(cls), |previousHookHandles[Clinit(cls)]| - 1, HookerOf(r));
          return;
        }
        h := Add(FreshHook(fw, r));
    }

    constructor (fw: Framework)
      ensures this.fw == fw && View() == EMPTY
    {
      this.fw := fw;
      live, previousHookHandles, isHotReloading, next, replaced := map[], map[], false, 0, [];
    }

    /** The framework's unhook; a handle must not be unhooked twice. */
    method Unhook(h: nat)
      requires h in live
      modifies this`live
      ensures live == old(live) - {h}
    {
      live := live - {h};
    }

    /** Unhooks every handle left, and records the order. */
    method UnhookLeft() returns (ghost unhooked: seq<nat>)
      requires StateOk(View())
      modifies this`live
      ensures NoDuplicates(unhooked)
      ensures forall h :: h in unhooked <==> IsLeft(old(View()), h)
      ensures live == End(old(View())).live
    {
      ghost var s := View();
      unhooked := [];
      var members := previousHookHandles.Keys;
      while members != {}
        invariant members <= previousHookHandles.Keys
        invariant NoDuplicates(unhooked)
        invariant forall h :: h in unhooked <==> IsLeft(s, h) && s.live[h].executable !in members
        invariant live == map h | h in s.live && h !in unhooked :: s.live[h]
      {
        var m :| m in members;
        assert ListOk(s, m);
        ghost var more := UnhookList(previousHookHandles[m]);
        unhooked := unhooked + more;
        members := members - {m};
      }
    }

    method UnhookList(handles: seq<nat>) returns (ghost unhooked: seq<nat>)
      requires NoDuplicates(handles) && forall h :: h in handles ==> h in live
      modifies this`live
      ensures unhooked == handles
      ensures live == old(live) - (set h | h in handles)
    {
      for k := 0 to |handles|
        invariant live == old(live) - (set h | h in handles[..k])
      {
        assert handles[k] in handles && handles[k] !in handles[..k];
        Unhook(handles[k]);
        assert handles[..k + 1] == handles[..k] + [handles[k]];
      }
      assert handles[..|handles|] == handles;
      return handles;
    }

    /** The end of onHotReloaded. */
    method Finish() returns (ghost unhooked: seq<nat>)
      requires StateOk(View())
      modifies this
      ensures View() == End(old(View()))
      ensures NoDuplicates(unhooked) && forall h :: h in unhooked <==> IsLeft(old(View()), h)
    {
      ghost var mid := View();
      isHotReloading := false;
      assert StateOk(View());
      unhooked := UnhookLeft();
      forall m | m in mid.previous ensures ListOk(mid, m) {
      }
      if exists m :: m in previousHookHandles && previousHookHandles[m] != [] {
        ghost var m :| m in previousHookHandles && previousHookHandles[m] != [];
        assert ListOk(mid, m) && IsLeft(mid, mid.previous[m][0]);
        previousHookHandles := map[];
      }
    }

    /** onHotReloaded: without saved packages nothing happens; otherwise the old handles are grouped, the new
    module makes its requests, and what it did not take over is unhooked. */
    method OnHotReloaded(handles: seq<nat>, hasPackages: bool, reqs: seq<Request>)
      returns (installed: seq<nat>, ghost unhooked: seq<nat>)
      requires Lists(handles, live) && forall h :: h in live ==> h < next
      modifies this
      ensures !hasPackages ==> View() == old(View())
      ensures hasPackages ==> (View(), installed) == Reload(fw, old(View()), handles, reqs)
      ensures hasPackages ==> NoDuplicates(unhooked)
                              && forall h :: h in unhooked <==> h in old(live) && h !in replaced
    {
      installed, unhooked := [], [];
      if !hasPackages {
        return;
      }
      installed, unhooked := ReloadAll(handles, reqs);
    }

    /** The old handles are put by, grouped by executable. */
    method PutBy(handles: seq<nat>)
      requires Lists(handles, live) && forall h :: h in live ==> h < next
      modifies this
      ensures View() == Begin(old(View()), handles) && StateOk(View())
    {
      BeginFacts(View(), handles);
      isHotReloading := true;
      previousHookHandles := Grouped(live, handles);
      replaced := [];
    }

    method ReloadAll(handles: seq<nat>, reqs: seq<Request>) returns (installed: seq<nat>, ghost unhooked: seq<nat>)
      requires Lists(handles, live) && forall h :: h in live ==> h < next
      modifies this
      ensures (View(), installed) == Reload(fw, old(View()), handles, reqs)
      ensures NoDuplicates(unhooked) && forall h :: h in unhooked <==> h in old(live) && h !in replaced
    {
      ghost var s := View();
      BeginFacts(s, handles);
      PutBy(handles);
      installed := ServeAll(reqs);
      ServeAccounts(fw, s.live, Begin(s, handles), reqs);
      unhooked := Finish();
    }

    /** The module's own code, as the requests it makes. */
    method ServeAll(reqs: seq<Request>) returns (installed: seq<nat>)
      requires StateOk(View())
      modifies this
      ensures StateOk(View()) && (View(), installed) == Serve(fw, old(View()), reqs)
    {
      installed := [];
      for k := 0 to |reqs|
        invariant StateOk(View()) && (View(), installed) == Serve(fw, old(View()), reqs[..k])
      {
        var h := Handle(reqs[k]);
        installed := installed + [h];
        assert reqs[..k + 1][..k] == reqs[..k];
      }
      assert reqs[..|reqs|] == reqs;
    }
  }
}
