/** Reloading a module that asks for what it was loaded with: every old handle is taken over. */
module ReloadAgain {
  import opened HookIdentifier
  import opened HotReload
  import opened MapBags
  import opened Sequences

  /** The same hooks asked for again, with new callbacks and new random parts. */
  predicate SameRequests(a: seq<Request>, b: seq<Request>) {
    |a| == |b| && forall k :: 0 <= k < |a| ==> SameRequest(a[k], b[k])
  }

  predicate SameRequest(a: Request, b: Request) {
    a.Hook? && b.Hook? && a.member == b.member && a.hookType == b.hookType && a.priority == b.priority
  }

  predicate IsFor(fw: Framework, hook: FrameworkHook, r: Request) {
    r.Hook? && hook.executable == r.member && Answers(fw, hook, r)
  }

  /** Every request to come has an old handle of its own that answers it, and no other handle is left. */
  ghost predicate Paired(fw: Framework, s: State, reqs: seq<Request>, pairs: seq<nat>) {
    && s.hot && |pairs| == |reqs| && NoDuplicates(pairs)
    && (forall h :: IsLeft(s, h) <==> h in pairs)
    && (forall k :: 0 <= k < |pairs| ==> pairs[k] in s.live && IsFor(fw, s.live[pairs[k]], reqs[k]))
  }

  lemma TakesOverSome(fw: Framework, s: State, r: Request, h: nat)
    requires StateOk(s) && s.hot && IsLeft(s, h) && IsFor(fw, s.live[h], r)
    ensures TookOver(fw, s, r, Do(fw, s, r).0, Do(fw, s, r).1) && Do(fw, s, r).0.next == s.next
    ensures IsFor(fw, s.live[Do(fw, s, r).1], r)
  {
    DoFacts(fw, s, r);
    var prior := s.previous[r.member];
    assert ListOk(s, r.member);
    var j :| 0 <= j < |prior| && prior[j] == h;
    var k := FirstFit(s.live, prior, IdentifierOf(fw, r));
    assert k < |prior|;
  }

  /** Whichever handle a request takes, the others can be paired up again. */
  lemma PairUpAgain(fw: Framework, s: State, reqs: seq<Request>, pairs: seq<nat>) returns (rest: seq<nat>)
    requires StateOk(s) && reqs != [] && Paired(fw, s, reqs, pairs)
    ensures Paired(fw, Do(fw, s, reqs[0]).0, reqs[1..], rest)
    ensures Do(fw, s, reqs[0]).0.next == s.next && Do(fw, s, reqs[0]).0.live.Keys == s.live.Keys
  {
    var r := reqs[0];
    assert IsLeft(s, pairs[0]);
    TakesOverSome(fw, s, r, pairs[0]);
    DoFacts(fw, s, r);
    var (s', h) := Do(fw, s, r);
    var j :| 0 <= j < |pairs| && pairs[j] == h;
    rest := Others(pairs, j);
    RestPaired(fw, s, s', reqs, pairs, rest, j);
  }

  /** All pairs but `j`, with the first one in its place. */
  function Others(pairs: seq<nat>, j: nat): seq<nat>
    requires j < |pairs|
  {
    if j == 0 then pairs[1..] else pairs[1..][j - 1 := pairs[0]]
  }

  lemma RestPaired(fw: Framework, s: State, s': State, reqs: seq<Request>, pairs: seq<nat>, rest: seq<nat>, j: nat)
    requires reqs != [] && Paired(fw, s, reqs, pairs) && j < |pairs| && s'.hot
    requires rest == Others(pairs, j)
    requires forall g :: IsLeft(s', g) <==> IsLeft(s, g) && g != pairs[j]
    requires TookOver(fw, s, reqs[0], s', pairs[j]) && IsFor(fw, s.live[pairs[j]], reqs[0])
    ensures Paired(fw, s', reqs[1..], rest)
  {
    forall k | 0 <= k < |rest| ensures rest[k] in s'.live && IsFor(fw, s'.live[rest[k]], reqs[1..][k]) {
      assert rest[k] == if j > 0 && k == j - 1 then pairs[0] else pairs[k + 1];
    }
    RestHas(pairs, rest, j);
  }

  lemma RestHas(pairs: seq<nat>, rest: seq<nat>, j: nat)
    requires NoDuplicates(pairs) && j < |pairs|
    requires rest == Others(pairs, j)
    ensures NoDuplicates(rest) && forall g :: g in rest <==> g in pairs && g != pairs[j]
  {
    forall g | g in pairs && g != pairs[j] ensures g in rest {
      var k :| 0 <= k < |pairs| && pairs[k] == g;
      assert if k == 0 then rest[j - 1] == g else rest[k - 1] == g;
    }
    forall g | g in rest ensures g in pairs && g != pairs[j] {
      var k :| 0 <= k < |rest| && rest[k] == g;
      assert rest[k] == if j > 0 && k == j - 1 then pairs[0] else pairs[k + 1];
    }
  }

  lemma {:induction false} StaysPaired(fw: Framework, s: State, reqs: seq<Request>, pairs: seq<nat>, n: nat)
    returns (rest: seq<nat>)
    requires StateOk(s) && Paired(fw, s, reqs, pairs) && n <= |reqs|
    ensures Paired(fw, Serve(fw, s, reqs[..n]).0, reqs[n..], rest)
    ensures Serve(fw, s, reqs[..n]).0.next == s.next && Serve(fw, s, reqs[..n]).0.live.Keys == s.live.Keys
  {
    if n == 0 {
      rest := pairs;
      assert reqs[0..] == reqs && reqs[..0] == [];
    } else {
      var front := StaysPaired(fw, s, reqs, pairs, n - 1);
      var mid := Serve(fw, s, reqs[..n - 1]).0;
      assert reqs[n - 1..][0] == reqs[n - 1] && reqs[n - 1..][1..] == reqs[n..];
      rest := PairUpAgain(fw, mid, reqs[n - 1..], front);
      assert reqs[..n][..n - 1] == reqs[..n - 1];
    }
  }

  /** Handle `h` carries the h-th request, installed afresh. */
  ghost predicate IsLoadOf(fw: Framework, reqs: seq<Request>, live: map<nat, FrameworkHook>) {
    && (forall h :: h in live <==> 0 <= h < |reqs|)
    && (forall h :: 0 <= h < |reqs| ==> h in live && live[h] == FreshHook(fw, reqs[h]))
  }

  lemma {:induction false} LoadInstalls(fw: Framework, reqs: seq<Request>)
    ensures var s := Serve(fw, EMPTY, reqs).0;
            !s.hot && s.next == |reqs| && s.previous == map[] && IsLoadOf(fw, reqs, s.live)
  {
    if reqs != [] {
      LoadInstalls(fw, reqs[..|reqs| - 1]);
    }
  }

  /** A load of `reqs`, and the handles as the framework lists them afterwards. */
  ghost predicate Loaded(fw: Framework, reqs: seq<Request>, s: State, handles: seq<nat>) {
    && s == Serve(fw, EMPTY, reqs).0
    && Lists(handles, s.live) && forall h :: h in s.live ==> h < s.next
  }

  lemma LoadNumbers(fw: Framework, reqs: seq<Request>, handles: seq<nat>)
    requires Lists(handles, Serve(fw, EMPTY, reqs).0.live)
    ensures Loaded(fw, reqs, Serve(fw, EMPTY, reqs).0, handles)
  {
    LoadInstalls(fw, reqs);
  }

  lemma BeginsPaired(fw: Framework, reqs: seq<Request>, again: seq<Request>, s: State, handles: seq<nat>)
    returns (pairs: seq<nat>)
    requires fw.apiVersion >= 102 && RequestsOk(reqs) && SameRequests(reqs, again)
    requires Loaded(fw, reqs, s, handles)
    ensures StateOk(Begin(s, handles)) && Paired(fw, Begin(s, handles), again, pairs)
  {
    BeginFacts(s, handles);
    pairs := UpTo(|reqs|);
    LoadInstalls(fw, reqs);
    InitiallyPaired(fw, s.live, Begin(s, handles), reqs, again, pairs);
  }

  /** From version 102 on, a reload of a module that asks for the same hooks as it was loaded with takes over
  every old handle, once each, and neither installs nor unhooks any. */
  lemma SameModuleReplacesAll(fw: Framework, reqs: seq<Request>, again: seq<Request>, s: State, handles: seq<nat>)
    requires fw.apiVersion >= 102 && RequestsOk(reqs) && SameRequests(reqs, again)
    requires s == Serve(fw, EMPTY, reqs).0 && Lists(handles, s.live)
    ensures Loaded(fw, reqs, s, handles)
    ensures var end := Reload(fw, s, handles, again).0;
            && end.live.Keys == s.live.Keys && end.next == s.next
            && NoDuplicates(end.replaced) && forall h :: h in s.live <==> h in end.replaced
  {
    LoadNumbers(fw, reqs, handles);
    var b := Begin(s, handles);
    var pairs := BeginsPaired(fw, reqs, again, s, handles);
    var rest := StaysPaired(fw, b, again, pairs, |again|);
    assert again[..|again|] == again && again[|again|..] == [];
    BeginFacts(s, handles);
    ServeAccounts(fw, s.live, b, again);
    NoneLeft(fw, s, b, again, rest);
  }

  function UpTo(n: nat): (s: seq<nat>)
    ensures |s| == n && forall k :: 0 <= k < n ==> s[k] == k
  {
    seq(n, k => k)
  }

  lemma InitiallyPaired(fw: Framework, live: map<nat, FrameworkHook>, b: State, reqs: seq<Request>,
                        again: seq<Request>, pairs: seq<nat>)
    requires fw.apiVersion >= 102 && RequestsOk(reqs) && SameRequests(reqs, again)
    requires pairs == UpTo(|reqs|) && b.hot && b.live == live && IsLoadOf(fw, reqs, live)
    requires forall h :: h in live <==> IsLeft(b, h)
    ensures Paired(fw, b, again, pairs)
  {
    forall k | 0 <= k < |pairs| ensures pairs[k] in b.live && IsFor(fw, b.live[pairs[k]], again[k]) {
      assert SameRequest(reqs[k], again[k]);
      FreshHookIs(fw, reqs[k]);
    }
    forall h: nat ensures IsLeft(b, h) <==> h in pairs {
      if 0 <= h < |reqs| {
        assert pairs[h] == h;
      }
    }
  }

  lemma NoneLeft(fw: Framework, s: State, b: State, again: seq<Request>, rest: seq<nat>)
    requires StateOk(b) && rest == [] && Paired(fw, Serve(fw, b, again).0, [], rest)
    requires Accounted(s.live, Serve(fw, b, again).0, Serve(fw, b, again).1)
    ensures var mid := Serve(fw, b, again).0;
            && End(mid).live == mid.live && NoDuplicates(mid.replaced)
            && forall h :: h in s.live <==> h in mid.replaced
  {
    var mid := Serve(fw, b, again).0;
    assert forall h :: !IsLeft(mid, h);
  }
}
