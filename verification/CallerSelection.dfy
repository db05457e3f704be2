/** Choosing caller addresses for forced dlopen: for each namespace an ordered list of path patterns,
and one pass over the modules that keeps the best match seen so far and may stop early. */
module CallerSelection {
  import opened CStrings
  import opened ModuleIteration
  import opened Words

  datatype Pattern = Prefix(value: CString) | Suffix(value: CString)

  /** `cursor` is the index of the matched pattern, or their number while there is none; address 0 is NULL. */
  datatype Caller = Caller(addr: nat, cursor: nat)

  ghost predicate MatchedBy(name: CString, pattern: Pattern) {
    match pattern
    case Prefix(value) => value <= name
    case Suffix(value) => IsSuffix(value, name)
  }

  /** The bytes of an ASCII string. */
  function Ascii(s: string): (bytes: CString)
    requires forall i :: 0 <= i < |s| ==> 0 < s[i] as int < 128
    ensures |bytes| == |s|
  {
    seq(|s|, i requires 0 <= i < |s| => (s[i] as int) as Byte)
  }

  /** Two of the patterns in use, a name each matches and one it does not. */
  lemma PatternSamples()
    ensures MatchedBy(Ascii("/apex/lib/libc.so"), Suffix(Ascii("/libc.so")))
    ensures !MatchedBy(Ascii("/apex/libc.so.1"), Suffix(Ascii("/libc.so")))
    ensures MatchedBy(Ascii("/odm/lib/x.so"), Prefix(Ascii("/odm/lib/")))
    ensures !MatchedBy(Ascii("/x/odm/lib/"), Prefix(Ascii("/odm/lib/")))
  {
    assert Ascii("/apex/lib/libc.so") == Ascii("/apex/lib") + Ascii("/libc.so");
    if IsSuffix(Ascii("/libc.so"), Ascii("/apex/libc.so.1")) {
      LastByte(Ascii("/libc.so"), Ascii("/apex/libc.so.1"));
    }
    assert Ascii("/x/odm/lib/")[1] != Ascii("/odm/lib/")[1];
  }

  lemma LastByte(ending: CString, s: CString)
    requires ending != [] && IsSuffix(ending, s)
    ensures s != [] && s[|s| - 1] == ending[|ending| - 1]
  {
  }

  method Matches(name: CString, pattern: Pattern) returns (r: bool)
    ensures r <==> MatchedBy(name, pattern)
  {
    match pattern
    case Prefix(value) => r := StartsWith(name, value);
    case Suffix(value) => r := EndsWith(name, value);
  }

  /** The address of the first PT_LOAD segment, wrapping; 0 when there is none. */
  function CallerAddr(modulus: nat, info: Info): nat
    requires modulus > 0
  {
    FirstLoad(modulus, info.addr, info.phdrs)
  }

  function FirstLoad(modulus: nat, bias: nat, phdrs: seq<Phdr>): nat
    requires modulus > 0
  {
    if phdrs == [] then 0
    else if phdrs[0].isLoad then (bias + phdrs[0].vaddr) % modulus
    else FirstLoad(modulus, bias, phdrs[1..])
  }

  /** The first segment to load decides; without one there is no address. */
  lemma {:induction false} FirstLoadIs(modulus: nat, bias: nat, phdrs: seq<Phdr>, i: nat)
    requires modulus > 0 && i <= |phdrs| && forall j :: 0 <= j < i ==> !phdrs[j].isLoad
    ensures i == |phdrs| ==> FirstLoad(modulus, bias, phdrs) == 0
    ensures i < |phdrs| && phdrs[i].isLoad ==> FirstLoad(modulus, bias, phdrs) == (bias + phdrs[i].vaddr) % modulus
    decreases i
  {
    if i > 0 {
      FirstLoadIs(modulus, bias, phdrs[1..], i - 1);
    }
  }

  /** Where nothing wraps, a caller's address is the start of its module's first PT_LOAD segment in memory. */
  lemma CallerAddrIs(modulus: nat, info: Info, i: nat)
    requires i < |info.phdrs| && info.phdrs[i].isLoad && forall j :: 0 <= j < i ==> !info.phdrs[j].isLoad
    requires info.addr + info.phdrs[i].vaddr < modulus
    ensures CallerAddr(modulus, info) == info.addr + info.phdrs[i].vaddr
  {
    FirstLoadIs(modulus, info.addr, info.phdrs, i);
    SmallModulo(info.addr + info.phdrs[i].vaddr, modulus);
  }

  method GetCallerAddr(modulus: nat, info: Info) returns (addr: nat)
    requires modulus > 0
    ensures addr == CallerAddr(modulus, info)
  {
    for i := 0 to |info.phdrs|
      invariant FirstLoad(modulus, info.addr, info.phdrs[i..]) == CallerAddr(modulus, info)
    {
      assert info.phdrs[i..][1..] == info.phdrs[i + 1..];
      if info.phdrs[i].isLoad {
        return (info.addr + info.phdrs[i].vaddr) % modulus;
      }
    }
    assert info.phdrs[|info.phdrs|..] == [];
    return 0;
  }

  /** A module that can serve as a caller: a load bias, a name, and a segment with an address. */
  predicate Usable(modulus: nat, info: Info)
    requires modulus > 0
  {
    info.addr != 0 && info.name.Some? && CallerAddr(modulus, info) != 0
  }

  /** Module `info` matches pattern `j`. */
  ghost predicate Reaches(modulus: nat, patterns: seq<Pattern>, info: Info, j: nat)
    requires modulus > 0 && j < |patterns|
  {
    Usable(modulus, info) && MatchedBy(info.name.value, patterns[j])
  }

  ghost predicate ReachesBelow(modulus: nat, patterns: seq<Pattern>, info: Info, bound: nat)
    requires modulus > 0 && bound <= |patterns|
  {
    exists j: nat :: j < bound && Reaches(modulus, patterns, info, j)
  }

  /** `after` is `before` moved to the first pattern below its cursor that the module matches, if any. */
  ghost predicate Improves(modulus: nat, patterns: seq<Pattern>, info: Info, before: Caller, after: Caller)
    requires modulus > 0 && before.cursor <= |patterns|
  {
    if ReachesBelow(modulus, patterns, info, before.cursor) then
      && after.cursor < before.cursor
      && Reaches(modulus, patterns, info, after.cursor)
      && !ReachesBelow(modulus, patterns, info, after.cursor)
      && after.addr == CallerAddr(modulus, info)
    else after == before
  }

  ghost predicate WithinPatterns(table: seq<seq<Pattern>>, callers: seq<Caller>) {
    |callers| == |table| && forall i :: 0 <= i < |callers| ==> callers[i].cursor <= |table[i]|
  }

  /** Nothing is left to improve: the value with which the callback stops the iteration. */
  predicate Complete(callers: seq<Caller>) {
    forall i :: 0 <= i < |callers| ==> callers[i].addr != 0 && callers[i].cursor == 0
  }

  ghost predicate ImprovesAll(modulus: nat, table: seq<seq<Pattern>>, info: Info, before: seq<Caller>,
                              after: seq<Caller>)
    requires modulus > 0 && WithinPatterns(table, before)
  {
    && WithinPatterns(table, after)
    && forall i :: 0 <= i < |table| ==> Improves(modulus, table[i], info, before[i], after[i])
  }

  /** The inner loop: it ends at the first match because the match lowers its bound. */
  method UpdateCaller(modulus: nat, patterns: seq<Pattern>, info: Info, before: Caller) returns (caller: Caller)
    requires modulus > 0 && info.addr != 0 && info.name.Some? && before.cursor <= |patterns|
    ensures Improves(modulus, patterns, info, before, caller)
  {
    caller := before;
    var j := 0;
    while j < caller.cursor
      invariant 0 <= j <= before.cursor
      invariant caller == before ==> !ReachesBelow(modulus, patterns, info, j)
      invariant caller != before ==> caller.cursor < j && Improves(modulus, patterns, info, before, caller)
    {
      var hit := Matches(info.name.value, patterns[j]);
      if hit {
        var addr := GetCallerAddr(modulus, info);
        if addr != 0 {
          assert Reaches(modulus, patterns, info, j);
          caller := Caller(addr, j);
        }
      }
      j := j + 1;
    }
  }

  /** xdl_linker_get_caller_addr_cb over the static table of callers. */
  method CallerCallback(modulus: nat, table: seq<seq<Pattern>>, info: Info, callers: array<Caller>) returns (ret: int)
    requires modulus > 0 && WithinPatterns(table, callers[..])
    modifies callers
    ensures WithinPatterns(table, callers[..])
    ensures ImprovesAll(modulus, table, info, old(callers[..]), callers[..])
    ensures ret == if info.addr != 0 && info.name.Some? && Complete(callers[..]) then 1 else 0
  {
    ghost var before := callers[..];
    if info.addr == 0 || info.name.None? {
      return 0;
    }
    ret := 1;
    for i := 0 to callers.Length
      invariant forall k :: i <= k < callers.Length ==> callers[k] == before[k]
      invariant forall k :: 0 <= k < i ==>
                  callers[k].cursor <= |table[k]| && Improves(modulus, table[k], info, before[k], callers[k])
      invariant ret == 1 || ret == 0
      invariant ret == 1 <==> Complete(callers[..i])
    {
      assert callers[i] == before[i];
      var caller := UpdateCaller(modulus, table[i], info, callers[i]);
      callers[i] := caller;
      if callers[i].addr == 0 || callers[i].cursor != 0 {
        ret := 0;
        assert !(callers[..i + 1][i].addr != 0 && callers[..i + 1][i].cursor == 0);
      } else {
        assert callers[..i + 1] == callers[..i] + [callers[i]];
      }
    }
    assert callers[..] == callers[..callers.Length];
  }

  // What the pass computes

  /** `caller` is the argmin over the modules: the least pattern any of them matches, and the address of
  the earliest one that matches it. */
  ghost predicate IsArgmin(modulus: nat, patterns: seq<Pattern>, infos: seq<Info>, caller: Caller)
    requires modulus > 0
  {
    && caller.cursor <= |patterns|
    && (forall m :: 0 <= m < |infos| ==> !ReachesBelow(modulus, patterns, infos[m], caller.cursor))
    && (if caller.cursor == |patterns| then caller.addr == 0
        else exists m :: 0 <= m < |infos| && IsEarliest(modulus, patterns, infos, caller, m))
  }

  ghost predicate IsEarliest(modulus: nat, patterns: seq<Pattern>, infos: seq<Info>, caller: Caller, m: nat)
    requires modulus > 0 && caller.cursor < |patterns| && m < |infos|
  {
    && Reaches(modulus, patterns, infos[m], caller.cursor)
    && caller.addr == CallerAddr(modulus, infos[m])
    && forall e :: 0 <= e < m ==> !Reaches(modulus, patterns, infos[e], caller.cursor)
  }

  ghost predicate AllArgmin(modulus: nat, table: seq<seq<Pattern>>, infos: seq<Info>, callers: seq<Caller>)
    requires modulus > 0
  {
    |callers| == |table| && forall i :: 0 <= i < |table| ==> IsArgmin(modulus, table[i], infos, callers[i])
  }

  lemma ArgminGrows(modulus: nat, patterns: seq<Pattern>, infos: seq<Info>, info: Info, before: Caller, after: Caller)
    requires modulus > 0 && IsArgmin(modulus, patterns, infos, before)
    requires Improves(modulus, patterns, info, before, after)
    ensures IsArgmin(modulus, patterns, infos + [info], after)
  {
    var more := infos + [info];
    if after != before {
      forall m | 0 <= m < |more| ensures !ReachesBelow(modulus, patterns, more[m], after.cursor) {
        if m < |infos| {
          assert !ReachesBelow(modulus, patterns, infos[m], before.cursor);
        }
      }
      forall e | 0 <= e < |infos| ensures !Reaches(modulus, patterns, more[e], after.cursor) {
        assert !ReachesBelow(modulus, patterns, infos[e], before.cursor);
      }
      assert IsEarliest(modulus, patterns, more, after, |infos|);
    } else if before.cursor < |patterns| {
      var m :| 0 <= m < |infos| && IsEarliest(modulus, patterns, infos, before, m);
      assert IsEarliest(modulus, patterns, more, after, m);
    }
  }

  lemma AllArgminGrows(modulus: nat, table: seq<seq<Pattern>>, infos: seq<Info>, info: Info, before: seq<Caller>,
                       after: seq<Caller>)
    requires modulus > 0 && AllArgmin(modulus, table, infos, before)
    requires WithinPatterns(table, before) && ImprovesAll(modulus, table, info, before, after)
    ensures AllArgmin(modulus, table, infos + [info], after)
  {
    forall i | 0 <= i < |table| ensures IsArgmin(modulus, table[i], infos + [info], after[i]) {
      ArgminGrows(modulus, table[i], infos, info, before[i], after[i]);
    }
  }

  lemma ArgminWithinPatterns(modulus: nat, table: seq<seq<Pattern>>, infos: seq<Info>, callers: seq<Caller>)
    requires modulus > 0 && AllArgmin(modulus, table, infos, callers)
    ensures WithinPatterns(table, callers)
  {
    forall i | 0 <= i < |table| ensures callers[i].cursor <= |table[i]| {
      assert IsArgmin(modulus, table[i], infos, callers[i]);
    }
  }

  /** Once nothing is left to improve, no module changes anything: stopping early loses nothing. */
  lemma CompleteIsFinal(modulus: nat, table: seq<seq<Pattern>>, infos: seq<Info>, rest: seq<Info>, callers: seq<Caller>)
    requires modulus > 0 && AllArgmin(modulus, table, infos, callers) && Complete(callers)
    ensures AllArgmin(modulus, table, infos + rest, callers)
  {
    var all := infos + rest;
    forall i | 0 <= i < |table| ensures IsArgmin(modulus, table[i], all, callers[i]) {
      assert IsArgmin(modulus, table[i], infos, callers[i]);
      if callers[i].cursor < |table[i]| {
        var m :| 0 <= m < |infos| && IsEarliest(modulus, table[i], infos, callers[i], m);
        assert all[m] == infos[m];
        assert forall e :: 0 <= e < m ==> all[e] == infos[e];
        assert IsEarliest(modulus, table[i], all, callers[i], m);
      }
    }
  }

  /** Some module matches the first pattern. */
  ghost predicate FirstIsMet(modulus: nat, patterns: seq<Pattern>, infos: seq<Info>)
    requires modulus > 0 && patterns != []
  {
    exists m :: 0 <= m < |infos| && Reaches(modulus, patterns, infos[m], 0)
  }

  /** The pass may stop when each caller has met its first pattern, and not before. */
  lemma CompleteWhenFirstMet(modulus: nat, table: seq<seq<Pattern>>, infos: seq<Info>, callers: seq<Caller>)
    requires modulus > 0 && AllArgmin(modulus, table, infos, callers)
    requires forall i :: 0 <= i < |table| ==> table[i] != []
    ensures Complete(callers) <==> forall i :: 0 <= i < |table| ==> FirstIsMet(modulus, table[i], infos)
  {
    forall i | 0 <= i < |table|
      ensures (callers[i].addr != 0 && callers[i].cursor == 0) <==> FirstIsMet(modulus, table[i], infos)
    {
      FirstMet(modulus, table[i], infos, callers[i]);
    }
  }

  lemma FirstMet(modulus: nat, patterns: seq<Pattern>, infos: seq<Info>, caller: Caller)
    requires modulus > 0 && patterns != [] && IsArgmin(modulus, patterns, infos, caller)
    ensures (caller.addr != 0 && caller.cursor == 0) <==> FirstIsMet(modulus, patterns, infos)
  {
    if caller.cursor == 0 {
      var m :| 0 <= m < |infos| && IsEarliest(modulus, patterns, infos, caller, m);
      assert Reaches(modulus, patterns, infos[m], 0) && caller.addr != 0;
    } else {
      forall m | 0 <= m < |infos| ensures !Reaches(modulus, patterns, infos[m], 0) {
        assert !ReachesBelow(modulus, patterns, infos[m], caller.cursor);
        assert !(0 < caller.cursor && Reaches(modulus, patterns, infos[m], 0));
      }
    }
  }

  /** One module of the pass. */
  method Visit(modulus: nat, table: seq<seq<Pattern>>, ghost infos: seq<Info>, info: Info, callers: array<Caller>)
    returns (ret: int)
    requires modulus > 0 && AllArgmin(modulus, table, infos, callers[..])
    modifies callers
    ensures AllArgmin(modulus, table, infos + [info], callers[..])
    ensures ret != 0 ==> Complete(callers[..])
  {
    ghost var before := callers[..];
    ArgminWithinPatterns(modulus, table, infos, before);
    ret := CallerCallback(modulus, table, info, callers);
    AllArgminGrows(modulus, table, infos, info, before, callers[..]);
  }

  lemma InitialArgmin(modulus: nat, table: seq<seq<Pattern>>, callers: seq<Caller>)
    requires modulus > 0 && |callers| == |table|
    requires forall i :: 0 <= i < |table| ==> callers[i] == Caller(0, |table[i]|)
    ensures AllArgmin(modulus, table, [], callers)
  {
  }

  lemma VisitedOneMore(modulus: nat, table: seq<seq<Pattern>>, infos: seq<Info>, k: nat, callers: seq<Caller>)
    requires modulus > 0 && k < |infos| && AllArgmin(modulus, table, infos[..k] + [infos[k]], callers)
    ensures AllArgmin(modulus, table, infos[..k + 1], callers)
    ensures Complete(callers) ==> AllArgmin(modulus, table, infos, callers)
  {
    assert infos[..k + 1] == infos[..k] + [infos[k]];
    if Complete(callers) {
      CompleteIsFinal(modulus, table, infos[..k + 1], infos[k + 1..], callers);
      assert infos[..k + 1] + infos[k + 1..] == infos;
    }
  }

  /** The pass over the given modules, ended by the callback's first non-zero return. */
  method Pass(modulus: nat, table: seq<seq<Pattern>>, infos: seq<Info>, callers: array<Caller>)
    requires modulus > 0 && AllArgmin(modulus, table, [], callers[..])
    modifies callers
    ensures AllArgmin(modulus, table, infos, callers[..])
  {
    for k := 0 to |infos|
      invariant AllArgmin(modulus, table, infos[..k], callers[..])
    {
      var ret := Visit(modulus, table, infos[..k], infos[k], callers);
      VisitedOneMore(modulus, table, infos, k, callers[..]);
      if ret != 0 {
        return;
      }
    }
    assert infos[..|infos|] == infos;
  }

  /** The whole pass: whatever modules are loaded, and wherever it stops, each caller ends up as the
  argmin over all delivered modules. */
  method InitCallerAddr(p: Process, table: seq<seq<Pattern>>, callers: array<Caller>)
    requires ProcessOk(p) && callers.Length == |table|
    requires forall i :: 0 <= i < |table| ==> callers[i] == Caller(0, |table[i]|)
    modifies callers
    ensures AllArgmin(p.Modulus(), table, Delivered(p), callers[..])
  {
    InitialArgmin(p.Modulus(), table, callers[..]);
    Pass(p.Modulus(), table, Delivered(p), callers);
  }

  /** The argmin is one table: a pass that stops early and a pass that visits every module agree. */
  lemma ArgminIsUnique(modulus: nat, patterns: seq<Pattern>, infos: seq<Info>, a: Caller, b: Caller)
    requires modulus > 0
    requires IsArgmin(modulus, patterns, infos, a) && IsArgmin(modulus, patterns, infos, b)
    ensures a == b
  {
    if a.cursor < |patterns| {
      var m :| 0 <= m < |infos| && IsEarliest(modulus, patterns, infos, a, m);
      assert !ReachesBelow(modulus, patterns, infos[m], b.cursor);
    }
    if b.cursor < |patterns| {
      var n :| 0 <= n < |infos| && IsEarliest(modulus, patterns, infos, b, n);
      assert !ReachesBelow(modulus, patterns, infos[n], a.cursor);
      if a.cursor < |patterns| {
        var m :| 0 <= m < |infos| && IsEarliest(modulus, patterns, infos, a, m);
        assert m == n;
      }
    }
  }
}
