/** Finding methods up the superclass chain: overridden declarations are left out. */
module MethodSearch {
  import opened Descriptor
  import opened Text
  import opened Wrappers

  datatype Method = Method(cls: string, name: string, params: seq<Type>, ret: Type)

  /** A class with its declared methods; `lookup` is getDeclaredMethod, which is not part of this model. */
  datatype ClassInfo = ClassInfo(name: string, declared: seq<Method>, lookup: (string, seq<Type>) -> Option<Method>)

  predicate SameSignature(a: Method, b: Method) {
    a.name == b.name && a.params == b.params
  }

  /** getDeclaredMethod returns a declared method with the name and parameters, if there is one. */
  ghost predicate LookupOk(c: ClassInfo) {
    forall name: string, params: seq<Type> ::
      match c.lookup(name, params)
      case Some(m) => m in c.declared && m.name == name && m.params == params
      case None => forall m :: m in c.declared ==> !(m.name == name && m.params == params)
  }

  /** Names Java source can give a method. */
  predicate JavaMethodName(name: string) {
    name != [] && Lacks(name, '(') && Lacks(name, ')') && Lacks(name, '*') && Lacks(name, ',')
  }

  predicate JavaMethod(m: Method) {
    JavaMethodName(m.name) && JavaTypes(m.params)
  }

  predicate JavaMethods(ms: seq<Method>) {
    forall k :: 0 <= k < |ms| ==> JavaMethod(ms[k])
  }

  /** The class itself first, its root last; each class by its own name. */
  ghost predicate ChainOk(chain: seq<ClassInfo>) {
    && chain != []
    && (forall i :: 0 <= i < |chain| ==> LookupOk(chain[i]))
    && (forall i, m :: 0 <= i < |chain| && m in chain[i].declared ==> m.cls == chain[i].name)
    && (forall i, j :: 0 <= i < j < |chain| ==> chain[i].name != chain[j].name)
  }

  // Signatures as strings

  function Names(ts: seq<Type>): (names: seq<string>)
    ensures |names| == |ts|
  {
    seq(|ts|, k requires 0 <= k < |ts| => NameOf(ts[k]))
  }

  /** The string that the search keeps of a method it has taken. */
  function Signature(m: Method): string {
    m.name + ("(" + (Join(Names(m.params), ',') + ")"))
  }

  predicate IsPunctuation(c: char) {
    c == ',' || c == '(' || c == ')' || c == '*'
  }

  /** No class in the type has the character in its name. */
  predicate TypeLacks(t: Type, c: char) {
    match t
    case Primitive(_) => true
    case ArrayOf(component) => TypeLacks(component, c)
    case Class(name) => Lacks(name, c)
  }

  lemma {:induction false} JavaTypeLacks(t: Type, c: char)
    requires JavaType(t) && IsPunctuation(c)
    ensures TypeLacks(t, c)
  {
    if t.ArrayOf? {
      JavaTypeLacks(t.component, c);
    }
  }

  lemma {:induction false} EncodedLacks(t: Type, c: char)
    requires TypeLacks(t, c) && IsPunctuation(c)
    ensures Lacks(Encode(t, '.'), c)
    decreases t
  {
    match t
    case Primitive(k) =>
    case ArrayOf(component) =>
      EncodedLacks(component, c);
    case Class(name) =>
      forall i | 0 <= i < |name| ensures Replace(name, '.', '.')[i] != c {
        assert name[i] in name;
      }
  }

  lemma NameLacks(t: Type, c: char)
    requires TypeLacks(t, c) && IsPunctuation(c)
    ensures Lacks(NameOf(t), c)
  {
    if t.ArrayOf? {
      EncodedLacks(t, c);
    }
  }

  lemma NamesLack(ts: seq<Type>, c: char)
    requires TypesOk(ts) && IsPunctuation(c) && forall k :: 0 <= k < |ts| ==> TypeLacks(ts[k], c)
    ensures AllLack(Names(ts), c)
  {
    forall k | 0 <= k < |ts| ensures Lacks(Names(ts)[k], c) {
      NameLacks(ts[k], c);
    }
  }

  lemma NamesNotEmpty(ts: seq<Type>)
    requires TypesOk(ts)
    ensures forall k :: 0 <= k < |ts| ==> Names(ts)[k] != []
  {
    forall k | 0 <= k < |ts| ensures Names(ts)[k] != [] {
      NameStart(ts[k]);
    }
  }

  lemma JavaTypesAre(ts: seq<Type>)
    requires JavaTypes(ts)
    ensures TypesOk(ts)
    ensures forall k, c :: 0 <= k < |ts| && IsPunctuation(c) ==> TypeLacks(ts[k], c)
  {
    forall k | 0 <= k < |ts| ensures TypeOk(ts[k]) && forall c :: IsPunctuation(c) ==> TypeLacks(ts[k], c) {
      JavaTypeIsOk(ts[k]);
      forall c | IsPunctuation(c) ensures TypeLacks(ts[k], c) {
        JavaTypeLacks(ts[k], c);
      }
    }
  }

  lemma NamesAreInjective(a: seq<Type>, b: seq<Type>)
    requires JavaTypes(a) && JavaTypes(b) && Names(a) == Names(b)
    ensures a == b
  {
    assert |a| == |Names(a)| == |b|;
    forall k | 0 <= k < |a| ensures a[k] == b[k] {
      assert Names(a)[k] == Names(b)[k];
      NameIsInjective(a[k], b[k]);
    }
  }

  /** Method names without an opening parenthesis. */
  predicate PlainName(name: string) {
    name != [] && Lacks(name, '(')
  }

  lemma NamedListsAgree(n: string, x: string, n': string, x': string)
    requires Lacks(n, '(') && Lacks(n', '(')
    ensures n + ("(" + (x + ")")) == n' + ("(" + (x' + ")")) <==> n == n' && x == x'
  {
    if n + ("(" + (x + ")")) == n' + ("(" + (x' + ")")) {
      assert n + ("(" + (x + ")")) == n + ['('] + (x + ")");
      assert n' + ("(" + (x' + ")")) == n' + ['('] + (x' + ")");
      HeadIsDetermined(n, x + ")", n', x' + ")", '(');
      assert x == (x + ")")[..|x + ")"| - 1] && x' == (x' + ")")[..|x' + ")"| - 1];
    }
  }

  /** Exactly which signatures are one string, for all class names a class file can hold: those with the
  same method name whose type names fall into the same parts at commas. */
  lemma SignaturesAgree(n: string, ps: seq<Type>, n': string, ps': seq<Type>)
    requires PlainName(n) && PlainName(n') && TypesOk(ps) && TypesOk(ps')
    ensures n + ("(" + (Join(Names(ps), ',') + ")")) == n' + ("(" + (Join(Names(ps'), ',') + ")"))
            <==> n == n' && Cut(Names(ps), ',') == Cut(Names(ps'), ',')
  {
    NamesNotEmpty(ps);
    NamesNotEmpty(ps');
    JoinsAgree(Names(ps), Names(ps'), ',');
    NamedListsAgree(n, Join(Names(ps), ','), n', Join(Names(ps'), ','));
  }

  predicate NoCommas(ts: seq<Type>) {
    TypesOk(ts) && forall k :: 0 <= k < |ts| ==> TypeLacks(ts[k], ',')
  }

  /** A method as Android admits it: no comma in a class name, no opening parenthesis in the method's. */
  predicate DexMethod(m: Method) {
    PlainName(m.name) && NoCommas(m.params)
  }

  /** Exactly which methods that Android admits have one signature string: besides those with the same name
  and parameter types, those in which a class called like a primitive stands for it. */
  lemma OneStringExactly(a: Method, b: Method)
    requires DexMethod(a) && DexMethod(b)
    ensures Signature(a) == Signature(b) <==> a.name == b.name && Alike(a.params, b.params)
  {
    NamesNotEmpty(a.params);
    NamesNotEmpty(b.params);
    NamesLack(a.params, ',');
    NamesLack(b.params, ',');
    NamedListsAgree(a.name, Join(Names(a.params), ','), b.name, Join(Names(b.params), ','));
    if Join(Names(a.params), ',') == Join(Names(b.params), ',') {
      JoinIsInjective(Names(a.params), Names(b.params), ',');
    }
    NamesAsLists(a.params, b.params);
    SameNamesAreAlike(a.params, b.params);
  }

  lemma NamesAsLists(ts: seq<Type>, us: seq<Type>)
    ensures Names(ts) == Names(us) <==> SameNames(ts, us)
  {
    if Names(ts) == Names(us) {
      assert |ts| == |Names(ts)| == |us|;
      forall k | 0 <= k < |ts| ensures NameOf(ts[k]) == NameOf(us[k]) {
        assert Names(ts)[k] == Names(us)[k];
      }
    }
  }

  lemma SignatureIsInjective(a: Method, b: Method)
    requires JavaMethod(a) && JavaMethod(b)
    ensures Signature(a) == Signature(b) <==> SameSignature(a, b)
  {
    JavaTypesAre(a.params);
    JavaTypesAre(b.params);
    assert IsPunctuation(',');
    OneStringExactly(a, b);
    if Alike(a.params, b.params) {
      forall k | 0 <= k < |a.params| ensures a.params[k] == b.params[k] {
        NotLookalikes(a.params[k], b.params[k]);
      }
    }
  }

  // What is searched for

  /** By name, or by parameter types where None stands for any. */
  datatype Query = ByName(name: string) | ByParams(params: seq<Option<Type>>)

  /** contentEqualsWithoutNull. */
  predicate ParamsFit(wanted: seq<Option<Type>>, params: seq<Type>) {
    |wanted| == |params| && forall i :: 0 <= i < |wanted| ==> wanted[i].None? || wanted[i].value == params[i]
  }

  predicate Matches(q: Query, m: Method) {
    match q
    case ByName(name) => m.name == name
    case ByParams(params) => ParamsFit(params, m.params)
  }

  /** Every declaration on the chain, subclass first. */
  function Declarations(chain: seq<ClassInfo>): seq<Method> {
    if chain == [] then [] else chain[0].declared + Declarations(chain[1..])
  }

  /** How methods are told apart: by the string the search keeps of them, or by name and parameter types. */
  datatype How = Strings | Signatures

  predicate Same(how: How, a: Method, b: Method) {
    match how
    case Strings => Signature(a) == Signature(b)
    case Signatures => SameSignature(a, b)
  }

  /** Declaration `i` matches, and no earlier match is the same. */
  predicate IsFirstMatch(how: How, ms: seq<Method>, q: Query, i: nat)
    requires i < |ms|
  {
    Matches(q, ms[i]) && forall j :: 0 <= j < i && Matches(q, ms[j]) ==> !Same(how, ms[j], ms[i])
  }

  /** The first match of every kind, in order. */
  function FirstMatches(how: How, ms: seq<Method>, q: Query, n: nat): seq<Method>
    requires n <= |ms|
  {
    if n == 0 then []
    else FirstMatches(how, ms, q, n - 1) + if IsFirstMatch(how, ms, q, n - 1) then [ms[n - 1]] else []
  }

  /** The signatures of the first `n` declarations that match. */
  ghost predicate Seen(ms: seq<Method>, q: Query, n: nat, signatures: set<string>)
    requires n <= |ms|
  {
    forall s :: s in signatures <==> exists i :: 0 <= i < n && Matches(q, ms[i]) && s == Signature(ms[i])
  }

  /** Where the search stands after the first `n` declarations. */
  ghost predicate Filtered(ms: seq<Method>, q: Query, n: nat, signatures: set<string>, found: seq<Method>)
    requires n <= |ms|
  {
    Seen(ms, q, n, signatures) && found == FirstMatches(Strings, ms, q, n)
  }

  /** Whether the filter takes a declaration: the signature is only added when it matches. */
  predicate Takes(q: Query, m: Method, signatures: set<string>) {
    Matches(q, m) && Signature(m) !in signatures
  }

  lemma FilterOne(ms: seq<Method>, q: Query, n: nat, signatures: set<string>, found: seq<Method>)
    requires n < |ms| && Filtered(ms, q, n, signatures, found)
    ensures if Takes(q, ms[n], signatures)
            then Filtered(ms, q, n + 1, signatures + {Signature(ms[n])}, found + [ms[n]])
            else Filtered(ms, q, n + 1, signatures, found)
  {
    SeenTells(ms, q, n, signatures);
    SeenGrows(ms, q, n, signatures);
  }

  /** The filter's condition on one declaration, with its side effect on the set. */
  method Filter(ghost ms: seq<Method>, q: Query, ghost n: nat, m: Method, signatures: set<string>, found: seq<Method>)
    returns (signatures': set<string>, found': seq<Method>)
    requires n < |ms| && m == ms[n] && Filtered(ms, q, n, signatures, found)
    ensures Filtered(ms, q, n + 1, signatures', found')
  {
    FilterOne(ms, q, n, signatures, found);
    signatures', found' := signatures, found;
    if Takes(q, m, signatures) {
      signatures', found' := signatures + {Signature(m)}, found + [m];
    }
  }

  /** The filter over one class, whose declarations are those from `n` on. */
  method FilterClass(ghost ms: seq<Method>, q: Query, ghost n: nat, declared: seq<Method>, before: set<string>,
                     found: seq<Method>)
    returns (signatures: set<string>, more: seq<Method>)
    requires n + |declared| <= |ms|
    requires forall k :: 0 <= k < |declared| ==> declared[k] == ms[n + k]
    requires Filtered(ms, q, n, before, found)
    ensures Filtered(ms, q, n + |declared|, signatures, more)
  {
    signatures, more := before, found;
    for k := 0 to |declared|
      invariant Filtered(ms, q, n + k, signatures, more)
    {
      signatures, more := Filter(ms, q, n + k, declared[k], signatures, more);
    }
  }

  lemma SeenTells(ms: seq<Method>, q: Query, n: nat, signatures: set<string>)
    requires n < |ms| && Seen(ms, q, n, signatures)
    ensures IsFirstMatch(Strings, ms, q, n) <==> Takes(q, ms[n], signatures)
  {
  }

  lemma SeenGrows(ms: seq<Method>, q: Query, n: nat, signatures: set<string>)
    requires n < |ms| && Seen(ms, q, n, signatures)
    ensures Seen(ms, q, n + 1, if Matches(q, ms[n]) then signatures + {Signature(ms[n])} else signatures)
  {
  }

  /** Where the walk stands before class `i`: `n` declarations are behind it. */
  ghost predicate Walked(chain: seq<ClassInfo>, q: Query, i: nat, n: nat, signatures: set<string>, found: seq<Method>) {
    var ms := Declarations(chain);
    && i <= |chain| && n <= |ms| && ms[n..] == Declarations(chain[i..])
    && Filtered(ms, q, n, signatures, found)
  }

  method WalkClass(chain: seq<ClassInfo>, q: Query, i: nat, ghost n: nat, before: set<string>, found: seq<Method>)
    returns (signatures: set<string>, more: seq<Method>)
    requires i < |chain| && Walked(chain, q, i, n, before, found)
    ensures Walked(chain, q, i + 1, n + |chain[i].declared|, signatures, more)
  {
    ghost var ms := Declarations(chain);
    assert chain[i..][1..] == chain[i + 1..];
    DeclaredHere(ms, n, chain[i].declared, Declarations(chain[i + 1..]));
    signatures, more := FilterClass(ms, q, n, chain[i].declared, before, found);
  }

  /** methods(name) and methods(paramTypes): the walk up the chain keeps the first match of every string. */
  method Methods(chain: seq<ClassInfo>, q: Query) returns (r: seq<Method>)
    ensures r == FirstMatches(Strings, Declarations(chain), q, |Declarations(chain)|)
  {
    var signatures: set<string> := {};
    r := [];
    ghost var n: nat := 0;
    for i := 0 to |chain|
      invariant Walked(chain, q, i, n, signatures, r)
    {
      signatures, r := WalkClass(chain, q, i, n, signatures, r);
      n := n + |chain[i].declared|;
    }
    assert Declarations(chain[|chain|..]) == [];
  }

  lemma DeclaredHere(ms: seq<Method>, n: nat, declared: seq<Method>, rest: seq<Method>)
    requires n <= |ms| && ms[n..] == declared + rest
    ensures n + |declared| <= |ms| && ms[n + |declared|..] == rest
    ensures forall k :: 0 <= k < |declared| ==> declared[k] == ms[n + k]
  {
    assert forall k :: 0 <= k < |declared| ==> ms[n..][k] == ms[n + k];
    assert ms[n + |declared|..] == ms[n..][|declared|..];
  }

  // Override elimination

  lemma {:induction false} FirstMatchesAre(how: How, ms: seq<Method>, q: Query, n: nat)
    requires n <= |ms|
    ensures forall m ::
              m in FirstMatches(how, ms, q, n) <==> exists i: nat :: i < n && IsFirstMatch(how, ms, q, i) && m == ms[i]
    ensures forall j, k :: 0 <= j < k < |FirstMatches(how, ms, q, n)| ==>
        !Same(how, FirstMatches(how, ms, q, n)[j], FirstMatches(how, ms, q, n)[k])
  {
    if n > 0 {
      FirstMatchesAre(how, ms, q, n - 1);
      var front := FirstMatches(how, ms, q, n - 1);
      if IsFirstMatch(how, ms, q, n - 1) {
        forall j | 0 <= j < |front| ensures !Same(how, front[j], ms[n - 1]) {
          assert front[j] in front;
        }
      }
    }
  }

  /** Every match has a first match of its signature at or before it. */
  lemma {:induction false} FirstOfSignature(how: How, ms: seq<Method>, q: Query, i: nat) returns (f: nat)
    requires i < |ms| && Matches(q, ms[i])
    ensures f <= i && IsFirstMatch(how, ms, q, f) && Same(how, ms[f], ms[i])
    decreases i
  {
    f := i;
    if !IsFirstMatch(how, ms, q, i) {
      var j :| 0 <= j < i && Matches(q, ms[j]) && Same(how, ms[j], ms[i]);
      f := FirstOfSignature(how, ms, q, j);
    }
  }

  lemma FoundAreMatches(how: How, ms: seq<Method>, q: Query)
    ensures forall m :: m in FirstMatches(how, ms, q, |ms|) ==> m in ms && Matches(q, m)
  {
    FirstMatchesAre(how, ms, q, |ms|);
  }

  lemma IsFound(how: How, ms: seq<Method>, q: Query, f: nat) returns (k: nat)
    requires f < |ms| && IsFirstMatch(how, ms, q, f)
    ensures k < |FirstMatches(how, ms, q, |ms|)| && FirstMatches(how, ms, q, |ms|)[k] == ms[f]
  {
    FirstMatchesAre(how, ms, q, |ms|);
    assert ms[f] in FirstMatches(how, ms, q, |ms|);
    k :| 0 <= k < |FirstMatches(how, ms, q, |ms|)| && FirstMatches(how, ms, q, |ms|)[k] == ms[f];
  }

  /** The result of a search holds only matches, and for each signature that matches anywhere on the chain
  exactly one method, the first from the subclass up. */
  lemma OverridesEliminated(how: How, chain: seq<ClassInfo>, q: Query, i: nat) returns (k: nat, f: nat)
    requires i < |Declarations(chain)| && Matches(q, Declarations(chain)[i])
    ensures var ms := Declarations(chain);
            var r := FirstMatches(how, ms, q, |ms|);
            && k < |r| && f <= i && r[k] == ms[f] && Same(how, ms[f], ms[i]) && IsFirstMatch(how, ms, q, f)
            && (forall j :: 0 <= j < |r| && Same(how, r[j], ms[i]) ==> j == k)
            && (forall m :: m in r ==> m in ms && Matches(q, m))
  {
    var ms := Declarations(chain);
    var r := FirstMatches(how, ms, q, |ms|);
    f := FirstOfSignature(how, ms, q, i);
    k := IsFound(how, ms, q, f);
    FoundAreMatches(how, ms, q);
    FirstMatchesAre(how, ms, q, |ms|);
    forall j | 0 <= j < |r| && Same(how, r[j], ms[i]) ensures j == k {
      assert Same(how, r[j], r[k]) && Same(how, r[k], r[j]);
    }
  }

  // When strings are enough

  /** Matches that the search cannot tell apart are overrides of each other. */
  ghost predicate StringsTell(ms: seq<Method>, q: Query) {
    forall i, j ::
      0 <= i < |ms| && 0 <= j < |ms| && Matches(q, ms[i]) && Matches(q, ms[j]) && Same(Strings, ms[i], ms[j]) ==>
        SameSignature(ms[i], ms[j])
  }

  lemma {:induction false} SameMatches(ms: seq<Method>, q: Query, n: nat)
    requires StringsTell(ms, q) && n <= |ms|
    ensures FirstMatches(Strings, ms, q, n) == FirstMatches(Signatures, ms, q, n)
  {
    if n > 0 {
      SameMatches(ms, q, n - 1);
      assert IsFirstMatch(Strings, ms, q, n - 1) <==> IsFirstMatch(Signatures, ms, q, n - 1);
    }
  }

  lemma OneIsLost(ms: seq<Method>, q: Query, i: nat, j: nat)
    requires i < |ms| && j < |ms| && Matches(q, ms[i]) && Matches(q, ms[j])
    requires Same(Strings, ms[i], ms[j]) && !SameSignature(ms[i], ms[j])
    ensures FirstMatches(Strings, ms, q, |ms|) != FirstMatches(Signatures, ms, q, |ms|)
  {
    var r := FirstMatches(Signatures, ms, q, |ms|);
    var f := FirstOfSignature(Signatures, ms, q, i);
    var g := FirstOfSignature(Signatures, ms, q, j);
    var k := IsFound(Signatures, ms, q, f);
    var l := IsFound(Signatures, ms, q, g);
    FirstMatchesAre(Strings, ms, q, |ms|);
    assert Same(Strings, r[k], r[l]) && Same(Strings, r[l], r[k]) && k != l;
  }

  /** The search eliminates overrides and nothing else exactly when no two matches have one signature string
  without having the same name and parameter types. */
  lemma StringsSuffice(ms: seq<Method>, q: Query)
    ensures FirstMatches(Strings, ms, q, |ms|) == FirstMatches(Signatures, ms, q, |ms|) <==> StringsTell(ms, q)
  {
    if StringsTell(ms, q) {
      SameMatches(ms, q, |ms|);
    } else {
      var i, j :| 0 <= i < |ms| && 0 <= j < |ms| && Matches(q, ms[i]) && Matches(q, ms[j])
                  && Same(Strings, ms[i], ms[j]) && !SameSignature(ms[i], ms[j]);
      OneIsLost(ms, q, i, j);
    }
  }

  /** Declarations with names that Java source can write are such. */
  lemma JavaDeclarationsSuffice(ms: seq<Method>, q: Query)
    requires JavaMethods(ms)
    ensures FirstMatches(Strings, ms, q, |ms|) == FirstMatches(Signatures, ms, q, |ms|)
  {
    forall i, j | 0 <= i < |ms| && 0 <= j < |ms| ensures Same(Strings, ms[i], ms[j]) <==> SameSignature(ms[i], ms[j]) {
      SignatureIsInjective(ms[i], ms[j]);
    }
    StringsSuffice(ms, q);
  }

  // Single methods

  /** method(name, paramTypes): the first class on the chain that declares it. */
  function Exact(chain: seq<ClassInfo>, name: string, params: seq<Type>): Option<Method> {
    if chain == [] then None
    else if chain[0].lookup(name, params).Some? then chain[0].lookup(name, params)
    else Exact(chain[1..], name, params)
  }

  method FirstRecursive(chain: seq<ClassInfo>, name: string, params: seq<Type>) returns (r: Option<Method>)
    ensures r == Exact(chain, name, params)
  {
    for i := 0 to |chain|
      invariant Exact(chain[i..], name, params) == Exact(chain, name, params)
    {
      assert chain[i..][1..] == chain[i + 1..];
      var found := chain[i].lookup(name, params);
      if found.Some? {
        return found;
      }
    }
    assert chain[|chain|..] == [];
    return None;
  }

  /** An exact search finds the most derived declaration, and none only when no class has one. */
  lemma {:induction false} ExactIsMostDerived(chain: seq<ClassInfo>, name: string, params: seq<Type>)
    requires forall i :: 0 <= i < |chain| ==> LookupOk(chain[i])
    ensures var r := Exact(chain, name, params);
            && (r.None? ==> forall i, m :: 0 <= i < |chain| && m in chain[i].declared ==>
                !(m.name == name && m.params == params))
            && (r.Some? ==>
                  && r.value.name == name && r.value.params == params
                  && exists c :: 0 <= c < |chain| && r.value in chain[c].declared
                       && forall i, m :: 0 <= i < c && m in chain[i].declared ==>
                           !(m.name == name && m.params == params))
  {
    if chain != [] {
      assert LookupOk(chain[0]);
      var here := chain[0].lookup(name, params);
      if here.None? {
        ExactIsMostDerived(chain[1..], name, params);
        var r := Exact(chain[1..], name, params);
        if r.Some? {
          var c :| 0 <= c < |chain[1..]| && r.value in chain[1..][c].declared
                   && forall i, m :: 0 <= i < c && m in chain[1..][i].declared ==>
                       !(m.name == name && m.params == params);
          assert r.value in chain[c + 1].declared;
          forall i, m | 0 <= i < c + 1 && m in chain[i].declared ensures !(m.name == name && m.params == params) {
            if i > 0 {
              assert chain[1..][i - 1] == chain[i];
            }
          }
        } else {
          forall i, m | 0 <= i < |chain| && m in chain[i].declared ensures !(m.name == name && m.params == params) {
            if i > 0 {
              assert chain[1..][i - 1] == chain[i];
            }
          }
        }
      }
    }
  }

  function OfClass(ms: seq<Method>, cls: string): seq<Method> {
    if ms == [] then [] else (if ms[0].cls == cls then [ms[0]] else []) + OfClass(ms[1..], cls)
  }

  function SingleOrNull(ms: seq<Method>): Option<Method> {
    if |ms| == 1 then Some(ms[0]) else None
  }

  /** groupBy the declaring class, the first group, and its only member. */
  function SoleOfFirstClass(ms: seq<Method>): Option<Method> {
    if ms == [] then None else SingleOrNull(OfClass(ms, ms[0].cls))
  }

  /** method(name). */
  function Named(chain: seq<ClassInfo>, name: string): Option<Method> {
    var exact := Exact(chain, name, []);
    if exact.Some? then exact
    else
      var ms := Declarations(chain);
      SoleOfFirstClass(FirstMatches(Strings, ms, ByName(name), |ms|))
  }

  /** method(paramTypes). */
  function Fitting(chain: seq<ClassInfo>, params: seq<Option<Type>>): Option<Method> {
    var ms := Declarations(chain);
    SingleOrNull(FirstMatches(Strings, ms, ByParams(params), |ms|))
  }

  // What method(name) settles on

  predicate Declares(c: ClassInfo, name: string) {
    exists k :: 0 <= k < |c.declared| && c.declared[k].name == name
  }

  /** Declarations that do not match do not count. */
  lemma {:induction false} SkipUnmatched(how: How, a: seq<Method>, b: seq<Method>, q: Query, n: nat)
    requires n <= |b| && forall i :: 0 <= i < |a| ==> !Matches(q, a[i])
    ensures FirstMatches(how, a + b, q, |a| + n) == FirstMatches(how, b, q, n)
    decreases |a| + n
  {
    if n > 0 {
      SkipUnmatched(how, a, b, q, n - 1);
      SkipFirstMatch(how, a, b, q, n - 1);
    } else if a != [] {
      var shorter := a[..|a| - 1];
      assert a + b == shorter + ([a[|a| - 1]] + b);
      SkipUnmatched(how, shorter, [a[|a| - 1]] + b, q, 0);
    }
  }

  lemma SkipFirstMatch(how: How, a: seq<Method>, b: seq<Method>, q: Query, i: nat)
    requires i < |b| && forall k :: 0 <= k < |a| ==> !Matches(q, a[k])
    ensures IsFirstMatch(how, a + b, q, |a| + i) <==> IsFirstMatch(how, b, q, i)
  {
    var ms := a + b;
    assert forall j :: 0 <= j < |a| ==> ms[j] == a[j];
    assert forall j :: 0 <= j < |b| ==> ms[|a| + j] == b[j];
  }

  /** What follows adds only methods of its own. */
  lemma {:induction false} Extras(how: How, a: seq<Method>, b: seq<Method>, q: Query, n: nat)
    returns (extra: seq<Method>)
    requires n <= |b|
    ensures FirstMatches(how, a + b, q, |a| + n) == FirstMatches(how, a, q, |a|) + extra
    ensures forall m :: m in extra ==> m in b
  {
    if n == 0 {
      extra := [];
      SamePrefix(how, a, b, q, |a|);
    } else {
      extra := Extras(how, a, b, q, n - 1);
      assert (a + b)[|a| + n - 1] == b[n - 1];
      if IsFirstMatch(how, a + b, q, |a| + n - 1) {
        extra := extra + [b[n - 1]];
      }
    }
  }

  lemma {:induction false} SamePrefix(how: How, a: seq<Method>, b: seq<Method>, q: Query, n: nat)
    requires n <= |a|
    ensures FirstMatches(how, a + b, q, n) == FirstMatches(how, a, q, n)
  {
    if n > 0 {
      SamePrefix(how, a, b, q, n - 1);
      assert (a + b)[..n] == a[..n];
      assert forall j :: 0 <= j < n ==> (a + b)[j] == a[j];
    }
  }

  lemma {:induction false} OfClassAll(ms: seq<Method>, rest: seq<Method>, cls: string)
    requires forall m :: m in ms ==> m.cls == cls
    requires forall m :: m in rest ==> m.cls != cls
    ensures OfClass(ms + rest, cls) == ms
  {
    if ms != [] {
      assert (ms + rest)[1..] == ms[1..] + rest;
      OfClassAll(ms[1..], rest, cls);
    } else if rest != [] {
      assert ms + rest == rest && rest[0] in rest;
      OfClassAll([], rest[1..], cls);
      assert [] + rest[1..] == rest[1..];
    }
  }

  lemma {:induction false} InDeclarations(chain: seq<ClassInfo>, m: Method) returns (j: nat)
    requires m in Declarations(chain)
    ensures j < |chain| && m in chain[j].declared
  {
    if m in chain[0].declared {
      j := 0;
    } else {
      j := InDeclarations(chain[1..], m);
      j := j + 1;
    }
  }

  lemma {:induction false} DeclarationsSplit(chain: seq<ClassInfo>, c: nat)
    requires c <= |chain|
    ensures Declarations(chain) == Declarations(chain[..c]) + Declarations(chain[c..])
  {
    if c > 0 {
      DeclarationsSplit(chain[1..], c - 1);
      assert chain[..c][1..] == chain[1..][..c - 1] && chain[c..] == chain[1..][c - 1..];
    }
  }

  /** Among the declarations of one class: a single first match exactly when all matches have one signature. */
  lemma OneSignature(how: How, ms: seq<Method>, q: Query, i: nat)
    requires i < |ms| && Matches(q, ms[i])
    ensures var r := FirstMatches(how, ms, q, |ms|);
            && r != [] && r[0] in ms && Matches(q, r[0])
            && (|r| == 1 <==> forall j :: 0 <= j < |ms| && Matches(q, ms[j]) ==> Same(how, ms[i], ms[j]))
  {
    var r := FirstMatches(how, ms, q, |ms|);
    FoundAreMatches(how, ms, q);
    var f := FirstOfSignature(how, ms, q, i);
    var k := IsFound(how, ms, q, f);
    assert r[0] in r;
    if |r| == 1 {
      forall j | 0 <= j < |ms| && Matches(q, ms[j]) ensures Same(how, ms[i], ms[j]) {
        var g := FirstOfSignature(how, ms, q, j);
        var l := IsFound(how, ms, q, g);
      }
    } else {
      TwoSignatures(how, ms, q, i);
    }
  }

  lemma TwoSignatures(how: How, ms: seq<Method>, q: Query, i: nat)
    requires i < |ms| && |FirstMatches(how, ms, q, |ms|)| > 1
    ensures exists j :: 0 <= j < |ms| && Matches(q, ms[j]) && !Same(how, ms[i], ms[j])
  {
    var r := FirstMatches(how, ms, q, |ms|);
    FoundAreMatches(how, ms, q);
    FirstMatchesAre(how, ms, q, |ms|);
    assert r[0] in r && r[1] in r && !Same(how, r[0], r[1]);
    var x :| 0 <= x < |ms| && ms[x] == r[0];
    var y :| 0 <= y < |ms| && ms[y] == r[1];
    assert !Same(how, ms[i], ms[x]) || !Same(how, ms[i], ms[y]);
  }

  /** The search by name starts to count at the most derived class that declares the name. */
  lemma StartsAtFirstDeclaring(how: How, chain: seq<ClassInfo>, name: string, c: nat)
    requires c < |chain| && forall j :: 0 <= j < c ==> !Declares(chain[j], name)
    ensures var ms, here := Declarations(chain), Declarations(chain[c..]);
            FirstMatches(how, ms, ByName(name), |ms|) == FirstMatches(how, here, ByName(name), |here|)
  {
    var front := Declarations(chain[..c]);
    DeclarationsSplit(chain, c);
    forall i | 0 <= i < |front| ensures !Matches(ByName(name), front[i]) {
      var j := InDeclarations(chain[..c], front[i]);
      assert !Declares(chain[j], name);
    }
    SkipUnmatched(how, front, Declarations(chain[c..]), ByName(name), |Declarations(chain[c..])|);
  }

  /** A search by name finds what the most derived declaring class has, then what its superclasses add. */
  lemma FoundFirst(how: How, chain: seq<ClassInfo>, name: string, c: nat) returns (extra: seq<Method>)
    requires c < |chain| && forall j :: 0 <= j < c ==> !Declares(chain[j], name)
    ensures var ms, q, declared := Declarations(chain), ByName(name), chain[c].declared;
            FirstMatches(how, ms, q, |ms|) == FirstMatches(how, declared, q, |declared|) + extra
    ensures forall m :: m in extra ==> m in Declarations(chain[c + 1..])
  {
    var declared, rest := chain[c].declared, Declarations(chain[c + 1..]);
    StartsAtFirstDeclaring(how, chain, name, c);
    assert chain[c..][1..] == chain[c + 1..];
    assert Declarations(chain[c..]) == declared + rest;
    extra := Extras(how, declared, rest, ByName(name), |rest|);
  }

  lemma GroupOfFirst(here: seq<Method>, extra: seq<Method>, cls: string)
    requires here != [] && (forall m :: m in here ==> m.cls == cls) && (forall m :: m in extra ==> m.cls != cls)
    ensures SoleOfFirstClass(here + extra) == SingleOrNull(here)
  {
    OfClassAll(here, extra, cls);
    assert here[0] in here && (here + extra)[0] == here[0];
  }

  /** The first group by declaring class is what the most derived declaring class has. */
  lemma FirstGroup(how: How, chain: seq<ClassInfo>, name: string, c: nat, k: nat)
    requires ChainOk(chain)
    requires c < |chain| && forall j :: 0 <= j < c ==> !Declares(chain[j], name)
    requires k < |chain[c].declared| && chain[c].declared[k].name == name
    ensures var ms, q := Declarations(chain), ByName(name);
            SoleOfFirstClass(FirstMatches(how, ms, q, |ms|))
                == SingleOrNull(FirstMatches(how, chain[c].declared, q, |chain[c].declared|))
  {
    var declared := chain[c].declared;
    var extra := FoundFirst(how, chain, name, c);
    var here := FirstMatches(how, declared, ByName(name), |declared|);
    OneSignature(how, declared, ByName(name), k);
    FoundAreMatches(how, declared, ByName(name));
    ClassesApart(chain, c, here, extra);
    GroupOfFirst(here, extra, chain[c].name);
  }

  /** Without a method of that name that takes nothing, method(name) looks only at the most derived class
  that declares the name: it yields that class's method when all its methods of the name have one
  signature, and nothing when they differ. */
  lemma NamedIsSoleOfMostDerived(chain: seq<ClassInfo>, name: string, c: nat, k: nat)
    requires ChainOk(chain) && Exact(chain, name, []).None?
    requires c < |chain| && forall j :: 0 <= j < c ==> !Declares(chain[j], name)
    requires k < |chain[c].declared| && chain[c].declared[k].name == name
    ensures var r, declared := Named(chain, name), chain[c].declared;
            && (r.Some? <==> forall j :: 0 <= j < |declared| && declared[j].name == name ==>
                Same(Strings, declared[k], declared[j]))
            && (r.Some? ==> r.value in declared && r.value.name == name)
  {
    FirstGroup(Strings, chain, name, c, k);
    OneSignature(Strings, chain[c].declared, ByName(name), k);
  }

  lemma ClassesApart(chain: seq<ClassInfo>, c: nat, here: seq<Method>, extra: seq<Method>)
    requires ChainOk(chain) && c < |chain|
    requires forall m :: m in here ==> m in chain[c].declared
    requires forall m :: m in extra ==> m in Declarations(chain[c + 1..])
    ensures forall m :: m in here ==> m.cls == chain[c].name
    ensures forall m :: m in extra ==> m.cls != chain[c].name
  {
    forall m | m in extra ensures m.cls != chain[c].name {
      var j := InDeclarations(chain[c + 1..], m);
      assert chain[c + 1..][j] == chain[c + 1 + j];
    }
  }

  /** The methods of a name that a class declares are all the same as the k-th. */
  predicate AllSame(how: How, declared: seq<Method>, name: string, k: nat)
    requires k < |declared|
  {
    forall j :: 0 <= j < |declared| && declared[j].name == name ==> Same(how, declared[k], declared[j])
  }

  /** That method(name) yields a method exactly when the most derived class declaring the name has one
  signature of it is true unless that class has several, all with one string. */
  lemma NamedMeetsPromise(chain: seq<ClassInfo>, name: string, c: nat, k: nat)
    requires ChainOk(chain) && Exact(chain, name, []).None?
    requires c < |chain| && forall j :: 0 <= j < c ==> !Declares(chain[j], name)
    requires k < |chain[c].declared| && chain[c].declared[k].name == name
    ensures (Named(chain, name).Some? <==> AllSame(Signatures, chain[c].declared, name, k))
            <==> (AllSame(Strings, chain[c].declared, name, k) ==> AllSame(Signatures, chain[c].declared, name, k))
  {
    NamedIsSoleOfMostDerived(chain, name, c, k);
  }

  predicate DeclaresExactly(c: ClassInfo, name: string, params: seq<Type>) {
    exists k :: 0 <= k < |c.declared| && c.declared[k].name == name && c.declared[k].params == params
  }

  /** A method of the name that takes nothing is preferred, wherever on the chain it is declared: method(name)
  yields the one of the most derived class that has one. */
  lemma NamedPrefersNoArguments(chain: seq<ClassInfo>, name: string, c: nat)
    requires ChainOk(chain) && c < |chain| && DeclaresExactly(chain[c], name, [])
    requires forall j :: 0 <= j < c ==> !DeclaresExactly(chain[j], name, [])
    ensures var r := Named(chain, name);
            r.Some? && r.value in chain[c].declared && r.value.name == name && r.value.params == []
  {
    ExactIsMostDerived(chain, name, []);
    var r := Exact(chain, name, []);
    var k :| 0 <= k < |chain[c].declared| && chain[c].declared[k].name == name && chain[c].declared[k].params == [];
    assert chain[c].declared[k] in chain[c].declared;
    var d :| 0 <= d < |chain| && r.value in chain[d].declared
             && forall i, m :: 0 <= i < d && m in chain[i].declared ==> !(m.name == name && m.params == []);
    assert d <= c;
    var l :| 0 <= l < |chain[d].declared| && chain[d].declared[l] == r.value;
    assert DeclaresExactly(chain[d], name, []);
  }

  /** And there is none when no class declares the name. */
  lemma NamedFindsNothing(chain: seq<ClassInfo>, name: string)
    requires ChainOk(chain) && forall j :: 0 <= j < |chain| ==> !Declares(chain[j], name)
    ensures Named(chain, name) == None
  {
    if Exact(chain, name, []).Some? {
      ExactIsDeclared(chain, name, []);
    }
    var ms := Declarations(chain);
    FoundAreMatches(Strings, ms, ByName(name));
    var r := FirstMatches(Strings, ms, ByName(name), |ms|);
    if r != [] {
      NoneDeclared(chain, name, r[0]);
    }
  }

  lemma ExactIsDeclared(chain: seq<ClassInfo>, name: string, params: seq<Type>)
    requires ChainOk(chain) && Exact(chain, name, params).Some?
    ensures exists j :: 0 <= j < |chain| && Declares(chain[j], name)
  {
    ExactIsMostDerived(chain, name, params);
    var m := Exact(chain, name, params).value;
    var d :| 0 <= d < |chain| && m in chain[d].declared;
    var l :| 0 <= l < |chain[d].declared| && chain[d].declared[l] == m;
    assert Declares(chain[d], name);
  }

  lemma NoneDeclared(chain: seq<ClassInfo>, name: string, m: Method)
    requires m in Declarations(chain) && m.name == name
    ensures exists j :: 0 <= j < |chain| && Declares(chain[j], name)
  {
    var j := InDeclarations(chain, m);
    var l :| 0 <= l < |chain[j].declared| && chain[j].declared[l] == m;
    assert Declares(chain[j], name);
  }

  /** method(paramTypes) yields a method exactly when something fits and all that fits has one signature
  string, and then it is the first declaration that fits, from the subclass up. */
  lemma FittingIsSole(chain: seq<ClassInfo>, wanted: seq<Option<Type>>, i: nat)
    requires i < |Declarations(chain)| && ParamsFit(wanted, Declarations(chain)[i].params)
    requires forall j :: 0 <= j < i ==> !ParamsFit(wanted, Declarations(chain)[j].params)
    ensures var ms := Declarations(chain);
            Fitting(chain, wanted)
            == if forall j :: 0 <= j < |ms| && ParamsFit(wanted, ms[j].params) ==> Signature(ms[i]) == Signature(ms[j])
               then Some(ms[i]) else None
  {
    var ms, q := Declarations(chain), ByParams(wanted);
    OneSignature(Strings, ms, q, i);
    var k := IsFound(Strings, ms, q, i);
  }

  lemma FirstFoundAt(ms: seq<Method>, q: Query) returns (j: nat)
    requires FirstMatches(Strings, ms, q, |ms|) != []
    ensures j < |ms| && Matches(q, ms[j])
  {
    FoundAreMatches(Strings, ms, q);
    var m := FirstMatches(Strings, ms, q, |ms|)[0];
    assert m in FirstMatches(Strings, ms, q, |ms|);
    j :| 0 <= j < |ms| && ms[j] == m;
  }

  lemma FittingFindsNothing(chain: seq<ClassInfo>, wanted: seq<Option<Type>>)
    requires forall j :: 0 <= j < |Declarations(chain)| ==> !ParamsFit(wanted, Declarations(chain)[j].params)
    ensures Fitting(chain, wanted) == None
  {
    var ms := Declarations(chain);
    if FirstMatches(Strings, ms, ByParams(wanted), |ms|) != [] {
      var j := FirstFoundAt(ms, ByParams(wanted));
    }
  }

  /** What the search keeps of several matches that are the same is the declaration of the most derived class. */
  lemma MostDerivedIsKept(how: How, chain: seq<ClassInfo>, q: Query, c: nat, m: Method) returns (k: nat)
    requires c < |chain| && m in chain[c].declared && Matches(q, m)
    requires forall j, n :: 0 <= j < c && n in chain[j].declared && Matches(q, n) ==> !Same(how, n, m)
    ensures var r := FirstMatches(how, Declarations(chain), q, |Declarations(chain)|);
            k < |r| && r[k] in chain[c].declared && Same(how, r[k], m)
  {
    var ms := Declarations(chain);
    var front, here := Declarations(chain[..c]), chain[c].declared;
    DeclarationsSplit(chain, c);
    assert chain[c..][1..] == chain[c + 1..];
    var x :| 0 <= x < |here| && here[x] == m;
    assert ms == front + (here + Declarations(chain[c + 1..]));
    assert ms[|front| + x] == m;
    var f := FirstOfSignature(how, ms, q, |front| + x);
    if f < |front| {
      var j := EarlierClass(chain, c, f);
    }
    k := IsFound(how, ms, q, f);
    assert ms[f] == here[f - |front|];
  }

  lemma EarlierClass(chain: seq<ClassInfo>, c: nat, f: nat) returns (j: nat)
    requires c <= |chain| && f < |Declarations(chain[..c])|
    ensures j < c && Declarations(chain[..c])[f] in chain[j].declared
  {
    j := InDeclarations(chain[..c], Declarations(chain[..c])[f]);
    assert chain[..c][j] == chain[j];
  }

  // A class called like a primitive

  const TAKES_INT := Method("C", "m", [Primitive(KInt)], Primitive(KVoid))
  const TAKES_CLASS := Method("C", "m", [Class("int")], Primitive(KVoid))

  /** m(int), and m of the class called `int`. */
  const TWO: seq<Method> := [TAKES_INT, TAKES_CLASS]

  const TWO_CHAIN: seq<ClassInfo> := [
    ClassInfo("C", TWO, (name, params) =>
      if name == "m" && params == TAKES_INT.params then Some(TAKES_INT)
      else if name == "m" && params == TAKES_CLASS.params then Some(TAKES_CLASS)
      else None)
  ]

  lemma OneStringTwoSignatures()
    ensures Signature(TAKES_INT) == Signature(TAKES_CLASS) && !SameSignature(TAKES_INT, TAKES_CLASS)
    ensures DexMethod(TAKES_INT) && DexMethod(TAKES_CLASS)
  {
    assert Names(TAKES_INT.params) == Names(TAKES_CLASS.params);
  }

  lemma FirstOfTwo(how: How)
    ensures FirstMatches(how, TWO, ByName("m"), 2) == if how == Strings then [TAKES_INT] else TWO
  {
    OneStringTwoSignatures();
    assert FirstMatches(how, TWO, ByName("m"), 0) == [];
    assert FirstMatches(how, TWO, ByName("m"), 1) == [TAKES_INT];
    assert IsFirstMatch(how, TWO, ByName("m"), 1) <==> how == Signatures;
  }

  /** methods("m") loses the second of the two, and method("m") yields the first although the class has two
  signatures of the name. */
  lemma OverloadIsLost()
    ensures ChainOk(TWO_CHAIN) && Declarations(TWO_CHAIN) == TWO
    ensures FirstMatches(Strings, TWO, ByName("m"), 2) == [TAKES_INT]
    ensures FirstMatches(Signatures, TWO, ByName("m"), 2) == [TAKES_INT, TAKES_CLASS]
    ensures Named(TWO_CHAIN, "m") == Some(TAKES_INT)
    ensures SoleOfFirstClass(FirstMatches(Signatures, TWO, ByName("m"), 2)) == None
  {
    assert LookupOk(TWO_CHAIN[0]);
    assert TWO_CHAIN[1..] == [];
    FirstOfTwo(Strings);
    FirstOfTwo(Signatures);
    assert Exact(TWO_CHAIN, "m", []) == None;
    assert OfClass([TAKES_INT][1..], "C") == [];
    assert TWO[1..] == [TAKES_CLASS] && TWO[1..][1..] == [];
    assert OfClass(TWO, "C") == [TAKES_INT] + OfClass(TWO[1..], "C");
    assert OfClass(TWO[1..], "C") == [TAKES_CLASS] + OfClass(TWO[1..][1..], "C");
  }
}
