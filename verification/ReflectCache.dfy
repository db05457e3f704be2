/** The method cache of Reflect: three overloads share one map from strings. */
module ReflectCache {
  import opened Descriptor
  import opened MethodSearch
  import opened Text
  import opened Wrappers

  /** A call of one of the overloads of `method`. */
  datatype Call =
    | ByExact(name: string, params: seq<Type>)
    | ByNameOnly(name: string)
    | ByParamsOnly(wanted: seq<Option<Type>>)

  /** What the overload searches for. */
  function Answer(chain: seq<ClassInfo>, c: Call): Option<Method> {
    match c
    case ByExact(name, params) => Exact(chain, name, params)
    case ByNameOnly(name) => Named(chain, name)
    case ByParamsOnly(wanted) => Fitting(chain, wanted)
  }

  // Keys

  function NullableName(t: Option<Type>): string {
    if t.None? then "null" else NameOf(t.value)
  }

  function NullableNames(ts: seq<Option<Type>>): (names: seq<string>)
    ensures |names| == |ts|
  {
    seq(|ts|, k requires 0 <= k < |ts| => NullableName(ts[k]))
  }

  /** getParametersString. */
  function Parenthesized(names: seq<string>): string {
    "(" + (Join(names, ',') + ")")
  }

  function Key(c: Call): string {
    match c
    case ByExact(name, params) => name + Parenthesized(Names(params))
    case ByNameOnly(name) => name + "(*)"
    case ByParamsOnly(wanted) => Parenthesized(NullableNames(wanted)) + "(*)"
  }

  /** A call whose names Java source could write. */
  predicate JavaCall(c: Call) {
    match c
    case ByExact(name, params) => JavaMethodName(name) && JavaTypes(params)
    case ByNameOnly(name) => JavaMethodName(name)
    case ByParamsOnly(wanted) => forall k :: 0 <= k < |wanted| && wanted[k].Some? ==> JavaType(wanted[k].value)
  }

  lemma NullableNamesAreInjective(a: seq<Option<Type>>, b: seq<Option<Type>>)
    requires JavaCall(ByParamsOnly(a)) && JavaCall(ByParamsOnly(b))
    requires NullableNames(a) == NullableNames(b)
    ensures a == b
  {
    assert |a| == |NullableNames(a)| == |b|;
    forall k | 0 <= k < |a| ensures a[k] == b[k] {
      assert NullableNames(a)[k] == NullableNames(b)[k];
      if a[k].Some? {
        NotNull(a[k].value);
      }
      if b[k].Some? {
        NotNull(b[k].value);
      }
      if a[k].Some? && b[k].Some? {
        NameIsInjective(a[k].value, b[k].value);
      }
    }
  }

  lemma NotNull(t: Type)
    requires JavaType(t)
    ensures NameOf(t) != "null"
  {
    NameShape(t);
  }

  lemma NameOnlyKeys(name: string, name': string)
    requires Key(ByNameOnly(name)) == Key(ByNameOnly(name'))
    ensures name == name'
  {
    var k := Key(ByNameOnly(name));
    assert name == k[..|k| - 3] && name' == k[..|k| - 3];
  }

  /** A key without a method name starts with a parenthesis, and no method name does. */
  lemma StartsDifferently(wanted: seq<Option<Type>>, c: Call)
    requires !c.ByParamsOnly? && PlainName(c.name)
    ensures Key(ByParamsOnly(wanted)) != Key(c)
  {
    assert Key(ByParamsOnly(wanted))[0] == '(';
    assert c.name[0] in c.name;
    assert Key(c)[0] == c.name[0];
  }

  /** Legal names are needed: a class called `*` would share a key with the search by name alone. */
  lemma IllegalNamesCollide(name: string)
    ensures Key(ByExact(name, [Class("*")])) == Key(ByNameOnly(name))
  {
    assert Names([Class("*")]) == ["*"];
  }

  // Names that a class file can hold

  /** Class names without the characters that descriptors use; method names without an opening parenthesis. */
  predicate JvmCall(c: Call) {
    match c
    case ByExact(name, params) => PlainName(name) && TypesOk(params)
    case ByNameOnly(name) => PlainName(name)
    case ByParamsOnly(wanted) => forall k :: 0 <= k < |wanted| && wanted[k].Some? ==> TypeOk(wanted[k].value)
  }

  /** Type names are compared after cutting them at commas, where a class name may have one of its own, and
  a class called like a primitive or `null` passes for it; a lone class called `*` passes for any list. */
  predicate Collide(c: Call, c': Call) {
    match (c, c')
    case (ByExact(n, ps), ByExact(n', ps')) => n == n' && Cut(Names(ps), ',') == Cut(Names(ps'), ',')
    case (ByExact(n, ps), ByNameOnly(n')) => n == n' && ps == [Class("*")]
    case (ByNameOnly(n), ByExact(n', ps')) => n == n' && ps' == [Class("*")]
    case (ByNameOnly(n), ByNameOnly(n')) => n == n'
    case (ByParamsOnly(ts), ByParamsOnly(ts')) => Cut(NullableNames(ts), ',') == Cut(NullableNames(ts'), ',')
    case _ => false
  }

  lemma TypeNameNotEmpty(t: Type)
    requires TypeOk(t)
    ensures NameOf(t) != []
    ensures NameOf(t) == "*" <==> t == Class("*")
  {
    match t
    case Primitive(k) => assert |NameOf(t)| > 1;
    case ArrayOf(component) => assert NameOf(t)[0] == '[';
    case Class(name) => assert NameOf(t) == name;
  }

  lemma LoneStar(params: seq<Type>)
    requires TypesOk(params)
    ensures Join(Names(params), ',') == "*" <==> params == [Class("*")]
  {
    if |params| == 1 {
      TypeNameNotEmpty(params[0]);
    } else if |params| > 1 {
      TypeNameNotEmpty(params[0]);
      var names := Names(params);
      assert names[0] == NameOf(params[0]) && names != [] && |names| != 1;
      assert Join(names, ',') == names[0] + [','] + Join(names[1..], ',');
    }
  }

  lemma ExactKeysAgree(n: string, ps: seq<Type>, n': string, ps': seq<Type>)
    requires JvmCall(ByExact(n, ps)) && JvmCall(ByExact(n', ps'))
    ensures Key(ByExact(n, ps)) == Key(ByExact(n', ps')) <==> Collide(ByExact(n, ps), ByExact(n', ps'))
  {
    SignaturesAgree(n, ps, n', ps');
  }

  lemma ExactAndNameOnly(n: string, ps: seq<Type>, n': string)
    requires JvmCall(ByExact(n, ps)) && JvmCall(ByNameOnly(n'))
    ensures Key(ByExact(n, ps)) == Key(ByNameOnly(n')) <==> n == n' && ps == [Class("*")]
  {
    assert n' + "(*)" == n' + ("(" + ("*" + ")"));
    NamedListsAgree(n, Join(Names(ps), ','), n', "*");
    LoneStar(ps);
  }

  lemma NullableNamesNotEmpty(ts: seq<Option<Type>>)
    requires JvmCall(ByParamsOnly(ts))
    ensures forall k :: 0 <= k < |ts| ==> NullableNames(ts)[k] != []
  {
    forall k | 0 <= k < |ts| ensures NullableNames(ts)[k] != [] {
      if ts[k].Some? {
        TypeNameNotEmpty(ts[k].value);
      }
    }
  }

  lemma ParenthesizedAgree(x: string, y: string)
    ensures "(" + (x + ")") + "(*)" == "(" + (y + ")") + "(*)" <==> x == y
  {
    var k, k' := "(" + (x + ")") + "(*)", "(" + (y + ")") + "(*)";
    assert x == k[1..|k| - 4] && y == k'[1..|k'| - 4];
  }

  lemma ParamsOnlyKeysAgree(ts: seq<Option<Type>>, ts': seq<Option<Type>>)
    requires JvmCall(ByParamsOnly(ts)) && JvmCall(ByParamsOnly(ts'))
    ensures Key(ByParamsOnly(ts)) == Key(ByParamsOnly(ts')) <==> Collide(ByParamsOnly(ts), ByParamsOnly(ts'))
  {
    NullableNamesNotEmpty(ts);
    NullableNamesNotEmpty(ts');
    JoinsAgree(NullableNames(ts), NullableNames(ts'), ',');
    ParenthesizedAgree(Join(NullableNames(ts), ','), Join(NullableNames(ts'), ','));
  }

  /** Exactly which calls share a key, for all names that class files can hold, method names with an opening
  parenthesis aside. */
  lemma KeysCollideExactly(c: Call, c': Call)
    requires JvmCall(c) && JvmCall(c')
    ensures Key(c) == Key(c') <==> Collide(c, c')
  {
    match (c, c')
    case (ByExact(n, ps), ByExact(n', ps')) => ExactKeysAgree(n, ps, n', ps');
    case (ByExact(n, ps), ByNameOnly(n')) => ExactAndNameOnly(n, ps, n');
    case (ByNameOnly(n), ByExact(n', ps')) => ExactAndNameOnly(n', ps', n);
    case (ByNameOnly(n), ByNameOnly(n')) => if Key(c) == Key(c') { NameOnlyKeys(n, n'); }
    case (ByParamsOnly(ts), ByParamsOnly(ts')) => ParamsOnlyKeysAgree(ts, ts');
    case (ByParamsOnly(ts), _) => StartsDifferently(ts, c');
    case (_, ByParamsOnly(ts')) => StartsDifferently(ts', c);
  }

  // Names that Java source can write

  lemma JavaCallFacts(c: Call)
    requires JavaCall(c)
    ensures JvmCall(c)
    ensures c.ByExact? ==> Cut(Names(c.params), ',') == Names(c.params) && c.params != [Class("*")]
    ensures c.ByParamsOnly? ==> Cut(NullableNames(c.wanted), ',') == NullableNames(c.wanted)
  {
    assert IsPunctuation(',');
    match c
    case ByExact(name, params) =>
      JavaTypesAre(params);
      NamesLack(params, ',');
      NothingToCut(Names(params), ',');
      assert !JavaName("*") by {
        assert "*"[0] == '*';
      }
    case ByNameOnly(name) =>
    case ByParamsOnly(wanted) =>
      forall k | 0 <= k < |wanted|
        ensures Lacks(NullableNames(wanted)[k], ',') && (wanted[k].Some? ==> TypeOk(wanted[k].value))
      {
        if wanted[k].Some? {
          JavaTypeIsOk(wanted[k].value);
          JavaTypeLacks(wanted[k].value, ',');
          NameLacks(wanted[k].value, ',');
        }
      }
      NothingToCut(NullableNames(wanted), ',');
  }

  /** No two different calls share a key. */
  lemma KeysNeverCollide(c: Call, c': Call)
    requires JavaCall(c) && JavaCall(c')
    ensures Key(c) == Key(c') <==> c == c'
  {
    JavaCallFacts(c);
    JavaCallFacts(c');
    KeysCollideExactly(c, c');
    match (c, c')
    case (ByExact(n, ps), ByExact(n', ps')) => if Names(ps) == Names(ps') { NamesAreInjective(ps, ps'); }
    case (ByParamsOnly(ts), ByParamsOnly(ts')) =>
      if NullableNames(ts) == NullableNames(ts') { NullableNamesAreInjective(ts, ts'); }
    case _ =>
  }

  // The cache

  type Cache = map<string, Option<Method>>

  /** A call with the cache in front of the search: a method that is stored is taken, while a stored null is
  looked up again. The search by name alone goes through the exact overload, which fills the cache too. */
  function Cached(chain: seq<ClassInfo>, cache: Cache, c: Call): (Option<Method>, Cache)
    decreases if c.ByNameOnly? then 1 else 0
  {
    if Key(c) in cache && cache[Key(c)].Some? then (cache[Key(c)], cache)
    else if c.ByNameOnly? then
      var (exact, filled) := Cached(chain, cache, ByExact(c.name, []));
      var m := if exact.Some? then exact else SoleByName(chain, c.name);
      (m, filled[Key(c) := m])
    else
      var m := Answer(chain, c);
      (m, cache[Key(c) := m])
  }

  function SoleByName(chain: seq<ClassInfo>, name: string): Option<Method> {
    var ms := Declarations(chain);
    SoleOfFirstClass(FirstMatches(Strings, ms, ByName(name), |ms|))
  }

  /** Searching by name alone leaves an entry for the exact search too. */
  lemma NamedFillsExact(chain: seq<ClassInfo>, cache: Cache, name: string)
    requires !(Key(ByNameOnly(name)) in cache && cache[Key(ByNameOnly(name))].Some?)
    ensures var filled := Cached(chain, cache, ByNameOnly(name)).1;
            Key(ByNameOnly(name)) in filled && Key(ByExact(name, [])) in filled
  {
    var exact := Cached(chain, cache, ByExact(name, [])).1;
    assert Key(ByExact(name, [])) in exact;
  }

  /** The cache after a sequence of calls, from an empty one, and what they returned. */
  function After(chain: seq<ClassInfo>, calls: seq<Call>): Cache {
    if calls == [] then map[] else Cached(chain, After(chain, calls[..|calls| - 1]), calls[|calls| - 1]).1
  }

  function Returned(chain: seq<ClassInfo>, calls: seq<Call>): seq<Option<Method>> {
    if calls == [] then []
    else
      var front := calls[..|calls| - 1];
      Returned(chain, front) + [Cached(chain, After(chain, front), calls[|calls| - 1]).0]
  }

  /** What the searches without a cache return. */
  function Answers(chain: seq<ClassInfo>, calls: seq<Call>): seq<Option<Method>> {
    if calls == [] then [] else Answers(chain, calls[..|calls| - 1]) + [Answer(chain, calls[|calls| - 1])]
  }

  class Reflect {
    const chain: seq<ClassInfo>
    var methodCache: Cache

    constructor (chain: seq<ClassInfo>)
      ensures this.chain == chain && methodCache == map[]
    {
      this.chain := chain;
      methodCache := map[];
    }

    method ExactMethod(name: string, params: seq<Type>) returns (m: Option<Method>)
      modifies this
      ensures (m, methodCache) == Cached(chain, old(methodCache), ByExact(name, params))
    {
      var key := name + Parenthesized(Names(params));
      if key in methodCache && methodCache[key].Some? {
        return methodCache[key];
      }
      m := FirstRecursive(chain, name, params);
      methodCache := methodCache[key := m];
    }

    method NamedMethod(name: string) returns (m: Option<Method>)
      modifies this
      ensures (m, methodCache) == Cached(chain, old(methodCache), ByNameOnly(name))
    {
      var key := name + "(*)";
      if key in methodCache && methodCache[key].Some? {
        return methodCache[key];
      }
      m := ExactMethod(name, []);
      if m.None? {
        var all := Methods(chain, ByName(name));
        m := SoleOfFirstClass(all);
      }
      methodCache := methodCache[key := m];
    }

    method FittingMethod(wanted: seq<Option<Type>>) returns (m: Option<Method>)
      modifies this
      ensures (m, methodCache) == Cached(chain, old(methodCache), ByParamsOnly(wanted))
    {
      var key := Parenthesized(NullableNames(wanted)) + "(*)";
      if key in methodCache && methodCache[key].Some? {
        return methodCache[key];
      }
      var all := Methods(chain, ByParams(wanted));
      m := SingleOrNull(all);
      methodCache := methodCache[key := m];
    }

    method Find(c: Call) returns (m: Option<Method>)
      modifies this
      ensures (m, methodCache) == Cached(chain, old(methodCache), c)
    {
      match c
      case ByExact(name, params) => m := ExactMethod(name, params);
      case ByNameOnly(name) => m := NamedMethod(name);
      case ByParamsOnly(wanted) => m := FittingMethod(wanted);
    }
  }

  /** Any sequence of calls on one object. */
  method Session(chain: seq<ClassInfo>, calls: seq<Call>) returns (answers: seq<Option<Method>>)
    ensures answers == Returned(chain, calls)
  {
    var reflect := new Reflect(chain);
    answers := [];
    for k := 0 to |calls|
      invariant fresh(reflect) && reflect.chain == chain
      invariant reflect.methodCache == After(chain, calls[..k]) && answers == Returned(chain, calls[..k])
    {
      var m := reflect.Find(calls[k]);
      answers := answers + [m];
      assert calls[..k + 1][..k] == calls[..k];
    }
    assert calls[..|calls|] == calls;
  }

  // When the cache is right

  /** The answer stored for `c` would be given for `d`, which has another. */
  predicate Misleads(chain: seq<ClassInfo>, c: Call, d: Call) {
    Key(c) == Key(d) && Answer(chain, c).Some? && Answer(chain, d) != Answer(chain, c)
  }

  type Calls = Call -> bool

  ghost predicate NoneMislead(chain: seq<ClassInfo>, among: Calls) {
    forall c, d :: among(c) && among(d) ==> !Misleads(chain, c, d)
  }

  /** With a search by name comes the exact search it goes through. */
  ghost predicate Closed(among: Calls) {
    forall name: string :: among(ByNameOnly(name)) ==> among(ByExact(name, []))
  }

  /** Whatever is stored under the key of one of these calls is its answer. */
  ghost predicate Sound(chain: seq<ClassInfo>, cache: Cache, among: Calls) {
    forall c :: among(c) && Key(c) in cache && cache[Key(c)].Some? ==> cache[Key(c)] == Answer(chain, c)
  }

  lemma StoreKeepsSound(chain: seq<ClassInfo>, cache: Cache, among: Calls, c: Call)
    requires Sound(chain, cache, among) && NoneMislead(chain, among) && among(c)
    ensures Sound(chain, cache[Key(c) := Answer(chain, c)], among)
  {
    forall d | among(d) && Key(d) == Key(c) && Answer(chain, c).Some? ensures Answer(chain, c) == Answer(chain, d) {
      assert !Misleads(chain, c, d);
    }
  }

  lemma CachedIsAnswer(chain: seq<ClassInfo>, cache: Cache, among: Calls, c: Call)
    requires Sound(chain, cache, among) && NoneMislead(chain, among) && Closed(among) && among(c)
    ensures Cached(chain, cache, c).0 == Answer(chain, c) && Sound(chain, Cached(chain, cache, c).1, among)
    decreases if c.ByNameOnly? then 1 else 0
  {
    if !(Key(c) in cache && cache[Key(c)].Some?) {
      if c.ByNameOnly? {
        CachedIsAnswer(chain, cache, among, ByExact(c.name, []));
        StoreKeepsSound(chain, Cached(chain, cache, ByExact(c.name, [])).1, among, c);
      } else {
        StoreKeepsSound(chain, cache, among, c);
      }
    }
  }

  ghost predicate AllAmong(calls: seq<Call>, among: Calls) {
    forall k :: 0 <= k < |calls| ==> among(calls[k])
  }

  lemma {:induction false} ReturnedAreAnswers(chain: seq<ClassInfo>, among: Calls, calls: seq<Call>)
    requires NoneMislead(chain, among) && Closed(among) && AllAmong(calls, among)
    ensures Returned(chain, calls) == Answers(chain, calls) && Sound(chain, After(chain, calls), among)
  {
    if calls != [] {
      var front := calls[..|calls| - 1];
      ReturnedAreAnswers(chain, among, front);
      CachedIsAnswer(chain, After(chain, front), among, calls[|calls| - 1]);
    }
  }

  /** For names that Java source can write, any sequence of calls returns what the uncached searches do. */
  lemma JavaCallsAreRight(chain: seq<ClassInfo>, calls: seq<Call>)
    requires AllAmong(calls, JavaCall)
    ensures Returned(chain, calls) == Answers(chain, calls)
  {
    forall c, d | JavaCall(c) && JavaCall(d) ensures !Misleads(chain, c, d) {
      KeysNeverCollide(c, d);
    }
    ReturnedAreAnswers(chain, JavaCall, calls);
  }

  /** The given calls and the exact searches that they go through. */
  function Reached(among: Calls): Calls {
    (c: Call) => among(c) || (c.ByExact? && c.params == [] && among(ByNameOnly(c.name)))
  }

  lemma CutOfSome(names: seq<string>)
    requires Cut(names, ',') == []
    ensures names == []
  {
  }

  /** A search without parameters shares its key with no other call. */
  lemma NoParamsAlone(name: string, c: Call)
    requires JvmCall(c) && PlainName(name) && Key(c) == Key(ByExact(name, []))
    ensures c == ByExact(name, [])
  {
    KeysCollideExactly(c, ByExact(name, []));
    if c.ByExact? {
      CutOfSome(Names(c.params));
    }
  }

  lemma ReachedIsFine(chain: seq<ClassInfo>, among: Calls)
    requires forall c :: among(c) ==> JvmCall(c)
    requires NoneMislead(chain, among)
    ensures NoneMislead(chain, Reached(among)) && Closed(Reached(among))
  {
    var reached := Reached(among);
    forall c, d | reached(c) && reached(d) ensures !Misleads(chain, c, d) {
      if Key(c) == Key(d) {
        if !among(c) {
          NoParamsAlone(c.name, d);
        } else if !among(d) {
          NoParamsAlone(d.name, c);
        }
      }
    }
  }

  lemma SecondIsMisled(chain: seq<ClassInfo>, c: Call, d: Call)
    requires Misleads(chain, c, d)
    ensures Returned(chain, [c, d]) != Answers(chain, [c, d])
  {
    Two(chain, c, d);
  }

  lemma FirstIsRight(chain: seq<ClassInfo>, c: Call)
    ensures Cached(chain, map[], c).0 == Answer(chain, c)
    ensures Key(c) in Cached(chain, map[], c).1 && Cached(chain, map[], c).1[Key(c)] == Answer(chain, c)
  {
  }

  /** Calls that share a key have the same answer, or the first finds nothing to store. */
  ghost predicate CollidersAgree(chain: seq<ClassInfo>, among: Calls) {
    forall c, d :: among(c) && among(d) && Collide(c, d) && Answer(chain, c).Some? ==>
      Answer(chain, d) == Answer(chain, c)
  }

  lemma AgreeingMeansNoneMislead(chain: seq<ClassInfo>, among: Calls)
    requires forall c :: among(c) ==> JvmCall(c)
    ensures CollidersAgree(chain, among) <==> NoneMislead(chain, among)
  {
    forall c, d | among(c) && among(d) ensures Key(c) == Key(d) <==> Collide(c, d) {
      KeysCollideExactly(c, d);
    }
    if CollidersAgree(chain, among) {
      forall c, d | among(c) && among(d) ensures !Misleads(chain, c, d) {
        assert Key(c) == Key(d) <==> Collide(c, d);
      }
    } else {
      var c, d :| among(c) && among(d) && Collide(c, d) && Answer(chain, c).Some?
          && Answer(chain, d) != Answer(chain, c);
      assert Misleads(chain, c, d);
    }
  }

  ghost predicate AlwaysRight(chain: seq<ClassInfo>, among: Calls) {
    forall calls :: AllAmong(calls, among) ==> Returned(chain, calls) == Answers(chain, calls)
  }

  /** For any set of calls with names a class file can hold: every sequence of them returns what the uncached
  searches do exactly when those that collide have the same answer. */
  lemma RightExactlyWhen(chain: seq<ClassInfo>, among: Calls)
    requires forall c :: among(c) ==> JvmCall(c)
    ensures AlwaysRight(chain, among) <==> CollidersAgree(chain, among)
  {
    AgreeingMeansNoneMislead(chain, among);
    if NoneMislead(chain, among) {
      ReachedIsFine(chain, among);
      forall calls | AllAmong(calls, among) ensures Returned(chain, calls) == Answers(chain, calls) {
        ReturnedAreAnswers(chain, Reached(among), calls);
      }
    } else {
      var c, d :| among(c) && among(d) && Misleads(chain, c, d);
      assert AllAmong([c, d], among);
      SecondIsMisled(chain, c, d);
    }
  }

  // A class with one method

  function Lone(m: Method): seq<ClassInfo> {
    [ClassInfo("C", [m], (name, params) => if name == m.name && params == m.params then Some(m) else None)]
  }

  lemma LoneIsOk(m: Method)
    requires m.cls == "C"
    ensures ChainOk(Lone(m)) && Declarations(Lone(m)) == [m]
  {
    assert LookupOk(Lone(m)[0]);
    assert Lone(m)[1..] == [];
  }

  lemma LoneExact(m: Method, params: seq<Type>)
    ensures Exact(Lone(m), m.name, params) == if params == m.params then Some(m) else None
  {
    assert Lone(m)[1..] == [];
  }

  lemma LoneFound(m: Method, q: Query)
    requires m.cls == "C"
    ensures var ms := Declarations(Lone(m));
            FirstMatches(Strings, ms, q, |ms|) == if Matches(q, m) then [m] else []
  {
    LoneIsOk(m);
    assert FirstMatches(Strings, [m], q, 0) == [];
    assert IsFirstMatch(Strings, [m], q, 0) <==> Matches(q, m);
  }

  lemma LoneFitting(m: Method, wanted: seq<Option<Type>>)
    requires m.cls == "C"
    ensures Fitting(Lone(m), wanted) == if ParamsFit(wanted, m.params) then Some(m) else None
  {
    LoneFound(m, ByParams(wanted));
  }

  lemma LoneNamed(m: Method)
    requires m.cls == "C"
    ensures Named(Lone(m), m.name) == Some(m)
  {
    LoneExact(m, []);
    LoneFound(m, ByName(m.name));
    assert OfClass([m][1..], "C") == [];
  }

  // When the cache is right on every chain

  /** Parameter types that fit, with `other` for every one that may be any. */
  function Filled(wanted: seq<Option<Type>>, other: Type): (params: seq<Type>)
    ensures |params| == |wanted| && ParamsFit(wanted, params)
  {
    seq(|wanted|, k requires 0 <= k < |wanted| => if wanted[k].Some? then wanted[k].value else other)
  }

  function Other(t: Type): (u: Type)
    ensures u != t
  {
    if t == Primitive(KInt) then Primitive(KChar) else Primitive(KInt)
  }

  function Takes(params: seq<Type>): Method {
    Method("C", "m", params, Primitive(KVoid))
  }

  /** Of two different lists of wanted types, one is met by parameters that do not meet the other. */
  lemma FitsOneOnly(ts: seq<Option<Type>>, us: seq<Option<Type>>) returns (params: seq<Type>)
    requires ts != us
    ensures ParamsFit(ts, params) != ParamsFit(us, params)
  {
    params := Filled(ts, Primitive(KInt));
    if |ts| == |us| {
      var k :| 0 <= k < |ts| && ts[k] != us[k];
      if us[k].Some? {
        params := Filled(ts, Other(us[k].value));
      } else {
        params := Filled(us, Other(ts[k].value));
      }
    }
  }

  /** Different calls that share a key have different answers on some chain. */
  lemma Separated(c: Call, d: Call) returns (chain: seq<ClassInfo>)
    requires Collide(c, d) && c != d
    ensures ChainOk(chain) && (Misleads(chain, c, d) || Misleads(chain, d, c) || Key(c) != Key(d))
  {
    match (c, d)
    case (ByExact(n, ps), ByExact(_, ps')) =>
      var m := Method("C", n, ps, Primitive(KVoid));
      chain := Lone(m);
      LoneIsOk(m);
      LoneExact(m, ps);
      LoneExact(m, ps');
    case (ByExact(n, ps), ByNameOnly(_)) =>
      chain := SeparatedByName(n);
    case (ByNameOnly(n), ByExact(_, ps)) =>
      chain := SeparatedByName(n);
    case (ByParamsOnly(ts), ByParamsOnly(us)) =>
      var params := FitsOneOnly(ts, us);
      chain := Lone(Takes(params));
      LoneIsOk(Takes(params));
      LoneFitting(Takes(params), ts);
      LoneFitting(Takes(params), us);
  }

  lemma SeparatedByName(n: string) returns (chain: seq<ClassInfo>)
    ensures ChainOk(chain)
    ensures Answer(chain, ByNameOnly(n)).Some? && Answer(chain, ByExact(n, [Class("*")])) == None
  {
    var m := Method("C", n, [Primitive(KInt)], Primitive(KVoid));
    chain := Lone(m);
    LoneIsOk(m);
    LoneNamed(m);
    LoneExact(m, [Class("*")]);
  }

  /** Only equal calls collide. */
  ghost predicate NoneCollide(among: Calls) {
    forall c, d :: among(c) && among(d) && Collide(c, d) ==> c == d
  }

  ghost predicate RightOnEveryChain(among: Calls) {
    forall chain :: ChainOk(chain) ==> AlwaysRight(chain, among)
  }

  /** For any set of calls with names a class file can hold: every sequence of them returns what the uncached
  searches do, whatever the classes are, exactly when no two different ones collide. */
  lemma RightOnEveryChainExactlyWhen(among: Calls)
    requires forall c :: among(c) ==> JvmCall(c)
    ensures RightOnEveryChain(among) <==> NoneCollide(among)
  {
    if NoneCollide(among) {
      forall chain | ChainOk(chain) ensures AlwaysRight(chain, among) {
        RightExactlyWhen(chain, among);
      }
    } else {
      var c, d :| among(c) && among(d) && Collide(c, d) && c != d;
      var chain := Separated(c, d);
      KeysCollideExactly(c, d);
      AgreeingMeansNoneMislead(chain, among);
      RightExactlyWhen(chain, among);
    }
  }

  // Classes called like a primitive or null

  /** Two calls with one key, of which the second is given the method stored for the first and should have none. */
  ghost predicate GoesWrong(first: Call, second: Call) {
    && ChainOk(Lone(TAKES_INT)) && JvmCall(first) && JvmCall(second)
    && Returned(Lone(TAKES_INT), [first, second]) == [Some(TAKES_INT), Some(TAKES_INT)]
    && Answers(Lone(TAKES_INT), [first, second]) == [Some(TAKES_INT), None]
  }

  lemma WrongByKey(first: Call, second: Call)
    requires JvmCall(first) && JvmCall(second) && Key(first) == Key(second)
    requires Answer(Lone(TAKES_INT), first) == Some(TAKES_INT) && Answer(Lone(TAKES_INT), second) == None
    ensures GoesWrong(first, second)
  {
    LoneIsOk(TAKES_INT);
    Two(Lone(TAKES_INT), first, second);
  }

  /** After m(int) has been found, a search for a method m that takes the class called `int` finds it too. */
  lemma ClassCalledInt()
    ensures GoesWrong(ByExact("m", [Primitive(KInt)]), ByExact("m", [Class("int")]))
  {
    var primitive, called := [Primitive(KInt)], [Class("int")];
    LoneExact(TAKES_INT, primitive);
    LoneExact(TAKES_INT, called);
    assert Names(primitive) == Names(called);
    WrongByKey(ByExact("m", primitive), ByExact("m", called));
  }

  /** After a search for any method of one parameter, one for a parameter of the class called `null` finds the same. */
  lemma ClassCalledNull()
    ensures GoesWrong(ByParamsOnly([None]), ByParamsOnly([Some(Class("null"))]))
  {
    var any: seq<Option<Type>>, called := [None], [Some(Class("null"))];
    LoneFitting(TAKES_INT, any);
    LoneFitting(TAKES_INT, called);
    assert NullableNames(any) == NullableNames(called);
    WrongByKey(ByParamsOnly(any), ByParamsOnly(called));
  }

  /** Two calls of which the first stores a method under the key of the second. */
  lemma Two(chain: seq<ClassInfo>, c: Call, d: Call)
    requires Key(c) == Key(d) && Answer(chain, c).Some?
    ensures Returned(chain, [c, d]) == [Answer(chain, c), Answer(chain, c)]
    ensures Answers(chain, [c, d]) == [Answer(chain, c), Answer(chain, d)]
  {
    FirstIsRight(chain, c);
    var filled := Cached(chain, map[], c).1;
    assert [c, d][..1] == [c] && [c][..0] == [];
    assert After(chain, [c]) == filled && Returned(chain, [c]) == [Answer(chain, c)];
    assert Cached(chain, filled, d).0 == Answer(chain, c);
    assert Answers(chain, [c]) == [Answer(chain, c)];
  }
}
