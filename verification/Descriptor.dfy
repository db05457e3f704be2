/** JVM types, their names and their descriptors. */
module Descriptor {
  import opened Text
  import opened Wrappers

  datatype Kind = KInt | KBoolean | KFloat | KLong | KShort | KByte | KDouble | KChar | KVoid

  /** A class object; classes are taken to be determined by their names. */
  datatype Type = Primitive(kind: Kind) | ArrayOf(component: Type) | Class(name: string)

  function KindName(k: Kind): string {
    match k
    case KInt => "int"
    case KBoolean => "boolean"
    case KFloat => "float"
    case KLong => "long"
    case KShort => "short"
    case KByte => "byte"
    case KDouble => "double"
    case KChar => "char"
    case KVoid => "void"
  }

  const ABBREVIATIONS: map<string, string> := map[
    "int" := "I", "boolean" := "Z", "float" := "F", "long" := "J", "short" := "S",
    "byte" := "B", "double" := "D", "char" := "C", "void" := "V"
  ]

  function KindOf(c: char): Option<Kind> {
    match c
    case 'I' => Some(KInt)
    case 'Z' => Some(KBoolean)
    case 'F' => Some(KFloat)
    case 'J' => Some(KLong)
    case 'S' => Some(KShort)
    case 'B' => Some(KByte)
    case 'D' => Some(KDouble)
    case 'C' => Some(KChar)
    case 'V' => Some(KVoid)
    case _ => None
  }

  lemma AbbreviationOf(k: Kind)
    ensures KindName(k) in ABBREVIATIONS
    ensures |ABBREVIATIONS[KindName(k)]| == 1 && KindOf(ABBREVIATIONS[KindName(k)][0]) == Some(k)
  {
  }

  function Replace(s: string, from: char, to: char): (r: string)
    ensures |r| == |s| && forall i :: 0 <= i < |s| ==> r[i] == if s[i] == from then to else s[i]
  {
    seq(|s|, i requires 0 <= i < |s| => if s[i] == from then to else s[i])
  }

  /** `separator` stands between package names: '/' in descriptors, '.' in the names of array classes. */
  function Encode(t: Type, separator: char): string {
    match t
    case Primitive(k) => (AbbreviationOf(k); ABBREVIATIONS[KindName(k)])
    case ArrayOf(component) => "[" + Encode(component, separator)
    case Class(name) => "L" + Replace(name, '.', separator) + ";"
  }

  function DescriptorOf(t: Type): string {
    Encode(t, '/')
  }

  /** Class.getName. */
  function NameOf(t: Type): string {
    match t
    case Primitive(k) => KindName(k)
    case ArrayOf(_) => Encode(t, '.')
    case Class(name) => name
  }

  function DescriptorsOf(ts: seq<Type>): string {
    if ts == [] then "" else DescriptorOf(ts[0]) + DescriptorsOf(ts[1..])
  }

  function MethodDescriptor(params: seq<Type>, ret: Type): string {
    "(" + DescriptorsOf(params) + ")" + DescriptorOf(ret)
  }

  /** Names that a JVM class file can hold: no empty name, and none of the characters that end or separate. */
  predicate NameOk(name: string) {
    name != [] && Lacks(name, ';') && Lacks(name, '/') && Lacks(name, '[')
  }

  predicate TypeOk(t: Type) {
    match t
    case Primitive(_) => true
    case ArrayOf(component) => TypeOk(component)
    case Class(name) => NameOk(name)
  }

  predicate TypesOk(ts: seq<Type>) {
    forall k :: 0 <= k < |ts| ==> TypeOk(ts[k])
  }

  /** The letters of section 4.3.2 of the Java Virtual Machine Specification. */
  lemma Letters()
    ensures DescriptorOf(Primitive(KByte)) == "B" && DescriptorOf(Primitive(KChar)) == "C"
    ensures DescriptorOf(Primitive(KDouble)) == "D" && DescriptorOf(Primitive(KFloat)) == "F"
    ensures DescriptorOf(Primitive(KInt)) == "I" && DescriptorOf(Primitive(KLong)) == "J"
    ensures DescriptorOf(Primitive(KShort)) == "S" && DescriptorOf(Primitive(KBoolean)) == "Z"
    ensures DescriptorOf(Primitive(KVoid)) == "V"
    ensures KindName(KByte) == "byte" && KindName(KChar) == "char" && KindName(KDouble) == "double"
    ensures KindName(KFloat) == "float" && KindName(KInt) == "int" && KindName(KLong) == "long"
    ensures KindName(KShort) == "short" && KindName(KBoolean) == "boolean" && KindName(KVoid) == "void"
  {
  }

  lemma DescriptorSamples()
    ensures DescriptorOf(ArrayOf(ArrayOf(Class("a.b.C")))) == "[[La/b/C;"
    ensures NameOf(ArrayOf(ArrayOf(Class("a.b.C")))) == "[[La.b.C;" && NameOf(ArrayOf(Primitive(KInt))) == "[I"
  {
    Letters();
    assert Replace("a.b.C", '.', '/') == "a/b/C" && Replace("a.b.C", '.', '.') == "a.b.C";
  }

  lemma MethodSample()
    ensures MethodDescriptor([Primitive(KInt), Class("a.C")], Primitive(KVoid)) == "(ILa/C;)V"
  {
    Letters();
    assert Replace("a.C", '.', '/') == "a/C";
    var params := [Primitive(KInt), Class("a.C")];
    assert params[1..] == [Class("a.C")] && params[1..][1..] == [];
    assert DescriptorsOf(params[1..]) == "La/C;" + DescriptorsOf(params[1..][1..]);
    assert DescriptorsOf(params) == "I" + DescriptorsOf(params[1..]);
  }

  // A parser for sections 4.3.2 and 4.3.3 of the Java Virtual Machine Specification

  function IndexOf(s: string, c: char): (n: nat)
    ensures n <= |s| && c !in s[..n] && (n < |s| ==> s[n] == c)
  {
    if s == [] || s[0] == c then 0 else 1 + IndexOf(s[1..], c)
  }

  function ParseType(s: string, separator: char): (r: Option<(Type, string)>)
    ensures r.Some? ==> |r.value.1| < |s|
    decreases |s|
  {
    if s == [] then None
    else if s[0] == '[' then
      var r := ParseType(s[1..], separator);
      if r.None? then None else Some((ArrayOf(r.value.0), r.value.1))
    else if s[0] == 'L' then
      var n := IndexOf(s[1..], ';');
      if n == |s| - 1 then None
      else Some((Class(Replace(s[1..][..n], separator, '.')), s[1..][n + 1..]))
    else
      var k := KindOf(s[0]);
      if k.None? then None else Some((Primitive(k.value), s[1..]))
  }

  /** Parameter types up to the closing parenthesis. */
  function ParseTypes(s: string): Option<(seq<Type>, string)>
    decreases |s|
  {
    if s == [] then None
    else if s[0] == ')' then Some(([], s[1..]))
    else
      var first := ParseType(s, '/');
      if first.None? then None
      else
        var rest := ParseTypes(first.value.1);
        if rest.None? then None else Some(([first.value.0] + rest.value.0, rest.value.1))
  }

  function ParseMethod(s: string): Option<((seq<Type>, Type), string)> {
    if s == [] || s[0] != '(' then None
    else
      var params := ParseTypes(s[1..]);
      if params.None? then None
      else
        var ret := ParseType(params.value.1, '/');
        if ret.None? then None else Some(((params.value.0, ret.value.0), ret.value.1))
  }

  // Unique decoding

  lemma {:induction false} IndexOfEnd(s: string, rest: string, c: char)
    requires Lacks(s, c)
    ensures IndexOf(s + [c] + rest, c) == |s|
  {
    if s != [] {
      assert s[0] in s;
      assert (s + [c] + rest)[1..] == s[1..] + [c] + rest;
      IndexOfEnd(s[1..], rest, c);
    }
  }

  lemma ReplaceBack(name: string, separator: char)
    requires NameOk(name) && (separator == '/' || separator == '.')
    ensures Replace(Replace(name, '.', separator), separator, '.') == name
    ensures Lacks(Replace(name, '.', separator), ';')
  {
    forall i | 0 <= i < |name| ensures name[i] != '/' && name[i] != ';' {
      assert name[i] in name;
    }
  }

  /** Whatever follows an encoded type, the parser recovers the type and leaves what follows. */
  lemma {:induction false} ParseEncoded(t: Type, separator: char, rest: string)
    requires TypeOk(t) && (separator == '/' || separator == '.')
    ensures ParseType(Encode(t, separator) + rest, separator) == Some((t, rest))
    decreases t
  {
    var s := Encode(t, separator) + rest;
    match t
    case Primitive(k) =>
      AbbreviationOf(k);
      assert s[1..] == rest;
    case ArrayOf(component) =>
      assert s[1..] == Encode(component, separator) + rest;
      ParseEncoded(component, separator, rest);
    case Class(name) =>
      var inner := Replace(name, '.', separator);
      ReplaceBack(name, separator);
      assert s[1..] == inner + [';'] + rest;
      IndexOfEnd(inner, rest, ';');
      assert s[1..][..|inner|] == inner && s[1..][|inner| + 1..] == rest;
  }

  lemma DescriptorRoundTrip(t: Type, rest: string)
    requires TypeOk(t)
    ensures ParseType(DescriptorOf(t) + rest, '/') == Some((t, rest))
  {
    ParseEncoded(t, '/', rest);
  }

  /** No class descriptor is a proper prefix of another, and none is shared. */
  lemma DescriptorsArePrefixFree(t: Type, u: Type)
    requires TypeOk(t) && TypeOk(u) && DescriptorOf(t) <= DescriptorOf(u)
    ensures t == u
  {
    var rest := DescriptorOf(u)[|DescriptorOf(t)|..];
    assert DescriptorOf(t) + rest == DescriptorOf(u) + "";
    DescriptorRoundTrip(t, rest);
    DescriptorRoundTrip(u, "");
  }

  lemma EncodedIsNotClosing(t: Type)
    ensures DescriptorOf(t) != [] && DescriptorOf(t)[0] != ')'
  {
    if t.Primitive? {
      AbbreviationOf(t.kind);
      assert KindOf(')') == None;
    }
  }

  lemma {:induction false} ParamsRoundTrip(params: seq<Type>, rest: string)
    requires TypesOk(params)
    ensures ParseTypes(DescriptorsOf(params) + ")" + rest) == Some((params, rest))
  {
    if params == [] {
      assert ("" + ")" + rest)[1..] == rest;
    } else {
      var tail := DescriptorsOf(params[1..]) + ")" + rest;
      assert DescriptorsOf(params) + ")" + rest == DescriptorOf(params[0]) + tail;
      EncodedIsNotClosing(params[0]);
      DescriptorRoundTrip(params[0], tail);
      ParamsRoundTrip(params[1..], rest);
      assert (DescriptorOf(params[0]) + tail)[0] == DescriptorOf(params[0])[0];
      assert [params[0]] + params[1..] == params;
    }
  }

  lemma MethodRoundTrip(params: seq<Type>, ret: Type, rest: string)
    requires TypesOk(params) && TypeOk(ret)
    ensures ParseMethod(MethodDescriptor(params, ret) + rest) == Some(((params, ret), rest))
  {
    var s := MethodDescriptor(params, ret) + rest;
    var tail := DescriptorOf(ret) + rest;
    assert s == "(" + (DescriptorsOf(params) + ")" + tail);
    assert s[0] == '(' && s[1..] == DescriptorsOf(params) + ")" + tail;
    ParamsRoundTrip(params, tail);
    DescriptorRoundTrip(ret, rest);
  }

  // Names

  /** Names Java source can give a class: no keyword stands alone, and nothing the keys of Reflect use as
  punctuation. */
  predicate JavaName(name: string) {
    && NameOk(name)
    && Lacks(name, ',') && Lacks(name, '(') && Lacks(name, ')') && Lacks(name, '*')
    && name !in ABBREVIATIONS && name != "null"
  }

  predicate JavaType(t: Type) {
    match t
    case Primitive(_) => true
    case ArrayOf(component) => JavaType(component)
    case Class(name) => JavaName(name)
  }

  predicate JavaTypes(ts: seq<Type>) {
    forall k :: 0 <= k < |ts| ==> JavaType(ts[k])
  }

  lemma {:induction false} JavaTypeIsOk(t: Type)
    requires JavaType(t)
    ensures TypeOk(t)
  {
    if t.ArrayOf? {
      JavaTypeIsOk(t.component);
    }
  }

  /** Types are told apart by their names. */
  lemma NameIsInjective(t: Type, u: Type)
    requires JavaType(t) && JavaType(u) && NameOf(t) == NameOf(u)
    ensures t == u
  {
    JavaTypeIsOk(t);
    JavaTypeIsOk(u);
    NamesAgree(t, u);
    NotLookalikes(t, u);
  }

  /** Only array names start with a bracket, and only primitives have names with an abbreviation. */
  lemma NameShape(t: Type)
    requires JavaType(t)
    ensures NameOf(t) != [] && (NameOf(t)[0] == '[' <==> t.ArrayOf?)
    ensures NameOf(t) in ABBREVIATIONS <==> t.Primitive?
  {
    if t.Class? {
      assert t.name[0] in t.name;
    } else if t.ArrayOf? {
      assert forall a :: a in ABBREVIATIONS ==> a[0] != '[';
    }
  }

  /** A primitive and the class that has its name. */
  predicate Lookalikes(t: Type, u: Type) {
    (t.Primitive? && u == Class(KindName(t.kind))) || (u.Primitive? && t == Class(KindName(u.kind)))
  }

  /** Exactly which types have one name, for all names that a class file can hold. */
  lemma NamesAgree(t: Type, u: Type)
    requires TypeOk(t) && TypeOk(u)
    ensures NameOf(t) == NameOf(u) <==> t == u || Lookalikes(t, u)
  {
    if NameOf(t) == NameOf(u) {
      NameStart(t);
      NameStart(u);
      if t.ArrayOf? && u.ArrayOf? {
        assert Encode(t, '.') + "" == Encode(u, '.') + "";
        ParseEncoded(t, '.', "");
        ParseEncoded(u, '.', "");
      } else if t.Primitive? && u.Primitive? {
        AbbreviationOf(t.kind);
        AbbreviationOf(u.kind);
      }
    }
  }

  lemma NameStart(t: Type)
    requires TypeOk(t)
    ensures NameOf(t) != [] && (NameOf(t)[0] == '[' <==> t.ArrayOf?)
  {
    if t.Class? {
      assert t.name[0] in t.name;
    }
  }

  predicate SameNames(ts: seq<Type>, us: seq<Type>) {
    |ts| == |us| && forall k :: 0 <= k < |ts| ==> NameOf(ts[k]) == NameOf(us[k])
  }

  /** Position by position the types are equal or lookalikes. */
  predicate Alike(ts: seq<Type>, us: seq<Type>) {
    |ts| == |us| && forall k :: 0 <= k < |ts| ==> ts[k] == us[k] || Lookalikes(ts[k], us[k])
  }

  lemma SameNamesAreAlike(ts: seq<Type>, us: seq<Type>)
    requires TypesOk(ts) && TypesOk(us)
    ensures SameNames(ts, us) <==> Alike(ts, us)
  {
    if |ts| == |us| {
      forall k | 0 <= k < |ts| ensures NameOf(ts[k]) == NameOf(us[k]) <==> ts[k] == us[k] || Lookalikes(ts[k], us[k]) {
        NamesAgree(ts[k], us[k]);
      }
    }
  }

  /** Two methods share a descriptor exactly when their parameter and return types are the same. */
  lemma DescriptorsAgree(params: seq<Type>, ret: Type, params': seq<Type>, ret': Type)
    requires TypesOk(params) && TypesOk(params') && TypeOk(ret) && TypeOk(ret')
    ensures MethodDescriptor(params, ret) == MethodDescriptor(params', ret') <==> params == params' && ret == ret'
  {
    if MethodDescriptor(params, ret) == MethodDescriptor(params', ret') {
      MethodRoundTrip(params, ret, "");
      MethodRoundTrip(params', ret', "");
    }
  }

  /** Two methods whose types differ only in that one has a primitive where the other has its lookalike. */
  predicate Confusable(params: seq<Type>, ret: Type, params': seq<Type>, ret': Type) {
    Alike(params + [ret], params' + [ret']) && !(params == params' && ret == ret')
  }

  /** That two methods share a descriptor exactly when their parameter and return types have the same names
  is true of all methods but the confusable ones. */
  lemma SharedDescriptor(params: seq<Type>, ret: Type, params': seq<Type>, ret': Type)
    requires TypesOk(params) && TypesOk(params') && TypeOk(ret) && TypeOk(ret')
    ensures (MethodDescriptor(params, ret) == MethodDescriptor(params', ret')
             <==> SameNames(params + [ret], params' + [ret']))
            <==> !Confusable(params, ret, params', ret')
  {
    DescriptorsAgree(params, ret, params', ret');
    SameNamesAreAlike(params + [ret], params' + [ret']);
  }

  /** `int` and a class of that name have one name and two descriptors. */
  lemma IntAndClassInt()
    ensures var (t, u) := (Primitive(KInt), Class("int"));
            && TypeOk(t) && TypeOk(u) && NameOf(t) == NameOf(u)
            && DescriptorOf(t) == "I" && DescriptorOf(u) == "Lint;"
            && Confusable([t], t, [u], t)
  {
  }

  lemma JavaTypesNeverConfusable(params: seq<Type>, ret: Type, params': seq<Type>, ret': Type)
    requires JavaTypes(params + [ret]) && JavaTypes(params' + [ret'])
    ensures !Confusable(params, ret, params', ret')
  {
    var ts, us := params + [ret], params' + [ret'];
    if Alike(ts, us) {
      forall k | 0 <= k < |ts| ensures ts[k] == us[k] {
        NotLookalikes(ts[k], us[k]);
      }
      assert ts == us && params == ts[..|ts| - 1] && params' == us[..|us| - 1];
      assert ret == ts[|ts| - 1] && ret' == us[|us| - 1];
    }
  }

  lemma NotLookalikes(t: Type, u: Type)
    requires JavaType(t) && JavaType(u)
    ensures !Lookalikes(t, u)
  {
    if t.Primitive? {
      AbbreviationOf(t.kind);
    }
    if u.Primitive? {
      AbbreviationOf(u.kind);
    }
  }
}
