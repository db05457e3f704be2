/** The id that LSPosed prints into a framework hook, and how it is read back after a hot reload. */
module HookIdentifier {
  import opened Priority
  import opened Text
  import opened Wrappers

  datatype Identifier = Identifier(hookType: HookType, priority: Int32, random: string)

  /** Two identifiers are the same hook whatever their random parts. */
  predicate SameHook(a: Identifier, b: Identifier) {
    a.hookType == b.hookType && a.priority == b.priority
  }

  // Decimal numbers

  predicate IsDigit(c: char) {
    '0' <= c <= '9'
  }

  function Digit(n: nat): (c: char)
    requires n < 10
    ensures IsDigit(c)
  {
    '0' + n as char
  }

  function PrintNat(n: nat): (s: string)
    ensures |s| > 0 && forall i :: 0 <= i < |s| ==> IsDigit(s[i])
  {
    if n < 10 then [Digit(n)] else PrintNat(n / 10) + [Digit(n % 10)]
  }

  function PrintInt(i: int): string {
    if i < 0 then "-" + PrintNat(-i) else PrintNat(i)
  }

  function ParseNat(s: string): Option<nat>
    decreases |s|
  {
    if s == [] then None
    else
      var last := s[|s| - 1];
      if !IsDigit(last) then None
      else if |s| == 1 then Some((last - '0') as nat)
      else
        var front := ParseNat(s[..|s| - 1]);
        if front.None? then None else Some(front.value * 10 + (last - '0') as nat)
  }

  function InInt32(i: int): Option<Int32> {
    if INT_MIN <= i <= INT_MAX then Some(i) else None
  }

  /** toIntOrNull on ASCII digits: an optional sign, at least one digit, and a value that fits. */
  function ParseInt(s: string): Option<Int32> {
    if s == [] then None
    else if s[0] == '-' then
      var n := ParseNat(s[1..]);
      if n.None? then None else InInt32(0 - n.value)
    else
      var n := ParseNat(if s[0] == '+' then s[1..] else s);
      if n.None? then None else InInt32(n.value)
  }

  lemma {:induction false} ParsePrintNat(n: nat)
    ensures ParseNat(PrintNat(n)) == Some(n)
  {
    if n >= 10 {
      ParsePrintNat(n / 10);
      var s := PrintNat(n);
      assert s[..|s| - 1] == PrintNat(n / 10);
    }
  }

  lemma ParseNegative(n: nat)
    ensures ParseInt("-" + PrintNat(n)) == InInt32(0 - n)
  {
    assert ("-" + PrintNat(n))[1..] == PrintNat(n);
    ParsePrintNat(n);
  }

  lemma ParsePositive(n: nat)
    ensures ParseInt(PrintNat(n)) == InInt32(n)
  {
    assert IsDigit(PrintNat(n)[0]);
    ParsePrintNat(n);
  }

  lemma ParsePrintInt(i: Int32)
    ensures ParseInt(PrintInt(i)) == Some(i)
  {
    if i < 0 {
      ParseNegative(0 - i);
    } else {
      ParsePositive(i);
    }
  }

  predicate NoColon(s: string) {
    Lacks(s, ':')
  }

  lemma PrintIntHasNoColon(i: int)
    ensures NoColon(PrintInt(i))
  {
  }

  // The id

  function TypeName(t: HookType): string {
    match t
    case Before => "BEFORE"
    case After => "AFTER"
  }

  /** HookType.valueOf, its exception as None. */
  function ParseType(s: string): Option<HookType> {
    if s == "BEFORE" then Some(Before) else if s == "AFTER" then Some(After) else None
  }

  predicate IsBlank(s: string) {
    forall i :: 0 <= i < |s| ==> s[i] in {' ', '\t', '\n', '\r'}
  }

  function ToId(id: Identifier): string {
    TypeName(id.hookType) + ":" + (PrintInt(id.priority) + ":" + id.random)
  }

  /** `generated` is the random string generated when the id has none of its own. */
  function FromId(s: string, generated: string): Option<Identifier> {
    var fields := Split(s, ':');
    var hookType := ParseType(fields[0]);
    var priority := if |fields| > 1 then ParseInt(fields[1]) else None;
    var random := if |fields| > 2 then fields[2] else "";
    if hookType.None? || priority.None? then None
    else Some(Identifier(hookType.value, priority.value, if IsBlank(random) then generated else random))
  }

  lemma FieldsOfId(id: Identifier)
    requires NoColon(id.random)
    ensures Split(ToId(id), ':') == [TypeName(id.hookType), PrintInt(id.priority), id.random]
  {
    var t, p, r := TypeName(id.hookType), PrintInt(id.priority), id.random;
    assert ToId(id) == t + [':'] + (p + [':'] + r);
    SplitField(t, p + [':'] + r, ':');
    PrintIntHasNoColon(id.priority);
    SplitField(p, r, ':');
    SplitLast(r, ':');
  }

  /** Reading back a printed id restores all three parts, for every Int priority. */
  lemma IdRoundTrip(id: Identifier, generated: string)
    requires NoColon(id.random) && !IsBlank(id.random)
    ensures FromId(ToId(id), generated) == Some(id)
  {
    FieldsOfId(id);
    ParsePrintInt(id.priority);
  }

  /** A printed id matches a requested hook exactly when type and priority agree. */
  lemma PrintedIdMatches(printed: Identifier, requested: Identifier, generated: string)
    requires NoColon(printed.random) && !IsBlank(printed.random)
    ensures FromId(ToId(printed), generated).Some?
    ensures SameHook(FromId(ToId(printed), generated).value, requested)
            <==> printed.hookType == requested.hookType && printed.priority == requested.priority
  {
    IdRoundTrip(printed, generated);
  }

  // Concrete ids

  /** Decimal: a digit more stands behind, and the digits are these. */
  lemma DecimalIs(n: nat, d: nat)
    requires d < 10
    ensures PrintNat(d) == ["0123456789"[d]]
    ensures n > 0 ==> PrintNat(10 * n + d) == PrintNat(n) + ["0123456789"[d]]
  {
    assert "0123456789"[d] == '0' + d as char;
  }

  lemma DecimalSamples()
    ensures PrintInt(0) == "0" && PrintInt(-1) == "-1" && PrintInt(50) == "50" && PrintInt(-214) == "-214"
  {
    DecimalIs(0, 0);
    DecimalIs(0, 1);
    DecimalIs(0, 5);
    DecimalIs(5, 0);
    DecimalIs(0, 2);
    DecimalIs(2, 1);
    DecimalIs(21, 4);
  }

  lemma IdSample()
    ensures ToId(Identifier(Before, 50, "0a")) == "BEFORE:50:0a" && ToId(Identifier(After, -1, "0a")) == "AFTER:-1:0a"
  {
    DecimalSamples();
  }

  /** What can be missing from an id: a blank or absent random part is made up, and without a known type or a
  number there is no identifier. */
  lemma PartialIds(t: string, p: string, random: string, generated: string)
    requires Lacks(t, ':') && Lacks(p, ':') && Lacks(random, ':')
    ensures FromId(t, generated) == None
    ensures FromId(t + ":" + p, generated) == FromId(t + ":" + p + ":", generated)
    ensures var id := FromId(t + ":" + p + ":" + random, generated);
            && (id.Some? <==> (t == "BEFORE" || t == "AFTER") && ParseInt(p).Some?)
            && (id.Some? ==> id.value.random == if IsBlank(random) then generated else random)
            && (id.Some? ==> (id.value.hookType == Before <==> t == "BEFORE") && Some(id.value.priority) == ParseInt(p))
  {
    SplitLast(t, ':');
    SplitField(t, p, ':');
    SplitLast(p, ':');
    SplitLast(random, ':');
    SplitThree(t, p, random);
    SplitThree(t, p, "");
    SplitLast("", ':');
    assert t + ":" + p == t + [':'] + p;
    assert t + ":" + p + ":" == t + ":" + p + ":" + "";
  }

  lemma SplitThree(t: string, p: string, random: string)
    requires Lacks(t, ':') && Lacks(p, ':') && Lacks(random, ':')
    ensures Split(t + ":" + p + ":" + random, ':') == [t, p, random]
  {
    assert t + ":" + p + ":" + random == t + [':'] + (p + [':'] + random);
    SplitField(t, p + [':'] + random, ':');
    SplitField(p, random, ':');
    SplitLast(random, ':');
  }

  // The random part

  function HexDigit(n: nat): char
    requires n < 16
  {
    if n < 10 then '0' + n as char else 'a' + (n - 10) as char
  }

  /** Two lower-case hex digits a byte. */
  function Hex(bytes: seq<nat>): (s: string)
    requires forall i :: 0 <= i < |bytes| ==> bytes[i] < 256
    ensures |s| == 2 * |bytes|
    ensures forall i :: 0 <= i < |s| ==> IsDigit(s[i]) || 'a' <= s[i] <= 'f'
  {
    if bytes == [] then "" else [HexDigit(bytes[0] / 16), HexDigit(bytes[0] % 16)] + Hex(bytes[1..])
  }

  lemma HexSample()
    ensures Hex([0xab, 5]) == "ab05"
  {
    assert [0xab, 5][1..] == [5] && [5][1..] == [];
    assert Hex([]) == "";
    assert Hex([5]) == "05";
  }

  /** What generateRandomString yields can always be read back. */
  lemma RandomPartIsReadable(bytes: seq<nat>)
    requires |bytes| == 16 && forall i :: 0 <= i < |bytes| ==> bytes[i] < 256
    ensures NoColon(Hex(bytes)) && !IsBlank(Hex(bytes))
  {
    assert |Hex(bytes)| == 32;
    assert IsDigit(Hex(bytes)[0]) || 'a' <= Hex(bytes)[0] <= 'f';
  }
}
