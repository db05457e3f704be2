/** NUL-terminated strings, and the two matching helpers of xdl_util.c.

A C string is its bytes up to the terminator; the terminator is what `At` reads one past the end. */
module CStrings {
  newtype Byte = b: int | 0 <= b < 256

  /** A C string as a value: the bytes before its terminator. */
  type CString = s: seq<Byte> | forall i :: 0 <= i < |s| ==> s[i] != 0

  /** The byte a C program reads at index `i` of a string: the terminator sits right after the last byte. */
  function At(s: CString, i: nat): Byte
    requires i <= |s|
  {
    if i < |s| then s[i] else 0
  }

  /** The string that starts at the beginning of `mem`. */
  function CStr(mem: seq<Byte>): (s: CString)
    ensures |s| <= |mem| && s == mem[..|s|]
    ensures |s| < |mem| ==> mem[|s|] == 0
  {
    if mem == [] || mem[0] == 0 then [] else [mem[0]] + CStr(mem[1..])
  }

  /** Whether a string table ends in a terminator, so that no string in it runs off its end. */
  predicate Terminated(mem: seq<Byte>) {
    |mem| > 0 && mem[|mem| - 1] == 0
  }

  lemma {:induction false} CStrUnique(mem: seq<Byte>, n: nat)
    requires n < |mem| && mem[n] == 0
    requires forall i :: 0 <= i < n ==> mem[i] != 0
    ensures CStr(mem) == mem[..n]
  {
    if n > 0 {
      CStrUnique(mem[1..], n - 1);
    }
  }

  /** strcmp of the string at `mem[off..]` with `key`, for equality; every read stays inside `mem`. */
  method EqualAt(mem: seq<Byte>, off: nat, key: CString) returns (equal: bool)
    requires Terminated(mem) && off < |mem|
    ensures equal <==> CStr(mem[off..]) == key
  {
    var i := 0;
    ghost var s := CStr(mem[off..]);
    while true
      invariant i <= |key| && off + i < |mem|
      invariant forall k :: 0 <= k < i ==> mem[off + k] == key[k]
      invariant i <= |s|
      decreases |key| - i
    {
      assert i < |s| ==> mem[off..][i] == s[i];
      if mem[off + i] != At(key, i) {
        return false;
      }
      if mem[off + i] == 0 {
        CStrUnique(mem[off..], i);
        return true;
      }
      i := i + 1;
    }
  }

  method StartsWith(str: CString, start: CString) returns (r: bool)
    ensures r <==> start <= str
  {
    var i := 0;
    while At(str, i) != 0 && At(str, i) == At(start, i)
      invariant i <= |str| && i <= |start|
      invariant str[..i] == start[..i]
      decreases |str| - i
    {
      i := i + 1;
    }
    return At(start, i) == 0;
  }

  ghost predicate IsSuffix(ending: CString, str: CString) {
    exists front: seq<Byte> :: str == front + ending
  }

  method EndsWith(str: CString, ending: CString) returns (r: bool)
    ensures r <==> IsSuffix(ending, str)
  {
    if |ending| > |str| {
      return false;
    }
    var k := |str| - |ending|;
    assert str == str[..k] + str[k..];
    return str[k..] == ending;
  }
}
