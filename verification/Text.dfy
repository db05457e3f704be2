/** Splitting and joining strings at a separator. */
module Text {
  predicate Lacks(s: string, sep: char) {
    sep !in s
  }

  function Split(s: string, sep: char): (fields: seq<string>)
    ensures |fields| > 0
  {
    if s == [] then [[]]
    else
      var rest := Split(s[1..], sep);
      if s[0] == sep then [[]] + rest else [[s[0]] + rest[0]] + rest[1..]
  }

  lemma {:induction false} SplitField(field: string, rest: string, sep: char)
    requires Lacks(field, sep)
    ensures Split(field + [sep] + rest, sep) == [field] + Split(rest, sep)
  {
    if field == [] {
      assert (field + [sep] + rest)[1..] == rest;
    } else {
      assert (field + [sep] + rest)[1..] == field[1..] + [sep] + rest;
      SplitField(field[1..], rest, sep);
      assert [field[0]] + field[1..] == field;
    }
  }

  lemma {:induction false} SplitLast(field: string, sep: char)
    requires Lacks(field, sep)
    ensures Split(field, sep) == [field]
  {
    if field != [] {
      SplitLast(field[1..], sep);
      assert [field[0]] + field[1..] == field;
    }
  }

  function Join(fields: seq<string>, sep: char): string {
    if fields == [] then []
    else if |fields| == 1 then fields[0]
    else fields[0] + [sep] + Join(fields[1..], sep)
  }

  predicate AllLack(fields: seq<string>, sep: char) {
    forall k :: 0 <= k < |fields| ==> Lacks(fields[k], sep)
  }

  lemma {:induction false} SplitJoin(fields: seq<string>, sep: char)
    requires fields != [] && AllLack(fields, sep)
    ensures Split(Join(fields, sep), sep) == fields
  {
    if |fields| == 1 {
      SplitLast(fields[0], sep);
    } else {
      SplitJoin(fields[1..], sep);
      SplitField(fields[0], Join(fields[1..], sep), sep);
    }
  }

  lemma {:induction false} SplitBoth(a: string, b: string, sep: char)
    ensures Split(a + [sep] + b, sep) == Split(a, sep) + Split(b, sep)
  {
    if a == [] {
      assert (a + [sep] + b)[1..] == b;
    } else {
      assert (a + [sep] + b)[1..] == a[1..] + [sep] + b;
      SplitBoth(a[1..], b, sep);
    }
  }

  lemma JoinFirst(field: string, rest: seq<string>, c: char, sep: char)
    ensures Join([[c] + field] + rest, sep) == [c] + Join([field] + rest, sep)
  {
    assert ([[c] + field] + rest)[1..] == rest == ([field] + rest)[1..];
  }

  /** Joining undoes splitting, so strings are told apart by their fields. */
  lemma {:induction false} JoinSplit(s: string, sep: char)
    ensures Join(Split(s, sep), sep) == s
  {
    if s != [] {
      var rest := Split(s[1..], sep);
      JoinSplit(s[1..], sep);
      if s[0] == sep {
        assert ([[]] + rest)[1..] == rest;
      } else {
        assert [rest[0]] + rest[1..] == rest;
        JoinFirst(rest[0], rest[1..], s[0], sep);
      }
    }
  }

  /** The fields of all the given strings. */
  function Cut(fields: seq<string>, sep: char): seq<string> {
    if fields == [] then [] else Split(fields[0], sep) + Cut(fields[1..], sep)
  }

  lemma {:induction false} NothingToCut(fields: seq<string>, sep: char)
    requires AllLack(fields, sep)
    ensures Cut(fields, sep) == fields
  {
    if fields != [] {
      SplitLast(fields[0], sep);
      NothingToCut(fields[1..], sep);
    }
  }

  lemma {:induction false} SplitJoinCut(fields: seq<string>, sep: char)
    requires fields != []
    ensures Split(Join(fields, sep), sep) == Cut(fields, sep)
  {
    if |fields| == 1 {
      assert Cut(fields[1..], sep) == [];
    } else {
      SplitJoinCut(fields[1..], sep);
      SplitBoth(fields[0], Join(fields[1..], sep), sep);
    }
  }

  /** Lists of any non-empty strings have one join exactly when they fall into the same fields. */
  lemma JoinsAgree(a: seq<string>, b: seq<string>, sep: char)
    requires (forall k :: 0 <= k < |a| ==> a[k] != []) && (forall k :: 0 <= k < |b| ==> b[k] != [])
    ensures Join(a, sep) == Join(b, sep) <==> Cut(a, sep) == Cut(b, sep)
  {
    if a != [] && b != [] {
      SplitJoinCut(a, sep);
      SplitJoinCut(b, sep);
      JoinSplit(Join(a, sep), sep);
      JoinSplit(Join(b, sep), sep);
    }
  }

  /** Lists of non-empty fields are told apart by their joins. */
  lemma {:induction false} JoinIsInjective(a: seq<string>, b: seq<string>, sep: char)
    requires AllLack(a, sep) && AllLack(b, sep)
    requires (forall k :: 0 <= k < |a| ==> a[k] != []) && (forall k :: 0 <= k < |b| ==> b[k] != [])
    requires Join(a, sep) == Join(b, sep)
    ensures a == b
  {
    if a != [] && b != [] {
      SplitJoin(a, sep);
      SplitJoin(b, sep);
    }
  }

  /** The part before the first occurrence of a separator is determined by the whole. */
  lemma HeadIsDetermined(a: string, x: string, b: string, y: string, sep: char)
    requires Lacks(a, sep) && Lacks(b, sep) && a + [sep] + x == b + [sep] + y
    ensures a == b && x == y
  {
    var s := a + [sep] + x;
    SplitField(a, x, sep);
    SplitField(b, y, sep);
    assert a == Split(s, sep)[0] == b;
    assert s[|a| + 1..] == x && s[|b| + 1..] == y;
  }
}
