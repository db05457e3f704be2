/** A table on which the SYSV search fails a name that a defined symbol has. */
module SysvExample {
  import opened CStrings
  import opened SymbolTable
  import opened Wrappers
  import Search = SymbolSearch
  import Sysv = SysvHashLookup

  const DYNSTR: seq<Byte> := [0, 97, 0]

  /** Nothing, an import `a` and a definition of `a`. */
  const DYNSYM := [
    Sym(0, 0, 0, 0, 0),
    Sym(1, 0x12, 0, 0, 0),
    Sym(1, 0x12, 7, 0x100, 16)
  ]

  /** One bucket, whose chain has the import before the definition. */
  const TABLE := Elf(32, false, DYNSYM, DYNSTR, GnuHash(1, 0, [], [], []), SysvHash([1], [0, 2, 0]))

  const KEY: CString := [97]

  lemma Names()
    ensures TABLE.IsNamed(1, KEY) && TABLE.IsNamed(2, KEY)
  {
    CStrUnique(DYNSTR[1..], 1);
  }

  lemma Chain(key: CString)
    ensures Sysv.Visited(TABLE, key, 0) == 1 && Sysv.Visited(TABLE, key, 1) == 2 && Sysv.Visited(TABLE, key, 2) == 0
  {
    assert Sysv.Head(TABLE, key) == 1;
  }

  /** Every chain ends and every symbol is on its own chain. */
  lemma TableIsLoaded()
    ensures Search.Loaded(TABLE) && Sysv.Complete(TABLE)
  {
    assert Sysv.Walk([0, 2, 0], 1, 2) == 0;
    assert Sysv.Ends([0, 2, 0], 1);
    Chain(TABLE.NameOf(1));
    Chain(TABLE.NameOf(2));
    assert Sysv.OnChain(TABLE, 1) && Sysv.OnChain(TABLE, 2);
  }

  /** The name is defined, and the search can only answer that it is not there. */
  lemma ImportHidesDefinition(r: Option<nat>)
    ensures Search.Loaded(TABLE) && Sysv.Complete(TABLE) && !TABLE.IsDefined(0)
    ensures Search.SomeDefinedNamed(TABLE, KEY) && Search.ImportComesFirst(TABLE, KEY)
    ensures Search.IsFoundByName(TABLE, KEY, r) <==> r == None
  {
    TableIsLoaded();
    Names();
    Chain(KEY);
    assert TABLE.IsDefined(2);
    assert Sysv.MatchesFirst(TABLE, KEY, 0);
    assert Sysv.IsAnswer(TABLE, KEY, Some(1));
    assert Search.OnlyDefined(TABLE, Some(1)) == None;
    forall s: Option<nat> | Sysv.IsAnswer(TABLE, KEY, s) ensures s == Some(1) {
      Sysv.AnswerIsUnique(TABLE, KEY, s, Some(1));
    }
  }
}
