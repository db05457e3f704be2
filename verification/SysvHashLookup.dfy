/** Name lookup through `.hash`: a bucket and a linked chain, ended by index 0. */
module SysvHashLookup {
  import opened CStrings
  import opened SymbolTable
  import opened SysvHash
  import opened Wrappers

  /** Where `k` steps along the chain links lead from symbol `i`; 0 is the end and stays there. */
  function Walk(chains: seq<nat>, i: nat, k: nat): nat
    decreases k
  {
    if k == 0 || i == 0 || i >= |chains| then i else Walk(chains, chains[i], k - 1)
  }

  lemma {:induction false} WalkOneMore(chains: seq<nat>, i: nat, k: nat)
    ensures Walk(chains, i, k + 1) == Walk(chains, Walk(chains, i, k), 1)
    decreases k
  {
    if k > 0 && i != 0 && i < |chains| {
      WalkOneMore(chains, chains[i], k - 1);
    }
  }

  lemma {:induction false} EndIsForGood(chains: seq<nat>, i: nat, k: nat, n: nat)
    requires Walk(chains, i, k) == 0 && k <= n
    ensures Walk(chains, i, n) == 0
    decreases k
  {
    if k > 0 && i != 0 && i < |chains| {
      EndIsForGood(chains, chains[i], k - 1, n - 1);
    }
  }

  ghost predicate Ends(chains: seq<nat>, i: nat) {
    exists k: nat :: Walk(chains, i, k) == 0
  }

  /** All that the lookup needs to stay in bounds and to stop: no chain runs off the table or in a circle. */
  ghost predicate ChainsOk(elf: Elf) {
    && Terminated(elf.dynstr)
    && |elf.sysv.buckets| > 0
    && 0 < |elf.sysv.chains| <= |elf.dynsym|
    && (forall c :: 0 <= c < |elf.sysv.chains| ==> elf.sysv.chains[c] < |elf.sysv.chains|)
    && (forall b :: 0 <= b < |elf.sysv.buckets| ==>
        elf.sysv.buckets[b] < |elf.sysv.chains| && Ends(elf.sysv.chains, elf.sysv.buckets[b]))
  }

  function Head(elf: Elf, key: CString): nat
    requires |elf.sysv.buckets| > 0
  {
    elf.sysv.buckets[SysvHashOf(key) % |elf.sysv.buckets|]
  }

  /** The symbol `k` links down the chain that the name hashes to; 0 past its end. */
  function Visited(elf: Elf, key: CString, k: nat): (i: nat)
    requires |elf.sysv.buckets| > 0
  {
    Walk(elf.sysv.chains, Head(elf, key), k)
  }

  lemma HeadFacts(elf: Elf, key: CString)
    requires ChainsOk(elf)
    ensures Head(elf, key) < |elf.sysv.chains| && Ends(elf.sysv.chains, Head(elf, key))
  {
    var b := SysvHashOf(key) % |elf.sysv.buckets|;
    assert 0 <= b < |elf.sysv.buckets|;
  }

  /** Whether the symbol at position `k` of the chain has the name. */
  predicate Matches(elf: Elf, key: CString, k: nat)
    requires |elf.sysv.buckets| > 0
  {
    var i := Visited(elf, key, k);
    0 < i < |elf.dynsym| && elf.IsNamed(i, key)
  }

  ghost predicate MatchesFirst(elf: Elf, key: CString, k: nat)
    requires |elf.sysv.buckets| > 0
  {
    Matches(elf, key, k) && forall j: nat :: j < k ==> !Matches(elf, key, j)
  }

  /** The answer of a search down the chain: its first symbol with the name, and none only when it has none. */
  ghost predicate IsAnswer(elf: Elf, key: CString, r: Option<nat>)
    requires |elf.sysv.buckets| > 0
  {
    match r
    case None => forall k: nat :: !Matches(elf, key, k)
    case Some(i) => exists k: nat :: MatchesFirst(elf, key, k) && i == Visited(elf, key, k)
  }

  method TestSymbol(elf: Elf, i: nat, key: CString) returns (hit: bool)
    requires Terminated(elf.dynstr) && i < |elf.dynsym|
    ensures hit <==> elf.IsNamed(i, key)
  {
    if elf.dynsym[i].stName >= |elf.dynstr| {
      return false;
    }
    hit := EqualAt(elf.dynstr, elf.dynsym[i].stName, key);
  }

  lemma NoneLater(elf: Elf, key: CString, end: nat)
    requires ChainsOk(elf) && Visited(elf, key, end) == 0
    requires forall j: nat :: j < end ==> !Matches(elf, key, j)
    ensures IsAnswer(elf, key, None)
  {
    forall k: nat ensures !Matches(elf, key, k) {
      if k >= end {
        EndIsForGood(elf.sysv.chains, Head(elf, key), end, k);
      }
    }
  }

  method FindSymbol(elf: Elf, key: CString) returns (r: Option<nat>)
    requires ChainsOk(elf)
    ensures IsAnswer(elf, key, r)
  {
    var hash := ComputeSysvHash(key);
    var i := elf.sysv.buckets[hash % |elf.sysv.buckets|];
    HeadFacts(elf, key);
    ghost var end: nat :| Walk(elf.sysv.chains, Head(elf, key), end) == 0;
    ghost var k: nat := 0;
    while i != 0
      invariant i == Visited(elf, key, k) && i < |elf.sysv.chains|
      invariant k <= end
      invariant forall j: nat :: j < k ==> !Matches(elf, key, j)
      decreases end - k
    {
      var hit := TestSymbol(elf, i, key);
      if hit {
        assert MatchesFirst(elf, key, k);
        return Some(i);
      }
      if k == end {
        assert false;
      }
      WalkOneMore(elf.sysv.chains, Head(elf, key), k);
      i := elf.sysv.chains[i];
      k := k + 1;
    }
    NoneLater(elf, key, k);
    return None;
  }

  /** Every named symbol is on the chain of its own name. */
  ghost predicate Complete(elf: Elf)
    requires |elf.sysv.buckets| > 0
  {
    forall i: nat :: 0 < i < |elf.dynsym| && elf.HasName(i) ==> OnChain(elf, i)
  }

  ghost predicate OnChain(elf: Elf, i: nat)
    requires |elf.sysv.buckets| > 0 && i < |elf.dynsym| && elf.HasName(i)
  {
    var bucket := elf.sysv.buckets[SysvHashOf(elf.NameOf(i)) % |elf.sysv.buckets|];
    exists k: nat :: Walk(elf.sysv.chains, bucket, k) == i
  }

  /** On a complete table the search fails exactly for the names no symbol has. */
  lemma CompleteSearchFindsAll(elf: Elf, key: CString, r: Option<nat>)
    requires ChainsOk(elf) && Complete(elf) && IsAnswer(elf, key, r)
    ensures r.Some? <==> exists i :: 0 < i < |elf.dynsym| && elf.IsNamed(i, key)
  {
    if i :| 0 < i < |elf.dynsym| && elf.IsNamed(i, key) {
      assert OnChain(elf, i);
      var k: nat :| Walk(elf.sysv.chains, elf.sysv.buckets[SysvHashOf(key) % |elf.sysv.buckets|], k) == i;
      assert Visited(elf, key, k) == i;
      assert Matches(elf, key, k);
    }
  }

  /** The search has one answer only. */
  lemma AnswerIsUnique(elf: Elf, key: CString, r: Option<nat>, s: Option<nat>)
    requires |elf.sysv.buckets| > 0 && IsAnswer(elf, key, r) && IsAnswer(elf, key, s)
    ensures r == s
  {
    if r.Some? && s.Some? {
      var j: nat :| MatchesFirst(elf, key, j) && r.value == Visited(elf, key, j);
      var k: nat :| MatchesFirst(elf, key, k) && s.value == Visited(elf, key, k);
      assert j <= k && k <= j;
    }
  }
}
