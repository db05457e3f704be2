/** The two searches xDL offers over a loaded symbol table: by name, with the GNU section first and
the SYSV section as fallback, and by address. */
module SymbolSearch {
  import opened CStrings
  import opened SymbolTable
  import opened Words
  import opened Wrappers
  import Gnu = GnuHashLookup
  import Sysv = SysvHashLookup

  ghost predicate Loaded(elf: Elf) {
    && (elf.bits == 32 || elf.bits == 64)
    && (|elf.gnu.buckets| > 0 ==> Gnu.WellFormed(elf))
    && (|elf.sysv.buckets| > 0 ==> Sysv.ChainsOk(elf))
  }

  /** The symbol a name search settles on, before its address is resolved. */
  ghost predicate IsFoundByName(elf: Elf, key: CString, r: Option<nat>)
    requires Loaded(elf)
  {
    var byGnu := if |elf.gnu.buckets| > 0 then elf.ScanByName(key, elf.gnu.symoffset, |elf.dynsym|) else None;
    if byGnu.Some? then r == (if elf.IsDefined(byGnu.value) then byGnu else None)
    else if |elf.sysv.buckets| == 0 then r == None
    else exists s: Option<nat> :: Sysv.IsAnswer(elf, key, s) && r == OnlyDefined(elf, s)
  }

  function OnlyDefined(elf: Elf, r: Option<nat>): Option<nat> {
    if r.Some? && r.value < |elf.dynsym| && elf.IsDefined(r.value) then r else None
  }

  /** The search of xdl_sym, up to the symbol whose address it then resolves; with neither section present nothing
  is loaded and nothing found. */
  method FindByName(elf: Elf, key: CString) returns (r: Option<nat>)
    requires Loaded(elf)
    ensures r.Some? ==> r.value < |elf.dynsym| && elf.IsNamed(r.value, key) && elf.IsDefined(r.value)
    ensures IsFoundByName(elf, key, r)
  {
    r := None;
    if |elf.gnu.buckets| > 0 {
      r := Gnu.FindSymbol(elf, key);
    }
    if r == None && |elf.sysv.buckets| > 0 {
      r := Sysv.FindSymbol(elf, key);
    }
    if r == None || !elf.IsDefined(r.value) {
      return None;
    }
  }

  /** With a GNU section, the first hashed symbol of the name decides: the SYSV section is not asked when it
  is undefined. */
  lemma FirstHashedDecides(elf: Elf, key: CString, i: nat, r: Option<nat>)
    requires Loaded(elf) && |elf.gnu.buckets| > 0 && IsFoundByName(elf, key, r)
    requires elf.gnu.symoffset <= i < |elf.dynsym| && elf.IsNamed(i, key)
    requires forall j :: elf.gnu.symoffset <= j < i ==> !elf.IsNamed(j, key)
    ensures r == if elf.dynsym[i].stShndx != 0 then Some(i) else None
  {
    elf.ScanFinds(key, elf.gnu.symoffset, i, |elf.dynsym|);
  }

  /** Where the GNU section has no symbol of the name, the first one on its SYSV chain decides. */
  lemma FallbackDecides(elf: Elf, key: CString, k: nat, r: Option<nat>)
    requires Loaded(elf) && |elf.sysv.buckets| > 0 && IsFoundByName(elf, key, r)
    requires |elf.gnu.buckets| > 0 ==>
               forall j :: elf.gnu.symoffset <= j < |elf.dynsym| ==> !elf.IsNamed(j, key)
    requires Sysv.MatchesFirst(elf, key, k)
    ensures var i := Sysv.Visited(elf, key, k);
            r == if elf.dynsym[i].stShndx != 0 then Some(i) else None
  {
    if |elf.gnu.buckets| > 0 {
      elf.ScanMisses(key, elf.gnu.symoffset, |elf.dynsym|);
    }
    var s: Option<nat> :| Sysv.IsAnswer(elf, key, s) && r == OnlyDefined(elf, s);
    assert Sysv.IsAnswer(elf, key, Some(Sysv.Visited(elf, key, k)));
    Sysv.AnswerIsUnique(elf, key, s, Some(Sysv.Visited(elf, key, k)));
  }

  // When name resolution is complete

  ghost predicate SomeDefinedNamed(elf: Elf, key: CString) {
    exists i :: 0 <= i < |elf.dynsym| && elf.IsNamed(i, key) && elf.IsDefined(i)
  }

  /** The layout linkers give a table with a GNU section: imports first, exports from symoffset on. */
  ghost predicate ImportsThenExports(elf: Elf) {
    forall i :: 0 <= i < |elf.dynsym| ==> (elf.IsDefined(i) <==> i >= elf.gnu.symoffset)
  }

  lemma ChainAnswerIsNamed(elf: Elf, key: CString, s: Option<nat>)
    requires |elf.sysv.buckets| > 0 && Sysv.IsAnswer(elf, key, s) && s.Some?
    ensures s.value < |elf.dynsym| && elf.IsNamed(s.value, key)
  {
    var k: nat :| Sysv.MatchesFirst(elf, key, k) && s.value == Sysv.Visited(elf, key, k);
  }

  /** With a GNU section a name resolves exactly when a defined symbol has it, and then to the first one;
  the SYSV fallback adds nothing and takes nothing away. */
  lemma ResolvesExactlyDefinedNames(elf: Elf, key: CString, r: Option<nat>)
    requires Loaded(elf) && |elf.gnu.buckets| > 0 && ImportsThenExports(elf)
    requires IsFoundByName(elf, key, r)
    ensures r.Some? <==> SomeDefinedNamed(elf, key)
    ensures r.Some? ==> r.value < |elf.dynsym| && elf.IsNamed(r.value, key) && elf.IsDefined(r.value)
    ensures r.Some? ==> forall i :: 0 <= i < r.value ==> !(elf.IsNamed(i, key) && elf.IsDefined(i))
  {
    var byGnu := elf.ScanByName(key, elf.gnu.symoffset, |elf.dynsym|);
    if byGnu.None? {
      assert !SomeDefinedNamed(elf, key);
      if |elf.sysv.buckets| > 0 {
        var s :| Sysv.IsAnswer(elf, key, s) && r == OnlyDefined(elf, s);
        if s.Some? {
          ChainAnswerIsNamed(elf, key, s);
        }
      }
    }
  }

  /** The name's first symbol on its SYSV chain is an import. */
  ghost predicate ImportComesFirst(elf: Elf, key: CString)
    requires |elf.sysv.buckets| > 0
  {
    exists k: nat ::
      && Sysv.MatchesFirst(elf, key, k)
      && !elf.IsDefined(Sysv.Visited(elf, key, k))
  }

  /** With a SYSV section alone, a name that a defined symbol has resolves exactly when no import of that
  name comes before it on the chain. */
  lemma SysvAloneResolves(elf: Elf, key: CString, r: Option<nat>)
    requires Loaded(elf) && |elf.gnu.buckets| == 0 && |elf.sysv.buckets| > 0
    requires Sysv.Complete(elf) && !elf.IsDefined(0)
    requires IsFoundByName(elf, key, r)
    ensures (r.Some? <==> SomeDefinedNamed(elf, key)) <==> !(SomeDefinedNamed(elf, key) && ImportComesFirst(elf, key))
  {
    var s :| Sysv.IsAnswer(elf, key, s) && r == OnlyDefined(elf, s);
    Sysv.CompleteSearchFindsAll(elf, key, s);
    if s.Some? {
      ChainAnswerIsNamed(elf, key, s);
      var k: nat :| Sysv.MatchesFirst(elf, key, k) && s.value == Sysv.Visited(elf, key, k);
      forall j: nat | Sysv.MatchesFirst(elf, key, j) ensures j == k {
      }
    }
  }

  // By address

  function Range(lo: nat, hi: nat): seq<nat>
    requires lo <= hi
  {
    seq(hi - lo, k requires 0 <= k => lo + k)
  }

  /** Exactly the symbols before `m` fall in buckets before `b`. */
  ghost predicate Boundary(elf: Elf, b: nat, m: nat)
    requires Gnu.WellFormed(elf)
  {
    && elf.gnu.symoffset <= m <= |elf.dynsym|
    && forall i: nat :: Gnu.Hashed(elf, i) ==> (Gnu.BucketOf(elf, i) < b <==> i < m)
  }

  /** A non-empty bucket starts where the buckets before it end. */
  lemma HeadAtBoundary(elf: Elf, b: nat, m: nat)
    requires Gnu.WellFormed(elf) && Boundary(elf, b, m) && b < |elf.gnu.buckets|
    ensures elf.gnu.buckets[b] == 0 ==> Boundary(elf, b + 1, m)
    ensures elf.gnu.buckets[b] != 0 ==> elf.gnu.buckets[b] == m && Gnu.Hashed(elf, m) && Gnu.BucketOf(elf, m) == b
  {
    var head := elf.gnu.buckets[b];
    assert Gnu.IsBucketHead(elf, b, head);
    if head != 0 && head != m {
      assert Gnu.Hashed(elf, m);
    }
  }

  /** The last symbol of a bucket moves the boundary past the bucket. */
  lemma BoundaryAfterBucket(elf: Elf, b: nat, i: nat)
    requires Gnu.WellFormed(elf) && Gnu.Hashed(elf, i) && Gnu.BucketOf(elf, i) == b
    requires Gnu.EndBit(elf, i)
    ensures Boundary(elf, b + 1, i + 1)
  {
    assert Gnu.ChainWordOk(elf, i);
    forall j: nat | Gnu.Hashed(elf, j) ensures Gnu.BucketOf(elf, j) < b + 1 <==> j < i + 1 {
      if i < j {
        assert Gnu.Hashed(elf, i + 1);
        assert b <= Gnu.BucketOf(elf, i + 1);
        assert i + 1 == j || Gnu.BucketOf(elf, i + 1) <= Gnu.BucketOf(elf, j);
      }
    }
  }

  lemma AllBucketsCoverAll(elf: Elf, m: nat)
    requires Gnu.WellFormed(elf) && Boundary(elf, |elf.gnu.buckets|, m)
    ensures m == |elf.dynsym|
  {
    if m < |elf.dynsym| {
      assert Gnu.Hashed(elf, m);
    }
  }

  // The order in which the tables are walked

  /** The symbols of a chain from `n` on, up to the first whose end bit is set. */
  function ChainOrder(elf: Elf, n: nat): seq<nat>
    decreases |elf.dynsym| - n
  {
    if !(elf.gnu.symoffset <= n < elf.gnu.symoffset + |elf.gnu.chains| && n < |elf.dynsym|) then []
    else [n] + if Gnu.EndBit(elf, n) then [] else ChainOrder(elf, n + 1)
  }

  /** The symbols of bucket `b`: the chain from its head. */
  function BucketOrder(elf: Elf, b: nat): seq<nat>
    requires b < |elf.gnu.buckets|
  {
    var head := elf.gnu.buckets[b];
    if head < elf.gnu.symoffset then [] else ChainOrder(elf, head)
  }

  /** The buckets from `b` on, one after the other. */
  function WalkOrder(elf: Elf, b: nat): seq<nat>
    requires b <= |elf.gnu.buckets|
    decreases |elf.gnu.buckets| - b
  {
    if b == |elf.gnu.buckets| then [] else BucketOrder(elf, b) + WalkOrder(elf, b + 1)
  }

  lemma RangeJoin(lo: nat, mid: nat, hi: nat)
    requires lo <= mid <= hi
    ensures Range(lo, mid) + Range(mid, hi) == Range(lo, hi)
  {
  }

  /** The symbols from `n` to `last`, of which only the last has the end bit. */
  predicate IsChain(elf: Elf, n: nat, last: nat)
    decreases last - n
  {
    && elf.gnu.symoffset <= n <= last < |elf.dynsym| <= elf.gnu.symoffset + |elf.gnu.chains|
    && if n == last then Gnu.EndBit(elf, n) else !Gnu.EndBit(elf, n) && IsChain(elf, n + 1, last)
  }

  /** In a well-formed table a chain is a run of symbols of one bucket. */
  lemma {:induction false} ChainEnds(elf: Elf, b: nat, n: nat) returns (last: nat)
    requires Gnu.WellFormed(elf) && Gnu.Hashed(elf, n) && Gnu.BucketOf(elf, n) == b
    ensures IsChain(elf, n, last)
    ensures n <= last && Gnu.Hashed(elf, last) && Gnu.BucketOf(elf, last) == b && Gnu.EndBit(elf, last)
    decreases |elf.dynsym| - n
  {
    last := n;
    if !Gnu.EndBit(elf, n) {
      Gnu.ChainGoesOn(elf, n);
      last := ChainEnds(elf, b, n + 1);
    }
  }

  lemma RangeOne(n: nat)
    ensures Range(n, n + 1) == [n]
  {
  }

  lemma ChainHere(elf: Elf, n: nat, last: nat)
    requires IsChain(elf, n, last)
    ensures n == last ==> ChainOrder(elf, n) == [n]
    ensures n < last ==> ChainOrder(elf, n) == [n] + ChainOrder(elf, n + 1) && IsChain(elf, n + 1, last)
  {
  }

  lemma {:induction false} ChainIsRange(elf: Elf, n: nat, last: nat)
    requires IsChain(elf, n, last)
    ensures ChainOrder(elf, n) == Range(n, last + 1)
    decreases last - n
  {
    ChainHere(elf, n, last);
    RangeOne(n);
    if n < last {
      ChainIsRange(elf, n + 1, last);
      RangeJoin(n, n + 1, last + 1);
    }
  }

  /** A bucket leads from where the buckets before it end to where the next one starts. */
  lemma BucketIsRange(elf: Elf, b: nat, m: nat) returns (next: nat)
    requires Gnu.WellFormed(elf) && b < |elf.gnu.buckets| && Boundary(elf, b, m)
    ensures m <= next <= |elf.dynsym| && BucketOrder(elf, b) == Range(m, next) && Boundary(elf, b + 1, next)
  {
    HeadAtBoundary(elf, b, m);
    next := m;
    if elf.gnu.buckets[b] != 0 {
      var last := ChainEnds(elf, b, m);
      ChainIsRange(elf, m, last);
      BoundaryAfterBucket(elf, b, last);
      next := last + 1;
    }
  }

  predicate Spans(elf: Elf, b: nat, lo: nat, hi: nat)
    requires b < |elf.gnu.buckets|
  {
    lo <= hi && BucketOrder(elf, b) == Range(lo, hi)
  }

  /** Bucket `b` leads from `starts[b]` to `starts[b + 1]`, for the buckets before `n`. */
  predicate AllSpan(elf: Elf, starts: seq<nat>, n: nat) {
    && n <= |elf.gnu.buckets| && n < |starts|
    && forall b: nat :: b < n ==> Spans(elf, b, starts[b], starts[b + 1])
  }

  lemma {:induction false} BucketStarts(elf: Elf, n: nat) returns (starts: seq<nat>)
    requires Gnu.WellFormed(elf) && n <= |elf.gnu.buckets|
    ensures |starts| == n + 1 && starts[0] == elf.gnu.symoffset && AllSpan(elf, starts, n)
        && Boundary(elf, n, starts[n])
  {
    if n == 0 {
      starts := [elf.gnu.symoffset];
    } else {
      var front := BucketStarts(elf, n - 1);
      var next := BucketIsRange(elf, n - 1, front[n - 1]);
      starts := front + [next];
      assert Spans(elf, n - 1, starts[n - 1], starts[n]);
      assert forall b: nat :: b < n - 1 ==> Spans(elf, b, front[b], front[b + 1]);
    }
  }

  lemma {:induction false} WalkSpans(elf: Elf, starts: seq<nat>, b: nat)
    requires AllSpan(elf, starts, |elf.gnu.buckets|) && b <= |elf.gnu.buckets|
    ensures starts[b] <= starts[|elf.gnu.buckets|]
    ensures WalkOrder(elf, b) == Range(starts[b], starts[|elf.gnu.buckets|])
    decreases |elf.gnu.buckets| - b
  {
    if b < |elf.gnu.buckets| {
      assert Spans(elf, b, starts[b], starts[b + 1]);
      WalkSpans(elf, starts, b + 1);
      RangeJoin(starts[b], starts[b + 1], starts[|elf.gnu.buckets|]);
    }
  }

  /** On every well-formed table the buckets and chains lead through symoffset, symoffset + 1, ... up to the
  last symbol: each hashed symbol once, in increasing order. */
  lemma WalkIsInOrder(elf: Elf)
    requires Gnu.WellFormed(elf)
    ensures WalkOrder(elf, 0) == Range(elf.gnu.symoffset, |elf.dynsym|)
  {
    var starts := BucketStarts(elf, |elf.gnu.buckets|);
    AllBucketsCoverAll(elf, starts[|elf.gnu.buckets|]);
    WalkSpans(elf, starts, 0);
  }

  // The search along it

  /** The first symbol along `order` that covers the offset. */
  function FirstAlong(elf: Elf, offset: nat, order: seq<nat>): Option<nat>
    requires elf.bits == 32 || elf.bits == 64
  {
    if order == [] then None
    else if order[0] < |elf.dynsym| && elf.Covers(order[0], offset) then Some(order[0])
    else FirstAlong(elf, offset, order[1..])
  }

  lemma {:induction false} FirstAlongAppend(elf: Elf, offset: nat, a: seq<nat>, b: seq<nat>)
    requires elf.bits == 32 || elf.bits == 64
    ensures FirstAlong(elf, offset, a + b)
         == if FirstAlong(elf, offset, a).Some? then FirstAlong(elf, offset, a) else FirstAlong(elf, offset, b)
  {
    if a == [] {
      assert a + b == b;
    } else {
      assert (a + b)[1..] == a[1..] + b;
      FirstAlongAppend(elf, offset, a[1..], b);
    }
  }

  /** Along a range, the first is the least. */
  lemma {:induction false} FirstAlongRange(elf: Elf, offset: nat, lo: nat, hi: nat)
    requires (elf.bits == 32 || elf.bits == 64) && lo <= hi <= |elf.dynsym|
    ensures FirstAlong(elf, offset, Range(lo, hi)) == elf.ScanByOffset(offset, lo, hi)
    decreases hi - lo
  {
    if lo < hi {
      assert Range(lo, hi)[1..] == Range(lo + 1, hi);
      FirstAlongRange(elf, offset, lo + 1, hi);
    }
  }

  /** Along a chain, the first is the least from its head to its last. */
  lemma FirstAlongChain(elf: Elf, offset: nat, head: nat, last: nat)
    requires (elf.bits == 32 || elf.bits == 64) && IsChain(elf, head, last)
    ensures FirstAlong(elf, offset, ChainOrder(elf, head)) == elf.ScanByOffset(offset, head, last + 1)
  {
    ChainIsRange(elf, head, last);
    FirstAlongRange(elf, offset, head, last + 1);
  }

  /** The do-while loop over one bucket: it looks at its chain from the head to the end bit. */
  method WalkBucket(elf: Elf, offset: nat, head: nat, ghost last: nat) returns (r: Option<nat>)
    requires (elf.bits == 32 || elf.bits == 64) && IsChain(elf, head, last)
    ensures r == elf.ScanByOffset(offset, head, last + 1)
  {
    var n := head;
    while true
      invariant IsChain(elf, n, last)
      invariant elf.ScanByOffset(offset, n, last + 1) == elf.ScanByOffset(offset, head, last + 1)
      decreases last - n
    {
      if elf.Covers(n, offset) {
        return Some(n);
      }
      Gnu.EndBitTest(elf, n);
      if And(Gnu.ChainWord(elf, n), 1) != 0 {
        return None;
      }
      n := n + 1;
    }
  }

  /** The bucket-by-bucket walk takes the first symbol along the walk that covers the offset, and that is
  the least of all hashed symbols that do. */
  method FindByOffsetGnu(elf: Elf, offset: nat) returns (r: Option<nat>)
    requires Gnu.WellFormed(elf)
    ensures r == FirstAlong(elf, offset, WalkOrder(elf, 0))
    ensures r == elf.ScanByOffset(offset, elf.gnu.symoffset, |elf.dynsym|)
  {
    WalkIsInOrder(elf);
    FirstAlongRange(elf, offset, elf.gnu.symoffset, |elf.dynsym|);
    var b := 0;
    while b < |elf.gnu.buckets|
      invariant 0 <= b <= |elf.gnu.buckets|
      invariant FirstAlong(elf, offset, WalkOrder(elf, b)) == FirstAlong(elf, offset, WalkOrder(elf, 0))
    {
      var n := elf.gnu.buckets[b];
      assert Gnu.IsBucketHead(elf, b, n);
      FirstAlongAppend(elf, offset, BucketOrder(elf, b), WalkOrder(elf, b + 1));
      if n >= elf.gnu.symoffset {
        ghost var last := ChainEnds(elf, b, n);
        FirstAlongChain(elf, offset, n, last);
        r := WalkBucket(elf, offset, n, last);
        if r.Some? {
          return;
        }
      }
      b := b + 1;
    }
    return None;
  }

  method FindByOffsetSysv(elf: Elf, offset: nat) returns (r: Option<nat>)
    requires (elf.bits == 32 || elf.bits == 64) && |elf.sysv.chains| <= |elf.dynsym|
    ensures r == elf.ScanByOffset(offset, 0, |elf.sysv.chains|)
  {
    var i := 0;
    while i < |elf.sysv.chains|
      invariant 0 <= i <= |elf.sysv.chains|
      invariant elf.ScanByOffset(offset, i, |elf.sysv.chains|) == elf.ScanByOffset(offset, 0, |elf.sysv.chains|)
    {
      if elf.Covers(i, offset) {
        return Some(i);
      }
      i := i + 1;
    }
    return None;
  }

  /** The scan that the address search amounts to; with neither section present nothing is loaded. */
  function AddressScan(elf: Elf, offset: nat): Option<nat>
    requires elf.bits == 32 || elf.bits == 64
    requires |elf.gnu.buckets| > 0 ==> elf.gnu.symoffset <= |elf.dynsym|
    requires |elf.gnu.buckets| == 0 && |elf.sysv.buckets| > 0 ==> |elf.sysv.chains| <= |elf.dynsym|
  {
    if |elf.gnu.buckets| > 0 then elf.ScanByOffset(offset, elf.gnu.symoffset, |elf.dynsym|)
    else if |elf.sysv.buckets| > 0 then elf.ScanByOffset(offset, 0, |elf.sysv.chains|)
    else None
  }

  function OffsetOf(elf: Elf, addr: nat, loadBias: nat): nat
    requires elf.bits == 32 || elf.bits == 64
  {
    (addr - loadBias) % elf.Modulus()
  }

  // What the address found has to do with the address asked for

  /** The address lies in the symbol, loaded at the given bias: the symbol is defined and not thread-local,
  and an odd value of thumb code starts one byte earlier. */
  predicate Encloses(sym: Sym, thumb: bool, loadBias: nat, addr: nat) {
    var odd := if thumb then sym.stValue % 2 else 0;
    && sym.stShndx != 0 && sym.stInfo % 16 != 6
    && loadBias + sym.stValue - odd <= addr < loadBias + sym.stValue - odd + sym.stSize
  }

  /** No address involved leaves the machine word. */
  predicate NothingWraps(bits: nat, syms: seq<Sym>, loadBias: nat, addr: nat)
    requires bits == 32 || bits == 64
  {
    && loadBias <= addr < WordModulus(bits)
    && forall i :: 0 <= i < |syms| ==> loadBias + syms[i].stValue + syms[i].stSize < WordModulus(bits)
  }

  lemma CoversIsEncloses(elf: Elf, i: nat, loadBias: nat, addr: nat)
    requires (elf.bits == 32 || elf.bits == 64) && i < |elf.dynsym|
    requires NothingWraps(elf.bits, elf.dynsym, loadBias, addr)
    ensures elf.Covers(i, OffsetOf(elf, addr, loadBias)) <==> Encloses(elf.dynsym[i], elf.thumb, loadBias, addr)
  {
    var sym := elf.dynsym[i];
    var m := WordModulus(elf.bits);
    var start := if elf.thumb && sym.stValue % 2 == 1 then sym.stValue - 1 else sym.stValue;
    assert loadBias + sym.stValue + sym.stSize < m;
    SmallModulo(addr - loadBias, m);
    SmallModulo(start + sym.stSize, m);
  }

  /** The symbols that the address search looks at. */
  predicate Searched(elf: Elf, i: nat) {
    && i < |elf.dynsym|
    && if |elf.gnu.buckets| > 0 then i >= elf.gnu.symoffset else |elf.sysv.buckets| > 0 && i < |elf.sysv.chains|
  }

  /** The first symbol searched that encloses the address, or none when none does. */
  ghost predicate FirstEnclosing(elf: Elf, loadBias: nat, addr: nat, r: Option<nat>) {
    var end := if r.Some? then r.value else |elf.dynsym|;
    && (r.Some? ==> Searched(elf, r.value) && Encloses(elf.dynsym[r.value], elf.thumb, loadBias, addr))
    && forall i: nat :: i < end && Searched(elf, i) ==> !Encloses(elf.dynsym[i], elf.thumb, loadBias, addr)
  }

  /** Where nothing wraps, the symbol found is the first one searched in which the address lies. */
  lemma ScanFindsEnclosing(elf: Elf, loadBias: nat, addr: nat)
    requires Loaded(elf) && NothingWraps(elf.bits, elf.dynsym, loadBias, addr)
    ensures FirstEnclosing(elf, loadBias, addr, AddressScan(elf, OffsetOf(elf, addr, loadBias)))
  {
    var offset := OffsetOf(elf, addr, loadBias);
    forall i: nat | i < |elf.dynsym|
      ensures elf.Covers(i, offset) <==> Encloses(elf.dynsym[i], elf.thumb, loadBias, addr)
    {
      CoversIsEncloses(elf, i, loadBias, addr);
    }
  }

  method FindByAddress(elf: Elf, addr: nat, loadBias: nat) returns (r: Option<nat>)
    requires Loaded(elf)
    ensures r == AddressScan(elf, OffsetOf(elf, addr, loadBias))
    ensures NothingWraps(elf.bits, elf.dynsym, loadBias, addr) ==> FirstEnclosing(elf, loadBias, addr, r)
  {
    if NothingWraps(elf.bits, elf.dynsym, loadBias, addr) {
      ScanFindsEnclosing(elf, loadBias, addr);
    }
    if |elf.gnu.buckets| == 0 && |elf.sysv.buckets| == 0 {
      return None;
    }
    var offset := OffsetOf(elf, addr, loadBias);
    if |elf.gnu.buckets| > 0 {
      r := FindByOffsetGnu(elf, offset);
    } else if |elf.sysv.chains| > 0 {
      r := FindByOffsetSysv(elf, offset);
    } else {
      r := None;
    }
  }

  /** Skipping the imports skips nothing: the GNU walk finds the first of all symbols that cover the offset. */
  lemma GnuAddressScanIsFullScan(elf: Elf, offset: nat)
    requires Gnu.WellFormed(elf)
    requires forall i :: 0 <= i < elf.gnu.symoffset ==> !elf.IsDefined(i)
    ensures elf.ScanByOffset(offset, elf.gnu.symoffset, |elf.dynsym|) == elf.ScanByOffset(offset, 0, |elf.dynsym|)
  {
    var r := elf.ScanByOffset(offset, 0, |elf.dynsym|);
    var s := elf.ScanByOffset(offset, elf.gnu.symoffset, |elf.dynsym|);
    if r.Some? {
      assert elf.Covers(r.value, offset);
    }
    if s.Some? {
      assert elf.Covers(s.value, offset);
    }
  }
}
