/** Name lookup through `.gnu.hash`: a Bloom word, a bucket, and a contiguous chain with an end bit. */
module GnuHashLookup {
  import opened CStrings
  import opened SymbolTable
  import opened Words
  import opened Wrappers

  // The hash

  /** Bernstein's hash in 32 bits: multiply by 33 and add the byte. */
  function GnuHashFrom(h: nat, name: CString): (r: nat)
    ensures h < WORD32 ==> r < WORD32
    decreases |name|
  {
    if name == [] then h else GnuHashFrom((33 * h + name[0] as nat) % WORD32, name[1..])
  }

  function GnuHashOf(name: CString): (r: nat)
    ensures r < WORD32
  {
    GnuHashFrom(5381, name)
  }

  /** h + ((h << 5) + c), where the shift and each addition wrap at 32 bits. */
  function GnuStep(h: nat, c: nat): nat {
    (h + (h * 32 % WORD32 + c) % WORD32) % WORD32
  }

  lemma WrapOnce(a: nat, b: nat)
    ensures (a + b % WORD32) % WORD32 == (a + b) % WORD32
  {
    var q := b / WORD32;
    assert a + b == a + b % WORD32 + WORD32 * q;
  }

  lemma GnuStepIsTimes33(h: nat, c: nat)
    ensures GnuStep(h, c) == (33 * h + c) % WORD32
  {
    WrapOnce(h, h * 32 % WORD32 + c);
    WrapOnce(h + c, h * 32);
  }

  method ComputeGnuHash(name: CString) returns (h: nat)
    ensures h == GnuHashOf(name)
  {
    h := 5381;
    var i := 0;
    while At(name, i) != 0
      invariant i <= |name| && h < WORD32
      invariant GnuHashFrom(h, name[i..]) == GnuHashOf(name)
      decreases |name| - i
    {
      assert name[i..][1..] == name[i + 1..];
      GnuStepIsTimes33(h, name[i] as nat);
      h := GnuStep(h, name[i] as nat);
      i := i + 1;
    }
    assert name[i..] == [];
  }

  /** A byte more multiplies by 33 and adds it, from 5381 for the empty name. */
  lemma {:induction false} GnuHashAppend(h: nat, name: CString, c: Byte)
    requires c != 0 && h < WORD32
    ensures GnuHashFrom(h, []) == h
    ensures GnuHashFrom(h, name + [c]) == (33 * GnuHashFrom(h, name) + c as nat) % 0x1_0000_0000
    decreases |name|
  {
    if name == [] {
      assert ([] + [c])[1..] == [];
    } else {
      assert (name + [c])[1..] == name[1..] + [c];
      GnuHashAppend((33 * h + name[0] as nat) % WORD32, name[1..], c);
    }
  }

  /** The hash of every name, from the hash of the name without its last byte. */
  lemma GnuHashIs(name: CString, c: Byte)
    requires c != 0
    ensures GnuHashOf([]) == 5381
    ensures GnuHashOf(name + [c]) == (33 * GnuHashOf(name) + c as nat) % 0x1_0000_0000
  {
    GnuHashAppend(5381, name, c);
  }

  // What a linker promises about the section

  function HashOf(elf: Elf, i: nat): nat
    requires i < |elf.dynsym| && elf.HasName(i)
  {
    GnuHashOf(elf.NameOf(i))
  }

  function BucketOf(elf: Elf, i: nat): nat
    requires |elf.gnu.buckets| > 0 && i < |elf.dynsym| && elf.HasName(i)
  {
    HashOf(elf, i) % |elf.gnu.buckets|
  }

  function ChainWord(elf: Elf, i: nat): nat
    requires elf.gnu.symoffset <= i < elf.gnu.symoffset + |elf.gnu.chains|
  {
    elf.gnu.chains[i - elf.gnu.symoffset]
  }

  /** Bit 0 of the chain word, which ends a bucket. */
  predicate EndBit(elf: Elf, i: nat)
    requires elf.gnu.symoffset <= i < elf.gnu.symoffset + |elf.gnu.chains|
  {
    ChainWord(elf, i) % 2 == 1
  }

  lemma EndBitTest(elf: Elf, i: nat)
    requires elf.gnu.symoffset <= i < elf.gnu.symoffset + |elf.gnu.chains|
    ensures And(ChainWord(elf, i), 1) != 0 <==> EndBit(elf, i)
  {
    OrOne(ChainWord(elf, i));
  }

  function BloomWord(elf: Elf, h: nat): nat
    requires elf.bits > 0 && |elf.gnu.bloom| > 0
  {
    elf.gnu.bloom[(h / elf.bits) % |elf.gnu.bloom|]
  }

  predicate Hashed(elf: Elf, i: nat) {
    elf.gnu.symoffset <= i < |elf.dynsym|
  }

  ghost predicate HeaderOk(elf: Elf) {
    var g := elf.gnu;
    && (elf.bits == 32 || elf.bits == 64)
    && Terminated(elf.dynstr)
    && g.symoffset >= 1 && |g.buckets| > 0 && |g.bloom| > 0 && g.bloomShift < 32
    && g.symoffset <= |elf.dynsym| < WORD32
    && |g.chains| == |elf.dynsym| - g.symoffset
    && forall i: nat :: Hashed(elf, i) ==> elf.HasName(i)
  }

  /** `v` is the first symbol of bucket `b`, or 0 when no symbol falls in it. */
  ghost predicate IsBucketHead(elf: Elf, b: nat, v: nat)
    requires HeaderOk(elf)
  {
    if v == 0 then
      forall i: nat :: Hashed(elf, i) ==> BucketOf(elf, i) != b
    else
      && Hashed(elf, v) && BucketOf(elf, v) == b
      && forall i: nat :: elf.gnu.symoffset <= i < v ==> BucketOf(elf, i) != b
  }

  /** The chain word is the hash up to bit 0, and bit 0 marks the last symbol of its bucket. */
  ghost predicate ChainWordOk(elf: Elf, i: nat)
    requires HeaderOk(elf) && Hashed(elf, i)
  {
    && Or(ChainWord(elf, i), 1) == Or(HashOf(elf, i), 1)
    && (EndBit(elf, i) <==> i + 1 == |elf.dynsym| || BucketOf(elf, i + 1) != BucketOf(elf, i))
  }

  ghost predicate BloomBitsSet(elf: Elf, i: nat)
    requires HeaderOk(elf) && Hashed(elf, i)
  {
    var h := HashOf(elf, i);
    var word := elf.gnu.bloom[(h / elf.bits) % |elf.gnu.bloom|];
    && Bit(word, h % elf.bits)
    && Bit(word, Shr(h, elf.gnu.bloomShift) % elf.bits)
  }

  ghost predicate BucketsSorted(elf: Elf)
    requires HeaderOk(elf)
  {
    forall i: nat, j: nat :: Hashed(elf, i) && Hashed(elf, j) && i < j ==> BucketOf(elf, i) <= BucketOf(elf, j)
  }

  ghost predicate WellFormed(elf: Elf) {
    && HeaderOk(elf)
    && BucketsSorted(elf)
    && (forall i: nat {:trigger ChainWordOk(elf, i)} :: Hashed(elf, i) ==> ChainWordOk(elf, i))
    && (forall i: nat {:trigger BloomBitsSet(elf, i)} :: Hashed(elf, i) ==> BloomBitsSet(elf, i))
    && (forall b: nat {:trigger IsBucketHead(elf, b, elf.gnu.buckets[b])} :: b < |elf.gnu.buckets| ==>
        IsBucketHead(elf, b, elf.gnu.buckets[b]))
  }

  // The lookup

  predicate BloomAdmits(elf: Elf, h: nat)
    requires elf.bits > 0 && |elf.gnu.bloom| > 0
  {
    var mask := Or(Shl1(h % elf.bits), Shl1(Shr(h, elf.gnu.bloomShift) % elf.bits));
    And(BloomWord(elf, h), mask) == mask
  }

  /** The Bloom word never rejects a name that is present. */
  lemma {:induction false} BloomAdmitsPresent(elf: Elf, i: nat)
    requires WellFormed(elf) && Hashed(elf, i)
    ensures BloomAdmits(elf, HashOf(elf, i))
  {
    var h := HashOf(elf, i);
    assert BloomBitsSet(elf, i);
    MaskTest(BloomWord(elf, h), h % elf.bits, Shr(h, elf.gnu.bloomShift) % elf.bits);
  }

  /** No symbol outside the bucket of a name's hash has that name. */
  lemma NamedInBucket(elf: Elf, name: CString, i: nat)
    requires HeaderOk(elf) && Hashed(elf, i) && BucketOf(elf, i) != GnuHashOf(name) % |elf.gnu.buckets|
    ensures !elf.IsNamed(i, name)
  {
    assert HashOf(elf, i) != GnuHashOf(name);
  }

  lemma NoneBeforeHead(elf: Elf, name: CString, head: nat)
    requires WellFormed(elf) && Hashed(elf, head) && IsBucketHead(elf, GnuHashOf(name) % |elf.gnu.buckets|, head)
    ensures elf.NoneNamed(name, elf.gnu.symoffset, head)
  {
    forall j: nat | elf.gnu.symoffset <= j < head ensures !elf.IsNamed(j, name) {
      NamedInBucket(elf, name, j);
    }
  }

  /** Without the end bit the bucket goes on with the next symbol. */
  lemma ChainGoesOn(elf: Elf, i: nat)
    requires WellFormed(elf) && Hashed(elf, i) && !EndBit(elf, i)
    ensures Hashed(elf, i + 1) && BucketOf(elf, i + 1) == BucketOf(elf, i)
  {
    assert ChainWordOk(elf, i);
  }

  /** The end bit closes the bucket. */
  lemma NoneAfterEnd(elf: Elf, name: CString, i: nat)
    requires WellFormed(elf) && Hashed(elf, i) && EndBit(elf, i)
    requires BucketOf(elf, i) == GnuHashOf(name) % |elf.gnu.buckets|
    ensures elf.NoneNamed(name, i + 1, |elf.dynsym|)
  {
    assert ChainWordOk(elf, i);
    forall j: nat | i < j < |elf.dynsym| ensures !elf.IsNamed(j, name) {
      assert Hashed(elf, i + 1);
      assert BucketOf(elf, i) <= BucketOf(elf, i + 1);
      assert i + 1 == j || BucketOf(elf, i + 1) <= BucketOf(elf, j);
      NamedInBucket(elf, name, j);
    }
  }

  /** Comparing hashes with bit 0 forced to 1 before comparing names loses nothing. */
  method TestSymbol(elf: Elf, i: nat, name: CString, hash: nat) returns (hit: bool)
    requires WellFormed(elf) && Hashed(elf, i) && hash == GnuHashOf(name)
    ensures hit <==> elf.IsNamed(i, name)
  {
    assert ChainWordOk(elf, i);
    hit := false;
    if Or(hash, 1) == Or(ChainWord(elf, i), 1) {
      if elf.dynsym[i].stName < |elf.dynstr| {
        hit := EqualAt(elf.dynstr, elf.dynsym[i].stName, name);
      }
    }
  }

  datatype ChainStep = Found | Ended | Next

  /** What the walk of a bucket knows at symbol `i`: it is in the bucket of `name`, and nothing before it is it. */
  ghost predicate Walking(elf: Elf, name: CString, i: nat)
    requires WellFormed(elf)
  {
    && Hashed(elf, i)
    && BucketOf(elf, i) == GnuHashOf(name) % |elf.gnu.buckets|
    && elf.NoneNamed(name, elf.gnu.symoffset, i)
  }

  method VisitSymbol(elf: Elf, i: nat, name: CString, hash: nat) returns (step: ChainStep)
    requires WellFormed(elf) && hash == GnuHashOf(name) && Walking(elf, name, i)
    ensures match step
            case Found => elf.ScanByName(name, elf.gnu.symoffset, |elf.dynsym|) == Some(i)
            case Ended => elf.ScanByName(name, elf.gnu.symoffset, |elf.dynsym|) == None
            case Next => Walking(elf, name, i + 1)
  {
    var hit := TestSymbol(elf, i, name, hash);
    if hit {
      elf.ScanFinds(name, elf.gnu.symoffset, i, |elf.dynsym|);
      return Found;
    }
    EndBitTest(elf, i);
    if And(ChainWord(elf, i), 1) != 0 {
      NoneAfterEnd(elf, name, i);
      elf.NoneNamedJoin(name, elf.gnu.symoffset, i, |elf.dynsym|);
      elf.ScanMisses(name, elf.gnu.symoffset, |elf.dynsym|);
      return Ended;
    }
    ChainGoesOn(elf, i);
    elf.NoneNamedJoin(name, elf.gnu.symoffset, i, i + 1);
    return Next;
  }

  /** The chain walk from the head of the name's bucket. */
  method SearchChain(elf: Elf, name: CString, start: nat) returns (r: Option<nat>)
    requires WellFormed(elf)
    requires Hashed(elf, start) && IsBucketHead(elf, GnuHashOf(name) % |elf.gnu.buckets|, start)
    ensures r == elf.ScanByName(name, elf.gnu.symoffset, |elf.dynsym|)
  {
    var hash := ComputeGnuHash(name);
    var i := start;
    NoneBeforeHead(elf, name, start);
    while true
      invariant Walking(elf, name, i)
      decreases |elf.dynsym| - i
    {
      var step := VisitSymbol(elf, i, name, hash);
      match step
      case Found => return Some(i);
      case Ended => return None;
      case Next => i := i + 1;
    }
  }

  /** Whatever table a linker lays out, the lookup is the linear scan of the hashed symbols. */
  method FindSymbol(elf: Elf, name: CString) returns (r: Option<nat>)
    requires WellFormed(elf)
    ensures r == elf.ScanByName(name, elf.gnu.symoffset, |elf.dynsym|)
  {
    var hash := ComputeGnuHash(name);
    if !BloomAdmits(elf, hash) {
      forall i: nat | Hashed(elf, i) ensures !elf.IsNamed(i, name) {
        BloomAdmitsPresent(elf, i);
      }
      return None;
    }
    var i := elf.gnu.buckets[hash % |elf.gnu.buckets|];
    assert IsBucketHead(elf, hash % |elf.gnu.buckets|, i);
    if i < elf.gnu.symoffset {
      forall j: nat | Hashed(elf, j) ensures !elf.IsNamed(j, name) {
        NamedInBucket(elf, name, j);
      }
      return None;
    }
    r := SearchChain(elf, name, i);
  }
}
