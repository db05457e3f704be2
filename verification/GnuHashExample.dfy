/** A concrete table with two buckets, one of them a chain of two symbols, so that the promises made
to the lookup are known to be satisfiable. */
module GnuHashExample {
  import opened CStrings
  import opened GnuHashLookup
  import opened SymbolTable
  import opened Words

  const DYNSTR: seq<Byte> := [0, 97, 0, 99, 0, 98, 0]

  const DYNSYM := [
    Sym(0, 0, 0, 0, 0),
    Sym(1, 0x12, 7, 0x100, 16),
    Sym(3, 0x12, 7, 0x110, 16),
    Sym(5, 0x12, 7, 0x120, 16)
  ]

  /** "a" and "c" fall in bucket 0 and "b" in bucket 1. */
  const EXAMPLE := Elf(32, false, DYNSYM, DYNSTR,
                       GnuHash(1, 1, [472], [1, 3], [177670, 177673, 177671]),
                       SysvHash([], []))

  lemma Names()
    ensures EXAMPLE.NameOf(1) == [97] && EXAMPLE.NameOf(2) == [99] && EXAMPLE.NameOf(3) == [98]
  {
    CStrUnique(DYNSTR[1..], 1);
    CStrUnique(DYNSTR[3..], 1);
    CStrUnique(DYNSTR[5..], 1);
  }

  lemma HashOfLetter(c: Byte)
    requires c != 0
    ensures GnuHashOf([c]) == 177573 + c as nat
  {
    assert GnuHashFrom(5381, [c]) == GnuHashFrom(177573 + c as nat, [][..]) by {
      assert [c][1..] == [];
    }
  }

  lemma Hashes()
    ensures HashOf(EXAMPLE, 1) == 177670 && HashOf(EXAMPLE, 2) == 177672 && HashOf(EXAMPLE, 3) == 177671
  {
    Names();
    HashOfLetter(97);
    HashOfLetter(99);
    HashOfLetter(98);
  }

  lemma Header()
    ensures HeaderOk(EXAMPLE)
    ensures forall i: nat :: Hashed(EXAMPLE, i) <==> i == 1 || i == 2 || i == 3
    ensures BucketOf(EXAMPLE, 1) == 0 && BucketOf(EXAMPLE, 2) == 0 && BucketOf(EXAMPLE, 3) == 1
  {
    Hashes();
  }

  lemma ChainWords()
    ensures HeaderOk(EXAMPLE)
    ensures ChainWordOk(EXAMPLE, 1) && ChainWordOk(EXAMPLE, 2) && ChainWordOk(EXAMPLE, 3)
  {
    Header();
    Hashes();
    OrOne(177670);
    OrOne(177671);
    OrOne(177672);
    OrOne(177673);
  }

  lemma BloomBits(h: nat)
    requires h == 177670 || h == 177671 || h == 177672
    ensures Bit(472, h % 32) && Bit(472, Shr(h, 1) % 32)
  {
    assert Bit(472, 6) && Bit(472, 7) && Bit(472, 8) && Bit(472, 3) && Bit(472, 4);
    assert Shr(h, 1) == h / 2;
  }

  lemma BloomOk(i: nat)
    requires i == 1 || i == 2 || i == 3
    ensures HeaderOk(EXAMPLE) && BloomBitsSet(EXAMPLE, i)
  {
    Header();
    Hashes();
    var h := HashOf(EXAMPLE, i);
    assert (h / 32) % 1 == 0;
    BloomBits(h);
  }

  lemma Heads()
    ensures HeaderOk(EXAMPLE) && IsBucketHead(EXAMPLE, 0, 1) && IsBucketHead(EXAMPLE, 1, 3)
  {
    Header();
  }

  lemma EverySymbol(i: nat)
    requires Hashed(EXAMPLE, i)
    ensures HeaderOk(EXAMPLE) && ChainWordOk(EXAMPLE, i) && BloomBitsSet(EXAMPLE, i)
  {
    Header();
    ChainWords();
    BloomOk(i);
  }

  lemma EveryBucket(b: nat)
    requires b < 2
    ensures HeaderOk(EXAMPLE) && IsBucketHead(EXAMPLE, b, EXAMPLE.gnu.buckets[b])
  {
    Heads();
  }

  lemma Sorted()
    ensures HeaderOk(EXAMPLE) && BucketsSorted(EXAMPLE)
  {
    Header();
  }

  lemma ExampleIsWellFormed()
    ensures WellFormed(EXAMPLE)
  {
    Sorted();
    forall i: nat | Hashed(EXAMPLE, i) ensures ChainWordOk(EXAMPLE, i) && BloomBitsSet(EXAMPLE, i) {
      EverySymbol(i);
    }
    forall b: nat | b < 2 ensures IsBucketHead(EXAMPLE, b, EXAMPLE.gnu.buckets[b]) {
      EveryBucket(b);
    }
  }
}
