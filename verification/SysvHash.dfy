/** The SYSV hash: the form in xdl.c against the sample function in the 'Hash Table' section of
chapter 5 of the System V gABI, both in 32-bit words. */
module SysvHash {
  import opened CStrings
  import opened Words

  const TOP_NIBBLE: nat := 0xf000_0000
  const ALL_ONES: nat := 0xffff_ffff

  /** One byte, as xdl.c mixes it in: `h << 4` and the addition wrap one after the other. */
  function XdlStep(h: nat, c: nat): nat {
    var t := (h * 16 % WORD32 + c) % WORD32;
    var g := And(t, TOP_NIBBLE);
    Xor(Xor(t, g), Shr(g, 24))
  }

  /** One byte, as the gABI's sample function does, with `unsigned long` taken as 32 bits. */
  function GabiStep(h: nat, c: nat): nat {
    var t := (16 * h + c) % 0x1_0000_0000;
    var g := And(t, TOP_NIBBLE);
    var u := if g != 0 then Xor(t, Shr(g, 24)) else t;
    And(u, Xor(g, ALL_ONES))
  }

  lemma WrapsOnce(h: nat, c: nat)
    ensures (h * 16 % WORD32 + c) % WORD32 == (16 * h + c) % 0x1_0000_0000
  {
    var q := h * 16 / WORD32;
    assert 16 * h + c == h * 16 % WORD32 + c + WORD32 * q;
  }

  lemma Powers()
    ensures Shl1(28) == 0x1000_0000 && Shl1(32) == WORD32
  {
    assert Shl1(8) == 0x100;
    assert Shl1(16) == 0x1_0000;
    assert Shl1(24) == 0x100_0000;
  }

  lemma BitsOfConstants(k: nat)
    ensures Bit(TOP_NIBBLE, k) <==> 28 <= k < 32
    ensures Bit(ALL_ONES, k) <==> k < 32
  {
    Powers();
    BitOfBlock(28, 4, k);
    BitOfBlock(0, 32, k);
  }

  lemma {:induction false} WordBits(x: nat, n: nat, k: nat)
    requires x < Shl1(n) && k >= n
    ensures !Bit(x, k)
  {
    if n == 0 {
      BitOfZero(k);
    } else {
      WordBits(x / 2, n - 1, k - 1);
    }
  }

  /** The top nibble of a 32-bit word, and where it lands 24 bits lower. */
  lemma BitsOfTop(t: nat, k: nat)
    requires t < WORD32
    ensures Bit(And(t, TOP_NIBBLE), k) <==> 28 <= k && Bit(t, k)
    ensures Bit(Shr(And(t, TOP_NIBBLE), 24), k) <==> 4 <= k < 8 && Bit(t, k + 24)
    ensures k >= 32 ==> !Bit(t, k)
  {
    Powers();
    if k >= 32 {
      WordBits(t, 32, k);
    }
    if k + 24 >= 32 {
      WordBits(t, 32, k + 24);
    }
    BitsOfConstants(k);
    BitsOfConstants(k + 24);
    BitOfAnd(t, TOP_NIBBLE, k);
    BitOfAnd(t, TOP_NIBBLE, k + 24);
    BitOfShr(And(t, TOP_NIBBLE), 24, k);
  }

  /** What both forms make of a byte: the low 28 bits, with the top nibble mixed in at bit 4. */
  predicate StepBit(t: nat, k: nat) {
    (k < 28 && Bit(t, k)) != (4 <= k < 8 && Bit(t, k + 24))
  }

  lemma BitsOfXdlStep(h: nat, c: nat, k: nat)
    ensures Bit(XdlStep(h, c), k) <==> StepBit((16 * h + c) % 0x1_0000_0000, k)
  {
    var t := (h * 16 % WORD32 + c) % WORD32;
    var g := And(t, TOP_NIBBLE);
    WrapsOnce(h, c);
    BitsOfTop(t, k);
    BitOfXor(t, g, k);
    BitOfXor(Xor(t, g), Shr(g, 24), k);
  }

  lemma BitsOfGabiStep(h: nat, c: nat, k: nat)
    ensures Bit(GabiStep(h, c), k) <==> StepBit((16 * h + c) % 0x1_0000_0000, k)
  {
    var t := (16 * h + c) % 0x1_0000_0000;
    var g := And(t, TOP_NIBBLE);
    var u := if g != 0 then Xor(t, Shr(g, 24)) else t;
    BitsOfTop(t, k);
    assert Bit(u, k) <==> Bit(t, k) != Bit(Shr(g, 24), k) by {
      BitOfXor(t, Shr(g, 24), k);
      ShrOfZero(24);
      BitOfZero(k);
    }
    BitsOfConstants(k);
    BitOfXor(g, ALL_ONES, k);
    BitOfAnd(u, Xor(g, ALL_ONES), k);
  }

  lemma {:induction false} ShrOfZero(k: nat)
    ensures Shr(0, k) == 0
  {
    if k > 0 {
      ShrOfZero(k - 1);
    }
  }

  lemma StepsAgree(h: nat, c: nat)
    ensures XdlStep(h, c) == GabiStep(h, c) < 0x1000_0000
  {
    forall k: nat ensures Bit(XdlStep(h, c), k) <==> Bit(GabiStep(h, c), k) {
      BitsOfXdlStep(h, c, k);
      BitsOfGabiStep(h, c, k);
    }
    BitsDetermine(XdlStep(h, c), GabiStep(h, c));
    forall k: nat | k >= 28 ensures !Bit(XdlStep(h, c), k) {
      BitsOfXdlStep(h, c, k);
    }
    BoundedByBits(XdlStep(h, c), 28);
    Powers();
  }

  function XdlHashFrom(h: nat, name: CString): nat
    decreases |name|
  {
    if name == [] then h else XdlHashFrom(XdlStep(h, name[0] as nat), name[1..])
  }

  function GabiHashFrom(h: nat, name: CString): nat
    decreases |name|
  {
    if name == [] then h else GabiHashFrom(GabiStep(h, name[0] as nat), name[1..])
  }

  function SysvHashOf(name: CString): nat {
    XdlHashFrom(0, name)
  }

  lemma {:induction false} HashesAgreeFrom(h: nat, name: CString)
    requires h < 0x1000_0000
    ensures XdlHashFrom(h, name) == GabiHashFrom(h, name) < 0x1000_0000
    decreases |name|
  {
    if name != [] {
      StepsAgree(h, name[0] as nat);
      HashesAgreeFrom(XdlStep(h, name[0] as nat), name[1..]);
    }
  }

  /** xDL's hash is the gABI's, and stays below 2^28. */
  lemma {:induction false} SysvHashIsGabi(name: CString)
    ensures SysvHashOf(name) == GabiHashFrom(0, name) < 0x1000_0000
  {
    HashesAgreeFrom(0, name);
  }

  // What the hash is as a number

  lemma BitOfDigitStep(h: nat, c: nat, k: nat)
    requires 16 * h + c < 0x1000_0000
    ensures Bit(XdlStep(h, c), k) <==> Bit(16 * h + c, k)
  {
    var t := 16 * h + c;
    assert t % 0x1_0000_0000 == t;
    BitsOfXdlStep(h, c, k);
    StepBitOfSmall(t, k);
  }

  /** While the top nibble stays clear, a step is one digit in base 16. */
  lemma StepIsDigit(h: nat, c: nat)
    requires 16 * h + c < 0x1000_0000
    ensures XdlStep(h, c) == 16 * h + c
  {
    var a, b := XdlStep(h, c), 16 * h + c;
    forall k: nat ensures Bit(a, k) <==> Bit(b, k) {
      BitOfDigitStep(h, c, k);
    }
    BitsDetermine(a, b);
  }

  lemma StepBitOfSmall(t: nat, k: nat)
    requires t < 0x1000_0000
    ensures StepBit(t, k) <==> Bit(t, k)
  {
    Powers();
    if k >= 28 {
      WordBits(t, 28, k);
    }
    if 4 <= k {
      WordBits(t, 28, k + 24);
    }
  }

  lemma {:induction false} XdlHashAppend(h: nat, name: CString, c: Byte)
    requires c != 0
    ensures XdlHashFrom(h, name + [c]) == XdlStep(XdlHashFrom(h, name), c as nat)
    decreases |name|
  {
    if name == [] {
      assert ([] + [c])[1..] == [];
    } else {
      assert (name + [c])[1..] == name[1..] + [c];
      XdlHashAppend(XdlStep(h, name[0] as nat), name[1..], c);
    }
  }

  /** The bytes of a name as digits in base 16, the first one most significant. */
  function Base16(name: seq<Byte>): nat {
    if name == [] then 0 else 16 * Base16(name[..|name| - 1]) + name[|name| - 1] as nat
  }

  /** The hash of a name is this number as long as it fits in 28 bits. */
  lemma {:induction false} ShortNameHash(name: CString)
    requires Base16(name) < 0x1000_0000
    ensures SysvHashOf(name) == Base16(name)
  {
    if name != [] {
      var front, c := name[..|name| - 1], name[|name| - 1];
      assert front + [c] == name;
      ShortNameHash(front);
      XdlHashAppend(0, front, c);
      StepIsDigit(SysvHashOf(front), c as nat);
    }
  }

  /** Up to six ASCII bytes always do. */
  lemma {:induction false} AsciiBound(name: CString)
    requires |name| <= 6 && forall i :: 0 <= i < |name| ==> name[i] < 128
    ensures SysvHashOf(name) == Base16(name) < 0x1000_0000
  {
    Base16Bound(name);
    assert 9 * Power16(6) < 0x1000_0000;
    PowerGrows(|name|, 6);
    ShortNameHash(name);
  }

  function Power16(n: nat): nat {
    if n == 0 then 1 else 16 * Power16(n - 1)
  }

  lemma {:induction false} PowerGrows(m: nat, n: nat)
    requires m <= n
    ensures Power16(m) <= Power16(n)
  {
    if m < n {
      PowerGrows(m, n - 1);
    }
  }

  lemma {:induction false} Base16Bound(name: CString)
    requires forall i :: 0 <= i < |name| ==> name[i] < 128
    ensures Base16(name) + 9 <= 9 * Power16(|name|)
  {
    if name != [] {
      Base16Bound(name[..|name| - 1]);
    }
  }

  /** Longer names: a byte more shifts by four, and what leaves the low 28 bits comes back at bit 4. */
  lemma LongerNameHash(name: CString, c: Byte, k: nat)
    requires c != 0
    ensures Bit(SysvHashOf(name + [c]), k) <==> StepBit((16 * SysvHashOf(name) + c as nat) % 0x1_0000_0000, k)
  {
    XdlHashAppend(0, name, c);
    BitsOfXdlStep(SysvHashOf(name), c as nat, k);
  }

  lemma Samples()
    ensures SysvHashOf([]) == 0 && SysvHashOf([97]) == 97
    ensures SysvHashOf([97, 97]) == 1649 && SysvHashOf([97, 98]) == 1650
  {
    assert [97, 97][..1] == [97] && [97, 98][..1] == [97] && [97][..0] == [];
    assert Base16([]) == 0;
    assert Base16([97]) == 97;
    ShortNameHash([97]);
    ShortNameHash([97, 97]);
    ShortNameHash([97, 98]);
  }

  method ComputeSysvHash(name: CString) returns (h: nat)
    ensures h == SysvHashOf(name)
  {
    h := 0;
    var i := 0;
    while At(name, i) != 0
      invariant i <= |name|
      invariant XdlHashFrom(h, name[i..]) == SysvHashOf(name)
      decreases |name| - i
    {
      assert name[i..][1..] == name[i + 1..];
      h := XdlStep(h, name[i] as nat);
      i := i + 1;
    }
    assert name[i..] == [];
  }
}
