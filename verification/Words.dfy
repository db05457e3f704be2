/** Bitwise arithmetic on machine words held as naturals, defined bit by bit. */
module Words {
  const WORD32: nat := 0x1_0000_0000

  /** One more than the largest word of ELFCLASS32 or ELFCLASS64. */
  function WordModulus(bits: nat): (m: nat)
    requires bits == 32 || bits == 64
    ensures m == if bits == 32 then 0x1_0000_0000 else 0x1_0000_0000_0000_0000
  {
    if bits == 32 then WORD32 else WORD32 * WORD32
  }

  function Shr(x: nat, k: nat): nat {
    if k == 0 then x else Shr(x / 2, k - 1)
  }

  /** 1 << k. */
  function Shl1(k: nat): nat {
    if k == 0 then 1 else 2 * Shl1(k - 1)
  }

  function And(x: nat, y: nat): nat {
    if x == 0 || y == 0 then 0 else (if x % 2 == 1 && y % 2 == 1 then 1 else 0) + 2 * And(x / 2, y / 2)
  }

  function Or(x: nat, y: nat): nat
    decreases x + y
  {
    if x == 0 then y else if y == 0 then x
    else (if x % 2 == 1 || y % 2 == 1 then 1 else 0) + 2 * Or(x / 2, y / 2)
  }

  function Xor(x: nat, y: nat): nat
    decreases x + y
  {
    if x == 0 then y else if y == 0 then x
    else (if x % 2 != y % 2 then 1 else 0) + 2 * Xor(x / 2, y / 2)
  }

  /** Bit `k` of `x`. */
  predicate Bit(x: nat, k: nat) {
    if k == 0 then x % 2 == 1 else Bit(x / 2, k - 1)
  }

  lemma {:induction false} BitOfZero(k: nat)
    ensures !Bit(0, k)
  {
    if k > 0 {
      BitOfZero(k - 1);
    }
  }

  lemma {:induction false} BitOfAnd(x: nat, y: nat, k: nat)
    ensures Bit(And(x, y), k) <==> Bit(x, k) && Bit(y, k)
  {
    BitOfZero(k);
    if x != 0 && y != 0 && k > 0 {
      BitOfAnd(x / 2, y / 2, k - 1);
    }
  }

  lemma {:induction false} BitOfOr(x: nat, y: nat, k: nat)
    ensures Bit(Or(x, y), k) <==> Bit(x, k) || Bit(y, k)
    decreases x + y
  {
    BitOfZero(k);
    if x != 0 && y != 0 && k > 0 {
      BitOfOr(x / 2, y / 2, k - 1);
    }
  }

  lemma {:induction false} BitOfXor(x: nat, y: nat, k: nat)
    ensures Bit(Xor(x, y), k) <==> Bit(x, k) != Bit(y, k)
    decreases x + y
  {
    BitOfZero(k);
    if x != 0 && y != 0 && k > 0 {
      BitOfXor(x / 2, y / 2, k - 1);
    }
  }

  lemma {:induction false} BitOfShr(x: nat, j: nat, k: nat)
    ensures Bit(Shr(x, j), k) <==> Bit(x, j + k)
    decreases j
  {
    if j > 0 {
      BitOfShr(x / 2, j - 1, k);
    }
  }

  lemma SmallModulo(x: nat, m: nat)
    requires x < m
    ensures x % m == x
  {
  }

  lemma {:induction false} BitOfShl1(j: nat, k: nat)
    ensures Bit(Shl1(j), k) <==> j == k
  {
    if j == 0 {
      if k > 0 {
        BitOfZero(k - 1);
      }
    } else if k > 0 {
      BitOfShl1(j - 1, k - 1);
    }
  }

  /** Words with the same bits are the same word. */
  lemma {:induction false} BitsDetermine(x: nat, y: nat)
    requires forall k: nat :: Bit(x, k) <==> Bit(y, k)
    ensures x == y
    decreases x + y
  {
    if x + y > 0 {
      assert Bit(x, 0) <==> Bit(y, 0);
      forall k: nat
        ensures Bit(x / 2, k) <==> Bit(y / 2, k)
      {
        assert Bit(x, k + 1) <==> Bit(y, k + 1);
      }
      BitsDetermine(x / 2, y / 2);
    }
  }

  /** A block of `n` ones starting at bit `j`. */
  lemma {:induction false} BitOfBlock(j: nat, n: nat, k: nat)
    ensures Shl1(j + n) >= Shl1(j)
    ensures Bit(Shl1(j + n) - Shl1(j), k) <==> j <= k < j + n
    decreases j, n, k
  {
    if j > 0 {
      BitOfBlock(j - 1, n, if k > 0 then k - 1 else 0);
    } else if n == 0 {
      BitOfZero(k);
    } else {
      BitOfBlock(0, n - 1, if k > 0 then k - 1 else 0);
    }
  }

  /** A word without bits from `n` on is below 1 << n. */
  lemma {:induction false} BoundedByBits(x: nat, n: nat)
    requires forall k: nat :: k >= n ==> !Bit(x, k)
    ensures x < Shl1(n)
    decreases n, x
  {
    if n > 0 {
      forall k: nat | k >= n - 1 ensures !Bit(x / 2, k) {
        assert !Bit(x, k + 1);
      }
      BoundedByBits(x / 2, n - 1);
    } else if x > 0 {
      assert !Bit(x, 0);
      forall k: nat ensures !Bit(x / 2, k) {
        assert !Bit(x, k + 1);
      }
      BoundedByBits(x / 2, 0);
    }
  }

  /** A word passes a two-bit mask exactly when it has both bits. */
  lemma MaskTest(word: nat, j: nat, k: nat)
    ensures var mask := Or(Shl1(j), Shl1(k));
            And(word, mask) == mask <==> Bit(word, j) && Bit(word, k)
  {
    var mask := Or(Shl1(j), Shl1(k));
    forall i: nat
      ensures Bit(mask, i) <==> i == j || i == k
      ensures Bit(And(word, mask), i) <==> Bit(word, i) && (i == j || i == k)
    {
      BitOfOr(Shl1(j), Shl1(k), i);
      BitOfShl1(j, i);
      BitOfShl1(k, i);
      BitOfAnd(word, mask, i);
    }
    if Bit(word, j) && Bit(word, k) {
      BitsDetermine(And(word, mask), mask);
    }
  }

  /** Setting bit 0 forgets exactly bit 0. */
  lemma OrOne(x: nat)
    ensures Or(x, 1) == x / 2 * 2 + 1
    ensures And(x, 1) == x % 2
  {
  }
}
