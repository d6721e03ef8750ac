/** Unsigned machine words as natural numbers, with their bitwise operators
    defined bit by bit. */
module Bits {
  import opened Division

  type Byte = x: int | 0 <= x < 256

  const TWO32 := 0x1_0000_0000

  function Pow2(k: nat): (p: nat)
    ensures p > 0
  {
    if k == 0 then 1 else 2 * Pow2(k - 1)
  }

  lemma {:induction false} Pow2Add(j: nat, k: nat)
    ensures Pow2(j + k) == Pow2(j) * Pow2(k)
  {
    if j == 0 {
    } else {
      Pow2Add(j - 1, k);
      assert Pow2(j + k) == 2 * Pow2(j - 1 + k);
      assert 2 * (Pow2(j - 1) * Pow2(k)) == (2 * Pow2(j - 1)) * Pow2(k);
    }
  }

  lemma Pow2Values()
    ensures Pow2(7) == 0x80 && Pow2(8) == 0x100
    ensures Pow2(16) == 0x1_0000 && Pow2(32) == 0x1_0000_0000 && Pow2(64) == 0x1_0000_0000_0000_0000
  {
    assert Pow2(3) == 8 && Pow2(4) == 16;
    hide Pow2;
    Pow2Add(4, 3);
    Pow2Add(4, 4);
    Pow2Add(8, 8);
    Pow2Add(16, 16);
    Pow2Add(32, 32);
  }

  function Bit(b: bool): nat { if b then 1 else 0 }

  function Or(x: nat, y: nat): nat {
    if x == 0 && y == 0 then 0 else Bit(x % 2 == 1 || y % 2 == 1) + 2 * Or(x / 2, y / 2)
  }

  function And(x: nat, y: nat): nat {
    if x == 0 && y == 0 then 0 else Bit(x % 2 == 1 && y % 2 == 1) + 2 * And(x / 2, y / 2)
  }

  function Xor(x: nat, y: nat): nat {
    if x == 0 && y == 0 then 0 else Bit(x % 2 != y % 2) + 2 * Xor(x / 2, y / 2)
  }

  function Shl(x: nat, k: nat): nat { x * Pow2(k) }

  function Shr(x: nat, k: nat): int { x / Pow2(k) }

  /** Negation of a `k`-bit word. */
  function Neg(x: nat, k: nat): nat { (0 - x) % Pow2(k) }

  /** The `k`-bit word holding an integer, and the signed reading of such a word. */
  function Word(x: int, k: nat): (w: nat)
    ensures w < Pow2(k)
  {
    x % Pow2(k)
  }

  function Signed(w: nat, k: nat): int
    requires k > 0
  {
    if w < Pow2(k - 1) then w else w - Pow2(k)
  }

  predicate FitsSigned(x: int, k: nat)
    requires k > 0
  {
    0 - Pow2(k - 1) <= x < Pow2(k - 1)
  }

  lemma WordOf(x: int, k: nat)
    requires 0 <= x < Pow2(k)
    ensures Word(x, k) == x
  {
    DivUnique(x, Pow2(k), 0, x);
  }

  lemma NegOfBit(b: nat, k: nat)
    requires b <= 1
    ensures Neg(b, k) == if b == 0 then 0 else Pow2(k) - 1
  {
    if b == 0 {
      DivUnique(0, Pow2(k), 0, 0);
    } else {
      assert Pow2(k) * -1 == 0 - Pow2(k);
      DivUnique(0 - 1, Pow2(k), -1, Pow2(k) - 1);
    }
  }

  lemma {:induction false} OrZero(x: nat)
    ensures Or(x, 0) == x == Or(0, x)
  {
    if x == 0 {
    } else {
      OrZero(x / 2);
    }
  }

  /** An or of words without common bits is a sum. */
  lemma {:induction false} OrDisjoint(x: nat, y: nat, k: nat)
    requires x < Pow2(k)
    ensures Or(x, y * Pow2(k)) == x + y * Pow2(k)
  {
    if k == 0 {
      OrZero(y);
    } else {
      var z := y * Pow2(k);
      assert z == 2 * (y * Pow2(k - 1));
      OrDisjoint(x / 2, y, k - 1);
    }
  }

  /** Setting bit `k` of a word of at most `k + 1` bits. */
  lemma {:induction false} OrTopBit(x: nat, k: nat)
    requires x < 2 * Pow2(k)
    ensures Or(x, Pow2(k)) == x % Pow2(k) + Pow2(k)
  {
    if k == 0 {
      assert Or(x, 1) == 1 + 2 * Or(x / 2, 0);
      assert Or(0, 0) == 0;
    } else {
      OrTopBit(x / 2, k - 1);
      HalfMod(x, k);
      assert Pow2(k) / 2 == Pow2(k - 1) && Pow2(k) % 2 == 0;
    }
  }

  lemma HalfMod(x: nat, k: nat)
    requires k > 0
    ensures x % Pow2(k) == 2 * ((x / 2) % Pow2(k - 1)) + x % 2
  {
    var p := Pow2(k - 1);
    var q, r := (x / 2) / p, (x / 2) % p;
    assert x / 2 == p * q + r;
    assert x == 2 * (p * q + r) + x % 2;
    assert 2 * (p * q) == (2 * p) * q;
    DivUnique(x, 2 * p, q, 2 * r + x % 2);
  }

  /** Masking with `k` ones is the remainder. */
  lemma {:induction false} AndMask(x: nat, k: nat)
    ensures And(x, Pow2(k) - 1) == x % Pow2(k)
  {
    hide And;
    if k == 0 {
      AndZero(x);
    } else {
      var h := Pow2(k - 1);
      assert Pow2(k) == 2 * h;
      hide Pow2;
      AndMask(x / 2, k - 1);
      HalfMod(x, k);
      AndOddMask(x, h);
    }
  }

  /** The lowest bit of an odd mask, and the rest of it. */
  lemma AndOddMask(x: nat, h: nat)
    requires h > 0
    ensures And(x, 2 * h - 1) == x % 2 + 2 * And(x / 2, h - 1)
  {
    DivUnique(2 * h - 1, 2, h - 1, 1);
  }

  lemma {:induction false} AndZero(x: nat)
    ensures And(x, 0) == 0
  {
    if x == 0 {
    } else {
      AndZero(x / 2);
    }
  }

  lemma {:induction false} XorZero(x: nat)
    ensures Xor(x, 0) == x
  {
    if x == 0 {
    } else {
      XorZero(x / 2);
    }
  }

  /** Exclusive or with `k` ones is the complement. */
  lemma {:induction false} XorOnes(x: nat, k: nat)
    requires x < Pow2(k)
    ensures Xor(x, Pow2(k) - 1) == Pow2(k) - 1 - x
  {
    if k == 0 {
    } else {
      var h := Pow2(k - 1);
      XorOnes(x / 2, k - 1);
      DivUnique(Pow2(k) - 1, 2, h - 1, 1);
      assert Xor(x, Pow2(k) - 1) == Bit(x % 2 != 1) + 2 * Xor(x / 2, h - 1);
    }
  }
}
