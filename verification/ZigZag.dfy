/** ZigZag coding of signed words, `serialize/serialize.cpp` 139-161.
    The encoder is arithmetic, the decoder is bitwise. */
module ZigZag {
  import opened Bits

  /** The encoder at width `n`; the negation wraps like the machine's. */
  function Encode(x: int, n: nat): nat {
    if x < 0 then Word(Word(0 - x, n) * 2 - 1, n) else Word(2 * Word(x, n), n)
  }

  /** The decoder: shift right, then flip every bit of an odd word. */
  function Decode(w: nat, n: nat): int
    requires n > 0
  {
    Signed(Word(Xor(w / 2, Neg(And(w, 1), n)), n), n)
  }

  lemma EncodeValue(x: int, n: nat)
    requires n > 0 && FitsSigned(x, n)
    ensures Encode(x, n) == (if x < 0 then -2 * x - 1 else 2 * x) < Pow2(n)
  {
    hide Word;
    if x < 0 {
      WordOf(0 - x, n);
      WordOf((0 - x) * 2 - 1, n);
    } else {
      WordOf(x, n);
      WordOf(2 * x, n);
    }
  }

  lemma Halves(n: nat)
    requires n > 0
    ensures Pow2(n) == 2 * Pow2(n - 1) && Pow2(1) == 2
  {
  }

  lemma DecodeEven(w: nat, n: nat)
    requires n > 0 && w < Pow2(n) && w % 2 == 0
    ensures Decode(w, n) == w / 2
  {
    hide Word, Neg, And, Xor, Pow2;
    Halves(n);
    AndMask(w, 1);
    NegOfBit(0, n);
    XorZero(w / 2);
    WordOf(w / 2, n);
  }

  lemma DecodeOdd(w: nat, n: nat)
    requires n > 0 && w < Pow2(n) && w % 2 == 1
    ensures Decode(w, n) == -(w / 2) - 1
  {
    hide Word, Neg, And, Xor, Pow2;
    Halves(n);
    AndMask(w, 1);
    NegOfBit(1, n);
    XorOnes(w / 2, n);
    WordOf(Pow2(n) - 1 - w / 2, n);
  }

  lemma DecodeValue(w: nat, n: nat)
    requires n > 0 && w < Pow2(n)
    ensures Decode(w, n) == if w % 2 == 0 then w / 2 else -(w / 2) - 1
    ensures FitsSigned(Decode(w, n), n)
  {
    hide Decode, Pow2;
    Halves(n);
    if w % 2 == 0 {
      DecodeEven(w, n);
    } else {
      DecodeOdd(w, n);
    }
  }

  /** A bijection between the signed and the unsigned words of each width. */
  lemma DecodeEncode(x: int, n: nat)
    requires n > 0 && FitsSigned(x, n)
    ensures Encode(x, n) < Pow2(n) && Decode(Encode(x, n), n) == x
  {
    hide Decode, Encode;
    EncodeValue(x, n);
    DecodeValue(Encode(x, n), n);
  }

  lemma EncodeDecode(w: nat, n: nat)
    requires n > 0 && w < Pow2(n)
    ensures FitsSigned(Decode(w, n), n) && Encode(Decode(w, n), n) == w
  {
    hide Decode, Encode;
    DecodeValue(w, n);
    EncodeValue(Decode(w, n), n);
  }

  /** Small magnitudes become small words: `k` bits hold exactly the signed `k`-bit range. */
  lemma EncodeSize(x: int, n: nat, k: nat)
    requires 0 < k <= n && FitsSigned(x, n)
    ensures Encode(x, n) < Pow2(k) <==> FitsSigned(x, k)
  {
    hide Encode;
    EncodeValue(x, n);
    assert Pow2(k) == 2 * Pow2(k - 1);
  }
}
