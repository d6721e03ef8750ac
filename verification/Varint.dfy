/** Base-128 varints: the Protocol Buffers encoding, which is the unsigned
    LEB128 of section 7.6 of DWARF Version 5. */
module Varint {
  import opened Bits
  import opened Division
  import ZigZag

  /** Low groups first; the top bit of a byte says that another one follows. */
  function Encode(v: nat): (s: seq<Byte>)
    ensures |s| > 0
  {
    if v < 128 then [v] else [v % 128 + 128] + Encode(v / 128)
  }

  /** Number of bytes that the reader of a `bits`-bit word looks at: 3, 5 or 10. */
  function Groups(bits: nat): nat { (bits + 6) / 7 }

  datatype Parsed = Parsed(value: nat, used: nat) | Short

  /** The base-128 number at the front of `s`, of at most `groups` digits. */
  function Parse(s: seq<Byte>, groups: nat): Parsed {
    if groups == 0 then Parsed(0, 0)
    else if s == [] then Short
    else if s[0] < 128 then Parsed(s[0], 1)
    else
      match Parse(s[1..], groups - 1)
      case Short => Short
      case Parsed(v, used) => Parsed(s[0] - 128 + 128 * v, used + 1)
  }

  /** What a reader of `bits`-bit words makes of a byte string. */
  function Decode(s: seq<Byte>, bits: nat): Parsed {
    match Parse(s, Groups(bits))
    case Short => Short
    case Parsed(v, used) => Parsed(Word(v, bits), used)
  }

  lemma {:induction false} ParseEncode(v: nat, rest: seq<Byte>, groups: nat)
    requires |Encode(v)| <= groups
    ensures Parse(Encode(v) + rest, groups) == Parsed(v, |Encode(v)|)
  {
    if v < 128 {
    } else {
      ParseEncode(v / 128, rest, groups - 1);
      assert (Encode(v) + rest)[1..] == Encode(v / 128) + rest;
    }
  }

  /** `k` bytes carry exactly the numbers of `7 * k` bits. */
  lemma {:induction false} EncodedLength(v: nat, k: nat)
    requires k > 0
    ensures |Encode(v)| <= k <==> v < Pow2(7 * k)
  {
    Pow2Values();
    if k == 1 {
      assert v >= 128 ==> |Encode(v / 128)| > 0;
    } else if v < 128 {
      Pow2Add(7, 7 * (k - 1));
      assert Pow2(7 * k) >= 128;
    } else {
      EncodedLength(v / 128, k - 1);
      Pow2Add(7, 7 * (k - 1));
      var p := Pow2(7 * (k - 1));
      assert 7 + 7 * (k - 1) == 7 * k;
      assert Pow2(7 * k) == 128 * p;
      assert v / 128 < p <==> v < 128 * p;
    }
  }

  /** Byte `i` holds the `i`-th group of seven bits, the lowest first, and the top bit of every byte
      but the last is set. */
  lemma {:induction false} EncodeDigits(v: nat, i: nat)
    requires i < |Encode(v)|
    ensures Encode(v)[i] == v / Pow2(7 * i) % 128 + if i < |Encode(v)| - 1 then 128 else 0
  {
    if i == 0 {
      assert Pow2(0) == 1;
    } else {
      EncodeDigits(v / 128, i - 1);
      Pow2Values();
      Pow2Add(7, 7 * (i - 1));
      assert 7 + 7 * (i - 1) == 7 * i;
      DivTwice(v, 128, Pow2(7 * (i - 1)), Pow2(7 * i));
    }
  }

  lemma FitsInGroups(v: nat, bits: nat)
    requires bits > 0 && v < Pow2(bits)
    ensures |Encode(v)| <= Groups(bits)
  {
    EncodedLength(v, Groups(bits));
    Pow2Monotone(bits, 7 * Groups(bits));
  }

  lemma {:induction false} Pow2Monotone(j: nat, k: nat)
    requires j <= k
    ensures Pow2(j) <= Pow2(k)
    decreases k
  {
    if j == k {
    } else {
      Pow2Monotone(j, k - 1);
    }
  }

  /** The reader undoes the writer, whatever bytes follow, and consumes what was written. */
  lemma RoundTrip(v: nat, bits: nat, rest: seq<Byte>)
    requires bits > 0 && v < Pow2(bits)
    ensures |Encode(v)| <= Groups(bits)
    ensures Decode(Encode(v) + rest, bits) == Parsed(v, |Encode(v)|)
  {
    FitsInGroups(v, bits);
    ParseEncode(v, rest, Groups(bits));
    WordOf(v, bits);
  }

  /** A prefix code: two encodings never start the same byte string. */
  lemma PrefixFree(v: nat, w: nat, afterV: seq<Byte>, afterW: seq<Byte>)
    requires Encode(v) + afterV == Encode(w) + afterW
    ensures v == w && afterV == afterW
  {
    var groups := |Encode(v)| + |Encode(w)|;
    ParseEncode(v, afterV, groups);
    ParseEncode(w, afterW, groups);
    assert afterV == (Encode(v) + afterV)[|Encode(v)|..];
    assert afterW == (Encode(w) + afterW)[|Encode(w)|..];
  }

  /** Without its last bytes, an encoding is short. */
  lemma CutOffIsShort(v: nat, n: nat, bits: nat)
    requires bits > 0 && v < Pow2(bits) && n < |Encode(v)|
    ensures Decode(Encode(v)[..n], bits) == Short
  {
    hide Encode;
    var s := Encode(v);
    FitsInGroups(v, bits);
    forall j | 0 <= j < n ensures s[..n][j] >= 128 {
      EncodeDigits(v, j);
    }
    ParseShort(s[..n], Groups(bits));
  }

  /** On arbitrary input the reader runs short only on continuation bytes that end too early. */
  lemma {:induction false} ParseShort(s: seq<Byte>, groups: nat)
    ensures Parse(s, groups) == Short <==> |s| < groups && forall j :: 0 <= j < |s| ==> s[j] >= 128
  {
    if groups > 0 && s != [] && s[0] >= 128 {
      var t := s[1..];
      ParseShort(t, groups - 1);
      assert forall j :: 0 < j < |s| ==> s[j] == t[j - 1];
      assert forall j :: 0 <= j < |t| ==> t[j] == s[j + 1];
    }
  }

  /** Otherwise it stays within its bytes and within the width of the groups it read. */
  lemma {:induction false} ParseWithin(s: seq<Byte>, groups: nat)
    requires Parse(s, groups).Parsed?
    ensures var p := Parse(s, groups);
            && p.used <= groups && p.used <= |s| && p.value < Pow2(7 * p.used)
            && (groups > 0 ==> p.used > 0)
  {
    Pow2Values();
    if groups > 0 && s[0] >= 128 {
      ParseWithin(s[1..], groups - 1);
      var tail := Parse(s[1..], groups - 1);
      Pow2Add(7, 7 * tail.used);
      assert 7 + 7 * tail.used == 7 * (tail.used + 1);
    }
  }

  /** No byte string that reads back to `v` is shorter than the writer's. */
  lemma WriterIsShortest(s: seq<Byte>, bits: nat)
    requires bits > 0 && Decode(s, bits).Parsed?
    ensures var r := Decode(s, bits);
            r.used <= Groups(bits) && r.value < Pow2(bits) && |Encode(r.value)| <= r.used
  {
    ParseWithin(s, Groups(bits));
    var p := Parse(s, Groups(bits));
    assert Word(p.value, bits) <= p.value by {
      ModAtMost(p.value, Pow2(bits));
    }
    EncodedLength(Word(p.value, bits), p.used);
  }

  lemma ModAtMost(x: nat, m: nat)
    requires m > 0
    ensures x % m <= x
  {
    assert x == m * (x / m) + x % m;
    if x < m {
      DivUnique(x, m, 0, x);
    }
  }

  /** The writer's loop, over a buffer of `n` bytes; it never runs past the buffer. */
  method Write(value: nat, n: nat) returns (tmp: array<Byte>, i: nat)
    requires |Encode(value)| <= n
    ensures fresh(tmp) && i <= tmp.Length == n
    ensures tmp[..i] == Encode(value)
  {
    hide Or, Shr;
    tmp := new Byte[n];
    i := 0;
    var v: nat := value;
    while v >= 0x80
      invariant i + |Encode(v)| <= tmp.Length
      invariant tmp[..i] + Encode(v) == Encode(value)
    {
      ContinuationByte(v);
      ghost var before := tmp[..i];
      tmp[i] := Or(v % 256, 0x80);
      i := i + 1;
      assert tmp[..i] == before + [v % 128 + 128];
      v := Shr(v, 7);
    }
    tmp[i] := v % 256;
    assert tmp[..i + 1] == tmp[..i] + Encode(v);
    i := i + 1;
  }

  lemma ContinuationByte(v: nat)
    ensures Or(v % 256, 0x80) == v % 128 + 128
    ensures Shr(v, 7) == v / 128
  {
    hide Or;
    Pow2Values();
    OrTopBit(v % 256, 7);
    var q, r := v / 256, v % 256;
    DivUnique(v, 128, 2 * q + r / 128, r % 128);
  }

  /** A signed value takes `k` bytes just when it fits in `7 * k` signed bits. */
  lemma SignedLength(x: int, bits: nat, k: nat)
    requires 0 < k && 0 < bits && FitsSigned(x, bits)
    ensures |Encode(ZigZag.Encode(x, bits))| <= k <==> FitsSigned(x, 7 * k)
  {
    hide ZigZag.Encode;
    EncodedLength(ZigZag.Encode(x, bits), k);
    if 7 * k <= bits {
      ZigZag.EncodeSize(x, bits, 7 * k);
    } else {
      ZigZag.EncodeSize(x, bits, bits);
      Pow2Monotone(bits, 7 * k);
      Pow2Monotone(bits - 1, 7 * k - 1);
    }
  }
}
