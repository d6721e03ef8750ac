/** The bytes of each kind of field, as values: what the typed writers emit and
    what the typed readers make of a byte string. */
module Wire {
  import opened Bits
  import opened Division
  import Varint
  import ZigZag

  // ------------------------------------------------------------- byte order

  function BigEndian(v: nat, k: nat): (s: seq<Byte>)
    ensures |s| == k
  {
    if k == 0 then [] else BigEndian(v / 256, k - 1) + [v % 256]
  }

  /** The most significant byte comes first. */
  lemma {:induction false} BigEndianDigits(v: nat, k: nat, i: nat)
    requires i < k
    ensures BigEndian(v, k)[i] == v / Pow2(8 * (k - 1 - i)) % 256
  {
    if i == k - 1 {
      assert Pow2(0) == 1;
    } else {
      BigEndianDigits(v / 256, k - 1, i);
      Pow2Values();
      Pow2Add(8, 8 * (k - 2 - i));
      assert 8 + 8 * (k - 2 - i) == 8 * (k - 1 - i);
      DivTwice(v, 256, Pow2(8 * (k - 2 - i)), Pow2(8 * (k - 1 - i)));
    }
  }

  function LittleEndian(v: nat, k: nat): (s: seq<Byte>)
    ensures |s| == k
  {
    if k == 0 then [] else [v % 256] + LittleEndian(v / 256, k - 1)
  }

  function FromBigEndian(s: seq<Byte>): nat {
    if s == [] then 0 else FromBigEndian(s[..|s| - 1]) * 256 + s[|s| - 1]
  }

  function FromLittleEndian(s: seq<Byte>): nat {
    if s == [] then 0 else s[0] + 256 * FromLittleEndian(s[1..])
  }

  /** A word in the memory of the host, and back. */
  function ToHost(v: nat, k: nat, little: bool): (s: seq<Byte>)
    ensures |s| == k
  {
    if little then LittleEndian(v, k) else BigEndian(v, k)
  }

  function FromHost(s: seq<Byte>, little: bool): nat {
    if little then FromLittleEndian(s) else FromBigEndian(s)
  }

  /** bswap_32 and bswap_64: the word with its `k` bytes in reverse. */
  function Bswap(v: nat, k: nat): nat { FromLittleEndian(BigEndian(v, k)) }

  function Reverse(s: seq<Byte>): (r: seq<Byte>)
    ensures |r| == |s|
  {
    if s == [] then [] else Reverse(s[1..]) + [s[0]]
  }

  lemma {:induction false} BigIsReversedLittle(v: nat, k: nat)
    ensures BigEndian(v, k) == Reverse(LittleEndian(v, k))
  {
    if k == 0 {
    } else {
      BigIsReversedLittle(v / 256, k - 1);
      assert LittleEndian(v, k)[1..] == LittleEndian(v / 256, k - 1);
    }
  }

  lemma {:induction false} ReverseLast(s: seq<Byte>, b: Byte)
    ensures Reverse(s + [b]) == [b] + Reverse(s)
  {
    if s == [] {
    } else {
      ReverseLast(s[1..], b);
      assert (s + [b])[1..] == s[1..] + [b];
    }
  }

  lemma {:induction false} ReverseTwice(s: seq<Byte>)
    ensures Reverse(Reverse(s)) == s
  {
    if s == [] {
    } else {
      ReverseTwice(s[1..]);
      ReverseLast(Reverse(s[1..]), s[0]);
    }
  }

  lemma {:induction false} FromReversed(s: seq<Byte>)
    ensures FromBigEndian(Reverse(s)) == FromLittleEndian(s)
  {
    if s == [] {
    } else {
      FromReversed(s[1..]);
      assert Reverse(s)[..|s| - 1] == Reverse(s[1..]);
    }
  }

  lemma {:induction false} LittleOfFrom(s: seq<Byte>)
    ensures LittleEndian(FromLittleEndian(s), |s|) == s
  {
    if s == [] {
    } else {
      LittleOfFrom(s[1..]);
      DivUnique(FromLittleEndian(s), 256, FromLittleEndian(s[1..]), s[0]);
    }
  }

  lemma {:induction false} FromOfLittle(v: nat, k: nat)
    requires v < Pow2(8 * k)
    ensures FromLittleEndian(LittleEndian(v, k)) == v
  {
    if k == 0 {
    } else {
      Pow2Values();
      Pow2Add(8, 8 * (k - 1));
      assert 8 + 8 * (k - 1) == 8 * k;
      var p := Pow2(8 * (k - 1));
      assert v / 256 < p;
      FromOfLittle(v / 256, k - 1);
      assert LittleEndian(v, k)[1..] == LittleEndian(v / 256, k - 1);
    }
  }

  lemma FromOfBig(v: nat, k: nat)
    requires v < Pow2(8 * k)
    ensures FromBigEndian(BigEndian(v, k)) == v
  {
    BigIsReversedLittle(v, k);
    FromReversed(LittleEndian(v, k));
    FromOfLittle(v, k);
  }

  /** The bytes that `writeBit32` and `writeBit64` emit: big-endian on every host. */
  function FixedBytes(v: nat, k: nat, little: bool): (s: seq<Byte>)
    ensures |s| == k
  {
    ToHost(if little then Bswap(v, k) else v, k, little)
  }

  /** `readBit32` and `readBit64`: their test names a function, so they always swap. */
  function ReadFixedBytes(s: seq<Byte>, little: bool): nat {
    Bswap(FromHost(s, little), |s|)
  }

  lemma FixedIsBigEndian(v: nat, k: nat, little: bool)
    ensures FixedBytes(v, k, little) == BigEndian(v, k)
  {
    LittleOfFrom(BigEndian(v, k));
  }

  lemma ReadFixedValue(s: seq<Byte>, little: bool)
    ensures ReadFixedBytes(s, little) == if little then FromBigEndian(s) else FromLittleEndian(s)
  {
    if little {
      LittleOfFrom(s);
      BigIsReversedLittle(FromLittleEndian(s), |s|);
      FromReversed(Reverse(s));
      ReverseTwice(s);
    } else {
      BigOfFrom(s);
    }
  }

  lemma BigOfFrom(s: seq<Byte>)
    ensures BigEndian(FromBigEndian(s), |s|) == s
  {
    ReverseTwice(s);
    FromReversed(Reverse(s));
    LittleOfFrom(Reverse(s));
    BigIsReversedLittle(FromBigEndian(s), |s|);
  }

  /** A fixed word survives just when the host is little-endian or the word reads the same both ways. */
  lemma FixedRoundTrip(v: nat, k: nat, little: bool)
    requires v < Pow2(8 * k)
    ensures ReadFixedBytes(FixedBytes(v, k, little), little) == v <==> little || Bswap(v, k) == v
  {
    FixedIsBigEndian(v, k, little);
    ReadFixedValue(BigEndian(v, k), little);
    FromOfBig(v, k);
  }

  // ----------------------------------------------------------------- fields

  datatype VarSize = V16 | V32 | V64 {
    function Bits(): nat { if V16? then 16 else if V32? then 32 else 64 }
  }

  datatype FixedSize = F32 | F64 {
    function Bytes(): nat { if F32? then 4 else 8 }
    function Bits(): nat { 8 * Bytes() }
  }

  /** `Real` stands for float and double, whose bits are carried as they are. */
  datatype Kind =
    | Uint8 | Int8
    | VarUint(width: VarSize) | VarInt(width: VarSize)
    | Fixed(size: FixedSize) | SFixed(size: FixedSize) | Real(size: FixedSize)
    | Str

  datatype Value = Num(x: int) | Text(s: seq<Byte>)

  datatype Field = Field(kind: Kind, value: Value)

  /** What the C++ parameter types admit. */
  predicate Typed(f: Field) {
    match f.kind
    case Uint8 => f.value.Num? && 0 <= f.value.x < 256
    case Int8 => f.value.Num? && FitsSigned(f.value.x, 8)
    case VarUint(w) => f.value.Num? && 0 <= f.value.x < Pow2(w.Bits())
    case VarInt(w) => f.value.Num? && FitsSigned(f.value.x, w.Bits())
    case Fixed(w) => f.value.Num? && 0 <= f.value.x < Pow2(w.Bits())
    case SFixed(w) => f.value.Num? && FitsSigned(f.value.x, w.Bits())
    case Real(w) => f.value.Num? && 0 <= f.value.x < Pow2(w.Bits())
    case Str => f.value.Text?
  }

  function EncodeField(f: Field, little: bool): (s: seq<Byte>)
    requires Typed(f)
  {
    match f.kind
    case Uint8 => [f.value.x]
    case Int8 => [ByteOf(f.value.x)]
    case VarUint(_) => Varint.Encode(f.value.x)
    case VarInt(w) => Varint.Encode(ZigZag.Encode(f.value.x, w.Bits()))
    case Fixed(w) => FixedBytes(f.value.x, w.Bytes(), little)
    case SFixed(w) => FixedBytes(ZigZag.Encode(f.value.x, w.Bits()), w.Bytes(), little)
    case Real(w) => FixedBytes(f.value.x, w.Bytes(), little)
    case Str =>
      var len := |f.value.s| % TWO32;   // the length is a uint32_t
      Varint.Encode(len) + f.value.s[..len]
  }

  function ByteOf(x: int): Byte { x % 256 }

  datatype Decoded = Got(value: Value, used: nat) | Aborted

  function DecodeField(kind: Kind, s: seq<Byte>, little: bool): Decoded {
    match kind
    case Uint8 => if s == [] then Aborted else Got(Num(s[0]), 1)
    case Int8 => if s == [] then Aborted else Got(Num(Signed(s[0], 8)), 1)
    case VarUint(w) => (
      match Varint.Decode(s, w.Bits())
      case Short => Aborted
      case Parsed(v, used) => Got(Num(v), used)
    )
    case VarInt(w) => (
      match Varint.Decode(s, w.Bits())
      case Short => Aborted
      case Parsed(v, used) => Got(Num(ZigZag.Decode(v, w.Bits())), used)
    )
    case Fixed(w) => DecodeFixed(s, w.Bytes(), little)
    case SFixed(w) => (
      match DecodeFixed(s, w.Bytes(), little)
      case Aborted => Aborted
      case Got(v, used) => Got(Num(ZigZag.Decode(v.x, w.Bits())), used)
    )
    case Real(w) => DecodeFixed(s, w.Bytes(), little)
    case Str => (
      match Varint.Decode(s, 32)
      case Short => Aborted
      case Parsed(len, used) =>
        if used + len <= |s| then Got(Text(s[used..used + len]), used + len) else Aborted
    )
  }

  function DecodeFixed(s: seq<Byte>, k: nat, little: bool): (r: Decoded)
    ensures r.Got? ==> r.value.Num? && r.value.x >= 0
  {
    if |s| < k then Aborted else Got(Num(ReadFixedBytes(s[..k], little)), k)
  }

  /** The fields that come back as they went: on a little-endian host, all but
      strings of 4 GiB and more. */
  predicate Survives(f: Field, little: bool)
    requires Typed(f)
  {
    match f.kind
    case Fixed(w) => little || Bswap(f.value.x, w.Bytes()) == f.value.x
    case Real(w) => little || Bswap(f.value.x, w.Bytes()) == f.value.x
    case SFixed(w) =>
      little || Bswap(ZigZag.Encode(f.value.x, w.Bits()), w.Bytes()) == ZigZag.Encode(f.value.x, w.Bits())
    case Str => |f.value.s| < TWO32
    case _ => true
  }

  lemma {:induction false} FromLittleBound(s: seq<Byte>)
    ensures FromLittleEndian(s) < Pow2(8 * |s|)
  {
    if s == [] {
    } else {
      FromLittleBound(s[1..]);
      Pow2Values();
      Pow2Add(8, 8 * |s[1..]|);
      assert 8 + 8 * |s[1..]| == 8 * |s|;
    }
  }

  lemma ByteRoundTrip(x: int)
    requires FitsSigned(x, 8)
    ensures Signed(ByteOf(x), 8) == x
  {
    Pow2Values();
    assert Pow2(8) == 2 * Pow2(7);
    if x < 0 {
      DivUnique(x, 256, -1, x + 256);
    } else {
      DivUnique(x, 256, 0, x);
    }
  }

  lemma FixedField(v: nat, k: nat, rest: seq<Byte>, little: bool)
    requires v < Pow2(8 * k)
    ensures DecodeFixed(FixedBytes(v, k, little) + rest, k, little) == Got(Num(if little then v else Bswap(v, k)), k)
    ensures Bswap(v, k) < Pow2(8 * k)
  {
    var s := FixedBytes(v, k, little);
    assert (s + rest)[..k] == s;
    FixedIsBigEndian(v, k, little);
    ReadFixedValue(s, little);
    FromOfBig(v, k);
    FromLittleBound(BigEndian(v, k));
  }

  lemma SFixedField(x: int, w: FixedSize, rest: seq<Byte>, little: bool)
    requires FitsSigned(x, w.Bits())
    ensures var z := ZigZag.Encode(x, w.Bits());
            var d := DecodeField(SFixed(w), FixedBytes(z, w.Bytes(), little) + rest, little);
            && d.Got? && d.used == w.Bytes()
            && (d.value == Num(x) <==> little || Bswap(z, w.Bytes()) == z)
  {
    hide ZigZag.Encode, ZigZag.Decode, FixedBytes, Bswap, DecodeFixed;
    var z := ZigZag.Encode(x, w.Bits());
    ZigZag.DecodeEncode(x, w.Bits());
    FixedField(z, w.Bytes(), rest, little);
    ZigZag.EncodeDecode(Bswap(z, w.Bytes()), w.Bits());
  }

  lemma StringField(t: seq<Byte>, rest: seq<Byte>, little: bool)
    ensures var s := EncodeField(Field(Str, Text(t)), little);
            var d := DecodeField(Str, s + rest, little);
            && d.Got? && d.used == |s|
            && (d.value == Text(t) <==> |t| < TWO32)
  {
    hide ZigZag.Encode, ZigZag.Decode, Varint.Encode, Varint.Decode, FixedBytes, Bswap, DecodeFixed, Pow2;
    var len := |t| % TWO32;
    Pow2Values();
    Varint.RoundTrip(len, 32, t[..len] + rest);
    var s := EncodeField(Field(Str, Text(t)), little);
    var head := Varint.Encode(len);
    assert s == head + t[..len];
    hide EncodeField;
    assert s + rest == head + (t[..len] + rest);
    assert (s + rest)[|head|..|head| + len] == t[..len];
  }

  /** A reader takes exactly the bytes of its field, and its value back just when it survives. */
  lemma FieldRoundTrip(f: Field, rest: seq<Byte>, little: bool)
    requires Typed(f)
    ensures var s := EncodeField(f, little);
            var d := DecodeField(f.kind, s + rest, little);
            && d.Got? && d.used == |s| > 0
            && (d.value == f.value <==> Survives(f, little))
  {
    hide ZigZag.Encode, ZigZag.Decode, Varint.Encode, Varint.Decode, FixedBytes, Bswap, DecodeFixed, Pow2;
    match f.kind
    case Uint8 =>
    case Int8 => ByteRoundTrip(f.value.x);
    case VarUint(w) => Varint.RoundTrip(f.value.x, w.Bits(), rest);
    case VarInt(w) =>
      ZigZag.DecodeEncode(f.value.x, w.Bits());
      Varint.RoundTrip(ZigZag.Encode(f.value.x, w.Bits()), w.Bits(), rest);
    case Fixed(w) => FixedField(f.value.x, w.Bytes(), rest, little);
    case SFixed(w) => SFixedField(f.value.x, w, rest, little);
    case Real(w) => FixedField(f.value.x, w.Bytes(), rest, little);
    case Str => StringField(f.value.s, rest, little);
  }

  /** Cut off anywhere, the bytes of a field make its reader abort. */
  lemma CutOffAborts(f: Field, n: nat, little: bool)
    requires Typed(f) && n < |EncodeField(f, little)|
    ensures DecodeField(f.kind, EncodeField(f, little)[..n], little).Aborted?
  {
    hide ZigZag.Encode, ZigZag.Decode, Varint.Encode, Varint.Parse, FixedBytes, Bswap, ReadFixedBytes, Pow2;
    match f.kind
    case VarUint(w) => Varint.CutOffIsShort(f.value.x, n, w.Bits());
    case VarInt(w) =>
      ZigZag.DecodeEncode(f.value.x, w.Bits());
      Varint.CutOffIsShort(ZigZag.Encode(f.value.x, w.Bits()), n, w.Bits());
    case Str => CutOffString(f.value.s, n, little);
    case _ =>
  }

  lemma CutOffString(t: seq<Byte>, n: nat, little: bool)
    requires n < |EncodeField(Field(Str, Text(t)), little)|
    ensures DecodeField(Str, EncodeField(Field(Str, Text(t)), little)[..n], little).Aborted?
  {
    hide ZigZag.Encode, ZigZag.Decode, Varint.Encode, Varint.Decode, FixedBytes, Bswap, DecodeFixed, Pow2;
    var len := |t| % TWO32;
    Pow2Values();
    var s := EncodeField(Field(Str, Text(t)), little);
    var head := Varint.Encode(len);
    assert s == head + t[..len];
    hide EncodeField;
    if n < |head| {
      assert s[..n] == head[..n];
      Varint.CutOffIsShort(len, n, 32);
    } else {
      assert s[..n] == head + t[..n - |head|];
      Varint.RoundTrip(len, 32, t[..n - |head|]);
    }
  }

  /** Integers take as few bytes as their reader allows: no byte string that it reads as the same value
      is shorter; and signed ones take `k` bytes just when `7 * k` signed bits hold them. */
  lemma IntegersAreShort(f: Field, s: seq<Byte>, little: bool)
    requires Typed(f) && (f.kind.VarUint? || f.kind.VarInt?)
    ensures var d := DecodeField(f.kind, s, little);
            d.Got? && d.value == f.value ==> |EncodeField(f, little)| <= d.used
    ensures f.kind.VarUint? ==> forall k: nat :: k > 0 ==> (|EncodeField(f, little)| <= k <==> f.value.x < Pow2(7 * k))
    ensures f.kind.VarInt? ==>
              forall k: nat :: k > 0 ==> (|EncodeField(f, little)| <= k <==> FitsSigned(f.value.x, 7 * k))
  {
    hide ZigZag.Encode, ZigZag.Decode, Varint.Encode, Varint.Decode, Pow2;
    var w := f.kind.width;
    var d := Varint.Decode(s, w.Bits());
    if d.Parsed? {
      Varint.WriterIsShortest(s, w.Bits());
      if f.kind.VarInt? {
        ZigZag.EncodeDecode(d.value, w.Bits());
      }
    }
    forall k: nat | k > 0
      ensures f.kind.VarUint? ==> (|EncodeField(f, little)| <= k <==> f.value.x < Pow2(7 * k))
      ensures f.kind.VarInt? ==> (|EncodeField(f, little)| <= k <==> FitsSigned(f.value.x, 7 * k))
    {
      if f.kind.VarUint? {
        Varint.EncodedLength(f.value.x, k);
      } else {
        Varint.SignedLength(f.value.x, w.Bits(), k);
        ZigZag.DecodeEncode(f.value.x, w.Bits());
      }
    }
  }

  // --------------------------------------------------------------- messages

  predicate AllTyped(fs: seq<Field>) { forall i :: 0 <= i < |fs| ==> Typed(fs[i]) }

  function EncodeAll(fs: seq<Field>, little: bool): seq<Byte>
    requires AllTyped(fs)
  {
    if fs == [] then [] else EncodeAll(fs[..|fs| - 1], little) + EncodeField(fs[|fs| - 1], little)
  }

  /** Reads one field of each kind in turn; the values so far, and the bytes taken. */
  datatype Progress = Read(values: seq<Value>, used: nat) | Stopped

  function DecodeAll(kinds: seq<Kind>, s: seq<Byte>, little: bool): Progress {
    if kinds == [] then Read([], 0)
    else
      match DecodeAll(kinds[..|kinds| - 1], s, little)
      case Stopped => Stopped
      case Read(vs, used) =>
        if used > |s| then Stopped
        else
          match DecodeField(kinds[|kinds| - 1], s[used..], little)
          case Aborted => Stopped
          case Got(v, n) => Read(vs + [v], used + n)
  }

  function Kinds(fs: seq<Field>): (r: seq<Kind>)
    ensures |r| == |fs|
  {
    seq(|fs|, i requires 0 <= i < |fs| => fs[i].kind)
  }

  function Values(fs: seq<Field>): (r: seq<Value>)
    ensures |r| == |fs|
    ensures forall i :: 0 <= i < |fs| ==> r[i] == fs[i].value
  {
    seq(|fs|, i requires 0 <= i < |fs| => fs[i].value)
  }

  /** Whole messages: reading the same kinds in the same order never aborts, takes exactly the
      bytes written, and returns each value that survives, and only those. */
  lemma {:induction false} MessageReads(fs: seq<Field>, rest: seq<Byte>, little: bool)
    requires AllTyped(fs)
    ensures var r := DecodeAll(Kinds(fs), EncodeAll(fs, little) + rest, little);
            && r.Read? && |r.values| == |fs| && r.used == |EncodeAll(fs, little)|
            && forall i :: 0 <= i < |fs| ==> (r.values[i] == fs[i].value <==> Survives(fs[i], little))
  {
    hide DecodeField, EncodeField, Survives, Typed;
    if fs == [] {
    } else {
      var n := |fs| - 1;
      var front, last := fs[..n], fs[n];
      var s, head := EncodeField(last, little), EncodeAll(front, little);
      MessageReads(front, s + rest, little);
      FieldRoundTrip(last, rest, little);
      assert head + s + rest == head + (s + rest);
      assert Kinds(fs)[..n] == Kinds(front);
      var r := DecodeAll(Kinds(front), head + (s + rest), little);
      assert (head + (s + rest))[r.used..] == s + rest;
      assert DecodeAll(Kinds(fs), head + s + rest, little) ==
             Read(r.values + [DecodeField(last.kind, s + rest, little).value], |head| + |s|);
    }
  }

  /** Cut off anywhere, a message makes its reader abort. */
  lemma {:induction false} CutOffMessage(fs: seq<Field>, n: nat, little: bool)
    requires AllTyped(fs) && n < |EncodeAll(fs, little)|
    ensures DecodeAll(Kinds(fs), EncodeAll(fs, little)[..n], little).Stopped?
  {
    hide DecodeField, EncodeField, Survives, Typed;
    var m := |fs| - 1;
    var front, last := fs[..m], fs[m];
    var head, s := EncodeAll(front, little), EncodeField(last, little);
    assert Kinds(fs)[..m] == Kinds(front) && Kinds(fs)[m] == last.kind;
    var cut := EncodeAll(fs, little)[..n];
    if n < |head| {
      assert cut == head[..n];
      CutOffMessage(front, n, little);
    } else {
      assert cut == head + s[..n - |head|];
      MessageReads(front, s[..n - |head|], little);
      assert cut[|head|..] == s[..n - |head|];
      CutOffAborts(last, n - |head|, little);
    }
  }

  /** The message comes back whole if and only if every field survives. */
  lemma MessageRoundTrip(fs: seq<Field>, rest: seq<Byte>, little: bool)
    requires AllTyped(fs)
    ensures DecodeAll(Kinds(fs), EncodeAll(fs, little) + rest, little) == Read(Values(fs), |EncodeAll(fs, little)|)
            <==> forall i :: 0 <= i < |fs| ==> Survives(fs[i], little)
  {
    hide DecodeAll, EncodeAll, Survives;
    MessageReads(fs, rest, little);
    var r := DecodeAll(Kinds(fs), EncodeAll(fs, little) + rest, little);
    if forall i :: 0 <= i < |fs| ==> Survives(fs[i], little) {
      assert r.values == Values(fs);
    }
  }
}
