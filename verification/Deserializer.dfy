/** `Serialize` as a DESERIALIZER: a flat buffer, a read position, and the typed
    readers.  A failed `assert` of the source ends the program; here the reader
    returns `Failed`. */
module Deserializer {
  import opened Bits
  import opened Division
  import opened Wire
  import Varint
  import ZigZag

  datatype Result<+T> = Done(value: T) | Failed

  class Reader {
    var buf: seq<Byte>
    var readed: nat     // a uint32_t

    /** `_readed`, a uint32_t, can count all of the buffer. */
    ghost predicate Valid()
      reads this
    {
      readed <= |buf| < TWO32
    }

    /** What holds for a buffer of any size. */
    ghost predicate InBuffer()
      reads this
    {
      readed <= |buf| && readed < TWO32
    }

    /** What has not been read yet. */
    ghost function Rest(): seq<Byte>
      reads this
      requires readed <= |buf|
    {
      buf[readed..]
    }

    constructor (bytes: seq<Byte>)
      requires 0 < |bytes|
      ensures InBuffer() && buf == bytes && readed == 0
      ensures Valid() <==> |bytes| < TWO32
    {
      buf, readed := bytes, 0;
    }

    method Reset(bytes: seq<Byte>)
      modifies this
      ensures InBuffer() && buf == bytes && readed == 0 && Rest() == bytes
      ensures Valid() <==> |bytes| < TWO32
    {
      buf, readed := bytes, 0;
    }

    /** Reads on behind the bytes taken if and only if the position has not wrapped. */
    method Read(len: nat) returns (r: Result<seq<Byte>>)
      requires InBuffer()
      modifies this`readed
      ensures InBuffer()
      ensures r.Done? <==> len <= |old(Rest())|
      ensures r.Done? ==> r.value == old(Rest())[..len]
      ensures r.Done? ==> (Rest() == old(Rest())[len..] <==> old(readed) + len < TWO32)
      ensures r.Failed? ==> Rest() == old(Rest())
    {
      if len + readed <= |buf| {
        r := Done(buf[readed..readed + len]);
        Wraps(readed + len);
        readed := (readed + len) % TWO32;
      } else {
        r := Failed;
      }
    }

    static lemma Wraps(n: nat)
      ensures n % TWO32 <= n && (n % TWO32 == n <==> n < TWO32)
    {
    }

    /** The varint loop, for words of `bits` bits. */
    method ReadVarUint(bits: nat) returns (r: Result<nat>)
      requires Valid() && bits > 0
      modifies this`readed
      ensures Valid()
      ensures match Varint.Decode(old(Rest()), bits)
              case Short => r.Failed?
              case Parsed(v, used) => r == Done(v) && used <= |old(Rest())| && Rest() == old(Rest())[used..]
    {
      hide Or, And, Shl, Word, Pow2, Continues, Varint.Groups, Varint.Parse;
      var ret: nat := 0;
      var i: nat := 0;
      ghost var s, groups := Rest(), Varint.Groups(bits);
      ghost var k: nat, acc: nat := 0, 0;
      Begin(s, bits);
      while i < bits
        invariant Valid() && i == 7 * k && k <= groups && k <= |s| && Rest() == s[k..]
        invariant acc < Pow2(i) && ret == Word(acc, bits)
        invariant Continues(s, groups, k, acc)
        decreases bits - i
      {
        var b := Read(1);
        if b.Failed? {
          RanOut(s, groups, acc);
          return Failed;
        }
        var byte := b.value[0];
        assert byte == s[k] && Rest() == s[k + 1..];
        GroupStep(s, groups, k, acc);
        TakeGroup(acc, byte, i, bits);
        if byte < 0x80 {
          ret := Or(ret, Word(Shl(byte, i), bits));
          return Done(ret);
        }
        ret := Or(ret, Word(Shl(And(byte, 0x7f), i), bits));
        acc := acc + (byte % 128) * Pow2(i);
        k, i := k + 1, i + 7;
      }
      Finish(s, groups, acc);
      r := Done(ret);
    }

    /** Reading `s` comes down to reading on after `k` bytes that added up to `acc`. */
    static ghost predicate Continues(s: seq<Byte>, groups: nat, k: nat, acc: nat)
      requires k <= |s| && k <= groups
    {
      Varint.Parse(s, groups) ==
      match Varint.Parse(s[k..], groups - k)
      case Short => Varint.Short
      case Parsed(v, used) => Varint.Parsed(acc + v * Pow2(7 * k), k + used)
    }

    static lemma Begin(s: seq<Byte>, bits: nat)
      ensures Word(0, bits) == 0 < Pow2(0)
      ensures 7 * (Varint.Groups(bits) - 1) < bits <= 7 * Varint.Groups(bits)
      ensures Continues(s, Varint.Groups(bits), 0, 0)
    {
      WordOf(0, bits);
      assert s[0..] == s && Pow2(0) == 1;
    }

    static lemma Finish(s: seq<Byte>, groups: nat, acc: nat)
      requires groups <= |s| && Continues(s, groups, groups, acc)
      ensures Varint.Parse(s, groups) == Varint.Parsed(acc, groups)
    {
    }

    static lemma RanOut(s: seq<Byte>, groups: nat, acc: nat)
      requires |s| < groups && Continues(s, groups, |s|, acc)
      ensures Varint.Parse(s, groups) == Varint.Short
    {
    }

    static lemma NextGroup(i: nat)
      ensures Pow2(i + 7) == 128 * Pow2(i)
    {
      Pow2Values();
      Pow2Add(i, 7);
    }

    static lemma Distribute(g: nat, v: nat, p: nat)
      ensures (g + 128 * v) * p == g * p + v * (128 * p)
    {
    }

    static lemma ParseStep(s: seq<Byte>, groups: nat, k: nat)
      requires k < |s| && k < groups
      ensures s[k] < 128 ==> Varint.Parse(s[k..], groups - k) == Varint.Parsed(s[k], 1)
      ensures s[k] >= 128 ==>
                Varint.Parse(s[k..], groups - k) ==
                match Varint.Parse(s[k + 1..], groups - (k + 1))
                case Short => Varint.Short
                case Parsed(v, used) => Varint.Parsed(s[k] - 128 + 128 * v, used + 1)
    {
      assert s[k..][1..] == s[k + 1..];
    }

    static lemma GroupStep(s: seq<Byte>, groups: nat, k: nat, acc: nat)
      requires k < |s| && k < groups && Continues(s, groups, k, acc)
      ensures s[k] < 128 ==> Varint.Parse(s, groups) == Varint.Parsed(acc + s[k] * Pow2(7 * k), k + 1)
      ensures s[k] >= 128 ==> Continues(s, groups, k + 1, acc + (s[k] - 128) * Pow2(7 * k))
    {
      hide Pow2, Varint.Parse;
      ParseStep(s, groups, k);
      NextGroup(7 * k);
      assert 7 * (k + 1) == 7 * k + 7;
      var tail := Varint.Parse(s[k + 1..], groups - (k + 1));
      if s[k] >= 128 && tail.Parsed? {
        Distribute(s[k] - 128, tail.value, Pow2(7 * k));
      }
    }

    /** Or-ing in a group above everything read so far, cut off at the word's width. */
    static lemma TakeGroup(acc: nat, byte: Byte, i: nat, bits: nat)
      requires acc < Pow2(i) && i < bits
      ensures var g := byte % 128;
              && And(byte, 0x7f) == g
              && Or(Word(acc, bits), Word(Shl(g, i), bits)) == Word(acc + g * Pow2(i), bits)
              && acc + g * Pow2(i) < Pow2(i + 7)
    {
      hide Or, And, Pow2;
      var g := byte % 128;
      Pow2Values();
      AndMask(byte, 7);
      NextGroup(i);
      UnderNextGroup(acc, g, Pow2(i));
      Pow2Add(bits - i, i);
      CutShift(g, Pow2(bits - i), Pow2(i), acc);
      WordOf(acc, bits);
      OrDisjoint(acc, g % Pow2(bits - i), i);
    }

    static lemma UnderNextGroup(acc: nat, g: nat, p: nat)
      requires acc < p && g < 128
      ensures acc + g * p < 128 * p
    {
      assert (g + 1) * p <= 128 * p;
    }

    /** Multiplying by `low` commutes with the remainder, and `acc < low` rides along. */
    static lemma CutShift(g: nat, high: nat, low: nat, acc: nat)
      requires high > 0 && low > 0 && acc < low
      ensures acc < high * low
      ensures (g * low) % (high * low) == (g % high) * low
      ensures (acc + g * low) % (high * low) == acc + (g % high) * low
    {
      var q, r := g / high, g % high;
      assert g == high * q + r;
      assert g * low == (high * low) * q + r * low;
      assert (r + 1) * low <= high * low;
      assert r * low + low == (r + 1) * low;
      assert low <= high * low;
      DivUnique(g * low, high * low, q, r * low);
      DivUnique(acc + g * low, high * low, q, acc + r * low);
    }

    method ReadUint8() returns (r: Result<Byte>)
      requires Valid()
      modifies this`readed
      ensures Valid() && Took(old(Rest()), Uint8, false, if r.Done? then Done(Num(r.value)) else Failed)
    {
      var b := Read(1);
      r := if b.Done? then Done(b.value[0]) else Failed;
    }

    method ReadInt8() returns (r: Result<int>)
      requires Valid()
      modifies this`readed
      ensures Valid() && Took(old(Rest()), Int8, false, if r.Done? then Done(Num(r.value)) else Failed)
    {
      var b := Read(1);
      r := if b.Done? then Done(Signed(b.value[0], 8)) else Failed;
    }

    method ReadVarInt(w: VarSize) returns (r: Result<int>)
      requires Valid()
      modifies this`readed
      ensures Valid() && Took(old(Rest()), VarInt(w), false, if r.Done? then Done(Num(r.value)) else Failed)
    {
      var v := ReadVarUint(w.Bits());
      r := if v.Done? then Done(ZigZag.Decode(v.value, w.Bits())) else Failed;
    }

    /** `readBit32`/`readBit64`: the test at line 268 names a function, so the swap always happens. */
    method ReadFixed(w: FixedSize, little: bool) returns (r: Result<nat>)
      requires Valid()
      modifies this`readed
      ensures Valid() && Took(old(Rest()), Fixed(w), little, if r.Done? then Done(Num(r.value)) else Failed)
    {
      var b := Read(w.Bytes());
      r := if b.Done? then Done(Bswap(FromHost(b.value, little), w.Bytes())) else Failed;
    }

    method ReadSFixed(w: FixedSize, little: bool) returns (r: Result<int>)
      requires Valid()
      modifies this`readed
      ensures Valid() && Took(old(Rest()), SFixed(w), little, if r.Done? then Done(Num(r.value)) else Failed)
    {
      var v := ReadFixed(w, little);
      r := if v.Done? then Done(ZigZag.Decode(v.value, w.Bits())) else Failed;
    }

    method ReadString() returns (r: Result<seq<Byte>>)
      requires Valid()
      modifies this`readed
      ensures Valid() && Took(old(Rest()), Str, false, if r.Done? then Done(Text(r.value)) else Failed)
    {
      ghost var s := Rest();
      var len := ReadVarUint(32);
      if len.Failed? {
        return Failed;
      }
      ghost var used := Varint.Decode(s, 32).used;
      if len.value == 0 {
        assert s[used..used] == [];
        return Done([]);
      }
      var t := Read(len.value);
      r := t;
      if t.Done? {
        assert s[used..][..len.value] == s[used..used + len.value];
        assert s[used..][len.value..] == s[used + len.value..];
      }
    }

    /** From `before`, a typed reader returned `r`: it consumed exactly the field at the front. */
    ghost predicate Took(before: seq<Byte>, kind: Kind, little: bool, r: Result<Value>)
      requires Valid()
      reads this
    {
      match DecodeField(kind, before, little)
      case Aborted => r.Failed?
      case Got(v, used) => r == Done(v) && used <= |before| && Rest() == before[used..]
    }

    /** The reader for one field of a kind. */
    method ReadField(kind: Kind, little: bool) returns (r: Result<Value>)
      requires Valid()
      modifies this`readed
      ensures Valid() && Took(old(Rest()), kind, little, r)
    {
      hide Varint.Decode, ZigZag.Decode, ReadFixedBytes, Bswap;
      match kind
      case Uint8 => var v := ReadUint8(); r := if v.Done? then Done(Num(v.value)) else Failed;
      case Int8 => var v := ReadInt8(); r := if v.Done? then Done(Num(v.value)) else Failed;
      case VarUint(w) => var v := ReadVarUint(w.Bits()); r := if v.Done? then Done(Num(v.value)) else Failed;
      case VarInt(w) => var v := ReadVarInt(w); r := if v.Done? then Done(Num(v.value)) else Failed;
      case Fixed(w) => var v := ReadFixed(w, little); r := if v.Done? then Done(Num(v.value)) else Failed;
      case SFixed(w) => var v := ReadSFixed(w, little); r := if v.Done? then Done(Num(v.value)) else Failed;
      case Real(w) => var v := ReadFixed(w, little); r := if v.Done? then Done(Num(v.value)) else Failed;
      case Str => var v := ReadString(); r := if v.Done? then Done(Text(v.value)) else Failed;
    }
  }
}
