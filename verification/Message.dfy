/** The typed writers over the chunk chain, and whole messages from the fields of
    one program to the fields of another. */
module Message {
  import opened Bits
  import opened Sequences
  import opened Wire
  import opened ChunkChain
  import Varint
  import ZigZag
  import Deserializer

  /** The lengths of the `write` calls behind one field. */
  function FieldLens(f: Field, little: bool): seq<nat>
    requires Typed(f)
  {
    if f.kind.Str? && |f.value.s| % TWO32 > 0
    then [|Varint.Encode(|f.value.s| % TWO32)|, |f.value.s| % TWO32]
    else [|EncodeField(f, little)|]
  }

  function MessageLens(fs: seq<Field>, little: bool): seq<nat>
    requires AllTyped(fs)
  {
    if fs == [] then [] else MessageLens(fs[..|fs| - 1], little) + FieldLens(fs[|fs| - 1], little)
  }

  method WriteVarUint(se: Serializer, value: nat, bits: nat)
    requires se.Valid() && bits > 0 && value < Pow2(bits)
    modifies se, se.Repr
    ensures se.Valid() && fresh(se.Repr - old(se.Repr))
    ensures se.written == old(se.written) + Varint.Encode(value)
    ensures se.lens == old(se.lens) + [|Varint.Encode(value)|]
  {
    hide Pow2;
    Varint.FitsInGroups(value, bits);
    var tmp, i := Varint.Write(value, Varint.Groups(bits));
    se.Write(tmp[..i]);
  }

  method WriteFixed(se: Serializer, value: nat, k: nat, little: bool)
    requires se.Valid()
    modifies se, se.Repr
    ensures se.Valid() && fresh(se.Repr - old(se.Repr))
    ensures se.written == old(se.written) + FixedBytes(value, k, little)
    ensures se.lens == old(se.lens) + [k]
  {
    var v := value;
    if little {
      v := Bswap(v, k);
    }
    se.Write(ToHost(v, k, little));
  }

  method WriteString(se: Serializer, str: seq<Byte>)
    requires se.Valid()
    modifies se, se.Repr
    ensures se.Valid() && fresh(se.Repr - old(se.Repr))
    ensures se.written == old(se.written) + EncodeField(Field(Str, Text(str)), false)
    ensures se.lens == old(se.lens) + FieldLens(Field(Str, Text(str)), false)
  {
    hide Varint.Encode, Serializer.Valid, Pow2, ZigZag.Encode, FixedBytes;
    var len := |str| % TWO32;
    ghost var head := Varint.Encode(len);
    assert EncodeField(Field(Str, Text(str)), false) == head + str[..len];
    assert FieldLens(Field(Str, Text(str)), false) == [|head|] + if len > 0 then [len] else [];
    hide EncodeField, FieldLens;
    Pow2Values();
    WriteVarUint(se, len, 32);
    if len == 0 {
      return;
    }
    se.Write(str[..len]);
  }

  method WriteField(se: Serializer, f: Field, little: bool)
    requires se.Valid() && Typed(f)
    modifies se, se.Repr
    ensures se.Valid() && fresh(se.Repr - old(se.Repr))
    ensures se.written == old(se.written) + EncodeField(f, little)
    ensures se.lens == old(se.lens) + FieldLens(f, little)
  {
    hide Varint.Encode, ZigZag.Encode, FixedBytes, Pow2, Serializer.Valid;
    match f.kind
    case Uint8 => se.Write([f.value.x]);
    case Int8 => se.Write([ByteOf(f.value.x)]);
    case VarUint(w) => WriteVarUint(se, f.value.x, w.Bits());
    case VarInt(w) =>
      ZigZag.DecodeEncode(f.value.x, w.Bits());
      WriteVarUint(se, ZigZag.Encode(f.value.x, w.Bits()), w.Bits());
    case Fixed(w) => WriteFixed(se, f.value.x, w.Bytes(), little);
    case SFixed(w) => WriteFixed(se, ZigZag.Encode(f.value.x, w.Bits()), w.Bytes(), little);
    case Real(w) => WriteFixed(se, f.value.x, w.Bytes(), little);
    case Str => WriteString(se, f.value.s);
  }

  /** Whether the string that `toString` returns is the message. */
  predicate Delivered(fs: seq<Field>, base: nat, repositions: bool, little: bool)
    requires AllTyped(fs) && 0 < base
  {
    && (repositions || AfterWrites(MessageLens(fs, little), base).sound)
    && |EncodeAll(fs, little)| < TWO32
  }

  lemma FieldLensSum(f: Field, little: bool)
    requires Typed(f)
    ensures Sum(FieldLens(f, little)) == |EncodeField(f, little)|
  {
    hide Varint.Encode, ZigZag.Encode, FixedBytes;
    var lens := FieldLens(f, little);
    assert Sum(lens[..0]) == 0;
    if |lens| == 2 {
      assert lens[..1][..0] == lens[..0];
    }
  }

  /** The writes behind a message are as long as the message. */
  lemma {:induction false} MessageLensSum(fs: seq<Field>, little: bool)
    requires AllTyped(fs)
    ensures Sum(MessageLens(fs, little)) == |EncodeAll(fs, little)|
  {
    hide Typed, EncodeField, FieldLens;
    if fs == [] {
    } else {
      var n := |fs| - 1;
      MessageLensSum(fs[..n], little);
      SumAppend(MessageLens(fs[..n], little), FieldLens(fs[n], little));
      FieldLensSum(fs[n], little);
    }
  }

  /** Messages shorter than a chunk are delivered by the code as written, whatever their fields. */
  lemma SmallMessagesArrive(fs: seq<Field>, base: nat, little: bool)
    requires AllTyped(fs) && 0 < base < TWO32 && |EncodeAll(fs, little)| < base
    ensures Delivered(fs, base, false, little)
  {
    hide EncodeAll, MessageLens;
    MessageLensSum(fs, little);
    SoundWhileItFits(MessageLens(fs, little), base);
  }

  /** A `serializeToString` method: the fields in order, then `toString`. */
  method SerializeToString(fs: seq<Field>, base: nat, repositions: bool, little: bool) returns (cells: seq<Cell>)
    requires AllTyped(fs) && 0 < base < TWO32
    ensures cells == Lift(EncodeAll(fs, little)) <==> Delivered(fs, base, repositions, little)
  {
    hide EncodeField, FieldLens, Typed, Serializer.Valid;
    var se := new Serializer(base, repositions);
    var i := 0;
    while i < |fs|
      invariant i <= |fs| && se.Valid() && fresh(se) && fresh(se.Repr)
      invariant se.written == EncodeAll(fs[..i], little) && se.lens == MessageLens(fs[..i], little)
    {
      assert fs[..i + 1][..i] == fs[..i];
      WriteField(se, fs[i], little);
      i := i + 1;
    }
    assert fs[..|fs|] == fs;
    cells := se.ToString();
  }

  /** A `deserialize` function: the kinds in the same order. */
  method DeserializeFrom(kinds: seq<Kind>, bytes: seq<Byte>, little: bool)
    returns (values: Deserializer.Result<seq<Value>>, left: nat)
    requires 0 < |bytes| < TWO32
    ensures match DecodeAll(kinds, bytes, little)
            case Stopped => values.Failed?
            case Read(vs, used) => values == Deserializer.Done(vs) && used + left == |bytes|
  {
    hide DecodeField, DecodeAll;
    var de := new Deserializer.Reader(bytes);
    var vs: seq<Value> := [];
    var i := 0;
    ghost var used: nat := 0;
    NoFields(kinds, bytes, little);
    while i < |kinds|
      invariant i <= |kinds| && de.Valid() && fresh(de) && used <= |bytes| && de.Rest() == bytes[used..]
      invariant DecodeAll(kinds[..i], bytes, little) == Read(vs, used)
    {
      NextField(kinds, i, bytes, little, vs, used);
      var v := de.ReadField(kinds[i], little);
      if v.Failed? {
        return Deserializer.Failed, |bytes|;
      }
      vs := vs + [v.value];
      used := used + DecodeField(kinds[i], bytes[used..], little).used;
      i := i + 1;
    }
    assert kinds[..|kinds|] == kinds;
    return Deserializer.Done(vs), |de.buf| - de.readed;
  }

  lemma NoFields(kinds: seq<Kind>, bytes: seq<Byte>, little: bool)
    ensures DecodeAll(kinds[..0], bytes, little) == Read([], 0)
    ensures bytes[0..] == bytes
  {
  }

  /** One field more: reading stops here, or goes on behind it. */
  lemma NextField(kinds: seq<Kind>, i: nat, bytes: seq<Byte>, little: bool, vs: seq<Value>, used: nat)
    requires i < |kinds| && used <= |bytes| && DecodeAll(kinds[..i], bytes, little) == Read(vs, used)
    ensures match DecodeField(kinds[i], bytes[used..], little)
            case Aborted => DecodeAll(kinds, bytes, little).Stopped?
            case Got(v, n) =>
              && DecodeAll(kinds[..i + 1], bytes, little) == Read(vs + [v], used + n)
              && (used + n <= |bytes| ==> bytes[used..][n..] == bytes[used + n..])
  {
    hide DecodeField;
    assert kinds[..i + 1][..i] == kinds[..i];
    if DecodeField(kinds[i], bytes[used..], little).Aborted? {
      StaysStopped(kinds, i + 1, bytes, little);
    }
  }

  lemma {:induction false} StaysStopped(kinds: seq<Kind>, i: nat, bytes: seq<Byte>, little: bool)
    requires i <= |kinds| && DecodeAll(kinds[..i], bytes, little).Stopped?
    ensures DecodeAll(kinds, bytes, little).Stopped?
    decreases |kinds| - i
  {
    if i < |kinds| {
      assert kinds[..i + 1][..i] == kinds[..i];
      StaysStopped(kinds, i + 1, bytes, little);
    } else {
      assert kinds[..i] == kinds;
    }
  }

  /** End to end.  When the message is delivered, reading it back never aborts and leaves
      nothing over, and the values are the ones sent just when every field survives. */
  method Transmit(fs: seq<Field>, base: nat, repositions: bool, little: bool)
    returns (values: Deserializer.Result<seq<Value>>, left: nat)
    requires AllTyped(fs) && fs != [] && 0 < base < TWO32
    requires Delivered(fs, base, repositions, little)
    ensures values.Done? && |values.value| == |fs| && left == 0
    ensures forall i :: 0 <= i < |fs| ==> (values.value[i] == fs[i].value <==> Survives(fs[i], little))
  {
    hide DecodeAll, EncodeAll, Survives, Delivered, Typed;
    var cells := SerializeToString(fs, base, repositions, little);
    ghost var bytes := EncodeAll(fs, little);
    NotEmpty(fs, base, repositions, little);
    var received := seq(|cells|, i requires 0 <= i < |cells| => cells[i].value);
    assert received == bytes;
    assert bytes + [] == bytes;
    MessageReads(fs, [], little);
    values, left := DeserializeFrom(Kinds(fs), received, little);
  }

  lemma NotEmpty(fs: seq<Field>, base: nat, repositions: bool, little: bool)
    requires AllTyped(fs) && fs != [] && 0 < base && Delivered(fs, base, repositions, little)
    ensures 0 < |EncodeAll(fs, little)| < TWO32
  {
    FieldRoundTrip(fs[|fs| - 1], [], little);
  }
}
