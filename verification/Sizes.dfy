/** `protobuf_c_message_get_packed_size`: the length of the encoding, without encoding. */
module Sizes {
  import opened Bytes
  import opened Options
  import opened Schema
  import opened Encoding
  import Packing
  import PackBuffer
  import Varint

  lemma TagSizeCorrect(number: nat, code: nat)
    requires number < 0x1_0000_0000 && code < 8
    ensures Varint.TagSize(number) == |Varint.Encode(number * 8 + code)|
  {
    Varint.Size64Correct(number * 8 + code);
    if number < 0x2000_0000 {
      Varint.Size32Correct(number * 8 + code);
    }
  }

  /** The value part of `required_field_get_packed_size`. */
  method ValueSize(S: Schema, f: Field, v: Value) returns (rv: nat)
    requires SchemaOk(S) && f.id < 0x2000_0000 && WellTypedValue(S, f.typ, v)
    requires |ValueMember(S, f, v).data| < MAX_LENGTH
    ensures rv == |ValueMember(S, f, v).data|
    decreases v, 4
  {
    hide EncodeMessage, SchemaOk, WellTyped, ValueMember, Scalar;
    Packing.ValueData(S, f, v);
    match v
    case Num(x) => rv := PackBuffer.ScalarSize(f.typ, x);
    case Text(s) =>
      var len := if f.typ == String then |CString(s)| else |s|;
      Varint.Size32Correct(len);
      rv := Varint.Size32(len) + len;
    case Sub(m) =>
      var subrv := MessageSize(S, f.typ.desc, m);
      Varint.Size32Correct(subrv);
      rv := Varint.Size32(subrv) + subrv;
  }

  /** `required_field_get_packed_size` */
  method RequiredFieldSize(S: Schema, f: Field, v: Option<Value>) returns (rv: nat)
    requires SchemaOk(S) && Packing.Packs(S, f, v)
    requires |EncodeMember(SingleMember(S, f, v))| < MAX_LENGTH
    ensures rv == |EncodeMember(SingleMember(S, f, v))|
    decreases v, 5
  {
    hide SchemaOk, ValueMember;
    TagSizeCorrect(f.id, f.typ.WireType().Code());
    match v
    case None => rv := Varint.TagSize(f.id) + 1;
    case Some(x) =>
      Packing.ValueData(S, f, x);
      rv := ValueSize(S, f, x);
      rv := Varint.TagSize(f.id) + rv;
  }

  /** The summed data of unpacked elements. */
  function DataTotal(S: Schema, f: Field, vs: seq<Value>): nat {
    if vs == [] then 0 else |ValueMember(S, f, vs[0]).data| + DataTotal(S, f, vs[1..])
  }

  lemma {:induction false} EachTotal(S: Schema, f: Field, vs: seq<Value>)
    requires Packing.AllPack(S, f, vs)
    ensures |EncodeMembers(EachMember(S, f, vs))| == |vs| * Varint.TagSize(f.id) + DataTotal(S, f, vs)
  {
    hide ValueMember, EncodeMember, EachMember, EncodeMembers, Varint.TagSize;
    Packing.NothingLeft(S, f);
    if vs != [] {
      Packing.EachUnfold(S, f, vs, 0);
      assert WellTypedValue(S, f.typ, vs[0]);
      ValueLength(S, f, vs[0]);
      EachTotal(S, f, vs[1..]);
      assert vs[0..] == vs;
      var t := Varint.TagSize(f.id);
      assert |vs| * t == (1 + |vs[1..]|) * t == t + |vs[1..]| * t;
    }
  }

  lemma ValueLength(S: Schema, f: Field, v: Value)
    requires f.id < 0x2000_0000 && WellTypedValue(S, f.typ, v)
    ensures |EncodeMember(ValueMember(S, f, v))| == Varint.TagSize(f.id) + |ValueMember(S, f, v).data|
  {
    hide ValueMember;
    Packing.ValueData(S, f, v);
    TagSizeCorrect(f.id, f.typ.WireType().Code());
  }

  lemma {:induction false} PackedTotal(S: Schema, f: Field, vs: seq<Value>)
    requires Packing.AllPack(S, f, vs) && f.typ.Packable()
    ensures DataTotal(S, f, vs) == |PackedBody(f.typ, vs)|
  {
    hide Scalar;
    if vs != [] {
      assert WellTypedValue(S, f.typ, vs[0]);
      PackedTotal(S, f, vs[1..]);
    }
  }

  /** `repeated_field_get_packed_size` */
  method RepeatedFieldSize(S: Schema, f: Field, vs: seq<Value>) returns (rv: nat)
    requires SchemaOk(S) && Packing.AllPack(S, f, vs) && (f.packed ==> f.typ.Packable())
    requires |EncodeMembers(SlotMembers(S, f, Many(vs)))| < MAX_LENGTH
    ensures rv == |EncodeMembers(SlotMembers(S, f, Many(vs)))|
    decreases vs, 5
  {
    hide SchemaOk, ValueMember, EncodeMember;
    if vs == [] {
      return 0;
    }
    var headerSize := Varint.TagSize(f.id);
    if !f.packed {
      headerSize := headerSize * |vs|;
      EachTotal(S, f, vs);
    } else {
      PackedTotal(S, f, vs);
      PackedLength(f, vs);
      Packing.OneMember(PackedMember(f, vs));
    }
    assert vs[0..] == vs;
    rv := 0;
    for i := 0 to |vs|
      invariant rv + DataTotal(S, f, vs[i..]) == DataTotal(S, f, vs)
    {
      assert WellTypedValue(S, f.typ, vs[i]);
      assert vs[i..][1..] == vs[i + 1..];
      var n := ValueSize(S, f, vs[i]);
      rv := rv + n;
    }
    if f.packed {
      Varint.Size32Correct(rv);
      headerSize := headerSize + Varint.Size32(rv);
    }
    rv := headerSize + rv;
  }

  lemma PackedLength(f: Field, vs: seq<Value>)
    requires f.typ.Packable() && f.id < 0x2000_0000
    ensures var n := |PackedBody(f.typ, vs)|;
            |EncodeMember(PackedMember(f, vs))| == Varint.TagSize(f.id) + |Varint.Encode(n)| + n
  {
    hide PackedBody;
    TagSizeCorrect(f.id, Prefixed.Code());
  }

  /** One turn of the field loop. */
  method SlotSize(S: Schema, f: Field, slot: Slot) returns (rv: nat)
    requires SchemaOk(S) && f.id < 0x2000_0000 && WellTypedSlot(S, f, slot) && (f.packed ==> f.typ.Packable())
    requires |EncodeMembers(SlotMembers(S, f, slot))| < MAX_LENGTH
    ensures rv == |EncodeMembers(SlotMembers(S, f, slot))|
    decreases slot, 6
  {
    hide SchemaOk, SingleMember, PackedMember, EncodeMember;
    match slot
    case One(v) =>
      if f.lab.Required? || v.Some? {
        Packing.OneMember(SingleMember(S, f, v));
        rv := RequiredFieldSize(S, f, v);
      } else {
        rv := 0;
      }
    case Many(vs) => rv := RepeatedFieldSize(S, f, vs);
  }

  /** `protobuf_c_message_get_packed_size` */
  method MessageSize(S: Schema, d: nat, m: Message) returns (rv: nat)
    requires SchemaOk(S) && WellTyped(S, d, m)
    requires |EncodeMessage(S, d, m)| < MAX_LENGTH
    ensures rv == |EncodeMessage(S, d, m)|
    decreases m, 7
  {
    hide SlotMembers, SlotsMembers, UnknownMembers, EncodeMember, EncodeMembers, EncodeMessage;
    hide SchemaOk, WellTyped, WellTypedSlot;
    Packing.MessageParts(S, d, m);
    var fields := Desc(S, d).fields;
    ghost var us := UnknownMembers(m.unknown);
    rv := 0;
    for i := 0 to |fields|
      invariant rv + |EncodeMembers(SlotsMembers(S, fields, m, i) + us)| == |EncodeMessage(S, d, m)|
    {
      Packing.FieldIds(S, d, i);
      Packing.MessageUnfold(S, fields, m, i, us);
      var n := SlotSize(S, fields[i], m.slots[i]);
      rv := rv + n;
    }
    Packing.SlotsEnd(S, fields, m, us);
    assert m.unknown[0..] == m.unknown;
    for i := 0 to |m.unknown|
      invariant rv + |EncodeMembers(UnknownMembers(m.unknown[i..]))| == |EncodeMessage(S, d, m)|
    {
      Packing.UnknownUnfold(m.unknown, i);
      UnknownLength(m.unknown[i]);
      rv := rv + (Varint.TagSize(m.unknown[i].tag) + |m.unknown[i].data|);
    }
    Packing.NothingLeft([], Field(0, Optional, Bool, false, None, None));
    assert m.unknown[|m.unknown|..] == [];
  }

  lemma UnknownLength(u: Unknown)
    requires u.tag < 0x1_0000_0000
    ensures |EncodeMember(UnknownMember(u))| == Varint.TagSize(u.tag) + |u.data|
  {
    TagSizeCorrect(u.tag, u.wire.Code());
  }

  /** Measuring, packing into an array of exactly that size, and packing into a growing buffer:
      the three encoders agree octet for octet on every message. */
  method PackThreeWays(S: Schema, d: nat, m: Message, scratch: nat)
    returns (size: nat, out: array<byte>, buffer: PackBuffer.SimpleBuffer)
    requires SchemaOk(S) && WellTyped(S, d, m)
    requires |EncodeMessage(S, d, m)| < MAX_LENGTH && scratch > 0
    ensures fresh(out) && fresh(buffer) && buffer.Valid()
    ensures out.Length == size && out[..] == buffer.Contents() == EncodeMessage(S, d, m)
  {
    size := MessageSize(S, d, m);
    out := new byte[size];
    PatchRead(out[..], 0, EncodeMessage(S, d, m));
    var n := Packing.MessagePack(S, d, m, out, 0);
    assert out[..][0..0 + size] == out[..];
    buffer := new PackBuffer.SimpleBuffer(scratch);
    var n' := PackBuffer.MessagePack(S, d, m, buffer);
    assert [] + EncodeMessage(S, d, m) == EncodeMessage(S, d, m);
  }
}
