/** `protobuf_c_message_pack_to_buffer`: the encoder that appends to a growing buffer. */
module PackBuffer {
  import opened Bytes
  import opened Options
  import opened Schema
  import opened Encoding
  import Packing
  import Varint

  /** `ProtobufCBufferSimple`: an array that doubles when it is full. */
  class SimpleBuffer {
    var alloced: nat
    var len: nat
    var data: array<byte>

    ghost predicate Valid()
      reads this
    {
      0 < alloced == data.Length && len <= alloced
    }

    ghost function Contents(): seq<byte>
      requires Valid()
      reads this, data
    {
      data[..len]
    }

    lemma ContentsAre()
      requires Valid()
      ensures Contents() == data[..len]
    {
    }

    constructor (scratch: nat)
      requires scratch > 0
      ensures Valid() && fresh(data) && Contents() == []
    {
      data := new byte[scratch];
      alloced, len := scratch, 0;
    }

    /** `protobuf_c_buffer_simple_append` */
    method Append(bytes: seq<byte>)
      requires Valid()
      modifies this, data
      ensures Valid() && (data == old(data) || fresh(data))
      ensures Contents() == old(Contents()) + bytes
    {
      var newLen := len + |bytes|;
      if newLen > alloced {
        var newAlloced := alloced * 2;
        while newAlloced < newLen
          invariant newAlloced >= alloced
          decreases newLen - newAlloced
        {
          newAlloced := newAlloced + newAlloced;
        }
        var newData := new byte[newAlloced];
        forall i | 0 <= i < len {
          newData[i] := data[i];
        }
        data, alloced := newData, newAlloced;
      }
      forall i | 0 <= i < |bytes| {
        data[len + i] := bytes[i];
      }
      len := newLen;
    }
  }

  // ------------------------------------------------------------------- fields

  /** A tag and what `more` octets of scratch behind it may hold. */
  method Tagged(id: nat, wire: Wire) returns (scratch: array<byte>, rv: nat)
    requires id < 0x1_0000_0000
    ensures fresh(scratch) && scratch.Length == 20
    ensures rv == |Varint.Encode(id * 8 + wire.Code())| <= 5
    ensures scratch[..rv] == Varint.Encode(id * 8 + wire.Code())
  {
    hide Patch;
    scratch := new byte[20];
    ghost var e := Varint.Encode(id * 8 + wire.Code());
    Packing.KeyLength(id, wire.Code());
    PatchRead(scratch[..], 0, e);
    rv := Packing.TagPack(id, wire, scratch, 0);
    assert scratch[..rv] == scratch[..][0..0 + rv];
  }

  /** The value cases of `required_field_pack_to_buffer`. */
  method ValueFieldPack(S: Schema, f: Field, v: Value, buffer: SimpleBuffer) returns (rv: nat)
    requires SchemaOk(S) && f.id < 0x2000_0000 && WellTypedValue(S, f.typ, v)
    requires |EncodeMember(ValueMember(S, f, v))| < MAX_LENGTH
    requires buffer.Valid()
    modifies buffer, buffer.data
    ensures buffer.Valid() && (buffer.data == old(buffer.data) || fresh(buffer.data))
    ensures rv == |EncodeMember(ValueMember(S, f, v))|
    ensures buffer.Contents() == old(buffer.Contents()) + EncodeMember(ValueMember(S, f, v))
    decreases v, 4
  {
    hide Patch, EncodeMessage, SchemaOk, WellTyped, ValueMember, Scalar, SimpleBuffer.Contents;
    Packing.ValueData(S, f, v);
    ghost var mem := ValueMember(S, f, v);
    ghost var key := Varint.Encode(mem.tag * 8 + mem.wire.Code());
    assert EncodeMember(mem) == key + mem.data;
    var scratch;
    scratch, rv := Tagged(f.id, f.typ.WireType());
    match v {
      case Num(x) =>
        Packing.ScalarBounds(f.typ, x);
        ghost var tagged := scratch[..];
        var n := Packing.ScalarPack(f.typ, x, scratch, rv);
        PrefixOf(tagged, rv, key, Scalar(f.typ, x));
        rv := rv + n;
        assert scratch[..rv] == scratch[..][..rv];
        buffer.Append(scratch[..rv]);
      case Text(s) =>
        var body := if f.typ == String then CString(s) else s;
        rv := LengthPrefixed(scratch, rv, body, buffer);
      case Sub(m) =>
        var simple := new SimpleBuffer(256);
        var sublen := MessagePack(S, f.typ.desc, m, simple);
        simple.ContentsAre();
        rv := LengthPrefixed(scratch, rv, simple.data[..simple.len], buffer);
    }
  }

  /** What a scratch array starts with after a second write behind the first. */
  lemma PrefixOf(a: seq<byte>, at: nat, first: seq<byte>, second: seq<byte>)
    requires at + |second| <= |a| && a[..at] == first
    ensures Patch(a, at, second)[..at + |second|] == first + second
  {
  }

  /** A length behind the tag already in `scratch`, then the body itself. */
  method LengthPrefixed(scratch: array<byte>, at: nat, body: seq<byte>, buffer: SimpleBuffer) returns (rv: nat)
    requires scratch.Length == 20 && at <= 5 && |body| < MAX_LENGTH
    requires buffer.Valid() && scratch != buffer.data
    modifies scratch, buffer, buffer.data
    ensures buffer.Valid() && (buffer.data == old(buffer.data) || fresh(buffer.data))
    ensures rv == at + |WithLength(body)|
    ensures buffer.Contents() == old(buffer.Contents()) + (old(scratch[..at]) + WithLength(body))
  {
    hide Patch;
    Varint.Size32Correct(|body|);
    ghost var tagged := scratch[..];
    ghost var before := buffer.Contents();
    var n := Varint.Pack32(|body|, scratch, at);
    PrefixOf(tagged, at, tagged[..at], Varint.Encode(|body|));
    assert scratch[..at + n] == scratch[..][..at + n];
    assert tagged[..at] == old(scratch[..at]);
    buffer.Append(scratch[..at + n]);
    buffer.Append(body);
    rv := at + n + |body|;
    assert before + (tagged[..at] + Varint.Encode(|body|)) + body == before + (tagged[..at] + WithLength(body));
  }

  /** `required_field_pack_to_buffer`, which sends an empty body for a null pointer. */
  method RequiredFieldPack(S: Schema, f: Field, v: Option<Value>, buffer: SimpleBuffer) returns (rv: nat)
    requires SchemaOk(S) && Packing.Packs(S, f, v)
    requires |EncodeMember(SingleMember(S, f, v))| < MAX_LENGTH
    requires buffer.Valid()
    modifies buffer, buffer.data
    ensures buffer.Valid() && (buffer.data == old(buffer.data) || fresh(buffer.data))
    ensures rv == |EncodeMember(SingleMember(S, f, v))|
    ensures buffer.Contents() == old(buffer.Contents()) + EncodeMember(SingleMember(S, f, v))
    decreases v, 5
  {
    hide Patch, SchemaOk, ValueMember;
    match v
    case Some(x) => rv := ValueFieldPack(S, f, x, buffer);
    case None =>
      var scratch;
      scratch, rv := Tagged(f.id, f.typ.WireType());
      Varint.EncodeUnroll(0);
      assert WithLength([]) == [0];
      rv := LengthPrefixed(scratch, rv, [], buffer);
  }

  // ----------------------------------------------------------- repeated fields

  /** `get_packed_payload_length` */
  method PackedPayloadLength(S: Schema, f: Field, vs: seq<Value>) returns (rv: nat)
    requires f.typ.Packable() && Packing.AllPack(S, f, vs)
    ensures rv == |PackedBody(f.typ, vs)|
  {
    hide Scalar;
    if f.typ.WireType() != VarintWire || f.typ == Bool {
      FixedPayload(S, f, vs);
      return |vs| * (if f.typ.WireType() == Wire32 then 4 else if f.typ.WireType() == Wire64 then 8 else 1);
    }
    rv := 0;
    for i := 0 to |vs|
      invariant rv + |PackedBody(f.typ, vs[i..])| == |PackedBody(f.typ, vs)|
    {
      assert WellTypedValue(S, f.typ, vs[i]);
      assert vs[i..][1..] == vs[i + 1..];
      var n := ScalarSize(f.typ, vs[i].n);
      rv := rv + n;
    }
  }

  /** The size of one varint element (`int32_size`, `sint32_size`, `uint32_size`, `uint64_size`, ...). */
  method ScalarSize(t: Type, n: int) returns (rv: nat)
    requires t.Packable() && InRange(t, n)
    ensures rv == |Scalar(t, n)|
  {
    if t.WireType() == VarintWire {
      Packing.WordIs(t, n);
      Varint.Size64Correct(Word(t, n));
      match t
      case SInt32 => Varint.Size32Correct(Varint.ZigZag32(n)); rv := Varint.Size32(Varint.ZigZag32(n));
      case Enum | Int32 => Varint.SizeInt32Correct(n); rv := Varint.SizeInt32(n);
      case UInt32 => Varint.Size32Correct(n); rv := Varint.Size32(n);
      case SInt64 | Int64 | UInt64 => rv := Varint.Size64(Word(t, n));
      case Bool => Varint.EncodeUnroll(Word(t, n)); rv := 1;
    } else {
      rv := if t.WireType() == Wire32 then 4 else 8;
    }
  }

  lemma {:induction false} FixedPayload(S: Schema, f: Field, vs: seq<Value>)
    requires f.typ.WireType() in {Wire32, Wire64} || f.typ == Bool
    ensures |PackedBody(f.typ, vs)|
            == |vs| * (if f.typ.WireType() == Wire32 then 4 else if f.typ.WireType() == Wire64 then 8 else 1)
  {
    hide Scalar;
    if vs != [] {
      FixedPayload(S, f, vs[1..]);
      FixedScalar(f.typ, Number(vs[0]));
    }
  }

  lemma FixedScalar(t: Type, n: int)
    requires t.WireType() in {Wire32, Wire64} || t == Bool
    ensures |Scalar(t, n)| == if t.WireType() == Wire32 then 4 else if t.WireType() == Wire64 then 8 else 1
  {
    if t == Bool { Varint.EncodeUnroll(Word(t, n)); }
  }

  /** `pack_buffer_packed_payload` */
  method PackedPayload(S: Schema, f: Field, vs: seq<Value>, buffer: SimpleBuffer) returns (rv: nat)
    requires f.typ.Packable() && Packing.AllPack(S, f, vs)
    requires buffer.Valid()
    modifies buffer, buffer.data
    ensures buffer.Valid() && (buffer.data == old(buffer.data) || fresh(buffer.data))
    ensures rv == |PackedBody(f.typ, vs)|
    ensures buffer.Contents() == old(buffer.Contents()) + PackedBody(f.typ, vs)
  {
    hide Patch, Scalar, PackedBody, SimpleBuffer.Contents;
    if f.typ.WireType() != VarintWire {
      // The array already holds the elements in little-endian order.
      var image := PackedBody(f.typ, vs);
      buffer.Append(image);
      return |image|;
    }
    ghost var before := buffer.Contents();
    ghost var done: seq<byte> := [];
    assert vs[0..] == vs && [] + PackedBody(f.typ, vs) == PackedBody(f.typ, vs);
    rv := 0;
    for i := 0 to |vs|
      invariant buffer.Valid() && (buffer.data == old(buffer.data) || fresh(buffer.data))
      invariant rv == |done|
      invariant done + PackedBody(f.typ, vs[i..]) == PackedBody(f.typ, vs)
      invariant buffer.Contents() == before + done
    {
      assert WellTypedValue(S, f.typ, vs[i]);
      ghost var s := Scalar(f.typ, vs[i].n);
      Packing.PackedUnfold(f.typ, vs, i);
      Packing.ScalarBounds(f.typ, vs[i].n);
      var scratch := new byte[16];
      PatchRead(scratch[..], 0, s);
      var len := Packing.ScalarPack(f.typ, vs[i].n, scratch, 0);
      assert scratch[..len] == scratch[..][0..0 + len];
      buffer.Append(scratch[..len]);
      rv := rv + len;
      done := done + s;
    }
    Packing.PackedNil(f.typ);
    assert done + [] == done && vs[|vs|..] == [];
  }

  /** `repeated_field_pack_to_buffer`, packed case: the length is computed first. */
  method PackedFieldPack(S: Schema, f: Field, vs: seq<Value>, buffer: SimpleBuffer) returns (rv: nat)
    requires f.typ.Packable() && Packing.AllPack(S, f, vs) && vs != []
    requires |EncodeMember(PackedMember(f, vs))| < MAX_LENGTH
    requires buffer.Valid()
    modifies buffer, buffer.data
    ensures buffer.Valid() && (buffer.data == old(buffer.data) || fresh(buffer.data))
    ensures rv == |EncodeMember(PackedMember(f, vs))|
    ensures buffer.Contents() == old(buffer.Contents()) + EncodeMember(PackedMember(f, vs))
  {
    hide Patch, PackedBody, Varint.Encode, Varint.Size32, SimpleBuffer.Contents;
    ghost var key := Varint.Encode(f.id * 8 + Prefixed.Code());
    ghost var body := PackedBody(f.typ, vs);
    ghost var before := buffer.Contents();
    var scratch;
    scratch, rv := Tagged(f.id, Prefixed);
    var payloadLen := PackedPayloadLength(S, f, vs);
    ghost var tagged := scratch[..];
    Varint.Size32Correct(payloadLen);
    var n := Varint.Pack32(payloadLen, scratch, rv);
    PrefixOf(tagged, rv, key, Varint.Encode(payloadLen));
    rv := rv + n;
    assert scratch[..rv] == scratch[..][..rv];
    buffer.Append(scratch[..rv]);
    var tmp := PackedPayload(S, f, vs, buffer);
    assert tmp == payloadLen;
    rv := rv + payloadLen;
    assert before + (key + Varint.Encode(payloadLen)) + body == before + (key + WithLength(body));
  }

  /** `repeated_field_pack_to_buffer`, one member per element. */
  method EachFieldPack(S: Schema, f: Field, vs: seq<Value>, buffer: SimpleBuffer) returns (rv: nat)
    requires SchemaOk(S) && Packing.AllPack(S, f, vs)
    requires |EncodeMembers(EachMember(S, f, vs))| < MAX_LENGTH
    requires buffer.Valid()
    modifies buffer, buffer.data
    ensures buffer.Valid() && (buffer.data == old(buffer.data) || fresh(buffer.data))
    ensures rv == |EncodeMembers(EachMember(S, f, vs))|
    ensures buffer.Contents() == old(buffer.Contents()) + EncodeMembers(EachMember(S, f, vs))
    decreases vs, 5
  {
    hide SchemaOk, ValueMember, EncodeMember, EachMember, EncodeMembers, SimpleBuffer.Contents;
    ghost var before := buffer.Contents();
    ghost var all := EncodeMembers(EachMember(S, f, vs));
    ghost var done: seq<byte> := [];
    assert vs[0..] == vs && [] + all == all;
    rv := 0;
    for i := 0 to |vs|
      invariant buffer.Valid() && (buffer.data == old(buffer.data) || fresh(buffer.data))
      invariant rv == |done|
      invariant done + EncodeMembers(EachMember(S, f, vs[i..])) == all
      invariant buffer.Contents() == before + done
    {
      assert WellTypedValue(S, f.typ, vs[i]);
      Packing.EachUnfold(S, f, vs, i);
      var n := ValueFieldPack(S, f, vs[i], buffer);
      rv := rv + n;
      done := done + EncodeMember(ValueMember(S, f, vs[i]));
    }
    Packing.NothingLeft(S, f);
    assert done + [] == done && vs[|vs|..] == [];
  }

  // ------------------------------------------------------------------ messages

  /** One turn of the field loop. */
  method SlotPack(S: Schema, f: Field, slot: Slot, buffer: SimpleBuffer) returns (rv: nat)
    requires SchemaOk(S) && f.id < 0x2000_0000 && WellTypedSlot(S, f, slot)
    requires |EncodeMembers(SlotMembers(S, f, slot))| < MAX_LENGTH
    requires buffer.Valid()
    modifies buffer, buffer.data
    ensures buffer.Valid() && (buffer.data == old(buffer.data) || fresh(buffer.data))
    ensures rv == |EncodeMembers(SlotMembers(S, f, slot))|
    ensures buffer.Contents() == old(buffer.Contents()) + EncodeMembers(SlotMembers(S, f, slot))
    decreases slot, 6
  {
    hide SchemaOk, SingleMember, PackedMember, EncodeMember;
    match slot
    case One(v) =>
      if f.lab.Required? || v.Some? {
        Packing.OneMember(SingleMember(S, f, v));
        rv := RequiredFieldPack(S, f, v, buffer);
      } else {
        rv := 0;
      }
    case Many(vs) =>
      if vs == [] {
        rv := 0;
      } else if f.packed && f.typ.Packable() {
        Packing.OneMember(PackedMember(f, vs));
        rv := PackedFieldPack(S, f, vs, buffer);
      } else {
        rv := EachFieldPack(S, f, vs, buffer);
      }
  }

  /** `unknown_field_pack_to_buffer` */
  method UnknownFieldPack(u: Unknown, buffer: SimpleBuffer) returns (rv: nat)
    requires u.tag < 0x1_0000_0000
    requires buffer.Valid()
    modifies buffer, buffer.data
    ensures buffer.Valid() && (buffer.data == old(buffer.data) || fresh(buffer.data))
    ensures rv == |EncodeMember(UnknownMember(u))|
    ensures buffer.Contents() == old(buffer.Contents()) + EncodeMember(UnknownMember(u))
  {
    ghost var before := buffer.Contents();
    var header;
    header, rv := Tagged(u.tag, u.wire);
    ghost var key := header[..rv];
    buffer.Append(header[..rv]);
    buffer.Append(u.data);
    rv := rv + |u.data|;
    assert before + key + u.data == before + (key + u.data);
  }

  /** The second loop of `protobuf_c_message_pack_to_buffer`. */
  method UnknownsPack(us: seq<Unknown>, buffer: SimpleBuffer) returns (rv: nat)
    requires forall k :: 0 <= k < |us| ==> us[k].tag < 0x1_0000_0000
    requires buffer.Valid()
    modifies buffer, buffer.data
    ensures buffer.Valid() && (buffer.data == old(buffer.data) || fresh(buffer.data))
    ensures rv == |EncodeMembers(UnknownMembers(us))|
    ensures buffer.Contents() == old(buffer.Contents()) + EncodeMembers(UnknownMembers(us))
  {
    hide EncodeMember, EncodeMembers, UnknownMembers, UnknownMember;
    ghost var before := buffer.Contents();
    ghost var all := EncodeMembers(UnknownMembers(us));
    ghost var done: seq<byte> := [];
    assert us[0..] == us && [] + all == all;
    rv := 0;
    for i := 0 to |us|
      invariant buffer.Valid() && (buffer.data == old(buffer.data) || fresh(buffer.data))
      invariant rv == |done|
      invariant done + EncodeMembers(UnknownMembers(us[i..])) == all
      invariant buffer.Contents() == before + done
    {
      Packing.UnknownUnfold(us, i);
      var n := UnknownFieldPack(us[i], buffer);
      rv := rv + n;
      done := done + EncodeMember(UnknownMember(us[i]));
    }
    Packing.NothingLeft([], Field(0, Optional, Bool, false, None, None));
    assert done + [] == done && us[|us|..] == [];
  }

  /** `protobuf_c_message_pack_to_buffer` */
  method MessagePack(S: Schema, d: nat, m: Message, buffer: SimpleBuffer) returns (rv: nat)
    requires SchemaOk(S) && WellTyped(S, d, m)
    requires |EncodeMessage(S, d, m)| < MAX_LENGTH
    requires buffer.Valid()
    modifies buffer, buffer.data
    ensures buffer.Valid() && (buffer.data == old(buffer.data) || fresh(buffer.data))
    ensures rv == |EncodeMessage(S, d, m)|
    ensures buffer.Contents() == old(buffer.Contents()) + EncodeMessage(S, d, m)
    decreases m, 7
  {
    hide SlotMembers, SlotsMembers, UnknownMembers, EncodeMember, EncodeMembers, EncodeMessage;
    hide SchemaOk, WellTyped, WellTypedSlot, SimpleBuffer.Contents;
    Packing.MessageParts(S, d, m);
    ghost var before := buffer.Contents();
    var fields := Desc(S, d).fields;
    ghost var us := UnknownMembers(m.unknown);
    ghost var all := EncodeMessage(S, d, m);
    ghost var done: seq<byte> := [];
    assert [] + all == all;
    rv := 0;
    for i := 0 to |fields|
      invariant buffer.Valid() && (buffer.data == old(buffer.data) || fresh(buffer.data))
      invariant rv == |done|
      invariant done + EncodeMembers(SlotsMembers(S, fields, m, i) + us) == all
      invariant buffer.Contents() == before + done
    {
      Packing.FieldIds(S, d, i);
      Packing.MessageUnfold(S, fields, m, i, us);
      var n := SlotPack(S, fields[i], m.slots[i], buffer);
      rv := rv + n;
      done := done + EncodeMembers(SlotMembers(S, fields[i], m.slots[i]));
    }
    Packing.SlotsEnd(S, fields, m, us);
    var n := UnknownsPack(m.unknown, buffer);
    rv := rv + n;
  }
}
