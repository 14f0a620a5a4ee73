/** `protobuf_c_message_pack`: the encoder that writes into a caller's array, patching length
    prefixes in after the payload they describe. */
module Packing {
  import opened Bytes
  import opened Options
  import opened Schema
  import opened Encoding
  import Varint

  // ------------------------------------------------------------------ pieces

  /** Oring a wire type into the first octet of a packed `tag << 3` gives the packed key. */
  lemma KeyOctets(tag: nat, code: nat)
    requires tag < 0x1_0000_0000 && code < 8
    ensures var e := Varint.Encode(tag * 8);
            e[0] % 8 == 0 && e[0] + code < 256 && e[0 := e[0] + code] == Varint.Encode(tag * 8 + code)
  {
    var a, b := tag * 8, tag * 8 + code;
    Varint.EncodeUnroll(a);
    Varint.EncodeUnroll(b);
    SameGroupAbove(tag, code);
  }

  lemma SameGroupAbove(tag: nat, code: nat)
    requires code < 8
    ensures (tag * 8 + code) / 128 == tag * 8 / 128
    ensures (tag * 8 + code) % 128 == tag * 8 % 128 + code
    ensures tag * 8 % 128 % 8 == 0 && tag * 8 % 128 + 128 < 249
    ensures tag * 8 + code < 128 <==> tag * 8 < 128
  {
    assert tag * 8 == 128 * (tag / 16) + 8 * (tag % 16);
  }

  lemma KeyLength(tag: nat, code: nat)
    requires tag < 0x1_0000_0000 && code < 8
    ensures |Varint.Encode(tag * 8 + code)| <= 5
  {
    Varint.Size64Correct(tag * 8 + code);
  }

  /** `tag_pack` and the `out[0] |= wire_type` that follows each call of it. */
  method TagPack(id: nat, wire: Wire, out: array<byte>, at: nat) returns (rv: nat)
    requires id < 0x1_0000_0000
    requires at + |Varint.Encode(id * 8 + wire.Code())| <= out.Length
    modifies out
    ensures rv == |Varint.Encode(id * 8 + wire.Code())| <= 5
    ensures out[..] == Patch(old(out[..]), at, Varint.Encode(id * 8 + wire.Code()))
  {
    hide Patch;
    ghost var before := out[..];
    KeyOctets(id, wire.Code());
    Varint.Size64Correct(id * 8);
    if id < 0x2000_0000 {
      rv := Varint.Pack32(id * 8, out, at);
    } else {
      rv := Varint.Pack64(id * 8, out, at);
    }
    ghost var e := Varint.Encode(id * 8);
    PatchRead(before, at, e);
    assert out[..][at] == e[0];
    var first: int := out[at] as int + wire.Code();
    PatchFirst(before, at, e, first);
    out[at] := first;
  }

  /** `memmove` within one buffer: the source octets are read before any is overwritten. */
  method MemMove(out: array<byte>, dst: nat, src: nat, n: nat)
    requires dst + n <= out.Length && src + n <= out.Length
    modifies out
    ensures out[..] == Patch(old(out[..]), dst, old(out[src..src + n]))
  {
    forall i | 0 <= i < n {
      out[dst + i] := out[src + i];
    }
  }

  method MemCpy(out: array<byte>, at: nat, data: seq<byte>)
    requires at + |data| <= out.Length
    modifies out
    ensures out[..] == Patch(old(out[..]), at, data)
  {
    forall i | 0 <= i < |data| {
      out[at + i] := data[i];
    }
  }

  /** `fixed32_pack`, `fixed64_pack`. */
  method FixedPack(w: nat, k: nat, out: array<byte>, at: nat) returns (rv: nat)
    requires at + k <= out.Length
    modifies out
    ensures rv == k
    ensures out[..] == Patch(old(out[..]), at, LittleEndian(w, k))
  {
    MemCpy(out, at, LittleEndian(w, k));
    rv := k;
  }

  /** The word each varint type is packed from, in the terms of its packing routine. */
  lemma WordIs(t: Type, n: int)
    requires t.WireType() == VarintWire && InRange(t, n)
    ensures t == Int32 || t == Enum ==> Word(t, n) == Varint.SignExtend(n)
    ensures t == UInt32 ==> Word(t, n) == n
    ensures t == SInt32 ==> Word(t, n) == Varint.ZigZag32(n) < 0x1_0000_0000
  {
    if t == SInt32 { ZigZag32Bound(n); }
  }

  /** The varint cases of `required_field_pack`, behind the tag. */
  method VarintPack(t: Type, n: int, out: array<byte>, at: nat) returns (rv: nat)
    requires t.WireType() == VarintWire && InRange(t, n)
    requires at + |Varint.Encode(Word(t, n))| <= out.Length
    modifies out
    ensures rv == |Varint.Encode(Word(t, n))| <= 10
    ensures out[..] == Patch(old(out[..]), at, Varint.Encode(Word(t, n)))
  {
    WordIs(t, n);
    match t
    case SInt32 => rv := Varint.Pack32(Varint.ZigZag32(n), out, at);
    case Enum | Int32 => rv := Varint.PackInt32(n, out, at);
    case UInt32 => rv := Varint.Pack32(n, out, at);
    case SInt64 => rv := Varint.Pack64(Word(t, n), out, at);
    case Int64 | UInt64 => rv := Varint.Pack64(Word(t, n), out, at);
    case Bool =>
      Varint.EncodeUnroll(Word(t, n));
      out[at] := if n != 0 then 1 else 0;
      rv := 1;
  }

  /** The numeric cases of `required_field_pack`, behind the tag. */
  method ScalarPack(t: Type, n: int, out: array<byte>, at: nat) returns (rv: nat)
    requires t.Packable() && InRange(t, n)
    requires at + |Scalar(t, n)| <= out.Length
    modifies out
    ensures rv == |Scalar(t, n)| <= 10
    ensures out[..] == Patch(old(out[..]), at, Scalar(t, n))
  {
    match t.WireType()
    case VarintWire => rv := VarintPack(t, n, out, at);
    case Wire32 => rv := FixedPack(n % 0x1_0000_0000, 4, out, at);
    case Wire64 => rv := FixedPack(n % 0x1_0000_0000_0000_0000, 8, out, at);
  }

  // ------------------------------------------------------------------- fields

  /** A singular field as `required_field_pack` receives it: a value, or a null pointer. */
  predicate Packs(S: Schema, f: Field, v: Option<Value>) {
    && f.id < 0x2000_0000
    && match v
       case None => f.typ == String || f.typ.Nested?
       case Some(x) => WellTypedValue(S, f.typ, x)
  }

  /** `string_pack` of a non-null string, `binary_data_pack`: length, then contents. */
  method LengthPrefixedPack(body: seq<byte>, out: array<byte>, at: nat) returns (rv: nat)
    requires |body| < MAX_LENGTH && at + |WithLength(body)| <= out.Length
    modifies out
    ensures rv == |WithLength(body)|
    ensures out[..] == Patch(old(out[..]), at, WithLength(body))
  {
    hide Patch;
    ghost var before := out[..];
    rv := Varint.Pack32(|body|, out, at);
    MemCpy(out, at + rv, body);
    PatchPatch(before, at, Varint.Encode(|body|), body);
    rv := rv + |body|;
  }

  /** Moving a body up by the width of its length and writing the length in front of it. */
  lemma BackPatch(before: seq<byte>, at: nat, skip: nat, body: seq<byte>, prefix: seq<byte>)
    requires skip <= |prefix| && at + |prefix| + |body| <= |before|
    ensures var packed := Patch(before, at + skip, body);
            && packed[at + skip..at + skip + |body|] == body
            && Patch(packed, at + skip, body) == packed
            && Patch(Patch(packed, at + |prefix|, body), at, prefix) == Patch(before, at, prefix + body)
  {
    hide Patch;
    var packed := Patch(before, at + skip, body);
    PatchRead(before, at + skip, body);
    PatchCover(before, at + skip, body, at + skip, body);
    PatchFront(packed, at, prefix, body);
    PatchCover(before, at + skip, body, at, prefix + body);
  }

  /** `prefixed_message_pack`: the message is packed one octet in, and moved up when its length
      turns out to need more than one octet. */
  method PrefixedMessagePack(S: Schema, d: nat, m: Message, out: array<byte>, at: nat) returns (rv: nat)
    requires SchemaOk(S) && WellTyped(S, d, m)
    requires |EncodeMessage(S, d, m)| < MAX_LENGTH
    requires at + |WithLength(EncodeMessage(S, d, m))| <= out.Length
    modifies out
    ensures rv == |WithLength(EncodeMessage(S, d, m))|
    ensures out[..] == Patch(old(out[..]), at, WithLength(EncodeMessage(S, d, m)))
    decreases m, 8
  {
    hide Patch, EncodeMessage, SchemaOk, WellTyped;
    ghost var before := out[..];
    ghost var body := EncodeMessage(S, d, m);
    rv := MessagePack(S, d, m, out, at + 1);
    Varint.Size32Correct(rv);
    BackPatch(before, at, 1, body, Varint.Encode(rv));
    var size := Varint.Size32(rv);
    if size != 1 {
      assert out[at + 1..at + 1 + rv] == out[..][at + 1..at + 1 + rv];
      MemMove(out, at + size, at + 1, rv);
    }
    var n := Varint.Pack32(rv, out, at);
    rv := n + rv;
  }

  /** The octets behind the tag, case by case. */
  lemma ValueData(S: Schema, f: Field, v: Value)
    requires WellTypedValue(S, f.typ, v)
    ensures var mem := ValueMember(S, f, v);
            && mem.tag == f.id && mem.wire == f.typ.WireType()
            && (match v
                case Num(x) => f.typ.Packable() && InRange(f.typ, x) && mem.data == Scalar(f.typ, x)
                case Text(s) =>
                  var body := if f.typ == String then CString(s) else s;
                  mem.data == WithLength(body) && |mem.data| > |body|
                case Sub(m) =>
                  var body := EncodeMessage(S, f.typ.desc, m);
                  && f.typ.Nested? && WellTyped(S, f.typ.desc, m)
                  && mem.data == WithLength(body) && |mem.data| > |body|)
  {
    hide EncodeMessage, WellTyped;
    if !f.typ.Packable() {
      assert ValueMember(S, f, v) == PrefixedMember(f.id, Body(S, f.typ, v));
    }
  }

  /** `required_field_pack` of a value that is there. */
  method ValueFieldPack(S: Schema, f: Field, v: Value, out: array<byte>, at: nat) returns (rv: nat)
    requires SchemaOk(S) && f.id < 0x2000_0000 && WellTypedValue(S, f.typ, v)
    requires |EncodeMember(ValueMember(S, f, v))| < MAX_LENGTH
    requires at + |EncodeMember(ValueMember(S, f, v))| <= out.Length
    modifies out
    ensures rv == |EncodeMember(ValueMember(S, f, v))|
    ensures out[..] == Patch(old(out[..]), at, EncodeMember(ValueMember(S, f, v)))
    decreases v, 4
  {
    hide Patch, EncodeMessage, SchemaOk, WellTyped, ValueMember, Scalar, WithLength;
    ghost var before := out[..];
    ghost var mem := ValueMember(S, f, v);
    ValueData(S, f, v);
    ghost var key := Varint.Encode(mem.tag * 8 + mem.wire.Code());
    assert EncodeMember(mem) == key + mem.data;
    rv := TagPack(f.id, f.typ.WireType(), out, at);
    PatchPatch(before, at, key, mem.data);
    var n;
    match v {
      case Num(x) =>
        n := ScalarPack(f.typ, x, out, at + rv);
      case Text(s) =>
        n := LengthPrefixedPack(if f.typ == String then CString(s) else s, out, at + rv);
      case Sub(m) =>
        n := PrefixedMessagePack(S, f.typ.desc, m, out, at + rv);
    }
    rv := rv + n;
  }

  /** `required_field_pack`, which sends an empty body for a null pointer. */
  method RequiredFieldPack(S: Schema, f: Field, v: Option<Value>, out: array<byte>, at: nat) returns (rv: nat)
    requires SchemaOk(S) && Packs(S, f, v)
    requires |EncodeMember(SingleMember(S, f, v))| < MAX_LENGTH
    requires at + |EncodeMember(SingleMember(S, f, v))| <= out.Length
    modifies out
    ensures rv == |EncodeMember(SingleMember(S, f, v))|
    ensures out[..] == Patch(old(out[..]), at, EncodeMember(SingleMember(S, f, v)))
    decreases v, 5
  {
    hide Patch, SchemaOk, ValueMember;
    match v
    case Some(x) => rv := ValueFieldPack(S, f, x, out, at);
    case None =>
      ghost var before := out[..];
      ghost var key := Varint.Encode(f.id * 8 + f.typ.WireType().Code());
      PatchPatch(before, at, key, [0]);
      rv := TagPack(f.id, f.typ.WireType(), out, at);
      PatchOne(out, at + rv, 0);
      rv := rv + 1;
  }

  method PatchOne(out: array<byte>, at: nat, b: byte)
    requires at < out.Length
    modifies out
    ensures out[..] == Patch(old(out[..]), at, [b])
  {
    out[at] := b;
  }

  // ----------------------------------------------------------- repeated fields

  predicate AllPack(S: Schema, f: Field, vs: seq<Value>) {
    && f.id < 0x2000_0000
    && forall k :: 0 <= k < |vs| ==> WellTypedValue(S, f.typ, vs[k])
  }

  /** The payload loop of a packed field. */
  method PackedPayload(S: Schema, f: Field, vs: seq<Value>, out: array<byte>, at: nat) returns (end: nat)
    requires f.typ.Packable() && AllPack(S, f, vs)
    requires at + |PackedBody(f.typ, vs)| <= out.Length
    modifies out
    ensures end == at + |PackedBody(f.typ, vs)|
    ensures out[..] == Patch(old(out[..]), at, PackedBody(f.typ, vs))
  {
    hide Patch, Scalar, PackedBody;
    ghost var before := out[..];
    ghost var done: seq<byte> := [];
    PatchRead(before, at, []);
    assert vs[0..] == vs && [] + PackedBody(f.typ, vs) == PackedBody(f.typ, vs);
    end := at;
    for i := 0 to |vs|
      invariant end == at + |done|
      invariant done + PackedBody(f.typ, vs[i..]) == PackedBody(f.typ, vs)
      invariant out[..] == Patch(before, at, done)
    {
      assert WellTypedValue(S, f.typ, vs[i]);
      ghost var s := Scalar(f.typ, vs[i].n);
      PackedUnfold(f.typ, vs, i);
      PatchPatch(before, at, done, s);
      var n := ScalarPack(f.typ, vs[i].n, out, end);
      end := end + n;
      done := done + s;
    }
    PackedNil(f.typ);
    assert done + [] == done && vs[|vs|..] == [];
  }

  lemma PackedNil(t: Type)
    requires t.Packable()
    ensures PackedBody(t, []) == []
  {
  }

  lemma PackedUnfold(t: Type, vs: seq<Value>, i: nat)
    requires t.Packable() && i < |vs|
    ensures PackedBody(t, vs[i..]) == Scalar(t, Number(vs[i])) + PackedBody(t, vs[i + 1..])
  {
    hide Scalar;
    assert vs[i..][1..] == vs[i + 1..];
  }

  /** Every element of a packed payload takes at least the type's minimum size and at most ten octets,
      and exactly the minimum for fixed-width types. */
  lemma {:induction false} PackedBounds(t: Type, vs: seq<Value>)
    requires t.Packable()
    ensures t.MinSize() * |vs| <= |PackedBody(t, vs)| <= 10 * |vs|
    ensures t.WireType() != VarintWire ==> |PackedBody(t, vs)| == t.MinSize() * |vs|
  {
    if vs != [] {
      PackedBounds(t, vs[1..]);
      ScalarBounds(t, Number(vs[0]));
      assert t.MinSize() * |vs| == t.MinSize() + t.MinSize() * |vs[1..]|;
    }
  }

  lemma ScalarBounds(t: Type, n: int)
    requires t.Packable()
    ensures t.MinSize() <= |Scalar(t, n)| <= 10
    ensures t.WireType() != VarintWire ==> |Scalar(t, n)| == t.MinSize()
  {
    if t.WireType() == VarintWire {
      Varint.Size64Correct(Word(t, n));
    }
  }

  lemma {:induction false} LengthMonotone(a: nat, b: nat)
    requires a <= b
    ensures |Varint.Encode(a)| <= |Varint.Encode(b)|
    decreases b
  {
    Varint.EncodeUnroll(a);
    Varint.EncodeUnroll(b);
    if a >= 128 {
      LengthMonotone(a / 128, b / 128);
    }
  }

  /** A number at most ten times another takes at most one octet more. */
  lemma GuessShortByAtMostOne(small: nat, large: nat)
    requires small <= large <= 10 * small
    ensures |Varint.Encode(small)| <= |Varint.Encode(large)| <= |Varint.Encode(small)| + 1
  {
    LengthMonotone(small, large);
    LengthMonotone(large, 128 * small);
    Varint.EncodeUnroll(128 * small);
  }

  /** `repeated_field_pack` for a packed field: room for the length is guessed from the least
      possible payload, the payload is packed behind it and moved up one octet if the guess was short. */
  method PackedFieldPack(S: Schema, f: Field, vs: seq<Value>, out: array<byte>, at: nat) returns (rv: nat)
    requires f.typ.Packable() && AllPack(S, f, vs) && vs != []
    requires |EncodeMember(PackedMember(f, vs))| < MAX_LENGTH
    requires at + |EncodeMember(PackedMember(f, vs))| <= out.Length
    modifies out
    ensures rv == |EncodeMember(PackedMember(f, vs))|
    ensures out[..] == Patch(old(out[..]), at, EncodeMember(PackedMember(f, vs)))
  {
    hide Patch, PackedBody, Varint.Encode, Varint.Size32;
    ghost var before := out[..];
    ghost var mem := PackedMember(f, vs);
    ghost var key := Varint.Encode(f.id * 8 + Prefixed.Code());
    ghost var body := PackedBody(f.typ, vs);
    assert EncodeMember(mem) == key + (Varint.Encode(|body|) + body);
    PackedBounds(f.typ, vs);
    var lenStart := TagPack(f.id, Prefixed, out, at);
    ghost var tagged := out[..];
    PatchPatch(before, at, key, Varint.Encode(|body|) + body);
    var minLength := f.typ.MinSize() * |vs|;
    var lengthSizeMin := Varint.Size32(minLength);
    Varint.Size32Correct(minLength);
    Varint.Size32Correct(|body|);
    GuessShortByAtMostOne(minLength, |body|);
    var headerLen := lenStart + lengthSizeMin;
    var end := PackedPayload(S, f, vs, out, at + headerLen);
    var payloadLen := end - (at + headerLen);
    BackPatch(tagged, at + lenStart, lengthSizeMin, body, Varint.Encode(|body|));
    var actualLengthSize := Varint.Size32(payloadLen);
    if lengthSizeMin != actualLengthSize {
      assert actualLengthSize == lengthSizeMin + 1;
      assert out[at + headerLen..at + headerLen + payloadLen] == out[..][at + headerLen..at + headerLen + payloadLen];
      MemMove(out, at + headerLen + 1, at + headerLen, payloadLen);
      headerLen := headerLen + 1;
    }
    var n := Varint.Pack32(payloadLen, out, at + lenStart);
    rv := headerLen + payloadLen;
  }

  /** `repeated_field_pack` for a field sent one member per element. */
  method EachFieldPack(S: Schema, f: Field, vs: seq<Value>, out: array<byte>, at: nat) returns (rv: nat)
    requires SchemaOk(S) && AllPack(S, f, vs)
    requires |EncodeMembers(EachMember(S, f, vs))| < MAX_LENGTH
    requires at + |EncodeMembers(EachMember(S, f, vs))| <= out.Length
    modifies out
    ensures rv == |EncodeMembers(EachMember(S, f, vs))|
    ensures out[..] == Patch(old(out[..]), at, EncodeMembers(EachMember(S, f, vs)))
    decreases vs, 5
  {
    hide Patch, SchemaOk, ValueMember, EncodeMember, EachMember, EncodeMembers;
    ghost var before := out[..];
    ghost var all := EncodeMembers(EachMember(S, f, vs));
    ghost var done: seq<byte> := [];
    PatchRead(before, at, []);
    assert vs[0..] == vs && [] + all == all;
    rv := 0;
    for i := 0 to |vs|
      invariant rv == |done|
      invariant done + EncodeMembers(EachMember(S, f, vs[i..])) == all
      invariant out[..] == Patch(before, at, done)
    {
      assert WellTypedValue(S, f.typ, vs[i]);
      ghost var e := EncodeMember(ValueMember(S, f, vs[i]));
      EachUnfold(S, f, vs, i);
      PatchPatch(before, at, done, e);
      var n := ValueFieldPack(S, f, vs[i], out, at + rv);
      rv := rv + n;
      done := done + e;
    }
    NothingLeft(S, f);
    assert done + [] == done && vs[|vs|..] == [];
  }

  lemma NothingLeft(S: Schema, f: Field)
    ensures EncodeMembers(EachMember(S, f, [])) == []
    ensures EncodeMembers(UnknownMembers([])) == []
  {
  }

  lemma EachUnfold(S: Schema, f: Field, vs: seq<Value>, i: nat)
    requires i < |vs|
    ensures EncodeMembers(EachMember(S, f, vs[i..]))
            == EncodeMember(ValueMember(S, f, vs[i])) + EncodeMembers(EachMember(S, f, vs[i + 1..]))
  {
    hide ValueMember, EncodeMember;
    assert vs[i..][1..] == vs[i + 1..];
    var ms := EachMember(S, f, vs[i..]);
    assert ms[0] == ValueMember(S, f, vs[i]) && ms[1..] == EachMember(S, f, vs[i + 1..]);
  }

  // ------------------------------------------------------------------ messages

  /** One turn of the field loop of `protobuf_c_message_pack`. */
  method SlotPack(S: Schema, f: Field, slot: Slot, out: array<byte>, at: nat) returns (rv: nat)
    requires SchemaOk(S) && f.id < 0x2000_0000 && WellTypedSlot(S, f, slot)
    requires |EncodeMembers(SlotMembers(S, f, slot))| < MAX_LENGTH
    requires at + |EncodeMembers(SlotMembers(S, f, slot))| <= out.Length
    modifies out
    ensures rv == |EncodeMembers(SlotMembers(S, f, slot))|
    ensures out[..] == Patch(old(out[..]), at, EncodeMembers(SlotMembers(S, f, slot)))
    decreases slot, 6
  {
    hide Patch, SchemaOk, SingleMember, PackedMember, EncodeMember;
    PatchRead(out[..], at, []);
    match slot
    case One(v) =>
      if f.lab.Required? || v.Some? {
        OneMember(SingleMember(S, f, v));
        rv := RequiredFieldPack(S, f, v, out, at);
      } else {
        rv := 0;
      }
    case Many(vs) =>
      if f.packed && f.typ.Packable() {
        if vs == [] {
          rv := 0;
        } else {
          OneMember(PackedMember(f, vs));
          rv := PackedFieldPack(S, f, vs, out, at);
        }
      } else {
        rv := EachFieldPack(S, f, vs, out, at);
      }
  }

  lemma OneMember(mem: Member)
    ensures EncodeMembers([mem]) == EncodeMember(mem)
  {
    assert [mem][1..] == [];
    assert EncodeMember(mem) + [] == EncodeMember(mem);
  }

  /** `unknown_field_pack` */
  method UnknownFieldPack(u: Unknown, out: array<byte>, at: nat) returns (rv: nat)
    requires u.tag < 0x1_0000_0000
    requires at + |EncodeMember(UnknownMember(u))| <= out.Length
    modifies out
    ensures rv == |EncodeMember(UnknownMember(u))|
    ensures out[..] == Patch(old(out[..]), at, EncodeMember(UnknownMember(u)))
  {
    hide Patch;
    ghost var before := out[..];
    rv := TagPack(u.tag, u.wire, out, at);
    PatchPatch(before, at, Varint.Encode(u.tag * 8 + u.wire.Code()), u.data);
    MemCpy(out, at + rv, u.data);
    rv := rv + |u.data|;
  }

  /** The second loop of `protobuf_c_message_pack`. */
  method UnknownsPack(us: seq<Unknown>, out: array<byte>, at: nat) returns (rv: nat)
    requires forall k :: 0 <= k < |us| ==> us[k].tag < 0x1_0000_0000
    requires at + |EncodeMembers(UnknownMembers(us))| <= out.Length
    modifies out
    ensures rv == |EncodeMembers(UnknownMembers(us))|
    ensures out[..] == Patch(old(out[..]), at, EncodeMembers(UnknownMembers(us)))
  {
    hide Patch, EncodeMember, EncodeMembers, UnknownMembers, UnknownMember;
    ghost var before := out[..];
    ghost var all := EncodeMembers(UnknownMembers(us));
    ghost var done: seq<byte> := [];
    PatchRead(before, at, []);
    assert us[0..] == us && [] + all == all;
    rv := 0;
    for i := 0 to |us|
      invariant rv == |done|
      invariant done + EncodeMembers(UnknownMembers(us[i..])) == all
      invariant out[..] == Patch(before, at, done)
    {
      ghost var e := EncodeMember(UnknownMember(us[i]));
      UnknownUnfold(us, i);
      PatchPatch(before, at, done, e);
      var n := UnknownFieldPack(us[i], out, at + rv);
      rv := rv + n;
      done := done + e;
    }
    NothingLeft([], Field(0, Optional, Bool, false, None, None));
    assert done + [] == done && us[|us|..] == [];
  }

  /** `protobuf_c_message_pack` */
  method MessagePack(S: Schema, d: nat, m: Message, out: array<byte>, at: nat) returns (rv: nat)
    requires SchemaOk(S) && WellTyped(S, d, m)
    requires |EncodeMessage(S, d, m)| < MAX_LENGTH
    requires at + |EncodeMessage(S, d, m)| <= out.Length
    modifies out
    ensures rv == |EncodeMessage(S, d, m)|
    ensures out[..] == Patch(old(out[..]), at, EncodeMessage(S, d, m))
    decreases m, 7
  {
    hide Patch, SlotMembers, SlotsMembers, UnknownMembers, EncodeMember, EncodeMembers, EncodeMessage;
    hide SchemaOk, WellTyped, WellTypedSlot;
    MessageParts(S, d, m);
    ghost var before := out[..];
    var fields := Desc(S, d).fields;
    ghost var us := UnknownMembers(m.unknown);
    ghost var all := EncodeMessage(S, d, m);
    ghost var done: seq<byte> := [];
    PatchRead(before, at, []);
    assert [] + all == all;
    rv := 0;
    for i := 0 to |fields|
      invariant rv == |done|
      invariant done + EncodeMembers(SlotsMembers(S, fields, m, i) + us) == all
      invariant out[..] == Patch(before, at, done)
    {
      FieldIds(S, d, i);
      ghost var e := EncodeMembers(SlotMembers(S, fields[i], m.slots[i]));
      MessageUnfold(S, fields, m, i, us);
      PatchPatch(before, at, done, e);
      var n := SlotPack(S, fields[i], m.slots[i], out, at + rv);
      rv := rv + n;
      done := done + e;
    }
    SlotsEnd(S, fields, m, us);
    PatchPatch(before, at, done, EncodeMembers(us));
    var n := UnknownsPack(m.unknown, out, at + rv);
    rv := rv + n;
  }

  lemma SlotsEnd(S: Schema, fields: seq<Field>, m: Message, us: seq<Member>)
    ensures SlotsMembers(S, fields, m, |fields|) + us == us
  {
  }

  /** What the field loop needs to know of a message, without looking inside its values. */
  lemma MessageParts(S: Schema, d: nat, m: Message)
    requires WellTyped(S, d, m)
    ensures |m.slots| == |Desc(S, d).fields|
    ensures forall i :: 0 <= i < |m.slots| ==> WellTypedSlot(S, Desc(S, d).fields[i], m.slots[i])
    ensures forall k :: 0 <= k < |m.unknown| ==> m.unknown[k].tag < 0x1_0000_0000
    ensures EncodeMessage(S, d, m)
            == EncodeMembers(SlotsMembers(S, Desc(S, d).fields, m, 0) + UnknownMembers(m.unknown))
  {
  }

  lemma FieldIds(S: Schema, d: nat, i: nat)
    requires SchemaOk(S) && i < |Desc(S, d).fields|
    ensures var f := Desc(S, d).fields[i]; f.id < 0x2000_0000 && (f.packed ==> f.typ.Packable())
  {
    assert DescriptorOk(S[d]);
  }

  lemma MessageUnfold(S: Schema, fields: seq<Field>, m: Message, i: nat, us: seq<Member>)
    requires i < |fields| && i < |m.slots|
    ensures EncodeMembers(SlotsMembers(S, fields, m, i) + us)
            == EncodeMembers(SlotMembers(S, fields[i], m.slots[i]))
               + EncodeMembers(SlotsMembers(S, fields, m, i + 1) + us)
  {
    hide SlotMembers, EncodeMember;
    var here, rest := SlotMembers(S, fields[i], m.slots[i]), SlotsMembers(S, fields, m, i + 1);
    assert SlotsMembers(S, fields, m, i) + us == here + (rest + us);
    EncodeMembersAppend(here, rest + us);
  }

  lemma UnknownUnfold(us: seq<Unknown>, i: nat)
    requires i < |us|
    ensures EncodeMembers(UnknownMembers(us[i..]))
            == EncodeMember(UnknownMember(us[i])) + EncodeMembers(UnknownMembers(us[i + 1..]))
  {
    hide UnknownMember, EncodeMember;
    assert us[i..][1..] == us[i + 1..];
    var ms := UnknownMembers(us[i..]);
    assert ms[0] == UnknownMember(us[i]) && ms[1..] == UnknownMembers(us[i + 1..]);
  }
}
