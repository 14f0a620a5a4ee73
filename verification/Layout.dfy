/** What stands on the wire, field by field: how often each field is sent, under which tag and wire type,
    and with which octets. */
module Layout {
  import opened Bytes
  import opened Options
  import opened Schema
  import opened Encoding
  import Decoding
  import RoundTrip
  import Varint

  /** The wire types of the encoding specification. */
  predicate IsWire(t: Type, code: nat) {
    match t
    case Int32 | SInt32 | Int64 | SInt64 | UInt32 | UInt64 | Bool | Enum => code == 0
    case SFixed64 | Fixed64 | Double => code == 1
    case String | Bytes | Nested(_) => code == 2
    case SFixed32 | Fixed32 | Float => code == 5
  }

  /** The octets of a fixed-width number, least significant first. */
  ghost predicate IsFixed(n: int, width: nat, data: seq<byte>) {
    |data| == width && forall k :: 0 <= k < width ==> data[k] == n % Power256(width) / Power256(k) % 256
  }

  /** The octets of a number. */
  ghost predicate IsNumber(t: Type, n: int, data: seq<byte>)
    requires InRange(t, n)
  {
    match t
    case Int32 | Int64 | Enum => data == Varint.Encode(if n < 0 then n + 0x1_0000_0000_0000_0000 else n)
    case UInt32 | UInt64 => data == Varint.Encode(n)
    case SInt32 | SInt64 => data == Varint.Encode(if n < 0 then -2 * n - 1 else 2 * n)
    case Bool => data == [if n == 0 then 0 else 1]
    case SFixed32 | Fixed32 | Float => IsFixed(n, 4, data)
    case SFixed64 | Fixed64 | Double => IsFixed(n, 8, data)
    case _ => false
  }

  /** The octets of a string up to its first NUL, of bytes, or of a message. */
  ghost predicate IsBody(S: Schema, t: Type, v: Value, body: seq<byte>) {
    match v
    case Num(_) => false
    case Text(s) =>
      if t == Bytes then body == s
      else body <= s && (forall k :: 0 <= k < |body| ==> body[k] != 0) && (|body| == |s| || s[|body|] == 0)
    case Sub(m) => t.Nested? && body == EncodeMessage(S, t.desc, m)
  }

  /** A length in front of a body. */
  ghost predicate Delimits(data: seq<byte>, body: seq<byte>) {
    data == Varint.Encode(|body|) + body
  }

  /** The member of one value. */
  ghost predicate IsSent(S: Schema, f: Field, v: Value, mem: Member)
    requires WellTypedValue(S, f.typ, v)
  {
    && mem.tag == f.id && IsWire(f.typ, mem.wire.Code())
    && if v.Num? then IsNumber(f.typ, v.n, mem.data)
       else exists body :: IsBody(S, f.typ, v, body) && Delimits(mem.data, body)
  }

  /** Numbers end to end. */
  ghost predicate IsPacked(S: Schema, t: Type, vs: seq<Value>, body: seq<byte>)
    requires forall k :: 0 <= k < |vs| ==> WellTypedValue(S, t, vs[k])
  {
    if vs == [] then body == []
    else
      && WellTypedValue(S, t, vs[0]) && vs[0].Num?
      && exists n: nat :: n <= |body| && IsNumber(t, vs[0].n, body[..n]) && IsPacked(S, t, vs[1..], body[n..])
  }

  /** All that is sent of one field: nothing of an optional one that is unset; one member of a singular one, empty for
      a null string or message; of a repeated one a member for each element, or one for all if it is packed. */
  ghost predicate IsField(S: Schema, f: Field, slot: Slot, ms: seq<Member>)
    requires WellTypedSlot(S, f, slot)
  {
    match slot
    case One(None) =>
      if f.lab.Optional? then ms == []
      else |ms| == 1 && ms[0].tag == f.id && IsWire(f.typ, ms[0].wire.Code()) && ms[0].data == [0]
    case One(Some(v)) => |ms| == 1 && IsSent(S, f, v, ms[0])
    case Many(vs) =>
      if !f.packed then |ms| == |vs| && forall k :: 0 <= k < |vs| ==> IsSent(S, f, vs[k], ms[k])
      else if vs == [] then ms == []
      else |ms| == 1 && ms[0].tag == f.id && ms[0].wire.Code() == 2
           && exists body :: IsPacked(S, f.typ, vs, body) && Delimits(ms[0].data, body)
  }

  /** The members with one tag, in order. */
  ghost function Tagged(ms: seq<Member>, tag: nat): seq<Member> {
    if ms == [] then [] else Tagged(ms[..|ms| - 1], tag) + if ms[|ms| - 1].tag == tag then [ms[|ms| - 1]] else []
  }

  /** The fields in the order of their numbers, each as `IsField` says, and behind them the unknown fields as they
      came. */
  ghost predicate IsLayout(S: Schema, d: nat, m: Message, ms: seq<Member>)
    requires WellTyped(S, d, m)
  {
    var fields := Desc(S, d).fields;
    var n := |ms| - |m.unknown|;
    && 0 <= n
    && (forall a, b :: 0 <= a < b < n ==> ms[a].tag <= ms[b].tag)
    && (forall a :: 0 <= a < n ==> Numbers(fields, 0, ms[a].tag))
    && (forall i :: 0 <= i < |fields| ==> IsField(S, fields[i], m.slots[i], Tagged(ms[..n], fields[i].id)))
    && (forall k :: 0 <= k < |m.unknown| ==> Repeats(m.unknown[k], ms[n + k]))
  }

  /** Some field from number `i` on has the tag. */
  ghost predicate Numbers(fields: seq<Field>, i: nat, tag: nat) {
    exists j :: i <= j < |fields| && fields[j].id == tag
  }

  predicate Repeats(u: Unknown, mem: Member) {
    mem.tag == u.tag && mem.wire == u.wire && mem.data == u.data
  }

  // ------------------------------------------------------------------- one value

  lemma NumberSent(t: Type, n: int)
    requires t.Packable() && InRange(t, n)
    ensures IsNumber(t, n, Scalar(t, n))
  {
    if t.WireType() == VarintWire { VarintSent(t, n); } else { FixedNumberSent(t, n); }
  }

  lemma FixedNumberSent(t: Type, n: int)
    requires t.WireType() == Wire32 || t.WireType() == Wire64
    requires InRange(t, n)
    ensures IsNumber(t, n, Scalar(t, n))
  {
    hide Varint.Encode, LittleEndian, IsFixed;
    PowerValues();
    FixedSent(n, 4);
    FixedSent(n, 8);
  }

  lemma VarintSent(t: Type, n: int)
    requires t.WireType() == VarintWire && InRange(t, n)
    ensures IsNumber(t, n, Scalar(t, n))
  {
    hide Varint.Encode, LittleEndian, IsFixed, Varint.ZigZag32, Varint.ZigZag64;
    if t == SInt32 { Varint.ZigZag32Plain(n); }
    if t == SInt64 { Varint.ZigZag64Plain(n); }
    if t == Bool { Varint.EncodeUnroll(Word(t, n)); }
  }

  lemma FixedSent(n: int, width: nat)
    ensures IsFixed(n, width, LittleEndian(n % Power256(width), width))
  {
    forall k | 0 <= k < width
      ensures LittleEndian(n % Power256(width), width)[k] == n % Power256(width) / Power256(k) % 256
    {
      LittleEndianAt(n % Power256(width), width, k);
    }
  }

  lemma WireSent(t: Type)
    ensures IsWire(t, t.WireType().Code())
    ensures t.Packable() <==> !(t == String || t == Bytes || t.Nested?)
  {
  }

  lemma ValueSent(S: Schema, f: Field, v: Value)
    requires WellTypedValue(S, f.typ, v)
    ensures IsSent(S, f, v, ValueMember(S, f, v))
  {
    hide EncodeMessage, WellTyped, Varint.Encode, IsNumber, Scalar;
    WireSent(f.typ);
    if v.Num? {
      NumberSent(f.typ, v.n);
    } else {
      var body := Body(S, f.typ, v);
      assert IsBody(S, f.typ, v, body) && Delimits(ValueMember(S, f, v).data, body);
    }
  }

  /** Only a boolean is taken from another wire type than its own. */
  lemma WireNeeded(S: Schema, t: Type, mem: Member)
    requires Decoding.WireOk(mem) && t != Bool && !IsWire(t, mem.wire.Code())
    ensures Decoding.ParseValue(S, t, mem) == None
  {
    WireSent(t);
  }

  // ------------------------------------------------------------------- one field

  lemma {:induction false} PackedSent(S: Schema, t: Type, vs: seq<Value>)
    requires t.Packable() && forall k :: 0 <= k < |vs| ==> WellTypedValue(S, t, vs[k])
    ensures IsPacked(S, t, vs, PackedBody(t, vs))
  {
    hide Scalar, IsNumber;
    if vs != [] {
      WireSent(t);
      var body := PackedBody(t, vs);
      var n := |Scalar(t, vs[0].n)|;
      NumberSent(t, vs[0].n);
      PackedSent(S, t, vs[1..]);
      assert body[..n] == Scalar(t, vs[0].n) && body[n..] == PackedBody(t, vs[1..]);
    }
  }

  lemma {:induction false} EachSent(S: Schema, f: Field, vs: seq<Value>)
    requires forall k :: 0 <= k < |vs| ==> WellTypedValue(S, f.typ, vs[k])
    ensures forall k :: 0 <= k < |vs| ==> IsSent(S, f, vs[k], EachMember(S, f, vs)[k])
  {
    hide ValueMember, IsSent, WellTypedValue;
    if vs != [] {
      ValueSent(S, f, vs[0]);
      EachSent(S, f, vs[1..]);
    }
  }

  lemma FieldSent(S: Schema, f: Field, slot: Slot)
    requires WellTypedSlot(S, f, slot) && (f.packed ==> f.typ.Packable())
    ensures var ms := SlotMembers(S, f, slot);
            IsField(S, f, slot, ms) && forall k :: 0 <= k < |ms| ==> ms[k].tag == f.id
  {
    hide ValueMember, IsSent, WellTypedValue, IsPacked, PackedBody, EachMember, IsWire, Varint.Encode;
    WireSent(f.typ);
    match slot
    case One(None) =>
    case One(Some(v)) =>
      ValueSent(S, f, v);
      SentTag(S, f, v, ValueMember(S, f, v));
    case Many(vs) =>
      if f.packed {
        PackedSent(S, f.typ, vs);
        assert vs != [] ==> Delimits(PackedMember(f, vs).data, PackedBody(f.typ, vs));
      } else {
        EachSent(S, f, vs);
        forall k | 0 <= k < |vs| ensures EachMember(S, f, vs)[k].tag == f.id {
          SentTag(S, f, vs[k], EachMember(S, f, vs)[k]);
        }
      }
  }

  lemma SentTag(S: Schema, f: Field, v: Value, mem: Member)
    requires WellTypedValue(S, f.typ, v) && IsSent(S, f, v, mem)
    ensures mem.tag == f.id
  {
  }

  // ------------------------------------------------------------------ all fields

  lemma {:induction false} TaggedJoin(a: seq<Member>, b: seq<Member>, tag: nat)
    ensures Tagged(a + b, tag) == Tagged(a, tag) + Tagged(b, tag)
  {
    if b == [] {
      assert a + b == a;
    } else {
      assert (a + b)[..|a + b| - 1] == a + b[..|b| - 1];
      TaggedJoin(a, b[..|b| - 1], tag);
    }
  }

  lemma {:induction false} TaggedAll(ms: seq<Member>, tag: nat)
    ensures (forall k :: 0 <= k < |ms| ==> ms[k].tag == tag) ==> Tagged(ms, tag) == ms
    ensures (forall k :: 0 <= k < |ms| ==> ms[k].tag != tag) ==> Tagged(ms, tag) == []
  {
    if ms != [] {
      var front := ms[..|ms| - 1];
      TaggedAll(front, tag);
      assert forall k :: 0 <= k < |front| ==> front[k] == ms[k];
      assert ms == front + [ms[|ms| - 1]];
    }
  }

  /** The members of the fields from number `i` on. */
  ghost predicate FromField(S: Schema, fields: seq<Field>, m: Message, i: nat, ms: seq<Member>)
    requires |fields| == |m.slots| && forall j :: 0 <= j < |fields| ==> WellTypedSlot(S, fields[j], m.slots[j])
  {
    && (forall a, b :: 0 <= a < b < |ms| ==> ms[a].tag <= ms[b].tag)
    && (forall a :: 0 <= a < |ms| ==> Numbers(fields, i, ms[a].tag))
    && (forall j :: i <= j < |fields| ==> IsField(S, fields[j], m.slots[j], Tagged(ms, fields[j].id)))
  }

  lemma {:induction false} FieldsSent(S: Schema, fields: seq<Field>, m: Message, i: nat)
    requires |fields| == |m.slots| && i <= |fields|
    requires forall j :: 0 <= j < |fields| ==> WellTypedSlot(S, fields[j], m.slots[j])
    requires forall j :: 0 <= j < |fields| ==> fields[j].packed ==> fields[j].typ.Packable()
    requires forall j, k :: 0 <= j < k < |fields| ==> fields[j].id < fields[k].id
    ensures FromField(S, fields, m, i, SlotsMembers(S, fields, m, i))
    decreases |fields| - i
  {
    hide IsField, SlotMembers, WellTypedSlot, Tagged, Numbers;
    var ms := SlotsMembers(S, fields, m, i);
    if i == |fields| {
      assert ms == [];
    } else {
      var here, rest := SlotMembers(S, fields[i], m.slots[i]), SlotsMembers(S, fields, m, i + 1);
      assert ms == here + rest;
      FieldSent(S, fields[i], m.slots[i]);
      FieldsSent(S, fields, m, i + 1);
      HigherNumbers(fields, i, here, rest);
      forall j | i <= j < |fields| ensures IsField(S, fields[j], m.slots[j], Tagged(ms, fields[j].id)) {
        TaggedSplit(here, rest, fields[i].id, fields[j].id);
      }
    }
  }

  lemma HigherNumbers(fields: seq<Field>, i: nat, here: seq<Member>, rest: seq<Member>)
    requires i < |fields| && forall j, k :: 0 <= j < k < |fields| ==> fields[j].id < fields[k].id
    requires forall a :: 0 <= a < |here| ==> here[a].tag == fields[i].id
    requires forall a :: 0 <= a < |rest| ==> Numbers(fields, i + 1, rest[a].tag)
    ensures forall a :: 0 <= a < |rest| ==> rest[a].tag > fields[i].id
    ensures var ms := here + rest; forall a :: 0 <= a < |ms| ==> Numbers(fields, i, ms[a].tag)
  {
    forall a | 0 <= a < |rest| ensures rest[a].tag > fields[i].id && Numbers(fields, i, rest[a].tag) {
      assert Numbers(fields, i + 1, rest[a].tag);
    }
    assert Numbers(fields, i, fields[i].id);
    var ms := here + rest;
    forall a | 0 <= a < |ms| ensures Numbers(fields, i, ms[a].tag) {
      assert ms[a].tag == fields[i].id || ms[a] == rest[a - |here|];
    }
  }

  /** Members of one tag in front of members of other tags. */
  lemma TaggedSplit(here: seq<Member>, rest: seq<Member>, tag: nat, other: nat)
    requires forall a :: 0 <= a < |here| ==> here[a].tag == tag
    requires forall a :: 0 <= a < |rest| ==> rest[a].tag != tag
    ensures Tagged(here + rest, other) == if other == tag then here else Tagged(rest, other)
  {
    hide Tagged;
    TaggedJoin(here, rest, other);
    TaggedAll(here, other);
    TaggedAll(rest, tag);
    assert here + [] == here && [] + Tagged(rest, other) == Tagged(rest, other);
  }

  lemma LayoutFrom(S: Schema, d: nat, m: Message, known: seq<Member>, us: seq<Member>)
    requires WellTyped(S, d, m) && FromField(S, Desc(S, d).fields, m, 0, known)
    requires |us| == |m.unknown| && forall k :: 0 <= k < |us| ==> Repeats(m.unknown[k], us[k])
    ensures IsLayout(S, d, m, known + us)
  {
    hide IsField, WellTypedSlot, Tagged, Numbers;
    var ms := known + us;
    assert ms[..|known|] == known;
    assert forall a :: 0 <= a < |known| ==> ms[a] == known[a];
    assert forall k :: 0 <= k < |us| ==> ms[|known| + k] == us[k];
  }

  lemma MembersLayout(S: Schema, d: nat, m: Message)
    requires SchemaOk(S) && WellTyped(S, d, m)
    ensures IsLayout(S, d, m, Members(S, d, m))
  {
    hide IsField, SlotsMembers, WellTypedSlot, Tagged;
    var fields := Desc(S, d).fields;
    var known, us := SlotsMembers(S, fields, m, 0), UnknownMembers(m.unknown);
    forall j | 0 <= j < |fields| ensures fields[j].packed ==> fields[j].typ.Packable() {
      RoundTrip.FieldFound(S, d, j);
    }
    Ascending(S, d);
    FieldsSent(S, fields, m, 0);
    forall k | 0 <= k < |m.unknown| ensures Repeats(m.unknown[k], us[k]) {
      RoundTrip.UnknownMembersAt(m.unknown, k);
    }
    hide FromField, IsLayout;
    LayoutFrom(S, d, m, known, us);
  }

  /** Every message is sent as the members of its fields, in the order of the field numbers, and its unknown fields. */
  lemma EncodingLayout(S: Schema, d: nat, m: Message) returns (ms: seq<Member>)
    requires SchemaOk(S) && WellTyped(S, d, m)
    ensures EncodeMessage(S, d, m) == EncodeMembers(ms) && IsLayout(S, d, m, ms)
  {
    ms := Members(S, d, m);
    MembersLayout(S, d, m);
  }

  lemma Ascending(S: Schema, d: nat)
    requires SchemaOk(S)
    ensures var fields := Desc(S, d).fields; forall j, k :: 0 <= j < k < |fields| ==> fields[j].id < fields[k].id
  {
    if d < |S| { assert DescriptorOk(S[d]); }
  }

  // ---------------------------------------------------------------- on the wire

  lemma {:induction false} ConformingTyped(S: Schema, d: nat, m: Message)
    requires RoundTrip.Conforming(S, d, m)
    ensures WellTyped(S, d, m)
    decreases m, 1
  {
    var fields := Desc(S, d).fields;
    forall i | 0 <= i < |m.slots| ensures WellTypedSlot(S, fields[i], m.slots[i]) {
      assert RoundTrip.ConformingSlot(S, fields[i], m.slots[i]);
      match m.slots[i]
      case One(None) =>
      case One(Some(v)) => ValueTyped(S, fields[i].typ, v);
      case Many(vs) =>
        forall k | 0 <= k < |vs| ensures WellTypedValue(S, fields[i].typ, vs[k]) {
          ValueTyped(S, fields[i].typ, vs[k]);
        }
    }
    forall k | 0 <= k < |m.unknown| ensures m.unknown[k].tag < 0x1_0000_0000 {
      assert RoundTrip.UnknownOk(fields, m.unknown[k]);
    }
  }

  lemma {:induction false} ValueTyped(S: Schema, t: Type, v: Value)
    requires RoundTrip.ConformingValue(S, t, v)
    ensures WellTypedValue(S, t, v)
    decreases v, 0
  {
    if v.Sub? { ConformingTyped(S, t.desc, v.m); }
  }

  /** So the members found when the octets of a conforming message are scanned are laid out like that. */
  lemma WireLayout(S: Schema, d: nat, m: Message)
    requires SchemaOk(S) && RoundTrip.Conforming(S, d, m)
    ensures WellTyped(S, d, m)
    ensures var ms := Decoding.ScanAll(EncodeMessage(S, d, m)); ms.Some? && IsLayout(S, d, m, ms.value)
  {
    hide RoundTrip.Conforming, WellTyped, IsLayout, Decoding.ScanAll, Decoding.WireOk, EncodeMembers;
    ConformingTyped(S, d, m);
    MembersLayout(S, d, m);
    RoundTrip.RestRoundTrip(S, d, m, 0);
    RoundTrip.ScanAllEncoded(Members(S, d, m));
  }
}
