/** Message descriptors and the messages they describe (protobuf-c.h).

    A schema is a list of descriptors; a field of message type names the index of its
    descriptor, so schemas may be recursive. A message has one slot per field of its
    descriptor, in descriptor order, and the unknown fields it carries. */
module Schema {
  import opened Bytes
  import opened Options

  datatype Wire = VarintWire | Wire64 | Prefixed | Wire32 {
    function Code(): (c: nat)
      ensures c < 8
    {
      match this
      case VarintWire => 0
      case Wire64 => 1
      case Prefixed => 2
      case Wire32 => 5
    }
  }

  datatype Type =
    | Int32 | SInt32 | SFixed32 | Int64 | SInt64 | SFixed64
    | UInt32 | Fixed32 | UInt64 | Fixed64
    | Float | Double | Bool | Enum
    | String | Bytes | Nested(desc: nat)
  {
    /** The wire type `required_field_pack` ors into the tag. */
    function WireType(): Wire {
      match this
      case Int32 | SInt32 | Int64 | SInt64 | UInt32 | UInt64 | Bool | Enum => VarintWire
      case SFixed32 | Fixed32 | Float => Wire32
      case SFixed64 | Fixed64 | Double => Wire64
      case String | Bytes | Nested(_) => Prefixed
    }

    /** `is_packable_type` */
    predicate Packable() { WireType() != Prefixed }

    /** `get_type_min_size` */
    function MinSize(): nat {
      match WireType()
      case Wire32 => 4
      case Wire64 => 8
      case _ => 1
    }
  }

  datatype Label = Required | Optional | Repeated

  /** `oneof` names the union a field belongs to; `default` is the declared default value. */
  datatype Field = Field(id: nat, lab: Label, typ: Type, packed: bool, oneof: Option<nat>, default: Option<Value>)

  /** A run of consecutive field numbers, and the index of its first field. */
  datatype Range = Range(start: int, origIndex: nat)

  datatype Descriptor = Descriptor(fields: seq<Field>, ranges: seq<Range>)

  type Schema = seq<Descriptor>

  function Desc(S: Schema, d: nat): Descriptor {
    if d < |S| then S[d] else Descriptor([], [])
  }

  // ----------------------------------------------------------------- messages

  /** `Float` and `Double` members are held as their bit patterns. */
  datatype Value = Num(n: int) | Text(s: seq<byte>) | Sub(m: Message)

  /** A singular member, absent when its has-flag, case or pointer says so; or a repeated one. */
  datatype Slot = One(v: Option<Value>) | Many(vs: seq<Value>)

  datatype Unknown = Unknown(tag: nat, wire: Wire, data: seq<byte>)

  datatype Message = Message(slots: seq<Slot>, unknown: seq<Unknown>)

  /** The values a C member of this type can hold. */
  predicate InRange(t: Type, n: int) {
    match t
    case Int32 | SInt32 | SFixed32 | Enum | Bool => -0x8000_0000 <= n < 0x8000_0000
    case UInt32 | Fixed32 | Float => 0 <= n < 0x1_0000_0000
    case Int64 | SInt64 | SFixed64 => -0x8000_0000_0000_0000 <= n < 0x8000_0000_0000_0000
    case UInt64 | Fixed64 | Double => 0 <= n < 0x1_0000_0000_0000_0000
    case _ => false
  }

  /** What the generated C struct allows its members to hold. */
  predicate WellTyped(S: Schema, d: nat, m: Message)
    decreases m, 1
  {
    && |m.slots| == |Desc(S, d).fields|
    && (forall k :: 0 <= k < |m.unknown| ==> m.unknown[k].tag < 0x1_0000_0000)
    && forall i :: 0 <= i < |m.slots| ==> WellTypedSlot(S, Desc(S, d).fields[i], m.slots[i])
  }

  predicate WellTypedSlot(S: Schema, f: Field, slot: Slot)
    decreases slot, 1
  {
    match slot
    case One(None) => f.lab.Optional? || (f.lab.Required? && (f.typ == String || f.typ.Nested?))
    case One(Some(v)) => !f.lab.Repeated? && WellTypedValue(S, f.typ, v)
    case Many(vs) => f.lab.Repeated? && forall k :: 0 <= k < |vs| ==> WellTypedValue(S, f.typ, vs[k])
  }

  predicate WellTypedValue(S: Schema, t: Type, v: Value)
    decreases v, 1
  {
    match v
    case Num(n) => InRange(t, n)
    case Text(_) => t == String || t == Bytes
    case Sub(m) => t.Nested? && WellTyped(S, t.desc, m)
  }

  // ------------------------------------------------------------- field lookup

  /** The index of the field with this number. */
  function Lookup(fields: seq<Field>, tag: int): (r: Option<nat>)
    ensures r.Some? ==> r.value < |fields| && fields[r.value].id == tag
    ensures r.None? ==> forall i :: 0 <= i < |fields| ==> fields[i].id != tag
  {
    LookupFrom(fields, tag, 0)
  }

  function LookupFrom(fields: seq<Field>, tag: int, i: nat): (r: Option<nat>)
    requires i <= |fields|
    ensures r.Some? ==> r.value < |fields| && fields[r.value].id == tag
    ensures r.None? ==> forall j :: i <= j < |fields| ==> fields[j].id != tag
    decreases |fields| - i
  {
    if i == |fields| then None
    else if fields[i].id == tag then Some(i)
    else LookupFrom(fields, tag, i + 1)
  }

  /** The range table of a descriptor: its fields sorted by number and cut into consecutive
      runs, closed by a sentinel holding the number of fields. */
  predicate RangesOk(desc: Descriptor) {
    var rs := desc.ranges;
    && (desc.fields == [] ==> |rs| <= 1)
    && (desc.fields != [] ==> |rs| >= 2)
    && (rs != [] ==> rs[0].origIndex == 0 && rs[|rs| - 1].origIndex == |desc.fields|)
    && (forall k :: 0 <= k < |rs| - 1 ==> rs[k].origIndex < rs[k + 1].origIndex)
    && (forall k, j :: 0 <= k < |rs| - 1 && rs[k].origIndex <= j < rs[k + 1].origIndex && j < |desc.fields|
                       ==> desc.fields[j].id == rs[k].start + (j - rs[k].origIndex))
    && (forall j, j' :: 0 <= j < j' < |desc.fields| ==> desc.fields[j].id < desc.fields[j'].id)
  }

  /** What the protocol compiler guarantees of a descriptor, for proto2. */
  predicate DescriptorOk(desc: Descriptor) {
    && RangesOk(desc)
    && forall i :: 0 <= i < |desc.fields| ==>
         var f := desc.fields[i];
         && 1 <= f.id < 0x2000_0000
         && (f.packed ==> f.lab.Repeated? && f.typ.Packable())
         && (f.oneof.Some? ==> f.lab.Optional? && f.default.None?)
         && DefaultOk(f)
  }

  /** A default is a value of the field's type; messages have none. */
  predicate DefaultOk(f: Field) {
    match f.default
    case None => true
    case Some(Num(n)) => InRange(f.typ, n)
    case Some(Text(_)) => f.typ == String || f.typ == Bytes
    case Some(Sub(_)) => false
  }

  predicate SchemaOk(S: Schema) {
    forall d :: 0 <= d < |S| ==> DescriptorOk(S[d])
  }
}
