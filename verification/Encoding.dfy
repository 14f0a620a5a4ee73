/** The reference encoding: what octets a message stands for on the wire.

    A message is a list of members, each a tag and the octets behind it; the encoding is
    their concatenation. All three encoders of protobuf-c.c are proved against it. */
module Encoding {
  import opened Bytes
  import opened Options
  import opened Schema
  import Varint

  /** One tagged member on the wire. `pref` counts the length-prefix octets at the front of `data`. */
  datatype Member = Member(tag: nat, wire: Wire, pref: nat, data: seq<byte>)

  function EncodeMember(mem: Member): (r: seq<byte>)
    ensures |r| > |mem.data|
  {
    Varint.Encode(mem.tag * 8 + mem.wire.Code()) + mem.data
  }

  function EncodeMembers(ms: seq<Member>): (r: seq<byte>)
    ensures |r| >= |ms|
  {
    if ms == [] then [] else EncodeMember(ms[0]) + EncodeMembers(ms[1..])
  }

  // ------------------------------------------------------------------ scalars

  /** `k` octets, least significant first. */
  function LittleEndian(n: nat, k: nat): (r: seq<byte>)
    ensures |r| == k
  {
    if k == 0 then [] else [n % 256] + LittleEndian(n / 256, k - 1)
  }

  function FromLittleEndian(s: seq<byte>): nat {
    if s == [] then 0 else (s[0] as int) + 256 * FromLittleEndian(s[1..])
  }

  /** The unsigned word a varint member is sent as. */
  function Word(t: Type, n: int): (w: nat)
    requires t.WireType() == VarintWire
    ensures w < POW64
  {
    match t
    case Bool => if n == 0 then 0 else 1
    case SInt32 => ZigZag32Bound(n); Varint.ZigZag32(n)
    case SInt64 => ZigZag64Bound(n); Varint.ZigZag64(n)
    case _ => n % 0x1_0000_0000_0000_0000
  }

  lemma ZigZag32Bound(n: int)
    ensures Varint.ZigZag32(n) < 0x1_0000_0000
  {
  }

  lemma ZigZag64Bound(n: int)
    ensures Varint.ZigZag64(n) < 0x1_0000_0000_0000_0000
  {
  }

  /** The octets of a numeric member, without its tag. */
  function Scalar(t: Type, n: int): (r: seq<byte>)
    requires t.Packable()
  {
    match t.WireType()
    case Wire32 => LittleEndian(n % 0x1_0000_0000, 4)
    case Wire64 => LittleEndian(n % 0x1_0000_0000_0000_0000, 8)
    case VarintWire => Varint.Encode(Word(t, n))
    case Prefixed => []
  }

  function Number(v: Value): int {
    if v.Num? then v.n else 0
  }

  /** A C string ends at its first NUL. */
  function CString(s: seq<byte>): (r: seq<byte>)
    ensures r <= s
    ensures forall i :: 0 <= i < |r| ==> r[i] != 0
    ensures |r| == |s| || s[|r|] == 0
  {
    if s == [] || s[0] == 0 then [] else [s[0]] + CString(s[1..])
  }

  function WithLength(s: seq<byte>): (r: seq<byte>) {
    Varint.Encode(|s|) + s
  }

  /** A member whose data is a body behind its length. */
  function PrefixedMember(tag: nat, body: seq<byte>): Member {
    Member(tag, Prefixed, |Varint.Encode(|body|)|, WithLength(body))
  }

  // ------------------------------------------------------------------ members

  /** The member a single value becomes (`required_field_pack`). */
  function ValueMember(S: Schema, f: Field, v: Value): (r: Member)
    decreases v, 1
  {
    if f.typ.Packable() then Member(f.id, f.typ.WireType(), 0, Scalar(f.typ, Number(v)))
    else PrefixedMember(f.id, Body(S, f.typ, v))
  }

  /** The octets behind the length prefix of a string, bytes or message value. */
  function Body(S: Schema, t: Type, v: Value): seq<byte>
    decreases v, 0
  {
    match v
    case Num(_) => []
    case Text(s) => if t == String then CString(s) else s
    case Sub(m) => if t.Nested? then EncodeMessage(S, t.desc, m) else []
  }

  /** A null string or message pointer in a required field: an empty body. */
  function NullMember(f: Field): Member {
    Member(f.id, f.typ.WireType(), if f.typ.Packable() then 0 else 1, [0])
  }

  /** A singular field in sight of the encoder: its value, or a null pointer. */
  function SingleMember(S: Schema, f: Field, v: Option<Value>): Member
    decreases v, 1
  {
    match v
    case None => NullMember(f)
    case Some(x) => ValueMember(S, f, x)
  }

  function EachMember(S: Schema, f: Field, vs: seq<Value>): (r: seq<Member>)
    ensures |r| == |vs|
    decreases vs, 0
  {
    if vs == [] then [] else [ValueMember(S, f, vs[0])] + EachMember(S, f, vs[1..])
  }

  /** The payload of a packed field: its elements end to end. */
  function PackedBody(t: Type, vs: seq<Value>): seq<byte>
    requires t.Packable()
  {
    if vs == [] then [] else Scalar(t, Number(vs[0])) + PackedBody(t, vs[1..])
  }

  function PackedMember(f: Field, vs: seq<Value>): Member
    requires f.typ.Packable()
  {
    PrefixedMember(f.id, PackedBody(f.typ, vs))
  }

  function SlotMembers(S: Schema, f: Field, slot: Slot): seq<Member>
    decreases slot, 1
  {
    match slot
    case One(v) => if v.Some? || f.lab.Required? then [SingleMember(S, f, v)] else []
    case Many(vs) =>
      if f.packed && f.typ.Packable() then
        if vs == [] then [] else [PackedMember(f, vs)]
      else EachMember(S, f, vs)
  }

  /** The members of slots `i..`. */
  function SlotsMembers(S: Schema, fields: seq<Field>, m: Message, i: nat): seq<Member>
    decreases m, 0, |m.slots| - i
  {
    if i < |m.slots| && i < |fields|
    then SlotMembers(S, fields[i], m.slots[i]) + SlotsMembers(S, fields, m, i + 1)
    else []
  }

  function UnknownMember(u: Unknown): Member {
    Member(u.tag, u.wire, if u.wire == Prefixed then Varint.ScanWithin(u.data, 5) else 0, u.data)
  }

  function UnknownMembers(us: seq<Unknown>): (r: seq<Member>)
    ensures |r| == |us|
  {
    if us == [] then [] else [UnknownMember(us[0])] + UnknownMembers(us[1..])
  }

  function Members(S: Schema, d: nat, m: Message): seq<Member>
    decreases m, 1
  {
    SlotsMembers(S, Desc(S, d).fields, m, 0) + UnknownMembers(m.unknown)
  }

  function EncodeMessage(S: Schema, d: nat, m: Message): seq<byte>
    decreases m, 2
  {
    EncodeMembers(Members(S, d, m))
  }

  // ----------------------------------------------------------- small theorems

  lemma {:induction false} EncodeMembersAppend(a: seq<Member>, b: seq<Member>)
    ensures EncodeMembers(a + b) == EncodeMembers(a) + EncodeMembers(b)
  {
    hide EncodeMember;
    if a == [] {
      assert a + b == b;
    } else {
      EncodeMembersAppend(a[1..], b);
      assert (a + b)[1..] == a[1..] + b;
    }
  }

  function Power256(k: nat): (p: nat)
    ensures p >= 1
  {
    if k == 0 then 1 else 256 * Power256(k - 1)
  }

  lemma PowerValues()
    ensures Power256(4) == 0x1_0000_0000 && Power256(8) == 0x1_0000_0000_0000_0000
  {
    assert Power256(2) == 0x1_0000;
    assert Power256(4) == 256 * (256 * Power256(2));
    assert Power256(6) == 256 * (256 * Power256(4));
    assert Power256(8) == 256 * (256 * Power256(6));
  }

  lemma {:induction false} LittleEndianInverse(n: nat, k: nat)
    requires n < Power256(k)
    ensures FromLittleEndian(LittleEndian(n, k)) == n
  {
    if k > 0 {
      LittleEndianInverse(n / 256, k - 1);
      assert LittleEndian(n, k)[1..] == LittleEndian(n / 256, k - 1);
    }
  }

  /** Octet `i` holds the bits from `8 * i` on. */
  lemma {:induction false} LittleEndianAt(n: nat, k: nat, i: nat)
    requires i < k
    ensures LittleEndian(n, k)[i] == n / Power256(i) % 256
  {
    if i > 0 {
      LittleEndianAt(n / 256, k - 1, i - 1);
      DivideTwice(n, 256, Power256(i - 1));
    }
  }
}
