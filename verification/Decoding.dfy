/** The reference decoder: scan the octets into members, then apply the members in wire order. */
module Decoding {
  import opened Bytes
  import opened Options
  import opened Schema
  import opened Encoding
  import Merging
  import Varint

  /** What 23 slabs hold, the first of 16 members and each next one twice as large. */
  const MAX_MEMBERS: nat := 134217712

  // ----------------------------------------------------------------- scanning

  datatype Scanned = Scanned(mem: Member, used: nat)

  /** A member as the scanner can produce it. */
  predicate WireOk(mem: Member) {
    && mem.tag < 0x1_0000_0000
    && match mem.wire
       case VarintWire => mem.pref == 0 && Varint.Terminated(mem.data) && |mem.data| <= 10
       case Wire64 => mem.pref == 0 && |mem.data| == 8
       case Wire32 => mem.pref == 0 && |mem.data| == 4
       case Prefixed =>
         && 0 < mem.pref == Varint.ScanWithin(mem.data, 5)
         && |mem.data| == mem.pref + Varint.Value(mem.data[..mem.pref]) % 0x1_0000_0000 < 0x1_0000_0000
  }

  /** The octets behind a tag, as its wire type delimits them; a length and its prefix must fit 32 bits together. */
  function ScanData(tag: nat, code: nat, rest: seq<byte>): (r: Option<Member>)
    requires tag < 0x1_0000_0000
    ensures r.Some? ==> WireOk(r.value) && r.value.data <= rest
                        && r.value.tag == tag && r.value.wire.Code() == code
  {
    match code
    case 0 =>
      var n := Varint.Scan(rest);
      if n == 0 then None else Some(Member(tag, VarintWire, 0, rest[..n]))
    case 1 => if |rest| < 8 then None else Some(Member(tag, Wire64, 0, rest[..8]))
    case 2 =>
      var n := Varint.ScanWithin(rest, 5);
      if n == 0 then None
      else
        var len := Varint.Value(rest[..n]) % 0x1_0000_0000;
        if n + len > |rest| || n + len >= 0x1_0000_0000 then None
        else
          Varint.ScanPrefix(rest[..n], rest[n..n + len], 5);
          assert rest[..n] + rest[n..n + len] == rest[..n + len];
          assert rest[..n + len][..n] == rest[..n];
          Some(Member(tag, Prefixed, n, rest[..n + len]))
    case 5 => if |rest| < 4 then None else Some(Member(tag, Wire32, 0, rest[..4]))
    case _ => None
  }

  lemma KeyBound(s: seq<byte>)
    requires |s| <= 5
    ensures Varint.Value(s) < 0x8_0000_0000
  {
    Varint.ValueAppend(s, 0);
    Varint.WeightValues();
    assert Varint.Weight(0) <= Varint.Weight(1) <= Varint.Weight(2) <= Varint.Weight(3) <= Varint.Weight(4);
  }

  function ScanOne(s: seq<byte>): (r: Option<Scanned>)
    ensures r.Some? ==> && WireOk(r.value.mem) && |r.value.mem.data| < r.value.used <= |s|
  {
    var n := Varint.ScanWithin(s, 5);
    if n == 0 then None
    else
      KeyBound(s[..n]);
      var key := Varint.Value(s[..n]);
      var mem :- ScanData(key / 8, key % 8, s[n..]);
      Some(Scanned(mem, n + |mem.data|))
  }

  /** A strict bound on the data of every member. */
  ghost function Extent(ms: seq<Member>): nat {
    if ms == [] then 0
    else
      var n, rest := |ms[0].data| + 1, Extent(ms[1..]);
      if n > rest then n else rest
  }

  function ScanAll(s: seq<byte>): (r: Option<seq<Member>>)
    ensures r.Some? ==> Extent(r.value) <= |s|
    ensures r.Some? ==> forall k :: 0 <= k < |r.value| ==> WireOk(r.value[k])
    decreases |s|
  {
    if s == [] then Some([])
    else
      var one :- ScanOne(s);
      var rest :- ScanAll(s[one.used..]);
      Some([one.mem] + rest)
  }

  // ------------------------------------------------------------------ numbers

  predicate AllLowZero(s: seq<byte>) {
    forall i :: 0 <= i < |s| ==> Varint.Low7(s[i]) == 0
  }

  /** The number a member's octets stand for. */
  function ParseNumber(t: Type, data: seq<byte>): int
    requires t.Packable()
  {
    match t
    case Int32 | Enum => Varint.Signed32(Varint.Value(data) % 0x1_0000_0000)
    case UInt32 => Varint.Value(data) % 0x1_0000_0000
    case SInt32 => Varint.UnZigZag32(Varint.Value(data) % 0x1_0000_0000)
    case Int64 => Varint.Signed64(Varint.Value(data) % 0x1_0000_0000_0000_0000)
    case UInt64 => Varint.Value(data) % 0x1_0000_0000_0000_0000
    case SInt64 => Varint.UnZigZag64(Varint.Value(data) % 0x1_0000_0000_0000_0000)
    case SFixed32 => Varint.Signed32(FromLittleEndian(data) % 0x1_0000_0000)
    case Fixed32 | Float => FromLittleEndian(data) % 0x1_0000_0000
    case SFixed64 => Varint.Signed64(FromLittleEndian(data) % 0x1_0000_0000_0000_0000)
    case Fixed64 | Double => FromLittleEndian(data) % 0x1_0000_0000_0000_0000
    case Bool => if AllLowZero(data) then 0 else 1
    case String | Bytes | Nested(_) => 0
  }

  /** How many octets the next element of a packed payload takes; 0 when there is none. */
  function ElementLen(t: Type, data: seq<byte>): (n: nat)
    ensures n <= |data|
  {
    match t.WireType()
    case Wire32 => if |data| < 4 then 0 else 4
    case Wire64 => if |data| < 8 then 0 else 8
    case VarintWire =>
      if t == Bool then if data != [] && data[0] <= 1 then 1 else 0
      else Varint.Scan(data)
    case Prefixed => 0
  }

  /** The elements of a packed payload. */
  function ParsePacked(t: Type, data: seq<byte>): (r: Option<seq<Value>>)
    requires t.Packable()
    decreases |data|
  {
    if data == [] then Some([])
    else
      var n := ElementLen(t, data);
      if n == 0 then None
      else
        var rest :- ParsePacked(t, data[n..]);
        Some([Num(ParseNumber(t, data[..n]))] + rest)
  }

  // ------------------------------------------------------------------ members

  /** `parse_required_member` into a fresh location. Booleans are taken from any wire type. */
  function ParseValue(S: Schema, t: Type, mem: Member): (r: Option<Value>)
    requires WireOk(mem)
    decreases |mem.data|, 0
  {
    if t != Bool && mem.wire != t.WireType() then None
    else
      match t
      case String | Bytes => Some(Text(mem.data[mem.pref..]))
      case Nested(k) =>
        var m :- Decode(S, k, mem.data[mem.pref..]);
        Some(Sub(m))
      case _ => Some(Num(ParseNumber(t, mem.data)))
  }

  /** `parse_required_member` over a value already there: a sub-message is merged into, all else replaced. */
  function ParseSingular(S: Schema, f: Field, mem: Member, cur: Option<Value>): (r: Option<Value>)
    requires WireOk(mem)
    decreases |mem.data|, 1
  {
    var v :- ParseValue(S, f.typ, mem);
    match (f.typ, cur, v)
    case (Nested(k), Some(Sub(earlier)), Sub(latter)) =>
      var m :- Merging.Merge(S, k, earlier, latter);
      Some(Sub(m))
    case _ => Some(v)
  }

  /** Unsets every member of union `g`. */
  function ClearCase(fields: seq<Field>, slots: seq<Slot>, g: nat): (r: seq<Slot>)
    requires |slots| == |fields|
    ensures |r| == |slots|
    ensures forall j :: 0 <= j < |slots| ==> r[j] == if fields[j].oneof == Some(g) then One(None) else slots[j]
  {
    seq(|slots|, j requires 0 <= j < |slots| => if fields[j].oneof == Some(g) then One(None) else slots[j])
  }

  function SlotValue(slot: Slot): Option<Value> {
    match slot
    case One(v) => v
    case Many(_) => None
  }

  function SlotValues(slot: Slot): seq<Value> {
    match slot
    case One(_) => []
    case Many(vs) => vs
  }

  /** The message with more elements behind those of repeated slot `i`. */
  function Appended(m: Message, i: nat, vs: seq<Value>): (r: Message)
    requires i < |m.slots|
    ensures |r.slots| == |m.slots|
  {
    m.(slots := m.slots[i := Many(SlotValues(m.slots[i]) + vs)])
  }

  lemma AppendedTwice(m: Message, i: nat, a: seq<Value>, b: seq<Value>)
    requires i < |m.slots|
    ensures Appended(Appended(m, i, a), i, b) == Appended(m, i, a + b)
    ensures m.slots[i].Many? ==> Appended(m, i, []) == m
  {
    assert SlotValues(m.slots[i]) + a + b == SlotValues(m.slots[i]) + (a + b);
    var slots := m.slots[i := Many(SlotValues(m.slots[i]) + a)];
    assert slots[i := Many(SlotValues(m.slots[i]) + (a + b))] == m.slots[i := Many(SlotValues(m.slots[i]) + (a + b))];
    assert m.slots[i].Many? ==> SlotValues(m.slots[i]) + [] == m.slots[i].vs;
    assert m.slots[i].Many? ==> m.slots[i := m.slots[i]] == m.slots;
  }

  /** `parse_member` */
  function ParseMember(S: Schema, d: nat, mem: Member, m: Message): (r: Option<Message>)
    requires WireOk(mem) && |m.slots| == |Desc(S, d).fields|
    ensures r.Some? ==> |r.value.slots| == |m.slots|
    decreases |mem.data|, 2
  {
    var fields := Desc(S, d).fields;
    match Lookup(fields, mem.tag)
    case None => Some(m.(unknown := m.unknown + [Unknown(mem.tag, mem.wire, mem.data)]))
    case Some(i) =>
      var f := fields[i];
      if f.lab.Repeated? then
        if mem.wire == Prefixed && (f.packed || f.typ.Packable()) then
          if !f.typ.Packable() then None
          else
            var vs :- ParsePacked(f.typ, mem.data[mem.pref..]);
            Some(Appended(m, i, vs))
        else
          var v :- ParseValue(S, f.typ, mem);
          Some(Appended(m, i, [v]))
      else if f.oneof.Some? then
        var v :- ParseValue(S, f.typ, mem);
        Some(m.(slots := ClearCase(fields, m.slots, f.oneof.value)[i := One(Some(v))]))
      else
        var v :- ParseSingular(S, f, mem, SlotValue(m.slots[i]));
        Some(m.(slots := m.slots[i := One(Some(v))]))
  }

  function ParseMembers(S: Schema, d: nat, ms: seq<Member>, m: Message): (r: Option<Message>)
    requires |m.slots| == |Desc(S, d).fields|
    requires forall k :: 0 <= k < |ms| ==> WireOk(ms[k])
    ensures r.Some? ==> |r.value.slots| == |m.slots|
    decreases Extent(ms), 3, |ms|
  {
    if ms == [] then Some(m)
    else
      var m' :- ParseMember(S, d, ms[0], m);
      ParseMembers(S, d, ms[1..], m')
  }

  /** A freshly initialised message: required fields hold their defaults. */
  function Init(S: Schema, d: nat): (m: Message)
    ensures |m.slots| == |Desc(S, d).fields|
  {
    var fields := Desc(S, d).fields;
    Message(seq(|fields|, i requires 0 <= i < |fields| => InitSlot(fields[i])), [])
  }

  function InitSlot(f: Field): Slot {
    if f.lab.Repeated? then Many([])
    else if f.lab.Required? then One(f.default)
    else One(None)
  }

  /** Every required field without a default has a member. */
  predicate RequiredSeen(fields: seq<Field>, ms: seq<Member>) {
    forall i :: 0 <= i < |fields| && fields[i].lab.Required? && fields[i].default.None?
                ==> exists k :: 0 <= k < |ms| && ms[k].tag == fields[i].id
  }

  /** `protobuf_c_message_unpack` */
  function Decode(S: Schema, d: nat, data: seq<byte>): (r: Option<Message>)
    ensures r.Some? ==> |r.value.slots| == |Desc(S, d).fields|
    decreases |data|, 4
  {
    var ms :- ScanAll(data);
    if |ms| > MAX_MEMBERS || !RequiredSeen(Desc(S, d).fields, ms) then None
    else ParseMembers(S, d, ms, Init(S, d))
  }
}
