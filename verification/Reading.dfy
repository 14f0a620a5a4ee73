/** What decoding makes of any octets, whoever sent them: the number each numeric member stands for, and which member
    gives a field its value. */
module Reading {
  import opened Bytes
  import opened Options
  import opened Schema
  import opened Encoding
  import opened Decoding
  import Layout
  import RoundTrip
  import Varint

  // --------------------------------------------------------------------- numbers

  /** The number that the octets of a numeric member stand for, whether or not an encoder would write them so. */
  ghost predicate IsRead(t: Type, n: int, data: seq<byte>)
    requires t.Packable()
  {
    match t
    case Int32 | Enum =>
      -0x8000_0000 <= n < 0x8000_0000 && n % 0x1_0000_0000 == Varint.Value(data) % 0x1_0000_0000
    case Int64 =>
      && -0x8000_0000_0000_0000 <= n < 0x8000_0000_0000_0000
      && n % 0x1_0000_0000_0000_0000 == Varint.Value(data) % 0x1_0000_0000_0000_0000
    case UInt32 => n == Varint.Value(data) % 0x1_0000_0000
    case UInt64 => n == Varint.Value(data) % 0x1_0000_0000_0000_0000
    case SInt32 => IsUnfolded(n, Varint.Value(data) % 0x1_0000_0000)
    case SInt64 => IsUnfolded(n, Varint.Value(data) % 0x1_0000_0000_0000_0000)
    case SFixed32 => -0x8000_0000 <= n < 0x8000_0000 && Layout.IsFixed(n, 4, data)
    case SFixed64 => -0x8000_0000_0000_0000 <= n < 0x8000_0000_0000_0000 && Layout.IsFixed(n, 8, data)
    case Fixed32 | Float => 0 <= n < 0x1_0000_0000 && Layout.IsFixed(n, 4, data)
    case Fixed64 | Double => 0 <= n < 0x1_0000_0000_0000_0000 && Layout.IsFixed(n, 8, data)
    case Bool => n == if forall k :: 0 <= k < |data| ==> data[k] % 128 == 0 then 0 else 1
  }

  /** Even words stand for the numbers from 0 up, odd ones for those from -1 down. */
  predicate IsUnfolded(n: int, w: nat) {
    w == if n >= 0 then 2 * n else -2 * n - 1
  }

  lemma {:induction false} FixedInverse(s: seq<byte>)
    ensures LittleEndian(FromLittleEndian(s), |s|) == s
    ensures FromLittleEndian(s) < Power256(|s|)
  {
    if s != [] {
      FixedInverse(s[1..]);
      var n := FromLittleEndian(s);
      assert n % 256 == s[0] && n / 256 == FromLittleEndian(s[1..]);
      assert s == [s[0]] + s[1..];
    }
  }

  lemma FixedRead(n: int, data: seq<byte>)
    requires n % Power256(|data|) == FromLittleEndian(data)
    ensures Layout.IsFixed(n, |data|, data)
  {
    FixedInverse(data);
    Layout.FixedSent(n, |data|);
  }

  lemma NumberRead(t: Type, data: seq<byte>)
    requires t.Packable()
    requires t.WireType() == Wire32 ==> |data| == 4
    requires t.WireType() == Wire64 ==> |data| == 8
    ensures IsRead(t, ParseNumber(t, data), data)
  {
    hide IsRead, ParseNumber;
    if t.WireType() == VarintWire { VarintRead(t, data); }
    if t.WireType() == Wire32 { Fixed32Read(t, data); }
    if t.WireType() == Wire64 { Fixed64Read(t, data); }
  }

  lemma VarintRead(t: Type, data: seq<byte>)
    requires t.WireType() == VarintWire
    ensures IsRead(t, ParseNumber(t, data), data)
  {
    hide Varint.Value, Varint.UnZigZag32, Varint.UnZigZag64;
    Varint.UnZigZag32Plain(Varint.Value(data) % 0x1_0000_0000);
    Varint.UnZigZag64Plain(Varint.Value(data) % 0x1_0000_0000_0000_0000);
  }

  lemma Fixed32Read(t: Type, data: seq<byte>)
    requires t.WireType() == Wire32 && |data| == 4
    ensures IsRead(t, ParseNumber(t, data), data)
  {
    hide FromLittleEndian, LittleEndian, Layout.IsFixed;
    PowerValues();
    FixedInverse(data);
    FixedRead(ParseNumber(t, data), data);
  }

  lemma Fixed64Read(t: Type, data: seq<byte>)
    requires t.WireType() == Wire64 && |data| == 8
    ensures IsRead(t, ParseNumber(t, data), data)
  {
    hide FromLittleEndian, LittleEndian, Layout.IsFixed;
    PowerValues();
    FixedInverse(data);
    FixedRead(ParseNumber(t, data), data);
  }

  /** Packed booleans are one octet each, 0 or 1; any other octet is refused. */
  lemma {:induction false} PackedBools(data: seq<byte>)
    ensures ParsePacked(Bool, data).Some? <==> forall k :: 0 <= k < |data| ==> data[k] <= 1
    ensures ParsePacked(Bool, data).Some? ==>
              var vs := ParsePacked(Bool, data).value;
              |vs| == |data| && forall k :: 0 <= k < |data| ==> vs[k] == Num(data[k] as int)
  {
    if data != [] { PackedBools(data[1..]); }
  }

  // ---------------------------------------------------------------------- fields

  lemma OneMemberLands(S: Schema, d: nat, mem: Member, m: Message, i: nat)
    requires SchemaOk(S) && WireOk(mem) && |m.slots| == |Desc(S, d).fields| && i < |m.slots|
    requires var f := Desc(S, d).fields[i]; !f.lab.Repeated? && f.oneof.None? && !f.typ.Nested?
    requires ParseMember(S, d, mem, m).Some?
    ensures var f := Desc(S, d).fields[i];
            ParseMember(S, d, mem, m).value.slots[i]
            == if mem.tag == f.id then One(ParseValue(S, f.typ, mem)) else m.slots[i]
    ensures mem.tag == Desc(S, d).fields[i].id ==> ParseValue(S, Desc(S, d).fields[i].typ, mem).Some?
  {
    hide ParseValue, ParsePacked, WireOk, InRange;
    RoundTrip.FieldFound(S, d, i);
    var fields := Desc(S, d).fields;
    match Lookup(fields, mem.tag)
    case None =>
    case Some(j) =>
      assert fields[j].id == mem.tag;
      RoundTrip.FieldFound(S, d, j);
  }

  lemma {:induction false} MembersLand(S: Schema, d: nat, ms: seq<Member>, m: Message, i: nat)
    requires SchemaOk(S) && |m.slots| == |Desc(S, d).fields| && i < |m.slots|
    requires forall k :: 0 <= k < |ms| ==> WireOk(ms[k])
    requires var f := Desc(S, d).fields[i]; !f.lab.Repeated? && f.oneof.None? && !f.typ.Nested?
    requires ParseMembers(S, d, ms, m).Some?
    ensures var f := Desc(S, d).fields[i];
            var named := Layout.Tagged(ms, f.id);
            && (named == [] ==> ParseMembers(S, d, ms, m).value.slots[i] == m.slots[i])
            && (named != [] ==> var last := named[|named| - 1];
                                && WireOk(last) && ParseValue(S, f.typ, last).Some?
                                && ParseMembers(S, d, ms, m).value.slots[i] == One(ParseValue(S, f.typ, last)))
    decreases |ms|
  {
    hide ParseMember, ParseValue, WireOk, SchemaOk, Layout.Tagged;
    var f := Desc(S, d).fields[i];
    if ms == [] {
      NoneTagged(f.id);
    } else {
      OneMemberLands(S, d, ms[0], m, i);
      MembersLand(S, d, ms[1..], ParseMember(S, d, ms[0], m).value, i);
      FirstTagged(ms, f.id);
    }
  }

  lemma NoneTagged(tag: nat)
    ensures Layout.Tagged([], tag) == []
  {
  }

  lemma FirstTagged(ms: seq<Member>, tag: nat)
    requires ms != []
    ensures Layout.Tagged(ms, tag) == (if ms[0].tag == tag then [ms[0]] else []) + Layout.Tagged(ms[1..], tag)
  {
    assert ms == [ms[0]] + ms[1..];
    Layout.TaggedJoin([ms[0]], ms[1..], tag);
    Layout.TaggedAll([ms[0]], tag);
  }

  /** A singular field that is no message and in no union has the value of the last member that names it; one that
      none names keeps its default, if it is required, and else stays unset. */
  lemma LastOneWins(S: Schema, d: nat, data: seq<byte>, i: nat)
    requires SchemaOk(S) && Decode(S, d, data).Some? && i < |Desc(S, d).fields|
    requires var f := Desc(S, d).fields[i]; !f.lab.Repeated? && f.oneof.None? && !f.typ.Nested?
    ensures var f := Desc(S, d).fields[i];
            var named := Layout.Tagged(ScanAll(data).value, f.id);
            var slot := Decode(S, d, data).value.slots[i];
            && (named == [] ==> slot == One(if f.lab.Required? then f.default else None))
            && (named != [] ==> var last := named[|named| - 1];
                                && WireOk(last) && ParseValue(S, f.typ, last).Some?
                                && slot == One(ParseValue(S, f.typ, last)))
  {
    hide ParseMembers, ParseValue, WireOk, SchemaOk, Layout.Tagged;
    MembersLand(S, d, ScanAll(data).value, Init(S, d), i);
  }

  // -------------------------------------------------------------- unknown fields

  /** The members whose tags no field has. */
  ghost function Strange(fields: seq<Field>, ms: seq<Member>): seq<Member> {
    if ms == [] then []
    else (if Layout.Numbers(fields, 0, ms[0].tag) then [] else [ms[0]]) + Strange(fields, ms[1..])
  }

  ghost predicate AllRepeated(us: seq<Unknown>, ms: seq<Member>) {
    |us| == |ms| && forall k :: 0 <= k < |us| ==> Layout.Repeats(us[k], ms[k])
  }

  lemma OneMemberStrange(S: Schema, d: nat, mem: Member, m: Message)
    requires SchemaOk(S) && WireOk(mem) && |m.slots| == |Desc(S, d).fields| && ParseMember(S, d, mem, m).Some?
    ensures ParseMember(S, d, mem, m).value.unknown
            == m.unknown + if Layout.Numbers(Desc(S, d).fields, 0, mem.tag) then []
                           else [Unknown(mem.tag, mem.wire, mem.data)]
  {
    hide ParseValue, ParsePacked, ParseSingular, WireOk, InRange;
    var fields := Desc(S, d).fields;
    if Layout.Numbers(fields, 0, mem.tag) {
      var j :| 0 <= j < |fields| && fields[j].id == mem.tag;
      RoundTrip.FieldFound(S, d, j);
    }
  }

  lemma {:induction false} MembersStrange(S: Schema, d: nat, ms: seq<Member>, m: Message, done: seq<Member>)
    requires SchemaOk(S) && |m.slots| == |Desc(S, d).fields| && AllRepeated(m.unknown, done)
    requires forall k :: 0 <= k < |ms| ==> WireOk(ms[k])
    requires ParseMembers(S, d, ms, m).Some?
    ensures AllRepeated(ParseMembers(S, d, ms, m).value.unknown, done + Strange(Desc(S, d).fields, ms))
    decreases |ms|
  {
    hide ParseMember, WireOk, SchemaOk, Layout.Numbers;
    var fields := Desc(S, d).fields;
    if ms == [] {
      assert done + [] == done;
    } else {
      var next := ParseMember(S, d, ms[0], m).value;
      OneMemberStrange(S, d, ms[0], m);
      var one := if Layout.Numbers(fields, 0, ms[0].tag) then [] else [ms[0]];
      assert done + [] == done && m.unknown + [] == m.unknown;
      MembersStrange(S, d, ms[1..], next, done + one);
      assert done + one + Strange(fields, ms[1..]) == done + (one + Strange(fields, ms[1..]));
    }
  }

  /** The unknown fields of a decoded message are just the members whose tags no field has, in the order they came. */
  lemma UnknownKept(S: Schema, d: nat, data: seq<byte>)
    requires SchemaOk(S) && Decode(S, d, data).Some?
    ensures AllRepeated(Decode(S, d, data).value.unknown, Strange(Desc(S, d).fields, ScanAll(data).value))
  {
    hide ParseMembers, WireOk, SchemaOk, Strange;
    var strange := Strange(Desc(S, d).fields, ScanAll(data).value);
    MembersStrange(S, d, ScanAll(data).value, Init(S, d), []);
    assert [] + strange == strange;
  }
}
