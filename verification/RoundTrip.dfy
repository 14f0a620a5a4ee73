/** Unpacking the packed octets of a conforming message gives the message back. */
module RoundTrip {
  import opened Bytes
  import opened Options
  import opened Schema
  import opened Encoding
  import opened Decoding
  import Merging
  import Varint

  // --------------------------------------------------------------- conformity

  /** A message a sender may build: every required field present, strings free of NUL, booleans 0 or 1,
      at most one member of each union set, unknown fields well-formed and really unknown, and sizes
      within what lengths of 31 bits and the scanner's slabs allow. */
  predicate Conforming(S: Schema, d: nat, m: Message)
    decreases m, 1
  {
    var fields := Desc(S, d).fields;
    && |m.slots| == |fields|
    && (forall i :: 0 <= i < |m.slots| ==> ConformingSlot(S, fields[i], m.slots[i]))
    && (forall i, j :: 0 <= i < j < |m.slots| && fields[i].oneof.Some? && fields[i].oneof == fields[j].oneof
                       ==> !(Merging.IsSet(m.slots[i]) && Merging.IsSet(m.slots[j])))
    && (forall k :: 0 <= k < |m.unknown| ==> UnknownOk(fields, m.unknown[k]))
    && |Members(S, d, m)| <= MAX_MEMBERS
  }

  predicate UnknownOk(fields: seq<Field>, u: Unknown) {
    Lookup(fields, u.tag).None? && WireOk(UnknownMember(u))
  }

  predicate ConformingSlot(S: Schema, f: Field, slot: Slot)
    decreases slot, 1
  {
    match slot
    case One(None) => f.lab.Optional?
    case One(Some(v)) => !f.lab.Repeated? && ConformingValue(S, f.typ, v)
    case Many(vs) =>
      && f.lab.Repeated?
      && (forall k :: 0 <= k < |vs| ==> ConformingValue(S, f.typ, vs[k]))
      && (f.packed && f.typ.Packable() ==> |PackedBody(f.typ, vs)| < MAX_LENGTH)
  }

  predicate ConformingValue(S: Schema, t: Type, v: Value)
    decreases v, 1
  {
    match v
    case Num(n) => InRange(t, n) && (t == Bool ==> 0 <= n <= 1)
    case Text(s) => && (t == String || t == Bytes)
                    && |s| < MAX_LENGTH
                    && (t == String ==> forall i :: 0 <= i < |s| ==> s[i] != 0)
    case Sub(m) => && t.Nested?
                   && Conforming(S, t.desc, m)
                   && |EncodeMessage(S, t.desc, m)| < MAX_LENGTH
  }

  // ----------------------------------------------------------------- scanning

  lemma ScanEncoded(mem: Member, rest: seq<byte>)
    requires WireOk(mem)
    ensures ScanOne(EncodeMember(mem) + rest) == Some(Scanned(mem, |EncodeMember(mem)|))
  {
    hide Varint.Encode, Varint.Value, Varint.Terminated, Varint.ScanWithin, ScanData, WireOk;
    var key := mem.tag * 8 + mem.wire.Code();
    var tag := Varint.Encode(key);
    var s := EncodeMember(mem) + rest;
    TagBound(mem);
    KeyFits(mem.tag, mem.wire.Code());
    assert s == tag + (mem.data + rest);
    Varint.ScanPrefix(tag, mem.data + rest, 5);
    assert s[..|tag|] == tag && s[|tag|..] == mem.data + rest;
    ScanDataEncoded(mem, rest);
  }

  lemma TagBound(mem: Member)
    requires WireOk(mem)
    ensures mem.tag < 0x1_0000_0000
  {
  }

  lemma KeyFits(tag: nat, code: nat)
    requires tag < 0x1_0000_0000 && code < 8
    ensures var key := tag * 8 + code; var e := Varint.Encode(key);
            |e| <= 5 && Varint.Terminated(e) && Varint.Value(e) == key && key / 8 == tag && key % 8 == code
  {
    Varint.ValueEncode(tag * 8 + code);
    Varint.Size64Correct(tag * 8 + code);
  }

  lemma ScanDataEncoded(mem: Member, rest: seq<byte>)
    requires WireOk(mem)
    ensures ScanData(mem.tag, mem.wire.Code(), mem.data + rest) == Some(mem)
  {
    var s := mem.data + rest;
    assert s[..|mem.data|] == mem.data;
    match mem.wire
    case VarintWire => Varint.ScanPrefix(mem.data, rest, 10);
    case Prefixed =>
      Varint.ScanStable(mem.data, rest, 5);
      assert s[..mem.pref] == mem.data[..mem.pref];
    case _ =>
  }

  lemma {:induction false} ScanAllEncoded(ms: seq<Member>)
    requires forall k :: 0 <= k < |ms| ==> WireOk(ms[k])
    ensures ScanAll(EncodeMembers(ms)) == Some(ms)
  {
    if ms != [] {
      var tail := EncodeMembers(ms[1..]);
      ScanEncoded(ms[0], tail);
      assert EncodeMembers(ms)[|EncodeMember(ms[0])|..] == tail;
      ScanAllEncoded(ms[1..]);
      assert [ms[0]] + ms[1..] == ms;
    }
  }

  // ------------------------------------------------------------------ numbers

  lemma {:induction false} NumberRoundTrip(t: Type, n: int)
    requires t.Packable() && InRange(t, n) && (t == Bool ==> 0 <= n <= 1)
    ensures ParseNumber(t, Scalar(t, n)) == n
  {
    if t == Bool {
      Varint.EncodeUnroll(n);
      assert Scalar(t, n) == [n] && [n][0] == n;
    } else if t.WireType() == VarintWire {
      Varint.ValueEncode(Word(t, n));
      WordParses(t, n, Scalar(t, n));
    } else {
      FixedRoundTrip(t, n);
    }
  }

  /** Any octets worth the word of a number parse to the number. */
  lemma WordParses(t: Type, n: int, data: seq<byte>)
    requires t.WireType() == VarintWire && t != Bool && InRange(t, n)
    requires Varint.Value(data) == Word(t, n)
    ensures ParseNumber(t, data) == n
  {
    match t
    case SInt32 => ZigZag32Parses(n, Varint.Value(data));
    case SInt64 => ZigZag64Parses(n, Varint.Value(data));
    case Int32 | Enum | UInt32 => TruncateWord(n, Varint.Value(data));
    case Int64 | UInt64 => SignedWord(n, Varint.Value(data));
  }

  lemma ZigZag32Parses(n: int, w: nat)
    requires -0x8000_0000 <= n < 0x8000_0000 && w == Varint.ZigZag32(n)
    ensures Varint.UnZigZag32(w % 0x1_0000_0000) == n
  {
    Varint.ZigZag32Bijection(n, 0);
  }

  lemma ZigZag64Parses(n: int, w: nat)
    requires -0x8000_0000_0000_0000 <= n < 0x8000_0000_0000_0000 && w == Varint.ZigZag64(n)
    ensures Varint.UnZigZag64(w % 0x1_0000_0000_0000_0000) == n
  {
    Varint.ZigZag64Bijection(n, 0);
  }

  lemma TruncateWord(n: int, w: nat)
    requires -0x8000_0000 <= n < 0x1_0000_0000 && w == n % 0x1_0000_0000_0000_0000
    ensures n < 0x8000_0000 ==> Varint.Signed32(w % 0x1_0000_0000) == n
    ensures n >= 0 ==> w % 0x1_0000_0000 == n
  {
    assert w == if n < 0 then n + 0x1_0000_0000_0000_0000 else n;
  }

  lemma SignedWord(n: int, w: nat)
    requires -0x8000_0000_0000_0000 <= n < 0x1_0000_0000_0000_0000 && w == n % 0x1_0000_0000_0000_0000
    ensures n < 0x8000_0000_0000_0000 ==> Varint.Signed64(w % 0x1_0000_0000_0000_0000) == n
    ensures n >= 0 ==> w % 0x1_0000_0000_0000_0000 == n
  {
    assert w == if n < 0 then n + 0x1_0000_0000_0000_0000 else n;
  }

  lemma FixedRoundTrip(t: Type, n: int)
    requires t.WireType() == Wire32 || t.WireType() == Wire64
    requires InRange(t, n)
    ensures ParseNumber(t, Scalar(t, n)) == n
  {
    hide LittleEndian, FromLittleEndian;
    PowerValues();
    if t.WireType() == Wire32 {
      LittleEndianInverse(n % 0x1_0000_0000, 4);
      Fixed32Word(n, n % 0x1_0000_0000);
    } else {
      LittleEndianInverse(n % 0x1_0000_0000_0000_0000, 8);
      SignedWord(n, n % 0x1_0000_0000_0000_0000);
    }
  }

  lemma Fixed32Word(n: int, w: nat)
    requires -0x8000_0000 <= n < 0x1_0000_0000 && w == n % 0x1_0000_0000
    ensures n < 0x8000_0000 ==> Varint.Signed32(w % 0x1_0000_0000) == n
    ensures n >= 0 ==> w % 0x1_0000_0000 == n
  {
    assert w == if n < 0 then n + 0x1_0000_0000 else n;
  }

  /** An element at the front of a payload is found and measured whatever follows it. */
  lemma ElementAtFront(t: Type, n: int, rest: seq<byte>)
    requires t.Packable() && InRange(t, n) && (t == Bool ==> 0 <= n <= 1)
    ensures ElementLen(t, Scalar(t, n) + rest) == |Scalar(t, n)| > 0
  {
    if t.WireType() == VarintWire {
      var w := Word(t, n);
      Varint.RoundTrip(w, rest);
      if t == Bool {
        Varint.EncodeUnroll(w);
        assert (Scalar(t, n) + rest)[0] == n;
      }
    }
  }

  lemma {:induction false} PackedRoundTrip(t: Type, vs: seq<Value>)
    requires t.Packable()
    requires forall k :: 0 <= k < |vs| ==> vs[k].Num? && InRange(t, vs[k].n) && (t == Bool ==> 0 <= vs[k].n <= 1)
    ensures ParsePacked(t, PackedBody(t, vs)) == Some(vs)
  {
    hide Scalar, ElementLen, ParseNumber, InRange;
    if vs != [] {
      var n := vs[0].n;
      var rest := PackedBody(t, vs[1..]);
      var data := PackedBody(t, vs);
      ElementAtFront(t, n, rest);
      NumberRoundTrip(t, n);
      PackedRoundTrip(t, vs[1..]);
      var len := |Scalar(t, n)|;
      assert data == Scalar(t, n) + rest;
      assert data[..len] == Scalar(t, n) && data[len..] == rest;
      assert [vs[0]] + vs[1..] == vs;
    }
  }

  // ------------------------------------------------------------ single members

  lemma PrefixedOk(tag: nat, body: seq<byte>)
    requires tag < 0x1_0000_0000 && |body| < MAX_LENGTH
    ensures var mem := PrefixedMember(tag, body);
            WireOk(mem) && mem.data[mem.pref..] == body && 0 < mem.pref
  {
    var p := Varint.Encode(|body|);
    Varint.ValueEncode(|body|);
    Varint.Size32Correct(|body|);
    Varint.ScanPrefix(p, body, 5);
    assert WithLength(body)[..|p|] == p && WithLength(body)[|p|..] == body;
  }

  lemma ScalarOk(t: Type, n: int)
    requires t.Packable()
    ensures match t.WireType()
            case VarintWire => Varint.Terminated(Scalar(t, n)) && |Scalar(t, n)| <= 10
            case Wire32 => |Scalar(t, n)| == 4
            case Wire64 => |Scalar(t, n)| == 8
            case Prefixed => false
  {
    if t.WireType() == VarintWire {
      Varint.ValueEncode(Word(t, n));
      Varint.Size64Correct(Word(t, n));
    }
  }

  /** The member of a conforming value is well-formed and parses to the value. */
  lemma {:induction false} ValueRoundTrip(S: Schema, f: Field, v: Value)
    requires SchemaOk(S) && f.id < 0x2000_0000 && ConformingValue(S, f.typ, v)
    ensures WireOk(ValueMember(S, f, v))
    ensures ParseValue(S, f.typ, ValueMember(S, f, v)) == Some(v)
    decreases v, 1
  {
    match v
    case Num(n) => NumRoundTrip(S, f, n);
    case Text(s) => TextRoundTrip(S, f, s);
    case Sub(m) =>
      MessageRoundTrip(S, f.typ.desc, m);
      SubRoundTrip(S, f, m);
  }

  lemma SubRoundTrip(S: Schema, f: Field, m: Message)
    requires f.id < 0x2000_0000 && f.typ.Nested? && |EncodeMessage(S, f.typ.desc, m)| < MAX_LENGTH
    requires Decode(S, f.typ.desc, EncodeMessage(S, f.typ.desc, m)) == Some(m)
    ensures WireOk(ValueMember(S, f, Sub(m)))
    ensures ParseValue(S, f.typ, ValueMember(S, f, Sub(m))) == Some(Sub(m))
  {
    SubMember(S, f, m);
    ParsePrefixed(S, f, EncodeMessage(S, f.typ.desc, m));
  }

  lemma SubMember(S: Schema, f: Field, m: Message)
    requires f.typ.Nested?
    ensures ValueMember(S, f, Sub(m)) == PrefixedMember(f.id, EncodeMessage(S, f.typ.desc, m))
  {
    assert Body(S, f.typ, Sub(m)) == EncodeMessage(S, f.typ.desc, m);
  }

  lemma ParsePrefixed(S: Schema, f: Field, body: seq<byte>)
    requires f.id < 0x2000_0000 && f.typ.Nested? && |body| < MAX_LENGTH
    ensures WireOk(PrefixedMember(f.id, body))
    ensures ParseValue(S, f.typ, PrefixedMember(f.id, body))
            == match Decode(S, f.typ.desc, body) case None => None case Some(m) => Some(Sub(m))
  {
    hide Decode;
    PrefixedOk(f.id, body);
  }

  lemma NumRoundTrip(S: Schema, f: Field, n: int)
    requires f.id < 0x2000_0000 && f.typ.Packable() && InRange(f.typ, n) && (f.typ == Bool ==> 0 <= n <= 1)
    ensures WireOk(ValueMember(S, f, Num(n)))
    ensures ParseValue(S, f.typ, ValueMember(S, f, Num(n))) == Some(Num(n))
  {
    ScalarOk(f.typ, n);
    NumberRoundTrip(f.typ, n);
  }

  lemma TextRoundTrip(S: Schema, f: Field, s: seq<byte>)
    requires f.id < 0x2000_0000 && |s| < MAX_LENGTH
    requires f.typ == Bytes || (f.typ == String && forall i :: 0 <= i < |s| ==> s[i] != 0)
    ensures WireOk(ValueMember(S, f, Text(s)))
    ensures ParseValue(S, f.typ, ValueMember(S, f, Text(s))) == Some(Text(s))
  {
    var body := Body(S, f.typ, Text(s));
    assert body == s;
    PrefixedOk(f.id, body);
  }

  // ------------------------------------------------------------------ messages

  /** The message after the members of slots `..i` have been applied. */
  function Partial(S: Schema, d: nat, m: Message, i: nat): Message
    requires |m.slots| == |Desc(S, d).fields| && i <= |m.slots|
  {
    Message(m.slots[..i] + Init(S, d).slots[i..], [])
  }

  /** Applying a list of members, then another, is applying both in order. */
  lemma {:induction false} ParseAppend(S: Schema, d: nat, a: seq<Member>, b: seq<Member>, m: Message)
    requires |m.slots| == |Desc(S, d).fields|
    requires forall k :: 0 <= k < |a| ==> WireOk(a[k])
    requires forall k :: 0 <= k < |b| ==> WireOk(b[k])
    ensures ParseMembers(S, d, a + b, m)
            == match ParseMembers(S, d, a, m) case None => None case Some(m') => ParseMembers(S, d, b, m')
  {
    hide ParseMember, WireOk;
    if a == [] {
      assert a + b == b;
    } else {
      assert (a + b)[0] == a[0] && (a + b)[1..] == a[1..] + b;
      var m' := ParseMember(S, d, a[0], m);
      if m'.Some? {
        ParseAppend(S, d, a[1..], b, m'.value);
      }
    }
  }

  lemma {:induction false} ParseOneMember(S: Schema, d: nat, mem: Member, m: Message)
    requires |m.slots| == |Desc(S, d).fields| && WireOk(mem)
    ensures ParseMembers(S, d, [mem], m) == ParseMember(S, d, mem, m)
  {
    hide ParseMember, WireOk;
    var r := ParseMember(S, d, mem, m);
    assert [mem][1..] == [];
    if r.Some? {
      assert ParseMembers(S, d, [], r.value) == r;
    }
  }

  lemma FieldFound(S: Schema, d: nat, i: nat)
    requires SchemaOk(S) && i < |Desc(S, d).fields|
    ensures DescriptorOk(Desc(S, d))
    ensures Lookup(Desc(S, d).fields, Desc(S, d).fields[i].id) == Some(i)
  {
    var fields := Desc(S, d).fields;
    var r := Lookup(fields, fields[i].id).value;
    assert !(r < i) && !(i < r);
  }

  /** The members of slot `i` turn the partial message up to `i` into the one up to `i + 1`. */
  lemma {:induction false} SlotRoundTrip(S: Schema, d: nat, m: Message, i: nat)
    requires SchemaOk(S) && Conforming(S, d, m) && i < |m.slots|
    ensures var ms := SlotMembers(S, Desc(S, d).fields[i], m.slots[i]);
            && (forall k :: 0 <= k < |ms| ==> WireOk(ms[k]))
            && ParseMembers(S, d, ms, Partial(S, d, m, i)) == Some(Partial(S, d, m, i + 1))
    decreases m, 0
  {
    hide ParseMember, WireOk, SchemaOk;
    var slot := m.slots[i];
    var at := Partial(S, d, m, i);
    assert ConformingSlot(S, Desc(S, d).fields[i], slot);
    assert at.slots[i := slot] == Partial(S, d, m, i + 1).slots;
    match slot
    case One(None) =>
      FieldFound(S, d, i);
      assert at.slots[i := slot] == at.slots;
    case One(Some(v)) => OneRoundTrip(S, d, m, i, v);
    case Many(vs) => ManyRoundTrip(S, d, i, vs, at);
  }

  lemma {:induction false} OneRoundTrip(S: Schema, d: nat, m: Message, i: nat, v: Value)
    requires SchemaOk(S) && Conforming(S, d, m) && i < |m.slots| && m.slots[i] == One(Some(v))
    ensures var mem := ValueMember(S, Desc(S, d).fields[i], v);
            var at := Partial(S, d, m, i);
            WireOk(mem) && ParseMembers(S, d, [mem], at) == Some(at.(slots := at.slots[i := m.slots[i]]))
    decreases m.slots[i], 0
  {
    hide ParseMembers, ParseMember, WireOk, ParseValue, ValueMember;
    var f := Desc(S, d).fields[i];
    var at := Partial(S, d, m, i);
    FieldFound(S, d, i);
    assert ConformingSlot(S, f, m.slots[i]);
    ValueRoundTrip(S, f, v);
    ParseOneMember(S, d, ValueMember(S, f, v), at);
    forall j | f.oneof.Some? && 0 <= j < |m.slots| && Desc(S, d).fields[j].oneof == f.oneof
      ensures at.slots[j] == One(None)
    {
      UnionUnset(S, d, m, i, j);
    }
    SingularLands(S, d, i, v, at);
  }

  lemma {:induction false} ManyRoundTrip(S: Schema, d: nat, i: nat, vs: seq<Value>, at: Message)
    requires SchemaOk(S) && |at.slots| == |Desc(S, d).fields| && i < |at.slots| && at.slots[i] == Many([])
    requires ConformingSlot(S, Desc(S, d).fields[i], Many(vs))
    ensures var ms := SlotMembers(S, Desc(S, d).fields[i], Many(vs));
            && (forall k :: 0 <= k < |ms| ==> WireOk(ms[k]))
            && ParseMembers(S, d, ms, at) == Some(at.(slots := at.slots[i := Many(vs)]))
    decreases Many(vs), 0
  {
    hide ParseMember, WireOk, ParseValue;
    var f := Desc(S, d).fields[i];
    FieldFound(S, d, i);
    if !f.packed {
      forall k | 0 <= k < |vs| ensures Parses(S, f, vs[k]) {
        ValueRoundTrip(S, f, vs[k]);
      }
      EachRoundTrip(S, d, i, vs, [], at);
      assert [] + vs == vs;
    } else if vs != [] {
      PackedLands(S, d, i, vs, at);
    } else {
      assert at.slots[i := Many(vs)] == at.slots;
    }
  }

  lemma PackedNumbers(S: Schema, f: Field, vs: seq<Value>)
    requires f.typ.Packable() && ConformingSlot(S, f, Many(vs))
    ensures forall k :: 0 <= k < |vs| ==>
              vs[k].Num? && InRange(f.typ, vs[k].n) && (f.typ == Bool ==> 0 <= vs[k].n <= 1)
    ensures f.packed ==> |PackedBody(f.typ, vs)| < MAX_LENGTH
  {
    forall k | 0 <= k < |vs|
      ensures vs[k].Num? && InRange(f.typ, vs[k].n) && (f.typ == Bool ==> 0 <= vs[k].n <= 1)
    {
      assert ConformingValue(S, f.typ, vs[k]);
    }
  }

  /** A packed member fills its slot in one go. */
  lemma PackedLands(S: Schema, d: nat, i: nat, vs: seq<Value>, at: Message)
    requires |at.slots| == |Desc(S, d).fields| && i < |at.slots| && at.slots[i] == Many([])
    requires var f := Desc(S, d).fields[i];
             f.lab.Repeated? && f.typ.Packable() && f.id < 0x2000_0000 && ConformingSlot(S, f, Many(vs))
             && f.packed && Lookup(Desc(S, d).fields, f.id) == Some(i)
    ensures var mem := PackedMember(Desc(S, d).fields[i], vs);
            WireOk(mem) && ParseMembers(S, d, [mem], at) == Some(at.(slots := at.slots[i := Many(vs)]))
  {
    hide Decode, ParseValue, ParsePacked, PackedBody, WithLength, WireOk, ConformingSlot, InRange, Lookup, ParseMembers;
    var f := Desc(S, d).fields[i];
    PackedNumbers(S, f, vs);
    PackedRoundTrip(f.typ, vs);
    PrefixedOk(f.id, PackedBody(f.typ, vs));
    ParseOneMember(S, d, PackedMember(f, vs), at);
    assert [] + vs == vs;
  }

  /** A singular member lands in its own slot and, for a union, unsets nothing that was set. */
  lemma SingularLands(S: Schema, d: nat, i: nat, v: Value, at: Message)
    requires |at.slots| == |Desc(S, d).fields| && i < |at.slots|
    requires var f := Desc(S, d).fields[i];
             && Lookup(Desc(S, d).fields, f.id) == Some(i) && !f.lab.Repeated? && Parses(S, f, v)
             && (f.typ.Nested? ==> at.slots[i] == One(None))
             && (f.oneof.Some? ==> forall j :: 0 <= j < |at.slots| && Desc(S, d).fields[j].oneof == f.oneof
                                               ==> at.slots[j] == One(None))
    ensures ParseMember(S, d, ValueMember(S, Desc(S, d).fields[i], v), at)
            == Some(at.(slots := at.slots[i := One(Some(v))]))
  {
    hide Decode, ParseValue, WireOk, WithLength;
    var fields := Desc(S, d).fields;
    var f := fields[i];
    if f.oneof.Some? {
      assert ClearCase(fields, at.slots, f.oneof.value) == at.slots;
    }
  }

  /** Before slot `i` is applied, no member of its union is set. */
  lemma UnionUnset(S: Schema, d: nat, m: Message, i: nat, j: nat)
    requires SchemaOk(S) && Conforming(S, d, m) && i < |m.slots| && j < |m.slots| && Merging.IsSet(m.slots[i])
    requires Desc(S, d).fields[i].oneof.Some? && Desc(S, d).fields[j].oneof == Desc(S, d).fields[i].oneof
    ensures Partial(S, d, m, i).slots[j] == One(None)
  {
    FieldFound(S, d, j);
    assert ConformingSlot(S, Desc(S, d).fields[j], m.slots[j]);
  }

  /** The element's member, sent on its own, parses back to the element. */
  predicate Parses(S: Schema, f: Field, v: Value) {
    WireOk(ValueMember(S, f, v)) && ParseValue(S, f.typ, ValueMember(S, f, v)) == Some(v)
  }

  lemma ElementLands(S: Schema, d: nat, i: nat, v: Value, at: Message)
    requires |at.slots| == |Desc(S, d).fields| && i < |at.slots| && at.slots[i].Many?
    requires var f := Desc(S, d).fields[i];
             f.lab.Repeated? && !f.packed && Parses(S, f, v) && (f.typ.Packable() ==> f.typ.WireType() != Prefixed)
             && Lookup(Desc(S, d).fields, f.id) == Some(i)
    ensures ParseMember(S, d, ValueMember(S, Desc(S, d).fields[i], v), at)
            == Some(at.(slots := at.slots[i := Many(at.slots[i].vs + [v])]))
  {
    hide Decode, ParseValue, WireOk, WithLength;
  }

  /** Unpacked elements are appended one by one. */
  lemma {:induction false} EachRoundTrip(S: Schema, d: nat, i: nat, vs: seq<Value>, done: seq<Value>, at: Message)
    requires |at.slots| == |Desc(S, d).fields| && i < |at.slots| && at.slots[i] == Many(done)
    requires var f := Desc(S, d).fields[i];
             f.lab.Repeated? && !f.packed && Lookup(Desc(S, d).fields, f.id) == Some(i)
             && forall k :: 0 <= k < |vs| ==> Parses(S, f, vs[k])
    ensures var ms := EachMember(S, Desc(S, d).fields[i], vs);
            && (forall k :: 0 <= k < |ms| ==> WireOk(ms[k]))
            && ParseMembers(S, d, ms, at) == Some(at.(slots := at.slots[i := Many(done + vs)]))
    decreases |vs|
  {
    hide ParseMember, ParseValue, ValueMember, WireOk;
    var f := Desc(S, d).fields[i];
    if vs == [] {
      assert done + vs == done;
      assert at.slots[i := Many(done)] == at.slots;
    } else {
      var next := at.(slots := at.slots[i := Many(done + [vs[0]])]);
      ElementLands(S, d, i, vs[0], at);
      EachRoundTrip(S, d, i, vs[1..], done + [vs[0]], next);
      assert done + [vs[0]] + vs[1..] == done + vs;
      var ms := EachMember(S, f, vs);
      assert ms[0] == ValueMember(S, f, vs[0]) && ms[1..] == EachMember(S, f, vs[1..]);
      assert next.slots[i := Many(done + vs)] == at.slots[i := Many(done + vs)];
    }
  }

  lemma UnknownLands(S: Schema, d: nat, u: Unknown, at: Message)
    requires |at.slots| == |Desc(S, d).fields| && UnknownOk(Desc(S, d).fields, u)
    ensures ParseMember(S, d, UnknownMember(u), at) == Some(at.(unknown := at.unknown + [u]))
  {
    hide Decode, ParseValue, ParsePacked, WireOk;
  }

  lemma {:induction false} UnknownMembersAt(us: seq<Unknown>, k: nat)
    requires k < |us|
    ensures UnknownMembers(us)[k] == UnknownMember(us[k])
  {
    if k > 0 {
      UnknownMembersAt(us[1..], k - 1);
    }
  }

  /** The unknown fields are appended in order. */
  lemma {:induction false} UnknownRoundTrip(S: Schema, d: nat, us: seq<Unknown>, at: Message)
    requires |at.slots| == |Desc(S, d).fields|
    requires forall k :: 0 <= k < |us| ==> UnknownOk(Desc(S, d).fields, us[k])
    ensures forall k :: 0 <= k < |us| ==> WireOk(UnknownMembers(us)[k])
    ensures ParseMembers(S, d, UnknownMembers(us), at) == Some(at.(unknown := at.unknown + us))
  {
    hide ParseMember, WireOk, UnknownMember;
    forall k | 0 <= k < |us| ensures WireOk(UnknownMembers(us)[k]) {
      UnknownMembersAt(us, k);
      assert UnknownOk(Desc(S, d).fields, us[k]);
    }
    if us == [] {
      assert at.unknown + us == at.unknown;
    } else {
      var next := at.(unknown := at.unknown + [us[0]]);
      UnknownLands(S, d, us[0], at);
      UnknownRoundTrip(S, d, us[1..], next);
      assert next.unknown + us[1..] == at.unknown + us;
      assert UnknownMembers(us)[1..] == UnknownMembers(us[1..]);
    }
  }

  lemma SlotsUnfold(S: Schema, fields: seq<Field>, m: Message, i: nat, us: seq<Member>)
    ensures i < |m.slots| && i < |fields| ==>
              SlotsMembers(S, fields, m, i) + us
              == SlotMembers(S, fields[i], m.slots[i]) + (SlotsMembers(S, fields, m, i + 1) + us)
    ensures i >= |m.slots| ==> SlotsMembers(S, fields, m, i) + us == us
  {
  }

  /** The members of slots `i..` and the unknown fields complete the partial message. */
  lemma {:induction false} RestRoundTrip(S: Schema, d: nat, m: Message, i: nat)
    requires SchemaOk(S) && Conforming(S, d, m) && i <= |m.slots|
    ensures var ms := SlotsMembers(S, Desc(S, d).fields, m, i) + UnknownMembers(m.unknown);
            && (forall k :: 0 <= k < |ms| ==> WireOk(ms[k]))
            && ParseMembers(S, d, ms, Partial(S, d, m, i)) == Some(m)
    decreases m, 1, |m.slots| - i
  {
    hide ParseMembers, ParseMember, WireOk, SchemaOk, SlotMembers, SlotsMembers;
    var fields := Desc(S, d).fields;
    var us := UnknownMembers(m.unknown);
    SlotsUnfold(S, fields, m, i, us);
    if i == |m.slots| {
      UnknownRoundTrip(S, d, m.unknown, Partial(S, d, m, i));
      assert Partial(S, d, m, i) == Message(m.slots, []);
      assert [] + m.unknown == m.unknown;
    } else {
      SlotRoundTrip(S, d, m, i);
      RestRoundTrip(S, d, m, i + 1);
      ParseAppend(S, d, SlotMembers(S, fields[i], m.slots[i]), SlotsMembers(S, fields, m, i + 1) + us,
                  Partial(S, d, m, i));
    }
  }

  /** Every required field is among the members. */
  lemma {:induction false} RequiredPresent(S: Schema, d: nat, m: Message, i: nat, j: nat)
    requires Conforming(S, d, m) && i <= j < |m.slots| && Desc(S, d).fields[j].lab.Required?
    ensures exists k :: 0 <= k < |SlotsMembers(S, Desc(S, d).fields, m, i)|
                        && SlotsMembers(S, Desc(S, d).fields, m, i)[k].tag == Desc(S, d).fields[j].id
    decreases j - i
  {
    var fields := Desc(S, d).fields;
    var here := SlotMembers(S, fields[i], m.slots[i]);
    assert SlotsMembers(S, fields, m, i) == here + SlotsMembers(S, fields, m, i + 1);
    if i == j {
      assert ConformingSlot(S, fields[j], m.slots[j]);
      assert m.slots[j].One? && m.slots[j].v.Some?;
      assert here == [SingleMember(S, fields[j], m.slots[j].v)];
      assert (here + SlotsMembers(S, fields, m, i + 1))[0].tag == fields[j].id;
    } else {
      RequiredPresent(S, d, m, i + 1, j);
      var k :| 0 <= k < |SlotsMembers(S, fields, m, i + 1)|
               && SlotsMembers(S, fields, m, i + 1)[k].tag == fields[j].id;
      assert (here + SlotsMembers(S, fields, m, i + 1))[|here| + k].tag == fields[j].id;
    }
  }

  /** Main theorem: for every schema and every conforming message, of any nesting. */
  lemma {:induction false} MessageRoundTrip(S: Schema, d: nat, m: Message)
    requires SchemaOk(S) && Conforming(S, d, m)
    ensures Decode(S, d, EncodeMessage(S, d, m)) == Some(m)
    decreases m, 2
  {
    var ms := Members(S, d, m);
    RestRoundTrip(S, d, m, 0);
    ScanAllEncoded(ms);
    assert Partial(S, d, m, 0) == Init(S, d);
    AllRequiredPresent(S, d, m);
  }

  lemma {:induction false} AllRequiredPresent(S: Schema, d: nat, m: Message)
    requires Conforming(S, d, m)
    ensures RequiredSeen(Desc(S, d).fields, Members(S, d, m))
  {
    var fields := Desc(S, d).fields;
    var ms := Members(S, d, m);
    forall i | 0 <= i < |fields| && fields[i].lab.Required?
      ensures exists k :: 0 <= k < |ms| && ms[k].tag == fields[i].id
    {
      RequiredPresent(S, d, m, 0, i);
      var slots := SlotsMembers(S, fields, m, 0);
      var k :| 0 <= k < |slots| && slots[k].tag == fields[i].id;
      assert ms[k] == slots[k];
    }
  }

  // ------------------------------------------------------ beyond what is encoded

  /** A repeated number is taken from a packed member, whether the field is declared packed or not. */
  lemma PackedAccepted(S: Schema, d: nat, i: nat, vs: seq<Value>, at: Message)
    requires |at.slots| == |Desc(S, d).fields| && i < |at.slots| && at.slots[i].Many?
    requires var f := Desc(S, d).fields[i];
             f.lab.Repeated? && f.typ.Packable() && f.id < 0x2000_0000 && Lookup(Desc(S, d).fields, f.id) == Some(i)
             && |PackedBody(f.typ, vs)| < MAX_LENGTH
    requires forall k :: 0 <= k < |vs| ==> ConformingValue(S, Desc(S, d).fields[i].typ, vs[k])
    ensures var mem := PackedMember(Desc(S, d).fields[i], vs);
            WireOk(mem) && ParseMember(S, d, mem, at)
                           == Some(at.(slots := at.slots[i := Many(at.slots[i].vs + vs)]))
  {
    hide Decode, ParseValue, ParsePacked, PackedBody, WithLength, WireOk, InRange, Lookup;
    var f := Desc(S, d).fields[i];
    forall k | 0 <= k < |vs|
      ensures vs[k].Num? && InRange(f.typ, vs[k].n) && (f.typ == Bool ==> 0 <= vs[k].n <= 1)
    {
      assert ConformingValue(S, f.typ, vs[k]);
    }
    PackedRoundTrip(f.typ, vs);
    PrefixedOk(f.id, PackedBody(f.typ, vs));
  }

  /** And from members of its own, each with one element. */
  lemma ElementAccepted(S: Schema, d: nat, i: nat, v: Value, at: Message)
    requires SchemaOk(S) && |at.slots| == |Desc(S, d).fields| && i < |at.slots| && at.slots[i].Many?
    requires var f := Desc(S, d).fields[i];
             f.lab.Repeated? && f.typ.Packable() && f.id < 0x2000_0000 && Lookup(Desc(S, d).fields, f.id) == Some(i)
    requires ConformingValue(S, Desc(S, d).fields[i].typ, v)
    ensures var mem := ValueMember(S, Desc(S, d).fields[i], v);
            WireOk(mem) && ParseMember(S, d, mem, at)
                           == Some(at.(slots := at.slots[i := Many(at.slots[i].vs + [v])]))
  {
    hide Decode, ParseValue, ParsePacked, WireOk, Lookup;
    ValueRoundTrip(S, Desc(S, d).fields[i], v);
  }

  /** A message without a member for some required field that has no default is refused. */
  lemma RequiredMissing(S: Schema, d: nat, data: seq<byte>, i: nat)
    requires i < |Desc(S, d).fields| && ScanAll(data).Some?
    requires Desc(S, d).fields[i].lab.Required? && Desc(S, d).fields[i].default.None?
    requires forall k :: 0 <= k < |ScanAll(data).value| ==> ScanAll(data).value[k].tag != Desc(S, d).fields[i].id
    ensures Decode(S, d, data) == None
  {
    hide ParseMembers, WireOk;
  }
}
