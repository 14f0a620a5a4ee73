/** Decoding a concatenation is merging the two decoded messages, as "Last One Wins" in the encoding
    specification promises; and where the code falls short of it. */
module MergeLaw {
  import opened Bytes
  import opened Options
  import opened Schema
  import opened Encoding
  import opened Decoding
  import opened Merging
  import RoundTrip
  import Varint

  /** No field of any descriptor belongs to a union. */
  predicate NoUnions(S: Schema) {
    forall d, i :: 0 <= d < |S| && 0 <= i < |S[d].fields| ==> S[d].fields[i].oneof.None?
  }

  // --------------------------------------------------------------------- shapes

  /** Every slot is of the kind its field's label and type call for, at every level. */
  predicate Shaped(S: Schema, d: nat, m: Message)
    decreases m, 1
  {
    && |m.slots| == |Desc(S, d).fields|
    && forall i :: 0 <= i < |m.slots| ==> ShapedSlot(S, Desc(S, d).fields[i], m.slots[i])
  }

  predicate ShapedSlot(S: Schema, f: Field, slot: Slot)
    decreases slot, 1
  {
    match slot
    case One(None) => !f.lab.Repeated?
    case One(Some(v)) => !f.lab.Repeated? && ShapedValue(S, f.typ, v)
    case Many(vs) => f.lab.Repeated? && forall k :: 0 <= k < |vs| ==> ShapedValue(S, f.typ, vs[k])
  }

  predicate ShapedValue(S: Schema, t: Type, v: Value)
    decreases v, 1
  {
    match v
    case Sub(m) => t.Nested? && Shaped(S, t.desc, m)
    case _ => !t.Nested?
  }

  // ------------------------------------------------------------ merging, slot by slot

  lemma {:induction false} MergeSlotsAt(S: Schema, fields: seq<Field>, e: Message, l: Message, i: nat, k: nat)
    requires i <= k < |l.slots| && MergeSlots(S, fields, e, l, i).Some?
    ensures MergeSlot(S, fields, k, e, l) == Some(MergeSlots(S, fields, e, l, i).value[k - i])
    decreases k - i
  {
    hide MergeSlot;
    if i < k {
      MergeSlotsAt(S, fields, e, l, i + 1, k);
    }
  }

  lemma {:induction false} MergeSlotsTotal(S: Schema, fields: seq<Field>, e: Message, l: Message, i: nat)
    requires i <= |l.slots|
    requires forall k :: 0 <= k < |l.slots| ==> MergeSlot(S, fields, k, e, l).Some?
    ensures MergeSlots(S, fields, e, l, i).Some?
    decreases |l.slots| - i
  {
    hide MergeSlot;
    if i < |l.slots| {
      MergeSlotsTotal(S, fields, e, l, i + 1);
    }
  }

  /** A successful merge, seen slot by slot. */
  lemma MergeAt(S: Schema, d: nat, e: Message, l: Message, m: Message)
    requires Merge(S, d, e, l) == Some(m)
    ensures |m.slots| == |l.slots| && m.unknown == l.unknown
    ensures forall k :: 0 <= k < |l.slots| ==> MergeSlot(S, Desc(S, d).fields, k, e, l) == Some(m.slots[k])
  {
    hide MergeSlot, MergeSlots;
    MergeUnfold(S, d, e, l);
    forall k | 0 <= k < |l.slots| ensures MergeSlot(S, Desc(S, d).fields, k, e, l) == Some(m.slots[k]) {
      MergeSlotsAt(S, Desc(S, d).fields, e, l, 0, k);
    }
  }

  lemma NoUnionAt(S: Schema, d: nat, i: nat)
    requires NoUnions(S) && i < |Desc(S, d).fields|
    ensures Desc(S, d).fields[i].oneof.None?
  {
  }

  /** Without unions the merge always succeeds and keeps the shape. */
  lemma {:induction false} MergeTotal(S: Schema, d: nat, e: Message, l: Message)
    requires NoUnions(S) && Shaped(S, d, e) && Shaped(S, d, l)
    ensures Merge(S, d, e, l).Some? && Shaped(S, d, Merge(S, d, e, l).value)
    decreases e, 1
  {
    hide MergeSlot, MergeSlots, Merge;
    var fields := Desc(S, d).fields;
    forall k | 0 <= k < |l.slots|
      ensures MergeSlot(S, fields, k, e, l).Some?
      ensures ShapedSlot(S, fields[k], MergeSlot(S, fields, k, e, l).value)
    {
      NoUnionAt(S, d, k);
      SlotTotal(S, fields, k, e, l);
    }
    MergeSlotsTotal(S, fields, e, l, 0);
    MergeUnfold(S, d, e, l);
    MergeAt(S, d, e, l, Merge(S, d, e, l).value);
  }

  lemma {:induction false} SlotTotal(S: Schema, fields: seq<Field>, k: nat, e: Message, l: Message)
    requires NoUnions(S) && k < |fields| == |e.slots| == |l.slots| && fields[k].oneof.None?
    requires ShapedSlot(S, fields[k], e.slots[k]) && ShapedSlot(S, fields[k], l.slots[k])
    ensures var r := MergeSlot(S, fields, k, e, l); r.Some? && ShapedSlot(S, fields[k], r.value)
    decreases e, 0
  {
    hide Merge, Shaped;
    var f := fields[k];
    if f.lab.Optional? {
      var a, b := e.slots[k].v, l.slots[k].v;
      if f.typ.Nested? && a.Some? && b.Some? {
        assert ShapedValue(S, f.typ, a.value) && ShapedValue(S, f.typ, b.value);
        MergeTotal(S, f.typ.desc, a.value.m, b.value.m);
      }
    }
  }

  // -------------------------------------------------------------- associativity

  /** Merging is associative wherever no unions are involved. */
  lemma {:induction false} MergeAssociative(S: Schema, d: nat, a: Message, b: Message, c: Message)
    requires NoUnions(S) && Shaped(S, d, a) && Shaped(S, d, b) && Shaped(S, d, c)
    ensures Merge(S, d, a, b).Some? && Merge(S, d, b, c).Some?
    ensures Merge(S, d, Merge(S, d, a, b).value, c) == Merge(S, d, a, Merge(S, d, b, c).value)
    decreases a, 1
  {
    hide MergeSlot, MergeSlots, Merge, Shaped;
    MergeTotal(S, d, a, b);
    MergeTotal(S, d, b, c);
    var ab, bc := Merge(S, d, a, b).value, Merge(S, d, b, c).value;
    MergeTotal(S, d, ab, c);
    MergeTotal(S, d, a, bc);
    var left, right := Merge(S, d, ab, c).value, Merge(S, d, a, bc).value;
    MergeAt(S, d, a, b, ab);
    MergeAt(S, d, b, c, bc);
    MergeAt(S, d, ab, c, left);
    MergeAt(S, d, a, bc, right);
    ShapedParts(S, d, a);
    ShapedParts(S, d, b);
    ShapedParts(S, d, c);
    var fields := Desc(S, d).fields;
    forall k | 0 <= k < |c.slots| ensures left.slots[k] == right.slots[k] {
      NoUnionAt(S, d, k);
      SlotAssociative(S, fields, k, a, b, c, ab, bc);
    }
    assert left.slots == right.slots;
  }

  lemma ShapedParts(S: Schema, d: nat, m: Message)
    requires Shaped(S, d, m)
    ensures |m.slots| == |Desc(S, d).fields|
    ensures forall i :: 0 <= i < |m.slots| ==> ShapedSlot(S, Desc(S, d).fields[i], m.slots[i])
  {
  }

  lemma {:induction false} SlotAssociative(S: Schema, fields: seq<Field>, k: nat, a: Message, b: Message, c: Message,
                                           ab: Message, bc: Message)
    requires NoUnions(S) && k < |fields| && fields[k].oneof.None?
    requires |fields| == |a.slots| == |b.slots| == |c.slots| == |ab.slots| == |bc.slots|
    requires ShapedSlot(S, fields[k], a.slots[k]) && ShapedSlot(S, fields[k], b.slots[k])
    requires ShapedSlot(S, fields[k], c.slots[k])
    requires MergeSlot(S, fields, k, a, b) == Some(ab.slots[k])
    requires MergeSlot(S, fields, k, b, c) == Some(bc.slots[k])
    ensures MergeSlot(S, fields, k, ab, c) == MergeSlot(S, fields, k, a, bc)
    decreases a, 0
  {
    hide Merge, Shaped;
    var f := fields[k];
    if f.lab.Optional? {
      var x, y, z := a.slots[k].v, b.slots[k].v, c.slots[k].v;
      if f.typ.Nested? && x.Some? && y.Some? && z.Some? {
        assert ShapedValue(S, f.typ, x.value) && ShapedValue(S, f.typ, y.value) && ShapedValue(S, f.typ, z.value);
        MergeAssociative(S, f.typ.desc, x.value.m, y.value.m, z.value.m);
      }
    } else if f.lab.Repeated? {
      var x, y, z := a.slots[k].vs, b.slots[k].vs, c.slots[k].vs;
      assert x + y + z == x + (y + z);
    }
  }

  // ------------------------------------------------- what the decoder produces

  lemma {:induction false} DecodeShaped(S: Schema, d: nat, data: seq<byte>)
    requires SchemaOk(S) && NoUnions(S) && Decode(S, d, data).Some?
    ensures Shaped(S, d, Decode(S, d, data).value)
    decreases |data|, 4
  {
    hide ParseMembers, WireOk, Shaped;
    InitShaped(S, d);
    MembersShaped(S, d, ScanAll(data).value, Init(S, d));
  }

  lemma InitShaped(S: Schema, d: nat)
    requires SchemaOk(S)
    ensures Shaped(S, d, Init(S, d))
  {
    forall i | 0 <= i < |Desc(S, d).fields|
      ensures ShapedSlot(S, Desc(S, d).fields[i], Init(S, d).slots[i])
    {
      RoundTrip.FieldFound(S, d, i);
      assert DefaultOk(Desc(S, d).fields[i]);
    }
  }

  lemma {:induction false} MembersShaped(S: Schema, d: nat, ms: seq<Member>, m: Message)
    requires SchemaOk(S) && NoUnions(S) && |m.slots| == |Desc(S, d).fields| && Shaped(S, d, m)
    requires forall k :: 0 <= k < |ms| ==> WireOk(ms[k])
    ensures ParseMembers(S, d, ms, m).Some? ==> Shaped(S, d, ParseMembers(S, d, ms, m).value)
    decreases Extent(ms), 3, |ms|
  {
    hide ParseMember, WireOk, Shaped;
    if ms != [] {
      MemberShaped(S, d, ms[0], m);
      var m' := ParseMember(S, d, ms[0], m);
      if m'.Some? {
        MembersShaped(S, d, ms[1..], m'.value);
      }
    }
  }

  lemma {:induction false} MemberShaped(S: Schema, d: nat, mem: Member, m: Message)
    requires SchemaOk(S) && NoUnions(S) && |m.slots| == |Desc(S, d).fields| && Shaped(S, d, m) && WireOk(mem)
    ensures ParseMember(S, d, mem, m).Some? ==> Shaped(S, d, ParseMember(S, d, mem, m).value)
    decreases |mem.data|, 2
  {
    hide ParseValue, ParsePacked, WireOk, Merge, Shaped;
    var fields := Desc(S, d).fields;
    ShapedParts(S, d, m);
    match Lookup(fields, mem.tag)
    case None =>
      var m' := ParseMember(S, d, mem, m).value;
      ShapedIf(S, d, m');
    case Some(i) =>
      NoUnionAt(S, d, i);
      var r := ParseMember(S, d, mem, m);
      if r.Some? {
        ValueShaped(S, fields[i].typ, mem);
        LandsShaped(S, d, mem, m, i);
        ShapedIf(S, d, r.value);
      }
  }

  lemma ShapedIf(S: Schema, d: nat, m: Message)
    requires |m.slots| == |Desc(S, d).fields|
    requires forall i :: 0 <= i < |m.slots| ==> ShapedSlot(S, Desc(S, d).fields[i], m.slots[i])
    ensures Shaped(S, d, m)
  {
  }

  lemma LandsShaped(S: Schema, d: nat, mem: Member, m: Message, i: nat)
    requires NoUnions(S) && |m.slots| == |Desc(S, d).fields| && WireOk(mem)
    requires Lookup(Desc(S, d).fields, mem.tag) == Some(i) && Desc(S, d).fields[i].oneof.None?
    requires ParseMember(S, d, mem, m).Some?
    requires ShapedSlot(S, Desc(S, d).fields[i], m.slots[i])
    requires ParseValue(S, Desc(S, d).fields[i].typ, mem).Some? ==>
               ShapedValue(S, Desc(S, d).fields[i].typ, ParseValue(S, Desc(S, d).fields[i].typ, mem).value)
    ensures ShapedSlot(S, Desc(S, d).fields[i], ParseMember(S, d, mem, m).value.slots[i])
    ensures forall j :: 0 <= j < |m.slots| && j != i ==> ParseMember(S, d, mem, m).value.slots[j] == m.slots[j]
  {
    hide ParseValue, ParsePacked, Merge, Shaped;
    var f := Desc(S, d).fields[i];
    if f.lab.Repeated? {
      if mem.wire == Prefixed && f.typ.Packable() {
        PackedShaped(S, f.typ, mem.data[mem.pref..]);
      }
    } else if f.typ.Nested? && m.slots[i].v.Some? && ParseValue(S, f.typ, mem).Some? {
      assert ShapedValue(S, f.typ, m.slots[i].v.value);
      MergeTotal(S, f.typ.desc, m.slots[i].v.value.m, ParseValue(S, f.typ, mem).value.m);
    }
  }

  lemma {:induction false} PackedShaped(S: Schema, t: Type, data: seq<byte>)
    requires t.Packable() && ParsePacked(t, data).Some?
    ensures forall k :: 0 <= k < |ParsePacked(t, data).value| ==> ShapedValue(S, t, ParsePacked(t, data).value[k])
    decreases |data|
  {
    hide ParseNumber;
    if data != [] {
      PackedShaped(S, t, data[ElementLen(t, data)..]);
    }
  }

  lemma {:induction false} ValueShaped(S: Schema, t: Type, mem: Member)
    requires SchemaOk(S) && NoUnions(S) && WireOk(mem)
    ensures ParseValue(S, t, mem).Some? ==> ShapedValue(S, t, ParseValue(S, t, mem).value)
    decreases |mem.data|, 0
  {
    hide Decode, ParseNumber, Shaped;
    if t.Nested? && mem.wire == Prefixed && ParseValue(S, t, mem).Some? {
      DecodeShaped(S, t.desc, mem.data[mem.pref..]);
    }
  }

  // -------------------------------------------------------------- concatenation

  lemma ScanOneStable(s: seq<byte>, rest: seq<byte>)
    requires ScanOne(s).Some?
    ensures ScanOne(s + rest) == ScanOne(s)
  {
    hide Varint.Value, Varint.ScanWithin, ScanData;
    var n := Varint.ScanWithin(s, 5);
    Varint.ScanStable(s, rest, 5);
    assert (s + rest)[..n] == s[..n] && (s + rest)[n..] == s[n..] + rest;
    KeyBound(s[..n]);
    var key := Varint.Value(s[..n]);
    ScanDataStable(key / 8, key % 8, s[n..], rest);
  }

  lemma ScanDataStable(tag: nat, code: nat, s: seq<byte>, rest: seq<byte>)
    requires tag < 0x1_0000_0000 && ScanData(tag, code, s).Some?
    ensures ScanData(tag, code, s + rest) == ScanData(tag, code, s)
  {
    hide Varint.Value, Varint.ScanWithin;
    if code == 0 { Varint.ScanStable(s, rest, 10); }
    if code == 2 { Varint.ScanStable(s, rest, 5); }
    var data := ScanData(tag, code, s).value.data;
    assert (s + rest)[..|data|] == s[..|data|];
    if code == 2 {
      var n := Varint.ScanWithin(s, 5);
      assert (s + rest)[..n] == s[..n];
    }
  }

  /** Scanning a concatenation is scanning both parts. */
  lemma {:induction false} ScanConcat(a: seq<byte>, b: seq<byte>)
    requires ScanAll(a).Some?
    ensures ScanAll(a + b) == match ScanAll(b) case None => None case Some(ms) => Some(ScanAll(a).value + ms)
    decreases |a|
  {
    hide ScanOne, ScanAll;
    ScanStep(a);
    ScanStep(a + b);
    if a == [] {
      assert a + b == b;
      if ScanAll(b).Some? { assert [] + ScanAll(b).value == ScanAll(b).value; }
    } else {
      var one := ScanOne(a).value;
      ScanOneStable(a, b);
      assert (a + b)[one.used..] == a[one.used..] + b;
      ScanConcat(a[one.used..], b);
      if ScanAll(b).Some? {
        var ra, rb := ScanAll(a[one.used..]).value, ScanAll(b).value;
        assert [one.mem] + (ra + rb) == [one.mem] + ra + rb;
      }
    }
  }

  lemma ScanStep(s: seq<byte>)
    ensures s == [] ==> ScanAll(s) == Some([])
    ensures s != [] ==>
              ScanAll(s) == match ScanOne(s)
                            case None => None
                            case Some(one) => (match ScanAll(s[one.used..])
                                               case None => None
                                               case Some(ms) => Some([one.mem] + ms))
  {
    hide ScanOne;
  }

  /** Some member names the field. */
  predicate Named(f: Field, ms: seq<Member>) {
    exists k :: 0 <= k < |ms| && ms[k].tag == f.id
  }

  /** A slot of the message decoded from `a + b`, from those decoded from `a` and from part of `b`. */
  function JoinSlot(S: Schema, f: Field, a: Slot, b: Slot): Slot {
    match (a, b)
    case (Many(x), Many(y)) => Many(x + y)
    case (One(Some(Sub(x))), One(Some(Sub(y)))) =>
      var m := if f.typ.Nested? then Merge(S, f.typ.desc, x, y) else None;
      if m.Some? then One(Some(Sub(m.value))) else b
    case (One(x), One(None)) => a
    case _ => b
  }

  /** The same when the members of the later part are `ms`: a field they do not name keeps its earlier slot. */
  function Joined(S: Schema, f: Field, a: Slot, b: Slot, ms: seq<Member>): Slot {
    if Named(f, ms) then JoinSlot(S, f, a, b) else a
  }

  function Join(S: Schema, d: nat, a: Message, b: Message, ms: seq<Member>): (m: Message)
    requires |a.slots| == |b.slots| == |Desc(S, d).fields|
    ensures |m.slots| == |b.slots|
    ensures forall i :: 0 <= i < |m.slots| ==> m.slots[i] == Joined(S, Desc(S, d).fields[i], a.slots[i], b.slots[i], ms)
    ensures m.unknown == a.unknown + b.unknown
  {
    var fields := Desc(S, d).fields;
    Message(seq(|b.slots|, i requires 0 <= i < |b.slots| => Joined(S, fields[i], a.slots[i], b.slots[i], ms)),
            a.unknown + b.unknown)
  }

  /** What the members so far do not name is as it was initialised. */
  ghost predicate RestInitial(S: Schema, d: nat, b: Message, ms: seq<Member>)
    requires |b.slots| == |Desc(S, d).fields|
  {
    forall i :: 0 <= i < |b.slots| && !Named(Desc(S, d).fields[i], ms) ==> b.slots[i] == InitSlot(Desc(S, d).fields[i])
  }

  /** One more member names the field it is looked up as, and no other. */
  lemma NamedStep(S: Schema, d: nat, ms: seq<Member>, mem: Member, i: nat)
    requires SchemaOk(S) && i < |Desc(S, d).fields|
    ensures var f := Desc(S, d).fields[i];
            Named(f, ms + [mem]) <==> Named(f, ms) || Lookup(Desc(S, d).fields, mem.tag) == Some(i)
  {
    var f := Desc(S, d).fields[i];
    RoundTrip.FieldFound(S, d, i);
    hide SchemaOk, DescriptorOk;
    if Named(f, ms) {
      var k :| 0 <= k < |ms| && ms[k].tag == f.id;
      assert (ms + [mem])[k] == ms[k];
    }
    assert (ms + [mem])[|ms|] == mem;
  }

  /** What one member makes of the slot of its field, outside unions. */
  function ParsedSlot(S: Schema, f: Field, mem: Member, slot: Slot): (r: Option<Slot>)
    requires WireOk(mem)
  {
    if f.lab.Repeated? then
      if mem.wire == Prefixed && (f.packed || f.typ.Packable()) then
        if !f.typ.Packable() then None
        else
          var vs :- ParsePacked(f.typ, mem.data[mem.pref..]);
          Some(Many(SlotValues(slot) + vs))
      else
        var v :- ParseValue(S, f.typ, mem);
        Some(Many(SlotValues(slot) + [v]))
    else
      var v :- ParseSingular(S, f, mem, SlotValue(slot));
      Some(One(Some(v)))
  }

  lemma ParsedIntoSlot(S: Schema, d: nat, mem: Member, m: Message, i: nat)
    requires WireOk(mem) && |m.slots| == |Desc(S, d).fields| && Lookup(Desc(S, d).fields, mem.tag) == Some(i)
    requires Desc(S, d).fields[i].oneof.None?
    ensures ParseMember(S, d, mem, m)
            == match ParsedSlot(S, Desc(S, d).fields[i], mem, m.slots[i])
               case None => None
               case Some(slot) => Some(m.(slots := m.slots[i := slot]))
  {
    hide ParseValue, ParsePacked, ParseSingular, WireOk;
  }

  /** A slot that takes one more member of the later part, with the earlier part in front or without. */
  lemma SlotCommutes(S: Schema, f: Field, mem: Member, x: Slot, y: Slot, named: bool)
    requires SchemaOk(S) && NoUnions(S) && WireOk(mem) && f.oneof.None? && DefaultOk(f)
    requires ShapedSlot(S, f, x) && ShapedSlot(S, f, y) && (!named ==> y == InitSlot(f))
    ensures var cur := ParsedSlot(S, f, mem, if named then JoinSlot(S, f, x, y) else x);
            var alone := ParsedSlot(S, f, mem, y);
            && (cur.Some? <==> alone.Some?)
            && (alone.Some? ==> JoinSlot(S, f, x, alone.value) == cur.value)
  {
    hide ParseValue, ParsePacked, ParseSingular, WireOk, Merge, SchemaOk, NoUnions, Shaped;
    if f.lab.Repeated? {
      RepeatedCommutes(S, f, mem, x, y, named);
    } else if f.default.None? || named {
      SingularCommutes(S, f, mem, x.v, y.v);
    } else {
      assert !f.typ.Nested?;
      PlainReplaced(S, f, mem, x.v, y.v);
    }
  }

  lemma RepeatedCommutes(S: Schema, f: Field, mem: Member, x: Slot, y: Slot, named: bool)
    requires WireOk(mem) && f.lab.Repeated? && x.Many? && y.Many? && (!named ==> y == Many([]))
    ensures var cur := ParsedSlot(S, f, mem, if named then JoinSlot(S, f, x, y) else x);
            var alone := ParsedSlot(S, f, mem, y);
            && (cur.Some? <==> alone.Some?)
            && (alone.Some? ==> JoinSlot(S, f, x, alone.value) == cur.value)
  {
    hide ParseValue, ParsePacked, ParseSingular, WireOk, Merge;
    var alone := ParsedSlot(S, f, mem, y);
    assert x.vs + [] == x.vs;
    if alone.Some? {
      var added := alone.value.vs[|y.vs|..];
      assert alone.value.vs == y.vs + added;
      assert x.vs + (y.vs + added) == x.vs + y.vs + added;
    }
  }

  /** Outside sub-messages a member replaces whatever was there. */
  lemma PlainReplaced(S: Schema, f: Field, mem: Member, x: Option<Value>, y: Option<Value>)
    requires WireOk(mem) && !f.typ.Nested?
    ensures ParseSingular(S, f, mem, x) == ParseSingular(S, f, mem, y)
    ensures ParseSingular(S, f, mem, x).Some? ==> !ParseSingular(S, f, mem, x).value.Sub?
  {
    hide Decode, Merge;
  }

  lemma JoinStep(S: Schema, d: nat, a: Message, b: Message, ms: seq<Member>, mem: Member, i: nat, slot: Slot)
    requires SchemaOk(S) && |a.slots| == |b.slots| == |Desc(S, d).fields|
    requires Lookup(Desc(S, d).fields, mem.tag) == Some(i)
    ensures Join(S, d, a, b.(slots := b.slots[i := slot]), ms + [mem]).slots
            == Join(S, d, a, b, ms).slots[i := JoinSlot(S, Desc(S, d).fields[i], a.slots[i], slot)]
    ensures RestInitial(S, d, b, ms) ==> RestInitial(S, d, b.(slots := b.slots[i := slot]), ms + [mem])
  {
    hide JoinSlot, SchemaOk, Named, Lookup, InitSlot;
    forall k | 0 <= k < |b.slots|
      ensures Named(Desc(S, d).fields[k], ms + [mem]) <==> Named(Desc(S, d).fields[k], ms) || k == i
    {
      NamedStep(S, d, ms, mem, k);
    }
  }

  lemma JoinUnknown(S: Schema, d: nat, a: Message, b: Message, ms: seq<Member>, mem: Member, u: Unknown)
    requires SchemaOk(S) && |a.slots| == |b.slots| == |Desc(S, d).fields|
    requires Lookup(Desc(S, d).fields, mem.tag).None?
    ensures Join(S, d, a, b.(unknown := b.unknown + [u]), ms + [mem])
            == Join(S, d, a, b, ms).(unknown := Join(S, d, a, b, ms).unknown + [u])
    ensures RestInitial(S, d, b, ms) ==> RestInitial(S, d, b.(unknown := b.unknown + [u]), ms + [mem])
  {
    hide JoinSlot, SchemaOk, Named, Lookup, InitSlot;
    forall k | 0 <= k < |b.slots|
      ensures Named(Desc(S, d).fields[k], ms + [mem]) <==> Named(Desc(S, d).fields[k], ms)
    {
      NamedStep(S, d, ms, mem, k);
    }
    assert a.unknown + (b.unknown + [u]) == a.unknown + b.unknown + [u];
    assert Join(S, d, a, b.(unknown := b.unknown + [u]), ms + [mem]).slots == Join(S, d, a, b, ms).slots;
  }

  /** Parsing one more member of `b` commutes with having `a` in front. */
  lemma {:induction false} ParseCommutes(S: Schema, d: nat, mem: Member, a: Message, b: Message, ms: seq<Member>)
    requires SchemaOk(S) && NoUnions(S) && WireOk(mem)
    requires Shaped(S, d, a) && Shaped(S, d, b)
    requires |a.slots| == |b.slots| == |Desc(S, d).fields| && RestInitial(S, d, b, ms)
    ensures ParseMember(S, d, mem, Join(S, d, a, b, ms))
            == match ParseMember(S, d, mem, b) case None => None case Some(b') => Some(Join(S, d, a, b', ms + [mem]))
    ensures ParseMember(S, d, mem, b).Some? ==> RestInitial(S, d, ParseMember(S, d, mem, b).value, ms + [mem])
  {
    ShapedParts(S, d, a);
    ShapedParts(S, d, b);
    var fields := Desc(S, d).fields;
    var j := Join(S, d, a, b, ms);
    match Lookup(fields, mem.tag)
    case None =>
      hide Join, RestInitial, SchemaOk, WireOk, Shaped, Lookup;
      JoinUnknown(S, d, a, b, ms, mem, Unknown(mem.tag, mem.wire, mem.data));
    case Some(i) =>
      var f := fields[i];
      RoundTrip.FieldFound(S, d, i);
      NoUnionAt(S, d, i);
      assert DefaultOk(f);
      hide ParseMember, ParsedSlot, JoinSlot, SchemaOk, WireOk, Shaped, Named, Lookup, DescriptorOk, DefaultOk;
      ParsedIntoSlot(S, d, mem, b, i);
      ParsedIntoSlot(S, d, mem, j, i);
      SlotCommutes(S, f, mem, a.slots[i], b.slots[i], Named(f, ms));
      var alone := ParsedSlot(S, f, mem, b.slots[i]);
      if alone.Some? {
        JoinStep(S, d, a, b, ms, mem, i, alone.value);
        assert j.(slots := j.slots[i := JoinSlot(S, f, a.slots[i], alone.value)])
            == Join(S, d, a, b.(slots := b.slots[i := alone.value]), ms + [mem]);
      }
  }

  lemma {:induction false} SingularCommutes(S: Schema, f: Field, mem: Member, x: Option<Value>, y: Option<Value>)
    requires SchemaOk(S) && NoUnions(S) && WireOk(mem) && f.oneof.None? && !f.lab.Repeated?
    requires ShapedSlot(S, f, One(x)) && ShapedSlot(S, f, One(y))
    ensures ParseSingular(S, f, mem, SlotValue(JoinSlot(S, f, One(x), One(y)))).Some?
            <==> ParseSingular(S, f, mem, y).Some?
    ensures JoinSlot(S, f, One(x), One(y)).One?
    ensures ParseSingular(S, f, mem, y).Some? ==>
              JoinSlot(S, f, One(x), One(ParseSingular(S, f, mem, y)))
              == One(ParseSingular(S, f, mem, SlotValue(JoinSlot(S, f, One(x), One(y)))))
  {
    hide ParseValue, WireOk, Merge, Shaped;
    ValueShaped(S, f.typ, mem);
    var v := ParseValue(S, f.typ, mem);
    if v.Some? && f.typ.Nested? {
      var new_ := v.value.m;
      assert x.Some? ==> ShapedValue(S, f.typ, x.value);
      assert y.Some? ==> ShapedValue(S, f.typ, y.value);
      if x.Some? { MergeTotal(S, f.typ.desc, x.value.m, new_); }
      if y.Some? { MergeTotal(S, f.typ.desc, y.value.m, new_); }
      if x.Some? && y.Some? {
        MergeTotal(S, f.typ.desc, x.value.m, y.value.m);
        MergeAssociative(S, f.typ.desc, x.value.m, y.value.m, new_);
        MergeTotal(S, f.typ.desc, x.value.m, Merge(S, f.typ.desc, y.value.m, new_).value);
      }
    }
  }

  lemma {:induction false} MembersCommute(S: Schema, d: nat, ms: seq<Member>, a: Message, b: Message, done: seq<Member>)
    requires SchemaOk(S) && NoUnions(S)
    requires forall k :: 0 <= k < |ms| ==> WireOk(ms[k])
    requires Shaped(S, d, a) && Shaped(S, d, b)
    requires |a.slots| == |b.slots| == |Desc(S, d).fields| && RestInitial(S, d, b, done)
    ensures ParseMembers(S, d, ms, Join(S, d, a, b, done))
            == match ParseMembers(S, d, ms, b) case None => None case Some(b') => Some(Join(S, d, a, b', done + ms))
    ensures ParseMembers(S, d, ms, b).Some? ==> RestInitial(S, d, ParseMembers(S, d, ms, b).value, done + ms)
    decreases |ms|
  {
    hide ParseMember, WireOk, Shaped, Join, SchemaOk, RestInitial;
    if ms == [] {
      assert done + ms == done;
    } else {
      ParseCommutes(S, d, ms[0], a, b, done);
      var b' := ParseMember(S, d, ms[0], b);
      assert done + [ms[0]] + ms[1..] == done + ms;
      if b'.Some? {
        MemberShaped(S, d, ms[0], b);
        MembersCommute(S, d, ms[1..], a, b'.value, done + [ms[0]]);
      }
    }
  }

  /** Before anything of `b` is applied the join is `a` itself. */
  lemma JoinInit(S: Schema, d: nat, a: Message)
    requires |a.slots| == |Desc(S, d).fields|
    ensures Join(S, d, a, Init(S, d), []) == a && RestInitial(S, d, Init(S, d), [])
  {
    var j := Join(S, d, a, Init(S, d), []);
    assert j.slots == a.slots && a.unknown + [] == a.unknown;
  }

  /** The later message already says all that the earlier one does: no repeated elements in front,
      and no optional member set that the later one leaves unset, at any level. */
  predicate Absorbed(S: Schema, d: nat, e: Message, l: Message)
    decreases e, 1
  {
    forall i :: 0 <= i < |l.slots| && i < |e.slots| && i < |Desc(S, d).fields| ==>
      AbsorbedSlot(S, Desc(S, d).fields[i], e.slots[i], l.slots[i])
  }

  predicate AbsorbedSlot(S: Schema, f: Field, a: Slot, b: Slot)
    decreases a, 0
  {
    match (f.lab, a, b)
    case (Repeated, Many(x), Many(y)) => x == []
    case (Optional, One(x), One(y)) =>
      (match f.typ
       case Nested(k) =>
         if x.Some? && x.value.Sub? && y.Some? && y.value.Sub? then Absorbed(S, k, x.value.m, y.value.m)
         else y.Some? || x.None?
       case Bytes => HasData(x) ==> HasData(y)
       case _ => y.Some? || x.None?)
    case _ => true
  }

  /** Merging leaves the later message as it is exactly when that absorbs the earlier one. */
  lemma {:induction false} AbsorbedExactly(S: Schema, d: nat, e: Message, l: Message)
    requires NoUnions(S)
    ensures Merge(S, d, e, l) == Some(l) <==> Absorbed(S, d, e, l)
    decreases e, 1
  {
    hide MergeSlot, MergeSlots, Merge, AbsorbedSlot;
    var fields := Desc(S, d).fields;
    forall k | 0 <= k < |l.slots| && k < |e.slots| && k < |fields|
      ensures MergeSlot(S, fields, k, e, l) == Some(l.slots[k]) <==> AbsorbedSlot(S, fields[k], e.slots[k], l.slots[k])
    {
      NoUnionAt(S, d, k);
      SlotAbsorbed(S, fields, k, e, l);
    }
    forall k | 0 <= k < |l.slots| && !(k < |e.slots| && k < |fields|)
      ensures MergeSlot(S, fields, k, e, l) == Some(l.slots[k])
    {
      SlotBeyond(S, fields, k, e, l);
    }
    if Merge(S, d, e, l) == Some(l) {
      MergeAt(S, d, e, l, l);
    }
    if Absorbed(S, d, e, l) {
      MergeSlotsAll(S, fields, e, l, l.slots, 0);
      MergeUnfold(S, d, e, l);
      assert l.slots[0..] == l.slots;
    }
  }

  lemma SlotBeyond(S: Schema, fields: seq<Field>, k: nat, e: Message, l: Message)
    requires k < |l.slots| && !(k < |e.slots| && k < |fields|)
    ensures MergeSlot(S, fields, k, e, l) == Some(l.slots[k])
  {
  }

  lemma {:induction false} SlotAbsorbed(S: Schema, fields: seq<Field>, k: nat, e: Message, l: Message)
    requires NoUnions(S) && k < |l.slots| && k < |e.slots| && k < |fields| && fields[k].oneof.None?
    ensures MergeSlot(S, fields, k, e, l) == Some(l.slots[k]) <==> AbsorbedSlot(S, fields[k], e.slots[k], l.slots[k])
    decreases e, 0
  {
    hide Merge, Absorbed;
    match (fields[k].lab, e.slots[k], l.slots[k])
    case (Optional, One(Some(Sub(x))), One(Some(Sub(y)))) =>
      if fields[k].typ.Nested? { AbsorbedExactly(S, fields[k].typ.desc, x, y); }
    case (Repeated, Many(x), Many(y)) =>
      assert |x + y| == |x| + |y|;
      assert [] + y == y;
    case _ =>
  }

  /** When merging one slot does what concatenation does. A required field that the later part does not name must hold
      its default; a required sub-message must be absorbed; an empty bytes value does not count as set for the merge;
      everything else agrees. */
  predicate Agrees(S: Schema, f: Field, a: Slot, b: Slot, named: bool) {
    match (f.lab, f.typ, a, b)
    case (Optional, Bytes, One(x), One(y)) =>
      !(HasData(x) && y == Some(Text([]))) && !(x == Some(Text([])) && y.None?)
    case (Required, Nested(k), One(Some(Sub(x))), One(Some(Sub(y)))) => Absorbed(S, k, x, y)
    case (Required, _, _, _) => named || a == One(f.default)
    case _ => true
  }

  predicate AllAgree(S: Schema, fields: seq<Field>, a: Message, b: Message, ms: seq<Member>) {
    forall i :: 0 <= i < |fields| && i < |a.slots| && i < |b.slots| ==>
      Agrees(S, fields[i], a.slots[i], b.slots[i], Named(fields[i], ms))
  }

  /** No bytes and no required sub-message: then every slot agrees, but for unnamed required fields. */
  predicate PlainField(f: Field) {
    f.lab.Repeated? || (f.typ != Bytes && !(f.lab.Required? && f.typ.Nested?))
  }

  lemma SlotAgrees(S: Schema, fields: seq<Field>, k: nat, a: Message, b: Message, ms: seq<Member>)
    requires NoUnions(S) && k < |fields| == |a.slots| == |b.slots| && fields[k].oneof.None? && DefaultOk(fields[k])
    requires ShapedSlot(S, fields[k], a.slots[k]) && ShapedSlot(S, fields[k], b.slots[k])
    requires fields[k].lab.Required? && Named(fields[k], ms) ==> b.slots[k] != One(None)
    requires fields[k].lab.Required? && fields[k].default.None? ==> Named(fields[k], ms)
    requires !Named(fields[k], ms) ==> b.slots[k] == InitSlot(fields[k])
    requires fields[k].typ == Bytes && fields[k].lab.Optional? ==> BytesSlot(a.slots[k]) && BytesSlot(b.slots[k])
    ensures MergeSlot(S, fields, k, a, b) == Some(Joined(S, fields[k], a.slots[k], b.slots[k], ms))
            <==> Agrees(S, fields[k], a.slots[k], b.slots[k], Named(fields[k], ms))
  {
    hide Merge, Shaped, Named, Absorbed;
    var f := fields[k];
    assert f.lab.Required? && f.typ.Nested? ==> Named(f, ms);
    if f.lab.Repeated? && !Named(f, ms) { assert a.slots[k].vs + [] == a.slots[k].vs; }
    if !f.lab.Repeated? && f.typ.Nested? && a.slots[k].v.Some? && b.slots[k].v.Some? {
      assert ShapedValue(S, f.typ, a.slots[k].v.value) && ShapedValue(S, f.typ, b.slots[k].v.value);
      MergeTotal(S, f.typ.desc, a.slots[k].v.value.m, b.slots[k].v.value.m);
      AbsorbedExactly(S, f.typ.desc, a.slots[k].v.value.m, b.slots[k].v.value.m);
    }
  }

  predicate BytesSlot(slot: Slot) {
    slot.One? && (slot.v.Some? ==> slot.v.value.Text?)
  }

  /** What the merge law needs to know of a decoded message and the members it came from. */
  ghost predicate DecodedFrom(S: Schema, d: nat, m: Message, ms: seq<Member>) {
    && Shaped(S, d, m) && |m.slots| == |Desc(S, d).fields| && RestInitial(S, d, m, ms)
    && (forall i :: 0 <= i < |m.slots| && Desc(S, d).fields[i].lab.Required? && Named(Desc(S, d).fields[i], ms)
          ==> m.slots[i] != One(None))
    && (forall i :: 0 <= i < |m.slots| && Desc(S, d).fields[i].lab.Required? && Desc(S, d).fields[i].default.None?
          ==> Named(Desc(S, d).fields[i], ms))
    && (forall i :: 0 <= i < |m.slots| && Desc(S, d).fields[i].typ == Bytes && Desc(S, d).fields[i].lab.Optional?
          ==> BytesSlot(m.slots[i]))
  }

  /** A slot of the merge is that of the join exactly when the two slots agree. */
  lemma SlotsAgree(S: Schema, d: nat, a: Message, b: Message, ma: seq<Member>, mb: seq<Member>, k: nat)
    requires SchemaOk(S) && NoUnions(S) && DecodedFrom(S, d, a, ma) && DecodedFrom(S, d, b, mb) && k < |b.slots|
    ensures Merge(S, d, a, b).Some? && |Merge(S, d, a, b).value.slots| == |b.slots|
    ensures Merge(S, d, a, b).value.slots[k] == Join(S, d, a, b, mb).slots[k]
            <==> Agrees(S, Desc(S, d).fields[k], a.slots[k], b.slots[k], Named(Desc(S, d).fields[k], mb))
  {
    ShapedParts(S, d, a);
    ShapedParts(S, d, b);
    MergeTotal(S, d, a, b);
    MergeAt(S, d, a, b, Merge(S, d, a, b).value);
    NoUnionAt(S, d, k);
    RoundTrip.FieldFound(S, d, k);
    assert DefaultOk(Desc(S, d).fields[k]);
    hide Merge, Shaped, Joined, Agrees, MergeSlot, Named, SchemaOk, DescriptorOk;
    SlotAgrees(S, Desc(S, d).fields, k, a, b, mb);
  }

  /** The join is the merge exactly when all slots agree and the earlier message has no unknown fields,
      which the merge would drop. */
  lemma JoinIsMerge(S: Schema, d: nat, a: Message, b: Message, ma: seq<Member>, mb: seq<Member>)
    requires SchemaOk(S) && NoUnions(S) && DecodedFrom(S, d, a, ma) && DecodedFrom(S, d, b, mb)
    ensures Merge(S, d, a, b).Some?
    ensures Merge(S, d, a, b).value == Join(S, d, a, b, mb)
            <==> a.unknown == [] && AllAgree(S, Desc(S, d).fields, a, b, mb)
  {
    var fields := Desc(S, d).fields;
    hide Merge, Shaped, Agrees, MergeSlot, Named, SchemaOk;
    MergeTotal(S, d, a, b);
    var m := Merge(S, d, a, b).value;
    MergeAt(S, d, a, b, m);
    var j := Join(S, d, a, b, mb);
    hide Join, DecodedFrom;
    forall k | 0 <= k < |b.slots|
      ensures m.slots[k] == j.slots[k] <==> Agrees(S, fields[k], a.slots[k], b.slots[k], Named(fields[k], mb))
    {
      SlotsAgree(S, d, a, b, ma, mb, k);
    }
    assert |a.unknown + b.unknown| == |a.unknown| + |b.unknown|;
    if m == j {
      forall i | 0 <= i < |fields| ensures Agrees(S, fields[i], a.slots[i], b.slots[i], Named(fields[i], mb)) {
        assert m.slots[i] == j.slots[i];
      }
    }
    if a.unknown == [] && AllAgree(S, fields, a, b, mb) {
      assert m.slots == j.slots;
      assert [] + b.unknown == b.unknown;
    }
  }

  /** A member of a singular field leaves it set, and nothing unsets it. */
  lemma {:induction false} StaysSet(S: Schema, d: nat, ms: seq<Member>, m: Message, i: nat)
    requires SchemaOk(S) && NoUnions(S) && |m.slots| == |Desc(S, d).fields| && i < |m.slots|
    requires forall k :: 0 <= k < |ms| ==> WireOk(ms[k])
    requires !Desc(S, d).fields[i].lab.Repeated? && ParseMembers(S, d, ms, m).Some?
    requires m.slots[i] != One(None) || exists k :: 0 <= k < |ms| && ms[k].tag == Desc(S, d).fields[i].id
    ensures ParseMembers(S, d, ms, m).value.slots[i] != One(None)
    decreases |ms|
  {
    hide ParseMember, WireOk, SchemaOk;
    if ms != [] {
      var m' := ParseMember(S, d, ms[0], m).value;
      if m.slots[i] != One(None) || ms[0].tag == Desc(S, d).fields[i].id {
        OneStaysSet(S, d, ms[0], m, i);
      }
      if m'.slots[i] == One(None) {
        var k :| 0 <= k < |ms| && ms[k].tag == Desc(S, d).fields[i].id;
        assert ms[1..][k - 1] == ms[k];
      }
      StaysSet(S, d, ms[1..], m', i);
    }
  }

  lemma OneStaysSet(S: Schema, d: nat, mem: Member, m: Message, i: nat)
    requires SchemaOk(S) && NoUnions(S) && |m.slots| == |Desc(S, d).fields| && i < |m.slots| && WireOk(mem)
    requires !Desc(S, d).fields[i].lab.Repeated? && ParseMember(S, d, mem, m).Some?
    requires m.slots[i] != One(None) || mem.tag == Desc(S, d).fields[i].id
    ensures ParseMember(S, d, mem, m).value.slots[i] != One(None)
  {
    hide ParseValue, ParseSingular, ParsePacked, WireOk;
    RoundTrip.FieldFound(S, d, i);
    match Lookup(Desc(S, d).fields, mem.tag)
    case None =>
    case Some(k) => NoUnionAt(S, d, k);
  }

  /** Every member before `b`'s keeps the required fields seen. */
  lemma RequiredSeenAppend(fields: seq<Field>, a: seq<Member>, b: seq<Member>)
    requires RequiredSeen(fields, b)
    ensures RequiredSeen(fields, a + b)
  {
    forall i | 0 <= i < |fields| && fields[i].lab.Required? && fields[i].default.None?
      ensures exists k :: 0 <= k < |a + b| && (a + b)[k].tag == fields[i].id
    {
      var k :| 0 <= k < |b| && b[k].tag == fields[i].id;
      assert (a + b)[|a| + k] == b[k];
    }
  }

  /** Decoding `a + b`, for all octets that decode on their own: the join of the two messages. */
  lemma ConcatJoins(S: Schema, d: nat, a: seq<byte>, b: seq<byte>)
    requires SchemaOk(S) && NoUnions(S)
    requires Decode(S, d, a).Some? && Decode(S, d, b).Some?
    requires |ScanAll(a).value| + |ScanAll(b).value| <= MAX_MEMBERS
    ensures Decode(S, d, a + b) == Some(Join(S, d, Decode(S, d, a).value, Decode(S, d, b).value, ScanAll(b).value))
    ensures RestInitial(S, d, Decode(S, d, b).value, ScanAll(b).value)
  {
    hide ParseMembers, WireOk, Join, SchemaOk, Shaped, Init, RestInitial;
    var A, B := Decode(S, d, a).value, Decode(S, d, b).value;
    var ma, mb := ScanAll(a).value, ScanAll(b).value;
    ScanConcat(a, b);
    RequiredSeenAppend(Desc(S, d).fields, ma, mb);
    RoundTrip.ParseAppend(S, d, ma, mb, Init(S, d));
    DecodeShaped(S, d, a);
    InitShaped(S, d);
    JoinInit(S, d, A);
    MembersCommute(S, d, mb, A, Init(S, d), []);
    assert [] + mb == mb;
  }

  /** Bytes fields hold octets. */
  lemma {:induction false} BytesStay(S: Schema, d: nat, ms: seq<Member>, m: Message, i: nat)
    requires SchemaOk(S) && NoUnions(S) && |m.slots| == |Desc(S, d).fields| && i < |m.slots|
    requires forall k :: 0 <= k < |ms| ==> WireOk(ms[k])
    requires Desc(S, d).fields[i].typ == Bytes && Desc(S, d).fields[i].lab.Optional? && BytesSlot(m.slots[i])
    ensures ParseMembers(S, d, ms, m).Some? ==> BytesSlot(ParseMembers(S, d, ms, m).value.slots[i])
    decreases |ms|
  {
    hide ParseMember, WireOk, SchemaOk;
    if ms != [] && ParseMember(S, d, ms[0], m).Some? {
      OneBytesStays(S, d, ms[0], m, i);
      BytesStay(S, d, ms[1..], ParseMember(S, d, ms[0], m).value, i);
    }
  }

  lemma OneBytesStays(S: Schema, d: nat, mem: Member, m: Message, i: nat)
    requires SchemaOk(S) && NoUnions(S) && |m.slots| == |Desc(S, d).fields| && i < |m.slots| && WireOk(mem)
    requires Desc(S, d).fields[i].typ == Bytes && Desc(S, d).fields[i].lab.Optional? && BytesSlot(m.slots[i])
    requires ParseMember(S, d, mem, m).Some?
    ensures BytesSlot(ParseMember(S, d, mem, m).value.slots[i])
  {
    hide ParsePacked, ParseSingular, WireOk;
    match Lookup(Desc(S, d).fields, mem.tag)
    case None =>
    case Some(k) =>
      NoUnionAt(S, d, k);
      if k == i {
        BytesParsed(S, Desc(S, d).fields[i], mem, SlotValue(m.slots[i]));
      }
  }

  lemma BytesParsed(S: Schema, f: Field, mem: Member, cur: Option<Value>)
    requires f.typ == Bytes && WireOk(mem)
    ensures ParseSingular(S, f, mem, cur).Some? ==> ParseSingular(S, f, mem, cur).value.Text?
  {
    hide Decode, Merge;
  }

  /** What the parts of a concatenation decode to, as far as the merge law needs it. */
  lemma DecodedParts(S: Schema, d: nat, data: seq<byte>)
    requires SchemaOk(S) && NoUnions(S) && Decode(S, d, data).Some?
    ensures DecodedFrom(S, d, Decode(S, d, data).value, ScanAll(data).value)
  {
    hide ParseMembers, ParseMember, WireOk, SchemaOk, Shaped, Join;
    DecodeShaped(S, d, data);
    InitShaped(S, d);
    var fields := Desc(S, d).fields;
    var ms := ScanAll(data).value;
    JoinInit(S, d, Init(S, d));
    MembersCommute(S, d, ms, Init(S, d), Init(S, d), []);
    assert [] + ms == ms;
    forall i | 0 <= i < |fields| && fields[i].lab.Required? && Named(fields[i], ms)
      ensures Decode(S, d, data).value.slots[i] != One(None)
    {
      StaysSet(S, d, ms, Init(S, d), i);
    }
    forall i | 0 <= i < |fields| && fields[i].typ == Bytes && fields[i].lab.Optional?
      ensures BytesSlot(Decode(S, d, data).value.slots[i])
    {
      BytesStay(S, d, ms, Init(S, d), i);
    }
  }

  /** Main theorem. Outside unions, decoding a concatenation is `merge_messages` of the two decoded messages
      exactly when the earlier one carries no unknown fields and all slots agree. */
  lemma ConcatMerges(S: Schema, d: nat, a: seq<byte>, b: seq<byte>)
    requires SchemaOk(S) && NoUnions(S)
    requires Decode(S, d, a).Some? && Decode(S, d, b).Some?
    requires |ScanAll(a).value| + |ScanAll(b).value| <= MAX_MEMBERS
    ensures var A, B := Decode(S, d, a).value, Decode(S, d, b).value;
            && Merge(S, d, A, B).Some?
            && (Decode(S, d, a + b) == Merge(S, d, A, B)
                <==> A.unknown == [] && AllAgree(S, Desc(S, d).fields, A, B, ScanAll(b).value))
  {
    DecodedParts(S, d, a);
    DecodedParts(S, d, b);
    hide ParseMembers, WireOk, SchemaOk, Shaped, Merge, AllAgree, Join, DecodedFrom;
    ConcatJoins(S, d, a, b);
    JoinIsMerge(S, d, Decode(S, d, a).value, Decode(S, d, b).value, ScanAll(a).value, ScanAll(b).value);
  }

  /** The documented law: scalars, strings, optional sub-messages and repeated fields. */
  lemma ConcatMergesPlainly(S: Schema, d: nat, a: seq<byte>, b: seq<byte>)
    requires SchemaOk(S) && NoUnions(S)
    requires forall i :: 0 <= i < |Desc(S, d).fields| ==> PlainField(Desc(S, d).fields[i])
    requires Decode(S, d, a).Some? && Decode(S, d, b).Some?
    requires |ScanAll(a).value| + |ScanAll(b).value| <= MAX_MEMBERS
    ensures var A, fields := Decode(S, d, a).value, Desc(S, d).fields;
            Decode(S, d, a + b) == Merge(S, d, A, Decode(S, d, b).value)
            <==> A.unknown == []
                 && forall i :: 0 <= i < |fields| && fields[i].lab.Required? ==>
                      Named(fields[i], ScanAll(b).value) || A.slots[i] == One(fields[i].default)
  {
    hide ParseMembers, Merge, Named, SchemaOk, Join;
    ConcatMerges(S, d, a, b);
    var A, B := Decode(S, d, a).value, Decode(S, d, b).value;
    var fields := Desc(S, d).fields;
    forall i | 0 <= i < |fields|
      ensures Agrees(S, fields[i], A.slots[i], B.slots[i], Named(fields[i], ScanAll(b).value))
         <==> fields[i].lab.Required? ==> Named(fields[i], ScanAll(b).value) || A.slots[i] == One(fields[i].default)
    {
      assert PlainField(fields[i]);
    }
  }

  /** One field of the concatenation and of the merge: they agree exactly when the slots do. */
  lemma ConcatSlotExactly(S: Schema, d: nat, a: seq<byte>, b: seq<byte>, i: nat)
    requires SchemaOk(S) && NoUnions(S) && i < |Desc(S, d).fields|
    requires Decode(S, d, a).Some? && Decode(S, d, b).Some?
    requires |ScanAll(a).value| + |ScanAll(b).value| <= MAX_MEMBERS
    ensures var A, B := Decode(S, d, a).value, Decode(S, d, b).value;
            && Decode(S, d, a + b).Some? && Merge(S, d, A, B).Some?
            && |Merge(S, d, A, B).value.slots| == |Desc(S, d).fields|
            && (Decode(S, d, a + b).value.slots[i] == Merge(S, d, A, B).value.slots[i]
                <==> Agrees(S, Desc(S, d).fields[i], A.slots[i], B.slots[i],
                            Named(Desc(S, d).fields[i], ScanAll(b).value)))
  {
    DecodedParts(S, d, a);
    DecodedParts(S, d, b);
    hide ParseMembers, WireOk, SchemaOk, Shaped, Merge, Agrees, Join, DecodedFrom, Named;
    ConcatJoins(S, d, a, b);
    SlotsAgree(S, d, Decode(S, d, a).value, Decode(S, d, b).value, ScanAll(a).value, ScanAll(b).value, i);
  }

  /** A required field that is no sub-message: the merge loses its earlier value exactly when the later part
      does not name it and the value is not the default. */
  lemma RequiredDefaultLost(S: Schema, d: nat, a: seq<byte>, b: seq<byte>, i: nat)
    requires SchemaOk(S) && NoUnions(S) && i < |Desc(S, d).fields|
    requires Desc(S, d).fields[i].lab.Required? && !Desc(S, d).fields[i].typ.Nested?
    requires Decode(S, d, a).Some? && Decode(S, d, b).Some?
    requires |ScanAll(a).value| + |ScanAll(b).value| <= MAX_MEMBERS
    ensures var A, B := Decode(S, d, a).value, Decode(S, d, b).value;
            && Decode(S, d, a + b).Some? && Merge(S, d, A, B).Some?
            && |Merge(S, d, A, B).value.slots| == |Desc(S, d).fields|
            && (Decode(S, d, a + b).value.slots[i] == Merge(S, d, A, B).value.slots[i]
                <==> Named(Desc(S, d).fields[i], ScanAll(b).value) || A.slots[i] == One(Desc(S, d).fields[i].default))
  {
    hide Decode, Merge, Named;
    ConcatSlotExactly(S, d, a, b, i);
  }

  // ----------------------------------------------------- where the merge gives up

  /** Every union is set in one of the two messages, and so in all sub-messages that both of them set. */
  predicate CanMerge(S: Schema, d: nat, e: Message, l: Message)
    decreases e, 1
  {
    forall i :: 0 <= i < |l.slots| && i < |e.slots| && i < |Desc(S, d).fields| ==>
      CanMergeSlot(S, Desc(S, d).fields, i, e, l)
  }

  predicate CanMergeSlot(S: Schema, fields: seq<Field>, i: nat, e: Message, l: Message)
    requires i < |l.slots| && i < |e.slots| && i < |fields|
    decreases e, 0
  {
    match (fields[i].lab, e.slots[i], l.slots[i])
    case (Optional, One(x), One(y)) =>
      if fields[i].oneof.Some? then
        CaseSet(fields, e.slots, fields[i].oneof.value) || CaseSet(fields, l.slots, fields[i].oneof.value)
      else if fields[i].typ.Nested? && x.Some? && x.value.Sub? && y.Some? && y.value.Sub? then
        CanMerge(S, fields[i].typ.desc, x.value.m, y.value.m)
      else true
    case _ => true
  }

  /** Merging succeeds for exactly these messages, unions included. */
  lemma {:induction false} MergesExactly(S: Schema, d: nat, e: Message, l: Message)
    ensures Merge(S, d, e, l).Some? <==> CanMerge(S, d, e, l)
    decreases e, 1
  {
    hide MergeSlot, MergeSlots, Merge, CanMergeSlot;
    var fields := Desc(S, d).fields;
    forall k | 0 <= k < |l.slots| && k < |e.slots| && k < |fields|
      ensures MergeSlot(S, fields, k, e, l).Some? <==> CanMergeSlot(S, fields, k, e, l)
    {
      SlotMergesExactly(S, fields, k, e, l);
    }
    forall k | 0 <= k < |l.slots| && !(k < |e.slots| && k < |fields|)
      ensures MergeSlot(S, fields, k, e, l).Some?
    {
      SlotBeyond(S, fields, k, e, l);
    }
    MergeUnfold(S, d, e, l);
    if Merge(S, d, e, l).Some? {
      MergeAt(S, d, e, l, Merge(S, d, e, l).value);
    }
    if CanMerge(S, d, e, l) {
      MergeSlotsTotal(S, fields, e, l, 0);
    }
  }

  lemma {:induction false} SlotMergesExactly(S: Schema, fields: seq<Field>, k: nat, e: Message, l: Message)
    requires k < |l.slots| && k < |e.slots| && k < |fields|
    ensures MergeSlot(S, fields, k, e, l).Some? <==> CanMergeSlot(S, fields, k, e, l)
    decreases e, 0
  {
    hide Merge, CanMerge, CaseSet;
    match (fields[k].lab, e.slots[k], l.slots[k])
    case (Optional, One(Some(Sub(x))), One(Some(Sub(y)))) =>
      if fields[k].typ.Nested? { MergesExactly(S, fields[k].typ.desc, x, y); }
    case _ =>
  }

  /** A sub-message sent again is accepted exactly when it decodes and can be merged with what is there. */
  lemma SubMessageAgainExactly(S: Schema, f: Field, mem: Member, earlier: Message)
    requires WireOk(mem) && f.typ.Nested? && mem.wire == Prefixed
    ensures var latter := Decode(S, f.typ.desc, mem.data[mem.pref..]);
            && (ParseSingular(S, f, mem, None).Some? <==> latter.Some?)
            && (ParseSingular(S, f, mem, Some(Sub(earlier))).Some?
                <==> latter.Some? && CanMerge(S, f.typ.desc, earlier, latter.value))
  {
    hide Decode, Merge, CanMerge;
    var latter := Decode(S, f.typ.desc, mem.data[mem.pref..]);
    if latter.Some? { MergesExactly(S, f.typ.desc, earlier, latter.value); }
  }

  lemma RequiredSeenTwice(fields: seq<Field>, mem: Member)
    ensures RequiredSeen(fields, [mem, mem]) <==> RequiredSeen(fields, [mem])
  {
    forall f: Field ensures Named(f, [mem, mem]) <==> Named(f, [mem]) {
      assert [mem, mem][0] == mem && [mem][0] == mem;
    }
    forall i | 0 <= i < |fields|
      ensures (exists k :: 0 <= k < |[mem, mem]| && [mem, mem][k].tag == fields[i].id) <==> Named(fields[i], [mem])
    {
      assert Named(fields[i], [mem, mem]) <==> Named(fields[i], [mem]);
    }
  }

  /** Decoding a scanned list of members, with the scan and the count out of the way. */
  lemma DecodeMembers(S: Schema, d: nat, ms: seq<Member>)
    requires |ms| <= MAX_MEMBERS && forall k :: 0 <= k < |ms| ==> WireOk(ms[k])
    ensures Decode(S, d, EncodeMembers(ms))
            == if RequiredSeen(Desc(S, d).fields, ms) then ParseMembers(S, d, ms, Init(S, d)) else None
  {
    hide ScanAll, ParseMembers, WireOk, RequiredSeen, Init, EncodeMembers;
    RoundTrip.ScanAllEncoded(ms);
  }

  lemma OneMember(S: Schema, d: nat, mem: Member, m: Message)
    requires WireOk(mem) && |m.slots| == |Desc(S, d).fields|
    ensures ParseMembers(S, d, [mem], m) == ParseMember(S, d, mem, m)
  {
    hide ParseMember, WireOk;
  }

  lemma TwoMembers(S: Schema, d: nat, mem: Member, m: Message)
    requires WireOk(mem) && |m.slots| == |Desc(S, d).fields|
    ensures ParseMembers(S, d, [mem, mem], m)
            == match ParseMember(S, d, mem, m) case None => None case Some(m') => ParseMember(S, d, mem, m')
  {
    hide ParseMember, WireOk;
    assert [mem, mem][1..] == [mem];
    if ParseMember(S, d, mem, m).Some? { OneMember(S, d, mem, ParseMember(S, d, mem, m).value); }
  }

  /** A sub-message member lands on an unset field, and then on itself. */
  lemma SubMessageLandsTwice(S: Schema, d: nat, i: nat, mem: Member, m: Message)
    requires WireOk(mem) && mem.wire == Prefixed && |m.slots| == |Desc(S, d).fields|
    requires Lookup(Desc(S, d).fields, mem.tag) == Some(i) && m.slots[i] == One(None)
    requires var f := Desc(S, d).fields[i]; !f.lab.Repeated? && f.oneof.None? && f.typ.Nested?
    ensures var k := Desc(S, d).fields[i].typ.desc;
            var sub := Decode(S, k, mem.data[mem.pref..]);
            var once := ParseMember(S, d, mem, m);
            && (once.Some? <==> sub.Some?)
            && (once.Some? ==> (ParseMember(S, d, mem, once.value).Some? <==> CanMerge(S, k, sub.value, sub.value)))
  {
    assert mem.pref <= |mem.data|;
    hide WireOk, ParseSingular, ParseMember, Decode, CanMerge, Lookup;
    var f := Desc(S, d).fields[i];
    ParsedIntoSlot(S, d, mem, m, i);
    var sub := Decode(S, f.typ.desc, mem.data[mem.pref..]);
    if sub.Some? {
      SubMessageAgainExactly(S, f, mem, sub.value);
      assert ParseSingular(S, f, mem, None) == Some(Sub(sub.value)) by { FirstSubMessage(S, f, mem); }
      ParsedIntoSlot(S, d, mem, ParseMember(S, d, mem, m).value, i);
    } else {
      FirstSubMessage(S, f, mem);
    }
  }

  lemma FirstSubMessage(S: Schema, f: Field, mem: Member)
    requires WireOk(mem) && f.typ.Nested? && mem.wire == Prefixed
    ensures ParseSingular(S, f, mem, None)
            == match Decode(S, f.typ.desc, mem.data[mem.pref..]) case None => None case Some(m) => Some(Sub(m))
  {
    hide Decode, WireOk;
  }

  /** In a repeated field or a union nothing is merged. */
  lemma SubMessageTakenWhole(S: Schema, d: nat, i: nat, mem: Member, m: Message)
    requires WireOk(mem) && mem.wire == Prefixed && |m.slots| == |Desc(S, d).fields|
    requires Lookup(Desc(S, d).fields, mem.tag) == Some(i)
    requires var f := Desc(S, d).fields[i]; f.typ.Nested? && !f.packed && (f.lab.Repeated? || f.oneof.Some?)
    ensures ParseMember(S, d, mem, m).Some? <==> Decode(S, Desc(S, d).fields[i].typ.desc, mem.data[mem.pref..]).Some?
  {
    hide WireOk, Decode, Lookup;
  }

  /** The same sub-message twice: decodable exactly when it is once and either the field keeps both or replaces the
      first, or the sub-message has every union of its set, at every level. */
  lemma SubMessageTwiceExactly(S: Schema, d: nat, i: nat, body: seq<byte>)
    requires SchemaOk(S) && i < |Desc(S, d).fields| && |body| < MAX_LENGTH
    requires Desc(S, d).fields[i].typ.Nested?
    ensures var f := Desc(S, d).fields[i];
            var mem := PrefixedMember(f.id, body);
            var sub := Decode(S, f.typ.desc, body);
            && (Decode(S, d, EncodeMembers([mem])).Some?
                <==> RequiredSeen(Desc(S, d).fields, [mem]) && sub.Some?)
            && (Decode(S, d, EncodeMembers([mem, mem])).Some?
                <==> RequiredSeen(Desc(S, d).fields, [mem]) && sub.Some?
                     && (f.lab.Repeated? || f.oneof.Some? || CanMerge(S, f.typ.desc, sub.value, sub.value)))
  {
    var f := Desc(S, d).fields[i];
    var mem := PrefixedMember(f.id, body);
    RoundTrip.FieldFound(S, d, i);
    RoundTrip.PrefixedOk(f.id, body);
    assert mem.tag == f.id && mem.wire == Prefixed;
    assert !f.packed && (f.lab.Repeated? || Init(S, d).slots[i] == One(None));
    hide WireOk, SchemaOk, DescriptorOk, ParseMember, ParseMembers, ScanAll, Decode, CanMerge, EncodeMembers,
         PrefixedMember, Lookup, RequiredSeen, Init;
    RequiredSeenTwice(Desc(S, d).fields, mem);
    DecodeMembers(S, d, [mem]);
    DecodeMembers(S, d, [mem, mem]);
    OneMember(S, d, mem, Init(S, d));
    TwoMembers(S, d, mem, Init(S, d));
    var once := ParseMember(S, d, mem, Init(S, d));
    if f.lab.Repeated? || f.oneof.Some? {
      SubMessageTakenWhole(S, d, i, mem, Init(S, d));
      if once.Some? { SubMessageTakenWhole(S, d, i, mem, once.value); }
    } else {
      SubMessageLandsTwice(S, d, i, mem, Init(S, d));
    }
  }

  /** A message with one sub-message field, whose type has one integer in a union. */
  function UnionInside(): (S: Schema)
    ensures SchemaOk(S)
  {
    [Descriptor([Field(1, Optional, Nested(1), false, None, None)], [Range(1, 0), Range(0, 1)]),
     Descriptor([Field(1, Optional, Int32, false, Some(0), None)], [Range(1, 0), Range(0, 1)])]
  }

  lemma EmptyBody(tag: nat)
    requires tag == 1
    ensures EncodeMembers([PrefixedMember(tag, [])]) == [0x0a, 0x00]
    ensures EncodeMembers([PrefixedMember(tag, []), PrefixedMember(tag, [])]) == [0x0a, 0x00, 0x0a, 0x00]
  {
    var n: nat := 0;
    var mem := PrefixedMember(tag, []);
    assert Varint.Encode(n) == [0x00];
    assert Varint.Encode(tag * 8 + 2) == [0x0a];
    assert EncodeMember(mem) == [0x0a, 0x00];
    hide EncodeMember, PrefixedMember, Varint.Encode;
    assert [mem, mem][1..] == [mem];
  }

  /** The union of the inner message is set in neither copy. */
  lemma EmptyInside(S: Schema)
    requires S == UnionInside()
    ensures Decode(S, 1, []) == Some(Init(S, 1)) && !CanMerge(S, 1, Init(S, 1), Init(S, 1))
  {
    var sub := Init(S, 1);
    assert !CanMergeSlot(S, S[1].fields, 0, sub, sub);
    hide CanMergeSlot;
    assert EncodeMembers([]) == [];
    DecodeMembers(S, 1, []);
  }

  /** An empty sub-message decodes once, but the same two octets sent twice do not. */
  lemma EmptySubMessageTwice(S: Schema)
    requires S == UnionInside()
    ensures Decode(S, 0, [0x0a, 0x00]).Some?
    ensures Decode(S, 0, [0x0a, 0x00, 0x0a, 0x00]) == None
  {
    hide Decode, EncodeMembers, PrefixedMember, SchemaOk, CanMerge, Init;
    EmptyInside(S);
    EmptyBody(S[0].fields[0].id);
    SubMessageTwiceExactly(S, 0, 0, []);
  }

  /** A message with one required integer, whose default is 0. */
  function RequiredZero(): (S: Schema)
    ensures SchemaOk(S)
  {
    [Descriptor([Field(1, Required, Int32, false, None, Some(Num(0)))], [Range(1, 0), Range(0, 1)])]
  }

  lemma OneByte(mem: Member, tag: nat)
    requires tag == 1 && mem == Member(tag, VarintWire, 0, [0x01])
    ensures WireOk(mem) && EncodeMembers([mem]) == [0x08, 0x01]
    ensures ParseNumber(Int32, mem.data) == 1
  {
    assert Varint.Encode(tag * 8) == [0x08];
    assert EncodeMember(mem) == [0x08, 0x01];
  }

  lemma OneParses(S: Schema, mem: Member)
    requires S == RequiredZero() && WireOk(mem) && mem == Member(1, VarintWire, 0, [0x01])
    requires ParseNumber(Int32, mem.data) == 1
    ensures ParseMember(S, 0, mem, Init(S, 0)) == Some(Message([One(Some(Num(1)))], []))
  {
    hide WireOk, ParseNumber, Decode, Merge;
    assert Lookup(Desc(S, 0).fields, 1) == Some(0);
    var f := Desc(S, 0).fields[0];
    assert ParseSingular(S, f, mem, Some(Num(0))) == Some(Num(1));
    var m := Init(S, 0);
    assert m.slots == [One(Some(Num(0)))] && m.unknown == [];
    assert m.slots[0 := One(Some(Num(1)))] == [One(Some(Num(1)))];
    ParsedIntoSlot(S, 0, mem, m, 0);
    assert ParsedSlot(S, f, mem, m.slots[0]) == Some(One(Some(Num(1))));
    hide ParseMember, ParsedSlot;
  }

  /** The integer is sent as 1, and nothing after it: decoded together it is 1, merged it is 0. */
  lemma RequiredOneLost(S: Schema)
    requires S == RequiredZero()
    ensures var A, B := Decode(S, 0, [0x08, 0x01]), Decode(S, 0, []);
            && A == Some(Message([One(Some(Num(1)))], [])) && B == Some(Message([One(Some(Num(0)))], []))
            && Decode(S, 0, [0x08, 0x01] + []) == A && Merge(S, 0, A.value, B.value) == B
  {
    hide Decode, Merge, SchemaOk, WireOk, ScanAll, EncodeMember, ParseMember;
    var mem := Member(1, VarintWire, 0, [0x01]);
    OneByte(mem, 1);
    OneParses(S, mem);
    assert RequiredSeen(Desc(S, 0).fields, [mem]) && RequiredSeen(Desc(S, 0).fields, []);
    DecodeMembers(S, 0, [mem]);
    OneMember(S, 0, mem, Init(S, 0));
    assert EncodeMembers([]) == [];
    DecodeMembers(S, 0, []);
    assert [0x08, 0x01] + [] == [0x08, 0x01];
    assert Init(S, 0).slots == [One(Some(Num(0)))];
    AbsorbedExactly(S, 0, Decode(S, 0, [0x08, 0x01]).value, Init(S, 0));
  }
}
