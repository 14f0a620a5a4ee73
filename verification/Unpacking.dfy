/** `protobuf_c_message_unpack` as it runs: a scan that stores members in slabs and counts repeated
    elements, then a second pass that fills arrays of exactly the counted sizes. */
module Unpacking {
  import opened Bytes
  import opened Options
  import opened Schema
  import opened Encoding
  import opened Decoding
  import Merging
  import RangeLookup
  import Varint

  // ------------------------------------------------------------------ scanning

  /** `parse_tag_and_wiretype` */
  method ParseTagAndWiretype(len: nat, data: seq<byte>) returns (used: nat, tag: nat, wire: nat)
    requires len == |data| > 0
    ensures used == Varint.ScanWithin(data, 5)
    ensures used > 0 ==> tag == Varint.Value(data[..used]) / 8 && wire == Varint.Value(data[..used]) % 8
  {
    var maxRv := if len > 5 then 5 else len;
    tag := Varint.Low7(data[0]) / 8;
    wire := Varint.Low7(data[0]) % 8;
    Varint.ValueAppend([], data[0]);
    assert data[..1] == [] + [data[0]];
    if data[0] < 128 {
      return 1, tag, wire;
    }
    var rv := 1;
    var shifted := 16;
    while rv < maxRv
      invariant 1 <= rv <= maxRv
      invariant wire < 8 && 8 * tag + wire == Varint.Value(data[..rv])
      invariant 8 * shifted == Varint.Weight(rv)
      invariant forall j :: 0 <= j < rv ==> data[j] >= 128
      invariant Varint.ScanWithin(data, 5) == Varint.ScanFrom(data, 5, rv)
    {
      Varint.ValueAppend(data[..rv], data[rv]);
      assert data[..rv + 1] == data[..rv] + [data[rv]];
      ShiftTag(tag, wire, shifted, Varint.Low7(data[rv]));
      tag := tag + Varint.Low7(data[rv]) * shifted;
      if data[rv] < 128 {
        return rv + 1, tag, wire;
      }
      shifted := 128 * shifted;
      rv := rv + 1;
    }
    return 0, 0, 0;
  }

  lemma ShiftTag(tag: nat, wire: nat, shifted: nat, g: nat)
    ensures 8 * (tag + g * shifted) + wire == 8 * tag + wire + g * (8 * shifted)
  {
    assert 8 * (g * shifted) == g * (8 * shifted);
  }

  /** The declared length at the front of `data` and its prefix together; 0 without a prefix. */
  function DeclaredTotal(data: seq<byte>): nat {
    var n := Varint.ScanWithin(data, 5);
    if n == 0 then 0 else n + Varint.Value(data[..n]) % 0x1_0000_0000
  }

  /** `scan_length_prefixed_data`, which adds in 32 bits; 0 stands for an error. */
  method ScanLengthPrefixedData(len: nat, data: seq<byte>) returns (total: nat, prefixLen: nat)
    requires len == |data|
    ensures var sum := DeclaredTotal(data) % 0x1_0000_0000;
            total == if sum > len then 0 else sum
    ensures total != 0 ==> prefixLen == Varint.ScanWithin(data, 5) > 0
  {
    hide Varint.Value;
    var hdrMax := if len < 5 then len else 5;
    var i := 0;
    while i < hdrMax
      invariant i <= hdrMax
      invariant forall j :: 0 <= j < i ==> data[j] >= 128
      invariant Varint.ScanWithin(data, 5) == Varint.ScanFrom(data, 5, i)
    {
      if data[i] < 128 { break; }
      i := i + 1;
    }
    if i == hdrMax {
      return 0, 0;
    }
    var hdrLen := i + 1;
    var val := Varint.ParseUint32(hdrLen, data[..hdrLen]);
    var sum := (hdrLen + val) % 0x1_0000_0000;
    if sum > len {
      return 0, 0;
    }
    return sum, hdrLen;
  }

  /** The 32-bit sum agrees with the reference decoder exactly when it does not wrap to a total above 0. */
  lemma TotalAgrees(tag: nat, data: seq<byte>)
    requires tag < 0x1_0000_0000
    ensures var sum := DeclaredTotal(data) % 0x1_0000_0000;
            var total := if sum > |data| then 0 else sum;
            total == (match ScanData(tag, 2, data) case None => 0 case Some(mem) => |mem.data|)
            <==> DeclaredTotal(data) <= 0x1_0000_0000
  {
    hide Varint.Value;
  }

  lemma MemberOfTotal(tag: nat, data: seq<byte>)
    requires tag < 0x1_0000_0000
    ensures var n, sum := Varint.ScanWithin(data, 5), DeclaredTotal(data) % 0x1_0000_0000;
            ScanData(tag, 2, data) == if sum == 0 || sum < n || sum > |data| then None
                                      else Some(Member(tag, Prefixed, n, data[..sum]))
  {
    hide Varint.Value;
  }

  /** Five octets that declare a length of 2^32 - 4: the sum wraps to 1. */
  lemma WrappedTotal(data: seq<byte>)
    requires data == [0xfc, 0xff, 0xff, 0xff, 0x0f]
    ensures DeclaredTotal(data) == 0x1_0000_0001
  {
    hide Varint.Value;
    var n := Varint.ScanWithin(data, 5);
    assert data[4] < 128;
    assert n > 0 && data[..n][n - 1] < 128;
    assert data[..n] == data;
    Varint.ValueUnroll(data);
    assert data[5..] == data[|data|..];
  }

  /** The switch on the wire type in the scanning loop. */
  method ScanMember(tag: nat, wire: nat, rest: seq<byte>) returns (r: Option<Member>)
    requires tag < 0x1_0000_0000 && wire < 8
    ensures r == ScanData(tag, wire, rest)
  {
    hide Varint.ScanWithin, Varint.Value, DeclaredTotal;
    match wire
    case 0 =>
      var len := Varint.ScanVarint(|rest|, rest);
      if len == 0 { return None; }
      return Some(Member(tag, VarintWire, 0, rest[..len]));
    case 1 =>
      if |rest| < 8 { return None; }
      return Some(Member(tag, Wire64, 0, rest[..8]));
    case 2 =>
      var len, prefLen := ScanLengthPrefixedData(|rest|, rest);
      MemberOfTotal(tag, rest);
      // A total that wrapped is shorter than its prefix; what becomes of such a member is left out.
      if len < prefLen || len == 0 { return None; }
      return Some(Member(tag, Prefixed, prefLen, rest[..len]));
    case 5 =>
      if |rest| < 4 { return None; }
      return Some(Member(tag, Wire32, 0, rest[..4]));
    case _ => return None;
  }

  // ----------------------------------------------------------------- the slabs

  /** A scanned member with the index of its field, if the descriptor has it. */
  datatype ScannedMember = ScannedMember(mem: Member, field: Option<nat>)

  const FIRST_SLAB: nat := 16
  const MAX_SLAB: nat := 22

  /** Capacity of slab number `i`. */
  function SlabSize(i: nat): (n: nat)
    ensures n >= FIRST_SLAB
  {
    if i == 0 then FIRST_SLAB else 2 * SlabSize(i - 1)
  }

  /** What the slabs before number `i` hold when full. */
  function SlabBase(i: nat): nat {
    if i == 0 then 0 else SlabBase(i - 1) + SlabSize(i - 1)
  }

  lemma {:induction false} SlabTotal(i: nat)
    ensures SlabBase(i) + FIRST_SLAB == SlabSize(i)
  {
    if i > 0 { SlabTotal(i - 1); }
  }

  lemma SlabLimit()
    ensures SlabBase(MAX_SLAB + 1) == MAX_MEMBERS
  {
    assert SlabSize(4) == 256 && SlabSize(8) == 4096 && SlabSize(12) == 65536;
    assert SlabSize(16) == 1048576 && SlabSize(20) == 16777216 && SlabSize(23) == 134217728;
    SlabTotal(23);
  }

  lemma {:induction false} SlabBaseMonotone(i: nat, j: nat)
    requires i <= j
    ensures SlabBase(i) <= SlabBase(j)
    decreases j
  {
    if i < j { SlabBaseMonotone(i, j - 1); }
  }

  class Slabs {
    var slabs: seq<array<ScannedMember>>
    var whichSlab: nat
    var inSlabIndex: nat
    ghost var Contents: seq<ScannedMember>

    ghost predicate Valid()
      reads this, slabs
    {
      && |slabs| == whichSlab + 1 <= MAX_SLAB + 1
      && (forall i :: 0 <= i < |slabs| ==> slabs[i].Length == SlabSize(i))
      && (forall i, k :: 0 <= i < k < |slabs| ==> slabs[i] != slabs[k])
      && inSlabIndex <= SlabSize(whichSlab)
      && |Contents| == SlabBase(whichSlab) + inSlabIndex
      && (forall i, j :: 0 <= i < |slabs| && 0 <= j < Used(i) ==> Holds(i, j))
    }

    /** How many members slab number `i` holds. */
    ghost function Used(i: nat): nat
      reads this
    {
      if i == whichSlab then inSlabIndex else SlabSize(i)
    }

    /** Slot `j` of slab `i` is where the slabs before it leave off, plus `j`. */
    ghost predicate Holds(i: nat, j: nat)
      requires i < |slabs| && j < slabs[i].Length
      reads this, slabs
    {
      SlabBase(i) + j < |Contents| && slabs[i][j] == Contents[SlabBase(i) + j]
    }

    lemma Shape()
      requires Valid()
      ensures |slabs| == whichSlab + 1 && inSlabIndex <= SlabSize(whichSlab)
      ensures |Contents| == SlabBase(whichSlab) + inSlabIndex
    {
    }

    lemma Slot(i: nat, j: nat)
      requires Valid() && i <= whichSlab && j < Used(i)
      ensures i < |slabs| && j < slabs[i].Length && SlabBase(i) + j < |Contents|
      ensures slabs[i][j] == Contents[SlabBase(i) + j]
    {
      hide SlabSize, SlabBase;
      assert Holds(i, j);
    }

    constructor ()
      ensures Valid() && Contents == [] && fresh(slabs)
    {
      var first := new ScannedMember[FIRST_SLAB](_ => ScannedMember(Member(0, VarintWire, 0, []), None));
      slabs := [first];
      whichSlab, inSlabIndex := 0, 0;
      Contents := [];
    }

    /** Opens a slab twice as large. */
    method Grow(s: ScannedMember)
      requires Valid() && inSlabIndex == SlabSize(whichSlab) && whichSlab < MAX_SLAB
      modifies this
      ensures Valid() && inSlabIndex == 0 && Contents == old(Contents)
      ensures whichSlab == old(whichSlab) + 1 && old(slabs) == slabs[..whichSlab] && fresh(slabs[whichSlab])
    {
      hide SlabSize, SlabBase;
      SlabStep(whichSlab);
      var next := new ScannedMember[SlabSize(whichSlab + 1)](_ => s);
      slabs := slabs + [next];
      whichSlab, inSlabIndex := whichSlab + 1, 0;
      forall i, j | 0 <= i < |slabs| && 0 <= j < Used(i) ensures Holds(i, j) {
        assert old(Holds(i, j));
      }
    }

    /** Stores one member, opening a new slab when the current one is full. */
    method Push(s: ScannedMember) returns (ok: bool)
      requires Valid()
      modifies this, slabs
      ensures Valid() && (forall k :: 0 <= k < |slabs| ==> slabs[k] in old(slabs) || fresh(slabs[k]))
      ensures ok <==> old(|Contents|) < MAX_MEMBERS
      ensures Contents == if ok then old(Contents) + [s] else old(Contents)
    {
      hide SlabSize, SlabBase;
      SlabRoom(whichSlab, inSlabIndex);
      if inSlabIndex == SlabSize(whichSlab) {
        if whichSlab == MAX_SLAB {
          return false;
        }
        Grow(s);
      }
      Store(s);
      ok := true;
    }

    method Store(s: ScannedMember)
      requires Valid() && inSlabIndex < SlabSize(whichSlab)
      modifies this, slabs[whichSlab]
      ensures Valid() && slabs == old(slabs) && Contents == old(Contents) + [s]
    {
      hide SlabSize, SlabBase;
      ghost var w, n := whichSlab, inSlabIndex;
      slabs[whichSlab][inSlabIndex] := s;
      Contents := Contents + [s];
      inSlabIndex := inSlabIndex + 1;
      forall i, j | 0 <= i < |slabs| && 0 <= j < Used(i) ensures Holds(i, j) {
        if i != w || j != n {
          assert old(Holds(i, j));
        }
      }
    }
  }

  /** The slabs are exhausted exactly when the last one is full. */
  lemma SlabRoom(which: nat, inIndex: nat)
    requires which <= MAX_SLAB && inIndex <= SlabSize(which)
    ensures SlabBase(which) + inIndex < MAX_MEMBERS <==> !(which == MAX_SLAB && inIndex == SlabSize(which))
  {
    hide SlabSize, SlabBase;
    SlabLimit();
    SlabStep(which);
    SlabStep(which + 1);
    SlabBaseMonotone(which + 1, MAX_SLAB + 1);
    if which < MAX_SLAB {
      SlabBaseMonotone(which + 2, MAX_SLAB + 1);
    }
  }

  lemma SlabStep(i: nat)
    ensures SlabBase(i + 1) == SlabBase(i) + SlabSize(i) && SlabSize(i) >= FIRST_SLAB
  {
  }

  // ------------------------------------------------------------------ counting

  /** `max_b128_numbers`: the octets that could end a varint. */
  function Terminators(data: seq<byte>): (n: nat)
    ensures n <= |data|
  {
    if data == [] then 0 else (if data[0] < 128 then 1 else 0) + Terminators(data[1..])
  }

  method MaxB128Numbers(data: seq<byte>) returns (rv: nat)
    ensures rv == Terminators(data)
  {
    rv := 0;
    for i := 0 to |data|
      invariant rv + Terminators(data[i..]) == Terminators(data)
    {
      assert data[i..][1..] == data[i + 1..];
      if data[i] < 128 { rv := rv + 1; }
    }
  }

  /** `count_packed_elements`: the room a packed payload may need. */
  function PackedCount(t: Type, data: seq<byte>): (r: Option<nat>) {
    match t.WireType()
    case Wire32 => if |data| % 4 == 0 then Some(|data| / 4) else None
    case Wire64 => if |data| % 8 == 0 then Some(|data| / 8) else None
    case VarintWire => if t == Bool then Some(|data|) else Some(Terminators(data))
    case Prefixed => None
  }

  method CountPackedElements(t: Type, data: seq<byte>) returns (r: Option<nat>)
    ensures r == PackedCount(t, data)
  {
    match t.WireType()
    case Wire32 =>
      if |data| % 4 != 0 { return None; }
      return Some(|data| / 4);
    case Wire64 =>
      if |data| % 8 != 0 { return None; }
      return Some(|data| / 8);
    case VarintWire =>
      if t == Bool { return Some(|data|); }
      var n := MaxB128Numbers(data);
      return Some(n);
    case Prefixed =>
      return None;
  }

  lemma {:induction false} TerminatorsSplit(a: seq<byte>, b: seq<byte>)
    ensures Terminators(a + b) == Terminators(a) + Terminators(b)
  {
    if a == [] {
      assert a + b == b;
    } else {
      assert (a + b)[1..] == a[1..] + b;
      TerminatorsSplit(a[1..], b);
    }
  }

  lemma {:induction false} OneTerminator(v: seq<byte>)
    requires Varint.Terminated(v)
    ensures Terminators(v) == 1
  {
    if |v| > 1 {
      OneTerminator(v[1..]);
    } else {
      assert Terminators(v[1..]) == 0;
    }
  }

  /** Taking one element off a payload takes exactly one off its count; so a second pass that goes
      element by element can never outrun the room counted by the first, even when it fails midway. */
  lemma {:induction false} CountStep(t: Type, data: seq<byte>)
    requires t.Packable() && ElementLen(t, data) > 0
    ensures PackedCount(t, data).Some? ==>
              && PackedCount(t, data[ElementLen(t, data)..]).Some?
              && PackedCount(t, data).value == 1 + PackedCount(t, data[ElementLen(t, data)..]).value
    ensures PackedCount(t, data).None? ==> PackedCount(t, data[ElementLen(t, data)..]).None?
  {
    hide PackedCount, ElementLen, Varint.Scan;
    match t.WireType()
    case VarintWire => CountVarint(t, data);
    case Wire32 => CountFixed(t, data, 4);
    case Wire64 => CountFixed(t, data, 8);
    case Prefixed =>
  }

  /** The same for elements of one width. */
  lemma CountFixed(t: Type, data: seq<byte>, width: nat)
    requires (t.WireType() == Wire32 && width == 4) || (t.WireType() == Wire64 && width == 8)
    requires ElementLen(t, data) > 0
    ensures var rest := data[ElementLen(t, data)..];
            && (PackedCount(t, data).None? <==> PackedCount(t, rest).None?)
            && (PackedCount(t, data).Some? ==> PackedCount(t, data).value == 1 + PackedCount(t, rest).value)
  {
    hide Terminators, Varint.Scan;
    assert ElementLen(t, data) == width && |data[width..]| == |data| - width;
    WidthOff(|data|);
  }

  lemma WidthOff(n: nat)
    ensures n >= 4 ==> n % 4 == (n - 4) % 4 && n / 4 == 1 + (n - 4) / 4
    ensures n >= 8 ==> n % 8 == (n - 8) % 8 && n / 8 == 1 + (n - 8) / 8
  {
  }

  /** The same for varints and booleans. */
  lemma CountVarint(t: Type, data: seq<byte>)
    requires t.WireType() == VarintWire && ElementLen(t, data) > 0
    ensures var rest := data[ElementLen(t, data)..];
            PackedCount(t, data).Some? && PackedCount(t, rest).Some?
            && PackedCount(t, data).value == 1 + PackedCount(t, rest).value
  {
    hide Terminators, Varint.Scan, Varint.Terminated;
    if t != Bool { VarintOff(data); }
  }

  lemma VarintOff(data: seq<byte>)
    requires Varint.Scan(data) > 0
    ensures Terminators(data) == 1 + Terminators(data[Varint.Scan(data)..])
  {
    hide Terminators;
    var n := Varint.Scan(data);
    assert data == data[..n] + data[n..];
    TerminatorsSplit(data[..n], data[n..]);
    OneTerminator(data[..n]);
  }

  /** The count is exact whenever the payload parses, and refusing to count means it does not parse. */
  lemma {:induction false} CountExact(t: Type, data: seq<byte>)
    requires t.Packable()
    ensures ParsePacked(t, data).Some? ==> PackedCount(t, data) == Some(|ParsePacked(t, data).value|)
    ensures PackedCount(t, data).None? ==> ParsePacked(t, data).None?
    decreases |data|
  {
    if data != [] {
      var n := ElementLen(t, data);
      if n > 0 {
        CountStep(t, data);
        CountExact(t, data[n..]);
      }
    }
  }

  // -------------------------------------------------------- the required bitmap

  function Mask(k: nat): bv8
    requires k < 8
  {
    (1 as bv8) << k
  }

  predicate BitSet(bits: seq<bv8>, index: nat)
    requires index / 8 < |bits|
  {
    bits[index / 8] & Mask(index % 8) != 0
  }

  lemma MaskBits(b: bv8, j: nat, k: nat)
    requires j < 8 && k < 8
    ensures (b | Mask(j)) & Mask(k) != 0 <==> b & Mask(k) != 0 || j == k
  {
  }

  /** `REQUIRED_FIELD_BITMAP_SET` */
  method SetRequired(bitmap: array<bv8>, index: nat)
    requires index / 8 < bitmap.Length
    modifies bitmap
    ensures forall i :: 0 <= i && i / 8 < bitmap.Length ==>
              (BitSet(bitmap[..], i) <==> old(BitSet(bitmap[..], i)) || i == index)
  {
    ghost var before := bitmap[..];
    bitmap[index / 8] := bitmap[index / 8] | Mask(index % 8);
    forall i | 0 <= i && i / 8 < bitmap.Length
      ensures BitSet(bitmap[..], i) <==> BitSet(before, i) || i == index
    {
      MaskBits(before[index / 8], index % 8, i % 8);
    }
  }

  // ------------------------------------------------------------------- numbers

  /** `parse_boolean` */
  method ParseBoolean(data: seq<byte>) returns (b: bool)
    ensures b == !AllLowZero(data)
  {
    for i := 0 to |data|
      invariant forall j :: 0 <= j < i ==> Varint.Low7(data[j]) == 0
    {
      if Varint.Low7(data[i]) != 0 { return true; }
    }
    return false;
  }

  /** The numeric cases of `parse_required_member`. */
  method ParseScalar(t: Type, data: seq<byte>) returns (n: int)
    requires t.Packable()
    requires t.WireType() == VarintWire && t != Bool ==> 1 <= |data| <= 10
    ensures n == ParseNumber(t, data)
  {
    hide Varint.Value, FromLittleEndian, AllLowZero;
    match t
    case Enum | Int32 =>
      var w := Varint.ParseUint32(|data|, data);
      n := Varint.Signed32(w);
    case UInt32 => n := Varint.ParseUint32(|data|, data);
    case SInt32 =>
      var w := Varint.ParseUint32(|data|, data);
      n := Varint.UnZigZag32(w);
    case SFixed32 => n := Varint.Signed32(FromLittleEndian(data) % 0x1_0000_0000);
    case Fixed32 | Float => n := FromLittleEndian(data) % 0x1_0000_0000;
    case Int64 =>
      var w := Varint.ParseUint64(|data|, data);
      n := Varint.Signed64(w);
    case UInt64 => n := Varint.ParseUint64(|data|, data);
    case SInt64 =>
      var w := Varint.ParseUint64(|data|, data);
      n := Varint.UnZigZag64(w);
    case SFixed64 => n := Varint.Signed64(FromLittleEndian(data) % 0x1_0000_0000_0000_0000);
    case Fixed64 | Double => n := FromLittleEndian(data) % 0x1_0000_0000_0000_0000;
    case Bool =>
      var b := ParseBoolean(data);
      n := if b then 1 else 0;
  }

  /** How many elements the scan makes room for. */
  function ElementCount(f: Field, mem: Member): (r: Option<nat>)
    requires WireOk(mem)
  {
    if mem.wire == Prefixed && (f.packed || f.typ.Packable()) then PackedCount(f.typ, mem.data[mem.pref..])
    else Some(1)
  }

  // ------------------------------------------------------ the message being built

  /** The message under construction: repeated members are arrays of the counted sizes, filled from
      the front. */
  class Draft {
    const S: Schema
    const d: nat
    const fields: seq<Field>
    var single: seq<Option<Value>>
    const elems: seq<array<Value>>
    var n: seq<nat>
    const unknownFields: array<Unknown>
    var nUnknown: nat

    ghost predicate Valid()
      reads this
    {
      && fields == Desc(S, d).fields
      && |single| == |elems| == |n| == |fields|
      && (forall i :: 0 <= i < |n| ==> n[i] <= elems[i].Length)
      && (forall i, j :: 0 <= i < j < |elems| ==> elems[i] != elems[j])
      && nUnknown <= unknownFields.Length
    }

    ghost function SlotAt(i: nat): Slot
      requires Valid() && i < |fields|
      reads this, elems[i]
    {
      if fields[i].lab.Repeated? then Many(elems[i][..n[i]]) else One(single[i])
    }

    /** The message built so far. */
    ghost function Built(): (m: Message)
      requires Valid()
      reads this, elems, unknownFields
      ensures |m.slots| == |fields|
      ensures forall i :: 0 <= i < |fields| ==> m.slots[i] == SlotAt(i)
      ensures m.unknown == unknownFields[..nUnknown]
    {
      Message(seq(|fields|, i requires 0 <= i < |fields| && Valid() reads this, elems => SlotAt(i)),
              unknownFields[..nUnknown])
    }

    constructor (S: Schema, d: nat, counts: seq<nat>, nUnknown: nat, elems: seq<array<Value>>)
      requires |counts| == |Desc(S, d).fields| == |elems|
      requires forall i :: 0 <= i < |elems| ==> elems[i].Length == counts[i]
      requires forall i, j :: 0 <= i < j < |elems| ==> elems[i] != elems[j]
      ensures Valid() && this.S == S && this.d == d && this.elems == elems && fresh(unknownFields)
      ensures unknownFields.Length == nUnknown && this.nUnknown == 0
      ensures forall i :: 0 <= i < |n| ==> n[i] == 0
      ensures Built() == Init(S, d)
    {
      this.S, this.d, this.elems := S, d, elems;
      fields := Desc(S, d).fields;
      var fs := Desc(S, d).fields;
      single := seq(|fs|, i requires 0 <= i < |fs| => if fs[i].lab.Required? then fs[i].default else None);
      n := seq(|fs|, _ => 0);
      unknownFields := new Unknown[nUnknown](_ => Unknown(0, VarintWire, []));
      this.nUnknown := 0;
    }

    /** There is room for what this member will add. */
    ghost predicate Fits(s: ScannedMember)
      requires Valid() && WireOk(s.mem)
      reads this
    {
      && s.field == Lookup(fields, s.mem.tag)
      && match s.field
         case None => nUnknown < unknownFields.Length
         case Some(i) =>
           fields[i].lab.Repeated? ==>
             var c := ElementCount(fields[i], s.mem);
             c.Some? && n[i] + c.value <= elems[i].Length
    }

    /** Appends one element to a repeated member. */
    method Append(i: nat, v: Value)
      requires Valid() && i < |fields| && fields[i].lab.Repeated? && n[i] < elems[i].Length
      modifies this, elems[i]
      ensures Valid() && single == old(single) && nUnknown == old(nUnknown)
      ensures n == old(n)[i := old(n)[i] + 1]
      ensures Built() == Appended(old(Built()), i, [v])
    {
      ghost var before := Built();
      elems[i][n[i]] := v;
      n := n[i := n[i] + 1];
      assert elems[i][..n[i]] == SlotValues(before.slots[i]) + [v];
      assert Built().slots == before.slots[i := Many(SlotValues(before.slots[i]) + [v])];
    }

    /** Stores a singular member (`parse_optional_member` or a required one). */
    method Put(i: nat, v: Value)
      requires Valid() && i < |fields| && !fields[i].lab.Repeated?
      modifies this
      ensures Valid() && n == old(n) && nUnknown == old(nUnknown)
      ensures Built() == old(Built()).(slots := old(Built()).slots[i := One(Some(v))])
    {
      ghost var before := Built();
      single := single[i := Some(v)];
      assert Built().slots == before.slots[i := One(Some(v))];
    }

    /** `parse_oneof_member`: whatever member of the union was set is dropped first. */
    method PutOneof(i: nat, v: Value)
      requires Valid() && i < |fields| && !fields[i].lab.Repeated? && fields[i].oneof.Some?
      requires forall j :: 0 <= j < |fields| && fields[j].oneof.Some? ==> !fields[j].lab.Repeated?
      modifies this
      ensures Valid() && n == old(n) && nUnknown == old(nUnknown)
      ensures Built() == old(Built()).(slots :=
                ClearCase(fields, old(Built()).slots, fields[i].oneof.value)[i := One(Some(v))])
    {
      ghost var before := Built();
      var g := fields[i].oneof;
      single := seq(|fields|, j requires 0 <= j < |fields| reads this requires Valid() =>
                                if fields[j].oneof == g then None else single[j]);
      single := single[i := Some(v)];
      assert Built().slots == ClearCase(fields, before.slots, g.value)[i := One(Some(v))];
    }

    method AppendUnknown(u: Unknown)
      requires Valid() && nUnknown < unknownFields.Length
      modifies this, unknownFields
      ensures Valid() && n == old(n) && nUnknown == old(nUnknown) + 1
      ensures Built() == old(Built()).(unknown := old(Built()).unknown + [u])
    {
      ghost var before := Built();
      unknownFields[nUnknown] := u;
      nUnknown := nUnknown + 1;
      assert unknownFields[..nUnknown] == before.unknown + [u];
      assert Built().slots == before.slots;
    }

    /** `parse_packed_repeated_member`: element by element into the array; a bad element stops it. */
    method ParsePackedRepeated(i: nat, data: seq<byte>) returns (ok: bool)
      requires Valid() && i < |fields| && fields[i].lab.Repeated? && fields[i].typ.Packable()
      requires var c := PackedCount(fields[i].typ, data);
               c.Some? && n[i] + c.value <= elems[i].Length
      modifies this, elems[i]
      ensures Valid() && nUnknown == old(nUnknown)
      ensures match ParsePacked(fields[i].typ, data)
              case None => !ok
              case Some(vs) =>
                && ok && n == old(n)[i := old(n)[i] + |vs|]
                && Built() == Appended(old(Built()), i, vs)
    {
      hide ElementLen, ParseNumber, Appended, PackedCount, ParsePacked;
      var t := fields[i].typ;
      ghost var before := Built();
      ghost var n0 := n;
      ghost var done: seq<Value> := [];
      AppendedTwice(before, i, [], []);
      assert ParsePacked(t, data).Some? ==> [] + ParsePacked(t, data).value == ParsePacked(t, data).value;
      var rem := data;
      while rem != []
        invariant Valid() && nUnknown == old(nUnknown) && |n| == |n0|
        invariant n == n0[i := n0[i] + |done|]
        invariant Built() == Appended(before, i, done)
        invariant PackedCount(t, rem).Some? && n[i] + PackedCount(t, rem).value <= elems[i].Length
        invariant ParsePacked(t, data)
                  == match ParsePacked(t, rem) case None => None case Some(vs) => Some(done + vs)
        decreases |rem|
      {
        var s := ElementLength(t, rem);
        PrependElement(t, rem, s, done);
        if s == 0 {
          return false;
        }
        CountStep(t, rem);
        var x := ParseScalar(t, rem[..s]);
        Append(i, Num(x));
        AppendedTwice(before, i, done, [Num(x)]);
        rem := rem[s..];
        done := done + [Num(x)];
      }
      EmptyPayload(t);
      assert done + [] == done;
      ok := true;
    }

    /** `parse_member`. Room for whatever it writes was made by the scan. */
    method Parse(s: ScannedMember) returns (ok: bool)
      requires SchemaOk(S) && Valid() && WireOk(s.mem) && Fits(s)
      modifies this, elems, unknownFields
      ensures Valid()
      ensures match ParseMember(S, d, s.mem, old(Built()))
              case None => !ok
              case Some(m) => ok && Built() == m
      ensures ok ==> nUnknown == old(nUnknown) + UnknownAdds(s)
      ensures ok ==> |n| == |old(n)| && forall i :: 0 <= i < |n| ==> n[i] == old(n)[i] + Adds(fields, s.mem, i)
      decreases |s.mem.data|, 3
    {
      hide WireOk, ParseValue, ParsePacked, PackedCount, Appended, ClearCase, Merging.Merge;
      match s.field
      case None =>
        AppendUnknown(Unknown(s.mem.tag, s.mem.wire, s.mem.data));
        ok := true;
      case Some(i) =>
        FieldIsOk(S, d, i);
        if !fields[i].lab.Repeated? {
          ok := ParseSingle(i, s.mem);
        } else {
          ok := ParseRepeated(i, s.mem);
        }
    }

    /** `parse_required_member`, `parse_optional_member`, `parse_oneof_member`. */
    method ParseSingle(i: nat, mem: Member) returns (ok: bool)
      requires SchemaOk(S) && Valid() && WireOk(mem) && Lookup(fields, mem.tag) == Some(i)
      requires !fields[i].lab.Repeated?
      modifies this
      ensures Valid() && nUnknown == old(nUnknown) && n == old(n)
      ensures match ParseMember(S, d, mem, old(Built()))
              case None => !ok
              case Some(m) => ok && Built() == m
      decreases |mem.data|, 2
    {
      hide WireOk, ParseValue, ParsePacked, Appended, ClearCase, Merging.Merge, SchemaOk;
      var f := fields[i];
      var union := f.oneof.Some?;
      // A union member is parsed into memory that was just cleared.
      var v := ParseRequired(S, f, mem, if union then None else single[i], !union);
      if v.None? {
        return false;
      }
      if union {
        UnionsAreSingular(S, d);
        PutOneof(i, v.value);
      } else {
        Put(i, v.value);
      }
      ok := true;
    }

    /** `parse_repeated_member`, `parse_packed_repeated_member`. */
    method ParseRepeated(i: nat, mem: Member) returns (ok: bool)
      requires SchemaOk(S) && Valid() && WireOk(mem) && Lookup(fields, mem.tag) == Some(i)
      requires fields[i].lab.Repeated?
      requires var c := ElementCount(fields[i], mem); c.Some? && n[i] + c.value <= elems[i].Length
      modifies this, elems[i]
      ensures Valid() && nUnknown == old(nUnknown)
      ensures match ParseMember(S, d, mem, old(Built()))
              case None => !ok
              case Some(m) => ok && Built() == m
      ensures ok ==> n == old(n)[i := old(n)[i] + ElementCount(fields[i], mem).value]
      decreases |mem.data|, 2
    {
      hide ParseValue, ParsePacked, PackedCount, Appended, ClearCase, Merging.Merge, SchemaOk;
      var f := fields[i];
      if mem.wire == Prefixed && (f.packed || f.typ.Packable()) {
        Uncountable(f.typ, mem.data[mem.pref..]);
        CountExact(f.typ, mem.data[mem.pref..]);
        ok := ParsePackedRepeated(i, mem.data[mem.pref..]);
      } else {
        var v := ParseRequired(S, f, mem, None, false);
        if v.None? {
          return false;
        }
        Append(i, v.value);
        ok := true;
      }
    }

    /** The finished message. */
    method Finish() returns (m: Message)
      requires Valid()
      ensures m == Built()
    {
      var slots: seq<Slot> := [];
      for i := 0 to |fields|
        invariant |slots| == i
        invariant forall k :: 0 <= k < i ==> slots[k] == SlotAt(k)
      {
        slots := slots + [if fields[i].lab.Repeated? then Many(elems[i][..n[i]]) else One(single[i])];
      }
      m := Message(slots, unknownFields[..nUnknown]);
    }
  }

  function UnknownAdds(s: ScannedMember): nat {
    if s.field.None? then 1 else 0
  }

  /** What a member adds to the count of field `i`. */
  function Adds(fields: seq<Field>, mem: Member, i: nat): nat
    requires WireOk(mem) && i < |fields|
  {
    if fields[i].lab.Repeated? && Lookup(fields, mem.tag) == Some(i) && ElementCount(fields[i], mem).Some?
    then ElementCount(fields[i], mem).value
    else 0
  }

  lemma FieldIsOk(S: Schema, d: nat, i: nat)
    requires SchemaOk(S) && i < |Desc(S, d).fields|
    ensures DescriptorOk(Desc(S, d))
  {
  }

  lemma UnionsAreSingular(S: Schema, d: nat)
    requires SchemaOk(S)
    ensures forall j :: 0 <= j < |Desc(S, d).fields| && Desc(S, d).fields[j].oneof.Some?
                        ==> !Desc(S, d).fields[j].lab.Repeated?
  {
    forall j | 0 <= j < |Desc(S, d).fields| && Desc(S, d).fields[j].oneof.Some?
      ensures !Desc(S, d).fields[j].lab.Repeated?
    {
      FieldIsOk(S, d, j);
    }
  }

  lemma Uncountable(t: Type, data: seq<byte>)
    ensures !t.Packable() ==> PackedCount(t, data).None?
  {
  }

  /** `parse_required_member`: `maybeClear` is false when the location is a fresh array element. */
  method ParseRequired(S: Schema, f: Field, mem: Member, cur: Option<Value>, maybeClear: bool)
    returns (r: Option<Value>)
    requires SchemaOk(S) && WireOk(mem)
    ensures r == if maybeClear then ParseSingular(S, f, mem, cur) else ParseValue(S, f.typ, mem)
    decreases |mem.data|, 1
  {
    hide Decode, Merging.Merge, ParseNumber;
    var t := f.typ;
    if t != Bool && mem.wire != t.WireType() {
      return None;
    }
    match t
    case String | Bytes => return Some(Text(mem.data[mem.pref..]));
    case Nested(k) =>
      var subm := Unpack(S, k, mem.data[mem.pref..]);
      if subm.None? {
        return None;
      }
      if maybeClear && cur.Some? && cur.value.Sub? {
        var merged := Merging.MergeMessages(S, k, cur.value.m, subm.value);
        if merged.None? { return None; }
        return Some(Sub(merged.value));
      }
      return Some(Sub(subm.value));
    case _ =>
      var x := ParseScalar(t, mem.data);
      return Some(Num(x));
  }

  /** Parsing the first element of a payload, with what was parsed before it. */
  lemma PrependElement(t: Type, rem: seq<byte>, s: nat, done: seq<Value>)
    requires t.Packable() && rem != [] && s == ElementLen(t, rem)
    ensures s == 0 ==> ParsePacked(t, rem) == None
    ensures s > 0 ==>
              var x := Num(ParseNumber(t, rem[..s]));
              (match ParsePacked(t, rem) case None => None case Some(vs) => Some(done + vs))
              == match ParsePacked(t, rem[s..]) case None => None case Some(vs) => Some(done + [x] + vs)
  {
    hide ElementLen, ParseNumber;
    if s > 0 && ParsePacked(t, rem[s..]).Some? {
      var x := Num(ParseNumber(t, rem[..s]));
      var vs := ParsePacked(t, rem[s..]).value;
      assert done + ([x] + vs) == done + [x] + vs;
    }
  }

  lemma EmptyPayload(t: Type)
    requires t.Packable()
    ensures ParsePacked(t, []) == Some([])
  {
  }

  /** `scan_varint`, or the fixed widths and the range check on booleans. */
  method ElementLength(t: Type, rem: seq<byte>) returns (s: nat)
    requires t.Packable() && rem != []
    ensures s == ElementLen(t, rem)
    ensures t.WireType() == VarintWire && t != Bool ==> s <= 10
  {
    if t.WireType() == Wire32 {
      s := if |rem| < 4 then 0 else 4;
    } else if t.WireType() == Wire64 {
      s := if |rem| < 8 then 0 else 8;
    } else if t == Bool {
      s := if rem[0] > 1 then 0 else 1;
    } else {
      s := Varint.ScanVarint(|rem|, rem);
    }
  }

  // ------------------------------------------------------------------ first pass

  function TagMembers(fields: seq<Field>, ms: seq<Member>): (r: seq<ScannedMember>)
    ensures |r| == |ms|
    ensures forall k :: 0 <= k < |ms| ==> r[k] == ScannedMember(ms[k], Lookup(fields, ms[k].tag))
  {
    seq(|ms|, k requires 0 <= k < |ms| => ScannedMember(ms[k], Lookup(fields, ms[k].tag)))
  }

  /** The summed counts of field `i`. */
  function Needed(fields: seq<Field>, ms: seq<Member>, i: nat): nat
    requires i < |fields| && forall k :: 0 <= k < |ms| ==> WireOk(ms[k])
  {
    if ms == [] then 0 else Adds(fields, ms[0], i) + Needed(fields, ms[1..], i)
  }

  function UnknownCount(fields: seq<Field>, ms: seq<Member>): nat {
    if ms == [] then 0 else (if Lookup(fields, ms[0].tag).None? then 1 else 0) + UnknownCount(fields, ms[1..])
  }

  lemma {:induction false} CountsAppend(fields: seq<Field>, ms: seq<Member>, mem: Member, i: nat)
    requires forall k :: 0 <= k < |ms| ==> WireOk(ms[k])
    requires WireOk(mem)
    ensures i < |fields| ==> Needed(fields, ms + [mem], i) == Needed(fields, ms, i) + Adds(fields, mem, i)
    ensures UnknownCount(fields, ms + [mem])
            == UnknownCount(fields, ms) + (if Lookup(fields, mem.tag).None? then 1 else 0)
  {
    hide WireOk, Adds;
    if ms == [] {
      assert (ms + [mem])[1..] == [];
    } else {
      assert (ms + [mem])[1..] == ms[1..] + [mem];
      CountsAppend(fields, ms[1..], mem, i);
    }
  }

  /** The element count of the member's field, when it is repeated, can be taken. */
  predicate Countable(fields: seq<Field>, mem: Member)
    requires WireOk(mem)
  {
    match Lookup(fields, mem.tag)
    case None => true
    case Some(i) => fields[i].lab.Repeated? ==> ElementCount(fields[i], mem).Some?
  }

  /** A member whose elements cannot be counted makes the message undecodable. */
  lemma {:induction false} UncountableFails(S: Schema, d: nat, ms: seq<Member>, k: nat, m: Message)
    requires |m.slots| == |Desc(S, d).fields| && k < |ms|
    requires forall j :: 0 <= j < |ms| ==> WireOk(ms[j])
    requires !Countable(Desc(S, d).fields, ms[k])
    ensures ParseMembers(S, d, ms, m).None?
  {
    hide ParseMember, WireOk, Countable;
    if k == 0 {
      UncountableMember(S, d, ms[0], m);
    } else {
      var m' := ParseMember(S, d, ms[0], m);
      if m'.Some? {
        UncountableFails(S, d, ms[1..], k - 1, m'.value);
      }
    }
  }

  lemma UncountableMember(S: Schema, d: nat, mem: Member, m: Message)
    requires |m.slots| == |Desc(S, d).fields| && WireOk(mem) && !Countable(Desc(S, d).fields, mem)
    ensures ParseMember(S, d, mem, m).None?
  {
    hide ParseValue, ParsePacked, PackedCount;
    var f := Desc(S, d).fields[Lookup(Desc(S, d).fields, mem.tag).value];
    if f.typ.Packable() {
      CountExact(f.typ, mem.data[mem.pref..]);
    }
  }

  /** What the scanning loop keeps track of. */
  class Scanner {
    const S: Schema
    const d: nat
    const fields: seq<Field>
    const slabs: Slabs
    var lastField: Option<nat>
    var counts: seq<nat>
    var nUnknown: nat
    const bitmap: array<bv8>
    ghost var Done: seq<Member>

    ghost predicate Valid()
      reads this, slabs, slabs.slabs, bitmap
    {
      && fields == Desc(S, d).fields && DescriptorOk(Desc(S, d))
      && slabs.Valid()
      && (forall k :: 0 <= k < |Done| ==> WireOk(Done[k]) && Countable(fields, Done[k]))
      && slabs.Contents == TagMembers(fields, Done)
      && (lastField.Some? ==> lastField.value < |fields|)
      && |counts| == |fields| && (forall i :: 0 <= i < |fields| ==> counts[i] == Needed(fields, Done, i))
      && nUnknown == UnknownCount(fields, Done)
      && bitmap.Length == (|fields| + 7) / 8 && Apart()
      && (forall i :: 0 <= i < |fields| ==> BitSet(bitmap[..], i) == SeenIn(fields, Done, i))
    }

    /** The bitmap is none of the slabs. */
    ghost predicate Apart()
      reads this, slabs
    {
      forall k :: 0 <= k < |slabs.slabs| ==> slabs.slabs[k] as object != bitmap
    }

    constructor (S: Schema, d: nat)
      requires SchemaOk(S)
      ensures Valid() && Done == [] && this.S == S && this.d == d
      ensures fresh(slabs) && fresh(slabs.slabs) && fresh(bitmap)
    {
      this.S, this.d := S, d;
      fields := Desc(S, d).fields;
      slabs := new Slabs();
      lastField := if Desc(S, d).fields == [] then None else Some(0);
      counts := seq(|Desc(S, d).fields|, _ => 0);
      nUnknown := 0;
      bitmap := new bv8[(|Desc(S, d).fields| + 7) / 8](_ => 0);
      Done := [];
    }

    /** The field of a tag: the field of the previous member is tried first. */
    method FindField(tag: nat) returns (field: Option<nat>)
      requires fields == Desc(S, d).fields && DescriptorOk(Desc(S, d))
      requires lastField.Some? ==> lastField.value < |fields|
      modifies this`lastField
      ensures field == Lookup(fields, tag)
      ensures lastField.Some? ==> lastField.value < |fields|
      ensures field.Some? ==> lastField == field
    {
      hide Lookup;
      if lastField.Some? && fields[lastField.value].id == tag {
        RangeLookup.LookupIs(fields, tag, lastField.value);
        return lastField;
      }
      var ranges := Desc(S, d).ranges;
      var index := RangeLookup.IntRangeLookup(Desc(S, d), if ranges == [] then 0 else |ranges| - 1, tag);
      if index < 0 {
        return None;
      }
      field := Some(index);
      lastField := field;
    }

    /** Looks the member's field up and marks it in the bitmap if it is required. */
    method Note(mem: Member) returns (field: Option<nat>)
      requires Valid() && WireOk(mem)
      modifies this`lastField, bitmap
      ensures field == Lookup(fields, mem.tag)
      ensures lastField.Some? ==> lastField.value < |fields|
      ensures slabs.Valid() && Apart()
      ensures forall i :: 0 <= i < |fields| ==> BitSet(bitmap[..], i) == SeenIn(fields, Done + [mem], i)
    {
      hide WireOk, Countable, Needed, UnknownCount, Lookup, DescriptorOk, BitSet, SeenIn;
      field := FindField(mem.tag);
      assert slabs.Valid();
      if field.Some? && fields[field.value].lab.Required? {
        SetRequired(bitmap, field.value);
      }
      forall i | 0 <= i < |fields|
        ensures BitSet(bitmap[..], i) == SeenIn(fields, Done + [mem], i)
      {
        SeenAppend(Desc(S, d), i, Done, mem);
      }
    }

    /** One member: note a required field, store the member, count its elements. */
    method Accept(mem: Member) returns (ok: bool)
      requires Valid() && WireOk(mem)
      modifies this, slabs, slabs.slabs, bitmap
      ensures forall k :: 0 <= k < |slabs.slabs| ==> slabs.slabs[k] in old(slabs.slabs) || fresh(slabs.slabs[k])
      ensures ok ==> Valid() && Done == old(Done) + [mem]
      ensures !ok ==> old(|Done|) >= MAX_MEMBERS || !Countable(fields, mem)
    {
      hide WireOk, ElementCount, Lookup, DescriptorOk, Needed, UnknownCount, BitSet, SeenIn;
      var field := Note(mem);
      assert |slabs.Contents| == |Done|;
      ok := slabs.Push(ScannedMember(mem, field));
      if ok {
        ok := Count(mem, field);
      }
    }

    /** Adds what the stored member contributes to the counts. */
    method Count(mem: Member, field: Option<nat>) returns (ok: bool)
      requires fields == Desc(S, d).fields && DescriptorOk(Desc(S, d)) && slabs.Valid()
      requires WireOk(mem) && forall k :: 0 <= k < |Done| ==> WireOk(Done[k]) && Countable(fields, Done[k])
      requires field == Lookup(fields, mem.tag)
      requires slabs.Contents == TagMembers(fields, Done) + [ScannedMember(mem, field)]
      requires lastField.Some? ==> lastField.value < |fields|
      requires |counts| == |fields| && forall i :: 0 <= i < |fields| ==> counts[i] == Needed(fields, Done, i)
      requires nUnknown == UnknownCount(fields, Done)
      requires bitmap.Length == (|fields| + 7) / 8 && Apart()
      requires forall i :: 0 <= i < |fields| ==> BitSet(bitmap[..], i) == SeenIn(fields, Done + [mem], i)
      modifies this
      ensures ok ==> Valid() && Done == old(Done) + [mem]
      ensures !ok ==> !Countable(fields, mem)
    {
      hide WireOk, ElementCount, Lookup, DescriptorOk, Needed, UnknownCount, BitSet, SeenIn;
      ghost var before := Done;
      if field.None? {
        nUnknown := nUnknown + 1;
      } else if fields[field.value].lab.Repeated? {
        var i := field.value;
        var c := CountElements(fields[i], mem);
        if c.None? {
          return false;
        }
        counts := counts[i := counts[i] + c.value];
      }
      Done := Done + [mem];
      forall i | 0 <= i < |fields| ensures counts[i] == Needed(fields, Done, i) {
        CountsAppend(fields, before, mem, i);
      }
      CountsAppend(fields, before, mem, |fields|);
      assert TagMembers(fields, Done) == TagMembers(fields, before) + [ScannedMember(mem, field)];
      ok := true;
    }
  }

  /** Some member belongs to required field `i`. */
  ghost predicate SeenIn(fields: seq<Field>, done: seq<Member>, i: nat)
    requires i < |fields|
  {
    fields[i].lab.Required? && exists k :: 0 <= k < |done| && done[k].tag == fields[i].id
  }

  /** A further member marks its own field and no other. */
  lemma SeenAppend(desc: Descriptor, i: nat, done: seq<Member>, mem: Member)
    requires DescriptorOk(desc) && i < |desc.fields|
    ensures SeenIn(desc.fields, done + [mem], i)
            <==> SeenIn(desc.fields, done, i)
                 || (desc.fields[i].lab.Required? && Lookup(desc.fields, mem.tag) == Some(i))
  {
    var more := done + [mem];
    assert more[|done|] == mem;
    if mem.tag == desc.fields[i].id {
      RangeLookup.LookupIs(desc.fields, mem.tag, i);
    }
    if SeenIn(desc.fields, done, i) {
      var k :| 0 <= k < |done| && done[k].tag == desc.fields[i].id;
      assert more[k].tag == desc.fields[i].id;
    }
  }

  method CountElements(f: Field, mem: Member) returns (c: Option<nat>)
    requires WireOk(mem)
    ensures c == ElementCount(f, mem)
  {
    hide PackedCount;
    if mem.wire == Prefixed && (f.packed || f.typ.Packable()) {
      c := CountPackedElements(f.typ, mem.data[mem.pref..]);
    } else {
      c := Some(1);
    }
  }

  /** Scanning `data` with the members `done` already behind us. */
  ghost predicate ScansTo(data: seq<byte>, done: seq<Member>, rem: seq<byte>) {
    ScanAll(data) == match ScanAll(rem) case None => None case Some(ms) => Some(done + ms)
  }

  lemma ScanUnfold(data: seq<byte>, done: seq<Member>, rem: seq<byte>)
    requires ScansTo(data, done, rem) && rem != []
    ensures match ScanOne(rem)
            case None => ScanAll(data).None?
            case Some(one) => 0 < one.used <= |rem| && ScansTo(data, done + [one.mem], rem[one.used..])
  {
    var one := ScanOne(rem);
    if one.Some? && ScanAll(rem[one.value.used..]).Some? {
      var ms := ScanAll(rem[one.value.used..]).value;
      assert done + ([one.value.mem] + ms) == done + [one.value.mem] + ms;
    }
  }

  /** A message with too many members, or an uncountable one, is undecodable whatever follows. */
  lemma ScanHopeless(S: Schema, d: nat, data: seq<byte>, done: seq<Member>, mem: Member, rem: seq<byte>)
    requires ScansTo(data, done + [mem], rem) && WireOk(mem)
    requires |done| >= MAX_MEMBERS || !Countable(Desc(S, d).fields, mem)
    ensures Decode(S, d, data).None?
  {
    hide ParseMembers, WireOk, Countable;
    if ScanAll(rem).Some? {
      var ms := done + [mem] + ScanAll(rem).value;
      assert ScanAll(data) == Some(ms) && ms[|done|] == mem;
      if |done| < MAX_MEMBERS && |ms| <= MAX_MEMBERS {
        UncountableFails(S, d, ms, |done|, Init(S, d));
      }
    }
  }

  /** One turn of the scanning loop: tag, field data. */
  method ScanNext(rem: seq<byte>) returns (r: Option<Scanned>)
    requires rem != []
    ensures r == ScanOne(rem)
  {
    hide Varint.ScanWithin, Varint.Value;
    var used, tag, wire := ParseTagAndWiretype(|rem|, rem);
    if used == 0 {
      return None;
    }
    KeyBound(rem[..used]);
    var mem := ScanMember(tag, wire, rem[used..]);
    if mem.None? {
      return None;
    }
    return Some(Scanned(mem.value, used + |mem.value.data|));
  }

  /** The first pass. On failure the data does not decode. */
  method ScanPass(S: Schema, d: nat, data: seq<byte>) returns (scanner: Option<Scanner>)
    requires SchemaOk(S)
    ensures match scanner
            case None => Decode(S, d, data).None?
            case Some(sc) =>
              && fresh(sc) && fresh(sc.slabs) && fresh(sc.bitmap) && sc.Valid() && sc.S == S && sc.d == d
              && ScanAll(data) == Some(sc.Done) && |sc.Done| <= MAX_MEMBERS
  {
    hide ScanOne, ScanAll, ScansTo, Decode, WireOk, Countable, SchemaOk, DescriptorOk;
    hide BitSet, SeenIn, Needed, UnknownCount, SlabSize, SlabBase;
    var sc := new Scanner(S, d);
    var rem := data;
    ScanStart(data);
    while rem != []
      invariant fresh(sc) && fresh(sc.slabs) && fresh(sc.bitmap)
      invariant fresh(sc.slabs.slabs)
      invariant sc.Valid() && sc.S == S && sc.d == d
      invariant ScansTo(data, sc.Done, rem)
      decreases |rem|
    {
      ScanUnfold(data, sc.Done, rem);
      var one := ScanNext(rem);
      if one.None? {
        ScanFails(S, d, data);
        return None;
      }
      ghost var done := sc.Done;
      var ok := sc.Accept(one.value.mem);
      if !ok {
        ScanHopeless(S, d, data, done, one.value.mem, rem[one.value.used..]);
        return None;
      }
      rem := rem[one.value.used..];
    }
    ScanEnd(data, sc.Done);
    SlabsBound(sc.slabs);
    assert |sc.slabs.Contents| == |sc.Done|;
    scanner := Some(sc);
  }

  lemma ScanStart(data: seq<byte>)
    ensures ScansTo(data, [], data)
  {
    if ScanAll(data).Some? {
      assert [] + ScanAll(data).value == ScanAll(data).value;
    }
  }

  lemma ScanEnd(data: seq<byte>, done: seq<Member>)
    requires ScansTo(data, done, [])
    ensures ScanAll(data) == Some(done)
  {
    assert done + [] == done;
  }

  lemma ScanFails(S: Schema, d: nat, data: seq<byte>)
    requires ScanAll(data).None?
    ensures Decode(S, d, data).None?
  {
  }

  lemma SlabsBound(slabs: Slabs)
    requires slabs.Valid()
    ensures |slabs.Contents| <= MAX_MEMBERS
  {
    SlabRoom(slabs.whichSlab, slabs.inSlabIndex);
    SlabLimit();
    SlabBaseMonotone(slabs.whichSlab + 1, MAX_SLAB + 1);
    SlabStep(slabs.whichSlab);
  }

  // ----------------------------------------------------------------- second pass

  /** The bitmap test over all fields. */
  method RequiredAllSeen(sc: Scanner) returns (ok: bool)
    requires sc.Valid()
    ensures ok == RequiredSeen(sc.fields, sc.Done)
  {
    hide WireOk, Countable;
    for f := 0 to |sc.fields|
      invariant forall i :: 0 <= i < f && sc.fields[i].lab.Required? && sc.fields[i].default.None?
                            ==> SeenIn(sc.fields, sc.Done, i)
    {
      if sc.fields[f].lab.Required? && sc.fields[f].default.None? {
        assert BitSet(sc.bitmap[..], f) == SeenIn(sc.fields, sc.Done, f);
        if sc.bitmap[f / 8] & Mask(f % 8) == 0 {
          return false;
        }
      }
    }
    ok := true;
  }

  /** The arrays for the repeated fields, each exactly as long as was counted. */
  method AllocateElements(counts: seq<nat>) returns (elems: seq<array<Value>>)
    ensures |elems| == |counts| && fresh(elems)
    ensures forall i :: 0 <= i < |elems| ==> elems[i].Length == counts[i]
    ensures forall i, j :: 0 <= i < j < |elems| ==> elems[i] != elems[j]
  {
    elems := [];
    for f := 0 to |counts|
      invariant |elems| == f && fresh(elems)
      invariant forall i :: 0 <= i < f ==> elems[i].Length == counts[i]
      invariant forall i, j :: 0 <= i < j < f ==> elems[i] != elems[j]
    {
      var a := new Value[counts[f]](_ => Num(0));
      elems := elems + [a];
    }
  }

  /** What is still to come for a draft once the members before `ms` have been applied. */
  ghost predicate Room(draft: Draft, ms: seq<Member>)
    requires draft.Valid() && forall k :: 0 <= k < |ms| ==> WireOk(ms[k])
    reads draft
  {
    && draft.nUnknown + UnknownCount(draft.fields, ms) == draft.unknownFields.Length
    && forall i :: 0 <= i < |draft.fields| ==> draft.n[i] + Needed(draft.fields, ms, i) == draft.elems[i].Length
  }

  /** With room for the rest there is room for the next member. */
  lemma RoomFits(draft: Draft, ms: seq<Member>)
    requires draft.Valid() && ms != [] && (forall k :: 0 <= k < |ms| ==> WireOk(ms[k])) && Room(draft, ms)
    requires Countable(draft.fields, ms[0])
    ensures draft.Fits(ScannedMember(ms[0], Lookup(draft.fields, ms[0].tag)))
  {
    hide ElementCount, WireOk;
    match Lookup(draft.fields, ms[0].tag)
    case None =>
    case Some(i) =>
      assert Needed(draft.fields, ms, i) == Adds(draft.fields, ms[0], i) + Needed(draft.fields, ms[1..], i);
  }

  /** The message being built shares no memory with what the scan recorded. */
  ghost predicate Separate(slabs: seq<array<ScannedMember>>, draft: Draft)
    reads draft
  {
    && (forall k :: 0 <= k < |slabs| ==> slabs[k] as object != draft.unknownFields)
    && (forall k, i :: 0 <= k < |slabs| && 0 <= i < |draft.elems| ==> slabs[k] as object != draft.elems[i])
  }

  /** The members from number `k` on, applied to the draft, finish what applying all of them to a
      fresh message does; and the draft has exactly the room they need. */
  ghost predicate Progress(done: seq<Member>, draft: Draft, k: nat)
    requires k <= |done| && forall j :: 0 <= j < |done| ==> WireOk(done[j])
    reads draft, draft.elems, draft.unknownFields
  {
    && draft.Valid()
    && Room(draft, done[k..])
    && ParseMembers(draft.S, draft.d, done[k..], draft.Built())
       == ParseMembers(draft.S, draft.d, done, Init(draft.S, draft.d))
  }

  /** Applies stored member number `k`. */
  method ParseNext(s: ScannedMember, draft: Draft, ghost done: seq<Member>, ghost k: nat) returns (ok: bool)
    requires SchemaOk(draft.S) && k < |done|
    requires forall j :: 0 <= j < |done| ==> WireOk(done[j]) && Countable(Desc(draft.S, draft.d).fields, done[j])
    requires Progress(done, draft, k)
    requires s == ScannedMember(done[k], Lookup(draft.fields, done[k].tag))
    modifies draft, draft.elems, draft.unknownFields
    ensures draft.Valid()
    ensures ok ==> Progress(done, draft, k + 1)
    ensures !ok ==> ParseMembers(draft.S, draft.d, done, Init(draft.S, draft.d)).None?
    decreases |s.mem.data|, 4
  {
    hide Countable, WireOk, ParseMember, Lookup, Adds;
    ghost var rest := done[k..];
    assert rest[1..] == done[k + 1..];
    RoomFits(draft, rest);
    ghost var n0, u0 := draft.n, draft.nUnknown;
    ok := draft.Parse(s);
    if ok {
      forall i | 0 <= i < |draft.fields|
        ensures draft.n[i] + Needed(draft.fields, done[k + 1..], i) == draft.elems[i].Length
      {
        assert Needed(draft.fields, rest, i) == Adds(draft.fields, rest[0], i) + Needed(draft.fields, rest[1..], i);
      }
    }
  }

  /** The second pass: every stored member, slab by slab, in the order it was scanned. On success each
      repeated array has been filled exactly; on failure nothing was written past its end. */
  method ParsePass(slabs: Slabs, draft: Draft, ghost done: seq<Member>)
    returns (ok: bool, ghost visited: seq<ScannedMember>)
    requires SchemaOk(draft.S) && slabs.Valid() && draft.Valid() && Separate(slabs.slabs, draft)
    requires forall j :: 0 <= j < |done| ==> WireOk(done[j]) && Countable(Desc(draft.S, draft.d).fields, done[j])
    requires slabs.Contents == TagMembers(draft.fields, done)
    requires Progress(done, draft, 0)
    modifies draft, draft.elems, draft.unknownFields
    ensures draft.Valid()
    ensures visited <= slabs.Contents
    ensures ok ==> visited == slabs.Contents && Progress(done, draft, |done|)
    ensures ok ==> draft.nUnknown == draft.unknownFields.Length
                   && forall i :: 0 <= i < |draft.fields| ==> draft.n[i] == draft.elems[i].Length
    ensures !ok ==> ParseMembers(draft.S, draft.d, done, Init(draft.S, draft.d)).None?
    decreases Extent(done), 5
  {
    hide Countable, WireOk, Progress, SlabSize, SlabBase, Draft.Valid, Slabs.Valid;
    hide ParseMembers, Extent, Init, SchemaOk, Lookup;
    ghost var k := 0;
    visited := [];
    slabs.Shape();
    SlabStep(slabs.whichSlab);
    FirstBase();
    for iSlab := 0 to slabs.whichSlab + 1
      invariant slabs.Valid() && draft.Valid()
      invariant k == (if iSlab <= slabs.whichSlab then SlabBase(iSlab) else |done|)
      invariant k <= |done| && Progress(done, draft, k)
      invariant visited == slabs.Contents[..k]
    {
      var max := if iSlab == slabs.whichSlab then slabs.inSlabIndex else SlabSize(iSlab);
      SlabStep(iSlab);
      for j := 0 to max
        invariant slabs.Valid() && draft.Valid()
        invariant k == SlabBase(iSlab) + j <= |done|
        invariant Progress(done, draft, k)
        invariant visited == slabs.Contents[..k]
      {
        slabs.Slot(iSlab, j);
        ExtentBounds(done, k);
        visited := visited + [slabs.slabs[iSlab][j]];
        ok := ParseNext(slabs.slabs[iSlab][j], draft, done, k);
        if !ok {
          return;
        }
        k := k + 1;
      }
    }
    DraftEnds(draft, done);
    ok := true;
  }

  lemma FirstBase()
    ensures SlabBase(0) == 0
  {
  }

  lemma {:induction false} ExtentBounds(ms: seq<Member>, k: nat)
    requires k < |ms|
    ensures |ms[k].data| < Extent(ms)
  {
    if k > 0 { ExtentBounds(ms[1..], k - 1); }
  }

  /** `protobuf_c_message_unpack` */
  method Unpack(S: Schema, d: nat, data: seq<byte>) returns (r: Option<Message>)
    requires SchemaOk(S)
    ensures r == Decode(S, d, data)
    decreases |data|, 9
  {
    hide Countable, WireOk, Decode, ScanAll, ParseMembers, RequiredSeen, Progress, SchemaOk, DescriptorOk;
    hide BitSet, SeenIn, Needed, UnknownCount, SlabSize, SlabBase, Draft.Valid, Draft.Built, Init, Extent, Lookup;
    var scanner := ScanPass(S, d, data);
    if scanner.None? {
      return None;
    }
    var sc := scanner.value;
    DecodeIs(S, d, data, sc.Done);
    var seen := RequiredAllSeen(sc);
    if !seen {
      return None;
    }
    var elems := AllocateElements(sc.counts);
    var draft := new Draft(S, d, sc.counts, sc.nUnknown, elems);
    DraftStarts(sc, draft);
    var ok, visited := ParsePass(sc.slabs, draft, sc.Done);
    if !ok {
      return None;
    }
    DraftEnds(draft, sc.Done);
    var m := draft.Finish();
    r := Some(m);
  }

  lemma DecodeIs(S: Schema, d: nat, data: seq<byte>, ms: seq<Member>)
    requires ScanAll(data) == Some(ms) && |ms| <= MAX_MEMBERS
    ensures forall k :: 0 <= k < |ms| ==> WireOk(ms[k])
    ensures Extent(ms) <= |data|
    ensures Decode(S, d, data)
            == if RequiredSeen(Desc(S, d).fields, ms) then ParseMembers(S, d, ms, Init(S, d)) else None
  {
    hide ScanAll, ParseMembers, RequiredSeen, Init, WireOk, Extent;
  }

  lemma DraftStarts(sc: Scanner, draft: Draft)
    requires sc.Valid() && draft.Valid() && draft.S == sc.S && draft.d == sc.d
    requires draft.Built() == Init(sc.S, sc.d) && draft.nUnknown == 0 && draft.unknownFields.Length == sc.nUnknown
    requires forall i :: 0 <= i < |draft.fields| ==> draft.n[i] == 0 && draft.elems[i].Length == sc.counts[i]
    ensures Progress(sc.Done, draft, 0)
  {
    hide Countable, WireOk, ParseMembers;
    assert sc.Done[0..] == sc.Done;
  }

  /** Nothing is left to do, and every array is full. */
  lemma DraftEnds(draft: Draft, done: seq<Member>)
    requires (forall j :: 0 <= j < |done| ==> WireOk(done[j])) && Progress(done, draft, |done|)
    ensures ParseMembers(draft.S, draft.d, done, Init(draft.S, draft.d)) == Some(draft.Built())
    ensures draft.nUnknown == draft.unknownFields.Length
    ensures forall i :: 0 <= i < |draft.fields| ==> draft.n[i] == draft.elems[i].Length
  {
    hide WireOk;
    assert done[|done|..] == [];
  }
}
