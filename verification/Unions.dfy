/** What decoding makes of unions: the member named last is the one that is set. */
module Unions {
  import opened Bytes
  import opened Options
  import opened Schema
  import opened Encoding
  import opened Decoding
  import opened Merging
  import MergeLaw
  import RoundTrip

  /** The tag is that of a member of union `g`. */
  predicate InUnion(fields: seq<Field>, tag: nat, g: nat) {
    exists i :: 0 <= i < |fields| && fields[i].id == tag && fields[i].oneof == Some(g)
  }

  /** The last of the members that names one of union `g`. */
  function LastNamed(fields: seq<Field>, ms: seq<Member>, g: nat): (r: Option<nat>)
    ensures r.None? ==> forall k :: 0 <= k < |ms| ==> !InUnion(fields, ms[k].tag, g)
    ensures r.Some? ==> r.value < |ms| && InUnion(fields, ms[r.value].tag, g)
    ensures r.Some? ==> forall k :: r.value < k < |ms| ==> !InUnion(fields, ms[k].tag, g)
  {
    if ms == [] then None
    else if InUnion(fields, ms[|ms| - 1].tag, g) then Some(|ms| - 1)
    else LastNamed(fields, ms[..|ms| - 1], g)
  }

  lemma {:induction false} LastOfRest(fields: seq<Field>, ms: seq<Member>, g: nat)
    requires ms != []
    ensures LastNamed(fields, ms, g) == match LastNamed(fields, ms[1..], g)
                                        case Some(k) => Some(k + 1)
                                        case None => if InUnion(fields, ms[0].tag, g) then Some(0) else None
    decreases |ms|
  {
    hide InUnion;
    var n := |ms| - 1;
    if n > 0 {
      assert ms[1..][n - 1] == ms[n] && ms[1..][..n - 1] == ms[..n][1..];
      if !InUnion(fields, ms[n].tag, g) { LastOfRest(fields, ms[..n], g); }
    }
  }

  /** What one member does to a slot of a union. */
  lemma OneMemberSets(S: Schema, d: nat, mem: Member, m: Message, j: nat, g: nat)
    requires SchemaOk(S) && WireOk(mem) && |m.slots| == |Desc(S, d).fields| && j < |m.slots|
    requires Desc(S, d).fields[j].oneof == Some(g) && ParseMember(S, d, mem, m).Some?
    ensures var f := Desc(S, d).fields[j];
            var v := ParseValue(S, f.typ, mem);
            && (mem.tag == f.id ==> v.Some?)
            && ParseMember(S, d, mem, m).value.slots[j]
               == if mem.tag == f.id then One(v)
                  else if InUnion(Desc(S, d).fields, mem.tag, g) then One(None)
                  else m.slots[j]
  {
    hide ParseValue, ParsePacked, ParseSingular, WireOk, InRange;
    RoundTrip.FieldFound(S, d, j);
    var fields := Desc(S, d).fields;
    assert DescriptorOk(S[d]);
    if InUnion(fields, mem.tag, g) {
      var i :| 0 <= i < |fields| && fields[i].id == mem.tag && fields[i].oneof == Some(g);
      RoundTrip.FieldFound(S, d, i);
    }
    match Lookup(fields, mem.tag)
    case None =>
    case Some(i) =>
      assert fields[i].id == mem.tag;
  }

  lemma {:induction false} MembersSet(S: Schema, d: nat, ms: seq<Member>, m: Message, j: nat, g: nat)
    requires SchemaOk(S) && |m.slots| == |Desc(S, d).fields| && j < |m.slots|
    requires forall k :: 0 <= k < |ms| ==> WireOk(ms[k])
    requires Desc(S, d).fields[j].oneof == Some(g) && ParseMembers(S, d, ms, m).Some?
    ensures var fields := Desc(S, d).fields;
            var last := LastNamed(fields, ms, g);
            ParseMembers(S, d, ms, m).value.slots[j]
            == if last.None? then m.slots[j]
               else if ms[last.value].tag == fields[j].id then One(ParseValue(S, fields[j].typ, ms[last.value]))
               else One(None)
    ensures var fields := Desc(S, d).fields;
            var last := LastNamed(fields, ms, g);
            last.Some? && ms[last.value].tag == fields[j].id ==> ParseValue(S, fields[j].typ, ms[last.value]).Some?
    decreases |ms|
  {
    hide ParseMember, ParseValue, WireOk, LastNamed, InUnion, SchemaOk;
    var fields := Desc(S, d).fields;
    if ms == [] {
      assert LastNamed(fields, ms, g) == None;
    } else {
      var next := ParseMember(S, d, ms[0], m).value;
      OneMemberSets(S, d, ms[0], m, j, g);
      MembersSet(S, d, ms[1..], next, j, g);
      LastOfRest(fields, ms, g);
      OwnUnion(fields, j, g);
    }
  }

  lemma OwnUnion(fields: seq<Field>, j: nat, g: nat)
    requires j < |fields| && fields[j].oneof == Some(g)
    ensures InUnion(fields, fields[j].id, g)
  {
  }

  /** After decoding, a member of a union is set exactly when it is the one named last of the union; it holds the value
      sent then. */
  lemma DecodedUnion(S: Schema, d: nat, data: seq<byte>, j: nat, g: nat)
    requires SchemaOk(S) && Decode(S, d, data).Some?
    requires j < |Desc(S, d).fields| && Desc(S, d).fields[j].oneof == Some(g)
    ensures var fields := Desc(S, d).fields;
            var ms := ScanAll(data).value;
            var last := LastNamed(fields, ms, g);
            var slot := Decode(S, d, data).value.slots[j];
            && (IsSet(slot) <==> last.Some? && ms[last.value].tag == fields[j].id)
            && (IsSet(slot) ==> slot == One(ParseValue(S, fields[j].typ, ms[last.value])))
            && (!IsSet(slot) ==> slot == One(None))
  {
    RoundTrip.FieldFound(S, d, j);
    hide ParseMembers, ParseValue, WireOk, LastNamed, SchemaOk, DescriptorOk;
    MembersSet(S, d, ScanAll(data).value, Init(S, d), j, g);
  }

  /** So at most one member of a union is set. */
  lemma AtMostOneSet(S: Schema, d: nat, data: seq<byte>, i: nat, j: nat)
    requires SchemaOk(S) && Decode(S, d, data).Some? && i < |Desc(S, d).fields| && j < |Desc(S, d).fields|
    requires Desc(S, d).fields[i].oneof.Some? && Desc(S, d).fields[i].oneof == Desc(S, d).fields[j].oneof
    requires IsSet(Decode(S, d, data).value.slots[i]) && IsSet(Decode(S, d, data).value.slots[j])
    ensures i == j
  {
    hide Decode, ScanAll, LastNamed, ParseValue, DescriptorOk, SchemaOk;
    var g := Desc(S, d).fields[i].oneof.value;
    DecodedUnion(S, d, data, i, g);
    DecodedUnion(S, d, data, j, g);
    RoundTrip.FieldFound(S, d, i);
    RoundTrip.FieldFound(S, d, j);
  }

  /** Merging a union: the later message's, if it sets the union, else the earlier's; but the empty bytes value counts
      as unset. */
  lemma MergedUnion(S: Schema, d: nat, e: Message, l: Message, j: nat, g: nat)
    requires j < |Desc(S, d).fields| && j < |e.slots| && j < |l.slots| && Merge(S, d, e, l).Some?
    requires Desc(S, d).fields[j].oneof == Some(g) && Desc(S, d).fields[j].lab.Optional?
    requires e.slots[j].One? && l.slots[j].One?
    ensures var fields := Desc(S, d).fields;
            Merge(S, d, e, l).value.slots[j]
            == if (exists k :: 0 <= k < |fields| && k < |l.slots| && fields[k].oneof == Some(g) && IsSet(l.slots[k]))
                  || (fields[j].typ == Bytes && !HasData(e.slots[j].v))
               then l.slots[j] else e.slots[j]
  {
    hide Merge;
    MergeLaw.MergeAt(S, d, e, l, Merge(S, d, e, l).value);
  }

  lemma {:induction false} LastOfBoth(fields: seq<Field>, a: seq<Member>, b: seq<Member>, g: nat)
    ensures LastNamed(fields, a + b, g) == match LastNamed(fields, b, g)
                                           case Some(k) => Some(|a| + k)
                                           case None => LastNamed(fields, a, g)
  {
    hide InUnion;
    if b == [] {
      assert a + b == a;
    } else {
      assert (a + b)[..|a + b| - 1] == a + b[..|b| - 1];
      LastOfBoth(fields, a, b[..|b| - 1], g);
    }
  }

  lemma Scanned(S: Schema, d: nat, data: seq<byte>)
    requires Decode(S, d, data).Some?
    ensures ScanAll(data).Some?
  {
    hide ParseMembers, WireOk;
  }

  /** Whether a message that was decoded has some member of the union set. */
  lemma DecodedCase(S: Schema, d: nat, data: seq<byte>, g: nat)
    requires SchemaOk(S) && Decode(S, d, data).Some?
    ensures var fields := Desc(S, d).fields;
            CaseSet(fields, Decode(S, d, data).value.slots, g) <==> LastNamed(fields, ScanAll(data).value, g).Some?
  {
    hide Decode, ScanAll, LastNamed, ParseValue, SchemaOk, DescriptorOk, WireOk;
    Scanned(S, d, data);
    var fields := Desc(S, d).fields;
    var m := Decode(S, d, data).value;
    var last := LastNamed(fields, ScanAll(data).value, g);
    forall k | 0 <= k < |fields| && fields[k].oneof == Some(g)
      ensures IsSet(m.slots[k]) <==> last.Some? && ScanAll(data).value[last.value].tag == fields[k].id
    {
      DecodedUnion(S, d, data, k, g);
    }
    if last.Some? {
      var k :| 0 <= k < |fields| && fields[k].id == ScanAll(data).value[last.value].tag && fields[k].oneof == Some(g);
      assert IsSet(m.slots[k]);
    }
  }

  /** Decoding a concatenation gives a union as the later part sends it, or else as the earlier part does. */
  lemma ConcatUnion(S: Schema, d: nat, a: seq<byte>, b: seq<byte>, j: nat, g: nat)
    requires SchemaOk(S) && j < |Desc(S, d).fields| && Desc(S, d).fields[j].oneof == Some(g)
    requires Decode(S, d, a).Some? && Decode(S, d, b).Some? && Decode(S, d, a + b).Some?
    ensures Decode(S, d, a + b).value.slots[j]
            == if CaseSet(Desc(S, d).fields, Decode(S, d, b).value.slots, g) then Decode(S, d, b).value.slots[j]
               else Decode(S, d, a).value.slots[j]
  {
    hide Decode, ScanAll, LastNamed, ParseValue, SchemaOk, CaseSet, IsSet, WireOk, InUnion;
    Scanned(S, d, a);
    Scanned(S, d, b);
    Scanned(S, d, a + b);
    var fields := Desc(S, d).fields;
    MergeLaw.ScanConcat(a, b);
    LastOfBoth(fields, ScanAll(a).value, ScanAll(b).value, g);
    DecodedCase(S, d, b, g);
    DecodedUnion(S, d, a, j, g);
    DecodedUnion(S, d, b, j, g);
    DecodedUnion(S, d, a + b, j, g);
  }

  /** And so does merging the two messages, but for an empty bytes value that the later part leaves as it is. */
  lemma ConcatMergesUnion(S: Schema, d: nat, a: seq<byte>, b: seq<byte>, j: nat, g: nat)
    requires SchemaOk(S) && j < |Desc(S, d).fields| && Desc(S, d).fields[j].oneof == Some(g)
    requires Decode(S, d, a).Some? && Decode(S, d, b).Some? && Decode(S, d, a + b).Some?
    requires Merge(S, d, Decode(S, d, a).value, Decode(S, d, b).value).Some?
    ensures var A, B := Decode(S, d, a).value, Decode(S, d, b).value;
            Decode(S, d, a + b).value.slots[j] == Merge(S, d, A, B).value.slots[j]
            <==> CaseSet(Desc(S, d).fields, B.slots, g)
                 || !(Desc(S, d).fields[j].typ == Bytes && A.slots[j] == One(Some(Text([]))))
  {
    RoundTrip.FieldFound(S, d, j);
    assert Desc(S, d).fields[j].lab.Optional? by { assert DescriptorOk(S[d]); }
    hide Decode, Merge, ScanAll, LastNamed, ParseValue, SchemaOk, DescriptorOk;
    var A, B := Decode(S, d, a).value, Decode(S, d, b).value;
    ConcatUnion(S, d, a, b, j, g);
    DecodedUnion(S, d, a, j, g);
    DecodedUnion(S, d, b, j, g);
    MergedUnion(S, d, A, B, j, g);
    if !CaseSet(Desc(S, d).fields, B.slots, g) { assert !IsSet(B.slots[j]); }
  }
}
