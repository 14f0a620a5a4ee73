/** `merge_messages`: an earlier message folded into a latter one, field by field. */
module Merging {
  import opened Options
  import opened Schema

  /** Some member of union `g` is set. */
  predicate CaseSet(fields: seq<Field>, slots: seq<Slot>, g: nat) {
    exists j :: 0 <= j < |fields| && j < |slots| && fields[j].oneof == Some(g) && IsSet(slots[j])
  }

  predicate IsSet(slot: Slot) { slot.One? && slot.v.Some? }

  /** An empty bytes value has a null data pointer. */
  predicate HasData(v: Option<Value>) {
    v.Some? && !(v.value.Text? && v.value.s == [])
  }

  /** The merge fails when a field belongs to a union that neither message sets:
      case number 0 is looked up as a field number and not found. */
  function Merge(S: Schema, d: nat, e: Message, l: Message): (r: Option<Message>)
    ensures r.Some? ==> |r.value.slots| == |l.slots| && r.value.unknown == l.unknown
    decreases e, 1
  {
    var slots :- MergeSlots(S, Desc(S, d).fields, e, l, 0);
    Some(Message(slots, l.unknown))
  }

  function MergeSlots(S: Schema, fields: seq<Field>, e: Message, l: Message, i: nat): (r: Option<seq<Slot>>)
    requires i <= |l.slots|
    ensures r.Some? ==> |r.value| == |l.slots| - i
    decreases e, 0, |l.slots| - i
  {
    if i == |l.slots| then Some([])
    else
      var slot :- MergeSlot(S, fields, i, e, l);
      var rest :- MergeSlots(S, fields, e, l, i + 1);
      Some([slot] + rest)
  }

  function MergeSlot(S: Schema, fields: seq<Field>, i: nat, e: Message, l: Message): (r: Option<Slot>)
    requires i < |l.slots|
    decreases e, 0, 0, 0
  {
    if i >= |fields| || i >= |e.slots| then Some(l.slots[i])
    else
      var f := fields[i];
      match (f.lab, e.slots[i], l.slots[i])
      case (Repeated, Many(a), Many(b)) => Some(Many(a + b))
      case (Optional, One(a), One(b)) =>
        if f.oneof.Some? then
          if CaseSet(fields, l.slots, f.oneof.value) then Some(One(b))
          else if !CaseSet(fields, e.slots, f.oneof.value) then None
          else if f.typ == Bytes && !HasData(a) then Some(One(b))
          else Some(One(a))
        else MergeSingular(S, f, a, b)
      case _ => Some(l.slots[i])
  }

  function MergeSingular(S: Schema, f: Field, a: Option<Value>, b: Option<Value>): (r: Option<Slot>)
    decreases a
  {
    match f.typ
    case Nested(k) =>
      if a.Some? && a.value.Sub? && b.Some? && b.value.Sub? then
        var m :- Merge(S, k, a.value.m, b.value.m);
        Some(One(Some(Sub(m))))
      else Some(One(if b.None? then a else b))
    case Bytes => Some(One(if HasData(a) && !HasData(b) then a else b))
    case _ => Some(One(if b.None? then a else b))
  }

  // ------------------------------------------------------------- the C function

  /** The case number of union `g`: nonzero when one of its members is set. */
  method CaseIsSet(fields: seq<Field>, slots: seq<Slot>, g: nat) returns (b: bool)
    ensures b == CaseSet(fields, slots, g)
  {
    for j := 0 to |fields|
      invariant forall k :: 0 <= k < j && k < |slots| ==> !(fields[k].oneof == Some(g) && IsSet(slots[k]))
    {
      if j < |slots| && fields[j].oneof == Some(g) && IsSet(slots[j]) {
        return true;
      }
    }
    return false;
  }

  lemma {:induction false} MergeSlotsFail(S: Schema, fields: seq<Field>, e: Message, l: Message, i: nat, k: nat)
    requires i <= k < |l.slots|
    requires MergeSlot(S, fields, k, e, l).None?
    ensures MergeSlots(S, fields, e, l, i).None?
    decreases k - i
  {
    if i < k {
      MergeSlotsFail(S, fields, e, l, i + 1, k);
    }
  }

  lemma {:induction false} MergeSlotsAll(S: Schema, fields: seq<Field>, e: Message, l: Message,
                                         merged: seq<Slot>, i: nat)
    requires i <= |l.slots| == |merged|
    requires forall k :: 0 <= k < |merged| ==> MergeSlot(S, fields, k, e, l) == Some(merged[k])
    ensures MergeSlots(S, fields, e, l, i) == Some(merged[i..])
    decreases |l.slots| - i
  {
    if i < |l.slots| {
      MergeSlotsAll(S, fields, e, l, merged, i + 1);
      assert [merged[i]] + merged[i + 1..] == merged[i..];
    }
  }

  /** `merge_messages`: one loop over the fields, rewriting the latter message slot by slot. */
  method MergeMessages(S: Schema, d: nat, earlier: Message, latter: Message) returns (r: Option<Message>)
    ensures r == Merge(S, d, earlier, latter)
    decreases earlier, 1
  {
    hide Merge, MergeSlots, MergeSlot;
    var fields := Desc(S, d).fields;
    var merged := latter.slots;
    for i := 0 to |latter.slots|
      invariant |merged| == |latter.slots|
      invariant forall k :: 0 <= k < i ==> MergeSlot(S, fields, k, earlier, latter) == Some(merged[k])
    {
      var slot := MergeField(S, d, i, earlier, latter);
      if slot.None? {
        MergeSlotsFail(S, fields, earlier, latter, 0, i);
        MergeUnfold(S, d, earlier, latter);
        return None;
      }
      merged := merged[i := slot.value];
    }
    MergeSlotsAll(S, fields, earlier, latter, merged, 0);
    MergeUnfold(S, d, earlier, latter);
    assert merged[0..] == merged;
    r := Some(Message(merged, latter.unknown));
  }

  lemma MergeUnfold(S: Schema, d: nat, e: Message, l: Message)
    ensures Merge(S, d, e, l)
            == match MergeSlots(S, Desc(S, d).fields, e, l, 0)
               case None => None
               case Some(slots) => Some(Message(slots, l.unknown))
  {
  }

  /** The loop body of `merge_messages`. */
  method MergeField(S: Schema, d: nat, i: nat, earlier: Message, latter: Message) returns (r: Option<Slot>)
    requires i < |latter.slots|
    ensures r == MergeSlot(S, Desc(S, d).fields, i, earlier, latter)
    decreases earlier, 0
  {
    hide CaseSet, Merge;
    var fields := Desc(S, d).fields;
    if i >= |fields| || i >= |earlier.slots| {
      return Some(latter.slots[i]);
    }
    var f := fields[i];
    match (earlier.slots[i], latter.slots[i])
    case (Many(a), Many(b)) =>
      return Some(if f.lab.Repeated? then Many(a + b) else latter.slots[i]);
    case (One(a), One(b)) =>
      if !f.lab.Optional? {
        return Some(latter.slots[i]);
      }
      if f.oneof.Some? {
        var latterCase := CaseIsSet(fields, latter.slots, f.oneof.value);
        if latterCase { return Some(One(b)); }
        var earlierCase := CaseIsSet(fields, earlier.slots, f.oneof.value);
        if !earlierCase { return None; }
        if f.typ == Bytes && !HasData(a) { return Some(One(b)); }
        return Some(One(a));
      }
      match f.typ {
        case Nested(k) =>
          match (a, b) {
            case (Some(Sub(x)), Some(Sub(y))) =>
              var m := MergeMessages(S, k, x, y);
              if m.None? { return None; }
              return Some(One(Some(Sub(m.value))));
            case _ => return Some(One(if b.None? then a else b));
          }
        case Bytes =>
          var needToMerge := HasData(a) && !HasData(b);
          return Some(One(if needToMerge then a else b));
        case _ =>
          var needToMerge := a.Some? && b.None?;
          return Some(One(if needToMerge then a else b));
      }
    case _ => return Some(latter.slots[i]);
  }
}
