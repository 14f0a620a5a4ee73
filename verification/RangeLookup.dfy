/** The field lookup of the decoder: a binary search over runs of field numbers. */
module RangeLookup {
  import opened Options
  import opened Schema

  /** The fields of runs `lo..hi` are those at indices `rs[lo].origIndex..rs[hi].origIndex`. */
  predicate Within(desc: Descriptor, lo: nat, hi: nat, value: int)
    requires lo <= hi < |desc.ranges|
  {
    forall j :: 0 <= j < |desc.fields| && desc.fields[j].id == value
                ==> desc.ranges[lo].origIndex <= j < desc.ranges[hi].origIndex
  }

  /** Run boundaries increase along the table. */
  lemma {:induction false} RunsIncrease(desc: Descriptor, a: nat, b: nat)
    requires RangesOk(desc) && a <= b < |desc.ranges|
    ensures desc.ranges[a].origIndex + (b - a) <= desc.ranges[b].origIndex
    decreases b - a
  {
    if a < b {
      RunsIncrease(desc, a + 1, b);
    }
  }

  /** A number below a run's first, or past its last, belongs to a field outside that run on that side. */
  lemma Narrow(desc: Descriptor, lo: nat, mid: nat, hi: nat, value: int)
    requires RangesOk(desc) && lo <= mid < hi < |desc.ranges| && Within(desc, lo, hi, value)
    ensures value < desc.ranges[mid].start ==> Within(desc, lo, mid, value)
    ensures value >= desc.ranges[mid].start + (desc.ranges[mid + 1].origIndex - desc.ranges[mid].origIndex)
            ==> Within(desc, mid + 1, hi, value)
  {
    var rs := desc.ranges;
    RunsIncrease(desc, 0, mid);
    RunsIncrease(desc, mid + 1, |rs| - 1);
    var first, last := rs[mid].origIndex, rs[mid + 1].origIndex - 1;
    assert desc.fields[first].id == rs[mid].start;
    assert desc.fields[last].id == rs[mid].start + (last - first);
  }

  lemma Hit(desc: Descriptor, k: nat, value: int, index: int)
    requires RangesOk(desc) && k + 1 < |desc.ranges|
    requires index == value - desc.ranges[k].start + desc.ranges[k].origIndex
    requires desc.ranges[k].origIndex <= index < desc.ranges[k + 1].origIndex
    ensures Lookup(desc.fields, value) == Some(index)
  {
    RunsIncrease(desc, k + 1, |desc.ranges| - 1);
    assert desc.fields[index].id == value;
    LookupIs(desc.fields, value, index);
  }

  lemma LookupIs(fields: seq<Field>, tag: int, i: nat)
    requires i < |fields| && fields[i].id == tag
    requires forall j, j' :: 0 <= j < j' < |fields| ==> fields[j].id < fields[j'].id
    ensures Lookup(fields, tag) == Some(i)
  {
    var r := Lookup(fields, tag).value;
    assert !(r < i) && !(i < r);
  }

  /** No field can have the number once no run is left. */
  lemma Miss(desc: Descriptor, lo: nat, value: int)
    requires lo < |desc.ranges| && Within(desc, lo, lo, value)
    ensures Lookup(desc.fields, value) == None
  {
  }

  lemma EveryField(desc: Descriptor, value: int)
    requires RangesOk(desc)
    ensures desc.ranges != [] ==> Within(desc, 0, |desc.ranges| - 1, value)
    ensures desc.ranges == [] ==> Lookup(desc.fields, value) == None
    ensures |desc.ranges| > 1 ==> desc.fields != []
  {
  }

  method IntRangeLookup(desc: Descriptor, nRanges: nat, value: int) returns (index: int)
    requires RangesOk(desc)
    requires nRanges == if desc.ranges == [] then 0 else |desc.ranges| - 1
    ensures match Lookup(desc.fields, value)
            case None => index == -1
            case Some(i) => index == i
  {
    hide RangesOk, Within, Lookup;
    var ranges := desc.ranges;
    EveryField(desc, value);
    if nRanges == 0 {
      if ranges != [] { Miss(desc, 0, value); }
      return -1;
    }
    var start := 0;
    var n := nRanges;
    while n > 1
      invariant 0 <= n && start + n <= nRanges
      invariant Within(desc, start, start + n, value)
      decreases n
    {
      var mid := start + n / 2;
      Narrow(desc, start, mid, start + n, value);
      if value < ranges[mid].start {
        n := mid - start;
      } else if value >= ranges[mid].start + (ranges[mid + 1].origIndex - ranges[mid].origIndex) {
        var newStart := mid + 1;
        n := start + n - newStart;
        start := newStart;
      } else {
        index := (value - ranges[mid].start) + ranges[mid].origIndex;
        Hit(desc, mid, value, index);
        return;
      }
    }
    if n > 0 {
      var startOrigIndex := ranges[start].origIndex;
      var rangeSize := ranges[start + 1].origIndex - startOrigIndex;
      if ranges[start].start <= value < ranges[start].start + rangeSize {
        index := (value - ranges[start].start) + startOrigIndex;
        Hit(desc, start, value, index);
        return;
      }
      Narrow(desc, start, start, start + 1, value);
      Miss(desc, if value < ranges[start].start then start else start + 1, value);
    } else {
      Miss(desc, start, value);
    }
    return -1;
  }
}
