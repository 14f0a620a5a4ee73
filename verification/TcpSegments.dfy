/** What reordering does to the segments stored for one direction of a flow.
 *
 *  Sequence numbers are plain integers, so the order of RFC 793, section 3.3 never wraps. */
module TcpSegments {
  import opened Bytes
  import opened Options

  /** A packet kept for its payload: the captured bytes, where in them the useful data begins, and their length. */
  datatype Payload = Payload(captured: seq<byte>, offset: Option<int>, dl: int)

  /** One stored record. A SYN takes the first of its numbers and a FIN the last; the payload lies between. */
  datatype Segment = Segment(start: int, nxt: int, syn: bool, fin: bool, pkt: Option<Payload>)

  /** What one call leaves: the records, the index of the one last inserted, and the value returned. */
  datatype Outcome = Outcome(segs: seq<Segment>, last: nat, code: int)

  /** Record `k` ends where the next one starts. */
  predicate Joined(s: seq<Segment>, k: int) {
    0 <= k && k + 1 < |s| && s[k].nxt == s[k + 1].start
  }

  /** The last record of the unbroken run that begins at `i`. */
  function RunEnd(s: seq<Segment>, i: nat): (r: nat)
    requires i < |s|
    ensures i <= r < |s|
    ensures forall k :: i <= k < r ==> Joined(s, k)
    ensures !Joined(s, r)
    decreases |s| - i
  {
    if Joined(s, i) then RunEnd(s, i + 1) else i
  }

  /** The first record from `i` on that ends after `q`. */
  function Walk(s: seq<Segment>, q: int, i: nat): (r: nat)
    requires i <= |s|
    ensures i <= r <= |s|
    ensures forall k :: i <= k < r ==> s[k].nxt <= q
    ensures r < |s| ==> q < s[r].nxt
    decreases |s| - i
  {
    if i < |s| && s[i].nxt <= q then Walk(s, q, i + 1) else i
  }

  /** `seg` without the numbers up to and including `bk`. */
  function TrimFront(seg: Segment, bk: int): Segment {
    var delta := (seg.nxt - 1) - bk;
    var pkt := match seg.pkt
      case None => None
      case Some(p) =>
        var offset := match p.offset case None => None case Some(o) => Some(o + (p.dl - delta));
        Some(p.(offset := offset, dl := delta));
    seg.(start := bk + 1, pkt := pkt)
  }

  /** `seg` without the numbers from `limit` on. */
  function TrimBack(seg: Segment, limit: int): Segment {
    if seg.nxt <= limit then seg
    else
      var pkt := match seg.pkt
        case None => None
        case Some(p) => Some(p.(dl := p.dl - (seg.nxt - limit)));
      seg.(nxt := limit, pkt := pkt)
  }

  /** The number of a record's first payload byte. */
  function DataStart(seg: Segment): int
    requires seg.pkt.Some?
  {
    seg.nxt - seg.pkt.value.dl
  }

  /** `seg` put right after record `cp`, trimmed where it runs into the record that follows. */
  function Link(s: seq<Segment>, cp: nat, seg: Segment): seq<Segment>
    requires cp < |s|
  {
    s[..cp + 1] + [if cp + 1 < |s| then TrimBack(seg, s[cp + 1].start) else seg] + s[cp + 1..]
  }

  /** The record whose run the new segment is compared with; none when it goes at the end. */
  function Anchor(s: seq<Segment>, last: nat, q: int): (r: Option<nat>)
    requires last < |s|
    ensures r.Some? ==> r.value < |s|
  {
    if s[last].nxt == q then Some(last)
    else
      var n := Walk(s, q, 0);
      if n == |s| then None else Some(if n == 0 then 0 else n - 1)
  }

  /** Drops, trims or links `seg` after the run that begins at record `pre`. */
  function Splice(s: seq<Segment>, last: nat, pre: nat, seg: Segment): Outcome
    requires last < |s| && pre < |s|
  {
    var cp := RunEnd(s, pre);
    var bk := s[cp].nxt - 1;
    if s[pre].start <= seg.start <= bk then
      if seg.nxt - 1 <= bk then Outcome(s, last, 1)
      else Outcome(Link(s, cp, TrimFront(seg, bk)), cp + 1, 0)
    else
      Outcome(Link(s, cp, seg), if cp + 1 < |s| then cp + 1 else last, 0)
  }

  function Insert(s: seq<Segment>, last: nat, seg: Segment): Outcome
    requires s == [] || last < |s|
  {
    if s == [] then Outcome([seg], 0, 0)
    else match Anchor(s, last, seg.start)
      case None => Outcome(s + [seg], |s|, 0)
      case Some(pre) => Splice(s, last, pre, seg)
  }

  // --- What the list means -----------------------------------------------

  /** Every record ends at or after its start, and before the next one starts. */
  ghost predicate Ordered(s: seq<Segment>) {
    && (forall i :: 0 <= i < |s| ==> s[i].start <= s[i].nxt)
    && (forall i, j :: 0 <= i < j < |s| ==> s[i].nxt <= s[j].start)
  }

  ghost predicate Covered(s: seq<Segment>, b: int) {
    exists i :: 0 <= i < |s| && s[i].start <= b < s[i].nxt
  }

  /** Record `j` is separated by a gap from the one before it. */
  ghost predicate Island(s: seq<Segment>, j: int) {
    0 < j < |s| && s[j - 1].nxt < s[j].start
  }

  /** `q` lies strictly inside a record that is preceded by a gap. */
  ghost predicate InsideIsland(s: seq<Segment>, q: int) {
    exists j :: Island(s, j) && s[j].start < q < s[j].nxt
  }

  /** Byte `b` lies at or behind a gap-separated record that starts at or after `q`. */
  ghost predicate BeyondIsland(s: seq<Segment>, q: int, b: int) {
    exists j :: Island(s, j) && q <= s[j].start <= b && q < s[j].nxt
  }

  /** Where the code's branches serve a segment that starts at `q` properly. */
  ghost predicate Welcome(s: seq<Segment>, q: int) {
    s == [] || (s[0].start <= q && !InsideIsland(s, q))
  }

  lemma Sound(s: seq<Segment>, i: nat)
    requires Ordered(s) && i < |s|
    ensures s[i].start <= s[i].nxt
  {
  }

  lemma InOrder(s: seq<Segment>, i: nat, j: nat)
    requires Ordered(s) && i < j < |s|
    ensures s[i].start <= s[i].nxt <= s[j].start <= s[j].nxt
  {
  }

  // --- Where a segment goes ----------------------------------------------

  /** Record `pre` starts no later than `q`, what lies before it ends by `q`, and a gap ends its run past `q`. */
  ghost predicate Fits(s: seq<Segment>, q: int, pre: nat)
    requires pre < |s|
  {
    var cp := RunEnd(s, pre);
    && s[pre].start <= q
    && (forall k :: 0 < k <= pre ==> s[k].nxt <= q)
    && (cp + 1 < |s| ==> s[cp].nxt < s[cp + 1].start && q <= s[cp + 1].start && q < s[cp + 1].nxt)
  }

  lemma HintFits(s: seq<Segment>, q: int, pre: nat)
    requires pre < |s| && Ordered(s) && s[pre].nxt == q
    ensures Fits(s, q, pre)
  {
    hide Ordered, RunEnd;
    forall k | 0 < k <= pre ensures s[k].nxt <= q { if k < pre { InOrder(s, k, pre); } }
    var cp := RunEnd(s, pre);
    Sound(s, pre);
    if pre < cp { InOrder(s, pre, cp); }
    if cp + 1 < |s| { InOrder(s, cp, cp + 1); }
  }

  lemma WalkFits(s: seq<Segment>, q: int, n: nat)
    requires n < |s| && Ordered(s) && Welcome(s, q) && n == Walk(s, q, 0)
    ensures Fits(s, q, if n == 0 then 0 else n - 1)
  {
    hide Ordered, RunEnd, Walk;
    var pre := if n == 0 then 0 else n - 1;
    var cp := RunEnd(s, pre);
    Sound(s, pre);
    if cp + 1 < |s| {
      InOrder(s, cp, cp + 1);
      assert Island(s, cp + 1);
      if n < cp { InOrder(s, n, cp); }
    }
  }

  /** In an ordered list the run compared with is the one that `q` belongs to or follows. */
  lemma AnchorFits(s: seq<Segment>, last: nat, q: int)
    requires last < |s| && Ordered(s) && Welcome(s, q)
    ensures Anchor(s, last, q).Some? ==> Fits(s, q, Anchor(s, last, q).value)
    ensures Anchor(s, last, q).None? ==> forall k :: 0 <= k < |s| ==> s[k].nxt <= q
  {
    hide Ordered, Welcome, Fits, Walk;
    if s[last].nxt == q {
      HintFits(s, q, last);
    } else {
      var n := Walk(s, q, 0);
      if n < |s| { WalkFits(s, q, n); }
    }
  }

  /** The numbers of an unbroken run are all covered. */
  lemma {:induction false} RunCovers(s: seq<Segment>, i: nat, b: int)
    requires i < |s|
    requires s[i].start <= b < s[RunEnd(s, i)].nxt
    ensures Covered(s, b)
    decreases |s| - i
  {
    if b < s[i].nxt {
    } else {
      RunCovers(s, i + 1, b);
    }
  }

  /** The shape of a change: nothing, or one new record that fits between its neighbours. */
  ghost predicate Grows(s: seq<Segment>, r: seq<Segment>, k: nat, t: Segment) {
    && 0 < k <= |s|
    && r == s[..k] + [t] + s[k..]
    && s[k - 1].nxt <= t.start <= t.nxt
    && (k < |s| ==> t.nxt <= s[k].start)
  }

  lemma GrowsAt(s: seq<Segment>, r: seq<Segment>, k: nat, t: Segment)
    requires Grows(s, r, k, t)
    ensures |r| == |s| + 1
    ensures forall i :: 0 <= i < |r| ==> r[i] == if i < k then s[i] else if i == k then t else s[i - 1]
  {
  }

  lemma GrowsOrdered(s: seq<Segment>, r: seq<Segment>, k: nat, t: Segment)
    requires Ordered(s) && Grows(s, r, k, t)
    ensures Ordered(r)
  {
    GrowsAt(s, r, k, t);
    assert k < |s| ==> s[k - 1].nxt <= t.start <= t.nxt <= s[k].start;
    assert s[k - 1].nxt <= t.start <= t.nxt;
    hide Grows;
    forall i, j | 0 <= i < j < |r| ensures r[i].nxt <= r[j].start {
      if i == k {
        if j - 1 > k { InOrder(s, k, j - 1); }
      } else if j == k {
        if i < k - 1 { InOrder(s, i, k - 1); }
      }
    }
  }

  lemma GrowsCovers(s: seq<Segment>, r: seq<Segment>, k: nat, t: Segment, b: int)
    requires Grows(s, r, k, t)
    ensures Covered(r, b) <==> Covered(s, b) || t.start <= b < t.nxt
  {
    GrowsAt(s, r, k, t);
    if Covered(s, b) {
      var i :| 0 <= i < |s| && s[i].start <= b < s[i].nxt;
      assert r[if i < k then i else i + 1] == s[i];
    }
    if t.start <= b < t.nxt {
      assert r[k] == t;
    }
  }

  /** The record that is added when `seg` is linked after `cp`. */
  function Trimmed(s: seq<Segment>, cp: nat, seg: Segment): Segment
    requires cp < |s|
  {
    var front := if seg.start < s[cp].nxt then TrimFront(seg, s[cp].nxt - 1) else seg;
    if cp + 1 < |s| then TrimBack(front, s[cp + 1].start) else front
  }

  /** Every welcome segment is dropped whole, or added, trimmed, at the place where it fits. */
  lemma InsertShape(s: seq<Segment>, last: nat, seg: Segment)
    requires last < |s| && Ordered(s) && Welcome(s, seg.start) && seg.start <= seg.nxt
    ensures var o := Insert(s, last, seg);
            var a := Anchor(s, last, seg.start);
            var cp := if a.None? then |s| - 1 else RunEnd(s, a.value);
            && o.last < |o.segs|
            && (o.code == 1 ==> o.segs == s && a.Some? && seg.start < s[cp].nxt && seg.nxt <= s[cp].nxt)
            && (o.code != 1 ==> Grows(s, o.segs, cp + 1, Trimmed(s, cp, seg))
                                && (seg.start < s[cp].nxt ==> s[cp].nxt < seg.nxt))
  {
    hide Ordered, Welcome, RunEnd, Anchor;
    AnchorFits(s, last, seg.start);
    if Anchor(s, last, seg.start).None? {
      assert s + [seg] == s[..|s|] + [seg] + s[|s|..];
    }
  }

  // --- One call -----------------------------------------------------------

  /** A call keeps the list ordered for exactly the welcome segments. */
  lemma InsertKeepsOrder(s: seq<Segment>, last: nat, seg: Segment)
    requires Ordered(s) && (s == [] || last < |s|) && seg.start <= seg.nxt
    ensures Ordered(Insert(s, last, seg).segs) <==> Welcome(s, seg.start)
  {
    hide RunEnd, Walk;
    if s == [] {
    } else if Welcome(s, seg.start) {
      InsertShape(s, last, seg);
      var o := Insert(s, last, seg);
      if o.code != 1 {
        var a := Anchor(s, last, seg.start);
        var cp := if a.None? then |s| - 1 else RunEnd(s, a.value);
        GrowsOrdered(s, o.segs, cp + 1, Trimmed(s, cp, seg));
      }
    } else {
      UnwelcomeDisorders(s, last, seg);
    }
  }

  lemma BelowHead(s: seq<Segment>, last: nat, q: int)
    requires last < |s| && Ordered(s) && q < s[0].start
    ensures Anchor(s, last, q) == Some(0)
  {
    hide Ordered;
    Sound(s, 0);
    if last > 0 { InOrder(s, 0, last); }
  }

  lemma WithinIsland(s: seq<Segment>, last: nat, q: int, j: int)
    requires last < |s| && Ordered(s) && Island(s, j) && s[j].start < q < s[j].nxt
    ensures Anchor(s, last, q) == Some(j - 1) && RunEnd(s, j - 1) == j - 1
  {
    hide Ordered, Walk;
    if last < j { InOrder(s, last, j); } else if j < last { InOrder(s, j, last); }
    var n := Walk(s, q, 0);
    if n < j { InOrder(s, n, j); }
  }

  lemma LinkedAt(s: seq<Segment>, cp: nat, seg: Segment)
    requires cp < |s|
    ensures var r := Link(s, cp, seg);
            && |r| == |s| + 1 && r[..cp + 1] == s[..cp + 1] && r[cp + 1].start == seg.start
            && (cp + 1 < |s| && s[cp + 1].start < seg.nxt ==> r[cp + 1].nxt == s[cp + 1].start)
  {
  }

  lemma Misplaced(s: seq<Segment>, r: seq<Segment>, cp: nat, q: int)
    requires cp < |s| && Ordered(s) && cp + 1 < |r| && r[..cp + 1] == s[..cp + 1]
    requires r[cp + 1].start == q < s[0].start
    ensures !Ordered(r)
  {
    assert r[0] == r[..cp + 1][0] == s[0];
    assert s[0].start <= s[0].nxt;
  }

  lemma Inverted(r: seq<Segment>, j: int)
    requires 0 <= j < |r| && r[j].nxt < r[j].start
    ensures !Ordered(r)
  {
  }

  /** A segment below the first record, or strictly inside an island, leaves the list out of order. */
  lemma UnwelcomeDisorders(s: seq<Segment>, last: nat, seg: Segment)
    requires last < |s| && Ordered(s) && !Welcome(s, seg.start) && seg.start <= seg.nxt
    ensures !Ordered(Insert(s, last, seg).segs)
  {
    hide Ordered, RunEnd, Walk;
    var q := seg.start;
    if q < s[0].start {
      BelowHead(s, last, q);
      var cp := RunEnd(s, 0);
      var t := if cp + 1 < |s| then TrimBack(seg, s[cp + 1].start) else seg;
      LinkedAt(s, cp, seg);
      Misplaced(s, Link(s, cp, seg), cp, q);
    } else {
      var j :| Island(s, j) && s[j].start < q < s[j].nxt;
      WithinIsland(s, last, q, j);
      LinkedAt(s, j - 1, seg);
      Sound(s, j);
      Inverted(Link(s, j - 1, seg), j);
    }
  }

  lemma TrimmedBounds(s: seq<Segment>, cp: nat, seg: Segment)
    requires cp < |s|
    ensures var t := Trimmed(s, cp, seg);
            && t.start == (if seg.start < s[cp].nxt then s[cp].nxt else seg.start)
            && t.nxt == (if cp + 1 < |s| && s[cp + 1].start < seg.nxt then s[cp + 1].start else seg.nxt)
  {
  }

  lemma CoverageGrows(s: seq<Segment>, last: nat, seg: Segment, b: int)
    requires s != [] && Ordered(s) && last < |s| && Welcome(s, seg.start) && seg.start <= seg.nxt
    ensures Covered(Insert(s, last, seg).segs, b)
       <==> Covered(s, b) || (seg.start <= b < seg.nxt && !BeyondIsland(s, seg.start, b))
  {
    hide Insert, Anchor, Ordered, Welcome, RunEnd, Covered, BeyondIsland, Grows, Trimmed;
    var q := seg.start;
    InsertShape(s, last, seg);
    AnchorFits(s, last, q);
    IslandsFromHere(s, last, q, b);
    var a := Anchor(s, last, q);
    var cp := if a.None? then |s| - 1 else RunEnd(s, a.value);
    TrimmedBounds(s, cp, seg);
    if a.Some? && q <= b < s[cp].nxt { RunCovers(s, a.value, b); }
    if Insert(s, last, seg).code != 1 {
      GrowsCovers(s, Insert(s, last, seg).segs, cp + 1, Trimmed(s, cp, seg), b);
    }
  }

  /** No covered byte is lost, and the bytes gained are the segment's own below the next island. */
  lemma InsertCoverage(s: seq<Segment>, last: nat, seg: Segment, b: int)
    requires Ordered(s) && (s == [] || last < |s|) && Welcome(s, seg.start) && seg.start <= seg.nxt
    ensures Covered(Insert(s, last, seg).segs, b)
       <==> Covered(s, b) || (seg.start <= b < seg.nxt && !BeyondIsland(s, seg.start, b))
  {
    if s == [] {
      assert Covered([seg], b) <==> [seg][0].start <= b < [seg][0].nxt;
    } else {
      hide Insert, Ordered, Welcome, Covered, BeyondIsland;
      CoverageGrows(s, last, seg, b);
    }
  }

  /** The bytes behind an island are those from the record after the run on. */
  lemma IslandsFromHere(s: seq<Segment>, last: nat, q: int, b: int)
    requires last < |s| && Ordered(s) && Welcome(s, q)
    ensures var a := Anchor(s, last, q);
            BeyondIsland(s, q, b) <==> a.Some? && RunEnd(s, a.value) + 1 < |s| && s[RunEnd(s, a.value) + 1].start <= b
  {
    hide Ordered, Welcome, Anchor, RunEnd;
    AnchorFits(s, last, q);
    var a := Anchor(s, last, q);
    if a.Some? {
      var cp := RunEnd(s, a.value);
      if cp + 1 < |s| { assert Island(s, cp + 1); }
      forall j | Island(s, j) && q <= s[j].start <= b && q < s[j].nxt
        ensures cp + 1 < |s| && s[cp + 1].start <= b
      {
        assert a.value < j;
        assert !Joined(s, j - 1);
        assert cp < j;
        if cp + 1 < j { InOrder(s, cp + 1, j); }
      }
    }
  }

  /** A segment is refused exactly when all its bytes are stored, unless it starts where an island starts. */
  lemma RefusedExactly(s: seq<Segment>, last: nat, seg: Segment)
    requires last < |s| && Ordered(s) && Welcome(s, seg.start) && seg.start < seg.nxt
    ensures Insert(s, last, seg).code == 1
       <==> (forall b :: seg.start <= b < seg.nxt ==> Covered(s, b))
            && !BeyondIsland(s, seg.start, seg.start)
    ensures Insert(s, last, seg).code == 1 ==> Insert(s, last, seg).segs == s
  {
    hide Ordered, Welcome, Insert, Anchor, RunEnd, BeyondIsland, Grows;
    var q := seg.start;
    InsertShape(s, last, seg);
    AnchorFits(s, last, q);
    IslandsFromHere(s, last, q, q);
    var a := Anchor(s, last, q);
    if a.None? {
      assert !Covered(s, q);
    } else {
      hide Covered;
      var cp := RunEnd(s, a.value);
      if Insert(s, last, seg).code == 1 {
        forall b | q <= b < seg.nxt ensures Covered(s, b) { RunCovers(s, a.value, b); }
      } else if !BeyondIsland(s, q, q) {
        var gap := if q < s[cp].nxt then s[cp].nxt else q;
        NotCovered(s, cp, gap);
      }
    }
  }

  /** A byte between a record and its successor is not covered. */
  lemma NotCovered(s: seq<Segment>, cp: nat, b: int)
    requires cp < |s| && Ordered(s) && s[cp].nxt <= b
    requires cp + 1 < |s| ==> b < s[cp + 1].start
    ensures !Covered(s, b)
  {
    hide Ordered;
    forall i | 0 <= i < |s| ensures !(s[i].start <= b < s[i].nxt) {
      if i < cp { InOrder(s, i, cp); } else if i > cp + 1 { InOrder(s, cp + 1, i); }
    }
  }

  lemma LinkCovers(s: seq<Segment>, cp: nat, seg: Segment, b: int)
    requires cp < |s|
    ensures var t := if cp + 1 < |s| then TrimBack(seg, s[cp + 1].start) else seg;
            Covered(Link(s, cp, seg), b) <==> Covered(s, b) || t.start <= b < t.nxt
  {
    var t := if cp + 1 < |s| then TrimBack(seg, s[cp + 1].start) else seg;
    var r := Link(s, cp, seg);
    hide TrimBack;
    assert |r| == |s| + 1;
    forall i | 0 <= i < |r| ensures r[i] == if i <= cp then s[i] else if i == cp + 1 then t else s[i - 1] {}
    if Covered(s, b) {
      var i :| 0 <= i < |s| && s[i].start <= b < s[i].nxt;
      assert r[if i <= cp then i else i + 1] == s[i];
    }
    assert r[cp + 1] == t;
  }

  /** Resending bytes that are all stored never changes what is covered, wherever they start. */
  lemma ResendChangesNothing(s: seq<Segment>, last: nat, seg: Segment, b: int)
    requires Ordered(s) && last < |s| && seg.start <= seg.nxt
    requires forall c :: seg.start <= c < seg.nxt ==> Covered(s, c)
    ensures Covered(Insert(s, last, seg).segs, b) <==> Covered(s, b)
  {
    if Welcome(s, seg.start) {
      InsertCoverage(s, last, seg, b);
    } else {
      UnwelcomeResend(s, last, seg, b);
    }
  }

  lemma UnwelcomeResend(s: seq<Segment>, last: nat, seg: Segment, b: int)
    requires Ordered(s) && last < |s| && seg.start <= seg.nxt && !Welcome(s, seg.start)
    requires forall c :: seg.start <= c < seg.nxt ==> Covered(s, c)
    ensures Covered(Insert(s, last, seg).segs, b) <==> Covered(s, b)
  {
    var q := seg.start;
    if q < s[0].start {
      BelowHead(s, last, q);
      NothingBelowHead(s, q);
      assert seg.nxt == q;
      var cp := RunEnd(s, 0);
      if cp + 1 < |s| { InOrder(s, 0, cp + 1); }
      hide Ordered, RunEnd, Covered;
      LinkCovers(s, cp, seg, b);
    } else {
      var j :| Island(s, j) && s[j].start < q < s[j].nxt;
      WithinIsland(s, last, q, j);
      hide Ordered, RunEnd, Covered;
      LinkCovers(s, j - 1, seg, b);
    }
  }

  lemma NothingBelowHead(s: seq<Segment>, q: int)
    requires s != [] && Ordered(s) && q < s[0].start
    ensures !Covered(s, q)
  {
    hide Ordered;
    forall i | 0 <= i < |s| ensures !(s[i].start <= q < s[i].nxt) {
      if i > 0 { InOrder(s, 0, i); }
    }
  }

  /** Runs joined end to end have one end. */
  lemma {:induction false} RunEndJoins(s: seq<Segment>, i: nat, k: nat)
    requires i <= k < |s|
    requires forall m :: i <= m < k ==> Joined(s, m)
    ensures RunEnd(s, i) == RunEnd(s, k)
    decreases k - i
  {
    if i < k {
      RunEndJoins(s, i + 1, k);
    }
  }

  /** The remembered last record is only a short cut: it never changes the list that results. */
  lemma HintIrrelevant(s: seq<Segment>, last1: nat, last2: nat, seg: Segment)
    requires Ordered(s) && last1 < |s| && last2 < |s|
    ensures Insert(s, last1, seg).segs == Insert(s, last2, seg).segs
    ensures Insert(s, last1, seg).code == Insert(s, last2, seg).code
  {
    HintSkipsWalk(s, last1, seg);
    HintSkipsWalk(s, last2, seg);
  }

  /** The result of the walk from the head, whatever record was inserted last. */
  function Walked(s: seq<Segment>, seg: Segment): (seq<Segment>, int)
    requires s != []
  {
    var n := Walk(s, seg.start, 0);
    if n == |s| then (s + [seg], 0)
    else
      var o := Splice(s, 0, if n == 0 then 0 else n - 1, seg);
      (o.segs, o.code)
  }

  /** Past a record that ends at `q` the walk meets only empty records at `q`. */
  lemma WalkPasses(s: seq<Segment>, last: nat, q: int)
    requires Ordered(s) && last < |s| && s[last].nxt == q
    ensures last < Walk(s, q, 0)
    ensures forall m :: last <= m < Walk(s, q, 0) - 1 ==> Joined(s, m)
    ensures s[Walk(s, q, 0) - 1].nxt == q
  {
    hide Ordered, Walk;
    var n := Walk(s, q, 0);
    if n <= last {
      if n < last { InOrder(s, n, last); Sound(s, last); }
    }
    forall m | last <= m < n - 1 ensures Joined(s, m) {
      if last < m { InOrder(s, last, m); }
      InOrder(s, m, m + 1);
    }
    if last < n - 1 { InOrder(s, last, n - 1); }
  }

  lemma LinkLast(s: seq<Segment>, seg: Segment)
    requires s != []
    ensures Link(s, |s| - 1, seg) == s + [seg]
  {
    assert s[..|s|] + [seg] + s[|s|..] == s + [seg];
  }

  /** Only the end of the run matters, not the record it was found from. */
  lemma SpliceByRun(s: seq<Segment>, i: nat, k: nat, last: nat, seg: Segment)
    requires i < |s| && k < |s| && last < |s| && RunEnd(s, i) == RunEnd(s, k)
    requires s[i].start <= seg.start <==> s[k].start <= seg.start
    ensures Splice(s, last, i, seg).segs == Splice(s, 0, k, seg).segs
    ensures Splice(s, last, i, seg).code == Splice(s, 0, k, seg).code
  {
    hide Link, RunEnd, TrimFront;
  }

  lemma SpliceAfter(s: seq<Segment>, pre: nat, last: nat, seg: Segment)
    requires pre < |s| && last < |s| && RunEnd(s, pre) == |s| - 1 && s[|s| - 1].nxt == seg.start
    ensures Splice(s, last, pre, seg).segs == s + [seg] && Splice(s, last, pre, seg).code == 0
  {
    hide RunEnd, Link, TrimFront;
    LinkLast(s, seg);
  }

  lemma HintFollows(s: seq<Segment>, last: nat, seg: Segment)
    requires Ordered(s) && last < |s| && s[last].nxt == seg.start
    ensures (Splice(s, last, last, seg).segs, Splice(s, last, last, seg).code) == Walked(s, seg)
  {
    hide Ordered, RunEnd, Splice, Walk;
    var n := Walk(s, seg.start, 0);
    WalkPasses(s, last, seg.start);
    RunEndJoins(s, last, n - 1);
    Sound(s, last);
    Sound(s, n - 1);
    if n == |s| {
      SpliceAfter(s, last, last, seg);
    } else {
      SpliceByRun(s, last, n - 1, last, seg);
    }
  }

  lemma HintSkipsWalk(s: seq<Segment>, last: nat, seg: Segment)
    requires Ordered(s) && last < |s|
    ensures (Insert(s, last, seg).segs, Insert(s, last, seg).code) == Walked(s, seg)
  {
    hide Ordered, Splice, Walk;
    if s[last].nxt == seg.start {
      hide Walked;
      HintFollows(s, last, seg);
    } else {
      var n := Walk(s, seg.start, 0);
      if n < |s| {
        var pre := if n == 0 then 0 else n - 1;
        SpliceByRun(s, pre, pre, last, seg);
      }
    }
  }

  // --- Payloads -----------------------------------------------------------

  ghost function Stretch(stream: int -> byte, from: int, n: int): (r: seq<byte>)
    requires 0 <= n
    ensures |r| == n
  {
    seq(n, i => stream(from + i))
  }

  lemma StretchPart(stream: int -> byte, from: int, n: int, lo: int, hi: int)
    requires 0 <= lo <= hi <= n
    ensures Stretch(stream, from, n)[lo..hi] == Stretch(stream, from + lo, hi - lo)
  {
  }

  lemma StretchJoin(stream: int -> byte, from: int, n: int, m: int)
    requires 0 <= n && 0 <= m
    ensures Stretch(stream, from, n) + Stretch(stream, from + n, m) == Stretch(stream, from, n + m)
  {
  }

  /** A kept payload ends where the record ends, and begins where it begins or, when a SYN comes first, one number
    * later; it is the stretch of `stream` in between. A packet with FIN is not kept. */
  ghost predicate Carries(stream: int -> byte, seg: Segment) {
    seg.pkt.Some? ==>
      var p := seg.pkt.value;
      && !seg.fin && 0 <= p.dl
      && (p.dl == seg.nxt - seg.start || (seg.syn && p.dl == seg.nxt - seg.start - 1))
      && (p.offset.Some? ==>
            var o := p.offset.value;
            0 <= o <= o + p.dl <= |p.captured| && p.captured[o..o + p.dl] == Stretch(stream, seg.nxt - p.dl, p.dl))
  }

  ghost predicate AllCarry(stream: int -> byte, s: seq<Segment>) {
    forall i :: 0 <= i < |s| ==> Carries(stream, s[i])
  }

  /** The record of a packet: SYN or FIN takes one number more than the payload, and a packet with FIN is not kept. */
  function FromPacket(tcpSeq: int, syn: bool, fin: bool, payload: Payload, recognised: bool): Segment {
    Segment(tcpSeq, tcpSeq + payload.dl + (if syn || fin then 1 else 0), syn, fin,
            if recognised && !fin then Some(payload) else None)
  }

  /** A packet whose payload agrees with the stream, behind its SYN if it has one, gives a record that does. */
  lemma FromPacketCarries(stream: int -> byte, tcpSeq: int, syn: bool, fin: bool, payload: Payload, recognised: bool)
    requires 0 <= payload.dl
    requires payload.offset.Some? ==>
               var o := payload.offset.value;
               && 0 <= o <= o + payload.dl <= |payload.captured|
               && payload.captured[o..o + payload.dl] == Stretch(stream, tcpSeq + (if syn then 1 else 0), payload.dl)
    ensures var seg := FromPacket(tcpSeq, syn, fin, payload, recognised);
            Carries(stream, seg) && (SynFirst(seg) <==> recognised && syn && !fin)
  {
  }

  /** The first number of a kept record belongs to its SYN. */
  predicate SynFirst(seg: Segment) {
    seg.pkt.Some? && seg.pkt.value.dl < seg.nxt - seg.start
  }

  /** A kept record that begins with its SYN starts where an island starts, and so is trimmed to nothing. */
  ghost predicate SynLost(s: seq<Segment>, seg: Segment) {
    SynFirst(seg) && BeyondIsland(s, seg.start, seg.start)
  }

  lemma InsertFirst(last: nat, seg: Segment)
    ensures Insert([], last, seg) == Outcome([seg], 0, 0)
  {
  }

  /** The kept payloads agree with the stream, also after the new one was trimmed at either end, exactly unless
    * a SYN record is trimmed to nothing: its length field then counts one below zero. */
  lemma InsertCarries(stream: int -> byte, s: seq<Segment>, last: nat, seg: Segment)
    requires Ordered(s) && (s == [] || last < |s|) && Welcome(s, seg.start) && seg.start <= seg.nxt
    requires Carries(stream, seg)
    ensures AllCarry(stream, Insert(s, last, seg).segs) <==> AllCarry(stream, s) && !SynLost(s, seg)
  {
    hide Ordered, Welcome, Insert, Anchor, RunEnd, Carries, Trimmed, BeyondIsland;
    InsertFirst(last, seg);
    if s == [] {
      NoIsland(seg.start);
      assert [seg][0] == seg;
    } else {
      InsertShape(s, last, seg);
      AnchorFits(s, last, seg.start);
      IslandsFromHere(s, last, seg.start, seg.start);
      var r := Insert(s, last, seg).segs;
      if Insert(s, last, seg).code != 1 {
        var a := Anchor(s, last, seg.start);
        var cp := if a.None? then |s| - 1 else RunEnd(s, a.value);
        var t := Trimmed(s, cp, seg);
        TrimmedBounds(s, cp, seg);
        assert t.start <= t.nxt;
        TrimmedCarries(stream, s, cp, seg);
        AllCarryAt(stream, s, r, cp + 1, t);
      }
    }
  }

  lemma NoIsland(q: int)
    ensures !BeyondIsland([], q, q)
  {
  }

  lemma AllCarryAt(stream: int -> byte, s: seq<Segment>, r: seq<Segment>, k: nat, t: Segment)
    requires Grows(s, r, k, t)
    ensures AllCarry(stream, r) <==> AllCarry(stream, s) && Carries(stream, t)
  {
    hide Carries;
    GrowsAt(s, r, k, t);
    assert r[k] == t;
    assert forall i :: 0 <= i < |s| ==> r[if i < k then i else i + 1] == s[i];
  }

  /** Giving up the front of a record, its SYN with it, leaves the stretch that is left. */
  lemma TrimFrontCarries(stream: int -> byte, seg: Segment, bk: int)
    requires Carries(stream, seg) && seg.start <= bk < seg.nxt
    ensures Carries(stream, TrimFront(seg, bk)) && !SynFirst(TrimFront(seg, bk))
  {
    if seg.pkt.Some? && seg.pkt.value.offset.Some? {
      var p := seg.pkt.value;
      var o := p.offset.value;
      var cut := p.dl - (seg.nxt - 1 - bk);
      StretchPart(stream, seg.nxt - p.dl, p.dl, cut, p.dl);
      assert p.captured[o..o + p.dl][cut..p.dl] == p.captured[o + cut..o + p.dl];
    }
  }

  /** Giving up the back of a record leaves the stretch that is left, unless not even its SYN is left. */
  lemma TrimBackCarries(stream: int -> byte, seg: Segment, limit: int)
    requires Carries(stream, seg) && seg.start <= limit
    ensures Carries(stream, TrimBack(seg, limit)) <==> !(SynFirst(seg) && limit == seg.start)
  {
    if limit < seg.nxt && seg.pkt.Some? && !(SynFirst(seg) && limit == seg.start) && seg.pkt.value.offset.Some? {
      var p := seg.pkt.value;
      var o := p.offset.value;
      var left := p.dl - (seg.nxt - limit);
      StretchPart(stream, seg.nxt - p.dl, p.dl, 0, left);
      assert p.captured[o..o + p.dl][0..left] == p.captured[o..o + left];
    }
  }

  lemma TrimmedCarries(stream: int -> byte, s: seq<Segment>, cp: nat, seg: Segment)
    requires cp < |s| && Carries(stream, seg)
    requires seg.start < s[cp].nxt ==> s[cp].nxt < seg.nxt
    requires cp + 1 < |s| ==> seg.start <= s[cp + 1].start && s[cp].nxt < s[cp + 1].start
    ensures Carries(stream, Trimmed(s, cp, seg)) <==> !(SynFirst(seg) && cp + 1 < |s| && s[cp + 1].start == seg.start)
  {
    if seg.start < s[cp].nxt {
      TrimFrontCarries(stream, seg, s[cp].nxt - 1);
    }
    var front := if seg.start < s[cp].nxt then TrimFront(seg, s[cp].nxt - 1) else seg;
    hide Carries;
    if cp + 1 < |s| {
      TrimBackCarries(stream, front, s[cp + 1].start);
    }
  }

  /** A SYN record of five bytes at the start of an island: its length field goes below zero. */
  lemma SynAtIslandMiscounts(last: nat)
    requires last < 2
    ensures var s := [Segment(0, 5, false, false, None), Segment(10, 20, false, false, None)];
            var seg := Segment(10, 16, true, false, Some(Payload([1, 2, 3, 4, 5], Some(0), 5)));
            var r := Insert(s, last, seg).segs;
            SynLost(s, seg) && |r| == 3 && r[1].start == r[1].nxt == 10 && r[1].pkt.Some? && r[1].pkt.value.dl == -1
  {
    var s := [Segment(0, 5, false, false, None), Segment(10, 20, false, false, None)];
    var seg := Segment(10, 16, true, false, Some(Payload([1, 2, 3, 4, 5], Some(0), 5)));
    assert Island(s, 1);
    assert Walk(s, 10, 0) == 1 && RunEnd(s, 0) == 0;
    LinkedAt(s, 0, seg);
    assert Link(s, 0, seg)[1] == TrimBack(seg, 10);
  }

  /** The payloads of records `i` to `j`, end to end. */
  function Spelled(s: seq<Segment>, i: nat, j: nat): seq<byte>
    requires i <= j < |s|
    requires forall k :: i <= k <= j ==> HasBytes(s[k])
    decreases j - i
  {
    assert HasBytes(s[i]);
    var p := s[i].pkt.value;
    p.captured[p.offset.value..p.offset.value + p.dl] + if i == j then [] else Spelled(s, i + 1, j)
  }

  predicate HasBytes(seg: Segment) {
    && seg.pkt.Some? && seg.pkt.value.offset.Some? && 0 <= seg.pkt.value.dl
    && 0 <= seg.pkt.value.offset.value <= seg.pkt.value.offset.value + seg.pkt.value.dl <= |seg.pkt.value.captured|
  }

  /** An unbroken run of kept payloads, with no SYN but in front, spells out a piece of the stream. */
  lemma {:induction false} RunSpellsStream(stream: int -> byte, s: seq<Segment>, i: nat, j: nat)
    requires i <= j < |s| && AllCarry(stream, s)
    requires forall k :: i <= k <= j ==> HasBytes(s[k])
    requires forall k :: i < k <= j ==> !SynFirst(s[k])
    requires forall k :: i <= k < j ==> Joined(s, k)
    ensures HasBytes(s[i]) && DataStart(s[i]) <= s[j].nxt
    ensures Spelled(s, i, j) == Stretch(stream, DataStart(s[i]), s[j].nxt - DataStart(s[i]))
    decreases j - i
  {
    hide AllCarry, Carries, Stretch, SynFirst;
    assert HasBytes(s[i]);
    Bytewise(stream, s, i);
    if i < j {
      assert Joined(s, i) && HasBytes(s[i + 1]) && !SynFirst(s[i + 1]);
      RunSpellsStream(stream, s, i + 1, j);
      Bytewise(stream, s, i + 1);
      StretchJoin(stream, DataStart(s[i]), s[i].pkt.value.dl, s[j].nxt - s[i + 1].start);
    }
  }

  lemma Bytewise(stream: int -> byte, s: seq<Segment>, i: nat)
    requires i < |s| && AllCarry(stream, s) && HasBytes(s[i])
    ensures s[i].start <= DataStart(s[i]) <= s[i].nxt && (!SynFirst(s[i]) ==> DataStart(s[i]) == s[i].start)
    ensures var p := s[i].pkt.value;
            p.captured[p.offset.value..p.offset.value + p.dl] == Stretch(stream, DataStart(s[i]), p.dl)
  {
    hide Stretch;
    assert Carries(stream, s[i]);
  }

  // --- Packets survive -------------------------------------------------------

  /** `t` is what is left of `seg`: it keeps the packet, if there is one, and both flags; its payload begins where that
    * of `seg` does, or at `t.start` when something was given up in front, and the offset has moved along. */
  ghost predicate PartOf(t: Segment, seg: Segment) {
    && seg.start <= t.start && t.nxt <= seg.nxt && t.syn == seg.syn && t.fin == seg.fin
    && (t.pkt.Some? <==> seg.pkt.Some?)
    && (seg.pkt.Some? ==>
          var p, q := seg.pkt.value, t.pkt.value;
          && q.captured == p.captured && (q.offset.Some? <==> p.offset.Some?)
          && DataStart(t) == (if t.start == seg.start then DataStart(seg) else t.start)
          && (p.offset.Some? ==> q.offset.value - p.offset.value == DataStart(t) - DataStart(seg)))
  }

  /** `r` is `s` with one more record, at `k`. */
  ghost predicate OneNew(s: seq<Segment>, r: seq<Segment>, k: nat) {
    k < |r| == |s| + 1 && r[..k] == s[..k] && r[k + 1..] == s[k..]
  }

  lemma LinkKeepsPacket(s: seq<Segment>, cp: nat, seg: Segment, whole: Segment)
    requires cp < |s| && PartOf(seg, whole)
    ensures OneNew(s, Link(s, cp, seg), cp + 1) && PartOf(Link(s, cp, seg)[cp + 1], whole)
  {
  }

  /** A call leaves the list alone, or adds one record, which keeps the packet of the segment. */
  lemma InsertKeepsPacket(s: seq<Segment>, last: nat, seg: Segment)
    requires s == [] || last < |s|
    ensures var o := Insert(s, last, seg);
            && (o.code == 0 || o.code == 1)
            && (o.code == 1 ==> o.segs == s && o.last == last)
            && (o.code == 0 ==> exists k: nat :: OneNew(s, o.segs, k) && PartOf(o.segs[k], seg))
  {
    hide Walk, RunEnd, Link;
    var o := Insert(s, last, seg);
    if s == [] {
      assert OneNew(s, o.segs, 0) && PartOf(o.segs[0], seg);
    } else {
      match Anchor(s, last, seg.start)
      case None =>
        assert OneNew(s, o.segs, |s|) && PartOf(o.segs[|s|], seg);
      case Some(pre) =>
        var cp := RunEnd(s, pre);
        var bk := s[cp].nxt - 1;
        LinkKeepsPacket(s, cp, seg, seg);
        if s[pre].start <= seg.start <= bk < seg.nxt - 1 {
          LinkKeepsPacket(s, cp, TrimFront(seg, bk), seg);
        }
    }
  }

  // --- Whole runs -----------------------------------------------------------

  /** The state after the segments `a` have arrived one by one. */
  function Feed(a: seq<Segment>): (o: Outcome)
    ensures o.segs == [] || o.last < |o.segs|
    ensures a != [] ==> o.segs != []
  {
    if a == [] then Outcome([], 0, 0)
    else
      var before := Feed(a[..|a| - 1]);
      Insert(before.segs, before.last, a[|a| - 1])
  }

  /** Every arrival was welcome when it came. */
  ghost predicate WelcomeRun(a: seq<Segment>) {
    forall n :: 0 <= n < |a| ==> a[n].start <= a[n].nxt && Welcome(Feed(a[..n]).segs, a[n].start)
  }

  /** Over a whole run the list stays ordered, loses no covered byte, and covers nothing that did not arrive. */
  lemma {:induction false} RunKeeps(a: seq<Segment>)
    requires WelcomeRun(a)
    ensures Ordered(Feed(a).segs)
    ensures forall b :: Covered(Feed(a).segs, b) ==> Covered(a, b)
    ensures a != [] ==> forall b :: Covered(Feed(a[..|a| - 1]).segs, b) ==> Covered(Feed(a).segs, b)
  {
    if a != [] {
      var n := |a| - 1;
      var front := a[..n];
      FrontWelcome(a);
      RunKeeps(front);
      var before := Feed(front);
      FeedStep(a);
      hide Feed, Insert, Ordered, Welcome, Covered, WelcomeRun;
      InsertKeepsOrder(before.segs, before.last, a[n]);
      forall b
        ensures Covered(Feed(a).segs, b) ==> Covered(a, b)
        ensures Covered(before.segs, b) ==> Covered(Feed(a).segs, b)
      {
        InsertCoverage(before.segs, before.last, a[n], b);
        CoveredByFront(a, b);
      }
    }
  }

  /** Arrival `n` brought byte `b`: it lies below the next record behind a gap at that time. */
  ghost predicate Brought(a: seq<Segment>, n: nat, b: int)
    requires n < |a|
  {
    a[n].start <= b < a[n].nxt && !BeyondIsland(Feed(a[..n]).segs, a[n].start, b)
  }

  lemma BroughtByFront(a: seq<Segment>, b: int)
    requires a != []
    ensures var front := a[..|a| - 1];
            (exists n :: 0 <= n < |a| && Brought(a, n, b))
            <==> Brought(a, |a| - 1, b) || exists n :: 0 <= n < |front| && Brought(front, n, b)
  {
    hide Feed, BeyondIsland;
    var front := a[..|a| - 1];
    forall n | 0 <= n < |front| ensures Brought(front, n, b) <==> Brought(a, n, b) {
      assert front[n] == a[n] && front[..n] == a[..n];
    }
  }

  /** Over a whole run exactly the bytes that some arrival brought are covered. */
  lemma {:induction false} RunCoverage(a: seq<Segment>, b: int)
    requires WelcomeRun(a)
    ensures Covered(Feed(a).segs, b) <==> exists n :: 0 <= n < |a| && Brought(a, n, b)
  {
    if a != [] {
      var n := |a| - 1;
      FrontWelcome(a);
      RunKeeps(a[..n]);
      RunCoverage(a[..n], b);
      FeedStep(a);
      var before := Feed(a[..n]);
      assert Brought(a, n, b) <==> a[n].start <= b < a[n].nxt && !BeyondIsland(before.segs, a[n].start, b);
      hide Feed, Insert, Ordered, Welcome, Covered, WelcomeRun, Brought, BeyondIsland;
      InsertCoverage(before.segs, before.last, a[n], b);
      BroughtByFront(a, b);
    }
  }

  lemma FrontWelcome(a: seq<Segment>)
    requires a != [] && WelcomeRun(a)
    ensures var n := |a| - 1;
            WelcomeRun(a[..n]) && a[n].start <= a[n].nxt && Welcome(Feed(a[..n]).segs, a[n].start)
  {
    hide Welcome, Feed;
    var n := |a| - 1;
    var front := a[..n];
    forall k | 0 <= k < n ensures front[k] == a[k] && front[..k] == a[..k] {}
  }

  /** No arrival was a SYN record trimmed to nothing. */
  ghost predicate NoSynLost(a: seq<Segment>) {
    forall n :: 0 <= n < |a| ==> !SynLost(Feed(a[..n]).segs, a[n])
  }

  lemma NoSynLostStep(a: seq<Segment>)
    requires a != []
    ensures var n := |a| - 1; NoSynLost(a) <==> NoSynLost(a[..n]) && !SynLost(Feed(a[..n]).segs, a[n])
  {
    hide SynLost, Feed;
    var n := |a| - 1;
    var front := a[..n];
    forall k | 0 <= k < n ensures front[k] == a[k] && front[..k] == a[..k] {}
  }

  /** Over a whole run the kept payloads agree with the stream exactly when no SYN record was trimmed to nothing. */
  lemma {:induction false} RunCarries(stream: int -> byte, a: seq<Segment>)
    requires WelcomeRun(a) && AllCarry(stream, a)
    ensures AllCarry(stream, Feed(a).segs) <==> NoSynLost(a)
  {
    if a != [] {
      var n := |a| - 1;
      var front := a[..n];
      FrontWelcome(a);
      FrontCarries(stream, a);
      RunKeeps(front);
      RunCarries(stream, front);
      var before := Feed(front);
      FeedStep(a);
      NoSynLostStep(a);
      hide Feed, Insert, Ordered, Welcome, AllCarry, WelcomeRun, NoSynLost, SynLost;
      InsertCarries(stream, before.segs, before.last, a[n]);
    }
  }

  lemma FrontCarries(stream: int -> byte, a: seq<Segment>)
    requires a != [] && AllCarry(stream, a)
    ensures AllCarry(stream, a[..|a| - 1]) && Carries(stream, a[|a| - 1])
  {
    hide Carries;
  }

  /** Arrival `n` was stored. */
  ghost predicate Stored(a: seq<Segment>, n: nat)
    requires n < |a|
  {
    var before := Feed(a[..n]);
    Insert(before.segs, before.last, a[n]).code == 0
  }

  ghost predicate FromSome(a: seq<Segment>, t: Segment) {
    exists n :: 0 <= n < |a| && PartOf(t, a[n])
  }

  ghost predicate InSome(s: seq<Segment>, seg: Segment) {
    exists k :: 0 <= k < |s| && PartOf(s[k], seg)
  }

  lemma NewAmong(s: seq<Segment>, r: seq<Segment>, k: nat)
    requires OneNew(s, r, k)
    ensures forall i :: 0 <= i < |r| ==> r[i] == if i < k then s[i] else if i == k then r[k] else s[i - 1]
  {
    forall i | 0 <= i < |r| ensures r[i] == if i < k then s[i] else if i == k then r[k] else s[i - 1] {
      if i < k { assert r[..k][i] == s[..k][i]; }
      if i > k { assert r[k + 1..][i - k - 1] == s[k..][i - k - 1]; }
    }
  }

  lemma FromFront(a: seq<Segment>, t: Segment)
    requires a != []
    ensures FromSome(a[..|a| - 1], t) || PartOf(t, a[|a| - 1]) ==> FromSome(a, t)
  {
    hide PartOf;
    var front := a[..|a| - 1];
    if FromSome(front, t) {
      var n :| 0 <= n < |front| && PartOf(t, front[n]);
      assert PartOf(t, a[n]);
    }
  }

  lemma StillThere(s: seq<Segment>, r: seq<Segment>, k: nat, seg: Segment)
    requires OneNew(s, r, k)
    ensures InSome(s, seg) || PartOf(r[k], seg) ==> InSome(r, seg)
  {
    hide PartOf;
    if InSome(s, seg) {
      var i :| 0 <= i < |s| && PartOf(s[i], seg);
      NewAmong(s, r, k);
      assert r[if i < k then i else i + 1] == s[i];
    }
  }

  lemma StoredStep(a: seq<Segment>, n: nat)
    requires n < |a| - 1
    ensures Stored(a, n) <==> Stored(a[..|a| - 1], n)
  {
    hide Insert, Feed;
    assert a[..|a| - 1][n] == a[n] && a[..|a| - 1][..n] == a[..n];
  }

  /** Over any run every record is what is left of one arrival, packet and flags included, and every arrival that was
    * stored is still there. */
  lemma {:induction false} RunKeepsPackets(a: seq<Segment>)
    ensures forall i :: 0 <= i < |Feed(a).segs| ==> FromSome(a, Feed(a).segs[i])
    ensures forall n :: 0 <= n < |a| && Stored(a, n) ==> InSome(Feed(a).segs, a[n])
  {
    hide Feed, Insert, PartOf, Stored, FromSome, InSome;
    if a == [] {
      FeedNone();
    } else {
      var last := |a| - 1;
      var front := a[..last];
      RunKeepsPackets(front);
      var s, r := Feed(front).segs, Feed(a).segs;
      FeedStep(a);
      InsertKeepsPacket(s, Feed(front).last, a[last]);
      LastStored(a);
      var refused := Insert(s, Feed(front).last, a[last]).code == 1;
      var k: nat := 0;
      if !refused {
        k :| OneNew(s, r, k) && PartOf(r[k], a[last]);
        NewAmong(s, r, k);
      }
      forall i | 0 <= i < |r| ensures FromSome(a, r[i]) {
        FromFront(a, r[i]);
        if refused {
          assert FromSome(front, s[i]);
        } else if i != k {
          assert FromSome(front, s[if i < k then i else i - 1]);
        }
      }
      forall n | 0 <= n < |a| && Stored(a, n) ensures InSome(r, a[n]) {
        if n < last { StoredStep(a, n); }
        assert n < last ==> front[n] == a[n];
        if !refused { StillThere(s, r, k, a[n]); }
      }
    }
  }

  lemma FeedNone()
    ensures Feed([]).segs == []
  {
  }

  lemma LastStored(a: seq<Segment>)
    requires a != []
    ensures var before := Feed(a[..|a| - 1]);
            Stored(a, |a| - 1) <==> Insert(before.segs, before.last, a[|a| - 1]).code == 0
  {
    hide Insert, Feed;
  }

  lemma CoveredByFront(a: seq<Segment>, b: int)
    requires a != []
    ensures Covered(a[..|a| - 1], b) || a[|a| - 1].start <= b < a[|a| - 1].nxt ==> Covered(a, b)
  {
    var front := a[..|a| - 1];
    if Covered(front, b) {
      var i :| 0 <= i < |front| && front[i].start <= b < front[i].nxt;
      assert a[i] == front[i];
    }
  }

  // --- Arrival order ----------------------------------------------------------

  predicate Apart(x: Segment, y: Segment) {
    x.nxt <= y.start || y.nxt <= x.start
  }

  /** Non-empty and pairwise disjoint, the first one lowest. */
  ghost predicate Scattered(a: seq<Segment>) {
    && (forall i :: 0 <= i < |a| ==> a[i].start < a[i].nxt)
    && (forall i, j :: 0 <= i < j < |a| ==> Apart(a[i], a[j]))
    && (forall i :: 0 < i < |a| ==> a[0].start < a[i].start)
  }

  ghost predicate NonEmpty(s: seq<Segment>) {
    forall i :: 0 <= i < |s| ==> s[i].start < s[i].nxt
  }

  /** A segment apart from all stored ones is linked whole. */
  lemma ApartIsKept(s: seq<Segment>, last: nat, seg: Segment)
    requires last < |s| && Ordered(s) && NonEmpty(s) && seg.start < seg.nxt && s[0].start < seg.start
    requires forall i :: 0 <= i < |s| ==> Apart(s[i], seg)
    ensures var r := Insert(s, last, seg).segs;
            && r != [] && Ordered(r) && NonEmpty(r) && multiset(r) == multiset(s) + multiset{seg} && r[0] == s[0]
  {
    hide Ordered, Insert, Anchor, RunEnd;
    forall j | Island(s, j) ensures !(s[j].start < seg.start < s[j].nxt) { assert Apart(s[j], seg); }
    InsertShape(s, last, seg);
    ApartFromRun(s, last, seg);
    var a := Anchor(s, last, seg.start);
    var cp := if a.None? then |s| - 1 else RunEnd(s, a.value);
    assert Trimmed(s, cp, seg) == seg;
    GrowsKeeps(s, Insert(s, last, seg).segs, cp + 1, seg);
  }

  lemma GrowsKeeps(s: seq<Segment>, r: seq<Segment>, k: nat, t: Segment)
    requires Grows(s, r, k, t) && Ordered(s) && NonEmpty(s) && t.start < t.nxt
    ensures r != [] && Ordered(r) && NonEmpty(r) && multiset(r) == multiset(s) + multiset{t} && r[0] == s[0]
  {
    hide Ordered, Grows, NonEmpty;
    GrowsOrdered(s, r, k, t);
    GrowsNonEmpty(s, r, k, t);
    GrowsByOne(s, r, k, t);
  }

  lemma GrowsByOne(s: seq<Segment>, r: seq<Segment>, k: nat, t: Segment)
    requires Grows(s, r, k, t)
    ensures r != [] && multiset(r) == multiset(s) + multiset{t} && r[0] == s[0]
  {
    assert s == s[..k] + s[k..];
  }

  lemma GrowsNonEmpty(s: seq<Segment>, r: seq<Segment>, k: nat, t: Segment)
    requires Grows(s, r, k, t) && NonEmpty(s) && t.start < t.nxt
    ensures NonEmpty(r)
  {
    GrowsAt(s, r, k, t);
  }

  /** A segment apart from every record does not touch the run it is compared with. */
  lemma ApartFromRun(s: seq<Segment>, last: nat, seg: Segment)
    requires last < |s| && Ordered(s) && NonEmpty(s) && seg.start < seg.nxt && Welcome(s, seg.start)
    requires forall i :: 0 <= i < |s| ==> Apart(s[i], seg)
    ensures var a := Anchor(s, last, seg.start);
            a.Some? ==> var cp := RunEnd(s, a.value);
                        s[cp].nxt <= seg.start && (cp + 1 < |s| ==> seg.nxt <= s[cp + 1].start)
  {
    hide Ordered, Welcome, Anchor, RunEnd;
    var a := Anchor(s, last, seg.start);
    AnchorFits(s, last, seg.start);
    if a.Some? {
      var cp := RunEnd(s, a.value);
      assert !Covered(s, seg.start);
      if seg.start < s[cp].nxt { RunCovers(s, a.value, seg.start); }
      if cp + 1 < |s| { assert Apart(s[cp + 1], seg); }
    }
  }

  lemma FrontScattered(a: seq<Segment>)
    requires a != [] && Scattered(a)
    ensures Scattered(a[..|a| - 1])
    ensures a[|a| - 1].start < a[|a| - 1].nxt
    ensures |a| > 1 ==> a[..|a| - 1][0] == a[0] && a[0].start < a[|a| - 1].start
  {
  }

  lemma FrontApart(a: seq<Segment>, s: seq<Segment>)
    requires a != [] && Scattered(a) && multiset(s) == multiset(a[..|a| - 1])
    ensures forall i :: 0 <= i < |s| ==> Apart(s[i], a[|a| - 1])
  {
    var front := a[..|a| - 1];
    forall i | 0 <= i < |s| ensures Apart(s[i], a[|a| - 1]) {
      assert s[i] in multiset(s);
      assert s[i] in front;
    }
  }

  lemma {:induction false} FeedSorts(a: seq<Segment>)
    requires Scattered(a)
    ensures Sorts(Feed(a).segs, a)
  {
    hide Feed, Insert, Ordered, NonEmpty, Scattered;
    if a == [] {
      NothingSorted();
    } else {
      var n := |a| - 1;
      var front := a[..n];
      FrontScattered(a);
      FeedStep(a);
      if n == 0 {
        OneSorted(a);
      } else {
        FeedSorts(front);
        FrontApart(a, Feed(front).segs);
        assert a == front + [a[n]];
        assert multiset(a) == multiset(front) + multiset{a[n]};
        ApartIsKept(Feed(front).segs, Feed(front).last, a[n]);
      }
    }
  }

  /** `s` lists the segments of `a` in order. */
  ghost predicate Sorts(s: seq<Segment>, a: seq<Segment>) {
    Ordered(s) && NonEmpty(s) && multiset(s) == multiset(a) && (a != [] ==> s != [] && s[0] == a[0])
  }

  lemma NothingSorted()
    ensures Sorts(Feed([]).segs, [])
  {
  }

  lemma OneSorted(a: seq<Segment>)
    requires |a| == 1 && a[0].start < a[0].nxt
    ensures Sorts([a[0]], a)
  {
  }

  lemma FeedStep(a: seq<Segment>)
    requires a != []
    ensures var before := Feed(a[..|a| - 1]); Feed(a) == Insert(before.segs, before.last, a[|a| - 1])
    ensures |a| == 1 ==> Feed(a).segs == [a[0]]
  {
    hide Anchor, Splice;
    if |a| == 1 { assert a[..0] == []; }
  }

  /** Ordered lists of the same non-empty records are equal. */
  lemma {:induction false} SortedUnique(x: seq<Segment>, y: seq<Segment>)
    requires Ordered(x) && NonEmpty(x) && Ordered(y) && NonEmpty(y)
    requires multiset(x) == multiset(y)
    ensures x == y
  {
    if x == [] {
      assert |multiset(y)| == 0;
    } else {
      assert |multiset(x)| == |multiset(y)|;
      SameFirst(x, y);
      Behead(x);
      Behead(y);
      hide Ordered, NonEmpty;
      SameRest(x, y);
      SortedUnique(x[1..], y[1..]);
      assert x == [x[0]] + x[1..] && y == [y[0]] + y[1..];
    }
  }

  lemma SameRest(x: seq<Segment>, y: seq<Segment>)
    requires x != [] && y != [] && x[0] == y[0] && multiset(x) == multiset(y)
    ensures multiset(x[1..]) == multiset(y[1..])
  {
    assert x == [x[0]] + x[1..] && y == [y[0]] + y[1..];
    assert multiset(x[1..]) == multiset(x) - multiset{x[0]};
    assert multiset(y[1..]) == multiset(y) - multiset{y[0]};
  }

  lemma Behead(x: seq<Segment>)
    requires x != [] && Ordered(x) && NonEmpty(x)
    ensures Ordered(x[1..]) && NonEmpty(x[1..])
  {
    var r := x[1..];
    forall i, j | 0 <= i < j < |r| ensures r[i].nxt <= r[j].start { InOrder(x, i + 1, j + 1); }
    forall i | 0 <= i < |r| ensures r[i].start <= r[i].nxt { Sound(x, i + 1); }
  }

  lemma SameFirst(x: seq<Segment>, y: seq<Segment>)
    requires x != [] && y != [] && Ordered(x) && NonEmpty(x) && Ordered(y) && NonEmpty(y)
    requires multiset(x) == multiset(y)
    ensures x[0] == y[0]
  {
    hide Ordered;
    assert x[0] in multiset(y) && y[0] in multiset(x);
    var i :| 0 <= i < |y| && y[i] == x[0];
    var j :| 0 <= j < |x| && x[j] == y[0];
    if i > 0 { InOrder(y, 0, i); }
    if j > 0 { InOrder(x, 0, j); }
  }

  /** Disjoint segments give the same list in whatever order they arrive, the lowest one first. */
  lemma ArrivalOrderIrrelevant(a: seq<Segment>, b: seq<Segment>)
    requires Scattered(a) && Scattered(b) && multiset(a) == multiset(b)
    ensures Feed(a).segs == Feed(b).segs
    ensures Ordered(Feed(a).segs) && multiset(Feed(a).segs) == multiset(a)
  {
    FeedSorts(a);
    FeedSorts(b);
    SortedUnique(Feed(a).segs, Feed(b).segs);
  }
}
