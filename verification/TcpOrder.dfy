/** The linked lists in which the segments of a flow are put in order. */
module TcpOrder {
  import opened Bytes
  import opened Lists
  import opened Options
  import opened PacketTypes
  import opened TcpSegments

  /** A record of the list: the numbers it covers, and its packet when that was kept. */
  class SeqRecord {
    var start: int
    var nxt: int
    var flags: byte
    var pkt: Option<Payload>
    var next: SeqRecord?

    /** The record of a packet. Its payload is kept when it was recognised and the packet has no FIN. */
    constructor (tcpSeq: int, flags: byte, payload: Payload, recognised: bool)
      ensures next == null && View() == FromPacket(tcpSeq, Has(flags, TH_SYN), Has(flags, TH_FIN), payload, recognised)
      ensures start == tcpSeq && this.flags == flags
      ensures nxt - start == payload.dl + (if Has(flags, TH_SYN) || Has(flags, TH_FIN) then 1 else 0)
      ensures pkt.Some? <==> recognised && !Has(flags, TH_FIN)
      ensures pkt.Some? ==> pkt.value == payload
    {
      start := tcpSeq;
      if Has(flags, TH_SYN) || Has(flags, TH_FIN) {
        nxt := tcpSeq + payload.dl + 1;
      } else {
        nxt := tcpSeq + payload.dl;
      }
      this.flags := flags;
      pkt := if recognised && !Has(flags, TH_FIN) then Some(payload) else None;
      next := null;
    }

    /** Gives up the numbers up to and including `bk`. */
    method DropFront(bk: int)
      modifies this`start, this`pkt
      ensures View() == TrimFront(old(View()), bk)
    {
      var delta := (nxt - 1) - bk;
      match pkt {
        case None =>
        case Some(p) =>
          var offset := match p.offset case None => None case Some(o) => Some(o + (p.dl - delta));
          pkt := Some(p.(offset := offset, dl := delta));
      }
      start := bk + 1;
    }

    /** Gives up the numbers from `limit` on. */
    method DropBack(limit: int)
      requires limit < nxt
      modifies this`nxt, this`pkt
      ensures View() == TrimBack(old(View()), limit)
    {
      match pkt {
        case None =>
        case Some(p) => pkt := Some(p.(dl := p.dl - (nxt - limit)));
      }
      nxt := limit;
    }

    ghost function View(): Segment
      reads this
    {
      Segment(start, nxt, Has(flags, TH_SYN), Has(flags, TH_FIN), pkt)
    }

    lemma SameBounds()
      ensures View().start == start && View().nxt == nxt
    {
    }
  }

  ghost function Views(nodes: seq<SeqRecord>): (s: seq<Segment>)
    reads nodes
    ensures |s| == |nodes|
    ensures forall i :: 0 <= i < |s| ==> s[i] == nodes[i].View()
  {
    if nodes == [] then [] else [nodes[0].View()] + Views(nodes[1..])
  }

  ghost function Nth(nodes: seq<SeqRecord>, i: nat): SeqRecord? {
    if i < |nodes| then nodes[i] else null
  }

  /** Record `i` points at the next one of the list. */
  ghost predicate Linked(nodes: seq<SeqRecord>, i: nat)
    requires i < |nodes|
    reads nodes
  {
    nodes[i].next == Nth(nodes, i + 1)
  }

  /** The records of one direction, and the one last inserted. */
  class Lane {
    var first: SeqRecord?
    var last: SeqRecord?
    ghost var nodes: seq<SeqRecord>
    ghost var lastAt: nat

    constructor ()
      ensures Valid() && Segments() == [] && nodes == []
    {
      first, last := null, null;
      nodes, lastAt := [], 0;
    }

    /** `nodes` lists, without repeats, the records met on the way from `first`. */
    ghost predicate Chained()
      reads this, nodes
    {
      && Distinct(nodes)
      && first == Nth(nodes, 0)
      && (forall i :: 0 <= i < |nodes| ==> Linked(nodes, i))
    }

    ghost predicate Valid()
      reads this, nodes
    {
      && Chained()
      && (nodes == [] <==> last == null)
      && (nodes != [] ==> lastAt < |nodes| && last == nodes[lastAt])
    }

    ghost function Segments(): (s: seq<Segment>)
      reads this, nodes
      ensures |s| == |nodes|
    {
      Views(nodes)
    }

    /** Searches for the end of the unbroken run that begins at a record. */
    method ContSeq(lst: SeqRecord, ghost i: nat) returns (end: SeqRecord, ghost j: nat)
      requires Chained() && i < |nodes| && lst == nodes[i]
      ensures j == RunEnd(Segments(), i) && end == nodes[j]
    {
      hide Distinct;
      end, j := lst, i;
      assert Linked(nodes, j);
      while end.next != null && end.nxt == end.next.start
        invariant i <= j < |nodes| && end == nodes[j]
        invariant Linked(nodes, j)
        invariant RunEnd(Segments(), i) == RunEnd(Segments(), j)
        decreases |nodes| - j
      {
        end, j := end.next, j + 1;
        assert Linked(nodes, j);
      }
    }

    /** Passes the records that end at or before `q`; `pre` trails one behind. */
    method Search(q: int) returns (pre: SeqRecord, cp: SeqRecord?, ghost n: nat)
      requires Chained() && nodes != []
      ensures n == Walk(Segments(), q, 0)
      ensures cp == Nth(nodes, n)
      ensures pre == nodes[if n == 0 then 0 else n - 1]
    {
      hide Distinct;
      cp := first;
      pre := first;
      n := 0;
      while cp != null && cp.nxt <= q
        invariant n <= |nodes|
        invariant cp == Nth(nodes, n)
        invariant pre == nodes[if n == 0 then 0 else n - 1]
        invariant Walk(Segments(), q, 0) == Walk(Segments(), q, n)
        decreases |nodes| - n
      {
        assert Linked(nodes, n);
        pre := cp;
        cp := cp.next;
        n := n + 1;
      }
    }

    /** Splices a record in between `cp` and the one that follows it. */
    method Join(cp: SeqRecord, ghost at: nat, seg: SeqRecord)
      requires Chained() && at < |nodes| && cp == nodes[at] && seg !in nodes && seg.next == null
      modifies this`nodes, cp`next, seg`next
      ensures Chained()
      ensures nodes == Put(old(nodes), at + 1, seg)
      ensures forall n :: n in nodes ==> n.View() == old(n.View())
    {
      hide Distinct;
      ghost var was := nodes;
      assert Linked(was, at);
      var aft := cp.next;
      cp.next := seg;
      if aft != null {
        seg.next := aft;
      }
      nodes := Put(was, at + 1, seg);
      forall i | 0 <= i < |was| && i != at ensures Linked(was, i) {
        assert old(Linked(was, i));
        assert was[i] in was;
        Differ(was, i, at);
      }
      assert seg.next == Nth(was, at + 1);
      PutDistinct(was, at + 1, seg);
      PutLinked(was, at, seg);
    }

    /** Links a record after `cp`, giving up what runs into the record that follows. */
    method LinkAfter(cp: SeqRecord, ghost at: nat, seg: SeqRecord)
      requires Chained() && at < |nodes| && cp == nodes[at] && seg !in nodes && seg.next == null
      modifies this`nodes, cp`next, seg
      ensures Chained()
      ensures nodes == Put(old(nodes), at + 1, seg)
      ensures Segments() == Link(old(Segments()), at, old(seg.View()))
    {
      hide Distinct, Link;
      ghost var s := Segments();
      ghost var was := nodes;
      ghost var whole := seg.View();
      assert Linked(nodes, at);
      var aft := cp.next;
      if aft != null && aft.start < seg.nxt {
        seg.DropBack(aft.start);
      }
      assert seg.View() == LinkedForm(s, at, whole);
      assert forall n :: n in nodes ==> n.View() == old(n.View());
      Join(cp, at, seg);
      hide SeqRecord.View, TrimBack, LinkedForm, Linked;
      LinkIsPut(s, at, whole);
      SplicedViews(was, at, seg, s);
    }

    lemma Bounds(i: nat)
      requires Valid() && i < |nodes|
      ensures Segments()[i].start == nodes[i].start && Segments()[i].nxt == nodes[i].nxt && lastAt < |nodes|
    {
      hide Distinct, Linked;
    }

    lemma LastStored()
      requires Valid()
      ensures Segments() == [] || lastAt < |Segments()|
      ensures nodes == [] ==> Segments() == []
    {
    }

    lemma EndsThere()
      requires Chained() && nodes != []
      ensures nodes[|nodes| - 1].next == null
    {
      assert Linked(nodes, |nodes| - 1);
    }

    /** Compares a record with the run that begins at `fr` and ends with `cp`, and drops, trims or links it. */
    method SpliceIn(seg: SeqRecord, fr: int, cp: SeqRecord, ghost pre: nat, ghost at: nat) returns (code: int)
      requires Valid() && seg !in nodes && seg.next == null && pre < |nodes|
      requires at == RunEnd(Segments(), pre) && cp == nodes[at] && fr == nodes[pre].start
      modifies this, cp`next, seg
      ensures Valid()
      ensures Outcome(Segments(), lastAt, code) == Splice(old(Segments()), old(lastAt), pre, old(seg.View()))
      ensures nodes == if code == 1 then old(nodes) else Put(old(nodes), at + 1, seg)
    {
      hide Distinct, RunEnd, Link, Put, Splice, Linked, Views, SeqRecord.View, Lane.Valid, Lane.Chained, TrimFront;
      ghost var s := Segments();
      ghost var whole := seg.View();
      var bk := cp.nxt - 1;
      Bounds(pre);
      Bounds(at);
      seg.SameBounds();
      SpliceCases(s, lastAt, pre, whole);
      if fr <= seg.start <= bk {
        if seg.nxt - 1 <= bk {
          return 1;
        }
        Overlap(cp, at, seg);
      } else {
        Follow(cp, at, seg);
      }
      return 0;
    }

    /** Links what of a record reaches past the run that ends with `cp`. */
    method Overlap(cp: SeqRecord, ghost at: nat, seg: SeqRecord)
      requires Valid() && at < |nodes| && cp == nodes[at] && seg !in nodes && seg.next == null
      modifies this, cp`next, seg
      ensures Valid()
      ensures nodes == Put(old(nodes), at + 1, seg)
      ensures Segments() == Link(old(Segments()), at, TrimFront(old(seg.View()), old(cp.nxt) - 1)) && lastAt == at + 1
    {
      hide Distinct, Linked, Link, TrimFront;
      ghost var s := Segments();
      seg.DropFront(cp.nxt - 1);
      SameViews(nodes, s);
      hide Views, SeqRecord.View;
      LinkAfter(cp, at, seg);
      SetLast(seg, at + 1);
    }

    /** Links a record that leaves a gap or continues the run; at the end of the list `last` stays where it is. */
    method Follow(cp: SeqRecord, ghost at: nat, seg: SeqRecord)
      requires Valid() && at < |nodes| && cp == nodes[at] && seg !in nodes && seg.next == null
      modifies this, cp`next, seg
      ensures Valid()
      ensures nodes == Put(old(nodes), at + 1, seg)
      ensures Segments() == Link(old(Segments()), at, old(seg.View()))
      ensures lastAt == if at + 1 < |old(nodes)| then at + 1 else old(lastAt)
    {
      hide Distinct, Link, Views, SeqRecord.View;
      assert Linked(nodes, at);
      hide Linked;
      var aft := cp.next;
      LinkAfter(cp, at, seg);
      if aft != null {
        SetLast(seg, at + 1);
      }
    }

    /** Remembers a record of the list as the one last inserted. */
    method SetLast(seg: SeqRecord, ghost at: nat)
      requires Chained() && at < |nodes| && seg == nodes[at]
      modifies this`last, this`lastAt
      ensures Valid() && last == seg && lastAt == at && Segments() == old(Segments())
    {
      last := seg;
      lastAt := at;
    }

    /** Finds the run to compare a record that starts at `q` with; `cp` is null when it goes after `before`,
      * the tail. */
    method Locate(q: int) returns (before: SeqRecord, cp: SeqRecord?, ghost pre: nat, ghost at: nat)
      requires Valid() && nodes != []
      ensures pre < |nodes| && before == nodes[pre]
      ensures cp == null ==> Anchor(Segments(), lastAt, q).None? && pre == |nodes| - 1
      ensures cp != null ==>
                Anchor(Segments(), lastAt, q) == Some(pre) && at == RunEnd(Segments(), pre) && cp == nodes[at]
    {
      hide Distinct, RunEnd, Walk;
      at := 0;
      if last.nxt == q {
        before, pre := last, lastAt;
        cp, at := ContSeq(last, lastAt);
      } else {
        ghost var n;
        before, cp, n := Search(q);
        pre := if n == 0 then 0 else n - 1;
        if cp != null {
          cp, at := ContSeq(before, pre);
        }
      }
    }

    /** Puts one record in order: drops it, or trims it and links it in. */
    method Insert(seg: SeqRecord) returns (code: int)
      requires Valid() && seg !in nodes && seg.next == null
      modifies this, nodes, seg
      ensures Valid()
      ensures Outcome(Segments(), lastAt, code) == TcpSegments.Insert(old(Segments()), old(lastAt), old(seg.View()))
      ensures forall n :: n in nodes ==> n in old(nodes) || n == seg
    {
      hide Distinct, RunEnd, Splice, Anchor, Views, TcpSegments.Insert;
      InsertCases(Segments(), lastAt, seg.View());
      if first == null {
        Begin(seg);
        code := 0;
      } else {
        var before, cp;
        ghost var pre, at;
        before, cp, pre, at := Locate(seg.start);
        if cp == null {
          Append(before, seg);
          code := 0;
        } else {
          code := SpliceIn(seg, before.start, cp, pre, at);
        }
      }
    }

    /** The first record of the list. */
    method Begin(seg: SeqRecord)
      requires Valid() && first == null && seg.next == null
      modifies this
      ensures Valid() && Segments() == [seg.View()] && lastAt == 0 && nodes == [seg]
    {
      first, last := seg, seg;
      nodes, lastAt := [seg], 0;
      SameViews(nodes, [seg.View()]);
    }

    /** Links a record at the end of the list. */
    method Append(tail: SeqRecord, seg: SeqRecord)
      requires Valid() && nodes != [] && tail == nodes[|nodes| - 1] && seg !in nodes && seg.next == null
      modifies this, tail`next, seg`next
      ensures Valid()
      ensures Segments() == old(Segments()) + [old(seg.View())] && lastAt == |old(nodes)|
      ensures nodes == Put(old(nodes), |old(nodes)|, seg)
    {
      hide Distinct, Linked, SeqRecord.View, Views;
      ghost var s := Segments();
      EndsThere();
      Join(tail, |nodes| - 1, seg);
      last := seg;
      lastAt := |nodes| - 1;
      SameViews(nodes, s + [old(seg.View())]);
    }
  }

  lemma SpliceCases(s: seq<Segment>, last: nat, pre: nat, seg: Segment)
    requires last < |s| && pre < |s|
    ensures var o := Splice(s, last, pre, seg);
            var cp := RunEnd(s, pre);
            var bk := s[cp].nxt - 1;
            if s[pre].start <= seg.start <= bk then
              o == if seg.nxt - 1 <= bk then Outcome(s, last, 1)
                   else Outcome(Link(s, cp, TrimFront(seg, bk)), cp + 1, 0)
            else o == Outcome(Link(s, cp, seg), if cp + 1 < |s| then cp + 1 else last, 0)
  {
  }

  lemma InsertCases(s: seq<Segment>, last: nat, seg: Segment)
    requires s == [] || last < |s|
    ensures var o := TcpSegments.Insert(s, last, seg);
            && (s == [] ==> o == Outcome([seg], 0, 0))
            && (s != [] && Anchor(s, last, seg.start).None? ==> o == Outcome(s + [seg], |s|, 0))
            && (s != [] && Anchor(s, last, seg.start).Some? ==>
                  o == Splice(s, last, Anchor(s, last, seg.start).value, seg))
  {
  }

  lemma SameViews(nodes: seq<SeqRecord>, s: seq<Segment>)
    requires |nodes| == |s| && forall i :: 0 <= i < |s| ==> nodes[i].View() == s[i]
    ensures Views(nodes) == s
  {
  }

  /** What remains of a segment that is linked after record `at`. */
  ghost function LinkedForm(s: seq<Segment>, at: nat, seg: Segment): Segment
    requires at < |s|
  {
    if at + 1 < |s| then TrimBack(seg, s[at + 1].start) else seg
  }

  lemma PutLinked(nodes: seq<SeqRecord>, at: nat, seg: SeqRecord)
    requires at < |nodes|
    requires forall i :: 0 <= i < |nodes| && i != at ==> Linked(nodes, i)
    requires nodes[at].next == seg && seg.next == Nth(nodes, at + 1)
    ensures var r := Put(nodes, at + 1, seg); forall i :: 0 <= i < |r| ==> Linked(r, i)
  {
    var r := Put(nodes, at + 1, seg);
    forall i | 0 <= i < |nodes| + 1 ensures Linked(r, i) {
      if i < at { assert Linked(nodes, i); } else if i > at + 1 { assert Linked(nodes, i - 1); }
    }
  }

  lemma LinkIsPut(s: seq<Segment>, at: nat, seg: Segment)
    requires at < |s|
    ensures Link(s, at, seg) == Put(s, at + 1, LinkedForm(s, at, seg))
  {
  }

  lemma SplicedViews(nodes: seq<SeqRecord>, at: nat, seg: SeqRecord, s: seq<Segment>)
    requires at < |nodes| == |s|
    requires forall i :: 0 <= i < |s| ==> nodes[i].View() == s[i]
    ensures Views(Put(nodes, at + 1, seg)) == Put(s, at + 1, seg.View())
  {
  }

  lemma LaterAreNew(segs: seq<SeqRecord>, i: nat)
    requires Distinct(segs) && i < |segs|
    ensures forall j :: i <= j < |segs| ==> segs[j] !in segs[..i]
    ensures forall j :: i < j < |segs| ==> segs[j] != segs[i]
  {
  }

  ghost function Records(segs: seq<SeqRecord>): set<SeqRecord> {
    set n | n in segs
  }

  /** Both directions of a flow; each call changes the list of one of them. */
  class Order {
    const src: Lane
    const dst: Lane

    constructor ()
      ensures Valid() && fresh(src) && fresh(dst) && src.nodes == [] && dst.nodes == []
    {
      src := new Lane();
      dst := new Lane();
    }

    ghost predicate Valid()
      reads this, src, dst, src.nodes, dst.nodes
    {
      src != dst && src.Valid() && dst.Valid() && (forall n :: n in src.nodes ==> n !in dst.nodes)
    }

    method TcpOrder(seg: SeqRecord, fromSrc: bool) returns (code: int)
      requires Valid() && seg !in src.nodes && seg !in dst.nodes && seg.next == null
      modifies if fromSrc then src else dst, if fromSrc then src.nodes else dst.nodes, seg
      ensures Valid()
      ensures var (lane, other) := if fromSrc then (src, dst) else (dst, src);
              && Outcome(lane.Segments(), lane.lastAt, code)
                 == Insert(old(lane.Segments()), old(lane.lastAt), old(seg.View()))
              && other.Segments() == old(other.Segments()) && other.nodes == old(other.nodes)
              && (forall n :: n in lane.nodes ==> n in old(lane.nodes) || n == seg)
    {
      hide Views, TcpSegments.Insert;
      ghost var (lane, other) := if fromSrc then (src, dst) else (dst, src);
      assert forall i :: 0 <= i < |other.nodes| ==> other.nodes[i] !in lane.nodes && other.nodes[i] != seg;
      if fromSrc {
        code := src.Insert(seg);
      } else {
        code := dst.Insert(seg);
      }
    }

    /** A whole run of both directions, interleaved in any way: each ends with just what its own segments,
      * one after the other, make of it. */
    method TcpOrderAll(segs: seq<SeqRecord>, fromSrc: seq<bool>)
      requires Valid() && src.nodes == dst.nodes == []
      requires |segs| == |fromSrc| && Distinct(segs) && forall i :: 0 <= i < |segs| ==> segs[i].next == null
      modifies src, dst, Records(segs)
      ensures Valid()
      ensures src.Segments() == Feed(Side(old(Views(segs)), fromSrc, true)).segs
      ensures dst.Segments() == Feed(Side(old(Views(segs)), fromSrc, false)).segs
    {
      hide Views, Distinct, Lane.Valid, Insert, SeqRecord.View, Fed, Feed, Side, Lane.Segments;
      ghost var all := Views(segs);
      SideNone(all, fromSrc, src.lastAt, dst.lastAt);
      src.LastStored();
      dst.LastStored();
      var i := 0;
      while i < |segs|
        invariant 0 <= i <= |segs| && Valid()
        invariant forall n :: n in src.nodes || n in dst.nodes ==> n in segs[..i] && n in Records(segs)
        invariant forall j :: i <= j < |segs| ==> segs[j].next == null && segs[j].View() == all[j]
        invariant Fed(src.Segments(), src.lastAt, Side(all[..i], fromSrc[..i], true))
        invariant Fed(dst.Segments(), dst.lastAt, Side(all[..i], fromSrc[..i], false))
      {
        LaterAreNew(segs, i);
        SideStep(all, fromSrc, i);
        assert segs[..i + 1] == segs[..i] + [segs[i]];
        src.LastStored();
        dst.LastStored();
        FedMore(src.Segments(), src.lastAt, Side(all[..i], fromSrc[..i], true), all[i]);
        FedMore(dst.Segments(), dst.lastAt, Side(all[..i], fromSrc[..i], false), all[i]);
        var code := TcpOrder(segs[i], fromSrc[i]);
        i := i + 1;
      }
      assert all[..i] == all && fromSrc[..i] == fromSrc;
      FedAll(src.Segments(), src.lastAt, Side(all, fromSrc, true));
      FedAll(dst.Segments(), dst.lastAt, Side(all, fromSrc, false));
    }
  }

  /** The list and the last-inserted record are what a run of arrivals leaves. */
  ghost predicate Fed(s: seq<Segment>, last: nat, a: seq<Segment>) {
    s == Feed(a).segs && (a != [] ==> last == Feed(a).last)
  }

  lemma FedMore(s: seq<Segment>, last: nat, a: seq<Segment>, seg: Segment)
    requires Fed(s, last, a) && (s == [] || last < |s|)
    ensures var o := Insert(s, last, seg); Fed(o.segs, o.last, a + [seg])
  {
    hide Insert;
    InsertFirst(last, seg);
    FeedStep(a + [seg]);
    assert (a + [seg])[..|a|] == a;
  }

  lemma FedAll(s: seq<Segment>, last: nat, a: seq<Segment>)
    requires Fed(s, last, a)
    ensures s == Feed(a).segs
  {
  }

  /** The segments of one direction, in the order of their arrival. */
  ghost function Side(a: seq<Segment>, fromSrc: seq<bool>, side: bool): seq<Segment>
    requires |a| == |fromSrc|
  {
    if a == [] then []
    else
      var n := |a| - 1;
      Side(a[..n], fromSrc[..n], side) + (if fromSrc[n] == side then [a[n]] else [])
  }

  lemma SideNone(a: seq<Segment>, fromSrc: seq<bool>, l: nat, m: nat)
    requires |a| == |fromSrc|
    ensures Fed([], l, Side(a[..0], fromSrc[..0], true)) && Fed([], m, Side(a[..0], fromSrc[..0], false))
  {
  }

  lemma SideStep(a: seq<Segment>, fromSrc: seq<bool>, i: nat)
    requires i < |a| == |fromSrc|
    ensures Side(a[..i + 1], fromSrc[..i + 1], fromSrc[i]) == Side(a[..i], fromSrc[..i], fromSrc[i]) + [a[i]]
    ensures Side(a[..i + 1], fromSrc[..i + 1], !fromSrc[i]) == Side(a[..i], fromSrc[..i], !fromSrc[i])
  {
    assert a[..i + 1][..i] == a[..i] && fromSrc[..i + 1][..i] == fromSrc[..i];
  }
}
