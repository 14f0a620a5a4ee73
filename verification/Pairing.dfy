/** The pairs of one flow: made from request records, answered from response records, and reported once each. */
module Pairing {
  import opened Lists
  import opened Matching
  import opened Options
  import opened PacketTypes

  class Pair {
    const id: nat
    const nxt: int
    var reqDone: bool
    var rsp: Option<nat>
    var rspDone: bool
    var next: Pair?

    constructor (r: Rec)
      ensures View() == NewPair(r) && next == null && id == r.id
    {
      id, nxt := r.id, r.ends;
      reqDone, rsp, rspDone, next := false, None, false, null;
    }

    function View(): PairState
      reads this`reqDone, this`rsp, this`rspDone
    {
      PairState(id, nxt, reqDone, rsp, rspDone)
    }
  }

  ghost function Views(nodes: seq<Pair>): (v: seq<PairState>)
    reads nodes`reqDone, nodes`rsp, nodes`rspDone
    ensures |v| == |nodes|
    ensures forall i :: 0 <= i < |v| ==> v[i] == nodes[i].View()
  {
    if nodes == [] then [] else Views(nodes[..|nodes| - 1]) + [nodes[|nodes| - 1].View()]
  }

  ghost function Nth(nodes: seq<Pair>, i: nat): Pair? {
    if i < |nodes| then nodes[i] else null
  }

  ghost predicate Linked(nodes: seq<Pair>, i: nat)
    requires i < |nodes|
    reads nodes`next
  {
    nodes[i].next == Nth(nodes, i + 1)
  }

  lemma SameViews(nodes: seq<Pair>, v: seq<PairState>)
    requires |v| == |nodes| && forall i :: 0 <= i < |v| ==> v[i] == nodes[i].View()
    ensures Views(nodes) == v
  {
  }

  /** Every request record was made into at most one pair, exactly when it was looked at. */
  ghost predicate Traced(nodes: seq<Pair>, made: map<nat, Pair>, known: set<nat>, src: seq<Rec>, dst: seq<Rec>) {
    && (forall n :: n in nodes ==> n.id in made && made[n.id] == n)
    && (forall k :: k in made ==> made[k].id == k && k in known)
    && (forall r :: r in src || r in dst ==> r.id in known)
    && (forall i, j :: 0 <= i < j < |src| ==> src[i].id != src[j].id)
    && (forall r :: r in src && r.kind == Req ==> (r.processed <==> r.id in made))
  }

  lemma TracedMake(nodes: seq<Pair>, made: map<nat, Pair>, known: set<nat>, src: seq<Rec>, dst: seq<Rec>,
                   i: nat, p: Pair)
    requires Traced(nodes, made, known, src, dst) && i < |src| && Pending(src[i], Req) && p.id == src[i].id
    ensures src[i].id !in made
    ensures Traced(nodes + [p], made[p.id := p], known, src[i := src[i].(processed := true)], dst)
  {
    assert src[i] in src;
    var after := src[i := src[i].(processed := true)];
    forall r | r in after
      ensures r.id in known && (r.kind == Req ==> (r.processed <==> r.id in made[p.id := p]))
    {
      var j :| 0 <= j < |after| && after[j] == r;
      assert src[j] in src;
      assert j != i ==> src[j].id != src[i].id;
    }
  }

  /** The response given to each pair that has one. */
  ghost function Answers(made: map<nat, Pair>): map<nat, nat>
    reads made.Values`rsp
  {
    map k | k in made && made[k].rsp.Some? :: made[k].rsp.value
  }

  /** Every response record was given to at most one pair, and none that is yet to be looked at. */
  ghost predicate Shared(answers: map<nat, nat>, known: set<nat>, dst: seq<Rec>) {
    && (forall i, j :: 0 <= i < j < |dst| ==> dst[i].id != dst[j].id)
    && (forall k :: k in answers ==> answers[k] in known)
    && (forall r, k :: r in dst && Pending(r, Rsp) && k in answers ==> answers[k] != r.id)
    && (forall k, l :: k in answers && l in answers && answers[k] == answers[l] ==> k == l)
  }

  /** The response was given to no pair, and is not waiting to be. */
  ghost predicate Free(answers: map<nat, nat>, known: set<nat>, dst: seq<Rec>, id: nat) {
    && id in known
    && (forall k :: k in answers ==> answers[k] != id)
    && (forall r :: r in dst && r.id == id ==> !Pending(r, Rsp))
  }

  lemma SharedMark(answers: map<nat, nat>, known: set<nat>, dst: seq<Rec>, j: nat)
    requires Shared(answers, known, dst) && j < |dst| && Pending(dst[j], Rsp) && dst[j].id in known
    ensures var after := dst[j := dst[j].(processed := true)];
            Shared(answers, known, after) && Free(answers, known, after, dst[j].id)
  {
    var after := dst[j := dst[j].(processed := true)];
    assert dst[j] in dst;
    forall r | r in after
      ensures r.id == dst[j].id ==> !Pending(r, Rsp)
      ensures Pending(r, Rsp) ==> r in dst
    {
      var i :| 0 <= i < |after| && after[i] == r;
      assert dst[i] in dst;
    }
  }

  lemma SharedGive(answers: map<nat, nat>, known: set<nat>, dst: seq<Rec>, k: nat, id: nat)
    requires Shared(answers, known, dst) && k !in answers && Free(answers, known, dst, id)
    ensures Shared(answers[k := id], known, dst)
  {
  }

  lemma FreeIsNew(answers: map<nat, nat>, known: set<nat>, dst: seq<Rec>, id: nat)
    requires Free(answers, known, dst, id)
    ensures forall k :: k in answers ==> answers[k] != id
  {
  }

  lemma SharedKnown(answers: map<nat, nat>, known: set<nat>, dst: seq<Rec>, id: nat)
    requires Shared(answers, known, dst)
    ensures Shared(answers, known + {id}, dst)
  {
  }

  lemma SharedArrive(answers: map<nat, nat>, known: set<nat>, dst: seq<Rec>, k: nat, r: Rec)
    requires Shared(answers, known, dst) && r.id !in known && k <= |dst|
    requires forall q :: q in dst ==> q.id in known
    ensures Shared(answers, known + {r.id}, dst[..k] + [r] + dst[k..])
  {
    var after := dst[..k] + [r] + dst[k..];
    forall i, j | 0 <= i < j < |after| ensures after[i].id != after[j].id {
      if i != k && j != k {
        assert dst[if i < k then i else i - 1].id != dst[if j < k then j else j - 1].id;
      } else {
        assert dst[if i == k then j - 1 else i] in dst;
      }
    }
  }

  /** The reports of one pair agree with its flags, and a pair that left the list is fully reported. */
  ghost predicate Settled(p: Pair, nodes: seq<Pair>, reqEvents: seq<nat>, rspEvents: seq<nat>)
    reads p`reqDone, p`rsp, p`rspDone
  {
    && (p.id in reqEvents <==> p.reqDone)
    && (p.rspDone ==> p.reqDone && p.rsp.Some?)
    && (p.rsp.Some? ==> (p.rsp.value in rspEvents <==> p.rspDone))
    && (p !in nodes ==> p.reqDone && (p.rsp.Some? ==> p.rspDone))
  }

  /** Each report was made once, and every pair ever made is settled. */
  ghost predicate AllSettled(nodes: seq<Pair>, made: map<nat, Pair>, reqEvents: seq<nat>, rspEvents: seq<nat>)
    reads made.Values`reqDone, made.Values`rsp, made.Values`rspDone
  {
    && Distinct(reqEvents) && Distinct(rspEvents)
    && (forall k :: k in reqEvents ==> k in made) && (forall e :: e in rspEvents ==> e in Answers(made).Values)
    && (forall k :: k in made ==> Settled(made[k], nodes, reqEvents, rspEvents))
  }

  lemma SettledMake(nodes: seq<Pair>, made: map<nat, Pair>, reqEvents: seq<nat>, rspEvents: seq<nat>, p: Pair)
    requires AllSettled(nodes, made, reqEvents, rspEvents)
    requires p.id !in made && !p.reqDone && !p.rspDone && p.rsp.None?
    ensures AllSettled(nodes + [p], made[p.id := p], reqEvents, rspEvents)
  {
    hide Distinct;
    var after := made[p.id := p];
    AnswersMake(made, p);
    forall k | k in after ensures Settled(after[k], nodes + [p], reqEvents, rspEvents) {
      if k != p.id { assert Settled(made[k], nodes, reqEvents, rspEvents); }
    }
  }

  lemma AnswersMake(made: map<nat, Pair>, p: Pair)
    requires p.id !in made && p.rsp.None?
    ensures Answers(made[p.id := p]) == Answers(made)
  {
  }

  lemma AnswersAre(made: map<nat, Pair>)
    ensures forall k :: k in made && made[k].rsp.Some? ==>
              k in Answers(made) && Answers(made)[k] == made[k].rsp.value && made[k].rsp.value in Answers(made).Values
  {
    forall k | k in made && made[k].rsp.Some?
      ensures k in Answers(made) && made[k].rsp.value in Answers(made).Values
    {
      assert Answers(made)[k] == made[k].rsp.value;
    }
  }

  lemma NotReported(nodes: seq<Pair>, made: map<nat, Pair>, reqEvents: seq<nat>, rspEvents: seq<nat>, id: nat)
    requires AllSettled(nodes, made, reqEvents, rspEvents) && forall k :: k in Answers(made) ==> Answers(made)[k] != id
    ensures id !in rspEvents
  {
    hide Distinct, Answers;
  }

  lemma TracedMark(nodes: seq<Pair>, made: map<nat, Pair>, known: set<nat>, src: seq<Rec>, dst: seq<Rec>, j: nat)
    requires Traced(nodes, made, known, src, dst) && j < |dst|
    ensures Traced(nodes, made, known, src, dst[j := dst[j].(processed := true)]) && dst[j].id in known
  {
    assert dst[j] in dst;
  }

  lemma {:induction false} DistinctOnce(s: seq<nat>, x: nat)
    requires Distinct(s)
    ensures multiset(s)[x] == if x in s then 1 else 0
  {
    if s != [] {
      var n := |s| - 1;
      assert s == s[..n] + [s[n]];
      assert Distinct(s[..n]);
      DistinctOnce(s[..n], x);
    }
  }

  /** Pair `j` when the first `i` pairs of a list were visited. */
  ghost predicate VisitedAt(nodes: seq<Pair>, v: seq<PairState>, i: nat, j: nat)
    requires j < |nodes| == |v|
    reads nodes`reqDone, nodes`rsp, nodes`rspDone
  {
    nodes[j].View() == if j < i then Reported(v[j]) else v[j]
  }

  ghost predicate AsVisited(nodes: seq<Pair>, v: seq<PairState>, i: nat)
    requires |nodes| == |v|
    reads nodes`reqDone, nodes`rsp, nodes`rspDone
  {
    forall j :: 0 <= j < |nodes| ==> VisitedAt(nodes, v, i, j)
  }

  /** How many requests and responses of the first `i` pairs are new. */
  ghost predicate Summed(v: seq<PairState>, i: nat, requests: nat, responses: nat) {
    i <= |v| && requests == |NewRequests(v[..i])| && responses == |NewResponses(v[..i])|
  }

  lemma SummedStep(v: seq<PairState>, i: nat, requests: nat, responses: nat, q: nat, s: nat)
    requires Summed(v, i, requests, responses) && i < |v|
    requires q + |NewRequests(v[..i])| == |NewRequests(v[..i + 1])|
    requires s + |NewResponses(v[..i])| == |NewResponses(v[..i + 1])|
    ensures Summed(v, i + 1, requests + q, responses + s)
  {
  }

  /** The first FIN of a list, found by walking it. */
  method FindFin(s: seq<Rec>) returns (fin: Option<Rec>)
    ensures fin == FirstFin(s)
  {
    fin := None;
    var i := 0;
    while i < |s|
      invariant 0 <= i <= |s| && FirstFin(s) == FirstFin(s[i..])
    {
      if s[i].fin {
        return Some(s[i]);
      }
      i := i + 1;
    }
  }

  class Flow {
    var src: seq<Rec>
    var dst: seq<Rec>
    var pairF: Pair?
    var pairE: Pair?
    ghost var nodes: seq<Pair>
    /** Every pair ever made, by the record of its request. */
    ghost var made: map<nat, Pair>
    /** The records that ever arrived. */
    ghost var known: set<nat>
    /** The records of the requests and of the responses reported, in order. */
    ghost var reqEvents: seq<nat>
    ghost var rspEvents: seq<nat>

    constructor ()
      ensures Valid() && made == map[] && known == {} && nodes == []
      ensures reqEvents == rspEvents == [] && src == dst == []
    {
      src, dst := [], [];
      pairF, pairE := null, null;
      nodes, made, known, reqEvents, rspEvents := [], map[], {}, [], [];
    }

    /** `nodes` lists the chain of pairs. */
    ghost predicate Chained()
      reads this`nodes, this`pairF, this`pairE, nodes`next
    {
      && Distinct(nodes)
      && pairF == Nth(nodes, 0)
      && (nodes != [] ==> pairE == nodes[|nodes| - 1])
      && (forall i :: 0 <= i < |nodes| ==> Linked(nodes, i))
    }

    ghost predicate Identified()
      reads this`src, this`dst, this`nodes, this`made, this`known
    {
      Traced(nodes, made, known, src, dst)
    }

    ghost predicate Matched()
      reads this`dst, this`made, this`known, made.Values`rsp
    {
      Shared(Answers(made), known, dst)
    }

    ghost predicate Accounted()
      reads this`nodes, this`made, this`reqEvents, this`rspEvents
      reads made.Values`reqDone, made.Values`rsp, made.Values`rspDone
    {
      AllSettled(nodes, made, reqEvents, rspEvents)
    }

    ghost predicate Valid()
      reads this, nodes`next, made.Values`reqDone, made.Values`rsp, made.Values`rspDone
    {
      Chained() && Identified() && Matched() && Accounted()
    }

    ghost function Members(): set<Pair>
      reads this`nodes
    {
      set p | p in nodes
    }

    ghost function Pairs(): seq<PairState>
      reads this`nodes, nodes`reqDone, nodes`rsp, nodes`rspDone
    {
      Views(nodes)
    }

    /** A new record comes into one of the lists, at any place. */
    method Arrive(r: Rec, k: nat, fromSrc: bool)
      requires Valid() && r.id !in known && !r.processed && k <= (if fromSrc then |src| else |dst|)
      modifies this`src, this`dst, this`known
      ensures Valid() && known == old(known) + {r.id}
      ensures src == if fromSrc then old(src)[..k] + [r] + old(src)[k..] else old(src)
      ensures dst == if fromSrc then old(dst) else old(dst)[..k] + [r] + old(dst)[k..]
    {
      hide Chained, Accounted, Shared, Answers;
      if fromSrc {
        SharedKnown(Answers(made), known, dst, r.id);
        src := src[..k] + [r] + src[k..];
      } else {
        SharedArrive(Answers(made), known, dst, k, r);
        dst := dst[..k] + [r] + dst[k..];
      }
      known := known + {r.id};
    }

    /** The connection starts anew: all records go, the pairs stay. */
    method ResetOrder()
      requires Valid()
      modifies this`src, this`dst
      ensures Valid() && src == dst == []
    {
      hide Chained, Accounted, Answers;
      src, dst := [], [];
    }

    /** Adds a pair at the end of the chain. */
    method AddPair(h: Pair)
      requires Chained() && h !in nodes
      modifies this`pairF, this`pairE, this`nodes, Members()`next, h`next
      ensures Chained() && nodes == old(nodes) + [h]
      ensures Pairs() == old(Pairs()) + [h.View()]
    {
      hide Distinct;
      ghost var was := nodes;
      if pairF == null {
        pairF := h;
      } else {
        pairE.next := h;
      }
      pairE := h;
      pairE.next := null;
      nodes := Put(was, |was|, h);
      SameViews(nodes, old(Pairs()) + [h.View()]);
      PutDistinct(was, |was|, h);
      forall i | 0 <= i < |nodes| ensures Linked(nodes, i) {
        if i < |was| - 1 {
          assert old(Linked(was, i));
          assert was[i] in was;
          Differ(was, i, |was| - 1);
        }
      }
    }

    /** Looks at one pending request record: marks it, and makes a pair of it. */
    method MakePair(i: nat)
      requires Valid() && i < |src| && Pending(src[i], Req)
      modifies this`src, this`pairF, this`pairE, this`nodes, this`made, Members()`next
      ensures Valid() && src == old(src)[i := old(src)[i].(processed := true)]
      ensures Pairs() == old(Pairs()) + [NewPair(old(src)[i])]
      ensures old(nodes) <= nodes && fresh(Members() - old(Members()))
      ensures made.Keys == old(made).Keys + {src[i].id} && forall k :: k in old(made) ==> made[k] == old(made)[k]
      ensures fresh(made.Values - old(made.Values))
    {
      hide Chained, Distinct, Traced, Shared, Answers, AllSettled, Pairs;
      var r := src[i];
      src := src[i := r.(processed := true)];
      var newPair := new Pair(r);
      TracedMake(nodes, made, known, old(src), dst, i, newPair);
      AddPair(newPair);
      made := made[r.id := newPair];
      AnswersMake(old(made), newPair);
      SettledMake(old(nodes), old(made), reqEvents, rspEvents, newPair);
    }

    /** First step: makes pairs of the pending requests among the first `n` records of the source. */
    method ExtractRequests(n: nat) returns (reqn: nat)
      requires Valid() && n <= |src|
      modifies this`src, this`pairF, this`pairE, this`nodes, this`made, Members()`next
      ensures Valid() && src == Mark(old(src), n, Req)
      ensures Pairs() == old(Pairs()) + Requests(old(src), n) && reqn == |Requests(old(src), n)|
      ensures old(nodes) <= nodes && fresh(Members() - old(Members())) && fresh(made.Values - old(made.Values))
      ensures forall k :: k in old(made) ==> k in made && made[k] == old(made)[k]
      ensures forall k :: k in made <==> k in old(made) || k in Ids(Requests(old(src), n))
    {
      hide Valid, Pairs, Mark, Ids, Requests;
      var i := 0;
      reqn := 0;
      IdsNone(src);
      MarkNone(src, Req);
      while i < n
        invariant 0 <= i <= n && Valid() && src == Mark(old(src), i, Req)
        invariant Pairs() == old(Pairs()) + Requests(old(src), i) && reqn == |Requests(old(src), i)|
        invariant old(nodes) <= nodes && fresh(Members() - old(Members())) && fresh(made.Values - old(made.Values))
        invariant forall k :: k in old(made) ==> k in made && made[k] == old(made)[k]
        invariant forall k :: k in made <==> k in old(made) || k in Ids(Requests(old(src), i))
      {
        MarkStep(old(src), i, Req);
        IdsStep(old(src), i);
        if src[i].kind == Req && !src[i].processed {
          reqn := reqn + 1;
          MakePair(i);
        }
        i := i + 1;
      }
    }

    /** Moves the cursor to the first pair that does not let it pass. */
    method SeekPair(tmp: Pair?, ghost cur: nat, ack: int) returns (at: Pair?, found: bool, ghost k: nat)
      requires Chained() && cur <= |nodes| && tmp == Nth(nodes, cur)
      ensures k == Seek(Pairs(), cur, ack) && at == Nth(nodes, k)
      ensures found <==> at != null && at.rsp.None? && at.nxt == ack
    {
      hide Distinct;
      at, found, k := tmp, false, cur;
      while at != null && at.nxt <= ack
        invariant cur <= k <= |nodes| && at == Nth(nodes, k) && !found
        invariant Seek(Pairs(), cur, ack) == Seek(Pairs(), k, ack)
        decreases |nodes| - k
      {
        if at.rsp.None? && at.nxt == ack {
          found := true;
          return;
        }
        assert Linked(nodes, k);
        at := at.next;
        k := k + 1;
      }
    }

    /** Stores a response in a pair of the chain. */
    method Store(p: Pair, ghost k: nat, id: nat)
      requires Chained() && Identified() && k < |nodes| && p == nodes[k] && p.rsp.None?
      modifies p`rsp
      ensures Chained() && Identified() && p.id in made && made[p.id] == p
      ensures p.View() == old(p.View()).(rsp := Some(id))
      ensures Pairs() == old(Pairs())[k := old(Pairs())[k].(rsp := Some(id))]
      ensures p.id !in old(Answers(made)) && Answers(made) == old(Answers(made))[p.id := id]
      ensures forall q :: q in made && q != p.id ==> made[q] != p
    {
      hide Traced, Distinct, Linked;
      TracedNode(nodes, made, known, src, dst, p);
      p.rsp := Some(id);
      forall i | 0 <= i < |nodes| && i != k ensures nodes[i] != p { Differ(nodes, i, k); }
      SameViews(nodes, old(Pairs())[k := old(Pairs())[k].(rsp := Some(id))]);
      forall q | q in made ensures made[q].rsp == if q == p.id then Some(id) else old(made[q].rsp) { }
    }

    /** Attaches a response to a pair that has none. */
    method Respond(p: Pair, ghost k: nat, id: nat)
      requires Valid() && k < |nodes| && p == nodes[k] && p.rsp.None?
      requires Free(Answers(made), known, dst, id)
      modifies p`rsp
      ensures Valid() && Pairs() == old(Pairs())[k := old(Pairs())[k].(rsp := Some(id))]
    {
      hide Chained, Identified, Distinct, Shared, Free, Answers, Pairs;
      ghost var answers := Answers(made);
      FreeIsNew(answers, known, dst, id);
      NotReported(nodes, made, reqEvents, rspEvents, id);
      Store(p, k, id);
      SharedGive(answers, known, dst, p.id, id);
      forall e | e in answers.Values ensures e in answers[p.id := id].Values {
        ghost var q :| q in answers && answers[q] == e;
        assert answers[p.id := id][q] == e;
      }
      forall q | q in made ensures Settled(made[q], nodes, reqEvents, rspEvents) {
        assert old(Settled(made[q], nodes, reqEvents, rspEvents));
      }
    }

    /** Marks one record of the destination as looked at. */
    method MarkDst(j: nat)
      requires Valid() && j < |dst| && Pending(dst[j], Rsp)
      modifies this`dst
      ensures Valid() && dst == old(dst)[j := old(dst)[j].(processed := true)]
      ensures Free(Answers(made), known, dst, dst[j].id)
    {
      hide Chained, Traced, Shared, Free, Answers, AllSettled;
      TracedMark(nodes, made, known, src, dst, j);
      SharedMark(Answers(made), known, dst, j);
      dst := dst[j := dst[j].(processed := true)];
    }

    /** Second step: one cursor runs along the pairs while the pending responses among the first `n` records are
      * tried. */
    method MatchResponses(n: nat) returns (rc: int)
      requires Valid() && n <= |dst|
      modifies this`dst, Members()`rsp
      ensures Valid() && (Pairs(), dst) == Attach(old(Pairs()), 0, old(dst), 0, n)
    {
      hide Traced, Shared, Free, Answers, AllSettled, Distinct, Linked, Views, Seek;
      var tmp := pairF;
      ghost var cur: nat := 0;
      var j := 0;
      while j < n
        invariant 0 <= j <= n <= |dst| && Valid() && cur <= |nodes| && tmp == Nth(nodes, cur)
        invariant Attach(Pairs(), cur, dst, j, n) == Attach(old(Pairs()), 0, old(dst), 0, n)
      {
        if dst[j].kind == Rsp && !dst[j].processed {
          var r := dst[j];
          MarkDst(j);
          var found;
          tmp, found, cur := SeekPair(tmp, cur, r.ack);
          if tmp == null {
            return 1;
          } else if found {
            Respond(tmp, cur, r.id);
          }
        }
        j := j + 1;
      }
      return 0;
    }

    /** Makes pairs of new requests; when there are any, tries the pending responses. */
    method ExtractPair() returns (rc: int)
      requires Valid()
      modifies this`src, this`dst, this`pairF, this`pairE, this`nodes, this`made, Members()`next, Members()`rsp
      ensures Valid() && src == Mark(old(src), Upto(old(src), FinRec(old(src), old(dst))), Req)
      ensures (Pairs(), dst) == Extract(old(Pairs()), old(src), old(dst))
      ensures old(nodes) <= nodes && fresh(Members() - old(Members())) && fresh(made.Values - old(made.Values))
      ensures forall k :: k in old(made) ==> k in made && made[k] == old(made)[k]
      ensures forall k :: k in made <==>
                k in old(made) || k in Ids(Requests(old(src), Upto(old(src), FinRec(old(src), old(dst)))))
    {
      var srcFin := FindFin(src);
      var dstFin := FindFin(dst);
      var fin := EarlierFin(srcFin, dstFin);
      var n := Upto(src, fin);
      var m := Upto(dst, fin);
      hide Valid, Views, Attach, Requests, Upto, FirstFin, EarlierFin, Mark, Ids;
      var reqn := ExtractRequests(n);
      if reqn == 0 {
        assert old(Pairs()) + [] == old(Pairs());
        return 1;
      }
      rc := MatchResponses(m);
    }

    /** Reports a request for the first time. */
    method NotifyRequest(p: Pair)
      requires Valid() && p in nodes && !p.reqDone
      modifies p`reqDone, this`reqEvents
      ensures Valid() && p.View() == old(p.View()).(reqDone := true)
      ensures reqEvents == old(reqEvents) + [p.id]
    {
      hide Chained, Traced, Distinct, Shared, Answers;
      TracedNode(nodes, made, known, src, dst, p);
      assert Settled(made[p.id], nodes, reqEvents, rspEvents);
      AppendDistinct(reqEvents, p.id);
      p.reqDone := true;
      reqEvents := reqEvents + [p.id];
      forall q | q in made ensures Settled(made[q], nodes, reqEvents, rspEvents) {
        assert old(Settled(made[q], nodes, reqEvents, rspEvents));
      }
    }

    /** Reports a response for the first time. */
    method NotifyResponse(p: Pair)
      requires Valid() && p in nodes && p.reqDone && p.rsp.Some? && !p.rspDone
      modifies p`rspDone, this`rspEvents
      ensures Valid() && p.View() == old(p.View()).(rspDone := true)
      ensures rspEvents == old(rspEvents) + [p.rsp.value]
    {
      hide Chained, Traced, Distinct, Answers;
      TracedNode(nodes, made, known, src, dst, p);
      AnswersAre(made);
      hide Shared;
      assert Settled(made[p.id], nodes, reqEvents, rspEvents);
      AppendDistinct(rspEvents, p.rsp.value);
      p.rspDone := true;
      rspEvents := rspEvents + [p.rsp.value];
      forall q | q in made ensures Settled(made[q], nodes, reqEvents, rspEvents) {
        assert old(Settled(made[q], nodes, reqEvents, rspEvents));
      }
    }

    /** Lets the list begin behind its pair `k`. */
    method DropThrough(p: Pair, ghost k: nat)
      requires Valid() && k + 1 < |nodes| && p == nodes[k]
      requires forall j :: 0 <= j <= k ==> nodes[j].reqDone && (nodes[j].rsp.Some? ==> nodes[j].rspDone)
      modifies this`pairF, this`nodes
      ensures Valid() && nodes == old(nodes)[k + 1..]
    {
      ghost var was := nodes;
      assert Linked(was, k);
      hide Distinct, Traced, Shared, Answers;
      DropDistinct(was, k + 1);
      TracedDrop(was, made, known, src, dst, k + 1);
      pairF := p.next;
      nodes := was[k + 1..];
      forall i | 0 <= i < |nodes| ensures Linked(nodes, i) { assert Linked(was, k + 1 + i); }
      forall q | q in made ensures Settled(made[q], nodes, reqEvents, rspEvents) {
        assert old(Settled(made[q], nodes, reqEvents, rspEvents));
        InDrop(was, k + 1, made[q]);
      }
    }

    /** Visits one pair: reports what is new of it, or gives it up with all pairs before it. */
    method Visit(pair: Pair, ghost k: nat) returns (next: Pair?, requests: nat, responses: nat)
      requires Valid() && k < |nodes| && pair == nodes[k]
      requires forall j :: 0 <= j < k ==> nodes[j].reqDone && (nodes[j].rsp.Some? ==> nodes[j].rspDone)
      modifies this`pairF, this`nodes, this`reqEvents, this`rspEvents, pair`reqDone, pair`rspDone
      ensures Valid() && next == Nth(old(nodes), k + 1)
      ensures var p := old(pair.View());
              && pair.View() == Reported(p)
              && nodes == (if p.rsp.Some? && p.rspDone && k + 1 < |old(nodes)| then old(nodes)[k + 1..] else old(nodes))
              && reqEvents == old(reqEvents) + (if p.reqDone then [] else [p.id])
              && rspEvents == old(rspEvents) + (if p.rsp.Some? && !p.rspDone then [p.rsp.value] else [])
              && requests == (if p.reqDone then 0 else 1)
              && responses == (if p.rsp.Some? && !p.rspDone then 1 else 0)
    {
      requests, responses := 0, 0;
      assert Linked(nodes, k);
      hide Valid;
      next := pair.next;
      if !pair.reqDone {
        NotifyRequest(pair);
        requests := 1;
      }
      if pair.rsp.Some? {
        if pair.rspDone {
          if next != null {
            DropThrough(pair, k);
          }
          return;
        }
        NotifyResponse(pair);
        responses := 1;
      }
    }

    lemma NoneVisited()
      requires Valid()
      ensures Distinct(nodes) && pairF == Nth(nodes, 0) && AsVisited(nodes, Pairs(), 0)
      ensures forall i :: 0 <= i < |nodes| ==> nodes[i] in made.Values
    {
      hide Distinct, AllSettled, Shared;
      forall i | 0 <= i < |nodes| ensures nodes[i] in made.Values {
        TracedNode(nodes, made, known, src, dst, nodes[i]);
      }
    }

    /** The reports made since `a` and `b` are those of the first `i` pairs. */
    ghost predicate Logged(v: seq<PairState>, i: nat, a: seq<nat>, b: seq<nat>)
      requires i <= |v|
      reads this`reqEvents, this`rspEvents
    {
      reqEvents == a + NewRequests(v[..i]) && rspEvents == b + NewResponses(v[..i])
    }

    /** The first `i` pairs of a chain were visited: they are reported, or gone with those before them. */
    ghost predicate Visiting(was: seq<Pair>, v: seq<PairState>, i: nat, a: seq<nat>, b: seq<nat>)
      reads this`nodes, this`reqEvents, this`rspEvents, was`reqDone, was`rsp, was`rspDone
    {
      i <= |was| == |v| && nodes == was[Start(v, i)..] && AsVisited(was, v, i) && Logged(v, i, a, b)
    }

    lemma VisitingNone()
      requires Valid()
      ensures Visiting(nodes, Pairs(), 0, reqEvents, rspEvents) && Distinct(nodes) && pairF == Nth(nodes, 0)
      ensures |Pairs()| == |nodes| && Summed(Pairs(), 0, 0, 0)
    {
      hide Valid, AsVisited, Views;
      NoneVisited();
      assert nodes[0..] == nodes;
    }

    lemma VisitingAll(was: seq<Pair>, v: seq<PairState>, a: seq<nat>, b: seq<nat>)
      requires Visiting(was, v, |was|, a, b)
      ensures |was| == |v| && nodes == was[Start(v, |v|)..] && AsVisited(was, v, |v|)
      ensures reqEvents == a + NewRequests(v) && rspEvents == b + NewResponses(v)
      ensures forall q, s :: Summed(v, |was|, q, s) ==> q == |NewRequests(v)| && s == |NewResponses(v)|
    {
      assert v[..|v|] == v;
    }

    /** Visits pair `i` of a chain whose pairs before it were visited. */
    method VisitNext(pair: Pair, ghost was: seq<Pair>, ghost v: seq<PairState>, ghost i: nat,
                     ghost a: seq<nat>, ghost b: seq<nat>)
      returns (next: Pair?, requests: nat, responses: nat)
      requires Valid() && Visiting(was, v, i, a, b) && i < |was| && pair == was[i] && Distinct(was)
      modifies this`pairF, this`nodes, this`reqEvents, this`rspEvents, pair`reqDone, pair`rspDone
      ensures Valid() && Visiting(was, v, i + 1, a, b) && next == Nth(was, i + 1)
      ensures requests + |NewRequests(v[..i])| == |NewRequests(v[..i + 1])|
      ensures responses + |NewResponses(v[..i])| == |NewResponses(v[..i + 1])|
    {
      hide Valid, Start, Distinct, Views, NewRequests, NewResponses;
      VisitStep(v, i);
      ghost var k := i - Start(v, i);
      assert pair.View() == v[i] by { assert VisitedAt(was, v, i, i); }
      forall j | 0 <= j < k ensures nodes[j].reqDone && (nodes[j].rsp.Some? ==> nodes[j].rspDone) {
        assert VisitedAt(was, v, i, Start(v, i) + j);
      }
      next, requests, responses := Visit(pair, k);
      ghost var i1 := i + 1;
      forall j | 0 <= j < |was| ensures VisitedAt(was, v, i1, j) {
        assert old(VisitedAt(was, v, i, j));
        if j != i { Differ(was, j, i); }
      }
    }

    /** Visits every pair of the chain in turn. */
    method VisitAll() returns (requests: nat, responses: nat)
      requires Valid()
      modifies this`pairF, this`nodes, this`reqEvents, this`rspEvents, Members()`reqDone, Members()`rspDone
      ensures Valid()
      ensures var v := old(Pairs());
              && nodes == old(nodes)[Start(v, |v|)..]
              && AsVisited(old(nodes), v, |v|)
              && reqEvents == old(reqEvents) + NewRequests(v)
              && rspEvents == old(rspEvents) + NewResponses(v)
              && requests == |NewRequests(v)| && responses == |NewResponses(v)|
    {
      hide Valid, Pairs, NewRequests, NewResponses, Start, Distinct, Views, AsVisited, Logged, Visiting, Summed;
      requests, responses := 0, 0;
      ghost var v := Pairs();
      ghost var was := nodes;
      VisitingNone();
      var pair := pairF;
      ghost var i: nat := 0;
      while pair != null
        invariant 0 <= i <= |was| == |v| && pair == Nth(was, i) && Valid()
        invariant Visiting(was, v, i, old(reqEvents), old(rspEvents))
        invariant Summed(v, i, requests, responses)
        decreases |was| - i
      {
        var next, q, s := VisitNext(pair, was, v, i, old(reqEvents), old(rspEvents));
        SummedStep(v, i, requests, responses, q, s);
        requests, responses := requests + q, responses + s;
        pair := next;
        i := i + 1;
      }
      VisitingAll(was, v, old(reqEvents), old(rspEvents));
    }

    /** Reports what is new on a flow that the filters let through. */
    method ExtractData(passes: bool) returns (requests: nat, responses: nat)
      requires Valid()
      modifies this`pairF, this`nodes, this`reqEvents, this`rspEvents, Members()`reqDone, Members()`rspDone
      ensures Valid()
      ensures !passes ==> nodes == old(nodes) && Pairs() == old(Pairs())
      ensures !passes ==> reqEvents == old(reqEvents) && rspEvents == old(rspEvents)
      ensures passes ==>
                var v := old(Pairs());
                && nodes == old(nodes)[Start(v, |v|)..]
                && AsVisited(old(nodes), v, |v|)
                && reqEvents == old(reqEvents) + NewRequests(v)
                && rspEvents == old(rspEvents) + NewResponses(v)
                && requests == |NewRequests(v)| && responses == |NewResponses(v)|
      ensures passes ==> forall k :: k in made ==>
                           && multiset(reqEvents)[k] == 1
                           && (made[k].rsp.Some? ==> multiset(rspEvents)[made[k].rsp.value] == 1)
    {
      hide Valid, NewRequests, NewResponses, Start, Views;
      requests, responses := 0, 0;
      if passes {
        ghost var v := Pairs();
        requests, responses := VisitAll();
        forall j | 0 <= j < |nodes| ensures nodes[j].reqDone && (nodes[j].rsp.Some? ==> nodes[j].rspDone) {
          assert VisitedAt(old(nodes), v, |v|, Start(v, |v|) + j);
        }
        AllReported();
      }
    }

    /** Once every pair of the list is reported, every pair ever made is, and each message once. */
    lemma AllReported()
      requires Valid()
      requires forall j :: 0 <= j < |nodes| ==> nodes[j].reqDone && (nodes[j].rsp.Some? ==> nodes[j].rspDone)
      ensures forall k :: k in made ==>
                && multiset(reqEvents)[k] == 1
                && (made[k].rsp.Some? ==> multiset(rspEvents)[made[k].rsp.value] == 1)
    {
      hide Distinct, Chained, Shared, Answers;
      forall k | k in made
        ensures multiset(reqEvents)[k] == 1
        ensures made[k].rsp.Some? ==> multiset(rspEvents)[made[k].rsp.value] == 1
      {
        assert Settled(made[k], nodes, reqEvents, rspEvents);
        DistinctOnce(reqEvents, k);
        if made[k].rsp.Some? { DistinctOnce(rspEvents, made[k].rsp.value); }
      }
    }
  }

  lemma DropDistinct(s: seq<Pair>, n: nat)
    requires Distinct(s) && n <= |s|
    ensures Distinct(s[n..])
  {
    forall i, j | 0 <= i < j < |s[n..]| ensures s[n..][i] != s[n..][j] { Differ(s, n + i, n + j); }
  }

  lemma TracedDrop(nodes: seq<Pair>, made: map<nat, Pair>, known: set<nat>, src: seq<Rec>, dst: seq<Rec>, n: nat)
    requires Traced(nodes, made, known, src, dst) && n <= |nodes|
    ensures Traced(nodes[n..], made, known, src, dst)
  {
    forall p | p in nodes[n..] ensures p in nodes { }
  }

  lemma InDrop(s: seq<Pair>, n: nat, p: Pair)
    requires n <= |s|
    ensures p in s ==> p in s[n..] || exists j :: 0 <= j < n && s[j] == p
  {
    if p in s {
      var j :| 0 <= j < |s| && s[j] == p;
      if j >= n { assert s[n..][j - n] == p; }
    }
  }

  lemma TracedNode(nodes: seq<Pair>, made: map<nat, Pair>, known: set<nat>, src: seq<Rec>, dst: seq<Rec>, p: Pair)
    requires Traced(nodes, made, known, src, dst) && p in nodes
    ensures p.id in made && made[p.id] == p
    ensures forall k :: k in made ==> made[k].id == k
  {
  }
}
