/** Whole runs of one flow: records arrive and go, pairs are made and answered, and reports follow at any time. */
module PairingRuns {
  import opened Matching
  import opened Options
  import opened Pairing
  import opened PacketTypes

  /** What happens to a flow: a record comes into one of its lists, the connection starts anew, pairs are extracted,
    * or what is new is reported, if the filters let the flow through. */
  datatype Event = Arrival(r: Rec, k: nat, fromSrc: bool) | NewOrder | Extraction | Report(passes: bool)

  datatype State = State(src: seq<Rec>, dst: seq<Rec>, pairs: seq<PairState>, reqs: seq<nat>, rsps: seq<nat>)

  function Place(s: seq<Rec>, k: nat): (i: nat)
    ensures i <= |s|
  {
    if k <= |s| then k else |s|
  }

  function PutAt(s: seq<Rec>, k: nat, r: Rec): seq<Rec> {
    s[..Place(s, k)] + [r] + s[Place(s, k)..]
  }

  /** The pairs after all of them were visited. */
  function Visited(v: seq<PairState>): (r: seq<PairState>)
    ensures var at := Start(v, |v|);
            |r| == |v| - at && forall i :: 0 <= i < |r| ==> r[i] == Reported(v[at + i])
  {
    var at := Start(v, |v|);
    seq(|v| - at, i requires 0 <= i < |v| - at => Reported(v[at + i]))
  }

  /** The requests that an extraction finds. */
  function Found(s: State): seq<PairState> {
    Requests(s.src, Upto(s.src, FinRec(s.src, s.dst)))
  }

  function Next(s: State, e: Event): State {
    match e
    case Arrival(r, k, fromSrc) =>
      if fromSrc then s.(src := PutAt(s.src, k, r)) else s.(dst := PutAt(s.dst, k, r))
    case NewOrder => s.(src := [], dst := [])
    case Extraction =>
      var (pairs, dst) := Extract(s.pairs, s.src, s.dst);
      s.(src := Mark(s.src, Upto(s.src, FinRec(s.src, s.dst)), Req), dst := dst, pairs := pairs)
    case Report(passes) =>
      if !passes then s
      else s.(pairs := Visited(s.pairs), reqs := s.reqs + NewRequests(s.pairs), rsps := s.rsps + NewResponses(s.pairs))
  }

  function Play(s: State, es: seq<Event>): State {
    if es == [] then s else Next(Play(s, es[..|es| - 1]), es[|es| - 1])
  }

  /** The requests found over a run, in the order in which they were found. */
  function Asked(s: State, es: seq<Event>): seq<nat> {
    if es == [] then []
    else
      var n := |es| - 1;
      Asked(s, es[..n]) + if es[n].Extraction? then Ids(Found(Play(s, es[..n]))) else []
  }

  // --- Reports come in the order of the requests --------------------------------------------

  lemma {:induction false} NewRequestsJoin(a: seq<PairState>, b: seq<PairState>)
    ensures NewRequests(a + b) == NewRequests(a) + NewRequests(b)
  {
    if b == [] {
      assert a + b == a;
    } else {
      assert (a + b)[..|a + b| - 1] == a + b[..|b| - 1];
      NewRequestsJoin(a, b[..|b| - 1]);
    }
  }

  /** Only which pairs there are, and which requests were reported, matters. */
  lemma {:induction false} NewRequestsSame(v: seq<PairState>, w: seq<PairState>)
    requires |v| == |w| && forall i :: 0 <= i < |v| ==> v[i].id == w[i].id && v[i].reqDone == w[i].reqDone
    ensures NewRequests(v) == NewRequests(w)
  {
    if v != [] { NewRequestsSame(v[..|v| - 1], w[..|w| - 1]); }
  }

  lemma {:induction false} AllDone(v: seq<PairState>)
    requires forall i :: 0 <= i < |v| ==> v[i].reqDone
    ensures NewRequests(v) == []
  {
    if v != [] { AllDone(v[..|v| - 1]); }
  }

  lemma {:induction false} NoneDone(v: seq<PairState>)
    requires forall i :: 0 <= i < |v| ==> !v[i].reqDone
    ensures NewRequests(v) == Ids(v)
  {
    if v != [] { NoneDone(v[..|v| - 1]); }
  }

  lemma {:induction false} FoundAreNew(s: seq<Rec>, n: nat)
    requires n <= |s|
    ensures forall i :: 0 <= i < |Requests(s, n)| ==> !Requests(s, n)[i].reqDone
  {
    if n > 0 { FoundAreNew(s, n - 1); }
  }

  /** Attaching responses changes nothing else of the pairs. */
  lemma {:induction false} AttachKeeps(pairs: seq<PairState>, cur: nat, dst: seq<Rec>, j: nat, n: nat)
    requires cur <= |pairs| && j <= n <= |dst|
    ensures var r := Attach(pairs, cur, dst, j, n).0;
            |r| == |pairs| && forall i :: 0 <= i < |r| ==> r[i].id == pairs[i].id && r[i].reqDone == pairs[i].reqDone
    decreases n - j
  {
    if j < n {
      if !Pending(dst[j], Rsp) {
        AttachKeeps(pairs, cur, dst, j + 1, n);
      } else {
        var marked := dst[j := dst[j].(processed := true)];
        var at := Seek(pairs, cur, dst[j].ack);
        if at < |pairs| {
          if pairs[at].rsp.None? && pairs[at].nxt == dst[j].ack {
            AttachKeeps(pairs[at := pairs[at].(rsp := Some(dst[j].id))], at, marked, j + 1, n);
          } else {
            AttachKeeps(pairs, at, marked, j + 1, n);
          }
        }
      }
    }
  }

  lemma ExtractAsks(s: State)
    ensures NewRequests(Next(s, Extraction).pairs) == NewRequests(s.pairs) + Ids(Found(s))
  {
    hide Attach, Requests, Upto, FinRec, NewRequests, Ids;
    var fin := FinRec(s.src, s.dst);
    var made := Found(s);
    FoundAreNew(s.src, Upto(s.src, fin));
    NoneDone(made);
    NewRequestsJoin(s.pairs, made);
    if made == [] {
      assert s.pairs + made == s.pairs;
    } else {
      AttachKeeps(s.pairs + made, 0, s.dst, 0, Upto(s.dst, fin));
      NewRequestsSame(Attach(s.pairs + made, 0, s.dst, 0, Upto(s.dst, fin)).0, s.pairs + made);
    }
  }

  /** One event adds the requests that it finds to those reported or to be. */
  lemma EventAsks(s: State, e: Event)
    ensures Next(s, e).reqs + NewRequests(Next(s, e).pairs)
            == s.reqs + NewRequests(s.pairs) + if e.Extraction? then Ids(Found(s)) else []
  {
    hide NewRequests, NewResponses, Extract, Requests, Upto, FinRec, Mark, Start, Ids;
    if e.Extraction? {
      ExtractAsks(s);
      assert Next(s, e).reqs == s.reqs;
    } else if e == Report(true) {
      AllDone(Visited(s.pairs));
    }
  }

  /** Over any run the requests reported, and those still to be, are the requests found, once each and in order. */
  lemma {:induction false} RequestsReportedInOrder(s: State, es: seq<Event>)
    ensures var t := Play(s, es);
            t.reqs + NewRequests(t.pairs) == s.reqs + NewRequests(s.pairs) + Asked(s, es)
  {
    hide Next, NewRequests, Ids, Found;
    if es != [] {
      var n := |es| - 1;
      RequestsReportedInOrder(s, es[..n]);
      EventAsks(Play(s, es[..n]), es[n]);
    }
  }

  /** Right after a report that passes nothing is left to report. */
  lemma ReportedAll(s: State, es: seq<Event>)
    requires es != [] && es[|es| - 1] == Report(true)
    ensures Play(s, es).reqs == s.reqs + NewRequests(s.pairs) + Asked(s, es)
  {
    hide Asked, NewRequests, NewResponses, Start, Ids;
    RequestsReportedInOrder(s, es);
    AllDone(Visited(Play(s, es[..|es| - 1]).pairs));
  }

  // --- Pairs are made and answered rightly -----------------------------------------------------

  /** The record arrived on that side; only whether it was looked at may have changed. */
  ghost predicate Arrived(es: seq<Event>, r: Rec, fromSrc: bool) {
    exists i :: 0 <= i < |es| && Arrives(es[i], r, fromSrc)
  }

  predicate Arrives(e: Event, r: Rec, fromSrc: bool) {
    e.Arrival? && e.fromSrc == fromSrc && e.r.(processed := false) == r.(processed := false)
  }

  /** A request that arrived from the source, and the number where its payload ends. */
  ghost predicate IsRequest(es: seq<Event>, id: nat, ends: int) {
    exists i :: 0 <= i < |es| && es[i].Arrival? && es[i].fromSrc && RequestOf(es[i].r, id, ends)
  }

  predicate RequestOf(r: Rec, id: nat, ends: int) { r.kind == Req && r.id == id && r.ends == ends }

  /** A response that arrived from the destination, and the number that it acknowledges. */
  ghost predicate IsResponse(es: seq<Event>, id: nat, ack: int) {
    exists i :: 0 <= i < |es| && es[i].Arrival? && !es[i].fromSrc && ResponseOf(es[i].r, id, ack)
  }

  predicate ResponseOf(r: Rec, id: nat, ack: int) { r.kind == Rsp && r.id == id && r.ack == ack }

  /** The pair of a request, and of a response that acknowledges just the end of that request, if it has one. */
  ghost predicate RightPair(es: seq<Event>, p: PairState) {
    IsRequest(es, p.id, p.nxt) && (p.rsp.Some? ==> IsResponse(es, p.rsp.value, p.nxt))
  }

  ghost predicate Right(es: seq<Event>, s: State) {
    && (forall r :: r in s.src ==> Arrived(es, r, true))
    && (forall r :: r in s.dst ==> Arrived(es, r, false))
    && (forall p :: p in s.pairs ==> RightPair(es, p))
  }

  lemma RightMore(es: seq<Event>, e: Event, s: State)
    requires Right(es, s)
    ensures Right(es + [e], s)
  {
    hide Arrives, RequestOf, ResponseOf;
    var more := es + [e];
    forall i | 0 <= i < |es| ensures more[i] == es[i] { }
    forall r, side | Arrived(es, r, side) ensures Arrived(more, r, side) {
      var i :| 0 <= i < |es| && Arrives(es[i], r, side);
      assert Arrives(more[i], r, side);
    }
    forall id, n | IsRequest(es, id, n) ensures IsRequest(more, id, n) {
      var i :| 0 <= i < |es| && es[i].Arrival? && es[i].fromSrc && RequestOf(es[i].r, id, n);
      assert RequestOf(more[i].r, id, n);
    }
    forall id, n | IsResponse(es, id, n) ensures IsResponse(more, id, n) {
      var i :| 0 <= i < |es| && es[i].Arrival? && !es[i].fromSrc && ResponseOf(es[i].r, id, n);
      assert ResponseOf(more[i].r, id, n);
    }
  }

  /** Some pending response of the records acknowledges the number that the pair waits for. */
  ghost predicate SomeAnswer(dst: seq<Rec>, id: nat, ack: int) {
    exists r :: r in dst && ResponseOf(r, id, ack)
  }

  /** An attached response acknowledges just the number that its pair waits for. */
  lemma {:induction false} AttachRight(pairs: seq<PairState>, cur: nat, dst: seq<Rec>, j: nat, n: nat)
    requires cur <= |pairs| && j <= n <= |dst|
    ensures var (r, d) := Attach(pairs, cur, dst, j, n);
            && |r| == |pairs| && |d| == |dst|
            && (forall k :: 0 <= k < |r| ==>
                  r[k] == pairs[k]
                  || (&& r[k].rsp.Some? && r[k] == pairs[k].(rsp := r[k].rsp)
                      && SomeAnswer(dst, r[k].rsp.value, r[k].nxt)))
            && (forall a :: 0 <= a < |d| ==> d[a].(processed := false) == dst[a].(processed := false))
    decreases n - j
  {
    if j < n {
      if !Pending(dst[j], Rsp) {
        AttachRight(pairs, cur, dst, j + 1, n);
      } else {
        var marked := dst[j := dst[j].(processed := true)];
        SameAnswers(dst, j);
        var at := Seek(pairs, cur, dst[j].ack);
        if at < |pairs| {
          if pairs[at].rsp.None? && pairs[at].nxt == dst[j].ack {
            assert ResponseOf(dst[j], dst[j].id, pairs[at].nxt);
            AttachRight(pairs[at := pairs[at].(rsp := Some(dst[j].id))], at, marked, j + 1, n);
          } else {
            AttachRight(pairs, at, marked, j + 1, n);
          }
        }
      }
    }
  }

  lemma SameAnswers(dst: seq<Rec>, j: nat)
    requires j < |dst|
    ensures var marked := dst[j := dst[j].(processed := true)];
            forall id, ack :: SomeAnswer(marked, id, ack) ==> SomeAnswer(dst, id, ack)
  {
    var marked := dst[j := dst[j].(processed := true)];
    forall id, ack | SomeAnswer(marked, id, ack) ensures SomeAnswer(dst, id, ack) {
      var r :| r in marked && ResponseOf(r, id, ack);
      var a :| 0 <= a < |marked| && marked[a] == r;
      assert dst[a] in dst && ResponseOf(dst[a], id, ack);
    }
  }

  lemma AnswersArrived(es: seq<Event>, dst: seq<Rec>, id: nat, ack: int)
    requires (forall r :: r in dst ==> Arrived(es, r, false)) && SomeAnswer(dst, id, ack)
    ensures IsResponse(es, id, ack)
  {
    var r :| r in dst && ResponseOf(r, id, ack);
    var i :| 0 <= i < |es| && Arrives(es[i], r, false);
    assert ResponseOf(es[i].r, id, ack);
  }

  lemma FoundRight(es: seq<Event>, s: State)
    requires Right(es, s)
    ensures forall p :: p in Found(s) ==> RightPair(es, p)
  {
    hide Requests, Upto, FinRec;
    var n := Upto(s.src, FinRec(s.src, s.dst));
    forall p | p in Found(s) ensures RightPair(es, p) {
      OnlyRequests(s.src, n, p);
      var i :| 0 <= i < n && Pending(s.src[i], Req) && p.id == s.src[i].id && p.nxt == s.src[i].ends;
      assert s.src[i] in s.src;
      var e :| 0 <= e < |es| && Arrives(es[e], s.src[i], true);
      assert RequestOf(es[e].r, p.id, p.nxt);
    }
  }

  lemma ExtractRight(es: seq<Event>, s: State)
    requires Right(es, s)
    ensures Right(es, Next(s, Extraction))
  {
    hide Attach, Requests, Upto, FinRec, Mark, RequestOf, ResponseOf;
    FoundRight(es, s);
    var made := Found(s);
    var t := Next(s, Extraction);
    var n := Upto(s.dst, FinRec(s.src, s.dst));
    AttachRight(s.pairs + made, 0, s.dst, 0, n);
    forall r | r in t.src ensures Arrived(es, r, true) {
      var k :| 0 <= k < |t.src| && t.src[k] == r;
      assert s.src[k] in s.src && r.(processed := false) == s.src[k].(processed := false);
      SameArrived(es, s.src[k], r, true);
    }
    if made != [] {
      forall r | r in t.dst ensures Arrived(es, r, false) {
        var k :| 0 <= k < |t.dst| && t.dst[k] == r;
        assert s.dst[k] in s.dst;
        SameArrived(es, s.dst[k], r, false);
      }
      forall p | p in t.pairs ensures RightPair(es, p) {
        var k :| 0 <= k < |t.pairs| && t.pairs[k] == p;
        var was := (s.pairs + made)[k];
        assert was in s.pairs || was in made;
        assert RightPair(es, was);
        if p != was { AnswersArrived(es, s.dst, p.rsp.value, p.nxt); }
      }
    }
  }

  lemma SameArrived(es: seq<Event>, r: Rec, q: Rec, side: bool)
    requires Arrived(es, r, side) && q.(processed := false) == r.(processed := false)
    ensures Arrived(es, q, side)
  {
    var i :| 0 <= i < |es| && Arrives(es[i], r, side);
    assert Arrives(es[i], q, side);
  }

  lemma ReportRight(es: seq<Event>, s: State)
    requires Right(es, s)
    ensures Right(es, Next(s, Report(true)))
  {
    hide Start, NewRequests, NewResponses, Arrived, IsRequest, IsResponse;
    var t := Next(s, Report(true));
    forall p | p in t.pairs ensures RightPair(es, p) {
      var k :| 0 <= k < |t.pairs| && t.pairs[k] == p;
      var was := s.pairs[Start(s.pairs, |s.pairs|) + k];
      assert was in s.pairs && RightPair(es, was) && p == Reported(was);
    }
  }

  lemma ArrivalRight(es: seq<Event>, e: Event, s: State)
    requires Right(es, s) && e.Arrival?
    ensures Right(es + [e], Next(s, e))
  {
    hide RightPair;
    RightMore(es, e, s);
    assert (es + [e])[|es|] == e && Arrives(e, e.r, e.fromSrc);
    assert Arrived(es + [e], e.r, e.fromSrc);
    hide Arrived;
  }

  /** Over any run from an empty flow every pair is that of a request from the source, and a response attached to it
    * came from the destination and acknowledges just the number where the request's payload ends. */
  lemma {:induction false} RunPairsRightly(es: seq<Event>)
    ensures Right(es, Play(State([], [], [], [], []), es))
  {
    hide Next, Right, RightPair;
    var s := State([], [], [], [], []);
    if es == [] {
      assert Right(es, s) by { NothingRight(); }
    } else {
      var n := |es| - 1;
      var before := Play(s, es[..n]);
      RunPairsRightly(es[..n]);
      assert es[..n] + [es[n]] == es;
      match es[n] {
        case Arrival(_, _, _) => ArrivalRight(es[..n], es[n], before);
        case NewOrder =>
          NewOrderRight(es[..n], before);
          RightMore(es[..n], es[n], Next(before, NewOrder));
        case Extraction =>
          ExtractRight(es[..n], before);
          RightMore(es[..n], es[n], Next(before, Extraction));
        case Report(passes) =>
          if passes { ReportRight(es[..n], before); } else { Unreported(before); }
          RightMore(es[..n], es[n], Next(before, es[n]));
      }
    }
  }

  lemma NothingRight()
    ensures Right([], State([], [], [], [], []))
  {
  }

  lemma NewOrderRight(es: seq<Event>, s: State)
    requires Right(es, s)
    ensures Right(es, Next(s, NewOrder))
  {
    hide RightPair;
  }

  lemma Unreported(s: State)
    ensures Next(s, Report(false)) == s
  {
  }

  // --- The code does just that ---------------------------------------------------------------

  ghost function StateOf(f: Flow): State
    reads f, f.nodes`reqDone, f.nodes`rsp, f.nodes`rspDone
  {
    State(f.src, f.dst, f.Pairs(), f.reqEvents, f.rspEvents)
  }

  /** No record comes twice, and none was looked at before it came. */
  ghost predicate NewIds(es: seq<Event>, known: set<nat>) {
    && (forall i :: 0 <= i < |es| && es[i].Arrival? ==> es[i].r.id !in known && !es[i].r.processed)
    && (forall i, j :: 0 <= i < j < |es| && es[i].Arrival? && es[j].Arrival? ==> es[i].r.id != es[j].r.id)
  }

  /** Every request ever found is reported once, and so is every response given to one. */
  ghost predicate AllOnce(f: Flow)
    reads f, f.made.Values`rsp
  {
    forall k :: k in f.made ==>
      && multiset(f.reqEvents)[k] == 1
      && (f.made[k].rsp.Some? ==> multiset(f.rspEvents)[f.made[k].rsp.value] == 1)
  }

  lemma ChainMade(f: Flow)
    requires f.Valid()
    ensures f.Members() <= f.made.Values
  {
    f.NoneVisited();
  }

  /** One event. */
  method HandleEvent(f: Flow, e: Event)
    requires f.Valid() && (e.Arrival? ==> e.r.id !in f.known && !e.r.processed)
    modifies f, f.made.Values
    ensures f.Valid() && StateOf(f) == Next(old(StateOf(f)), e)
    ensures f.known == old(f.known) + if e.Arrival? then {e.r.id} else {}
    ensures forall k :: k in f.made <==>
              k in old(f.made) || (e.Extraction? && k in Ids(Found(old(StateOf(f)))))
    ensures fresh(f.made.Values - old(f.made.Values))
    ensures e == Report(true) ==> AllOnce(f)
  {
    hide Flow.Valid, Mark, Extract, Requests, Upto, FinRec, NewRequests, NewResponses, Start, Ids, Views;
    ChainMade(f);
    match e
    case Arrival(r, k, fromSrc) =>
      f.Arrive(r, Place(if fromSrc then f.src else f.dst, k), fromSrc);
    case NewOrder =>
      f.ResetOrder();
    case Extraction =>
      var rc := f.ExtractPair();
    case Report(passes) =>
      ghost var was, v := f.nodes, f.Pairs();
      var requests, responses := f.ExtractData(passes);
      if passes { VisitedViews(was, v, f.nodes); }
  }

  lemma VisitedViews(was: seq<Pair>, v: seq<PairState>, nodes: seq<Pair>)
    requires |was| == |v| && AsVisited(was, v, |v|) && nodes == was[Start(v, |v|)..]
    ensures Views(nodes) == Visited(v)
  {
    hide Start, Views;
    forall i | 0 <= i < |nodes| ensures Visited(v)[i] == nodes[i].View() {
      assert VisitedAt(was, v, |v|, Start(v, |v|) + i);
    }
    SameViews(nodes, Visited(v));
  }

  /** A whole run, in any order of events. */
  method HandleAll(f: Flow, es: seq<Event>)
    requires f.Valid() && NewIds(es, f.known)
    modifies f, f.made.Values
    ensures f.Valid() && StateOf(f) == Play(old(StateOf(f)), es)
    ensures forall k :: k in f.made <==> k in old(f.made) || k in Asked(old(StateOf(f)), es)
    ensures fresh(f.made.Values - old(f.made.Values))
    ensures es != [] && es[|es| - 1] == Report(true) ==> AllOnce(f)
  {
    hide Flow.Valid, Next, Ids, Found, AllOnce;
    ghost var s := StateOf(f);
    for i := 0 to |es|
      invariant f.Valid() && StateOf(f) == Play(s, es[..i])
      invariant forall k :: k in f.made <==> k in old(f.made) || k in Asked(s, es[..i])
      invariant fresh(f.made.Values - old(f.made.Values))
      invariant forall j :: i <= j < |es| && es[j].Arrival? ==> es[j].r.id !in f.known
      invariant i > 0 && es[i - 1] == Report(true) ==> AllOnce(f)
    {
      assert es[..i + 1][..i] == es[..i];
      HandleEvent(f, es[i]);
    }
    assert es[..|es|] == es;
  }
}
