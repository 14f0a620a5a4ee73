/** How requests and responses of one flow are matched by acknowledgement number. */
module Matching {
  import opened Options
  import opened PacketTypes

  /** A stored record: who it is, when it was captured, and whether it was looked at. One without a packet, as that
    * of a FIN, is neither request nor response.
    * `ends` is the packet's own sequence number plus the payload length left after any trim. */
  datatype Rec = Rec(id: nat, kind: Kind, ends: int, ack: int, sec: int, usec: int, fin: bool, processed: bool)

  /** A request, the response attached to it, and which of the two were reported. */
  datatype PairState = PairState(id: nat, nxt: int, reqDone: bool, rsp: Option<nat>, rspDone: bool)

  // --- Capture times and the end of a connection ----------------------------

  /** 1, -1 or 0 as the first record was captured later, earlier, or at the same time. */
  function CompareTime(a: Rec, b: Rec): int {
    if a.sec > b.sec || (a.sec == b.sec && a.usec > b.usec) then 1
    else if a.sec < b.sec || (a.sec == b.sec && a.usec < b.usec) then -1
    else 0
  }

  function FirstFin(s: seq<Rec>): Option<Rec> {
    if s == [] then None else if s[0].fin then Some(s[0]) else FirstFin(s[1..])
  }

  /** Of two FINs the one captured first, the source's when both come at once. */
  function EarlierFin(srcFin: Option<Rec>, dstFin: Option<Rec>): Option<Rec> {
    match (srcFin, dstFin)
    case (Some(a), None) => Some(a)
    case (None, Some(b)) => Some(b)
    case (Some(a), Some(b)) => if CompareTime(a, b) == 1 then Some(b) else Some(a)
    case (None, None) => None
  }

  /** The FIN that ends the flow. */
  function FinRec(src: seq<Rec>, dst: seq<Rec>): Option<Rec> {
    EarlierFin(FirstFin(src), FirstFin(dst))
  }

  /** How many records are looked at: those before the first one that is not earlier than the FIN. */
  function Upto(s: seq<Rec>, fin: Option<Rec>): (n: nat)
    ensures n <= |s|
    ensures fin.Some? ==> forall k :: 0 <= k < n ==> CompareTime(s[k], fin.value) < 0
    ensures n < |s| ==> fin.Some? && CompareTime(s[n], fin.value) >= 0
  {
    if s == [] || (fin.Some? && CompareTime(s[0], fin.value) >= 0) then 0 else 1 + Upto(s[1..], fin)
  }

  /** The one record was captured before the other. */
  predicate Before(a: Rec, b: Rec) {
    a.sec < b.sec || (a.sec == b.sec && a.usec < b.usec)
  }

  lemma {:induction false} FirstFinIs(s: seq<Rec>)
    ensures FirstFin(s).None? <==> forall k :: 0 <= k < |s| ==> !s[k].fin
    ensures FirstFin(s).Some? ==>
              exists k :: 0 <= k < |s| && s[k] == FirstFin(s).value && s[k].fin && forall j :: 0 <= j < k ==> !s[j].fin
  {
    if s != [] && !s[0].fin {
      FirstFinIs(s[1..]);
      assert forall k :: 0 < k < |s| ==> s[k] == s[1..][k - 1];
      if FirstFin(s).Some? {
        var k :| 0 <= k < |s[1..]| && s[1..][k] == FirstFin(s).value && forall j :: 0 <= j < k ==> !s[1..][j].fin;
        assert s[k + 1] == FirstFin(s).value && forall j :: 0 <= j < k + 1 ==> !s[j].fin;
      }
    }
  }

  /** Where the flow ends: at a FIN, the destination's only when the source has none or a later one. */
  lemma FinIs(src: seq<Rec>, dst: seq<Rec>)
    ensures FinRec(src, dst).None? <==> FirstFin(src).None? && FirstFin(dst).None?
    ensures FirstFin(dst).Some? && (FirstFin(src).None? || Before(FirstFin(dst).value, FirstFin(src).value)) ==>
              FinRec(src, dst) == FirstFin(dst)
    ensures FirstFin(src).Some? && !(FirstFin(dst).Some? && Before(FirstFin(dst).value, FirstFin(src).value)) ==>
              FinRec(src, dst) == FirstFin(src)
  {
  }

  /** Which records are looked at: without a FIN all, else those that with all before them were captured before it. */
  lemma {:induction false} UptoIs(s: seq<Rec>, fin: Option<Rec>, k: nat)
    requires k < |s|
    ensures k < Upto(s, fin) <==> fin.None? || forall j :: 0 <= j <= k ==> Before(s[j], fin.value)
  {
    if fin.Some? {
      if k < Upto(s, fin) {
        forall j | 0 <= j <= k ensures Before(s[j], fin.value) { assert CompareTime(s[j], fin.value) < 0; }
      } else {
        assert !Before(s[Upto(s, fin)], fin.value);
      }
    }
  }

  // --- Requests ---------------------------------------------------------------

  predicate Pending(r: Rec, kind: Kind) {
    r.kind == kind && !r.processed
  }

  /** The first `n` records with those of one kind marked as looked at. */
  function Mark(s: seq<Rec>, n: nat, kind: Kind): (r: seq<Rec>)
    requires n <= |s|
    ensures |r| == |s|
    ensures forall k :: 0 <= k < |s| ==> r[k] == if k < n && Pending(s[k], kind) then s[k].(processed := true) else s[k]
  {
    seq(|s|, k requires 0 <= k < |s| => if k < n && Pending(s[k], kind) then s[k].(processed := true) else s[k])
  }

  function NewPair(r: Rec): PairState {
    PairState(r.id, r.ends, false, None, false)
  }

  /** The pairs made for the pending requests among the first `n` records. */
  function Requests(s: seq<Rec>, n: nat): seq<PairState>
    requires n <= |s|
  {
    if n == 0 then [] else Requests(s, n - 1) + if Pending(s[n - 1], Req) then [NewPair(s[n - 1])] else []
  }

  /** The records of the requests of pairs. */
  function Ids(v: seq<PairState>): seq<nat> {
    if v == [] then [] else Ids(v[..|v| - 1]) + [v[|v| - 1].id]
  }

  lemma IdsNone(s: seq<Rec>)
    ensures Requests(s, 0) == [] && Ids(Requests(s, 0)) == []
  {
  }

  lemma IdsStep(s: seq<Rec>, i: nat)
    requires i < |s|
    ensures Ids(Requests(s, i + 1)) == Ids(Requests(s, i)) + if Pending(s[i], Req) then [s[i].id] else []
  {
    var v := Requests(s, i);
    assert (v + [NewPair(s[i])])[..|v|] == v && v + [] == v;
  }

  lemma MarkNone(s: seq<Rec>, kind: Kind)
    ensures Mark(s, 0, kind) == s
  {
  }

  lemma MarkStep(s: seq<Rec>, i: nat, kind: Kind)
    requires i < |s|
    ensures Mark(s, i, kind)[i] == s[i]
    ensures Requests(s, i + 1) == Requests(s, i) + if Pending(s[i], Req) then [NewPair(s[i])] else []
    ensures Mark(s, i + 1, kind)
         == if Pending(s[i], kind) then Mark(s, i, kind)[i := s[i].(processed := true)] else Mark(s, i, kind)
  {
  }

  /** How many requests among the first `n` records are pending. */
  function Asking(s: seq<Rec>, n: nat): nat
    requires n <= |s|
  {
    if n == 0 then 0 else Asking(s, n - 1) + if Pending(s[n - 1], Req) then 1 else 0
  }

  /** Each pending request makes one pair, in order, which waits for the number where the request's payload ends. */
  lemma {:induction false} RequestsAre(s: seq<Rec>, n: nat)
    requires n <= |s|
    ensures |Requests(s, n)| == Asking(s, n)
    ensures forall i :: 0 <= i < n && Pending(s[i], Req) ==>
              && Asking(s, i) < Asking(s, n) && Requests(s, n)[..Asking(s, i)] == Requests(s, i)
              && Requests(s, n)[Asking(s, i)] == PairState(s[i].id, s[i].ends, false, None, false)
  {
    if n > 0 { RequestsAre(s, n - 1); }
  }

  /** No pair is made of anything else. */
  lemma {:induction false} OnlyRequests(s: seq<Rec>, n: nat, p: PairState)
    requires n <= |s| && p in Requests(s, n)
    ensures exists i :: 0 <= i < n && Pending(s[i], Req) && p.id == s[i].id && p.nxt == s[i].ends
    ensures p.rsp == None && !p.reqDone && !p.rspDone
  {
    if n > 0 {
      if p in Requests(s, n - 1) {
        OnlyRequests(s, n - 1, p);
      } else {
        assert Pending(s[n - 1], Req) && p.id == s[n - 1].id;
      }
    }
  }

  // --- Responses --------------------------------------------------------------

  /** Whether the cursor moves past a pair when looking for `ack`. */
  predicate Passes(p: PairState, ack: int) {
    p.nxt <= ack && !(p.rsp.None? && p.nxt == ack)
  }

  function Seek(pairs: seq<PairState>, cur: nat, ack: int): (r: nat)
    requires cur <= |pairs|
    ensures cur <= r <= |pairs|
    ensures forall k :: cur <= k < r ==> Passes(pairs[k], ack)
    ensures r < |pairs| ==> !Passes(pairs[r], ack)
    decreases |pairs| - cur
  {
    if cur < |pairs| && Passes(pairs[cur], ack) then Seek(pairs, cur + 1, ack) else cur
  }

  /** The single-cursor loop over records `j` to `n`: the pairs with responses attached, and the records marked.
    * It stops at the first response for which no pair is left. */
  function Attach(pairs: seq<PairState>, cur: nat, dst: seq<Rec>, j: nat, n: nat): (seq<PairState>, seq<Rec>)
    requires cur <= |pairs| && j <= n <= |dst|
    decreases n - j
  {
    if j == n then (pairs, dst)
    else if !Pending(dst[j], Rsp) then Attach(pairs, cur, dst, j + 1, n)
    else
      var marked := dst[j := dst[j].(processed := true)];
      var at := Seek(pairs, cur, dst[j].ack);
      if at == |pairs| then (pairs, marked)
      else if pairs[at].rsp.None? && pairs[at].nxt == dst[j].ack then
        Attach(pairs[at := pairs[at].(rsp := Some(dst[j].id))], at, marked, j + 1, n)
      else Attach(pairs, at, marked, j + 1, n)
  }

  /** The record, from `j` on, with the pending response that acknowledges exactly `ack` after `m` others;
    * `n` if there is none. */
  function MatchAt(dst: seq<Rec>, j: nat, n: nat, ack: int, m: nat): (f: nat)
    requires j <= n <= |dst|
    ensures j <= f <= n
    ensures f < n ==> Pending(dst[f], Rsp) && dst[f].ack == ack
    decreases n - j
  {
    if j == n then n
    else if !Pending(dst[j], Rsp) || dst[j].ack != ack then MatchAt(dst, j + 1, n, ack, m)
    else if m == 0 then j
    else MatchAt(dst, j + 1, n, ack, m - 1)
  }

  /** How many pairs between the cursor and pair `k` wait for the same acknowledgement. */
  function Waiting(pairs: seq<PairState>, cur: nat, k: nat): nat
    requires k < |pairs|
    decreases k - cur
  {
    if cur >= k then 0
    else (if pairs[cur].rsp.None? && pairs[cur].nxt == pairs[k].nxt then 1 else 0) + Waiting(pairs, cur + 1, k)
  }

  /** The response that pair `k` is due: the first for its acknowledgement, behind those for the pairs that wait
    * before it. */
  function Due(pairs: seq<PairState>, cur: nat, dst: seq<Rec>, j: nat, n: nat, k: nat): (f: nat)
    requires k < |pairs| && j <= n <= |dst|
    ensures j <= f <= n
  {
    MatchAt(dst, j, n, pairs[k].nxt, Waiting(pairs, cur, k))
  }

  /** No pair up to `k` needs a higher acknowledgement, and no higher one comes before the response that is due. */
  ghost predicate InReach(pairs: seq<PairState>, cur: nat, dst: seq<Rec>, j: nat, n: nat, k: nat)
    requires k < |pairs| && j <= n <= |dst|
  {
    var f := Due(pairs, cur, dst, j, n, k);
    && f < n
    && (forall i :: cur <= i < k ==> pairs[i].nxt <= pairs[k].nxt)
    && (forall a :: j <= a < f && Pending(dst[a], Rsp) ==> dst[a].ack <= pairs[k].nxt)
  }

  /** Marking a record before `j` does not change which response matches. */
  lemma {:induction false} MarkedEarlier(dst: seq<Rec>, at: nat, j: nat, n: nat, ack: int, m: nat)
    requires at < j <= n <= |dst|
    ensures MatchAt(dst[at := dst[at].(processed := true)], j, n, ack, m) == MatchAt(dst, j, n, ack, m)
    decreases n - j
  {
    if j < n {
      MarkedEarlier(dst, at, j + 1, n, ack, m);
      if m > 0 { MarkedEarlier(dst, at, j + 1, n, ack, m - 1); }
    }
  }

  /** Pairs that the cursor passes for an acknowledgement that is not too high do not wait for the one of pair `k`. */
  lemma {:induction false} PassedDoNotWait(pairs: seq<PairState>, cur: nat, at: nat, k: nat, ack: int)
    requires cur <= at <= k < |pairs| && ack <= pairs[k].nxt
    requires forall i :: cur <= i < at ==> Passes(pairs[i], ack)
    ensures Waiting(pairs, cur, k) == Waiting(pairs, at, k)
    decreases at - cur
  {
    if cur < at {
      assert Passes(pairs[cur], ack);
      PassedDoNotWait(pairs, cur + 1, at, k, ack);
    }
  }

  /** A response given to a pair before the cursor or at it does not change how many wait behind. */
  lemma {:induction false} GivenEarlier(pairs: seq<PairState>, at: nat, cur: nat, k: nat, id: nat)
    requires at < cur && at < k < |pairs|
    ensures Waiting(pairs[at := pairs[at].(rsp := Some(id))], cur, k) == Waiting(pairs, cur, k)
    decreases k - cur
  {
    if cur < k { GivenEarlier(pairs, at, cur + 1, k, id); }
  }

  /** The loop never takes or changes a response, and never comes back to a pair before the cursor. */
  lemma {:induction false} Untouched(pairs: seq<PairState>, cur: nat, dst: seq<Rec>, j: nat, n: nat, k: nat)
    requires cur <= |pairs| && j <= n <= |dst| && k < |pairs|
    ensures |Attach(pairs, cur, dst, j, n).0| == |pairs|
    ensures k < cur || pairs[k].rsp.Some? ==> Attach(pairs, cur, dst, j, n).0[k] == pairs[k]
    decreases n - j
  {
    if j < n {
      var marked := dst[j := dst[j].(processed := true)];
      var at := Seek(pairs, cur, dst[j].ack);
      if !Pending(dst[j], Rsp) {
        Untouched(pairs, cur, dst, j + 1, n, k);
      } else if at == |pairs| {
      } else if pairs[at].rsp.None? && pairs[at].nxt == dst[j].ack {
        Untouched(pairs[at := pairs[at].(rsp := Some(dst[j].id))], at, marked, j + 1, n, k);
      } else {
        Untouched(pairs, at, marked, j + 1, n, k);
      }
    }
  }

  /** Exactly which response the cursor gives to a waiting pair, whatever the order of requests and acknowledgements. */
  lemma {:induction false} CursorGives(pairs: seq<PairState>, cur: nat, dst: seq<Rec>, j: nat, n: nat, k: nat)
    requires cur <= k < |pairs| && j <= n <= |dst| && pairs[k].rsp.None?
    ensures |Attach(pairs, cur, dst, j, n).0| == |pairs|
    ensures Attach(pairs, cur, dst, j, n).0[k]
         == pairs[k].(rsp := if InReach(pairs, cur, dst, j, n, k)
                             then Some(dst[Due(pairs, cur, dst, j, n, k)].id)
                             else None)
    decreases n - j
  {
    if j < n {
      if !Pending(dst[j], Rsp) {
        CursorGives(pairs, cur, dst, j + 1, n, k);
        SkipReach(pairs, cur, dst, j, n, k);
      } else {
        var ack := dst[j].ack;
        var marked := dst[j := dst[j].(processed := true)];
        var at := Seek(pairs, cur, ack);
        if at > k {
          assert Passes(pairs[k], ack);
          Overtaken(pairs, cur, dst, j, n, k);
          if at < |pairs| {
            if pairs[at].rsp.None? && pairs[at].nxt == ack {
              Untouched(pairs[at := pairs[at].(rsp := Some(dst[j].id))], at, marked, j + 1, n, k);
            } else {
              Untouched(pairs, at, marked, j + 1, n, k);
            }
          }
        } else if pairs[at].rsp.None? && pairs[at].nxt == ack {
          var given := pairs[at := pairs[at].(rsp := Some(dst[j].id))];
          if at == k {
            Served(pairs, cur, dst, j, n, k);
            Untouched(given, at, marked, j + 1, n, k);
          } else {
            ServedBefore(pairs, cur, at, dst, j, n, k);
            CursorGives(given, at, marked, j + 1, n, k);
          }
        } else {
          assert ack < pairs[at].nxt;
          Stuck(pairs, cur, at, dst, j, n, k);
          CursorGives(pairs, at, marked, j + 1, n, k);
        }
      }
    }
  }

  /** A pair that the cursor passes is out of reach of what follows. */
  lemma Overtaken(pairs: seq<PairState>, cur: nat, dst: seq<Rec>, j: nat, n: nat, k: nat)
    requires k < |pairs| && j < n <= |dst| && Pending(dst[j], Rsp)
    requires pairs[k].rsp.None? && Passes(pairs[k], dst[j].ack)
    ensures !InReach(pairs, cur, dst, j, n, k)
  {
  }

  /** The pair at which the cursor stops with a match is due this response. */
  lemma Served(pairs: seq<PairState>, cur: nat, dst: seq<Rec>, j: nat, n: nat, k: nat)
    requires cur <= k < |pairs| && j < n <= |dst| && Pending(dst[j], Rsp)
    requires forall i :: cur <= i < k ==> Passes(pairs[i], dst[j].ack)
    requires pairs[k].nxt == dst[j].ack
    ensures Due(pairs, cur, dst, j, n, k) == j && InReach(pairs, cur, dst, j, n, k)
  {
    PassedDoNotWait(pairs, cur, k, k, dst[j].ack);
  }

  /** When an earlier pair takes the response, what is due to pair `k` stays due, with one pair less waiting
    * before it. */
  lemma ServedBefore(pairs: seq<PairState>, cur: nat, at: nat, dst: seq<Rec>, j: nat, n: nat, k: nat)
    requires cur <= at < k < |pairs| && j < n <= |dst| && Pending(dst[j], Rsp)
    requires forall i :: cur <= i < at ==> Passes(pairs[i], dst[j].ack)
    requires pairs[at].rsp.None? && pairs[at].nxt == dst[j].ack
    ensures var given := pairs[at := pairs[at].(rsp := Some(dst[j].id))];
            var marked := dst[j := dst[j].(processed := true)];
            && (InReach(pairs, cur, dst, j, n, k) <==> InReach(given, at, marked, j + 1, n, k))
            && (InReach(pairs, cur, dst, j, n, k) ==>
                  dst[Due(pairs, cur, dst, j, n, k)].id == marked[Due(given, at, marked, j + 1, n, k)].id)
  {
    var given := pairs[at := pairs[at].(rsp := Some(dst[j].id))];
    var marked := dst[j := dst[j].(processed := true)];
    if dst[j].ack <= pairs[k].nxt {
      PassedDoNotWait(pairs, cur, at, k, dst[j].ack);
      GivenEarlier(pairs, at, at + 1, k, dst[j].id);
      MarkedEarlier(dst, j, j + 1, n, pairs[k].nxt, Waiting(given, at, k));
      assert Due(pairs, cur, dst, j, n, k) == Due(given, at, marked, j + 1, n, k);
      assert forall i :: cur <= i < at ==> pairs[i].nxt <= pairs[k].nxt by {
        assert forall i :: cur <= i < at ==> Passes(pairs[i], dst[j].ack);
      }
      assert forall i :: at <= i < k ==> given[i].nxt == pairs[i].nxt;
      assert forall a :: j < a < n ==> marked[a] == dst[a];
    } else {
      assert given[at].nxt == pairs[at].nxt > pairs[k].nxt;
    }
  }

  /** When the cursor stops short without a match, what is due to pair `k` stays due. */
  lemma Stuck(pairs: seq<PairState>, cur: nat, at: nat, dst: seq<Rec>, j: nat, n: nat, k: nat)
    requires cur <= at <= k < |pairs| && j < n <= |dst| && Pending(dst[j], Rsp)
    requires forall i :: cur <= i < at ==> Passes(pairs[i], dst[j].ack)
    requires dst[j].ack < pairs[at].nxt
    ensures var marked := dst[j := dst[j].(processed := true)];
            && (InReach(pairs, cur, dst, j, n, k) <==> InReach(pairs, at, marked, j + 1, n, k))
            && (InReach(pairs, cur, dst, j, n, k) ==>
                  dst[Due(pairs, cur, dst, j, n, k)].id == marked[Due(pairs, at, marked, j + 1, n, k)].id)
  {
    var marked := dst[j := dst[j].(processed := true)];
    if dst[j].ack < pairs[k].nxt {
      PassedDoNotWait(pairs, cur, at, k, dst[j].ack);
      MarkedEarlier(dst, j, j + 1, n, pairs[k].nxt, Waiting(pairs, at, k));
      assert Due(pairs, cur, dst, j, n, k) == Due(pairs, at, marked, j + 1, n, k);
      assert forall i :: cur <= i < at ==> pairs[i].nxt <= pairs[k].nxt by {
        assert forall i :: cur <= i < at ==> Passes(pairs[i], dst[j].ack);
      }
      assert forall a :: j < a < n ==> marked[a] == dst[a];
    } else {
      assert pairs[at].nxt > pairs[k].nxt;
    }
  }

  /** A record that is no pending response makes no difference. */
  lemma SkipReach(pairs: seq<PairState>, cur: nat, dst: seq<Rec>, j: nat, n: nat, k: nat)
    requires k < |pairs| && j < n <= |dst| && !Pending(dst[j], Rsp)
    ensures Due(pairs, cur, dst, j, n, k) == Due(pairs, cur, dst, j + 1, n, k)
    ensures InReach(pairs, cur, dst, j, n, k) <==> InReach(pairs, cur, dst, j + 1, n, k)
  {
  }

  /** A pair misses the response it is due exactly when one before it needs a higher acknowledgement,
    * or a higher acknowledgement comes first. */
  lemma MissedExactlyWhen(pairs: seq<PairState>, cur: nat, dst: seq<Rec>, j: nat, n: nat, k: nat)
    requires cur <= k < |pairs| && j <= n <= |dst| && pairs[k].rsp.None? && Due(pairs, cur, dst, j, n, k) < n
    ensures |Attach(pairs, cur, dst, j, n).0| == |pairs|
    ensures Attach(pairs, cur, dst, j, n).0[k].rsp.None?
       <==> || (exists i :: cur <= i < k && pairs[i].nxt > pairs[k].nxt)
            || (exists a :: j <= a < Due(pairs, cur, dst, j, n, k) && Pending(dst[a], Rsp) && dst[a].ack > pairs[k].nxt)
  {
    CursorGives(pairs, cur, dst, j, n, k);
  }

  /** The first way to miss: the request stands behind one with a higher number. */
  lemma OutOfOrderRequestMissed()
    ensures var early := PairState(1, 10, false, None, false);
            var late := PairState(2, 20, false, None, false);
            var rsp := Rec(3, Rsp, 0, 10, 0, 0, false, false);
            && Due([late, early], 0, [rsp], 0, 1, 1) == Due([early, late], 0, [rsp], 0, 1, 0) == 0
            && |Attach([late, early], 0, [rsp], 0, 1).0| == 2 && Attach([late, early], 0, [rsp], 0, 1).0[1].rsp.None?
            && |Attach([early, late], 0, [rsp], 0, 1).0| == 2 && Attach([early, late], 0, [rsp], 0, 1).0[0].rsp.Some?
  {
    var early := PairState(1, 10, false, None, false);
    var late := PairState(2, 20, false, None, false);
    var rsp := Rec(3, Rsp, 0, 10, 0, 0, false, false);
    hide Attach;
    assert [late, early][0].nxt > [late, early][1].nxt;
    MissedExactlyWhen([late, early], 0, [rsp], 0, 1, 1);
    MissedExactlyWhen([early, late], 0, [rsp], 0, 1, 0);
  }

  /** The second way: a response with a higher acknowledgement comes first. */
  lemma FallingAckMissed()
    ensures var first := PairState(1, 10, false, None, false);
            var second := PairState(2, 20, false, None, false);
            var high := Rec(3, Rsp, 0, 20, 0, 0, false, false);
            var low := Rec(4, Rsp, 0, 10, 0, 0, false, false);
            && Due([first, second], 0, [high, low], 0, 2, 0) == 1
            && |Attach([first, second], 0, [high, low], 0, 2).0| == 2
            && Attach([first, second], 0, [high, low], 0, 2).0[0].rsp.None?
  {
    var first := PairState(1, 10, false, None, false);
    var second := PairState(2, 20, false, None, false);
    var high := Rec(3, Rsp, 0, 20, 0, 0, false, false);
    var low := Rec(4, Rsp, 0, 10, 0, 0, false, false);
    hide Attach;
    assert Pending([high, low][0], Rsp) && [high, low][0].ack > [first, second][0].nxt;
    MissedExactlyWhen([first, second], 0, [high, low], 0, 2, 0);
  }

  /** Requests stand in the order of their numbers. */
  ghost predicate Increasing(pairs: seq<PairState>) {
    forall i, k :: 0 <= i < k < |pairs| ==> pairs[i].nxt < pairs[k].nxt
  }

  /** No pending response acknowledges less than an earlier one. */
  ghost predicate AcksRise(dst: seq<Rec>, n: nat)
    requires n <= |dst|
  {
    forall a, b :: 0 <= a < b < n && Pending(dst[a], Rsp) && Pending(dst[b], Rsp) ==> dst[a].ack <= dst[b].ack
  }

  lemma {:induction false} NoneWaits(pairs: seq<PairState>, cur: nat, k: nat)
    requires k < |pairs| && forall i :: cur <= i < k ==> pairs[i].nxt != pairs[k].nxt
    ensures Waiting(pairs, cur, k) == 0
    decreases k - cur
  {
    if cur < k { NoneWaits(pairs, cur + 1, k); }
  }

  /** In order, one pass gives every waiting pair exactly the first response that acknowledges it; stopping early
    * loses none. */
  lemma CursorFindsFirst(pairs: seq<PairState>, dst: seq<Rec>, n: nat, k: nat)
    requires k < |pairs| && n <= |dst| && Increasing(pairs) && AcksRise(dst, n)
    ensures |Attach(pairs, 0, dst, 0, n).0| == |pairs|
    ensures var first := MatchAt(dst, 0, n, pairs[k].nxt, 0);
            Attach(pairs, 0, dst, 0, n).0[k]
            == if pairs[k].rsp.Some? || first == n then pairs[k] else pairs[k].(rsp := Some(dst[first].id))
  {
    if pairs[k].rsp.Some? {
      Untouched(pairs, 0, dst, 0, n, k);
    } else {
      NoneWaits(pairs, 0, k);
      CursorGives(pairs, 0, dst, 0, n, k);
    }
  }

  // --- One extraction -----------------------------------------------------------

  /** The pairs and the destination's records after one extraction: with no new request it stops before the
    * responses. */
  function Extract(pairs: seq<PairState>, src: seq<Rec>, dst: seq<Rec>): (seq<PairState>, seq<Rec>) {
    var fin := FinRec(src, dst);
    var made := Requests(src, Upto(src, fin));
    if made == [] then (pairs, dst) else Attach(pairs + made, 0, dst, 0, Upto(dst, fin))
  }

  /** What one extraction gives to a pair that waits: nothing without a new request, else exactly what the cursor
    * can reach. */
  lemma AnsweredExactlyWhen(pairs: seq<PairState>, src: seq<Rec>, dst: seq<Rec>, k: nat)
    requires var all := pairs + Requests(src, Upto(src, FinRec(src, dst))); k < |all| && all[k].rsp.None?
    ensures var fin := FinRec(src, dst);
            var n := Upto(dst, fin);
            var made := Requests(src, Upto(src, fin));
            var after := Extract(pairs, src, dst).0;
            && k < |after|
            && (after[k].rsp.Some? <==> made != [] && InReach(pairs + made, 0, dst, 0, n, k))
            && (after[k].rsp.Some? ==> after[k].rsp == Some(dst[Due(pairs + made, 0, dst, 0, n, k)].id))
  {
    var fin := FinRec(src, dst);
    var made := Requests(src, Upto(src, fin));
    if made != [] {
      CursorGives(pairs + made, 0, dst, 0, Upto(dst, fin), k);
    }
  }

  /** A response in reach is left pending when no new request comes with it. */
  lemma WaitsForNextRequest()
    ensures var pairs := [PairState(1, 10, true, None, false)];
            var rsp := Rec(2, Rsp, 0, 10, 0, 0, false, false);
            InReach(pairs, 0, [rsp], 0, 1, 0) && Extract(pairs, [], [rsp]) == (pairs, [rsp])
  {
  }

  // --- The same in terms of the records -------------------------------------------

  /** How many pairs wait for an acknowledgement. */
  function WaitingFor(pairs: seq<PairState>, ack: int): nat {
    if pairs == [] then 0
    else (if pairs[0].rsp.None? && pairs[0].nxt == ack then 1 else 0) + WaitingFor(pairs[1..], ack)
  }

  lemma {:induction false} WaitingJoin(a: seq<PairState>, b: seq<PairState>, ack: int)
    ensures WaitingFor(a + b, ack) == WaitingFor(a, ack) + WaitingFor(b, ack)
  {
    if a == [] {
      assert a + b == b;
    } else {
      WaitingJoin(a[1..], b, ack);
      assert (a + b)[1..] == a[1..] + b;
    }
  }

  lemma {:induction false} WaitingIs(pairs: seq<PairState>, cur: nat, k: nat)
    requires cur <= k < |pairs|
    ensures Waiting(pairs, cur, k) == WaitingFor(pairs[cur..k], pairs[k].nxt)
    decreases k - cur
  {
    if cur < k {
      WaitingIs(pairs, cur + 1, k);
      assert pairs[cur..k][1..] == pairs[cur + 1..k];
    }
  }

  /** How many pending requests among the first `n` records end at the same number. */
  function AskingAt(s: seq<Rec>, n: nat, ends: int): nat
    requires n <= |s|
  {
    if n == 0 then 0 else AskingAt(s, n - 1, ends) + if Pending(s[n - 1], Req) && s[n - 1].ends == ends then 1 else 0
  }

  lemma {:induction false} AskingWaits(s: seq<Rec>, n: nat, ends: int)
    requires n <= |s|
    ensures WaitingFor(Requests(s, n), ends) == AskingAt(s, n, ends)
  {
    if n > 0 {
      AskingWaits(s, n - 1, ends);
      if Pending(s[n - 1], Req) {
        WaitingJoin(Requests(s, n - 1), [NewPair(s[n - 1])], ends);
      } else {
        assert Requests(s, n - 1) + [] == Requests(s, n - 1);
      }
    }
  }

  /** How many pending responses among records `j` to `n` acknowledge just this number. */
  function Acknowledging(s: seq<Rec>, j: nat, n: nat, ack: int): nat
    requires j <= n <= |s|
    decreases n - j
  {
    if j == n then 0 else (if Pending(s[j], Rsp) && s[j].ack == ack then 1 else 0) + Acknowledging(s, j + 1, n, ack)
  }

  /** The response looked for has just `m` others for the same number in front of it; there is none when there are no
    * more than those. */
  lemma {:induction false} MatchAtIs(dst: seq<Rec>, j: nat, n: nat, ack: int, m: nat)
    requires j <= n <= |dst|
    ensures var f := MatchAt(dst, j, n, ack, m);
            && (f < n ==> Pending(dst[f], Rsp) && dst[f].ack == ack && Acknowledging(dst, j, f, ack) == m)
            && (f == n ==> Acknowledging(dst, j, n, ack) <= m)
    decreases n - j
  {
    if j < n {
      if !Pending(dst[j], Rsp) || dst[j].ack != ack {
        MatchAtIs(dst, j + 1, n, ack, m);
      } else if m > 0 {
        MatchAtIs(dst, j + 1, n, ack, m - 1);
      }
    }
  }

  /** A request found by an extraction gets the response that acknowledges the number where its payload ends, unless
    * a request before it ends higher or a response before that one acknowledges more; requests and pairs before it
    * that wait for the same number come first. */
  lemma RequestAnswered(pairs: seq<PairState>, src: seq<Rec>, dst: seq<Rec>, i: nat)
    requires i < Upto(src, FinRec(src, dst)) && Pending(src[i], Req)
    ensures var n := Upto(dst, FinRec(src, dst));
            var after := Extract(pairs, src, dst).0;
            var k := |pairs| + Asking(src, i);
            var ends := src[i].ends;
            var f := MatchAt(dst, 0, n, ends, WaitingFor(pairs, ends) + AskingAt(src, i, ends));
            && k < |after| && after[k].id == src[i].id && after[k].nxt == ends
            && after[k].rsp == if && f < n
                                  && (forall p :: 0 <= p < |pairs| ==> pairs[p].nxt <= ends)
                                  && (forall j :: 0 <= j < i && Pending(src[j], Req) ==> src[j].ends <= ends)
                                  && (forall a :: 0 <= a < f && Pending(dst[a], Rsp) ==> dst[a].ack <= ends)
                               then Some(dst[f].id) else None
  {
    hide Attach, Upto, FinRec, MatchAt, Waiting, WaitingFor, AskingAt, Requests;
    var fin := FinRec(src, dst);
    var made := Requests(src, Upto(src, fin));
    var all, k := pairs + made, |pairs| + Asking(src, i);
    RequestsAre(src, Upto(src, fin));
    WaitingIs(all, 0, k);
    assert all[0..k] == pairs + Requests(src, i);
    WaitingJoin(pairs, Requests(src, i), src[i].ends);
    AskingWaits(src, i, src[i].ends);
    EndsBefore(pairs, src, i, all, k);
    CursorGives(all, 0, dst, 0, Upto(dst, fin), k);
  }

  /** The pairs before a new one are the old ones and those of the requests before it. */
  lemma EndsBefore(pairs: seq<PairState>, src: seq<Rec>, i: nat, all: seq<PairState>, k: nat)
    requires i < |src| && k < |all| && all[..k] == pairs + Requests(src, i)
    ensures var ends := all[k].nxt;
            (forall p :: 0 <= p < k ==> all[p].nxt <= ends)
            <==> (forall p :: 0 <= p < |pairs| ==> pairs[p].nxt <= ends)
                 && (forall j :: 0 <= j < i && Pending(src[j], Req) ==> src[j].ends <= ends)
  {
    hide Requests, Asking;
    RequestsAre(src, i);
    var made := Requests(src, i);
    var ends := all[k].nxt;
    assert forall p :: 0 <= p < k ==> all[p] == all[..k][p] == (pairs + made)[p];
    assert forall p :: 0 <= p < |pairs| ==> all[p] == pairs[p];
    forall j | 0 <= j < i && Pending(src[j], Req) ensures all[|pairs| + Asking(src, j)].nxt == src[j].ends {
      assert made[Asking(src, j)].nxt == src[j].ends;
    }
    forall p | |pairs| <= p < k ensures exists j :: 0 <= j < i && Pending(src[j], Req) && all[p].nxt == src[j].ends {
      assert all[p] == made[p - |pairs|];
      OnlyRequests(src, i, all[p]);
    }
  }

  // --- Reporting ------------------------------------------------------------------

  /** A pair after it was visited: both of its messages are reported. */
  function Reported(p: PairState): PairState {
    p.(reqDone := true, rspDone := p.rspDone || p.rsp.Some?)
  }

  function NewRequests(v: seq<PairState>): seq<nat> {
    if v == [] then [] else NewRequests(v[..|v| - 1]) + if v[|v| - 1].reqDone then [] else [v[|v| - 1].id]
  }

  function NewResponses(v: seq<PairState>): seq<nat> {
    if v == [] then []
    else NewResponses(v[..|v| - 1]) + if v[|v| - 1].rsp.Some? && !v[|v| - 1].rspDone then [v[|v| - 1].rsp.value] else []
  }

  /** Where the list begins after a visit of its first `n` pairs: behind the last one found answered and reported
    * that is not the end of the list. */
  function Start(v: seq<PairState>, n: nat): (r: nat)
    requires n <= |v|
    ensures r <= n
  {
    if n == 0 then 0
    else if v[n - 1].rsp.Some? && v[n - 1].rspDone && n < |v| then n
    else Start(v, n - 1)
  }

  lemma VisitStep(v: seq<PairState>, i: nat)
    requires i < |v|
    ensures Start(v, i + 1) == if v[i].rsp.Some? && v[i].rspDone && i + 1 < |v| then i + 1 else Start(v, i)
    ensures NewRequests(v[..i + 1]) == NewRequests(v[..i]) + if v[i].reqDone then [] else [v[i].id]
    ensures NewResponses(v[..i + 1])
         == NewResponses(v[..i]) + if v[i].rsp.Some? && !v[i].rspDone then [v[i].rsp.value] else []
  {
    assert v[..i + 1][..i] == v[..i];
  }

  /** A pair leaves the list exactly when it, or a pair after it, was answered and reported and is not the last:
    * an unanswered pair goes together with the answered one behind it. */
  lemma {:induction false} LeavesExactlyWhen(v: seq<PairState>, n: nat, k: nat)
    requires k < n <= |v|
    ensures k < Start(v, n) <==> exists j :: k <= j < n && j + 1 < |v| && v[j].rsp.Some? && v[j].rspDone
    decreases n
  {
    if v[n - 1].rsp.Some? && v[n - 1].rspDone && n < |v| {
    } else if k < n - 1 {
      LeavesExactlyWhen(v, n - 1, k);
    } else {
      assert Start(v, n) <= n - 1;
    }
  }

  /** A pair that still waits for its response leaves together with the reported one behind it. */
  lemma WaitingPairLeaves()
    ensures var waiting := PairState(1, 10, true, None, false);
            var reported := PairState(2, 20, true, Some(5), true);
            var v := [waiting, reported, PairState(3, 30, true, None, false)];
            v[0].rsp.None? && 0 < Start(v, 3)
  {
    var waiting := PairState(1, 10, true, None, false);
    var reported := PairState(2, 20, true, Some(5), true);
    var v := [waiting, reported, PairState(3, 30, true, None, false)];
    assert v[1].rspDone;
    LeavesExactlyWhen(v, 3, 0);
  }
}
