/** Creating, finding, filling and finishing the flows of the table. */
module FlowHashTable {
  import opened Bytes
  import opened FlowQueue
  import opened FlowTable
  import opened Lists
  import opened Options
  import opened PacketTypes

  ghost function Elems<T>(s: seq<T>): set<T> {
    set x | x in s
  }

  /** What becomes of a flow that takes a packet. */
  datatype Fate = Dropped | Finished | Restarted | Kept

  /** A reset before the source has sent four packets drops the flow; a later one, or any FIN, finishes it;
    * a repeated SYN of the source starts it anew. */
  function FateOf(flags: byte, src: bool, pktsSrc: nat): Fate {
    if Has(flags, TH_RST) then (if pktsSrc < 4 then Dropped else Finished)
    else if Has(flags, TH_FIN) then Finished
    else if src && flags == TH_SYN && pktsSrc != 0 then Restarted
    else Kept
  }

  /** The lengths of all chains together. */
  ghost function Total(chains: seq<seq<Flow>>): nat {
    if chains == [] then 0 else Total(chains[..|chains| - 1]) + |chains[|chains| - 1]|
  }

  lemma {:induction false} TotalUpdate(chains: seq<seq<Flow>>, i: nat, x: seq<Flow>)
    requires i < |chains|
    ensures Total(chains[i := x]) == Total(chains) - |chains[i]| + |x|
  {
    var n := |chains| - 1;
    if i == n {
      assert chains[i := x][..n] == chains[..n];
    } else {
      assert chains[i := x][..n] == chains[..n][i := x];
      TotalUpdate(chains[..n], i, x);
    }
  }

  ghost function NoChains(n: nat): seq<seq<Flow>> {
    seq(n, i => [])
  }

  lemma {:induction false} TotalZero(n: nat)
    ensures Total(NoChains(n)) == 0
  {
    if n > 0 {
      assert NoChains(n)[..n - 1] == NoChains(n - 1);
      TotalZero(n - 1);
    }
  }

  /** Chain `i` lists just the live flows whose sockets hash to `i`. */
  ghost predicate Placed(chains: seq<seq<Flow>>, live: set<Flow>)
    requires |chains| == HASH_SIZE
  {
    && (forall i, f :: 0 <= i < |chains| && f in chains[i] ==> f in live && HashFlow(f.sock) == i)
    && (forall f :: f in live ==> f in chains[HashFlow(f.sock)])
  }

  lemma PlacedAt(chains: seq<seq<Flow>>, live: set<Flow>, i: nat, f: Flow)
    requires |chains| == HASH_SIZE && Placed(chains, live) && i < |chains| && f in chains[i]
    ensures f in live && HashFlow(f.sock) == i
  {
    hide HashFlow;
  }

  lemma ChainLive(chains: seq<seq<Flow>>, live: set<Flow>, i: nat)
    requires |chains| == HASH_SIZE && Placed(chains, live) && i < |chains|
    ensures forall f :: f in chains[i] ==> f in live
  {
    hide HashFlow;
  }

  lemma ChainsApart(chains: seq<seq<Flow>>, live: set<Flow>, i: nat, j: nat)
    requires |chains| == HASH_SIZE && Placed(chains, live) && i < |chains| && j < |chains| && i != j
    ensures forall g :: g in chains[i] ==> g !in chains[j] && g in live
  {
    hide HashFlow;
    forall g | g in chains[i] ensures g !in chains[j] && g in live {
      assert HashFlow(g.sock) == i;
    }
  }

  lemma PlacedPut(chains: seq<seq<Flow>>, live: set<Flow>, f: Flow)
    requires |chains| == HASH_SIZE && Placed(chains, live) && f !in live
    ensures var h := HashFlow(f.sock); Placed(chains[h := chains[h] + [f]], live + {f})
  {
    hide HashFlow;
    var h := HashFlow(f.sock);
    var after := chains[h := chains[h] + [f]];
    forall i, g | 0 <= i < |after| && g in after[i] ensures g in live + {f} && HashFlow(g.sock) == i {
      if g != f { assert g in chains[i]; }
    }
    forall g | g in live + {f} ensures g in after[HashFlow(g.sock)] {
      if g != f { assert g in chains[HashFlow(g.sock)]; }
    }
  }

  lemma PlacedCut(chains: seq<seq<Flow>>, live: set<Flow>, f: Flow, k: nat)
    requires |chains| == HASH_SIZE && Placed(chains, live)
    requires var h := HashFlow(f.sock); k < |chains[h]| && chains[h][k] == f && Distinct(chains[h])
    ensures var h := HashFlow(f.sock); Placed(chains[h := Cut(chains[h], k)], live - {f})
  {
    hide HashFlow;
    var h := HashFlow(f.sock);
    CutDistinct(chains[h], k);
    var after := chains[h := Cut(chains[h], k)];
    hide Distinct, Cut;
    forall i, g | 0 <= i < |after| && g in after[i] ensures g in live - {f} && HashFlow(g.sock) == i {
      assert g in chains[i];
    }
    forall g | g in live - {f} ensures g in after[HashFlow(g.sock)] {
      assert g in chains[HashFlow(g.sock)];
    }
  }

  /** No socket occurs twice, nor beside its distinct reverse. */
  ghost predicate Unique(live: set<Flow>) {
    forall f, g :: f in live && g in live && (f.sock == g.sock || f.sock == Reverse(g.sock)) ==> f == g
  }

  ghost function Socks(live: set<Flow>): set<Socket> {
    set f | f in live :: f.sock
  }

  lemma UniquePut(live: set<Flow>, f: Flow)
    requires Unique(live) && f.sock !in Socks(live) && Reverse(f.sock) !in Socks(live)
    ensures Unique(live + {f})
  {
    assert forall g :: g in live ==> g.sock in Socks(live);
    hide Socks;
    forall a, b | a in live + {f} && b in live + {f} && (a.sock == b.sock || a.sock == Reverse(b.sock))
      ensures a == b
    {
      assert Reverse(Reverse(b.sock)) == b.sock;
    }
  }

  /** In a table without repeats no socket stands beside its distinct reverse, and a socket names one flow. */
  lemma UniqueIsOneWay(live: set<Flow>)
    requires Unique(live)
    ensures OneWay(Socks(live)) && |Socks(live)| == |live|
  {
    forall s | s in Socks(live) && Reverse(s) in Socks(live) ensures Reverse(s) == s {
      var f :| f in live && f.sock == s;
      var g :| g in live && g.sock == Reverse(s);
      assert f == g;
    }
    if live == {} {
      assert Socks(live) == {};
    } else {
      var f :| f in live;
      UniqueIsOneWay(live - {f});
      forall g | g in live - {f} ensures g.sock != f.sock {
        assert g.sock == f.sock ==> g == f;
      }
      assert Socks(live) == Socks(live - {f}) + {f.sock};
    }
  }

  /** The flows created are split between those live, queued, dropped and on their way. */
  ghost predicate Accounted(created: set<Flow>, live: set<Flow>, queued: set<Flow>, dropped: set<Flow>,
                            limbo: set<Flow>)
  {
    && created == live + queued + dropped + limbo
    && live !! queued && live !! dropped && live !! limbo
    && queued !! dropped && queued !! limbo && dropped !! limbo
  }

  lemma AccountedNew(created: set<Flow>, live: set<Flow>, queued: set<Flow>, dropped: set<Flow>, f: Flow)
    requires Accounted(created, live, queued, dropped, {}) && f !in created
    ensures Accounted(created + {f}, live + {f}, queued, dropped, {})
  {
  }

  lemma AccountedLeave(created: set<Flow>, live: set<Flow>, queued: set<Flow>, dropped: set<Flow>, f: Flow)
    requires Accounted(created, live, queued, dropped, {}) && f in live
    ensures Accounted(created, live - {f}, queued, dropped, {f})
  {
  }

  lemma AccountedDrop(created: set<Flow>, live: set<Flow>, queued: set<Flow>, dropped: set<Flow>, f: Flow)
    requires Accounted(created, live, queued, dropped, {f})
    ensures Accounted(created, live, queued, dropped + {f}, {})
  {
  }

  lemma AccountedQueue(created: set<Flow>, live: set<Flow>, history: seq<Flow>, dropped: set<Flow>, f: Flow)
    requires Accounted(created, live, Elems(history), dropped, {f}) && Distinct(history)
    ensures Accounted(created, live, Elems(history + [f]), dropped, {})
    ensures Distinct(history + [f])
  {
    assert f !in Elems(history);
    assert Elems(history + [f]) == Elems(history) + {f};
  }

  /** The value that a timeout has after conversion to an unsigned long. */
  function Unsigned(timeout: int): int {
    if timeout >= 0 then timeout else 0x1_0000_0000_0000_0000 + timeout
  }

  /** Whether the time since the last packet exceeds the timeout. */
  predicate Expired(lastAction: int, timeout: int, now: int) {
    (if now >= lastAction then now - lastAction else lastAction - now) > Unsigned(timeout)
  }

  /** The times a signed 64-bit clock can show. */
  predicate OnClock(t: int) { 0 <= t < 0x8000_0000_0000_0000 }

  /** A timeout of -1 is no timeout at all: within the range of the clock no flow exceeds it. */
  lemma MinusOneScrubsNothing(lastAction: int, now: int)
    requires OnClock(lastAction) && OnClock(now)
    ensures !Expired(lastAction, -1, now)
  {
  }

  /** Of the flows visited, those moved are the ones that had expired when the clock was read for them. */
  ghost predicate Sifted(visit: seq<Flow>, moved: seq<Flow>, timeout: int, clock: nat -> int, from: nat)
    reads visit`lastAction
  {
    && (forall f :: f in moved ==> f in visit)
    && (forall n :: 0 <= n < |visit| ==>
          (visit[n] in moved <==> Expired(visit[n].lastAction, timeout, clock(from + n))))
  }

  /** For a timeout that is not negative: those that were idle for more than that many seconds. */
  lemma SiftedBy(visit: seq<Flow>, moved: seq<Flow>, timeout: int, clock: nat -> int)
    requires Sifted(visit, moved, timeout, clock, 0)
    ensures timeout >= 0 ==>
              forall n :: 0 <= n < |visit| ==>
                var last, now := visit[n].lastAction, clock(n);
                visit[n] in moved <==> (if now >= last then now - last else last - now) > timeout
  {
    forall n | 0 <= n < |visit|
      ensures visit[n] in moved <==> Expired(visit[n].lastAction, timeout, clock(0 + n))
    {
    }
  }

  lemma SiftNone(timeout: int, clock: nat -> int, from: nat)
    ensures Sifted([], [], timeout, clock, from)
  {
  }

  lemma SiftStep(visit: seq<Flow>, n: nat, moved: seq<Flow>, timeout: int, clock: nat -> int, from: nat)
    requires n < |visit| && Distinct(visit) && Sifted(visit[..n], moved, timeout, clock, from)
    ensures Sifted(visit[..n + 1],
                   moved + (if Expired(visit[n].lastAction, timeout, clock(from + n)) then [visit[n]] else []),
                   timeout, clock, from)
  {
    hide Expired;
    assert visit[..n + 1] == visit[..n] + [visit[n]];
    assert visit[n] !in visit[..n];
    forall x | 0 <= x < n ensures visit[..n][x] == visit[x] && visit[x] != visit[n] { }
  }

  ghost predicate Apart<T>(a: seq<T>, b: seq<T>) {
    forall x :: x in b ==> x !in a
  }

  lemma SiftJoin(a: seq<Flow>, moved: seq<Flow>, b: seq<Flow>, more: seq<Flow>, timeout: int, clock: nat -> int)
    requires Sifted(a, moved, timeout, clock, 0) && Sifted(b, more, timeout, clock, |a|)
    requires Apart(a, b)
    ensures Sifted(a + b, moved + more, timeout, clock, 0)
  {
    hide Expired;
    forall n | 0 <= n < |a + b|
      ensures (a + b)[n] in moved + more <==> Expired((a + b)[n].lastAction, timeout, clock(0 + n))
    {
      if n < |a| {
        assert a[n] in moved <==> Expired(a[n].lastAction, timeout, clock(0 + n));
      } else {
        assert b[n - |a|] in more <==> Expired(b[n - |a|].lastAction, timeout, clock(|a| + (n - |a|)));
      }
    }
  }

  lemma MinusOneMovesNone(visit: seq<Flow>, moved: seq<Flow>, clock: nat -> int)
    requires Sifted(visit, moved, -1, clock, 0) && forall n :: OnClock(clock(n))
    requires forall f :: f in visit ==> OnClock(f.lastAction)
    ensures moved == []
  {
    hide Expired, OnClock;
    if moved != [] {
      assert moved[0] in visit;
      var n :| 0 <= n < |visit| && visit[n] == moved[0];
      assert visit[n] in moved;
      MinusOneScrubsNothing(visit[n].lastAction, clock(0 + n));
    }
  }

  lemma ElemsAre<T>(s: seq<T>, e: set<T>)
    requires forall x :: x in s <==> x in e
    ensures Elems(s) == e
  {
  }

  lemma ElemsJoin<T>(s: seq<T>, t: seq<T>)
    ensures Elems(s + t) == Elems(s) + Elems(t)
  {
  }

  lemma AllIn<T>(s: seq<T>, e: set<T>)
    requires Elems(s) == e
    ensures forall x :: x in s ==> x in e
  {
    assert forall x :: x in s ==> x in Elems(s);
  }

  /** The chains end to end. */
  ghost function Flat(chains: seq<seq<Flow>>): seq<Flow> {
    if chains == [] then [] else Flat(chains[..|chains| - 1]) + chains[|chains| - 1]
  }

  lemma EmptyParts(chains: seq<seq<Flow>>)
    ensures Flat(chains[..0]) == [] && Elems<Flow>([]) == {}
  {
  }

  lemma FlatStep(chains: seq<seq<Flow>>, i: nat)
    requires i < |chains|
    ensures Flat(chains[..i + 1]) == Flat(chains[..i]) + chains[i]
  {
    assert chains[..i + 1][..i] == chains[..i];
  }

  lemma {:induction false} FlatChains(chains: seq<seq<Flow>>, live: set<Flow>, n: nat)
    requires |chains| == HASH_SIZE && Placed(chains, live) && n <= |chains|
    requires forall i :: 0 <= i < |chains| ==> Distinct(chains[i])
    ensures Distinct(Flat(chains[..n]))
    ensures forall f :: f in Flat(chains[..n]) <==> f in live && HashFlow(f.sock) < n
  {
    hide HashFlow;
    if n > 0 {
      assert chains[..n][..n - 1] == chains[..n - 1];
      FlatChains(chains, live, n - 1);
      JoinDistinct(Flat(chains[..n - 1]), chains[n - 1]);
    }
  }

  lemma RouteCases(present: set<Socket>, s: Socket, kind: Kind)
    ensures Route(present, s, kind) ==
            if Reverse(s) in present then Some((Reverse(s), false))
            else if s in present then Some((s, true))
            else if kind.Req? then Some((s, true))
            else if kind.Rsp? then Some((Reverse(s), false))
            else None
  {
  }

  /** One more packet adds itself to the chain of its direction, if it stays. */
  lemma HookedStep(log: seq<(Packet, bool)>, p: Packet, src: bool)
    ensures Hooked(log + [(p, src)], src) == Hooked(log, src) + (if Stays(p, src) then [p] else [])
    ensures Hooked(log + [(p, src)], !src) == Hooked(log, !src)
  {
    assert (log + [(p, src)])[..|log|] == log;
  }

  lemma ClosersGo(p: Packet, src: bool)
    requires Has(p.flags, TH_RST) || Has(p.flags, TH_FIN)
    ensures !Stays(p, src)
  {
  }

  class Table {
    const fq: Queue<Flow>
    const buckets: seq<Bucket>
    var flowCnt: int
    ghost var live: set<Flow>
    ghost var dropped: set<Flow>
    ghost var created: set<Flow>
    ghost var chains: seq<seq<Flow>>

    /** Bucket `i` holds chain `i`. */
    ghost predicate Holds(i: nat)
      requires i < |buckets| && i < |chains|
      reads this`chains, buckets, chains[i]`next, chains[i]`prev, chains[i]`hmb
    {
      buckets[i].flows == chains[i] && buckets[i].Valid()
    }

    /** Every chain is well formed, and every flow is in the chain that its socket hashes to. */
    ghost predicate Shaped()
      reads this`chains, this`live, buckets, live`next, live`prev, live`hmb
    {
      && |buckets| == |chains| == HASH_SIZE && Distinct(buckets)
      && Placed(chains, live)
      && (forall i :: 0 <= i < |buckets| ==> Holds(i))
    }

    /** The flow count is the sum of the chain counts, and the number of live flows. */
    ghost predicate Counted()
      reads this`chains, this`live, this`flowCnt
    {
      flowCnt == Total(chains) == |live|
    }

    /** Every flow ever created is live, was queued once, was dropped, or is on its way between these. */
    ghost predicate Conserved(limbo: set<Flow>)
      reads this, fq, fq.repr
    {
      && fq.Valid() && Distinct(fq.history)
      && Accounted(created, live, Elems(fq.history), dropped, limbo)
    }

    ghost predicate Tallies()
      reads this`live, live`pktsSrc, live`pktsDst, live`payloadSrc, live`payloadDst
      reads live`chainSrc, live`chainDst, live`log
    {
      forall f :: f in live ==> f.Tallied()
    }

    ghost predicate Stable(limbo: set<Flow>)
      reads this, buckets, fq, fq.repr, live`next, live`prev, live`hmb
      reads live`pktsSrc, live`pktsDst, live`payloadSrc, live`payloadDst, live`chainSrc, live`chainDst, live`log
    {
      Shaped() && Unique(live) && Counted() && Conserved(limbo) && Tallies()
    }

    ghost predicate Valid()
      reads this, buckets, fq, fq.repr, live`next, live`prev, live`hmb
      reads live`pktsSrc, live`pktsDst, live`payloadSrc, live`payloadDst, live`chainSrc, live`chainDst, live`log
    {
      Stable({})
    }

    ghost function Present(): set<Socket>
      reads this`live
    {
      Socks(live)
    }

    constructor (fq: Queue<Flow>)
      requires fq.Valid() && fq.history == []
      ensures Valid() && live == created == {} && this.fq == fq
      ensures forall i :: 0 <= i < |buckets| ==> fresh(buckets[i])
    {
      var slots: seq<Bucket> := [];
      while |slots| < HASH_SIZE
        invariant |slots| <= HASH_SIZE && Distinct(slots)
        invariant forall i :: 0 <= i < |slots| ==> fresh(slots[i]) && slots[i].Valid() && slots[i].flows == []
      {
        var slot := new Bucket();
        slots := slots + [slot];
      }
      this.fq := fq;
      buckets := slots;
      flowCnt := 0;
      live, dropped, created := {}, {}, {};
      chains := NoChains(HASH_SIZE);
      TotalZero(HASH_SIZE);
    }

    method Find(s: Socket) returns (f: Flow?)
      requires Valid()
      ensures f != null ==> f in live && f.sock == s && s in Present()
      ensures f == null <==> s !in Present()
    {
      hide Unique, Counted, Conserved, Tallies, Total;
      assert Holds(HashFlow(s));
      f := buckets[HashFlow(s)].Find(s);
      if f == null {
        forall g | g in live ensures g.sock != s {
          assert g in chains[HashFlow(g.sock)];
        }
      }
    }

    /** Appends a flow to one chain; the others keep their flows and links. */
    method AppendTo(ghost h: nat, hm: Bucket, f: Flow)
      requires Shaped() && f !in live && h < |buckets| && hm == buckets[h]
      modifies this`chains, hm, chains[h]`next, f`next, f`prev, f`hmb
      ensures chains == old(chains)[h := old(chains)[h] + [f]]
      ensures forall j :: 0 <= j < |buckets| ==> Holds(j)
    {
      hide Distinct, Bucket.Valid, Placed;
      ghost var was := chains;
      assert Holds(h);
      assert f !in was[h] by { if f in was[h] { PlacedAt(was, live, h, f); } }
      hm.Append(f);
      chains := was[h := was[h] + [f]];
      forall j | 0 <= j < |buckets| ensures Holds(j) {
        if j != h {
          Differ(buckets, j, h);
          assert old(Holds(j));
          ChainsApart(was, live, j, h);
          assert f !in was[j];
          assert forall g :: g in was[j] ==> g.next == old(g.next) && g.prev == old(g.prev) && g.hmb == old(g.hmb);
          assert buckets[j].flows == was[j];
        }
      }
    }

    /** Hooks a flow into the chain that its socket hashes to. */
    method Hook(f: Flow)
      requires Shaped() && Counted() && f !in live
      modifies this`chains, this`live, this`flowCnt, buckets, live`next, f`next, f`prev, f`hmb
      ensures Shaped() && Counted() && live == old(live) + {f}
    {
      hide Distinct, Holds, Placed, Total, HashFlow;
      ghost var h := HashFlow(f.sock);
      ghost var was := chains;
      ChainLive(chains, live, h);
      AppendTo(h, buckets[HashFlow(f.sock)], f);
      flowCnt := flowCnt + 1;
      live := live + {f};
      TotalUpdate(was, h, was[h] + [f]);
      PlacedPut(was, old(live), f);
    }

    /** Makes a flow for a socket that is not in the table in either direction. */
    method Create(s: Socket) returns (f: Flow)
      requires Valid() && s !in Present() && Reverse(s) !in Present()
      modifies this, buckets, live`next
      ensures Valid() && fresh(f) && f.sock == s
      ensures live == old(live) + {f} && created == old(created) + {f} && dropped == old(dropped)
      ensures f.pktsSrc == 0 && f.log == []
    {
      hide Socks, Shaped, Counted, Unique, Accounted, Elems, Distinct, Flow.Tallied, Queue.Valid;
      f := new Flow(s);
      Hook(f);
      created := created + {f};
      UniquePut(old(live), f);
      AccountedNew(old(created), old(live), Elems(fq.history), dropped, f);
      assert Conserved({});
      hide Conserved;
      assert Tallies();
      hide Tallies;
    }

    /** Takes a flow out of one chain; the others keep their flows and links. */
    method UnlinkFrom(ghost h: nat, hm: Bucket, f: Flow, ghost k: nat)
      requires Shaped() && h < |buckets| && hm == buckets[h] && k < |chains[h]| && chains[h][k] == f
      modifies this`chains, hm, chains[h]`next, chains[h]`prev
      ensures chains == old(chains)[h := Cut(old(chains)[h], k)]
      ensures forall j :: 0 <= j < |buckets| ==> Holds(j)
    {
      hide Distinct, Bucket.Valid, Placed;
      ghost var was := chains;
      assert Holds(h);
      hm.Unlink(f, k);
      chains := was[h := Cut(was[h], k)];
      forall g | g in chains[h] ensures g.hmb == old(g.hmb) { }
      forall j | 0 <= j < |buckets| ensures Holds(j) {
        if j != h {
          Differ(buckets, j, h);
          assert old(Holds(j));
          ChainsApart(was, live, j, h);
          assert forall g :: g in was[j] ==> g.next == old(g.next) && g.prev == old(g.prev) && g.hmb == old(g.hmb);
          assert buckets[j].flows == was[j];
        }
      }
    }

    /** Unhooks a flow from the chain that its socket hashes to. */
    method Unhook(f: Flow, ghost k: nat)
      requires Shaped() && Counted() && f in live
      requires k < |chains[HashFlow(f.sock)]| && chains[HashFlow(f.sock)][k] == f
      modifies this`chains, this`live, this`flowCnt, buckets, live`next, live`prev
      ensures Shaped() && Counted() && live == old(live) - {f}
      ensures chains == old(chains)[HashFlow(f.sock) := Cut(old(chains)[HashFlow(f.sock)], k)]
    {
      hide Distinct, Placed, Total, HashFlow;
      ghost var h := HashFlow(f.sock);
      ghost var was := chains;
      assert Holds(h);
      assert f.hmb == buckets[h] && Distinct(was[h]) by { HasHome(buckets[h], f, k); }
      hide Holds;
      ChainLive(was, live, h);
      UnlinkFrom(h, f.hmb, f, k);
      flowCnt := flowCnt - 1;
      live := live - {f};
      TotalUpdate(was, h, Cut(was[h], k));
      PlacedCut(was, old(live), f, k);
    }

    /** Takes a flow out of the table; what becomes of it is up to the caller. */
    method Remove(f: Flow, ghost k: nat)
      requires Valid() && f in live
      requires k < |chains[HashFlow(f.sock)]| && chains[HashFlow(f.sock)][k] == f
      modifies this`chains, this`live, this`flowCnt, buckets, live`next, live`prev
      ensures Stable({f}) && live == old(live) - {f}
      ensures chains == old(chains)[HashFlow(f.sock) := Cut(old(chains)[HashFlow(f.sock)], k)]
    {
      hide Shaped, Counted, Unique, Accounted, Elems, Distinct, HashFlow, Flow.Tallied, Queue.Valid;
      Unhook(f, k);
      AccountedLeave(created, old(live), Elems(fq.history), dropped, f);
      assert Unique(live) by { UniqueCut(old(live), f); }
      assert Conserved({f});
      hide Conserved;
      assert Tallies();
      hide Tallies;
    }

    /** The place of a live flow in its chain. */
    ghost function Place(f: Flow): (k: nat)
      requires Valid() && f in live
      reads this, buckets, fq, fq.repr, live
      ensures k < |chains[HashFlow(f.sock)]| && chains[HashFlow(f.sock)][k] == f
    {
      assert f in chains[HashFlow(f.sock)];
      var k :| 0 <= k < |chains[HashFlow(f.sock)]| && chains[HashFlow(f.sock)][k] == f;
      k
    }

    /** Counts a packet of a live flow that does not keep it. */
    method Note(f: Flow, p: Packet, src: bool, now: int)
      requires Valid() && f in live && !Stays(p, src)
      modifies f`pktsSrc, f`pktsDst, f`payloadSrc, f`payloadDst, f`lastAction, f`log
      ensures Valid() && f.Tallied() && f.log == old(f.log) + [(p, src)] && f.lastAction == now
    {
      hide Shaped, Counted, Unique, Accounted, Elems, Distinct, Queue.Valid, Flow.Summed, Stays, Hooked;
      f.CalPacket(p, src, now);
      HookedStep(old(f.log), p, src);
      assert f.Tallied();
      hide Flow.Tallied;
    }

    /** Keeps a packet with a live flow, and counts it. */
    method Keep(f: Flow, p: Packet, src: bool, now: int)
      requires Valid() && f in live && Stays(p, src)
      modifies f`pktsSrc, f`pktsDst, f`payloadSrc, f`payloadDst, f`chainSrc, f`chainDst, f`lastAction, f`log
      ensures Valid() && f.Tallied() && f.log == old(f.log) + [(p, src)] && f.lastAction == now
      ensures f.chainSrc == old(f.chainSrc) + (if src then [p] else [])
      ensures f.chainDst == old(f.chainDst) + (if src then [] else [p])
    {
      hide Shaped, Counted, Unique, Accounted, Elems, Distinct, Queue.Valid, Flow.Summed, Stays, Hooked;
      f.HookPacket(p, src);
      f.CalPacket(p, src, now);
      HookedStep(old(f.log), p, src);
      assert f.Tallied();
      hide Flow.Tallied;
    }

    /** Puts a removed flow in the queue of finished flows. */
    method Enqueue(f: Flow)
      requires Stable({f})
      modifies fq, fq.repr
      ensures Valid() && fq.history == old(fq.history) + [f] && fq.taken == old(fq.taken)
      ensures fresh(fq.repr - old(fq.repr))
    {
      hide Shaped, Counted, Unique, Placed, Accounted, Elems, Distinct, Flow.Tallied, Queue.Valid;
      AccountedQueue(created, live, fq.history, dropped, f);
      fq.Enq(f);
      assert Conserved({});
      hide Conserved;
      assert Tallies();
      hide Tallies;
    }

    lemma TalliedLive(f: Flow)
      requires Valid() && f in live
      ensures f.Tallied()
    {
      hide Shaped, Counted, Unique, Conserved, Flow.Tallied;
    }

    /** Closes a flow and moves it to the queue of finished flows. */
    method Finish(f: Flow)
      requires Valid() && f in live
      modifies this`chains, this`live, this`flowCnt, buckets, live`next, live`prev, f`close, fq, fq.repr
      ensures Valid() && fq.history == old(fq.history) + [f] && live == old(live) - {f}
      ensures f.close == 1
      ensures fresh(fq.repr - old(fq.repr))
    {
      hide Stable, HashFlow;
      f.close := 1;
      Remove(f, Place(f));
      Enqueue(f);
    }

    /** Gives a flow a packet that neither resets nor closes it. */
    method Extend(f: Flow, p: Packet, src: bool, now: int)
      requires Valid() && f in live && !Has(p.flags, TH_RST) && !Has(p.flags, TH_FIN)
      modifies f`pktsSrc, f`pktsDst, f`payloadSrc, f`payloadDst, f`chainSrc, f`chainDst
      modifies f`lastAction, f`close, f`log
      ensures Valid() && f.Tallied() && f.lastAction == now
      ensures f.log == (if FateOf(p.flags, src, old(f.pktsSrc)).Restarted? then [] else old(f.log)) + [(p, src)]
      ensures f.close == if FateOf(p.flags, src, old(f.pktsSrc)).Restarted? then 0 else old(f.close)
      ensures var anew := src && p.flags == TH_SYN && old(f.pktsSrc) != 0;
              && f.chainSrc == (if anew then [] else old(f.chainSrc))
                               + (if src && p.flags != TH_SYN && p.kind != Other then [p] else [])
              && f.chainDst == (if anew then [] else old(f.chainDst)) + (if !src && p.kind != Other then [p] else [])
    {
      hide Stable, Flow.Tallied;
      if src {
        if p.flags == TH_SYN && f.pktsSrc == 0 {
          Note(f, p, src, now);
        } else if p.flags == TH_SYN {
          Restart(f);
          Note(f, p, src, now);
        } else if p.kind != Other {
          Keep(f, p, src, now);
        } else {
          Note(f, p, src, now);
        }
      } else if p.kind != Other {
        Keep(f, p, src, now);
      } else {
        Note(f, p, src, now);
      }
    }

    /** Gives one packet to a flow of the table, which may restart, finish or drop it. */
    method Deliver(f: Flow, p: Packet, src: bool, now: int) returns (rc: int)
      requires Valid() && f in live
      modifies this, buckets, live, fq, fq.repr
      ensures Valid() && created == old(created)
      ensures var fate := FateOf(p.flags, src, old(f.pktsSrc));
              && live == (if fate.Dropped? || fate.Finished? then old(live) - {f} else old(live))
              && dropped == (if fate.Dropped? then old(dropped) + {f} else old(dropped))
              && fq.history == (if fate.Finished? then old(fq.history) + [f] else old(fq.history))
              && f.log == (if fate.Dropped? then old(f.log)
                           else if fate.Restarted? then [(p, src)]
                           else old(f.log) + [(p, src)])
              && f.lastAction == (if fate.Dropped? then old(f.lastAction) else now)
              && f.close == (if fate.Finished? then 1 else if fate.Restarted? then 0 else old(f.close))
              && (rc == 1 <==> fate.Dropped?)
      ensures Has(p.flags, TH_RST) && old(f.pktsSrc) < 4 ==>
                live == old(live) - {f} && dropped == old(dropped) + {f} && fq.history == old(fq.history)
      ensures (Has(p.flags, TH_RST) && old(f.pktsSrc) >= 4) || (!Has(p.flags, TH_RST) && Has(p.flags, TH_FIN)) ==>
                live == old(live) - {f} && dropped == old(dropped) && fq.history == old(fq.history) + [f]
      ensures !Has(p.flags, TH_RST) && !Has(p.flags, TH_FIN) ==>
                var anew := src && p.flags == TH_SYN && old(f.pktsSrc) != 0;
                && live == old(live) && dropped == old(dropped) && fq.history == old(fq.history)
                && f.log == (if anew then [] else old(f.log)) + [(p, src)]
                && f.chainSrc == (if anew then [] else old(f.chainSrc))
                                 + (if src && p.flags != TH_SYN && p.kind != Other then [p] else [])
                && f.chainDst == (if anew then [] else old(f.chainDst)) + (if !src && p.kind != Other then [p] else [])
      ensures Has(p.flags, TH_RST) || Has(p.flags, TH_FIN) ==>
                f.chainSrc == old(f.chainSrc) && f.chainDst == old(f.chainDst)
      ensures f.Tallied()
      ensures fresh(fq.repr - old(fq.repr))
      ensures forall g :: g in old(live) && g != f ==>
                g.log == old(g.log) && g.close == old(g.close) && g.lastAction == old(g.lastAction)
    {
      hide Stable, Elems, Flow.Tallied, HashFlow, Stays;
      TalliedLive(f);
      if Has(p.flags, TH_RST) || Has(p.flags, TH_FIN) { ClosersGo(p, src); }
      if Has(p.flags, TH_RST) {
        if f.pktsSrc < 4 {
          Remove(f, Place(f));
          Drop(f);
          return 1;
        } else {
          Note(f, p, src, now);
          Finish(f);
          return 0;
        }
      }
      if Has(p.flags, TH_FIN) {
        f.close := if src then 1 else 2;
        Note(f, p, src, now);
        if f.close == 1 || f.close == 2 {
          Finish(f);
        }
        return 0;
      }
      Extend(f, p, src, now);
      return 0;
    }

    lemma LiveWereCreated()
      requires Valid()
      ensures live <= created
    {
      hide Shaped, Counted, Unique, Elems, Tallies;
    }

    /** Makes a flow for a socket that is not in the table in either direction, and gives it a packet. */
    method AddNew(s: Socket, p: Packet, src: bool, now: int) returns (f: Flow)
      requires Valid() && s !in Present() && Reverse(s) !in Present()
      modifies this, buckets, live, fq, fq.repr
      ensures Valid() && fresh(f) && f.sock == s && created == old(created) + {f} && f !in old(created)
      ensures fresh(fq.repr - old(fq.repr)) && f.Tallied()
      ensures var fate := FateOf(p.flags, src, 0);
              && live == (if fate.Dropped? || fate.Finished? then old(live) else old(live) + {f})
              && dropped == (if fate.Dropped? then old(dropped) + {f} else old(dropped))
              && fq.history == (if fate.Finished? then old(fq.history) + [f] else old(fq.history))
              && (!fate.Dropped? ==> f.log == [(p, src)] && f.lastAction == now)
      ensures forall g :: g in old(live) ==>
                g.log == old(g.log) && g.close == old(g.close) && g.lastAction == old(g.lastAction)
    {
      hide Stable, FateOf, Present, Flow.Tallied;
      LiveWereCreated();
      f := Create(s);
      var d := Deliver(f, p, src, now);
      assert old(live) + {f} - {f} == old(live);
    }

    /** Files a packet: the flow of its connection takes it, or a new flow when it starts a request or a response. */
    method AddPacket(p: Packet, now: int) returns (rc: int, ghost to: Flow?)
      requires Valid()
      modifies this, buckets, live, fq, fq.repr
      ensures Valid() && rc == 0
      ensures fresh(fq.repr - old(fq.repr)) && fresh(live - old(live))
      ensures to == null <==> Route(old(Present()), p.sock, p.kind).None?
      ensures to == null ==>
                live == old(live) && created == old(created) && dropped == old(dropped) && fq.history == old(fq.history)
      ensures to != null ==>
                var (sock, src) := Route(old(Present()), p.sock, p.kind).value;
                && to.sock == sock && (to in old(live) <==> sock in old(Present()))
                && created == old(created) + {to}
                && (to !in old(live) ==> to !in old(created))
                && var fate := FateOf(p.flags, src, if to in old(live) then old(to.pktsSrc) else 0);
                && live == (if fate.Dropped? || fate.Finished? then old(live) - {to} else old(live) + {to})
                && dropped == (if fate.Dropped? then old(dropped) + {to} else old(dropped))
                && fq.history == (if fate.Finished? then old(fq.history) + [to] else old(fq.history))
                && to.Tallied() && (!fate.Dropped? ==> to.lastAction == now)
                && (fate.Restarted? ==> to.log == [(p, src)])
                && (!fate.Restarted? && !fate.Dropped? ==>
                      to.log == (if to in old(live) then old(to.log) else []) + [(p, src)])
      ensures to != null && Has(p.flags, TH_RST) && (to in old(live) ==> old(to.pktsSrc) < 4) ==>
                to !in live && dropped == old(dropped) + {to} && fq.history == old(fq.history)
      ensures to != null && Has(p.flags, TH_RST) && to in old(live) && old(to.pktsSrc) >= 4 ==>
                to !in live && dropped == old(dropped) && fq.history == old(fq.history) + [to]
      ensures to != null && !Has(p.flags, TH_RST) && Has(p.flags, TH_FIN) ==>
                to !in live && dropped == old(dropped) && fq.history == old(fq.history) + [to]
      ensures to != null && !Has(p.flags, TH_RST) && !Has(p.flags, TH_FIN) ==>
                var src := Route(old(Present()), p.sock, p.kind).value.1;
                var again := src && p.flags == TH_SYN && to in old(live) && old(to.pktsSrc) != 0;
                && to in live && dropped == old(dropped) && fq.history == old(fq.history)
                && to.log == (if to in old(live) && !again then old(to.log) else []) + [(p, src)]
      ensures forall g :: g in old(live) && g != to ==>
                g.log == old(g.log) && g.close == old(g.close) && g.lastAction == old(g.lastAction)
    {
      hide Stable, Route, Present, Flow.Tallied;
      LiveWereCreated();
      RouteCases(Present(), p.sock, p.kind);
      ghost var d: int;
      var cs := Reverse(p.sock);
      var f := Find(cs);
      if f != null {
        d := Deliver(f, p, false, now);
      } else {
        cs := p.sock;
        f := Find(cs);
        if f != null {
          d := Deliver(f, p, true, now);
        } else {
          match p.kind {
            case Req =>
              f := AddNew(cs, p, true, now);
            case Rsp =>
              cs := Reverse(p.sock);
              f := AddNew(cs, p, false, now);
            case Other =>
          }
        }
      }
      to := f;
      rc := 0;
    }

    lemma Sizes()
      requires Valid()
      ensures |chains| == |buckets| == HASH_SIZE
    {
    }

    lemma ChainHead(h: nat)
      requires Valid() && h < |buckets|
      ensures |chains| == |buckets| && buckets[h].first == At(chains[h], 0)
    {
      hide HashFlow, Counted, Unique, Conserved, Tallies;
      assert Holds(h);
    }

    lemma ChainNext(h: nat, k: nat)
      requires Valid() && h < |buckets| == |chains| && k < |chains[h]|
      ensures chains[h][k].next == At(chains[h], k + 1)
      ensures chains[h][k] in live && HashFlow(chains[h][k].sock) == h
    {
      hide HashFlow, Counted, Unique, Conserved, Tallies;
      assert Holds(h);
      assert Threaded(chains[h], k);
      PlacedAt(chains, live, h, chains[h][k]);
    }

    /** Closes a flow forcedly and moves it to the queue of finished flows. */
    method Force(f: Flow, ghost h: nat, ghost k: nat)
      requires Valid() && f in live && h == HashFlow(f.sock) && k < |chains[h]| && chains[h][k] == f
      modifies this`chains, this`live, this`flowCnt, buckets, live`next, live`prev, f`close, fq, fq.repr
      ensures Valid() && fq.history == old(fq.history) + [f] && live == old(live) - {f}
      ensures chains == old(chains)[h := chains[h]] && |chains[h]| == |old(chains)[h]| - 1
      ensures chains[h][..k] == old(chains)[h][..k] && chains[h][k..] == old(chains)[h][k + 1..]
      ensures f.close == FORCED_CLOSE
      ensures fresh(fq.repr - old(fq.repr))
    {
      hide Stable, HashFlow;
      Sizes();
      ghost var was := chains[h];
      f.close := FORCED_CLOSE;
      Remove(f, k);
      Enqueue(f);
    }

    lemma ChainDistinct(h: nat)
      requires Valid() && h < |buckets|
      ensures h < |chains| && Distinct(chains[h]) && forall f :: f in chains[h] ==> f in live
    {
      hide HashFlow, Counted, Unique, Conserved, Tallies;
      assert Holds(h);
      ChainLive(chains, live, h);
    }

    /** Moves the expired flows of one chain to the queue of finished flows. The clock is read once for every flow,
      * from reading `from` on. */
    method ScrubBucket(h: nat, timeout: int, clock: nat -> int, from: nat)
      returns (num: nat, read: nat, ghost moved: seq<Flow>)
      requires Valid() && h < |buckets| == |chains|
      modifies this`chains, this`live, this`flowCnt, buckets, live`next, live`prev, live`close, fq, fq.repr
      ensures Valid() && fq.history == old(fq.history) + moved && num == |moved|
      ensures read == |old(chains)[h]| && Sifted(old(chains)[h], moved, timeout, clock, from)
      ensures forall f :: f in live ==> f.close == old(f.close)
      ensures forall f :: f in moved ==> f in old(live) && f !in live && f.close == FORCED_CLOSE
      ensures live == old(live) - Elems(moved)
      ensures |chains| == |old(chains)| && forall j :: 0 <= j < |chains| && j != h ==> chains[j] == old(chains)[j]
      ensures fresh(fq.repr - old(fq.repr))
    {
      hide Stable, HashFlow, Expired, Distinct, Sifted;
      num, read, moved := 0, 0, [];
      ChainHead(h);
      ChainDistinct(h);
      ghost var was := chains[h];
      var flow := buckets[h].first;
      ghost var k := 0;
      SiftNone(timeout, clock, from);
      assert was[..0] == [];
      while flow != null
        invariant Valid() && fq.history == old(fq.history) + moved && num == |moved|
        invariant |chains| == |buckets| && 0 <= k <= |chains[h]| && read <= |was|
        invariant flow == At(chains[h], k) && chains[h][k..] == was[read..]
        invariant Sifted(was[..read], moved, timeout, clock, from)
        invariant forall f :: f in old(live) && f in live ==> f.close == old(f.close)
        invariant forall f :: f in moved ==> f in old(live) && f.close == FORCED_CLOSE
        invariant live == old(live) - Elems(moved)
        invariant |chains| == |old(chains)| && forall j :: 0 <= j < |chains| && j != h ==> chains[j] == old(chains)[j]
        invariant fresh(fq.repr - old(fq.repr))
        decreases |was| - read
      {
        ChainNext(h, k);
        var flowNext := flow.next;
        assert flow == was[read..][0] && was[read..][1..] == was[read + 1..];
        SiftStep(was, read, moved, timeout, clock, from);
        assert moved + [] == moved;
        if Expired(flow.lastAction, timeout, clock(from + read)) {
          num := num + 1;
          Force(flow, h, k);
          moved := moved + [flow];
        } else {
          k := k + 1;
        }
        read := read + 1;
        flow := flowNext;
      }
      assert was[..read] == was;
    }

    /** Every flow stands just once in the chains together. */
    lemma AllChained()
      requires Valid()
      ensures |chains| == |buckets| && Distinct(Flat(chains)) && Elems(Flat(chains)) == live
      ensures forall h :: 0 <= h < |chains| ==> Apart(Flat(chains[..h]), chains[h])
    {
      hide Counted, Unique, Conserved, Tallies, Flat;
      forall h | 0 <= h < |chains| ensures Distinct(chains[h]) { ChainDistinct(h); }
      hide Holds, Distinct;
      FlatChains(chains, live, |chains|);
      assert chains[..|chains|] == chains;
      ElemsAre(Flat(chains), live);
      forall h | 0 <= h < |chains| ensures Apart(Flat(chains[..h]), chains[h]) {
        FlatChains(chains, live, h);
        forall f | f in chains[h] ensures f !in Flat(chains[..h]) { PlacedAt(chains, live, h, f); }
      }
    }

    /** Moves every flow whose last packet is older than the timeout, by the clock as it stands when the flow is
      * looked at, to the queue of finished flows. The clock gives one reading for every flow of `visit` in turn. */
    method FlowScrubber(timeout: int, clock: nat -> int)
      returns (num: nat, ghost visit: seq<Flow>, ghost moved: seq<Flow>)
      requires Valid()
      modifies this`chains, this`live, this`flowCnt, buckets, live`next, live`prev, live`close, fq, fq.repr
      ensures Valid() && fq.history == old(fq.history) + moved && num == |moved|
      ensures Distinct(visit) && Elems(visit) == old(live) && Sifted(visit, moved, timeout, clock, 0)
      ensures live == old(live) - Elems(moved)
      ensures forall f :: f in moved ==> f.close == FORCED_CLOSE
      ensures fresh(fq.repr - old(fq.repr))
      ensures forall f :: f in live ==> f.close == old(f.close)
      ensures timeout >= 0 ==>
                forall n :: 0 <= n < |visit| ==>
                  var last, now := visit[n].lastAction, clock(n);
                  visit[n] in moved <==> (if now >= last then now - last else last - now) > timeout
      ensures timeout == -1 && (forall n :: OnClock(clock(n))) && (forall f :: f in old(live) ==> OnClock(f.lastAction))
              ==> num == 0 && live == old(live)
    {
      hide Stable, Expired, Sifted, Distinct, OnClock, Apart, Flat, Elems;
      num, moved := 0, [];
      Sizes();
      AllChained();
      ghost var was := chains;
      visit := Flat(was);
      var i, tick := 0, 0;
      SiftNone(timeout, clock, 0);
      ghost var seen: seq<Flow> := [];
      assert Flat(was[..0]) == [] && Elems(moved) == {} by { EmptyParts(was); }
      while i < |buckets|
        invariant 0 <= i <= |buckets| && Valid() && |chains| == |was| == |buckets|
        invariant forall j :: i <= j < |chains| ==> chains[j] == was[j]
        invariant fq.history == old(fq.history) + moved && num == |moved|
        invariant seen == Flat(was[..i]) && tick == |seen|
        invariant Sifted(seen, moved, timeout, clock, 0)
        invariant forall f :: f in old(live) && f in live ==> f.close == old(f.close)
        invariant forall f :: f in moved ==> f in old(live) && f !in live && f.close == FORCED_CLOSE
        invariant live == old(live) - Elems(moved)
        invariant fresh(fq.repr - old(fq.repr))
      {
        var n, read;
        ghost var more;
        n, read, more := ScrubBucket(i, timeout, clock, tick);
        SiftJoin(seen, moved, was[i], more, timeout, clock);
        FlatStep(was, i);
        num := num + n;
        tick := tick + read;
        ElemsJoin(moved, more);
        moved := moved + more;
        seen := seen + was[i];
        i := i + 1;
      }
      assert was[..|was|] == was;
      SiftedBy(visit, moved, timeout, clock);
      if timeout == -1 && (forall n :: OnClock(clock(n))) && (forall f :: f in old(live) ==> OnClock(f.lastAction)) {
        AllIn(visit, old(live));
        MinusOneMovesNone(visit, moved, clock);
      }
    }

    /** Gives up a removed flow. */
    ghost method Drop(f: Flow)
      requires Stable({f})
      modifies this`dropped
      ensures Valid() && dropped == old(dropped) + {f}
    {
      hide Shaped, Counted, Unique, Accounted, Elems, Distinct, Flow.Tallied, Queue.Valid;
      AccountedDrop(created, live, Elems(fq.history), dropped, f);
      dropped := dropped + {f};
    }

    method Restart(f: Flow)
      requires Valid() && f in live
      modifies f`pktsSrc, f`pktsDst, f`payloadSrc, f`payloadDst, f`chainSrc, f`chainDst
      modifies f`lastAction, f`close, f`log
      ensures Valid() && f.Tallied() && f.log == [] && f.chainSrc == f.chainDst == [] && f.close == 0
    {
      hide Shaped, Counted, Unique, Accounted, Elems, Distinct, Queue.Valid;
      f.Reset();
      hide Flow.Tallied;
    }
  }

  lemma UniqueCut(live: set<Flow>, f: Flow)
    requires Unique(live)
    ensures Unique(live - {f})
  {
  }

  lemma HasHome(b: Bucket, f: Flow, k: nat)
    requires b.Valid() && k < |b.flows| && b.flows[k] == f
    ensures f.hmb == b && Distinct(b.flows)
  {
  }
}
