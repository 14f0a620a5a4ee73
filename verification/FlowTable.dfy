/** The table of flows: chained buckets found by hashing a connection's addresses and ports. */
module FlowTable {
  import opened Bytes
  import opened FlowQueue
  import opened Lists
  import opened Options
  import opened PacketTypes

  datatype Socket = Socket(saddr: nat, daddr: nat, sport: nat, dport: nat)

  /** The same connection seen from the other end. */
  function Reverse(s: Socket): Socket {
    Socket(s.daddr, s.saddr, s.dport, s.sport)
  }

  /** The low octets of both ports and both addresses, packed into one word. */
  function HashFlow(s: Socket): (h: nat)
    ensures h < HASH_SIZE
  {
    (s.sport % 0x100 + (s.dport % 0x100) * 0x100 + (s.saddr % 0x100) * 0x1_0000 + (s.daddr % 0x100) * 0x100_0000)
      % HASH_SIZE
  }

  datatype Packet = Packet(sock: Socket, flags: byte, kind: Kind, dl: nat)

  const FORCED_CLOSE := 4

  /** How many packets of `log` came from the source, or from the destination. */
  ghost function Packets(log: seq<(Packet, bool)>, src: bool): nat {
    if log == [] then 0
    else Packets(log[..|log| - 1], src) + (if log[|log| - 1].1 == src then 1 else 0)
  }

  ghost function Octets(log: seq<(Packet, bool)>, src: bool): nat {
    if log == [] then 0
    else Octets(log[..|log| - 1], src) + (if log[|log| - 1].1 == src then log[|log| - 1].0.dl else 0)
  }

  /** Packets that stay with their flow: recognised ones that neither open, reset nor close it. */
  predicate Stays(p: Packet, src: bool) {
    && !Has(p.flags, TH_RST) && !Has(p.flags, TH_FIN)
    && !(src && p.flags == TH_SYN)
    && p.kind != Other
  }

  /** The packets of one direction that stay, in the order of their arrival. */
  ghost function Hooked(log: seq<(Packet, bool)>, src: bool): seq<Packet> {
    if log == [] then []
    else
      var (p, from) := log[|log| - 1];
      Hooked(log[..|log| - 1], src) + (if from == src && Stays(p, src) then [p] else [])
  }

  class Flow {
    const sock: Socket
    var next: Flow?
    var prev: Flow?
    var hmb: Bucket?
    var close: nat
    var lastAction: int
    var pktsSrc: nat
    var pktsDst: nat
    var payloadSrc: nat
    var payloadDst: nat
    /** The packets kept for pairing, one chain a direction. */
    var chainSrc: seq<Packet>
    var chainDst: seq<Packet>
    /** The packets counted since the flow was made or last reset, and whether each came from the source. */
    ghost var log: seq<(Packet, bool)>

    constructor (s: Socket)
      ensures sock == s && pktsSrc == pktsDst == payloadSrc == payloadDst == 0 && log == [] && Tallied()
    {
      sock := s;
      pktsSrc, pktsDst, payloadSrc, payloadDst := 0, 0, 0, 0;
      chainSrc, chainDst := [], [];
      log := [];
    }

    /** The counters agree with the packets that were counted. */
    ghost predicate Summed()
      reads this`pktsSrc, this`pktsDst, this`payloadSrc, this`payloadDst, this`log
    {
      && pktsSrc == Packets(log, true) && pktsDst == Packets(log, false)
      && payloadSrc == Octets(log, true) && payloadDst == Octets(log, false)
    }

    /** And the chains hold just those of them that stay. */
    ghost predicate Tallied()
      reads this`pktsSrc, this`pktsDst, this`payloadSrc, this`payloadDst, this`chainSrc, this`chainDst, this`log
    {
      Summed() && chainSrc == Hooked(log, true) && chainDst == Hooked(log, false)
    }

    /** Adds a packet to the chain of its direction. */
    method HookPacket(p: Packet, src: bool)
      modifies this`chainSrc, this`chainDst
      ensures chainSrc == old(chainSrc) + (if src then [p] else [])
      ensures chainDst == old(chainDst) + (if src then [] else [p])
    {
      if src {
        chainSrc := chainSrc + [p];
      } else {
        chainDst := chainDst + [p];
      }
    }

    /** Counts a packet and notes the time. */
    method CalPacket(p: Packet, src: bool, now: int)
      modifies this`pktsSrc, this`pktsDst, this`payloadSrc, this`payloadDst, this`lastAction, this`log
      ensures log == old(log) + [(p, src)] && lastAction == now
      ensures pktsSrc == old(pktsSrc) + (if src then 1 else 0) && pktsDst == old(pktsDst) + (if src then 0 else 1)
      ensures payloadSrc == old(payloadSrc) + (if src then p.dl else 0)
      ensures payloadDst == old(payloadDst) + (if src then 0 else p.dl)
      ensures old(Summed()) ==> Summed()
    {
      if src {
        pktsSrc := pktsSrc + 1;
        payloadSrc := payloadSrc + p.dl;
      } else {
        pktsDst := pktsDst + 1;
        payloadDst := payloadDst + p.dl;
      }
      lastAction := now;
      assert (log + [(p, src)])[..|log|] == log;
      log := log + [(p, src)];
    }

    /** Makes the flow ready to be used anew for the same socket. */
    method Reset()
      modifies this`pktsSrc, this`pktsDst, this`payloadSrc, this`payloadDst, this`lastAction, this`close, this`log
      modifies this`chainSrc, this`chainDst
      ensures log == [] && chainSrc == chainDst == [] && close == 0 && Tallied()
    {
      lastAction := 0;
      chainSrc, chainDst := [], [];
      payloadSrc, payloadDst := 0, 0;
      pktsSrc, pktsDst := 0, 0;
      close := 0;
      log := [];
    }
  }

  ghost function At(flows: seq<Flow>, i: int): Flow? {
    if 0 <= i < |flows| then flows[i] else null
  }

  /** Flow `i` of a chain points at both its neighbours. */
  ghost predicate Threaded(flows: seq<Flow>, i: nat)
    requires i < |flows|
    reads flows`next, flows`prev
  {
    flows[i].next == At(flows, i + 1) && flows[i].prev == At(flows, i - 1)
  }

  /** Flow `j` points at both its neighbours in the chain that leaves out flow `k`. */
  ghost predicate Bridged(was: seq<Flow>, k: nat, j: nat)
    requires j < |was|
    reads was`next, was`prev
  {
    && was[j].next == At(was, if j + 1 == k then k + 1 else j + 1)
    && was[j].prev == At(was, if j == k + 1 then k - 1 else j - 1)
  }

  lemma AtCut(was: seq<Flow>, k: nat, i: int)
    requires k < |was|
    ensures At(Cut(was, k), i) == At(was, if i < k then i else i + 1)
  {
  }

  lemma CutThreads(was: seq<Flow>, k: nat)
    requires k < |was|
    requires forall j :: 0 <= j < |was| && j != k ==> Bridged(was, k, j)
    ensures var r := Cut(was, k); forall i :: 0 <= i < |r| ==> Threaded(r, i)
  {
    var r := Cut(was, k);
    forall i | 0 <= i < |r| ensures Threaded(r, i) {
      var j := if i < k then i else i + 1;
      assert r[i] == was[j];
      assert Bridged(was, k, j);
      AtCut(was, k, i + 1);
      AtCut(was, k, i - 1);
      hide At;
    }
  }

  /** One slot of the table: the chain of the flows whose sockets hash to it. */
  class Bucket {
    var first: Flow?
    var last: Flow?
    var elmCnt: nat
    ghost var flows: seq<Flow>

    constructor ()
      ensures Valid() && flows == []
    {
      first, last, elmCnt, flows := null, null, 0, [];
    }

    /** `flows` lists the chain, linked both ways. */
    ghost predicate Valid()
      reads this, flows`next, flows`prev, flows`hmb
    {
      && Distinct(flows)
      && elmCnt == |flows|
      && first == At(flows, 0)
      && last == At(flows, |flows| - 1)
      && (forall i :: 0 <= i < |flows| ==> Threaded(flows, i))
      && (forall i :: 0 <= i < |flows| ==> flows[i].hmb == this)
    }

    /** Hooks a flow in at the end of the chain. */
    method Append(f: Flow)
      requires Valid() && f !in flows
      modifies this, flows`next, f`next, f`prev, f`hmb
      ensures Valid() && flows == old(flows) + [f]
    {
      hide Distinct;
      ghost var was := flows;
      if elmCnt == 0 {
        f.next := null;
        f.prev := null;
        first := f;
      } else {
        last.next := f;
        f.prev := last;
      }
      last := f;
      last.next := null;
      f.hmb := this;
      elmCnt := elmCnt + 1;
      flows := Put(was, |was|, f);
      PutDistinct(was, |was|, f);
      forall i | 0 <= i < |flows| ensures Threaded(flows, i) {
        if i < |was| - 1 {
          assert old(Threaded(was, i));
          assert was[i] in was;
          Differ(was, i, |was| - 1);
        } else if i == |was| - 1 {
          assert old(Threaded(was, i));
        }
      }
    }

    /** Takes a flow out of the chain. */
    method Unlink(f: Flow, ghost k: nat)
      requires Valid() && k < |flows| && flows[k] == f
      modifies this, flows`next, flows`prev
      ensures Valid() && flows == Cut(old(flows), k)
      ensures forall g :: g in flows <==> g in old(flows) && g != f
      ensures f.next == null && f.prev == null
    {
      hide Distinct;
      ghost var was := flows;
      assert Threaded(was, k);
      assert k > 0 ==> Threaded(was, k - 1);
      assert k + 1 < |was| ==> Threaded(was, k + 1);
      if elmCnt == 1 && f == first {
        first := null;
        last := null;
      } else {
        if f.prev == null {
          first := f.next;
          first.prev := null;
        } else if f.next == null {
          last := f.prev;
          last.next := null;
        } else {
          f.prev.next := f.next;
          f.next.prev := f.prev;
        }
      }
      f.next := null;
      f.prev := null;
      elmCnt := elmCnt - 1;
      flows := Cut(was, k);
      CutDistinct(was, k);
      forall j | 0 <= j < |was| && j != k ensures Bridged(was, k, j) {
        assert old(Threaded(was, j));
        Differ(was, j, k);
        if k > 0 && j != k - 1 { Differ(was, j, k - 1); }
        if k + 1 < |was| && j != k + 1 { Differ(was, j, k + 1); }
      }
      CutThreads(was, k);
    }

    /** Looks for a socket along the chain. */
    method Find(s: Socket) returns (f: Flow?)
      requires Valid()
      ensures f != null ==> f in flows && f.sock == s
      ensures f == null ==> forall g :: g in flows ==> g.sock != s
    {
      hide Distinct;
      f := null;
      if elmCnt > 0 {
        f := first;
        ghost var i := 0;
        while f != null
          invariant 0 <= i <= |flows| && f == At(flows, i)
          invariant forall m :: 0 <= m < i ==> flows[m].sock != s
          decreases |flows| - i
        {
          if f.sock == s {
            return;
          }
          assert Threaded(flows, i);
          f := f.next;
          i := i + 1;
        }
      }
    }
  }

  // --- Which flow a packet belongs to ---------------------------------------

  /** The socket a packet is filed under, and whether it comes from that flow's source; none when it is discarded. */
  function Route(present: set<Socket>, s: Socket, kind: Kind): Option<(Socket, bool)> {
    if Reverse(s) in present then Some((Reverse(s), false))
    else if s in present then Some((s, true))
    else match kind
      case Req => Some((s, true))
      case Rsp => Some((Reverse(s), false))
      case Other => None
  }

  /** No socket is present beside its reverse, unless they are the same. */
  ghost predicate OneWay(present: set<Socket>) {
    forall s :: s in present && Reverse(s) in present ==> Reverse(s) == s
  }

  /** Filing a packet never puts a socket beside its reverse. */
  lemma RouteKeepsOneWay(present: set<Socket>, s: Socket, kind: Kind)
    requires OneWay(present) && Route(present, s, kind).Some?
    ensures OneWay(present + {Route(present, s, kind).value.0})
  {
  }

  /** Once a packet is filed, every later one of that connection, either way, goes to the same socket. */
  lemma ConnectionStaysTogether(present: set<Socket>, s: Socket, first: Kind, t: Socket, later: Kind)
    requires OneWay(present) && Route(present, s, first).Some?
    requires t == s || t == Reverse(s)
    ensures var (sock, src) := Route(present, s, first).value;
            var next := Route(present + {sock}, t, later);
            && next.Some? && next.value.0 == sock
            && (s != Reverse(s) ==> next.value.1 == (src == (t == s)))
  {
    var (sock, src) := Route(present, s, first).value;
    assert sock in present + {sock};
    assert Reverse(Reverse(s)) == s;
  }
}
