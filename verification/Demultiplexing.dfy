/** Whole runs of the flow table: every connection gets just its own packets, whatever else passes through. */
module Demultiplexing {
  import opened FlowHashTable
  import opened FlowQueue
  import opened FlowTable
  import opened Options
  import opened PacketTypes

  type Log = seq<(Packet, bool)>

  /** One connection as the table sees it: the socket and the packets of its flow, if it has one, and the packets
    * of its flows that finished. */
  datatype Conn = Conn(now: Option<(Socket, Log)>, done: seq<Log>)

  predicate OnConn(key: Socket, s: Socket) {
    key == s || key == Reverse(s)
  }

  predicate Belongs(p: Packet, s: Socket) {
    OnConn(p.sock, s)
  }

  /** The connection after its flow `key` took a packet. */
  ghost function Took(key: Socket, log: Log, p: Packet, src: bool, done: seq<Log>): Conn {
    match FateOf(p.flags, src, Packets(log, true))
    case Dropped => Conn(None, done)
    case Finished => Conn(None, done + [log + [(p, src)]])
    case Restarted => Conn(Some((key, [(p, src)])), done)
    case Kept => Conn(Some((key, log + [(p, src)])), done)
  }

  /** The connection after one more of its packets; the first request or response decides which end is the source. */
  ghost function Track(c: Conn, p: Packet): Conn {
    match c.now
    case Some((key, log)) => Took(key, log, p, p.sock == key && Reverse(key) != key, c.done)
    case None =>
      match p.kind
      case Req => Took(p.sock, [], p, true, c.done)
      case Rsp => Took(Reverse(p.sock), [], p, false, c.done)
      case Other => c
  }

  /** The connection after those of the packets that belong to it. */
  ghost function TrackAll(c: Conn, ps: seq<Packet>, s: Socket): Conn {
    if ps == [] then c
    else
      var before := TrackAll(c, ps[..|ps| - 1], s);
      var p := ps[|ps| - 1];
      if Belongs(p, s) then Track(before, p) else before
  }

  /** The packets of one connection. */
  ghost function Own(ps: seq<Packet>, s: Socket): (r: seq<Packet>)
    ensures forall p :: p in r ==> Belongs(p, s)
  {
    if ps == [] then []
    else Own(ps[..|ps| - 1], s) + if Belongs(ps[|ps| - 1], s) then [ps[|ps| - 1]] else []
  }

  /** Packets of other connections make no difference. */
  lemma {:induction false} OthersMakeNoDifference(c: Conn, ps: seq<Packet>, s: Socket)
    ensures TrackAll(c, ps, s) == TrackAll(c, Own(ps, s), s)
  {
    if ps != [] {
      var front := ps[..|ps| - 1];
      OthersMakeNoDifference(c, front, s);
      var own := Own(front, s);
      if Belongs(ps[|ps| - 1], s) {
        assert Own(ps, s) == own + [ps[|ps| - 1]];
        assert (own + [ps[|ps| - 1]])[..|own|] == own;
      } else {
        assert Own(ps, s) == own + [] == own;
      }
    }
  }

  /** Two packets that go opposite ways on a connection reach the same flow as coming from opposite ends. */
  lemma BothWays(c: Conn, p: Packet, q: Packet)
    requires q.sock == Reverse(p.sock) != p.sock
    requires c.now.Some? ==> c.now.value.0 == p.sock || c.now.value.0 == q.sock
    requires Track(c, p).now.Some? && Track(Track(c, p), q).now.Some?
    ensures var (one, two) := (Track(c, p).now.value, Track(Track(c, p), q).now.value);
            && one.0 == two.0 && one.1 != [] && two.1 != []
            && one.1[|one.1| - 1].0 == p && two.1[|two.1| - 1].0 == q
            && two.1[|two.1| - 1].1 == !one.1[|one.1| - 1].1
  {
  }

  // --- What the packets of a flow look like ---------------------------------------------------

  predicate Ends(p: Packet) {
    Has(p.flags, TH_RST) || Has(p.flags, TH_FIN)
  }

  /** A packet with nothing but SYN from the source. */
  predicate Opens(e: (Packet, bool)) {
    e.1 && e.0.flags == TH_SYN
  }

  /** No packet of the flow ended it. */
  ghost predicate Open(log: Log) {
    forall k :: 0 <= k < |log| ==> !Ends(log[k].0)
  }

  /** The last packet ended the flow, and none before it; if that is a reset, the source had sent four packets. */
  ghost predicate Closed(log: Log) {
    && log != [] && Open(log[..|log| - 1]) && Ends(log[|log| - 1].0)
    && (Has(log[|log| - 1].0.flags, TH_RST) ==> Packets(log[..|log| - 1], true) >= 4)
  }

  /** The source is the end that sent a request or got a response first, or that starts anew; it opens at most once. */
  ghost predicate Begun(log: Log) {
    && log != []
    && (Opens(log[0]) || log[0].0.kind == (if log[0].1 then Req else Rsp))
    && (forall k :: 0 <= k < |log| && Opens(log[k]) ==> Packets(log[..k], true) == 0)
  }

  /** The packets are marked with the end that they come from. */
  ghost predicate Oriented(key: Socket, log: Log) {
    forall k :: 0 <= k < |log| ==> log[k].0.sock == if log[k].1 then key else Reverse(key)
  }

  /** A flow of the connection, whose log is as it should be. */
  ghost predicate Logged(key: Socket, s: Socket, log: Log) {
    OnConn(key, s) && Oriented(key, log) && Begun(log)
  }

  ghost predicate WasLogged(s: Socket, log: Log) {
    exists key :: Logged(key, s, log)
  }

  /** The flow that a connection has is still open, and all that were handed on are closed. */
  ghost predicate WellKept(c: Conn, s: Socket) {
    && (c.now.Some? ==> Logged(c.now.value.0, s, c.now.value.1) && Open(c.now.value.1))
    && (forall i :: 0 <= i < |c.done| ==> WasLogged(s, c.done[i]) && Closed(c.done[i]))
  }

  /** What one packet does to a flow: a reset before the source has sent four packets drops it, a later one or a FIN
    * hands it on, a repeated SYN of the source starts it anew, anything else adds to it. */
  lemma TookIs(key: Socket, log: Log, p: Packet, src: bool, done: seq<Log>)
    ensures var before := Packets(log, true);
            var longer := log + [(p, src)];
            Took(key, log, p, src, done)
            == if Has(p.flags, TH_RST) && before < 4 then Conn(None, done)
               else if Ends(p) then Conn(None, done + [longer])
               else if Opens((p, src)) && before > 0 then Conn(Some((key, [(p, src)])), done)
               else Conn(Some((key, longer)), done)
  {
  }

  /** A connection without a flow gets one with a request, whose sender becomes the source, or with a response, whose
    * receiver does; a packet of another kind is let go. */
  lemma FirstPacket(c: Conn, p: Packet)
    requires c.now.None? && !Ends(p)
    ensures Track(c, p) == match p.kind
                           case Req => Conn(Some((p.sock, [(p, true)])), c.done)
                           case Rsp => Conn(Some((Reverse(p.sock), [(p, false)])), c.done)
                           case Other => c
  {
    TookIs(p.sock, [], p, true, c.done);
    TookIs(Reverse(p.sock), [], p, false, c.done);
    NoPackets();
    assert [] + [(p, true)] == [(p, true)] && [] + [(p, false)] == [(p, false)];
  }

  lemma LongerLogged(key: Socket, s: Socket, log: Log, p: Packet, src: bool)
    requires OnConn(key, s) && (log == [] || Logged(key, s, log)) && Open(log)
    requires p.sock == if src then key else Reverse(key)
    requires log == [] ==> Opens((p, src)) || p.kind == (if src then Req else Rsp)
    ensures var longer := log + [(p, src)];
            && (!(Opens((p, src)) && Packets(log, true) > 0) ==> Logged(key, s, longer))
            && (!Ends(p) ==> Open(longer))
            && (Ends(p) && (Has(p.flags, TH_RST) ==> Packets(log, true) >= 4) ==> Closed(longer))
  {
    hide Packets, Ends, Opens;
    var longer := log + [(p, src)];
    assert longer[..|log|] == log;
    forall k | 0 <= k < |log| ensures longer[k] == log[k] && longer[..k] == log[..k] { }
  }

  lemma TookWellKept(key: Socket, s: Socket, log: Log, p: Packet, src: bool, done: seq<Log>)
    requires OnConn(key, s) && (log == [] || Logged(key, s, log)) && Open(log)
    requires p.sock == if src then key else Reverse(key)
    requires log == [] ==> Opens((p, src)) || p.kind == (if src then Req else Rsp)
    requires forall i :: 0 <= i < |done| ==> WasLogged(s, done[i]) && Closed(done[i])
    ensures WellKept(Took(key, log, p, src, done), s)
  {
    TookIs(key, log, p, src, done);
    LongerLogged(key, s, log, p, src);
    NoPackets();
    if Opens((p, src)) { LongerLogged(key, s, [], p, src); }
    EndsApart(p, src);
    assert [] + [(p, src)] == [(p, src)];
    hide Took, Packets, Ends, Opens, Logged, Closed, Open;
    var longer := log + [(p, src)];
    assert Logged(key, s, longer) ==> WasLogged(s, longer);
  }

  /** A packet that ends a flow does not open one. */
  lemma EndsApart(p: Packet, src: bool)
    ensures Ends(p) ==> !Opens((p, src))
  {
  }

  lemma TrackWellKept(c: Conn, p: Packet, s: Socket)
    requires WellKept(c, s) && Belongs(p, s)
    ensures WellKept(Track(c, p), s)
  {
    hide Took, Opens, Open, Closed, Begun, Oriented;
    assert Reverse(Reverse(s)) == s && Reverse(Reverse(p.sock)) == p.sock;
    assert Open([]) by { NothingOpen(); }
    match c.now
    case Some((key, log)) =>
      assert Reverse(Reverse(key)) == key;
      assert log != [] by { LoggedSome(key, s, log); }
      TookWellKept(key, s, log, p, p.sock == key && Reverse(key) != key, c.done);
    case None =>
      match p.kind
      case Req => TookWellKept(p.sock, s, [], p, true, c.done);
      case Rsp => TookWellKept(Reverse(p.sock), s, [], p, false, c.done);
      case Other =>
  }

  lemma NothingOpen()
    ensures Open([])
  {
  }

  lemma LoggedSome(key: Socket, s: Socket, log: Log)
    requires Logged(key, s, log)
    ensures log != []
  {
  }

  /** Over any run, from an empty table on. */
  lemma {:induction false} RunWellKept(ps: seq<Packet>, s: Socket)
    ensures WellKept(TrackAll(Conn(None, []), ps, s), s)
  {
    hide WellKept, Track;
    if ps == [] {
      NothingKept(s);
    } else {
      RunWellKept(ps[..|ps| - 1], s);
      if Belongs(ps[|ps| - 1], s) {
        TrackWellKept(TrackAll(Conn(None, []), ps[..|ps| - 1], s), ps[|ps| - 1], s);
      }
    }
  }

  lemma NothingKept(s: Socket)
    ensures WellKept(Conn(None, []), s)
  {
  }

  // --- What the table holds of a connection -------------------------------------------------

  /** The packets of the finished flows of a connection. */
  ghost function Handed(history: seq<Flow>, s: Socket): seq<Log>
    reads history`log
  {
    if history == [] then []
    else
      var f := history[|history| - 1];
      Handed(history[..|history| - 1], s) + if OfConn(f, s) then [f.log] else []
  }

  predicate OfConn(f: Flow, s: Socket) {
    OnConn(f.sock, s)
  }

  /** The socket and the packets of the flow that a connection has. */
  ghost function Current(live: set<Flow>, s: Socket): Option<(Socket, Log)>
    reads live`log
  {
    if exists f :: f in live && OfConn(f, s) then
      var f :| f in live && OfConn(f, s);
      Some((f.sock, f.log))
    else None
  }

  lemma CurrentIs(live: set<Flow>, s: Socket, f: Flow)
    requires Unique(live) && f in live && OfConn(f, s)
    ensures Current(live, s) == Some((f.sock, f.log))
  {
    forall g | g in live && OfConn(g, s) ensures g == f {
      assert Reverse(Reverse(s)) == s;
    }
  }

  lemma CurrentNone(live: set<Flow>, s: Socket)
    requires s !in Socks(live) && Reverse(s) !in Socks(live)
    ensures Current(live, s) == None
  {
    forall g | g in live ensures !OfConn(g, s) {
      assert g.sock in Socks(live);
    }
  }

  /** A connection has at most one flow. */
  lemma OneFlow(live: set<Flow>)
    requires Unique(live)
    ensures forall s, f, g :: f in live && g in live && OfConn(f, s) && OfConn(g, s) ==> f == g
  {
    forall s, f, g | f in live && g in live && OfConn(f, s) && OfConn(g, s) ensures f == g {
      assert Reverse(Reverse(s)) == s;
    }
  }

  lemma NoPackets()
    ensures Packets([], true) == 0
  {
  }

  lemma SocksOf(live: set<Flow>)
    ensures forall s :: s in Socks(live) <==> exists f :: f in live && f.sock == s
  {
  }

  /** What the table holds of a connection. */
  ghost function ConnOf(t: Table, s: Socket): Conn
    reads t, t.fq, t.live`log, t.fq.history`log
  {
    Conn(Current(t.live, s), Handed(t.fq.history, s))
  }

  lemma TableFacts(t: Table)
    requires t.Valid()
    ensures Unique(t.live) && OneWay(Socks(t.live))
    ensures forall f :: f in t.fq.history ==> f !in t.live
    ensures forall f :: f in t.live ==> f.pktsSrc == Packets(f.log, true)
  {
    hide Table.Shaped, Table.Counted, Unique, Packets, Octets, Hooked;
    UniqueIsOneWay(t.live);
    forall f | f in t.fq.history ensures f !in t.live {
      assert f in Elems(t.fq.history);
    }
  }

  lemma HandedMore(history: seq<Flow>, f: Flow, s: Socket)
    ensures Handed(history + [f], s) == Handed(history, s) + if OfConn(f, s) then [f.log] else []
  {
    assert (history + [f])[..|history|] == history;
  }

  /** Where a packet of a connection goes: to the flow that the connection has, from the matching end, or else
    * where its kind says. */
  lemma RouteOf(present: set<Socket>, p: Packet, s: Socket)
    requires OneWay(present)
    ensures Route(present, p.sock, p.kind).Some? ==>
              (OnConn(Route(present, p.sock, p.kind).value.0, s) <==> Belongs(p, s))
    ensures Belongs(p, s) ==> forall key :: key in present && OnConn(key, s) ==>
              Route(present, p.sock, p.kind) == Some((key, p.sock == key && Reverse(key) != key))
    ensures Belongs(p, s) && s !in present && Reverse(s) !in present ==>
              Route(present, p.sock, p.kind) == match p.kind
                                                case Req => Some((p.sock, true))
                                                case Rsp => Some((Reverse(p.sock), false))
                                                case Other => None
  {
    assert Reverse(Reverse(s)) == s && Reverse(Reverse(p.sock)) == p.sock;
  }

  /** Files one packet, as far as logs are concerned. */
  method File(t: Table, p: Packet, now: int) returns (ghost to: Flow?)
    requires t.Valid()
    modifies t, t.buckets, t.live, t.fq, t.fq.repr
    ensures t.Valid() && fresh(t.fq.repr - old(t.fq.repr)) && fresh(t.live - old(t.live))
    ensures to == null <==> Route(old(t.Present()), p.sock, p.kind).None?
    ensures to == null ==> t.live == old(t.live) && t.fq.history == old(t.fq.history)
    ensures to != null ==>
              var (sock, src) := Route(old(t.Present()), p.sock, p.kind).value;
              var fate := FateOf(p.flags, src, if to in old(t.live) then old(to.pktsSrc) else 0);
              && to.sock == sock && (to in old(t.live) <==> sock in old(t.Present()))
              && t.live == (if fate.Dropped? || fate.Finished? then old(t.live) - {to} else old(t.live) + {to})
              && t.fq.history == (if fate.Finished? then old(t.fq.history) + [to] else old(t.fq.history))
              && (fate.Restarted? ==> to.log == [(p, src)])
              && (!fate.Restarted? && !fate.Dropped? ==>
                    to.log == (if to in old(t.live) then old(to.log) else []) + [(p, src)])
    ensures forall g :: g in old(t.live) && g != to ==> g.log == old(g.log)
  {
    hide Table.Valid, FateOf, Route, Table.Present, Has, Flow.Tallied;
    var rc;
    rc, to := t.AddPacket(p, now);
  }

  /** Files one packet. */
  method AddNext(t: Table, p: Packet, now: int)
    requires t.Valid()
    modifies t, t.buckets, t.live, t.fq, t.fq.repr
    ensures t.Valid() && fresh(t.fq.repr - old(t.fq.repr)) && fresh(t.live - old(t.live))
    ensures forall s :: ConnOf(t, s) == if Belongs(p, s) then Track(old(ConnOf(t, s)), p) else old(ConnOf(t, s))
  {
    hide Table.Valid, FateOf, Unique, Flow.Tallied, OneWay, Handed, Current, Route, Socks, Packets;
    TableFacts(t);
    ghost var live, history := t.live, t.fq.history;
    ghost var present := t.Present();
    forall s, f | f in t.live && OfConn(f, s) ensures Current(t.live, s) == Some((f.sock, f.log)) {
      CurrentIs(t.live, s, f);
    }
    forall s | s !in present && Reverse(s) !in present ensures Current(t.live, s) == None {
      CurrentNone(t.live, s);
    }
    SocksOf(live);
    OneFlow(live);
    NoPackets();
    label before:
    ghost var to := File(t, p, now);
    TableFacts(t);
    SocksOf(t.live);
    assert forall s :: Handed(history, s) == old@before(Handed(history, s));
    forall s ensures ConnOf(t, s) == if Belongs(p, s) then Track(old(ConnOf(t, s)), p) else old(ConnOf(t, s)) {
      RouteOf(present, p, s);
      if to != null { HandedMore(history, to, s); }
      ghost var was := old@before(ConnOf(t, s));
      if f :| f in live && OfConn(f, s) {
        assert was.now == Some((f.sock, old@before(f.log)));
        assert f.sock in present;
        if f in t.live {
          CurrentIs(t.live, s, f);
        } else {
          forall g | g in t.live ensures !OfConn(g, s) { assert g in live; }
          CurrentNone(t.live, s);
        }
      } else {
        assert was.now == None;
        if to != null && to in t.live && Belongs(p, s) {
          CurrentIs(t.live, s, to);
        } else {
          CurrentNone(t.live, s);
        }
      }
    }
  }

  /** Files a run of packets, each at its own time. */
  method AddAll(t: Table, ps: seq<Packet>, clock: nat -> int)
    requires t.Valid()
    modifies t, t.buckets, t.live, t.fq, t.fq.repr
    ensures t.Valid() && fresh(t.fq.repr - old(t.fq.repr)) && fresh(t.live - old(t.live))
    ensures forall s :: ConnOf(t, s) == TrackAll(old(ConnOf(t, s)), ps, s)
  {
    hide Table.Valid, Track, Belongs, ConnOf, TrackAll;
    TrackNone();
    var i := 0;
    while i < |ps|
      invariant 0 <= i <= |ps| && t.Valid()
      invariant fresh(t.fq.repr - old(t.fq.repr)) && fresh(t.live - old(t.live))
      invariant forall s :: ConnOf(t, s) == TrackAll(old(ConnOf(t, s)), ps[..i], s)
    {
      AddNext(t, ps[i], clock(i));
      forall s ensures ConnOf(t, s) == TrackAll(old(ConnOf(t, s)), ps[..i + 1], s) {
        TrackStep(old(ConnOf(t, s)), ps, i, s);
      }
      i := i + 1;
    }
    assert ps[..i] == ps;
  }

  /** Sorts a run of packets into the flows of a new table. */
  method SortPackets(ps: seq<Packet>, clock: nat -> int) returns (t: Table)
    ensures t.Valid() && fresh(t)
    ensures forall s :: ConnOf(t, s) == TrackAll(Conn(None, []), ps, s)
    ensures forall s :: WellKept(ConnOf(t, s), s)
  {
    hide Table.Valid, TrackAll, Current, WellKept;
    var fq := new Queue<Flow>();
    t := new Table(fq);
    forall s ensures ConnOf(t, s) == Conn(None, []) {
      CurrentNone(t.live, s);
    }
    AddAll(t, ps, clock);
    forall s ensures WellKept(ConnOf(t, s), s) { RunWellKept(ps, s); }
  }

  lemma TrackNone()
    ensures forall c, s :: TrackAll(c, [], s) == c
  {
  }

  lemma TrackStep(c: Conn, ps: seq<Packet>, i: nat, s: Socket)
    requires i < |ps|
    ensures var before := TrackAll(c, ps[..i], s);
            TrackAll(c, ps[..i + 1], s) == if Belongs(ps[i], s) then Track(before, ps[i]) else before
  {
    assert ps[..i + 1][..i] == ps[..i];
  }
}
