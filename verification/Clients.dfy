/** Counting requests by client, and reporting the clients that send more than their share. */
module Clients {
  import opened Bytes
  import opened IpText
  import opened Lists

  // --- The counting hash table ----------------------------------------------------

  function Slot(value: nat): (i: nat)
    ensures i < HASH_SIZE
  {
    value % HASH_SIZE
  }

  class Node {
    const value: nat
    var cnt: nat

    constructor (value: nat)
      ensures this.value == value && cnt == 1
    {
      this.value := value;
      cnt := 1;
    }
  }

  /** A chain holds, once each, the nodes of values that hash to it. */
  ghost predicate ChainOk(chain: seq<Node>, nodeOf: map<nat, Node>, i: nat) {
    Distinct(chain) && forall n :: n in chain ==> n.value in nodeOf && nodeOf[n.value] == n && Slot(n.value) == i
  }

  /** Every node is in the chain that its value hashes to, and in no other. */
  ghost predicate Filed(chains: seq<seq<Node>>, nodeOf: map<nat, Node>) {
    && |chains| == HASH_SIZE
    && (forall i :: 0 <= i < |chains| ==> ChainOk(chains[i], nodeOf, i))
    && (forall k :: k in nodeOf ==> nodeOf[k].value == k && nodeOf[k] in chains[Slot(k)])
  }

  /** The node of a value counts how often the value was added. */
  ghost predicate Tallied(nodeOf: map<nat, Node>, added: multiset<nat>)
    reads nodeOf.Values
  {
    && (forall k :: k in nodeOf ==> nodeOf[k].cnt == added[k] > 0)
    && (forall k :: k in added ==> k in nodeOf)
  }

  lemma FiledCreate(chains: seq<seq<Node>>, nodeOf: map<nat, Node>, n: Node)
    requires Filed(chains, nodeOf) && n.value !in nodeOf
    ensures var b := Slot(n.value); Filed(chains[b := chains[b] + [n]], nodeOf[n.value := n])
  {
    hide Slot;
    var b := Slot(n.value);
    var after := chains[b := chains[b] + [n]];
    var more := nodeOf[n.value := n];
    forall i | 0 <= i < |after| ensures ChainOk(after[i], more, i) {
      assert ChainOk(chains[i], nodeOf, i);
      assert ChainOk(chains[b], nodeOf, b);
      AppendDistinct(chains[b], n);
    }
    forall k | k in more ensures more[k].value == k && more[k] in after[Slot(k)] {
      if k != n.value { assert nodeOf[k] in chains[Slot(k)]; }
    }
  }

  lemma SameKeys(nodeOf: map<nat, Node>, added: multiset<nat>)
    requires Tallied(nodeOf, added)
    ensures forall k :: k in nodeOf <==> k in added
  {
  }

  lemma TalliedAt(nodeOf: map<nat, Node>, added: multiset<nat>)
    requires Tallied(nodeOf, added)
    ensures forall k :: k in nodeOf ==> nodeOf[k].cnt == added[k] > 0
  {
  }

  lemma TalliedFrom(nodeOf: map<nat, Node>, added: multiset<nat>)
    requires forall k :: k in nodeOf ==> nodeOf[k].cnt == added[k] > 0
    requires forall k :: k in added ==> k in nodeOf
    ensures Tallied(nodeOf, added)
  {
  }

  lemma TalliedCreate(nodeOf: map<nat, Node>, added: multiset<nat>, n: Node)
    requires Tallied(nodeOf, added) && n.value !in nodeOf && n.cnt == 1
    ensures Tallied(nodeOf[n.value := n], added + multiset{n.value})
  {
  }

  /** A table of counters; `added` is all that was put in, as often as it was put in. */
  class Hash {
    var cnt: nat
    const buckets: array<seq<Node>>
    ghost var added: multiset<nat>
    ghost var nodeOf: map<nat, Node>

    ghost predicate Valid()
      reads this, buckets, nodeOf.Values
    {
      Filed(buckets[..], nodeOf) && Tallied(nodeOf, added) && cnt == |nodeOf|
    }

    constructor ()
      ensures Valid() && fresh(buckets) && added == multiset{} && nodeOf == map[]
    {
      buckets := new seq<Node>[HASH_SIZE](_ => []);
      cnt := 0;
      added, nodeOf := multiset{}, map[];
    }

    method Find(value: nat) returns (e: Node?)
      requires Valid()
      ensures e == if value in nodeOf then nodeOf[value] else null
    {
      hide Distinct, Slot, Tallied;
      var b := Slot(value);
      assert buckets[..][b] == buckets[b];
      var chain := buckets[b];
      assert ChainOk(chain, nodeOf, b);
      var i := 0;
      while i < |chain|
        invariant 0 <= i <= |chain| && forall j :: 0 <= j < i ==> chain[j].value != value
      {
        if chain[i].value == value {
          return chain[i];
        }
        i := i + 1;
      }
      return null;
    }

    method Create(value: nat)
      requires Valid() && value !in nodeOf
      modifies this, buckets
      ensures Valid() && added == old(added) + multiset{value} && nodeOf.Keys == old(nodeOf).Keys + {value}
      ensures fresh(nodeOf.Values - old(nodeOf.Values)) && cnt == old(cnt) + 1
    {
      hide Filed, Slot, Tallied;
      ghost var chains := buckets[..];
      var n := new Node(value);
      FiledCreate(chains, nodeOf, n);
      var b := Slot(value);
      BucketCount(chains, nodeOf);
      buckets[b] := buckets[b] + [n];
      assert buckets[..] == chains[b := chains[b] + [n]];
      cnt := cnt + 1;
      TalliedCreate(nodeOf, added, n);
      KeysCount(nodeOf, nodeOf[value := n], value);
      nodeOf := nodeOf[value := n];
      added := added + multiset{value};
    }

    lemma ChainFacts(b: nat)
      requires Valid() && b < HASH_SIZE
      ensures buckets.Length == HASH_SIZE && Distinct(buckets[b])
      ensures forall n :: n in buckets[b] ==> n.value in nodeOf && nodeOf[n.value] == n && Slot(n.value) == b
      ensures forall k :: k in added && Slot(k) == b ==> k in nodeOf && nodeOf[k] in buckets[b] && nodeOf[k].value == k
      ensures forall k :: k in added <==> k in nodeOf
    {
      hide Slot;
      SameKeys(nodeOf, added);
      assert buckets[..][b] == buckets[b];
      assert ChainOk(buckets[..][b], nodeOf, b);
    }

    /** Counts a value: its first occurrence makes a node, every later one adds to it. */
    method Add(value: nat) returns (known: int)
      requires Valid()
      modifies this, buckets, nodeOf.Values
      ensures Valid() && added == old(added) + multiset{value}
      ensures known == (if value in old(added) then 1 else 0)
      ensures cnt == old(cnt) + 1 - known
      ensures fresh(nodeOf.Values - old(nodeOf.Values))
    {
      hide Filed, Tallied;
      var e := Find(value);
      assert value in nodeOf <==> value in added by { SameKeys(nodeOf, added); }
      hide Valid;
      if e == null {
        known := 0;
        Create(value);
      } else {
        known := 1;
        Bump(e, value);
      }
    }

    method Bump(e: Node, value: nat)
      requires Valid() && value in nodeOf && e == nodeOf[value]
      modifies this`added, e
      ensures Valid() && added == old(added) + multiset{value}
    {
      hide Filed, Tallied;
      NodesApart(buckets[..], nodeOf);
      SameKeys(nodeOf, added);
      TalliedAt(nodeOf, added);
      e.cnt := e.cnt + 1;
      added := added + multiset{value};
      TalliedFrom(nodeOf, added);
    }
  }

  lemma BucketCount(chains: seq<seq<Node>>, nodeOf: map<nat, Node>)
    requires Filed(chains, nodeOf)
    ensures |chains| == HASH_SIZE
  {
  }

  lemma KeysCount(m: map<nat, Node>, after: map<nat, Node>, k: nat)
    requires k !in m && after.Keys == m.Keys + {k}
    ensures |after| == |m| + 1
  {
    assert |after| == |after.Keys| && |m| == |m.Keys|;
  }

  lemma NodesApart(chains: seq<seq<Node>>, nodeOf: map<nat, Node>)
    requires Filed(chains, nodeOf)
    ensures forall j, k :: j in nodeOf && k in nodeOf && j != k ==> nodeOf[j] != nodeOf[k]
  {
    forall j, k | j in nodeOf && k in nodeOf && j != k ensures nodeOf[j] != nodeOf[k] {
      assert nodeOf[j].value == j && nodeOf[k].value == k;
    }
  }

  // --- The bounded report list --------------------------------------------------------

  const CFL_SIZE := 100

  datatype Item = Item(name: string, freq: real)

  class CfList {
    const list: array<Item>
    var count: nat

    ghost predicate Valid()
      reads this
    {
      list.Length == CFL_SIZE && count <= CFL_SIZE
    }

    ghost function Items(): seq<Item>
      reads this, list
      requires Valid()
    {
      list[..count]
    }

    constructor ()
      ensures Valid() && count == 0 && fresh(list)
    {
      list := new Item[CFL_SIZE](_ => Item("", 0.0));
      count := 0;
    }

    /** Stores an item; a full list takes no more. */
    method Add(name: string, freq: real)
      requires Valid()
      modifies this, list
      ensures Valid()
      ensures Items() == if old(count) < 100 then old(Items()) + [Item(name, freq)] else old(Items())
    {
      if count >= CFL_SIZE {
        return;
      }
      list[count] := Item(name, freq);
      count := count + 1;
    }

    method Delete()
      requires Valid()
      modifies this, list
      ensures Valid() && Items() == []
    {
      var i := 0;
      while i < count
        invariant 0 <= i <= count <= CFL_SIZE
      {
        list[i] := Item("", 0.0);
        i := i + 1;
      }
      count := 0;
    }
  }

  // --- Who sends more than one request in a hundred ---------------------------------------

  /** A value that makes up more than a hundredth of all that was added. */
  predicate Frequent(added: multiset<nat>, k: nat) {
    |added| < added[k] * 100
  }

  function Freq(cnt: nat, total: nat): real
    requires total > 0
  {
    cnt as real / total as real
  }

  /** The part of all that was added that a value makes up. */
  function Share(added: multiset<nat>, k: nat): real
    requires added != multiset{}
  {
    Freq(added[k], |added|)
  }

  lemma AboveOneHundredth(added: multiset<nat>)
    ensures forall k :: k in added ==> (Frequent(added, k) <==> |added| < added[k] * 100)
  {
  }

  /** The occurrences of the listed values together. */
  ghost function Occurrences(added: multiset<nat>, ks: seq<nat>): nat {
    if ks == [] then 0 else Occurrences(added, ks[..|ks| - 1]) + added[ks[|ks| - 1]]
  }

  lemma {:induction false} OccurrencesWithout(added: multiset<nat>, ks: seq<nat>, k: nat)
    requires k !in ks
    ensures Occurrences(added[k := 0], ks) == Occurrences(added, ks)
  {
    if ks != [] {
      OccurrencesWithout(added, ks[..|ks| - 1], k);
    }
  }

  /** Different values together occur no more often than there are occurrences at all. */
  lemma {:induction false} OccurrencesBounded(added: multiset<nat>, ks: seq<nat>)
    requires Distinct(ks)
    ensures Occurrences(added, ks) <= |added|
  {
    if ks != [] {
      var n := |ks| - 1;
      var k := ks[n];
      assert k !in ks[..n];
      assert Distinct(ks[..n]);
      OccurrencesWithout(added, ks[..n], k);
      OccurrencesBounded(added[k := 0], ks[..n]);
      assert |added[k := 0]| == |added| - added[k];
    }
  }

  lemma {:induction false} FrequentOccur(added: multiset<nat>, ks: seq<nat>)
    requires forall i :: 0 <= i < |ks| ==> Frequent(added, ks[i])
    ensures |ks| * |added| <= Occurrences(added, ks) * 100
    ensures ks != [] ==> |ks| * |added| < Occurrences(added, ks) * 100
  {
    if ks != [] {
      var n := |ks| - 1;
      FrequentOccur(added, ks[..n]);
      assert Frequent(added, ks[n]);
      assert |ks| * |added| == n * |added| + |added|;
    }
  }

  /** Fewer than a hundred different values make up more than a hundredth each. */
  lemma FewFrequent(added: multiset<nat>, ks: seq<nat>)
    requires Distinct(ks)
    requires forall i :: 0 <= i < |ks| ==> Frequent(added, ks[i])
    ensures |ks| < CFL_SIZE
  {
    FrequentOccur(added, ks);
    OccurrencesBounded(added, ks);
    Product(|ks|, |added|);
  }

  lemma Product(n: nat, m: nat)
    ensures n >= 100 ==> n * m >= 100 * m
  {
  }

  /** The comparison made on shares is the one on counts. */
  lemma ShareExceeds(added: multiset<nat>, k: nat)
    requires added != multiset{}
    ensures Share(added, k) > 0.01 <==> Frequent(added, k)
  {
    Quotient(added[k] as real, |added| as real);
    CrossMultiplied(Share(added, k), added[k], |added|);
  }

  lemma Quotient(c: real, t: real)
    requires t > 0.0
    ensures c / t * t == c
  {
  }

  /** `q` times `t` is `c`. */
  predicate IsPart(q: real, c: nat, t: nat) {
    q * t as real == c as real
  }

  /** The share times all occurrences is the number of occurrences of the value. */
  lemma ShareIs(added: multiset<nat>, k: nat)
    requires added != multiset{}
    ensures IsPart(Share(added, k), added[k], |added|)
  {
    Quotient(added[k] as real, |added| as real);
  }

  /** What is reported of the listed clients: their addresses as text, and their shares. */
  lemma ReportedIs(added: multiset<nat>, ks: seq<nat>)
    requires added != multiset{} && forall i :: 0 <= i < |ks| ==> ks[i] < POW32
    ensures var r := Reported(added, ks);
            && |r| == |ks|
            && forall i :: 0 <= i < |r| ==> r[i].name == IpNtos(ks[i]) && IsPart(r[i].freq, added[ks[i]], |added|)
  {
    hide Share, IpNtos, IsPart;
    forall i | 0 <= i < |ks| ensures IsPart(Share(added, ks[i]), added[ks[i]], |added|) {
      ShareIs(added, ks[i]);
    }
  }

  lemma CrossMultiplied(q: real, c: nat, t: nat)
    requires t > 0 && q * t as real == c as real
    ensures q > 0.01 <==> t < c * 100
  {
    if q > 0.01 { Greater(q, 0.01, t as real); } else { NotGreater(q, 0.01, t as real); }
  }

  lemma Greater(a: real, b: real, t: real)
    requires a > b && t > 0.0
    ensures a * t > b * t
  {
  }

  lemma NotGreater(a: real, b: real, t: real)
    requires a <= b && t > 0.0
    ensures a * t <= b * t
  {
  }

  // --- The metric --------------------------------------------------------------------------

  /** The items reported for the listed clients. */
  function Reported(added: multiset<nat>, ks: seq<nat>): (r: seq<Item>)
    requires added != multiset{} && forall i :: 0 <= i < |ks| ==> ks[i] < POW32
    ensures |r| == |ks|
    ensures forall i :: 0 <= i < |ks| ==> r[i] == Item(IpNtos(ks[i]), Share(added, ks[i]))
  {
    seq(|ks|, i requires 0 <= i < |ks| => Item(IpNtos(ks[i]), Share(added, ks[i])))
  }

  lemma ReportedMore(added: multiset<nat>, ks: seq<nat>, k: nat)
    requires added != multiset{} && k < POW32 && forall i :: 0 <= i < |ks| ==> ks[i] < POW32
    ensures Reported(added, ks + [k]) == Reported(added, ks) + [Item(IpNtos(k), Share(added, k))]
  {
    hide IpNtos, Share;
  }

  /** Frequent clients, each listed once. */
  ghost predicate ListOk(added: multiset<nat>, ks: seq<nat>)
    ensures ListOk(added, ks) ==> forall i :: 0 <= i < |ks| ==> ks[i] < POW32
  {
    Distinct(ks) && forall i :: 0 <= i < |ks| ==> Frequent(added, ks[i]) && ks[i] in added && ks[i] < POW32
  }

  lemma ListOkMore(added: multiset<nat>, ks: seq<nat>, k: nat)
    requires ListOk(added, ks) && k !in ks && Frequent(added, k) && k in added && k < POW32
    ensures ListOk(added, ks + [k]) && |ks| + 1 < CFL_SIZE
  {
    AppendDistinct(ks, k);
    FewFrequent(added, ks + [k]);
  }

  class Client {
    const ht: Hash
    const cfl: CfList
    var reqTotal: nat

    /** The table counts the requests of every client, and nothing else. */
    ghost predicate Stable()
      reads this, ht, ht.buckets, cfl, ht.nodeOf.Values
    {
      && ht.Valid() && cfl.Valid() && (cfl.list as object) != (ht.buckets as object)
      && |ht.added| == reqTotal
      && (forall k :: k in ht.added ==> k < POW32)
    }

    /** Between two reports the list is empty. */
    ghost predicate Valid()
      reads this, ht, ht.buckets, cfl, ht.nodeOf.Values
    {
      Stable() && cfl.count == 0
    }

    constructor ()
      ensures Valid() && ht.added == multiset{} && reqTotal == 0
      ensures fresh(ht) && fresh(ht.buckets) && fresh(cfl) && fresh(cfl.list) && ht.nodeOf == map[]
    {
      ht := new Hash();
      cfl := new CfList();
      reqTotal := 0;
    }

    method OnRequestReceived(saddr: nat)
      requires Valid() && saddr < POW32
      modifies this, ht, ht.buckets, ht.nodeOf.Values
      ensures Valid() && ht.added == old(ht.added) + multiset{saddr}
      ensures fresh(ht.nodeOf.Values - old(ht.nodeOf.Values))
    {
      hide Hash.Valid;
      reqTotal := reqTotal + 1;
      var known := ht.Add(saddr);
    }

    /** Lists a client when its share exceeds a hundredth. */
    method CflAdd(addr: nat, cnt: nat)
      requires addr < POW32 && cfl.Valid()
      modifies cfl, cfl.list
      ensures cfl.Valid()
      ensures reqTotal > 0 && Freq(cnt, reqTotal) > 0.01 && old(cfl.count) < CFL_SIZE ==>
                cfl.Items() == old(cfl.Items()) + [Item(IpNtos(addr), Freq(cnt, reqTotal))]
      ensures !(reqTotal > 0 && Freq(cnt, reqTotal) > 0.01) ==> cfl.Items() == old(cfl.Items())
    {
      if reqTotal <= 0 {
        return;
      }
      var freq := Freq(cnt, reqTotal);
      if freq > 0.01 {
        cfl.Add(IpNtos(addr), freq);
      }
    }

    /** The list so far: the frequent clients among those visited, once each. */
    ghost predicate Listed(ks: seq<nat>)
      requires cfl.Valid()
      reads this, ht, cfl, cfl.list
    {
      && ListOk(ht.added, ks)
      && (if ht.added == multiset{} then ks == [] && cfl.Items() == [] else cfl.Items() == Reported(ht.added, ks))
    }

    /** Visits one node of the table; the list never gets full. */
    method VisitNode(n: Node, ghost ks: seq<nat>) returns (ghost more: seq<nat>)
      requires Stable() && Listed(ks)
      requires n.value in ht.nodeOf && ht.nodeOf[n.value] == n && n.value !in ks
      modifies cfl, cfl.list
      ensures Stable() && Listed(more)
      ensures more == if Frequent(ht.added, n.value) then ks + [n.value] else ks
    {
      assert n.cnt == ht.added[n.value] && n.value in ht.added;
      hide Freq, Reported, Frequent, ListOk;
      assert Freq(n.cnt, reqTotal) == Share(ht.added, n.value);
      ShareExceeds(ht.added, n.value);
      hide Hash.Valid, IpNtos, Share;
      more := ks;
      if Frequent(ht.added, n.value) {
        more := ks + [n.value];
        ListOkMore(ht.added, ks, n.value);
        ReportedMore(ht.added, ks, n.value);
        assert |cfl.Items()| == |ks|;
      }
      CflAdd(n.value, n.cnt);
    }

    /** Visits one chain of the table. */
    method VisitChain(b: nat, ghost ks: seq<nat>) returns (ghost more: seq<nat>)
      requires Stable() && Listed(ks) && b < HASH_SIZE
      requires forall k :: k in ks ==> Slot(k) < b
      modifies cfl, cfl.list
      ensures Stable() && Listed(more)
      ensures forall k :: k in more ==> k in ks || (Slot(k) == b && k in ht.added)
      ensures forall k :: k in ks ==> k in more
      ensures forall k :: k in ht.added && Slot(k) == b && Frequent(ht.added, k) ==> k in more
    {
      ht.ChainFacts(b);
      hide Listed, Stable, Hash.Valid, Frequent, Slot, Distinct, SeenUpTo;
      ghost var added := ht.added;
      ghost var nodeOf := ht.nodeOf;
      var chain := ht.buckets[b];
      ghost var seen: set<nat> := {};
      SeenNone(nodeOf, chain);
      more := ks;
      var j := 0;
      while j < |chain|
        invariant 0 <= j <= |chain| && Stable() && Listed(more)
        invariant SeenUpTo(seen, nodeOf, chain, j)
        invariant forall k :: k in more <==> k in ks || (k in seen && Frequent(added, k))
      {
        assert chain[j] in chain;
        SeenStep(seen, nodeOf, chain, j);
        more := VisitNode(chain[j], more);
        seen := seen + {chain[j].value};
        j := j + 1;
      }
      SeenAll(seen, nodeOf, chain);
    }

    /** Visits the whole table: lists every client above the threshold once, with its share. */
    method CflUpdate() returns (ghost ks: seq<nat>)
      requires Valid()
      modifies cfl, cfl.list
      ensures Stable() && Listed(ks)
      ensures forall k :: k in ks <==> k in ht.added && Frequent(ht.added, k)
    {
      ks := [];
      ListedNone();
      hide Listed, Hash.Valid, Frequent;
      var i := 0;
      while i < HASH_SIZE
        invariant 0 <= i <= HASH_SIZE && Stable() && Listed(ks)
        invariant forall k :: k in ks ==> Slot(k) < i && k in ht.added && Frequent(ht.added, k)
        invariant forall k :: k in ht.added && Slot(k) < i && Frequent(ht.added, k) ==> k in ks
      {
        ks := VisitChain(i, ks);
        i := i + 1;
      }
    }

    /** An interval ends: the frequent clients are reported, and the list is emptied; the counts go on. */
    method OnIntervalExpired() returns (report: seq<Item>, ghost ks: seq<nat>)
      requires Valid()
      modifies cfl, cfl.list
      ensures Valid()
      ensures Distinct(ks) && |ks| < CFL_SIZE && forall k :: k in ks <==> k in ht.added && Frequent(ht.added, k)
      ensures |ks| < 100 && forall k :: k in ks <==> k in ht.added && |ht.added| < ht.added[k] * 100
      ensures forall i :: 0 <= i < |ks| ==> ks[i] < POW32
      ensures report == if ht.added == multiset{} then [] else Reported(ht.added, ks)
      ensures ht.added != multiset{} ==> |report| == |ks|
      ensures ht.added != multiset{} ==> forall i :: 0 <= i < |report| ==>
                report[i].name == IpNtos(ks[i]) && IsPart(report[i].freq, ht.added[ks[i]], |ht.added|)
      ensures forall i, j :: 0 <= i < j < |report| ==> report[i].name != report[j].name
    {
      hide Hash.Valid, IpNtos, Frequent, Distinct, Share, IsPart;
      ks := CflUpdate();
      ListedFacts(ks);
      AboveOneHundredth(ht.added);
      report := cfl.list[..cfl.count];
      if ht.added != multiset{} {
        ReportedApart(ht.added, ks);
        ReportedIs(ht.added, ks);
      }
      hide Listed, Reported;
      cfl.Delete();
    }

    lemma ListedNone()
      requires cfl.Valid() && cfl.count == 0
      ensures Listed([])
    {
      hide IpNtos, Share, Frequent;
      assert cfl.Items() == [];
    }

    lemma ListedFacts(ks: seq<nat>)
      requires cfl.Valid() && Listed(ks)
      ensures Distinct(ks) && |ks| < CFL_SIZE && forall i :: 0 <= i < |ks| ==> ks[i] < POW32
      ensures cfl.Items() == if ht.added == multiset{} then [] else Reported(ht.added, ks)
    {
      FewFrequent(ht.added, ks);
    }
  }

  /** Different clients are reported under different names. */
  lemma ReportedApart(added: multiset<nat>, ks: seq<nat>)
    requires added != multiset{} && Distinct(ks) && forall i :: 0 <= i < |ks| ==> ks[i] < POW32
    ensures var r := Reported(added, ks); forall i, j :: 0 <= i < j < |r| ==> r[i].name != r[j].name
  {
    hide IpNtos, Share;
    var r := Reported(added, ks);
    forall i, j | 0 <= i < j < |r| ensures r[i].name != r[j].name {
      Differ(ks, i, j);
      if r[i].name == r[j].name { NtosInjective(ks[i], ks[j]); }
    }
  }

  /** `seen` holds the values of the first `j` nodes of a chain. */
  ghost predicate SeenUpTo(seen: set<nat>, nodeOf: map<nat, Node>, chain: seq<Node>, j: nat)
    requires j <= |chain|
  {
    forall k :: k in seen <==> k in nodeOf && nodeOf[k] in chain[..j] && nodeOf[k].value == k
  }

  lemma SeenNone(nodeOf: map<nat, Node>, chain: seq<Node>)
    ensures SeenUpTo({}, nodeOf, chain, 0)
  {
  }

  lemma SeenStep(seen: set<nat>, nodeOf: map<nat, Node>, chain: seq<Node>, j: nat)
    requires Distinct(chain) && j < |chain| && SeenUpTo(seen, nodeOf, chain, j)
    requires chain[j].value in nodeOf && nodeOf[chain[j].value] == chain[j]
    ensures chain[j].value !in seen && SeenUpTo(seen + {chain[j].value}, nodeOf, chain, j + 1)
  {
    assert chain[j] !in chain[..j];
    hide Distinct;
    assert chain[..j + 1] == chain[..j] + [chain[j]];
  }

  lemma SeenAll(seen: set<nat>, nodeOf: map<nat, Node>, chain: seq<Node>)
    requires SeenUpTo(seen, nodeOf, chain, |chain|)
    ensures forall k :: k in seen <==> k in nodeOf && nodeOf[k] in chain && nodeOf[k].value == k
  {
    assert chain[..|chain|] == chain;
  }

  // --- Whole runs ----------------------------------------------------------------------------

  /** The requests of all intervals together. */
  function AllOf(intervals: seq<seq<nat>>): multiset<nat> {
    if intervals == [] then multiset{}
    else AllOf(intervals[..|intervals| - 1]) + multiset(intervals[|intervals| - 1])
  }

  lemma AllOfStep(intervals: seq<seq<nat>>, i: nat)
    requires i < |intervals|
    ensures AllOf(intervals[..i + 1]) == AllOf(intervals[..i]) + multiset(intervals[i])
  {
    assert intervals[..i + 1][..i] == intervals[..i];
  }

  lemma AllOfNone(intervals: seq<seq<nat>>)
    ensures AllOf(intervals[..0]) == multiset{}
  {
  }

  /** The report lists the clients with more than one request in a hundred, each once and with its share, and nobody
    * else. */
  ghost predicate IsReport(report: seq<Item>, added: multiset<nat>, ks: seq<nat>) {
    && Distinct(ks) && (forall k :: k in ks <==> k in added && |added| < added[k] * 100)
    && (forall i :: 0 <= i < |ks| ==> ks[i] < POW32)
    && report == (if added == multiset{} then [] else Reported(added, ks))
    && (added != multiset{} ==>
          |report| == |ks| && forall i :: 0 <= i < |report| ==> IsPart(report[i].freq, added[ks[i]], |added|))
  }

  /** The requests of one interval. */
  method Serve(client: Client, batch: seq<nat>)
    requires client.Valid() && forall j :: 0 <= j < |batch| ==> batch[j] < POW32
    modifies client, client.ht, client.ht.buckets, client.ht.nodeOf.Values
    ensures client.Valid() && client.ht.added == old(client.ht.added) + multiset(batch)
    ensures fresh(client.ht.nodeOf.Values - old(client.ht.nodeOf.Values))
  {
    hide Client.Valid;
    for j := 0 to |batch|
      invariant client.Valid() && client.ht.added == old(client.ht.added) + multiset(batch[..j])
      invariant fresh(client.ht.nodeOf.Values - old(client.ht.nodeOf.Values))
    {
      client.OnRequestReceived(batch[j]);
      assert batch[..j + 1] == batch[..j] + [batch[j]];
    }
    assert batch[..|batch|] == batch;
  }

  /** The report of one interval. */
  method Conclude(client: Client) returns (report: seq<Item>, ghost ks: seq<nat>)
    requires client.Valid()
    modifies client.cfl, client.cfl.list
    ensures client.Valid() && IsReport(report, client.ht.added, ks)
  {
    hide Client.Valid, Reported, Frequent, Distinct, IsPart;
    report, ks := client.OnIntervalExpired();
  }

  /** Intervals follow one another: each report is about all requests up to then. */
  method RunIntervals(intervals: seq<seq<nat>>) returns (reports: seq<seq<Item>>, ghost lists: seq<seq<nat>>)
    requires forall i, j :: 0 <= i < |intervals| && 0 <= j < |intervals[i]| ==> intervals[i][j] < POW32
    ensures |reports| == |lists| == |intervals|
    ensures forall i :: 0 <= i < |reports| ==> IsReport(reports[i], AllOf(intervals[..i + 1]), lists[i])
  {
    hide Reported, Frequent, AllOf, Client.Valid, IsReport, Distinct;
    var client := new Client();
    assert AllOf(intervals[..0]) == multiset{} by { AllOfNone(intervals); }
    reports, lists := [], [];
    for i := 0 to |intervals|
      invariant client.Valid() && client.ht.added == AllOf(intervals[..i])
      invariant fresh(client) && fresh(client.ht) && fresh(client.ht.buckets) && fresh(client.ht.nodeOf.Values)
      invariant fresh(client.cfl) && fresh(client.cfl.list)
      invariant |reports| == |lists| == i
      invariant forall k :: 0 <= k < i ==> IsReport(reports[k], AllOf(intervals[..k + 1]), lists[k])
    {
      AllOfStep(intervals, i);
      Serve(client, intervals[i]);
      var report, ks := Conclude(client);
      reports := reports + [report];
      lists := lists + [ks];
    }
  }
}
