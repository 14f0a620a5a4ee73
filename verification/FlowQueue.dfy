/** The linked first-in first-out queue in which finished flows wait. */
module FlowQueue {
  import opened Lists
  import opened Options

  class Qnode<T> {
    const elem: T
    var next: Qnode?<T>

    constructor (elem: T)
      ensures this.elem == elem && next == null
    {
      this.elem := elem;
      next := null;
    }
  }

  /** Node `i` of `nodes` points at the one that follows it. */
  ghost predicate Linked<T>(nodes: seq<Qnode<T>>, i: nat)
    requires i < |nodes|
    reads nodes
  {
    nodes[i].next == if i + 1 < |nodes| then nodes[i + 1] else null
  }

  class Queue<T> {
    var first: Qnode?<T>
    var last: Qnode?<T>
    var qlen: nat
    ghost var nodes: seq<Qnode<T>>
    ghost var repr: set<Qnode<T>>
    /** All that was ever put in, and how much of it was taken out. */
    ghost var history: seq<T>
    ghost var taken: nat

    constructor ()
      ensures Valid() && history == [] && taken == 0 && nodes == [] && repr == {}
    {
      first, last, qlen := null, null, 0;
      nodes, history, taken := [], [], 0;
      repr := {};
    }

    ghost predicate Valid()
      reads this, repr
    {
      && Distinct(nodes) && (forall n :: n in nodes ==> n in repr)
      && qlen == |nodes|
      && first == (if nodes == [] then null else nodes[0])
      && last == (if nodes == [] then null else nodes[|nodes| - 1])
      && (forall i :: 0 <= i < |nodes| ==> Linked(nodes, i))
      && taken + |nodes| == |history|
      && (forall i :: 0 <= i < |nodes| ==> nodes[i].elem == history[taken + i])
    }

    /** What waits: the latest part of all that was put in. */
    ghost function Contents(): seq<T>
      reads this, repr
      requires Valid()
    {
      history[taken..]
    }

    method Enq(elem: T)
      requires Valid()
      modifies this, repr
      ensures Valid() && taken == old(taken) && history == old(history) + [elem]
      ensures Contents() == old(Contents()) + [elem]
      ensures fresh(repr - old(repr))
    {
      ghost var was := nodes;
      var node := new Qnode(elem);
      if qlen == 0 {
        first := node;
        last := node;
        qlen := qlen + 1;
      } else {
        last.next := node;
        last := node;
        qlen := qlen + 1;
      }
      nodes := was + [node];
      repr := repr + {node};
      history := history + [elem];
      forall i | 0 <= i < |nodes| ensures Linked(nodes, i) {
        if i < |was| - 1 {
          assert old(Linked(was, i));
          Differ(was, i, |was| - 1);
        }
      }
    }

    /** Takes out the element that has waited longest; none when the queue is empty. */
    method Deq() returns (elem: Option<T>)
      requires Valid()
      modifies this
      ensures Valid() && history == old(history) && repr == old(repr)
      ensures old(Contents()) == [] ==> elem == None && taken == old(taken)
      ensures old(Contents()) != [] ==> elem == Some(old(Contents())[0]) && Contents() == old(Contents())[1..]
    {
      elem := None;
      if qlen == 0 {
        return;
      } else if qlen == 1 {
        last := null;
      }
      if first != null {
        assert Linked(nodes, 0);
        elem := Some(first.elem);
        first := first.next;
        qlen := qlen - 1;
        nodes := nodes[1..];
        taken := taken + 1;
        forall i | 0 <= i < |nodes| ensures Linked(nodes, i) {
          assert old(Linked(nodes, i + 1));
        }
      }
    }
  }
}
