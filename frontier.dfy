/**
 * The frontier of pending nodes. The program has a stack frontier and a queue frontier
 * that share `add`, `contains_state` and `empty` and differ only in which end `remove`
 * takes from; here that difference is the constant `policy` of one class.
 */
module Frontiers {
  import opened Wrappers
  import opened Nodes

  datatype Policy = Lifo | Fifo

  /** The states of a sequence of nodes, position by position. */
  function States(ns: seq<Node>): (r: seq<Cell>)
    ensures |r| == |ns|
    ensures forall i :: 0 <= i < |ns| ==> r[i] == ns[i].state
  {
    if ns == [] then [] else [ns[0].state] + States(ns[1..])
  }

  /** States of a concatenation are the concatenation of the states. */
  lemma {:induction false} StatesAppend(a: seq<Node>, b: seq<Node>)
    ensures States(a + b) == States(a) + States(b)
  {
    assert |States(a + b)| == |States(a) + States(b)|;
    forall i | 0 <= i < |a + b|
      ensures States(a + b)[i] == (States(a) + States(b))[i]
    {
    }
  }

  class Frontier {
    const policy: Policy
    var nodes: seq<Node>

    /** An empty stack frontier (last in, first out). */
    constructor Stack()
      ensures policy == Lifo && nodes == []
    {
      policy := Lifo;
      nodes := [];
    }

    /** An empty queue frontier (first in, first out). */
    constructor Queue()
      ensures policy == Fifo && nodes == []
    {
      policy := Fifo;
      nodes := [];
    }

    /** Appends `n` unconditionally; callers check `ContainsState` first. */
    method Add(n: Node)
      modifies this
      ensures nodes == old(nodes) + [n]
    {
      nodes := nodes + [n];
    }

    /** Whether some pending node has state `s`. */
    predicate ContainsState(s: Cell)
      reads this
      ensures ContainsState(s) <==> exists i :: 0 <= i < |nodes| && nodes[i].state == s
    {
      s in States(nodes)
    }

    /** Whether no node is pending. */
    predicate Empty()
      reads this
      ensures Empty() <==> nodes == []
    {
      |nodes| == 0
    }

    /**
     * Takes the newest node (stack) or the oldest node (queue). On an empty frontier the
     * program raises; here that is `Err(EmptyFrontier)`, and nothing changes.
     */
    method Remove() returns (r: Result<Node>)
      modifies this
      ensures old(nodes) == [] ==> r == Err(EmptyFrontier) && nodes == old(nodes)
      ensures old(nodes) != [] && policy == Lifo ==>
        r == Ok(old(nodes)[|old(nodes)| - 1]) && nodes == old(nodes)[..|old(nodes)| - 1]
      ensures old(nodes) != [] && policy == Fifo ==>
        r == Ok(old(nodes)[0]) && nodes == old(nodes)[1..]
    {
      if Empty() {
        r := Err(EmptyFrontier);
      } else if policy == Lifo {
        r := Ok(nodes[|nodes| - 1]);
        nodes := nodes[..|nodes| - 1];
      } else {
        r := Ok(nodes[0]);
        nodes := nodes[1..];
      }
    }
  }

  /** On a stack, `Add(n)` then `Remove()` gives back `n` and the old frontier. */
  method StackAddRemove(f: Frontier, n: Node) returns (r: Result<Node>)
    requires f.policy == Lifo
    modifies f
    ensures r == Ok(n) && f.nodes == old(f.nodes)
  {
    f.Add(n);
    r := f.Remove();
    assert (old(f.nodes) + [n])[..|old(f.nodes)|] == old(f.nodes);
  }

  /** On a queue, the first of two nodes added to an empty frontier comes out first. */
  method QueueOrder(n1: Node, n2: Node) returns (r1: Result<Node>, r2: Result<Node>)
    ensures r1 == Ok(n1) && r2 == Ok(n2)
  {
    var q := new Frontier.Queue();
    q.Add(n1);
    q.Add(n2);
    r1 := q.Remove();
    r2 := q.Remove();
  }
}
