/**
 * HuffmanHeap: the slice of tree nodes behind the priority queue, with the
 * five methods that container/heap drives (Len, Less, Swap, Push, Pop), and
 * the two container/heap operations that BuildHuffmanTree calls.
 */
module Heap {
  import opened Wrappers
  import opened HuffmanTree

  class HuffmanHeap {
    var nodes: seq<Tree>

    /** An empty queue (heap.Init on an empty slice changes nothing). */
    constructor ()
      ensures nodes == []
    {
      nodes := [];
    }

    function Len(): nat
      reads this
    {
      |nodes|
    }

    /** Nodes are ordered by frequency alone. */
    predicate Less(i: nat, j: nat)
      reads this
      requires i < |nodes| && j < |nodes|
    {
      nodes[i].freq < nodes[j].freq
    }

    method Swap(i: nat, j: nat)
      requires i < |nodes| && j < |nodes|
      modifies this
      ensures nodes == old(nodes)[i := old(nodes)[j]][j := old(nodes)[i]]
      ensures multiset(nodes) == old(multiset(nodes))
    {
      nodes := nodes[i := nodes[j]][j := nodes[i]];
    }

    /** Appends a node at the end of the slice. */
    method Push(x: Tree)
      modifies this
      ensures nodes == old(nodes) + [x]
    {
      nodes := nodes + [x];
    }

    /** Removes and returns the last node of the slice. */
    method Pop() returns (x: Tree)
      requires nodes != []
      modifies this
      ensures x == old(nodes)[|old(nodes)| - 1]
      ensures nodes == old(nodes)[..|old(nodes)| - 1]
      ensures |nodes| == |old(nodes)| - 1
    {
      x := nodes[|nodes| - 1];
      nodes := nodes[..|nodes| - 1];
    }

    /**
     * heap.Push: the queue grows by exactly the given node. The sift-up that
     * restores the heap order is not modelled; HeapPop does not rely on it.
     */
    method HeapPush(x: Tree)
      modifies this
      ensures multiset(nodes) == old(multiset(nodes)) + multiset{x}
      ensures |nodes| == |old(nodes)| + 1
    {
      Push(x);
    }

    /**
     * heap.Pop: removes and returns a node of least frequency. On an empty
     * queue the source panics (Swap(0, -1) indexes out of range): None, and
     * the queue is left alone. Which of several least nodes is returned is
     * not specified.
     */
    method HeapPop() returns (r: Option<Tree>)
      modifies this
      ensures old(nodes) == [] ==> r == None && nodes == []
      ensures old(nodes) != [] ==> r.Some? && |nodes| == |old(nodes)| - 1
      ensures old(nodes) != [] ==> multiset(nodes) + multiset{r.value} == old(multiset(nodes))
      ensures old(nodes) != [] ==> forall y :: y in nodes ==> r.value.freq <= y.freq
    {
      if nodes == [] {
        return None;
      }
      var least := 0;
      for k := 1 to |nodes|
        invariant least < |nodes|
        invariant forall j :: 0 <= j < k ==> nodes[least].freq <= nodes[j].freq
      {
        if Less(k, least) {
          least := k;
        }
      }
      ghost var before := nodes;
      var last := |nodes| - 1;
      Swap(least, last);
      assert nodes[last] == before[least];
      var x := Pop();
      forall y | y in nodes
        ensures x.freq <= y.freq
      {
        assert y in multiset(before);
        var j :| 0 <= j < |before| && before[j] == y;
      }
      assert nodes + [x] == old(nodes)[least := old(nodes)[last]][last := old(nodes)[least]];
      r := Some(x);
    }
  }
}
