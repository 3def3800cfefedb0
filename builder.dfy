/**
 * BuildHuffmanTree: one leaf per table entry goes into the priority queue;
 * then the two least-frequent nodes are repeatedly replaced by a parent
 * whose frequency is their sum, until one node is left.
 */
module Builder {
  import opened Wrappers
  import opened HuffmanTree
  import opened Heap
  import opened Frequency

  /** What the queue holds between the steps of BuildHuffmanTree. */
  ghost predicate QueueInvariant(nodes: seq<Tree>, frequency: map<char, int>)
  {
    && (forall t :: t in nodes ==> WellFormed(t) && LeavesAgree(t, frequency))
    && ForestSymbols(nodes) == multiset(frequency.Keys)
    && Weight(nodes) == SumValues(frequency)
  }

  /** Every tree of a sub-multiset of a queue is a tree of the queue. */
  lemma {:induction false} InQueue(small: seq<Tree>, large: seq<Tree>, extra: multiset<Tree>)
    requires multiset(large) == multiset(small) + extra
    ensures forall t :: t in small ==> t in large
  {
    forall t | t in small
      ensures t in large
    {
      assert t in multiset(small);
      assert t in multiset(large);
    }
  }

  /** Pushing one merged parent of two popped nodes keeps the invariant. */
  lemma MergeStep(a0: seq<Tree>, a1: seq<Tree>, a2: seq<Tree>, a3: seq<Tree>,
                  left: Tree, right: Tree, frequency: map<char, int>)
    requires QueueInvariant(a0, frequency)
    requires multiset(a0) == multiset(a1) + multiset{left}
    requires multiset(a1) == multiset(a2) + multiset{right}
    requires multiset(a3) == multiset(a2) + multiset{Node(left.freq + right.freq, left, right)}
    ensures QueueInvariant(a3, frequency)
  {
    var parent := Node(left.freq + right.freq, left, right);
    ForestRemove(a0, a1, left);
    ForestRemove(a1, a2, right);
    ForestRemove(a3, a2, parent);
    InQueue(a1, a0, multiset{left});
    InQueue(a2, a1, multiset{right});
    assert left in a0 by { assert left in multiset(a0); }
    assert right in a1 by { assert right in multiset(a1); }
    forall t | t in a3
      ensures WellFormed(t) && LeavesAgree(t, frequency)
    {
      assert t in multiset(a3);
      if t != parent {
        assert t in multiset(a2);
      }
    }
  }

  /** What the queue holds while the entries of `rest` are still to be pushed. */
  ghost predicate PushInvariant(nodes: seq<Tree>, rest: map<char, int>, frequency: map<char, int>)
  {
    && rest.Keys <= frequency.Keys
    && (forall c :: c in rest ==> rest[c] == frequency[c])
    && (forall t :: t in nodes ==> WellFormed(t) && LeavesAgree(t, frequency))
    && ForestSymbols(nodes) + multiset(rest.Keys) == multiset(frequency.Keys)
    && Weight(nodes) + SumValues(rest) == SumValues(frequency)
    && |nodes| + |rest| == |frequency|
  }

  /** Pushing the leaf of one remaining entry keeps the invariant. */
  lemma PushStep(before: seq<Tree>, after: seq<Tree>, rest: map<char, int>, c: char,
                 frequency: map<char, int>)
    requires PushInvariant(before, rest, frequency)
    requires c in rest
    requires multiset(after) == multiset(before) + multiset{Leaf(c, rest[c])}
    ensures PushInvariant(after, rest - {c}, frequency)
  {
    var leaf := Leaf(c, rest[c]);
    ForestRemove(after, before, leaf);
    InQueue(before, after, multiset{leaf});
    forall t | t in after
      ensures WellFormed(t) && LeavesAgree(t, frequency)
    {
      assert t in multiset(after);
      if t != leaf {
        assert t in multiset(before);
      }
    }
    assert |after| == |multiset(after)| == |before| + 1;
    SumValuesRemove(rest, c);
    assert (rest - {c}).Keys == rest.Keys - {c};
    assert multiset(rest.Keys) == multiset((rest - {c}).Keys) + multiset{c};
    assert |rest - {c}| == |rest| - 1;
  }

  /** The first loop: one leaf per entry, pushed in map iteration order. */
  method PushLeaves(h: HuffmanHeap, frequency: map<char, int>)
    requires h.nodes == []
    modifies h
    ensures QueueInvariant(h.nodes, frequency)
    ensures |h.nodes| == |frequency|
  {
    var rest := frequency;
    while rest != map[]
      invariant PushInvariant(h.nodes, rest, frequency)
      decreases |rest|
    {
      var c :| c in rest;
      ghost var before := h.nodes;
      h.HeapPush(Leaf(c, rest[c]));
      PushStep(before, h.nodes, rest, c, frequency);
      rest := rest - {c};
    }
  }

  /** The second loop: merge the two least nodes until at most one is left. */
  method MergeQueue(h: HuffmanHeap, ghost frequency: map<char, int>) returns (ghost merges: nat)
    requires QueueInvariant(h.nodes, frequency)
    modifies h
    ensures QueueInvariant(h.nodes, frequency)
    ensures |h.nodes| == if old(h.nodes) == [] then 0 else 1
    ensures merges == if old(h.nodes) == [] then 0 else |old(h.nodes)| - 1
  {
    merges := 0;
    while h.Len() > 1
      invariant QueueInvariant(h.nodes, frequency)
      invariant merges + |h.nodes| == |old(h.nodes)|
      invariant old(h.nodes) != [] ==> h.nodes != []
      invariant old(h.nodes) == [] ==> h.nodes == []
      decreases |h.nodes|
    {
      ghost var a0 := h.nodes;
      var left := h.HeapPop();
      ghost var a1 := h.nodes;
      var right := h.HeapPop();
      ghost var a2 := h.nodes;
      h.HeapPush(Node(left.value.freq + right.value.freq, left.value, right.value));
      MergeStep(a0, a1, a2, h.nodes, left.value, right.value, frequency);
      merges := merges + 1;
    }
  }

  /**
   * The entries of the table are pushed in an unspecified order (Go map
   * iteration), and ties in the queue are broken in an unspecified way, so
   * only properties that hold for every such order are stated. An empty
   * table ends in a pop from an empty queue, which panics: None.
   */
  method BuildHuffmanTree(frequency: map<char, int>) returns (r: Option<Tree>, ghost merges: nat)
    ensures r.None? <==> frequency == map[]
    ensures r.Some? ==> WellFormed(r.value) && LeavesAgree(r.value, frequency)
    ensures r.Some? ==> LeafSymbols(r.value) == multiset(frequency.Keys)
    ensures r.Some? ==> r.value.freq == SumValues(frequency)
    ensures r.Some? ==> merges == |frequency| - 1 == InternalCount(r.value)
  {
    var h := new HuffmanHeap();
    PushLeaves(h, frequency);
    merges := MergeQueue(h, frequency);
    ghost var last := h.nodes;
    r := h.HeapPop();
    if r.Some? {
      assert last == [r.value] by {
        assert multiset(last) == multiset{r.value};
        assert last[0] in multiset(last);
      }
      assert last[1..] == [];
      assert r.value in last;
      assert ForestSymbols(last) == LeafSymbols(r.value);
      assert Weight(last) == r.value.freq;
      assert merges == |frequency| - 1;
      InternalCountIsLeafCountMinusOne(r.value);
      assert |multiset(frequency.Keys)| == |frequency|;
    }
  }
}
