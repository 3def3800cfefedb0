/**
 * HuffmanNode as an immutable binary tree. A leaf carries a rune and its
 * frequency; an internal node carries a frequency and always two children
 * (the source never builds a node with exactly one child).
 */
module HuffmanTree {
  import opened Wrappers

  datatype Tree = Leaf(sym: char, freq: int) | Node(freq: int, left: Tree, right: Tree)

  /** The runes at the leaves, with multiplicity. */
  function LeafSymbols(t: Tree): multiset<char>
  {
    match t
    case Leaf(s, _) => multiset{s}
    case Node(_, l, r) => LeafSymbols(l) + LeafSymbols(r)
  }

  /** The distinct runes at the leaves. */
  function SymbolSet(t: Tree): set<char>
  {
    set c | c in LeafSymbols(t)
  }

  function LeafCount(t: Tree): nat
  {
    match t
    case Leaf(_, _) => 1
    case Node(_, l, r) => LeafCount(l) + LeafCount(r)
  }

  function InternalCount(t: Tree): nat
  {
    match t
    case Leaf(_, _) => 0
    case Node(_, l, r) => 1 + InternalCount(l) + InternalCount(r)
  }

  /** A tree with k leaves has k - 1 internal nodes, one leaf per leaf rune. */
  lemma {:induction false} InternalCountIsLeafCountMinusOne(t: Tree)
    ensures InternalCount(t) == LeafCount(t) - 1
    ensures LeafCount(t) == |LeafSymbols(t)|
  {
    match t
    case Leaf(_, _) =>
    case Node(_, l, r) =>
      InternalCountIsLeafCountMinusOne(l);
      InternalCountIsLeafCountMinusOne(r);
  }

  /** Every internal node's frequency is the sum of its two children's. */
  predicate WellFormed(t: Tree)
  {
    match t
    case Leaf(_, _) => true
    case Node(f, l, r) => f == l.freq + r.freq && WellFormed(l) && WellFormed(r)
  }

  /** The sum of the leaf frequencies. */
  function LeafWeight(t: Tree): int
  {
    match t
    case Leaf(_, f) => f
    case Node(_, l, r) => LeafWeight(l) + LeafWeight(r)
  }

  /** In a well-formed tree the root frequency is the total leaf frequency. */
  lemma {:induction false} RootIsLeafWeight(t: Tree)
    requires WellFormed(t)
    ensures t.freq == LeafWeight(t)
  {
    if t.Node? {
      RootIsLeafWeight(t.left);
      RootIsLeafWeight(t.right);
    }
  }

  /** Every leaf carries the frequency that the table gives its rune. */
  predicate LeavesAgree(t: Tree, frequency: map<char, int>)
  {
    match t
    case Leaf(s, f) => s in frequency && frequency[s] == f
    case Node(_, l, r) => LeavesAgree(l, frequency) && LeavesAgree(r, frequency)
  }

  /** Total frequency of a forest (the contents of the priority queue). */
  function Weight(f: seq<Tree>): int
  {
    if f == [] then 0 else f[0].freq + Weight(f[1..])
  }

  /** All leaf runes of a forest, with multiplicity. */
  function ForestSymbols(f: seq<Tree>): multiset<char>
  {
    if f == [] then multiset{} else LeafSymbols(f[0]) + ForestSymbols(f[1..])
  }

  lemma {:induction false} ForestConcat(a: seq<Tree>, b: seq<Tree>)
    ensures Weight(a + b) == Weight(a) + Weight(b)
    ensures ForestSymbols(a + b) == ForestSymbols(a) + ForestSymbols(b)
  {
    if a != [] {
      assert (a + b)[1..] == a[1..] + b;
      ForestConcat(a[1..], b);
    } else {
      assert a + b == b;
    }
  }

  /** Taking the j-th tree out of a forest. */
  lemma {:induction false} ForestPick(b: seq<Tree>, j: nat)
    requires j < |b|
    ensures Weight(b) == b[j].freq + Weight(b[..j] + b[j + 1..])
    ensures ForestSymbols(b) == LeafSymbols(b[j]) + ForestSymbols(b[..j] + b[j + 1..])
  {
    assert b == b[..j] + ([b[j]] + b[j + 1..]);
    ForestConcat(b[..j], [b[j]] + b[j + 1..]);
    ForestConcat([b[j]], b[j + 1..]);
    ForestConcat(b[..j], b[j + 1..]);
  }

  /** Taking the same tree out of two permutations of a forest. */
  lemma PermutationPick(a: seq<Tree>, b: seq<Tree>, j: nat)
    requires multiset(a) == multiset(b)
    requires a != [] && j < |b| && b[j] == a[0]
    ensures multiset(a[1..]) == multiset(b[..j] + b[j + 1..])
  {
    assert a == [a[0]] + a[1..];
    assert b == b[..j] + [b[j]] + b[j + 1..];
    var rest := b[..j] + b[j + 1..];
    assert multiset(b) == multiset(rest) + multiset{b[j]};
    assert multiset(a) == multiset(a[1..]) + multiset{a[0]};
    assert multiset(a[1..]) == multiset(a) - multiset{a[0]} == multiset(b) - multiset{b[j]} == multiset(rest);
  }

  /** Weight and leaf runes of a forest depend only on its multiset of trees. */
  lemma {:induction false} ForestPermutation(a: seq<Tree>, b: seq<Tree>)
    requires multiset(a) == multiset(b)
    ensures Weight(a) == Weight(b)
    ensures ForestSymbols(a) == ForestSymbols(b)
    decreases |a|
  {
    if a != [] {
      assert a[0] in multiset(b);
      var j :| 0 <= j < |b| && b[j] == a[0];
      PermutationPick(a, b, j);
      ForestPermutation(a[1..], b[..j] + b[j + 1..]);
      ForestPick(b, j);
    } else {
      assert b == [];
    }
  }

  /** Taking one tree out of a forest takes its weight and leaf runes out. */
  lemma {:induction false} ForestRemove(a: seq<Tree>, b: seq<Tree>, x: Tree)
    requires multiset(a) == multiset(b) + multiset{x}
    ensures Weight(a) == Weight(b) + x.freq
    ensures ForestSymbols(a) == ForestSymbols(b) + LeafSymbols(x)
  {
    assert multiset(b + [x]) == multiset(a);
    ForestPermutation(a, b + [x]);
    ForestConcat(b, [x]);
  }

  /**
   * The node reached by walking a path of '0'/'1' characters from t:
   * '0' goes left and every other character goes right, as in Decode.
   * None when the path walks past a leaf (a nil child).
   */
  function Follow(t: Tree, path: string): Option<Tree>
  {
    if path == [] then Some(t)
    else match t
      case Leaf(_, _) => None
      case Node(_, l, r) => Follow(if path[0] == '0' then l else r, path[1..])
  }

  /** The path leads from t to a leaf holding rune s. */
  predicate ReachesLeaf(t: Tree, path: string, s: char)
  {
    var n := Follow(t, path);
    n.Some? && n.value.Leaf? && n.value.sym == s
  }

  /** The path stops at an internal node: it is an incomplete code. */
  predicate StopsInside(t: Tree, path: string)
  {
    var n := Follow(t, path);
    n.Some? && n.value.Node?
  }

  /** Walking p then q is walking p + q. */
  lemma {:induction false} FollowConcat(t: Tree, p: string, q: string)
    ensures Follow(t, p + q) == match Follow(t, p) case None => None case Some(n) => Follow(n, q)
  {
    if p == [] {
      assert p + q == q;
    } else if t.Node? {
      assert (p + q)[1..] == p[1..] + q;
      FollowConcat(if p[0] == '0' then t.left else t.right, p[1..], q);
    }
  }
}
