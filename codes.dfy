/**
 * GenerateHuffmanCodes: a depth-first walk that records, for every leaf,
 * the path from the root to it ('0' for a left edge, '1' for a right edge).
 * The source writes into a caller-supplied map; here the updated map is
 * returned.
 */
module Codes {
  import opened Wrappers
  import opened HuffmanTree

  /** Every character of the string is '0' or '1'. */
  predicate Binary(s: string)
  {
    forall i :: 0 <= i < |s| ==> s[i] == '0' || s[i] == '1'
  }

  /** The walk below a node that is known to be present. */
  function Generate(t: Tree, prefix: string, codes: map<char, string>): map<char, string>
  {
    match t
    case Leaf(s, _) => codes[s := prefix]
    case Node(_, l, r) => Generate(r, prefix + "1", Generate(l, prefix + "0", codes))
  }

  /** The source's entry point; a nil node (None) leaves the map unchanged. */
  function GenerateHuffmanCodes(node: Option<Tree>, prefix: string, codes: map<char, string>): (r: map<char, string>)
    ensures node.None? ==> r == codes
  {
    match node
    case None => codes
    case Some(t) => Generate(t, prefix, codes)
  }

  /** The walk adds one entry per leaf rune and changes no other entry. */
  lemma {:induction false} GenerateKeys(t: Tree, prefix: string, codes: map<char, string>)
    ensures Generate(t, prefix, codes).Keys == codes.Keys + SymbolSet(t)
    ensures forall s :: s in codes && s !in SymbolSet(t) ==> Generate(t, prefix, codes)[s] == codes[s]
  {
    if t.Node? {
      GenerateKeys(t.left, prefix + "0", codes);
      GenerateKeys(t.right, prefix + "1", Generate(t.left, prefix + "0", codes));
    }
  }

  /**
   * The entry of a leaf rune is the prefix followed by a path that leads
   * from the node to a leaf holding that rune.
   */
  lemma {:induction false} GeneratePaths(t: Tree, prefix: string, codes: map<char, string>, s: char)
    requires s in SymbolSet(t)
    ensures var r := Generate(t, prefix, codes);
      s in r && |prefix| <= |r[s]| && r[s][..|prefix|] == prefix && ReachesLeaf(t, r[s][|prefix|..], s)
  {
    GenerateKeys(t, prefix, codes);
    match t
    case Leaf(_, _) =>
      assert prefix[|prefix|..] == [];
    case Node(_, l, rt) =>
      var p0, p1 := prefix + "0", prefix + "1";
      var c1 := Generate(l, p0, codes);
      var r := Generate(rt, p1, c1);
      if s in SymbolSet(rt) {
        GeneratePaths(rt, p1, c1, s);
        assert r[s][..|p1|][..|prefix|] == prefix;
        assert r[s][|prefix|..] == "1" + r[s][|p1|..];
      } else {
        GeneratePaths(l, p0, codes, s);
        GenerateKeys(rt, p1, c1);
        assert r[s][..|p0|][..|prefix|] == prefix;
        assert r[s][|prefix|..] == "0" + r[s][|p0|..];
      }
  }

  /** A '0'/'1' prefix and '0'/'1' entries give '0'/'1' entries. */
  lemma {:induction false} GenerateBinary(t: Tree, prefix: string, codes: map<char, string>)
    requires Binary(prefix) && forall s :: s in codes ==> Binary(codes[s])
    ensures forall s :: s in Generate(t, prefix, codes) ==> Binary(Generate(t, prefix, codes)[s])
  {
    if t.Node? {
      var p0, p1 := prefix + "0", prefix + "1";
      assert Binary(p0) && Binary(p1);
      GenerateBinary(t.left, p0, codes);
      GenerateBinary(t.right, p1, Generate(t.left, p0, codes));
    }
  }

  /** The codes of a whole tree, as the pipeline computes them. */
  function CodesOf(t: Tree): map<char, string>
  {
    GenerateHuffmanCodes(Some(t), "", map[])
  }

  /**
   * The table has exactly one entry per leaf rune; each code is the
   * root-to-leaf path of that rune, written in '0'/'1', so its length is the
   * depth of the leaf.
   */
  lemma CodesAreLeafPaths(t: Tree)
    ensures CodesOf(t).Keys == SymbolSet(t)
    ensures forall s :: s in CodesOf(t) ==> ReachesLeaf(t, CodesOf(t)[s], s) && Binary(CodesOf(t)[s])
  {
    GenerateKeys(t, "", map[]);
    GenerateBinary(t, "", map[]);
    forall s | s in CodesOf(t)
      ensures ReachesLeaf(t, CodesOf(t)[s], s)
    {
      GeneratePaths(t, "", map[], s);
      assert CodesOf(t)[s][|""|..] == CodesOf(t)[s];
    }
  }

  /**
   * For a tree with at least two leaves every code is non-empty; a lone leaf
   * gets the empty code.
   */
  lemma CodesNonEmpty(t: Tree)
    ensures t.Node? ==> forall s :: s in CodesOf(t) ==> CodesOf(t)[s] != ""
    ensures t.Leaf? ==> CodesOf(t) == map[t.sym := ""]
  {
    CodesAreLeafPaths(t);
  }

  /** No code is a prefix of the code of another rune. */
  lemma CodesArePrefixFree(t: Tree)
    ensures forall s1, s2 :: s1 in CodesOf(t) && s2 in CodesOf(t) && s1 != s2 ==>
      !(CodesOf(t)[s1] <= CodesOf(t)[s2])
  {
    CodesAreLeafPaths(t);
    var codes := CodesOf(t);
    forall s1, s2 | s1 in codes && s2 in codes && codes[s1] <= codes[s2]
      ensures s1 == s2
    {
      var p, q := codes[s1], codes[s2];
      var tail := q[|p|..];
      assert q == p + tail;
      FollowConcat(t, p, tail);
      assert tail == [];
    }
  }
}
