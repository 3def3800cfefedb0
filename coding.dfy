/**
 * Encode concatenates the codes of the runes of a text; Decode walks the
 * tree character by character, emitting a rune at each leaf and starting
 * again from the root.
 */
module Coding {
  import opened Wrappers
  import opened HuffmanTree
  import opened Codes

  /** The code of one rune; a rune missing from the table reads as "". */
  function CodeFor(codes: map<char, string>, c: char): string
  {
    if c in codes then codes[c] else ""
  }

  /** The codes of the runes of the text, in order. */
  function Encoding(text: string, codes: map<char, string>): string
  {
    if text == [] then "" else CodeFor(codes, text[0]) + Encoding(text[1..], codes)
  }

  /** Encoding a concatenation is concatenating the encodings. */
  lemma {:induction false} EncodingAppend(a: string, b: string, codes: map<char, string>)
    ensures Encoding(a + b, codes) == Encoding(a, codes) + Encoding(b, codes)
  {
    if a == [] {
      assert a + b == b;
    } else {
      assert (a + b)[1..] == a[1..] + b;
      EncodingAppend(a[1..], b, codes);
    }
  }

  /** The encoded length is the sum of the code lengths of the runes. */
  function TotalCodeLength(text: string, codes: map<char, string>): nat
  {
    if text == [] then 0 else |CodeFor(codes, text[0])| + TotalCodeLength(text[1..], codes)
  }

  method Encode(text: string, codes: map<char, string>) returns (encoded: string)
    ensures encoded == Encoding(text, codes)
    ensures |encoded| == TotalCodeLength(text, codes)
  {
    encoded := "";
    for i := 0 to |text|
      invariant encoded == Encoding(text[..i], codes)
    {
      EncodingAppend(text[..i], [text[i]], codes);
      assert Encoding([text[i]], codes) == CodeFor(codes, text[i]) by {
        assert [text[i]][1..] == [];
      }
      assert text[..i + 1] == text[..i] + [text[i]];
      encoded := encoded + CodeFor(codes, text[i]);
    }
    assert text[..|text|] == text;
    EncodedLength(text, codes);
  }

  lemma {:induction false} EncodedLength(text: string, codes: map<char, string>)
    ensures |Encoding(text, codes)| == TotalCodeLength(text, codes)
  {
    if text != [] {
      EncodedLength(text[1..], codes);
    }
  }

  /** Puts a decoded prefix in front of the rest of a decoding. */
  function PrefixWith(prefix: string, d: Option<string>): Option<string>
  {
    match d
    case None => None
    case Some(s) => Some(prefix + s)
  }

  lemma PrefixWithAppend(a: string, b: string, d: Option<string>)
    ensures PrefixWith(a, PrefixWith(b, d)) == PrefixWith(a + b, d)
  {
    if d.Some? {
      assert a + (b + d.value) == (a + b) + d.value;
    }
  }

  /**
   * What Decode produces from `bits` when its cursor stands at `node`.
   * '0' goes left and every other character right; reaching a leaf emits
   * its rune and goes back to the root. Stepping down from a leaf
   * dereferences a nil child: None, the source panics.
   */
  function Decoding(root: Tree, node: Tree, bits: string): Option<string>
    decreases |bits|
  {
    if bits == [] then Some("")
    else match node
      case Leaf(_, _) => None
      case Node(_, l, r) =>
        var next := if bits[0] == '0' then l else r;
        if next.Leaf? then PrefixWith([next.sym], Decoding(root, root, bits[1..]))
        else Decoding(root, next, bits[1..])
  }

  method Decode(encoded: string, root: Tree) returns (decoded: Option<string>)
    ensures decoded == Decoding(root, root, encoded)
    ensures decoded.None? <==> root.Leaf? && encoded != ""
  {
    var out := "";
    var node := root;
    assert encoded[0..] == encoded;
    assert PrefixWith("", Decoding(root, root, encoded)) == Decoding(root, root, encoded) by {
      if Decoding(root, root, encoded).Some? {
        assert "" + Decoding(root, root, encoded).value == Decoding(root, root, encoded).value;
      }
    }
    for i := 0 to |encoded|
      invariant node == root || node.Node?
      invariant Decoding(root, root, encoded) == PrefixWith(out, Decoding(root, node, encoded[i..]))
    {
      if node.Leaf? {
        // the child of a leaf is nil
        return None;
      }
      assert encoded[i..][1..] == encoded[i + 1..];
      ghost var previous := out;
      node := if encoded[i] == '0' then node.left else node.right;
      if node.Leaf? {
        out := out + [node.sym];
        PrefixWithAppend(previous, [node.sym], Decoding(root, root, encoded[i + 1..]));
        node := root;
      }
    }
    assert encoded[|encoded|..] == [];
    assert out + "" == out;
    decoded := Some(out);
    if root.Node? {
      DecodingSucceedsOnNodeRoot(root, root, encoded);
    }
  }

  /** With an internal root and cursor, decoding never fails. */
  lemma {:induction false} DecodingSucceedsOnNodeRoot(root: Tree, node: Tree, bits: string)
    requires root.Node? && node.Node?
    ensures Decoding(root, node, bits).Some?
    decreases |bits|
  {
    if bits != [] {
      var next := if bits[0] == '0' then node.left else node.right;
      if next.Leaf? {
        DecodingSucceedsOnNodeRoot(root, root, bits[1..]);
      } else {
        DecodingSucceedsOnNodeRoot(root, next, bits[1..]);
      }
    }
  }

  /**
   * Reading a path from an internal cursor to a leaf holding s emits s and
   * continues from the root with what follows.
   */
  lemma {:induction false} DecodeOneCode(root: Tree, node: Tree, path: string, rest: string, s: char)
    requires node.Node?
    requires ReachesLeaf(node, path, s)
    ensures Decoding(root, node, path + rest) == PrefixWith([s], Decoding(root, root, rest))
    decreases |path|
  {
    assert path != [];
    var next := if path[0] == '0' then node.left else node.right;
    assert Follow(node, path) == Follow(next, path[1..]);
    assert (path + rest)[1..] == path[1..] + rest;
    if next.Leaf? {
      assert path[1..] == [];
      assert next.sym == s;
    } else {
      DecodeOneCode(root, next, path[1..], rest, s);
    }
  }

  /** A path that ends at an internal node decodes to nothing. */
  lemma {:induction false} DecodeIncompleteCode(root: Tree, node: Tree, path: string)
    requires node.Node?
    requires StopsInside(node, path)
    ensures Decoding(root, node, path) == Some("")
    decreases |path|
  {
    if path != [] {
      var next := if path[0] == '0' then node.left else node.right;
      assert Follow(node, path) == Follow(next, path[1..]);
      DecodeIncompleteCode(root, next, path[1..]);
    }
  }

  /**
   * Decoding the encoding of a text, followed by an incomplete code, gives
   * back the text: the trailing bits are dropped.
   */
  lemma {:induction false} DecodeEncoding(root: Tree, codes: map<char, string>, text: string, tail: string)
    requires root.Node?
    requires forall i :: 0 <= i < |text| ==> text[i] in codes && ReachesLeaf(root, codes[text[i]], text[i])
    requires StopsInside(root, tail)
    ensures Decoding(root, root, Encoding(text, codes) + tail) == Some(text)
    decreases |text|
  {
    if text == [] {
      assert Encoding(text, codes) + tail == tail;
      DecodeIncompleteCode(root, root, tail);
    } else {
      var c := text[0];
      var rest := Encoding(text[1..], codes) + tail;
      assert Encoding(text, codes) + tail == codes[c] + rest;
      DecodeOneCode(root, root, codes[c], rest, c);
      DecodeEncoding(root, codes, text[1..], tail);
      assert [c] + text[1..] == text;
    }
  }

  /**
   * Round trip: for a tree with at least two leaves and the codes generated
   * from it, decoding the encoding of any text over the tree's runes gives
   * the text back.
   */
  lemma RoundTrip(root: Tree, text: string)
    requires root.Node?
    requires forall i :: 0 <= i < |text| ==> text[i] in LeafSymbols(root)
    ensures Decoding(root, root, Encoding(text, CodesOf(root))) == Some(text)
  {
    CodesAreLeafPaths(root);
    DecodeEncoding(root, CodesOf(root), text, "");
    assert Encoding(text, CodesOf(root)) + "" == Encoding(text, CodesOf(root));
  }

  /**
   * The same with a trailing incomplete code appended: it is silently
   * dropped.
   */
  lemma TrailingCodeDropped(root: Tree, text: string, tail: string)
    requires root.Node?
    requires forall i :: 0 <= i < |text| ==> text[i] in LeafSymbols(root)
    requires StopsInside(root, tail)
    ensures Decoding(root, root, Encoding(text, CodesOf(root)) + tail) == Some(text)
  {
    CodesAreLeafPaths(root);
    DecodeEncoding(root, CodesOf(root), text, tail);
  }

  /**
   * A single-leaf tree: every rune of the tree encodes to "", so the whole
   * text encodes to "" and decodes to "" instead of the text.
   */
  lemma {:induction false} SingleLeafQuirk(root: Tree, text: string)
    requires root.Leaf?
    requires forall i :: 0 <= i < |text| ==> text[i] == root.sym
    ensures Encoding(text, CodesOf(root)) == ""
    ensures Decoding(root, root, Encoding(text, CodesOf(root))) == Some("")
  {
    if text != [] {
      SingleLeafQuirk(root, text[1..]);
    }
  }
}
