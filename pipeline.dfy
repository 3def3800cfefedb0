/**
 * The in-memory part of main: count, build, generate codes, encode and
 * decode with the same tree. Reading input.txt and writing encoded.txt and
 * decoded.txt are not part of this model; the text is a parameter and the
 * two strings that would be written are returned.
 */
module Pipeline {
  import opened Wrappers
  import opened HuffmanTree
  import opened Frequency
  import opened Builder
  import opened Codes
  import opened Coding

  /** The distinct runes of a text. */
  function Alphabet(text: string): set<char>
  {
    set c | c in text
  }

  /**
   * Returns (encoded, decoded), or None when the source panics: an empty
   * text gives an empty table, and popping the final node of an empty queue
   * panics. With one distinct rune both strings are empty; with two or more
   * the decoded string is the input.
   */
  method Run(text: string) returns (r: Option<(string, string)>)
    ensures r.None? <==> text == ""
    ensures r.Some? ==> Binary(r.value.0)
    ensures r.Some? && |Alphabet(text)| == 1 ==> r.value == ("", "")
    ensures r.Some? && |Alphabet(text)| >= 2 ==> r.value.1 == text
  {
    var frequency := BuildFrequencyTable(text);
    var tree, _ := BuildHuffmanTree(frequency);
    if tree.None? {
      return None;
    }
    var root := tree.value;
    var codes := GenerateHuffmanCodes(tree, "", map[]);
    var encoded := Encode(text, codes);
    var decoded := Decode(encoded, root);
    assert frequency.Keys == Alphabet(text);
    PipelineOutcome(text, root);
    r := Some((encoded, decoded.value));
  }

  /**
   * What the pipeline computes from a tree whose leaves are the distinct
   * runes of the text, one leaf each.
   */
  lemma PipelineOutcome(text: string, root: Tree)
    requires LeafSymbols(root) == multiset(Alphabet(text))
    ensures Binary(Encoding(text, CodesOf(root)))
    ensures |Alphabet(text)| == 1 ==> Encoding(text, CodesOf(root)) == ""
    ensures |Alphabet(text)| == 1 ==> Decoding(root, root, Encoding(text, CodesOf(root))) == Some("")
    ensures |Alphabet(text)| >= 2 ==> Decoding(root, root, Encoding(text, CodesOf(root))) == Some(text)
  {
    assert SymbolSet(root) == Alphabet(text);
    CodesAreLeafPaths(root);
    InternalCountIsLeafCountMinusOne(root);
    if root.Leaf? {
      assert Alphabet(text) == {root.sym};
      assert forall i :: 0 <= i < |text| ==> text[i] in Alphabet(text);
      SingleLeafQuirk(root, text);
    } else {
      assert |Alphabet(text)| >= 2 by {
        assert |multiset(Alphabet(text))| == |Alphabet(text)|;
        InternalCountIsLeafCountMinusOne(root.left);
        InternalCountIsLeafCountMinusOne(root.right);
      }
      RoundTrip(root, text);
    }
    EncodingBinary(text, CodesOf(root));
  }

  /** The encoding of a text under '0'/'1' codes is a '0'/'1' string. */
  lemma {:induction false} EncodingBinary(text: string, codes: map<char, string>)
    requires forall c :: c in codes ==> Binary(codes[c])
    ensures Binary(Encoding(text, codes))
  {
    if text != [] {
      EncodingBinary(text[1..], codes);
      var head := CodeFor(codes, text[0]);
      var tail := Encoding(text[1..], codes);
      assert forall i :: 0 <= i < |head| ==> (head + tail)[i] == head[i];
      assert forall i :: |head| <= i < |head + tail| ==> (head + tail)[i] == tail[i - |head|];
    }
  }
}
