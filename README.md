# Static Huffman coding of a text, modelled in Dafny

This project models the Huffman pipeline of `main.go`:

- the rune frequency table (`BuildFrequencyTable`);
- the priority queue of tree nodes (`HuffmanHeap` and the `container/heap` calls made on it);
- the greedy tree construction (`BuildHuffmanTree`);
- the depth-first code assignment (`GenerateHuffmanCodes`);
- the encoder and decoder (`Encode`, `Decode`);
- the in-memory part of `main` that chains them.

Runes are Dafny `char`s. Texts and codes are `string`s, and codes are written as `'0'`/`'1'` characters, as in the source.

A `HuffmanNode` is never changed once it is created, so the tree is the value type `Tree = Leaf(sym, freq) | Node(freq, left, right)`. An internal node always has two children: the source never builds one with a nil child. The queue is changed in place, so it is a class `HuffmanHeap` whose field `nodes: seq<Tree>` stands for the Go slice. `Len` and `Less` are functions on it; `Swap`, `Push` and `Pop` are methods with `modifies` clauses.

Module layout:

- `frequency.dfy` (`Frequency`): `BuildFrequencyTable` and the sum of the values of a map;
- `tree.dfy` (`HuffmanTree`): `HuffmanNode`, leaf and internal counts, paths through the tree;
- `heap.dfy` (`Heap`): `HuffmanHeap`, plus `heap.Push` and `heap.Pop`;
- `builder.dfy` (`Builder`): `BuildHuffmanTree`;
- `codes.dfy` (`Codes`): `GenerateHuffmanCodes`;
- `coding.dfy` (`Coding`): `Encode`, `Decode` and the round trip;
- `pipeline.dfy` (`Pipeline`): `main` without its file I/O.

Where the source panics, the model returns `None`. That happens in two places. The final `heap.Pop` on an empty queue panics, which happens when the input text is empty. Stepping from a leaf to its nil child panics in `Decode`, which happens when the tree is a single leaf and the encoded string is non-empty.

Go's map iteration order and the heap's handling of equal frequencies are not fixed. So `BuildHuffmanTree` pushes the entries in a nondeterministic order (`:|`), and `HeapPop` promises only *some* node of least frequency. Every property stated about the resulting tree therefore holds for every possible order. The model does not claim that the tree is deterministic.

Some behaviours are taken from the code where a fuller Huffman design would differ:
- A text with a single distinct rune gets the empty code, encodes to `""` and decodes to `""`. There is no 1-bit special case.
- An empty text makes the source panic. It is not an empty round trip.
- Codes stay `'0'`/`'1'` text. There is no bit packing, no container format and no serialized tree.
- `Decode` takes every character other than `'0'` as a right turn. It silently drops a trailing incomplete code and reports no stream error.

The model follows the code in all of these.

## Model

| member | source | states |
|---|---|---|
| `Frequency.BuildFrequencyTable` | main.go:36-42 | The keys are exactly the runes that occur in the text. Each key maps to its number of occurrences, which is at least 1. The counts add up to the text's length. An empty text gives the empty map. |
| `HuffmanTree.InternalCountIsLeafCountMinusOne` | main.go:55-63 | A tree built by merging has one internal node fewer than it has leaves. Its leaf count is the size of its multiset of leaf runes. |
| `HuffmanTree.RootIsLeafWeight` | main.go:58-62 | If every internal node's frequency is the sum of its children's, then the root frequency is the sum of all leaf frequencies. |
| `Heap.HuffmanHeap.constructor` | main.go:46-47 | The queue starts empty. |
| `Heap.HuffmanHeap.Swap` | main.go:23 | Exchanges two nodes of the slice. Nothing else changes, and the queue's contents as a multiset stay the same. |
| `Heap.HuffmanHeap.Push` | main.go:24-26 | Appends the node at the end of the slice. |
| `Heap.HuffmanHeap.Pop` | main.go:27-33 | Removes and returns the last node. The slice shrinks by exactly one. |
| `Heap.HuffmanHeap.HeapPush` | main.go:51 | The queue gains exactly the pushed node and grows by one. |
| `Heap.HuffmanHeap.HeapPop` | main.go:56-57 | On a non-empty queue, it removes exactly one node and returns it. No node left in the queue has a smaller frequency (the `Less` order). On an empty queue it panics (`None`), and the queue is unchanged. |
| `Builder.PushStep` | main.go:50-52 | Pushing the leaf for one more table entry keeps the invariant. Every queued leaf carries its entry's frequency. The queued leaf runes plus the runes not yet pushed are the table's keys, each exactly once. The queued weight plus the weight not yet pushed is the table's total. |
| `Builder.MergeStep` | main.go:56-62 | Replacing the two popped nodes by their parent keeps the invariant. The parent's frequency is the sum of its children's. The multiset of leaf runes and the total weight do not change. |
| `Builder.PushLeaves` | main.go:50-52 | After the first loop, the queue holds one leaf per table entry, with that entry's frequency. |
| `Builder.MergeQueue` | main.go:55-63 | The second loop ends with exactly one node if the queue was non-empty, and with none if it was empty. For k nodes it performs exactly k - 1 merges, and it keeps the queue invariant. |
| `Builder.BuildHuffmanTree` | main.go:45-66 | An empty table is an error: the final pop panics. Otherwise the tree has exactly one leaf per key, and each leaf carries that key's frequency. Every internal node's frequency is the sum of its children's. The root's frequency is the sum of all frequencies. There are exactly k - 1 merges, so k - 1 internal nodes. |
| `Codes.GenerateHuffmanCodes` | main.go:69-72 | A nil node leaves the map unchanged. |
| `Codes.GenerateKeys` | main.go:73-78 | The walk adds exactly one entry per leaf rune and leaves every other entry unchanged. |
| `Codes.GeneratePaths` | main.go:73-78 | The entry of each leaf rune is the prefix followed by the path from the node to a leaf holding that rune. |
| `Codes.GenerateBinary` | main.go:77-78 | Given a `'0'`/`'1'` prefix and map, every entry written is a `'0'`/`'1'` string. |
| `Codes.CodesAreLeafPaths` | main.go:134-135 | The codes of a tree (empty start prefix, empty map) have one entry per leaf rune and no other. Each code, walked from the root, leads to the leaf of its own rune. So its length is that leaf's depth. |
| `Codes.CodesNonEmpty` | main.go:73-75 | If the tree has at least two leaves, every code is non-empty. A lone leaf gets the empty code. |
| `Codes.CodesArePrefixFree` | main.go:73-78 | No rune's code is a prefix of another rune's code. |
| `Coding.Encode` | main.go:82-88 | The result is the codes of the text's runes, concatenated in order; a rune missing from the table contributes `""`. Its length is the sum of those code lengths. |
| `Coding.EncodingAppend` | main.go:84-86 | Encoding a concatenation of two texts is concatenating their encodings. |
| `Coding.Decode` | main.go:91-106 | The result is the decoding described by `Decoding`. It fails (the nil-child panic) exactly when the root is a leaf and the input is non-empty. |
| `Coding.DecodingSucceedsOnNodeRoot` | main.go:94-104 | With an internal root, decoding never fails, whatever the input characters are. |
| `Coding.DecodeOneCode` | main.go:95-103 | Reading a path that leads from the cursor to a leaf emits that leaf's rune, then continues from the root. |
| `Coding.DecodeIncompleteCode` | main.go:94-105 | A trailing path that stops at an internal node emits nothing and is dropped. |
| `Coding.DecodeEncoding` | main.go:82-106 | Take any table in which each rune of the text has a code leading to that rune's leaf. Then decoding the text's encoding, followed by any incomplete code, gives back exactly the text. |
| `Coding.RoundTrip` | main.go:130-143 | For a tree with at least two leaves and its generated codes, `Decode(Encode(text))` is `text` for every text over the tree's runes. |
| `Coding.TrailingCodeDropped` | main.go:94-105 | The round trip still gives `text` when a trailing incomplete code (a path that stops at an internal node) is appended to the encoding: the trailing code is silently dropped. |
| `Coding.SingleLeafQuirk` | main.go:73-75 | With a single-leaf tree, every text over its rune encodes to `""`, which decodes to `""`. |
| `Pipeline.EncodingBinary` | main.go:82-88 | With `'0'`/`'1'` codes, the encoded text is a `'0'`/`'1'` string. |
| `Pipeline.PipelineOutcome` | main.go:133-143 | Take a tree with exactly one leaf per distinct rune of the text, and the codes generated from it. The encoding is a `'0'`/`'1'` string. With one distinct rune it is `""` and decodes to `""`. With two or more distinct runes it decodes back to the text. |
| `Pipeline.Run` | main.go:130-143 | An empty text panics (`None`). A text with one distinct rune gives `""` for both the encoded and the decoded string. A text with two or more distinct runes decodes back to itself. The encoded string is always `'0'`/`'1'`. |

## Left out

- Reading `input.txt`, writing `encoded.txt` and `decoded.txt`, `log.Fatalf` and the final message (`ReadFile`, `WriteToFile`, the I/O in `main`): these are I/O. `Pipeline.Run` takes the text as a parameter and returns the two strings that would be written.
- The sift-up and sift-down of `container/heap` are not in the source. `HeapPush` appends, and `HeapPop` scans the slice with `Less` for a least node, swaps it to the end and calls `Pop`. The contracts state only what the build loop relies on: which nodes are in the queue, and that a popped node has the least frequency. The heap-order invariant of the slice is not modelled.
- UTF-8 decoding of the text into runes (including invalid bytes becoming U+FFFD) and `string(rune)`: the text is taken to be a sequence of runes already.
- The Go `int` frequencies are unbounded integers in the model. The 64-bit wrap-around would need more than 2^63 runes.
- Go map iteration order and heap tie-breaking are nondeterministic choices. No determinism is claimed.
- Huffman optimality (minimal weighted path length) is not proved. The source does not state it.
- A nil `root` passed to `Decode`: the source never creates one, because `BuildHuffmanTree` panics instead of returning nil. In the model the root is always a tree.
- A node with exactly one nil child cannot be represented. The source never builds one.
