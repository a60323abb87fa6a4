# Huffman coding engine (huffman.cpp)

A Dafny model of the static Huffman compressor in `huffman.cpp`. It covers five parts:

- **Counting.** Counting the bytes of the input (`freqMap[ch]++`).
- **Tree building.** `buildHuffmanTree` runs a min-priority queue that keeps merging the two lightest nodes.
- **Code generation.** `generateHuffmanCodes` walks the tree recursively and writes '0' for a left step and '1' for a right step.
- **Encoding and packing.** The codes are concatenated in input order. The bit string is cut into 8-character chunks and turned into bytes with `std::bitset<8>(string)`.
- **Decoding.** A walk over the tree reads the bits of each payload byte in `std::bitset` index order 0..7.

`compressFile` and `decompressFile` are modelled without their file streams. The frequency map is passed straight from compression to decompression (see "Left out").

Modules, one per file:

- `Types` (`types.dfy`): bytes as integers 0..255, bit strings as `seq<bool>` with `false` for '0', `Option`, and `Result` with the two kinds of undefined behaviour the source reaches.
- `HuffmanTree` (`tree.dfy`): `HuffmanNode` as a datatype `Leaf(symbol, freq) | Merged(freq, left, right)`. A merged node's `data` is '\0' and a leaf's children are null. It also defines paths through the tree.
- `Frequency` (`frequency.dfy`): the counting loop as a method. It is proved to produce the occurrence count of every byte, and the counts sum to the input length.
- `Bags` (`bags.dfy`): sums and unions over multisets. These follow what the priority queue holds, whatever order it keeps it in.
- `TreeBuilder` (`builder.dfy`): the queue and the merge loop of `buildHuffmanTree`, as a method proved against a functional specification. The shape of the resulting tree is proved separately.
- `CodeGen` (`codegen.dfy`): `generateHuffmanCodes` as written, with its `data != '\0'` leaf test. Beside it is the structural path code it is meant to compute, with prefix-freeness proved.
- `Encoder` (`encoder.dfy`): the encoding loop and the packing loop as methods, with the bit layout of the packed bytes proved.
- `Decoder` (`decoder.dfy`): the decoding loop as a method, proved against a step function of the tree walk.
- `Pipeline` (`pipeline.dfy`): compression and decompression as written. It includes lemmas showing where the round trip that `main` exercises breaks.
- `Corrected` (`corrected.dfy`): the same pipeline with those defects repaired, and a proof that decompression inverts compression for every input.

**Tie-breaking in the queue.** `std::priority_queue` does not fix which of two equally frequent nodes comes out first, so the model fixes a rule of its own:

- The node with the lowest frequency comes out first.
- Among equal frequencies, the node inserted earliest comes out first.
- Leaves are inserted in ascending unsigned byte order, which is the iteration order of the frequency map.
- Each merged node is appended after every node already in the queue.

This rule is a modelling choice; the source does not guarantee it.

## Model

| member | source | states |
|---|---|---|
| `Frequency.CountFrequencies` | huffman.cpp:63-67 | the counting loop gives every byte that occurs exactly its number of occurrences and gives no other byte an entry; the counts sum to the input length |
| `Frequency.HistogramTotal` | huffman.cpp:63-67 | the occurrence counts of an input sum to its length |
| `Frequency.TotalStep` | huffman.cpp:66 | counting one more occurrence of a byte raises the sum of the counts by one |
| `HuffmanTree.MergedCountIsLeavesMinusOne` | huffman.cpp:29-41 | a tree with n leaves has n - 1 merged nodes |
| `HuffmanTree.LeafPathIsMaximal` | huffman.cpp:10-13 | a leaf has null children, so a path that reaches a leaf is not a proper prefix of any path that stays in the tree |
| `TreeBuilder.QueueFromFacts` | huffman.cpp:25-27 | the leaves pushed for keys from b upwards are exactly the map entries with those keys, one per entry |
| `TreeBuilder.InitialQueueFacts` | huffman.cpp:25-27 | after the pushes the queue holds one leaf per map entry, carrying that entry's symbol and count, and nothing else |
| `TreeBuilder.QueueFromAscending` | huffman.cpp:25-27 | the leaves are pushed in strictly ascending key order, which the tie-break among equal frequencies relies on |
| `TreeBuilder.MinFrom` | huffman.cpp:16-20 | `pq.top()` is a node of least frequency (CompareNodes compares `freq` only); the model picks the earliest such node |
| `TreeBuilder.PopMinParts` | huffman.cpp:30-34 | a pop hands out a node no heavier than any node in the queue; what it hands out plus what remains is the old queue |
| `TreeBuilder.MergeStepTakesTwoSmallest` | huffman.cpp:29-41 | an iteration takes out a lightest node as `left` and a lightest remaining node as `right` (so left.freq <= right.freq), keeps every other node, and pushes one merged node whose freq is the sum of theirs |
| `TreeBuilder.MergeStepKeepsFreq` | huffman.cpp:36-40 | an iteration keeps the total frequency of the queue |
| `TreeBuilder.MergeStepKeepsLeaves` | huffman.cpp:36-40 | an iteration keeps the leaves held in the queue |
| `TreeBuilder.MergeAllFreq` | huffman.cpp:29-43 | the node left at the end carries the sum of the frequencies in the queue |
| `TreeBuilder.MergeAllLeaves` | huffman.cpp:29-43 | the leaves of the node left at the end are exactly the leaves held in the queue |
| `TreeBuilder.MergeAllWellFormed` | huffman.cpp:29-43 | merging well-formed nodes gives a tree in which every merged node's freq is its children's sum |
| `TreeBuilder.QueueFromFreqSum` | huffman.cpp:25-27 | the frequencies of the pushed leaves sum to the map's total |
| `TreeBuilder.QueueFromLeafBag` | huffman.cpp:25-27 | each pushed node is a leaf |
| `TreeBuilder.HuffmanTreeLeaves` | huffman.cpp:22-44 | the leaves of the built tree are, as a multiset, the leaves first pushed, one per map entry |
| `TreeBuilder.HuffmanTreeWellFormed` | huffman.cpp:36 | every merged node of the built tree carries `left->freq + right->freq` |
| `TreeBuilder.HuffmanTreeFreq` | huffman.cpp:22-44 | the root's freq is the sum of all the map's counts |
| `TreeBuilder.HuffmanTreeLeafEntries` | huffman.cpp:22-44 | a node is a leaf of the built tree exactly when it is a leaf for some map entry, with that entry's count |
| `TreeBuilder.HuffmanTreeMergedCount` | huffman.cpp:29-41 | a map with n entries gives n - 1 merged nodes, one per iteration |
| `TreeBuilder.HuffmanTreeSymbols` | huffman.cpp:22-44 | the symbols of the built tree are exactly the map's keys |
| `TreeBuilder.QueueFromSkip` | huffman.cpp:25-27 | keys that are absent from the map push nothing |
| `TreeBuilder.LoneEntryTree` | huffman.cpp:29-43 | a map with a single entry gives a root that is that entry's leaf, because the loop never runs |
| `TreeBuilder.BuildTree` | huffman.cpp:22-44 | for a non-empty map, the loop returns the specified tree. Its merged nodes sum their children, its root carries the total, and its leaves are the map's entries, each once, under n - 1 merged nodes |
| `CodeGen.PathCodeReachesLeaf` | huffman.cpp:46-57 | each symbol's code extends the seed code, and the bits added lead from the node to the symbol's leaf ('0' left, '1' right) |
| `CodeGen.PathCodesDomain` | huffman.cpp:46-57 | with leaves recognised by their null children, exactly the tree's symbols receive a code |
| `CodeGen.RootCodeReachesLeaf` | huffman.cpp:46-57 | from the empty seed, a symbol's code is the path from the root to its leaf |
| `CodeGen.PathCodesPrefixFree` | huffman.cpp:46-57 | no symbol's code is a prefix of another symbol's code |
| `CodeGen.MergedRootCodesNonEmpty` | huffman.cpp:55-56 | below a merged root every code has at least one bit |
| `CodeGen.CodesSkipZero` | huffman.cpp:50-53 | the map built with the `data != '\0'` test is the path-code map with byte 0 removed |
| `CodeGen.CodesAsWritten` | huffman.cpp:46-57 | the source's code map covers the tree's symbols except byte 0; each code leads to its leaf, and the codes are prefix-free |
| `Encoder.EncodeBits` | huffman.cpp:81-84 | the loop appends `huffmanCodes[ch]` for each byte in input order; a byte with no code adds the empty string |
| `Encoder.EncodedAppend` | huffman.cpp:81-84 | the encoding of a concatenation is the encoding of its first part followed by that of its second |
| `Encoder.EncodedLength` | huffman.cpp:81-84 | the encoded length is the sum over bytes of count times code length |
| `Encoder.CostFromBump` | huffman.cpp:83 | one more occurrence of a byte adds its code length to the weighted length |
| `Encoder.CostBump` | huffman.cpp:83 | one more occurrence of a byte adds exactly its code length to the weighted code length |
| `Encoder.ChunkValueBits` | huffman.cpp:90 | `std::bitset<8>(chunk)` makes character j bit `len - 1 - j`, so the first character is the most significant; the bits above the chunk's length are 0 |
| `Encoder.PackedAt` | huffman.cpp:89-92 | byte k of the output is chunk `substr(8k, 8)` read as a binary number |
| `Encoder.PackedDrop` | huffman.cpp:89-92 | the bytes written from chunk k on are the packing of the bits from position 8k on |
| `Encoder.PackedLength` | huffman.cpp:89-92 | L bits pack into ceil(L / 8) bytes |
| `Encoder.PackedLayout` | huffman.cpp:89-92 | character 8k + j of a full chunk is bit 7 - j of byte k; a short final chunk of r characters is right-aligned, with character j at bit r - 1 - j |
| `Encoder.PackedHighBitsClear` | huffman.cpp:90 | a short final chunk leaves the bits above it 0 |
| `Encoder.PackBits` | huffman.cpp:87-92 | the padding value is L mod 8, and the loop writes exactly the packed bytes |
| `Decoder.RunConcat` | huffman.cpp:118-131 | walking over a + b is walking over a, then over b from where a left off, stopping at a fault |
| `Decoder.DescendAlong` | huffman.cpp:125-129 | along a path that stays in the tree the cursor only descends ('0' left, '1' right) and emits nothing |
| `Decoder.EmitAndDescend` | huffman.cpp:121-129 | from a leaf, the next bit first emits the leaf's symbol and restarts at the root, then descends |
| `Decoder.RunOverCodes` | huffman.cpp:116-131 | over the concatenated codes of non-empty input under a merged root, the walk emits every symbol but the last and stops with the cursor on the last symbol's leaf |
| `Decoder.DecodeBytes` | huffman.cpp:116-131 | the nested loop produces exactly the walk over each byte's bits 0..7, byte by byte, and reports the null dereference as a fault |
| `Pipeline.CompressData` | huffman.cpp:59-92 | the steps of compression give the specified result: map, padding value and packed bytes |
| `Pipeline.DecompressData` | huffman.cpp:98-131 | the steps of decompression give the specified result |
| `Pipeline.CompressFailsOnlyOnEmpty` | huffman.cpp:63-69 | compression reaches `pq.top()` on an empty queue exactly when the input is empty |
| `Pipeline.ZeroByteEncodesToNothing` | huffman.cpp:81-84 | a byte 0 anywhere in the input adds no bits: inserting it at any position leaves the encoding unchanged |
| `Pipeline.SingleSymbolDecodesEmpty` | huffman.cpp:71 | an input made of one repeated byte compresses to no payload bytes and decompresses to nothing |
| `Pipeline.RepeatsHistogram` | huffman.cpp:65-66 | the counts of one repeated byte are a single entry holding the input length |
| `Pipeline.EncodedEmptyCodes` | huffman.cpp:82-84 | bytes whose codes are all empty encode to no bits |
| `Pipeline.TwoSymbolTree` | huffman.cpp:22-44 | the counts of [1, 2] build a merged root with byte 1 on the left and byte 2 on the right |
| `Pipeline.TwoLeafMerge` | huffman.cpp:29-41 | two nodes, the lighter inserted first, merge with the lighter on the left |
| `Pipeline.TwoSymbolBits` | huffman.cpp:81-84 | [1, 2] encodes to the bits 01 |
| `Pipeline.TwoSymbolPacked` | huffman.cpp:89-92 | the bits 01 pack into the byte 1 |
| `Pipeline.UnpackOne` | huffman.cpp:119-125 | the byte 1 is read as the bits 10000000 |
| `Pipeline.LeftLeafRepeats` | huffman.cpp:121-129 | with the cursor on the root's left leaf, each 0 bit emits that leaf's symbol and returns to it |
| `Pipeline.TwoSymbolHead` | huffman.cpp:121-129 | the bits 10 reach byte 2's leaf, emit it and reach byte 1's leaf |
| `Pipeline.TwoSymbolWalk` | huffman.cpp:116-131 | the walk over 10000000 emits [2, 1, 1, 1, 1, 1, 1] |
| `Pipeline.TwoSymbolsGarbled` | huffman.cpp:59-131 | [1, 2] compresses to padding 2 and the byte 1, which decompresses to [2, 1, 1, 1, 1, 1, 1] |
| `Pipeline.UnpackReversesChunk` | huffman.cpp:119-125 | a full chunk that is packed and then unpacked comes back reversed |
| `Corrected.MsbBitsOfChunk` | huffman.cpp:90 | a chunk's byte, read most significant bit first over the chunk's width, gives back the chunk |
| `Corrected.FixedUnpackShort` | huffman.cpp:89-92 | a string of 1 to 8 bits comes back from its single byte |
| `Corrected.FixedUnpackStep` | huffman.cpp:89-92 | a full first chunk unpacks ahead of the remaining bits, keeping the padding value |
| `Corrected.FixedUnpackPacked` | huffman.cpp:87-92 | reading each byte in the order the packer wrote it, and only `padding` bits of the last byte, gives back the encoded bits |
| `Corrected.EncodedUnitCodes` | huffman.cpp:81-84 | with one-bit codes the encoding has one bit per byte |
| `Corrected.InputSymbols` | huffman.cpp:65-69 | every input byte is a symbol of the tree built from the input's counts |
| `Corrected.LoneLeafDecode` | huffman.cpp:71 | under a lone-leaf root with the one-bit code 0, decoding gives back the input |
| `Corrected.MergedRootDecode` | huffman.cpp:121-124 | under a merged root, emitting the leaf the walk ends on gives back the whole input |
| `Corrected.RoundTrip` | huffman.cpp:162-166 | decompressing the compressed input gives back the input, for every input including the empty one |
| `Corrected.FixedCodesPrefixFree` | huffman.cpp:46-57 | the repaired code map covers every symbol of the tree, byte 0 included; the codes are non-empty and prefix-free |

## Left out

- File streams, the `seekg`/`clear` re-read and the hard-coded file names in `main` are not modelled. They are I/O (huffman.cpp:59-61, 79-80, 94-95, 99-100, 150-153, 157-169).
- The header is not modelled. The writer prints each key followed by its count in decimal text (huffman.cpp:74-76) and the padding as eight '0'/'1' characters (huffman.cpp:88). The reader reads raw single characters instead (huffman.cpp:102-108, 112-114). The two sides are not inverse and the text formatting is library behaviour, so the model passes the frequency map directly from compression to decompression.
- The reader loop at huffman.cpp:104-108 reads character-and-count pairs until the end of the file. It therefore also consumes the padding text and the payload, so in the program as written the decoding loop at huffman.cpp:118-131 never sees any payload. Every decompression result in this model is the result of the decoding loop run on the payload the compressor produced, with the map handed over directly.
- The trailing-padding pass is not modelled (huffman.cpp:133-147). It is keyed on the output length and can step through null children. `Pipeline.Decompress` therefore ends after the main loop and does not read the padding value.
- Heap allocation and the nodes that are never freed are not modelled (huffman.cpp:26, 36). The tree is a value.
- Counts are unbounded naturals. The 32-bit wrap-around of `unsigned` is not modelled, because it needs an input of 2^32 bytes.
- Symbols are unsigned byte values, and `std::map` is iterated in ascending unsigned order. With a signed `char`, bytes 0x80-0xFF come first. That changes only which of two equally frequent nodes is popped first, which the source leaves unspecified anyway.
- `TreeBuilder.BuildTree` requires a non-empty map, because `pq.top()` on an empty queue is undefined behaviour (huffman.cpp:43). The pipeline reports that case as `Err(TopOfEmptyQueue)`.
- A null `currentNode` being dereferenced is reported as `Err(NullDereference)`. In the source this is undefined behaviour.

## Findings

| source | as written | input that shows it | evidently intended | confidence | as-written member | corrected member |
|---|---|---|---|---|---|---|
| huffman.cpp:50-53 | a node counts as a leaf only when `data != '\0'`, so the leaf for byte 0 gets no code and encodes to nothing | any input containing byte 0, e.g. [0, 1], whose bits are just those of byte 1 | every leaf, byte 0 included, gets its root-to-leaf path | high; not executed | `CodeGen.CodesSkipZero` | `Corrected.FixedCodesPrefixFree` |
| huffman.cpp:50-51 | a root that is itself a leaf gets the empty seed code `""` (huffman.cpp:71), so nothing is encoded | in the model, [65, 65, 65] compresses to no payload bytes and decompresses to [] | give the lone leaf a one-bit code | high; not executed | `Pipeline.SingleSymbolDecodesEmpty` | `Corrected.LoneLeafDecode` |
| huffman.cpp:119-125 | the packer writes a chunk's first character to bit 7, but the unpacker reads `byte[0]`, the least significant bit, first; the padding bits of the last byte are read as data | in the model, [1, 2] compresses to the byte 1 and the main decoding loop turns it into [2, 1, 1, 1, 1, 1, 1]; the trailing pass (huffman.cpp:133-147), which the model leaves out, could emit more | read each byte most significant bit first, and only the padding's count of bits from the last byte | high; not executed | `Pipeline.UnpackReversesChunk` | `Corrected.FixedUnpackPacked` |
| huffman.cpp:121-124 | the leaf test runs before a bit is consumed, so reaching the last symbol's leaf emits nothing until one more bit is read | [1, 2] under the codes 1 → 0 and 2 → 1: walking the bits 01 emits only [1] | emit the leaf the walk ends on | high; not executed | `Decoder.RunOverCodes` | `Corrected.MergedRootDecode` |
