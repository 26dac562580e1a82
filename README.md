# Huffman codec in Dafny

A model of `Huffman.java`, a file compressor built on Huffman coding, with
proofs about the model.

**Compression** (`compress`):
1. Count how often each input byte occurs (`freqMap`).
2. Queue one leaf per distinct byte (`minHeap`).
3. Merge the two lightest nodes until one tree remains (`root`).
4. Give each leaf the bit path that leads to it (`huffmanCodes`).
5. Write the container:
   - a 4-byte count of entries;
   - one 18-byte entry per distinct byte: the byte as a `char`, then its code in a 128-bit field behind a sentinel 1 bit;
   - the code bits of the input packed into bytes, with the last byte zero-padded;
   - one byte giving the number of padding bits.

**Decompression** (`decompress`):
1. Read the entries back and grow a decoding tree from them.
2. Drop the padding bits.
3. Walk the tree once per bit, writing a byte at every leaf.

Files become byte strings. The input file is a parameter and the output file is the result.

Modules, one file each:
- `Base` (`base.dfy`): bytes, bit strings, the error datatype and sequence facts.
- `Binary` (`binary.dfy`): `binToDec`, `decToBin`, bit packing, big-endian `int` and `char`.
- `HuffmanTree` (`tree.dfy`): the encoder's tree, the merge step and the codes of `traverse`.
- `Codebook` (`codebook.dfy`): the 128-bit code field and the scan that reads it.
- `DecodeTree` (`decodetree.dfy`): the decoder's tree, `buildTree` insertion and the decode walk.
- `Container` (`container.dfy`): the container format as functions on whole byte strings, and the round-trip proofs.
- `Huffman` (`huffman.dfy`): class `Huffman`. Its fields are the ones the Java object updates. Its methods carry the source's loops, each with its invariants.

Where Java throws, the model returns an `Err`:
- a null `root` (`EmptyTree`);
- a negative `repeat` count (`CodeTooLong`);
- end of file (`EndOfFile`);
- a code field with no 1 bit (`NoSentinel`);
- a pad count longer than the bits (`PaddingTooLarge`);
- a walk onto a null child (`MissingChild`).

Main results:
- **Lossless round trip.** Decompressing what `compress` wrote gives back the input when:
  - the object was fresh;
  - the input has at least two distinct bytes;
  - every code fits in 127 bits.
- **One distinct byte.** If the input has exactly one distinct byte, its code is empty. The decoder drops all 8 padding bits and writes nothing. This behaviour of the source is proved as stated, not corrected.
- **Empty input.** An empty input ends in the null-`root` error.

## Model

| member | source | states |
|---|---|---|
| Binary.ToBinary | Huffman.java:111 | `Integer.toBinaryString(n)` has at least one digit and, for n at least 1, a leading 1; `ToBinaryValue` and `ToBinaryLength` give its value and length |
| Binary.BinToDec | Huffman.java:106-108 | `Integer.parseInt(s, 2)` of 8 bits is a byte, at least 128 exactly when the first bit is 1 and odd exactly when the last bit is 1; `DecToBin` and `BinToDecRoundTrip` make it the inverse of `decToBin` |
| Binary.DecToBin | Huffman.java:110-113 | `decToBin(n)` is 8 bits long and `binToDec` maps it back to `n` |
| Binary.BinToDecRoundTrip | Huffman.java:106-113 | every 8-bit string is the `decToBin` of its `binToDec`, so the two are inverse on bytes |
| Binary.ToBinaryValue | Huffman.java:111 | the digits of `Integer.toBinaryString(n)` have the value `n` |
| Binary.ToBinaryLength | Huffman.java:111-112 | a number below 2^k has at most k binary digits, so the padding count `8 - bin.length()` is never negative for a byte |
| Binary.BitsOfBytes | Huffman.java:188-191 | expanding bytes with `decToBin(d & 0xFF)` gives 8 bits per byte; `BytesOfBitsOfBytes` and `BitsOfBytesOfBits` make it the inverse of `BytesOfBits` |
| Binary.BytesOfBits | Huffman.java:126-128 | cutting a bit string into 8-bit slices and writing `binToDec` of each gives one byte per 8 bits |
| Binary.BitsOfBytesOfBits | Huffman.java:126-128 | expanding the bytes that 8-bit slicing packed gives back the bit string |
| Binary.BytesOfBitsOfBytes | Huffman.java:188-191 | packing the expanded bits of a byte string gives back the bytes |
| Binary.BitsOfBytesConcat | Huffman.java:189-191 | expanding a concatenation of byte strings expands each part |
| Binary.BytesOfBitsAppend | Huffman.java:136-139 | packing a concatenation of whole-byte bit strings packs each part |
| Binary.Int32BE | Huffman.java:120 | `writeInt` writes 4 bytes, the first below 128 for any count below 2^31 |
| Binary.ReadInt32 | Huffman.java:168 | `readInt` gives a 32-bit two's-complement value, non-negative exactly when the first byte is below 128 |
| Binary.Char16BE | Huffman.java:124 | `writeChar` writes 2 bytes whose big-endian value is the char |
| Binary.ReadChar16 | Huffman.java:171 | `readChar` gives the char whose high and low bytes are the two bytes read |
| Binary.Int32RoundTrip | Huffman.java:168 | `readInt` of the four bytes `writeInt` wrote for a non-negative count gives the count back |
| Binary.Char16RoundTrip | Huffman.java:171 | `readChar` of the two bytes `writeChar` wrote gives the char back |
| Binary.SignedByte | Huffman.java:186 | `readByte` yields a value in -128..127 congruent to the byte modulo 256 |
| Codebook.SkipZeros | Huffman.java:176-178 | the scan fails (`NoSentinel`) exactly when the field has no 1 bit; otherwise it returns the bits after the first 1 |
| Codebook.SkipZerosSentinel | Huffman.java:176-178 | after any number of zeros and a 1, the scan returns exactly the bits that follow |
| Codebook.CodeField | Huffman.java:125 | the field exists exactly when the code has at most 127 bits; then it is 128 bits long and the scan recovers the code |
| Codebook.FieldBytes | Huffman.java:126-129 | a code field is written as exactly 16 bytes |
| Codebook.FieldRoundTrip | Huffman.java:172-178 | expanding the 16 field bytes and skipping past the first 1 gives back the code |
| Codebook.ZeroFieldRejected | Huffman.java:175-177 | a field of 16 zero bytes is rejected with `NoSentinel` |
| HuffmanTree.SymsPermutation | Huffman.java:121-123 | two queues holding the same leaves hold the same bytes, counted with multiplicity |
| HuffmanTree.MinIndex | Huffman.java:67-68 | `poll` returns a node of least frequency |
| HuffmanTree.Merge | Huffman.java:67-75 | one round of the loop: the two polled nodes are replaced by their parent, so the queue shrinks by exactly one; `MergeKeepsSum`, `MergeKeepsLeaves` and `MergeKeepsShape` state what the round keeps |
| HuffmanTree.MergeKeepsSum | Huffman.java:66-76 | replacing the two polled nodes by their parent keeps the total frequency of the queue |
| HuffmanTree.MergeKeepsLeaves | Huffman.java:66-76 | replacing the two polled nodes by their parent keeps the multiset of leaves under the queue |
| HuffmanTree.MergeKeepsShape | Huffman.java:67-73 | when the two least nodes are merged, every node of the queue keeps its frequency the sum of its children's and its left child no heavier than its right |
| HuffmanTree.Codes | Huffman.java:92-104 | the codebook of a tree has a key for exactly the bytes at its leaves |
| HuffmanTree.CodesArePaths | Huffman.java:92-104 | every code extends the starting prefix by the path of 0 = left and 1 = right to a leaf holding its byte, and is longer than the prefix below a node |
| HuffmanTree.CodesComplete | Huffman.java:92-104 | in a tree with distinct leaf bytes, the path to each leaf is that byte's code |
| HuffmanTree.CodesPrefixFree | Huffman.java:92-104 | in a tree with distinct leaf bytes, no code is a prefix of another |
| HuffmanTree.CodesNonEmpty | Huffman.java:93-103 | when the root is an internal node, every code has at least one bit |
| HuffmanTree.CodesDepth | Huffman.java:92-104 | a code is at most one bit shorter than the number of leaves past its prefix, so a tree of at most 128 leaves has codes of at most 127 bits |
| DecodeTree.Child | Huffman.java:198 | `curr.left` for bit 0 and `curr.right` for bit 1; a null node has no non-null child |
| DecodeTree.Follow | Huffman.java:151-159 | the node a path leads to from a node, following `Child` bit by bit; only a non-null node leads to a non-null node |
| DecodeTree.Insert | Huffman.java:149-161 | inserting a code into a node yields a node |
| DecodeTree.InsertFollow | Huffman.java:149-161 | after an insertion, a path leads to a node exactly when it did before or is a prefix of the code; the code's node holds the char, earlier nodes keep their data, and new nodes hold `'\0'` |
| DecodeTree.RepresentsNewNode | Huffman.java:169 | a fresh root represents the empty codebook |
| DecodeTree.RepresentsInsert | Huffman.java:149-161 | inserting one more entry of a prefix-free codebook keeps the tree an exact representation of the entries read so far |
| DecodeTree.InsertAllRepresents | Huffman.java:170-180 | inserting all entries of a prefix-free codebook, in any order, gives a tree that represents them all |
| DecodeTree.InsertAll | Huffman.java:170-180 | `buildTree` for each entry in turn leaves a non-null root; `InsertAllRepresents` and `RepresentsUnique` state which tree it is |
| DecodeTree.RepresentsUnique | Huffman.java:170-180 | two trees representing the same entries in different orders are equal, so insertion order does not matter |
| DecodeTree.CodeEndsAtLeaf | Huffman.java:196-203 | in a tree built from a prefix-free codebook, each code leads to a leaf that holds its byte |
| DecodeTree.Walk | Huffman.java:196-203 | the decode walk fails only by reaching a null child (`MissingChild`) and writes at most one byte per bit; `WalkPath`, `WalkCode` and `WalkAll` state what it writes |
| DecodeTree.WalkPath | Huffman.java:196-203 | walking a path that ends at a leaf writes its byte and restarts at the root |
| DecodeTree.WalkCode | Huffman.java:196-203 | walking a byte's code and then more bits writes that byte, then whatever the rest writes |
| Container.EncodeBits | Huffman.java:134-135 | the input's codes concatenated, at least one bit per byte when no code is empty; `EncodeBitsSnoc` states that each input byte appends its code |
| Container.EncodeBitsSnoc | Huffman.java:134-135 | appending a byte to the input appends its code to the bit string |
| Container.PadCount | Huffman.java:141-142 | the pad count is at most 8, makes the bit count a multiple of 8, and is 8 exactly when no bit was emitted |
| Container.Payload | Huffman.java:132-143 | the payload bytes expand to the code bits followed by the pad count of zero bits |
| Container.FlushedPayload | Huffman.java:136-144 | the flushed bytes and the at most 8 pending bits determine the pad count and the final padded byte |
| Container.Header | Huffman.java:120-130 | writing the entries fails only with `CodeTooLong`; otherwise it takes 18 bytes per entry |
| Container.HeaderOk | Huffman.java:125 | the entries can be written exactly when every code in them has at most 127 bits |
| Container.HeaderSnoc | Huffman.java:122-130 | writing one more entry appends its char and its 16 field bytes |
| Container.Encode | Huffman.java:115-147 | the container exists exactly when every code in the codebook order fits, and fails only with `CodeTooLong` |
| Container.ParseHeader | Huffman.java:168-180 | reading `count` entries ends 18 bytes per entry further with a node, or fails with `EndOfFile` or `NoSentinel` |
| Container.Decode | Huffman.java:163-203 | `saveDecodedFile`: a container shorter than the 4-byte count fails with `EndOfFile`; the only errors are `EndOfFile`, `NoSentinel`, `PaddingTooLarge` and `MissingChild`; the output has at most 8 bytes per payload byte; `DecodeEncode` and `RoundTrip` state what it gives on an encoded container |
| Container.DecodePayload | Huffman.java:182-203 | the payload stage of `saveDecodedFile`: with no byte left for the pad count it fails with `EndOfFile`; otherwise it fails only with `PaddingTooLarge` or `MissingChild`, and writes at most 8 bytes per payload byte; `DecodePayloadOf` states what it gives on the encoder's payload |
| Container.ParseEntry | Huffman.java:171-179 | reading an entry the encoder wrote inserts exactly its byte and code, then goes on 18 bytes later |
| Container.ParseHeaderOfHeader | Huffman.java:168-180 | reading back the entries the encoder wrote inserts them all in order and ends right after them |
| Container.WalkAll | Huffman.java:196-203 | walking the concatenated codes of an input through a tree built from a prefix-free codebook with non-empty codes writes exactly that input |
| Container.DecodePayloadOf | Huffman.java:182-194 | the payload and pad count the encoder wrote give back exactly the code bits |
| Container.DecodeEncode | Huffman.java:115-203 | decoding a container rebuilds the tree from its entries and walks exactly the input's code bits |
| Container.CodebookRoundTrip | Huffman.java:115-203 | for a prefix-free codebook of distinct entries with codes of 1 to 127 bits, decoding the container gives back the input |
| Container.RoundTrip | Huffman.java:88-203 | for the codes of a tree with at least two distinct leaves, all at most 127 bits, decoding the container gives back the input |
| Container.EncodeBitsEmptyCodes | Huffman.java:93-95 | an input whose codes are all empty encodes to no bits |
| Container.SingleSymbolLosesData | Huffman.java:141-203 | with one distinct byte its code is empty, and the container decodes to nothing |
| Huffman.CountOf | Huffman.java:41 | `getOrDefault(ch, 0)`: the count stored for a byte in the map, and 0 for a byte not in it |
| Huffman.AddLeafStep | Huffman.java:46-48 | adding the leaf of one more counted byte keeps the heap exactly one leaf per byte added so far |
| Huffman.HeapTotal | Huffman.java:39-48 | when the counts are exact, the frequencies of the heap's leaves add up to the input length |
| Huffman.EmptyHeap | Huffman.java:36-49 | the heap of exact counts is empty exactly when the input is empty |
| Huffman.MergeAll | Huffman.java:63-79 | the loop leaves no tree exactly when the heap is empty; otherwise it leaves one tree that keeps the heap's total frequency and leaves, whose parents weigh the sum of their children |
| Huffman.WriteField | Huffman.java:125-129 | the 16-iteration loop writes the 16 bytes of the code field |
| Huffman.PollStep | Huffman.java:122-129 | polling a least remaining leaf and writing its entry keeps the loop state: polled and queued leaves together are the heap, the polled ones are in frequency order and no heavier than the queued ones, and the bytes written are the entries of the polled bytes |
| Huffman.PollOrder | Huffman.java:122-123 | a leaf polled after others is no lighter than them, and no heavier than those that remain |
| Huffman.WriteHeader | Huffman.java:120-130 | the entries are written exactly when every heap code fits; they then follow a frequency-sorted order of the very leaves in the heap |
| Huffman.Flush | Huffman.java:136-139 | flushing keeps the flushed bytes plus the pending bits unchanged and leaves at most 8 bits pending |
| Huffman.WritePayload | Huffman.java:132-144 | the packing loop writes the padded payload of the input's codes, then the pad count |
| Huffman.BitString | Huffman.java:188-191 | the expansion loop yields the bits of the payload bytes |
| Huffman.ReadCode | Huffman.java:172-178 | reading a 16-byte field yields the scan of its bits |
| Huffman.ReadPayload | Huffman.java:182-194 | reading the payload, dropping a positive pad count and walking gives the decoding of the rest of the container |
| Huffman.DecodeWalk | Huffman.java:196-203 | the walking loop writes what the decode walk defines |
| Huffman.HeapCodes | Huffman.java:122-125 | every heap byte has a code, and the heap's codes all fit exactly when the whole codebook fits |
| Huffman.FewBytesFit | Huffman.java:120-130 | with at most 128 distinct input bytes, every code of the tree built from the counts has at most 127 bits, so the header can be written |
| Huffman.CompressRoundTrip | Huffman.java:208-217 | once the heap and tree are built from exact counts, the root is an internal node and every code fits in 127 bits, the input has two distinct bytes and decoding the container gives it back |
| Huffman.CompressSingle | Huffman.java:208-217 | once the heap and tree are built from exact counts and the root is a leaf, every input byte is that leaf's, and decoding the container gives nothing |
| Huffman.CompressOutcome | Huffman.java:208-217 | from exact counts: the input is non-empty and the codebook prefix-free; writing succeeds exactly when every code fits; the container decodes to the input when it has two distinct bytes, and to nothing when it has one |
| Huffman.Huffman.constructor | Huffman.java:20-34 | a new object has an empty frequency map, heap and codebook, and no roots |
| Huffman.Huffman.CountBytes | Huffman.java:39-42 | each byte's count grows by its number of occurrences in the input, and the keys grow by exactly the input's bytes |
| Huffman.Huffman.AddLeaves | Huffman.java:46-48 | the loop appends to the heap one leaf per key of the frequency map, carrying that key's count, and keeps what was there |
| Huffman.Huffman.CreateMinHeap | Huffman.java:36-49 | the counts and keys of `CountBytes`, and one new leaf per key |
| Huffman.Huffman.CreateTree | Huffman.java:63-79 | `root` is null exactly when the heap is empty; otherwise it keeps the heap's total frequency and leaves |
| Huffman.Huffman.Traverse | Huffman.java:92-104 | the recursion adds exactly the codebook of the subtree under the given prefix to `huffmanCodes` |
| Huffman.Huffman.CreateCodes | Huffman.java:88-90 | with a root, it adds the root's codebook; with a null root it fails and changes nothing |
| Huffman.Huffman.AssignCodes | Huffman.java:210-211 | `createTree` then `createCodes`: fails exactly when the heap is empty and then leaves `huffmanCodes` unchanged; otherwise the root holds the heap's leaves and weight, parents weigh the sum of their children with the lighter on the left, the root's codebook is added to `huffmanCodes`, and every input byte and heap byte has a code |
| Huffman.Huffman.BuildCodes | Huffman.java:209-211 | `createMinHeap`, `createTree`, `createCodes`: every input byte and heap byte gets a code; on a new object it fails exactly when the input is empty, `freqMap` holds the exact counts, the heap one leaf per counted byte, and the root is built over those leaves with `huffmanCodes` its codebook |
| Huffman.Huffman.SaveEncodedFile | Huffman.java:115-147 | the output exists exactly when every heap code fits in 127 bits; it is then the container of the input for a frequency-sorted order of the heap's leaves |
| Huffman.Huffman.ReadHeader | Huffman.java:168-180 | the header loop grows the decoding root and ends where reading the entries ends, or fails as that reading does |
| Huffman.Huffman.SaveDecodedFile | Huffman.java:163-206 | the output is the decoding of the container, and the decoding root is the tree its entries build |
| Huffman.Huffman.Compress | Huffman.java:208-213 | on a new object: `freqMap` holds exactly the input's bytes with their counts and the heap one leaf per byte; it fails with `EmptyTree` exactly when the input is empty; the root holds the heap's leaves, weighs the input length, has parents weighing the sum of their children, and its prefix-free codebook is `huffmanCodes`; writing succeeds exactly when every code fits, in particular with at most 128 distinct bytes; the output decodes to the input with two distinct bytes and to nothing with one |
| Huffman.Huffman.Decompress | Huffman.java:215-217 | the output is the decoding of the container, and the decoding root is the tree its entries build |

## Left out

- Files and streams: reading the input is a `seq<Byte>` parameter, and the written file is the returned byte string. Stream opening and closing, the second read of the input in `saveEncodedFile`, and the `available()` loop have no counterpart.
- Output already written when an exception is raised is not modelled: an error returns only the error.
- `PriorityQueue` and `HashMap` order: the heap is a sequence. `poll` takes any node of least frequency, and the map's entries go in any order. Every property holds for all such choices.
- `buildTree` changes nodes in place. It is modelled as functional insertion into a tree value (`DecodeTree.Insert`), with the same creation of missing children and the same overwrite of `data`. Aliasing between nodes does not arise.
- `Node.code` is not stored on the leaves: `traverse` writes the code into `huffmanCodes`, and the encoder reads each entry's code from there (`huffmanCodes[node.sym]`). The two agree when the heap's leaf bytes are distinct, which holds on a new object. On a reused object the heap holds two leaves for the same byte; the Java header then writes each leaf's own `node.code`, which can differ from what `SaveEncodedFile` describes.
- A byte missing from `huffmanCodes` would make `result.append` write `"null"`. Every input byte has a code (`AssignCodes`), so this case is not modelled.
- Java `int` overflow is not modelled: counts and frequencies are unbounded. `writeInt` keeps the low 32 bits of the entry count (at most 256).
- The optimality of Huffman codes is not stated or proved.
- Huffman.Huffman.Compress: the correctness results are stated only for a fresh object (`old(Initial())`). On a reused object the Java code adds to the old frequencies and heap, and the model only keeps `Valid()`.
- The decoder's `root` field is the separate field `decodeRoot`, because its nodes have a different type from the encoder's.
- `Encode.java` and `Decode.java` are command-line drivers: argument checks, `System.exit` and printing file sizes. They are not part of this model.
