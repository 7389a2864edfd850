# Static Huffman compressor — a Dafny model

This project models the Huffman engine of a small C++ file compressor (`main.cpp`). The engine has five stages:

- **Counting.** It counts how often each byte occurs.
- **Tree building.** It builds a Huffman tree by repeatedly merging the two lightest trees taken from a min-priority queue.
- **Code assignment.** It gives every leaf its root-to-leaf path as a code: `0` for left, `1` for right.
- **Encoding and packing.** It concatenates the codes of the input bytes and packs the bit string into bytes, least significant bit first. The last byte is padded with zeros.
- **Decoding.** It inverts the code table, unpacks the bytes least significant bit first, and grows a candidate code bit by bit. On each match it emits a byte, and it stops after `origLength` bytes.

Module by module:

| module | file | what it holds |
|---|---|---|
| `Alphabet` | alphabet.dfy | bytes (0..255), bits, bit strings, `Result` |
| `Frequency` | frequency.dfy | the frequency table, its sum, and the counting loop |
| `HuffmanTree` | tree.dfy | the tree datatype; the queue as a sequence of trees, with extract-min; the two loops of `buildHuffmanTree` |
| `Codes` | codes.dfy | `buildHuffmanCodes` as written, the corrected code table, and path and prefix-freeness lemmas |
| `Packing` | packing.dfy | the encoding loop, the packing loop, and unpacking a byte |
| `Decoding` | decoding.dfy | the table inversion, the decoder as a step function, the decoding loop, and the as-written and corrected decoders |
| `Compressor` | compressor.dfy | the as-written and corrected encoders, end-to-end round trips, and the four defects of the source |

**Imperative parts.** These are kept as methods with loops, each proved against a specification function:
- `CountFrequencies`
- `EnqueueLeaves` and `BuildTree`
- `EncodeBits`, `PackBits` and its inner loop `PackByte`
- `InvertTable`, `DecodeStream` and its `reverse` loop `ReverseBitset`

**Pure parts.** `buildHuffmanCodes` is structural recursion, so it is a function, as is the decoder's one-bit step.

**Two variants.** Four behaviours of the source defeat a round trip: byte 0, a lone distinct byte, the empty input, and a truncated stream. The intended behaviour is that every input round-trips and a truncated stream is reported. The model therefore keeps two variants:
- **As written.** The code exactly as it is: `CodesAsWritten`, the `Truthy` lookup, `HuffmanEncode` and `HuffmanDecode`.
- **Corrected.** `AssignCodes`, the `Explicit` lookup, `Compress`, `Decompress` and `DecodeResult`.

`Compressor.LegacyRoundTrip` proves the as-written pipeline correct when the input has at least two distinct bytes and no byte 0. `Compressor.RoundTrip` proves the corrected pipeline correct for every input.

**Representation notes.**
- Bytes are integers 0..255.
- Packing is stated arithmetically: bit `k` of `x` is `BitAt(x, k)`, and a group of bits packs to `ByteOf`.
- OR-ing a bit into a still-clear position is modelled as adding its weight. `ByteOf`'s bound shows the position is clear.
- The global code table and the `size` out-parameter of the source are passed explicitly.

## Model

| member | source | states |
|---|---|---|
| Frequency.FreqOf | main.cpp:76-79 | every byte in the table occurred at least once and at most as often as the input is long |
| Frequency.CountFrequencies | main.cpp:76-79 | the table has an entry for exactly the bytes that occur, each entry is that byte's number of occurrences, and the counts sum to the input length |
| Frequency.FreqOfSnoc | main.cpp:78-79 | counting one more byte `c` is the same as incrementing its entry, a missing entry counting as 0 |
| Frequency.FreqOfTotal | main.cpp:76-81 | the counts of a frequency table sum to the length of the input it was counted from |
| HuffmanTree.PopMin | main.cpp:21-25 | extract-min under the comparator: returns an index satisfying `IsMinIndex`, i.e. a tree of least weight among all trees in the queue, and the queue without exactly that tree |
| HuffmanTree.EnqueueLeaves | main.cpp:31-32 | the queue holds one leaf per table entry: its leaves are exactly the table's (byte, count) pairs and its weight is the sum of the counts |
| HuffmanTree.MergeKeeps | main.cpp:35-46 | one merge round shrinks the queue by exactly one, keeps the multiset of leaves and the total weight, and keeps every internal weight the sum of its children |
| HuffmanTree.MergeStep | main.cpp:35-46 | one merge round keeps the loop invariant (well-weighted trees, the table's leaves, the table's total weight) and shrinks the queue by one |
| HuffmanTree.BuildTree | main.cpp:27-52 | for a non-empty table, the single remaining tree has internal weights equal to the sum of their children, leaves that are exactly the table's entries with their counts, and root weight equal to the sum of the counts |
| HuffmanTree.PairsSize | main.cpp:31-32 | a table calls for as many leaves as it has entries |
| HuffmanTree.BuiltFromSymbols | main.cpp:27-52 | the leaves of the built tree hold exactly the bytes of the table |
| HuffmanTree.TwoSymbolsMakeNode | main.cpp:35-51 | with two different bytes in the table the root is an internal node |
| HuffmanTree.OneSymbolMakesLeaf | main.cpp:35-51 | with a single byte in the table nothing is merged and the root is that byte's leaf |
| HuffmanTree.RootWeighsInput | main.cpp:42-46 | the root of the tree built from an input's counts weighs the input's length |
| Codes.CodesAsWritten | main.cpp:54-66 | the as-written walk gives a code to exactly the bytes of the leaves, byte 0 excepted |
| Codes.PathCodes | main.cpp:54-66 | the walk without the byte-0 test gives a code to exactly the bytes of the leaves |
| Codes.PathCodesShape | main.cpp:54-66 | the walk gives a code to exactly the leaf bytes; each code is the prefix followed by the 0/1 path to that byte's leaf, so its extra length is the leaf's depth; below an internal node every code is longer than the prefix |
| Codes.PathCodesPrefixFree | main.cpp:54-66 | no code of the walk is a prefix of another byte's code |
| Codes.AsWrittenDropsZero | main.cpp:59-62 | the as-written table is the path table with byte 0 removed |
| Codes.AsWrittenAgrees | main.cpp:54-66 | for a tree with an internal root and no leaf for byte 0 the as-written table equals the corrected table |
| Codes.AssignCodes | main.cpp:54-66 | the corrected table has a code for exactly the leaf bytes, and a root that is a leaf gets the one-bit code `0` instead of the empty code |
| Codes.AssignCodesValid | main.cpp:54-66 | the corrected table has a code for exactly the leaf bytes, every code is non-empty, no code is a prefix of another, and below an internal root each code leads to its byte's leaf |
| Packing.Encoded | main.cpp:91-93 | when every input byte has a non-empty code, the encoding has at least one bit per input byte |
| Packing.EncodeBits | main.cpp:91-93 | the loop's result is the concatenation of the input bytes' codes in input order, a byte without a code contributing nothing |
| Packing.EncodedAppend | main.cpp:91-93 | the encoding of a concatenation is the concatenation of the encodings |
| Packing.EncodedCons | main.cpp:91-93 | the code of the first input byte comes first in the encoding |
| Packing.EncodedLength | main.cpp:91-93 | the encoded length is the sum over distinct bytes of count times code length |
| Packing.EncodedWithoutCodes | main.cpp:92-93 | an input whose bytes all have empty or missing codes encodes to nothing |
| Packing.ByteOf | main.cpp:105-108 | a group of `n` bits packs to a number below 2^n |
| Packing.ByteOfSnoc | main.cpp:105-108 | setting bit `b` above the bits already set adds `bit * 2^b`, i.e. the OR equals the sum |
| Packing.BitAtByteOf | main.cpp:105-108 | bit `k` of a packed group is the group's bit `k`, and 0 at and above the group's length |
| Packing.PackBits | main.cpp:102-111 | the loop emits the groups of eight bits in order, each packed least significant bit first, the last group possibly short |
| Packing.PackByte | main.cpp:103-109 | the inner loop OR-s the (at most eight) bits of a group into one byte, bit `b` of the group at bit `b`, giving the group's packed value |
| Packing.Pack | main.cpp:102-111 | `n` bits pack into ceil(n/8) bytes |
| Packing.PackBitPosition | main.cpp:102-111 | bit `i` of the stream lands at bit `i % 8` of byte `i / 8`, and the unused high bits of the last byte are 0 |
| Packing.Unpack | main.cpp:150-158 | each packed byte unpacks to exactly eight bits |
| Packing.UnpackByte | main.cpp:151-158 | a byte read back to front from its bitset string gives eight bits that pack to that same byte |
| Packing.ByteOfBits | main.cpp:151-158 | packing the low `n` bits of a number, least significant first, gives the number modulo 2^n |
| Packing.UnpackGroup | main.cpp:151-158 | unpacking a packed group gives the group followed by zero padding up to eight bits |
| Packing.UnpackIndex | main.cpp:151-158 | bit `i` of the unpacked stream is bit `i % 8` of byte `i / 8` |
| Packing.UnpackPack | main.cpp:102-111 | unpacking the packed bits gives the bits followed by the zero padding of the last byte |
| Decoding.Decoder.Step | main.cpp:160-170 | one bit emits at most one byte and keeps the output so far; it emits only when the candidate plus the bit is recognised by the lookup (`Recognises`: the truthiness test as written, membership when corrected), the byte emitted is the inverse table's entry for it, and the candidate is cleared; once `origLength` bytes are out nothing changes |
| Decoding.Decoder.Run | main.cpp:160-172 | feeding a bit string keeps the output so far and appends at most one byte per bit |
| Decoding.RunAppend | main.cpp:150-173 | feeding two bit strings in turn is feeding their concatenation |
| Decoding.RunAfterDone | main.cpp:166-170 | once `origLength` bytes are out, no further bit changes the decoder |
| Decoding.RunEmits | main.cpp:160-165 | the decoder only appends, at most one byte per bit, and only values of the inverse table; through the truthiness test, never byte 0 |
| Decoding.RunCount | main.cpp:164-170 | for a positive `origLength` the decoder stops exactly when `origLength` bytes are out and never emits more |
| Decoding.InvertTable | main.cpp:145-148 | the inverted table maps each code back to a byte that has that code, and every code of the table is in it |
| Decoding.InverseRecovers | main.cpp:145-148 | for a prefix-free table, inverting and looking up a byte's code gives back that byte |
| Decoding.ProperPrefixIgnored | main.cpp:160-162 | with a prefix-free table no proper prefix of a code is recognised |
| Decoding.WholeCodeRecognised | main.cpp:162-165 | a complete code is recognised and emits its own byte |
| Decoding.DecodeCodeTail | main.cpp:160-165 | feeding the remaining bits of a byte's code emits exactly that byte and clears the candidate |
| Decoding.DecodeEncoded | main.cpp:160-170 | decoding the encoding of an input emits that input, stopping when `origLength` is reached |
| Decoding.DecodeRoundTrip | main.cpp:150-173 | for a prefix-free table of non-empty codes covering the input, decoding the packed encoding with `origLength` equal to the input length gives back the input |
| Decoding.ReverseBitset | main.cpp:151-158 | the `reverse` loop turns a byte's most-significant-first bitset string into its eight bits least significant first, which pack back to that byte |
| Decoding.DecodeStream | main.cpp:150-173 | the byte-by-byte loop, reading each byte's `BitsetString` back to front and returning early, emits exactly what the one-bit decoder emits on the unpacked stream |
| Decoding.HuffmanDecode | main.cpp:137-173 | the as-written decoder inverts the table and decodes through the truthiness test |
| Decoding.DecodeResult | main.cpp:166-173 | a successful corrected decode has exactly `origLength` bytes |
| Decoding.DecodeResultLength | main.cpp:166-173 | a successful corrected decode has exactly `origLength` bytes; a stream with fewer than `origLength` bits is reported as truncated |
| Decoding.TruncatedStreamIsShort | main.cpp:150-173 | on a stream with fewer than `origLength` bits, the as-written decoder returns fewer than `origLength` bytes |
| Decoding.Decompress | main.cpp:137-173 | the corrected decoder inverts the table, decodes by membership, and returns the decoded bytes or a truncation error |
| Compressor.HuffmanEncode | main.cpp:76-111 | for a non-empty input, the output is the packing of the encoding under the as-written codes of a tree built from the input's counts, in ceil(bits/8) bytes, and `size` is the input length |
| Compressor.Compress | main.cpp:76-111 | the corrected encoder gives every byte of the input, and no other, a non-empty prefix-free code, and outputs the packed encoding with the input length |
| Compressor.CorrectedRoundTrip | main.cpp:137-173 | the corrected decoder returns every input unchanged from its packed encoding under any prefix-free table of non-empty codes covering it |
| Compressor.RoundTrip | main.cpp:76-173 | compressing then decompressing any input, including the empty input and a lone repeated byte, gives it back |
| Compressor.LegacyRoundTrip | main.cpp:76-173 | the as-written pipeline round-trips any input with at least two distinct bytes and no byte 0 |
| Compressor.LegacyNullByteLost | main.cpp:59-62 | byte 0 never comes out of the as-written pipeline, so an input containing byte 0 does not come back |
| Compressor.LegacyLoneSymbolLost | main.cpp:59-60 | for an input of one repeated byte the as-written table gives that byte the empty code (no code at all for byte 0), so the input is encoded to no bits and no bytes, and decoding the packed result with either lookup gives nothing |
| Compressor.LegacyEmptyQueue | main.cpp:27-51 | for the empty input the queue built from its counts is empty, so the `top()` at main.cpp:51 reads an empty queue |
| Compressor.TruncationReported | main.cpp:150-173 | on a stream too short for `origLength`, the as-written decoder returns a short result without signal, while the corrected one returns the truncation error |

## Left out

- File input and output and their error messages (main.cpp:69-75, 95-100, 124-135). The input is a byte sequence and the output a returned sequence.
- The compression statistics (main.cpp:113-117). They use `seekg`/`tellg` and a floating-point division.
- `main`, with its prompts and file-name handling (main.cpp:181-213). It is console glue.
- The `new` allocations and the leaked nodes. The tree is an algebraic datatype.
- The internals of `std::priority_queue` and `std::unordered_map`. The queue is a sequence with an extract-min that may return any tree of least weight. The maps are Dafny maps; the order in which an unordered map yields its entries is left open (any order).
- HuffmanTree.PopMin: the exact tie-break among equal weights is left open, so no property depends on which code a byte gets.
- Frequency.CountFrequencies: counts are unbounded naturals. The source's `unsigned` counts wrap at 2^32, which only matters past 4 GiB of input.
- HuffmanTree.BuildTree: internal weights are unbounded naturals. The source adds `unsigned` weights, which wrap at 2^32. Optimality of the tree is not stated, because the source does not promise it.
- HuffmanTree.BuildTree: the empty table is excluded by its precondition. The source calls `top()` on an empty queue, which is undefined behaviour (see the fourth finding). `Compressor.Compress` handles empty input before any tree is built.
- Decoding.HuffmanDecode: the insertion of a missed candidate into `uMap` with value 0 is not modelled. Its value reads as a miss, so it changes no later lookup.
- Decoding.HuffmanDecode: the output file is opened in text mode, and the emitted bytes are written as characters. On the platforms the program targets this writes the same bytes.
- Decoding.InvertTable: duplicate codes are not rejected, because the source does not reject them. For a prefix-free table they cannot occur, as `Decoding.InverseRecovers` shows.
- Packing.EncodeBits: a byte without a code contributes nothing rather than aborting the encoding, as `operator[]` does in the source.

## Findings

| source | as written | input that shows it | evidently intended | confidence | as-written member | corrected member |
|---|---|---|---|---|---|---|
| main.cpp:59-62 | a node counts as a leaf only when its byte is non-zero, so the leaf of byte 0 gets no code. Separately, the decoder's truthiness test at main.cpp:162 never matches a code that maps to byte 0 | the input of bytes 0, 65, 65: byte 0 is encoded as nothing and never decoded | every byte value, 0 included, gets a code and decodes | high (not executed) | Compressor.LegacyNullByteLost | Compressor.CorrectedRoundTrip |
| main.cpp:59-60 | when the input has a single distinct byte the root is a leaf and gets the empty code | the input 65, 65, 65: zero bits and zero bytes are written, and decoding yields nothing | the lone byte gets a one-bit code | high (not executed) | Compressor.LegacyLoneSymbolLost | Codes.AssignCodesValid |
| main.cpp:150-173 | when the stream ends before `origLength` bytes are decoded, the loop ends and the short output stands with no error | no packed bytes with `origLength` 3: the output is empty and no failure is signalled | a stream too short for `origLength` is reported as a failure | medium (not executed) | Decoding.TruncatedStreamIsShort | Decoding.DecodeResultLength |
| main.cpp:51 | `buildHuffmanTree` returns `minHeap.top()` without checking that the queue is non-empty, and main.cpp:59 then dereferences the result | the empty input file: no leaf is pushed, the merge loop does not run, and `top()` is called on an empty queue | the empty input compresses to nothing and decompresses back to the empty output | high (not executed) | Compressor.LegacyEmptyQueue | Compressor.RoundTrip |
