# skithy Huffman compressor: a Dafny model

This project models the compressing half of skithy, a single-file Huffman
compressor written in Rust. It covers the `HuffmanNode` tree of
`src/huffman/mod.rs` and the body of `compress_file` in
`src/compression/mod.rs`. The pipeline runs in this order:

1. count every byte of the buffer (`create_frequency_table`);
2. order the `(byte, count)` pairs by count with a stable sort
   (`frequency_table_to_ordered_tuple_vec`);
3. turn each pair into a leaf (`create_huffman_node_vec`);
4. repeatedly take the first two nodes off the list and append their parent
   (`create_huffman_tree`);
5. hand out codes from the root (`assign_binary`);
6. look up each byte's code (`find_encoding`) and concatenate the codes;
7. write the one-byte header (`create_byte_vec_from` of the pre-order node
   list);
8. pack the bits least significant bit first, flushing a last partial byte.

Modules:

- `Wrappers` holds `Option` and `Ordering`.
- `HuffmanNode` holds the node datatype and the operations on one tree:
  `new`, `from`, `calc_freq`, `assign_binary`, `find_encoding`, `Ord::cmp`,
  the pre-order `From<HuffmanNode> for Vec<HuffmanNode>` and
  `create_byte_vec_from`.
- `HuffmanBuild` holds the `from_buffer` pipeline, steps 1 to 5.
- `Compression` holds `compress_file` as a method that returns the bytes the
  source writes. Its loops are `while`/`for` loops proved against the
  specification function `CompressedImage`.
- `Examples` works `AAABBC`, a repeated byte, `AB` in both key orders and
  a case from the ordering unit test through the model.

The frequency table is a `HashMap` created with `HashMap::new()`, whose
hasher is seeded at random in every process, so the order in which it yields
its entries can change from one run of the program to the next. That order is
a parameter, `iteration`, listing every key of the table exactly once. Given
that order, Rust's `sort_by` is stable, so the ordered vector and everything
after it are functions of the buffer and `iteration`. Where two bytes have the
same count the order decides which one is merged first, and with it the codes
and the file: `AB` compresses to `[9, 4]` when `A` is yielded first and to
`[9, 2]` when `B` is. The compressor is therefore not deterministic on inputs
with tied counts.

The model follows the code, including where it differs from a textbook
Huffman coder:

- `assign_binary` pushes `false` and then `true` onto one shared prefix. A
  right child therefore gets prefix + `01` when a left child exists. The
  codes are not prefix-free: in `AAABBC`, `C = 010` is a prefix of
  `B = 0101`. A textbook coder appends `0` on the left and `1` on the right,
  which gives prefix-free codes.
- The build does not break count ties by byte value. It keeps the table's
  iteration order, because `sort_by` compares counts only, so tied counts
  give output that depends on that order (see above).
- A single distinct byte is not wrapped. The lone leaf keeps an empty code,
  so the payload is empty and the file is the single byte `3`.
- `create_byte_vec_from` computes the three-byte node records and then
  returns only the length byte, `3 * nodes mod 256`. The records are never
  written. With 44 or more distinct bytes (87 or more nodes) the count wraps
  silently; 43 distinct bytes give 85 nodes and the byte 255. Nothing in the
  file describes the tree's shape or codes.
- There is no decoder. `decompress_file` reads the file and computes an
  unused shift of each byte; it has no decoding logic.

## Model

| member | source | states |
|---|---|---|
| HuffmanNode.New | src/huffman/mod.rs:16-29 | the node carries the given value, frequency and children and an empty code |
| HuffmanNode.CalcFreq | src/huffman/mod.rs:91-94 | the frequency grows by each present child's frequency; every other field is kept |
| HuffmanNode.From | src/huffman/mod.rs:31-47 | an internal node built from children weighs the sum of their frequencies, with an empty code |
| HuffmanNode.AssignBinary | src/huffman/mod.rs:76-89 | value, frequency and child presence are kept; a valued node's code is extended by the prefix and a valueless node's code is untouched |
| HuffmanNode.AssignBinaryAt | src/huffman/mod.rs:76-89 | the node at any path keeps its value and frequency; a valued node's code becomes its old code + prefix + the bits appended along the path (left `0`; right `01` under a left sibling, else `1`) |
| HuffmanNode.FullTreePathCode | src/huffman/mod.rs:80-87 | in a tree whose internal nodes have two children, the bits along a path are `0` per left step and `01` per right step |
| HuffmanNode.AssignBinaryValues | src/huffman/mod.rs:76-89 | code assignment keeps the set of symbols in the tree |
| HuffmanNode.AssignBinarySize | src/huffman/mod.rs:76-89 | code assignment keeps the number of nodes |
| HuffmanNode.Flatten | src/huffman/mod.rs:174-200 | the pre-order list has one entry per node and starts with the root itself |
| HuffmanNode.FindEncodingIsFirstInPreOrder | src/huffman/mod.rs:58-75 | the lookup returns the code of the first node carrying the byte in pre-order |
| HuffmanNode.FindEncodingSomeIff | src/huffman/mod.rs:58-75 | the lookup finds a code if and only if the byte is a symbol of the tree |
| HuffmanNode.Cmp | src/huffman/mod.rs:227-236 | two valued nodes compare by frequency, then by byte value, and are equal only with the same frequency and value; otherwise only frequencies are compared |
| HuffmanNode.CmpAntisymmetric | src/huffman/mod.rs:227-236 | swapping the operands reverses the ordering |
| HuffmanNode.CmpNotTransitiveAcrossKinds | src/huffman/mod.rs:229-234 | leaf 5, a node without a symbol and leaf 3, all of weight 1: the first equals the second, the second equals the third, yet the first is greater than the third |
| HuffmanNode.Record | src/huffman/mod.rs:241-246 | a node's record is `0xFF, value, code length` for a leaf and `0x00, 0, code length` otherwise, the length truncated to a byte |
| HuffmanNode.TreeInfo | src/huffman/mod.rs:241-246 | the records of a node list take three bytes per node |
| HuffmanNode.CreateByteVecFrom | src/huffman/mod.rs:239-251 | the header is one byte: three times the node count, modulo 256 |
| HuffmanBuild.FrequencyTableOf | src/huffman/mod.rs:95-108 | the table's keys are exactly the bytes of the buffer, each mapped to its positive number of occurrences |
| HuffmanBuild.FrequencyTableSnoc | src/huffman/mod.rs:97-106 | counting one more byte increments its entry or creates it with count 1, leaving the others alone |
| HuffmanBuild.CreateFrequencyTable | src/huffman/mod.rs:95-108 | the loop over the buffer returns exactly the frequency table of the buffer |
| HuffmanBuild.FrequencyCountsSumToLength | src/huffman/mod.rs:95-108 | the counts of all the table's entries add up to the buffer's length |
| HuffmanBuild.SortByCountPermutes | src/huffman/mod.rs:111 | sorting keeps the multiset of entries |
| HuffmanBuild.SortByCountSorted | src/huffman/mod.rs:111 | the sorted vector is non-decreasing by count |
| HuffmanBuild.SortByCountDistinct | src/huffman/mod.rs:111 | sorting keeps the keys repetition-free |
| HuffmanBuild.OrderedVec | src/huffman/mod.rs:109-113 | the ordered vector holds every table entry exactly once, with its table count, sorted by count |
| HuffmanBuild.CreateHuffmanNodeVec | src/huffman/mod.rs:114-120 | one childless leaf per pair, in order, carrying the pair's byte and count and an empty code |
| HuffmanBuild.Merge | src/huffman/mod.rs:130-140 | one merge step drops the first two nodes, keeps the rest in order and appends their valueless parent weighing their sum; the total frequency is kept |
| HuffmanBuild.BuildTree | src/huffman/mod.rs:121-143 | an empty list yields a valueless node of weight 0, one node yields itself, and the root weighs the sum of the list |
| HuffmanBuild.CreateHuffmanTree | src/huffman/mod.rs:121-143 | the loop that removes the first two nodes and pushes their parent returns the tree of the recursive definition |
| HuffmanBuild.MergeKeepsLeaves | src/huffman/mod.rs:130-140 | a merge step keeps the multiset of leaves under the list |
| HuffmanBuild.MergeKeepsValues | src/huffman/mod.rs:130-140 | a merge step keeps the set of symbols under the list |
| HuffmanBuild.BuildTreeLeaves | src/huffman/mod.rs:415-466 | the built tree's leaves are exactly the leaves under the input list, with multiplicity, and so are its symbols |
| HuffmanBuild.BuildTreeFull | src/huffman/mod.rs:121-143 | merging full, uncoded trees yields a full, uncoded tree |
| HuffmanBuild.BuildTreeSize | src/huffman/mod.rs:121-143 | each merge adds one node: the tree has as many nodes as the list's trees together, plus the list's length, minus one |
| HuffmanBuild.FromBuffer | src/huffman/mod.rs:49-56 | `from_buffer` returns the coded tree of the buffer for the given iteration order |
| HuffmanBuild.HuffmanTreeFrequency | src/huffman/mod.rs:418-426 | the root's frequency is the buffer's length |
| HuffmanBuild.HuffmanTreeLeaves | src/huffman/mod.rs:428-466 | for a non-empty buffer, the built tree's leaves are exactly the leaves made from the ordered vector |
| HuffmanBuild.HuffmanTreeValues | src/huffman/mod.rs:49-56 | the tree's symbols are exactly the bytes of the buffer |
| HuffmanBuild.HuffmanTreeEncodes | src/compression/mod.rs:16-19 | every byte of the buffer has a code, so the `unwrap` in the encode loop cannot fail, and no other byte has one |
| HuffmanBuild.HuffmanTreeCodes | src/huffman/mod.rs:49-56 | the leaf at a path keeps its byte and count and gets the code `0` per left step and `01` per right step |
| HuffmanBuild.HuffmanTreeSize | src/huffman/mod.rs:121-143 | with d distinct bytes, d > 0, the tree has 2d - 1 nodes |
| HuffmanBuild.HuffmanTreeOfOneSymbol | src/huffman/mod.rs:121-128 | an empty buffer gives a valueless node of weight 0; a buffer of one repeated byte gives a single leaf with an empty code |
| Compression.EncodeAllAppend | src/compression/mod.rs:17-21 | the code stream of a concatenation is the concatenation of the code streams |
| Compression.EncodeContents | src/compression/mod.rs:17-21 | the encode loop returns each byte's code concatenated in input order |
| Compression.ByteOfBits | src/compression/mod.rs:36-56 | bit k of a packed byte is set exactly when the k-th bit of its chunk is `true` |
| Compression.PackLength | src/compression/mod.rs:36-61 | n bits pack into ceil(n / 8) bytes |
| Compression.PackLayout | src/compression/mod.rs:36-61 | bit k of the stream lands in bit k mod 8 of byte k div 8; padding bits are 0 |
| Compression.PackAppend | src/compression/mod.rs:51-55 | packing splits at any byte boundary |
| Compression.PackRoundTrip | src/compression/mod.rs:36-61 | reading the packed bytes back bit by bit, least significant first, gives the stream followed by zero padding |
| Compression.SetNextBit | src/compression/mod.rs:37-49 | setting bit `bit_index` of the pending byte when the next bit is 1 gives the byte of the chunk grown by that bit |
| Compression.PackBit | src/compression/mod.rs:37-56 | one iteration keeps the loop state: every whole byte of the bits seen so far is written, and the pending byte holds the remaining `bit_index` bits |
| Compression.PackFullBytes | src/compression/mod.rs:32-56 | after the loop, `bit_index` is below 8, the written bytes are the packed stream up to the last byte boundary, and `byte` holds the bits after it |
| Compression.WritePacked | src/compression/mod.rs:32-61 | the packing loop with its final flush appends exactly the packed stream to the output |
| Compression.CompressFile | src/compression/mod.rs:16-61 | the bytes written are the header followed by the packed code stream |
| Compression.EncodeAllOfEmptyCodes | src/compression/mod.rs:17-21 | when every code is empty the stream is empty |
| Compression.CompressedImageLayout | src/compression/mod.rs:25-61 | the file has 1 + ceil(bits / 8) bytes; byte 0 is three times the node count, modulo 256, and the rest is the packed stream |
| Compression.HeaderByte | src/huffman/mod.rs:248 | with d > 0 distinct bytes the header is 3(2d - 1) modulo 256, which wraps from 44 distinct bytes on (43 give 255) |
| Compression.CompressTrivialInputs | src/compression/mod.rs:16-61 | an empty buffer, or one byte repeated, compresses to the single byte 3 |
| Examples.TableAaabbc | src/huffman/mod.rs:95-108 | the table of `AAABBC` is A: 3, B: 2, C: 1 |
| Examples.OrderedAaabbc | src/huffman/mod.rs:109-113 | with the keys yielded as A, B, C, the ordered vector is C: 1, B: 2, A: 3 |
| Examples.BuildAaabbc | src/huffman/mod.rs:121-143 | C and B merge under a node of weight 3; the root has A on the left; codes A = 0, C = 010, B = 0101 |
| Examples.StreamAaabbc | src/compression/mod.rs:17-21 | `AAABBC` encodes to the 14 bits 000 0101 0101 010 |
| Examples.PackAaabbc | src/compression/mod.rs:36-61 | those 14 bits pack into `0x50, 0x15` |
| Examples.AaabbcExample | src/compression/mod.rs:16-61 | `AAABBC` compresses to `15, 0x50, 0x15` |
| Examples.CodesNotPrefixFree | src/huffman/mod.rs:80-87 | in the tree of `AAABBC`, C's code is a proper prefix of B's |
| Examples.RepeatedByteExample | src/compression/mod.rs:16-61 | ten bytes `0x41` compress to the single byte 3 with no payload |
| Examples.TiedCountsDependOnOrder | src/huffman/mod.rs:95-113 | the two orders in which the table of `AB` can yield its keys give two different files: `[9, 4]` with `A` first and `[9, 2]` with `B` first |
| Examples.OrderedPair | src/huffman/mod.rs:109-113 | two entries of equal count keep the order in which the table yields them |
| Examples.OrderedVecExample | src/huffman/mod.rs:333 | `{6: 1, 2: 3, 4: 2}` orders as `(6, 1), (4, 2), (2, 3)` in every iteration order |

## Left out

- `src/main.rs` (command-line parsing) is not part of this model.
- The decompression module is not part of this model. It is a stub with no decoding logic, so there is no decoder to round-trip against.
- File I/O is left out: resolving the path, reading the file, creating the `.skithy` file and the read-error message. `CompressFile` takes the buffer and returns the bytes written.
- The panics on a failed `create` or `write_all` are left out, along with I/O.
- The iteration order of `HashMap` is a parameter. Its randomly seeded hasher can yield a different order in each run, and the model does not say which order a given run uses.
- `sort_by` is modelled by its result, a stable sort by count written as an insertion sort. The standard library's sorting algorithm itself is not modelled.
- The `&mut self` updates (`calc_freq`, `assign_binary`) and the owned vector in `create_huffman_tree` are modelled on values. The tree is an immutable datatype returned updated, because its nodes are uniquely owned boxes with no aliasing.
- `usize` overflow of frequencies and counts is not modelled: counts are unbounded `nat`. The `as u8` truncations of the header and record lengths are modelled.
- The `PartialOrd` convenience methods (`partial_cmp`, `lt`, `le`, `gt`, `ge`) are left out. They only wrap `Cmp`.
- The `sort()` of nodes in the ordering unit test is left out. It is not used by the pipeline.
- The `Serialize`/`Deserialize` derives and `HuffmanToVecError` are left out. They are unused by the compressor.
- HuffmanBuild.HuffmanTreeLeaves: states the leaves for non-empty buffers only. For an empty buffer the tree is the single valueless node of `HuffmanTreeOfOneSymbol`.
- The redundant second lookup on the right subtree in `find_encoding` (line 70) is left out. It has no effect.
