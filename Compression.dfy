/**
  The body of `compress_file` (src/compression/mod.rs): build the tree from
  the buffer, concatenate every byte's code, write the tree-size header and
  pack the bits least-significant-bit first, flushing a final partial byte.
  The file the source writes is the returned sequence of bytes.
*/
module Compression {
  import opened Wrappers
  import opened HuffmanNode
  import opened HuffmanBuild

  // ---------------------------------------------------------------------------
  // The encoded bit stream
  // ---------------------------------------------------------------------------

  /** Every byte of `contents` has a code in `tree` (what the `unwrap` relies on). */
  predicate Encodable(tree: Node, contents: seq<u8>)
  {
    forall i :: 0 <= i < |contents| ==> FindEncoding(tree, contents[i]).Some?
  }

  /** The concatenation of every byte's code, in input order. */
  function EncodeAll(tree: Node, contents: seq<u8>): seq<bool>
    requires Encodable(tree, contents)
  {
    if contents == [] then []
    else EncodeAll(tree, contents[..|contents| - 1]) + FindEncoding(tree, contents[|contents| - 1]).value
  }

  /** Encoding is a homomorphism: the stream of a concatenation is the concatenation of the streams. */
  lemma {:induction false} EncodeAllAppend(tree: Node, xs: seq<u8>, ys: seq<u8>)
    requires Encodable(tree, xs + ys)
    ensures Encodable(tree, xs) && Encodable(tree, ys)
    ensures EncodeAll(tree, xs + ys) == EncodeAll(tree, xs) + EncodeAll(tree, ys)
    decreases |ys|
  {
    assert forall i :: 0 <= i < |xs| ==> xs[i] == (xs + ys)[i];
    assert forall i :: 0 <= i < |ys| ==> ys[i] == (xs + ys)[|xs| + i];
    if ys == [] {
      assert xs + ys == xs;
    } else {
      var ys' := ys[..|ys| - 1];
      assert (xs + ys)[..|xs + ys| - 1] == xs + ys';
      assert forall i :: 0 <= i < |xs + ys'| ==> (xs + ys')[i] == (xs + ys)[i];
      EncodeAllAppend(tree, xs, ys');
    }
  }

  /** The stream of a single byte is its code. */
  lemma EncodeAllSingle(tree: Node, b: u8)
    requires FindEncoding(tree, b).Some?
    ensures Encodable(tree, [b]) && EncodeAll(tree, [b]) == FindEncoding(tree, b).value
  {
    assert [b][..0] == [];
  }

  // ---------------------------------------------------------------------------
  // Bit packing, least-significant bit first
  // ---------------------------------------------------------------------------

  /** Bit `k` of a byte, counting from the least significant. */
  function TestBit(b: bv8, k: nat): bool
    requires k < 8
  {
    (b >> k) & 1 == 1
  }

  /** The byte holding up to eight bits, the first in bit 0; bits not given are 0. */
  function ByteOf(chunk: seq<bool>): bv8
    requires |chunk| <= 8
  {
    if chunk == [] then 0
    else ByteOf(chunk[..|chunk| - 1]) | (if chunk[|chunk| - 1] then 1 << (|chunk| - 1) else 0)
  }

  lemma SetBit(x: bv8, i: nat, k: nat)
    requires i < 8 && k < 8
    ensures TestBit(x | (1 << i), k) == (TestBit(x, k) || k == i)
  {
  }

  lemma KeepBits(x: bv8, k: nat)
    requires k < 8
    ensures TestBit(x | 0, k) == TestBit(x, k) && !TestBit(0, k)
  {
  }

  /** Bit `k` of `ByteOf(chunk)` is `chunk[k]`, and every bit past the chunk is 0. */
  lemma {:induction false} ByteOfBits(chunk: seq<bool>, k: nat)
    requires |chunk| <= 8 && k < 8
    ensures TestBit(ByteOf(chunk), k) == (k < |chunk| && chunk[k])
    decreases |chunk|
  {
    if chunk == [] {
      KeepBits(0, k);
    } else {
      ByteOfBits(chunk[..|chunk| - 1], k);
      ByteOfStep(chunk, k);
    }
  }

  /** Growing a chunk by one bit sets at most that bit's position in its byte. */
  lemma ByteOfStep(chunk: seq<bool>, k: nat)
    requires 0 < |chunk| <= 8 && k < 8
    ensures TestBit(ByteOf(chunk), k) == (TestBit(ByteOf(chunk[..|chunk| - 1]), k) || (k == |chunk| - 1 && chunk[|chunk| - 1]))
  {
    var i := |chunk| - 1;
    if chunk[i] {
      SetBit(ByteOf(chunk[..i]), i, k);
    } else {
      KeepBits(ByteOf(chunk[..i]), k);
    }
  }

  /** The packed payload: one byte per eight bits, the last one possibly partial. */
  function Pack(bits: seq<bool>): seq<bv8>
    decreases |bits|
  {
    if |bits| == 0 then []
    else if |bits| <= 8 then [ByteOf(bits)]
    else [ByteOf(bits[..8])] + Pack(bits[8..])
  }

  /** One byte per started group of eight bits. */
  lemma {:induction false} PackLength(bits: seq<bool>)
    ensures |Pack(bits)| == (|bits| + 7) / 8
    decreases |bits|
  {
    if |bits| > 8 {
      PackLength(bits[8..]);
    }
  }

  /**
    Bit `k` of the stream lands in bit `k % 8` of byte `k / 8`, and every
    bit of the last byte past the end of the stream is 0.
  */
  lemma {:induction false} PackLayout(bits: seq<bool>, k: nat)
    requires k < 8 * |Pack(bits)|
    ensures TestBit(Pack(bits)[k / 8], k % 8) == (k < |bits| && bits[k])
    decreases |bits|
  {
    if k < 8 {
      if |bits| <= 8 {
        ByteOfBits(bits, k);
      } else {
        ByteOfBits(bits[..8], k);
      }
    } else {
      PackLayout(bits[8..], k - 8);
      assert Pack(bits)[k / 8] == Pack(bits[8..])[(k - 8) / 8];
    }
  }

  /** Packing a whole number of bytes' worth of bits, then more, packs each part on its own. */
  lemma {:induction false} PackAppend(xs: seq<bool>, ys: seq<bool>)
    requires |xs| % 8 == 0
    ensures Pack(xs + ys) == Pack(xs) + Pack(ys)
    decreases |xs|
  {
    if |xs| == 0 {
      assert xs + ys == ys;
    } else {
      var zs := xs + ys;
      assert zs[..8] == xs[..8];
      assert zs[8..] == xs[8..] + ys;
      PackAppend(xs[8..], ys);
      if |xs| == 8 {
        assert xs[..8] == xs && xs[8..] == [];
        assert Pack(xs) == [ByteOf(xs)];
      } else {
        assert Pack(xs) == [ByteOf(xs[..8])] + Pack(xs[8..]);
      }
      if |zs| > 8 {
        assert Pack(zs) == [ByteOf(xs[..8])] + Pack(xs[8..] + ys);
      } else {
        assert zs == xs;
      }
    }
  }

  /** The bits of a byte, least significant first. */
  function BitsOfByte(b: bv8): (r: seq<bool>)
    ensures |r| == 8
  {
    seq(8, k requires 0 <= k < 8 => TestBit(b, k))
  }

  /** The bits of a byte sequence, each byte least significant bit first. */
  function BitsOf(bytes: seq<bv8>): (r: seq<bool>)
    ensures |r| == 8 * |bytes|
  {
    if bytes == [] then [] else BitsOfByte(bytes[0]) + BitsOf(bytes[1..])
  }

  lemma {:induction false} BitsOfAt(bytes: seq<bv8>, k: nat)
    requires k < 8 * |bytes|
    ensures BitsOf(bytes)[k] == TestBit(bytes[k / 8], k % 8)
    decreases |bytes|
  {
    if k >= 8 {
      BitsOfAt(bytes[1..], k - 8);
    }
  }

  /** Reading the payload back bit by bit, least significant first, gives the stream followed by zero padding. */
  lemma PackRoundTrip(bits: seq<bool>)
    ensures |Pack(bits)| == (|bits| + 7) / 8
    ensures BitsOf(Pack(bits)) == bits + seq(8 * |Pack(bits)| - |bits|, _ => false)
  {
    PackLength(bits);
    var packed := Pack(bits);
    var expected := bits + seq(8 * |packed| - |bits|, _ => false);
    forall k | 0 <= k < 8 * |packed| ensures BitsOf(packed)[k] == expected[k] {
      BitsOfAt(packed, k);
      PackLayout(bits, k);
    }
  }

  // ---------------------------------------------------------------------------
  // `compress_file`
  // ---------------------------------------------------------------------------

  /** The bytes `compress_file` writes: the tree-size header, then the packed code stream. */
  function CompressedImage(contents: seq<u8>, iteration: seq<u8>): seq<bv8>
    requires IsIterationOrder(contents, iteration)
  {
    var tree := HuffmanTree(contents, iteration);
    HuffmanTreeEncodes(contents, iteration);
    CreateByteVecFrom(Flatten(tree)) + Pack(EncodeAll(tree, contents))
  }

  /** The loop of `compress_file` that extends `encoded` with each byte's code, unwrapping the lookup. */
  method EncodeContents(huffmanTree: Node, contents: seq<u8>) returns (encoded: seq<bool>)
    requires Encodable(huffmanTree, contents)
    ensures encoded == EncodeAll(huffmanTree, contents)
  {
    encoded := [];
    for i := 0 to |contents|
      invariant encoded == EncodeAll(huffmanTree, contents[..i])
    {
      assert contents[..i + 1][..i] == contents[..i];
      var encoding := FindEncoding(huffmanTree, contents[i]).value;
      encoded := encoded + encoding;
    }
    assert contents[..|contents|] == contents;
  }

  /**
    The state of the packing loop once the bits `seen` are consumed: every
    whole byte of them is appended to `output`, and `byte` holds the
    remaining `bitIndex` bits.
  */
  ghost predicate PackState(output: seq<bv8>, seen: seq<bool>, written: seq<bv8>, byte: bv8, bitIndex: nat)
  {
    bitIndex < 8 && bitIndex <= |seen| && (|seen| - bitIndex) % 8 == 0
    && written == output + Pack(seen[..|seen| - bitIndex])
    && byte == ByteOf(seen[|seen| - bitIndex..])
  }

  /**
    The packing loop of `compress_file`: `byte` collects bits at position
    `bit_index` and is written and reset after eight bits. What is left in
    `byte` on exit is the chunk of the last `bit_index` bits.
  */
  method PackFullBytes(output: seq<bv8>, encoded: seq<bool>) returns (written: seq<bv8>, byte: bv8, bitIndex: nat)
    ensures bitIndex < 8 && bitIndex <= |encoded| && (|encoded| - bitIndex) % 8 == 0
    ensures written == output + Pack(encoded[..|encoded| - bitIndex])
    ensures byte == ByteOf(encoded[|encoded| - bitIndex..])
  {
    written := output;
    byte := 0;
    bitIndex := 0;
    assert encoded[..0] == [];
    for k := 0 to |encoded|
      invariant PackState(output, encoded[..k], written, byte, bitIndex)
    {
      assert encoded[..k + 1] == encoded[..k] + [encoded[k]];
      written, byte, bitIndex := PackBit(output, encoded[..k], written, byte, bitIndex, encoded[k]);
    }
    assert encoded[..|encoded|] == encoded;
  }

  /** One iteration of the packing loop: add `bit` to `byte`, and write and reset it once full. */
  method PackBit(ghost output: seq<bv8>, ghost seen: seq<bool>, written: seq<bv8>, byte: bv8, bitIndex: nat, bit: bool)
    returns (written': seq<bv8>, byte': bv8, bitIndex': nat)
    requires PackState(output, seen, written, byte, bitIndex)
    ensures PackState(output, seen + [bit], written', byte', bitIndex')
  {
    ghost var consumed := seen[..|seen| - bitIndex];
    ghost var pending := seen[|seen| - bitIndex..];
    assert seen + [bit] == consumed + (pending + [bit]) by {
      assert seen == consumed + pending;
    }
    byte' := SetNextBit(byte, bitIndex, bit, pending);
    bitIndex' := bitIndex + 1;
    written' := written;
    if bitIndex' == 8 {
      PackChunk(consumed, pending + [bit]);
      written' := written + [byte'];
      PackStateFull(output, seen + [bit], written');
      byte' := 0;
      bitIndex' := 0;
    } else {
      PackStatePartial(output, consumed, pending + [bit], written, byte');
    }
  }

  /** A byte-aligned prefix already written and a partial chunk in `byte` is a loop state. */
  lemma PackStatePartial(output: seq<bv8>, consumed: seq<bool>, pending: seq<bool>, written: seq<bv8>, byte: bv8)
    requires |consumed| % 8 == 0 && |pending| < 8
    requires written == output + Pack(consumed) && byte == ByteOf(pending)
    ensures PackState(output, consumed + pending, written, byte, |pending|)
  {
    var seen := consumed + pending;
    assert seen[..|seen| - |pending|] == consumed;
    assert seen[|seen| - |pending|..] == pending;
  }

  /** A byte-aligned stream whose bytes are all written is the empty loop state. */
  lemma PackStateFull(output: seq<bv8>, seen: seq<bool>, written: seq<bv8>)
    requires |seen| % 8 == 0 && written == output + Pack(seen)
    ensures PackState(output, seen, written, 0, 0)
  {
    assert seen[..|seen|] == seen;
    assert seen[|seen|..] == [];
  }

  /**
    The packing loop followed by the write of a partial last byte: the bytes
    appended to `output` are exactly the packed stream.
  */
  method WritePacked(output: seq<bv8>, encoded: seq<bool>) returns (written: seq<bv8>)
    ensures written == output + Pack(encoded)
  {
    var byte: bv8, bitIndex: nat;
    written, byte, bitIndex := PackFullBytes(output, encoded);
    if bitIndex != 0 {
      PackChunk(encoded[..|encoded| - bitIndex], encoded[|encoded| - bitIndex..]);
      assert encoded[..|encoded| - bitIndex] + encoded[|encoded| - bitIndex..] == encoded;
      written := written + [byte];
    } else {
      assert encoded[..|encoded|] == encoded;
    }
  }

  /** One step of the packing loop: bit `bitIndex` of `byte` is set when the next stream bit is 1. */
  method SetNextBit(byte: bv8, bitIndex: nat, bit: bool, ghost pending: seq<bool>) returns (r: bv8)
    requires |pending| == bitIndex < 8 && byte == ByteOf(pending)
    ensures r == ByteOf(pending + [bit])
  {
    ByteOfChunkSnoc(pending, bit);
    r := byte;
    if bit {
      r := byte | (1 << bitIndex);
    }
  }

  /** `ByteOf` of a chunk grown by one bit: the new bit is set at position `|chunk|` when it is 1. */
  lemma ByteOfChunkSnoc(chunk: seq<bool>, bit: bool)
    requires |chunk| < 8
    ensures ByteOf(chunk + [bit]) == if bit then ByteOf(chunk) | (1 << |chunk|) else ByteOf(chunk)
  {
    assert (chunk + [bit])[..|chunk|] == chunk;
    var x := ByteOf(chunk);
    assert x | 0 == x;
  }

  /** Packing a byte-aligned stream followed by one more chunk of at most eight bits. */
  lemma PackChunk(consumed: seq<bool>, pending: seq<bool>)
    requires |consumed| % 8 == 0 && 0 < |pending| <= 8
    ensures Pack(consumed + pending) == Pack(consumed) + [ByteOf(pending)]
  {
    PackAppend(consumed, pending);
  }

  /**
    `compress_file` with the file read replaced by `contents`, the `HashMap`
    iteration order by `iteration` and the file written by `output`.
  */
  method CompressFile(contents: seq<u8>, iteration: seq<u8>) returns (output: seq<bv8>)
    requires IsIterationOrder(contents, iteration)
    ensures output == CompressedImage(contents, iteration)
  {
    var huffmanTree := FromBuffer(contents, iteration);
    HuffmanTreeEncodes(contents, iteration);
    var encoded := EncodeContents(huffmanTree, contents);

    var header := CreateByteVecFrom(Flatten(huffmanTree));
    output := [];
    for j := 0 to |header|
      invariant output == header[..j]
    {
      output := output + [header[j]];
    }
    assert header[..|header|] == header;

    output := WritePacked(output, encoded);
  }

  // ---------------------------------------------------------------------------
  // Properties of the written file
  // ---------------------------------------------------------------------------

  /** When every byte's code is empty the stream is empty. */
  lemma {:induction false} EncodeAllOfEmptyCodes(tree: Node, contents: seq<u8>)
    requires forall i :: 0 <= i < |contents| ==> FindEncoding(tree, contents[i]) == Some([])
    ensures Encodable(tree, contents) && EncodeAll(tree, contents) == []
  {
    if contents != [] {
      EncodeAllOfEmptyCodes(tree, contents[..|contents| - 1]);
    }
  }

  /**
    Layout of the file: one header byte holding three times the node count
    (truncated to a byte), then one payload byte per started group of eight
    code bits.
  */
  lemma CompressedImageLayout(contents: seq<u8>, iteration: seq<u8>)
    requires IsIterationOrder(contents, iteration)
    ensures Encodable(HuffmanTree(contents, iteration), contents)
    ensures var tree, image := HuffmanTree(contents, iteration), CompressedImage(contents, iteration);
      |image| == 1 + (|EncodeAll(tree, contents)| + 7) / 8 &&
      image[0] == (3 * Size(tree) % 256) as bv8 &&
      image[1..] == Pack(EncodeAll(tree, contents))
  {
    HuffmanTreeEncodes(contents, iteration);
    PackLength(EncodeAll(HuffmanTree(contents, iteration), contents));
  }

  /**
    With `d > 0` distinct bytes the header is `3 * (2 * d - 1)` truncated to
    a byte: it wraps once the input has 44 or more distinct bytes (43 give
    85 nodes and the largest header that fits, 255).
  */
  lemma HeaderByte(contents: seq<u8>, iteration: seq<u8>)
    requires IsIterationOrder(contents, iteration)
    requires |contents| > 0
    ensures CompressedImage(contents, iteration)[0] == (3 * (2 * |iteration| - 1) % 256) as bv8
  {
    HuffmanTreeSize(contents, iteration);
  }

  /**
    An empty input, or one byte value repeated, has an empty code stream:
    the file is the single header byte 3.
  */
  lemma CompressTrivialInputs(contents: seq<u8>, iteration: seq<u8>)
    requires IsIterationOrder(contents, iteration)
    requires forall i :: 0 <= i < |contents| ==> contents[i] == contents[0]
    ensures CompressedImage(contents, iteration) == [3]
  {
    HuffmanTreeOfOneSymbol(contents, iteration);
    var tree := HuffmanTree(contents, iteration);
    assert tree.left.None? && tree.right.None?;
    forall i | 0 <= i < |contents| ensures FindEncoding(tree, contents[i]) == Some([]) {
      assert tree.value == Some(contents[i]) && tree.binary == [];
    }
    EncodeAllOfEmptyCodes(tree, contents);
    CompressedImageOfTree(contents, iteration, tree);
    HeaderOfChildless(tree);
    assert Pack([]) == [];
  }

  /** A childless root is one node: the header is 3. */
  lemma HeaderOfChildless(n: Node)
    requires n.left.None? && n.right.None?
    ensures CreateByteVecFrom(Flatten(n)) == [3]
  {
    var nodes := Flatten(n);
    assert |nodes| == 1;
    assert 3 * |nodes| % 256 == 3;
  }

  /** The image of a buffer spelled out in terms of its tree. */
  lemma CompressedImageOfTree(contents: seq<u8>, iteration: seq<u8>, tree: Node)
    requires IsIterationOrder(contents, iteration) && HuffmanTree(contents, iteration) == tree
    ensures Encodable(tree, contents)
    ensures CompressedImage(contents, iteration) == CreateByteVecFrom(Flatten(tree)) + Pack(EncodeAll(tree, contents))
  {
    HuffmanTreeEncodes(contents, iteration);
  }
}
