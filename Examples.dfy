/**
  Worked examples on concrete inputs: the buffer `AAABBC` from end to end,
  one byte repeated, and the first case of the ordering unit test of
  src/huffman/mod.rs.
*/
module Examples {
  import opened Wrappers
  import opened HuffmanNode
  import opened HuffmanBuild
  import opened Compression

  /** The frequency table of `AAABBC`. */
  lemma TableAaabbc()
    ensures FrequencyTableOf([65, 65, 65, 66, 66, 67]) == map[65 := 3, 66 := 2, 67 := 1]
  {
    var c: seq<u8> := [65, 65, 65, 66, 66, 67];
    var t := FrequencyTableOf(c);
    CountsAaabbc(c);
    BytesAaabbc(c);
    assert t.Keys == {65, 66, 67};
  }

  lemma CountsAaabbc(c: seq<u8>)
    requires c == [65, 65, 65, 66, 66, 67]
    ensures multiset(c)[65] == 3 && multiset(c)[66] == 2 && multiset(c)[67] == 1
  {
    assert multiset(c) == multiset{65, 65, 65, 66, 66, 67};
  }

  lemma BytesAaabbc(c: seq<u8>)
    requires c == [65, 65, 65, 66, 66, 67]
    ensures forall b :: b in c <==> b in {65 as u8, 66, 67}
  {
    forall b ensures b in c <==> b in {65 as u8, 66, 67} {
      assert b in c <==> b == 65 || b == 66 || b == 67;
    }
  }

  /** With the table yielding `A`, `B`, `C` in that order, the ordered vector is `C:1, B:2, A:3`. */
  lemma OrderedAaabbc()
    requires IsKeyOrder(map[65 := 3, 66 := 2, 67 := 1], [65, 66, 67])
    ensures OrderedVec(map[65 := 3, 66 := 2, 67 := 1], [65, 66, 67]) == [(67, 1), (66, 2), (65, 3)]
  {
    var t: map<u8, nat> := map[65 := 3, 66 := 2, 67 := 1];
    var it: seq<u8> := [65, 66, 67];
    var a: Entry, b: Entry, c: Entry := (65, 3), (66, 2), (67, 1);
    var e := Entries(t, it);
    assert e == [a, b, c];
    assert e[1..] == [b, c] && e[1..][1..] == [c];
    assert SortByCount([c]) == [c];
    assert Insert(b, [c]) == [c, b] by {
      assert |[c][1..]| == 0;
    }
    assert Insert(a, [c, b]) == [c, b, a] by {
      assert [c, b][1..] == [b];
      assert |[b][1..]| == 0;
      assert Insert(a, [b]) == [b, a];
    }
  }

  /** A leaf carrying byte `b`, weight `f` and code `code`. */
  function Leaf(b: u8, f: nat, code: seq<bool>): Node
  {
    Node(Some(b), code, f, None, None)
  }

  /** The coded tree of `AAABBC`. */
  function AaabbcTree(): Node
  {
    Node(None, [], 6, Some(Leaf(65, 3, [false])),
      Some(Node(None, [], 3, Some(Leaf(67, 1, [false, true, false])), Some(Leaf(66, 2, [false, true, false, true])))))
  }

  /**
    `C` and `B` merge into a node of weight 3 that goes after `A`; the root
    has `A` on the left and that node on the right.
  */
  lemma BuildAaabbc()
    ensures AssignBinary(BuildTree(LeafNodes([(67, 1), (66, 2), (65, 3)])), []) == AaabbcTree()
  {
    var la, lb, lc := Leaf(65, 3, []), Leaf(66, 2, []), Leaf(67, 1, []);
    var ordered: seq<Entry> := [(67, 1), (66, 2), (65, 3)];
    assert LeafNodes(ordered) == [lc, lb, la];
    var inner := Node(None, [], 3, Some(lc), Some(lb));
    var root := Node(None, [], 6, Some(la), Some(inner));
    assert Merge([lc, lb, la]) == [la, inner];
    assert Merge([la, inner]) == [root];
    assert BuildTree([lc, lb, la]) == root;
    assert AssignBinary(la, [false]) == Leaf(65, 3, [false]);
    assert AssignBinary(lc, [false, true, false]) == Leaf(67, 1, [false, true, false]);
    assert AssignBinary(lb, [false, true, false, true]) == Leaf(66, 2, [false, true, false, true]);
    assert [false, true] + [false] == [false, true, false];
    assert [false, true, false] + [true] == [false, true, false, true];
    assert AssignBinary(inner, [false, true]) == AaabbcTree().right.value;
    assert [] + [false] == [false] && [false] + [true] == [false, true];
    assert AssignBinary(root, []) == AaabbcTree();
  }

  /** `A = 0`, `C = 010`, `B = 0101`. */
  lemma CodesAaabbc()
    ensures FindEncoding(AaabbcTree(), 65) == Some([false])
    ensures FindEncoding(AaabbcTree(), 67) == Some([false, true, false])
    ensures FindEncoding(AaabbcTree(), 66) == Some([false, true, false, true])
  {}

  /** The code stream of `AAABBC`: three `0`, two `0101`, one `010`. */
  lemma StreamAaabbc()
    ensures Encodable(AaabbcTree(), [65, 65, 65, 66, 66, 67])
    ensures EncodeAll(AaabbcTree(), [65, 65, 65, 66, 66, 67]) ==
      [false, false, false, false, true, false, true, false, true, false, true, false, true, false]
  {
    var t := AaabbcTree();
    CodesAaabbc();
    var c: seq<u8> := [65, 65, 65, 66, 66, 67];
    assert Encodable(t, c);
    assert c[..5] == [65, 65, 65, 66, 66];
    assert c[..5][..4] == [65, 65, 65, 66];
    assert c[..5][..4][..3] == [65, 65, 65];
    assert c[..5][..4][..3][..2] == [65, 65];
    assert c[..5][..4][..3][..2][..1] == [65];
    EncodeAllSingle(t, 65);
    assert EncodeAll(t, [65, 65]) == [false, false];
    assert EncodeAll(t, [65, 65, 65]) == [false, false, false];
    assert EncodeAll(t, [65, 65, 65, 66]) == [false, false, false, false, true, false, true];
    assert EncodeAll(t, [65, 65, 65, 66, 66]) == [false, false, false, false, true, false, true, false, true, false, true];
  }

  /** The 14 bits fill one byte and six bits of a second, least significant bit first. */
  lemma PackAaabbc()
    ensures Pack([false, false, false, false, true, false, true, false, true, false, true, false, true, false]) == [0x50, 0x15]
  {
    var bits := [false, false, false, false, true, false, true, false, true, false, true, false, true, false];
    assert bits[..8] == [false, false, false, false, true, false, true, false];
    assert bits[8..] == [true, false, true, false, true, false];
    var lo := bits[..8];
    assert lo[..7] == [false, false, false, false, true, false, true];
    assert lo[..7][..6] == [false, false, false, false, true, false];
    assert lo[..7][..6][..5] == [false, false, false, false, true];
    assert lo[..7][..6][..5][..4] == [false, false, false, false];
    assert ByteOf([false, false, false, false]) == 0 by {
      assert [false, false, false, false][..3] == [false, false, false];
      assert [false, false, false][..2] == [false, false];
      assert [false, false][..1] == [false];
      assert [false][..0] == [];
    }
    assert ByteOf(lo[..7][..6][..5]) == 0x10;
    assert ByteOf(lo[..7][..6]) == 0x10;
    assert ByteOf(lo[..7]) == 0x50;
    assert ByteOf(lo) == 0x50;
    var hi := bits[8..];
    assert hi[..5] == [true, false, true, false, true];
    assert hi[..5][..4] == [true, false, true, false];
    assert hi[..5][..4][..3] == [true, false, true];
    assert hi[..5][..4][..3][..2] == [true, false];
    assert hi[..5][..4][..3][..2][..1] == [true];
    assert ByteOf([true]) == 1 by {
      assert [true][..0] == [];
    }
    assert ByteOf(hi[..5][..4][..3][..2]) == 1;
    assert ByteOf(hi[..5][..4][..3]) == 5;
    assert ByteOf(hi[..5][..4]) == 5;
    assert ByteOf(hi[..5]) == 0x15;
    assert ByteOf(hi) == 0x15;
  }

  /** `from_buffer` on `AAABBC` returns the coded tree above. */
  lemma TreeAaabbc()
    ensures IsIterationOrder([65, 65, 65, 66, 66, 67], [65, 66, 67])
    ensures HuffmanTree([65, 65, 65, 66, 66, 67], [65, 66, 67]) == AaabbcTree()
  {
    TableAaabbc();
    OrderedAaabbc();
    BuildAaabbc();
  }

  /** The header of the five-node tree is the single byte 15. */
  lemma HeaderAaabbc()
    ensures CreateByteVecFrom(Flatten(AaabbcTree())) == [15]
  {
    SizeAaabbc();
    HeaderOfFiveNodes(AaabbcTree());
  }

  /** Any five-node tree has the header 15. */
  lemma HeaderOfFiveNodes(n: Node)
    requires Size(n) == 5
    ensures CreateByteVecFrom(Flatten(n)) == [15]
  {
    var nodes := Flatten(n);
    assert |nodes| == 5;
    assert 3 * |nodes| % 256 == 15;
  }

  /** The tree of `AAABBC` has five nodes. */
  lemma SizeAaabbc()
    ensures Size(AaabbcTree()) == 5
  {
  }

  /**
    The whole of `compress_file` on `AAABBC`: the header 15 (five nodes, three
    bytes each) and the stream packed into `0x50, 0x15`.
  */
  lemma AaabbcExample(contents: seq<u8>, iteration: seq<u8>)
    requires contents == [65, 65, 65, 66, 66, 67] && iteration == [65, 66, 67]
    ensures IsIterationOrder(contents, iteration)
    ensures CompressedImage(contents, iteration) == [15, 0x50, 0x15]
  {
    TreeAaabbc();
    StreamAaabbc();
    PackAaabbc();
    HeaderAaabbc();
    CompressedImageOfTree(contents, iteration, AaabbcTree());
    JoinImage(CompressedImage(contents, iteration), CreateByteVecFrom(Flatten(AaabbcTree())), Pack(EncodeAll(AaabbcTree(), contents)));
  }

  /** The file of `AAABBC` put together from its header and payload. */
  lemma JoinImage(image: seq<bv8>, header: seq<bv8>, payload: seq<bv8>)
    requires image == header + payload && header == [15] && payload == [0x50, 0x15]
    ensures image == [15, 0x50, 0x15]
  {
  }

  /**
    In the tree of `AAABBC`, `C`'s code is a proper prefix of `B`'s: the codes
    `assign_binary` hands out are not prefix-free.
  */
  lemma CodesNotPrefixFree(contents: seq<u8>, iteration: seq<u8>)
    requires contents == [65, 65, 65, 66, 66, 67] && iteration == [65, 66, 67]
    ensures IsIterationOrder(contents, iteration)
    ensures var tree := HuffmanTree(contents, iteration);
      var codeC, codeB := FindEncoding(tree, 67), FindEncoding(tree, 66);
      codeC.Some? && codeB.Some? && |codeC.value| < |codeB.value| && codeB.value[..|codeC.value|] == codeC.value
  {
    TreeAaabbc();
    CodesAaabbc();
    PrefixCodes(HuffmanTree(contents, iteration));
  }

  /** A tree coding `C` as `010` and `B` as `0101` gives `C` a proper prefix of `B`'s code. */
  lemma PrefixCodes(tree: Node)
    requires FindEncoding(tree, 67) == Some([false, true, false])
    requires FindEncoding(tree, 66) == Some([false, true, false, true])
    ensures var codeC, codeB := FindEncoding(tree, 67), FindEncoding(tree, 66);
      codeC.Some? && codeB.Some? && |codeC.value| < |codeB.value| && codeB.value[..|codeC.value|] == codeC.value
  {
    assert [false, true, false, true][..3] == [false, true, false];
  }

  /** Ten repetitions of one byte: the file is the header byte 3 alone, with no payload. */
  lemma RepeatedByteExample()
    ensures IsIterationOrder(seq(10, _ => 0x41 as u8), [0x41])
    ensures CompressedImage(seq(10, _ => 0x41 as u8), [0x41]) == [3]
  {
    var c := seq(10, _ => 0x41 as u8);
    assert c[0] == 0x41 && 0x41 in c;
    CompressTrivialInputs(c, [0x41]);
  }

  /**
    The first case of the ordering unit test: `{6: 1, 2: 3, 4: 2}` is ordered
    `(6, 1), (4, 2), (2, 3)` in whatever order the table yields its keys.
  */
  lemma OrderedVecExample(iteration: seq<u8>)
    requires IsKeyOrder(map[6 := 1, 2 := 3, 4 := 2], iteration)
    ensures OrderedVec(map[6 := 1, 2 := 3, 4 := 2], iteration) == [(6, 1), (4, 2), (2, 3)]
  {
    var table: map<u8, nat> := map[6 := 1, 2 := 3, 4 := 2];
    assert 6 in table && 2 in table && 4 in table;
    ThreeEntries(OrderedVec(table, iteration), table);
  }

  /** A count-sorted vector holding exactly the entries of `{6: 1, 2: 3, 4: 2}`, once each, is `(6, 1), (4, 2), (2, 3)`. */
  lemma ThreeEntries(r: seq<Entry>, table: map<u8, nat>)
    requires table == map[6 := 1, 2 := 3, 4 := 2]
    requires DistinctKeys(r) && SortedByCount(r)
    requires forall i :: 0 <= i < |r| ==> r[i].0 in table && r[i].1 == table[r[i].0]
    requires exists i :: 0 <= i < |r| && r[i].0 == 6
    requires exists i :: 0 <= i < |r| && r[i].0 == 4
    requires exists i :: 0 <= i < |r| && r[i].0 == 2
    ensures r == [(6, 1), (4, 2), (2, 3)]
  {
    var i6 :| 0 <= i6 < |r| && r[i6].0 == 6;
    var i4 :| 0 <= i4 < |r| && r[i4].0 == 4;
    var i2 :| 0 <= i2 < |r| && r[i2].0 == 2;
    assert r[i6].1 == 1 && r[i4].1 == 2 && r[i2].1 == 3;
    assert i6 < i4 < i2;
    assert i6 == 0;
    assert i2 == |r| - 1;
    assert r[1].1 <= 2;
    assert i4 == 1;
    assert r[2].1 >= 2;
    assert |r| == 3;
  }

  // ---------------------------------------------------------------------------
  // `AB`: tied counts make the file depend on the table's iteration order
  // ---------------------------------------------------------------------------

  /** The table of `AB` maps both bytes to 1. */
  lemma TableAb(c: seq<u8>)
    requires c == [65, 66]
    ensures FrequencyTableOf(c) == map[65 := 1, 66 := 1]
  {
    assert multiset(c) == multiset{65, 66};
    forall b ensures b in c <==> b in {65 as u8, 66} {
      assert b in c <==> b == 65 || b == 66;
    }
    assert FrequencyTableOf(c).Keys == {65, 66};
  }

  /** Two entries of equal count keep the order the table yields them in (`sort_by` is stable). */
  lemma OrderedPair(table: map<u8, nat>, x: u8, y: u8)
    requires x != y && table == map[x := 1, y := 1]
    ensures IsKeyOrder(table, [x, y])
    ensures OrderedVec(table, [x, y]) == [(x, 1), (y, 1)]
  {
    var a: Entry, b: Entry := (x, 1), (y, 1);
    assert Entries(table, [x, y]) == [a, b];
    assert [a, b][1..] == [b];
    assert SortByCount([b]) == [b] by {
      assert |[b][1..]| == 0;
    }
    assert Insert(a, [b]) == [a, b];
  }

  /** The coded tree of two bytes of count 1 yielded as `x`, then `y`. */
  function PairTree(x: u8, y: u8): Node
  {
    Node(None, [], 2, Some(Leaf(x, 1, [false])), Some(Leaf(y, 1, [false, true])))
  }

  /** The first leaf goes left with code `0`, the second right with code `01`. */
  lemma BuildPair(x: u8, y: u8)
    ensures AssignBinary(BuildTree(LeafNodes([(x, 1), (y, 1)])), []) == PairTree(x, y)
  {
    var lx, ly := Leaf(x, 1, []), Leaf(y, 1, []);
    assert LeafNodes([(x, 1), (y, 1)]) == [lx, ly];
    var root := Node(None, [], 2, Some(lx), Some(ly));
    assert Merge([lx, ly]) == [root];
    assert BuildTree([lx, ly]) == root;
    assert [] + [false] == [false] && [false] + [true] == [false, true];
    assert AssignBinary(lx, [false]) == Leaf(x, 1, [false]);
    assert AssignBinary(ly, [false, true]) == Leaf(y, 1, [false, true]);
    assert AssignBinary(root, []) == PairTree(x, y);
  }

  /** `from_buffer` on `AB`, for either order of the two keys. */
  lemma TreeAb(contents: seq<u8>, iteration: seq<u8>)
    requires contents == [65, 66] && (iteration == [65, 66] || iteration == [66, 65])
    ensures IsIterationOrder(contents, iteration)
    ensures HuffmanTree(contents, iteration) == PairTree(iteration[0], iteration[1])
  {
    TableAb(contents);
    var x, y := iteration[0], iteration[1];
    assert FrequencyTableOf(contents) == map[x := 1, y := 1];
    assert iteration == [x, y];
    OrderedPair(FrequencyTableOf(contents), x, y);
    BuildPair(x, y);
  }

  /** The stream of `AB` in a tree coding `x` as `0` and `y` as `01`. */
  lemma StreamPair(x: u8, y: u8, contents: seq<u8>)
    requires x != y && contents == [65, 66] && (x == 65 || x == 66) && (y == 65 || y == 66)
    ensures Encodable(PairTree(x, y), contents)
    ensures EncodeAll(PairTree(x, y), contents) ==
      (if x == 65 then [false] + [false, true] else [false, true] + [false])
  {
    var t := PairTree(x, y);
    assert FindEncoding(t, x) == Some([false]);
    assert FindEncoding(t, y) == Some([false, true]);
    assert Encodable(t, contents);
    assert contents[..1] == [65];
    EncodeAllSingle(t, 65);
  }

  /** The header of a three-node tree is the single byte 9. */
  lemma HeaderOfThreeNodes(n: Node)
    requires Size(n) == 3
    ensures CreateByteVecFrom(Flatten(n)) == [9]
  {
    var nodes := Flatten(n);
    assert |nodes| == 3;
    assert 3 * |nodes| % 256 == 9;
  }

  /** Three bits, least significant first, in one byte. */
  lemma PackThreeBits(bits: seq<bool>)
    requires |bits| == 3
    ensures Pack(bits) == [ByteOf(bits)]
  {
  }

  /** The payload byte of `AB`: `0x04` when `A` is coded `0`, `0x02` when `B` is. */
  lemma PairByte(x: u8, y: u8, contents: seq<u8>)
    requires x != y && contents == [65, 66] && (x == 65 || x == 66) && (y == 65 || y == 66)
    ensures Encodable(PairTree(x, y), contents) && |EncodeAll(PairTree(x, y), contents)| == 3
    ensures ByteOf(EncodeAll(PairTree(x, y), contents)) == if x == 65 then 4 else 2
  {
    StreamPair(x, y, contents);
    PackAb();
    if x == 65 {
      assert [false] + [false, true] == [false, false, true];
    } else {
      assert [false, true] + [false] == [false, true, false];
    }
  }

  /** `001` packs into `0x04` and `010` into `0x02`. */
  lemma PackAb()
    ensures ByteOf([false, false, true]) == 4
    ensures ByteOf([false, true, false]) == 2
  {
    assert [false, false, true][..2] == [false, false];
    assert [false, true, false][..2] == [false, true];
    assert [false, false][..1] == [false] && [false, true][..1] == [false];
    assert [false][..0] == [];
  }

  /** `compress_file` on `AB`: the header 9 and one payload byte holding the three code bits. */
  lemma PairImage(contents: seq<u8>, iteration: seq<u8>)
    requires contents == [65, 66] && (iteration == [65, 66] || iteration == [66, 65])
    ensures IsIterationOrder(contents, iteration)
    ensures var tree := PairTree(iteration[0], iteration[1]);
      Encodable(tree, contents) && |EncodeAll(tree, contents)| == 3 &&
      CompressedImage(contents, iteration) == [9, ByteOf(EncodeAll(tree, contents))]
  {
    var x, y := iteration[0], iteration[1];
    TreeAb(contents, iteration);
    var tree := PairTree(x, y);
    StreamPair(x, y, contents);
    var bits := EncodeAll(tree, contents);
    PackThreeBits(bits);
    assert Size(tree) == 3;
    HeaderOfThreeNodes(tree);
    CompressedImageOfTree(contents, iteration, tree);
    JoinPair(CompressedImage(contents, iteration), CreateByteVecFrom(Flatten(tree)), Pack(bits));
  }

  /** A file made of the header 9 and a one-byte payload. */
  lemma JoinPair(image: seq<bv8>, header: seq<bv8>, payload: seq<bv8>)
    requires image == header + payload && header == [9] && |payload| == 1
    ensures image == [9, payload[0]]
  {
  }

  /**
    With the tied counts of `AB` the file depends on the order the table
    yields its keys: `[9, 4]` when `A` comes first, `[9, 2]` when `B` does.
    As that order changes from process to process, so can the file.
  */
  lemma TiedCountsDependOnOrder(contents: seq<u8>)
    requires contents == [65, 66]
    ensures IsIterationOrder(contents, [65, 66]) && IsIterationOrder(contents, [66, 65])
    ensures CompressedImage(contents, [65, 66]) == [9, 4]
    ensures CompressedImage(contents, [66, 65]) == [9, 2]
  {
    AFirstImage(contents, [65, 66]);
    BFirstImage(contents, [66, 65]);
  }

  /** `A` yielded first: codes `A = 0`, `B = 01`, stream `001`, file `[9, 4]`. */
  lemma AFirstImage(contents: seq<u8>, iteration: seq<u8>)
    requires contents == [65, 66] && iteration == [65, 66]
    ensures IsIterationOrder(contents, iteration)
    ensures CompressedImage(contents, iteration) == [9, 4]
  {
    PairImage(contents, iteration);
    PairByte(iteration[0], iteration[1], contents);
  }

  /** `B` yielded first: codes `B = 0`, `A = 01`, stream `010`, file `[9, 2]`. */
  lemma BFirstImage(contents: seq<u8>, iteration: seq<u8>)
    requires contents == [65, 66] && iteration == [66, 65]
    ensures IsIterationOrder(contents, iteration)
    ensures CompressedImage(contents, iteration) == [9, 2]
  {
    PairImage(contents, iteration);
    PairByte(iteration[0], iteration[1], contents);
  }
}
