/**
  The Huffman tree node of src/huffman/mod.rs and the operations that read one
  tree or rewrite it: construction, frequency accumulation, code assignment,
  lookup, ordering, pre-order flattening and the tree-size header.
*/
module HuffmanNode {
  import opened Wrappers

  /** A byte value used as a symbol (Rust's `u8`). Bytes written to the output are `bv8`. */
  newtype u8 = x: int | 0 <= x < 256

  /**
    `HuffmanNode`: the symbol (leaves only), the code assigned to the node,
    the subtree's frequency and two exclusively owned, optional children.
  */
  datatype Node = Node(value: Option<u8>, binary: seq<bool>, frequency: nat, left: Option<Node>, right: Option<Node>)

  // ---------------------------------------------------------------------------
  // Construction
  // ---------------------------------------------------------------------------

  /** `HuffmanNode::new`: a node with the given fields and an empty code. */
  function New(value: Option<u8>, frequency: nat, left: Option<Node>, right: Option<Node>): (r: Node)
    ensures r.binary == [] && r.value == value && r.frequency == frequency
    ensures r.left == left && r.right == right
  {
    Node(value, [], frequency, left, right)
  }

  /** The frequency an optional child contributes; an absent child contributes nothing. */
  function ChildFrequency(c: Option<Node>): nat
  {
    if c.Some? then c.value.frequency else 0
  }

  /** `calc_freq`: the node's frequency grows by both children's; no other field changes. */
  function CalcFreq(n: Node): (r: Node)
    ensures r.frequency == n.frequency + ChildFrequency(n.left) + ChildFrequency(n.right)
    ensures r.value == n.value && r.binary == n.binary && r.left == n.left && r.right == n.right
  {
    n.(frequency := n.frequency + ChildFrequency(n.left) + ChildFrequency(n.right))
  }

  /** `HuffmanNode::from`: a node with an empty code whose frequency is the sum of its children's. */
  function From(value: Option<u8>, left: Option<Node>, right: Option<Node>): (r: Node)
    ensures r.frequency == ChildFrequency(left) + ChildFrequency(right)
    ensures r.binary == [] && r.value == value && r.left == left && r.right == right
  {
    CalcFreq(Node(value, [], 0, left, right))
  }

  // ---------------------------------------------------------------------------
  // Views of a tree used by the specifications
  // ---------------------------------------------------------------------------

  /** Number of nodes in the tree. */
  function Size(n: Node): nat
  {
    1 + (if n.left.Some? then Size(n.left.value) else 0)
      + (if n.right.Some? then Size(n.right.value) else 0)
  }

  /** The symbols carried anywhere in the tree. */
  function Values(n: Node): set<u8>
  {
    (if n.value.Some? then {n.value.value} else {})
      + (if n.left.Some? then Values(n.left.value) else {})
      + (if n.right.Some? then Values(n.right.value) else {})
  }

  /** The childless nodes of the tree, left to right. */
  function Leaves(n: Node): seq<Node>
  {
    if n.left.None? && n.right.None? then [n]
    else
      (if n.left.Some? then Leaves(n.left.value) else [])
      + (if n.right.Some? then Leaves(n.right.value) else [])
  }

  /**
    The shape every tree the builder produces from leaves has: a node with a
    symbol has no children, a node without one has both.
  */
  predicate Full(n: Node)
  {
    if n.value.Some? then n.left.None? && n.right.None?
    else n.left.Some? && n.right.Some? && Full(n.left.value) && Full(n.right.value)
  }

  /** The child one step selects: `false` goes left, `true` goes right. */
  function Child(n: Node, step: bool): Option<Node>
  {
    if step then n.right else n.left
  }

  /** The subtree reached from `n` along `path`, if every step exists. */
  function At(n: Node, path: seq<bool>): Option<Node>
    decreases |path|
  {
    if path == [] then Some(n)
    else match Child(n, path[0])
      case None => None
      case Some(c) => At(c, path[1..])
  }

  /** Every node strictly above the end of `path` exists and carries no symbol. */
  predicate Open(n: Node, path: seq<bool>)
    decreases |path|
  {
    path == [] || (n.value.None? && Child(n, path[0]).Some? && Open(Child(n, path[0]).value, path[1..]))
  }

  // ---------------------------------------------------------------------------
  // Code assignment (`assign_binary`)
  // ---------------------------------------------------------------------------

  /**
    `assign_binary`: a node with a symbol appends the prefix to its code; any
    other node passes `prefix + [false]` to its left child and, because the
    same buffer is pushed onto again, `prefix + [false, true]` to its right
    child (`prefix + [true]` when there is no left child). Nodes without a
    symbol keep their code.
  */
  function AssignBinary(n: Node, prefix: seq<bool>): (r: Node)
    ensures r.value == n.value && r.frequency == n.frequency
    ensures r.left.Some? == n.left.Some? && r.right.Some? == n.right.Some?
    ensures r.binary == if n.value.Some? then n.binary + prefix else n.binary
  {
    if n.value.Some? then n.(binary := n.binary + prefix)
    else
      var leftPrefix := if n.left.Some? then prefix + [false] else prefix;
      var rightPrefix := if n.right.Some? then leftPrefix + [true] else leftPrefix;
      n.(left := if n.left.Some? then Some(AssignBinary(n.left.value, leftPrefix)) else None,
         right := if n.right.Some? then Some(AssignBinary(n.right.value, rightPrefix)) else None)
  }

  /** The bits `assign_binary` appends when it descends from `n` in direction `step`. */
  function StepCode(n: Node, step: bool): seq<bool>
  {
    if !step then [false] else if n.left.Some? then [false, true] else [true]
  }

  /** The bits `assign_binary` appends along the whole of `path`. */
  function PathCode(n: Node, path: seq<bool>): seq<bool>
    decreases |path|
  {
    if path == [] then []
    else match Child(n, path[0])
      case None => []
      case Some(c) => StepCode(n, path[0]) + PathCode(c, path[1..])
  }

  /** The code of a path in a full tree: a left step costs `0`, a right step `01`. */
  function QuirkCode(path: seq<bool>): seq<bool>
  {
    if path == [] then [] else (if path[0] then [false, true] else [false]) + QuirkCode(path[1..])
  }

  /**
    What `assign_binary(prefix)` does to the node at the end of an open path:
    its symbol and frequency stay, and its code grows by the prefix followed
    by the bits of the path when it carries a symbol and is unchanged otherwise.
  */
  lemma {:induction false} AssignBinaryAt(n: Node, prefix: seq<bool>, path: seq<bool>)
    requires At(n, path).Some? && Open(n, path)
    ensures At(AssignBinary(n, prefix), path).Some?
    ensures var m, m' := At(n, path).value, At(AssignBinary(n, prefix), path).value;
      m'.value == m.value && m'.frequency == m.frequency &&
      m'.binary == if m.value.Some? then m.binary + prefix + PathCode(n, path) else m.binary
    decreases |path|
  {
    if path != [] {
      var c := Child(n, path[0]).value;
      var p' := prefix + StepCode(n, path[0]);
      assert n.left.Some? ==> (prefix + [false]) + [true] == prefix + [false, true];
      assert Child(AssignBinary(n, prefix), path[0]) == Some(AssignBinary(c, p'));
      AssignBinaryAt(c, p', path[1..]);
      var m := At(c, path[1..]).value;
      assert m.binary + p' + PathCode(c, path[1..]) == m.binary + prefix + PathCode(n, path);
    }
  }

  /** In a full tree every existing path is open and its code is `QuirkCode`. */
  lemma {:induction false} FullTreePathCode(n: Node, path: seq<bool>)
    requires Full(n) && At(n, path).Some?
    ensures Open(n, path) && PathCode(n, path) == QuirkCode(path)
    decreases |path|
  {
    if path != [] {
      FullTreePathCode(Child(n, path[0]).value, path[1..]);
    }
  }

  /** `assign_binary` changes codes only: the symbols in the tree stay the same. */
  lemma {:induction false} AssignBinaryValues(n: Node, prefix: seq<bool>)
    ensures Values(AssignBinary(n, prefix)) == Values(n)
  {
    if n.value.None? {
      var leftPrefix := if n.left.Some? then prefix + [false] else prefix;
      var rightPrefix := if n.right.Some? then leftPrefix + [true] else leftPrefix;
      if n.left.Some? { AssignBinaryValues(n.left.value, leftPrefix); }
      if n.right.Some? { AssignBinaryValues(n.right.value, rightPrefix); }
    }
  }

  /** `assign_binary` keeps the number of nodes. */
  lemma {:induction false} AssignBinarySize(n: Node, prefix: seq<bool>)
    ensures Size(AssignBinary(n, prefix)) == Size(n)
  {
    if n.value.None? {
      var leftPrefix := if n.left.Some? then prefix + [false] else prefix;
      var rightPrefix := if n.right.Some? then leftPrefix + [true] else leftPrefix;
      if n.left.Some? { AssignBinarySize(n.left.value, leftPrefix); }
      if n.right.Some? { AssignBinarySize(n.right.value, rightPrefix); }
    }
  }

  // ---------------------------------------------------------------------------
  // Pre-order flattening and lookup
  // ---------------------------------------------------------------------------

  /**
    `From<HuffmanNode> for Vec<HuffmanNode>`: the node itself (with its
    subtrees), then its left subtree flattened, then its right subtree.
  */
  function Flatten(n: Node): (r: seq<Node>)
    ensures |r| == Size(n) && r[0] == n
  {
    [n] + (if n.left.Some? then Flatten(n.left.value) else [])
      + (if n.right.Some? then Flatten(n.right.value) else [])
  }

  /** The code of the first node in `nodes` that carries `b`. */
  function FirstEncoding(nodes: seq<Node>, b: u8): Option<seq<bool>>
  {
    if nodes == [] then None
    else if nodes[0].value == Some(b) then Some(nodes[0].binary)
    else FirstEncoding(nodes[1..], b)
  }

  /**
    `find_encoding`: the node's own code when it carries `b`, else the left
    subtree's answer, else the right subtree's.
  */
  function FindEncoding(n: Node, b: u8): Option<seq<bool>>
  {
    if n.value == Some(b) then Some(n.binary)
    else
      var fromLeft := if n.left.Some? then FindEncoding(n.left.value, b) else None;
      if fromLeft.Some? then fromLeft
      else if n.right.Some? then FindEncoding(n.right.value, b)
      else None
  }

  lemma {:induction false} FirstEncodingAppend(xs: seq<Node>, ys: seq<Node>, b: u8)
    ensures FirstEncoding(xs + ys, b) ==
      if FirstEncoding(xs, b).Some? then FirstEncoding(xs, b) else FirstEncoding(ys, b)
  {
    if xs == [] {
      assert xs + ys == ys;
    } else {
      assert (xs + ys)[1..] == xs[1..] + ys;
      FirstEncodingAppend(xs[1..], ys, b);
    }
  }

  /** `find_encoding` answers with the code of the first pre-order node carrying the byte. */
  lemma {:induction false} FindEncodingIsFirstInPreOrder(n: Node, b: u8)
    ensures FindEncoding(n, b) == FirstEncoding(Flatten(n), b)
  {
    var l := if n.left.Some? then Flatten(n.left.value) else [];
    var r := if n.right.Some? then Flatten(n.right.value) else [];
    assert Flatten(n) == [n] + (l + r);
    assert Flatten(n)[1..] == l + r;
    if n.value != Some(b) {
      assert FirstEncoding(Flatten(n), b) == FirstEncoding(l + r, b);
      FirstEncodingAppend(l, r, b);
      if n.left.Some? { FindEncodingIsFirstInPreOrder(n.left.value, b); }
      if n.right.Some? { FindEncodingIsFirstInPreOrder(n.right.value, b); }
    }
  }

  /** `find_encoding` finds a code exactly for the symbols the tree carries. */
  lemma {:induction false} FindEncodingSomeIff(n: Node, b: u8)
    ensures FindEncoding(n, b).Some? <==> b in Values(n)
  {
    if n.left.Some? { FindEncodingSomeIff(n.left.value, b); }
    if n.right.Some? { FindEncodingSomeIff(n.right.value, b); }
  }

  // ---------------------------------------------------------------------------
  // Ordering (`Ord for HuffmanNode`)
  // ---------------------------------------------------------------------------

  function CompareNat(a: nat, b: nat): Ordering
  {
    if a < b then Less else if a == b then Equal else Greater
  }

  function CompareByte(a: u8, b: u8): Ordering
  {
    if a < b then Less else if a == b then Equal else Greater
  }

  /**
    `cmp`: two nodes with symbols compare by frequency and then by symbol;
    any other pair compares by frequency alone.
  */
  function Cmp(a: Node, b: Node): (r: Ordering)
    ensures a.value.Some? && b.value.Some? ==>
      (r == Less <==> a.frequency < b.frequency || (a.frequency == b.frequency && a.value.value < b.value.value)) &&
      (r == Equal <==> a.frequency == b.frequency && a.value == b.value)
    ensures !(a.value.Some? && b.value.Some?) ==>
      (r == Less <==> a.frequency < b.frequency) && (r == Equal <==> a.frequency == b.frequency)
  {
    match (a.value, b.value)
    case (Some(x), Some(y)) =>
      var byFrequency := CompareNat(a.frequency, b.frequency);
      if byFrequency == Equal then CompareByte(x, y) else byFrequency
    case _ => CompareNat(a.frequency, b.frequency)
  }

  /** Swapping the operands of `cmp` reverses the answer. */
  lemma CmpAntisymmetric(a: Node, b: Node)
    ensures Cmp(b, a) == Cmp(a, b).Reverse()
  {
  }

  /**
    `cmp` is not transitive once nodes with and without a symbol meet: two
    leaves of equal frequency that differ in symbol both compare equal to a
    node without a symbol of that frequency, yet not to each other.
  */
  lemma CmpNotTransitiveAcrossKinds()
    ensures var five := New(Some(5), 1, None, None);
            var noSymbol := New(None, 1, None, None);
            var three := New(Some(3), 1, None, None);
            Cmp(five, noSymbol) == Equal && Cmp(noSymbol, three) == Equal && Cmp(five, three) == Greater
  {
  }

  // ---------------------------------------------------------------------------
  // Tree header (`create_byte_vec_from`)
  // ---------------------------------------------------------------------------

  /** The 3-byte record of one node: a tag, the symbol or 0, and the code length as a `u8`. */
  function Record(n: Node): (r: seq<bv8>)
    ensures |r| == 3
    ensures r[0] == (if n.value.Some? then 0xFF else 0x00)
    ensures r[1] == (if n.value.Some? then n.value.value as bv8 else 0x00)
    ensures r[2] == (|n.binary| % 256) as bv8
  {
    var depth := (|n.binary| % 256) as bv8;
    if n.value.Some? then [0xFF, n.value.value as bv8, depth] else [0x00, 0x00, depth]
  }

  /** The records of all nodes, in order (the `flat_map` in `create_byte_vec_from`). */
  function TreeInfo(nodes: seq<Node>): (r: seq<bv8>)
    ensures |r| == 3 * |nodes|
  {
    if nodes == [] then [] else Record(nodes[0]) + TreeInfo(nodes[1..])
  }

  /**
    `create_byte_vec_from`: the records are built, but only their total
    length, truncated to a `u8`, is returned.
  */
  function CreateByteVecFrom(nodes: seq<Node>): (r: seq<bv8>)
    ensures |r| == 1 && r[0] == (3 * |nodes| % 256) as bv8
  {
    var info := TreeInfo(nodes);
    [(|info| % 256) as bv8]
  }
}
