/**
  The tree-building pipeline of src/huffman/mod.rs (`from_buffer`): count the
  bytes, order the counts, turn them into leaves, merge the leaves into one
  tree and assign codes.

  The order in which a Rust `HashMap` yields its entries is not specified; it
  is a parameter here (`iteration`, a repetition-free listing of the table's
  keys). Given that order the standard library's `sort_by`, a stable sort,
  fixes the ordered vector, so every later step is a function of the input
  and `iteration`.
*/
module HuffmanBuild {
  import opened Wrappers
  import opened HuffmanNode

  /** A `(symbol, count)` pair of the ordered frequency vector. */
  type Entry = (u8, nat)

  // ---------------------------------------------------------------------------
  // Frequency table (`create_frequency_table`)
  // ---------------------------------------------------------------------------

  /** The frequency table of a buffer: one entry per byte present, mapped to its number of occurrences. */
  function FrequencyTableOf(contents: seq<u8>): (table: map<u8, nat>)
    ensures forall b :: b in table <==> b in contents
    ensures forall b :: b in table ==> table[b] == multiset(contents)[b] && table[b] > 0
  {
    assert forall b :: b in contents ==> b in multiset(contents);
    map b | b in contents :: multiset(contents)[b]
  }

  /** Counting one more byte increments its entry, or creates it with count 1. */
  lemma FrequencyTableSnoc(s: seq<u8>, b: u8)
    ensures var t := FrequencyTableOf(s);
      FrequencyTableOf(s + [b]) == t[b := if b in t then t[b] + 1 else 1]
  {
    var t, t' := FrequencyTableOf(s), FrequencyTableOf(s + [b]);
    var u := t[b := if b in t then t[b] + 1 else 1];
    assert multiset(s + [b]) == multiset(s) + multiset{b};
    assert forall x :: x in s + [b] <==> x in s || x == b;
    assert t'.Keys == u.Keys;
    forall x | x in u ensures t'[x] == u[x] {
    }
  }

  /** `create_frequency_table`: one pass over the buffer, inserting 1 or incrementing. */
  method CreateFrequencyTable(contents: seq<u8>) returns (table: map<u8, nat>)
    ensures table == FrequencyTableOf(contents)
  {
    table := map[];
    for i := 0 to |contents|
      invariant table == FrequencyTableOf(contents[..i])
    {
      var b := contents[i];
      assert contents[..i + 1] == contents[..i] + [b];
      FrequencyTableSnoc(contents[..i], b);
      if b in table {
        table := table[b := table[b] + 1];
      } else {
        table := table[b := 1];
      }
    }
    assert contents[..|contents|] == contents;
  }

  /** Sum of the counts of a list of entries. */
  function SumCounts(entries: seq<Entry>): nat
  {
    if entries == [] then 0 else entries[0].1 + SumCounts(entries[1..])
  }

  /** No symbol occurs twice among the entries. */
  predicate DistinctKeys(entries: seq<Entry>)
  {
    forall i, j :: 0 <= i < j < |entries| ==> entries[i].0 != entries[j].0
  }

  lemma FirstTwoKeysDiffer(entries: seq<Entry>)
    requires DistinctKeys(entries)
    ensures |entries| > 1 ==> entries[0].0 != entries[1].0
  {
  }

  /** How many entries carry symbol `b`. */
  function KeyOccurrences(entries: seq<Entry>, b: u8): nat
  {
    if entries == [] then 0 else (if entries[0].0 == b then 1 else 0) + KeyOccurrences(entries[1..], b)
  }

  /** Sum, over the entries' symbols, of how often each occurs in `s`. */
  function CountsIn(entries: seq<Entry>, s: seq<u8>): nat
  {
    if entries == [] then 0 else multiset(s)[entries[0].0] + CountsIn(entries[1..], s)
  }

  lemma {:induction false} KeyOccurrencesOfDistinct(entries: seq<Entry>, b: u8)
    requires DistinctKeys(entries)
    ensures KeyOccurrences(entries, b) == if exists i :: 0 <= i < |entries| && entries[i].0 == b then 1 else 0
  {
    if entries != [] {
      KeyOccurrencesOfDistinct(entries[1..], b);
      if entries[0].0 == b {
        assert forall i :: 1 <= i < |entries| ==> entries[i].0 != b;
        assert !exists i :: 0 <= i < |entries[1..]| && entries[1..][i].0 == b by {
          forall i | 0 <= i < |entries[1..]| ensures entries[1..][i].0 != b {
            assert entries[1..][i] == entries[i + 1];
          }
        }
      } else {
        if exists i :: 0 <= i < |entries| && entries[i].0 == b {
          var i :| 0 <= i < |entries| && entries[i].0 == b;
          assert entries[1..][i - 1] == entries[i];
        }
      }
    }
  }

  lemma {:induction false} CountsInSnoc(entries: seq<Entry>, s: seq<u8>, x: u8)
    ensures CountsIn(entries, s + [x]) == CountsIn(entries, s) + KeyOccurrences(entries, x)
  {
    assert multiset(s + [x]) == multiset(s) + multiset{x};
    if entries != [] {
      CountsInSnoc(entries[1..], s, x);
    }
  }

  /** Over entries listing each symbol of `s` once, the counts in `s` add up to its length. */
  lemma {:induction false} CountsInCoveringEntries(entries: seq<Entry>, s: seq<u8>)
    requires DistinctKeys(entries)
    requires forall b :: b in s ==> exists i :: 0 <= i < |entries| && entries[i].0 == b
    ensures CountsIn(entries, s) == |s|
    decreases |s|
  {
    if s == [] {
      CountsInOfEmpty(entries);
    } else {
      var s', x := s[..|s| - 1], s[|s| - 1];
      assert s == s' + [x];
      assert forall b :: b in s' ==> b in s;
      assert x in s;
      CountsInCoveringEntries(entries, s');
      CountsInSnoc(entries, s', x);
      KeyOccurrencesOfDistinct(entries, x);
    }
  }

  lemma {:induction false} CountsInOfEmpty(entries: seq<Entry>)
    ensures CountsIn(entries, []) == 0
  {
    if entries != [] {
      CountsInOfEmpty(entries[1..]);
    }
  }

  lemma {:induction false} SumCountsIsCountsIn(entries: seq<Entry>, s: seq<u8>)
    requires forall i :: 0 <= i < |entries| ==> entries[i].1 == multiset(s)[entries[i].0]
    ensures SumCounts(entries) == CountsIn(entries, s)
  {
    if entries != [] {
      assert forall i :: 0 <= i < |entries[1..]| ==> entries[1..][i] == entries[i + 1];
      SumCountsIsCountsIn(entries[1..], s);
    }
  }

  /**
    The counts of a frequency table listed once per symbol add up to the
    length of the buffer the table was built from.
  */
  lemma FrequencyCountsSumToLength(contents: seq<u8>, entries: seq<Entry>)
    requires DistinctKeys(entries)
    requires forall i :: 0 <= i < |entries| ==>
      entries[i].0 in FrequencyTableOf(contents) && entries[i].1 == FrequencyTableOf(contents)[entries[i].0]
    requires forall b :: b in FrequencyTableOf(contents) ==> exists i :: 0 <= i < |entries| && entries[i].0 == b
    ensures SumCounts(entries) == |contents|
  {
    SumCountsIsCountsIn(entries, contents);
    CountsInCoveringEntries(entries, contents);
  }

  // ---------------------------------------------------------------------------
  // Ordering (`frequency_table_to_ordered_tuple_vec`)
  // ---------------------------------------------------------------------------

  /** `iteration` lists every key of `table` exactly once (a possible `HashMap` iteration order). */
  predicate IsKeyOrder(table: map<u8, nat>, iteration: seq<u8>)
  {
    (forall i, j :: 0 <= i < j < |iteration| ==> iteration[i] != iteration[j]) &&
    (forall b :: b in table ==> b in iteration) &&
    (forall b :: b in iteration ==> b in table)
  }

  /** The entries are non-decreasing by count. */
  predicate SortedByCount(entries: seq<Entry>)
  {
    forall i, j :: 0 <= i < j < |entries| ==> entries[i].1 <= entries[j].1
  }

  /** Inserts `e` before the first entry whose count is not smaller, keeping earlier entries first among equals. */
  function Insert(e: Entry, sorted: seq<Entry>): seq<Entry>
  {
    if sorted == [] || e.1 <= sorted[0].1 then [e] + sorted
    else [sorted[0]] + Insert(e, sorted[1..])
  }

  /** A stable sort by count (the comparator `|&(_, a), &(_, b)| a.cmp(&b)`). */
  function SortByCount(entries: seq<Entry>): seq<Entry>
  {
    if entries == [] then [] else Insert(entries[0], SortByCount(entries[1..]))
  }

  lemma {:induction false} InsertPermutes(e: Entry, sorted: seq<Entry>)
    ensures multiset(Insert(e, sorted)) == multiset(sorted) + multiset{e}
  {
    if sorted != [] && e.1 > sorted[0].1 {
      InsertPermutes(e, sorted[1..]);
      assert sorted == [sorted[0]] + sorted[1..];
    }
  }

  lemma {:induction false} InsertSorted(e: Entry, sorted: seq<Entry>)
    requires SortedByCount(sorted)
    ensures SortedByCount(Insert(e, sorted))
  {
    if sorted != [] && e.1 > sorted[0].1 {
      InsertSorted(e, sorted[1..]);
      InsertPermutes(e, sorted[1..]);
      var rest := Insert(e, sorted[1..]);
      forall x | x in rest ensures sorted[0].1 <= x.1 {
        assert x in multiset(rest);
        if x != e {
          assert x in sorted[1..];
        }
      }
    }
  }

  lemma {:induction false} InsertDistinct(e: Entry, sorted: seq<Entry>)
    requires DistinctKeys(sorted)
    requires forall x :: x in sorted ==> x.0 != e.0
    ensures DistinctKeys(Insert(e, sorted))
  {
    if sorted != [] && e.1 > sorted[0].1 {
      InsertDistinct(e, sorted[1..]);
      InsertPermutes(e, sorted[1..]);
      var rest := Insert(e, sorted[1..]);
      forall x | x in rest ensures x.0 != sorted[0].0 {
        assert x in multiset(rest);
        if x != e {
          var j :| 0 <= j < |sorted[1..]| && sorted[1..][j] == x;
          assert sorted[j + 1] == x;
        }
      }
    }
  }

  /** The sort permutes its input. */
  lemma {:induction false} SortByCountPermutes(entries: seq<Entry>)
    ensures multiset(SortByCount(entries)) == multiset(entries)
  {
    if entries != [] {
      SortByCountPermutes(entries[1..]);
      InsertPermutes(entries[0], SortByCount(entries[1..]));
      assert entries == [entries[0]] + entries[1..];
    }
  }

  /** The sort's output is ordered by count. */
  lemma {:induction false} SortByCountSorted(entries: seq<Entry>)
    ensures SortedByCount(SortByCount(entries))
  {
    if entries != [] {
      SortByCountSorted(entries[1..]);
      InsertSorted(entries[0], SortByCount(entries[1..]));
    }
  }

  /** The sort keeps symbols distinct. */
  lemma {:induction false} SortByCountDistinct(entries: seq<Entry>)
    requires DistinctKeys(entries)
    ensures DistinctKeys(SortByCount(entries))
  {
    if entries != [] {
      var rest := SortByCount(entries[1..]);
      assert DistinctKeys(entries[1..]) by {
        forall i, j | 0 <= i < j < |entries[1..]| ensures entries[1..][i].0 != entries[1..][j].0 {
          assert entries[1..][i] == entries[i + 1] && entries[1..][j] == entries[j + 1];
        }
      }
      SortByCountDistinct(entries[1..]);
      SortByCountPermutes(entries[1..]);
      forall x | x in rest ensures x.0 != entries[0].0 {
        assert x in multiset(rest);
        assert x in multiset(entries[1..]);
        var j :| 0 <= j < |entries[1..]| && entries[1..][j] == x;
        assert entries[j + 1] == x;
      }
      InsertDistinct(entries[0], rest);
    }
  }

  /** The table's entries in iteration order (`freq_table.into_iter().collect()`). */
  function Entries(table: map<u8, nat>, iteration: seq<u8>): (r: seq<Entry>)
    requires IsKeyOrder(table, iteration)
  {
    seq(|iteration|, i requires 0 <= i < |iteration| && iteration[i] in table => (iteration[i], table[iteration[i]]))
  }

  /**
    `frequency_table_to_ordered_tuple_vec`: every entry of the table exactly
    once, in non-decreasing order of count.
  */
  function OrderedVec(table: map<u8, nat>, iteration: seq<u8>): (r: seq<Entry>)
    requires IsKeyOrder(table, iteration)
    ensures |r| == |iteration|
    ensures SortedByCount(r)
    ensures DistinctKeys(r)
    ensures forall i :: 0 <= i < |r| ==> r[i].0 in table && r[i].1 == table[r[i].0]
    ensures forall b :: b in table ==> exists i :: 0 <= i < |r| && r[i].0 == b
  {
    var entries := Entries(table, iteration);
    var r := SortByCount(entries);
    SortByCountPermutes(entries);
    SortByCountSorted(entries);
    assert DistinctKeys(entries) by {
      forall i, j | 0 <= i < j < |entries| ensures entries[i].0 != entries[j].0 {
        assert entries[i].0 == iteration[i] && entries[j].0 == iteration[j];
      }
    }
    SortByCountDistinct(entries);
    assert |r| == |multiset(r)| == |multiset(entries)| == |entries|;
    assert forall x :: x in r <==> x in entries by {
      forall x ensures x in r <==> x in entries {
        assert x in r <==> x in multiset(r);
        assert x in entries <==> x in multiset(entries);
      }
    }
    forall i | 0 <= i < |r| ensures r[i].0 in table && r[i].1 == table[r[i].0] {
      assert r[i] in entries;
      var j :| 0 <= j < |entries| && entries[j] == r[i];
    }
    forall b | b in table ensures exists i :: 0 <= i < |r| && r[i].0 == b {
      var j :| 0 <= j < |iteration| && iteration[j] == b;
      assert entries[j] in r;
    }
    r
  }

  // ---------------------------------------------------------------------------
  // Leaves (`create_huffman_node_vec`)
  // ---------------------------------------------------------------------------

  /** One childless leaf per entry, in the same order. */
  function LeafNodes(ordered: seq<Entry>): (r: seq<Node>)
  {
    seq(|ordered|, i requires 0 <= i < |ordered| => New(Some(ordered[i].0), ordered[i].1, None, None))
  }

  /** `create_huffman_node_vec`: pushes one leaf per entry. */
  method CreateHuffmanNodeVec(ordered: seq<Entry>) returns (nodes: seq<Node>)
    ensures |nodes| == |ordered|
    ensures forall i :: 0 <= i < |ordered| ==>
      nodes[i].value == Some(ordered[i].0) && nodes[i].frequency == ordered[i].1 &&
      nodes[i].binary == [] && nodes[i].left.None? && nodes[i].right.None?
  {
    nodes := [];
    for i := 0 to |ordered|
      invariant |nodes| == i
      invariant forall k :: 0 <= k < i ==> nodes[k] == New(Some(ordered[k].0), ordered[k].1, None, None)
    {
      nodes := nodes + [New(Some(ordered[i].0), ordered[i].1, None, None)];
    }
  }

  // ---------------------------------------------------------------------------
  // Tree builder (`create_huffman_tree`)
  // ---------------------------------------------------------------------------

  /** Sum of the frequencies of a list of nodes. */
  function SumFrequencies(nodes: seq<Node>): nat
  {
    if nodes == [] then 0 else nodes[0].frequency + SumFrequencies(nodes[1..])
  }

  lemma {:induction false} SumFrequenciesAppend(xs: seq<Node>, ys: seq<Node>)
    ensures SumFrequencies(xs + ys) == SumFrequencies(xs) + SumFrequencies(ys)
  {
    if xs == [] {
      assert xs + ys == ys;
    } else {
      assert (xs + ys)[1..] == xs[1..] + ys;
      SumFrequenciesAppend(xs[1..], ys);
    }
  }

  /**
    One merge step: the first two nodes leave the list and a new node with
    them as left and right children, and their summed frequency, goes to the
    end. The list shrinks by one.
  */
  function Merge(nodes: seq<Node>): (r: seq<Node>)
    requires |nodes| >= 2
    ensures |r| == |nodes| - 1
    ensures r[..|nodes| - 2] == nodes[2..]
    ensures r[|nodes| - 2].left == Some(nodes[0]) && r[|nodes| - 2].right == Some(nodes[1])
    ensures r[|nodes| - 2].value.None? && r[|nodes| - 2].binary == []
    ensures r[|nodes| - 2].frequency == nodes[0].frequency + nodes[1].frequency
    ensures SumFrequencies(r) == SumFrequencies(nodes)
  {
    var merged := From(None, Some(nodes[0]), Some(nodes[1]));
    SumFrequenciesAppend(nodes[2..], [merged]);
    assert nodes == [nodes[0], nodes[1]] + nodes[2..];
    SumFrequenciesAppend([nodes[0], nodes[1]], nodes[2..]);
    nodes[2..] + [merged]
  }

  /**
    The tree `create_huffman_tree` returns: a valueless node of frequency 0
    for no nodes, the only node for one, and otherwise the tree of the list
    after one merge step. The root's frequency is the sum of the list's.
  */
  function BuildTree(nodes: seq<Node>): (root: Node)
    ensures root.frequency == SumFrequencies(nodes)
    ensures |nodes| == 0 ==> root == Node(None, [], 0, None, None)
    ensures |nodes| == 1 ==> root == nodes[0]
    decreases |nodes|
  {
    if |nodes| == 0 then New(None, 0, None, None)
    else if |nodes| == 1 then nodes[0]
    else BuildTree(Merge(nodes))
  }

  /** `create_huffman_tree`: its tail recursion, run as a loop over the owned list. */
  method CreateHuffmanTree(huffmanVec: seq<Node>) returns (root: Node)
    ensures root == BuildTree(huffmanVec)
  {
    var list := huffmanVec;
    while |list| > 1
      invariant BuildTree(list) == BuildTree(huffmanVec)
      decreases |list|
    {
      var leftChild := list[0];
      var rightChild := list[1];
      list := list[1..];
      list := list[1..];
      list := list + [From(None, Some(leftChild), Some(rightChild))];
      assert list == Merge([leftChild, rightChild] + list[..|list| - 1]);
    }
    if |list| == 0 {
      root := New(None, 0, None, None);
    } else {
      root := list[0];
    }
  }

  /** The childless nodes of every tree in a list, as a multiset. */
  function LeavesOfList(nodes: seq<Node>): multiset<Node>
  {
    if nodes == [] then multiset{} else multiset(Leaves(nodes[0])) + LeavesOfList(nodes[1..])
  }

  /** The symbols of every tree in a list. */
  function ValuesOfList(nodes: seq<Node>): set<u8>
  {
    if nodes == [] then {} else Values(nodes[0]) + ValuesOfList(nodes[1..])
  }

  lemma {:induction false} LeavesOfListAppend(xs: seq<Node>, ys: seq<Node>)
    ensures LeavesOfList(xs + ys) == LeavesOfList(xs) + LeavesOfList(ys)
  {
    if xs == [] {
      assert xs + ys == ys;
    } else {
      assert (xs + ys)[1..] == xs[1..] + ys;
      LeavesOfListAppend(xs[1..], ys);
    }
  }

  lemma {:induction false} ValuesOfListAppend(xs: seq<Node>, ys: seq<Node>)
    ensures ValuesOfList(xs + ys) == ValuesOfList(xs) + ValuesOfList(ys)
  {
    if xs == [] {
      assert xs + ys == ys;
    } else {
      assert (xs + ys)[1..] == xs[1..] + ys;
      ValuesOfListAppend(xs[1..], ys);
    }
  }

  lemma MergeKeepsLeaves(nodes: seq<Node>)
    requires |nodes| >= 2
    ensures LeavesOfList(Merge(nodes)) == LeavesOfList(nodes)
  {
    var merged := From(None, Some(nodes[0]), Some(nodes[1]));
    var rest := nodes[2..];
    assert Merge(nodes) == rest + [merged];
    LeavesOfListAppend(rest, [merged]);
    assert LeavesOfList([merged]) == multiset(Leaves(merged)) by {
      assert [merged][1..] == [];
    }
    assert Leaves(merged) == Leaves(nodes[0]) + Leaves(nodes[1]);
    assert LeavesOfList(nodes[1..]) == multiset(Leaves(nodes[1])) + LeavesOfList(rest) by {
      assert nodes[1..][1..] == rest;
    }
  }

  lemma MergeKeepsValues(nodes: seq<Node>)
    requires |nodes| >= 2
    ensures ValuesOfList(Merge(nodes)) == ValuesOfList(nodes)
  {
    var merged := From(None, Some(nodes[0]), Some(nodes[1]));
    var rest := nodes[2..];
    assert Merge(nodes) == rest + [merged];
    ValuesOfListAppend(rest, [merged]);
    ValuesOfSingleton(merged);
    ValuesOfListFront(nodes);
  }

  lemma ValuesOfSingleton(n: Node)
    ensures ValuesOfList([n]) == Values(n)
  {
    assert [n][1..] == [];
  }

  lemma ValuesOfListFront(nodes: seq<Node>)
    requires |nodes| >= 2
    ensures ValuesOfList(nodes) == Values(nodes[0]) + Values(nodes[1]) + ValuesOfList(nodes[2..])
  {
    assert nodes[1..][1..] == nodes[2..];
  }

  /**
    Building never loses or invents a leaf: the childless nodes of the built
    tree are exactly those of the input trees, each with its frequency.
  */
  lemma {:induction false} BuildTreeLeaves(nodes: seq<Node>)
    requires |nodes| > 0
    ensures multiset(Leaves(BuildTree(nodes))) == LeavesOfList(nodes)
    ensures Values(BuildTree(nodes)) == ValuesOfList(nodes)
    decreases |nodes|
  {
    if |nodes| == 1 {
      assert nodes[1..] == [];
    } else {
      MergeKeepsLeaves(nodes);
      MergeKeepsValues(nodes);
      BuildTreeLeaves(Merge(nodes));
    }
  }

  /** A list of childless nodes contributes itself as its leaves. */
  lemma {:induction false} LeavesOfChildless(nodes: seq<Node>)
    requires forall i :: 0 <= i < |nodes| ==> nodes[i].left.None? && nodes[i].right.None?
    ensures LeavesOfList(nodes) == multiset(nodes)
  {
    if nodes != [] {
      LeavesOfChildless(nodes[1..]);
      assert nodes == [nodes[0]] + nodes[1..];
    }
  }

  /** Every node in the tree still has an empty code. */
  predicate Uncoded(n: Node)
  {
    n.binary == []
      && (n.left.Some? ==> Uncoded(n.left.value))
      && (n.right.Some? ==> Uncoded(n.right.value))
  }

  /** Merging full, uncoded trees yields a full, uncoded tree. */
  lemma {:induction false} BuildTreeFull(nodes: seq<Node>)
    requires |nodes| > 0
    requires forall i :: 0 <= i < |nodes| ==> Full(nodes[i]) && Uncoded(nodes[i])
    ensures Full(BuildTree(nodes)) && Uncoded(BuildTree(nodes))
    decreases |nodes|
  {
    if |nodes| > 1 {
      var r := Merge(nodes);
      forall i | 0 <= i < |r| ensures Full(r[i]) && Uncoded(r[i]) {
        if i < |nodes| - 2 {
          assert r[i] == r[..|nodes| - 2][i] == nodes[i + 2];
        }
      }
      BuildTreeFull(r);
    }
  }

  /** Total number of nodes in a list of trees. */
  function SumSizes(nodes: seq<Node>): nat
  {
    if nodes == [] then 0 else Size(nodes[0]) + SumSizes(nodes[1..])
  }

  lemma {:induction false} SumSizesAppend(xs: seq<Node>, ys: seq<Node>)
    ensures SumSizes(xs + ys) == SumSizes(xs) + SumSizes(ys)
  {
    if xs == [] {
      assert xs + ys == ys;
    } else {
      assert (xs + ys)[1..] == xs[1..] + ys;
      SumSizesAppend(xs[1..], ys);
    }
  }

  /** Each merge adds exactly one node, so a tree built from `n` trees has `n - 1` nodes more than they had. */
  lemma {:induction false} BuildTreeSize(nodes: seq<Node>)
    requires |nodes| > 0
    ensures Size(BuildTree(nodes)) + 1 == SumSizes(nodes) + |nodes|
    decreases |nodes|
  {
    if |nodes| == 1 {
      assert nodes[1..] == [];
    } else {
      var merged := From(None, Some(nodes[0]), Some(nodes[1]));
      assert Merge(nodes) == nodes[2..] + [merged];
      SumSizesAppend(nodes[2..], [merged]);
      assert [merged][1..] == [];
      assert nodes[1..][1..] == nodes[2..];
      BuildTreeSize(Merge(nodes));
    }
  }

  lemma {:induction false} LeafSizes(ordered: seq<Entry>)
    ensures SumSizes(LeafNodes(ordered)) == |ordered|
  {
    if ordered != [] {
      assert LeafNodes(ordered)[1..] == LeafNodes(ordered[1..]);
      LeafSizes(ordered[1..]);
    }
  }

  // ---------------------------------------------------------------------------
  // `from_buffer`
  // ---------------------------------------------------------------------------

  /** `iteration` is an order in which the frequency table of `contents` can yield its keys. */
  predicate IsIterationOrder(contents: seq<u8>, iteration: seq<u8>)
  {
    IsKeyOrder(FrequencyTableOf(contents), iteration)
  }

  /** The merged tree before codes are assigned. */
  function UncodedTree(contents: seq<u8>, iteration: seq<u8>): Node
    requires IsIterationOrder(contents, iteration)
  {
    BuildTree(LeafNodes(OrderedVec(FrequencyTableOf(contents), iteration)))
  }

  /** The tree `from_buffer` returns. */
  function HuffmanTree(contents: seq<u8>, iteration: seq<u8>): Node
    requires IsIterationOrder(contents, iteration)
  {
    AssignBinary(UncodedTree(contents, iteration), [])
  }

  /** `from_buffer`: frequency table, ordered vector, leaves, merged tree, codes from an empty prefix. */
  method FromBuffer(buffer: seq<u8>, iteration: seq<u8>) returns (tree: Node)
    requires IsIterationOrder(buffer, iteration)
    ensures tree == HuffmanTree(buffer, iteration)
  {
    var freqTable := CreateFrequencyTable(buffer);
    var freqVec := OrderedVec(freqTable, iteration);
    var huffmanVec := CreateHuffmanNodeVec(freqVec);
    assert huffmanVec == LeafNodes(freqVec);
    var huffmanTree := CreateHuffmanTree(huffmanVec);
    tree := AssignBinary(huffmanTree, []);
  }

  /** The root of the built tree weighs as much as the whole buffer. */
  lemma HuffmanTreeFrequency(contents: seq<u8>, iteration: seq<u8>)
    requires IsIterationOrder(contents, iteration)
    ensures HuffmanTree(contents, iteration).frequency == |contents|
  {
    var ordered := OrderedVec(FrequencyTableOf(contents), iteration);
    FrequencyCountsSumToLength(contents, ordered);
    LeafSums(ordered);
  }

  lemma {:induction false} LeafSums(ordered: seq<Entry>)
    ensures SumFrequencies(LeafNodes(ordered)) == SumCounts(ordered)
  {
    if ordered != [] {
      assert LeafNodes(ordered)[1..] == LeafNodes(ordered[1..]);
      LeafSums(ordered[1..]);
    }
  }

  /** The leaves of the built tree are exactly the table's leaves: one per distinct byte, weighted by its count. */
  lemma HuffmanTreeLeaves(contents: seq<u8>, iteration: seq<u8>)
    requires IsIterationOrder(contents, iteration)
    requires |contents| > 0
    ensures var ordered := OrderedVec(FrequencyTableOf(contents), iteration);
      multiset(Leaves(UncodedTree(contents, iteration))) == multiset(LeafNodes(ordered))
  {
    var ordered := OrderedVec(FrequencyTableOf(contents), iteration);
    assert contents[0] in FrequencyTableOf(contents);
    LeavesOfChildless(LeafNodes(ordered));
    BuildTreeLeaves(LeafNodes(ordered));
  }

  lemma {:induction false} ValuesOfLeafNodes(ordered: seq<Entry>)
    ensures ValuesOfList(LeafNodes(ordered)) == set i | 0 <= i < |ordered| :: ordered[i].0
  {
    if ordered != [] {
      assert LeafNodes(ordered)[1..] == LeafNodes(ordered[1..]);
      ValuesOfLeafNodes(ordered[1..]);
      var s := set i | 0 <= i < |ordered| :: ordered[i].0;
      var s' := set i | 0 <= i < |ordered[1..]| :: ordered[1..][i].0;
      assert s == {ordered[0].0} + s' by {
        forall b | b in s ensures b in {ordered[0].0} + s' {
          var i :| 0 <= i < |ordered| && ordered[i].0 == b;
          if i > 0 { assert ordered[1..][i - 1].0 == b; }
        }
      }
    }
  }

  /** The built tree carries exactly the bytes that occur in the buffer. */
  lemma HuffmanTreeValues(contents: seq<u8>, iteration: seq<u8>)
    requires IsIterationOrder(contents, iteration)
    ensures forall b :: b in Values(HuffmanTree(contents, iteration)) <==> b in contents
  {
    var ordered := OrderedVec(FrequencyTableOf(contents), iteration);
    AssignBinaryValues(UncodedTree(contents, iteration), []);
    if |contents| > 0 {
      assert contents[0] in FrequencyTableOf(contents);
      BuildTreeLeaves(LeafNodes(ordered));
      ValuesOfLeafNodes(ordered);
    }
  }

  /** `find_encoding` on the built tree finds a code for a byte exactly when the byte occurs in the buffer. */
  lemma HuffmanTreeEncodes(contents: seq<u8>, iteration: seq<u8>)
    requires IsIterationOrder(contents, iteration)
    ensures forall b :: FindEncoding(HuffmanTree(contents, iteration), b).Some? <==> b in contents
  {
    HuffmanTreeValues(contents, iteration);
    forall b ensures FindEncoding(HuffmanTree(contents, iteration), b).Some? <==> b in contents {
      FindEncodingSomeIff(HuffmanTree(contents, iteration), b);
    }
  }

  /**
    The codes of the built tree: the symbol node at the end of a path keeps
    its symbol and frequency and gets the code `QuirkCode(path)`, so a left
    step contributes `0` and a right step `01`.
  */
  lemma HuffmanTreeCodes(contents: seq<u8>, iteration: seq<u8>, path: seq<bool>)
    requires IsIterationOrder(contents, iteration)
    requires At(UncodedTree(contents, iteration), path).Some?
    requires At(UncodedTree(contents, iteration), path).value.value.Some?
    ensures At(HuffmanTree(contents, iteration), path).Some?
    ensures var m, m' := At(UncodedTree(contents, iteration), path).value, At(HuffmanTree(contents, iteration), path).value;
      m'.value == m.value && m'.frequency == m.frequency && m'.binary == QuirkCode(path)
  {
    var leaves := LeafNodes(OrderedVec(FrequencyTableOf(contents), iteration));
    var t := UncodedTree(contents, iteration);
    if |leaves| == 0 {
      assert false;
    }
    BuildTreeFull(leaves);
    FullTreePathCode(t, path);
    AssignBinaryAt(t, [], path);
    UncodedAt(t, path);
  }

  lemma {:induction false} UncodedAt(n: Node, path: seq<bool>)
    requires Uncoded(n) && At(n, path).Some?
    ensures At(n, path).value.binary == []
    decreases |path|
  {
    if path != [] {
      UncodedAt(Child(n, path[0]).value, path[1..]);
    }
  }

  /** A non-empty buffer with `d` distinct bytes gives a tree of `2 * d - 1` nodes. */
  lemma HuffmanTreeSize(contents: seq<u8>, iteration: seq<u8>)
    requires IsIterationOrder(contents, iteration)
    requires |contents| > 0
    ensures Size(HuffmanTree(contents, iteration)) == 2 * |iteration| - 1
  {
    var ordered := OrderedVec(FrequencyTableOf(contents), iteration);
    assert contents[0] in FrequencyTableOf(contents);
    BuildTreeSize(LeafNodes(ordered));
    LeafSizes(ordered);
    AssignBinarySize(UncodedTree(contents, iteration), []);
  }

  /**
    A buffer with at most one distinct byte: the tree is the lone leaf (or
    the empty node), never wrapped, so its code is empty.
  */
  lemma HuffmanTreeOfOneSymbol(contents: seq<u8>, iteration: seq<u8>)
    requires IsIterationOrder(contents, iteration)
    requires forall i :: 0 <= i < |contents| ==> contents[i] == contents[0]
    ensures |contents| == 0 ==> HuffmanTree(contents, iteration) == Node(None, [], 0, None, None)
    ensures |contents| > 0 ==> HuffmanTree(contents, iteration) == Node(Some(contents[0]), [], |contents|, None, None)
  {
    var table := FrequencyTableOf(contents);
    var ordered := OrderedVec(table, iteration);
    if |contents| > 0 {
      var b := contents[0];
      assert forall x :: x in table ==> x == b;
      assert b in table;
      assert exists i :: 0 <= i < |ordered| && ordered[i].0 == b;
      FirstTwoKeysDiffer(ordered);
      RepeatedCount(contents, b);
      assert LeafNodes(ordered) == [New(Some(b), |contents|, None, None)];
    }
  }

  lemma {:induction false} RepeatedCount(s: seq<u8>, b: u8)
    requires forall i :: 0 <= i < |s| ==> s[i] == b
    ensures multiset(s)[b] == |s|
  {
    if s != [] {
      assert s == [b] + s[1..];
      RepeatedCount(s[1..], b);
    }
  }
}
