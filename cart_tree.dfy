/**
 * Breadth-first growth of the decision tree (tree-based/cart.py:68-114).
 *
 * Nodes are heap objects whose child links are assigned by `SplitNode`. `Fit` keeps,
 * next to the objects, a ghost picture of the tree in breadth-first order: node `j`
 * has its children at positions `2j + 1` and `2j + 2`, so level `d` occupies positions
 * `2^d - 1` up to `2^(d+1) - 1`.
 */
module CartTree {
  import opened Wrappers
  import opened Rows
  import opened Cart

  /** Why `_split_node` or `fit` raises instead of returning. */
  datatype TreeError =
    | NoEligibleColumn   // IndexError: every feature column is ignored (cart.py:65)
    | NoThreshold        // TypeError: the best column of a non-empty node has `split_value None` (cart.py:92)
    | DepthBelowOne      // AssertionError (cart.py:101)
    | RootAlreadySplit   // AssertionError (cart.py:102)

  /** `None` and the empty list both mean "ignore nothing" (`if ignore_cols`). */
  function Ignored(ignore: Option<seq<nat>>): seq<nat>
  {
    match ignore
    case None => []
    case Some(cols) => cols
  }

  /** The data a node holds: its array and its `used_columns`. */
  datatype NodeData = NodeData(arr: Table, usedColumns: Option<seq<nat>>)

  /** The left child: rows with value at most the threshold, ignoring the parent's columns and `col`. */
  function LeftChild(d: NodeData, sp: Splitter): NodeData
    requires sp.splitValue.Some?
  {
    NodeData(Table(Filter(d.arr.rows, sp.columnIndex, sp.splitValue.value, Left), d.arr.width),
             Some(Ignored(d.usedColumns) + [sp.columnIndex]))
  }

  /** The right child: rows above the threshold, ignoring only `col`. */
  function RightChild(d: NodeData, sp: Splitter): NodeData
    requires sp.splitValue.Some?
  {
    NodeData(Table(Filter(d.arr.rows, sp.columnIndex, sp.splitValue.value, Right), d.arr.width),
             Some([sp.columnIndex]))
  }

  /** `DecisionTreeNode`: a dataclass whose fields `_split_node` and `fit` assign. */
  class Node {
    var childLeft: Node?
    var childRight: Node?
    var usedColumns: Option<seq<nat>>
    var arr: Option<Table>

    constructor (usedColumns: Option<seq<nat>>, arr: Option<Table>)
      ensures childLeft == null && childRight == null
      ensures this.usedColumns == usedColumns && this.arr == arr
    {
      childLeft := null;
      childRight := null;
      this.usedColumns := usedColumns;
      this.arr := arr;
    }
  }

  /** `n` is an unsplit node holding `d`. */
  ghost predicate IsLeaf(n: Node, d: NodeData)
    reads n
  {
    n.childLeft == null && n.childRight == null &&
    n.arr == Some(d.arr) && n.usedColumns == d.usedColumns
  }

  /**
   * `_split_node` can split a node holding `d`: some feature column is eligible, so
   * `sorted(...)[0]` exists, and the best splitter it picks has a threshold.
   */
  ghost predicate Usable(d: NodeData)
  {
    exists sp :: IsBestSplitter(d.arr, Ignored(d.usedColumns), sp) && sp.splitValue.Some?
  }

  /**
   * Once `get_best_splitter` has chosen `sp`, whether the node can be split is decided by
   * `sp`'s threshold alone; with no eligible column there is no best splitter at all.
   */
  lemma Decided(d: NodeData, sp: Splitter)
    requires WellFormed(d.arr) && IsBestSplitter(d.arr, Ignored(d.usedColumns), sp)
    ensures Usable(d) <==> sp.splitValue.Some?
    ensures (exists sp' :: IsBestSplitter(d.arr, Ignored(d.usedColumns), sp') && sp'.splitValue.None?) <==> sp.splitValue.None?
  {
    forall sp' | IsBestSplitter(d.arr, Ignored(d.usedColumns), sp')
      ensures sp' == sp
    {
      BestSplitterUnique(d.arr, Ignored(d.usedColumns), sp', sp);
    }
  }

  /** Every node split so far in the picture had a usable split. */
  lemma SplitNodesUsable(data: seq<NodeData>, splitters: seq<Splitter>, m: nat)
    requires Grown(data, splitters, m)
    ensures forall j :: 0 <= j < m ==> Usable(data[j])
  {
    forall j | 0 <= j < m
      ensures Usable(data[j])
    {
      assert SplitAt(data, splitters, j);
    }
  }

  /**
   * A split node's two children partition its rows: every row goes to exactly one
   * side, and both sides are non-empty and well formed (cart.py:86-96).
   */
  lemma SplitPartition(d: NodeData, sp: Splitter)
    requires WellFormed(d.arr) && IsBestSplitter(d.arr, Ignored(d.usedColumns), sp) && sp.splitValue.Some?
    ensures multiset(LeftChild(d, sp).arr.rows) + multiset(RightChild(d, sp).arr.rows) == multiset(d.arr.rows)
    ensures |LeftChild(d, sp).arr.rows| > 0 && |RightChild(d, sp).arr.rows| > 0
    ensures WellFormed(LeftChild(d, sp).arr) && WellFormed(RightChild(d, sp).arr)
  {
    var rows, col, v := d.arr.rows, sp.columnIndex, sp.splitValue.value;
    FilterPartition(rows, col, v);
    FilterWellFormed(rows, col, v, Left, d.arr.width);
    FilterWellFormed(rows, col, v, Right, d.arr.width);
    var s := SortByColumn(rows, col);
    SplitIsSortedPrefix(d, sp, s);
    assert |multiset(s[..|LeftChild(d, sp).arr.rows|])| > 0;
    assert |multiset(s[|LeftChild(d, sp).arr.rows|..])| > 0;
  }

  /**
   * In any ordering of the rows by the split column, the left child holds the rows up to
   * the chosen boundary and the right child the rest (cart.py:39, 61, 92, 96).
   */
  lemma SplitIsSortedPrefix(d: NodeData, sp: Splitter, s: seq<Row>)
    requires WellFormed(d.arr) && IsBestSplitter(d.arr, Ignored(d.usedColumns), sp) && sp.splitValue.Some?
    requires IsSortedPermutation(s, d.arr.rows, sp.columnIndex)
    ensures 0 < |LeftChild(d, sp).arr.rows| < |s|
    ensures multiset(LeftChild(d, sp).arr.rows) == multiset(s[..|LeftChild(d, sp).arr.rows|])
    ensures multiset(RightChild(d, sp).arr.rows) == multiset(s[|LeftChild(d, sp).arr.rows|..])
  {
    assert ColumnOutcome(d.arr.rows, sp.columnIndex, sp.splitValue, sp.costComplexity);
    SortedSplit(d.arr.rows, s, sp.columnIndex, sp.splitValue, sp.costComplexity);
  }

  /** A column outcome with a threshold splits every sorted ordering at its chosen boundary. */
  lemma SortedSplit(rows: seq<Row>, s: seq<Row>, col: nat, split: Option<real>, cost: real)
    requires IsSortedPermutation(s, rows, col) && ColumnOutcome(rows, col, split, cost) && split.Some?
    ensures 0 < |Filter(rows, col, split.value, Left)| < |s|
    ensures multiset(Filter(rows, col, split.value, Left)) == multiset(s[..|Filter(rows, col, split.value, Left)|])
    ensures multiset(Filter(rows, col, split.value, Right)) == multiset(s[|Filter(rows, col, split.value, Left)|..])
  {
    var i := ChosenBoundary(s, col, split.value, cost);
    SplitAtBoundary(rows, s, col, i);
    assert |Filter(rows, col, split.value, Left)| == i + 1;
  }

  /** The masks at the midpoint of boundary `i` select, from the unsorted rows, the sorted prefix and the rest. */
  lemma SplitAtBoundary(rows: seq<Row>, s: seq<Row>, col: nat, i: nat)
    requires IsSortedPermutation(s, rows, col) && IsBoundary(s, col, i)
    ensures var v := Midpoint(s[i][col], s[i + 1][col]);
      |Filter(rows, col, v, Left)| == i + 1 &&
      multiset(Filter(rows, col, v, Left)) == multiset(s[..i + 1]) &&
      multiset(Filter(rows, col, v, Right)) == multiset(s[i + 1..])
  {
    var v := Midpoint(s[i][col], s[i + 1][col]);
    MidpointSeparates(s, col, i);
    FilterPermutation(s, rows, col, v, Left);
    FilterPermutation(s, rows, col, v, Right);
    assert |Filter(rows, col, v, Left)| == |multiset(s[..i + 1])|;
  }

  /**
   * A left child never splits on a column its parent ignored or split on; a right child
   * only avoids its parent's column, since its `used_columns` is `[col]` alone.
   */
  lemma ChildColumns(d: NodeData, sp: Splitter, left: Splitter, right: Splitter)
    requires sp.splitValue.Some?
    requires IsBestSplitter(LeftChild(d, sp).arr, Ignored(LeftChild(d, sp).usedColumns), left)
    requires IsBestSplitter(RightChild(d, sp).arr, Ignored(RightChild(d, sp).usedColumns), right)
    ensures left.columnIndex !in Ignored(d.usedColumns) && left.columnIndex != sp.columnIndex
    ensures right.columnIndex != sp.columnIndex
  {
  }

  function Pow2(d: nat): (p: nat)
    ensures p >= 1
  {
    if d == 0 then 1 else 2 * Pow2(d - 1)
  }

  lemma {:induction false} Pow2Monotone(d: nat, e: nat)
    requires d <= e
    ensures Pow2(d) <= Pow2(e)
    decreases e
  {
    if d < e {
      Pow2Monotone(d, e - 1);
    }
  }

  /**
   * The ghost picture of a tree whose first `m` nodes (in breadth-first order) are split:
   * the root holds a well-formed array, and each split is as `SplitAt` says.
   */
  ghost predicate Grown(data: seq<NodeData>, splitters: seq<Splitter>, m: nat)
  {
    |splitters| == m && |data| == 2 * m + 1 && WellFormed(data[0].arr) &&
    forall j :: 0 <= j < m ==> SplitAt(data, splitters, j)
  }

  /** Split `j` used a threshold, chose the best splitter for node `j`, and put its children at `2j + 1` and `2j + 2`. */
  ghost predicate SplitAt(data: seq<NodeData>, splitters: seq<Splitter>, j: nat)
    requires j < |splitters| && 2 * j + 2 < |data|
  {
    splitters[j].splitValue.Some? &&
    IsBestSplitter(data[j].arr, Ignored(data[j].usedColumns), splitters[j]) &&
    data[2 * j + 1] == LeftChild(data[j], splitters[j]) &&
    data[2 * j + 2] == RightChild(data[j], splitters[j])
  }

  /** Every node of the picture holds a well-formed array: the children of a well-formed node are. */
  lemma {:induction false} GrownWellFormed(data: seq<NodeData>, splitters: seq<Splitter>, m: nat, j: nat)
    requires Grown(data, splitters, m) && j < |data|
    ensures WellFormed(data[j].arr)
    decreases j
  {
    if j > 0 {
      var p := (j - 1) / 2;
      GrownWellFormed(data, splitters, m, p);
      assert SplitAt(data, splitters, p);
      SplitPartition(data[p], splitters[p]);
    }
  }

  /** Child `side` (1 for left, 2 for right) of position `j` when the first `m` positions are split. */
  function Kid(nodes: seq<Node>, m: nat, j: nat, side: nat): Node?
    requires j < |nodes| && 2 * m + 1 <= |nodes| && 1 <= side <= 2
  {
    if j < m then nodes[2 * j + side] else null
  }

  /**
   * Position `j` of the heap agrees with the picture: the node holds `data[j]` and is
   * linked to its children if it is among the first `m`, unsplit otherwise. The root is
   * split with `ignore_cols` left at `None`, whatever its own `used_columns` field holds.
   */
  ghost predicate Holds(nodes: seq<Node>, data: seq<NodeData>, m: nat, j: nat)
    requires j < |nodes| == |data| && 2 * m + 1 <= |nodes|
    reads nodes[j]
  {
    nodes[j].arr == Some(data[j].arr) && (j == 0 || nodes[j].usedColumns == data[j].usedColumns) &&
    nodes[j].childLeft == Kid(nodes, m, j, 1) && nodes[j].childRight == Kid(nodes, m, j, 2)
  }

  ghost predicate Distinct(nodes: seq<Node>)
  {
    forall i, j :: 0 <= i < j < |nodes| ==> nodes[i] != nodes[j]
  }

  /** The heap agrees with the ghost picture, position by position, with distinct node objects. */
  ghost predicate Mirrors(nodes: seq<Node>, data: seq<NodeData>, m: nat)
    reads nodes
  {
    |nodes| == |data| && |data| >= 2 * m + 1 && Distinct(nodes) &&
    forall j :: 0 <= j < |nodes| ==> Holds(nodes, data, m, j)
  }

  /** `DecisionTree`: the root node and, as ghost state, the breadth-first picture `fit` builds. */
  class DecisionTree {
    var root: Node
    ghost var nodes: seq<Node>
    ghost var data: seq<NodeData>
    ghost var splitters: seq<Splitter>

    /** The nodes split so far are the first `|splitters|`; the rest form the frontier. */
    ghost predicate Valid()
      reads this, nodes
    {
      Grown(data, splitters, |splitters|) && Mirrors(nodes, data, |splitters|)
    }

    constructor ()
      ensures fresh(root) && root.childLeft == null && root.childRight == null
      ensures root.usedColumns == None && root.arr == None
    {
      root := new Node(None, None);
      nodes, data, splitters := [], [], [];
    }

    /**
     * `_split_node(arr, node, ignore_cols)` on the first unsplit node: give it two fresh
     * children holding the rows on either side of the best threshold, and record them at
     * the end of the breadth-first picture. Returns the splitter it used, which the
     * source discards. On an error nothing has been assigned yet.
     */
    method SplitNode(arr: Table, node: Node, ignore: Option<seq<nat>>) returns (r: Result<Splitter, TreeError>)
      requires Valid() && node == nodes[|splitters|]
      requires arr == data[|splitters|].arr && ignore == data[|splitters|].usedColumns
      modifies this, node
      ensures root == old(root)
      ensures node.arr == old(node.arr) && node.usedColumns == old(node.usedColumns)
      ensures r == Err(NoEligibleColumn) <==> forall c :: 0 <= c < arr.width - 1 ==> c in Ignored(ignore)
      ensures r == Err(NoThreshold) <==> exists sp :: IsBestSplitter(arr, Ignored(ignore), sp) && sp.splitValue.None?
      ensures r.Err? ==> r.error == NoEligibleColumn || r.error == NoThreshold
      ensures r.Ok? <==> Usable(NodeData(arr, ignore))
      ensures r.Err? ==> unchanged(this, node)
      ensures r.Ok? ==>
        IsBestSplitter(arr, Ignored(ignore), r.value) && r.value.splitValue.Some? &&
        fresh(node.childLeft) && fresh(node.childRight) && node.childLeft != node.childRight &&
        IsLeaf(node.childLeft, LeftChild(NodeData(arr, ignore), r.value)) &&
        IsLeaf(node.childRight, RightChild(NodeData(arr, ignore), r.value)) &&
        Valid() && nodes == old(nodes) + [node.childLeft, node.childRight] &&
        data == old(data) + [LeftChild(NodeData(arr, ignore), r.value), RightChild(NodeData(arr, ignore), r.value)] &&
        splitters == old(splitters) + [r.value]
    {
      GrownWellFormed(data, splitters, |splitters|, |splitters|);
      var best := GetBestSplitter(arr, Ignored(ignore));
      if best.Err? {
        return Err(NoEligibleColumn);
      }
      var s := best.value;
      Decided(NodeData(arr, ignore), s);
      if s.splitValue.None? {
        return Err(NoThreshold);
      }
      var usedColumns := [s.columnIndex];
      if ignore.Some? && ignore.value != [] {
        usedColumns := ignore.value + usedColumns;
      }
      assert usedColumns == Ignored(ignore) + [s.columnIndex];
      var v := s.splitValue.value;
      var left := Table(Filter(arr.rows, s.columnIndex, v, Left), arr.width);
      var right := Table(Filter(arr.rows, s.columnIndex, v, Right), arr.width);
      ghost var d := NodeData(arr, ignore);
      assert NodeData(left, Some(usedColumns)) == LeftChild(d, s);
      assert NodeData(right, Some([s.columnIndex])) == RightChild(d, s);
      ghost var data0, splitters0 := data, splitters;
      Attach(node, left, Some(usedColumns), right, Some([s.columnIndex]));
      splitters := splitters + [s];
      Extend(data0, splitters0, |splitters0|, s);
      r := Ok(s);
    }

    /**
     * Links `node`, the first unsplit node, to two fresh unsplit children holding `left`
     * and `right`, and records them at the end of the breadth-first picture.
     */
    method Attach(node: Node, left: Table, leftColumns: Option<seq<nat>>, right: Table, rightColumns: Option<seq<nat>>)
      requires Mirrors(nodes, data, |splitters|) && |data| == 2 * |splitters| + 1 && node == nodes[|splitters|]
      modifies this, node
      ensures root == old(root) && splitters == old(splitters)
      ensures node.arr == old(node.arr) && node.usedColumns == old(node.usedColumns)
      ensures fresh(node.childLeft) && fresh(node.childRight) && node.childLeft != node.childRight
      ensures IsLeaf(node.childLeft, NodeData(left, leftColumns)) && IsLeaf(node.childRight, NodeData(right, rightColumns))
      ensures nodes == old(nodes) + [node.childLeft, node.childRight]
      ensures data == old(data) + [NodeData(left, leftColumns), NodeData(right, rightColumns)]
      ensures Mirrors(nodes, data, |splitters| + 1)
    {
      node.childLeft := new Node(leftColumns, Some(left));
      node.childRight := new Node(rightColumns, Some(right));
      ghost var m := |splitters|;
      ghost var nodes0, data0 := nodes, data;
      nodes := nodes + [node.childLeft, node.childRight];
      data := data + [NodeData(left, leftColumns), NodeData(right, rightColumns)];
      ghost var m' := m + 1;
      forall j | 0 <= j < |nodes|
        ensures Holds(nodes, data, m', j)
      {
        if j == m {
          assert old(Holds(nodes0, data0, m, j));
        } else if j < |nodes0| {
          assert nodes0[j] != node && nodes[j] == nodes0[j] && data[j] == data0[j];
          assert old(Holds(nodes0, data0, m, j));
        }
      }
      assert Distinct(nodes);
    }

    /** `_split_node(arr, self.root)`: the first split of `fit`, with `ignore_cols` left at `None`. */
    method SplitRoot(t: Table) returns (r: Result<(), TreeError>)
      requires Valid() && nodes == [root] && data == [NodeData(t, None)] && splitters == []
      modifies this, root
      ensures root == old(root) && Valid()
      ensures r.Ok? <==> Usable(NodeData(t, None))
      ensures r.Err? ==>
        (r.error == NoEligibleColumn || r.error == NoThreshold) &&
        nodes == old(nodes) && data == old(data) && splitters == old(splitters)
      ensures r.Ok? ==>
        nodes == [root, root.childLeft, root.childRight] && fresh(root.childLeft) && fresh(root.childRight) &&
        data[0] == NodeData(t, None) && |splitters| == 1
    {
      var res := SplitNode(t, root, None);
      if res.Err? {
        return Err(res.error);
      }
      r := Ok(());
    }

    /** `_split_node(leaf.arr, leaf, leaf.used_columns)` on the first unsplit node below the root. */
    method SplitLeaf(leaf: Node) returns (r: Result<(), TreeError>)
      requires Valid() && 1 <= |splitters| && leaf == nodes[|splitters|]
      modifies this, leaf
      ensures root == old(root) && Valid()
      ensures r.Ok? <==> Usable(old(data)[|old(splitters)|])
      ensures r.Err? ==>
        (r.error == NoEligibleColumn || r.error == NoThreshold) &&
        nodes == old(nodes) && data == old(data) && splitters == old(splitters)
      ensures r.Ok? ==>
        nodes == old(nodes) + [leaf.childLeft, leaf.childRight] && fresh(leaf.childLeft) && fresh(leaf.childRight) &&
        old(data) <= data && old(splitters) <= splitters && |splitters| == |old(splitters)| + 1
    {
      assert Holds(nodes, data, |splitters|, |splitters|);
      var res := SplitNode(leaf.arr.value, leaf, leaf.usedColumns);
      if res.Err? {
        return Err(res.error);
      }
      r := Ok(());
    }

    /**
     * The body of `fit`'s inner loop: split every node of the frontier `leaves`, the last
     * level of the picture, in order, and return their children as the next frontier.
     */
    method SplitLevel(leaves: seq<Node>) returns (r: Result<seq<Node>, TreeError>)
      requires Valid() && 1 <= |splitters| && leaves == nodes[|splitters|..]
      modifies this, leaves
      ensures root == old(root) && Valid()
      ensures old(nodes) <= nodes && old(data) <= data && old(splitters) <= splitters
      ensures forall j :: |old(nodes)| <= j < |nodes| ==> fresh(nodes[j])
      ensures r.Ok? ==> |splitters| == |old(nodes)| && r.value == nodes[|old(nodes)|..]
      ensures r.Err? ==>
        (r.error == NoEligibleColumn || r.error == NoThreshold) &&
        |splitters| < |old(nodes)| && !Usable(data[|splitters|])
    {
      ghost var m0 := |splitters|;
      assert |nodes| == 2 * m0 + 1;
      var newLeaves: seq<Node> := [];
      var k := 0;
      while k < |leaves|
        invariant 0 <= k <= |leaves| == m0 + 1 && |old(nodes)| == 2 * m0 + 1
        invariant Valid() && |splitters| == m0 + k && root == old(root)
        invariant old(nodes) <= nodes && old(data) <= data && old(splitters) <= splitters
        invariant forall j :: |old(nodes)| <= j < |nodes| ==> fresh(nodes[j])
        invariant newLeaves == nodes[|old(nodes)|..]
      {
        var leaf := leaves[k];
        assert leaf == old(nodes)[m0 + k] == nodes[m0 + k];
        var res := SplitLeaf(leaf);
        if res.Err? {
          assert |splitters| == m0 + k < |old(nodes)|;
          return Err(res.error);
        }
        newLeaves := newLeaves + [leaf.childLeft, leaf.childRight];
        k := k + 1;
      }
      r := Ok(newLeaves);
    }

    /**
     * `fit(arr, max_depth)`: split the root, then split every node of the frontier,
     * level by level, `max_depth - 1` more times. On success the tree is complete to
     * depth `max_depth`: the `2^max_depth - 1` nodes above that depth are split as
     * `Grown` describes and the `2^max_depth` nodes of the last level are unsplit. A
     * failing split leaves the nodes split so far in place, as the raised exception does.
     */
    method Fit(t: Table, maxDepth: int) returns (r: Result<(), TreeError>)
      requires WellFormed(t)
      modifies this, root
      ensures root == old(root)
      ensures maxDepth < 1 ==> r == Err(DepthBelowOne) && unchanged(this, root)
      ensures maxDepth >= 1 && (old(root.childLeft) != null || old(root.childRight) != null) ==>
        r == Err(RootAlreadySplit) && unchanged(this, root)
      ensures r.Ok? ==>
        maxDepth >= 1 && Valid() && |splitters| == Pow2(maxDepth) - 1 && |nodes| == Pow2(maxDepth + 1) - 1 &&
        nodes[0] == root && data[0] == NodeData(t, None)
      ensures r.Ok? ==> forall j :: 0 <= j < |nodes| ==>
        (nodes[j].childLeft != null <==> j < Pow2(maxDepth) - 1) && (nodes[j].childRight != null <==> j < Pow2(maxDepth) - 1)
      ensures r.Ok? ==> RowsOf(data, Pow2(maxDepth) - 1, |data|) == multiset(t.rows)
      ensures maxDepth >= 1 && old(root.childLeft) == null && old(root.childRight) == null && r.Err? ==>
        (r.error == NoEligibleColumn || r.error == NoThreshold) &&
        Valid() && nodes[0] == root && data[0] == NodeData(t, None) &&
        |splitters| < Pow2(maxDepth) - 1 && !Usable(data[|splitters|])
    {
      if maxDepth < 1 {
        return Err(DepthBelowOne);
      }
      if root.childLeft != null || root.childRight != null {
        return Err(RootAlreadySplit);
      }
      root.arr := Some(t);
      nodes, data, splitters := [root], [NodeData(t, None)], [];
      var first := SplitRoot(t);
      if first.Err? {
        Pow2Monotone(1, maxDepth);
        return Err(first.error);
      }
      r := SplitLevels(1, maxDepth, [root.childLeft, root.childRight]);
      if r.Ok? {
        LevelPartition(data, splitters, |splitters|, maxDepth);
        forall j | 0 <= j < |nodes|
          ensures (nodes[j].childLeft != null <==> j < Pow2(maxDepth) - 1) && (nodes[j].childRight != null <==> j < Pow2(maxDepth) - 1)
        {
          assert Holds(nodes, data, |splitters|, j);
        }
      }
    }

    /**
     * The loop of `fit` from depth `round`: split the whole frontier `leaves`, then the
     * frontier it produced, until the tree reaches depth `maxDepth`.
     */
    method SplitLevels(round: nat, maxDepth: int, leaves: seq<Node>) returns (r: Result<(), TreeError>)
      requires 1 <= round <= maxDepth && Valid() && |splitters| == Pow2(round) - 1
      requires leaves == nodes[|splitters|..]
      modifies this, nodes
      ensures root == old(root) && Valid()
      ensures old(nodes) <= nodes && old(data) <= data && old(splitters) <= splitters
      ensures forall j :: |old(nodes)| <= j < |nodes| ==> fresh(nodes[j])
      ensures r.Ok? ==> |splitters| == Pow2(maxDepth) - 1
      ensures r.Err? ==>
        (r.error == NoEligibleColumn || r.error == NoThreshold) &&
        |splitters| < Pow2(maxDepth) - 1 && !Usable(data[|splitters|])
    {
      var frontier := leaves;
      var depth := round;
      while depth < maxDepth
        invariant round <= depth <= maxDepth
        invariant Valid() && |splitters| == Pow2(depth) - 1 && root == old(root)
        invariant old(nodes) <= nodes && old(data) <= data && old(splitters) <= splitters
        invariant forall j :: |old(nodes)| <= j < |nodes| ==> fresh(nodes[j])
        invariant frontier == nodes[|splitters|..]
      {
        var next := SplitLevel(frontier);
        if next.Err? {
          assert Pow2(depth + 1) == 2 * Pow2(depth);
          Pow2Monotone(depth + 1, maxDepth);
          return Err(next.error);
        }
        frontier := next.value;
        depth := depth + 1;
      }
      r := Ok(());
    }
  }

  /** Splitting node `m`, the first unsplit one, extends the ghost picture by its two children. */
  lemma Extend(data: seq<NodeData>, splitters: seq<Splitter>, m: nat, sp: Splitter)
    requires Grown(data, splitters, m)
    requires IsBestSplitter(data[m].arr, Ignored(data[m].usedColumns), sp) && sp.splitValue.Some?
    ensures Grown(data + [LeftChild(data[m], sp), RightChild(data[m], sp)], splitters + [sp], m + 1)
  {
    var data', splitters' := data + [LeftChild(data[m], sp), RightChild(data[m], sp)], splitters + [sp];
    forall j | 0 <= j < m + 1
      ensures SplitAt(data', splitters', j)
    {
      if j < m {
        assert SplitAt(data, splitters, j);
        assert data'[j] == data[j] && data'[2 * j + 1] == data[2 * j + 1] && data'[2 * j + 2] == data[2 * j + 2];
        assert splitters'[j] == splitters[j];
      }
    }
  }

  /** The rows held by positions `lo` up to `hi` of the picture, as one multiset. */
  ghost function RowsOf(data: seq<NodeData>, lo: nat, hi: nat): multiset<Row>
    requires lo <= hi <= |data|
    decreases hi - lo
  {
    if lo == hi then multiset{} else multiset(data[lo].arr.rows) + RowsOf(data, lo + 1, hi)
  }

  /** The two children of split node `j` together hold exactly its rows. */
  lemma SplitRows(data: seq<NodeData>, splitters: seq<Splitter>, m: nat, j: nat)
    requires Grown(data, splitters, m) && j < m
    ensures multiset(data[2 * j + 1].arr.rows) + multiset(data[2 * j + 2].arr.rows) == multiset(data[j].arr.rows)
  {
    GrownWellFormed(data, splitters, m, j);
    assert SplitAt(data, splitters, j);
    SplitPartition(data[j], splitters[j]);
  }

  /** The children of split nodes `lo` up to `hi` hold exactly the rows of those nodes. */
  lemma {:induction false} ChildrenSum(data: seq<NodeData>, splitters: seq<Splitter>, m: nat, lo: nat, hi: nat)
    requires Grown(data, splitters, m) && lo <= hi <= m
    ensures RowsOf(data, 2 * lo + 1, 2 * hi + 1) == RowsOf(data, lo, hi)
    decreases hi - lo
  {
    if lo < hi {
      ChildrenSum(data, splitters, m, lo + 1, hi);
      SplitRows(data, splitters, m, lo);
      var a, b := 2 * lo + 1, 2 * hi + 1;
      var rest := RowsOf(data, a + 2, b);
      assert a + 2 == 2 * (lo + 1) + 1 && rest == RowsOf(data, lo + 1, hi);
      assert RowsOf(data, a, b) == multiset(data[a].arr.rows) + (multiset(data[a + 1].arr.rows) + rest);
    }
  }

  /**
   * Level `d` of a tree grown to at least that depth (positions `2^d - 1` up to
   * `2^(d+1) - 1`) holds every row of the root exactly once.
   */
  lemma {:induction false} LevelPartition(data: seq<NodeData>, splitters: seq<Splitter>, m: nat, d: nat)
    requires Grown(data, splitters, m) && Pow2(d) - 1 <= m
    ensures Pow2(d + 1) - 1 <= |data|
    ensures RowsOf(data, Pow2(d) - 1, Pow2(d + 1) - 1) == multiset(data[0].arr.rows)
  {
    if d == 0 {
      assert RowsOf(data, 1, 1) == multiset{};
    } else {
      var p := Pow2(d - 1);
      assert Pow2(d) == 2 * p && Pow2(d + 1) == 4 * p;
      LevelPartition(data, splitters, m, d - 1);
      ChildrenSum(data, splitters, m, p - 1, 2 * p - 1);
    }
  }
}
