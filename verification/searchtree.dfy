/** The search tree the bot builds while it searches: nodes labelled with a
    move, its evaluation and the position's scores; a tree holding an optional
    root and a recorded size; pre-order traversal, first-match path search,
    maximum depth and node count. */
module SearchTree {
  import opened Board

  datatype Option<T> = None | Some(value: T)

  /** One search node. `moves` is the sequence of moves from the root to this
      node (the root's is empty); `depth` is the label the bot writes, not the
      node's distance from the root. */
  datatype Node = Node(row: int, col: int, heuristic: int, depth: int, maximizing: bool,
                       turn: Color, whiteScore: int, blackScore: int,
                       moves: seq<Pos>, children: seq<Node>)

  /** A tree: an optional root and the node count recorded by its owner. */
  datatype Tree = Tree(root: Option<Node>, size: nat)

  /** The tree built by the default constructor. */
  const EmptyTree: Tree := Tree(None, 0)

  function GetRoot(t: Tree): Option<Node> {
    t.root
  }

  function GetSize(t: Tree): nat {
    t.size
  }

  /** Installing a root makes it the root and keeps the recorded size. */
  function SetRoot(t: Tree, root: Option<Node>): (r: Tree)
    ensures GetRoot(r) == root && GetSize(r) == GetSize(t)
  {
    t.(root := root)
  }

  /** Recording a size makes it the size and keeps the root. */
  function SetSize(t: Tree, size: nat): (r: Tree)
    ensures GetSize(r) == size && GetRoot(r) == GetRoot(t)
  {
    t.(size := size)
  }

  /** Writing back what was read changes nothing, and a second write wins. */
  lemma AccessorRoundTrips(t: Tree, a: Option<Node>, b: Option<Node>, m: nat, n: nat)
    ensures SetRoot(t, GetRoot(t)) == t && SetSize(t, GetSize(t)) == t
    ensures SetRoot(SetRoot(t, a), b) == SetRoot(t, b)
    ensures SetSize(SetSize(t, m), n) == SetSize(t, n)
    ensures SetSize(SetRoot(t, a), m) == SetRoot(SetSize(t, m), a)
  {
  }

  // ---------------------------------------------------------------------------
  // Counting and pre-order traversal

  /** The number of nodes in the subtree at `n`. */
  function CountNodes(n: Node): (c: nat)
    ensures c >= 1
    decreases n
  {
    1 + CountForest(n.children)
  }

  function CountForest(cs: seq<Node>): nat
    decreases cs
  {
    if cs == [] then 0 else CountNodes(cs[0]) + CountForest(cs[1..])
  }

  /** The nodes of the subtree at `n`, each parent before its children and
      siblings left to right. */
  function Preorder(n: Node): seq<Node>
    decreases n
  {
    [n] + PreorderForest(n.children)
  }

  function PreorderForest(cs: seq<Node>): seq<Node>
    decreases cs
  {
    if cs == [] then [] else Preorder(cs[0]) + PreorderForest(cs[1..])
  }

  /** The nodes a traversal visits, in visiting order: none for an empty tree. */
  function Traverse(t: Tree): (v: seq<Node>)
    ensures t.root == None ==> v == []
    ensures t.root.Some? ==> |v| >= 1 && v[0] == t.root.value
  {
    match t.root
    case None => []
    case Some(n) => Preorder(n)
  }

  /** A traversal visits exactly as many nodes as the tree counts. */
  lemma {:induction false} PreorderLength(n: Node)
    ensures |Preorder(n)| == CountNodes(n)
    decreases n
  {
    PreorderForestLength(n.children);
  }

  lemma {:induction false} PreorderForestLength(cs: seq<Node>)
    ensures |PreorderForest(cs)| == CountForest(cs)
    decreases cs
  {
    if cs != [] {
      PreorderLength(cs[0]);
      PreorderForestLength(cs[1..]);
    }
  }

  lemma TraverseLength(t: Tree)
    ensures |Traverse(t)| == (if t.root == None then 0 else CountNodes(t.root.value))
  {
    if t.root.Some? {
      PreorderLength(t.root.value);
    }
  }

  /** A slice of the right part of a concatenation, shifted past the left part. */
  lemma SliceRight(a: seq<Node>, b: seq<Node>, lo: nat, hi: nat)
    requires lo <= hi <= |b|
    ensures (a + b)[|a| + lo .. |a| + hi] == b[lo .. hi]
  {
    forall k | lo <= k < hi
      ensures (a + b)[|a| + k] == b[k]
    {
    }
  }

  /** The first `i` trees of a forest hold the first tree's nodes and those
      of the next `i - 1`. */
  lemma CountForestPrefix(cs: seq<Node>, i: nat)
    requires 0 < i <= |cs|
    ensures CountForest(cs[..i]) == CountNodes(cs[0]) + CountForest(cs[1..][..i - 1])
  {
    assert cs[..i][0] == cs[0] && cs[..i][1..] == cs[1..][..i - 1];
  }

  /** Within a forest's traversal, the `i`-th tree's traversal is one
      contiguous block that starts after the blocks of the trees before it. */
  lemma {:induction false} ForestBlock(cs: seq<Node>, i: nat)
    requires i < |cs|
    ensures CountForest(cs[..i]) + CountNodes(cs[i]) <= |PreorderForest(cs)|
    ensures PreorderForest(cs)[CountForest(cs[..i]) .. CountForest(cs[..i]) + CountNodes(cs[i])]
            == Preorder(cs[i])
    decreases i
  {
    var a := Preorder(cs[0]);
    var b := PreorderForest(cs[1..]);
    PreorderLength(cs[0]);
    PreorderForestLength(cs[1..]);
    assert PreorderForest(cs) == a + b;
    if i == 0 {
      assert CountForest(cs[..0]) == 0;
      assert (a + b)[0 .. |a|] == a;
    } else {
      var lo := CountForest(cs[1..][..i - 1]);
      var c := CountNodes(cs[1..][i - 1]);
      ForestBlock(cs[1..], i - 1);
      CountForestPrefix(cs, i);
      SliceRight(a, b, lo, lo + c);
      assert cs[1..][i - 1] == cs[i];
    }
  }

  /** A node is visited first, then each child's subtree as one block, left to right. */
  lemma PreorderShape(n: Node, i: nat)
    requires i < |n.children|
    ensures Preorder(n)[0] == n
    ensures 1 + CountForest(n.children[..i]) + CountNodes(n.children[i]) <= |Preorder(n)|
    ensures Preorder(n)[1 + CountForest(n.children[..i]) .. 1 + CountForest(n.children[..i]) + CountNodes(n.children[i])]
            == Preorder(n.children[i])
  {
    ForestBlock(n.children, i);
    var f := PreorderForest(n.children);
    assert Preorder(n) == [n] + f;
    SliceRight([n], f, CountForest(n.children[..i]), CountForest(n.children[..i]) + CountNodes(n.children[i]));
  }

  // ---------------------------------------------------------------------------
  // Paths

  predicate Matches(n: Node, row: int, col: int) {
    n.row == row && n.col == col
  }

  /** Each node of `p` is a child of the one before it. */
  predicate IsChain(p: seq<Node>) {
    forall k | 0 <= k < |p| - 1 :: p[k + 1] in p[k].children
  }

  /** `j` is the first position in `v` whose node matches. */
  predicate IsFirstMatch(v: seq<Node>, j: int, row: int, col: int) {
    0 <= j < |v| && Matches(v[j], row, col) && forall k | 0 <= k < j :: !Matches(v[k], row, col)
  }

  predicate NoMatch(v: seq<Node>, row: int, col: int) {
    forall k | 0 <= k < |v| :: !Matches(v[k], row, col)
  }

  /** Depth-first search from `n` that stops at the first matching node and
      returns the nodes from `n` down to it. */
  function FindPath(n: Node, row: int, col: int): Option<seq<Node>>
    decreases n
  {
    if Matches(n, row, col) then Some([n])
    else
      match FindPathForest(n.children, row, col)
      case None => None
      case Some(p) => Some([n] + p)
  }

  function FindPathForest(cs: seq<Node>, row: int, col: int): Option<seq<Node>>
    decreases cs
  {
    if cs == [] then None
    else
      match FindPath(cs[0], row, col)
      case Some(p) => Some(p)
      case None => FindPathForest(cs[1..], row, col)
  }

  /** The path from the root to the first node at (row, col), or empty. */
  function GetPath(t: Tree, row: int, col: int): seq<Node> {
    match t.root
    case None => []
    case Some(n) =>
      match FindPath(n, row, col)
      case None => []
      case Some(p) => p
  }

  /** `p` runs child by child down to a node at (row, col), passing no earlier one. */
  predicate IsPathTo(p: seq<Node>, row: int, col: int) {
    |p| >= 1 && IsChain(p) && Matches(p[|p| - 1], row, col)
    && forall k | 0 <= k < |p| - 1 :: !Matches(p[k], row, col)
  }

  /** `x` is the first node of `v` at (row, col). */
  ghost predicate IsFirstIn(v: seq<Node>, x: Node, row: int, col: int) {
    exists j :: IsFirstMatch(v, j, row, col) && v[j] == x
  }

  lemma NoMatchConcat(a: seq<Node>, b: seq<Node>, row: int, col: int)
    ensures NoMatch(a + b, row, col) <==> NoMatch(a, row, col) && NoMatch(b, row, col)
  {
    if NoMatch(a, row, col) && NoMatch(b, row, col) {
      forall k | 0 <= k < |a + b|
        ensures !Matches((a + b)[k], row, col)
      {
        if k >= |a| {
          assert (a + b)[k] == b[k - |a|];
        }
      }
    }
    if NoMatch(a + b, row, col) {
      forall k | 0 <= k < |a|
        ensures !Matches(a[k], row, col)
      {
        assert (a + b)[k] == a[k];
      }
      forall k | 0 <= k < |b|
        ensures !Matches(b[k], row, col)
      {
        assert (a + b)[|a| + k] == b[k];
      }
    }
  }

  /** A first match in `a` stays first in `a + b`. */
  lemma FirstInLeft(a: seq<Node>, b: seq<Node>, x: Node, row: int, col: int)
    requires IsFirstIn(a, x, row, col)
    ensures IsFirstIn(a + b, x, row, col)
  {
    var j :| IsFirstMatch(a, j, row, col) && a[j] == x;
    assert forall k | 0 <= k <= j :: (a + b)[k] == a[k];
    assert IsFirstMatch(a + b, j, row, col);
  }

  /** A first match in `b` is first in `a + b` when `a` has none. */
  lemma FirstInRight(a: seq<Node>, b: seq<Node>, x: Node, row: int, col: int)
    requires NoMatch(a, row, col) && IsFirstIn(b, x, row, col)
    ensures IsFirstIn(a + b, x, row, col)
  {
    var j :| IsFirstMatch(b, j, row, col) && b[j] == x;
    var v := a + b;
    assert v[|a| + j] == x;
    forall k | 0 <= k < |a| + j
      ensures !Matches(v[k], row, col)
    {
      if k >= |a| {
        assert v[k] == b[k - |a|];
      }
    }
    assert IsFirstMatch(v, |a| + j, row, col);
  }

  /** Putting a parent in front of a path that starts at one of its children
      keeps it a path. */
  lemma PathCons(n: Node, q: seq<Node>, row: int, col: int)
    requires IsPathTo(q, row, col) && q[0] in n.children && !Matches(n, row, col)
    ensures IsPathTo([n] + q, row, col)
  {
    var p := [n] + q;
    forall k | 0 <= k < |p| - 1
      ensures p[k + 1] in p[k].children && !Matches(p[k], row, col)
    {
      if k > 0 {
        assert p[k + 1] == q[k] && p[k] == q[k - 1];
      }
    }
  }

  /** A path found from `n` starts at `n`, descends one child at a time, ends at
      the first match in pre-order and passes no earlier match; no path is found
      exactly when nothing in the subtree matches. */
  lemma {:induction false} FindPathSpec(n: Node, row: int, col: int)
    ensures FindPath(n, row, col).None? <==> NoMatch(Preorder(n), row, col)
    ensures FindPath(n, row, col).Some? ==>
      var p := FindPath(n, row, col).value;
      IsPathTo(p, row, col) && p[0] == n && IsFirstIn(Preorder(n), p[|p| - 1], row, col)
    decreases n
  {
    var v := Preorder(n);
    if Matches(n, row, col) {
      assert IsFirstMatch(v, 0, row, col);
    } else {
      FindPathForestSpec(n.children, row, col);
      var f := PreorderForest(n.children);
      assert v == [n] + f;
      NoMatchConcat([n], f, row, col);
      match FindPathForest(n.children, row, col)
      case None =>
      case Some(q) =>
        PathCons(n, q, row, col);
        FirstInRight([n], f, q[|q| - 1], row, col);
        assert ([n] + q)[|[n] + q| - 1] == q[|q| - 1];
    }
  }

  lemma {:induction false} FindPathForestSpec(cs: seq<Node>, row: int, col: int)
    ensures FindPathForest(cs, row, col).None? <==> NoMatch(PreorderForest(cs), row, col)
    ensures FindPathForest(cs, row, col).Some? ==>
      var p := FindPathForest(cs, row, col).value;
      IsPathTo(p, row, col) && p[0] in cs && IsFirstIn(PreorderForest(cs), p[|p| - 1], row, col)
    decreases cs
  {
    if cs != [] {
      FindPathSpec(cs[0], row, col);
      FindPathForestSpec(cs[1..], row, col);
      var a := Preorder(cs[0]);
      var b := PreorderForest(cs[1..]);
      assert PreorderForest(cs) == a + b;
      NoMatchConcat(a, b, row, col);
      match FindPath(cs[0], row, col)
      case Some(p) =>
        FirstInLeft(a, b, p[|p| - 1], row, col);
      case None =>
        if FindPathForest(cs[1..], row, col).Some? {
          var p := FindPathForest(cs[1..], row, col).value;
          assert p[0] in cs by {
            assert p[0] in cs[1..];
          }
          FirstInRight(a, b, p[|p| - 1], row, col);
        }
    }
  }

  /** `GetPath` is empty for an empty tree or when no node is at (row, col);
      otherwise it runs from the root, child by child, to the first node at
      (row, col) in traversal order, passing no earlier one. */
  lemma GetPathSpec(t: Tree, row: int, col: int)
    ensures GetPath(t, row, col) == [] <==> NoMatch(Traverse(t), row, col)
    ensures GetPath(t, row, col) != [] ==>
      var p := GetPath(t, row, col);
      t.root.Some? && IsPathTo(p, row, col) && p[0] == t.root.value
      && IsFirstIn(Traverse(t), p[|p| - 1], row, col)
  {
    if t.root.Some? {
      FindPathSpec(t.root.value, row, col);
    }
  }

  // ---------------------------------------------------------------------------
  // Depth

  /** The larger of `cur` and the depths reached below `n`, counting `cur` at `n`. */
  function CalcMaxDepth(n: Node, cur: int): int
    decreases n
  {
    CalcMaxDepthForest(n.children, cur + 1, cur)
  }

  /** The children loop: `acc` is the best depth so far, `cur` each child's depth. */
  function CalcMaxDepthForest(cs: seq<Node>, cur: int, acc: int): int
    decreases cs
  {
    if cs == [] then acc
    else
      var d := CalcMaxDepth(cs[0], cur);
      CalcMaxDepthForest(cs[1..], cur, if acc < d then d else acc)
  }

  /** The number of edges on the longest root-to-leaf path, or 0 for an empty tree. */
  function GetMaxDepth(t: Tree): int {
    match t.root
    case None => 0
    case Some(n) => CalcMaxDepth(n, 0)
  }

  /** A default-constructed tree has no root and size 0: it visits nothing,
      finds no path and has depth 0. */
  lemma EmptyTreeFacts(row: int, col: int)
    ensures GetRoot(EmptyTree) == None && GetSize(EmptyTree) == 0
    ensures Traverse(EmptyTree) == [] && GetPath(EmptyTree, row, col) == [] && GetMaxDepth(EmptyTree) == 0
  {
  }

  /** The distance of every node from the top, in traversal order, counting from `d`. */
  function Depths(n: Node, d: int): seq<int>
    decreases n
  {
    [d] + DepthsForest(n.children, d + 1)
  }

  function DepthsForest(cs: seq<Node>, d: int): seq<int>
    decreases cs
  {
    if cs == [] then [] else Depths(cs[0], d) + DepthsForest(cs[1..], d)
  }

  /** The maximum depth search returns the deepest node's depth: it is some
      node's depth and no node is deeper. */
  lemma {:induction false} CalcMaxDepthIsMax(n: Node, cur: int)
    ensures CalcMaxDepth(n, cur) in Depths(n, cur)
    ensures forall k | 0 <= k < |Depths(n, cur)| :: Depths(n, cur)[k] <= CalcMaxDepth(n, cur)
    decreases n
  {
    CalcMaxDepthForestIsMax(n.children, cur + 1, cur);
  }

  lemma {:induction false} CalcMaxDepthForestIsMax(cs: seq<Node>, cur: int, acc: int)
    ensures var r := CalcMaxDepthForest(cs, cur, acc);
      acc <= r && (r == acc || r in DepthsForest(cs, cur))
      && forall k | 0 <= k < |DepthsForest(cs, cur)| :: DepthsForest(cs, cur)[k] <= r
    decreases cs
  {
    if cs != [] {
      var d := CalcMaxDepth(cs[0], cur);
      var acc' := if acc < d then d else acc;
      CalcMaxDepthIsMax(cs[0], cur);
      CalcMaxDepthForestIsMax(cs[1..], cur, acc');
      var a := Depths(cs[0], cur);
      var b := DepthsForest(cs[1..], cur);
      assert DepthsForest(cs, cur) == a + b;
      assert forall k | 0 <= k < |b| :: (a + b)[|a| + k] == b[k];
    }
  }

  /** Depths are listed node for node with the traversal. */
  lemma {:induction false} DepthsLength(n: Node, d: int)
    ensures |Depths(n, d)| == CountNodes(n)
    decreases n
  {
    DepthsForestLength(n.children, d + 1);
  }

  lemma {:induction false} DepthsForestLength(cs: seq<Node>, d: int)
    ensures |DepthsForest(cs, d)| == CountForest(cs)
    decreases cs
  {
    if cs != [] {
      DepthsLength(cs[0], d);
      DepthsForestLength(cs[1..], d);
    }
  }

  /** An empty tree and a lone root both have maximum depth 0; otherwise the
      maximum depth is the depth of the deepest node below the root. */
  lemma GetMaxDepthSpec(t: Tree)
    ensures t.root == None || t.root.value.children == [] ==> GetMaxDepth(t) == 0
    ensures t.root.Some? ==>
      GetMaxDepth(t) in Depths(t.root.value, 0)
      && forall k | 0 <= k < |Depths(t.root.value, 0)| :: Depths(t.root.value, 0)[k] <= GetMaxDepth(t)
  {
    if t.root.Some? {
      CalcMaxDepthIsMax(t.root.value, 0);
    }
  }
}
