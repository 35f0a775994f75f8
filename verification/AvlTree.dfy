/** Recursive insertion into and deletion from an AVL tree on linked nodes (AVL_tree.cpp). */
module AvlTree {
  import opened BinaryTree

  class Node {
    const val: int
    var l: Node?
    var r: Node?

    constructor (v: int)
      ensures val == v && l == null && r == null
    {
      val, l, r := v, null, null;
    }
  }

  /** The objects below x form the tree t. */
  ghost predicate Models(t: Shape<Node>, x: Node?)
    reads Nodes(t)
  {
    match t
    case Leaf => x == null
    case Branch(n, left, right) => x == n && Models(left, n.l) && Models(right, n.r)
  }

  ghost predicate Sorted(nodes: seq<Node>) {
    forall i, j | 0 <= i < j < |nodes| :: nodes[i].val < nodes[j].val
  }

  ghost predicate Below(nodes: seq<Node>, val: int) {
    forall n <- nodes :: n.val < val
  }

  ghost predicate Above(nodes: seq<Node>, val: int) {
    forall n <- nodes :: val < n.val
  }

  /** The sequence without the node that has the value. */
  ghost function Without(nodes: seq<Node>, val: int): seq<Node> {
    if nodes == [] then []
    else (if nodes[0].val == val then [] else [nodes[0]]) + Without(nodes[1..], val)
  }

  ghost function Values(nodes: seq<Node>): set<int> {
    set n | n in nodes :: n.val
  }

  ghost function Keys(t: Shape<Node>): set<int> {
    Values(InOrder(t))
  }

  lemma ValuesConcat(a: seq<Node>, n: Node, b: seq<Node>)
    ensures Values(a + [n] + b) == Values(a) + {n.val} + Values(b)
  {
    var all := a + [n] + b;
    assert all[|a|] == n;
    forall m | m in a || m in b
      ensures m in all
    {
    }
    assert Values(a + [n] + b) <= Values(a) + {n.val} + Values(b);
    assert Values(a) <= Values(all) && Values(b) <= Values(all);
  }

  lemma BelowValues(a: seq<Node>, val: int)
    ensures Below(a, val) <==> forall k <- Values(a) :: k < val
    ensures Above(a, val) <==> forall k <- Values(a) :: val < k
  {
    forall n | n in a
      ensures n.val in Values(a)
    {
    }
  }

  lemma {:induction false} WithoutConcat(a: seq<Node>, b: seq<Node>, val: int)
    ensures Without(a + b, val) == Without(a, val) + Without(b, val)
  {
    if a == [] {
      assert a + b == b;
    } else {
      WithoutConcat(a[1..], b, val);
      assert (a + b)[1..] == a[1..] + b && (a + b)[0] == a[0];
      Associate(if a[0].val == val then [] else [a[0]], Without(a[1..], val), Without(b, val));
    }
  }

  lemma Associate(a: seq<Node>, b: seq<Node>, c: seq<Node>)
    ensures a + b + c == a + (b + c)
  {
  }

  lemma {:induction false} WithoutNothing(a: seq<Node>, val: int)
    requires forall n <- a :: n.val != val
    ensures Without(a, val) == a
  {
    if a != [] {
      WithoutNothing(a[1..], val);
      assert a == [a[0]] + a[1..];
    }
  }

  lemma SortedBranch(a: seq<Node>, n: Node, b: seq<Node>)
    ensures Sorted(a + [n] + b) <==> Sorted(a) && Sorted(b) && Below(a, n.val) && Above(b, n.val)
  {
    var all := a + [n] + b;
    if Sorted(all) {
      SortedParts(a, n, b);
    }
    if Sorted(a) && Sorted(b) && Below(a, n.val) && Above(b, n.val) {
      forall i, j | 0 <= i < j < |all|
        ensures all[i].val < all[j].val
      {
        if i <= |a| <= j {
          assert i < |a| ==> all[i] in a;
          assert j > |a| ==> all[j] in b;
        }
      }
    }
  }

  lemma SortedParts(a: seq<Node>, n: Node, b: seq<Node>)
    requires Sorted(a + [n] + b)
    ensures Sorted(a) && Sorted(b) && Below(a, n.val) && Above(b, n.val)
  {
    var all, k := a + [n] + b, |a|;
    assert all[k] == n;
    forall i, j | 0 <= i < j < |a|
      ensures a[i].val < a[j].val
    {
      assert all[i] == a[i] && all[j] == a[j];
    }
    forall i, j | 0 <= i < j < |b|
      ensures b[i].val < b[j].val
    {
      assert all[k + 1 + i] == b[i] && all[k + 1 + j] == b[j];
    }
    forall m | m in a
      ensures m.val < n.val
    {
      var i :| 0 <= i < k && a[i] == m;
      assert all[i] == m;
    }
    forall m | m in b
      ensures n.val < m.val
    {
      var i :| 0 <= i < |b| && b[i] == m;
      assert all[k + 1 + i] == m;
    }
  }

  // ---------------------------------------------------------------------------------------------
  // Heights and balance
  // ---------------------------------------------------------------------------------------------

  ghost function Height(t: Shape<Node>): nat {
    if t.Leaf? then 0
    else if Height(t.left) > Height(t.right) then Height(t.left) + 1 else Height(t.right) + 1
  }

  ghost predicate Balanced(t: Shape<Node>) {
    t.Branch? ==>
      Balanced(t.left) && Balanced(t.right) && -1 <= Height(t.left) - Height(t.right) <= 1
  }

  function GetHeight(root: Node?, ghost t: Shape<Node>): (h: int)
    requires Models(t, root)
    reads Nodes(t)
    ensures h == Height(t)
    decreases t
  {
    if root == null then 0
    else
      var lHeight := GetHeight(root.l, t.left);
      var rHeight := GetHeight(root.r, t.right);
      if lHeight > rHeight then lHeight + 1 else rHeight + 1
  }

  ghost function Fib(n: nat): nat {
    if n < 2 then n else Fib(n - 2) + Fib(n - 1)
  }

  lemma {:induction false} FibGrows(n: nat)
    ensures Fib(n) <= Fib(n + 1)
  {
    if n >= 1 {
      FibGrows(n - 1);
    }
  }

  lemma FibOfHeights(l: nat, r: nat)
    requires -1 <= l - r <= 1
    ensures var h := if l > r then l + 1 else r + 1; Fib(h + 2) <= Fib(l + 2) + Fib(r + 2)
  {
    var h, low := if l > r then l + 1 else r + 1, if l < r then l else r;
    assert Fib(h + 2) == Fib(h) + Fib(h + 1);
    assert low + 2 == h + 1 || low + 2 == h;
    FibGrows(h);
  }

  lemma CountNodes(t: Shape<Node>)
    requires Unique(t) && t.Branch?
    ensures |Nodes(t)| == 1 + |Nodes(t.left)| + |Nodes(t.right)|
  {
    DisjointSum(t.node, Nodes(t.left), Nodes(t.right));
  }

  lemma DisjointSum(n: Node, a: set<Node>, b: set<Node>)
    requires n !in a && n !in b && a !! b
    ensures |{n} + a + b| == 1 + |a| + |b|
  {
    assert {n} + a + b == {n} + (a + b);
  }

  /** A balanced tree is not high: it has at least fib(h + 2) - 1 nodes. */
  lemma {:induction false} BalancedIsFull(t: Shape<Node>)
    requires Balanced(t) && Unique(t)
    ensures |Nodes(t)| >= Fib(Height(t) + 2) - 1
  {
    hide Fib, Nodes, Height;
    if t.Branch? {
      HeightOfBranch(t);
      BalancedIsFull(t.left);
      BalancedIsFull(t.right);
      CountNodes(t);
      FibOfHeights(Height(t.left), Height(t.right));
    } else {
      FibTwo();
    }
  }

  lemma FibTwo()
    ensures Fib(Height(Leaf) + 2) == 1
  {
  }

  lemma HeightOfBranch(t: Shape<Node>)
    requires t.Branch?
    ensures var l, r := Height(t.left), Height(t.right); Height(t) == if l > r then l + 1 else r + 1
  {
  }

  // ---------------------------------------------------------------------------------------------
  // Rotations
  // ---------------------------------------------------------------------------------------------

  /** (root: (child: a, b), d) becomes (child: a, (root: b, d)). */
  method LL(root: Node, ghost child: Node, ghost a: Shape<Node>, ghost b: Shape<Node>, ghost d: Shape<Node>)
    returns (top: Node)
    requires var t := Branch(root, Branch(child, a, b), d); Unique(t) && Models(t, root)
    modifies root, child
    ensures top == child && Models(Branch(child, a, Branch(root, b, d)), top)
  {
    assert Models(Branch(child, a, b), root.l) && Models(d, root.r) && Unique(Branch(child, a, b));
    assert Models(a, child.l) && Models(b, child.r);
    var leftNode := root.l;
    root.l := leftNode.r;
    leftNode.r := root;
    top := leftNode;
    assert Models(a, child.l) && Models(b, root.l) && Models(d, root.r);
  }

  /** (root: d, (child: b, a)) becomes (child: (root: d, b), a). */
  method RR(root: Node, ghost child: Node, ghost a: Shape<Node>, ghost b: Shape<Node>, ghost d: Shape<Node>)
    returns (top: Node)
    requires var t := Branch(root, d, Branch(child, b, a)); Unique(t) && Models(t, root)
    modifies root, child
    ensures top == child && Models(Branch(child, Branch(root, d, b), a), top)
  {
    assert Models(Branch(child, b, a), root.r) && Models(d, root.l) && Unique(Branch(child, b, a));
    assert Models(a, child.r) && Models(b, child.l);
    var rightNode := root.r;
    root.r := rightNode.l;
    rightNode.l := root;
    top := rightNode;
    assert Models(a, child.r) && Models(b, root.r) && Models(d, root.l);
  }

  /** (root: (p: a, (x: b, e)), d) becomes (x: (p: a, b), (root: e, d)). */
  method LR(root: Node, ghost p: Node, ghost x: Node, ghost a: Shape<Node>, ghost b: Shape<Node>, ghost e: Shape<Node>,
            ghost d: Shape<Node>) returns (top: Node)
    requires var t := Branch(root, Branch(p, a, Branch(x, b, e)), d); Unique(t) && Models(t, root)
    modifies root, p, x
    ensures top == x && Models(Branch(x, Branch(p, a, b), Branch(root, e, d)), top)
  {
    ghost var inner := Branch(p, a, Branch(x, b, e));
    Rotation(p, x, a, b, e);
    assert Models(inner, root.l) && Models(d, root.r) && Unique(inner);
    assert Nodes(d) !! Nodes(inner) && root !in Nodes(inner) && allocated(Nodes(d));
    var below := RR(root.l, x, e, b, a);
    assert Models(d, root.r);
    root.l := below;
    assert Models(d, root.r);
    top := LL(root, x, Branch(p, a, b), e, d);
  }

  /** (root: d, (p: (x: e, b), a)) becomes (x: (root: d, e), (p: b, a)). */
  method RL(root: Node, ghost p: Node, ghost x: Node, ghost a: Shape<Node>, ghost b: Shape<Node>, ghost e: Shape<Node>,
            ghost d: Shape<Node>) returns (top: Node)
    requires var t := Branch(root, d, Branch(p, Branch(x, e, b), a)); Unique(t) && Models(t, root)
    modifies root, p, x
    ensures top == x && Models(Branch(x, Branch(root, d, e), Branch(p, b, a)), top)
  {
    ghost var inner := Branch(p, Branch(x, e, b), a);
    Rotation(x, p, e, b, a);
    assert Models(inner, root.r) && Models(d, root.l) && Unique(inner);
    assert Nodes(d) !! Nodes(inner) && root !in Nodes(inner) && allocated(Nodes(d));
    var below := LL(root.r, x, e, b, a);
    assert Models(d, root.l);
    root.r := below;
    assert Models(d, root.l);
    top := RR(root, x, Branch(p, b, a), e, d);
  }

  // ---------------------------------------------------------------------------------------------
  // Insertion
  // ---------------------------------------------------------------------------------------------

  /** A tree that became higher kept its root and is higher on the side of the new value. */
  ghost predicate Grown(t: Shape<Node>, t': Shape<Node>, val: int) {
    && Height(t) <= Height(t') <= Height(t) + 1
    && (Height(t') > Height(t) && t.Branch? ==>
          && t'.Branch? && t'.node == t.node && val != t'.node.val
          && Height(t'.left) - Height(t'.right) == if val > t'.node.val then -1 else 1)
  }

  lemma RightTooHigh(n: Node, l: Shape<Node>, r: Shape<Node>, grown: Shape<Node>, val: int)
    requires Balanced(l) && Balanced(r) && Balanced(grown) && -1 <= Height(l) - Height(r) <= 1
    requires Grown(r, grown, val) && Height(grown) - Height(l) > 1
    ensures grown.Branch? && (val <= grown.node.val ==> grown.left.Branch?)
    ensures var t :=
        if val > grown.node.val then Branch(grown.node, Branch(n, l, grown.left), grown.right)
        else var x := grown.left; Branch(x.node, Branch(n, l, x.left), Branch(grown.node, x.right, grown.right));
      Balanced(t) && Height(t) == Height(r) + 1
  {
    var h := Height(l);
    assert Height(r) == h + 1 && Height(grown) == h + 2;
    if val > grown.node.val {
      assert Height(grown.right) == h + 1 && Height(Branch(n, l, grown.left)) == h + 1;
    } else {
      assert Height(grown.left) == h + 1 && Height(Branch(n, l, grown.left.left)) == h + 1;
      assert Height(Branch(grown.node, grown.left.right, grown.right)) == h + 1;
    }
  }

  lemma LeftTooHigh(n: Node, l: Shape<Node>, r: Shape<Node>, grown: Shape<Node>, val: int)
    requires Balanced(l) && Balanced(r) && Balanced(grown) && -1 <= Height(l) - Height(r) <= 1
    requires Grown(l, grown, val) && Height(grown) - Height(r) > 1
    ensures grown.Branch? && (val >= grown.node.val ==> grown.right.Branch?)
    ensures var t :=
        if val < grown.node.val then Branch(grown.node, grown.left, Branch(n, grown.right, r))
        else var x := grown.right; Branch(x.node, Branch(grown.node, grown.left, x.left), Branch(n, x.right, r));
      Balanced(t) && Height(t) == Height(l) + 1
  {
    var h := Height(r);
    assert Height(l) == h + 1 && Height(grown) == h + 2;
    if val < grown.node.val {
      assert Height(grown.left) == h + 1 && Height(Branch(n, grown.right, r)) == h + 1;
    } else {
      assert Height(grown.right) == h + 1 && Height(Branch(n, grown.right.right, r)) == h + 1;
      assert Height(Branch(grown.node, grown.left, grown.right.left)) == h + 1;
    }
  }

  /** The two height tests after an insertion on the right; t is the tree before, `grown` its new right subtree. */
  method RestoreRight(root: Node, val: int, ghost t: Shape<Node>, ghost grown: Shape<Node>)
    returns (top: Node, ghost t': Shape<Node>)
    requires t.Branch? && t.node == root && val > root.val && Balanced(t) && Balanced(grown) && Grown(t.right, grown, val)
    requires var u := Branch(root, t.left, grown); Models(u, root) && Unique(u)
    modifies Nodes(Branch(root, t.left, grown))
    ensures Models(t', top) && Unique(t') && Balanced(t') && Grown(t, t', val) && (grown == t.right ==> t' == t)
    ensures var u := Branch(root, t.left, grown); Nodes(t') == Nodes(u) && InOrder(t') == InOrder(u)
  {
    top, t' := root, Branch(root, t.left, grown);
    if GetHeight(root.r, grown) - GetHeight(root.l, t.left) > 1 {
      RightTooHigh(root, t.left, t.right, grown, val);
      if val > root.r.val {
        top := RR(root, grown.node, grown.right, grown.left, t.left);
        t' := Branch(grown.node, Branch(root, t.left, grown.left), grown.right);
        Rotation(root, grown.node, t.left, grown.left, grown.right);
      } else {
        ghost var x := grown.left;
        top := RL(root, grown.node, x.node, grown.right, x.right, x.left, t.left);
        t' := Branch(x.node, Branch(root, t.left, x.left), Branch(grown.node, x.right, grown.right));
        Rotation(x.node, grown.node, x.left, x.right, grown.right);
        Rotation(root, x.node, t.left, x.left, Branch(grown.node, x.right, grown.right));
      }
    }
  }

  method RestoreLeft(root: Node, val: int, ghost t: Shape<Node>, ghost grown: Shape<Node>)
    returns (top: Node, ghost t': Shape<Node>)
    requires t.Branch? && t.node == root && val < root.val && Balanced(t) && Balanced(grown) && Grown(t.left, grown, val)
    requires var u := Branch(root, grown, t.right); Models(u, root) && Unique(u)
    modifies Nodes(Branch(root, grown, t.right))
    ensures Models(t', top) && Unique(t') && Balanced(t') && Grown(t, t', val) && (grown == t.left ==> t' == t)
    ensures var u := Branch(root, grown, t.right); Nodes(t') == Nodes(u) && InOrder(t') == InOrder(u)
  {
    top, t' := root, Branch(root, grown, t.right);
    if GetHeight(root.l, grown) - GetHeight(root.r, t.right) > 1 {
      LeftTooHigh(root, t.left, t.right, grown, val);
      if val < root.l.val {
        top := LL(root, grown.node, grown.left, grown.right, t.right);
        t' := Branch(grown.node, grown.left, Branch(root, grown.right, t.right));
        Rotation(grown.node, root, grown.left, grown.right, t.right);
      } else {
        ghost var x := grown.right;
        top := LR(root, grown.node, x.node, grown.left, x.left, x.right, t.right);
        t' := Branch(x.node, Branch(grown.node, grown.left, x.left), Branch(root, x.right, t.right));
        Rotation(grown.node, x.node, grown.left, x.left, x.right);
        Rotation(x.node, root, Branch(grown.node, grown.left, x.left), x.right, t.right);
      }
    }
  }

  /** What an insertion into the right part does to the order. */
  lemma InsertedRight(a: seq<Node>, n: Node, b: seq<Node>, b': seq<Node>, val: int)
    requires Sorted(a + [n] + b) && val > n.val && Sorted(b') && Values(b') == Values(b) + {val}
    requires val !in Values(b) ==> Without(b', val) == b
    ensures Sorted(a + [n] + b') && Values(a + [n] + b') == Values(a + [n] + b) + {val}
    ensures val in Values(a + [n] + b) <==> val in Values(b)
    ensures val !in Values(b) ==> Without(a + [n] + b', val) == a + [n] + b
  {
    hide Sorted, Values, Without, Below, Above;
    SortedBranch(a, n, b);
    SortedBranch(a, n, b');
    ValuesConcat(a, n, b);
    ValuesConcat(a, n, b');
    BelowValues(a, n.val);
    BelowValues(b, n.val);
    BelowValues(b', n.val);
    WithoutSmaller(a, n, val);
    WithoutConcat(a + [n], b', val);
  }

  lemma InsertedLeft(a: seq<Node>, a': seq<Node>, n: Node, b: seq<Node>, val: int)
    requires Sorted(a + [n] + b) && val < n.val && Sorted(a') && Values(a') == Values(a) + {val}
    requires val !in Values(a) ==> Without(a', val) == a
    ensures Sorted(a' + [n] + b) && Values(a' + [n] + b) == Values(a + [n] + b) + {val}
    ensures val in Values(a + [n] + b) <==> val in Values(a)
    ensures val !in Values(a) ==> Without(a' + [n] + b, val) == a + [n] + b
  {
    hide Sorted, Values, Without, Below, Above;
    SortedBranch(a, n, b);
    SortedBranch(a', n, b);
    ValuesConcat(a, n, b);
    ValuesConcat(a', n, b);
    BelowValues(b, n.val);
    BelowValues(a, n.val);
    BelowValues(a', n.val);
    WithoutGreater(n, b, val);
    WithoutConcat(a', [n] + b, val);
    Associate(a', [n], b);
    Associate(a, [n], b);
  }

  lemma WithoutSmaller(a: seq<Node>, n: Node, val: int)
    requires Below(a, n.val) && n.val < val
    ensures Without(a + [n], val) == a + [n]
  {
    WithoutNothing(a + [n], val);
  }

  lemma WithoutGreater(n: Node, b: seq<Node>, val: int)
    requires Above(b, n.val) && val < n.val
    ensures Without([n] + b, val) == [n] + b
  {
    WithoutNothing([n] + b, val);
  }

  ghost predicate SearchTree(t: Shape<Node>) {
    Unique(t) && Sorted(InOrder(t))
  }

  /** The subtrees of a search tree. */
  lemma SubtreesSorted(t: Shape<Node>)
    requires SearchTree(t) && t.Branch?
    ensures SearchTree(t.left) && SearchTree(t.right)
  {
    SortedBranch(InOrder(t.left), t.node, InOrder(t.right));
  }

  /** Insertion by `AddNode_re`. A value already there changes nothing. */
  method AddNodeRe(root: Node?, val: int, ghost t: Shape<Node>) returns (top: Node, ghost t': Shape<Node>)
    requires Models(t, root) && SearchTree(t) && Balanced(t)
    modifies Nodes(t)
    ensures Models(t', top) && SearchTree(t') && Balanced(t') && Grown(t, t', val) && t'.Branch?
    ensures Keys(t') == Keys(t) + {val} && Nodes(t) <= Nodes(t') && forall n <- Nodes(t') :: n in Nodes(t) || fresh(n)
    ensures if val in Keys(t) then t' == t else Without(InOrder(t'), val) == InOrder(t)
    decreases t
  {
    if root == null {
      top := new Node(val);
      t' := Branch(top, Leaf, Leaf);
      NewLeaf(top, val);
      return;
    }
    SubtreesSorted(t);
    top, t' := root, t;
    if val > root.val {
      top, t' := AddRight(root, val, t);
    } else if val < root.val {
      top, t' := AddLeft(root, val, t);
    } else {
      ValuesConcat(InOrder(t.left), root, InOrder(t.right));
    }
  }

  lemma NewLeaf(n: Node, val: int)
    requires n.val == val
    ensures var t := Branch(n, Leaf, Leaf);
      && InOrder(t) == [n] && SearchTree(t) && Balanced(t) && Keys(t) == {val} && Height(t) == 1
      && Without(InOrder(t), val) == []
  {
    assert InOrder(Branch(n, Leaf, Leaf)) == [n];
    assert Values([n]) == {val} by {
      assert [n][0] == n;
    }
    assert Without([n][1..], val) == [];
  }

  method AddRight(root: Node, val: int, ghost t: Shape<Node>) returns (top: Node, ghost t': Shape<Node>)
    requires Models(t, root) && SearchTree(t) && Balanced(t) && t.Branch? && val > root.val
    modifies Nodes(t)
    ensures Models(t', top) && SearchTree(t') && Balanced(t') && Grown(t, t', val) && t'.Branch?
    ensures Keys(t') == Keys(t) + {val} && Nodes(t) <= Nodes(t') && forall n <- Nodes(t') :: n in Nodes(t) || fresh(n)
    ensures if val in Keys(t) then t' == t else Without(InOrder(t'), val) == InOrder(t)
    decreases t, 0
  {
    hide Sorted, Without, Values, Height, Grown, InOrder;
    SubtreesSorted(t);
    BalancedParts(t);
    ghost var r;
    assert allocated(Nodes(t.left)) && allocated(Nodes(t.right));
    var below;
    below, r := AddNodeRe(root.r, val, t.right);
    assert Models(t.left, root.l);
    root.r := below;
    assert Models(t.left, root.l) && Models(r, root.r);
    InsertedRightIn(t, r, val);
    top, t' := RestoreRight(root, val, t, r);
  }

  lemma BalancedParts(t: Shape<Node>)
    requires Balanced(t) && t.Branch?
    ensures Balanced(t.left) && Balanced(t.right)
  {
  }

  lemma InsertedRightIn(t: Shape<Node>, r: Shape<Node>, val: int)
    requires SearchTree(t) && t.Branch? && val > t.node.val && SearchTree(r) && Keys(r) == Keys(t.right) + {val}
    requires if val in Keys(t.right) then r == t.right else Without(InOrder(r), val) == InOrder(t.right)
    requires Nodes(r) !! Nodes(t.left) && t.node !in Nodes(r)
    ensures var u := Branch(t.node, t.left, r);
      && SearchTree(u) && Keys(u) == Keys(t) + {val} && (val in Keys(t) <==> val in Keys(t.right))
      && if val in Keys(t) then u == t else Without(InOrder(u), val) == InOrder(t)
  {
    InsertedRight(InOrder(t.left), t.node, InOrder(t.right), InOrder(r), val);
  }

  method AddLeft(root: Node, val: int, ghost t: Shape<Node>) returns (top: Node, ghost t': Shape<Node>)
    requires Models(t, root) && SearchTree(t) && Balanced(t) && t.Branch? && val < root.val
    modifies Nodes(t)
    ensures Models(t', top) && SearchTree(t') && Balanced(t') && Grown(t, t', val) && t'.Branch?
    ensures Keys(t') == Keys(t) + {val} && Nodes(t) <= Nodes(t') && forall n <- Nodes(t') :: n in Nodes(t) || fresh(n)
    ensures if val in Keys(t) then t' == t else Without(InOrder(t'), val) == InOrder(t)
    decreases t, 0
  {
    hide Sorted, Without, Values, Height, Grown, InOrder;
    SubtreesSorted(t);
    BalancedParts(t);
    ghost var l;
    assert allocated(Nodes(t.left)) && allocated(Nodes(t.right));
    var below;
    below, l := AddNodeRe(root.l, val, t.left);
    assert Models(t.right, root.r);
    root.l := below;
    assert Models(l, root.l) && Models(t.right, root.r);
    InsertedLeftIn(t, l, val);
    top, t' := RestoreLeft(root, val, t, l);
  }

  lemma InsertedLeftIn(t: Shape<Node>, l: Shape<Node>, val: int)
    requires SearchTree(t) && t.Branch? && val < t.node.val && SearchTree(l) && Keys(l) == Keys(t.left) + {val}
    requires if val in Keys(t.left) then l == t.left else Without(InOrder(l), val) == InOrder(t.left)
    requires Nodes(l) !! Nodes(t.right) && t.node !in Nodes(l)
    ensures var u := Branch(t.node, l, t.right);
      && SearchTree(u) && Keys(u) == Keys(t) + {val} && (val in Keys(t) <==> val in Keys(t.left))
      && if val in Keys(t) then u == t else Without(InOrder(u), val) == InOrder(t)
  {
    InsertedLeft(InOrder(t.left), InOrder(l), t.node, InOrder(t.right), val);
  }

  lemma EmptyTree()
    ensures SearchTree(Leaf) && Balanced(Leaf) && InOrder<Node>(Leaf) == []
  {
  }

  /**
   Any run of insertions from an empty tree: the tree is strictly ordered and balanced, holds exactly the
   values inserted, and is not high.
   */
  method Build(values: seq<int>) returns (root: Node?, ghost t: Shape<Node>)
    ensures Models(t, root) && SearchTree(t) && Balanced(t)
    ensures Keys(t) == set k | k in values
    ensures |Nodes(t)| >= Fib(Height(t) + 2) - 1
  {
    hide Sorted, Height, Balanced, InOrder, Without, Grown;
    root, t := null, Leaf;
    EmptyTree();
    for i := 0 to |values|
      invariant Models(t, root) && SearchTree(t) && Balanced(t) && fresh(Nodes(t))
      invariant Keys(t) == set k | k in values[..i]
    {
      ghost var was := t;
      root, t := AddNodeRe(root, values[i], was);
      assert values[..i + 1] == values[..i] + [values[i]];
    }
    assert values[..|values|] == values;
    BalancedIsFull(t);
  }

  // ---------------------------------------------------------------------------------------------
  // Deletion, from any search tree
  // ---------------------------------------------------------------------------------------------

  /** The objects around a gap: the gap holds x, and the whole hangs at top. */
  ghost predicate ModelsPath(c: Path<Node>, x: Node?, top: Node?)
    reads PathNodes(c)
  {
    match c
    case Top => x == top
    case InLeft(n, right, up) => n.l == x && Models(right, n.r) && ModelsPath(up, n, top)
    case InRight(n, left, up) => n.r == x && Models(left, n.l) && ModelsPath(up, n, top)
  }

  lemma {:induction false} ModelsPlug(c: Path<Node>, t: Shape<Node>, x: Node?, top: Node?)
    requires ModelsPath(c, x, top) && Models(t, x)
    ensures Models(Plug(c, t), top)
    decreases c
  {
    match c
    case Top =>
    case InLeft(n, right, up) => ModelsPlug(up, Branch(n, t, right), n, top);
    case InRight(n, left, up) => ModelsPlug(up, Branch(n, left, t), n, top);
  }

  /** Walks down the right spine of the left subtree to its last node. */
  method FindLast(root: Node, ghost t: Shape<Node>)
    returns (p: Node, pre: Node, ghost c: Path<Node>, ghost s: Shape<Node>)
    requires t.Branch? && t.node == root && Models(t.left, root.l) && Unique(t.left)
    requires root.l != null && root.l.r != null
    ensures Models(s, p) && ModelsPath(c, p, root.l) && UniqueIn(c, s) && s.Branch? && s.right.Leaf? && s.node == p
    ensures AllNodes(c, s) == Nodes(t.left) && Order(c, s) == InOrder(t.left) && After(c) == []
    ensures c.InRight? && pre == c.node
  {
    c, s := Top, t.left;
    p, pre := root.l, root;
    assert Order(c, s) == InOrder(t.left);
    while p.r != null
      invariant Models(s, p) && ModelsPath(c, p, root.l) && UniqueIn(c, s) && s.Branch? && s.node == p
      invariant AllNodes(c, s) == Nodes(t.left) && Order(c, s) == InOrder(t.left) && After(c) == []
      invariant if c.Top? then p == root.l else c.InRight? && pre == c.node
      decreases s
    {
      pre := p;
      c, s := InRight(p, s.left, c), s.right;
      MoveUp(c, s);
      p := p.r;
    }
  }

  /**
   Both subtrees are there and the left one has a right child: its last node takes the place of the root.
   */
  method ReplaceByPredecessor(root: Node, ghost t: Shape<Node>) returns (top: Node, ghost t': Shape<Node>)
    requires t.Branch? && t.node == root && Models(t, root) && Unique(t)
    requires root.l != null && root.r != null && root.l.r != null
    modifies Nodes(t)
    ensures Models(t', top) && Unique(t') && Nodes(t') == Nodes(t) - {root}
    ensures InOrder(t') == InOrder(t.left) + InOrder(t.right)
  {
    hide Order, InOrder, Before, After, Plug, AllNodes, UniqueIn;
    assert Models(t.left, root.l) && Models(t.right, root.r) && Unique(t.left);
    assert allocated(Nodes(t.right));
    var p, pre;
    ghost var c, s;
    p, pre, c, s := FindLast(root, t);
    LastTaken(c, s);
    TreeParts(t, c, s);
    ghost var left := Plug(c, s.left);
    TakeOut(p, pre, root.l, c, s);
    assert Models(t.right, root.r);
    p.l := root.l;
    assert Models(left, p.l) && Models(t.right, root.r);
    p.r := root.r;
    assert Models(left, p.l) && Models(t.right, p.r);
    top, t' := p, Branch(p, left, t.right);
    OrderOfBranch(p, left, t.right);
  }

  /** The last node's left subtree takes its place. */
  method TakeOut(p: Node, pre: Node, ghost top: Node?, ghost c: Path<Node>, ghost s: Shape<Node>)
    requires Models(s, p) && ModelsPath(c, p, top) && UniqueIn(c, s) && s.Branch? && s.node == p
    requires c.InRight? && pre == c.node
    modifies pre`r
    ensures Models(Plug(c, s.left), top)
  {
    assert Models(s.left, p.l);
    assert c.node !in Nodes(s) && allocated(Nodes(s.left)) && allocated(PathNodes(c));
    pre.r := p.l;
    assert ModelsPath(c, p.l, top);
    ModelsPlug(c, s.left, p.l, top);
  }

  lemma TreeParts(t: Shape<Node>, c: Path<Node>, s: Shape<Node>)
    requires t.Branch? && Unique(t) && UniqueIn(c, s) && AllNodes(c, s) == Nodes(t.left) && s.Branch? && !c.Top?
    ensures c.node !in Nodes(t.right) && s.node !in Nodes(t.right)
    ensures c.node != t.node && s.node != t.node && c.node in Nodes(t.left) && s.node in Nodes(t.left)
    ensures c.node !in Nodes(s) && s.node !in PathNodes(c) && s.node != c.node && s.node !in Nodes(s.left)
  {
  }

  /** The last node of a tree, at the end of its right spine, taken out. */
  lemma LastTaken(c: Path<Node>, s: Shape<Node>)
    requires UniqueIn(c, s) && s.Branch? && s.right.Leaf? && After(c) == []
    ensures var left := Plug(c, s.left);
      && Unique(left) && Nodes(left) == AllNodes(c, s) - {s.node} && InOrder(left) + [s.node] == Order(c, s)
  {
    PlugIsUnique(c, s.left);
    InOrderPlug(c, s.left);
    assert InOrder(s) == InOrder(s.left) + [s.node];
    assert Before(c) + InOrder(s.left) + [] == Before(c) + InOrder(s.left);
  }

  lemma {:induction false} SortedWithout(s: seq<Node>, val: int)
    requires Sorted(s)
    ensures Sorted(Without(s, val)) && forall n :: n in Without(s, val) <==> n in s && n.val != val
  {
    if s != [] {
      var rest := s[1..];
      assert s == [] + [s[0]] + rest;
      SortedBranch([], s[0], rest);
      SortedWithout(rest, val);
      assert Above(Without(rest, val), s[0].val);
      SortedBranch([], s[0], Without(rest, val));
      assert [] + [s[0]] + Without(rest, val) == [s[0]] + Without(rest, val);
      assert [] + Without(rest, val) == Without(rest, val);
    }
  }

  /** The parts of a search tree that do not have the value, and the one that may. */
  lemma WithoutBranch(a: seq<Node>, n: Node, b: seq<Node>, val: int)
    requires Sorted(a + [n] + b)
    ensures val > n.val ==> Without(a + [n] + b, val) == a + [n] + Without(b, val)
    ensures val < n.val ==> Without(a + [n] + b, val) == Without(a, val) + [n] + b
    ensures val == n.val ==> Without(a + [n] + b, val) == a + b
  {
    hide Sorted, Without;
    SortedBranch(a, n, b);
    WithoutConcat(a + [n], b, val);
    WithoutConcat(a, [n], val);
    WithoutOne(n, val);
    if val > n.val {
      WithoutNothing(a + [n], val);
    } else {
      WithoutNothing(b, val);
      if val == n.val {
        WithoutNothing(a, val);
        assert a + [] == a;
      }
    }
  }

  lemma WithoutOne(n: Node, val: int)
    ensures Without([n], val) == if n.val == val then [] else [n]
  {
    assert Without([n][1..], val) == [];
  }

  /** The rotation picked by a null test: it keeps nodes and order, and there is always a node to bring up. */
  method TurnAfterRight(root: Node, ghost t: Shape<Node>) returns (top: Node, ghost t': Shape<Node>)
    requires t.Branch? && t.node == root && Models(t, root) && Unique(t)
    modifies Nodes(t)
    ensures Models(t', top) && Unique(t') && Nodes(t') == Nodes(t) && InOrder(t') == InOrder(t)
  {
    top, t' := root, t;
    if GetHeight(root.l, t.left) - GetHeight(root.r, t.right) > 1 {
      var tmp := root.l;
      ghost var p := t.left;
      assert Models(p.left, tmp.l) && Models(p.right, tmp.r);
      if tmp.l != null {
        top := LL(root, p.node, p.left, p.right, t.right);
        t' := Branch(p.node, p.left, Branch(root, p.right, t.right));
        Rotation(p.node, root, p.left, p.right, t.right);
      } else {
        ghost var x := p.right;
        top := LR(root, p.node, x.node, p.left, x.left, x.right, t.right);
        t' := Branch(x.node, Branch(p.node, p.left, x.left), Branch(root, x.right, t.right));
        Rotation(p.node, x.node, p.left, x.left, x.right);
        Rotation(x.node, root, Branch(p.node, p.left, x.left), x.right, t.right);
      }
    }
  }

  method TurnAfterLeft(root: Node, ghost t: Shape<Node>) returns (top: Node, ghost t': Shape<Node>)
    requires t.Branch? && t.node == root && Models(t, root) && Unique(t)
    modifies Nodes(t)
    ensures Models(t', top) && Unique(t') && Nodes(t') == Nodes(t) && InOrder(t') == InOrder(t)
  {
    top, t' := root, t;
    if GetHeight(root.r, t.right) - GetHeight(root.l, t.left) > 1 {
      var tmp := root.r;
      ghost var p := t.right;
      assert Models(p.left, tmp.l) && Models(p.right, tmp.r);
      if tmp.r != null {
        top := RR(root, p.node, p.right, p.left, t.left);
        t' := Branch(p.node, Branch(root, t.left, p.left), p.right);
        Rotation(root, p.node, t.left, p.left, p.right);
      } else {
        ghost var x := p.left;
        top := RL(root, p.node, x.node, p.right, x.right, x.left, t.left);
        t' := Branch(x.node, Branch(root, t.left, x.left), Branch(p.node, x.right, p.right));
        Rotation(x.node, p.node, x.left, x.right, p.right);
        Rotation(root, x.node, t.left, x.left, Branch(p.node, x.right, p.right));
      }
    }
  }

  /** The node with the value is the root: it is unlinked. */
  method RemoveRoot(root: Node, ghost t: Shape<Node>) returns (top: Node?, ghost t': Shape<Node>)
    requires t.Branch? && t.node == root && Models(t, root) && Unique(t)
    modifies Nodes(t)
    ensures Models(t', top) && Unique(t') && Nodes(t') == Nodes(t) - {root}
    ensures InOrder(t') == InOrder(t.left) + InOrder(t.right)
  {
    if root.l == null {
      top, t' := root.r, t.right;
      assert InOrder(t.left) == [];
    } else if root.r == null {
      top, t' := root.l, t.left;
      assert InOrder(t.right) == [];
    } else if root.l.r == null {
      top := root.l;
      ghost var p := t.left;
      assert Models(p.left, top.l) && Models(p.right, top.r) && Models(t.right, root.r);
      top.r := root.r;
      t' := Branch(p.node, p.left, t.right);
      assert Models(p.left, top.l) && Models(t.right, top.r);
      assert InOrder(p) == InOrder(p.left) + [p.node];
    } else {
      top, t' := ReplaceByPredecessor(root, t);
    }
  }

  /** Deletion by `DelNode_re`: exactly the node with the value goes, every other node keeps its place. */
  method DelNodeRe(root: Node?, val: int, ghost t: Shape<Node>) returns (top: Node?, ghost t': Shape<Node>)
    requires Models(t, root) && SearchTree(t)
    modifies Nodes(t)
    ensures Models(t', top) && SearchTree(t') && Nodes(t') <= Nodes(t)
    ensures InOrder(t') == Without(InOrder(t), val)
    decreases t
  {
    hide Sorted, Without, InOrder;
    if root == null {
      NothingToDelete(val);
      return null, Leaf;
    }
    SubtreesSorted(t);
    SortedWithout(InOrder(t), val);
    OrderOfBranch(root, t.left, t.right);
    WithoutBranch(InOrder(t.left), t.node, InOrder(t.right), val);
    if val > root.val {
      ghost var r;
      var below;
      assert allocated(Nodes(t.left)) && allocated(Nodes(t.right));
      below, r := DelNodeRe(root.r, val, t.right);
      assert Models(t.left, root.l);
      root.r := below;
      assert Models(t.left, root.l) && Models(r, root.r);
      OrderOfBranch(root, t.left, r);
      top, t' := TurnAfterRight(root, Branch(root, t.left, r));
    } else if val < root.val {
      ghost var l;
      var below;
      assert allocated(Nodes(t.left)) && allocated(Nodes(t.right));
      below, l := DelNodeRe(root.l, val, t.left);
      assert Models(t.right, root.r);
      root.l := below;
      assert Models(t.right, root.r) && Models(l, root.l);
      OrderOfBranch(root, l, t.right);
      top, t' := TurnAfterLeft(root, Branch(root, l, t.right));
    } else {
      top, t' := RemoveRoot(root, t);
    }
  }

  lemma NothingToDelete(val: int)
    ensures SearchTree(Leaf) && InOrder<Node>(Leaf) == Without(InOrder<Node>(Leaf), val)
  {
  }

  lemma OrderOfBranch(n: Node, l: Shape<Node>, r: Shape<Node>)
    ensures InOrder(Branch(n, l, r)) == InOrder(l) + [n] + InOrder(r)
  {
  }

  /** So the keys are the old ones without the value. */
  lemma DeletedKeys(t: Shape<Node>, t': Shape<Node>, val: int)
    requires SearchTree(t) && InOrder(t') == Without(InOrder(t), val)
    ensures Keys(t') == Keys(t) - {val}
  {
    SortedWithout(InOrder(t), val);
    hide Sorted, Without, InOrder;
    forall k | k in Keys(t) - {val}
      ensures k in Keys(t')
    {
      var n :| n in InOrder(t) && n.val == k;
      assert n in InOrder(t');
    }
    forall k | k in Keys(t')
      ensures k in Keys(t) - {val}
    {
      var n :| n in InOrder(t') && n.val == k;
      assert n in InOrder(t);
    }
  }
}
