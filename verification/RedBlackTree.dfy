/**
 Insertion into a red-black tree on nodes with parent pointers (RB_tree.cpp): the search tree, its links,
 termination, and that shape and colours are those of the model in RedBlackColors, round by round.
 */
module RedBlackTree {
  import opened BinaryTree
  import opened RedBlackColors

  datatype Color = RED | BLACK

  class Node {
    const val: int
    var l: Node?
    var r: Node?
    var p: Node?
    var color: Color

    constructor (v: int)
      ensures val == v && l == null && r == null && p == null && color == RED
    {
      val, l, r, p, color := v, null, null, null, RED;
    }
  }

  /** The objects below x, with parent q, form the tree t. */
  ghost predicate Models(t: Shape<Node>, x: Node?, q: Node?)
    reads Nodes(t)`l, Nodes(t)`r, Nodes(t)`p
  {
    match t
    case Leaf => x == null
    case Branch(n, left, right) => x == n && n.p == q && Models(left, n.l, n) && Models(right, n.r, n)
  }

  /** The objects around the gap: the gap holds x, its parent is q, and the whole tree hangs on root. */
  ghost predicate ModelsPath(c: Path<Node>, x: Node?, q: Node?, root: Node?)
    reads PathNodes(c)`l, PathNodes(c)`r, PathNodes(c)`p
  {
    match c
    case Top => x == root && q == null
    case InLeft(n, right, up) => q == n && n.l == x && Models(right, n.r, n) && ModelsPath(up, n, n.p, root)
    case InRight(n, left, up) => q == n && n.r == x && Models(left, n.l, n) && ModelsPath(up, n, n.p, root)
  }

  ghost predicate Sorted(nodes: seq<Node>) {
    forall i, j | 0 <= i < j < |nodes| :: nodes[i].val < nodes[j].val
  }

  lemma {:induction false} ModelsPlug(c: Path<Node>, t: Shape<Node>, x: Node?, q: Node?, root: Node?)
    requires ModelsPath(c, x, q, root) && Models(t, x, q)
    ensures Models(Plug(c, t), root, null)
    decreases c
  {
    match c
    case Top =>
    case InLeft(n, right, up) => ModelsPlug(up, Branch(n, t, right), n, n.p, root);
    case InRight(n, left, up) => ModelsPlug(up, Branch(n, left, t), n, n.p, root);
  }

  lemma MoveUpModels(c: Path<Node>, t: Shape<Node>, x: Node?, q: Node?, root: Node?)
    requires !c.Top? && Models(t, x, q) && ModelsPath(c, x, q, root)
    ensures q == c.node && Models(Up(c, t), c.node, c.node.p) && ModelsPath(c.up, c.node, c.node.p, root)
  {
  }

  lemma MoveDownModels(c: Path<Node>, t: Shape<Node>, root: Node?)
    requires !c.Top? && t.Branch? && Models(Up(c, t), c.node, c.node.p) && ModelsPath(c.up, c.node, c.node.p, root)
    ensures Models(t, t.node, t.node.p) && ModelsPath(c, t.node, t.node.p, root)
  {
    assert Models(t, if c.InLeft? then c.node.l else c.node.r, c.node);
  }

  /** The node on the other side of the gap's parent. */
  lemma SiblingLinks(c: Path<Node>, t: Shape<Node>, x: Node)
    requires !c.Top? && UniqueIn(c, t) && t.Branch? && t.node == x && Models(Up(c, t), c.node, c.node.p)
    ensures if c.InLeft? then c.node.l == x && (c.node.r != null ==> c.node.r in Nodes(c.right)) && c.node.r != x
            else c.node.r == x && (c.node.l != null ==> c.node.l in Nodes(c.left)) && c.node.l != x
  {
    if c.InLeft? {
      assert Models(t, c.node.l, c.node) && Models(c.right, c.node.r, c.node);
    } else {
      assert Models(t, c.node.r, c.node) && Models(c.left, c.node.l, c.node);
    }
  }

  lemma {:induction false} RootOnPath(c: Path<Node>, x: Node?, q: Node?, root: Node?)
    requires ModelsPath(c, x, q, root) && !c.Top?
    ensures root != null && root in PathNodes(c)
  {
    var n := c.node;
    if !c.up.Top? {
      RootOnPath(c.up, n, n.p, root);
    }
  }

  // ---------------------------------------------------------------------------------------------
  // Rotations
  // ---------------------------------------------------------------------------------------------

  /** (root: (tmp: a, b), d) becomes (tmp: a, (root: b, d)). The caller stores the new top. */
  method LL(root: Node, ghost child: Node, ghost a: Shape<Node>, ghost b: Shape<Node>, ghost d: Shape<Node>)
    returns (top: Node)
    requires var t := Branch(root, Branch(child, a, b), d); Unique(t) && Models(t, root, root.p)
    modifies Nodes(Branch(root, Branch(child, a, b), d))`l, Nodes(Branch(root, Branch(child, a, b), d))`r
    modifies Nodes(Branch(root, Branch(child, a, b), d))`p
    ensures top == child && Models(Branch(child, a, Branch(root, b, d)), top, old(root.p))
  {
    ghost var inner := Branch(child, a, b);
    assert Models(inner, root.l, root) && Models(d, root.r, root);
    assert Unique(inner) && Unique(a) && Unique(b) && Unique(d);
    assert Models(a, child.l, child) && Models(b, child.r, child);
    assert b.Branch? ==> b.node in Nodes(b) && b.node !in Nodes(b.left) && b.node !in Nodes(b.right);
    var tmp := root.l;
    root.l := tmp.r;
    if tmp.r != null {
      tmp.r.p := root;
    }
    tmp.r := root;
    tmp.p := root.p;
    root.p := tmp;
    top := tmp;
    assert Models(a, tmp.l, tmp) && Models(b, root.l, root) && Models(d, root.r, root);
  }

  /** (root: d, (tmp: b, a)) becomes (tmp: (root: d, b), a). */
  method RR(root: Node, ghost child: Node, ghost a: Shape<Node>, ghost b: Shape<Node>, ghost d: Shape<Node>)
    returns (top: Node)
    requires var t := Branch(root, d, Branch(child, b, a)); Unique(t) && Models(t, root, root.p)
    modifies Nodes(Branch(root, d, Branch(child, b, a)))`l, Nodes(Branch(root, d, Branch(child, b, a)))`r
    modifies Nodes(Branch(root, d, Branch(child, b, a)))`p
    ensures top == child && Models(Branch(child, Branch(root, d, b), a), top, old(root.p))
  {
    ghost var inner := Branch(child, b, a);
    assert Models(inner, root.r, root) && Models(d, root.l, root);
    assert Unique(inner) && Unique(a) && Unique(b) && Unique(d);
    assert Models(a, child.r, child) && Models(b, child.l, child);
    assert b.Branch? ==> b.node in Nodes(b) && b.node !in Nodes(b.left) && b.node !in Nodes(b.right);
    var tmp := root.r;
    root.r := tmp.l;
    if tmp.l != null {
      tmp.l.p := root;
    }
    tmp.l := root;
    tmp.p := root.p;
    root.p := tmp;
    top := tmp;
    assert Models(a, tmp.r, tmp) && Models(b, root.r, root) && Models(d, root.l, root);
  }

  /** (root: (p: a, (x: b, e)), d) becomes (x: (p: a, b), (root: e, d)). */
  method LR(root: Node, ghost p: Node, ghost x: Node, ghost a: Shape<Node>, ghost b: Shape<Node>, ghost e: Shape<Node>,
            ghost d: Shape<Node>) returns (top: Node)
    requires var t := Branch(root, Branch(p, a, Branch(x, b, e)), d); Unique(t) && Models(t, root, root.p)
    modifies Nodes(Branch(root, Branch(p, a, Branch(x, b, e)), d))`l
    modifies Nodes(Branch(root, Branch(p, a, Branch(x, b, e)), d))`r
    modifies Nodes(Branch(root, Branch(p, a, Branch(x, b, e)), d))`p
    ensures top == x && Models(Branch(x, Branch(p, a, b), Branch(root, e, d)), top, old(root.p))
  {
    ghost var inner := Branch(p, a, Branch(x, b, e));
    Rotation(p, x, a, b, e);
    assert Models(inner, root.l, root) && Models(d, root.r, root) && Unique(inner);
    assert Nodes(d) !! Nodes(inner) && root !in Nodes(inner);
    assert p == root.l && p.p == root && allocated(Nodes(d));
    var below := RR(root.l, x, e, b, a);
    assert Models(d, root.r, root);
    root.l := below;
    assert Models(d, root.r, root);
    top := LL(root, x, Branch(p, a, b), e, d);
  }

  /** (root: d, (p: (x: e, b), a)) becomes (x: (root: d, e), (p: b, a)). */
  method RL(root: Node, ghost p: Node, ghost x: Node, ghost a: Shape<Node>, ghost b: Shape<Node>, ghost e: Shape<Node>,
            ghost d: Shape<Node>) returns (top: Node)
    requires var t := Branch(root, d, Branch(p, Branch(x, e, b), a)); Unique(t) && Models(t, root, root.p)
    modifies Nodes(Branch(root, d, Branch(p, Branch(x, e, b), a)))`l
    modifies Nodes(Branch(root, d, Branch(p, Branch(x, e, b), a)))`r
    modifies Nodes(Branch(root, d, Branch(p, Branch(x, e, b), a)))`p
    ensures top == x && Models(Branch(x, Branch(root, d, e), Branch(p, b, a)), top, old(root.p))
  {
    ghost var inner := Branch(p, Branch(x, e, b), a);
    Rotation(x, p, e, b, a);
    assert Models(inner, root.r, root) && Models(d, root.l, root) && Unique(inner);
    assert Nodes(d) !! Nodes(inner) && root !in Nodes(inner);
    assert p == root.r && p.p == root && allocated(Nodes(d));
    var below := LL(root.r, x, e, b, a);
    assert Models(d, root.l, root);
    root.r := below;
    assert Models(d, root.l, root);
    top := RR(root, x, Branch(p, b, a), e, d);
  }

  // ---------------------------------------------------------------------------------------------
  // The tree
  // ---------------------------------------------------------------------------------------------

  /** No node twice, and everything in order. */
  ghost predicate Fits(c: Path<Node>, t: Shape<Node>) {
    UniqueIn(c, t) && Sorted(Order(c, t))
  }

  /** A node in the gap is smaller than the node on the right of it and greater than the one on the left. */
  lemma GapIsBetween(c: Path<Node>, t: Shape<Node>, son: Node)
    requires Sorted(Order(c, t)) && son in Nodes(t)
    ensures c.InLeft? ==> c.node.val > son.val
    ensures c.InRight? ==> c.node.val < son.val
  {
    NodesAreInOrder(t);
    var all := Order(c, t);
    var k :| 0 <= k < |InOrder(t)| && InOrder(t)[k] == son;
    assert all[|Before(c)| + k] == son;
    match c
    case Top =>
    case InLeft(n, right, up) => assert all[|Before(c)| + |InOrder(t)|] == n;
    case InRight(n, left, up) => assert all[|Before(c)| - 1] == n;
  }

  /** (gp: (p: t, s), u) turned right, or its mirror image: the same nodes in the same order. */
  lemma SingleRotation(up: Path<Node>, gp: Node, p: Node, a: Shape<Node>, b: Shape<Node>, d: Shape<Node>)
    ensures var t, u := Branch(gp, Branch(p, a, b), d), Branch(p, a, Branch(gp, b, d));
      (Fits(up, t) <==> Fits(up, u)) && AllNodes(up, t) == AllNodes(up, u) && Order(up, t) == Order(up, u)
  {
    Rotation(p, gp, a, b, d);
  }

  /** Two rotations: x comes up between p and gp. */
  lemma DoubleRotation(up: Path<Node>, gp: Node, p: Node, x: Node, a: Shape<Node>, b: Shape<Node>,
                       e: Shape<Node>, d: Shape<Node>)
    ensures var t, u := Branch(gp, Branch(p, a, Branch(x, b, e)), d), Branch(x, Branch(p, a, b), Branch(gp, e, d));
      (Fits(up, t) <==> Fits(up, u)) && AllNodes(up, t) == AllNodes(up, u) && Order(up, t) == Order(up, u)
    ensures var t, u := Branch(p, a, Branch(gp, Branch(x, b, e), d)), Branch(x, Branch(p, a, b), Branch(gp, e, d));
      (Fits(up, t) <==> Fits(up, u)) && AllNodes(up, t) == AllNodes(up, u) && Order(up, t) == Order(up, u)
  {
    Rotation(p, x, a, b, e);
    SingleRotation(up, gp, p, a, Branch(x, b, e), d);
    SingleRotation(up, gp, x, Branch(p, a, b), e, d);
  }

  class Tree {
    var root: Node?
    ghost var shape: Shape<Node>

    ghost predicate Valid()
      reads this, Nodes(shape)
    {
      && Models(shape, root, null) && Unique(shape) && Sorted(InOrder(shape))
      && (root != null ==> root.color == BLACK)
    }

    constructor ()
      ensures Valid() && shape == Leaf
    {
      root, shape := null, Leaf;
    }

    /** Hangs the subtree `son` under `parent`: the comparison of the values finds the side it belongs to. */
    method RebuildCon(son: Node, parent: Node?, ghost up: Path<Node>, ghost t: Shape<Node>, ghost was: Node)
      requires ModelsPath(up, was, parent, root) && Fits(up, t) && son in Nodes(t)
      modifies `root, PathNodes(up)`l, PathNodes(up)`r
      ensures ModelsPath(up, son, parent, root)
      ensures root == if up.Top? then son else old(root)
    {
      GapIsBetween(up, t, son);
      assert allocated(PathNodes(up));
      if parent == null {
        root := son;
      } else if parent.val > son.val {
        parent.l := son;
      } else {
        parent.r := son;
      }
    }

    static ghost function Reds(nodes: set<Node>): set<Node>
      reads nodes`color
    {
      set n | n in nodes && n.color == RED
    }

    /** The subtree t hangs at newNode, in the gap of c; the root is black unless it is newNode itself. */
    ghost predicate Fixing(newNode: Node, t: Shape<Node>, c: Path<Node>)
      reads `root, AllNodes(c, t)
    {
      && Fits(c, t) && t.Branch? && t.node == newNode && Models(t, newNode, newNode.p)
      && ModelsPath(c, newNode, newNode.p, root)
      && root in AllNodes(c, t) && (root == newNode || root.color == BLACK)
    }

    /** A red parent is not the root, so there is a grandparent. */
    lemma HasGrandparent(newNode: Node, t: Shape<Node>, c: Path<Node>)
      requires Fixing(newNode, t, c) && newNode.p != null && newNode.p.color == RED
      ensures !c.Top? && c.node == newNode.p && !c.up.Top? && c.up.node == newNode.p.p
      ensures Placed(c.up.node, Up(c.up, Up(c, t)), c.up.up)
      ensures Placed(c.node, Up(c, t), c.up)
    {
      MoveUp(c, t);
      MoveUpModels(c, t, newNode, newNode.p, root);
      assert newNode in Nodes(t) && c.node in PathNodes(c);
      assert !c.up.Top?;
      MoveUp(c.up, Up(c, t));
      MoveUpModels(c.up, Up(c, t), c.node, c.node.p, root);
    }

    /** As Fixing, without the colour of the root. */
    ghost predicate Placed(x: Node, t: Shape<Node>, c: Path<Node>)
      reads `root, AllNodes(c, t)
    {
      && Fits(c, t) && t.Branch? && t.node == x && Models(t, x, x.p)
      && ModelsPath(c, x, x.p, root) && root in AllNodes(c, t)
    }

    /** The subtree at gp is ready to be turned: the root is black, above it or gp itself. */
    ghost predicate Turnable(gp: Node, t: Shape<Node>, up: Path<Node>)
      reads `root, AllNodes(up, t)
    {
      Placed(gp, t, up) && (root == gp || (root in PathNodes(up) && root.color == BLACK))
    }

    /** Red uncle: colours only, and the grandparent is looked at next. */
    method Recolor(p: Node, gp: Node, u: Node, ghost all: Shape<Node>, ghost up: Path<Node>)
      requires Turnable(gp, all, up) && p in Nodes(all) && u in Nodes(all) && p != gp && u != gp
      modifies p`color, u`color, gp`color
      ensures Fixing(gp, all, up) && p.color == u.color == BLACK && gp.color == RED
    {
      p.color := BLACK;
      u.color := BLACK;
      gp.color := RED;
    }

    /** The new top of a turned subtree is hung where the old one was. */
    method Hang(top: Node, gp: Node, ghost t: Shape<Node>, ghost up: Path<Node>)
      requires Fits(up, t) && t.Branch? && t.node == top && Models(t, top, top.p) && ModelsPath(up, gp, top.p, root)
      requires top.color == BLACK && (!up.Top? ==> root in PathNodes(up) && root.color == BLACK)
      modifies `root, PathNodes(up)`l, PathNodes(up)`r
      ensures Placed(top, t, up) && root.color == BLACK
    {
      hide Fits;
      FitsFacts(up, t);
      assert allocated(Nodes(t)) && allocated(PathNodes(up));
      RebuildCon(top, top.p, up, t, gp);
    }

    static lemma FitsFacts(c: Path<Node>, t: Shape<Node>)
      requires Fits(c, t)
      ensures UniqueIn(c, t) && Sorted(Order(c, t))
    {
    }

    /** newNode is the left child of the left child: one rotation. */
    method TurnRight(p: Node, gp: Node, ghost a: Shape<Node>, ghost b: Shape<Node>, ghost d: Shape<Node>,
                     ghost up: Path<Node>)
      requires Turnable(gp, Branch(gp, Branch(p, a, b), d), up)
      modifies `root, AllNodes(up, Branch(gp, Branch(p, a, b), d))`l
      modifies AllNodes(up, Branch(gp, Branch(p, a, b), d))`r, AllNodes(up, Branch(gp, Branch(p, a, b), d))`p
      modifies p`color, gp`color
      ensures Placed(p, Branch(p, a, Branch(gp, b, d)), up) && root.color == BLACK && p.color == BLACK && gp.color == RED
    {
      hide Fits, InOrder, Order, Sorted;
      ghost var t, u := Branch(gp, Branch(p, a, b), d), Branch(p, a, Branch(gp, b, d));
      SingleRotation(up, gp, p, a, b, d);
      FitsFacts(up, t);
      if !up.Top? {
        RootOnPath(up, gp, gp.p, root);
      }
      assert allocated(Nodes(t)) && allocated(PathNodes(up));
      gp.color := RED;
      p.color := BLACK;
      var top := LL(gp, p, a, b, d);
      assert ModelsPath(up, gp, top.p, root);
      Hang(top, gp, u, up);
    }

    method TurnLeft(p: Node, gp: Node, ghost a: Shape<Node>, ghost b: Shape<Node>, ghost d: Shape<Node>,
                    ghost up: Path<Node>)
      requires Turnable(gp, Branch(gp, d, Branch(p, b, a)), up)
      modifies `root, AllNodes(up, Branch(gp, d, Branch(p, b, a)))`l
      modifies AllNodes(up, Branch(gp, d, Branch(p, b, a)))`r, AllNodes(up, Branch(gp, d, Branch(p, b, a)))`p
      modifies p`color, gp`color
      ensures Placed(p, Branch(p, Branch(gp, d, b), a), up) && root.color == BLACK && p.color == BLACK && gp.color == RED
    {
      hide Fits, InOrder, Order, Sorted;
      ghost var t, u := Branch(gp, d, Branch(p, b, a)), Branch(p, Branch(gp, d, b), a);
      SingleRotation(up, p, gp, d, b, a);
      FitsFacts(up, t);
      if !up.Top? {
        RootOnPath(up, gp, gp.p, root);
      }
      assert allocated(Nodes(t)) && allocated(PathNodes(up));
      gp.color := RED;
      p.color := BLACK;
      var top := RR(gp, p, a, b, d);
      assert ModelsPath(up, gp, top.p, root);
      Hang(top, gp, u, up);
    }

    /** newNode is the right child of the left child: two rotations bring it up, coloured black. */
    method TurnLeftRight(newNode: Node, gp: Node, ghost p: Node, ghost a: Shape<Node>, ghost b: Shape<Node>,
                         ghost e: Shape<Node>, ghost d: Shape<Node>, ghost up: Path<Node>)
      requires Turnable(gp, Branch(gp, Branch(p, a, Branch(newNode, b, e)), d), up)
      modifies `root, AllNodes(up, Branch(gp, Branch(p, a, Branch(newNode, b, e)), d))`l
      modifies AllNodes(up, Branch(gp, Branch(p, a, Branch(newNode, b, e)), d))`r, AllNodes(up, Branch(gp, Branch(p, a, Branch(newNode, b, e)), d))`p
      modifies newNode`color, gp`color
      ensures Placed(newNode, Branch(newNode, Branch(p, a, b), Branch(gp, e, d)), up) && root.color == BLACK && newNode.color == BLACK && gp.color == RED
    {
      hide Fits, InOrder, Order, Sorted, Models, ModelsPath;
      ghost var t := Branch(gp, Branch(p, a, Branch(newNode, b, e)), d);
      ghost var u := Branch(newNode, Branch(p, a, b), Branch(gp, e, d));
      DoubleRotation(up, gp, p, newNode, a, b, e, d);
      FitsFacts(up, t);
      assert newNode in Nodes(Branch(p, a, Branch(newNode, b, e)));
      if !up.Top? {
        RootOnPath(up, gp, gp.p, root);
      }
      assert allocated(Nodes(t)) && allocated(PathNodes(up));
      gp.color := RED;
      newNode.color := BLACK;
      var top := LR(gp, p, newNode, a, b, e, d);
      assert ModelsPath(up, gp, top.p, root);
      Hang(top, gp, u, up);
    }

    method TurnRightLeft(newNode: Node, gp: Node, ghost p: Node, ghost a: Shape<Node>, ghost b: Shape<Node>,
                         ghost e: Shape<Node>, ghost d: Shape<Node>, ghost up: Path<Node>)
      requires Turnable(gp, Branch(gp, d, Branch(p, Branch(newNode, e, b), a)), up)
      modifies `root, AllNodes(up, Branch(gp, d, Branch(p, Branch(newNode, e, b), a)))`l
      modifies AllNodes(up, Branch(gp, d, Branch(p, Branch(newNode, e, b), a)))`r, AllNodes(up, Branch(gp, d, Branch(p, Branch(newNode, e, b), a)))`p
      modifies newNode`color, gp`color
      ensures Placed(newNode, Branch(newNode, Branch(gp, d, e), Branch(p, b, a)), up) && root.color == BLACK && newNode.color == BLACK && gp.color == RED
    {
      hide Fits, InOrder, Order, Sorted, Models, ModelsPath;
      ghost var t := Branch(gp, d, Branch(p, Branch(newNode, e, b), a));
      ghost var u := Branch(newNode, Branch(gp, d, e), Branch(p, b, a));
      DoubleRotation(up, p, gp, newNode, d, e, b, a);
      FitsFacts(up, t);
      assert newNode in Nodes(Branch(p, Branch(newNode, e, b), a));
      if !up.Top? {
        RootOnPath(up, gp, gp.p, root);
      }
      assert allocated(Nodes(t)) && allocated(PathNodes(up));
      gp.color := RED;
      newNode.color := BLACK;
      var top := RL(gp, p, newNode, a, b, e, d);
      assert ModelsPath(up, gp, top.p, root);
      Hang(top, gp, u, up);
    }

    /** Back down into the child after a single rotation. */
    lemma MoveDown(newNode: Node, t: Shape<Node>, c: Path<Node>)
      requires !c.Top? && Placed(c.node, Up(c, t), c.up) && t.Branch? && t.node == newNode && root.color == BLACK
      ensures Fixing(newNode, t, c)
    {
      MoveUp(c, t);
      MoveDownModels(c, t, root);
    }

    /** What a round finds: the grandparent's subtree ready to be turned, and the links as the path says. */
    ghost predicate RoundReady(newNode: Node, t: Shape<Node>, c: Path<Node>)
      reads `root, AllNodes(c, t)
    {
      && Fixing(newNode, t, c) && !c.Top? && !c.up.Top? && c.node.color == RED
      && var all := Up(c.up, Up(c, t));
      && AllNodes(c, t) == AllNodes(c.up.up, all) && Order(c, t) == Order(c.up.up, all)
      && Turnable(c.up.node, all, c.up.up)
    }

    /** The parent is a left child. */
    method FixLeft(newNode: Node, p: Node, gp: Node, ghost t: Shape<Node>, ghost c: Path<Node>)
      returns (next: Node, ghost t': Shape<Node>, ghost c': Path<Node>)
      requires RoundReady(newNode, t, c) && c.up.InLeft? && p == c.node && gp == c.up.node
      modifies `root, AllNodes(c, t)
      ensures Fixing(next, t', c') && Height(c') < Height(c)
      ensures AllNodes(c', t') == AllNodes(c, t) && Order(c', t') == Order(c, t)
      ensures var x := Repair(c, t, old(Reds(AllNodes(c, t))));
        GoesOn(x) && Repair(c', t', Reds(AllNodes(c', t'))) == Round(x)
    {
      hide Fits, Models, ModelsPath, InOrder, Before, After, Turnable, Nodes, PathNodes, Fixing;
      RoundReadyFacts(newNode, t, c);
      GrandchildLinks(newNode, t, c);
      RoundNodes(newNode, t, c);
      ghost var up, x := c.up.up, Repair(c, t, Reds(AllNodes(c, t)));
      var u := gp.r;
      if u != null && u.color == RED {
        assert u == Sibling(c.up).node && IsRed(Sibling(c.up), x.reds);
        Recolor(p, gp, u, Up(c.up, Up(c, t)), up);
        assert Reds(AllNodes(c, t)) == x.reds - {p, u} + {gp};
        return gp, Up(c.up, Up(c, t)), up;
      }
      assert !IsRed(Sibling(c.up), x.reds);
      if newNode == p.l {
        SingleRotation(up, gp, p, t, c.right, c.up.right);
        TurnRight(p, gp, t, c.right, c.up.right, up);
        assert Reds(AllNodes(c, t)) == x.reds - {p} + {gp};
        next, t', c' := newNode, t, TurnedOuter(c);
        MoveDown(newNode, t, c');
        MoveUp(c', t);
      } else {
        DoubleRotation(up, gp, p, newNode, c.left, t.left, t.right, c.up.right);
        TurnLeftRight(newNode, gp, p, c.left, t.left, t.right, c.up.right, up);
        assert Reds(AllNodes(c, t)) == x.reds - {newNode} + {gp};
        next, t', c' := newNode, TurnedInner(c, t), up;
        PlacedIsFixing(newNode, t', up);
      }
    }

    /** Its mirror image. */
    method FixRight(newNode: Node, p: Node, gp: Node, ghost t: Shape<Node>, ghost c: Path<Node>)
      returns (next: Node, ghost t': Shape<Node>, ghost c': Path<Node>)
      requires RoundReady(newNode, t, c) && c.up.InRight? && p == c.node && gp == c.up.node
      modifies `root, AllNodes(c, t)
      ensures Fixing(next, t', c') && Height(c') < Height(c)
      ensures AllNodes(c', t') == AllNodes(c, t) && Order(c', t') == Order(c, t)
      ensures var x := Repair(c, t, old(Reds(AllNodes(c, t))));
        GoesOn(x) && Repair(c', t', Reds(AllNodes(c', t'))) == Round(x)
    {
      hide Fits, Models, ModelsPath, InOrder, Before, After, Turnable, Nodes, PathNodes, Fixing;
      RoundReadyFacts(newNode, t, c);
      GrandchildLinks(newNode, t, c);
      RoundNodes(newNode, t, c);
      ghost var up, x := c.up.up, Repair(c, t, Reds(AllNodes(c, t)));
      var u := gp.l;
      if u != null && u.color == RED {
        assert u == Sibling(c.up).node && IsRed(Sibling(c.up), x.reds);
        Recolor(p, gp, u, Up(c.up, Up(c, t)), up);
        assert Reds(AllNodes(c, t)) == x.reds - {p, u} + {gp};
        return gp, Up(c.up, Up(c, t)), up;
      }
      assert !IsRed(Sibling(c.up), x.reds);
      if newNode == p.r {
        SingleRotation(up, p, gp, c.up.left, c.left, t);
        TurnLeft(p, gp, t, c.left, c.up.left, up);
        assert Reds(AllNodes(c, t)) == x.reds - {p} + {gp};
        next, t', c' := newNode, t, TurnedOuter(c);
        MoveDown(newNode, t, c');
        MoveUp(c', t);
      } else {
        DoubleRotation(up, p, gp, newNode, c.up.left, t.left, t.right, c.right);
        TurnRightLeft(newNode, gp, p, c.right, t.right, t.left, c.up.left, up);
        assert Reds(AllNodes(c, t)) == x.reds - {newNode} + {gp};
        next, t', c' := newNode, TurnedInner(c, t), up;
        PlacedIsFixing(newNode, t', up);
      }
    }

    lemma PlacedIsFixing(x: Node, t: Shape<Node>, c: Path<Node>)
      requires Placed(x, t, c) && root.color == BLACK
      ensures Fixing(x, t, c)
    {
    }

    lemma RoundReadyFacts(newNode: Node, t: Shape<Node>, c: Path<Node>)
      requires RoundReady(newNode, t, c)
      ensures t.Branch? && t.node == newNode && Placed(c.up.node, Up(c.up, Up(c, t)), c.up.up)
      ensures var all := Up(c.up, Up(c, t)); c.node in Nodes(all) && c.up.node in Nodes(all)
      ensures Sibling(c.up).Branch? ==> Sibling(c.up).node in Nodes(Up(c.up, Up(c, t)))
    {
    }

    /**
     One round of the fix-up, with a red parent. The new node keeps its subtree in another place, or moves
     to a subtree of the same nodes further up; either way it is closer to the root. Shape and colours
     become those of the model.
     */
    method FixStep(newNode: Node, ghost t: Shape<Node>, ghost c: Path<Node>)
      returns (next: Node, ghost t': Shape<Node>, ghost c': Path<Node>)
      requires Fixing(newNode, t, c) && newNode.p != null && newNode.p.color == RED
      modifies `root, AllNodes(c, t)
      ensures Fixing(next, t', c') && Height(c') < Height(c)
      ensures AllNodes(c', t') == AllNodes(c, t) && Order(c', t') == Order(c, t)
      ensures var x := Repair(c, t, old(Reds(AllNodes(c, t))));
        GoesOn(x) && Repair(c', t', Reds(AllNodes(c', t'))) == Round(x)
    {
      hide Fits, Models, ModelsPath, InOrder, Before, After, Turnable, Nodes, PathNodes;
      HasGrandparent(newNode, t, c);
      var p := newNode.p;
      var gp := p.p;
      MoveUp(c, t);
      MoveUp(c.up, Up(c, t));
      RootAbove(newNode, t, c);
      GrandchildLinks(newNode, t, c);
      if p == gp.l {
        next, t', c' := FixLeft(newNode, p, gp, t, c);
      } else {
        next, t', c' := FixRight(newNode, p, gp, t, c);
      }
    }

    lemma RootAbove(newNode: Node, t: Shape<Node>, c: Path<Node>)
      requires Fixing(newNode, t, c) && !c.Top? && !c.up.Top? && Placed(c.up.node, Up(c.up, Up(c, t)), c.up.up)
      ensures Turnable(c.up.node, Up(c.up, Up(c, t)), c.up.up)
    {
      RootOnPath(c, newNode, newNode.p, root);
      if !c.up.up.Top? {
        RootOnPath(c.up.up, c.up.node, c.up.node.p, root);
      }
    }

    static ghost predicate Hangs(n: Node?, t: Shape<Node>) {
      if t.Leaf? then n == null else n == t.node
    }

    /** The nodes that a round looks at are different, and their colours are those of the model. */
    lemma RoundNodes(newNode: Node, t: Shape<Node>, c: Path<Node>)
      requires Fixing(newNode, t, c) && !c.Top? && !c.up.Top? && c.node.color == RED
      ensures var x := Repair(c, t, Reds(AllNodes(c, t))); GoesOn(x) && Apart(x)
      ensures {newNode, c.node, c.up.node} <= AllNodes(c, t) && Nodes(Sibling(c.up)) <= AllNodes(c, t)
      ensures Sibling(c.up).Branch? ==> Sibling(c.up).node in AllNodes(c, t)
    {
      assert c.node in PathNodes(c) && c.up.node in PathNodes(c.up) && newNode in Nodes(t);
      PartsAreApart(Repair(c, t, Reds(AllNodes(c, t))));
    }

    /** Which side of its parent a node hangs on is what the path says. */
    lemma GrandchildLinks(newNode: Node, t: Shape<Node>, c: Path<Node>)
      requires Fixing(newNode, t, c) && !c.Top? && !c.up.Top? && Placed(c.up.node, Up(c.up, Up(c, t)), c.up.up)
      ensures c.InLeft? <==> newNode == c.node.l
      ensures c.InRight? <==> newNode == c.node.r
      ensures c.up.InLeft? <==> c.node == c.up.node.l
      ensures c.up.InLeft? ==> (c.up.node.r != null ==> c.up.node.r in Nodes(c.up.right))
      ensures c.up.InRight? ==> (c.up.node.l != null ==> c.up.node.l in Nodes(c.up.left))
      ensures c.up.InLeft? ==> Hangs(c.up.node.r, c.up.right)
      ensures c.up.InRight? ==> Hangs(c.up.node.l, c.up.left)
    {
      MoveUp(c, t);
      MoveUpModels(c, t, newNode, newNode.p, root);
      SiblingLinks(c, t, newNode);
      SiblingLinks(c.up, Up(c, t), c.node);
    }

    /** The loop stops where the parent is not red, or where there is none. */
    lemma Stopped(x: Node, t: Shape<Node>, c: Path<Node>)
      requires Fixing(x, t, c) && (x.p == null || x.p.color != RED)
      ensures var y := Repair(c, t, Reds(AllNodes(c, t))); !GoesOn(y) && Rounds(y) == y
    {
    }

    /** What the loop leaves is a whole tree, hanging on its root. */
    lemma WholeTree(x: Node, t: Shape<Node>, c: Path<Node>)
      requires Fixing(x, t, c)
      ensures var all := Plug(c, t);
        && Models(all, root, null) && Unique(all) && Sorted(InOrder(all))
        && Nodes(all) == AllNodes(c, t) && InOrder(all) == Order(c, t) && RootOf(c, t) == {root}
    {
      FitsFacts(c, t);
      InOrderPlug(c, t);
      PlugIsUnique(c, t);
      ModelsPlug(c, t, x, x.p, root);
    }

    /**
     The fix-up ends, at most one round for every level, with a black root and the same nodes in order; shape
     and colours are those that all rounds of the model lead to.
     */
    method AddFixUp(newNode: Node, ghost t0: Shape<Node>, ghost c0: Path<Node>)
      requires Fixing(newNode, t0, c0)
      modifies this, AllNodes(c0, t0)
      ensures Valid() && InOrder(shape) == Order(c0, t0) && Nodes(shape) == AllNodes(c0, t0)
      ensures (shape, Reds(Nodes(shape))) == Repaired(Repair(c0, t0, old(Reds(AllNodes(c0, t0)))))
    {
      hide Fits, Models, ModelsPath, Nodes, PathNodes, Order, InOrder, Unique, Sorted, Round;
      var x := newNode;
      ghost var t, c, all := t0, c0, AllNodes(c0, t0);
      ghost var start := Repair(c0, t0, Reds(all));
      while x.p != null && x.p.color == RED
        invariant Fixing(x, t, c) && AllNodes(c, t) == all && Order(c, t) == Order(c0, t0)
        invariant Rounds(Repair(c, t, Reds(all))) == Rounds(start)
        decreases Height(c)
      {
        x, t, c := FixStep(x, t, c);
      }
      Stopped(x, t, c);
      WholeTree(x, t, c);
      ghost var reds := Reds(all);
      root.color := BLACK;
      assert Reds(all) == reds - {root};
      assert Rounds(start) == Repair(c, t, reds);
      assert Repaired(start) == (Plug(c, t), reds - {root});
      shape := Plug(c, t);
      assert Reds(Nodes(shape)) == reds - {root};
    }

    ghost function Keys(): set<int>
      reads this
    {
      set n | n in Nodes(shape) :: n.val
    }

    /** The gap of c is where val belongs. */
    static ghost predicate Separates(c: Path<Node>, val: int) {
      (forall n <- Before(c) :: n.val < val) && forall n <- After(c) :: val < n.val
    }

    /** The search: the subtree t hangs at p, in the gap of c, below pre. */
    ghost predicate Searching(p: Node?, pre: Node?, t: Shape<Node>, c: Path<Node>, val: int)
      reads `root, AllNodes(c, t)
    {
      && Fits(c, t) && Separates(c, val) && pre == (if c.Top? then root else c.node)
      && var q := if c.Top? then null else pre; Models(t, p, q) && ModelsPath(c, p, q, root)
    }

    lemma SearchLeft(p: Node, pre: Node?, t: Shape<Node>, c: Path<Node>, val: int)
      requires Searching(p, pre, t, c, val) && val < p.val
      ensures t.Branch? && t.node == p
      ensures var c', t' := InLeft(p, t.right, c), t.left;
        Searching(p.l, p, t', c', val) && AllNodes(c', t') == AllNodes(c, t) && Order(c', t') == Order(c, t)
    {
      var c' := InLeft(p, t.right, c);
      MoveUp(c', t.left);
      AfterIsAbove(c, t, p);
      NodesAreInOrder(t.right);
    }

    lemma SearchRight(p: Node, pre: Node?, t: Shape<Node>, c: Path<Node>, val: int)
      requires Searching(p, pre, t, c, val) && val > p.val
      ensures t.Branch? && t.node == p
      ensures var c', t' := InRight(p, t.left, c), t.right;
        Searching(p.r, p, t', c', val) && AllNodes(c', t') == AllNodes(c, t) && Order(c', t') == Order(c, t)
    {
      var c' := InRight(p, t.left, c);
      MoveUp(c', t.right);
      AfterIsAbove(c, t, p);
      NodesAreInOrder(t.left);
    }

    /** In a sorted tree the left subtree is below its root and the right subtree above. */
    static lemma AfterIsAbove(c: Path<Node>, t: Shape<Node>, p: Node)
      requires Fits(c, t) && t.Branch? && t.node == p
      ensures (forall n <- InOrder(t.left) :: n.val < p.val) && forall n <- InOrder(t.right) :: p.val < n.val
    {
      var all, k, m := Order(c, t), |Before(c)|, |InOrder(t.left)|;
      forall n | n in InOrder(t.left)
        ensures n.val < p.val
      {
        var i :| 0 <= i < m && InOrder(t.left)[i] == n;
        assert all[k + i] == n && all[k + m] == p;
      }
      forall n | n in InOrder(t.right)
        ensures p.val < n.val
      {
        var i :| 0 <= i < |InOrder(t.right)| && InOrder(t.right)[i] == n;
        assert all[k + m + 1 + i] == n && all[k + m] == p;
      }
    }

    /** A new leaf in the gap keeps the order. */
    static lemma LeafFits(c: Path<Node>, n: Node, val: int)
      requires Fits(c, Leaf) && Separates(c, val) && n.val == val && n !in PathNodes(c)
      ensures Fits(c, Branch(n, Leaf, Leaf)) && Order(c, Branch(n, Leaf, Leaf)) == Before(c) + [n] + After(c)
      ensures Order(c, Leaf) == Before(c) + After(c)
    {
      hide Sorted;
      var t := Branch(n, Leaf, Leaf);
      assert InOrder(t) == [n];
      assert Order(c, Leaf) == Before(c) + After(c);
      SortedInsert(Before(c), n, After(c));
    }

    static lemma SortedInsert(a: seq<Node>, n: Node, b: seq<Node>)
      requires Sorted(a + b) && (forall x <- a :: x.val < n.val) && forall x <- b :: n.val < x.val
      ensures Sorted(a + [n] + b)
    {
      var was, now, k := a + b, a + [n] + b, |a|;
      forall i, j | 0 <= i < j < |now|
        ensures now[i].val < now[j].val
      {
        if j == k {
          assert now[i] == a[i];
        } else if i == k {
          assert now[j] == b[j - k - 1];
        } else {
          assert now[i] == was[if i < k then i else i - 1] && now[j] == was[if j < k then j else j - 1];
        }
      }
    }

    /** The search loop: finds the value, or the gap where it belongs and the node above the gap. */
    method Search(val: int) returns (found: bool, pre: Node?, ghost c: Path<Node>)
      requires Valid()
      ensures found <==> val in Keys()
      ensures !found ==> Searching(null, pre, Leaf, c, val) && PathNodes(c) == Nodes(shape)
      ensures !found ==> Before(c) + After(c) == InOrder(shape) && (root == null <==> c.Top?)
      ensures !found ==> Plug(c, Leaf) == shape
    {
      hide Fits, Models, ModelsPath;
      pre := root;
      var p := root;
      ghost var t;
      t, c := shape, Top;
      StartSearch(val);
      SearchingShape(p, pre, t, c, val);
      while p != null
        invariant Searching(p, pre, t, c, val) && AllNodes(c, t) == Nodes(shape) && Order(c, t) == InOrder(shape)
        invariant (t.Leaf? <==> p == null) && (t.Branch? ==> t.node == p) && Plug(c, t) == shape
        decreases t
      {
        ghost var parent := pre;
        pre := p;
        if val > p.val {
          SearchRight(p, parent, t, c, val);
          c, t := InRight(p, t.left, c), t.right;
          p := p.r;
        } else if val < p.val {
          SearchLeft(p, parent, t, c, val);
          c, t := InLeft(p, t.right, c), t.left;
          p := p.l;
        } else {
          assert p in Nodes(t);
          return true, pre, c;
        }
        SearchingShape(p, pre, t, c, val);
      }
      found := false;
      GapHasNot(c, val);
      SearchEnds(pre, c, val);
    }

    lemma SearchingShape(p: Node?, pre: Node?, t: Shape<Node>, c: Path<Node>, val: int)
      requires Searching(p, pre, t, c, val)
      ensures (t.Leaf? <==> p == null) && (t.Branch? ==> t.node == p)
    {
    }

    lemma GapIsUnique(pre: Node?, c: Path<Node>, val: int)
      requires Searching(null, pre, Leaf, c, val)
      ensures UniquePath(c)
    {
    }

    static lemma GapHasNot(c: Path<Node>, val: int)
      requires Separates(c, val)
      ensures forall n <- PathNodes(c) :: n.val != val
    {
      PathNodesInOrder(c);
      forall n | n in PathNodes(c)
        ensures n.val != val
      {
        assert n in Before(c) || n in After(c);
      }
    }

    lemma SearchEnds(pre: Node?, c: Path<Node>, val: int)
      requires Searching(null, pre, Leaf, c, val)
      ensures root == null <==> c.Top?
      ensures Order(c, Leaf) == Before(c) + After(c)
    {
      if !c.Top? {
        RootOnPath(c, null, c.node, root);
      }
      assert InOrder<Node>(Leaf) == [];
    }

    /**
     Insertion: a value already there changes nothing; otherwise one new node with the value appears in
     the in-order sequence, at position k, and every other node keeps its place. A red-black tree stays
     one if and only if no round, from the new node in its gap on, turns a black node inwards.
     */
    method AddNode(val: int) returns (ghost k: nat, ghost c: Path<Node>)
      requires Valid()
      modifies this, Nodes(shape)
      ensures Valid() && Keys() == old(Keys()) + {val}
      ensures val in old(Keys()) ==> shape == old(shape)
      ensures val !in old(Keys()) ==>
                var was, now := old(InOrder(shape)), InOrder(shape);
                && k <= |was| && |now| == |was| + 1 && now[k].val == val && fresh(now[k])
                && now[..k] == was[..k] && now[k + 1..] == was[k..]
      ensures val !in old(Keys()) ==>
                && Plug(c, Leaf) == old(shape)
                && var x := Repair(c, Branch(InOrder(shape)[k], Leaf, Leaf), old(Reds(Nodes(shape))) + {InOrder(shape)[k]});
                && (shape, Reds(Nodes(shape))) == Repaired(x)
                && (old(RedBlack(shape, Reds(Nodes(shape)))) ==> (RedBlack(shape, Reds(Nodes(shape))) <==> !Breaks(x)))
    {
      hide Fits, Models, ModelsPath, Separates, RedBlack, Repaired, Breaks;
      assert allocated(Nodes(shape));
      var newNode := new Node(val);
      assert Valid() && Keys() == old(Keys());
      k := 0;
      var found, pre;
      found, pre, c := Search(val);
      if found {
        return;
      }
      k := |Before(c)|;
      GapIsUnique(pre, c, val);
      AddLeaf(newNode, pre, c);
      Inserted(Before(c), newNode, After(c));
      StaysRedBlack(c, newNode, old(Reds(Nodes(shape))));
    }

    static lemma StaysRedBlack<N>(c: Path<N>, n: N, reds: set<N>)
      requires UniquePath(c) && n !in PathNodes(c)
      ensures var x := Repair(c, Branch(n, Leaf, Leaf), reds + {n}); var (shape, reds') := Repaired(x);
        RedBlack(Plug(c, Leaf), reds) ==> (RedBlack(shape, reds') <==> !Breaks(x))
    {
      hide Repaired, Breaks, UniquePath;
      if RedBlack(Plug(c, Leaf), reds) {
        RedBlackUnlessBroken(c, n, reds);
      }
    }

    static lemma Inserted<N>(a: seq<N>, n: N, b: seq<N>)
      ensures var was, now, k := a + b, a + [n] + b, |a|;
        now[k] == n && now[..k] == was[..k] && now[k + 1..] == was[k..] && |now| == |was| + 1
    {
    }

    /** Links the new leaf where the search ended and repairs the colours. */
    method AddLeaf(newNode: Node, pre: Node?, ghost c: Path<Node>)
      requires Searching(null, pre, Leaf, c, newNode.val) && newNode !in PathNodes(c)
      requires newNode.l == null && newNode.r == null && newNode.color == RED
      requires (root != null ==> root.color == BLACK) && (root == null <==> c.Top?)
      modifies this, newNode, PathNodes(c)
      ensures Valid() && InOrder(shape) == Before(c) + [newNode] + After(c)
      ensures Nodes(shape) == PathNodes(c) + {newNode}
      ensures var x := Repair(c, Branch(newNode, Leaf, Leaf), old(Reds(PathNodes(c))) + {newNode});
        (shape, Reds(Nodes(shape))) == Repaired(x)
    {
      ghost var t := Branch(newNode, Leaf, Leaf);
      LeafFits(c, newNode, newNode.val);
      GapSide(c, newNode.val);
      if !c.Top? {
        RootOnPath(c, null, c.node, root);
      }
      newNode.p := pre;
      if root != null {
        if newNode.val > pre.val {
          pre.r := newNode;
        } else {
          pre.l := newNode;
        }
      } else {
        root := newNode;
      }
      assert Models(t, newNode, pre);
      assert Reds(AllNodes(c, t)) == old(Reds(PathNodes(c))) + {newNode};
      AddFixUp(newNode, t, c);
    }

    static lemma GapSide(c: Path<Node>, val: int)
      requires Separates(c, val)
      ensures c.InLeft? ==> val < c.node.val
      ensures c.InRight? ==> val > c.node.val
    {
      if c.InLeft? {
        assert After(c)[0] == c.node;
      } else if c.InRight? {
        assert Before(c)[|Before(c)| - 1] == c.node;
      }
    }

    lemma StartSearch(val: int)
      requires Valid()
      ensures Searching(root, root, shape, Top, val) && AllNodes(Top, shape) == Nodes(shape)
      ensures Order(Top, shape) == InOrder(shape)
    {
    }
  }
}
