/** Binary trees whose nodes are objects: shapes, a place inside a shape, in-order sequences. */
module BinaryTree {
  datatype Shape<N> =
    | Leaf
    | Branch(node: N, left: Shape<N>, right: Shape<N>)

  /** A tree with one subtree missing, seen from the gap: the way up to the root. */
  datatype Path<N> =
    | Top
    | InLeft(node: N, right: Shape<N>, up: Path<N>)
    | InRight(node: N, left: Shape<N>, up: Path<N>)

  ghost function Nodes<N>(t: Shape<N>): set<N> {
    if t.Leaf? then {} else {t.node} + Nodes(t.left) + Nodes(t.right)
  }

  ghost function PathNodes<N>(c: Path<N>): set<N> {
    match c
    case Top => {}
    case InLeft(n, right, up) => {n} + Nodes(right) + PathNodes(up)
    case InRight(n, left, up) => {n} + Nodes(left) + PathNodes(up)
  }

  /** No node occurs twice. */
  ghost predicate Unique<N>(t: Shape<N>) {
    t.Branch? ==>
      && t.node !in Nodes(t.left) && t.node !in Nodes(t.right) && Nodes(t.left) !! Nodes(t.right)
      && Unique(t.left) && Unique(t.right)
  }

  ghost predicate UniquePath<N>(c: Path<N>) {
    match c
    case Top => true
    case InLeft(n, right, up) =>
      n !in Nodes(right) && n !in PathNodes(up) && Nodes(right) !! PathNodes(up) && Unique(right) && UniquePath(up)
    case InRight(n, left, up) =>
      n !in Nodes(left) && n !in PathNodes(up) && Nodes(left) !! PathNodes(up) && Unique(left) && UniquePath(up)
  }

  ghost function Plug<N>(c: Path<N>, t: Shape<N>): Shape<N>
    decreases c
  {
    match c
    case Top => t
    case InLeft(n, right, up) => Plug(up, Branch(n, t, right))
    case InRight(n, left, up) => Plug(up, Branch(n, left, t))
  }

  ghost function InOrder<N>(t: Shape<N>): seq<N> {
    if t.Leaf? then [] else InOrder(t.left) + [t.node] + InOrder(t.right)
  }

  /** What comes before and after the gap. */
  ghost function Before<N>(c: Path<N>): seq<N> {
    match c
    case Top => []
    case InLeft(n, right, up) => Before(up)
    case InRight(n, left, up) => Before(up) + InOrder(left) + [n]
  }

  ghost function After<N>(c: Path<N>): seq<N> {
    match c
    case Top => []
    case InLeft(n, right, up) => [n] + InOrder(right) + After(up)
    case InRight(n, left, up) => After(up)
  }

  ghost function Height<N>(c: Path<N>): nat {
    match c
    case Top => 0
    case InLeft(_, _, up) => Height(up) + 1
    case InRight(_, _, up) => Height(up) + 1
  }

  lemma Regroup<N>(x: seq<N>, a: seq<N>, n: N, b: seq<N>, y: seq<N>)
    ensures x + (a + [n] + b) + y == x + a + ([n] + b + y)
    ensures x + (a + [n] + b) + y == (x + a + [n]) + b + y
  {
  }

  lemma {:induction false} InOrderPlug<N>(c: Path<N>, t: Shape<N>)
    ensures InOrder(Plug(c, t)) == Before(c) + InOrder(t) + After(c)
    decreases c
  {
    match c
    case Top =>
    case InLeft(n, right, up) =>
      InOrderPlug(up, Branch(n, t, right));
      Regroup(Before(up), InOrder(t), n, InOrder(right), After(up));
    case InRight(n, left, up) =>
      InOrderPlug(up, Branch(n, left, t));
      Regroup(Before(up), InOrder(left), n, InOrder(t), After(up));
  }

  lemma {:induction false} PlugIsUnique<N>(c: Path<N>, t: Shape<N>)
    requires UniquePath(c) && Unique(t) && PathNodes(c) !! Nodes(t)
    ensures Unique(Plug(c, t)) && Nodes(Plug(c, t)) == PathNodes(c) + Nodes(t)
    decreases c
  {
    match c
    case Top =>
    case InLeft(n, right, up) => PlugIsUnique(up, Branch(n, t, right));
    case InRight(n, left, up) => PlugIsUnique(up, Branch(n, left, t));
  }

  lemma {:induction false} NodesAreInOrder<N>(t: Shape<N>)
    ensures forall n :: n in InOrder(t) <==> n in Nodes(t)
  {
    if t.Branch? {
      NodesAreInOrder(t.left);
      NodesAreInOrder(t.right);
    }
  }

  lemma {:induction false} PathNodesInOrder<N>(c: Path<N>)
    ensures forall n :: n in Before(c) || n in After(c) ==> n in PathNodes(c)
    ensures forall n <- PathNodes(c) :: n in Before(c) || n in After(c)
  {
    if !c.Top? {
      PathNodesInOrder(c.up);
      NodesAreInOrder(if c.InLeft? then c.right else c.left);
      forall m | m in PathNodes(c)
        ensures m in Before(c) || m in After(c)
      {
        OnOneSide(c, m);
      }
    }
  }

  lemma OnOneSide<N>(c: Path<N>, m: N)
    requires !c.Top? && m in PathNodes(c) && (m in PathNodes(c.up) ==> m in Before(c.up) || m in After(c.up))
    ensures m in Before(c) || m in After(c)
  {
    if c.InLeft? {
      NodesAreInOrder(c.right);
      assert After(c) == [c.node] + InOrder(c.right) + After(c.up);
    } else {
      NodesAreInOrder(c.left);
      assert Before(c) == Before(c.up) + InOrder(c.left) + [c.node];
    }
  }

  /** A rotation keeps the nodes and their order. */
  lemma Rotation<N>(p: N, x: N, a: Shape<N>, b: Shape<N>, e: Shape<N>)
    ensures var t, u := Branch(p, a, Branch(x, b, e)), Branch(x, Branch(p, a, b), e);
      Nodes(t) == Nodes(u) && (Unique(t) <==> Unique(u)) && InOrder(t) == InOrder(u)
  {
    RegroupRotation(InOrder(a), p, InOrder(b), x, InOrder(e));
  }

  lemma RegroupRotation<N>(a: seq<N>, p: N, b: seq<N>, x: N, e: seq<N>)
    ensures a + [p] + (b + [x] + e) == (a + [p] + b) + [x] + e
  {
  }

  // A subtree in its place, as a path and the subtree in its gap.

  ghost predicate UniqueIn<N>(c: Path<N>, t: Shape<N>) {
    UniquePath(c) && Unique(t) && PathNodes(c) !! Nodes(t)
  }

  ghost function AllNodes<N>(c: Path<N>, t: Shape<N>): set<N> {
    PathNodes(c) + Nodes(t)
  }

  ghost function Order<N>(c: Path<N>, t: Shape<N>): seq<N> {
    Before(c) + InOrder(t) + After(c)
  }

  ghost function Up<N>(c: Path<N>, t: Shape<N>): Shape<N>
    requires !c.Top?
  {
    if c.InLeft? then Branch(c.node, t, c.right) else Branch(c.node, c.left, t)
  }

  lemma MoveUp<N>(c: Path<N>, t: Shape<N>)
    requires !c.Top?
    ensures UniqueIn(c, t) <==> UniqueIn(c.up, Up(c, t))
    ensures AllNodes(c, t) == AllNodes(c.up, Up(c, t)) && Order(c, t) == Order(c.up, Up(c, t))
  {
    if c.InLeft? {
      Regroup(Before(c.up), InOrder(t), c.node, InOrder(c.right), After(c.up));
    } else {
      Regroup(Before(c.up), InOrder(c.left), c.node, InOrder(t), After(c.up));
    }
  }
}
