/**
 What the insertion repair of RB_tree.cpp does to the colours, on shapes and a set of red nodes. The loop can go
 on with a node that an inner turn has just coloured black; if that node is turned inwards again, two red
 nodes come to lie in a row. So a red-black tree stays one if and only if this does not happen.
 */
module RedBlackColors {
  import opened BinaryTree

  /** The subtree t in the gap of c, with the red nodes of the whole tree. */
  datatype Repair<N> = Repair(c: Path<N>, t: Shape<N>, reds: set<N>)

  ghost predicate IsRed<N>(t: Shape<N>, reds: set<N>) {
    t.Branch? && t.node in reds
  }

  function Sibling<N>(c: Path<N>): Shape<N>
    requires !c.Top?
  {
    if c.InLeft? then c.right else c.left
  }

  /** The test of the loop: the parent is red; then it is not the root. */
  ghost predicate GoesOn<N>(x: Repair<N>) {
    x.t.Branch? && !x.c.Top? && x.c.node in x.reds && !x.c.up.Top?
  }

  /** The node, its parent and its grandparent are not in line. */
  predicate IsInner<N>(c: Path<N>)
    requires !c.Top? && !c.up.Top?
  {
    c.InLeft? != c.up.InLeft?
  }

  /** The two turns that bring the node up between its parent and its grandparent. */
  ghost function TurnedInner<N>(c: Path<N>, t: Shape<N>): Shape<N>
    requires !c.Top? && !c.up.Top? && t.Branch?
  {
    if c.up.InLeft? then
      Branch(t.node, Branch(c.node, Sibling(c), t.left), Branch(c.up.node, t.right, Sibling(c.up)))
    else
      Branch(t.node, Branch(c.up.node, Sibling(c.up), t.left), Branch(c.node, t.right, Sibling(c)))
  }

  /** The gap after the parent has been brought up over the grandparent. */
  ghost function TurnedOuter<N>(c: Path<N>): Path<N>
    requires !c.Top? && !c.up.Top?
  {
    if c.InLeft? then InLeft(c.node, Branch(c.up.node, Sibling(c), Sibling(c.up)), c.up.up)
    else InRight(c.node, Branch(c.up.node, Sibling(c.up), Sibling(c)), c.up.up)
  }

  /** One round of `AddFixUp`. */
  ghost function Round<N>(x: Repair<N>): Repair<N>
    requires GoesOn(x)
  {
    var p, gp, uncle := x.c.node, x.c.up.node, Sibling(x.c.up);
    if IsRed(uncle, x.reds) then
      Repair(x.c.up.up, Up(x.c.up, Up(x.c, x.t)), x.reds - {p, uncle.node} + {gp})
    else if IsInner(x.c) then Repair(x.c.up.up, TurnedInner(x.c, x.t), x.reds - {x.t.node} + {gp})
    else Repair(TurnedOuter(x.c), x.t, x.reds - {p} + {gp})
  }

  lemma RoundIsHigher<N>(x: Repair<N>)
    requires GoesOn(x)
    ensures Height(Round(x).c) < Height(x.c)
  {
  }

  /** All rounds. */
  ghost function Rounds<N>(x: Repair<N>): Repair<N>
    decreases Height(x.c)
  {
    if !GoesOn(x) then x
    else
      RoundIsHigher(x);
      Rounds(Round(x))
  }

  /** A node that is black is turned inwards. */
  ghost predicate BreaksNow<N>(x: Repair<N>)
    requires GoesOn(x)
  {
    !IsRed(Sibling(x.c.up), x.reds) && IsInner(x.c) && !IsRed(x.t, x.reds)
  }

  ghost predicate Breaks<N>(x: Repair<N>)
    decreases Height(x.c)
  {
    GoesOn(x) && (RoundIsHigher(x); BreaksNow(x) || Breaks(Round(x)))
  }

  // ---------------------------------------------------------------------------------------------
  // Red-black trees
  // ---------------------------------------------------------------------------------------------

  /** No red node has a red child. */
  ghost predicate Clean<N>(t: Shape<N>, reds: set<N>) {
    t.Branch? ==>
      && (t.node in reds ==> !IsRed(t.left, reds) && !IsRed(t.right, reds))
      && Clean(t.left, reds) && Clean(t.right, reds)
  }

  ghost function BlackHeight<N>(t: Shape<N>, reds: set<N>): nat {
    if t.Leaf? then 0 else BlackHeight(t.left, reds) + if t.node in reds then 0 else 1
  }

  /** Every way down passes as many black nodes. */
  ghost predicate Even<N>(t: Shape<N>, reds: set<N>) {
    t.Branch? ==>
      && BlackHeight(t.left, reds) == BlackHeight(t.right, reds)
      && Even(t.left, reds) && Even(t.right, reds)
  }

  ghost predicate RedBlack<N>(t: Shape<N>, reds: set<N>) {
    Clean(t, reds) && Even(t, reds) && !IsRed(t, reds)
  }

  /** The same around a gap, with h black nodes on the ways through it; the root is black. */
  ghost predicate FineAround<N>(c: Path<N>, h: nat, reds: set<N>)
    decreases c
  {
    c.Top? || (
      && Clean(Sibling(c), reds) && Even(Sibling(c), reds) && BlackHeight(Sibling(c), reds) == h
      && (c.node in reds ==> !IsRed(Sibling(c), reds) && !c.up.Top? && c.up.node !in reds)
      && FineAround(c.up, h + if c.node in reds then 0 else 1, reds))
  }

  /** The parent may be red, and so may the node; a node that is black has two red children. */
  ghost predicate Fine<N>(x: Repair<N>) {
    && UniqueIn(x.c, x.t) && x.t.Branch?
    && Clean(x.t, x.reds) && Even(x.t, x.reds) && FineAround(x.c, BlackHeight(x.t, x.reds), x.reds)
    && (IsRed(x.t, x.reds) || (IsRed(x.t.left, x.reds) && IsRed(x.t.right, x.reds)))
  }

  // Nodes that are not in a tree do not matter.

  lemma {:induction false} SameColours<N>(t: Shape<N>, a: set<N>, b: set<N>)
    requires forall n <- Nodes(t) :: n in a <==> n in b
    ensures Clean(t, a) == Clean(t, b) && Even(t, a) == Even(t, b) && BlackHeight(t, a) == BlackHeight(t, b)
    ensures IsRed(t, a) == IsRed(t, b)
  {
    if t.Branch? {
      SameColours(t.left, a, b);
      SameColours(t.right, a, b);
    }
  }

  lemma {:induction false} SameAround<N>(c: Path<N>, h: nat, a: set<N>, b: set<N>)
    requires forall n <- PathNodes(c) :: n in a <==> n in b
    ensures FineAround(c, h, a) == FineAround(c, h, b)
    decreases c
  {
    if !c.Top? {
      SameColours(Sibling(c), a, b);
      SameAround(c.up, h + if c.node in a then 0 else 1, a, b);
      assert !c.up.Top? ==> c.up.node in PathNodes(c.up);
    }
  }

  // ---------------------------------------------------------------------------------------------
  // A round keeps the tree fine unless it turns a black node inwards
  // ---------------------------------------------------------------------------------------------

  /** The parts of a tree in which a round takes place have no node in common. */
  ghost predicate Apart<N>(x: Repair<N>)
    requires GoesOn(x)
  {
    var p, gp, s, u, up := x.c.node, x.c.up.node, Sibling(x.c), Sibling(x.c.up), x.c.up.up;
    && p != gp && x.t.node != p && x.t.node != gp
    && p !in Nodes(x.t) && p !in Nodes(s) && p !in Nodes(u) && p !in PathNodes(up)
    && gp !in Nodes(x.t) && gp !in Nodes(s) && gp !in Nodes(u) && gp !in PathNodes(up)
    && Nodes(x.t) !! Nodes(s) && Nodes(x.t) !! Nodes(u) && Nodes(s) !! Nodes(u)
    && PathNodes(up) !! Nodes(x.t) && PathNodes(up) !! Nodes(s) && PathNodes(up) !! Nodes(u)
    && Unique(x.t) && Unique(s) && Unique(u)
  }

  lemma PartsAreApart<N>(x: Repair<N>)
    requires GoesOn(x) && UniqueIn(x.c, x.t)
    ensures Apart(x) && UniquePath(x.c.up.up)
  {
    var c, up := x.c, x.c.up;
    assert UniquePath(up) && UniquePath(up.up);
    assert PathNodes(c) == {c.node} + Nodes(Sibling(c)) + PathNodes(up);
    assert PathNodes(up) == {up.node} + Nodes(Sibling(up)) + PathNodes(up.up);
    assert x.t.node in Nodes(x.t);
  }

  /** What is known before a round. */
  lemma RoundParts<N>(x: Repair<N>)
    requires Fine(x) && GoesOn(x)
    ensures var s, u, h := Sibling(x.c), Sibling(x.c.up), BlackHeight(x.t, x.reds);
      && Apart(x) && x.c.node in x.reds && x.c.up.node !in x.reds
      && Clean(s, x.reds) && Even(s, x.reds) && BlackHeight(s, x.reds) == h && !IsRed(s, x.reds)
      && Clean(u, x.reds) && Even(u, x.reds) && BlackHeight(u, x.reds) == h
      && FineAround(x.c.up.up, h + 1, x.reds)
  {
    PartsAreApart(x);
    var h := BlackHeight(x.t, x.reds);
    assert FineAround(x.c, h, x.reds) && FineAround(x.c.up, h, x.reds);
  }

  lemma StaysUnique<N>(x: Repair<N>)
    requires GoesOn(x) && UniqueIn(x.c, x.t)
    ensures UniqueIn(Round(x).c, Round(x).t) && AllNodes(Round(x).c, Round(x).t) == AllNodes(x.c, x.t)
  {
    var c, t := x.c, x.t;
    MoveUp(c, t);
    MoveUp(c.up, Up(c, t));
    if IsRed(Sibling(c.up), x.reds) {
    } else if IsInner(c) {
      InnerKeepsNodes(c, t);
    } else {
      OuterKeepsNodes(c, t);
      MoveUp(TurnedOuter(c), t);
    }
  }

  lemma InnerKeepsNodes<N>(c: Path<N>, t: Shape<N>)
    requires !c.Top? && !c.up.Top? && t.Branch? && IsInner(c) && Unique(Up(c.up, Up(c, t)))
    ensures Unique(TurnedInner(c, t)) && Nodes(TurnedInner(c, t)) == Nodes(Up(c.up, Up(c, t)))
  {
    var p, gp, s, u := c.node, c.up.node, Sibling(c), Sibling(c.up);
    if c.up.InLeft? {
      Rotation(p, t.node, s, t.left, t.right);
      RotateRight(gp, t.node, Branch(p, s, t.left), t.right, u);
    } else {
      RotateRight(p, t.node, t.left, t.right, s);
      Rotation(gp, t.node, u, t.left, Branch(p, t.right, s));
    }
  }

  lemma OuterKeepsNodes<N>(c: Path<N>, t: Shape<N>)
    requires !c.Top? && !c.up.Top? && t.Branch? && !IsInner(c) && Unique(Up(c.up, Up(c, t)))
    ensures var c' := TurnedOuter(c); Unique(Up(c', t)) && Nodes(Up(c', t)) == Nodes(Up(c.up, Up(c, t)))
  {
    if c.InLeft? {
      RotateRight(c.up.node, c.node, t, c.right, c.up.right);
    } else {
      Rotation(c.up.node, c.node, c.up.left, c.left, t);
    }
  }

  /** The mirror image of a rotation. */
  lemma RotateRight<N>(p: N, x: N, a: Shape<N>, b: Shape<N>, e: Shape<N>)
    ensures var t, u := Branch(p, Branch(x, a, b), e), Branch(x, a, Branch(p, b, e));
      Nodes(t) == Nodes(u) && (Unique(t) <==> Unique(u))
  {
    Rotation(x, p, a, b, e);
  }

  /** After a round the rest of the tree above is fine around a subtree as high as before. */
  lemma AboveStays<N>(x: Repair<N>, reds: set<N>)
    requires Fine(x) && GoesOn(x)
    requires forall n | n in PathNodes(x.c.up.up) :: n in reds <==> n in x.reds
    ensures FineAround(x.c.up.up, BlackHeight(x.t, x.reds) + 1, reds)
  {
    RoundParts(x);
    SameAround(x.c.up.up, BlackHeight(x.t, x.reds) + 1, x.reds, reds);
  }

  lemma RecolourIsFine<N>(x: Repair<N>)
    requires Fine(x) && GoesOn(x) && IsRed(Sibling(x.c.up), x.reds)
    ensures Fine(Round(x))
  {
    RoundParts(x);
    StaysUnique(x);
    var p, gp, s, u := x.c.node, x.c.up.node, Sibling(x.c), Sibling(x.c.up);
    var reds := Round(x).reds;
    assert u.node in Nodes(u);
    SameColours(x.t, x.reds, reds);
    SameColours(s, x.reds, reds);
    SameColours(u.left, x.reds, reds);
    SameColours(u.right, x.reds, reds);
    AboveStays(x, reds);
  }

  lemma OuterIsFine<N>(x: Repair<N>)
    requires Fine(x) && GoesOn(x) && !IsRed(Sibling(x.c.up), x.reds) && !IsInner(x.c)
    ensures Fine(Round(x)) && !GoesOn(Round(x))
  {
    RoundParts(x);
    StaysUnique(x);
    var reds := Round(x).reds;
    SameColours(x.t, x.reds, reds);
    SameColours(x.t.left, x.reds, reds);
    SameColours(x.t.right, x.reds, reds);
    SameColours(Sibling(x.c), x.reds, reds);
    SameColours(Sibling(x.c.up), x.reds, reds);
    AboveStays(x, reds);
  }

  ghost predicate FineBlack<N>(t: Shape<N>, h: nat, reds: set<N>) {
    Clean(t, reds) && Even(t, reds) && BlackHeight(t, reds) == h && !IsRed(t, reds)
  }

  lemma TurnedIsFine<N>(n: N, p: N, q: N, a: Shape<N>, b: Shape<N>, e: Shape<N>, d: Shape<N>, h: nat, reds: set<N>)
    requires FineBlack(a, h, reds) && FineBlack(b, h, reds) && FineBlack(e, h, reds) && FineBlack(d, h, reds)
    requires n !in reds && p in reds && q in reds
    ensures var t := Branch(n, Branch(p, a, b), Branch(q, e, d));
      Clean(t, reds) && Even(t, reds) && BlackHeight(t, reds) == h + 1 && IsRed(t.left, reds) && IsRed(t.right, reds)
  {
  }

  lemma StaysFineBlack<N>(t: Shape<N>, h: nat, a: set<N>, b: set<N>)
    requires FineBlack(t, h, a) && forall n <- Nodes(t) :: n in a <==> n in b
    ensures FineBlack(t, h, b)
  {
    SameColours(t, a, b);
  }

  lemma InnerParts<N>(x: Repair<N>, h: nat)
    requires Fine(x) && GoesOn(x) && !IsRed(Sibling(x.c.up), x.reds) && IsInner(x.c) && IsRed(x.t, x.reds)
    requires h == BlackHeight(x.t, x.reds)
    ensures var reds := Round(x).reds;
      && FineBlack(x.t.left, h, reds) && FineBlack(x.t.right, h, reds)
      && FineBlack(Sibling(x.c), h, reds) && FineBlack(Sibling(x.c.up), h, reds)
      && x.t.node !in reds && x.c.node in reds && x.c.up.node in reds
      && forall n <- PathNodes(x.c.up.up) :: n in reds <==> n in x.reds
  {
    RoundParts(x);
    var reds := Round(x).reds;
    hide Clean, Even, FineAround, UniquePath, UniqueIn, BlackHeight;
    UnderRed(x.t, h, x.reds);
    InnerTouches(x);
    StaysFineBlack(x.t.left, h, x.reds, reds);
    StaysFineBlack(x.t.right, h, x.reds, reds);
    StaysFineBlack(Sibling(x.c), h, x.reds, reds);
    StaysFineBlack(Sibling(x.c.up), h, x.reds, reds);
  }

  lemma InnerTouches<N>(x: Repair<N>)
    requires GoesOn(x) && Apart(x)
    ensures forall n <- Nodes(x.t.left) :: n != x.t.node && n != x.c.up.node
    ensures forall n <- Nodes(x.t.right) :: n != x.t.node && n != x.c.up.node
    ensures forall n <- Nodes(Sibling(x.c)) :: n != x.t.node && n != x.c.up.node
    ensures forall n <- Nodes(Sibling(x.c.up)) :: n != x.t.node && n != x.c.up.node
    ensures forall n <- PathNodes(x.c.up.up) :: n != x.t.node && n != x.c.up.node
  {
    assert x.t.node in Nodes(x.t);
    assert forall n <- Nodes(x.t.left) :: n in Nodes(x.t);
    assert forall n <- Nodes(x.t.right) :: n in Nodes(x.t);
  }

  lemma UnderRed<N>(t: Shape<N>, h: nat, reds: set<N>)
    requires Clean(t, reds) && Even(t, reds) && BlackHeight(t, reds) == h && IsRed(t, reds)
    ensures FineBlack(t.left, h, reds) && FineBlack(t.right, h, reds)
  {
  }

  lemma InnerIsFine<N>(x: Repair<N>)
    requires Fine(x) && GoesOn(x) && !IsRed(Sibling(x.c.up), x.reds) && IsInner(x.c) && IsRed(x.t, x.reds)
    ensures Fine(Round(x))
  {
    hide Clean, Even, BlackHeight, FineAround, UniquePath, UniqueIn, FineBlack, IsRed;
    var h, reds := BlackHeight(x.t, x.reds), Round(x).reds;
    var n, p, gp, s, u := x.t.node, x.c.node, x.c.up.node, Sibling(x.c), Sibling(x.c.up);
    StaysUnique(x);
    InnerParts(x, h);
    if x.c.up.InLeft? {
      TurnedIsFine(n, p, gp, s, x.t.left, x.t.right, u, h, reds);
    } else {
      TurnedIsFine(n, gp, p, u, x.t.left, x.t.right, s, h, reds);
    }
    AboveStays(x, reds);
  }

  /** A round that does not turn a black node inwards. */
  lemma RoundIsFine<N>(x: Repair<N>)
    requires Fine(x) && GoesOn(x) && !BreaksNow(x)
    ensures Fine(Round(x))
  {
    hide Fine, Round;
    if IsRed(Sibling(x.c.up), x.reds) {
      RecolourIsFine(x);
    } else if IsInner(x.c) {
      InnerIsFine(x);
    } else {
      OuterIsFine(x);
    }
  }

  // ---------------------------------------------------------------------------------------------
  // Two red nodes in a row below the node never go away
  // ---------------------------------------------------------------------------------------------

  ghost predicate DirtyBelow<N>(x: Repair<N>) {
    UniqueIn(x.c, x.t) && x.t.Branch? && !(Clean(x.t.left, x.reds) && Clean(x.t.right, x.reds))
  }

  lemma BreakingIsDirty<N>(x: Repair<N>)
    requires Fine(x) && GoesOn(x) && BreaksNow(x)
    ensures DirtyBelow(Round(x))
  {
    RoundParts(x);
    StaysUnique(x);
    assert x.t.left.node in Nodes(x.t.left) && x.t.right.node in Nodes(x.t.right);
  }

  lemma DirtyStays<N>(x: Repair<N>)
    requires DirtyBelow(x) && GoesOn(x)
    ensures DirtyBelow(Round(x))
  {
    PartsAreApart(x);
    StaysUnique(x);
    var reds := Round(x).reds;
    SameColours(x.t.left, x.reds, reds);
    SameColours(x.t.right, x.reds, reds);
  }

  lemma {:induction false} DirtyToTheEnd<N>(x: Repair<N>)
    requires DirtyBelow(x)
    ensures DirtyBelow(Rounds(x))
    decreases Height(x.c)
  {
    hide DirtyBelow, Round, GoesOn;
    if GoesOn(x) {
      RoundIsHigher(x);
      DirtyStays(x);
      DirtyToTheEnd(Round(x));
    }
  }

  lemma {:induction false} FineToTheEnd<N>(x: Repair<N>)
    requires Fine(x)
    ensures if Breaks(x) then DirtyBelow(Rounds(x)) else Fine(Rounds(x))
    ensures !GoesOn(Rounds(x))
    decreases Height(x.c)
  {
    hide Fine, DirtyBelow, Round, BreaksNow;
    if GoesOn(x) {
      RoundIsHigher(x);
      if BreaksNow(x) {
        BreakingIsDirty(x);
        DirtyToTheEnd(Round(x));
        EndsSometime(Round(x));
      } else {
        RoundIsFine(x);
        FineToTheEnd(Round(x));
      }
    }
  }

  lemma {:induction false} EndsSometime<N>(x: Repair<N>)
    ensures !GoesOn(Rounds(x))
    decreases Height(x.c)
  {
    hide Round;
    if GoesOn(x) {
      RoundIsHigher(x);
      EndsSometime(Round(x));
    }
  }

  // ---------------------------------------------------------------------------------------------
  // The whole tree
  // ---------------------------------------------------------------------------------------------

  /** A whole tree is red-black exactly if its parts are. */
  lemma {:induction false} PlugIsFine<N>(c: Path<N>, t: Shape<N>, reds: set<N>)
    ensures RedBlack(Plug(c, t), reds) <==>
      && Clean(t, reds) && Even(t, reds) && FineAround(c, BlackHeight(t, reds), reds)
      && (c.Top? ==> !IsRed(t, reds)) && (!c.Top? && c.node in reds ==> !IsRed(t, reds) && !c.up.Top?)
    decreases c
  {
    if !c.Top? {
      var up, all := c.up, Up(c, t);
      PlugIsFine(up, all, reds);
      assert Plug(c, t) == Plug(up, all);
    }
  }

  lemma {:induction false} PlugIsClean<N>(c: Path<N>, t: Shape<N>, reds: set<N>)
    requires Clean(Plug(c, t), reds)
    ensures Clean(t, reds)
    decreases c
  {
    if !c.Top? {
      PlugIsClean(c.up, Up(c, t), reds);
    }
  }

  ghost function RootOf<N>(c: Path<N>, t: Shape<N>): set<N> {
    var whole := Plug(c, t); if whole.Leaf? then {} else {whole.node}
  }

  lemma {:induction false} RootIsAbove<N>(c: Path<N>, t: Shape<N>)
    ensures if c.Top? then Plug(c, t) == t else Plug(c, t).Branch? && Plug(c, t).node in PathNodes(c)
    decreases c
  {
    if !c.Top? {
      RootIsAbove(c.up, Up(c, t));
    }
  }

  /** `AddFixUp`: all rounds, and the root is coloured black. */
  ghost function Repaired<N>(x: Repair<N>): (Shape<N>, set<N>) {
    var y := Rounds(x);
    (Plug(y.c, y.t), y.reds - RootOf(y.c, y.t))
  }

  lemma {:induction false} BlackRoot<N>(t: Shape<N>, reds: set<N>)
    requires t.Branch? && Unique(t) && Clean(t, reds) && Even(t, reds)
    ensures RedBlack(t, reds - {t.node})
  {
    SameColours(t.left, reds, reds - {t.node});
    SameColours(t.right, reds, reds - {t.node});
  }

  lemma FineIsRedBlack<N>(y: Repair<N>)
    requires Fine(y) && !GoesOn(y)
    ensures RedBlack(Plug(y.c, y.t), y.reds - RootOf(y.c, y.t))
  {
    if y.c.Top? {
      BlackRoot(y.t, y.reds);
    } else {
      PlugIsFine(y.c, y.t, y.reds);
      RootIsAbove(y.c, y.t);
      var root := Plug(y.c, y.t).node;
      assert y.reds - {root} == y.reds;
    }
  }

  lemma DirtyIsNot<N>(y: Repair<N>)
    requires DirtyBelow(y)
    ensures !Clean(Plug(y.c, y.t), y.reds - RootOf(y.c, y.t))
  {
    var reds := y.reds - RootOf(y.c, y.t);
    RootIsAbove(y.c, y.t);
    SameColours(y.t.left, y.reds, reds);
    SameColours(y.t.right, y.reds, reds);
    if Clean(Plug(y.c, y.t), reds) {
      PlugIsClean(y.c, y.t, reds);
    }
  }

  /**
   The exact condition: a new red leaf in a red-black tree, then the repair. The result is a red-black tree
   if and only if no round turns a black node inwards, and otherwise two red nodes lie in a row.
   */
  lemma RedBlackUnlessBroken<N>(c: Path<N>, n: N, reds: set<N>)
    requires UniquePath(c) && n !in PathNodes(c) && RedBlack(Plug(c, Leaf), reds)
    ensures var x := Repair(c, Branch(n, Leaf, Leaf), reds + {n}); var (shape, reds') := Repaired(x);
      if Breaks(x) then !Clean(shape, reds') else RedBlack(shape, reds')
  {
    var x := Repair(c, Branch(n, Leaf, Leaf), reds + {n});
    PlugIsFine(c, Leaf, reds);
    SameAround(c, 0, reds, reds + {n});
    assert Nodes(x.t) == {n} && UniqueIn(c, x.t);
    assert BlackHeight(x.t, x.reds) == 0 == BlackHeight<N>(Leaf, reds);
    assert Clean(x.t, x.reds) && Even(x.t, x.reds) && IsRed(x.t, x.reds);
    assert FineAround(x.c, 0, x.reds);
    FineToTheEnd(x);
    if Breaks(x) {
      DirtyIsNot(Rounds(x));
    } else {
      FineIsRedBlack(Rounds(x));
    }
  }

  /** 50 over 20 and 70; 20 over 10 and 40; 40 over 30: red are 20 and 30. */
  function Example(): Shape<int> {
    Branch(50, Branch(20, Branch(10, Leaf, Leaf), Branch(40, Branch(30, Leaf, Leaf), Leaf)), Branch(70, Leaf, Leaf))
  }

  /** The gap of 35: to the right of 30. */
  function ExampleGap(): Path<int> {
    InRight(30, Leaf, InLeft(40, Leaf, InRight(20, Branch(10, Leaf, Leaf), InLeft(50, Branch(70, Leaf, Leaf), Top))))
  }

  /** Inserting 35 into this red-black tree turns it inwards twice and leaves 20 and its child 30 red. */
  lemma InsertionBreaks()
    ensures Plug(ExampleGap(), Leaf) == Example() && RedBlack(Example(), {20, 30})
    ensures var (shape, reds) := Repaired(Repair(ExampleGap(), Branch(35, Leaf, Leaf), {20, 30, 35}));
      && shape == Branch(35, Branch(20, Branch(10, Leaf, Leaf), Branch(30, Leaf, Leaf)),
                             Branch(50, Branch(40, Leaf, Leaf), Branch(70, Leaf, Leaf)))
      && 20 in reds && 30 in reds && !Clean(shape, reds)
  {
    var c4: Path<int> := InLeft(50, Branch(70, Leaf, Leaf), Top);
    var c3 := InRight(20, Branch(10, Leaf, Leaf), c4);
    var c2 := InLeft(40, Leaf, c3);
    assert ExampleGap() == InRight(30, Leaf, c2);
    assert Plug(c3, Branch(40, Branch(30, Leaf, Leaf), Leaf)) == Example();
    assert Plug(c2, Branch(30, Leaf, Leaf)) == Example();
    var x0 := Repair(ExampleGap(), Branch(35, Leaf, Leaf), {20, 30, 35});
    var top := Branch(35, Branch(30, Leaf, Leaf), Branch(40, Leaf, Leaf));
    var x1 := Repair(c3, top, {20, 30, 40});
    assert Round(x0) == x1;
    var x2 := Repair(Top, Branch(35, Branch(20, Branch(10, Leaf, Leaf), top.left), Branch(50, top.right, Branch(70, Leaf, Leaf))),
                     {20, 30, 40, 50});
    assert Round(x1) == x2;
    RoundIsHigher(x0);
    RoundIsHigher(x1);
    assert Rounds(x2) == x2 && Rounds(x1) == x2 && Rounds(x0) == x2;
  }

  /** Where the search for v ends, from the subtree t in the gap of c on. */
  function GapOf(c: Path<int>, t: Shape<int>, v: int): Path<int>
    decreases t
  {
    if t.Leaf? then c
    else if v < t.node then GapOf(InLeft(t.node, t.right, c), t.left, v)
    else GapOf(InRight(t.node, t.left, c), t.right, v)
  }

  /** The tree after different values have been inserted, one after the other, into the empty tree. */
  ghost function Built(vals: seq<int>): (Shape<int>, set<int>) {
    if vals == [] then (Leaf, {})
    else
      var (t, reds), v := Built(vals[..|vals| - 1]), vals[|vals| - 1];
      Repaired(Repair(GapOf(Top, t, v), Branch(v, Leaf, Leaf), reds + {v}))
  }

  /** One insertion more: from x in the gap, the repair ends with y. */
  lemma NextBuilt(was: seq<int>, v: int, vals: seq<int>, t: Shape<int>, x: Repair<int>, y: Repair<int>, t': Shape<int>)
    requires Built(was).0 == t && vals == was + [v] && GapOf(Top, t, v) == x.c && x.t == Branch(v, Leaf, Leaf)
    requires x.reds == Built(was).1 + {v} && Rounds(x) == y && Plug(y.c, y.t) == t' && t'.Branch?
    ensures Built(vals) == (t', y.reds - {t'.node})
  {
    assert vals[..|vals| - 1] == was;
  }

  lemma FiveBuilt()
    ensures Built([50, 20, 70, 10, 40]) ==
      (Branch(50, Branch(20, Branch(10, Leaf, Leaf), Branch(40, Leaf, Leaf)), Branch(70, Leaf, Leaf)), {10, 40})
  {
    var s10, s20, s70: Shape<int> := Branch(10, Leaf, Leaf), Branch(20, Leaf, Leaf), Branch(70, Leaf, Leaf);
    var s40, t1: Shape<int> := Branch(40, Leaf, Leaf), Branch(50, Leaf, Leaf);
    var t2, t3 := Branch(50, s20, Leaf), Branch(50, s20, s70);
    var t4, t5 := Branch(50, Branch(20, s10, Leaf), s70), Branch(50, Branch(20, s10, s40), s70);
    var up: Path<int> := InLeft(50, s70, Top);
    var x1 := Repair(Top, t1, {50});
    NextBuilt([], 50, [50], Leaf, x1, x1, t1);
    var x2 := Repair(InLeft(50, Leaf, Top), s20, {20});
    NextBuilt([50], 20, [50, 20], t1, x2, x2, t2);
    var x3 := Repair(InRight(50, s20, Top), s70, {20, 70});
    NextBuilt([50, 20], 70, [50, 20, 70], t2, x3, x3, t3);
    var x4, y4 := Repair(InLeft(20, Leaf, up), s10, {10, 20, 70}), Repair(Top, t4, {10, 50});
    assert Round(x4) == y4 && Rounds(y4) == y4;
    NextBuilt([50, 20, 70], 10, [50, 20, 70, 10], t3, x4, y4, t4);
    var x5 := Repair(InRight(20, s10, up), s40, {10, 40});
    NextBuilt([50, 20, 70, 10], 40, [50, 20, 70, 10, 40], t4, x5, x5, t5);
    assert x5.reds - {50} == {10, 40};
  }

  /** These six insertions give the tree of the example. */
  lemma ExampleIsBuilt()
    ensures Built([50, 20, 70, 10, 40, 30]) == (Example(), {20, 30})
  {
    FiveBuilt();
    var s10, s30, s70: Shape<int> := Branch(10, Leaf, Leaf), Branch(30, Leaf, Leaf), Branch(70, Leaf, Leaf);
    var t5 := Branch(50, Branch(20, s10, Branch(40, Leaf, Leaf)), s70);
    var up: Path<int> := InLeft(50, s70, Top);
    var x := Repair(InLeft(40, Leaf, InRight(20, s10, up)), s30, {10, 30, 40});
    var y := Repair(up, Branch(20, s10, Branch(40, s30, Leaf)), {20, 30});
    assert Round(x) == y && Rounds(y) == y;
    NextBuilt([50, 20, 70, 10, 40], 30, [50, 20, 70, 10, 40, 30], t5, x, y, Example());
    assert y.reds - {50} == {20, 30};
  }

  /** Seven insertions into the empty tree leave two red nodes in a row. */
  lemma InsertionsBreak()
    ensures var (t, reds) := Built([50, 20, 70, 10, 40, 30, 35]); !Clean(t, reds)
  {
    ExampleIsBuilt();
    InsertionBreaks();
    var vals := [50, 20, 70, 10, 40, 30, 35];
    assert vals[..6] == [50, 20, 70, 10, 40, 30];
    assert {20, 30} + {35} == {20, 30, 35};
    assert GapOf(Top, Example(), 35) == ExampleGap();
  }
}
