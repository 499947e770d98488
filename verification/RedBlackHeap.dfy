/** What the heap looks like around the part of the tree in focus, before and after each repair step.

    A repair loop works on one place of the tree. The part below that place is a shape, what lies around it a
    path, and Focused says that the heap holds both: every pointer up, left and right, every colour and the root
    are what shape and path say, and no node occurs twice. The lemmas of this file come in two kinds. Those called
    before a step (Relatives, Kin, PaintParts, BeforeInner, BeforeOuter, KinApart, NephewApart) say what the code
    can see from the place it is at and which nodes a step leaves alone. Those called after it (AfterInner,
    AfterOuter, AfterLowering, AfterNear, AfterFar, PaledPainted, Repaired, Taken) put the untouched parts and the
    changed pointers together to the new shape and path. None of them mentions two heaps: what a step does not
    write is carried over by the frames of the predicates, which name the fields they read one by one. */
module RedBlackHeap {
  import opened RedBlackShape
  import opened RedBlackRepair

  /** The tree holds t in the place p leaves open, colours included. */
  ghost predicate Focused(root: Node?, p: Path, t: Shape)
    reads Nodes(t)`up, Nodes(t)`left, Nodes(t)`right, Nodes(t)`red
    reads PathNodes(p)`up, PathNodes(p)`left, PathNodes(p)`right, PathNodes(p)`red
  {
    At(p, t) && root == RootOf(p, Root(t)) && Outer(p) == null && Painted(t) && PaintedPath(p)
  }

  /** The heap holds the whole tree, with every property of a red-black tree. */
  ghost predicate Sound(root: Node?, whole: Shape)
    reads Nodes(whole)`up, Nodes(whole)`left, Nodes(whole)`right, Nodes(whole)`red
  {
    root == Root(whole) && Linked(whole, null) && Painted(whole) && Balanced(whole) && !Red(whole)
  }

  function Innermost(p: Path): set<Node> {
    if p.Top? then {} else {p.node}
  }

  lemma InnermostNodes(p: Path)
    ensures Innermost(p) <= PathNodes(p)
  {
  }

  lemma LinkFork(t: Shape, up: Node?)
    requires t.Fork? ==>
               && t.node !in Nodes(t.left) && t.node !in Nodes(t.right) && Nodes(t.left) !! Nodes(t.right)
               && t.node.up == up && t.node.left == Root(t.left) && t.node.right == Root(t.right)
               && Linked(t.left, t.node) && Linked(t.right, t.node)
    ensures Linked(t, up)
    ensures t.Fork? ==> Nodes(t) == Nodes(t.left) + {t.node} + Nodes(t.right)
  {
  }

  /** The nodes involved in a rotation are all different. */
  lemma RotationParts(t: Shape, up: Node?, onLeft: bool)
    requires t.Fork? && Child(t, onLeft).Fork? && Linked(t, up)
    ensures var q, c := Child(t, onLeft), Child(t, !onLeft);
            var a, b := Child(q, onLeft), Child(q, !onLeft);
            && Nodes(t) == Nodes(a) + Nodes(b) + Nodes(c) + {t.node, q.node} == Nodes(Rotated(onLeft, t))
            && t.node != q.node && {t.node, q.node} !! Nodes(a) + Nodes(b) + Nodes(c)
            && Nodes(a) !! Nodes(b) && Nodes(a) + Nodes(b) !! Nodes(c)
            && t.node.up == up && q.node.up == t.node && (if onLeft then t.node.left else t.node.right) == q.node
            && (if onLeft then t.node.right else t.node.left) == Root(c)
            && (if onLeft then q.node.left else q.node.right) == Root(a)
            && (if onLeft then q.node.right else q.node.left) == Root(b)
            && Linked(a, q.node) && Linked(b, q.node) && Linked(c, t.node)
            && (b.Fork? ==> Nodes(b) == Nodes(b.left) + {b.node} + Nodes(b.right) && Nodes(b.left) !! Nodes(b.right)
                            && b.node.left == Root(b.left) && b.node.right == Root(b.right)
                            && b.node !in Nodes(b.left) + Nodes(b.right)
                            && Linked(b.left, b.node) && Linked(b.right, b.node))
  {
  }

  lemma ParentShows(root: Node?, p: Path, t: Shape)
    requires Focused(root, p, t) && t.Fork?
    ensures t.node.up == Parent(p) && (p.Step? ==> p.node.red == p.red) && (p.Top? ==> Parent(p) == null)
  {
  }

  lemma Shown(root: Node?, p: Path, t: Shape)
    requires Focused(root, p, t)
    ensures t.Fork? ==> t.node.up == Parent(p) && t.node.red == t.red
  {
  }

  lemma Whole(root: Node?, p: Path, t: Shape)
    requires Focused(root, p, t) && Settled(p, t)
    ensures Sound(root, Plug(p, t)) && Nodes(Plug(p, t)) == Nodes(t) + PathNodes(p)
  {
    Zip(p, t);
    ZipPainted(p, t);
    PlugBalanced(p, t);
    PlugNodes(p, t);
  }

  lemma FirstInOrder(t: Shape)
    requires Linked(t, null)
    ensures At(Top(null), t)
    ensures t.Leaf? ==> Inorder(t) == []
    ensures t.Fork? ==>
              && Inorder(t) != [] && HoleFirst(t).Step?
              && HoleFirst(t).node == Inorder(t)[0] && Inorder(t)[0] in Nodes(t)
  {
    InorderPlug(HoleFirst(t), Leaf);
    PlugNodes(HoleFirst(t), Leaf);
  }

  /** A leaf in the open place stands between what lies before and what lies after. */
  lemma FilledOrder(hole: Path, node: Node)
    ensures |Before(hole)| <= |Inorder(Plug(hole, Leaf))|
    ensures Inorder(Plug(hole, Fork(Leaf, node, true, Leaf))) ==
            Inserted(Inorder(Plug(hole, Leaf)), |Before(hole)|, node)
    ensures Elements(Inserted(Inorder(Plug(hole, Leaf)), |Before(hole)|, node)) ==
            Elements(Inorder(Plug(hole, Leaf))) + {node}
    ensures forall k :: 0 <= k < |Before(hole)| ==> Inorder(Plug(hole, Leaf))[k] == Before(hole)[k]
  {
    InorderPlug(hole, Leaf);
    InorderPlug(hole, Fork(Leaf, node, true, Leaf));
    assert Inorder(Fork(Leaf, node, true, Leaf)) == [node];
  }

  lemma Open(root: Node?, t: Shape, hole: Path, node: Node)
    requires Sound(root, t) && Plug(hole, Leaf) == t && Outer(hole) == null
    ensures LinkedPath(hole, null) && PaintedPath(hole) && PathNodes(hole) == Nodes(t)
    ensures root == RootOf(hole, null) && Fits(hole, 0)
    ensures hole.Top? ==> RootOf(hole, node) == node && LinkedPath(hole, node)
  {
    Zip(hole, Leaf);
    ZipPainted(hole, Leaf);
    PlugNodes(hole, Leaf);
    UnplugBalanced(hole, Leaf);
  }

  lemma OpenList(t: Shape, hole: Path, node: Node)
    requires Linked(t, null) && Plug(hole, Leaf) == t
    ensures Distinct(Inorder(t)) && Elements(Inorder(t)) == Nodes(t)
    ensures |Before(hole)| <= |Inorder(t)|
    ensures Before(hole) != [] ==>
              var k := |Before(hole)| - 1; Inorder(t)[k] == Before(hole)[k]
    ensures Elements(Inserted(Inorder(t), |Before(hole)|, node)) == Nodes(t) + {node}
    ensures forall n :: n in Nodes(t) ==> allocated(n)
  {
    FilledOrder(hole, node);
    AllocatedNodes(t);
    InorderDistinct(t, null);
    InorderNodes(t);
  }

  /** What the descent to the open place relies on. */
  lemma RightOf(t: Shape, after: Node)
    requires Linked(t, null) && after in Nodes(t)
    ensures var (p, u) := Locate(Top(null), t, after);
            var base := Step(p, false, after, u.red, u.left);
            && after.right == Root(u.right) && HoleAfter(t, after).node in Nodes(t)
            && (u.right.Fork? ==> At(base, u.right))
  {
    var (p, u) := Locate(Top(null), t, after);
    Zip(p, u);
    MoveUp(Step(p, false, after, u.red, u.left), u.right, u.red);
    PlugNodes(HoleAfter(t, after), Leaf);
  }

  /** The open place is found and points to the new node, which is in the neighbour list. */
  ghost predicate Opened(root: Node?, hole: Path, node: Node, s: seq<Node>)
    reads PathNodes(hole)`up, PathNodes(hole)`left, PathNodes(hole)`right, PathNodes(hole)`red
    reads (Elements(s) + {node})`prev, (Elements(s) + {node})`next
  {
    && LinkedPath(hole, node) && PaintedPath(hole) && root == RootOf(hole, node) && Outer(hole) == null
    && Fits(hole, 0) && node !in PathNodes(hole) && Elements(s) == PathNodes(hole)
    && s == Inorder(Plug(hole, Leaf)) && |Before(hole)| <= |s|
    && Elements(Inserted(s, |Before(hole)|, node)) == Elements(s) + {node}
    && Listed(Inserted(s, |Before(hole)|, node))
  }

  /** When the loop ends, only the root may have the wrong colour. */
  lemma LoopEnd(root: Node?, p: Path, t: Shape)
    requires Focused(root, p, t) && RedFocus(p, t) && (p.Step? ==> !p.red)
    ensures var whole := if p.Top? then Coloured(t, false) else Plug(p, t);
            && whole.Fork? && root == whole.node && Linked(whole, null) && Balanced(whole) && !Red(whole)
            && Painted(whole.left) && Painted(whole.right) && root in Nodes(whole)
            && root !in Nodes(whole.left) + Nodes(whole.right)
            && Inorder(whole) == Inorder(Plug(p, t)) && Nodes(whole) == Nodes(t) + PathNodes(p)
  {
    if p.Top? {
      BlackBalanced(t);
    } else {
      PlugNodes(p, t);
      PlugBalanced(p, t);
      Zip(p, t);
      ZipPainted(p, t);
    }
  }

  lemma Settle(t: Shape)
    requires t.Fork? && !t.red && !t.node.red && Painted(t.left) && Painted(t.right)
    ensures Painted(t)
  {
  }

  /** How parent, grandparent and uncle show in the heap. */
  lemma Relatives(root: Node?, p: Path, t: Shape)
    requires Focused(root, p, t) && RedFocus(p, t) && RedStep(p)
    ensures p.above.Step? && p.node.up == p.above.node && t.node.up == p.node
    ensures p.node == p.above.node.left <==> p.above.onLeft
    ensures t.node == p.node.left <==> p.onLeft
    ensures t.node == p.node.right <==> !p.onLeft
    ensures Root(p.above.other) == if p.above.onLeft then p.above.node.right else p.above.node.left
    ensures Red(p.above.other) ==> p.above.other.node in PathNodes(p) && p.above.other.node.red
    ensures p.above.other.Fork? && p.above.other.node.red ==> Red(p.above.other)
    ensures p.node in PathNodes(p) && p.above.node in PathNodes(p)
  {
    var g := p.above;
    assert LinkedPath(g, p.node) && PaintedPath(g);
    assert t.node in Nodes(t);
    assert p.other.Fork? ==> p.other.node in Nodes(p.other);
    assert g.other.Fork? ==> g.other.node in Nodes(g.other);
  }

  lemma PaintParts(root: Node?, p: Path, t: Shape)
    requires Focused(root, p, t) && t.Fork? && p.Step? && p.above.Step? && p.above.other.Fork?
    ensures var u := p.above.other;
            && Painted(p.other) && Painted(u.left) && Painted(u.right) && PaintedPath(p.above.above)
            && {p.node, p.above.node, u.node} <= PathNodes(p)
            && p.node != p.above.node && p.above.node != u.node && u.node != p.node
            && {p.node, p.above.node, u.node} !! Nodes(t) + Nodes(p.other) + Nodes(u.left) + Nodes(u.right)
            && {p.node, p.above.node, u.node} !! PathNodes(p.above.above)
    ensures Root(Recoloured(p, t)) == p.above.node
    ensures RootOf(p, t.node) == RootOf(p.above.above, p.above.node) && Outer(p) == Outer(p.above.above)
  {
    assert LinkedPath(p.above, p.node) && PaintedPath(p.above);
    assert Linked(p.above.other, p.above.node) && Painted(p.above.other);
  }

  lemma RecolouredAt(p: Path, t: Shape)
    requires At(p, t) && p.Step? && p.above.Step?
    ensures At(p.above.above, Recoloured(p, t))
  {
    var j := Join(p.onLeft, t, p.node, false, p.other);
    MoveUp(p, t, false);
    assert At(p.above, j);
    assert Linked(p.above.other, p.above.node);
    var g := p.above.(other := Coloured(p.above.other, false));
    assert Linked(g.other, g.node) && Nodes(g.other) == Nodes(p.above.other);
    assert At(g, j);
    MoveUp(g, j, true);
  }

  lemma RecolouredPainted(p: Path, t: Shape)
    requires p.Step? && p.above.Step? && p.above.other.Fork?
    requires Painted(t) && Painted(p.other) && Painted(p.above.other.left) && Painted(p.above.other.right)
    requires !p.node.red && !p.above.other.node.red && p.above.node.red
    ensures Painted(Recoloured(p, t))
  {
    var u := p.above.other;
    assert Painted(Fork(u.left, u.node, false, u.right));
    assert Painted(Join(p.onLeft, t, p.node, false, p.other));
  }

  lemma BeforeInner(root: Node?, p: Path, t: Shape)
    requires Focused(root, p, t) && p.Step? && t.Fork?
    ensures var j := Join(p.onLeft, t, p.node, p.red, p.other);
            && At(p.above, j) && root == RootOf(p.above, p.node) && Outer(p.above) == null
            && Nodes(j) + PathNodes(p.above) == Nodes(t) + PathNodes(p)
    ensures forall n :: n in Nodes(t) + PathNodes(p) ==> allocated(n)
  {
    MoveUp(p, t, p.red);
    AllocatedNodes(t);
    AllocatedPath(p);
    assert Nodes(Join(p.onLeft, t, p.node, p.red, p.other)) == Nodes(t) + {p.node} + Nodes(p.other);
  }

  lemma AfterInner(root: Node?, p: Path, t: Shape)
    requires p.Step? && t.Fork? && At(p.above, Rotated(p.onLeft, Join(p.onLeft, t, p.node, p.red, p.other)))
    requires root == RootOf(p.above, t.node) && Outer(p) == null && Painted(t) && PaintedPath(p)
    ensures Focused(root, InnerPath(p, t), InnerShape(p, t))
  {
    MoveUp(InnerPath(p, t), InnerShape(p, t), t.red);
  }

  lemma BeforeOuter(root: Node?, p: Path, t: Shape)
    requires Focused(root, p, t) && p.Step? && p.above.Step?
    ensures var g := p.above;
            var j := OuterShape(p, t);
            && At(g.above, j) && root == RootOf(g.above, g.node) && Outer(g.above) == null
            && Nodes(j) + PathNodes(g.above) == Nodes(t) + PathNodes(p) && {p.node, g.node} <= PathNodes(p)
            && Painted(p.other) && Painted(g.other) && PaintedPath(g.above)
            && p.node != g.node && Nodes(p.other) + Nodes(g.other) + PathNodes(g.above) <= PathNodes(p)
            && {p.node, g.node} !! Nodes(t) + Nodes(p.other) + Nodes(g.other) + PathNodes(g.above)
    ensures forall n :: n in Nodes(t) + PathNodes(p) ==> allocated(n)
  {
    hide Linked, Balanced, Inorder, Plug, Before;
    var g, j := p.above, Join(p.onLeft, t, p.node, false, p.other);
    MoveUp(p, t, false);
    MoveUp(g, j, true);
    AllocatedNodes(t);
    AllocatedPath(p);
    assert Nodes(j) == Nodes(t) + {p.node} + Nodes(p.other);
    assert PaintedPath(g) && Outer(p) == Outer(g) == Outer(g.above);
    assert RootOf(p, Root(t)) == RootOf(g, p.node) == RootOf(g.above, g.node);
  }

  lemma AfterOuter(root: Node?, p: Path, t: Shape)
    requires p.Step? && p.above.Step? && p.above.onLeft == p.onLeft
    requires At(p.above.above, Rotated(p.onLeft, OuterShape(p, t)))
    requires root == RootOf(p.above.above, p.node) && Outer(p) == null && Painted(t)
    requires Painted(p.other) && Painted(p.above.other) && PaintedPath(p.above.above)
    requires !p.node.red && p.above.node.red
    ensures Focused(root, OuterPath(p), t)
  {
    MoveUp(OuterPath(p), t, false);
  }

  /** How parent, sibling and nephews show in the heap. */
  lemma Kin(root: Node?, p: Path, t: Shape)
    requires Focused(root, p, t) && Short(p, t)
    ensures p.Top? <==> root == Root(t)
    ensures p.Step? ==>
              && p.other.Fork? && p.node in PathNodes(p) && p.other.node in PathNodes(p)
              && p.node.up == Parent(p.above)
              && (Root(t) == p.node.left <==> p.onLeft)
              && Root(p.other) == (if p.onLeft then p.node.right else p.node.left)
              && p.other.node.red == p.other.red && p.node.red == p.red
    ensures p.Step? ==>
              && p.other.node.left == Root(p.other.left) && p.other.node.right == Root(p.other.right)
              && (Red(p.other.left) ==> p.other.node.left in PathNodes(p))
              && (Red(p.other.right) ==> p.other.node.right in PathNodes(p))
              && (Red(p.other.left) <==> p.other.node.left != null && p.other.node.left.red)
              && (Red(p.other.right) <==> p.other.node.right != null && p.other.node.right.red)
  {
    PlugNodes(p, t);
    if p.Step? {
      assert Linked(p.other, p.node) && Painted(p.other);
      assert Painted(p.other.left) && Painted(p.other.right);
      RootAbove(p, Root(t));
    }
  }

  lemma {:induction false} RootAbove(p: Path, hole: Node?)
    ensures p.Step? ==> RootOf(p, hole) in PathNodes(p)
  {
    if p.Step? {
      RootAbove(p.above, p.node);
    }
  }

  /** The nodes a removal round writes to, and what they leave alone. */
  lemma KinApart(root: Node?, p: Path, t: Shape)
    requires Focused(root, p, t) && p.Step? && p.other.Fork?
    ensures var u := p.other;
            && Painted(u.left) && Painted(u.right) && PaintedPath(p.above) && PaintedPath(p)
            && p.node.red == p.red && {p.node, u.node} <= PathNodes(p) && p.node != u.node
            && Nodes(u.left) + Nodes(u.right) + PathNodes(p.above) <= PathNodes(p)
            && {p.node, u.node} !! Nodes(t) + Nodes(u.left) + Nodes(u.right) + PathNodes(p.above)
            && Nodes(u.left) + Nodes(u.right) !! Nodes(t)
            && Nodes(u.left) !! Nodes(u.right) && Nodes(u.left) + Nodes(u.right) !! PathNodes(p.above)
    ensures root == RootOf(p.above, p.node) == RootOf(SiblingPath(p, t), p.other.node)
    ensures Outer(p.above) == Outer(SiblingPath(p, t)) == null
    ensures forall n :: n in Nodes(t) + PathNodes(p) ==> allocated(n)
  {
    assert Linked(p.other, p.node) && Painted(p.other);
    AllocatedNodes(t);
    AllocatedPath(p);
  }

  lemma NephewApart(root: Node?, p: Path, t: Shape, onLeft: bool)
    requires Focused(root, p, t) && p.Step? && p.other.Fork? && Child(p.other, onLeft).Fork?
    ensures var u, n := p.other, Child(p.other, onLeft);
            && Painted(n.left) && Painted(n.right) && n.node in Nodes(n) && n.node != p.node && n.node != u.node
            && (if onLeft then u.node.left else u.node.right) == n.node
            && Nodes(n.left) + Nodes(n.right) <= Nodes(n) && n.node !in Nodes(n.left) + Nodes(n.right)
  {
    assert Linked(p.other, p.node) && Painted(p.other);
    assert Linked(Child(p.other, onLeft), p.other.node) && Painted(Child(p.other, onLeft));
  }

  lemma LoweredAt(p: Path, t: Shape)
    requires At(p, t) && p.Step? && p.other.Fork?
    ensures At(p.above, LoweredShape(p, t))
    ensures Nodes(LoweredShape(p, t)) + PathNodes(p.above) == Nodes(t) + PathNodes(p)
  {
    ColouredSame(p.other, false);
    var q := p.(other := Coloured(p.other, false));
    assert Linked(q.other, q.node);
    assert At(q, t);
    MoveUp(q, t, true);
  }

  lemma AfterLowering(root: Node?, p: Path, t: Shape)
    requires p.Step? && p.other.Fork? && At(p.above, Rotated(!p.onLeft, LoweredShape(p, t)))
    requires root == RootOf(p.above, p.other.node) && Outer(p.above) == null && Painted(t) && PaintedPath(p.above)
    requires Painted(p.other.left) && Painted(p.other.right) && !p.other.node.red && p.node.red
    ensures Focused(root, LoweredPath(p), t)
  {
    var q := LoweredPath(p);
    MoveUp(q, t, true);
    MoveUp(q.above, Join(q.onLeft, t, q.node, true, q.other), false);
    assert Painted(q.other) && PaintedPath(q.above);
  }

  lemma NearAt(p: Path, t: Shape)
    requires At(p, t) && p.Step? && p.other.Fork? && Child(p.other, p.onLeft).Fork?
    ensures At(SiblingPath(p, t), NearShape(p))
    ensures Nodes(NearShape(p)) + PathNodes(SiblingPath(p, t)) == Nodes(t) + PathNodes(p)
  {
    var near := Child(p.other, p.onLeft);
    ColouredSame(near, false);
    assert Linked(p.other, p.node) && Linked(near, p.other.node);
    assert Linked(Coloured(near, false), p.other.node);
    assert Linked(NearShape(p), p.node) && Nodes(NearShape(p)) == Nodes(p.other);
    var q := p.(other := NearShape(p));
    assert At(q, t);
    MoveUp(q, t, p.red);
    MoveUp(SiblingPath(p, t), NearShape(p), p.red);
  }

  lemma AfterNear(root: Node?, p: Path, t: Shape)
    requires p.Step? && p.other.Fork? && Child(p.other, p.onLeft).Fork?
    requires At(SiblingPath(p, t), Rotated(p.onLeft, NearShape(p)))
    requires root == RootOf(SiblingPath(p, t), Child(p.other, p.onLeft).node) && Outer(p.above) == null
    requires Painted(t) && PaintedPath(p.above)
    requires p.node.red == p.red && Painted(Child(p.other, !p.onLeft)) && p.other.node.red
    requires var n := Child(p.other, p.onLeft); Painted(n.left) && Painted(n.right) && !n.node.red
    ensures Focused(root, NearPath(p), t)
  {
    var q, r := NearPath(p), Rotated(p.onLeft, NearShape(p));
    var n := Child(p.other, p.onLeft);
    MoveUp(SiblingPath(p, t), r, p.red);
    MoveUp(q, t, p.red);
    assert Painted(Join(p.onLeft, Child(n, !p.onLeft), p.other.node, true, Child(p.other, !p.onLeft)));
    assert Painted(r);
  }

  lemma FarAt(p: Path, t: Shape)
    requires At(p, t) && p.Step? && p.other.Fork? && Child(p.other, !p.onLeft).Fork?
    ensures At(p.above, FarShape(p, t))
    ensures Nodes(FarShape(p, t)) + PathNodes(p.above) == Nodes(t) + PathNodes(p)
  {
    var s := p.onLeft;
    var far := Child(p.other, !s);
    ColouredSame(far, false);
    assert Linked(p.other, p.node) && Linked(far, p.other.node);
    var u := Join(s, Child(p.other, s), p.other.node, p.red, Coloured(far, false));
    assert Linked(Coloured(far, false), p.other.node);
    assert Linked(u, p.node) && Nodes(u) == Nodes(p.other);
    var q := p.(other := u);
    assert At(q, t);
    MoveUp(q, t, false);
  }

  lemma AfterFar(root: Node?, p: Path, t: Shape)
    requires p.Step? && p.other.Fork? && Child(p.other, !p.onLeft).Fork?
    requires At(p.above, Rotated(!p.onLeft, FarShape(p, t)))
    requires root == RootOf(p.above, p.other.node) && Outer(p.above) == null && Painted(t) && PaintedPath(p.above)
    requires !p.node.red && p.other.node.red == p.red && Painted(Child(p.other, p.onLeft))
    requires var n := Child(p.other, !p.onLeft); Painted(n.left) && Painted(n.right) && !n.node.red
    ensures var w := FarWhole(p, t); root == Root(w) && Linked(w, null) && Painted(w)
  {
    var s, r := p.onLeft, Rotated(!p.onLeft, FarShape(p, t));
    assert Painted(Join(s, t, p.node, false, Child(p.other, s)));
    assert Painted(Coloured(Child(p.other, !s), false));
    assert Painted(r);
    Zip(p.above, r);
    ZipPainted(p.above, r);
    PlugNodes(p.above, r);
  }

  lemma PaledAt(p: Path, t: Shape)
    requires At(p, t) && p.Step? && p.other.Fork?
    ensures At(p.above, PaledShape(p, t))
  {
    ColouredSame(p.other, true);
    var q := p.(other := Coloured(p.other, true));
    assert Linked(q.other, q.node);
    assert At(q, t);
    MoveUp(q, t, p.red);
  }

  lemma PaledPainted(p: Path, t: Shape)
    requires p.Step? && p.other.Fork? && Painted(t) && Painted(p.other.left) && Painted(p.other.right)
    requires p.other.node.red && p.node.red == p.red
    ensures Painted(PaledShape(p, t)) && Root(PaledShape(p, t)) == p.node
  {
    assert Painted(Coloured(p.other, true));
  }

  lemma Repaired(root: Node?, p: Path, t: Shape)
    requires Focused(root, p, t) && Short(p, t) && (Red(t) || p.Top?)
    ensures var w := Plug(p, Coloured(t, false));
            && root == Root(w) && Linked(w, null) && Balanced(w) && !Red(w)
            && Inorder(w) == Inorder(Plug(p, t)) && Nodes(w) == Nodes(t) + PathNodes(p)
    ensures t.Fork? ==> t.node in Nodes(t) && Painted(t.left) && Painted(t.right)
                        && t.node !in Nodes(t.left) + Nodes(t.right) + PathNodes(p)
    ensures PaintedPath(p)
  {
    var u := Coloured(t, false);
    ColouredSame(t, false);
    SamePlug(p, t, u);
    assert Linked(u, Parent(p));
    Zip(p, u);
    PlugNodes(p, u);
    if Red(t) {
      assert Height(u) == Height(t) + 1;
      PlugBalanced(p, u);
    }
  }

  lemma ForkParts(t: Shape, up: Node?)
    requires t.Fork? && Linked(t, up)
    ensures Nodes(t) == Nodes(t.left) + {t.node} + Nodes(t.right) && Nodes(Leaf) == {}
    ensures t.node !in Nodes(t.left) && t.node !in Nodes(t.right) && Nodes(t.left) !! Nodes(t.right)
    ensures t.node.up == up && t.node.left == Root(t.left) && t.node.right == Root(t.right)
    ensures Linked(t.left, t.node) && Linked(t.right, t.node)
  {
  }

  /** The leftmost node below the root of t, and what hangs around it. */
  ghost predicate FirstHangs(t: Shape, e: Path, f: Shape)
    reads PathNodes(e)`up, PathNodes(e)`left, PathNodes(e)`right
    reads if f.Fork? then Nodes(f.right) else {}
    reads if t.Fork? then Nodes(t.right) + {t.node} else {}
    reads (if f.Fork? then {f.node} else {})`up, (if f.Fork? then {f.node} else {})`right
  {
    && t.Fork? && t.left.Fork? && f.Fork? && Outer(e) == t.node && (e.Step? ==> e.onLeft)
    && LinkedPath(e, f.node) && Linked(f.right, f.node) && Nodes(f.right) !! PathNodes(e)
    && t.node != f.node && {t.node, f.node} !! PathNodes(e) + Nodes(f.right) + Nodes(t.right)
    && PathNodes(e) + Nodes(f.right) !! Nodes(t.right) && Linked(t.right, t.node)
    && t.node.left == t.left.node && t.node.right == Root(t.right)
    && f.node.up == Parent(e) && f.node.right == Root(f.right) && Plug(e, f.right) == DropFirst(t.left)
    && (e.Top? ==> Parent(e) == t.node && Root(DropFirst(t.left)) == Root(f.right))
    && (e.Step? ==> Parent(e) in PathNodes(e) && Root(DropFirst(t.left)) == t.left.node)
    && Nodes(DropFirst(t.left)) == PathNodes(e) + Nodes(f.right)
  }

  lemma FarNodes(t: Shape, up: Node?)
    requires t.Fork? && t.left.Fork? && Linked(t, up)
    ensures var (e, f) := FirstFocus(Top(t.node), t.left);
            && At(e, f) && Outer(e) == t.node && Nodes(t.left) == Nodes(f) + PathNodes(e)
            && f.node == Leftmost(t).node
            && Plug(e, f.right) == DropFirst(t.left) && Nodes(DropFirst(t.left)) == PathNodes(e) + Nodes(f.right)
            && (e.Top? ==> Parent(e) == t.node && Root(DropFirst(t.left)) == Root(f.right))
            && (e.Step? ==> e.onLeft && Parent(e) in PathNodes(e) && Root(DropFirst(t.left)) == t.left.node)
  {
    var (e, f) := FirstFocus(Top(t.node), t.left);
    Zip(e, f);
    PlugNodes(e, f);
    PlugDrop(Top(t.node), t.left);
    PlugNodes(e, f.right);
  }

  lemma FarParts(t: Shape, up: Node?)
    requires t.Fork? && t.left.Fork? && Linked(t, up)
    ensures var (e, f) := FirstFocus(Top(t.node), t.left);
            && FirstHangs(t, e, f) && f.node == Leftmost(t).node
            && Nodes(t) == Nodes(t.right) + {t.node, f.node} + PathNodes(e) + Nodes(f.right)
            && f.node !in PathNodes(e) + Nodes(f.right) + Nodes(t.right) + {t.node}
  {
    hide FirstFocus, Plug, DropFirst, Outer, Linked, LinkedPath, Nodes, PathNodes;
    var (e, f) := FirstFocus(Top(t.node), t.left);
    FarNodes(t, up);
    ForkParts(t, up);
    ForkParts(f, Parent(e));
  }

  lemma TakeParts(root: Node?, p: Path, u: Shape)
    requires Focused(root, p, u) && u.Fork? && u.left.Fork? && u.right.Fork?
    ensures var next := Leftmost(u.right).node;
            && At(Step(p, false, u.node, u.red, u.left), u.right) && next in Nodes(u) && u.node in Nodes(u)
            && next !in Nodes(u.left) + Nodes(DropFirst(u.right)) + PathNodes(p) && next != u.node
            && next.red == Leftmost(u.right).red && u.node.red == u.red
            && (u.right.left.Leaf? <==> next == u.right.node)
            && Painted(u.left) && Painted(DropFirst(u.right)) && Innermost(p) <= PathNodes(p)
            && Nodes(u.left) + Nodes(DropFirst(u.right)) <= Nodes(u)
            && Nodes(Fork(u.left, next, u.red, DropFirst(u.right))) <= Nodes(u)
  {
    MoveUp(Step(p, false, u.node, u.red, u.left), u.right, u.red);
    DropNodes(u.right, u.node);
    if u.right.left.Fork? {
      DropNodes(u.right.left, u.right.node);
    }
  }

  lemma Taken(root: Node?, p: Path, u: Shape, next: Node)
    requires u.Fork? && u.left.Fork? && u.right.Fork? && next == Leftmost(u.right).node
    requires var j := Fork(u.left, next, u.red, DropFirst(u.right)); At(p, j) && Painted(j)
    requires root == RootOf(p, next) && Outer(p) == null && PaintedPath(p)
    ensures Focused(root, CutAt(p, u).path, CutAt(p, u).rest)
    ensures Parent(CutAt(p, u).path) ==
            if u.right.left.Leaf? then next else Parent(FirstFocus(Top(u.right.node), u.right.left).0)
  {
    var j := Fork(u.left, next, u.red, DropFirst(u.right));
    var c, base := CutAt(p, u), Step(p, false, next, u.red, u.left);
    PlugDrop(base, u.right);
    Zip(p, j);
    Zip(c.path, c.rest);
    ZipPainted(p, j);
    ZipPainted(c.path, c.rest);
    PlugNodes(p, j);
    PlugNodes(c.path, c.rest);
    if u.right.left.Fork? {
      var r := u.right;
      SameParent(Step(base, true, r.node, r.red, r.right), Top(r.node), r.left);
    }
  }

  lemma PaintFork(t: Shape)
    requires t.Fork? && Painted(t.left) && Painted(t.right) && t.node.red == t.red
    ensures Painted(t)
  {
  }

  /** The tree without the node: what its parts hold, and which repair they still need. */
  lemma Found(root: Node?, t: Shape, node: Node)
    requires Sound(root, t) && node in Nodes(t)
    ensures var (p, u) := Locate(Top(null), t, node);
            Plug(p, u) == t && Focused(root, p, u) && Nodes(u) + PathNodes(p) == Nodes(t)
  {
    var (p, u) := Locate(Top(null), t, node);
    Zip(p, u);
    ZipPainted(p, u);
    PlugNodes(p, u);
  }

  lemma FoundOrder(t: Shape, node: Node, p: Path, u: Shape) returns (k: nat)
    requires Linked(t, null) && Balanced(t) && !Red(t)
    requires Plug(p, u) == t && u.Fork? && u.node == node
    ensures var c := CutAt(p, u);
            && k < |Inorder(t)| && Inorder(t)[k] == node
            && Inorder(Plug(c.path, c.rest)) == Removed(Inorder(t), k)
            && Nodes(c.rest) + PathNodes(c.path) == Nodes(t) - {node}
            && Elements(Removed(Inorder(t), k)) == Nodes(t) - {node}
            && (if c.red then Settled(c.path, c.rest) else Short(c.path, c.rest))
    ensures Distinct(Inorder(t)) && Elements(Inorder(t)) == Nodes(t)
  {
    hide Inorder, Linked, Nodes, PathNodes, Painted, Plug, Before, Height, Fits, Listed, Distinct, Locate, CutAt;
    hide Balanced, Short, Settled, Elements;
    k := |Before(p)| + |Inorder(u.left)|;
    InorderDistinct(t, null);
    InorderNodes(t);
    CutRepair(p, u);
    CutContents(p, u);
  }
}
