/** The tree object: insertion behind a node and removal, with rotations and the neighbour list.

    Nodes are the callers' own objects; the tree adds parent, children, colour and two neighbours to them. The ghost
    field shape is the tree that the pointers form. Valid says that they do form it, that it has a black root, no red
    node with a red child and equally many black nodes on every way down, and that the neighbour pointers link the
    nodes in the order of its traversal.

    Insert and Remove are cut into the steps of the source: the list is changed first, then the node is hung in or
    taken out, then a loop repairs the balance from there to the root. Each round of a loop is a method of its own
    for either side, and each rotation and recolouring in it another one; ghost parameters tell every method which
    part of the tree it works on and what lies around it. The contracts say which fields of which nodes may change,
    so that colours survive rotations and links survive recolourings without further proof. */
module RedBlackTree {
  import opened RedBlackShape
  import opened RedBlackRepair
  import opened RedBlackHeap

  /** node becomes the neighbour of s[i] to the right. */
  method ListAfter(after: Node, node: Node, ghost s: seq<Node>, ghost i: nat)
    requires Listed(s) && Distinct(s) && i < |s| && s[i] == after && node !in s
    modifies Elements(s)`prev, Elements(s)`next, node`prev, node`next
    ensures Listed(Inserted(s, i + 1, node))
  {
    assert forall k :: 0 <= k < |s| ==> s[k] in Elements(s);
    assert after.next == if i + 1 < |s| then s[i + 1] else null;
    node.prev := after;
    node.next := after.next;
    if after.next != null {
      after.next.prev := node;
    }
    after.next := node;
    ghost var r := Inserted(s, i + 1, node);
    forall j | 0 <= j < |r|
      ensures r[j].prev == (if j == 0 then null else r[j - 1])
      ensures r[j].next == (if j + 1 == |r| then null else r[j + 1])
    {
      assert j <= i ==> r[j] == s[j];
      assert j > i + 1 ==> r[j] == s[j - 1];
    }
  }

  /** node becomes the first in the list. */
  method ListFirst(node: Node, first: Node, ghost s: seq<Node>)
    requires Listed(s) && Distinct(s) && s != [] && s[0] == first && node !in s
    modifies first`prev, node`prev, node`next
    ensures Listed(Inserted(s, 0, node))
  {
    assert forall k :: 0 <= k < |s| ==> s[k] in s;
    node.prev := null;
    node.next := first;
    first.prev := node;
  }

  /** node leaves the list; its neighbours point to each other. */
  method Unlist(node: Node, ghost s: seq<Node>, ghost i: nat)
    requires Listed(s) && Distinct(s) && i < |s| && s[i] == node
    modifies Elements(s)`prev, Elements(s)`next
    ensures Listed(Removed(s, i)) && node.prev == null && node.next == null
  {
    assert forall k :: 0 <= k < |s| ==> s[k] in Elements(s);
    assert node.next == if i + 1 < |s| then s[i + 1] else null;
    assert node.prev == if i > 0 then s[i - 1] else null;
    if node.next != null {
      node.next.prev := node.prev;
    }
    if node.prev != null {
      node.prev.next := node.next;
    }
    node.next, node.prev := null, null;
    ghost var r := Removed(s, i);
    forall j | 0 <= j < |r|
      ensures r[j].prev == (if j == 0 then null else r[j - 1])
      ensures r[j].next == (if j + 1 == |r| then null else r[j + 1])
    {
      assert j < i ==> r[j] == s[j];
      assert j >= i ==> r[j] == s[j + 1];
    }
  }

  method First(start: Node, ghost p: Path, ghost t: Shape) returns (node: Node)
    requires At(p, t) && t.Fork? && t.node == start
    ensures node == FirstFocus(p, t).1.node && At(FirstFocus(p, t).0, FirstFocus(p, t).1)
  {
    node := start;
    ghost var q, u := p, t;
    while node.left != null
      invariant At(q, u) && u.Fork? && u.node == node && FirstFocus(q, u) == FirstFocus(p, t)
      decreases u
    {
      MoveUp(Step(q, true, u.node, u.red, u.right), u.left, u.red);
      q, u := Step(q, true, u.node, u.red, u.right), u.left;
      node := node.left;
    }
  }

  /** The path goes on to the new child. */
  method SetChild(parent: Node, onLeft: bool, node: Node, ghost hole: Path)
    requires hole.Step? && hole.node == parent && hole.onLeft == onLeft && LinkedPath(hole, null)
    modifies (if onLeft then {parent} else {})`left, (if onLeft then {} else {parent})`right
    ensures LinkedPath(hole, node) && RootOf(hole, null) == RootOf(hole, node)
  {
    if onLeft {
      parent.left := node;
    } else {
      parent.right := node;
    }
  }

  /** The lower half of a left rotation. */
  method TurnLeft(parent: Node?, node: Node, q: Node, ghost t: Shape)
    requires t.Fork? && t.node == node && t.right.Fork? && t.right.node == q && Linked(t, parent)
    modifies Nodes(t)`up, Nodes(t)`left, Nodes(t)`right
    ensures Linked(Rotated(false, t), parent) && Nodes(Rotated(false, t)) == Nodes(t)
  {
    hide Linked, Nodes;
    ghost var a, b := t.left, t.right.left;
    RotationParts(t, parent, false);
    q.up := parent;
    node.up := q;
    node.right := q.left;
    if node.right != null {
      node.right.up := node;
    }
    q.left := node;
    LinkFork(b, node);
    LinkFork(Fork(a, node, t.red, b), q);
    LinkFork(Rotated(false, t), parent);
  }

  method TurnRight(parent: Node?, node: Node, q: Node, ghost t: Shape)
    requires t.Fork? && t.node == node && t.left.Fork? && t.left.node == q && Linked(t, parent)
    modifies Nodes(t)`up, Nodes(t)`left, Nodes(t)`right
    ensures Linked(Rotated(true, t), parent) && Nodes(Rotated(true, t)) == Nodes(t)
  {
    hide Linked, Nodes;
    ghost var b, c := t.left.right, t.right;
    RotationParts(t, parent, true);
    q.up := parent;
    node.up := q;
    node.left := q.right;
    if node.left != null {
      node.left.up := node;
    }
    q.right := node;
    LinkFork(b, node);
    LinkFork(Fork(b, node, t.red, c), q);
    LinkFork(Rotated(true, t), parent);
  }

  /** The successor leaves its place for x. */
  method Detach(up: Node, next: Node, x: Node?, ghost e: Path, ghost t: Shape)
    requires LinkedPath(e, next) && Linked(t, next) && x == Root(t) && up == Parent(e)
    requires up !in Nodes(t) && Nodes(t) !! PathNodes(e) && (e.Step? ==> e.onLeft)
    modifies up`left, Nodes(t)`up
    ensures At(e, t) && up.left == x
  {
    up.left := x;
    if x != null {
      x.up := up;
    }
  }

  /** The leftmost node next leaves the subtree under right, which then hangs below it. */
  method LiftFirst(parent: Node?, next: Node, right: Node, ghost t: Shape, ghost e: Path, ghost f: Shape)
    returns (x: Node?, up: Node)
    requires FirstHangs(t, e, f) && t.node == right && f.node == next
    modifies (PathNodes(e) + Nodes(f.right) + {right})`up, (PathNodes(e) + Nodes(f.right) + {right})`left
    modifies next`up, next`right
    ensures Linked(DropFirst(t), next) && Root(DropFirst(t)) == right
    ensures Nodes(DropFirst(t)) == PathNodes(e) + Nodes(f.right) + {right} + Nodes(t.right)
    ensures next.up == parent && next.right == right && x == Root(f.right) && up == Parent(e)
  {
    hide Linked, LinkedPath, Nodes, PathNodes, Outer, RootOf;
    AllocatedNodes(t.right);
    up := next.up;
    next.up := parent;
    x := next.right;
    Detach(up, next, x, e, f.right);
    next.right := right;
    right.up := next;
    Zip(e, f.right);
    LinkFork(Fork(DropFirst(t.left), right, t.red, t.right), next);
  }

  /** The colour and the left subtree of node go over to next. */
  method TakeOver(node: Node, next: Node, left: Node, ghost l: Shape) returns (red: bool)
    requires l.Fork? && l.node == left && Linked(l, node) && next !in Nodes(l)
    modifies next`red, next`left, left`up
    ensures next.red == old(node.red) && red == old(next.red) && next.left == left && Linked(l, next)
  {
    hide Linked, Nodes;
    ForkParts(l, node);
    red := next.red;
    next.red := node.red;
    next.left := left;
    left.up := next;
    LinkFork(l, next);
  }

  lemma LeftNode(l: Shape)
    ensures l.Fork? ==> l.node in Nodes(l)
  {
  }

  /** The right child, having no left child, takes node's place. */
  method PutNear(parent: Node?, node: Node, next: Node, left: Node, ghost u: Shape)
    returns (x: Node?, red: bool)
    requires Linked(u, parent) && u.Fork? && u.node == node && u.left.Fork? && u.left.node == left
    requires u.right.Fork? && u.right.node == next && u.right.left.Leaf?
    modifies Nodes(u)`up, Nodes(u)`left, Nodes(u)`right, next`red
    ensures Linked(Fork(u.left, next, u.red, DropFirst(u.right)), parent)
    ensures next.red == old(node.red) && red == old(next.red) && x == Root(u.right.right)
  {
    hide Linked, Nodes;
    ForkParts(u, parent);
    ForkParts(u.right, node);
    LeftNode(u.left);
    AllocatedNodes(u);
    red := TakeOver(node, next, left, u.left);
    next.up := parent;
    x := next.right;
    LinkFork(Fork(u.left, next, u.red, u.right.right), parent);
  }

  /** The leftmost node of the right subtree, which is not its root, takes node's place. */
  method PutFar(parent: Node?, node: Node, next: Node, left: Node, right: Node, ghost u: Shape)
    returns (x: Node?, up: Node, red: bool)
    requires Linked(u, parent) && u.Fork? && u.node == node && u.left.Fork? && u.left.node == left
    requires u.right.Fork? && u.right.node == right && u.right.left.Fork? && next == Leftmost(u.right).node
    modifies Nodes(u)`up, Nodes(u)`left, Nodes(u)`right, next`red
    ensures Linked(Fork(u.left, next, u.red, DropFirst(u.right)), parent)
    ensures next.red == old(node.red) && red == old(next.red)
    ensures x == Root(Leftmost(u.right).right) && up == Parent(FirstFocus(Top(right), u.right.left).0)
  {
    hide Linked, LinkedPath, Nodes, PathNodes, Outer, RootOf, FirstHangs;
    ghost var r := u.right;
    ghost var (e, f) := FirstFocus(Top(right), r.left);
    ForkParts(u, parent);
    FarParts(r, node);
    AllocatedNodes(u);
    LeftNode(u.left);
    red := TakeOver(node, next, left, u.left);
    x, up := LiftFirst(parent, next, right, r, e, f);
    LinkFork(Fork(u.left, next, u.red, DropFirst(r)), parent);
  }

  class Tree {
    var root: Node?
    ghost var shape: Shape

    constructor ()
      ensures Valid() && root == null && shape == Leaf
    {
      root, shape := null, Leaf;
    }

    ghost predicate Valid()
      reads this
      reads Nodes(shape)`up, Nodes(shape)`left, Nodes(shape)`right, Nodes(shape)`red
      reads Elements(Inorder(shape))`prev, Elements(Inorder(shape))`next
    {
      Sound(root, shape) && Listed(Inorder(shape))
    }

    /** Puts hole where node hangs. */
    method Rehang(parent: Node?, node: Node, hole: Node?, ghost p: Path)
      requires LinkedPath(p, node) && parent == Parent(p) && Outer(p) == null && node !in PathNodes(p)
      requires root == RootOf(p, node)
      modifies this`root, Innermost(p)`left, Innermost(p)`right
      ensures LinkedPath(p, hole) && root == RootOf(p, hole)
    {
      if parent != null {
        assert p.other.Fork? ==> p.other.node in Nodes(p.other);
        if parent.left == node {
          parent.left := hole;
        } else {
          parent.right := hole;
        }
      } else {
        root := hole;
      }
    }

    method RotateLeft(node: Node, ghost p: Path, ghost t: Shape)
      requires t.Fork? && t.node == node && t.right.Fork?
      requires At(p, t) && root == RootOf(p, node) && Outer(p) == null
      modifies this`root, (Nodes(t) + PathNodes(p))`up, (Nodes(t) + PathNodes(p))`left, (Nodes(t) + PathNodes(p))`right
      ensures At(p, Rotated(false, t)) && root == RootOf(p, t.right.node)
    {
      hide LinkedPath, PathNodes, RootOf, Outer;
      AllocatedNodes(t);
      AllocatedPath(p);
      InnermostNodes(p);
      var q, parent := node.right, node.up;
      Rehang(parent, node, q, p);
      TurnLeft(parent, node, q, t);
    }

    method RotateRight(node: Node, ghost p: Path, ghost t: Shape)
      requires t.Fork? && t.node == node && t.left.Fork?
      requires At(p, t) && root == RootOf(p, node) && Outer(p) == null
      modifies this`root, (Nodes(t) + PathNodes(p))`up, (Nodes(t) + PathNodes(p))`left, (Nodes(t) + PathNodes(p))`right
      ensures At(p, Rotated(true, t)) && root == RootOf(p, t.left.node)
    {
      hide LinkedPath, PathNodes, RootOf, Outer;
      AllocatedNodes(t);
      AllocatedPath(p);
      InnermostNodes(p);
      var q, parent := node.left, node.up;
      Rehang(parent, node, q, p);
      TurnRight(parent, node, q, t);
    }

    /** The new node is a red leaf in the open place that already points to it. */
    method Fill(parent: Node?, node: Node, ghost hole: Path)
      requires LinkedPath(hole, node) && PaintedPath(hole) && root == RootOf(hole, node) && Outer(hole) == null
      requires parent == Parent(hole) && node !in PathNodes(hole)
      modifies node`left, node`right, node`up, node`red
      ensures Focused(root, hole, Fork(Leaf, node, true, Leaf))
    {
      node.left, node.right := null, null;
      node.up := parent;
      node.red := true;
      assert Linked(Fork(Leaf, node, true, Leaf), parent) && Painted(Fork(Leaf, node, true, Leaf));
      assert Nodes(Fork(Leaf, node, true, Leaf)) == {node};
    }

    /** The new node hangs right below after, or left below the leftmost node of its right subtree. */
    method HangAfter(after: Node, node: Node, ghost hole: Path) returns (parent: Node)
      requires Linked(shape, null) && after in Nodes(shape)
      requires hole == HoleAfter(shape, after) && LinkedPath(hole, null)
      modifies PathNodes(hole)`left, PathNodes(hole)`right
      ensures LinkedPath(hole, node) && RootOf(hole, null) == RootOf(hole, node) && parent == hole.node
    {
      hide Inorder, Linked, LinkedPath, Nodes, PathNodes, RootOf, Outer, Plug, Before;
      AllocatedPath(hole);
      InnermostNodes(hole);
      RightOf(shape, after);
      if after.right != null {
        ghost var (p, u) := Locate(Top(null), shape, after);
        parent := First(after.right, Step(p, false, after, u.red, u.left), u.right);
        SetChild(parent, true, node, hole);
      } else {
        parent := after;
        SetChild(parent, false, node, hole);
      }
    }

    /** Opens the place behind after: neighbour list first, then the tree. */
    method OpenAfter(after: Node, node: Node) returns (parent: Node)
      requires Valid() && node !in Nodes(shape) && after in Nodes(shape)
      modifies Nodes(shape), node`prev, node`next
      ensures Opened(root, HoleAfter(shape, after), node, old(Inorder(shape)))
      ensures parent == HoleAfter(shape, after).node
    {
      hide Inorder, Height, Balanced, Fits, Linked, LinkedPath, Nodes, PathNodes, Painted, PaintedPath;
      hide RootOf, Outer, Plug, Before, Listed, Distinct, HoleAfter;
      ghost var s, hole := Inorder(shape), HoleAfter(shape, after);
      Open(root, shape, hole, node);
      OpenList(shape, hole, node);
      ListAfter(after, node, s, |Before(hole)| - 1);
      parent := HangAfter(after, node, hole);
    }

    /** Opens the place before everything; the tree may be empty. */
    method OpenFirst(node: Node) returns (parent: Node?)
      requires Valid() && node !in Nodes(shape)
      modifies this`root, Nodes(shape), node`prev, node`next
      ensures Opened(root, HoleFirst(shape), node, old(Inorder(shape))) && parent == Parent(HoleFirst(shape))
    {
      hide Inorder, Height, Balanced, Fits, Linked, LinkedPath, Nodes, PathNodes, Painted, PaintedPath;
      hide RootOf, Outer, Plug, Before, Distinct;
      ghost var s, hole := Inorder(shape), HoleFirst(shape);
      Open(root, shape, hole, node);
      OpenList(shape, hole, node);
      FirstInOrder(shape);
      if root != null {
        parent := First(root, Top(null), shape);
        HangFirst(node, parent, s, hole);
      } else {
        node.prev, node.next := null, null;
        root := node;
        parent := null;
      }
    }

    /** The new node hangs left below the first node and precedes it in the list. */
    method HangFirst(node: Node, first: Node, ghost s: seq<Node>, ghost hole: Path)
      requires Listed(s) && Distinct(s) && s != [] && s[0] == first && node !in s && Elements(s) == PathNodes(hole)
      requires hole.Step? && hole.node == first && hole.onLeft && LinkedPath(hole, null)
      modifies first`prev, first`left, node`prev, node`next
      ensures Listed(Inserted(s, 0, node)) && LinkedPath(hole, node) && RootOf(hole, null) == RootOf(hole, node)
    {
      hide LinkedPath, PathNodes, RootOf, Listed, Distinct;
      AllocatedPath(hole);
      assert Elements(Inserted(s, 0, node)) == Elements(s) + {node};
      ListFirst(node, first, s);
      SetChild(first, true, node, hole);
    }

    /** Red uncle. */
    method PaintUncle(parent: Node, grandpa: Node, uncle: Node, ghost p: Path, ghost t: Shape)
      requires Focused(root, p, t) && p.Step? && p.above.Step? && p.above.other.Fork? && t.Fork?
      requires parent == p.node && grandpa == p.above.node && uncle == p.above.other.node
      modifies PathNodes(p)`red
      ensures Focused(root, p.above.above, Recoloured(p, t))
    {
      hide Inorder, Height, Balanced, Fits, Linked, LinkedPath, Nodes, PathNodes, Painted;
      hide PaintedPath, RootOf, Outer, At, Recoloured;
      PaintParts(root, p, t);
      assert At(p.above.above, Recoloured(p, t)) by {
        RecolouredAt(p, t);
      }
      parent.red, uncle.red := false, false;
      grandpa.red := true;
      RecolouredPainted(p, t);
    }

    /** Black uncle: parent and grandparent change colours, and the parent moves up. */
    method OuterOnLeft(parent: Node, grandpa: Node, ghost p: Path, ghost t: Shape)
      requires Focused(root, p, t) && p.Step? && p.above.Step? && p.onLeft && p.above.onLeft
      requires parent == p.node && grandpa == p.above.node
      modifies this`root, (Nodes(t) + PathNodes(p))`up, (Nodes(t) + PathNodes(p))`left,
               (Nodes(t) + PathNodes(p))`right, (Nodes(t) + PathNodes(p))`red
      ensures Focused(root, OuterPath(p), t)
    {
      hide Linked, LinkedPath, Nodes, PathNodes, Painted, PaintedPath, RootOf, Outer, At;
      BeforeOuter(root, p, t);
      parent.red := false;
      grandpa.red := true;
      RotateRight(grandpa, p.above.above, OuterShape(p, t));
      AfterOuter(root, p, t);
    }

    /** A round of the loop after an insertion, the parent being a left child. */
    method RepairOnLeft(node: Node, up: Node, grandpa: Node, ghost p: Path, ghost t: Shape)
      returns (after: Node, ghost q: Path, ghost u: Shape)
      requires Focused(root, p, t) && RedFocus(p, t) && Root(t) == node && RedStep(p) && p.node == up
      requires p.above.Step? && p.above.onLeft && p.above.node == grandpa
      modifies this`root, (Nodes(t) + PathNodes(p))`up, (Nodes(t) + PathNodes(p))`left,
               (Nodes(t) + PathNodes(p))`right, (Nodes(t) + PathNodes(p))`red
      ensures Focused(root, q, u) && RedFocus(q, u) && Root(u) == after
      ensures Same(p, t, q, u) && Depth(q) < Depth(p)
    {
      hide Inorder, Height, Balanced, Fits, Linked, LinkedPath, Nodes, PathNodes, Painted, PaintedPath;
      hide RootOf, Outer, At, Depth;
      after, q, u := node, p, t;
      Relatives(root, p, t);
      var parent, uncle := up, grandpa.right;
      if uncle != null && uncle.red {
        RecolouredFits(p, t);
        PaintUncle(parent, grandpa, uncle, p, t);
        after, q, u := grandpa, p.above.above, Recoloured(p, t);
      } else {
        if after == parent.right {
          InnerFits(p, t);
          BeforeInner(root, p, t);
          RotateLeft(parent, p.above, Join(p.onLeft, t, p.node, p.red, p.other));
          AfterInner(root, p, t);
          q, u := InnerPath(p, t), InnerShape(p, t);
          after := parent;
          Relatives(root, q, u);
          parent := after.up;
        }
        OuterFits(q, u);
        OuterOnLeft(parent, grandpa, q, u);
        q := OuterPath(q);
      }
    }

    /** Black uncle: parent and grandparent change colours, and the parent moves up. */
    method OuterOnRight(parent: Node, grandpa: Node, ghost p: Path, ghost t: Shape)
      requires Focused(root, p, t) && p.Step? && p.above.Step? && !p.onLeft && !p.above.onLeft
      requires parent == p.node && grandpa == p.above.node
      modifies this`root, (Nodes(t) + PathNodes(p))`up, (Nodes(t) + PathNodes(p))`left,
               (Nodes(t) + PathNodes(p))`right, (Nodes(t) + PathNodes(p))`red
      ensures Focused(root, OuterPath(p), t)
    {
      hide Linked, LinkedPath, Nodes, PathNodes, Painted, PaintedPath, RootOf, Outer, At;
      BeforeOuter(root, p, t);
      parent.red := false;
      grandpa.red := true;
      RotateLeft(grandpa, p.above.above, OuterShape(p, t));
      AfterOuter(root, p, t);
    }

    /** A round of the loop after an insertion, the parent being a right child. */
    method RepairOnRight(node: Node, up: Node, grandpa: Node, ghost p: Path, ghost t: Shape)
      returns (after: Node, ghost q: Path, ghost u: Shape)
      requires Focused(root, p, t) && RedFocus(p, t) && Root(t) == node && RedStep(p) && p.node == up
      requires p.above.Step? && !p.above.onLeft && p.above.node == grandpa
      modifies this`root, (Nodes(t) + PathNodes(p))`up, (Nodes(t) + PathNodes(p))`left,
               (Nodes(t) + PathNodes(p))`right, (Nodes(t) + PathNodes(p))`red
      ensures Focused(root, q, u) && RedFocus(q, u) && Root(u) == after
      ensures Same(p, t, q, u) && Depth(q) < Depth(p)
    {
      hide Inorder, Height, Balanced, Fits, Linked, LinkedPath, Nodes, PathNodes, Painted, PaintedPath;
      hide RootOf, Outer, At, Depth;
      after, q, u := node, p, t;
      Relatives(root, p, t);
      var parent, uncle := up, grandpa.left;
      if uncle != null && uncle.red {
        RecolouredFits(p, t);
        PaintUncle(parent, grandpa, uncle, p, t);
        after, q, u := grandpa, p.above.above, Recoloured(p, t);
      } else {
        if after == parent.left {
          InnerFits(p, t);
          BeforeInner(root, p, t);
          RotateRight(parent, p.above, Join(p.onLeft, t, p.node, p.red, p.other));
          AfterInner(root, p, t);
          q, u := InnerPath(p, t), InnerShape(p, t);
          after := parent;
          Relatives(root, q, u);
          parent := after.up;
        }
        OuterFits(q, u);
        OuterOnRight(parent, grandpa, q, u);
        q := OuterPath(q);
      }
    }

    /** The repair loop after an insertion; whole is the tree it leaves. */
    method RepairInsertion(node: Node, ghost p: Path, ghost t: Shape) returns (ghost whole: Shape)
      requires Focused(root, p, t) && RedFocus(p, t) && Root(t) == node
      modifies this`root, (Nodes(t) + PathNodes(p))`up, (Nodes(t) + PathNodes(p))`left,
               (Nodes(t) + PathNodes(p))`right, (Nodes(t) + PathNodes(p))`red
      ensures Sound(root, whole)
      ensures Inorder(whole) == Inorder(Plug(p, t)) && Nodes(whole) == Nodes(t) + PathNodes(p)
    {
      hide Inorder, Height, Balanced, Fits, Linked, LinkedPath, Nodes, PathNodes, Painted, PaintedPath;
      hide RootOf, Outer, At, Depth;
      var after, parent := node, node.up;
      ghost var q, u := p, t;
      ParentShows(root, q, u);
      while parent != null && parent.red
        invariant Focused(root, q, u) && RedFocus(q, u) && Root(u) == after && parent == Parent(q)
        invariant Same(p, t, q, u)
        invariant parent != null ==> q.Step? && parent.red == q.red
        decreases Depth(q)
      {
        Relatives(root, q, u);
        var grandpa := parent.up;
        if parent == grandpa.left {
          after, q, u := RepairOnLeft(after, parent, grandpa, q, u);
        } else {
          after, q, u := RepairOnRight(after, parent, grandpa, q, u);
        }
        ParentShows(root, q, u);
        parent := after.up;
      }
      whole := if q.Top? then Coloured(u, false) else Plug(q, u);
      LoopEnd(root, q, u);
      root.red := false;
      Settle(whole);
    }

    /** The new red leaf hangs in its place; the repair loop makes the tree sound. */
    method FinishInsertion(node: Node, ghost hole: Path, ghost s: seq<Node>)
      requires Focused(root, hole, Fork(Leaf, node, true, Leaf)) && Fits(hole, 0)
      requires s == Inorder(Plug(hole, Leaf)) && |Before(hole)| <= |s| && Elements(s) == PathNodes(hole)
      requires Listed(Inserted(s, |Before(hole)|, node))
      modifies this, ({node} + PathNodes(hole))`up, ({node} + PathNodes(hole))`left,
               ({node} + PathNodes(hole))`right, ({node} + PathNodes(hole))`red
      ensures Valid() && Nodes(shape) == PathNodes(hole) + {node}
      ensures Inorder(shape) == Inserted(s, |Before(hole)|, node)
    {
      hide Inorder, Linked, LinkedPath, PathNodes, Painted, PaintedPath, RootOf, Outer, Plug, Before;
      ghost var leaf := Fork(Leaf, node, true, Leaf);
      FilledOrder(hole, node);
      AllocatedPath(hole);
      assert Nodes(leaf) == {node};
      assert Height(leaf) == Height(Leaf) && Balanced(Leaf);
      shape := RepairInsertion(node, hole, leaf);
    }

    /** Puts node right behind after, or first if after is null. */
    method Insert(after: Node?, node: Node)
      requires Valid() && node !in Nodes(shape) && (after != null ==> after in Nodes(shape))
      modifies this, Nodes(shape), node
      ensures Valid() && Nodes(shape) == old(Nodes(shape)) + {node}
      ensures after == null ==> Inorder(shape) == [node] + old(Inorder(shape))
      ensures after != null ==> var s := old(Inorder(shape));
                exists i :: 0 <= i < |s| && s[i] == after && Inorder(shape) == s[..i + 1] + [node] + s[i + 1..]
    {
      hide Inorder, Height, Balanced, Fits, Linked, LinkedPath, Nodes, PathNodes, Painted, PaintedPath;
      hide RootOf, Outer, Plug, Before, Listed;
      ghost var s := Inorder(shape);
      ghost var hole := if after != null then HoleAfter(shape, after) else HoleFirst(shape);
      OpenList(shape, hole, node);
      var parent: Node?;
      if after != null {
        parent := OpenAfter(after, node);
      } else {
        parent := OpenFirst(node);
      }
      Fill(parent, node, hole);
      FinishInsertion(node, hole, s);
      assert after != null ==> s[|Before(hole)| - 1] == after;
    }

    /** Red sibling: it turns black, the parent red, and the sibling moves up. */
    method LowerOnLeft(parent: Node, sibling: Node, ghost p: Path, ghost t: Shape)
      requires Focused(root, p, t) && p.Step? && p.onLeft
      requires p.node == parent && p.other.Fork? && p.other.node == sibling
      modifies this`root, (Nodes(t) + PathNodes(p))`up, (Nodes(t) + PathNodes(p))`left,
               (Nodes(t) + PathNodes(p))`right, (Nodes(t) + PathNodes(p))`red
      ensures Focused(root, LoweredPath(p), t)
    {
      hide Linked, LinkedPath, Nodes, PathNodes, Painted, PaintedPath, RootOf, Outer, At;
      KinApart(root, p, t);
      LoweredAt(p, t);
      sibling.red := false;
      parent.red := true;
      RotateLeft(parent, p.above, LoweredShape(p, t));
      AfterLowering(root, p, t);
    }

    /** Red sibling: it turns black, the parent red, and the sibling moves up. */
    method LowerOnRight(parent: Node, sibling: Node, ghost p: Path, ghost t: Shape)
      requires Focused(root, p, t) && p.Step? && !p.onLeft
      requires p.node == parent && p.other.Fork? && p.other.node == sibling
      modifies this`root, (Nodes(t) + PathNodes(p))`up, (Nodes(t) + PathNodes(p))`left,
               (Nodes(t) + PathNodes(p))`right, (Nodes(t) + PathNodes(p))`red
      ensures Focused(root, LoweredPath(p), t)
    {
      hide Linked, LinkedPath, Nodes, PathNodes, Painted, PaintedPath, RootOf, Outer, At;
      KinApart(root, p, t);
      LoweredAt(p, t);
      sibling.red := false;
      parent.red := true;
      RotateRight(parent, p.above, LoweredShape(p, t));
      AfterLowering(root, p, t);
    }

    /** Only the near nephew is red: it takes the sibling's place. */
    method NearOnLeft(sibling: Node, ghost p: Path, ghost t: Shape)
      requires Focused(root, p, t) && p.Step? && p.onLeft
      requires p.other.Fork? && p.other.node == sibling && p.other.left.Fork?
      modifies this`root, (Nodes(t) + PathNodes(p))`up, (Nodes(t) + PathNodes(p))`left,
               (Nodes(t) + PathNodes(p))`right, (Nodes(t) + PathNodes(p))`red
      ensures Focused(root, NearPath(p), t)
    {
      hide Linked, LinkedPath, Nodes, PathNodes, Painted, PaintedPath, RootOf, Outer, At;
      KinApart(root, p, t);
      NephewApart(root, p, t, p.onLeft);
      NearAt(p, t);
      sibling.left.red := false;
      sibling.red := true;
      RotateRight(sibling, SiblingPath(p, t), NearShape(p));
      AfterNear(root, p, t);
    }

    /** Only the near nephew is red: it takes the sibling's place. */
    method NearOnRight(sibling: Node, ghost p: Path, ghost t: Shape)
      requires Focused(root, p, t) && p.Step? && !p.onLeft
      requires p.other.Fork? && p.other.node == sibling && p.other.right.Fork?
      modifies this`root, (Nodes(t) + PathNodes(p))`up, (Nodes(t) + PathNodes(p))`left,
               (Nodes(t) + PathNodes(p))`right, (Nodes(t) + PathNodes(p))`red
      ensures Focused(root, NearPath(p), t)
    {
      hide Linked, LinkedPath, Nodes, PathNodes, Painted, PaintedPath, RootOf, Outer, At;
      KinApart(root, p, t);
      NephewApart(root, p, t, p.onLeft);
      NearAt(p, t);
      sibling.right.red := false;
      sibling.red := true;
      RotateLeft(sibling, SiblingPath(p, t), NearShape(p));
      AfterNear(root, p, t);
    }

    /** The far nephew is red: the sibling takes the parent's place, and the tree is sound. */
    method FarOnLeft(parent: Node, sibling: Node, ghost p: Path, ghost t: Shape)
      requires Focused(root, p, t) && p.Step? && p.onLeft
      requires p.node == parent && p.other.Fork? && p.other.node == sibling
      requires p.other.right.Fork? && parent.red == p.red
      modifies this`root, (Nodes(t) + PathNodes(p))`up, (Nodes(t) + PathNodes(p))`left,
               (Nodes(t) + PathNodes(p))`right, (Nodes(t) + PathNodes(p))`red
      ensures var w := FarWhole(p, t); root == Root(w) && Linked(w, null) && Painted(w)
    {
      hide Linked, LinkedPath, Nodes, PathNodes, Painted, PaintedPath, RootOf, Outer, At;
      KinApart(root, p, t);
      NephewApart(root, p, t, !p.onLeft);
      FarAt(p, t);
      sibling.red := parent.red;
      parent.red, sibling.right.red := false, false;
      RotateLeft(parent, p.above, FarShape(p, t));
      AfterFar(root, p, t);
    }

    /** The far nephew is red: the sibling takes the parent's place, and the tree is sound. */
    method FarOnRight(parent: Node, sibling: Node, ghost p: Path, ghost t: Shape)
      requires Focused(root, p, t) && p.Step? && !p.onLeft
      requires p.node == parent && p.other.Fork? && p.other.node == sibling
      requires p.other.left.Fork? && parent.red == p.red
      modifies this`root, (Nodes(t) + PathNodes(p))`up, (Nodes(t) + PathNodes(p))`left,
               (Nodes(t) + PathNodes(p))`right, (Nodes(t) + PathNodes(p))`red
      ensures var w := FarWhole(p, t); root == Root(w) && Linked(w, null) && Painted(w)
    {
      hide Linked, LinkedPath, Nodes, PathNodes, Painted, PaintedPath, RootOf, Outer, At;
      KinApart(root, p, t);
      NephewApart(root, p, t, !p.onLeft);
      FarAt(p, t);
      sibling.red := parent.red;
      parent.red, sibling.left.red := false, false;
      RotateRight(parent, p.above, FarShape(p, t));
      AfterFar(root, p, t);
    }

    /** No red nephew: the sibling turns red. */
    method Pale(sibling: Node, ghost p: Path, ghost t: Shape)
      requires Focused(root, p, t) && p.Step? && p.other.Fork? && p.other.node == sibling
      modifies PathNodes(p)`red
      ensures Focused(root, p.above, PaledShape(p, t))
    {
      hide Linked, LinkedPath, Nodes, PathNodes, Painted, PaintedPath, RootOf, Outer, At;
      KinApart(root, p, t);
      PaledAt(p, t);
      sibling.red := true;
      PaledPainted(p, t);
    }

    /** A round of the loop after a removal, the part in focus being a left child. */
    method RoundOnLeft(up: Node, ghost p: Path, ghost t: Shape)
      returns (done: bool, ghost q: Path, ghost u: Shape, ghost whole: Shape)
      requires Focused(root, p, t) && Short(p, t) && !Red(t) && p.Step? && p.onLeft && p.node == up
      modifies this`root, (Nodes(t) + PathNodes(p))`up, (Nodes(t) + PathNodes(p))`left,
               (Nodes(t) + PathNodes(p))`right, (Nodes(t) + PathNodes(p))`red
      ensures !done ==> Focused(root, q, u) && Short(q, u) && Same(p, t, q, u) && Root(u) == up
      ensures !done ==> Red(u) || Depth(q) < Depth(p)
      ensures done ==>
                Sound(root, whole) && Inorder(whole) == Inorder(Plug(p, t)) && Nodes(whole) == Nodes(t) + PathNodes(p)
    {
      hide Inorder, Height, Balanced, Fits, Linked, LinkedPath, Nodes, PathNodes, Painted, PaintedPath;
      hide RootOf, Outer, At, Depth, Short, FarWhole;
      q, u, whole := p, t, t;
      Kin(root, q, u);
      var parent, sibling := up, up.right;
      if sibling.red {
        LoweredFits(p, t);
        LowerOnLeft(parent, sibling, p, t);
        q := LoweredPath(p);
        Kin(root, q, u);
        sibling := parent.right;
      }
      if (sibling.left != null && sibling.left.red) || (sibling.right != null && sibling.right.red) {
        if sibling.right == null || !sibling.right.red {
          NearFits(q, u);
          NearOnLeft(sibling, q, u);
          q := NearPath(q);
          Kin(root, q, u);
          sibling := parent.right;
        }
        FarFits(q, u);
        whole := FarWhole(q, u);
        FarOnLeft(parent, sibling, q, u);
        done := true;
      } else {
        PaledFits(q, u);
        Pale(sibling, q, u);
        q, u := q.above, PaledShape(q, u);
        done := false;
      }
    }

    /** A round of the loop after a removal, the part in focus being a right child. */
    method RoundOnRight(up: Node, ghost p: Path, ghost t: Shape)
      returns (done: bool, ghost q: Path, ghost u: Shape, ghost whole: Shape)
      requires Focused(root, p, t) && Short(p, t) && !Red(t) && p.Step? && !p.onLeft && p.node == up
      modifies this`root, (Nodes(t) + PathNodes(p))`up, (Nodes(t) + PathNodes(p))`left,
               (Nodes(t) + PathNodes(p))`right, (Nodes(t) + PathNodes(p))`red
      ensures !done ==> Focused(root, q, u) && Short(q, u) && Same(p, t, q, u) && Root(u) == up
      ensures !done ==> Red(u) || Depth(q) < Depth(p)
      ensures done ==>
                Sound(root, whole) && Inorder(whole) == Inorder(Plug(p, t)) && Nodes(whole) == Nodes(t) + PathNodes(p)
    {
      hide Inorder, Height, Balanced, Fits, Linked, LinkedPath, Nodes, PathNodes, Painted, PaintedPath;
      hide RootOf, Outer, At, Depth, Short, FarWhole;
      q, u, whole := p, t, t;
      Kin(root, q, u);
      var parent, sibling := up, up.left;
      if sibling.red {
        LoweredFits(p, t);
        LowerOnRight(parent, sibling, p, t);
        q := LoweredPath(p);
        Kin(root, q, u);
        sibling := parent.left;
      }
      if (sibling.left != null && sibling.left.red) || (sibling.right != null && sibling.right.red) {
        if sibling.left == null || !sibling.left.red {
          NearFits(q, u);
          NearOnRight(sibling, q, u);
          q := NearPath(q);
          Kin(root, q, u);
          sibling := parent.left;
        }
        FarFits(q, u);
        whole := FarWhole(q, u);
        FarOnRight(parent, sibling, q, u);
        done := true;
      } else {
        PaledFits(q, u);
        Pale(sibling, q, u);
        q, u := q.above, PaledShape(q, u);
        done := false;
      }
    }

    /** The node in focus turns black, and the tree is sound. */
    method FinishRemoval(node: Node?, ghost p: Path, ghost t: Shape) returns (ghost whole: Shape)
      requires Focused(root, p, t) && Short(p, t) && (Red(t) || p.Top?) && node == Root(t)
      modifies Nodes(t)`red
      ensures Sound(root, whole) && Inorder(whole) == Inorder(Plug(p, t)) && Nodes(whole) == Nodes(t) + PathNodes(p)
    {
      hide Inorder, Height, Balanced, Fits, Linked, LinkedPath, Nodes, PathNodes, PaintedPath, RootOf, Outer, At, Short;
      Repaired(root, p, t);
      whole := Plug(p, Coloured(t, false));
      if node != null {
        node.red := false;
      }
      assert Painted(Coloured(t, false));
      ZipPainted(p, Coloured(t, false));
    }

    /** Blackening the root of a sound tree changes nothing. */
    method BlackenRoot(node: Node?, ghost whole: Shape)
      requires Sound(root, whole) && node == root
      modifies Nodes(whole)`red
      ensures Sound(root, whole)
    {
      if node != null {
        node.red := false;
      }
    }

    /** The loop after a removal; whole is the tree it leaves. */
    method RepairRemoval(start: Node?, up: Node?, ghost p: Path, ghost t: Shape) returns (ghost whole: Shape)
      requires Focused(root, p, t) && Short(p, t) && start == Root(t) && up == Parent(p)
      modifies this`root, (Nodes(t) + PathNodes(p))`up, (Nodes(t) + PathNodes(p))`left,
               (Nodes(t) + PathNodes(p))`right, (Nodes(t) + PathNodes(p))`red
      ensures Sound(root, whole) && Inorder(whole) == Inorder(Plug(p, t)) && Nodes(whole) == Nodes(t) + PathNodes(p)
    {
      hide Inorder, Height, Balanced, Fits, Linked, LinkedPath, Nodes, PathNodes, Painted, PaintedPath;
      hide RootOf, Outer, At, Depth, Short, Sound;
      var node, parent, go := start, up, true;
      ghost var q, u := p, t;
      Shown(root, q, u);
      if node != null && node.red {
        whole := FinishRemoval(node, p, t);
        return;
      }
      while go
        invariant Focused(root, q, u) && Short(q, u) && Same(p, t, q, u) && node == Root(u) && parent == Parent(q)
        invariant go == !Red(u)
        decreases if go then Depth(q) + 1 else 0
      {
        Kin(root, q, u);
        if node == root {
          break;
        }
        var done;
        if node == parent.left {
          done, q, u, whole := RoundOnLeft(parent, q, u);
        } else {
          done, q, u, whole := RoundOnRight(parent, q, u);
        }
        if done {
          node := root;
          BlackenRoot(node, whole);
          return;
        }
        node := parent;
        Shown(root, q, u);
        parent := node.up;
        go := !node.red;
      }
      whole := FinishRemoval(node, q, u);
    }

    /** The only child, if any, takes the place of the node. */
    method TakeOne(parent: Node?, node: Node, next: Node?, ghost p: Path, ghost u: Shape) returns (red: bool)
      requires Focused(root, p, u) && u.Fork? && (u.left.Leaf? || u.right.Leaf?)
      requires parent == Parent(p) && node == u.node && next == Root(CutAt(p, u).rest)
      modifies this`root, (Nodes(u) + PathNodes(p))`up, (Nodes(u) + PathNodes(p))`left,
               (Nodes(u) + PathNodes(p))`right, (Nodes(u) + PathNodes(p))`red
      ensures var c := CutAt(p, u); Focused(root, c.path, c.rest) && red == c.red
    {
      hide LinkedPath, PathNodes, PaintedPath, RootOf, Outer;
      ghost var t := CutAt(p, u).rest;
      AllocatedNodes(u);
      AllocatedPath(p);
      InnermostNodes(p);
      assert Linked(t, node) && Painted(t) && Nodes(t) <= Nodes(u) && node !in Nodes(t) && node in Nodes(u);
      Rehang(parent, node, next, p);
      red := node.red;
      if next != null {
        next.up := parent;
      }
      assert Linked(t, parent);
    }

    /** The successor takes the place of a node with two children. */
    method TakeBoth(parent: Node?, node: Node, left: Node, right: Node, ghost p: Path, ghost u: Shape)
      returns (x: Node?, up: Node, red: bool)
      requires Focused(root, p, u) && u.Fork? && u.left.Fork? && u.right.Fork?
      requires parent == Parent(p) && node == u.node && left == u.left.node && right == u.right.node
      modifies this`root, (Nodes(u) + PathNodes(p))`up, (Nodes(u) + PathNodes(p))`left,
               (Nodes(u) + PathNodes(p))`right, (Nodes(u) + PathNodes(p))`red
      ensures var c := CutAt(p, u);
              Focused(root, c.path, c.rest) && x == Root(c.rest) && up == Parent(c.path) && red == c.red
    {
      hide Linked, LinkedPath, Nodes, PathNodes, Painted, PaintedPath, RootOf, Outer;
      ghost var base := Step(p, false, node, u.red, u.left);
      TakeParts(root, p, u);
      AllocatedNodes(u);
      AllocatedPath(p);
      var next := First(right, base, u.right);
      Rehang(parent, node, next, p);
      if next != right {
        x, up, red := PutFar(parent, node, next, left, right, u);
      } else {
        x, red := PutNear(parent, node, next, left, u);
        up := next;
      }
      assert Painted(Fork(u.left, next, u.red, DropFirst(u.right))) by {
        PaintFork(Fork(u.left, next, u.red, DropFirst(u.right)));
      }
      Taken(root, p, u, next);
    }

    /** Takes node out of the tree; x is the part that moves up, red the colour that went missing. */
    method TakeOut(node: Node, ghost p: Path, ghost u: Shape) returns (x: Node?, up: Node?, red: bool)
      requires Focused(root, p, u) && u.Fork? && u.node == node
      modifies this`root, (Nodes(u) + PathNodes(p))`up, (Nodes(u) + PathNodes(p))`left,
               (Nodes(u) + PathNodes(p))`right, (Nodes(u) + PathNodes(p))`red
      ensures var c := CutAt(p, u);
              Focused(root, c.path, c.rest) && x == Root(c.rest) && up == Parent(c.path) && red == c.red
    {
      hide LinkedPath, PathNodes, Painted, PaintedPath, RootOf, Outer, Nodes;
      up := node.up;
      var left, right := node.left, node.right;
      if left == null {
        x := right;
        red := TakeOne(up, node, right, p, u);
      } else if right == null {
        x := left;
        red := TakeOne(up, node, left, p, u);
      } else {
        x, up, red := TakeBoth(up, node, left, right, p, u);
      }
    }

    /** Takes node out of tree and list. */
    method Remove(node: Node)
      requires Valid() && node in Nodes(shape)
      modifies this, Nodes(shape)
      ensures Valid() && Nodes(shape) == old(Nodes(shape)) - {node}
      ensures var s := old(Inorder(shape));
              exists i :: 0 <= i < |s| && s[i] == node && Inorder(shape) == s[..i] + s[i + 1..]
      ensures node.prev == null && node.next == null
    {
      hide Inorder, Linked, LinkedPath, Nodes, PathNodes, Painted, PaintedPath, RootOf, Outer, Plug;
      hide At, Listed, Distinct;
      hide Height, Balanced, Fits, Focused, Locate, CutAt, Short;
      ghost var s := Inorder(shape);
      ghost var (p, u) := Locate(Top(null), shape, node);
      ghost var c := CutAt(p, u);
      Found(root, shape, node);
      ghost var k := FoundOrder(shape, node, p, u);
      AllocatedNodes(shape);
      Unlist(node, s, k);
      var x, up, red := TakeOut(node, p, u);
      if red {
        shape := Plug(c.path, c.rest);
        Whole(root, c.path, c.rest);
        return;
      }
      shape := RepairRemoval(x, up, c.path, c.rest);
    }
  }
}
