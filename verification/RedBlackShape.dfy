/** Red-black trees as values, and how a heap of nodes represents one. */
module RedBlackShape {

  /** The fields the tree adds to a node: parent U, children L and R, colour C, neighbours P and N. */
  class Node {
    var up: Node?
    var left: Node?
    var right: Node?
    var prev: Node?
    var next: Node?
    var red: bool

    constructor ()
      ensures up == left == right == prev == next == null && !red
    {
      up, left, right, prev, next, red := null, null, null, null, null, false;
    }
  }

  datatype Shape = Leaf | Fork(left: Shape, node: Node, red: bool, right: Shape)

  /** What lies around a subtree: the steps up to the root, each with the other child.
      Above the outermost step the parent is outer. */
  datatype Path = Top(outer: Node?) | Step(above: Path, onLeft: bool, node: Node, red: bool, other: Shape)

  function Join(onLeft: bool, t: Shape, node: Node, red: bool, other: Shape): Shape {
    if onLeft then Fork(t, node, red, other) else Fork(other, node, red, t)
  }

  function Plug(p: Path, t: Shape): Shape {
    match p
    case Top(_) => t
    case Step(above, onLeft, node, red, other) => Plug(above, Join(onLeft, t, node, red, other))
  }

  function Child(t: Shape, onLeft: bool): Shape
    requires t.Fork?
  {
    if onLeft then t.left else t.right
  }

  function Root(t: Shape): Node? {
    if t.Leaf? then null else t.node
  }

  function Parent(p: Path): Node? {
    if p.Top? then p.outer else p.node
  }

  /** The root of the whole tree when hole is the root of the part in focus. */
  function RootOf(p: Path, hole: Node?): Node? {
    if p.Top? then hole else RootOf(p.above, p.node)
  }

  function Outer(p: Path): Node? {
    if p.Top? then p.outer else Outer(p.above)
  }

  // ---------- contents ----------

  function Nodes(t: Shape): set<Node> {
    if t.Leaf? then {} else Nodes(t.left) + {t.node} + Nodes(t.right)
  }

  function PathNodes(p: Path): set<Node> {
    if p.Top? then {} else PathNodes(p.above) + {p.node} + Nodes(p.other)
  }

  function Inorder(t: Shape): seq<Node> {
    if t.Leaf? then [] else Inorder(t.left) + [t.node] + Inorder(t.right)
  }

  function Elements(s: seq<Node>): set<Node> {
    set n | n in s
  }

  function Before(p: Path): seq<Node> {
    if p.Top? then [] else if p.onLeft then Before(p.above) else Before(p.above) + (Inorder(p.other) + [p.node])
  }

  function After(p: Path): seq<Node> {
    if p.Top? then [] else if p.onLeft then [p.node] + Inorder(p.other) + After(p.above) else After(p.above)
  }

  lemma {:induction false} InorderPlug(p: Path, t: Shape)
    ensures Inorder(Plug(p, t)) == Before(p) + Inorder(t) + After(p)
  {
    if p.Step? {
      var joined := Join(p.onLeft, t, p.node, p.red, p.other);
      InorderPlug(p.above, joined);
      if p.onLeft {
        assert Inorder(joined) == Inorder(t) + ([p.node] + Inorder(p.other));
      } else {
      }
    }
  }

  lemma {:induction false} InorderNodes(t: Shape)
    ensures Elements(Inorder(t)) == Nodes(t)
  {
    if t.Fork? {
      InorderNodes(t.left);
      InorderNodes(t.right);
    }
  }

  lemma {:induction false} PlugNodes(p: Path, t: Shape)
    ensures Nodes(Plug(p, t)) == Nodes(t) + PathNodes(p)
    ensures Root(Plug(p, t)) == RootOf(p, Root(t))
  {
    if p.Step? {
      PlugNodes(p.above, Join(p.onLeft, t, p.node, p.red, p.other));
    }
  }

  function Leftmost(t: Shape): (r: Shape)
    requires t.Fork?
    ensures r.Fork? && r.left.Leaf?
  {
    if t.left.Leaf? then t else Leftmost(t.left)
  }

  /** The leftmost node of t, with the path to it. */
  function FirstFocus(p: Path, t: Shape): (r: (Path, Shape))
    requires t.Fork?
    ensures r.1 == Leftmost(t) && Plug(r.0, r.1) == Plug(p, t)
    ensures Before(r.0) == Before(p) && Outer(r.0) == Outer(p)
    decreases t
  {
    if t.left.Leaf? then (p, t) else FirstFocus(Step(p, true, t.node, t.red, t.right), t.left)
  }

  /** The subtree under n, with the path to it. */
  ghost function Locate(p: Path, t: Shape, n: Node): (r: (Path, Shape))
    requires n in Nodes(t)
    ensures Root(r.1) == n && r.1.Fork? && Plug(r.0, r.1) == Plug(p, t) && Outer(r.0) == Outer(p)
    decreases t
  {
    if t.node == n then (p, t)
    else if n in Nodes(t.left) then Locate(Step(p, true, t.node, t.red, t.right), t.left, n)
    else Locate(Step(p, false, t.node, t.red, t.left), t.right, n)
  }

  lemma {:induction false} SameParent(p: Path, q: Path, t: Shape)
    requires t.Fork? && Parent(p) == Parent(q)
    ensures Parent(FirstFocus(p, t).0) == Parent(FirstFocus(q, t).0)
    decreases t
  {
    if t.left.Fork? {
      SameParent(Step(p, true, t.node, t.red, t.right), Step(q, true, t.node, t.red, t.right), t.left);
    }
  }

  /** t without its leftmost node. */
  function DropFirst(t: Shape): Shape
    requires t.Fork?
  {
    if t.left.Leaf? then t.right else Fork(DropFirst(t.left), t.node, t.red, t.right)
  }

  lemma {:induction false} PlugDrop(p: Path, t: Shape)
    requires t.Fork?
    ensures Plug(FirstFocus(p, t).0, Leftmost(t).right) == Plug(p, DropFirst(t))
    decreases t
  {
    if t.left.Fork? {
      PlugDrop(Step(p, true, t.node, t.red, t.right), t.left);
    }
  }

  /** The open place to the right of n: at the left end of its right subtree. */
  ghost function HoleAfter(t: Shape, n: Node): (hole: Path)
    requires n in Nodes(t)
    ensures hole.Step? && Plug(hole, Leaf) == t && Outer(hole) == null
    ensures Before(hole) != [] && Before(hole)[|Before(hole)| - 1] == n
  {
    var (p, u) := Locate(Top(null), t, n);
    var base := Step(p, false, n, u.red, u.left);
    if u.right.Leaf? then base
    else
      var (q, v) := FirstFocus(base, u.right);
      Step(q, true, v.node, v.red, v.right)
  }

  /** The open place before everything. */
  function HoleFirst(t: Shape): (hole: Path)
    ensures Plug(hole, Leaf) == t && Outer(hole) == null && Before(hole) == []
  {
    if t.Leaf? then Top(null)
    else
      var (q, v) := FirstFocus(Top(null), t);
      Step(q, true, v.node, v.red, v.right)
  }

  // ---------- balance ----------

  predicate Red(t: Shape) {
    t.Fork? && t.red
  }

  function Height(t: Shape): nat {
    if t.Leaf? then 0 else Height(t.left) + if t.red then 0 else 1
  }

  /** No red node has a red child, and every way down meets equally many black nodes. */
  predicate Balanced(t: Shape) {
    t.Fork? ==>
      && Balanced(t.left) && Balanced(t.right) && Height(t.left) == Height(t.right)
      && (t.red ==> !Red(t.left) && !Red(t.right))
  }

  predicate RedStep(p: Path) {
    p.Step? && p.red
  }

  /** Around a black subtree of black height h there is nothing to repair. */
  predicate Fits(p: Path, h: nat) {
    p.Step? ==>
      && Balanced(p.other) && Height(p.other) == h
      && (p.red ==> p.above.Step? && !p.above.red && !Red(p.other))
      && Fits(p.above, if p.red then h else h + 1)
  }

  lemma {:induction false} PlugBalanced(p: Path, t: Shape)
    requires Fits(p, Height(t)) && Balanced(t) && (Red(t) ==> p.Step? && !p.red)
    ensures Balanced(Plug(p, t)) && !Red(Plug(p, t))
  {
    if p.Step? {
      PlugBalanced(p.above, Join(p.onLeft, t, p.node, p.red, p.other));
    }
  }

  lemma {:induction false} UnplugBalanced(p: Path, t: Shape)
    requires Balanced(Plug(p, t)) && !Red(Plug(p, t))
    ensures Fits(p, Height(t)) && Balanced(t) && (Red(t) ==> p.Step? && !p.red)
  {
    if p.Step? {
      UnplugBalanced(p.above, Join(p.onLeft, t, p.node, p.red, p.other));
    }
  }

  // ---------- representation in the heap ----------

  ghost predicate Linked(t: Shape, up: Node?)
    reads Nodes(t)`up, Nodes(t)`left, Nodes(t)`right
  {
    t.Fork? ==>
      && t.node !in Nodes(t.left) && t.node !in Nodes(t.right) && Nodes(t.left) !! Nodes(t.right)
      && t.node.up == up && t.node.left == Root(t.left) && t.node.right == Root(t.right)
      && Linked(t.left, t.node) && Linked(t.right, t.node)
  }

  ghost predicate LinkedPath(p: Path, hole: Node?)
    reads PathNodes(p)`up, PathNodes(p)`left, PathNodes(p)`right
  {
    p.Step? ==>
      && p.node !in Nodes(p.other) && p.node !in PathNodes(p.above) && Nodes(p.other) !! PathNodes(p.above)
      && p.node.up == Parent(p.above)
      && (if p.onLeft then p.node.left else p.node.right) == hole
      && (if p.onLeft then p.node.right else p.node.left) == Root(p.other)
      && Linked(p.other, p.node) && LinkedPath(p.above, p.node)
  }

  /** The heap holds t in the place that p leaves open. */
  ghost predicate At(p: Path, t: Shape)
    reads Nodes(t)`up, Nodes(t)`left, Nodes(t)`right
    reads PathNodes(p)`up, PathNodes(p)`left, PathNodes(p)`right
  {
    Nodes(t) !! PathNodes(p) && Linked(t, Parent(p)) && LinkedPath(p, Root(t))
  }

  ghost predicate Painted(t: Shape)
    reads Nodes(t)`red
  {
    t.Fork? ==> t.node.red == t.red && Painted(t.left) && Painted(t.right)
  }

  ghost predicate PaintedPath(p: Path)
    reads PathNodes(p)`red
  {
    p.Step? ==> p.node.red == p.red && Painted(p.other) && PaintedPath(p.above)
  }

  /** One step up or down; the colour written into the joined shape does not matter. */
  lemma MoveUp(p: Path, t: Shape, red: bool)
    requires p.Step?
    ensures At(p, t) <==> At(p.above, Join(p.onLeft, t, p.node, red, p.other))
  {
    var j := Join(p.onLeft, t, p.node, red, p.other);
    assert Nodes(j) == Nodes(t) + {p.node} + Nodes(p.other);
  }

  lemma {:induction false} Zip(p: Path, t: Shape)
    ensures At(p, t) <==> Linked(Plug(p, t), Outer(p))
  {
    if p.Step? {
      MoveUp(p, t, p.red);
      Zip(p.above, Join(p.onLeft, t, p.node, p.red, p.other));
    }
  }

  lemma {:induction false} ZipPainted(p: Path, t: Shape)
    ensures Painted(t) && PaintedPath(p) <==> Painted(Plug(p, t))
  {
    if p.Step? {
      ZipPainted(p.above, Join(p.onLeft, t, p.node, p.red, p.other));
    }
  }

  predicate Distinct(s: seq<Node>) {
    forall i, j :: 0 <= i < j < |s| ==> s[i] != s[j]
  }

  lemma {:induction false} InorderDistinct(t: Shape, up: Node?)
    requires Linked(t, up)
    ensures Distinct(Inorder(t))
  {
    if t.Fork? {
      InorderDistinct(t.left, t.node);
      InorderDistinct(t.right, t.node);
      InorderNodes(t.left);
      InorderNodes(t.right);
      DistinctParts(Inorder(t.left), t.node, Inorder(t.right));
    }
  }

  lemma DistinctParts(a: seq<Node>, n: Node, b: seq<Node>)
    requires Distinct(a) && Distinct(b) && n !in Elements(a) && n !in Elements(b) && Elements(a) !! Elements(b)
    ensures Distinct(a + [n] + b)
  {
    var s := a + [n] + b;
    forall i, j | 0 <= i < j < |s|
      ensures s[i] != s[j]
    {
      assert i < |a| ==> s[i] == a[i] && a[i] in Elements(a);
      assert j > |a| ==> s[j] == b[j - |a| - 1] && b[j - |a| - 1] in Elements(b);
    }
  }

  lemma {:induction false} DropNodes(t: Shape, up: Node?)
    requires t.Fork? && Linked(t, up) && Painted(t)
    ensures Nodes(DropFirst(t)) == Nodes(t) - {Leftmost(t).node} && Leftmost(t).node in Nodes(t)
    ensures Painted(DropFirst(t)) && Leftmost(t).node.red == Leftmost(t).red
  {
    if t.left.Fork? {
      DropNodes(t.left, t.node);
    }
  }

  // ---------- the neighbour list ----------

  /** Each node points to its neighbours in s. */
  ghost predicate Listed(s: seq<Node>)
    reads Elements(s)`prev, Elements(s)`next
  {
    && (forall i {:trigger s[i].prev} :: 0 <= i < |s| ==> s[i].prev == if i == 0 then null else s[i - 1])
    && (forall i {:trigger s[i].next} :: 0 <= i < |s| ==> s[i].next == if i + 1 == |s| then null else s[i + 1])
  }

  /** s with n at position k. */
  function Inserted(s: seq<Node>, k: nat, n: Node): (r: seq<Node>)
    requires k <= |s|
    ensures |r| == |s| + 1
    ensures forall j :: 0 <= j < |r| ==> r[j] == if j < k then s[j] else if j == k then n else s[j - 1]
  {
    s[..k] + [n] + s[k..]
  }

  /** s without the node at position k. */
  function Removed(s: seq<Node>, k: nat): (r: seq<Node>)
    requires k < |s|
    ensures |r| == |s| - 1 && forall j :: 0 <= j < |r| ==> r[j] == if j < k then s[j] else s[j + 1]
  {
    s[..k] + s[k + 1..]
  }

  // ---------- every node of an allocated shape is allocated ----------

  lemma {:induction false} AllocatedNodes(t: Shape)
    ensures forall n :: n in Nodes(t) ==> allocated(n)
  {
    if t.Fork? {
      AllocatedNodes(t.left);
      AllocatedNodes(t.right);
    }
  }

  lemma {:induction false} AllocatedPath(p: Path)
    ensures forall n :: n in PathNodes(p) ==> allocated(n)
  {
    if p.Step? {
      AllocatedNodes(p.other);
      AllocatedPath(p.above);
    }
  }
}
