/** The steps that repair a red-black tree after an insertion or a removal, on values. */
module RedBlackRepair {
  import opened RedBlackShape

  /** The child on the given side takes the place of the root. */
  function Rotated(onLeft: bool, t: Shape): Shape
    requires t.Fork? && Child(t, onLeft).Fork?
  {
    var q := Child(t, onLeft);
    Join(onLeft, Child(q, onLeft), q.node, q.red, Join(onLeft, Child(q, !onLeft), t.node, t.red, Child(t, !onLeft)))
  }

  // ---------- the two repairs after an insertion, on values ----------

  /** A black part in focus that leaves nothing to repair. */
  ghost predicate Settled(p: Path, t: Shape) {
    Balanced(t) && !Red(t) && Fits(p, Height(t))
  }

  function Coloured(t: Shape, red: bool): Shape {
    if t.Leaf? then t else Fork(t.left, t.node, red, t.right)
  }

  lemma ColouredSame(t: Shape, red: bool)
    ensures Inorder(Coloured(t, red)) == Inorder(t) && Nodes(Coloured(t, red)) == Nodes(t)
  {
  }

  /** A red subtree in focus whose only flaw may be a red parent. */
  ghost predicate RedFocus(p: Path, t: Shape) {
    Red(t) && Balanced(t) && Fits(p, Height(t))
  }

  /** Both parts hold the same nodes in the same order. */
  ghost predicate Same(p: Path, t: Shape, q: Path, u: Shape) {
    Inorder(Plug(p, t)) == Inorder(Plug(q, u)) && Nodes(t) + PathNodes(p) == Nodes(u) + PathNodes(q)
  }

  function Depth(p: Path): nat {
    if p.Top? then 0 else Depth(p.above) + 1
  }

  lemma RotatedInorder(onLeft: bool, t: Shape)
    requires t.Fork? && Child(t, onLeft).Fork?
    ensures Inorder(Rotated(onLeft, t)) == Inorder(t) && Nodes(Rotated(onLeft, t)) == Nodes(t)
  {
  }

  /** Equal order and nodes in one place of a path make equal order and nodes of the whole. */
  lemma SamePlug(p: Path, t: Shape, u: Shape)
    requires Inorder(t) == Inorder(u) && Nodes(t) == Nodes(u)
    ensures Same(p, t, p, u)
  {
    InorderPlug(p, t);
    InorderPlug(p, u);
  }

  lemma SameUp(p: Path, t: Shape, red: bool)
    requires p.Step?
    ensures Same(p, t, p.above, Join(p.onLeft, t, p.node, red, p.other))
  {
    var j, k := Join(p.onLeft, t, p.node, p.red, p.other), Join(p.onLeft, t, p.node, red, p.other);
    SamePlug(p.above, j, k);
    assert Nodes(k) == Nodes(t) + {p.node} + Nodes(p.other);
  }

  lemma JoinBalanced(onLeft: bool, t: Shape, node: Node, red: bool, other: Shape)
    requires Balanced(t) && Balanced(other) && Height(t) == Height(other)
    requires red ==> !Red(t) && !Red(other)
    ensures var j := Join(onLeft, t, node, red, other);
            Balanced(j) && j.Fork? && Red(j) == red && Height(j) == Height(t) + if red then 0 else 1
  {
  }

  lemma BlackBalanced(t: Shape)
    requires Balanced(t) && Red(t)
    ensures Balanced(Coloured(t, false)) && Height(Coloured(t, false)) == Height(t) + 1 && !Red(Coloured(t, false))
    ensures Inorder(Coloured(t, false)) == Inorder(t) && Nodes(Coloured(t, false)) == Nodes(t)
  {
  }

  /** Red uncle: parent and uncle turn black, the grandparent red. */
  function Recoloured(p: Path, t: Shape): Shape
    requires p.Step? && p.above.Step?
  {
    Join(p.above.onLeft, Join(p.onLeft, t, p.node, false, p.other), p.above.node, true, Coloured(p.above.other, false))
  }

  lemma RecolouredFits(p: Path, t: Shape)
    requires RedFocus(p, t) && RedStep(p) && Red(p.above.other)
    ensures Depth(p.above.above) < Depth(p)
    ensures RedFocus(p.above.above, Recoloured(p, t)) && Same(p, t, p.above.above, Recoloured(p, t))
  {
    var j := Join(p.onLeft, t, p.node, false, p.other);
    assert Fits(p.above, Height(t)) && Fits(p.above.above, Height(t) + 1);
    JoinBalanced(p.onLeft, t, p.node, false, p.other);
    BlackBalanced(p.above.other);
    JoinBalanced(p.above.onLeft, j, p.above.node, true, Coloured(p.above.other, false));
    SameUp(p, t, false);
    SameUp(p.above, j, true);
    SamePlug(p.above.above, Join(p.above.onLeft, j, p.above.node, true, p.above.other), Recoloured(p, t));
  }

  /** Black uncle on the other side: parent and node change places first. */
  function InnerPath(p: Path, t: Shape): Path
    requires p.Step? && t.Fork?
  {
    Step(p.above, !p.onLeft, t.node, t.red, Child(t, p.onLeft))
  }

  function InnerShape(p: Path, t: Shape): Shape
    requires p.Step? && t.Fork?
  {
    Join(p.onLeft, Child(t, !p.onLeft), p.node, p.red, p.other)
  }

  lemma InnerFits(p: Path, t: Shape)
    requires RedFocus(p, t) && RedStep(p)
    ensures Depth(InnerPath(p, t)) == Depth(p)
    ensures RedFocus(InnerPath(p, t), InnerShape(p, t)) && Same(p, t, InnerPath(p, t), InnerShape(p, t))
  {
    JoinBalanced(p.onLeft, Child(t, !p.onLeft), p.node, p.red, p.other);
    var j := Join(p.onLeft, t, p.node, p.red, p.other);
    RotatedInorder(p.onLeft, j);
    SamePlug(p.above, j, Rotated(p.onLeft, j));
    SameUp(p, t, p.red);
    SameUp(InnerPath(p, t), InnerShape(p, t), t.red);
  }

  /** Black uncle: the parent takes the grandparent's place and colour. */
  function OuterPath(p: Path): Path
    requires p.Step? && p.above.Step?
  {
    var g := p.above;
    Step(g.above, g.onLeft, p.node, false, Join(g.onLeft, p.other, g.node, true, g.other))
  }

  /** The grandparent's subtree, recoloured, before it is rotated. */
  function OuterShape(p: Path, t: Shape): Shape
    requires p.Step? && p.above.Step?
  {
    Join(p.above.onLeft, Join(p.onLeft, t, p.node, false, p.other), p.above.node, true, p.above.other)
  }

  lemma OuterFits(p: Path, t: Shape)
    requires RedFocus(p, t) && RedStep(p) && p.above.onLeft == p.onLeft && !Red(p.above.other)
    ensures Depth(OuterPath(p)) < Depth(p)
    ensures RedFocus(OuterPath(p), t) && Same(p, t, OuterPath(p), t)
  {
    var g := p.above;
    assert Fits(g, Height(t));
    JoinBalanced(g.onLeft, p.other, g.node, true, g.other);
    var j := Join(p.onLeft, t, p.node, false, p.other);
    var k := Join(g.onLeft, j, g.node, true, g.other);
    SameUp(p, t, false);
    SameUp(g, j, true);
    RotatedInorder(g.onLeft, k);
    SamePlug(g.above, k, Rotated(g.onLeft, k));
    SameUp(OuterPath(p), t, false);
  }

  // ---------- the repairs after a removal, on values ----------

  /** The part in focus is one black node short; a red root may have a red child, for it turns black next. */
  ghost predicate Short(p: Path, t: Shape) {
    Balanced(Coloured(t, false)) && Fits(p, Height(t) + 1)
  }

  /** Red sibling: it takes the parent's place, the parent turns red. */
  function LoweredPath(p: Path): Path
    requires p.Step? && p.other.Fork?
  {
    var s := p.onLeft;
    Step(Step(p.above, s, p.other.node, false, Child(p.other, !s)), s, p.node, true, Child(p.other, s))
  }

  function LoweredShape(p: Path, t: Shape): Shape
    requires p.Step?
  {
    Join(p.onLeft, t, p.node, true, Coloured(p.other, false))
  }

  lemma LoweredFits(p: Path, t: Shape)
    requires Short(p, t) && !Red(t) && p.Step? && Red(p.other)
    ensures var q := LoweredPath(p);
            Short(q, t) && Same(p, t, q, t) && q.other.Fork? && !Red(q.other) && Depth(q) == Depth(p) + 1
  {
    var q, s, j := LoweredPath(p), p.onLeft, LoweredShape(p, t);
    assert Fits(p.above, Height(t) + 2);
    SameUp(p, t, true);
    var k := Join(s, t, p.node, true, p.other);
    SamePlug(p.above, k, j);
    RotatedInorder(!s, j);
    SamePlug(p.above, j, Rotated(!s, j));
    SameUp(q, t, true);
    SameUp(q.above, Join(s, t, p.node, true, q.other), false);
  }

  /** Only the near nephew is red: it takes the sibling's place. */
  function NearPath(p: Path): Path
    requires p.Step? && p.other.Fork? && Child(p.other, p.onLeft).Fork?
  {
    p.(other := Rotated(p.onLeft, NearShape(p)))
  }

  /** The path to the sibling of the part in focus. */
  function SiblingPath(p: Path, t: Shape): Path
    requires p.Step?
  {
    Step(p.above, !p.onLeft, p.node, p.red, t)
  }

  function NearShape(p: Path): Shape
    requires p.Step? && p.other.Fork?
  {
    var s := p.onLeft;
    Join(s, Coloured(Child(p.other, s), false), p.other.node, true, Child(p.other, !s))
  }

  lemma NearFits(p: Path, t: Shape)
    requires Short(p, t) && p.Step? && !Red(p.other) && p.other.Fork?
    requires Red(Child(p.other, p.onLeft)) && !Red(Child(p.other, !p.onLeft))
    ensures var q := NearPath(p);
            Short(q, t) && Same(p, t, q, t) && !Red(q.other) && q.other.Fork? && Red(Child(q.other, !p.onLeft))
  {
    var s, sib := p.onLeft, p.other;
    var near := Child(sib, s);
    NearSame(p, t);
    assert Balanced(near) && Balanced(Child(sib, !s)) && Balanced(Child(near, s)) && Balanced(Child(near, !s));
    assert !Red(Child(near, s)) && !Red(Child(near, !s)) && Height(near) == Height(Child(sib, !s)) == Height(t);
    JoinBalanced(s, Child(near, !s), sib.node, true, Child(sib, !s));
    JoinBalanced(s, Child(near, s), near.node, false, Join(s, Child(near, !s), sib.node, true, Child(sib, !s)));
  }

  lemma NearSame(p: Path, t: Shape)
    requires p.Step? && p.other.Fork? && Child(p.other, p.onLeft).Fork?
    ensures Same(p, t, NearPath(p), t)
  {
    var s, q := p.onLeft, NearPath(p);
    RotatedInorder(s, NearShape(p));
    ColouredSame(Child(p.other, s), false);
    assert p.other == Join(s, Child(p.other, s), p.other.node, p.other.red, Child(p.other, !s));
    assert Nodes(NearShape(p)) == Nodes(p.other);
    SameUp(p, t, p.red);
    SameUp(q, t, p.red);
    SamePlug(p.above, Join(s, t, p.node, p.red, p.other), Join(s, t, p.node, p.red, q.other));
  }

  /** The far nephew is red: the sibling takes the parent's place and colour. */
  function FarShape(p: Path, t: Shape): Shape
    requires p.Step? && p.other.Fork?
  {
    var s := p.onLeft;
    Join(s, t, p.node, false, Join(s, Child(p.other, s), p.other.node, p.red, Coloured(Child(p.other, !s), false)))
  }

  function FarWhole(p: Path, t: Shape): Shape
    requires p.Step? && p.other.Fork?
  {
    Plug(p.above, Rotated(!p.onLeft, FarShape(p, t)))
  }

  lemma FarFits(p: Path, t: Shape)
    requires Short(p, t) && !Red(t) && p.Step? && p.other.Fork? && !Red(p.other) && Red(Child(p.other, !p.onLeft))
    ensures var w := FarWhole(p, t);
            && Balanced(w) && !Red(w) && Inorder(w) == Inorder(Plug(p, t)) && Nodes(w) == Nodes(t) + PathNodes(p)
  {
    var s, sib := p.onLeft, p.other;
    var near, far := Child(sib, s), Child(sib, !s);
    BlackBalanced(far);
    JoinBalanced(s, t, p.node, false, near);
    JoinBalanced(s, Join(s, t, p.node, false, near), sib.node, p.red, Coloured(far, false));
    var j := FarShape(p, t);
    var r := Rotated(!s, j);
    RotatedInorder(!s, j);
    assert r == Join(s, Join(s, t, p.node, false, near), sib.node, p.red, Coloured(far, false));
    PlugBalanced(p.above, r);
    SameUp(p, t, false);
    SamePlug(p.above, Join(s, t, p.node, false, sib), j);
    SamePlug(p.above, j, r);
    PlugNodes(p.above, r);
  }

  /** No red nephew: the sibling turns red, and the parent's subtree is one black node short. */
  function PaledShape(p: Path, t: Shape): Shape
    requires p.Step?
  {
    Join(p.onLeft, t, p.node, p.red, Coloured(p.other, true))
  }

  lemma PaledFits(p: Path, t: Shape)
    requires Short(p, t) && !Red(t) && p.Step? && p.other.Fork? && !Red(p.other)
    requires !Red(p.other.left) && !Red(p.other.right)
    ensures Short(p.above, PaledShape(p, t)) && Same(p, t, p.above, PaledShape(p, t)) && Depth(p.above) < Depth(p)
  {
    var paled := Coloured(p.other, true);
    JoinBalanced(p.onLeft, t, p.node, false, paled);
    SameUp(p, t, p.red);
    SamePlug(p.above, Join(p.onLeft, t, p.node, p.red, p.other), PaledShape(p, t));
  }

  // ---------- taking a node out, on values ----------

  /** What remains in focus when the node under u leaves its place at p, the path there,
      and whether the colour that went missing is red. */
  datatype Cut = Cut(path: Path, rest: Shape, red: bool)

  function CutAt(p: Path, u: Shape): Cut
    requires u.Fork?
  {
    if u.left.Leaf? then Cut(p, u.right, u.red)
    else if u.right.Leaf? then Cut(p, u.left, u.red)
    else
      var f := Leftmost(u.right);
      Cut(FirstFocus(Step(p, false, f.node, u.red, u.left), u.right).0, f.right, f.red)
  }

  lemma CutFits(p: Path, u: Shape)
    requires u.Fork? && Balanced(Plug(p, u)) && !Red(Plug(p, u))
    ensures var c := CutAt(p, u);
            && Balanced(c.rest) && Fits(c.path, Height(c.rest) + if c.red then 0 else 1) && (c.red ==> !Red(c.rest))
  {
    hide Inorder, Nodes, LinkedPath, Linked;
    UnplugBalanced(p, u);
    if u.left.Fork? && u.right.Fork? {
      var f := Leftmost(u.right);
      var base := Step(p, false, f.node, u.red, u.left);
      PlugBalanced(p, Fork(u.left, f.node, u.red, u.right));
      UnplugBalanced(FirstFocus(base, u.right).0, f);
    }
  }

  /** The order of the others stays. */
  lemma CutOrder(p: Path, u: Shape)
    requires u.Fork?
    ensures var c := CutAt(p, u);
            var k := |Before(p)| + |Inorder(u.left)|;
            && k < |Inorder(Plug(p, u))| && Inorder(Plug(p, u))[k] == u.node
            && Inorder(Plug(c.path, c.rest)) == Removed(Inorder(Plug(p, u)), k)
  {
    hide Inorder, Plug, Before, After, CutAt;
    InorderPlug(p, u);
    InorderFork(u);
    CutOthers(p, u);
  }

  lemma InorderFork(u: Shape)
    requires u.Fork?
    ensures Inorder(u) == Inorder(u.left) + [u.node] + Inorder(u.right) && Inorder(Leaf) == []
  {
  }

  lemma CutOthers(p: Path, u: Shape)
    requires u.Fork?
    ensures var c := CutAt(p, u);
            Inorder(Plug(c.path, c.rest)) == Before(p) + Inorder(u.left) + (Inorder(u.right) + After(p))
  {
    hide Inorder, Plug, Before, After;
    InorderFork(u);
    if u.left.Fork? && u.right.Fork? {
      CutFirst(p, u);
    } else if u.left.Leaf? {
      InorderPlug(p, u.right);
    } else {
      InorderPlug(p, u.left);
    }
  }

  lemma CutFirst(p: Path, u: Shape)
    requires u.Fork? && u.left.Fork? && u.right.Fork?
    ensures var c := CutAt(p, u);
            Inorder(Plug(c.path, c.rest)) == Before(p) + Inorder(u.left) + (Inorder(u.right) + After(p))
  {
    hide Inorder, Plug, Before, After;
    var c, f := CutAt(p, u), Leftmost(u.right);
    var base := Step(p, false, f.node, u.red, u.left);
    BeforeStep(base);
    InorderPlug(c.path, c.rest);
    InorderPlug(base, u.right);
    InorderPlug(c.path, f);
    InorderFork(f);
    assert [] + [f.node] == [f.node];
    Behead(Before(base), Inorder(u.right), After(p), f.node, Inorder(f.right), After(c.path));
  }

  lemma BeforeStep(p: Path)
    requires p.Step? && !p.onLeft
    ensures Before(p) == Before(p.above) + Inorder(p.other) + [p.node] && After(p) == After(p.above)
  {
  }

  lemma Behead(a: seq<Node>, b: seq<Node>, c: seq<Node>, n: Node, d: seq<Node>, e: seq<Node>)
    requires a + b + c == a + ([n] + d) + e
    ensures b + c == [n] + (d + e) && a + d + e == a + (d + e)
  {
    assert b + c == (a + b + c)[|a|..];
    assert [n] + (d + e) == (a + ([n] + d) + e)[|a|..];
  }

  lemma CutRepair(p: Path, u: Shape)
    requires u.Fork? && Balanced(Plug(p, u)) && !Red(Plug(p, u))
    ensures var c := CutAt(p, u); if c.red then Settled(c.path, c.rest) else Short(c.path, c.rest)
  {
    CutFits(p, u);
  }

  lemma CutContents(p: Path, u: Shape)
    requires u.Fork? && Distinct(Inorder(Plug(p, u)))
    ensures var c := CutAt(p, u);
            var s, k := Inorder(Plug(p, u)), |Before(p)| + |Inorder(u.left)|;
            && k < |s| && s[k] == u.node && Inorder(Plug(c.path, c.rest)) == Removed(s, k)
            && Elements(Removed(s, k)) == Elements(s) - {u.node}
            && Nodes(c.rest) + PathNodes(c.path) == Elements(s) - {u.node}
  {
    hide Inorder, Nodes, PathNodes, Plug, Before, CutAt, Distinct, Elements;
    var c := CutAt(p, u);
    CutOrder(p, u);
    InorderNodes(Plug(c.path, c.rest));
    PlugNodes(c.path, c.rest);
    RemovedElements(Inorder(Plug(p, u)), |Before(p)| + |Inorder(u.left)|);
  }

  lemma RemovedElements(s: seq<Node>, k: nat)
    requires Distinct(s) && k < |s|
    ensures Elements(Removed(s, k)) == Elements(s) - {s[k]}
  {
    var r := Removed(s, k);
    forall n | n in Elements(s) - {s[k]}
      ensures n in Elements(r)
    {
      var j :| 0 <= j < |s| && s[j] == n;
      assert r[if j < k then j else j - 1] == n;
    }
  }
}
