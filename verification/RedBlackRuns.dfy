/** Whole runs of insertions and removals, and how deep the tree can get. */
module RedBlackRuns {
  import opened RedBlackShape
  import opened RedBlackTree
  import BitStream

  datatype Operation = InsertBehind(after: Node?, node: Node) | Take(node: Node)

  /** What the callers keep to: new nodes are new, the others are in the tree. */
  predicate Legal(s: seq<Node>, op: Operation) {
    match op
    case InsertBehind(after, node) => node !in s && (after == null || after in s)
    case Take(node) => node in s
  }

  function Behind(s: seq<Node>, after: Node, node: Node): seq<Node> {
    if s == [] then [node]
    else if s[0] == after then [after, node] + s[1..]
    else [s[0]] + Behind(s[1..], after, node)
  }

  function Without(s: seq<Node>, node: Node): seq<Node> {
    if s == [] then []
    else if s[0] == node then s[1..]
    else [s[0]] + Without(s[1..], node)
  }

  function Effect(s: seq<Node>, op: Operation): seq<Node> {
    match op
    case InsertBehind(after, node) => if after == null then [node] + s else Behind(s, after, node)
    case Take(node) => Without(s, node)
  }

  predicate LegalRun(s: seq<Node>, ops: seq<Operation>)
    decreases |ops|
  {
    ops != [] ==> Legal(s, ops[0]) && LegalRun(Effect(s, ops[0]), ops[1..])
  }

  function RunEffect(s: seq<Node>, ops: seq<Operation>): seq<Node>
    decreases |ops|
  {
    if ops == [] then s else RunEffect(Effect(s, ops[0]), ops[1..])
  }

  lemma {:induction false} BehindAt(s: seq<Node>, i: nat, node: Node)
    requires Distinct(s) && i < |s|
    ensures Behind(s, s[i], node) == s[..i + 1] + [node] + s[i + 1..]
  {
    if i > 0 {
      BehindAt(s[1..], i - 1, node);
      assert s[..i + 1] == [s[0]] + s[1..][..i];
    }
  }

  lemma {:induction false} WithoutAt(s: seq<Node>, i: nat)
    requires Distinct(s) && i < |s|
    ensures Without(s, s[i]) == s[..i] + s[i + 1..]
  {
    if i > 0 {
      WithoutAt(s[1..], i - 1);
      assert s[..i] == [s[0]] + s[1..][..i - 1];
    }
  }

  /** Removing the node just inserted gives the old order back. */
  lemma {:induction false} TakeUndoesInsert(s: seq<Node>, after: Node?, node: Node)
    requires Legal(s, InsertBehind(after, node))
    ensures Effect(Effect(s, InsertBehind(after, node)), Take(node)) == s
    decreases |s|
  {
    if after != null && s != [] {
      if s[0] == after {
        assert ([after, node] + s[1..])[1..] == [node] + s[1..];
        assert Without([node] + s[1..], node) == s[1..];
      } else {
        TakeUndoesInsert(s[1..], after, node);
        assert ([s[0]] + Behind(s[1..], after, node))[1..] == Behind(s[1..], after, node);
      }
    }
  }

  function NewNodes(ops: seq<Operation>): set<Node> {
    set i | 0 <= i < |ops| && ops[i].InsertBehind? :: ops[i].node
  }

  /** Carries out a run. */
  method Run(tree: Tree, ops: seq<Operation>)
    requires tree.Valid() && LegalRun(Inorder(tree.shape), ops)
    modifies tree, Nodes(tree.shape), NewNodes(ops)
    ensures tree.Valid() && Inorder(tree.shape) == RunEffect(old(Inorder(tree.shape)), ops)
  {
    hide Inorder, Nodes, Effect;
    ghost var start := Inorder(tree.shape);
    for i := 0 to |ops|
      invariant tree.Valid() && LegalRun(Inorder(tree.shape), ops[i..])
      invariant RunEffect(Inorder(tree.shape), ops[i..]) == RunEffect(start, ops)
      invariant Nodes(tree.shape) <= old(Nodes(tree.shape)) + NewNodes(ops)
    {
      assert ops[i..][0] == ops[i] && ops[i..][1..] == ops[i + 1..];
      Carry(tree, ops[i]);
    }
  }

  method Carry(tree: Tree, op: Operation)
    requires tree.Valid() && Legal(Inorder(tree.shape), op)
    modifies tree, Nodes(tree.shape), if op.InsertBehind? then {op.node} else {}
    ensures tree.Valid() && Inorder(tree.shape) == Effect(old(Inorder(tree.shape)), op)
    ensures Nodes(tree.shape) <= old(Nodes(tree.shape)) + if op.InsertBehind? then {op.node} else {}
  {
    hide Inorder, Nodes, Behind, Without, Distinct;
    ghost var s := Inorder(tree.shape);
    InorderNodes(tree.shape);
    InorderDistinct(tree.shape, null);
    match op {
      case InsertBehind(after, node) =>
        tree.Insert(after, node);
        if after != null {
          ghost var i :| 0 <= i < |s| && s[i] == after && Inorder(tree.shape) == s[..i + 1] + [node] + s[i + 1..];
          BehindAt(s, i, node);
        }
      case Take(node) =>
        tree.Remove(node);
        ghost var i :| 0 <= i < |s| && s[i] == node && Inorder(tree.shape) == s[..i] + s[i + 1..];
        WithoutAt(s, i);
    }
  }

  // ---------- depth ----------

  function Levels(t: Shape): nat {
    if t.Leaf? then 0
    else 1 + if Levels(t.left) > Levels(t.right) then Levels(t.left) else Levels(t.right)
  }

  lemma {:induction false} LevelsBound(t: Shape)
    requires Balanced(t)
    ensures Levels(t) <= 2 * Height(t) + if Red(t) then 1 else 0
  {
    if t.Fork? {
      LevelsBound(t.left);
      LevelsBound(t.right);
    }
  }

  lemma {:induction false} SizeBound(t: Shape)
    requires Balanced(t)
    ensures |Inorder(t)| + 1 >= BitStream.Pow2(Height(t))
  {
    if t.Fork? {
      SizeBound(t.left);
      SizeBound(t.right);
    }
  }

  lemma {:induction false} Pow2Grows(a: nat, b: nat)
    requires a <= b
    ensures BitStream.Pow2(a) <= BitStream.Pow2(b)
  {
    if a < b {
      Pow2Grows(a, b - 1);
    }
  }

  /** A tree of n nodes has at most 2 log2(n + 1) levels. */
  lemma DepthIsLogarithmic(t: Shape)
    requires Balanced(t) && !Red(t)
    ensures BitStream.Pow2((Levels(t) + 1) / 2) <= |Inorder(t)| + 1
  {
    LevelsBound(t);
    SizeBound(t);
    Pow2Grows((Levels(t) + 1) / 2, Height(t));
  }
}
