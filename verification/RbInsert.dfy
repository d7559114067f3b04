/**
 Trees with a cached leftmost node: rb_add_augmented_cached (the search for a place, the link,
 the maxima, the cached node, the rebalancing), rb_next and rb_erase_augmented_cached.
 */
module RbInsert {
  import opened RbShape
  import opened RbLinks
  import opened RbBalance
  import RbErase
  import RbFix

  class RbRootCached {
    const root: RbRoot
    var leftmost: RbNode?

    constructor (r: RbRoot)
      ensures root == r && leftmost == null
    {
      root := r;
      leftmost := null;
    }
  }

  function First(s: seq<RbNode>): RbNode? {
    if s == [] then null else s[0]
  }

  predicate Sorted(s: seq<RbNode>) {
    forall i, j | 0 <= i < j < |s| :: s[i].key <= s[j].key
  }

  /** The hole is the last place for key k: what is before is not greater, what is after is. */
  predicate Splits(c: Ctx, k: int) {
    (forall n | n in Before(c) :: n.key <= k) && (forall n | n in After(c) :: k < n.key)
  }

  lemma {:induction false} SortedParts(a: seq<RbNode>, n: RbNode, b: seq<RbNode>)
    requires Sorted(a + [n] + b)
    ensures (forall m | m in a :: m.key <= n.key) && (forall m | m in b :: n.key <= m.key)
  {
    var s := a + [n] + b;
    forall m | m in a ensures m.key <= n.key {
      var i :| 0 <= i < |a| && a[i] == m;
      assert s[i] == m && s[|a|] == n;
    }
    forall m | m in b ensures n.key <= m.key {
      var i :| 0 <= i < |b| && b[i] == m;
      assert s[|a| + 1 + i] == m && s[|a|] == n;
    }
  }

  lemma {:induction false} Descend(c: Ctx, t: Shape, k: int)
    requires t.Branch? && Sorted(Inorder(Plug(c, t))) && Splits(c, k)
    ensures k < t.node.key ==> Splits(Left(c, t.node, t.black, t.right), k)
    ensures t.node.key <= k ==> Splits(Right(t.left, t.node, t.black, c), k)
  {
    hide Plug, Sorted, Before, After, Inorder;
    PlugInorder(c, t);
    BranchInorder(t.left, t.node, t.black, t.right);
    var a, b := Before(c) + Inorder(t.left), Inorder(t.right) + After(c);
    assert Before(c) + (Inorder(t.left) + [t.node] + Inorder(t.right)) + After(c) == a + [t.node] + b;
    SortedParts(a, t.node, b);
    RightInorder(t.left, t.node, t.black, c);
    LeftInorder(c, t.node, t.black, t.right);
  }

  lemma {:induction false} LeftInorder(c: Ctx, n: RbNode, b: bool, r: Shape)
    ensures Before(Left(c, n, b, r)) == Before(c) && After(Left(c, n, b, r)) == [n] + Inorder(r) + After(c)
  {
  }

  /** Linking a node at such a place keeps the order. */
  lemma {:induction false} LinkSorted(c: Ctx, node: RbNode)
    requires Sorted(Inorder(Plug(c, Leaf))) && Splits(c, node.key)
    ensures Inorder(Plug(c, Branch(Leaf, node, false, Leaf))) == Before(c) + [node] + After(c)
    ensures Inorder(Plug(c, Leaf)) == Before(c) + After(c)
    ensures Sorted(Inorder(Plug(c, Branch(Leaf, node, false, Leaf))))
  {
    hide Plug;
    PlugInorder(c, Leaf);
    PlugInorder(c, Branch(Leaf, node, false, Leaf));
    assert Before(c) + Inorder(Leaf) + After(c) == Before(c) + After(c);
    assert Inorder(Branch(Leaf, node, false, Leaf)) == [node];
    Inserted(Before(c), node, After(c));
  }

  lemma {:induction false} Inserted(a: seq<RbNode>, n: RbNode, b: seq<RbNode>)
    requires Sorted(a + b) && (forall m | m in a :: m.key <= n.key) && (forall m | m in b :: n.key < m.key)
    ensures Sorted(a + [n] + b)
  {
    var s, t := a + b, a + [n] + b;
    forall i, j | 0 <= i < j < |t| ensures t[i].key <= t[j].key {
      assert i < |a| ==> t[i] == s[i] && t[i] in a;
      assert i > |a| ==> t[i] == s[i - 1];
      assert j < |a| ==> t[j] == s[j];
      assert j > |a| ==> t[j] == s[j - 1] && t[j] in b;
    }
  }

  /** The new red node breaks the colour rules exactly when there is no black node above it. */
  lemma {:induction false} LinkRb(c: Ctx, node: RbNode)
    requires RbTree(Plug(c, Leaf))
    ensures CtxRb(c, 0)
    ensures RbTree(Plug(c, Branch(Leaf, node, false, Leaf))) <==> !HoleRed(c)
  {
    var h :| Rb(Plug(c, Leaf), h, true);
    PlugRb(c, Leaf, h - Blacks(c));
    var t := Branch(Leaf, node, false, Leaf);
    PlugRb(c, t, 0);
    if RbTree(Plug(c, t)) {
      var h' :| Rb(Plug(c, t), h', true);
      PlugRb(c, t, h' - Blacks(c));
    }
  }

  /** The search loop of rb_add_augmented_cached. */
  method FindPlace(node: RbNode, root: RbRoot, ghost t: Shape)
    returns (parent: RbNode?, left: bool, leftmost: bool, ghost c: Ctx)
    requires Tree(root, t) && Sorted(Inorder(t))
    ensures t == Plug(c, Leaf) && parent == HoleParent(c, null) && (parent != null ==> left == c.Left?)
    ensures Splits(c, node.key) && (leftmost <==> Before(c) == [])
  {
    hide Inorder, Plug, Sorted;
    var cur := root.node;
    parent, left, leftmost, c := null, false, true, Hole;
    ghost var sub := t;
    PlugHole(t);
    while cur != null
      invariant t == Plug(c, sub) && cur == Top(sub) && Linked(sub, parent)
      invariant parent == HoleParent(c, null) && (parent != null ==> left == c.Left?)
      invariant Splits(c, node.key) && (leftmost <==> Before(c) == [])
      decreases sub
    {
      parent := cur;
      Descend(c, sub, node.key);
      PlugStep(c, sub);
      if node.key < parent.key {
        cur, left := parent.left, true;
        c, sub := Left(c, sub.node, sub.black, sub.right), sub.left;
      } else {
        cur, left, leftmost := parent.right, false, false;
        c, sub := Right(sub.left, sub.node, sub.black, c), sub.right;
      }
    }
  }

  lemma {:induction false} PlugHole(t: Shape)
    ensures Plug(Hole, t) == t
  {
  }

  lemma {:induction false} PlugStep(c: Ctx, t: Shape)
    requires t.Branch?
    ensures Plug(Left(c, t.node, t.black, t.right), t.left) == Plug(c, t)
    ensures Plug(Right(t.left, t.node, t.black, c), t.right) == Plug(c, t)
  {
  }

  lemma {:induction false} LeafLinked(node: RbNode, q: RbNode?)
    ensures Linked(Branch(Leaf, node, false, Leaf), q) <==>
              && node.parent == q && !node.black && node.left == null
              && node.right == null
  {
  }

  /** rb_link_node. */
  method LinkNode(node: RbNode, parent: RbNode?, left: bool, root: RbRoot, ghost c: Ctx)
    requires CtxLinked(c, null, null) && CtxDistinct(c) && node !in CtxNodes(c) && root.node == Outer(c, null)
    requires parent == HoleParent(c, null) && (parent != null ==> left == c.Left?)
    modifies root`node, CtxNodes(c)`left, CtxNodes(c)`right, node`left, node`right, node`parent, node`black
    ensures CtxLinked(c, node, null) && root.node == Outer(c, node)
    ensures Linked(Branch(Leaf, node, false, Leaf), parent)
  {
    hide Linked, Distinct, Nodes;
    node.parent, node.black := parent, false;
    node.left, node.right := null, null;
    assert CtxLinked(c, null, null);
    if parent == null {
      root.node := node;
    } else if left {
      parent.left := node;
    } else {
      parent.right := node;
    }
    LeafLinked(node, parent);
  }

  lemma {:induction false} InorderNodes(t: Shape)
    ensures forall n :: n in Inorder(t) <==> n in Nodes(t)
  {
    if t.Branch? {
      InorderNodes(t.left);
      InorderNodes(t.right);
    }
  }

  lemma {:induction false} FirstAfterLink(c: Ctx, node: RbNode)
    requires Splits(c, node.key) && Sorted(Inorder(Plug(c, Leaf))) && node !in Nodes(Plug(c, Leaf))
    ensures Inorder(Plug(c, Leaf)) == Before(c) + After(c)
    ensures var s := Inorder(Plug(c, Branch(Leaf, node, false, Leaf)));
            && s == Before(c) + [node] + After(c) && Sorted(s)
            && s[0] == (if Before(c) == [] then node else Inorder(Plug(c, Leaf))[0])
            && (s[0] == node <==> Before(c) == [])
    ensures Plug(c, Leaf).Leaf? <==> Before(c) + After(c) == []
  {
    LinkSorted(c, node);
    InorderNodes(Plug(c, Leaf));
    hide Plug;
    assert forall n | n in Before(c) :: n in Before(c) + After(c);
  }

  /** What linking needs, and what it leaves of the maxima. */
  lemma {:induction false} PlaceParts(root: RbRoot, c: Ctx)
    requires Tree(root, Plug(c, Leaf)) && AugOk(Plug(c, Leaf))
    ensures CtxLinked(c, null, null) && CtxDistinct(c) && root.node == Outer(c, null) && Stale(c)
    ensures CtxNodes(c) == Nodes(Plug(c, Leaf))
  {
    PlugLinked(c, Leaf, null);
    PlugDistinct(c, Leaf);
    PlugNodes(c, Leaf);
    PlugAug(c, Leaf);
    PlugTop(c, Leaf);
    StaleAug(c, None);
  }

  lemma {:induction false} SingleOk(node: RbNode)
    requires node.aug == node.val
    ensures AugOk(Branch(Leaf, node, false, Leaf)) && Distinct(Branch(Leaf, node, false, Leaf))
    ensures Nodes(Branch(Leaf, node, false, Leaf)) == {node}
  {
  }

  /** rb_add_augmented_cached before its rebalancing. */
  lemma {:induction false} SplitsMeans(c: Ctx, k: int)
    requires Splits(c, k)
    ensures (forall x | x in Before(c) :: x.key <= k) && (forall x | x in After(c) :: k < x.key)
  {
  }

  method Add(node: RbNode, tree: RbRootCached, ghost t: Shape) returns (first: RbNode?, ghost c: Ctx)
    requires Sound(tree.root, t) && Sorted(Inorder(t)) && node !in Nodes(t) && node.aug == node.val
    requires tree.leftmost == First(Inorder(t))
    modifies tree`leftmost, tree.root, Nodes(t), node
    ensures t == Plug(c, Leaf)
    ensures var t' := Plug(c, Branch(Leaf, node, false, Leaf));
            && Sound(tree.root, t') && Sorted(Inorder(t'))
            && Inorder(t') == Before(c) + [node] + After(c) && tree.leftmost == First(Inorder(t'))
            && first == (if tree.leftmost == node then node else null)
    ensures (forall x | x in Before(c) :: x.key <= node.key) && (forall x | x in After(c) :: node.key < x.key)
  {
    hide Linked, CtxLinked, Distinct, CtxDistinct, AugOk, Stale, Plug, Inorder, Sorted, Splits, Outer, Nodes, CtxNodes;
    ghost var leaf := Branch(Leaf, node, false, Leaf);
    assert allocated(Nodes(t));
    var parent, left, leftmost;
    parent, left, leftmost, c := FindPlace(node, tree.root, t);
    SplitsMeans(c, node.key);
    PlaceParts(tree.root, c);
    FirstAfterLink(c, node);
    SingleOk(node);
    assert allocated(CtxNodes(c)) && allocated(Nodes(leaf));
    LinkNode(node, parent, left, tree.root, c);
    Settle(parent, tree.root, c, leaf);
    if leftmost { tree.leftmost := node; }
    first := if leftmost then node else null;
  }

  // ----- Erasing -----

  lemma {:induction false} OneOf(t: Shape, n: RbNode)
    ensures n in Inorder(t) <==> n in Nodes(t)
  {
    InorderNodes(t);
  }

  lemma {:induction false} BeforeNodes(c: Ctx)
    ensures forall n | n in Before(c) :: n in CtxNodes(c)
  {
    match c
    case Hole =>
    case Left(up, _, _, _) => BeforeNodes(up);
    case Right(l, m, _, up) =>
      BeforeNodes(up);
      assert CtxNodes(c) == {m} + Nodes(l) + CtxNodes(up);
      forall n | n in Before(c) ensures n in CtxNodes(c) {
        assert n in Before(up) || n in Inorder(l) || n == m;
        OneOf(l, n);
      }
  }

  /** next follows node, or is null when node is the last one. */
  predicate Follows(s: seq<RbNode>, node: RbNode, next: RbNode?) {
    forall i | 0 <= i < |s| && s[i] == node :: next == if i + 1 < |s| then s[i + 1] else null
  }

  /** Which node comes first when node has gone. */
  lemma {:induction false} FirstAfterErase(c: Ctx, l: Shape, node: RbNode, b: bool, r: Shape, next: RbNode?)
    requires node !in CtxNodes(c) && node !in Nodes(l) && Follows(Inorder(Plug(c, Branch(l, node, b, r))), node, next)
    ensures var s, s' := Inorder(Plug(c, Branch(l, node, b, r))), Inorder(Erased(c, l, b, r));
            && 0 < |s| && (if s[0] == node then next else s[0]) == (if s' == [] then null else s'[0])
  {
    hide Inorder, Before, After, Plug, Erased;
    EraseInorder(c, l, node, b, r);
    BeforeNodes(c);
    InorderNodes(l);
    var s, s', pre, post := Inorder(Plug(c, Branch(l, node, b, r))), Inorder(Erased(c, l, b, r)),
      Before(c) + Inorder(l), Inorder(r) + After(c);
    assert s == pre + [node] + post && s' == pre + post;
    assert s[|pre|] == node;
    if pre != [] {
      assert s[0] == pre[0] == s'[0];
      assert pre[0] in Before(c) || pre[0] in Inorder(l);
    } else {
      assert post != [] ==> s[1] == post[0] == s'[0];
    }
  }

  /** A node of the tree stands in one place. */
  lemma {:induction false} FollowsOnce(pre: seq<RbNode>, node: RbNode, post: seq<RbNode>)
    requires node !in pre && node !in post
    ensures Follows(pre + [node] + post, node, First(post))
  {
    var s := pre + [node] + post;
    forall i | 0 <= i < |s| ensures s[i] == node ==> i == |pre| {
      assert i < |pre| ==> s[i] in pre;
      assert i > |pre| ==> s[i] == post[i - |pre| - 1] && s[i] in post;
    }
    assert post != [] ==> s[|pre| + 1] == post[0];
  }

  lemma {:induction false} AfterNodes(c: Ctx)
    ensures forall n | n in After(c) :: n in CtxNodes(c)
  {
    match c
    case Hole =>
    case Right(_, _, _, up) => AfterNodes(up);
    case Left(up, m, _, r) =>
      AfterNodes(up);
      assert CtxNodes(c) == {m} + Nodes(r) + CtxNodes(up);
      forall n | n in After(c) ensures n in CtxNodes(c) {
        assert n == m || n in Inorder(r) || n in After(up);
        OneOf(r, n);
      }
  }

  lemma {:induction false} NextFollows(c: Ctx, l: Shape, node: RbNode, b: bool, r: Shape)
    requires node !in CtxNodes(c) && node !in Nodes(l) && node !in Nodes(r)
    ensures Follows(Inorder(Plug(c, Branch(l, node, b, r))), node, First(Inorder(r) + After(c)))
  {
    hide Inorder, Before, After, Plug, Erased, Follows, Nodes, CtxNodes, First;
    EraseInorder(c, l, node, b, r);
    var pre, post := Before(c) + Inorder(l), Inorder(r) + After(c);
    assert Inorder(Plug(c, Branch(l, node, b, r))) == pre + [node] + post;
    BeforeNodes(c);
    AfterNodes(c);
    InorderNodes(l);
    InorderNodes(r);
    FollowsOnce(pre, node, post);
  }

  /** Going down to the left end of r. */
  method Leftmost(top: RbNode, ghost r: Shape, ghost base: RbNode?) returns (next: RbNode)
    requires r.Branch? && top == r.node && Linked(r, base)
    ensures next == Least(r).node
  {
    next := top;
    ghost var t, p := r, base;
    while next.left != null
      invariant t.Branch? && Linked(t, p) && next == t.node && Least(r) == Least(t)
      decreases t
    {
      next := next.left;
      t, p := t.left, t.node;
    }
  }

  lemma {:induction false} RightChild(c: Ctx, x: Shape, base: RbNode?)
    requires !c.Hole? && x.Branch? && Linked(x, HoleParent(c, base)) && CtxLinked(c, x.node, base)
    requires Distinct(Plug(c, x))
    ensures x.node == c.node.right <==> c.Right?
    ensures CtxLinked(c.up, c.node, base) && Linked(Wrap(c, x), HoleParent(c.up, base))
    ensures Plug(c.up, Wrap(c, x)) == Plug(c, x)
    ensures c.Right? ==> After(c) == After(c.up)
    ensures c.Left? ==> First(After(c)) == c.node
  {
    PlugDistinct(c, x);
    if Side(c).Branch? { assert Side(c).node in CtxNodes(c); }
    assert x.node in Nodes(x);
  }

  /** Going up while the node is a right child. */
  method UpRight(start: RbNode, ghost c0: Ctx, ghost x0: Shape) returns (next: RbNode?)
    requires x0.Branch? && start == x0.node && Linked(x0, HoleParent(c0, null)) && CtxLinked(c0, start, null)
    requires Distinct(Plug(c0, x0))
    ensures next == First(After(c0))
  {
    hide Linked, CtxLinked, Distinct, Plug, After, First;
    var node: RbNode := start;
    ghost var c, x := c0, x0;
    TopLinked(x, HoleParent(c, null));
    NoneAfter();
    next := node.parent;
    if next != null { RightChild(c, x, null); }
    while next != null && node == next.right
      invariant x.Branch? && node == x.node && Linked(x, HoleParent(c, null)) && CtxLinked(c, node, null)
      invariant Distinct(Plug(c, x)) && First(After(c)) == First(After(c0))
      invariant next == HoleParent(c, null)
      invariant (next != null ==> (node == next.right <==> c.Right?) && (c.Left? ==> First(After(c)) == next))
      decreases c
    {
      RightChild(c, x, null);
      node := next;
      c, x := c.up, Wrap(c, x);
      TopLinked(x, HoleParent(c, null));
      next := node.parent;
      if next != null { RightChild(c, x, null); }
    }
  }

  lemma {:induction false} TopLinked(x: Shape, q: RbNode?)
    requires x.Branch? && Linked(x, q)
    ensures x.node.parent == q
  {
  }

  lemma {:induction false} NoneAfter()
    ensures First(After(Hole)) == null
  {
  }

  /** rb_next on a node of a tree. */
  method Next(node: RbNode, ghost root: RbRoot, ghost c: Ctx, ghost l: Shape, ghost b: bool, ghost r: Shape)
    returns (next: RbNode?)
    requires Sound(root, Plug(c, Branch(l, node, b, r)))
    ensures Follows(Inorder(Plug(c, Branch(l, node, b, r))), node, next)
  {
    hide Linked, CtxLinked, AugOk, Plug, Inorder, Nodes, CtxNodes, Follows, Distinct, CtxDistinct, First, Least, After;
    RbErase.Parts(root, c, l, node, b, r);
    NextFollows(c, l, node, b, r);
    FirstRight(r, After(c));
    if node.right != null {
      next := Leftmost(node.right, r, node);
    } else {
      PlugLinked(c, Branch(l, node, b, r), null);
      next := UpRight(node, c, Branch(l, node, b, r));
    }
  }

  lemma {:induction false} FirstRight(r: Shape, after: seq<RbNode>)
    ensures First(Inorder(r) + after) == if r.Branch? then Least(r).node else First(after)
  {
    if r.Branch? {
      LeastFirst(r);
      assert Inorder(r)[0] == Least(r).node;
    } else {
      assert Inorder(r) + after == after;
    }
  }

  /** rb_erase_augmented_cached before its rebalancing. */
  method EraseCached(node: RbNode, tree: RbRootCached, ghost c: Ctx, ghost l: Shape, ghost b: bool, ghost r: Shape)
    returns (rebalance: RbNode?)
    requires var t := Plug(c, Branch(l, node, b, r));
             Sound(tree.root, t) && tree.leftmost == First(Inorder(t))
    modifies tree`leftmost, tree.root, Nodes(Plug(c, Branch(l, node, b, r)))
    ensures Sound(tree.root, Erased(c, l, b, r)) && Nodes(Erased(c, l, b, r)) <= Nodes(Plug(c, Branch(l, node, b, r)))
    ensures Inorder(Erased(c, l, b, r)) == Before(c) + Inorder(l) + Inorder(r) + After(c)
    ensures tree.leftmost == First(Inorder(Erased(c, l, b, r)))
    ensures rebalance == if EraseFill(l, b, r).Leaf?
            && LostBlack(l, b, r) then HoleParent(EraseCtx(c, l, b, r), null) else null
    ensures RbTree(Plug(c, Branch(l, node, b, r))) && rebalance == null ==> RbTree(Erased(c, l, b, r))
    ensures RbTree(Plug(c, Branch(l, node, b, r))) && rebalance != null ==>
              var c' := EraseCtx(c, l, b, r);
              Erased(c, l, b, r) == Plug(c', Leaf) && rebalance == HoleParent(c', null) && CtxRb(c', 1)
  {
    hide Linked, CtxLinked, AugOk, Plug, Inorder, Nodes, CtxNodes, Erased, RbTree, Follows, Distinct, CtxDistinct,
         CtxRb;
    ghost var t := Plug(c, Branch(l, node, b, r));
    FirstGone(c, l, node, b, r);
    RbErase.Parts(tree.root, c, l, node, b, r);
    assert allocated(Nodes(t));
    if tree.leftmost == node {
      var next := Next(node, tree.root, c, l, b, r);
      FirstAfterErase(c, l, node, b, r, next);
      tree.leftmost := next;
    } else {
      FirstStays(c, l, node, b, r);
    }
    assert Sound(tree.root, t);
    rebalance := RbErase.EraseAugmented(node, tree.root, c, l, b, r);
  }

  lemma {:induction false} FirstGone(c: Ctx, l: Shape, node: RbNode, b: bool, r: Shape)
    ensures Nodes(Erased(c, l, b, r)) <= Nodes(Plug(c, Branch(l, node, b, r)))
    ensures Inorder(Plug(c, Branch(l, node, b, r))) != []
  {
    hide Inorder, Before, After, Plug, Erased, Nodes;
    EraseInorder(c, l, node, b, r);
    var s, s' := Inorder(Plug(c, Branch(l, node, b, r))), Inorder(Erased(c, l, b, r));
    forall n | n in Nodes(Erased(c, l, b, r)) ensures n in Nodes(Plug(c, Branch(l, node, b, r))) {
      OneOf(Erased(c, l, b, r), n);
      OneOf(Plug(c, Branch(l, node, b, r)), n);
      assert n in s' ==> n in s;
    }
  }

  lemma {:induction false} FirstStays(c: Ctx, l: Shape, node: RbNode, b: bool, r: Shape)
    requires First(Inorder(Plug(c, Branch(l, node, b, r)))) != node
    ensures First(Inorder(Plug(c, Branch(l, node, b, r)))) == First(Inorder(Erased(c, l, b, r)))
  {
    hide Inorder, Before, After, Plug, Erased;
    EraseInorder(c, l, node, b, r);
    var pre, post := Before(c) + Inorder(l), Inorder(r) + After(c);
    assert Inorder(Plug(c, Branch(l, node, b, r))) == pre + [node] + post;
    assert Inorder(Erased(c, l, b, r)) == pre + post;
  }

  // ----- With rebalancing -----

  /** rb_add_augmented_cached. */
  method Insert(node: RbNode, tree: RbRootCached, ghost t: Shape) returns (first: RbNode?, ghost t': Shape)
    requires Sound(tree.root, t) && RbTree(t) && Sorted(Inorder(t)) && node !in Nodes(t) && node.aug == node.val
    requires tree.leftmost == First(Inorder(t))
    modifies tree`leftmost, tree.root, Nodes(t), node
    ensures Sound(tree.root, t') && RbTree(t') && Sorted(Inorder(t'))
    ensures exists a: seq<RbNode>, z: seq<RbNode> ::
              && Inorder(t) == a + z && Inorder(t') == a + [node] + z
              && (forall x | x in a :: x.key <= node.key) && (forall x | x in z :: node.key < x.key)
    ensures tree.leftmost == First(Inorder(t')) && first == (if tree.leftmost == node then node else null)
  {
    hide Sound, RbTree, Sorted, Inorder, Plug, Nodes, CtxRb, Rb;
    ghost var c;
    first, c := Add(node, tree, t);
    ghost var x := Branch(Leaf, node, false, Leaf);
    LinkRb(c, node);
    LeafPair(node);
    InsertedAt(c, node);
    t' := RbFix.InsertColor(node, tree.root, c, x, 0);
    assert Inorder(t) == Before(c) + After(c) && Inorder(t') == Before(c) + [node] + After(c);
  }

  lemma {:induction false} LeafPair(node: RbNode)
    ensures Rb(Branch(Leaf, node, false, Leaf), 0, false)
  {
  }

  lemma {:induction false} InsertedAt(c: Ctx, node: RbNode)
    ensures Inorder(Plug(c, Leaf)) == Before(c) + After(c)
    ensures Nodes(Plug(c, Branch(Leaf, node, false, Leaf))) == Nodes(Plug(c, Leaf)) + {node}
  {
    PlugInorder(c, Leaf);
    PlugNodes(c, Leaf);
    PlugNodes(c, Branch(Leaf, node, false, Leaf));
    assert Before(c) + Inorder(Leaf) + After(c) == Before(c) + After(c);
  }

  /** rb_erase_augmented_cached. */
  method Erase(node: RbNode, tree: RbRootCached, ghost c: Ctx, ghost l: Shape, ghost b: bool, ghost r: Shape)
    returns (ghost t': Shape)
    requires var t := Plug(c, Branch(l, node, b, r));
             Sound(tree.root, t) && RbTree(t) && tree.leftmost == First(Inorder(t))
    modifies tree`leftmost, tree.root, Nodes(Plug(c, Branch(l, node, b, r)))
    ensures Sound(tree.root, t') && RbTree(t')
    ensures Inorder(Plug(c, Branch(l, node, b, r))) == Before(c) + Inorder(l) + [node] + Inorder(r) + After(c)
    ensures Inorder(t') == Before(c) + Inorder(l) + Inorder(r) + After(c)
    ensures tree.leftmost == First(Inorder(t'))
  {
    hide Sound, RbTree, Inorder, Plug, Nodes, CtxRb, Before, After, Erased, EraseCtx, EraseFill, LostBlack;
    EraseInorder(c, l, node, b, r);
    var rebalance := EraseCached(node, tree, c, l, b, r);
    t' := Erased(c, l, b, r);
    if rebalance != null {
      t' := RbFix.EraseColor(rebalance, tree.root, EraseCtx(c, l, b, r));
    }
  }
}
