/**
 __rb_erase_augmented on linked nodes.
 */
module RbErase {
  import opened RbShape
  import opened RbLinks

  /** __rb_change_child. */
  method ChangeChild(prev: RbNode, next: RbNode?, parent: RbNode?, root: RbRoot, ghost c: Ctx)
    requires parent == HoleParent(c, null) && CtxLinked(c, prev, null) && root.node == Outer(c, prev)
    requires CtxDistinct(c) && prev !in CtxNodes(c)
    modifies root`node, CtxNodes(c)`left, CtxNodes(c)`right
    ensures CtxLinked(c, next, null) && root.node == Outer(c, next)
  {
    if parent != null {
      if parent.left == prev {
        parent.left := next;
      } else {
        parent.right := next;
      }
    } else {
      root.node := next;
    }
  }

  /** Hang t in the place of its parent node and give it that node's colour. */
  method Lift(node: RbNode, child: RbNode?, root: RbRoot, ghost c: Ctx, ghost t: Shape)
    requires node.parent == HoleParent(c, null) && child == Top(t)
    requires CtxLinked(c, node, null) && root.node == Outer(c, node) && Linked(t, node)
    requires CtxDistinct(c) && Distinct(t) && Nodes(t) !! CtxNodes(c) && node !in Nodes(t) && node !in CtxNodes(c)
    modifies root`node, CtxNodes(c)`left, CtxNodes(c)`right, Nodes(t)`parent, Nodes(t)`black
    ensures CtxLinked(c, Top(t), null) && root.node == Outer(c, Top(t))
    ensures Linked(Paint(t, node.black), HoleParent(c, null))
  {
    hide CtxLinked, CtxDistinct, CtxNodes, Outer;
    assert allocated(Nodes(t)) && allocated(CtxNodes(c));
    ChangeChild(node, child, node.parent, root, c);
    assert Linked(t, node);
    if child != null {
      child.parent, child.black := node.parent, node.black;
    }
    assert CtxLinked(c, Top(t), null);
  }

  /** The case of a node with at most one child. */
  method EraseSingle(node: RbNode, child: RbNode?, root: RbRoot, ghost c: Ctx, ghost t: Shape)
    returns (rebalance: RbNode?)
    requires node.parent == HoleParent(c, null) && child == Top(t)
    requires CtxLinked(c, node, null) && root.node == Outer(c, node) && Linked(t, node)
    requires CtxDistinct(c) && Distinct(t) && Nodes(t) !! CtxNodes(c) && node !in Nodes(t) && node !in CtxNodes(c)
    requires AugOk(t) && CtxAug(c, Some(node.aug))
    modifies root, CtxNodes(c), Nodes(t)
    ensures Tree(root, Plug(c, Paint(t, node.black))) && AugOk(Plug(c, Paint(t, node.black)))
    ensures rebalance == if t.Leaf? && node.black then HoleParent(c, null) else null
  {
    hide Linked, CtxLinked, CtxDistinct, Distinct, Plug, CtxAug;
    var parent := node.parent;
    ghost var t' := Paint(t, node.black);
    StaleAug(c, Some(node.aug));
    assert allocated(Nodes(t)) && allocated(CtxNodes(c));
    Lift(node, child, root, c, t);
    rebalance := if child == null && node.black then parent else null;
    PaintSame(t, node.black);
    Settle(parent, root, c, t');
  }

  lemma {:induction false} PaintSame(t: Shape, black: bool)
    ensures Nodes(Paint(t, black)) == Nodes(t) && Top(Paint(t, black)) == Top(t)
    ensures Distinct(Paint(t, black)) <==> Distinct(t)
    ensures AugOk(Paint(t, black)) <==> AugOk(t)
  {
  }

  // ----- The successor -----

  /** The in-order successor of a node with right child `child`, and the parent it leaves behind. */
  method FindSuccessor(child: RbNode, ghost r: Shape, ghost base: RbNode?) returns (parent: RbNode, successor: RbNode)
    requires r.Branch? && child == r.node && Linked(r, base)
    ensures successor == Least(r).node && parent == HoleParent(Spine(r), successor)
  {
    hide Join, Spine;
    parent, successor := child, child;
    ghost var t, sp, p := r, Hole, base;
    JoinHole(Spine(r));
    var tmp := child.left;
    while tmp != null
      invariant t.Branch? && Linked(t, p) && successor == t.node && tmp == t.node.left
      invariant Spine(r) == Join(Spine(t), sp) && Least(r) == Least(t) && parent == HoleParent(sp, successor)
      decreases t
    {
      parent, successor := successor, tmp;
      tmp := tmp.left;
      SpineStep(t, sp);
      t, sp, p := t.left, Left(sp, t.node, t.black, t.right), t.node;
    }
    SpineEnd(t, sp);
  }

  lemma {:induction false} SpineStep(t: Shape, sp: Ctx)
    requires t.Branch? && t.left.Branch?
    ensures Join(Spine(t), sp) == Join(Spine(t.left), Left(sp, t.node, t.black, t.right))
  {
    JoinAssoc(Spine(t.left), Left(Hole, t.node, t.black, t.right), sp);
  }

  lemma {:induction false} SpineEnd(t: Shape, sp: Ctx)
    requires t.Branch? && t.left.Leaf?
    ensures Join(Spine(t), sp) == sp
  {
  }

  lemma {:induction false} SpineIsLeft(t: Shape)
    ensures Spine(t).Hole? || Spine(t).Left?
  {
    if t.Branch? && t.left.Branch? { SpineIsLeft(t.left); }
  }

  function Outermost(c: Ctx): RbNode
    requires !c.Hole?
  {
    if c.up.Hole? then c.node else Outermost(c.up)
  }

  lemma {:induction false} OuterIs(c: Ctx, top: RbNode?)
    requires !c.Hole?
    ensures Outer(c, top) == Outermost(c) && Outermost(c) in CtxNodes(c)
  {
    if !c.up.Hole? { OuterIs(c.up, c.node); }
  }

  /** The nodes of a context other than the outermost. */
  function InnerNodes(c: Ctx): set<RbNode> {
    if c.Hole? then {}
    else if c.up.Hole? then Nodes(Side(c))
    else {c.node} + Nodes(Side(c)) + InnerNodes(c.up)
  }

  /** A linked context whose outermost node may have any parent. */
  ghost predicate Rootless(c: Ctx, top: RbNode?)
    reads CtxNodes(c)`left, CtxNodes(c)`right, CtxNodes(c)`black, InnerNodes(c)`parent
  {
    !c.Hole? ==>
    && c.node.black == c.black
    && c.node.left == (if c.Left? then top else Top(c.left))
    && c.node.right == (if c.Left? then Top(c.right) else top)
    && Linked(Side(c), c.node)
    && (c.up.Hole? || (c.node.parent == c.up.node && Rootless(c.up, c.node)))
  }

  lemma {:induction false} RootlessIs(c: Ctx, top: RbNode?, base: RbNode?)
    requires !c.Hole?
    ensures CtxLinked(c, top, base) <==> Rootless(c, top) && Outermost(c).parent == base
  {
    if !c.up.Hole? { RootlessIs(c.up, c.node, base); }
  }

  lemma {:induction false} OutermostApart(c: Ctx)
    requires !c.Hole? && CtxDistinct(c)
    ensures Outermost(c) !in InnerNodes(c) && InnerNodes(c) <= CtxNodes(c) && Outermost(c) in CtxNodes(c)
  {
    if !c.up.Hole? { OutermostApart(c.up); }
  }

  /** Take the successor out of the left end of the spine and hang the spine under it. */
  method Unhook(child: RbNode, parent: RbNode, successor: RbNode, ghost sp: Ctx, ghost rest: Shape, ghost base: RbNode?)
    requires sp.Left? && CtxDistinct(sp) && CtxLinked(sp, successor, base)
    requires child == Outermost(sp) && parent == sp.node && successor !in CtxNodes(sp) && successor.right == Top(rest)
    requires Linked(rest, successor) && successor !in Nodes(rest) && Nodes(rest) !! CtxNodes(sp)
    modifies parent`left, successor`right, child`parent
    ensures CtxLinked(sp, Top(rest), successor) && successor.right == child && Linked(rest, successor)
  {
    hide Linked, CtxLinked, Distinct;
    RootlessIs(sp, successor, base);
    OutermostApart(sp);
    parent.left := successor.right;
    assert Rootless(sp, Top(rest));
    successor.right := child;
    child.parent := successor;
    assert Rootless(sp, Top(rest));
    RootlessIs(sp, Top(rest), successor);
  }

  /** What is known of the right subtree r of a node: its spine, its least node and what hangs there. */
  lemma {:induction false} RightParts(r: Shape, base: RbNode?)
    requires r.Branch? && Linked(r, base) && Distinct(r) && AugOk(r)
    ensures var sp, m := Spine(r), Least(r); var s, rest := m.node, m.right;
            && CtxLinked(sp, s, base) && CtxDistinct(sp) && Stale(sp) && CtxNodes(sp) + {s} + Nodes(rest) == Nodes(r)
            && Linked(rest, s) && Distinct(rest) && AugOk(rest)
            && s !in CtxNodes(sp) && s !in Nodes(rest) && Nodes(rest) !! CtxNodes(sp)
            && s.right == Top(rest) && s.black == m.black
            && (!sp.Hole? ==> sp.Left? && Outermost(sp) == r.node)
  {
    var sp, m := Spine(r), Least(r);
    SpineLeast(r);
    SpineIsLeft(r);
    PlugLinked(sp, m, base);
    PlugDistinct(sp, m);
    PlugNodes(sp, m);
    PlugAug(sp, m);
    StaleAug(sp, AugTop(m));
    PlugTop(sp, m);
    if !sp.Hole? { OuterIs(sp, m.node); }
  }

  /** Take the least node of r out of r; what remains of r hangs under it, with its maxima right. */
  method TakeOut(node: RbNode, child: RbNode, parent: RbNode, successor: RbNode, ghost r: Shape)
    requires r.Branch? && Linked(r, node) && Distinct(r) && AugOk(r) && node !in Nodes(r) && child == r.node
    requires successor == Least(r).node && parent == HoleParent(Spine(r), successor)
    modifies Nodes(r)
    ensures var sp, rest := Spine(r), Least(r).right;
            && CtxLinked(sp, Top(rest), successor) && Linked(rest, successor) && successor.black == Least(r).black
            && successor.right == Top(Plug(sp, rest)) && AugOk(Plug(sp, rest)) && successor.aug == node.aug
  {
    hide Linked, CtxLinked, AugOk, CtxAug, Stale, Plug, Spine, Least, CtxDistinct, Distinct;
    ghost var sp, rest := Spine(r), Least(r).right;
    RightParts(r, node);
    PlugTop(sp, rest);
    assert allocated(CtxNodes(sp)) && allocated(Nodes(rest));
    if parent != successor {
      OuterIs(sp, Top(rest));
      Unhook(child, parent, successor, sp, rest, node);
      successor.aug := node.aug;
      Propagate(parent, successor, sp, rest);
    } else {
      successor.aug := node.aug;
      NoSpine(sp, rest, successor);
    }
  }

  lemma {:induction false} NoSpine(sp: Ctx, rest: Shape, s: RbNode)
    requires s == HoleParent(sp, s) && s !in CtxNodes(sp)
    ensures sp.Hole? && Plug(sp, rest) == rest && CtxLinked(sp, Top(rest), s)
  {
  }

  /** Give l the new parent s. */
  method Adopt(s: RbNode, top: RbNode, ghost l: Shape, ghost base: RbNode?)
    requires l.Branch? && top == l.node && Linked(l, base) && Distinct(l) && s !in Nodes(l)
    modifies s`left, top`parent
    ensures s.left == top && Linked(l, s)
  {
    s.left := top;
    top.parent := s;
  }

  /** Hang rest at the left end of the spine, painted black. */
  method Patch(top: RbNode?, parent: RbNode, ghost sp: Ctx, ghost rest: Shape, ghost s: RbNode)
    requires top == Top(rest) && Linked(rest, s) && Distinct(rest) && parent == HoleParent(sp, s)
    requires CtxLinked(sp, top, s) && Nodes(rest) !! CtxNodes(sp)
    modifies Nodes(rest)`parent, Nodes(rest)`black
    ensures Linked(Plug(sp, Paint(rest, true)), s)
  {
    if top != null { top.parent, top.black := parent, true; }
    assert Linked(Paint(rest, true), parent) && CtxLinked(sp, top, s);
    PlugLinked(sp, Paint(rest, true), s);
  }

  /** The parts of the tree lie apart. */
  predicate Apart(l: Shape, node: RbNode, s: RbNode, rest: Shape, sp: Ctx, c: Ctx) {
    && Distinct(l) && Distinct(rest) && CtxDistinct(sp) && CtxDistinct(c)
    && node != s && s !in Nodes(l) && s !in Nodes(rest) && s !in CtxNodes(sp) && s !in CtxNodes(c)
    && node !in Nodes(l) && node !in Nodes(rest) && node !in CtxNodes(sp) && node !in CtxNodes(c)
    && Nodes(l) !! Nodes(rest) && Nodes(l) !! CtxNodes(sp) && Nodes(l) !! CtxNodes(c)
    && Nodes(rest) !! CtxNodes(sp) && Nodes(rest) !! CtxNodes(c) && CtxNodes(sp) !! CtxNodes(c)
  }

  /** Put the successor, which already carries the rest of the right subtree, in the place of node. */
  method PutIn(node: RbNode, s: RbNode, parent: RbNode, top: RbNode?, root: RbRoot,
               ghost c: Ctx, ghost l: Shape, ghost sp: Ctx, ghost rest: Shape)
    requires l.Branch? && node.left == l.node && node.parent == HoleParent(c, null) && Apart(l, node, s, rest, sp, c)
    requires Linked(l, node) && CtxLinked(c, node, null) && root.node == Outer(c, node)
    requires CtxLinked(sp, Top(rest), s) && Linked(rest, s) && top == Top(rest) && parent == HoleParent(sp, s)
    requires s.right == Top(Plug(sp, rest))
    modifies root`node, CtxNodes(c)`left, CtxNodes(c)`right, s`left, s`parent, s`black,
             Nodes(l)`parent, Nodes(rest)`parent, Nodes(rest)`black
    ensures CtxLinked(c, s, null) && root.node == Outer(c, s)
    ensures Linked(Branch(l, s, node.black, Plug(sp, Paint(rest, true))), HoleParent(c, null))
  {
    hide Linked, CtxLinked, CtxDistinct, Distinct, Plug;
    assert allocated(Nodes(rest)) && allocated(CtxNodes(sp));
    Replace(node, s, root, c, l);
    Complete(node, s, parent, top, c, l, sp, rest);
  }

  /** The first half: the left subtree and the parent of node now point to s. */
  method Replace(node: RbNode, s: RbNode, root: RbRoot, ghost c: Ctx, ghost l: Shape)
    requires l.Branch? && node.left == l.node && node.parent == HoleParent(c, null)
    requires Linked(l, node) && CtxLinked(c, node, null) && root.node == Outer(c, node)
    requires Distinct(l) && CtxDistinct(c) && Nodes(l) !! CtxNodes(c)
    requires s !in Nodes(l) && s !in CtxNodes(c) && node !in CtxNodes(c) && node !in Nodes(l) && node != s
    modifies root`node, CtxNodes(c)`left, CtxNodes(c)`right, s`left, Nodes(l)`parent
    ensures CtxLinked(c, s, null) && root.node == Outer(c, s) && Linked(l, s) && s.left == Top(l)
  {
    hide Linked, CtxLinked, CtxDistinct, Distinct;
    assert allocated(Nodes(l)) && allocated(CtxNodes(c));
    assert l.node in Nodes(l);
    Adopt(s, node.left, l, node);
    assert CtxLinked(c, node, null);
    ChangeChild(node, s, node.parent, root, c);
    assert Linked(l, s);
  }

  /** The second half: the rest of the spine is patched, and s takes over parent and colour. */
  method Complete(node: RbNode, s: RbNode, parent: RbNode, top: RbNode?, ghost c: Ctx, ghost l: Shape, ghost sp: Ctx,
                  ghost rest: Shape)
    requires Apart(l, node, s, rest, sp, c) && node.parent == HoleParent(c, null)
    requires CtxLinked(c, s, null) && Linked(l, s) && s.left == Top(l)
    requires CtxLinked(sp, Top(rest), s) && Linked(rest, s) && top == Top(rest) && parent == HoleParent(sp, s)
    requires s.right == Top(Plug(sp, rest))
    modifies s`parent, s`black, Nodes(rest)`parent, Nodes(rest)`black
    ensures CtxLinked(c, s, null)
    ensures Linked(Branch(l, s, node.black, Plug(sp, Paint(rest, true))), HoleParent(c, null))
  {
    hide Linked, CtxLinked, CtxDistinct, Distinct, Plug, Nodes, CtxNodes, Outer;
    ghost var r' := Plug(sp, Paint(rest, true));
    PlugTop(sp, rest);
    PlugTop(sp, Paint(rest, true));
    PlugNodes(sp, Paint(rest, true));
    PaintSame(rest, true);
    assert allocated(Nodes(l)) && allocated(CtxNodes(c)) && allocated(Nodes(r'));
    Patch(top, parent, sp, rest, s);
    assert CtxLinked(c, s, null) && Linked(l, s);
    Crown(s, node.parent, node.black, c, l, r');
  }

  /** s takes over a parent and a colour. */
  method Crown(s: RbNode, q: RbNode?, black: bool, ghost c: Ctx, ghost l: Shape, ghost r: Shape)
    requires s !in Nodes(l) && s !in Nodes(r) && s !in CtxNodes(c)
    requires CtxLinked(c, s, null) && Linked(l, s) && Linked(r, s) && s.left == Top(l) && s.right == Top(r)
    modifies s`parent, s`black
    ensures CtxLinked(c, s, null) && Linked(Branch(l, s, black, r), q)
  {
    hide Linked, CtxLinked, Nodes, CtxNodes;
    s.parent, s.black := q, black;
    assert CtxLinked(c, s, null) && Linked(l, s) && Linked(r, s);
    BranchLinked(l, s, black, r, q);
  }

  lemma {:induction false} BranchLinked(l: Shape, s: RbNode, b: bool, r: Shape, p: RbNode?)
    requires s.parent == p && s.black == b && s.left == Top(l) && s.right == Top(r) && Linked(l, s) && Linked(r, s)
    ensures Linked(Branch(l, s, b, r), p)
  {
  }

  // ----- Erasing -----

  /** The parts of the tree around a node. */
  lemma {:induction false} Parts(root: RbRoot, c: Ctx, l: Shape, node: RbNode, b: bool, r: Shape)
    requires Tree(root, Plug(c, Branch(l, node, b, r))) && AugOk(Plug(c, Branch(l, node, b, r)))
    ensures node.left == Top(l) && node.right == Top(r) && node.black == b && node.parent == HoleParent(c, null)
    ensures CtxLinked(c, node, null) && root.node == Outer(c, node) && Linked(l, node) && Linked(r, node)
    ensures CtxDistinct(c) && Distinct(l) && Distinct(r) && Nodes(l) !! Nodes(r)
    ensures Nodes(l) !! CtxNodes(c) && Nodes(r) !! CtxNodes(c)
    ensures node !in Nodes(l) && node !in Nodes(r) && node !in CtxNodes(c)
    ensures AugOk(l) && AugOk(r) && CtxAug(c, Some(node.aug))
    ensures Nodes(Plug(c, Branch(l, node, b, r))) == CtxNodes(c) + Nodes(l) + {node} + Nodes(r)
  {
    var t := Branch(l, node, b, r);
    PlugLinked(c, t, null);
    PlugDistinct(c, t);
    PlugNodes(c, t);
    PlugAug(c, t);
    PlugTop(c, t);
  }

  lemma {:induction false} PatchAug(sp: Ctx, rest: Shape)
    ensures AugOk(Plug(sp, Paint(rest, true))) <==> AugOk(Plug(sp, rest))
  {
    PlugAug(sp, rest);
    PlugAug(sp, Paint(rest, true));
  }

  lemma {:induction false} RightApart(c: Ctx, l: Shape, node: RbNode, r: Shape)
    requires CtxDistinct(c) && Distinct(l) && Distinct(r) && r.Branch? && Nodes(l) !! Nodes(r)
    requires Nodes(l) !! CtxNodes(c) && Nodes(r) !! CtxNodes(c)
    requires node !in Nodes(l) && node !in Nodes(r) && node !in CtxNodes(c)
    ensures Apart(l, node, Least(r).node, Least(r).right, Spine(r), c)
    ensures CtxNodes(Spine(r)) <= Nodes(r) && Nodes(Least(r).right) <= Nodes(r) && Least(r).node in Nodes(r)
  {
    SpineLeast(r);
    PlugDistinct(Spine(r), Least(r));
    PlugNodes(Spine(r), Least(r));
  }

  lemma {:induction false} SuccessorTree(c: Ctx, l: Shape, b: bool, r: Shape)
    requires l.Branch? && r.Branch?
    ensures var s, r' := Least(r).node, Plug(Spine(r), Paint(Least(r).right, true));
            && Erased(c, l, b, r) == Plug(Left(c, s, b, r'), l)
            && HoleParent(EraseCtx(c, l, b, r), null) == HoleParent(Spine(r), s)
  {
    var s, rest := Least(r).node, Paint(Least(r).right, true);
    PlugJoin(Spine(r), Right(l, s, b, c), rest);
    JoinParent(Spine(r), Right(l, s, b, c), null);
  }

  lemma {:induction false} SuccessorReady(c: Ctx, l: Shape, node: RbNode, s: RbNode, b: bool, sp: Ctx, rest: Shape)
    requires Apart(l, node, s, rest, sp, c)
    ensures var r' := Plug(sp, Paint(rest, true));
            && CtxDistinct(Left(c, s, b, r'))
            && Nodes(l) !! CtxNodes(Left(c, s, b, r'))
    ensures CtxNodes(Left(c, s, b, Plug(sp, Paint(rest, true)))) == {s} + CtxNodes(sp) + Nodes(rest) + CtxNodes(c)
  {
    PaintSame(rest, true);
    PlugDistinct(sp, Paint(rest, true));
    PlugNodes(sp, Paint(rest, true));
  }

  lemma {:induction false} LeftLinked(c: Ctx, l: Shape, s: RbNode, b: bool, r: Shape)
    requires Linked(Branch(l, s, b, r), HoleParent(c, null)) && CtxLinked(c, s, null)
    ensures CtxLinked(Left(c, s, b, r), Top(l), null) && Linked(l, s) && Outer(Left(c, s, b, r), Top(l)) == Outer(c, s)
  {
  }

  lemma {:induction false} LeftStale(c: Ctx, s: RbNode, b: bool, r: Shape)
    requires AugOk(r) && CtxAug(c, Some(s.aug))
    ensures Stale(Left(c, s, b, r))
  {
  }

  /**
   The successor, which carries the rest of the right subtree, takes the place of node, and the
   maxima are brought up to date.
   */
  method Install(node: RbNode, s: RbNode, parent: RbNode, top: RbNode?, root: RbRoot,
                 ghost c: Ctx, ghost l: Shape, ghost sp: Ctx, ghost rest: Shape)
    requires l.Branch? && node.left == l.node && node.parent == HoleParent(c, null) && Apart(l, node, s, rest, sp, c)
    requires Linked(l, node) && CtxLinked(c, node, null) && root.node == Outer(c, node)
    requires CtxLinked(sp, Top(rest), s) && Linked(rest, s) && top == Top(rest) && parent == HoleParent(sp, s)
    requires s.right == Top(Plug(sp, rest)) && s.aug == node.aug
    requires AugOk(l) && CtxAug(c, Some(node.aug)) && AugOk(Plug(sp, rest))
    modifies root, CtxNodes(c), Nodes(l), Nodes(rest), CtxNodes(sp), s
    ensures var t := Plug(Left(c, s, node.black, Plug(sp, Paint(rest, true))), l); Tree(root, t) && AugOk(t)
  {
    hide Linked, CtxLinked, AugOk, CtxAug, Stale, Plug, CtxDistinct, Distinct, Nodes, CtxNodes, Outer;
    ghost var r', b := Plug(sp, Paint(rest, true)), node.black;
    PlugNodes(sp, rest);
    assert allocated(Nodes(l)) && allocated(CtxNodes(c)) && allocated(Nodes(Plug(sp, rest)));
    PutIn(node, s, parent, top, root, c, l, sp, rest);
    PatchAug(sp, rest);
    SuccessorReady(c, l, node, s, b, sp, rest);
    LeftLinked(c, l, s, b, r');
    LeftStale(c, s, b, r');
    Settle(s, root, Left(c, s, b, r'), l);
  }

  /** The case of a node with two children. */
  method EraseBoth(node: RbNode, root: RbRoot, ghost c: Ctx, ghost l: Shape, ghost b: bool, ghost r: Shape)
    returns (rebalance: RbNode?)
    requires l.Branch? && r.Branch?
    requires Tree(root, Plug(c, Branch(l, node, b, r))) && AugOk(Plug(c, Branch(l, node, b, r)))
    modifies root, Nodes(Plug(c, Branch(l, node, b, r)))
    ensures Tree(root, Erased(c, l, b, r)) && AugOk(Erased(c, l, b, r))
    ensures rebalance == if EraseFill(l, b, r).Leaf?
            && LostBlack(l, b, r) then HoleParent(EraseCtx(c, l, b, r), null) else null
  {
    hide Linked, CtxLinked, AugOk, CtxAug, Stale, Plug, Spine, Least, CtxDistinct, Distinct, Nodes, CtxNodes, Outer;
    Parts(root, c, l, node, b, r);
    RightApart(c, l, node, r);
    SuccessorTree(c, l, b, r);
    RightParts(r, node);
    ghost var sp, rest := Spine(r), Least(r).right;
    assert allocated(Nodes(l)) && allocated(CtxNodes(c)) && allocated(Nodes(r)) && allocated(Nodes(rest))
           && allocated(CtxNodes(sp));
    assert allocated(Nodes(Plug(sp, rest)));
    var parent, successor := FindSuccessor(node.right, r, node);
    var child2 := successor.right;
    TakeOut(node, node.right, parent, successor, r);
    rebalance := if child2 == null && successor.black then parent else null;
    assert Linked(l, node) && CtxLinked(c, node, null) && AugOk(l) && CtxAug(c, Some(node.aug));
    Install(node, successor, parent, child2, root, c, l, sp, rest);
  }

  /** Every node of a tree stands somewhere in it. */
  lemma {:induction false} Locate(t: Shape, node: RbNode) returns (c: Ctx, l: Shape, b: bool, r: Shape)
    requires node in Nodes(t)
    ensures t == Plug(c, Branch(l, node, b, r))
  {
    if node == t.node {
      c, l, b, r := Hole, t.left, t.black, t.right;
    } else if node in Nodes(t.left) {
      c, l, b, r := Locate(t.left, node);
      PlugJoin(c, Left(Hole, t.node, t.black, t.right), Branch(l, node, b, r));
      c := Join(c, Left(Hole, t.node, t.black, t.right));
    } else {
      c, l, b, r := Locate(t.right, node);
      PlugJoin(c, Right(t.left, t.node, t.black, Hole), Branch(l, node, b, r));
      c := Join(c, Right(t.left, t.node, t.black, Hole));
    }
  }

  /** __rb_erase_augmented. */
  method EraseAugmented(node: RbNode, root: RbRoot, ghost c: Ctx, ghost l: Shape, ghost b: bool, ghost r: Shape)
    returns (rebalance: RbNode?)
    requires Tree(root, Plug(c, Branch(l, node, b, r))) && AugOk(Plug(c, Branch(l, node, b, r)))
    modifies root, Nodes(Plug(c, Branch(l, node, b, r)))
    ensures Tree(root, Erased(c, l, b, r)) && AugOk(Erased(c, l, b, r))
    ensures rebalance == if EraseFill(l, b, r).Leaf?
            && LostBlack(l, b, r) then HoleParent(EraseCtx(c, l, b, r), null) else null
    ensures Inorder(Erased(c, l, b, r)) == Before(c) + Inorder(l) + Inorder(r) + After(c)
    ensures RbTree(Plug(c, Branch(l, node, b, r))) && rebalance == null ==> RbTree(Erased(c, l, b, r))
    ensures RbTree(Plug(c, Branch(l, node, b, r))) && rebalance != null ==>
              var c' := EraseCtx(c, l, b, r);
              Erased(c, l, b, r) == Plug(c', Leaf) && rebalance == HoleParent(c', null) && CtxRb(c', 1)
  {
    hide Linked, CtxLinked, AugOk, CtxAug, Plug, Spine, Least, CtxDistinct, Distinct, Nodes, CtxNodes, Outer, Rb, CtxRb,
         RbTree, Inorder;
    Parts(root, c, l, node, b, r);
    EraseInorder(c, l, node, b, r);
    if RbTree(Plug(c, Branch(l, node, b, r))) {
      EraseRb(c, l, node, b, r);
      EmptyRoot(EraseCtx(c, l, b, r));
    }
    if node.left == null {
      rebalance := EraseSingle(node, node.right, root, c, r);
    } else if node.right == null {
      rebalance := EraseSingle(node, node.left, root, c, l);
    } else {
      rebalance := EraseBoth(node, root, c, l, b, r);
    }
  }

  lemma {:induction false} EmptyRoot(c: Ctx)
    ensures HoleParent(c, null) == null ==> RbTree(Plug(c, Leaf))
  {
    assert Rb(Leaf, 0, true);
  }
}
