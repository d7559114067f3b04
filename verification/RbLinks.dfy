/**
 Red-black trees in the heap: when the fields of the nodes are those of a shape, when the stored
 maxima are right, and the loop that brings them up to date.
 */
module RbLinks {
  import opened RbShape

  class RbRoot {
    var node: RbNode?
  }

  // ----- Links -----

  ghost predicate Linked(t: Shape, p: RbNode?)
    reads Nodes(t)`left, Nodes(t)`right, Nodes(t)`parent, Nodes(t)`black
  {
    t.Branch? ==>
    && t.node.parent == p && t.node.black == t.black && t.node.left == Top(t.left) && t.node.right == Top(t.right)
    && Linked(t.left, t.node) && Linked(t.right, t.node)
  }

  /** The nodes of the context are linked to each other and to top in the hole; base is above them. */
  ghost predicate CtxLinked(c: Ctx, top: RbNode?, base: RbNode?)
    reads CtxNodes(c)`left, CtxNodes(c)`right, CtxNodes(c)`parent, CtxNodes(c)`black
  {
    !c.Hole? ==>
    && c.node.parent == HoleParent(c.up, base) && c.node.black == c.black
    && c.node.left == (if c.Left? then top else Top(c.left))
    && c.node.right == (if c.Left? then Top(c.right) else top)
    && Linked(Side(c), c.node) && CtxLinked(c.up, c.node, base)
  }

  lemma {:induction false} PlugLinked(c: Ctx, t: Shape, base: RbNode?)
    ensures Linked(Plug(c, t), base) <==> Linked(t, HoleParent(c, base)) && CtxLinked(c, Top(t), base)
    decreases c
  {
    if !c.Hole? { PlugLinked(c.up, Wrap(c, t), base); }
  }

  lemma {:induction false} JoinLinked(inner: Ctx, outer: Ctx, top: RbNode?, base: RbNode?)
    ensures CtxLinked(Join(inner, outer), top, base) <==>
            CtxLinked(inner, top, HoleParent(outer, base)) && CtxLinked(outer, Outer(inner, top), base)
    decreases inner
  {
    if !inner.Hole? { JoinLinked(inner.up, outer, inner.node, base); }
  }

  /** The tree at root has this shape. */
  ghost predicate Tree(root: RbRoot, t: Shape)
    reads root, Nodes(t)
  {
    root.node == Top(t) && Linked(t, null) && Distinct(t)
  }

  // ----- Stored maxima -----

  datatype Maybe = None | Some(value: int)

  function Sup(v: int, a: Maybe): int {
    if a.Some? && a.value > v then a.value else v
  }

  function Local(v: int, a: Maybe, b: Maybe): int {
    Sup(Sup(v, a), b)
  }

  ghost function AugTop(t: Shape): Maybe
    reads Nodes(t)`aug
  {
    if t.Leaf? then None else Some(t.node.aug)
  }

  ghost predicate AugOk(t: Shape)
    reads Nodes(t)`aug
  {
    t.Branch? ==>
    && t.node.aug == Local(t.node.val, AugTop(t.left), AugTop(t.right))
    && AugOk(t.left) && AugOk(t.right)
  }

  /** The maxima of the context are right when the filling of the hole stores a. */
  ghost predicate CtxAug(c: Ctx, a: Maybe)
    reads CtxNodes(c)`aug
  {
    !c.Hole? ==>
    && c.node.aug == (if c.Left? then Local(c.node.val, a, AugTop(c.right)) else Local(c.node.val, AugTop(c.left), a))
    && AugOk(Side(c)) && CtxAug(c.up, Some(c.node.aug))
  }

  /** The maxima of the context are right, except perhaps next to the hole. */
  ghost predicate Stale(c: Ctx)
    reads CtxNodes(c)`aug
  {
    !c.Hole? ==> AugOk(Side(c)) && CtxAug(c.up, Some(c.node.aug))
  }

  lemma {:induction false} PlugAug(c: Ctx, t: Shape)
    ensures AugOk(Plug(c, t)) <==> AugOk(t) && CtxAug(c, AugTop(t))
    decreases c
  {
    if !c.Hole? { PlugAug(c.up, Wrap(c, t)); }
  }

  /** The stored value is the maximum over the subtree. */
  lemma {:induction false} AugIsMax(t: Shape)
    requires t.Branch? && AugOk(t)
    ensures forall n | n in Nodes(t) :: n.val <= t.node.aug
    ensures exists n :: n in Nodes(t) && n.val == t.node.aug
  {
    if t.left.Branch? { AugIsMax(t.left); }
    if t.right.Branch? { AugIsMax(t.right); }
    if t.node.aug == t.node.val {
      assert t.node in Nodes(t);
    } else if t.left.Branch? && t.node.aug == t.left.node.aug {
      var n :| n in Nodes(t.left) && n.val == t.left.node.aug;
      assert n in Nodes(t);
    } else {
      var n :| n in Nodes(t.right) && n.val == t.right.node.aug;
      assert n in Nodes(t);
    }
  }

  // ----- Callbacks -----

  /** RBNAME_compute_max. */
  method ComputeMax(n: RbNode, exit: bool) returns (same: bool)
    modifies n`aug
    ensures var a, b := (if n.left == null then None else Some(old(n.left.aug))),
            (if n.right == null then None else Some(old(n.right.aug)));
            n.aug == Local(n.val, a, b)
    ensures same <==> exit && n.aug == old(n.aug)
  {
    var max := n.val;
    if n.left != null && n.left.aug > max { max := n.left.aug; }
    if n.right != null && n.right.aug > max { max := n.right.aug; }
    if exit && n.aug == max { return true; }
    n.aug := max;
    return false;
  }

  /** One step of the loop of RBNAME_propagate. */
  method Climb(n: RbNode, ghost c: Ctx, ghost t: Shape, ghost stop: RbNode?) returns (same: bool)
    requires !c.Hole? && n == c.node && CtxLinked(c, Top(t), stop)
    requires CtxDistinct(c) && Nodes(t) !! CtxNodes(c) && AugOk(t) && Stale(c)
    modifies n`aug
    ensures CtxLinked(c, Top(t), stop)
    ensures AugOk(Wrap(c, t)) && Stale(c.up)
    ensures same ==> AugOk(Plug(c, t))
  {
    ghost var s := Side(c);
    assert n !in Nodes(t) && n !in Nodes(s) && n !in CtxNodes(c.up);
    assert n.left == Top(if c.Left? then t else s) && n.right == Top(if c.Left? then s else t);
    assert allocated(Nodes(t)) && allocated(Nodes(s)) && allocated(CtxNodes(c.up));
    same := ComputeMax(n, true);
    assert AugOk(t) && AugOk(s);
    assert n.aug == if c.Left? then Local(n.val, AugTop(t), AugTop(s)) else Local(n.val, AugTop(s), AugTop(t));
    if same {
      assert CtxAug(c.up, Some(n.aug));
      PlugAug(c, t);
    }
  }

  /** RBNAME_propagate: the early exit still leaves every maximum right. */
  method Propagate(rb: RbNode?, stop: RbNode?, ghost c: Ctx, ghost t: Shape)
    requires rb == HoleParent(c, stop) && CtxLinked(c, Top(t), stop)
    requires CtxDistinct(c) && Nodes(t) !! CtxNodes(c) && (stop == null || stop !in CtxNodes(c))
    requires AugOk(t) && Stale(c)
    modifies CtxNodes(c)`aug
    ensures AugOk(Plug(c, t))
  {
    hide AugOk, Stale;
    var n := rb;
    ghost var c', t' := c, t;
    while n != stop
      invariant Plug(c', t') == Plug(c, t) && CtxNodes(c') <= CtxNodes(c)
      invariant n == HoleParent(c', stop) && CtxLinked(c', Top(t'), stop)
      invariant CtxDistinct(c') && Nodes(t') !! CtxNodes(c') && (stop == null || stop !in CtxNodes(c'))
      invariant AugOk(t') && Stale(c')
      decreases c'
    {
      var same := Climb(n, c', t', stop);
      if same { return; }
      t', c' := Wrap(c', t'), c'.up;
      n := n.parent;
    }
  }

  /** Bring the maxima above the hole up to date. */
  method Settle(rb: RbNode?, root: RbRoot, ghost c: Ctx, ghost t: Shape)
    requires rb == HoleParent(c, null)
    requires CtxLinked(c, Top(t), null) && root.node == Outer(c, Top(t)) && Linked(t, HoleParent(c, null))
    requires CtxDistinct(c) && Distinct(t) && Nodes(t) !! CtxNodes(c)
    requires AugOk(t) && Stale(c)
    modifies CtxNodes(c)`aug
    ensures Tree(root, Plug(c, t)) && AugOk(Plug(c, t))
  {
    hide Linked, CtxLinked, CtxDistinct, Distinct, Plug, CtxAug, AugOk;
    PlugLinked(c, t, null);
    PlugDistinct(c, t);
    PlugTop(c, t);
    assert allocated(Nodes(Plug(c, t)));
    Propagate(rb, null, c, t);
  }

  lemma {:induction false} StaleAug(c: Ctx, a: Maybe)
    requires CtxAug(c, a)
    ensures Stale(c)
  {
  }
}
