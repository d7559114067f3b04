/**
 The loops that restore the colour rules: __rb_insert and ____rb_erase_color of
 src/linux_porting/lib/rbtree.c, with callbacks.
 */
module RbFix {
  import opened RbShape
  import opened RbLinks
  import opened RbTurn
  import opened RbBalance

  lemma {:induction false} SameAgain(a: Shape, b: Shape, c: Shape)
    requires Same(a, b) && Same(b, c)
    ensures Same(a, c)
  {
  }

  /** The tree at root is sound and red-black, and has the nodes of t in the same order. */
  ghost predicate Mended(root: RbRoot, t: Shape, t': Shape)
    reads root, Nodes(t')
  {
    Sound(root, t') && RbTree(t') && Same(t, t')
  }

  // ----- Insertion -----

  /** A red parent has a black parent. */
  lemma {:induction false} RedParent(d: bool, up: Ctx, p: RbNode, s: Shape, h: int)
    requires CtxRb(In(d, up, p, false, s), h)
    ensures !up.Hole? && up.black && Rb(s, h, true)
    ensures Rb(Side(up), h, false) && CtxRb(up.up, h + 1)
  {
    hide Rb, CtxRb;
    InRb(d, up, p, false, s, h);
    InIs(up);
    InRb(up.Left?, up.up, up.node, up.black, Side(up), h);
  }

  lemma {:induction false} FlipRb(d: bool, e: bool, x: Shape, p: RbNode, s: Shape, g: RbNode, u: Shape, h: int)
    requires Rb(x, h, false) && Rb(s, h, true) && u.Branch? && !u.black && Rb(u, h, false)
    ensures Rb(Br(e, Br(d, x, p, true, s), g, false, Paint(u, true)), h + 1, false)
  {
    hide Rb, Br;
    RbEither(s, h, false);
    PaintRb(u, h, true);
    BrRb(d, x, p, true, s, h + 1, true);
    BrRb(e, Br(d, x, p, true, s), g, false, Paint(u, true), h + 1, false);
  }

  lemma {:induction false} TurnRb(e: bool, x: Shape, p: RbNode, s: Shape, g: RbNode, u: Shape, h: int)
    requires Rb(x, h, false) && Rb(s, h, true) && BlackTop(u) && Rb(u, h, false)
    ensures Rb(Br(e, x, p, true, Br(e, s, g, false, u)), h + 1, true) && BlackTop(s)
  {
    hide Rb, Br;
    RbEither(s, h, true);
    RbEither(u, h, true);
    BrRb(e, s, g, false, u, h, false);
    BrRb(e, x, p, true, Br(e, s, g, false, u), h + 1, true);
  }

  lemma {:induction false} TwiceRb(e: bool, s: Shape, p: RbNode, b: Shape, n: RbNode, d: Shape, g: RbNode, u: Shape,
                                   h: int)
    requires Rb(Br(e, b, n, false, d), h, false) && Rb(s, h, true) && BlackTop(u) && Rb(u, h, false)
    ensures Rb(Br(e, Br(e, s, p, false, b), n, true, Br(e, d, g, false, u)), h + 1, true) && BlackTop(b) && BlackTop(d)
  {
    hide Rb, Br;
    BrRb(e, b, n, false, d, h, false);
    RbEither(b, h, true);
    RbEither(d, h, true);
    RbEither(u, h, true);
    BrRb(e, s, p, false, b, h, false);
    BrRb(e, d, g, false, u, h, false);
    BrRb(e, Br(e, s, p, false, b), n, true, Br(e, d, g, false, u), h + 1, true);
  }

  /** Case 1: the uncle is red. */
  method Flip(e: bool, p: RbNode, g: RbNode, uncle: RbNode, root: RbRoot,
              ghost d: bool, ghost c: Ctx, ghost x: Shape, ghost s: Shape, ghost u: Shape)
    requires Sound(root, Plug(c, Br(e, Br(d, x, p, false, s), g, true, u))) && u.Branch? && uncle == u.node
    modifies Nodes(Plug(c, Br(e, Br(d, x, p, false, s), g, true, u)))
    ensures Sound(root, Plug(c, Br(e, Br(d, x, p, true, s), g, false, Paint(u, true))))
    ensures Same(Plug(c, Br(e, Br(d, x, p, false, s), g, true, u)),
                 Plug(c, Br(e, Br(d, x, p, true, s), g, false, Paint(u, true))))
  {
    hide Sound, Plug, Br, In, Paint, Nodes, Inorder;
    ghost var q, q' := Br(d, x, p, false, s), Br(d, x, p, true, s);
    ghost var u' := Paint(u, true);
    FlipShapes(e, d, c, x, p, s, g, u);
    See(root, c, e, q, g, true, u);
    Recolour(uncle, g, true, root, In(!e, c, g, true, q), u);
    Recolour(p, g, true, root, In(e, c, g, true, u'), q);
    See(root, c, e, q', g, true, u');
    var parent := g.parent;
    Recolour(g, parent, false, root, c, Br(e, q', g, true, u'));
    SameAgain(Plug(c, Br(e, q, g, true, u)), Plug(c, Br(e, q, g, true, u')), Plug(c, Br(e, q', g, true, u')));
    SameAgain(Plug(c, Br(e, q, g, true, u)), Plug(c, Br(e, q', g, true, u')), Plug(c, Br(e, q', g, false, u')));
  }

  lemma {:induction false} BrPaint(e: bool, near: Shape, n: RbNode, b: bool, far: Shape, b': bool)
    ensures Paint(Br(e, near, n, b, far), b') == Br(e, near, n, b', far)
    ensures Br(e, near, n, b, far).Branch? && Br(e, near, n, b, far).node == n && Br(e, near, n, b, far).black == b
  {
  }

  lemma {:induction false} InParent(e: bool, up: Ctx, n: RbNode, b: bool, far: Shape)
    ensures HoleParent(In(e, up, n, b, far), null) == n
  {
  }

  /** The trees that Flip goes through. */
  lemma {:induction false} FlipShapes(e: bool, d: bool, c: Ctx, x: Shape, p: RbNode, s: Shape, g: RbNode, u: Shape)
    ensures var q, q', u' := Br(d, x, p, false, s), Br(d, x, p, true, s), Paint(u, true);
            && Plug(In(!e, c, g, true, q), u) == Plug(c, Br(e, q, g, true, u))
            && Plug(In(!e, c, g, true, q), u') == Plug(In(e, c, g, true, u'), q) == Plug(c, Br(e, q, g, true, u'))
            && Plug(In(e, c, g, true, u'), q') == Plug(c, Br(e, q', g, true, u'))
            && Paint(q, true) == q' && q.Branch? && q.node == p
            && Paint(Br(e, q', g, true, u'), false) == Br(e, q', g, false, u')
            && Br(e, q', g, true, u').Branch? && Br(e, q', g, true, u').node == g
            && HoleParent(In(!e, c, g, true, q), null) == g && HoleParent(In(e, c, g, true, u'), null) == g
  {
    hide Plug, Br, In, Paint;
    var q, q', u' := Br(d, x, p, false, s), Br(d, x, p, true, s), Paint(u, true);
    InPlug(!e, c, g, true, q, u);
    InPlug(!e, c, g, true, q, u');
    InPlug(e, c, g, true, u', q);
    InPlug(e, c, g, true, u', q');
    BrSwap(e, q, g, true, u);
    BrSwap(e, q, g, true, u');
    BrPaint(d, x, p, false, s, true);
    BrPaint(e, q', g, true, u', false);
    InParent(!e, c, g, true, q);
    InParent(e, c, g, true, u');
  }

  lemma {:induction false} NearIs(n: RbNode, e: bool)
    ensures Near(n, e) == if e then n.left else n.right
  {
  }

  /** Cases 2 and 3: the uncle is black. */
  method InsertTurn(e: bool, node: RbNode, p: RbNode, g: RbNode, root: RbRoot,
                    ghost d: bool, ghost c: Ctx, ghost x: Shape, ghost s: Shape, ghost u: Shape, ghost h: int)
    returns (ghost t': Shape)
    requires Sound(root, Plug(c, Br(e, Br(d, x, p, false, s), g, true, u))) && x.Branch? && x.node == node && !x.black
    requires Rb(x, h, false) && Rb(s, h, true) && BlackTop(u) && Rb(u, h, false) && CtxRb(c, h + 1)
    modifies root, Nodes(Plug(c, Br(e, Br(d, x, p, false, s), g, true, u)))
    ensures Mended(root, Plug(c, Br(e, Br(d, x, p, false, s), g, true, u)), t')
  {
    hide Sound, Plug, Br, In, Same, Nodes, Rb, CtxRb, RbTree, Near;
    ghost var q := Br(d, x, p, false, s);
    InPlug(e, c, g, true, u, q);
    See(root, In(e, c, g, true, u), d, x, p, false, s);
    NearIs(p, !e);
    var tmp := if e then p.right else p.left;
    if node == tmp {
      ghost var b, y := Kid(x, e), Kid(x, !e);
      BrIs(x, e);
      BrSwap(d, x, p, false, s);
      TwiceRb(e, s, p, b, node, y, g, u, h);
      RotateTwice(e, g, p, node, true, false, root, c, s, false, b, false, y, true, u);
      t' := Plug(c, Br(e, Br(e, s, p, false, b), node, true, Br(e, y, g, false, u)));
      WholeRb(c, Br(e, Br(e, s, p, false, b), node, true, Br(e, y, g, false, u)), h + 1);
    } else {
      TurnRb(e, x, p, s, g, u, h);
      Rotate(e, g, p, true, false, root, c, x, false, s, true, u);
      t' := Plug(c, Br(e, x, p, true, Br(e, s, g, false, u)));
      WholeRb(c, Br(e, x, p, true, Br(e, s, g, false, u)), h + 1);
    }
  }

  /** What the loop of __rb_insert keeps: the node is red, and nothing else may be wrong. */
  ghost predicate RedAt(root: RbRoot, node: RbNode, parent: RbNode?, c: Ctx, x: Shape, h: int)
    reads root, Nodes(Plug(c, x))
  {
    && Sound(root, Plug(c, x)) && x.Branch? && x.node == node && !x.black && parent == HoleParent(c, null)
    && CtxRb(c, h) && Rb(x, h, false)
  }

  /** What the loop finds above a red node with a red parent. */
  lemma {:induction false} Above(root: RbRoot, node: RbNode, p: RbNode, c: Ctx, x: Shape, h: int)
    requires RedAt(root, node, p, c, x, h)
    ensures !c.Hole? && c.node == p && p.black == c.black
    ensures c.black ==> RbTree(Plug(c, x))
    ensures !c.black ==>
              && !c.up.Hole? && p.parent == c.up.node && Near(c.up.node, c.up.Left?) == p
              && Near(c.up.node, !c.up.Left?) == Top(Side(c.up)) && Top(Side(c.up)) != p && c.up.black
              && Rb(Side(c), h, true) && Rb(Side(c.up), h, false) && CtxRb(c.up.up, h + 1)
              && Plug(c, x) == Plug(c.up.up, Br(c.up.Left?, Br(c.Left?, x, p, false, Side(c)), c.up.node, true,
                                                Side(c.up)))
  {
    hide Sound, Plug, Br, In, Rb, CtxRb, RbTree, Near;
    InIs(c);
    InPlug(c.Left?, c.up, p, c.black, Side(c), x);
    See(root, c.up, c.Left?, x, p, c.black, Side(c));
    if c.black {
      RbEither(x, h, HoleRed(c));
      PlugRb(c, x, h);
      SomeRb(Plug(c, x), h + Blacks(c));
    } else {
      RedParent(c.Left?, c.up, p, Side(c), h);
      var up, q := c.up, Br(c.Left?, x, p, false, Side(c));
      InIs(up);
      InPlug(up.Left?, up.up, up.node, true, Side(up), q);
      BrPaint(c.Left?, x, p, false, Side(c), false);
      See(root, up.up, up.Left?, q, up.node, true, Side(up));
    }
  }

  lemma {:induction false} SomeRb(t: Shape, h: int)
    requires Rb(t, h, true)
    ensures RbTree(t)
  {
  }

  /** The node has become the root. */
  method PaintRoot(node: RbNode, root: RbRoot, ghost x: Shape, ghost h: int) returns (ghost t': Shape)
    requires RedAt(root, node, null, Hole, x, h)
    modifies Nodes(Plug(Hole, x))
    ensures Mended(root, Plug(Hole, x), t')
  {
    hide Sound, Same, Nodes, Rb, RbTree;
    Recolour(node, null, true, root, Hole, x);
    t' := Plug(Hole, Paint(x, true));
    PaintRb(x, h, true);
    SomeRb(t', h + 1);
  }

  /** __rb_insert: from a red node that may have no black node above it to a red-black tree. */
  method InsertColor(start: RbNode, root: RbRoot, ghost c0: Ctx, ghost x0: Shape, ghost h0: int)
    returns (ghost t': Shape)
    requires Sound(root, Plug(c0, x0)) && x0.Branch? && x0.node == start && !x0.black
    requires CtxRb(c0, h0) && Rb(x0, h0, false)
    modifies root, Nodes(Plug(c0, x0))
    ensures Mended(root, Plug(c0, x0), t')
  {
    hide Sound, Plug, Br, In, Nodes, Inorder, Rb, CtxRb, RbTree, Near, Paint;
    ghost var t0 := Plug(c0, x0);
    ghost var c, x, h := c0, x0, h0;
    BrIs(x0, true);
    See(root, c0, true, x0.left, start, false, x0.right);
    var node: RbNode := start;
    var parent := start.parent;
    while true
      invariant RedAt(root, node, parent, c, x, h) && Same(t0, Plug(c, x))
      decreases c
    {
      if parent == null {
        t' := PaintRoot(node, root, x, h);
        return;
      }
      Above(root, node, parent, c, x, h);
      if parent.black {
        t' := Plug(c, x);
        return;
      }
      var g := parent.parent;
      ghost var c2, s, u := c.up.up, Side(c), Side(c.up);
      NearIs(g, true);
      NearIs(g, false);
      var e := parent != g.right;
      assert e == c.up.Left?;
      var tmp := if e then g.right else g.left;
      if tmp != null { UncleSeen(root, e, c2, Br(c.Left?, x, parent, false, s), g, u); }
      if tmp != null && !tmp.black {
        FlipRb(c.Left?, e, x, parent, s, g, u, h);
        Flip(e, parent, g, tmp, root, c.Left?, c2, x, s, u);
        ghost var q := Br(c.Left?, x, parent, true, s);
        BrPaint(e, q, g, false, Paint(u, true), false);
        See(root, c2, e, q, g, false, Paint(u, true));
        c, x, h := c2, Br(e, q, g, false, Paint(u, true)), h + 1;
        node := g;
        parent := node.parent;
      } else {
        t' := InsertTurn(e, node, parent, g, root, c.Left?, c2, x, s, u, h);
        return;
      }
    }
  }

  lemma {:induction false} UncleSeen(root: RbRoot, e: bool, c: Ctx, q: Shape, g: RbNode, u: Shape)
    requires Sound(root, Plug(c, Br(e, q, g, true, u))) && u.Branch?
    ensures u.node.black == u.black
  {
    hide Sound, Plug, Br, In;
    BrSwap(e, q, g, true, u);
    InPlug(!e, c, g, true, q, u);
    BrIs(u, true);
    See(root, In(!e, c, g, true, q), true, u.left, u.node, u.black, u.right);
  }

  // ----- Erasure -----

  /** What the loop of ____rb_erase_color keeps: below the parent, one black node is missing at x. */
  ghost predicate ShortAt(root: RbRoot, node: RbNode?, parent: RbNode?, c: Ctx, x: Shape, h: int)
    reads root, Nodes(Plug(c, x))
  {
    Sound(root, Plug(c, x)) && !c.Hole? && parent == c.node && node == Top(x) && CtxRb(c, h + 1) && Rb(x, h, true)
  }

  /** What the loop finds beside x. */
  lemma {:induction false} Beside(root: RbRoot, node: RbNode?, p: RbNode, c: Ctx, x: Shape, h: int)
    requires ShortAt(root, node, p, c, x, h)
    ensures var d, s := c.Left?, Side(c);
            && s.Branch? && Plug(c, x) == Plug(c.up, Br(d, x, p, c.black, s))
            && Near(p, d) == node && Near(p, !d) == s.node && node != s.node && p.black == c.black
            && p.parent == HoleParent(c.up, null) && s.node.black == s.black && s.node.parent == p
            && Near(s.node, d) == Top(Kid(s, d)) && Near(s.node, !d) == Top(Kid(s, !d))
            && (HoleRed(c.up) ==> c.black) && CtxRb(c.up, h + 1 + Weight(c.black))
            && if s.black then Rb(Kid(s, d), h, false) && Rb(Kid(s, !d), h, false)
               else c.black && Rb(Kid(s, d), h + 1, true) && Rb(Kid(s, !d), h + 1, true)
  {
    hide Sound, Plug, Br, In, Rb, CtxRb, RbTree, Near;
    var d, s := c.Left?, Side(c);
    InIs(c);
    InPlug(d, c.up, p, c.black, s, x);
    InRb(d, c.up, p, c.black, s, h + 1);
    See(root, c.up, d, x, p, c.black, s);
    Tall(x, s, h, !c.black);
    BrIs(s, d);
    BrSwap(d, x, p, c.black, s);
    InPlug(!d, c.up, p, c.black, x, s);
    InParent(!d, c.up, p, c.black, x);
    See(root, In(!d, c.up, p, c.black, x), d, Kid(s, d), s.node, s.black, Kid(s, !d));
    BrRb(d, Kid(s, d), s.node, s.black, Kid(s, !d), h + 1, !c.black);
  }

  lemma {:induction false} Tall(x: Shape, s: Shape, h: int, red: bool)
    requires Rb(x, h, true) && Rb(s, h + 1, red)
    ensures s.Branch? && 0 <= h
  {
    RbHeight(x, h, true);
  }

  lemma {:induction false} KidSeen(root: RbRoot, node: RbNode?, p: RbNode, c: Ctx, x: Shape, h: int, f: bool)
    requires ShortAt(root, node, p, c, x, h) && Side(c).Branch? && Kid(Side(c), f).Branch?
    ensures Kid(Side(c), f).node.black == Kid(Side(c), f).black
  {
    hide Sound, Plug, Br, In, Rb, CtxRb, RbTree, Near;
    var d, s := c.Left?, Side(c);
    Beside(root, node, p, c, x, h);
    var k, o := Kid(s, f), Kid(s, !f);
    BrSwap(d, x, p, c.black, s);
    InPlug(!d, c.up, p, c.black, x, s);
    var up := In(!d, c.up, p, c.black, x);
    BrIs(s, f);
    InPlug(f, up, s.node, s.black, o, k);
    BrIs(k, true);
    See(root, In(f, up, s.node, s.black, o), true, k.left, k.node, k.black, k.right);
  }

  /** Case 1: a red sibling is lifted over the parent. */
  method RaiseSibling(e: bool, p: RbNode, sibling: RbNode, root: RbRoot, ghost node: RbNode?, ghost c: Ctx,
                      ghost x: Shape, ghost h: int)
    returns (next: RbNode, ghost c': Ctx)
    requires ShortAt(root, node, p, c, x, h) && e == !c.Left? && Side(c).Branch? && sibling == Side(c).node
    requires !Side(c).black
    modifies root, Nodes(Plug(c, x))
    ensures ShortAt(root, node, p, c', x, h) && Same(Plug(c, x), Plug(c', x))
    ensures c'.Left? == c.Left? && !c'.black && Side(c').Branch? && next == Side(c').node && Side(c').black
  {
    hide Sound, Plug, Br, In, Rb, CtxRb, RbTree, Near, Nodes, Same;
    ghost var d, s, up := c.Left?, Side(c), c.up;
    Beside(root, node, p, c, x, h);
    ghost var far, near := Kid(s, e), Kid(s, d);
    NearIs(sibling, d);
    Tall(x, near, h, true);
    RbEither(near, h + 1, true);
    next := if e then sibling.right else sibling.left;
    BrIs(s, e);
    BrSwap(d, x, p, true, s);
    Rotate(e, p, sibling, true, false, root, up, far, false, near, true, x);
    c' := In(d, In(d, up, sibling, true, far), p, false, near);
    RaisedShape(d, up, x, p, near, sibling, far);
    RaisedRb(d, up, p, near, sibling, far, h + 1);
  }

  lemma {:induction false} RaisedShape(d: bool, up: Ctx, x: Shape, p: RbNode, near: Shape, s: RbNode, far: Shape)
    ensures var c' := In(d, In(d, up, s, true, far), p, false, near);
            && Plug(c', x) == Plug(up, Br(!d, far, s, true, Br(!d, near, p, false, x)))
            && !c'.Hole? && c'.node == p && c'.Left? == d && !c'.black && Side(c') == near
  {
    hide Plug, Br;
    InPlug(d, In(d, up, s, true, far), p, false, near, x);
    InPlug(d, up, s, true, far, Br(d, x, p, false, near));
    BrSwap(d, x, p, false, near);
    BrSwap(d, Br(d, x, p, false, near), s, true, far);
  }

  lemma {:induction false} RaisedRb(d: bool, up: Ctx, p: RbNode, near: Shape, s: RbNode, far: Shape, h: int)
    requires Rb(near, h, true) && Rb(far, h, true) && CtxRb(up, h + 1)
    ensures CtxRb(In(d, In(d, up, s, true, far), p, false, near), h)
  {
    hide Rb, CtxRb, In;
    RbEither(far, h, false);
    InRb(d, up, s, true, far, h);
    InRb(d, In(d, up, s, true, far), p, false, near, h);
  }

  lemma {:induction false} LastRb(e: bool, c: Ctx, f: Shape, s: RbNode, b: bool, m: Shape, p: RbNode, x: Shape, h: int)
    requires Rb(f, h + 1, true) && Rb(m, h, false) && Rb(x, h, true)
    requires (HoleRed(c) ==> b) && CtxRb(c, h + 1 + Weight(b))
    ensures RbTree(Plug(c, Br(e, f, s, b, Br(e, m, p, true, x))))
  {
    hide Rb, CtxRb, RbTree, Plug, Br;
    RbEither(x, h, false);
    BrRb(e, m, p, true, x, h + 1, true);
    LastJoin(e, c, f, s, b, Br(e, m, p, true, x), h + 1);
  }

  lemma {:induction false} LastJoin(e: bool, c: Ctx, f: Shape, s: RbNode, b: bool, q: Shape, h: int)
    requires Rb(f, h, true) && Rb(q, h, true) && (HoleRed(c) ==> b) && CtxRb(c, h + Weight(b))
    ensures RbTree(Plug(c, Br(e, f, s, b, q)))
  {
    hide Rb, CtxRb, RbTree, Plug, Br;
    RbEither(f, h, !b);
    RbEither(q, h, !b);
    BrRb(e, f, s, b, q, h + Weight(b), HoleRed(c));
    PlugRb(c, Br(e, f, s, b, q), h + Weight(b));
    SomeRb(Plug(c, Br(e, f, s, b, q)), h + Weight(b) + Blacks(c));
  }

  /** Case 4: the far nephew is red. */
  method TurnFar(e: bool, p: RbNode, sibling: RbNode, tmp1: RbNode, root: RbRoot, ghost node: RbNode?, ghost c: Ctx,
                 ghost x: Shape, ghost h: int)
    returns (ghost t': Shape)
    requires ShortAt(root, node, p, c, x, h) && e == !c.Left? && Side(c).Branch? && sibling == Side(c).node
    requires Side(c).black
    requires Kid(Side(c), e).Branch? && tmp1 == Kid(Side(c), e).node && !Kid(Side(c), e).black
    modifies root, Nodes(Plug(c, x))
    ensures Mended(root, Plug(c, x), t')
  {
    hide Sound, Plug, Br, In, Rb, CtxRb, RbTree, Near, Nodes, Inorder, Paint;
    ghost var d, s, up := c.Left?, Side(c), c.up;
    Beside(root, node, p, c, x, h);
    ghost var f, m := Kid(s, e), Kid(s, d);
    ghost var f', inner := Paint(f, true), In(e, up, p, c.black, x);
    BrSwap(d, x, p, c.black, s);
    FarShapes(e, up, x, p, c.black, sibling, f, m);
    BrIs(s, e);
    Recolour(tmp1, sibling, true, root, In(e, inner, sibling, true, m), f);
    Rotate(e, p, sibling, false, true, root, up, f', true, m, c.black, x);
    t' := Plug(up, Br(e, f', sibling, c.black, Br(e, m, p, true, x)));
    PaintRb(f, h, true);
    LastRb(e, up, f', sibling, c.black, m, p, x, h);
  }

  lemma {:induction false} FarShapes(e: bool, up: Ctx, x: Shape, p: RbNode, b: bool, s: RbNode, f: Shape, m: Shape)
    ensures var inner := In(e, up, p, b, x);
            && Plug(In(e, inner, s, true, m), f) == Plug(up, Br(e, Br(e, f, s, true, m), p, b, x))
            && Plug(In(e, inner, s, true, m), Paint(f, true)) == Plug(up,
                                                                      Br(e, Br(e, Paint(f, true), s, true, m), p, b, x))
            && HoleParent(In(e, inner, s, true, m), null) == s
  {
    hide Plug, Br, In, Paint;
    var inner := In(e, up, p, b, x);
    InPlug(e, inner, s, true, m, f);
    InPlug(e, inner, s, true, m, Paint(f, true));
    InPlug(e, up, p, b, x, Br(e, f, s, true, m));
    InPlug(e, up, p, b, x, Br(e, Paint(f, true), s, true, m));
    InParent(e, inner, s, true, m);
  }

  /** Cases 3 and 4: the far nephew is black and the near one is red. */
  method TurnNear(e: bool, p: RbNode, sibling: RbNode, tmp2: RbNode, root: RbRoot, ghost node: RbNode?, ghost c: Ctx,
                  ghost x: Shape, ghost h: int)
    returns (ghost t': Shape)
    requires ShortAt(root, node, p, c, x, h) && e == !c.Left? && Side(c).Branch? && sibling == Side(c).node
    requires Side(c).black
    requires BlackTop(Kid(Side(c), e)) && Kid(Side(c), !e).Branch? && tmp2 == Kid(Side(c), !e).node
    requires !Kid(Side(c), !e).black
    modifies root, Nodes(Plug(c, x))
    ensures Mended(root, Plug(c, x), t')
  {
    hide Sound, Plug, Br, In, Rb, CtxRb, RbTree, Near, Nodes, Same;
    ghost var d, s, up := c.Left?, Side(c), c.up;
    Beside(root, node, p, c, x, h);
    ghost var f, m := Kid(s, e), Kid(s, d);
    ghost var b, y := Kid(m, e), Kid(m, d);
    BrSwap(d, x, p, c.black, s);
    BrIs(s, e);
    BrIs(m, e);
    NearRb(e, up, f, sibling, m, tmp2, b, y, c.black, p, x, h);
    RotateTwice(e, p, sibling, tmp2, false, true, root, up, f, true, b, false, y, c.black, x);
    t' := Plug(up, Br(e, Br(e, f, sibling, true, b), tmp2, c.black, Br(e, y, p, true, x)));
  }

  lemma {:induction false} NearRb(e: bool, c: Ctx, f: Shape, s: RbNode, m: Shape, n: RbNode, b: Shape, y: Shape,
                                  pb: bool, p: RbNode, x: Shape, h: int)
    requires m == Br(e, b, n, false, y) && Rb(f, h, false) && BlackTop(f) && Rb(m, h, false) && Rb(x, h, true)
    requires (HoleRed(c) ==> pb) && CtxRb(c, h + 1 + Weight(pb))
    ensures BlackTop(b) && RbTree(Plug(c, Br(e, Br(e, f, s, true, b), n, pb, Br(e, y, p, true, x))))
  {
    hide Rb, CtxRb, RbTree, Plug, Br;
    BrRb(e, b, n, false, y, h, false);
    RbEither(b, h, false);
    RbEither(y, h, false);
    BrRb(e, f, s, true, b, h + 1, true);
    LastRb(e, c, Br(e, f, s, true, b), n, pb, y, p, x, h);
  }

  /** Case 2: both nephews are black, and the sibling becomes red. */
  method Pale(sibling: RbNode, p: RbNode, root: RbRoot, ghost node: RbNode?, ghost c: Ctx, ghost x: Shape, ghost h: int)
    requires ShortAt(root, node, p, c, x, h) && Side(c).Branch? && sibling == Side(c).node && Side(c).black
    requires BlackTop(Kid(Side(c), true)) && BlackTop(Kid(Side(c), false))
    modifies Nodes(Plug(c, x))
    ensures var t := Br(c.Left?, x, p, c.black, Paint(Side(c), false));
            Sound(root, Plug(c.up, t)) && Same(Plug(c, x), Plug(c.up, t))
    ensures Rb(Br(c.Left?, x, p, true, Paint(Side(c), false)), h + 1, true)
    ensures (HoleRed(c.up) ==> c.black) && CtxRb(c.up, h + 1 + Weight(c.black)) && p.parent == HoleParent(c.up, null)
    ensures p.black == c.black
  {
    hide Sound, Plug, Br, In, Rb, CtxRb, RbTree, Near, Nodes, Inorder;
    ghost var d, s, up := c.Left?, Side(c), c.up;
    Beside(root, node, p, c, x, h);
    ghost var s', above := Paint(s, false), In(!d, up, p, c.black, x);
    BrSwap(d, x, p, c.black, s);
    InPlug(!d, up, p, c.black, x, s);
    InParent(!d, up, p, c.black, x);
    Recolour(sibling, p, false, root, above, s);
    BrSwap(d, x, p, c.black, s');
    InPlug(!d, up, p, c.black, x, s');
    See(root, up, d, x, p, c.black, s');
    PaleRb(s, h);
    RbEither(x, h, false);
    BrRb(d, x, p, true, s', h + 1, true);
  }

  lemma {:induction false} PaleRb(s: Shape, h: int)
    requires s.Branch? && s.black && Rb(s.left, h, false) && Rb(s.right, h, false) && BlackTop(s.left)
    requires BlackTop(s.right)
    ensures Rb(Paint(s, false), h, false)
  {
    RbEither(s.left, h, true);
    RbEither(s.right, h, true);
  }

  /** ____rb_erase_color: from a tree with one black node missing at an empty place to a red-black tree. */
  method EraseColor(start: RbNode, root: RbRoot, ghost c0: Ctx) returns (ghost t': Shape)
    requires Sound(root, Plug(c0, Leaf)) && !c0.Hole? && start == c0.node && CtxRb(c0, 1)
    modifies root, Nodes(Plug(c0, Leaf))
    ensures Mended(root, Plug(c0, Leaf), t')
  {
    hide Sound, Plug, Br, In, Nodes, Inorder, CtxRb, RbTree, Near, Paint, Rb;
    ghost var t0 := Plug(c0, Leaf);
    ghost var c, x, h := c0, Leaf, 0;
    LeafRb();
    var node: RbNode?, parent: RbNode := null, start;
    while true
      invariant ShortAt(root, node, parent, c, x, h) && Same(t0, Plug(c, x))
      decreases c
    {
      Beside(root, node, parent, c, x, h);
      NearIs(parent, true);
      NearIs(parent, false);
      var e := node != parent.right;
      assert e == c.Left?;
      var sibling := if e then parent.right else parent.left;
      ghost var c1 := c;
      if !sibling.black {
        sibling, c1 := RaiseSibling(!e, parent, sibling, root, node, c, x, h);
        Beside(root, node, parent, c1, x, h);
      }
      NearIs(sibling, true);
      NearIs(sibling, false);
      var tmp1 := if e then sibling.right else sibling.left;
      if tmp1 != null { KidSeen(root, node, parent, c1, x, h, !e); }
      if tmp1 != null && !tmp1.black {
        t' := TurnFar(!e, parent, sibling, tmp1, root, node, c1, x, h);
        return;
      }
      var tmp2 := if e then sibling.left else sibling.right;
      if tmp2 != null { KidSeen(root, node, parent, c1, x, h, e); }
      if tmp2 != null && !tmp2.black {
        t' := TurnNear(!e, parent, sibling, tmp2, root, node, c1, x, h);
        return;
      }
      ghost var up, s', b := c1.up, Paint(Side(c1), false), c1.black;
      Pale(sibling, parent, root, node, c1, x, h);
      BrPaint(e, x, parent, b, s', true);
      if !parent.black {
        Recolour(parent, parent.parent, true, root, up, Br(e, x, parent, false, s'));
        t' := Plug(up, Br(e, x, parent, true, s'));
        WholeRb(up, Br(e, x, parent, true, s'), h + 1);
        return;
      }
      node := parent;
      c, x, h := up, Br(e, x, parent, true, s'), h + 1;
      if node.parent == null {
        t' := Plug(c, x);
        NoCtxRb(c, h);
        WholeRb(c, x, h);
        return;
      }
      parent := node.parent;
    }
  }

  lemma {:induction false} LeafRb()
    ensures Rb(Leaf, 0, true)
  {
  }

  lemma {:induction false} NoCtxRb(c: Ctx, h: int)
    requires c.Hole?
    ensures CtxRb(c, h)
  {
  }
}
