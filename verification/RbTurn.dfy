/**
 Rotations of shapes.  A direction e stands for left when it is true; what the program does on
 the other side is the mirror image, and is written once with e as a parameter.
 */
module RbTurn {
  import opened RbShape
  import opened RbLinks

  /** The node n with `near` on side e and `far` on the other. */
  function Br(e: bool, near: Shape, n: RbNode, b: bool, far: Shape): Shape {
    if e then Branch(near, n, b, far) else Branch(far, n, b, near)
  }

  /** The context of the child of n on side e. */
  function In(e: bool, up: Ctx, n: RbNode, b: bool, far: Shape): Ctx {
    if e then Left(up, n, b, far) else Right(far, n, b, up)
  }

  function Kid(t: Shape, e: bool): Shape
    requires t.Branch?
  {
    if e then t.left else t.right
  }

  function Near(n: RbNode, e: bool): RbNode?
    reads n`left, n`right
  {
    if e then n.left else n.right
  }

  lemma {:induction false} BrIs(t: Shape, e: bool)
    requires t.Branch?
    ensures t == Br(e, Kid(t, e), t.node, t.black, Kid(t, !e))
  {
  }

  lemma {:induction false} BrSwap(e: bool, near: Shape, n: RbNode, b: bool, far: Shape)
    ensures Br(e, near, n, b, far) == Br(!e, far, n, b, near)
  {
  }

  lemma {:induction false} InIs(c: Ctx)
    requires !c.Hole?
    ensures c == In(c.Left?, c.up, c.node, c.black, Side(c))
  {
  }

  lemma {:induction false} InPlug(e: bool, up: Ctx, n: RbNode, b: bool, far: Shape, x: Shape)
    ensures Plug(In(e, up, n, b, far), x) == Plug(up, Br(e, x, n, b, far))
  {
  }

  // ----- Order -----

  function Around(e: bool, a: seq<RbNode>, n: RbNode, b: seq<RbNode>): seq<RbNode> {
    if e then a + [n] + b else b + [n] + a
  }

  lemma {:induction false} BrInorder(e: bool, near: Shape, n: RbNode, b: bool, far: Shape)
    ensures Inorder(Br(e, near, n, b, far)) == Around(e, Inorder(near), n, Inorder(far))
  {
  }

  lemma {:induction false} AroundTwice(e: bool, x: seq<RbNode>, p: RbNode, b: seq<RbNode>, g: RbNode, u: seq<RbNode>)
    ensures Around(e, Around(e, x, p, b), g, u) == Around(e, x, p, Around(e, b, g, u))
  {
    if e {
      assert (x + [p] + b) + [g] + u == x + [p] + (b + [g] + u);
    } else {
      assert u + [g] + (b + [p] + x) == (u + [g] + b) + [p] + x;
    }
  }

  /** A rotation keeps the order. */
  lemma {:induction false} TurnInorder(e: bool, x: Shape, p: RbNode, pb: bool, b: Shape, g: RbNode, gb: bool, u: Shape,
                                       pb': bool, gb': bool)
    ensures Inorder(Br(e, Br(e, x, p, pb, b), g, gb, u)) == Inorder(Br(e, x, p, pb', Br(e, b, g, gb', u)))
  {
    hide Inorder, Br, Around;
    BrInorder(e, x, p, pb, b);
    BrInorder(e, Br(e, x, p, pb, b), g, gb, u);
    BrInorder(e, b, g, gb', u);
    BrInorder(e, x, p, pb', Br(e, b, g, gb', u));
    AroundTwice(e, Inorder(x), p, Inorder(b), g, Inorder(u));
  }

  lemma {:induction false} PlugOrder(c: Ctx, t: Shape, t': Shape)
    requires Inorder(t) == Inorder(t')
    ensures Inorder(Plug(c, t)) == Inorder(Plug(c, t'))
  {
    PlugInorder(c, t);
    PlugInorder(c, t');
  }

  // ----- Nodes -----

  lemma {:induction false} BrNodes(e: bool, near: Shape, n: RbNode, b: bool, far: Shape)
    ensures Nodes(Br(e, near, n, b, far)) == Nodes(near) + {n} + Nodes(far)
    ensures Distinct(Br(e, near, n, b, far)) <==>
              && n !in Nodes(near) && n !in Nodes(far) && Nodes(near) !! Nodes(far) && Distinct(near) && Distinct(far)
  {
  }

  // ----- Links -----

  lemma {:induction false} BrLinked(e: bool, near: Shape, n: RbNode, b: bool, far: Shape, q: RbNode?)
    ensures Linked(Br(e, near, n, b, far), q) <==>
              && n.parent == q && n.black == b && Near(n, e) == Top(near) && Near(n, !e) == Top(far)
              && Linked(near, n) && Linked(far, n)
  {
  }

  // ----- Colours -----

  lemma {:induction false} BrRb(e: bool, near: Shape, n: RbNode, b: bool, far: Shape, h: int, red: bool)
    ensures Rb(Br(e, near, n, b, far), h, red) <==>
              (red ==> b) && Rb(near, h - Weight(b), !b) && Rb(far, h - Weight(b), !b)
  {
  }

  lemma {:induction false} InRb(e: bool, up: Ctx, n: RbNode, b: bool, far: Shape, h: int)
    ensures CtxRb(In(e, up, n, b, far), h) <==> (HoleRed(up) ==> b) && Rb(far, h, !b) && CtxRb(up, h + Weight(b))
    ensures HoleRed(In(e, up, n, b, far)) == !b
  {
  }

  /** A black root satisfies either condition. */
  predicate BlackTop(t: Shape) {
    t.Leaf? || t.black
  }

  lemma {:induction false} RbEither(t: Shape, h: int, red: bool)
    ensures Rb(t, h, true) ==> BlackTop(t) && Rb(t, h, red)
    ensures Rb(t, h, false) && BlackTop(t) ==> Rb(t, h, red)
  {
  }

  lemma {:induction false} PaintRb(t: Shape, h: int, red: bool)
    requires t.Branch?
    ensures !t.black && Rb(t, h, false) ==> Rb(Paint(t, true), h + 1, red)
    ensures t.black && Rb(t, h, red) && BlackTop(t.left) && BlackTop(t.right) ==> Rb(Paint(t, false), h - 1, false)
  {
    if !t.black && Rb(t, h, false) {
      RbEither(t.left, h, false);
      RbEither(t.right, h, false);
    }
    if t.black && Rb(t, h, red) {
      RbEither(t.left, h - 1, true);
      RbEither(t.right, h - 1, true);
    }
  }

  lemma {:induction false} WholeRb(c: Ctx, t: Shape, h: int)
    requires CtxRb(c, h) && Rb(t, h, true)
    ensures RbTree(Plug(c, t))
  {
    RbEither(t, h, HoleRed(c));
    PlugRb(c, t, h);
  }

  // ----- Maxima -----

  lemma {:induction false} LocalSwap(v: int, a: Maybe, b: Maybe)
    ensures Local(v, a, b) == Local(v, b, a)
  {
  }

  lemma {:induction false} LocalTurn(p: int, x: Maybe, b: Maybe, g: int, u: Maybe)
    ensures Local(g, Some(Local(p, x, b)), u) == Local(p, x, Some(Local(g, b, u)))
  {
  }
}
