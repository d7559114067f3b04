/**
 Rebalancing linked red-black trees: the rotations of src/linux_porting/lib/rbtree.c with the
 callbacks that keep the stored maxima, and the two loops that use them.
 */
module RbBalance {
  import opened RbShape
  import opened RbLinks
  import opened RbTurn
  import opened RbCells

  /** The tree at root has this shape, and its stored maxima are right. */
  ghost predicate Sound(root: RbRoot, t: Shape)
    reads root, Nodes(t)
  {
    Tree(root, t) && AugOk(t)
  }

  lemma {:induction false} SoundIs(root: RbRoot, t: Shape)
    ensures Sound(root, t) <==> root.node == Top(t) && Distinct(t) && Good(t, null, Mem(Nodes(t)))
  {
    hide Linked, AugOk, Good, Distinct, Mem;
    GoodIs(t, null, Nodes(t));
  }

  // ----- Writes -----

  method WriteKid(n: RbNode, e: bool, kid: RbNode?, ghost s: set<RbNode>)
    requires n in s
    modifies n`left, n`right
    ensures n in old(Mem(s)) && Mem(s) == old(Mem(s))[n := old(Mem(s))[n].WithKid(e, kid)]
  {
    if e {
      n.left := kid;
    } else {
      n.right := kid;
    }
  }

  /** rb_set_parent_color. */
  method WriteParent(n: RbNode, q: RbNode?, black: bool, ghost s: set<RbNode>)
    requires n in s
    modifies n`parent, n`black
    ensures n in old(Mem(s)) && Mem(s) == old(Mem(s))[n := old(Mem(s))[n].(parent := q, black := black)]
  {
    n.parent, n.black := q, black;
  }

  method WriteAug(n: RbNode, a: int, ghost s: set<RbNode>)
    requires n in s
    modifies n`aug
    ensures n in old(Mem(s)) && Mem(s) == old(Mem(s))[n := old(Mem(s))[n].(aug := a)]
  {
    n.aug := a;
  }

  lemma {:induction false} MemAt(s: set<RbNode>, n: RbNode)
    requires n in s
    ensures n in Mem(s) && Mem(s)[n] == CellOf(n)
  {
  }

  /** RBNAME_compute_max, with what it leaves in memory. */
  method ComputeMaxAt(n: RbNode, ghost s: set<RbNode>)
    requires n in s && (n.left != null ==> n.left in s) && (n.right != null ==> n.right in s)
    modifies n`aug
    ensures var m := old(Mem(s));
            && n in m
            && Mem(s) == m[n := m[n].(aug := Local(n.val, MaxAt(m, m[n].left), MaxAt(m, m[n].right)))]
  {
    hide Local;
    var same := ComputeMax(n, false);
  }

  /** The two child links of a rotation. */
  method Swing(e: bool, g: RbNode, p: RbNode, ghost s: set<RbNode>) returns (kid: RbNode?)
    requires g in s && p in s && g != p
    modifies g`left, g`right, p`left, p`right
    ensures g in old(Mem(s)) && p in old(Mem(s))
    ensures Mem(s) == Swung(old(Mem(s)), e, g, p) && kid == old(Mem(s))[p].Kid(!e)
  {
    hide Mem;
    MemAt(s, p);
    kid := if e then p.right else p.left;
    WriteKid(g, e, kid, s);
    WriteKid(p, !e, g, s);
  }

  /** rb_set_parent_color(n, q, RB_BLACK), or rb_set_parent(n, q), unless n is null. */
  method Hang(n: RbNode?, q: RbNode, paint: bool, ghost s: set<RbNode>)
    requires n != null ==> n in s
    modifies if n == null then {} else {n}
    ensures Mem(s) == Hung(old(Mem(s)), n, q, paint)
  {
    hide Mem;
    if n != null {
      MemAt(s, n);
      WriteParent(n, q, paint || n.black, s);
    }
  }

  /** __rb_rotate_set_parents. */
  method RotateSetParents(prev: RbNode, next: RbNode, root: RbRoot, black: bool, ghost s: set<RbNode>)
    requires prev in s && next in s && prev != next && (prev.parent != null ==> prev.parent in s)
    modifies root, s
    ensures prev in old(Mem(s)) && next in old(Mem(s))
    ensures Mem(s) == Reparented(old(Mem(s)), prev, next, black)
    ensures root.node == if old(prev.parent) == null then next else old(root.node)
  {
    hide Mem;
    var parent := prev.parent;
    MemAt(s, prev);
    WriteParent(next, parent, prev.black, s);
    WriteParent(prev, next, black, s);
    if parent != null {
      MemAt(s, parent);
      if parent.left == prev {
        WriteKid(parent, true, next, s);
      } else {
        WriteKid(parent, false, next, s);
      }
    } else {
      root.node := next;
    }
  }

  /** The rotate callback: next takes over the maximum of prev, and that of prev is computed again. */
  method AugmentRotate(prev: RbNode, next: RbNode, ghost s: set<RbNode>)
    requires prev in s && next in s && prev != next
    requires (prev.left != null ==> prev.left in s) && (prev.right != null ==> prev.right in s)
    modifies prev`aug, next`aug
    ensures prev in old(Mem(s)) && next in old(Mem(s))
    ensures Mem(s) == Summed(old(Mem(s)), prev, next)
  {
    hide Local, Mem;
    MemAt(s, prev);
    WriteAug(next, prev.aug, s);
    ComputeMaxAt(prev, s);
  }

  // ----- Rotations -----

  /** The same nodes in the same order. */
  predicate Same(t: Shape, t': Shape) {
    Nodes(t') == Nodes(t) && Inorder(t') == Inorder(t)
  }

  lemma {:induction false} RotateSame(e: bool, c: Ctx, x: Shape, p: RbNode, pb: bool, b: Shape, g: RbNode, gb: bool,
                                      u: Shape, pb': bool, gb': bool)
    ensures Same(Plug(c, Br(e, Br(e, x, p, pb, b), g, gb, u)), Plug(c, Br(e, x, p, pb', Br(e, b, g, gb', u))))
  {
    hide Plug, Br, Nodes, Inorder;
    ApartIs(e, c, x, p, pb, b, g, gb, u);
    ApartIs(e, c, x, p, pb', b, g, gb', u);
    TurnInorder(e, x, p, pb, b, g, gb, u, pb', gb');
    PlugOrder(c, Br(e, Br(e, x, p, pb, b), g, gb, u), Br(e, x, p, pb', Br(e, b, g, gb', u)));
  }

  lemma {:induction false} TwiceSame(e: bool, c: Ctx, a: Shape, p: RbNode, pb: bool, b: Shape, n: RbNode, nb: bool,
                                     d: Shape, g: RbNode, gb: bool, u: Shape, black: bool)
    ensures Same(Plug(c, Br(e, Br(e, a, p, pb, Br(e, b, n, nb, d)), g, gb, u)),
                 Plug(c, Br(e, Br(e, a, p, black, b), n, gb, Br(e, d, g, black, u))))
  {
    hide Plug, Br, In, Nodes, Inorder;
    var mid := In(e, c, g, gb, u);
    RotateSame(e, mid, a, p, black, b, n, nb, d, pb, nb);
    InPlug(e, c, g, gb, u, Br(e, a, p, pb, Br(e, b, n, nb, d)));
    InPlug(e, c, g, gb, u, Br(e, Br(e, a, p, black, b), n, nb, d));
    RotateSame(e, c, Br(e, a, p, black, b), n, nb, d, g, gb, u, gb, black);
  }

  /** Every cell of a rotation points into the tree. */
  ghost predicate Within(k: Cell, s: set<RbNode>) {
    (k.left != null ==> k.left in s) && (k.right != null ==> k.right in s) && (k.parent != null ==> k.parent in s)
  }

  lemma {:induction false} RotateSteps(m: Cells, e: bool, g: RbNode, p: RbNode, paint: bool, black: bool)
    requires Ready(m, e, g, p) && Lone(m, m[g].parent, g, p, m[p].Kid(!e)) && Within(m[g], m.Keys)
    requires Within(m[p], m.Keys)
    ensures var m1 := Handed(m, e, g, p, paint); m1.Keys == m.Keys && m1[g].parent == m[g].parent
    ensures var m2 := Reparented(Handed(m, e, g, p, paint), g, p, black); m2.Keys == m.Keys && Within(m2[g], m.Keys)
  {
    hide Handed, Reparented;
    HandedAt(m, e, g, p, paint);
    ReparentedAt(Handed(m, e, g, p, paint), g, p, black);
  }

  /** The writes of a rotation. */
  method Turn(e: bool, g: RbNode, p: RbNode, paint: bool, black: bool, root: RbRoot, ghost s: set<RbNode>)
    requires Ready(Mem(s), e, g, p) && Lone(Mem(s), Mem(s)[g].parent, g, p, Mem(s)[p].Kid(!e))
    requires Within(Mem(s)[g], s) && Within(Mem(s)[p], s)
    modifies root, s
    ensures g in old(Mem(s)) && p in old(Mem(s)) && Mem(s) == Rotated(old(Mem(s)), e, g, p, paint, black)
    ensures root.node == if old(g.parent) == null then p else old(root.node)
  {
    hide Mem, Swung, Hung, Reparented, Summed;
    MemKeys(s);
    ghost var m := Mem(s);
    MemAt(s, g);
    MemAt(s, p);
    RotateSteps(m, e, g, p, paint, black);
    var kid := Swing(e, g, p, s);
    Hang(kid, g, paint, s);
    MemAt(s, g);
    RotateSetParents(g, p, root, black, s);
    MemAt(s, g);
    AugmentRotate(g, p, s);
  }

  lemma {:induction false} MemKeys(s: set<RbNode>)
    ensures Mem(s).Keys == s
  {
  }

  lemma {:induction false} OuterMoves(c: Ctx, g: RbNode, p: RbNode, top: RbNode?)
    requires top == Outer(c, g)
    ensures Outer(c, p) == if HoleParent(c, null) == null then p else top
  {
  }

  /**
   The rotation that lifts p, the child of g on side e, into the place and colour of g.  It is
   case 3 of the insertion and cases 1 and 4 of the erasure.
   */
  method Rotate(e: bool, g: RbNode, p: RbNode, paint: bool, black: bool, root: RbRoot,
                ghost c: Ctx, ghost x: Shape, ghost pb: bool, ghost b: Shape, ghost gb: bool, ghost u: Shape)
    requires Sound(root, Plug(c, Br(e, Br(e, x, p, pb, b), g, gb, u))) && (paint ==> BlackTop(b))
    modifies root, Nodes(Plug(c, Br(e, Br(e, x, p, pb, b), g, gb, u)))
    ensures Sound(root, Plug(c, Br(e, x, p, gb, Br(e, b, g, black, u))))
    ensures Same(Plug(c, Br(e, Br(e, x, p, pb, b), g, gb, u)), Plug(c, Br(e, x, p, gb, Br(e, b, g, black, u))))
  {
    hide Sound, Plug, Br, Nodes, Mem, Good, Distinct, Apart, BlackTop, Rotated, Outer, Ready, Lone, Within;
    ghost var t, t' := Plug(c, Br(e, Br(e, x, p, pb, b), g, gb, u)), Plug(c, Br(e, x, p, gb, Br(e, b, g, black, u)));
    ghost var s := Nodes(t);
    ghost var m := Mem(s);
    SoundIs(root, t);
    ApartIs(e, c, x, p, pb, b, g, gb, u);
    ApartIs(e, c, x, p, gb, b, g, black, u);
    RotateBegins(e, c, x, p, pb, b, g, gb, u, m);
    MemAt(s, g);
    MemKeys(s);
    PlugTop(c, Br(e, Br(e, x, p, pb, b), g, gb, u));
    PlugTop(c, Br(e, x, p, gb, Br(e, b, g, black, u)));
    BrTop(e, Br(e, x, p, pb, b), g, gb, u);
    BrTop(e, x, p, gb, Br(e, b, g, black, u));
    OuterMoves(c, g, p, root.node);
    Turn(e, g, p, paint, black, root, s);
    RotateGood(e, c, x, p, pb, b, g, gb, u, paint, black, m);
    RotateSame(e, c, x, p, pb, b, g, gb, u, gb, black);
    SoundIs(root, t');
  }

  lemma {:induction false} RotateBegins(e: bool, c: Ctx, x: Shape, p: RbNode, pb: bool, b: Shape, g: RbNode, gb: bool,
                                        u: Shape, m: Cells)
    requires Good(Plug(c, Br(e, Br(e, x, p, pb, b), g, gb, u)), null, m) && Apart(c, g, p, x, b, u)
    ensures Ready(m, e, g, p) && Lone(m, m[g].parent, g, p, m[p].Kid(!e)) && m[g].parent == HoleParent(c, null)
    ensures Within(m[g], m.Keys) && Within(m[p], m.Keys)
  {
    hide Good, CtxGood, Local, Plug, Br, Distinct, CtxDistinct, Apart, Ready, Lone, MaxAt;
    RotateStart(e, c, x, p, pb, b, g, gb, u, m);
    RotateReady(e, c, x, p, b, g, u, m);
    TopIn(x);
    TopIn(b);
    TopIn(u);
    HoleIn(c);
    GoodNodes(x, p, m);
    GoodNodes(b, p, m);
    GoodNodes(u, g, m);
    CtxGoodNodes(c, g, null, m);
  }

  /** The writes of the first half of a double rotation. */
  method HalfTurn(e: bool, g: RbNode, p: RbNode, black: bool, ghost s: set<RbNode>)
    requires Ready(Mem(s), e, g, p) && Within(Mem(s)[g], s) && Within(Mem(s)[p], s)
    modifies s
    ensures g in old(Mem(s)) && p in old(Mem(s)) && Mem(s) == HalfRotated(old(Mem(s)), e, g, p, black)
  {
    hide Mem, Swung, Hung, Summed;
    MemKeys(s);
    ghost var m := Mem(s);
    HandedAt(m, e, g, p, true);
    var kid := Swing(e, g, p, s);
    Hang(kid, g, true, s);
    WriteParent(g, p, black, s);
    MemAt(s, g);
    AugmentRotate(g, p, s);
  }

  /** What the second half of a double rotation finds. */
  lemma {:induction false} TwiceBegins(e: bool, c: Ctx, a: Shape, p: RbNode, pb: bool, b: Shape, n: RbNode, nb: bool,
                                       d: Shape, g: RbNode, gb: bool, u: Shape, black: bool, m: Cells)
    requires Good(Plug(c, Br(e, Br(e, a, p, pb, Br(e, b, n, nb, d)), g, gb, u)), null, m)
    requires Apart(c, g, p, a, Br(e, b, n, nb, d), u) && BlackTop(b)
    ensures p in m && n in m && Ready(m, !e, p, n) && Within(m[p], m.Keys) && Within(m[n], m.Keys)
    ensures var m' := HalfRotated(m, !e, p, n, black);
            && m'.Keys == m.Keys
            && Ready(m', e, g, n) && Lone(m', m'[g].parent, g, n, m'[n].Kid(!e)) && m'[g].parent == HoleParent(c, null)
            && Within(m'[g], m.Keys) && Within(m'[n], m.Keys)
  {
    hide Good, CtxGood, Local, Plug, Br, Distinct, CtxDistinct, Apart, Ready, Lone, MaxAt, BlackTop, HalfRotated, Nodes,
         CtxNodes;
    HalfCells(e, c, a, p, pb, b, n, nb, d, g, gb, u, black, m);
    ApartTwice(e, c, a, p, black, b, n, nb, d, g, u);
    RotateBegins(e, c, a, p, pb, Br(e, b, n, nb, d), g, gb, u, m);
    var m' := HalfRotated(m, !e, p, n, black);
    HalfPieces(e, c, a, p, pb, b, n, nb, d, g, u, m, m');
    BrTop(e, a, p, black, b);
    RotateReady(e, c, Br(e, a, p, black, b), n, d, g, u, m');
    TopIn(d);
    GoodNodes(d, n, m);
    TopIn(b);
    GoodNodes(b, n, m);
    InnerCell(e, c, a, p, pb, b, n, nb, d, g, gb, u, m);
  }

  lemma {:induction false} InnerCell(e: bool, c: Ctx, a: Shape, p: RbNode, pb: bool, b: Shape, n: RbNode, nb: bool,
                                     d: Shape, g: RbNode, gb: bool, u: Shape, m: Cells)
    requires Good(Plug(c, Br(e, Br(e, a, p, pb, Br(e, b, n, nb, d)), g, gb, u)), null, m)
    requires Apart(c, g, p, a, Br(e, b, n, nb, d), u)
    ensures p in m && n in m && Good(b, n, m) && Good(d, n, m)
    ensures m[n] == Seat(e, Top(b), Top(d), p, nb, Local(n.val, MaxAt(m, Top(b)), MaxAt(m, Top(d))))
  {
    hide Good, CtxGood, Local, Plug, Br, Apart, Seat, MaxAt;
    RotateStart(e, c, a, p, pb, Br(e, b, n, nb, d), g, gb, u, m);
    BrGood(e, b, n, nb, d, p, m);
  }

  /**
   The double rotation that lifts n, the inner grandchild of g, into the place and colour of g:
   cases 2 and 3 of the insertion, cases 3 and 4 of the erasure.  The program sets the parent of
   p before the second rotation in one and within it in the other.
   */
  method RotateTwice(e: bool, g: RbNode, p: RbNode, n: RbNode, paint: bool, black: bool, root: RbRoot, ghost c: Ctx,
                     ghost a: Shape, ghost pb: bool, ghost b: Shape, ghost nb: bool, ghost d: Shape, ghost gb: bool,
                     ghost u: Shape)
    requires Sound(root, Plug(c, Br(e, Br(e, a, p, pb, Br(e, b, n, nb, d)), g, gb, u))) && BlackTop(b)
    requires (paint ==> BlackTop(d))
    modifies root, Nodes(Plug(c, Br(e, Br(e, a, p, pb, Br(e, b, n, nb, d)), g, gb, u)))
    ensures Sound(root, Plug(c, Br(e, Br(e, a, p, black, b), n, gb, Br(e, d, g, black, u))))
    ensures Same(Plug(c, Br(e, Br(e, a, p, pb, Br(e, b, n, nb, d)), g, gb, u)),
                 Plug(c, Br(e, Br(e, a, p, black, b), n, gb, Br(e, d, g, black, u))))
  {
    hide Sound, Plug, Br, Nodes, CtxNodes, Mem, Good, Distinct, Apart, BlackTop, Rotated, HalfRotated, Outer, Ready,
         Lone, Within;
    ghost var q, q' := Br(e, b, n, nb, d), Br(e, a, p, black, b);
    ghost var t := Plug(c, Br(e, Br(e, a, p, pb, q), g, gb, u));
    ghost var t' := Plug(c, Br(e, q', n, gb, Br(e, d, g, black, u)));
    ghost var s := Nodes(t);
    ghost var m := Mem(s);
    SoundIs(root, t);
    ApartIs(e, c, a, p, pb, q, g, gb, u);
    ApartIs(e, c, q', n, gb, d, g, black, u);
    ApartTwice(e, c, a, p, black, b, n, nb, d, g, u);
    TwiceSame(e, c, a, p, pb, b, n, nb, d, g, gb, u, black);
    assert Nodes(t') == s;
    TwiceBegins(e, c, a, p, pb, b, n, nb, d, g, gb, u, black, m);
    MemKeys(s);
    PlugTop(c, Br(e, Br(e, a, p, pb, q), g, gb, u));
    PlugTop(c, Br(e, q', n, gb, Br(e, d, g, black, u)));
    BrTop(e, Br(e, a, p, pb, q), g, gb, u);
    BrTop(e, q', n, gb, Br(e, d, g, black, u));
    OuterMoves(c, g, n, root.node);
    HalfTurn(!e, p, n, black, s);
    MemAt(s, g);
    Turn(e, g, n, paint, black, root, s);
    TwiceGood(e, c, a, p, pb, b, n, nb, d, g, gb, u, paint, black, m);
    SoundIs(root, t');
  }

  // ----- Single nodes -----

  /** What the fields of a node in the tree are. */
  lemma {:induction false} See(root: RbRoot, c: Ctx, e: bool, near: Shape, n: RbNode, b: bool, far: Shape)
    requires Sound(root, Plug(c, Br(e, near, n, b, far)))
    ensures n.parent == HoleParent(c, null) && n.black == b && Near(n, e) == Top(near) && Near(n, !e) == Top(far)
    ensures n in Nodes(Plug(c, Br(e, near, n, b, far)))
    ensures near.Branch? ==> near.node != n && Top(far) != near.node
    ensures far.Branch? ==> far.node != n && Top(near) != far.node
  {
    hide Linked, CtxLinked, AugOk, Plug, Br, Distinct, CtxDistinct, Near;
    var t := Br(e, near, n, b, far);
    PlugLinked(c, t, null);
    BrLinked(e, near, n, b, far, HoleParent(c, null));
    PlugDistinct(c, t);
    PlugNodes(c, t);
    BrNodes(e, near, n, b, far);
    TopIn(near);
    TopIn(far);
  }

  lemma {:induction false} PaintedGood(c: Ctx, t: Shape, black: bool, m: Cells)
    requires t.Branch? && Good(Plug(c, t), null, m) && Distinct(Plug(c, t))
    ensures t.node in m && m[t.node].parent == HoleParent(c, null)
    ensures Good(Plug(c, Paint(t, black)), null, m[t.node := m[t.node].(black := black)])
  {
    hide Plug, Nodes, CtxNodes;
    PlugGood(c, t, null, m);
    PlugDistinct(c, t);
    var m' := m[t.node := m[t.node].(black := black)];
    BranchNodes(t);
    GoodNodes(t, HoleParent(c, null), m);
    CtxGoodNodes(c, t.node, null, m);
    GoodKept(t.left, t.node, m, m');
    GoodKept(t.right, t.node, m, m');
    CtxKept(c, t.node, null, m, m');
    PlugGood(c, Paint(t, black), null, m');
  }

  lemma {:induction false} BranchNodes(t: Shape)
    requires t.Branch?
    ensures Nodes(t) == Nodes(t.left) + {t.node} + Nodes(t.right)
  {
  }

  lemma {:induction false} PaintedSame(c: Ctx, t: Shape, black: bool)
    ensures Nodes(Plug(c, Paint(t, black))) == Nodes(Plug(c, t)) && Top(Plug(c, Paint(t, black))) == Top(Plug(c, t))
    ensures Distinct(Plug(c, Paint(t, black))) <==> Distinct(Plug(c, t))
    ensures Inorder(Plug(c, Paint(t, black))) == Inorder(Plug(c, t))
  {
    hide Plug;
    PlugNodes(c, t);
    PlugNodes(c, Paint(t, black));
    PlugTop(c, t);
    PlugTop(c, Paint(t, black));
    PlugDistinct(c, t);
    PlugDistinct(c, Paint(t, black));
    PlugOrder(c, t, Paint(t, black));
  }

  /** rb_set_parent_color with the parent that the node has. */
  method Recolour(n: RbNode, q: RbNode?, black: bool, root: RbRoot, ghost c: Ctx, ghost t: Shape)
    requires t.Branch? && n == t.node && q == HoleParent(c, null) && Sound(root, Plug(c, t))
    modifies Nodes(Plug(c, t))
    ensures Sound(root, Plug(c, Paint(t, black)))
    ensures Same(Plug(c, t), Plug(c, Paint(t, black)))
  {
    hide Sound, Plug, Nodes, Mem, Good, Distinct, Inorder;
    ghost var s := Nodes(Plug(c, t));
    ghost var m := Mem(s);
    SoundIs(root, Plug(c, t));
    PaintedGood(c, t, black, m);
    PaintedSame(c, t, black);
    PlugNodes(c, t);
    TopIn(t);
    WriteParent(n, q, black, s);
    SoundIs(root, Plug(c, Paint(t, black)));
  }
}
