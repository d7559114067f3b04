/**
 The fields of a set of nodes as a value: what the writes of a rotation do to them, and that
 the tree they describe is the rotated one.
 */
module RbCells {
  import opened RbShape
  import opened RbLinks
  import opened RbTurn

  datatype Cell = Cell(left: RbNode?, right: RbNode?, parent: RbNode?, black: bool, aug: int) {
    function Kid(e: bool): RbNode? {
      if e then left else right
    }

    function WithKid(e: bool, kid: RbNode?): Cell {
      if e then this.(left := kid) else this.(right := kid)
    }

    function Repoint(prev: RbNode, next: RbNode): Cell {
      if left == prev then this.(left := next) else this.(right := next)
    }
  }

  type Cells = map<RbNode, Cell>

  /** The cell of a node with `near` on side e and `far` on the other. */
  function Seat(e: bool, near: RbNode?, far: RbNode?, parent: RbNode?, black: bool, aug: int): Cell {
    if e then Cell(near, far, parent, black, aug) else Cell(far, near, parent, black, aug)
  }

  ghost function CellOf(n: RbNode): Cell
    reads n
  {
    Cell(n.left, n.right, n.parent, n.black, n.aug)
  }

  ghost function Mem(s: set<RbNode>): Cells
    reads s
  {
    map n | n in s :: CellOf(n)
  }

  // ----- Trees described by cells -----

  function MaxAt(m: Cells, n: RbNode?): Maybe {
    if n == null || n !in m then None else Some(m[n].aug)
  }

  predicate Good(t: Shape, q: RbNode?, m: Cells) {
    t.Branch? ==>
    && t.node in m
    && m[t.node] == Seat(true, Top(t.left), Top(t.right), q, t.black,
                         Local(t.node.val, MaxAt(m, Top(t.left)), MaxAt(m, Top(t.right))))
    && Good(t.left, t.node, m) && Good(t.right, t.node, m)
  }

  predicate CtxGood(c: Ctx, top: RbNode?, base: RbNode?, m: Cells) {
    !c.Hole? ==>
    && c.node in m
    && m[c.node] == Seat(c.Left?, top, Top(Side(c)), HoleParent(c.up, base), c.black,
                         Local(c.node.val, MaxAt(m, top), MaxAt(m, Top(Side(c)))))
    && Good(Side(c), c.node, m) && CtxGood(c.up, c.node, base, m)
  }

  lemma {:induction false} PlugGood(c: Ctx, t: Shape, base: RbNode?, m: Cells)
    ensures Good(Plug(c, t), base, m) <==> Good(t, HoleParent(c, base), m) && CtxGood(c, Top(t), base, m)
    decreases c
  {
    if !c.Hole? { PlugGood(c.up, Wrap(c, t), base, m); }
  }

  lemma {:induction false} BrGood(e: bool, near: Shape, n: RbNode, b: bool, far: Shape, q: RbNode?, m: Cells)
    ensures Good(Br(e, near, n, b, far), q, m) <==>
              && n in m
              && m[n] == Seat(e, Top(near), Top(far), q, b, Local(n.val, MaxAt(m, Top(near)), MaxAt(m, Top(far))))
              && Good(near, n, m) && Good(far, n, m)
  {
  }

  /** The cells say what the fields say. */
  lemma {:induction false} GoodIs(t: Shape, q: RbNode?, s: set<RbNode>)
    requires Nodes(t) <= s
    ensures Good(t, q, Mem(s)) <==> Linked(t, q) && AugOk(t)
  {
    hide Local;
    if t.Branch? {
      GoodIs(t.left, t.node, s);
      GoodIs(t.right, t.node, s);
      MaxIs(t.left, s);
      MaxIs(t.right, s);
      assert Mem(s)[t.node] == CellOf(t.node);
    }
  }

  lemma {:induction false} MaxIs(t: Shape, s: set<RbNode>)
    requires Nodes(t) <= s
    ensures MaxAt(Mem(s), Top(t)) == AugTop(t)
  {
    if t.Branch? { assert t.node in Nodes(t); }
  }

  // ----- What a change of cells leaves alone -----

  lemma {:induction false} GoodKept(t: Shape, q: RbNode?, m: Cells, m': Cells)
    requires Good(t, q, m) && forall n | n in Nodes(t) :: n in m && n in m' && m'[n] == m[n]
    ensures Good(t, q, m') && MaxAt(m', Top(t)) == MaxAt(m, Top(t))
  {
    hide Local;
    if t.Branch? {
      GoodKept(t.left, t.node, m, m');
      GoodKept(t.right, t.node, m, m');
      assert t.node in Nodes(t);
    }
  }

  /** A subtree whose root gets a new parent, and is painted black where it was black already. */
  lemma {:induction false} GoodHung(t: Shape, q: RbNode?, q': RbNode?, paint: bool, m: Cells, m': Cells)
    requires Good(t, q, m) && Distinct(t) && (paint ==> BlackTop(t))
    requires forall n | n in Nodes(t) && n != Top(t) :: n in m && n in m' && m'[n] == m[n]
    requires t.Branch? ==>
               && t.node in m && t.node in m'
               && m'[t.node] == m[t.node].(parent := q', black := paint || m[t.node].black)
    ensures Good(t, q', m') && MaxAt(m', Top(t)) == MaxAt(m, Top(t))
  {
    hide Local;
    if t.Branch? {
      GoodKept(t.left, t.node, m, m');
      GoodKept(t.right, t.node, m, m');
    }
  }

  /** A context whose hole gets a new filling with the same maximum. */
  lemma {:induction false} CtxMoved(c: Ctx, prev: RbNode, next: RbNode, base: RbNode?, m: Cells, m': Cells)
    requires CtxGood(c, prev, base, m) && CtxDistinct(c) && prev !in CtxNodes(c)
    requires MaxAt(m', next) == MaxAt(m, prev)
    requires forall n | n in CtxNodes(c) && n != HoleParent(c, base) :: n in m && n in m' && m'[n] == m[n]
    requires !c.Hole? ==> c.node in m && c.node in m' && m'[c.node] == m[c.node].Repoint(prev, next)
    ensures CtxGood(c, next, base, m')
  {
    hide Local;
    if !c.Hole? {
      assert forall n | n in Nodes(Side(c)) :: n in CtxNodes(c) && n != c.node;
      assert Top(Side(c)) != prev by {
        if Side(c).Branch? { assert Side(c).node in Nodes(Side(c)); }
      }
      GoodKept(Side(c), c.node, m, m');
      CtxKept(c.up, c.node, base, m, m');
    }
  }

  lemma {:induction false} CtxKept(c: Ctx, top: RbNode?, base: RbNode?, m: Cells, m': Cells)
    requires CtxGood(c, top, base, m) && MaxAt(m', top) == MaxAt(m, top)
    requires forall n | n in CtxNodes(c) :: n in m && n in m' && m'[n] == m[n]
    ensures CtxGood(c, top, base, m')
  {
    hide Local;
    if !c.Hole? {
      assert c.node in CtxNodes(c);
      GoodKept(Side(c), c.node, m, m');
      CtxKept(c.up, c.node, base, m, m');
    }
  }

  // ----- The writes of a rotation -----

  /** g takes over p's child on the other side, and p takes g instead. */
  function Swung(m: Cells, e: bool, g: RbNode, p: RbNode): Cells
    requires g in m && p in m
  {
    m[g := m[g].WithKid(e, m[p].Kid(!e))][p := m[p].WithKid(!e, g)]
  }

  function Hung(m: Cells, n: RbNode?, q: RbNode, paint: bool): Cells {
    if n == null || n !in m then m else m[n := m[n].(parent := q, black := paint || m[n].black)]
  }

  /** The children and the child's parent. */
  function Handed(m: Cells, e: bool, g: RbNode, p: RbNode, paint: bool): Cells
    requires g in m && p in m
  {
    Hung(Swung(m, e, g, p), m[p].Kid(!e), g, paint)
  }

  /** __rb_rotate_set_parents. */
  function Reparented(m: Cells, prev: RbNode, next: RbNode, black: bool): Cells
    requires prev in m && next in m
  {
    var parent := m[prev].parent;
    var m' := m[next := m[next].(parent := parent, black := m[prev].black)][prev :=
        m[prev].(parent := next, black := black)];
    if parent == null || parent !in m' then m' else m'[parent := m'[parent].Repoint(prev, next)]
  }

  /** The rotate callback. */
  function Summed(m: Cells, prev: RbNode, next: RbNode): Cells
    requires prev in m && next in m
  {
    var m' := m[next := m[next].(aug := m[prev].aug)];
    m'[prev := m'[prev].(aug := Local(prev.val, MaxAt(m', m'[prev].left), MaxAt(m', m'[prev].right)))]
  }

  /** The rotation that lifts p, the child of g on side e. */
  function Rotated(m: Cells, e: bool, g: RbNode, p: RbNode, paint: bool, black: bool): Cells
    requires g in m && p in m
  {
    Summed(Reparented(Handed(m, e, g, p, paint), g, p, black), g, p)
  }

  /** The first half of a double rotation, which leaves the parent of the lifted node alone. */
  function HalfRotated(m: Cells, e: bool, g: RbNode, p: RbNode, black: bool): Cells
    requires g in m && p in m
  {
    var m' := Handed(m, e, g, p, true);
    Summed(m'[g := m'[g].(parent := p, black := black)], g, p)
  }

  /** The nodes that a rotation touches are different ones. */
  predicate Ready(m: Cells, e: bool, g: RbNode, p: RbNode) {
    && g in m && p in m && g != p
    && m[p].Kid(!e) != g && m[p].Kid(!e) != p && m[g].Kid(!e) != g && m[g].Kid(!e) != p
  }

  predicate Lone(m: Cells, parent: RbNode?, g: RbNode, p: RbNode, kid: RbNode?) {
    parent != null ==> parent in m && parent != g && parent != p && parent != kid
  }

  lemma {:induction false} HandedAt(m: Cells, e: bool, g: RbNode, p: RbNode, paint: bool)
    requires Ready(m, e, g, p)
    ensures var m', kid := Handed(m, e, g, p, paint), m[p].Kid(!e);
            && m'.Keys == m.Keys
            && m'[p] == m[p].WithKid(!e, g) && m'[g] == m[g].WithKid(e, kid)
            && (kid != null && kid in m ==> m'[kid] == m[kid].(parent := g, black := paint || m[kid].black))
            && (forall n | n in m && n != g && n != p && n != kid :: m'[n] == m[n])
            && (forall n | n in m :: m'[n].aug == m[n].aug)
  {
  }

  lemma {:induction false} ReparentedAt(m: Cells, prev: RbNode, next: RbNode, black: bool)
    requires prev in m && next in m && prev != next
    requires m[prev].parent != null ==> m[prev].parent in m && m[prev].parent != prev && m[prev].parent != next
    ensures var m', parent := Reparented(m, prev, next, black), m[prev].parent;
            && m'.Keys == m.Keys
            && m'[next] == m[next].(parent := parent, black := m[prev].black)
            && m'[prev] == m[prev].(parent := next, black := black)
            && (parent != null ==> m'[parent] == m[parent].Repoint(prev, next))
            && (forall n | n in m && n != prev && n != next && n != parent :: m'[n] == m[n])
            && (forall n | n in m :: m'[n].aug == m[n].aug)
  {
  }

  lemma {:induction false} SummedAt(m: Cells, e: bool, prev: RbNode, next: RbNode)
    requires prev in m && next in m && prev != next
    requires m[prev].left != prev && m[prev].left != next && m[prev].right != prev && m[prev].right != next
    ensures var m' := Summed(m, prev, next);
            && m'.Keys == m.Keys
            && m'[next] == m[next].(aug := m[prev].aug)
            && m'[prev] == m[prev].(aug := Local(prev.val, MaxAt(m, m[prev].Kid(e)), MaxAt(m, m[prev].Kid(!e))))
            && (forall n | n in m && n != prev && n != next :: m'[n] == m[n])
  {
    LocalSwap(prev.val, MaxAt(m, m[prev].left), MaxAt(m, m[prev].right));
    hide Local;
  }

  lemma {:induction false} MaxSame(m: Cells, m': Cells, n: RbNode?)
    requires m'.Keys == m.Keys && forall n | n in m :: m'[n].aug == m[n].aug
    ensures MaxAt(m', n) == MaxAt(m, n)
  {
  }

  /** What the rotation leaves in each cell. */
  lemma {:induction false} RotatedAt(m: Cells, e: bool, g: RbNode, p: RbNode, paint: bool, black: bool)
    requires Ready(m, e, g, p) && Lone(m, m[g].parent, g, p, m[p].Kid(!e))
    ensures var m', kid, parent := Rotated(m, e, g, p, paint, black), m[p].Kid(!e), m[g].parent;
            && m'.Keys == m.Keys
            && m'[p] == m[p].WithKid(!e, g).(parent := parent, black := m[g].black, aug := m[g].aug)
            && m'[g] == m[g].WithKid(e, kid).(parent := p, black := black, aug :=
                                              Local(g.val, MaxAt(m, kid), MaxAt(m, m[g].Kid(!e))))
            && (kid != null && kid in m ==> m'[kid] == m[kid].(parent := g, black := paint || m[kid].black))
            && (parent != null ==> m'[parent] == m[parent].Repoint(g, p))
            && forall n | n in m && n != g && n != p && n != kid && n != parent :: m'[n] == m[n]
  {
    hide Local, Swung, Hung, Handed, Reparented, Summed, MaxAt;
    var kid, far := m[p].Kid(!e), m[g].Kid(!e);
    var m1 := Handed(m, e, g, p, paint);
    HandedAt(m, e, g, p, paint);
    var m2 := Reparented(m1, g, p, black);
    ReparentedAt(m1, g, p, black);
    SummedAt(m2, e, g, p);
    MaxSame(m, m2, kid);
    MaxSame(m, m2, far);
  }

  lemma {:induction false} HalfRotatedAt(m: Cells, e: bool, g: RbNode, p: RbNode, black: bool)
    requires Ready(m, e, g, p)
    ensures var m', kid := HalfRotated(m, e, g, p, black), m[p].Kid(!e);
            && m'.Keys == m.Keys
            && m'[p] == m[p].WithKid(!e, g).(aug := m[g].aug)
            && m'[g] == m[g].WithKid(e, kid).(parent := p, black := black, aug :=
                                              Local(g.val, MaxAt(m, kid), MaxAt(m, m[g].Kid(!e))))
            && (kid != null && kid in m ==> m'[kid] == m[kid].(parent := g, black := true))
            && forall n | n in m && n != g && n != p && n != kid :: m'[n] == m[n]
  {
    hide Local, Swung, Hung, Handed, Summed, MaxAt;
    var kid, far := m[p].Kid(!e), m[g].Kid(!e);
    HandedAt(m, e, g, p, true);
    var m1 := Handed(m, e, g, p, true);
    var m2 := m1[g := m1[g].(parent := p, black := black)];
    SummedAt(m2, e, g, p);
    MaxSame(m, m2, kid);
    MaxSame(m, m2, far);
  }

  // ----- Rotated trees -----

  /** Three subtrees, two nodes and a context that share nothing. */
  predicate Apart(c: Ctx, g: RbNode, p: RbNode, x: Shape, b: Shape, u: Shape) {
    && CtxDistinct(c) && Distinct(x) && Distinct(b) && Distinct(u) && g != p
    && g !in Nodes(x) && g !in Nodes(b) && g !in Nodes(u) && g !in CtxNodes(c)
    && p !in Nodes(x) && p !in Nodes(b) && p !in Nodes(u) && p !in CtxNodes(c)
    && Nodes(x) !! Nodes(b) && Nodes(x) !! Nodes(u) && Nodes(b) !! Nodes(u)
    && Nodes(x) !! CtxNodes(c) && Nodes(b) !! CtxNodes(c) && Nodes(u) !! CtxNodes(c)
  }

  lemma {:induction false} ApartIs(e: bool, c: Ctx, x: Shape, p: RbNode, pb: bool, b: Shape, g: RbNode, gb: bool,
                                   u: Shape)
    ensures Distinct(Plug(c, Br(e, Br(e, x, p, pb, b), g, gb, u))) <==> Apart(c, g, p, x, b, u)
    ensures Distinct(Plug(c, Br(e, x, p, pb, Br(e, b, g, gb, u)))) <==> Apart(c, g, p, x, b, u)
    ensures Nodes(Plug(c, Br(e, Br(e, x, p, pb, b), g, gb, u))) == CtxNodes(c) + Nodes(x) + Nodes(b) + Nodes(u) + {g, p}
    ensures Nodes(Plug(c, Br(e, x, p, pb, Br(e, b, g, gb, u)))) == CtxNodes(c) + Nodes(x) + Nodes(b) + Nodes(u) + {g, p}
  {
    hide Distinct, CtxDistinct, Nodes, CtxNodes, Plug, Br;
    BrNodes(e, x, p, pb, b);
    BrNodes(e, Br(e, x, p, pb, b), g, gb, u);
    BrNodes(e, b, g, gb, u);
    BrNodes(e, x, p, pb, Br(e, b, g, gb, u));
    PlugDistinct(c, Br(e, Br(e, x, p, pb, b), g, gb, u));
    PlugDistinct(c, Br(e, x, p, pb, Br(e, b, g, gb, u)));
    PlugNodes(c, Br(e, Br(e, x, p, pb, b), g, gb, u));
    PlugNodes(c, Br(e, x, p, pb, Br(e, b, g, gb, u)));
  }

  lemma {:induction false} TopIn(t: Shape)
    ensures t.Branch? ==> t.node in Nodes(t)
  {
  }

  lemma {:induction false} HoleIn(c: Ctx)
    ensures !c.Hole? ==> c.node in CtxNodes(c)
  {
  }

  /** The cells around a node and its child. */
  lemma {:induction false} RotateStart(e: bool, c: Ctx, x: Shape, p: RbNode, pb: bool, b: Shape, g: RbNode, gb: bool,
                                       u: Shape, m: Cells)
    requires Good(Plug(c, Br(e, Br(e, x, p, pb, b), g, gb, u)), null, m) && Apart(c, g, p, x, b, u)
    ensures g in m && p in m
    ensures m[p] == Seat(e, Top(x), Top(b), g, pb, Local(p.val, MaxAt(m, Top(x)), MaxAt(m, Top(b))))
    ensures m[g] == Seat(e, p, Top(u), HoleParent(c, null), gb, Local(g.val, Some(m[p].aug), MaxAt(m, Top(u))))
    ensures Good(x, p, m) && Good(b, p, m) && Good(u, g, m) && CtxGood(c, g, null, m)
  {
    hide Good, CtxGood, Local, Plug, Br, Apart, Nodes, CtxNodes, Seat;
    var q := Br(e, x, p, pb, b);
    var t := Br(e, q, g, gb, u);
    BrTop(e, x, p, pb, b);
    BrTop(e, q, g, gb, u);
    PlugGood(c, t, null, m);
    BrGood(e, q, g, gb, u, HoleParent(c, null), m);
    BrGood(e, x, p, pb, b, g, m);
  }

  lemma {:induction false} BrTop(e: bool, near: Shape, n: RbNode, b: bool, far: Shape)
    ensures Top(Br(e, near, n, b, far)) == n
  {
  }

  /** Every node of a good tree has a cell. */
  lemma {:induction false} GoodNodes(t: Shape, q: RbNode?, m: Cells)
    requires Good(t, q, m)
    ensures Nodes(t) <= m.Keys
  {
    if t.Branch? {
      GoodNodes(t.left, t.node, m);
      GoodNodes(t.right, t.node, m);
    }
  }

  lemma {:induction false} CtxGoodNodes(c: Ctx, top: RbNode?, base: RbNode?, m: Cells)
    requires CtxGood(c, top, base, m)
    ensures CtxNodes(c) <= m.Keys
  {
    if !c.Hole? {
      GoodNodes(Side(c), c.node, m);
      CtxGoodNodes(c.up, c.node, base, m);
    }
  }

  lemma {:induction false} SeatIs(e: bool, near: RbNode?, far: RbNode?, parent: RbNode?, black: bool, aug: int)
    ensures var k := Seat(e, near, far, parent, black, aug);
            k.Kid(e) == near && k.Kid(!e) == far && k.parent == parent && k.black == black && k.aug == aug
  {
  }

  lemma {:induction false} Reseat(k: Cell, e: bool, kid: RbNode?, q: RbNode?, b: bool, a: int)
    ensures k.WithKid(e, kid).(parent := q, black := b, aug := a) == Seat(e, kid, k.Kid(!e), q, b, a)
    ensures k.WithKid(!e, kid).(parent := q, black := b, aug := a) == Seat(e, k.Kid(e), kid, q, b, a)
  {
  }

  /** A rotation can start. */
  lemma {:induction false} RotateReady(e: bool, c: Ctx, x: Shape, p: RbNode, b: Shape, g: RbNode, u: Shape, m: Cells)
    requires Apart(c, g, p, x, b, u) && g in m && p in m
    requires m[p].Kid(!e) == Top(b) && m[g].Kid(!e) == Top(u) && m[g].parent == HoleParent(c, null)
    requires CtxGood(c, g, null, m)
    ensures Ready(m, e, g, p) && Lone(m, m[g].parent, g, p, m[p].Kid(!e))
  {
    hide Distinct, CtxDistinct, CtxGood;
    TopIn(b);
    TopIn(u);
    HoleIn(c);
    CtxGoodNodes(c, g, null, m);
  }

  /** The pieces after the rotation. */
  lemma {:induction false} RotatePieces(c: Ctx, x: Shape, p: RbNode, b: Shape, g: RbNode, u: Shape, paint: bool,
                                        m: Cells, m': Cells)
    requires Apart(c, g, p, x, b, u) && (paint ==> BlackTop(b))
    requires Good(x, p, m) && Good(b, p, m) && Good(u, g, m)
    requires b.Branch? && b.node in m ==>
               && b.node in m'
               && m'[b.node] == m[b.node].(parent := g, black := paint || m[b.node].black)
    requires forall n | n in m && n != g && n != p && n != Top(b) && n != HoleParent(c, null) ::
               && n in m'
               && m'[n] == m[n]
    ensures Good(x, p, m') && MaxAt(m', Top(x)) == MaxAt(m, Top(x))
    ensures Good(b, g, m') && MaxAt(m', Top(b)) == MaxAt(m, Top(b))
    ensures Good(u, g, m') && MaxAt(m', Top(u)) == MaxAt(m, Top(u))
  {
    hide Distinct, CtxDistinct, Good, Nodes, CtxNodes, BlackTop, MaxAt;
    TopIn(b);
    HoleIn(c);
    GoodNodes(x, p, m);
    GoodNodes(b, p, m);
    GoodNodes(u, g, m);
    GoodKept(x, p, m, m');
    GoodHung(b, p, g, paint, m, m');
    GoodKept(u, g, m, m');
  }

  lemma {:induction false} RotateAround(c: Ctx, x: Shape, p: RbNode, b: Shape, g: RbNode, u: Shape, m: Cells, m': Cells)
    requires Apart(c, g, p, x, b, u) && CtxGood(c, g, null, m) && MaxAt(m', p) == MaxAt(m, g)
    requires !c.Hole? && c.node in m ==> c.node in m' && m'[c.node] == m[c.node].Repoint(g, p)
    requires forall n | n in m && n != g && n != p && n != Top(b) && n != HoleParent(c, null) ::
               && n in m'
               && m'[n] == m[n]
    ensures CtxGood(c, p, null, m')
  {
    hide Distinct, CtxDistinct, CtxGood, Nodes, CtxNodes, MaxAt;
    TopIn(b);
    HoleIn(c);
    CtxGoodNodes(c, g, null, m);
    CtxMoved(c, g, p, null, m, m');
  }

  lemma {:induction false} RotateEnd(e: bool, c: Ctx, x: Shape, p: RbNode, b: Shape, g: RbNode, gb: bool, u: Shape,
                                     black: bool, m: Cells)
    requires g in m && p in m && CtxGood(c, p, null, m) && Good(x, p, m) && Good(b, g, m) && Good(u, g, m)
    requires m[g] == Seat(e, Top(b), Top(u), p, black, Local(g.val, MaxAt(m, Top(b)), MaxAt(m, Top(u))))
    requires m[p] == Seat(e, Top(x), g, HoleParent(c, null), gb, Local(p.val, MaxAt(m, Top(x)), Some(m[g].aug)))
    ensures Good(Plug(c, Br(e, x, p, gb, Br(e, b, g, black, u))), null, m)
  {
    hide Good, CtxGood, Local, Plug, Br, Nodes, CtxNodes, Seat;
    var q := Br(e, b, g, black, u);
    BrTop(e, b, g, black, u);
    BrTop(e, x, p, gb, q);
    BrGood(e, b, g, black, u, p, m);
    BrGood(e, x, p, gb, q, HoleParent(c, null), m);
    PlugGood(c, Br(e, x, p, gb, q), null, m);
  }

  /** A rotation whose lifted node may name any parent. */
  lemma {:induction false} TurnCells(e: bool, c: Ctx, x: Shape, p: RbNode, b: Shape, g: RbNode, gb: bool, u: Shape,
                                     paint: bool, black: bool, m: Cells)
    requires Apart(c, g, p, x, b, u) && (paint ==> BlackTop(b)) && g in m && p in m
    requires m[p].Kid(e) == Top(x) && m[p].Kid(!e) == Top(b)
    requires m[g].Kid(!e) == Top(u) && m[g].parent == HoleParent(c, null) && m[g].black == gb
    requires m[g].aug == Local(p.val, MaxAt(m, Top(x)), Some(Local(g.val, MaxAt(m, Top(b)), MaxAt(m, Top(u)))))
    requires Good(x, p, m) && Good(b, p, m) && Good(u, g, m) && CtxGood(c, g, null, m)
    ensures Good(Plug(c, Br(e, x, p, gb, Br(e, b, g, black, u))), null, Rotated(m, e, g, p, paint, black))
  {
    hide Good, CtxGood, Local, Plug, Br, Nodes, CtxNodes, Seat, Rotated, Distinct, CtxDistinct, Apart, BlackTop, Ready,
         Lone;
    RotateReady(e, c, x, p, b, g, u, m);
    var m' := Rotated(m, e, g, p, paint, black);
    RotatedAt(m, e, g, p, paint, black);
    RotatePieces(c, x, p, b, g, u, paint, m, m');
    RotateAround(c, x, p, b, g, u, m, m');
    Reseat(m[g], e, Top(b), p, black, m'[g].aug);
    Reseat(m[p], e, g, HoleParent(c, null), gb, m'[p].aug);
    RotateEnd(e, c, x, p, b, g, gb, u, black, m');
  }

  /** The rotated cells describe the rotated tree. */
  lemma {:induction false} RotateGood(e: bool, c: Ctx, x: Shape, p: RbNode, pb: bool, b: Shape, g: RbNode, gb: bool,
                                      u: Shape, paint: bool, black: bool, m: Cells)
    requires Good(Plug(c, Br(e, Br(e, x, p, pb, b), g, gb, u)), null, m) && Apart(c, g, p, x, b, u)
    requires (paint ==> BlackTop(b))
    ensures g in m && p in m
    ensures Good(Plug(c, Br(e, x, p, gb, Br(e, b, g, black, u))), null, Rotated(m, e, g, p, paint, black))
  {
    hide Good, CtxGood, Local, Plug, Br, Nodes, CtxNodes, Seat, Rotated, Distinct, CtxDistinct, Apart, BlackTop;
    RotateStart(e, c, x, p, pb, b, g, gb, u, m);
    SeatIs(e, Top(x), Top(b), g, pb, Local(p.val, MaxAt(m, Top(x)), MaxAt(m, Top(b))));
    SeatIs(e, p, Top(u), HoleParent(c, null), gb, Local(g.val, Some(m[p].aug), MaxAt(m, Top(u))));
    LocalTurn(p.val, MaxAt(m, Top(x)), MaxAt(m, Top(b)), g.val, MaxAt(m, Top(u)));
    TurnCells(e, c, x, p, b, g, gb, u, paint, black, m);
  }

  // ----- Double rotations -----

  lemma {:induction false} ApartTwice(e: bool, c: Ctx, a: Shape, p: RbNode, pb: bool, b: Shape, n: RbNode, nb: bool,
                                      d: Shape, g: RbNode, u: Shape)
    ensures Apart(c, g, p, a, Br(e, b, n, nb, d), u) <==> Apart(c, g, n, Br(e, a, p, pb, b), d, u)
    ensures Apart(c, g, p, a, Br(e, b, n, nb, d), u) ==>
              && n != p && n != g && n !in Nodes(a) && n !in Nodes(b) && n !in Nodes(d) && n !in Nodes(u)
              && n !in CtxNodes(c)
              && p !in Nodes(b) && p !in Nodes(d) && g !in Nodes(b) && g !in Nodes(d) && Distinct(b) && Distinct(d)
              && Nodes(b) !! Nodes(d) && Nodes(a) !! Nodes(b) && Nodes(a) !! Nodes(d) && Nodes(b) !! Nodes(u)
              && Nodes(b) !! CtxNodes(c)
  {
    hide Distinct, CtxDistinct, Br, Nodes, CtxNodes;
    BrNodes(e, b, n, nb, d);
    BrNodes(e, a, p, pb, b);
  }

  lemma {:induction false} LocalTwice(p: int, a: Maybe, b: Maybe, n: int, d: Maybe, g: int, u: Maybe)
    ensures Local(g, Some(Local(p, a, Some(Local(n, b, d)))), u) == Local(n, Some(Local(p, a, b)), Some(Local(g, d, u)))
  {
  }

  /** The cells after the first half: p is below n, and nothing above knows yet. */
  lemma {:induction false} HalfCells(e: bool, c: Ctx, a: Shape, p: RbNode, pb: bool, b: Shape, n: RbNode, nb: bool,
                                     d: Shape, g: RbNode, gb: bool, u: Shape, black: bool, m: Cells)
    requires Good(Plug(c, Br(e, Br(e, a, p, pb, Br(e, b, n, nb, d)), g, gb, u)), null, m)
    requires Apart(c, g, p, a, Br(e, b, n, nb, d), u)
    ensures p in m && n in m && g in m && Ready(m, !e, p, n)
    ensures var m' := HalfRotated(m, !e, p, n, black);
            && m'.Keys == m.Keys && m'[g] == m[g]
            && m'[p] == Seat(e, Top(a), Top(b), n, black, Local(p.val, MaxAt(m, Top(a)), MaxAt(m, Top(b))))
            && m'[n] == Seat(e, p, Top(d), p, nb, m[p].aug)
            && (b.Branch? && b.node in m ==> m'[b.node] == m[b.node].(parent := p, black := true))
            && forall k | k in m && k != p && k != n && k != Top(b) :: m'[k] == m[k]
    ensures m[g] == Seat(e, p, Top(u), HoleParent(c, null), gb, Local(g.val, Some(m[p].aug), MaxAt(m, Top(u))))
    ensures m[p].aug == Local(p.val, MaxAt(m, Top(a)), Some(Local(n.val, MaxAt(m, Top(b)), MaxAt(m, Top(d)))))
    ensures Good(a, p, m) && Good(b, n, m) && Good(d, n, m) && Good(u, g, m) && CtxGood(c, g, null, m)
  {
    hide Good, CtxGood, Local, Plug, Br, Nodes, CtxNodes, Seat, HalfRotated, Distinct, CtxDistinct, Apart;
    var q := Br(e, b, n, nb, d);
    BrTop(e, b, n, nb, d);
    RotateStart(e, c, a, p, pb, q, g, gb, u, m);
    BrGood(e, b, n, nb, d, p, m);
    SeatIs(e, Top(a), n, g, pb, Local(p.val, MaxAt(m, Top(a)), MaxAt(m, n)));
    SeatIs(e, Top(b), Top(d), p, nb, Local(n.val, MaxAt(m, Top(b)), MaxAt(m, Top(d))));
    HalfReady(e, c, a, p, pb, b, n, nb, d, g, u, m);
    HalfRotatedAt(m, !e, p, n, black);
    LocalSwap(p.val, MaxAt(m, Top(a)), MaxAt(m, Top(b)));
    var m' := HalfRotated(m, !e, p, n, black);
    Reseat(m[p], e, Top(b), n, black, m'[p].aug);
    Reseat(m[n], e, p, p, nb, m'[n].aug);
  }

  lemma {:induction false} HalfReady(e: bool, c: Ctx, a: Shape, p: RbNode, pb: bool, b: Shape, n: RbNode, nb: bool,
                                     d: Shape, g: RbNode, u: Shape, m: Cells)
    requires Apart(c, g, p, a, Br(e, b, n, nb, d), u) && p in m && n in m
    requires m[n].Kid(e) == Top(b) && m[p].Kid(e) == Top(a)
    ensures Ready(m, !e, p, n) && g != n && g != p && (b.Branch? ==> b.node != g)
  {
    hide Distinct, CtxDistinct, Br, Nodes, CtxNodes, Apart;
    ApartTwice(e, c, a, p, pb, b, n, nb, d, g, u);
    TopIn(a);
    TopIn(b);
    ApartSome(c, g, p, a, Br(e, b, n, nb, d), u);
  }

  lemma {:induction false} ApartSome(c: Ctx, g: RbNode, p: RbNode, x: Shape, b: Shape, u: Shape)
    requires Apart(c, g, p, x, b, u)
    ensures g != p && p !in Nodes(x) && p !in Nodes(b) && p !in Nodes(u) && p !in CtxNodes(c) && g !in Nodes(x)
    ensures Nodes(b) !! Nodes(u) && Nodes(b) !! CtxNodes(c) && Distinct(x)
  {
  }

  /** The pieces after the first half. */
  lemma {:induction false} HalfPieces(e: bool, c: Ctx, a: Shape, p: RbNode, pb: bool, b: Shape, n: RbNode, nb: bool,
                                      d: Shape, g: RbNode, u: Shape, m: Cells, m': Cells)
    requires Apart(c, g, p, a, Br(e, b, n, nb, d), u) && BlackTop(b) && m'.Keys == m.Keys
    requires Good(a, p, m) && Good(b, n, m) && Good(d, n, m) && Good(u, g, m) && CtxGood(c, g, null, m)
    requires b.Branch? && b.node in m ==> m'[b.node] == m[b.node].(parent := p, black := true)
    requires forall k | k in m && k != p && k != n && k != Top(b) :: m'[k] == m[k]
    ensures Good(a, p, m') && MaxAt(m', Top(a)) == MaxAt(m, Top(a)) && Good(b, p, m')
    ensures MaxAt(m', Top(b)) == MaxAt(m, Top(b))
    ensures Good(d, n, m') && MaxAt(m', Top(d)) == MaxAt(m, Top(d)) && Good(u, g, m')
    ensures MaxAt(m', Top(u)) == MaxAt(m, Top(u))
    ensures CtxGood(c, g, null, m')
  {
    hide Distinct, CtxDistinct, Br, Nodes, CtxNodes, Apart, Good, CtxGood;
    ApartTwice(e, c, a, p, pb, b, n, nb, d, g, u);
    ApartSome(c, g, p, a, Br(e, b, n, nb, d), u);
    ApartSome(c, g, n, Br(e, a, p, pb, b), d, u);
    TopIn(b);
    GoodNodes(a, p, m);
    GoodNodes(b, n, m);
    GoodNodes(d, n, m);
    GoodNodes(u, g, m);
    CtxGoodNodes(c, g, null, m);
    assert b.Branch? ==>
             && b.node !in Nodes(a) && b.node !in Nodes(d) && b.node !in Nodes(u) && b.node !in CtxNodes(c)
             && b.node != g;
    GoodKept(a, p, m, m');
    GoodHung(b, n, p, true, m, m');
    GoodKept(d, n, m, m');
    GoodKept(u, g, m, m');
    CtxKept(c, g, null, m, m');
  }

  /** Both halves. */
  function TwiceRotated(m: Cells, e: bool, g: RbNode, p: RbNode, n: RbNode, paint: bool, black: bool): Cells
    requires g in m && p in m && n in m
  {
    Rotated(HalfRotated(m, !e, p, n, black), e, g, n, paint, black)
  }

  lemma {:induction false} TwiceGood(e: bool, c: Ctx, a: Shape, p: RbNode, pb: bool, b: Shape, n: RbNode, nb: bool,
                                     d: Shape, g: RbNode, gb: bool, u: Shape, paint: bool, black: bool, m: Cells)
    requires Good(Plug(c, Br(e, Br(e, a, p, pb, Br(e, b, n, nb, d)), g, gb, u)), null, m)
    requires Apart(c, g, p, a, Br(e, b, n, nb, d), u) && BlackTop(b) && (paint ==> BlackTop(d))
    ensures g in m && p in m && n in m
    ensures Good(Plug(c, Br(e, Br(e, a, p, black, b), n, gb, Br(e, d, g, black, u))), null,
                 TwiceRotated(m, e, g, p, n, paint, black))
  {
    hide Good, CtxGood, Local, Plug, Br, Nodes, CtxNodes, Seat, Rotated, HalfRotated, Distinct, CtxDistinct, Apart,
         BlackTop, Ready, Lone;
    HalfCells(e, c, a, p, pb, b, n, nb, d, g, gb, u, black, m);
    ApartTwice(e, c, a, p, black, b, n, nb, d, g, u);
    var m1 := HalfRotated(m, !e, p, n, black);
    HalfPieces(e, c, a, p, pb, b, n, nb, d, g, u, m, m1);
    var q := Br(e, a, p, black, b);
    BrTop(e, a, p, black, b);
    BrGood(e, a, p, black, b, n, m1);
    SeatIs(e, p, Top(d), p, nb, m[p].aug);
    SeatIs(e, p, Top(u), HoleParent(c, null), gb, Local(g.val, Some(m[p].aug), MaxAt(m, Top(u))));
    SeatIs(e, Top(a), Top(b), n, black, Local(p.val, MaxAt(m, Top(a)), MaxAt(m, Top(b))));
    LocalTwice(p.val, MaxAt(m, Top(a)), MaxAt(m, Top(b)), n.val, MaxAt(m, Top(d)), g.val, MaxAt(m, Top(u)));
    TurnCells(e, c, q, n, d, g, gb, u, paint, black, m1);
  }
}
