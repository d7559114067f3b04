/**
 Phandles of a devicetree and their renumbering: the numbers that nodes carry, the largest
 of them, and the shift that keeps the numbers of an overlay apart from those of its base.
 */
module FdtPhandles {
  import opened Basics
  import opened FdtTokens
  import opened FdtTree
  import opened FdtEdit
  import opened FdtEditor

  /** "phandle" and "linux,phandle". */
  const PHANDLE: Bytes := [112, 104, 97, 110, 100, 108, 101]
  const LINUX_PHANDLE: Bytes := [108, 105, 110, 117, 120, 44, 112, 104, 97, 110, 100, 108, 101]

  /** The property that fdt_get_phandle reads, or none. */
  function PhandleValue(n: Node): (r: Option<Bytes>)
    ensures r.Some? ==> |r.value| == 4
  {
    var v, w := GetProp(n, PHANDLE), GetProp(n, LINUX_PHANDLE);
    if v.Some? && |v.value| == 4 then v else if w.Some? && |w.value| == 4 then w else None
  }

  /** The number of a node, 0 for a node without one. */
  function PhandleOf(n: Node): nat {
    var v := PhandleValue(n);
    if v.Some? then U32(v.value, 0) else 0
  }

  /** m is the largest number in the tree. */
  ghost predicate IsMaxPhandle(n: Node, m: nat) {
    && (forall p | Path(n, p) :: PhandleOf(SubTree(n, p)) <= m)
    && exists p :: Path(n, p) && PhandleOf(SubTree(n, p)) == m
  }

  // ----- Trees that differ only in their values -----

  /** Same nodes, same properties, values of the same length. */
  predicate SameShape(a: Node, b: Node) {
    && a.name == b.name && PropShapes(a.props, b.props) && |a.children| == |b.children|
    && forall i | 0 <= i < |a.children| :: SameShape(a.children[i], b.children[i])
  }

  predicate PropShapes(a: seq<Property>, b: seq<Property>) {
    && |a| == |b|
    && forall i | 0 <= i < |a| :: a[i].name == b[i].name && |a[i].value| == |b[i].value|
  }

  lemma {:induction false} ShapeSelf(a: Node)
    ensures SameShape(a, a)
  {
    forall i | 0 <= i < |a.children| ensures SameShape(a.children[i], a.children[i]) { ShapeSelf(a.children[i]); }
  }

  lemma {:induction false} ShapeTrans(a: Node, b: Node, c: Node)
    requires SameShape(a, b) && SameShape(b, c)
    ensures SameShape(a, c)
  {
    forall i | 0 <= i < |a.children| ensures SameShape(a.children[i], c.children[i]) {
      ShapeTrans(a.children[i], b.children[i], c.children[i]);
    }
  }

  lemma {:induction false} ShapeSym(a: Node, b: Node)
    requires SameShape(a, b)
    ensures SameShape(b, a)
  {
    forall i | 0 <= i < |a.children| ensures SameShape(b.children[i], a.children[i]) {
      ShapeSym(a.children[i], b.children[i]);
    }
  }

  lemma {:induction false} ShapeSize(a: Node, b: Node)
    requires SameShape(a, b)
    ensures |Flatten(a)| == |Flatten(b)|
    decreases a, 0
  {
    FlattenSize(a);
    FlattenSize(b);
    ShapeSizes(a.children, b.children);
  }

  lemma {:induction false} ShapeSizes(ns: seq<Node>, ms: seq<Node>)
    requires |ns| == |ms| && forall i | 0 <= i < |ns| :: SameShape(ns[i], ms[i])
    ensures |FlattenAll(ns)| == |FlattenAll(ms)|
    decreases ns, 1
  {
    hide Flatten, SameShape;
    if ns != [] {
      FlattenFirst(ns);
      FlattenFirst(ms);
      ShapeSize(ns[0], ms[0]);
      ShapeSizes(ns[1..], ms[1..]);
    } else {
      assert ms == [];
    }
  }

  lemma {:induction false} ShapePath(a: Node, b: Node, p: seq<nat>)
    requires SameShape(a, b) && Path(a, p)
    ensures Path(b, p) && SameShape(SubTree(a, p), SubTree(b, p)) && |Before(a, p)| == |Before(b, p)|
    decreases |p|
  {
    if p == [] {
      NothingAround(a);
      NothingAround(b);
    } else {
      hide FlattenAll, Before;
      var i := p[0];
      ShapePath(a.children[i], b.children[i], p[1..]);
      BeforeIs(a, p);
      BeforeIs(b, p);
      ShapeSizes(a.children[..i], b.children[..i]);
    }
  }

  lemma {:induction false} ShapeReplace(a: Node, p: seq<nat>, m: Node)
    requires Path(a, p) && SameShape(SubTree(a, p), m)
    ensures SameShape(a, Replace(a, p, m))
    decreases |p|
  {
    if p != [] {
      ShapeReplace(a.children[p[0]], p[1..], m);
      forall i | 0 <= i < |a.children| ensures SameShape(a.children[i], Replace(a, p, m).children[i]) {
        ShapeSelf(a.children[i]);
      }
    }
  }

  lemma {:induction false} ShapeWithProp(n: Node, name: Bytes, v: Bytes)
    requires GetProp(n, name).Some? && |v| == |GetProp(n, name).value|
    ensures SameShape(n, WithProp(n, name, v))
  {
    forall i | 0 <= i < |n.children| ensures SameShape(n.children[i], WithProp(n, name, v).children[i]) {
      ShapeSelf(n.children[i]);
    }
  }

  /** A property is found at the same place in a tree of the same shape. */
  lemma {:induction false} ShapeIndex(a: seq<Property>, b: seq<Property>, name: Bytes)
    requires PropShapes(a, b)
    ensures PropIndex(a, name) == PropIndex(b, name)
  {
    PropIndexIs(b, name, PropIndex(a, name));
  }

  // ----- Adding delta to the numbers of a tree -----

  /** What overlay_phandle_add_offset reports; a missing property is not an error of the walk. */
  function BumpErr(n: Node, name: Bytes, delta: nat): Err {
    var v := GetProp(n, name);
    if v.None? then Ok
    else if |v.value| != 4 then BadPhandle
    else if U32(v.value, 0) + delta >= WORD - 1 then NoPhandles
    else Ok
  }

  function Bump(n: Node, name: Bytes, delta: nat): Node {
    if GetProp(n, name).Some? && BumpErr(n, name, delta) == Ok
    then WithProp(n, name, BE32(U32(GetProp(n, name).value, 0) + delta)) else n
  }

  function BumpBoth(n: Node, delta: nat): Node {
    Bump(Bump(n, PHANDLE, delta), LINUX_PHANDLE, delta)
  }

  /** The tree after overlay_adjust_node_phandles. */
  function Shift(n: Node, delta: nat): Node {
    Node(n.name, BumpBoth(n, delta).props, ShiftAll(n.children, delta))
  }

  function ShiftAll(ns: seq<Node>, delta: nat): (r: seq<Node>)
    ensures |r| == |ns| && forall i | 0 <= i < |ns| :: r[i] == Shift(ns[i], delta)
  {
    if ns == [] then [] else [Shift(ns[0], delta)] + ShiftAll(ns[1..], delta)
  }

  /** The first error of the walk, in its own order: the node, then its children from left to right. */
  function Trouble(n: Node, delta: nat): Err {
    if BumpErr(n, PHANDLE, delta) != Ok then BumpErr(n, PHANDLE, delta)
    else if BumpErr(n, LINUX_PHANDLE, delta) != Ok then BumpErr(n, LINUX_PHANDLE, delta)
    else TroubleAmong(n.children, delta)
  }

  function TroubleAmong(ns: seq<Node>, delta: nat): Err {
    if ns == [] then Ok
    else if Trouble(ns[0], delta) != Ok then Trouble(ns[0], delta)
    else TroubleAmong(ns[1..], delta)
  }

  /** Both numbers of the node can be shifted. */
  predicate Shiftable(n: Node, delta: nat) {
    BumpErr(n, PHANDLE, delta) == Ok && BumpErr(n, LINUX_PHANDLE, delta) == Ok
  }

  lemma {:induction false} TroubleAmongNone(ns: seq<Node>, delta: nat)
    ensures TroubleAmong(ns, delta) == Ok <==> forall i | 0 <= i < |ns| :: Trouble(ns[i], delta) == Ok
  {
    hide Trouble;
    if ns != [] {
      TroubleAmongNone(ns[1..], delta);
      assert forall i | 0 < i < |ns| :: ns[i] == ns[1..][i - 1];
    }
  }

  lemma {:induction false} TroubleHere(n: Node, delta: nat)
    ensures Trouble(n, delta) == Ok <==> Shiftable(n, delta) && forall i | 0 <= i < |n.children| ::
            Trouble(n.children[i], delta) == Ok
  {
    hide BumpErr;
    TroubleAmongNone(n.children, delta);
  }

  /** Every number of every node can be shifted. */
  ghost predicate AllShiftable(n: Node, delta: nat) {
    forall p | Path(n, p) :: Shiftable(SubTree(n, p), delta)
  }

  lemma {:induction false} AllShiftableHere(n: Node, delta: nat)
    ensures AllShiftable(n, delta) <==> Shiftable(n, delta) && forall i | 0 <= i < |n.children| ::
            AllShiftable(n.children[i], delta)
  {
    hide Shiftable;
    var here: seq<nat> := [];
    assert Path(n, here) && SubTree(n, here) == n;
    if AllShiftable(n, delta) {
      forall i, p | 0 <= i < |n.children| && Path(n.children[i], p)
        ensures Shiftable(SubTree(n.children[i], p), delta)
      {
        assert ([i] + p)[1..] == p;
        assert Path(n, [i] + p) && SubTree(n, [i] + p) == SubTree(n.children[i], p);
      }
    }
    if Shiftable(n, delta) && forall i | 0 <= i < |n.children| :: AllShiftable(n.children[i], delta) {
      forall p | Path(n, p) ensures Shiftable(SubTree(n, p), delta) {
        if p != [] {
          assert SubTree(n, p) == SubTree(n.children[p[0]], p[1..]) && Path(n.children[p[0]], p[1..]);
          assert AllShiftable(n.children[p[0]], delta);
        } else {
          assert p == here;
        }
      }
    }
  }

  /** The walk succeeds exactly then. */
  lemma {:induction false} TroubleFree(n: Node, delta: nat)
    ensures Trouble(n, delta) == Ok <==> AllShiftable(n, delta)
  {
    hide Trouble, Shiftable, AllShiftable;
    TroubleHere(n, delta);
    AllShiftableHere(n, delta);
    forall i | 0 <= i < |n.children|
      ensures Trouble(n.children[i], delta) == Ok <==> AllShiftable(n.children[i], delta)
    {
      TroubleFree(n.children[i], delta);
    }
  }

  /** The error that is reported is the first one: "phandle" before "linux,phandle", a node before its children. */
  lemma {:induction false} TroubleFirst(n: Node, delta: nat)
    ensures BumpErr(n, PHANDLE, delta) != Ok ==> Trouble(n, delta) == BumpErr(n, PHANDLE, delta)
    ensures BumpErr(n, PHANDLE, delta) == Ok && BumpErr(n, LINUX_PHANDLE, delta) != Ok ==>
              Trouble(n, delta) == BumpErr(n, LINUX_PHANDLE, delta)
    ensures Shiftable(n, delta) && Trouble(n, delta) != Ok ==>
              exists i :: 0 <= i < |n.children| && Trouble(n.children[i], delta) == Trouble(n, delta)
                       && forall j | 0 <= j < i :: Trouble(n.children[j], delta) == Ok
  {
    hide BumpErr;
    if Shiftable(n, delta) && Trouble(n, delta) != Ok { var i := FirstTrouble(n.children, delta); }
  }

  lemma {:induction false} FirstTrouble(ns: seq<Node>, delta: nat) returns (i: nat)
    requires TroubleAmong(ns, delta) != Ok
    ensures i < |ns| && Trouble(ns[i], delta) == TroubleAmong(ns, delta)
    ensures forall j | 0 <= j < i :: Trouble(ns[j], delta) == Ok
  {
    hide Trouble;
    i := 0;
    if Trouble(ns[0], delta) == Ok {
      var k := FirstTrouble(ns[1..], delta);
      i := k + 1;
      forall j | 0 <= j < i ensures Trouble(ns[j], delta) == Ok { if j > 0 { assert ns[j] == ns[1..][j - 1]; } }
    }
  }

  /** An error of the walk is that of some node. */
  lemma {:induction false} TroubleFrom(n: Node, delta: nat) returns (p: seq<nat>, name: Bytes)
    requires Trouble(n, delta) != Ok
    ensures Path(n, p) && (name == PHANDLE || name == LINUX_PHANDLE)
    ensures BumpErr(SubTree(n, p), name, delta) == Trouble(n, delta)
    decreases n, 0
  {
    hide BumpErr;
    if BumpErr(n, PHANDLE, delta) != Ok {
      p, name := [], PHANDLE;
    } else if BumpErr(n, LINUX_PHANDLE, delta) != Ok {
      p, name := [], LINUX_PHANDLE;
    } else {
      var i;
      i, p, name := TroubleFromChild(n.children, delta);
      assert ([i] + p)[1..] == p;
      p := [i] + p;
    }
  }

  lemma {:induction false} TroubleFromChild(ns: seq<Node>, delta: nat) returns (i: nat, p: seq<nat>, name: Bytes)
    requires TroubleAmong(ns, delta) != Ok
    ensures i < |ns| && Path(ns[i], p) && (name == PHANDLE || name == LINUX_PHANDLE)
    ensures BumpErr(SubTree(ns[i], p), name, delta) == TroubleAmong(ns, delta)
    decreases ns, 1
  {
    hide BumpErr;
    if Trouble(ns[0], delta) != Ok {
      p, name := TroubleFrom(ns[0], delta);
      i := 0;
    } else {
      i, p, name := TroubleFromChild(ns[1..], delta);
      i := i + 1;
    }
  }

  /** Every number of the tree is one cell. */
  ghost predicate Cells(n: Node) {
    forall p, name | Path(n, p) && (name == PHANDLE || name == LINUX_PHANDLE) && GetProp(SubTree(n, p), name).Some? ::
      |GetProp(SubTree(n, p), name).value| == 4
  }

  /** In such a tree the walk reports NOPHANDLES exactly when some sum wraps or reaches 2^32 - 1. */
  lemma {:induction false} NoPhandlesExactly(n: Node, delta: nat)
    requires Cells(n)
    ensures Trouble(n, delta) == Ok || Trouble(n, delta) == NoPhandles
    ensures Trouble(n, delta) == NoPhandles <==>
              exists p, name ::
                && Path(n, p) && (name == PHANDLE || name == LINUX_PHANDLE)
                && GetProp(SubTree(n, p), name).Some?
                && U32(GetProp(SubTree(n, p), name).value, 0) + delta >= WORD - 1
  {
    TroubleFree(n, delta);
    if Trouble(n, delta) != Ok {
      var p, name := TroubleFrom(n, delta);
      assert GetProp(SubTree(n, p), name).Some?;
    }
    if p, name :| Path(n, p) && (name == PHANDLE || name == LINUX_PHANDLE) && GetProp(SubTree(n, p), name).Some?
                  && U32(GetProp(SubTree(n, p), name).value, 0) + delta >= WORD - 1 {
      assert !Shiftable(SubTree(n, p), delta);
    }
  }

  // ----- What the shift does to the numbers -----

  /** The node carries a number, possibly 0. */
  predicate Numbered(n: Node) {
    GetProp(n, PHANDLE).Some? || GetProp(n, LINUX_PHANDLE).Some?
  }

  lemma {:induction false} BumpGet(n: Node, name: Bytes, delta: nat, other: Bytes)
    ensures other != name ==> GetProp(Bump(n, name, delta), other) == GetProp(n, other)
    ensures GetProp(Bump(n, name, delta), name).Some? <==> GetProp(n, name).Some?
    ensures GetProp(n, name).Some? && BumpErr(n, name, delta) == Ok ==>
              GetProp(Bump(n, name, delta), name) == Some(BE32(U32(GetProp(n, name).value, 0) + delta))
    ensures SameShape(n, Bump(n, name, delta))
  {
    ShapeSelf(n);
    if GetProp(n, name).Some? && BumpErr(n, name, delta) == Ok {
      hide GetProp, WithProp;
      var v := BE32(U32(GetProp(n, name).value, 0) + delta);
      SetThenGet(n, name, v, other);
      ShapeWithProp(n, name, v);
    }
  }

  lemma {:induction false} NamesDiffer()
    ensures PHANDLE != LINUX_PHANDLE && 0 !in PHANDLE && 0 !in LINUX_PHANDLE
  {
    assert |PHANDLE| != |LINUX_PHANDLE|;
  }

  lemma {:induction false} SameTopProps(n: Node, m: Node, name: Bytes)
    requires n.props == m.props
    ensures GetProp(n, name) == GetProp(m, name)
  {
  }

  lemma {:induction false} Cell(x: nat)
    requires x < WORD
    ensures U32(BE32(x), 0) == x
  {
    assert BE32(x)[0..4] == BE32(x);
    WordRoundTrip(BE32(x), 0, x);
  }

  /** Every other property of a node is as before, and both numbers have moved by delta. */
  lemma {:induction false} ShiftGet(n: Node, delta: nat, name: Bytes)
    requires Shiftable(n, delta)
    ensures var v, w := GetProp(n, name), GetProp(Shift(n, delta), name);
            if (name == PHANDLE || name == LINUX_PHANDLE) && v.Some?
            then BumpErr(n, name, delta) == Ok && w == Some(BE32(U32(v.value, 0) + delta)) else w == v
  {
    hide GetProp, Bump;
    var m := Bump(n, PHANDLE, delta);
    NamesDiffer();
    BumpGet(n, PHANDLE, delta, name);
    BumpGet(n, PHANDLE, delta, LINUX_PHANDLE);
    BumpGet(m, LINUX_PHANDLE, delta, name);
    BumpGet(m, LINUX_PHANDLE, delta, PHANDLE);
    SameTopProps(BumpBoth(n, delta), Shift(n, delta), name);
  }

  lemma {:induction false} ShiftWord(n: Node, delta: nat, name: Bytes)
    requires Shiftable(n, delta) && (name == PHANDLE || name == LINUX_PHANDLE)
    ensures var v, w := GetProp(n, name), GetProp(Shift(n, delta), name);
            if v.Some? then |v.value| == 4 && w.Some? && |w.value| == 4
                && U32(w.value, 0) == U32(v.value, 0) + delta else w.None?
  {
    hide GetProp, Shift, U32, BE32;
    ShiftGet(n, delta, name);
    if GetProp(n, name).Some? { Cell(U32(GetProp(n, name).value, 0) + delta); }
  }

  lemma {:induction false} ShiftPhandle(n: Node, delta: nat)
    requires Shiftable(n, delta)
    ensures Numbered(Shift(n, delta)) <==> Numbered(n)
    ensures PhandleOf(Shift(n, delta)) == if Numbered(n) then PhandleOf(n) + delta else 0
  {
    hide GetProp, Shift, U32, BE32, Shiftable;
    ShiftWord(n, delta, PHANDLE);
    ShiftWord(n, delta, LINUX_PHANDLE);
  }

  lemma {:induction false} ShiftShape(n: Node, delta: nat)
    ensures SameShape(n, Shift(n, delta))
  {
    hide GetProp, Bump;
    var m := Bump(n, PHANDLE, delta);
    BumpGet(n, PHANDLE, delta, PHANDLE);
    BumpGet(m, LINUX_PHANDLE, delta, PHANDLE);
    ShapeTrans(n, m, BumpBoth(n, delta));
    forall i | 0 <= i < |n.children| ensures SameShape(n.children[i], Shift(n, delta).children[i]) {
      ShiftShape(n.children[i], delta);
    }
  }

  lemma {:induction false} ShiftAt(n: Node, delta: nat, p: seq<nat>)
    requires Path(n, p)
    ensures Path(Shift(n, delta), p) && SubTree(Shift(n, delta), p) == Shift(SubTree(n, p), delta)
    decreases |p|
  {
    if p != [] { ShiftAt(n.children[p[0]], delta, p[1..]); }
  }

  /** The numbers of the shifted tree, node by node. */
  lemma {:induction false} ShiftedPhandle(n: Node, delta: nat, p: seq<nat>)
    requires Trouble(n, delta) == Ok && Path(n, p)
    ensures Path(Shift(n, delta), p)
    ensures var m := SubTree(n, p);
            PhandleOf(SubTree(Shift(n, delta), p)) == if Numbered(m) then PhandleOf(m) + delta else 0
  {
    TroubleFree(n, delta);
    ShiftAt(n, delta, p);
    ShiftPhandle(SubTree(n, p), delta);
  }

  /** A reference names the same nodes after it has been shifted with the tree. */
  lemma {:induction false} ReferenceKept(n: Node, delta: nat, c: nat, p: seq<nat>)
    requires Trouble(n, delta) == Ok && 1 <= c && Path(n, p)
    ensures Path(Shift(n, delta), p)
    ensures PhandleOf(SubTree(n, p)) == c <==> PhandleOf(SubTree(Shift(n, delta), p)) == c + delta
  {
    ShiftedPhandle(n, delta, p);
  }

  /** A node of a and a node of b carry the same number. */
  ghost predicate Clash(a: Node, b: Node) {
    exists p, q :: Path(a, p) && Path(b, q) && PhandleOf(SubTree(a, p)) == PhandleOf(SubTree(b, q)) != 0
  }

  /** A number of at least 1 ends up above every number of the base. */
  lemma {:induction false} AboveBase(base: Node, ov: Node, delta: nat, p: seq<nat>, q: seq<nat>)
    requires IsMaxPhandle(base, delta) && Trouble(ov, delta) == Ok && Path(base, p) && Path(ov, q)
    requires 1 <= PhandleOf(SubTree(ov, q))
    ensures Path(Shift(ov, delta), q) && PhandleOf(SubTree(base, p)) < PhandleOf(SubTree(Shift(ov, delta), q))
  {
    ShiftedPhandle(ov, delta, q);
  }

  /** The overlay collides with the base exactly when one of its nodes carries the number 0 and the base has numbers. */
  lemma {:induction false} ClashExactly(base: Node, ov: Node, delta: nat)
    requires IsMaxPhandle(base, delta) && Trouble(ov, delta) == Ok
    ensures Clash(base, Shift(ov, delta)) <==>
              delta != 0 && exists q :: Path(ov, q) && Numbered(SubTree(ov, q)) && PhandleOf(SubTree(ov, q)) == 0
  {
    var ov' := Shift(ov, delta);
    ShiftShape(ov, delta);
    ShapeSym(ov, ov');
    if Clash(base, ov') {
      var p, q :| Path(base, p) && Path(ov', q) && PhandleOf(SubTree(base, p)) == PhandleOf(SubTree(ov', q)) != 0;
      ShapePath(ov', ov, q);
      ShiftedPhandle(ov, delta, q);
      assert Numbered(SubTree(ov, q)) && PhandleOf(SubTree(ov, q)) == 0;
    }
    if delta != 0 && exists q :: Path(ov, q) && Numbered(SubTree(ov, q)) && PhandleOf(SubTree(ov, q)) == 0 {
      var q :| Path(ov, q) && Numbered(SubTree(ov, q)) && PhandleOf(SubTree(ov, q)) == 0;
      var p :| Path(base, p) && PhandleOf(SubTree(base, p)) == delta;
      ShiftedPhandle(ov, delta, q);
      assert PhandleOf(SubTree(ov', q)) == delta;
    }
  }
}
