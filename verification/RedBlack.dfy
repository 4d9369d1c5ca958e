/** The trees behind Tree.c as values: subtrees, the contexts around them, and what balancing must keep. */
module RedBlack {

  /** What a node's content points to: the comparison looks at the key only. */
  datatype Item = Item(key: int, data: int)

  datatype Content = NoContent | Content(item: Item)

  /** A tree node in memory. Its child[0] and child[1] are the fields left and right. */
  class Node {
    var parent: Node?
    var left: Node?
    var right: Node?
    var red: bool
    var content: Content

    constructor ()
      ensures parent == null && left == null && right == null && !red && content == NoContent
    {
      parent, left, right, red, content := null, null, null, false, NoContent;
    }

    function Child(which: bool): Node?
      reads this
    {
      if which then right else left
    }

    /** What the node's fields hold. */
    ghost function Fields(): Rec
      reads this
    {
      Rec(parent, left, right, red, content)
    }
  }

  /** The fields of a node, as a value. */
  datatype Rec = Rec(parent: Node?, left: Node?, right: Node?, red: bool, content: Content) {
    function Child(which: bool): Node? { if which then right else left }

    function WithChild(which: bool, n: Node?): Rec {
      if which then this.(right := n) else this.(left := n)
    }
  }

  /** The fields of every node of a tree. */
  type Memory = map<Node, Rec>

  const LEFT := false
  const RIGHT := true

  /** A subtree, with the node that holds each item. */
  datatype T = Leaf | N(node: Node, red: bool, item: Item, l: T, r: T)

  /** The path from a subtree up to the root: the hole is child[side] of the first frame's node. */
  datatype Ctx = Top | F(up: Ctx, node: Node, red: bool, item: Item, side: bool, other: T)

  /** A subtree whose child[side] is x and whose other child is y. */
  function Mk(node: Node, red: bool, item: Item, side: bool, x: T, y: T): (r: T)
    ensures r.N?
  {
    if side then N(node, red, item, y, x) else N(node, red, item, x, y)
  }

  function Kid(t: T, side: bool): T
    requires t.N?
  {
    if side then t.r else t.l
  }

  function Red(t: T): bool { t.N? && t.red }

  function Plug(c: Ctx, t: T): T {
    match c
    case Top => t
    case F(up, node, red, item, side, other) => Plug(up, Mk(node, red, item, side, t, other))
  }

  function Depth(c: Ctx): nat {
    if c.Top? then 0 else 1 + Depth(c.up)
  }

  // ----- contents -----

  function Items(t: T): seq<Item> {
    if t.Leaf? then [] else Items(t.l) + [t.item] + Items(t.r)
  }

  function Before(c: Ctx): seq<Item> {
    match c
    case Top => []
    case F(up, _, _, item, side, other) => if side then Before(up) + Items(other) + [item] else Before(up)
  }

  function After(c: Ctx): seq<Item> {
    match c
    case Top => []
    case F(up, _, _, item, side, other) => if side then After(up) else [item] + Items(other) + After(up)
  }

  /** All the items, in order. */
  function All(c: Ctx, t: T): seq<Item> {
    Before(c) + Items(t) + After(c)
  }

  lemma AllUp(c: Ctx, t: T)
    requires c.F?
    ensures All(c, t) == All(c.up, Mk(c.node, c.red, c.item, c.side, t, c.other))
  {
  }

  lemma {:induction false} AllPlug(c: Ctx, t: T)
    ensures Items(Plug(c, t)) == All(c, t)
  {
    if c.F? {
      AllUp(c, t);
      AllPlug(c.up, Mk(c.node, c.red, c.item, c.side, t, c.other));
    }
  }

  // ----- the red-black rules -----

  function Black(t: T): nat {
    if t.Leaf? then 0 else Black(t.l) + (if t.red then 0 else 1)
  }

  /** No red node has a red child, and every path has the same number of black nodes. */
  predicate RB(t: T) {
    t.N? ==> RB(t.l) && RB(t.r) && Black(t.l) == Black(t.r) && (t.red ==> !Red(t.l) && !Red(t.r))
  }

  /** The rules around a hole for a subtree of black height h; the root is black. */
  predicate RBCtx(c: Ctx, h: nat) {
    c.F? ==>
      && RB(c.other) && Black(c.other) == h
      && (c.red ==> !Red(c.other) && c.up.F? && !c.up.red)
      && RBCtx(c.up, h + if c.red then 0 else 1)
  }

  /** The rules, but for the colour of the subtree's root. */
  predicate Almost(t: T) {
    t.N? ==> RB(t.l) && RB(t.r) && Black(t.l) == Black(t.r)
  }

  lemma {:induction false} PlugRB(c: Ctx, t: T)
    requires RB(t) && RBCtx(c, Black(t)) && (Red(t) ==> c.F? && !c.red)
    ensures RB(Plug(c, t)) && !Red(Plug(c, t))
  {
    if c.F? {
      PlugRB(c.up, Mk(c.node, c.red, c.item, c.side, t, c.other));
    }
  }

  // ----- nodes -----

  function Nodes(t: T): set<Node> {
    if t.Leaf? then {} else Nodes(t.l) + Nodes(t.r) + {t.node}
  }

  function CtxNodes(c: Ctx): set<Node> {
    if c.Top? then {} else CtxNodes(c.up) + Nodes(c.other) + {c.node}
  }

  /** No node is used twice. */
  predicate Distinct(t: T) {
    t.N? ==>
      Distinct(t.l) && Distinct(t.r) && Nodes(t.l) !! Nodes(t.r) && t.node !in Nodes(t.l) && t.node !in Nodes(t.r)
  }

  predicate DistinctCtx(c: Ctx) {
    c.F? ==>
      && DistinctCtx(c.up) && Distinct(c.other)
      && CtxNodes(c.up) !! Nodes(c.other) && c.node !in CtxNodes(c.up) && c.node !in Nodes(c.other)
  }

  predicate Apart(c: Ctx, t: T) {
    DistinctCtx(c) && Distinct(t) && CtxNodes(c) !! Nodes(t)
  }

  function Root(t: T): Node? {
    if t.Leaf? then null else t.node
  }

  function Parent(c: Ctx): Node? {
    if c.Top? then null else c.node
  }

  /** The root of the whole tree, given the node in the hole. */
  function TopNode(c: Ctx, hole: Node?): Node? {
    if c.Top? then hole else TopNode(c.up, c.node)
  }

  /** The nodes in memory hold the subtree, below the given parent. */
  ghost predicate Agree(m: Memory, t: T, parent: Node?) {
    t.N? ==>
      && t.node in m && m[t.node] == Rec(parent, Root(t.l), Root(t.r), t.red, Content(t.item))
      && Agree(m, t.l, t.node) && Agree(m, t.r, t.node)
  }

  /** What the node at the head of a context holds. */
  function FrameRec(c: Ctx, hole: Node?): Rec
    requires c.F?
  {
    Rec(Parent(c.up), Root(c.other), Root(c.other), c.red, Content(c.item)).WithChild(c.side, hole)
  }

  /** The nodes in memory hold the context, around the given node. */
  ghost predicate AgreeCtx(m: Memory, c: Ctx, hole: Node?) {
    c.F? ==>
      && c.node in m && m[c.node] == FrameRec(c, hole)
      && Agree(m, c.other, c.node) && AgreeCtx(m, c.up, c.node)
  }

  /** The tree in memory, seen from a subtree. */
  ghost predicate InMemory(m: Memory, c: Ctx, t: T, root: Node?) {
    Apart(c, t) && Agree(m, t, Parent(c)) && AgreeCtx(m, c, Root(t)) && root == TopNode(c, Root(t))
  }

  /** Two memories hold the same in the given nodes. */
  ghost predicate Same(m: Memory, m': Memory, nodes: set<Node>) {
    forall n :: n in nodes && n in m ==> n in m' && m'[n] == m[n]
  }

  lemma {:induction false} AgreeSame(m: Memory, m': Memory, t: T, parent: Node?)
    requires Agree(m, t, parent) && Same(m, m', Nodes(t))
    ensures Agree(m', t, parent)
  {
    if t.N? {
      AgreeSame(m, m', t.l, t.node);
      AgreeSame(m, m', t.r, t.node);
    }
  }

  lemma {:induction false} AgreeCtxSame(m: Memory, m': Memory, c: Ctx, hole: Node?)
    requires AgreeCtx(m, c, hole) && Same(m, m', CtxNodes(c))
    ensures AgreeCtx(m', c, hole)
  {
    if c.F? {
      AgreeSame(m, m', c.other, c.node);
      AgreeCtxSame(m, m', c.up, c.node);
    }
  }

  /** Hanging a subtree below another node changes its root's parent pointer only. */
  lemma Rehung(m: Memory, m': Memory, t: T, parent: Node?, parent': Node?)
    requires Agree(m, t, parent) && Distinct(t)
    requires Same(m, m', Nodes(t) - {Root(t)})
    requires t.N? ==> t.node in m' && m'[t.node] == m[t.node].(parent := parent')
    ensures Agree(m', t, parent')
  {
    if t.N? {
      AgreeSame(m, m', t.l, t.node);
      AgreeSame(m, m', t.r, t.node);
    }
  }

  /** Putting another node in the hole changes one child pointer only. */
  lemma Refilled(m: Memory, m': Memory, c: Ctx, hole: Node?, hole': Node?)
    requires AgreeCtx(m, c, hole) && DistinctCtx(c)
    requires Same(m, m', CtxNodes(c) - {Parent(c)})
    requires c.F? ==> c.node in m' && m'[c.node] == m[c.node].WithChild(c.side, hole')
    ensures AgreeCtx(m', c, hole')
  {
    if c.F? {
      AgreeSame(m, m', c.other, c.node);
      AgreeCtxSame(m, m', c.up, c.node);
    }
  }

  // ----- moving the focus -----

  lemma FocusUp(m: Memory, c: Ctx, t: T, root: Node?)
    requires InMemory(m, c, t, root) && c.F?
    ensures InMemory(m, c.up, Mk(c.node, c.red, c.item, c.side, t, c.other), root)
  {
  }

  lemma FocusDown(m: Memory, c: Ctx, t: T, root: Node?, side: bool)
    requires InMemory(m, c, t, root) && t.N?
    ensures InMemory(m, F(c, t.node, t.red, t.item, side, Kid(t, !side)), Kid(t, side), root)
  {
  }

  lemma {:induction false} FocusTop(m: Memory, c: Ctx, t: T, root: Node?)
    requires InMemory(m, c, t, root)
    ensures InMemory(m, Top, Plug(c, t), root)
  {
    if c.F? {
      FocusUp(m, c, t, root);
      FocusTop(m, c.up, Mk(c.node, c.red, c.item, c.side, t, c.other), root);
    }
  }

  lemma {:induction false} PlugNodes(c: Ctx, t: T)
    ensures Nodes(Plug(c, t)) == CtxNodes(c) + Nodes(t)
  {
    if c.F? {
      PlugNodes(c.up, Mk(c.node, c.red, c.item, c.side, t, c.other));
    }
  }

  lemma {:induction false} TopNodeInCtx(c: Ctx, hole: Node?)
    ensures c.F? ==> TopNode(c, hole) in CtxNodes(c)
  {
    if c.F? {
      TopNodeInCtx(c.up, c.node);
    }
  }

  lemma TopNodeHole(c: Ctx, hole: Node?, hole': Node?)
    ensures c.F? ==> TopNode(c, hole) == TopNode(c, hole')
  {
  }

  // ----- rotation -----

  predicate Rotatable(t: T, d: bool) {
    t.N? && Kid(t, !d).N?
  }

  /** The root's other child takes its place, and the root becomes its child[d]. */
  function Rotated(t: T, d: bool): T
    requires Rotatable(t, d)
  {
    var o := Kid(t, !d);
    Mk(o.node, o.red, o.item, d, Mk(t.node, t.red, t.item, d, Kid(t, d), Kid(o, d)), Kid(o, !d))
  }

  lemma RotatedItems(t: T, d: bool)
    requires Rotatable(t, d)
    ensures Items(Rotated(t, d)) == Items(t)
  {
    var o := Kid(t, !d);
    if d {
      assert Items(t) == Items(o.l) + [o.item] + Items(o.r) + [t.item] + Items(t.r);
    } else {
      assert Items(t) == Items(t.l) + [t.item] + (Items(o.l) + [o.item] + Items(o.r));
    }
  }

  /** The parts of a subtree that a rotation rearranges have nothing in common. */
  lemma RotationParts(t: T, d: bool)
    requires Rotatable(t, d) && Distinct(t)
    ensures var o := Kid(t, !d); var a, b, e := Kid(t, d), Kid(o, d), Kid(o, !d);
      && Distinct(a) && Distinct(b) && Distinct(e) && t.node != o.node
      && Nodes(a) !! Nodes(b) && Nodes(a) !! Nodes(e) && Nodes(b) !! Nodes(e)
      && {t.node, o.node} !! Nodes(a) && {t.node, o.node} !! Nodes(b) && {t.node, o.node} !! Nodes(e)
      && Nodes(t) == Nodes(a) + Nodes(b) + Nodes(e) + {t.node, o.node}
      && (b.N? ==> b.node in Nodes(b))
  {
    var o := Kid(t, !d);
    assert Distinct(o) && o.node in Nodes(o);
    assert Nodes(o) == Nodes(Kid(o, d)) + Nodes(Kid(o, !d)) + {o.node};
    assert Nodes(t) == Nodes(Kid(t, d)) + Nodes(o) + {t.node};
  }

  lemma RotatedNodes(t: T, d: bool)
    requires Rotatable(t, d) && Distinct(t)
    ensures Nodes(Rotated(t, d)) == Nodes(t) && Distinct(Rotated(t, d))
  {
    RotationParts(t, d);
    var o := Kid(t, !d);
    var x := Mk(t.node, t.red, t.item, d, Kid(t, d), Kid(o, d));
    assert Nodes(x) == Nodes(Kid(t, d)) + Nodes(Kid(o, d)) + {t.node};
    assert Distinct(x);
  }

  /** What the two nodes of a rotation hold before it. */
  lemma AgreeParts(m: Memory, t: T, d: bool, parent: Node?)
    requires Rotatable(t, d) && Agree(m, t, parent)
    ensures var o := Kid(t, !d); var a, b, e := Kid(t, d), Kid(o, d), Kid(o, !d);
      && Agree(m, a, t.node) && Agree(m, b, o.node) && Agree(m, e, o.node) && t.node in m && o.node in m
      && m[t.node] == Rec(parent, Root(t.l), Root(t.r), t.red, Content(t.item))
      && m[o.node] == Rec(t.node, Root(o.l), Root(o.r), o.red, Content(o.item))
      && (b.N? ==> b.node in m)
  {
    assert Agree(m, Kid(t, !d), t.node);
  }

  /** The memory after a rotation, from that before: five pointers have changed. */
  ghost predicate RotatedMemory(m: Memory, m': Memory, c: Ctx, t: T, d: bool)
    requires Rotatable(t, d)
  {
    var o := Kid(t, !d);
    var b := Kid(o, d);
    && t.node in m && o.node in m && t.node in m' && o.node in m'
    && m'[t.node] == m[t.node].(parent := o.node).WithChild(!d, Root(b))
    && m'[o.node] == m[o.node].(parent := Parent(c)).WithChild(d, t.node)
    && (b.N? ==> b.node in m && b.node in m' && m'[b.node] == m[b.node].(parent := t.node))
    && (c.F? ==> c.node in m && c.node in m' && m'[c.node] == m[c.node].WithChild(c.side, o.node))
    && Same(m, m', CtxNodes(c) + Nodes(t) - {t.node, o.node, Root(b), Parent(c)})
  }

  /** TreeRotate's first assignments: the middle subtree's root b becomes cur's child, and other gets cur's parent. */
  ghost function Lowered(m: Memory, cur: Node, other: Node, b: Node?, parent: Node?, d: bool): (r: Memory)
    requires cur in m && other in m && (b != null ==> b in m)
    ensures r.Keys == m.Keys
  {
    var m1 := m[cur := m[cur].WithChild(!d, b)];
    var m2 := if b == null then m1 else m1[b := m1[b].(parent := cur)];
    m2[other := m2[other].(parent := parent)]
  }

  lemma LoweredKeeps(m: Memory, cur: Node, other: Node, b: Node?, parent: Node?, d: bool)
    requires cur in m && other in m && (b != null ==> b in m) && cur != other && b != cur
    ensures var r := Lowered(m, cur, other, b, parent, d);
      && r[cur].parent == m[cur].parent
      && forall n :: n in m && n != cur && n != other && n != b ==> r[n] == m[n]
  {
  }

  /** Its last assignments: cur becomes other's child[d]. */
  ghost function Raised(m: Memory, cur: Node, other: Node, d: bool): (r: Memory)
    requires cur in m && other in m
    ensures r.Keys == m.Keys
  {
    var m1 := m[other := m[other].WithChild(d, cur)];
    m1[cur := m1[cur].(parent := other)]
  }

  /** The assignment in between: cur's parent gets other as its child. */
  ghost function Reseated(m: Memory, c: Ctx, n: Node?): (r: Memory)
    requires c.F? ==> c.node in m
    ensures r.Keys == m.Keys
  {
    if c.F? then m[c.node := m[c.node].WithChild(c.side, n)] else m
  }

  /** TreeRotate's assignments, in its order. */
  ghost function Relinked(m: Memory, c: Ctx, cur: Node, d: bool): (r: Memory)
    requires CanRelink(m, c, cur, d)
    ensures r.Keys == m.Keys
  {
    var other := m[cur].Child(!d);
    Raised(Reseated(Lowered(m, cur, other, m[other].Child(d), Parent(c), d), c, other), cur, other, d)
  }

  /** The nodes a rotation touches are there, differ, and point to one another. */
  ghost predicate CanRelink(m: Memory, c: Ctx, cur: Node, d: bool) {
    && cur in m && m[cur].Child(!d) != null && m[cur].Child(!d) in m && m[cur].Child(!d) != cur
    && var other: Node := m[cur].Child(!d); var b := m[other].Child(d);
    && b != cur && b != other && (b != null ==> b in m)
    && m[cur].parent == Parent(c)
    && (c.F? ==>
          && c.node in m && m[c.node].Child(c.side) == cur && m[c.node].Child(!c.side) != cur
          && c.node != cur && c.node != other && c.node != b)
  }

  lemma RelinkedMemory(m: Memory, c: Ctx, t: T, d: bool, root: Node?)
    requires InMemory(m, c, t, root) && Rotatable(t, d)
    ensures CanRelink(m, c, t.node, d) && m[t.node].Child(!d) == Kid(t, !d).node
    ensures RotatedMemory(m, Relinked(m, c, t.node, d), c, t, d)
  {
    hide InMemory, Relinked, CanRelink, RotatedMemory;
    LinksOfRotation(m, c, t, d, root);
    RelinkedFields(m, c, t.node, d);
    RelinkedIsRotated(m, Relinked(m, c, t.node, d), c, t, d);
  }

  /** The nodes of a rotation, found through their pointers. */
  lemma LinksOfRotation(m: Memory, c: Ctx, t: T, d: bool, root: Node?)
    requires InMemory(m, c, t, root) && Rotatable(t, d)
    ensures CanRelink(m, c, t.node, d)
    ensures var o := Kid(t, !d);
      m[t.node].Child(!d) == o.node && m[o.node].Child(d) == Root(Kid(o, d)) && m[t.node].parent == Parent(c)
  {
    RotationParts(t, d);
    AgreeParts(m, t, d, Parent(c));
    ParentInCtx(c);
    assert AgreeCtx(m, c, t.node);
    if c.F? { HoleSide(m, c, t.node); }
    hide Nodes, CtxNodes, Distinct, DistinctCtx, Agree;
  }

  /** What the assignments leave in the nodes they touch, and that they touch no others. */
  lemma RelinkedFields(m: Memory, c: Ctx, cur: Node, d: bool)
    requires CanRelink(m, c, cur, d)
    ensures var other := m[cur].Child(!d); var b := m[other].Child(d); var r := Relinked(m, c, cur, d);
      && r[cur] == m[cur].(parent := other).WithChild(!d, b)
      && r[other] == m[other].(parent := Parent(c)).WithChild(d, cur)
      && (b != null ==> r[b] == m[b].(parent := cur))
      && (c.F? ==> r[c.node] == m[c.node].WithChild(c.side, other))
      && forall n :: n in m && n != cur && n != other && n != b && n != Parent(c) ==> r[n] == m[n]
  {
  }

  lemma RelinkedIsRotated(m: Memory, r: Memory, c: Ctx, t: T, d: bool)
    requires Rotatable(t, d) && CanRelink(m, c, t.node, d) && r.Keys == m.Keys
    requires var o := Kid(t, !d); m[t.node].Child(!d) == o.node && m[o.node].Child(d) == Root(Kid(o, d))
    requires var o := Kid(t, !d); var b := Root(Kid(o, d));
      && r[t.node] == m[t.node].(parent := o.node).WithChild(!d, b)
      && r[o.node] == m[o.node].(parent := Parent(c)).WithChild(d, t.node)
      && (b != null ==> r[b] == m[b].(parent := t.node))
      && (c.F? ==> r[c.node] == m[c.node].WithChild(c.side, o.node))
      && forall n :: n in m && n != t.node && n != o.node && n != b && n != Parent(c) ==> r[n] == m[n]
    ensures RotatedMemory(m, r, c, t, d)
  {
    hide Nodes, CtxNodes;
  }

  lemma RotatedInMemory(m: Memory, m': Memory, c: Ctx, t: T, d: bool, root: Node?)
    requires InMemory(m, c, t, root) && Rotatable(t, d) && RotatedMemory(m, m', c, t, d)
    ensures InMemory(m', c, Rotated(t, d), if c.Top? then Kid(t, !d).node else root)
  {
    hide Nodes, Distinct, DistinctCtx, CtxNodes;
    var o := Kid(t, !d);
    var a, b, e := Kid(t, d), Kid(o, d), Kid(o, !d);
    RotationParts(t, d);
    RotatedNodes(t, d);
    AgreeParts(m, t, d, Parent(c));
    ParentInCtx(c);
    hide Agree, AgreeCtx;
    AgreeSame(m, m', a, t.node);
    AgreeSame(m, m', e, o.node);
    Rehung(m, m', b, o.node, t.node);
    Refilled(m, m', c, t.node, o.node);
    TopNodeHole(c, t.node, o.node);
    RotatedAgree(m', t, d, Parent(c));
  }

  lemma ParentInCtx(c: Ctx)
    ensures c.F? ==> c.node in CtxNodes(c)
  {
  }

  /** Which child of its parent the node in the hole is. */
  lemma HoleSide(m: Memory, c: Ctx, hole: Node)
    requires c.F? && AgreeCtx(m, c, hole) && hole !in CtxNodes(c)
    ensures c.node in m && m[c.node].Child(c.side) == hole && m[c.node].Child(!c.side) != hole
  {
    assert c.other.N? ==> c.other.node in Nodes(c.other);
  }

  lemma RotatedAgree(m: Memory, t: T, d: bool, parent: Node?)
    requires Rotatable(t, d)
    requires var o := Kid(t, !d); var a, b, e := Kid(t, d), Kid(o, d), Kid(o, !d);
      && Agree(m, a, t.node) && Agree(m, b, t.node) && Agree(m, e, o.node) && t.node in m && o.node in m
      && m[t.node] == Rec(o.node, Root(a), Root(a), t.red, Content(t.item)).WithChild(!d, Root(b))
      && m[o.node] == Rec(parent, Root(e), Root(e), o.red, Content(o.item)).WithChild(d, t.node)
    ensures Agree(m, Rotated(t, d), parent)
  {
    var o := Kid(t, !d);
    assert Agree(m, Mk(t.node, t.red, t.item, d, Kid(t, d), Kid(o, d)), o.node);
  }

  // ----- recolouring -----

  function Recoloured(m: Memory, n: Node, red: bool): Memory
    requires n in m
  {
    m[n := m[n].(red := red)]
  }

  /** The subtree's root changes colour. */
  lemma RecolourFocus(m: Memory, c: Ctx, t: T, root: Node?, red: bool)
    requires InMemory(m, c, t, root) && t.N?
    ensures InMemory(Recoloured(m, t.node, red), c, t.(red := red), root)
  {
    var m' := Recoloured(m, t.node, red);
    AgreeSame(m, m', t.l, t.node);
    AgreeSame(m, m', t.r, t.node);
    AgreeCtxSame(m, m', c, t.node);
  }

  /** The parent changes colour. */
  lemma RecolourParent(m: Memory, c: Ctx, t: T, root: Node?, red: bool)
    requires InMemory(m, c, t, root) && c.F?
    ensures c.node in m && InMemory(Recoloured(m, c.node, red), c.(red := red), t, root)
  {
    hide InMemory;
    var p := Mk(c.node, c.red, c.item, c.side, t, c.other);
    FocusUp(m, c, t, root);
    assert c.node in m by { RootInMemory(m, c.up, p, root); }
    RecolourFocus(m, c.up, p, root, red);
    FocusDown(Recoloured(m, c.node, red), c.up, p.(red := red), root, c.side);
  }

  lemma RootInMemory(m: Memory, c: Ctx, t: T, root: Node?)
    requires InMemory(m, c, t, root)
    ensures t.N? ==> t.node in m && m[t.node] == Rec(Parent(c), Root(t.l), Root(t.r), t.red, Content(t.item))
  {
  }

  lemma RootOfAll(m: Memory, t: T, root: Node?)
    requires InMemory(m, Top, t, root)
    ensures root == Root(t)
  {
  }

  /** The sibling changes colour. */
  lemma RecolourSibling(m: Memory, c: Ctx, t: T, root: Node?, red: bool)
    requires InMemory(m, c, t, root) && c.F? && c.other.N?
    ensures c.other.node in m && InMemory(Recoloured(m, c.other.node, red), c.(other := c.other.(red := red)), t, root)
  {
    hide InMemory;
    var p := Mk(c.node, c.red, c.item, c.side, t, c.other);
    FocusUp(m, c, t, root);
    FocusDown(m, c.up, p, root, !c.side);
    var d := F(c.up, c.node, c.red, c.item, !c.side, t);
    assert c.other.node in m by { RootInMemory(m, d, c.other, root); }
    RecolourFocus(m, d, c.other, root, red);
    var m', o' := Recoloured(m, c.other.node, red), c.other.(red := red);
    FocusUp(m', d, o', root);
    FocusDown(m', c.up, Mk(c.node, c.red, c.item, c.side, t, o'), root, c.side);
  }

  // ----- adding -----

  /** While balancing after an addition only the subtree and its parent may break the rules, by both being red. */
  predicate Adding(c: Ctx, t: T) {
    t.N? && RB(t) && RBCtx(c, Black(t))
  }

  /** The subtree at the parent. */
  function Up1(c: Ctx, t: T): T
    requires c.F?
  {
    Mk(c.node, c.red, c.item, c.side, t, c.other)
  }

  /** The subtree is an inner grandchild, with a red parent and a black uncle. */
  predicate Inner(c: Ctx) {
    c.F? && c.red && c.up.F? && !Red(c.up.other) && c.side != c.up.side
  }

  /** A red uncle: the parent and the uncle turn black, and the red moves up to the grandparent. */
  lemma UncleRed(c: Ctx, t: T)
    requires c.F? && c.red && c.up.F? && Red(c.up.other)
    ensures var up := c.up.(red := true, other := c.up.other.(red := false));
      var t2 := Up1(up, Up1(c.(red := false), t));
      All(c.up.up, t2) == All(c, t) && (Adding(c, t) ==> Adding(c.up.up, t2))
  {
    var up, u := c.up.(red := true, other := c.up.other.(red := false)), c.up.other;
    assert Items(u.(red := false)) == Items(u);
    assert Before(up) == Before(c.up) && After(up) == After(c.up);
    assert All(c.(up := up, red := false), t) == All(c, t);
    AllUp(c.(up := up, red := false), t);
    AllUp(up, Up1(c.(red := false), t));
    if Adding(c, t) { assert RBCtx(c.up, Black(t)); }
  }

  /** The inner grandchild: after a rotation at the parent, the parent is an outer grandchild. That keeps the
      rules around it if the grandchild was red, and breaks them below the parent if it was black. */
  lemma InnerTurned(c: Ctx, t: T)
    requires c.F? && c.red && c.up.F? && c.side != c.up.side && t.N?
    ensures var s := c.up.side;
      var c2 := F(c.up, t.node, t.red, t.item, s, Kid(t, !s));
      var t2 := Mk(c.node, true, c.item, s, c.other, Kid(t, s));
      && Rotatable(Up1(c, t), s) && Rotated(Up1(c, t), s) == Up1(c2, t2)
      && All(c2, t2) == All(c, t)
      && (Adding(c, t) && t.red ==> Adding(c2, t2))
      && (Adding(c, t) && !t.red ==> !RB(t2))
  {
    var s := c.up.side;
    var c2 := F(c.up, t.node, t.red, t.item, s, Kid(t, !s));
    var t2 := Mk(c.node, true, c.item, s, c.other, Kid(t, s));
    RotatedItems(Up1(c, t), s);
    AllUp(c, t);
    AllUp(c2, t2);
  }

  /** The outer grandchild with a black uncle: one rotation at the grandparent ends the balancing. */
  lemma OuterTurned(c: Ctx, t: T)
    requires c.F? && c.up.F? && !Red(c.up.other) && c.side == c.up.side
    ensures var s := c.side;
      var g := Up1(c.up.(red := true), Up1(c.(red := false), t));
      var c2 := F(c.up.up, c.node, false, c.item, s, Mk(c.up.node, true, c.up.item, s, c.other, c.up.other));
      && Rotatable(g, !s) && Rotated(g, !s) == Up1(c2, t) && All(c2, t) == All(c, t)
      && (Adding(c, t) && c.red ==> Adding(c2, t))
  {
    var s := c.side;
    var g := Up1(c.up.(red := true), Up1(c.(red := false), t));
    var c2 := F(c.up.up, c.node, false, c.item, s, Mk(c.up.node, true, c.up.item, s, c.other, c.up.other));
    RotatedItems(g, !s);
    AllUp(c.(red := false), t);
    AllUp(c.up.(red := true), Up1(c.(red := false), t));
    AllUp(c2, t);
    if Adding(c, t) && c.red { assert RBCtx(c.up, Black(t)); }
  }

  lemma {:induction false} PlugNotRB(c: Ctx, t: T)
    requires !RB(t) && c.F?
    ensures var p := Plug(c, t); p.N? && !(RB(p.l) && RB(p.r))
  {
    if c.up.F? {
      PlugNotRB(c.up, Up1(c, t));
    }
  }

  lemma {:induction false} PlugIsNode(c: Ctx, t: T)
    requires t.N?
    ensures Plug(c, t).N?
  {
    if c.F? {
      PlugIsNode(c.up, Up1(c, t));
    }
  }

  /** Balancing after an addition ends with the root made black. */
  lemma AddedRB(c: Ctx, t: T)
    requires t.N? && (c.F? ==> !c.red || c.up.Top?)
    ensures Plug(c, t).N? && Items(Plug(c, t).(red := false)) == All(c, t)
    ensures Adding(c, t) ==> RB(Plug(c, t).(red := false))
    ensures !RB(t) && c.F? ==> !RB(Plug(c, t).(red := false))
  {
    PlugIsNode(c, t);
    AllPlug(c, t);
    if Adding(c, t) && c.F? {
      PlugRB(c, t);
    }
    if !RB(t) && c.F? {
      PlugNotRB(c, t);
    }
  }

  // ----- searching -----

  predicate SortedItems(s: seq<Item>) {
    forall i, j :: 0 <= i < j < |s| ==> s[i].key < s[j].key
  }

  /** The subtree where a key is, or belongs, with the context around it. */
  function Locate(c: Ctx, t: T, key: int): (Ctx, T)
    decreases t
  {
    if t.Leaf? || t.item.key == key then (c, t)
    else
      var side := t.item.key < key;
      Locate(F(c, t.node, t.red, t.item, side, Kid(t, !side)), Kid(t, side), key)
  }

  /** The key lies between the items before a subtree and those after it. */
  predicate Between(c: Ctx, key: int) {
    (forall x :: x in Before(c) ==> x.key < key) && (forall x :: x in After(c) ==> key < x.key)
  }

  lemma BetweenMeans(c: Ctx, key: int)
    requires Between(c, key)
    ensures (forall x :: x in Before(c) ==> x.key < key) && (forall x :: x in After(c) ==> key < x.key)
  {
  }

  /** One step of the search keeps the key between what has been passed. */
  lemma BetweenDown(c: Ctx, t: T, key: int)
    requires t.N? && SortedItems(All(c, t)) && Between(c, key) && t.item.key != key
    ensures var side := t.item.key < key; Between(F(c, t.node, t.red, t.item, side, Kid(t, !side)), key)
  {
    hide SortedItems, Items;
    AroundRoot(c, t);
    SortedAround(Before(c) + Items(t.l), t.item, Items(t.r) + After(c));
  }

  /** The items around that of a subtree's root. */
  lemma AroundRoot(c: Ctx, t: T)
    requires t.N?
    ensures All(c, t) == (Before(c) + Items(t.l)) + [t.item] + (Items(t.r) + After(c))
  {
  }

  lemma SortedAround(a: seq<Item>, x: Item, b: seq<Item>)
    requires SortedItems(a + [x] + b)
    ensures (forall y :: y in a ==> y.key < x.key) && (forall y :: y in b ==> x.key < y.key)
  {
    var s := a + [x] + b;
    assert s[|a|] == x;
    forall y | y in a
      ensures y.key < x.key
    {
      var i :| 0 <= i < |a| && a[i] == y;
      assert s[i] == y;
    }
    forall y | y in b
      ensures x.key < y.key
    {
      var i :| 0 <= i < |b| && b[i] == y;
      assert s[|a| + 1 + i] == y;
    }
  }

  /** Where a node is, the rules hold below it and around it. */
  lemma {:induction false} Unplug(c: Ctx, t: T)
    requires RB(Plug(c, t)) && !Red(Plug(c, t))
    ensures RB(t) && RBCtx(c, Black(t)) && (Red(t) ==> c.F? && !c.red)
  {
    if c.F? {
      Unplug(c.up, Up1(c, t));
    }
  }

  // ----- the contents as a finite map -----

  function AsMap(s: seq<Item>): map<int, Item> {
    if |s| == 0 then map[] else AsMap(s[1..])[s[0].key := s[0]]
  }

  /** A sorted list and its map hold the same items. */
  lemma {:induction false} AsMapHolds(s: seq<Item>)
    requires SortedItems(s)
    ensures forall x :: x in s ==> x.key in AsMap(s) && AsMap(s)[x.key] == x
    ensures forall k :: k in AsMap(s) ==> AsMap(s)[k] in s && AsMap(s)[k].key == k
  {
    if |s| > 0 {
      AsMapHolds(s[1..]);
      assert s == [s[0]] + s[1..];
      assert forall y :: y in s[1..] ==> s[0].key < y.key;
    }
  }

  /** Two maps with the same items are the same. */
  lemma AsMapIs(s: seq<Item>, f: map<int, Item>)
    requires SortedItems(s)
    requires forall x :: x in s ==> x.key in f && f[x.key] == x
    requires forall k :: k in f ==> f[k] in s && f[k].key == k
    ensures AsMap(s) == f
  {
    AsMapHolds(s);
    hide AsMap;
    forall k | k in AsMap(s)
      ensures k in f && f[k] == AsMap(s)[k]
    {
      assert AsMap(s)[k] in s;
    }
    forall k | k in f
      ensures k in AsMap(s)
    {
      assert f[k] in s;
    }
    assert AsMap(s) == f;
  }

  lemma Inserted(a: seq<Item>, x: Item, b: seq<Item>)
    requires SortedItems(a + b)
    requires (forall y :: y in a ==> y.key < x.key) && (forall y :: y in b ==> x.key < y.key)
    ensures SortedItems(a + [x] + b) && x.key !in AsMap(a + b) && AsMap(a + [x] + b) == AsMap(a + b)[x.key := x]
  {
    hide AsMap;
    var s, s' := a + b, a + [x] + b;
    forall i, j | 0 <= i < j < |s'|
      ensures s'[i].key < s'[j].key
    {
      assert i < |a| ==> s'[i] == a[i] == s[i] && a[i] in a;
      assert i > |a| ==> s'[i] == s[i - 1];
      assert j < |a| ==> s'[j] == s[j];
      assert j > |a| ==> s'[j] == b[j - |a| - 1] == s[j - 1] && b[j - |a| - 1] in b;
    }
    AsMapHolds(s);
    assert forall y :: y in s' <==> y in s || y == x;
    assert forall y :: y in s ==> y.key != x.key;
    AsMapIs(s', AsMap(s)[x.key := x]);
  }

  lemma Dropped(a: seq<Item>, x: Item, b: seq<Item>)
    requires SortedItems(a + [x] + b)
    ensures SortedItems(a + b) && AsMap(a + b) == AsMap(a + [x] + b) - {x.key}
  {
    hide AsMap;
    SortedAround(a, x, b);
    var s, s' := a + b, a + [x] + b;
    forall i, j | 0 <= i < j < |s|
      ensures s[i].key < s[j].key
    {
      assert s[i] == if i < |a| then s'[i] else s'[i + 1];
      assert s[j] == if j < |a| then s'[j] else s'[j + 1];
    }
    Inserted(a, x, b);
    assert AsMap(s) == AsMap(s)[x.key := x] - {x.key};
  }

  lemma Exchanged(a: seq<Item>, was: Item, x: Item, b: seq<Item>)
    requires SortedItems(a + [was] + b) && was.key == x.key
    ensures was.key in AsMap(a + [was] + b) && AsMap(a + [was] + b)[was.key] == was
    ensures SortedItems(a + [x] + b) && AsMap(a + [x] + b) == AsMap(a + [was] + b)[x.key := x]
  {
    hide AsMap;
    SortedAround(a, was, b);
    Dropped(a, was, b);
    Inserted(a, x, b);
    Inserted(a, was, b);
  }

  // ----- attaching a node -----

  /** A new node is put in a hole that holds no subtree. */
  lemma Attached(m: Memory, c: Ctx, root: Node?, n: Node, item: Item)
    requires InMemory(m, c, Leaf, root) && n !in CtxNodes(c)
    ensures c.F? ==> c.node in m
    ensures InMemory(Reseated(m, c, n)[n := Rec(Parent(c), null, null, true, Content(item))],
                     c, N(n, true, item, Leaf, Leaf), if c.Top? then n else root)
  {
    var m1 := Reseated(m, c, n);
    var m2 := m1[n := Rec(Parent(c), null, null, true, Content(item))];
    ParentInCtx(c);
    TopNodeHole(c, null, n);
    Refilled(m, m1, c, null, n);
    AgreeCtxSame(m1, m2, c, n);
  }

  /** A node's content is replaced. */
  lemma Recontented(m: Memory, c: Ctx, t: T, root: Node?, item: Item)
    requires InMemory(m, c, t, root) && t.N?
    ensures t.node in m && InMemory(m[t.node := m[t.node].(content := Content(item))], c, t.(item := item), root)
  {
    var m' := m[t.node := m[t.node].(content := Content(item))];
    AgreeSame(m, m', t.l, t.node);
    AgreeSame(m, m', t.r, t.node);
    AgreeCtxSame(m, m', c, t.node);
  }

  // ----- counting -----

  lemma {:induction false} NodesCount(t: T)
    requires Distinct(t)
    ensures |Nodes(t)| == |Items(t)|
  {
    if t.N? {
      NodesCount(t.l);
      NodesCount(t.r);
      assert Nodes(t) == Nodes(t.l) + Nodes(t.r) + {t.node};
    }
  }

  lemma {:induction false} NodesInMemory(m: Memory, t: T, parent: Node?)
    requires Agree(m, t, parent)
    ensures Nodes(t) <= m.Keys
  {
    if t.N? {
      NodesInMemory(m, t.l, t.node);
      NodesInMemory(m, t.r, t.node);
    }
  }

  lemma {:induction false} CtxInMemory(m: Memory, c: Ctx, hole: Node?)
    requires AgreeCtx(m, c, hole)
    ensures CtxNodes(c) <= m.Keys
  {
    if c.F? {
      NodesInMemory(m, c.other, c.node);
      CtxInMemory(m, c.up, c.node);
    }
  }

  lemma SubsetSize<A>(a: set<A>, b: set<A>)
    requires a <= b
    ensures |a| <= |b| && (|a| == |b| ==> a == b)
  {
    assert b == a + (b - a) && a !! (b - a);
    assert |b| == |a| + |b - a|;
    assert |b - a| == 0 ==> b - a == {};
  }

  /** A memory with as many nodes as there are items has no other nodes than the tree's. */
  lemma NoOtherNodes(m: Memory, t: T, root: Node?)
    requires InMemory(m, Top, t, root) && |m.Keys| == |Items(t)|
    ensures m.Keys == Nodes(t)
  {
    NodesCount(t);
    NodesInMemory(m, t, null);
    SubsetSize(Nodes(t), m.Keys);
  }
}
