/** Taking a node out of a red-black tree, on values. */
module Removal {
  import opened RedBlack

  /** While balancing after a removal the subtree is one black node short, and its root may be red below a
      red parent. */
  predicate Removing(c: Ctx, t: T) {
    Almost(t) && RBCtx(c, Black(t) + 1)
  }

  /** The same place, seen from the sibling. */
  function AtSibling(c: Ctx, t: T): Ctx
    requires c.F?
  {
    F(c.up, c.node, c.red, c.item, !c.side, t)
  }

  lemma FocusAcross(m: Memory, c: Ctx, t: T, root: Node?)
    requires InMemory(m, c, t, root) && c.F?
    ensures InMemory(m, AtSibling(c, t), c.other, root)
  {
    hide InMemory;
    FocusUp(m, c, t, root);
    FocusDown(m, c.up, Up1(c, t), root, !c.side);
  }

  function WithKid(t: T, side: bool, k: T): (r: T)
    requires t.N?
    ensures r.N?
  {
    Mk(t.node, t.red, t.item, side, k, Kid(t, !side))
  }

  /** A child changes colour. */
  lemma RecolourKid(m: Memory, c: Ctx, t: T, root: Node?, side: bool, red: bool)
    requires InMemory(m, c, t, root) && t.N? && Kid(t, side).N?
    ensures Kid(t, side).node in m
    ensures InMemory(Recoloured(m, Kid(t, side).node, red), c, WithKid(t, side, Kid(t, side).(red := red)), root)
  {
    hide InMemory;
    var d, k := F(c, t.node, t.red, t.item, side, Kid(t, !side)), Kid(t, side);
    FocusDown(m, c, t, root, side);
    RootInMemory(m, d, k, root);
    RecolourFocus(m, d, k, root, red);
    FocusUp(Recoloured(m, k.node, red), d, k.(red := red), root);
  }

  // ----- the cases of TreeBARSub -----

  /** The context after the rotation for a red sibling. */
  function SiblingTurned(c: Ctx): Ctx
    requires c.F? && c.other.N?
  {
    var s, o := c.side, c.other;
    F(F(c.up, o.node, false, o.item, s, Kid(o, !s)), c.node, true, c.item, s, Kid(o, s))
  }

  lemma SiblingRed(c: Ctx, t: T)
    requires c.F? && Red(c.other)
    ensures var o, s := c.other.(red := false), c.side; var p := Up1(c.(red := true, other := o), t);
      var c2 := SiblingTurned(c);
      && Rotatable(p, s) && Rotated(p, s) == Up1(c2.up, Up1(c2, t)) && All(c2, t) == All(c, t)
      && (Removing(c, t) ==> Removing(c2, t) && !Red(c2.other))
  {
    var o, s := c.other.(red := false), c.side;
    var c1 := c.(red := true, other := o);
    var c2 := SiblingTurned(c);
    assert Items(o) == Items(c.other);
    AllUp(c1, t);
    RotatedItems(Up1(c1, t), s);
    AllUp(c2, t);
    AllUp(c2.up, Up1(c2, t));
  }

  /** A sibling with black children: it turns red, and the parent's subtree is now the short one. */
  lemma SiblingReddened(c: Ctx, t: T)
    requires c.F? && c.other.N? && !Red(c.other.l) && !Red(c.other.r) && !Red(t)
    ensures var t2 := Up1(c.(other := c.other.(red := true)), t);
      All(c.up, t2) == All(c, t) && (Removing(c, t) && !Red(c.other) ==> Removing(c.up, t2))
  {
    var c1 := c.(other := c.other.(red := true));
    assert Items(c1.other) == Items(c.other);
    AllUp(c1, t);
  }

  /** No sibling: cannot happen in a balanced tree. */
  lemma SiblingMissing(c: Ctx, t: T)
    requires c.F? && c.other.Leaf?
    ensures All(c.up, Up1(c, t)) == All(c, t) && !Removing(c, t)
  {
    AllUp(c, t);
  }

  /** A red near nephew takes the sibling's place. */
  function NearTurned(o: T, side: bool): T
    requires o.N? && Kid(o, side).N?
  {
    var n := Kid(o, side);
    Mk(n.node, false, n.item, !side, Mk(o.node, true, o.item, !side, Kid(o, !side), Kid(n, !side)), Kid(n, side))
  }

  lemma NearRed(c: Ctx, t: T)
    requires c.F? && c.other.N? && Red(Kid(c.other, c.side)) && !Red(Kid(c.other, !c.side))
    ensures var o, s := c.other, c.side; var o1 := WithKid(o, s, Kid(o, s).(red := false)).(red := true);
      var o2 := NearTurned(o, s);
      && Rotatable(o1, !s) && Rotated(o1, !s) == o2 && All(c.(other := o2), t) == All(c, t)
      && Red(Kid(o2, !s)) && !Red(o2)
      && (Removing(c, t) && !Red(o) ==> Removing(c.(other := o2), t))
  {
    var o, s := c.other, c.side;
    var n := Kid(o, s);
    var o1 := Mk(o.node, true, o.item, s, n.(red := false), Kid(o, !s));
    assert Items(n.(red := false)) == Items(n);
    assert Items(o1) == Items(o);
    RotatedItems(o1, !s);
    NearRedColours(o, s);
  }

  lemma NearRedColours(o: T, s: bool)
    requires o.N? && Red(Kid(o, s)) && !Red(Kid(o, !s))
    ensures RB(o) && !o.red ==> RB(NearTurned(o, s)) && Black(NearTurned(o, s)) == Black(o)
  {
    if RB(o) && !o.red {
      var n := Kid(o, s);
      assert RB(n) && RB(Kid(n, s)) && RB(Kid(n, !s));
      var x := Mk(o.node, true, o.item, !s, Kid(o, !s), Kid(n, !s));
      assert RB(x) && Black(x) == Black(n);
    }
  }

  /** With a red far nephew, the sibling takes the parent's place and its colour. */
  function FarTurned(c: Ctx, t: T): T
    requires c.F? && c.other.N? && Kid(c.other, !c.side).N?
  {
    var s, o := c.side, c.other;
    Mk(o.node, c.red, o.item, s, Mk(c.node, false, c.item, s, t, Kid(o, s)), Kid(o, !s).(red := false))
  }

  lemma FarRed(c: Ctx, t: T)
    requires c.F? && c.other.N? && Red(Kid(c.other, !c.side)) && !Red(t)
    ensures var s := c.side; var o := WithKid(c.other, !s, Kid(c.other, !s).(red := false)).(red := c.red);
      var p := Up1(c.(red := false, other := o), t); var r := FarTurned(c, t);
      && Rotatable(p, s) && Rotated(p, s) == r && All(c.up, r) == All(c, t)
      && (Removing(c, t) && !Red(c.other) ==> RB(r) && RBCtx(c.up, Black(r)) && (Red(r) ==> c.up.F? && !c.up.red))
  {
    FarRedColours(c, t);
    hide RB, RBCtx;
    var s := c.side;
    var f := Kid(c.other, !s);
    var o := Mk(c.other.node, c.red, c.other.item, !s, f.(red := false), Kid(c.other, s));
    assert Items(f.(red := false)) == Items(f);
    assert Items(o) == Items(c.other);
    var c1 := c.(red := false, other := o);
    AllUp(c1, t);
    RotatedItems(Up1(c1, t), s);
  }

  lemma FarRedColours(c: Ctx, t: T)
    requires c.F? && c.other.N? && Red(Kid(c.other, !c.side)) && !Red(t)
    ensures Removing(c, t) && !Red(c.other) ==>
      var r := FarTurned(c, t); RB(r) && RBCtx(c.up, Black(r)) && (Red(r) ==> c.up.F? && !c.up.red)
  {
    if Removing(c, t) && !Red(c.other) {
      var s, o := c.side, c.other;
      var f := Kid(o, !s).(red := false);
      assert RB(Kid(o, !s)) && RB(f) && Black(f) == Black(Kid(o, !s)) + 1;
      var x := Mk(c.node, false, c.item, s, t, Kid(o, s));
      assert RB(t) && RB(x) && Black(x) == Black(t) + 1 == Black(f);
    }
  }

  /** Balancing ends with the node it has reached made black. */
  lemma RemovedRB(c: Ctx, t: T)
    requires t.N? && (c.Top? || t.red)
    ensures All(c, t.(red := false)) == All(c, t)
    ensures Removing(c, t) ==> RB(Plug(c, t.(red := false))) && !Red(Plug(c, t.(red := false)))
  {
    var t2 := t.(red := false);
    assert Items(t2) == Items(t);
    if Removing(c, t) {
      assert RB(t2);
      if c.F? { PlugRB(c, t2); }
    }
  }

  /** Once the rules hold again, the whole tree is a place where balancing may stop. */
  lemma WholeRemoving(c: Ctx, t: T)
    ensures RB(t) && RBCtx(c, Black(t)) && (Red(t) ==> c.F? && !c.red) ==> Removing(Top, Plug(c, t))
  {
    if RB(t) && RBCtx(c, Black(t)) && (Red(t) ==> c.F? && !c.red) {
      PlugRB(c, t);
    }
  }

  // ----- the node to take out -----

  /** The one child of a node with at most one child. */
  function Only(t: T): T
    requires t.N?
  {
    if t.l.N? then t.l else t.r
  }

  /** The assignments that take a node out: its only child gets its parent, and its parent its only child. */
  ghost function Unlinked(m: Memory, c: Ctx, child: Node?): (r: Memory)
    requires (child != null ==> child in m) && (c.F? ==> c.node in m)
    ensures r.Keys == m.Keys
  {
    Reseated(if child == null then m else m[child := m[child].(parent := Parent(c))], c, child)
  }

  lemma UnlinkedInMemory(m: Memory, c: Ctx, t: T, root: Node?)
    requires InMemory(m, c, t, root) && t.N? && (t.l.Leaf? || t.r.Leaf?)
    ensures (Only(t).N? ==> Only(t).node in m) && (c.F? ==> c.node in m)
    ensures InMemory(Unlinked(m, c, Root(Only(t))), c, Only(t), if c.Top? then Root(Only(t)) else root)
  {
    var k := Only(t);
    assert Agree(m, k, t.node);
    var m' := Unlinked(m, c, Root(k));
    ParentInCtx(c);
    TopNodeHole(c, t.node, Root(k));
    assert Nodes(k) <= Nodes(t) && Distinct(k) && (k.N? ==> k.node in Nodes(k));
    hide Nodes, CtxNodes, Distinct, DistinctCtx;
    Rehung(m, m', k, t.node, Parent(c));
    Refilled(m, m', c, t.node, Root(k));
  }

  /** The path from a subtree to its least node. */
  function MinCtx(b: Ctx, s: T): Ctx
    requires s.N?
    decreases s
  {
    if s.l.Leaf? then b else MinCtx(F(b, s.node, s.red, s.item, LEFT, s.r), s.l)
  }

  /** The subtree at the least node. */
  function MinT(s: T): (r: T)
    requires s.N?
    ensures r.N? && r.l.Leaf?
  {
    if s.l.Leaf? then s else MinT(s.l)
  }

  /** The subtree with another one in the place of that at its least node. */
  function PlugMin(s: T, x: T): T
    requires s.N?
  {
    if s.l.Leaf? then x else N(s.node, s.red, s.item, PlugMin(s.l, x), s.r)
  }

  lemma {:induction false} PlugMinCtx(b: Ctx, s: T, x: T)
    requires s.N?
    ensures Plug(MinCtx(b, s), x) == Plug(b, PlugMin(s, x)) && PlugMin(s, MinT(s)) == s
    ensures b.F? ==> MinCtx(b, s).F?
    decreases s
  {
    if s.l.N? {
      PlugMinCtx(F(b, s.node, s.red, s.item, LEFT, s.r), s.l, x);
    }
  }

  lemma {:induction false} MinAll(b: Ctx, s: T, x: T)
    requires s.N?
    ensures All(MinCtx(b, s), x) == All(b, PlugMin(s, x))
    decreases s
  {
    if s.l.N? {
      var d := F(b, s.node, s.red, s.item, LEFT, s.r);
      MinAll(d, s.l, x);
      AllUp(d, PlugMin(s.l, x));
    }
  }

  /** Without its least node, a subtree has lost its first item. */
  lemma {:induction false} WithoutMin(s: T)
    requires s.N?
    ensures Items(s) == [MinT(s).item] + Items(PlugMin(s, Only(MinT(s))))
  {
    if s.l.N? {
      WithoutMin(s.l);
    }
  }

  lemma {:induction false} MinUp(m: Memory, b: Ctx, s: T, x: T, root: Node?)
    requires s.N? && InMemory(m, MinCtx(b, s), x, root)
    ensures InMemory(m, b, PlugMin(s, x), root)
    decreases s
  {
    hide InMemory;
    if s.l.N? {
      var d := F(b, s.node, s.red, s.item, LEFT, s.r);
      MinUp(m, d, s.l, x, root);
      FocusUp(m, d, PlugMin(s.l, x), root);
    }
  }

  lemma {:induction false} MinDown(m: Memory, b: Ctx, s: T, x: T, root: Node?)
    requires s.N? && InMemory(m, b, PlugMin(s, x), root)
    ensures InMemory(m, MinCtx(b, s), x, root)
    decreases s
  {
    hide InMemory;
    if s.l.N? {
      var d := F(b, s.node, s.red, s.item, LEFT, s.r);
      FocusDown(m, b, PlugMin(s, x), root, LEFT);
      MinDown(m, d, s.l, x, root);
    }
  }

  /** The node with two children takes over the content of the least node on its right. */
  lemma TakenOver(m: Memory, b: Ctx, s: T, x: T, root: Node?, item: Item)
    requires s.N? && b.F? && InMemory(m, MinCtx(b, s), x, root)
    ensures b.node in m
    ensures InMemory(m[b.node := m[b.node].(content := Content(item))], MinCtx(b.(item := item), s), x, root)
  {
    hide InMemory, Agree, AgreeCtx, MinCtx;
    MinUp(m, b, s, x, root);
    var t := PlugMin(s, x);
    FocusUp(m, b, t, root);
    Recontented(m, b.up, Up1(b, t), root, item);
    var m' := m[b.node := m[b.node].(content := Content(item))];
    FocusDown(m', b.up, Up1(b.(item := item), t), root, b.side);
    MinDown(m', b.(item := item), s, x, root);
  }

  /** Around a node about to be taken out, the rules hold. */
  lemma AroundMin(c: Ctx, t: T, item: Item)
    requires t.N? && t.r.N? && RB(Plug(c, t)) && !Red(Plug(c, t))
    ensures var c2 := MinCtx(F(c, t.node, t.red, item, RIGHT, t.l), t.r); var r := MinT(t.r);
      RB(r) && RBCtx(c2, Black(r)) && (Red(r) ==> c2.F? && !c2.red)
  {
    var t2 := t.(item := item);
    var b := F(c, t.node, t.red, item, RIGHT, t.l);
    Unplug(c, t);
    PlugRB(c, t2);
    PlugMinCtx(b, t.r, MinT(t.r));
    Unplug(MinCtx(b, t.r), MinT(t.r));
  }

  /** Taking out a red node keeps the rules; taking out a black one leaves its child's subtree one black node short. */
  lemma Shortened(c: Ctx, t: T)
    requires t.N? && (t.l.Leaf? || t.r.Leaf?) && RB(t) && RBCtx(c, Black(t)) && (Red(t) ==> c.F? && !c.red)
    ensures t.red ==> RB(Plug(c, Only(t))) && !Red(Plug(c, Only(t)))
    ensures !t.red ==> Removing(c, Only(t))
  {
    if t.red {
      PlugRB(c, Only(t));
    }
  }

  /** The path to a node. */
  ghost function Reach(c: Ctx, t: T, n: Node): (r: (Ctx, T))
    requires n in Nodes(t)
    ensures r.1.N? && r.1.node == n && Plug(r.0, r.1) == Plug(c, t)
    decreases t
  {
    if t.node == n then (c, t)
    else if n in Nodes(t.l) then Reach(F(c, t.node, t.red, t.item, LEFT, t.r), t.l, n)
    else Reach(F(c, t.node, t.red, t.item, RIGHT, t.l), t.r, n)
  }

  lemma {:induction false} Reached(m: Memory, c: Ctx, t: T, root: Node?, n: Node)
    requires n in Nodes(t) && InMemory(m, c, t, root)
    ensures var r := Reach(c, t, n); InMemory(m, r.0, r.1, root) && All(r.0, r.1) == All(c, t)
    decreases t
  {
    if t.node != n {
      var side := n !in Nodes(t.l);
      hide InMemory;
      var d := F(c, t.node, t.red, t.item, side, Kid(t, !side));
      FocusDown(m, c, t, root, side);
      AllUp(d, Kid(t, side));
      Reached(m, d, Kid(t, side), root, n);
    }
  }

  /** A node that is in no part of the tree can be forgotten. */
  lemma Forgotten(m: Memory, c: Ctx, t: T, root: Node?, n: Node)
    requires InMemory(m, c, t, root) && n !in CtxNodes(c) && n !in Nodes(t)
    ensures InMemory(m - {n}, c, t, root)
  {
    AgreeSame(m, m - {n}, t, Parent(c));
    AgreeCtxSame(m, m - {n}, c, Root(t));
  }

  /** The node to take out for the one at (c, t): itself, or with two children the least node on its right. */
  function Redundant(t: T): T
    requires t.N?
  {
    if t.l.N? && t.r.N? then MinT(t.r) else t
  }

  /** Its context, once the content of the node taken out has been moved. */
  function RedundantCtx(c: Ctx, t: T, item: Item): Ctx
    requires t.N?
  {
    if t.l.N? && t.r.N? then MinCtx(F(c, t.node, t.red, item, RIGHT, t.l), t.r) else c
  }

  lemma RedundantHasOneChild(t: T)
    requires t.N?
    ensures var r := Redundant(t); r.N? && (r.l.Leaf? || r.r.Leaf?)
  {
  }

  lemma RedundantRB(c: Ctx, t: T, item: Item)
    requires t.N?
    ensures RB(Plug(c, t)) && !Red(Plug(c, t)) ==>
      var r := Redundant(t); var c2 := RedundantCtx(c, t, item);
      RB(r) && RBCtx(c2, Black(r)) && (Red(r) ==> c2.F? && !c2.red)
  {
    if RB(Plug(c, t)) && !Red(Plug(c, t)) {
      if t.l.N? && t.r.N? {
        AroundMin(c, t, item);
      } else {
        Unplug(c, t);
      }
    }
  }

  /** Only the item of the node to remove is gone. */
  lemma RedundantItems(c: Ctx, t: T)
    requires t.N?
    ensures All(RedundantCtx(c, t, Redundant(t).item), Only(Redundant(t))) ==
      (Before(c) + Items(t.l)) + (Items(t.r) + After(c))
  {
    if t.l.N? && t.r.N? {
      TwoChildren(c, t);
    } else {
      hide Before, After;
      assert Items(Only(t)) == Items(t.l) + Items(t.r);
    }
  }

  lemma TwoChildren(c: Ctx, t: T)
    requires t.N? && t.l.N? && t.r.N?
    ensures var r := MinT(t.r);
      All(MinCtx(F(c, t.node, t.red, r.item, RIGHT, t.l), t.r), Only(r)) ==
        (Before(c) + Items(t.l)) + (Items(t.r) + After(c))
  {
    hide Items, MinCtx, PlugMin, MinT, Only;
    var r := MinT(t.r);
    var b := F(c, t.node, t.red, r.item, RIGHT, t.l);
    MinAll(b, t.r, Only(r));
    WithoutMin(t.r);
    Regrouped(Before(c) + Items(t.l), r.item, Items(PlugMin(t.r, Only(r))), After(c));
  }

  lemma Regrouped(a: seq<Item>, x: Item, b: seq<Item>, d: seq<Item>)
    ensures (a + [x]) + b + d == a + (([x] + b) + d)
  {
  }

  /** The least node's place. */
  lemma {:induction false} MinPlace(m: Memory, b: Ctx, s: T, root: Node?)
    requires s.N? && InMemory(m, b, s, root)
    ensures InMemory(m, MinCtx(b, s), MinT(s), root)
  {
    PlugMinCtx(b, s, Leaf);
    MinDown(m, b, s, MinT(s), root);
  }

  // ----- the nodes in order -----

  function NodeSeq(t: T): seq<Node> {
    if t.Leaf? then [] else NodeSeq(t.l) + [t.node] + NodeSeq(t.r)
  }

  function NodesBefore(c: Ctx): seq<Node> {
    match c
    case Top => []
    case F(up, node, _, _, side, other) => if side then NodesBefore(up) + NodeSeq(other) + [node] else NodesBefore(up)
  }

  function NodesAfter(c: Ctx): seq<Node> {
    match c
    case Top => []
    case F(up, node, _, _, side, other) => if side then NodesAfter(up) else [node] + NodeSeq(other) + NodesAfter(up)
  }

  lemma {:induction false} PlugNodeSeq(c: Ctx, t: T)
    ensures NodeSeq(Plug(c, t)) == NodesBefore(c) + NodeSeq(t) + NodesAfter(c)
  {
    if c.F? {
      PlugNodeSeq(c.up, Up1(c, t));
    }
  }

  lemma {:induction false} MinIsFirst(s: T)
    requires s.N?
    ensures |NodeSeq(s)| > 0 && NodeSeq(s)[0] == MinT(s).node
  {
    if s.l.N? {
      MinIsFirst(s.l);
    }
  }

  /** The nodes in order hold the items in order. */
  lemma {:induction false} NodeSeqItems(m: Memory, t: T, parent: Node?)
    requires Agree(m, t, parent)
    ensures |NodeSeq(t)| == |Items(t)|
    ensures forall i :: 0 <= i < |NodeSeq(t)| ==> NodeSeq(t)[i] in m && m[NodeSeq(t)[i]].content == Content(Items(t)[i])
  {
    if t.N? {
      NodeSeqItems(m, t.l, t.node);
      NodeSeqItems(m, t.r, t.node);
    }
  }

  lemma {:induction false} NodeSeqNodes(t: T)
    ensures forall n :: n in NodeSeq(t) <==> n in Nodes(t)
  {
    if t.N? {
      NodeSeqNodes(t.l);
      NodeSeqNodes(t.r);
    }
  }

  function First(s: seq<Node>): Node? { if |s| == 0 then null else s[0] }

  lemma EmptyOrder(t: T)
    ensures t.Leaf? ==> NodeSeq(t) == []
  {
  }

  /** In a tree's order, a node is followed by the nodes of its right subtree and those after it. */
  lemma NextInOrder(c: Ctx, t: T)
    requires t.N?
    ensures var i := |NodesBefore(c)| + |NodeSeq(t.l)|; var s := NodeSeq(Plug(c, t));
      i < |s| && s[i] == t.node && s[i + 1..] == NodeSeq(t.r) + NodesAfter(c)
  {
    PlugNodeSeq(c, t);
    hide Plug, NodesBefore, NodesAfter;
    SplitAt(NodesBefore(c), NodeSeq(t.l), t.node, NodeSeq(t.r), NodesAfter(c));
  }

  lemma SplitAt(a: seq<Node>, l: seq<Node>, n: Node, r: seq<Node>, b: seq<Node>)
    ensures var s := a + (l + [n] + r) + b; var i := |a| + |l|; i < |s| && s[i] == n && s[i + 1..] == r + b
  {
    var s := a + (l + [n] + r) + b;
    assert s == (a + l + [n]) + (r + b);
  }

  lemma {:induction false} NodeSeqMember(t: T, i: nat)
    requires i < |NodeSeq(t)|
    ensures NodeSeq(t)[i] in Nodes(t)
  {
    var l := |NodeSeq(t.l)|;
    if i < l {
      NodeSeqMember(t.l, i);
    } else if i > l {
      NodeSeqMember(t.r, i - l - 1);
    }
  }

  lemma {:induction false} OrderDistinct(t: T)
    requires Distinct(t)
    ensures forall i, j :: 0 <= i < j < |NodeSeq(t)| ==> NodeSeq(t)[i] != NodeSeq(t)[j]
  {
    if t.N? {
      OrderDistinct(t.l);
      OrderDistinct(t.r);
      var a, b := NodeSeq(t.l), NodeSeq(t.r);
      var s := a + [t.node] + b;
      forall i, j | 0 <= i < j < |s|
        ensures s[i] != s[j]
      {
        if i < |a| { NodeSeqMember(t.l, i); }
        if j > |a| { NodeSeqMember(t.r, j - |a| - 1); }
      }
    }
  }

  /** The least node on the right of a node is another one. */
  lemma MinDiffers(m: Memory, c: Ctx, t: T, root: Node?)
    requires t.N? && t.r.N? && InMemory(m, c, t, root)
    ensures MinT(t.r).node != t.node
  {
    MinIsFirst(t.r);
    NodeSeqNodes(t.r);
    assert NodeSeq(t.r)[0] in NodeSeq(t.r);
  }

  /** A node taken out is in no remaining part. */
  lemma RedundantApart(m: Memory, c: Ctx, t: T, root: Node?)
    requires t.N? && InMemory(m, c, t, root)
    ensures t.node in m && t.node !in CtxNodes(c) && t.node !in Nodes(Only(t))
  {
    assert t.node in Nodes(t);
  }

  /** Moving a content does not change which nodes there are. */
  lemma {:induction false} MinCtxNodes(b: Ctx, s: T, item: Item)
    requires b.F? && s.N?
    ensures CtxNodes(MinCtx(b.(item := item), s)) == CtxNodes(MinCtx(b, s)) && MinCtx(b, s).F?
    ensures MinCtx(b.(item := item), s).F?
    ensures MinCtx(b.(item := item), s).node == MinCtx(b, s).node
  {
    MinCtxNodesOf(b, s);
    MinCtxNodesOf(b.(item := item), s);
  }

  lemma {:induction false} MinCtxNodesOf(b: Ctx, s: T)
    requires b.F? && s.N?
    ensures CtxNodes(MinCtx(b, s)) == CtxNodes(b) + SpineNodes(s) && MinCtx(b, s).F?
    ensures MinCtx(b, s).node == if s.l.Leaf? then b.node else SpineEnd(s)
    decreases s
  {
    if s.l.N? {
      MinCtxNodesOf(F(b, s.node, s.red, s.item, LEFT, s.r), s.l);
    }
  }

  /** The nodes of a subtree that its least node's context goes through. */
  function SpineNodes(s: T): set<Node> {
    if s.Leaf? || s.l.Leaf? then {} else {s.node} + Nodes(s.r) + SpineNodes(s.l)
  }

  /** The parent of the least node. */
  function SpineEnd(s: T): Node
    requires s.N? && s.l.N?
  {
    if s.l.l.Leaf? then s.node else SpineEnd(s.l)
  }

  /** What is left to do after taking out a node: nothing if it was red, or black with no child and no parent. */
  lemma SettledRB(c: Ctx, r: T)
    requires r.N? && (r.l.Leaf? || r.r.Leaf?)
    ensures RB(r) && RBCtx(c, Black(r)) && (Red(r) ==> c.F? && !c.red) ==>
      && (r.red || (Only(r).Leaf? && c.Top?) ==> RB(Plug(c, Only(r))) && !Red(Plug(c, Only(r))))
      && (!r.red ==> Removing(c, Only(r)))
  {
    if RB(r) && RBCtx(c, Black(r)) && (Red(r) ==> c.F? && !c.red) {
      Shortened(c, r);
    }
  }

  // ----- height -----

  function Pow2(n: nat): (r: nat)
    ensures r > 0
  {
    if n == 0 then 1 else 2 * Pow2(n - 1)
  }

  function Height(t: T): nat {
    if t.Leaf? then 0 else 1 + if Height(t.l) > Height(t.r) then Height(t.l) else Height(t.r)
  }

  lemma {:induction false} BlackBounds(t: T)
    requires RB(t)
    ensures Height(t) <= 2 * Black(t) + (if Red(t) then 1 else 0)
    ensures Pow2(Black(t)) <= |Items(t)| + 1
  {
    if t.N? {
      BlackBounds(t.l);
      BlackBounds(t.r);
    }
  }

  lemma {:induction false} Pow2Sum(a: nat, b: nat)
    ensures Pow2(a + b) == Pow2(a) * Pow2(b)
  {
    if a > 0 {
      Pow2Sum(a - 1, b);
      assert Pow2(a + b) == 2 * Pow2(a - 1 + b);
    }
  }

  lemma {:induction false} Pow2Grows(a: nat, b: nat)
    requires a <= b
    ensures Pow2(a) <= Pow2(b)
  {
    if a < b {
      Pow2Grows(a, b - 1);
    }
  }

  /** The height of a balanced tree of n items is at most 2 * log2(n + 1). */
  lemma HeightBound(t: T)
    requires RB(t) && !Red(t)
    ensures Pow2(Height(t)) <= (|Items(t)| + 1) * (|Items(t)| + 1)
  {
    BlackBounds(t);
    var b := Black(t);
    Pow2Grows(Height(t), b + b);
    Pow2Sum(b, b);
    Squares(Pow2(b), |Items(t)| + 1);
  }

  lemma Squares(x: nat, y: nat)
    requires x <= y
    ensures x * x <= y * y
  {
  }
}
