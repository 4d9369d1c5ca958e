/** The red-black tree of Tree.c, with its parent pointers. */
module Tree {
  import opened RedBlack
  import opened Removal

  datatype Op = Add(item: Item) | Remove(key: int)

  /** What a run of operations leaves in a finite map. */
  function Applied(m: map<int, Item>, ops: seq<Op>): map<int, Item> {
    if |ops| == 0 then m
    else
      var before := Applied(m, ops[..|ops| - 1]);
      match ops[|ops| - 1]
      case Add(item) => before[item.key := item]
      case Remove(key) => before - {key}
  }

  /** No key is added while it is there. */
  predicate FreshAdds(m: map<int, Item>, ops: seq<Op>) {
    forall i :: 0 <= i < |ops| && ops[i].Add? ==> ops[i].item.key !in Applied(m, ops[..i])
  }

  lemma AppliedNone(m: map<int, Item>)
    ensures Applied(m, []) == m
  {
  }

  lemma AppliedNext(m: map<int, Item>, ops: seq<Op>, i: nat)
    requires i < |ops|
    ensures Applied(m, ops[..i + 1]) ==
      match ops[i]
      case Add(item) => Applied(m, ops[..i])[item.key := item]
      case Remove(key) => Applied(m, ops[..i]) - {key}
  {
    assert ops[..i + 1][..i] == ops[..i];
  }

  class Tree {
    var root: Node?
    var count: nat
    const allowDuplicates: bool
    ghost var mem: Memory
    ghost var shape: T

    /** The ghost memory holds what the nodes hold. */
    ghost predicate Mirrors()
      reads this`mem, mem.Keys
    {
      forall n :: n in mem ==> n.Fields() == mem[n]
    }

    method SetParent(n: Node, p: Node?)
      requires Mirrors() && n in mem
      modifies this`mem, n
      ensures Mirrors() && mem.Keys == old(mem.Keys) && mem == old(mem)[n := old(mem)[n].(parent := p)]
    {
      n.parent := p;
      mem := mem[n := mem[n].(parent := p)];
    }

    method SetChild(n: Node, which: bool, v: Node?)
      requires Mirrors() && n in mem
      modifies this`mem, n
      ensures Mirrors() && mem.Keys == old(mem.Keys) && mem == old(mem)[n := old(mem)[n].WithChild(which, v)]
    {
      if which { n.right := v; } else { n.left := v; }
      mem := mem[n := mem[n].WithChild(which, v)];
    }

    method SetRed(n: Node, red: bool)
      requires Mirrors() && n in mem
      modifies this`mem, n
      ensures Mirrors() && mem.Keys == old(mem.Keys) && mem == old(mem)[n := old(mem)[n].(red := red)]
    {
      n.red := red;
      mem := mem[n := mem[n].(red := red)];
    }

    method SetContent(n: Node, content: Content)
      requires Mirrors() && n in mem
      modifies this`mem, n
      ensures Mirrors() && mem.Keys == old(mem.Keys) && mem == old(mem)[n := old(mem)[n].(content := content)]
    {
      n.content := content;
      mem := mem[n := mem[n].(content := content)];
    }

    /** The pointer to cur, in its parent or in the tree, is made to point to n. */
    method Replace(cur: Node, parent: Node?, d: bool, n: Node?, ghost c: Ctx)
      requires Mirrors() && parent == Parent(c)
      requires c.F? ==> c.node in mem && mem[c.node].Child(c.side) == cur && mem[c.node].Child(!c.side) != cur
      modifies this`root, this`mem, parent
      ensures Mirrors() && mem == Reseated(old(mem), c, n)
      ensures root == if c.F? then old(root) else n
    {
      if parent == null {
        root := n;
      } else if cur == parent.Child(d) {
        SetChild(parent, d, n);
      } else {
        SetChild(parent, !d, n);
      }
    }

    method Lower(cur: Node, other: Node, d: bool)
      requires Mirrors() && cur in mem && other in mem && cur != other && mem[other].Child(d) != cur
      requires mem[other].Child(d) != null ==> mem[other].Child(d) in mem
      modifies this`mem, mem.Keys
      ensures Mirrors() && mem == Lowered(old(mem), cur, other, old(mem)[other].Child(d), old(mem)[cur].parent, d)
    {
      SetChild(cur, !d, other.Child(d));
      if other.Child(d) != null {
        SetParent(other.Child(d), cur);
      }
      SetParent(other, cur.parent);
    }

    method Raise(cur: Node, other: Node, d: bool)
      requires Mirrors() && cur in mem && other in mem
      modifies this`mem, cur, other
      ensures Mirrors() && mem == Raised(old(mem), cur, other, d)
    {
      SetChild(other, d, cur);
      SetParent(cur, other);
    }

    /** TreeRotate: the pointers. */
    method Relink(cur: Node, d: bool, ghost c: Ctx)
      requires Mirrors() && CanRelink(mem, c, cur, d)
      modifies this`root, this`mem, mem.Keys
      ensures Mirrors() && mem == Relinked(old(mem), c, cur, d)
      ensures root == if c.F? then old(root) else old(mem)[cur].Child(!d)
    {
      hide Lowered, Raised, Reseated;
      var other := cur.Child(!d);
      Lower(cur, other, d);
      LoweredKeeps(old(mem), cur, other, old(mem)[other].Child(d), Parent(c), d);
      assert cur.Fields() == mem[cur];
      Replace(cur, cur.parent, d, other, c);
      Raise(cur, other, d);
    }

    /** TreeRotate: cur's child[!d] takes cur's place. */
    method Rotate(cur: Node, d: bool, ghost c: Ctx, ghost t: T)
      requires Mirrors() && InMemory(mem, c, t, root) && Rotatable(t, d) && cur == t.node
      modifies this`root, this`mem, mem.Keys
      ensures Mirrors() && mem.Keys == old(mem.Keys) && InMemory(mem, c, Rotated(t, d), root)
    {
      hide Mirrors, InMemory, RotatedMemory, CanRelink, Relinked;
      ghost var m, r := mem, root;
      RelinkedMemory(m, c, t, d, r);
      Relink(cur, d, c);
      assert root == if c.Top? then Kid(t, !d).node else r;
      RotatedInMemory(m, mem, c, t, d, r);
    }

    // ----- recolouring, seen from a subtree -----

    method SetRedFocus(n: Node, red: bool, ghost c: Ctx, ghost t: T)
      requires Mirrors() && InMemory(mem, c, t, root) && t.N? && n == t.node
      modifies this`mem, mem.Keys
      ensures Mirrors() && mem.Keys == old(mem.Keys) && InMemory(mem, c, t.(red := red), root)
    {
      RootInMemory(mem, c, t, root);
      RecolourFocus(mem, c, t, root, red);
      hide InMemory;
      SetRed(n, red);
    }

    method SetRedParent(n: Node, red: bool, ghost c: Ctx, ghost t: T)
      requires Mirrors() && InMemory(mem, c, t, root) && c.F? && n == c.node
      modifies this`mem, mem.Keys
      ensures Mirrors() && mem.Keys == old(mem.Keys) && InMemory(mem, c.(red := red), t, root)
    {
      hide InMemory;
      RecolourParent(mem, c, t, root, red);
      SetRed(n, red);
    }

    method SetRedSibling(n: Node, red: bool, ghost c: Ctx, ghost t: T)
      requires Mirrors() && InMemory(mem, c, t, root) && c.F? && c.other.N? && n == c.other.node
      modifies this`mem, mem.Keys
      ensures Mirrors() && mem.Keys == old(mem.Keys) && InMemory(mem, c.(other := c.other.(red := red)), t, root)
    {
      hide InMemory;
      RecolourSibling(mem, c, t, root, red);
      SetRed(n, red);
    }

    /** What the pointers around a node are, seen from its subtree. */
    lemma Around(c: Ctx, t: T)
      requires Mirrors() && InMemory(mem, c, t, root)
      ensures t.N? ==>
        t.node in mem && t.node.parent == Parent(c) && t.node.left == Root(t.l) && t.node.right == Root(t.r)
                       && t.node.red == t.red && t.node.content == Content(t.item)
      ensures c.F? ==>
        c.node in mem && c.node.parent == Parent(c.up) && c.node.red == c.red && c.node.content == Content(c.item)
                       && c.node.Child(c.side) == Root(t) && c.node.Child(!c.side) == Root(c.other)
                       && (c.other.N? ==>
                            c.other.node in mem && c.other.node.red == c.other.red && c.other.node != Root(t))
    {
      assert t.N? ==> t.node.Fields() == mem[t.node] && t.node in Nodes(t);
      assert c.F? ==> c.node.Fields() == mem[c.node];
      assert c.F? && c.other.N? ==> c.other.node.Fields() == mem[c.other.node] && c.other.node in Nodes(c.other);
    }

    // ----- balancing after an addition -----

    /** TreeBAASub with a red uncle. */
    method UncleIsRed(curnode: Node, uncle: Node, ghost c: Ctx, ghost t: T) returns (r: Node)
      requires Mirrors() && InMemory(mem, c, t, root) && t.N? && curnode == t.node
      requires c.F? && c.red && c.up.F? && Red(c.up.other) && uncle == c.up.other.node
      modifies this`mem, mem.Keys
      ensures Mirrors() && mem.Keys == old(mem.Keys)
      ensures var t2 := Up1(c.up.(red := true, other := c.up.other.(red := false)), Up1(c.(red := false), t));
        InMemory(mem, c.up.up, t2, root) && r == t2.node
    {
      hide InMemory;
      FocusUp(mem, c, t, root);
      SetRedSibling(uncle, false, c.up, Up1(c, t));
      ghost var up := c.up.(other := c.up.other.(red := false));
      FocusDown(mem, up, Up1(c, t), root, c.side);
      Around(c.(up := up), t);
      SetRedParent(curnode.parent, false, c.(up := up), t);
      Around(c.(up := up, red := false), t);
      FocusUp(mem, c.(up := up, red := false), t, root);
      r := curnode.parent.parent;
      SetRedParent(r, true, up, Up1(c.(red := false), t));
      FocusUp(mem, up.(red := true), Up1(c.(red := false), t), root);
    }

    /** The rotation of TreeBAASub at the parent, which brings the parent to the outside. */
    method TurnInner(p: Node, d: bool, ghost c: Ctx, ghost t: T) returns (ghost c2: Ctx, ghost t2: T)
      requires Mirrors() && InMemory(mem, c, t, root) && t.N?
      requires c.F? && c.red && c.up.F? && c.side != c.up.side && p == c.node && d == c.up.side
      modifies this`root, this`mem, mem.Keys
      ensures Mirrors() && mem.Keys == old(mem.Keys) && InMemory(mem, c2, t2, root) && All(c2, t2) == All(c, t)
      ensures t2.N? && t2.node == p && c2.F? && c2.red == t.red && c2.up == c.up && c2.side == c.up.side
      ensures Adding(c, t) ==> if t.red then Adding(c2, t2) else !RB(t2)
    {
      InnerTurned(c, t);
      hide Mirrors, InMemory, Adding, All;
      FocusUp(mem, c, t, root);
      Rotate(p, d, c.up, Up1(c, t));
      c2 := F(c.up, t.node, t.red, t.item, d, Kid(t, !d));
      t2 := Mk(c.node, true, c.item, d, c.other, Kid(t, d));
      FocusDown(mem, c.up, Rotated(Up1(c, t), d), root, d);
    }

    /** The end of TreeBAASub: the parent turns black, the grandparent red, and the grandparent is rotated. */
    method TurnOuter(curnode: Node, which: bool, ghost c: Ctx, ghost t: T) returns (ghost c2: Ctx)
      requires Mirrors() && InMemory(mem, c, t, root) && t.N? && curnode == t.node
      requires c.F? && c.up.F? && !Red(c.up.other) && c.side == c.up.side && which == !c.side
      modifies this`root, this`mem, mem.Keys
      ensures Mirrors() && mem.Keys == old(mem.Keys) && InMemory(mem, c2, t, root) && All(c2, t) == All(c, t)
      ensures c2.F? && !c2.red && (Adding(c, t) && c.red ==> Adding(c2, t))
    {
      OuterTurned(c, t);
      hide Mirrors, InMemory, Adding, All;
      Around(c, t);
      SetRedParent(curnode.parent, false, c, t);
      ghost var c1 := c.(red := false);
      Around(c1, t);
      FocusUp(mem, c1, t, root);
      SetRedParent(curnode.parent.parent, true, c.up, Up1(c1, t));
      ghost var up := c.up.(red := true);
      FocusDown(mem, up, Up1(c1, t), root, c.side);
      Around(c1.(up := up), t);
      FocusUp(mem, up, Up1(c1, t), root);
      Rotate(curnode.parent.parent, which, c.up.up, Up1(up, Up1(c1, t)));
      c2 := F(c.up.up, c.node, false, c.item, c.side, Mk(c.up.node, true, c.up.item, c.side, c.other, c.up.other));
      FocusDown(mem, c.up.up, Up1(c2, t), root, c.side);
    }

    /** TreeBAASub: one round of balancing, where curnode's parent is red and is its own parent's child[!which]. */
    method BalanceAddStep(curnode: Node, which: bool, ghost c: Ctx, ghost t: T)
      returns (r: Node, ghost c2: Ctx, ghost t2: T)
      requires Mirrors() && InMemory(mem, c, t, root) && t.N? && curnode == t.node
      requires c.F? && c.red && c.up.F? && which == !c.up.side
      modifies this`root, this`mem, mem.Keys
      ensures Mirrors() && mem.Keys == old(mem.Keys) && InMemory(mem, c2, t2, root) && All(c2, t2) == All(c, t)
      ensures t2.N? && t2.node == r && (Depth(c2) < Depth(c) || (c2.F? && !c2.red))
      ensures Adding(c, t) && (t.red || !Inner(c)) ==> Adding(c2, t2) && (t2.red || !Inner(c2))
      ensures Adding(c, t) && !t.red && Inner(c) ==> c2.F? && !c2.red && !RB(t2)
    {
      hide Mirrors, InMemory, Adding, All;
      Around(c, t);
      FocusUp(mem, c, t, root);
      Around(c.up, Up1(c, t));
      var uncle := curnode.parent.parent.Child(which);
      if uncle != null && uncle.red {
        UncleRed(c, t);
        r := UncleIsRed(curnode, uncle, c, t);
        c2, t2 := c.up.up, Up1(c.up.(red := true, other := c.up.other.(red := false)), Up1(c.(red := false), t));
      } else {
        r, c2, t2 := curnode, c, t;
        if curnode == curnode.parent.Child(which) {
          r := curnode.parent;
          c2, t2 := TurnInner(r, !which, c, t);
        }
        c2 := TurnOuter(r, which, c2, t2);
      }
    }

    /** What balancing knows of the subtree it has reached, c and t, from where it started. */
    static predicate Balancing(c0: Ctx, t0: T, c: Ctx, t: T) {
      if Red(t0) || !Inner(c0) then Adding(c0, t0) ==> Adding(c, t) && (Red(t) || !Inner(c))
      else Adding(c0, t0) ==> (c == c0 && t == t0) || (c.F? && !c.red && !RB(t))
    }

    /** The loop of TreeBalanceAfterAdd. */
    method BalanceUpwards(added: Node, ghost c0: Ctx, ghost t0: T) returns (ghost c: Ctx, ghost t: T)
      requires Mirrors() && InMemory(mem, c0, t0, root) && t0.N? && added == t0.node
      modifies this`root, this`mem, mem.Keys
      ensures Mirrors() && mem.Keys == old(mem.Keys) && InMemory(mem, c, t, root)
      ensures t.N? && (c.F? ==> !c.red || c.up.Top?) && All(c, t) == All(c0, t0)
      ensures Balancing(c0, t0, c, t)
    {
      hide Mirrors, InMemory, Adding, All;
      var curnode := added;
      c, t := c0, t0;
      Around(c, t);
      while curnode.parent != null && curnode.parent.red && curnode.parent.parent != null
        invariant Mirrors() && mem.Keys == old(mem.Keys) && InMemory(mem, c, t, root)
        invariant t.N? && curnode == t.node && All(c, t) == All(c0, t0)
        invariant curnode.parent == Parent(c) && (c.F? ==> c.node.red == c.red && c.node.parent == Parent(c.up))
        invariant Balancing(c0, t0, c, t)
        decreases if c.F? && c.red then Depth(c) + 1 else 0
      {
        FocusUp(mem, c, t, root);
        Around(c.up, Up1(c, t));
        if curnode.parent == curnode.parent.parent.left {
          curnode, c, t := BalanceAddStep(curnode, RIGHT, c, t);
        } else {
          curnode, c, t := BalanceAddStep(curnode, LEFT, c, t);
        }
        Around(c, t);
      }
    }

    /** TreeBalanceAfterAdd. From a subtree around which the rules hold but for a red parent, they hold again
        at the end exactly unless the subtree is a black inner grandchild with a red parent and a black uncle. */
    method BalanceAfterAdd(added: Node, ghost c0: Ctx, ghost t0: T)
      requires Mirrors() && InMemory(mem, c0, t0, root) && t0.N? && added == t0.node
      modifies this`root, this`mem, this`shape, mem.Keys
      ensures Mirrors() && mem.Keys == old(mem.Keys) && InMemory(mem, Top, shape, root)
      ensures shape.N? && !shape.red && Items(shape) == All(c0, t0)
      ensures Adding(c0, t0) ==> (RB(shape) <==> t0.red || !Inner(c0))
    {
      hide Mirrors, InMemory, Adding, All, Plug;
      ghost var c, t := BalanceUpwards(added, c0, t0);
      AddedRB(c, t);
      FocusTop(mem, c, t, root);
      RootOfAll(mem, Plug(c, t), root);
      SetRedFocus(root, false, Top, Plug(c, t));
      shape := Plug(c, t).(red := false);
      InnerNotFinal(c0, t0, c, t);
    }

    // ----- the tree -----

    /** The pointers form the tree called shape, which is sorted by key. */
    ghost predicate Valid()
      reads this, mem.Keys
    {
      Mirrors() && mem.Keys == Nodes(shape) && InMemory(mem, Top, shape, root)
      && SortedItems(Items(shape)) && count == |Items(shape)|
    }

    /** The red-black rules. */
    ghost predicate Balanced()
      reads this
    {
      RB(shape) && !Red(shape)
    }

    ghost function Map(): map<int, Item>
      reads this
    {
      AsMap(Items(shape))
    }

    constructor (allowDuplicates: bool)
      ensures Valid() && Balanced() && Map() == map[] && fresh(mem.Keys) && this.allowDuplicates == allowDuplicates
    {
      root, count, mem, shape, this.allowDuplicates := null, 0, map[], Leaf, allowDuplicates;
    }

    /** The place of a key, as the search has reached it. */
    ghost predicate Searching(key: int, c: Ctx, t: T)
      reads this
    {
      && InMemory(mem, c, t, root) && All(c, t) == Items(shape) && Between(c, key) && Plug(c, t) == shape
      && Locate(c, t, key) == Locate(Top, shape, key)
    }

    lemma SearchStarts(key: int)
      requires Valid()
      ensures Searching(key, Top, shape)
    {
    }

    lemma SearchDown(key: int, c: Ctx, t: T)
      requires Valid() && Searching(key, c, t) && t.N? && t.item.key != key
      ensures var side := t.item.key < key;
        Searching(key, F(c, t.node, t.red, t.item, side, Kid(t, !side)), Kid(t, side))
    {
      BetweenDown(c, t, key);
      FocusDown(mem, c, t, root, t.item.key < key);
      AllUp(F(c, t.node, t.red, t.item, t.item.key < key, Kid(t, !(t.item.key < key))), Kid(t, t.item.key < key));
      hide InMemory, All, Between;
    }

    /** What a search has found when it ends. */
    lemma SearchEnds(key: int, c: Ctx, t: T)
      requires Valid() && Searching(key, c, t) && (t.Leaf? || t.item.key == key)
      ensures t.N? <==> key in Map()
      ensures t.N? ==> Map()[key] == t.item && t.node in Nodes(shape)
    {
      hide InMemory, SortedItems, AsMap, Locate, Plug, Between;
      if t.N? {
        assert All(c, t) == (Before(c) + Items(t.l)) + [t.item] + (Items(t.r) + After(c));
        Exchanged(Before(c) + Items(t.l), t.item, t.item, Items(t.r) + After(c));
        PlugNodes(c, t);
      } else {
        assert All(c, t) == Before(c) + After(c);
        BetweenMeans(c, key);
        Inserted(Before(c), Item(key, 0), After(c));
      }
    }

    /** TreeFind: the node whose item has the key. */
    method Find(key: int) returns (curnode: Node?, ghost c: Ctx, ghost t: T)
      requires Valid()
      ensures curnode == null <==> key !in Map()
      ensures curnode != null ==> curnode in Nodes(shape) && curnode.content == Content(Map()[key])
      ensures Searching(key, c, t) && curnode == Root(t) && (t.N? ==> t.item.key == key)
    {
      hide Searching, Valid, Map;
      curnode := root;
      c, t := Top, shape;
      SearchStarts(key);
      RootIsTop();
      while curnode != null
        invariant Valid() && Searching(key, c, t) && curnode == Root(t)
        decreases t
      {
        SearchSees(key, c, t);
        if curnode.content.item.key == key { break; }
        SearchDown(key, c, t);
        var side := curnode.content.item.key < key;
        curnode := curnode.Child(side);
        c, t := F(c, t.node, t.red, t.item, side, Kid(t, !side)), Kid(t, side);
      }
      SearchSees(key, c, t);
      SearchEnds(key, c, t);
    }

    // ----- adding -----

    /** The search of TreeAdd, which also keeps the parent and the side last taken. */
    method Place(key: int) returns (curparent: Node?, curnode: Node?, left: bool, ghost c: Ctx, ghost t: T)
      requires Valid()
      ensures Searching(key, c, t) && curnode == Root(t) && curparent == Parent(c) && (c.F? ==> left == c.side)
      ensures t.N? ==> t.item.key == key && curnode.content == Content(t.item)
    {
      hide Searching, Valid;
      curparent, curnode, left := null, root, false;
      c, t := Top, shape;
      SearchStarts(key);
      RootIsTop();
      while curnode != null
        invariant Valid() && Searching(key, c, t) && curnode == Root(t)
        invariant curparent == Parent(c) && (c.F? ==> left == c.side)
        decreases t
      {
        SearchSees(key, c, t);
        if curnode.content.item.key == key { break; }
        SearchDown(key, c, t);
        left := curnode.content.item.key < key;
        curparent := curnode;
        curnode := curnode.Child(left);
        c, t := F(c, t.node, t.red, t.item, left, Kid(t, !left)), Kid(t, left);
      }
      SearchSees(key, c, t);
    }

    /** The fields of a new node are set. */
    method Fill(newel: Node, curparent: Node?, item: Item)
      requires Mirrors() && newel !in mem && newel.left == null && newel.right == null
      modifies this`mem, newel
      ensures Mirrors() && mem == old(mem)[newel := Rec(curparent, null, null, true, Content(item))]
    {
      newel.parent, newel.red, newel.content := curparent, true, Content(item);
      mem := mem[newel := newel.Fields()];
    }

    /** A new node is put below curparent. */
    method Attach(curparent: Node?, left: bool, item: Item, ghost c: Ctx) returns (newel: Node)
      requires Mirrors() && InMemory(mem, c, Leaf, root) && curparent == Parent(c) && (c.F? ==> left == c.side)
      requires CtxNodes(c) <= mem.Keys
      modifies this`root, this`mem, mem.Keys
      ensures Mirrors() && fresh(newel) && mem.Keys == old(mem.Keys) + {newel}
      ensures InMemory(mem, c, N(newel, true, item, Leaf, Leaf), root)
    {
      hide Mirrors, InMemory, CtxNodes;
      newel := new Node();
      Attached(mem, c, root, newel, item);
      ghost var m := mem;
      if curparent != null {
        SetChild(curparent, left, newel);
      } else {
        root := newel;
      }
      Fill(newel, curparent, item);
      assert mem == Reseated(m, c, newel)[newel := Rec(Parent(c), null, null, true, Content(item))];
    }

    /** TreeAdd of an item whose key is not there. */
    method AddNew(curparent: Node?, left: bool, item: Item, ghost c: Ctx)
      requires Valid() && Searching(item.key, c, Leaf) && curparent == Parent(c) && (c.F? ==> left == c.side)
      modifies this`root, this`mem, this`shape, this`count, mem.Keys
      ensures Valid() && fresh(mem.Keys - old(mem.Keys))
      ensures Map() == old(Map())[item.key := item]
      ensures old(Balanced()) ==> Balanced()
    {
      hide Mirrors, InMemory, SortedItems, AsMap, RB, RBCtx, Locate, Plug;
      hide Nodes, CtxNodes, Items, Between, Before, After, All, Adding, Inner;
      PlaceForNew(item, c);
      count := count + 1;
      var newel := Attach(curparent, left, item, c);
      ghost var t := N(newel, true, item, Leaf, Leaf);
      NewNode(c, t);
      BalanceAfterAdd(newel, c, t);
      NoOtherNodes(mem, shape, root);
    }

    lemma PlaceForNew(item: Item, c: Ctx)
      requires Valid() && Searching(item.key, c, Leaf)
      ensures InMemory(mem, c, Leaf, root) && CtxNodes(c) <= mem.Keys
      ensures |mem.Keys| == |Before(c) + After(c)| == count
      ensures SortedItems(Before(c) + [item] + After(c))
      ensures AsMap(Before(c) + [item] + After(c)) == Map()[item.key := item]
      ensures Balanced() ==> RBCtx(c, 0)
    {
      hide InMemory, SortedItems, AsMap, RB, RBCtx, Locate, Plug, Nodes, CtxNodes, Items, Between;
      PlugNodes(c, Leaf);
      LeafParts(c);
      BetweenMeans(c, item.key);
      Inserted(Before(c), item, After(c));
      if Balanced() { Unplug(c, Leaf); }
      MemorySize();
    }

    lemma MemorySize()
      requires Valid()
      ensures |mem.Keys| == |Items(shape)|
    {
      NodesCount(shape);
    }

    /** The colours stay right unless the key is that of a black inner grandchild with a red parent and a
        black uncle. */
    static predicate KeepsBalance(shape: T, key: int) {
      var (c, t) := Locate(Top, shape, key);
      t.Leaf? || t.red || !Inner(c)
    }

    /** TreeAdd of an item whose key is there: the content is replaced, and balancing starts at the old node. */
    method Exchange(curnode: Node, item: Item, ghost c: Ctx, ghost t: T)
      requires Valid() && Searching(item.key, c, t) && t.N? && t.item.key == item.key && curnode == t.node
      modifies this`root, this`mem, this`shape, mem.Keys
      ensures Valid() && mem.Keys == old(mem.Keys)
      ensures Map() == old(Map())[item.key := item]
      ensures old(Balanced()) ==> (Balanced() <==> t.red || !Inner(c))
    {
      hide Mirrors, InMemory, SortedItems, AsMap, RB, RBCtx, Locate, Plug;
      hide Nodes, Items, Between, Before, After, All, Adding, Inner;
      PlaceForExchange(item, c, t);
      Recontented(mem, c, t, root, item);
      SetContent(curnode, Content(item));
      BalanceAfterAdd(curnode, c, t.(item := item));
      NoOtherNodes(mem, shape, root);
    }

    lemma PlaceForExchange(item: Item, c: Ctx, t: T)
      requires Valid() && Searching(item.key, c, t) && t.N? && t.item.key == item.key
      ensures InMemory(mem, c, t, root)
      ensures var s := All(c, t.(item := item));
        |mem.Keys| == |s| == count && SortedItems(s) && AsMap(s) == Map()[item.key := item]
      ensures Balanced() ==> Adding(c, t.(item := item))
    {
      hide InMemory, SortedItems, AsMap, RB, RBCtx, Locate, Plug, Nodes, Between;
      var a, b := Before(c) + Items(t.l), Items(t.r) + After(c);
      assert All(c, t) == a + [t.item] + b;
      assert All(c, t.(item := item)) == a + [item] + b;
      Exchanged(a, t.item, item, b);
      if Balanced() { Unplug(c, t); }
      MemorySize();
      SameColours(c, t, item);
    }

    /** TreeAdd. */
    method Add(item: Item) returns (rc: Content)
      requires Valid()
      modifies this`root, this`mem, this`shape, this`count, mem.Keys
      ensures Valid() && fresh(mem.Keys - old(mem.Keys))
      ensures rc == if item.key in old(Map()) && !allowDuplicates then Content(old(Map())[item.key]) else NoContent
      ensures Map() == if item.key in old(Map()) && allowDuplicates then old(Map()) else old(Map())[item.key := item]
      ensures old(Balanced()) && (item.key !in old(Map()) || allowDuplicates) ==> Balanced()
      ensures old(Balanced()) && !allowDuplicates ==> (Balanced() <==> KeepsBalance(old(shape), item.key))
    {
      hide Valid, Searching, Map, Balanced, Inner;
      var curparent, curnode, left;
      ghost var c, t;
      curparent, curnode, left, c, t := Place(item.key);
      SearchEnds(item.key, c, t);
      SearchLocates(item.key, c, t);
      rc := NoContent;
      if curnode != null {
        if !allowDuplicates {
          rc := curnode.content;
          Exchange(curnode, item, c, t);
        }
      } else {
        AddNew(curparent, left, item, c);
      }
    }

    lemma SearchLocates(key: int, c: Ctx, t: T)
      requires Searching(key, c, t) && (t.N? ==> t.item.key == key)
      ensures Locate(Top, shape, key) == (c, t)
    {
    }

    // ----- balancing after a removal -----

    method SetRedKid(n: Node, red: bool, ghost side: bool, ghost c: Ctx, ghost t: T)
      requires Mirrors() && InMemory(mem, c, t, root) && t.N? && Kid(t, side).N? && n == Kid(t, side).node
      modifies this`mem, mem.Keys
      ensures Mirrors() && mem.Keys == old(mem.Keys)
      ensures InMemory(mem, c, WithKid(t, side, Kid(t, side).(red := red)), root)
    {
      hide Mirrors, InMemory;
      RecolourKid(mem, c, t, root, side, red);
      SetRed(n, red);
    }

    /** Where balancing is: at the root of a subtree, or at a dummy node that stands for a missing child. */
    ghost predicate At(curnode: Node, c: Ctx, t: T)
      reads this`mem, curnode
    {
      && curnode.parent == Parent(c)
      && if t.N? then curnode == t.node && curnode in mem
         else curnode !in mem && c.F? && !curnode.red && curnode.content == NoContent
    }

    /** The first part of TreeBARSub: a red sibling. */
    method SiblingIsRed(curnode: Node, sibling: Node, which: bool, ghost c: Ctx, ghost t: T)
      requires Mirrors() && InMemory(mem, c, t, root) && At(curnode, c, t)
      requires c.F? && Red(c.other) && sibling == c.other.node && which == !c.side
      modifies this`root, this`mem, mem.Keys
      ensures Mirrors() && mem.Keys == old(mem.Keys) && InMemory(mem, SiblingTurned(c), t, root)
      ensures At(curnode, SiblingTurned(c), t)
    {
      SiblingRed(c, t);
      hide Mirrors, InMemory, All, Removing;
      SetRedSibling(sibling, false, c, t);
      ghost var c1 := c.(other := c.other.(red := false));
      Around(c1, t);
      SetRedParent(curnode.parent, true, c1, t);
      ghost var c2 := c1.(red := true);
      Around(c2, t);
      FocusUp(mem, c2, t, root);
      Rotate(curnode.parent, !which, c.up, Up1(c2, t));
      ghost var c3 := SiblingTurned(c);
      FocusDown(mem, c.up, Up1(c3.up, Up1(c3, t)), root, c.side);
      FocusDown(mem, c3.up, Up1(c3, t), root, c.side);
      Around(c3, t);
    }

    /** The part of TreeBARSub for a red near nephew and a black far one. */
    method NearIsRed(curnode: Node, sibling: Node, which: bool, ghost c: Ctx, ghost t: T)
      requires Mirrors() && InMemory(mem, c, t, root) && At(curnode, c, t)
      requires c.F? && c.other.N? && sibling == c.other.node && which == !c.side
      requires Red(Kid(c.other, c.side)) && !Red(Kid(c.other, !c.side))
      modifies this`root, this`mem, mem.Keys
      ensures Mirrors() && mem.Keys == old(mem.Keys)
      ensures var c2 := c.(other := NearTurned(c.other, c.side)); InMemory(mem, c2, t, root) && At(curnode, c2, t)
    {
      NearRed(c, t);
      hide Mirrors, InMemory, All, Removing;
      ghost var cs := AtSibling(c, t);
      FocusAcross(mem, c, t, root);
      Around(cs, c.other);
      SetRedKid(sibling.Child(!which), false, c.side, cs, c.other);
      ghost var o1 := WithKid(c.other, c.side, Kid(c.other, c.side).(red := false));
      SetRedFocus(sibling, true, cs, o1);
      Rotate(sibling, which, cs, o1.(red := true));
      FocusAcross(mem, cs, NearTurned(c.other, c.side), root);
      Around(c.(other := NearTurned(c.other, c.side)), t);
    }

    /** The end of TreeBARSub: a red far nephew. */
    method FarIsRed(curnode: Node, sibling: Node, which: bool, ghost c: Ctx, ghost t: T)
      requires Mirrors() && InMemory(mem, c, t, root) && At(curnode, c, t) && !Red(t)
      requires c.F? && c.other.N? && sibling == c.other.node && which == !c.side && Red(Kid(c.other, !c.side))
      modifies this`root, this`mem, mem.Keys
      ensures Mirrors() && mem.Keys == old(mem.Keys) && InMemory(mem, c.up, FarTurned(c, t), root)
    {
      FarRed(c, t);
      hide Mirrors, InMemory, All, Removing;
      Around(c, t);
      SetRedSibling(sibling, curnode.parent.red, c, t);
      ghost var c1 := c.(other := c.other.(red := c.red));
      Around(c1, t);
      SetRedParent(curnode.parent, false, c1, t);
      ghost var c2 := c1.(red := false);
      ghost var cs := AtSibling(c2, t);
      FocusAcross(mem, c2, t, root);
      Around(cs, c2.other);
      SetRedKid(sibling.Child(which), false, !c.side, cs, c2.other);
      ghost var o := WithKid(c2.other, !c.side, Kid(c2.other, !c.side).(red := false));
      FocusAcross(mem, cs, o, root);
      ghost var c3 := c2.(other := o);
      Around(c3, t);
      FocusUp(mem, c3, t, root);
      Rotate(curnode.parent, !which, c.up, Up1(c3, t));
    }

    method FarIsRedToTop(curnode: Node, sibling: Node, which: bool, ghost c: Ctx, ghost t: T) returns (ghost t2: T)
      requires Mirrors() && InMemory(mem, c, t, root) && At(curnode, c, t) && !Red(t)
      requires c.F? && c.other.N? && sibling == c.other.node && which == !c.side && Red(Kid(c.other, !c.side))
      modifies this`root, this`mem, mem.Keys
      ensures Mirrors() && mem.Keys == old(mem.Keys) && InMemory(mem, Top, t2, root) && t2.N? && root == t2.node
      ensures All(Top, t2) == All(c, t) && (Removing(c, t) && !Red(c.other) ==> Removing(Top, t2))
    {
      hide Mirrors, InMemory, Removing, RB, RBCtx, FarTurned, Black;
      FarRed(c, t);
      FarIsRed(curnode, sibling, which, c, t);
      ghost var f := FarTurned(c, t);
      t2 := Plug(c.up, f);
      AllPlug(c.up, f);
      FocusTop(mem, c.up, f, root);
      PlugIsNode(c.up, f);
      RootOfAll(mem, t2, root);
      WholeRemoving(c.up, f);
    }

    /** What one round of balancing after a removal achieves. */
    static predicate Shifted(c: Ctx, t: T, c2: Ctx, t2: T) {
      t2.N? && All(c2, t2) == All(c, t) && (Removing(c, t) ==> Removing(c2, t2))
      && (c2.Top? || t2.red || Depth(c2) < Depth(c))
    }

    /** The sibling is child[which]; where both children are missing, either side will do. */
    static predicate Beside(which: bool, c: Ctx, t: T) {
      c.F? && (which == !c.side || (t.Leaf? && c.other.Leaf?))
    }

    /** TreeBARSub from where the sibling is no longer red. */
    method BalanceRemoveRest(curnode: Node, which: bool, ghost c: Ctx, ghost t: T)
      returns (r: Node, ghost c2: Ctx, ghost t2: T)
      requires Mirrors() && InMemory(mem, c, t, root) && At(curnode, c, t) && !Red(t) && Beside(which, c, t)
      modifies this`root, this`mem, mem.Keys
      ensures Mirrors() && mem.Keys == old(mem.Keys) && InMemory(mem, c2, t2, root) && t2.N? && r == t2.node
      ensures All(c2, t2) == All(c, t) && (Removing(c, t) && !Red(c.other) ==> Removing(c2, t2))
      ensures c2.Top? || (c2 == c.up && t2.red == c.red)
    {
      hide Mirrors, InMemory, All, Removing;
      Around(c, t);
      var sibling := curnode.parent.Child(which);
      FocusAcross(mem, c, t, root);
      Around(AtSibling(c, t), c.other);
      ghost var cs := AtSibling(c, t);
      KidsAround(cs, c.other);
      if sibling == null {
        SiblingMissing(c, t);
        FocusUp(mem, c, t, root);
        r, c2, t2 := curnode.parent, c.up, Up1(c, t);
      } else if IsBlack(sibling.Child(!which)) && IsBlack(sibling.Child(which)) {
        SiblingReddened(c, t);
        SetRedSibling(sibling, true, c, t);
        ghost var c1 := c.(other := c.other.(red := true));
        Around(c1, t);
        FocusUp(mem, c1, t, root);
        r, c2, t2 := curnode.parent, c.up, Up1(c1, t);
      } else {
        ghost var c1 := c;
        if IsBlack(sibling.Child(which)) {
          NearRed(c, t);
          NearIsRed(curnode, sibling, which, c, t);
          c1 := c.(other := NearTurned(c.other, c.side));
          Around(c1, t);
          sibling := curnode.parent.Child(which);
        }
        t2 := FarIsRedToTop(curnode, sibling, which, c1, t);
        c2 := Top;
        r := root;
      }
    }

    static function IsBlack(n: Node?): bool
      reads n
    {
      n == null || !n.red
    }

    lemma KidsAround(c: Ctx, t: T)
      requires Mirrors() && InMemory(mem, c, t, root)
      ensures t.N? ==> IsBlack(t.node.left) == !Red(t.l) && IsBlack(t.node.right) == !Red(t.r)
    {
      hide InMemory;
      Around(c, t);
      if t.N? {
        FocusDown(mem, c, t, root, LEFT);
        Around(F(c, t.node, t.red, t.item, LEFT, t.r), t.l);
        FocusDown(mem, c, t, root, RIGHT);
        Around(F(c, t.node, t.red, t.item, RIGHT, t.l), t.r);
      }
    }

    /** TreeBARSub: one round of balancing, where curnode is its parent's child[!which]. */
    method BalanceRemoveStep(curnode: Node, which: bool, ghost c: Ctx, ghost t: T)
      returns (r: Node, ghost c2: Ctx, ghost t2: T)
      requires Mirrors() && InMemory(mem, c, t, root) && At(curnode, c, t) && !Red(t) && Beside(which, c, t)
      modifies this`root, this`mem, mem.Keys
      ensures Mirrors() && mem.Keys == old(mem.Keys) && InMemory(mem, c2, t2, root)
      ensures Shifted(c, t, c2, t2) && r == t2.node
    {
      hide Mirrors, InMemory, All, Removing;
      Around(c, t);
      var sibling := curnode.parent.Child(which);
      ghost var c1 := c;
      if !IsBlack(sibling) {
        SiblingRed(c, t);
        SiblingIsRed(curnode, sibling, which, c, t);
        c1 := SiblingTurned(c);
      }
      r, c2, t2 := BalanceRemoveRest(curnode, which, c1, t);
    }

    /** The test of TreeBalanceAfterRemove: a dummy node stands for null. */
    static function Shown(n: Node): Node?
      reads n
    {
      if n.content != NoContent then n else null
    }

    /** TreeBalanceAfterRemove. */
    method BalanceAfterRemove(start: Node, ghost c0: Ctx, ghost t0: T)
      requires Mirrors() && InMemory(mem, c0, t0, root) && At(start, c0, t0)
      modifies this`root, this`mem, this`shape, mem.Keys
      ensures Mirrors() && mem.Keys == old(mem.Keys) && InMemory(mem, Top, shape, root)
      ensures Items(shape) == All(c0, t0) && (Removing(c0, t0) ==> Balanced())
    {
      hide Mirrors, InMemory, All, Removing, RB;
      var curnode := start;
      ghost var c, t := c0, t0;
      Around(c, t);
      RootSeen(c, t);
      while curnode != root && !curnode.red
        invariant Mirrors() && mem.Keys == old(mem.Keys) && InMemory(mem, c, t, root) && At(curnode, c, t)
        invariant All(c, t) == All(c0, t0) && (Removing(c0, t0) ==> Removing(c, t))
        invariant t.N? ==> curnode.red == t.red && curnode.content != NoContent
        invariant if c.Top? then curnode == root else curnode != root
        decreases if c.Top? || Red(t) then 0 else Depth(c) + 1
      {
        Around(c, t);
        if Shown(curnode) == curnode.parent.left {
          curnode, c, t := BalanceRemoveStep(curnode, RIGHT, c, t);
        } else {
          curnode, c, t := BalanceRemoveStep(curnode, LEFT, c, t);
        }
        Around(c, t);
        RootSeen(c, t);
      }
      RemovedRB(c, t);
      SetRedFocus(curnode, false, c, t);
      FocusTop(mem, c, t.(red := false), root);
      AllPlug(c, t.(red := false));
      shape := Plug(c, t.(red := false));
    }

    /** Only the whole tree's root is the root. */
    lemma RootSeen(c: Ctx, t: T)
      requires Mirrors() && InMemory(mem, c, t, root)
      ensures c.Top? ==> root == Root(t)
      ensures c.F? ==> root != null && root != Root(t) && root in mem
    {
      TopNodeInCtx(c, Root(t));
      assert t.N? ==> t.node in Nodes(t);
      CtxInMemory(mem, c, Root(t));
    }

    // ----- walking -----

    /** TreeMinimum, below a node. */
    method Minimum(start: Node, ghost c: Ctx, ghost t: T) returns (curnode: Node)
      requires Mirrors() && InMemory(mem, c, t, root) && t.N? && start == t.node
      ensures curnode == MinT(t).node
    {
      hide Mirrors, InMemory;
      curnode := start;
      ghost var d, s := c, t;
      Around(d, s);
      while curnode.left != null
        invariant InMemory(mem, d, s, root) && s.N? && curnode == s.node && MinT(s) == MinT(t)
        invariant curnode.left == Root(s.l)
        decreases s
      {
        FocusDown(mem, d, s, root, LEFT);
        d, s := F(d, s.node, s.red, s.item, LEFT, s.r), s.l;
        curnode := curnode.left;
        Around(d, s);
      }
    }

    /** TreeSuccessor: the node that follows in order, if any. */
    method Successor(start: Node, ghost c: Ctx, ghost t: T) returns (curnode: Node?)
      requires Mirrors() && InMemory(mem, c, t, root) && t.N? && start == t.node
      ensures curnode == First(NodeSeq(t.r) + NodesAfter(c))
      ensures t.r.N? ==> curnode == MinT(t.r).node
    {
      hide Mirrors, InMemory;
      Around(c, t);
      if start.right != null {
        FocusDown(mem, c, t, root, RIGHT);
        curnode := Minimum(start.right, F(c, t.node, t.red, t.item, RIGHT, t.l), t.r);
        MinIsFirst(t.r);
      } else {
        curnode := start;
        var curparent := curnode.parent;
        ghost var d, s := c, t;
        while curparent != null && curnode == curparent.right
          invariant InMemory(mem, d, s, root) && s.N? && curnode == s.node && curparent == Parent(d)
          invariant NodesAfter(d) == NodesAfter(c)
          decreases d
        {
          Around(d, s);
          FocusUp(mem, d, s, root);
          d, s := d.up, Up1(d, s);
          curnode := curparent;
          Around(d, s);
          curparent := curparent.parent;
        }
        Around(d, s);
        curnode := curparent;
      }
    }

    /** The nodes in key order. */
    ghost function Order(): seq<Node>
      reads this
    {
      NodeSeq(shape)
    }

    /** TreeNextElement: the first node for null, or else the one that follows in order. */
    method NextElement(curnode: Node?) returns (r: Node?)
      requires Valid() && (curnode != null ==> curnode in Nodes(shape))
      ensures curnode == null ==> r == First(Order())
      ensures curnode != null ==>
        exists i :: 0 <= i < |Order()| && Order()[i] == curnode && r == First(Order()[i + 1..])
    {
      hide Mirrors, InMemory, SortedItems, NodeSeq, NodesAfter, NodesBefore;
      if curnode == null {
        RootIsTop();
        EmptyOrder(shape);
        r := root;
        if root != null {
          r := Minimum(root, Top, shape);
          MinIsFirst(shape);
        }
      } else {
        ghost var (c, t) := Reach(Top, shape, curnode);
        Reached(mem, Top, shape, root, curnode);
        r := Successor(curnode, c, t);
        NextInOrder(c, t);
        assert Plug(Top, shape) == shape;
        ghost var i := |NodesBefore(c)| + |NodeSeq(t.l)|;
        assert Order()[i] == curnode && r == First(Order()[i + 1..]);
      }
    }

    /** Visiting the whole tree with TreeNextElement gives every item once, in key order. */
    method Visit() returns (items: seq<Item>)
      requires Valid()
      ensures items == Items(shape)
    {
      hide Mirrors, InMemory, SortedItems, NodeSeq;
      items := [];
      OrderHolds();
      var current := NextElement(null);
      while current != null
        invariant |items| <= |Order()| && items == Items(shape)[..|items|]
        invariant current == First(Order()[|items|..])
        decreases |Order()| - |items|
      {
        assert current == Order()[|items|];
        items := items + [current.content.item];
        var next := NextElement(current);
        current := next;
      }
    }

    /** The nodes in order hold the items in order. */
    lemma OrderHolds()
      requires Valid()
      ensures |Order()| == |Items(shape)|
      ensures forall i :: 0 <= i < |Order()| ==>
        Order()[i] in Nodes(shape) && Order()[i].content == Content(Items(shape)[i])
      ensures forall i, j :: 0 <= i < j < |Order()| ==> Order()[i] != Order()[j]
    {
      OrderDistinct(shape);
      NodeSeqItems(mem, shape, null);
      NodeSeqNodes(shape);
      forall i | 0 <= i < |Order()|
        ensures Order()[i].content == Content(Items(shape)[i])
      {
        assert Order()[i].Fields() == mem[Order()[i]];
      }
    }

    // ----- removing -----

    /** The first part of TreeRemoveNode: a node with at most one child is taken out. */
    method Unlink(redundant: Node, ghost c: Ctx, ghost t: T) returns (curchild: Node?)
      requires Mirrors() && InMemory(mem, c, t, root) && t.N? && redundant == t.node && (t.l.Leaf? || t.r.Leaf?)
      modifies this`root, this`mem, mem.Keys
      ensures Mirrors() && mem.Keys == old(mem.Keys) && curchild == Root(Only(t)) && InMemory(mem, c, Only(t), root)
      ensures redundant.parent == Parent(c) && redundant.red == t.red && redundant.content == Content(t.item)
    {
      Around(c, t);
      UnlinkedInMemory(mem, c, t, root);
      SideSeen(c, t);
      hide InMemory;
      ghost var m := mem;
      curchild := redundant.Child(if redundant.left != null then LEFT else RIGHT);
      if curchild != null {
        SetParent(curchild, redundant.parent);
      }
      Replace(redundant, redundant.parent, LEFT, curchild, c);
      assert mem == Unlinked(m, c, curchild);
      assert redundant.Fields() == mem[redundant];
    }

    lemma SideSeen(c: Ctx, t: T)
      requires Mirrors() && InMemory(mem, c, t, root) && t.N?
      ensures c.F? ==> c.node in mem && mem[c.node].Child(c.side) == t.node && mem[c.node].Child(!c.side) != t.node
      ensures c.F? ==> c.node != t.node && c.node != Root(t.l) && c.node != Root(t.r)
      ensures t.node != Root(t.l) && t.node != Root(t.r)
    {
      assert t.node in Nodes(t) && (t.l.N? ==> t.l.node in Nodes(t.l)) && (t.r.N? ==> t.r.node in Nodes(t.r));
      ParentInCtx(c);
      if c.F? { HoleSide(mem, c, t.node); }
    }

    /** TreeRemoveNode up to the balancing. The node taken out is curnode or, if that has two children, its
        successor, whose content curnode takes over. */
    method TakeOut(curnode: Node, ghost c: Ctx, ghost t: T) returns (redundant: Node, curchild: Node?, ghost c2: Ctx)
      requires Mirrors() && InMemory(mem, c, t, root) && t.N? && curnode == t.node
      modifies this`root, this`mem, mem.Keys
      ensures Mirrors() && mem.Keys == old(mem.Keys) - {redundant} && redundant in old(mem)
      ensures redundant == Redundant(t).node && c2 == RedundantCtx(c, t, Redundant(t).item)
      ensures curchild == Root(Only(Redundant(t))) && InMemory(mem, c2, Only(Redundant(t)), root)
      ensures redundant.parent == Parent(c2) && redundant.red == Redundant(t).red
    {
      hide Mirrors, InMemory, MinT, MinCtx, CtxNodes, Nodes, Only;
      redundant, c2 := Choose(curnode, c, t);
      RedundantHasOneChild(t);
      ghost var r := Redundant(t);
      RedundantApart(mem, c2, r, root);
      curchild := Unlink(redundant, c2, r);
      if redundant != curnode {
        ghost var b := F(c, t.node, t.red, t.item, RIGHT, t.l);
        TakenOver(mem, b, t.r, Only(r), root, r.item);
        SetContent(curnode, redundant.content);
        MinCtxNodes(b, t.r, r.item);
        c2 := MinCtx(b.(item := r.item), t.r);
      }
      Forgotten(mem, c2, Only(r), root, redundant);
      Drop(redundant);
    }

    /** The node to take out: with two children the successor. */
    method Choose(curnode: Node, ghost c: Ctx, ghost t: T) returns (redundant: Node, ghost c2: Ctx)
      requires Mirrors() && InMemory(mem, c, t, root) && t.N? && curnode == t.node
      ensures redundant == Redundant(t).node && c2 == RedundantCtx(c, t, t.item)
      ensures InMemory(mem, c2, Redundant(t), root)
      ensures redundant == curnode <==> t.l.Leaf? || t.r.Leaf?
    {
      hide Mirrors, InMemory, MinT, MinCtx;
      redundant, c2 := curnode, c;
      Around(c, t);
      if curnode.left != null && curnode.right != null {
        redundant := Successor(curnode, c, t);
        FocusDown(mem, c, t, root, RIGHT);
        ghost var b := F(c, t.node, t.red, t.item, RIGHT, t.l);
        MinPlace(mem, b, t.r, root);
        c2 := MinCtx(b, t.r);
        MinDiffers(mem, c, t, root);
      }
    }

    /** The node's memory is no longer the tree's. */
    ghost method Drop(n: Node)
      requires Mirrors()
      modifies this`mem
      ensures Mirrors() && mem == old(mem) - {n}
    {
      mem := mem - {n};
    }

    /** TreeRemoveNode from the balancing on. */
    method Settle(redundant: Node, curchild: Node?, ghost c: Ctx, ghost r: T)
      requires Mirrors() && r.N? && (r.l.Leaf? || r.r.Leaf?) && InMemory(mem, c, Only(r), root)
      requires redundant !in mem && redundant.red == r.red && redundant.parent == Parent(c) && curchild == Root(Only(r))
      modifies this`root, this`mem, this`shape, mem.Keys
      ensures Mirrors() && mem.Keys == old(mem.Keys) && InMemory(mem, Top, shape, root)
      ensures Items(shape) == All(c, Only(r))
      ensures RB(r) && RBCtx(c, Black(r)) && (Red(r) ==> c.F? && !c.red) ==> Balanced()
    {
      hide Mirrors, InMemory, RB, RBCtx, Black, All, Removing;
      Around(c, Only(r));
      SettledRB(c, r);
      if !redundant.red && (curchild != null || redundant.parent != null) {
        if curchild == null {
          var temp := new Node();
          temp.parent := redundant.parent;
          BalanceAfterRemove(temp, c, Only(r));
        } else {
          BalanceAfterRemove(curchild, c, Only(r));
        }
      } else {
        shape := Plug(c, Only(r));
        FocusTop(mem, c, Only(r), root);
        AllPlug(c, Only(r));
      }
    }

    /** TreeRemoveNode: the node's item leaves the tree, and no other. */
    method RemoveNode(curnode: Node) returns (content: Content)
      requires Valid() && curnode in Nodes(shape)
      modifies this`root, this`mem, this`shape, this`count, mem.Keys
      ensures Valid() && mem.Keys < old(mem.Keys) && count == old(count) - 1
      ensures content == old(curnode.content) && content.Content? && content.item in old(Items(shape))
      ensures Map() == old(Map()) - {content.item.key}
      ensures old(Balanced()) ==> Balanced()
    {
      hide Mirrors, InMemory, RB, RBCtx, Black, SortedItems, AsMap;
      hide Plug, Only, Redundant, RedundantCtx, All, Items, Reach;
      ghost var (c, t) := Reach(Top, shape, curnode);
      Leaving(curnode);
      content := curnode.content;
      ghost var k := mem.Keys;
      var redundant, curchild;
      ghost var c2;
      redundant, curchild, c2 := TakeOut(curnode, c, t);
      RedundantHasOneChild(t);
      Settle(redundant, curchild, c2, Redundant(t));
      count := count - 1;
      assert |mem.Keys| == |k| - 1;
      NoOtherNodes(mem, shape, root);
    }

    lemma Leaving(curnode: Node)
      requires Valid() && curnode in Nodes(shape)
      ensures var (c, t) := Reach(Top, shape, curnode); var r := Redundant(t); var c2 := RedundantCtx(c, t, r.item);
        && InMemory(mem, c, t, root) && curnode.content == Content(t.item) && t.item in Items(shape)
        && SortedItems(All(c2, Only(r))) && AsMap(All(c2, Only(r))) == Map() - {t.item.key}
        && |mem.Keys| == |Items(shape)| == |All(c2, Only(r))| + 1
        && (Balanced() ==> RB(r) && RBCtx(c2, Black(r)) && (Red(r) ==> c2.F? && !c2.red))
    {
      var (c, t) := Reach(Top, shape, curnode);
      Reached(mem, Top, shape, root, curnode);
      hide InMemory, RB, RBCtx, Black, SortedItems, AsMap, Items, Reach, Redundant, RedundantCtx, Only, Before, After;
      Around(c, t);
      RedundantItems(c, t);
      AroundRoot(c, t);
      AllPlug(Top, shape);
      Dropped(Before(c) + Items(t.l), t.item, Items(t.r) + After(c));
      RedundantRB(c, t, Redundant(t).item);
      MemorySize();
    }

    /** TreeRemoveKey. */
    method RemoveKey(key: int) returns (content: Content)
      requires Valid()
      modifies this`root, this`mem, this`shape, this`count, mem.Keys
      ensures Valid() && mem.Keys <= old(mem.Keys)
      ensures content == if key in old(Map()) then Content(old(Map())[key]) else NoContent
      ensures Map() == old(Map()) - {key}
      ensures old(Balanced()) ==> Balanced()
    {
      hide Valid, Map, Balanced, Searching;
      var curnode;
      ghost var c, t;
      curnode, c, t := Find(key);
      content := NoContent;
      if curnode != null {
        MapKey(key);
        content := RemoveNode(curnode);
      }
    }

    lemma MapKey(key: int)
      requires Valid()
      ensures key in Map() ==> Map()[key].key == key
    {
      AsMapHolds(Items(shape));
    }

    // ----- runs -----

    /** A run of additions and removals leaves what they leave in a finite map; if no key is added twice, the tree
        stays balanced. */
    method Run(ops: seq<Op>)
      requires Valid() && !allowDuplicates
      modifies this`root, this`mem, this`shape, this`count, mem.Keys
      ensures Valid() && Map() == Applied(old(Map()), ops)
      ensures old(Balanced()) && FreshAdds(old(Map()), ops) ==> Balanced()
    {
      hide Valid, Balanced, Map, KeepsBalance;
      ghost var start, known := Map(), mem.Keys;
      AppliedNone(start);
      for i := 0 to |ops|
        invariant Valid() && Map() == Applied(start, ops[..i])
        invariant old(Balanced()) && FreshAdds(start, ops) ==> Balanced()
        invariant fresh(mem.Keys - old(mem.Keys))
      {
        AppliedNext(start, ops, i);
        match ops[i] {
          case Add(item) => var _ := Add(item);
          case Remove(key) => var _ := RemoveKey(key);
        }
      }
      assert ops[..|ops|] == ops;
    }

    lemma RootIsTop()
      requires Valid()
      ensures root == Root(shape)
    {
    }

    lemma SearchSees(key: int, c: Ctx, t: T)
      requires Valid() && Searching(key, c, t)
      ensures t.N? ==> t.node.left == Root(t.l) && t.node.right == Root(t.r) && t.node.content == Content(t.item)
    {
      Around(c, t);
    }
  }

  lemma LeafParts(c: Ctx)
    ensures All(c, Leaf) == Before(c) + After(c) && Nodes(Leaf) == {} && Black(Leaf) == 0
  {
  }

  lemma NewNode(c: Ctx, t: T)
    requires t.N? && t.red && t.l == Leaf && t.r == Leaf
    ensures All(c, t) == Before(c) + [t.item] + After(c)
    ensures RBCtx(c, 0) ==> Adding(c, t)
    ensures |All(c, t)| == |Before(c) + After(c)| + 1
  {
    assert Items(t) == [t.item];
  }

  lemma SameColours(c: Ctx, t: T, item: Item)
    requires t.N?
    ensures RB(t) && RBCtx(c, Black(t)) ==> Adding(c, t.(item := item))
  {
  }

  /** Adding a key that is there can break the rules: a balanced tree, as it may lie in memory, with a black inner
      grandchild, a red parent and a black uncle. */
  lemma ReplacingUnbalances(nodes: seq<Node>)
    requires |nodes| == 5 && forall i, j :: 0 <= i < j < 5 ==> nodes[i] != nodes[j]
    ensures var shape := Five(nodes);
      && Distinct(shape) && InMemory(MemoryOf(shape, null), Top, shape, nodes[0])
      && RB(shape) && !Red(shape) && SortedItems(Items(shape)) && !Tree.KeepsBalance(shape, 7)
  {
    var shape, p := Five(nodes), Five(nodes).l;
    OneIs(nodes[2], 3);
    OneIs(nodes[3], 7);
    OneIs(nodes[4], 15);
    FiveDistinct(nodes);
    MemoryAgrees(shape, null);
    assert RB(p) && Black(p) == 1;
    assert Items(p) == [Item(3, 0)] + [Item(5, 0)] + [Item(7, 0)];
    assert Items(shape) == [Item(3, 0), Item(5, 0), Item(7, 0), Item(10, 0), Item(15, 0)];
    SevenLocated(nodes);
  }

  lemma SevenLocated(nodes: seq<Node>)
    requires |nodes| == 5
    ensures !Tree.KeepsBalance(Five(nodes), 7)
  {
    var shape, p := Five(nodes), Five(nodes).l;
    var c1 := F(Top, nodes[0], false, Item(10, 0), LEFT, shape.r);
    var c2 := F(c1, nodes[1], true, Item(5, 0), RIGHT, p.l);
    assert Locate(Top, shape, 7) == Locate(c1, p, 7) == Locate(c2, p.r, 7) == (c2, p.r);
  }

  lemma FiveDistinct(nodes: seq<Node>)
    requires |nodes| == 5 && forall i, j :: 0 <= i < j < 5 ==> nodes[i] != nodes[j]
    ensures Distinct(Five(nodes))
  {
    var p := Five(nodes).l;
    OneIs(nodes[2], 3);
    OneIs(nodes[3], 7);
    OneIs(nodes[4], 15);
    assert Distinct(p) && Nodes(p) == {nodes[1], nodes[2], nodes[3]};
  }

  function One(n: Node, key: int): T {
    N(n, false, Item(key, 0), Leaf, Leaf)
  }

  lemma OneIs(n: Node, key: int)
    ensures var t := One(n, key); RB(t) && Black(t) == 1 && Items(t) == [Item(key, 0)] && Distinct(t) && Nodes(t) == {n}
  {
    assert Items(Leaf) == [] && Black(Leaf) == 0 && Nodes(Leaf) == {};
  }

  function Five(nodes: seq<Node>): T
    requires |nodes| == 5
  {
    N(nodes[0], false, Item(10, 0), N(nodes[1], true, Item(5, 0), One(nodes[2], 3), One(nodes[3], 7)),
        One(nodes[4], 15))
  }

  /** The memory that a subtree below some node takes up. */
  ghost function MemoryOf(t: T, parent: Node?): (m: Memory)
    ensures m.Keys == Nodes(t)
  {
    if t.Leaf? then map[]
    else
      MemoryOf(t.l, t.node) + MemoryOf(t.r, t.node)
      + map[t.node := Rec(parent, Root(t.l), Root(t.r), t.red, Content(t.item))]
  }

  lemma {:induction false} MemoryAgrees(t: T, parent: Node?)
    requires Distinct(t)
    ensures Agree(MemoryOf(t, parent), t, parent)
  {
    if t.N? {
      var m := MemoryOf(t, parent);
      MemoryAgrees(t.l, t.node);
      MemoryAgrees(t.r, t.node);
      AgreeSame(MemoryOf(t.l, t.node), m, t.l, t.node);
      AgreeSame(MemoryOf(t.r, t.node), m, t.r, t.node);
    }
  }

  lemma InnerNotFinal(c0: Ctx, t0: T, c: Ctx, t: T)
    requires Tree.Balancing(c0, t0, c, t) && (c.F? ==> !c.red || c.up.Top?)
    ensures Adding(c0, t0) && !Red(t0) && Inner(c0) ==> c.F? && !RB(t)
  {
  }
}
