/** The shape of an intrusive AVL tree, as a value: a tree of references to the linked objects. */
module AvlTree {

  /** An object with an embedded tree node: a key and the three link fields. */
  class Node {
    const key: int
    var left: Node?
    var right: Node?
    var height: int

    constructor (k: int)
      ensures key == k && left == null && right == null && height == 0
    {
      key := k;
      left, right, height := null, null, 0;
    }
  }

  datatype Tree = Nil | T(l: Tree, n: Node, r: Tree)

  function Max(a: int, b: int): int { if a > b then a else b }

  function H(t: Tree): (h: int)
    ensures h >= -1
  {
    match t
    case Nil => -1
    case T(l, _, r) => Max(H(l), H(r)) + 1
  }

  /** The objects in key order. */
  ghost function InOrder(t: Tree): seq<Node> {
    match t
    case Nil => []
    case T(l, n, r) => InOrder(l) + [n] + InOrder(r)
  }

  ghost function Nodes(t: Tree): set<Node> {
    match t
    case Nil => {}
    case T(l, n, r) => Nodes(l) + {n} + Nodes(r)
  }

  ghost predicate Sorted(s: seq<Node>) {
    forall i, j | 0 <= i < j < |s| :: s[i].key < s[j].key
  }

  /** Balanced within one at every node. */
  ghost predicate Avl(t: Tree) {
    t.T? ==> -1 <= H(t.l) - H(t.r) <= 1 && Avl(t.l) && Avl(t.r)
  }

  /** No object occurs twice. */
  ghost predicate Separate(t: Tree) {
    t.T? ==> t.n !in Nodes(t.l) && t.n !in Nodes(t.r) && Nodes(t.l) !! Nodes(t.r) && Separate(t.l) && Separate(t.r)
  }

  /** An AVL tree of just these objects, in key order. */
  ghost predicate Ordered(t: Tree, xs: set<Node>) {
    Nodes(t) == xs && Sorted(InOrder(t)) && Avl(t)
  }

  /** What `balance` makes of a node with these subtrees. */
  ghost function Bal(l: Tree, n: Node, r: Tree): Tree {
    if H(l) - H(r) > 1 then
      if H(l.l) >= H(l.r) then T(l.l, l.n, T(l.r, n, r))
      else T(T(l.l, l.n, l.r.l), l.r.n, T(l.r.r, n, r))
    else if H(l) - H(r) < -1 then
      if H(r.r) >= H(r.l) then T(T(l, n, r.l), r.n, r.r)
      else T(T(l, n, r.l.l), r.l.n, T(r.l.r, r.n, r.r))
    else T(l, n, r)
  }

  /** Rebalancing repairs an imbalance of two. */
  lemma BalKeeps(l: Tree, n: Node, r: Tree)
    requires Avl(l) && Avl(r) && -2 <= H(l) - H(r) <= 2
    ensures var t := Bal(l, n, r);
            && Avl(t) && Max(H(l), H(r)) <= H(t) <= Max(H(l), H(r)) + 1
            && (-1 <= H(l) - H(r) <= 1 ==> t == T(l, n, r))
  {
    if H(l) - H(r) > 1 {
      BalLeftHeavy(l, n, r);
    } else if H(l) - H(r) < -1 {
      BalRightHeavy(l, n, r);
    }
  }

  lemma BalLeftHeavy(l: Tree, n: Node, r: Tree)
    requires Avl(l) && Avl(r) && H(l) - H(r) == 2
    ensures Avl(Bal(l, n, r)) && H(l) <= H(Bal(l, n, r)) <= H(l) + 1
  {
    if H(l.l) < H(l.r) {
      var x := l.r;
      assert Avl(T(l.l, l.n, x.l)) && Avl(T(x.r, n, r));
    }
  }

  lemma BalRightHeavy(l: Tree, n: Node, r: Tree)
    requires Avl(l) && Avl(r) && H(r) - H(l) == 2
    ensures Avl(Bal(l, n, r)) && H(r) <= H(Bal(l, n, r)) <= H(r) + 1
  {
    if H(r.r) < H(r.l) {
      var x := r.l;
      assert Avl(T(l, n, x.l)) && Avl(T(x.r, r.n, r.r));
    }
  }

  lemma BalNotHigher(l: Tree, n: Node, r: Tree)
    ensures H(Bal(l, n, r)) <= H(T(l, n, r))
  {
    if H(l) - H(r) > 1 {
      assert H(l) == Max(H(l.l), H(l.r)) + 1;
      if H(l.l) < H(l.r) { assert H(l.r) == Max(H(l.r.l), H(l.r.r)) + 1; }
    } else if H(l) - H(r) < -1 {
      assert H(r) == Max(H(r.l), H(r.r)) + 1;
      if H(r.r) < H(r.l) { assert H(r.l) == Max(H(r.l.l), H(r.l.r)) + 1; }
    }
  }

  lemma Regroup(a: seq<Node>, x: Node, b: seq<Node>, y: Node, c: seq<Node>)
    ensures a + [x] + (b + [y] + c) == (a + [x] + b) + [y] + c
  {
  }

  /** Rotations change neither the objects nor their order. */
  lemma BalOrder(l: Tree, n: Node, r: Tree)
    ensures InOrder(Bal(l, n, r)) == InOrder(l) + [n] + InOrder(r)
  {
    if H(l) - H(r) > 1 {
      var ll, lr := InOrder(l.l), InOrder(l.r);
      if H(l.l) >= H(l.r) {
        Regroup(ll, l.n, lr, n, InOrder(r));
      } else {
        var a, x, b := InOrder(l.r.l), l.r.n, InOrder(l.r.r);
        Regroup(ll, l.n, a, x, b);
        Regroup(ll + [l.n] + a, x, b, n, InOrder(r));
      }
    } else if H(l) - H(r) < -1 {
      var rl, rr := InOrder(r.l), InOrder(r.r);
      if H(r.r) >= H(r.l) {
        Regroup(InOrder(l), n, rl, r.n, rr);
      } else {
        var a, x, b := InOrder(r.l.l), r.l.n, InOrder(r.l.r);
        Regroup(a, x, b, r.n, rr);
        Regroup(InOrder(l), n, a, x, b + [r.n] + rr);
      }
    }
  }

  lemma {:induction false} NodesInOrder(t: Tree, x: Node)
    ensures x in Nodes(t) <==> x in InOrder(t)
    decreases t
  {
    if t.T? {
      NodesInOrder(t.l, x);
      NodesInOrder(t.r, x);
    }
  }

  lemma SortedParts(a: seq<Node>, b: seq<Node>)
    requires Sorted(a + b)
    ensures Sorted(a) && Sorted(b) && forall x, y | x in a && y in b :: x.key < y.key
  {
    var s := a + b;
    forall i, j | 0 <= i < j < |a| ensures a[i].key < a[j].key { assert s[i] == a[i] && s[j] == a[j]; }
    forall i, j | 0 <= i < j < |b| ensures b[i].key < b[j].key { assert s[|a| + i] == b[i] && s[|a| + j] == b[j]; }
    forall x, y | x in a && y in b ensures x.key < y.key {
      var i :| 0 <= i < |a| && a[i] == x;
      var j :| 0 <= j < |b| && b[j] == y;
      assert s[i] == x && s[|a| + j] == y;
    }
  }

  lemma SortedNode(l: seq<Node>, n: Node, r: seq<Node>)
    requires Sorted(l + [n] + r)
    ensures Sorted(l) && Sorted(r) && (forall x | x in l :: x.key < n.key) && (forall x | x in r :: n.key < x.key)
  {
    SortedParts(l + [n], r);
    SortedParts(l, [n]);
    assert n in l + [n] && n in [n];
  }

  /** Ordered keys keep the objects apart. */
  lemma {:induction false} SortedSeparate(t: Tree)
    requires Sorted(InOrder(t))
    ensures Separate(t)
    decreases t
  {
    if t.T? {
      SortedNode(InOrder(t.l), t.n, InOrder(t.r));
      SortedSeparate(t.l);
      SortedSeparate(t.r);
      NodesInOrder(t.l, t.n);
      NodesInOrder(t.r, t.n);
      forall x | x in Nodes(t.l) ensures x !in Nodes(t.r) {
        NodesInOrder(t.l, x);
        NodesInOrder(t.r, x);
      }
    }
  }

  // ----------------------------------------------------------- the zipper

  /** Where a subtree hangs: what is above it, from its parent up. */
  datatype Context = Top | InLeft(n: Node, r: Tree, up: Context) | InRight(l: Tree, n: Node, up: Context)

  /** The parent of the hole, with u in the hole. */
  ghost function Around(c: Context, u: Tree): Tree
    requires !c.Top?
  {
    if c.InLeft? then T(u, c.n, c.r) else T(c.l, c.n, u)
  }

  ghost function Plug(c: Context, t: Tree): Tree {
    if c.Top? then t else Plug(c.up, Around(c, t))
  }

  ghost function Sibling(c: Context): Tree
    requires !c.Top?
  {
    if c.InLeft? then c.r else c.l
  }

  /** The rebalanced tree. */
  ghost function Rebalance(t: Tree): Tree {
    if t.T? then Bal(t.l, t.n, t.r) else Nil
  }

  /** Plugging while rebalancing every node on the way up. */
  ghost function Rebalanced(c: Context, t: Tree): Tree {
    if c.Top? then t else Rebalanced(c.up, Rebalance(Around(c, t)))
  }

  ghost function Before(c: Context): seq<Node> {
    match c
    case Top => []
    case InLeft(n, r, up) => Before(up)
    case InRight(l, n, up) => Before(up) + InOrder(l) + [n]
  }

  ghost function After(c: Context): seq<Node> {
    match c
    case Top => []
    case InLeft(n, r, up) => [n] + InOrder(r) + After(up)
    case InRight(l, n, up) => After(up)
  }

  ghost function ContextNodes(c: Context): set<Node> {
    match c
    case Top => {}
    case InLeft(n, r, up) => {n} + Nodes(r) + ContextNodes(up)
    case InRight(l, n, up) => Nodes(l) + {n} + ContextNodes(up)
  }

  /** Entering a node from its left or right child. */
  lemma ContextOrder(c: Context, s: seq<Node>)
    requires !c.Top?
    ensures c.InLeft? ==> Before(c) + s + After(c) == Before(c.up) + (s + [c.n] + InOrder(c.r)) + After(c.up)
    ensures c.InRight? ==> Before(c) + s + After(c) == Before(c.up) + (InOrder(c.l) + [c.n] + s) + After(c.up)
  {
    if c.InLeft? {
      GroupLeft(Before(c.up), s, c.n, InOrder(c.r), After(c.up));
    } else {
      GroupRight(Before(c.up), InOrder(c.l), c.n, s, After(c.up));
    }
  }

  lemma GroupLeft(a: seq<Node>, s: seq<Node>, x: Node, b: seq<Node>, d: seq<Node>)
    ensures a + s + ([x] + b + d) == a + (s + [x] + b) + d
  {
    assert [x] + b + d == [x] + (b + d);
  }

  lemma GroupRight(a: seq<Node>, b: seq<Node>, x: Node, s: seq<Node>, d: seq<Node>)
    ensures (a + b + [x]) + s + d == a + (b + [x] + s) + d
  {
    assert a + b + [x] == a + (b + [x]);
  }

  lemma {:induction false} PlugOrder(c: Context, t: Tree)
    ensures InOrder(Plug(c, t)) == Before(c) + InOrder(t) + After(c)
    decreases c
  {
    if !c.Top? {
      ContextOrder(c, InOrder(t));
      PlugOrder(c.up, if c.InLeft? then T(t, c.n, c.r) else T(c.l, c.n, t));
    }
  }

  lemma {:induction false} RebalancedOrder(c: Context, t: Tree)
    ensures InOrder(Rebalanced(c, t)) == Before(c) + InOrder(t) + After(c)
    decreases c
  {
    if c.InLeft? {
      ContextOrder(c, InOrder(t));
      BalOrder(t, c.n, c.r);
      RebalancedOrder(c.up, Bal(t, c.n, c.r));
    } else if c.InRight? {
      ContextOrder(c, InOrder(t));
      BalOrder(c.l, c.n, t);
      RebalancedOrder(c.up, Bal(c.l, c.n, t));
    }
  }

  /** The siblings are AVL trees, and the hole was balanced against them when it had height h. */
  ghost predicate AvlContext(c: Context, h: int) {
    !c.Top? ==>
      && Avl(Sibling(c)) && -1 <= h - H(Sibling(c)) <= 1
      && AvlContext(c.up, Max(h, H(Sibling(c))) + 1)
  }

  lemma {:induction false} PlugAvl(c: Context, t: Tree)
    requires Avl(Plug(c, t))
    ensures Avl(t) && AvlContext(c, H(t))
    decreases c
  {
    if !c.Top? {
      PlugAvl(c.up, Around(c, t));
      AvlParts(c, t);
    }
  }

  lemma AvlParts(c: Context, t: Tree)
    requires !c.Top? && Avl(Around(c, t))
    ensures Avl(t) && Avl(Sibling(c)) && -1 <= H(t) - H(Sibling(c)) <= 1
    ensures H(Around(c, t)) == Max(H(t), H(Sibling(c))) + 1
  {
  }

  /** Growing or shrinking the hole by one is repaired all the way up. */
  lemma {:induction false} RebalancedAvl(c: Context, t: Tree, h: int)
    requires AvlContext(c, h) && Avl(t) && h - 1 <= H(t) <= h + 1
    ensures Avl(Rebalanced(c, t))
    decreases c
  {
    if !c.Top? {
      var h' := AroundAvl(c, t, h);
      RebalancedAvl(c.up, Rebalance(Around(c, t)), h');
    }
  }

  lemma AroundAvl(c: Context, t: Tree, h: int) returns (h': int)
    requires !c.Top? && AvlContext(c, h) && Avl(t) && h - 1 <= H(t) <= h + 1
    ensures AvlContext(c.up, h') && Avl(Rebalance(Around(c, t))) && h' - 1 <= H(Rebalance(Around(c, t))) <= h' + 1
  {
    if c.InLeft? {
      h' := Max(h, H(c.r)) + 1;
      BalHeight(t, c.n, c.r, h, H(c.r));
    } else {
      h' := Max(h, H(c.l)) + 1;
      BalHeight(c.l, c.n, t, H(c.l), h);
    }
  }

  /** One subtree changed its height by at most one: the rebalanced node does so too. */
  lemma BalHeight(l: Tree, n: Node, r: Tree, hl: int, hr: int)
    requires Avl(l) && Avl(r) && -1 <= hl - hr <= 1
    requires (hl == H(l) && hr - 1 <= H(r) <= hr + 1) || (hr == H(r) && hl - 1 <= H(l) <= hl + 1)
    ensures Avl(Bal(l, n, r)) && Max(hl, hr) <= H(Bal(l, n, r)) <= Max(hl, hr) + 2
  {
    BalKeeps(l, n, r);
  }

  /** Shrinking the hole by at most one makes the whole tree at most one lower. */
  lemma {:induction false} RebalancedShrink(c: Context, t: Tree, t0: Tree)
    requires Avl(Plug(c, t0)) && Avl(t) && H(t0) - 1 <= H(t) <= H(t0)
    ensures H(Plug(c, t0)) - 1 <= H(Rebalanced(c, t)) <= H(Plug(c, t0))
    decreases c
  {
    PlugAvl(c, t0);
    if c.InLeft? {
      BalKeeps(t, c.n, c.r);
      BalShrink(t, c.n, c.r, H(t0), H(c.r));
      RebalancedShrink(c.up, Rebalance(Around(c, t)), Around(c, t0));
    } else if c.InRight? {
      BalKeeps(c.l, c.n, t);
      BalShrink(c.l, c.n, t, H(c.l), H(t0));
      RebalancedShrink(c.up, Rebalance(Around(c, t)), Around(c, t0));
    }
  }

  lemma BalShrink(l: Tree, n: Node, r: Tree, hl: int, hr: int)
    requires Avl(l) && Avl(r) && -1 <= hl - hr <= 1
    requires (hl == H(l) && hr - 1 <= H(r) <= hr) || (hr == H(r) && hl - 1 <= H(l) <= hl)
    ensures Max(hl, hr) <= H(Bal(l, n, r)) <= Max(hl, hr) + 1
  {
    BalHeight(l, n, r, hl, hr);
    BalNotHigher(l, n, r);
  }

  // ------------------------------------------------------ size and height

  /** The fewest objects an AVL tree of this height can hold. */
  function MinNodes(h: int): (k: nat)
    requires h >= -1
    decreases h
  {
    if h == -1 then 0 else if h == 0 then 1 else MinNodes(h - 1) + MinNodes(h - 2) + 1
  }

  lemma {:induction false} HeightBound(t: Tree)
    requires Avl(t) && Separate(t)
    ensures |Nodes(t)| >= MinNodes(H(t))
    decreases t
  {
    if t.T? {
      HeightBound(t.l);
      HeightBound(t.r);
      NodeCount(t);
      var g, h := H(t.l), H(t.r);
      MinNodesJoin(g, h);
      assert H(t) == Max(g, h) + 1;
    }
  }

  lemma NodeCount(t: Tree)
    requires t.T? && Separate(t)
    ensures |Nodes(t)| == |Nodes(t.l)| + 1 + |Nodes(t.r)|
  {
    var a, b := Nodes(t.l) + {t.n}, Nodes(t.r);
    assert |a| == |Nodes(t.l)| + 1 && a !! b && Nodes(t) == a + b;
  }

  lemma MinNodesJoin(g: int, h: int)
    requires g >= -1 && h >= -1 && -1 <= g - h <= 1
    ensures MinNodes(g) + 1 + MinNodes(h) >= MinNodes(Max(g, h) + 1)
  {
    var m := Max(g, h);
    if m >= 0 { MinNodesGrow(m - 1); }
  }

  lemma {:induction false} MinNodesGrow(h: int)
    requires h >= -1
    ensures MinNodes(h) < MinNodes(h + 1)
    decreases h
  {
    if h > 0 { MinNodesGrow(h - 1); }
  }

  lemma {:induction false} MinNodesMonotone(g: int, h: int)
    requires -1 <= g <= h
    ensures MinNodes(g) <= MinNodes(h)
    decreases h
  {
    if g < h {
      MinNodesMonotone(g, h - 1);
      MinNodesGrow(h - 1);
    }
  }
}
