/** The intrusive AVL tree: insertion and removal over a stack of pointers to links. */
module Bintree {
  import opened AvlTree
  import opened AvlStore

  const LONG: int := 0x8000_0000_0000_0000
  const MAX_TREE_HEIGHT: nat := 32

  /** Subtraction of two `long` values, wrapping around. */
  function KeyDiff(a: int, b: int): int { (a - b + LONG) % (2 * LONG) - LONG }

  predicate IsLong(a: int) { -LONG <= a < LONG }

  /** Comparing by subtraction is right exactly when the difference fits a long. */
  lemma KeyDiffSign(a: int, b: int)
    requires IsLong(a) && IsLong(b)
    ensures (KeyDiff(a, b) < 0 <==> a < b) && (KeyDiff(a, b) == 0 <==> a == b) <==> IsLong(a - b)
  {
  }

  /** Keys that can be compared with v. */
  ghost predicate Comparable(xs: set<Node>, v: int) {
    IsLong(v) && forall x | x in xs :: IsLong(x.key) && IsLong(x.key - v)
  }

  class Bintree {
    var root: Node?
    ghost var objs: set<Node>

    ghost var st: Store

    /** `st` shows the links as they are now. */
    ghost predicate Synced()
      reads this, objs
    {
      st.root == root && st.mem.Keys == objs && forall x | x in objs :: st.mem[x] == Fields(x.left, x.right, x.height)
    }

    method Load(k: Link) returns (p: Node?)
      requires Synced() && Held(st, k)
      ensures p == Get(st, k)
    {
      match k
      case Root => p := root;
      case LeftOf(n) => p := n.left;
      case RightOf(n) => p := n.right;
    }

    method StoreLink(k: Link, v: Node?)
      requires Synced() && Held(st, k)
      modifies this`root, this`st, objs
      ensures Synced() && st == Put(old(st), k, v)
      ensures Closed(old(st)) && (v != null ==> v in objs) ==> Closed(st)
    {
      match k {
        case Root => root := v;
        case LeftOf(n) => n.left := v;
        case RightOf(n) => n.right := v;
      }
      st := Put(st, k, v);
    }

    method UpdateHeight(n: Node)
      requires Synced() && n in objs && Closed(st)
      modifies this`st, objs
      ensures Synced() && st == WithHeight(old(st), n) && Closed(st)
    {
      var l := if n.left == null then -1 else n.left.height;
      var r := if n.right == null then -1 else n.right.height;
      n.height := StoredHeight(l, r);
      st := WithHeight(st, n);
    }

    method RotateLeftChild(k: Link)
      requires Synced() && Held(st, k) && Closed(st) && Get(st, k) != null
      requires var n: Node := Get(st, k); n in objs && st.mem[n].left != null
      modifies this`root, this`st, objs
      ensures Synced() && st == RotatedLeftChild(old(st), k) && Closed(st)
    {
      var orig: Node := Load(k);
      var child: Node := orig.left;
      StoreLink(k, child);
      var inner := child.right;
      StoreLink(LeftOf(orig), inner);
      StoreLink(RightOf(child), orig);
      UpdateHeight(orig);
      UpdateHeight(child);
    }

    method RotateRightChild(k: Link)
      requires Synced() && Held(st, k) && Closed(st) && Get(st, k) != null
      requires var n: Node := Get(st, k); n in objs && st.mem[n].right != null
      modifies this`root, this`st, objs
      ensures Synced() && st == RotatedRightChild(old(st), k) && Closed(st)
    {
      var orig: Node := Load(k);
      var child: Node := orig.right;
      StoreLink(k, child);
      var inner := child.left;
      StoreLink(RightOf(orig), inner);
      StoreLink(LeftOf(child), orig);
      UpdateHeight(orig);
      UpdateHeight(child);
    }

    /** Height of the object behind a pointer. */
    method Height(p: Node?) returns (h: int)
      requires Synced() && (p != null ==> p in objs)
      ensures h == HeightAt(st, p)
    {
      h := if p == null then -1 else p.height;
    }

    /** Restores the balance of the node behind the link and refreshes its height. */
    method Balance(k: Link, ghost t: Tree)
      requires Synced() && Closed(st) && (if t.T? then Ready(st, k, t) else Held(st, k) && Get(st, k) == null)
      modifies this`root, this`st, objs
      ensures Synced() && Closed(st) && Became(old(st), st, k, t, Rebalance(t))
    {
      var p := Load(k);
      if p == null {
        return;
      }
      ghost var s, u := st, Bal(t.l, t.n, t.r);
      BalNodes(t.l, t.n, t.r);
      BalNotHigher(t.l, t.n, t.r);
      Rotate(k, p, t);
      var q := Load(k);
      Refreshed(st, k, u);
      ghost var s1 := st;
      UpdateHeight(q);
      RefreshedFrom(s, s1, st, k, t, u);
    }

    /** The rotations of `Balance`, if any. */
    method Rotate(k: Link, p: Node, ghost t: Tree)
      requires Synced() && Closed(st) && Ready(st, k, t) && p == t.n
      modifies this`root, this`st, objs
      ensures Synced() && Closed(st) && Held(st, k) && Near(st, Get(st, k), Bal(t.l, t.n, t.r))
      ensures st == old(st) || Became(old(st), st, k, t, Bal(t.l, t.n, t.r))
    {
      RepHeight(st, st.mem[p].left, t.l);
      RepHeight(st, st.mem[p].right, t.r);
      var hl := Height(p.left);
      var hr := Height(p.right);
      if hl - hr > 1 {
        LeftHeavy(k, p, t.l, t.r);
      } else if hl - hr < -1 {
        RightHeavy(k, p, t.l, t.r);
      }
    }

    method LeftHeavy(k: Link, p: Node, ghost l: Tree, ghost r: Tree)
      requires Synced() && Closed(st) && Ready(st, k, T(l, p, r)) && H(l) - H(r) > 1
      modifies this`root, this`st, objs
      ensures Synced() && Closed(st) && Became(old(st), st, k, T(l, p, r), Bal(l, p, r))
    {
      ghost var s := st;
      OpenTree(s, s.mem[p].left, l);
      RepHeight(s, s.mem[l.n].left, l.l);
      RepHeight(s, s.mem[l.n].right, l.r);
      var child: Node := p.left;
      var outer := Height(child.left);
      var inner := Height(child.right);
      if outer >= inner {
        LeftLeft(s, k, l, p, r);
        RotateLeftChild(k);
      } else {
        LeftRightFirst(s, k, l, p, r);
        RotateRightChild(LeftOf(p));
        LeftRightSecond(s, st, k, l, p, r);
        RotateLeftChild(k);
      }
    }

    method RightHeavy(k: Link, p: Node, ghost l: Tree, ghost r: Tree)
      requires Synced() && Closed(st) && Ready(st, k, T(l, p, r)) && H(l) - H(r) < -1
      modifies this`root, this`st, objs
      ensures Synced() && Closed(st) && Became(old(st), st, k, T(l, p, r), Bal(l, p, r))
    {
      ghost var s := st;
      OpenTree(s, s.mem[p].right, r);
      RepHeight(s, s.mem[r.n].left, r.l);
      RepHeight(s, s.mem[r.n].right, r.r);
      var child: Node := p.right;
      var outer := Height(child.right);
      var inner := Height(child.left);
      if outer >= inner {
        RightRight(s, k, l, p, r);
        RotateRightChild(k);
      } else {
        RightLeftFirst(s, k, l, p, r);
        RotateLeftChild(RightOf(p));
        RightLeftSecond(s, st, k, l, p, r);
        RotateRightChild(k);
      }
    }

    /**
     Pops the stack of links, balancing at each one: `t` hangs, freshly changed, in the context `c`
     below the link `base`.
     */
    method RebalanceUp(stack: seq<Link>, ghost base: Link, ghost c0: Context, ghost t0: Tree, ghost b: int)
      requires Synced() && Closed(st) && stack == Links(c0, base) && Pending(st, c0, base, t0)
      requires Low(c0, b) && b + |stack| < HEIGHTS - 8 && H(t0) + |stack| < HEIGHTS - 8
      modifies this`root, this`st, objs
      ensures Synced() && Closed(st) && Held(st, base) && Rep(st, Get(st, base), Rebalanced(c0, Rebalance(t0)))
      ensures Held(old(st), base) && OnlyLink(old(st), st, base, ContextNodes(c0) + Nodes(t0))
    {
      ghost var c, t, s0 := c0, t0, st;
      ghost var goal, all := Rebalanced(c0, Rebalance(t0)), ContextNodes(c0) + Nodes(t0);
      LinksLast(c0, base);
      ClimbStart(st, c0, base, t0, b);
      var rest := stack;
      while rest != []
        invariant Synced() && Closed(st) && (rest != [] ==> rest == Links(c, base))
        invariant if rest != [] then Climbing(s0, st, c, base, t, goal, all, b)
                  else Held(st, base) && Rep(st, Get(st, base), goal) && Held(s0, base) && OnlyLink(s0, st, base, all)
        decreases |rest|
      {
        LinksLast(c, base);
        PendingReady(st, c, base, t);
        ghost var s := st;
        Balance(rest[|rest| - 1], t);
        ClimbStep(s0, s, st, c, base, t, goal, all, b);
        rest := rest[..|rest| - 1];
        if rest != [] {
          c, t := c.up, Around(c, Rebalance(t));
        }
      }
    }

    // ------------------------------------------------------- operations

    ghost var tree: Tree

    /** Memory holds exactly the tree: ordered keys, correct heights, balanced within one. */
    ghost predicate Valid()
      reads this, objs
    {
      Synced() && Rep(st, st.root, tree) && Ordered(tree, objs)
    }

    constructor ()
      ensures Valid() && tree == Nil && objs == {}
    {
      root, objs, st, tree := null, {}, Store(null, map[]), Nil;
    }

    method Find(value: int) returns (r: Node?)
      requires Valid() && Comparable(Nodes(tree), value)
      ensures r != null ==> r in Nodes(tree) && r.key == value
      ensures r == null ==> forall x | x in Nodes(tree) :: x.key != value
    {
      r := root;
      ghost var c, t := Top, tree;
      while r != null
        invariant RepContext(st, c, Root) && Rep(st, r, t) && Get(st, LinkOf(c, Root)) == r && Plug(c, t) == tree && Bounds(c, value)
        decreases t
      {
        PlugNodes(c, t);
        var d := KeyDiff(r.key, value);
        KeyDiffSign(r.key, value);
        if d == 0 {
          return;
        }
        Enter(st, c, Root, t, value);
        if d < 0 {
          c, r, t := InRight(t.l, t.n, c), r.right, t.r;
        } else {
          c, r, t := InLeft(t.n, t.r, c), r.left, t.l;
        }
      }
      NotFound(c, t, value);
    }

    /** The stack of links down to the place of `value`. */
    method BuildPath(value: int) returns (stack: seq<Link>, ghost c: Context, ghost t: Tree)
      requires Valid() && Comparable(Nodes(tree), value)
      ensures stack == Links(c, Root) && |stack| <= H(tree) + 2 && Plug(c, t) == tree
      ensures RepContext(st, c, Root) && Rep(st, Get(st, LinkOf(c, Root)), t) && Bounds(c, value)
      ensures t.T? ==> t.n.key == value
    {
      stack := [Root];
      c, t := Top, tree;
      DepthBound(c, t, Root);
      var p := root;
      while p != null
        invariant RepContext(st, c, Root) && Rep(st, p, t) && Get(st, LinkOf(c, Root)) == p && Plug(c, t) == tree && Bounds(c, value)
        invariant stack == Links(c, Root)
        decreases t
      {
        PlugNodes(c, t);
        var d := KeyDiff(p.key, value);
        KeyDiffSign(p.key, value);
        if d == 0 {
          break;
        }
        Enter(st, c, Root, t, value);
        if d < 0 {
          stack := stack + [RightOf(p)];
          c, p, t := InRight(t.l, t.n, c), p.right, t.r;
        } else {
          stack := stack + [LeftOf(p)];
          c, p, t := InLeft(t.n, t.r, c), p.left, t.l;
        }
      }
      DepthBound(c, t, Root);
    }

    /** Links in an object with a new key; keeps order and balance, changes nothing else. */
    method Insert(obj: Node) returns (ok: bool)
      requires Valid() && Comparable(Nodes(tree), obj.key) && H(tree) + 2 <= MAX_TREE_HEIGHT
      requires obj in objs || (obj.left == null && obj.right == null && obj.height == 0)
      modifies this, objs, obj
      ensures Valid() && (ok <==> forall x | x in old(Nodes(tree)) :: x.key != obj.key)
      ensures if ok then Nodes(tree) == old(Nodes(tree)) + {obj} else tree == old(tree)
    {
      if root == null {
        root, objs, tree := obj, {obj}, T(Nil, obj, Nil);
        st := Store(obj, map[obj := Fields(null, null, 0)]);
        return true;
      }
      ghost var c, t;
      var stack;
      stack, c, t := BuildPath(obj.key);
      LinksLast(c, Root);
      var dest := stack[|stack| - 1];
      var p := Load(dest);
      PlugNodes(c, t);
      if p != null {
        return false;
      }
      NotFound(c, t, obj.key);
      Place(stack, obj, c);
      ok := true;
    }

    /** Links the object into the empty place a search ended at and rebalances. */
    method Place(stack: seq<Link>, obj: Node, ghost c: Context)
      requires Valid() && Plug(c, Nil) == tree && stack == Links(c, Root) && |stack| <= MAX_TREE_HEIGHT && H(tree) < MAX_TREE_HEIGHT
      requires RepContext(st, c, Root) && Bounds(c, obj.key)
      requires obj !in objs && obj.left == null && obj.right == null && obj.height == 0
      modifies this, objs, obj
      ensures Valid() && Nodes(tree) == old(Nodes(tree)) + {obj}
    {
      ghost var t, h := T(Nil, obj, Nil), H(tree);
      ghost var goal := Rebalanced(c, t);
      assert Ordered(goal, objs + {obj}) by {
        HoleOrder(c);
        InsertDone(c, obj);
      }
      assert Low(c, h) by { DepthBound(c, Nil, Root); }
      LinkIn(stack, obj, c);
      Finish(stack, c, t, h, objs);
    }

    /** Rebalances up to the root; the tree is then complete with the objects `xs`. */
    method Finish(stack: seq<Link>, ghost c: Context, ghost t: Tree, ghost h: int, ghost xs: set<Node>)
      requires Synced() && Closed(st) && Pending(st, c, Root, t) && Low(c, h)
      requires stack == Links(c, Root) && |stack| <= MAX_TREE_HEIGHT && h < MAX_TREE_HEIGHT && H(t) < MAX_TREE_HEIGHT
      requires Ordered(Rebalanced(c, Rebalance(t)), xs) && xs <= objs
      modifies this, objs
      ensures Valid() && objs == xs && tree == Rebalanced(c, Rebalance(t))
    {
      RebalanceUp(stack, Root, c, t, h);
      ghost var s := st;
      tree := Rebalanced(c, Rebalance(t));
      objs, st := xs, Only(st, xs);
      RepOnly(s, s.root, tree, xs);
    }

    method LinkIn(stack: seq<Link>, obj: Node, ghost c: Context)
      requires Valid() && Plug(c, Nil) == tree && stack == Links(c, Root)
      requires RepContext(st, c, Root) && Bounds(c, obj.key)
      requires obj !in objs && obj.left == null && obj.right == null && obj.height == 0
      modifies this`root, this`st, this`objs, objs, obj
      ensures Synced() && Closed(st) && Pending(st, c, Root, T(Nil, obj, Nil)) && objs == old(objs) + {obj}
    {
      ghost var s1 := WithObject(st, obj);
      assert Held(s1, LinkOf(c, Root)) && Pending(Put(s1, LinkOf(c, Root), obj), c, Root, T(Nil, obj, Nil)) by {
        HoleOrder(c);
        InsertReady(st, c, obj);
      }
      assert Closed(s1) by {
        RepClosed(st, tree);
        ClosedWith(st, obj);
      }
      LinksLast(c, Root);
      objs, st := objs + {obj}, WithObject(st, obj);
      StoreLink(stack[|stack| - 1], obj);
    }

    /** Unlinks the object with this key, if any; keeps order and balance. */
    method Remove(value: int) returns (d: Node?)
      requires Valid() && Comparable(Nodes(tree), value) && H(tree) + 2 <= MAX_TREE_HEIGHT
      modifies this, objs
      ensures Valid()
      ensures d == null ==> tree == old(tree) && forall x | x in Nodes(tree) :: x.key != value
      ensures d != null ==> d in old(Nodes(tree)) && d.key == value && Nodes(tree) == old(Nodes(tree)) - {d}
    {
      ghost var c, t;
      var stack;
      stack, c, t := BuildPath(value);
      LinksLast(c, Root);
      d := Load(stack[|stack| - 1]);
      PlugNodes(c, t);
      if d == null {
        NotFound(c, t, value);
        return;
      }
      if d.left != null && d.right != null {
        RemoveInner(stack, d, c, t);
      } else {
        Splice(stack, d, c, t);
      }
    }

    /** A search has led to the object d, the root of t. */
    ghost predicate Found(stack: seq<Link>, d: Node, c: Context, t: Tree)
      reads this, objs
    {
      && Valid() && Plug(c, t) == tree && stack == Links(c, Root) && t.T? && t.n == d
      && |stack| <= MAX_TREE_HEIGHT && H(tree) + 2 <= MAX_TREE_HEIGHT
      && RepContext(st, c, Root) && Rep(st, Get(st, LinkOf(c, Root)), t)
    }

    /** The object has at most one child, which takes its place. */
    method Splice(stack: seq<Link>, d: Node, ghost c: Context, ghost t: Tree)
      requires Found(stack, d, c, t) && (d.left == null || d.right == null)
      modifies this, objs
      ensures Valid() && Nodes(tree) == old(Nodes(tree)) - {d}
    {
      ghost var u, h, xs := if t.l.T? then t.l else t.r, H(tree), objs - {d};
      Children(st, d, t);
      assert Ordered(Rebalanced(c, Rebalance(u)), xs) by {
        SpliceDone(c, t, u);
        PlugAvl(c, t);
        RebalanceAvl(u);
      }
      assert Low(c, h) && H(u) <= h by { DepthBound(c, t, Root); LowAbove(c, t); }
      LinksLast(c, Root);
      RepClosed(st, tree);
      SpliceReady(st, c, t, u, if d.left != null then d.left else d.right);
      StoreLink(stack[|stack| - 1], if d.left != null then d.left else d.right);
      Finish(stack, c, u, h, xs);
    }

    /** The links from the right link of d to its successor, the leftmost object there. */
    method SuccessorPath(d: Node, ghost r: Tree) returns (path: seq<Link>, x: Node, ghost c: Context, ghost u: Tree)
      requires Synced() && Closed(st) && d in objs && Rep(st, d.right, r) && r.T?
      ensures path == Links(c, RightOf(d)) && Plug(c, u) == r && RepContext(st, c, RightOf(d))
      ensures u.T? && u.l.Nil? && u.n == x && Before(c) == [] && Rep(st, Get(st, LinkOf(c, RightOf(d))), u)
    {
      path := [RightOf(d)];
      c, u, x := Top, r, d.right;
      while x.left != null
        invariant u.T? && u.n == x && x in objs && Rep(st, x, u) && Plug(c, u) == r && Before(c) == []
        invariant path == Links(c, RightOf(d)) && RepContext(st, c, RightOf(d)) && Get(st, LinkOf(c, RightOf(d))) == x
        decreases u
      {
        path := path + [LeftOf(x)];
        c, u, x := InLeft(u.n, u.r, c), u.l, x.left;
      }
    }

    /** The object has two children: its successor takes its place. */
    method RemoveInner(stack: seq<Link>, d: Node, ghost c: Context, ghost t: Tree)
      requires Found(stack, d, c, t) && d.left != null && d.right != null
      modifies this, objs
      ensures Valid() && Nodes(tree) == old(Nodes(tree)) - {d}
    {
      ghost var h, xs := H(tree), objs - {d};
      RepClosed(st, tree);
      Children(st, d, t);
      ghost var c2, u;
      var path, x;
      path, x, c2, u := SuccessorPath(d, t.r);
      ghost var v := T(t.l, x, Rebalanced(c2, u.r));
      assert Ordered(Rebalanced(c, Rebalance(v)), xs) by { InnerDone(c, t, c2, u); }
      InnerBounds(c, t, c2, u);
      LinksLast(c, Root);
      MoveSuccessor(stack[|stack| - 1], path, d, x, c, t, c2, u, h);
      Finish(stack, c, v, h, xs);
    }

    method MoveSuccessor(place: Link, path: seq<Link>, d: Node, x: Node,
                         ghost c: Context, ghost t: Tree, ghost c2: Context, ghost u: Tree, ghost h: int)
      requires Synced() && Closed(st) && Movable(st, c, t, c2, u) && t.n == d && u.n == x
      requires place == LinkOf(c, Root) && path == Links(c2, RightOf(d))
      requires Low(c2, h) && H(u.r) <= h && |path| <= h + 1 && h <= MAX_TREE_HEIGHT
      modifies this`root, this`st, objs
      ensures Synced() && Closed(st) && Pending(st, c, Root, T(t.l, x, Rebalanced(c2, u.r)))
    {
      ghost var s := st;
      Detach(place, path, d, x, c, t, c2, u, h);
      SuccessorMoved(s, st, c, t, c2, u);
      TakeOver(d, x);
    }

    method Detach(place: Link, path: seq<Link>, d: Node, x: Node,
                  ghost c: Context, ghost t: Tree, ghost c2: Context, ghost u: Tree, ghost h: int)
      requires Synced() && Closed(st) && Movable(st, c, t, c2, u) && t.n == d && u.n == x
      requires place == LinkOf(c, Root) && path == Links(c2, RightOf(d))
      requires Low(c2, h) && H(u.r) <= h && |path| <= h + 1 && h <= MAX_TREE_HEIGHT
      modifies this`root, this`st, objs
      ensures Synced() && Closed(st) && Detached(old(st), st, c, t, c2, u)
    {
      assert Pending(Unlinked(st, c, c2, d, x), c2, RightOf(d), u.r) by { SuccessorReady(st, c, t, c2, u); }
      RebalanceAvl(u.r);
      LinksLast(c2, RightOf(d));
      Unlink(place, path[|path| - 1], d, x, c, c2);
      RebalanceUp(path, RightOf(d), c2, u.r, h);
    }

    method Unlink(place: Link, ref: Link, d: Node, x: Node, ghost c: Context, ghost c2: Context)
      requires Synced() && Closed(st) && place == LinkOf(c, Root) && ref == LinkOf(c2, RightOf(d))
      requires Held(st, place) && Held(st, ref) && x in objs
      modifies this`root, this`st, objs
      ensures Synced() && Closed(st) && st == Unlinked(old(st), c, c2, d, x)
    {
      var right := x.right;
      StoreLink(place, x);
      StoreLink(ref, right);
    }

    method TakeOver(d: Node, x: Node)
      requires Synced() && Closed(st) && d in objs && x in objs && d != x
      modifies this`root, this`st, objs
      ensures Synced() && Closed(st) && st == TakenOver(old(st), d, x)
    {
      StoreLink(LeftOf(x), d.left);
      StoreLink(RightOf(x), d.right);
    }
  }

  lemma NotFound(c: Context, t: Tree, v: int)
    requires t.Nil? && Bounds(c, v)
    ensures forall x | x in Nodes(Plug(c, t)) :: x.key != v
  {
    PlugOrder(c, t);
    forall x | x in Nodes(Plug(c, t)) ensures x.key != v {
      NodesInOrder(Plug(c, t), x);
    }
  }

  lemma HoleOrder(c: Context)
    ensures InOrder(Plug(c, Nil)) == Before(c) + After(c) && Nodes(Plug(c, Nil)) == ContextNodes(c)
  {
    PlugOrder(c, Nil);
    assert Before(c) + InOrder(Nil) + After(c) == Before(c) + After(c);
    PlugNodes(c, Nil);
  }

  /** Wrapped differences reverse the order of far-apart keys. */
  lemma KeyDiffWraps()
    ensures IsLong(LONG - 1) && IsLong(-1) && LONG - 1 > -1 && KeyDiff(LONG - 1, -1) < 0
  {
  }

  /** The path stack is long enough for every tree of fewer than 5702886 objects. */
  lemma StackFits(t: Tree)
    requires Ordered(t, Nodes(t)) && |Nodes(t)| < MAX_OBJECTS
    ensures H(t) + 2 <= MAX_TREE_HEIGHT
  {
    SortedSeparate(t);
    HeightBound(t);
    if H(t) > 30 {
      MinNodesMonotone(31, H(t));
      SmallestTooHigh();
    }
  }

  lemma SmallestTooHigh()
    ensures MinNodes(31) == 5702886
  {
    assert MinNodes(1) == 2 && MinNodes(2) == 4 && MinNodes(3) == 7 && MinNodes(4) == 12 && MinNodes(5) == 20;
    assert MinNodes(6) == 33 && MinNodes(7) == 54 && MinNodes(8) == 88 && MinNodes(9) == 143 && MinNodes(10) == 232;
    assert MinNodes(11) == 376 && MinNodes(12) == 609 && MinNodes(13) == 986 && MinNodes(14) == 1596 && MinNodes(15) == 2583;
    assert MinNodes(16) == 4180 && MinNodes(17) == 6764 && MinNodes(18) == 10945 && MinNodes(19) == 17710 && MinNodes(20) == 28656;
    assert MinNodes(21) == 46367 && MinNodes(22) == 75024 && MinNodes(23) == 121392 && MinNodes(24) == 196417 && MinNodes(25) == 317810;
    assert MinNodes(26) == 514228 && MinNodes(27) == 832039 && MinNodes(28) == 1346268 && MinNodes(29) == 2178308 && MinNodes(30) == 3524577;
  }

  // ----------------------------------------------------------------- runs

  datatype Op = Ins(key: int) | Del(key: int) | Look(key: int)

  /** No tree of this many objects is too high for the path stack. */
  const MAX_OBJECTS: nat := 5702886

  ghost function Keys(t: Tree): set<int> { KeysOf(Nodes(t)) }

  ghost function KeysOf(s: set<Node>): set<int> { set x | x in s :: x.key }

  /** A plain set of keys as the reference. */
  ghost function NextKeys(ks: set<int>, op: Op): set<int> {
    match op
    case Ins(k) => ks + {k}
    case Del(k) => ks - {k}
    case Look(_) => ks
  }

  /** Insertion succeeds iff the key is new, removal and lookup iff it is there. */
  ghost function Reply(ks: set<int>, op: Op): bool { if op.Ins? then op.key !in ks else op.key in ks }

  ghost function Replies(ks: set<int>, ops: seq<Op>): seq<bool>
    decreases |ops|
  {
    if ops == [] then [] else [Reply(ks, ops[0])] + Replies(NextKeys(ks, ops[0]), ops[1..])
  }

  ghost function FinalKeys(ks: set<int>, ops: seq<Op>): set<int>
    decreases |ops|
  {
    if ops == [] then ks else FinalKeys(NextKeys(ks, ops[0]), ops[1..])
  }

  /** The key can be compared with all those there, and a tree to change is not too high for the path stack. */
  ghost predicate Admissible(ks: set<int>, op: Op) {
    && (op.Look? || |ks| < MAX_OBJECTS) && IsLong(op.key)
    && forall k | k in ks :: IsLong(k) && IsLong(k - op.key)
  }

  ghost predicate AllAdmissible(ks: set<int>, ops: seq<Op>)
    decreases |ops|
  {
    ops != [] ==> Admissible(ks, ops[0]) && AllAdmissible(NextKeys(ks, ops[0]), ops[1..])
  }

  lemma {:induction false} KeyCount(s: set<Node>)
    requires forall x, y | x in s && y in s :: x.key == y.key ==> x == y
    ensures |KeysOf(s)| == |s|
    decreases |s|
  {
    if s != {} {
      var x :| x in s;
      KeyCount(s - {x});
      assert KeysOf(s) == KeysOf(s - {x}) + {x.key};
    }
  }

  lemma SameKeySame(t: Tree, x: Node, y: Node)
    requires Sorted(InOrder(t)) && x in Nodes(t) && y in Nodes(t) && x.key == y.key
    ensures x == y
  {
    NodesInOrder(t, x);
    NodesInOrder(t, y);
  }

  /** There are as many objects as keys. */
  lemma NodesAreKeys(t: Tree)
    requires Sorted(InOrder(t))
    ensures |Nodes(t)| == |Keys(t)|
  {
    forall x, y | x in Nodes(t) && y in Nodes(t) && x.key == y.key ensures x == y { SameKeySame(t, x, y); }
    KeyCount(Nodes(t));
  }

  lemma AdmissibleFits(t: Tree, op: Op)
    requires Ordered(t, Nodes(t)) && Admissible(Keys(t), op)
    ensures Comparable(Nodes(t), op.key) && (op.Look? || H(t) + 2 <= MAX_TREE_HEIGHT)
  {
    if !op.Look? {
      NodesAreKeys(t);
      StackFits(t);
    }
    forall x | x in Nodes(t) ensures IsLong(x.key) && IsLong(x.key - op.key) { assert x.key in Keys(t); }
  }

  lemma AddedKeys(t: Tree, u: Tree, x: Node)
    requires Nodes(u) == Nodes(t) + {x} && x !in Nodes(t)
    ensures Keys(u) == Keys(t) + {x.key}
  {
  }

  lemma RemovedKeys(t: Tree, u: Tree, d: Node)
    requires Sorted(InOrder(t)) && d in Nodes(t) && Nodes(u) == Nodes(t) - {d}
    ensures Keys(u) == Keys(t) - {d.key}
  {
    forall x | x in Nodes(t) && x.key == d.key ensures x == d { SameKeySame(t, x, d); }
  }

  /** A new, initialised object is inserted. */
  method ApplyInsert(b: Bintree, k: int) returns (r: bool)
    requires b.Valid() && Admissible(Keys(b.tree), Ins(k))
    modifies b, b.objs
    ensures b.Valid() && fresh(b.objs - old(b.objs))
    ensures Keys(b.tree) == old(Keys(b.tree)) + {k} && r == (k !in old(Keys(b.tree)))
  {
    AdmissibleFits(b.tree, Ins(k));
    ghost var t := b.tree;
    var x := new Node(k);
    r := b.Insert(x);
    if r { AddedKeys(t, b.tree, x); }
  }

  method ApplyRemove(b: Bintree, k: int) returns (r: bool)
    requires b.Valid() && Admissible(Keys(b.tree), Del(k))
    modifies b, b.objs
    ensures b.Valid() && fresh(b.objs - old(b.objs))
    ensures Keys(b.tree) == old(Keys(b.tree)) - {k} && r == (k in old(Keys(b.tree)))
  {
    AdmissibleFits(b.tree, Del(k));
    ghost var t := b.tree;
    var d := b.Remove(k);
    r := d != null;
    if d != null { RemovedKeys(t, b.tree, d); }
  }

  method Apply(b: Bintree, op: Op) returns (r: bool)
    requires b.Valid() && Admissible(Keys(b.tree), op)
    modifies b, b.objs
    ensures b.Valid() && fresh(b.objs - old(b.objs))
    ensures Keys(b.tree) == NextKeys(old(Keys(b.tree)), op) && r == Reply(old(Keys(b.tree)), op)
  {
    match op
    case Ins(k) => r := ApplyInsert(b, k);
    case Del(k) => r := ApplyRemove(b, k);
    case Look(k) =>
      AdmissibleFits(b.tree, op);
      var d := b.Find(k);
      r := d != null;
  }

  /** Any sequence of admissible insertions, removals and lookups, however long, answers like a set of keys. */
  method Replay(b: Bintree, ops: seq<Op>) returns (replies: seq<bool>)
    requires b.Valid() && AllAdmissible(Keys(b.tree), ops)
    modifies b, b.objs
    ensures b.Valid() && fresh(b.objs - old(b.objs))
    ensures replies == Replies(old(Keys(b.tree)), ops) && Keys(b.tree) == FinalKeys(old(Keys(b.tree)), ops)
    decreases |ops|
  {
    if ops == [] {
      return [];
    }
    var first := Apply(b, ops[0]);
    var others := Replay(b, ops[1..]);
    replies := [first] + others;
  }
}
