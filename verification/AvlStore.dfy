/**
 The memory behind an AVL tree as a value: the root pointer and the link fields of every object.
 What the pointer manipulations do to the tree that is stored there.
 */
module AvlStore {
  import opened AvlTree

  datatype Fields = Fields(left: Node?, right: Node?, height: int)

  datatype Store = Store(root: Node?, mem: map<Node, Fields>)

  /** A pointer to a link: the root pointer or a field of some object. */
  datatype Link = Root | LeftOf(n: Node) | RightOf(n: Node)

  /** Heights are stored in 16 bits. */
  const HEIGHTS: int := 0x1_0000

  ghost predicate Small(t: Tree) { H(t) < HEIGHTS - 6 }

  /** The object that holds the link is in memory. */
  ghost predicate Held(s: Store, k: Link) { k.Root? || k.n in s.mem }

  ghost function Get(s: Store, k: Link): Node?
    requires Held(s, k)
  {
    match k
    case Root => s.root
    case LeftOf(n) => s.mem[n].left
    case RightOf(n) => s.mem[n].right
  }

  ghost function Put(s: Store, k: Link, v: Node?): Store
    requires Held(s, k)
  {
    match k
    case Root => s.(root := v)
    case LeftOf(n) => s.(mem := s.mem[n := s.mem[n].(left := v)])
    case RightOf(n) => s.(mem := s.mem[n := s.mem[n].(right := v)])
  }

  ghost function HeightAt(s: Store, p: Node?): int {
    if p == null || p !in s.mem then -1 else s.mem[p].height
  }

  /** `(u16)MAX(HEIGHT(left), HEIGHT(right)) + 1`, stored in 16 bits. */
  function StoredHeight(l: int, r: int): int { (Max(l, r) % HEIGHTS + 1) % HEIGHTS }

  /** No wrap-around below the limit; -1 plus one is 0. */
  lemma StoredHeightExact(l: int, r: int)
    requires -1 <= l < HEIGHTS - 1 && -1 <= r < HEIGHTS - 1
    ensures StoredHeight(l, r) == Max(l, r) + 1
  {
  }

  ghost function WithHeight(s: Store, n: Node): Store
    requires n in s.mem
  {
    var f := s.mem[n];
    s.(mem := s.mem[n := f.(height := StoredHeight(HeightAt(s, f.left), HeightAt(s, f.right)))])
  }

  /** `p` is the root of `t` in memory, heights included. */
  ghost predicate Rep(s: Store, p: Node?, t: Tree)
    decreases t
  {
    match t
    case Nil => p == null
    case T(l, n, r) => p == n && n in s.mem && s.mem[n].height == H(t) && Rep(s, s.mem[n].left, l) && Rep(s, s.mem[n].right, r)
  }

  /** The same, except that the root's height need not be up to date. */
  ghost predicate Near(s: Store, p: Node?, t: Tree) {
    match t
    case Nil => p == null
    case T(l, n, r) => p == n && n in s.mem && Rep(s, s.mem[n].left, l) && Rep(s, s.mem[n].right, r)
  }

  ghost predicate SameOn(s: Store, s': Store, xs: set<Node>) {
    forall x | x in xs && x in s.mem :: x in s'.mem && s'.mem[x] == s.mem[x]
  }

  lemma {:induction false} RepFrame(s: Store, s': Store, p: Node?, t: Tree)
    requires Rep(s, p, t) && SameOn(s, s', Nodes(t))
    ensures Rep(s', p, t)
    decreases t
  {
    if t.T? {
      RepFrame(s, s', s.mem[t.n].left, t.l);
      RepFrame(s, s', s.mem[t.n].right, t.r);
    }
  }

  lemma RepHeight(s: Store, p: Node?, t: Tree)
    requires Rep(s, p, t)
    ensures HeightAt(s, p) == H(t)
  {
  }

  /** Refreshing the height of a node with correct subtrees. */
  lemma HeightRefreshed(s: Store, n: Node, l: Tree, r: Tree)
    requires n in s.mem && Rep(s, s.mem[n].left, l) && Rep(s, s.mem[n].right, r)
    requires n !in Nodes(l) && n !in Nodes(r) && H(l) < HEIGHTS - 1 && H(r) < HEIGHTS - 1
    ensures Rep(WithHeight(s, n), n, T(l, n, r))
  {
    var s' := WithHeight(s, n);
    RepHeight(s, s.mem[n].left, l);
    RepHeight(s, s.mem[n].right, r);
    StoredHeightExact(H(l), H(r));
    RepFrame(s, s', s.mem[n].left, l);
    RepFrame(s, s', s.mem[n].right, r);
  }

  /** Outside `xs`, all that changed is that the link points elsewhere. */
  ghost predicate OnlyLink(s: Store, s': Store, k: Link, xs: set<Node>)
    requires Held(s, k) && Held(s', k)
  {
    var p := Put(s, k, Get(s', k));
    && s'.mem.Keys == s.mem.Keys && s'.root == p.root
    && forall x | x in s.mem && x !in xs :: s'.mem[x] == p.mem[x]
  }

  // ------------------------------------------------------------- rotations

  /** The pointer writes of a rotation: n gives its child m to the link, takes over m's inner subtree, becomes m's child. */
  ghost function Relinked(s: Store, k: Link, n: Node, m: Node, left: bool): Store
    requires Held(s, k) && n in s.mem && m in s.mem
  {
    var s1 := Put(s, k, m);
    if left then Put(Put(s1, LeftOf(n), s1.mem[m].right), RightOf(m), n)
    else Put(Put(s1, RightOf(n), s1.mem[m].left), LeftOf(m), n)
  }

  lemma RelinkedAt(s: Store, k: Link, n: Node, m: Node, left: bool)
    requires Held(s, k) && n in s.mem && m in s.mem && n != m && (k.Root? || (k.n != n && k.n != m))
    ensures var s' := Relinked(s, k, n, m, left);
            && Held(s', k) && Get(s', k) == m && OnlyLink(s, s', k, {n, m})
            && s'.mem[n] == (if left then s.mem[n].(left := s.mem[m].right) else s.mem[n].(right := s.mem[m].left))
            && s'.mem[m] == (if left then s.mem[m].(right := n) else s.mem[m].(left := n))
  {
  }

  /** Clockwise rotation of the left child of the node behind the link. */
  ghost function RotatedLeftChild(s: Store, k: Link): Store
    requires Held(s, k) && Get(s, k) != null && Get(s, k) in s.mem
    requires s.mem[Get(s, k)].left != null && s.mem[Get(s, k)].left in s.mem
  {
    var n: Node := Get(s, k);
    var m: Node := s.mem[n].left;
    WithHeight(WithHeight(Relinked(s, k, n, m, true), n), m)
  }

  /** Neither n, m nor the holder of the link occurs in the tree. */
  ghost predicate Clear(t: Tree, k: Link, n: Node, m: Node) {
    n !in Nodes(t) && m !in Nodes(t) && (k.Root? || k.n !in Nodes(t))
  }

  lemma RelinkedFrame(s: Store, k: Link, n: Node, m: Node, left: bool, p: Node?, t: Tree)
    requires Held(s, k) && n in s.mem && m in s.mem && Clear(t, k, n, m) && Rep(s, p, t)
    ensures Rep(Relinked(s, k, n, m, left), p, t)
  {
    RepFrame(s, Relinked(s, k, n, m, left), p, t);
  }

  lemma RotateLeftChild(s: Store, k: Link, ll: Tree, m: Node, lr: Tree, n: Node, r: Tree)
    requires Held(s, k) && Get(s, k) == n && n in s.mem && s.mem[n].left == m && m in s.mem
    requires Rep(s, s.mem[m].left, ll) && Rep(s, s.mem[m].right, lr) && Rep(s, s.mem[n].right, r)
    requires n != m && Clear(ll, k, n, m) && Clear(lr, k, n, m) && Clear(r, k, n, m) && (k.Root? || (k.n != n && k.n != m))
    requires Small(ll) && Small(lr) && Small(r)
    ensures var s' := RotatedLeftChild(s, k);
            && Held(s', k) && Rep(s', Get(s', k), T(ll, m, T(lr, n, r))) && OnlyLink(s, s', k, {n, m})
  {
    RelinkedAt(s, k, n, m, true);
    var s3 := Relinked(s, k, n, m, true);
    RelinkedFrame(s, k, n, m, true, s.mem[m].left, ll);
    RelinkedFrame(s, k, n, m, true, s.mem[m].right, lr);
    RelinkedFrame(s, k, n, m, true, s.mem[n].right, r);
    HeightRefreshed(s3, n, lr, r);
    RepFrame(s3, WithHeight(s3, n), s.mem[m].left, ll);
    HeightRefreshed(WithHeight(s3, n), m, ll, T(lr, n, r));
  }

  /** Counterclockwise rotation of the right child of the node behind the link. */
  ghost function RotatedRightChild(s: Store, k: Link): Store
    requires Held(s, k) && Get(s, k) != null && Get(s, k) in s.mem
    requires s.mem[Get(s, k)].right != null && s.mem[Get(s, k)].right in s.mem
  {
    var n: Node := Get(s, k);
    var m: Node := s.mem[n].right;
    WithHeight(WithHeight(Relinked(s, k, n, m, false), n), m)
  }

  lemma RotateRightChild(s: Store, k: Link, l: Tree, n: Node, rl: Tree, m: Node, rr: Tree)
    requires Held(s, k) && Get(s, k) == n && n in s.mem && s.mem[n].right == m && m in s.mem
    requires Rep(s, s.mem[m].left, rl) && Rep(s, s.mem[m].right, rr) && Rep(s, s.mem[n].left, l)
    requires n != m && Clear(l, k, n, m) && Clear(rl, k, n, m) && Clear(rr, k, n, m) && (k.Root? || (k.n != n && k.n != m))
    requires Small(l) && Small(rl) && Small(rr)
    ensures var s' := RotatedRightChild(s, k);
            && Held(s', k) && Rep(s', Get(s', k), T(T(l, n, rl), m, rr)) && OnlyLink(s, s', k, {n, m})
  {
    RelinkedAt(s, k, n, m, false);
    var s3 := Relinked(s, k, n, m, false);
    RelinkedFrame(s, k, n, m, false, s.mem[m].right, rr);
    RelinkedFrame(s, k, n, m, false, s.mem[m].left, rl);
    RelinkedFrame(s, k, n, m, false, s.mem[n].left, l);
    HeightRefreshed(s3, n, l, rl);
    RepFrame(s3, WithHeight(s3, n), s.mem[m].right, rr);
    HeightRefreshed(WithHeight(s3, n), m, T(l, n, rl), rr);
  }

  lemma OnlyLinkTrans(s: Store, s1: Store, s2: Store, k1: Link, k: Link, xs: set<Node>, ys: set<Node>, zs: set<Node>)
    requires Held(s, k1) && Held(s1, k1) && Held(s, k) && Held(s1, k) && Held(s2, k) && !k1.Root? && k1.n in zs
    requires OnlyLink(s, s1, k1, xs) && OnlyLink(s1, s2, k, ys) && xs <= zs && ys <= zs && (k.Root? || k.n !in zs)
    ensures OnlyLink(s, s2, k, zs)
  {
  }

  lemma OnlyLinkWiden(s: Store, s': Store, k: Link, xs: set<Node>, zs: set<Node>)
    requires Held(s, k) && Held(s', k) && OnlyLink(s, s', k, xs) && xs <= zs
    ensures OnlyLink(s, s', k, zs)
  {
  }

  // --------------------------------------------------------------- balance

  /** Every pointer leads to an object in memory. */
  ghost predicate Closed(s: Store) {
    && (s.root != null ==> s.root in s.mem)
    && forall x | x in s.mem ::
         (s.mem[x].left != null ==> s.mem[x].left in s.mem) && (s.mem[x].right != null ==> s.mem[x].right in s.mem)
  }

  /** The node behind the link has correct subtrees, apart from each other and from the link's holder. */
  ghost predicate Ready(s: Store, k: Link, t: Tree) {
    && Held(s, k) && t.T? && Near(s, Get(s, k), t) && Separate(t) && Small(t) && (k.Root? || k.n !in Nodes(t))
  }

  /** The tree behind the link is now u, and nothing else changed but objects of t. */
  ghost predicate Became(s: Store, s': Store, k: Link, t: Tree, u: Tree) {
    Held(s, k) && Held(s', k) && Rep(s', Get(s', k), u) && OnlyLink(s, s', k, Nodes(t))
  }

  ghost predicate CanRotateLeft(s: Store, k: Link) {
    && Held(s, k) && Get(s, k) != null && Get(s, k) in s.mem
    && s.mem[Get(s, k)].left != null && s.mem[Get(s, k)].left in s.mem
  }

  ghost predicate CanRotateRight(s: Store, k: Link) {
    && Held(s, k) && Get(s, k) != null && Get(s, k) in s.mem
    && s.mem[Get(s, k)].right != null && s.mem[Get(s, k)].right in s.mem
  }

  /** One level of the definitions, spelled out. */
  lemma OpenTree(s: Store, p: Node?, t: Tree)
    requires t.T? && Rep(s, p, t) && Separate(t)
    ensures p == t.n && t.n in s.mem && Rep(s, s.mem[t.n].left, t.l) && Rep(s, s.mem[t.n].right, t.r)
    ensures t.n !in Nodes(t.l) && t.n !in Nodes(t.r) && Nodes(t.l) !! Nodes(t.r) && Separate(t.l) && Separate(t.r)
    ensures Nodes(t) == Nodes(t.l) + {t.n} + Nodes(t.r) && H(t) == Max(H(t.l), H(t.r)) + 1
  {
  }

  lemma LeftLeft(s: Store, k: Link, l: Tree, n: Node, r: Tree)
    requires Ready(s, k, T(l, n, r)) && H(l) - H(r) > 1 && H(l.l) >= H(l.r)
    ensures CanRotateLeft(s, k) && Became(s, RotatedLeftChild(s, k), k, T(l, n, r), Bal(l, n, r))
  {
    OpenTree(s, s.mem[n].left, l);
    RotateLeftChild(s, k, l.l, l.n, l.r, n, r);
    OnlyLinkWiden(s, RotatedLeftChild(s, k), k, {n, l.n}, Nodes(T(l, n, r)));
  }

  lemma RightRight(s: Store, k: Link, l: Tree, n: Node, r: Tree)
    requires Ready(s, k, T(l, n, r)) && H(l) - H(r) < -1 && H(r.r) >= H(r.l)
    ensures CanRotateRight(s, k) && Became(s, RotatedRightChild(s, k), k, T(l, n, r), Bal(l, n, r))
  {
    OpenTree(s, s.mem[n].right, r);
    RotateRightChild(s, k, l, n, r.l, r.n, r.r);
    OnlyLinkWiden(s, RotatedRightChild(s, k), k, {n, r.n}, Nodes(T(l, n, r)));
  }

  /** Left-right case, first rotation: below the left link of n. */
  lemma LeftRightFirst(s: Store, k: Link, l: Tree, n: Node, r: Tree)
    requires Ready(s, k, T(l, n, r)) && H(l) - H(r) > 1 && H(l.l) < H(l.r)
    ensures CanRotateRight(s, LeftOf(n))
    ensures var s1 := RotatedRightChild(s, LeftOf(n));
            && Became(s, s1, LeftOf(n), l, T(T(l.l, l.n, l.r.l), l.r.n, l.r.r)) && n in s1.mem
            && Held(s1, k) && Get(s1, k) == n && s1.mem[n].right == s.mem[n].right && Rep(s1, s1.mem[n].right, r)
  {
    var x := l.r;
    OpenTree(s, s.mem[n].left, l);
    OpenTree(s, s.mem[l.n].right, x);
    RotateRightChild(s, LeftOf(n), l.l, l.n, x.l, x.n, x.r);
    var s1 := RotatedRightChild(s, LeftOf(n));
    OnlyLinkWiden(s, s1, LeftOf(n), {l.n, x.n}, Nodes(l));
    RepFrame(s, s1, s.mem[n].right, r);
  }

  lemma LeftRightSecond(s: Store, s1: Store, k: Link, l: Tree, n: Node, r: Tree)
    requires Ready(s, k, T(l, n, r)) && H(l) - H(r) > 1 && H(l.l) < H(l.r)
    requires Became(s, s1, LeftOf(n), l, T(T(l.l, l.n, l.r.l), l.r.n, l.r.r)) && n in s1.mem
    requires Held(s1, k) && Get(s1, k) == n && Rep(s1, s1.mem[n].right, r)
    ensures CanRotateLeft(s1, k) && Became(s, RotatedLeftChild(s1, k), k, T(l, n, r), Bal(l, n, r))
  {
    var x := l.r;
    OpenTree(s, s.mem[n].left, l);
    OpenTree(s, s.mem[l.n].right, x);
    RotateLeftChild(s1, k, T(l.l, l.n, x.l), x.n, x.r, n, r);
    OnlyLinkTrans(s, s1, RotatedLeftChild(s1, k), LeftOf(n), k, Nodes(l), {n, x.n}, Nodes(T(l, n, r)));
  }

  /** Right-left case, first rotation: below the right link of n. */
  lemma RightLeftFirst(s: Store, k: Link, l: Tree, n: Node, r: Tree)
    requires Ready(s, k, T(l, n, r)) && H(l) - H(r) < -1 && H(r.r) < H(r.l)
    ensures CanRotateLeft(s, RightOf(n))
    ensures var s1 := RotatedLeftChild(s, RightOf(n));
            && Became(s, s1, RightOf(n), r, T(r.l.l, r.l.n, T(r.l.r, r.n, r.r))) && n in s1.mem
            && Held(s1, k) && Get(s1, k) == n && Rep(s1, s1.mem[n].left, l)
  {
    var x := r.l;
    OpenTree(s, s.mem[n].right, r);
    OpenTree(s, s.mem[r.n].left, x);
    RotateLeftChild(s, RightOf(n), x.l, x.n, x.r, r.n, r.r);
    var s1 := RotatedLeftChild(s, RightOf(n));
    OnlyLinkWiden(s, s1, RightOf(n), {r.n, x.n}, Nodes(r));
    RepFrame(s, s1, s.mem[n].left, l);
  }

  lemma RightLeftSecond(s: Store, s1: Store, k: Link, l: Tree, n: Node, r: Tree)
    requires Ready(s, k, T(l, n, r)) && H(l) - H(r) < -1 && H(r.r) < H(r.l)
    requires Became(s, s1, RightOf(n), r, T(r.l.l, r.l.n, T(r.l.r, r.n, r.r))) && n in s1.mem
    requires Held(s1, k) && Get(s1, k) == n && Rep(s1, s1.mem[n].left, l)
    ensures CanRotateRight(s1, k) && Became(s, RotatedRightChild(s1, k), k, T(l, n, r), Bal(l, n, r))
  {
    var x := r.l;
    OpenTree(s, s.mem[n].right, r);
    OpenTree(s, s.mem[r.n].left, x);
    RotateRightChild(s1, k, l, n, x.l, x.n, T(x.r, r.n, r.r));
    OnlyLinkTrans(s, s1, RotatedRightChild(s1, k), RightOf(n), k, Nodes(r), {n, x.n}, Nodes(T(l, n, r)));
  }

  /** Refreshing a height that is already right, or only near, makes it right. */
  lemma Refreshed(s: Store, k: Link, t: Tree)
    requires Held(s, k) && t.T? && Near(s, Get(s, k), t) && t.n !in Nodes(t.l) && t.n !in Nodes(t.r) && Small(t)
    requires k.Root? || k.n !in Nodes(t)
    ensures var s' := WithHeight(s, t.n);
            Held(s', k) && Get(s', k) == t.n && Rep(s', t.n, t) && OnlyLink(s, s', k, {t.n})
  {
    HeightRefreshed(s, t.n, t.l, t.r);
  }

  /** The last step of `balance`. */
  lemma RefreshedFrom(s: Store, s1: Store, s2: Store, k: Link, t: Tree, u: Tree)
    requires Held(s, k) && (s1 == s || Became(s, s1, k, t, u))
    requires u.T? && u.n in s1.mem && s2 == WithHeight(s1, u.n) && u.n in Nodes(t) && (k.Root? || k.n !in Nodes(t))
    requires Held(s2, k) && Get(s2, k) == u.n && Rep(s2, u.n, u)
    requires Held(s1, k) && Get(s1, k) == u.n
    ensures Became(s, s2, k, t, u)
  {
  }

  lemma {:induction false} BalNodes(l: Tree, n: Node, r: Tree)
    requires Separate(T(l, n, r))
    ensures Nodes(Bal(l, n, r)) == Nodes(T(l, n, r)) && Bal(l, n, r).T?
    ensures var t := Bal(l, n, r); t.n !in Nodes(t.l) && t.n !in Nodes(t.r)
  {
    if H(l) - H(r) > 1 {
      assert Separate(l) && (l.r.T? ==> Separate(l.r));
      assert Nodes(l) == Nodes(l.l) + {l.n} + Nodes(l.r);
      if H(l.l) < H(l.r) { assert Nodes(l.r) == Nodes(l.r.l) + {l.r.n} + Nodes(l.r.r); }
    } else if H(l) - H(r) < -1 {
      assert Separate(r) && (r.l.T? ==> Separate(r.l));
      assert Nodes(r) == Nodes(r.l) + {r.n} + Nodes(r.r);
      if H(r.r) < H(r.l) { assert Nodes(r.l) == Nodes(r.l.l) + {r.l.n} + Nodes(r.l.r); }
    }
  }

  // -------------------------------------------------------------- contexts

  /** The link to the hole of a context that hangs below the link `base`. */
  ghost function LinkOf(c: Context, base: Link): Link {
    match c
    case Top => base
    case InLeft(n, _, _) => LeftOf(n)
    case InRight(_, n, _) => RightOf(n)
  }

  /** The stack of links from the base to the hole. */
  ghost function Links(c: Context, base: Link): seq<Link> {
    if c.Top? then [base] else Links(c.up, base) + [LinkOf(c, base)]
  }

  /** The field that points to the sibling of the hole. */
  ghost function SiblingLink(c: Context): Link
    requires !c.Top?
  {
    if c.InLeft? then RightOf(c.n) else LeftOf(c.n)
  }

  /** Everything around the hole is in memory; heights on the path need not be up to date. */
  ghost predicate RepContext(s: Store, c: Context, base: Link) {
    && Held(s, LinkOf(c, base))
    && (!c.Top? ==>
          && c.n in s.mem && Rep(s, Get(s, SiblingLink(c)), Sibling(c))
          && RepContext(s, c.up, base) && Get(s, LinkOf(c.up, base)) == c.n)
  }

  /** No object occurs twice on the path and its siblings, nor does the holder of the base link. */
  ghost predicate SeparateContext(c: Context, base: Link) {
    && (base.Root? || base.n !in ContextNodes(c))
    && (!c.Top? ==>
          && c.n !in Nodes(Sibling(c)) && c.n !in ContextNodes(c.up) && Nodes(Sibling(c)) !! ContextNodes(c.up)
          && SeparateContext(c.up, base))
  }

  lemma HolderInContext(c: Context, base: Link)
    ensures c.Top? || (!LinkOf(c, base).Root? && LinkOf(c, base).n in ContextNodes(c))
  {
  }

  lemma {:induction false} ContextSame(s: Store, s': Store, c: Context, base: Link)
    requires RepContext(s, c, base) && SameOn(s, s', ContextNodes(c)) && Held(s, base) && Held(s', base) && Get(s', base) == Get(s, base)
    ensures RepContext(s', c, base) && Get(s', LinkOf(c, base)) == Get(s, LinkOf(c, base))
    decreases c
  {
    if !c.Top? {
      RepFrame(s, s', Get(s, SiblingLink(c)), Sibling(c));
      ContextSame(s, s', c.up, base);
    }
  }

  /** Changes below the hole and of the hole's link leave the context in place. */
  lemma ContextFrame(s: Store, s': Store, c: Context, base: Link, xs: set<Node>)
    requires RepContext(s, c, base) && SeparateContext(c, base) && xs !! ContextNodes(c) && (base.Root? || base.n !in xs)
    requires Held(s', LinkOf(c, base)) && OnlyLink(s, s', LinkOf(c, base), xs)
    ensures RepContext(s', c, base)
  {
    if !c.Top? {
      BaseUntouched(s, s', c, base, xs);
      ContextSame(s, s', c.up, base);
      RepFrame(s, s', Get(s, SiblingLink(c)), Sibling(c));
    }
  }

  lemma {:induction false} BaseHeld(s: Store, c: Context, base: Link)
    requires RepContext(s, c, base)
    ensures Held(s, base)
    decreases c
  {
    if !c.Top? { BaseHeld(s, c.up, base); }
  }

  lemma BaseUntouched(s: Store, s': Store, c: Context, base: Link, xs: set<Node>)
    requires RepContext(s, c, base) && SeparateContext(c, base) && !c.Top? && (base.Root? || base.n !in xs)
    requires Held(s', LinkOf(c, base)) && OnlyLink(s, s', LinkOf(c, base), xs)
    ensures Held(s, base) && Held(s', base) && Get(s', base) == Get(s, base)
  {
    BaseHeld(s, c, base);
  }

  /** Key order keeps a subtree and its context apart. */
  lemma {:induction false} ContextSeparate(c: Context, t: Tree, base: Link)
    requires Sorted(Before(c) + InOrder(t) + After(c)) && (base.Root? || (base.n !in ContextNodes(c) && base.n !in Nodes(t)))
    ensures SeparateContext(c, base) && Nodes(t) !! ContextNodes(c) && Separate(t)
    decreases c
  {
    SortedParts(Before(c) + InOrder(t), After(c));
    SortedParts(Before(c), InOrder(t));
    SortedSeparate(t);
    if !c.Top? {
      var u := if c.InLeft? then T(t, c.n, c.r) else T(c.l, c.n, t);
      ContextOrder(c, InOrder(t));
      ContextSeparate(c.up, u, base);
    }
  }

  // ------------------------------------------------------- one level up

  /** A tree hangs in a context; only its root's height may be out of date. */
  ghost predicate Pending(s: Store, c: Context, base: Link, t: Tree) {
    && RepContext(s, c, base) && Near(s, Get(s, LinkOf(c, base)), t)
    && Sorted(Before(c) + InOrder(t) + After(c))
    && (base.Root? || (base.n !in ContextNodes(c) && base.n !in Nodes(t)))
  }

  lemma PendingReady(s: Store, c: Context, base: Link, t: Tree)
    requires Pending(s, c, base, t) && Small(t)
    ensures t.T? ==> Ready(s, LinkOf(c, base), t)
    ensures SeparateContext(c, base) && Nodes(t) !! ContextNodes(c)
  {
    ContextSeparate(c, t, base);
  }

  /** After balancing the hole, its parent is next. */
  lemma PendingUp(s: Store, s': Store, c: Context, base: Link, t: Tree)
    requires Pending(s, c, base, t) && SeparateContext(c, base) && Nodes(t) !! ContextNodes(c) && !c.Top?
    requires Became(s, s', LinkOf(c, base), t, Rebalance(t))
    ensures Pending(s', c.up, base, Around(c, Rebalance(t)))
  {
    ContextFrame(s, s', c, base, Nodes(t));
    RebalanceOrder(t);
    ContextOrder(c, InOrder(t));
    AroundNodes(c, t);
  }

  lemma RebalanceOrder(t: Tree)
    ensures InOrder(Rebalance(t)) == InOrder(t)
  {
    if t.T? { BalOrder(t.l, t.n, t.r); }
  }

  lemma AroundNodes(c: Context, t: Tree)
    requires !c.Top?
    ensures Nodes(Around(c, Rebalance(t))) <= ContextNodes(c) + Nodes(t)
  {
    RebalanceOrder(t);
    SameNodes(Rebalance(t), t);
  }

  lemma SameNodes(a: Tree, b: Tree)
    requires InOrder(a) == InOrder(b)
    ensures Nodes(a) == Nodes(b)
  {
    forall x | x in Nodes(a) ensures x in Nodes(b) {
      NodesInOrder(a, x);
      NodesInOrder(b, x);
    }
    forall x | x in Nodes(b) ensures x in Nodes(a) {
      NodesInOrder(a, x);
      NodesInOrder(b, x);
    }
  }

  /** All siblings on the path are at most b high. */
  ghost predicate Low(c: Context, b: int) {
    !c.Top? ==> H(Sibling(c)) <= b && Low(c.up, b)
  }

  lemma LinksLast(c: Context, base: Link)
    ensures |Links(c, base)| > 0 && Links(c, base)[|Links(c, base)| - 1] == LinkOf(c, base)
    ensures c.Top? <==> |Links(c, base)| == 1
    ensures !c.Top? ==> Links(c, base)[..|Links(c, base)| - 1] == Links(c.up, base)
  {
    if !c.Top? { LinksNonEmpty(c.up, base); }
  }

  lemma LinksNonEmpty(c: Context, base: Link)
    ensures |Links(c, base)| > 0
  {
  }

  /** The rebalancing loop has reached the tree t in context c; `goal` is where it will end. */
  ghost predicate Climbing(s0: Store, s: Store, c: Context, base: Link, t: Tree, goal: Tree, all: set<Node>, b: int) {
    && Pending(s, c, base, t) && Low(c, b)
    && b + |Links(c, base)| < HEIGHTS - 8 && H(t) + |Links(c, base)| < HEIGHTS - 8
    && Rebalanced(c, Rebalance(t)) == goal && ContextNodes(c) + Nodes(t) <= all
    && Held(s0, base) && Held(s, base) && OnlyLink(s0, s, base, all)
  }

  lemma ClimbStart(s: Store, c: Context, base: Link, t: Tree, b: int)
    requires Pending(s, c, base, t) && Low(c, b) && b + |Links(c, base)| < HEIGHTS - 8 && H(t) + |Links(c, base)| < HEIGHTS - 8
    ensures Climbing(s, s, c, base, t, Rebalanced(c, Rebalance(t)), ContextNodes(c) + Nodes(t), b)
  {
    BaseHeld(s, c, base);
  }

  /** One round of the rebalancing loop, and its end. */
  lemma ClimbStep(s0: Store, s: Store, s': Store, c: Context, base: Link, t: Tree, goal: Tree, all: set<Node>, b: int)
    requires Climbing(s0, s, c, base, t, goal, all, b) && Became(s, s', LinkOf(c, base), t, Rebalance(t))
    ensures !c.Top? ==> Climbing(s0, s', c.up, base, Around(c, Rebalance(t)), goal, all, b)
    ensures c.Top? ==> Held(s', base) && Rep(s', Get(s', base), goal) && OnlyLink(s0, s', base, all)
  {
    PendingReady(s, c, base, t);
    if !c.Top? {
      PendingUp(s, s', c, base, t);
      BaseUntouched(s, s', c, base, Nodes(t));
      AroundNodes(c, t);
      LinksLast(c, base);
      if t.T? { BalNotHigher(t.l, t.n, t.r); }
    }
  }

  // --------------------------------------------------------- searching

  /** Keys left of the hole are smaller than v, keys right of it are larger. */
  ghost predicate Bounds(c: Context, v: int) {
    (forall x | x in Before(c) :: x.key < v) && (forall x | x in After(c) :: v < x.key)
  }

  /** Going down to a child. */
  lemma Enter(s: Store, c: Context, base: Link, t: Tree, v: int)
    requires RepContext(s, c, base) && t.T? && Rep(s, Get(s, LinkOf(c, base)), t)
    requires Sorted(InOrder(Plug(c, t))) && Bounds(c, v)
    ensures RepContext(s, InLeft(t.n, t.r, c), base) && Rep(s, s.mem[t.n].left, t.l)
    ensures RepContext(s, InRight(t.l, t.n, c), base) && Rep(s, s.mem[t.n].right, t.r)
    ensures v < t.n.key ==> Bounds(InLeft(t.n, t.r, c), v)
    ensures v > t.n.key ==> Bounds(InRight(t.l, t.n, c), v)
  {
    assert Sorted(Before(c) + InOrder(t) + After(c)) by { PlugOrder(c, t); }
    var l, r := InOrder(t.l), InOrder(t.r);
    assert (forall x | x in l :: x.key < t.n.key) && (forall x | x in r :: t.n.key < x.key) by {
      SortedParts(Before(c) + InOrder(t), After(c));
      SortedParts(Before(c), InOrder(t));
      SortedNode(l, t.n, r);
    }
  }

  lemma {:induction false} DepthBound(c: Context, t: Tree, base: Link)
    ensures |Links(c, base)| + H(t) <= H(Plug(c, t)) + 1 && Low(c, H(Plug(c, t)))
    decreases c
  {
    if !c.Top? {
      DepthBound(c.up, Around(c, t), base);
      LowAbove(c.up, Around(c, t));
    }
  }

  lemma {:induction false} LowWeaken(c: Context, b: int, b': int)
    requires Low(c, b) && b <= b'
    ensures Low(c, b')
    decreases c
  {
    if !c.Top? { LowWeaken(c.up, b, b'); }
  }

  lemma {:induction false} LowAbove(c: Context, t: Tree)
    ensures H(t) <= H(Plug(c, t))
    decreases c
  {
    if !c.Top? { LowAbove(c.up, Around(c, t)); }
  }

  lemma {:induction false} RepNodes(s: Store, p: Node?, t: Tree, x: Node)
    requires Rep(s, p, t) && x in Nodes(t)
    ensures x in s.mem
    ensures s.mem[x].left == null || s.mem[x].left in Nodes(t)
    ensures s.mem[x].right == null || s.mem[x].right in Nodes(t)
    decreases t
  {
    RootIn(s, s.mem[t.n].left, t.l);
    RootIn(s, s.mem[t.n].right, t.r);
    if x in Nodes(t.l) {
      RepNodes(s, s.mem[t.n].left, t.l, x);
    } else if x in Nodes(t.r) {
      RepNodes(s, s.mem[t.n].right, t.r, x);
    }
  }

  lemma RootIn(s: Store, p: Node?, t: Tree)
    requires Rep(s, p, t)
    ensures p == null || p in Nodes(t)
  {
  }

  /** Memory that holds just the tree has no dangling pointers. */
  lemma RepClosed(s: Store, t: Tree)
    requires Rep(s, s.root, t) && s.mem.Keys == Nodes(t)
    ensures Closed(s)
  {
    RootIn(s, s.root, t);
    forall x | x in s.mem
      ensures (s.mem[x].left != null ==> s.mem[x].left in s.mem) && (s.mem[x].right != null ==> s.mem[x].right in s.mem)
    {
      RepNodes(s, s.root, t, x);
    }
  }

  lemma {:induction false} PlugNodes(c: Context, t: Tree)
    ensures Nodes(Plug(c, t)) == ContextNodes(c) + Nodes(t)
    decreases c
  {
    if !c.Top? { PlugNodes(c.up, Around(c, t)); }
  }

  lemma RebalancedNodes(c: Context, t: Tree)
    ensures Nodes(Rebalanced(c, t)) == ContextNodes(c) + Nodes(t)
  {
    RebalancedOrder(c, t);
    PlugOrder(c, t);
    SameNodes(Rebalanced(c, t), Plug(c, t));
    PlugNodes(c, t);
  }

  lemma SortedDrop(a: seq<Node>, x: Node, b: seq<Node>)
    requires Sorted(a + [x] + b)
    ensures Sorted(a + b)
  {
    var s, s' := a + [x] + b, a + b;
    forall i, j | 0 <= i < j < |s'| ensures s'[i].key < s'[j].key {
      var i', j' := if i < |a| then i else i + 1, if j < |a| then j else j + 1;
      assert s'[i] == s[i'] && s'[j] == s[j'];
    }
  }

  lemma SortedInsert(a: seq<Node>, x: Node, b: seq<Node>)
    requires Sorted(a + b) && (forall y | y in a :: y.key < x.key) && (forall y | y in b :: x.key < y.key)
    ensures Sorted(a + [x] + b)
  {
    var s, s' := a + b, a + [x] + b;
    forall i, j | 0 <= i < j < |s'| ensures s'[i].key < s'[j].key {
      if i != |a| && j != |a| {
        var i', j' := if i < |a| then i else i - 1, if j < |a| then j else j - 1;
        assert s'[i] == s[i'] && s'[j] == s[j'];
      } else if i == |a| {
        assert s'[j] == b[j - |a| - 1];
      } else {
        assert s'[i] == a[i];
      }
    }
  }

  // --------------------------------------------------------- insertion

  ghost function WithObject(s: Store, x: Node): Store { s.(mem := s.mem[x := Fields(null, null, 0)]) }

  lemma ClosedWith(s: Store, x: Node)
    requires Closed(s)
    ensures Closed(WithObject(s, x))
  {
  }

  /** A new object is linked into the empty hole of a search. */
  lemma InsertReady(s: Store, c: Context, x: Node)
    requires RepContext(s, c, Root) && x !in s.mem && Sorted(Before(c) + After(c)) && Bounds(c, x.key)
    requires ContextNodes(c) == s.mem.Keys
    ensures var s1 := WithObject(s, x); Held(s1, LinkOf(c, Root)) && Pending(Put(s1, LinkOf(c, Root), x), c, Root, T(Nil, x, Nil))
  {
    var s1 := WithObject(s, x);
    ContextSame(s, s1, c, Root);
    var s2 := Put(s1, LinkOf(c, Root), x);
    SortedInsert(Before(c), x, After(c));
    assert InOrder(T(Nil, x, Nil)) == [x];
    ContextSeparate(c, T(Nil, x, Nil), Root);
    ContextFrame(s1, s2, c, Root, {});
  }

  lemma InsertDone(c: Context, x: Node)
    requires Avl(Plug(c, Nil)) && Sorted(Before(c) + After(c)) && Bounds(c, x.key)
    ensures Ordered(Rebalanced(c, T(Nil, x, Nil)), Nodes(Plug(c, Nil)) + {x})
  {
    var t := T(Nil, x, Nil);
    PlugAvl(c, Nil);
    RebalancedAvl(c, t, -1);
    RebalancedOrder(c, t);
    assert InOrder(t) == [x];
    SortedInsert(Before(c), x, After(c));
    RebalancedNodes(c, t);
    PlugNodes(c, Nil);
  }

  // ----------------------------------------------------------- removal

  /** Only these objects are left. */
  ghost function Only(s: Store, xs: set<Node>): Store { s.(mem := map x | x in s.mem && x in xs :: s.mem[x]) }

  lemma RepOnly(s: Store, p: Node?, t: Tree, xs: set<Node>)
    requires Rep(s, p, t) && Nodes(t) <= xs
    ensures Rep(Only(s, xs), p, t)
  {
    RepFrame(s, Only(s, xs), p, t);
  }

  lemma Children(s: Store, p: Node?, t: Tree)
    requires Rep(s, p, t) && t.T?
    ensures t.n in s.mem && p == t.n && (s.mem[t.n].left == null <==> t.l.Nil?) && (s.mem[t.n].right == null <==> t.r.Nil?)
    ensures Rep(s, s.mem[t.n].left, t.l) && Rep(s, s.mem[t.n].right, t.r)
  {
  }

  lemma RebalanceAvl(t: Tree)
    requires Avl(t)
    ensures Rebalance(t) == t
  {
  }

  /** A subtree of t, without its root, takes the place of t. */
  lemma SpliceReady(s: Store, c: Context, t: Tree, u: Tree, p: Node?)
    requires RepContext(s, c, Root) && t.T? && Sorted(InOrder(Plug(c, t))) && Rep(s, p, u)
    requires (t.l.Nil? && u == t.r) || (t.r.Nil? && u == t.l)
    ensures Pending(Put(s, LinkOf(c, Root), p), c, Root, u)
  {
    assert Sorted(Before(c) + InOrder(t) + After(c)) by { PlugOrder(c, t); }
    SpliceOrder(c, t, u);
    PutSubtree(s, c, u, p);
  }

  lemma PutSubtree(s: Store, c: Context, u: Tree, p: Node?)
    requires RepContext(s, c, Root) && Rep(s, p, u) && Sorted(Before(c) + InOrder(u) + After(c))
    ensures Pending(Put(s, LinkOf(c, Root), p), c, Root, u)
  {
    var s1 := Put(s, LinkOf(c, Root), p);
    ContextSeparate(c, u, Root);
    HolderInContext(c, Root);
    assert RepContext(s1, c, Root) by { ContextFrame(s, s1, c, Root, {}); }
    assert Rep(s1, p, u) by { RepFrame(s, s1, p, u); }
  }

  lemma SpliceOrder(c: Context, t: Tree, u: Tree)
    requires t.T? && Sorted(Before(c) + InOrder(t) + After(c))
    requires (t.l.Nil? && u == t.r) || (t.r.Nil? && u == t.l)
    ensures Sorted(Before(c) + InOrder(u) + After(c))
  {
    DropFromMiddle(Before(c), InOrder(t.l), t.n, InOrder(t.r), After(c));
    assert InOrder(u) == InOrder(t.l) + InOrder(t.r);
  }

  lemma DropFromMiddle(a: seq<Node>, l: seq<Node>, x: Node, r: seq<Node>, b: seq<Node>)
    requires Sorted(a + (l + [x] + r) + b)
    ensures Sorted(a + (l + r) + b)
  {
    assert a + (l + [x] + r) + b == (a + l) + [x] + (r + b);
    SortedDrop(a + l, x, r + b);
    assert (a + l) + (r + b) == a + (l + r) + b;
  }

  lemma SpliceDone(c: Context, t: Tree, u: Tree)
    requires t.T? && Avl(Plug(c, t)) && Sorted(InOrder(Plug(c, t)))
    requires (t.l.Nil? && u == t.r) || (t.r.Nil? && u == t.l)
    ensures Ordered(Rebalanced(c, u), Nodes(Plug(c, t)) - {t.n})
  {
    PlugAvl(c, t);
    RebalancedAvl(c, u, H(t));
    PlugOrder(c, t);
    RebalancedOrder(c, u);
    SpliceOrder(c, t, u);
    RebalancedNodes(c, u);
    PlugNodes(c, t);
    ContextSeparate(c, t, Root);
  }

  /** c leads to t; below t.n, going right and then always left, c2 leads to u, whose root is the successor of t.n. */
  ghost predicate Inner(c: Context, t: Tree, c2: Context, u: Tree) {
    && t.T? && t.l.T? && Plug(c2, u) == t.r && u.T? && u.l.Nil? && Before(c2) == []
    && Sorted(InOrder(Plug(c, t)))
  }

  lemma InnerSeparate(c: Context, t: Tree, c2: Context, u: Tree)
    requires Inner(c, t, c2, u)
    ensures Nodes(t) !! ContextNodes(c) && SeparateContext(c, Root)
    ensures t.n !in Nodes(t.l) && t.n !in Nodes(t.r) && Nodes(t.l) !! Nodes(t.r)
    ensures Nodes(t.r) == ContextNodes(c2) + {u.n} + Nodes(u.r) && SeparateContext(c2, RightOf(t.n))
    ensures u.n !in ContextNodes(c2) && u.n !in Nodes(u.r) && Nodes(u.r) !! ContextNodes(c2)
  {
    PlugOrder(c, t);
    ContextSeparate(c, t, Root);
    SortedParts(Before(c) + InOrder(t), After(c));
    SortedParts(Before(c), InOrder(t));
    SortedNode(InOrder(t.l), t.n, InOrder(t.r));
    PlugOrder(c2, u);
    PlugNodes(c2, u);
    ContextSeparate(c2, u, RightOf(t.n));
  }

  /** The successor takes the place of its predecessor in the order. */
  lemma InnerOrder(c: Context, t: Tree, c2: Context, u: Tree)
    requires Inner(c, t, c2, u)
    ensures Sorted(Before(c2) + InOrder(u.r) + After(c2))
    ensures Sorted(Before(c) + InOrder(T(t.l, u.n, Rebalanced(c2, u.r))) + After(c))
  {
    var l, r, r' := InOrder(t.l), InOrder(t.r), InOrder(Rebalanced(c2, u.r));
    assert r == [u.n] + r' && r' == Before(c2) + InOrder(u.r) + After(c2) by { SuccessorFirst(c2, u); }
    assert Sorted(Before(c) + (l + [t.n] + r) + After(c)) by { PlugOrder(c, t); }
    SortedMiddle(Before(c), l, t.n, r, After(c));
    SortedParts([u.n], r');
    DropFromMiddle(Before(c), l, t.n, r, After(c));
    assert l + [u.n] + r' == l + r;
  }

  /** The leftmost object comes first. */
  lemma SuccessorFirst(c: Context, u: Tree)
    requires u.T? && u.l.Nil? && Before(c) == []
    ensures InOrder(Rebalanced(c, u.r)) == Before(c) + InOrder(u.r) + After(c)
    ensures InOrder(Plug(c, u)) == [u.n] + InOrder(Rebalanced(c, u.r))
  {
    PlugOrder(c, u);
    RebalancedOrder(c, u.r);
    EmptyFront(u.n, InOrder(u.r), After(c));
  }

  lemma EmptyFront(x: Node, a: seq<Node>, b: seq<Node>)
    ensures [] + ([] + [x] + a) + b == [x] + ([] + a + b)
  {
  }

  lemma SortedMiddle(a: seq<Node>, l: seq<Node>, x: Node, r: seq<Node>, b: seq<Node>)
    requires Sorted(a + (l + [x] + r) + b)
    ensures Sorted(r)
  {
    SortedParts(a + (l + [x] + r), b);
    SortedParts(a, l + [x] + r);
    SortedNode(l, x, r);
  }

  /** The store once the successor is taken out of its place and put at the link of t. */
  ghost function Unlinked(s: Store, c: Context, c2: Context, d: Node, x: Node): Store
    requires Held(s, LinkOf(c, Root)) && Held(s, LinkOf(c2, RightOf(d))) && x in s.mem
  {
    Put(Put(s, LinkOf(c, Root), x), LinkOf(c2, RightOf(d)), s.mem[x].right)
  }

  lemma SuccessorReady(s: Store, c: Context, t: Tree, c2: Context, u: Tree)
    requires Inner(c, t, c2, u) && RepContext(s, c, Root)
    requires RepContext(s, c2, RightOf(t.n)) && Rep(s, Get(s, LinkOf(c2, RightOf(t.n))), u)
    ensures Pending(Unlinked(s, c, c2, t.n, u.n), c2, RightOf(t.n), u.r)
  {
    var base, k := RightOf(t.n), LinkOf(c, Root);
    assert Sorted(Before(c2) + InOrder(u.r) + After(c2)) by { InnerOrder(c, t, c2, u); }
    InnerSeparate(c, t, c2, u);
    HolderInContext(c, Root);
    PutOutside(s, k, u.n, c2, base, s.mem[u.n].right);
    HolderInContext(c2, base);
    RepFrame(s, Unlinked(s, c, c2, t.n, u.n), s.mem[u.n].right, u.r);
  }

  /** Rewriting a link elsewhere, and the hole's link, leaves a context in place. */
  lemma PutOutside(s: Store, k: Link, p: Node?, c: Context, base: Link, q: Node?)
    requires RepContext(s, c, base) && SeparateContext(c, base) && Held(s, k)
    requires base.RightOf? && (k.Root? || (k.n !in ContextNodes(c) && k.n != base.n))
    ensures var s2 := Put(Put(s, k, p), LinkOf(c, base), q); RepContext(s2, c, base) && Get(s2, LinkOf(c, base)) == q
  {
    var s1 := Put(s, k, p);
    BaseHeld(s, c, base);
    ContextSame(s, s1, c, base);
    ContextFrame(s1, Put(s1, LinkOf(c, base), q), c, base, {});
  }

  /** The store once the successor has taken over the children of d. */
  ghost function TakenOver(s: Store, d: Node, x: Node): Store
    requires d in s.mem && x in s.mem && d != x
  {
    Put(Put(s, LeftOf(x), s.mem[d].left), RightOf(x), s.mem[d].right)
  }

  /** Two links of different holders are rewritten. */
  lemma PutTwice(s: Store, k: Link, k2: Link, p: Node?, q: Node?)
    requires Held(s, k) && Held(s, k2) && !k2.Root? && (k.Root? || k.n != k2.n)
    ensures var s2 := Put(Put(s, k, p), k2, q);
            && Held(s2, k) && Get(s2, k) == p && OnlyLink(s, s2, k, {k2.n})
            && (k2.RightOf? ==> s2.mem[k2.n].left == s.mem[k2.n].left)
  {
  }

  lemma OnlyLinkThen(s: Store, s1: Store, s2: Store, k: Link, k1: Link, xs: set<Node>, ys: set<Node>, zs: set<Node>)
    requires Held(s, k) && Held(s1, k) && Held(s1, k1) && Held(s2, k1) && !k1.Root? && k1.n in zs
    requires OnlyLink(s, s1, k, xs) && OnlyLink(s1, s2, k1, ys) && xs <= zs && ys <= zs && (k.Root? || k.n !in zs)
    ensures Held(s2, k) && Get(s2, k) == Get(s1, k) && OnlyLink(s, s2, k, zs)
  {
  }

  lemma SuccessorFrame(s: Store, s3: Store, c: Context, t: Tree, c2: Context, u: Tree)
    requires Inner(c, t, c2, u) && RepContext(s, c, Root) && t.n in s.mem
    requires RepContext(s, c2, RightOf(t.n)) && u.n in s.mem
    requires Held(s3, RightOf(t.n))
    requires OnlyLink(Unlinked(s, c, c2, t.n, u.n), s3, RightOf(t.n), ContextNodes(c2) + Nodes(u.r))
    ensures Held(s3, LinkOf(c, Root)) && Get(s3, LinkOf(c, Root)) == u.n
    ensures OnlyLink(s, s3, LinkOf(c, Root), {t.n} + Nodes(t.r)) && s3.mem[t.n].left == s.mem[t.n].left
  {
    var k, k2 := LinkOf(c, Root), LinkOf(c2, RightOf(t.n));
    var s2, zs := Unlinked(s, c, c2, t.n, u.n), {t.n} + Nodes(t.r);
    InnerSeparate(c, t, c2, u);
    HolderInContext(c, Root);
    HolderInContext(c2, RightOf(t.n));
    PutTwice(s, k, k2, u.n, s.mem[u.n].right);
    OnlyLinkThen(s, s2, s3, k, RightOf(t.n), {k2.n}, ContextNodes(c2) + Nodes(u.r), zs);
  }

  lemma TakenOverAt(s: Store, s3: Store, k: Link, d: Node, x: Node, zs: set<Node>)
    requires d in s3.mem && x in s3.mem && d != x && Held(s, k) && Held(s3, k) && OnlyLink(s, s3, k, zs) && x in zs
    requires k.Root? || k.n !in zs
    ensures var s5 := TakenOver(s3, d, x);
            && Held(s5, k) && Get(s5, k) == Get(s3, k) && OnlyLink(s, s5, k, zs) && SameOn(s3, s5, s3.mem.Keys - {x})
            && s5.mem[x].left == s3.mem[d].left && s5.mem[x].right == s3.mem[d].right
  {
  }

  lemma SuccessorPlaced(s: Store, s3: Store, c: Context, t: Tree, x: Node, r': Tree)
    requires t.T? && RepContext(s, c, Root) && t.n in s.mem && Rep(s, s.mem[t.n].left, t.l)
    requires SeparateContext(c, Root) && Nodes(t) !! ContextNodes(c)
    requires t.n !in Nodes(t.l) && t.n !in Nodes(t.r) && Nodes(t.l) !! Nodes(t.r) && x in Nodes(t.r) && x !in Nodes(r')
    requires Held(s3, LinkOf(c, Root)) && Get(s3, LinkOf(c, Root)) == x && x in s3.mem
    requires OnlyLink(s, s3, LinkOf(c, Root), {t.n} + Nodes(t.r)) && s3.mem[t.n].left == s.mem[t.n].left
    requires Rep(s3, s3.mem[t.n].right, r')
    ensures RepContext(TakenOver(s3, t.n, x), c, Root)
    ensures Near(TakenOver(s3, t.n, x), Get(TakenOver(s3, t.n, x), LinkOf(c, Root)), T(t.l, x, r'))
  {
    var k, zs, s5 := LinkOf(c, Root), {t.n} + Nodes(t.r), TakenOver(s3, t.n, x);
    HolderInContext(c, Root);
    TakenOverAt(s, s3, k, t.n, x, zs);
    SuccessorNear(s, s3, s5, k, t, x, r');
    ContextFrame(s, s5, c, Root, zs);
  }

  lemma SuccessorNear(s: Store, s3: Store, s5: Store, k: Link, t: Tree, x: Node, r': Tree)
    requires t.T? && Held(s, k) && Held(s3, k) && Held(s5, k) && Get(s5, k) == x && x in s5.mem && t.n in s.mem && t.n in s3.mem
    requires Rep(s, s.mem[t.n].left, t.l) && Rep(s3, s3.mem[t.n].right, r')
    requires s5.mem[x].left == s.mem[t.n].left && s5.mem[x].right == s3.mem[t.n].right
    requires OnlyLink(s, s5, k, {t.n} + Nodes(t.r)) && SameOn(s3, s5, s3.mem.Keys - {x})
    requires t.n !in Nodes(t.l) && Nodes(t.l) !! Nodes(t.r) && (k.Root? || k.n !in Nodes(t.l)) && x !in Nodes(r')
    ensures Near(s5, Get(s5, k), T(t.l, x, r'))
  {
    OnlyLinkSame(s, s5, k, {t.n} + Nodes(t.r), Nodes(t.l));
    RepFrame(s, s5, s.mem[t.n].left, t.l);
    RepFrame(s3, s5, s3.mem[t.n].right, r');
  }

  lemma OnlyLinkSame(s: Store, s': Store, k: Link, xs: set<Node>, ys: set<Node>)
    requires Held(s, k) && Held(s', k) && OnlyLink(s, s', k, xs) && xs !! ys && (k.Root? || k.n !in ys)
    ensures SameOn(s, s', ys)
  {
  }

  /** A search has led to t, and from there to the successor of t.n. */
  ghost predicate Movable(s: Store, c: Context, t: Tree, c2: Context, u: Tree) {
    && Inner(c, t, c2, u) && Avl(u.r) && RepContext(s, c, Root) && Rep(s, Get(s, LinkOf(c, Root)), t)
    && RepContext(s, c2, RightOf(t.n)) && Rep(s, Get(s, LinkOf(c2, RightOf(t.n))), u) && t.n in s.mem && u.n in s.mem
  }

  /** The successor is out of its old place, and the path to it is rebalanced. */
  ghost predicate Detached(s: Store, s3: Store, c: Context, t: Tree, c2: Context, u: Tree)
    requires Movable(s, c, t, c2, u)
  {
    && t.n in s3.mem && Rep(s3, s3.mem[t.n].right, Rebalanced(c2, u.r))
    && OnlyLink(Unlinked(s, c, c2, t.n, u.n), s3, RightOf(t.n), ContextNodes(c2) + Nodes(u.r))
  }

  /** From the rebalanced path below d to the place of d. */
  lemma SuccessorMoved(s: Store, s3: Store, c: Context, t: Tree, c2: Context, u: Tree)
    requires Movable(s, c, t, c2, u) && Detached(s, s3, c, t, c2, u)
    ensures t.n in s3.mem && u.n in s3.mem && t.n != u.n
    ensures Pending(TakenOver(s3, t.n, u.n), c, Root, T(t.l, u.n, Rebalanced(c2, u.r)))
  {
    SuccessorFrame(s, s3, c, t, c2, u);
    assert u.n !in Nodes(Rebalanced(c2, u.r)) by {
      InnerSeparate(c, t, c2, u);
      RebalancedNodes(c2, u.r);
    }
    InnerSeparate(c, t, c2, u);
    SuccessorPlaced(s, s3, c, t, u.n, Rebalanced(c2, u.r));
    InnerOrder(c, t, c2, u);
  }

  lemma InnerDone(c: Context, t: Tree, c2: Context, u: Tree)
    requires Inner(c, t, c2, u) && Avl(Plug(c, t))
    ensures var r' := Rebalanced(c2, u.r);
            Ordered(Rebalanced(c, Bal(t.l, u.n, r')), Nodes(Plug(c, t)) - {t.n}) && H(r') <= H(t.r)
  {
    var r' := Rebalanced(c2, u.r);
    PlugAvl(c, t);
    PlugAvl(c2, u);
    RebalancedAvl(c2, u.r, H(u));
    RebalancedShrink(c2, u.r, u);
    BalKeeps(t.l, u.n, r');
    BalShrink(t.l, u.n, r', H(t.l), H(t.r));
    var t' := Bal(t.l, u.n, r');
    RebalancedAvl(c, t', H(t));
    RebalancedOrder(c, t');
    BalOrder(t.l, u.n, r');
    InnerOrder(c, t, c2, u);
    InnerNodes(c, t, c2, u);
  }

  /** Heights and path lengths, all within the height of the whole tree. */
  lemma InnerBounds(c: Context, t: Tree, c2: Context, u: Tree)
    requires Inner(c, t, c2, u) && Avl(Plug(c, t))
    ensures var h := H(Plug(c, t));
            && Low(c, h) && H(T(t.l, u.n, Rebalanced(c2, u.r))) <= h && Low(c2, h) && H(u.r) <= h && Avl(u.r)
            && |Links(c, Root)| + |Links(c2, RightOf(t.n))| <= h + 1
  {
    var h := H(Plug(c, t));
    InnerDone(c, t, c2, u);
    PlugAvl(c, t);
    PlugAvl(c2, u);
    DepthBound(c, t, Root);
    DepthBound(c2, u, RightOf(t.n));
    LowAbove(c, t);
    LowWeaken(c2, H(t.r), h);
  }

  lemma InnerNodes(c: Context, t: Tree, c2: Context, u: Tree)
    requires Inner(c, t, c2, u)
    ensures Nodes(Rebalanced(c, Bal(t.l, u.n, Rebalanced(c2, u.r)))) == Nodes(Plug(c, t)) - {t.n}
  {
    var r' := Rebalanced(c2, u.r);
    BalOrder(t.l, u.n, r');
    SameNodes(Bal(t.l, u.n, r'), T(t.l, u.n, r'));
    RebalancedNodes(c2, u.r);
    RebalancedNodes(c, Bal(t.l, u.n, r'));
    PlugNodes(c, t);
    InnerSeparate(c, t, c2, u);
  }
}
