/**
 The metadata array of a kmalloc heap: an implicit binary tree of `split`/`full` flags.
 Node 0 is the root, the children of node n are nodes 2n+1 and 2n+2.
 */
module BuddyNodes {
  import opened Arith
  import opened BuddyTree

  datatype Node = Node(split: bool, full: bool)

  const CLEAR := Node(false, false)

  predicate IsFreeNode(n: Node) { !n.split && !n.full }

  function LeftOf(n: nat): nat { 2 * n + 1 }
  function RightOf(n: nat): nat { 2 * n + 2 }
  function ParentOf(n: int): int { if n <= 0 then -1 else (n - 1) / 2 }

  /** The flags of the root of a tree. */
  function Flags(t: Tree): Node { Node(t.Split?, IsFull(t)) }

  /** Node `n` of height `h` and everything below it describe `t`; blocks are at least 2^m bytes. */
  ghost predicate Rep(a: seq<Node>, n: nat, h: nat, m: nat, t: Tree)
    decreases h
  {
    && n < |a| && m <= h && a[n] == Flags(t)
    && (t.Split? ==> h > m)
    && (h > m ==> Rep(a, LeftOf(n), h - 1, m, Children(t).0) && Rep(a, RightOf(n), h - 1, m, Children(t).1))
  }

  /** Node `i` is `n` or lies below it. */
  ghost predicate InSub(i: int, n: int)
    decreases i
  {
    i == n || (0 <= n < i && InSub((i - 1) / 2, n))
  }

  /** The arrays agree outside the subtree of `n`. */
  ghost predicate AgreeOutside(a: seq<Node>, b: seq<Node>, n: int) {
    |a| == |b| && forall i | 0 <= i < |a| && !InSub(i, n) :: a[i] == b[i]
  }

  ghost predicate AgreeInside(a: seq<Node>, b: seq<Node>, n: int) {
    |a| == |b| && forall i | 0 <= i < |a| && InSub(i, n) :: a[i] == b[i]
  }

  lemma {:induction false} SubBelow(i: int, n: int)
    requires 0 <= n && (InSub(i, LeftOf(n)) || InSub(i, RightOf(n)))
    ensures InSub(i, n) && i > n
    decreases i
  {
    if i != LeftOf(n) && i != RightOf(n) {
      SubBelow((i - 1) / 2, n);
    } else {
      assert (i - 1) / 2 == n;
      assert InSub((i - 1) / 2, n);
    }
  }

  lemma {:induction false} SiblingsApart(i: int, n: int)
    requires 0 <= n && InSub(i, LeftOf(n))
    ensures !InSub(i, RightOf(n))
    decreases i
  {
    if i != LeftOf(n) && i > RightOf(n) {
      SiblingsApart((i - 1) / 2, n);
    }
  }

  lemma {:induction false} RepFrame(a: seq<Node>, b: seq<Node>, n: nat, h: nat, m: nat, t: Tree)
    requires Rep(a, n, h, m, t) && AgreeInside(a, b, n)
    ensures Rep(b, n, h, m, t)
    decreases h
  {
    assert InSub(n, n);
    if h > m {
      InsideChildren(a, b, n);
      RepFrame(a, b, LeftOf(n), h - 1, m, Children(t).0);
      RepFrame(a, b, RightOf(n), h - 1, m, Children(t).1);
    }
  }

  lemma InsideChildren(a: seq<Node>, b: seq<Node>, n: nat)
    requires AgreeInside(a, b, n)
    ensures AgreeInside(a, b, LeftOf(n)) && AgreeInside(a, b, RightOf(n))
  {
    forall i | 0 <= i < |a| && (InSub(i, LeftOf(n)) || InSub(i, RightOf(n))) ensures a[i] == b[i] {
      SubBelow(i, n);
    }
  }

  /** Changes confined to one child leave the other child alone. */
  lemma OutsideSibling(a: seq<Node>, b: seq<Node>, n: nat)
    ensures AgreeOutside(a, b, LeftOf(n)) ==> AgreeInside(a, b, RightOf(n)) && AgreeOutside(a, b, n)
    ensures AgreeOutside(a, b, RightOf(n)) ==> AgreeInside(a, b, LeftOf(n)) && AgreeOutside(a, b, n)
    ensures AgreeOutside(a, b, LeftOf(n)) || AgreeOutside(a, b, RightOf(n)) ==> n < |a| ==> a[n] == b[n]
  {
    forall i | 0 <= i < |a| && InSub(i, LeftOf(n)) ensures !InSub(i, RightOf(n)) && InSub(i, n) && i > n {
      SiblingsApart(i, n);
      SubBelow(i, n);
    }
    forall i | 0 <= i < |a| && InSub(i, RightOf(n)) ensures !InSub(i, LeftOf(n)) && InSub(i, n) && i > n {
      if InSub(i, LeftOf(n)) { SiblingsApart(i, n); }
      SubBelow(i, n);
    }
  }

  // ------------------------------------------------------------- addresses

  /** Index of the node of height `h` whose block starts at offset `off`, in a heap of 2^s bytes. */
  function NodeIndex(s: nat, off: nat, h: nat): nat
    requires h <= s
  {
    Pow2(s - h) - 1 + Shr(off, h)
  }

  function NodeOffset(s: nat, n: nat, h: nat): int
    requires h <= s
  {
    (n - (Pow2(s - h) - 1)) * Pow2(h)
  }

  lemma {:induction false} ShrStep(x: nat, h: nat)
    requires h > 0
    ensures Shr(x, h) == Shr(x, h - 1) / 2
    ensures Aligned(x, h) ==> Aligned(x, h - 1) && Shr(x, h - 1) == 2 * Shr(x, h)
    decreases h
  {
    if h > 1 {
      ShrStep(x / 2, h - 1);
    }
  }

  lemma {:induction false} ShrExact(x: nat, h: nat)
    requires Aligned(x, h)
    ensures Shr(x, h) * Pow2(h) == x
    decreases h
  {
    if h > 0 {
      ShrExact(x / 2, h - 1);
      assert Shr(x, h) * Pow2(h) == 2 * (Shr(x / 2, h - 1) * Pow2(h - 1));
    }
  }

  /** Node numbers and addresses are inverse to each other. */
  lemma NodeOffsetInverse(s: nat, off: nat, h: nat)
    requires h <= s && Aligned(off, h)
    ensures NodeOffset(s, NodeIndex(s, off, h), h) == off
  {
    ShrExact(off, h);
  }

  lemma IndexChildren(s: nat, off: nat, h: nat)
    requires 0 < h <= s && Aligned(off, h)
    ensures Aligned(off, h - 1) && Aligned(off + Pow2(h - 1), h - 1)
    ensures NodeIndex(s, off, h - 1) == LeftOf(NodeIndex(s, off, h))
    ensures NodeIndex(s, off + Pow2(h - 1), h - 1) == RightOf(NodeIndex(s, off, h))
  {
    ShrStep(off, h);
    AlignedSum(off, h - 1, h - 1);
    assert off + Pow2(h - 1) == Pow2(h - 1) + off;
  }

  /** The node at offset `o` below a node describes the subtree at `o`. */
  lemma {:induction false} RepAt(a: seq<Node>, s: nat, base: nat, h: nat, m: nat, t: Tree, o: nat, k: nat)
    requires h <= s && m <= k && Aligned(base, h) && NodeAt(h, o, k)
    requires Rep(a, NodeIndex(s, base, h), h, m, t)
    ensures Rep(a, NodeIndex(s, base + o, k), k, m, SubAt(t, h, o, k))
    ensures InSub(NodeIndex(s, base + o, k), NodeIndex(s, base, h)) && Aligned(base + o, k)
    decreases h
  {
    if k == h {
      AlignedGap(o, h, k);
    } else {
      NodeHalf(h, o, k);
      IndexChildren(s, base, h);
      if o < Pow2(h - 1) {
        RepAt(a, s, base, h - 1, m, Children(t).0, o, k);
      } else {
        RepAt(a, s, base + Pow2(h - 1), h - 1, m, Children(t).1, o - Pow2(h - 1), k);
        assert base + Pow2(h - 1) + (o - Pow2(h - 1)) == base + o;
      }
      SubBelow(NodeIndex(s, base + o, k), NodeIndex(s, base, h));
    }
  }

  /** Every node above the one of height `k` at `o` is split. */
  ghost predicate PathSplit(t: Tree, h: nat, o: nat, k: nat)
    decreases h
  {
    h <= k || (t.Split? && if o < Pow2(h - 1) then PathSplit(t.left, h - 1, o, k)
                           else PathSplit(t.right, h - 1, o - Pow2(h - 1), k))
  }

  /** Exchanging one half of a split node. */
  lemma RepLeft(a: seq<Node>, b: seq<Node>, n: nat, h: nat, m: nat, t: Tree, l: Tree)
    requires h > m && t.Split? && Rep(a, n, h, m, t) && AgreeOutside(a, b, LeftOf(n))
    requires Rep(b, LeftOf(n), h - 1, m, l) && IsFull(l) == IsFull(t.left)
    ensures Rep(b, n, h, m, Split(l, t.right)) && AgreeOutside(a, b, n)
  {
    OutsideSibling(a, b, n);
    RepFrame(a, b, RightOf(n), h - 1, m, t.right);
  }

  lemma RepRight(a: seq<Node>, b: seq<Node>, n: nat, h: nat, m: nat, t: Tree, r: Tree)
    requires h > m && t.Split? && Rep(a, n, h, m, t) && AgreeOutside(a, b, RightOf(n))
    requires Rep(b, RightOf(n), h - 1, m, r) && IsFull(r) == IsFull(t.right)
    ensures Rep(b, n, h, m, Split(t.left, r)) && AgreeOutside(a, b, n)
  {
    OutsideSibling(a, b, n);
    RepFrame(a, b, LeftOf(n), h - 1, m, t.left);
  }

  /** A change below one node, not altering whether it is full, is an update of the tree. */
  lemma {:induction false} RepUpdate(a: seq<Node>, b: seq<Node>, s: nat, base: nat, h: nat, m: nat,
                                     t: Tree, o: nat, k: nat, u: Tree)
    requires h <= s && m <= k && Aligned(base, h) && NodeAt(h, o, k) && PathSplit(t, h, o, k)
    requires Rep(a, NodeIndex(s, base, h), h, m, t)
    requires AgreeOutside(a, b, NodeIndex(s, base + o, k))
    requires Rep(b, NodeIndex(s, base + o, k), k, m, u) && IsFull(u) == IsFull(SubAt(t, h, o, k))
    ensures Rep(b, NodeIndex(s, base, h), h, m, Update(t, h, o, k, u))
    ensures IsFull(Update(t, h, o, k, u)) == IsFull(t)
    ensures AgreeOutside(a, b, NodeIndex(s, base, h))
    decreases h
  {
    if k == h {
      AlignedGap(o, h, k);
    } else {
      var n := NodeIndex(s, base, h);
      NodeHalf(h, o, k);
      IndexChildren(s, base, h);
      if o < Pow2(h - 1) {
        RepUpdate(a, b, s, base, h - 1, m, t.left, o, k, u);
        RepLeft(a, b, n, h, m, t, Update(t.left, h - 1, o, k, u));
      } else {
        assert base + Pow2(h - 1) + (o - Pow2(h - 1)) == base + o;
        RepUpdate(a, b, s, base + Pow2(h - 1), h - 1, m, t.right, o - Pow2(h - 1), k, u);
        RepRight(a, b, n, h, m, t, Update(t.right, h - 1, o - Pow2(h - 1), k, u));
      }
    }
  }

  /** n is the node of height h at `base`, and q the node of height k at offset o in it. */
  ghost predicate Sites(s: nat, base: nat, n: nat, h: nat, o: nat, k: nat, q: nat) {
    h <= s && Aligned(base, h) && NodeAt(h, o, k) && n == NodeIndex(s, base, h) && q == NodeIndex(s, base + o, k)
  }

  /** The root's offset and number, as a variable: a literal makes the solver unfold alignment endlessly. */
  lemma RootSites(s: nat, o: nat, k: nat) returns (z: nat)
    requires NodeAt(s, o, k)
    ensures z == 0 && Sites(s, z, z, s, o, k, NodeIndex(s, o, k))
  {
    z := RootAt(s);
  }

  lemma RootAt(s: nat) returns (z: nat)
    ensures z == 0 && NodeIndex(s, z, s) == z && Aligned(z, s)
  {
    AlignedScale(0, s);
    z := 0;
  }

  /** The two facts above, with the nodes named. */
  lemma UpdateFrom(a: seq<Node>, b: seq<Node>, s: nat, base: nat, n: nat, h: nat, m: nat,
                   t: Tree, o: nat, k: nat, q: nat, u: Tree)
    requires m <= k && Sites(s, base, n, h, o, k, q) && PathSplit(t, h, o, k) && Rep(a, n, h, m, t)
    requires AgreeOutside(a, b, q) && Rep(b, q, k, m, u) && IsFull(u) == IsFull(SubAt(t, h, o, k))
    ensures Rep(b, n, h, m, Update(t, h, o, k, u))
  {
    RepUpdate(a, b, s, base, h, m, t, o, k, u);
  }

  lemma NodeFrom(a: seq<Node>, s: nat, base: nat, n: nat, h: nat, m: nat, t: Tree, o: nat, k: nat, q: nat)
    requires m <= k && Sites(s, base, n, h, o, k, q) && Rep(a, n, h, m, t)
    ensures Rep(a, q, k, m, SubAt(t, h, o, k))
  {
    RepAt(a, s, base, h, m, t, o, k);
  }

  /** Every metadata index is the node of some aligned block. */
  lemma {:induction false} IndexIsNode(s: nat, d: nat, i: nat) returns (o: nat, k: nat)
    requires d <= s && i < Pow2(d + 1) - 1
    ensures s - d <= k <= s && NodeAt(s, o, k) && NodeIndex(s, o, k) == i
    decreases d
  {
    if i < Pow2(d) - 1 {
      o, k := IndexIsNode(s, d - 1, i);
    } else {
      var pos := i - (Pow2(d) - 1);
      k := s - d;
      o := pos * Pow2(k);
      AlignedScale(pos, k);
      Pow2Add(d, k);
      assert o < Pow2(s) by {
        Distribute(Pow2(d), pos, Pow2(k));
        MulAtLeast(Pow2(d) - pos, Pow2(k));
      }
    }
  }

  /** The flags are a function of the tree: two arrays that describe it agree on every node. */
  lemma RepUnique(a: seq<Node>, b: seq<Node>, s: nat, m: nat, t: Tree)
    requires m <= s && |a| == |b| == Pow2(s - m + 1)
    requires Rep(a, 0, s, m, t) && Rep(b, 0, s, m, t)
    ensures a[..|a| - 1] == b[..|b| - 1]
  {
    forall i: nat | i < |a| - 1 ensures a[i] == b[i] { RepUniqueAt(a, b, s, m, t, i); }
  }

  lemma RepUniqueAt(a: seq<Node>, b: seq<Node>, s: nat, m: nat, t: Tree, i: nat)
    requires m <= s && |a| == |b| == Pow2(s - m + 1) && i < |a| - 1
    requires Rep(a, 0, s, m, t) && Rep(b, 0, s, m, t)
    ensures a[i] == b[i]
  {
    var o, k := IndexIsNode(s, s - m, i);
    var z := RootSites(s, o, k);
    NodeFrom(a, s, z, z, s, m, t, o, k, i);
    NodeFrom(b, s, z, z, s, m, t, o, k, i);
  }

  /** The tree is a function of the flags. */
  lemma {:induction false} RepInjective(a: seq<Node>, b: seq<Node>, n: nat, h: nat, m: nat, s: nat, t: Tree, u: Tree)
    requires m <= h <= s && |a| == |b| == Pow2(s - m + 1) && n + 2 <= Pow2(s - h + 1)
    requires Rep(a, n, h, m, t) && Rep(b, n, h, m, u) && a[..|a| - 1] == b[..|b| - 1]
    ensures t == u
    decreases h
  {
    Pow2Monotone(s - h + 1, s - m + 1);
    assert a[n] == a[..|a| - 1][n] == b[..|b| - 1][n] == b[n];
    if h > m {
      RepInjective(a, b, LeftOf(n), h - 1, m, s, Children(t).0, Children(u).0);
      RepInjective(a, b, RightOf(n), h - 1, m, s, Children(t).1, Children(u).1);
    }
  }

  /** Locating a free node without taking it changes the tree unless every node above it was split already. */
  lemma {:induction false} LocatedSame(t: Tree, h: nat, o: nat, k: nat)
    requires Open(t, h, o, k) && SubAt(t, h, o, k) == Free
    ensures Update(t, h, o, k, Free) == t <==> PathSplit(t, h, o, k)
    decreases h
  {
    if k < h && t.Split? {
      if o < Pow2(h - 1) {
        LocatedSame(t.left, h - 1, o, k);
      } else {
        LocatedSame(t.right, h - 1, o - Pow2(h - 1), k);
      }
    }
  }

  /** So a search that only looks may split nodes: the smaller block of an empty heap of two. */
  lemma LookingSplits()
    ensures Place(Free, 1, 0, Free) == Some((0, Split(Free, Free)))
  {
    assert Place(Free, 0, 0, Free) == Some((0, Free));
  }
}
