/**
 Steps of the heap code on the metadata array: what each write does to the tree a node describes,
 seen from above (a search going down) and from below (a release climbing to the root).
 */
module BuddySteps {
  import opened Arith
  import opened BuddyTree
  import opened BuddyNodes

  // ---------------------------------------------------- climbing the tree

  /** What surrounds a node, seen from that node upward: its sibling, then its parent's context. */
  datatype Context = Top | InLeft(sibling: Tree, up: Context) | InRight(sibling: Tree, up: Context)

  /** The nodes above `n` are split and its siblings on the way up are as in `c`. */
  ghost predicate RepContext(a: seq<Node>, n: nat, h: nat, m: nat, s: nat, c: Context)
    decreases c
  {
    match c
    case Top => n == 0 && h == s
    case InLeft(sib, up) =>
      var p := ParentOf(n);
      && p >= 0 && n == LeftOf(p) && p < |a| && a[p].split
      && Rep(a, RightOf(p), h, m, sib) && RepContext(a, p, h + 1, m, s, up)
    case InRight(sib, up) =>
      var p := ParentOf(n);
      && p >= 0 && n == RightOf(p) && p < |a| && a[p].split
      && Rep(a, LeftOf(p), h, m, sib) && RepContext(a, p, h + 1, m, s, up)
  }

  ghost function Plug(c: Context, t: Tree): Tree {
    match c
    case Top => t
    case InLeft(sib, up) => Plug(up, Split(t, sib))
    case InRight(sib, up) => Plug(up, Split(sib, t))
  }

  ghost function PlugJoin(c: Context, t: Tree): Tree {
    match c
    case Top => t
    case InLeft(sib, up) => PlugJoin(up, Join(t, sib))
    case InRight(sib, up) => PlugJoin(up, Join(sib, t))
  }

  lemma {:induction false} PlugJoinSplit(c: Context, t: Tree)
    requires t.Split?
    ensures PlugJoin(c, t) == Plug(c, t)
    decreases c
  {
    match c
    case Top =>
    case InLeft(sib, up) => PlugJoinSplit(up, Split(t, sib));
    case InRight(sib, up) => PlugJoinSplit(up, Split(sib, t));
  }

  lemma EnterContext(a: seq<Node>, n: nat, h: nat, m: nat, s: nat, t: Tree, c: Context)
    requires Rep(a, n, h, m, t) && t.Split? && RepContext(a, n, h, m, s, c)
    ensures RepContext(a, LeftOf(n), h - 1, m, s, InLeft(t.right, c))
    ensures RepContext(a, RightOf(n), h - 1, m, s, InRight(t.left, c))
  {
    assert ParentOf(LeftOf(n)) == n && ParentOf(RightOf(n)) == n;
  }

  /** From a node down to the node of height `k` at `o`, collecting the context. */
  lemma {:induction false} Descend(a: seq<Node>, s: nat, base: nat, h: nat, m: nat, t: Tree, o: nat, k: nat, c: Context)
    returns (c': Context)
    requires h <= s && m <= k && Aligned(base, h) && NodeAt(h, o, k) && PathSplit(t, h, o, k)
    requires Rep(a, NodeIndex(s, base, h), h, m, t) && RepContext(a, NodeIndex(s, base, h), h, m, s, c)
    ensures RepContext(a, NodeIndex(s, base + o, k), k, m, s, c')
    ensures PlugJoin(c', Free) == PlugJoin(c, FreeAt(t, h, o, k))
    ensures k < h ==> !c'.Top?
    decreases h
  {
    if k == h {
      AlignedGap(o, h, k);
      c' := c;
    } else {
      NodeHalf(h, o, k);
      IndexChildren(s, base, h);
      EnterContext(a, NodeIndex(s, base, h), h, m, s, t, c);
      if o < Pow2(h - 1) {
        c' := Descend(a, s, base, h - 1, m, t.left, o, k, InLeft(t.right, c));
      } else {
        assert base + Pow2(h - 1) + (o - Pow2(h - 1)) == base + o;
        c' := Descend(a, s, base + Pow2(h - 1), h - 1, m, t.right, o - Pow2(h - 1), k, InRight(t.left, c));
      }
    }
  }

  lemma {:induction false} ContextFrame(a: seq<Node>, b: seq<Node>, n: nat, h: nat, m: nat, s: nat, c: Context)
    requires RepContext(a, n, h, m, s, c) && AgreeOutside(a, b, n)
    ensures RepContext(b, n, h, m, s, c)
    decreases c
  {
    if !c.Top? {
      var p := ParentOf(n);
      OutsideSibling(a, b, p);
      assert a[p] == b[p];
      if c.InLeft? {
        RepFrame(a, b, RightOf(p), h, m, c.sibling);
      } else {
        RepFrame(a, b, LeftOf(p), h, m, c.sibling);
      }
      ContextFrame(a, b, p, h + 1, m, s, c.up);
    }
  }

  /** Every proper ancestor of `n` is marked as not full. */
  ghost predicate AncestorsNotFull(a: seq<Node>, n: nat) {
    forall i | 0 <= i < |a| && i != n && InSub(n, i) :: !a[i].full
  }

  lemma ParentAncestors(a: seq<Node>, n: nat)
    requires n > 0 && AncestorsNotFull(a, n) && ParentOf(n) < |a|
    ensures AncestorsNotFull(a, ParentOf(n)) && !a[ParentOf(n)].full
  {
    assert InSub(ParentOf(n), ParentOf(n));
    forall i | 0 <= i < |a| && i != ParentOf(n) && InSub(ParentOf(n), i) ensures !a[i].full {
      InSubSmaller(ParentOf(n), i);
    }
  }

  lemma {:induction false} InSubSmaller(i: int, n: int)
    requires InSub(i, n)
    ensures n <= i
  {
  }

  /** The ancestors of a node form a chain. */
  lemma {:induction false} AncestorChain(x: int, i: int, n: int)
    requires 0 <= i <= n && InSub(x, i) && InSub(x, n)
    ensures InSub(n, i)
    decreases x
  {
    if x != n {
      AncestorChain((x - 1) / 2, i, n);
    }
  }

  lemma {:induction false} PlugRep(a: seq<Node>, n: nat, h: nat, m: nat, s: nat, c: Context, t: Tree)
    requires Rep(a, n, h, m, t) && !IsFull(t)
    requires RepContext(a, n, h, m, s, c) && AncestorsNotFull(a, n)
    ensures Rep(a, 0, s, m, Plug(c, t))
    decreases c
  {
    if !c.Top? {
      ParentAncestors(a, n);
      PlugRep(a, ParentOf(n), h + 1, m, s, c.up, if c.InLeft? then Split(t, c.sibling) else Split(c.sibling, t));
    }
  }

  lemma {:induction false} FullNodePath(t: Tree, h: nat, o: nat, k: nat)
    requires Open(t, h, o, k) && SubAt(t, h, o, k) != Free
    ensures PathSplit(t, h, o, k)
    decreases h
  {
    if k < h {
      if t.Free? {
        FreeBelow(h, o, k);
      } else if o < Pow2(h - 1) {
        FullNodePath(t.left, h - 1, o, k);
      } else {
        FullNodePath(t.right, h - 1, o - Pow2(h - 1), k);
      }
    }
  }

  lemma {:induction false} FreeHasRoom(h: nat, k: nat, fill: Tree)
    requires k <= h
    ensures Place(Free, h, k, fill).Some?
    decreases h
  {
    if k < h {
      FreeHasRoom(h - 1, k, fill);
    }
  }

  lemma {:induction false} ClearRep(a: seq<Node>, n: nat, h: nat, m: nat)
    requires m <= h && (n + 2) * Pow2(h - m) - 1 <= |a| && forall i | 0 <= i < |a| :: a[i] == CLEAR
    ensures Rep(a, n, h, m, Free)
    decreases h
  {
    var c := Pow2(h - m);
    MulAtLeast(c, n + 2);
    if h > m {
      var d := Pow2(h - 1 - m);
      assert (n + 2) * (2 * d) == (2 * n + 4) * d && (2 * n + 3) * d == (2 * n + 4) * d - d;
      ClearRep(a, LeftOf(n), h - 1, m);
      ClearRep(a, RightOf(n), h - 1, m);
    }
  }

  /** Node `n` is one free block inside the context `c`. */
  ghost predicate Between(a: seq<Node>, n: nat, h: nat, m: nat, s: nat, c: Context) {
    Rep(a, n, h, m, Free) && RepContext(a, n, h, m, s, c)
  }

  lemma FreeNode(a: seq<Node>, b: seq<Node>, n: nat, h: nat, m: nat, s: nat, c: Context)
    requires Rep(a, n, h, m, Full) && RepContext(a, n, h, m, s, c) && b == a[n := CLEAR]
    ensures Between(b, n, h, m, s, c)
  {
    OnlyRootChanged(a, b, n);
    if h > m {
      RepFrame(a, b, LeftOf(n), h - 1, m, Free);
      RepFrame(a, b, RightOf(n), h - 1, m, Free);
    }
    ContextFrame(a, b, n, h, m, s, c);
  }

  /** A node with a free buddy: both disappear into their parent. */
  lemma Coalesce(a: seq<Node>, b: seq<Node>, n: nat, h: nat, m: nat, s: nat, c: Context)
    requires Between(a, n, h, m, s, c) && !c.Top?
    requires var p := ParentOf(n);
             b == a[p := CLEAR] && RightOf(p) < |a| && IsFreeNode(a[LeftOf(p)]) && IsFreeNode(a[RightOf(p)])
    ensures Between(b, ParentOf(n), h + 1, m, s, c.up)
    ensures PlugJoin(c.up, Free) == PlugJoin(c, Free)
    ensures ParentOf(n) > 0 ==> !c.up.Top?
    ensures ParentOf(n) == 0 ==> c.up.Top?
  {
    var p := ParentOf(n);
    assert c.sibling == Free;
    OnlyRootChanged(a, b, p);
    RepFrame(a, b, LeftOf(p), h, m, Free);
    RepFrame(a, b, RightOf(p), h, m, Free);
    ContextFrame(a, b, p, h + 1, m, s, c.up);
  }

  lemma StopCoalescing(a: seq<Node>, b: seq<Node>, n: nat, h: nat, m: nat, s: nat, c: Context)
    requires Between(a, n, h, m, s, c) && !c.Top?
    requires var p := ParentOf(n);
             b == a[p := a[p].(full := false)] && RightOf(p) < |a| && !(IsFreeNode(a[LeftOf(p)]) && IsFreeNode(a[RightOf(p)]))
    ensures Between(b, n, h, m, s, c)
    ensures PlugJoin(c, Free) == Plug(c, Free)
  {
    assert c.sibling != Free;
    PlugJoinSplit(c.up, if c.InLeft? then Split(Free, c.sibling) else Split(c.sibling, Free));
    assert InSub(n, ParentOf(n)) by { assert InSub((n - 1) / 2, ParentOf(n)); }
    ClearAncestor(a, b, n, h, m, s, c, ParentOf(n));
  }

  /** Nodes above `n` may change their `full` flag without disturbing `n` or the siblings. */
  lemma {:induction false} ClearAncestor(a: seq<Node>, b: seq<Node>, n: nat, h: nat, m: nat, s: nat, c: Context, q: nat)
    requires Between(a, n, h, m, s, c)
    requires q < n && InSub(n, q) && q < |a| && b == a[q := a[q].(full := false)]
    ensures Between(b, n, h, m, s, c)
  {
    forall i | 0 <= i < |a| && InSub(i, n) ensures a[i] == b[i] {
      InSubSmaller(i, n);
    }
    RepFrame(a, b, n, h, m, Free);
    ClearContext(a, b, n, h, m, s, c, q);
  }

  lemma {:induction false} ClearContext(a: seq<Node>, b: seq<Node>, n: nat, h: nat, m: nat, s: nat, c: Context, q: nat)
    requires RepContext(a, n, h, m, s, c)
    requires q < n && InSub(n, q) && q < |a| && b == a[q := a[q].(full := false)]
    ensures RepContext(b, n, h, m, s, c)
    decreases c
  {
    if !c.Top? {
      var p := ParentOf(n);
      InSubSmaller(p, q);
      var sib := if c.InLeft? then RightOf(p) else LeftOf(p);
      forall i | 0 <= i < |a| && InSub(i, sib) ensures a[i] == b[i] {
        InSubSmaller(i, sib);
      }
      RepFrame(a, b, sib, h, m, c.sibling);
      if q == p {
        OnlyRootChanged(a, b, p);
        ContextFrame(a, b, p, h + 1, m, s, c.up);
      } else {
        ClearContext(a, b, p, h + 1, m, s, c.up, q);
      }
    }
  }

  lemma {:induction false} AncestorStep(n: nat, b: nat)
    requires InSub(n, b) && b > 0
    ensures InSub(n, ParentOf(b))
    decreases n
  {
    if n == b {
      assert InSub((n - 1) / 2, ParentOf(b));
    } else {
      AncestorStep((n - 1) / 2, b);
      InSubSmaller((n - 1) / 2, ParentOf(b));
    }
  }

  /** Between an ancestor `p` of `n` and the parent of `p` there is no other ancestor of `n`. */
  lemma NextAncestor(n: nat, p: nat)
    requires InSub(n, p) && p < n
    ensures forall i | ParentOf(p) < i < p :: !InSub(n, i)
    ensures p > 0 ==> InSub(n, ParentOf(p))
  {
    if p > 0 { AncestorStep(n, p); }
    forall i | ParentOf(p) < i < p ensures !InSub(n, i) {
      if InSub(n, i) {
        AncestorChain(n, i, p);
        InSubSmaller((p - 1) / 2, i);
      }
    }
  }

  function Fill(mark: bool): Tree { if mark then Full else Free }

  function Relative(addr: Option<int>, base: int): Option<int> {
    if addr.Some? then Some(addr.value - base) else None
  }

  /** From array `a` to array `b`, the search below `n` did what `Place` says. */
  ghost predicate Searched(a: seq<Node>, b: seq<Node>, n: nat, h: nat, m: nat, t: Tree, k: nat, fill: Tree, off: Option<int>)
    requires k <= h
  {
    match Place(t, h, k, fill)
    case None => off == None && b == a
    case Some((o, t')) => off == Some(o) && Rep(b, n, h, m, t') && AgreeOutside(a, b, n)
  }

  /** A node that was opened for a search: it is split, and its children describe the two halves. */
  ghost predicate Opened(a0: seq<Node>, a: seq<Node>, n: nat, h: nat, m: nat, t: Tree) {
    && h > m && RightOf(n) < |a| && AgreeOutside(a0, a, n) && a[n] == Node(true, false)
    && Rep(a, LeftOf(n), h - 1, m, Children(t).0) && Rep(a, RightOf(n), h - 1, m, Children(t).1)
  }

  /** Opening a node: its children describe the two halves. */
  lemma SplitNode(a: seq<Node>, b: seq<Node>, n: nat, h: nat, m: nat, t: Tree)
    requires h > m && Rep(a, n, h, m, t) && !IsFull(t) && b == a[n := Node(true, false)]
    ensures Rep(b, LeftOf(n), h - 1, m, Children(t).0) && Rep(b, RightOf(n), h - 1, m, Children(t).1)
    ensures AgreeOutside(a, b, n) && (t.Split? ==> b == a)
  {
    OnlyRootChanged(a, b, n);
    RepFrame(a, b, LeftOf(n), h - 1, m, Children(t).0);
    RepFrame(a, b, RightOf(n), h - 1, m, Children(t).1);
  }

  lemma FoundLeft(a: seq<Node>, a1: seq<Node>, a2: seq<Node>, b: seq<Node>, n: nat, h: nat, m: nat, t: Tree, k: nat, fill: Tree, o: int)
    requires m <= k < h && !IsFull(t) && AgreeOutside(a, a1, n) && RightOf(n) < |a|
    requires a1[n] == Node(true, false) && Rep(a1, RightOf(n), h - 1, m, Children(t).1)
    requires Searched(a1, a2, LeftOf(n), h - 1, m, Children(t).0, k, fill, Some(o))
    requires b == a2[n := Node(true, a2[n].full || (a2[LeftOf(n)].full && a2[RightOf(n)].full))]
    ensures Searched(a, b, n, h, m, t, k, fill, Some(o))
  {
    OutsideSibling(a1, a2, n);
    RepFrame(a1, a2, RightOf(n), h - 1, m, Children(t).1);
    CloseNode(a1, a2, b, n, h, m, Place(Children(t).0, h - 1, k, fill).value.1, Children(t).1);
  }

  lemma LeftKept(a: seq<Node>, b: seq<Node>, n: nat, h: nat, m: nat, l: Tree)
    requires h > m && n < |a| && AgreeOutside(a, b, RightOf(n)) && Rep(a, LeftOf(n), h - 1, m, l)
    ensures |a| == |b| && Rep(b, LeftOf(n), h - 1, m, l) && AgreeOutside(a, b, n) && b[n] == a[n]
  {
    OutsideSibling(a, b, n);
    RepFrame(a, b, LeftOf(n), h - 1, m, l);
  }

  lemma FoundRight(a: seq<Node>, a1: seq<Node>, a2: seq<Node>, b: seq<Node>, n: nat, h: nat, m: nat, t: Tree, k: nat, fill: Tree, o: int)
    requires m <= k < h && !IsFull(t) && AgreeOutside(a, a1, n) && RightOf(n) < |a|
    requires a1[n] == Node(true, false) && Rep(a1, LeftOf(n), h - 1, m, Children(t).0)
    requires Place(Children(t).0, h - 1, k, fill).None?
    requires Searched(a1, a2, RightOf(n), h - 1, m, Children(t).1, k, fill, Some(o))
    requires b == a2[n := Node(true, a2[n].full || (a2[LeftOf(n)].full && a2[RightOf(n)].full))]
    ensures Searched(a, b, n, h, m, t, k, fill, Some(o + Pow2(h - 1)))
  {
    LeftKept(a1, a2, n, h, m, Children(t).0);
    CloseNode(a1, a2, b, n, h, m, Children(t).0, Place(Children(t).1, h - 1, k, fill).value.1);
  }

  /** A failed search never opened a free node. */
  lemma NotFound(a: seq<Node>, a1: seq<Node>, n: nat, h: nat, m: nat, t: Tree, k: nat, fill: Tree)
    requires m <= k < h && !IsFull(t) && (t.Split? ==> a1 == a)
    requires Place(Children(t).0, h - 1, k, fill).None? && Place(Children(t).1, h - 1, k, fill).None?
    ensures Searched(a, a1, n, h, m, t, k, fill, None)
  {
    FreeHasRoom(h - 1, k, fill);
  }

  lemma OnlyRootChanged(a: seq<Node>, b: seq<Node>, n: nat)
    requires |a| == |b| && forall i | 0 <= i < |a| && i != n :: a[i] == b[i]
    ensures AgreeInside(a, b, LeftOf(n)) && AgreeInside(a, b, RightOf(n)) && AgreeOutside(a, b, n)
  {
    forall i | 0 <= i < |a| && (InSub(i, LeftOf(n)) || InSub(i, RightOf(n))) ensures a[i] == b[i] {
      SubBelow(i, n);
    }
  }

  /** A free node whose own flags become those of `fill` (free or full) describes `fill`. */
  lemma FillNode(a: seq<Node>, b: seq<Node>, n: nat, h: nat, m: nat, fill: Tree)
    requires Rep(a, n, h, m, Free) && !fill.Split? && |a| == |b| && b == a[n := Flags(fill)]
    ensures Rep(b, n, h, m, fill) && AgreeOutside(a, b, n)
  {
    OnlyRootChanged(a, b, n);
    if h > m {
      RepFrame(a, b, LeftOf(n), h - 1, m, Free);
      RepFrame(a, b, RightOf(n), h - 1, m, Free);
    }
  }

  lemma SubSelf(n: nat)
    ensures InSub(n, n)
  {
  }

  /** Both children done: once the parent's flags are right it describes the split tree. */
  lemma CloseNode(a0: seq<Node>, a: seq<Node>, b: seq<Node>, n: nat, h: nat, m: nat, l: Tree, r: Tree)
    requires h > m && n < |a| && |a0| == |a|
    requires Rep(a, LeftOf(n), h - 1, m, l) && Rep(a, RightOf(n), h - 1, m, r)
    requires AgreeOutside(a0, a, n)
    requires b == a[n := Flags(Split(l, r))]
    ensures Rep(b, n, h, m, Split(l, r)) && AgreeOutside(a0, b, n)
  {
    SubSelf(n);
    ChildrenKept(a, b, n, h, m, l, r);
  }

  lemma ChildrenKept(a: seq<Node>, b: seq<Node>, n: nat, h: nat, m: nat, l: Tree, r: Tree)
    requires h > m && n < |a| == |b| && b == a[n := b[n]]
    requires Rep(a, LeftOf(n), h - 1, m, l) && Rep(a, RightOf(n), h - 1, m, r)
    ensures Rep(b, LeftOf(n), h - 1, m, l) && Rep(b, RightOf(n), h - 1, m, r)
  {
    OnlyRootChanged(a, b, n);
    RepFrame(a, b, LeftOf(n), h - 1, m, l);
    RepFrame(a, b, RightOf(n), h - 1, m, r);
  }

  // ------------------------------------------------------- at heap level

  /** The node of height `k` at `o` is an allocated block or, if allowed, a split one. */
  ghost predicate Releasable(t: Tree, s: nat, o: nat, k: nat, allowSplit: bool) {
    && NodeAt(s, o, k) && Open(t, s, o, k)
    && (SubAt(t, s, o, k) == Full || (allowSplit && SubAt(t, s, o, k).Split?))
  }

  lemma {:induction false} ShrBound(x: nat, s: nat, k: nat)
    requires k <= s && x < Pow2(s)
    ensures Shr(x, k) < Pow2(s - k)
    decreases k
  {
    if k > 0 { ShrBound(x / 2, s - 1, k - 1); }
  }

  lemma RootNode(a: seq<Node>, s: nat, m: nat, t: Tree, o: nat, k: nat)
    requires m <= k && NodeAt(s, o, k) && Rep(a, 0, s, m, t)
    ensures Rep(a, NodeIndex(s, o, k), k, m, SubAt(t, s, o, k))
  {
    var z := RootSites(s, o, k);
    NodeFrom(a, s, z, z, s, m, t, o, k, NodeIndex(s, o, k));
  }

  lemma RootUpdate(a: seq<Node>, b: seq<Node>, s: nat, m: nat, t: Tree, o: nat, k: nat, u: Tree)
    requires m <= k && NodeAt(s, o, k) && PathSplit(t, s, o, k) && Rep(a, 0, s, m, t)
    requires AgreeOutside(a, b, NodeIndex(s, o, k)) && Rep(b, NodeIndex(s, o, k), k, m, u) && IsFull(u) == IsFull(SubAt(t, s, o, k))
    ensures Rep(b, 0, s, m, Update(t, s, o, k, u))
  {
    var z := RootSites(s, o, k);
    UpdateFrom(a, b, s, z, z, s, m, t, o, k, NodeIndex(s, o, k), u);
  }

  lemma IndexBound(s: nat, m: nat, o: nat, k: nat)
    requires NodeAt(s, o, k) && m <= k
    ensures NodeIndex(s, o, k) + 1 < Pow2(s - m + 1)
  {
    ShrBound(o, s, k);
    Pow2Monotone(s - k + 1, s - m + 1);
  }

  /** Everything a release needs to know about the node it starts from. */
  lemma Locate(a: seq<Node>, s: nat, m: nat, t: Tree, o: nat, k: nat) returns (c: Context)
    requires Rep(a, 0, s, m, t) && |a| == Pow2(s - m + 1) && m <= k < s
    requires NodeAt(s, o, k) && Open(t, s, o, k) && SubAt(t, s, o, k) != Free
    ensures var n := NodeIndex(s, o, k);
            && n + 1 < |a| && Rep(a, n, k, m, SubAt(t, s, o, k))
            && RepContext(a, n, k, m, s, c)
    ensures !c.Top? && PlugJoin(c, Free) == FreeAt(t, s, o, k)
  {
    IndexBound(s, m, o, k);
    FullNodePath(t, s, o, k);
    RootNode(a, s, m, t, o, k);
    var z := RootAt(s);
    c := Descend(a, s, z, s, m, t, o, k, Top);
  }
}
