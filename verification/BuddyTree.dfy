/**
 The buddy tree of one kmalloc heap, as a value.

 A subtree of height `h` manages 2^h bytes. Offsets are relative to the heap base
 (or, inside a recursion, to the first byte of the subtree).
 */
module BuddyTree {
  import opened Arith

  /** One subtree: all free, one allocated block, or split in two halves. */
  datatype Tree = Free | Full | Split(left: Tree, right: Tree)

  /** A live block: the 2^log bytes starting at `off`. */
  datatype Block = Block(off: nat, log: nat)

  function End(b: Block): nat { b.off + Pow2(b.log) }

  predicate IsFull(t: Tree) {
    t.Full? || (t.Split? && IsFull(t.left) && IsFull(t.right))
  }

  /** No block smaller than 2^m bytes. */
  ghost predicate Fits(t: Tree, h: nat, m: nat) {
    m <= h && (t.Split? ==> h > m && Fits(t.left, h - 1, m) && Fits(t.right, h - 1, m))
  }

  /** Two free halves are always coalesced. */
  ghost predicate Canonical(t: Tree) {
    t.Split? ==> !(t.left.Free? && t.right.Free?) && Canonical(t.left) && Canonical(t.right)
  }

  function Children(t: Tree): (Tree, Tree) {
    if t.Split? then (t.left, t.right) else (Free, Free)
  }

  function Join(l: Tree, r: Tree): Tree {
    if l.Free? && r.Free? then Free else Split(l, r)
  }

  /** The live blocks of `t` when its first byte is at `off`. */
  ghost function Blocks(t: Tree, h: nat, off: nat): set<Block>
    decreases h
  {
    match t
    case Free => {}
    case Full => {Block(off, h)}
    case Split(l, r) =>
      if h == 0 then {} else Blocks(l, h - 1, off) + Blocks(r, h - 1, off + Pow2(h - 1))
  }

  /** Sum of the sizes of the live blocks. */
  ghost function Total(t: Tree, h: nat): nat
    decreases h
  {
    match t
    case Free => 0
    case Full => Pow2(h)
    case Split(l, r) => if h == 0 then 0 else Total(l, h - 1) + Total(r, h - 1)
  }

  /** First-fit search for 2^k bytes; the node found is replaced by `fill`. */
  function Place(t: Tree, h: nat, k: nat, fill: Tree): Option<(nat, Tree)>
    requires k <= h
    decreases h
  {
    if IsFull(t) then None
    else if h == k then
      if t.Split? then None else Some((0, fill))
    else
      var (l, r) := Children(t);
      match Place(l, h - 1, k, fill)
      case Some((o, l')) => Some((o, Split(l', r)))
      case None =>
        match Place(r, h - 1, k, fill)
        case Some((o, r')) => Some((Pow2(h - 1) + o, Split(l, r')))
        case None => None
  }

  function Alloc(t: Tree, h: nat, k: nat): Option<(nat, Tree)>
    requires k <= h
  {
    Place(t, h, k, Full)
  }

  /** Address of a node: an offset aligned to its size. */
  ghost predicate NodeAt(h: nat, o: nat, k: nat) {
    k <= h && o < Pow2(h) && Aligned(o, k)
  }

  /** The subtree of height `k` at offset `o` (all free below an unsplit node). */
  ghost function SubAt(t: Tree, h: nat, o: nat, k: nat): Tree
    decreases h
  {
    if h <= k then t
    else
      var (l, r) := Children(t);
      if o < Pow2(h - 1) then SubAt(l, h - 1, o, k) else SubAt(r, h - 1, o - Pow2(h - 1), k)
  }

  /** Replaces that subtree by `s`, splitting on the way and without coalescing. */
  ghost function Update(t: Tree, h: nat, o: nat, k: nat, s: Tree): Tree
    decreases h
  {
    if h <= k then s
    else
      var (l, r) := Children(t);
      if o < Pow2(h - 1) then Split(Update(l, h - 1, o, k, s), r)
      else Split(l, Update(r, h - 1, o - Pow2(h - 1), k, s))
  }

  /** Releases the subtree of height `k` at offset `o`, coalescing upward. */
  ghost function FreeAt(t: Tree, h: nat, o: nat, k: nat): Tree
    decreases h
  {
    if h <= k || !t.Split? then Free
    else if o < Pow2(h - 1) then Join(FreeAt(t.left, h - 1, o, k), t.right)
    else Join(t.left, FreeAt(t.right, h - 1, o - Pow2(h - 1), k))
  }

  // ---------------------------------------------------------------- geometry

  lemma {:induction false} BlockBounds(t: Tree, h: nat, m: nat, off: nat, b: Block)
    requires Fits(t, h, m) && b in Blocks(t, h, off)
    ensures m <= b.log <= h && off <= b.off && End(b) <= off + Pow2(h)
    ensures Aligned(b.off - off, b.log)
    decreases h
  {
    match t
    case Full => AlignedScale(0, h);
    case Split(l, r) =>
      if b in Blocks(l, h - 1, off) {
        BlockBounds(l, h - 1, m, off, b);
      } else {
        BlockBounds(r, h - 1, m, off + Pow2(h - 1), b);
        AlignedSum(b.off - off - Pow2(h - 1), h - 1, b.log);
      }
  }

  /** Live blocks are pairwise disjoint. */
  lemma {:induction false} BlocksDisjoint(t: Tree, h: nat, m: nat, off: nat, a: Block, b: Block)
    requires Fits(t, h, m) && a in Blocks(t, h, off) && b in Blocks(t, h, off) && a != b
    ensures End(a) <= b.off || End(b) <= a.off
    decreases h
  {
    if t.Split? {
      var mid := off + Pow2(h - 1);
      if a in Blocks(t.left, h - 1, off) {
        BlockBounds(t.left, h - 1, m, off, a);
      } else {
        BlockBounds(t.right, h - 1, m, mid, a);
      }
      if b in Blocks(t.left, h - 1, off) {
        BlockBounds(t.left, h - 1, m, off, b);
        if a in Blocks(t.left, h - 1, off) {
          BlocksDisjoint(t.left, h - 1, m, off, a, b);
        }
      } else {
        BlockBounds(t.right, h - 1, m, mid, b);
        if a in Blocks(t.right, h - 1, mid) {
          BlocksDisjoint(t.right, h - 1, m, mid, a, b);
        }
      }
    }
  }

  /** Two canonical trees with the same live blocks are the same tree. */
  lemma {:induction false} CanonicalUnique(t: Tree, u: Tree, h: nat, m: nat, off: nat)
    requires Fits(t, h, m) && Fits(u, h, m) && Canonical(t) && Canonical(u)
    requires Blocks(t, h, off) == Blocks(u, h, off)
    ensures t == u
    decreases h
  {
    if t.Split? && u.Split? {
      var mid := off + Pow2(h - 1);
      HalvesSplit(t, h, m, off);
      HalvesSplit(u, h, m, off);
      CanonicalUnique(t.left, u.left, h - 1, m, off);
      CanonicalUnique(t.right, u.right, h - 1, m, mid);
    } else if t.Split? {
      SplitShape(t, u, h, m, off);
    } else if u.Split? {
      SplitShape(u, t, h, m, off);
    } else if t.Full? {
      assert Block(off, h) in Blocks(t, h, off);
    }
  }

  /** The blocks of each half are those below, respectively from, the midpoint. */
  lemma HalvesSplit(t: Tree, h: nat, m: nat, off: nat)
    requires Fits(t, h, m) && t.Split?
    ensures Blocks(t.left, h - 1, off) == set b | b in Blocks(t, h, off) && b.off < off + Pow2(h - 1)
    ensures Blocks(t.right, h - 1, off + Pow2(h - 1)) == set b | b in Blocks(t, h, off) && b.off >= off + Pow2(h - 1)
  {
    forall b | b in Blocks(t.left, h - 1, off) ensures b.off < off + Pow2(h - 1) {
      BlockBounds(t.left, h - 1, m, off, b);
    }
    forall b | b in Blocks(t.right, h - 1, off + Pow2(h - 1)) ensures b.off >= off + Pow2(h - 1) {
      BlockBounds(t.right, h - 1, m, off + Pow2(h - 1), b);
    }
  }

  lemma {:induction false} SplitShape(t: Tree, u: Tree, h: nat, m: nat, off: nat)
    requires Fits(t, h, m) && Canonical(t) && t.Split? && !u.Split?
    ensures Blocks(t, h, off) != Blocks(u, h, off)
  {
    var b := SomeBlock(t, h, m, off);
    if b in Blocks(t.left, h - 1, off) {
      BlockBounds(t.left, h - 1, m, off, b);
    } else {
      BlockBounds(t.right, h - 1, m, off + Pow2(h - 1), b);
    }
  }

  /** A canonical tree that is not Free holds a block. */
  lemma {:induction false} SomeBlock(t: Tree, h: nat, m: nat, off: nat) returns (b: Block)
    requires Fits(t, h, m) && Canonical(t) && !t.Free?
    ensures b in Blocks(t, h, off)
    decreases h
  {
    if t.Full? {
      b := Block(off, h);
    } else if !t.left.Free? {
      b := SomeBlock(t.left, h - 1, m, off);
    } else {
      b := SomeBlock(t.right, h - 1, m, off + Pow2(h - 1));
    }
  }

  // ------------------------------------------------- replacing one subtree

  /** No allocated block covers the node of height `k` at `o` from above. */
  ghost predicate Open(t: Tree, h: nat, o: nat, k: nat)
    decreases h
  {
    h <= k || (!t.Full? &&
      (var (l, r) := Children(t);
       if o < Pow2(h - 1) then Open(l, h - 1, o, k) else Open(r, h - 1, o - Pow2(h - 1), k)))
  }

  lemma {:induction false} AlignedGap(o: nat, h: nat, k: nat)
    requires k <= h && o < Pow2(h) && Aligned(o, k)
    ensures o + Pow2(k) <= Pow2(h)
    decreases k
  {
    if k > 0 {
      AlignedGap(o / 2, h - 1, k - 1);
    }
  }

  /** Enters the half of a node of height `h` that holds the node at `o`. */
  lemma NodeHalf(h: nat, o: nat, k: nat)
    requires NodeAt(h, o, k) && k < h
    ensures if o < Pow2(h - 1) then NodeAt(h - 1, o, k) && o + Pow2(k) <= Pow2(h - 1)
            else NodeAt(h - 1, o - Pow2(h - 1), k)
  {
    if o < Pow2(h - 1) {
      AlignedGap(o, h - 1, k);
    } else {
      AlignedSum(o - Pow2(h - 1), h - 1, k);
    }
  }

  lemma {:induction false} UpdateShape(t: Tree, h: nat, m: nat, o: nat, k: nat, s: Tree)
    requires Fits(t, h, m) && NodeAt(h, o, k) && Fits(s, k, m)
    ensures Fits(Update(t, h, o, k, s), h, m)
    ensures Canonical(t) && Canonical(s) && !s.Free? ==>
              Canonical(Update(t, h, o, k, s)) && !Update(t, h, o, k, s).Free?
    decreases h
  {
    if k < h {
      NodeHalf(h, o, k);
      var (l, r) := Children(t);
      if o < Pow2(h - 1) {
        UpdateShape(l, h - 1, m, o, k, s);
      } else {
        UpdateShape(r, h - 1, m, o - Pow2(h - 1), k, s);
      }
    }
  }

  /** The subtree's blocks are replaced by those of `s`, all others stay. */
  lemma {:induction false} UpdateBlocks(t: Tree, h: nat, m: nat, off: nat, o: nat, k: nat, s: Tree)
    requires Fits(t, h, m) && NodeAt(h, o, k) && Fits(s, k, m) && Open(t, h, o, k)
    ensures var s0 := SubAt(t, h, o, k);
            && Fits(s0, k, m) && (Canonical(t) ==> Canonical(s0))
            && Blocks(s0, k, off + o) <= Blocks(t, h, off)
            && Blocks(Update(t, h, o, k, s), h, off)
               == Blocks(t, h, off) - Blocks(s0, k, off + o) + Blocks(s, k, off + o)
            && Total(Update(t, h, o, k, s), h) + Total(s0, k) == Total(t, h) + Total(s, k)
    decreases h
  {
    if k == h {
      AlignedGap(o, h, k);
    } else {
      NodeHalf(h, o, k);
      var (l, r) := Children(t);
      var a, b := Blocks(l, h - 1, off), Blocks(r, h - 1, off + Pow2(h - 1));
      HalvesDisjoint(l, r, h, m, off);
      var x, y := Blocks(SubAt(t, h, o, k), k, off + o), Blocks(s, k, off + o);
      assert Blocks(t, h, off) == a + b;
      if o < Pow2(h - 1) {
        UpdateBlocks(l, h - 1, m, off, o, k, s);
        ReplaceInUnion(a, b, x, y);
      } else {
        assert off + Pow2(h - 1) + (o - Pow2(h - 1)) == off + o;
        UpdateBlocks(r, h - 1, m, off + Pow2(h - 1), o - Pow2(h - 1), k, s);
        ReplaceInUnion(b, a, x, y);
      }
    }
  }

  lemma ReplaceInUnion<T>(a: set<T>, b: set<T>, x: set<T>, y: set<T>)
    requires a !! b && x <= a
    ensures (a - x + y) + b == (a + b) - x + y && b + (a - x + y) == (b + a) - x + y
    ensures (a - x) + b == (a + b) - x && b + (a - x) == (b + a) - x
  {
  }

  lemma HalvesDisjoint(l: Tree, r: Tree, h: nat, m: nat, off: nat)
    requires h > m && Fits(l, h - 1, m) && Fits(r, h - 1, m)
    ensures Blocks(l, h - 1, off) !! Blocks(r, h - 1, off + Pow2(h - 1))
  {
    var a, c := Blocks(l, h - 1, off), Blocks(r, h - 1, off + Pow2(h - 1));
    forall b | b in a ensures b !in c {
      BlockBounds(l, h - 1, m, off, b);
      if b in c {
        BlockBounds(r, h - 1, m, off + Pow2(h - 1), b);
      }
    }
  }

  lemma JoinKeeps(l: Tree, r: Tree, h: nat, m: nat, off: nat)
    requires h > m && Fits(l, h - 1, m) && Fits(r, h - 1, m)
    ensures Fits(Join(l, r), h, m) && (Canonical(l) && Canonical(r) ==> Canonical(Join(l, r)))
    ensures Blocks(Join(l, r), h, off) == Blocks(l, h - 1, off) + Blocks(r, h - 1, off + Pow2(h - 1))
    ensures Total(Join(l, r), h) == Total(l, h - 1) + Total(r, h - 1)
  {
  }

  /** Releasing a subtree drops exactly its blocks and keeps the tree coalesced. */
  lemma {:induction false} FreeBlocks(t: Tree, h: nat, m: nat, off: nat, o: nat, k: nat)
    requires Fits(t, h, m) && m <= k && Canonical(t) && NodeAt(h, o, k) && Open(t, h, o, k)
    ensures var t', s := FreeAt(t, h, o, k), SubAt(t, h, o, k);
            && Fits(t', h, m) && Canonical(t')
            && Blocks(t', h, off) == Blocks(t, h, off) - Blocks(s, k, off + o)
            && Total(t', h) + Total(s, k) == Total(t, h)
    decreases h, 0
  {
    if k == h {
      AlignedGap(o, h, k);
    } else if t.Free? {
      FreeBelow(h, o, k);
    } else {
      NodeHalf(h, o, k);
      var mid := off + Pow2(h - 1);
      HalvesDisjoint(t.left, t.right, h, m, off);
      if o < Pow2(h - 1) {
        FreeInHalf(t.left, h - 1, m, off, o, k, Blocks(t.right, h - 1, mid));
        JoinKeeps(FreeAt(t.left, h - 1, o, k), t.right, h, m, off);
      } else {
        assert mid + (o - Pow2(h - 1)) == off + o;
        FreeInHalf(t.right, h - 1, m, mid, o - Pow2(h - 1), k, Blocks(t.left, h - 1, off));
        JoinKeeps(t.left, FreeAt(t.right, h - 1, o - Pow2(h - 1), k), h, m, off);
      }
    }
  }

  /** The same statement for one half, next to the blocks `b` of the other. */
  lemma {:induction false} FreeInHalf(t: Tree, h: nat, m: nat, off: nat, o: nat, k: nat, b: set<Block>)
    requires Fits(t, h, m) && m <= k && Canonical(t) && NodeAt(h, o, k) && Open(t, h, o, k)
    requires Blocks(t, h, off) !! b
    ensures var t', x := FreeAt(t, h, o, k), Blocks(SubAt(t, h, o, k), k, off + o);
            && Fits(t', h, m) && Canonical(t')
            && Blocks(t', h, off) + b == (Blocks(t, h, off) + b) - x
            && b + Blocks(t', h, off) == (b + Blocks(t, h, off)) - x
            && Total(t', h) + Total(SubAt(t, h, o, k), k) == Total(t, h)
    decreases h, 1
  {
    FreeBlocks(t, h, m, off, o, k);
    UpdateBlocks(t, h, m, off, o, k, Free);
    ReplaceInUnion(Blocks(t, h, off), b, Blocks(SubAt(t, h, o, k), k, off + o), {});
  }

  /** A block is live exactly when its node is an allocated leaf. */
  lemma {:induction false} LiveIsFullNode(t: Tree, h: nat, m: nat, off: nat, o: nat, k: nat)
    requires Fits(t, h, m) && NodeAt(h, o, k) && m <= k
    ensures Block(off + o, k) in Blocks(t, h, off) <==> Open(t, h, o, k) && SubAt(t, h, o, k) == Full
    decreases h
  {
    if k == h {
      AlignedGap(o, h, k);
      if t.Split? {
        var b := Block(off + o, k);
        if b in Blocks(t.left, h - 1, off) {
          BlockBounds(t.left, h - 1, m, off, b);
        } else if b in Blocks(t.right, h - 1, off + Pow2(h - 1)) {
          BlockBounds(t.right, h - 1, m, off + Pow2(h - 1), b);
        }
      }
    } else {
      NodeHalf(h, o, k);
      var (l, r) := Children(t);
      var mid := off + Pow2(h - 1);
      var b := Block(off + o, k);
      if o < Pow2(h - 1) {
        LiveIsFullNode(l, h - 1, m, off, o, k);
        if t.Split? && b in Blocks(r, h - 1, mid) {
          BlockBounds(r, h - 1, m, mid, b);
        }
        assert t.Free? ==> l.Free? && !(SubAt(l, h - 1, o, k) == Full) by {
          if t.Free? { FreeBelow(h - 1, o, k); }
        }
      } else {
        assert mid + (o - Pow2(h - 1)) == off + o;
        LiveIsFullNode(r, h - 1, m, mid, o - Pow2(h - 1), k);
        if t.Split? && b in Blocks(l, h - 1, off) {
          BlockBounds(l, h - 1, m, off, b);
        }
        assert t.Free? ==> r.Free? && !(SubAt(r, h - 1, o - Pow2(h - 1), k) == Full) by {
          if t.Free? { FreeBelow(h - 1, o - Pow2(h - 1), k); }
        }
      }
    }
  }

  lemma {:induction false} FreeBelow(h: nat, o: nat, k: nat)
    ensures SubAt(Free, h, o, k) == Free && Open(Free, h, o, k)
    decreases h
  {
    if k < h {
      FreeBelow(h - 1, if o < Pow2(h - 1) then o else o - Pow2(h - 1), k);
    }
  }

  /** The live blocks that start inside a node's range are those of its subtree. */
  lemma {:induction false} BlocksInRange(t: Tree, h: nat, m: nat, off: nat, o: nat, k: nat, b: Block)
    requires Fits(t, h, m) && NodeAt(h, o, k) && m <= k && Open(t, h, o, k)
    ensures b in Blocks(SubAt(t, h, o, k), k, off + o) <==>
            b in Blocks(t, h, off) && off + o <= b.off < off + o + Pow2(k)
    decreases h
  {
    if k == h {
      AlignedGap(o, h, k);
      if b in Blocks(t, h, off) { BlockBounds(t, h, m, off, b); }
    } else {
      NodeHalf(h, o, k);
      var (l, r) := Children(t);
      var mid := off + Pow2(h - 1);
      assert mid + (o - Pow2(h - 1)) == off + o;
      if o < Pow2(h - 1) {
        BlocksInRange(l, h - 1, m, off, o, k, b);
        if b in Blocks(r, h - 1, mid) { BlockBounds(r, h - 1, m, mid, b); }
      } else {
        BlocksInRange(r, h - 1, m, mid, o - Pow2(h - 1), k, b);
        if b in Blocks(l, h - 1, off) { BlockBounds(l, h - 1, m, off, b); }
      }
    }
  }

  /** Releasing one node leaves a disjoint, not free, node as it was. */
  lemma {:induction false} FreeElsewhere(t: Tree, h: nat, o1: nat, k1: nat, o2: nat, k2: nat)
    requires NodeAt(h, o1, k1) && NodeAt(h, o2, k2) && (o1 + Pow2(k1) <= o2 || o2 + Pow2(k2) <= o1)
    requires Open(t, h, o2, k2) && SubAt(t, h, o2, k2) != Free
    ensures Open(FreeAt(t, h, o1, k1), h, o2, k2) && SubAt(FreeAt(t, h, o1, k1), h, o2, k2) == SubAt(t, h, o2, k2)
    ensures FreeAt(t, h, o1, k1) != Free
    decreases h
  {
    if k1 == h || k2 == h {
      AlignedGap(o1, h, k1);
      AlignedGap(o2, h, k2);
    } else if t.Free? {
      FreeBelow(h, o2, k2);
    } else {
      NodeHalf(h, o1, k1);
      NodeHalf(h, o2, k2);
      var p := Pow2(h - 1);
      if o1 < p && o2 < p {
        FreeElsewhere(t.left, h - 1, o1, k1, o2, k2);
      } else if o1 >= p && o2 >= p {
        FreeElsewhere(t.right, h - 1, o1 - p, k1, o2 - p, k2);
      } else if o2 < p {
        NotFreeAbove(t.left, h - 1, o2, k2);
      } else {
        NotFreeAbove(t.right, h - 1, o2 - p, k2);
      }
    }
  }

  lemma NotFreeAbove(t: Tree, h: nat, o: nat, k: nat)
    requires SubAt(t, h, o, k) != Free
    ensures t != Free
  {
    if t.Free? { FreeBelow(h, o, k); }
  }

  /** Reading back and overwriting an updated subtree. */
  lemma {:induction false} UpdateTwice(t: Tree, h: nat, o: nat, k: nat, u: Tree, v: Tree)
    requires NodeAt(h, o, k)
    ensures SubAt(Update(t, h, o, k, u), h, o, k) == u && Open(Update(t, h, o, k, u), h, o, k)
    ensures Update(Update(t, h, o, k, u), h, o, k, v) == Update(t, h, o, k, v)
    decreases h
  {
    if k < h {
      NodeHalf(h, o, k);
      var (l, r) := Children(t);
      if o < Pow2(h - 1) {
        UpdateTwice(l, h - 1, o, k, u, v);
      } else {
        UpdateTwice(r, h - 1, o - Pow2(h - 1), k, u, v);
      }
    }
  }

  /** A node of a node; it lies in the same half. */
  lemma {:induction false} NodeBelow(h: nat, o: nat, k: nat, p: nat, j: nat)
    requires NodeAt(h, o, k) && NodeAt(k, p, j)
    ensures NodeAt(h, o + p, j) && (k < h ==> (o + p < Pow2(h - 1) <==> o < Pow2(h - 1)))
    decreases h
  {
    if k == h {
      AlignedGap(o, h, k);
    } else {
      NodeHalf(h, o, k);
      if o < Pow2(h - 1) {
        NodeBelow(h - 1, o, k, p, j);
      } else {
        var q := o - Pow2(h - 1);
        NodeBelow(h - 1, q, k, p, j);
        AlignedSum(q + p, h - 1, j);
        assert Pow2(h - 1) + (q + p) == o + p;
      }
    }
  }

  /** A subtree of an updated subtree. */
  lemma {:induction false} SubOfUpdate(t: Tree, h: nat, o: nat, k: nat, u: Tree, p: nat, j: nat)
    requires NodeAt(h, o, k) && NodeAt(k, p, j) && Open(u, k, p, j)
    ensures NodeAt(h, o + p, j)
    ensures Open(Update(t, h, o, k, u), h, o + p, j) && SubAt(Update(t, h, o, k, u), h, o + p, j) == SubAt(u, k, p, j)
    decreases h
  {
    NodeBelow(h, o, k, p, j);
    if k == h {
      AlignedGap(o, h, k);
    } else {
      assert NodeAt(h - 1, if o < Pow2(h - 1) then o else o - Pow2(h - 1), k) by { NodeHalf(h, o, k); }
      var (l, r) := Children(t);
      if o < Pow2(h - 1) {
        SubOfUpdate(l, h - 1, o, k, u, p, j);
      } else {
        SubOfUpdate(r, h - 1, o - Pow2(h - 1), k, u, p, j);
        assert o - Pow2(h - 1) + p == o + p - Pow2(h - 1);
      }
    }
  }

  // ------------------------------------------------------------- allocation

  /** What a successful search does, whatever it fills the node with. */
  lemma {:induction false} PlaceIsUpdate(t: Tree, h: nat, m: nat, k: nat, fill: Tree)
    requires Fits(t, h, m) && m <= k <= h
    ensures Place(t, h, k, fill).Some? <==> Place(t, h, k, Full).Some?
    ensures var p := Place(t, h, k, fill);
            p.Some? ==>
              var (o, t') := p.value;
              && NodeAt(h, o, k) && Open(t, h, o, k) && SubAt(t, h, o, k) == Free
              && t' == Update(t, h, o, k, fill)
              && Place(t, h, k, Full).value.0 == o
    decreases h
  {
    if !IsFull(t) {
      if h == k {
        AlignedScale(0, k);
      } else {
        var (l, r) := Children(t);
        PlaceIsUpdate(l, h - 1, m, k, fill);
        PlaceIsUpdate(r, h - 1, m, k, fill);
        if Place(l, h - 1, k, fill).Some? {
          var o := Place(l, h - 1, k, fill).value.0;
        } else if Place(r, h - 1, k, fill).Some? {
          AlignedSum(Place(r, h - 1, k, fill).value.0, h - 1, k);
        }
      }
    }
  }

  /** No live block meets the 2^k bytes at `o`. */
  ghost predicate RangeFree(t: Tree, h: nat, off: nat, o: nat, k: nat) {
    forall b | b in Blocks(t, h, off) :: End(b) <= off + o || off + o + Pow2(k) <= b.off
  }

  lemma {:induction false} RangeFreeIsFreeNode(t: Tree, h: nat, m: nat, off: nat, o: nat, k: nat)
    requires Fits(t, h, m) && Canonical(t) && m <= k && NodeAt(h, o, k)
    ensures RangeFree(t, h, off, o, k) <==> Open(t, h, o, k) && SubAt(t, h, o, k) == Free
    decreases h
  {
    if k == h {
      AlignedGap(o, h, k);
      if !t.Free? {
        var b := SomeBlock(t, h, m, off);
        BlockBounds(t, h, m, off, b);
      }
    } else if t.Free? {
      FreeBelow(h, o, k);
    } else if t.Full? {
      AlignedGap(o, h, k);
      assert Block(off, h) in Blocks(t, h, off);
    } else {
      NodeHalf(h, o, k);
      var mid := off + Pow2(h - 1);
      if o < Pow2(h - 1) {
        RangeFreeIsFreeNode(t.left, h - 1, m, off, o, k);
        forall b | b in Blocks(t.right, h - 1, mid) ensures off + o + Pow2(k) <= b.off {
          BlockBounds(t.right, h - 1, m, mid, b);
        }
      } else {
        assert mid + (o - Pow2(h - 1)) == off + o;
        RangeFreeIsFreeNode(t.right, h - 1, m, mid, o - Pow2(h - 1), k);
        forall b | b in Blocks(t.left, h - 1, off) ensures End(b) <= off + o {
          BlockBounds(t.left, h - 1, m, off, b);
        }
      }
    }
  }

  lemma {:induction false} FullHasNoFreeNode(t: Tree, h: nat, o: nat, k: nat)
    requires IsFull(t) && Open(t, h, o, k)
    ensures SubAt(t, h, o, k) != Free
    decreases h
  {
    if k < h {
      if o < Pow2(h - 1) {
        FullHasNoFreeNode(t.left, h - 1, o, k);
      } else {
        FullHasNoFreeNode(t.right, h - 1, o - Pow2(h - 1), k);
      }
    }
  }

  /** Every node skipped by the search is unavailable. */
  lemma {:induction false} SearchIsExhaustive(t: Tree, h: nat, k: nat, o: nat)
    requires k <= h && NodeAt(h, o, k) && Open(t, h, o, k) && SubAt(t, h, o, k) == Free
    ensures Alloc(t, h, k).Some? && Alloc(t, h, k).value.0 <= o
    decreases h
  {
    if IsFull(t) {
      FullHasNoFreeNode(t, h, o, k);
    }
    if k < h {
      NodeHalf(h, o, k);
      var (l, r) := Children(t);
      if o < Pow2(h - 1) {
        SearchIsExhaustive(l, h - 1, k, o);
      } else {
        SearchIsExhaustive(r, h - 1, k, o - Pow2(h - 1));
        var p := Place(l, h - 1, k, Full);
        if p.Some? {
          PlaceInside(l, h - 1, k);
        }
      }
    }
  }

  lemma {:induction false} PlaceInside(t: Tree, h: nat, k: nat)
    requires k <= h && Alloc(t, h, k).Some?
    ensures Alloc(t, h, k).value.0 < Pow2(h)
    decreases h
  {
    if k < h {
      var (l, r) := Children(t);
      if Alloc(l, h - 1, k).Some? {
        PlaceInside(l, h - 1, k);
      } else {
        PlaceInside(r, h - 1, k);
      }
    }
  }

  /**
   First fit is complete and picks the lowest address: the search fails exactly when
   no aligned range of that size is free of live blocks.
   */
  lemma FirstFit(t: Tree, h: nat, m: nat, k: nat)
    requires Fits(t, h, m) && Canonical(t) && m <= k <= h
    ensures Alloc(t, h, k).None? <==> forall o | NodeAt(h, o, k) :: !RangeFree(t, h, 0, o, k)
    ensures var p := Alloc(t, h, k);
            p.Some? ==> && NodeAt(h, p.value.0, k) && RangeFree(t, h, 0, p.value.0, k)
                        && forall o | NodeAt(h, o, k) && RangeFree(t, h, 0, o, k) :: p.value.0 <= o
  {
    forall o | NodeAt(h, o, k) && RangeFree(t, h, 0, o, k)
      ensures Alloc(t, h, k).Some? && Alloc(t, h, k).value.0 <= o
    {
      RangeFreeIsFreeNode(t, h, m, 0, o, k);
      SearchIsExhaustive(t, h, k, o);
    }
    PlaceIsUpdate(t, h, m, k, Full);
    if Alloc(t, h, k).Some? {
      RangeFreeIsFreeNode(t, h, m, 0, Alloc(t, h, k).value.0, k);
    }
  }

  /** An allocation adds exactly one live block. */
  lemma AllocBlocks(t: Tree, h: nat, m: nat, k: nat)
    requires Fits(t, h, m) && Canonical(t) && m <= k <= h && Alloc(t, h, k).Some?
    ensures var (o, t') := Alloc(t, h, k).value;
            && Fits(t', h, m) && Canonical(t')
            && Block(o, k) !in Blocks(t, h, 0)
            && Blocks(t', h, 0) == Blocks(t, h, 0) + {Block(o, k)}
            && Total(t', h) == Total(t, h) + Pow2(k)
  {
    PlaceIsUpdate(t, h, m, k, Full);
    var (o, t') := Alloc(t, h, k).value;
    FilledBlocks(t, h, m, o, k);
  }

  /** A free node becomes one block. */
  lemma FilledBlocks(t: Tree, h: nat, m: nat, o: nat, k: nat)
    requires Fits(t, h, m) && Canonical(t) && m <= k <= h && NodeAt(h, o, k) && Open(t, h, o, k) && SubAt(t, h, o, k) == Free
    ensures var t' := Update(t, h, o, k, Full);
            && Fits(t', h, m) && Canonical(t') && Block(o, k) !in Blocks(t, h, 0)
            && Blocks(t', h, 0) == Blocks(t, h, 0) + {Block(o, k)} && Total(t', h) == Total(t, h) + Pow2(k)
  {
    UpdateShape(t, h, m, o, k, Full);
    UpdateBlocks(t, h, m, 0, o, k, Full);
    LiveIsFullNode(t, h, m, 0, o, k);
  }

  /** Allocating a block and freeing it restores the tree exactly. */
  lemma AllocThenFree(t: Tree, h: nat, m: nat, k: nat)
    requires Fits(t, h, m) && Canonical(t) && m <= k <= h && Alloc(t, h, k).Some?
    ensures var (o, t') := Alloc(t, h, k).value; FreeAt(t', h, o, k) == t
  {
    AllocBlocks(t, h, m, k);
    PlaceIsUpdate(t, h, m, k, Full);
    var (o, t') := Alloc(t, h, k).value;
    LiveIsFullNode(t', h, m, 0, o, k);
    FreeBlocks(t', h, m, 0, o, k);
    CanonicalUnique(FreeAt(t', h, o, k), t, h, m, 0);
  }

  // ------------------------------------------------------ counting bytes

  ghost predicate Covered(t: Tree, h: nat, off: nat, x: nat) {
    exists b :: b in Blocks(t, h, off) && b.off <= x < End(b)
  }

  ghost function Interval(lo: nat, n: nat): (s: set<nat>)
    ensures |s| == n && forall x :: x in s <==> lo <= x < lo + n
    decreases n
  {
    if n == 0 then {} else Interval(lo, n - 1) + {lo + n - 1}
  }

  /** The addresses inside some live block. */
  ghost function LiveBytes(t: Tree, h: nat, off: nat): set<nat>
    decreases h
  {
    match t
    case Free => {}
    case Full => Interval(off, Pow2(h))
    case Split(l, r) => if h == 0 then {} else LiveBytes(l, h - 1, off) + LiveBytes(r, h - 1, off + Pow2(h - 1))
  }

  lemma {:induction false} LiveBytesCovered(t: Tree, h: nat, off: nat, x: nat)
    ensures x in LiveBytes(t, h, off) <==> Covered(t, h, off, x)
    decreases h
  {
    if t.Full? {
      FullCovered(h, off, x);
    } else if t.Split? && h > 0 {
      var mid := off + Pow2(h - 1);
      LiveBytesCovered(t.left, h - 1, off, x);
      LiveBytesCovered(t.right, h - 1, mid, x);
      var l, r := LiveBytes(t.left, h - 1, off), LiveBytes(t.right, h - 1, mid);
      assert x in LiveBytes(t, h, off) <==> x in l || x in r;
      CoveredHalves(t, h, off, x);
    }
  }

  lemma FullCovered(h: nat, off: nat, x: nat)
    ensures x in LiveBytes(Full, h, off) <==> off <= x < off + Pow2(h)
    ensures Covered(Full, h, off, x) <==> off <= x < off + Pow2(h)
  {
    var b := Block(off, h);
    assert Blocks(Full, h, off) == {b} && End(b) == off + Pow2(h);
  }

  lemma CoveredHalves(t: Tree, h: nat, off: nat, x: nat)
    requires t.Split? && h > 0
    ensures Covered(t, h, off, x) <==> Covered(t.left, h - 1, off, x) || Covered(t.right, h - 1, off + Pow2(h - 1), x)
  {
    var l, r := Blocks(t.left, h - 1, off), Blocks(t.right, h - 1, off + Pow2(h - 1));
    var all := Blocks(t, h, off);
    assert all == l + r;
    if Covered(t, h, off, x) {
      var b :| b in all && b.off <= x < End(b);
      assert b in l || b in r;
    }
  }

  /** `Total` is the number of addresses inside live blocks. */
  lemma {:induction false} TotalCountsBytes(t: Tree, h: nat, m: nat, off: nat)
    requires Fits(t, h, m)
    ensures |LiveBytes(t, h, off)| == Total(t, h)
    ensures forall x | x in LiveBytes(t, h, off) :: off <= x < off + Pow2(h)
    decreases h
  {
    if t.Split? {
      TotalCountsBytes(t.left, h - 1, m, off);
      TotalCountsBytes(t.right, h - 1, m, off + Pow2(h - 1));
      var l, r := LiveBytes(t.left, h - 1, off), LiveBytes(t.right, h - 1, off + Pow2(h - 1));
      assert l !! r;
      assert |l + r| == |l| + |r|;
    }
  }

  // ------------------------------------------------------------ whole runs

  datatype Request = Kmalloc(log: nat) | Kfree(off: nat, log: nat)

  /** A request is legal when it asks for a block size of the heap, or frees a live non-root block. */
  ghost predicate Legal(t: Tree, h: nat, m: nat, q: Request) {
    match q
    case Kmalloc(k) => m <= k <= h
    case Kfree(o, k) => k < h && Block(o, k) in Blocks(t, h, 0)
  }

  ghost function Step(t: Tree, h: nat, m: nat, q: Request): Tree
    requires Legal(t, h, m, q)
  {
    match q
    case Kmalloc(k) => if Alloc(t, h, k).Some? then Alloc(t, h, k).value.1 else t
    case Kfree(o, k) => FreeAt(t, h, o, k)
  }

  ghost predicate LegalRun(t: Tree, h: nat, m: nat, qs: seq<Request>)
    decreases |qs|
  {
    qs == [] || (Legal(t, h, m, qs[0]) && LegalRun(Step(t, h, m, qs[0]), h, m, qs[1..]))
  }

  ghost function Run(t: Tree, h: nat, m: nat, qs: seq<Request>): Tree
    requires LegalRun(t, h, m, qs)
    decreases |qs|
  {
    if qs == [] then t else Run(Step(t, h, m, qs[0]), h, m, qs[1..])
  }

  /** The live blocks a client has seen: its own record of what it was given and gave back. */
  ghost function Ledger(t: Tree, h: nat, m: nat, qs: seq<Request>, held: set<Block>): set<Block>
    requires LegalRun(t, h, m, qs)
    decreases |qs|
  {
    if qs == [] then held
    else
      var held' := match qs[0]
                   case Kmalloc(k) => if Alloc(t, h, k).Some? then held + {Block(Alloc(t, h, k).value.0, k)} else held
                   case Kfree(o, k) => held - {Block(o, k)};
      Ledger(Step(t, h, m, qs[0]), h, m, qs[1..], held')
  }

  ghost predicate Safe(t: Tree, h: nat, m: nat) {
    && (forall b | b in Blocks(t, h, 0) :: m <= b.log <= h && End(b) <= Pow2(h) && b.off % Pow2(b.log) == 0)
    && (forall a, b | a in Blocks(t, h, 0) && b in Blocks(t, h, 0) && a != b :: End(a) <= b.off || End(b) <= a.off)
  }

  lemma CanonicalIsSafe(t: Tree, h: nat, m: nat)
    requires Fits(t, h, m)
    ensures Safe(t, h, m)
  {
    forall b | b in Blocks(t, h, 0) ensures m <= b.log <= h && End(b) <= Pow2(h) && b.off % Pow2(b.log) == 0 {
      BlockBounds(t, h, m, 0, b);
      ShrIsDivision(b.off, b.log);
    }
    forall a, b | a in Blocks(t, h, 0) && b in Blocks(t, h, 0) && a != b ensures End(a) <= b.off || End(b) <= a.off {
      BlocksDisjoint(t, h, m, 0, a, b);
    }
  }

  lemma LiveNode(t: Tree, h: nat, m: nat, b: Block)
    requires Fits(t, h, m) && b in Blocks(t, h, 0)
    ensures m <= b.log <= h && NodeAt(h, b.off, b.log) && Open(t, h, b.off, b.log) && SubAt(t, h, b.off, b.log) == Full
  {
    BlockBounds(t, h, m, 0, b);
    LiveIsFullNode(t, h, m, 0, b.off, b.log);
  }

  /**
   After any legal run the live blocks are exactly the client's ledger, pairwise disjoint,
   inside the heap, aligned to their size, and the tree is coalesced.
   */
  lemma {:induction false} RunIsSafe(t: Tree, h: nat, m: nat, qs: seq<Request>)
    requires Fits(t, h, m) && Canonical(t) && LegalRun(t, h, m, qs)
    ensures var t' := Run(t, h, m, qs);
            && Fits(t', h, m) && Canonical(t') && Safe(t', h, m)
            && Blocks(t', h, 0) == Ledger(t, h, m, qs, Blocks(t, h, 0))
    decreases |qs|
  {
    if qs == [] {
      CanonicalIsSafe(t, h, m);
    } else {
      match qs[0] {
        case Kmalloc(k) =>
          if Alloc(t, h, k).Some? { AllocBlocks(t, h, m, k); }
        case Kfree(o, k) =>
          LiveNode(t, h, m, Block(o, k));
          FreeBlocks(t, h, m, 0, o, k);
      }
      RunIsSafe(Step(t, h, m, qs[0]), h, m, qs[1..]);
    }
  }
}
