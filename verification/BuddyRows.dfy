/**
 Row-by-row work on the metadata array: pre-splitting a block, clearing a block whatever is
 left in it, and the pieces of a multi-step allocation.
 */
module BuddyRows {
  import opened Arith
  import opened BuddyTree
  import opened BuddyNodes
  import opened BuddySteps

  /** A block of height `h` pre-split into allocated leaves of height `j`. */
  ghost function Leafy(h: nat, j: nat): Tree
    decreases h
  {
    if h <= j then Full else Split(Leafy(h - 1, j), Leafy(h - 1, j))
  }

  lemma {:induction false} LeafyShape(h: nat, j: nat, m: nat)
    requires m <= j <= h
    ensures IsFull(Leafy(h, j)) && Fits(Leafy(h, j), h, m) && Canonical(Leafy(h, j))
    ensures Leafy(h, j) != Free && Total(Leafy(h, j), h) == Pow2(h)
    decreases h
  {
    if h > j {
      LeafyShape(h - 1, j, m);
    }
  }

  /** The live blocks of a pre-split block are all the aligned leaves inside it. */
  lemma {:induction false} LeafyBlocks(h: nat, j: nat, off: nat, b: Block)
    requires j <= h
    ensures b in Blocks(Leafy(h, j), h, off) <==> b.log == j && off <= b.off && NodeAt(h, b.off - off, j)
    decreases h
  {
    if h == j {
      AlignedScale(0, j);
      if b.log == j && off <= b.off && NodeAt(h, b.off - off, j) {
        AlignedGap(b.off - off, h, j);
      }
    } else {
      LeafyBlocks(h - 1, j, off, b);
      LeafyBlocks(h - 1, j, off + Pow2(h - 1), b);
      if off + Pow2(h - 1) <= b.off {
        AlignedSum(b.off - off - Pow2(h - 1), h - 1, j);
        assert b.off - (off + Pow2(h - 1)) == b.off - off - Pow2(h - 1);
      }
    }
  }

  // ------------------------------------------------------------------ rows

  /** First node of the row `d` levels below `n`; the row has 2^d nodes. */
  function RowLo(n: nat, d: nat): nat {
    if d == 0 then n else LeftOf(RowLo(n, d - 1))
  }

  ghost predicate Row(a: seq<Node>, n: nat, d: nat, v: Node) {
    RowLo(n, d) + Pow2(d) <= |a| && forall i | RowLo(n, d) <= i < RowLo(n, d) + Pow2(d) :: a[i] == v
  }

  lemma {:induction false} RowStep(n: nat, d: nat)
    ensures RowLo(n, d + 1) == RowLo(LeftOf(n), d)
    ensures RowLo(RightOf(n), d) == RowLo(LeftOf(n), d) + Pow2(d)
    ensures RowLo(n, d) + Pow2(d) <= RowLo(n, d + 1)
    decreases d
  {
    if d > 0 {
      RowStep(n, d - 1);
    }
  }

  lemma {:induction false} RowOrder(n: nat, d: nat, e: nat)
    requires d < e
    ensures RowLo(n, d) + Pow2(d) <= RowLo(n, e)
    decreases e
  {
    RowStep(n, e - 1);
    if d < e - 1 {
      RowOrder(n, d, e - 1);
    }
  }

  lemma {:induction false} RowInSub(n: nat, d: nat, i: nat)
    requires RowLo(n, d) <= i < RowLo(n, d) + Pow2(d)
    ensures InSub(i, n)
    decreases d
  {
    if d > 0 {
      RowInSub(n, d - 1, (i - 1) / 2);
      InSubSmaller((i - 1) / 2, n);
    }
  }

  lemma RowSplit(a: seq<Node>, n: nat, d: nat, v: Node)
    ensures Row(a, n, d + 1, v) <==> Row(a, LeftOf(n), d, v) && Row(a, RightOf(n), d, v)
  {
    RowStep(n, d);
  }

  /** Flags of the row `d` levels below a pre-split block. */
  function LeafyFlags(h: nat, j: nat, d: nat): Node {
    if h <= j then (if d == 0 then Node(false, true) else CLEAR)
    else if d < h - j then Node(true, true) else if d == h - j then Node(false, true) else CLEAR
  }

  lemma {:induction false} FreeToRow(a: seq<Node>, n: nat, h: nat, m: nat, d: nat)
    requires Rep(a, n, h, m, Free) && d <= h - m
    ensures Row(a, n, d, CLEAR)
    decreases d
  {
    if d > 0 {
      FreeToRow(a, LeftOf(n), h - 1, m, d - 1);
      FreeToRow(a, RightOf(n), h - 1, m, d - 1);
      RowSplit(a, n, d - 1, CLEAR);
    }
  }

  lemma {:induction false} RowsToFree(a: seq<Node>, n: nat, h: nat, m: nat)
    requires m <= h && forall d | 0 <= d <= h - m :: Row(a, n, d, CLEAR)
    ensures Rep(a, n, h, m, Free)
    decreases h
  {
    assert Row(a, n, 0, CLEAR);
    if h > m {
      ClearRowsBelow(a, n, h - m);
      RowsToFree(a, LeftOf(n), h - 1, m);
      RowsToFree(a, RightOf(n), h - 1, m);
    }
  }

  lemma ClearRowsBelow(a: seq<Node>, n: nat, depth: nat)
    requires forall d | 1 <= d <= depth :: Row(a, n, d, CLEAR)
    ensures forall d | 0 <= d < depth :: Row(a, LeftOf(n), d, CLEAR)
    ensures forall d | 0 <= d < depth :: Row(a, RightOf(n), d, CLEAR)
  {
    forall d | 0 <= d < depth ensures Row(a, LeftOf(n), d, CLEAR) && Row(a, RightOf(n), d, CLEAR) {
      assert Row(a, n, d + 1, CLEAR);
      RowSplit(a, n, d, CLEAR);
    }
  }

  /** The rows of a pre-split block, from `n` of height `h` down to the smallest blocks. */
  ghost predicate LeafyRow(a: seq<Node>, n: nat, h: nat, j: nat, d: nat) {
    Row(a, n, d, LeafyFlags(h, j, d))
  }

  lemma {:induction false} LeafyRows(a: seq<Node>, n: nat, h: nat, m: nat, j: nat)
    requires m <= j <= h && forall d | 0 <= d <= h - m :: LeafyRow(a, n, h, j, d)
    ensures Rep(a, n, h, m, Leafy(h, j))
    decreases h
  {
    assert LeafyRow(a, n, h, j, 0);
    if h > j {
      LeafyShape(h - 1, j, m);
      var g, l, r := h - 1, LeftOf(n), RightOf(n);
      forall d | 0 <= d <= g - m ensures LeafyRow(a, l, g, j, d) && LeafyRow(a, r, g, j, d) {
        assert LeafyRow(a, n, h, j, d + 1);
        RowSplit(a, n, d, LeafyFlags(h - 1, j, d));
      }
      LeafyRows(a, LeftOf(n), h - 1, m, j);
      LeafyRows(a, RightOf(n), h - 1, m, j);
    } else if h > m {
      forall d | 1 <= d <= h - m ensures Row(a, n, d, CLEAR) {
        assert LeafyRow(a, n, h, j, d);
      }
      ClearRowsBelow(a, n, h - m);
      RowsToFree(a, LeftOf(n), h - 1, m);
      RowsToFree(a, RightOf(n), h - 1, m);
    }
  }

  /** Writing row `d` leaves the rows above it and everything outside the block as they were. */
  lemma RowKept(a: seq<Node>, b: seq<Node>, c: seq<Node>, n: nat, d: nat)
    requires |b| == |c| && forall i | 0 <= i < |b| && !(RowLo(n, d) <= i < RowLo(n, d) + Pow2(d)) :: c[i] == b[i]
    requires AgreeOutside(a, b, n)
    ensures AgreeOutside(a, c, n)
    ensures forall e, v | 0 <= e < d && Row(b, n, e, v) :: Row(c, n, e, v)
  {
    forall i | 0 <= i < |a| && !InSub(i, n) ensures a[i] == c[i] {
      if RowLo(n, d) <= i < RowLo(n, d) + Pow2(d) { RowInSub(n, d, i); }
    }
    forall e, v | 0 <= e < d && Row(b, n, e, v) ensures Row(c, n, e, v) {
      RowOrder(n, e, d);
    }
  }

  /** The first `d` rows of the block at `n` are pre-split; the rest of `b` is still as in `a`. */
  ghost predicate Painted(a: seq<Node>, b: seq<Node>, n: nat, h: nat, j: nat, d: nat) {
    && AgreeOutside(a, b, n) && (forall e | 0 <= e < d :: LeafyRow(b, n, h, j, e))
    && forall i | RowLo(n, d) <= i < |b| :: b[i] == a[i]
  }

  lemma PaintRow(a: seq<Node>, b: seq<Node>, c: seq<Node>, n: nat, h: nat, j: nat, d: nat)
    requires Painted(a, b, n, h, j, d) && RowLo(n, d) + Pow2(d) <= |b| == |c|
    requires forall i | 0 <= i < |b| ::
               c[i] == if RowLo(n, d) <= i < RowLo(n, d) + Pow2(d) then LeafyFlags(h, j, d) else b[i]
    ensures Painted(a, c, n, h, j, d + 1)
  {
    RowKept(a, b, c, n, d);
    RowStep(n, d);
    forall e | 0 <= e < d + 1 ensures LeafyRow(c, n, h, j, e) {
      if e < d { assert LeafyRow(b, n, h, j, e); }
    }
  }

  lemma RowRoom(a: seq<Node>, n: nat, h: nat, m: nat, t: Tree, d: nat)
    requires Rep(a, n, h, m, t) && d <= h - m
    ensures RowLo(n, d) + Pow2(d) <= |a|
  {
    CountBottom(a, n, h, m, t);
    if d < h - m { RowOrder(n, d, h - m); }
  }

  lemma PaintedAll(a: seq<Node>, b: seq<Node>, n: nat, h: nat, m: nat, j: nat)
    requires m <= j <= h && Rep(a, n, h, m, Full) && Painted(a, b, n, h, j, h - j + 1)
    ensures Rep(b, n, h, m, Leafy(h, j))
  {
    forall d | 0 <= d <= h - m ensures LeafyRow(b, n, h, j, d) {
      if d > h - j {
        FreeToRow(a, LeftOf(n), h - 1, m, d - 1);
        FreeToRow(a, RightOf(n), h - 1, m, d - 1);
        RowSplit(a, n, d - 1, CLEAR);
        if d > h - j + 1 { RowOrder(n, h - j + 1, d); }
      }
    }
    LeafyRows(b, n, h, m, j);
  }

  /** The first `d` rows of the block at `n` are clear; the rest of `b` is still as in `a`. */
  ghost predicate Cleared(a: seq<Node>, b: seq<Node>, n: nat, d: nat) {
    && AgreeOutside(a, b, n) && (forall e | 0 <= e < d :: Row(b, n, e, CLEAR))
    && forall i | RowLo(n, d) <= i < |b| :: b[i] == a[i]
  }

  lemma ClearRow(a: seq<Node>, b: seq<Node>, c: seq<Node>, n: nat, d: nat)
    requires Cleared(a, b, n, d) && RowLo(n, d) + Pow2(d) <= |b| == |c|
    requires forall i | 0 <= i < |b| :: c[i] == if RowLo(n, d) <= i < RowLo(n, d) + Pow2(d) then CLEAR else b[i]
    ensures Cleared(a, c, n, d + 1)
  {
    RowKept(a, b, c, n, d);
    RowStep(n, d);
    forall e | 0 <= e < d + 1 ensures Row(c, n, e, CLEAR) {
      if e < d { assert Row(b, n, e, CLEAR); }
    }
  }

  // --------------------------------------------- counting what is already free

  /** Number of allocated blocks of the smallest size. */
  ghost function MinBlocks(t: Tree, h: nat, m: nat): nat
    decreases h
  {
    match t
    case Free => 0
    case Full => if h == m then 1 else 0
    case Split(l, r) => if h <= m then 0 else MinBlocks(l, h - 1, m) + MinBlocks(r, h - 1, m)
  }

  ghost function CountClear(a: seq<Node>, lo: nat, cnt: nat): nat
    requires lo + cnt <= |a|
    decreases cnt
  {
    if cnt == 0 then 0 else CountClear(a, lo, cnt - 1) + (if IsFreeNode(a[lo + cnt - 1]) then 1 else 0)
  }

  lemma {:induction false} CountConcat(a: seq<Node>, lo: nat, c1: nat, c2: nat)
    requires lo + c1 + c2 <= |a|
    ensures CountClear(a, lo, c1 + c2) == CountClear(a, lo, c1) + CountClear(a, lo + c1, c2)
    decreases c2
  {
    if c2 > 0 {
      CountConcat(a, lo, c1, c2 - 1);
    }
  }

  lemma {:induction false} CountSame(a: seq<Node>, b: seq<Node>, lo: nat, cnt: nat)
    requires lo + cnt <= |a| == |b| && forall i | lo <= i < lo + cnt :: a[i] == b[i]
    ensures CountClear(a, lo, cnt) == CountClear(b, lo, cnt)
    decreases cnt
  {
    if cnt > 0 {
      CountSame(a, b, lo, cnt - 1);
    }
  }

  /** The clear nodes of the bottom row are those not allocated as smallest blocks. */
  lemma {:induction false} CountBottom(a: seq<Node>, n: nat, h: nat, m: nat, t: Tree)
    requires Rep(a, n, h, m, t)
    ensures RowLo(n, h - m) + Pow2(h - m) <= |a|
    ensures CountClear(a, RowLo(n, h - m), Pow2(h - m)) + MinBlocks(t, h, m) == Pow2(h - m)
    decreases h
  {
    if h == m {
      assert CountClear(a, n, 1) == CountClear(a, n, 0) + (if IsFreeNode(a[n]) then 1 else 0);
    } else {
      CountBottom(a, LeftOf(n), h - 1, m, Children(t).0);
      CountBottom(a, RightOf(n), h - 1, m, Children(t).1);
      CountHalves(a, n, h - 1 - m);
      MinHalves(t, h, m);
    }
  }

  lemma CountHalves(a: seq<Node>, n: nat, d: nat)
    requires RowLo(LeftOf(n), d) + Pow2(d) <= |a| && RowLo(RightOf(n), d) + Pow2(d) <= |a|
    ensures RowLo(n, d + 1) + Pow2(d + 1) <= |a|
    ensures CountClear(a, RowLo(n, d + 1), Pow2(d + 1)) ==
            CountClear(a, RowLo(LeftOf(n), d), Pow2(d)) + CountClear(a, RowLo(RightOf(n), d), Pow2(d))
  {
    RowStep(n, d);
    CountConcat(a, RowLo(n, d + 1), Pow2(d), Pow2(d));
  }

  lemma MinHalves(t: Tree, h: nat, m: nat)
    requires h > m
    ensures MinBlocks(t, h, m) == MinBlocks(Children(t).0, h - 1, m) + MinBlocks(Children(t).1, h - 1, m)
  {
  }

  lemma BottomBytes(x: nat, y: nat, k: nat, m: nat)
    requires m <= k && x + y == Pow2(k - m)
    ensures x * Pow2(m) + y * Pow2(m) == Pow2(k)
  {
    Pow2Add(k - m, m);
    Distribute(Pow2(k - m), y, Pow2(m));
  }

  /** All live blocks have the smallest size. */
  ghost predicate SmallOnly(t: Tree, h: nat, m: nat, off: nat) {
    forall b | b in Blocks(t, h, off) :: b.log == m
  }

  /** Counting smallest blocks measures the allocated bytes exactly when there are no others. */
  lemma {:induction false} MinBlocksExact(t: Tree, h: nat, m: nat, off: nat)
    requires Fits(t, h, m)
    ensures MinBlocks(t, h, m) * Pow2(m) <= Total(t, h)
    ensures MinBlocks(t, h, m) * Pow2(m) == Total(t, h) <==> SmallOnly(t, h, m, off)
    decreases h
  {
    if t.Full? {
      assert Block(off, h) in Blocks(t, h, off);
      if h > m { Pow2Monotone(m, h); }
    } else if t.Split? {
      MinBlocksExact(t.left, h - 1, m, off);
      MinBlocksExact(t.right, h - 1, m, off + Pow2(h - 1));
      var x, y := MinBlocks(t.left, h - 1, m), MinBlocks(t.right, h - 1, m);
      assert (x + y) * Pow2(m) == x * Pow2(m) + y * Pow2(m);
      assert SmallOnly(t, h, m, off) <==>
        SmallOnly(t.left, h - 1, m, off) && SmallOnly(t.right, h - 1, m, off + Pow2(h - 1));
    }
  }

  // ------------------------------------------------- multi-step allocations

  predicate Bit(x: nat, i: nat) { Shr(x, i) % 2 == 1 }

  /** `x` with its `i` low bits cleared. */
  function High(x: nat, i: nat): nat
    decreases i
  {
    if i == 0 then x else 2 * High(x / 2, i - 1)
  }

  lemma HighStep(x: nat, i: nat)
    ensures High(x, i) == High(x, i + 1) + (if Bit(x, i) then Pow2(i) else 0)
    ensures Aligned(High(x, i), i) && High(x, i) <= x
  {
    HighBit(x, i);
    HighAligned(x, i);
  }

  lemma {:induction false} HighBit(x: nat, i: nat)
    ensures High(x, i) == High(x, i + 1) + (if Bit(x, i) then Pow2(i) else 0)
    decreases i
  {
    if i > 0 {
      HighBit(x / 2, i - 1);
    }
  }

  lemma {:induction false} HighAligned(x: nat, i: nat)
    ensures Aligned(High(x, i), i) && High(x, i) <= x
    decreases i
  {
    if i > 0 {
      HighAligned(x / 2, i - 1);
    }
  }

  lemma {:induction false} HighEnds(x: nat, i: nat)
    ensures x < Pow2(i) ==> High(x, i) == 0
    ensures Aligned(x, i) <==> High(x, i) == x
    decreases i
  {
    if i > 0 {
      HighEnds(x / 2, i - 1);
    }
  }

  /** Every piece of a multi-step allocation is at least a smallest block iff the size is a multiple of it. */
  lemma {:induction false} PiecesFitIffMultiple(x: nat, m: nat)
    ensures (forall i: nat | i < m :: !Bit(x, i)) <==> Aligned(x, m)
    decreases m
  {
    if m > 0 {
      PiecesFitIffMultiple(x / 2, m - 1);
      forall i: nat | i < m - 1 ensures Bit(x / 2, i) == Bit(x, i + 1) {
      }
      if Aligned(x, m) {
        forall i: nat | i < m ensures !Bit(x, i) {
          if i > 0 { assert !Bit(x / 2, i - 1); }
        }
      }
      if forall i: nat | i < m :: !Bit(x, i) {
        assert !Bit(x, 0);
        forall i: nat | i < m - 1 ensures !Bit(x / 2, i) {
          assert !Bit(x, i + 1);
        }
      }
    }
  }

  /** One piece of height `i`: a plain block, or one pre-split to leaves of height `leaf`. */
  ghost function Piece(i: nat, leaf: Option<nat>): Tree {
    if leaf.Some? then Leafy(i, leaf.value) else Full
  }

  /** A block of height `h` whose first `x` bytes are allocated in descending powers of two. */
  ghost function Prefix(h: nat, x: nat, leaf: Option<nat>): Tree
    decreases h
  {
    if x == 0 then Free
    else if h == 0 || x >= Pow2(h) then Piece(h, leaf)
    else if x >= Pow2(h - 1) then Split(Piece(h - 1, leaf), Prefix(h - 1, x - Pow2(h - 1), leaf))
    else Split(Prefix(h - 1, x, leaf), Free)
  }

  ghost predicate LeafFits(leaf: Option<nat>, m: nat, i: nat) {
    leaf.Some? ==> m <= leaf.value <= i
  }

  lemma PieceShape(i: nat, leaf: Option<nat>, m: nat)
    requires m <= i && LeafFits(leaf, m, i)
    ensures var p := Piece(i, leaf);
            IsFull(p) && Fits(p, i, m) && Canonical(p) && p != Free && Total(p, i) == Pow2(i)
  {
    if leaf.Some? { LeafyShape(i, leaf.value, m); }
  }

  /** Smallest height a piece of `x` bytes can have. */
  ghost function LeafLog(leaf: Option<nat>, m: nat): nat {
    if leaf.Some? then leaf.value else m
  }

  lemma PrefixShape(h: nat, x: nat, leaf: Option<nat>, m: nat)
    requires m <= LeafLog(leaf, m) <= h && x < Pow2(h) && Aligned(x, LeafLog(leaf, m))
    ensures var p := Prefix(h, x, leaf);
            !IsFull(p) && Fits(p, h, m) && Canonical(p) && Total(p, h) == x && (x > 0 ==> p != Free)
  {
    PrefixFits(h, x, leaf, m);
    PrefixTotal(h, x, leaf, m);
  }

  lemma {:induction false} PrefixFits(h: nat, x: nat, leaf: Option<nat>, m: nat)
    requires m <= LeafLog(leaf, m) <= h && x < Pow2(h) && Aligned(x, LeafLog(leaf, m))
    ensures var p := Prefix(h, x, leaf); Fits(p, h, m) && Canonical(p) && (x > 0 ==> p != Free)
    decreases h
  {
    if x > 0 {
      var j := LeafLog(leaf, m);
      if h == j {
        AlignedGap(x, h, j);
      } else if x >= Pow2(h - 1) {
        PieceShape(h - 1, leaf, m);
        AlignedSum(x - Pow2(h - 1), h - 1, j);
        PrefixFits(h - 1, x - Pow2(h - 1), leaf, m);
      } else {
        PrefixFits(h - 1, x, leaf, m);
      }
    }
  }

  lemma {:induction false} PrefixTotal(h: nat, x: nat, leaf: Option<nat>, m: nat)
    requires m <= LeafLog(leaf, m) <= h && x < Pow2(h) && Aligned(x, LeafLog(leaf, m))
    ensures var p := Prefix(h, x, leaf); !IsFull(p) && Total(p, h) == x
    decreases h
  {
    if x > 0 {
      var j := LeafLog(leaf, m);
      if h == j {
        AlignedGap(x, h, j);
      } else if x >= Pow2(h - 1) {
        PieceShape(h - 1, leaf, m);
        AlignedSum(x - Pow2(h - 1), h - 1, j);
        PrefixTotal(h - 1, x - Pow2(h - 1), leaf, m);
      } else {
        PrefixTotal(h - 1, x, leaf, m);
      }
    }
  }

  /**
   The search for the next, smaller, power of two below a partly used big block lands exactly
   behind the bytes already used.
   */
  lemma {:induction false} PrefixSearch(h: nat, tot: nat, i: nat, leaf: Option<nat>, m: nat)
    requires m <= LeafLog(leaf, m) <= i < h && tot < Pow2(h) && Aligned(tot, i + 1)
    ensures Place(Prefix(h, tot, leaf), h, i, Full).Some?
    ensures Place(Prefix(h, tot, leaf), h, i, Full).value.0 == tot
    decreases h
  {
    AlignedWeaken(tot, i + 1, LeafLog(leaf, m));
    PrefixShape(h, tot, leaf, m);
    if i == h - 1 {
      AlignedGap(tot, h, h);
      assert tot == 0;
      FreeHasRoom(h - 1, i, Full);
    } else if tot >= Pow2(h - 1) {
      PieceShape(h - 1, leaf, m);
      AlignedSum(tot - Pow2(h - 1), h - 1, i + 1);
      PrefixSearch(h - 1, tot - Pow2(h - 1), i, leaf, m);
      assert Place(Piece(h - 1, leaf), h - 1, i, Full).None?;
    } else {
      PrefixSearch(h - 1, tot, i, leaf, m);
    }
  }

  /** Filling that place extends the used bytes by one piece. */
  lemma {:induction false} PrefixExtend(h: nat, tot: nat, i: nat, leaf: Option<nat>)
    requires i < h && tot < Pow2(h) && Aligned(tot, i + 1)
    ensures NodeAt(h, tot, i) && tot + Pow2(i) < Pow2(h)
    ensures Update(Prefix(h, tot, leaf), h, tot, i, Piece(i, leaf)) == Prefix(h, tot + Pow2(i), leaf)
    decreases h
  {
    PrefixRoom(h, tot, i);
    if i == h - 1 {
      AlignedGap(tot, h, h);
      PrefixFirst(h, leaf);
    } else if tot >= Pow2(h - 1) {
      AlignedSum(tot - Pow2(h - 1), h - 1, i + 1);
      PrefixExtend(h - 1, tot - Pow2(h - 1), i, leaf);
    } else {
      PrefixExtend(h - 1, tot, i, leaf);
    }
  }

  lemma PrefixRoom(h: nat, tot: nat, i: nat)
    requires i < h && tot < Pow2(h) && Aligned(tot, i + 1)
    ensures NodeAt(h, tot, i) && tot + Pow2(i) < Pow2(h)
  {
    AlignedGap(tot, h, i + 1);
    ShrStep(tot, i + 1);
  }

  /** The first piece fills the left half. */
  lemma PrefixFirst(h: nat, leaf: Option<nat>)
    requires h > 0
    ensures Update(Prefix(h, 0, leaf), h, 0, h - 1, Piece(h - 1, leaf)) == Prefix(h, Pow2(h - 1), leaf)
  {
    var half := h - 1;
    assert Update(Free, h, 0, half, Piece(half, leaf)) == Split(Piece(half, leaf), Free);
    assert Prefix(half, 0, leaf) == Free && Pow2(half) - Pow2(half) == 0;
  }

  lemma {:induction false} AlignedWeaken(x: nat, i: nat, j: nat)
    requires Aligned(x, i) && j <= i
    ensures Aligned(x, j)
    decreases j
  {
    if j > 0 {
      AlignedWeaken(x / 2, i - 1, j - 1);
    }
  }

  /** Each piece is found again at its own address. */
  lemma {:induction false} PrefixPiece(h: nat, x: nat, i: nat, leaf: Option<nat>)
    requires i < h && x < Pow2(h) && Bit(x, i)
    ensures NodeAt(h, High(x, i + 1), i)
    ensures Open(Prefix(h, x, leaf), h, High(x, i + 1), i) && SubAt(Prefix(h, x, leaf), h, High(x, i + 1), i) == Piece(i, leaf)
    decreases h
  {
    PieceNode(h, x, i);
    if i == h - 1 {
      HighEnds(x, h);
      BitTop(x, i);
    } else if x >= Pow2(h - 1) {
      HighSub(x, h - 1, i);
      PrefixPiece(h - 1, x - Pow2(h - 1), i, leaf);
    } else {
      HighTop(x, h - 1, i + 1);
      PrefixPiece(h - 1, x, i, leaf);
    }
  }

  lemma PieceNode(h: nat, x: nat, i: nat)
    requires i < h && x < Pow2(h) && Bit(x, i)
    ensures NodeAt(h, High(x, i + 1), i)
  {
    HighStep(x, i);
    HighStep(x, i + 1);
    ShrStep(High(x, i + 1), i + 1);
    HighEnds(x, i);
    HighTop(x, h, i + 1);
  }

  lemma {:induction false} BitTop(x: nat, i: nat)
    requires x < Pow2(i + 1)
    ensures Bit(x, i) <==> x >= Pow2(i)
    decreases i
  {
    if i > 0 {
      BitTop(x / 2, i - 1);
    }
  }

  lemma {:induction false} HighTop(x: nat, h: nat, i: nat)
    requires i <= h
    ensures x < Pow2(h) ==> High(x, i) < Pow2(h)
    decreases i
  {
    if i > 0 {
      HighTop(x / 2, h - 1, i - 1);
    }
  }

  /** Dropping the top bit drops it from the high part and leaves the lower bits alone. */
  lemma {:induction false} HighSub(x: nat, h: nat, i: nat)
    requires i < h && Pow2(h) <= x < 2 * Pow2(h)
    ensures High(x, i + 1) == Pow2(h) + High(x - Pow2(h), i + 1)
    ensures Bit(x, i) == Bit(x - Pow2(h), i)
    decreases i
  {
    assert (x - Pow2(h)) / 2 == x / 2 - Pow2(h - 1);
    assert (x - Pow2(h)) % 2 == x % 2;
    if i > 0 {
      HighSub(x / 2, h - 1, i - 1);
    }
  }

  /** The pieces cover the first `x` bytes and nothing else. */
  lemma {:induction false} PrefixCovers(h: nat, x: nat, leaf: Option<nat>, m: nat, off: nat, addr: nat)
    requires m <= LeafLog(leaf, m) <= h && x <= Pow2(h) && Aligned(x, LeafLog(leaf, m))
    ensures (exists b :: b in Blocks(Prefix(h, x, leaf), h, off) && b.off <= addr < End(b)) <==> off <= addr < off + x
    decreases h
  {
    if x > 0 {
      if x == Pow2(h) {
        PieceCovers(h, leaf, m, off, addr);
      } else {
        var j := LeafLog(leaf, m);
        if h == j {
          AlignedGap(x, h, j);
        } else {
          var t := Prefix(h, x, leaf);
          var l, r := Blocks(t.left, h - 1, off), Blocks(t.right, h - 1, off + Pow2(h - 1));
          assert Blocks(t, h, off) == l + r;
          if x >= Pow2(h - 1) {
            PieceCovers(h - 1, leaf, m, off, addr);
            AlignedSum(x - Pow2(h - 1), h - 1, j);
            PrefixCovers(h - 1, x - Pow2(h - 1), leaf, m, off + Pow2(h - 1), addr);
          } else {
            PrefixCovers(h - 1, x, leaf, m, off, addr);
          }
        }
      }
    }
  }

  lemma {:induction false} PieceCovers(h: nat, leaf: Option<nat>, m: nat, off: nat, addr: nat)
    requires m <= LeafLog(leaf, m) <= h
    ensures (exists b :: b in Blocks(Piece(h, leaf), h, off) && b.off <= addr < End(b)) <==> off <= addr < off + Pow2(h)
    decreases h
  {
    var t := Piece(h, leaf);
    if t.Full? {
      assert Block(off, h) in Blocks(t, h, off);
    } else {
      PieceCovers(h - 1, leaf, m, off, addr);
      PieceCovers(h - 1, leaf, m, off + Pow2(h - 1), addr);
      var l, r := Blocks(t.left, h - 1, off), Blocks(t.right, h - 1, off + Pow2(h - 1));
      assert Blocks(t, h, off) == l + r;
    }
  }

  // ---------------------------------------------------- sizes of requests

  /** Smallest k with size <= 2^k. */
  function CeilLog(size: nat): (k: nat)
    ensures size <= Pow2(k) && (k > 0 ==> Pow2(k - 1) < size)
  {
    if size <= 1 then 0 else 1 + CeilLog((size + 1) / 2)
  }

  /** Height of the block that serves a request of `size` bytes. */
  function RoundLog(size: nat, m: nat): (k: nat)
    ensures k >= m && size <= Pow2(k) && (k > m ==> Pow2(k - 1) < size)
  {
    if CeilLog(size) >= m then CeilLog(size) else Pow2Monotone(CeilLog(size), m); m
  }

  lemma RoundLogBound(size: nat, m: nat, s: nat)
    requires m <= s && size <= Pow2(s)
    ensures RoundLog(size, m) <= s
  {
    var k := RoundLog(size, m);
    if k > s { Pow2Monotone(s, k - 1); }
  }

  /** A request the multi-step branch serves: a multiple of the (sub-)block size not close to a power of two. */
  ghost predicate MultiStepSize(size: nat, leaf: Option<nat>, m: nat) {
    && 0 < size && m <= LeafLog(leaf, m) && Aligned(size, LeafLog(leaf, m))
    && Pow2(RoundLog(size, m)) - size >= Pow2(m)
  }

  /** The bits of a multi-step size lie between the leaf size and the big block. */
  lemma BitRange(size: nat, i: nat, k: nat, j: nat)
    requires Bit(size, i) && size < Pow2(k) && Aligned(size, j)
    ensures j <= i < k && Aligned(High(size, i + 1), i + 1) && High(size, i + 1) < Pow2(k)
  {
    PiecesFitIffMultiple(size, j);
    HighStep(size, i);
    HighStep(size, i + 1);
    if i >= k {
      Pow2Monotone(k, i);
      HighEnds(size, i);
    }
  }

  lemma AlignedBig(x: nat, j: nat, k: nat)
    requires 0 < x < Pow2(k) && Aligned(x, j)
    ensures j <= k
  {
    if j > k {
      Pow2Monotone(k, j);
      HighEnds(x, j);
    }
  }

  lemma {:induction false} UpdatePath(t: Tree, h: nat, o: nat, k: nat, u: Tree)
    requires NodeAt(h, o, k)
    ensures PathSplit(Update(t, h, o, k, u), h, o, k)
    decreases h
  {
    if k < h {
      NodeHalf(h, o, k);
      var (l, r) := Children(t);
      if o < Pow2(h - 1) {
        UpdatePath(l, h - 1, o, k, u);
      } else {
        UpdatePath(r, h - 1, o - Pow2(h - 1), k, u);
      }
    }
  }

  ghost predicate FreeNodeAt(t: Tree, h: nat, o: nat, k: nat) {
    NodeAt(h, o, k) && Open(t, h, o, k) && SubAt(t, h, o, k) == Free
  }

  /** Outcome of a search from the root that leaves `fill` in the block found. */
  ghost predicate FoundFromRoot(a: seq<Node>, b: seq<Node>, s: nat, m: nat, t: Tree, k: nat, fill: Tree, off: Option<int>)
    requires k <= s
  {
    if Alloc(t, s, k).None? then off == None && b == a
    else
      var o := Alloc(t, s, k).value.0;
      off == Some(o) && FreeNodeAt(t, s, o, k) && Rep(b, 0, s, m, Update(t, s, o, k, fill))
  }

  lemma SearchedFromRoot(a: seq<Node>, b: seq<Node>, s: nat, m: nat, t: Tree, k: nat, fill: Tree, off: Option<int>)
    requires Fits(t, s, m) && m <= k <= s && Searched(a, b, 0, s, m, t, k, fill, off)
    ensures FoundFromRoot(a, b, s, m, t, k, fill, off)
  {
    PlaceIsUpdate(t, s, m, k, fill);
  }

  /** A search that only looks leaves the flags alone iff it fails or finds a block below split nodes only. */
  lemma LookingKeeps(a: seq<Node>, b: seq<Node>, s: nat, m: nat, t: Tree, k: nat, off: Option<int>)
    requires m <= k <= s && |a| == |b| == Pow2(s - m + 1) && Rep(a, 0, s, m, t)
    requires FoundFromRoot(a, b, s, m, t, k, Free, off)
    ensures a[..|a| - 1] == b[..|b| - 1] <==> off.None? || PathSplit(t, s, off.value, k)
  {
    if off.Some? {
      var u := Update(t, s, off.value, k, Free);
      LocatedSame(t, s, off.value, k);
      if u == t { RepUnique(a, b, s, m, t); }
      if a[..|a| - 1] == b[..|b| - 1] { RepInjective(a, b, 0, s, m, s, t, u); }
    }
  }

  /** From tree `t` to `t'`: the first-fit block of height `k`, if any, became `p`. */
  ghost predicate Allocated(t: Tree, t': Tree, h: nat, k: nat, p: Tree, off: Option<int>)
    requires k <= h
  {
    match Alloc(t, h, k)
    case None => off == None && t' == t
    case Some((o, _)) =>
      off == Some(o) && t' == Update(t, h, o, k, p) && Blocks(t', h, 0) == Blocks(t, h, 0) + Blocks(p, k, o)
  }

  /** The node just updated describes the new subtree. */
  lemma EnterUpdate(a: seq<Node>, s: nat, m: nat, t: Tree, o: nat, k: nat, u: Tree)
    requires m <= k && NodeAt(s, o, k) && Rep(a, 0, s, m, Update(t, s, o, k, u))
    ensures Rep(a, NodeIndex(s, o, k), k, m, u)
  {
    var t' := Update(t, s, o, k, u);
    assert SubAt(t', s, o, k) == u by { UpdateTwice(t, s, o, k, u, u); }
    RootNode(a, s, m, t', o, k);
  }

  /** Working inside that node amounts to a different update. */
  lemma LeaveUpdate(a: seq<Node>, b: seq<Node>, s: nat, m: nat, t: Tree, o: nat, k: nat, u: Tree, v: Tree)
    requires m <= k && NodeAt(s, o, k) && Rep(a, 0, s, m, Update(t, s, o, k, u))
    requires AgreeOutside(a, b, NodeIndex(s, o, k)) && Rep(b, NodeIndex(s, o, k), k, m, v) && IsFull(u) == IsFull(v)
    ensures Rep(b, 0, s, m, Update(t, s, o, k, v))
  {
    UpdateTwice(t, s, o, k, u, v);
    UpdatePath(t, s, o, k, u);
    RootUpdate(a, b, s, m, Update(t, s, o, k, u), o, k, v);
  }

  lemma PutPiece(t: Tree, h: nat, m: nat, o: nat, k: nat, p: Tree, leaf: Option<nat>)
    requires Fits(t, h, m) && Canonical(t) && m <= k && FreeNodeAt(t, h, o, k)
    requires LeafFits(leaf, m, k) && p == Piece(k, leaf)
    ensures var t' := Update(t, h, o, k, p);
            && Fits(t', h, m) && Canonical(t') && Blocks(t', h, 0) == Blocks(t, h, 0) + Blocks(p, k, o)
            && Total(t', h) == Total(t, h) + Pow2(k)
  {
    PieceShape(k, leaf, m);
    UpdateShape(t, h, m, o, k, p);
    UpdateBlocks(t, h, m, 0, o, k, p);
  }

  lemma PutPrefix(t: Tree, h: nat, m: nat, o: nat, k: nat, size: nat, leaf: Option<nat>)
    requires Fits(t, h, m) && Canonical(t) && FreeNodeAt(t, h, o, k)
    requires m <= LeafLog(leaf, m) <= k && 0 < size < Pow2(k) && Aligned(size, LeafLog(leaf, m))
    ensures var t' := Update(t, h, o, k, Prefix(k, size, leaf));
            && Fits(t', h, m) && Canonical(t') && Blocks(t', h, 0) == Blocks(t, h, 0) + Blocks(Prefix(k, size, leaf), k, o)
            && Total(t', h) == Total(t, h) + size
  {
    PrefixShape(k, size, leaf, m);
    UpdateShape(t, h, m, o, k, Prefix(k, size, leaf));
    UpdateBlocks(t, h, m, 0, o, k, Prefix(k, size, leaf));
  }

  ghost predicate RequestFits(size: nat, multiStep: bool, leaf: Option<nat>, m: nat) {
    if !multiStep || Pow2(RoundLog(size, m)) - size < Pow2(m) then LeafFits(leaf, m, RoundLog(size, m))
    else MultiStepSize(size, leaf, m)
  }

  /** What a request leaves in the block that serves it. */
  ghost function RequestTree(size: nat, multiStep: bool, leaf: Option<nat>, m: nat): Tree {
    var k := RoundLog(size, m);
    if !multiStep || Pow2(k) - size < Pow2(m) then Piece(k, leaf) else Prefix(k, size, leaf)
  }

  function RequestBytes(size: nat, multiStep: bool, m: nat): nat {
    var k := RoundLog(size, m);
    if !multiStep || Pow2(k) - size < Pow2(m) then Pow2(k) else size
  }

  /** A multi-step request wastes less than a smallest block, and nothing if it asks for whole ones. */
  lemma MultiStepWaste(size: nat, m: nat)
    requires 0 < size
    ensures size <= RequestBytes(size, true, m) < size + Pow2(m)
    ensures Aligned(size, m) ==> RequestBytes(size, true, m) == size
  {
    var k := RoundLog(size, m);
    if Aligned(size, m) && size < Pow2(k) { AlignedGap(size, k, m); }
  }

  // ------------------------------------------------------ releasing ranges

  ghost function OutsideRange(bs: set<Block>, o: nat, size: nat): set<Block> {
    set b | b in bs && !(o <= b.off < o + size)
  }

  lemma RangesJoin(bs: set<Block>, o: nat, x: nat, y: nat)
    ensures OutsideRange(OutsideRange(bs, o, x), o + x, y) == OutsideRange(bs, o, x + y)
  {
  }

  /** The node at `o` is in one piece, or holds only smallest blocks. */
  ghost predicate CleanAt(t: Tree, s: nat, o: nat, k: nat, m: nat) {
    SubAt(t, s, o, k).Full? || SmallOnly(SubAt(t, s, o, k), k, m, o)
  }

  /** Releasing a node removes the live blocks that start in its range. */
  lemma RangeRemoved(t: Tree, s: nat, m: nat, o: nat, k: nat)
    requires Fits(t, s, m) && m <= k && NodeAt(s, o, k) && Open(t, s, o, k)
    ensures Blocks(t, s, 0) - Blocks(SubAt(t, s, o, k), k, o) == OutsideRange(Blocks(t, s, 0), o, Pow2(k))
  {
    forall b | b in Blocks(t, s, 0)
      ensures b in Blocks(SubAt(t, s, o, k), k, o) <==> o <= b.off < o + Pow2(k)
    {
      BlocksInRange(t, s, m, 0, o, k, b);
    }
  }

  ghost predicate PieceReady(t: Tree, s: nat, m: nat, o: nat, size: nat, j: nat, allowSplit: bool) {
    Releasable(t, s, o + High(size, j + 1), j, allowSplit) && CleanAt(t, s, o + High(size, j + 1), j, m)
  }

  /** Every piece of `size` below 2^i bytes can be released. */
  ghost predicate PiecesReady(t: Tree, s: nat, m: nat, o: nat, size: nat, i: nat, allowSplit: bool) {
    forall j: nat | j < i && Bit(size, j) :: PieceReady(t, s, m, o, size, j, allowSplit)
  }

  lemma PieceReadyAt(t: Tree, s: nat, m: nat, o: nat, size: nat, i: nat, allowSplit: bool)
    requires PiecesReady(t, s, m, o, size, i + 1, allowSplit) && Bit(size, i)
    ensures PieceReady(t, s, m, o, size, i, allowSplit)
  {
  }

  /** Releasing one piece leaves the smaller ones ready. */
  lemma PiecesStayReady(t: Tree, s: nat, m: nat, o: nat, size: nat, i: nat, allowSplit: bool)
    requires PiecesReady(t, s, m, o, size, i + 1, allowSplit) && Bit(size, i)
    ensures PiecesReady(FreeAt(t, s, o + High(size, i + 1), i), s, m, o, size, i, allowSplit)
  {
    PieceReadyAt(t, s, m, o, size, i, allowSplit);
    forall j: nat | j < i && Bit(size, j)
      ensures PieceReady(FreeAt(t, s, o + High(size, i + 1), i), s, m, o, size, j, allowSplit)
    {
      assert PieceReady(t, s, m, o, size, j, allowSplit);
      HighStep(size, i);
      HighMonotone(size, j + 1, i);
      FreeElsewhere(t, s, o + High(size, i + 1), i, o + High(size, j + 1), j);
    }
  }

  lemma {:induction false} HighMonotone(x: nat, j: nat, i: nat)
    requires j <= i
    ensures High(x, i) <= High(x, j)
    decreases i - j
  {
    if j < i {
      HighStep(x, j);
      HighMonotone(x, j + 1, i);
    }
  }

  /** After a multi-step allocation the same base and size can be released, leaving the old blocks. */
  lemma MultiStepReady(t: Tree, s: nat, m: nat, o: nat, k: nat, size: nat, leaf: Option<nat>)
    requires Fits(t, s, m) && Canonical(t) && FreeNodeAt(t, s, o, k) && (leaf.Some? ==> leaf.value == m)
    requires m <= k && 0 < size < Pow2(k) && Aligned(size, m)
    ensures var t' := Update(t, s, o, k, Prefix(k, size, leaf));
            && PiecesReady(t', s, m, o, size, s, leaf.Some?)
            && OutsideRange(Blocks(t, s, 0) + Blocks(Prefix(k, size, leaf), k, o), o, size) == Blocks(t, s, 0)
  {
    var p := Prefix(k, size, leaf);
    var t' := Update(t, s, o, k, p);
    forall j: nat | j < s && Bit(size, j) ensures PieceReady(t', s, m, o, size, j, leaf.Some?) {
      PlacedPiece(t, s, m, o, k, size, leaf, j);
    }
    RangeFreeIsFreeNode(t, s, m, 0, o, k);
    forall b | b in Blocks(t, s, 0) ensures !(o <= b.off < o + size) {
      assert End(b) <= 0 + o || 0 + o + Pow2(k) <= b.off;
    }
    forall b | b in Blocks(p, k, o) ensures o <= b.off < o + size {
      PrefixCovers(k, size, leaf, m, o, b.off);
    }
  }

  lemma PlacedPiece(t: Tree, s: nat, m: nat, o: nat, k: nat, size: nat, leaf: Option<nat>, j: nat)
    requires NodeAt(s, o, k) && (leaf.Some? ==> leaf.value == m) && m <= k && 0 < size < Pow2(k) && Aligned(size, m)
    requires j < s && Bit(size, j)
    ensures PieceReady(Update(t, s, o, k, Prefix(k, size, leaf)), s, m, o, size, j, leaf.Some?)
  {
    BitRange(size, j, k, m);
    PrefixPiece(k, size, j, leaf);
    SubOfUpdate(t, s, o, k, Prefix(k, size, leaf), High(size, j + 1), j);
    PieceSmall(j, leaf, m, o + High(size, j + 1));
  }

  lemma PieceSmall(i: nat, leaf: Option<nat>, m: nat, off: nat)
    requires m <= i && (leaf.Some? ==> leaf.value == m)
    ensures var p := Piece(i, leaf); p == Full || (leaf.Some? && p.Split? && SmallOnly(p, i, m, off))
  {
    if leaf.Some? && i > m {
      forall b | b in Blocks(Leafy(i, m), i, off) ensures b.log == m {
        LeafyBlocks(i, m, off, b);
      }
    }
  }

  // ------------------------------------------------------ pre-split blocks

  /** A live block inside the range of a node lies below it: nothing covers the node from above. */
  lemma {:induction false} BlockBelow(t: Tree, h: nat, m: nat, off: nat, o: nat, k: nat, b: Block)
    requires Fits(t, h, m) && NodeAt(h, o, k) && m <= k
    requires b in Blocks(t, h, off) && b.log <= k && off + o <= b.off < off + o + Pow2(k)
    ensures Open(t, h, o, k) && SubAt(t, h, o, k) != Free
    decreases h
  {
    if k < h {
      NodeHalf(h, o, k);
      var mid := off + Pow2(h - 1);
      var (l, r) := Children(t);
      if b in Blocks(l, h - 1, off) { BlockBounds(l, h - 1, m, off, b); }
      if b in Blocks(r, h - 1, mid) { BlockBounds(r, h - 1, m, mid, b); }
      if o < Pow2(h - 1) {
        BlockBelow(l, h - 1, m, off, o, k, b);
      } else {
        BlockBelow(r, h - 1, m, mid, o - Pow2(h - 1), k, b);
      }
    }
  }

  /** When only smallest blocks are left, counting them is counting the live blocks. */
  lemma {:induction false} SmallCount(t: Tree, h: nat, m: nat, off: nat)
    requires Fits(t, h, m) && SmallOnly(t, h, m, off)
    ensures MinBlocks(t, h, m) == |Blocks(t, h, off)|
    decreases h
  {
    if t.Full? {
      assert Block(off, h) in Blocks(t, h, off);
    } else if t.Split? {
      SmallHalves(t, h, m, off);
      SmallCount(t.left, h - 1, m, off);
      SmallCount(t.right, h - 1, m, off + Pow2(h - 1));
    }
  }

  lemma SmallHalves(t: Tree, h: nat, m: nat, off: nat)
    requires t.Split? && Fits(t, h, m) && SmallOnly(t, h, m, off)
    ensures SmallOnly(t.left, h - 1, m, off) && SmallOnly(t.right, h - 1, m, off + Pow2(h - 1))
    ensures |Blocks(t, h, off)| == |Blocks(t.left, h - 1, off)| + |Blocks(t.right, h - 1, off + Pow2(h - 1))|
  {
    var l, r := Blocks(t.left, h - 1, off), Blocks(t.right, h - 1, off + Pow2(h - 1));
    assert Blocks(t, h, off) == l + r;
    HalvesDisjoint(t.left, t.right, h, m, off);
  }

  /**
   However many of its smallest leaves were released before, in whatever order and whatever else
   happened to the heap, a pre-split block with a leaf left can be released as a whole, and the
   free bytes counted are exactly those of the released leaves.
   */
  lemma PreSplitRelease(t: Tree, s: nat, m: nat, o: nat, k: nat, left: set<Block>)
    requires Fits(t, s, m) && Canonical(t) && m <= k && NodeAt(s, o, k)
    requires left == (set b | b in Blocks(t, s, 0) && o <= b.off < o + Pow2(k)) && left != {}
    requires forall b | b in left :: b.log == m
    ensures Releasable(t, s, o, k, true) && CleanAt(t, s, o, k, m)
    ensures MinBlocks(SubAt(t, s, o, k), k, m) == |left|
  {
    var b0 :| b0 in left;
    BlockBelow(t, s, m, 0, o, k, b0);
    assert Fits(SubAt(t, s, o, k), k, m) by { UpdateBlocks(t, s, m, 0, o, k, Free); }
    BlocksLeft(t, s, m, o, k, left);
    SmallCount(SubAt(t, s, o, k), k, m, o);
  }

  lemma BlocksLeft(t: Tree, s: nat, m: nat, o: nat, k: nat, left: set<Block>)
    requires Fits(t, s, m) && m <= k && NodeAt(s, o, k) && Open(t, s, o, k)
    requires left == (set b | b in Blocks(t, s, 0) && o <= b.off < o + Pow2(k))
    ensures Blocks(SubAt(t, s, o, k), k, o) == left
  {
    forall b ensures b in Blocks(SubAt(t, s, o, k), k, o) <==> b in left {
      BlocksInRange(t, s, m, 0, o, k, b);
    }
  }

  // ------------------------------------------------------ released leaves

  /** The leaves of a pre-split block that are left when those at the offsets `done` are gone. */
  ghost function LeavesLeft(o: nat, k: nat, m: nat, done: seq<nat>): set<Block> {
    set b | b in Blocks(Leafy(k, m), k, o) && b.off - o !in done
  }

  lemma LeafGone(o: nat, k: nat, m: nat, done: seq<nat>, x: nat)
    requires m <= k && NodeAt(k, x, m) && x !in done
    ensures Block(o + x, m) in LeavesLeft(o, k, m, done)
    ensures LeavesLeft(o, k, m, done + [x]) == LeavesLeft(o, k, m, done) - {Block(o + x, m)}
  {
    LeafyBlocks(k, m, o, Block(o + x, m));
    forall b | b in Blocks(Leafy(k, m), k, o) ensures b.off - o == x <==> b == Block(o + x, m) {
      LeafyBlocks(k, m, o, b);
    }
  }

  /** The leaves lie in the block's range, are all smallest, and one that was not released is among them. */
  lemma LeavesInRange(o: nat, k: nat, m: nat, done: seq<nat>, keep: nat)
    requires m <= k && NodeAt(k, keep, m) && keep !in done
    ensures forall b | b in LeavesLeft(o, k, m, done) :: b.log == m && o <= b.off < o + Pow2(k)
    ensures LeavesLeft(o, k, m, done) != {}
  {
    forall b | b in LeavesLeft(o, k, m, done) ensures b.log == m && o <= b.off < o + Pow2(k) { LeafyBlocks(k, m, o, b); }
    LeafGone(o, k, m, done, keep);
  }
}
