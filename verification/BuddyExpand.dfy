/** Copying the metadata of a heap into that of a larger heap with the same base address. */
module BuddyExpand {
  import opened Arith
  import opened BuddyTree
  import opened BuddyNodes
  import opened BuddySteps
  import opened BuddyRows

  /** The tree of a heap of 2^s bytes, seen as the low end of one of 2^s2 bytes. */
  ghost function Grow(t: Tree, s: nat, s2: nat): Tree
    requires s <= s2
    decreases s2
  {
    if s == s2 then t else Split(Grow(t, s, s2 - 1), Free)
  }

  /** Growing keeps every live block in place; it keeps the tree coalesced unless the old heap was empty. */
  lemma {:induction false} GrowKeeps(t: Tree, s: nat, s2: nat, m: nat)
    requires s <= s2 && Fits(t, s, m) && Canonical(t)
    ensures var g := Grow(t, s, s2);
            && Fits(g, s2, m) && Blocks(g, s2, 0) == Blocks(t, s, 0) && Total(g, s2) == Total(t, s)
            && (Canonical(g) <==> s == s2 || t != Free) && (s < s2 ==> g != Free && !IsFull(g))
    decreases s2
  {
    if s < s2 {
      GrowKeeps(t, s, s2 - 1, m);
    }
  }

  /** Exactly the added range, besides what was free before, is free in the grown heap. */
  lemma GrowFrees(t: Tree, s: nat, s2: nat, m: nat, o: nat, k: nat)
    requires s <= s2 && m <= k && Fits(t, s, m) && Canonical(t) && NodeAt(s2, o, k)
    ensures k <= s ==> (RangeFree(Grow(t, s, s2), s2, 0, o, k) <==> o >= Pow2(s) || RangeFree(t, s, 0, o, k))
  {
    GrowKeeps(t, s, s2, m);
    forall b | b in Blocks(t, s, 0) ensures End(b) <= Pow2(s) {
      BlockBounds(t, s, m, 0, b);
    }
  }

  /** Wanted flags of position `p` in row `e`, when the old root lies `delta` rows below the new one. */
  ghost function Wanted(a: seq<Node>, delta: nat, e: nat, p: nat): Node {
    if e < delta then (if p == 0 then Node(true, false) else CLEAR)
    else if p < Pow2(e - delta) && Pow2(e - delta) - 1 + p < |a| then a[Pow2(e - delta) - 1 + p]
    else CLEAR
  }

  ghost predicate RowDone(a: seq<Node>, b: seq<Node>, delta: nat, e: nat) {
    Pow2(e) - 1 + Pow2(e) <= |b| && forall p | 0 <= p < Pow2(e) :: b[Pow2(e) - 1 + p] == Wanted(a, delta, e, p)
  }

  /** The first `d` rows are as wanted, the others still clear. */
  ghost predicate RowsDone(a: seq<Node>, b: seq<Node>, delta: nat, d: nat) {
    && (forall e | 0 <= e < d :: RowDone(a, b, delta, e))
    && forall i | Pow2(d) - 1 <= i < |b| :: b[i] == CLEAR
  }

  lemma RowFinished(a: seq<Node>, b: seq<Node>, c: seq<Node>, delta: nat, d: nat)
    requires RowsDone(a, b, delta, d) && |b| == |c| && Pow2(d + 1) - 1 <= |b|
    requires forall i | 0 <= i < |b| && !(Pow2(d) - 1 <= i < Pow2(d + 1) - 1) :: c[i] == b[i]
    requires RowDone(a, c, delta, d)
    ensures RowsDone(a, c, delta, d + 1)
  {
    forall e | 0 <= e < d + 1 ensures RowDone(a, c, delta, e) {
      if e < d {
        Pow2Monotone(e + 1, d);
        assert RowDone(a, b, delta, e);
      }
    }
  }

  lemma SpineDone(a: seq<Node>, b: seq<Node>, c: seq<Node>, delta: nat, d: nat)
    requires RowsDone(a, b, delta, d) && d < delta && Pow2(d + 1) - 1 <= |b| && c == b[Pow2(d) - 1 := Node(true, false)]
    ensures RowsDone(a, c, delta, d + 1)
  {
    RowFinished(a, b, c, delta, d);
  }

  lemma CopyDone(a: seq<Node>, b: seq<Node>, c: seq<Node>, delta: nat, d: nat)
    requires RowsDone(a, b, delta, d) && delta <= d && Pow2(d + 1) - 1 <= |b| == |c|
    requires var w := Pow2(d - delta);
             && 2 * w - 1 <= |a| && w <= Pow2(d)
             && forall i | 0 <= i < |b| :: c[i] == if Pow2(d) - 1 <= i < Pow2(d) - 1 + w then a[w - 1 + (i - (Pow2(d) - 1))] else b[i]
    ensures RowsDone(a, c, delta, d + 1)
  {
    RowFinished(a, b, c, delta, d);
  }

  /** First node of row `e`. */
  lemma {:induction false} SpineRow(e: nat, d: nat)
    ensures RowLo(Pow2(e) - 1, d) == Pow2(e + d) - 1
    decreases d
  {
    if d > 0 { SpineRow(e, d - 1); }
  }

  lemma {:induction false} RepCopy(a: seq<Node>, n: nat, b: seq<Node>, n': nat, h: nat, m: nat, t: Tree)
    requires Rep(a, n, h, m, t)
    requires forall d, p | 0 <= d <= h - m && 0 <= p < Pow2(d) :: SameAt(a, n, b, n', d, p)
    ensures Rep(b, n', h, m, t)
    decreases h
  {
    assert SameAt(a, n, b, n', 0, 0);
    if h > m {
      forall d, p | 0 <= d <= h - 1 - m && 0 <= p < Pow2(d)
        ensures SameAt(a, LeftOf(n), b, LeftOf(n'), d, p) && SameAt(a, RightOf(n), b, RightOf(n'), d, p)
      {
        RowStep(n, d);
        RowStep(n', d);
        assert SameAt(a, n, b, n', d + 1, p) && SameAt(a, n, b, n', d + 1, p + Pow2(d));
      }
      RepCopy(a, LeftOf(n), b, LeftOf(n'), h - 1, m, Children(t).0);
      RepCopy(a, RightOf(n), b, RightOf(n'), h - 1, m, Children(t).1);
    }
  }

  ghost predicate SameAt(a: seq<Node>, n: nat, b: seq<Node>, n': nat, d: nat, p: nat) {
    && RowLo(n, d) + p < |a| && RowLo(n', d) + p < |b| && b[RowLo(n', d) + p] == a[RowLo(n, d) + p]
  }

  /** Below the old root, now in row `delta`, the old flags are found again. */
  lemma CopiedAt(a: seq<Node>, b: seq<Node>, s: nat, m: nat, delta: nat, d: nat, p: nat)
    requires m <= s && |a| == Pow2(s - m + 1) && d <= s - m && p < Pow2(d) && RowDone(a, b, delta, delta + d)
    ensures SameAt(a, 0, b, Pow2(delta) - 1, d, p)
  {
    SpineRow(0, d);
    SpineRow(delta, d);
    Pow2Monotone(d, delta + d);
    Pow2Monotone(d + 1, s - m + 1);
    assert b[Pow2(delta + d) - 1 + p] == Wanted(a, delta, delta + d, p);
  }

  /** From the node of the new left spine `e` rows below the root. */
  lemma {:induction false} GrowRep(a: seq<Node>, b: seq<Node>, s: nat, s2: nat, m: nat, t: Tree, e: nat)
    requires m <= s <= s2 && e <= s2 - s && |a| == Pow2(s - m + 1) && |b| == Pow2(s2 - m + 1)
    requires Rep(a, 0, s, m, t) && RowsDone(a, b, s2 - s, s2 - m + 1)
    ensures Rep(b, Pow2(e) - 1, s2 - e, m, Grow(t, s, s2 - e))
    decreases s2 - e
  {
    var delta := s2 - s;
    var n := Pow2(e) - 1;
    if e == delta {
      forall d, p | 0 <= d <= s - m && 0 <= p < Pow2(d) ensures SameAt(a, 0, b, n, d, p) {
        CopiedAt(a, b, s, m, e, d, p);
      }
      RepCopy(a, 0, b, n, s, m, t);
    } else {
      GrowRep(a, b, s, s2, m, t, e + 1);
      SpineRight(a, b, s, s2, m, e);
      assert RowDone(a, b, delta, e);
      assert b[n + 0] == Wanted(a, delta, e, 0);
    }
  }

  /** The right child of a node of the new spine is free. */
  lemma SpineRight(a: seq<Node>, b: seq<Node>, s: nat, s2: nat, m: nat, e: nat)
    requires m <= s <= s2 && e < s2 - s && |b| == Pow2(s2 - m + 1) && RowsDone(a, b, s2 - s, s2 - m + 1)
    ensures Rep(b, RightOf(Pow2(e) - 1), s2 - e - 1, m, Free)
  {
    var n := Pow2(e) - 1;
    forall d | 0 <= d <= s2 - e - 1 - m ensures Row(b, RightOf(n), d, CLEAR) {
      RowStep(n, d);
      SpineRow(e, d + 1);
      AddedRow(a, b, s2 - s, e, d);
    }
    RowsToFree(b, RightOf(n), s2 - e - 1, m);
  }

  /** The right half of a row below the new spine is clear. */
  lemma AddedRow(a: seq<Node>, b: seq<Node>, delta: nat, e: nat, d: nat)
    requires e < delta && RowDone(a, b, delta, e + 1 + d)
    ensures forall i | Pow2(e + 1 + d) - 1 + Pow2(d) <= i < Pow2(e + 1 + d) - 1 + 2 * Pow2(d) :: i < |b| && b[i] == CLEAR
  {
    var r := e + 1 + d;
    Pow2Monotone(d + 1, r);
    if r >= delta { Pow2Monotone(r - delta, d); }
    forall i | Pow2(r) - 1 + Pow2(d) <= i < Pow2(r) - 1 + 2 * Pow2(d) ensures i < |b| && b[i] == CLEAR {
      var p := i - (Pow2(r) - 1);
      assert b[Pow2(r) - 1 + p] == Wanted(a, delta, r, p);
    }
  }
}
