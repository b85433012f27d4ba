/**
 A linear-mapping kmalloc heap: the allocation and release code working in place on the
 metadata array, proved against the buddy tree.
 */
module BuddyHeap {
  import opened Arith
  import opened BuddyTree
  import opened BuddyNodes
  import opened BuddySteps
  import opened BuddyRows
  import opened BuddyExpand

  class Heap {
    const vaddr: nat
    const sizeLog: nat
    const minLog: nat
    const nodes: array<Node>
    var memAllocated: int
    ghost var tree: Tree

    ghost predicate Geometry()
      reads this
    {
      minLog <= sizeLog && nodes.Length == Pow2(sizeLog - minLog + 1)
    }

    /** The array describes `tree`, which is coalesced. */
    ghost predicate ValidMetadata()
      reads this, nodes
    {
      && Geometry()
      && Fits(tree, sizeLog, minLog) && Canonical(tree)
      && Rep(nodes[..], 0, sizeLog, minLog, tree)
    }

    /** Moreover the byte counter is exact. */
    ghost predicate Valid()
      reads this, nodes
    {
      ValidMetadata() && memAllocated == Total(tree, sizeLog)
    }

    ghost function Live(): set<Block>
      reads this
    {
      Blocks(tree, sizeLog, 0)
    }

    constructor (va: nat, sLog: nat, mLog: nat)
      requires mLog <= sLog
      ensures Valid() && tree == Free && vaddr == va && sizeLog == sLog && minLog == mLog && fresh(nodes)
    {
      vaddr, sizeLog, minLog := va, sLog, mLog;
      nodes := new Node[Pow2(sLog - mLog + 1)](_ => CLEAR);
      memAllocated := 0;
      tree := Free;
      new;
      ClearRep(nodes[..], 0, sLog, mLog);
    }

    /**
     A heap of 2^newLog bytes at the same base that starts with the contents of `h`: row by row,
     the old flags are copied and the nodes above the old root are marked as split.
     */
    constructor DupExpanded(h: Heap, newLog: nat)
      requires h.ValidMetadata() && newLog >= h.sizeLog
      ensures Geometry() && fresh(nodes) && vaddr == h.vaddr && minLog == h.minLog && sizeLog == newLog
      ensures memAllocated == h.memAllocated && tree == Grow(h.tree, h.sizeLog, newLog)
      ensures Fits(tree, sizeLog, minLog) && Rep(nodes[..], 0, sizeLog, minLog, tree) && Live() == h.Live()
      ensures ValidMetadata() <==> newLog == h.sizeLog || h.tree != Free
      ensures h.Valid() && ValidMetadata() ==> Valid()
    {
      vaddr, minLog, sizeLog := h.vaddr, h.minLog, newLog;
      var b := new Node[Pow2(newLog - h.minLog + 1)](_ => CLEAR);
      nodes := b;
      memAllocated := h.memAllocated;
      tree := Grow(h.tree, h.sizeLog, newLog);
      new;
      var log, perRow := newLog, 1;
      ghost var a, delta := h.nodes[..], newLog - h.sizeLog;
      while log >= minLog
        invariant minLog - 1 <= log <= newLog && perRow == (if log >= h.sizeLog then 1 else Pow2(h.sizeLog - log))
        invariant RowsDone(a, nodes[..], delta, newLog - log) && a == h.nodes[..]
        modifies nodes
        decreases log
      {
        ExpandRow(h, log, perRow);
        if log <= h.sizeLog {
          perRow := perRow * 2;
        }
        log := log - 1;
      }
      GrowRep(a, nodes[..], h.sizeLog, newLog, minLog, h.tree, 0);
      GrowKeeps(h.tree, h.sizeLog, newLog, minLog);
    }

    /** One row of DupExpanded. */
    method ExpandRow(h: Heap, log: nat, perRow: nat)
      requires h.Geometry() && Geometry() && minLog == h.minLog && h.sizeLog <= sizeLog && h.nodes != nodes
      requires minLog <= log <= sizeLog && perRow == (if log >= h.sizeLog then 1 else Pow2(h.sizeLog - log))
      requires RowsDone(h.nodes[..], nodes[..], sizeLog - h.sizeLog, sizeLog - log)
      modifies nodes
      ensures RowsDone(h.nodes[..], nodes[..], sizeLog - h.sizeLog, sizeLog - log + 1)
    {
      ghost var b, d, delta := nodes[..], sizeLog - log, sizeLog - h.sizeLog;
      Pow2Monotone(d + 1, sizeLog - minLog + 1);
      var newIdx := Pow2(sizeLog - log) - 1;
      if log > h.sizeLog {
        nodes[newIdx] := nodes[newIdx].(split := true);
        SpineDone(h.nodes[..], b, nodes[..], delta, d);
      } else {
        Pow2Monotone(h.sizeLog - log + 1, h.sizeLog - minLog + 1);
        Pow2Monotone(h.sizeLog - log, d);
        CopyRow(h, newIdx, Pow2(h.sizeLog - log) - 1, perRow);
        CopyDone(h.nodes[..], b, nodes[..], delta, d);
      }
    }

    method CopyRow(h: Heap, newIdx: nat, oldIdx: nat, cnt: nat)
      requires h.nodes != nodes && newIdx + cnt <= nodes.Length && oldIdx + cnt <= h.nodes.Length
      modifies nodes
      ensures forall i | 0 <= i < nodes.Length ::
                nodes[i] == if newIdx <= i < newIdx + cnt then h.nodes[oldIdx + (i - newIdx)] else old(nodes[i])
    {
      for j := 0 to cnt
        invariant forall i | 0 <= i < nodes.Length ::
                    nodes[i] == if newIdx <= i < newIdx + j then h.nodes[oldIdx + (i - newIdx)] else old(nodes[i])
      {
        nodes[newIdx + j] := h.nodes[oldIdx + j];
      }
    }

    function PtrToNode(ptr: int, h: nat): nat
      requires h <= sizeLog && ptr >= vaddr
      reads this
    {
      NodeIndex(sizeLog, ptr - vaddr, h)
    }

    function NodeToPtr(n: nat, h: nat): int
      requires h <= sizeLog
      reads this
    {
      NodeOffset(sizeLog, n, h) + vaddr
    }

    /**
     First-fit search below node `n` of height `h` (at offset `base`, describing `t`) for a block
     of 2^k bytes. Without `mark` the block is only located, yet the nodes above it get split.
     */
    method InternalKmalloc(k: nat, n: nat, h: nat, mark: bool, ghost base: nat, ghost t: Tree) returns (addr: Option<int>)
      requires Geometry() && minLog <= k <= h <= sizeLog
      requires Aligned(base, h) && n == NodeIndex(sizeLog, base, h)
      requires Rep(nodes[..], n, h, minLog, t)
      modifies nodes, this`memAllocated
      ensures Searched(old(nodes[..]), nodes[..], n, h, minLog, t, k, Fill(mark), Relative(addr, vaddr + base))
      ensures memAllocated == old(memAllocated) + (if mark && addr.Some? then Pow2(k) else 0)
      decreases h, 1
    {
      var nd := nodes[n];
      ghost var a0 := nodes[..];
      if nd.full {
        return None;
      }
      if h <= k {
        if nd.split {
          return None;
        }
        if mark {
          nodes[n] := nd.(full := true);
          memAllocated := memAllocated + Pow2(h);
        }
        FillNode(a0, nodes[..], n, h, minLog, Fill(mark));
        NodeOffsetInverse(sizeLog, base, h);
        return Some(NodeToPtr(n, h));
      }
      addr := SearchBelow(k, n, h, mark, base, t);
    }

    /** The search goes on in the halves of a node that is not full, which gets split if need be. */
    method SearchBelow(k: nat, n: nat, h: nat, mark: bool, ghost base: nat, ghost t: Tree) returns (addr: Option<int>)
      requires Geometry() && minLog <= k < h <= sizeLog
      requires Aligned(base, h) && n == NodeIndex(sizeLog, base, h)
      requires Rep(nodes[..], n, h, minLog, t) && !IsFull(t)
      modifies nodes, this`memAllocated
      ensures Searched(old(nodes[..]), nodes[..], n, h, minLog, t, k, Fill(mark), Relative(addr, vaddr + base))
      ensures memAllocated == old(memAllocated) + (if mark && addr.Some? then Pow2(k) else 0)
      decreases h, 0, 1
    {
      var nd := nodes[n];
      ghost var a0 := nodes[..];
      if !nd.split {
        nodes[n] := nd.(split := true);
      }
      ghost var a1 := nodes[..];
      SplitNode(a0, a1, n, h, minLog, t);
      addr := TryLeft(k, n, h, mark, base, t, a0);
      if addr.None? {
        addr := TryRight(k, n, h, mark, base, t, a0);
        if addr.None? {
          NotFound(a0, a1, n, h, minLog, t, k, Fill(mark));
        }
      }
    }

    /** The search in the left half of a node just opened. */
    method TryLeft(k: nat, n: nat, h: nat, mark: bool, ghost base: nat, ghost t: Tree, ghost a0: seq<Node>)
      returns (addr: Option<int>)
      requires Geometry() && minLog <= k < h <= sizeLog && Aligned(base, h) && n == NodeIndex(sizeLog, base, h)
      requires Opened(a0, nodes[..], n, h, minLog, t) && !IsFull(t)
      modifies nodes, this`memAllocated
      ensures addr.Some? ==> Searched(a0, nodes[..], n, h, minLog, t, k, Fill(mark), Relative(addr, vaddr + base))
      ensures addr.None? ==> nodes[..] == old(nodes[..]) && Place(Children(t).0, h - 1, k, Fill(mark)).None?
      ensures memAllocated == old(memAllocated) + (if mark && addr.Some? then Pow2(k) else 0)
      decreases h, 0, 0
    {
      ghost var a1, l := nodes[..], Children(t).0;
      if nodes[LeftOf(n)].full {
        return None;
      }
      assert Aligned(base, h - 1) && LeftOf(n) == NodeIndex(sizeLog, base, h - 1) by { IndexChildren(sizeLog, base, h); }
      addr := InternalKmalloc(k, LeftOf(n), h - 1, mark, base, l);
      if addr.Some? {
        ghost var a2 := nodes[..];
        MarkIfFull(n);
        FoundLeft(a0, a1, a2, nodes[..], n, h, minLog, t, k, Fill(mark), addr.value - vaddr - base);
      }
    }

    /** The search in the right half, after the left one had no room. */
    method TryRight(k: nat, n: nat, h: nat, mark: bool, ghost base: nat, ghost t: Tree, ghost a0: seq<Node>)
      returns (addr: Option<int>)
      requires Geometry() && minLog <= k < h <= sizeLog && Aligned(base, h) && n == NodeIndex(sizeLog, base, h)
      requires Opened(a0, nodes[..], n, h, minLog, t) && !IsFull(t) && Place(Children(t).0, h - 1, k, Fill(mark)).None?
      modifies nodes, this`memAllocated
      ensures addr.Some? ==> Searched(a0, nodes[..], n, h, minLog, t, k, Fill(mark), Relative(addr, vaddr + base))
      ensures addr.None? ==> nodes[..] == old(nodes[..]) && Place(Children(t).1, h - 1, k, Fill(mark)).None?
      ensures memAllocated == old(memAllocated) + (if mark && addr.Some? then Pow2(k) else 0)
      decreases h, 0, 0
    {
      ghost var a1, r, mid := nodes[..], Children(t).1, base + Pow2(h - 1);
      if nodes[RightOf(n)].full {
        return None;
      }
      assert Aligned(mid, h - 1) && RightOf(n) == NodeIndex(sizeLog, mid, h - 1) by { IndexChildren(sizeLog, base, h); }
      addr := InternalKmalloc(k, RightOf(n), h - 1, mark, mid, r);
      if addr.Some? {
        ghost var a2 := nodes[..];
        MarkIfFull(n);
        FoundRight(a0, a1, a2, nodes[..], n, h, minLog, t, k, Fill(mark), addr.value - vaddr - mid);
      }
    }

    /**
     Marks the full node `n` of height `k` as free, coalesces it with free buddies on the way up
     and clears the `full` flag of all the ancestors left. Returns the biggest free node that
     results and its height.
     */
    method SetFreeUplevels(n: nat, k: nat, ghost c: Context) returns (biggest: nat, log: nat)
      requires !c.Top? && n + 1 < nodes.Length
      requires Rep(nodes[..], n, k, minLog, Full) && RepContext(nodes[..], n, k, minLog, sizeLog, c)
      modifies nodes
      ensures Rep(nodes[..], 0, sizeLog, minLog, PlugJoin(c, Free))
      ensures Rep(nodes[..], biggest, log, minLog, Free) && InSub(n, biggest)
      ensures (biggest == n && log == k) || (biggest < n && log > k)
    {
      ghost var a0 := nodes[..];
      nodes[n] := nodes[n].(full := false);
      FreeNode(a0, nodes[..], n, k, minLog, sizeLog, c);
      ghost var cc;
      var p;
      biggest, log, p, cc := CoalesceUp(n, k, c);
      ClearFullUp(p, biggest, log, cc);
    }

    /** First loop of SetFreeUplevels; `p` is where the second one starts. */
    method CoalesceUp(n: nat, k: nat, ghost c: Context) returns (biggest: nat, log: nat, p: int, ghost cc: Context)
      requires !c.Top? && n + 1 < nodes.Length && Between(nodes[..], n, k, minLog, sizeLog, c)
      modifies nodes
      ensures Between(nodes[..], biggest, log, minLog, sizeLog, cc)
      ensures PlugJoin(c, Free) == Plug(cc, Free)
      ensures biggest <= n && InSub(n, biggest) && p == (if biggest == 0 then 0 else ParentOf(biggest))
      ensures (biggest == n && log == k) || (biggest < n && log > k)
    {
      biggest, log, cc, p := n, k + 1, c, ParentOf(n);
      while !IsFreeNode(nodes[p])
        invariant 0 <= p < biggest <= n && p == ParentOf(biggest) && InSub(n, biggest)
        invariant log > 0 && !cc.Top? && Between(nodes[..], biggest, log - 1, minLog, sizeLog, cc)
        invariant PlugJoin(cc, Free) == PlugJoin(c, Free)
        invariant (biggest == n && log - 1 == k) || (biggest < n && log - 1 > k)
        decreases p
      {
        var left, right := nodes[LeftOf(p)], nodes[RightOf(p)];
        ghost var a := nodes[..];
        if !IsFreeNode(left) || !IsFreeNode(right) {
          nodes[p] := nodes[p].(full := left.full && right.full);
          StopCoalescing(a, nodes[..], biggest, log - 1, minLog, sizeLog, cc);
          log := log - 1;
          return;
        }
        nodes[p] := CLEAR;
        Coalesce(a, nodes[..], biggest, log - 1, minLog, sizeLog, cc);
        AncestorStep(n, biggest);
        biggest, cc := p, cc.up;
        if p == 0 {
          return;
        }
        p := ParentOf(p);
        log := log + 1;
      }
      assert false;
    }

    /** Second loop of SetFreeUplevels. */
    method ClearFullUp(start: int, biggest: nat, log: nat, ghost cc: Context)
      requires biggest + 1 < nodes.Length && Between(nodes[..], biggest, log, minLog, sizeLog, cc)
      requires start == (if biggest == 0 then 0 else ParentOf(biggest))
      modifies nodes
      ensures Rep(nodes[..], 0, sizeLog, minLog, Plug(cc, Free)) && Rep(nodes[..], biggest, log, minLog, Free)
    {
      var p := start;
      if biggest > 0 { AncestorStep(biggest, biggest); }
      while p >= 0
        invariant -1 <= p <= biggest && (p == biggest ==> p == 0) && (p >= 0 ==> InSub(biggest, p))
        invariant Between(nodes[..], biggest, log, minLog, sizeLog, cc)
        invariant forall i | p < i < nodes.Length && i != biggest && InSub(biggest, i) :: !nodes[i].full
        decreases p
      {
        ghost var a := nodes[..];
        nodes[p] := nodes[p].(full := false);
        if p < biggest {
          ClearAncestor(a, nodes[..], biggest, log, minLog, sizeLog, cc, p);
          NextAncestor(biggest, p);
        } else {
          assert nodes[..] == a;
        }
        p := ParentOf(p);
      }
      PlugRep(nodes[..], biggest, log, minLog, sizeLog, cc, Free);
    }

    /** One step of the upward loop that marks parents as full. */
    method MarkIfFull(n: nat)
      requires RightOf(n) < nodes.Length
      modifies nodes
      ensures nodes[..] == old(nodes[..])[n := old(nodes[n]).(full := old(nodes[n].full || (nodes[LeftOf(n)].full && nodes[RightOf(n)].full)))]
    {
      if nodes[LeftOf(n)].full && nodes[RightOf(n)].full {
        nodes[n] := nodes[n].(full := true);
      }
    }

    // ------------------------------------------------------- whole blocks

    method SetRow(lo: nat, cnt: nat, v: Node)
      requires lo + cnt <= nodes.Length
      modifies nodes
      ensures forall i | 0 <= i < nodes.Length :: nodes[i] == if lo <= i < lo + cnt then v else old(nodes[i])
    {
      for j := 0 to cnt
        invariant forall i | 0 <= i < nodes.Length :: nodes[i] == if lo <= i < lo + j then v else old(nodes[i])
      {
        nodes[lo + j] := v;
      }
    }

    method CountAndClearRow(lo: nat, cnt: nat) returns (free: nat)
      requires lo + cnt <= nodes.Length
      modifies nodes
      ensures free == CountClear(old(nodes[..]), lo, cnt) * Pow2(minLog)
      ensures forall i | 0 <= i < nodes.Length :: nodes[i] == if lo <= i < lo + cnt then CLEAR else old(nodes[i])
    {
      free := 0;
      for j := 0 to cnt
        invariant free == CountClear(old(nodes[..]), lo, j) * Pow2(minLog)
        invariant forall i | 0 <= i < nodes.Length :: nodes[i] == if lo <= i < lo + j then CLEAR else old(nodes[i])
      {
        if IsFreeNode(nodes[lo + j]) {
          assert (CountClear(old(nodes[..]), lo, j) + 1) * Pow2(minLog) == free + Pow2(minLog);
          free := free + Pow2(minLog);
        }
        nodes[lo + j] := CLEAR;
      }
    }

    /** Pre-splits the allocated block at node `n` of height `k` down to leaves of height `leaf`. */
    method SplitBlock(n: nat, k: nat, leaf: nat)
      requires minLog <= leaf <= k && Rep(nodes[..], n, k, minLog, Full)
      modifies nodes
      ensures Rep(nodes[..], n, k, minLog, Leafy(k, leaf)) && AgreeOutside(old(nodes[..]), nodes[..], n)
    {
      ghost var a := nodes[..];
      var lo, cnt, h := n, 1, k;
      while h > leaf
        invariant leaf <= h <= k && lo == RowLo(n, k - h) && cnt == Pow2(k - h)
        invariant Painted(a, nodes[..], n, k, leaf, k - h)
      {
        SetLeafyRow(lo, cnt, Node(true, true), a, n, k, leaf, k - h);
        cnt, lo, h := 2 * cnt, LeftOf(lo), h - 1;
      }
      SetLeafyRow(lo, cnt, Node(false, true), a, n, k, leaf, k - h);
      PaintedAll(a, nodes[..], n, k, minLog, leaf);
    }

    method SetLeafyRow(lo: nat, cnt: nat, v: Node, ghost a: seq<Node>, ghost n: nat, ghost k: nat, ghost leaf: nat, ghost d: nat)
      requires minLog <= leaf <= k && d <= k - leaf && lo == RowLo(n, d) && cnt == Pow2(d) && v == LeafyFlags(k, leaf, d)
      requires Rep(a, n, k, minLog, Full) && Painted(a, nodes[..], n, k, leaf, d)
      modifies nodes
      ensures Painted(a, nodes[..], n, k, leaf, d + 1)
    {
      ghost var b := nodes[..];
      RowRoom(a, n, k, minLog, Full, d);
      SetRow(lo, cnt, v);
      PaintRow(a, b, nodes[..], n, k, leaf, d);
    }

    /** The rows of CoalesceBlock above the smallest blocks; returns the bottom row. */
    method ClearUpperRows(n: nat, k: nat, ghost s: Tree) returns (lo: nat, cnt: nat)
      requires Rep(nodes[..], n, k, minLog, s)
      modifies nodes
      ensures lo == RowLo(n, k - minLog) && cnt == Pow2(k - minLog)
      ensures Cleared(old(nodes[..]), nodes[..], n, k - minLog)
    {
      ghost var a := nodes[..];
      lo, cnt := n, 1;
      for d := 0 to k - minLog
        invariant lo == RowLo(n, d) && cnt == Pow2(d) && Cleared(a, nodes[..], n, d)
      {
        ghost var b := nodes[..];
        RowRoom(a, n, k, minLog, s, d);
        SetRow(lo, cnt, CLEAR);
        ClearRow(a, b, nodes[..], n, d);
        cnt, lo := 2 * cnt, LeftOf(lo);
      }
    }

    /**
     Clears everything below the block at node `n` of height `k`, leaving it as one allocated block,
     and returns the bytes found free, counting only at the level of the smallest blocks.
     */
    method CoalesceBlock(n: nat, k: nat, ghost s: Tree) returns (alreadyFree: nat)
      requires Rep(nodes[..], n, k, minLog, s)
      modifies nodes
      ensures Rep(nodes[..], n, k, minLog, Full) && AgreeOutside(old(nodes[..]), nodes[..], n)
      ensures alreadyFree + MinBlocks(s, k, minLog) * Pow2(minLog) == Pow2(k)
    {
      ghost var a := nodes[..];
      var lo, cnt := ClearUpperRows(n, k, s);
      ghost var b := nodes[..];
      CountBottom(a, n, k, minLog, s);
      CountSame(a, b, lo, cnt);
      alreadyFree := CountAndClearRow(lo, cnt);
      ClearRow(a, b, nodes[..], n, k - minLog);
      RowsToFree(nodes[..], n, k, minLog);
      b := nodes[..];
      nodes[n] := nodes[n].(full := true);
      FillNode(b, nodes[..], n, k, minLog, Full);
      BottomBytes(CountClear(a, lo, cnt), MinBlocks(s, k, minLog), k, minLog);
    }

    // ------------------------------------------------------------ release

    /**
     Releases the block of 2^k bytes at `ptr`. With `allowSplit` the block may have been pre-split
     and partly released before. The counter stays exact iff the block is in one piece or all that
     is left of it are smallest blocks.
     */
    method InternalKfree(ptr: int, k: nat, allowSplit: bool)
      requires ValidMetadata() && ptr >= vaddr && minLog <= k < sizeLog
      requires Releasable(tree, sizeLog, ptr - vaddr, k, allowSplit)
      modifies this`memAllocated, this`tree, nodes
      ensures ValidMetadata() && tree == FreeAt(old(tree), sizeLog, ptr - vaddr, k)
      ensures var s := SubAt(old(tree), sizeLog, ptr - vaddr, k);
              && Live() == old(Live()) - Blocks(s, k, ptr - vaddr)
              && memAllocated == old(memAllocated) - (if s.Full? then Pow2(k) else MinBlocks(s, k, minLog) * Pow2(minLog))
              && (old(Valid()) ==> (Valid() <==> s.Full? || SmallOnly(s, k, minLog, ptr - vaddr)))
    {
      var n := PtrToNode(ptr, k);
      ghost var o := ptr - vaddr;
      ghost var s := SubAt(tree, sizeLog, o, k);
      ghost var a := nodes[..];
      ghost var c := Locate(a, sizeLog, minLog, tree, o, k);
      var correction := 0;
      if allowSplit && nodes[n].split {
        correction := CoalesceBlock(n, k, s);
        ContextFrame(a, nodes[..], n, k, minLog, sizeLog, c);
      }
      memAllocated := memAllocated - (Pow2(k) - correction);
      var biggest, log := SetFreeUplevels(n, k, c);
      assert biggest == n || log != k;
      FreeBlocks(tree, sizeLog, minLog, 0, o, k);
      assert s.Split? ==> (MinBlocks(s, k, minLog) * Pow2(minLog) == Total(s, k) <==> SmallOnly(s, k, minLog, o)) by {
        UpdateBlocks(tree, sizeLog, minLog, 0, o, k, Free);
        MinBlocksExact(s, k, minLog, o);
      }
      tree := FreeAt(tree, sizeLog, o, k);
    }

    /** Size of the live block at `ptr`, read off the flags alone. */
    method CalculateBlockSize(ptr: int, ghost b: Block) returns (log: nat)
      requires ValidMetadata() && b in Live() && ptr == vaddr + b.off
      ensures log == b.log
    {
      var n: nat, va := 0, vaddr;
      log := sizeLog;
      ghost var t := tree;
      while log > minLog
        invariant minLog <= log <= sizeLog && va >= vaddr && Fits(t, log, minLog)
        invariant Rep(nodes[..], n, log, minLog, t) && b in Blocks(t, log, va - vaddr)
        decreases log
      {
        if !nodes[n].split {
          break;
        }
        log := log - 1;
        if b in Blocks(t.left, log, va - vaddr) {
          BlockBounds(t.left, log, minLog, va - vaddr, b);
        } else {
          BlockBounds(t.right, log, minLog, va - vaddr + Pow2(log), b);
        }
        if ptr >= va + Pow2(log) {
          va, n, t := va + Pow2(log), RightOf(n), t.right;
        } else {
          n, t := LeftOf(n), t.left;
        }
      }
    }

    // ---------------------------------------------------------- interface

    /** The search from the root; `tree` is left to the caller to update. */
    method SearchRoot(k: nat, mark: bool) returns (addr: Option<int>)
      requires ValidMetadata() && minLog <= k <= sizeLog
      modifies this`memAllocated, nodes
      ensures FoundFromRoot(old(nodes[..]), nodes[..], sizeLog, minLog, tree, k, Fill(mark), Relative(addr, vaddr))
      ensures memAllocated == old(memAllocated) + (if mark && addr.Some? then Pow2(k) else 0)
    {
      ghost var z := RootAt(sizeLog);
      ghost var a := nodes[..];
      addr := InternalKmalloc(k, 0, sizeLog, mark, z, tree);
      SearchedFromRoot(a, nodes[..], sizeLog, minLog, tree, k, Fill(mark), Relative(addr, vaddr));
    }

    /** The search of the multi-step path: nothing is allocated, but the nodes above the block found get split. */
    method SearchOnly(k: nat) returns (addr: Option<int>)
      requires ValidMetadata() && minLog <= k <= sizeLog
      modifies this`memAllocated, nodes
      ensures FoundFromRoot(old(nodes[..]), nodes[..], sizeLog, minLog, tree, k, Free, Relative(addr, vaddr))
      ensures memAllocated == old(memAllocated)
      ensures nodes[..nodes.Length - 1] == old(nodes[..nodes.Length - 1]) <==>
              addr.None? || PathSplit(tree, sizeLog, addr.value - vaddr, k)
    {
      ghost var a := nodes[..];
      addr := SearchRoot(k, false);
      LookingKeeps(a, nodes[..], sizeLog, minLog, tree, k, Relative(addr, vaddr));
      assert nodes[..][..nodes.Length - 1] == nodes[..nodes.Length - 1];
    }

    /** One block of at least `size` bytes, optionally pre-split; the lowest one that is free. */
    method KmallocBlock(size: nat, leaf: Option<nat>) returns (addr: Option<int>, got: nat)
      requires Valid() && 0 < size && RoundLog(size, minLog) <= sizeLog && LeafFits(leaf, minLog, RoundLog(size, minLog))
      modifies this`memAllocated, this`tree, nodes
      ensures Valid() && got == Pow2(RoundLog(size, minLog)) >= size
      ensures var k := RoundLog(size, minLog);
              Allocated(old(tree), tree, sizeLog, k, Piece(k, leaf), Relative(addr, vaddr))
      ensures addr.None? ==> nodes[..] == old(nodes[..])
    {
      var k := RoundLog(size, minLog);
      got := Pow2(k);
      addr := SearchRoot(k, true);
      if addr.Some? {
        ghost var o := addr.value - vaddr;
        if leaf.Some? {
          var n := PtrToNode(addr.value, k);
          ghost var b := nodes[..];
          EnterUpdate(b, sizeLog, minLog, tree, o, k, Full);
          SplitBlock(n, k, leaf.value);
          PieceShape(k, leaf, minLog);
          LeaveUpdate(b, nodes[..], sizeLog, minLog, tree, o, k, Full, Piece(k, leaf));
        }
        PutPiece(tree, sizeLog, minLog, o, k, Piece(k, leaf), leaf);
        tree := Update(tree, sizeLog, o, k, Piece(k, leaf));
      }
    }

    /** Almost exactly `size` bytes: descending powers of two out of one free big block. */
    method KmallocMultiStep(size: nat, leaf: Option<nat>) returns (addr: Option<int>)
      requires Valid() && MultiStepSize(size, leaf, minLog) && RoundLog(size, minLog) <= sizeLog
      modifies this`memAllocated, this`tree, nodes
      ensures Valid()
      ensures var k := RoundLog(size, minLog);
              Allocated(old(tree), tree, sizeLog, k, Prefix(k, size, leaf), Relative(addr, vaddr))
      ensures addr.None? ==> nodes[..] == old(nodes[..])
    {
      var k := RoundLog(size, minLog);
      var big := SearchOnly(k);
      if big.None? {
        return None;
      }
      ghost var o := big.value - vaddr;
      var node := PtrToNode(big.value, k);
      ghost var a := nodes[..];
      EnterUpdate(a, sizeLog, minLog, tree, o, k, Free);
      AlignedBig(size, LeafLog(leaf, minLog), k);
      var tot := FillBigBlock(node, k, size, o, leaf);
      PrefixShape(k, size, leaf, minLog);
      LeaveUpdate(a, nodes[..], sizeLog, minLog, tree, o, k, Free, Prefix(k, size, leaf));
      PutPrefix(tree, sizeLog, minLog, o, k, size, leaf);
      tree := Update(tree, sizeLog, o, k, Prefix(k, size, leaf));
      return big;
    }

    /** The multi-step loop over the bits of `size`, always searching from the big block's node. */
    method FillBigBlock(node: nat, k: nat, size: nat, ghost o: nat, leaf: Option<nat>) returns (tot: nat)
      requires Geometry() && minLog <= LeafLog(leaf, minLog) <= k <= sizeLog
      requires Aligned(o, k) && node == NodeIndex(sizeLog, o, k) && size < Pow2(k) && Aligned(size, LeafLog(leaf, minLog))
      requires Rep(nodes[..], node, k, minLog, Free)
      modifies nodes, this`memAllocated
      ensures Rep(nodes[..], node, k, minLog, Prefix(k, size, leaf)) && AgreeOutside(old(nodes[..]), nodes[..], node)
      ensures tot == size && memAllocated == old(memAllocated) + size
    {
      var i := sizeLog - 1;
      tot := 0;
      Pow2Monotone(k, sizeLog);
      HighEnds(size, sizeLog);
      while i >= 0 && tot < size
        invariant -1 <= i < sizeLog && tot == High(size, i + 1)
        invariant Rep(nodes[..], node, k, minLog, Prefix(k, tot, leaf)) && AgreeOutside(old(nodes[..]), nodes[..], node)
        invariant memAllocated == old(memAllocated) + tot
      {
        HighStep(size, i);
        if Bit(size, i) {
          BitRange(size, i, k, LeafLog(leaf, minLog));
          NextPiece(i, k, node, tot, o, leaf);
          tot := tot + Pow2(i);
        }
        i := i - 1;
      }
      if i >= 0 { HighStep(size, i + 1); }
    }

    /** One round of the multi-step loop: the next piece lands right behind the previous ones. */
    method NextPiece(i: nat, k: nat, node: nat, tot: nat, ghost o: nat, leaf: Option<nat>)
      requires Geometry() && minLog <= LeafLog(leaf, minLog) <= i < k <= sizeLog
      requires Aligned(o, k) && node == NodeIndex(sizeLog, o, k) && tot < Pow2(k) && Aligned(tot, i + 1)
      requires Rep(nodes[..], node, k, minLog, Prefix(k, tot, leaf))
      modifies nodes, this`memAllocated
      ensures Rep(nodes[..], node, k, minLog, Prefix(k, tot + Pow2(i), leaf)) && AgreeOutside(old(nodes[..]), nodes[..], node)
      ensures memAllocated == old(memAllocated) + Pow2(i)
    {
      ghost var p := Prefix(k, tot, leaf);
      PrefixSearch(k, tot, i, leaf, minLog);
      PrefixExtend(k, tot, i, leaf);
      AlignedWeaken(tot, i + 1, LeafLog(leaf, minLog));
      PrefixShape(k, tot, leaf, minLog);
      PlaceIsUpdate(p, k, minLog, i, Full);
      var addr := InternalKmalloc(i, node, k, true, o, p);
      assert addr == Some(vaddr + o + tot);
      if leaf.Some? {
        ghost var b := nodes[..];
        ghost var p1 := Update(p, k, tot, i, Full);
        RepAt(b, sizeLog, o, k, minLog, p1, tot, i);
        UpdateTwice(p, k, tot, i, Full, Piece(i, leaf));
        var n := PtrToNode(addr.value, i);
        SplitBlock(n, i, leaf.value);
        PieceShape(i, leaf, minLog);
        UpdatePath(p, k, tot, i, Full);
        RepUpdate(b, nodes[..], sizeLog, o, k, minLog, p1, tot, i, Piece(i, leaf));
      }
    }

    /** The allocation entry point, choosing between one block and the multi-step path. */
    method PerHeapKmalloc(size: nat, multiStep: bool, leaf: Option<nat>) returns (addr: Option<int>, got: nat)
      requires Valid() && 0 < size && (size <= Pow2(sizeLog) ==> RequestFits(size, multiStep, leaf, minLog))
      modifies this`memAllocated, this`tree, nodes
      ensures Valid() && (addr.None? ==> nodes[..] == old(nodes[..]) && tree == old(tree))
      ensures size > Pow2(sizeLog) ==> addr == None
      ensures size <= Pow2(sizeLog) ==>
                && RoundLog(size, minLog) <= sizeLog
                && Allocated(old(tree), tree, sizeLog, RoundLog(size, minLog), RequestTree(size, multiStep, leaf, minLog), Relative(addr, vaddr))
                && got == RequestBytes(size, multiStep, minLog) >= size
      ensures addr.Some? ==> if multiStep then size <= got < size + Pow2(minLog) && (Aligned(size, minLog) ==> got == size)
                             else got == Pow2(RoundLog(size, minLog))
    {
      if multiStep { MultiStepWaste(size, minLog); }
      if size > Pow2(sizeLog) {
        return None, size;
      }
      RoundLogBound(size, minLog, sizeLog);
      if !multiStep || Pow2(RoundLog(size, minLog)) - size < Pow2(minLog) {
        addr, got := KmallocBlock(size, leaf);
      } else {
        addr := KmallocMultiStep(size, leaf);
        got := size;
      }
    }

    /** Releases one block; size 0 means that the size is to be found from the metadata. */
    method KfreeBlock(ptr: int, userSize: nat, allowSplit: bool, ghost k: nat) returns (size: nat)
      requires ValidMetadata() && ptr >= vaddr && minLog <= k < sizeLog
      requires if userSize > 0 then k == RoundLog(userSize, minLog) else !allowSplit
      requires Releasable(tree, sizeLog, ptr - vaddr, k, allowSplit)
      modifies this`memAllocated, this`tree, nodes
      ensures ValidMetadata() && size == Pow2(k) && tree == FreeAt(old(tree), sizeLog, ptr - vaddr, k)
      ensures old(Valid() && CleanAt(tree, sizeLog, ptr - vaddr, k, minLog)) ==> Valid()
      ensures Live() == OutsideRange(old(Live()), ptr - vaddr, Pow2(k))
      ensures var s := SubAt(old(tree), sizeLog, ptr - vaddr, k);
              memAllocated == old(memAllocated) - (if s.Full? then Pow2(k) else MinBlocks(s, k, minLog) * Pow2(minLog))
    {
      var log;
      ghost var o := ptr - vaddr;
      if userSize > 0 {
        log := RoundLog(userSize, minLog);
      } else {
        LiveIsFullNode(tree, sizeLog, minLog, 0, o, k);
        log := CalculateBlockSize(ptr, Block(o, k));
      }
      RangeRemoved(tree, sizeLog, minLog, o, k);
      InternalKfree(ptr, log, allowSplit);
      size := Pow2(log);
    }

    /** One round of KfreeMultiStep. */
    method FreePiece(ptr: int, i: nat, allowSplit: bool, ghost o: nat, ghost size: nat)
      requires Valid() && minLog <= i < sizeLog && Bit(size, i) && ptr == vaddr + o + High(size, i + 1)
      requires PiecesReady(tree, sizeLog, minLog, o, size, i + 1, allowSplit)
      modifies this`memAllocated, this`tree, nodes
      ensures Valid() && PiecesReady(tree, sizeLog, minLog, o, size, i, allowSplit)
      ensures Live() == OutsideRange(old(Live()), o + High(size, i + 1), Pow2(i))
    {
      PieceReadyAt(tree, sizeLog, minLog, o, size, i, allowSplit);
      RangeRemoved(tree, sizeLog, minLog, o + High(size, i + 1), i);
      PiecesStayReady(tree, sizeLog, minLog, o, size, i, allowSplit);
      InternalKfree(ptr, i, allowSplit);
    }

    /** Releases `size` bytes at `ptr` in descending powers of two. */
    method KfreeMultiStep(ptr: int, size: nat, allowSplit: bool)
      requires Valid() && ptr >= vaddr && 0 < size < Pow2(sizeLog) && Aligned(size, minLog)
      requires PiecesReady(tree, sizeLog, minLog, ptr - vaddr, size, sizeLog, allowSplit)
      modifies this`memAllocated, this`tree, nodes
      ensures Valid() && Live() == OutsideRange(old(Live()), ptr - vaddr, size)
    {
      ghost var o := ptr - vaddr;
      var i, tot := sizeLog - 1, 0;
      HighEnds(size, sizeLog);
      while i >= 0 && tot < size
        invariant -1 <= i < sizeLog && tot == High(size, i + 1) && Valid()
        invariant PiecesReady(tree, sizeLog, minLog, o, size, i + 1, allowSplit)
        invariant Live() == OutsideRange(old(Live()), o, tot)
      {
        HighStep(size, i);
        if Bit(size, i) {
          BitRange(size, i, sizeLog, minLog);
          FreePiece(ptr + tot, i, allowSplit, o, size);
          RangesJoin(old(Live()), o, tot, Pow2(i));
          tot := tot + Pow2(i);
        }
        i := i - 1;
      }
      if i >= 0 { HighStep(size, i + 1); }
    }
  }

  lemma RoundLogExact(k: nat, m: nat)
    requires m <= k
    ensures RoundLog(Pow2(k), m) == k
  {
    var r := RoundLog(Pow2(k), m);
    RoundLogBound(Pow2(k), m, k);
    if r < k { Pow2Monotone(r, k); }
  }

  lemma BlockReleasable(t: Tree, s: nat, m: nat, b: Block)
    requires Fits(t, s, m) && b in Blocks(t, s, 0)
    ensures m <= b.log <= s && Releasable(t, s, b.off, b.log, false) && CleanAt(t, s, b.off, b.log, m)
  {
    LiveNode(t, s, m, b);
  }

  method ServeOne(h: Heap, q: Request) returns (reply: Option<int>)
    requires h.Valid() && Legal(h.tree, h.sizeLog, h.minLog, q)
    modifies h`memAllocated, h`tree, h.nodes
    ensures h.Valid() && h.tree == Step(old(h.tree), h.sizeLog, h.minLog, q)
    ensures q.Kmalloc? ==> var p := Alloc(old(h.tree), h.sizeLog, q.log); reply == if p.Some? then Some(h.vaddr + p.value.0) else None
  {
    ghost var t := h.tree;
    match q
    case Kmalloc(k) =>
      RoundLogExact(k, h.minLog);
      PlaceIsUpdate(t, h.sizeLog, h.minLog, k, Full);
      var got;
      reply, got := h.KmallocBlock(Pow2(k), None);
    case Kfree(o, k) =>
      BlockReleasable(t, h.sizeLog, h.minLog, Block(o, k));
      var size := h.KfreeBlock(h.vaddr + o, 0, false, k);
      reply := None;
  }

  /**
   Any run of allocations and frees on the heap itself: the live blocks are exactly those handed out and
   not given back, disjoint, inside the heap and aligned, and the counter is the number of bytes in them.
   */
  method Serve(h: Heap, qs: seq<Request>)
    requires h.Valid() && LegalRun(h.tree, h.sizeLog, h.minLog, qs)
    modifies h`memAllocated, h`tree, h.nodes
    ensures h.Valid() && h.tree == Run(old(h.tree), h.sizeLog, h.minLog, qs)
    ensures h.Live() == Ledger(old(h.tree), h.sizeLog, h.minLog, qs, old(h.Live())) && Safe(h.tree, h.sizeLog, h.minLog)
    ensures h.memAllocated == |LiveBytes(h.tree, h.sizeLog, 0)|
  {
    ghost var t := h.tree;
    RunIsSafe(t, h.sizeLog, h.minLog, qs);
    for i := 0 to |qs|
      invariant h.Valid() && LegalRun(h.tree, h.sizeLog, h.minLog, qs[i..])
      invariant Run(h.tree, h.sizeLog, h.minLog, qs[i..]) == Run(t, h.sizeLog, h.minLog, qs)
    {
      assert qs[i..][0] == qs[i] && qs[i..][1..] == qs[i + 1..];
      var reply := ServeOne(h, qs[i]);
    }
    assert qs[|qs|..] == [];
    TotalCountsBytes(h.tree, h.sizeLog, h.minLog, 0);
  }

  /** Allocating a block and freeing it, with or without giving its size, restores every node. */
  method AllocateThenFree(h: Heap, size: nat, giveSize: bool) returns (addr: Option<int>)
    requires h.Valid() && 0 < size && RoundLog(size, h.minLog) < h.sizeLog
    modifies h`memAllocated, h`tree, h.nodes
    ensures h.Valid() && h.tree == old(h.tree) && h.memAllocated == old(h.memAllocated)
    ensures h.nodes[..h.nodes.Length - 1] == old(h.nodes[..h.nodes.Length - 1])
  {
    ghost var k, a, t := RoundLog(size, h.minLog), h.nodes[..], h.tree;
    var got;
    addr, got := h.KmallocBlock(size, None);
    if addr.Some? {
      ghost var o := addr.value - h.vaddr;
      PlaceIsUpdate(t, h.sizeLog, h.minLog, k, Full);
      UpdateTwice(t, h.sizeLog, o, k, Full, Full);
      AllocThenFree(t, h.sizeLog, h.minLog, k);
      var sz := h.KfreeBlock(addr.value, if giveSize then size else 0, false, k);
      RepUnique(a, h.nodes[..], h.sizeLog, h.minLog, t);
    }
  }

  /** A multi-step allocation and the multi-step release of the same base and size cancel out. */
  method MultiStepThenFree(h: Heap, size: nat, leaf: Option<nat>) returns (addr: Option<int>)
    requires h.Valid() && MultiStepSize(size, leaf, h.minLog) && RoundLog(size, h.minLog) <= h.sizeLog
    requires leaf.Some? ==> leaf.value == h.minLog
    modifies h`memAllocated, h`tree, h.nodes
    ensures h.Valid() && h.tree == old(h.tree) && h.memAllocated == old(h.memAllocated)
    ensures h.nodes[..h.nodes.Length - 1] == old(h.nodes[..h.nodes.Length - 1])
  {
    ghost var k, a, t := RoundLog(size, h.minLog), h.nodes[..], h.tree;
    addr := h.KmallocMultiStep(size, leaf);
    if addr.Some? {
      ghost var o := addr.value - h.vaddr;
      PlaceIsUpdate(t, h.sizeLog, h.minLog, k, Full);
      MultiStepReady(t, h.sizeLog, h.minLog, o, k, size, leaf);
      Pow2Monotone(k, h.sizeLog);
      h.KfreeMultiStep(addr.value, size, leaf.Some?);
      CanonicalUnique(h.tree, t, h.sizeLog, h.minLog, 0);
      RepUnique(a, h.nodes[..], h.sizeLog, h.minLog, t);
    }
  }

  /** One smallest block is released, with its size read off the flags. */
  method ReleaseLeaf(h: Heap, ptr: int, ghost b: Block)
    requires h.Valid() && h.minLog < h.sizeLog && b in h.Live() && b.log == h.minLog && ptr == h.vaddr + b.off
    modifies h`memAllocated, h`tree, h.nodes
    ensures h.Valid() && h.Live() == old(h.Live()) - {b}
  {
    BlockReleasable(h.tree, h.sizeLog, h.minLog, b);
    FreeBlocks(h.tree, h.sizeLog, h.minLog, 0, b.off, b.log);
    LiveNode(h.tree, h.sizeLog, h.minLog, b);
    var size := h.KfreeBlock(ptr, 0, false, b.log);
  }

  /** The offsets are those of different leaves. */
  ghost predicate DifferentLeaves(leaves: seq<nat>, k: nat, m: nat) {
    && (forall i | 0 <= i < |leaves| :: NodeAt(k, leaves[i], m))
    && (forall i, j | 0 <= i < j < |leaves| :: leaves[i] != leaves[j])
  }

  /** The leaves at the given offsets of the pre-split block at `ptr` are released one by one. */
  method ReleaseLeaves(h: Heap, ptr: int, leaves: seq<nat>, ghost k: nat, ghost rest: set<Block>)
    requires h.Valid() && h.minLog <= k < h.sizeLog && ptr >= h.vaddr && DifferentLeaves(leaves, k, h.minLog)
    requires rest !! Blocks(Leafy(k, h.minLog), k, ptr - h.vaddr)
    requires h.Live() == rest + LeavesLeft(ptr - h.vaddr, k, h.minLog, [])
    modifies h`memAllocated, h`tree, h.nodes
    ensures h.Valid() && h.Live() == rest + LeavesLeft(ptr - h.vaddr, k, h.minLog, leaves)
  {
    ghost var o := ptr - h.vaddr;
    for i := 0 to |leaves|
      invariant h.Valid() && h.Live() == rest + LeavesLeft(o, k, h.minLog, leaves[..i])
    {
      assert leaves[..i + 1] == leaves[..i] + [leaves[i]];
      LeafGone(o, k, h.minLog, leaves[..i], leaves[i]);
      ReleaseLeaf(h, ptr + leaves[i], Block(o + leaves[i], h.minLog));
    }
    assert leaves[..|leaves|] == leaves;
  }

  /**
   A block pre-split into smallest leaves, any proper subset of which is released one by one in any order,
   and then released as a whole: every node and the counter are as before the allocation.
   */
  method PreSplitThenFree(h: Heap, size: nat, leaves: seq<nat>, ghost keep: nat) returns (addr: Option<int>)
    requires h.Valid() && 0 < size && RoundLog(size, h.minLog) < h.sizeLog
    requires DifferentLeaves(leaves, RoundLog(size, h.minLog), h.minLog)
    requires NodeAt(RoundLog(size, h.minLog), keep, h.minLog) && keep !in leaves
    modifies h`memAllocated, h`tree, h.nodes
    ensures h.Valid() && h.tree == old(h.tree) && h.memAllocated == old(h.memAllocated)
    ensures h.nodes[..h.nodes.Length - 1] == old(h.nodes[..h.nodes.Length - 1])
  {
    ghost var k, a, t, s, m := RoundLog(size, h.minLog), h.nodes[..], h.tree, h.sizeLog, h.minLog;
    var got;
    addr, got := h.KmallocBlock(size, Some(h.minLog));
    if addr.Some? {
      ghost var o := addr.value - h.vaddr;
      PlaceIsUpdate(t, s, m, k, Full);
      ReleaseAll(h, addr.value, size, leaves, k, t, keep);
      RepUnique(a, h.nodes[..], s, m, t);
    }
  }

  /** The releases of PreSplitThenFree; `t` is the tree before the allocation. */
  method ReleaseAll(h: Heap, ptr: int, size: nat, leaves: seq<nat>, ghost k: nat, ghost t: Tree, ghost keep: nat)
    requires h.Valid() && h.minLog <= k == RoundLog(size, h.minLog) < h.sizeLog && ptr >= h.vaddr && 0 < size
    requires DifferentLeaves(leaves, k, h.minLog) && NodeAt(k, keep, h.minLog) && keep !in leaves
    requires Fits(t, h.sizeLog, h.minLog) && Canonical(t) && FreeNodeAt(t, h.sizeLog, ptr - h.vaddr, k)
    requires h.Live() == Blocks(t, h.sizeLog, 0) + Blocks(Leafy(k, h.minLog), k, ptr - h.vaddr)
    modifies h`memAllocated, h`tree, h.nodes
    ensures h.Valid() && h.tree == t
  {
    ghost var o, s, m := ptr - h.vaddr, h.sizeLog, h.minLog;
    LeavesApart(t, s, m, o, k);
    ReleaseLeaves(h, ptr, leaves, k, Blocks(t, s, 0));
    RemainingReleasable(h.tree, t, s, m, o, k, leaves, keep);
    var freed := h.KfreeBlock(ptr, size, true, k);
    CanonicalUnique(h.tree, t, s, m, 0);
  }

  /** The leaves are none of the blocks that were live before. */
  lemma LeavesApart(t: Tree, s: nat, m: nat, o: nat, k: nat)
    requires Fits(t, s, m) && Canonical(t) && m <= k && FreeNodeAt(t, s, o, k)
    ensures Blocks(t, s, 0) !! Blocks(Leafy(k, m), k, o)
    ensures forall b | b in Blocks(t, s, 0) :: !(o <= b.off < o + Pow2(k))
    ensures LeavesLeft(o, k, m, []) == Blocks(Leafy(k, m), k, o)
  {
    RangeFreeIsFreeNode(t, s, m, 0, o, k);
    forall b | b in Blocks(t, s, 0) ensures !(o <= b.off < o + Pow2(k)) {
      assert End(b) <= 0 + o || 0 + o + Pow2(k) <= b.off;
    }
    forall b | b in Blocks(Leafy(k, m), k, o) ensures b !in Blocks(t, s, 0) { LeafyBlocks(k, m, o, b); }
  }

  lemma RemainingReleasable(u: Tree, t: Tree, s: nat, m: nat, o: nat, k: nat, done: seq<nat>, keep: nat)
    requires Fits(t, s, m) && Canonical(t) && Fits(u, s, m) && Canonical(u) && m <= k && FreeNodeAt(t, s, o, k)
    requires Blocks(u, s, 0) == Blocks(t, s, 0) + LeavesLeft(o, k, m, done)
    requires NodeAt(k, keep, m) && keep !in done
    ensures Releasable(u, s, o, k, true) && CleanAt(u, s, o, k, m)
    ensures OutsideRange(Blocks(u, s, 0), o, Pow2(k)) == Blocks(t, s, 0)
  {
    LeavesApart(t, s, m, o, k);
    LeavesInRange(o, k, m, done, keep);
    PreSplitRelease(u, s, m, o, k, LeavesLeft(o, k, m, done));
  }

  /** A block pre-split into larger leaves and then released whole is gone, but all of its bytes stay counted. */
  method LargeLeavesLeak(h: Heap, size: nat, leaf: nat) returns (addr: Option<int>)
    requires h.Valid() && 0 < size && h.minLog < leaf < RoundLog(size, h.minLog) < h.sizeLog
    modifies h`memAllocated, h`tree, h.nodes
    ensures h.ValidMetadata() && h.tree == old(h.tree)
    ensures addr.Some? <==> Alloc(old(h.tree), h.sizeLog, RoundLog(size, h.minLog)).Some?
    ensures h.memAllocated == old(h.memAllocated) + if addr.Some? then Pow2(RoundLog(size, h.minLog)) else 0
  {
    ghost var k, t, s, m := RoundLog(size, h.minLog), h.tree, h.sizeLog, h.minLog;
    var got;
    addr, got := h.KmallocBlock(size, Some(leaf));
    if addr.Some? {
      ghost var o := addr.value - h.vaddr;
      PlaceIsUpdate(t, s, m, k, Full);
      PlacedWhole(t, s, m, o, k, leaf);
      var freed := h.KfreeBlock(addr.value, size, true, k);
    }
  }

  lemma PlacedWhole(t: Tree, s: nat, m: nat, o: nat, k: nat, leaf: nat)
    requires Fits(t, s, m) && Canonical(t) && m < leaf < k && FreeNodeAt(t, s, o, k)
    ensures var u := Update(t, s, o, k, Leafy(k, leaf));
            && Releasable(u, s, o, k, true) && SubAt(u, s, o, k) == Leafy(k, leaf) && MinBlocks(Leafy(k, leaf), k, m) == 0
            && FreeAt(u, s, o, k) == t && Total(u, s) == Total(t, s) + Pow2(k)
  {
    var p := Leafy(k, leaf);
    var u := Update(t, s, o, k, p);
    LeafyShape(k, leaf, m);
    LeafyMin(k, leaf, m);
    AlignedScale(0, k);
    SubOfUpdate(t, s, o, k, p, 0, k);
    PutPiece(t, s, m, o, k, p, Some(leaf));
    FreeBlocks(u, s, m, 0, o, k);
    LeafyApart(t, s, m, o, k, leaf);
    CanonicalUnique(FreeAt(u, s, o, k), t, s, m, 0);
  }

  lemma LeafyApart(t: Tree, s: nat, m: nat, o: nat, k: nat, leaf: nat)
    requires Fits(t, s, m) && Canonical(t) && m <= leaf <= k && FreeNodeAt(t, s, o, k)
    ensures Blocks(t, s, 0) !! Blocks(Leafy(k, leaf), k, o)
  {
    LeavesApart(t, s, m, o, k);
    forall b | b in Blocks(Leafy(k, leaf), k, o) ensures b !in Blocks(t, s, 0) { LeafyBlocks(k, leaf, o, b); }
  }

  lemma {:induction false} LeafyMin(k: nat, leaf: nat, m: nat)
    requires m < leaf <= k
    ensures MinBlocks(Leafy(k, leaf), k, m) == 0
    decreases k
  {
    if leaf < k { LeafyMin(k - 1, leaf, m); }
  }

  /** The smallest case: eight bytes, a block of four in halves, released: four bytes counted, none live. */
  method LeakExample() returns (h: Heap)
    ensures h.tree == Free && h.Live() == {} && h.memAllocated == 4
  {
    h := new Heap(0, 3, 0);
    RoundLogExact(2, 0);
    assert Pow2(2) == 4;
    var addr := LargeLeavesLeak(h, 4, 1);
  }

  /** The smallest empty heap that grows: the new root stays split above two free halves. */
  method ExpandEmpty() returns (h: Heap)
    ensures h.Live() == {} && !h.ValidMetadata()
  {
    var small := new Heap(0, 0, 0);
    h := new Heap.DupExpanded(small, 1);
  }
}
