/**
 Whole runs on a heap: a client that asks for areas of any size, in one block or in pieces, pre-split or
 not, and gives back areas it holds in any order.
 */
module BuddyClient {
  import opened Arith
  import opened BuddyTree
  import opened BuddyNodes
  import opened BuddySteps
  import opened BuddyRows
  import opened BuddyHeap

  /** `Put` gives back the area at that place in the list of those held. */
  datatype Call = Get(size: nat, multiStep: bool, preSplit: bool) | Put(index: nat)

  datatype Area = Area(off: nat, size: nat, multiStep: bool, leaf: Option<nat>)

  ghost function Owned(g: Area, m: nat): set<Block> {
    Blocks(RequestTree(g.size, g.multiStep, g.leaf, m), RoundLog(g.size, m), g.off)
  }

  function Bytes(g: Area, m: nat): nat {
    RequestBytes(g.size, g.multiStep, m)
  }

  ghost predicate Sound(g: Area, s: nat, m: nat) {
    && 0 < g.size && (g.leaf.Some? ==> g.leaf.value == m)
    && (g.multiStep ==> Aligned(g.size, m)) && NodeAt(s, g.off, RoundLog(g.size, m))
  }

  /** The live blocks are those of `base` and those of the areas held, and no block belongs to two of them. */
  ghost predicate Holding(live: set<Block>, base: set<Block>, held: seq<Area>, m: nat) {
    if held == [] then live == base
    else Owned(held[0], m) <= live && Holding(live - Owned(held[0], m), base, held[1..], m)
  }

  lemma {:induction false} HoldingOne(live: set<Block>, base: set<Block>, held: seq<Area>, m: nat, i: nat)
    requires Holding(live, base, held, m) && i < |held|
    ensures Owned(held[i], m) <= live && Holding(live - Owned(held[i], m), base, held[..i] + held[i + 1..], m)
    decreases i
  {
    if i == 0 {
      assert held[..0] + held[1..] == held[1..];
    } else {
      var own, rest := Owned(held[0], m), held[1..];
      HoldingOne(live - own, base, rest, m, i - 1);
      var less := held[..i] + held[i + 1..];
      assert less[0] == held[0] && less[1..] == rest[..i - 1] + rest[i..];
      assert live - own - Owned(held[i], m) == live - Owned(held[i], m) - own;
    }
  }

  lemma {:induction false} HoldingBase(live: set<Block>, base: set<Block>, held: seq<Area>, m: nat)
    requires Holding(live, base, held, m)
    ensures base <= live
    decreases |held|
  {
    if held != [] { HoldingBase(live - Owned(held[0], m), base, held[1..], m); }
  }

  // ------------------------------------------------------ what an area consists of

  /** The blocks of an area cover exactly its bytes. */
  lemma AreaCovers(g: Area, s: nat, m: nat, addr: nat)
    requires Sound(g, s, m)
    ensures (exists b :: b in Owned(g, m) && b.off <= addr < End(b)) <==> g.off <= addr < g.off + Bytes(g, m)
  {
    var k := RoundLog(g.size, m);
    if RequestTree(g.size, g.multiStep, g.leaf, m) == Piece(k, g.leaf) && Bytes(g, m) == Pow2(k) {
      PieceCovers(k, g.leaf, m, g.off, addr);
    } else {
      PrefixCovers(k, g.size, g.leaf, m, g.off, addr);
    }
  }

  /** The live blocks that start in the range of a live area are its own. */
  lemma AreaRange(t: Tree, g: Area, s: nat, m: nat)
    requires Fits(t, s, m) && Sound(g, s, m) && Owned(g, m) <= Blocks(t, s, 0)
    ensures OutsideRange(Blocks(t, s, 0), g.off, Bytes(g, m)) == Blocks(t, s, 0) - Owned(g, m)
  {
    forall b | b in Blocks(t, s, 0) ensures b in Owned(g, m) <==> g.off <= b.off < g.off + Bytes(g, m) {
      AreaCovers(g, s, m, b.off);
      if g.off <= b.off < g.off + Bytes(g, m) {
        var a :| a in Owned(g, m) && a.off <= b.off < End(a);
        if a != b { BlocksDisjoint(t, s, m, 0, a, b); }
      }
    }
  }

  /** Two areas that are live together, and share no block, share no byte. */
  lemma AreasApart(t: Tree, g: Area, f: Area, s: nat, m: nat)
    requires Fits(t, s, m) && Sound(g, s, m) && Sound(f, s, m)
    requires Owned(g, m) <= Blocks(t, s, 0) && Owned(f, m) <= Blocks(t, s, 0) - Owned(g, m)
    ensures g.off + Bytes(g, m) <= f.off || f.off + Bytes(f, m) <= g.off
  {
    var x := if g.off <= f.off then f.off else g.off;
    if g.off <= x < g.off + Bytes(g, m) && f.off <= x < f.off + Bytes(f, m) {
      AreaCovers(g, s, m, x);
      AreaCovers(f, s, m, x);
      var a :| a in Owned(g, m) && a.off <= x < End(a);
      var b :| b in Owned(f, m) && b.off <= x < End(b);
      BlocksDisjoint(t, s, m, 0, a, b);
    }
  }

  /** A live area accounts for its bytes in the total. */
  lemma AreaCounted(t: Tree, u: Tree, g: Area, s: nat, m: nat)
    requires Fits(t, s, m) && Fits(u, s, m) && Sound(g, s, m)
    requires Owned(g, m) <= Blocks(u, s, 0) && Blocks(t, s, 0) == Blocks(u, s, 0) - Owned(g, m)
    ensures Total(u, s) == Total(t, s) + Bytes(g, m)
  {
    var rest, area := LiveBytes(t, s, 0), Interval(g.off, Bytes(g, m));
    assert |LiveBytes(u, s, 0)| == |rest| + |area| by {
      forall x: nat ensures (x in LiveBytes(u, s, 0) <==> x in rest || x in area) && !(x in rest && x in area) {
        AreaBytes(t, u, g, s, m, x);
      }
      SizesAdd(LiveBytes(u, s, 0), rest, area);
    }
    TotalCountsBytes(t, s, m, 0);
    TotalCountsBytes(u, s, m, 0);
  }

  lemma SizesAdd(all: set<nat>, a: set<nat>, b: set<nat>)
    requires forall x :: (x in all <==> x in a || x in b) && !(x in a && x in b)
    ensures |all| == |a| + |b|
  {
    assert all == a + b;
  }

  lemma AreaBytes(t: Tree, u: Tree, g: Area, s: nat, m: nat, x: nat)
    requires Fits(t, s, m) && Fits(u, s, m) && Sound(g, s, m)
    requires Owned(g, m) <= Blocks(u, s, 0) && Blocks(t, s, 0) == Blocks(u, s, 0) - Owned(g, m)
    ensures x in LiveBytes(u, s, 0) <==> x in LiveBytes(t, s, 0) || g.off <= x < g.off + Bytes(g, m)
    ensures !(x in LiveBytes(t, s, 0) && g.off <= x < g.off + Bytes(g, m))
  {
    LiveBytesCovered(t, s, 0, x);
    LiveBytesCovered(u, s, 0, x);
    AreaCovers(g, s, m, x);
    if x in LiveBytes(t, s, 0) && g.off <= x < g.off + Bytes(g, m) {
      var a :| a in Owned(g, m) && a.off <= x < End(a);
      var b :| b in Blocks(t, s, 0) && b.off <= x < End(b);
      BlocksDisjoint(u, s, m, 0, a, b);
    }
  }

  // ------------------------------------------------------ giving back

  /** A piece whose blocks are all live can be released as a whole. */
  lemma PieceReleasable(t: Tree, s: nat, m: nat, o: nat, k: nat, leaf: Option<nat>)
    requires Fits(t, s, m) && Canonical(t) && m <= k && NodeAt(s, o, k) && (leaf.Some? ==> leaf.value == m)
    requires Blocks(Piece(k, leaf), k, o) <= Blocks(t, s, 0)
    ensures Releasable(t, s, o, k, leaf.Some?) && CleanAt(t, s, o, k, m)
  {
    if Piece(k, leaf) == Full {
      BlockReleasable(t, s, m, Block(o, k));
    } else {
      var g := Area(o, Pow2(k), false, leaf);
      RoundLogExact(k, m);
      AreaRange(t, g, s, m);
      var left := set b | b in Blocks(t, s, 0) && o <= b.off < o + Pow2(k);
      assert OutsideRange(Blocks(t, s, 0), o, Pow2(k)) == Blocks(t, s, 0) - left;
      assert left == Owned(g, m);
      PieceSmall(k, leaf, m, o);
      AreaCovers(g, s, m, o);
      PreSplitRelease(t, s, m, o, k, left);
    }
  }

  /** So can every piece of a multi-step area. */
  lemma PiecesReleasable(t: Tree, g: Area, s: nat, m: nat)
    requires Fits(t, s, m) && Canonical(t) && Sound(g, s, m) && Owned(g, m) <= Blocks(t, s, 0) && InPieces(g, m)
    ensures PiecesReady(t, s, m, g.off, g.size, s, g.leaf.Some?)
  {
    forall j: nat | j < s && Bit(g.size, j) ensures PieceReady(t, s, m, g.off, g.size, j, g.leaf.Some?) {
      OnePiece(g, s, m, j);
      PieceReleasable(t, s, m, g.off + High(g.size, j + 1), j, g.leaf);
    }
  }

  lemma OnePiece(g: Area, s: nat, m: nat, j: nat)
    requires Sound(g, s, m) && InPieces(g, m) && Bit(g.size, j)
    ensures var o := g.off + High(g.size, j + 1);
            m <= j && NodeAt(s, o, j) && Blocks(Piece(j, g.leaf), j, o) <= Owned(g, m)
  {
    var k, x := RoundLog(g.size, m), High(g.size, j + 1);
    var p := Prefix(k, g.size, g.leaf);
    BitRange(g.size, j, k, m);
    PrefixPiece(k, g.size, j, g.leaf);
    PrefixShape(k, g.size, g.leaf, m);
    NodeBelow(s, g.off, k, x, j);
    forall b | b in Blocks(Piece(j, g.leaf), j, g.off + x) ensures b in Owned(g, m) {
      BlocksInRange(p, k, m, g.off, x, j, b);
    }
  }

  /** The multi-step path serves the request. */
  predicate InPieces(g: Area, m: nat) {
    g.multiStep && Pow2(RoundLog(g.size, m)) - g.size >= Pow2(m)
  }

  method PutBack(h: Heap, g: Area)
    requires h.Valid() && Sound(g, h.sizeLog, h.minLog) && Owned(g, h.minLog) <= h.Live() && Bytes(g, h.minLog) < Pow2(h.sizeLog)
    modifies h`memAllocated, h`tree, h.nodes
    ensures h.Valid() && h.Live() == old(h.Live()) - Owned(g, h.minLog) && h.memAllocated == old(h.memAllocated) - Bytes(g, h.minLog)
  {
    ghost var u := h.tree;
    AreaRange(h.tree, g, h.sizeLog, h.minLog);
    if InPieces(g, h.minLog) {
      PiecesReleasable(h.tree, g, h.sizeLog, h.minLog);
      h.KfreeMultiStep(h.vaddr + g.off, g.size, g.leaf.Some?);
    } else {
      ghost var k := RoundLog(g.size, h.minLog);
      PieceReleasable(h.tree, h.sizeLog, h.minLog, g.off, k, g.leaf);
      var size := h.KfreeBlock(h.vaddr + g.off, g.size, g.leaf.Some?, k);
    }
    AreaCounted(h.tree, u, g, h.sizeLog, h.minLog);
  }

  // ------------------------------------------------------ asking

  /** What a request was given is a new area. */
  lemma NewArea(t: Tree, u: Tree, g: Area, s: nat, m: nat)
    requires Fits(t, s, m) && Canonical(t) && Fits(u, s, m) && RoundLog(g.size, m) <= s
    requires 0 < g.size && (g.leaf.Some? ==> g.leaf.value == m) && (g.multiStep ==> Aligned(g.size, m))
    requires Allocated(t, u, s, RoundLog(g.size, m), RequestTree(g.size, g.multiStep, g.leaf, m), Some(g.off))
    ensures Sound(g, s, m) && Owned(g, m) !! Blocks(t, s, 0) && Blocks(u, s, 0) == Blocks(t, s, 0) + Owned(g, m)
    ensures Total(u, s) == Total(t, s) + Bytes(g, m)
  {
    PlaceIsUpdate(t, s, m, RoundLog(g.size, m), Full);
    NotLive(t, g, s, m);
    AreaCounted(t, u, g, s, m);
  }

  lemma NotLive(t: Tree, g: Area, s: nat, m: nat)
    requires Fits(t, s, m) && Canonical(t) && Sound(g, s, m) && FreeNodeAt(t, s, g.off, RoundLog(g.size, m))
    ensures Owned(g, m) !! Blocks(t, s, 0)
  {
    var k := RoundLog(g.size, m);
    var p := RequestTree(g.size, g.multiStep, g.leaf, m);
    assert Fits(p, k, m) by {
      if InPieces(g, m) { PrefixShape(k, g.size, g.leaf, m); } else { PieceShape(k, g.leaf, m); }
    }
    RangeFreeIsFreeNode(t, s, m, 0, g.off, k);
    forall b | b in Owned(g, m) ensures b !in Blocks(t, s, 0) {
      BlockBounds(p, k, m, g.off, b);
    }
  }

  /** A request is refused when it exceeds the heap or no block of the rounded size is free. */
  ghost predicate Refused(t: Tree, s: nat, m: nat, size: nat) {
    size > Pow2(s) || RoundLog(size, m) > s || Alloc(t, s, RoundLog(size, m)).None?
  }

  /** What a request that is not refused gets: the start of the lowest free block of the rounded size. */
  ghost function Granted(t: Tree, s: nat, m: nat, size: nat, multiStep: bool, preSplit: bool): Area
    requires !Refused(t, s, m, size)
  {
    Area(Alloc(t, s, RoundLog(size, m)).value.0, size, multiStep, if preSplit then Some(m) else None)
  }

  method Ask(h: Heap, size: nat, multiStep: bool, preSplit: bool) returns (g: Option<Area>)
    requires h.Valid() && 0 < size && (multiStep ==> Aligned(size, h.minLog))
    modifies h`memAllocated, h`tree, h.nodes
    ensures h.Valid() && (g.None? <==> Refused(old(h.tree), h.sizeLog, h.minLog, size))
    ensures g.None? ==> h.tree == old(h.tree) && h.memAllocated == old(h.memAllocated) && h.nodes[..] == old(h.nodes[..])
    ensures g.Some? ==>
              && g.value == Granted(old(h.tree), h.sizeLog, h.minLog, size, multiStep, preSplit)
              && Sound(g.value, h.sizeLog, h.minLog)
              && (if multiStep then Bytes(g.value, h.minLog) == size else Bytes(g.value, h.minLog) == Pow2(RoundLog(size, h.minLog)))
              && Bytes(g.value, h.minLog) >= size && Owned(g.value, h.minLog) !! old(h.Live())
              && h.Live() == old(h.Live()) + Owned(g.value, h.minLog)
              && h.memAllocated == old(h.memAllocated) + Bytes(g.value, h.minLog)
  {
    ghost var t := h.tree;
    var leaf := if preSplit then Some(h.minLog) else None;
    var addr, got := h.PerHeapKmalloc(size, multiStep, leaf);
    if addr.None? {
      return None;
    }
    g := Some(Area(addr.value - h.vaddr, size, multiStep, leaf));
    NewArea(t, h.tree, g.value, h.sizeLog, h.minLog);
  }

  // ------------------------------------------------------ runs

  ghost predicate CallOk(c: Call, m: nat) {
    c.Get? ==> 0 < c.size && (c.multiStep ==> Aligned(c.size, m))
  }

  /** All bytes held. */
  ghost function Sum(held: seq<Area>, m: nat): nat {
    if held == [] then 0 else Bytes(held[0], m) + Sum(held[1..], m)
  }

  lemma {:induction false} SumWithout(held: seq<Area>, m: nat, i: nat)
    requires i < |held|
    ensures Sum(held, m) == Bytes(held[i], m) + Sum(held[..i] + held[i + 1..], m)
    decreases i
  {
    var less := held[..i] + held[i + 1..];
    if i == 0 {
      assert less == held[1..];
    } else {
      SumWithout(held[1..], m, i - 1);
      assert less[0] == held[0] && less[1..] == held[1..][..i - 1] + held[1..][i..];
    }
  }

  /**
   What a run keeps, from a heap with the live blocks `base` and the counter `was`: the live blocks are
   those of `base` and of the areas held, each belonging to one of them, and the counter has grown by the
   bytes held.
   */
  ghost predicate Balanced(h: Heap, base: set<Block>, was: int, held: seq<Area>)
    reads h, h.nodes
  {
    && h.Valid() && Holding(h.Live(), base, held, h.minLog) && h.memAllocated == was + Sum(held, h.minLog)
    && forall i | 0 <= i < |held| :: Sound(held[i], h.sizeLog, h.minLog)
  }

  /** Of the areas held no two share a byte. */
  lemma HeldApart(h: Heap, base: set<Block>, was: int, held: seq<Area>, i: nat, j: nat)
    requires Balanced(h, base, was, held) && i < j < |held|
    ensures held[i].off + Bytes(held[i], h.minLog) <= held[j].off || held[j].off + Bytes(held[j], h.minLog) <= held[i].off
  {
    HoldingOne(h.Live(), base, held, h.minLog, j);
    var less := held[..j] + held[j + 1..];
    HoldingOne(h.Live() - Owned(held[j], h.minLog), base, less, h.minLog, i);
    AreasApart(h.tree, held[j], held[i], h.sizeLog, h.minLog);
  }

  /** Nor does one with a block that was live before. */
  lemma BaseApart(h: Heap, base: set<Block>, was: int, held: seq<Area>, i: nat, b: Block)
    requires Balanced(h, base, was, held) && i < |held| && b in base
    ensures End(b) <= held[i].off || held[i].off + Bytes(held[i], h.minLog) <= b.off
  {
    var g := held[i];
    HoldingOne(h.Live(), base, held, h.minLog, i);
    HoldingBase(h.Live() - Owned(g, h.minLog), base, held[..i] + held[i + 1..], h.minLog);
    var x := if g.off <= b.off then b.off else g.off;
    if x < End(b) && x < g.off + Bytes(g, h.minLog) {
      AreaCovers(g, h.sizeLog, h.minLog, x);
      var a :| a in Owned(g, h.minLog) && a.off <= x < End(a);
      BlocksDisjoint(h.tree, h.sizeLog, h.minLog, 0, a, b);
    }
  }

  /** The heap and the areas held between two calls. */
  datatype Moment = Moment(tree: Tree, held: seq<Area>)

  /**
   What one call does. An area that is the whole heap is kept, because the code cannot release it, and so
   is everything when the client does not hold the area.
   */
  ghost predicate Moved(x: Moment, c: Call, y: Moment, s: nat, m: nat) {
    match c
    case Get(size, multiStep, preSplit) =>
      if Refused(x.tree, s, m, size) then y == x
      else
        var g := Granted(x.tree, s, m, size, multiStep, preSplit);
        y.held == [g] + x.held && Blocks(y.tree, s, 0) == Blocks(x.tree, s, 0) + Owned(g, m)
    case Put(i) =>
      if i >= |x.held| || Bytes(x.held[i], m) >= Pow2(s) then y == x
      else y.held == x.held[..i] + x.held[i + 1..] && Blocks(y.tree, s, 0) == Blocks(x.tree, s, 0) - Owned(x.held[i], m)
  }

  /** Nothing else can be the outcome of a call. */
  lemma MovedUnique(x: Moment, c: Call, y: Moment, z: Moment, s: nat, m: nat)
    requires Moved(x, c, y, s, m) && Moved(x, c, z, s, m)
    requires Fits(y.tree, s, m) && Canonical(y.tree) && Fits(z.tree, s, m) && Canonical(z.tree)
    ensures y == z
  {
    CanonicalUnique(y.tree, z.tree, s, m, 0);
  }

  method OneGet(h: Heap, c: Call, held: seq<Area>, ghost base: set<Block>, ghost was: int) returns (held': seq<Area>)
    requires c.Get? && Balanced(h, base, was, held) && CallOk(c, h.minLog)
    modifies h`memAllocated, h`tree, h.nodes
    ensures Balanced(h, base, was, held')
    ensures Moved(Moment(old(h.tree), held), c, Moment(h.tree, held'), h.sizeLog, h.minLog)
  {
    ghost var live := h.Live();
    var g := Ask(h, c.size, c.multiStep, c.preSplit);
    if g.None? {
      return held;
    }
    held' := [g.value] + held;
    assert held'[1..] == held && h.Live() - Owned(g.value, h.minLog) == live;
  }

  method OnePut(h: Heap, c: Call, held: seq<Area>, ghost base: set<Block>, ghost was: int) returns (held': seq<Area>)
    requires c.Put? && Balanced(h, base, was, held)
    modifies h`memAllocated, h`tree, h.nodes
    ensures Balanced(h, base, was, held')
    ensures Moved(Moment(old(h.tree), held), c, Moment(h.tree, held'), h.sizeLog, h.minLog)
  {
    var i := c.index;
    if i >= |held| || Bytes(held[i], h.minLog) >= Pow2(h.sizeLog) {
      return held;
    }
    HoldingOne(h.Live(), base, held, h.minLog, i);
    SumWithout(held, h.minLog, i);
    PutBack(h, held[i]);
    held' := held[..i] + held[i + 1..];
  }

  /** The calls lead from each moment to the next. */
  ghost predicate Traced(moments: seq<Moment>, calls: seq<Call>, s: nat, m: nat) {
    |moments| == |calls| + 1 && forall i | 0 <= i < |calls| :: Moved(moments[i], calls[i], moments[i + 1], s, m)
  }

  /**
   Any run of requests, in one block or in pieces, pre-split or not, and of releases in any order: nothing
   is lost, handed out twice or miscounted, and once everything is given back every node is as at the start.
   */
  method Run(h: Heap, calls: seq<Call>) returns (held: seq<Area>, ghost moments: seq<Moment>)
    requires h.Valid() && forall i | 0 <= i < |calls| :: CallOk(calls[i], h.minLog)
    modifies h`memAllocated, h`tree, h.nodes
    ensures Balanced(h, old(h.Live()), old(h.memAllocated), held)
    ensures Traced(moments, calls, h.sizeLog, h.minLog)
    ensures moments[0] == Moment(old(h.tree), []) && moments[|calls|] == Moment(h.tree, held)
    ensures held == [] ==> h.tree == old(h.tree) && h.nodes[..h.nodes.Length - 1] == old(h.nodes[..h.nodes.Length - 1])
  {
    ghost var base, was, t, a := h.Live(), h.memAllocated, h.tree, h.nodes[..];
    held := [];
    moments := [Moment(t, held)];
    for i := 0 to |calls|
      invariant Balanced(h, base, was, held)
      invariant Traced(moments, calls[..i], h.sizeLog, h.minLog)
      invariant moments[0] == Moment(t, []) && moments[i] == Moment(h.tree, held)
    {
      assert CallOk(calls[i], h.minLog);
      if calls[i].Get? {
        held := OneGet(h, calls[i], held, base, was);
      } else {
        held := OnePut(h, calls[i], held, base, was);
      }
      moments := Extended(moments, calls, i, Moment(h.tree, held), h.sizeLog, h.minLog);
    }
    assert calls[..|calls|] == calls;
    if held == [] {
      CanonicalUnique(h.tree, t, h.sizeLog, h.minLog, 0);
      RepUnique(a, h.nodes[..], h.sizeLog, h.minLog, t);
    }
  }

  lemma Extended(moments: seq<Moment>, calls: seq<Call>, i: nat, y: Moment, s: nat, m: nat) returns (longer: seq<Moment>)
    requires i < |calls| && Traced(moments, calls[..i], s, m) && Moved(moments[i], calls[i], y, s, m)
    ensures Traced(longer, calls[..i + 1], s, m) && longer[0] == moments[0] && longer[i + 1] == y
  {
    longer := moments + [y];
    forall j | 0 <= j < i + 1 ensures Moved(longer[j], calls[..i + 1][j], longer[j + 1], s, m) {
      if j < i { assert Moved(moments[j], calls[..i][j], moments[j + 1], s, m); }
    }
  }
}
