/** The physical memory map: a fixed-size table of regions, normalised in place. */
module MemMap {
  import opened Regions
  import opened Sort

  const WORD: nat := 0x1_0000_0000_0000_0000

  /** `pow2_round_up_at64(n, PAGE_SIZE)` on 64-bit words. */
  function RoundUp(n: nat): nat {
    var x := (n + PAGE - 1) % WORD;
    x - x % PAGE
  }

  /** The region extended to page boundaries. */
  function AlignedRegion(r: Region): Region {
    var addr := r.addr - r.addr % PAGE;
    r.(addr := addr, len := (RoundUp((r.addr + r.len) % WORD) - addr) % WORD)
  }

  /** The smallest page-aligned region around r. */
  ghost predicate IsHull(x: Region, r: Region) {
    && x.addr % PAGE == 0 && x.len % PAGE == 0 && x.addr <= r.addr && End(r) <= End(x)
    && r.addr - x.addr < PAGE && End(x) - End(r) < PAGE
  }

  /**
   Aligning gives the hull exactly when the rounded end fits 64 bits or the region does not start in
   the first page (then the wrapped end still gives the right length).
   */
  lemma AlignedIsHull(r: Region)
    requires 0 < r.len && End(r) <= WORD
    ensures IsHull(AlignedRegion(r), r) <==> End(r) <= WORD - PAGE || r.addr >= PAGE
    ensures End(r) <= WORD - PAGE ==> AlignedRegion(r).len > 0 && End(AlignedRegion(r)) < WORD
  {
    if End(r) <= WORD - PAGE {
      AlignedNoWrap(r);
    } else {
      AlignedWrap(r);
    }
  }

  /** A region from the first page to the end of the address space is lost. */
  lemma AlignedLoses(typ: nat, extra: nat)
    ensures AlignedRegion(Region(0, WORD - 1, typ, extra)).len == 0
  {
    var x := WORD - 1 + PAGE - 1;
    assert x % WORD == PAGE - 2;
  }

  lemma AlignedNoWrap(r: Region)
    requires (0 < r.len || r.addr % PAGE > 0) && End(r) <= WORD - PAGE
    ensures IsHull(AlignedRegion(r), r) && AlignedRegion(r).len > 0 && End(AlignedRegion(r)) < WORD
  {
    var addr, e := r.addr - r.addr % PAGE, RoundUp(End(r));
    RoundedUp(End(r));
    WholePages(r.addr);
    PageSums(e, addr);
    assert AlignedRegion(r).len == e - addr;
  }

  lemma RoundedUp(n: nat)
    requires n <= WORD - PAGE
    ensures RoundUp(n) % PAGE == 0 && n <= RoundUp(n) < n + PAGE && RoundUp(n) < WORD && n % WORD == n
  {
    var x := n + PAGE - 1;
    assert x % WORD == x;
    WholePages(x);
  }

  lemma WholePages(x: nat)
    ensures (x - x % PAGE) % PAGE == 0 && 0 <= x % PAGE < PAGE
  {
    assert x - x % PAGE == PAGE * (x / PAGE);
  }

  lemma AlignedWrap(r: Region)
    requires 0 < r.len && WORD - PAGE < End(r) <= WORD
    ensures IsHull(AlignedRegion(r), r) <==> r.addr >= PAGE
  {
    assert RoundUp(End(r) % WORD) == 0;
    var addr := r.addr - r.addr % PAGE;
    assert AlignedRegion(r).len == if addr == 0 then 0 else WORD - addr;
    PageSums(WORD, addr);
  }

  lemma PageSums(a: nat, b: nat)
    requires a % PAGE == 0 && b % PAGE == 0
    ensures (a - b) % PAGE == 0 && (a + b) % PAGE == 0
  {
    var x, y := a / PAGE, b / PAGE;
    assert a - b == PAGE * (x - y) && a + b == PAGE * (x + y);
  }

  ghost predicate Fits64(s: seq<Region>) {
    forall i | 0 <= i < |s| :: (s[i].len > 0 || s[i].addr % PAGE > 0) && End(s[i]) <= WORD - PAGE
  }

  ghost function AlignedMap(s: seq<Region>): seq<Region> {
    seq(|s|, i requires 0 <= i < |s| => AlignedRegion(s[i]))
  }

  function AddrOf(r: Region): int { r.addr }

  /** Adjacent regions of an ordered list do not overlap. */
  ghost predicate AdjacentApart(s: seq<Region>) {
    forall i | 0 <= i < |s| - 1 :: End(s[i]) <= s[i + 1].addr
  }

  ghost predicate NoneOverlap(s: seq<Region>) {
    forall i, j | 0 <= i < |s| && 0 <= j < |s| && i != j :: !Overlap(s[i], s[j])
  }

  /** No two neighbours of one kind touch. */
  ghost predicate NoneMergeable(s: seq<Region>) {
    forall k | 0 <= k < |s| - 1 :: !Mergeable(s[k], s[k + 1])
  }

  lemma MergedApart(s: seq<Region>, i: nat)
    requires i + 1 < |s| && AdjacentApart(s) && Mergeable(s[i], s[i + 1])
    ensures AdjacentApart(Merged(s, i))
  {
    var t := Merged(s, i);
    MergedAt(s, i);
    forall k | 0 <= k < |t| - 1 ensures End(t[k]) <= t[k + 1].addr {
      assert End(s[k]) <= s[k + 1].addr && End(s[k + 1]) <= s[k + 2].addr;
    }
  }

  /** The merge loop has come to i: nothing before it can be merged. */
  ghost predicate Merging(s0: seq<Region>, s: seq<Region>, i: nat) {
    && Progress(s0, s) && Ordered(s, AddrOf) && (AdjacentApart(s0) ==> AdjacentApart(s))
    && forall k | 0 <= k < i && k < |s| - 1 :: !Mergeable(s[k], s[k + 1])
  }

  lemma MergeStep(s0: seq<Region>, s: seq<Region>, i: nat)
    requires Merging(s0, s, i) && i + 1 < |s| && Mergeable(s[i], s[i + 1])
    ensures Merging(s0, Merged(s, i), i)
  {
    MergeProgress(s, i);
    ProgressTrans(s0, s, Merged(s, i));
    MergedFront(s, i);
    MergedOrdered(s, i);
    if AdjacentApart(s) { MergedApart(s, i); }
  }

  lemma MergeStarts(s: seq<Region>)
    requires WellFormed(s) && Ordered(s, AddrOf)
    ensures Merging(s, s, 0)
  {
    ProgressSelf(s);
  }

  lemma SkipStep(s0: seq<Region>, s: seq<Region>, i: nat)
    requires Merging(s0, s, i) && i + 1 < |s| && !Mergeable(s[i], s[i + 1])
    ensures Merging(s0, s, i + 1)
  {
  }

  lemma MergeEnds(s0: seq<Region>, s: seq<Region>, i: nat)
    requires Merging(s0, s, i) && i + 1 >= |s|
    ensures Progress(s0, s) && Ordered(s, AddrOf) && NoneMergeable(s) && (AdjacentApart(s0) ==> AdjacentApart(s))
  {
  }

  lemma MergedOrdered(s: seq<Region>, i: nat)
    requires i + 1 < |s| && Ordered(s, AddrOf)
    ensures Ordered(Merged(s, i), AddrOf)
  {
    MergedAt(s, i);
  }

  /** Sorting regions of which no two overlap leaves no overlapping neighbours. */
  lemma SortedApart(s: seq<Region>, t: seq<Region>)
    requires WellFormed(s) && NoneOverlap(s) && multiset(s) == multiset(t) && Ordered(t, AddrOf)
    ensures AdjacentApart(t)
  {
    forall i | 0 <= i < |t| - 1 ensures End(t[i]) <= t[i + 1].addr {
      assert AddrOf(t[i]) <= AddrOf(t[i + 1]);
      var k, l := TwoPlaces(s, t, i, i + 1);
      assert !Overlap(s[k], s[l]) && s[l].len > 0;
    }
  }

  /** Two elements of a permutation have two places in the original. */
  lemma TwoPlaces(s: seq<Region>, t: seq<Region>, i: nat, j: nat) returns (k: nat, l: nat)
    requires multiset(s) == multiset(t) && i < j < |t|
    ensures k < |s| && l < |s| && k != l && s[k] == t[i] && s[l] == t[j]
  {
    k := Place(s, t[i], multiset(t));
    Without(s, k);
    Without(t, i);
    var s', t' := s[..k] + s[k + 1..], t[..i] + t[i + 1..];
    assert t'[j - 1] == t[j];
    var m := Place(s', t[j], multiset(t'));
    l := if m < k then m else m + 1;
  }

  lemma Place(s: seq<Region>, x: Region, all: multiset<Region>) returns (k: nat)
    requires multiset(s) == all && x in all
    ensures k < |s| && s[k] == x
  {
    assert x in s;
    k :| k < |s| && s[k] == x;
  }

  lemma Without(s: seq<Region>, k: nat)
    requires k < |s|
    ensures multiset(s[..k] + s[k + 1..]) == multiset(s) - multiset{s[k]}
  {
    SplitAt(s, k);
    TakeOutMultiset(s[..k], s[k], s[k + 1..]);
  }

  lemma {:induction false} PairwiseApart(s: seq<Region>, i: nat, j: nat)
    requires WellFormed(s) && AdjacentApart(s) && i < j < |s|
    ensures End(s[i]) <= s[j].addr
    decreases j - i
  {
    if i + 1 < j {
      PairwiseApart(s, i, j - 1);
      assert End(s[j - 1]) <= s[j].addr;
    }
  }

  /** What is left of a region in front of another one inside it, and behind it. */
  function Front(r1: Region, r2: Region): Region
    requires r1.addr <= r2.addr
  {
    r1.(len := r2.addr - r1.addr)
  }

  function Back(r1: Region, r2: Region): Region
    requires End(r2) <= End(r1)
  {
    Region(End(r2), End(r1) - End(r2), r1.typ, r1.extra)
  }

  lemma FrontPages(r1: Region, r2: Region)
    requires r1.addr % PAGE == 0 && r2.addr % PAGE == 0 && r1.addr < r2.addr
    ensures WellFormed([Front(r1, r2)])
  {
    PageSums(r2.addr, r1.addr);
  }

  lemma BackPages(r1: Region, r2: Region)
    requires r1.addr % PAGE == 0 && r1.len % PAGE == 0 && r2.addr % PAGE == 0 && r2.len % PAGE == 0 && End(r2) < End(r1)
    ensures WellFormed([Back(r1, r2)])
  {
    PageSums(r1.addr, r1.len);
    PageSums(r2.addr, r2.len);
    PageSums(End(r1), End(r2));
  }

  /** Region i loses the end that region j covers. */
  lemma TrimBack(s: seq<Region>, i: nat, j: nat)
    requires WellFormed(s) && i < |s| && j < |s| && i != j && s[i].typ <= s[j].typ
    requires s[i].addr < s[j].addr < End(s[i]) <= End(s[j])
    ensures Step(s, s[i := Front(s[i], s[j])])
  {
    FrontPages(s[i], s[j]);
    TrimHidden(s, i, j, Front(s[i], s[j]));
  }

  /** Region i loses the start that region j covers. */
  lemma TrimFront(s: seq<Region>, i: nat, j: nat)
    requires WellFormed(s) && i < |s| && j < |s| && i != j && s[i].typ <= s[j].typ
    requires s[j].addr <= s[i].addr < End(s[j]) < End(s[i])
    ensures Step(s, s[i := Back(s[i], s[j])])
  {
    BackPages(s[i], s[j]);
    TrimHidden(s, i, j, Back(s[i], s[j]));
  }

  lemma SplitAroundStep(s: seq<Region>, i: nat, j: nat)
    requires WellFormed(s) && i < |s| && j < |s| && i != j
    requires s[i].addr < s[j].addr && End(s[j]) < End(s[i]) && s[i].typ < s[j].typ
    ensures Step(s, s[i := Front(s[i], s[j])] + [Back(s[i], s[j])])
  {
    var p, q := Front(s[i], s[j]), Back(s[i], s[j]);
    PiecesWellFormed(s[i], s[j]);
    SplitHidden(s, i, j, p, q);
  }

  lemma PiecesWellFormed(r1: Region, r2: Region)
    requires WellFormed([r1, r2]) && r1.addr < r2.addr && End(r2) < End(r1)
    ensures WellFormed([Front(r1, r2), Back(r1, r2)]) && r2.len >= PAGE
  {
    var s := [r1, r2];
    assert s[0] == r1 && s[1] == r2;
    FrontPages(r1, r2);
    BackPages(r1, r2);
    assert [Front(r1, r2)][0] == Front(r1, r2) && [Back(r1, r2)][0] == Back(r1, r2);
  }

  /** The later one of two regions starts inside the other. */
  predicate Meet(r1: Region, r2: Region) {
    if r2.addr < r1.addr then r1.addr < End(r2) else r2.addr < End(r1)
  }

  /** The second region is empty, stricter, and starts where the first one does. */
  predicate Spins(r1: Region, r2: Region) {
    r1.addr == r2.addr && r2.len == 0 < r1.len && r1.typ < r2.typ
  }

  /** What is left of the region l outside the region w that it meets. */
  function Rest(l: Region, w: Region): seq<Region> {
    (if l.addr < w.addr then [Front(l, w)] else []) + (if End(w) < End(l) then [Back(l, w)] else [])
  }

  /** Region i starts first or with region j, which starts inside it. */
  ghost predicate Pair(s: seq<Region>, i: nat, j: nat) {
    i < |s| && j < |s| && i != j && s[i].addr <= s[j].addr < End(s[i])
  }

  /** The stricter region of a pair stays as it is, the first one on a tie. */
  ghost function Winner(s: seq<Region>, i: nat, j: nat): nat
    requires i < |s| && j < |s|
  {
    if s[i].typ >= s[j].typ then i else j
  }

  /** Of the other one the parts outside it stay. */
  ghost predicate Resolved(s: seq<Region>, i: nat, j: nat, t: seq<Region>)
    requires i < |s| && j < |s|
  {
    var w := Winner(s, i, j);
    var l := i + j - w;
    Exchanged(s, s[l], Rest(s[l], s[w]), t)
  }

  /** One region has been exchanged for some others, in any order. */
  ghost predicate Exchanged(s: seq<Region>, x: Region, rest: seq<Region>, t: seq<Region>) {
    multiset(t) == multiset(s) - multiset{x} + multiset(rest)
  }

  lemma ExchangedForNone(s: seq<Region>, l: nat)
    requires l < |s|
    ensures Exchanged(s, s[l], [], SwapRemoved(s, l))
  {
    RemovedMultiset(s, l);
  }

  lemma ExchangedForOne(s: seq<Region>, l: nat, p: Region)
    requires l < |s|
    ensures Exchanged(s, s[l], [p], s[l := p])
  {
    UpdatedMultiset(s, l, p);
  }

  lemma ExchangedForTwo(s: seq<Region>, i: nat, p: Region, q: Region)
    requires i < |s|
    ensures Exchanged(s, s[i], [p, q], s[i := p] + [q])
  {
    UpdatedMultiset(s, i, p);
    assert multiset(s[i := p] + [q]) == multiset(s[i := p]) + multiset{q};
    assert [p, q] == [p] + [q];
    assert multiset([p, q]) == multiset{p} + multiset{q};
  }

  ghost predicate Outcome(s: seq<Region>, i: nat, j: nat, t: seq<Region>)
    requires i < |s| && j < |s|
  {
    (WellFormed(s) ==> Step(s, t)) && Resolved(s, i, j, t) && (t == s <==> Spins(s[i], s[j]))
  }

  /** Nothing is left of region l. */
  lemma RemoveOutcome(s: seq<Region>, i: nat, j: nat, l: nat)
    requires Pair(s, i, j) && l == i + j - Winner(s, i, j) && Rest(s[l], s[Winner(s, i, j)]) == []
    ensures Outcome(s, i, j, SwapRemoved(s, l))
  {
    RemoveStep(s, l, Winner(s, i, j));
    RemoveResolved(s, i, j, l);
    assert |SwapRemoved(s, l)| < |s|;
  }

  lemma RemoveStep(s: seq<Region>, l: nat, w: nat)
    requires (Pair(s, l, w) || Pair(s, w, l)) && s[l].typ <= s[w].typ && Rest(s[l], s[w]) == []
    ensures WellFormed(s) ==> Step(s, SwapRemoved(s, l))
  {
    if WellFormed(s) { RemoveHidden(s, l, w); }
  }

  lemma RemoveResolved(s: seq<Region>, i: nat, j: nat, l: nat)
    requires Pair(s, i, j) && l == i + j - Winner(s, i, j) && Rest(s[l], s[Winner(s, i, j)]) == []
    ensures Resolved(s, i, j, SwapRemoved(s, l)) && !Spins(s[i], s[j])
  {
    var w := Winner(s, i, j);
    NothingLeft(s[l], s[w]);
    NoSpin(s[i], s[j]);
    assert Exchanged(s, s[l], Rest(s[l], s[w]), SwapRemoved(s, l)) by { ExchangedForNone(s, l); }
  }

  lemma NoSpin(r1: Region, r2: Region)
    requires if r1.typ >= r2.typ then true else End(r1) <= End(r2)
    ensures !Spins(r1, r2)
  {
  }

  lemma NothingLeft(l: Region, w: Region)
    requires Rest(l, w) == []
    ensures w.addr <= l.addr && End(l) <= End(w)
  {
  }

  /** One part of region l is left. */
  lemma TrimOutcome(s: seq<Region>, i: nat, j: nat, l: nat, p: Region)
    requires Pair(s, i, j) && l == i + j - Winner(s, i, j) && Rest(s[l], s[Winner(s, i, j)]) == [p]
    ensures Outcome(s, i, j, s[l := p])
  {
    var t := s[l := p];
    PartLeft(s[l], s[Winner(s, i, j)], p);
    assert WellFormed(s) ==> Step(s, t) by { if WellFormed(s) { TrimStep(s, l, Winner(s, i, j), p); } }
    assert Resolved(s, i, j, t) by { ExchangedForOne(s, l, p); }
    assert t == s <==> Spins(s[i], s[j]) by { SameIffSpins(s, i, j, l, p); }
  }

  lemma PartLeft(l: Region, w: Region, p: Region)
    requires Rest(l, w) == [p]
    ensures if l.addr < w.addr then p == Front(l, w) && End(l) <= End(w) else End(w) < End(l) && p == Back(l, w)
  {
    assert [p][0] == p;
  }

  lemma TrimStep(s: seq<Region>, l: nat, w: nat, p: Region)
    requires WellFormed(s) && (Pair(s, l, w) || Pair(s, w, l)) && s[l].typ <= s[w].typ
    requires if s[l].addr < s[w].addr then p == Front(s[l], s[w]) && End(s[l]) <= End(s[w])
             else End(s[w]) < End(s[l]) && p == Back(s[l], s[w])
    ensures Step(s, s[l := p])
  {
    if s[l].addr < s[w].addr { TrimBack(s, l, w); } else { TrimFront(s, l, w); }
  }

  lemma SameIffSpins(s: seq<Region>, i: nat, j: nat, l: nat, p: Region)
    requires Pair(s, i, j) && l == i + j - Winner(s, i, j)
    requires var w := s[Winner(s, i, j)];
             if s[l].addr < w.addr then p == Front(s[l], w) && End(s[l]) <= End(w) else End(w) < End(s[l]) && p == Back(s[l], w)
    ensures s[l := p] == s <==> Spins(s[i], s[j])
  {
    assert s[l := p] == s <==> p == s[l] by {
      assert s[l := p][l] == p;
      if p == s[l] { assert s[l := p] == s; }
    }
  }

  /** Two are. */
  lemma SplitOutcome(s: seq<Region>, i: nat, j: nat)
    requires Pair(s, i, j) && Winner(s, i, j) == j && s[i].addr < s[j].addr && End(s[j]) < End(s[i])
    ensures Outcome(s, i, j, s[i := Front(s[i], s[j])] + [Back(s[i], s[j])])
  {
    var t := s[i := Front(s[i], s[j])] + [Back(s[i], s[j])];
    SplitStep(s, i, j);
    SplitResolved(s, i, j, t);
    assert |t| > |s|;
    NoSpinApart(s[i], s[j]);
  }

  lemma SplitResolved(s: seq<Region>, i: nat, j: nat, t: seq<Region>)
    requires Pair(s, i, j) && Winner(s, i, j) == j && s[i].addr < s[j].addr && End(s[j]) < End(s[i])
    requires t == s[i := Front(s[i], s[j])] + [Back(s[i], s[j])]
    ensures Resolved(s, i, j, t)
  {
    assert Exchanged(s, s[i], Rest(s[i], s[j]), t) by {
      RestBoth(s[i], s[j]);
      ExchangedForTwo(s, i, Front(s[i], s[j]), Back(s[i], s[j]));
    }
  }

  lemma RestBoth(l: Region, w: Region)
    requires l.addr < w.addr && End(w) < End(l)
    ensures Rest(l, w) == [Front(l, w), Back(l, w)]
  {
  }

  lemma NoSpinApart(r1: Region, r2: Region)
    requires r1.addr != r2.addr
    ensures !Spins(r1, r2)
  {
  }

  lemma SplitStep(s: seq<Region>, i: nat, j: nat)
    requires i < |s| && j < |s| && i != j && s[i].addr < s[j].addr && End(s[j]) < End(s[i]) && s[i].typ < s[j].typ
    ensures WellFormed(s) ==> Step(s, s[i := Front(s[i], s[j])] + [Back(s[i], s[j])])
  {
    if WellFormed(s) { SplitAroundStep(s, i, j); }
  }

  class MemoryMap {
    const regs: array<Region>
    var count: nat

    constructor (capacity: nat)
      ensures Valid() && fresh(regs) && regs.Length == capacity && Map() == []
    {
      regs := new Region[capacity](_ => Region(0, 0, 0, 0));
      count := 0;
    }

    ghost predicate Valid()
      reads this
    {
      count <= regs.Length
    }

    ghost function Map(): seq<Region>
      requires Valid()
      reads this, regs
    {
      regs[..count]
    }

    /** False stands for the panic on a full table. */
    method Append(r: Region) returns (ok: bool)
      requires Valid()
      modifies this`count, regs
      ensures Valid() && ok == (old(count) < regs.Length)
      ensures Map() == if ok then old(Map()) + [r] else old(Map())
    {
      if count >= regs.Length {
        return false;
      }
      regs[count] := r;
      count := count + 1;
      return true;
    }

    method RemoveBySwap(i: nat)
      requires Valid() && i < count
      modifies this`count, regs
      ensures Valid() && count == old(count) - 1 && Map() == SwapRemoved(old(Map()), i)
    {
      regs[i], regs[count - 1] := regs[count - 1], regs[i];
      count := count - 1;
    }

    method AlignRegions()
      requires Valid()
      modifies regs
      ensures Map() == AlignedMap(old(Map()))
    {
      for i := 0 to count
        invariant forall k | 0 <= k < count :: regs[k] == if k < i then AlignedRegion(old(regs[k])) else old(regs[k])
      {
        regs[i] := AlignedRegion(regs[i]);
      }
    }

    method SortRegions()
      requires Valid()
      modifies regs
      ensures Ordered(Map(), AddrOf) && StablePermutation(old(Map()), Map(), AddrOf)
    {
      InsertionSort(regs, count, AddrOf);
    }

    /** Outcome of one call of HandleOverlap on regions i and j. */
    ghost predicate Handled(s: seq<Region>, i: nat, j: nat, changed: bool)
      requires Valid() && i < |s| && j < |s|
      reads this, regs
    {
      if changed then Step(s, Map()) else Map() == s && (i == j || !Overlap(s[i], s[j]))
    }

    /**
     Resolves the overlap of regions i and j, if any: the stricter one keeps the common part. The
     other one is removed, trimmed or split, breaking the order of the list. A change that is reported
     is one, except when the second region is empty, stricter and starts with the first one.
     */
    method HandleOverlap(i: nat, j: nat) returns (changed: bool, ok: bool)
      requires Valid() && i < count && j < count
      modifies this`count, regs
      ensures Valid() && (ok && WellFormed(old(Map())) ==> Handled(old(Map()), i, j, changed))
      ensures changed <==> i != j && Meet(old(regs[i]), old(regs[j]))
      ensures !changed ==> ok && Map() == old(Map())
      ensures ok && changed ==> if old(regs[j].addr < regs[i].addr) then Resolved(old(Map()), j, i, Map()) else Resolved(old(Map()), i, j, Map())
      ensures ok && changed ==> (Map() == old(Map()) <==> Spins(old(regs[i]), old(regs[j])))
      ensures !ok ==> old(count) == regs.Length && SomeNested(old(Map()))
      decreases if i < count && j < count && regs[j].addr < regs[i].addr then 1 else 0
    {
      if i == j {
        return false, true;
      }
      var r1, r2 := regs[i], regs[j];
      if r2.addr < r1.addr {
        changed, ok := HandleOverlap(j, i);
        return;
      }
      if r2.addr >= End(r1) {
        return false, true;
      }
      if r1.addr <= r2.addr && End(r2) <= End(r1) {
        ok := HandleNested(i, j);
      } else {
        HandlePartial(i, j);
        ok := true;
      }
      return true, ok;
    }

    /** Region j lies inside region i. */
    method HandleNested(i: nat, j: nat) returns (ok: bool)
      requires Valid() && Pair(Map(), i, j) && End(regs[j]) <= End(regs[i])
      modifies this`count, regs
      ensures Valid() && (ok ==> Outcome(old(Map()), i, j, Map()))
      ensures !ok ==> old(count) == regs.Length && SomeNested(old(Map()))
    {
      ghost var s := Map();
      var r1, r2 := regs[i], regs[j];
      assert s[i] == r1 && s[j] == r2;
      var s1, s2, e1, e2 := r1.addr, r2.addr, End(r1), End(r2);
      ok := true;
      if r1.typ >= r2.typ {
        RemoveOutcome(s, i, j, j);
        RemoveBySwap(j);
      } else if s1 == s2 && e1 == e2 {
        RemoveOutcome(s, i, j, i);
        RemoveBySwap(i);
      } else if s1 == s2 {
        TrimOutcome(s, i, j, i, Back(r1, r2));
        Put(i, Back(r1, r2));
      } else if e1 == e2 {
        TrimOutcome(s, i, j, i, Front(r1, r2));
        Put(i, Front(r1, r2));
      } else {
        ok := SplitAround(i, j);
      }
    }

    /** Region j lies strictly inside region i and is stricter: two pieces of region i remain. */
    method SplitAround(i: nat, j: nat) returns (ok: bool)
      requires Valid() && Pair(Map(), i, j)
      requires regs[i].addr < regs[j].addr && End(regs[j]) < End(regs[i]) && regs[i].typ < regs[j].typ
      modifies this`count, regs
      ensures Valid() && (ok ==> Outcome(old(Map()), i, j, Map()))
      ensures !ok ==> old(count) == regs.Length && SomeNested(old(Map()))
    {
      var r1, r2 := regs[i], regs[j];
      assert Map()[i] == r1 && Map()[j] == r2;
      SplitOutcome(Map(), i, j);
      Put(i, Front(r1, r2));
      ok := Append(Back(r1, r2));
    }

    /** Region j starts inside region i and ends behind it. */
    method HandlePartial(i: nat, j: nat)
      requires Valid() && Pair(Map(), i, j) && End(regs[i]) < End(regs[j])
      modifies this`count, regs
      ensures Valid() && Outcome(old(Map()), i, j, Map())
    {
      ghost var s := Map();
      var r1, r2 := regs[i], regs[j];
      assert s[i] == r1 && s[j] == r2;
      if r1.typ >= r2.typ {
        TrimOutcome(s, i, j, j, Back(r2, r1));
        Put(j, Back(r2, r1));
      } else if r1.addr == r2.addr {
        RemoveOutcome(s, i, j, i);
        RemoveBySwap(i);
      } else {
        TrimOutcome(s, i, j, i, Front(r1, r2));
        Put(i, Front(r1, r2));
      }
    }

    method Put(i: nat, r: Region)
      requires Valid() && i < count
      modifies regs
      ensures Map() == old(Map())[i := r]
    {
      regs[i] := r;
    }

    method RemoveAt(i: nat)
      requires Valid() && i < count
      modifies this`count, regs
      ensures Valid() && Map() == old(Map())[..i] + old(Map())[i + 1..]
    {
      var k := i;
      while k + 1 < count
        invariant i <= k < count == old(count)
        invariant forall q | 0 <= q < i || k < q < count :: regs[q] == old(regs[q])
        invariant forall q | i <= q < k :: regs[q] == old(regs[q + 1])
      {
        regs[k] := regs[k + 1];
        k := k + 1;
      }
      count := count - 1;
    }

    method MergeAdjacent()
      requires Valid() && WellFormed(Map()) && Ordered(Map(), AddrOf)
      modifies this`count, regs
      ensures Valid() && Progress(old(Map()), Map()) && Ordered(Map(), AddrOf)
      ensures NoneMergeable(Map()) && (old(AdjacentApart(Map())) ==> AdjacentApart(Map()))
    {
      var i := 0;
      ghost var s0 := Map();
      MergeStarts(s0);
      while i + 1 < count
        invariant Valid() && Merging(s0, Map(), i)
        decreases count - i
      {
        ghost var s := Map();
        assert s[i] == regs[i] && s[i + 1] == regs[i + 1];
        if !Mergeable(regs[i], regs[i + 1]) {
          SkipStep(s0, s, i);
          i := i + 1;
        } else {
          MergeStep(s0, s, i);
          MergePair(i);
        }
      }
      MergeEnds(s0, Map(), i);
    }

    method MergePair(i: nat)
      requires Valid() && i + 1 < count
      modifies this`count, regs
      ensures Valid() && count == old(count) - 1 && Map() == Merged(old(Map()), i)
    {
      Put(i, regs[i].(len := regs[i].len + regs[i + 1].len));
      RemoveAt(i + 1);
    }

    /** One pass over neighbouring regions. */
    method Pass() returns (any: bool, ok: bool)
      requires Valid() && WellFormed(Map())
      modifies this`count, regs
      ensures Valid() && (!ok ==> Full(old(Map())))
      ensures ok && any ==> Progress(old(Map()), Map()) && Total(Map()) < old(Total(Map()))
      ensures AdjacentApart(old(Map())) ==> ok && !any
      ensures ok && !any ==> Map() == old(Map()) && forall k | 0 <= k < count - 1 :: !Overlap(Map()[k], Map()[k + 1])
    {
      any := false;
      ghost var s0 := Map();
      ProgressSelf(s0);
      var i := 0;
      while i + 1 < count
        invariant Valid() && Progress(s0, Map()) && (any ==> Total(Map()) < Total(s0))
        invariant AdjacentApart(s0) ==> !any
        invariant !any ==> Map() == s0 && forall k | 0 <= k < i && k < count - 1 :: !Overlap(s0[k], s0[k + 1])
        decreases regs.Length - i
      {
        ghost var s := Map();
        var changed;
        changed, ok := HandleOverlap(i, i + 1);
        if !ok {
          Overflow(s, regs.Length);
          Overflows(s0, s, regs.Length);
          return any, false;
        }
        if changed {
          ProgressTrans(s0, s, Map());
          any := true;
        }
        i := i + 1;
      }
      return any, true;
    }

    /** The table is too small for the worst case of splitting the regions of s. */
    ghost predicate Full(s: seq<Region>)
      reads this
    {
      TooSmall(s, regs.Length)
    }

    /** Passes and sorting, until a pass finds nothing to do. */
    method HandleOverlapping() returns (ok: bool)
      requires Valid() && WellFormed(Map()) && Ordered(Map(), AddrOf)
      modifies this`count, regs
      ensures Valid() && (!ok ==> Full(old(Map())) && regs.Length < MaxPieces(old(count)))
      ensures ok ==> Progress(old(Map()), Map()) && Ordered(Map(), AddrOf) && AdjacentApart(Map())
      ensures AdjacentApart(old(Map())) ==> ok && Map() == old(Map())
    {
      ghost var s0 := Map();
      ProgressSelf(s0);
      while true
        invariant Valid() && Progress(s0, Map()) && Ordered(Map(), AddrOf) && (AdjacentApart(s0) ==> Map() == s0)
        decreases Total(Map())
      {
        ghost var s := Map();
        var any;
        any, ok := Pass();
        if !ok {
          Overflows(s0, s, regs.Length);
          return;
        }
        ghost var t := Map();
        SortRegions();
        PermutedProgress(t, Map());
        if !any {
          SortedStays(s, Map());
          NeighboursApart(s);
          return;
        }
        ProgressTrans(s0, s, t);
        ProgressTrans(s0, t, Map());
      }
    }

    /** The normaliser. Regions must not be empty at a page boundary and must end below the last page of the address space. */
    method FixMemRegions() returns (ok: bool)
      requires Valid() && Fits64(Map())
      modifies this`count, regs
      ensures Valid() && (!ok ==> Full(AlignedMap(old(Map()))) && regs.Length < MaxPieces(old(count)))
      ensures ok ==> Normal(AlignedMap(old(Map())), Map()) && Ordered(Map(), AddrOf) && AdjacentApart(Map())
      ensures NoneOverlap(AlignedMap(old(Map()))) ==> ok && NoneMergeable(Map())
    {
      ghost var m := Map();
      AlignRegions();
      ghost var s := Map();
      AlignedWellFormed(m);
      SortRegions();
      ghost var t := Map();
      PermutedProgress(s, t);
      if NoneOverlap(s) { SortedApart(s, t); }
      MergeAdjacent();
      ProgressTrans(s, t, Map());
      ghost var u := Map();
      ok := HandleOverlapping();
      if !ok {
        Overflows(s, u, regs.Length);
      } else {
        ProgressTrans(s, u, Map());
        NormalForm(s, Map());
      }
    }
  }

  /**
   A round of the overlap loop on a table of two such regions reports a change and ends where it began, so
   that the loop goes on for ever.
   */
  method SpinningRound(m: MemoryMap) returns (changed: bool)
    requires m.Valid() && m.count == 2 && Spins(m.regs[0], m.regs[1])
    modifies m`count, m.regs
    ensures m.Valid() && changed && m.Map() == old(m.Map())
  {
    ghost var s := m.Map();
    assert s[0] == m.regs[0] && s[1] == m.regs[1];
    NoneNested(s);
    var ok;
    changed, ok := m.HandleOverlap(0, 1);
    m.SortRegions();
    SortedStays(s, m.Map());
  }

  lemma NoneNested(s: seq<Region>)
    requires |s| == 2 && s[0].addr == s[1].addr
    ensures !SomeNested(s) && Ordered(s, AddrOf)
  {
  }

  /** A page and an empty, stricter region at its start. */
  method SpinningExample() returns (m: MemoryMap, changed: bool)
    ensures m.Valid() && changed && m.Map() == [Region(0, PAGE, 1, 0), Region(0, 0, 2, 0)]
  {
    m := new MemoryMap(2);
    var ok := m.Append(Region(0, PAGE, 1, 0));
    ok := m.Append(Region(0, 0, 2, 0));
    assert m.Map()[0] == m.regs[0] && m.Map()[1] == m.regs[1];
    changed := SpinningRound(m);
  }

  /** A table of n entries does not hold all regions that splitting those of s may give. */
  ghost predicate TooSmall(s: seq<Region>, n: nat) {
    n * PAGE < |s| * PAGE + Total(s) && forall e | Ends(s) <= e :: n < Load(s, e)
  }

  lemma Overflow(s: seq<Region>, n: nat)
    requires WellFormed(s) && |s| == n && SomeNested(s)
    ensures TooSmall(s, n)
  {
    assert Total(s) > 0;
    forall e | Ends(s) <= e ensures n < Load(s, e) { LoadAbove(s, e); }
  }

  lemma Overflows(s: seq<Region>, t: seq<Region>, n: nat)
    requires Progress(s, t) && TooSmall(t, n)
    ensures TooSmall(s, n) && (WellFormed(s) ==> n < MaxPieces(|s|))
  {
    if WellFormed(s) {
      LoadBound(s);
      assert n < Load(s, Ends(s));
    }
  }

  lemma AlignedWellFormed(s: seq<Region>)
    requires Fits64(s)
    ensures WellFormed(AlignedMap(s))
  {
    forall i | 0 <= i < |s| ensures var x := AlignedMap(s)[i]; x.len > 0 && x.addr % PAGE == 0 && x.len % PAGE == 0 {
      AlignedNoWrap(s[i]);
    }
  }

  /** Sorting an ordered list stably changes nothing. */
  lemma {:induction false} SortedStays(s: seq<Region>, t: seq<Region>)
    requires Ordered(s, AddrOf) && Ordered(t, AddrOf) && StablePermutation(s, t, AddrOf)
    ensures s == t
    decreases |s|
  {
    assert |s| == |multiset(s)| == |multiset(t)| == |t|;
    if s != [] {
      var n := |s| - 1;
      SameLast(s, t);
      assert s == s[..n] + [s[n]] && t == t[..n] + [t[n]];
      CutTail(s, t, n, AddrOf);
      SortedStays(s[..n], t[..n]);
    }
  }

  lemma SameLast(s: seq<Region>, t: seq<Region>)
    requires Ordered(s, AddrOf) && Ordered(t, AddrOf) && StablePermutation(s, t, AddrOf) && |s| == |t| > 0
    ensures s[|s| - 1] == t[|t| - 1]
  {
    var x, y := s[|s| - 1], t[|t| - 1];
    assert x in multiset(t) && y in multiset(s);
    assert AddrOf(x) == AddrOf(y);
    var u, v := WithKey(s, AddrOf, AddrOf(x)), WithKey(t, AddrOf, AddrOf(x));
    assert u == v && u[|u| - 1] == x && v[|v| - 1] == y;
  }

  lemma NeighboursApart(s: seq<Region>)
    requires WellFormed(s) && Ordered(s, AddrOf) && forall k | 0 <= k < |s| - 1 :: !Overlap(s[k], s[k + 1])
    ensures AdjacentApart(s)
  {
    forall i | 0 <= i < |s| - 1 ensures End(s[i]) <= s[i + 1].addr {
      assert AddrOf(s[i]) <= AddrOf(s[i + 1]);
    }
  }

  /**
   `t` is the normal form of `s`: page-aligned disjoint regions over the same addresses, each
   address with the strictest type that `s` gives it, and an extra mask that `s` gives with it.
   */
  ghost predicate Normal(s: seq<Region>, t: seq<Region>) {
    && WellFormed(t)
    && (forall i, j | 0 <= i < |t| && 0 <= j < |t| && i != j :: !Overlap(t[i], t[j]))
    && (forall r, a: nat | r in s && Covers(r, a) :: AtLeast(t, a, r.typ))
    && (forall r, a: nat | r in t && Covers(r, a) :: StrictestAt(s, a, r.typ) && Has(s, a, r.typ, r.extra))
  }

  lemma NormalForm(s: seq<Region>, t: seq<Region>)
    requires Refines(s, t) && WellFormed(t) && AdjacentApart(t)
    ensures Normal(s, t)
  {
    forall i, j | 0 <= i < |t| && 0 <= j < |t| && i != j ensures !Overlap(t[i], t[j]) {
      if i < j { PairwiseApart(t, i, j); } else { PairwiseApart(t, j, i); }
    }
    forall r, a: nat | r in t && Covers(r, a) ensures StrictestAt(s, a, r.typ) && Has(s, a, r.typ, r.extra) {
      OnlyOne(t, r, a);
      RefinesKeepsStrictest(s, t, a, r.typ);
    }
  }

  lemma OnlyOne(t: seq<Region>, r: Region, a: nat)
    requires forall i, j | 0 <= i < |t| && 0 <= j < |t| && i != j :: !Overlap(t[i], t[j])
    requires r in t && Covers(r, a)
    ensures StrictestAt(t, a, r.typ)
  {
    forall q | q in t && Covers(q, a) ensures q.typ <= r.typ {
      var i :| 0 <= i < |t| && t[i] == r;
      var j :| 0 <= j < |t| && t[j] == q;
    }
  }
}
