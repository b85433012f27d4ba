/**
 Lists of typed memory regions: what each rewriting step of the normaliser keeps. A larger type
 is a stricter one.
 */
module Regions {

  datatype Region = Region(addr: nat, len: nat, typ: nat, extra: nat)

  const PAGE: nat := 4096

  function End(r: Region): nat { r.addr + r.len }

  predicate Covers(r: Region, a: nat) { r.addr <= a < End(r) }

  predicate Overlap(r1: Region, r2: Region) { r1.addr < End(r2) && r2.addr < End(r1) }

  /** Some region at `a` is at least as strict as `typ`. */
  ghost predicate AtLeast(s: seq<Region>, a: nat, typ: nat) {
    exists r :: r in s && Covers(r, a) && r.typ >= typ
  }

  /** Some region at `a` has this type and extra mask. */
  ghost predicate Has(s: seq<Region>, a: nat, typ: nat, extra: nat) {
    exists r :: r in s && Covers(r, a) && r.typ == typ && r.extra == extra
  }

  /** `t` covers the addresses of `s`, no less strictly, and says nothing that `s` does not say. */
  ghost predicate Refines(s: seq<Region>, t: seq<Region>) {
    && (forall r, a: nat | r in s && Covers(r, a) :: AtLeast(t, a, r.typ))
    && (forall r, a: nat | r in t && Covers(r, a) :: Has(s, a, r.typ, r.extra))
  }

  lemma RefinesSelf(s: seq<Region>)
    ensures Refines(s, s)
  {
  }

  lemma RefinesTrans(s: seq<Region>, t: seq<Region>, u: seq<Region>)
    requires Refines(s, t) && Refines(t, u)
    ensures Refines(s, u)
  {
    forall r, a: nat | r in s && Covers(r, a) ensures AtLeast(u, a, r.typ) {
      assert AtLeast(t, a, r.typ);
      var r2 :| r2 in t && Covers(r2, a) && r2.typ >= r.typ;
      assert AtLeast(u, a, r2.typ);
    }
    forall r, a: nat | r in u && Covers(r, a) ensures Has(s, a, r.typ, r.extra) {
      assert Has(t, a, r.typ, r.extra);
      var r2 :| r2 in t && Covers(r2, a) && r2.typ == r.typ && r2.extra == r.extra;
      assert Has(s, a, r2.typ, r2.extra);
    }
  }

  /** Only which regions occur matters. */
  lemma RefinesSame(s: seq<Region>, t: seq<Region>)
    requires forall r :: r in s <==> r in t
    ensures Refines(s, t)
  {
  }

  /** The strictest type at an address, and nothing where no region is. */
  ghost predicate StrictestAt(s: seq<Region>, a: nat, typ: nat) {
    && (exists r :: r in s && Covers(r, a) && r.typ == typ)
    && (forall r | r in s && Covers(r, a) :: r.typ <= typ)
  }

  /** Refinement keeps the strictest type of every address, and which addresses are covered. */
  lemma RefinesKeepsStrictest(s: seq<Region>, t: seq<Region>, a: nat, typ: nat)
    requires Refines(s, t)
    ensures StrictestAt(s, a, typ) <==> StrictestAt(t, a, typ)
  {
    if StrictestAt(s, a, typ) {
      assert AtLeast(t, a, typ);
      forall r | r in t && Covers(r, a) ensures r.typ <= typ {
        assert Has(s, a, r.typ, r.extra);
      }
    }
    if StrictestAt(t, a, typ) {
      var r :| r in t && Covers(r, a) && r.typ == typ;
      assert Has(s, a, r.typ, r.extra);
      forall r | r in s && Covers(r, a) ensures r.typ <= typ {
        assert AtLeast(t, a, r.typ);
      }
    }
  }

  // ---------------------------------------------------------- sums over regions

  ghost function Sum(s: seq<Region>, w: Region -> nat): nat {
    if s == [] then 0 else Sum(s[..|s| - 1], w) + w(s[|s| - 1])
  }

  lemma {:induction false} SumUpdate(s: seq<Region>, i: nat, r: Region, w: Region -> nat)
    requires i < |s|
    ensures Sum(s[i := r], w) + w(s[i]) == Sum(s, w) + w(r)
    decreases |s|
  {
    var n := |s| - 1;
    if i < n {
      SumUpdate(s[..n], i, r, w);
      assert s[i := r][..n] == s[..n][i := r];
    } else {
      assert s[i := r][..n] == s[..n];
    }
  }

  lemma SumAppend(s: seq<Region>, r: Region, w: Region -> nat)
    ensures Sum(s + [r], w) == Sum(s, w) + w(r)
  {
    assert (s + [r])[..|s|] == s;
  }

  lemma {:induction false} SumConcat(s: seq<Region>, t: seq<Region>, w: Region -> nat)
    ensures Sum(s + t, w) == Sum(s, w) + Sum(t, w)
    decreases |t|
  {
    if t == [] {
      assert s + t == s;
    } else {
      var n := |t| - 1;
      SumConcat(s, t[..n], w);
      assert (s + t)[..|s + t| - 1] == s + t[..n];
    }
  }

  lemma TakeOut(t: seq<Region>, i: nat, w: Region -> nat)
    requires i < |t|
    ensures multiset(t[..i] + t[i + 1..]) == multiset(t) - multiset{t[i]}
    ensures Sum(t[..i] + t[i + 1..], w) + w(t[i]) == Sum(t, w)
  {
    SplitAt(t, i);
    TakeOutParts(t, t[..i], t[i], t[i + 1..], w);
  }

  lemma SplitAt(t: seq<Region>, i: nat)
    requires i < |t|
    ensures t == t[..i] + [t[i]] + t[i + 1..]
  {
  }

  lemma TakeOutParts(t: seq<Region>, a: seq<Region>, x: Region, b: seq<Region>, w: Region -> nat)
    requires t == a + [x] + b
    ensures multiset(a + b) == multiset(t) - multiset{x} && Sum(a + b, w) + w(x) == Sum(t, w)
  {
    SumConcat(a, b, w);
    SumConcat(a + [x], b, w);
    SumAppend(a, x, w);
    TakeOutMultiset(a, x, b);
  }

  lemma TakeOutMultiset(a: seq<Region>, x: Region, b: seq<Region>)
    ensures multiset(a + b) == multiset(a + [x] + b) - multiset{x}
  {
    assert multiset(a + [x] + b) == multiset(a) + multiset{x} + multiset(b);
  }

  lemma {:induction false} SumPermuted(s: seq<Region>, t: seq<Region>, w: Region -> nat)
    requires multiset(s) == multiset(t)
    ensures Sum(s, w) == Sum(t, w)
    decreases |s|
  {
    if s == [] {
      assert |t| == |multiset(t)| == 0;
    } else {
      var n := |s| - 1;
      assert s[n] in multiset(t);
      var i :| 0 <= i < |t| && t[i] == s[n];
      TakeOut(s, n, w);
      TakeOut(t, i, w);
      SumPermuted(s[..n] + s[n + 1..], t[..i] + t[i + 1..], w);
    }
  }

  lemma {:induction false} SumBound(s: seq<Region>, w: Region -> nat, hi: nat)
    requires forall r | r in s :: w(r) <= hi
    ensures Sum(s, w) <= |s| * hi
    decreases |s|
  {
    if s != [] {
      var n := |s| - 1;
      assert s[n] in s && forall r | r in s[..n] :: r in s;
      SumBound(s[..n], w, hi);
      assert |s| * hi == n * hi + hi;
    }
  }

  function LenOf(r: Region): nat { r.len }

  /** The total length. */
  ghost function Total(s: seq<Region>): nat {
    Sum(s, LenOf)
  }

  // ---------------------------------------------------------- points where regions can be cut

  /** The addresses at which a region starts or ends. */
  ghost function Ends(s: seq<Region>): set<nat> {
    (set r | r in s :: r.addr) + (set r | r in s :: End(r))
  }

  /** The points of `e` at which the region could still be cut. */
  ghost function Inside(r: Region, e: set<nat>): set<nat> {
    set x | x in e && r.addr < x < End(r)
  }

  ghost function WeightOf(e: set<nat>): Region -> nat {
    r => 1 + |Inside(r, e)|
  }

  /** The regions there can be once every one is cut at every point of `e`. */
  ghost function Load(s: seq<Region>, e: set<nat>): nat {
    Sum(s, WeightOf(e))
  }

  /** Cuts are made at ends of regions only, and the pieces are no more than those cuts can give. */
  ghost predicate Tame(s: seq<Region>, t: seq<Region>) {
    forall e | Ends(s) <= e :: Ends(t) <= e && Load(t, e) <= Load(s, e)
  }

  lemma InsideLess(r: Region, p: Region, e: set<nat>)
    requires r.addr <= p.addr && End(p) <= End(r)
    ensures |Inside(p, e)| <= |Inside(r, e)|
  {
    SubsetSize(Inside(p, e), Inside(r, e));
  }

  lemma {:induction false} SubsetSize(a: set<nat>, b: set<nat>)
    requires a <= b
    ensures |a| <= |b|
  {
    assert |b| == |a| + |b - a| by { assert b == a + (b - a); }
  }

  /** Cutting a region in two uses up a point. */
  lemma InsideCut(r: Region, p: Region, q: Region, e: set<nat>)
    requires r.addr <= p.addr < End(p) <= q.addr < End(q) <= End(r) && End(p) in e
    ensures |Inside(p, e)| + |Inside(q, e)| + 1 <= |Inside(r, e)|
  {
    var a, b, c := Inside(p, e), Inside(q, e), {End(p)};
    assert |a + b + c| == |a| + |b| + 1;
    SubsetSize(a + b + c, Inside(r, e));
  }

  /** Joining two gives it back. */
  lemma InsideJoin(r: Region, p: Region, q: Region, e: set<nat>)
    requires r.addr == p.addr && End(p) == q.addr && End(q) == End(r)
    ensures |Inside(r, e)| <= |Inside(p, e)| + |Inside(q, e)| + 1
  {
    var a, b, c := Inside(p, e), Inside(q, e), {End(p)};
    assert |a + b + c| <= |a| + |b| + 1;
    SubsetSize(Inside(r, e), a + b + c);
  }

  lemma {:induction false} EndsCount(s: seq<Region>)
    ensures |Ends(s)| <= 2 * |s|
    decreases |s|
  {
    if s != [] {
      var n := |s| - 1;
      EndsCount(s[..n]);
      var two := {s[n].addr, End(s[n])};
      assert Ends(s) <= Ends(s[..n]) + two by {
        forall r | r in s ensures r in s[..n] || r == s[n] { }
      }
      SubsetSize(Ends(s), Ends(s[..n]) + two);
    }
  }

  /** The pieces that n regions can be cut into. */
  function MaxPieces(n: nat): nat {
    if n == 0 then 0 else n * (2 * n - 1)
  }

  lemma LoadBound(s: seq<Region>)
    requires WellFormed(s)
    ensures Load(s, Ends(s)) <= MaxPieces(|s|)
  {
    if s != [] {
      forall r | r in s ensures WeightOf(Ends(s))(r) <= 2 * |s| - 1 { WeightBound(s, r); }
      SumBound(s, WeightOf(Ends(s)), 2 * |s| - 1);
    }
  }

  lemma WeightBound(s: seq<Region>, r: Region)
    requires r in s && r.len > 0
    ensures |Inside(r, Ends(s))| <= 2 * |s| - 2
  {
    EndsCount(s);
    var e, two := Ends(s), {r.addr, End(r)};
    assert |two| == 2 && two <= e && Inside(r, e) <= e - two;
    SubsetSize(Inside(r, e), e - two);
  }

  /** A region strictly inside another: the other one can be cut. */
  ghost predicate SomeNested(s: seq<Region>) {
    exists i, j | 0 <= i < |s| && 0 <= j < |s| :: s[i].addr < s[j].addr && End(s[j]) < End(s[i])
  }

  lemma LoadAbove(s: seq<Region>, e: set<nat>)
    requires SomeNested(s) && Ends(s) <= e
    ensures |s| < Load(s, e)
  {
    var i, j :| 0 <= i < |s| && 0 <= j < |s| && s[i].addr < s[j].addr && End(s[j]) < End(s[i]);
    var w, x := WeightOf(e), s[j].addr;
    assert s[j] in s && x in Ends(s) && x in Inside(s[i], e);
    var rest := s[..i] + s[i + 1..];
    TakeOut(s, i, w);
    SumAtLeast(rest, e);
  }

  lemma SumAtLeast(s: seq<Region>, e: set<nat>)
    ensures Load(s, e) >= |s|
  {
    SumCount(s, WeightOf(e));
  }

  lemma {:induction false} SumCount(s: seq<Region>, w: Region -> nat)
    requires forall r | r in s :: w(r) >= 1
    ensures Sum(s, w) >= |s|
    decreases |s|
  {
    if s != [] {
      var n := |s| - 1;
      assert s[n] in s && forall r | r in s[..n] :: r in s;
      SumCount(s[..n], w);
    }
  }

  // ------------------------------------------------------------------ steps

  /** Regions are never empty and start and end at page boundaries. */
  ghost predicate WellFormed(s: seq<Region>) {
    forall i | 0 <= i < |s| :: s[i].len > 0 && s[i].addr % PAGE == 0 && s[i].len % PAGE == 0
  }

  /** One step of overlap resolution: same map, smaller total, bounded growth. */
  ghost predicate Step(s: seq<Region>, t: seq<Region>) {
    && Refines(s, t) && WellFormed(t) && Total(t) < Total(s) && Tame(s, t)
    && |t| * PAGE + Total(t) <= |s| * PAGE + Total(s)
  }

  /** The list after removing element k by moving the last one into its place. */
  ghost function SwapRemoved(s: seq<Region>, k: nat): seq<Region>
    requires k < |s|
  {
    s[k := s[|s| - 1]][..|s| - 1]
  }

  lemma SumRemoved(s: seq<Region>, k: nat, w: Region -> nat)
    requires k < |s|
    ensures Sum(SwapRemoved(s, k), w) + w(s[k]) == Sum(s, w)
  {
    var t, x := SwapRemoved(s, k), s[|s| - 1];
    SumUpdate(s, k, x, w);
    SwapLast(s[k := x]);
    SumAppend(t, x, w);
  }

  lemma SwapLast(u: seq<Region>)
    requires u != []
    ensures u == u[..|u| - 1] + [u[|u| - 1]]
  {
  }

  lemma RemovedMultiset(s: seq<Region>, k: nat)
    requires k < |s|
    ensures multiset(SwapRemoved(s, k)) == multiset(s) - multiset{s[k]}
  {
    var t, u, x := SwapRemoved(s, k), s[k := s[|s| - 1]], s[|s| - 1];
    SwapLast(u);
    assert multiset(u) == multiset(t) + multiset{x} by { assert u == t + [x]; }
    UpdatedMultiset(s, k, x);
    assert multiset(t) == multiset(u) - multiset{x};
  }

  lemma UpdatedMultiset(s: seq<Region>, k: nat, x: Region)
    requires k < |s|
    ensures multiset(s[k := x]) == multiset(s) - multiset{s[k]} + multiset{x}
  {
    SplitAt(s, k);
    SplitAt(s[k := x], k);
    var a, b := s[..k], s[k + 1..];
    assert s[k := x][..k] == a && s[k := x][k + 1..] == b;
    TakeOutMultiset(a, s[k], b);
    TakeOutMultiset(a, x, b);
  }

  lemma RemoveTame(s: seq<Region>, k: nat)
    requires k < |s|
    ensures Tame(s, SwapRemoved(s, k))
  {
    var t := SwapRemoved(s, k);
    forall e | Ends(s) <= e ensures Ends(t) <= e && Load(t, e) <= Load(s, e) {
      SumRemoved(s, k, WeightOf(e));
      assert forall r | r in t :: r in s;
    }
  }

  /** A region replaced by a piece of it that starts and ends where regions do. */
  lemma TrimTame(s: seq<Region>, k: nat, p: Region)
    requires k < |s| && s[k].addr <= p.addr && End(p) <= End(s[k]) && p.addr in Ends(s) && End(p) in Ends(s)
    ensures Tame(s, s[k := p])
  {
    forall e | Ends(s) <= e ensures Ends(s[k := p]) <= e && Load(s[k := p], e) <= Load(s, e) {
      SumUpdate(s, k, p, WeightOf(e));
      InsideLess(s[k], p, e);
      assert forall r | r in s[k := p] :: r in s || r == p;
    }
  }

  lemma EndsOf(s: seq<Region>, k: nat, m: nat)
    requires k < |s| && m < |s|
    ensures {s[k].addr, End(s[k]), s[m].addr, End(s[m])} <= Ends(s)
  {
    assert s[k] in s && s[m] in s;
  }

  lemma SplitTame(s: seq<Region>, k: nat, p: Region, q: Region)
    requires k < |s| && s[k].addr <= p.addr < End(p) <= q.addr < End(q) <= End(s[k])
    requires {p.addr, End(p), q.addr, End(q)} <= Ends(s)
    ensures Tame(s, s[k := p] + [q])
  {
    var t := s[k := p] + [q];
    forall e | Ends(s) <= e ensures Ends(t) <= e && Load(t, e) <= Load(s, e) {
      SumUpdate(s, k, p, WeightOf(e));
      SumAppend(s[k := p], q, WeightOf(e));
      InsideCut(s[k], p, q, e);
      assert forall r | r in t :: r in s || r == p || r == q;
    }
  }

  /** A region hidden by a stricter one can go. */
  lemma RemoveHidden(s: seq<Region>, k: nat, m: nat)
    requires WellFormed(s) && k < |s| && m < |s| && k != m && s[m].typ >= s[k].typ
    requires s[m].addr <= s[k].addr && End(s[k]) <= End(s[m])
    ensures Step(s, SwapRemoved(s, k))
  {
    var t := SwapRemoved(s, k);
    SumRemoved(s, k, LenOf);
    RemoveTame(s, k);
    assert forall r | r in t :: r in s;
    assert forall r | r in s :: r in t || r == s[k] by {
      forall i | 0 <= i < |s| ensures s[i] in t || s[i] == s[k] {
        if i == |s| - 1 && i != k { assert t[k] == s[i]; }
        else if i != k { assert t[i] == s[i]; }
      }
    }
    assert s[m] in t by {
      if m == |s| - 1 { assert t[k] == s[m]; } else { assert t[m] == s[m]; }
    }
    forall r, a: nat | r in s && Covers(r, a) ensures AtLeast(t, a, r.typ) {
      if r !in t { assert Covers(s[m], a); }
    }
  }

  /** A region may lose the part that a stricter one covers, keeping the piece p. */
  lemma TrimHidden(s: seq<Region>, k: nat, m: nat, p: Region)
    requires WellFormed(s) && WellFormed([p]) && k < |s| && m < |s| && k != m && s[m].typ >= s[k].typ
    requires p.typ == s[k].typ && p.extra == s[k].extra && s[k].addr <= p.addr && End(p) <= End(s[k]) && p.len < s[k].len
    requires forall a: nat | Covers(s[k], a) :: Covers(p, a) || Covers(s[m], a)
    requires p.addr in [s[k].addr, End(s[m])] && End(p) in [End(s[k]), s[m].addr]
    ensures Step(s, s[k := p])
  {
    var t := s[k := p];
    assert [p][0] == p;
    SumUpdate(s, k, p, LenOf);
    EndsOf(s, k, m);
    TrimTame(s, k, p);
    Replaced(s, t, k, m, p, p);
  }

  /** A region may be split in two around a stricter one. */
  lemma SplitHidden(s: seq<Region>, k: nat, m: nat, p: Region, q: Region)
    requires WellFormed(s) && WellFormed([p, q]) && k < |s| && m < |s| && k != m && s[m].typ >= s[k].typ
    requires p.typ == q.typ == s[k].typ && p.extra == q.extra == s[k].extra
    requires s[k].addr <= p.addr && End(p) <= End(s[k]) && s[k].addr <= q.addr && End(q) <= End(s[k])
    requires p.len + q.len + PAGE <= s[k].len && p.addr == s[k].addr && End(p) == s[m].addr && q.addr == End(s[m]) && End(q) == End(s[k])
    requires forall a: nat | Covers(s[k], a) :: Covers(p, a) || Covers(q, a) || Covers(s[m], a)
    ensures Step(s, s[k := p] + [q])
  {
    var t := s[k := p] + [q];
    assert [p, q][0] == p && [p, q][1] == q;
    SumUpdate(s, k, p, LenOf);
    SumAppend(s[k := p], q, LenOf);
    EndsOf(s, k, m);
    SplitTame(s, k, p, q);
    Replaced(s, t, k, m, p, q);
  }

  /** The common part of the last two: s[k] became the pieces p and q. */
  lemma Replaced(s: seq<Region>, t: seq<Region>, k: nat, m: nat, p: Region, q: Region)
    requires k < |s| && m < |s| && k != m && s[m].typ >= s[k].typ && |t| >= |s|
    requires forall i | 0 <= i < |s| :: t[i] == if i == k then p else s[i]
    requires (forall i | |s| <= i < |t| :: t[i] == q) && (q == p || |t| > |s|)
    requires p.typ == q.typ == s[k].typ && p.extra == q.extra == s[k].extra
    requires s[k].addr <= p.addr && End(p) <= End(s[k]) && s[k].addr <= q.addr && End(q) <= End(s[k])
    requires forall a: nat | Covers(s[k], a) :: Covers(p, a) || Covers(q, a) || Covers(s[m], a)
    ensures Refines(s, t)
  {
    assert p in t && s[m] in t by { assert t[k] == p && t[m] == s[m]; }
    assert q in t by { if q != p { assert t[|s|] == q; } }
    forall r, a: nat | r in s && Covers(r, a) ensures AtLeast(t, a, r.typ) {
      var i :| 0 <= i < |s| && s[i] == r;
      if i != k { assert t[i] == r; }
    }
    forall r, a: nat | r in t && Covers(r, a) ensures Has(s, a, r.typ, r.extra) {
      var i :| 0 <= i < |t| && t[i] == r;
      if i == k || i >= |s| { assert Covers(s[k], a) && s[k] in s; } else { assert s[i] == r; }
    }
  }

  /** Any number of steps. */
  ghost predicate Progress(s: seq<Region>, t: seq<Region>) {
    && Refines(s, t) && WellFormed(t) && Total(t) <= Total(s) && Tame(s, t)
    && |t| * PAGE + Total(t) <= |s| * PAGE + Total(s)
  }

  lemma ProgressSelf(s: seq<Region>)
    requires WellFormed(s)
    ensures Progress(s, s)
  {
    RefinesSelf(s);
  }

  lemma ProgressTrans(s: seq<Region>, t: seq<Region>, u: seq<Region>)
    requires Progress(s, t) && Progress(t, u)
    ensures Progress(s, u)
  {
    RefinesTrans(s, t, u);
  }

  lemma PermutedProgress(s: seq<Region>, t: seq<Region>)
    requires WellFormed(s) && multiset(s) == multiset(t)
    ensures Progress(s, t) && Total(s) == Total(t)
  {
    SumPermuted(s, t, LenOf);
    assert |s| == |multiset(s)| == |multiset(t)| == |t|;
    assert forall r :: r in s <==> r in t by {
      assert forall r :: r in s <==> r in multiset(s);
      assert forall r :: r in t <==> r in multiset(t);
    }
    RefinesSame(s, t);
    forall e | Ends(s) <= e ensures Ends(t) <= e && Load(t, e) <= Load(s, e) { SumPermuted(s, t, WeightOf(e)); }
    forall i | 0 <= i < |t| ensures t[i].len > 0 && t[i].addr % PAGE == 0 && t[i].len % PAGE == 0 {
      assert t[i] in s;
    }
  }

  /** The second region continues the first and is of its kind. */
  predicate Mergeable(a: Region, b: Region) {
    b.typ == a.typ && b.extra == a.extra && b.addr == End(a)
  }

  /** The list after merging regions i and i + 1: the first one grows, the second one goes. */
  ghost function Merged(s: seq<Region>, i: nat): seq<Region>
    requires i + 1 < |s|
  {
    var u := s[i := s[i].(len := s[i].len + s[i + 1].len)];
    u[..i + 1] + u[i + 2..]
  }

  lemma MergedAt(s: seq<Region>, i: nat)
    requires i + 1 < |s|
    ensures |Merged(s, i)| == |s| - 1 && Merged(s, i)[i] == s[i].(len := s[i].len + s[i + 1].len)
    ensures forall k | 0 <= k < i :: Merged(s, i)[k] == s[k]
    ensures forall k | i < k < |s| - 1 :: Merged(s, i)[k] == s[k + 1]
  {
  }

  /** Merging changes nothing about what can be merged before it. */
  lemma MergedFront(s: seq<Region>, i: nat)
    requires i + 1 < |s|
    ensures forall k | 0 <= k < i :: Mergeable(Merged(s, i)[k], Merged(s, i)[k + 1]) <==> Mergeable(s[k], s[k + 1])
  {
    MergedAt(s, i);
  }

  /** The list t has m at i and the other elements of s except i and i + 1. */
  lemma MergeRefines(s: seq<Region>, t: seq<Region>, i: nat)
    requires i + 1 < |s| && |t| == |s| - 1 && t[i] == s[i].(len := s[i].len + s[i + 1].len)
    requires Mergeable(s[i], s[i + 1])
    requires forall k | 0 <= k < i :: t[k] == s[k]
    requires forall k | i < k < |s| - 1 :: t[k] == s[k + 1]
    ensures Refines(s, t)
  {
    forall r, a: nat | r in s && Covers(r, a) ensures AtLeast(t, a, r.typ) {
      var k :| 0 <= k < |s| && s[k] == r;
      var x := if k < i then t[k] else if k <= i + 1 then t[i] else t[k - 1];
      assert x in t && Covers(x, a);
    }
    forall r, a: nat | r in t && Covers(r, a) ensures Has(s, a, r.typ, r.extra) {
      var k :| 0 <= k < |t| && t[k] == r;
      var x := if k < i then s[k] else if k > i then s[k + 1] else if Covers(s[i], a) then s[i] else s[i + 1];
      assert x in s && Covers(x, a);
    }
  }

  /** Touching regions of the same kind may be merged. */
  lemma MergeProgress(s: seq<Region>, i: nat)
    requires WellFormed(s) && i + 1 < |s| && Mergeable(s[i], s[i + 1])
    ensures Progress(s, Merged(s, i))
  {
    MergedAt(s, i);
    MergeRefines(s, Merged(s, i), i);
    MergedSum(s, i, LenOf);
    MergeTame(s, i);
  }

  lemma MergedSum(s: seq<Region>, i: nat, w: Region -> nat)
    requires i + 1 < |s|
    ensures Sum(Merged(s, i), w) + w(s[i]) + w(s[i + 1]) == Sum(s, w) + w(Merged(s, i)[i])
  {
    var u := s[i := s[i].(len := s[i].len + s[i + 1].len)];
    SumUpdate(s, i, u[i], w);
    TakeOut(u, i + 1, w);
  }

  lemma MergeTame(s: seq<Region>, i: nat)
    requires i + 1 < |s| && Mergeable(s[i], s[i + 1])
    ensures Tame(s, Merged(s, i))
  {
    var t := Merged(s, i);
    MergedAt(s, i);
    EndsOf(s, i, i + 1);
    assert forall r | r in t :: r in s || r == t[i];
    forall e | Ends(s) <= e ensures Ends(t) <= e && Load(t, e) <= Load(s, e) {
      MergedSum(s, i, WeightOf(e));
      InsideJoin(t[i], s[i], s[i + 1], e);
    }
  }
}
