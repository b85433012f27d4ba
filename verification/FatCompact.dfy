/** In-place compaction of the clusters of a FAT volume. */
module FatCompact {
  import opened FatVolume

  ghost predicate UsedBelow(fat: seq<nat>, ffc: nat) {
    ffc <= |fat| && forall c | 0 <= c < ffc :: fat[c] != 0
  }

  /** Each chain of `now` yields, cluster by cluster, the data of the same chain of `before`. */
  ghost predicate SameContents<T>(before: seq<seq<nat>>, data0: seq<T>, now: seq<seq<nat>>, data: seq<T>) {
    && |now| == |before|
    && forall i | 0 <= i < |now| :: SameFile(before[i], data0, now[i], data)
  }

  ghost predicate SameFile<T>(ch0: seq<nat>, data0: seq<T>, ch: seq<nat>, data: seq<T>) {
    && |ch| == |ch0|
    && forall j | 0 <= j < |ch| :: ch0[j] < |data0| && ch[j] < |data| && data[ch[j]] == data0[ch0[j]]
  }

  /** Every cluster of the chain lies below `ffc`. */
  ghost predicate Packed(ch: seq<nat>, ffc: nat) {
    forall j | 0 <= j < |ch| :: ch[j] < ffc
  }

  /** The bits of the table words that are not part of the entries. */
  ghost predicate SameReservedBits(ft: FatType, w: seq<nat>, w0: seq<nat>) {
    |w| == |w0| && (ft.Fat32? ==> forall c | 0 <= c < |w| :: w[c] / RESERVED == w0[c] / RESERVED)
  }

  /** The volume before compaction. */
  datatype Origin<T> = Origin(chains: seq<seq<nat>>, data: seq<T>, raw: seq<nat>, free: nat, noOrphans: bool)

  /** Everything compaction keeps, relative to the volume it started from. */
  ghost predicate Kept<T>(ft: FatType, raw: seq<nat>, heads: seq<nat>, chains: seq<seq<nat>>, data: seq<T>, ffc: nat, g: Origin<T>) {
    var fat := View(ft, raw);
    && Consistent(ft, fat, heads, chains) && |data| == |fat|
    && UsedBelow(fat, ffc) && |FreeClusters(fat)| == g.free
    && SameContents(g.chains, g.data, chains, data)
    && (g.noOrphans ==> NoOrphans(fat, chains))
    && SameReservedBits(ft, raw, g.raw)
  }

  lemma ChainFacts(ft: FatType, fat: seq<nat>, heads: seq<nat>, chains: seq<seq<nat>>, i: nat)
    requires Consistent(ft, fat, heads, chains) && i < |chains|
    ensures forall q | 0 <= q < |chains[i]| :: 2 <= chains[i][q] < |fat| && fat[chains[i][q]] != 0
    ensures forall p, q | 0 <= p < q < |chains[i]| :: chains[i][p] != chains[i][q]
    ensures forall q | 0 <= q < |chains[i]| - 1 :: fat[chains[i][q]] == chains[i][q + 1] && !EndOfChain(ft, fat[chains[i][q]])
    ensures chains[i] != [] ==> EndOfChain(ft, fat[chains[i][|chains[i]| - 1]]) && heads[i] == chains[i][0]
    ensures heads[i] == 0 ==> chains[i] == []
  {
    assert IsFile(ft, fat, heads[i], chains[i]);
    forall p, q | 0 <= p < q < |chains[i]| ensures chains[i][p] != chains[i][q] {
    }
    forall q | 0 <= q < |chains[i]| ensures 2 <= chains[i][q] < |fat| && fat[chains[i][q]] != 0 {
      if q < |chains[i]| - 1 { assert fat[chains[i][q]] == chains[i][q + 1]; }
    }
    forall q | 0 <= q < |chains[i]| - 1
      ensures fat[chains[i][q]] == chains[i][q + 1] && !EndOfChain(ft, fat[chains[i][q]])
    {
      assert chains[i][q + 1] < |fat|;
    }
  }

  /** Copying a cluster into a free one and redirecting its chain shows the same data everywhere. */
  lemma MoveKeepsContents<T>(before: seq<seq<nat>>, data0: seq<T>, chains: seq<seq<nat>>, data: seq<T>, i: nat, j: nat, dst: nat)
    requires SameContents(before, data0, chains, data) && i < |chains| && j < |chains[i]| && dst < |data|
    requires forall p, q | 0 <= p < |chains| && 0 <= q < |chains[p]| :: chains[p][q] != dst
    ensures chains[i][j] < |data| && SameContents(before, data0, MovedChains(chains, i, j, dst), data[dst := data[chains[i][j]]])
  {
    assert SameFile(before[i], data0, chains[i], data);
    var data' := data[dst := data[chains[i][j]]];
    var chains' := MovedChains(chains, i, j, dst);
    forall p | 0 <= p < |chains'| ensures SameFile(before[p], data0, chains'[p], data') {
      assert SameFile(before[p], data0, chains[p], data);
    }
  }

  lemma MoveKeepsUsed(fat: seq<nat>, ch: seq<nat>, j: nat, ffc: nat)
    requires UsedBelow(fat, ffc) && j < |ch| && ffc < ch[j] && ffc < |fat| && fat[ffc] == 0 && ffc > 0
    requires forall q | 0 <= q < |ch| :: 0 <= ch[q] < |fat| && fat[ch[q]] != 0
    requires forall p, q | 0 <= p < q < |ch| :: ch[p] != ch[q]
    ensures UsedBelow(MovedFat(fat, ch, j, ffc), ffc + 1)
  {
    forall c | 0 <= c < ffc + 1 ensures MovedFat(fat, ch, j, ffc)[c] != 0 {
      MovedAt(fat, ch, j, ffc, c);
    }
  }

  /** One move keeps everything. */
  lemma MoveKeeps<T>(ft: FatType, raw: seq<nat>, heads: seq<nat>, chains: seq<seq<nat>>, data: seq<T>, ffc: nat, g: Origin<T>,
                     i: nat, j: nat, raw': seq<nat>)
    requires Kept(ft, raw, heads, chains, data, ffc, g)
    requires i < |chains| && j < |chains[i]| && ffc < |raw| && View(ft, raw)[ffc] == 0 && ffc < chains[i][j]
    requires forall q | 0 <= q < |chains[i]| :: 2 <= chains[i][q] < |raw|
    requires View(ft, raw') == MovedFat(View(ft, raw), chains[i], j, ffc) && SameReservedBits(ft, raw', raw)
    ensures Kept(ft, raw', if j == 0 then heads[i := ffc] else heads, MovedChains(chains, i, j, ffc),
                 data[ffc := data[chains[i][j]]], ffc + 1, g)
  {
    var fat := View(ft, raw);
    var fat' := MovedFat(fat, chains[i], j, ffc);
    assert |FreeClusters(fat')| == |FreeClusters(fat)| && UsedBelow(fat', ffc + 1) by {
      ChainFacts(ft, fat, heads, chains, i);
      FreeNotInChain(ft, fat, heads, chains, ffc);
      MoveKeepsFreeCount(fat, chains[i], j, ffc);
      MoveKeepsUsed(fat, chains[i], j, ffc);
    }
    FreeNotInChain(ft, fat, heads, chains, ffc);
    MoveKeepsContents(g.chains, g.data, chains, data, i, j, ffc);
    if g.noOrphans {
      assert NoOrphans(fat', MovedChains(chains, i, j, ffc)) by {
        ChainFacts(ft, fat, heads, chains, i);
        MoveKeepsNoOrphans(fat, chains, i, j, ffc);
      }
    }
    MoveKeepsConsistent(ft, fat, heads, chains, i, j, ffc);
  }

  /** The walk has reached position j: what is before it is packed, what follows is untouched. */
  ghost predicate Walking(ch: seq<nat>, ch0: seq<nat>, j: nat, clu: nat, last: nat, ffc: nat) {
    && |ch| == |ch0| && j < |ch| && clu == ch[j] && (j > 0 ==> last == ch[j - 1])
    && (forall q | 0 <= q < j :: ch[q] < ffc) && (forall q | j <= q < |ch| :: ch[q] == ch0[q])
    && (forall p, q | 0 <= p < q < |ch0| :: ch0[p] != ch0[q])
  }

  lemma WalkStep(ch: seq<nat>, ch0: seq<nat>, j: nat, clu: nat, last: nat, ffc: nat, place: nat, ffc': nat)
    requires Walking(ch, ch0, j, clu, last, ffc) && place < ffc' && ffc <= ffc'
    ensures j + 1 < |ch| ==> Walking(ch[j := place], ch0, j + 1, ch[j + 1], place, ffc')
    ensures j + 1 == |ch| ==> Packed(ch[j := place], ffc')
  {
  }

  class Volume<T(0)> {
    const ft: FatType
    const raw: array<nat>
    const data: array<T>
    const heads: array<nat>
    var ffc: nat
    ghost var chains: seq<seq<nat>>

    /** A volume in memory: its table, its clusters and the first clusters in its directory entries. */
    constructor (t: FatType, table: array<nat>, clusters: array<T>, first: array<nat>, ghost files: seq<seq<nat>>)
      requires table != first && clusters as object != table as object && clusters as object != first as object
      requires clusters.Length == table.Length && Consistent(t, View(t, table[..]), first[..], files)
      ensures ft == t && raw == table && data == clusters && heads == first && chains == files
      ensures Separate() && Consistent(ft, Fat(), heads[..], chains)
    {
      ft, raw, data, heads, ffc, chains := t, table, clusters, first, 0, files;
    }

    ghost function Fat(): seq<nat>
      reads this, raw
    {
      View(ft, raw[..])
    }

    ghost predicate Separate()
      reads this
    {
      raw != heads && data as object != raw as object && data as object != heads as object
    }

    ghost predicate Ready(g: Origin<T>)
      reads this, raw, data, heads
    {
      Separate() && Kept(ft, raw[..], heads[..], chains, data[..], ffc, g)
    }

    method ReadEntry(c: nat) returns (v: nat)
      requires c < raw.Length
      ensures v == Fat()[c]
    {
      v := Entry(ft, raw[c]);
    }

    method WriteEntry(c: nat, v: nat)
      requires c < raw.Length && Storable(ft, v)
      modifies raw
      ensures Fat() == old(Fat())[c := v] && SameReservedBits(ft, raw[..], old(raw[..]))
    {
      StoreReadsBack(ft, raw[c], v);
      raw[c] := Stored(ft, raw[c], v);
    }

    /** Moves `ffc` forward to the first free cluster. */
    method FindFree()
      requires UsedBelow(Fat(), ffc) && FreeClusters(Fat()) != {}
      modifies this`ffc
      ensures old(ffc) <= ffc < raw.Length && Fat()[ffc] == 0 && UsedBelow(Fat(), ffc)
    {
      ghost var f :| f in FreeClusters(Fat());
      var v := ReadEntry(ffc);
      while v != 0
        invariant old(ffc) <= ffc <= f && UsedBelow(Fat(), ffc) && v == Fat()[ffc]
        decreases f - ffc
      {
        ffc := ffc + 1;
        v := ReadEntry(ffc);
      }
    }

    /** The writes of one move. */
    method CopyAndRelink(i: nat, clu: nat, last: nat, next: nat, first: bool)
      requires Separate() && data.Length == raw.Length && i < heads.Length && ffc < raw.Length && clu < raw.Length
      requires (!first ==> last < raw.Length) && Storable(ft, ffc) && Storable(ft, next)
      modifies raw, data, heads
      ensures Fat() == (if first then old(Fat()) else old(Fat())[last := ffc])[ffc := next][clu := 0]
      ensures heads[..] == if first then old(heads[..])[i := ffc] else old(heads[..])
      ensures data[..] == old(data[..])[ffc := old(data[clu])]
      ensures SameReservedBits(ft, raw[..], old(raw[..]))
    {
      data[ffc] := data[clu];
      if first {
        heads[i] := ffc;
      } else {
        WriteEntry(last, ffc);
      }
      WriteEntry(ffc, next);
      WriteEntry(clu, 0);
    }

    /** Moves cluster number j of entry i, which is `clu`, to the first free cluster. */
    method MoveCluster(i: nat, clu: nat, last: nat, next: nat, first: bool, ghost j: nat, ghost g: Origin<T>)
      requires Ready(g) && i < heads.Length && j < |chains[i]| && first == (j == 0)
      requires clu == chains[i][j] && (j > 0 ==> last == chains[i][j - 1])
      requires ffc < clu && Fat()[ffc] == 0 && clu < raw.Length && next == Fat()[clu]
      modifies this`ffc, this`chains, raw, data, heads
      ensures Ready(g) && ffc == old(ffc) + 1 && chains == MovedChains(old(chains), i, j, old(ffc))
    {
      ChainFacts(ft, Fat(), heads[..], chains, i);
      CopyAndRelink(i, clu, last, next, first);
      MoveKeeps(ft, old(raw[..]), old(heads[..]), chains, old(data[..]), ffc, g, i, j, raw[..]);
      chains := MovedChains(chains, i, j, ffc);
      ffc := ffc + 1;
    }

    /** One round of the loop over a chain: returns where the cluster is now and what follows it. */
    method VisitCluster(i: nat, clu: nat, last: nat, first: bool, ghost j: nat, ghost g: Origin<T>) returns (place: nat, next: nat)
      requires Ready(g) && g.free > 0 && i < heads.Length && j < |chains[i]| && first == (j == 0)
      requires clu == chains[i][j] && (j > 0 ==> last == chains[i][j - 1])
      modifies this`ffc, this`chains, raw, data, heads
      ensures Ready(g) && old(ffc) <= ffc && place < ffc && chains == MovedChains(old(chains), i, j, place)
      ensures EndOfChain(ft, next) <==> j + 1 == |chains[i]|
      ensures j + 1 < |chains[i]| ==> next == chains[i][j + 1]
    {
      ChainFacts(ft, Fat(), heads[..], chains, i);
      next := ReadEntry(clu);
      assert FreeClusters(Fat()) != {};
      FindFree();
      place := clu;
      if clu > ffc {
        place := ffc;
        MoveCluster(i, clu, last, next, first, j, g);
      } else {
        assert chains[i][j := place] == chains[i];
      }
    }

    /**
     Visits one directory entry: its clusters above the first free one are moved down, one by one,
     while following the chain.
     */
    method CompactEntry(i: nat, ghost g: Origin<T>)
      requires Ready(g) && g.free > 0 && i < heads.Length
      modifies this`ffc, this`chains, raw, data, heads
      ensures Ready(g) && ffc >= old(ffc) && |chains| == |old(chains)| && Packed(chains[i], ffc)
      ensures forall p | 0 <= p < |chains| && p != i :: chains[p] == old(chains[p])
    {
      var firstClu := heads[i];
      ChainFacts(ft, Fat(), heads[..], chains, i);
      if firstClu == 0 {
        // an empty file: the end mark in word 0 stops the walk at once
        assert FreeClusters(Fat()) != {};
        FindFree();
      } else {
        WalkChain(i, firstClu, g);
      }
    }

    method WalkChain(i: nat, firstClu: nat, ghost g: Origin<T>)
      requires Ready(g) && g.free > 0 && i < heads.Length && chains[i] != [] && firstClu == chains[i][0]
      modifies this`ffc, this`chains, raw, data, heads
      ensures Ready(g) && ffc >= old(ffc) && |chains| == |old(chains)| && Packed(chains[i], ffc)
      ensures forall p | 0 <= p < |chains| && p != i :: chains[p] == old(chains[p])
    {
      ChainFacts(ft, Fat(), heads[..], chains, i);
      var clu, last := firstClu, 0;
      ghost var ch0, j := chains[i], 0;
      while true
        invariant Ready(g) && ffc >= old(ffc) && Walking(chains[i], ch0, j, clu, last, ffc)
        invariant |chains| == |old(chains)| && forall p | 0 <= p < |chains| && p != i :: chains[p] == old(chains[p])
        decreases |ch0| - j
      {
        ghost var ch, ffc0, clu0, last0 := chains[i], ffc, clu, last;
        last, clu := VisitCluster(i, clu, last, clu == firstClu, j, g);
        WalkStep(ch, ch0, j, clu0, last0, ffc0, last, ffc);
        j := j + 1;
        if EndOfChain(ft, clu) {
          break;
        }
      }
    }

    /**
     Compaction. Entries are visited in walk order, given here by their index. Afterwards every
     chain still exists, shares no cluster and yields the same data; every cluster below `ffc` is
     in use and every visited chain lies below it; as many clusters are free as before. When no
     cluster in use was orphaned, the free clusters are exactly those from `ffc` on.
     */
    method CompactClusters()
      requires Separate() && data.Length == raw.Length && Consistent(ft, Fat(), heads[..], chains) && FreeClusters(Fat()) != {}
      modifies this`ffc, this`chains, raw, data, heads
      ensures Consistent(ft, Fat(), heads[..], chains) && SameContents(old(chains), old(data[..]), chains, data[..])
      ensures UsedBelow(Fat(), ffc) && forall i | 0 <= i < |chains| :: Packed(chains[i], ffc)
      ensures |FreeClusters(Fat())| == old(|FreeClusters(Fat())|)
      ensures SameReservedBits(ft, raw[..], old(raw[..]))
      ensures old(NoOrphans(Fat(), chains)) ==> forall c | 0 <= c < raw.Length :: Fat()[c] == 0 <==> c >= ffc
    {
      ghost var g := Origin(chains, data[..], raw[..], |FreeClusters(Fat())|, NoOrphans(Fat(), chains));
      ffc := 0;
      OriginKept(ft, raw[..], heads[..], chains, data[..], g);
      FindFree();
      assert ffc >= 2;
      VisitAll(g);
      if g.noOrphans { PackedTight(ft, Fat(), chains, ffc); }
    }

    method VisitAll(ghost g: Origin<T>)
      requires Ready(g) && g.free > 0
      modifies this`ffc, this`chains, raw, data, heads
      ensures Ready(g) && ffc >= old(ffc) && forall p | 0 <= p < |chains| :: Packed(chains[p], ffc)
    {
      for i := 0 to heads.Length
        invariant Ready(g) && ffc >= old(ffc) && forall p | 0 <= p < i :: Packed(chains[p], ffc)
      {
        CompactEntry(i, g);
      }
    }
  }

  lemma OriginKept<T>(ft: FatType, raw: seq<nat>, heads: seq<nat>, chains: seq<seq<nat>>, data: seq<T>, g: Origin<T>)
    requires Consistent(ft, View(ft, raw), heads, chains) && |data| == |raw|
    requires g == Origin(chains, data, raw, |FreeClusters(View(ft, raw))|, NoOrphans(View(ft, raw), chains))
    ensures Kept(ft, raw, heads, chains, data, 0, g)
  {
    forall i | 0 <= i < |chains| ensures SameFile(chains[i], data, chains[i], data) {
      ChainFacts(ft, View(ft, raw), heads, chains, i);
    }
  }

  lemma PackedTight(ft: FatType, fat: seq<nat>, chains: seq<seq<nat>>, ffc: nat)
    requires NoOrphans(fat, chains) && UsedBelow(fat, ffc) && ffc >= 2
    requires forall i | 0 <= i < |chains| :: Packed(chains[i], ffc)
    ensures forall c | 0 <= c < |fat| :: fat[c] == 0 <==> c >= ffc
  {
  }
}
