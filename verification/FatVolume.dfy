/**
 A FAT volume: allocation table, cluster data and the first cluster of every directory entry.
 Cluster chains are followed through the table until an end-of-chain mark.
 */
module FatVolume {

  datatype FatType = Fat16 | Fat32

  const RESERVED: nat := 0x1000_0000

  /** What reading a raw table word yields: all of a FAT16 word, the low 28 bits of a FAT32 word. */
  function Entry(ft: FatType, word: nat): nat {
    if ft.Fat16? then word else word % RESERVED
  }

  /** The word after storing `v`: the top 4 bits of a FAT32 word are kept. */
  function Stored(ft: FatType, word: nat, v: nat): nat {
    if ft.Fat16? then v else word - word % RESERVED + v
  }

  predicate EndOfChain(ft: FatType, v: nat) {
    if ft.Fat16? then v >= 0xFFF8 else v >= 0x0FFF_FFF0 && v != 0x0FFF_FFF7
  }

  /** Values that can be stored in an entry. */
  predicate Storable(ft: FatType, v: nat) {
    if ft.Fat16? then v < 0x1_0000 else v < RESERVED
  }

  /** A stored value reads back, and the bits that are not part of the entry stay. */
  lemma StoreReadsBack(ft: FatType, word: nat, v: nat)
    requires Storable(ft, v)
    ensures Entry(ft, Stored(ft, word, v)) == v
    ensures ft.Fat32? ==> Stored(ft, word, v) / RESERVED == word / RESERVED
  {
  }

  /** A FAT32 entry is the low 28 bits of its word; the other four stay. */
  lemma EntryBits(top: nat, v: nat, w: nat)
    requires top < 16 && v < 0x1000_0000 && w < 0x1000_0000
    ensures Entry(Fat32, top * 0x1000_0000 + v) == v && Stored(Fat32, top * 0x1000_0000 + v, w) == top * 0x1000_0000 + w
    ensures Storable(Fat32, v)
  {
    assert (top * 0x1000_0000 + v) % 0x1000_0000 == v;
  }

  /** The eight largest values are end marks, the one before them, a bad cluster, is not, and no cluster number is. */
  lemma EndMarks(ft: FatType, v: nat)
    requires Storable(ft, v)
    ensures var limit := if ft.Fat16? then 0x1_0000 else 0x1000_0000;
            && v < limit && (limit - 8 <= v ==> EndOfChain(ft, v)) && (v == limit - 9 ==> !EndOfChain(ft, v))
            && (EndOfChain(ft, v) ==> limit - 16 <= v && !TableSize(ft, v + 1))
  {
  }

  /** The table as read through `Entry`. */
  ghost function View(ft: FatType, raw: seq<nat>): seq<nat> {
    seq(|raw|, i requires 0 <= i < |raw| => Entry(ft, raw[i]))
  }

  /** Cluster numbers of a table of this size cannot be taken for end marks. */
  ghost predicate TableSize(ft: FatType, n: nat) {
    2 <= n <= if ft.Fat16? then 0xFFF7 else 0x0FFF_FFF0
  }

  /** `ch` is the list of clusters reached from `head`; an empty file has head 0 and no cluster. */
  ghost predicate IsFile(ft: FatType, fat: seq<nat>, head: nat, ch: seq<nat>) {
    if ch == [] then head == 0
    else
      && head == ch[0]
      && (forall j | 0 <= j < |ch| :: 2 <= ch[j] < |fat|)
      && (forall j | 0 <= j < |ch| - 1 :: fat[ch[j]] == ch[j + 1])
      && EndOfChain(ft, fat[ch[|ch| - 1]])
  }

  /** The table and the first cluster determine the chain. */
  lemma FileUnique(ft: FatType, fat: seq<nat>, head: nat, a: seq<nat>, b: seq<nat>)
    requires TableSize(ft, |fat|) && IsFile(ft, fat, head, a) && IsFile(ft, fat, head, b)
    ensures a == b
  {
    if a != [] && b != [] {
      CommonPrefix(ft, fat, head, a, b, if |a| <= |b| then |a| - 1 else |b| - 1);
      if |a| < |b| {
        NotLast(ft, fat, head, b, |a| - 1);
      } else if |b| < |a| {
        NotLast(ft, fat, head, a, |b| - 1);
      } else {
        forall j | 0 <= j < |a| ensures a[j] == b[j] {
          CommonPrefix(ft, fat, head, a, b, j);
        }
      }
    }
  }

  lemma NotLast(ft: FatType, fat: seq<nat>, head: nat, ch: seq<nat>, j: nat)
    requires TableSize(ft, |fat|) && IsFile(ft, fat, head, ch) && j < |ch| - 1
    ensures !EndOfChain(ft, fat[ch[j]])
  {
    assert ch[j + 1] < |fat|;
  }

  lemma {:induction false} CommonPrefix(ft: FatType, fat: seq<nat>, head: nat, a: seq<nat>, b: seq<nat>, j: nat)
    requires IsFile(ft, fat, head, a) && IsFile(ft, fat, head, b) && j < |a| && j < |b|
    ensures a[j] == b[j]
    decreases j
  {
    if j > 0 {
      CommonPrefix(ft, fat, head, a, b, j - 1);
    }
  }

  ghost predicate Distinct(chains: seq<seq<nat>>) {
    forall i, j, p, q | 0 <= i < |chains| && 0 <= j < |chains[i]| && 0 <= p < |chains| && 0 <= q < |chains[p]| && (i != p || j != q) ::
      chains[i][j] != chains[p][q]
  }

  /** The entries' chains exist in the table, end, and share no cluster; the two reserved words are set. */
  ghost predicate Consistent(ft: FatType, fat: seq<nat>, heads: seq<nat>, chains: seq<seq<nat>>) {
    && TableSize(ft, |fat|) && (forall c | 0 <= c < |fat| :: Storable(ft, fat[c]))
    && EndOfChain(ft, fat[0]) && fat[1] != 0
    && |chains| == |heads| && Distinct(chains)
    && forall i | 0 <= i < |heads| :: IsFile(ft, fat, heads[i], chains[i])
  }

  ghost function FreeClusters(fat: seq<nat>): set<nat> {
    set c | 0 <= c < |fat| && fat[c] == 0
  }

  ghost predicate InChain(chains: seq<seq<nat>>, c: nat) {
    exists i, j :: 0 <= i < |chains| && 0 <= j < |chains[i]| && chains[i][j] == c
  }

  /** Every cluster in use, apart from the reserved words, belongs to some entry. */
  ghost predicate NoOrphans(fat: seq<nat>, chains: seq<seq<nat>>) {
    forall c | 2 <= c < |fat| && fat[c] != 0 :: InChain(chains, c)
  }

  // --------------------------------------------------- moving one cluster

  /** Table after the j-th cluster of chain `ch` moved to `dst`. */
  ghost function MovedFat(fat: seq<nat>, ch: seq<nat>, j: nat, dst: nat): seq<nat>
    requires j < |ch| && dst < |fat| && forall q | 0 <= q < |ch| :: 0 <= ch[q] < |fat|
  {
    (if j > 0 then fat[ch[j - 1] := dst] else fat)[dst := fat[ch[j]]][ch[j] := 0]
  }

  ghost function MovedChains(chains: seq<seq<nat>>, i: nat, j: nat, dst: nat): seq<seq<nat>>
    requires i < |chains| && j < |chains[i]|
  {
    var ch: seq<nat> := chains[i][j := dst];
    chains[i := ch]
  }

  lemma FreeNotInChain(ft: FatType, fat: seq<nat>, heads: seq<nat>, chains: seq<seq<nat>>, dst: nat)
    requires Consistent(ft, fat, heads, chains) && dst < |fat| && fat[dst] == 0
    ensures dst >= 2 && forall i, j | 0 <= i < |chains| && 0 <= j < |chains[i]| :: chains[i][j] != dst
  {
    forall i, j | 0 <= i < |chains| && 0 <= j < |chains[i]| ensures chains[i][j] != dst {
      assert IsFile(ft, fat, heads[i], chains[i]);
      if j < |chains[i]| - 1 { assert fat[chains[i][j]] == chains[i][j + 1]; }
    }
  }

  lemma MoveKeepsDistinct(chains: seq<seq<nat>>, i: nat, j: nat, dst: nat)
    requires Distinct(chains) && i < |chains| && j < |chains[i]|
    requires forall p, q | 0 <= p < |chains| && 0 <= q < |chains[p]| :: chains[p][q] != dst
    ensures Distinct(MovedChains(chains, i, j, dst))
  {
    var chains' := MovedChains(chains, i, j, dst);
    forall a, b, p, q | 0 <= a < |chains'| && 0 <= b < |chains'[a]| && 0 <= p < |chains'| && 0 <= q < |chains'[p]| && (a != p || b != q)
      ensures chains'[a][b] != chains'[p][q]
    {
      assert chains[a][b] != chains[p][q];
    }
  }

  lemma UntouchedFile(ft: FatType, fat: seq<nat>, fat': seq<nat>, head: nat, ch: seq<nat>)
    requires IsFile(ft, fat, head, ch) && |fat'| == |fat|
    requires forall q | 0 <= q < |ch| :: 0 <= ch[q] < |fat| && fat'[ch[q]] == fat[ch[q]]
    ensures IsFile(ft, fat', head, ch)
  {
  }

  /** The table changes only at the moved cluster, its predecessor and the destination. */
  lemma MovedAt(fat: seq<nat>, ch: seq<nat>, j: nat, dst: nat, c: nat)
    requires j < |ch| && dst < |fat| && c < |fat| && forall q | 0 <= q < |ch| :: 0 <= ch[q] < |fat| && ch[q] != dst
    requires forall p, q | 0 <= p < q < |ch| :: ch[p] != ch[q]
    ensures MovedFat(fat, ch, j, dst)[c] ==
            if c == ch[j] then 0 else if c == dst then fat[ch[j]] else if j > 0 && c == ch[j - 1] then dst else fat[c]
  {
  }

  /** Moving a cluster of an entry into a free one keeps every chain in the table. */
  lemma MoveKeepsConsistent(ft: FatType, fat: seq<nat>, heads: seq<nat>, chains: seq<seq<nat>>, i: nat, j: nat, dst: nat)
    requires Consistent(ft, fat, heads, chains) && i < |chains| && j < |chains[i]| && dst < |fat| && fat[dst] == 0
    requires forall q | 0 <= q < |chains[i]| :: 2 <= chains[i][q] < |fat|
    ensures Consistent(ft, MovedFat(fat, chains[i], j, dst), if j == 0 then heads[i := dst] else heads, MovedChains(chains, i, j, dst))
  {
    var ch := chains[i];
    var fat', heads', chains' := MovedFat(fat, ch, j, dst), if j == 0 then heads[i := dst] else heads, MovedChains(chains, i, j, dst);
    FreeNotInChain(ft, fat, heads, chains, dst);
    MoveKeepsDistinct(chains, i, j, dst);
    assert forall p, q | 0 <= p < q < |ch| :: ch[p] != ch[q] by {
      forall p, q | 0 <= p < q < |ch| ensures ch[p] != ch[q] { assert chains[i][p] != chains[i][q]; }
    }
    forall c | 0 <= c < |fat'| ensures Storable(ft, fat'[c]) && (c < 2 ==> fat'[c] == fat[c]) {
      MovedAt(fat, ch, j, dst, c);
    }
    forall p | 0 <= p < |heads'| ensures IsFile(ft, fat', heads'[p], chains'[p]) {
      assert IsFile(ft, fat, heads[p], chains[p]);
      if p == i {
        MovedChain(ft, fat, heads[i], ch, j, dst);
      } else {
        OtherFile(ft, fat, heads[p], chains[p], ch, j, dst);
      }
    }
  }

  /** A chain that shares no cluster with the moved one. */
  lemma OtherFile(ft: FatType, fat: seq<nat>, head: nat, other: seq<nat>, ch: seq<nat>, j: nat, dst: nat)
    requires IsFile(ft, fat, head, other) && j < |ch| && dst < |fat|
    requires forall q | 0 <= q < |ch| :: 0 <= ch[q] < |fat| && ch[q] != dst
    requires forall p, q | 0 <= p < q < |ch| :: ch[p] != ch[q]
    requires forall q | 0 <= q < |other| :: other[q] != dst
    requires forall p, q | 0 <= p < |ch| && 0 <= q < |other| :: ch[p] != other[q]
    ensures IsFile(ft, MovedFat(fat, ch, j, dst), head, other)
  {
    var fat' := MovedFat(fat, ch, j, dst);
    forall q | 0 <= q < |other| ensures 0 <= other[q] < |fat| && fat'[other[q]] == fat[other[q]] {
      assert ch[j] != other[q] && (j > 0 ==> ch[j - 1] != other[q]);
      MovedAt(fat, ch, j, dst, other[q]);
    }
    UntouchedFile(ft, fat, fat', head, other);
  }

  lemma MovedChain(ft: FatType, fat: seq<nat>, head: nat, ch: seq<nat>, j: nat, dst: nat)
    requires IsFile(ft, fat, head, ch) && j < |ch| && 2 <= dst < |fat|
    requires forall q | 0 <= q < |ch| :: ch[q] != dst
    requires forall p, q | 0 <= p < q < |ch| :: ch[p] != ch[q]
    ensures IsFile(ft, MovedFat(fat, ch, j, dst), if j == 0 then dst else head, ch[j := dst])
  {
    var fat', ch' := MovedFat(fat, ch, j, dst), ch[j := dst];
    forall q | 0 <= q < |ch'| - 1 ensures fat'[ch'[q]] == ch'[q + 1] {
      assert fat[ch[q]] == ch[q + 1];
    }
  }

  /** Moving a cluster frees the source and uses the destination. */
  lemma MoveKeepsFreeCount(fat: seq<nat>, ch: seq<nat>, j: nat, dst: nat)
    requires j < |ch| && 2 <= dst < |fat| && forall q | 0 <= q < |ch| :: 0 <= ch[q] < |fat| && fat[ch[q]] != 0
    requires fat[dst] == 0 && forall p, q | 0 <= p < q < |ch| :: ch[p] != ch[q]
    ensures |FreeClusters(MovedFat(fat, ch, j, dst))| == |FreeClusters(fat)|
  {
    var f, f' := FreeClusters(fat), FreeClusters(MovedFat(fat, ch, j, dst));
    forall c: nat ensures c in f' <==> c in f - {dst} + {ch[j]} {
      if c < |fat| { MovedAt(fat, ch, j, dst, c); }
    }
    assert f' == f - {dst} + {ch[j]};
  }

  lemma MoveKeepsNoOrphans(fat: seq<nat>, chains: seq<seq<nat>>, i: nat, j: nat, dst: nat)
    requires i < |chains| && j < |chains[i]| && 2 <= dst < |fat|
    requires forall q | 0 <= q < |chains[i]| :: 0 <= chains[i][q] < |fat| && fat[chains[i][q]] != 0
    requires fat[dst] == 0 && NoOrphans(fat, chains)
    ensures NoOrphans(MovedFat(fat, chains[i], j, dst), MovedChains(chains, i, j, dst))
  {
    var fat', chains' := MovedFat(fat, chains[i], j, dst), MovedChains(chains, i, j, dst);
    forall c | 2 <= c < |fat'| && fat'[c] != 0 ensures InChain(chains', c) {
      if c == dst {
        assert chains'[i][j] == c;
      } else {
        assert fat[c] != 0;
        var p, q :| 0 <= p < |chains| && 0 <= q < |chains[p]| && chains[p][q] == c;
        assert chains'[p][q] == c;
      }
    }
  }
}
