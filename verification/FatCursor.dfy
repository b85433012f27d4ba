/** Reading a FAT file through a handle that caches the cluster of its position. */
module FatCursor {
  import opened Arith
  import opened FatVolume

  datatype Whence = SeekSet | SeekCur | SeekEnd

  datatype Errno = EPERM | EISDIR | EINVAL

  datatype Result<+T> = Ok(value: T) | Err(errno: Errno)

  /** An open file: what the volume says about it, none of which reading changes. */
  datatype File<T> = File(ft: FatType, fat: seq<nat>, data: seq<seq<T>>, clusterSize: nat,
                          head: nat, size: nat, directory: bool)

  /** The chain reaches through the whole file. */
  ghost predicate ValidFile<T>(f: File<T>, ch: seq<nat>) {
    && f.clusterSize > 0 && TableSize(f.ft, |f.fat|) && IsFile(f.ft, f.fat, f.head, ch)
    && |f.data| == |f.fat| && (forall c | 0 <= c < |f.data| :: |f.data[c]| == f.clusterSize)
    && f.size <= |ch| * f.clusterSize
  }

  /** Position p lies in a cluster of the chain. */
  lemma PositionInChain<T>(f: File<T>, ch: seq<nat>, p: nat)
    requires ValidFile(f, ch) && p < f.size
    ensures p / f.clusterSize < |ch| && 2 <= ch[p / f.clusterSize] < |f.data|
  {
    QuotientBelow(p, f.clusterSize, |ch|);
  }

  lemma QuotientBelow(p: nat, d: nat, n: nat)
    requires d > 0 && p < n * d
    ensures p / d < n
  {
    var q := p / d;
    assert p == q * d + p % d;
    Distribute(n, q, d);
    PositiveFactor(n - q, d);
  }

  lemma PositiveFactor(a: int, d: int)
    requires d > 0 && a * d > 0
    ensures a > 0
  {
  }

  /** The p-th byte of the file. */
  ghost function ByteAt<T>(f: File<T>, ch: seq<nat>, p: nat): T
    requires ValidFile(f, ch) && p < f.size
  {
    PositionInChain(f, ch, p);
    f.data[ch[p / f.clusterSize]][p % f.clusterSize]
  }

  /** The file's bytes from p on, at most n of them. */
  ghost function Bytes<T>(f: File<T>, ch: seq<nat>, p: nat, n: nat): seq<T>
    requires ValidFile(f, ch) && p + n <= f.size
  {
    seq(n, i requires 0 <= i < n => ByteAt(f, ch, p + i))
  }

  function Min(a: int, b: int): int { if a < b then a else b }

  /** How many bytes a read at `pos` into a buffer of `room` bytes delivers. */
  function Delivered(size: nat, pos: nat, room: nat): nat {
    if pos >= size then 0 else Min(room, size - pos)
  }

  /** The cached cluster is the one of the position, as long as that is inside the file. */
  ghost predicate Cursor<T>(f: File<T>, ch: seq<nat>, pos: int, cluster: int)
    requires f.clusterSize > 0
  {
    0 <= pos && (pos < f.size ==> pos / f.clusterSize < |ch| && cluster == ch[pos / f.clusterSize])
  }

  /** Stepping over the rest of a cluster. */
  lemma ClusterEnd<T>(f: File<T>, ch: seq<nat>, pos: nat)
    requires ValidFile(f, ch) && pos < f.size
    ensures var cs := f.clusterSize; var next := pos + (cs - pos % cs);
            && next / cs == pos / cs + 1 && next % cs == 0
            && (next <= f.size && pos / cs == |ch| - 1 ==> next == f.size)
  {
    var cs := f.clusterSize;
    var q := pos / cs;
    assert pos == q * cs + pos % cs;
    assert (q + 1) * cs == q * cs + cs;
    DivModUnique(pos + (cs - pos % cs), cs, q + 1, 0);
  }

  /** The bytes of one cluster, from the position on. */
  lemma ClusterBytes<T>(f: File<T>, ch: seq<nat>, pos: nat, n: nat)
    requires ValidFile(f, ch) && pos + n <= f.size && pos < f.size && n <= f.clusterSize - pos % f.clusterSize
    ensures pos / f.clusterSize < |ch| && ch[pos / f.clusterSize] < |f.data|
    ensures var cs := f.clusterSize;
            Bytes(f, ch, pos, n) == f.data[ch[pos / cs]][pos % cs .. pos % cs + n]
  {
    var cs := f.clusterSize;
    PositionInChain(f, ch, pos);
    var q, o := pos / cs, pos % cs;
    var all, part := Bytes(f, ch, pos, n), f.data[ch[q]][o .. o + n];
    forall i | 0 <= i < n ensures all[i] == part[i] {
      SameCluster(pos, cs, i);
      assert all[i] == ByteAt(f, ch, pos + i);
    }
  }

  lemma SameCluster(pos: nat, cs: nat, i: nat)
    requires cs > 0 && i < cs - pos % cs
    ensures (pos + i) / cs == pos / cs && (pos + i) % cs == pos % cs + i
  {
    assert pos == pos / cs * cs + pos % cs;
    DivModUnique(pos + i, cs, pos / cs, pos % cs + i);
  }

  class Handle<T> {
    const f: File<T>
    ghost const ch: seq<nat>
    var pos: int
    var cluster: int

    ghost predicate Valid()
      reads this
    {
      ValidFile(f, ch) && Cursor(f, ch, pos, cluster)
    }

    constructor (file: File<T>, ghost chain: seq<nat>)
      requires ValidFile(file, chain)
      ensures Valid() && f == file && ch == chain && pos == 0
    {
      f, ch := file, chain;
      pos, cluster := 0, file.head;
    }

    /** The next cluster, when the position has just reached the end of the current one. */
    method NextCluster(ghost before: nat) returns (last: bool)
      requires ValidFile(f, ch) && before < f.size && Cursor(f, ch, before, cluster)
      requires pos == before + (f.clusterSize - before % f.clusterSize) <= f.size
      modifies this`cluster
      ensures Valid() && (last ==> pos == f.size)
      ensures !last ==> pos / f.clusterSize < |ch| && cluster == ch[pos / f.clusterSize]
    {
      ClusterEnd(f, ch, before);
      PositionInChain(f, ch, before);
      var v := f.fat[cluster];
      if EndOfChain(f.ft, v) {
        return true;
      }
      cluster := v;
      return false;
    }

    /** Reads into `buf`: exactly the file's bytes from the position, cut at the buffer or the end of file. */
    method Read(buf: array<T>, ownPosition: bool) returns (r: Result<nat>)
      requires Valid()
      modifies this`pos, this`cluster, buf
      ensures Valid()
      ensures !ownPosition ==> r == Err(EPERM)
      ensures ownPosition && f.directory ==> r == Err(EISDIR)
      ensures r.Err? ==> pos == old(pos) && buf[..] == old(buf[..])
      ensures ownPosition && !f.directory ==>
                var n := Delivered(f.size, old(pos), buf.Length);
                && r == Ok(n) && pos == old(pos) + n
                && (n > 0 ==> buf[..n] == Bytes(f, ch, old(pos), n)) && buf[n..] == old(buf[n..])
    {
      if !ownPosition {
        return Err(EPERM);
      }
      if f.directory {
        return Err(EISDIR);
      }
      if pos >= f.size {
        return Ok(0);
      }
      var n := Copy(buf);
      return Ok(n);
    }

    /** What has been copied so far, of a read that started at `p0`. */
    ghost predicate Copied(buf: seq<T>, buf0: seq<T>, p0: nat, written: nat)
      reads this
    {
      && ValidFile(f, ch) && |buf| == |buf0| && written <= |buf| && pos == p0 + written <= f.size
      && buf[..written] == Bytes(f, ch, p0, written) && buf[written..] == buf0[written..]
    }

    method Copy(buf: array<T>) returns (written: nat)
      requires Valid() && pos < f.size
      modifies this`pos, this`cluster, buf
      ensures Valid() && written == Delivered(f.size, old(pos), buf.Length) && pos == old(pos) + written
      ensures buf[..written] == Bytes(f, ch, old(pos), written) && buf[written..] == old(buf[written..])
    {
      written := 0;
      ghost var p0, buf0 := pos, buf[..];
      while true
        invariant Valid() && Copied(buf[..], buf0, p0, written)
        decreases f.size - pos
      {
        var more;
        written, more := CopyCluster(buf, written, p0, buf0);
        if !more {
          break;
        }
      }
    }

    /** One round: the part of the current cluster that is wanted, then the step to the next cluster. */
    method CopyCluster(buf: array<T>, written: nat, ghost p0: nat, ghost buf0: seq<T>) returns (now: nat, more: bool)
      requires Valid() && Copied(buf[..], buf0, p0, written)
      modifies this`pos, this`cluster, buf
      ensures Valid() && Copied(buf[..], buf0, p0, now)
      ensures if more then pos > old(pos) else now == buf.Length || pos == f.size
    {
      ghost var before := pos;
      var fileRem, bufRem := f.size - pos, buf.Length - written;
      var off := pos % f.clusterSize;
      var clusterRem := f.clusterSize - off;
      var toRead := Min(clusterRem, Min(bufRem, fileRem));
      if toRead > 0 {
        CopyPart(buf, written, off, toRead, p0, buf0);
      }
      now := written + toRead;
      if toRead < clusterRem {
        WithinCluster(f, ch, before, toRead);
        return now, false;
      }
      var last := NextCluster(before);
      more := !last;
    }

    /** Copies `n` bytes of the current cluster and moves the position past them. */
    method CopyPart(buf: array<T>, at: nat, off: nat, n: nat, ghost p0: nat, ghost buf0: seq<T>)
      requires Valid() && pos < f.size && at + n <= buf.Length && pos + n <= f.size
      requires off == pos % f.clusterSize && off + n <= f.clusterSize && Copied(buf[..], buf0, p0, at)
      modifies this`pos, buf
      ensures pos == old(pos) + n && Copied(buf[..], buf0, p0, at + n)
    {
      PositionInChain(f, ch, pos);
      ClusterBytes(f, ch, pos, n);
      BytesAppend(f, ch, p0, at, n);
      Memcpy(buf, at, f.data[cluster], off, n);
      pos := pos + n;
    }

    method Rewind()
      requires ValidFile(f, ch)
      modifies this`pos, this`cluster
      ensures Valid() && pos == 0
    {
      pos, cluster := 0, f.head;
    }

    /** Moves the position forward, following the chain, or past the end of the file. */
    method SeekForward(dist: nat) returns (r: int)
      requires Valid()
      modifies this`pos, this`cluster
      ensures Valid() && r == pos == old(pos) + dist
    {
      if dist == 0 {
        return pos;
      }
      if pos + dist > f.size {
        pos, cluster := pos + dist, -1;
        return pos;
      }
      var moved := 0;
      while true
        invariant Valid() && 0 <= moved <= dist && pos == old(pos) + moved <= f.size
        decreases f.size - pos
      {
        var off := pos % f.clusterSize;
        var clusterRem := f.clusterSize - off;
        var toMove := Min(clusterRem, Min(dist - moved, f.size - pos));
        ghost var before := pos;
        if toMove < clusterRem {
          WithinCluster(f, ch, pos, toMove);
          moved, pos := moved + toMove, pos + toMove;
          break;
        }
        moved, pos := moved + toMove, pos + toMove;
        var last := NextCluster(before);
        if last {
          break;
        }
      }
      return pos;
    }

    method Seek(off: int, whence: Whence) returns (r: Result<int>)
      requires Valid() && !f.directory
      modifies this`pos, this`cluster
      ensures Valid() && r == SeekResult(f.size, old(pos), off, whence)
      ensures pos == if r.Ok? then r.value else old(pos)
    {
      var o := off;
      match whence {
        case SeekSet =>
          if o < 0 {
            return Err(EINVAL);
          }
          Rewind();
        case SeekEnd =>
          if o < 0 {
            o := f.size + o;
            if o < 0 {
              return Err(EINVAL);
            }
            Rewind();
          }
        case SeekCur =>
          if o < 0 {
            o := pos + o;
            if o < 0 {
              return Err(EINVAL);
            }
            Rewind();
          }
      }
      var p := SeekForward(o);
      return Ok(p);
    }
  }

  /** Where a seek goes. Note the last case: a non-negative offset from the end counts from the position. */
  function SeekResult(size: nat, pos: nat, off: int, whence: Whence): Result<int> {
    match whence
    case SeekSet => if off < 0 then Err(EINVAL) else Ok(off)
    case SeekCur => if pos + off < 0 then Err(EINVAL) else Ok(pos + off)
    case SeekEnd => if off >= 0 then Ok(pos + off) else if size + off < 0 then Err(EINVAL) else Ok(size + off)
  }

  /** POSIX: the offset is relative to the start, the position or the end. */
  function PosixSeek(size: nat, pos: nat, off: int, whence: Whence): Result<int> {
    var base := match whence case SeekSet => 0 case SeekCur => pos case SeekEnd => size;
    if base + off < 0 then Err(EINVAL) else Ok(base + off)
  }

  /** Seeking is as POSIX says except from the end with a non-negative offset, unless already at the end. */
  lemma SeekIsPosix(size: nat, pos: nat, off: int, whence: Whence)
    ensures SeekResult(size, pos, off, whence) == PosixSeek(size, pos, off, whence) <==>
            !(whence == SeekEnd && off >= 0 && pos != size)
    ensures whence == SeekEnd && off >= 0 ==> SeekResult(size, pos, off, whence) == PosixSeek(size, pos, off, SeekCur)
  {
  }

  /** For instance seeking to the end of a 10-byte file from its start leaves the position at 0. */
  lemma SeekEndCounterexample()
    ensures SeekResult(10, 0, 0, SeekEnd) == Ok(0) && PosixSeek(10, 0, 0, SeekEnd) == Ok(10)
  {
  }

  // ---------------------------------------------------------- whole runs

  datatype Request = ReadReq(room: nat) | SeekReq(off: int, whence: Whence)

  datatype Reply<T> = Data(bytes: seq<T>) | Position(r: Result<int>)

  /** The simple reader keeps nothing but the position. */
  ghost function SimpleReply<T>(f: File<T>, ch: seq<nat>, pos: nat, q: Request): Reply<T>
    requires ValidFile(f, ch)
  {
    match q
    case ReadReq(room) =>
      var n := Delivered(f.size, pos, room);
      Data(if n == 0 then [] else Bytes(f, ch, pos, n))
    case SeekReq(off, whence) => Position(SeekResult(f.size, pos, off, whence))
  }

  ghost function SimpleMove(size: nat, pos: nat, q: Request): nat {
    match q
    case ReadReq(room) => pos + Delivered(size, pos, room)
    case SeekReq(off, whence) => var r := SeekResult(size, pos, off, whence); if r.Ok? then r.value else pos
  }

  ghost function SimpleRun<T>(f: File<T>, ch: seq<nat>, pos: nat, qs: seq<Request>): seq<Reply<T>>
    requires ValidFile(f, ch)
    decreases |qs|
  {
    if qs == [] then [] else [SimpleReply(f, ch, pos, qs[0])] + SimpleRun(f, ch, SimpleMove(f.size, pos, qs[0]), qs[1..])
  }

  /** Any sequence of reads and seeks on the caching handle answers like the simple reader. */
  method Run<T(0)>(h: Handle<T>, qs: seq<Request>) returns (replies: seq<Reply<T>>)
    requires h.Valid() && !h.f.directory
    modifies h
    ensures h.Valid() && replies == SimpleRun(h.f, h.ch, old(h.pos), qs)
    decreases |qs|
  {
    if qs == [] {
      return [];
    }
    var first;
    match qs[0] {
      case ReadReq(room) =>
        var buf := new T[room];
        var r := h.Read(buf, true);
        first := Data(buf[..r.value]);
      case SeekReq(off, whence) =>
        var r := h.Seek(off, whence);
        first := Position(r);
    }
    var rest := Run(h, qs[1..]);
    replies := [first] + rest;
  }

  method Memcpy<T>(dst: array<T>, at: nat, src: seq<T>, off: nat, n: nat)
    requires at + n <= dst.Length && off + n <= |src|
    modifies dst
    ensures dst[..] == old(dst[..at]) + src[off..off + n] + old(dst[at + n..])
  {
    for i := 0 to n
      invariant dst[..] == old(dst[..at]) + src[off..off + i] + old(dst[at + i..])
    {
      dst[at + i] := src[off + i];
    }
  }

  /** Inside a cluster, or at the end of the file, the cached cluster stays right. */
  lemma WithinCluster<T>(f: File<T>, ch: seq<nat>, pos: nat, n: nat)
    requires ValidFile(f, ch) && n < f.clusterSize - pos % f.clusterSize
    ensures (pos + n) / f.clusterSize == pos / f.clusterSize
  {
    var cs := f.clusterSize;
    DivModUnique(pos + n, cs, pos / cs, pos % cs + n);
  }

  lemma BytesAppend<T>(f: File<T>, ch: seq<nat>, p: nat, m: nat, n: nat)
    requires ValidFile(f, ch) && p + m + n <= f.size
    ensures Bytes(f, ch, p, m + n) == Bytes(f, ch, p, m) + Bytes(f, ch, p + m, n)
  {
  }
}
