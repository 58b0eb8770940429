/** Reading files: the streaming cursor and the whole-file read, over one cluster chain. */
module FatStream {
  import opened Words
  import opened Volume
  import opened Fat32

  /** A sector boundary. */
  predicate Aligned(g: Geometry, off: nat)
  {
    OffsetOf(g, off) == 0
  }

  lemma SectorIndex(g: Geo, off: nat)
    requires off < g.clusBytes
    ensures SectorOf(g, off) < g.secPerClus
    ensures off == Span(g, SectorOf(g, off)) + OffsetOf(g, off) && OffsetOf(g, off) < g.bytesPerSec
    ensures off + (g.bytesPerSec - OffsetOf(g, off)) <= g.clusBytes
    ensures Aligned(g, off + (g.bytesPerSec - OffsetOf(g, off)))
  {
  }

  /** How many of `want` bytes one pass copies from byte `off` of a cluster: whole sectors, or part of one. */
  function PassTake(g: Geo, off: nat, want: nat): (take: int)
  {
    if OffsetOf(g, off) == 0 && want >= g.bytesPerSec
    then Span(g, Min(SectorOf(g, want), g.secPerClus - SectorOf(g, off)))
    else Min(want, g.bytesPerSec - OffsetOf(g, off))
  }

  /**
   * How far a read of `want` bytes, `first` of them in its first pass and `room` of them
   * to the end of its cluster, has moved the cursor when it fails: still on the chain, by
   * no pass or at least the first one; lost, to the end of that cluster or a later one.
   */
  predicate Stopped(lost: bool, first: int, room: int, want: int, moved: int)
  {
    if lost then 0 < moved && room <= moved <= want else 0 < want && (moved == 0 || first <= moved < want) && 0 <= moved
  }

  /** The bulk path stops at the cluster's end or with less than a sector wanted. */
  lemma WholeSectors(g: Geo, sec: nat, want: nat, whole: nat)
    requires sec < g.secPerClus && g.bytesPerSec <= want
    requires whole == Min(SectorOf(g, want), g.secPerClus - sec)
    ensures 0 < whole && 0 < Span(g, whole) <= want
    ensures Span(g, sec) + Span(g, whole) == Span(g, sec + whole) <= g.clusBytes
    ensures Aligned(g, Span(g, sec) + Span(g, whole))
    ensures Span(g, sec) + Span(g, whole) == g.clusBytes || want - Span(g, whole) < g.bytesPerSec
  {
  }

  /** A pass copies something, within what is wanted and within the cluster. */
  lemma PassFits(g: Geo, off: nat, want: nat)
    requires off < g.clusBytes && 0 < want
    ensures 0 < PassTake(g, off, want) <= want && off + PassTake(g, off, want) <= g.clusBytes
  {
    SectorIndex(g, off);
    if OffsetOf(g, off) == 0 && want >= g.bytesPerSec {
      WholeSectors(g, SectorOf(g, off), want, Min(SectorOf(g, want), g.secPerClus - SectorOf(g, off)));
    }
  }

  lemma NthSuccValid(image: seq<Byte>, g: Geo, c: U32, k: nat)
    requires OnDisk(image, g) && AllValid(image, g, c, k) && ClusterValid(g, Nth(image, g, c, k))
    ensures AllValid(image, g, c, k + 1)
  {
  }

  /** `got` is what the chain holds from byte `from` on, within its first `m` clusters. */
  predicate Delivered(got: seq<Byte>, image: seq<Byte>, g: Geo, c: U32, m: nat, from: nat)
    requires OnDisk(image, g)
  {
    && AllValid(image, g, c, m)
    && from + |got| <= |ChainBytes(image, g, c, m)|
    && got == ChainBytes(image, g, c, m)[from..from + |got|]
  }

  /** Bytes delivered so far, followed by bytes of the current cluster, are again bytes of the chain. */
  lemma Deliver(got: seq<Byte>, got': seq<Byte>, image: seq<Byte>, g: Geo, c: U32, m: nat, k: nat, off: nat, take: nat, from: nat)
    requires OnDisk(image, g) && AllValid(image, g, c, k + 1) && m <= k + 1 && off + take <= g.clusBytes
    requires Delivered(got, image, g, c, m, from)
    requires from + |got| == |ChainBytes(image, g, c, k)| + off
    requires got' == got + ClusterBytes(image, g, Nth(image, g, c, k))[off..off + take]
    ensures Delivered(got', image, g, c, k + 1, from)
  {
    hide ChainBytes, ClusterBytes;
    ChainBytesPrefix(image, g, c, m, k + 1);
    ChainGrows(image, g, c, k);
    DeliverBytes(got, ChainBytes(image, g, c, m), ChainBytes(image, g, c, k),
                 ClusterBytes(image, g, Nth(image, g, c, k)), off, take, from);
  }

  lemma DeliverBytes(got: seq<Byte>, s: seq<Byte>, p: seq<Byte>, q: seq<Byte>, off: nat, take: nat, from: nat)
    requires s <= p + q && from + |got| <= |s| && got == s[from..from + |got|]
    requires from + |got| == |p| + off && off + take <= |q|
    ensures got + q[off..off + take] == (p + q)[from..from + |got| + take]
  {
    var whole, at := p + q, |p| + off;
    assert got == whole[from..at];
    assert whole[at..at + take] == q[off..off + take];
    assert whole[from..at] + whole[at..at + take] == whole[from..at + take];
  }

  /** The chain never visits cluster `d`. */
  ghost predicate Avoids(image: seq<Byte>, g: Geo, c: U32, d: nat)
    requires OnDisk(image, g)
  {
    d >= 2 ==> forall k: nat :: Nth(image, g, c, k) != d
  }

  /** Cluster `clus` is step `index` of the chain, `base` bytes in, and `off` is a place to stand in it. */
  ghost predicate OnChain(image: seq<Byte>, g: Geo, first: U32, size: nat, index: nat, base: nat,
                          clus: U32, off: nat, remaining: nat)
    requires OnDisk(image, g)
  {
    && AllValid(image, g, first, index) && base == |ChainBytes(image, g, first, index)|
    && (size == 0 ==> clus == 0 && index == 0 && off == 0)
    && (size > 0 ==> clus == Nth(image, g, first, index))
    && (remaining > 0 ==> off < g.clusBytes)
    && (remaining == 0 ==> off <= g.clusBytes && (size > 0 ==> off > 0))
    && (off > 0 ==> ClusterValid(g, clus))
  }

  /** Moving within a cluster keeps the cursor on the chain. */
  lemma OnChainWithin(image: seq<Byte>, g: Geo, first: U32, size: nat, index: nat, base: nat,
                      clus: U32, off: nat, remaining: nat, take: nat)
    requires OnDisk(image, g) && OnChain(image, g, first, size, index, base, clus, off, remaining)
    requires ClusterValid(g, clus) && 0 < take <= remaining <= size && off + take <= g.clusBytes
    requires off + take < g.clusBytes || remaining == take
    ensures OnChain(image, g, first, size, index, base, clus, off + take, remaining - take)
  {
  }

  /** So does moving across its end. */
  lemma OnChainAcross(image: seq<Byte>, g: Geo, first: U32, size: nat, index: nat, base: nat,
                      clus: U32, off: nat, remaining: nat, take: nat)
    requires OnDisk(image, g) && OnChain(image, g, first, size, index, base, clus, off, remaining)
    requires ClusterValid(g, clus) && 0 < take < remaining <= size && off + take == g.clusBytes
    ensures OnChain(image, g, first, size, index + 1, base + g.clusBytes, NextCluster(image, g, clus), 0, remaining - take)
  {
    NthSuccValid(image, g, first, index);
    ChainGrows(image, g, first, index);
  }

  /** A read that has not begun has delivered nothing, from where the cursor stands. */
  lemma NothingYet(image: seq<Byte>, g: Geo, first: U32, size: nat, index: nat, base: nat,
                   clus: U32, off: nat, remaining: nat, m: nat)
    requires OnDisk(image, g) && OnChain(image, g, first, size, index, base, clus, off, remaining)
    requires m == if off > 0 then index + 1 else index
    ensures Delivered([], image, g, first, m, base + off)
  {
    if off > 0 {
      NthSuccValid(image, g, first, index);
      ChainGrows(image, g, first, index);
    }
  }

  class Stream {
    const fs: FatVolume
    var clus: U32
    var clusOff: nat
    var remaining: nat
    ghost const first: U32
    ghost const size: nat
    /** How many whole clusters of the chain lie behind the cursor, and how many bytes they hold. */
    ghost var index: nat
    ghost var base: nat

    ghost function Pos(): int
      reads this
    {
      base + clusOff
    }

    /** How many bytes of the file lie behind the cursor, lost or not. */
    ghost function Behind(): int
      reads this
    {
      size - remaining
    }

    /** How much the first pass of a read of `len` bytes copies. */
    ghost function FirstPass(len: nat): int
      reads this
    {
      PassTake(fs.g, clusOff, Min(len, remaining))
    }

    /** A link of the FAT could not be read: the cursor left its cluster and has no other, though bytes remain. */
    ghost predicate Lost()
      reads this
    {
      clus == 0 && clusOff == 0 && 0 < remaining <= size < TWO32 && Behind() == base + fs.g.clusBytes
    }

    /** The cluster it left was step `index` of the chain. */
    ghost predicate Crossed()
      reads this, fs.dev
      requires OnDisk(fs.dev.image, fs.g)
    {
      && AllValid(fs.dev.image, fs.g, first, index + 1)
      && base + fs.g.clusBytes == |ChainBytes(fs.dev.image, fs.g, first, index + 1)|
    }

    /** How many bytes there are from the cursor to the end of its cluster. */
    ghost function Room(): int
      reads this
    {
      fs.g.clusBytes - clusOff
    }

    /** The cursor sits at byte Pos() of the file, in the one form it takes there. */
    ghost predicate At(image: seq<Byte>)
      reads this
      requires OnDisk(image, fs.g)
    {
      && remaining <= size < TWO32 && size - remaining == Pos()
      && OnChain(image, fs.g, first, size, index, base, clus, clusOff, remaining)
    }

    ghost predicate Ready()
      reads this, fs, fs.dev
    {
      fs.Valid() && At(fs.dev.image) && Avoids(fs.dev.image, fs.g, first, fs.dirty)
    }

    constructor Open(f: FatVolume, firstClus: U32, fileSize: U32)
      requires f.Valid()
      ensures fs == f && first == firstClus && size == fileSize
      ensures At(f.dev.image) && index == 0 && Pos() == 0 && remaining == fileSize
    {
      fs := f;
      clus := if fileSize == 0 then 0 else firstClus;
      clusOff := 0;
      remaining := fileSize;
      first, size, index, base := firstClus, fileSize, 0, 0;
    }

    /** Start over. */
    method Reopen(firstClus: U32, fileSize: U32)
      requires fs.Valid() && firstClus == first && fileSize == size
      modifies this
      ensures At(fs.dev.image) && Pos() == 0 && remaining == fileSize
    {
      clus := if fileSize == 0 then 0 else firstClus;
      clusOff := 0;
      remaining := fileSize;
      index, base := 0, 0;
    }

    /** Go on from a copy of the cursor taken earlier. */
    method Restore(c: U32, off: nat, left: nat, ghost step: nat, ghost behind: nat)
      requires fs.Valid() && left <= size < TWO32 && size - left == behind + off
      requires OnChain(fs.dev.image, fs.g, first, size, step, behind, c, off, left)
      modifies this
      ensures At(fs.dev.image) && Pos() == behind + off && remaining == left
    {
      clus, clusOff, remaining := c, off, left;
      index, base := step, behind;
    }

    /** The bulk path: whole sectors up to the request or the cluster's end. */
    method ReadWhole(buf: array<Byte>, total: nat, want: nat, sec: nat) returns (ok: bool, take: nat)
      requires OnDisk(fs.dev.image, fs.g) && ClusterValid(fs.g, clus) && sec < fs.g.secPerClus
      requires clusOff == Span(fs.g, sec)
      requires fs.g.bytesPerSec <= want && total + want <= buf.Length
      modifies buf
      ensures buf[..total] == old(buf[..total]) && (fs.dev.reliable ==> ok)
      ensures 0 < take <= want && clusOff + take <= fs.g.clusBytes
      ensures take == Span(fs.g, Min(SectorOf(fs.g, want), fs.g.secPerClus - sec))
      ensures ok ==> buf[total..total + take] == ClusterBytes(fs.dev.image, fs.g, clus)[clusOff..clusOff + take]
      ensures Aligned(fs.g, clusOff + take)
      ensures clusOff + take == fs.g.clusBytes || want - take < fs.g.bytesPerSec
    {
      var whole := Min(SectorOf(fs.g, want), fs.g.secPerClus - sec);
      take := Span(fs.g, whole);
      WholeSectors(fs.g, sec, want, whole);
      ok := fs.ReadRun(clus, sec, whole, buf, total);
    }

    /**
     * One pass of the read loop: copy part of the current cluster. Stops short of
     * `want` only at a sector boundary, and from there only at the cluster's end or
     * when less than a sector is still wanted.
     */
    method ReadChunk(buf: array<Byte>, total: nat, want: nat) returns (ok: bool, take: nat)
      requires fs.Valid() && ClusterValid(fs.g, clus) && clusOff < fs.g.clusBytes && clus != fs.dirty
      requires 0 < want && total + want <= buf.Length
      modifies fs, buf
      ensures fs.Valid() && fs.dirty == old(fs.dirty)
      ensures buf[..total] == old(buf[..total]) && (fs.dev.reliable ==> ok)
      ensures 0 < take <= want && clusOff + take <= fs.g.clusBytes && take == PassTake(fs.g, clusOff, want)
      ensures ok ==> buf[total..total + take] == ClusterBytes(fs.dev.image, fs.g, clus)[clusOff..clusOff + take]
      ensures take < want ==> Aligned(fs.g, clusOff + take)
      ensures take < want && Aligned(fs.g, clusOff) ==>
        fs.g.bytesPerSec <= want && (clusOff + take == fs.g.clusBytes || want - take < fs.g.bytesPerSec)
    {
      hide ClusterBytes, Span, SectorOf, OffsetOf;
      var sec := SectorOf(fs.g, clusOff);
      var off := OffsetOf(fs.g, clusOff);
      SectorIndex(fs.g, clusOff);
      if off == 0 && want >= fs.g.bytesPerSec {
        ok, take := ReadWhole(buf, total, want, sec);
      } else {
        take := Min(want, fs.g.bytesPerSec - off);
        ok := fs.ReadPart(clus, sec, off, take, buf, total);
      }
    }

    /** Move the cursor past `take` bytes of the current cluster, stepping to the next one at its end. */
    method Advance(take: nat) returns (ok: bool)
      requires fs.Valid() && At(fs.dev.image) && ClusterValid(fs.g, clus)
      requires 0 < take <= remaining && clusOff + take <= fs.g.clusBytes
      modifies this, fs
      ensures fs.Valid() && fs.dirty == old(fs.dirty)
      ensures fs.dev.reliable ==> ok
      ensures remaining == old(remaining) - take && (!ok ==> Lost() && Crossed()) && base >= old(base)
      ensures ok ==> At(fs.dev.image) && Pos() == old(Pos()) + take
      ensures index == old(index) || index == old(index) + 1
      ensures ok && index == old(index) ==> clusOff == old(clusOff) + take && clus == old(clus)
      ensures ok && index != old(index) ==> clusOff == 0 && Aligned(fs.g, clusOff)
      ensures ok && old(clusOff) + take == fs.g.clusBytes && remaining > 0 ==> index != old(index)
    {
      if clusOff + take == fs.g.clusBytes && remaining > take {
        OnChainAcross(fs.dev.image, fs.g, first, size, index, base, clus, clusOff, remaining, take);
      } else {
        OnChainWithin(fs.dev.image, fs.g, first, size, index, base, clus, clusOff, remaining, take);
      }
      clusOff := clusOff + take;
      remaining := remaining - take;
      ok := true;
      if clusOff == fs.g.clusBytes && remaining > 0 {
        ok := Cross();
      }
    }

    /** Step from a cluster's end to the start of the next one. */
    method Cross() returns (ok: bool)
      requires fs.Valid() && remaining <= size < TWO32 && size - remaining == base + fs.g.clusBytes && remaining > 0
      requires OnChain(fs.dev.image, fs.g, first, size, index + 1, base + fs.g.clusBytes,
                       NextCluster(fs.dev.image, fs.g, clus), 0, remaining)
      modifies `clus, `clusOff, `index, `base, fs
      ensures fs.Valid() && fs.dirty == old(fs.dirty) && (fs.dev.reliable ==> ok)
      ensures ok ==> At(fs.dev.image) && index == old(index) + 1 && base == old(base) + fs.g.clusBytes
      ensures ok ==> clusOff == 0 && Aligned(fs.g, clusOff)
      ensures !ok ==> index == old(index) && base == old(base) && Lost() && Crossed()
    {
      clus := fs.Next(clus);
      clusOff := 0;
      ok := clus != 0;
      if ok {
        index, base := index + 1, base + fs.g.clusBytes;
      }
    }

    /** The passes still allowed within this cluster with `want` bytes wanted. */
    ghost function Spare(want: int): int
      reads this
    {
      Extra(Aligned(fs.g, clusOff), want, fs.g.bytesPerSec)
    }

    /**
     * The read loop's state: `got` are the `total` bytes delivered since the cursor was
     * at byte `p0` and cluster step `k0`, and `guard` has paid for every pass so far.
     */
    ghost predicate Midway(image: seq<Byte>, got: seq<Byte>, total: nat, len: nat,
                           m: nat, p0: nat, k0: nat, guard: int)
      reads this, fs, fs.dev
    {
      && Ready() && fs.dev.image == image
      && |got| == total <= len && Pos() == p0 + total
      && m <= index + 1 && Delivered(got, image, fs.g, first, m, p0)
      && 0 <= guard && k0 <= index
      && fs.g.maxClus - guard <= index - k0 + Spare(Min(len - total, remaining))
    }

    /** Bytes of the current cluster, from the cursor on, are what comes next. */
    lemma Delivers(got: seq<Byte>, part: seq<Byte>, m: nat, p0: nat)
      requires Ready() && ClusterValid(fs.g, clus) && clusOff + |part| <= fs.g.clusBytes
      requires Delivered(got, fs.dev.image, fs.g, first, m, p0) && m <= index + 1 && Pos() == p0 + |got|
      requires part == ClusterBytes(fs.dev.image, fs.g, clus)[clusOff..clusOff + |part|]
      ensures Delivered(got + part, fs.dev.image, fs.g, first, index + 1, p0)
    {
      NthSuccValid(fs.dev.image, fs.g, first, index);
      Deliver(got, got + part, fs.dev.image, fs.g, first, m, index, clusOff, |part|, p0);
    }

    /** A chunk of the current cluster appended to what was delivered before it. */
    method Fetch(buf: array<Byte>, total: nat, want: nat,
                 ghost image: seq<Byte>, ghost got: seq<Byte>, ghost m: nat, ghost p0: nat)
      returns (ok: bool, take: nat, ghost got': seq<Byte>)
      requires Ready() && fs.dev.image == image && ClusterValid(fs.g, clus) && clusOff < fs.g.clusBytes
      requires 0 < want && total + want <= buf.Length && got == buf[..total]
      requires Delivered(got, image, fs.g, first, m, p0) && m <= index + 1 && Pos() == p0 + total
      modifies fs, buf
      ensures fs.Valid() && fs.dirty == old(fs.dirty)
      ensures 0 < take <= want && clusOff + take <= fs.g.clusBytes && take == PassTake(fs.g, clusOff, want)
      ensures got' == buf[..total + take] && (fs.dev.reliable ==> ok)
      ensures ok ==> Delivered(got', image, fs.g, first, index + 1, p0)
      ensures take < want ==> Aligned(fs.g, clusOff + take)
      ensures take < want && Aligned(fs.g, clusOff) ==>
        fs.g.bytesPerSec <= want && (clusOff + take == fs.g.clusBytes || want - take < fs.g.bytesPerSec)
    {
      hide PassTake, Aligned, Delivered;
      ok, take := ReadChunk(buf, total, want);
      got' := buf[..total + take];
      if ok {
        assert got' == got + buf[total..total + take];
        Delivers(got, buf[total..total + take], m, p0);
      }
    }

    /** A chunk delivered and the cursor moved past it. */
    method Move(buf: array<Byte>, total: nat, want: nat,
                ghost image: seq<Byte>, ghost got: seq<Byte>, ghost m: nat, ghost p0: nat)
      returns (ok: bool, take: nat, ghost got': seq<Byte>)
      requires Ready() && fs.dev.image == image && ClusterValid(fs.g, clus) && clusOff < fs.g.clusBytes
      requires 0 < want <= remaining && total + want <= buf.Length && got == buf[..total]
      requires Delivered(got, image, fs.g, first, m, p0) && m <= index + 1 && Pos() == p0 + total
      modifies this, fs, buf
      ensures fs.Valid() && fs.dirty == old(fs.dirty) && (fs.dev.reliable ==> ok)
      ensures 0 < take <= want && got' == buf[..total + take] && take == PassTake(fs.g, old(clusOff), want)
      ensures ok ==> Ready() && Pos() == p0 + total + take && remaining == old(remaining) - take
      ensures !ok ==> (Ready() && remaining == old(remaining) && clus == old(clus))
                      || (Lost() && Crossed() && remaining == old(remaining) - take)
      ensures base >= old(base)
      ensures ok ==> Delivered(got', image, fs.g, first, old(index) + 1, p0)
      ensures index == old(index) || index == old(index) + 1
      ensures ok ==> old(Spare(want)) + 1 <= Spare(want - take) + index - old(index)
    {
      hide Delivered;
      ghost var k, aligned := index, Aligned(fs.g, clusOff);
      ok, take, got' := Fetch(buf, total, want, image, got, m, p0);
      if ok {
        ok := Advance(take);
        if ok {
          ExtraStep(aligned, want, take, index == k + 1, Aligned(fs.g, clusOff), fs.g.bytesPerSec);
        }
      }
    }

    /** One whole pass of the loop: a chunk delivered and the cursor moved past it. */
    method Pass(buf: array<Byte>, total: nat, len: nat, ghost image: seq<Byte>, ghost got: seq<Byte>,
                ghost m: nat, ghost p0: nat, ghost k0: nat, ghost guard: int)
      returns (ok: bool, total': nat, ghost got': seq<Byte>, ghost m': nat)
      requires total < len <= buf.Length && 0 < remaining && guard > 0 && ClusterValid(fs.g, clus)
      requires Midway(image, got, total, len, m, p0, k0, guard) && got == buf[..total]
      modifies this, fs, buf
      ensures fs.Valid() && fs.dirty == old(fs.dirty) && total < total' && (fs.dev.reliable ==> ok)
      ensures ok ==> Midway(image, got', total', len, m', p0, k0, guard - 1)
      ensures ok ==> total' <= len && got' == buf[..total']
      ensures ok ==> total' - total == old(FirstPass(len - total))
      ensures !ok ==> (Ready() && remaining == old(remaining) && clus == old(clus))
                      || (Lost() && Crossed() && 0 < old(remaining) - remaining <= Min(len - total, old(remaining)))
      ensures base >= old(base)
    {
      hide Delivered;
      m' := index + 1;
      var want := Min(len - total, remaining);
      var take;
      ok, take, got' := Move(buf, total, want, image, got, m, p0);
      total' := total + take;
      assert ok ==> Min(len - total', remaining) == want - take;
    }

    /**
     * Read up to `len` bytes. On success the buffer holds the chain's bytes from the
     * old position on, and a short count means the file or its chain has ended. The
     * cyclic-chain guard fires only after more links than the volume has clusters. A
     * failed read takes nothing back of what its passes did to the cursor. A lost cursor
     * reads nothing.
     */
    method Read(buf: array<Byte>, len: U32) returns (rc: int, ghost m: nat)
      requires fs.Valid() && (Ready() || Lost()) && len <= buf.Length && Min(len, remaining) < 0x8000_0000
      modifies this, fs, buf
      ensures fs.Valid() && fs.dirty == old(fs.dirty) && (rc >= 0 || rc == EREAD || rc == ECORRUPT)
      ensures fs.dev.reliable ==> rc != EREAD
      ensures old(Lost()) ==> rc == 0 && unchanged(this)
      ensures Ready() || (Lost() && (!old(Lost()) ==> Crossed()))
      ensures rc == EREAD ==> Stopped(Lost(), old(FirstPass(len)), old(Room()), Min(len, old(remaining)), Behind() - old(Behind()))
      ensures rc == EREAD && !Lost() ==> remaining > 0 && ClusterValid(fs.g, clus)
      ensures rc >= 0 && !old(Lost()) ==>
        && Ready() && rc <= len && Pos() == old(Pos()) + rc && old(Pos()) >= 0
        && (rc == len || remaining == 0 || !ClusterValid(fs.g, clus))
        && Delivered(buf[..rc], fs.dev.image, fs.g, first, m, old(Pos()))
      ensures rc == ECORRUPT ==> AllValid(fs.dev.image, fs.g, first, fs.g.maxClus - 1)
    {
      m := if clusOff > 0 then index + 1 else index;
      if !Lost() {
        NothingYet(fs.dev.image, fs.g, first, size, index, base, clus, clusOff, remaining, m);
      }
      rc, m := ReadLoop(buf, len, fs.dev.image, m, Pos(), index);
    }

    /** The read loop, from its first pass on. */
    method ReadLoop(buf: array<Byte>, len: U32, ghost image: seq<Byte>, ghost m0: nat, ghost p0: nat, ghost k0: nat)
      returns (rc: int, ghost m: nat)
      requires len <= buf.Length && fs.Valid()
      requires Lost() || Midway(image, [], 0, len, m0, p0, k0, fs.g.maxClus)
      modifies this, fs, buf
      ensures fs.Valid() && fs.dirty == old(fs.dirty) && (rc >= 0 || rc == EREAD || rc == ECORRUPT)
      ensures fs.dev.reliable ==> rc != EREAD
      ensures old(Lost()) ==> rc == 0 && unchanged(this)
      ensures Ready() || (Lost() && (!old(Lost()) ==> Crossed()))
      ensures rc == EREAD ==> Stopped(Lost(), old(FirstPass(len)), old(Room()), Min(len, old(remaining)), Behind() - old(Behind()))
      ensures rc == EREAD && !Lost() ==> remaining > 0 && ClusterValid(fs.g, clus)
      ensures rc >= 0 && !old(Lost()) ==>
        && Ready() && rc <= len && Pos() == p0 + rc
        && (rc == len || remaining == 0 || !ClusterValid(fs.g, clus))
        && Delivered(buf[..rc], image, fs.g, first, m, p0)
      ensures rc == ECORRUPT ==> AllValid(image, fs.g, first, fs.g.maxClus - 1)
    {
      hide FirstPass, Delivered;
      var total := 0;
      var guard: int := fs.g.maxClus;
      m := m0;
      ghost var got: seq<Byte> := [];
      ghost var lost, pass, left, base0 := Lost(), FirstPass(len), remaining, base;
      while total < len && remaining > 0 && ClusterValid(fs.g, clus)
        invariant if lost then total == 0 && unchanged(this) else Midway(image, got, total, len, m, p0, k0, guard)
        invariant fs.Valid() && got == buf[..total] && fs.dirty == old(fs.dirty)
        invariant remaining == left - total && base >= base0
        invariant if total == 0 then FirstPass(len) == pass else total >= pass
        decreases len - total
      {
        if guard == 0 {
          NthSuccValid(image, fs.g, first, index);
          return ECORRUPT, m;
        }
        assert total == 0 ==> FirstPass(len - total) == pass;
        var ok;
        ok, total, got, m := Pass(buf, total, len, image, got, m, p0, k0, guard);
        if !ok {
          return EREAD, m;
        }
        guard := guard - 1;
      }
      rc := total;
    }

    /**
     * Move up to `n` bytes on without reading data. It stops short only when the file
     * or its chain has ended, the FAT could not be read, or the guard fired. A FAT that
     * could not be read leaves the cursor lost, and a lost cursor does not move.
     */
    method Skip(n: U32) returns (done: nat, ghost ok: bool)
      requires fs.Valid() && (Ready() || Lost())
      modifies this, fs
      ensures fs.Valid() && fs.dirty == old(fs.dirty) && done <= n && Behind() == old(Behind()) + done
      ensures old(Lost()) ==> done == 0 && !ok && unchanged(this)
      ensures done > 0 ==> old(remaining > 0 && ClusterValid(fs.g, clus))
      ensures !ok ==> Lost() && (old(Lost()) || (Crossed() && done > 0 && !fs.dev.reliable))
      ensures ok ==> Ready() && Pos() == old(Pos()) + done
      ensures ok ==> done == n || remaining == 0 || !ClusterValid(fs.g, clus)
                     || AllValid(fs.dev.image, fs.g, first, fs.g.maxClus)
    {
      var guard: int := fs.g.maxClus;
      done, ok := 0, !Lost();
      ghost var image, k0, p0, it, left := fs.dev.image, index, Pos(), 0, remaining;
      while done < n && remaining > 0 && ClusterValid(fs.g, clus)
        invariant fs.Valid() && fs.dirty == old(fs.dirty) && fs.dev.image == image
        invariant done <= n && remaining == left - done
        invariant done > 0 ==> left > 0 && ClusterValid(fs.g, old(clus))
        invariant done == 0 ==> clus == old(clus)
        invariant if ok then Ready() && Pos() == p0 + done else Lost() && done == 0 && old(Lost()) && unchanged(this)
        invariant ok ==> !old(Lost())
        invariant guard + it == fs.g.maxClus && guard >= 0 && k0 <= index
        invariant it <= index - k0 || done == n || remaining == 0
        decreases n - done
      {
        NthSuccValid(image, fs.g, first, index);
        if guard == 0 {
          break;
        }
        guard := guard - 1;
        var take := Min(Min(n - done, fs.g.clusBytes - clusOff), remaining);
        var stepped := Advance(take);
        done, it := done + take, it + 1;
        if !stepped {
          ok := false;
          break;
        }
      }
    }
  }

  /** The last, partial cluster of a whole-file read, sector by sector. */
  method ReadTail(fs: FatVolume, clus: U32, buf: array<Byte>, total: nat, maxlen: nat) returns (ok: bool)
    requires fs.Valid() && ClusterValid(fs.g, clus) && clus != fs.dirty
    requires total < maxlen <= buf.Length && maxlen - total < fs.g.clusBytes
    modifies fs, buf
    ensures fs.Valid() && fs.dirty == old(fs.dirty) && buf[..total] == old(buf[..total]) && (fs.dev.reliable ==> ok)
    ensures ok ==> buf[total..maxlen] == ClusterBytes(fs.dev.image, fs.g, clus)[..maxlen - total]
  {
    var s, at := 0, total;
    ghost var bytes := ClusterBytes(fs.dev.image, fs.g, clus);
    while s < fs.g.secPerClus && at < maxlen
      invariant fs.Valid() && fs.dirty == old(fs.dirty) && bytes == ClusterBytes(fs.dev.image, fs.g, clus)
      invariant total <= at <= maxlen && s <= fs.g.secPerClus
      invariant at == maxlen || at - total == Span(fs.g, s)
      invariant buf[..total] == old(buf[..total]) && buf[total..at] == bytes[..at - total]
    {
      var take := Min(maxlen - at, fs.g.bytesPerSec);
      ok := fs.ReadPart(clus, s, 0, take, buf, at);
      if !ok {
        return;
      }
      TailStep(buf[..at + take], bytes, total, at, take);
      s, at := s + 1, at + take;
    }
    ok := true;
  }

  lemma TailStep(b: seq<Byte>, bytes: seq<Byte>, total: nat, at: nat, take: nat)
    requires total <= at && |b| == at + take && at - total + take <= |bytes|
    requires b[..at][total..] == bytes[..at - total]
    requires b[at..] == bytes[at - total..at - total + take]
    ensures b[total..] == bytes[..at - total + take]
  {
    assert b[total..] == b[..at][total..] + b[at..];
  }

  /** Read a whole file, cluster by cluster; stops short only where its chain ends. */
  method ReadFile(fs: FatVolume, first: U32, buf: array<Byte>, maxlen: U32) returns (rc: int, ghost m: nat)
    requires fs.Valid() && Avoids(fs.dev.image, fs.g, first, fs.dirty)
    requires maxlen <= buf.Length && maxlen < 0x8000_0000
    modifies fs, buf
    ensures fs.Valid() && fs.dirty == old(fs.dirty) && (rc >= 0 || rc == EREAD || rc == ECORRUPT)
    ensures fs.dev.reliable ==> rc != EREAD
    ensures !ClusterValid(fs.g, first) ==> rc == ECORRUPT
    ensures rc >= 0 ==>
      && rc <= maxlen && Delivered(buf[..rc], fs.dev.image, fs.g, first, m, 0)
      && (rc == maxlen || (!ClusterValid(fs.g, Nth(fs.dev.image, fs.g, first, m))
                           && rc == |ChainBytes(fs.dev.image, fs.g, first, m)|))
    ensures rc == ECORRUPT ==> !ClusterValid(fs.g, first) || AllValid(fs.dev.image, fs.g, first, fs.g.maxClus)
  {
    m := 0;
    if !ClusterValid(fs.g, first) {
      return ECORRUPT, m;
    }
    rc, m := FileLoop(fs, first, buf, maxlen, fs.dev.image);
  }

  /** The whole-file read is at the start of cluster `clus`, step `m` of the chain, with the clusters before it delivered. */
  ghost predicate Halfway(image: seq<Byte>, g: Geo, first: U32, clus: U32, got: seq<Byte>, total: nat, m: nat, guard: int)
    requires OnDisk(image, g)
  {
    && clus == Nth(image, g, first, m) && Delivered(got, image, g, first, m, 0)
    && total == |got| == |ChainBytes(image, g, first, m)| && guard + m == g.maxClus && guard >= 0
  }

  /** The loop over the clusters. */
  method FileLoop(fs: FatVolume, first: U32, buf: array<Byte>, maxlen: U32, ghost image: seq<Byte>) returns (rc: int, ghost m: nat)
    requires fs.Valid() && fs.dev.image == image && Avoids(image, fs.g, first, fs.dirty)
    requires maxlen <= buf.Length && maxlen < 0x8000_0000
    modifies fs, buf
    ensures fs.Valid() && fs.dirty == old(fs.dirty) && (rc >= 0 || rc == EREAD || rc == ECORRUPT)
    ensures fs.dev.reliable ==> rc != EREAD
    ensures rc >= 0 ==>
      && rc <= maxlen && Delivered(buf[..rc], image, fs.g, first, m, 0)
      && (rc == maxlen || (!ClusterValid(fs.g, Nth(image, fs.g, first, m)) && rc == |ChainBytes(image, fs.g, first, m)|))
    ensures rc == ECORRUPT ==> AllValid(image, fs.g, first, fs.g.maxClus)
  {
    var clus, total := first, 0;
    var guard: int := fs.g.maxClus;
    m := 0;
    ghost var got: seq<Byte> := [];
    while ClusterValid(fs.g, clus) && total < maxlen
      invariant fs.Valid() && fs.dirty == old(fs.dirty) && fs.dev.image == image && total <= maxlen
      invariant got == buf[..total] && Halfway(image, fs.g, first, clus, got, total, m, guard)
      decreases maxlen - total
    {
      if guard == 0 {
        NthSuccValid(image, fs.g, first, m);
        return ECORRUPT, m;
      }
      guard := guard - 1;
      var ok;
      ok, clus, total, got := FilePass(fs, first, clus, buf, total, maxlen, image, got, m, guard);
      if !ok {
        return EREAD, m;
      }
      m := m + 1;
      if total >= maxlen {
        return total, m;
      }
    }
    rc := total;
  }

  /** One pass: a cluster read, and the next one looked up when more is wanted. */
  method FilePass(fs: FatVolume, first: U32, clus: U32, buf: array<Byte>, total: nat, maxlen: U32,
                  ghost image: seq<Byte>, ghost got: seq<Byte>, ghost m: nat, ghost guard: int)
    returns (ok: bool, clus': U32, total': nat, ghost got': seq<Byte>)
    requires fs.Valid() && fs.dev.image == image && ClusterValid(fs.g, clus) && clus != fs.dirty
    requires total < maxlen <= buf.Length && got == buf[..total] && guard >= 0
    requires Halfway(image, fs.g, first, clus, got, total, m, guard + 1)
    modifies fs, buf
    ensures fs.Valid() && fs.dirty == old(fs.dirty) && (fs.dev.reliable ==> ok) && total < total' <= maxlen
    ensures ok ==> got' == buf[..total'] && Delivered(got', image, fs.g, first, m + 1, 0)
    ensures ok && total' < maxlen ==> Halfway(image, fs.g, first, clus', got', total', m + 1, guard)
  {
    var take := Min(maxlen - total, fs.g.clusBytes);
    clus', total' := clus, total + take;
    ok, got' := FetchCluster(fs, clus, buf, total, take, first, got, m);
    if ok && total' < maxlen {
      clus' := fs.Next(clus);
      ok := clus' != 0;
    }
  }

  /** The head of one more cluster appended to the clusters read before it. */
  method FetchCluster(fs: FatVolume, clus: U32, buf: array<Byte>, total: nat, take: nat,
                      ghost first: U32, ghost got: seq<Byte>, ghost m: nat)
    returns (ok: bool, ghost got': seq<Byte>)
    requires fs.Valid() && ClusterValid(fs.g, clus) && clus != fs.dirty && clus == Nth(fs.dev.image, fs.g, first, m)
    requires 0 < take <= fs.g.clusBytes && total + take <= buf.Length && got == buf[..total]
    requires Delivered(got, fs.dev.image, fs.g, first, m, 0) && total == |ChainBytes(fs.dev.image, fs.g, first, m)|
    modifies fs, buf
    ensures fs.Valid() && fs.dirty == old(fs.dirty) && got' == buf[..total + take] && (fs.dev.reliable ==> ok)
    ensures ok ==> Delivered(got', fs.dev.image, fs.g, first, m + 1, 0)
    ensures AllValid(fs.dev.image, fs.g, first, m + 1)
    ensures |ChainBytes(fs.dev.image, fs.g, first, m + 1)| == total + fs.g.clusBytes
  {
    NthSuccValid(fs.dev.image, fs.g, first, m);
    ok := ReadCluster(fs, clus, buf, total, take);
    got' := buf[..total + take];
    if ok {
      assert got' == got + buf[total..total + take];
      Deliver(got, got', fs.dev.image, fs.g, first, m, m, 0, take, 0);
    }
  }

  /** One cluster of a whole-file read: in one bulk read, or its head sector by sector. */
  method ReadCluster(fs: FatVolume, clus: U32, buf: array<Byte>, total: nat, take: nat) returns (ok: bool)
    requires fs.Valid() && ClusterValid(fs.g, clus) && clus != fs.dirty
    requires 0 < take <= fs.g.clusBytes && total + take <= buf.Length
    modifies fs, buf
    ensures fs.Valid() && fs.dirty == old(fs.dirty) && buf[..total] == old(buf[..total]) && (fs.dev.reliable ==> ok)
    ensures ok ==> buf[total..total + take] == ClusterBytes(fs.dev.image, fs.g, clus)[0..take]
  {
    if take == fs.g.clusBytes {
      ok := fs.ReadRun(clus, 0, fs.g.secPerClus, buf, total);
    } else {
      ok := ReadTail(fs, clus, buf, total, total + take);
    }
  }

  /**
   * How many passes more than clusters stepped over: one pass for each cluster, one
   * to reach a sector boundary, and one for a last partial sector.
   */
  function Extra(aligned: bool, want: int, bps: int): (e: int)
  {
    if want <= 0 then 3 else if !aligned then 0 else if want < bps then 2 else 1
  }

  lemma ExtraStep(aligned: bool, want: int, take: int, stepped: bool, aligned': bool, bps: int)
    requires 0 < take <= want
    requires take < want ==> aligned'
    requires take < want && aligned ==> bps <= want && (stepped || want - take < bps)
    ensures Extra(aligned, want, bps) + 1 <= Extra(aligned', want - take, bps) + (if stepped then 1 else 0)
  {
  }
}
