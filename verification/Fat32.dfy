/**
 * The FAT32 reader: two one-sector caches over a block device, whole-file reads,
 * and a forward-only streaming cursor.
 */
module Fat32 {
  import opened Words
  import opened Arith
  import opened Memory
  import opened Volume

  const ECORRUPT: int := -3
  /** A sector could not be read: from the directory walk, and from the two file reads. */
  const EIO: int := -2
  const EREAD: int := -1

  /**
   * The disk. Unless it is reliable any read or write may fail; a read that succeeds
   * returns the disk's bytes.
   */
  class BlockDevice {
    var image: seq<Byte>
    const reliable: bool

    constructor (contents: seq<Byte>, sound: bool)
      ensures image == contents && reliable == sound
    {
      image, reliable := contents, sound;
    }

    method Read(lba: U32, count: nat) returns (ok: bool, data: seq<Byte>)
      ensures ok ==> 512 * (lba + count) <= |image| && data == image[512 * lba..512 * (lba + count)]
      ensures reliable && 512 * (lba + count) <= |image| ==> ok
    {
      var fault: bool := *;
      if (fault && !reliable) || 512 * (lba + count) > |image| {
        return false, [];
      }
      return true, image[512 * lba..512 * (lba + count)];
    }

    /**
     * Whole physical sectors at an aligned address, then a cache flush. A write that
     * is not acknowledged may leave anything in the sectors it was aimed at.
     */
    method Write(lba: U32, data: seq<Byte>) returns (rc: int)
      modifies this
      ensures |data| == 0 || lba % 2 != 0 || |data| % 1024 != 0 || 512 * lba + |data| > |old(image)| ==> rc == -1 && image == old(image)
      ensures rc == 0 ==> lba % 2 == 0 && |data| % 1024 == 0 && 512 * lba + |data| <= |image|
                          && image[512 * lba..512 * lba + |data|] == data
      ensures image == old(image) || (512 * lba + |data| <= |old(image)|
                                      && SameOutside(old(image), image, 512 * lba, 512 * lba + |data|))
      ensures reliable && |data| > 0 && lba % 2 == 0 && |data| % 1024 == 0 && 512 * lba + |data| <= |image| ==> rc == 0
    {
      if |data| == 0 || lba % 2 != 0 || |data| % 1024 != 0 || 512 * lba + |data| > |image| {
        return -1;
      }
      var fault: bool := *;
      fault := fault && !reliable;
      var left: seq<Byte> := *;
      var stored := if fault && |left| == |data| then left else data;
      image := image[..512 * lba] + stored + image[512 * lba + |data|..];
      rc := if fault then -2 else 0;
    }
  }

  /** The images agree everywhere but in bytes `lo` to `hi`. */
  predicate SameOutside(a: seq<Byte>, b: seq<Byte>, lo: nat, hi: nat)
  {
    |a| == |b| && lo <= hi <= |a| && a[..lo] == b[..lo] && a[hi..] == b[hi..]
  }

  /** Sector `s` lies in cluster `c`. */
  predicate InCluster(g: Geometry, c: nat, s: int)
  {
    2 <= c && g.dataStart + (c - 2) * g.secPerClus <= s < g.dataStart + (c - 2) * g.secPerClus + g.secPerClus
  }

  lemma ClustersDisjoint(g: Geo, c: nat, d: nat, s: int)
    requires c != d && InCluster(g, c, s)
    ensures !InCluster(g, d, s)
  {
    if 2 <= d {
      if c < d {
        MulStep(g.secPerClus, c - 2, d - 2);
      } else {
        MulStep(g.secPerClus, d - 2, c - 2);
      }
    }
  }

  lemma RunAddress(g: Geo, c: U32, k: nat)
    requires Fits(g) && ClusterValid(g, c) && k < g.secPerClus
    ensures ClusterSector(g, c) + k < SectorLimit(g) && ClusterSector(g, c) + k < TWO32
    ensures InCluster(g, c, ClusterSector(g, c) + k)
    ensures 512 * SectorLba(g, ClusterSector(g, c) + k) == ClusterAt(g, c) + Span(g, k)
    ensures SectorAt(g, ClusterSector(g, c) + k) == ClusterAt(g, c) + Span(g, k)
  {
    ClusterSectorExact(g, c);
    ClusterInside(g, c);
    var s := ClusterSector(g, c) + k;
    SectorLbaExact(g, s);
  }

  /** `n` sectors of a cluster, from its sector `k`, are a slice of the cluster's bytes. */
  lemma RunOfCluster(image: seq<Byte>, g: Geo, c: U32, k: nat, n: nat)
    requires OnDisk(image, g) && ClusterValid(g, c) && k + n <= g.secPerClus && n > 0
    ensures ClusterSector(g, c) + k < SectorLimit(g) && ClusterSector(g, c) + k < TWO32
    ensures 0 <= Span(g, k) <= Span(g, k + n) <= g.clusBytes
    ensures var lba := SectorLba(g, ClusterSector(g, c) + k);
      && 512 * (lba + Lbas(g, n)) <= |image|
      && image[512 * lba..512 * (lba + Lbas(g, n))]
         == ClusterBytes(image, g, c)[Span(g, k)..Span(g, k + n)]
  {
    RunAddress(g, c, k);
    ClusterOnDisk(image, g, c);
    SliceOfSlice(image, ClusterAt(g, c), ClusterAt(g, c) + g.clusBytes, Span(g, k), Span(g, n));
  }

  /** The same, for one sector read on its own. */
  lemma SectorOfCluster(image: seq<Byte>, g: Geo, c: U32, k: nat)
    requires OnDisk(image, g) && ClusterValid(g, c) && k < g.secPerClus
    ensures ClusterSector(g, c) + k < SectorLimit(g) && ClusterSector(g, c) + k < TWO32
    ensures 0 <= Span(g, k) && Span(g, k) + g.bytesPerSec <= g.clusBytes
    ensures SectorBytes(image, g, ClusterSector(g, c) + k)
            == ClusterBytes(image, g, c)[Span(g, k)..Span(g, k) + g.bytesPerSec]
  {
    RunAddress(g, c, k);
    ClusterOnDisk(image, g, c);
    SliceOfSlice(image, ClusterAt(g, c), ClusterAt(g, c) + g.clusBytes, Span(g, k), g.bytesPerSec);
  }

  class FatVolume {
    const dev: BlockDevice
    const g: Geo
    var fatCache: seq<Byte>
    var fatSec: int
    var fatValid: bool
    var datCache: seq<Byte>
    var datSec: int
    var datValid: bool
    /** A cluster rewritten behind the data cache since mounting; 0 when there is none. */
    ghost var dirty: nat

    ghost predicate Valid()
      reads this, dev
    {
      && OnDisk(dev.image, g)
      && (fatValid ==> 0 <= fatSec < g.dataStart && FatSectorInside(g, fatSec)
                       && fatCache == SectorBytes(dev.image, g, fatSec))
      && (datValid ==> 0 <= datSec < SectorLimit(g)
                       && (InCluster(g, dirty, datSec) || datCache == SectorBytes(dev.image, g, datSec)))
    }

    constructor (d: BlockDevice, geometry: Geo)
      requires OnDisk(d.image, geometry)
      ensures Valid() && dev == d && g == geometry && dirty == 0
    {
      dev, g := d, geometry;
      fatCache, fatSec, fatValid := [], 0, false;
      datCache, datSec, datValid := [], 0, false;
      dirty := 0;
    }

    /** One FS sector, straight from the device. */
    method ReadFsSector(s: U32) returns (ok: bool, data: seq<Byte>)
      requires OnDisk(dev.image, g) && s < SectorLimit(g)
      ensures ok ==> data == SectorBytes(dev.image, g, s)
      ensures dev.reliable ==> ok
    {
      SectorLbaExact(g, s);
      ok, data := dev.Read(SectorLba(g, s), g.secRatio);
      SectorInside(dev.image, g, s);
    }

    /** One FS sector of file data, through the data cache. */
    method ReadDataSector(s: U32) returns (ok: bool, data: seq<Byte>)
      requires Valid() && s < SectorLimit(g) && !InCluster(g, dirty, s)
      modifies this
      ensures Valid() && dirty == old(dirty)
      ensures ok ==> data == SectorBytes(dev.image, g, s)
      ensures dev.reliable ==> ok
    {
      if !(datValid && datSec == s) {
        ok, data := ReadFsSector(s);
        if !ok {
          datValid := false;
          return;
        }
        datCache, datSec, datValid := data, s, true;
      }
      ok, data := true, datCache;
    }

    /** `n` whole sectors of cluster `c` from its sector `k`, in one bulk read into `buf`. */
    method ReadRun(c: U32, k: nat, n: nat, buf: array<Byte>, at: nat) returns (ok: bool)
      requires OnDisk(dev.image, g) && ClusterValid(g, c) && k + n <= g.secPerClus && n > 0
      requires at + Span(g, n) <= buf.Length
      modifies buf
      ensures buf[..at] == old(buf[..at]) && (dev.reliable ==> ok)
      ensures 0 <= Span(g, k) && Span(g, k) + Span(g, n) <= g.clusBytes
      ensures ok ==> buf[at..at + Span(g, n)]
                     == ClusterBytes(dev.image, g, c)[Span(g, k)..Span(g, k) + Span(g, n)]
    {
      RunOfCluster(dev.image, g, c, k, n);
      var data;
      ok, data := dev.Read(SectorLba(g, ClusterSector(g, c) + k), Lbas(g, n));
      if ok {
        assert data == ClusterBytes(dev.image, g, c)[Span(g, k)..Span(g, k) + Span(g, n)];
        assert |data| == Span(g, n);
        Copy(buf, at, data);
      }
    }

    /** `take` bytes of cluster `c` within its sector `k`, out of the data cache into `buf`. */
    method ReadPart(c: U32, k: nat, off: nat, take: nat, buf: array<Byte>, at: nat) returns (ok: bool)
      requires Valid() && ClusterValid(g, c) && k < g.secPerClus && c != dirty
      requires off + take <= g.bytesPerSec && at + take <= buf.Length
      modifies this, buf
      ensures Valid() && dirty == old(dirty) && buf[..at] == old(buf[..at]) && (dev.reliable ==> ok)
      ensures 0 <= Span(g, k) && Span(g, k) + g.bytesPerSec <= g.clusBytes
      ensures ok ==> buf[at..at + take]
                     == ClusterBytes(dev.image, g, c)[Span(g, k) + off..Span(g, k) + off + take]
    {
      SectorOfCluster(dev.image, g, c, k);
      RunAddress(g, c, k);
      ClustersDisjoint(g, c, dirty, ClusterSector(g, c) + k);
      var data;
      ok, data := ReadDataSector(ClusterSector(g, c) + k);
      if ok {
        SliceOfSlice(ClusterBytes(dev.image, g, c), Span(g, k), Span(g, k) + g.bytesPerSec, off, take);
        Copy(buf, at, data[off..off + take]);
      }
    }

    /** The next cluster, through the FAT cache; 0 only when the FAT could not be read. */
    method Next(c: U32) returns (n: U32)
      requires Valid()
      modifies this
      ensures Valid() && dirty == old(dirty)
      ensures n == 0 || n == NextCluster(dev.image, g, c)
      ensures dev.reliable ==> n != 0
    {
      if !ClusterValid(g, c) {
        return FAT_EOC;
      }
      EntryInSector(g, c);
      ClusterInside(g, c);
      var s := FatSector(g, c);
      if s >= g.dataStart {
        return FAT_EOC;
      }
      if !(fatValid && fatSec == s) {
        var ok, data := ReadFsSector(s);
        if !ok {
          fatValid := false;
          return 0;
        }
        fatCache, fatSec, fatValid := data, s, true;
      }
      n := LinkIn(fatCache, g, c);
    }
  }

  predicate FatSectorInside(g: Geometry, s: int)
  {
    s < SectorLimit(g)
  }
}
