/** The bytes of a formatted volume, field by field, and that mounting and following the FAT read them as such. */
module DiskFormat {
  import opened Words
  import opened Arith
  import opened Volume

  // ---- the boot sector ----------------------------------------------------------------------

  /** What a FAT32 volume's boot sector says. */
  datatype Layout = Layout(bytesPerSec: nat, secPerClus: nat, reserved: U16, fats: Byte, fatSectors: U32, total: U32, root: U32)

  /** Each field stands where the BIOS parameter block of Microsoft's FAT32 File System Specification has it, low byte first. */
  predicate Describes(bs: seq<Byte>, l: Layout)
  {
    && |bs| == 512 && bs[510..512] == [0x55, 0xAA] && l.bytesPerSec < 0x1_0000
    && bs[11..13] == Le16(l.bytesPerSec) && bs[13] == l.secPerClus && bs[14..16] == Le16(l.reserved) && bs[16] == l.fats
    && bs[17..19] == Le16(0) && bs[22..24] == Le16(0)
    && (if l.total != 0 && bs[32..36] == Le32(0) then l.total < 0x1_0000 && bs[19..21] == Le16(l.total)
        else bs[32..36] == Le32(l.total) && (l.total == 0 ==> bs[19..21] == Le16(0)))
    && bs[36..40] == Le32(l.fatSectors) && bs[44..48] == Le32(l.root)
  }

  /** The first sector behind the reserved ones and all copies of the FAT. */
  function DataSector(l: Layout): nat
  {
    var copies: nat, each: nat := l.fats, l.fatSectors;
    l.reserved + copies * each
  }

  /**
   * Cluster `c` is one the volume has: the FAT has its entry, and its sectors lie within the
   * volume, unless the boot sector leaves no room for even one.
   */
  predicate Has(l: Layout, c: nat)
  {
    && 2 <= c < MAX_CLUS_CAP && 4 * c + 4 <= l.fatSectors * l.bytesPerSec
    && (DataSector(l) + l.secPerClus <= l.total ==> DataSector(l) + (c - 1) * l.secPerClus <= l.total)
  }

  /** The mount's own readings of the fields. */
  lemma FieldsRead(bs: seq<Byte>, l: Layout)
    requires Describes(bs, l)
    ensures bs[510] == 0x55 && bs[511] == 0xAA && Rd16(bs, 11) == l.bytesPerSec && bs[13] == l.secPerClus
    ensures Rd16(bs, 14) == l.reserved && bs[16] == l.fats && Rd16(bs, 17) == 0 && Rd16(bs, 22) == 0
    ensures Rd32(bs, 36) == l.fatSectors && Rd32(bs, 44) == l.root
    ensures (if Rd32(bs, 32) == 0 then Rd16(bs, 19) else Rd32(bs, 32)) == l.total
  {
    hide Rd16, Rd32, Le16, Le32;
    var sig := bs[510..512];
    assert bs[510] == sig[0] && bs[511] == sig[1];
    Le16RoundTrip(bs, 11, l.bytesPerSec);
    Le16RoundTrip(bs, 14, l.reserved);
    Le16RoundTrip(bs, 17, 0);
    Le16RoundTrip(bs, 22, 0);
    Le32RoundTrip(bs, 36, l.fatSectors);
    Le32RoundTrip(bs, 44, l.root);
    if l.total != 0 && bs[32..36] == Le32(0) {
      Le32RoundTrip(bs, 32, 0);
      Le16RoundTrip(bs, 19, l.total);
    } else {
      Le32RoundTrip(bs, 32, l.total);
      if l.total == 0 {
        Le16RoundTrip(bs, 19, 0);
      }
    }
  }

  predicate SectorSize(n: nat)
  {
    n == 512 || n == 1024 || n == 2048 || n == 4096
  }

  /** The ceiling shuts out exactly the clusters the volume does not have. */
  lemma CeilingIs(l: Layout, c: nat)
    requires SectorSize(l.bytesPerSec) && 1 <= l.secPerClus <= 255 && l.fatSectors > 0 && DataSector(l) < TWO32
    ensures 2 <= c < MaxClus(l.bytesPerSec / 4, l.fatSectors, TotalClusters(l.total, DataSector(l), l.secPerClus)) <==> Has(l, c)
  {
    var perSec, data := l.bytesPerSec / 4, DataSector(l);
    var total := TotalClusters(l.total, data, l.secPerClus);
    EntriesIs(perSec, l.fatSectors, c);
    if c >= 2 && data < l.total {
      QuotientAtLeast(l.total - data, l.secPerClus, c - 1);
      QuotientAtLeast(l.total - data, l.secPerClus, 1);
    }
    assert l.fatSectors * l.bytesPerSec == 4 * (l.fatSectors * perSec);
  }

  lemma EntriesIs(perSec: nat, fatSectors: nat, c: nat)
    requires perSec == 128 || perSec == 256 || perSec == 512 || perSec == 1024
    ensures c < fatSectors * perSec && c < MAX_CLUS_CAP
      <==> c < if fatSectors > MAX_CLUS_CAP / perSec then MAX_CLUS_CAP else Min(fatSectors * perSec, MAX_CLUS_CAP)
  {
  }

  /**
   * A boot sector mounts exactly when its sizes are legal and it has the root folder's
   * cluster, at an address that does not wrap; and then every cluster lies where the layout
   * puts it, behind the reserved sectors and every copy of the FAT.
   */
  lemma MountsExactly(bs: seq<Byte>, l: Layout, partLba: U32)
    requires Describes(bs, l) && DataSector(l) < TWO32
    ensures Mount(bs, partLba).Mounted? <==>
      && SectorSize(l.bytesPerSec) && l.secPerClus > 0 && l.fats > 0 && l.fatSectors > 0
      && Has(l, l.root) && DataSector(l) + (l.root - 2) * l.secPerClus < TWO32
    ensures Mount(bs, partLba).Mounted? ==>
      var g := Mount(bs, partLba).g;
      && g.partLba == partLba && g.bytesPerSec == l.bytesPerSec && g.secPerClus == l.secPerClus && g.rootClus == l.root
      && g.fatStart == l.reserved && g.dataStart == DataSector(l)
      && forall c: nat :: 2 <= c < g.maxClus <==> Has(l, c)
  {
    FieldsRead(bs, l);
    if SectorSize(l.bytesPerSec) && l.secPerClus > 0 && l.fats > 0 && l.fatSectors > 0 {
      var data := DataSector(l);
      assert DataStart(l.reserved, l.fats, l.fatSectors) == data;
      forall c: nat
        ensures 2 <= c < MaxClus(l.bytesPerSec / 4, l.fatSectors, TotalClusters(l.total, data, l.secPerClus)) <==> Has(l, c)
      {
        CeilingIs(l, c);
      }
      if l.root >= 2 {
        QuotientAtLeast(0xFFFF_FFFF - data, l.secPerClus, l.root - 2);
      }
    }
  }

  // ---- where things lie -----------------------------------------------------------------------

  /** Sectors counted in bytes and in 512-byte units, and bytes in sectors, are the products and quotients they stand for. */
  lemma UnitsExact(g: Geo, n: nat)
    ensures Span(g, n) == n * g.bytesPerSec && 512 * Lbas(g, n) == n * g.bytesPerSec
    ensures SectorOf(g, n) == n / g.bytesPerSec && OffsetOf(g, n) == n % g.bytesPerSec
  {
  }

  /** Cluster 2 begins the data region, and the clusters follow each other without a gap. */
  lemma ClustersTile(g: Geo, c: U32)
    ensures ClusterAt(g, 2) == 512 * g.partLba + g.dataStart * g.bytesPerSec
    ensures ClusterAt(g, c + 1) == ClusterAt(g, c) + g.secPerClus * g.bytesPerSec
  {
    assert (c + 1 - 2) * g.secPerClus == (c - 2) * g.secPerClus + g.secPerClus;
  }

  // ---- the FAT --------------------------------------------------------------------------------

  /** Byte address of word `c` of the first FAT. */
  function WordAt(g: Geo, c: nat): int
  {
    512 * g.partLba + g.fatStart * g.bytesPerSec + 4 * c
  }

  lemma WordOnDisk(image: seq<Byte>, g: Geo, c: U32)
    requires OnDisk(image, g) && ClusterValid(g, c) && FatSector(g, c) < g.dataStart
    ensures 0 <= WordAt(g, c) && WordAt(g, c) + 4 <= |image|
    ensures WordAt(g, c) == SectorAt(g, FatSector(g, c)) + OffsetOf(g, 4 * c) && FatSector(g, c) < SectorLimit(g)
  {
    hide OnDisk;
    ClusterInside(g, c);
    SectorInside(image, g, FatSector(g, c));
    EntryInSector(g, c);
    InWord(g, 4 * c);
  }

  /** A byte's sector and its offset there are where it is. */
  lemma InWord(g: Geo, x: nat)
    ensures SectorAt(g, g.fatStart + SectorOf(g, x)) + OffsetOf(g, x) == 512 * g.partLba + g.fatStart * g.bytesPerSec + x
    ensures SectorOf(g, x) >= 0 && OffsetOf(g, x) >= 0
  {
  }

  /** The FAT is one array of words on the disk: the link of a cluster is the low 28 bits of the word that has its number. */
  lemma FatIsFlat(image: seq<Byte>, g: Geo, c: U32)
    requires OnDisk(image, g) && ClusterValid(g, c) && FatSector(g, c) < g.dataStart
    ensures 0 <= WordAt(g, c) && WordAt(g, c) + 4 <= |image|
    ensures var n: U32 := Rd32(image, WordAt(g, c)) % 0x1000_0000;
      NextCluster(image, g, c) == if ClusterValid(g, n) then n else FAT_EOC
  {
    WordOnDisk(image, g, c);
    var s, off := FatSector(g, c), OffsetOf(g, 4 * c);
    EntryInSector(g, c);
    SliceOfSlice(image, SectorAt(g, s), SectorAt(g, s) + g.bytesPerSec, off, 4);
    SameWord(SectorBytes(image, g, s), off, image, WordAt(g, c));
  }

  /** The FAT's word for cluster `c` is written as `v`; its top four bits may be anything. */
  predicate Written(image: seq<Byte>, g: Geo, c: U32, v: nat)
  {
    && 0 <= WordAt(g, c) && WordAt(g, c) + 4 <= |image| && FatSector(g, c) < g.dataStart && v < 0x1000_0000
    && exists top: nat :: top < 16 && image[WordAt(g, c)..WordAt(g, c) + 4] == Le32(v + 0x1000_0000 * top)
  }

  /** The FAT links these clusters, one to the next, and the last to an end mark. */
  predicate Linked(image: seq<Byte>, g: Geo, chain: seq<U32>)
  {
    && (forall i :: 0 <= i < |chain| ==> ClusterValid(g, chain[i]))
    && (forall i :: 0 <= i < |chain| - 1 ==> Written(image, g, chain[i], chain[i + 1]))
    && (chain != [] ==> Ends(image, g, chain[|chain| - 1]))
  }

  /** The FAT's word for cluster `c` is an end mark. */
  predicate Ends(image: seq<Byte>, g: Geo, c: U32)
  {
    exists mark: U32 :: 0x0FFF_FFF8 <= mark && Written(image, g, c, mark)
  }

  lemma WrittenLink(image: seq<Byte>, g: Geo, c: U32, v: nat)
    requires OnDisk(image, g) && ClusterValid(g, c) && Written(image, g, c, v)
    ensures NextCluster(image, g, c) == if ClusterValid(g, v) then v else FAT_EOC
  {
    var top: nat :| top < 16 && image[WordAt(g, c)..WordAt(g, c) + 4] == Le32(v + 0x1000_0000 * top);
    Le32RoundTrip(image, WordAt(g, c), v + 0x1000_0000 * top);
    FatIsFlat(image, g, c);
    ModuloOf(v + 0x1000_0000 * top, 0x1000_0000, top, v);
  }

  /** A chain written into the FAT link by link is the chain that is followed, and it ends there. */
  lemma WrittenChain(image: seq<Byte>, g: Geo, chain: seq<U32>)
    requires OnDisk(image, g) && chain != [] && Linked(image, g, chain)
    ensures forall i :: 0 <= i < |chain| ==> Nth(image, g, chain[0], i) == chain[i]
    ensures ChainOf(image, g, chain[0], |chain|)
  {
    WrittenSteps(image, g, chain, |chain| - 1);
    var last := chain[|chain| - 1];
    var mark: U32 :| 0x0FFF_FFF8 <= mark && Written(image, g, last, mark);
    WrittenLink(image, g, last, mark);
    assert Nth(image, g, chain[0], |chain|) == NextCluster(image, g, last);
  }

  lemma {:induction false} WrittenSteps(image: seq<Byte>, g: Geo, chain: seq<U32>, n: nat)
    requires OnDisk(image, g) && n < |chain| && Linked(image, g, chain)
    ensures forall i :: 0 <= i <= n ==> Nth(image, g, chain[0], i) == chain[i]
    decreases n
  {
    if n > 0 {
      WrittenSteps(image, g, chain, n - 1);
      assert Written(image, g, chain[n - 1], chain[n - 1 + 1]);
      WrittenLink(image, g, chain[n - 1], chain[n]);
    }
  }
}
