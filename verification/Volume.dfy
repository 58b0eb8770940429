/**
 * FAT32 geometry and the meaning of an on-disk volume: which bytes of the disk
 * a cluster, a FAT entry and a file's cluster chain denote. No caches here.
 */
module Volume {
  import opened Words
  import opened Arith

  const FAT_EOC: U32 := 0x0FFF_FFF8
  const MAX_CLUS_CAP: U32 := 0x0FFF_FFF0

  datatype Geometry = Geometry(
    partLba: U32,      // partition start, in 512-byte sectors
    bytesPerSec: nat,  // bytes per FS sector
    secRatio: nat,     // 512-byte sectors per FS sector
    secPerClus: nat,   // FS sectors per cluster
    rootClus: U32,
    fatStart: nat,     // FS sector of the FAT, from the partition start
    dataStart: U32,    // FS sector of the data region
    clusBytes: nat,
    totalClus: U32,    // 0 when the boot sector does not say
    maxClus: U32)      // exclusive ceiling on cluster numbers

  datatype MountResult = Mounted(g: Geometry) | Refused(rc: int)

  /** The geometry a boot sector describes, or the code mounting it fails with. */
  function Mount(bs: seq<Byte>, partLba: U32): (r: MountResult)
    requires |bs| == 512
  {
    var byts: int := Rd16(bs, 11);
    if bs[510] != 0x55 || bs[511] != 0xAA then Refused(-2)
    else if byts != 512 && byts != 1024 && byts != 2048 && byts != 4096 then Refused(-3)
    else if Rd16(bs, 22) != 0 || Rd16(bs, 17) != 0 then Refused(-5)
    else if bs[13] == 0 || Rd32(bs, 36) == 0 || bs[16] == 0 || Rd32(bs, 44) < 2 then Refused(-4)
    else
      var dataStart := DataStart(Rd16(bs, 14), bs[16], Rd32(bs, 36));
      var total := TotalClusters(if Rd32(bs, 32) == 0 then Rd16(bs, 19) else Rd32(bs, 32), dataStart, bs[13]);
      var g := Geometry(partLba, byts, byts / 512, bs[13], Rd32(bs, 44), Rd16(bs, 14), dataStart,
                        bs[13] * byts, total, MaxClus(byts / 4, Rd32(bs, 36), total));
      if ClusterValid(g, g.rootClus) then Mounted(g) else Refused(-4)
  }

  /** Reserved sectors plus the FATs, in 32 bits. */
  function DataStart(rsvd: U16, fats: Byte, fatsz: U32): (r: U32)
  {
    var f: int, n: int := fats, fatsz;
    Wrap32(rsvd + f * n)
  }

  function TotalClusters(totsec: U32, dataStart: U32, spc: Byte): (r: U32)
    requires spc > 0
  {
    if totsec > dataStart then (totsec - dataStart) / spc else 0
  }

  /** The tighter of what the FAT can address and what the volume's size allows. */
  function MaxClus(perSec: nat, fatsz: U32, total: U32): (r: U32)
    requires 128 <= perSec <= 1024
    ensures r <= MAX_CLUS_CAP
  {
    var cap := if fatsz > MAX_CLUS_CAP / perSec then MAX_CLUS_CAP else Min(fatsz * perSec, MAX_CLUS_CAP);
    if total != 0 && total < MAX_CLUS_CAP - 2 && total + 2 < cap then total + 2 else cap
  }

  /** `n` FS sectors, in bytes: `n * bytesPerSec`, by cases on the sector size. */
  function Span(g: Geometry, n: int): int
  {
    match g.secRatio
    case 1 => 512 * n
    case 2 => 1024 * n
    case 4 => 2048 * n
    case _ => 4096 * n
  }

  /** `n` FS sectors, in 512-byte sectors: `n * secRatio`. */
  function Lbas(g: Geometry, n: int): int
  {
    match g.secRatio
    case 1 => n
    case 2 => 2 * n
    case 4 => 4 * n
    case _ => 8 * n
  }

  /** Which FS sector byte `x` falls in: `x / bytesPerSec`. */
  function SectorOf(g: Geometry, x: nat): nat
  {
    match g.secRatio
    case 1 => x / 512
    case 2 => x / 1024
    case 4 => x / 2048
    case _ => x / 4096
  }

  /** How far into its FS sector byte `x` is: `x % bytesPerSec`. */
  function OffsetOf(g: Geometry, x: nat): nat
  {
    match g.secRatio
    case 1 => x % 512
    case 2 => x % 1024
    case 4 => x % 2048
    case _ => x % 4096
  }

  predicate WellFormed(g: Geometry)
  {
    && (g.secRatio == 1 || g.secRatio == 2 || g.secRatio == 4 || g.secRatio == 8)
    && g.bytesPerSec == 512 * g.secRatio
    && 1 <= g.secPerClus <= 255
    && g.clusBytes == Span(g, g.secPerClus)
    && g.fatStart < 0x1_0000
    && 2 < g.maxClus <= MAX_CLUS_CAP
  }

  /** The geometry of a mounted volume. */
  type Geo = g: Geometry | WellFormed(g)
    witness Geometry(0, 512, 1, 1, 2, 32, 64, 512, 0, 128)

  lemma MountedIsWellFormed(bs: seq<Byte>, partLba: U32)
    requires |bs| == 512 && Mount(bs, partLba).Mounted?
    ensures WellFormed(Mount(bs, partLba).g)
  {
  }

  /** May this cluster number be turned into a sector address? */
  predicate ClusterValid(g: Geometry, c: U32)
    requires g.secPerClus > 0
  {
    2 <= c < g.maxClus && c - 2 <= (0xFFFF_FFFF - g.dataStart) / g.secPerClus
  }

  /** First FS sector of a cluster, as the 32-bit expression computes it. */
  function ClusterSector(g: Geometry, c: U32): (s: U32)
  {
    Wrap32(g.dataStart + (c - 2) * g.secPerClus)
  }

  lemma ClusterSectorExact(g: Geo, c: U32)
    requires ClusterValid(g, c)
    ensures ClusterSector(g, c) == g.dataStart + (c - 2) * g.secPerClus
  {
    DivBound(c - 2, 0xFFFF_FFFF - g.dataStart, g.secPerClus);
  }

  /** The 512-byte address of an FS sector, as the 32-bit expression computes it. */
  function SectorLba(g: Geometry, s: U32): (lba: U32)
  {
    Wrap32(g.partLba + Lbas(g, s))
  }

  /** One past the last FS sector a valid cluster can reach. */
  function SectorLimit(g: Geometry): int
  {
    g.dataStart + (g.maxClus - 2) * g.secPerClus
  }

  /** Every sector address of the volume fits 32 bits. */
  predicate Fits(g: Geo)
  {
    g.partLba + Lbas(g, SectorLimit(g)) <= TWO32
  }

  /** Byte address on the disk of FS sector `s`, without wrap-around. */
  function SectorAt(g: Geometry, s: int): int
  {
    512 * g.partLba + Span(g, s)
  }

  function ClusterAt(g: Geometry, c: int): int
  {
    SectorAt(g, g.dataStart + (c - 2) * g.secPerClus)
  }

  lemma ClusterInside(g: Geo, c: U32)
    requires 2 <= c < g.maxClus
    ensures g.dataStart <= g.dataStart + (c - 2) * g.secPerClus
    ensures g.dataStart + (c - 2) * g.secPerClus + g.secPerClus <= SectorLimit(g)
  {
    MulStep(g.secPerClus, c - 2, g.maxClus - 2);
    MulMonotone(g.secPerClus, 0, c - 2);
  }

  /** On a volume that fits, the 32-bit address of a sector is its true address. */
  lemma SectorLbaExact(g: Geo, s: U32)
    requires Fits(g) && s < SectorLimit(g)
    ensures SectorLba(g, s) == g.partLba + Lbas(g, s)
    ensures 512 * SectorLba(g, s) == SectorAt(g, s)
  {
  }

  /** The disk reaches at least to the end of the volume. */
  predicate OnDisk(image: seq<Byte>, g: Geo)
  {
    Fits(g) && SectorAt(g, SectorLimit(g)) <= |image|
  }

  lemma SectorInside(image: seq<Byte>, g: Geo, s: int)
    requires OnDisk(image, g) && 0 <= s < SectorLimit(g)
    ensures 0 <= SectorAt(g, s) && SectorAt(g, s) + g.bytesPerSec <= |image|
  {
  }

  function SectorBytes(image: seq<Byte>, g: Geo, s: int): (r: seq<Byte>)
    requires OnDisk(image, g) && 0 <= s < SectorLimit(g)
    ensures |r| == g.bytesPerSec
  {
    SectorInside(image, g, s);
    image[SectorAt(g, s)..SectorAt(g, s) + g.bytesPerSec]
  }

  lemma ClusterOnDisk(image: seq<Byte>, g: Geo, c: U32)
    requires OnDisk(image, g) && 2 <= c < g.maxClus
    ensures 0 <= ClusterAt(g, c) && ClusterAt(g, c) + g.clusBytes <= |image|
  {
    ClusterInside(g, c);
    var s := g.dataStart + (c - 2) * g.secPerClus;
  }

  function ClusterBytes(image: seq<Byte>, g: Geo, c: U32): (r: seq<Byte>)
    requires OnDisk(image, g) && 2 <= c < g.maxClus
    ensures |r| == g.clusBytes
  {
    ClusterOnDisk(image, g, c);
    image[ClusterAt(g, c)..ClusterAt(g, c) + g.clusBytes]
  }

  /** Where the FAT keeps the entry of cluster `c`. */
  function FatSector(g: Geo, c: U32): int
  {
    g.fatStart + SectorOf(g, 4 * c)
  }

  /**
   * On a volume whose reserved and FAT sectors do not overflow 32 bits, every cluster
   * below the ceiling has its entry inside the first FAT: the reader's check that an
   * entry's sector lies before the data never fires.
   */
  lemma FatHoldsEveryCluster(bs: seq<Byte>, partLba: U32, c: U32)
    requires |bs| == 512 && Mount(bs, partLba).Mounted? && c < Mount(bs, partLba).g.maxClus
    requires Rd16(bs, 14) + bs[16] * Rd32(bs, 36) < TWO32
    ensures WellFormed(Mount(bs, partLba).g) && FatSector(Mount(bs, partLba).g, c) < Mount(bs, partLba).g.dataStart
  {
    MountedIsWellFormed(bs, partLba);
    var g, fatsz: nat := Mount(bs, partLba).g, Rd32(bs, 36);
    var perSec := g.bytesPerSec / 4;
    CeilingInFat(perSec, fatsz, g.totalClus, c);
    EntrySector(g, c, fatsz);
    MulMonotone(fatsz, 1, bs[16]);
    assert bs[16] * fatsz == fatsz * bs[16];
  }

  lemma CeilingInFat(perSec: nat, fatsz: U32, total: U32, c: nat)
    requires perSec == 128 || perSec == 256 || perSec == 512 || perSec == 1024
    requires c < MaxClus(perSec, fatsz, total)
    ensures c < fatsz * perSec
  {
  }

  lemma EntrySector(g: Geo, c: nat, fatsz: nat)
    requires c < fatsz * (g.bytesPerSec / 4)
    ensures SectorOf(g, 4 * c) < fatsz
  {
  }

  /** The cluster after `c`, or the end marker when the chain does not go on to a valid cluster. */
  function NextCluster(image: seq<Byte>, g: Geo, c: U32): (n: U32)
    requires OnDisk(image, g)
  {
    if !ClusterValid(g, c) then FAT_EOC
    else if FatSector(g, c) >= g.dataStart then FAT_EOC
    else
      ClusterInside(g, c);
      LinkIn(SectorBytes(image, g, FatSector(g, c)), g, c)
  }

  /** The entry of cluster `c` in the FAT sector that holds it, if it is a valid cluster. */
  function LinkIn(sector: seq<Byte>, g: Geo, c: U32): (n: U32)
    requires |sector| == g.bytesPerSec
  {
    var entry := FatEntry(sector, g, c);
    if ClusterValid(g, entry) then entry else FAT_EOC
  }

  /** The 28-bit entry of cluster `c` in the FAT sector that holds it. */
  function FatEntry(sector: seq<Byte>, g: Geo, c: U32): (n: U32)
    requires |sector| == g.bytesPerSec
  {
    EntryInSector(g, c);
    Rd32(sector, OffsetOf(g, 4 * c)) % 0x1000_0000
  }

  lemma EntryInSector(g: Geo, c: U32)
    ensures OffsetOf(g, 4 * c) + 4 <= g.bytesPerSec
  {
    match g.secRatio
    case 1 => EntryModulo(c, 128);
    case 2 => EntryModulo(c, 256);
    case 4 => EntryModulo(c, 512);
    case _ => EntryModulo(c, 1024);
  }

  lemma EntryModulo(c: nat, m: nat)
    requires m > 0
    ensures 4 * c % (4 * m) + 4 <= 4 * m
  {
    var q, r := c / m, c % m;
    assert c == m * q + r;
    assert 4 * (m * q) == (4 * m) * q;
    ModuloOf(4 * c, 4 * m, q, 4 * r);
  }

  // ---- chains -------------------------------------------------------------

  /** The cluster `k` steps along the chain that starts at `c`. */
  function Nth(image: seq<Byte>, g: Geo, c: U32, k: nat): (n: U32)
    requires OnDisk(image, g)
    decreases k
  {
    if k == 0 then c else NextCluster(image, g, Nth(image, g, c, k - 1))
  }

  /** The first `n` steps of the chain are all real clusters. */
  predicate AllValid(image: seq<Byte>, g: Geo, c: U32, n: nat)
    requires OnDisk(image, g)
  {
    forall j :: 0 <= j < n ==> ClusterValid(g, Nth(image, g, c, j))
  }

  /** An acyclic chain of exactly `n` clusters. */
  predicate ChainOf(image: seq<Byte>, g: Geo, c: U32, n: nat)
    requires OnDisk(image, g)
  {
    AllValid(image, g, c, n) && !ClusterValid(g, Nth(image, g, c, n))
  }

  /** The bytes of the first `n` clusters of the chain. */
  function ChainBytes(image: seq<Byte>, g: Geo, c: U32, n: nat): (r: seq<Byte>)
    requires OnDisk(image, g) && AllValid(image, g, c, n)
    decreases n
  {
    if n == 0 then [] else
      ChainBytes(image, g, c, n - 1) + ClusterBytes(image, g, Nth(image, g, c, n - 1))
  }

  lemma ChainGrows(image: seq<Byte>, g: Geo, c: U32, k: nat)
    requires OnDisk(image, g) && AllValid(image, g, c, k + 1)
    ensures ChainBytes(image, g, c, k + 1) == ChainBytes(image, g, c, k) + ClusterBytes(image, g, Nth(image, g, c, k))
  {
  }

  lemma {:induction false} ChainBytesLength(image: seq<Byte>, g: Geo, c: U32, n: nat)
    requires OnDisk(image, g) && AllValid(image, g, c, n)
    ensures |ChainBytes(image, g, c, n)| == n * g.clusBytes
    decreases n
  {
    if n > 0 {
      ChainBytesLength(image, g, c, n - 1);
      assert (n - 1) * g.clusBytes + g.clusBytes == n * g.clusBytes;
    }
  }

  /** The bytes of the chain's first clusters, as a function of how many. */
  function BytesOf(image: seq<Byte>, g: Geo, c: U32, n: nat): nat -> seq<Byte>
    requires OnDisk(image, g) && AllValid(image, g, c, n)
  {
    (k: nat) => if k <= n then ChainBytes(image, g, c, k) else []
  }

  predicate Extends(bytes: nat -> seq<Byte>, k: nat)
  {
    bytes(k) <= bytes(k + 1)
  }

  lemma {:induction false} PrefixTo(bytes: nat -> seq<Byte>, m: nat, n: nat)
    requires m <= n && forall k: nat :: k < n ==> Extends(bytes, k)
    ensures bytes(m) <= bytes(n)
    decreases n
  {
    if m < n {
      PrefixTo(bytes, m, n - 1);
      assert Extends(bytes, n - 1);
    }
  }

  lemma BytesExtend(image: seq<Byte>, g: Geo, c: U32, n: nat, k: nat)
    requires OnDisk(image, g) && AllValid(image, g, c, n) && k < n
    ensures Extends(BytesOf(image, g, c, n), k)
  {
    ChainGrows(image, g, c, k);
  }

  lemma ChainBytesPrefix(image: seq<Byte>, g: Geo, c: U32, m: nat, n: nat)
    requires OnDisk(image, g) && AllValid(image, g, c, n) && m <= n
    ensures ChainBytes(image, g, c, m) <= ChainBytes(image, g, c, n)
  {
    var bytes := BytesOf(image, g, c, n);
    forall k: nat | k < n
      ensures Extends(bytes, k)
    {
      BytesExtend(image, g, c, n, k);
    }
    PrefixTo(bytes, m, n);
  }

  /** The clusters a chain visits, step by step. */
  type Path = nat -> U32

  function PathOf(image: seq<Byte>, g: Geo, c: U32): Path
    requires OnDisk(image, g)
  {
    (k: nat) => Nth(image, g, c, k)
  }

  /** Step `k + 1` of a path is decided by step `k`. */
  predicate Follows(path: Path, next: U32 -> U32, k: nat)
  {
    path(k + 1) == next(path(k))
  }

  lemma {:induction false} PathShift(path: Path, next: U32 -> U32, i: nat, j: nat, k: nat)
    requires path(i) == path(j) && forall n: nat :: Follows(path, next, n)
    ensures path(i + k) == path(j + k)
    decreases k
  {
    if k > 0 {
      PathShift(path, next, i, j, k - 1);
      assert Follows(path, next, i + (k - 1)) && Follows(path, next, j + (k - 1));
    }
  }

  function NextOf(image: seq<Byte>, g: Geo): U32 -> U32
    requires OnDisk(image, g)
  {
    (c: U32) => NextCluster(image, g, c)
  }

  lemma NthFollows(image: seq<Byte>, g: Geo, c: U32, k: nat)
    requires OnDisk(image, g)
    ensures Follows(PathOf(image, g, c), NextOf(image, g), k)
  {
  }

  /** Stepping on from two equal positions keeps them equal. */
  lemma NthShift(image: seq<Byte>, g: Geo, c: U32, i: nat, j: nat, k: nat)
    requires OnDisk(image, g) && Nth(image, g, c, i) == Nth(image, g, c, j)
    ensures Nth(image, g, c, i + k) == Nth(image, g, c, j + k)
  {
    var path, next := PathOf(image, g, c), NextOf(image, g);
    forall n: nat
      ensures Follows(path, next, n)
    {
      NthFollows(image, g, c, n);
    }
    PathShift(path, next, i, j, k);
  }

  /** A chain that ends never visits a cluster twice. */
  lemma ChainDistinct(image: seq<Byte>, g: Geo, c: U32, n: nat, i: nat, j: nat)
    requires OnDisk(image, g) && ChainOf(image, g, c, n) && i < j < n
    ensures Nth(image, g, c, i) != Nth(image, g, c, j)
  {
    if Nth(image, g, c, i) == Nth(image, g, c, j) {
      NthShift(image, g, c, i, j, n - j);
      assert false;
    }
  }

  /** The first `n` clusters of a path, as a set. */
  function ClusterSet(path: Path, n: nat): set<int>
  {
    set j | 0 <= j < n :: path(j) as int
  }

  lemma {:induction false} ClusterSetSize(path: Path, n: nat)
    requires forall i, j :: 0 <= i < j < n ==> path(i) != path(j)
    ensures |ClusterSet(path, n)| == n
    decreases n
  {
    if n > 0 {
      ClusterSetSize(path, n - 1);
      var last: int := path(n - 1);
      assert ClusterSet(path, n) == ClusterSet(path, n - 1) + {last};
      assert last !in ClusterSet(path, n - 1);
    }
  }

  /** Distinct clusters of a volume are fewer than its cluster ceiling. */
  lemma DistinctBound(image: seq<Byte>, g: Geo, c: U32, n: nat)
    requires OnDisk(image, g) && AllValid(image, g, c, n)
    requires forall i, j :: 0 <= i < j < n ==> Nth(image, g, c, i) != Nth(image, g, c, j)
    ensures n <= g.maxClus - 2
  {
    ClusterSetSize(PathOf(image, g, c), n);
    RangeSize(2, g.maxClus, ClusterSet(PathOf(image, g, c), n));
  }

  lemma ChainBound(image: seq<Byte>, g: Geo, c: U32, n: nat)
    requires OnDisk(image, g) && ChainOf(image, g, c, n)
    ensures n <= g.maxClus - 2
  {
    forall i, j | 0 <= i < j < n
      ensures Nth(image, g, c, i) != Nth(image, g, c, j)
    {
      ChainDistinct(image, g, c, n, i, j);
    }
    DistinctBound(image, g, c, n);
  }

  /** Past its end a chain stays ended. */
  lemma {:induction false} EndedStaysEnded(image: seq<Byte>, g: Geo, c: U32, n: nat, k: nat)
    requires OnDisk(image, g) && n <= k && !ClusterValid(g, Nth(image, g, c, n))
    ensures !ClusterValid(g, Nth(image, g, c, k))
    decreases k
  {
    if n < k {
      EndedStaysEnded(image, g, c, n, k - 1);
    }
  }
}
