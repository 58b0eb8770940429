/** From a file's first cluster to an address that may be written, and what such a write leaves alone. */
module FileLba {
  import opened Words
  import opened Arith
  import opened Volume
  import opened Fat32
  import opened FatStream
  import opened FileReads
  import opened Options
  import opened Record

  /** One cluster as a run of 512-byte sectors. */
  datatype Extent = Extent(lba: U32, sectors: U32)

  /** The last FS sector whose 512-byte address fits 32 bits: `0xFFFFFFFF / secRatio`. */
  function SectorCeiling(g: Geo): nat
  {
    match g.secRatio
    case 1 => 0xFFFF_FFFF
    case 2 => 0x7FFF_FFFF
    case 4 => 0x3FFF_FFFF
    case _ => 0x1FFF_FFFF
  }

  /** Does the run end past the volume, as far as the volume's size is known and representable? */
  predicate PastEnd(g: Geo, lba: U32, sectors: nat)
  {
    && 0 < g.totalClus <= (0xFFFF_FFFF - g.dataStart) / g.secPerClus
    && var end: int := g.dataStart + g.totalClus * g.secPerClus;
    && end <= SectorCeiling(g)
    && Lbas(g, end) <= 0xFFFF_FFFF - g.partLba
    && lba + sectors > g.partLba + Lbas(g, end)
  }

  /** The address of a file's first cluster, or nothing when any check fails. */
  function Resolve(g: Geo, c: U32): Option<Extent>
  {
    if !ClusterValid(g, c) then None
    else
      var sec := ClusterSector(g, c);
      if sec > SectorCeiling(g) then None
      else if Lbas(g, sec) > 0xFFFF_FFFF - g.partLba then None
      else
        var lba: U32 := g.partLba + Lbas(g, sec);
        var run: U32 := Lbas(g, g.secPerClus);
        if lba == 0 || lba <= g.partLba then None
        else if run == 0 || run > 0xFFFF_FFFF - lba then None
        else if PastEnd(g, lba, run) then None
        else Some(Extent(lba, run))
  }

  /** A resolved address is the cluster's own, with no wrap-around, on any geometry. */
  lemma ResolvedIsCluster(g: Geo, c: U32)
    requires Resolve(g, c).Some?
    ensures var run := Resolve(g, c).value;
      && 512 * run.lba == ClusterAt(g, c) && 512 * run.sectors == g.clusBytes
      && g.partLba < run.lba && run.lba + run.sectors < TWO32
  {
    ClusterSectorExact(g, c);
  }

  /** A mounted volume's cluster ceiling already stays inside its known size. */
  predicate CeilingInside(g: Geo)
  {
    g.totalClus == 0 || g.maxClus <= g.totalClus + 2
  }

  lemma MountedCeilingInside(bs: seq<Byte>, partLba: U32)
    requires |bs| == 512 && Mount(bs, partLba).Mounted?
    ensures WellFormed(Mount(bs, partLba).g) && CeilingInside(Mount(bs, partLba).g)
  {
    MountedIsWellFormed(bs, partLba);
  }

  /** Resolution refuses exactly the clusters that are invalid, at the very start, or past 32-bit addresses. */
  lemma ResolvesExactly(g: Geo, c: U32)
    requires CeilingInside(g)
    ensures Resolve(g, c).Some? <==>
      && ClusterValid(g, c)
      && g.dataStart + (c - 2) * g.secPerClus > 0
      && g.partLba + Lbas(g, g.dataStart + (c - 2) * g.secPerClus + g.secPerClus) <= 0xFFFF_FFFF
  {
    if ClusterValid(g, c) {
      ClusterSectorExact(g, c);
      if g.totalClus != 0 {
        MulStep(g.secPerClus, c - 2, g.totalClus);
      }
    }
  }

  // ---- the two slots ----------------------------------------------------------

  const SLOT_SECTORS: nat := 2
  const MIN_BYTES: nat := 2048

  /** The address of one of the two slots of a resolved run, re-validated from scratch. */
  function SlotIn(r: Option<Extent>, partLba: U32, size: U32, slot: nat): Option<U32>
  {
    if slot >= 2 || size < MIN_BYTES then None
    else if r.None? || r.value.sectors < 4 || r.value.lba % 2 != 0 then None
    else
      var base := r.value.lba;
      var lba := Wrap32(base + slot * SLOT_SECTORS);
      if lba == 0 || lba <= partLba then None
      else if lba < base || (lba - base) + SLOT_SECTORS > r.value.sectors then None
      else if lba % 2 != 0 then None
      else Some(lba)
  }

  function SlotLba(g: Geo, c: U32, size: U32, slot: nat): Option<U32>
  {
    SlotIn(Resolve(g, c), g.partLba, size, slot)
  }

  lemma SlotsOfRun(run: Extent, partLba: U32, size: U32)
    requires partLba < run.lba && run.lba + run.sectors < TWO32
    ensures var a, b := SlotIn(Some(run), partLba, size, 0), SlotIn(Some(run), partLba, size, 1);
      && a.Some? == b.Some?
      && (a.Some? <==> size >= MIN_BYTES && run.sectors >= 4 && run.lba % 2 == 0)
      && (a.Some? ==> a.value == run.lba && b.value == run.lba + 2)
  {
  }

  /** Either both slots resolve or neither does; they are adjacent, aligned and inside the file's first cluster. */
  lemma SlotsTogether(g: Geo, c: U32, size: U32)
    ensures SlotLba(g, c, size, 0).Some? == SlotLba(g, c, size, 1).Some?
    ensures SlotLba(g, c, size, 0).Some? ==>
      var a, b := SlotLba(g, c, size, 0).value, SlotLba(g, c, size, 1).value;
      && b == a + 2 && a % 2 == 0 && a > g.partLba && ClusterValid(g, c)
      && 512 * a == ClusterAt(g, c) && 512 * b + SLOT_BYTES <= ClusterAt(g, c) + g.clusBytes
  {
    var r := Resolve(g, c);
    if r.Some? {
      ResolvedIsCluster(g, c);
      SlotsOfRun(r.value, g.partLba, size);
    }
  }

  /**
   * The slots resolve exactly when two fit into the declared size and into the cluster, which
   * is the volume's, 1024-byte aligned, past the partition's start and within 32-bit addresses.
   */
  lemma SlotsExactly(g: Geo, c: U32, size: U32, slot: nat)
    requires CeilingInside(g) && slot < 2
    ensures SlotLba(g, c, size, slot).Some? <==>
      && size >= 2048 && ClusterValid(g, c) && g.clusBytes >= 2048 && ClusterAt(g, c) % 1024 == 0
      && 512 * g.partLba < ClusterAt(g, c) && ClusterAt(g, c) + g.clusBytes <= 512 * 0xFFFF_FFFF
  {
    hide Resolve, Wrap32;
    ResolvesExactly(g, c);
    var r := Resolve(g, c);
    if r.Some? {
      ResolvedIsCluster(g, c);
      SlotsOfRun(r.value, g.partLba, size);
      EvenAddress(r.value.lba);
    } else if ClusterValid(g, c) {
      SpanUnits(g, g.dataStart + (c - 2) * g.secPerClus);
    }
  }

  lemma EvenAddress(lba: nat)
    ensures 512 * lba % 1024 == 0 <==> lba % 2 == 0
  {
  }

  lemma SpanUnits(g: Geo, n: int)
    ensures Span(g, n) == 512 * Lbas(g, n) && Span(g, n + g.secPerClus) == Span(g, n) + g.clusBytes
  {
  }

  // ---- what a write inside one cluster leaves alone -----------------------------

  lemma SliceOutside(a: seq<Byte>, b: seq<Byte>, lo: nat, hi: nat, x: nat, y: nat)
    requires SameOutside(a, b, lo, hi) && x <= y <= |a| && (y <= lo || hi <= x)
    ensures a[x..y] == b[x..y]
  {
    forall k | x <= k < y
      ensures a[k] == b[k]
    {
      if y <= lo {
        assert a[..lo][k] == b[..lo][k];
      } else {
        assert a[hi..][k - hi] == b[hi..][k - hi];
      }
    }
    assert |a[x..y]| == |b[x..y]| && forall i :: 0 <= i < y - x ==> a[x..y][i] == b[x..y][i];
  }

  /** The write stayed within cluster `c`. */
  ghost predicate Confined(a: seq<Byte>, b: seq<Byte>, g: Geo, c: U32)
    requires OnDisk(a, g) && 2 <= c < g.maxClus
  {
    ClusterOnDisk(a, g, c);
    SameOutside(a, b, ClusterAt(g, c), ClusterAt(g, c) + g.clusBytes)
  }

  lemma SpanMonotone(g: Geo, m: int, n: int)
    requires m <= n
    ensures Span(g, m) <= Span(g, n)
  {
  }

  /** Every FS sector outside the cluster, the FAT's among them, reads as before. */
  lemma SectorKept(a: seq<Byte>, b: seq<Byte>, g: Geo, c: U32, s: nat)
    requires OnDisk(a, g) && 2 <= c < g.maxClus && Confined(a, b, g, c)
    requires s < SectorLimit(g) && !InCluster(g, c, s)
    ensures OnDisk(b, g) && SectorBytes(b, g, s) == SectorBytes(a, g, s)
  {
    ClusterOnDisk(a, g, c);
    SectorInside(a, g, s);
    var lo := g.dataStart + (c - 2) * g.secPerClus;
    var at := SectorAt(g, s);
    if s < lo {
      SpanMonotone(g, s + 1, lo);
    } else {
      SpanMonotone(g, lo + g.secPerClus, s);
    }
    SliceOutside(a, b, ClusterAt(g, c), ClusterAt(g, c) + g.clusBytes, at, at + g.bytesPerSec);
  }

  lemma SpanSum(g: Geo, m: int, n: int)
    ensures Span(g, m + n) == Span(g, m) + Span(g, n)
  {
  }

  lemma ClustersApart(g: Geo, c: nat, d: nat)
    requires 2 <= c < d
    ensures ClusterAt(g, c) + g.clusBytes <= ClusterAt(g, d)
  {
    MulStep(g.secPerClus, c - 2, d - 2);
    var x, y := g.dataStart + (c - 2) * g.secPerClus, g.dataStart + (d - 2) * g.secPerClus;
    SpanMonotone(g, x + g.secPerClus, y);
    SpanSum(g, x, g.secPerClus);
  }

  lemma ClusterKept(a: seq<Byte>, b: seq<Byte>, g: Geo, c: U32, d: U32)
    requires OnDisk(a, g) && 2 <= c < g.maxClus && Confined(a, b, g, c)
    requires 2 <= d < g.maxClus && c != d
    ensures OnDisk(b, g) && ClusterBytes(b, g, d) == ClusterBytes(a, g, d)
  {
    ClusterOnDisk(a, g, c);
    ClusterOnDisk(a, g, d);
    if c < d {
      ClustersApart(g, c, d);
    } else {
      ClustersApart(g, d, c);
    }
    SliceOutside(a, b, ClusterAt(g, c), ClusterAt(g, c) + g.clusBytes, ClusterAt(g, d), ClusterAt(g, d) + g.clusBytes);
  }

  lemma OnDiskKept(a: seq<Byte>, b: seq<Byte>, g: Geo, c: U32)
    requires OnDisk(a, g) && 2 <= c < g.maxClus && Confined(a, b, g, c)
    ensures OnDisk(b, g)
  {
  }

  lemma FatNotInCluster(g: Geo, c: U32, s: int)
    requires 2 <= c && s < g.dataStart
    ensures !InCluster(g, c, s)
  {
    MulMonotone(g.secPerClus, 0, c - 2);
  }

  lemma FatSectorKept(a: seq<Byte>, b: seq<Byte>, g: Geo, c: U32, s: nat)
    requires OnDisk(a, g) && 2 <= c < g.maxClus && Confined(a, b, g, c) && s < g.dataStart && s < SectorLimit(g)
    ensures OnDisk(b, g) && SectorBytes(b, g, s) == SectorBytes(a, g, s)
  {
    FatNotInCluster(g, c, s);
    SectorKept(a, b, g, c, s);
  }

  /** No FAT entry moves. */
  lemma LinkKept(a: seq<Byte>, b: seq<Byte>, g: Geo, c: U32, d: U32)
    requires OnDisk(a, g) && 2 <= c < g.maxClus && Confined(a, b, g, c)
    ensures OnDisk(b, g) && NextCluster(b, g, d) == NextCluster(a, g, d)
  {
    OnDiskKept(a, b, g, c);
    if ClusterValid(g, d) && FatSector(g, d) < g.dataStart {
      ClusterInside(g, d);
      FatSectorKept(a, b, g, c, FatSector(g, d));
    }
  }

  lemma {:induction false} ChainKept(a: seq<Byte>, b: seq<Byte>, g: Geo, c: U32, first: U32, n: nat)
    requires OnDisk(a, g) && 2 <= c < g.maxClus && Confined(a, b, g, c)
    ensures OnDisk(b, g) && Nth(b, g, first, n) == Nth(a, g, first, n)
    decreases n
  {
    if n > 0 {
      ChainKept(a, b, g, c, first, n - 1);
      LinkKept(a, b, g, c, Nth(a, g, first, n - 1));
    }
  }

  /** Step `k` of the chain is the same cluster with the same bytes. */
  predicate SamePiece(a: seq<Byte>, b: seq<Byte>, g: Geo, first: U32, k: nat)
    requires OnDisk(a, g) && OnDisk(b, g)
  {
    var d := Nth(a, g, first, k);
    2 <= d < g.maxClus && Nth(b, g, first, k) == d && ClusterBytes(b, g, d) == ClusterBytes(a, g, d)
  }

  lemma {:induction false} SameBytes(a: seq<Byte>, b: seq<Byte>, g: Geo, first: U32, n: nat)
    requires OnDisk(a, g) && OnDisk(b, g) && AllValid(a, g, first, n) && AllValid(b, g, first, n)
    requires forall k :: 0 <= k < n ==> SamePiece(a, b, g, first, k)
    ensures ChainBytes(b, g, first, n) == ChainBytes(a, g, first, n)
    decreases n
  {
    if n > 0 {
      SameBytes(a, b, g, first, n - 1);
      assert SamePiece(a, b, g, first, n - 1);
    }
  }

  lemma PieceKept(a: seq<Byte>, b: seq<Byte>, g: Geo, c: U32, first: U32, k: nat)
    requires OnDisk(a, g) && 2 <= c < g.maxClus && Confined(a, b, g, c)
    requires ClusterValid(g, Nth(a, g, first, k)) && Nth(a, g, first, k) != c
    ensures OnDisk(b, g) && SamePiece(a, b, g, first, k)
  {
    ChainKept(a, b, g, c, first, k);
    ClusterKept(a, b, g, c, Nth(a, g, first, k));
  }

  lemma BytesKept(a: seq<Byte>, b: seq<Byte>, g: Geo, c: U32, first: U32, n: nat)
    requires OnDisk(a, g) && 2 <= c < g.maxClus && Confined(a, b, g, c)
    requires AllValid(a, g, first, n) && Avoids(a, g, first, c)
    ensures OnDisk(b, g) && AllValid(b, g, first, n) && ChainBytes(b, g, first, n) == ChainBytes(a, g, first, n)
  {
    StepsKept(a, b, g, c, first, n);
    forall k | 0 <= k < n
      ensures SamePiece(a, b, g, first, k)
    {
      PieceKept(a, b, g, c, first, k);
    }
    SameBytes(a, b, g, first, n);
  }

  lemma StepsKept(a: seq<Byte>, b: seq<Byte>, g: Geo, c: U32, first: U32, n: nat)
    requires OnDisk(a, g) && 2 <= c < g.maxClus && Confined(a, b, g, c) && AllValid(a, g, first, n)
    ensures OnDisk(b, g) && AllValid(b, g, first, n)
  {
    OnDiskKept(a, b, g, c);
    forall j | 0 <= j < n
      ensures ClusterValid(g, Nth(b, g, first, j))
    {
      ChainKept(a, b, g, c, first, j);
    }
  }

  /**
   * The frame theorem: a file whose chain avoids cluster `c` keeps its chain and its
   * content through any write confined to `c`, and still avoids it.
   */
  lemma FileUntouched(a: seq<Byte>, b: seq<Byte>, g: Geo, c: U32, first: U32, n: nat, size: nat)
    requires OnDisk(a, g) && 2 <= c < g.maxClus && Confined(a, b, g, c)
    requires ChainOf(a, g, first, n) && Avoids(a, g, first, c)
    ensures OnDisk(b, g) && ChainOf(b, g, first, n) && Avoids(b, g, first, c)
    ensures Content(b, g, first, n, size) == Content(a, g, first, n, size)
  {
    BytesKept(a, b, g, c, first, n);
    forall k: nat
      ensures Nth(b, g, first, k) == Nth(a, g, first, k)
    {
      ChainKept(a, b, g, c, first, k);
    }
  }

  // ---- when sector addresses do not fit 32 bits ------------------------------------

  /** Reading cluster `d` goes to 512-byte sector `lba`: the 32-bit address of one of its sectors. */
  predicate Reads(g: Geo, d: U32, lba: U32)
  {
    exists k :: 0 <= k < Lbas(g, g.secPerClus) && At(g, d, k) == lba
  }

  /** The address of the `k`-th 512-byte sector of cluster `d`, as 32-bit arithmetic computes it. */
  function At(g: Geo, d: U32, k: int): U32
  {
    Wrap32(SectorLba(g, ClusterSector(g, d)) + k)
  }

  /** Some other valid cluster is read from the sectors that cluster `c` resolves to. */
  ghost predicate Aliased(g: Geo, c: U32)
    requires Resolve(g, c).Some?
  {
    var run := Resolve(g, c).value;
    exists d: U32, lba: U32 :: Reads(g, d, lba) && ClusterValid(g, d) && d != c && run.lba <= lba < run.lba + run.sectors
  }

  /** The first cluster whose address has gone once round the 32-bit space: what `c` resolves to meets it first. */
  function Round(g: Geo, c: U32): int
    requires Resolve(g, c).Some?
  {
    c + TWO32 / Resolve(g, c).value.sectors
  }

  predicate Valid32(g: Geo, d: int)
  {
    0 <= d < TWO32 && ClusterValid(g, d)
  }

  lemma LbasLinear(g: Geo, x: int, m: int, n: nat)
    ensures Lbas(g, x + m * n) == Lbas(g, x) + m * Lbas(g, n)
  {
    var mn := m * n;
    assert m * (2 * n) == 2 * mn && m * (4 * n) == 4 * mn && m * (8 * n) == 8 * mn;
  }

  /** A valid cluster's address is that of `c`, as many runs further as it is clusters further. */
  lemma RunsApart(g: Geo, c: U32, d: U32, k: nat)
    requires Resolve(g, c).Some? && ClusterValid(g, d)
    ensures var run := Resolve(g, c).value;
      && run.lba + (d - c) * run.sectors >= 0
      && At(g, d, k) == Wrap32(run.lba + (d - c) * run.sectors + k)
  {
    ClusterSectorExact(g, c);
    ClusterSectorExact(g, d);
    LbasLinear(g, ClusterSector(g, c), d - c, g.secPerClus);
    assert ClusterSector(g, d) == ClusterSector(g, c) + (d - c) * g.secPerClus;
    WrapPlus(g.partLba + Lbas(g, ClusterSector(g, d)), k);
  }

  lemma WrapPlus(x: int, k: int)
    ensures Wrap32(Wrap32(x) + k) == Wrap32(x + k)
  {
  }

  /** Two stretches of `n` addresses, `m` stretches apart, meet only after going round. */
  lemma MeetAfterRound(t: nat, m: int, n: nat, k: nat, j: nat)
    requires 0 < n && m != 0 && k < n && j < n && t + n < TWO32 && t + m * n >= 0
    requires Wrap32(t + m * n + k) == t + j
    ensures m >= TWO32 / n
  {
    assert n * m == m * n;
    if m < 0 {
      MulStep(n, m, 0);
      assert false;
    }
    MulStep(n, 0, m);
    assert t + m * n + k >= TWO32;
    NotWholeRound(m, n);
  }

  /** Fewer stretches than a whole round holds leave at least one more to go. */
  lemma NotWholeRound(m: nat, n: nat)
    requires 0 < n
    ensures m < TWO32 / n ==> m * n + n <= TWO32
  {
    if m < TWO32 / n {
      DivBound(m + 1, TWO32, n);
      assert (m + 1) * n == m * n + n;
    }
  }

  /** Going round once brings some sector of a run onto the first sector of the other. */
  lemma RoundMeets(t: nat, n: nat) returns (k: nat)
    requires 0 < n && t < TWO32
    ensures k < n && Wrap32(t + TWO32 / n * n + k) == t
  {
    k := TWO32 % n;
    assert TWO32 == n * (TWO32 / n) + k;
    assert TWO32 / n * n == n * (TWO32 / n);
    assert t + TWO32 / n * n + k == TWO32 + t;
  }

  /** Validity of clusters is downward closed. */
  lemma ValidBelow(g: Geo, d: int, e: int)
    requires Valid32(g, e) && 2 <= d <= e
    ensures Valid32(g, d)
  {
  }

  /**
   * A settings file's sectors are shared exactly when the cluster one round further is
   * valid; and then it is the first sector of the first slot that is shared.
   */
  lemma AliasExactly(g: Geo, c: U32)
    requires Resolve(g, c).Some?
    ensures Aliased(g, c) <==> Valid32(g, Round(g, c))
    ensures Valid32(g, Round(g, c)) ==> Reads(g, Round(g, c), Resolve(g, c).value.lba)
  {
    var run := Resolve(g, c).value;
    ResolvedIsCluster(g, c);
    if Aliased(g, c) {
      var d: U32, lba: U32 :| Reads(g, d, lba) && ClusterValid(g, d) && d != c && run.lba <= lba < run.lba + run.sectors;
      AliasFar(g, c, d, lba);
    }
    if Valid32(g, Round(g, c)) {
      RoundAliases(g, c);
    }
  }

  lemma AliasFar(g: Geo, c: U32, d: U32, lba: U32)
    requires Resolve(g, c).Some? && Reads(g, d, lba) && ClusterValid(g, d) && d != c
    requires var run := Resolve(g, c).value; run.lba <= lba < run.lba + run.sectors
    ensures Valid32(g, Round(g, c))
  {
    var k :| 0 <= k < Lbas(g, g.secPerClus) && At(g, d, k) == lba;
    AliasFarAt(g, c, d, k);
    ValidBelow(g, Round(g, c), d);
  }

  lemma AliasFarAt(g: Geo, c: U32, d: U32, k: nat)
    requires Resolve(g, c).Some? && ClusterValid(g, d) && d != c && k < Resolve(g, c).value.sectors
    requires var run := Resolve(g, c).value; run.lba <= At(g, d, k) < run.lba + run.sectors
    ensures Round(g, c) <= d
  {
    var run := Resolve(g, c).value;
    ResolvedIsCluster(g, c);
    RunsApart(g, c, d, k);
    MeetAfterRound(run.lba, d - c, run.sectors, k, At(g, d, k) - run.lba);
  }

  lemma RoundAliases(g: Geo, c: U32)
    requires Resolve(g, c).Some? && Valid32(g, Round(g, c))
    ensures Reads(g, Round(g, c), Resolve(g, c).value.lba) && Aliased(g, c)
  {
    var run, d: U32 := Resolve(g, c).value, Round(g, c);
    ResolvedIsCluster(g, c);
    var k := RoundMeets(run.lba, run.sectors);
    RunsApart(g, c, d, k);
    assert At(g, d, k) == run.lba;
    assert Reads(g, d, run.lba);
  }

  /** The bytes of one 512-byte sector of the disk. */
  function Lba(image: seq<Byte>, lba: U32): seq<Byte>
    requires 512 * lba + 512 <= |image|
  {
    image[512 * lba..512 * lba + 512]
  }

  /**
   * The frame theorem on any geometry: where no valid cluster lies a round further, a
   * write within what `c` resolves to changes no sector that another cluster is read from.
   */
  lemma OthersKept(a: seq<Byte>, b: seq<Byte>, g: Geo, c: U32, d: U32, lba: U32)
    requires Resolve(g, c).Some? && !Valid32(g, Round(g, c))
    requires var run := Resolve(g, c).value; SameOutside(a, b, 512 * run.lba, 512 * (run.lba + run.sectors))
    requires ClusterValid(g, d) && d != c && Reads(g, d, lba) && 512 * lba + 512 <= |a|
    ensures Lba(b, lba) == Lba(a, lba)
  {
    var run := Resolve(g, c).value;
    AliasExactly(g, c);
    assert !(run.lba <= lba < run.lba + run.sectors);
    SliceOutside(a, b, 512 * run.lba, 512 * (run.lba + run.sectors), 512 * lba, 512 * lba + 512);
  }

  /** No sector before the data region, the FAT's among them, is ever shared. */
  lemma FatNeverAliased(g: Geo, c: U32, s: U32, k: nat)
    requires Resolve(g, c).Some? && s < g.dataStart && k < g.secRatio
    ensures SectorLba(g, s) + k < Resolve(g, c).value.lba
  {
    ClusterSectorExact(g, c);
    MulMonotone(g.secPerClus, 0, c - 2);
    LbasStep(g, s, ClusterSector(g, c));
  }

  lemma LbasStep(g: Geo, x: int, y: int)
    requires x < y
    ensures Lbas(g, x) + g.secRatio <= Lbas(g, y)
  {
  }

  /** A boot sector: 4096-byte sectors, 128 to a cluster, 32 reserved, one FAT of 262144, no size given. */
  function HugeBoot(): (bs: seq<Byte>)
    ensures |bs| == 512
  {
    seq(512, i => if i == 12 then 0x10 else if i == 13 then 128 else if i == 14 then 32 else if i == 16 then 1
                  else if i == 38 then 4 else if i == 44 then 2 else if i == 510 then 0x55 else if i == 511 then 0xAA else 0)
  }

  function HugeGeometry(partLba: U32): Geometry
  {
    Geometry(partLba, 4096, 8, 128, 2, 32, 0x4_0020, 0x8_0000, 0, MAX_CLUS_CAP)
  }

  lemma HugeMounts(partLba: U32)
    ensures Rd16(HugeBoot(), 14) + HugeBoot()[16] * Rd32(HugeBoot(), 36) < TWO32
    ensures Mount(HugeBoot(), partLba) == Mounted(HugeGeometry(partLba))
  {
    var bs := HugeBoot();
    assert Rd16(bs, 11) == 4096 && Rd16(bs, 14) == 32 && Rd16(bs, 17) == 0 && Rd16(bs, 19) == 0 && Rd16(bs, 22) == 0;
    assert Rd32(bs, 32) == 0 && Rd32(bs, 36) == 0x4_0000 && Rd32(bs, 44) == 2;
  }

  lemma HugeResolves(partLba: U32)
    requires partLba % 2 == 0 && partLba < 0x1000_0000
    ensures WellFormed(HugeGeometry(partLba)) && Resolve(HugeGeometry(partLba), 3) == Some(Extent(partLba + 0x20_0500, 1024))
    ensures SlotLba(HugeGeometry(partLba), 3, MIN_BYTES, 0).Some?
    ensures Round(HugeGeometry(partLba), 3) == 0x40_0003 && ClusterValid(HugeGeometry(partLba), 0x40_0003)
  {
  }

  /**
   * It mounts, its FAT does not overflow and its settings file resolves; yet a save to
   * cluster 3 is read back from cluster 3 + 2^22.
   */
  lemma AliasMounts(partLba: U32)
    requires partLba % 2 == 0 && partLba < 0x1000_0000
    ensures Rd16(HugeBoot(), 14) + HugeBoot()[16] * Rd32(HugeBoot(), 36) < TWO32
    ensures Mount(HugeBoot(), partLba).Mounted? && WellFormed(Mount(HugeBoot(), partLba).g)
    ensures var g: Geo := Mount(HugeBoot(), partLba).g;
      && SlotLba(g, 3, MIN_BYTES, 0).Some? && Round(g, 3) == 0x40_0003 && Aliased(g, 3)
  {
    HugeMounts(partLba);
    HugeResolves(partLba);
    AliasExactly(HugeGeometry(partLba), 3);
  }
}
