/** The directory walk over a cluster chain, and what its cycle detection achieves. */
module DirWalk {
  import opened Words
  import opened Arith
  import opened Volume
  import opened Fat32
  import opened Directory

  /** The most directory clusters a walk visits. */
  function WalkLimit(g: Geo): (n: nat)
    ensures 1 <= n <= DIR_MAX_CLUS
  {
    assert DIR_MAX_BYTES / g.clusBytes >= 0;
    Min(DIR_MAX_BYTES / g.clusBytes + 1, DIR_MAX_CLUS)
  }

  /** After `t` clusters the hare stands where the tortoise does. */
  predicate Meets(image: seq<Byte>, g: Geo, c: U32, t: nat)
    requires OnDisk(image, g)
  {
    ClusterValid(g, Nth(image, g, c, t)) && Nth(image, g, c, t) == Nth(image, g, c, t / 2)
  }

  /** A finished walk: its code, the entries handed to the callback, and how many clusters it visited. */
  datatype Outcome = Outcome(rc: int, out: seq<Dirent>, visited: nat)

  /** What visiting a cluster does to the scan. */
  type Visitor = (Scan, U32) -> Scan

  /** Visiting a cluster scans its records. */
  function Visiting(image: seq<Byte>, g: Geo, stop: Dirent -> bool): Visitor
    requires OnDisk(image, g)
  {
    (st: Scan, c: U32) => if 2 <= c < g.maxClus then Records(st, ClusterBytes(image, g, c), 0, stop) else st
  }

  /** The walk from its `t`-th cluster on, with the records before it scanned into `st`. */
  function WalkFrom(image: seq<Byte>, g: Geo, c: U32, t: nat, st: Scan, visit: Visitor, limit: nat): Outcome
    requires OnDisk(image, g) && t <= limit
    decreases limit - t
  {
    var clus := Nth(image, g, c, t);
    if !ClusterValid(g, clus) then Outcome(0, st.out, t)
    else if t == limit then Outcome(ECORRUPT, st.out, t)
    else
      var st' := visit(st, clus);
      if st'.done then Outcome(0, st'.out, t + 1)
      else if Meets(image, g, c, t + 1) then Outcome(ECORRUPT, st'.out, t + 1)
      else WalkFrom(image, g, c, t + 1, st', visit, limit)
  }

  /** The records of one FS sector. */
  method ScanSector(st: Scan, sec: seq<Byte>, stop: Dirent -> bool) returns (r: Scan)
    ensures r == Records(st, sec, 0, stop)
  {
    r := st;
    var o := 0;
    while !r.done && o + 32 <= |sec|
      invariant o <= |sec| && Records(r, sec, o, stop) == Records(st, sec, 0, stop)
      decreases |sec| - o
    {
      r := Record(r, sec[o..o + 32], stop);
      o := o + 32;
    }
  }

  /** One more sector scanned is one more sector of the cluster's bytes. */
  lemma SectorScanned(image: seq<Byte>, g: Geo, clus: U32, s: nat, st: Scan, stop: Dirent -> bool)
    requires OnDisk(image, g) && ClusterValid(g, clus) && s < g.secPerClus
    ensures 0 <= Span(g, s) <= Span(g, s + 1) <= g.clusBytes
    ensures ClusterSector(g, clus) + s < SectorLimit(g) && ClusterSector(g, clus) + s < TWO32
    ensures var bytes := ClusterBytes(image, g, clus);
      var r := Records(Records(st, bytes[..Span(g, s)], 0, stop),
                       SectorBytes(image, g, ClusterSector(g, clus) + s), 0, stop);
      && r == Records(st, bytes[..Span(g, s + 1)], 0, stop)
      && (r.done ==> r == Records(st, bytes, 0, stop))
  {
    SectorOfCluster(image, g, clus, s);
    SpanStep(g, s);
    ScanSplitAt(st, ClusterBytes(image, g, clus), Span(g, s), Span(g, s + 1), stop);
  }

  lemma SpanStep(g: Geo, n: nat)
    ensures Span(g, n + 1) == Span(g, n) + g.bytesPerSec
    ensures Span(g, n) % 32 == 0 && g.bytesPerSec % 32 == 0
  {
    match g.secRatio
    case 1 => ModuloOf(512 * n, 32, 16 * n, 0);
    case 2 => ModuloOf(1024 * n, 32, 32 * n, 0);
    case 4 => ModuloOf(2048 * n, 32, 64 * n, 0);
    case _ => ModuloOf(4096 * n, 32, 128 * n, 0);
  }

  lemma ScanSplitAt(st: Scan, bytes: seq<Byte>, n: nat, m: nat, stop: Dirent -> bool)
    requires n <= m <= |bytes| && n % 32 == 0 && (m - n) % 32 == 0
    ensures var r := Records(Records(st, bytes[..n], 0, stop), bytes[n..m], 0, stop);
      && r == Records(st, bytes[..m], 0, stop)
      && (r.done ==> r == Records(st, bytes, 0, stop))
  {
    ThreeParts(bytes, n, m);
    ScanSplit(st, bytes[..n], bytes[n..m], bytes[m..], stop);
  }

  lemma ScanSplit(st: Scan, a: seq<Byte>, sec: seq<Byte>, rest: seq<Byte>, stop: Dirent -> bool)
    requires |a| % 32 == 0 && |sec| % 32 == 0
    ensures var r := Records(Records(st, a, 0, stop), sec, 0, stop);
      && r == Records(st, a + sec, 0, stop)
      && (r.done ==> r == Records(st, a + sec + rest, 0, stop))
  {
    RecordsConcat(st, a, sec, 0, stop);
    RecordsConcat(st, a + sec, rest, 0, stop);
  }

  /** The records of one cluster, sector by sector. */
  method ScanCluster(fs: FatVolume, clus: U32, st: Scan, stop: Dirent -> bool) returns (ok: bool, r: Scan)
    requires OnDisk(fs.dev.image, fs.g) && ClusterValid(fs.g, clus) && !st.done
    ensures ok ==> r == Records(st, ClusterBytes(fs.dev.image, fs.g, clus), 0, stop)
    ensures fs.dev.reliable ==> ok
  {
    r := st;
    var s := 0;
    ghost var bytes := ClusterBytes(fs.dev.image, fs.g, clus);
    while s < fs.g.secPerClus
      invariant s <= fs.g.secPerClus && 0 <= Span(fs.g, s) <= |bytes|
      invariant r == Records(st, bytes[..Span(fs.g, s)], 0, stop)
    {
      SectorScanned(fs.dev.image, fs.g, clus, s, st, stop);
      var sec;
      ok, sec := fs.ReadFsSector(ClusterSector(fs.g, clus) + s);
      if !ok {
        return;
      }
      r := ScanSector(r, sec, stop);
      if r.done {
        return;
      }
      s := s + 1;
    }
    assert bytes[..|bytes|] == bytes;
    ok := true;
  }

  /** The hare's step, and the tortoise's when it is due. A 0 means the FAT could not be read. */
  method Step(fs: FatVolume, clus: U32, slow: U32, due: bool) returns (clus': U32, slow': U32)
    requires fs.Valid()
    modifies fs
    ensures fs.Valid() && fs.dirty == old(fs.dirty)
    ensures clus' != 0 ==> clus' == NextCluster(fs.dev.image, fs.g, clus)
    ensures fs.dev.reliable ==> clus' != 0 && (due ==> slow' != 0)
    ensures !due ==> slow' == slow
    ensures clus' != 0 && slow' != 0 ==> slow' == if due then NextCluster(fs.dev.image, fs.g, slow) else slow
  {
    slow' := slow;
    clus' := fs.Next(clus);
    if clus' != 0 && due {
      slow' := fs.Next(slow);
    }
  }

  const MORE: int := 1

  /** The walk as a function of the turn and the scan before it. */
  type Walker = (nat, Scan) -> Outcome

  function Walking(image: seq<Byte>, g: Geo, c: U32, visit: Visitor, limit: nat): Walker
    requires OnDisk(image, g)
  {
    (t: nat, st: Scan) => if t <= limit then WalkFrom(image, g, c, t, st, visit, limit) else Outcome(0, st.out, t)
  }

  /** One turn of the walk, unfolded. */
  lemma WalkTurn(image: seq<Byte>, g: Geo, c: U32, t: nat, st: Scan, visit: Visitor, limit: nat)
    requires OnDisk(image, g) && t < limit && ClusterValid(g, Nth(image, g, c, t))
    ensures var st' := visit(st, Nth(image, g, c, t));
      WalkFrom(image, g, c, t, st, visit, limit)
      == if st'.done then Outcome(0, st'.out, t + 1)
         else if Meets(image, g, c, t + 1) then Outcome(ECORRUPT, st'.out, t + 1)
         else WalkFrom(image, g, c, t + 1, st', visit, limit)
  {
  }

  /** The same for a turn that scans its cluster to `st'`; `met` says whether hare and tortoise then meet. */
  lemma TurnTaken(image: seq<Byte>, g: Geo, c: U32, t: nat, st: Scan, st': Scan, met: bool, stop: Dirent -> bool, limit: nat, walk: Walker)
    requires OnDisk(image, g) && t < limit && ClusterValid(g, Nth(image, g, c, t))
    requires walk == Walking(image, g, c, Visiting(image, g, stop), limit)
    requires st' == Records(st, ClusterBytes(image, g, Nth(image, g, c, t)), 0, stop)
    requires !st'.done ==> met == Meets(image, g, c, t + 1)
    ensures walk(t, st) == if st'.done then Outcome(0, st'.out, t + 1) else if met then Outcome(ECORRUPT, st'.out, t + 1) else walk(t + 1, st')
  {
    WalkTurn(image, g, c, t, st, Visiting(image, g, stop), limit);
  }

  /** With no cluster left, or no turn, the walk is over. */
  lemma WalkOver(image: seq<Byte>, g: Geo, c: U32, t: nat, st: Scan, visit: Visitor, limit: nat, walk: Walker)
    requires OnDisk(image, g) && t <= limit && (t == limit || !ClusterValid(g, Nth(image, g, c, t)))
    requires walk == Walking(image, g, c, visit, limit)
    ensures walk(t, st) == Outcome(if ClusterValid(g, Nth(image, g, c, t)) then ECORRUPT else 0, st.out, t)
  {
  }

  /** Where hare and tortoise stand before turn `t`. */
  predicate Abreast(image: seq<Byte>, g: Geo, c: U32, t: nat, odd: bool, clus: U32, slow: U32)
    requires OnDisk(image, g)
  {
    clus == Nth(image, g, c, t) && slow == Nth(image, g, c, t / 2) && odd == (t % 2 == 1)
  }

  /** Hare and tortoise moved and compared. */
  method Hop(fs: FatVolume, clus: U32, slow: U32, odd: bool, ghost c: U32, ghost t: nat, ghost image: seq<Byte>)
    returns (rc: int, clus': U32, slow': U32)
    requires fs.Valid() && fs.dev.image == image && Abreast(image, fs.g, c, t, odd, clus, slow) && slow != 0
    modifies fs
    ensures fs.Valid() && fs.dirty == old(fs.dirty) && (fs.dev.reliable ==> rc != EIO)
    ensures rc == MORE || rc == EIO || rc == ECORRUPT
    ensures rc != EIO ==> Abreast(image, fs.g, c, t + 1, !odd, clus', slow') && slow' != 0
    ensures rc != EIO ==> (rc == ECORRUPT) == Meets(image, fs.g, c, t + 1)
  {
    clus', slow' := Step(fs, clus, slow, odd);
    rc := if clus' == 0 || slow' == 0 then EIO
          else if ClusterValid(fs.g, clus') && clus' == slow' then ECORRUPT
          else MORE;
    assert (t + 1) / 2 == if odd then t / 2 + 1 else t / 2;
  }

  /** One turn of the walk: a cluster scanned, hare and tortoise moved and compared. */
  method Visit(fs: FatVolume, clus: U32, slow: U32, odd: bool, st: Scan, stop: Dirent -> bool,
               ghost c: U32, ghost t: nat, ghost image: seq<Byte>, ghost limit: nat, ghost walk: Walker)
    returns (rc: int, clus': U32, slow': U32, st': Scan)
    requires fs.Valid() && fs.dev.image == image && ClusterValid(fs.g, clus) && !st.done && slow != 0
    requires Abreast(image, fs.g, c, t, odd, clus, slow) && t < limit
    requires walk == Walking(image, fs.g, c, Visiting(image, fs.g, stop), limit)
    modifies fs
    ensures fs.Valid() && fs.dirty == old(fs.dirty) && (fs.dev.reliable ==> rc != EIO)
    ensures rc == MORE || rc == EIO || walk(t, st) == Outcome(rc, st'.out, t + 1)
    ensures rc == MORE ==> slow' != 0 && !st'.done && Abreast(image, fs.g, c, t + 1, !odd, clus', slow')
    ensures rc == MORE ==> walk(t, st) == walk(t + 1, st')
  {
    var ok;
    clus', slow' := clus, slow;
    ok, st' := ScanCluster(fs, clus, st, stop);
    if !ok {
      return EIO, clus', slow', st';
    }
    if st'.done {
      TurnTaken(image, fs.g, c, t, st, st', false, stop, limit, walk);
      return 0, clus', slow', st';
    }
    rc, clus', slow' := Hop(fs, clus, slow, odd, c, t, image);
    if rc != EIO {
      TurnTaken(image, fs.g, c, t, st, st', rc == ECORRUPT, stop, limit, walk);
    }
  }

  /** Whatever the chain, every entry a walk delivers says what its record was written to say. */
  lemma {:induction false} WalkTold(image: seq<Byte>, g: Geo, c: U32, t: nat, st: Scan, stop: Dirent -> bool, limit: nat)
    requires OnDisk(image, g) && t <= limit && AllTold(st.out)
    ensures AllTold(WalkFrom(image, g, c, t, st, Visiting(image, g, stop), limit).out)
    decreases limit - t
  {
    hide AllTold, ClusterBytes;
    var clus := Nth(image, g, c, t);
    if ClusterValid(g, clus) && t < limit {
      var st' := Visiting(image, g, stop)(st, clus);
      RecordsTold(st, ClusterBytes(image, g, clus), 0, stop);
      WalkTold(image, g, c, t + 1, st', stop, limit);
    }
  }

  /** A folder is walked to its end unless it takes more than 4096 clusters or, without its last, more than 4 MiB. */
  lemma LimitExactly(g: Geo, n: nat)
    requires n > 0
    ensures n <= WalkLimit(g) <==> n <= 4096 && (n - 1) * g.clusBytes <= 4 * 1024 * 1024
  {
    QuotientAtLeast(4 * 1024 * 1024, g.clusBytes, n - 1);
  }

  /** The walk. Apart from read errors, its outcome is a function of the disk. */
  method ReadDir(fs: FatVolume, dirClus: U32, stop: Dirent -> bool)
    returns (rc: int, out: seq<Dirent>, ghost t: nat)
    requires fs.Valid()
    modifies fs
    ensures fs.Valid() && fs.dirty == old(fs.dirty) && (fs.dev.reliable ==> rc != EIO)
    ensures rc != EIO ==>
      Outcome(rc, out, t) == WalkFrom(fs.dev.image, fs.g, dirClus, 0, Start(), Visiting(fs.dev.image, fs.g, stop), WalkLimit(fs.g))
    ensures rc != EIO ==> AllTold(out)
  {
    hide AllTold, WalkFrom;
    NoneTold();
    WalkTold(fs.dev.image, fs.g, dirClus, 0, Start(), stop, WalkLimit(fs.g));
    ghost var visit := Visiting(fs.dev.image, fs.g, stop);
    rc, out, t := Walk(fs, dirClus, stop, WalkLimit(fs.g), fs.dev.image, Walking(fs.dev.image, fs.g, dirClus, visit, WalkLimit(fs.g)));
  }

  /** The loop over the clusters, at most `limit` of them. */
  method Walk(fs: FatVolume, dirClus: U32, stop: Dirent -> bool, limit: nat, ghost image: seq<Byte>, ghost walk: Walker)
    returns (rc: int, out: seq<Dirent>, ghost t: nat)
    requires fs.Valid() && fs.dev.image == image && walk == Walking(image, fs.g, dirClus, Visiting(image, fs.g, stop), limit)
    modifies fs
    ensures fs.Valid() && fs.dirty == old(fs.dirty) && (fs.dev.reliable ==> rc != EIO)
    ensures rc != EIO ==> Outcome(rc, out, t) == walk(0, Start())
  {
    var clus, slow := dirClus, dirClus;
    var guard, odd, st := limit, false, Start();
    t := 0;
    while ClusterValid(fs.g, clus)
      invariant fs.Valid() && fs.dirty == old(fs.dirty)
      invariant t + guard == limit && !st.done && Abreast(image, fs.g, dirClus, t, odd, clus, slow)
      invariant ClusterValid(fs.g, clus) ==> slow != 0
      invariant walk(0, Start()) == walk(t, st)
      decreases guard
    {
      if guard == 0 {
        WalkOver(image, fs.g, dirClus, t, st, Visiting(image, fs.g, stop), limit, walk);
        return ECORRUPT, st.out, t;
      }
      guard := guard - 1;
      rc, clus, slow, st := Visit(fs, clus, slow, odd, st, stop, dirClus, t, image, limit, walk);
      t, odd := t + 1, !odd;
      if rc != MORE {
        return rc, st.out, t;
      }
    }
    WalkOver(image, fs.g, dirClus, t, st, Visiting(image, fs.g, stop), limit, walk);
    rc, out := 0, st.out;
  }
}
