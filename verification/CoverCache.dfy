/** The cover cache as it runs: tables updated in place, covers read from disk, pixels always the registered ones. */
module CoverCache {
  import opened Words
  import opened Volume
  import opened Fat32
  import opened FatStream
  import opened Options
  import opened ArtCache
  import opened ArtProgress

  // ---- what a cover on disk is ------------------------------------------------------------

  /** Shrinks `w` by `h` pixels to a chip; how it averages is not modelled. */
  type Thumb = (nat, nat, seq<Byte>) -> seq<Byte>

  /** Reading up to `size` bytes of the file at `clus` gives `bytes`. */
  ghost predicate ReadsAs(image: seq<Byte>, g: Geo, clus: U32, size: nat, bytes: seq<Byte>)
    requires OnDisk(image, g)
  {
    exists m: nat :: Delivered(bytes, image, g, clus, m, 0) && |bytes| <= size && EndsThere(image, g, clus, size, bytes, m)
  }

  predicate EndsThere(image: seq<Byte>, g: Geo, clus: U32, size: nat, bytes: seq<Byte>, m: nat)
    requires OnDisk(image, g)
  {
    |bytes| == size || (!ClusterValid(g, Nth(image, g, clus, m)) && AllValid(image, g, clus, m)
                        && |bytes| == |ChainBytes(image, g, clus, m)|)
  }

  /** "CART", then a version, width and height, and enough pixels for them. */
  predicate GoodSidecar(b: seq<Byte>)
  {
    && |b| >= HDR_LEN && b[0] == 0x43 && b[1] == 0x41 && b[2] == 0x52 && b[3] == 0x54
    && 0 < Rd16(b, 6) <= MAX_DIM && 0 < Rd16(b, 8) <= MAX_DIM
    && HDR_LEN + PixelBytes(Rd16(b, 6), Rd16(b, 8)) <= |b|
  }

  function PixelBytes(w: nat, h: nat): nat
  {
    w * h * 2
  }

  function Chip(b: seq<Byte>, thumb: Thumb): seq<Byte>
    requires GoodSidecar(b)
  {
    thumb(Rd16(b, 6), Rd16(b, 8), b[HDR_LEN..HDR_LEN + PixelBytes(Rd16(b, 6), Rd16(b, 8))])
  }

  /** The file is a sidecar, of a size the staging buffer takes, that decodes to `px`. */
  ghost predicate Cover(image: seq<Byte>, g: Geo, thumb: Thumb, clus: U32, size: nat, px: seq<Byte>)
    requires OnDisk(image, g)
  {
    && clus != 0 && HDR_LEN <= size <= SCRATCH_SZ
    && exists b: seq<Byte> :: ReadsAs(image, g, clus, size, b) && GoodSidecar(b) && px == Chip(b, thumb)
  }

  /** Nothing is registered there, or the file is no sidecar. */
  ghost predicate NoCover(image: seq<Byte>, g: Geo, clus: U32, size: nat)
    requires OnDisk(image, g)
  {
    clus == 0 || size < HDR_LEN || size > SCRATCH_SZ
    || exists b: seq<Byte> :: ReadsAs(image, g, clus, size, b) && !GoodSidecar(b)
  }

  /** The small sidecar's pixels if it is one, else the large one's. */
  ghost predicate Shows(image: seq<Byte>, g: Geo, thumb: Thumb, al: Album, px: seq<Byte>)
    requires OnDisk(image, g)
  {
    || Cover(image, g, thumb, al.thmClus, al.thmSize, px)
    || (NoCover(image, g, al.thmClus, al.thmSize) && Cover(image, g, thumb, al.artClus, al.artSize, px))
  }

  /** A sidecar is written as its mark, a version, width, height, a spare word and the pixels, two bytes each. */
  predicate WrittenCover(b: seq<Byte>, version: U16, w: U16, h: U16, spare: U16, px: seq<Byte>, rest: seq<Byte>)
  {
    && |px| == 2 * (w as nat * h as nat)
    && b == [0x43, 0x41, 0x52, 0x54] + Le16(version) + Le16(w) + Le16(h) + Le16(spare) + px + rest
  }

  lemma CoverFields(b: seq<Byte>, version: U16, w: U16, h: U16, spare: U16, px: seq<Byte>, rest: seq<Byte>)
    requires WrittenCover(b, version, w, h, spare, px, rest)
    ensures |b| == 12 + |px| + |rest| && b[..4] == [0x43, 0x41, 0x52, 0x54] && b[12..12 + |px|] == px
    ensures Rd16(b, 6) == w && Rd16(b, 8) == h && |px| == PixelBytes(w, h)
  {
    hide Rd16, Le16;
    assert b[6..8] == Le16(w) && b[8..10] == Le16(h);
    Le16RoundTrip(b, 6, w);
    Le16RoundTrip(b, 8, h);
  }

  /** It is taken for a cover exactly when both sides are from 1 to 120, and shows those pixels. */
  lemma CoverReadBack(b: seq<Byte>, version: U16, w: U16, h: U16, spare: U16, px: seq<Byte>, rest: seq<Byte>, thumb: Thumb)
    requires WrittenCover(b, version, w, h, spare, px, rest)
    ensures GoodSidecar(b) <==> 1 <= w <= 120 && 1 <= h <= 120
    ensures GoodSidecar(b) ==> Chip(b, thumb) == thumb(w, h, px)
  {
    hide Rd16, Le16, WrittenCover;
    CoverFields(b, version, w, h, spare, px, rest);
    assert b[0] == b[..4][0] && b[1] == b[..4][1] && b[2] == b[..4][2] && b[3] == b[..4][3];
  }

  /** And nothing is that was not written so. */
  lemma CoverWasWritten(b: seq<Byte>) returns (version: U16, w: U16, h: U16, spare: U16, px: seq<Byte>, rest: seq<Byte>)
    requires GoodSidecar(b)
    ensures WrittenCover(b, version, w, h, spare, px, rest)
  {
    version, w, h, spare := Rd16(b, 4), Rd16(b, 6), Rd16(b, 8), Rd16(b, 10);
    Le16Back(b, 4);
    Le16Back(b, 6);
    Le16Back(b, 8);
    Le16Back(b, 10);
    Pieces(b, HDR_LEN + PixelBytes(w, h));
    px, rest := b[12..12 + PixelBytes(w, h)], b[12 + PixelBytes(w, h)..];
  }

  lemma Pieces(b: seq<Byte>, n: nat)
    requires 12 <= n <= |b| && b[0] == 0x43 && b[1] == 0x41 && b[2] == 0x52 && b[3] == 0x54
    ensures b == [0x43, 0x41, 0x52, 0x54] + b[4..6] + b[6..8] + b[8..10] + b[10..12] + b[12..n] + b[n..]
  {
  }

  /** A chain that cannot be read whatever the disk does: no valid cluster, or more of them than the volume has. */
  predicate Broken(image: seq<Byte>, g: Geo, clus: U32)
    requires OnDisk(image, g)
  {
    clus != 0 && (!ClusterValid(g, clus) || AllValid(image, g, clus, g.maxClus))
  }

  /** What the outcome of loading an album's cover says about its sidecars. */
  ghost predicate Explains(load: Load, image: seq<Byte>, g: Geo, thumb: Thumb, reliable: bool, al: Album)
    requires OnDisk(image, g)
  {
    match load
    case Pixels(px) => Shows(image, g, thumb, al, px)
    case Absent => NoCover(image, g, al.thmClus, al.thmSize) && NoCover(image, g, al.artClus, al.artSize)
    case Unreadable => !reliable || Broken(image, g, al.thmClus) || Broken(image, g, al.artClus)
  }

  // ---- the disk decides what a row shows ------------------------------------------------------

  /** Reading a file can give only one sequence of bytes. */
  lemma ReadsAsOne(image: seq<Byte>, g: Geo, clus: U32, size: nat, x: seq<Byte>, y: seq<Byte>)
    requires OnDisk(image, g) && ReadsAs(image, g, clus, size, x) && ReadsAs(image, g, clus, size, y)
    ensures x == y
  {
    var m: nat :| Delivered(x, image, g, clus, m, 0) && EndsThere(image, g, clus, size, x, m);
    var n: nat :| Delivered(y, image, g, clus, n, 0) && EndsThere(image, g, clus, size, y, n);
    if m <= n {
      OneReading(image, g, clus, size, x, m, y, n);
    } else {
      OneReading(image, g, clus, size, y, n, x, m);
    }
  }

  lemma OneReading(image: seq<Byte>, g: Geo, clus: U32, size: nat, x: seq<Byte>, m: nat, y: seq<Byte>, n: nat)
    requires OnDisk(image, g) && m <= n && |x| <= size && |y| <= size
    requires Delivered(x, image, g, clus, m, 0) && EndsThere(image, g, clus, size, x, m)
    requires Delivered(y, image, g, clus, n, 0) && EndsThere(image, g, clus, size, y, n)
    ensures x == y
  {
    ChainBytesPrefix(image, g, clus, m, n);
    if |x| < size {
      assert !ClusterValid(g, Nth(image, g, clus, m));
      assert m == n;
    }
  }

  /** A file that is a cover is not none, and is one cover only. */
  lemma CoverIsOne(image: seq<Byte>, g: Geo, thumb: Thumb, clus: U32, size: nat, px: seq<Byte>)
    requires OnDisk(image, g) && Cover(image, g, thumb, clus, size, px)
    ensures !NoCover(image, g, clus, size)
    ensures forall qx: seq<Byte> :: Cover(image, g, thumb, clus, size, qx) ==> qx == px
  {
    var b: seq<Byte> :| ReadsAs(image, g, clus, size, b) && GoodSidecar(b) && px == Chip(b, thumb);
    forall d: seq<Byte> | ReadsAs(image, g, clus, size, d)
      ensures d == b
    {
      ReadsAsOne(image, g, clus, size, b, d);
    }
  }

  /** What an album shows is determined by the disk. */
  lemma ShowsOne(image: seq<Byte>, g: Geo, thumb: Thumb, al: Album, px: seq<Byte>, qx: seq<Byte>)
    requires OnDisk(image, g) && Shows(image, g, thumb, al, px) && Shows(image, g, thumb, al, qx)
    ensures px == qx
  {
    if Cover(image, g, thumb, al.thmClus, al.thmSize, px) {
      CoverIsOne(image, g, thumb, al.thmClus, al.thmSize, px);
    } else if Cover(image, g, thumb, al.thmClus, al.thmSize, qx) {
      CoverIsOne(image, g, thumb, al.thmClus, al.thmSize, qx);
    } else {
      CoverIsOne(image, g, thumb, al.artClus, al.artSize, px);
    }
  }

  // ---- what every operation keeps ---------------------------------------------------------------

  /** Every decoded cover is one its album's registered sidecars give. */
  ghost predicate Coherent(c: Cache, image: seq<Byte>, g: Geo, thumb: Thumb)
    requires OnDisk(image, g) && Valid(c)
  {
    forall i :: 0 <= i < WAYS && c.way[i].state == Loaded ==> Shows(image, g, thumb, c.album[c.way[i].key], c.way[i].px)
  }

  /** A verdict of "no cover" is true, unless the disk could not be read or a chain is broken. */
  ghost predicate TrueVerdict(image: seq<Byte>, g: Geo, reliable: bool, al: Album)
    requires OnDisk(image, g)
  {
    reliable && !Broken(image, g, al.thmClus) && !Broken(image, g, al.artClus) ==>
      NoCover(image, g, al.thmClus, al.thmSize) && NoCover(image, g, al.artClus, al.artSize)
  }

  ghost predicate Honest(c: Cache, image: seq<Byte>, g: Geo, reliable: bool)
    requires OnDisk(image, g) && Valid(c)
  {
    forall k :: 0 <= k < SLOTS && c.noart[k] ==> TrueVerdict(image, g, reliable, c.album[k])
  }

  /** The album's sidecars keep clear of the cluster rewritten behind the caches. */
  ghost predicate Clear(image: seq<Byte>, g: Geo, dirty: nat, al: Album)
    requires OnDisk(image, g)
  {
    && (al.thmClus != 0 ==> Avoids(image, g, al.thmClus, dirty))
    && (al.artClus != 0 ==> Avoids(image, g, al.artClus, dirty))
  }

  ghost predicate AllClear(c: Cache, image: seq<Byte>, g: Geo, dirty: nat)
    requires OnDisk(image, g) && Valid(c)
  {
    forall k :: 0 <= k < SLOTS ==> Clear(image, g, dirty, c.album[k])
  }

  /** The album a registration asks for. */
  function Asked(thmClus: U32, thmSize: U32, artClus: U32, artSize: U32): Album
  {
    var t, a := Usable(thmClus, thmSize), Usable(artClus, artSize);
    Album(t.0, t.1, a.0, a.1)
  }

  /**
   * What a registration shows: the small sidecar when it is a cover, else the large one
   * when the small one is known to be none.
   */
  lemma AskedShows(image: seq<Byte>, g: Geo, thumb: Thumb, tc: U32, ts: U32, ac: U32, az: U32, px: seq<Byte>)
    requires OnDisk(image, g)
    ensures Shows(image, g, thumb, Asked(tc, ts, ac, az), px) <==>
      || Cover(image, g, thumb, tc, ts, px)
      || (NoCover(image, g, tc, ts) && Cover(image, g, thumb, ac, az, px))
  {
  }

  lemma QueueKeeps(c: Cache, idx: int, tc: U32, ts: U32, ac: U32, az: U32, image: seq<Byte>, g: Geo, thumb: Thumb, reliable: bool)
    requires OnDisk(image, g) && Valid(c) && Coherent(c, image, g, thumb) && Honest(c, image, g, reliable)
    ensures var d := Queue(c, idx, tc, ts, ac, az); Valid(d) && Coherent(d, image, g, thumb) && Honest(d, image, g, reliable)
  {
    QueueValid(c, idx, tc, ts, ac, az);
    var d := Queue(c, idx, tc, ts, ac, az);
    forall i | 0 <= i < WAYS && d.way[i].state == Loaded
      ensures d.album[d.way[i].key] == c.album[c.way[i].key] && d.way[i] == c.way[i]
    {
    }
    forall k | 0 <= k < SLOTS && d.noart[k]
      ensures c.noart[k] && d.album[k] == c.album[k]
    {
    }
  }

  lemma QueueClear(c: Cache, idx: int, tc: U32, ts: U32, ac: U32, az: U32, image: seq<Byte>, g: Geo, dirty: nat)
    requires OnDisk(image, g) && Valid(c) && AllClear(c, image, g, dirty) && Clear(image, g, dirty, Asked(tc, ts, ac, az))
    ensures var d := Queue(c, idx, tc, ts, ac, az); Valid(d) && AllClear(d, image, g, dirty)
  {
    QueueValid(c, idx, tc, ts, ac, az);
  }

  lemma GetKeepsCovers(c: Cache, idx: int, image: seq<Byte>, g: Geo, thumb: Thumb)
    requires OnDisk(image, g) && Valid(c) && Coherent(c, image, g, thumb)
    ensures var d := Get(c, idx); Valid(d) && Coherent(d, image, g, thumb) && d.album == c.album && d.noart == c.noart
  {
    GetValid(c, idx);
    var d := Get(c, idx);
    forall i | 0 <= i < WAYS && d.way[i].state == Loaded
      ensures c.way[i].state == Loaded && d.way[i].key == c.way[i].key && d.way[i].px == c.way[i].px
    {
    }
  }

  lemma PumpCoherent(c: Cache, load: Load, image: seq<Byte>, g: Geo, thumb: Thumb)
    requires OnDisk(image, g) && Valid(c) && Coherent(c, image, g, thumb)
    requires load.Pixels? && Oldest(c.way) >= 0 ==> Shows(image, g, thumb, c.album[c.way[Oldest(c.way)].key], load.px)
    ensures Valid(Pump(c, load)) && Coherent(Pump(c, load), image, g, thumb) && Pump(c, load).album == c.album
  {
    PumpValid(c, load);
    var d := Pump(c, load);
    forall i | 0 <= i < WAYS && d.way[i].state == Loaded && i != Oldest(c.way)
      ensures d.way[i] == c.way[i]
    {
    }
  }

  lemma PumpHonest(c: Cache, load: Load, image: seq<Byte>, g: Geo, thumb: Thumb, reliable: bool)
    requires OnDisk(image, g) && Valid(c) && Honest(c, image, g, reliable)
    requires Oldest(c.way) >= 0 ==> Explains(load, image, g, thumb, reliable, c.album[c.way[Oldest(c.way)].key])
    ensures Valid(Pump(c, load)) && Honest(Pump(c, load), image, g, reliable)
  {
    PumpValid(c, load);
    var d := Pump(c, load);
    forall k | 0 <= k < SLOTS && d.noart[k]
      ensures TrueVerdict(image, g, reliable, d.album[k])
    {
    }
  }

  /** So the pixels a row is given are those of the sidecars registered for it now. */
  lemma PeekShows(c: Cache, idx: int, image: seq<Byte>, g: Geo, thumb: Thumb)
    requires OnDisk(image, g) && Valid(c) && Coherent(c, image, g, thumb) && Peek(c, idx).Some?
    ensures 0 <= idx < SLOTS && Shows(image, g, thumb, c.album[idx], Peek(c, idx).value)
  {
  }

  /** A settled row whose sidecars can be read and hold a cover shows that cover. */
  lemma SettledShows(c: Cache, v: nat, image: seq<Byte>, g: Geo, thumb: Thumb, px: seq<Byte>)
    requires OnDisk(image, g) && Valid(c) && v < SLOTS && Settled(c, v)
    requires Coherent(c, image, g, thumb) && Honest(c, image, g, true)
    requires !Broken(image, g, c.album[v].thmClus) && !Broken(image, g, c.album[v].artClus)
    requires Shows(image, g, thumb, c.album[v], px)
    ensures Peek(c, v) == Some(px)
  {
    var al := c.album[v];
    if Cover(image, g, thumb, al.thmClus, al.thmSize, px) {
      CoverIsOne(image, g, thumb, al.thmClus, al.thmSize, px);
    } else {
      CoverIsOne(image, g, thumb, al.artClus, al.artSize, px);
    }
    assert c.noart[v] ==> TrueVerdict(image, g, true, al);
    assert Registered(al);
    PeekShows(c, v, image, g, thumb);
    ShowsOne(image, g, thumb, al, px, Peek(c, v).value);
  }

  // ---- the cache ------------------------------------------------------------------------------

  class CoverCache {
    const album: array<Album>
    const noart: array<bool>
    const retried: array<bool>
    const way: array<Way>
    const scratch: array<Byte>
    const thumb: Thumb
    var clock: U32

    ghost function State(): Cache
      reads this, album, noart, retried, way
    {
      Cache(album[..], noart[..], retried[..], way[..], clock)
    }

    ghost predicate Ready()
      reads this, album, noart, retried, way
    {
      Valid(State()) && noart != retried && scratch.Length == SCRATCH_SZ
    }

    /** What holds between any two calls, for the volume the covers are read from. */
    ghost predicate Sane(fs: FatVolume)
      reads this, album, noart, retried, way, fs, fs.dev
    {
      && Ready() && fs.Valid()
      && Coherent(State(), fs.dev.image, fs.g, thumb) && Honest(State(), fs.dev.image, fs.g, fs.dev.reliable)
      && AllClear(State(), fs.dev.image, fs.g, fs.dirty)
    }

    constructor (shrink: Thumb, ghost fs: FatVolume)
      requires fs.Valid()
      ensures Sane(fs) && Sound(State()) && State() == Reset([]) && thumb == shrink
      ensures fresh(album) && fresh(noart) && fresh(retried) && fresh(way) && fresh(scratch)
    {
      album := new Album[SLOTS](i => Album(0, 0, 0, 0));
      noart := new bool[SLOTS](i => false);
      retried := new bool[SLOTS](i => false);
      way := new Way[WAYS](i => Way(0, -1, Empty, []));
      scratch := new Byte[SCRATCH_SZ](i => 0);
      thumb, clock := shrink, 0;
      new;
      assert State() == Reset([]);
      ResetSound([]);
    }

    method FindWay(idx: int) returns (w: int)
      requires Ready()
      ensures w == Find(way[..], idx)
    {
      w := -1;
      var i := 0;
      while i < way.Length
        invariant i <= way.Length && w == -1 && FindFrom(way[..], idx, i) == Find(way[..], idx)
      {
        if way[i].key == idx && way[i].state != Empty {
          return i;
        }
        i := i + 1;
      }
    }

    method VictimWay() returns (v: nat)
      requires Ready()
      ensures v == Victim(way[..])
    {
      v := 0;
      var i := 0;
      while i < way.Length
        invariant i <= way.Length && v < way.Length && VictimFrom(way[..], i, v) == Victim(way[..])
      {
        if way[i].key < 0 {
          return i;
        }
        if way[i].stamp < way[v].stamp {
          v := i;
        }
        i := i + 1;
      }
    }

    method OldestWay() returns (p: int)
      requires Ready()
      ensures p == Oldest(way[..])
    {
      p := -1;
      var i := 0;
      while i < way.Length
        invariant i <= way.Length && -1 <= p < way.Length && (p >= 0 ==> way[p].state == Queued)
        invariant OldestFrom(way[..], i, p) == Oldest(way[..])
      {
        if way[i].state == Queued {
          if p < 0 || way[i].stamp < way[p].stamp {
            p := i;
          }
        }
        i := i + 1;
      }
    }

    /** Register where an album's cover lives; different sidecars drop the pixels and the verdict. */
    method Register(idx: int, thmClus: U32, thmSize: U32, artClus: U32, artSize: U32, ghost fs: FatVolume)
      requires Sane(fs) && Clear(fs.dev.image, fs.g, fs.dirty, Asked(thmClus, thmSize, artClus, artSize))
      modifies album, noart, retried, way
      ensures Sane(fs) && (old(Sound(State())) ==> Sound(State()))
      ensures State() == Queue(old(State()), idx, thmClus, thmSize, artClus, artSize)
    {
      ghost var c := State();
      Store(idx, thmClus, thmSize, artClus, artSize);
      QueueKeeps(c, idx, thmClus, thmSize, artClus, artSize, fs.dev.image, fs.g, thumb, fs.dev.reliable);
      QueueClear(c, idx, thmClus, thmSize, artClus, artSize, fs.dev.image, fs.g, fs.dirty);
      if Sound(c) {
        QueueSound(c, idx, thmClus, thmSize, artClus, artSize);
      }
    }

    method Store(idx: int, thmClus: U32, thmSize: U32, artClus: U32, artSize: U32)
      requires Ready()
      modifies album, noart, retried, way
      ensures Ready() && State() == Queue(old(State()), idx, thmClus, thmSize, artClus, artSize)
    {
      QueueValid(State(), idx, thmClus, thmSize, artClus, artSize);
      if idx < 0 || idx >= SLOTS {
        return;
      }
      var t, a := Usable(thmClus, thmSize), Usable(artClus, artSize);
      var al := Album(t.0, t.1, a.0, a.1);
      if album[idx] == al {
        return;
      }
      var w := FindWay(idx);
      album[idx] := al;
      noart[idx] := false;
      retried[idx] := false;
      if w >= 0 {
        way[w] := Freed(way[w]);
      }
    }

    method PeekAt(idx: int, ghost fs: FatVolume) returns (px: Option<seq<Byte>>)
      requires Sane(fs)
      ensures px == Peek(State(), idx)
      ensures px.Some? ==> 0 <= idx < SLOTS && Shows(fs.dev.image, fs.g, thumb, State().album[idx], px.value)
    {
      if Peek(State(), idx).Some? {
        PeekShows(State(), idx, fs.dev.image, fs.g, thumb);
      }
      if idx < 0 || idx >= SLOTS {
        return None;
      }
      var w := FindWay(idx);
      px := if w >= 0 && way[w].state == Loaded then Some(way[w].px) else None;
    }

    /** The cover if it is there; and either way the album is on screen now, with a way claimed for it. */
    method Draw(idx: int, ghost fs: FatVolume) returns (px: Option<seq<Byte>>)
      requires Sane(fs)
      modifies `clock, way
      ensures Sane(fs) && (old(Sound(State())) && old(clock) + 1 < TWO32 ==> Sound(State()))
      ensures State() == Get(old(State()), idx) && px == Peek(old(State()), idx)
      ensures px.Some? ==> 0 <= idx < SLOTS && Shows(fs.dev.image, fs.g, thumb, State().album[idx], px.value)
    {
      ghost var c := State();
      px := Touch(idx);
      GetKeepsCovers(c, idx, fs.dev.image, fs.g, thumb);
      if Sound(c) && c.clock + 1 < TWO32 {
        GetSound(c, idx);
      }
      if px.Some? {
        PeekShows(c, idx, fs.dev.image, fs.g, thumb);
      }
    }

    method Touch(idx: int) returns (px: Option<seq<Byte>>)
      requires Ready()
      modifies `clock, way
      ensures Ready() && State() == Get(old(State()), idx) && px == Peek(old(State()), idx)
    {
      GetValid(State(), idx);
      px := None;
      if idx < 0 || idx >= SLOTS {
        return;
      }
      var w := FindWay(idx);
      if w >= 0 {
        px := if way[w].state == Loaded then Some(way[w].px) else None;
        clock := Wrap32(clock + 1);
        way[w] := way[w].(stamp := clock);
        return;
      }
      if noart[idx] || !Registered(album[idx]) {
        return;
      }
      var v := VictimWay();
      clock := Wrap32(clock + 1);
      way[v] := way[v].(key := idx, state := Queued, stamp := clock);
    }

    /** Read and validate one sidecar into the staging buffer. */
    method LoadOne(fs: FatVolume, clus: U32, size: nat) returns (load: Load)
      requires fs.Valid() && scratch.Length == SCRATCH_SZ && (clus != 0 ==> Avoids(fs.dev.image, fs.g, clus, fs.dirty))
      modifies fs, scratch
      ensures fs.Valid() && fs.dirty == old(fs.dirty)
      ensures load.Pixels? ==> Cover(fs.dev.image, fs.g, thumb, clus, size, load.px)
      ensures load.Absent? ==> NoCover(fs.dev.image, fs.g, clus, size)
      ensures load.Unreadable? ==> !fs.dev.reliable || Broken(fs.dev.image, fs.g, clus)
    {
      if clus == 0 || size < HDR_LEN || size > SCRATCH_SZ {
        return Absent;
      }
      ghost var m;
      var n;
      n, m := ReadFile(fs, clus, scratch, size);
      if n < 0 {
        return Unreadable;
      }
      var b := scratch[..n];
      assert EndsThere(fs.dev.image, fs.g, clus, size, b, m);
      assert ReadsAs(fs.dev.image, fs.g, clus, size, b);
      if !GoodSidecar(b) {
        return Absent;
      }
      load := Pixels(Chip(b, thumb));
    }

    /** Prefer the small sidecar; fall back to the large one only when there is definitely no small one. */
    method LoadAlbum(fs: FatVolume, al: Album) returns (load: Load)
      requires fs.Valid() && scratch.Length == SCRATCH_SZ && Clear(fs.dev.image, fs.g, fs.dirty, al)
      modifies fs, scratch
      ensures fs.Valid() && fs.dirty == old(fs.dirty)
      ensures Explains(load, fs.dev.image, fs.g, thumb, fs.dev.reliable, al)
    {
      load := LoadOne(fs, al.thmClus, al.thmSize);
      if load.Absent? {
        load := LoadOne(fs, al.artClus, al.artSize);
      }
    }

    /** At most one cover's worth of loading: the oldest request first. */
    method PumpOne(fs: FatVolume) returns (worked: bool, ghost load: Load)
      requires Sane(fs)
      modifies fs, scratch, way, noart, retried
      ensures Sane(fs) && fs.dirty == old(fs.dirty) && (old(Sound(State())) ==> Sound(State()))
      ensures State() == Pump(old(State()), load)
      ensures worked == (Oldest(old(way[..])) >= 0)
      ensures worked ==> Explains(load, fs.dev.image, fs.g, thumb, fs.dev.reliable, album[old(way[Oldest(way[..])].key)])
    {
      var p := OldestWay();
      load := Absent;
      if p < 0 {
        return false, load;
      }
      ghost var c := State();
      var key := way[p].key;
      var got := LoadAlbum(fs, album[key]);
      load := got;
      assert State() == c;
      PumpCoherent(c, load, fs.dev.image, fs.g, thumb);
      PumpHonest(c, load, fs.dev.image, fs.g, thumb, fs.dev.reliable);
      Settle(p, got);
      if Sound(c) {
        PumpSound(c, load);
      }
      worked := true;
    }

    /** Record what became of the request in way `p`. */
    method Settle(p: nat, got: Load)
      requires Ready() && p == Oldest(way[..])
      modifies way, noart, retried
      ensures Ready() && State() == Pump(old(State()), got)
    {
      PumpValid(State(), got);
      if got.Pixels? {
        way[p] := way[p].(state := Loaded, px := got.px);
        return;
      }
      var key := way[p].key;
      way[p] := Freed(way[p]);
      if got.Unreadable? && !retried[key] {
        retried[key] := true;
        return;
      }
      noart[key] := true;
    }
  }
}
