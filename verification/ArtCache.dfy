/** The cover cache: a directory of sidecars, sixteen decoded covers, and the least recently drawn evicted. */
module ArtCache {
  import opened Words
  import opened Options

  const SLOTS: nat := 1024
  const WAYS: nat := 16
  const HDR_LEN: nat := 12
  const MAX_DIM: nat := 120
  const SCRATCH_SZ: nat := 12 + 120 * 120 * 2

  datatype Album = Album(thmClus: U32, thmSize: nat, artClus: U32, artSize: nat)

  datatype Status = Empty | Queued | Loaded

  datatype Way = Way(stamp: U32, key: int, state: Status, px: seq<Byte>)

  datatype Cache = Cache(album: seq<Album>, noart: seq<bool>, retried: seq<bool>, way: seq<Way>, clock: U32)

  /** Nothing is registered for an album with no cluster at all. */
  predicate Registered(al: Album)
  {
    al.thmClus != 0 || al.artClus != 0
  }

  predicate Live(w: Way)
  {
    w.state != Empty
  }

  /** The tables have their sizes, live ways hold albums, and no album is held twice. */
  ghost predicate Valid(c: Cache)
  {
    && |c.album| == SLOTS && |c.noart| == SLOTS && |c.retried| == SLOTS && |c.way| == WAYS
    && (forall i :: 0 <= i < WAYS ==> if Live(c.way[i]) then 0 <= c.way[i].key < SLOTS else c.way[i].key == -1)
    && (forall i, j :: 0 <= i < j < WAYS && Live(c.way[i]) && Live(c.way[j]) ==> c.way[i].key != c.way[j].key)
  }

  // ---- the operations on values -------------------------------------------------------

  function Reset(pixels: seq<Byte>): Cache
  {
    Cache(seq(SLOTS, i => Album(0, 0, 0, 0)), seq(SLOTS, i => false), seq(SLOTS, i => false),
          seq(WAYS, i => Way(0, -1, Empty, pixels)), 0)
  }

  /** The first way from the `i`-th on that holds the album, or -1. */
  function FindFrom(way: seq<Way>, idx: int, i: nat): (r: int)
    requires i <= |way|
    ensures -1 <= r < |way|
    ensures r >= 0 ==> i <= r && way[r].key == idx && Live(way[r])
    ensures r < 0 ==> forall j :: i <= j < |way| ==> !(way[j].key == idx && Live(way[j]))
    decreases |way| - i
  {
    if i == |way| then -1
    else if way[i].key == idx && Live(way[i]) then i
    else FindFrom(way, idx, i + 1)
  }

  function Find(way: seq<Way>, idx: int): (r: int)
    ensures -1 <= r < |way|
    ensures r >= 0 ==> way[r].key == idx && Live(way[r])
    ensures r < 0 ==> forall j :: 0 <= j < |way| ==> !(way[j].key == idx && Live(way[j]))
  {
    FindFrom(way, idx, 0)
  }

  /** The way to give up: the first unused one, else the one drawn longest ago. */
  function VictimFrom(way: seq<Way>, i: nat, best: nat): (v: nat)
    requires i <= |way| && best < |way|
    ensures v < |way|
    ensures (way[v].key < 0 && v >= i) || way[v].stamp <= way[best].stamp
    ensures way[v].key < 0 || forall j :: i <= j < |way| ==> way[j].key >= 0 && way[v].stamp <= way[j].stamp
    decreases |way| - i
  {
    if i == |way| then best
    else if way[i].key < 0 then i
    else VictimFrom(way, i + 1, if way[i].stamp < way[best].stamp then i else best)
  }

  function Victim(way: seq<Way>): (v: nat)
    requires |way| > 0
    ensures v < |way| && (way[v].key < 0 || forall j :: 0 <= j < |way| ==> way[j].key >= 0 && way[v].stamp <= way[j].stamp)
  {
    VictimFrom(way, 0, 0)
  }

  /** The waiting way with the oldest stamp, or -1. */
  function OldestFrom(way: seq<Way>, i: nat, pick: int): (r: int)
    requires i <= |way| && -1 <= pick < |way|
    requires pick >= 0 ==> way[pick].state == Queued
    ensures -1 <= r < |way| && (r >= 0 ==> way[r].state == Queued)
    ensures r < 0 ==> pick < 0 && forall j :: i <= j < |way| ==> way[j].state != Queued
    ensures pick >= 0 ==> r >= 0 && way[r].stamp <= way[pick].stamp
    ensures r >= 0 ==> forall j :: i <= j < |way| && way[j].state == Queued ==> way[r].stamp <= way[j].stamp
    decreases |way| - i
  {
    if i == |way| then pick
    else if way[i].state == Queued && (pick < 0 || way[i].stamp < way[pick].stamp) then OldestFrom(way, i + 1, i)
    else OldestFrom(way, i + 1, pick)
  }

  function Oldest(way: seq<Way>): (r: int)
    ensures -1 <= r < |way| && (r >= 0 ==> way[r].state == Queued)
    ensures r < 0 ==> forall j :: 0 <= j < |way| ==> way[j].state != Queued
    ensures r >= 0 ==> forall j :: 0 <= j < |way| && way[j].state == Queued ==> way[r].stamp <= way[j].stamp
  {
    OldestFrom(way, 0, -1)
  }

  /** A sidecar that could not be read at all counts as absent. */
  function Usable(clus: U32, size: U32): (U32, nat)
  {
    if size < HDR_LEN || size > SCRATCH_SZ then (0, 0) else (clus, size)
  }

  function Freed(w: Way): Way
  {
    w.(key := -1, state := Empty, stamp := 0)
  }

  function Queue(c: Cache, idx: int, thmClus: U32, thmSize: U32, artClus: U32, artSize: U32): Cache
    requires Valid(c)
  {
    if idx < 0 || idx >= SLOTS then c
    else
      var t, a := Usable(thmClus, thmSize), Usable(artClus, artSize);
      var al := Album(t.0, t.1, a.0, a.1);
      if c.album[idx] == al then c
      else
        var w := Find(c.way, idx);
        c.(album := c.album[idx := al], noart := c.noart[idx := false], retried := c.retried[idx := false],
           way := if w >= 0 then c.way[w := Freed(c.way[w])] else c.way)
  }

  /** Album `idx` is known to have nothing to load. */
  predicate Hopeless(c: Cache, idx: nat)
    requires Valid(c) && idx < SLOTS
  {
    c.noart[idx] || !Registered(c.album[idx])
  }

  function Get(c: Cache, idx: int): Cache
    requires Valid(c)
  {
    if idx < 0 || idx >= SLOTS then c
    else
      var w := Find(c.way, idx);
      var now := Wrap32(c.clock + 1);
      if w >= 0 then c.(way := c.way[w := c.way[w].(stamp := now)], clock := now)
      else if Hopeless(c, idx) then c
      else
        var v := Victim(c.way);
        c.(way := c.way[v := c.way[v].(key := idx, state := Queued, stamp := now)], clock := now)
  }

  function Peek(c: Cache, idx: int): Option<seq<Byte>>
    requires Valid(c)
  {
    if idx < 0 || idx >= SLOTS then None
    else
      var w := Find(c.way, idx);
      if w >= 0 && c.way[w].state == Loaded then Some(c.way[w].px) else None
  }

  /** What became of reading a cover: pixels, nothing usable there, or a read that failed. */
  datatype Load = Pixels(px: seq<Byte>) | Absent | Unreadable

  function Pump(c: Cache, load: Load): Cache
    requires Valid(c)
  {
    var p := Oldest(c.way);
    if p < 0 then c
    else
      var key := c.way[p].key;
      if load.Pixels? then c.(way := c.way[p := c.way[p].(state := Loaded, px := load.px)])
      else
        var freed := c.(way := c.way[p := Freed(c.way[p])]);
        if load.Unreadable? && !c.retried[key] then freed.(retried := c.retried[key := true])
        else freed.(noart := c.noart[key := true])
  }

  lemma QueueValid(c: Cache, idx: int, thmClus: U32, thmSize: U32, artClus: U32, artSize: U32)
    requires Valid(c)
    ensures Valid(Queue(c, idx, thmClus, thmSize, artClus, artSize))
  {
  }

  lemma GetValid(c: Cache, idx: int)
    requires Valid(c)
    ensures Valid(Get(c, idx))
  {
  }

  lemma PumpValid(c: Cache, load: Load)
    requires Valid(c)
    ensures Valid(Pump(c, load))
  {
  }
}
