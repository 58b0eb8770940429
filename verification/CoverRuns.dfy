/** Runs of the cover cache: what a row is given is always its registered cover, and a screen fills up. */
module CoverRuns {
  import opened Words
  import opened Options
  import opened Volume
  import opened Fat32
  import opened ArtCache
  import opened ArtProgress
  import opened CoverCache

  // ---- any run ----------------------------------------------------------------------------------

  datatype Op =
    | Enroll(row: int, thmClus: U32, thmSize: U32, artClus: U32, artSize: U32)
    | Paint(row: int)
    | Look(row: int)
    | Load

  /** What is registered once one more operation has run. */
  function Enrolled(album: seq<Album>, op: Op): (r: seq<Album>)
    ensures |r| == |album|
  {
    if op.Enroll? && 0 <= op.row < |album| then album[op.row := Asked(op.thmClus, op.thmSize, op.artClus, op.artSize)]
    else album
  }

  /** What is registered after a run: the last registration of each row. */
  function Registry(album: seq<Album>, ops: seq<Op>): (r: seq<Album>)
    ensures |r| == |album|
  {
    if ops == [] then album else Enrolled(Registry(album, ops[..|ops| - 1]), ops[|ops| - 1])
  }

  /** The answer to the operation, if it is one, is a cover of the sidecars registered for its row. */
  ghost predicate Fitting(image: seq<Byte>, g: Geo, thumb: Thumb, album: seq<Album>, op: Op, answer: Option<seq<Byte>>)
    requires OnDisk(image, g)
  {
    answer.Some? ==>
      (op.Paint? || op.Look?) && 0 <= op.row < |album| && Shows(image, g, thumb, album[op.row], answer.value)
  }

  lemma QueueEnrolls(c: Cache, op: Op)
    requires Valid(c) && op.Enroll?
    ensures Queue(c, op.row, op.thmClus, op.thmSize, op.artClus, op.artSize).album == Enrolled(c.album, op)
  {
  }

  /** One operation. */
  method Apply(cache: CoverCache, fs: FatVolume, op: Op) returns (answer: Option<seq<Byte>>)
    requires cache.Sane(fs)
    requires op.Enroll? ==> Clear(fs.dev.image, fs.g, fs.dirty, Asked(op.thmClus, op.thmSize, op.artClus, op.artSize))
    modifies cache, cache.album, cache.noart, cache.retried, cache.way, cache.scratch, fs
    ensures cache.Sane(fs) && fs.dirty == old(fs.dirty)
    ensures cache.State().album == Enrolled(old(cache.State()).album, op)
    ensures Fitting(fs.dev.image, fs.g, cache.thumb, old(cache.State()).album, op, answer)
  {
    answer := None;
    match op
    case Enroll(row, tc, ts, ac, az) =>
      QueueEnrolls(cache.State(), op);
      cache.Register(row, tc, ts, ac, az, fs);
    case Paint(row) => answer := cache.Draw(row, fs);
    case Look(row) => answer := cache.PeekAt(row, fs);
    case Load =>
      ghost var load;
      var worked;
      worked, load := cache.PumpOne(fs);
  }

  /** So far every answer fits what was registered then. */
  ghost predicate FittingSoFar(image: seq<Byte>, g: Geo, thumb: Thumb, album: seq<Album>, ops: seq<Op>, answers: seq<Option<seq<Byte>>>)
    requires OnDisk(image, g)
  {
    |answers| <= |ops| && forall k :: 0 <= k < |answers| ==> Fitting(image, g, thumb, Registry(album, ops[..k]), ops[k], answers[k])
  }

  lemma FittingMore(image: seq<Byte>, g: Geo, thumb: Thumb, album: seq<Album>, ops: seq<Op>, answers: seq<Option<seq<Byte>>>, answer: Option<seq<Byte>>)
    requires OnDisk(image, g) && FittingSoFar(image, g, thumb, album, ops, answers) && |answers| < |ops|
    requires Fitting(image, g, thumb, Registry(album, ops[..|answers|]), ops[|answers|], answer)
    ensures FittingSoFar(image, g, thumb, album, ops, answers + [answer])
  {
    hide Fitting, Registry;
  }

  lemma FittingAll(image: seq<Byte>, g: Geo, thumb: Thumb, album: seq<Album>, ops: seq<Op>, answers: seq<Option<seq<Byte>>>)
    requires OnDisk(image, g) && FittingSoFar(image, g, thumb, album, ops, answers) && |answers| == |ops|
    ensures forall i :: 0 <= i < |ops| ==> Fitting(image, g, thumb, Registry(album, ops[..i]), ops[i], answers[i])
  {
    hide Fitting, Registry;
  }

  /**
   * In any run, whatever the disk does, the pixels a row is given are those of the
   * sidecars registered for it at that moment.
   */
  method Drive(cache: CoverCache, fs: FatVolume, ops: seq<Op>) returns (answers: seq<Option<seq<Byte>>>)
    requires cache.Sane(fs)
    requires forall i :: 0 <= i < |ops| && ops[i].Enroll? ==>
      Clear(fs.dev.image, fs.g, fs.dirty, Asked(ops[i].thmClus, ops[i].thmSize, ops[i].artClus, ops[i].artSize))
    modifies cache, cache.album, cache.noart, cache.retried, cache.way, cache.scratch, fs
    ensures cache.Sane(fs) && |answers| == |ops|
    ensures cache.State().album == Registry(old(cache.State()).album, ops)
    ensures forall i :: 0 <= i < |ops| ==>
      Fitting(fs.dev.image, fs.g, cache.thumb, Registry(old(cache.State()).album, ops[..i]), ops[i], answers[i])
  {
    hide Fitting;
    answers := [];
    ghost var album0, image := cache.State().album, fs.dev.image;
    assert FittingSoFar(image, fs.g, cache.thumb, album0, ops, answers);
    hide FittingSoFar;
    var i := 0;
    while i < |ops|
      invariant i <= |ops| && cache.Sane(fs) && fs.dirty == old(fs.dirty) && fs.dev.image == image && |answers| == i
      invariant cache.State().album == Registry(album0, ops[..i])
      invariant FittingSoFar(image, fs.g, cache.thumb, album0, ops, answers)
    {
      assert ops[..i + 1][..i] == ops[..i] && ops[..i + 1][i] == ops[i];
      var answer := Apply(cache, fs, ops[i]);
      FittingMore(image, fs.g, cache.thumb, album0, ops, answers, answer);
      answers := answers + [answer];
      i := i + 1;
    }
    assert ops[..i] == ops;
    FittingAll(image, fs.g, cache.thumb, album0, ops, answers);
  }

  // ---- a screen left alone ----------------------------------------------------------------------

  lemma {:induction false} TurnsAppend(c: Cache, rows: seq<int>, loads: seq<ArtCache.Load>, l: ArtCache.Load)
    requires Valid(c)
    ensures Valid(Turns(c, rows, loads)) && Valid(Draw(Turns(c, rows, loads), rows))
    ensures Turns(c, rows, loads + [l]) == Pump(Draw(Turns(c, rows, loads), rows), l)
    decreases |loads|
  {
    DrawValid(c, rows);
    if loads == [] {
      assert loads + [l] == [l] && [l][1..] == [];
      PumpValid(Draw(c, rows), l);
      assert Turns(Pump(Draw(c, rows), l), rows, [l][1..]) == Pump(Draw(c, rows), l);
    } else {
      PumpValid(Draw(c, rows), loads[0]);
      assert (loads + [l])[0] == loads[0] && (loads + [l])[1..] == loads[1..] + [l];
      TurnsAppend(Pump(Draw(c, rows), loads[0]), rows, loads[1..], l);
    }
  }

  /** The rows drawn once, top to bottom. */
  method PaintAll(cache: CoverCache, fs: FatVolume, rows: seq<int>)
    requires cache.Sane(fs)
    modifies cache, cache.way
    ensures cache.Sane(fs) && cache.State() == Draw(old(cache.State()), rows)
  {
    var i := 0;
    ghost var c := cache.State();
    assert rows[0..] == rows;
    while i < |rows|
      invariant i <= |rows| && cache.Sane(fs) && Draw(cache.State(), rows[i..]) == Draw(c, rows)
    {
      assert rows[i..][1..] == rows[i + 1..];
      var px := cache.Draw(rows[i], fs);
      i := i + 1;
    }
    assert rows[i..] == [];
  }

  /**
   * The screen drawn and one cover loaded, `turns` times. With at most sixteen rows and
   * sixteen plus twice as many turns as rows, every row is settled; and on a reliable disk
   * a row whose sidecars have unbroken chains and hold a cover shows exactly that cover.
   */
  method FillScreen(cache: CoverCache, fs: FatVolume, rows: seq<int>, turns: nat)
    requires cache.Sane(fs) && Sound(cache.State()) && Rows(rows) && |rows| <= WAYS && turns >= WAYS + 2 * |rows|
    requires cache.clock + 16 * turns + 16 < TWO32
    modifies cache, cache.noart, cache.retried, cache.way, cache.scratch, fs
    ensures cache.Sane(fs) && cache.State().album == old(cache.State()).album
    ensures forall i :: 0 <= i < |rows| ==> Settled(cache.State(), rows[i])
    ensures fs.dev.reliable ==> forall i, px: seq<Byte> :: 0 <= i < |rows| ==>
      RowShows(cache.State(), rows[i], fs.dev.image, fs.g, cache.thumb, px)
  {
    ghost var c, loads := cache.State(), [];
    var t := 0;
    while t < turns
      invariant t <= turns && cache.Sane(fs) && |loads| == t && cache.State() == Turns(c, rows, loads)
      invariant cache.State().album == c.album
    {
      DrawKeepsAlbum(cache.State(), rows);
      PaintAll(cache, fs, rows);
      ghost var load;
      var worked;
      worked, load := cache.PumpOne(fs);
      TurnsAppend(c, rows, loads, load);
      loads := loads + [load];
      t := t + 1;
    }
    ScreenSettles(c, rows, loads);
    if fs.dev.reliable {
      ScreenShows(cache.State(), rows, fs.dev.image, fs.g, cache.thumb);
    }
  }

  /** If neither sidecar has a broken chain and `px` is what they hold, `px` is what the row shows. */
  ghost predicate RowShows(c: Cache, v: nat, image: seq<Byte>, g: Geo, thumb: Thumb, px: seq<Byte>)
    requires OnDisk(image, g) && Valid(c) && v < SLOTS
  {
    var al := c.album[v];
    !Broken(image, g, al.thmClus) && !Broken(image, g, al.artClus) && Shows(image, g, thumb, al, px) ==> Peek(c, v) == Some(px)
  }

  lemma ScreenShows(c: Cache, rows: seq<int>, image: seq<Byte>, g: Geo, thumb: Thumb)
    requires OnDisk(image, g) && Valid(c) && Coherent(c, image, g, thumb) && Honest(c, image, g, true) && Rows(rows)
    requires forall i :: 0 <= i < |rows| ==> Settled(c, rows[i])
    ensures forall i, px: seq<Byte> :: 0 <= i < |rows| ==> RowShows(c, rows[i], image, g, thumb, px)
  {
    forall i, px: seq<Byte> | 0 <= i < |rows|
      ensures RowShows(c, rows[i], image, g, thumb, px)
    {
      var al := c.album[rows[i]];
      if !Broken(image, g, al.thmClus) && !Broken(image, g, al.artClus) && Shows(image, g, thumb, al, px) {
        SettledShows(c, rows[i], image, g, thumb, px);
      }
    }
  }

  lemma {:induction false} DrawKeepsAlbum(c: Cache, rows: seq<int>)
    requires Valid(c)
    ensures Valid(Draw(c, rows)) && Draw(c, rows).album == c.album
    decreases |rows|
  {
    if rows != [] {
      GetValid(c, rows[0]);
      DrawKeepsAlbum(Get(c, rows[0]), rows[1..]);
    }
  }
}
