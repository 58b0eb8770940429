/** Every mix of reads, seeks, tells and pumps sees a plain file cursor, through one buffer or both. */
module Transparency {
  import opened Words
  import opened Volume
  import opened Fat32
  import opened FatStream
  import opened FileReads
  import opened ByteSource
  import opened FileSource
  import opened Backing
  import opened DiskBuf
  import opened ReadAhead

  method ReadDisk(db: DiskBuf, n: U32) returns (data: seq<Byte>)
    requires db.Valid()
    modifies db, db.inner.Parts(), db.buf
    ensures db.Valid() && (db.inner.Straight() ==> old(db.inner.Straight()))
    ensures |data| <= n && db.rd == old(db.rd) + |data| && (|data| > 0 ==> db.rd <= |db.inner.File()|)
    ensures db.inner.Straight() ==> data == Cut(db.inner.File(), old(db.rd), db.rd)
    ensures db.inner.Reliable() ==> db.inner.Straight() && db.rd == Upto(db.inner.File(), old(db.rd), n)
    ensures db.inner.Reliable() && old(db.wr) <= db.inner.End() ==> db.wr <= db.inner.End() && db.err == old(db.err)
  {
    hide Backing.Valid;
    var dst := new Byte[n];
    assert dst[..0] == [];
    var k := db.Read(dst, 0, n);
    assert dst[..k] == dst[..0 + k];
    data := dst[..k];
  }

  /** One operation on the anti-skip buffer. */
  method ApplyDisk(db: DiskBuf, op: Op) returns (reply: Reply)
    requires db.Valid() && Askable(db.inner.End(), db.rd, op)
    modifies db, db.inner.Parts(), db.buf
    ensures db.Valid() && (db.inner.Straight() ==> old(db.inner.Straight()))
    ensures Traced(db.inner.File(), db.inner.End(), old(db.rd), op, reply, db.rd, db.inner.Straight())
    ensures db.inner.Reliable() ==> (reply, db.rd) == Loosely(db.inner.File(), db.inner.End(), old(db.rd), op)
    ensures db.inner.Reliable() && old(db.wr) <= db.inner.End() && !Strays(db.inner.End(), old(db.rd), op) ==>
      db.wr <= db.inner.End() && db.err == old(db.err)
  {
    hide Backing.Valid;
    match op
    case Read(n) =>
      var data := ReadDisk(db, n);
      reply := Bytes(data);
    case Seek(offset, origin) =>
      var ok := db.Seek(offset, origin);
      reply := Sought(ok);
    case Tell =>
      var at := db.Tell();
      reply := At(at);
    case Pump(chunk) =>
      var got := db.Pump(chunk);
      reply := Quiet;
  }

  method ReadThrough(ra: ReadAhead, n: U32) returns (data: seq<Byte>)
    requires ra.Valid()
    modifies ra, ra.buf, ra.inner.Parts()
    ensures ra.Valid() && (ra.inner.Straight() ==> old(ra.inner.Straight()))
    ensures |data| <= n && ra.cursor == old(ra.cursor) + |data| && (|data| > 0 ==> ra.cursor <= |ra.inner.File()|)
    ensures ra.inner.Straight() ==> data == Cut(ra.inner.File(), old(ra.cursor), ra.cursor)
    ensures ra.inner.Reliable() ==> ra.inner.Straight() && ra.cursor == Upto(ra.inner.File(), old(ra.cursor), n)
    ensures ra.inner.Reliable() && old(ra.cursor) <= ra.inner.End() && old(ra.inner.Pos()) <= ra.inner.End() ==>
      ra.inner.Pos() <= ra.inner.End() && ra.inner.Latched() == old(ra.inner.Latched())
  {
    hide Below.Valid;
    var dst := new Byte[n];
    assert dst[..0] == [];
    var k := ra.Read(dst, 0, n);
    assert dst[..k] == dst[..0 + k];
    data := dst[..k];
  }

  /** One operation on the read-ahead; pumps go to the anti-skip buffer underneath. */
  method Apply(ra: ReadAhead, op: Op) returns (reply: Reply)
    requires ra.Valid() && Askable(ra.inner.End(), ra.cursor, op)
    modifies ra, ra.buf, ra.inner.Parts()
    ensures ra.Valid() && (ra.inner.Straight() ==> old(ra.inner.Straight()))
    ensures Traced(ra.inner.File(), ra.inner.End(), old(ra.cursor), op, reply, ra.cursor, ra.inner.Straight())
    ensures ra.inner.Reliable() ==> (reply, ra.cursor) == Loosely(ra.inner.File(), ra.inner.End(), old(ra.cursor), op)
    ensures ra.inner.Reliable() && old(ra.cursor) <= ra.inner.End() && old(ra.inner.Pos()) <= ra.inner.End() ==>
      ra.inner.Pos() <= ra.inner.End() && ra.inner.Latched() == old(ra.inner.Latched())
  {
    hide Below.Valid;
    match op
    case Read(n) =>
      var data := ReadThrough(ra, n);
      reply := Bytes(data);
    case Seek(offset, origin) =>
      var ok := ra.Seek(offset, origin);
      reply := Sought(ok);
    case Tell =>
      var at := ra.Tell();
      reply := At(at);
    case Pump(chunk) =>
      ra.Pump(chunk);
      reply := Quiet;
  }

  lemma {:induction false} LooseAppend(file: seq<Byte>, end: nat, pos: nat, ops: seq<Op>, op: Op)
    ensures LooseAnswers(file, end, pos, ops + [op])
      == LooseAnswers(file, end, pos, ops) + [Loosely(file, end, LooseEnd(file, end, pos, ops), op).0]
    ensures LooseEnd(file, end, pos, ops + [op]) == Loosely(file, end, LooseEnd(file, end, pos, ops), op).1
    decreases |ops|
  {
    if ops == [] {
      assert ops + [op] == [op] && [op][1..] == [];
      assert LooseAnswers(file, end, Loosely(file, end, pos, op).1, [op][1..]) == [];
    } else {
      assert (ops + [op])[0] == ops[0] && (ops + [op])[1..] == ops[1..] + [op];
      LooseAppend(file, end, Loosely(file, end, pos, ops[0]).1, ops[1..], op);
    }
  }

  lemma OneMore(file: seq<Byte>, end: nat, pos: nat, ops: seq<Op>, n: nat)
    requires n < |ops|
    ensures var r := Loosely(file, end, LooseEnd(file, end, pos, ops[..n]), ops[n]);
      && LooseAnswers(file, end, pos, ops[..n + 1]) == LooseAnswers(file, end, pos, ops[..n]) + [r.0]
      && LooseEnd(file, end, pos, ops[..n + 1]) == r.1
  {
    assert ops[..n] + [ops[n]] == ops[..n + 1];
    LooseAppend(file, end, pos, ops[..n], ops[n]);
  }

  /** In a run whose seeks aim below 2 GiB the `n`-th operation does. */
  lemma {:induction false} NarrowStep(file: seq<Byte>, end: nat, pos: nat, ops: seq<Op>, n: nat)
    requires Narrow(file, end, pos, ops) && n < |ops|
    ensures Askable(end, LooseEnd(file, end, pos, ops[..n]), ops[n])
    decreases n
  {
    if n > 0 {
      assert ops[..n][0] == ops[0] && ops[..n][1..] == ops[1..][..n - 1];
      NarrowStep(file, end, Loosely(file, end, pos, ops[0]).1, ops[1..], n - 1);
    }
  }

  /** A run that keeps within the file, up to its `n`-th operation, stands within it, and that operation does not stray. */
  lemma {:induction false} InFileStep(file: seq<Byte>, end: nat, pos: nat, ops: seq<Op>, n: nat)
    requires pos <= end && |file| <= end && InFile(file, end, pos, ops) && n < |ops|
    ensures LooseEnd(file, end, pos, ops[..n]) <= end && !Strays(end, LooseEnd(file, end, pos, ops[..n]), ops[n])
    decreases n
  {
    if n > 0 {
      assert ops[..n][0] == ops[0] && ops[..n][1..] == ops[1..][..n - 1];
      OneTells(file, end, pos, ops[0]);
      InFileStep(file, end, Answer(file, end, pos, ops[0]).1, ops[1..], n - 1);
    }
  }

  /**
   * The anti-skip buffer alone, up to the first seek that aims at 2 GiB or beyond. However
   * the source fails, every byte delivered is the file's if the source is still straight in
   * the end. Over a reliable source the buffer answers as a plain cursor would exactly when
   * no seek strays, and then latches no error.
   */
  method DriveDisk(db: DiskBuf, ops: seq<Op>) returns (replies: seq<Reply>, ghost at: seq<nat>)
    requires db.Valid()
    modifies db, db.inner.Parts(), db.buf
    ensures db.Valid() && Traces(db.inner.File(), db.inner.End(), at, ops, replies, db.inner.Straight())
    ensures at[0] == old(db.rd) && at[|replies|] == db.rd && (db.inner.Straight() ==> old(db.inner.Straight()))
    ensures |replies| < |ops| ==> !Askable(db.inner.End(), db.rd, ops[|replies|])
    ensures var file, end, pos := db.inner.File(), db.inner.End(), old(db.rd);
      db.inner.Reliable() && Narrow(file, end, pos, ops) && pos <= end ==>
        && (replies == Answers(file, end, pos, ops) <==> InFile(file, end, pos, ops))
        && (InFile(file, end, pos, ops) ==> db.err == old(db.err) && db.rd == Stands(file, end, pos, ops))
  {
    hide Backing.Valid;
    ghost var file, end, pos := db.inner.File(), db.inner.End(), db.rd;
    ghost var fine := db.inner.Reliable() && Narrow(file, end, pos, ops);
    ghost var clean := fine && pos <= end && InFile(file, end, pos, ops);
    replies, at := [], [pos];
    var i := 0;
    while i < |ops| && Askable(db.inner.End(), db.rd, ops[i])
      invariant i <= |ops| && db.Valid() && |replies| == i
      invariant Traces(file, end, at, ops, replies, db.inner.Straight()) && at[0] == pos && at[i] == db.rd
      invariant db.inner.Straight() ==> old(db.inner.Straight())
      invariant fine ==> replies == LooseAnswers(file, end, pos, ops[..i]) && db.rd == LooseEnd(file, end, pos, ops[..i])
      invariant clean ==> db.wr <= end && db.err == old(db.err)
    {
      OneMore(file, end, pos, ops, i);
      if clean {
        InFileStep(file, end, pos, ops, i);
      }
      ghost var was := db.inner.Straight();
      var reply := ApplyDisk(db, ops[i]);
      TracesOn(file, end, at, ops, replies, was, reply, db.rd, db.inner.Straight());
      replies, at := replies + [reply], at + [db.rd];
      i := i + 1;
    }
    if fine && pos <= end {
      if i < |ops| {
        NarrowStep(file, end, pos, ops, i);
      }
      assert ops[..i] == ops;
      LooseExactly(file, end, pos, ops);
    }
  }

  /** The whole stack, pumps among the operations, or the read-ahead on the file itself. */
  method Drive(ra: ReadAhead, ops: seq<Op>) returns (replies: seq<Reply>, ghost at: seq<nat>)
    requires ra.Valid()
    modifies ra, ra.buf, ra.inner.Parts()
    ensures ra.Valid() && Traces(ra.inner.File(), ra.inner.End(), at, ops, replies, ra.inner.Straight())
    ensures at[0] == old(ra.cursor) && at[|replies|] == ra.cursor && (ra.inner.Straight() ==> old(ra.inner.Straight()))
    ensures |replies| < |ops| ==> !Askable(ra.inner.End(), ra.cursor, ops[|replies|])
    ensures var file, end, pos := ra.inner.File(), ra.inner.End(), old(ra.cursor);
      ra.inner.Reliable() && Narrow(file, end, pos, ops) && pos <= end ==>
        && (replies == Answers(file, end, pos, ops) <==> InFile(file, end, pos, ops))
        && (InFile(file, end, pos, ops) ==>
             && ra.cursor == Stands(file, end, pos, ops)
             && (old(ra.inner.Pos()) <= end ==> ra.inner.Latched() == old(ra.inner.Latched())))
  {
    hide Below.Valid;
    ghost var file, end, pos := ra.inner.File(), ra.inner.End(), ra.cursor;
    ghost var fine := ra.inner.Reliable() && Narrow(file, end, pos, ops);
    ghost var clean := fine && pos <= end && InFile(file, end, pos, ops) && ra.inner.Pos() <= end;
    replies, at := [], [pos];
    var i := 0;
    while i < |ops| && Askable(ra.inner.End(), ra.cursor, ops[i])
      invariant i <= |ops| && ra.Valid() && |replies| == i
      invariant Traces(file, end, at, ops, replies, ra.inner.Straight()) && at[0] == pos && at[i] == ra.cursor
      invariant ra.inner.Straight() ==> old(ra.inner.Straight())
      invariant fine ==> replies == LooseAnswers(file, end, pos, ops[..i]) && ra.cursor == LooseEnd(file, end, pos, ops[..i])
      invariant clean ==> ra.inner.Pos() <= end && ra.inner.Latched() == old(ra.inner.Latched())
    {
      OneMore(file, end, pos, ops, i);
      if clean {
        InFileStep(file, end, pos, ops, i);
      }
      ghost var was := ra.inner.Straight();
      var reply := Apply(ra, ops[i]);
      TracesOn(file, end, at, ops, replies, was, reply, ra.cursor, ra.inner.Straight());
      replies, at := replies + [reply], at + [ra.cursor];
      i := i + 1;
    }
    if fine && pos <= end {
      if i < |ops| {
        NarrowStep(file, end, pos, ops, i);
      }
      assert ops[..i] == ops;
      LooseExactly(file, end, pos, ops);
    }
  }

  /** What a run over a file from its start comes to, on a disk that may not be reliable. */
  ghost predicate Played(file: seq<Byte>, end: nat, ops: seq<Op>, replies: seq<Reply>, at: seq<nat>, straight: bool, reliable: bool)
    requires |file| <= end
  {
    && Traces(file, end, at, ops, replies, straight) && at[0] == 0
    && (|replies| < |ops| ==> !Askable(end, at[|replies|], ops[|replies|]))
    && (reliable && Narrow(file, end, 0, ops) ==> (replies == Answers(file, end, 0, ops) <==> InFile(file, end, 0, ops)))
  }

  lemma StillPlayed(file: seq<Byte>, end: nat, ops: seq<Op>, replies: seq<Reply>, at: seq<nat>, was: bool, straight: bool, reliable: bool)
    requires |file| <= end && Played(file, end, ops, replies, at, was, reliable) && (straight ==> was)
    ensures Played(file, end, ops, replies, at, straight, reliable)
  {
    TracesLess(file, end, at, ops, replies, was, straight);
  }

  /** The tags are read through a read-ahead on the file itself, wherever its source stands. */
  method ReadTags(src: FileSource, block: array<Byte>, ops: seq<Op>) returns (replies: seq<Reply>, ghost at: seq<nat>)
    requires src.Valid() && block.Length < TWO32
    modifies src, src.st, src.st.fs, block
    ensures src.Valid() && (src.straight ==> old(src.straight))
    ensures |src.file| <= src.size && Played(src.file, src.size, ops, replies, at, src.straight, src.reliable)
  {
    var ra := new ReadAhead(Raw(Disk(src)), block);
    replies, at := Drive(ra, ops);
  }

  /** What the decoder asks for goes through the anti-skip buffer and a read-ahead, wherever the source stands. */
  method Decode(src: FileSource, ring: array<Byte>, block: array<Byte>, low: nat, high: nat, ops: seq<Op>)
    returns (replies: seq<Reply>, err: bool, ghost at: seq<nat>)
    requires src.Valid() && 0 < low < high <= ring.Length < TWO32 && block.Length < TWO32 && ring != block
    modifies src, src.st, src.st.fs, ring, block
    ensures src.Valid() && (src.straight ==> old(src.straight))
    ensures |src.file| <= src.size && Played(src.file, src.size, ops, replies, at, src.straight, src.reliable)
    ensures src.reliable && Narrow(src.file, src.size, 0, ops) && InFile(src.file, src.size, 0, ops) ==> !err
  {
    hide FileSource.OnFile, Traces, Narrow, InFile, Answers, Window;
    var db := new DiskBuf(Disk(src), ring, low, high, true);
    var ra := new ReadAhead(Buffered(db), block);
    replies, at := Drive(ra, ops);
    err := db.err;
  }

  /**
   * A track, from the disk to the decoder: its file opened on a mounted volume, its tags
   * read through a read-ahead on the file itself, and then what the decoder asks for
   * through the anti-skip buffer and a read-ahead that takes over the same block.
   */
  method Playback(fs: FatVolume, first: U32, size: Size, ring: array<Byte>, block: array<Byte>, low: nat, high: nat,
                  tagOps: seq<Op>, ops: seq<Op>, ghost n: nat)
    returns (tags: seq<Reply>, replies: seq<Reply>, err: bool, ghost tagAt: seq<nat>, ghost at: seq<nat>, ghost straight: bool)
    requires fs.Valid() && Avoids(fs.dev.image, fs.g, first, fs.dirty) && ChainOf(fs.dev.image, fs.g, first, n)
    requires 0 < low < high <= ring.Length < TWO32 && block.Length < TWO32 && ring != block
    modifies fs, ring, block
    ensures OnDisk(fs.dev.image, fs.g) && ChainOf(fs.dev.image, fs.g, first, n) && (fs.dev.reliable ==> straight)
    ensures var file := Content(fs.dev.image, fs.g, first, n, size);
      && |file| <= size && Played(file, size, tagOps, tags, tagAt, straight, fs.dev.reliable)
      && Played(file, size, ops, replies, at, straight, fs.dev.reliable)
      && (fs.dev.reliable && Narrow(file, size, 0, ops) && InFile(file, size, 0, ops) ==> !err)
  {
    hide FileSource.Valid, Played;
    var src := new FileSource.Open(fs, first, size, n);
    OnItsDisk(src);
    tags, tagAt := ReadTags(src, block, tagOps);
    ghost var was := src.straight;
    replies, err, at := Decode(src, ring, block, low, high, ops);
    straight := src.straight;
    OnItsDisk(src);
    StillPlayed(src.file, size, tagOps, tags, tagAt, was, straight, fs.dev.reliable);
  }

  lemma OnItsDisk(src: FileSource)
    requires src.Valid()
    ensures OnDisk(src.st.fs.dev.image, src.st.fs.g) && src.reliable == src.st.fs.dev.reliable && |src.file| <= src.size
    ensures src.reliable ==> src.straight
  {
  }
}
