/**
 * The FLAC metadata reader: block headers, STREAMINFO and VORBIS_COMMENT, as in
 * sections 8.1, 8.2 and 8.6 of RFC 9639. What a tag means is left to a parameter;
 * which bytes are taken for a tag, and where every block begins, is not.
 */
module FlacMeta {
  import opened Words
  import opened Arith
  import opened ByteSource

  const MAX_BLOCKS: nat := 64
  const MAX_COMMENTS: nat := 256
  const COMMENT_CAP: nat := 512
  const STREAMINFO_LEN: nat := 34

  /** Folds one "KEY=value" comment into the tags. */
  type Tagger<!T> = (T, seq<Byte>) -> T

  datatype Meta<T> = Meta(have: bool, duration: U32, rate: nat, seekPoints: nat, tags: T)

  // ---- the file in one go -------------------------------------------------------------------

  /** The big-endian number in the three bytes at `at`. */
  function Be24(s: seq<Byte>, at: nat): (n: nat)
    requires at + 3 <= |s|
    ensures n < 0x100_0000
  {
    var a: int, b: int, c: int := s[at], s[at + 1], s[at + 2];
    65536 * a + 256 * b + c
  }

  /** What is left of `s` behind its first `n` bytes. */
  function Behind(s: seq<Byte>, n: nat): seq<Byte>
  {
    if n <= |s| then s[n..] else []
  }

  /**
   * The comments, at most `n` of them, each cut to its first 512 bytes, of a block that has
   * `room` bytes to go of which the file has `s`. On a source that grants seeks past the end
   * of the file (`loose`) a comment is taken when these 512 are there.
   */
  function Comments<T>(s: seq<Byte>, room: nat, n: nat, tags: T, apply: Tagger<T>, loose: bool): T
    decreases n, |s|
  {
    if n == 0 || |s| < 4 || Rd32(s, 0) > room - 4 then tags
    else
      var clen := Rd32(s, 0);
      if Needed(clen, loose) > |s| - 4 then tags
      else Comments(Behind(s, 4 + clen), room - 4 - clen, n - 1, apply(tags, s[4..4 + Min(clen, COMMENT_CAP)]), apply, loose)
  }

  /** How much of a comment must be there for it to be taken. */
  function Needed(clen: nat, loose: bool): nat
  {
    if loose then Min(clen, COMMENT_CAP) else clen
  }

  /** The tags of a VORBIS_COMMENT body of `room` bytes, of which the file has `body`. */
  function Tags<T>(body: seq<Byte>, room: nat, tags: T, apply: Tagger<T>, loose: bool): T
    requires |body| <= room
  {
    if |body| < 4 || Rd32(body, 0) > |body| - 4 then tags
    else Counted(body[4 + Rd32(body, 0)..], room - 4 - Rd32(body, 0), tags, apply, loose)
  }

  /** A comment count and the comments. */
  function Counted<T>(s: seq<Byte>, room: nat, tags: T, apply: Tagger<T>, loose: bool): T
    requires |s| <= room
  {
    if |s| < 4 then tags else Comments(s[4..], room - 4, Min(Rd32(s, 0), MAX_COMMENTS), tags, apply, loose)
  }

  /** The comment, as far as it is kept, that the file cuts short behind its first 512 bytes, if the comments come to one. */
  function CutComment(s: seq<Byte>, room: nat, n: nat): (tag: seq<Byte>)
    ensures |tag| == 0 || |tag| == COMMENT_CAP
    decreases n, |s|
  {
    if n == 0 || |s| < 4 || Rd32(s, 0) > room - 4 then []
    else
      var clen := Rd32(s, 0);
      if clen <= |s| - 4 then CutComment(s[4 + clen..], room - 4 - clen, n - 1)
      else if COMMENT_CAP <= |s| - 4 then s[4..4 + COMMENT_CAP] else []
  }

  /**
   * A source that grants seeks past the end of the file and one that does not give the same
   * tags, but for one comment: it is taken on the former when its first 512 bytes are there.
   */
  lemma {:induction false} CutCommentExactly<T>(s: seq<Byte>, room: nat, n: nat, tags: T, apply: Tagger<T>)
    requires |s| <= room
    ensures var plain, cut := Comments(s, room, n, tags, apply, false), CutComment(s, room, n);
      Comments(s, room, n, tags, apply, true) == if cut == [] then plain else apply(plain, cut)
    ensures |s| == room ==> CutComment(s, room, n) == []
    decreases n
  {
    hide Comments, Behind;
    if n == 0 || |s| < 4 || Rd32(s, 0) > room - 4 {
      CommentsOver(s, room, n, tags, apply, false);
      CommentsOver(s, room, n, tags, apply, true);
      return;
    }
    var clen := Rd32(s, 0);
    if clen <= |s| - 4 {
      var rest, tag := s[4 + clen..], s[4..4 + Min(clen, COMMENT_CAP)];
      CommentsTaken(s, room, n, clen, rest, tag, tags, apply, false);
      CommentsTaken(s, room, n, clen, rest, tag, tags, apply, true);
      CutCommentExactly(rest, room - 4 - clen, n - 1, apply(tags, tag), apply);
    } else {
      CommentsOver(s, room, n, tags, apply, false);
      if COMMENT_CAP <= |s| - 4 {
        var tag := s[4..4 + COMMENT_CAP];
        CommentsTaken(s, room, n, clen, [], tag, tags, apply, true);
        CommentsOver([], room - 4 - clen, n - 1, apply(tags, tag), apply, true);
      } else {
        CommentsOver(s, room, n, tags, apply, true);
      }
    }
  }

  /** No further comment is taken. */
  lemma CommentsOver<T>(s: seq<Byte>, room: nat, n: nat, tags: T, apply: Tagger<T>, loose: bool)
    requires n == 0 || |s| < 4 || Rd32(s, 0) > room - 4 || Needed(Rd32(s, 0), loose) > |s| - 4
    ensures Comments(s, room, n, tags, apply, loose) == tags
  {
  }

  /** One more is. */
  lemma CommentsTaken<T>(s: seq<Byte>, room: nat, n: nat, clen: nat, rest: seq<Byte>, tag: seq<Byte>, tags: T, apply: Tagger<T>, loose: bool)
    requires n > 0 && |s| >= 4 && Rd32(s, 0) == clen <= room - 4 && Needed(clen, loose) <= |s| - 4
    requires rest == (if 4 + clen <= |s| then s[4 + clen..] else []) && s[4..4 + Min(clen, COMMENT_CAP)] == tag
    ensures Comments(s, room, n, tags, apply, loose) == Comments(rest, room - 4 - clen, n - 1, apply(tags, tag), apply, loose)
  {
  }

  /** A comment of 600 bytes in a file that ends behind its first 512. */
  lemma CutHappens(s: seq<Byte>)
    requires |s| == 516 && s[0] == 88 && s[1] == 2 && s[2] == 0 && s[3] == 0
    ensures CutComment(s, 604, 1) == s[4..]
  {
  }

  function SampleRate(b: seq<Byte>): (sr: nat)
    requires |b| == STREAMINFO_LEN
  {
    var x: int, y: int, z: int := b[10], b[11], b[12];
    4096 * x + 16 * y + z / 16
  }

  function TotalSamples(b: seq<Byte>): (n: nat)
    requires |b| == STREAMINFO_LEN
  {
    var p: int, q: int, r: int, s: int, t: int := b[13], b[14], b[15], b[16], b[17];
    0x1_0000_0000 * (p % 16) + 16777216 * q + 65536 * r + 256 * s + t
  }

  /** The 64-bit big-endian word at offset 10, where the stream's numbers live. */
  function Word(b: seq<Byte>): nat
    requires |b| == STREAMINFO_LEN
  {
    var h: nat, l: nat := Be32(b, 10), Be32(b, 14);
    h * 0x1_0000_0000 + l
  }

  function Be32(b: seq<Byte>, at: nat): (n: nat)
    requires at + 4 <= |b|
    ensures n < 0x1_0000_0000
  {
    var x: int, y: int, z: int, w: int := b[at], b[at + 1], b[at + 2], b[at + 3];
    16777216 * x + 65536 * y + 256 * z + w
  }

  /** The rate is the word's top 20 bits, the number of samples its low 36. */
  lemma StreaminfoWord(b: seq<Byte>)
    requires |b| == STREAMINFO_LEN
    ensures SampleRate(b) == Word(b) / 0x1000_0000_0000 && SampleRate(b) < 0x10_0000
    ensures TotalSamples(b) == Word(b) % 0x10_0000_0000
  {
    var z: int, p: int := b[12], b[13];
    var rest := z % 16 * 0x100_0000_0000 + p * 0x1_0000_0000 + Be32(b, 14);
    assert Word(b) == 0x1000_0000_0000 * SampleRate(b) + rest;
    ModuloOf(Word(b), 0x1000_0000_0000, SampleRate(b), rest);
    assert Word(b) == 0x10_0000_0000 * (16 * Be24(b, 10) + p / 16) + TotalSamples(b);
    ModuloOf(Word(b), 0x10_0000_0000, 16 * Be24(b, 10) + p / 16, TotalSamples(b));
  }

  /** Total samples over the rate, rounded to a second and cut to 32 bits. */
  function Reported(total: nat, sr: nat): U32
    requires sr > 0
  {
    Wrap32((total + sr / 2) / sr)
  }

  function Streaminfo<T>(m: Meta<T>, b: seq<Byte>): Meta<T>
    requires |b| == STREAMINFO_LEN
  {
    var sr, total := SampleRate(b), TotalSamples(b);
    m.(have := true, rate := sr, duration := if sr != 0 && total != 0 then Reported(total, sr) else m.duration)
  }

  /**
   * What a block of declared length `len` does to the metadata, `body` being what the
   * file has of it; false when it ends the walk whatever follows.
   */
  function Block<T>(m: Meta<T>, typ: nat, body: seq<Byte>, len: nat, apply: Tagger<T>, loose: bool): (r: (Meta<T>, bool))
    requires |body| <= len
  {
    if typ == 0 then
      if len < STREAMINFO_LEN || |body| < STREAMINFO_LEN then (m, false) else (Streaminfo(m, body[..STREAMINFO_LEN]), true)
    else if typ == 3 then (m.(seekPoints := len / 18), true)
    else if typ == 4 then (m.(tags := Tags(body, len, m.tags, apply, loose)), true)
    else (m, true)
  }

  /** What a block of a type, with a body and a declared length, does. */
  type Stepper<!T> = (Meta<T>, nat, seq<Byte>, nat) -> (Meta<T>, bool)

  function Blocks<T>(apply: Tagger<T>, loose: bool): Stepper<T>
  {
    (m: Meta<T>, typ: nat, body: seq<Byte>, len: nat) => if |body| <= len then Block(m, typ, body, len, apply, loose) else (m, false)
  }

  /** What the file has of the `len` bytes at `at`. */
  function Part(file: seq<Byte>, at: nat, len: nat): (r: seq<Byte>)
    ensures |r| == if at <= |file| then Min(len, |file| - at) else 0
  {
    if at + len <= |file| then file[at..at + len] else if at <= |file| then file[at..] else []
  }

  /** The walk from block number `k`, whose header is at `at`; a block the file cuts short is the last. */
  function Walk<T>(file: seq<Byte>, at: nat, k: nat, m: Meta<T>, step: Stepper<T>): Meta<T>
    requires k <= MAX_BLOCKS
    decreases MAX_BLOCKS - k
  {
    if k == MAX_BLOCKS || at + 4 > |file| then m
    else
      var len := Be24(file, at + 1);
      var r := step(m, file[at] % 128, Part(file, at + 4, len), len);
      if !r.1 || file[at] >= 128 then r.0 else Walk(file, at + 4 + len, k + 1, r.0, step)
  }

  /** The file has every block of the walk whole. */
  predicate AllWhole(file: seq<Byte>, at: nat, k: nat)
    requires k <= MAX_BLOCKS
    decreases MAX_BLOCKS - k
  {
    k < MAX_BLOCKS && at + 4 <= |file| ==>
      var next := at + 4 + Be24(file, at + 1);
      next <= |file| && (file[at] < 128 ==> AllWhole(file, next, k + 1))
  }

  lemma TagsAgree<T>(body: seq<Byte>, tags: T, apply: Tagger<T>)
    ensures Tags(body, |body|, tags, apply, true) == Tags(body, |body|, tags, apply, false)
  {
    hide Comments;
    if |body| >= 4 && Rd32(body, 0) <= |body| - 4 {
      var s := body[4 + Rd32(body, 0)..];
      if |s| >= 4 {
        CutCommentExactly(s[4..], |s| - 4, Min(Rd32(s, 0), MAX_COMMENTS), tags, apply);
      }
    }
  }

  lemma BlockAgrees<T>(m: Meta<T>, typ: nat, body: seq<Byte>, apply: Tagger<T>)
    ensures Block(m, typ, body, |body|, apply, true) == Block(m, typ, body, |body|, apply, false)
  {
    hide Tags;
    TagsAgree(body, m.tags, apply);
  }

  /** On a file that has its blocks whole it makes no difference whether seeks past the end are granted. */
  lemma {:induction false} WalkAgrees<T>(file: seq<Byte>, at: nat, k: nat, m: Meta<T>, apply: Tagger<T>)
    requires k <= MAX_BLOCKS && AllWhole(file, at, k)
    ensures Walk(file, at, k, m, Blocks(apply, true)) == Walk(file, at, k, m, Blocks(apply, false))
    decreases MAX_BLOCKS - k
  {
    hide Block;
    if k < MAX_BLOCKS && at + 4 <= |file| {
      var len := Be24(file, at + 1);
      var body := Part(file, at + 4, len);
      BlockAgrees(m, file[at] % 128, body, apply);
      var r := Block(m, file[at] % 128, body, len, apply, true);
      if r.1 && file[at] < 128 {
        WalkAgrees(file, at + 4 + len, k + 1, r.0, apply);
      }
    }
  }

  function Empty<T>(tags: T): Meta<T>
  {
    Meta(false, 0, 0, 0, tags)
  }

  /** "fLaC" */
  const MAGIC: seq<Byte> := [0x66, 0x4C, 0x61, 0x43]

  // ---- the duration -------------------------------------------------------------------------

  /** No whole second is nearer to `total / sr`. */
  predicate Nearest(d: int, total: nat, sr: nat)
  {
    var off: int, half: int := d * sr - total, sr;
    -half <= 2 * off <= half
  }

  /** The reported duration is the nearest second exactly when that many seconds fit 32 bits. */
  lemma DurationExactly(total: nat, sr: nat)
    requires sr > 0
    ensures Nearest(Reported(total, sr), total, sr) <==> (total + sr / 2) / sr < TWO32
  {
    var h, q := sr / 2, (total + sr / 2) / sr;
    var r := (total + h) % sr;
    assert total + h == sr * q + r;
    var d := Reported(total, sr);
    if q >= TWO32 {
      var gap := q - d;
      assert gap >= TWO32;
      MulMonotone(sr, 2, gap);
      assert sr * gap == sr * q - d * sr;
    } else {
      assert d == q;
      assert d * sr == sr * q;
    }
  }

  /** At one sample a second a stream of 2^32 samples is reported as empty. */
  lemma DurationWraps()
    ensures Reported(0x1_0000_0000, 1) == 0 && !Nearest(0, 0x1_0000_0000, 1)
  {
  }

  // ---- reading it from a source ---------------------------------------------------------------

  /** From `from`, `n` bytes have been passed: they end at `to`, or the file has ended before that. */
  predicate Reaches(file: seq<Byte>, from: nat, n: nat, to: nat)
  {
    if from + n <= |file| then to == from + n else to >= |file|
  }

  /** Read exactly `n` bytes; a reliable source fails only by ending, and is then at its end. */
  method ReadFull(src: Source, buf: array<Byte>, n: nat) returns (ok: bool)
    requires src.Valid() && n <= buf.Length
    modifies src, buf
    ensures src.Valid() && old(src.pos) <= src.pos
    ensures src.reliable ==> ok == (n == 0 || old(src.pos) + n <= |src.file|) && Reaches(src.file, old(src.pos), n, src.pos)
    ensures ok ==> src.pos == old(src.pos) + n && (n > 0 ==> src.pos <= |src.file|) && buf[..n] == Cut(src.file, old(src.pos), src.pos)
  {
    var done := 0;
    ghost var p0, file := src.pos, src.file;
    while done < n
      invariant done <= n && src.Valid() && src.pos == p0 + done && (done > 0 ==> src.pos <= |file|) && buf[..done] == Cut(file, p0, src.pos)
      decreases n - done
    {
      ghost var was, at := buf[..done], src.pos;
      var got := src.Read(buf, done, n - done);
      if got == 0 {
        return false;
      }
      CutJoin(file, p0, at, src.pos);
      assert buf[..done + got] == buf[..done] + buf[done..done + got];
      done := done + got;
    }
    ok := true;
  }

  /** Skip `n` bytes: by a relative seek if the source takes it, else by reading them. */
  method SkipBytes(src: Source, n: nat, seekable: bool) returns (ok: bool)
    requires src.Valid() && n < 0x8000_0000
    modifies src
    ensures src.Valid() && old(src.pos) <= src.pos
    ensures src.reliable ==>
      && ok == (n == 0 || (seekable && src.loose) || old(src.pos) + n <= |src.file|)
      && Reaches(src.file, old(src.pos), n, src.pos)
    ensures ok ==> src.pos == old(src.pos) + n
  {
    if n == 0 {
      return true;
    }
    var refused: bool := *;
    if seekable && !(refused && !src.loose) {
      var moved := src.Seek(n, FromHere);
      if moved {
        return true;
      }
    }
    var tmp := new Byte[128];
    var left := n;
    while left > 0
      invariant 0 <= left <= n && src.Valid() && src.pos == old(src.pos) + (n - left)
      invariant left < n ==> src.pos <= |src.file|
    {
      var chunk := Min(left, 128);
      var full := ReadFull(src, tmp, chunk);
      if !full {
        return false;
      }
      left := left - chunk;
    }
    ok := true;
  }

  /** A little-endian word from the source. */
  method ReadWord(src: Source) returns (ok: bool, v: U32)
    requires src.Valid()
    modifies src
    ensures src.Valid() && old(src.pos) <= src.pos
    ensures src.reliable ==> ok == (old(src.pos) + 4 <= |src.file|) && Reaches(src.file, old(src.pos), 4, src.pos)
    ensures ok ==> src.pos == old(src.pos) + 4 <= |src.file| && v == Rd32(src.file, old(src.pos))
  {
    var b := new Byte[4];
    v := 0;
    ok := ReadFull(src, b, 4);
    if ok {
      v := Rd32(b[..], 0);
      assert b[..][0..4] == b[..4];
      SameWord(b[..], 0, src.file, old(src.pos));
    }
  }

  /** The front of a part of the file, and what is behind it. */
  lemma PartOnward(file: seq<Byte>, at: nat, len: nat, n: nat)
    requires at <= |file| && n <= len
    ensures Behind(Part(file, at, len), n) == Part(file, at + n, len - n)
    ensures at + n <= |file| ==> n <= |Part(file, at, len)| && Part(file, at, len)[..n] == file[at..at + n]
  {
  }

  lemma PartWord(file: seq<Byte>, at: nat, len: nat)
    requires at + 4 <= |file| && 4 <= len
    ensures |Part(file, at, len)| >= 4 && Rd32(Part(file, at, len), 0) == Rd32(file, at)
  {
    PartOnward(file, at, len, 4);
    assert Part(file, at, len)[0..4] == Part(file, at, len)[..4];
    SameWord(Part(file, at, len), 0, file, at);
  }

  /** Where the comment at `at` ends, if it is one that is taken; else -1. */
  function CommentEnd(file: seq<Byte>, at: nat, room: nat, loose: bool): (end: int)
    ensures end >= 0 ==> at + 4 <= end && at + 4 + Needed(end - at - 4, loose) <= |file| && end - at <= room && end == at + 4 + Rd32(file, at)
  {
    if room < 4 || at + 4 > |file| || Rd32(file, at) > room - 4 || at + 4 + Needed(Rd32(file, at), loose) > |file| then -1
    else at + 4 + Rd32(file, at)
  }

  /** What a comment that is not taken looks like. */
  lemma NoCommentAt(file: seq<Byte>, at: nat, room: nat, loose: bool)
    requires CommentEnd(file, at, room, loose) < 0
    ensures var s := Part(file, at, room); |s| < 4 || Rd32(s, 0) > room - 4 || Needed(Rd32(s, 0), loose) > |s| - 4
  {
    if room >= 4 && at + 4 <= |file| {
      PartWord(file, at, room);
    }
  }

  /** And one that is. */
  lemma CommentAt(file: seq<Byte>, at: nat, room: nat, loose: bool) returns (clen: nat, rest: seq<Byte>)
    requires CommentEnd(file, at, room, loose) >= 0
    ensures var s, end := Part(file, at, room), CommentEnd(file, at, room, loose);
      && |s| >= 4 && Rd32(s, 0) == clen <= room - 4 && Needed(clen, loose) <= |s| - 4 && end == at + 4 + clen
      && Behind(s, 4 + clen) == rest == Part(file, end, room - (end - at))
      && s[4..4 + Min(clen, COMMENT_CAP)] == file[at + 4..at + 4 + Min(clen, COMMENT_CAP)]
  {
    PartWord(file, at, room);
    clen := Rd32(file, at);
    PartOnward(file, at, room, 4 + clen);
    CommentBytes(file, at, room, Min(clen, COMMENT_CAP));
    rest := Part(file, at + 4 + clen, room - 4 - clen);
  }

  lemma CommentBytes(file: seq<Byte>, at: nat, room: nat, n: nat)
    requires at + 4 + n <= |file| && 4 + n <= room
    ensures 4 + n <= |Part(file, at, room)| && Part(file, at, room)[4..4 + n] == file[at + 4..at + 4 + n]
  {
  }

  /** The comments of a part of the file, one at a time. */
  lemma CommentStep<T>(file: seq<Byte>, at: nat, room: nat, left: nat, tags: T, apply: Tagger<T>, loose: bool)
    requires left > 0
    ensures var s, end := Part(file, at, room), CommentEnd(file, at, room, loose);
      Comments(s, room, left, tags, apply, loose)
      == if end < 0 then tags
         else Comments(Part(file, end, room - (end - at)), room - (end - at), left - 1,
                       apply(tags, file[at + 4..at + 4 + Min(end - at - 4, COMMENT_CAP)]), apply, loose)
  {
    hide Comments, Part, Rd32, CommentEnd;
    if CommentEnd(file, at, room, loose) < 0 {
      NoCommentAt(file, at, room, loose);
      CommentsOver(Part(file, at, room), room, left, tags, apply, loose);
    } else {
      var clen, rest := CommentAt(file, at, room, loose);
      CommentsTaken(Part(file, at, room), room, left, clen, rest, file[at + 4..at + 4 + Min(clen, COMMENT_CAP)], tags, apply, loose);
    }
  }

  lemma TagsUnfold<T>(s: seq<Byte>, room: nat, vendor: nat, rest: seq<Byte>, tags: T, apply: Tagger<T>, loose: bool)
    requires 4 <= |s| <= room && Rd32(s, 0) == vendor <= |s| - 4 && s[4 + vendor..] == rest
    ensures Tags(s, room, tags, apply, loose) == Counted(rest, room - 4 - vendor, tags, apply, loose)
  {
    hide Comments, Counted, Rd32;
  }

  lemma CountedStep<T>(file: seq<Byte>, at: nat, room: nat, tags: T, apply: Tagger<T>, loose: bool)
    ensures Counted(Part(file, at, room), room, tags, apply, loose)
            == if room < 4 || at + 4 > |file| then tags
               else Comments(Part(file, at + 4, room - 4), room - 4, Min(Rd32(file, at), MAX_COMMENTS), tags, apply, loose)
  {
    if room >= 4 && at + 4 <= |file| {
      PartWord(file, at, room);
      PartOnward(file, at, room, 4);
    }
  }

  /** The tags of a part of the file, behind its vendor string. */
  lemma VendorStep<T>(file: seq<Byte>, at: nat, room: nat, tags: T, apply: Tagger<T>, loose: bool)
    ensures var end := CommentEnd(file, at, room, false);
      Tags(Part(file, at, room), room, tags, apply, loose)
      == if end < 0 then tags else Counted(Part(file, end, room - (end - at)), room - (end - at), tags, apply, loose)
  {
    if CommentEnd(file, at, room, false) < 0 {
      NoCommentAt(file, at, room, false);
    } else {
      var vendor, rest := CommentAt(file, at, room, false);
      TagsUnfold(Part(file, at, room), room, vendor, rest, tags, apply, loose);
    }
  }

  /** The same from `to`, behind the vendor string or past the end of a file that ends in it. */
  lemma VendorPassed<T>(file: seq<Byte>, at: nat, room: nat, to: nat, tags: T, apply: Tagger<T>, loose: bool)
    requires at <= to <= at + room
    requires if to <= |file| then to == CommentEnd(file, at, room, false) else CommentEnd(file, at, room, false) < 0
    ensures Tags(Part(file, at, room), room, tags, apply, loose)
         == Counted(Part(file, to, room - (to - at)), room - (to - at), tags, apply, loose)
  {
    hide Tags, Comments, CommentEnd, Rd32;
    VendorStep(file, at, room, tags, apply, loose);
  }

  /** One comment: its bytes up to the cap, and the rest of an oversized one skipped. */
  method ReadComment<T>(src: Source, clen: nat, tags: T, apply: Tagger<T>, seekable: bool) returns (ok: bool, tags': T)
    requires src.Valid() && src.pos <= |src.file| && clen < 0x8000_0000
    modifies src
    ensures src.Valid() && old(src.pos) <= src.pos && (!ok ==> tags' == tags)
    ensures src.reliable ==>
      && ok == (old(src.pos) + Needed(clen, seekable && src.loose) <= |src.file|)
      && Reaches(src.file, old(src.pos), clen, src.pos)
    ensures ok ==> src.pos == old(src.pos) + clen && old(src.pos) + Min(clen, COMMENT_CAP) <= |src.file|
                   && tags' == apply(tags, src.file[old(src.pos)..old(src.pos) + Min(clen, COMMENT_CAP)])
  {
    tags' := tags;
    var buf := new Byte[COMMENT_CAP];
    var take := Min(clen, COMMENT_CAP);
    ok := ReadFull(src, buf, take);
    if ok && clen > take {
      ok := SkipBytes(src, clen - take, seekable);
    }
    if ok {
      tags' := apply(tags, buf[..take]);
    }
  }

  /** Where a reader of a part that ends at `stop` may stand: `remain` bytes before it, or past the end of a file that ends sooner. */
  predicate Stands(file: seq<Byte>, pos: nat, remain: nat, stop: nat)
  {
    pos + remain == stop || (pos >= |file| && |file| < stop)
  }

  /**
   * The comments loop. `remain` bytes of the block are still owed; what is not taken is
   * left to the caller. Of a block cut short, the comments wholly there are taken.
   */
  method ReadComments<T>(src: Source, count: nat, room: nat, tags: T, apply: Tagger<T>, seekable: bool)
    returns (ok: bool, remain: nat, tags': T)
    requires src.Valid() && room < 0x100_0000
    modifies src
    ensures src.Valid() && old(src.pos) <= src.pos && remain <= room
    ensures src.reliable ==>
      && Stands(src.file, src.pos, remain, old(src.pos) + room) && (!ok ==> |src.file| <= src.pos && |src.file| < old(src.pos) + room)
      && tags' == Comments(Part(src.file, old(src.pos), room), room, count, tags, apply, seekable && src.loose)
  {
    ok, remain, tags' := true, room, tags;
    var i, more := 0, true;
    ghost var file, stop := src.file, src.pos + room;
    ghost var want := Comments(Part(file, src.pos, room), room, count, tags, apply, seekable && src.loose);
    while i < count && more
      invariant i <= count && remain <= room && src.Valid() && old(src.pos) <= src.pos && (more ==> ok)
      invariant src.reliable && more ==> src.pos + remain == stop && want == Comments(Part(file, src.pos, remain), remain, count - i, tags', apply, seekable && src.loose)
      invariant src.reliable && !more ==> Stands(file, src.pos, remain, stop) && want == tags' && (!ok ==> |file| <= src.pos && |file| < stop)
    {
      ok, more, remain, tags' := OneComment(src, remain, count - i, tags', apply, seekable, want, stop);
      i := i + 1;
    }
  }

  /** One turn of the comments loop; `more` says that another may follow. */
  method OneComment<T>(src: Source, room: nat, left: nat, tags: T, apply: Tagger<T>, seekable: bool, ghost want: T, ghost stop: nat)
    returns (ok: bool, more: bool, remain: nat, tags': T)
    requires src.Valid() && room < 0x100_0000 && left > 0
    requires src.reliable ==> src.pos + room == stop && want == Comments(Part(src.file, src.pos, room), room, left, tags, apply, seekable && src.loose)
    modifies src
    ensures src.Valid() && old(src.pos) <= src.pos && remain <= room && (more ==> ok)
    ensures src.reliable && more ==>
      src.pos + remain == stop && want == Comments(Part(src.file, src.pos, remain), remain, left - 1, tags', apply, seekable && src.loose)
    ensures src.reliable && !more ==>
      Stands(src.file, src.pos, remain, stop) && want == tags' && (!ok ==> |src.file| <= src.pos && |src.file| < stop)
  {
    hide Comments, Part, Rd32;
    ok, more, remain, tags' := true, false, room, tags;
    CommentStep(src.file, src.pos, room, left, tags, apply, seekable && src.loose);
    if remain < 4 {
      return;
    }
    var got, clen := ReadWord(src);
    if !got {
      return;
    }
    remain := remain - 4;
    if clen > remain {
      return;
    }
    remain := remain - clen;
    ok, tags' := ReadComment(src, clen, tags', apply, seekable);
    more := ok;
  }

  /** The vendor string, skipped. `more` says that it was there whole. */
  method SkipVendor(src: Source, room: nat, seekable: bool) returns (ok: bool, more: bool, remain: nat)
    requires src.Valid() && room < 0x100_0000
    modifies src
    ensures src.Valid() && old(src.pos) <= src.pos && remain <= room && (more ==> ok)
    ensures src.reliable && !more ==> CommentEnd(src.file, old(src.pos), room, false) < 0
    ensures src.reliable && more ==>
      && remain == room - (src.pos - old(src.pos))
      && (if src.pos <= |src.file| then src.pos == CommentEnd(src.file, old(src.pos), room, false)
          else CommentEnd(src.file, old(src.pos), room, false) < 0)
    ensures src.reliable && !more ==>
      Stands(src.file, src.pos, remain, old(src.pos) + room) && (!ok ==> |src.file| <= src.pos && |src.file| < old(src.pos) + room)
  {
    ok, more, remain := true, false, room;
    if remain < 4 {
      return;
    }
    var got, vendor := ReadWord(src);
    if !got {
      return;
    }
    remain := remain - 4;
    if vendor > remain {
      return;
    }
    ok := SkipBytes(src, vendor, seekable);
    if ok {
      remain := remain - vendor;
    }
    more := ok;
  }

  /** Vendor string and comment count. `more` says that comments may follow. */
  method ReadVendor<T>(src: Source, room: nat, seekable: bool, ghost tags: T, ghost apply: Tagger<T>)
    returns (ok: bool, more: bool, remain: nat, count: nat)
    requires src.Valid() && room < 0x100_0000
    modifies src
    ensures src.Valid() && old(src.pos) <= src.pos && remain <= room && (more ==> ok)
    ensures src.reliable && more ==>
      && src.pos + remain == old(src.pos) + room
      && Tags(Part(src.file, old(src.pos), room), room, tags, apply, seekable && src.loose)
         == Comments(Part(src.file, src.pos, remain), remain, count, tags, apply, seekable && src.loose)
    ensures src.reliable && !more ==>
      && Stands(src.file, src.pos, remain, old(src.pos) + room) && (!ok ==> |src.file| <= src.pos && |src.file| < old(src.pos) + room)
      && Tags(Part(src.file, old(src.pos), room), room, tags, apply, seekable && src.loose) == tags
  {
    hide Tags, Counted, Comments, CommentEnd, Part;
    ghost var at, loose := src.pos, seekable && src.loose;
    count := 0;
    ok, more, remain := SkipVendor(src, room, seekable);
    if src.reliable {
      if more {
        VendorPassed(src.file, at, room, src.pos, tags, apply, loose);
      } else {
        VendorStep(src.file, at, room, tags, apply, loose);
      }
    }
    if more {
      more, remain, count := ReadCount(src, remain, tags, apply, seekable && src.loose);
    }
  }

  /** The comment count. */
  method ReadCount<T>(src: Source, room: nat, ghost tags: T, ghost apply: Tagger<T>, ghost loose: bool)
    returns (more: bool, remain: nat, count: nat)
    requires src.Valid() && room < 0x100_0000
    modifies src
    ensures src.Valid() && old(src.pos) <= src.pos && remain <= room
    ensures src.reliable && more ==>
      && src.pos + remain == old(src.pos) + room
      && Counted(Part(src.file, old(src.pos), room), room, tags, apply, loose)
         == Comments(Part(src.file, src.pos, remain), remain, count, tags, apply, loose)
    ensures src.reliable && !more ==>
      Stands(src.file, src.pos, remain, old(src.pos) + room) && Counted(Part(src.file, old(src.pos), room), room, tags, apply, loose) == tags
  {
    hide Comments, Counted, Part, Rd32;
    CountedStep(src.file, src.pos, room, tags, apply, loose);
    more, remain, count := false, room, 0;
    if remain < 4 {
      return;
    }
    var got, word := ReadWord(src);
    if got {
      more, remain, count := true, remain - 4, Min(word, MAX_COMMENTS);
    }
  }

  /**
   * A VORBIS_COMMENT body. Whatever lengths it claims inside, exactly its own bytes are
   * consumed, or all that the file has of them; and the tags are those of these bytes.
   */
  method ParseVorbisComment<T>(src: Source, blockLen: nat, tags: T, apply: Tagger<T>, seekable: bool) returns (tags': T)
    requires src.Valid() && blockLen < 0x100_0000
    modifies src
    ensures src.Valid() && old(src.pos) <= src.pos
    ensures src.reliable ==>
      Reaches(src.file, old(src.pos), blockLen, src.pos) && tags' == Tags(Part(src.file, old(src.pos), blockLen), blockLen, tags, apply, seekable && src.loose)
  {
    tags' := tags;
    var ok, more, remain, count := ReadVendor(src, blockLen, seekable, tags, apply);
    if !ok {
      return;
    }
    if more {
      ok, remain, tags' := ReadComments(src, count, remain, tags, apply, seekable);
      if !ok {
        return;
      }
    }
    var drained := SkipBytes(src, remain, seekable);
  }

  /** One block's body. `go` is false when the walk must end with it. */
  method ReadBody<T>(src: Source, typ: nat, len: nat, m: Meta<T>, apply: Tagger<T>, seekable: bool, ghost step: Stepper<T>)
    returns (m': Meta<T>, go: bool)
    requires src.Valid() && len < 0x100_0000 && step == Blocks(apply, seekable && src.loose)
    modifies src
    ensures src.Valid() && old(src.pos) <= src.pos
    ensures src.reliable ==>
      var r := step(m, typ, Part(src.file, old(src.pos), len), len);
      && m' == r.0 && (go ==> r.1 && Reaches(src.file, old(src.pos), len, src.pos))
      && (!go ==> !r.1 || old(src.pos) + len > |src.file|)
  {
    hide Tags, Streaminfo;
    m', go := m, true;
    if typ == 0 {
      if len < STREAMINFO_LEN {
        return m, false;
      }
      var si := new Byte[STREAMINFO_LEN];
      ghost var p0 := src.pos;
      var ok := ReadFull(src, si, STREAMINFO_LEN);
      if !ok {
        return m, false;
      }
      m' := Streaminfo(m, si[..]);
      assert si[..] == si[..STREAMINFO_LEN];
      PartOnward(src.file, p0, len, STREAMINFO_LEN);
      go := SkipBytes(src, len - STREAMINFO_LEN, seekable);
    } else if typ == 3 {
      m' := m.(seekPoints := len / 18);
      go := SkipBytes(src, len, seekable);
    } else if typ == 4 {
      var tags := ParseVorbisComment(src, len, m.tags, apply, seekable);
      m' := m.(tags := tags);
    } else {
      go := SkipBytes(src, len, seekable);
    }
  }

  /** A block header. */
  method ReadHeader(src: Source) returns (ok: bool, last: bool, typ: nat, len: nat)
    requires src.Valid()
    modifies src
    ensures src.Valid() && old(src.pos) <= src.pos && len < 0x100_0000
    ensures src.reliable ==> ok == (old(src.pos) + 4 <= |src.file|)
    ensures ok ==> src.pos == old(src.pos) + 4 <= |src.file| && last == (src.file[old(src.pos)] >= 128)
                   && typ == src.file[old(src.pos)] % 128 && len == Be24(src.file, old(src.pos) + 1)
  {
    var hdr := new Byte[4];
    last, typ, len := false, 0, 0;
    ok := ReadFull(src, hdr, 4);
    if ok {
      ghost var s := src.file[old(src.pos)..src.pos];
      assert forall k :: 0 <= k < 4 ==> hdr[..4][k] == s[k];
      last, typ, len := hdr[0] >= 128, hdr[0] % 128, Be24(hdr[..], 1);
    }
  }

  /**
   * The whole parse. On a reliable source every header is read at a true block boundary,
   * and whatever the file, cut short or not, the result is that of walking it.
   */
  method Read<T>(src: Source, tags: T, apply: Tagger<T>, seekable: bool) returns (rc: int, m: Meta<T>)
    requires src.Valid() && src.pos == 0
    modifies src
    ensures src.Valid() && rc == (if m.have then 0 else -1)
    ensures src.reliable ==>
      m == if MAGIC <= src.file then Walk(src.file, 4, 0, Empty(tags), Blocks(apply, seekable && src.loose)) else Empty(tags)
  {
    m := Empty(tags);
    var magic := new Byte[4];
    ghost var file := src.file;
    var ok := ReadFull(src, magic, 4);
    if !ok || magic[..] != MAGIC {
      assert ok ==> magic[..] == file[..4];
      return -1, m;
    }
    assert magic[..] == file[..4];
    m := ReadBlocks(src, m, apply, seekable, Blocks(apply, seekable && src.loose));
    rc := if m.have then 0 else -1;
  }

  /** With no whole header left, or no block, the walk is over. */
  lemma WalkEnd<T>(file: seq<Byte>, at: nat, k: nat, m: Meta<T>, step: Stepper<T>)
    requires k <= MAX_BLOCKS && (k == MAX_BLOCKS || at + 4 > |file|)
    ensures Walk(file, at, k, m, step) == m
  {
  }

  /** One block of the walk. */
  lemma WalkBlock<T>(file: seq<Byte>, at: nat, k: nat, m: Meta<T>, m': Meta<T>, at': nat, go: bool, step: Stepper<T>)
    requires k < MAX_BLOCKS && at + 4 <= |file|
    requires var len := Be24(file, at + 1);
      var r := step(m, file[at] % 128, Part(file, at + 4, len), len);
      && m' == r.0 && (go ==> r.1 && Reaches(file, at + 4, len, at')) && (!go ==> !r.1 || at + 4 + len > |file|)
    ensures Walk(file, at, k, m, step) == if go && file[at] < 128 then Walk(file, at', k + 1, m', step) else m'
  {
    var len := Be24(file, at + 1);
    if at + 4 + len > |file| {
      WalkEnd(file, at + 4 + len, k + 1, m', step);
      if go {
        WalkEnd(file, at', k + 1, m', step);
      }
    }
  }

  /** One block: header and body. `more` says that another one follows. */
  method ReadBlock<T>(src: Source, k: nat, m: Meta<T>, apply: Tagger<T>, seekable: bool, ghost step: Stepper<T>)
    returns (m': Meta<T>, more: bool)
    requires src.Valid() && k < MAX_BLOCKS && step == Blocks(apply, seekable && src.loose)
    modifies src
    ensures src.Valid()
    ensures src.reliable ==>
      Walk(src.file, old(src.pos), k, m, step) == if more then Walk(src.file, src.pos, k + 1, m', step) else m'
  {
    m', more := m, false;
    ghost var at, file := src.pos, src.file;
    var ok, last, typ, len := ReadHeader(src);
    if !ok {
      if src.reliable {
        WalkEnd(file, at, k, m, step);
      }
      return;
    }
    var go;
    m', go := ReadBody(src, typ, len, m, apply, seekable, step);
    more := go && !last;
    if src.reliable {
      WalkBlock(file, at, k, m, m', src.pos, go, step);
    }
  }

  /** The loop over the blocks. */
  method ReadBlocks<T>(src: Source, m0: Meta<T>, apply: Tagger<T>, seekable: bool, ghost step: Stepper<T>)
    returns (m: Meta<T>)
    requires src.Valid() && step == Blocks(apply, seekable && src.loose)
    modifies src
    ensures src.Valid()
    ensures src.reliable ==> m == Walk(src.file, old(src.pos), 0, m0, step)
  {
    m := m0;
    var block, more := 0, true;
    ghost var file, want := src.file, Walk(src.file, src.pos, 0, m0, step);
    while block < MAX_BLOCKS && more
      invariant block <= MAX_BLOCKS && src.Valid()
      invariant src.reliable && more ==> want == Walk(file, src.pos, block, m, step)
      invariant src.reliable && !more ==> want == m
    {
      m, more := ReadBlock(src, block, m, apply, seekable, step);
      block := block + 1;
    }
    if more && src.reliable {
      WalkEnd(file, src.pos, block, m, step);
    }
  }
}
