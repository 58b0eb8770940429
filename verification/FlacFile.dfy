/** A FLAC file's metadata as an encoder writes it, and that it is read back block by block. */
module FlacFile {
  import opened Words
  import opened Arith
  import opened FlacMeta

  /** The blocks of sections 8.2, 8.5, 8.6 and the others of RFC 9639, by what they say. */
  datatype Piece =
    | Info(front: seq<Byte>, rate: nat, layout: nat, total: nat, digest: seq<Byte>)
    | SeekTable(points: seq<Byte>)
    | VorbisComment(vendor: seq<Byte>, comments: seq<seq<Byte>>)
    | Other(typ: nat, body: seq<Byte>)

  /** The fields fit, and so does the block. */
  predicate Sound(p: Piece)
  {
    && |Body(p)| < 0x100_0000
    && match p
       case Info(front, rate, layout, total, digest) =>
         |front| == 10 && rate < 0x10_0000 && layout < 0x100 && total < 0x10_0000_0000 && |digest| == 16
       case SeekTable(points) => |points| % 18 == 0
       case VorbisComment(vendor, comments) =>
         |vendor| < TWO32 && |comments| < TWO32 && forall k :: 0 <= k < |comments| ==> |comments[k]| < TWO32
       case Other(typ, body) => typ < 128 && typ != 0 && typ != 3 && typ != 4
  }

  /** `n` in four bytes, high byte first. */
  function Big32(n: nat): (r: seq<Byte>)
    requires n < TWO32
    ensures |r| == 4
  {
    [n / 16777216, n / 65536 % 256, n / 256 % 256, n % 256]
  }

  function Type(p: Piece): nat
  {
    match p
    case Info(_, _, _, _, _) => 0
    case SeekTable(_) => 3
    case VorbisComment(_, _) => 4
    case Other(typ, _) => typ
  }

  function Body(p: Piece): seq<Byte>
  {
    match p
    case Info(front, rate, layout, total, digest) =>
      front + Big32((rate * 4096 + layout * 16 + total / TWO32) % TWO32) + Big32(total % TWO32) + digest
    case SeekTable(points) => points
    case VorbisComment(vendor, comments) => Counted32(vendor) + Le32(|comments| % TWO32) + CommentList(comments)
    case Other(_, body) => body
  }

  /** A length in four bytes, low byte first, and that many bytes. */
  function Counted32(s: seq<Byte>): seq<Byte>
  {
    Le32(|s| % TWO32) + s
  }

  function CommentList(comments: seq<seq<Byte>>): seq<Byte>
  {
    if comments == [] then [] else Counted32(comments[0]) + CommentList(comments[1..])
  }

  /** The header's four bytes. */
  function Header(typ: nat, last: bool, len: nat): (r: seq<Byte>)
    requires typ < 128 && len < 0x100_0000
    ensures |r| == 4
  {
    [typ + (if last then 128 else 0), len / 65536, len / 256 % 256, len % 256]
  }

  /** The blocks, the last one flagged, and whatever follows. */
  function Stream(pieces: seq<Piece>, audio: seq<Byte>): seq<Byte>
    requires forall k :: 0 <= k < |pieces| ==> Sound(pieces[k])
  {
    if pieces == [] then audio
    else
      assert Sound(pieces[0]);
      Header(Type(pieces[0]), |pieces| == 1, |Body(pieces[0])|) + Body(pieces[0]) + Stream(pieces[1..], audio)
  }

  // ---- what it means ----------------------------------------------------------------------------

  /** The first `n` comments, each as far as it is kept, folded into the tags. */
  function Applied<T>(comments: seq<seq<Byte>>, n: nat, tags: T, apply: Tagger<T>): T
    decreases |comments|, n
  {
    if comments == [] || n == 0 then tags
    else Applied(comments[1..], n - 1, apply(tags, comments[0][..Min(512, |comments[0]|)]), apply)
  }

  function Meaning<T>(m: Meta<T>, p: Piece, apply: Tagger<T>): Meta<T>
  {
    match p
    case Info(_, rate, _, total, _) =>
      m.(have := true, rate := rate, duration := if rate != 0 && total != 0 then Reported(total, rate) else m.duration)
    case SeekTable(points) => m.(seekPoints := |points| / 18)
    case VorbisComment(_, comments) => m.(tags := Applied(comments, 256, m.tags, apply))
    case Other(_, _) => m
  }

  function MeaningOf<T>(m: Meta<T>, pieces: seq<Piece>, apply: Tagger<T>): Meta<T>
    decreases |pieces|
  {
    if pieces == [] then m else MeaningOf(Meaning(m, pieces[0], apply), pieces[1..], apply)
  }

  // ---- comments -------------------------------------------------------------------------------

  lemma CountedParts(s: seq<Byte>, rest: seq<Byte>)
    requires |s| < TWO32
    ensures var all := Counted32(s) + rest;
      |all| == 4 + |s| + |rest| && Rd32(all, 0) == |s| && all[4..4 + |s|] == s && all[4 + |s|..] == rest
  {
    var all := Counted32(s) + rest;
    assert all[0..4] == Le32(|s|);
    Le32RoundTrip(all, 0, |s|);
  }

  lemma {:induction false} CommentsRead<T>(comments: seq<seq<Byte>>, n: nat, tags: T, apply: Tagger<T>, loose: bool)
    requires n <= |comments| && forall k :: 0 <= k < |comments| ==> |comments[k]| < TWO32
    ensures Comments(CommentList(comments), |CommentList(comments)|, n, tags, apply, loose) == Applied(comments, n, tags, apply)
    decreases n
  {
    hide Comments, Behind;
    var s := CommentList(comments);
    if n == 0 {
      CommentsOver(s, |s|, n, tags, apply, loose);
    } else {
      var c, rest := comments[0], CommentList(comments[1..]);
      CountedParts(c, rest);
      var tag := c[..Min(512, |c|)];
      assert s[4..4 + Min(|c|, COMMENT_CAP)] == s[4..4 + |c|][..Min(|c|, COMMENT_CAP)];
      CommentsTaken(s, |s|, n, |c|, rest, tag, tags, apply, loose);
      CommentsRead(comments[1..], n - 1, apply(tags, tag), apply, loose);
    }
  }

  lemma {:induction false} AppliedCut<T>(comments: seq<seq<Byte>>, n: nat, m: nat, tags: T, apply: Tagger<T>)
    requires n == Min(|comments|, m)
    ensures Applied(comments, n, tags, apply) == Applied(comments, m, tags, apply)
    decreases |comments|
  {
    if comments != [] && n > 0 {
      AppliedCut(comments[1..], n - 1, m - 1, apply(tags, comments[0][..Min(512, |comments[0]|)]), apply);
    }
  }

  lemma CountRead<T>(comments: seq<seq<Byte>>, tags: T, apply: Tagger<T>, loose: bool)
    requires |comments| < TWO32 && forall k :: 0 <= k < |comments| ==> |comments[k]| < TWO32
    ensures var s := Le32(|comments|) + CommentList(comments);
      Counted(s, |s|, tags, apply, loose) == Applied(comments, 256, tags, apply)
  {
    hide Comments, Applied, CommentList, Rd32, Le32;
    var list := CommentList(comments);
    var s := Le32(|comments|) + list;
    assert s[0..4] == Le32(|comments|) && s[4..] == list;
    Le32RoundTrip(s, 0, |comments|);
    var n: nat := Min(|comments|, MAX_COMMENTS);
    CommentsRead(comments, n, tags, apply, loose);
    AppliedCut(comments, n, 256, tags, apply);
  }

  lemma TagsRead<T>(vendor: seq<Byte>, comments: seq<seq<Byte>>, tags: T, apply: Tagger<T>, loose: bool)
    requires |vendor| < TWO32 && |comments| < TWO32 && forall k :: 0 <= k < |comments| ==> |comments[k]| < TWO32
    ensures var body := Body(VorbisComment(vendor, comments)); Tags(body, |body|, tags, apply, loose) == Applied(comments, 256, tags, apply)
  {
    hide Counted, Applied, CommentList, Rd32, Le32, Counted32;
    var s := Le32(|comments|) + CommentList(comments);
    var body := Counted32(vendor) + s;
    CountedParts(vendor, s);
    CountRead(comments, tags, apply, loose);
    assert Body(VorbisComment(vendor, comments)) == body;
  }

  // ---- the numbers ------------------------------------------------------------------------------

  lemma Big32Back(b: seq<Byte>, at: nat, n: nat)
    requires n < TWO32 && at + 4 <= |b| && b[at..at + 4] == Big32(n)
    ensures Be32(b, at) == n
  {
    var w := b[at..at + 4];
    assert b[at] == w[0] && b[at + 1] == w[1] && b[at + 2] == w[2] && b[at + 3] == w[3];
    var v1, v2, v3 := n / 256, n / 65536, n / 16777216;
    assert v2 == v1 / 256 && v3 == v2 / 256;
    assert n == 256 * v1 + n % 256 && v1 == 256 * v2 + v1 % 256 && v2 == 256 * v3 + v2 % 256;
  }

  lemma InfoParts(front: seq<Byte>, x: seq<Byte>, y: seq<Byte>, digest: seq<Byte>)
    requires |front| == 10 && |x| == 4 && |y| == 4 && |digest| == 16
    ensures var b := front + x + y + digest; |b| == STREAMINFO_LEN && b[10..14] == x && b[14..18] == y
  {
  }

  lemma InfoRead(p: Piece)
    requires p.Info? && Sound(p)
    ensures |Body(p)| == STREAMINFO_LEN && SampleRate(Body(p)) == p.rate && TotalSamples(Body(p)) == p.total
  {
    hide SampleRate, TotalSamples, Big32, Be32;
    var hi, lo := p.rate * 4096 + p.layout * 16 + p.total / TWO32, p.total % TWO32;
    assert p.total / TWO32 < 16 && hi < TWO32;
    InfoParts(p.front, Big32(hi), Big32(lo), p.digest);
    var b := Body(p);
    assert b == p.front + Big32(hi) + Big32(lo) + p.digest;
    Big32Back(b, 10, hi);
    Big32Back(b, 14, lo);
    StreaminfoWord(b);
    WordParts(p.rate, p.layout, p.total);
  }

  lemma WordParts(rate: nat, layout: nat, total: nat)
    requires rate < 0x10_0000 && layout < 0x100 && total < 0x10_0000_0000
    ensures var w := (rate * 4096 + layout * 16 + total / TWO32) * TWO32 + total % TWO32;
      w / 0x1000_0000_0000 == rate && w % 0x10_0000_0000 == total
  {
    var w := (rate * 4096 + layout * 16 + total / TWO32) * TWO32 + total % TWO32;
    assert total == TWO32 * (total / TWO32) + total % TWO32;
    assert w == 0x1000_0000_0000 * rate + (0x10_0000_0000 * layout + total);
    ModuloOf(w, 0x1000_0000_0000, rate, 0x10_0000_0000 * layout + total);
    assert w == 0x10_0000_0000 * (256 * rate + layout) + total;
    ModuloOf(w, 0x10_0000_0000, 256 * rate + layout, total);
  }

  // ---- block by block -----------------------------------------------------------------------------

  lemma PieceRead<T>(m: Meta<T>, p: Piece, apply: Tagger<T>, loose: bool)
    requires Sound(p)
    ensures Block(m, Type(p), Body(p), |Body(p)|, apply, loose) == (Meaning(m, p, apply), true)
  {
    hide Tags, Applied, SampleRate, TotalSamples, Body;
    if p.Info? {
      InfoRead(p);
      assert Body(p)[..STREAMINFO_LEN] == Body(p);
    } else if p.VorbisComment? {
      TagsRead(p.vendor, p.comments, m.tags, apply, loose);
    } else if p.SeekTable? {
      SeekBody(p);
    }
  }

  lemma SeekBody(p: Piece)
    requires p.SeekTable?
    ensures Body(p) == p.points
  {
  }

  /** The header at `at` and the body behind it. */
  lemma HeaderRead(file: seq<Byte>, at: nat, typ: nat, last: bool, body: seq<Byte>)
    requires typ < 128 && |body| < 0x100_0000 && at + 4 + |body| <= |file|
    requires file[at..at + 4] == Header(typ, last, |body|) && file[at + 4..at + 4 + |body|] == body
    ensures file[at] % 128 == typ && (file[at] >= 128 <==> last) && Be24(file, at + 1) == |body| && Part(file, at + 4, |body|) == body
  {
    var h, n := file[at..at + 4], |body|;
    assert file[at] == h[0] && file[at + 1] == h[1] && file[at + 2] == h[2] && file[at + 3] == h[3];
    var v1, v2 := n / 256, n / 65536;
    assert v2 == v1 / 256 && n == 256 * v1 + n % 256 && v1 == 256 * v2 + v1 % 256;
  }

  lemma {:induction false} StreamRead<T>(file: seq<Byte>, at: nat, k: nat, m: Meta<T>, pieces: seq<Piece>, audio: seq<Byte>, apply: Tagger<T>, loose: bool)
    requires pieces != [] && k + |pieces| <= MAX_BLOCKS && forall i :: 0 <= i < |pieces| ==> Sound(pieces[i])
    requires at <= |file| && file[at..] == Stream(pieces, audio)
    ensures Walk(file, at, k, m, Blocks(apply, loose)) == MeaningOf(m, pieces, apply)
    decreases |pieces|
  {
    hide Block, Body, Meaning, Header, Be24, Stream, Sound, Part, Walk, Type;
    var p, step: Stepper<T> := pieces[0], Blocks(apply, loose);
    var body := Body(p);
    StreamFront(file, at, pieces, audio);
    HeaderRead(file, at, Type(p), |pieces| == 1, body);
    PieceRead(m, p, apply, loose);
    WalkBlock(file, at, k, m, Meaning(m, p, apply), at + 4 + |body|, true, step);
    if |pieces| > 1 {
      StreamRead(file, at + 4 + |body|, k + 1, Meaning(m, p, apply), pieces[1..], audio, apply, loose);
    }
  }

  lemma StreamFront(file: seq<Byte>, at: nat, pieces: seq<Piece>, audio: seq<Byte>)
    requires pieces != [] && forall i :: 0 <= i < |pieces| ==> Sound(pieces[i])
    requires at <= |file| && file[at..] == Stream(pieces, audio)
    ensures var body := Body(pieces[0]);
      && Type(pieces[0]) < 128 && |body| < 0x100_0000 && at + 4 + |body| <= |file|
      && file[at..at + 4] == Header(Type(pieces[0]), |pieces| == 1, |body|) && file[at + 4..at + 4 + |body|] == body
      && file[at + 4 + |body|..] == Stream(pieces[1..], audio)
  {
    hide Header, Body;
    var body, rest := Body(pieces[0]), Stream(pieces[1..], audio);
    var h := Header(Type(pieces[0]), |pieces| == 1, |body|);
    var s := file[at..];
    assert s == h + body + rest;
    assert file[at..at + 4] == s[..4] == h;
    assert file[at + 4..at + 4 + |body|] == s[4..4 + |body|] == body;
    assert file[at + 4 + |body|..] == s[4 + |body|..] == rest;
  }

  /**
   * A file of up to 64 blocks, each written from what it says, is read as saying that, in
   * order, whatever audio follows and whichever kind of source it is read from.
   */
  lemma ReadBack<T>(pieces: seq<Piece>, audio: seq<Byte>, tags: T, apply: Tagger<T>, loose: bool)
    requires 1 <= |pieces| <= MAX_BLOCKS && forall i :: 0 <= i < |pieces| ==> Sound(pieces[i])
    ensures var file := [0x66, 0x4C, 0x61, 0x43] + Stream(pieces, audio);
      MAGIC <= file && Walk(file, 4, 0, Empty(tags), Blocks(apply, loose)) == MeaningOf(Empty(tags), pieces, apply)
  {
    var file := [0x66, 0x4C, 0x61, 0x43] + Stream(pieces, audio);
    assert file[4..] == Stream(pieces, audio);
    StreamRead(file, 4, 0, Empty(tags), pieces, audio, apply, loose);
  }
}
