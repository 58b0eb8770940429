/** The playlist reader: bytes from a chunked source, lines in a fixed buffer, entries in the caller's array. */
module M3uParser {
  import opened Words
  import opened Memory
  import opened ByteSource
  import opened Lines
  import opened PathBuild
  import opened Playlist

  const FILE_MAX: nat := 1024 * 1024
  const IO_CHUNK: nat := 512
  const EIO: int := -2

  // ---- text loops ---------------------------------------------------------------------

  method SkipBlanks(s: seq<Byte>, from: nat) returns (i: nat)
    requires from <= |s|
    ensures from <= i <= |s| && s[i..] == TrimFront(s[from..])
  {
    i := from;
    while i < |s| && IsBlank(s[i])
      invariant from <= i <= |s| && TrimFront(s[i..]) == TrimFront(s[from..])
    {
      assert s[i..][1..] == s[i + 1..];
      i := i + 1;
    }
  }

  /** The span of `s` without blanks at either end. */
  method TrimSpan(s: seq<Byte>) returns (lo: nat, hi: nat)
    ensures lo <= hi <= |s| && s[lo..hi] == Trim(s)
  {
    hi := |s|;
    lo := SkipBlanks(s, 0);
    assert s[0..] == s && s[lo..hi] == s[lo..];
    while hi > lo && IsBlank(s[hi - 1])
      invariant lo <= hi <= |s| && TrimBack(s[lo..hi]) == Trim(s)
    {
      assert s[lo..hi][..hi - lo - 1] == s[lo..hi - 1];
      hi := hi - 1;
    }
  }

  method PrefixMatches(s: seq<Byte>, pre: seq<Byte>) returns (yes: bool)
    ensures yes == StartsWith(s, pre)
  {
    var i := 0;
    while i < |pre|
      invariant i <= |pre| && (i <= |s|) && forall k :: 0 <= k < i ==> Lower(s[k]) == Lower(pre[k])
    {
      if i >= |s| || Lower(s[i]) != Lower(pre[i]) {
        return false;
      }
      i := i + 1;
    }
    return true;
  }

  /** How many bytes of whole UTF-8 sequences may be kept. */
  method KeptLength(cap: nat, src: seq<Byte>, len: Measure) returns (n: nat)
    requires Measures(len)
    ensures n == Keep(src, cap, len) && n <= cap && n <= |src|
  {
    n := 0;
    assert src[0..] == src;
    while n < |src|
      invariant n <= |src| && n <= cap && n + Keep(src[n..], cap - n, len) == Keep(src, cap, len)
      decreases |src| - n
    {
      var k := len(src[n..]);
      KeepStep(src, n, cap, len);
      if k == 0 || n + k > cap {
        break;
      }
      n := n + k;
    }
  }

  /** Copy whole UTF-8 sequences, at most `cap` bytes of them, and terminate. */
  method CopyUtf8(dst: array<Byte>, cap: nat, src: seq<Byte>, len: Measure) returns (n: nat)
    requires cap < dst.Length && Measures(len)
    modifies dst
    ensures n == Keep(src, cap, len) && n <= cap && n <= |src| && dst[..n] == src[..n] && dst[n] == 0
  {
    n := KeptLength(cap, src, len);
    Put(dst, 0, src[..n], n);
    assert dst[..n] == dst[..0] + src[..n];
    dst[n] := 0;
  }

  lemma DigitTaken(body: seq<Byte>, d: nat)
    requires d < |body| && IsDigit(body[d])
    ensures Digits(body[d..]) == 1 + Digits(body[d + 1..])
    ensures var c: int := body[d]; Value(body[..d + 1]) == Value(body[..d]) * 10 + (c - 0x30)
  {
    assert body[d..][0] == body[d] && body[d..][1..] == body[d + 1..];
    var s := body[..d + 1];
    assert s[..|s| - 1] == body[..d] && s[|s| - 1] == body[d];
  }

  lemma NoMoreDigits(body: seq<Byte>, d: nat)
    requires d <= |body| && (d < |body| ==> !IsDigit(body[d]))
    ensures Digits(body[d..]) == 0
  {
    if d < |body| {
      assert body[d..][0] == body[d];
    }
  }

  /** At most nine digits of `body`, their value, and whether a tenth follows. */
  method ReadDigits(body: seq<Byte>) returns (val: nat, digits: nat, more: bool)
    ensures digits == Min(Digits(body), 9) && val == Value(body[..digits]) && (more <==> Digits(body) > 9)
  {
    val, digits := 0, 0;
    assert body[0..] == body;
    while digits < |body| && IsDigit(body[digits]) && digits < 9
      invariant digits <= |body| && digits <= 9 && val == Value(body[..digits])
      invariant Digits(body) == digits + Digits(body[digits..])
    {
      DigitTaken(body, digits);
      var c: int := body[digits];
      val := val * 10 + (c - 0x30);
      digits := digits + 1;
    }
    more := digits < |body| && IsDigit(body[digits]);
    if more {
      DigitTaken(body, digits);
    } else {
      NoMoreDigits(body, digits);
    }
  }

  /** The leading signed number of a tag, as a duration. */
  method ParseSeconds(tag: seq<Byte>) returns (dur: int)
    requires |tag| >= 8
    ensures dur == DurationOf(tag)
  {
    var i := SkipBlanks(tag, 8);
    ghost var s := tag[i..];
    var neg, signed := false, i < |tag| && (tag[i] == 0x2D || tag[i] == 0x2B);
    if signed {
      assert s[0] == tag[i] && s[1..] == tag[i + 1..];
      neg := tag[i] == 0x2D;
      i := i + 1;
    }
    var val, digits, more := ReadDigits(tag[i..]);
    dur := if digits == 0 || more then -1 else if neg && val > 0 then -1 else val;
  }

  /** Where the first comma after the tag's name is, or its end. */
  method FindComma(tag: seq<Byte>) returns (k: nat)
    requires |tag| >= 8
    ensures 8 <= k <= |tag| && k == CommaFrom(tag, 8) && (k < |tag| ==> tag[k] == COMMA)
  {
    k := 8;
    while k < |tag| && tag[k] != COMMA
      invariant 8 <= k <= |tag| && CommaFrom(tag, k) == CommaFrom(tag, 8)
    {
      k := k + 1;
    }
  }

  /** The text up to its first control byte. */
  method PrintableLength(text: seq<Byte>) returns (te: nat)
    ensures te <= |text| && text[..te] == Printable(text)
  {
    te := 0;
    assert text[0..] == text;
    while te < |text| && text[te] >= 0x20
      invariant te <= |text| && Printable(text) == text[..te] + Printable(text[te..])
    {
      assert text[te..][1..] == text[te + 1..];
      te := te + 1;
    }
  }

  /** The title of a tag, into `dst`. */
  method ParseTitle(dst: array<Byte>, tag: seq<Byte>) returns (n: nat)
    requires |tag| >= 8 && dst.Length == TITLE_MAX + 1
    modifies dst
    ensures n <= TITLE_MAX && dst[..n] == TitleOf(tag)
  {
    var k := FindComma(tag);
    if k == |tag| {
      dst[0] := 0;
      return 0;
    }
    n := CopyTitle(dst, tag[k + 1..]);
  }

  /** What follows the comma: trimmed, cut at a control byte and to whole characters. */
  method CopyTitle(dst: array<Byte>, rest: seq<Byte>) returns (n: nat)
    requires dst.Length == TITLE_MAX + 1
    modifies dst
    ensures var text := Printable(Trim(rest)); n <= TITLE_MAX && n == Keep(text, TITLE_MAX, SeqLen) && n <= |text| && dst[..n] == text[..n]
  {
    var lo, hi := TrimSpan(rest);
    var te := PrintableLength(rest[lo..hi]);
    SeqLenMeasures();
    n := CopyUtf8(dst, TITLE_MAX, rest[lo..hi][..te], SeqLen);
  }

  // ---- the parser ---------------------------------------------------------------------

  class Parser {
    const line: array<Byte>
    const title: array<Byte>
    const work: array<Byte>
    const io: array<Byte>
    const out: array<Entry>
    const base: seq<Byte>
    var lineLen: nat
    var lineOver: bool
    var haveExt: bool
    var titleLen: nat
    var dur: int
    var count: nat
    var total: nat
    var skippedLong: nat
    var skippedEscape: nat
    var skippedBad: nat
    var truncated: bool
    var hadExtm3u: bool
    var hadBom: bool
    var fileTruncated: bool
    var bytes: nat

    ghost predicate Valid()
      reads this
    {
      && line.Length == LINE_MAX + 1 && title.Length == TITLE_MAX + 1 && work.Length == PATH_MAX + 1
      && io.Length == IO_CHUNK
      && line != title && line != work && line != io && title != work && title != io && work != io
      && lineLen <= LINE_MAX && titleLen <= TITLE_MAX && count <= out.Length && Canonical(base)
    }

    /** What the parse has made of the lines handled so far. */
    ghost function State(): Acc
      reads this, title, out
      requires Valid()
    {
      Acc(Report(out[..count], total, skippedLong, skippedEscape, skippedBad, truncated, hadExtm3u),
          if haveExt then Tag(title[..titleLen], dur) else NoTag)
    }

    ghost function Machine(bom: nat, bomDone: bool): Mach<Acc>
      reads this, title, out, line
      requires Valid()
    {
      Mach(bom, bomDone, line[..lineLen], lineOver, State())
    }

    constructor (dir: seq<Byte>, entries: array<Entry>)
      ensures Valid() && out == entries && base == BaseOf(dir) && fresh(line) && fresh(title) && fresh(work) && fresh(io)
      ensures Machine(0, false) == Begin(Empty()) && bytes == 0 && !hadBom && !fileTruncated
    {
      BaseCanonical(dir);
      line, title, work, io := new Byte[LINE_MAX + 1], new Byte[TITLE_MAX + 1], new Byte[PATH_MAX + 1], new Byte[IO_CHUNK];
      base, out := BaseOf(dir), entries;
      lineLen, lineOver, haveExt, titleLen, dur := 0, false, false, 0, -1;
      count, total, skippedLong, skippedEscape, skippedBad := 0, 0, 0, 0, 0;
      truncated, hadExtm3u, hadBom, fileTruncated, bytes := false, false, false, false, 0;
    }

    /** A comment line: only two directives mean anything. */
    method Comment(t: seq<Byte>, over: bool)
      requires Valid() && t != [] && t[0] == HASH && t == Trim(t)
      modifies `hadExtm3u, `haveExt, `titleLen, `dur, title
      ensures Valid() && State() == HandleLine(old(State()), t, over, base, out.Length)
    {
      if over {
        return;
      }
      var yes := PrefixMatches(t, EXTM3U);
      if yes {
        hadExtm3u := true;
        return;
      }
      yes := PrefixMatches(t, EXTINF);
      if yes {
        dur := ParseSeconds(t);
        titleLen := ParseTitle(title, t);
        haveExt := true;
      }
    }

    method CountFailure(plen: int, ghost why: Resolution)
      requires Valid() && plen < 0 && Encodes(plen, why)
      modifies `skippedLong, `skippedEscape, `skippedBad
      ensures Valid() && State() == old(State()).(report := Counted(old(State()).report, why))
    {
      if plen == TOOLONG {
        skippedLong := skippedLong + 1;
      } else if plen == ESCAPE {
        skippedEscape := skippedEscape + 1;
      } else {
        skippedBad := skippedBad + 1;
      }
    }

    /** A resolved track: stored if there is room, counted either way. */
    method Store(path: seq<Byte>, have: bool)
      requires Valid()
      modifies `total, `truncated, `count, out
      ensures Valid() && haveExt == old(haveExt)
      ensures State().report == Track(old(State()).report, path, if have then Tag(title[..titleLen], dur) else NoTag, out.Length)
    {
      total := total + 1;
      if count >= out.Length {
        truncated := true;
        return;
      }
      var e := if have then Entry(path, title[..titleLen], dur) else Entry(path, [], -1);
      ghost var before := out[..count];
      out[count] := e;
      count := count + 1;
      assert out[..count] == before + [e];
    }

    /** A track line consumes the pending tag, whatever becomes of it. */
    method TrackLine(t: seq<Byte>, over: bool)
      requires Valid() && t != [] && t[0] != HASH && t == Trim(t)
      modifies `haveExt, `skippedLong, `skippedEscape, `skippedBad, `total, `truncated, `count, out, work
      ensures Valid() && State() == HandleLine(old(State()), t, over, base, out.Length)
    {
      var have := haveExt;
      haveExt := false;
      if over {
        skippedLong := skippedLong + 1;
        return;
      }
      var plen := Build(work, PATH_MAX, base, t);
      if plen < 0 {
        CountFailure(plen, Resolve(PATH_MAX, base, t));
      } else {
        Store(work[..plen], have);
      }
    }

    lemma TrimTrim(s: seq<Byte>)
      ensures Trim(Trim(s)) == Trim(s)
    {
      TrimFrontDone(s);
      TrimBackKeeps(TrimFront(s));
    }

    lemma {:induction false} TrimFrontDone(s: seq<Byte>)
      ensures TrimFront(s) == [] || !IsBlank(TrimFront(s)[0])
      decreases |s|
    {
      if s != [] && IsBlank(s[0]) {
        TrimFrontDone(s[1..]);
      }
    }

    lemma {:induction false} TrimBackKeeps(s: seq<Byte>)
      requires s == [] || !IsBlank(s[0])
      ensures TrimFront(TrimBack(s)) == TrimBack(s) && TrimBack(TrimBack(s)) == TrimBack(s)
      decreases |s|
    {
      if s != [] && IsBlank(s[|s| - 1]) {
        TrimBackKeeps(s[..|s| - 1]);
      }
    }

    /** End of a line: handle what was assembled and start afresh. */
    method LineFlush()
      requires Valid()
      modifies this, line, title, out, work
      ensures Valid() && bytes == old(bytes) && hadBom == old(hadBom) && fileTruncated == old(fileTruncated)
      ensures State() == HandleLine(old(State()), old(line[..lineLen]), old(lineOver), base, out.Length)
      ensures lineLen == 0 && !lineOver
    {
      ghost var was := State();
      line[lineLen] := 0;
      var s := line[..lineLen];
      var over := lineOver;
      lineLen, lineOver := 0, false;
      var lo, hi := TrimSpan(s);
      TrimTrim(s);
      var t := s[lo..hi];
      if t != [] {
        if t[0] == HASH {
          Comment(t, over);
        } else {
          TrackLine(t, over);
        }
      }
    }

    method LinePush(c: Byte, ghost bom: nat, ghost done: bool)
      requires Valid()
      modifies `lineLen, `lineOver, line
      ensures Valid() && Machine(bom, done) == Push(old(Machine(bom, done)), c)
    {
      if lineOver {
        return;
      }
      if lineLen >= LINE_MAX {
        lineOver := true;
        return;
      }
      ghost var before := line[..lineLen];
      line[lineLen] := c;
      lineLen := lineLen + 1;
      assert line[..lineLen] == before + [c];
    }

    /** One byte of input. */
    method FeedByte(c: Byte, bomN: nat, bomDone: bool) returns (bomN': nat, bomDone': bool)
      requires Valid() && bomN <= 3 && (bomDone || bomN < 3)
      modifies this, line, title, out, work
      ensures Valid() && bytes == old(bytes) && fileTruncated == old(fileTruncated)
      ensures Machine(bomN', bomDone') == Feed(old(Machine(bomN, bomDone)), c, HandlerFor(base, out.Length))
      ensures bomN' <= 3 && (bomDone' || bomN' < 3) && hadBom == (old(hadBom) || (!bomDone && bomN' == 3))
    {
      bomN', bomDone' := bomN, bomDone;
      if !bomDone {
        if c == BOM[bomN] {
          bomN' := bomN + 1;
          if bomN' == 3 {
            bomDone' := true;
            hadBom := true;
          }
          return;
        }
        Replay(bomN);
        bomN', bomDone' := 0, true;
      }
      if IsBreak(c) {
        LineFlush();
      } else {
        LinePush(c, bomN', true);
      }
    }

    /** A mark that broke off: its bytes belong to the first line after all. */
    method Replay(n: nat)
      requires Valid() && n <= 3
      modifies `lineLen, `lineOver, line
      ensures Valid() && Machine(n, false) == PushAll(old(Machine(n, false)), BOM[..n])
    {
      var k := 0;
      ghost var want := PushAll(Machine(n, false), BOM[..n]);
      assert BOM[0..n] == BOM[..n];
      while k < n
        invariant k <= n && Valid() && State() == old(State())
        invariant want == PushAll(Machine(n, false), BOM[k..n])
      {
        assert BOM[k..n][0] == BOM[k] && BOM[k..n][1..] == BOM[k + 1..n];
        LinePush(BOM[k], n, false);
        k := k + 1;
      }
      assert BOM[n..n] == [];
    }

    /** One chunk of input, byte by byte. */
    method FeedChunk(got: nat, bomN: nat, bomDone: bool, ghost seen: seq<Byte>, ghost chunk: seq<Byte>)
      returns (bomN': nat, bomDone': bool)
      requires Valid() && bomN <= 3 && (bomDone || bomN < 3) && got <= IO_CHUNK && io[..got] == chunk
      requires Machine(bomN, bomDone) == FeedAll(Begin(Empty()), seen, HandlerFor(base, out.Length))
      requires hadBom == (bomN == 3)
      modifies this, line, title, out, work
      ensures Valid() && bytes == old(bytes) && fileTruncated == old(fileTruncated)
      ensures Machine(bomN', bomDone') == FeedAll(Begin(Empty()), seen + chunk, HandlerFor(base, out.Length))
      ensures bomN' <= 3 && (bomDone' || bomN' < 3) && hadBom == (bomN' == 3)
    {
      bomN', bomDone' := bomN, bomDone;
      var i := 0;
      ghost var h := HandlerFor(base, out.Length);
      assert seen + chunk[..0] == seen;
      while i < got
        invariant i <= got && Valid() && bytes == old(bytes) && fileTruncated == old(fileTruncated)
        invariant bomN' <= 3 && (bomDone' || bomN' < 3) && hadBom == (bomN' == 3) && io[..got] == chunk
        invariant Machine(bomN', bomDone') == FeedAll(Begin(Empty()), seen + chunk[..i], h)
      {
        FeedAppend(Begin(Empty()), seen + chunk[..i], chunk[i], h);
        assert seen + chunk[..i] + [chunk[i]] == seen + chunk[..i + 1];
        assert io[i] == chunk[i];
        ghost var before := Machine(bomN', bomDone');
        BomSettled(before, chunk[i], h);
        bomN', bomDone' := FeedByte(io[i], bomN', bomDone');
        i := i + 1;
      }
      assert chunk[..got] == chunk;
    }

    /** A whole mark, once seen, stays seen. */
    lemma BomSettled(m: Mach<Acc>, c: Byte, h: Handler<Acc>)
      requires m.bom <= 3
      ensures m.bomDone ==> Feed(m, c, h).bom == m.bom
      ensures !m.bomDone && m.bom < 3 && Feed(m, c, h).bom == 3 ==> c == BOM[2] && m.bom == 2
    {
    }

    /** The next chunk, which is the file's where all before it, from `p0` on, was. */
    method Pull(src: Source, want: nat, ghost p0: nat) returns (got: nat)
      requires Valid() && src.Valid() && !src.failed && 0 < want <= IO_CHUNK
      requires src.pos == p0 || p0 <= src.pos <= |src.file|
      modifies src, io
      ensures Valid() && State() == old(State()) && src.Valid() && got <= want && src.pos == old(src.pos) + got
      ensures if got > 0 then src.pos <= |src.file| && !src.failed else src.pos >= |src.file| || (src.failed && !src.reliable)
      ensures src.failed ==> !src.reliable
      ensures io[..got] == Cut(src.file, old(src.pos), src.pos)
      ensures Cut(src.file, p0, src.pos) == Cut(src.file, p0, old(src.pos)) + io[..got]
    {
      ghost var at := src.pos;
      got := src.Read(io, 0, want);
      assert io[..got] == io[0..0 + got];
      CutJoin(src.file, p0, at, src.pos);
    }

    /** The loop over the chunks; what has been consumed is fed to the line machine. */
    method Consume(src: Source) returns (rc: int, bomN: nat, bomDone: bool)
      requires Valid() && src.Valid() && !src.failed
      requires Machine(0, false) == Begin(Empty()) && bytes == 0 && !hadBom && !fileTruncated
      modifies this, line, title, out, work, io, src
      ensures Valid() && src.Valid() && old(src.pos) + bytes == src.pos && bytes <= FILE_MAX && !fileTruncated
      ensures rc == 0 || (rc == EIO && !src.reliable)
      ensures rc == 0 ==> src.pos == Upto(src.file, old(src.pos), FILE_MAX)
      ensures hadBom == (bomN == 3)
      ensures Machine(bomN, bomDone) == FeedAll(Begin(Empty()), Cut(src.file, old(src.pos), src.pos), HandlerFor(base, out.Length))
    {
      bomN, bomDone := 0, false;
      ghost var p0, file, h := src.pos, src.file, HandlerFor(base, out.Length);
      hide HandlerFor;
      assert Cut(file, p0, p0) == [];
      rc := 0;
      while bytes < FILE_MAX
        invariant Valid() && src.Valid() && !fileTruncated && p0 + bytes == src.pos && bytes <= FILE_MAX && rc == 0
        invariant bomN <= 3 && (bomDone || bomN < 3) && hadBom == (bomN == 3) && !src.failed
        invariant Machine(bomN, bomDone) == FeedAll(Begin(Empty()), Cut(file, p0, src.pos), h)
        invariant bytes > 0 ==> src.pos <= |file|
        decreases FILE_MAX - bytes
      {
        ghost var seen := Cut(file, p0, src.pos);
        var got := Pull(src, Min(FILE_MAX - bytes, IO_CHUNK), p0);
        if got == 0 {
          rc := if src.failed then EIO else 0;
          break;
        }
        bytes := bytes + got;
        bomN, bomDone := FeedChunk(got, bomN, bomDone, seen, io[..got]);
      }
    }

    /**
     * Read the playlist from the source, in chunks of whatever size it hands out. The
     * entries and every counter are those of the consumed bytes cut into lines in one go.
     */
    method Parse(src: Source) returns (rc: int)
      requires Valid() && src.Valid() && !src.failed
      requires Machine(0, false) == Begin(Empty()) && bytes == 0 && !hadBom && !fileTruncated
      modifies this, line, title, out, work, io, src
      ensures Valid() && src.Valid() && old(src.pos) + bytes == src.pos && bytes <= FILE_MAX
      ensures rc == 0 || (rc == EIO && !src.reliable)
      ensures rc == 0 ==> src.pos == Upto(src.file, old(src.pos), FILE_MAX)
      ensures fileTruncated == (bytes == FILE_MAX)
      ensures var consumed := Cut(src.file, old(src.pos), src.pos);
        && State() == Handled(Empty(), Processed(consumed, rc == 0 && !fileTruncated), HandlerFor(base, out.Length))
        && hadBom == (BOM <= consumed)
    {
      hide Handled, Processed, HandlerFor, FeedAll;
      var bomN, bomDone;
      rc, bomN, bomDone := Consume(src);
      Conclude(rc, bomN, bomDone, Cut(src.file, old(src.pos), src.pos));
    }

    /** The end of the input: the last line counts unless the cap or an error cut it short. */
    method Conclude(rc: int, bomN: nat, bomDone: bool, ghost consumed: seq<Byte>)
      requires Valid() && !fileTruncated && bytes <= FILE_MAX && hadBom == (bomN == 3)
      requires Machine(bomN, bomDone) == FeedAll(Begin(Empty()), consumed, HandlerFor(base, out.Length))
      modifies this, line, title, out, work
      ensures Valid() && bytes == old(bytes) && fileTruncated == (bytes == FILE_MAX)
      ensures State() == Handled(Empty(), Processed(consumed, rc == 0 && !fileTruncated), HandlerFor(base, out.Length))
      ensures hadBom == (BOM <= consumed)
    {
      ByteFedIsLineBased(Empty(), consumed, rc == 0 && bytes < FILE_MAX, HandlerFor(base, out.Length));
      if bytes >= FILE_MAX {
        fileTruncated := true;
        lineLen, lineOver := 0, false;
      } else if rc == 0 && lineLen > 0 {
        LineFlush();
      }
    }
  }
}
