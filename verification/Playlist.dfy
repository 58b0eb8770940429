/** What the lines of a playlist mean: tags, tracks, and the counters that account for every line. */
module Playlist {
  import opened Words
  import opened Lines
  import opened PathBuild

  const PATH_MAX: nat := 191
  const TITLE_MAX: nat := 64

  datatype Entry = Entry(path: seq<Byte>, title: seq<Byte>, duration: int)

  datatype Report = Report(
    entries: seq<Entry>, total: nat, skippedLong: nat, skippedEscape: nat, skippedBad: nat,
    truncated: bool, hadExtm3u: bool)

  datatype Tag = NoTag | Tag(title: seq<Byte>, duration: int)

  datatype Acc = Acc(report: Report, pending: Tag)

  // ---- text helpers -------------------------------------------------------------------

  predicate IsBlank(c: Byte)
  {
    c == 0x20 || c == 0x09
  }

  function TrimFront(s: seq<Byte>): seq<Byte>
  {
    if s != [] && IsBlank(s[0]) then TrimFront(s[1..]) else s
  }

  function TrimBack(s: seq<Byte>): seq<Byte>
  {
    if s != [] && IsBlank(s[|s| - 1]) then TrimBack(s[..|s| - 1]) else s
  }

  function Trim(s: seq<Byte>): seq<Byte>
  {
    TrimBack(TrimFront(s))
  }

  function Lower(c: Byte): Byte
  {
    if 0x41 <= c <= 0x5A then c + 32 else c
  }

  /** `s` begins with `pre`, letters compared without case. */
  predicate StartsWith(s: seq<Byte>, pre: seq<Byte>)
  {
    |pre| <= |s| && forall k :: 0 <= k < |pre| ==> Lower(s[k]) == Lower(pre[k])
  }

  /** "#EXTM3U" and "#EXTINF:" */
  const EXTM3U: seq<Byte> := [0x23, 0x45, 0x58, 0x54, 0x4D, 0x33, 0x55]
  const EXTINF: seq<Byte> := [0x23, 0x45, 0x58, 0x54, 0x49, 0x4E, 0x46, 0x3A]
  const HASH: Byte := 0x23
  const COMMA: Byte := 0x2C

  // ---- titles -------------------------------------------------------------------------

  predicate IsContinuation(c: Byte)
  {
    0x80 <= c < 0xC0
  }

  /** How many bytes a sequence led by `b` has; 0 when `b` cannot lead one. */
  function Led(b: Byte): nat
  {
    if b < 0x80 then 1
    else if 0xC2 <= b <= 0xDF then 2
    else if 0xE0 <= b <= 0xEF then 3
    else if 0xF0 <= b <= 0xF4 then 4
    else 0
  }

  /** Length of the complete UTF-8 sequence at the front of `s`, or 0. */
  function SeqLen(s: seq<Byte>): (n: nat)
    ensures n <= |s|
  {
    if s == [] then 0
    else
      var n := Led(s[0]);
      if n <= |s| && forall k :: 1 <= k < n ==> IsContinuation(s[k]) then n else 0
  }

  /** Tells how long the sequence at the front of a text is; 0 when there is no complete one. */
  type Measure = seq<Byte> -> nat

  /** How much of `s` is kept: whole sequences, up to `cap` bytes. */
  function Keep(s: seq<Byte>, cap: int, len: Measure): (n: nat)
    ensures n <= |s| && (cap >= 0 ==> n <= cap)
    decreases |s|
  {
    var n := len(s);
    if n == 0 || n > cap || n > |s| then 0 else n + Keep(s[n..], cap - n, len)
  }

  /** Nothing but complete sequences. */
  predicate Framed(s: seq<Byte>, len: Measure)
    decreases |s|
  {
    s == [] || (0 < len(s) <= |s| && Framed(s[len(s)..], len))
  }

  /** A complete sequence is found whatever follows it, and lies within the text. */
  ghost predicate Measures(len: Measure)
  {
    && (forall s: seq<Byte> :: len(s) <= |s|)
    && (forall s: seq<Byte>, m: nat :: 0 < len(s) <= m <= |s| ==> len(s[..m]) == len(s))
  }

  lemma SeqLenMeasures()
    ensures Measures(SeqLen)
  {
    forall s: seq<Byte>, m: nat | 0 < SeqLen(s) <= m <= |s|
      ensures SeqLen(s[..m]) == SeqLen(s)
    {
      assert forall k :: 0 <= k < m ==> s[..m][k] == s[k];
    }
  }

  /** One step of the copy, `n` bytes in. */
  lemma KeepStep(s: seq<Byte>, n: nat, cap: nat, len: Measure)
    requires n <= |s| && n <= cap && Measures(len)
    ensures var k := len(s[n..]);
      n + k <= |s|
      && Keep(s[n..], cap - n, len) == if k == 0 || n + k > cap then 0 else k + Keep(s[n + k..], cap - n - k, len)
  {
    var k := len(s[n..]);
    assert k <= |s[n..]|;
    assert s[n..][k..] == s[n + k..];
  }

  /** What is kept is whole sequences, and nothing more could have been kept. */
  lemma {:induction false} KeepIsWhole(s: seq<Byte>, cap: nat, len: Measure)
    requires Measures(len)
    ensures Framed(s[..Keep(s, cap, len)], len)
    ensures var rest := s[Keep(s, cap, len)..]; rest == [] || len(rest) == 0 || Keep(s, cap, len) + len(rest) > cap
    decreases |s|
  {
    var n := len(s);
    assert n <= |s|;
    if n != 0 && n <= cap {
      KeepIsWhole(s[n..], cap - n, len);
      var m := Keep(s[n..], cap - n, len);
      assert len(s[..n + m]) == n;
      assert s[..n + m][n..] == s[n..][..m];
      assert s[n..][m..] == s[n + m..];
    }
  }

  /** Index of the first comma at or after `from`. */
  function CommaFrom(s: seq<Byte>, from: nat): (k: nat)
    requires from <= |s|
    ensures from <= k <= |s|
    decreases |s| - from
  {
    if from == |s| || s[from] == COMMA then from else CommaFrom(s, from + 1)
  }

  /** The text before the first control byte. */
  function Printable(s: seq<Byte>): seq<Byte>
  {
    if s == [] || s[0] < 0x20 then [] else [s[0]] + Printable(s[1..])
  }

  function TitleOf(tag: seq<Byte>): seq<Byte>
    requires |tag| >= 8
  {
    var k := CommaFrom(tag, 8);
    if k == |tag| then []
    else var text := Printable(Trim(tag[k + 1..])); text[..Keep(text, TITLE_MAX, SeqLen)]
  }

  predicate IsDigit(c: Byte)
  {
    0x30 <= c <= 0x39
  }

  function Digits(s: seq<Byte>): (n: nat)
    ensures n <= |s| && forall k :: 0 <= k < n ==> IsDigit(s[k])
  {
    if s == [] || !IsDigit(s[0]) then 0 else 1 + Digits(s[1..])
  }

  function Value(s: seq<Byte>): int
  {
    if s == [] then 0
    else
      var c: int := s[|s| - 1];
      Value(s[..|s| - 1]) * 10 + (c - 0x30)
  }

  /** Whole seconds, or -1 when absent, negative or longer than nine digits. */
  function DurationOf(tag: seq<Byte>): int
    requires |tag| >= 8
  {
    var s := TrimFront(tag[8..]);
    var signed := s != [] && (s[0] == 0x2D || s[0] == 0x2B);
    var body := if signed then s[1..] else s;
    var d := Digits(body);
    if d == 0 || d > 9 then -1
    else if signed && s[0] == 0x2D && Value(body[..d]) > 0 then -1
    else Value(body[..d])
  }

  // ---- lines --------------------------------------------------------------------------

  /** A line that names a track: not blank, and not a comment. */
  predicate IsTrack(line: seq<Byte>)
  {
    Trim(line) != [] && Trim(line)[0] != HASH
  }

  function Counted(r: Report, why: Resolution): Report
  {
    match why
    case TooLong => r.(skippedLong := r.skippedLong + 1)
    case Escape => r.(skippedEscape := r.skippedEscape + 1)
    case _ => r.(skippedBad := r.skippedBad + 1)
  }

  function Track(r: Report, path: seq<Byte>, tag: Tag, outMax: nat): Report
  {
    var e := Entry(path, if tag.Tag? then tag.title else [], if tag.Tag? then tag.duration else -1);
    if |r.entries| >= outMax then r.(total := r.total + 1, truncated := true)
    else r.(total := r.total + 1, entries := r.entries + [e])
  }

  function HandleLine(acc: Acc, line: seq<Byte>, over: bool, base: seq<Byte>, outMax: nat): Acc
  {
    var t := Trim(line);
    if t == [] then acc
    else if t[0] == HASH then
      if over then acc
      else if StartsWith(t, EXTM3U) then acc.(report := acc.report.(hadExtm3u := true))
      else if StartsWith(t, EXTINF) then acc.(pending := Tag(TitleOf(t), DurationOf(t)))
      else acc
    else if over then Acc(Counted(acc.report, TooLong), NoTag)
    else
      var r := Resolve(PATH_MAX, base, t);
      if r.Resolved? then Acc(Track(acc.report, r.path, acc.pending, outMax), NoTag)
      else Acc(Counted(acc.report, r), NoTag)
  }

  /** The playlist's own folder, normalised; an unusable one degrades to the root. */
  function BaseOf(dir: seq<Byte>): (base: seq<Byte>)
  {
    if dir == [] || |dir| > PATH_MAX then []
    else
      var r := Resolve(PATH_MAX, [], dir);
      if r.Resolved? then r.path else []
  }

  lemma BaseCanonical(dir: seq<Byte>)
    ensures Canonical(BaseOf(dir)) && |BaseOf(dir)| <= PATH_MAX
  {
    if BaseOf(dir) != [] {
      ResolvedCanonical(PATH_MAX, [], dir);
    }
  }

  function HandlerFor(base: seq<Byte>, outMax: nat): Handler<Acc>
  {
    (acc: Acc, line: seq<Byte>, over: bool) => HandleLine(acc, line, over, base, outMax)
  }

  function Empty(): Acc
  {
    Acc(Report([], 0, 0, 0, 0, false, false), NoTag)
  }

  // ---- accounting ---------------------------------------------------------------------

  /** How many lines name a track within their first 512 bytes. */
  function Tracks(lines: seq<seq<Byte>>): nat
  {
    if lines == [] then 0 else (if IsTrack(Clip(lines[0])) then 1 else 0) + Tracks(lines[1..])
  }

  function Accounted(r: Report): nat
  {
    r.total + r.skippedLong + r.skippedEscape + r.skippedBad
  }

  predicate Capped(r: Report, outMax: nat)
  {
    |r.entries| == Min(r.total, outMax) && (r.truncated <==> r.total > outMax)
  }

  lemma OneLine(acc: Acc, line: seq<Byte>, over: bool, base: seq<Byte>, outMax: nat)
    requires Capped(acc.report, outMax)
    ensures var r := HandleLine(acc, line, over, base, outMax).report;
      Capped(r, outMax) && Accounted(r) == Accounted(acc.report) + (if IsTrack(line) then 1 else 0)
  {
  }

  lemma {:induction false} LinesAccounted(acc: Acc, lines: seq<seq<Byte>>, base: seq<Byte>, outMax: nat)
    requires Capped(acc.report, outMax)
    ensures var r := Handled(acc, lines, HandlerFor(base, outMax)).report;
      Capped(r, outMax) && Accounted(r) == Accounted(acc.report) + Tracks(lines)
    decreases |lines|
  {
    if lines != [] {
      var over := |lines[0]| > LINE_MAX;
      OneLine(acc, Clip(lines[0]), over, base, outMax);
      LinesAccounted(HandleLine(acc, Clip(lines[0]), over, base, outMax), lines[1..], base, outMax);
    }
  }

  /** No track line is lost silently: each becomes an entry, or is counted in exactly one place. */
  lemma EveryTrackAccounted(bytes: seq<Byte>, flush: bool, base: seq<Byte>, outMax: nat)
    ensures var r := Handled(Empty(), Processed(bytes, flush), HandlerFor(base, outMax)).report;
      && Accounted(r) == Tracks(Processed(bytes, flush))
      && |r.entries| == Min(r.total, outMax) && (r.truncated <==> r.total > outMax)
  {
    LinesAccounted(Empty(), Processed(bytes, flush), base, outMax);
  }

  /** Every entry's path is canonical, non-empty and fits, and its title is whole characters. */
  predicate GoodEntry(e: Entry)
  {
    e.path != [] && |e.path| <= PATH_MAX && Canonical(e.path) && |e.title| <= TITLE_MAX && Framed(e.title, SeqLen)
  }

  predicate GoodAcc(acc: Acc)
  {
    && (forall k :: 0 <= k < |acc.report.entries| ==> GoodEntry(acc.report.entries[k]))
    && (acc.pending.Tag? ==> |acc.pending.title| <= TITLE_MAX && Framed(acc.pending.title, SeqLen))
  }

  lemma OneGoodLine(acc: Acc, line: seq<Byte>, over: bool, base: seq<Byte>, outMax: nat)
    requires GoodAcc(acc) && Canonical(base)
    ensures GoodAcc(HandleLine(acc, line, over, base, outMax))
  {
    var t := Trim(line);
    if t != [] && t[0] == HASH {
      if StartsWith(t, EXTINF) {
        var k := CommaFrom(t, 8);
        if k < |t| {
          SeqLenMeasures();
          KeepIsWhole(Printable(Trim(t[k + 1..])), TITLE_MAX, SeqLen);
        }
      }
    } else if t != [] && !over && Resolve(PATH_MAX, base, t).Resolved? {
      ResolvedCanonical(PATH_MAX, base, t);
    }
  }

  lemma {:induction false} EntriesGood(acc: Acc, lines: seq<seq<Byte>>, base: seq<Byte>, outMax: nat)
    requires GoodAcc(acc) && Canonical(base)
    ensures GoodAcc(Handled(acc, lines, HandlerFor(base, outMax)))
    decreases |lines|
  {
    if lines != [] {
      var over := |lines[0]| > LINE_MAX;
      OneGoodLine(acc, Clip(lines[0]), over, base, outMax);
      EntriesGood(HandleLine(acc, Clip(lines[0]), over, base, outMax), lines[1..], base, outMax);
    }
  }
}
