/** A playlist as a writer makes it, and that it is read back entry by entry. */
module PlaylistText {
  import opened Words
  import opened Lines
  import opened PathBuild
  import opened Playlist
  import NameHash

  /** A track as a playlist lists it. */
  datatype Item = Item(path: seq<Byte>, title: seq<Byte>, seconds: nat)

  /** Neither end of the text is blank. */
  predicate Tight(s: seq<Byte>)
  {
    s == [] || (!IsBlank(s[0]) && !IsBlank(s[|s| - 1]))
  }

  /** No control byte. */
  predicate Clear(s: seq<Byte>)
  {
    forall k :: 0 <= k < |s| ==> s[k] >= 0x20
  }

  /** A line of a playlist can say this. */
  predicate Listable(x: Item)
  {
    && x.path != [] && |x.path| <= LINE_MAX && x.path[0] != HASH && Tight(x.path) && Clear(x.path)
    && |x.title| <= 64 && Framed(x.title, SeqLen) && Tight(x.title) && Clear(x.title)
    && x.seconds < 1_000_000_000
  }

  /** The decimal digits of `n`. */
  function Decimal(n: nat): (r: seq<Byte>)
    ensures r != []
  {
    if n < 10 then [(0x30 + n) as Byte] else Decimal(n / 10) + [(0x30 + n % 10) as Byte]
  }

  /** "#EXTINF:", the seconds, a comma and the title */
  function InfoLine(x: Item): seq<Byte>
  {
    [0x23, 0x45, 0x58, 0x54, 0x49, 0x4E, 0x46, 0x3A] + Decimal(x.seconds) + [0x2C] + x.title
  }

  /** "#EXTM3U" */
  const HEADER: seq<Byte> := [0x23, 0x45, 0x58, 0x54, 0x4D, 0x33, 0x55]

  function LinesOf(items: seq<Item>): seq<seq<Byte>>
  {
    if items == [] then [] else [InfoLine(items[0]), items[0].path] + LinesOf(items[1..])
  }

  // ---- numbers ------------------------------------------------------------------------------

  lemma {:induction false} DecimalValue(n: nat)
    ensures Value(Decimal(n)) == n && forall k :: 0 <= k < |Decimal(n)| ==> IsDigit(Decimal(n)[k])
    decreases n
  {
    var d := Decimal(n);
    if n < 10 {
      assert d[..0] == [];
    } else {
      DecimalValue(n / 10);
      assert d[..|d| - 1] == Decimal(n / 10);
    }
  }

  lemma {:induction false} DecimalLength(n: nat, bound: nat, k: nat)
    requires n < bound && Power(k) == bound && k > 0
    ensures |Decimal(n)| <= k
    decreases k
  {
    if n >= 10 {
      DecimalLength(n / 10, Power(k - 1), k - 1);
    }
  }

  function Power(k: nat): nat
  {
    if k == 0 then 1 else 10 * Power(k - 1)
  }

  lemma {:induction false} DigitsOf(d: seq<Byte>, rest: seq<Byte>)
    requires (forall k :: 0 <= k < |d| ==> IsDigit(d[k])) && (rest == [] || !IsDigit(rest[0]))
    ensures Digits(d + rest) == |d|
    decreases |d|
  {
    if d == [] {
      assert d + rest == rest;
    } else {
      assert (d + rest)[1..] == d[1..] + rest;
      DigitsOf(d[1..], rest);
    }
  }

  // ---- text ---------------------------------------------------------------------------------

  lemma TightTrim(s: seq<Byte>)
    requires Tight(s)
    ensures Trim(s) == s
  {
  }

  lemma {:induction false} ClearPrintable(s: seq<Byte>)
    requires Clear(s)
    ensures Printable(s) == s
    decreases |s|
  {
    if s != [] {
      ClearPrintable(s[1..]);
    }
  }

  lemma {:induction false} FramedKept(s: seq<Byte>, cap: nat, len: Measure)
    requires Framed(s, len) && |s| <= cap
    ensures Keep(s, cap, len) == |s|
    decreases |s|
  {
    if s != [] {
      FramedKept(s[len(s)..], cap - len(s), len);
    }
  }

  lemma {:induction false} CommaAfter(s: seq<Byte>, from: nat, k: nat)
    requires from <= k < |s| && s[k] == COMMA && forall i :: from <= i < k ==> s[i] != COMMA
    ensures CommaFrom(s, from) == k
    decreases k - from
  {
    if from < k {
      CommaAfter(s, from + 1, k);
    }
  }

  // ---- the two lines of a track -----------------------------------------------------------------

  lemma InfoParts(x: Item) returns (line: seq<Byte>, n: nat)
    requires Listable(x)
    ensures line == InfoLine(x) && n == |Decimal(x.seconds)| && 1 <= n <= 9 && |line| == 9 + n + |x.title| <= LINE_MAX
    ensures line[..8] == EXTINF && line[8..] == Decimal(x.seconds) + ([0x2C] + x.title)
    ensures line[8 + n] == COMMA && line[9 + n..] == x.title && forall k :: 8 <= k < 8 + n ==> IsDigit(line[k])
  {
    line, n := InfoLine(x), |Decimal(x.seconds)|;
    DecimalValue(x.seconds);
    assert Power(9) == 1_000_000_000;
    DecimalLength(x.seconds, 1_000_000_000, 9);
    assert line[8..] == Decimal(x.seconds) + ([0x2C] + x.title);
    forall k | 8 <= k < 8 + n
      ensures IsDigit(line[k])
    {
      assert line[k] == Decimal(x.seconds)[k - 8];
    }
  }

  /** The tag's number and title are the ones written. */
  lemma InfoMeans(x: Item)
    requires Listable(x)
    ensures |InfoLine(x)| <= LINE_MAX && Trim(InfoLine(x)) == InfoLine(x) && StartsWith(InfoLine(x), EXTINF) && !StartsWith(InfoLine(x), EXTM3U)
    ensures TitleOf(InfoLine(x)) == x.title && DurationOf(InfoLine(x)) == x.seconds
  {
    hide Trim, StartsWith, TitleOf, DurationOf, InfoLine, Decimal, Framed, SeqLen;
    var line, n := InfoParts(x);
    InfoShape(line, n, x.title);
    NoComma(line, n);
    InfoTitle(line, 8 + n, x.title);
    InfoSeconds(x, line, n);
  }

  lemma NoComma(line: seq<Byte>, n: nat)
    requires 8 + n <= |line| && forall k :: 8 <= k < 8 + n ==> IsDigit(line[k])
    ensures forall k :: 8 <= k < 8 + n ==> line[k] != COMMA
  {
  }

  lemma InfoTitle(line: seq<Byte>, at: nat, title: seq<Byte>)
    requires 8 <= at < |line| && line[at] == COMMA && (forall k :: 8 <= k < at ==> line[k] != COMMA) && line[at + 1..] == title
    requires |title| <= 64 && Framed(title, SeqLen) && Tight(title) && Clear(title)
    ensures TitleOf(line) == title
  {
    hide Trim, Printable, Framed, SeqLen;
    CommaAfter(line, 8, at);
    TightTrim(title);
    ClearPrintable(title);
    FramedKept(title, TITLE_MAX, SeqLen);
    assert title[..|title|] == title;
  }

  lemma InfoShape(line: seq<Byte>, n: nat, title: seq<Byte>)
    requires 1 <= n && |line| == 9 + n + |title| && line[..8] == EXTINF && line[8 + n] == COMMA && line[9 + n..] == title && Tight(title)
    ensures Trim(line) == line && StartsWith(line, EXTINF) && !StartsWith(line, EXTM3U)
  {
    forall k | 0 <= k < 8
      ensures line[k] == EXTINF[k]
    {
      assert line[k] == line[..8][k];
    }
    if title != [] {
      assert line[|line| - 1] == line[9 + n..][|title| - 1];
    }
    TightTrim(line);
    assert Lower(line[4]) != Lower(EXTM3U[4]);
  }

  lemma InfoSeconds(x: Item, line: seq<Byte>, n: nat)
    requires Listable(x) && n == |Decimal(x.seconds)| && 1 <= n <= 9 && |line| >= 8
    requires line[8..] == Decimal(x.seconds) + ([0x2C] + x.title)
    ensures DurationOf(line) == x.seconds
  {
    hide Decimal;
    var s, d := line[8..], Decimal(x.seconds);
    DecimalValue(x.seconds);
    assert s[0] == d[0] && IsDigit(d[0]);
    DigitsOf(d, [0x2C] + x.title);
    assert s[..n] == d;
  }

  /** What the reader makes of one track's two lines. */
  lemma TrackRead(acc: Acc, x: Item, base: seq<Byte>, outMax: nat)
    requires Listable(x) && acc.pending.NoTag? && Resolve(PATH_MAX, base, x.path).Resolved? && |acc.report.entries| < outMax
    ensures |InfoLine(x)| <= LINE_MAX
    ensures var r := acc.report;
      HandleLine(HandleLine(acc, InfoLine(x), false, base, outMax), x.path, false, base, outMax)
      == Acc(r.(total := r.total + 1, entries := r.entries + [Entry(Resolve(PATH_MAX, base, x.path).path, x.title, x.seconds)]), NoTag)
  {
    hide Trim, StartsWith, TitleOf, DurationOf, InfoLine, Resolve;
    InfoMeans(x);
    InfoFirst(x);
    TightTrim(x.path);
  }

  lemma InfoFirst(x: Item)
    ensures InfoLine(x) != [] && InfoLine(x)[0] == HASH
  {
  }

  // ---- the whole list -----------------------------------------------------------------------------

  /** The entries of the list, each found in the playlist's folder. */
  function Entries(items: seq<Item>, base: seq<Byte>): (r: seq<Entry>)
    requires forall k :: 0 <= k < |items| ==> Resolve(PATH_MAX, base, items[k].path).Resolved?
    ensures |r| == |items|
  {
    seq(|items|, k requires 0 <= k < |items| => Entry(Resolve(PATH_MAX, base, items[k].path).path, items[k].title, items[k].seconds))
  }

  lemma TwoLines(acc: Acc, a: seq<Byte>, b: seq<Byte>, rest: seq<seq<Byte>>, base: seq<Byte>, outMax: nat)
    requires |a| <= LINE_MAX && |b| <= LINE_MAX && Clip(a) == a && Clip(b) == b
    ensures Handled(acc, [a, b] + rest, HandlerFor(base, outMax))
      == Handled(HandleLine(HandleLine(acc, a, false, base, outMax), b, false, base, outMax), rest, HandlerFor(base, outMax))
  {
    hide Handled, HandleLine, Clip;
    var h := HandlerFor(base, outMax);
    HandledFront(acc, a, [b] + rest, h);
    HandledFront(h(acc, a, false), b, rest, h);
    assert [a, b] + rest == [a] + ([b] + rest);
  }

  lemma {:induction false} ListRead(acc: Acc, items: seq<Item>, base: seq<Byte>, outMax: nat)
    requires acc.pending.NoTag? && |acc.report.entries| + |items| <= outMax
    requires forall k :: 0 <= k < |items| ==> Listable(items[k]) && Resolve(PATH_MAX, base, items[k].path).Resolved?
    ensures Handled(acc, LinesOf(items), HandlerFor(base, outMax))
      == acc.(report := acc.report.(total := acc.report.total + |items|, entries := acc.report.entries + Entries(items, base)))
    decreases |items|
  {
    hide HandleLine, Resolve, InfoLine, Listable, Clip;
    if items == [] {
      assert acc.report.entries + Entries(items, base) == acc.report.entries;
    } else {
      hide Handled;
      var x := items[0];
      TrackRead(acc, x, base, outMax);
      PathFits(x);
      TwoLines(acc, InfoLine(x), x.path, LinesOf(items[1..]), base, outMax);
      var next := HandleLine(HandleLine(acc, InfoLine(x), false, base, outMax), x.path, false, base, outMax);
      ListRead(next, items[1..], base, outMax);
      assert Entries(items, base) == [Entry(Resolve(PATH_MAX, base, x.path).path, x.title, x.seconds)] + Entries(items[1..], base);
    }
  }

  lemma PathFits(x: Item)
    requires Listable(x)
    ensures |x.path| <= LINE_MAX && Clip(x.path) == x.path && (|InfoLine(x)| <= LINE_MAX ==> Clip(InfoLine(x)) == InfoLine(x))
  {
  }

  lemma {:induction false} LinesUnbroken(items: seq<Item>)
    requires forall k :: 0 <= k < |items| ==> Listable(items[k])
    ensures forall i :: 0 <= i < |LinesOf(items)| ==> Unbroken(LinesOf(items)[i])
    decreases |items|
  {
    if items != [] {
      InfoUnbroken(items[0]);
      LinesUnbroken(items[1..]);
    }
  }

  lemma InfoUnbroken(x: Item)
    requires Listable(x)
    ensures Unbroken(InfoLine(x)) && Unbroken(x.path)
  {
    DecimalValue(x.seconds);
  }

  /**
   * A playlist written track by track is read back as those tracks, in order, with their
   * titles and times and their paths found in the playlist's folder, however its lines are
   * ended and with or without a byte-order mark.
   */
  lemma ReadBack(mark: seq<Byte>, items: seq<Item>, eol: seq<Byte>, base: seq<Byte>, outMax: nat, flush: bool)
    requires LineEnd(eol) && (mark == [] || mark == [0xEF, 0xBB, 0xBF]) && |items| <= outMax
    requires forall k :: 0 <= k < |items| ==> Listable(items[k]) && Resolve(PATH_MAX, base, items[k].path).Resolved?
    ensures Handled(Empty(), Processed(mark + (Ended([HEADER] + LinesOf(items), eol) + []), flush), HandlerFor(base, outMax))
      == Acc(Report(Entries(items, base), |items|, 0, 0, 0, false, true), NoTag)
  {
    hide Processed, Listable;
    var lines, h := [HEADER] + LinesOf(items), HandlerFor(base, outMax);
    LinesUnbroken(items);
    assert SkipsEmpty(h);
    assert Ended(lines, eol)[0] == 0x23;
    FileLines(Empty(), mark, lines, eol, [], h);
    assert lines + [] == lines;
    HeaderRead(base, outMax);
    HandledFront(Empty(), HEADER, LinesOf(items), h);
    var acc := HandleLine(Empty(), HEADER, false, base, outMax);
    ListRead(acc, items, base, outMax);
    assert [] + Entries(items, base) == Entries(items, base);
  }

  lemma HeaderRead(base: seq<Byte>, outMax: nat)
    ensures Clip(HEADER) == HEADER && |HEADER| <= LINE_MAX
    ensures HandleLine(Empty(), HEADER, false, base, outMax) == Acc(Report([], 0, 0, 0, 0, false, true), NoTag)
  {
    TightTrim(HEADER);
  }

  // ---- what does not matter ---------------------------------------------------------------------

  predicate Blanks(s: seq<Byte>)
  {
    forall k :: 0 <= k < |s| ==> s[k] == 0x20 || s[k] == 0x09
  }

  lemma {:induction false} FrontTrimmed(pre: seq<Byte>, s: seq<Byte>)
    requires Blanks(pre)
    ensures TrimFront(pre + s) == TrimFront(s)
    decreases |pre|
  {
    if pre == [] {
      assert pre + s == s;
    } else {
      assert (pre + s)[1..] == pre[1..] + s;
      FrontTrimmed(pre[1..], s);
    }
  }

  lemma {:induction false} BackTrimmed(s: seq<Byte>, post: seq<Byte>)
    requires Blanks(post)
    ensures TrimBack(s + post) == TrimBack(s)
    decreases |post|
  {
    if post == [] {
      assert s + post == s;
    } else {
      assert (s + post)[..|s + post| - 1] == s + post[..|post| - 1];
      BackTrimmed(s, post[..|post| - 1]);
    }
  }

  /** Blanks around a line change nothing. */
  lemma PaddedLine(acc: Acc, pre: seq<Byte>, line: seq<Byte>, post: seq<Byte>, over: bool, base: seq<Byte>, outMax: nat)
    requires Blanks(pre) && Blanks(post) && Tight(line)
    ensures Trim(pre + line + post) == line
    ensures HandleLine(acc, pre + line + post, over, base, outMax) == HandleLine(acc, line, over, base, outMax)
  {
    FrontTrimmed(pre, line + post);
    assert pre + (line + post) == pre + line + post;
    BackTrimmed(line, post);
    TightTrim(line);
    if line == [] {
      FrontTrimmed(post, []);
      assert post + [] == post && [] + post == post;
    } else {
      assert (line + post)[0] == line[0];
    }
  }

  /** A blank line, between a tag and its track or anywhere, is no line. */
  lemma BlankLine(acc: Acc, line: seq<Byte>, over: bool, base: seq<Byte>, outMax: nat)
    requires Blanks(line)
    ensures HandleLine(acc, line, over, base, outMax) == acc
  {
    PaddedLine(acc, line, [], [], over, base, outMax);
    assert line + [] + [] == line;
  }

  /** The letters of a directive count in either case. */
  lemma EitherCaseTag(acc: Acc, line: seq<Byte>, twin: seq<Byte>, over: bool, base: seq<Byte>, outMax: nat)
    requires Tight(line) && 8 <= |line| == |twin| && line[..8] == InfoLine(Item([], [], 0))[..8] && twin[8..] == line[8..]
    requires forall k :: 0 <= k < 8 ==> twin[k] == line[k] || (0x41 <= line[k] <= 0x5A && twin[k] == line[k] + 32)
    ensures HandleLine(acc, twin, over, base, outMax) == HandleLine(acc, line, over, base, outMax)
  {
    forall k | 0 <= k < 8
      ensures line[k] == EXTINF[k]
    {
      assert line[k] == line[..8][k];
    }
    if |line| > 8 {
      assert twin[|twin| - 1] == twin[8..][|twin| - 9] && line[|line| - 1] == line[8..][|line| - 9];
    }
    assert Tight(twin);
    TightTrim(line);
    TightTrim(twin);
    SameTag(line, twin);
    assert Lower(line[4]) != Lower(EXTM3U[4]) && Lower(twin[4]) != Lower(EXTM3U[4]);
  }

  /** What a tag says stands behind its first eight bytes. */
  lemma SameTag(line: seq<Byte>, twin: seq<Byte>)
    requires 8 <= |line| == |twin| && twin[8..] == line[8..]
    ensures TitleOf(twin) == TitleOf(line) && DurationOf(twin) == DurationOf(line)
  {
    SameComma(line, twin, 8);
    var k := CommaFrom(line, 8);
    if k < |line| {
      assert twin[k + 1..] == twin[8..][k + 1 - 8..] && line[k + 1..] == line[8..][k + 1 - 8..];
    }
  }

  lemma {:induction false} SameComma(line: seq<Byte>, twin: seq<Byte>, from: nat)
    requires 8 <= from <= |line| == |twin| && twin[8..] == line[8..]
    ensures CommaFrom(twin, from) == CommaFrom(line, from)
    decreases |line| - from
  {
    if from < |line| {
      assert twin[from] == twin[8..][from - 8] && line[from] == line[8..][from - 8];
      SameComma(line, twin, from + 1);
    }
  }

  /**
   * The time of a tag: blanks, at most one sign, digits, and anything else behind them. It is
   * what the digits say when there are one to nine of them and they are not negated, or zero.
   */
  lemma SecondsExactly(tag: seq<Byte>, pre: seq<Byte>, sign: seq<Byte>, d: seq<Byte>, rest: seq<Byte>)
    requires |tag| >= 8 && tag[8..] == pre + (sign + (d + rest)) && Blanks(pre) && (sign == [] || sign == [0x2D] || sign == [0x2B])
    requires (forall k :: 0 <= k < |d| ==> IsDigit(d[k])) && (rest == [] || !IsDigit(rest[0]))
    requires sign == [] && d == [] && rest != [] ==> !IsBlank(rest[0]) && rest[0] != 0x2D && rest[0] != 0x2B
    ensures DurationOf(tag) == if 1 <= |d| <= 9 && (sign == [0x2D] ==> Value(d) == 0) then Value(d) else -1
  {
    var s := sign + (d + rest);
    FrontTrimmed(pre, s);
    DigitsOf(d, rest);
    DigitsNatural(d);
    if sign != [] {
      assert s[0] == sign[0] && s[1..] == d + rest;
    } else {
      assert s == d + rest;
      if d != [] {
        assert s[0] == d[0] && IsDigit(d[0]);
      } else if rest != [] {
        assert s[0] == rest[0];
      }
    }
    assert (d + rest)[..|d|] == d;
  }

  lemma {:induction false} DigitsNatural(d: seq<Byte>)
    requires forall k :: 0 <= k < |d| ==> IsDigit(d[k])
    ensures Value(d) >= 0
    decreases |d|
  {
    if d != [] {
      DigitsNatural(d[..|d| - 1]);
    }
  }

  // ---- titles in Unicode --------------------------------------------------------------------------

  lemma LeadOf(c: NameHash.Scalar)
    ensures var e := NameHash.Encode(c); Led(e[0]) == |e| && forall k :: 1 <= k < |e| ==> IsContinuation(e[k])
  {
  }

  /** The sequence at the front of a text is its first character. */
  lemma FirstChar(c: NameHash.Scalar, rest: seq<Byte>)
    ensures SeqLen(NameHash.Encode(c) + rest) == |NameHash.Encode(c)|
  {
    hide NameHash.Encode, Led, IsContinuation;
    LeadOf(c);
    var s, n := NameHash.Encode(c) + rest, |NameHash.Encode(c)|;
    assert s[0] == NameHash.Encode(c)[0];
    assert forall k :: 1 <= k < n ==> s[k] == NameHash.Encode(c)[k];
  }

  /** Of a text in UTF-8 a title keeps as many whole characters as fit. */
  lemma {:induction false} WholeCharacters(text: seq<NameHash.Scalar>, cap: nat) returns (n: nat)
    ensures n <= |text| && Keep(NameHash.Utf8(text), cap, SeqLen) == |NameHash.Utf8(text[..n])| <= cap
    ensures n < |text| ==> |NameHash.Utf8(text[..n])| + |NameHash.Encode(text[n])| > cap
    decreases |text|
  {
    hide NameHash.Encode, SeqLen;
    n := 0;
    assert text[..0] == [];
    if text == [] {
      KeptNone(cap);
    } else {
      var e, rest := NameHash.Encode(text[0]), NameHash.Utf8(text[1..]);
      FirstChar(text[0], rest);
      if |e| <= cap {
        var m := WholeCharacters(text[1..], cap - |e|);
        assert (e + rest)[|e|..] == rest;
        n := m + 1;
        assert text[..n][0] == text[0] && text[..n][1..] == text[1..][..m];
      }
    }
  }

  lemma KeptNone(cap: nat)
    ensures Keep([], cap, SeqLen) == 0
  {
  }
}
