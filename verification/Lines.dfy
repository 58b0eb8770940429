/** Cutting a byte stream into lines one byte at a time, and the same cut made in one go. */
module Lines {
  import opened Words

  const LINE_MAX: nat := 512
  const BOM: seq<Byte> := [0xEF, 0xBB, 0xBF]

  predicate IsBreak(c: Byte)
  {
    c == 0x0A || c == 0x0D
  }

  // ---- one byte at a time -----------------------------------------------------------

  /** A handler receives a line cut to the limit, and whether it was longer. */
  type Handler<!A> = (A, seq<Byte>, bool) -> A

  /** `bom` counts mark bytes held back; it stays 3 when a whole mark was seen. */
  datatype Mach<A> = Mach(bom: nat, bomDone: bool, line: seq<Byte>, over: bool, acc: A)

  function Push<A>(m: Mach<A>, c: Byte): Mach<A>
  {
    if m.over then m
    else if |m.line| >= LINE_MAX then m.(over := true)
    else m.(line := m.line + [c])
  }

  function PushAll<A>(m: Mach<A>, s: seq<Byte>): Mach<A>
    decreases |s|
  {
    if s == [] then m else PushAll(Push(m, s[0]), s[1..])
  }

  function Flush<A>(m: Mach<A>, h: Handler<A>): Mach<A>
  {
    m.(line := [], over := false, acc := h(m.acc, m.line, m.over))
  }

  /** A byte past the mark. */
  function Plain<A>(m: Mach<A>, c: Byte, h: Handler<A>): Mach<A>
  {
    if IsBreak(c) then Flush(m, h) else Push(m, c)
  }

  function Feed<A>(m: Mach<A>, c: Byte, h: Handler<A>): Mach<A>
  {
    if m.bomDone || m.bom >= 3 then Plain(m, c, h)
    else if c == BOM[m.bom] then m.(bom := m.bom + 1, bomDone := m.bom == 2)
    else Plain(PushAll(m, BOM[..m.bom]).(bom := 0, bomDone := true), c, h)
  }

  function FeedAll<A>(m: Mach<A>, s: seq<Byte>, h: Handler<A>): Mach<A>
    decreases |s|
  {
    if s == [] then m else FeedAll(Feed(m, s[0], h), s[1..], h)
  }

  lemma {:induction false} FeedAppend<A>(m: Mach<A>, s: seq<Byte>, c: Byte, h: Handler<A>)
    ensures FeedAll(m, s + [c], h) == Feed(FeedAll(m, s, h), c, h)
    decreases |s|
  {
    if s == [] {
      assert ([] + [c])[1..] == [];
    } else {
      assert (s + [c])[1..] == s[1..] + [c];
      FeedAppend(Feed(m, s[0], h), s[1..], c, h);
    }
  }

  function Begin<A>(acc: A): Mach<A>
  {
    Mach(0, false, [], false, acc)
  }

  /** The end of the input; a last line without a terminator is still a line. */
  function Finish<A>(m: Mach<A>, flush: bool, h: Handler<A>): A
  {
    if flush && m.line != [] then Flush(m, h).acc else m.acc
  }

  // ---- in one go ----------------------------------------------------------------------

  function FirstBreak(s: seq<Byte>): (k: nat)
    ensures k <= |s| && (forall i :: 0 <= i < k ==> !IsBreak(s[i])) && (k < |s| ==> IsBreak(s[k]))
  {
    if s == [] || IsBreak(s[0]) then 0 else 1 + FirstBreak(s[1..])
  }

  /** The lines of `s` that have a terminator. */
  function Terminated(s: seq<Byte>): seq<seq<Byte>>
    decreases |s|
  {
    var k := FirstBreak(s);
    if k == |s| then [] else [s[..k]] + Terminated(s[k + 1..])
  }

  /** What follows the last terminator. */
  function Tail(s: seq<Byte>): seq<Byte>
    decreases |s|
  {
    var k := FirstBreak(s);
    if k == |s| then s else Tail(s[k + 1..])
  }

  /** The text without its byte-order mark; a mark cut short by the end of the input is dropped too. */
  function Text(bytes: seq<Byte>): seq<Byte>
  {
    if BOM <= bytes then bytes[3..] else if bytes <= BOM then [] else bytes
  }

  /** The lines handed on: all terminated ones, and at the end of the input a non-empty last one. */
  function Processed(bytes: seq<Byte>, flush: bool): seq<seq<Byte>>
  {
    var text := Text(bytes);
    Terminated(text) + (if flush && Tail(text) != [] then [Tail(text)] else [])
  }

  function Clip(line: seq<Byte>): seq<Byte>
  {
    line[..Min(LINE_MAX, |line|)]
  }

  function Handled<A>(acc: A, lines: seq<seq<Byte>>, h: Handler<A>): A
    decreases |lines|
  {
    if lines == [] then acc else Handled(h(acc, Clip(lines[0]), |lines[0]| > LINE_MAX), lines[1..], h)
  }

  lemma {:induction false} HandledAppend<A>(acc: A, lines: seq<seq<Byte>>, last: seq<Byte>, h: Handler<A>)
    ensures Handled(acc, lines + [last], h) == h(Handled(acc, lines, h), Clip(last), |last| > LINE_MAX)
    decreases |lines|
  {
    if lines == [] {
      assert ([] + [last])[1..] == [];
    } else {
      assert (lines + [last])[1..] == lines[1..] + [last];
      HandledAppend(h(acc, Clip(lines[0]), |lines[0]| > LINE_MAX), lines[1..], last, h);
    }
  }

  // ---- they agree ---------------------------------------------------------------------

  /** The machine in the middle of a line whose bytes so far are `pre`. */
  predicate Inside<A(!new)>(m: Mach<A>, pre: seq<Byte>)
  {
    m.bomDone && m.line == Clip(pre) && m.over == (|pre| > LINE_MAX)
  }

  lemma {:induction false} FirstBreakAfter(pre: seq<Byte>, s: seq<Byte>)
    requires forall i :: 0 <= i < |pre| ==> !IsBreak(pre[i])
    ensures FirstBreak(pre + s) == |pre| + FirstBreak(s)
    decreases |pre|
  {
    if pre == [] {
      assert pre + s == s;
    } else {
      assert (pre + s)[1..] == pre[1..] + s;
      FirstBreakAfter(pre[1..], s);
    }
  }

  /** A terminator ends the line in hand and the rest starts afresh. */
  lemma BreakSplits(pre: seq<Byte>, s: seq<Byte>)
    requires s != [] && IsBreak(s[0]) && forall i :: 0 <= i < |pre| ==> !IsBreak(pre[i])
    ensures Terminated(pre + s) == [pre] + Terminated(s[1..]) && Tail(pre + s) == Tail(s[1..])
  {
    FirstBreakAfter(pre, s);
    assert (pre + s)[|pre| + 1..] == s[1..] && (pre + s)[..|pre|] == pre;
  }

  lemma NoBreak(pre: seq<Byte>)
    requires forall i :: 0 <= i < |pre| ==> !IsBreak(pre[i])
    ensures Terminated(pre) == [] && Tail(pre) == pre
  {
    FirstBreakAfter(pre, []);
    assert pre + [] == pre;
  }

  lemma {:induction false} FeedLines<A(!new)>(m: Mach<A>, pre: seq<Byte>, s: seq<Byte>, h: Handler<A>)
    requires Inside(m, pre) && forall i :: 0 <= i < |pre| ==> !IsBreak(pre[i])
    ensures Inside(FeedAll(m, s, h), Tail(pre + s))
    ensures FeedAll(m, s, h).acc == Handled(m.acc, Terminated(pre + s), h)
    decreases |s|
  {
    if s == [] {
      assert pre + s == pre;
      NoBreak(pre);
    } else {
      var m' := Feed(m, s[0], h);
      if IsBreak(s[0]) {
        BreakSplits(pre, s);
        FeedLines(m', [], s[1..], h);
        assert [] + s[1..] == s[1..];
        assert ([pre] + Terminated(s[1..]))[1..] == Terminated(s[1..]);
      } else {
        assert pre + [s[0]] + s[1..] == pre + s;
        FeedLines(m', pre + [s[0]], s[1..], h);
      }
    }
  }

  lemma {:induction false} PushPlain<A(!new)>(m: Mach<A>, pre: seq<Byte>, s: seq<Byte>)
    requires Inside(m, pre)
    ensures Inside(PushAll(m, s), pre + s) && PushAll(m, s).acc == m.acc
    decreases |s|
  {
    if s == [] {
      assert pre + s == pre;
    } else {
      assert pre + [s[0]] + s[1..] == pre + s;
      PushPlain(Push(m, s[0]), pre + [s[0]], s[1..]);
    }
  }

  lemma PushIgnoresMark<A(!new)>(m: Mach<A>, c: Byte, bom: nat, bomDone: bool)
    ensures Push(m.(bom := bom, bomDone := bomDone), c) == Push(m, c).(bom := bom, bomDone := bomDone)
  {
  }

  lemma {:induction false} PushAllIgnoresMark<A(!new)>(m: Mach<A>, s: seq<Byte>, bom: nat, bomDone: bool)
    ensures PushAll(m.(bom := bom, bomDone := bomDone), s) == PushAll(m, s).(bom := bom, bomDone := bomDone)
    decreases |s|
  {
    if s != [] {
      PushIgnoresMark(m, s[0], bom, bomDone);
      PushAllIgnoresMark(Push(m, s[0]), s[1..], bom, bomDone);
    }
  }

  /** What the machine has come to at the end of `bytes`, its mark dropped if there is one. */
  ghost predicate MarkFed<A(!new)>(m: Mach<A>, acc: A, bytes: seq<Byte>, h: Handler<A>)
  {
    && m.acc == Handled(acc, Terminated(Text(bytes)), h)
    && m.line == Clip(Tail(Text(bytes))) && m.over == (|Tail(Text(bytes))| > LINE_MAX)
    && (m.bom == 3 <==> BOM <= bytes)
  }

  /** The mark is complete: what follows it is the text. */
  lemma MarkWhole<A(!new)>(acc: A, bytes: seq<Byte>, h: Handler<A>)
    requires BOM <= bytes
    ensures MarkFed(FeedAll(Mach(3, true, [], false, acc), bytes[3..], h), acc, bytes, h)
  {
    var rest := bytes[3..];
    FeedLines(Mach(3, true, [], false, acc), [], rest, h);
    FeedKeepsMark(Mach(3, true, [], false, acc), rest, h);
    assert [] + rest == rest;
  }

  /** The mark breaks off at byte `k`: what was held back is replayed. */
  lemma MarkBroken<A(!new)>(acc: A, bytes: seq<Byte>, k: nat, h: Handler<A>)
    requires k < 3 && k < |bytes| && bytes[..k] == BOM[..k] && bytes[k] != BOM[k]
    ensures MarkFed(FeedAll(Mach(k, false, [], false, acc), bytes[k..], h), acc, bytes, h)
  {
    var m := Mach(k, false, [], false, acc);
    var c, rest := bytes[k], bytes[k + 1..];
    assert bytes[k..][0] == c && bytes[k..][1..] == rest;
    NoMark(bytes, k);
    var held := BOM[..k];
    var m1 := PushAll(m, held).(bom := 0, bomDone := true);
    PushAllIgnoresMark(m, held, 0, true);
    PushPlain(Mach(0, true, [], false, acc), [], held);
    assert [] + held == held;
    FeedLines(m1, held, [c] + rest, h);
    assert ([c] + rest)[0] == c && ([c] + rest)[1..] == rest;
    assert held + ([c] + rest) == bytes;
    FeedKeepsMark(m1, [c] + rest, h);
  }

  /** The machine still matching the mark, `k` bytes into the input. */
  lemma {:induction false} FeedMark<A(!new)>(acc: A, bytes: seq<Byte>, k: nat, h: Handler<A>)
    requires k < 3 && k <= |bytes| && bytes[..k] == BOM[..k]
    ensures MarkFed(FeedAll(Mach(k, false, [], false, acc), bytes[k..], h), acc, bytes, h)
    decreases |bytes| - k
  {
    if k == |bytes| {
      assert bytes == BOM[..k] && bytes <= BOM;
      assert bytes[k..] == [];
      assert Terminated([]) == [] && Tail([]) == [];
    } else if bytes[k] != BOM[k] {
      MarkBroken(acc, bytes, k, h);
    } else {
      assert bytes[k..][0] == bytes[k] && bytes[k..][1..] == bytes[k + 1..];
      assert bytes[..k + 1] == bytes[..k] + [bytes[k]] == BOM[..k + 1];
      if k == 2 {
        assert bytes[..3] == BOM;
        MarkWhole(acc, bytes, h);
      } else {
        FeedMark(acc, bytes, k + 1, h);
      }
    }
  }

  lemma NoMark(bytes: seq<Byte>, k: nat)
    requires k < 3 && k < |bytes| && bytes[k] != BOM[k]
    ensures !(BOM <= bytes) && !(bytes <= BOM)
  {
  }

  lemma {:induction false} FeedKeepsMark<A(!new)>(m: Mach<A>, s: seq<Byte>, h: Handler<A>)
    requires m.bomDone
    ensures FeedAll(m, s, h).bom == m.bom && FeedAll(m, s, h).bomDone
    decreases |s|
  {
    if s != [] {
      FeedKeepsMark(Feed(m, s[0], h), s[1..], h);
    }
  }

  /** Fed byte by byte or cut in one go, the handler sees the same lines; so how the bytes arrived cannot matter. */
  lemma ByteFedIsLineBased<A(!new)>(acc: A, bytes: seq<Byte>, flush: bool, h: Handler<A>)
    ensures var m := FeedAll(Begin(acc), bytes, h);
      && Finish(m, flush, h) == Handled(acc, Processed(bytes, flush), h)
      && (m.bom == 3 <==> BOM <= bytes)
  {
    assert bytes[0..] == bytes && bytes[..0] == BOM[..0];
    FeedMark(acc, bytes, 0, h);
    var text := Text(bytes);
    if flush && Tail(text) != [] {
      HandledAppend(acc, Terminated(text), Tail(text), h);
    } else {
      assert Terminated(text) + [] == Terminated(text);
    }
  }

  // ---- line endings -----------------------------------------------------------------------

  /** Lines as a writer ends them: with a line feed, a carriage return, or both. */
  predicate LineEnd(eol: seq<Byte>)
  {
    eol == [0x0A] || eol == [0x0D] || eol == [0x0D, 0x0A]
  }

  function Ended(lines: seq<seq<Byte>>, eol: seq<Byte>): seq<Byte>
  {
    if lines == [] then [] else lines[0] + eol + Ended(lines[1..], eol)
  }

  predicate Unbroken(line: seq<Byte>)
  {
    forall i :: 0 <= i < |line| ==> line[i] != 0x0A && line[i] != 0x0D
  }

  /** The handler makes nothing of an empty line. */
  ghost predicate SkipsEmpty<A(!new)>(h: Handler<A>)
  {
    forall acc: A :: h(acc, [], false) == acc
  }

  lemma OneBreak(line: seq<Byte>, b: Byte, rest: seq<Byte>)
    requires Unbroken(line) && IsBreak(b)
    ensures Terminated(line + ([b] + rest)) == [line] + Terminated(rest) && Tail(line + ([b] + rest)) == Tail(rest)
  {
    BreakSplits(line, [b] + rest);
    assert ([b] + rest)[1..] == rest;
  }

  /** One line and its ending, cut off: with both marks there is an empty line between them. */
  lemma LineCut(line: seq<Byte>, eol: seq<Byte>, rest: seq<Byte>)
    requires Unbroken(line) && LineEnd(eol)
    ensures Terminated(line + eol + rest) == [line] + ((if |eol| == 2 then [[]] else []) + Terminated(rest))
    ensures Tail(line + eol + rest) == Tail(rest)
  {
    hide Terminated, Tail;
    if |eol| == 2 {
      OneBreak([], 0x0A, rest);
      OneBreak(line, 0x0D, [0x0A] + rest);
      assert [] + ([0x0A] + rest) == [0x0A] + rest;
      assert line + eol + rest == line + ([0x0D] + ([0x0A] + rest));
    } else {
      OneBreak(line, eol[0], rest);
      assert line + eol + rest == line + ([eol[0]] + rest);
      assert [] + Terminated(rest) == Terminated(rest);
    }
  }

  lemma HandledEmpty<A(!new)>(acc: A, lines: seq<seq<Byte>>, h: Handler<A>)
    requires SkipsEmpty(h)
    ensures Handled(acc, [[]] + lines, h) == Handled(acc, lines, h)
  {
    assert ([[]] + lines)[1..] == lines && Clip([]) == [];
  }

  lemma HandledFront<A(!new)>(acc: A, line: seq<Byte>, lines: seq<seq<Byte>>, h: Handler<A>)
    ensures Handled(acc, [line] + lines, h) == Handled(h(acc, Clip(line), |line| > LINE_MAX), lines, h)
  {
    assert ([line] + lines)[1..] == lines;
  }

  /** However its lines are ended, a text is cut into the lines it was made of. */
  lemma {:induction false} EndingsAlike<A(!new)>(acc: A, lines: seq<seq<Byte>>, eol: seq<Byte>, last: seq<Byte>, h: Handler<A>)
    requires LineEnd(eol) && SkipsEmpty(h) && Unbroken(last) && forall i :: 0 <= i < |lines| ==> Unbroken(lines[i])
    ensures Handled(acc, Terminated(Ended(lines, eol) + last), h) == Handled(acc, lines, h)
    ensures Tail(Ended(lines, eol) + last) == last
    decreases |lines|
  {
    hide Terminated, Tail, Handled, SkipsEmpty;
    if lines == [] {
      assert Ended(lines, eol) + last == last;
      NoBreak(last);
    } else {
      var line, rest := lines[0], Ended(lines[1..], eol) + last;
      assert Ended(lines, eol) + last == line + eol + rest;
      LineCut(line, eol, rest);
      var acc' := h(acc, Clip(line), |line| > LINE_MAX);
      EndingsAlike(acc', lines[1..], eol, last, h);
      HandledFront(acc, line, lines[1..], h);
      assert [line] + lines[1..] == lines;
      if |eol| == 2 {
        HandledEmpty(acc', Terminated(rest), h);
        HandledFront(acc, line, [[]] + Terminated(rest), h);
      } else {
        assert [] + Terminated(rest) == Terminated(rest);
        HandledFront(acc, line, Terminated(rest), h);
      }
    }
  }

  /** The same of a whole file, with or without a byte-order mark, and with or without an end to its last line. */
  lemma FileLines<A(!new)>(acc: A, mark: seq<Byte>, lines: seq<seq<Byte>>, eol: seq<Byte>, last: seq<Byte>, h: Handler<A>)
    requires LineEnd(eol) && SkipsEmpty(h) && Unbroken(last) && forall i :: 0 <= i < |lines| ==> Unbroken(lines[i])
    requires mark == [0xEF, 0xBB, 0xBF] || (mark == [] && (Ended(lines, eol) + last == [] || (Ended(lines, eol) + last)[0] != 0xEF))
    ensures Handled(acc, Processed(mark + (Ended(lines, eol) + last), true), h)
         == Handled(acc, lines + (if last == [] then [] else [last]), h)
    ensures Handled(acc, Processed(mark + (Ended(lines, eol) + last), false), h) == Handled(acc, lines, h)
  {
    hide Terminated, Tail, Handled, SkipsEmpty;
    var text := Ended(lines, eol) + last;
    MarkDropped(mark, text);
    EndingsAlike(acc, lines, eol, last, h);
    assert Terminated(text) + [] == Terminated(text) && lines + [] == lines;
    if last != [] {
      HandledAppend(acc, Terminated(text), last, h);
      HandledAppend(acc, lines, last, h);
    }
  }

  lemma MarkDropped(mark: seq<Byte>, text: seq<Byte>)
    requires mark == [0xEF, 0xBB, 0xBF] || (mark == [] && (text == [] || text[0] != 0xEF))
    ensures Text(mark + text) == text
  {
    var bytes := mark + text;
    if mark == [] {
      assert bytes == text;
    } else {
      assert bytes[..3] == mark && bytes[3..] == text;
    }
  }
}
