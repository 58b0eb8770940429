/** Playlist paths: one line resolved against the playlist's folder, in a fixed buffer. */
module PathBuild {
  import opened Words
  import opened Memory

  const SLASH: Byte := 0x2F
  const BACKSLASH: Byte := 0x5C
  const COLON: Byte := 0x3A
  const DOT: Byte := 0x2E

  const TOOLONG: int := -1
  const ESCAPE: int := -2
  const BAD: int := -3

  type Path = seq<Byte>

  predicate IsSep(c: Byte)
  {
    c == SLASH || c == BACKSLASH
  }

  predicate IsLetter(c: Byte)
  {
    0x41 <= c <= 0x5A || 0x61 <= c <= 0x7A
  }

  // ---- the reference: a stack of segments -------------------------------------------

  datatype Resolution = Resolved(path: Path) | TooLong | Escape | Bad

  /** Length of the leading stretch of `s` without a separator. */
  function SegEnd(s: Path): (n: nat)
    ensures n <= |s| && (forall k :: 0 <= k < n ==> !IsSep(s[k])) && (n < |s| ==> IsSep(s[n]))
  {
    if s == [] || IsSep(s[0]) then 0 else 1 + SegEnd(s[1..])
  }

  /** The non-empty pieces of `s` between separators. */
  function Split(s: Path): seq<Path>
    decreases |s|
  {
    if s == [] then []
    else if IsSep(s[0]) then Split(s[1..])
    else [s[..SegEnd(s)]] + Split(s[SegEnd(s)..])
  }

  function Join(stack: seq<Path>): Path
  {
    if stack == [] then []
    else if |stack| == 1 then stack[0]
    else Join(stack[..|stack| - 1]) + [SLASH] + stack[|stack| - 1]
  }

  /** Segments applied to a stack: "." stays, ".." pops, anything else is pushed if it fits. */
  function Apply(stack: seq<Path>, segs: seq<Path>, cap: nat): Resolution
    decreases |segs|
  {
    if segs == [] then (if stack == [] then Bad else Resolved(Join(stack)))
    else if segs[0] == [DOT] then Apply(stack, segs[1..], cap)
    else if segs[0] == [DOT, DOT] then
      if stack == [] then Escape else Apply(stack[..|stack| - 1], segs[1..], cap)
    else if |Join(stack + [segs[0]])| > cap then TooLong
    else Apply(stack + [segs[0]], segs[1..], cap)
  }

  /** No control bytes, and a colon only where a drive letter's would be. */
  predicate Plain(rel: Path)
  {
    forall k :: 0 <= k < |rel| ==> rel[k] >= 0x20 && (rel[k] == COLON ==> k == 1)
  }

  predicate HasDrive(rel: Path)
  {
    |rel| >= 2 && rel[1] == COLON
  }

  /** The line without a drive prefix. */
  function Undriven(rel: Path): Path
  {
    if HasDrive(rel) then rel[2..] else rel
  }

  predicate Absolute(rel: Path)
  {
    HasDrive(rel) || (rel != [] && IsSep(rel[0]))
  }

  function Resolve(cap: nat, base: Path, rel: Path): Resolution
  {
    if !Plain(rel) || (HasDrive(rel) && !IsLetter(rel[0])) then Bad
    else if Absolute(rel) then Apply([], Split(Undriven(rel)), cap)
    else if |base| > cap then TooLong
    else Apply(Split(base), Split(rel), cap)
  }

  // ---- what every success is --------------------------------------------------------

  predicate CleanSegment(s: Path)
  {
    && s != [] && s != [DOT] && s != [DOT, DOT]
    && forall k :: 0 <= k < |s| ==> s[k] >= 0x20 && !IsSep(s[k]) && s[k] != COLON
  }

  predicate Clean(stack: seq<Path>)
  {
    forall k :: 0 <= k < |stack| ==> CleanSegment(stack[k])
  }

  /** A folder path in the form this module produces; empty for the root. */
  predicate Canonical(base: Path)
  {
    Clean(Split(base)) && Join(Split(base)) == base
  }

  predicate NoColon(s: Path)
  {
    forall k :: 0 <= k < |s| ==> s[k] >= 0x20 && s[k] != COLON
  }

  predicate Pieces(segs: seq<Path>)
  {
    forall k :: 0 <= k < |segs| ==>
      segs[k] != [] && forall i :: 0 <= i < |segs[k]| ==> segs[k][i] >= 0x20 && !IsSep(segs[k][i]) && segs[k][i] != COLON
  }

  lemma {:induction false} SplitPieces(s: Path)
    requires NoColon(s)
    ensures Pieces(Split(s))
    decreases |s|
  {
    if s != [] {
      if IsSep(s[0]) {
        SplitPieces(s[1..]);
      } else {
        SplitPieces(s[SegEnd(s)..]);
      }
    }
  }

  lemma UndrivenPlain(rel: Path)
    requires Plain(rel)
    ensures NoColon(Undriven(rel))
  {
  }

  lemma {:induction false} ApplyClean(stack: seq<Path>, segs: seq<Path>, cap: nat) returns (out: seq<Path>)
    requires Clean(stack) && Pieces(segs) && |Join(stack)| <= cap && Apply(stack, segs, cap).Resolved?
    ensures Apply(stack, segs, cap).path == Join(out) && Clean(out) && out != [] && |Join(out)| <= cap
    decreases |segs|
  {
    if segs == [] {
      out := stack;
    } else if segs[0] == [DOT] {
      out := ApplyClean(stack, segs[1..], cap);
    } else if segs[0] == [DOT, DOT] {
      JoinPrefix(stack);
      out := ApplyClean(stack[..|stack| - 1], segs[1..], cap);
    } else {
      out := ApplyClean(stack + [segs[0]], segs[1..], cap);
    }
  }

  lemma JoinPrefix(stack: seq<Path>)
    requires stack != []
    ensures Join(stack[..|stack| - 1]) <= Join(stack)
  {
    if |stack| == 1 {
      assert stack[..0] == [];
    }
  }

  lemma JoinPush(stack: seq<Path>, seg: Path)
    ensures Join(stack + [seg]) == if stack == [] then seg else Join(stack) + [SLASH] + seg
  {
    assert (stack + [seg])[..|stack|] == stack;
  }

  lemma SplitSeg(seg: Path, rest: Path)
    requires seg != [] && (forall k :: 0 <= k < |seg| ==> !IsSep(seg[k])) && (rest == [] || IsSep(rest[0]))
    ensures Split(seg + rest) == [seg] + Split(rest)
  {
    SegEndIs(seg, rest);
    assert (seg + rest)[..|seg|] == seg && (seg + rest)[|seg|..] == rest;
  }

  lemma {:induction false} SegEndIs(seg: Path, rest: Path)
    requires (forall k :: 0 <= k < |seg| ==> !IsSep(seg[k])) && (rest == [] || IsSep(rest[0]))
    ensures SegEnd(seg + rest) == |seg|
    decreases |seg|
  {
    if seg == [] {
      assert seg + rest == rest;
    } else {
      assert (seg + rest)[1..] == seg[1..] + rest;
      SegEndIs(seg[1..], rest);
    }
  }

  /** Splitting distributes over a separator. */
  lemma {:induction false} SplitConcat(a: Path, b: Path)
    ensures Split(a + [SLASH] + b) == Split(a) + Split(b)
    decreases |a|
  {
    var s := a + [SLASH] + b;
    if a == [] {
      assert s[1..] == b;
    } else if IsSep(a[0]) {
      assert s[1..] == a[1..] + [SLASH] + b;
      SplitConcat(a[1..], b);
    } else {
      var n := SegEnd(a);
      var rest := a[n..] + [SLASH] + b;
      assert s == a[..n] + rest && a == a[..n] + a[n..];
      SplitSeg(a[..n], rest);
      SplitSeg(a[..n], a[n..]);
      SplitConcat(a[n..], b);
      assert Split(s) == [a[..n]] + (Split(a[n..]) + Split(b));
    }
  }

  lemma SplitOne(seg: Path)
    requires CleanSegment(seg)
    ensures Split(seg) == [seg]
  {
    SplitSeg(seg, []);
    assert seg + [] == seg;
  }

  lemma {:induction false} SplitJoin(stack: seq<Path>)
    requires Clean(stack)
    ensures Split(Join(stack)) == stack && NoColon(Join(stack))
    decreases |stack|
  {
    hide Split;
    if |stack| == 0 {
      SplitNothing();
    } else if |stack| == 1 {
      SplitOne(stack[0]);
    } else {
      var most, last := stack[..|stack| - 1], stack[|stack| - 1];
      SplitJoin(most);
      SplitConcat(Join(most), last);
      SplitOne(last);
      assert stack == most + [last];
    }
  }

  lemma SplitNothing()
    ensures Split([]) == []
  {
  }

  /** Every success is a non-empty canonical path that fits. */
  lemma ResolvedCanonical(cap: nat, base: Path, rel: Path)
    requires Canonical(base) && Resolve(cap, base, rel).Resolved?
    ensures var p := Resolve(cap, base, rel).path;
      p != [] && |p| <= cap && Canonical(p) && Split(p) != []
  {
    UndrivenPlain(rel);
    SplitPieces(Undriven(rel));
    var stack := if Absolute(rel) then [] else Split(base);
    var out := ApplyClean(stack, Split(Undriven(rel)), cap);
    SplitJoin(out);
    if |out| == 1 {
      assert Join(out) == out[0];
    }
  }

  /** No byte of a canonical path is a backslash, a colon or a control byte. */
  lemma CanonicalBytes(p: Path)
    requires Canonical(p)
    ensures forall k :: 0 <= k < |p| ==> p[k] >= 0x20 && p[k] != BACKSLASH && p[k] != COLON
  {
    JoinBytes(Split(p));
  }

  lemma {:induction false} JoinBytes(stack: seq<Path>)
    requires Clean(stack)
    ensures forall k :: 0 <= k < |Join(stack)| ==> Join(stack)[k] >= 0x20 && Join(stack)[k] != BACKSLASH && Join(stack)[k] != COLON
    decreases |stack|
  {
    if |stack| > 1 {
      JoinBytes(stack[..|stack| - 1]);
      assert CleanSegment(stack[|stack| - 1]);
    } else if |stack| == 1 {
      assert CleanSegment(stack[0]);
    }
  }

  lemma {:induction false} ApplyPushes(stack: seq<Path>, segs: seq<Path>, cap: nat)
    requires Clean(segs) && |Join(stack + segs)| <= cap && stack + segs != []
    ensures Apply(stack, segs, cap) == Resolved(Join(stack + segs))
    decreases |segs|
  {
    if segs == [] {
      assert stack + segs == stack;
    } else {
      assert CleanSegment(segs[0]);
      assert stack + [segs[0]] + segs[1..] == stack + segs;
      JoinGrows(stack + [segs[0]], segs[1..]);
      ApplyPushes(stack + [segs[0]], segs[1..], cap);
    }
  }

  lemma {:induction false} JoinGrows(a: seq<Path>, b: seq<Path>)
    ensures |Join(a)| <= |Join(a + b)|
    decreases |b|
  {
    if b == [] {
      assert a + b == a;
    } else {
      var n := |b| - 1;
      JoinGrows(a, b[..n]);
      assert a + b == (a + b[..n]) + [b[n]];
      JoinPush(a + b[..n], b[n]);
    }
  }

  /** Resolving a result again, from the root, gives it back unchanged. */
  lemma ResolveIdempotent(cap: nat, base: Path, rel: Path)
    requires Canonical(base) && Resolve(cap, base, rel).Resolved?
    ensures Resolve(cap, [], Resolve(cap, base, rel).path) == Resolve(cap, base, rel)
  {
    var p := Resolve(cap, base, rel).path;
    ResolvedCanonical(cap, base, rel);
    CanonicalBytes(p);
    assert CleanSegment(Split(p)[0]);
    CanonicalFirst(Split(p));
    assert [] + Split(p) == Split(p);
    ApplyPushes([], Split(p), cap);
  }

  lemma {:induction false} CanonicalFirst(stack: seq<Path>)
    requires Clean(stack) && stack != []
    ensures Join(stack) != [] && !IsSep(Join(stack)[0])
    decreases |stack|
  {
    assert CleanSegment(stack[0]);
    if |stack| > 1 {
      CanonicalFirst(stack[..|stack| - 1]);
    }
  }

  // ---- the buffer version -----------------------------------------------------------

  /** Where the path in the buffer ends once its last segment is dropped. */
  function PopLength(p: Path): (n: nat)
    ensures n <= |p|
  {
    if p == [] then 0 else if p[|p| - 1] == SLASH then |p| - 1 else PopLength(p[..|p| - 1])
  }

  lemma {:induction false} PopTail(p: Path, seg: Path)
    requires forall k :: 0 <= k < |seg| ==> seg[k] != SLASH
    ensures PopLength(p + [SLASH] + seg) == |p| && PopLength(seg) == 0
    decreases |seg|
  {
    if seg != [] {
      var s := p + [SLASH] + seg;
      assert s[..|s| - 1] == p + [SLASH] + seg[..|seg| - 1];
      PopTail(p, seg[..|seg| - 1]);
    } else {
      assert (p + [SLASH] + seg)[|p|] == SLASH;
    }
  }

  /** Dropping back to the last slash is popping the stack. */
  lemma PopIsPop(stack: seq<Path>)
    requires Clean(stack) && stack != []
    ensures PopLength(Join(stack)) == |Join(stack[..|stack| - 1])|
    ensures Join(stack)[..PopLength(Join(stack))] == Join(stack[..|stack| - 1])
  {
    var last := stack[|stack| - 1];
    assert CleanSegment(last);
    if |stack| == 1 {
      PopTail([], last);
    } else {
      PopTail(Join(stack[..|stack| - 1]), last);
    }
  }

  method Pop(dst: array<Byte>, dlen: nat) returns (n: nat)
    requires dlen <= dst.Length
    ensures n == PopLength(dst[..dlen])
  {
    n := dlen;
    while n > 0 && dst[n - 1] != SLASH
      invariant n <= dlen && PopLength(dst[..n]) == PopLength(dst[..dlen])
    {
      assert dst[..n][..n - 1] == dst[..n - 1];
      n := n - 1;
    }
    if n > 0 {
      n := n - 1;
    }
  }

  /** Append a segment, and a separator before it unless it is the first. */
  method Append(dst: array<Byte>, dlen: nat, seg: Path, ghost stack: seq<Path>) returns (n: nat)
    requires dlen <= dst.Length && dst[..dlen] == Join(stack) && Clean(stack)
    requires dlen + |seg| + (if dlen > 0 then 1 else 0) < dst.Length
    modifies dst
    ensures n < dst.Length && dst[..n] == Join(stack + [seg])
  {
    JoinPush(stack, seg);
    if stack != [] {
      CanonicalFirst(stack);
    }
    n := dlen;
    if n > 0 {
      dst[n] := SLASH;
      n := n + 1;
      assert dst[..n] == Join(stack) + [SLASH];
    }
    Put(dst, n, seg, |seg|);
    n := n + |seg|;
  }

  method Scan(rel: Path) returns (plain: bool)
    ensures plain == Plain(rel)
  {
    var k := 0;
    while k < |rel|
      invariant k <= |rel| && Plain(rel[..k])
    {
      if rel[k] < 0x20 || (rel[k] == COLON && k != 1) {
        return false;
      }
      k := k + 1;
    }
    assert rel[..k] == rel;
    return true;
  }

  method SkipSeps(rel: Path, from: nat) returns (i: nat)
    requires from <= |rel|
    ensures from <= i <= |rel| && (i < |rel| ==> !IsSep(rel[i])) && Split(rel[i..]) == Split(rel[from..])
  {
    i := from;
    while i < |rel| && IsSep(rel[i])
      invariant from <= i <= |rel| && Split(rel[i..]) == Split(rel[from..])
    {
      assert rel[i..][1..] == rel[i + 1..];
      i := i + 1;
    }
  }

  /** The segment at `start` and where the next one begins. */
  method TakeSegment(rel: Path, start: nat) returns (end: nat, next: nat)
    requires start < |rel| && !IsSep(rel[start])
    ensures start < end <= next <= |rel| && (next < |rel| ==> !IsSep(rel[next]))
    ensures Split(rel[start..]) == [rel[start..end]] + Split(rel[next..])
  {
    end := start;
    while end < |rel| && !IsSep(rel[end])
      invariant start <= end <= |rel| && forall k :: start <= k < end ==> !IsSep(rel[k])
    {
      end := end + 1;
    }
    SplitSeg(rel[start..end], rel[end..]);
    assert rel[start..] == rel[start..end] + rel[end..];
    next := SkipSeps(rel, end);
  }

  /** One segment applied to the buffer; a negative `rc` ends the resolution. */
  method Step(dst: array<Byte>, cap: nat, dlen: nat, seg: Path, ghost stack: seq<Path>, ghost rest: seq<Path>)
    returns (rc: int, n: nat, ghost stack': seq<Path>)
    requires dst.Length > cap && dlen <= cap && dst[..dlen] == Join(stack) && Clean(stack) && Pieces([seg])
    modifies dst
    ensures rc < 0 ==> (rc == TOOLONG && Apply(stack, [seg] + rest, cap) == TooLong)
                       || (rc == ESCAPE && Apply(stack, [seg] + rest, cap) == Escape)
    ensures rc >= 0 ==> n <= cap && dst[..n] == Join(stack') && Clean(stack')
                        && Apply(stack, [seg] + rest, cap) == Apply(stack', rest, cap)
  {
    ghost var segs := [seg] + rest;
    assert segs[0] == seg && segs[1..] == rest && Pieces([seg]) && [seg][0] == seg;
    rc, n, stack' := 0, dlen, stack;
    if seg == [DOT] {
    } else if seg == [DOT, DOT] {
      if dlen == 0 {
        if stack != [] {
          CanonicalFirst(stack);
        }
        rc := ESCAPE;
      } else {
        PopIsPop(stack);
        n := Pop(dst, dlen);
        stack' := stack[..|stack| - 1];
        assert dst[..dlen][..n] == dst[..n];
      }
    } else {
      JoinPush(stack, seg);
      if stack != [] {
        CanonicalFirst(stack);
      }
      if dlen + |seg| + (if dlen > 0 then 1 else 0) > cap {
        rc := TOOLONG;
      } else {
        n := Append(dst, dlen, seg, stack);
        stack' := stack + [seg];
      }
    }
  }

  predicate Encodes(len: int, r: Resolution)
  {
    match r
    case Resolved(p) => len == |p|
    case TooLong => len == TOOLONG
    case Escape => len == ESCAPE
    case Bad => len == BAD
  }

  /** Resolve `rel` against `base` into `dst`: the length, or why there is none. */
  method Build(dst: array<Byte>, cap: nat, base: Path, rel: Path) returns (len: int)
    requires dst.Length > cap && Canonical(base)
    modifies dst
    ensures Encodes(len, Resolve(cap, base, rel))
    ensures len >= 0 ==> 0 < len <= cap && dst[..len] == Resolve(cap, base, rel).path && dst[len] == 0
  {
    var plain := Scan(rel);
    if !plain || (HasDrive(rel) && !IsLetter(rel[0])) {
      return BAD;
    }
    UndrivenPlain(rel);
    SplitPieces(Undriven(rel));
    if !Absolute(rel) && |base| > cap {
      return TOOLONG;
    }
    var body := Undriven(rel);
    var dlen := 0;
    ghost var stack: seq<Path> := [];
    if !Absolute(rel) {
      Put(dst, 0, base, |base|);
      dlen := |base|;
      stack := Split(base);
      assert dst[..dlen] == dst[..0] + base;
    }
    assert body[0..] == body;
    len := Segments(dst, cap, dlen, body, stack);
  }

  /** The segment loop. */
  method Segments(dst: array<Byte>, cap: nat, start: nat, rel: Path, ghost base: seq<Path>) returns (len: int)
    requires dst.Length > cap && start <= cap && dst[..start] == Join(base) && Clean(base) && Pieces(Split(rel))
    modifies dst
    ensures Encodes(len, Apply(base, Split(rel), cap))
    ensures len >= 0 ==> 0 < len <= cap && dst[..len] == Apply(base, Split(rel), cap).path && dst[len] == 0
  {
    var dlen: nat := start;
    assert rel[0..] == rel;
    var i := SkipSeps(rel, 0);
    ghost var stack, want := base, Apply(base, Split(rel), cap);
    while i < |rel|
      invariant i <= |rel| && (i < |rel| ==> !IsSep(rel[i])) && dlen <= cap
      invariant dst[..dlen] == Join(stack) && Clean(stack) && Pieces(Split(rel[i..]))
      invariant want == Apply(stack, Split(rel[i..]), cap)
      decreases |rel| - i
    {
      var end, next := TakeSegment(rel, i);
      PiecesTail(rel[i..end], Split(rel[next..]));
      var rc;
      rc, dlen, stack := Step(dst, cap, dlen, rel[i..end], stack, Split(rel[next..]));
      if rc < 0 {
        return rc;
      }
      i := next;
    }
    assert rel[i..] == [];
    dst[dlen] := 0;
    if dlen == 0 {
      if stack != [] {
        CanonicalFirst(stack);
      }
      return BAD;
    }
    assert dst[..dlen] == Join(stack) && stack != [];
    len := dlen;
  }

  lemma PiecesTail(seg: Path, rest: seq<Path>)
    requires Pieces([seg] + rest)
    ensures Pieces([seg]) && Pieces(rest)
  {
    var segs := [seg] + rest;
    assert segs[0] == seg;
    assert forall k :: 0 <= k < |rest| ==> rest[k] == segs[k + 1];
  }
}
