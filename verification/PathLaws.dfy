/** What a playlist's lines name: laws that fix every resolution from one segment upwards. */
module PathLaws {
  import opened Words
  import opened PathBuild

  /** The folder or file `seg` in `base`. */
  function Under(base: Path, seg: Path): Path
  {
    if base == [] then seg else base + [SLASH] + seg
  }

  lemma StackOf(base: Path)
    requires Canonical(base)
    ensures Clean(Split(base)) && Join(Split(base)) == base && (base == [] <==> Split(base) == []) && NoColon(base)
  {
    SplitJoin(Split(base));
    if base != [] && Split(base) == [] {
      assert false;
    }
    SplitNothing();
  }

  lemma UnderIs(base: Path, seg: Path)
    requires Canonical(base) && CleanSegment(seg)
    ensures Split(Under(base, seg)) == Split(base) + [seg] && Join(Split(base) + [seg]) == Under(base, seg)
    ensures Canonical(Under(base, seg))
  {
    StackOf(base);
    SplitOne(seg);
    JoinPush(Split(base), seg);
    if base == [] {
      assert [] + [seg] == [seg];
    } else {
      SplitConcat(base, seg);
    }
  }

  /** A line without a colon that does not begin with a separator is relative. */
  predicate Relative(rel: Path)
  {
    NoColon(rel) && (rel == [] || !IsSep(rel[0]))
  }

  lemma RelativeResolves(cap: nat, base: Path, rel: Path)
    requires Relative(rel)
    ensures Resolve(cap, base, rel) == if |base| > cap then TooLong else Apply(Split(base), Split(rel), cap)
  {
  }

  // ---- one segment ----------------------------------------------------------------------------

  /** A name is looked up in the playlist's own folder, and is too long exactly when its path is. */
  lemma NameInFolder(cap: nat, base: Path, seg: Path)
    requires Canonical(base) && CleanSegment(seg)
    ensures Resolve(cap, base, seg) == if |Under(base, seg)| <= cap then Resolved(Under(base, seg)) else TooLong
  {
    RelativeResolves(cap, base, seg);
    UnderIs(base, seg);
    SplitOne(seg);
    assert [seg][1..] == [];
  }

  lemma SplitFront(seg: Path, rest: Path)
    requires seg != [] && forall k :: 0 <= k < |seg| ==> !IsSep(seg[k])
    ensures Split(seg + [SLASH] + rest) == [seg] + Split(rest)
  {
    SplitSeg(seg, [SLASH] + rest);
    assert seg + ([SLASH] + rest) == seg + [SLASH] + rest;
    assert ([SLASH] + rest)[1..] == rest;
  }

  /** ".." leaves the folder for the one it is in. */
  lemma UpFromFolder(cap: nat, parent: Path, seg: Path, rest: Path)
    requires Canonical(parent) && CleanSegment(seg) && Relative(rest) && |Under(parent, seg)| <= cap
    ensures Resolve(cap, Under(parent, seg), [DOT, DOT, SLASH] + rest) == Resolve(cap, parent, rest)
  {
    UpLine(rest);
    UnderIs(parent, seg);
    RelativeResolves(cap, Under(parent, seg), [DOT, DOT, SLASH] + rest);
    RelativeResolves(cap, parent, rest);
    var stack, segs := Split(parent) + [seg], [[DOT, DOT]] + Split(rest);
    assert segs[0] == [DOT, DOT] && segs[1..] == Split(rest) && stack[..|stack| - 1] == Split(parent);
  }

  lemma UpLine(rest: Path)
    requires Relative(rest)
    ensures var rel := [DOT, DOT, SLASH] + rest; Relative(rel) && Split(rel) == [[DOT, DOT]] + Split(rest)
  {
    SplitFront([DOT, DOT], rest);
    assert [DOT, DOT] + [SLASH] + rest == [DOT, DOT, SLASH] + rest;
  }

  /** From the root there is no way up. */
  lemma UpFromRoot(cap: nat, rest: Path)
    requires Relative(rest)
    ensures Resolve(cap, [], [DOT, DOT, SLASH] + rest) == Escape && Resolve(cap, [], [DOT, DOT]) == Escape
  {
    UpLine(rest);
    RelativeResolves(cap, [], [DOT, DOT, SLASH] + rest);
    RelativeResolves(cap, [], [DOT, DOT]);
    SplitNothing();
    SplitSeg([DOT, DOT], []);
    assert [DOT, DOT] + [] == [DOT, DOT];
    var segs := [[DOT, DOT]] + Split(rest);
    assert segs[0] == [DOT, DOT];
  }

  /** "." is the folder itself, and no track. */
  lemma StayInFolder(cap: nat, base: Path, rest: Path)
    requires Canonical(base) && Relative(rest)
    ensures Resolve(cap, base, [DOT, SLASH] + rest) == Resolve(cap, base, rest)
    ensures Resolve(cap, [], []) == Bad
  {
    SplitNothing();
    SplitFront([DOT], rest);
    assert [DOT] + [SLASH] + rest == [DOT, SLASH] + rest;
    RelativeResolves(cap, base, [DOT, SLASH] + rest);
    RelativeResolves(cap, base, rest);
    var segs := [[DOT]] + Split(rest);
    assert segs[0] == [DOT] && segs[1..] == Split(rest);
  }

  // ---- from the root --------------------------------------------------------------------------

  /** A line with a leading separator, or a drive letter, is resolved from the root, whatever the folder. */
  lemma FromTheRoot(cap: nat, base: Path, drive: Byte, sep: Byte, rest: Path)
    requires IsLetter(drive) && IsSep(sep) && NoColon(rest)
    ensures Resolve(cap, base, [sep] + rest) == Resolve(cap, [], rest)
    ensures Resolve(cap, base, [drive, COLON] + rest) == Resolve(cap, [], rest)
  {
    SplitNothing();
    assert ([sep] + rest)[1..] == rest && ([drive, COLON] + rest)[2..] == rest;
    if |rest| >= 2 {
      assert rest[1] != COLON;
    }
    if rest != [] {
      assert ([sep] + rest)[1] == rest[0];
    }
    SplitAlike(cap, rest);
  }

  lemma SplitAlike(cap: nat, rest: Path)
    requires NoColon(rest)
    ensures Resolve(cap, [], rest) == Apply([], Split(rest), cap)
  {
    SplitNothing();
  }

  /** A control byte anywhere, or a colon where no drive letter's stands, is refused. */
  lemma RefusedBytes(cap: nat, base: Path, rel: Path, k: nat)
    requires k < |rel| && (rel[k] < 0x20 || (rel[k] == COLON && (k != 1 || !IsLetter(rel[0]))))
    ensures Resolve(cap, base, rel) == Bad
  {
  }

  // ---- longer lines -----------------------------------------------------------------------------

  lemma {:induction false} ApplyOn(stack: seq<Path>, a: seq<Path>, b: seq<Path>, cap: nat) returns (out: seq<Path>)
    requires Clean(stack) && Pieces(a) && |Join(stack)| <= cap && Apply(stack, a, cap).Resolved?
    ensures Clean(out) && out != [] && Join(out) == Apply(stack, a, cap).path && |Join(out)| <= cap
    ensures Apply(stack, a + b, cap) == Apply(out, b, cap)
    decreases |a|
  {
    hide Join, IsSep;
    if a == [] {
      assert a + b == b;
      out := stack;
    } else {
      var s := a + b;
      assert s[0] == a[0] && s[1..] == a[1..] + b;
      if a[0] == [DOT] {
        out := ApplyOn(stack, a[1..], b, cap);
      } else if a[0] == [DOT, DOT] {
        JoinPrefix(stack);
        out := ApplyOn(stack[..|stack| - 1], a[1..], b, cap);
      } else {
        out := ApplyOn(stack + [a[0]], a[1..], b, cap);
      }
    }
  }

  lemma {:induction false} ApplyFails(stack: seq<Path>, a: seq<Path>, b: seq<Path>, cap: nat)
    requires Apply(stack, a, cap).TooLong? || Apply(stack, a, cap).Escape?
    ensures Apply(stack, a + b, cap) == Apply(stack, a, cap)
    decreases |a|
  {
    var s := a + b;
    assert s[0] == a[0] && s[1..] == a[1..] + b;
    if a[0] == [DOT] {
      ApplyFails(stack, a[1..], b, cap);
    } else if a[0] == [DOT, DOT] {
      if stack != [] {
        ApplyFails(stack[..|stack| - 1], a[1..], b, cap);
      }
    } else if |Join(stack + [a[0]])| <= cap {
      ApplyFails(stack + [a[0]], a[1..], b, cap);
    }
  }

  lemma OnFrom(cap: nat, stack: seq<Path>, a: Path, b: Path)
    requires Clean(stack) && |Join(stack)| <= cap && Pieces(Split(a)) && Relative(b)
    ensures var r, s := Apply(stack, Split(a), cap), Apply(stack, Split(a) + Split(b), cap);
      (r.Resolved? ==> s == Resolve(cap, r.path, b)) && (r.TooLong? || r.Escape? ==> s == r)
  {
    var r := Apply(stack, Split(a), cap);
    if r.Resolved? {
      var out := ApplyOn(stack, Split(a), Split(b), cap);
      SplitJoin(out);
      RelativeResolves(cap, r.path, b);
    } else if !r.Bad? {
      ApplyFails(stack, Split(a), Split(b), cap);
    }
  }

  /**
   * A line that goes on after a slash names what its rest names in the folder its first part
   * does; and a first part that leaves the volume or gets too long settles it.
   */
  lemma GoesOn(cap: nat, base: Path, a: Path, b: Path)
    requires Canonical(base) && a != [] && NoColon(a) && Relative(b)
    ensures var r := Resolve(cap, base, a);
      && (r.Resolved? ==> Resolve(cap, base, a + [SLASH] + b) == Resolve(cap, r.path, b))
      && (r.TooLong? || r.Escape? ==> Resolve(cap, base, a + [SLASH] + b) == r)
  {
    var rel := a + [SLASH] + b;
    SplitConcat(a, b);
    StackOf(base);
    SplitPieces(a);
    if |a| >= 2 {
      assert a[1] != COLON && rel[1] == a[1];
    }
    assert NoColon(rel) && !HasDrive(rel) && !HasDrive(a);
    assert rel[0] == a[0];
    if IsSep(a[0]) {
      OnFrom(cap, [], a, b);
    } else if |base| <= cap {
      OnFrom(cap, Split(base), a, b);
    }
  }

  /** The line with every backslash a slash. */
  function Slashed(s: Path): (r: Path)
    ensures |r| == |s|
  {
    seq(|s|, k requires 0 <= k < |s| => if s[k] == BACKSLASH then SLASH else s[k])
  }

  lemma {:induction false} SlashedSplit(s: Path)
    ensures Split(Slashed(s)) == Split(s)
    decreases |s|
  {
    var t := Slashed(s);
    if s != [] {
      if IsSep(s[0]) {
        assert t[1..] == Slashed(s[1..]);
        SlashedSplit(s[1..]);
      } else {
        var n := SegEnd(s);
        assert t[..n] == s[..n] && t[n..] == Slashed(s[n..]);
        SlashedSplit(s[n..]);
        SplitSeg(s[..n], t[n..]);
        assert t == s[..n] + t[n..];
      }
    }
  }

  /** Slash and backslash mean the same. */
  lemma SeparatorsAlike(cap: nat, base: Path, rel: Path)
    ensures Resolve(cap, base, Slashed(rel)) == Resolve(cap, base, rel)
  {
    var t := Slashed(rel);
    SlashedSplit(Undriven(rel));
    if HasDrive(rel) {
      assert t[2..] == Slashed(rel[2..]);
    }
    assert forall k :: 0 <= k < |rel| ==> (rel[k] < 0x20 <==> t[k] < 0x20) && (rel[k] == COLON <==> t[k] == COLON);
  }
}
