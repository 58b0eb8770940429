/** Which file is the settings file: the first record of the root folder that bears its name, and no other. */
module SettingsFile {
  import opened Words
  import opened Volume
  import opened Directory
  import opened DirWalk
  import opened Floyd
  import opened Options
  import opened FileLba
  import opened ConfigStore

  /** "CORECFG DAT", the name as a record holds it */
  const FIELD: seq<Byte> := [0x43, 0x4F, 0x52, 0x45, 0x43, 0x46, 0x47, 0x20, 0x44, 0x41, 0x54]

  /** The letter or its small form; anything else only as it is. */
  predicate EitherCase(b: Byte, want: Byte)
  {
    b == want || (0x41 <= want <= 0x5A && b == want + 32)
  }

  /** The record is a file's, under that name. */
  predicate Named(e: seq<Byte>)
    requires |e| == 32
  {
    e[11] / 16 % 2 == 0 && forall k :: 0 <= k < 11 ==> EitherCase(e[k], FIELD[k])
  }

  /** What is trimmed is spaces, and as many as there are. */
  lemma {:induction false} TrimmedMeans(s: seq<Byte>)
    ensures var t := TrimSpaces(s);
      && |t| <= |s| && t == s[..|t|] && (forall k :: |t| <= k < |s| ==> s[k] == 0x20)
      && (t != [] ==> t[|t| - 1] != 0x20)
    decreases |s|
  {
    if s != [] && s[|s| - 1] == 0x20 {
      TrimmedMeans(s[..|s| - 1]);
    }
  }

  lemma {:induction false} NulMeans(s: seq<Byte>)
    ensures var t := UpToNul(s); |t| <= |s| && t == s[..|t|] && (forall k :: 0 <= k < |t| ==> t[k] != 0) && (|t| < |s| ==> s[|t|] == 0)
    decreases |s|
  {
    if s != [] && s[0] != 0 {
      NulMeans(s[1..]);
    }
  }

  lemma UpperIs(b: seq<Byte>, k: nat, want: Byte)
    requires k < |b| && !(0x61 <= want <= 0x7A)
    ensures Upper(b)[k] == want <==> EitherCase(b[k], want)
  {
  }

  /** The name as the loop compares it, when base and extension are this long. */
  lemma NameParts(raw: seq<Byte>) returns (base: nat, ext: nat)
    requires |raw| == 32
    ensures base <= 8 && ext <= 3
    ensures (forall k :: base <= k < 8 ==> raw[k] == 0x20) && (base > 0 ==> raw[base - 1] != 0x20)
    ensures (forall k :: 8 + ext <= k < 11 ==> raw[k] == 0x20) && (ext > 0 ==> raw[8 + ext - 1] != 0x20)
    ensures ShortName(raw) == UpToNul(raw[..base] + (if ext == 0 then [] else [0x2E] + raw[8..8 + ext]))
  {
    TrimmedMeans(raw[..8]);
    TrimmedMeans(raw[8..11]);
    base, ext := |TrimSpaces(raw[..8])|, |TrimSpaces(raw[8..11])|;
    assert raw[..8][..base] == raw[..base] && raw[8..11][..ext] == raw[8..8 + ext];
    forall k | 8 + ext <= k < 11
      ensures raw[k] == 0x20
    {
      assert raw[8..11][k - 8] == raw[k];
    }
    if ext > 0 {
      assert raw[8..11][ext - 1] == raw[8 + ext - 1];
    }
  }

  /**
   * The settings file is any file, and only a file, whose eleven bytes are the name's in
   * either case: no NUL, space or dot elsewhere makes another name pass for it.
   */
  lemma NamedExactly(d: Dirent)
    requires |d.raw| == 32 && d.isDir == (d.raw[11] / 16 % 2 == 1)
    ensures IsConfig(d) <==> Named(d.raw)
  {
    var raw := d.raw;
    var base, ext := NameParts(raw);
    var whole := raw[..base] + (if ext == 0 then [] else [0x2E] + raw[8..8 + ext]);
    NulMeans(whole);
    if !d.isDir && Upper(ShortName(raw)) == FILE_NAME {
      FromName(raw, base, ext, whole);
    } else if Named(raw) {
      ToName(raw, base, ext, whole);
    }
  }

  lemma FromName(raw: seq<Byte>, base: nat, ext: nat, whole: seq<Byte>)
    requires |raw| == 32 && base <= 8 && ext <= 3 && whole == raw[..base] + (if ext == 0 then [] else [0x2E] + raw[8..8 + ext])
    requires forall k :: base <= k < 8 ==> raw[k] == 0x20
    requires |UpToNul(whole)| <= |whole| && UpToNul(whole) == whole[..|UpToNul(whole)|]
    requires Upper(UpToNul(whole)) == FILE_NAME
    ensures forall k :: 0 <= k < 11 ==> EitherCase(raw[k], FIELD[k])
  {
    assert |whole| >= 11 && forall k :: 0 <= k < 11 ==> UpToNul(whole)[k] == whole[k];
    forall k | 0 <= k < 11
      ensures EitherCase(whole[k], FILE_NAME[k])
    {
      UpperIs(UpToNul(whole), k, FILE_NAME[k]);
    }
    assert ext >= 2 && base >= 7;
    assert EitherCase(whole[8], FILE_NAME[8]);
    if base == 8 {
      assert false;
    }
    assert ext == 3 && raw[7] == 0x20;
    forall k | 0 <= k < 11
      ensures EitherCase(raw[k], FIELD[k])
    {
      assert EitherCase(whole[k], FILE_NAME[k]);
      if k >= 8 {
        assert whole[k] == raw[k];
      } else if k < 7 {
        assert whole[k] == raw[k];
      }
    }
  }

  lemma ToName(raw: seq<Byte>, base: nat, ext: nat, whole: seq<Byte>)
    requires |raw| == 32 && base <= 8 && ext <= 3 && whole == raw[..base] + (if ext == 0 then [] else [0x2E] + raw[8..8 + ext])
    requires (forall k :: base <= k < 8 ==> raw[k] == 0x20) && (base > 0 ==> raw[base - 1] != 0x20)
    requires forall k :: 8 + ext <= k < 11 ==> raw[k] == 0x20
    requires |UpToNul(whole)| <= |whole| && UpToNul(whole) == whole[..|UpToNul(whole)|]
    requires |UpToNul(whole)| < |whole| ==> whole[|UpToNul(whole)|] == 0
    requires forall k :: 0 <= k < 11 ==> EitherCase(raw[k], FIELD[k])
    ensures Upper(UpToNul(whole)) == FILE_NAME
  {
    assert EitherCase(raw[6], FIELD[6]) && EitherCase(raw[7], FIELD[7]) && EitherCase(raw[10], FIELD[10]);
    assert base == 7 && ext == 3 && |whole| == 11;
    forall k | 0 <= k < 11
      ensures EitherCase(whole[k], FILE_NAME[k]) && whole[k] != 0
    {
      assert EitherCase(raw[k], FIELD[k]);
      if k >= 8 {
        assert whole[k] == raw[k];
      } else if k < 7 {
        assert whole[k] == raw[k];
      }
    }
    assert UpToNul(whole) == whole;
    forall k | 0 <= k < 11
      ensures Upper(whole)[k] == FILE_NAME[k]
    {
      UpperIs(whole, k, FILE_NAME[k]);
    }
  }

  // ---- where it is found ------------------------------------------------------------------------

  /** Up to the first of them that is the settings file's, with it. */
  function Through(live: seq<seq<Byte>>): seq<seq<Byte>>
    requires forall k :: 0 <= k < |live| ==> |live[k]| == 32
  {
    if live == [] then [] else if Named(live[0]) then [live[0]] else [live[0]] + Through(live[1..])
  }

  predicate Present(live: seq<seq<Byte>>)
    requires forall k :: 0 <= k < |live| ==> |live[k]| == 32
  {
    live != [] && (Named(live[0]) || Present(live[1..]))
  }

  lemma {:induction false} LiveSized(bytes: seq<Byte>, at: nat)
    requires at <= |bytes|
    ensures forall k :: 0 <= k < |LiveFrom(bytes, at)| ==> |LiveFrom(bytes, at)[k]| == 32
    decreases |bytes| - at
  {
    if at + 32 <= |bytes| && !IsEnd(bytes[at..at + 32]) {
      LiveSized(bytes, at + 32);
    }
  }

  lemma OneLive(acc: Lfn, e: seq<Byte>, stop: Dirent -> bool)
    requires |e| == 32 && forall d :: stop(d) == IsConfig(d)
    ensures stop(MakeDirent(acc, e)) == Named(e)
  {
    NamedExactly(MakeDirent(acc, e));
  }

  /** The search goes through the live records and ends with the first that bears the name. */
  lemma {:induction false} SearchLive(st: Scan, bytes: seq<Byte>, at: nat, stop: Dirent -> bool)
    requires at <= |bytes| && !st.done && forall d :: stop(d) == IsConfig(d)
    ensures forall k :: 0 <= k < |LiveFrom(bytes, at)| ==> |LiveFrom(bytes, at)[k]| == 32
    ensures Raws(Records(st, bytes, at, stop).out) == Raws(st.out) + Through(LiveFrom(bytes, at))
    ensures Present(LiveFrom(bytes, at)) ==> Records(st, bytes, at, stop).done
    decreases |bytes| - at
  {
    LiveSized(bytes, at);
    if at + 32 <= |bytes| && !IsEnd(bytes[at..at + 32]) {
      hide IsConfig, Named, MakeDirent;
      var e := bytes[at..at + 32];
      var st' := Directory.Record(st, e, stop);
      OneLive(st.acc, e, stop);
      if IsLive(e) {
        assert Raws(st'.out) == Raws(st.out) + [MakeDirent(st.acc, e).raw];
        RawIs(st.acc, e);
      }
      var rest := LiveFrom(bytes, at + 32);
      LiveSized(bytes, at + 32);
      ThroughStep(e, rest);
      assert LiveFrom(bytes, at) == if IsLive(e) then [e] + rest else rest;
      if !st'.done {
        SearchLive(st', bytes, at + 32, stop);
      }
    }
  }

  lemma ThroughStep(e: seq<Byte>, rest: seq<seq<Byte>>)
    requires |e| == 32 && forall k :: 0 <= k < |rest| ==> |rest[k]| == 32
    ensures Through([e] + rest) == [e] + if Named(e) then [] else Through(rest)
    ensures Present([e] + rest) <==> Named(e) || Present(rest)
  {
    assert ([e] + rest)[1..] == rest;
  }

  lemma RawIs(acc: Lfn, e: seq<Byte>)
    requires |e| == 32
    ensures MakeDirent(acc, e).raw == e
  {
  }

  lemma {:induction false} ThroughEnds(live: seq<seq<Byte>>) returns (i: nat)
    requires forall k :: 0 <= k < |live| ==> |live[k]| == 32
    ensures i <= |live| && (Present(live) <==> i < |live|) && forall k :: 0 <= k < i ==> !Named(live[k])
    ensures if i < |live| then Named(live[i]) && Through(live) == live[..i + 1] else Through(live) == live
    decreases |live|
  {
    i := 0;
    if live != [] && !Named(live[0]) {
      i := ThroughEnds(live[1..]);
      if i < |live| - 1 {
        assert live[..i + 2] == [live[0]] + live[1..][..i + 1];
      }
      i := i + 1;
    }
  }

  /** The bytes of the root folder that the search may see: all of them, but for the walk's limit. */
  function RootBytes(image: seq<Byte>, g: Geo, n: nat): seq<Byte>
    requires OnDisk(image, g) && ChainOf(image, g, g.rootClus, n)
  {
    ChainBytes(image, g, g.rootClus, Min(n, WalkLimit(g)))
  }

  lemma NamedKind(e: seq<Byte>, a: Attributes)
    requires |e| == 32 && Named(e) && Coded(e[11], a)
    ensures !a.folder
  {
    KindExactly(e, a);
  }

  /** What the entries of a walk say of themselves. */
  lemma ToldKind(d: Dirent)
    requires Told(d) && |d.raw| == 32
    ensures d.isDir == (d.raw[11] / 16 % 2 == 1)
  {
    var a, c, n := SomeRecord(d.raw);
    KindExactly(d.raw, a);
  }

  /** Where the search ends, in the live records. */
  lemma Searched(image: seq<Byte>, g: Geo, n: nat, stop: Dirent -> bool) returns (i: nat)
    requires OnDisk(image, g) && ChainOf(image, g, g.rootClus, n) && forall d :: stop(d) == IsConfig(d)
    ensures forall k :: 0 <= k < |LiveFrom(RootBytes(image, g, n), 0)| ==> |LiveFrom(RootBytes(image, g, n), 0)[k]| == 32
    ensures var live, o := LiveFrom(RootBytes(image, g, n), 0), WalkFrom(image, g, g.rootClus, 0, Start(), Visiting(image, g, stop), WalkLimit(g));
      && i <= |live| && (forall k :: 0 <= k < i ==> !Named(live[k])) && AllTold(o.out)
      && (if i < |live| then Named(live[i]) && o.rc == 0 && Raws(o.out) == live[..i + 1] else Raws(o.out) == live)
  {
    hide AllTold, ChainOf, OnDisk, Named, IsConfig;
    var bytes := RootBytes(image, g, n);
    AcyclicWalk(image, g, g.rootClus, n, stop, WalkLimit(g));
    SearchLive(Start(), bytes, 0, stop);
    i := ThroughEnds(LiveFrom(bytes, 0));
    NoneTold();
    WalkTold(image, g, g.rootClus, 0, Start(), stop, WalkLimit(g));
    assert Raws(Start().out) == [];
  }

  /**
   * In a root folder whose chain ends, the settings file is the first live record under the
   * name, when it has a cluster and two slots fit into its size; no other record is.
   */
  lemma FoundExactly(image: seq<Byte>, g: Geo, n: nat) returns (i: nat)
    requires OnDisk(image, g) && ChainOf(image, g, g.rootClus, n)
    ensures forall k :: 0 <= k < |LiveFrom(RootBytes(image, g, n), 0)| ==> |LiveFrom(RootBytes(image, g, n), 0)[k]| == 32
    ensures var live := LiveFrom(RootBytes(image, g, n), 0);
      && i <= |live| && (forall k :: 0 <= k < i ==> !Named(live[k])) && (i < |live| ==> Named(live[i]))
      && (i == |live| ==> FileIn(RootWalk(image, g)).None?)
      && (i < |live| ==> forall a: Attributes, c: U32, size: U32 :: Recorded(live[i], a, c, size) ==>
           var d := FileIn(RootWalk(image, g));
           (d.Some? <==> c != 0 && size >= 2048) && (d.Some? ==> d.value.raw == live[i] && d.value.firstClus == c && d.value.size == size))
  {
    var bytes, walk := RootBytes(image, g, n), RootWalk(image, g);
    hide OnDisk, ChainOf, WalkFrom, LiveFrom, Named, IsConfig;
    i := Searched(image, g, n, d => IsConfig(d));
    var live := LiveFrom(bytes, 0);
    if walk.out != [] {
      var last := walk.out[|walk.out| - 1];
      assert last.raw == Raws(walk.out)[|walk.out| - 1] && Told(last);
      ToldKind(last);
      NamedExactly(last);
    }
    if i < |live| {
      var last := walk.out[|walk.out| - 1];
      assert last.raw == live[i];
      forall a: Attributes, c: U32, size: U32 | Recorded(live[i], a, c, size)
        ensures IsConfig(last) && last.firstClus == c && last.size == size
      {
        NamedKind(live[i], a);
      }
    }
  }
}
