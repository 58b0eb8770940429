/**
 * The player's file source: a position to move about in a file, over the forward-only
 * cluster cursor. Moving is only noted; a read first brings the cursor up, back to a
 * snapshot or the start of the file when it must, and then forward along the chain.
 */
module FileSource {
  import opened Words
  import opened Memory
  import opened Volume
  import opened Fat32
  import opened FatStream
  import opened FileReads
  import opened ByteSource
  import opened Retries

  /** The size of a file of less than 2 GiB. */
  type Size = x: int | 0 <= x < 0x8000_0000

  /** A copy of the cursor, and the place it is filed under. */
  datatype Snap = Snap(place: nat, clus: U32, off: nat, remaining: nat)

  /** Cluster step and bytes behind it, of a copied cursor. */
  datatype Step = Step(index: nat, base: nat)

  /** The copy is of a cursor on the chain, and `m` says where it was. */
  ghost predicate Taken(image: seq<Byte>, g: Geo, first: U32, size: nat, c: Snap, m: Mark, k: Step)
    requires OnDisk(image, g)
  {
    && c.remaining <= size < TWO32 && m == Mark(c.place, size - c.remaining) && m.at == k.base + c.off
    && OnChain(image, g, first, size, k.index, k.base, c.clus, c.off, c.remaining)
  }

  ghost predicate Kept(image: seq<Byte>, g: Geo, first: U32, size: nat, snaps: seq<Snap>, marks: seq<Mark>, steps: seq<Step>)
    requires OnDisk(image, g)
  {
    |snaps| == |marks| == |steps| && forall i :: 0 <= i < |snaps| ==> Taken(image, g, first, size, snaps[i], marks[i], steps[i])
  }

  lemma KeptOneMore(image: seq<Byte>, g: Geo, first: U32, size: nat, snaps: seq<Snap>, marks: seq<Mark>, steps: seq<Step>,
                    c: Snap, m: Mark, k: Step)
    requires OnDisk(image, g) && Kept(image, g, first, size, snaps, marks, steps) && Taken(image, g, first, size, c, m, k)
    ensures Kept(image, g, first, size, snaps + [c], marks + [m], steps + [k])
  {
  }

  /** Byte `at` of the chain lies `off` bytes into its cluster. */
  ghost predicate OffsetAt(image: seq<Byte>, g: Geo, first: U32, at: int, off: nat)
    requires OnDisk(image, g)
  {
    off < g.clusBytes && exists k: nat :: AllValid(image, g, first, k) && |ChainBytes(image, g, first, k)| + off == at
  }

  /** How the cursor lies for a read of `len` bytes at byte `at` of the chain. */
  ghost predicate LiesAt(image: seq<Byte>, g: Geo, first: U32, size: nat, at: int, len: nat, c: Reach)
    requires OnDisk(image, g)
  {
    exists off: nat :: OffsetAt(image, g, first, at, off) && at <= size
                       && c == Reach(PassTake(g, off, Min(len, size - at)), g.clusBytes - off, size)
  }

  class FileSource {
    const st: Stream
    const first: U32
    const size: Size
    const stride: nat
    const reliable: bool
    /** How long the chain is, and what the file holds. */
    ghost const n: nat
    ghost const file: seq<Byte>
    var phys: nat
    var pos: nat
    var err: bool
    var snaps: seq<Snap>
    var next: nat
    ghost var marks: seq<Mark>
    ghost var steps: seq<Step>
    /** No read has yet failed after one of its passes had moved the cursor. */
    ghost var straight: bool

    ghost function State(): Head
      reads this, st
    {
      Head(pos, phys, st.Behind(), st.Lost(), err, marks, next)
    }

    ghost function ReachOf(len: nat): Reach
      reads st
    {
      Reach(st.FirstPass(len), st.Room(), size)
    }

    ghost predicate OnFile()
      reads `snaps, `marks, `steps, st, st.fs, st.fs.dev
    {
      && st.fs.Valid() && (st.Ready() || (st.Lost() && st.Crossed())) && Avoids(st.fs.dev.image, st.fs.g, first, st.fs.dirty)
      && first == st.first && size == st.size && reliable == st.fs.dev.reliable
      && ChainOf(st.fs.dev.image, st.fs.g, first, n) && file == Content(st.fs.dev.image, st.fs.g, first, n, size)
      && Kept(st.fs.dev.image, st.fs.g, first, size, snaps, marks, steps)
    }

    ghost predicate Valid()
      reads this, st, st.fs, st.fs.dev
    {
      OnFile() && Well(State(), size, |file|, straight, reliable) && |file| <= size
    }

    constructor Open(fs: FatVolume, firstClus: U32, fileSize: Size, ghost clusters: nat)
      requires fs.Valid() && Avoids(fs.dev.image, fs.g, firstClus, fs.dirty)
      requires ChainOf(fs.dev.image, fs.g, firstClus, clusters)
      ensures Valid() && fresh(st) && st.fs == fs && file == Content(fs.dev.image, fs.g, firstClus, clusters, fileSize)
      ensures size == fileSize && State() == Opened(stride) && straight
    {
      st := new Stream.Open(fs, firstClus, fileSize);
      first, size, reliable := firstClus, fileSize, fs.dev.reliable;
      stride := if fileSize / MARKS < STRIDE then STRIDE else fileSize / MARKS;
      n, file := clusters, Content(fs.dev.image, fs.g, firstClus, clusters, fileSize);
      phys, pos, err, snaps := 0, 0, false, [];
      next := if fileSize / MARKS < STRIDE then STRIDE else fileSize / MARKS;
      marks, steps, straight := [], [], true;
    }

    /** How many snapshots there are up to the latest one at or before the position. */
    method FindSnap() returns (i: nat)
      requires |snaps| == |marks| && forall k :: 0 <= k < |snaps| ==> marks[k].place == snaps[k].place
      ensures i <= |snaps| && Latest(marks, pos) == if i > 0 then marks[i - 1] else Mark(0, 0)
    {
      i := |snaps|;
      assert marks[..i] == marks;
      while i > 0 && snaps[i - 1].place > pos
        invariant i <= |snaps| && Latest(marks, pos) == Latest(marks[..i], pos)
      {
        assert marks[..i][..i - 1] == marks[..i - 1];
        i := i - 1;
      }
    }

    /** Moving back: resume from the latest snapshot at or before the position, or from the start. */
    method MoveBack()
      requires Valid()
      modifies `phys, st
      ensures Valid() && State() == Resumed(old(State()))
    {
      hide Well;
      ghost var h := State();
      ResumedWell(h, size, |file|, straight, reliable);
      if pos < phys {
        var i := FindSnap();
        if i > 0 {
          assert Taken(st.fs.dev.image, st.fs.g, first, size, snaps[i - 1], marks[i - 1], steps[i - 1]);
          Resume(snaps[i - 1], marks[i - 1], steps[i - 1]);
        } else {
          Restart();
        }
        assert State() == Resumed(h);
      }
    }

    method Restart()
      requires OnFile()
      modifies `phys, st
      ensures OnFile() && phys == 0 == st.Behind() && !st.Lost()
    {
      st.Reopen(first, size);
      phys := 0;
    }

    method Resume(c: Snap, ghost m: Mark, ghost k: Step)
      requires OnFile() && Taken(st.fs.dev.image, st.fs.g, first, size, c, m, k)
      modifies `phys, st
      ensures OnFile() && phys == m.place && st.Behind() == m.at && !st.Lost()
    {
      st.Restore(c.clus, c.off, c.remaining, k.index, k.base);
      phys := c.place;
    }

    lemma Fits()
      requires OnFile()
      ensures |file| <= size
    {
    }

    /** A cursor with a cluster and bytes to go is before the end of the content; one without is at it. */
    lemma AheadOf()
      requires OnFile() && !st.Lost()
      ensures st.Behind() <= |file|
      ensures st.Behind() < |file| <==> st.remaining > 0 && ClusterValid(st.fs.g, st.clus)
    {
      StuckAtEnd(st.fs.dev.image, st.fs.g, first, n, size, st.index, st.base, st.clus, st.clusOff, st.remaining);
      if st.remaining > 0 && ClusterValid(st.fs.g, st.clus) {
        RoomAhead(st.fs.dev.image, st.fs.g, first, n, size, st.index, st.base, st.clus, st.clusOff, st.remaining);
      }
    }

    /** A lost cursor has left bytes of the file behind it, and no more. */
    lemma LostWithin()
      requires OnFile() && st.Lost()
      ensures st.Behind() <= |file|
    {
      LengthWithin(st.fs.dev.image, st.fs.g, first, n, st.index + 1);
    }

    /** The cursor's own skip. */
    method SkipCursor(len: U32) returns (done: nat, ghost fault: Fault)
      requires OnFile() && (reliable ==> !st.Lost())
      modifies st, st.fs
      ensures OnFile() && done <= len && st.Behind() == old(st.Behind()) + done
      ensures done > 0 ==> !old(st.Lost()) && old(st.Behind()) < |file|
      ensures done == 0 ==> (st.Lost() <==> old(st.Lost()))
      ensures st.Lost() || done == len || st.Behind() == |file|
      ensures !st.Lost() ==> st.Behind() <= |file|
      ensures fault == if st.Lost() && done > 0 then OnTheWay(done) else NoFault
      ensures reliable ==> fault.NoFault? && !st.Lost()
    {
      GuardNeverFires(st.fs.dev.image, st.fs.g, first, n);
      if !st.Lost() {
        AheadOf();
      }
      ghost var ok;
      done, ok := st.Skip(len);
      fault := if st.Lost() && done > 0 then OnTheWay(done) else NoFault;
      if ok {
        AheadOf();
      }
    }

    /** One skip towards the position. */
    method Hop() returns (got: nat, ghost fault: Fault)
      requires Valid() && phys < pos
      modifies `phys, st, st.fs
      ensures Valid() && got <= pos - old(phys)
      ensures State() == Brought(old(State()), |file|, fault)
      ensures phys == old(phys) + got && (phys == pos || st.Lost() || st.Behind() == |file|)
      ensures got == 0 ==> State() == old(State())
      ensures got > 0 ==> !old(st.Lost()) && old(st.Behind()) < |file|
      ensures fault.NoFault? || (fault.OnTheWay? && !old(st.Lost()) && 0 < fault.gone == got && !reliable)
    {
      hide OnFile;
      ghost var h := State();
      got, fault := SkipCursor(pos - phys);
      phys := phys + got;
      BroughtWell(h, size, |file|, fault, straight, reliable);
      assert State() == Brought(h, |file|, fault);
    }

    /** Moving on: skip along the chain. */
    method MoveUp() returns (ghost fault: Fault)
      requires Valid()
      modifies `phys, st, st.fs
      ensures Valid() && State() == Brought(old(State()), |file|, fault)
      ensures fault.NoFault? || (fault.OnTheWay? && !old(st.Lost()) && 0 < fault.gone <= pos - old(phys) && !reliable)
    {
      hide Valid;
      fault := NoFault;
      ghost var h0, moved := State(), false;
      while phys < pos
        invariant Valid() && (!moved ==> State() == h0 && fault.NoFault?)
        invariant moved ==> State() == Brought(h0, |file|, fault) && (phys >= pos || st.Lost() || st.Behind() == |file|)
        invariant fault.NoFault? || (fault.OnTheWay? && !h0.lost && 0 < fault.gone <= pos - h0.phys && !reliable)
      {
        var got;
        ghost var f;
        got, f := Hop();
        if got == 0 {
          break;
        }
        fault, moved := f, true;
      }
    }

    lemma StandsAt(len: nat)
      requires OnFile() && !st.Lost() && st.remaining > 0
      ensures LiesAt(st.fs.dev.image, st.fs.g, first, size, st.Behind(), len, ReachOf(len))
    {
      assert AllValid(st.fs.dev.image, st.fs.g, first, st.index);
      assert OffsetAt(st.fs.dev.image, st.fs.g, first, st.Behind(), st.clusOff);
    }

    /** What a successful read of the cursor delivered are the next bytes of the file. */
    lemma Served(got: seq<Byte>, m: nat, from: nat, len: nat)
      requires OnFile() && !st.Lost() && |got| <= len && from + |got| == st.Behind()
      requires Delivered(got, st.fs.dev.image, st.fs.g, first, m, from)
      requires |got| == len || st.remaining == 0 || !ClusterValid(st.fs.g, st.clus)
      ensures |got| == Min(len, |file| - from) && got == Cut(file, from, st.Behind())
    {
      ReadIsNextBytes(st.fs.dev.image, st.fs.g, first, n, size, got, m, from, len,
                      st.index, st.base, st.clus, st.clusOff, st.remaining);
    }

    /** The cursor's own read. */
    method ReadCursor(buf: array<Byte>, len: U32) returns (rc: int, ghost fault: Fault)
      requires OnFile() && len <= buf.Length && (reliable ==> !st.Lost())
      modifies st, st.fs, buf
      ensures OnFile() && (reliable ==> fault.NoFault? && !st.Lost())
      ensures if rc >= 0 then fault.NoFault? else fault.AtData? || fault.AtLink?
      ensures st.Behind() == old(st.Behind()) + if rc >= 0 then rc else fault.gone
      ensures st.Lost() <==> if rc >= 0 then old(st.Lost()) else fault.AtLink?
      ensures !st.Lost() ==> st.Behind() <= |file|
      ensures rc >= 0 && old(st.Lost()) ==> rc == 0
      ensures rc >= 0 && !old(st.Lost()) ==> rc == Min(len, |file| - old(st.Behind())) && buf[..rc] == Cut(file, old(st.Behind()), st.Behind())
      ensures rc < 0 ==> !old(st.Lost()) && old(st.remaining) > 0 && Stops(old(State()), |file|, len, fault, old(ReachOf(len)))
    {
      hide Stream.FirstPass, Stream.Room, Delivered, Stream.Crossed, Content, Kept, OnChain, AllValid, ChainOf, Avoids;
      ghost var from, lost := st.Behind(), st.Lost();
      GuardNeverFires(st.fs.dev.image, st.fs.g, first, n);
      ghost var m;
      rc, m := st.Read(buf, len);
      fault := if rc >= 0 then NoFault else if st.Lost() then AtLink(st.Behind() - from) else AtData(st.Behind() - from);
      if !st.Lost() {
        AheadOf();
      } else {
        LostWithin();
      }
      if rc >= 0 && !lost {
        Served(buf[..rc], m, from, len);
      }
    }

    /** A snapshot, when one is due. */
    method Note()
      requires OnFile() && !st.Lost()
      modifies `snaps, `next, `marks, `steps
      ensures OnFile() && State() == Noted(old(State()), stride)
    {
      if |snaps| >= MARKS || phys < next {
        return;
      }
      ghost var c, m, k := Snap(phys, st.clus, st.clusOff, st.remaining), Mark(phys, st.Behind()), Step(st.index, st.base);
      KeptOneMore(st.fs.dev.image, st.fs.g, first, size, snaps, marks, steps, c, m, k);
      snaps, marks, steps := snaps + [Snap(phys, st.clus, st.clusOff, st.remaining)], marks + [m], steps + [k];
      next := phys + stride;
    }

    /** What the source makes of its cursor's answer. */
    method Settle(rc: int, len: nat, ghost fault: Fault, ghost h: Head) returns (k: nat)
      requires if rc >= 0 then fault.NoFault? else fault.AtData? || fault.AtLink?
      requires rc >= 0 ==> State() == h.(at := h.at + rc) && rc == if h.lost then 0 else Min(len, |file| - h.at)
      requires rc < 0 ==> !h.lost && State() == h.(at := h.at + fault.gone, lost := fault.AtLink?)
      modifies `err, `phys, `pos, `straight
      ensures (if k > 0 then Noted(State(), stride) else State()) == Done(h, |file|, len, fault, stride)
      ensures k == Got(h, |file|, len, fault) == if rc > 0 then rc else 0
      ensures straight <==> old(straight) && !(fault.AtData? && fault.gone > 0)
    {
      k := 0;
      straight := straight && !(fault.AtData? && fault.gone > 0);
      if rc < 0 {
        err := true;
      } else if rc > 0 {
        k := rc;
        err := false;
        phys, pos := phys + k, pos + k;
      }
    }

    /** The read proper, but for the snapshot, once the cursor has been brought up. */
    method Pull(len: U32) returns (k: nat, data: seq<Byte>, ghost fault: Fault)
      requires OnFile() && (reliable ==> !st.Lost())
      modifies `err, `phys, `pos, `straight, st, st.fs
      ensures OnFile() && (k > 0 ==> !st.Lost())
      ensures (if k > 0 then Noted(State(), stride) else State()) == Done(old(State()), |file|, len, fault, stride)
      ensures k == Got(old(State()), |file|, len, fault) <= len == |data|
      ensures k > 0 ==> data[..k] == Cut(file, old(st.Behind()), old(st.Behind()) + k)
      ensures OnSpot(old(State()), |file|, len, fault, old(ReachOf(len)), reliable)
      ensures !fault.NoFault? ==> !old(st.Lost()) && old(st.remaining) > 0
      ensures straight <==> old(straight) && !(fault.AtData? && fault.gone > 0)
    {
      hide OnFile, Done, Noted;
      ghost var h := State();
      var part := new Byte[len];
      var rc;
      rc, fault := ReadCursor(part, len);
      data := part[..];
      k := Settle(rc, len, fault, h);
    }

    method ReadHere(len: U32) returns (k: nat, data: seq<Byte>, ghost fault: Fault)
      requires OnFile() && (reliable ==> !st.Lost())
      modifies this, st, st.fs
      ensures OnFile() && State() == Done(old(State()), |file|, len, fault, stride)
      ensures k == Got(old(State()), |file|, len, fault) <= len == |data|
      ensures k > 0 ==> data[..k] == Cut(file, old(st.Behind()), old(st.Behind()) + k)
      ensures OnSpot(old(State()), |file|, len, fault, old(ReachOf(len)), reliable)
      ensures !fault.NoFault? ==> !old(st.Lost()) && old(st.remaining) > 0
      ensures straight <==> old(straight) && !(fault.AtData? && fault.gone > 0)
    {
      hide Done, Got, OnSpot;
      k, data, fault := Pull(len);
      if k > 0 {
        Note();
      }
    }

    /** Bring the cursor to the position. */
    method Bring() returns (ghost way: Fault)
      requires Valid()
      modifies `phys, st, st.fs
      ensures OnFile() && State() == Synced(old(State()), |file|, way) && OnWay(old(State()), way, reliable)
      ensures reliable ==> !st.Lost()
    {
      MoveBack();
      way := MoveUp();
    }

    /** Bring the cursor up, to where `s` says, and read there. */
    method Perform(len: U32) returns (k: nat, data: seq<Byte>, ghost way: Fault, ghost here: Fault, ghost s: Head, ghost c: Reach)
      requires Valid()
      modifies this, st, st.fs
      ensures OnFile() && OnWay(old(State()), way, reliable) && s == Synced(old(State()), |file|, way)
      ensures OnSpot(s, |file|, len, here, c, reliable)
      ensures !here.NoFault? ==> LiesAt(st.fs.dev.image, st.fs.g, first, size, s.at, len, c)
      ensures State() == Done(s, |file|, len, here, stride) && k == Got(s, |file|, len, here) <= len == |data|
      ensures k > 0 ==> data[..k] == Cut(file, s.at, s.at + k)
      ensures straight <==> old(straight) && !(here.AtData? && here.gone > 0)
    {
      hide OnFile, OnWay, OnSpot, Synced, Done, Got, LiesAt;
      way := Bring();
      s := State();
      c := ReachOf(len);
      if !st.Lost() && st.remaining > 0 {
        StandsAt(len);
      }
      k, data, here := ReadHere(len);
    }

    /** The read, but for storing what it got. */
    method Take(len: U32) returns (k: nat, data: seq<Byte>, ghost fault: Fault, ghost c: Reach)
      requires Valid()
      modifies this, st, st.fs
      ensures Valid() && k <= len == |data| && (reliable ==> fault.NoFault?)
      ensures Possible(old(State()), |file|, len, fault, c)
      ensures State() == AfterRead(old(State()), |file|, len, fault, stride)
      ensures fault.AtData? || fault.AtLink? ==>
        LiesAt(st.fs.dev.image, st.fs.g, first, size, Synced(old(State()), |file|, fault).at, len, c)
      ensures k == Got(Synced(old(State()), |file|, fault), |file|, len, fault)
      ensures k > 0 ==> var from := Synced(old(State()), |file|, fault).at; data[..k] == Cut(file, from, from + k)
      ensures straight <==> old(straight) && !(fault.AtData? && fault.gone > 0)
      ensures pos == old(pos) + k && (k > 0 ==> !err && pos <= |file|)
      ensures k > 0 && straight ==> data[..k] == Cut(file, old(pos), pos)
      ensures reliable && old(pos) <= |file| ==> !err && k == Min(len, |file| - old(pos))
    {
      hide OnFile, Well, Possible, AfterRead, Synced, Done, Got, OnWay, OnSpot, LiesAt;
      ghost var h, good := State(), straight;
      ghost var way, here, s;
      Fits();
      k, data, way, here, s, c := Perform(len);
      fault := Composed(h, s, State(), k, size, |file|, len, way, here, c, stride, good, reliable);
    }

    /**
     * Read up to `len` bytes, with what went wrong, and how the cursor lay for the read.
     */
    method Read(dst: array<Byte>, at: nat, len: U32) returns (k: nat, ghost fault: Fault, ghost c: Reach)
      requires Valid() && at + len <= dst.Length
      modifies this, st, st.fs, dst
      ensures Valid() && k <= len && (reliable ==> fault.NoFault?)
      ensures Possible(old(State()), |file|, len, fault, c)
      ensures State() == AfterRead(old(State()), |file|, len, fault, stride)
      ensures fault.AtData? || fault.AtLink? ==>
        LiesAt(st.fs.dev.image, st.fs.g, first, size, Synced(old(State()), |file|, fault).at, len, c)
      ensures k == Got(Synced(old(State()), |file|, fault), |file|, len, fault)
      ensures k > 0 ==> var from := Synced(old(State()), |file|, fault).at; dst[at..at + k] == Cut(file, from, from + k)
      ensures dst[..at] == old(dst[..at]) && dst[at + len..] == old(dst[at + len..])
      ensures straight <==> old(straight) && !(fault.AtData? && fault.gone > 0)
      ensures pos == old(pos) + k && (k > 0 ==> !err && pos <= |file|)
      ensures k > 0 && straight ==> dst[at..at + k] == Cut(file, old(pos), pos)
      ensures reliable && old(pos) <= |file| ==> !err && k == Min(len, |file| - old(pos))
    {
      hide Valid, Possible, AfterRead, Synced, Got, LiesAt;
      var data;
      k, data, fault, c := Take(len);
      Copy(dst, at, data);
      assert dst[at..at + k] == dst[at..at + len][..k] == data[..k];
    }

    /**
     * Of the reads of a source in place, those that can be repeated whatever stops them
     * are exactly those that one pass satisfies short of a cluster's end with bytes left.
     */
    lemma RepeatableExactly(len: U32, again: nat)
      requires Valid() && straight && !st.Lost() && phys == pos < |file| && len > 0 && again > 0
      ensures Repeatable(State(), |file|, len, ReachOf(len), stride, again) <==> OnePass(State(), |file|, len, ReachOf(len))
    {
      AheadOf();
      PassFits(st.fs.g, st.clusOff, Min(len, st.remaining));
      ClusterAhead(st.fs.dev.image, st.fs.g, first, n, size, st.index, st.base, st.clus, st.clusOff, st.remaining);
      OnePassExactly(State(), |file|, len, ReachOf(len), stride, again);
    }

    /** A move within the declared size; nothing is read for it. */
    method Seek(offset: int, origin: Origin) returns (ok: bool)
      requires Valid() && Aim(offset, origin, pos, size) < 0x8000_0000
      modifies `pos
      ensures Valid() && ok == (0 <= Aim(offset, origin, old(pos), size) <= size)
      ensures pos == if ok then Aim(offset, origin, old(pos), size) else old(pos)
    {
      var target := Aim(offset, origin, pos, size);
      ok := 0 <= target <= size;
      if ok {
        pos := target;
      }
    }

    method Tell() returns (at: int)
      ensures at == pos
    {
      at := pos;
    }

    /** On a reliable disk a read is what a decoder expects of its source. */
    method ReadWell(dst: array<Byte>, at: nat, len: U32) returns (k: nat)
      requires Valid() && reliable && at + len <= dst.Length
      modifies this, st, st.fs, dst
      ensures Valid() && k <= len && Owes(file, old(pos), len, dst[at..at + k], pos, err, true)
      ensures dst[..at] == old(dst[..at]) && dst[at + len..] == old(dst[at + len..])
    {
      ghost var fault, c;
      k, fault, c := Read(dst, at, len);
    }
  }

  /** Where the declared size and the chain differ, some seek tells; where they agree, none does. */
  lemma SeeksAgreeExactly(size: nat, held: nat)
    requires held <= size
    ensures (forall offset, origin, pos :: 0 <= pos <= held ==>
              ((0 <= Aim(offset, origin, pos, size) <= size) <==> (0 <= Aim(offset, origin, pos, held) <= held)))
            <==> size == held
  {
    if size != held {
      assert 0 <= Aim(size, FromStart, 0, size) <= size && !(0 <= Aim(size, FromStart, 0, held) <= held);
    }
  }

  // ---- whole runs ---------------------------------------------------------------------------

  /** Every seek aims below 2 GiB. */
  predicate AllAskable(file: seq<Byte>, end: nat, pos: nat, ops: seq<Op>)
    requires pos <= end && |file| <= end
    decreases |ops|
  {
    ops != [] ==> Askable(end, pos, ops[0]) && AllAskable(file, end, Answer(file, end, pos, ops[0]).1, ops[1..])
  }

  method Apply(src: FileSource, op: Op) returns (reply: Reply)
    requires src.Valid() && src.reliable && Askable(src.size, src.pos, op)
    modifies src, src.st, src.st.fs
    ensures src.Valid() && (reply, src.pos) == Answer(src.file, src.size, old(src.pos), op)
  {
    hide FileSource.OnFile, Possible, AfterRead, Synced, Got;
    match op
    case Read(n) =>
      var dst := new Byte[n];
      ghost var fault, c;
      var k;
      k, fault, c := src.Read(dst, 0, n);
      assert src.straight && k == Upto(src.file, old(src.pos), n) - old(src.pos);
      assert dst[0..k] == Cut(src.file, old(src.pos), src.pos);
      reply := Bytes(dst[0..k]);
    case Seek(offset, origin) =>
      var ok := src.Seek(offset, origin);
      reply := Sought(ok);
    case Tell =>
      var at := src.Tell();
      reply := At(at);
    case Pump(_) =>
      reply := Quiet;
  }

  /** Every mix of reads, moves and tells, on a reliable disk, is answered from the file's content. */
  method Drive(src: FileSource, ops: seq<Op>) returns (replies: seq<Reply>)
    requires src.Valid() && src.reliable && AllAskable(src.file, src.size, src.pos, ops)
    modifies src, src.st, src.st.fs
    ensures src.Valid() && replies == Answers(src.file, src.size, old(src.pos), ops)
    ensures src.pos == Stands(src.file, src.size, old(src.pos), ops)
    decreases |ops|
  {
    if ops == [] {
      return [];
    }
    var reply := Apply(src, ops[0]);
    var rest := Drive(src, ops[1..]);
    replies := [reply] + rest;
  }
}
