/** The watermarked anti-skip buffer: a sliding window of the file kept in a ring. */
module DiskBuf {
  import opened Words
  import opened Memory
  import opened Arith
  import opened ByteSource
  import opened Backing

  const SYNC_CHUNK: nat := 32 * 1024
  const ERR_RETRIES: nat := 8

  /** The ring holds the file's bytes from `lo` to `hi`, each at its offset modulo the capacity. */
  ghost predicate Window(ring: seq<Byte>, file: seq<Byte>, lo: int, hi: int)
    requires |ring| > 0
  {
    forall o :: 0 <= o && lo <= o < hi && o < |file| ==> ring[Residue(o, |ring|)] == file[o]
  }

  lemma ResidueOf(x: nat, m: nat)
    requires m > 0
    ensures x % m == Residue(x, m)
  {
    ResidueIsModulo(x, m);
  }

  /** Positions of the window and of the room behind it are different places in the ring. */
  lemma RoomIsElsewhere(o: nat, lo: nat, hi: nat, i: nat, want: nat, cap: nat)
    requires cap > 0 && lo <= o < hi && i < want && hi + want <= lo + cap && Residue(hi, cap) + want <= cap
    ensures Residue(o, cap) != Residue(hi, cap) + i
  {
    ResidueRun(hi, i, cap);
    ResiduesDistinct(o, hi + i, cap);
  }

  /** A backing read into the room behind the window extends it and harms none of it. */
  lemma WindowGrows(ring: seq<Byte>, ring': seq<Byte>, file: seq<Byte>, lo: nat, hi: nat, n: nat, want: nat)
    requires |ring| == |ring'| > 0 && Window(ring, file, lo, hi) && n <= want && (n > 0 ==> hi + n <= |file|)
    requires lo <= hi && hi + want <= lo + |ring| && Residue(hi, |ring|) + want <= |ring|
    requires var w := Residue(hi, |ring|);
      ring'[w..w + n] == Cut(file, hi, hi + n) && ring'[..w] == ring[..w] && ring'[w + want..] == ring[w + want..]
    ensures Window(ring', file, lo, hi + n)
  {
    var cap, w := |ring|, Residue(hi, |ring|);
    forall o | lo <= o < hi + n && o < |file|
      ensures ring'[Residue(o, cap)] == file[o]
    {
      if o < hi {
        var r := Residue(o, cap);
        if r < w {
          assert ring'[..w][r] == ring[..w][r];
        } else if r < w + want {
          RoomIsElsewhere(o, lo, hi, r - w, want, cap);
        } else {
          assert ring'[w + want..][r - w - want] == ring[w + want..][r - w - want];
        }
      } else {
        ResidueRun(hi, o - hi, cap);
        assert ring'[w..w + n][o - hi] == Cut(file, hi, hi + n)[o - hi];
      }
    }
  }

  /** A stretch of the window that does not cross the ring's end is contiguous in the ring. */
  lemma WindowRun(ring: seq<Byte>, file: seq<Byte>, lo: nat, hi: nat, at: nat, take: nat)
    requires |ring| > 0 && Window(ring, file, lo, hi) && lo <= at && at + take <= hi <= |file|
    requires Residue(at, |ring|) + take <= |ring|
    ensures ring[Residue(at, |ring|)..Residue(at, |ring|) + take] == file[at..at + take]
  {
    var r := Residue(at, |ring|);
    var a, b := ring[r..r + take], file[at..at + take];
    forall i | 0 <= i < take
      ensures a[i] == b[i]
    {
      ResidueRun(at, i, |ring|);
      assert ring[Residue(at + i, |ring|)] == file[at + i];
    }
  }

  /** What the fill machinery shows: cursor, fill head, and the two flags that steer it. */
  datatype Meter = Meter(rd: int, wr: int, filling: bool, eos: bool)

  /** A fetch that made progress, or found the end of the file. */
  predicate Fetched(a: Meter, b: Meter, got: nat, size: nat)
  {
    if got > 0 then b.eos == a.eos else b.eos && b.wr == size
  }

  /** One pump pass over a source that does not fail. */
  predicate PumpStep(a: Meter, b: Meter, got: nat, low: nat, high: nat, size: nat)
  {
    && b.rd == a.rd && b.wr == a.wr + got
    && if a.filling && (a.eos || a.wr - a.rd >= high) then got == 0 && !b.filling && b.eos == a.eos
       else if a.filling || (!a.eos && a.wr - a.rd < low) then b.filling && Fetched(a, b, got, size)
       else got == 0 && b == a
  }

  /** One read: it consumes, and may have had to fetch for itself. */
  predicate ReadStep(a: Meter, b: Meter, size: nat)
  {
    && a.rd <= b.rd <= b.wr && a.wr <= b.wr && b.filling == a.filling
    && (a.eos ==> b.eos) && (b.eos && !a.eos ==> b.wr == size)
  }

  /** The flags that decide when a source is given up. */
  datatype Vitals = Vitals(filling: bool, eos: bool, err: bool, streak: nat)

  /**
   * A pump whose backing read fails. In a burst it may be the one too many; the pump that
   * wakes an idle buffer only starts the burst.
   */
  predicate FailedPump(a: Vitals, b: Vitals)
  {
    && !a.eos && !a.err && !b.eos && b.streak == a.streak + 1
    && b.err == (a.filling && b.streak >= ERR_RETRIES) && b.filling == !b.err
  }

  /** How many failed pumps in a row it takes to give the source up. */
  function Patience(v: Vitals): int
  {
    var least := if v.filling then 1 else 2;
    if ERR_RETRIES - v.streak > least then ERR_RETRIES - v.streak else least
  }

  /** A dead source is given up with the last pump there is patience for, and not before: the eighth of a fresh streak. */
  lemma {:induction false} EighthFailure(v: seq<Vitals>)
    requires v != [] && !v[0].err && forall i :: 0 <= i < |v| - 1 ==> FailedPump(v[i], v[i + 1])
    ensures |v| - 1 <= Patience(v[0]) && v[|v| - 1].streak == v[0].streak + |v| - 1
    ensures v[|v| - 1].err <==> |v| - 1 == Patience(v[0])
    ensures !v[|v| - 1].err && |v| > 1 ==> v[|v| - 1].filling
    decreases |v|
  {
    if |v| > 1 {
      var init := v[..|v| - 1];
      forall i | 0 <= i < |init| - 1
        ensures FailedPump(init[i], init[i + 1])
      {
        assert FailedPump(v[i], v[i + 1]);
      }
      EighthFailure(init);
      assert FailedPump(v[|v| - 2], v[|v| - 1]);
    }
  }

  class DiskBuf {
    const inner: Backing
    const buf: array<Byte>
    const cap: nat
    const low: nat
    const high: nat
    /** Whether the error probe has been registered. */
    const hook: bool
    var winLo: int
    var wr: int
    var rd: int
    var innerPos: int
    var filling: bool
    var eos: bool
    var err: bool
    var errStreak: nat

    ghost predicate Valid()
      reads this, inner.Repr(), buf
    {
      && inner.Valid() && this !in inner.Repr() && |inner.File()| <= inner.End() < 0x8000_0000
      && buf.Length == cap < TWO32 && 0 < low < high <= cap
      && 0 <= winLo <= rd <= wr < 0x8000_0000 && wr - winLo <= cap
      && (wr <= |inner.File()| || winLo == wr)
      && (innerPos == -1 || innerPos == inner.Pos())
      && (inner.Straight() ==> Window(buf[..], inner.File(), winLo, wr))
      && (inner.Reliable() ==> inner.Straight() && !inner.Err() && errStreak == 0)
    }

    constructor (source: Backing, ring: array<Byte>, lowMark: nat, highMark: nat, probe: bool)
      requires source.Valid() && 0 < lowMark < highMark <= ring.Length < TWO32
      ensures Valid() && inner == source && buf == ring && rd == 0 && wr == 0
      ensures low == lowMark && high == highMark && hook == probe && filling && !eos && !err
    {
      inner, buf, cap, low, high, hook := source, ring, ring.Length, lowMark, highMark, probe;
      winLo, wr, rd, innerPos := 0, 0, 0, -1;
      filling, eos, err, errStreak := true, false, false, 0;
    }

    method InnerSeekTo(at: int) returns (ok: bool)
      requires Valid() && 0 <= at < 0x8000_0000
      modifies inner.Parts(), `innerPos
      ensures Valid() && ok == (at <= inner.End()) && (ok ==> innerPos == at == inner.Pos())
      ensures inner.Err() == old(inner.Err()) && inner.Straight() == old(inner.Straight())
    {
      hide Backing.Valid, Window;
      inner.Within();
      if innerPos == at {
        return true;
      }
      ok := inner.Seek(at, FromStart);
      if ok {
        innerPos := at;
      }
    }

    /** Drop consumed history if a fetch of `want` needs its room; never past the read cursor. */
    method MakeRoom(want: nat) returns (n: nat)
      requires Valid()
      modifies `winLo
      ensures Valid() && old(winLo) <= winLo
      ensures n <= want && wr + n <= winLo + cap && Residue(wr, cap) + n <= cap
      ensures n == 0 <==> want == 0 || wr - rd == cap
    {
      hide Backing.Valid;
      var space := cap - (wr - winLo);
      if space < want {
        var ev := Min(want - space, rd - winLo);
        winLo := winLo + ev;
        space := space + ev;
      }
      ResidueOf(wr, cap);
      n := Min(Min(want, space), cap - wr % cap);
    }

    /** One backing read of `room` bytes at the fill head, where the source already stands. */
    method Pull(room: nat) returns (n: nat)
      requires Valid() && inner.Pos() == wr == innerPos
      requires wr + room <= winLo + cap && Residue(wr, cap) + room <= cap
      modifies `wr, `innerPos, inner.Parts(), buf
      ensures Valid() && wr == old(wr) + n && n <= room && (inner.Straight() ==> old(inner.Straight()))
      ensures (n > 0 ==> wr <= |inner.File()|) && (n == 0 ==> room == 0 || wr >= |inner.File()| || !inner.Reliable())
    {
      hide Backing.Valid, Backing.File, Backing.End, Backing.Straight, Backing.Pos, Window, Cut;
      ghost var ring := buf[..];
      ResidueOf(wr, cap);
      var woff := wr % cap;
      n := inner.Read(buf, woff, room);
      if inner.Straight() {
        assert buf[..][woff..woff + n] == buf[woff..woff + n];
        assert buf[..][..woff] == buf[..woff] && buf[..][woff + room..] == buf[woff + room..];
        WindowGrows(ring, buf[..], inner.File(), winLo, wr, n, room);
      }
      innerPos := innerPos + n;
      wr := wr + n;
    }

    /** Read up to `want` bytes from the source into the ring behind the window. */
    method Fetch(want: nat) returns (n: nat)
      requires Valid()
      modifies `winLo, `wr, `innerPos, `eos, `errStreak, inner.Parts(), buf
      ensures Valid() && wr == old(wr) + n && n <= want && (inner.Straight() ==> old(inner.Straight()))
      ensures n > 0 ==> wr <= |inner.File()| && eos == old(eos) && errStreak == 0
      ensures n == 0 ==> errStreak >= old(errStreak) && (old(eos) ==> eos)
      ensures n == 0 && !eos ==> want == 0 || wr - rd == cap || wr > inner.End() || !inner.Reliable()
      ensures eos && !old(eos) ==> want == 0 || wr >= |inner.File()| || !inner.Reliable()
      ensures n == 0 && hook && inner.Err() ==> eos == old(eos)
      ensures n == 0 && want > 0 && wr - rd < cap && wr <= inner.End() ==>
        if hook && inner.Err() then errStreak == old(errStreak) + 1 else eos
      ensures inner.Reliable() && want > 0 && wr - rd < cap && old(wr) <= inner.End() ==> n > 0 || (wr >= |inner.File()| && eos)
    {
      hide Backing.Valid;
      var room := MakeRoom(want);
      n := 0;
      if room > 0 || wr - winLo < cap {
        var there := InnerSeekTo(wr);
        if there {
          n := Pull(room);
          if n > 0 {
            errStreak := 0;
          } else if hook && inner.Err() {
            errStreak := errStreak + 1;
          } else {
            eos := true;
          }
        }
      }
    }

    /**
     * What a read that may have come to nothing (`short`) leaves of the flags: no error
     * is forgotten; a short read found the end of the file or latches an error; and it
     * takes a failed read for no end of file when the probe tells them apart.
     */
    ghost predicate Latches(err0: bool, eos0: bool, short: bool)
      reads this, inner.Repr()
    {
      && (err0 ==> err) && (eos0 ==> eos)
      && (short ==> eos || err) && (!short ==> err == err0 && eos == eos0)
      && (short && hook && inner.Err() && !eos0 ==> err && !eos)
    }

    ghost function Health(): Vitals
      reads this
    {
      Vitals(filling, eos, err, errStreak)
    }

    ghost function Gauge(): Meter
      reads this
    {
      Meter(rd, wr, filling, eos)
    }

    /** The contiguous run the ring has at the cursor, up to `want` bytes of it. */
    method Run(want: nat) returns (part: seq<Byte>)
      requires Valid() && rd < wr <= |inner.File()| && 0 < want
      ensures 0 < |part| <= want && rd + |part| <= wr
      ensures inner.Straight() ==> part == Cut(inner.File(), rd, rd + |part|)
    {
      hide Backing.Valid, Backing.File, Backing.Straight;
      ResidueOf(rd, cap);
      var roff := rd % cap;
      var take := Min(Min(want, wr - rd), cap - roff);
      if inner.Straight() {
        WindowRun(buf[..], inner.File(), winLo, wr, rd, take);
      }
      assert buf[..][roff..roff + take] == buf[roff..roff + take];
      part := buf[roff..roff + take];
    }

    /** Copy it out. */
    method Serve(dst: array<Byte>, at: nat, want: nat) returns (take: nat)
      requires Valid() && dst != buf && rd < wr <= |inner.File()| && 0 < want && at + want <= dst.Length
      modifies `rd, dst
      ensures Valid() && 0 < take <= want && rd == old(rd) + take
      ensures dst[..at] == old(dst[..at]) && dst[at + want..] == old(dst[at + want..])
      ensures inner.Straight() ==> dst[..at + take] == old(dst[..at]) + Cut(inner.File(), old(rd), rd)
    {
      hide Backing.Valid, Backing.File, Backing.End, Backing.Straight, Backing.Pos, Backing.Err, Backing.Reliable, Window, Cut;
      var part := Run(want);
      Put(dst, at, part, want);
      take := |part|;
      rd := rd + take;
    }

    /**
     * One pass of the read loop: serve from the ring, or fetch when it is drained; `more`
     * says to go on. The buffer holds `pre` and then the file from `r0` on.
     */
    method Turn(dst: array<Byte>, at: nat, want: nat, ghost pre: seq<Byte>, ghost r0: int) returns (take: nat, more: bool)
      requires Valid() && dst != buf && 0 < want && at + want <= dst.Length && (rd < wr ==> wr <= |inner.File()|)
      requires (inner.Straight() ==> dst[..at] == pre + Cut(inner.File(), r0, rd)) && (r0 == rd || 0 <= r0 <= rd <= |inner.File()|)
      modifies this, inner.Parts(), buf, dst
      ensures Valid() && (inner.Straight() ==> old(inner.Straight())) && take <= want && rd == old(rd) + take && (take > 0 ==> rd <= |inner.File()|)
      ensures more ==> take > 0 || (old(rd) == old(wr) && rd < wr)
      ensures dst[..at] == old(dst[..at]) && dst[at + want..] == old(dst[at + want..])
      ensures inner.Straight() ==> dst[..at + take] == pre + Cut(inner.File(), r0, rd)
      ensures (!more ==> take == 0) && (inner.Reliable() && !more ==> rd >= |inner.File()|)
      ensures (old(wr) <= |inner.File()| ==> wr <= |inner.File()|) && (old(wr) <= inner.End() ==> wr <= inner.End())
      ensures inner.Reliable() && old(wr) <= inner.End() ==> err == old(err)
      ensures inner.Reliable() && old(wr) <= |inner.File()| ==> ReadStep(old(Gauge()), Gauge(), |inner.File()|)
      ensures Latches(old(err), old(eos), !more)
    {
      hide Backing.Valid;
      take, more := 0, true;
      if rd < wr {
        take := Serve(dst, at, want);
        CutAppend(pre, inner.File(), r0, old(rd), rd);
      } else {
        var got := Fetch(SYNC_CHUNK);
        if got == 0 {
          more := false;
          if !eos {
            err := true;
          }
        }
      }
    }

    /** The read loop: from the ring while it lasts, then by bounded synchronous fetches. */
    method Read(dst: array<Byte>, at: nat, bytes: nat) returns (done: nat)
      requires Valid() && dst != buf && at + bytes <= dst.Length
      modifies this, inner.Parts(), buf, dst
      ensures Valid() && done <= bytes && rd == old(rd) + done && (inner.Straight() ==> old(inner.Straight()))
      ensures dst[..at] == old(dst[..at]) && dst[at + bytes..] == old(dst[at + bytes..])
      ensures inner.Straight() ==> dst[..at + done] == old(dst[..at]) + Cut(inner.File(), old(rd), rd)
      ensures inner.Reliable() && done < bytes ==> rd >= |inner.File()|
      ensures inner.Reliable() && old(wr) <= inner.End() ==> err == old(err)
      ensures inner.Reliable() && old(wr) <= |inner.File()| ==> ReadStep(old(Gauge()), Gauge(), |inner.File()|)
      ensures (old(wr) <= |inner.File()| ==> wr <= |inner.File()|) && (old(wr) <= inner.End() ==> wr <= inner.End()) && (done > 0 ==> rd <= |inner.File()|)
      ensures Latches(old(err), old(eos), done < bytes)
    {
      hide Backing.Valid;
      done := 0;
      var more := true;
      ghost var file, g0, pre := inner.File(), Gauge(), dst[..at];
      while done < bytes && more
        invariant Valid() && done <= bytes && rd == g0.rd + done && (inner.Straight() ==> old(inner.Straight()))
        invariant dst[..at] == pre && dst[at + bytes..] == old(dst[at + bytes..])
        invariant inner.Straight() ==> dst[..at + done] == pre + Cut(file, g0.rd, rd)
        invariant inner.Reliable() && g0.wr <= inner.End() ==> err == old(err)
        invariant inner.Reliable() && g0.wr <= |file| ==> ReadStep(g0, Gauge(), |file|)
        invariant inner.Reliable() && !more ==> rd >= |file|
        invariant Latches(old(err), old(eos), !more) && (!more ==> done < bytes)
        invariant (g0.wr <= |file| ==> wr <= |file|) && (g0.wr <= inner.End() ==> wr <= inner.End()) && (done > 0 ==> rd <= |file|)
        decreases more, bytes - done, if rd < wr then 0 else 1
      {
        var take;
        take, more := Turn(dst, at + done, bytes - done, pre, g0.rd);
        done := done + take;
      }
    }

    method Seek(offset: int, origin: Origin) returns (ok: bool)
      requires Valid() && Aim(offset, origin, rd, inner.End()) < 0x8000_0000
      modifies this, inner.Parts()
      ensures Valid() && err == old(err) && filling == old(filling) && inner.Straight() == old(inner.Straight())
      ensures ok == (0 <= Aim(offset, origin, old(rd), inner.End()) && (origin.FromEnd? ==> offset <= 0))
      ensures rd == if ok then Aim(offset, origin, old(rd), inner.End()) else old(rd)
      ensures !origin.FromEnd? && eos ==> old(eos) && wr == old(wr)
      ensures origin.FromEnd? ==> eos == old(eos)
      ensures origin.FromEnd? && ok ==> (eos && wr < |inner.File()| <==> old(eos) && inner.End() + offset < |inner.File()|)
    {
      hide Backing.Valid;
      var target;
      if origin.FromEnd? {
        ok := inner.Seek(offset, FromEnd);
        if !ok {
          return false;
        }
        target := inner.Tell();
        if target < 0 {
          return false;
        }
        innerPos := target;
        winLo, wr, rd := target, target, target;
        return true;
      }
      target := if origin.FromStart? then offset else rd + offset;
      if target < 0 {
        return false;
      }
      if winLo <= target <= wr {
        rd := target;
        return true;
      }
      winLo, wr, rd := target, target, target;
      eos := false;
      ok := true;
    }

    method Tell() returns (at: int)
      ensures at == rd
    {
      at := rd;
    }

    /** Advance the refill by at most one backing read, under the watermarks. */
    method Pump(chunk: nat) returns (got: nat)
      requires Valid()
      modifies this, inner.Parts(), buf
      ensures Valid() && rd == old(rd) && wr == old(wr) + got && got <= chunk && (got > 0 ==> wr <= |inner.File()|) && (inner.Straight() ==> old(inner.Straight()))
      ensures inner.Reliable() && !old(err) && chunk > 0 && old(wr) <= |inner.File()| ==>
        PumpStep(old(Gauge()), Gauge(), got, low, high, |inner.File()|)
      ensures inner.Reliable() && old(wr) <= inner.End() ==> err == old(err)
      ensures old(!eos && !err && wr - rd < if filling then high else low) ==>
        chunk > 0 && got == 0 && hook && inner.Err() && wr <= inner.End() ==> FailedPump(old(Health()), Health())
      ensures err && !old(err) ==> old(filling) && !filling && got == 0 && errStreak >= ERR_RETRIES
    {
      hide Backing.Valid;
      var ahead := wr - rd;
      got := 0;
      if filling {
        if eos || err || ahead >= high {
          filling := false;
          return 0;
        }
        got := Fetch(chunk);
        if got == 0 && !eos && errStreak >= ERR_RETRIES {
          err := true;
          filling := false;
        }
      } else if !eos && !err && ahead < low {
        filling := true;
        got := Fetch(chunk);
      }
    }
  }
}
