/**
 * The player's file source as a machine: where it believes to stand, where its cluster
 * cursor really is, and what a read that fails on the way leaves behind.
 */
module Retries {
  import opened Words
  import opened ByteSource

  const MARKS: nat := 16

  /** A snapshot of the cursor: the place it is filed under, and where it really was. */
  datatype Mark = Mark(place: int, at: int)

  /**
   * The source: the position it was last moved to, the position it takes its cursor to
   * have, the one the cursor has, whether the cursor has lost its chain, the error flag,
   * the snapshots, and when the next one is due.
   */
  datatype Head = Head(pos: int, phys: int, at: int, lost: bool, err: bool, marks: seq<Mark>, next: int)

  /**
   * What goes wrong in one read: nothing; a FAT link that cannot be read while the cursor
   * is brought up, after `gone` bytes; a data sector, after passes for `gone` bytes; or a
   * FAT link after such passes.
   */
  datatype Fault = NoFault | OnTheWay(gone: int) | AtData(gone: int) | AtLink(gone: int)

  /**
   * How a read's cursor lies: how much the read's first pass would copy, how much there is
   * to the end of the cluster, and how long the file is declared to be.
   */
  datatype Reach = Reach(pass: int, room: int, declared: nat)

  function Opened(stride: nat): Head
  {
    Head(0, 0, 0, false, false, [], stride)
  }

  /** The latest snapshot filed at or before `pos`; the start of the file when there is none. */
  function Latest(marks: seq<Mark>, pos: int): Mark
  {
    if marks == [] then Mark(0, 0)
    else if marks[|marks| - 1].place <= pos then marks[|marks| - 1]
    else Latest(marks[..|marks| - 1], pos)
  }

  /** Moving back resumes from a snapshot. */
  function Resumed(h: Head): Head
  {
    if h.pos >= h.phys then h
    else var m := Latest(h.marks, h.pos); h.(phys := m.place, at := m.at, lost := false)
  }

  /** Moving on skips along the chain, whose clusters hold `size` bytes of the file. */
  function Brought(h: Head, size: nat, fault: Fault): Head
  {
    if h.phys >= h.pos || h.lost then h
    else if fault.OnTheWay? then h.(phys := h.phys + fault.gone, at := h.at + fault.gone, lost := true)
    else var step := Min(h.pos - h.phys, size - h.at); h.(phys := h.phys + step, at := h.at + step)
  }

  /** The cursor as the read proper finds it. */
  function Synced(h: Head, size: nat, fault: Fault): Head
  {
    Brought(Resumed(h), size, fault)
  }

  /** How many bytes a read of `n` delivers, from there. */
  function Got(s: Head, size: nat, n: nat, fault: Fault): int
  {
    if s.lost || !fault.NoFault? then 0 else Min(n, size - s.at)
  }

  /** A snapshot is taken after a read, once a stride has passed since the last. */
  function Noted(h: Head, stride: nat): Head
  {
    if |h.marks| >= MARKS || h.phys < h.next then h
    else h.(marks := h.marks + [Mark(h.phys, h.at)], next := h.phys + stride)
  }

  /** What the read proper makes of the source. */
  function Done(s: Head, size: nat, n: nat, fault: Fault, stride: nat): Head
  {
    if s.lost then s
    else match fault
      case NoFault =>
        var k := Got(s, size, n, fault);
        if k == 0 then s else Noted(s.(pos := s.pos + k, phys := s.phys + k, at := s.at + k, err := false), stride)
      case AtData(gone) => s.(at := s.at + gone, err := true)
      case AtLink(gone) => s.(at := s.at + gone, err := true, lost := true)
      case OnTheWay(_) => s
  }

  function AfterRead(h: Head, size: nat, n: nat, fault: Fault, stride: nat): Head
  {
    Done(Synced(h, size, fault), size, n, fault, stride)
  }

  /**
   * The faults a read of `n` can meet. A sector fails in the first pass or after it, with
   * bytes still wanted and there; a link is looked up at the end of the first cluster or
   * a later one, when declared bytes remain.
   */
  predicate Possible(h: Head, size: nat, n: nat, fault: Fault, c: Reach)
  {
    var r, s := Resumed(h), Synced(h, size, fault);
    match fault
    case NoFault => true
    case OnTheWay(gone) => !r.lost && 0 < gone <= r.pos - r.phys
    case AtData(gone) => !s.lost && 0 <= gone < n && s.at + gone < size && (gone == 0 || c.pass <= gone)
    case AtLink(gone) => !s.lost && 0 < gone <= n && c.room <= gone && s.at + gone <= size && s.at + gone < c.declared
  }

  predicate Sane(h: Head, size: nat)
  {
    && 0 <= h.pos && 0 <= h.phys && (!h.lost ==> h.phys <= h.at <= size)
    && forall i :: 0 <= i < |h.marks| ==> 0 <= h.marks[i].place <= h.marks[i].at <= size
  }

  /** The cursor is where the source takes it to be, or lost, and so were all those kept. */
  predicate Straight(h: Head)
  {
    (!h.lost ==> h.at == h.phys) && forall i :: 0 <= i < |h.marks| ==> h.marks[i].place == h.marks[i].at
  }

  /**
   * What holds of a source between calls, on a file of `limit` declared bytes and `size` on
   * its chain: `straight` promises that the head is, and a reliable disk that nothing failed.
   */
  predicate Well(h: Head, limit: nat, size: nat, straight: bool, reliable: bool)
  {
    h.pos <= limit && Sane(h, size) && (straight ==> Straight(h)) && (reliable ==> straight && !h.err && !h.lost)
  }

  lemma {:induction false} LatestIsOne(marks: seq<Mark>, pos: int)
    requires pos >= 0
    ensures Latest(marks, pos).place <= pos
    ensures Latest(marks, pos) == Mark(0, 0) || Latest(marks, pos) in marks
    decreases |marks|
  {
    if marks != [] && marks[|marks| - 1].place > pos {
      LatestIsOne(marks[..|marks| - 1], pos);
    }
  }

  lemma ResumedSane(h: Head, size: nat)
    requires Sane(h, size)
    ensures Sane(Resumed(h), size) && Resumed(h).phys <= h.pos && (Straight(h) ==> Straight(Resumed(h)))
  {
    LatestIsOne(h.marks, h.pos);
  }

  lemma BroughtWell(h: Head, limit: nat, size: nat, fault: Fault, straight: bool, reliable: bool)
    requires Well(h, limit, size, straight, reliable) && h.phys <= h.pos
    requires fault.OnTheWay? ==> 0 < fault.gone <= h.pos - h.phys && !reliable
    ensures Well(Brought(h, size, fault), limit, size, straight, reliable)
  {
  }

  lemma ResumedWell(h: Head, limit: nat, size: nat, straight: bool, reliable: bool)
    requires Well(h, limit, size, straight, reliable)
    ensures Well(Resumed(h), limit, size, straight, reliable)
  {
    ResumedSane(h, size);
  }

  lemma SyncedSane(h: Head, size: nat, n: nat, fault: Fault, c: Reach)
    requires Sane(h, size) && Possible(h, size, n, fault, c)
    ensures var s := Synced(h, size, fault);
      && Sane(s, size) && s.phys <= s.pos == h.pos && s.marks == h.marks && s.err == h.err
      && (Straight(h) ==> Straight(s)) && (s.lost <==> Resumed(h).lost || fault.OnTheWay?)
      && (!s.lost ==> s.phys == s.pos || s.at == size)
  {
    ResumedSane(h, size);
  }

  /** Every read keeps the source sane, and straight unless a sector failed after a pass had moved the cursor. */
  lemma StaysStraight(h: Head, size: nat, n: nat, fault: Fault, c: Reach, stride: nat)
    requires Sane(h, size) && Possible(h, size, n, fault, c)
    ensures Sane(AfterRead(h, size, n, fault, stride), size)
    ensures Straight(h) ==> (Straight(AfterRead(h, size, n, fault, stride)) <==> !(fault.AtData? && fault.gone > 0))
  {
    SyncedSane(h, size, n, fault, c);
    var s, h' := Synced(h, size, fault), AfterRead(h, size, n, fault, stride);
    if fault.NoFault? && !s.lost && Got(s, size, n, fault) > 0 {
      forall i | 0 <= i < |h'.marks|
        ensures 0 <= h'.marks[i].place <= h'.marks[i].at <= size && (Straight(h) ==> h'.marks[i].place == h'.marks[i].at)
      {
        assert i < |s.marks| ==> h'.marks[i] == s.marks[i];
      }
    }
  }

  /** What its caller sees of a read. */
  lemma Seen(h: Head, limit: nat, size: nat, n: nat, fault: Fault, c: Reach, stride: nat, straight: bool, reliable: bool)
    requires Well(h, limit, size, straight, reliable) && size <= limit
    requires Possible(h, size, n, fault, c) && (reliable ==> fault.NoFault?)
    ensures var s, h' := Synced(h, size, fault), AfterRead(h, size, n, fault, stride);
      var k := Got(s, size, n, fault);
      && 0 <= k <= n && h'.pos == h.pos + k
      && (k > 0 ==> !h'.err && h'.pos <= size && 0 <= s.at && s.at + k <= size)
      && (k > 0 && straight ==> s.at == h.pos)
      && (reliable && h.pos <= size ==> k == Min(n, size - h.pos))
      && Well(h', limit, size, straight && !(fault.AtData? && fault.gone > 0), reliable)
  {
    SyncedSane(h, size, n, fault, c);
    StaysStraight(h, size, n, fault, c, stride);
  }

  /** The cursor of `h` can be stopped by this on its way. */
  predicate OnWay(h: Head, way: Fault, reliable: bool)
  {
    var r := Resumed(h);
    way.NoFault? || (way.OnTheWay? && !r.lost && 0 < way.gone <= r.pos - r.phys && !reliable)
  }

  /** A read of `n` from `s` can be stopped by this, after its first pass or in it. */
  predicate OnSpot(s: Head, size: nat, n: nat, here: Fault, c: Reach, reliable: bool)
  {
    here.NoFault? || (!s.lost && !reliable && Stops(s, size, n, here, c))
  }

  predicate Stops(s: Head, size: nat, n: nat, here: Fault, c: Reach)
  {
    match here
    case AtData(gone) => 0 <= gone < n && s.at + gone < size && (gone == 0 || c.pass <= gone)
    case AtLink(gone) => 0 < gone <= n && c.room <= gone && s.at + gone <= size && s.at + gone < c.declared
    case _ => false
  }

  /** A source brought up, from `h` to `s`, and then read from, to `h'`, as one read. */
  lemma Composed(h: Head, s: Head, h': Head, k: int, limit: nat, size: nat, n: nat, way: Fault, here: Fault, c: Reach, stride: nat,
                 straight: bool, reliable: bool) returns (fault: Fault)
    requires Well(h, limit, size, straight, reliable) && size <= limit
    requires OnWay(h, way, reliable) && s == Synced(h, size, way) && OnSpot(s, size, n, here, c, reliable)
    requires h' == Done(s, size, n, here, stride) && k == Got(s, size, n, here)
    ensures Possible(h, size, n, fault, c) && (reliable ==> fault.NoFault?)
    ensures s == Synced(h, size, fault) && h' == AfterRead(h, size, n, fault, stride) && k == Got(s, size, n, fault)
    ensures (fault.AtData? && fault.gone > 0) <==> (here.AtData? && here.gone > 0)
    ensures fault.AtData? || fault.AtLink? ==> fault == here
    ensures Well(h', limit, size, straight && !(fault.AtData? && fault.gone > 0), reliable)
    ensures 0 <= k <= n && h'.pos == h.pos + k && (k > 0 ==> !h'.err && h'.pos <= size && (straight ==> s.at == h.pos))
    ensures reliable && h.pos <= size ==> k == Min(n, size - h.pos)
  {
    fault := if way.NoFault? then here else way;
    Seen(h, limit, size, n, fault, c, stride, straight, reliable);
  }

  // ---- when what is read is right ---------------------------------------------------------

  /** What a read that meets no fault returns, on a file. */
  function Returned(h: Head, file: seq<Byte>, n: nat): seq<Byte>
  {
    var s := Synced(h, |file|, NoFault);
    Cut(file, s.at, s.at + Got(s, |file|, n, NoFault))
  }

  /** What was asked for. */
  function Asked(file: seq<Byte>, pos: int, n: nat): seq<Byte>
  {
    Cut(file, pos, pos + Min(n, |file| - pos))
  }

  /** The read is answered as the plain cursor answers it, whatever the file holds. */
  ghost predicate Right(h: Head, size: nat, n: nat)
  {
    forall file: seq<Byte> :: |file| == size ==> Returned(h, file, n) == Asked(file, h.pos, n)
  }

  /** A file that tells place `pos` from every other. */
  function Telltale(size: nat, pos: int): (file: seq<Byte>)
    ensures |file| == size
  {
    seq(size, i => if i == pos then 1 else 0)
  }

  /** A read that meets no fault is right exactly when the cursor is then in place, or there is nothing to read. */
  lemma RightExactly(h: Head, size: nat, n: nat)
    requires Sane(h, size) && h.pos <= size
    ensures var s := Synced(h, size, NoFault);
      Right(h, size, n) <==> n == 0 || h.pos == size || (!s.lost && s.at == h.pos)
  {
    SyncedSane(h, size, n, NoFault, Reach(0, 0, size));
    var s, file := Synced(h, size, NoFault), Telltale(size, h.pos);
    if n > 0 && h.pos < size && (s.lost || s.at != h.pos) {
      assert Asked(file, h.pos, n)[0] == 1;
      assert Returned(h, file, n) == [] || Returned(h, file, n)[0] == 0;
    }
  }

  /** A retry is right exactly when the read failed at its very first pass. */
  lemma RetryExactly(h: Head, size: nat, n: nat, fault: Fault, c: Reach, stride: nat, again: nat)
    requires Sane(h, size) && Straight(h) && Possible(h, size, n, fault, c) && !fault.NoFault?
    requires h.pos < size && again > 0
    ensures Right(AfterRead(h, size, n, fault, stride), size, again) <==> fault == AtData(0)
  {
    SyncedSane(h, size, n, fault, c);
    StaysStraight(h, size, n, fault, c, stride);
    RightExactly(AfterRead(h, size, n, fault, stride), size, again);
  }

  /** One pass satisfies the request, and does not end where a link must be looked up. */
  predicate OnePass(h: Head, size: nat, n: nat, c: Reach)
  {
    c.pass == Min(n, size - h.pos) && !(c.pass == c.room && h.pos + c.room < c.declared)
  }

  /** Whatever stops it, the read can be repeated. */
  ghost predicate Repeatable(h: Head, size: nat, n: nat, c: Reach, stride: nat, again: nat)
  {
    forall fault :: Possible(h, size, n, fault, c) && !fault.NoFault? ==> Right(AfterRead(h, size, n, fault, stride), size, again)
  }

  /**
   * Of the requests on a source in place, those that can be repeated whatever stops them
   * are exactly those that one pass satisfies short of a cluster's end with bytes left.
   */
  lemma OnePassExactly(h: Head, size: nat, n: nat, c: Reach, stride: nat, again: nat)
    requires Sane(h, size) && Straight(h) && !h.lost && h.phys == h.pos < size <= c.declared && again > 0
    requires 0 < c.pass <= c.room && c.pass <= Min(n, size - h.pos) && (size < c.declared ==> h.pos + c.room <= size)
    ensures Repeatable(h, size, n, c, stride, again) <==> OnePass(h, size, n, c)
  {
    forall fault | Possible(h, size, n, fault, c) && !fault.NoFault?
      ensures Right(AfterRead(h, size, n, fault, stride), size, again) <==> fault == AtData(0)
    {
      RetryExactly(h, size, n, fault, c, stride, again);
    }
    if c.pass < Min(n, size - h.pos) {
      assert Possible(h, size, n, AtData(c.pass), c);
    } else if c.pass == c.room && h.pos + c.room < c.declared {
      assert Possible(h, size, n, AtLink(c.room), c);
    }
  }

  /** A read of a source moved back is right exactly when the snapshot it resumes from was filed where it was taken. */
  lemma RewindExactly(h: Head, size: nat, n: nat)
    requires Sane(h, size) && h.pos < h.phys && h.pos < size && n > 0
    ensures Right(h, size, n) <==> Latest(h.marks, h.pos).place == Latest(h.marks, h.pos).at
  {
    LatestIsOne(h.marks, h.pos);
    RightExactly(h, size, n);
  }

  /**
   * A read that returns nothing before the end of the file goes unflagged exactly when
   * the flag was clear and the cursor had no chain to read from or was already past it
   * all; on a straight source, when it had no chain.
   */
  lemma SilentExactly(h: Head, size: nat, n: nat, fault: Fault, c: Reach, stride: nat)
    requires Sane(h, size) && Possible(h, size, n, fault, c) && h.pos < size && n > 0
    ensures var s := Synced(h, size, fault);
      var silent := Got(s, size, n, fault) == 0 && !AfterRead(h, size, n, fault, stride).err;
      && (silent <==> !h.err && (s.lost || (fault.NoFault? && s.at == size)))
      && (s.lost <==> Resumed(h).lost || fault.OnTheWay?)
      && (Straight(h) ==> (silent <==> !h.err && s.lost))
  {
    SyncedSane(h, size, n, fault, c);
  }

  // ---- whole runs ---------------------------------------------------------------------------

  datatype Act = Reads(n: nat, fault: Fault, c: Reach) | MovesTo(target: nat)

  function After(h: Head, size: nat, stride: nat, a: Act): Head
  {
    match a
    case Reads(n, fault, _) => AfterRead(h, size, n, fault, stride)
    case MovesTo(target) => h.(pos := target)
  }

  /** Each act of the run can happen where it does. */
  predicate Happens(h: Head, size: nat, stride: nat, acts: seq<Act>)
    decreases |acts|
  {
    acts != [] ==>
      && (acts[0].Reads? ==> Possible(h, size, acts[0].n, acts[0].fault, acts[0].c))
      && Happens(After(h, size, stride, acts[0]), size, stride, acts[1..])
  }

  /** The act delivers nothing, or delivers it from where the source was moved to. */
  predicate InPlace(h: Head, size: nat, a: Act)
  {
    a.Reads? ==> var s := Synced(h, size, a.fault); Got(s, size, a.n, a.fault) > 0 ==> s.at == h.pos
  }

  predicate AllInPlace(h: Head, size: nat, stride: nat, acts: seq<Act>)
    decreases |acts|
  {
    acts != [] ==> InPlace(h, size, acts[0]) && AllInPlace(After(h, size, stride, acts[0]), size, stride, acts[1..])
  }

  /** However much fails, no byte is delivered from a wrong place unless a sector failed after a pass of its read. */
  lemma {:induction false} NeverWrong(h: Head, size: nat, stride: nat, acts: seq<Act>)
    requires Sane(h, size) && Straight(h) && Happens(h, size, stride, acts)
    requires forall i :: 0 <= i < |acts| && acts[i].Reads? && acts[i].fault.AtData? ==> acts[i].fault.gone == 0
    ensures AllInPlace(h, size, stride, acts)
    decreases |acts|
  {
    if acts != [] {
      if acts[0].Reads? {
        SyncedSane(h, size, acts[0].n, acts[0].fault, acts[0].c);
        StaysStraight(h, size, acts[0].n, acts[0].fault, acts[0].c, stride);
      }
      NeverWrong(After(h, size, stride, acts[0]), size, stride, acts[1..]);
    }
  }

  /** A source whose cursor has lost its chain reads nothing, and stays so, until it is moved back. */
  lemma {:induction false} LostStays(h: Head, size: nat, stride: nat, acts: seq<Act>)
    requires h.lost && h.phys <= h.pos && Happens(h, size, stride, acts)
    requires forall i :: 0 <= i < |acts| && acts[i].MovesTo? ==> acts[i].target >= h.phys
    ensures DeliverNothing(h, size, stride, acts)
    decreases |acts|
  {
    if acts != [] {
      LostStays(After(h, size, stride, acts[0]), size, stride, acts[1..]);
    }
  }

  predicate DeliverNothing(h: Head, size: nat, stride: nat, acts: seq<Act>)
    decreases |acts|
  {
    acts != [] ==>
      && (acts[0].Reads? ==> Got(Synced(h, size, acts[0].fault), size, acts[0].n, acts[0].fault) == 0)
      && DeliverNothing(After(h, size, stride, acts[0]), size, stride, acts[1..])
  }

  // ---- inputs -------------------------------------------------------------------------------

  const MIB: nat := 1024 * 1024
  const STRIDE: nat := 256 * 1024

  /** 128 KiB over clusters of 32 KiB, the second of which fails: the retry starts 32 KiB too far. */
  lemma RetrySkips()
    ensures Possible(Opened(STRIDE), MIB, 131072, AtData(32768), Reach(32768, 32768, MIB))
    ensures var h := AfterRead(Opened(STRIDE), MIB, 131072, AtData(32768), STRIDE);
      h.pos == 0 && Synced(h, MIB, NoFault).at == 32768 && Got(Synced(h, MIB, NoFault), MIB, 131072, NoFault) == 131072
  {
  }

  /** 32 KiB, one cluster and one pass, with the link behind it unreadable: the retry gets nothing. */
  lemma RetryStops()
    ensures Possible(Opened(STRIDE), MIB, 32768, AtLink(32768), Reach(32768, 32768, MIB))
    ensures var h := AfterRead(Opened(STRIDE), MIB, 32768, AtLink(32768), STRIDE);
      h.pos == 0 && h.err && Got(Synced(h, MIB, NoFault), MIB, 32768, NoFault) == 0
  {
  }

  /** Moved on to byte 100000, with the link behind the first cluster unreadable: nothing, and no flag. */
  lemma SilentHappens()
    ensures var h := Opened(STRIDE).(pos := 100000);
      && Possible(h, MIB, 131072, OnTheWay(32768), Reach(32768, 32768, MIB))
      && Got(Synced(h, MIB, OnTheWay(32768)), MIB, 131072, OnTheWay(32768)) == 0
      && !AfterRead(h, MIB, 131072, OnTheWay(32768), STRIDE).err
  {
  }

  /** The failure of `RetrySkips`, a retry of 256 KiB, some more, and a move back to byte 300000: it resumes 32 KiB too far. */
  lemma RewindSkips()
    ensures var h0 := AfterRead(Opened(STRIDE), MIB, 131072, AtData(32768), STRIDE);
      var h1 := AfterRead(h0, MIB, STRIDE, NoFault, STRIDE);
      var h2 := AfterRead(h1, MIB, 131072, NoFault, STRIDE).(pos := 300000);
      && h2.pos < h2.phys && h2.marks == [Mark(STRIDE, STRIDE + 32768)]
      && Synced(h2, MIB, NoFault).at == 332768
  {
    var h0 := AfterRead(Opened(STRIDE), MIB, 131072, AtData(32768), STRIDE);
    var h1 := AfterRead(h0, MIB, STRIDE, NoFault, STRIDE);
    assert h1.marks == [Mark(STRIDE, STRIDE + 32768)] && h1.next == 2 * STRIDE;
    var h2 := AfterRead(h1, MIB, 131072, NoFault, STRIDE).(pos := 300000);
    assert Latest(h2.marks, 300000) == h2.marks[0];
  }
}
