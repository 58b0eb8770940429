/**
 * Directory enumeration: 32-byte records, long-name reassembly, and a chain walk
 * bounded by a cluster limit and by tortoise-and-hare cycle detection.
 */
module Directory {
  import opened Words

  const LFN_MAX: int := 128
  const DIR_MAX_BYTES: int := 4 * 1024 * 1024
  const DIR_MAX_CLUS: int := 4096

  // ---- long names ---------------------------------------------------------

  /** The long-name accumulator; `maxIdx` and `term` are -1 while unset. */
  datatype Lfn = Lfn(units: seq<U16>, maxIdx: int, term: int, bad: bool, haveSum: bool, sum: Byte)

  function LfnReset(): Lfn
  {
    Lfn(seq(LFN_MAX, i => 0), -1, -1, false, false, 0)
  }

  /** Where the 13 code units of a fragment sit in its record. */
  const LFN_POS: seq<nat> := [1, 3, 5, 7, 9, 14, 16, 18, 20, 22, 24, 28, 30]

  function LfnUnit(a: Lfn, u: U16, idx: nat): Lfn
  {
    if u == 0 then (if a.term < 0 || idx < a.term then a.(term := idx) else a)
    else if u == 0xFFFF then a
    else if idx >= |a.units| then a.(bad := true)
    else a.(units := a.units[idx := u], maxIdx := if idx > a.maxIdx then idx else a.maxIdx)
  }

  function LfnUnits(a: Lfn, e: seq<Byte>, base: nat, k: nat): Lfn
    requires |e| == 32 && k <= 13
    decreases 13 - k, |e|
  {
    if k == 13 then a else LfnUnits(LfnUnit(a, Rd16(e, LFN_POS[k]), base + k), e, base, k + 1)
  }

  function LfnAdd(a: Lfn, e: seq<Byte>): Lfn
    requires |e| == 32
  {
    var ord: int := e[0] % 64;
    if ord == 0 then a.(bad := true)
    else if a.haveSum && a.sum != e[13] then a.(bad := true)
    else LfnUnits(a.(haveSum := true, sum := e[13]), e, (ord - 1) * 13, 0)
  }

  /** Length of the name assembled for the record with checksum `sum`, or -1. */
  function LfnLength(a: Lfn, sum: Byte): int
  {
    if a.bad || !a.haveSum || a.sum != sum then -1
    else if a.term >= 0 then a.term
    else if a.maxIdx >= 0 then a.maxIdx + 1
    else -1
  }

  /** The checksum of an 8.3 name: rotate right, then add, in 8 bits. */
  function Checksum(name: seq<Byte>, i: nat, s: Byte): Byte
    requires i <= 11 <= |name|
    decreases 11 - i, |name|
  {
    if i == 11 then s else Checksum(name, i + 1, (s % 2 * 128 + s / 2 + name[i]) % 256)
  }

  // ---- records ------------------------------------------------------------

  /**
   * The display name: a reassembled long name in UTF-16 code units, or the record's own
   * 8.3 name. A name longer than the accumulator is taken past its end: of `len` units
   * only `known` are the disk's, and the rest is whatever lies in memory there.
   */
  datatype Name = Long(units: seq<U16>) | Overrun(known: seq<U16>, len: nat) | Short

  datatype Dirent = Dirent(raw: seq<Byte>, name: Name, isDir: bool, firstClus: U32, size: U32)

  datatype Scan = Scan(acc: Lfn, out: seq<Dirent>, done: bool)

  /** No record scanned yet. */
  function Start(): Scan
  {
    Scan(LfnReset(), [], false)
  }

  predicate IsEnd(e: seq<Byte>)
    requires |e| == 32
  {
    e[0] == 0
  }

  /** A long-name fragment: the four low attribute bits are all set. */
  predicate IsFragment(e: seq<Byte>)
    requires |e| == 32
  {
    e[11] % 16 == 15
  }

  /** A file or folder a caller should see. */
  predicate IsLive(e: seq<Byte>)
    requires |e| == 32
  {
    e[0] != 0 && e[0] != 0xE5 && !IsFragment(e) && e[11] / 8 % 2 == 0 && e[0] != 0x2E
  }

  function MakeDirent(acc: Lfn, e: seq<Byte>): (d: Dirent)
    requires |e| == 32
  {
    var len := LfnLength(acc, Checksum(e, 0, 0));
    var isDir := e[11] / 16 % 2 == 1;
    var name := if len < 0 then Short else if len <= |acc.units| then Long(acc.units[..len]) else Overrun(acc.units, len);
    Dirent(e, name, isDir,
           Wrap32(Rd16(e, 20) * 65536 + Rd16(e, 26)), if isDir then 0 else Rd32(e, 28))
  }

  /** One record of the walk. `stop` is the caller's callback asking to end early. */
  function Record(st: Scan, e: seq<Byte>, stop: Dirent -> bool): Scan
    requires |e| == 32
  {
    if IsEnd(e) then st.(done := true)
    else if e[0] == 0xE5 then st.(acc := LfnReset())
    else if IsFragment(e) then st.(acc := LfnAdd(st.acc, e))
    else if !IsLive(e) then st.(acc := LfnReset())
    else
      var d := MakeDirent(st.acc, e);
      Scan(LfnReset(), st.out + [d], stop(d))
  }

  /** The walk over the records of `bytes` from offset `at`. */
  function Records(st: Scan, bytes: seq<Byte>, at: nat, stop: Dirent -> bool): Scan
    requires at <= |bytes|
    decreases |bytes| - at
  {
    if st.done || at + 32 > |bytes| then st
    else Records(Record(st, bytes[at..at + 32], stop), bytes, at + 32, stop)
  }

  lemma {:induction false} RecordsConcat(st: Scan, a: seq<Byte>, b: seq<Byte>, at: nat, stop: Dirent -> bool)
    requires at <= |a| && (|a| - at) % 32 == 0
    ensures Records(st, a + b, at, stop) == Records(Records(st, a, at, stop), b, 0, stop)
    decreases |a| - at
  {
    if at == |a| {
      RecordsShift(st, a, b, 0, stop);
    } else if !st.done {
      var e := a[at..at + 32];
      PrefixSlice(a, a + b, at, at + 32);
      assert (|a| - (at + 32)) % 32 == 0;
      RecordsConcat(Record(st, e, stop), a, b, at + 32, stop);
    }
  }

  lemma {:induction false} RecordsShift(st: Scan, a: seq<Byte>, b: seq<Byte>, at: nat, stop: Dirent -> bool)
    requires at <= |b|
    ensures Records(st, a + b, |a| + at, stop) == Records(st, b, at, stop)
    decreases |b| - at
  {
    if !st.done && at + 32 <= |b| {
      var e := b[at..at + 32];
      assert e == (a + b)[|a| + at..|a| + at + 32];
      RecordsShift(Record(st, b[at..at + 32], stop), a, b, at + 32, stop);
    }
  }

  // ---- the reference: live records before the end marker --------------------

  function LiveFrom(bytes: seq<Byte>, at: nat): (r: seq<seq<Byte>>)
    requires at <= |bytes|
    decreases |bytes| - at
  {
    if at + 32 > |bytes| || IsEnd(bytes[at..at + 32]) then []
    else (if IsLive(bytes[at..at + 32]) then [bytes[at..at + 32]] else []) + LiveFrom(bytes, at + 32)
  }

  function Raws(out: seq<Dirent>): (r: seq<seq<Byte>>)
    ensures |r| == |out|
  {
    seq(|out|, i requires 0 <= i < |out| => out[i].raw)
  }

  // ---- what a record says ---------------------------------------------------------------------

  /** The attributes of an entry; the byte's two highest bits mean nothing. */
  datatype Attributes = Attributes(readOnly: bool, hidden: bool, system: bool, volume: bool, folder: bool, archive: bool, spare: nat)

  function Bit(b: bool): nat
  {
    if b then 1 else 0
  }

  predicate Coded(b: Byte, a: Attributes)
  {
    b == Bit(a.readOnly) + 2 * Bit(a.hidden) + 4 * Bit(a.system) + 8 * Bit(a.volume) + 16 * Bit(a.folder) + 32 * Bit(a.archive) + 64 * a.spare
  }

  /** An entry written for cluster `c`, in two halves, and `n` bytes. */
  predicate Recorded(e: seq<Byte>, a: Attributes, c: U32, n: U32)
  {
    |e| == 32 && Coded(e[11], a) && e[20..22] == Le16(c / 65536) && e[26..28] == Le16(c % 65536) && e[28..32] == Le32(n)
  }

  /** Every record is one that could have been written, for one cluster and one size. */
  lemma SomeRecord(e: seq<Byte>) returns (a: Attributes, c: U32, n: U32)
    requires |e| == 32
    ensures Recorded(e, a, c, n)
  {
    hide Rd16, Rd32, Coded, Le16, Le32;
    a := AttributesOf(e[11]);
    c, n := Rd16(e, 20) * 65536 + Rd16(e, 26), Rd32(e, 28);
    HalvesBack(e, 20, 26, c);
    Le32Back(e, 28);
  }

  lemma AttributesOf(b: Byte) returns (a: Attributes)
    ensures Coded(b, a)
  {
    var v: nat := b;
    var ro, hidden, v2 := TwoBits(v);
    var system, volume, v4 := TwoBits(v2);
    var folder, archive, spare := TwoBits(v4);
    a := Attributes(ro, hidden, system, volume, folder, archive, spare);
  }

  lemma TwoBits(x: nat) returns (b0: bool, b1: bool, rest: nat)
    ensures x == Bit(b0) + 2 * Bit(b1) + 4 * rest
  {
    var half := x / 2;
    b0, b1, rest := x % 2 == 1, half % 2 == 1, half / 2;
  }

  lemma HalvesBack(e: seq<Byte>, hi: nat, lo: nat, c: U32)
    requires hi + 2 <= |e| && lo + 2 <= |e| && c == Rd16(e, hi) * 65536 + Rd16(e, lo)
    ensures e[hi..hi + 2] == Le16(c / 65536) && e[lo..lo + 2] == Le16(c % 65536)
  {
  }

  /** The attributes tell fragments, folders and what is to be seen. */
  lemma KindExactly(e: seq<Byte>, a: Attributes)
    requires |e| == 32 && Coded(e[11], a)
    ensures IsFragment(e) <==> a.readOnly && a.hidden && a.system && a.volume
    ensures IsLive(e) <==> !a.volume && e[0] != 0 && e[0] != 0xE5 && e[0] != 0x2E
    ensures e[11] / 16 % 2 == 1 <==> a.folder
  {
    var b: nat := e[11];
    var low := Bit(a.readOnly) + 2 * Bit(a.hidden) + 4 * Bit(a.system) + 8 * Bit(a.volume);
    var high := Bit(a.folder) + 2 * (Bit(a.archive) + 2 * a.spare);
    assert b == low + 16 * high;
    assert b % 16 == low && b / 16 == high && b / 8 == Bit(a.volume) + 2 * high;
  }

  /** A file or folder is delivered as it was written: its kind, its first cluster, and a file's size. */
  lemma DeliveredAsWritten(acc: Lfn, e: seq<Byte>, a: Attributes, c: U32, n: U32)
    requires Recorded(e, a, c, n)
    ensures var d := MakeDirent(acc, e);
      d.raw == e && d.isDir == a.folder && d.firstClus == c && d.size == if a.folder then 0 else n
  {
    KindExactly(e, a);
    Le16RoundTrip(e, 20, c / 65536);
    Le16RoundTrip(e, 26, c % 65536);
    Le32RoundTrip(e, 28, n);
  }

  /** The entry says what its record was written to say. */
  ghost predicate Told(d: Dirent)
  {
    forall a: Attributes, c: U32, n: U32 :: Recorded(d.raw, a, c, n) ==>
      d.isDir == a.folder && d.firstClus == c && d.size == if a.folder then 0 else n
  }

  ghost predicate AllTold(out: seq<Dirent>)
  {
    forall k :: 0 <= k < |out| ==> Told(out[k])
  }

  lemma NoneTold()
    ensures AllTold(Start().out)
  {
  }

  /** Every entry delivered says what its record was written to say. */
  lemma {:induction false} RecordsTold(st: Scan, bytes: seq<Byte>, at: nat, stop: Dirent -> bool)
    requires at <= |bytes| && AllTold(st.out)
    ensures AllTold(Records(st, bytes, at, stop).out)
    decreases |bytes| - at
  {
    if !st.done && at + 32 <= |bytes| {
      var e := bytes[at..at + 32];
      forall a: Attributes, c: U32, n: U32 | Recorded(e, a, c, n)
        ensures var d := MakeDirent(st.acc, e);
          d.isDir == a.folder && d.firstClus == c && d.size == if a.folder then 0 else n
      {
        DeliveredAsWritten(st.acc, e, a, c, n);
      }
      RecordsTold(Record(st, e, stop), bytes, at + 32, stop);
    }
  }

  /**
   * With a callback that never stops, the entries delivered are exactly the live records, in
   * disk order, and say what these were written to say.
   */
  lemma {:induction false} RecordsAreLive(st: Scan, bytes: seq<Byte>, at: nat, stop: Dirent -> bool)
    requires at <= |bytes| && !st.done && forall d :: !stop(d)
    ensures Raws(Records(st, bytes, at, stop).out) == Raws(st.out) + LiveFrom(bytes, at)
    ensures AllTold(st.out) ==> AllTold(Records(st, bytes, at, stop).out)
    decreases |bytes| - at
  {
    if at + 32 <= |bytes| && !IsEnd(bytes[at..at + 32]) {
      var e := bytes[at..at + 32];
      var st' := Record(st, e, stop);
      RecordsAreLive(st', bytes, at + 32, stop);
      if IsLive(e) {
        assert Raws(st'.out) == Raws(st.out) + [e];
      }
    }
    if AllTold(st.out) {
      RecordsTold(st, bytes, at, stop);
    }
  }
}
