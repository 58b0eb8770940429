/** The settings record byte by byte: what is written where, what is believed, and what becomes of values out of range. */
module RecordFormat {
  import opened Words
  import opened Crc
  import opened Options
  import opened Record
  import opened RecordCodec

  // ---- values out of range ----------------------------------------------------------------------

  /** `r` is the value from `lo` to `hi` that is nearest to `v`. */
  predicate Nearest(v: int, lo: int, hi: int, r: int)
  {
    lo <= r <= hi && (lo <= v <= hi ==> r == v) && (v < lo ==> r == lo) && (v > hi ==> r == hi)
  }

  /**
   * A record takes every setting to the nearest it can carry: a switch is on unless it is
   * zero, and a locator without a track is none.
   */
  lemma NormalIsNearest(s: Settings)
    ensures var n := Normal(s);
      && (n.shuffle == 0 <==> s.shuffle == 0) && (n.resumeOnStartup == 0 <==> s.resumeOnStartup == 0) && (n.crossfade == 0 <==> s.crossfade == 0)
      && Nearest(s.repeat, 0, 2, n.repeat) && Nearest(s.volume, 0, 100, n.volume)
      && Nearest(s.bass, -12, 12, n.bass) && Nearest(s.treble, -12, 12, n.treble) && Nearest(s.balance, -100, 100, n.balance)
      && Nearest(s.backlightBright, 1, 32, n.backlightBright) && Nearest(s.theme, 0, 3, n.theme) && Nearest(s.clicker, 0, 3, n.clicker)
      && n.resumeHash == s.resumeHash
      && (s.resumeHash != 0 ==> Nearest(s.resumeSecs, 0, 86400, n.resumeSecs) && Nearest(s.resumeTotal, 0, 86400, n.resumeTotal))
      && (s.resumeHash == 0 ==> n.resumeSecs == 0 && n.resumeTotal == 0)
  {
  }

  // ---- what is written ------------------------------------------------------------------------

  /** The twelve bytes of the first version's payload. */
  predicate Carries(p: seq<Byte>, s: Settings)
  {
    && |p| >= 12 && p[0] == s.shuffle && p[1] == s.repeat && p[2] == s.resumeOnStartup && p[3] == s.crossfade && p[4] == s.volume
    && p[5] == s.bass % 256 && p[6] == s.treble % 256 && p[7] == s.balance % 256
    && p[8] == s.backlightSecs && p[9] == s.backlightBright && p[10] == s.theme && p[11] == s.clicker
  }

  /** The locator behind them: track, position and length. */
  predicate Locates(p: seq<Byte>, s: Settings)
  {
    |p| >= 24 && p[12..16] == Le32(s.resumeHash) && p[16..20] == Le32(s.resumeSecs) && p[20..24] == Le32(s.resumeTotal)
  }

  /** "CORE" */
  const MARK: seq<Byte> := [0x43, 0x4F, 0x52, 0x45]

  lemma MarkIs()
    ensures Le32(MAGIC) == MARK && Le16(VERSION) == [2, 0] && Le16(PAYLOAD_V2) == [24, 0]
  {
  }

  lemma PayloadIs(s: Settings)
    requires InRange(s)
    ensures Carries(Payload(s), s) && Locates(Payload(s), s)
  {
    NormalExactly(s);
    PayloadFront(s);
    var p, v1 := Payload(s), PayloadV1(s);
    assert p == v1 + Le32(s.resumeHash) + Le32(s.resumeSecs) + Le32(s.resumeTotal);
    forall k | 0 <= k < 12
      ensures p[k] == v1[k]
    {
    }
  }

  lemma PayloadFront(s: Settings)
    requires InRange(s)
    ensures Carries(PayloadV1(s), s)
  {
    NormalExactly(s);
  }

  /** The record of settings in range, from its mark to its seal. */
  lemma FormatExactly(s: Settings, q: U32)
    requires InRange(s)
    ensures var r := Encoded(s, q);
      && r[0..4] == MARK && r[4..6] == [2, 0] && r[6..8] == [24, 0] && r[8..12] == Le32(q)
      && Carries(r[12..36], s) && Locates(r[12..36], s)
      && (forall k :: 36 <= k < 1020 ==> r[k] == 0) && r[1020..1024] == Le32(Crc32(r[..1020]))
  {
    hide Payload, Crc32, Le32, Le16;
    MarkIs();
    PayloadIs(s);
    BodyParts(VERSION, Payload(s), q);
  }

  lemma BodyParts(version: U16, payload: seq<Byte>, q: U32)
    requires |payload| <= PAYLOAD_MAX
    ensures var r := Sealed(Body(version, payload, q));
      && r[0..4] == Le32(MAGIC) && r[4..6] == Le16(version) && r[6..8] == Le16(|payload|) && r[8..12] == Le32(q)
      && r[12..12 + |payload|] == payload
      && (forall k :: 12 + |payload| <= k < 1020 ==> r[k] == 0) && r[1020..1024] == Le32(Crc32(r[..1020]))
  {
    hide Crc32, Le32, Le16;
    var b := Body(version, payload, q);
    var r := Sealed(b);
    var h := Header(version, |payload|, q);
    assert r[..1020] == b && b[..12] == h;
    assert h[0..4] == Le32(MAGIC) && h[4..6] == Le16(version) && h[6..8] == Le16(|payload|) && h[8..12] == Le32(q);
    assert r[0..4] == h[0..4] && r[4..6] == h[4..6] && r[6..8] == h[6..8] && r[8..12] == h[8..12];
  }

  /** Settings out of range are written as the nearest in range. */
  lemma WrittenNormal(s: Settings, q: U32)
    ensures InRange(Normal(s)) && Encoded(s, q) == Encoded(Normal(s), q)
  {
    NormalExactly(s);
    NormalExactly(Normal(s));
  }

  // ---- what is believed -------------------------------------------------------------------------

  lemma WordReads(rec: seq<Byte>, at: nat, v: U32)
    requires at + 4 <= |rec|
    ensures Rd32(rec, at) == v <==> rec[at..at + 4] == Le32(v)
  {
    hide Rd32, Le32;
    if rec[at..at + 4] == Le32(v) {
      Le32RoundTrip(rec, at, v);
    } else {
      Le32Back(rec, at);
    }
  }

  lemma HalfReads(rec: seq<Byte>, at: nat, v: U16)
    requires at + 2 <= |rec|
    ensures Rd16(rec, at) == v <==> rec[at..at + 2] == Le16(v)
  {
    if rec[at..at + 2] == Le16(v) {
      Le16RoundTrip(rec, at, v);
    }
  }

  /** A record is believed exactly when mark, version, length and seal are in order, whatever else it holds. */
  lemma BelievedExactly(rec: seq<Byte>)
    requires |rec| == SLOT_BYTES
    ensures Decoded(rec).Some? <==>
      && rec[0..4] == MARK && (rec[4..6] == [1, 0] || rec[4..6] == [2, 0])
      && (exists n: nat :: 12 <= n <= 1008 && rec[6..8] == Le16(n))
      && rec[1020..1024] == Le32(Crc32(rec[..1020]))
  {
    hide Crc32, Rd16, Rd32;
    MarkIs();
    WordReads(rec, 0, MAGIC);
    HalfReads(rec, 4, 1);
    HalfReads(rec, 4, 2);
    assert Le16(1) == [1, 0];
    WordReads(rec, 1020, Crc32(rec[..1020]));
    HalfReads(rec, 6, Rd16(rec, 6));
    if n: nat :| 12 <= n <= 1008 && rec[6..8] == Le16(n) {
      HalfReads(rec, 6, n);
    }
  }

  /** The signed value a byte stands for. */
  function Signed8(b: Byte): (v: int)
    ensures -128 <= v < 128 && v % 256 == b
  {
    if b < 128 then b else b - 256
  }

  /** What a payload says, before anything is put in range; the first version has no locator. */
  function Said(p: seq<Byte>): Settings
    requires |p| == 24
  {
    Settings(p[0], p[1], p[2], p[3], p[4], Signed8(p[5]), Signed8(p[6]), Signed8(p[7]), p[8], p[9], p[10], p[11],
             Rd32(p, 12), Rd32(p, 16), Rd32(p, 20))
  }

  /** Whatever a believed record says is put in range, and a payload too short for a locator has none. */
  lemma LoadedNormal(rec: seq<Byte>)
    requires |rec| == SLOT_BYTES && Decoded(rec).Some?
    ensures var said := Said(rec[12..36]);
      Decoded(rec).value == (Normal(if Rd16(rec, 6) >= 24 then said else said.(resumeHash := 0)), Rd32(rec, 8))
  {
    var p := rec[12..36];
    SameWord(rec, 24, p, 12);
    SameWord(rec, 28, p, 16);
    SameWord(rec, 32, p, 20);
    FrontSame(rec, p);
  }

  lemma FrontSame(rec: seq<Byte>, p: seq<Byte>)
    requires |rec| == SLOT_BYTES && p == rec[12..36]
    ensures forall k :: 0 <= k < 12 ==> p[k] == rec[12 + k]
    ensures p[0] == rec[12] && p[1] == rec[13] && p[2] == rec[14] && p[3] == rec[15] && p[4] == rec[16] && p[5] == rec[17]
    ensures p[6] == rec[18] && p[7] == rec[19] && p[8] == rec[20] && p[9] == rec[21] && p[10] == rec[22] && p[11] == rec[23]
  {
  }
}
