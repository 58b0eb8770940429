/** The 1024-byte settings record: encoding, validated decoding, and normalisation. */
module Record {
  import opened Words
  import opened Crc
  import opened Options

  const SLOT_BYTES: nat := 1024
  const CRC_AT: nat := 1020
  const PAYLOAD_AT: nat := 12
  const PAYLOAD_MAX: nat := 1008
  const PAYLOAD_V1: nat := 12
  const PAYLOAD_V2: nat := 24
  const MAGIC: U32 := 0x4552_4F43
  const VERSION: U16 := 2
  const RESUME_SECS_MAX: U32 := 86400

  datatype Settings = Settings(
    shuffle: int, repeat: int, resumeOnStartup: int, crossfade: int, volume: int,
    bass: int, treble: int, balance: int, backlightSecs: int, backlightBright: int,
    theme: int, clicker: int, resumeHash: U32, resumeSecs: U32, resumeTotal: U32)

  // ---- clamps -----------------------------------------------------------------

  function Clamp(v: int, lo: int, hi: int): int
  {
    if v < lo then lo else if v > hi then hi else v
  }

  function Flag(v: int): int
  {
    if v != 0 then 1 else 0
  }

  const BL_SECS: seq<int> := [0, 5, 10, 15, 30, 60]

  function Dist(a: int, b: int): nat
  {
    if a < b then b - a else a - b
  }

  /** The best of `best` and the choices from the `i`-th on: nearest to `v`, earliest on a tie. */
  function SnapFrom(v: int, i: nat, best: int): int
    requires i <= |BL_SECS|
    decreases |BL_SECS| - i, v
  {
    if i == |BL_SECS| then best
    else SnapFrom(v, i + 1, if Dist(v, BL_SECS[i]) < Dist(v, best) then BL_SECS[i] else best)
  }

  function Snap(v: int): int
  {
    SnapFrom(v, 1, BL_SECS[0])
  }

  lemma {:induction false} SnapFromNearest(v: int, i: nat, best: int)
    requires i <= |BL_SECS| && best in BL_SECS
    ensures SnapFrom(v, i, best) in BL_SECS
    ensures Dist(v, SnapFrom(v, i, best)) <= Dist(v, best)
    ensures forall k :: i <= k < |BL_SECS| ==> Dist(v, SnapFrom(v, i, best)) <= Dist(v, BL_SECS[k])
    decreases |BL_SECS| - i
  {
    if i < |BL_SECS| {
      SnapFromNearest(v, i + 1, if Dist(v, BL_SECS[i]) < Dist(v, best) then BL_SECS[i] else best);
    }
  }

  /** The backlight timeout snaps to the nearest legal choice, and legal choices stay put. */
  lemma SnapNearest(v: int)
    ensures Snap(v) in BL_SECS && forall k :: 0 <= k < |BL_SECS| ==> Dist(v, Snap(v)) <= Dist(v, BL_SECS[k])
    ensures v in BL_SECS ==> Snap(v) == v
  {
    SnapFromNearest(v, 1, BL_SECS[0]);
    if v in BL_SECS {
      var k :| 0 <= k < |BL_SECS| && BL_SECS[k] == v;
      assert Dist(v, Snap(v)) <= Dist(v, BL_SECS[k]);
    }
  }

  /** The settings as a record can carry them. */
  function Normal(s: Settings): Settings
  {
    Settings(
      Flag(s.shuffle), Clamp(s.repeat, 0, 2), Flag(s.resumeOnStartup), Flag(s.crossfade), Clamp(s.volume, 0, 100),
      Clamp(s.bass, -12, 12), Clamp(s.treble, -12, 12), Clamp(s.balance, -100, 100), Snap(s.backlightSecs),
      Clamp(s.backlightBright, 1, 32), Clamp(s.theme, 0, 3), Clamp(s.clicker, 0, 3), s.resumeHash,
      if s.resumeHash == 0 then 0 else Min(s.resumeSecs, RESUME_SECS_MAX),
      if s.resumeHash == 0 then 0 else Min(s.resumeTotal, RESUME_SECS_MAX))
  }

  predicate InRange(s: Settings)
  {
    && 0 <= s.shuffle <= 1 && 0 <= s.repeat <= 2 && 0 <= s.resumeOnStartup <= 1 && 0 <= s.crossfade <= 1
    && 0 <= s.volume <= 100 && -12 <= s.bass <= 12 && -12 <= s.treble <= 12 && -100 <= s.balance <= 100
    && s.backlightSecs in BL_SECS && 1 <= s.backlightBright <= 32 && 0 <= s.theme <= 3 && 0 <= s.clicker <= 3
    && s.resumeSecs <= RESUME_SECS_MAX && s.resumeTotal <= RESUME_SECS_MAX
    && (s.resumeHash == 0 ==> s.resumeSecs == 0 && s.resumeTotal == 0)
  }

  /** Normal settings are exactly the ones in range: the codec changes nothing else. */
  lemma NormalExactly(s: Settings)
    ensures InRange(Normal(s))
    ensures Normal(s) == s <==> InRange(s)
  {
    SnapNearest(s.backlightSecs);
  }

  // ---- bytes --------------------------------------------------------------------

  /** A signed value stored in one byte, and read back. */
  function SignedByte(v: int): Byte
    requires -128 <= v < 128
  {
    if v < 0 then v + 256 else v
  }

  function Signed(b: Byte): int
  {
    if b >= 128 then b - 256 else b
  }

  function PayloadV1(s: Settings): (p: seq<Byte>)
    ensures |p| == PAYLOAD_V1
  {
    var n := Normal(s);
    SnapNearest(s.backlightSecs);
    [n.shuffle, n.repeat, n.resumeOnStartup, n.crossfade, n.volume, SignedByte(n.bass), SignedByte(n.treble),
     SignedByte(n.balance), n.backlightSecs, n.backlightBright, n.theme, n.clicker]
  }

  function Payload(s: Settings): (p: seq<Byte>)
    ensures |p| == PAYLOAD_V2
  {
    var n := Normal(s);
    PayloadV1(s) + Le32(n.resumeHash) + Le32(n.resumeSecs) + Le32(n.resumeTotal)
  }

  function Zeros(n: nat): (z: seq<Byte>)
    ensures |z| == n
  {
    seq(n, i => 0)
  }

  function Header(version: U16, length: U16, q: U32): (h: seq<Byte>)
    ensures |h| == PAYLOAD_AT
  {
    Le32(MAGIC) + Le16(version) + Le16(length) + Le32(q)
  }

  /** The body of a record: everything the checksum covers. */
  function Body(version: U16, payload: seq<Byte>, q: U32): (b: seq<Byte>)
    requires |payload| <= PAYLOAD_MAX
    ensures |b| == CRC_AT
  {
    Header(version, |payload|, q) + payload + Zeros(PAYLOAD_MAX - |payload|)
  }

  function Sealed(body: seq<Byte>): (r: seq<Byte>)
    requires |body| == CRC_AT
    ensures |r| == SLOT_BYTES
  {
    body + Le32(Crc32(body))
  }

  /** The record that carries settings `s` under sequence number `q`. */
  function Encoded(s: Settings, q: U32): (r: seq<Byte>)
    ensures |r| == SLOT_BYTES
  {
    Sealed(Body(VERSION, Payload(s), q))
  }

  /** What the first build wrote: version 1, and no resume locator. */
  function EncodedV1(s: Settings, q: U32): (r: seq<Byte>)
    ensures |r| == SLOT_BYTES
  {
    Sealed(Body(1, PayloadV1(s), q))
  }

  /** Is this a record the loader believes? */
  predicate Acceptable(rec: seq<Byte>)
    requires |rec| == SLOT_BYTES
  {
    && Rd32(rec, 0) == MAGIC
    && 1 <= Rd16(rec, 4) <= VERSION
    && PAYLOAD_V1 <= Rd16(rec, 6) <= PAYLOAD_MAX
    && Crc32(rec[..CRC_AT]) == Rd32(rec, CRC_AT)
  }

  /** The settings in an acceptable record's payload. */
  function Fields(rec: seq<Byte>): Settings
    requires |rec| == SLOT_BYTES
  {
    var v2 := Rd16(rec, 6) >= PAYLOAD_V2;
    var hash := if v2 then Rd32(rec, 24) else 0;
    Settings(
      Flag(rec[12]), Clamp(rec[13], 0, 2), Flag(rec[14]), Flag(rec[15]), Clamp(rec[16], 0, 100),
      Clamp(Signed(rec[17]), -12, 12), Clamp(Signed(rec[18]), -12, 12), Clamp(Signed(rec[19]), -100, 100),
      Snap(rec[20]), Clamp(rec[21], 1, 32), Clamp(rec[22], 0, 3), Clamp(rec[23], 0, 3), hash,
      if hash == 0 then 0 else Min(Rd32(rec, 28), RESUME_SECS_MAX),
      if hash == 0 then 0 else Min(Rd32(rec, 32), RESUME_SECS_MAX))
  }

  function Decoded(rec: seq<Byte>): Option<(Settings, U32)>
    requires |rec| == SLOT_BYTES
  {
    if Acceptable(rec) then Some((Fields(rec), Rd32(rec, 8))) else None
  }
}
