/** The codec that works on the slot buffer, and what a record survives. */
module RecordCodec {
  import opened Words
  import opened Crc
  import opened Options
  import opened Record

  /** `s` with `bytes` written over it at `at`. */
  function Splice(s: seq<Byte>, at: nat, bytes: seq<Byte>): seq<Byte>
    requires at + |bytes| <= |s|
  {
    s[..at] + bytes + s[at + |bytes|..]
  }

  /** Fields written in order from the front grow the finished part and eat the zeros. */
  lemma SpliceAppends(done: seq<Byte>, zeros: nat, bytes: seq<Byte>)
    requires |bytes| <= zeros
    ensures Splice(done + Zeros(zeros), |done|, bytes) == done + bytes + Zeros(zeros - |bytes|)
  {
    var s := done + Zeros(zeros);
    assert s[..|done|] == done;
    assert s[|done| + |bytes|..] == Zeros(zeros - |bytes|);
  }

  method Put(rec: array<Byte>, at: nat, bytes: seq<Byte>, ghost done: seq<Byte>)
    requires at == |done| && at + |bytes| <= rec.Length
    requires rec[..] == done + Zeros(rec.Length - at)
    modifies rec
    ensures rec[..] == done + bytes + Zeros(rec.Length - at - |bytes|)
  {
    ghost var before := rec[..];
    forall i | 0 <= i < |bytes| {
      rec[at + i] := bytes[i];
    }
    assert rec[..] == Splice(before, at, bytes);
    SpliceAppends(done, rec.Length - at, bytes);
  }

  lemma AllZeros(s: seq<Byte>)
    requires forall k :: 0 <= k < |s| ==> s[k] == 0
    ensures s == [] + Zeros(|s|)
  {
  }

  /** Fill the slot buffer with the record for `s` and `q`. */
  method Encode(rec: array<Byte>, s: Settings, q: U32)
    requires rec.Length == SLOT_BYTES
    modifies rec
    ensures rec[..] == Encoded(s, q)
  {
    var i := 0;
    while i < SLOT_BYTES
      invariant i <= SLOT_BYTES && forall k :: 0 <= k < i ==> rec[k] == 0
    {
      rec[i] := 0;
      i := i + 1;
    }
    AllZeros(rec[..]);
    EncodeFields(rec, s, q);
    EncodeSeal(rec, Body(VERSION, Payload(s), q));
  }

  method EncodeFields(rec: array<Byte>, s: Settings, q: U32)
    requires rec.Length == SLOT_BYTES && rec[..] == [] + Zeros(SLOT_BYTES)
    modifies rec
    ensures rec[..] == Body(VERSION, Payload(s), q) + Zeros(4)
  {
    ghost var h1 := [] + Le32(MAGIC);
    ghost var h2 := h1 + Le16(VERSION);
    ghost var h3 := h2 + Le16(PAYLOAD_V2);
    ghost var h4 := h3 + Le32(q);
    Put(rec, 0, Le32(MAGIC), []);
    Put(rec, 4, Le16(VERSION), h1);
    Put(rec, 6, Le16(PAYLOAD_V2), h2);
    Put(rec, 8, Le32(q), h3);
    Put(rec, PAYLOAD_AT, Payload(s), h4);
    ZerosSplit(PAYLOAD_MAX - PAYLOAD_V2, 4);
    assert h4 == Header(VERSION, PAYLOAD_V2, q);
  }

  lemma ZerosSplit(m: nat, n: nat)
    ensures Zeros(m) + Zeros(n) == Zeros(m + n)
  {
  }

  method EncodeSeal(rec: array<Byte>, ghost body: seq<Byte>)
    requires rec.Length == SLOT_BYTES && |body| == CRC_AT && rec[..] == body + Zeros(4)
    modifies rec
    ensures rec[..] == Sealed(body)
  {
    assert rec[..CRC_AT] == rec[..][..CRC_AT] == body;
    var crc := Crc32Buf(rec, CRC_AT);
    Put(rec, CRC_AT, Le32(crc), body);
    assert Zeros(0) == [];
  }

  /** Validate and decode the slot buffer, the checksum last. */
  method Decode(rec: array<Byte>) returns (r: Option<(Settings, U32)>)
    requires rec.Length == SLOT_BYTES
    ensures r == Decoded(rec[..])
  {
    ghost var all := rec[..];
    if Rd32(rec[..], 0) != MAGIC {
      return None;
    }
    var version := Rd16(rec[..], 4);
    if version == 0 || version > VERSION {
      return None;
    }
    var length := Rd16(rec[..], 6);
    if length < PAYLOAD_V1 || length > PAYLOAD_MAX {
      return None;
    }
    var crc := Crc32Buf(rec, CRC_AT);
    assert rec[..CRC_AT] == all[..CRC_AT];
    if crc != Rd32(rec[..], CRC_AT) {
      return None;
    }
    return Some((Fields(rec[..]), Rd32(rec[..], 8)));
  }

  // ---- round trip -----------------------------------------------------------------

  /** A sealed body is followed by its checksum. */
  lemma SealedParts(body: seq<Byte>)
    requires |body| == CRC_AT
    ensures var rec := Sealed(body);
      |rec| == SLOT_BYTES && rec[..CRC_AT] == body && Rd32(rec, CRC_AT) == Crc32(body)
  {
    var rec := Sealed(body);
    assert rec[..CRC_AT] == body && rec[CRC_AT..CRC_AT + 4] == Le32(Crc32(body));
    Le32RoundTrip(rec, CRC_AT, Crc32(body));
  }

  /** The header's fields read back. */
  lemma HeaderFields(version: U16, length: U16, q: U32)
    ensures var h := Header(version, length, q);
      |h| == PAYLOAD_AT && Rd32(h, 0) == MAGIC && Rd16(h, 4) == version && Rd16(h, 6) == length && Rd32(h, 8) == q
  {
    var h := Header(version, length, q);
    assert h[0..4] == Le32(MAGIC) && h[4..6] == Le16(version) && h[6..8] == Le16(length) && h[8..12] == Le32(q);
    Le32RoundTrip(h, 0, MAGIC);
    Le16RoundTrip(h, 4, version);
    Le16RoundTrip(h, 6, length);
    Le32RoundTrip(h, 8, q);
  }

  /** A front of the record reads as it does in the record. */
  lemma FrontFields(h: seq<Byte>, rec: seq<Byte>)
    requires |h| == PAYLOAD_AT && h <= rec
    ensures Rd32(rec, 0) == Rd32(h, 0) && Rd16(rec, 4) == Rd16(h, 4) && Rd16(rec, 6) == Rd16(h, 6) && Rd32(rec, 8) == Rd32(h, 8)
  {
  }

  /** A sealed body reads back: its header fields, and a checksum that agrees. */
  lemma SealedHeader(version: U16, payload: seq<Byte>, q: U32)
    requires |payload| <= PAYLOAD_MAX
    ensures var rec := Sealed(Body(version, payload, q));
      && Rd32(rec, 0) == MAGIC && Rd16(rec, 4) == version && Rd16(rec, 6) == |payload| && Rd32(rec, 8) == q
      && Crc32(rec[..CRC_AT]) == Rd32(rec, CRC_AT)
      && rec[PAYLOAD_AT..PAYLOAD_AT + |payload|] == payload
  {
    var body, h := Body(version, payload, q), Header(version, |payload|, q);
    var rec := Sealed(body);
    SealedParts(body);
    HeaderFields(version, |payload|, q);
    assert body[..PAYLOAD_AT] == h && body[PAYLOAD_AT..PAYLOAD_AT + |payload|] == payload;
    SealedFront(rec, body, |payload|);
    FrontFields(h, rec);
  }

  lemma SealedFront(rec: seq<Byte>, body: seq<Byte>, n: nat)
    requires |body| == CRC_AT <= |rec| && rec[..CRC_AT] == body && PAYLOAD_AT + n <= CRC_AT
    ensures body[..PAYLOAD_AT] <= rec && rec[PAYLOAD_AT..PAYLOAD_AT + n] == body[PAYLOAD_AT..PAYLOAD_AT + n]
  {
    PrefixSlice(body, rec, PAYLOAD_AT, PAYLOAD_AT + n);
  }

  lemma FieldsV1(rec: seq<Byte>, s: Settings)
    requires |rec| == SLOT_BYTES && rec[12..24] == PayloadV1(s)
    ensures var f, n := Fields(rec), Normal(s);
      f == n.(resumeHash := f.resumeHash, resumeSecs := f.resumeSecs, resumeTotal := f.resumeTotal)
  {
    var p := rec[12..24];
    forall k | 0 <= k < 12
      ensures rec[12 + k] == p[k]
    {
    }
    SnapNearest(s.backlightSecs);
    SnapNearest(Snap(s.backlightSecs));
  }

  /** Decoding what was encoded gives back the sequence number and the settings, normalised. */
  lemma RoundTrip(s: Settings, q: U32)
    ensures Decoded(Encoded(s, q)) == Some((Normal(s), q))
  {
    var rec := Encoded(s, q);
    SealedHeader(VERSION, Payload(s), q);
    var p := Payload(s);
    SliceOfSlice(rec, PAYLOAD_AT, PAYLOAD_AT + |p|, 0, 12);
    assert p[0..12] == PayloadV1(s);
    FieldsV1(rec, s);
    Locator(rec, s);
  }

  /** The resume locator of a version 2 record. */
  lemma Locator(rec: seq<Byte>, s: Settings)
    requires |rec| == SLOT_BYTES && rec[PAYLOAD_AT..PAYLOAD_AT + PAYLOAD_V2] == Payload(s)
    ensures var n := Normal(s);
      Rd32(rec, 24) == n.resumeHash && Rd32(rec, 28) == n.resumeSecs && Rd32(rec, 32) == n.resumeTotal
  {
    var p, n := Payload(s), Normal(s);
    assert p[12..16] == Le32(n.resumeHash) && p[16..20] == Le32(n.resumeSecs) && p[20..24] == Le32(n.resumeTotal);
    SliceOfSlice(rec, PAYLOAD_AT, PAYLOAD_AT + PAYLOAD_V2, 12, 4);
    SliceOfSlice(rec, PAYLOAD_AT, PAYLOAD_AT + PAYLOAD_V2, 16, 4);
    SliceOfSlice(rec, PAYLOAD_AT, PAYLOAD_AT + PAYLOAD_V2, 20, 4);
    Le32RoundTrip(rec, 24, n.resumeHash);
    Le32RoundTrip(rec, 28, n.resumeSecs);
    Le32RoundTrip(rec, 32, n.resumeTotal);
  }

  /** A record of the first build still loads, and never invents a resume position. */
  lemma FirstBuildRecords(s: Settings, q: U32)
    ensures Decoded(EncodedV1(s, q)) == Some((Normal(s).(resumeHash := 0, resumeSecs := 0, resumeTotal := 0), q))
  {
    SealedHeader(1, PayloadV1(s), q);
    FieldsV1(EncodedV1(s, q), s);
  }

  /** Whatever bytes a record holds, what is accepted is in range, and too short a payload has no locator. */
  lemma DecodedInRange(rec: seq<Byte>)
    requires |rec| == SLOT_BYTES && Decoded(rec).Some?
    ensures InRange(Decoded(rec).value.0)
    ensures Rd16(rec, 6) < PAYLOAD_V2 ==> Decoded(rec).value.0.resumeHash == 0
  {
    SnapNearest(rec[20]);
  }

  // ---- damage ---------------------------------------------------------------------

  /** An accepted record carries its own seal. */
  lemma AcceptedSealed(rec: seq<Byte>)
    requires |rec| == SLOT_BYTES && Decoded(rec).Some?
    ensures FeedAll(SEED, rec) == SealResidue()
  {
    var m, w := rec[..CRC_AT], rec[CRC_AT..];
    SameWord(rec, CRC_AT, w, 0);
    SealedResidue(m, w);
    assert rec == m + w;
  }

  lemma Spliced(s: seq<Byte>, i: nat)
    requires i + 4 <= |s|
    ensures s == s[..i] + s[i..i + 4] + s[i + 4..]
  {
  }

  /** A believed record with any change confined to four consecutive bytes, the checksum's among them, is rejected. */
  lemma BurstRejected(rec: seq<Byte>, bad: seq<Byte>, i: nat)
    requires |rec| == SLOT_BYTES && |bad| == SLOT_BYTES && i + 4 <= SLOT_BYTES && Decoded(rec).Some?
    requires bad[..i] == rec[..i] && bad[i + 4..] == rec[i + 4..] && bad != rec
    ensures Decoded(bad) == None
  {
    if Decoded(bad).Some? {
      var p, q := rec[..i], rec[i + 4..];
      var w, v := rec[i..i + 4], bad[i..i + 4];
      Spliced(rec, i);
      Spliced(bad, i);
      AcceptedSealed(rec);
      AcceptedSealed(bad);
      SealedDiffer(p, w, v, q);
      assert false;
    }
  }
}
