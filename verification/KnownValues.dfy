/** Values that are published or kept in the repository's own tables, so that no consistent change of both sides goes unnoticed. */
module KnownValues {
  import opened Words
  import opened Crc
  import opened NameHash
  import Directory

  // ---- exclusive or, four bits at a time ------------------------------------------------------

  lemma XorBit(a: nat, b: nat, x: nat, y: nat)
    requires x < 2 && y < 2
    ensures Xor(2 * a + x, 2 * b + y) == 2 * Xor(a, b) + if x != y then 1 else 0
  {
  }

  lemma XorTwo(a: nat, b: nat, x: nat, y: nat)
    requires x < 4 && y < 4
    ensures Xor(4 * a + x, 4 * b + y) == 4 * Xor(a, b) + Xor(x, y)
  {
    var x1, x0, y1, y0 := x / 2, x % 2, y / 2, y % 2;
    XorBit(2 * a + x1, 2 * b + y1, x0, y0);
    XorBit(a, b, x1, y1);
    XorBit(x1, y1, x0, y0);
    XorZero(0);
    XorBit(0, 0, x1, y1);
  }

  lemma XorDigit(a: nat, b: nat, x: nat, y: nat)
    requires x < 16 && y < 16
    ensures Xor(16 * a + x, 16 * b + y) == 16 * Xor(a, b) + Xor(x, y)
  {
    hide Xor;
    var x1, x0, y1, y0 := x / 4, x % 4, y / 4, y % 4;
    XorTwo(4 * a + x1, 4 * b + y1, x0, y0);
    XorTwo(a, b, x1, y1);
    XorTwo(x1, y1, x0, y0);
  }

  /** A byte goes into the low end of a word. */
  lemma XorByte(q: nat, x1: nat, x0: nat, y1: nat, y0: nat)
    requires x1 < 16 && x0 < 16 && y1 < 16 && y0 < 16
    ensures Xor(256 * q + 16 * x1 + x0, 16 * y1 + y0) == 256 * q + 16 * Xor(x1, y1) + Xor(x0, y0)
  {
    hide Xor;
    XorDigit(16 * q + x1, y1, x0, y0);
    XorDigit(q, 0, x1, y1);
    XorZero(q);
  }

  // ---- the name hash ------------------------------------------------------------------------

  /** One byte of FNV-1a: `to` is `from` with the byte's digits in, and `h` what it is multiplied to. */
  lemma HashByte(q: nat, x1: nat, x0: nat, y1: nat, y0: nat, b: Byte, z: nat, h: nat)
    requires x1 < 16 && x0 < 16 && y1 < 16 && y0 < 16 && b == 16 * y1 + y0
    requires z == 256 * q + 16 * Xor(x1, y1) + Xor(x0, y0) && h == z * 16777619 % 0x1_0000_0000
    ensures FnvStep(256 * q + 16 * x1 + x0, b) == h
  {
    XorByte(q, x1, x0, y1, y0);
  }

  lemma Digits()
    ensures Xor(12, 6) == 10 && Xor(5, 1) == 4 && Xor(2, 2) == 0 && Xor(14, 2) == 12
  {
  }

  lemma MoreDigits()
    ensures Xor(4, 13) == 9 && Xor(6, 2) == 4 && Xor(1, 6) == 7 && Xor(1, 2) == 3 && Xor(12, 0) == 12 && Xor(11, 0) == 11
  {
    XorZero(12);
    XorZero(11);
  }

  /** "a - b" */
  lemma FnvOfHyphen()
    ensures Fnv(0x811C9DC5, [0x61, 0x20, 0x2D, 0x20, 0x62]) == 0xF0551209
  {
    hide Xor, FnvStep;
    Digits();
    MoreDigits();
    HashByte(0x811C9D, 12, 5, 6, 1, 0x61, 0x811C9DA4, 0xE40C292C);
    HashByte(0xE40C29, 2, 12, 2, 0, 0x20, 0xE40C290C, 0x0B249DE4);
    HashByte(0x0B249D, 14, 4, 2, 13, 0x2D, 0x0B249DC9, 0x53A4636B);
    HashByte(0x53A463, 6, 11, 2, 0, 0x20, 0x53A4634B, 0xF6C84F11);
    HashByte(0xF6C84F, 1, 1, 6, 2, 0x62, 0xF6C84F73, 0xF0551209);
    FnvFive(0x811C9DC5, 0x61, 0x20, 0x2D, 0x20, 0x62);
  }

  lemma FnvFront(h: nat, a: Byte, rest: seq<Byte>)
    ensures Fnv(h, [a] + rest) == Fnv(FnvStep(h, a), rest)
  {
    assert ([a] + rest)[1..] == rest;
  }

  lemma FnvFive(h: nat, a: Byte, b: Byte, c: Byte, d: Byte, e: Byte)
    ensures Fnv(h, [a, b, c, d, e]) == FnvStep(FnvStep(FnvStep(FnvStep(FnvStep(h, a), b), c), d), e)
  {
    FnvFront(h, a, [b, c, d, e]);
    FnvFront(FnvStep(h, a), b, [c, d, e]);
    FnvFront(FnvStep(FnvStep(h, a), b), c, [d, e]);
    FnvFront(FnvStep(FnvStep(FnvStep(h, a), b), c), d, [e]);
    FnvFront(FnvStep(FnvStep(FnvStep(FnvStep(h, a), b), c), d), e, []);
    assert [a, b, c, d, e] == [a] + [b, c, d, e] && [b, c, d, e] == [b] + [c, d, e];
    assert [c, d, e] == [c] + [d, e] && [d, e] == [d] + [e] && [e] == [e] + [];
  }

  /** The repository's own vectors: no name, and "A - B" with a hyphen, an en dash or an em dash. */
  lemma NameVectors(dash: Scalar)
    requires dash == 0x2D || dash == 0x2013 || dash == 0x2014
    ensures HostHash([]) == 0x811C9DC5
    ensures HostHash([0x41, 0x20, dash, 0x20, 0x42]) == 0xF0551209
  {
    var text: seq<Scalar> := [0x41, 0x20, dash, 0x20, 0x42];
    NormKeyIs(text);
    AsciiPlain(NormKey(text));
    assert Utf8(NormKey(text)) == [0x61, 0x20, 0x2D, 0x20, 0x62];
    FnvOfHyphen();
    assert NormKey([]) == [] && Utf8([]) == [];
  }

  lemma {:induction false} NormKeyIs(text: seq<Scalar>)
    ensures forall k :: 0 <= k < |text| ==> NormKey(text)[k] == Fold(text[k])
    decreases |text|
  {
    if text != [] {
      NormKeyIs(text[1..]);
    }
  }

  /** ASCII is its own UTF-8 form. */
  lemma {:induction false} AsciiPlain(text: seq<Code>)
    requires forall k :: 0 <= k < |text| ==> text[k] < 0x80
    ensures |Utf8(text)| == |text| && forall k :: 0 <= k < |text| ==> Utf8(text)[k] == text[k]
    decreases |text|
  {
    if text != [] {
      AsciiPlain(text[1..]);
    }
  }

  // ---- the checksum -------------------------------------------------------------------------

  /** The polynomial of section 8 of RFC 1952, the coefficient of x^31 in the lowest bit. */
  lemma PolynomialIs()
    ensures POLY == Term(26) + Term(23) + Term(22) + Term(16) + Term(12) + Term(11) + Term(10) + Term(8) + Term(7) + Term(5)
                  + Term(4) + Term(2) + Term(1) + Term(0)
  {
    assert Term(28) == 8 && Term(24) == 16 * Term(28) && Term(20) == 16 * Term(24) && Term(16) == 16 * Term(20);
    assert Term(12) == 16 * Term(16) && Term(8) == 16 * Term(12) && Term(4) == 16 * Term(8) && Term(0) == 16 * Term(4);
  }

  function Term(k: nat): nat
    requires k < 32
    decreases 31 - k
  {
    if k == 31 then 1 else 2 * Term(k + 1)
  }

  lemma EvenSteps(c: nat, n: nat, x: nat)
    requires n <= 7 && c == Up(x, n)
    ensures Steps(c, n) == x
    decreases n
  {
    if n > 0 {
      EvenSteps(Up(x, n - 1), n - 1, x);
    }
  }

  /** The checksum of the single byte 7F. */
  lemma CrcVector()
    ensures Crc32([0x7F]) == 0x12B8_8320
  {
    hide Xor;
    XorByte(0xFF_FFFF, 15, 15, 7, 15);
    Complements();
    var c := 0xFFFF_FF80;
    assert Xor(SEED, 0x7F) == c;
    assert Up(0x1FF_FFFF, 7) == c;
    EvenSteps(c, 7, 0x1FF_FFFF);
    StepsAdd(c, 7, 1);
    assert Steps(0x1FF_FFFF, 1) == Step(0x1FF_FFFF) == Xor(0xFF_FFFF, POLY);
    LowOnes();
    assert [0x7F][1..] == [];
  }

  lemma Complements()
    ensures Xor(15, 7) == 8 && Xor(15, 15) == 0 && Xor(15, 0) == 15 && Xor(15, 2) == 13
    ensures Xor(15, 3) == 12 && Xor(15, 8) == 7 && Xor(15, 11) == 4
  {
    XorZero(15);
    XorSelf(15);
    XorZero(1);
  }

  lemma LowOnes()
    ensures Xor(0xFF_FFFF, POLY) == 0xED47_7CDF
  {
    hide Xor;
    Complements();
    XorZero(0xED);
    XorDigit(0xF_FFFF, 0xEDB_8832, 15, 0);
    XorDigit(0xFFFF, 0xED_B883, 15, 2);
    XorDigit(0xFFF, 0xE_DB88, 15, 3);
    XorDigit(0xFF, 0xEDB8, 15, 8);
    XorDigit(0xF, 0xEDB, 15, 8);
    XorDigit(0, 0xED, 15, 11);
  }

  // ---- Unicode and short names ----------------------------------------------------------------

  /** The examples of section 7 of RFC 3629 and section 5 of RFC 2781. */
  lemma UnicodeVectors()
    ensures Encode(0x41) == [0x41] && Encode(0x391) == [0xCE, 0x91] && Encode(0x2262) == [0xE2, 0x89, 0xA2]
    ensures Encode(0x233B4) == [0xF0, 0xA3, 0x8E, 0xB4] && Units(0x12345) == [0xD808, 0xDF45] && Units(0x391) == [0x391]
  {
  }

  /** The checksum of the 8.3 name "INTENT~1FLA", as the repository's image builder computes it. */
  lemma ShortNameVector(rest: seq<Byte>)
    ensures Directory.Checksum([0x49, 0x4E, 0x54, 0x45, 0x4E, 0x54, 0x7E, 0x31, 0x46, 0x4C, 0x41] + rest, 0, 0) == 32
  {
    var name := [0x49, 0x4E, 0x54, 0x45, 0x4E, 0x54, 0x7E, 0x31, 0x46, 0x4C, 0x41] + rest;
    assert Directory.Checksum(name, 11, 32) == 32 && Directory.Checksum(name, 10, 191) == 32 && Directory.Checksum(name, 9, 230) == 32 && Directory.Checksum(name, 8, 65) == 32;
    assert Directory.Checksum(name, 7, 32) == 32 && Directory.Checksum(name, 6, 69) == 32 && Directory.Checksum(name, 5, 227) == 32 && Directory.Checksum(name, 4, 43) == 32;
    assert Directory.Checksum(name, 3, 205) == 32 && Directory.Checksum(name, 2, 242) == 32 && Directory.Checksum(name, 1, 73) == 32;
  }
}
