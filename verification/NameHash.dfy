/**
 * The name hash that binds an index record to its file: computed on the host over
 * Unicode text, on the device over UTF-8 bytes that may have come from UTF-16 long
 * names. UTF-8 as in section 3 of RFC 3629, UTF-16 as in section 2.2 of RFC 2781.
 * Where the code joins disjoint bit fields the model adds them.
 */
module NameHash {
  import opened Words
  import opened Crc
  import opened Memory

  /** A Unicode scalar value. */
  type Code = c: int | 0 <= c <= 0x10FFFF && !(0xD800 <= c <= 0xDFFF)

  /** One that a C string can hold. */
  type Scalar = c: Code | c != 0
    witness 1

  predicate IsScalar(c: int)
  {
    1 <= c <= 0x10FFFF && !(0xD800 <= c <= 0xDFFF)
  }

  const REPLACEMENT: Scalar := 0xFFFD

  // ---- UTF-8 ------------------------------------------------------------------------------

  /** The trailing byte that carries the low six bits of `x`. */
  function Low(x: nat): Byte
  {
    0x80 + x % 64
  }

  function Encode(c: Code): (r: seq<Byte>)
    ensures 1 <= |r| <= 4
  {
    var n: nat := c;
    if n < 0x80 then [n as Byte]
    else if n < 0x800 then [(0xC0 + n / 64) as Byte, Low(n)]
    else if n < 0x10000 then [(0xE0 + n / 4096) as Byte, Low(n / 64), Low(n)]
    else [(0xF0 + n / 262144) as Byte, Low(n / 4096), Low(n / 64), Low(n)]
  }

  type Encoder = Code -> seq<Byte>

  function Joined(text: seq<Code>, enc: Encoder): seq<Byte>
  {
    if text == [] then [] else enc(text[0]) + Joined(text[1..], enc)
  }

  function Utf8(text: seq<Code>): seq<Byte>
  {
    Joined(text, Encode)
  }

  /** A byte of a C string; past its end stands the terminator. */
  function ByteAt(s: seq<Byte>, i: nat): Byte
  {
    if i < |s| then s[i] else 0
  }

  predicate Continues(b: Byte)
  {
    0x80 <= b < 0xC0
  }

  /** How many continuation bytes a lead byte announces, and the bits it carries; -1 when it leads nothing. */
  function Lead(b: Byte): (r: (int, int))
  {
    if 0xC0 <= b < 0xE0 then (1, b - 0xC0)
    else if 0xE0 <= b < 0xF0 then (2, b - 0xE0)
    else if 0xF0 <= b < 0xF8 then (3, b - 0xF0)
    else (-1, 0)
  }

  /** Bits gathered from the continuation bytes at `i` and after, `left` of them; -1 if one is missing. */
  function Gathered(s: seq<Byte>, i: nat, left: nat, bits: int): int
    decreases left, i
  {
    if left == 0 then bits
    else if !Continues(ByteAt(s, i)) then -1
    else
      var b: int := ByteAt(s, i);
      Gathered(s, i + 1, left - 1, bits * 64 + (b - 0x80))
  }

  /** The smallest value that needs `n` continuation bytes. */
  function Least(n: int): int
  {
    if n == 1 then 0x80 else if n == 2 then 0x800 else 0x10000
  }

  /** The first code point of `s` and the bytes it takes; -1 at the end. Malformed input reads as U+FFFD. */
  function Decode(s: seq<Byte>): (r: (int, nat))
    ensures r.0 >= 0 ==> IsScalar(r.0) && 1 <= r.1 <= |s|
    ensures r.0 < 0 <==> s == [] || s[0] == 0
  {
    if s == [] || s[0] == 0 then (-1, 0)
    else if s[0] < 0x80 then (s[0], 1)
    else
      var n := Lead(s[0]).0;
      if n < 0 then (REPLACEMENT, 1)
      else
        var c := Gathered(s, 1, n, Lead(s[0]).1);
        GatheredFits(s, 1, n, Lead(s[0]).1);
        if c < 0 then (REPLACEMENT, 1)
        else if c < Least(n) || !IsScalar(c) then (REPLACEMENT, n + 1)
        else (c, n + 1)
  }

  lemma {:induction false} GatheredFits(s: seq<Byte>, i: nat, left: nat, bits: int)
    requires bits >= 0 && i <= |s|
    ensures Gathered(s, i, left, bits) == -1 || (i + left <= |s| && Gathered(s, i, left, bits) >= 0)
    decreases left
  {
    if left > 0 && Continues(ByteAt(s, i)) {
      var b: int := ByteAt(s, i);
      GatheredFits(s, i + 1, left - 1, bits * 64 + (b - 0x80));
    }
  }

  /** A continuation byte adds the six bits it carries. */
  lemma GatherOne(s: seq<Byte>, i: nat, left: nat, x: nat)
    requires i < |s| && s[i] == Low(x) && left > 0
    ensures Gathered(s, i, left, x / 64) == Gathered(s, i + 1, left - 1, x)
  {
    var b: int := s[i];
    assert x / 64 * 64 + (b - 0x80) == x;
  }

  lemma Shift(x: nat)
    ensures x / 64 / 64 == x / 4096 && x / 4096 / 64 == x / 262144
  {
  }

  lemma DecodeTwo(s: seq<Byte>, n: nat)
    requires 0x80 <= n < 0x800 && |s| >= 2 && s[0] == 0xC0 + n / 64 && s[1] == Low(n)
    ensures Decode(s) == (n, 2)
  {
    GatherOne(s, 1, 1, n);
    assert Gathered(s, 2, 0, n) == n;
  }

  lemma DecodeThree(s: seq<Byte>, n: nat)
    requires 0x800 <= n < 0x10000 && IsScalar(n) && |s| >= 3
    requires s[0] == 0xE0 + n / 4096 && s[1] == Low(n / 64) && s[2] == Low(n)
    ensures Decode(s) == (n, 3)
  {
    Shift(n);
    GatherOne(s, 1, 2, n / 64);
    GatherOne(s, 2, 1, n);
    assert Gathered(s, 3, 0, n) == n;
  }

  lemma DecodeFour(s: seq<Byte>, n: nat)
    requires 0x10000 <= n && IsScalar(n) && |s| >= 4
    requires s[0] == 0xF0 + n / 262144 && s[1] == Low(n / 4096) && s[2] == Low(n / 64) && s[3] == Low(n)
    ensures Decode(s) == (n, 4)
  {
    Shift(n);
    GatherOne(s, 1, 3, n / 4096);
    GatherOne(s, 2, 2, n / 64);
    GatherOne(s, 3, 1, n);
    assert Gathered(s, 4, 0, n) == n;
  }

  /** Decoding undoes encoding, whatever follows. */
  lemma DecodeEncode(c: Scalar, rest: seq<Byte>)
    ensures Decode(Encode(c) + rest) == (c, |Encode(c)|)
  {
    hide Gathered, Low;
    var s, n: nat := Encode(c) + rest, c;
    if n < 0x80 {
    } else if n < 0x800 {
      DecodeTwo(s, n);
    } else if n < 0x10000 {
      DecodeThree(s, n);
    } else {
      DecodeFour(s, n);
    }
  }

  // ---- the fold and the hash ----------------------------------------------------------------

  /** Smart quotes and dashes become ASCII, then A to Z lower case. */
  function Fold(c: Scalar): (r: Scalar)
  {
    var d: Scalar :=
      if c == 0x2018 || c == 0x2019 then 0x27
      else if c == 0x201C || c == 0x201D then 0x22
      else if c == 0x2013 || c == 0x2014 then 0x2D
      else c;
    if 0x41 <= d <= 0x5A then d + 32 else d
  }

  const FNV_SEED: U32 := 0x811c9dc5
  const FNV_PRIME: nat := 0x01000193

  /** One byte of 32-bit FNV-1a. */
  function FnvStep(h: nat, b: Byte): nat
  {
    Xor(h, b) * FNV_PRIME % 0x1_0000_0000
  }

  function Fnv(h: nat, s: seq<Byte>): nat
    decreases |s|, h
  {
    if s == [] then h else Fnv(FnvStep(h, s[0]), s[1..])
  }

  lemma {:induction false} FnvConcat(h: nat, s: seq<Byte>, t: seq<Byte>)
    ensures Fnv(h, s + t) == Fnv(Fnv(h, s), t)
    decreases |s|
  {
    if s == [] {
      assert s + t == t;
    } else {
      assert (s + t)[1..] == s[1..] + t;
      FnvConcat(FnvStep(h, s[0]), s[1..], t);
    }
  }

  /** The host's canonical form of a name. */
  function NormKey(text: seq<Scalar>): (r: seq<Scalar>)
    ensures |r| == |text|
  {
    if text == [] then [] else [Fold(text[0])] + NormKey(text[1..])
  }

  /** The hash the host stores in the index. */
  function HostHash(text: seq<Scalar>): nat
  {
    Fnv(FNV_SEED, Utf8(NormKey(text)))
  }

  /** The hash the device computes from a C string, with `h` so far. */
  function DeviceFrom(h: nat, s: seq<Byte>): nat
    decreases |s|, h
  {
    var d := Decode(s);
    if d.0 < 0 then h else DeviceFrom(Fnv(h, Encode(Fold(d.0))), s[d.1..])
  }

  lemma {:induction false} ParityFrom(h: nat, text: seq<Scalar>)
    ensures DeviceFrom(h, Utf8(text)) == Fnv(h, Utf8(NormKey(text)))
    decreases |text|
  {
    if text != [] {
      var rest := Utf8(text[1..]);
      var e := Encode(Fold(text[0]));
      DecodeEncode(text[0], rest);
      assert (Encode(text[0]) + rest)[|Encode(text[0])|..] == rest;
      ParityFrom(Fnv(h, e), text[1..]);
      FnvConcat(h, e, Utf8(NormKey(text[1..])));
      assert NormKey(text)[1..] == NormKey(text[1..]);
    }
  }

  /** The host's loop over characters, accumulating the canonical form. */
  method NormalizeLoop(text: seq<Scalar>) returns (out: seq<Scalar>)
    ensures out == NormKey(text)
  {
    out := [];
    var i := 0;
    assert text[0..] == text;
    while i < |text|
      invariant i <= |text| && out + NormKey(text[i..]) == NormKey(text)
    {
      assert text[i..][1..] == text[i + 1..];
      out := out + [Fold(text[i])];
      i := i + 1;
    }
    assert text[i..] == [];
  }

  /** The host's hash. */
  method HostNameHash(text: seq<Scalar>) returns (h: nat)
    ensures h == HostHash(text)
  {
    var key := NormalizeLoop(text);
    var bytes := Utf8(key);
    h := FNV_SEED;
    var i := 0;
    assert bytes[0..] == bytes;
    while i < |bytes|
      invariant i <= |bytes| && Fnv(h, bytes[i..]) == Fnv(FNV_SEED, bytes)
    {
      assert bytes[i..][1..] == bytes[i + 1..];
      h := FnvStep(h, bytes[i]);
      i := i + 1;
    }
    assert bytes[i..] == [];
  }

  /** The device's decoder: one code point and the position after it. */
  method NextCodePoint(s: seq<Byte>, p: nat) returns (cp: int, p': nat)
    requires p <= |s|
    ensures p <= p' <= |s| && cp == Decode(s[p..]).0 && p' == p + Decode(s[p..]).1
  {
    ghost var rest := s[p..];
    var c := ByteAt(s, p);
    if c == 0 {
      return -1, p;
    }
    if c < 0x80 {
      return c, p + 1;
    }
    var n, bits := Lead(c).0, Lead(c).1;
    if n < 0 {
      return REPLACEMENT, p + 1;
    }
    GatheredFits(rest, 1, n, bits);
    var i := 0;
    ghost var want := Gathered(rest, 1, n, bits);
    while i < n
      invariant 0 <= i <= n && bits >= 0 && want == Gathered(rest, 1 + i, n - i, bits)
    {
      var b := ByteAt(s, p + 1 + i);
      assert ByteAt(rest, 1 + i) == b;
      if !Continues(b) {
        return REPLACEMENT, p + 1;
      }
      bits := bits * 64 + (b as int - 0x80);
      i := i + 1;
    }
    p' := p + n + 1;
    cp := if bits < Least(n) || !IsScalar(bits) then REPLACEMENT else bits;
  }

  /** One code point of the hash, as decoded to `cp` with the next one at `q`. */
  lemma DeviceStep(h: nat, s: seq<Byte>, p: nat, cp: int, q: nat, want: nat)
    requires p <= q <= |s| && (cp, q - p) == Decode(s[p..]) && want == DeviceFrom(h, s[p..])
    ensures if cp < 0 then want == h else IsScalar(cp) && p < q && want == DeviceFrom(Fnv(h, Encode(Fold(cp))), s[q..])
  {
    if cp >= 0 {
      assert s[p..][q - p..] == s[q..];
    }
  }

  /** One turn of the hash loop: one code point folded in. */
  method HashOne(s: seq<Byte>, p: nat, h: nat, ghost want: nat) returns (more: bool, p': nat, h': nat)
    requires p <= |s| && want == DeviceFrom(h, s[p..])
    ensures p <= p' <= |s| && (more ==> p < p')
    ensures want == if more then DeviceFrom(h', s[p'..]) else h'
  {
    var cp;
    cp, p' := NextCodePoint(s, p);
    DeviceStep(h, s, p, cp, p', want);
    more, h' := cp >= 0, h;
    if more {
      h' := FnvAll(h, Encode(Fold(cp)));
    }
  }

  /** The device's hash. */
  method DeviceNameHash(s: seq<Byte>) returns (h: nat)
    ensures h == DeviceFrom(FNV_SEED, s)
  {
    h := FNV_SEED;
    var p, more := 0, true;
    ghost var want := DeviceFrom(FNV_SEED, s);
    assert s[0..] == s;
    while more
      invariant p <= |s| && want == if more then DeviceFrom(h, s[p..]) else h
      decreases more, |s| - p
    {
      more, p, h := HashOne(s, p, h, want);
    }
  }

  method FnvAll(h0: nat, b: seq<Byte>) returns (h: nat)
    ensures h == Fnv(h0, b)
  {
    h := h0;
    var i := 0;
    assert b[0..] == b;
    while i < |b|
      invariant i <= |b| && Fnv(h, b[i..]) == Fnv(h0, b)
    {
      assert b[i..][1..] == b[i + 1..];
      h := FnvStep(h, b[i]);
      i := i + 1;
    }
    assert b[i..] == [];
  }

  /** Host and device agree on every name. */
  lemma HashParity(text: seq<Scalar>)
    ensures DeviceFrom(FNV_SEED, Utf8(text)) == HostHash(text)
  {
    ParityFrom(FNV_SEED, text);
  }

  /** Two characters that names do not tell apart: a letter in either case, or a mark and its typographic forms. */
  predicate Kin(a: Scalar, b: Scalar)
  {
    || a == b
    || (0x41 <= a <= 0x5A && b == a + 32) || (0x41 <= b <= 0x5A && a == b + 32)
    || (a in {0x27, 0x2018, 0x2019} && b in {0x27, 0x2018, 0x2019})
    || (a in {0x22, 0x201C, 0x201D} && b in {0x22, 0x201C, 0x201D})
    || (a in {0x2D, 0x2013, 0x2014} && b in {0x2D, 0x2013, 0x2014})
  }

  /** Names have one canonical form exactly when they agree up to case and typography. */
  lemma {:induction false} KeysExactly(a: seq<Scalar>, b: seq<Scalar>)
    ensures NormKey(a) == NormKey(b) <==> |a| == |b| && forall k :: 0 <= k < |a| ==> Kin(a[k], b[k])
    decreases |a|
  {
    if a != [] && b != [] {
      KeysExactly(a[1..], b[1..]);
      assert NormKey(a)[1..] == NormKey(a[1..]) && NormKey(b)[1..] == NormKey(b[1..]);
    }
  }

  /** Such names hash alike, whichever of the two the host stored and the device met. */
  lemma KinHashAlike(a: seq<Scalar>, b: seq<Scalar>)
    requires |a| == |b| && forall k :: 0 <= k < |a| ==> Kin(a[k], b[k])
    ensures DeviceFrom(FNV_SEED, Utf8(a)) == HostHash(b)
  {
    KeysExactly(a, b);
    HashParity(a);
  }

  // ---- UTF-16 -------------------------------------------------------------------------------

  function Units(c: Scalar): (r: seq<U16>)
    ensures 1 <= |r| <= 2
  {
    var n: nat := c;
    if n < 0x10000 then [n as U16]
    else [(0xD800 + (n - 0x10000) / 1024) as U16, (0xDC00 + (n - 0x10000) % 1024) as U16]
  }

  function Utf16(text: seq<Scalar>): seq<U16>
  {
    if text == [] then [] else Units(text[0]) + Utf16(text[1..])
  }

  /** The first code point of a long name and the units it takes; unpaired surrogates read as U+FFFD. */
  function FromUnits(u: seq<U16>): (r: (Code, nat))
    requires u != []
    ensures 1 <= r.1 <= |u|
  {
    var c: int := u[0];
    var lo: int := if |u| > 1 then u[1] else 0;
    if 0xD800 <= c <= 0xDBFF then
      if 0xDC00 <= lo <= 0xDFFF then (0x10000 + (c - 0xD800) * 1024 + (lo - 0xDC00), 2) else (REPLACEMENT, 1)
    else if 0xDC00 <= c <= 0xDFFF then (REPLACEMENT, 1)
    else (c, 1)
  }

  /** All the code points of a long name. */
  function FromUtf16(u: seq<U16>): seq<Code>
    decreases |u|
  {
    if u == [] then [] else [FromUnits(u).0] + FromUtf16(u[FromUnits(u).1..])
  }

  lemma FromUnitsInverse(c: Scalar, rest: seq<U16>)
    ensures FromUnits(Units(c) + rest) == (c as Code, |Units(c)|)
  {
    var u, n: nat := Units(c) + rest, c;
    if n >= 0x10000 {
      var d := n - 0x10000;
      assert d == d / 1024 * 1024 + d % 1024;
      assert u[0] == 0xD800 + d / 1024 && u[1] == 0xDC00 + d % 1024;
    }
  }

  /** Reading UTF-16 back gives the text. */
  lemma {:induction false} Utf16RoundTrip(text: seq<Scalar>)
    ensures FromUtf16(Utf16(text)) == text
    decreases |text|
  {
    if text != [] {
      var rest := Utf16(text[1..]);
      FromUnitsInverse(text[0], rest);
      assert (Units(text[0]) + rest)[|Units(text[0])|..] == rest;
      Utf16RoundTrip(text[1..]);
    }
  }

  /** As much of a text as the conversion writes, `at` bytes into a buffer of `cap`; it stops when four bytes might not fit. */
  function Fitting(text: seq<Code>, at: nat, cap: int, enc: Encoder): seq<Byte>
    decreases |text|, at
  {
    if text == [] || at + 4 >= cap then []
    else enc(text[0]) + Fitting(text[1..], at + |enc(text[0])|, cap, enc)
  }

  /** The conversion loop, into a fixed buffer. */
  method LfnToUtf8(u: seq<U16>, dst: array<Byte>) returns (n: nat)
    requires dst.Length > 0
    modifies dst
    ensures n < dst.Length && dst[..n] == Fitting(FromUtf16(u), 0, dst.Length, Encode) && dst[n] == 0
  {
    n := 0;
    var i := 0;
    ghost var left := FromUtf16(u);
    assert u[0..] == u && dst[..0] == [];
    while i < |u| && n + 4 < dst.Length
      invariant i <= |u| && n < dst.Length && left == FromUtf16(u[i..])
      invariant dst[..n] + Fitting(left, n, dst.Length, Encode) == Fitting(FromUtf16(u), 0, dst.Length, Encode)
      decreases |u| - i
    {
      var d := FromUnits(u[i..]);
      assert u[i..][d.1..] == u[i + d.1..];
      left := left[1..];
      n := WriteOne(dst, n, d.0, Encode, left);
      i := i + d.1;
    }
    assert dst[..n] + [] == dst[..n];
    dst[n] := 0;
  }

  /** One character's bytes. */
  method WriteOne(dst: array<Byte>, n: nat, c: Code, enc: Encoder, ghost rest: seq<Code>) returns (n': nat)
    requires n + 4 < dst.Length && |enc(c)| <= 4
    modifies dst
    ensures n' == n + |enc(c)|
    ensures dst[..n'] + Fitting(rest, n', dst.Length, enc) == old(dst[..n]) + Fitting([c] + rest, n, dst.Length, enc)
  {
    Put(dst, n, enc(c), |enc(c)|);
    n' := n + |enc(c)|;
    assert ([c] + rest)[1..] == rest;
  }

  /** Where the last character of `text` starts. */
  function LastStart(text: seq<Code>, enc: Encoder): nat
    requires text != []
  {
    if |text| == 1 then 0 else |enc(text[0])| + LastStart(text[1..], enc)
  }

  /** It is the length of the encoding of all but the last. */
  lemma {:induction false} LastStartMeans(text: seq<Code>, enc: Encoder)
    requires text != []
    ensures LastStart(text, enc) == |Joined(text[..|text| - 1], enc)|
    decreases |text|
  {
    if |text| > 1 {
      var most := text[..|text| - 1];
      assert most[0] == text[0] && most[1..] == text[1..][..|text| - 2];
      LastStartMeans(text[1..], enc);
    }
  }

  lemma Cancel(a: seq<Byte>, b: seq<Byte>, c: seq<Byte>)
    ensures a + b == a + c <==> b == c
  {
    assert (a + b)[|a|..] == b && (a + c)[|a|..] == c;
  }

  lemma {:induction false} FitsExactly(text: seq<Code>, at: nat, cap: int, enc: Encoder)
    requires forall c: Code :: |enc(c)| >= 1
    ensures Fitting(text, at, cap, enc) == Joined(text, enc) <==> text == [] || at + LastStart(text, enc) + 4 < cap
    decreases |text|
  {
    if text != [] {
      if at + 4 < cap {
        FitsExactly(text[1..], at + |enc(text[0])|, cap, enc);
        Cancel(enc(text[0]), Fitting(text[1..], at + |enc(text[0])|, cap, enc), Joined(text[1..], enc));
      } else {
        assert |Joined(text, enc)| >= |enc(text[0])|;
      }
    }
  }

  /**
   * A long name converts to exactly its UTF-8 form when all but its last character take
   * fewer than `cap - 4` bytes, and never otherwise.
   */
  lemma LfnExactly(text: seq<Scalar>, cap: int)
    ensures Fitting(FromUtf16(Utf16(text)), 0, cap, Encode) == Utf8(text)
            <==> text == [] || |Utf8(text[..|text| - 1])| + 4 < cap
  {
    Utf16RoundTrip(text);
    FitsExactly(text, 0, cap, Encode);
    if text != [] {
      LastStartMeans(text, Encode);
    }
  }

  /** So a long name that fits hashes, on the device, to what the host stored for the same text. */
  lemma LongNameParity(text: seq<Scalar>, cap: int)
    requires text == [] || |Utf8(text[..|text| - 1])| + 4 < cap
    ensures DeviceFrom(FNV_SEED, Fitting(FromUtf16(Utf16(text)), 0, cap, Encode)) == HostHash(text)
  {
    LfnExactly(text, cap);
    HashParity(text);
  }

  // ---- a name taken past the end of its units -------------------------------------------------

  predicate High(u: U16)
  {
    0xD800 <= u <= 0xDBFF
  }

  /** The code points that are settled whatever units follow, and the unit that is not. */
  function Settled(u: seq<U16>): (r: (seq<Code>, seq<U16>))
    ensures |r.1| <= 1 && (r.1 != [] ==> High(r.1[0]))
    decreases |u|
  {
    if u == [] || (|u| == 1 && High(u[0])) then ([], u)
    else
      var d := FromUnits(u);
      var rest := Settled(u[d.1..]);
      ([d.0] + rest.0, rest.1)
  }

  lemma {:induction false} SettledFirst(u: seq<U16>, junk: seq<U16>)
    ensures FromUtf16(u + junk) == Settled(u).0 + FromUtf16(Settled(u).1 + junk)
    decreases |u|
  {
    if u == [] || (|u| == 1 && High(u[0])) {
    } else {
      var d := FromUnits(u);
      assert FromUnits(u + junk) == d;
      assert (u + junk)[d.1..] == u[d.1..] + junk;
      SettledFirst(u[d.1..], junk);
    }
  }

  /** What is written of one text and then another: nothing of the second unless all of the first has headroom. */
  lemma {:induction false} FittingSplit(a: seq<Code>, b: seq<Code>, at: nat, cap: int, enc: Encoder)
    ensures Fitting(a + b, at, cap, enc)
            == if at + |Joined(a, enc)| + 4 < cap then Joined(a, enc) + Fitting(b, at + |Joined(a, enc)|, cap, enc)
               else Fitting(a, at, cap, enc)
    decreases |a|
  {
    if a == [] {
      assert a + b == b;
    } else if at + 4 < cap {
      var e := enc(a[0]);
      assert (a + b)[0] == a[0] && (a + b)[1..] == a[1..] + b;
      FittingSplit(a[1..], b, at + |e|, cap, enc);
      if at + |Joined(a, enc)| + 4 < cap {
        assert e + (Joined(a[1..], enc) + Fitting(b, at + |Joined(a, enc)|, cap, enc))
               == (e + Joined(a[1..], enc)) + Fitting(b, at + |Joined(a, enc)|, cap, enc);
      }
    }
  }

  /** What the conversion writes when `junk` follows the name's own units in memory. */
  function Written(known: seq<U16>, junk: seq<U16>, cap: int): seq<Byte>
  {
    Fitting(FromUtf16(known + junk), 0, cap, Encode)
  }

  /** The bytes written show what lies past the name's units. */
  ghost predicate Exposes(known: seq<U16>, n: nat, cap: int)
  {
    exists x: seq<U16>, y: seq<U16> :: |x| == n && |y| == n && Written(known, x, cap) != Written(known, y, cap)
  }

  lemma WrittenIs(known: seq<U16>, junk: seq<U16>, cap: int)
    ensures var a := Settled(known); var n := |Utf8(a.0)|;
      Written(known, junk, cap)
      == if n + 4 < cap then Utf8(a.0) + Fitting(FromUtf16(a.1 + junk), n, cap, Encode) else Fitting(a.0, 0, cap, Encode)
  {
    var a := Settled(known);
    SettledFirst(known, junk);
    FittingSplit(a.0, FromUtf16(a.1 + junk), 0, cap, Encode);
  }

  /** The first byte of what follows the settled text tells `x` from `y`. */
  lemma Distinguishes(known: seq<U16>, x: seq<U16>, y: seq<U16>, cap: int)
    requires x != [] && y != [] && |Utf8(Settled(known).0)| + 4 < cap
    requires var a := Settled(known);
      Encode(FromUnits(a.1 + x).0)[0] != Encode(FromUnits(a.1 + y).0)[0]
    ensures Written(known, x, cap) != Written(known, y, cap)
  {
    var a := Settled(known);
    var n := |Utf8(a.0)|;
    WrittenIs(known, x, cap);
    WrittenIs(known, y, cap);
    assert Written(known, x, cap)[n] == Encode(FromUnits(a.1 + x).0)[0];
    assert Written(known, y, cap)[n] == Encode(FromUnits(a.1 + y).0)[0];
  }

  /** What the memory after the name's units starts with shows in the first code point. */
  lemma FirstShows(rest: seq<U16>, x: seq<U16>, y: seq<U16>)
    requires x != [] && y != [] && x[0] == 0x41 && |rest| <= 1 && (rest != [] ==> High(rest[0]))
    requires y[0] == if rest == [] then 0x42 else 0xDC00
    ensures Encode(FromUnits(rest + x).0)[0] != Encode(FromUnits(rest + y).0)[0]
  {
    if rest == [] {
      assert rest + x == x && rest + y == y;
    } else {
      assert (rest + x)[0] == rest[0] && (rest + x)[1] == x[0];
      assert (rest + y)[0] == rest[0] && (rest + y)[1] == y[0];
    }
  }

  /** Two contents of the memory that the bytes written tell apart. */
  lemma Exposed(known: seq<U16>, n: nat, cap: int)
    requires n > 0 && |Utf8(Settled(known).0)| + 4 < cap
    ensures Exposes(known, n, cap)
  {
    var rest := Settled(known).1;
    var x: seq<U16> := seq(n, i => 0x41);
    var y: seq<U16> := seq(n, i => if rest == [] then 0x42 else 0xDC00);
    FirstShows(rest, x, y);
    Distinguishes(known, x, y, cap);
  }

  /**
   * With `n` more units claimed than the name has, what is written depends on memory
   * exactly when the settled text leaves headroom in the buffer.
   */
  lemma ExposesExactly(known: seq<U16>, n: nat, cap: int)
    requires n > 0
    ensures Exposes(known, n, cap) <==> |Utf8(Settled(known).0)| + 4 < cap
  {
    if |Utf8(Settled(known).0)| + 4 < cap {
      Exposed(known, n, cap);
    } else {
      forall x: seq<U16>, y: seq<U16> | |x| == n && |y| == n
        ensures Written(known, x, cap) == Written(known, y, cap)
      {
        WrittenIs(known, x, cap);
        WrittenIs(known, y, cap);
      }
    }
  }
}
