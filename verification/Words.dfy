/** Fixed-width integers as the firmware uses them, and little-endian fields. */
module Words {

  const TWO32: int := 0x1_0000_0000

  type Byte = x: int | 0 <= x < 256

  type U16 = x: int | 0 <= x < 0x1_0000

  type U32 = x: int | 0 <= x < 0x1_0000_0000

  /** What an unsigned 32-bit add, subtract or multiply leaves of `x`. */
  function Wrap32(x: int): (r: U32)
  {
    x % TWO32
  }

  function Min(a: int, b: int): int
  {
    if a < b then a else b
  }

  /** The unsigned 16-bit little-endian field at `at`. */
  function Rd16(p: seq<Byte>, at: nat): (r: U16)
    requires at + 2 <= |p|
  {
    var a: int, b: int := p[at], p[at + 1];
    a + 256 * b
  }

  /** The unsigned 32-bit little-endian field at `at`. */
  function Rd32(p: seq<Byte>, at: nat): (r: U32)
    requires at + 4 <= |p|
  {
    var a: int, b: int, c: int, d: int := p[at], p[at + 1], p[at + 2], p[at + 3];
    a + 256 * b + 65536 * c + 16777216 * d
  }

  function Le16(v: U16): (r: seq<Byte>)
    ensures |r| == 2
  {
    [v % 256, v / 256]
  }

  function Le32(v: U32): (r: seq<Byte>)
    ensures |r| == 4
  {
    [v % 256, v / 256 % 256, v / 65536 % 256, v / 16777216]
  }

  /** Storing a word and reading it back is the identity, wherever it sits. */
  lemma Le32RoundTrip(p: seq<Byte>, at: nat, v: U32)
    requires at + 4 <= |p| && p[at..at + 4] == Le32(v)
    ensures Rd32(p, at) == v
  {
    var w := p[at..at + 4];
    assert p[at] == w[0] && p[at + 1] == w[1] && p[at + 2] == w[2] && p[at + 3] == w[3];
    var a, b, c := v / 256, v / 65536, v / 16777216;
    assert b == a / 256 && c == b / 256;
    assert v == 256 * a + v % 256 && a == 256 * b + a % 256 && b == 256 * c + b % 256;
  }

  lemma Le32Back(p: seq<Byte>, at: nat)
    requires at + 4 <= |p|
    ensures p[at..at + 4] == Le32(Rd32(p, at))
  {
    var a: int, b: int, c: int, d: int := p[at], p[at + 1], p[at + 2], p[at + 3];
    var v: nat, v1: nat, v2: nat := Rd32(p, at), b + 256 * c + 65536 * d, c + 256 * d;
    assert v == 256 * v1 + a && v1 == 256 * v2 + b;
    assert v / 256 == v1 && v1 / 256 == v2 && v2 / 256 == d && v % 256 == a && v1 % 256 == b && v2 % 256 == c;
    assert v / 65536 == v1 / 256 && v / 16777216 == v2 / 256;
  }

  lemma Le16Back(p: seq<Byte>, at: nat)
    requires at + 2 <= |p|
    ensures p[at..at + 2] == Le16(Rd16(p, at))
  {
    var a: int, b: int := p[at], p[at + 1];
    var v: nat := Rd16(p, at);
    assert v == 256 * b + a;
    assert v / 256 == b && v % 256 == a;
  }

  lemma Le16RoundTrip(p: seq<Byte>, at: nat, v: U16)
    requires at + 2 <= |p| && p[at..at + 2] == Le16(v)
    ensures Rd16(p, at) == v
  {
    var w := p[at..at + 2];
    assert p[at] == w[0] && p[at + 1] == w[1];
  }

  lemma SameWord(p: seq<Byte>, i: nat, q: seq<Byte>, j: nat)
    requires i + 4 <= |p| && j + 4 <= |q| && p[i..i + 4] == q[j..j + 4]
    ensures Rd32(p, i) == Rd32(q, j)
  {
    var a, b := p[i..i + 4], q[j..j + 4];
    assert a[0] == b[0] && a[1] == b[1] && a[2] == b[2] && a[3] == b[3];
  }

  lemma SliceOfSlice<T>(s: seq<T>, lo: nat, hi: nat, at: nat, n: nat)
    requires lo <= hi <= |s| && at + n <= hi - lo
    ensures s[lo..hi][at..at + n] == s[lo + at..lo + at + n]
  {
    var a, b := s[lo..hi][at..at + n], s[lo + at..lo + at + n];
    assert |a| == |b| && forall i :: 0 <= i < n ==> a[i] == b[i];
  }

  lemma PrefixSlice<T>(s: seq<T>, t: seq<T>, a: nat, b: nat)
    requires s <= t && a <= b <= |s|
    ensures s[a..b] == t[a..b]
  {
  }

  lemma SplitSlice<T>(s: seq<T>, a: nat, b: nat, c: nat)
    requires a <= b <= c <= |s|
    ensures s[a..b] + s[b..c] == s[a..c]
  {
  }

  lemma ThreeParts<T>(s: seq<T>, a: nat, b: nat)
    requires a <= b <= |s|
    ensures s[..a] + s[a..b] == s[..b] && s[..b] + s[b..] == s
  {
  }
}
