/** CRC-32 as section 8 of RFC 1952 defines it, computed bit by bit, and the errors it detects. */
module Crc {
  import opened Words
  import opened Arith

  /** The reflected polynomial. */
  const POLY: U32 := 0xEDB8_8320

  // ---- exclusive or on non-negative integers ----------------------------------

  function Xor(a: nat, b: nat): (r: nat)
    decreases a + b
  {
    if a == 0 && b == 0 then 0 else (if a % 2 != b % 2 then 1 else 0) + 2 * Xor(a / 2, b / 2)
  }

  lemma XorHalves(a: nat, b: nat)
    ensures Xor(a, b) / 2 == Xor(a / 2, b / 2)
    ensures Xor(a, b) % 2 == if a % 2 != b % 2 then 1 else 0
  {
  }

  lemma {:induction false} XorZero(a: nat)
    ensures Xor(a, 0) == a && Xor(0, a) == a
  {
    if a > 0 {
      XorZero(a / 2);
    }
  }

  lemma {:induction false} XorSelf(a: nat)
    ensures Xor(a, a) == 0
  {
    if a > 0 {
      XorSelf(a / 2);
    }
  }

  lemma {:induction false} XorAssociative(a: nat, b: nat, c: nat)
    ensures Xor(Xor(a, b), c) == Xor(a, Xor(b, c))
    decreases a + b + c
  {
    if a + b + c > 0 {
      XorAssociative(a / 2, b / 2, c / 2);
      XorHalves(a, b);
      XorHalves(b, c);
      XorHalves(Xor(a, b), c);
      XorHalves(a, Xor(b, c));
    }
  }

  lemma {:induction false} XorCommutative(a: nat, b: nat)
    ensures Xor(a, b) == Xor(b, a)
    decreases a + b
  {
    if a + b > 0 {
      XorCommutative(a / 2, b / 2);
    }
  }

  lemma XorCancels(a: nat, b: nat, c: nat)
    requires Xor(a, c) == Xor(b, c)
    ensures a == b
  {
    XorAssociative(a, c, c);
    XorAssociative(b, c, c);
    XorSelf(c);
    XorZero(a);
    XorZero(b);
  }

  lemma XorCancelsLeft(a: nat, b: nat, c: nat)
    requires Xor(c, a) == Xor(c, b)
    ensures a == b
  {
    XorCommutative(c, a);
    XorCommutative(c, b);
    XorCancels(a, b, c);
  }

  lemma XorSwap(a: nat, b: nat, c: nat)
    ensures Xor(Xor(a, b), c) == Xor(Xor(a, c), b)
  {
    XorAssociative(a, b, c);
    XorCommutative(b, c);
    XorAssociative(a, c, b);
  }

  lemma {:induction false} XorBound(a: nat, b: nat, k: nat)
    requires a < Pow2(k) && b < Pow2(k)
    ensures Xor(a, b) < Pow2(k)
    decreases k
  {
    if k > 0 {
      XorBound(a / 2, b / 2, k - 1);
    }
  }

  /** `y` moved `n` bits up. */
  function Up(y: nat, n: nat): (r: nat)
    decreases n, y
  {
    if n == 0 then y else 2 * Up(y, n - 1)
  }

  lemma {:induction false} UpAdd(y: nat, m: nat, n: nat)
    ensures Up(Up(y, m), n) == Up(y, m + n)
    decreases n
  {
    if n > 0 {
      UpAdd(y, m, n - 1);
    }
  }

  lemma XorDoubles(x: nat, y: nat)
    ensures Xor(2 * x, 2 * y) == 2 * Xor(x, y)
  {
    XorHalves(2 * x, 2 * y);
  }

  lemma {:induction false} UpXor(a: nat, b: nat, n: nat)
    ensures Xor(Up(a, n), Up(b, n)) == Up(Xor(a, b), n)
    decreases n
  {
    if n > 0 {
      UpXor(a, b, n - 1);
      XorDoubles(Up(a, n - 1), Up(b, n - 1));
    }
  }

  /** Patterns that do not overlap combine like a sum. */
  lemma {:induction false} XorDisjoint(b: nat, y: nat, n: nat)
    requires b < Pow2(n)
    ensures Xor(b, Up(y, n)) == b + Up(y, n)
    decreases n
  {
    if n == 0 {
      XorZero(y);
    } else {
      XorDisjoint(b / 2, y, n - 1);
      XorHalves(b, Up(y, n));
    }
  }

  // ---- the checksum ---------------------------------------------------------

  /** One bit of the reflected division. */
  function Step(c: nat): nat
  {
    if c % 2 == 1 then Xor(c / 2, POLY) else c / 2
  }

  function Steps(c: nat, n: nat): nat
    decreases n, c
  {
    if n == 0 then c else Steps(Step(c), n - 1)
  }

  function Feed(c: nat, b: Byte): nat
  {
    Steps(Xor(c, b), 8)
  }

  function FeedAll(c: nat, s: seq<Byte>): nat
    decreases |s|, c
  {
    if s == [] then c else FeedAll(Feed(c, s[0]), s[1..])
  }

  const SEED: U32 := 0xFFFF_FFFF

  function Crc32(s: seq<Byte>): (crc: U32)
  {
    FeedAllBound(SEED, s);
    0xFFFF_FFFF - FeedAll(SEED, s)
  }

  lemma Bounds()
    ensures Pow2(32) == TWO32 && Pow2(31) == 0x8000_0000 && Pow2(8) == 256
  {
    Pow2Is2To32();
    assert Pow2(32) == 2 * Pow2(31);
    assert Pow2(4) == 16;
  }

  lemma StepBound(c: nat)
    requires c < TWO32
    ensures Step(c) < TWO32
  {
    Bounds();
    XorBound(c / 2, POLY, 32);
  }

  lemma {:induction false} StepsBound(c: nat, n: nat)
    requires c < TWO32
    ensures Steps(c, n) < TWO32
    decreases n
  {
    if n > 0 {
      StepBound(c);
      StepsBound(Step(c), n - 1);
    }
  }

  lemma FeedBound(c: nat, b: Byte)
    requires c < TWO32
    ensures Xor(c, b) < TWO32 && Feed(c, b) < TWO32
  {
    Bounds();
    XorBound(c, b, 32);
    StepsBound(Xor(c, b), 8);
  }

  lemma {:induction false} FeedAllBound(c: nat, s: seq<Byte>)
    requires c < TWO32
    ensures FeedAll(c, s) < TWO32
    decreases |s|
  {
    if s != [] {
      FeedBound(c, s[0]);
      FeedAllBound(Feed(c, s[0]), s[1..]);
    }
  }

  /** The checksum loop over the first `n` bytes of a buffer. */
  method Crc32Buf(p: array<Byte>, n: nat) returns (crc: U32)
    requires n <= p.Length
    ensures crc == Crc32(p[..n])
  {
    var c: nat := SEED;
    var i := 0;
    while i < n
      invariant i <= n && FeedAll(c, p[i..n]) == FeedAll(SEED, p[..n])
    {
      ghost var fed := Feed(c, p[i]);
      assert p[i..n][1..] == p[i + 1..n];
      c := Xor(c, p[i]);
      var b := 0;
      while b < 8
        invariant b <= 8 && Steps(c, 8 - b) == fed
      {
        c := Step(c);
        b := b + 1;
      }
      i := i + 1;
    }
    FeedAllBound(SEED, p[..n]);
    crc := 0xFFFF_FFFF - c;
  }

  lemma {:induction false} FeedConcat(c: nat, s: seq<Byte>, t: seq<Byte>)
    ensures FeedAll(c, s + t) == FeedAll(FeedAll(c, s), t)
    decreases |s|
  {
    if s == [] {
      assert s + t == t;
    } else {
      assert (s + t)[1..] == s[1..] + t;
      FeedConcat(Feed(c, s[0]), s[1..], t);
    }
  }

  // ---- burst detection --------------------------------------------------------

  /** The bit step loses nothing: it is injective on 32-bit words. */
  lemma StepInjective(x: nat, y: nat)
    requires x < TWO32 && y < TWO32 && Step(x) == Step(y)
    ensures x == y
  {
    Bounds();
    if x % 2 == y % 2 {
      if x % 2 == 1 {
        XorCancels(x / 2, y / 2, POLY);
      }
    } else {
      var odd, even := if x % 2 == 1 then x / 2 else y / 2, if x % 2 == 1 then y / 2 else x / 2;
      assert Xor(odd, POLY) == even;
      XorAssociative(odd, odd, POLY);
      XorSelf(odd);
      XorZero(POLY);
      XorBound(odd, even, 31);
      assert false;
    }
  }

  lemma {:induction false} StepsInjective(x: nat, y: nat, n: nat)
    requires x < TWO32 && y < TWO32 && Steps(x, n) == Steps(y, n)
    ensures x == y
    decreases n
  {
    if n > 0 {
      StepBound(x);
      StepBound(y);
      StepsInjective(Step(x), Step(y), n - 1);
      StepInjective(x, y);
    }
  }

  /** Bits not yet at the bottom only move down. */
  lemma StepUp(x: nat, y: nat)
    ensures Step(Xor(x, 2 * y)) == Xor(Step(x), y)
  {
    XorHalves(x, 2 * y);
    XorSwap(x / 2, y, POLY);
  }

  lemma {:induction false} StepsUp(x: nat, y: nat, n: nat)
    ensures Steps(Xor(x, Up(y, n)), n) == Xor(Steps(x, n), y)
    decreases n
  {
    if n > 0 {
      StepUp(x, Up(y, n - 1));
      StepsUp(Step(x), y, n - 1);
    }
  }

  lemma {:induction false} StepsAdd(x: nat, m: nat, n: nat)
    ensures Steps(x, m + n) == Steps(Steps(x, m), n)
    decreases m
  {
    if m > 0 {
      StepsAdd(Step(x), m - 1, n);
    }
  }

  /** A byte fed after `n` steps could as well have been xored in `n` bits higher before them. */
  lemma FeedLater(x: nat, b: Byte, n: nat)
    ensures Feed(Steps(x, n), b) == Steps(Xor(x, Up(b, n)), n + 8)
  {
    StepsUp(x, b, n);
    StepsAdd(Xor(x, Up(b, n)), n, 8);
  }

  /** Four bytes as one word, first byte lowest. */
  function Window(w: seq<Byte>): nat
    requires |w| == 4
  {
    Xor(w[0], Up(Xor(w[1], Up(Xor(w[2], Up(w[3], 8)), 8)), 8))
  }

  lemma WindowParts(c: nat, a: nat, b: nat, d: nat, e: nat)
    ensures Xor(c, Xor(a, Up(Xor(b, Up(Xor(d, Up(e, 8)), 8)), 8)))
            == Xor(Xor(Xor(Xor(c, a), Up(b, 8)), Up(d, 16)), Up(e, 24))
  {
    var de := Xor(d, Up(e, 8));
    UpXor(b, Up(de, 8), 8);
    UpAdd(de, 8, 8);
    UpXor(d, Up(e, 8), 16);
    UpAdd(e, 8, 16);
    XorAssociative(c, a, Xor(Up(b, 8), Up(de, 16)));
    XorAssociative(Xor(c, a), Up(b, 8), Up(de, 16));
    XorAssociative(Xor(Xor(c, a), Up(b, 8)), Up(d, 16), Up(e, 24));
  }

  lemma FourFeeds(c: nat, w: seq<Byte>)
    requires |w| == 4
    ensures FeedAll(c, w) == Feed(Feed(Feed(Feed(c, w[0]), w[1]), w[2]), w[3])
  {
    var c1 := Feed(c, w[0]);
    var c2 := Feed(c1, w[1]);
    var c3 := Feed(c2, w[2]);
    assert w[1..][1..] == w[2..] && w[2..][1..] == w[3..] && w[3..][1..] == [];
    assert FeedAll(c, w) == FeedAll(c1, w[1..]);
    assert FeedAll(c1, w[1..]) == FeedAll(c2, w[2..]);
    assert FeedAll(c2, w[2..]) == FeedAll(c3, w[3..]);
    assert FeedAll(c3, w[3..]) == FeedAll(Feed(c3, w[3]), []);
  }

  /** Feeding four bytes is one xor and 32 bit steps. */
  lemma FeedWindow(c: nat, w: seq<Byte>)
    requires |w| == 4
    ensures FeedAll(c, w) == Steps(Xor(c, Window(w)), 32)
  {
    var x0 := Xor(c, w[0]);
    var x1 := Xor(x0, Up(w[1], 8));
    var x2 := Xor(x1, Up(w[2], 16));
    FeedLater(x0, w[1], 8);
    FeedLater(x1, w[2], 16);
    FeedLater(x2, w[3], 24);
    FourFeeds(c, w);
    WindowParts(c, w[0], w[1], w[2], w[3]);
  }

  lemma HornerUnique(b: Byte, y: nat, b': Byte, y': nat)
    requires Xor(b, Up(y, 8)) == Xor(b', Up(y', 8))
    ensures b == b' && y == y'
  {
    Bounds();
    XorDisjoint(b, y, 8);
    XorDisjoint(b', y', 8);
    UpEight(y);
    UpEight(y');
  }

  lemma UpEight(y: nat)
    ensures Up(y, 8) == 256 * y
  {
    assert Up(y, 1) == 2 * y;
    assert Up(y, 3) == 8 * y;
    assert Up(y, 5) == 32 * y;
    assert Up(y, 7) == 128 * y;
  }

  lemma WindowInjective(w: seq<Byte>, v: seq<Byte>)
    requires |w| == 4 && |v| == 4 && Window(w) == Window(v)
    ensures w == v
  {
    HornerUnique(w[0], Xor(w[1], Up(Xor(w[2], Up(w[3], 8)), 8)), v[0], Xor(v[1], Up(Xor(v[2], Up(v[3], 8)), 8)));
    HornerUnique(w[1], Xor(w[2], Up(w[3], 8)), v[1], Xor(v[2], Up(v[3], 8)));
    HornerUnique(w[2], w[3], v[2], v[3]);
  }

  lemma WindowBound(c: nat, w: seq<Byte>)
    requires |w| == 4 && c < TWO32
    ensures Xor(c, Window(w)) < TWO32
  {
    Bounds();
    HornerBound(w[2], w[3], 256);
    HornerBound(w[1], Xor(w[2], Up(w[3], 8)), 65536);
    HornerBound(w[0], Xor(w[1], Up(Xor(w[2], Up(w[3], 8)), 8)), 16777216);
    XorBound(c, Window(w), 32);
  }

  lemma HornerBound(b: Byte, y: nat, top: nat)
    requires y < top
    ensures Xor(b, Up(y, 8)) < 256 * top
  {
    Bounds();
    XorDisjoint(b, y, 8);
    UpEight(y);
  }

  lemma FeedWindowInjective(c: nat, w: seq<Byte>, v: seq<Byte>)
    requires c < TWO32 && |w| == 4 && |v| == 4 && FeedAll(c, w) == FeedAll(c, v)
    ensures w == v
  {
    FeedWindow(c, w);
    FeedWindow(c, v);
    WindowBound(c, w);
    WindowBound(c, v);
    StepsInjective(Xor(c, Window(w)), Xor(c, Window(v)), 32);
    XorCancelsLeft(Window(w), Window(v), c);
    WindowInjective(w, v);
  }

  lemma FeedInjective(x: nat, y: nat, b: Byte)
    requires x < TWO32 && y < TWO32 && Feed(x, b) == Feed(y, b)
    ensures x == y
  {
    FeedBound(x, b);
    FeedBound(y, b);
    StepsInjective(Xor(x, b), Xor(y, b), 8);
    XorCancels(x, y, b);
  }

  lemma {:induction false} FeedAllInjective(x: nat, y: nat, s: seq<Byte>)
    requires x < TWO32 && y < TWO32 && FeedAll(x, s) == FeedAll(y, s)
    ensures x == y
    decreases |s|
  {
    if s != [] {
      FeedBound(x, s[0]);
      FeedBound(y, s[0]);
      FeedAllInjective(Feed(x, s[0]), Feed(y, s[0]), s[1..]);
      FeedInjective(x, y, s[0]);
    }
  }

  lemma FeedThree(p: seq<Byte>, w: seq<Byte>, q: seq<Byte>)
    ensures FeedAll(SEED, p + w + q) == FeedAll(FeedAll(FeedAll(SEED, p), w), q)
  {
    FeedConcat(SEED, p + w, q);
    FeedConcat(SEED, p, w);
  }

  /** Two messages that differ only inside some four consecutive bytes have different checksums. */
  lemma BurstDetected(p: seq<Byte>, w: seq<Byte>, v: seq<Byte>, q: seq<Byte>)
    requires |w| == 4 && |v| == 4 && w != v
    ensures Crc32(p + w + q) != Crc32(p + v + q)
  {
    if Crc32(p + w + q) == Crc32(p + v + q) {
      var c := FeedAll(SEED, p);
      FeedThree(p, w, q);
      FeedThree(p, v, q);
      FeedAllBound(SEED, p);
      FeedAllBound(c, w);
      FeedAllBound(c, v);
      FeedAllInjective(FeedAll(c, w), FeedAll(c, v), q);
      FeedWindowInjective(c, w, v);
      assert false;
    }
  }

  // ---- a message with its own checksum behind it ---------------------------------

  lemma {:induction false} XorComplement(c: nat, k: nat)
    requires c < Pow2(k)
    ensures Xor(c, Pow2(k) - 1 - c) == Pow2(k) - 1
    decreases k
  {
    if k > 0 {
      XorComplement(c / 2, k - 1);
      XorHalves(c, Pow2(k) - 1 - c);
      assert (Pow2(k) - 1 - c) / 2 == Pow2(k - 1) - 1 - c / 2;
    }
  }

  lemma WindowIsWord(w: seq<Byte>)
    requires |w| == 4
    ensures Window(w) == Rd32(w, 0)
  {
    Bounds();
    var d := Xor(w[2], Up(w[3], 8));
    var b := Xor(w[1], Up(d, 8));
    XorDisjoint(w[2], w[3], 8);
    XorDisjoint(w[1], d, 8);
    XorDisjoint(w[0], b, 8);
    UpEight(w[3]);
    UpEight(d);
    UpEight(b);
  }

  /** What feeding a message and then its checksum always comes to. */
  function SealResidue(): nat
  {
    Steps(SEED, 32)
  }

  /** A message followed by its own checksum feeds to the residue, whatever the message. */
  lemma SealedResidue(m: seq<Byte>, w: seq<Byte>)
    requires |w| == 4 && Rd32(w, 0) == Crc32(m)
    ensures FeedAll(SEED, m + w) == SealResidue()
  {
    hide Step, Feed;
    Bounds();
    var c := FeedAll(SEED, m);
    FeedAllBound(SEED, m);
    FeedConcat(SEED, m, w);
    FeedWindow(c, w);
    WindowIsWord(w);
    XorComplement(c, 32);
  }

  /** So two sealed messages never differ inside four consecutive bytes alone, seal included. */
  lemma SealedDiffer(p: seq<Byte>, w: seq<Byte>, v: seq<Byte>, q: seq<Byte>)
    requires |w| == 4 && |v| == 4 && w != v
    requires FeedAll(SEED, p + w + q) == SealResidue()
    ensures FeedAll(SEED, p + v + q) != SealResidue()
  {
    BurstDetected(p, w, v, q);
  }
}
