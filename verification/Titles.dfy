/** The case-insensitive comparison that puts titles in order. */
module Titles {
  import opened Words

  /** A byte as the compiler's plain `char` has it: the device's is unsigned, a host's may be signed. */
  function AsChar(b: Byte, signed: bool): int
  {
    if signed && b >= 128 then b - 256 else b
  }

  function Upper(c: int): int
  {
    if 97 <= c <= 122 then c - 32 else c
  }

  /** The first byte of a terminated string; the terminator when there is none. */
  function Head(s: seq<Byte>): Byte
  {
    if s == [] then 0 else s[0]
  }

  /** At most 0 when `a` may come first. Where a title ends, bytes are compared as they are. */
  function TitleCmp(a: seq<Byte>, b: seq<Byte>, signed: bool): int
    decreases |a|
  {
    var x, y := AsChar(Head(a), signed), AsChar(Head(b), signed);
    if Head(a) == 0 || Head(b) == 0 then x - y
    else if Upper(x) != Upper(y) then Upper(x) - Upper(y)
    else TitleCmp(a[1..], b[1..], signed)
  }

  /** The loop over both strings. */
  method Compare(a: seq<Byte>, b: seq<Byte>, signed: bool) returns (r: int)
    ensures r == TitleCmp(a, b, signed)
  {
    var i := 0;
    while i < |a| && a[i] != 0 && i < |b| && b[i] != 0
      invariant i <= |a| && i <= |b| && TitleCmp(a, b, signed) == TitleCmp(a[i..], b[i..], signed)
    {
      var x, y := Upper(AsChar(a[i], signed)), Upper(AsChar(b[i], signed));
      assert a[i..][1..] == a[i + 1..] && b[i..][1..] == b[i + 1..];
      if x != y {
        return x - y;
      }
      i := i + 1;
    }
    r := AsChar(Head(a[i..]), signed) - AsChar(Head(b[i..]), signed);
  }

  lemma {:induction false} Opposite(a: seq<Byte>, b: seq<Byte>, signed: bool)
    ensures TitleCmp(b, a, signed) == -TitleCmp(a, b, signed)
    decreases |a|
  {
    if Head(a) != 0 && Head(b) != 0 {
      Opposite(a[1..], b[1..], signed);
    }
  }

  lemma {:induction false} Chained(a: seq<Byte>, b: seq<Byte>, c: seq<Byte>, signed: bool)
    requires TitleCmp(a, b, signed) <= 0 && TitleCmp(b, c, signed) <= 0
    ensures TitleCmp(a, c, signed) <= 0
    decreases |a|
  {
    if Head(a) != 0 && Head(b) != 0 && Head(c) != 0 {
      var x, y, z := Upper(AsChar(Head(a), signed)), Upper(AsChar(Head(b), signed)), Upper(AsChar(Head(c), signed));
      if x == y == z {
        Chained(a[1..], b[1..], c[1..], signed);
      }
    }
  }

  /** What a comparison sees of a title: its bytes up to the terminator, in upper case. */
  function Folded(s: seq<Byte>, signed: bool): seq<int>
  {
    if Head(s) == 0 then [] else [Upper(AsChar(s[0], signed))] + Folded(s[1..], signed)
  }

  /** Titles tie exactly when they differ in nothing but the case of their letters. */
  lemma {:induction false} TieExactly(a: seq<Byte>, b: seq<Byte>, signed: bool)
    ensures TitleCmp(a, b, signed) == 0 <==> Folded(a, signed) == Folded(b, signed)
    decreases |a|
  {
    if Head(a) != 0 && Head(b) != 0 {
      TieExactly(a[1..], b[1..], signed);
      assert Folded(a, signed)[1..] == Folded(a[1..], signed) && Folded(b, signed)[1..] == Folded(b[1..], signed);
    }
  }

  // ---- the order, told without the comparison -----------------------------------------------

  /** Where the title ends as a C string. */
  predicate EndsAt(s: seq<Byte>, n: nat)
  {
    n <= |s| && (forall k :: 0 <= k < n ==> s[k] != 0) && (n < |s| ==> s[n] == 0)
  }

  /** What is compared is each byte up to the terminator, a to z as A to Z and everything else as it is. */
  lemma {:induction false} FoldedIs(s: seq<Byte>, n: nat, signed: bool)
    requires EndsAt(s, n)
    ensures |Folded(s, signed)| == n
    ensures forall k :: 0 <= k < n ==>
      var c: int := s[k];
      Folded(s, signed)[k] == if 0x61 <= c <= 0x7A then c - 32 else if signed && c >= 128 then c - 256 else c
    decreases n
  {
    if n > 0 {
      FoldedIs(s[1..], n - 1, signed);
    }
  }

  /** At the first place where they differ, the first is the smaller. */
  predicate Precedes(x: seq<int>, y: seq<int>)
  {
    exists k :: 0 <= k < |x| && k < |y| && x[..k] == y[..k] && x[k] < y[k]
  }

  /** Title `a` comes before title `b` in the alphabet: case aside, and a title before those it begins. */
  predicate Before(a: seq<Byte>, b: seq<Byte>, signed: bool)
  {
    Precedes(Folded(a, signed) + [0], Folded(b, signed) + [0])
  }

  lemma PrecedesHead(x: seq<int>, y: seq<int>)
    requires x != [] && y != []
    ensures Precedes(x, y) <==> x[0] < y[0] || (x[0] == y[0] && Precedes(x[1..], y[1..]))
  {
    if x[0] < y[0] {
      assert x[..0] == y[..0];
    }
    if x[0] == y[0] && Precedes(x[1..], y[1..]) {
      var k :| 0 <= k < |x| - 1 && k < |y| - 1 && x[1..][..k] == y[1..][..k] && x[1..][k] < y[1..][k];
      assert x[..k + 1] == [x[0]] + x[1..][..k] && y[..k + 1] == [y[0]] + y[1..][..k];
    }
    if Precedes(x, y) && x[0] >= y[0] {
      var k :| 0 <= k < |x| && k < |y| && x[..k] == y[..k] && x[k] < y[k];
      assert k > 0 && x[..k][0] == y[..k][0];
      assert x[1..][..k - 1] == x[..k][1..] && y[1..][..k - 1] == y[..k][1..];
      assert x[1..][k - 1] < y[1..][k - 1];
    }
  }

  /** The comparison is negative exactly when the first title comes before the second. */
  lemma {:induction false} NegativeExactly(a: seq<Byte>, b: seq<Byte>, signed: bool)
    ensures TitleCmp(a, b, signed) < 0 <==> Before(a, b, signed)
    decreases |a|
  {
    hide Precedes;
    var x, y := Folded(a, signed) + [0], Folded(b, signed) + [0];
    PrecedesHead(x, y);
    if Head(a) != 0 && Head(b) != 0 {
      NegativeExactly(a[1..], b[1..], signed);
      assert x[1..] == Folded(a[1..], signed) + [0] && y[1..] == Folded(b[1..], signed) + [0];
    } else {
      NoneFirst(x[1..], y[1..], x == [0], y == [0]);
    }
  }

  /** Nothing precedes, or is preceded by, what has ended. */
  lemma NoneFirst(x: seq<int>, y: seq<int>, xOver: bool, yOver: bool)
    requires (xOver ==> x == []) && (yOver ==> y == []) && (xOver || yOver)
    ensures !Precedes(x, y)
  {
  }
}
