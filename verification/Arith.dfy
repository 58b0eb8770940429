/** Non-linear facts the proofs need: masking with a power of two, division with remainder, ring positions. */
module Arith {
  import opened Words

  function Pow2(k: nat): (r: nat)
    ensures r >= 1
  {
    if k == 0 then 1 else 2 * Pow2(k - 1)
  }

  /** Bitwise AND of two non-negative integers. */
  function And(a: nat, b: nat): (r: nat)
    decreases a
  {
    if a == 0 || b == 0 then 0
    else (if a % 2 == 1 && b % 2 == 1 then 1 else 0) + 2 * And(a / 2, b / 2)
  }

  lemma {:induction false} MaskIsModulo(x: nat, k: nat)
    ensures And(x, Pow2(k) - 1) == x % Pow2(k)
    decreases k
  {
    if k > 0 {
      var m := Pow2(k - 1);
      MaskIsModulo(x / 2, k - 1);
      HalveModulo(x, m);
      AndOdd(x, m - 1);
    }
  }

  /** One bit of an AND against an odd mask. */
  lemma AndOdd(x: nat, h: nat)
    ensures And(x, 2 * h + 1) == x % 2 + 2 * And(x / 2, h)
  {
  }

  lemma MulMonotone(m: nat, x: int, y: int)
    requires x <= y
    ensures m * x <= m * y
  {
    assert m * (y - x) >= 0;
    assert m * (y - x) == m * y - m * x;
  }

  lemma MulStep(m: nat, x: int, y: int)
    requires x < y
    ensures m * x + m <= m * y
  {
    MulMonotone(m, x + 1, y);
    assert m * (x + 1) == m * x + m;
  }

  lemma DivBound(x: nat, y: nat, m: nat)
    requires m > 0 && x <= y / m
    ensures m * x <= y && x * m <= y
  {
    var q := y / m;
    assert y == m * q + y % m;
    MulMonotone(m, x, q);
  }

  lemma QuotientAtLeast(t: nat, m: nat, k: nat)
    requires m > 0
    ensures k <= t / m <==> k * m <= t
  {
    if k <= t / m {
      DivBound(k, t, m);
    } else {
      MulStep(m, t / m, k);
      assert t == m * (t / m) + t % m;
      assert m * k == k * m;
    }
  }

  /** Division with remainder has one answer. */
  lemma ModuloOf(x: int, m: nat, q: int, r: nat)
    requires m > 0 && x == m * q + r && r < m
    ensures x % m == r && x / m == q
  {
    var q', r' := x / m, x % m;
    assert x == m * q' + r';
    if q' > q {
      MulStep(m, q, q');
    } else if q' < q {
      MulStep(m, q', q);
    }
  }

  lemma HalveModulo(x: nat, m: nat)
    requires m > 0
    ensures x % (2 * m) == x % 2 + 2 * (x / 2 % m)
  {
    var h := x / 2;
    var q, r := h / m, h % m;
    assert h == m * q + r;
    assert 2 * (m * q) == (2 * m) * q;
    ModuloOf(x, 2 * m, q, x % 2 + 2 * r);
  }

  /** A power of two that fits a 32-bit word divides the whole 32-bit space. */
  lemma {:induction false} Pow2Divides(j: nat, k: nat)
    requires j <= k
    ensures Pow2(k) == Pow2(j) * Pow2(k - j)
    decreases k
  {
    if j == k {
      assert Pow2(0) == 1;
    } else {
      Pow2Divides(j, k - 1);
      calc {
        Pow2(k);
        2 * (Pow2(j) * Pow2(k - 1 - j));
        Pow2(j) * (2 * Pow2(k - 1 - j));
        Pow2(j) * Pow2(k - j);
      }
    }
  }

  lemma Pow2Is2To32()
    ensures Pow2(32) == TWO32
  {
    assert Pow2(8) == 256;
    Pow2Divides(8, 16);
    Pow2Divides(16, 32);
  }

  /** Masking a wrapped index picks the slot the unwrapped count would pick. */
  lemma WrappedIndex(count: nat, k: nat)
    requires k <= 32
    ensures And(Wrap32(count), Pow2(k) - 1) == Residue(count, Pow2(k))
  {
    Pow2Is2To32();
    Pow2Divides(k, 32);
    MaskIsModulo(Wrap32(count), k);
    ModuloOfMultiple(count, Pow2(k), Pow2(32 - k));
    ResidueIsModulo(count, Pow2(k));
  }

  /** Reducing first by a multiple of `m` does not change the residue modulo `m`. */
  lemma ModuloOfMultiple(x: nat, m: nat, n: nat)
    requires m > 0 && n > 0
    ensures m * n > 0 && (x % (m * n)) % m == x % m
  {
    MulMonotone(m, 1, n);
    var mn := m * n;
    var q, r := x / mn, x % mn;
    var s, t := r / m, r % m;
    assert x == mn * q + r && r == m * s + t;
    assert mn * q == m * (n * q);
    assert m * (n * q) + m * s == m * (n * q + s);
    ModuloOf(x, m, n * q + s, t);
  }

  /** The remainder of division by a ring size, by repeated subtraction. */
  function Residue(x: nat, m: nat): (r: nat)
    requires m > 0
    ensures r < m
    decreases x
  {
    if x < m then x else Residue(x - m, m)
  }

  lemma {:induction false} ResidueIsModulo(x: nat, m: nat)
    requires m > 0
    ensures Residue(x, m) == x % m
    decreases x
  {
    if x < m {
      ModuloOf(x, m, 0, x);
    } else {
      var y := x - m;
      ResidueIsModulo(y, m);
      var q := y / m;
      assert y == m * q + y % m;
      assert m * (q + 1) == m * q + m;
      ModuloOf(x, m, q + 1, y % m);
    }
  }

  /** Numbers less than a ring apart have different residues. */
  lemma {:induction false} ResiduesDistinct(x: nat, y: nat, m: nat)
    requires m > 0 && x < y < x + m
    ensures Residue(x, m) != Residue(y, m)
    decreases y
  {
    if x >= m {
      ResiduesDistinct(x - m, y - m, m);
    } else if y >= m {
      assert Residue(y, m) == y - m;
    }
  }

  /** Up to the ring's end, consecutive numbers have consecutive residues. */
  lemma {:induction false} ResidueRun(x: nat, i: nat, m: nat)
    requires m > 0 && Residue(x, m) + i < m
    ensures Residue(x + i, m) == Residue(x, m) + i
    decreases x
  {
    if x >= m {
      ResidueRun(x - m, i, m);
    }
  }

  /** A set of whole numbers from a range is no bigger than the range. */
  lemma {:induction false} RangeSize(lo: int, hi: int, s: set<int>)
    requires lo <= hi && forall x :: x in s ==> lo <= x < hi
    ensures |s| <= hi - lo
    decreases hi - lo
  {
    if lo < hi {
      RangeSize(lo, hi - 1, s - {hi - 1});
    } else {
      assert s == {};
    }
  }

  lemma SubsetSize(a: set<int>, b: set<int>)
    requires a <= b
    ensures |a| <= |b|
  {
    assert b == a + (b - a);
  }
}
