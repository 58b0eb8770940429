/** The album list: interned without duplicates, put in title order in place, and indexed by folder cluster. */
module Library {
  import opened Words
  import opened Arith
  import opened MergeSort

  const MAX_ALBUMS: nat := 1024
  const BUCKETS: nat := 512

  datatype Folder = Folder(name: seq<Byte>, clus: U32)

  // ---- permuting in place -------------------------------------------------------------------

  /** Each index below its length occurs, and none occurs twice. */
  predicate Permutation(p: seq<nat>)
  {
    (forall i :: 0 <= i < |p| ==> p[i] < |p|) && (forall i, j :: 0 <= i < j < |p| ==> p[i] != p[j])
  }

  /** What gathering `g` in the given order gives. */
  function Gather<T>(g: seq<T>, order: seq<nat>): (r: seq<T>)
    requires Permutation(order) && |g| == |order|
    ensures |r| == |g|
  {
    seq(|g|, k requires 0 <= k < |g| => g[order[k]])
  }

  /** Element `i` of `g` still has to go to place `t[i]` of `want`. */
  predicate Scatters<T(==)>(g: seq<T>, t: seq<nat>, want: seq<T>)
  {
    |g| == |t| == |want| && Permutation(t) && forall i :: 0 <= i < |g| ==> want[t[i]] == g[i]
  }

  /** Places already holding what they should. */
  function Fixed(t: seq<nat>): set<int>
  {
    set i | 0 <= i < |t| && t[i] == i
  }

  lemma FixedBound(t: seq<nat>)
    ensures |Fixed(t)| <= |t|
  {
    RangeSize(0, |t|, Fixed(t));
  }

  /** The places after a swap of `i` with the place it has to go to. */
  function Swapped(t: seq<nat>, i: nat): (r: seq<nat>)
    requires i < |t| && t[i] < |t|
    ensures |r| == |t|
  {
    t[i := t[t[i]]][t[i] := t[i]]
  }

  lemma SwappedPermutation(t: seq<nat>, i: nat)
    requires Permutation(t) && i < |t| && t[i] != i
    ensures Permutation(Swapped(t, i)) && t[t[i]] != t[i]
    ensures forall k :: 0 <= k < |t| && t[k] == k ==> Swapped(t, i)[k] == k
  {
  }

  lemma SwappedFixes(t: seq<nat>, i: nat)
    requires Permutation(t) && i < |t| && t[i] != i
    ensures |Fixed(Swapped(t, i))| > |Fixed(t)|
  {
    SwappedPermutation(t, i);
    var f, f', j := Fixed(t), Fixed(Swapped(t, i)), t[i] as int;
    assert j in f' && j !in f && f <= f';
    assert f' == f + {j} + (f' - f - {j});
  }

  /** A swap along the cycle keeps what is still to be done consistent, and settles one more place. */
  lemma SwapSettles<T>(g: seq<T>, t: seq<nat>, want: seq<T>, i: nat)
    requires Scatters(g, t, want) && i < |t| && t[i] != i
    ensures Scatters(g[i := g[t[i]]][t[i] := g[i]], Swapped(t, i), want)
  {
    SwappedPermutation(t, i);
    var j := t[i];
    var g', t' := g[i := g[j]][j := g[i]], Swapped(t, i);
    assert want[t[i]] == g[i] && want[t[j]] == g[j];
    forall k | 0 <= k < |g|
      ensures want[t'[k]] == g'[k]
    {
      if k != i && k != j {
        assert t'[k] == t[k] && g'[k] == g[k];
      }
    }
  }

  lemma IdentityScatters<T>(g: seq<T>, t: seq<nat>, want: seq<T>)
    requires Scatters(g, t, want) && forall i :: 0 <= i < |t| ==> t[i] == i
    ensures g == want
  {
    forall i | 0 <= i < |g|
      ensures g[i] == want[i]
    {
      assert want[t[i]] == g[i];
    }
  }

  /** `t` undoes `order`. */
  predicate Inverts(t: seq<nat>, order: seq<nat>, n: nat)
    requires n <= |order| == |t| && Permutation(order)
  {
    forall k :: 0 <= k < n ==> t[order[k]] == k
  }

  /** Every place is named by the order, so its inverse is a permutation too. */
  lemma InverseScatters<T>(g: seq<T>, t: seq<nat>, order: seq<nat>)
    requires |g| == |t| == |order| && Permutation(order) && Inverts(t, order, |order|)
    ensures Scatters(g, t, Gather(g, order))
  {
    forall i | 0 <= i < |t|
      ensures exists k :: 0 <= k < |t| && order[k] == i && t[i] == k
    {
      Onto(order, i);
      var k :| 0 <= k < |order| && order[k] == i;
      assert t[order[k]] == k;
    }
    assert Permutation(t);
    forall i | 0 <= i < |g|
      ensures Gather(g, order)[t[i]] == g[i]
    {
      var k :| 0 <= k < |t| && order[k] == i && t[i] == k;
    }
  }

  /** An injection of the first `n` numbers into themselves is onto. */
  lemma Onto(p: seq<nat>, x: nat)
    requires Permutation(p) && x < |p|
    ensures exists k :: 0 <= k < |p| && p[k] == x
  {
    var img := set k | 0 <= k < |p| :: p[k] as int;
    ImageSize(p, |p|, img);
    if x as int !in img {
      RangeSize(0, |p|, img + {x as int});
      assert false;
    }
  }

  lemma {:induction false} ImageSize(p: seq<nat>, n: nat, img: set<int>)
    requires Permutation(p) && n <= |p| && img == set k | 0 <= k < n :: p[k] as int
    ensures |img| == n
    decreases n
  {
    if n > 0 {
      var less := set k | 0 <= k < n - 1 :: p[k] as int;
      ImageSize(p, n - 1, less);
      assert img == less + {p[n - 1] as int};
      assert p[n - 1] as int !in less;
    }
  }

  /** Invert the order into the scratch array. */
  method Invert(order: array<nat>, t: array<nat>, n: nat)
    requires order != t && n <= order.Length && n <= t.Length && Permutation(order[..n])
    modifies t
    ensures Inverts(t[..n], order[..n], n)
  {
    var k := 0;
    while k < n
      invariant k <= n && Inverts(t[..n], order[..n], k)
    {
      assert order[..n][k] == order[k];
      assert forall m :: 0 <= m < k ==> order[..n][m] != order[k];
      t[order[k]] := k;
      k := k + 1;
    }
  }

  /** Follow the cycles, swapping folders and the places they have to go to together. */
  method ApplyCycles(g: array<Folder>, t: array<nat>, n: nat, ghost want: seq<Folder>)
    requires n <= g.Length && n <= t.Length && Scatters(g[..n], t[..n], want)
    modifies g, t
    ensures g[..n] == want && g[n..] == old(g[n..])
  {
    var i := 0;
    while i < n
      invariant i <= n && Scatters(g[..n], t[..n], want) && g[n..] == old(g[n..])
      invariant forall k :: 0 <= k < i ==> t[..n][k] == k
    {
      while t[i] != i
        invariant Scatters(g[..n], t[..n], want) && g[n..] == old(g[n..])
        invariant forall k :: 0 <= k < i ==> t[..n][k] == k
        decreases n - |Fixed(t[..n])|
      {
        Swap(g, t, n, i, want);
      }
      i := i + 1;
    }
    IdentityScatters(g[..n], t[..n], want);
  }

  method Swap(g: array<Folder>, t: array<nat>, n: nat, i: nat, ghost want: seq<Folder>)
    requires i < n <= g.Length && n <= t.Length && Scatters(g[..n], t[..n], want) && t[i] != i
    modifies g, t
    ensures Scatters(g[..n], t[..n], want) && g[n..] == old(g[n..])
    ensures |old(Fixed(t[..n]))| < |Fixed(t[..n])| <= n
    ensures forall k :: 0 <= k < n && old(t[..n])[k] == k ==> t[..n][k] == k
  {
    ghost var gs, ts := g[..n], t[..n];
    assert ts[i] == t[i];
    SwapSettles(gs, ts, want, i);
    SwappedPermutation(ts, i);
    SwappedFixes(ts, i);
    var j := t[i];
    assert ts[j] == t[j] && gs[i] == g[i] && gs[j] == g[j];
    g[i], g[j] := g[j], g[i];
    t[i], t[j] := t[j], t[i];
    assert g[..n] == gs[i := gs[j]][j := gs[i]];
    assert t[..n] == Swapped(ts, i);
    FixedBound(t[..n]);
  }

  // ---- sorting the list -----------------------------------------------------------------------

  function Identity(n: nat): (r: seq<nat>)
    ensures |r| == n
  {
    seq(n, i requires 0 <= i < n => i)
  }

  lemma {:induction false} CountInIdentity(n: nat, x: nat)
    ensures multiset(Identity(n))[x] == if x < n then 1 else 0
    decreases n
  {
    if n == 0 {
      assert Identity(0) == [];
    } else {
      CountInIdentity(n - 1, x);
      assert Identity(n) == Identity(n - 1) + [n - 1];
    }
  }

  lemma CountTwice(s: seq<nat>, i: nat, j: nat)
    requires i < j < |s| && s[i] == s[j]
    ensures multiset(s)[s[i]] >= 2
  {
    var a, b := s[..j], s[j..];
    assert s == a + b;
    assert a[i] in multiset(a) && b[0] in multiset(b);
    assert multiset(s) == multiset(a) + multiset(b);
  }

  /** Whatever the sort makes of the identity is a permutation. */
  lemma SortedIsPermutation(order: seq<nat>, n: nat)
    requires |order| == n && multiset(order) == multiset(Identity(n))
    ensures Permutation(order)
  {
    forall i | 0 <= i < n
      ensures order[i] < n
    {
      assert order[i] in multiset(order);
      CountInIdentity(n, order[i]);
    }
    forall i, j | 0 <= i < j < n
      ensures order[i] != order[j]
    {
      if order[i] == order[j] {
        CountTwice(order, i, j);
        CountInIdentity(n, order[i]);
        assert false;
      }
    }
  }

  /** Elements that tie come out in increasing order of where they stood. */
  predicate Increasing(s: seq<nat>)
  {
    forall i, j :: 0 <= i < j < |s| ==> s[i] < s[j]
  }

  lemma {:induction false} TiesFrom(s: seq<nat>, e: nat, cmp: Compare, b: nat)
    requires b < |Ties(s, e, cmp)|
    ensures exists k :: 0 <= k < |s| && s[k] == Ties(s, e, cmp)[b]
    decreases |s|
  {
    var rest := Ties(s[1..], e, cmp);
    var d := |Ties(s, e, cmp)| - |rest|;
    if b >= d {
      TiesFrom(s[1..], e, cmp, b - d);
      var k :| 0 <= k < |s| - 1 && s[1..][k] == rest[b - d];
      assert s[k + 1] == Ties(s, e, cmp)[b];
    } else {
      assert s[0] == Ties(s, e, cmp)[b];
    }
  }

  lemma {:induction false} TiesOfIncreasing(s: seq<nat>, e: nat, cmp: Compare)
    requires Increasing(s)
    ensures Increasing(Ties(s, e, cmp))
    decreases |s|
  {
    if s != [] {
      TiesOfIncreasing(s[1..], e, cmp);
      var rest, t := Ties(s[1..], e, cmp), Ties(s, e, cmp);
      forall j | 0 <= j < |rest|
        ensures s[0] < rest[j]
      {
        TiesFrom(s[1..], e, cmp, j);
        var k :| 0 <= k < |s| - 1 && s[1..][k] == rest[j];
        assert s[k + 1] == rest[j];
      }
    }
  }

  lemma {:induction false} TiesHolds(s: seq<nat>, i: nat, j: nat, e: nat, cmp: Compare)
    requires i < j < |s| && cmp(s[i], e) <= 0 && cmp(e, s[i]) <= 0 && cmp(s[j], e) <= 0 && cmp(e, s[j]) <= 0
    ensures exists a, b :: 0 <= a < b < |Ties(s, e, cmp)| && Ties(s, e, cmp)[a] == s[i] && Ties(s, e, cmp)[b] == s[j]
    decreases |s|
  {
    var rest := Ties(s[1..], e, cmp);
    var t := Ties(s, e, cmp);
    var d := |t| - |rest|;
    assert forall k :: 0 <= k < |rest| ==> t[k + d] == rest[k];
    if i > 0 {
      TiesHolds(s[1..], i - 1, j - 1, e, cmp);
      var a, b :| 0 <= a < b < |rest| && rest[a] == s[i] && rest[b] == s[j];
      assert t[a + d] == s[i] && t[b + d] == s[j];
    } else {
      TieIn(s[1..], j - 1, e, cmp);
      var b :| 0 <= b < |rest| && rest[b] == s[j];
      assert t[0] == s[0] && t[b + d] == s[j];
    }
  }

  lemma {:induction false} TieIn(s: seq<nat>, j: nat, e: nat, cmp: Compare)
    requires j < |s| && cmp(s[j], e) <= 0 && cmp(e, s[j]) <= 0
    ensures exists b :: 0 <= b < |Ties(s, e, cmp)| && Ties(s, e, cmp)[b] == s[j]
    decreases |s|
  {
    var rest := Ties(s[1..], e, cmp);
    var t := Ties(s, e, cmp);
    var d := |t| - |rest|;
    assert forall k :: 0 <= k < |rest| ==> t[k + d] == rest[k];
    if j > 0 {
      TieIn(s[1..], j - 1, e, cmp);
      var b :| 0 <= b < |rest| && rest[b] == s[j];
      assert t[b + d] == s[j];
    } else {
      assert t[0] == s[0];
    }
  }

  /** The order is stable: of two that tie, the one listed earlier comes first. */
  lemma StableOrder(order: seq<nat>, n: nat, cmp: Compare, i: nat, j: nat)
    requires TotalPreorder(cmp) && StablyPermuted(Identity(n), order, cmp) && i < j < |order|
    requires cmp(order[i], order[j]) <= 0 && cmp(order[j], order[i]) <= 0
    ensures order[i] < order[j]
  {
    var e := order[i];
    assert Increasing(Identity(n));
    TiesOfIncreasing(Identity(n), e, cmp);
    assert cmp(e, e) <= 0;
    TiesHolds(order, i, j, e, cmp);
    var a, b :| 0 <= a < b < |Ties(order, e, cmp)| && Ties(order, e, cmp)[a] == order[i] && Ties(order, e, cmp)[b] == order[j];
    assert Ties(order, e, cmp) == Ties(Identity(n), e, cmp);
  }

  /** `order` puts the first `n` folders in title order, ties in the order they were listed. */
  ghost predicate TitleOrder(order: seq<nat>, n: nat, cmp: Compare)
  {
    && |order| == n && Permutation(order) && Sorted(order, cmp)
    && forall i, j :: 0 <= i < j < n && cmp(order[j], order[i]) <= 0 ==> order[i] < order[j]
  }

  /** The title order of the folders, into `view`. */
  method OrderAlbums(view: array<nat>, tmp: array<nat>, cmp: Compare)
    requires view != tmp && view.Length <= tmp.Length && TotalPreorder(cmp)
    modifies view, tmp
    ensures TitleOrder(view[..], view.Length, cmp)
  {
    var i, n := 0, view.Length;
    while i < n
      invariant i <= n && forall k :: 0 <= k < i ==> view[k] == k
    {
      view[i] := i;
      i := i + 1;
    }
    assert view[..] == Identity(n);
    SortIndex(view, tmp, cmp);
    ghost var order := view[..];
    SortedIsPermutation(order, n);
    forall p, q | 0 <= p < q < n && cmp(order[q], order[p]) <= 0
      ensures order[p] < order[q]
    {
      StableOrder(order, n, cmp, p, q);
    }
  }

  /** Sort the first folders of the list in place, as many as `view` has room for. */
  method SortAlbums(g: array<Folder>, view: array<nat>, tmp: array<nat>, cmp: Compare)
    requires view != tmp && view.Length <= g.Length && view.Length <= tmp.Length && TotalPreorder(cmp)
    modifies g, view, tmp
    ensures var n := view.Length;
      TitleOrder(view[..], n, cmp) && g[..n] == Gather(old(g[..n]), view[..]) && g[n..] == old(g[n..])
  {
    var n := view.Length;
    OrderAlbums(view, tmp, cmp);
    ghost var order, was := view[..], g[..n];
    assert view[..n] == order;
    Invert(view, tmp, n);
    InverseScatters(was, tmp[..n], order);
    ApplyCycles(g, tmp, n, Gather(was, order));
  }
}
