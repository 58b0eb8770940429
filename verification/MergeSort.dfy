/** The bottom-up merge sort over an index array: a stable sorted permutation under any total preorder. */
module MergeSort {
  import opened Words

  /** `cmp(a, b) <= 0` says that `a` may stand before `b`. */
  type Compare = (nat, nat) -> int

  ghost predicate TotalPreorder(cmp: Compare)
  {
    && (forall a, b :: cmp(a, b) <= 0 || cmp(b, a) <= 0)
    && (forall a, b, c :: cmp(a, b) <= 0 && cmp(b, c) <= 0 ==> cmp(a, c) <= 0)
  }

  lemma Transitive(a: nat, b: nat, c: nat, cmp: Compare)
    requires TotalPreorder(cmp)
    ensures cmp(a, b) <= 0 && cmp(b, c) <= 0 ==> cmp(a, c) <= 0
  {
  }

  predicate Sorted(s: seq<nat>, cmp: Compare)
  {
    forall i, j :: 0 <= i < j < |s| ==> cmp(s[i], s[j]) <= 0
  }

  /** The elements that compare equal to `e`, in the order they stand. */
  function Ties(s: seq<nat>, e: nat, cmp: Compare): seq<nat>
  {
    if s == [] then []
    else Tie(s[0], e, cmp) + Ties(s[1..], e, cmp)
  }

  /** Same elements, and elements that tie keep their order. */
  ghost predicate StablyPermuted(s: seq<nat>, t: seq<nat>, cmp: Compare)
  {
    multiset(s) == multiset(t) && forall e :: Ties(s, e, cmp) == Ties(t, e, cmp)
  }

  // ---- merging --------------------------------------------------------------------------

  /** On a tie the left run goes first. */
  function Merge(x: seq<nat>, y: seq<nat>, cmp: Compare): (r: seq<nat>)
    ensures |r| == |x| + |y|
    decreases |x| + |y|
  {
    if x == [] then y
    else if y == [] then x
    else if cmp(x[0], y[0]) <= 0 then [x[0]] + Merge(x[1..], y, cmp)
    else [y[0]] + Merge(x, y[1..], cmp)
  }

  lemma Cons(s: seq<nat>)
    requires s != []
    ensures multiset(s) == multiset{s[0]} + multiset(s[1..])
  {
    assert s == [s[0]] + s[1..];
  }

  lemma ConsTo(a: nat, s: seq<nat>)
    ensures multiset([a] + s) == multiset{a} + multiset(s)
  {
    Cons([a] + s);
    assert ([a] + s)[1..] == s;
  }

  lemma {:induction false} MergeElements(x: seq<nat>, y: seq<nat>, cmp: Compare)
    ensures multiset(Merge(x, y, cmp)) == multiset(x) + multiset(y)
    decreases |x| + |y|
  {
    if x != [] && y != [] {
      if cmp(x[0], y[0]) <= 0 {
        MergeElements(x[1..], y, cmp);
        ConsTo(x[0], Merge(x[1..], y, cmp));
        Cons(x);
      } else {
        MergeElements(x, y[1..], cmp);
        ConsTo(y[0], Merge(x, y[1..], cmp));
        Cons(y);
      }
    }
  }

  /** Everything in `s` may stand after `a`. */
  predicate After(a: nat, s: seq<nat>, cmp: Compare)
  {
    forall k :: 0 <= k < |s| ==> cmp(a, s[k]) <= 0
  }

  lemma {:induction false} MergeAfter(a: nat, x: seq<nat>, y: seq<nat>, cmp: Compare)
    requires After(a, x, cmp) && After(a, y, cmp)
    ensures After(a, Merge(x, y, cmp), cmp)
    decreases |x| + |y|
  {
    if x != [] && y != [] {
      if cmp(x[0], y[0]) <= 0 {
        MergeAfter(a, x[1..], y, cmp);
      } else {
        MergeAfter(a, x, y[1..], cmp);
      }
    }
  }

  /** A sorted run is its head and a sorted rest after it. */
  lemma SortedTail(s: seq<nat>, cmp: Compare)
    requires Sorted(s, cmp) && s != []
    ensures Sorted(s[1..], cmp) && After(s[0], s[1..], cmp)
  {
  }

  lemma SortedCons(a: nat, s: seq<nat>, cmp: Compare)
    requires Sorted(s, cmp) && After(a, s, cmp)
    ensures Sorted([a] + s, cmp)
  {
    var t := [a] + s;
    forall i, j | 0 <= i < j < |t|
      ensures cmp(t[i], t[j]) <= 0
    {
      assert t[j] == s[j - 1];
    }
  }

  /** What may stand after the head of a run may stand after anything that precedes that head. */
  lemma AfterHead(a: nat, s: seq<nat>, cmp: Compare)
    requires TotalPreorder(cmp) && Sorted(s, cmp) && s != [] && cmp(a, s[0]) <= 0
    ensures After(a, s, cmp)
  {
    forall k | 0 <= k < |s|
      ensures cmp(a, s[k]) <= 0
    {
      if k > 0 {
        Transitive(a, s[0], s[k], cmp);
      }
    }
  }

  lemma {:induction false} MergeSorts(x: seq<nat>, y: seq<nat>, cmp: Compare)
    requires TotalPreorder(cmp) && Sorted(x, cmp) && Sorted(y, cmp)
    ensures Sorted(Merge(x, y, cmp), cmp)
    decreases |x| + |y|
  {
    if x != [] && y != [] {
      if cmp(x[0], y[0]) <= 0 {
        SortedTail(x, cmp);
        MergeSorts(x[1..], y, cmp);
        AfterHead(x[0], y, cmp);
        MergeAfter(x[0], x[1..], y, cmp);
        SortedCons(x[0], Merge(x[1..], y, cmp), cmp);
      } else {
        SortedTail(y, cmp);
        MergeSorts(x, y[1..], cmp);
        AfterHead(y[0], x, cmp);
        MergeAfter(y[0], x, y[1..], cmp);
        SortedCons(y[0], Merge(x, y[1..], cmp), cmp);
      }
    }
  }

  /** Nothing after something that exceeds `e` ties with `e`. */
  lemma {:induction false} NoTies(s: seq<nat>, a: nat, e: nat, cmp: Compare)
    requires TotalPreorder(cmp) && After(a, s, cmp) && cmp(a, e) > 0
    ensures Ties(s, e, cmp) == []
    decreases |s|
  {
    if s != [] {
      assert cmp(a, s[0]) <= 0;
      NoTies(s[1..], a, e, cmp);
    }
  }

  /** `a` itself, if it ties with `e`. */
  function Tie(a: nat, e: nat, cmp: Compare): seq<nat>
  {
    if cmp(a, e) <= 0 && cmp(e, a) <= 0 then [a] else []
  }

  lemma TiesCons(a: nat, s: seq<nat>, e: nat, cmp: Compare)
    ensures Ties([a] + s, e, cmp) == Tie(a, e, cmp) + Ties(s, e, cmp)
  {
    assert ([a] + s)[1..] == s;
  }

  /** If the head of `y` ties with `e` and must go before all of `x`, nothing in `x` ties with `e`. */
  lemma NothingBefore(x: seq<nat>, b: nat, e: nat, cmp: Compare)
    requires TotalPreorder(cmp) && Sorted(x, cmp) && x != [] && cmp(x[0], b) > 0
    ensures Tie(b, e, cmp) + Ties(x, e, cmp) == Ties(x, e, cmp) + Tie(b, e, cmp)
  {
    Transitive(x[0], e, b, cmp);
    if Tie(b, e, cmp) != [] {
      NoTies(x, x[0], e, cmp);
    }
  }

  lemma Rotate(t: seq<nat>, x: seq<nat>, y: seq<nat>)
    requires t + x == x + t
    ensures t + (x + y) == x + (t + y)
  {
    assert t + (x + y) == (t + x) + y;
    assert (x + t) + y == x + (t + y);
  }

  lemma TiesHead(s: seq<nat>, e: nat, cmp: Compare)
    requires s != []
    ensures Ties(s, e, cmp) == Tie(s[0], e, cmp) + Ties(s[1..], e, cmp)
  {
  }

  lemma {:induction false} MergeStable(x: seq<nat>, y: seq<nat>, e: nat, cmp: Compare)
    requires TotalPreorder(cmp) && Sorted(x, cmp) && Sorted(y, cmp)
    ensures Ties(Merge(x, y, cmp), e, cmp) == Ties(x, e, cmp) + Ties(y, e, cmp)
    decreases |x| + |y|
  {
    if x != [] && y != [] {
      if cmp(x[0], y[0]) <= 0 {
        SortedTail(x, cmp);
        MergeStable(x[1..], y, e, cmp);
        TiesCons(x[0], Merge(x[1..], y, cmp), e, cmp);
        TiesHead(x, e, cmp);
      } else {
        SortedTail(y, cmp);
        MergeStable(x, y[1..], e, cmp);
        TiesCons(y[0], Merge(x, y[1..], cmp), e, cmp);
        TiesHead(y, e, cmp);
        NothingBefore(x, y[0], e, cmp);
        Rotate(Tie(y[0], e, cmp), Ties(x, e, cmp), Ties(y[1..], e, cmp));
      }
    }
  }

  // ---- one pass -----------------------------------------------------------------------------

  /** Every run of `w` elements is sorted, the last one possibly shorter. */
  predicate Runs(s: seq<nat>, w: nat, cmp: Compare)
    requires w > 0
    decreases |s|
  {
    Sorted(s[..Min(w, |s|)], cmp) && (|s| > w ==> Runs(s[w..], w, cmp))
  }

  /** Each pair of neighbouring runs merged. */
  function Pass(s: seq<nat>, w: nat, cmp: Compare): (r: seq<nat>)
    requires w > 0
    ensures |r| == |s|
    decreases |s|
  {
    if s == [] then []
    else
      var mid, hi := Min(w, |s|), Min(2 * w, |s|);
      Merge(s[..mid], s[mid..hi], cmp) + Pass(s[hi..], w, cmp)
  }

  lemma {:induction false} TiesConcat(s: seq<nat>, t: seq<nat>, e: nat, cmp: Compare)
    ensures Ties(s + t, e, cmp) == Ties(s, e, cmp) + Ties(t, e, cmp)
    decreases |s|
  {
    if s == [] {
      assert s + t == t;
    } else {
      assert (s + t)[1..] == s[1..] + t;
      TiesConcat(s[1..], t, e, cmp);
    }
  }

  lemma DropTake<T>(s: seq<T>, a: nat, n: nat)
    requires a + n <= |s|
    ensures s[a..][..n] == s[a..a + n] && s[a..][n..] == s[a + n..]
  {
  }

  lemma EmptyRuns(w: nat, cmp: Compare)
    requires w > 0
    ensures Runs([], w, cmp) && Sorted([], cmp)
  {
  }

  lemma RunsParts(s: seq<nat>, w: nat, cmp: Compare)
    requires w > 0 && Runs(s, w, cmp) && s != []
    ensures var mid, hi := Min(w, |s|), Min(2 * w, |s|);
      Sorted(s[..mid], cmp) && Sorted(s[mid..hi], cmp) && Runs(s[hi..], w, cmp)
  {
    var mid, hi := Min(w, |s|), Min(2 * w, |s|);
    EmptyRuns(w, cmp);
    if |s| <= w {
      assert s[mid..hi] == [] && s[hi..] == [];
    } else {
      var rest := s[w..];
      var n := hi - mid;
      DropTake(s, w, n);
      assert n == Min(w, |rest|);
      assert rest[..n] == s[mid..hi] && rest[n..] == s[hi..];
      if |rest| <= w {
        assert s[hi..] == [];
      }
    }
  }

  lemma ThreeTies(x: seq<nat>, y: seq<nat>, z: seq<nat>, e: nat, cmp: Compare)
    ensures Ties(x + y + z, e, cmp) == Ties(x, e, cmp) + Ties(y, e, cmp) + Ties(z, e, cmp)
  {
    TiesConcat(x + y, z, e, cmp);
    TiesConcat(x, y, e, cmp);
  }

  lemma {:induction false} PassMerges(s: seq<nat>, w: nat, cmp: Compare)
    requires w > 0 && TotalPreorder(cmp) && Runs(s, w, cmp)
    ensures Runs(Pass(s, w, cmp), 2 * w, cmp)
    decreases |s|
  {
    if s != [] {
      RunsParts(s, w, cmp);
      var mid, hi := Min(w, |s|), Min(2 * w, |s|);
      var head, tail := Merge(s[..mid], s[mid..hi], cmp), Pass(s[hi..], w, cmp);
      MergeSorts(s[..mid], s[mid..hi], cmp);
      PassMerges(s[hi..], w, cmp);
      assert (head + tail)[..hi] == head;
      if |s| > 2 * w {
        assert (head + tail)[2 * w..] == tail;
      }
    }
  }

  lemma {:induction false} PassElements(s: seq<nat>, w: nat, cmp: Compare)
    requires w > 0
    ensures multiset(Pass(s, w, cmp)) == multiset(s)
    decreases |s|
  {
    if s != [] {
      var mid, hi := Min(w, |s|), Min(2 * w, |s|);
      MergeElements(s[..mid], s[mid..hi], cmp);
      PassElements(s[hi..], w, cmp);
      ThreeParts(s, mid, hi);
      assert multiset(s[..mid] + s[mid..hi]) == multiset(s[..mid]) + multiset(s[mid..hi]);
      assert multiset(s[..hi] + s[hi..]) == multiset(s[..hi]) + multiset(s[hi..]);
    }
  }

  lemma {:induction false} PassStable(s: seq<nat>, w: nat, e: nat, cmp: Compare)
    requires w > 0 && TotalPreorder(cmp) && Runs(s, w, cmp)
    ensures Ties(Pass(s, w, cmp), e, cmp) == Ties(s, e, cmp)
    decreases |s|
  {
    if s != [] {
      RunsParts(s, w, cmp);
      var mid, hi := Min(w, |s|), Min(2 * w, |s|);
      MergeStable(s[..mid], s[mid..hi], e, cmp);
      PassStable(s[hi..], w, e, cmp);
      TiesConcat(Merge(s[..mid], s[mid..hi], cmp), Pass(s[hi..], w, cmp), e, cmp);
      ThreeTies(s[..mid], s[mid..hi], s[hi..], e, cmp);
      ThreeParts(s, mid, hi);
    }
  }

  lemma PassPermutes(s: seq<nat>, w: nat, cmp: Compare)
    requires w > 0 && TotalPreorder(cmp) && Runs(s, w, cmp)
    ensures StablyPermuted(s, Pass(s, w, cmp), cmp)
  {
    PassElements(s, w, cmp);
    forall e: nat
      ensures Ties(s, e, cmp) == Ties(Pass(s, w, cmp), e, cmp)
    {
      PassStable(s, w, e, cmp);
    }
  }

  lemma {:induction false} SingleRuns(s: seq<nat>, cmp: Compare)
    ensures Runs(s, 1, cmp)
    decreases |s|
  {
    if |s| > 1 {
      SingleRuns(s[1..], cmp);
    }
  }

  // ---- the loops --------------------------------------------------------------------------

  lemma Head(s: seq<nat>, i: nat, m: nat)
    requires i < m <= |s|
    ensures s[i..m] != [] && s[i..m][0] == s[i] && s[i..m][1..] == s[i + 1..m]
  {
  }

  /** Taking the merge's first element off it. */
  lemma MergeHead(done: seq<nat>, x: seq<nat>, y: seq<nat>, cmp: Compare)
    requires x != [] || y != []
    ensures var left := y == [] || (x != [] && cmp(x[0], y[0]) <= 0);
      done + Merge(x, y, cmp) == done + [if left then x[0] else y[0]]
                                 + (if left then Merge(x[1..], y, cmp) else Merge(x, y[1..], cmp))
  {
    if x == [] {
      assert Merge(x, y[1..], cmp) == y[1..];
      assert y == [y[0]] + y[1..];
    } else if y == [] {
      assert Merge(x[1..], y, cmp) == x[1..];
      assert x == [x[0]] + x[1..];
    }
  }

  /** Write the next merged element, out of the left run when `left`. */
  method Emit(a: array<nat>, tmp: array<nat>, i: nat, mid: nat, j: nat, hi: nat, k: nat, left: bool, cmp: Compare)
    requires a != tmp && i <= mid <= j <= hi <= a.Length && k < tmp.Length && k == i + j - mid
    requires left ==> i < mid && (j < hi ==> cmp(a[i], a[j]) <= 0)
    requires !left ==> j < hi && (i < mid ==> cmp(a[i], a[j]) > 0)
    modifies tmp
    ensures old(tmp[..k]) + Merge(a[i..mid], a[j..hi], cmp)
            == tmp[..k + 1] + (if left then Merge(a[i + 1..mid], a[j..hi], cmp) else Merge(a[i..mid], a[j + 1..hi], cmp))
  {
    ghost var s, done := a[..], tmp[..k];
    if i < mid {
      Head(s, i, mid);
    }
    if j < hi {
      Head(s, j, hi);
    }
    MergeHead(done, s[i..mid], s[j..hi], cmp);
    tmp[k] := if left then a[i] else a[j];
    assert tmp[..k + 1] == done + [tmp[k]];
    assert s[i..mid] == a[i..mid] && s[j..hi] == a[j..hi];
    if left {
      assert s[i + 1..mid] == a[i + 1..mid];
    } else {
      assert s[j + 1..hi] == a[j + 1..hi];
    }
  }

  lemma MergeNothing(done: seq<nat>, cmp: Compare)
    ensures done + Merge([], [], cmp) == done
  {
  }

  /** One element moved: from the left run unless the right one's head must come first. */
  method Turn(a: array<nat>, tmp: array<nat>, i: nat, mid: nat, j: nat, hi: nat, cmp: Compare, ghost want: seq<nat>)
    returns (i': nat, j': nat)
    requires a != tmp && i <= mid <= j <= hi <= a.Length <= tmp.Length && (i < mid || j < hi)
    requires tmp[..i + j - mid] + Merge(a[i..mid], a[j..hi], cmp) == want
    modifies tmp
    ensures i <= i' <= mid && j <= j' <= hi && i' + j' == i + j + 1 && (j == hi ==> j' == j) && (i == mid ==> i' == i)
    ensures tmp[..i' + j' - mid] + Merge(a[i'..mid], a[j'..hi], cmp) == want
  {
    var left := j == hi || (i < mid && cmp(a[i], a[j]) <= 0);
    Emit(a, tmp, i, mid, j, hi, i + j - mid, left, cmp);
    i', j' := if left then i + 1 else i, if left then j else j + 1;
  }

  /** Merge `a[lo..mid]` and `a[mid..hi]` into `tmp[lo..hi]`. */
  method MergeRuns(a: array<nat>, tmp: array<nat>, lo: nat, mid: nat, hi: nat, cmp: Compare)
    requires a != tmp && lo <= mid <= hi <= a.Length <= tmp.Length
    modifies tmp
    ensures tmp[..hi] == old(tmp[..lo]) + Merge(a[lo..mid], a[mid..hi], cmp)
  {
    var i, j := lo, mid;
    ghost var want := tmp[..lo] + Merge(a[lo..mid], a[mid..hi], cmp);
    while i < mid && j < hi
      invariant lo <= i <= mid <= j <= hi
      invariant tmp[..i + j - mid] + Merge(a[i..mid], a[j..hi], cmp) == want
      decreases mid - i + hi - j
    {
      i, j := Turn(a, tmp, i, mid, j, hi, cmp, want);
    }
    CopyRest(a, tmp, i, mid, j, hi, cmp, want);
  }

  /** One run is used up; the rest of the other follows. */
  method CopyRest(a: array<nat>, tmp: array<nat>, i0: nat, mid: nat, j0: nat, hi: nat, cmp: Compare, ghost want: seq<nat>)
    requires a != tmp && i0 <= mid <= j0 <= hi <= a.Length <= tmp.Length && (i0 == mid || j0 == hi)
    requires tmp[..i0 + j0 - mid] + Merge(a[i0..mid], a[j0..hi], cmp) == want
    modifies tmp
    ensures tmp[..hi] == want
  {
    var i, j := i0, j0;
    while i < mid
      invariant i0 <= i <= mid && (i < mid ==> j == hi) && mid <= j <= hi
      invariant tmp[..i + j - mid] + Merge(a[i..mid], a[j..hi], cmp) == want
    {
      i, j := Turn(a, tmp, i, mid, j, hi, cmp, want);
    }
    while j < hi
      invariant i == mid <= j <= hi
      invariant tmp[..j] + Merge(a[i..mid], a[j..hi], cmp) == want
    {
      i, j := Turn(a, tmp, i, mid, j, hi, cmp, want);
    }
    assert a[mid..mid] == [] && a[hi..hi] == [];
    MergeNothing(tmp[..hi], cmp);
  }

  /** A pass done up to `lo`: the next pair merged brings it up to `hi`. */
  lemma PassStep(done: seq<nat>, s: seq<nat>, lo: nat, w: nat, cmp: Compare)
    requires w > 0 && lo < |s|
    ensures var mid, hi := Min(lo + w, |s|), Min(lo + 2 * w, |s|);
      done + Pass(s[lo..], w, cmp) == done + Merge(s[lo..mid], s[mid..hi], cmp) + Pass(s[hi..], w, cmp)
  {
    hide Pass, Merge;
    var mid, hi := Min(lo + w, |s|), Min(lo + 2 * w, |s|);
    RestParts(s, lo, mid, hi);
    PassFirst(s[lo..], w, cmp);
    Regroup(done, Merge(s[lo..mid], s[mid..hi], cmp), Pass(s[hi..], w, cmp));
  }

  lemma Regroup(x: seq<nat>, y: seq<nat>, z: seq<nat>)
    ensures x + (y + z) == x + y + z
  {
  }

  lemma RestParts<T>(s: seq<T>, lo: nat, mid: nat, hi: nat)
    requires lo <= mid <= hi <= |s|
    ensures s[lo..][..mid - lo] == s[lo..mid] && s[lo..][mid - lo..hi - lo] == s[mid..hi] && s[lo..][hi - lo..] == s[hi..]
  {
  }

  lemma PassFirst(rest: seq<nat>, w: nat, cmp: Compare)
    requires w > 0 && rest != []
    ensures var m, h := Min(w, |rest|), Min(2 * w, |rest|);
      Pass(rest, w, cmp) == Merge(rest[..m], rest[m..h], cmp) + Pass(rest[h..], w, cmp)
  {
  }

  /** One pass over the whole array, through the scratch array and back. */
  method MergePass(a: array<nat>, tmp: array<nat>, width: nat, cmp: Compare)
    requires a != tmp && a.Length <= tmp.Length && width > 0
    modifies a, tmp
    ensures a[..] == Pass(old(a[..]), width, cmp)
  {
    var n, lo := a.Length, 0;
    ghost var s := a[..];
    assert s[0..] == s && tmp[..0] == [];
    while lo < n
      invariant lo <= n && a[..] == s
      invariant tmp[..lo] + Pass(s[lo..], width, cmp) == Pass(s, width, cmp)
      decreases n - lo
    {
      var mid, hi := Min(lo + width, n), Min(lo + 2 * width, n);
      PassStep(tmp[..lo], s, lo, width, cmp);
      assert a[lo..mid] == s[lo..mid] && a[mid..hi] == s[mid..hi];
      MergeRuns(a, tmp, lo, mid, hi, cmp);
      lo := hi;
    }
    assert s[n..] == [];
    assert tmp[..n] == Pass(s, width, cmp);
    CopyBack(a, tmp);
  }

  method CopyBack(a: array<nat>, tmp: array<nat>)
    requires a != tmp && a.Length <= tmp.Length
    modifies a
    ensures a[..] == tmp[..a.Length]
  {
    var i := 0;
    while i < a.Length
      invariant i <= a.Length && a[..i] == tmp[..i]
    {
      a[i] := tmp[i];
      i := i + 1;
    }
  }

  /** The sort: run widths double until one run is the whole array. */
  method SortIndex(a: array<nat>, tmp: array<nat>, cmp: Compare)
    requires a != tmp && a.Length <= tmp.Length && TotalPreorder(cmp)
    modifies a, tmp
    ensures Sorted(a[..], cmp) && StablyPermuted(old(a[..]), a[..], cmp)
  {
    var width := 1;
    SingleRuns(a[..], cmp);
    while width < a.Length
      invariant width >= 1 && Runs(a[..], width, cmp) && StablyPermuted(old(a[..]), a[..], cmp)
    {
      PassMerges(a[..], width, cmp);
      PassPermutes(a[..], width, cmp);
      MergePass(a, tmp, width, cmp);
      width := width * 2;
    }
    assert a[..][..a.Length] == a[..];
  }
}
