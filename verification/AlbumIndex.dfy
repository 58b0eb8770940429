/** The album list as it is built, sorted and looked up; the hashed lookup agrees with the linear one. */
module AlbumIndex {
  import opened Words
  import opened Arith
  import opened MergeSort
  import opened Library
  import opened Titles

  const NAME_MAX: nat := 64

  // ---- the list -------------------------------------------------------------------------------

  /** The first folder of the list with this cluster, or -1. */
  function First(list: seq<Folder>, dc: U32, i: nat): (r: int)
    requires i <= |list|
    ensures r == -1 || (i <= r < |list| && list[r].clus == dc)
    ensures forall k :: i <= k < (if r < 0 then |list| else r) ==> list[k].clus != dc
    decreases |list| - i
  {
    if i == |list| then -1 else if list[i].clus == dc then i else First(list, dc, i + 1)
  }

  /** The last one. */
  function Last(list: seq<Folder>, dc: U32): (r: int)
    ensures r == -1 || (0 <= r < |list| && list[r].clus == dc)
    ensures forall k :: r < k < |list| ==> list[k].clus != dc
  {
    if list == [] then -1
    else if list[|list| - 1].clus == dc then |list| - 1
    else Last(list[..|list| - 1], dc)
  }

  /** No two folders share a cluster. */
  predicate Unique(list: seq<Folder>)
  {
    forall i, j :: 0 <= i < j < |list| ==> list[i].clus != list[j].clus
  }

  /** The two searches agree on every cluster exactly when clusters are unique. */
  lemma SearchesAgree(list: seq<Folder>)
    ensures Unique(list) <==> forall dc: U32 :: First(list, dc, 0) == Last(list, dc)
  {
    if !Unique(list) {
      var i, j :| 0 <= i < j < |list| && list[i].clus == list[j].clus;
      assert First(list, list[i].clus, 0) <= i && Last(list, list[i].clus) >= j;
    }
  }

  function UpTo(name: seq<Byte>, n: nat): seq<Byte>
  {
    if name == [] || name[0] == 0 || n == 0 then [] else [name[0]] + UpTo(name[1..], n - 1)
  }

  /** The list with a folder added, unless it is no folder, already there, or there is no room. */
  function Interned(list: seq<Folder>, name: seq<Byte>, clus: U32): seq<Folder>
  {
    if clus == 0 || First(list, clus, 0) >= 0 || |list| >= MAX_ALBUMS then list
    else list + [Folder(UpTo(name, NAME_MAX), clus)]
  }

  lemma {:induction false} UpToIs(name: seq<Byte>, n: nat)
    requires forall k :: 0 <= k < |name| ==> name[k] != 0
    ensures UpTo(name, n) == name[..Min(n, |name|)] && UpTo(name + [0], n) == name[..Min(n, |name|)]
    decreases |name|
  {
    if name != [] && n > 0 {
      assert (name + [0])[1..] == name[1..] + [0];
      UpToIs(name[1..], n - 1);
    }
  }

  /** A folder not yet listed is listed last, under its name, or the first 64 bytes of it. */
  lemma InternedLast(list: seq<Folder>, name: seq<Byte>, clus: U32)
    requires clus != 0 && |list| < MAX_ALBUMS && forall k :: 0 <= k < |name| ==> name[k] != 0
    requires forall k :: 0 <= k < |list| ==> list[k].clus != clus
    ensures Interned(list, name + [0], clus) == list + [Folder(name[..Min(64, |name|)], clus)]
  {
    UpToIs(name, 64);
  }

  lemma InternedUnique(list: seq<Folder>, name: seq<Byte>, clus: U32)
    requires Unique(list)
    ensures Unique(Interned(list, name, clus))
  {
  }

  lemma GatheredUnique(list: seq<Folder>, order: seq<nat>)
    requires Unique(list) && Permutation(order) && |list| == |order|
    ensures Unique(Gather(list, order))
  {
    var g := Gather(list, order);
    forall i, j | 0 <= i < j < |g|
      ensures g[i].clus != g[j].clus
    {
      assert order[i] != order[j];
      assert if order[i] < order[j] then list[order[i]].clus != list[order[j]].clus
             else list[order[j]].clus != list[order[i]].clus;
    }
  }

  // ---- the chains -------------------------------------------------------------------------------

  function Bucket(clus: U32): (b: nat)
  {
    And(clus, BUCKETS - 1)
  }

  lemma BucketBound(clus: U32)
    ensures Bucket(clus) < BUCKETS
  {
    assert Pow2(4) == 16;
    Pow2Divides(4, 9);
    assert Pow2(5) == 32;
    MaskIsModulo(clus, 9);
  }

  /** The indices a chain visits; a link of 0 ends it, and links lead downwards. */
  function Chain(next: seq<nat>, head: nat): seq<nat>
    decreases head
  {
    if head == 0 || head > |next| || next[head - 1] >= head then []
    else [head - 1] + Chain(next, next[head - 1])
  }

  /** The folders of one bucket among the first `n`, last first. */
  function InBucket(list: seq<Folder>, n: nat, b: nat): seq<nat>
    requires n <= |list|
  {
    if n == 0 then []
    else (if Bucket(list[n - 1].clus) == b then [n - 1] else []) + InBucket(list, n - 1, b)
  }

  predicate LinksDown(next: seq<nat>, n: nat)
    requires n <= |next|
  {
    forall i :: 0 <= i < n ==> next[i] <= i
  }

  ghost predicate Indexed(heads: seq<nat>, next: seq<nat>, list: seq<Folder>, n: nat)
    requires |heads| == BUCKETS && n <= |next| && n <= |list|
  {
    && LinksDown(next, n)
    && forall b :: 0 <= b < BUCKETS ==> heads[b] <= n && Chain(next, heads[b]) == InBucket(list, n, b)
  }

  lemma {:induction false} ChainFrame(next: seq<nat>, next': seq<nat>, n: nat, head: nat)
    requires n <= |next| && |next| == |next'| && head <= n && LinksDown(next, n)
    requires forall i :: 0 <= i < n ==> next'[i] == next[i]
    ensures Chain(next', head) == Chain(next, head)
    decreases head
  {
    if head > 0 {
      ChainFrame(next, next', n, next[head - 1]);
    }
  }

  /** Pushing folder `n` on the front of its bucket's chain extends the index to it. */
  lemma IndexGrows(heads: seq<nat>, next: seq<nat>, list: seq<Folder>, n: nat)
    requires |heads| == BUCKETS && n < |next| && n < |list| && Indexed(heads, next, list, n)
    ensures Bucket(list[n].clus) < BUCKETS
    ensures var b := Bucket(list[n].clus);
      Indexed(heads[b := n + 1], next[n := heads[b]], list, n + 1)
  {
    BucketBound(list[n].clus);
    var b := Bucket(list[n].clus);
    var heads', next' := heads[b := n + 1], next[n := heads[b]];
    forall c | 0 <= c < BUCKETS
      ensures heads'[c] <= n + 1 && Chain(next', heads'[c]) == InBucket(list, n + 1, c)
    {
      ChainFrame(next, next', n, heads[c]);
      if c == b {
        assert Chain(next', n + 1) == [n] + Chain(next', heads[b]);
      } else {
        assert InBucket(list, n + 1, c) == [] + InBucket(list, n, c);
      }
    }
    assert LinksDown(next', n + 1);
  }

  /** The first folder on a chain with the cluster, or -1. */
  function Search(chain: seq<nat>, list: seq<Folder>, dc: U32): int
    requires forall k :: 0 <= k < |chain| ==> chain[k] < |list|
  {
    if chain == [] then -1 else if list[chain[0]].clus == dc then chain[0] else Search(chain[1..], list, dc)
  }

  lemma {:induction false} InBucketBelow(list: seq<Folder>, n: nat, b: nat)
    requires n <= |list|
    ensures forall k :: 0 <= k < |InBucket(list, n, b)| ==> InBucket(list, n, b)[k] < n
    decreases n
  {
    if n > 0 {
      InBucketBelow(list, n - 1, b);
    }
  }

  /** Searching the cluster's bucket finds the last folder with it. */
  lemma {:induction false} BucketSearch(list: seq<Folder>, n: nat, dc: U32)
    requires n <= |list|
    ensures forall k :: 0 <= k < |InBucket(list, n, Bucket(dc))| ==> InBucket(list, n, Bucket(dc))[k] < |list|
    ensures Search(InBucket(list, n, Bucket(dc)), list, dc) == Last(list[..n], dc)
    decreases n
  {
    InBucketBelow(list, n, Bucket(dc));
    if n > 0 {
      BucketSearch(list, n - 1, dc);
      assert list[..n][..n - 1] == list[..n - 1];
      if Bucket(list[n - 1].clus) == Bucket(dc) {
        assert InBucket(list, n, Bucket(dc))[1..] == InBucket(list, n - 1, Bucket(dc));
      } else {
        assert InBucket(list, n, Bucket(dc)) == InBucket(list, n - 1, Bucket(dc));
      }
    }
  }

  // ---- the class ----------------------------------------------------------------------------------

  /** The title a folder is listed under, as cut out of its name. */
  type TitleOf = seq<Byte> -> seq<Byte>

  function At(list: seq<Folder>, i: nat): Folder
  {
    if i < |list| then list[i] else Folder([], 0)
  }

  /** At most 0 when folder `f` may come before `g`. */
  function FolderCmp(f: Folder, g: Folder, title: TitleOf, signed: bool): int
  {
    TitleCmp(title(f.name), title(g.name), signed)
  }

  function ByTitle(list: seq<Folder>, title: TitleOf, signed: bool): MergeSort.Compare
  {
    (a: nat, b: nat) => FolderCmp(At(list, a), At(list, b), title, signed)
  }

  /** Comparing titles is a total preorder, whatever is cut out of the names. */
  lemma ByTitlePreorder(list: seq<Folder>, title: TitleOf, signed: bool)
    ensures TotalPreorder(ByTitle(list, title, signed))
  {
    var c := ByTitle(list, title, signed);
    forall x: nat, y: nat, z: nat
      ensures c(x, y) <= 0 || c(y, x) <= 0
      ensures c(x, y) <= 0 && c(y, z) <= 0 ==> c(x, z) <= 0
    {
      var f, g, h := title(At(list, x).name), title(At(list, y).name), title(At(list, z).name);
      Opposite(f, g, signed);
      if TitleCmp(f, g, signed) <= 0 && TitleCmp(g, h, signed) <= 0 {
        Chained(f, g, h, signed);
      }
    }
  }

  class AlbumList {
    const albums: array<Folder>
    const heads: array<nat>
    const next: array<nat>
    var n: nat
    var truncated: bool
    var built: bool

    ghost predicate Valid()
      reads this, albums, heads, next
    {
      && albums.Length == MAX_ALBUMS && heads.Length == BUCKETS && next.Length == MAX_ALBUMS && heads != next
      && n <= MAX_ALBUMS && Unique(albums[..n])
      && (built ==> Indexed(heads[..], next[..], albums[..n], n))
    }

    constructor ()
      ensures Valid() && n == 0 && !built && fresh(albums) && fresh(heads) && fresh(next)
    {
      albums := new Folder[MAX_ALBUMS](i => Folder([], 0));
      heads, next := new nat[BUCKETS](i => 0), new nat[MAX_ALBUMS](i => 0);
      n, truncated, built := 0, false, false;
    }

    /** Add a folder while the list is being loaded. */
    method Intern(name: seq<Byte>, clus: U32)
      requires Valid() && !built
      modifies this, albums
      ensures Valid() && !built && albums[..n] == Interned(old(albums[..n]), name, clus)
      ensures truncated == (old(truncated) || (clus != 0 && First(old(albums[..n]), clus, 0) < 0 && old(n) == MAX_ALBUMS))
    {
      InternedUnique(albums[..n], name, clus);
      if clus == 0 {
        return;
      }
      var at := Linear(clus);
      if at >= 0 {
        return;
      }
      if n >= MAX_ALBUMS {
        truncated := true;
        return;
      }
      ghost var was := albums[..n];
      albums[n] := Folder(UpTo(name, NAME_MAX), clus);
      n := n + 1;
      assert albums[..n] == was + [albums[n - 1]];
    }

    /** The linear scan used before the index exists. */
    method Linear(dc: U32) returns (r: int)
      requires n <= albums.Length
      ensures r == First(albums[..n], dc, 0)
    {
      var i: nat := 0;
      while i < n
        invariant i <= n && First(albums[..n], dc, i) == First(albums[..n], dc, 0)
      {
        if albums[i].clus == dc {
          return i;
        }
        i := i + 1;
      }
      r := -1;
    }

    /** Every chain empty. */
    method ClearHeads()
      requires heads.Length == BUCKETS
      modifies heads
      ensures forall b :: 0 <= b < BUCKETS ==> heads[b] == 0
    {
      var i: nat := 0;
      while i < BUCKETS
        invariant i <= BUCKETS && forall b :: 0 <= b < i ==> heads[b] == 0
      {
        heads[i] := 0;
        i := i + 1;
      }
    }

    /** Rebuild the chains from scratch. */
    method BuildLookup()
      requires Valid()
      modifies `built, heads, next
      ensures Valid() && built
    {
      ClearHeads();
      var i: nat := 0;
      ghost var list := albums[..n];
      while i < n
        invariant i <= n && Indexed(heads[..], next[..], list, i)
      {
        IndexGrows(heads[..], next[..], list, i);
        ghost var h: seq<nat>, x: seq<nat> := heads[..], next[..];
        var b: nat := Bucket(albums[i].clus);
        next[i] := heads[b];
        heads[b] := i + 1;
        assert heads[..] == h[b := (i + 1) as nat] && next[..] == x[i := h[b]];
        i := i + 1;
      }
      built := true;
    }

    /** Sort the list by title, in place, and index it. */
    method Finish(view: array<nat>, tmp: array<nat>, title: TitleOf, signed: bool)
      requires Valid() && view.Length == n <= tmp.Length
      requires view != tmp && view != heads && view != next && tmp != heads && tmp != next
      modifies this, albums, heads, next, view, tmp
      ensures Valid() && built && n == old(n)
      ensures TitleOrder(view[..], n, ByTitle(old(albums[..n]), title, signed)) && albums[..n] == Gather(old(albums[..n]), view[..])
    {
      ghost var list := albums[..n];
      ByTitlePreorder(list, title, signed);
      SortAlbums(albums, view, tmp, ByTitle(albums[..n], title, signed));
      GatheredUnique(list, view[..]);
      built := false;
      BuildLookup();
    }

    /** The folder with this cluster: through the chains once they exist, by scan before. Either way, the same answer. */
    method ByCluster(dc: U32) returns (r: int)
      requires Valid()
      ensures r == First(albums[..n], dc, 0)
    {
      if !built {
        r := Linear(dc);
        return;
      }
      ghost var list, chain := albums[..n], InBucket(albums[..n], n, Bucket(dc));
      BucketBound(dc);
      BucketSearch(list, n, dc);
      SearchesAgree(list);
      assert list[..n] == list;
      var i: nat := heads[Bucket(dc)];
      while i != 0
        invariant i <= n && chain == Chain(next[..], i)
        invariant forall k :: 0 <= k < |chain| ==> chain[k] < n
        invariant Search(chain, list, dc) == Last(list, dc)
        decreases i
      {
        assert chain[0] == i - 1;
        if albums[i - 1].clus == dc {
          return i - 1;
        }
        chain := chain[1..];
        i := next[i - 1];
      }
      r := -1;
    }
  }

  /**
   * What title order means for the folders themselves: none comes before an earlier one in the
   * alphabet, and those whose titles differ in nothing but case stand as they were listed.
   */
  lemma SortedByTitle(list: seq<Folder>, order: seq<nat>, title: TitleOf, signed: bool, i: nat, j: nat)
    requires TitleOrder(order, |list|, ByTitle(list, title, signed)) && i < j < |list|
    ensures var g := Gather(list, order);
      && !Before(title(g[j].name), title(g[i].name), signed)
      && (Folded(title(g[i].name), signed) == Folded(title(g[j].name), signed) ==> order[i] < order[j])
  {
    var c := ByTitle(list, title, signed);
    assert c(order[i], order[j]) <= 0;
    assert order[i] < |order| && order[j] < |order|;
    assert At(list, order[i]) == list[order[i]] && At(list, order[j]) == list[order[j]];
    var s, t := title(list[order[i]].name), title(list[order[j]].name);
    Opposite(s, t, signed);
    NegativeExactly(t, s, signed);
    TieExactly(s, t, signed);
  }
}
