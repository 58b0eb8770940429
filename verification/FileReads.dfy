/**
 * What the reads add up to: on a chain that ends, every way of cutting a file into
 * reads and skips sees the same bytes and lands on the same cursor.
 */
module FileReads {
  import opened Words
  import opened Volume
  import opened Fat32
  import opened FatStream

  /** The bytes of a file of declared size `size` on a chain of `n` clusters. */
  function Content(image: seq<Byte>, g: Geo, first: U32, n: nat, size: nat): (r: seq<Byte>)
    requires OnDisk(image, g) && ChainOf(image, g, first, n)
  {
    var all := ChainBytes(image, g, first, n);
    all[..Min(size, |all|)]
  }

  /** No chain that ends is long enough to exhaust the guard of a read, a skip or a whole-file read. */
  lemma GuardNeverFires(image: seq<Byte>, g: Geo, first: U32, n: nat)
    requires OnDisk(image, g) && ChainOf(image, g, first, n)
    ensures !AllValid(image, g, first, g.maxClus - 1) && !AllValid(image, g, first, g.maxClus)
  {
    ChainBound(image, g, first, n);
    assert !ClusterValid(g, Nth(image, g, first, n));
  }

  /** Steps known to be valid lie within a chain of `n` clusters. */
  lemma WithinChain(image: seq<Byte>, g: Geo, first: U32, n: nat, m: nat)
    requires OnDisk(image, g) && ChainOf(image, g, first, n) && AllValid(image, g, first, m)
    ensures m <= n && ChainBytes(image, g, first, m) <= ChainBytes(image, g, first, n)
  {
    assert !ClusterValid(g, Nth(image, g, first, n));
    ChainBytesPrefix(image, g, first, m, n);
  }

  /** A cursor that cannot move has consumed the whole content. */
  lemma StuckAtEnd(image: seq<Byte>, g: Geo, first: U32, n: nat, size: nat,
                   index: nat, base: nat, clus: U32, off: nat, remaining: nat)
    requires OnDisk(image, g) && ChainOf(image, g, first, n)
    requires OnChain(image, g, first, size, index, base, clus, off, remaining)
    requires size - remaining == base + off && remaining <= size
    ensures base + off <= |Content(image, g, first, n, size)|
    ensures remaining == 0 || !ClusterValid(g, clus) ==> base + off == |Content(image, g, first, n, size)|
  {
    BehindCursor(image, g, first, n, size, index, base, clus, off, remaining);
    if size > 0 && !ClusterValid(g, clus) {
      ChainOver(image, g, first, n, index);
    }
  }

  /** What lies behind the cursor is within the chain. */
  lemma BehindCursor(image: seq<Byte>, g: Geo, first: U32, n: nat, size: nat,
                     index: nat, base: nat, clus: U32, off: nat, remaining: nat)
    requires OnDisk(image, g) && ChainOf(image, g, first, n)
    requires OnChain(image, g, first, size, index, base, clus, off, remaining)
    ensures base + off <= |ChainBytes(image, g, first, n)|
  {
    if off == 0 {
      LengthWithin(image, g, first, n, index);
    } else {
      StepWithin(image, g, first, n, index);
    }
  }

  lemma StepWithin(image: seq<Byte>, g: Geo, first: U32, n: nat, index: nat)
    requires OnDisk(image, g) && ChainOf(image, g, first, n) && AllValid(image, g, first, index)
    requires ClusterValid(g, Nth(image, g, first, index))
    ensures |ChainBytes(image, g, first, index)| + g.clusBytes <= |ChainBytes(image, g, first, n)|
  {
    NthSuccValid(image, g, first, index);
    ChainGrows(image, g, first, index);
    LengthWithin(image, g, first, n, index + 1);
  }

  lemma LengthWithin(image: seq<Byte>, g: Geo, first: U32, n: nat, m: nat)
    requires OnDisk(image, g) && ChainOf(image, g, first, n) && AllValid(image, g, first, m)
    ensures |ChainBytes(image, g, first, m)| <= |ChainBytes(image, g, first, n)|
  {
    WithinChain(image, g, first, n, m);
  }

  /** A cursor that can move has not. */
  lemma RoomAhead(image: seq<Byte>, g: Geo, first: U32, n: nat, size: nat,
                  index: nat, base: nat, clus: U32, off: nat, remaining: nat)
    requires OnDisk(image, g) && ChainOf(image, g, first, n)
    requires OnChain(image, g, first, size, index, base, clus, off, remaining)
    requires size - remaining == base + off && 0 < remaining <= size && ClusterValid(g, clus)
    ensures base + off < |Content(image, g, first, n, size)|
  {
    StepWithin(image, g, first, n, index);
  }

  /** A chain that falls short of the declared size still holds all of the cursor's cluster. */
  lemma ClusterAhead(image: seq<Byte>, g: Geo, first: U32, n: nat, size: nat,
                     index: nat, base: nat, clus: U32, off: nat, remaining: nat)
    requires OnDisk(image, g) && ChainOf(image, g, first, n)
    requires OnChain(image, g, first, size, index, base, clus, off, remaining)
    requires 0 < remaining <= size && ClusterValid(g, clus)
    ensures |Content(image, g, first, n, size)| < size ==> base + g.clusBytes <= |Content(image, g, first, n, size)|
  {
    StepWithin(image, g, first, n, index);
  }

  /** A step that is no valid cluster is the chain's end. */
  lemma ChainOver(image: seq<Byte>, g: Geo, first: U32, n: nat, index: nat)
    requires OnDisk(image, g) && ChainOf(image, g, first, n) && AllValid(image, g, first, index)
    requires !ClusterValid(g, Nth(image, g, first, index))
    ensures index == n
  {
    WithinChain(image, g, first, n, index);
  }

  /**
   * A successful read, from its contract: it returns the next bytes of the content,
   * as many as asked for or as are left.
   */
  lemma ReadIsNextBytes(image: seq<Byte>, g: Geo, first: U32, n: nat, size: nat, got: seq<Byte>, m: nat,
                        from: nat, len: nat, index: nat, base: nat, clus: U32, off: nat, remaining: nat)
    requires OnDisk(image, g) && ChainOf(image, g, first, n)
    requires Delivered(got, image, g, first, m, from) && |got| <= len
    requires OnChain(image, g, first, size, index, base, clus, off, remaining)
    requires size - remaining == base + off == from + |got| && remaining <= size
    requires |got| == len || remaining == 0 || !ClusterValid(g, clus)
    ensures var content := Content(image, g, first, n, size);
      && from <= |content| && |got| == Min(len, |content| - from)
      && got == content[from..from + |got|]
  {
    StuckAtEnd(image, g, first, n, size, index, base, clus, off, remaining);
    WithinChain(image, g, first, n, m);
    PrefixSlice(ChainBytes(image, g, first, m), ChainBytes(image, g, first, n), from, from + |got|);
  }

  /** A successful skip, from its contract, moves the cursor exactly as a read of `len` bytes would. */
  lemma SkipMovesLikeRead(image: seq<Byte>, g: Geo, first: U32, n: nat, size: nat, from: nat, done: nat, len: nat,
                          index: nat, base: nat, clus: U32, off: nat, remaining: nat)
    requires OnDisk(image, g) && ChainOf(image, g, first, n) && done <= len
    requires OnChain(image, g, first, size, index, base, clus, off, remaining)
    requires size - remaining == base + off == from + done && remaining <= size
    requires done == len || remaining == 0 || !ClusterValid(g, clus) || AllValid(image, g, first, g.maxClus)
    ensures from <= |Content(image, g, first, n, size)|
    ensures base + off == Moved(Content(image, g, first, n, size), from, len)
  {
    GuardNeverFires(image, g, first, n);
    StuckAtEnd(image, g, first, n, size, index, base, clus, off, remaining);
  }

  /** A successful whole-file read returns the whole content. */
  lemma ReadFileIsContent(image: seq<Byte>, g: Geo, first: U32, n: nat, size: nat, got: seq<Byte>, m: nat)
    requires OnDisk(image, g) && ChainOf(image, g, first, n)
    requires Delivered(got, image, g, first, m, 0) && |got| <= size
    requires |got| == size || (!ClusterValid(g, Nth(image, g, first, m))
                               && |got| == |ChainBytes(image, g, first, m)|)
    ensures got == Content(image, g, first, n, size)
  {
    WithinChain(image, g, first, n, m);
    if |got| != size {
      assert m == n;
    }
  }

  /** One position of the file has one cursor: clusters and offsets cannot disagree. */
  lemma CursorUnique(image: seq<Byte>, g: Geo, first: U32, size: nat, remaining: nat,
                     i: nat, b: nat, c: U32, o: nat, i': nat, b': nat, c': U32, o': nat)
    requires OnDisk(image, g) && size < TWO32
    requires OnChain(image, g, first, size, i, b, c, o, remaining)
    requires OnChain(image, g, first, size, i', b', c', o', remaining)
    requires b + o == b' + o'
    ensures i == i' && c == c' && o == o'
  {
    if i < i' {
      BaseGrows(image, g, first, i, i');
    } else if i' < i {
      BaseGrows(image, g, first, i', i);
    }
  }

  lemma BaseGrows(image: seq<Byte>, g: Geo, first: U32, i: nat, j: nat)
    requires OnDisk(image, g) && AllValid(image, g, first, j) && i < j
    ensures |ChainBytes(image, g, first, i)| + g.clusBytes <= |ChainBytes(image, g, first, j)|
  {
    ChainBytesPrefix(image, g, first, i + 1, j);
    assert |ChainBytes(image, g, first, i + 1)| == |ChainBytes(image, g, first, i)| + g.clusBytes;
  }

  // ---- any split ----------------------------------------------------------

  /** One call on the stream at position `at`: read `n` bytes, or skip `n` bytes. */
  datatype Call = ReadCall(n: nat) | SkipCall(n: nat)

  function Moved(content: seq<Byte>, at: nat, n: nat): (p: nat)
    requires at <= |content|
    ensures at <= p <= |content|
  {
    at + Min(n, |content| - at)
  }

  /** The bytes the calls return, one after another, and where they leave the cursor. */
  function Results(content: seq<Byte>, at: nat, calls: seq<Call>): (r: (seq<Byte>, nat))
    requires at <= |content|
    ensures r.1 <= |content|
    decreases |calls|
  {
    if calls == [] then ([], at)
    else
      var p := Moved(content, at, calls[0].n);
      var rest := Results(content, p, calls[1..]);
      ((if calls[0].ReadCall? then content[at..p] else []) + rest.0, rest.1)
  }

  function Total(calls: seq<Call>): nat
  {
    if calls == [] then 0 else calls[0].n + Total(calls[1..])
  }

  /** However calls are cut, the cursor ends where one call for the total would end it. */
  lemma {:induction false} CallsAddUp(content: seq<Byte>, at: nat, calls: seq<Call>)
    requires at <= |content|
    ensures Results(content, at, calls).1 == Moved(content, at, Total(calls))
    decreases |calls|
  {
    if calls != [] {
      CallsAddUp(content, Moved(content, at, calls[0].n), calls[1..]);
    }
  }

  /** Reads alone, of any lengths, concatenate to the stretch of content they cover. */
  lemma {:induction false} SplitIndependent(content: seq<Byte>, at: nat, calls: seq<Call>)
    requires at <= |content| && forall i :: 0 <= i < |calls| ==> calls[i].ReadCall?
    ensures Results(content, at, calls).0 == content[at..Moved(content, at, Total(calls))]
    decreases |calls|
  {
    if calls != [] {
      var p := Moved(content, at, calls[0].n);
      SplitIndependent(content, p, calls[1..]);
      CallsAddUp(content, at, calls);
      var q := Moved(content, at, Total(calls));
      assert q == Moved(content, p, Total(calls[1..]));
      SplitSlice(content, at, p, q);
    }
  }

  /** Reads that together ask for the whole file return the whole file, however they cut it. */
  lemma SplitCoversWhole(content: seq<Byte>, calls: seq<Call>)
    requires (forall i :: 0 <= i < |calls| ==> calls[i].ReadCall?) && Total(calls) >= |content|
    ensures Results(content, 0, calls).0 == content
  {
    SplitIndependent(content, 0, calls);
  }

  lemma {:induction false} ResultsAppend(content: seq<Byte>, at: nat, calls: seq<Call>, c: Call)
    requires at <= |content|
    ensures var r, p := Results(content, at, calls), Moved(content, Results(content, at, calls).1, c.n);
      Results(content, at, calls + [c]) == (r.0 + (if c.ReadCall? then content[r.1..p] else []), p)
    decreases |calls|
  {
    if calls == [] {
      assert calls + [c] == [c] && [c][0] == c && [c][1..] == [];
      assert Results(content, Moved(content, at, c.n), [c][1..]) == ([], Moved(content, at, c.n));
      var one := if c.ReadCall? then content[at..Moved(content, at, c.n)] else [];
      assert one + [] == one && [] + one == one;
    } else {
      var q := Moved(content, at, calls[0].n);
      assert (calls + [c])[0] == calls[0] && (calls + [c])[1..] == calls[1..] + [c];
      ResultsAppend(content, q, calls[1..], c);
      var a, r := if calls[0].ReadCall? then content[at..q] else [], Results(content, q, calls[1..]);
      var b := if c.ReadCall? then content[r.1..Moved(content, r.1, c.n)] else [];
      assert a + (r.0 + b) == (a + r.0) + b;
    }
  }

  /** One more of the calls. */
  lemma OneMoreCall(content: seq<Byte>, at: nat, calls: seq<Call>, i: nat)
    requires at <= |content| && i < |calls|
    ensures var r, c := Results(content, at, calls[..i]), calls[i];
      Results(content, at, calls[..i + 1])
      == (r.0 + (if c.ReadCall? then content[r.1..Moved(content, r.1, c.n)] else []), Moved(content, r.1, c.n))
  {
    assert calls[..i] + [calls[i]] == calls[..i + 1];
    ResultsAppend(content, at, calls[..i], calls[i]);
  }

  /** One read on the cursor. */
  method ApplyRead(st: Stream, len: U32, ghost n: nat) returns (got: seq<Byte>)
    requires st.Ready() && st.fs.dev.reliable && ChainOf(st.fs.dev.image, st.fs.g, st.first, n) && Callable(ReadCall(len), st.size)
    modifies st, st.fs
    ensures st.Ready() && 0 <= old(st.Pos()) <= |Content(st.fs.dev.image, st.fs.g, st.first, n, st.size)|
    ensures var content := Content(st.fs.dev.image, st.fs.g, st.first, n, st.size);
      st.Pos() == Moved(content, old(st.Pos()), len) && got == content[old(st.Pos())..st.Pos()]
  {
    hide Stream.FirstPass, Stream.Room, Delivered, Stream.Crossed, OnChain, AllValid, ChainOf, Content;
    ghost var image, from := st.fs.dev.image, st.Pos();
    GuardNeverFires(image, st.fs.g, st.first, n);
    var buf := new Byte[len];
    ghost var m;
    var rc;
    rc, m := st.Read(buf, len);
    got := buf[..rc];
    ReadIsNextBytes(image, st.fs.g, st.first, n, st.size, got, m, from, len,
                    st.index, st.base, st.clus, st.clusOff, st.remaining);
  }

  /** One skip. */
  method ApplySkip(st: Stream, len: U32, ghost n: nat)
    requires st.Ready() && st.fs.dev.reliable && ChainOf(st.fs.dev.image, st.fs.g, st.first, n)
    modifies st, st.fs
    ensures st.Ready() && 0 <= old(st.Pos()) <= |Content(st.fs.dev.image, st.fs.g, st.first, n, st.size)|
    ensures st.Pos() == Moved(Content(st.fs.dev.image, st.fs.g, st.first, n, st.size), old(st.Pos()), len)
  {
    ghost var image, from := st.fs.dev.image, st.Pos();
    GuardNeverFires(image, st.fs.g, st.first, n);
    var done;
    ghost var ok;
    done, ok := st.Skip(len);
    SkipMovesLikeRead(image, st.fs.g, st.first, n, st.size, from, done, len,
                      st.index, st.base, st.clus, st.clusOff, st.remaining);
  }

  /** One call. */
  method Apply(st: Stream, c: Call, ghost n: nat, ghost content: seq<Byte>) returns (got: seq<Byte>)
    requires st.Ready() && st.fs.dev.reliable && ChainOf(st.fs.dev.image, st.fs.g, st.first, n) && Callable(c, st.size)
    requires content == Content(st.fs.dev.image, st.fs.g, st.first, n, st.size)
    modifies st, st.fs
    ensures st.Ready() && 0 <= old(st.Pos()) <= |content|
    ensures st.Pos() == Moved(content, old(st.Pos()), c.n)
    ensures got == if c.ReadCall? then content[old(st.Pos())..st.Pos()] else []
  {
    match c
    case ReadCall(len) => got := ApplyRead(st, len, n);
    case SkipCall(len) =>
      ApplySkip(st, len, n);
      got := [];
  }

  /** A call the source can answer: any skip, and a read of a file of `size` bytes whose count fits its signed result. */
  predicate Callable(c: Call, size: nat)
  {
    c.n < TWO32 && (c.ReadCall? ==> Min(c.n, size) < 0x8000_0000)
  }

  /** Every sequence of reads and skips on a chain that ends returns the content's bytes, whatever was cached before. */
  method Drive(st: Stream, calls: seq<Call>, ghost n: nat) returns (out: seq<Byte>)
    requires st.Ready() && st.fs.dev.reliable && ChainOf(st.fs.dev.image, st.fs.g, st.first, n)
    requires forall i :: 0 <= i < |calls| ==> Callable(calls[i], st.size)
    requires 0 <= st.Pos() <= |Content(st.fs.dev.image, st.fs.g, st.first, n, st.size)|
    modifies st, st.fs
    ensures st.Ready()
    ensures var r := Results(Content(st.fs.dev.image, st.fs.g, st.first, n, st.size), old(st.Pos()), calls);
      out == r.0 && st.Pos() == r.1
  {
    out := [];
    var i := 0;
    ghost var image, p0 := st.fs.dev.image, st.Pos();
    ghost var content := Content(image, st.fs.g, st.first, n, st.size);
    while i < |calls|
      invariant i <= |calls| && st.Ready() && st.fs.dev.image == image
      invariant out == Results(content, p0, calls[..i]).0 && st.Pos() == Results(content, p0, calls[..i]).1
    {
      OneMoreCall(content, p0, calls, i);
      var got := Apply(st, calls[i], n, content);
      out := out + got;
      i := i + 1;
    }
    assert calls[..i] == calls;
  }
}
