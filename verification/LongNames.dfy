/**
 * Long names: stored backwards in 13-unit fragments, reassembled whole when they fit,
 * read past the accumulator when an end mark alone lies beyond it, and bound to the host's names.
 */
module LongNames {
  import opened Words
  import opened Directory
  import NameHash

  /** The unit a long-name writer puts at `i`: the name, its terminator, then padding. */
  function Cell(name: seq<U16>, i: nat): U16
  {
    if i < |name| then name[i] else if i == |name| then 0 else 0xFFFF
  }

  /** Units a name can be made of. */
  predicate Storable(name: seq<U16>)
  {
    name != [] && forall i :: 0 <= i < |name| ==> name[i] != 0 && name[i] != 0xFFFF
  }

  /** Fragment number `ord` of the name, tied to its short entry by `sum`. */
  predicate Holds(e: seq<Byte>, name: seq<U16>, ord: nat, sum: Byte)
  {
    && |e| == 32 && 1 <= ord && e[0] % 64 == ord && e[13] == sum
    && forall k :: 0 <= k < 13 ==> Rd16(e, LFN_POS[k]) == Cell(name, (ord - 1) * 13 + k)
  }

  /** How many fragments the name takes. */
  function Count(name: seq<U16>): nat
  {
    (|name| + 12) / 13
  }

  /** All its fragments, the last one first. */
  predicate Run(frags: seq<seq<Byte>>, name: seq<U16>, sum: Byte)
  {
    |frags| == Count(name) && forall i :: 0 <= i < |frags| ==> Holds(frags[i], name, |frags| - i, sum)
  }

  function Assemble(frags: seq<seq<Byte>>, n: nat): Lfn
    requires n <= |frags| && forall i :: 0 <= i < n ==> |frags[i]| == 32
  {
    if n == 0 then LfnReset() else LfnAdd(Assemble(frags, n - 1), frags[n - 1])
  }

  function Max(a: int, b: int): int
  {
    if a < b then b else a
  }

  /** What one unit does. */
  lemma UnitAdded(a: Lfn, name: seq<U16>, i: nat)
    requires |a.units| == LFN_MAX && Storable(name)
    ensures var r := LfnUnit(a, Cell(name, i), i);
      && |r.units| == LFN_MAX && r.haveSum == a.haveSum && r.sum == a.sum
      && r.units == (if i < Min(|name|, LFN_MAX) then a.units[i := name[i]] else a.units)
      && r.bad == (a.bad || LFN_MAX <= i < |name|)
      && r.maxIdx == (if i < Min(|name|, LFN_MAX) then Max(a.maxIdx, i) else a.maxIdx)
      && r.term == (if i == |name| && (a.term < 0 || i < a.term) then i else a.term)
  {
  }

  /** What the units of a fragment from its `k`-th on do to the accumulator. */
  lemma {:induction false} UnitsAdded(a: Lfn, e: seq<Byte>, name: seq<U16>, base: nat, k: nat)
    requires |a.units| == LFN_MAX && |e| == 32 && k <= 13 && Storable(name)
    requires forall m :: 0 <= m < 13 ==> Rd16(e, LFN_POS[m]) == Cell(name, base + m)
    ensures var r, hi := LfnUnits(a, e, base, k), Min(base + 13, |name|);
      && |r.units| == LFN_MAX && r.haveSum == a.haveSum && r.sum == a.sum
      && (forall i :: 0 <= i < LFN_MAX ==> r.units[i] == if base + k <= i < hi then name[i] else a.units[i])
      && r.bad == (a.bad || Max(base + k, LFN_MAX) < hi)
      && r.maxIdx == (if base + k < Min(hi, LFN_MAX) then Max(a.maxIdx, Min(hi, LFN_MAX) - 1) else a.maxIdx)
      && r.term == (if base + k <= |name| < base + 13 && (a.term < 0 || |name| < a.term) then |name| else a.term)
    decreases 13 - k
  {
    if k < 13 {
      UnitAdded(a, name, base + k);
      UnitsAdded(LfnUnit(a, Cell(name, base + k), base + k), e, name, base, k + 1);
    }
  }

  /** The accumulator once the fragments from index `lo` on are in. */
  predicate Gathered(a: Lfn, name: seq<U16>, sum: Byte, lo: nat, any: bool, full: nat)
  {
    && |a.units| == LFN_MAX && a.haveSum == any && (any ==> a.sum == sum)
    && (forall i :: lo <= i < Min(|name|, LFN_MAX) ==> a.units[i] == name[i])
    && a.bad == (any && Max(lo, LFN_MAX) < |name|)
    && a.maxIdx == (if any && lo < LFN_MAX then Min(|name|, LFN_MAX) - 1 else -1)
    && a.term == (if any && |name| < full then |name| else -1)
  }

  lemma OneMore(a: Lfn, e: seq<Byte>, name: seq<U16>, sum: Byte, ord: nat, any: bool, full: nat)
    requires Storable(name) && Holds(e, name, ord, sum) && 13 * (ord - 1) < |name| <= full && full < |name| + 13
    requires Gathered(a, name, sum, 13 * ord, any, full) && (any <==> 13 * ord < full) && 13 * ord <= full
    ensures Gathered(LfnAdd(a, e), name, sum, 13 * (ord - 1), true, full)
  {
    UnitsAdded(a.(haveSum := true, sum := e[13]), e, name, (ord - 1) * 13, 0);
  }

  lemma {:induction false} RunGathers(frags: seq<seq<Byte>>, name: seq<U16>, sum: Byte, n: nat)
    requires Storable(name) && Run(frags, name, sum) && n <= |frags|
    ensures Gathered(Assemble(frags, n), name, sum, 13 * (|frags| - n), n > 0, 13 * |frags|)
    decreases n
  {
    if n > 0 {
      RunGathers(frags, name, sum, n - 1);
      var a, e := Assemble(frags, n - 1), frags[n - 1];
      OneMore(a, e, name, sum, |frags| - n + 1, n > 1, 13 * |frags|);
      assert Assemble(frags, n) == LfnAdd(a, e);
    }
  }

  /**
   * A run of fragments reassembles to exactly the name it was made from when the name has
   * at most 128 units, and to none otherwise; under any other checksum it is rejected.
   */
  lemma ReassemblesExactly(frags: seq<seq<Byte>>, name: seq<U16>, sum: Byte, other: Byte)
    requires Storable(name) && Run(frags, name, sum)
    ensures var a := Assemble(frags, |frags|);
      && |a.units| == LFN_MAX
      && LfnLength(a, other) == (if other == sum && |name| <= LFN_MAX then |name| else -1)
      && (|name| <= LFN_MAX ==> a.units[..|name|] == name)
  {
    RunGathers(frags, name, sum, |frags|);
  }

  // ---- a fragment's bytes ---------------------------------------------------------------

  /** `n` units of the name from the `from`-th on, low byte first. */
  function UnitBytes(name: seq<U16>, from: nat, n: nat): (r: seq<Byte>)
    ensures |r| == 2 * n
    decreases n
  {
    if n == 0 then [] else Le16(Cell(name, from)) + UnitBytes(name, from + 1, n - 1)
  }

  /** A record written as fragment number `ord` of the name; the one of the highest number says that it is. */
  predicate WrittenPiece(e: seq<Byte>, name: seq<U16>, ord: nat, highest: bool, sum: Byte)
  {
    && |e| == 32 && 1 <= ord < 64 && e[0] == ord + (if highest then 64 else 0) && e[11] == 0x0F && e[12] == 0 && e[13] == sum
    && e[1..11] == UnitBytes(name, (ord - 1) * 13, 5) && e[14..26] == UnitBytes(name, (ord - 1) * 13 + 5, 6)
    && e[26..28] == [0, 0] && e[28..32] == UnitBytes(name, (ord - 1) * 13 + 11, 2)
  }

  lemma {:induction false} UnitAt(e: seq<Byte>, lo: nat, name: seq<U16>, from: nat, n: nat, k: nat)
    requires k < n && lo + 2 * n <= |e| && e[lo..lo + 2 * n] == UnitBytes(name, from, n)
    ensures Rd16(e, lo + 2 * k) == Cell(name, from + k)
    decreases n
  {
    var w := e[lo..lo + 2 * n];
    if k == 0 {
      assert e[lo..lo + 2] == w[..2] == Le16(Cell(name, from));
      Le16RoundTrip(e, lo, Cell(name, from));
    } else {
      assert e[lo + 2..lo + 2 + 2 * (n - 1)] == w[2..] == UnitBytes(name, from + 1, n - 1);
      UnitAt(e, lo + 2, name, from + 1, n - 1, k - 1);
    }
  }

  /** Such a record is kept as the fragment it was written as. */
  lemma PieceHolds(e: seq<Byte>, name: seq<U16>, ord: nat, highest: bool, sum: Byte)
    requires WrittenPiece(e, name, ord, highest, sum)
    ensures Holds(e, name, ord, sum) && Kept(e)
  {
    hide Rd16, UnitBytes, Cell;
    forall k | 0 <= k < 13
      ensures Rd16(e, LFN_POS[k]) == Cell(name, (ord - 1) * 13 + k)
    {
      PieceUnit(e, name, (ord - 1) * 13, k);
    }
  }

  lemma PieceUnit(e: seq<Byte>, name: seq<U16>, base: nat, k: nat)
    requires |e| == 32 && k < 13 && e[1..11] == UnitBytes(name, base, 5)
    requires e[14..26] == UnitBytes(name, base + 5, 6) && e[28..32] == UnitBytes(name, base + 11, 2)
    ensures Rd16(e, LFN_POS[k]) == Cell(name, base + k)
  {
    hide Rd16, UnitBytes, Cell;
    UnitPlace(k);
    if k < 5 {
      UnitAt(e, 1, name, base, 5, k);
    } else if k < 11 {
      UnitAt(e, 14, name, base + 5, 6, k - 5);
    } else {
      UnitAt(e, 28, name, base + 11, 2, k - 11);
    }
  }

  lemma UnitPlace(k: nat)
    requires k < 13
    ensures LFN_POS[k] == if k < 5 then 1 + 2 * k else if k < 11 then 14 + 2 * (k - 5) else 28 + 2 * (k - 11)
  {
  }

  /** A name written piece by piece, the highest number first, is stored whole. */
  lemma WrittenIsStored(frags: seq<seq<Byte>>, name: seq<U16>, sum: Byte)
    requires Storable(name) && |frags| == Count(name)
    requires forall i :: 0 <= i < |frags| ==> WrittenPiece(frags[i], name, |frags| - i, i == 0, sum)
    ensures Stored(frags, name, sum)
  {
    forall i | 0 <= i < |frags|
      ensures |frags[i]| == 32 && Holds(frags[i], name, |frags| - i, sum) && Kept(frags[i])
    {
      PieceHolds(frags[i], name, |frags| - i, i == 0, sum);
    }
  }

  // ---- any fragments at all -------------------------------------------------------------

  /** Every element is a directory record. */
  predicate Sized(frags: seq<seq<Byte>>)
  {
    forall i :: 0 <= i < |frags| ==> |frags[i]| == 32
  }

  /** Where the first unit of a fragment goes. */
  function Base(e: seq<Byte>): int
    requires |e| == 32
  {
    var first: int := e[0];
    (first % 64 - 1) * 13
  }

  /** The fragment has an end mark for index `i`, in its unit `k` or a later one. */
  predicate EndsAt(e: seq<Byte>, base: int, k: nat, i: int)
    requires |e| == 32
  {
    k <= i - base < 13 && Rd16(e, LFN_POS[i - base]) == 0
  }

  /** From its unit `k` on, the fragment has no character for a place past the accumulator. */
  predicate Inside(e: seq<Byte>, base: int, k: nat)
    requires |e| == 32
  {
    forall m :: k <= m < 13 && base + m >= LFN_MAX ==> Rd16(e, LFN_POS[m]) == 0 || Rd16(e, LFN_POS[m]) == 0xFFFF
  }

  predicate InBounds(a: Lfn)
  {
    |a.units| == LFN_MAX && a.maxIdx < LFN_MAX && a.term >= -1
  }

  /** What the units of any fragment do to the rest of the accumulator. */
  lemma {:induction false} UnitsDo(a: Lfn, e: seq<Byte>, base: nat, k: nat)
    requires InBounds(a) && |e| == 32 && k <= 13
    ensures var r := LfnUnits(a, e, base, k);
      InBounds(r) && r.haveSum == a.haveSum && r.sum == a.sum && r.bad == (a.bad || !Inside(e, base, k))
    decreases 13 - k
  {
    if k < 13 {
      var u := Rd16(e, LFN_POS[k]);
      UnitsDo(LfnUnit(a, u, base + k), e, base, k + 1);
      assert Inside(e, base, k) <==> Inside(e, base, k + 1) && (base + k < LFN_MAX || u == 0 || u == 0xFFFF);
    }
  }

  /** They end the name as early as any end mark does. */
  lemma {:induction false} UnitsEnd(a: Lfn, e: seq<Byte>, base: nat, k: nat)
    requires InBounds(a) && |e| == 32 && k <= 13
    ensures var r := LfnUnits(a, e, base, k);
      && (r.term == a.term || EndsAt(e, base, k, r.term))
      && (a.term >= 0 ==> 0 <= r.term <= a.term)
      && (forall i :: EndsAt(e, base, k, i) ==> 0 <= r.term <= i)
    decreases 13 - k
  {
    if k < 13 {
      var b := LfnUnit(a, Rd16(e, LFN_POS[k]), base + k);
      UnitsEnd(b, e, base, k + 1);
      var r := LfnUnits(b, e, base, k + 1);
      forall i | EndsAt(e, base, k, i)
        ensures 0 <= r.term <= i
      {
        if i != base + k {
          assert EndsAt(e, base, k + 1, i);
        }
      }
    }
  }

  /** The fragments all belong to the record with checksum `sum`, and their characters fit. */
  predicate Clean(frags: seq<seq<Byte>>, sum: Byte)
    requires Sized(frags)
  {
    frags != [] && forall j :: 0 <= j < |frags| ==> Belongs(frags[j], sum)
  }

  predicate Belongs(e: seq<Byte>, sum: Byte)
    requires |e| == 32
  {
    e[0] % 64 != 0 && e[13] == sum && Inside(e, Base(e), 0)
  }

  /** Some fragment has an end mark for index `i`. */
  predicate Ends(frags: seq<seq<Byte>>, i: int)
    requires Sized(frags)
  {
    exists j :: 0 <= j < |frags| && frags[j][0] % 64 != 0 && EndsAt(frags[j], Base(frags[j]), 0, i)
  }

  /** What the accumulator knows after any fragments: whether they are clean, and their first end mark. */
  ghost predicate Knows(a: Lfn, frags: seq<seq<Byte>>)
    requires Sized(frags)
  {
    && InBounds(a)
    && (!a.bad ==> a.haveSum == (frags != [])) && (frags == [] ==> !a.bad)
    && (forall sum: Byte :: !a.bad && a.haveSum && a.sum == sum <==> Clean(frags, sum))
    && (!a.bad ==> (a.term >= 0 ==> Ends(frags, a.term)) && forall i :: Ends(frags, i) ==> 0 <= a.term <= i)
  }

  lemma EndsGrow(frags: seq<seq<Byte>>, e: seq<Byte>, i: int)
    requires Sized(frags) && |e| == 32
    ensures Sized(frags + [e])
    ensures Ends(frags + [e], i) <==> Ends(frags, i) || (e[0] % 64 != 0 && EndsAt(e, Base(e), 0, i))
  {
    var all := frags + [e];
    assert all[|frags|] == e;
    forall j | 0 <= j < |frags|
      ensures all[j] == frags[j]
    {
    }
    if Ends(all, i) {
      var j :| 0 <= j < |all| && all[j][0] % 64 != 0 && EndsAt(all[j], Base(all[j]), 0, i);
      if j < |frags| {
        assert EndsAt(frags[j], Base(frags[j]), 0, i);
      }
    }
    if Ends(frags, i) {
      var j :| 0 <= j < |frags| && frags[j][0] % 64 != 0 && EndsAt(frags[j], Base(frags[j]), 0, i);
      assert EndsAt(all[j], Base(all[j]), 0, i);
    }
  }

  lemma AddKnows(a: Lfn, frags: seq<seq<Byte>>, e: seq<Byte>)
    requires Sized(frags) && |e| == 32 && Knows(a, frags)
    ensures Sized(frags + [e]) && Knows(LfnAdd(a, e), frags + [e])
  {
    var all, r := frags + [e], LfnAdd(a, e);
    assert forall j :: 0 <= j < |frags| ==> all[j] == frags[j];
    assert all[|frags|] == e;
    if e[0] % 64 != 0 {
      UnitsDo(a.(haveSum := true, sum := e[13]), e, Base(e), 0);
      UnitsEnd(a.(haveSum := true, sum := e[13]), e, Base(e), 0);
    }
    forall sum: Byte
      ensures !r.bad && r.haveSum && r.sum == sum <==> Clean(all, sum)
    {
      assert Clean(all, sum) <==> (frags == [] || Clean(frags, sum)) && Belongs(e, sum);
    }
    if !r.bad {
      forall i
        ensures Ends(all, i) <==> Ends(frags, i) || EndsAt(e, Base(e), 0, i)
      {
        EndsGrow(frags, e, i);
      }
    }
  }

  lemma {:induction false} AssembleKnows(frags: seq<seq<Byte>>, n: nat)
    requires Sized(frags) && n <= |frags|
    ensures Knows(Assemble(frags, n), frags[..n])
    decreases n
  {
    if n > 0 {
      AssembleKnows(frags, n - 1);
      assert frags[..n] == frags[..n - 1] + [frags[n - 1]];
      AddKnows(Assemble(frags, n - 1), frags[..n - 1], frags[n - 1]);
    }
  }

  lemma OverrunMeans(a: Lfn, e: seq<Byte>)
    requires |e| == 32 && |a.units| == LFN_MAX
    ensures MakeDirent(a, e).name.Overrun? <==> LfnLength(a, Checksum(e, 0, 0)) > LFN_MAX
  {
  }

  /** There is an end mark, and none for a place in the accumulator or right behind it. */
  ghost predicate EndsLate(frags: seq<seq<Byte>>)
    requires Sized(frags)
  {
    (exists i :: Ends(frags, i)) && (forall i :: Ends(frags, i) ==> i > LFN_MAX)
  }

  lemma LateLength(a: Lfn, frags: seq<seq<Byte>>, sum: Byte)
    requires Sized(frags) && Knows(a, frags)
    ensures LfnLength(a, sum) > LFN_MAX <==> Clean(frags, sum) && EndsLate(frags)
  {
    if Clean(frags, sum) {
      if a.term >= 0 {
        assert Ends(frags, a.term);
      } else {
        assert forall i :: !Ends(frags, i);
      }
    }
  }

  /**
   * Whatever fragments come before a record, its name is taken past the end of the
   * accumulator exactly when they all belong to it, their characters fit, there is an
   * end mark among them, and every end mark lies past the accumulator's 128 units.
   */
  lemma OverrunExactly(frags: seq<seq<Byte>>, e: seq<Byte>)
    requires Sized(frags) && |e| == 32
    ensures MakeDirent(Assemble(frags, |frags|), e).name.Overrun? <==> Clean(frags, Checksum(e, 0, 0)) && EndsLate(frags)
  {
    AssembleKnows(frags, |frags|);
    assert frags[..|frags|] == frags;
    var a := Assemble(frags, |frags|);
    OverrunMeans(a, e);
    LateLength(a, frags, Checksum(e, 0, 0));
  }

  /** A fragment with nothing but an end mark, for index 143. */
  function LateEnd(sum: Byte): (e: seq<Byte>)
    ensures |e| == 32
  {
    [0x4C, 0, 0, 0xFF, 0xFF, 0xFF, 0xFF, 0xFF, 0xFF, 0xFF, 0xFF, 0x0F, 0, sum, 0xFF, 0xFF,
     0xFF, 0xFF, 0xFF, 0xFF, 0xFF, 0xFF, 0xFF, 0xFF, 0xFF, 0xFF, 0, 0, 0xFF, 0xFF, 0xFF, 0xFF]
  }

  lemma {:induction false} PaddingDoes(a: Lfn, e: seq<Byte>, base: nat, k: nat)
    requires |e| == 32 && k <= 13 && forall m :: k <= m < 13 ==> Rd16(e, LFN_POS[m]) == 0xFFFF
    ensures LfnUnits(a, e, base, k) == a
    decreases 13 - k
  {
    if k < 13 {
      PaddingDoes(a, e, base, k + 1);
    }
  }

  lemma LateEndAdds(sum: Byte)
    ensures LfnAdd(LfnReset(), LateEnd(sum)) == LfnReset().(haveSum := true, sum := sum, term := 143)
  {
    var frag := LateEnd(sum);
    var a := LfnReset().(haveSum := true, sum := sum);
    PaddingDoes(a.(term := 143), frag, 143, 1);
    assert LfnUnit(a, Rd16(frag, LFN_POS[0]), 143) == a.(term := 143);
    assert LfnUnits(a, frag, 143, 0) == a.(term := 143);
  }

  /** One such fragment is enough. */
  lemma OverrunHappens(e: seq<Byte>)
    requires |e| == 32
    ensures var frag := LateEnd(Checksum(e, 0, 0));
      IsFragment(frag) && MakeDirent(Assemble([frag], 1), e).name == Overrun(LfnReset().units, 143)
  {
    hide Checksum, LfnAdd;
    var frag := LateEnd(Checksum(e, 0, 0));
    LateEndAdds(Checksum(e, 0, 0));
    assert Assemble([frag], 1) == LfnAdd(Assemble([frag], 0), frag);
  }

  // ---- runs met in a directory ------------------------------------------------------------

  /** The records one after another. */
  function Flat(recs: seq<seq<Byte>>): seq<Byte>
  {
    if recs == [] then [] else Flat(recs[..|recs| - 1]) + recs[|recs| - 1]
  }

  /** The walk keeps this record as a fragment. */
  predicate Kept(e: seq<Byte>)
    requires |e| == 32
  {
    e[0] != 0 && e[0] != 0xE5 && IsFragment(e)
  }

  /** The fragments at the end of the records, with nothing else between or after. */
  function Pending(recs: seq<seq<Byte>>): (r: seq<seq<Byte>>)
    requires Sized(recs)
    ensures Sized(r)
    decreases |recs|
  {
    if recs == [] || !Kept(recs[|recs| - 1]) then []
    else Pending(recs[..|recs| - 1]) + [recs[|recs| - 1]]
  }

  lemma {:induction false} AssemblePrefix(a: seq<seq<Byte>>, e: seq<Byte>, n: nat)
    requires Sized(a) && |e| == 32 && n <= |a|
    ensures Assemble(a + [e], n) == Assemble(a, n)
    decreases n
  {
    if n > 0 {
      AssemblePrefix(a, e, n - 1);
    }
  }

  /** One more record scanned. */
  lemma OneRecord(recs: seq<seq<Byte>>, e: seq<Byte>, stop: Dirent -> bool)
    requires Sized(recs) && |e| == 32
    ensures var st := Records(Start(), Flat(recs), 0, stop);
      Records(Start(), Flat(recs + [e]), 0, stop) == if st.done then st else Record(st, e, stop)
  {
    var all := recs + [e];
    assert all[..|all| - 1] == recs;
    FlatLength(recs);
    RecordsConcat(Start(), Flat(recs), e, 0, stop);
    assert e[0..32] == e;
  }

  lemma {:induction false} FlatLength(recs: seq<seq<Byte>>)
    requires Sized(recs)
    ensures |Flat(recs)| % 32 == 0
    decreases |recs|
  {
    if recs != [] {
      FlatLength(recs[..|recs| - 1]);
    }
  }

  /** At any point of a walk the accumulator holds exactly the fragments just met. */
  lemma {:induction false} WalkTracks(recs: seq<seq<Byte>>, stop: Dirent -> bool)
    requires Sized(recs) && !Records(Start(), Flat(recs), 0, stop).done
    ensures Records(Start(), Flat(recs), 0, stop).acc == Assemble(Pending(recs), |Pending(recs)|)
    decreases |recs|
  {
    if recs != [] {
      var init, e := recs[..|recs| - 1], recs[|recs| - 1];
      assert init + [e] == recs;
      OneRecord(init, e, stop);
      WalkTracks(init, stop);
      if Kept(e) {
        AssemblePrefix(Pending(init), e, |Pending(init)|);
      }
    }
  }

  /**
   * An entry met in a directory is delivered under the name its preceding fragments
   * assemble to; whether it is taken past the accumulator is `OverrunExactly`'s matter.
   */
  lemma NamedByRun(recs: seq<seq<Byte>>, e: seq<Byte>, stop: Dirent -> bool)
    requires Sized(recs) && |e| == 32 && IsLive(e) && !Records(Start(), Flat(recs), 0, stop).done
    ensures Records(Start(), Flat(recs + [e]), 0, stop).out
            == Records(Start(), Flat(recs), 0, stop).out + [MakeDirent(Assemble(Pending(recs), |Pending(recs)|), e)]
  {
    OneRecord(recs, e, stop);
    WalkTracks(recs, stop);
  }

  /** The fragments of a name, as a directory holds them. */
  predicate Stored(frags: seq<seq<Byte>>, name: seq<U16>, sum: Byte)
  {
    Sized(frags) && Storable(name) && Run(frags, name, sum) && forall i :: 0 <= i < |frags| ==> Kept(frags[i])
  }

  /** Fragments after something that is none are what is pending, and deliver nothing themselves. */
  lemma {:induction false} RunPending(recs: seq<seq<Byte>>, frags: seq<seq<Byte>>, n: nat, stop: Dirent -> bool)
    requires Sized(recs) && Sized(frags) && n <= |frags| && forall i :: 0 <= i < |frags| ==> Kept(frags[i])
    requires Pending(recs) == []
    ensures Sized(recs + frags[..n]) && Pending(recs + frags[..n]) == frags[..n]
    ensures var st, r := Records(Start(), Flat(recs), 0, stop), Records(Start(), Flat(recs + frags[..n]), 0, stop);
      !st.done ==> !r.done && r.out == st.out
    decreases n
  {
    if n == 0 {
      assert recs + frags[..n] == recs;
    } else {
      var before, e := recs + frags[..n - 1], frags[n - 1];
      RunPending(recs, frags, n - 1, stop);
      assert recs + frags[..n] == before + [e] && frags[..n] == frags[..n - 1] + [e];
      assert (before + [e])[..|before|] == before;
      OneRecord(before, e, stop);
    }
  }

  /**
   * A directory that holds the fragments of a name, after something else, and then its
   * entry, delivers that entry under the name, or under its own when the name is too long.
   */
  lemma LongNameDelivered(recs: seq<seq<Byte>>, frags: seq<seq<Byte>>, name: seq<U16>, e: seq<Byte>, stop: Dirent -> bool)
    returns (d: Dirent)
    requires Sized(recs) && Pending(recs) == [] && !Records(Start(), Flat(recs), 0, stop).done
    requires |e| == 32 && IsLive(e) && Stored(frags, name, Checksum(e, 0, 0))
    ensures Records(Start(), Flat(recs + frags + [e]), 0, stop).out == Records(Start(), Flat(recs), 0, stop).out + [d]
    ensures d.raw == e && d.name == if |name| <= LFN_MAX then Long(name) else Short
  {
    RunPending(recs, frags, |frags|, stop);
    assert frags[..|frags|] == frags;
    NamedByRun(recs + frags, e, stop);
    ReassemblesExactly(frags, name, Checksum(e, 0, 0), Checksum(e, 0, 0));
    d := MakeDirent(Assemble(frags, |frags|), e);
  }

  const NAME_BYTES: int := 256

  /** The bytes shown for a long name: its UTF-8 form, as far as the entry's buffer goes. */
  function Shown(units: seq<U16>): seq<Byte>
  {
    NameHash.Fitting(NameHash.FromUtf16(units), 0, NAME_BYTES, NameHash.Encode)
  }

  /** All but the text's last character take fewer than 252 bytes. */
  predicate FitsEntry(text: seq<NameHash.Scalar>)
  {
    text == [] || |NameHash.Utf8(text[..|text| - 1])| + 4 < NAME_BYTES
  }

  lemma ShownExactly(text: seq<NameHash.Scalar>)
    ensures Shown(NameHash.Utf16(text)) == NameHash.Utf8(text) <==> FitsEntry(text)
    ensures FitsEntry(text) ==>
      NameHash.DeviceFrom(NameHash.FNV_SEED, Shown(NameHash.Utf16(text))) == NameHash.HostHash(text)
  {
    NameHash.LfnExactly(text, NAME_BYTES);
    if FitsEntry(text) {
      NameHash.LongNameParity(text, NAME_BYTES);
    }
  }

  /**
   * From directory to index: an entry stored under a text of at most 128 units is shown
   * as exactly that text when the text fits the entry's buffer, and then hashes on the
   * device to what the host stored for it.
   */
  lemma DirectoryNameParity(recs: seq<seq<Byte>>, frags: seq<seq<Byte>>, text: seq<NameHash.Scalar>, e: seq<Byte>,
                            stop: Dirent -> bool) returns (d: Dirent)
    requires Sized(recs) && Pending(recs) == [] && !Records(Start(), Flat(recs), 0, stop).done
    requires |e| == 32 && IsLive(e) && Stored(frags, NameHash.Utf16(text), Checksum(e, 0, 0))
    requires |NameHash.Utf16(text)| <= LFN_MAX
    ensures Records(Start(), Flat(recs + frags + [e]), 0, stop).out == Records(Start(), Flat(recs), 0, stop).out + [d]
    ensures d.raw == e && d.name.Long?
    ensures Shown(d.name.units) == NameHash.Utf8(text) <==> FitsEntry(text)
    ensures FitsEntry(text) ==> NameHash.DeviceFrom(NameHash.FNV_SEED, Shown(d.name.units)) == NameHash.HostHash(text)
  {
    d := LongNameDelivered(recs, frags, NameHash.Utf16(text), e, stop);
    ShownExactly(text);
  }
}
