/** The decoders' bump arena: 32-bit sizes, an 8-byte header before each 8-aligned payload. */
module Arena {
  import opened Words
  import opened Memory
  import opened Options

  const HDR: nat := 8

  /** `v` rounded up to a multiple of eight, as 32-bit arithmetic computes it. */
  function AlignUp(v: U32): U32
  {
    var w := Wrap32(v + 7);
    w - w % 8
  }

  /** A multiple of eight. */
  predicate Eights(x: nat)
  {
    x == 0 || (x >= 8 && Eights(x - 8))
  }

  /** The least multiple of eight from `v` on. */
  function Round(v: nat): (r: nat)
    ensures v <= r <= v + 7 && Eights(r)
  {
    if v == 0 then 0 else if v <= 8 then 8 else 8 + Round(v - 8)
  }

  lemma {:induction false} EightsAre(x: nat)
    ensures Eights(x) <==> x % 8 == 0
    decreases x
  {
    if x >= 8 {
      EightsAre(x - 8);
      assert (x - 8) % 8 == x % 8;
    }
  }

  lemma {:induction false} EightsAdd(x: nat, y: nat)
    requires Eights(x) && Eights(y)
    ensures Eights(x + y)
    decreases y
  {
    if y > 0 {
      EightsAdd(x, y - 8);
    }
  }

  lemma {:induction false} RoundOfEights(x: nat)
    requires Eights(x)
    ensures Round(x) == x
    decreases x
  {
    if x > 8 {
      RoundOfEights(x - 8);
    }
  }

  lemma {:induction false} RoundIs(v: nat)
    ensures Round(v) == v + 7 - (v + 7) % 8
    decreases v
  {
    if v > 8 {
      RoundIs(v - 8);
      assert (v - 1) % 8 == (v + 7) % 8;
    }
  }

  /** Where a new block would end, as computed and in truth. */
  function ComputedEnd(used: U32, bytes: U32): U32
  {
    Wrap32(Wrap32(AlignUp(used) + HDR) + AlignUp(bytes))
  }

  function TrueEnd(used: nat, bytes: nat): nat
  {
    Round(used) + HDR + Round(bytes)
  }

  /** The request is small enough for the end of its block to be a 32-bit number. */
  predicate NoOverflow(used: nat, bytes: nat)
  {
    TrueEnd(used, bytes) < TWO32
  }

  lemma WrapSmall(x: nat)
    requires x < TWO32
    ensures Wrap32(x) == x
  {
  }

  lemma AlignExact(v: U32)
    requires v + 7 < TWO32
    ensures AlignUp(v) == Round(v)
  {
    WrapSmall(v + 7);
    RoundIs(v);
  }

  lemma RoundBelow(v: nat)
    requires Round(v) + 8 < TWO32
    ensures v + 7 < TWO32
  {
    RoundIs(v);
  }

  lemma EndExact(used: U32, bytes: U32)
    requires NoOverflow(used, bytes)
    ensures ComputedEnd(used, bytes) == TrueEnd(used, bytes)
    ensures Wrap32(AlignUp(used) + HDR) == Round(used) + HDR
  {
    RoundBelow(used);
    RoundBelow(bytes);
    AlignExact(used);
    AlignExact(bytes);
    WrapSmall(Round(used) + HDR);
    WrapSmall(TrueEnd(used, bytes));
  }

  /** The capacity check of a fresh block decides rightly: its end fits 32 bits, or the wrapped one is refused too. */
  predicate AllocSound(used: U32, bytes: U32, cap: nat)
  {
    NoOverflow(used, bytes) || ComputedEnd(used, bytes) > cap
  }

  lemma CheckExactly(used: U32, bytes: U32, cap: U32)
    ensures (ComputedEnd(used, bytes) <= cap <==> TrueEnd(used, bytes) <= cap) <==> AllocSound(used, bytes, cap)
  {
    if NoOverflow(used, bytes) {
      EndExact(used, bytes);
    }
  }

  /** An overflowing request can be granted: this one gets a header and no payload at all. */
  lemma OverflowGranted()
    ensures !NoOverflow(0, 0xFFFF_FFFF) && ComputedEnd(0, 0xFFFF_FFFF) == 8
  {
    RoundIs(0xFFFF_FFFF);
  }

  /** Where the newest block would end when resized where it is, as computed. */
  function ResizedEnd(last: U32, bytes: U32): U32
  {
    Wrap32(last + AlignUp(bytes))
  }

  /** The second capacity check, of a block resized where it is, decides rightly. */
  predicate ResizeSound(last: U32, bytes: U32, cap: nat)
  {
    last + Round(bytes) < TWO32 || ResizedEnd(last, bytes) > cap
  }

  lemma ResizedEndExact(last: U32, bytes: U32)
    requires last >= HDR && last + Round(bytes) < TWO32
    ensures ResizedEnd(last, bytes) == last + Round(bytes)
  {
    RoundBelow(bytes);
    AlignExact(bytes);
    WrapSmall(last + Round(bytes));
  }

  lemma ResizeCheckExactly(last: U32, bytes: U32, cap: U32)
    requires last >= HDR
    ensures (ResizedEnd(last, bytes) <= cap <==> last + Round(bytes) <= cap) <==> ResizeSound(last, bytes, cap)
  {
    if last + Round(bytes) < TWO32 {
      ResizedEndExact(last, bytes);
    }
  }

  /**
   * The two checks fail on different requests: this one is refused by a fresh block's
   * check, and granted, as a 4 GiB block in a 16-byte arena, by the other.
   */
  lemma ResizeOverflowGranted()
    ensures AllocSound(16, 0xFFFF_FFFF, 16)
    ensures !ResizeSound(8, 0xFFFF_FFFF, 16) && ResizedEnd(8, 0xFFFF_FFFF) == 8
  {
    RoundIs(0xFFFF_FFFF);
  }

  // ---- blocks -------------------------------------------------------------------------------

  datatype Block = Block(off: nat, size: nat)

  function End(b: Block): nat
  {
    b.off + Round(b.size)
  }

  /** The block lies below `used`, aligned, with its size in its header. */
  predicate Intact(mem: seq<Byte>, b: Block, used: nat)
  {
    Eights(b.off) && HDR <= b.off && End(b) <= used <= |mem| && b.size < TWO32 && Rd32(mem, b.off - HDR) == b.size
  }

  /** Every block is intact, and each ends before the next one's header. */
  predicate Laid(mem: seq<Byte>, blocks: seq<Block>, used: nat)
  {
    && (forall i :: 0 <= i < |blocks| ==> Intact(mem, blocks[i], used))
    && (forall i, j :: 0 <= i < j < |blocks| ==> End(blocks[i]) + HDR <= blocks[j].off)
  }

  lemma HeaderKept(mem: seq<Byte>, mem': seq<Byte>, at: nat, n: nat)
    requires at + 4 <= n <= |mem| && n <= |mem'| && mem[..n] == mem'[..n]
    ensures Rd32(mem', at) == Rd32(mem, at)
  {
    assert forall k :: at <= k < at + 4 ==> mem[k] == mem[..n][k] && mem'[k] == mem'[..n][k];
  }

  /** Memory changed only above the old top keeps the blocks below it. */
  lemma LaidKept(mem: seq<Byte>, mem': seq<Byte>, blocks: seq<Block>, used: nat, used': nat)
    requires Laid(mem, blocks, used) && used <= used' <= |mem'| && used <= |mem| && mem[..used] == mem'[..used]
    ensures Laid(mem', blocks, used')
  {
    forall i | 0 <= i < |blocks|
      ensures Intact(mem', blocks[i], used')
    {
      assert Intact(mem, blocks[i], used);
      HeaderKept(mem, mem', blocks[i].off - HDR, used);
    }
  }

  lemma LaidPush(mem: seq<Byte>, blocks: seq<Block>, used: nat, b: Block, used': nat)
    requires Laid(mem, blocks, used') && Intact(mem, b, used') && used + HDR <= b.off
    requires forall i :: 0 <= i < |blocks| ==> End(blocks[i]) <= used
    ensures Laid(mem, blocks + [b], used')
  {
  }

  function Without(blocks: seq<Block>, i: nat): seq<Block>
    requires i < |blocks|
  {
    blocks[..i] + blocks[i + 1..]
  }

  lemma WithoutPush(blocks: seq<Block>, b: Block, i: nat)
    requires i < |blocks|
    ensures (blocks + [b])[i] == blocks[i] && Without(blocks + [b], i) == Without(blocks, i) + [b]
  {
    var all := blocks + [b];
    assert all[..i] == blocks[..i] && all[i + 1..] == blocks[i + 1..] + [b];
  }

  lemma LaidWithout(mem: seq<Byte>, blocks: seq<Block>, used: nat, i: nat)
    requires Laid(mem, blocks, used) && i < |blocks|
    ensures Laid(mem, Without(blocks, i), used)
    ensures forall k :: 0 <= k < |Without(blocks, i)| ==> Without(blocks, i)[k] == blocks[if k < i then k else k + 1]
  {
    var w := Without(blocks, i);
    forall k | 0 <= k < |w|
      ensures w[k] == blocks[if k < i then k else k + 1] && Intact(mem, w[k], used)
    {
    }
    forall k, m | 0 <= k < m < |w|
      ensures End(w[k]) + HDR <= w[m].off
    {
      var k', m' := if k < i then k else k + 1, if m < i then m else m + 1;
      assert w[k] == blocks[k'] && w[m] == blocks[m'];
    }
  }

  /** Live blocks overlap neither each other nor each other's headers. */
  lemma BlocksDisjoint(mem: seq<Byte>, blocks: seq<Block>, used: nat, i: nat, j: nat)
    requires Laid(mem, blocks, used) && i < |blocks| && j < |blocks| && i != j
    ensures blocks[i].off + blocks[i].size <= blocks[j].off - HDR || blocks[j].off + blocks[j].size <= blocks[i].off - HDR
  {
    if i < j {
      assert End(blocks[i]) + HDR <= blocks[j].off;
    } else {
      assert End(blocks[j]) + HDR <= blocks[i].off;
    }
  }

  lemma SamePrefix(s: seq<Byte>, t: seq<Byte>, n: nat, x: nat, y: nat)
    requires x <= y <= n <= |s| && n <= |t| && s[..n] == t[..n]
    ensures s[x..y] == t[x..y]
  {
    PrefixSlice(s[..n], s, x, y);
    PrefixSlice(t[..n], t, x, y);
  }

  // ---- what the operations do to the memory, on values ------------------------------------------

  /** A fresh block laid on top of the others. */
  lemma LaidExtended(mem: seq<Byte>, mem': seq<Byte>, blocks: seq<Block>, used: nat, b: Block, end: nat)
    requires Laid(mem, blocks, used) && used <= |mem| && b.off == used + HDR && b.size < TWO32 && Eights(used)
    requires end == End(b) <= |mem'| && mem'[..used] == mem[..used] && Rd32(mem', used) == b.size
    ensures Laid(mem', blocks + [b], end)
  {
    EightsAdd(used, HDR);
    LaidKept(mem, mem', blocks, used, end);
    assert forall i :: 0 <= i < |blocks| ==> Intact(mem, blocks[i], used);
    LaidPush(mem', blocks, used, b, end);
  }

  /** The last block given another size where it is. */
  lemma LaidResized(mem: seq<Byte>, mem': seq<Byte>, blocks: seq<Block>, used: nat, bytes: nat, end: nat)
    requires blocks != [] && Laid(mem, blocks, used) && used <= |mem| && bytes < TWO32
    requires var off := blocks[|blocks| - 1].off;
      HDR <= off <= |mem'| && mem'[..off - HDR] == mem[..off - HDR] && Rd32(mem', off - HDR) == bytes
      && end == off + Round(bytes) <= |mem'|
    ensures Laid(mem', blocks[|blocks| - 1 := Block(blocks[|blocks| - 1].off, bytes)], end)
  {
    var i := |blocks| - 1;
    var off, others := blocks[i].off, blocks[..i];
    assert Intact(mem, blocks[i], used);
    forall k | 0 <= k < i
      ensures Intact(mem, others[k], off - HDR)
    {
      assert Intact(mem, blocks[k], used) && End(blocks[k]) + HDR <= off;
    }
    LaidKept(mem, mem', others, off - HDR, end);
    LaidPush(mem', others, off - HDR, Block(off, bytes), end);
    assert blocks[i := Block(off, bytes)] == others + [Block(off, bytes)];
  }

  /** The block's bytes are where and what they were. */
  predicate Preserved(mem: seq<Byte>, mem': seq<Byte>, b: Block)
  {
    b.off + b.size <= |mem| == |mem'| && mem'[b.off..b.off + b.size] == mem[b.off..b.off + b.size]
  }

  predicate OthersPreserved(mem: seq<Byte>, mem': seq<Byte>, bs: seq<Block>, i: nat)
  {
    forall k :: 0 <= k < |bs| && k != i ==> Preserved(mem, mem', bs[k])
  }

  /** A block of `bytes` bytes at `at` starts with the bytes of `b`, as many as both sizes have. */
  predicate Carried(mem: seq<Byte>, mem': seq<Byte>, b: Block, at: nat, bytes: nat)
  {
    var n := Min(b.size, bytes);
    0 <= n && b.off + n <= |mem| && at + n <= |mem'| && mem'[at..at + n] == mem[b.off..b.off + n]
  }

  /** Everything below the old top unchanged: so is every live block. */
  lemma KeptBelow(mem: seq<Byte>, mem': seq<Byte>, bs: seq<Block>, u: nat, i: nat)
    requires Laid(mem, bs, u) && |mem| == |mem'| && u <= |mem| && mem[..u] == mem'[..u]
    ensures OthersPreserved(mem, mem', bs, i)
  {
    forall k | 0 <= k < |bs|
      ensures Preserved(mem, mem', bs[k])
    {
      assert Intact(mem, bs[k], u);
      SamePrefix(mem, mem', u, bs[k].off, bs[k].off + bs[k].size);
    }
  }

  /** Only the last block's header rewritten: every other live block is unchanged, and so is its payload. */
  lemma KeptAround(mem: seq<Byte>, mem': seq<Byte>, bs: seq<Block>, i: nat, bytes: nat, u: nat)
    requires Laid(mem, bs, u) && u <= |mem| && |mem| == |mem'| && i == |bs| - 1
    requires var off := bs[i].off; HDR <= off <= |mem| && mem[..off - HDR] == mem'[..off - HDR] && mem[off..] == mem'[off..]
    ensures OthersPreserved(mem, mem', bs, i) && Carried(mem, mem', bs[i], bs[i].off, bytes)
  {
    forall k | 0 <= k < i
      ensures Preserved(mem, mem', bs[k])
    {
      assert Intact(mem, bs[k], u) && End(bs[k]) + HDR <= bs[i].off;
      SamePrefix(mem, mem', bs[i].off - HDR, bs[k].off, bs[k].off + bs[k].size);
    }
    assert Intact(mem, bs[i], u);
    var off, n := bs[i].off, Min(bs[i].size, bytes);
    assert mem[off..off + n] == mem[off..][..n] && mem'[off..off + n] == mem'[off..][..n];
  }

  /** Headers all lie below the last block's payload. */
  lemma LaidBelow(mem: seq<Byte>, mem': seq<Byte>, bs: seq<Block>, u: nat, at: nat)
    requires Laid(mem, bs, u) && |mem| == |mem'| && at <= |mem| && mem[..at] == mem'[..at]
    requires forall k :: 0 <= k < |bs| ==> bs[k].off <= at
    ensures Laid(mem', bs, u)
  {
    forall k | 0 <= k < |bs|
      ensures Intact(mem', bs[k], u)
    {
      assert Intact(mem, bs[k], u);
      HeaderKept(mem, mem', bs[k].off - HDR, at);
    }
  }

  /** The block's first bytes copied into a fresh block above the old top `u`. */
  lemma CopiedUp(mem: seq<Byte>, mid: seq<Byte>, mem': seq<Byte>, b: Block, at: nat, bytes: nat, u: nat)
    requires |mem| == |mid| == |mem'| && u <= at <= |mem| && b.off + b.size <= u && mid[..u] == mem[..u] && mem'[..at] == mid[..at]
    requires var n := Min(b.size, bytes);
      0 <= n && at + n <= |mem| && mem'[at..at + n] == mid[b.off..b.off + n]
    ensures mem'[..u] == mem[..u] && Carried(mem, mem', b, at, bytes)
  {
    var n := Min(b.size, bytes);
    SamePrefix(mid, mem, u, b.off, b.off + n);
    SamePrefix(mem', mid, at, 0, u);
    assert mem'[..u] == mem'[0..u] && mid[..u] == mid[0..u];
  }

  lemma CarriedOver(mem: seq<Byte>, mid: seq<Byte>, mem': seq<Byte>, bs: seq<Block>, i: nat, at: nat, bytes: nat, u: nat)
    requires i < |bs| && Laid(mem, bs, u) && |mem| == |mid| == |mem'| && u <= at <= |mem| && mid[..u] == mem[..u] && mem'[..at] == mid[..at]
    requires var b, n := bs[i], Min(bs[i].size, bytes);
      0 <= n && at + n <= |mem| && b.off + n <= |mid| && mem'[at..at + n] == mid[b.off..b.off + n]
    ensures Carried(mem, mem', bs[i], at, bytes) && OthersPreserved(mem, mem', bs, i)
  {
    assert Intact(mem, bs[i], u);
    CopiedUp(mem, mid, mem', bs[i], at, bytes, u);
    KeptBelow(mem, mem', bs, u, i);
  }

  /** Nothing changed but bytes `lo` to `hi`. */
  predicate WrittenIn(mem: seq<Byte>, mem': seq<Byte>, lo: int, hi: int)
  {
    |mem| == |mem'| && forall x :: 0 <= x < |mem| && !(lo <= x < hi) ==> mem'[x] == mem[x]
  }

  lemma HeaderAway(mem: seq<Byte>, mem': seq<Byte>, lo: int, hi: int, at: nat)
    requires WrittenIn(mem, mem', lo, hi) && at + 4 <= |mem| && (at + 4 <= lo || hi <= at)
    ensures Rd32(mem', at) == Rd32(mem, at)
  {
    assert forall k :: at <= k < at + 4 ==> mem'[k] == mem[k];
  }

  /** A client that writes within its own block's bytes harms no header and no other block. */
  lemma PayloadWritten(mem: seq<Byte>, mem': seq<Byte>, blocks: seq<Block>, used: nat, i: nat)
    requires Laid(mem, blocks, used) && i < |blocks| && WrittenIn(mem, mem', blocks[i].off, blocks[i].off + blocks[i].size)
    ensures Laid(mem', blocks, used) && OthersPreserved(mem, mem', blocks, i)
  {
    var lo, hi := blocks[i].off, blocks[i].off + blocks[i].size;
    assert Intact(mem, blocks[i], used);
    forall k | 0 <= k < |blocks|
      ensures Intact(mem', blocks[k], used) && (k != i ==> Preserved(mem, mem', blocks[k]))
    {
      assert Intact(mem, blocks[k], used);
      if k != i {
        BlocksDisjoint(mem, blocks, used, k, i);
        var b := blocks[k];
        assert forall x :: b.off <= x < b.off + b.size ==> mem'[x] == mem[x];
        assert mem'[b.off..b.off + b.size] == mem[b.off..b.off + b.size];
      }
      HeaderAway(mem, mem', lo, hi, blocks[k].off - HDR);
    }
  }

  // ---- the arena ------------------------------------------------------------------------------

  class Arena {
    const base: array<Byte>
    const cap: nat
    var used: nat
    var highWater: nat
    var last: nat
    var oom: bool
    /** The blocks handed out since the last reset and not given back, in address order. */
    ghost var blocks: seq<Block>

    ghost predicate Valid()
      reads this, base
    {
      && base.Length == cap < TWO32 && Eights(used) && used <= highWater <= cap
      && Laid(base[..], blocks, used)
      && (last == 0 ==> used == 0 && blocks == [])
      && (last > 0 ==> HDR <= last <= used && Eights(last))
      && (forall i :: 0 <= i < |blocks| ==> blocks[i].off <= last && (blocks[i].off == last ==> End(blocks[i]) == used))
    }

    constructor (store: array<Byte>)
      requires store.Length < TWO32
      ensures Valid() && base == store && used == 0 && blocks == [] && highWater == 0 && !oom
    {
      base, cap := store, store.Length;
      used, highWater, last, oom, blocks := 0, 0, 0, false, [];
    }

    method Reset()
      requires Valid()
      modifies this
      ensures Valid() && used == 0 && blocks == [] && highWater == old(highWater) && oom == old(oom)
    {
      used, last, blocks := 0, 0, [];
    }

    /** Record a block's size in its header and account for the new top. */
    method Commit(off: nat, bytes: nat, end: nat)
      requires base.Length == cap < TWO32 && HDR <= off <= end <= cap && bytes < TWO32
      modifies this, base
      ensures used == end && last == off && oom == old(oom) && blocks == old(blocks)
      ensures highWater == if end > old(highWater) then end else old(highWater)
      ensures Rd32(base[..], off - HDR) == bytes
      ensures base[..off - HDR] == old(base[..off - HDR]) && base[off - 4..] == old(base[off - 4..])
    {
      Copy(base, off - HDR, Le32(bytes));
      assert base[..][off - HDR..off - 4] == base[off - HDR..off - 4];
      Le32RoundTrip(base[..], off - HDR, bytes);
      used, last := end, off;
      if used > highWater {
        highWater := used;
      }
    }

    /** A fresh block, or nothing when it does not fit. */
    method Alloc(bytes: U32) returns (p: Option<nat>)
      requires Valid() && AllocSound(used, bytes, cap)
      modifies this, base
      ensures Valid() && highWater >= old(highWater)
      ensures p.Some? == (TrueEnd(old(used), bytes) <= cap)
      ensures p.Some? ==>
        && Eights(p.value) && p.value == old(used) + HDR && used == TrueEnd(old(used), bytes)
        && blocks == old(blocks) + [Block(p.value, bytes)] && last == p.value && oom == old(oom)
        && base[..old(used)] == old(base[..used]) && highWater == if used > old(highWater) then used else old(highWater)
      ensures p.None? ==>
        && oom && used == old(used) && last == old(last) && blocks == old(blocks) && highWater == old(highWater)
        && base[..] == old(base[..])
    {
      hide Intact;
      if NoOverflow(used, bytes) {
        EndExact(used, bytes);
      }
      var data := Wrap32(AlignUp(used) + HDR);
      var end := ComputedEnd(used, bytes);
      if end > cap {
        oom := true;
        return None;
      }
      RoundOfEights(used);
      EightsAdd(used, HDR);
      EightsAdd(data, Round(bytes));
      ghost var mem, was := base[..], used;
      Commit(data, bytes, end);
      LaidExtended(mem, base[..], blocks, was, Block(data, bytes), end);
      blocks := blocks + [Block(data, bytes)];
      p := Some(data);
    }

    /** Giving a block back does nothing until the next reset. */
    ghost method Free(i: nat)
      requires Valid() && i < |blocks|
      modifies `blocks
      ensures Valid() && blocks == Without(old(blocks), i)
    {
      LaidWithout(base[..], blocks, used, i);
      blocks := Without(blocks, i);
    }

    /** A client stores into a block it was given: the arena, and every other block, is as it was. */
    method Store(ptr: nat, at: nat, data: seq<Byte>, ghost i: nat)
      requires Valid() && i < |blocks| && ptr == blocks[i].off && at + |data| <= blocks[i].size && ptr + at + |data| <= base.Length
      modifies base
      ensures Valid() && base[ptr + at..ptr + at + |data|] == data
      ensures OthersPreserved(old(base[..]), base[..], blocks, i)
    {
      ghost var mem := base[..];
      Copy(base, ptr + at, data);
      ghost var lo, hi := ptr + at, ptr + at + |data|;
      forall x | 0 <= x < |mem| && !(lo <= x < hi)
        ensures base[..][x] == mem[x]
      {
        if x < lo {
          assert base[..lo][x] == mem[..lo][x];
        } else {
          assert base[hi..][x - hi] == mem[hi..][x - hi];
        }
      }
      PayloadWritten(mem, base[..], blocks, used, i);
    }

    /** Grow or shrink the newest block where it is. */
    method ResizeLast(bytes: U32, ghost i: nat) returns (p: Option<nat>)
      requires Valid() && i < |blocks| && blocks[i].off == last && ResizeSound(last, bytes, cap)
      modifies this, base
      ensures Valid() && highWater >= old(highWater) && p.Some? == (old(last) + Round(bytes) <= cap)
      ensures p.Some? ==>
        && p.value == old(last) && blocks == old(blocks)[i := Block(old(last), bytes)] && p.value + bytes <= used
        && OthersPreserved(old(base[..]), base[..], old(blocks), i)
        && Carried(old(base[..]), base[..], old(blocks)[i], p.value, bytes)
      ensures p.None? ==> oom && used == old(used) && last == old(last) && blocks == old(blocks) && base[..] == old(base[..])
    {
      LastIsLast(i);
      if last + Round(bytes) < TWO32 {
        ResizedEndExact(last, bytes);
      }
      var end := ResizedEnd(last, bytes);
      if end > cap {
        oom := true;
        return None;
      }
      Rewrite(bytes, i, end);
      p := Some(last);
    }

    /** The newest block's header rewritten, and the top moved to its new end. */
    method Rewrite(bytes: U32, ghost i: nat, end: nat)
      requires Valid() && i == |blocks| - 1 && blocks[i].off == last && end == last + Round(bytes) <= cap
      modifies this, base
      ensures Valid() && highWater >= old(highWater) && last == old(last)
      ensures blocks == old(blocks)[i := Block(last, bytes)] && last + bytes <= used
      ensures OthersPreserved(old(base[..]), base[..], old(blocks), i)
      ensures Carried(old(base[..]), base[..], old(blocks)[i], last, bytes)
    {
      ghost var mem, bs, top := base[..], blocks, used;
      EightsAdd(last, Round(bytes));
      Commit(last, bytes, end);
      assert base[last..] == base[last - 4..][4..] && mem[last..] == mem[last - 4..][4..];
      LaidResized(mem, base[..], bs, top, bytes, end);
      KeptAround(mem, base[..], bs, i, bytes, top);
      blocks := bs[i := Block(last, bytes)];
    }

    /** The block at `last` is the last one. */
    lemma LastIsLast(i: nat)
      requires Valid() && i < |blocks| && blocks[i].off == last
      ensures i == |blocks| - 1
    {
      var k := |blocks| - 1;
      assert blocks[k].off <= last;
    }

    /**
     * Resize a live block. On success its first bytes are the old ones, as many as both
     * sizes have, and every other live block keeps its place and its bytes. On failure
     * nothing changes but the flag.
     */
    method Realloc(ptr: nat, bytes: U32, ghost i: nat) returns (p: Option<nat>)
      requires Valid() && i < |blocks| && ptr == blocks[i].off
      requires if ptr == last then ResizeSound(last, bytes, cap) else AllocSound(used, bytes, cap)
      modifies this, base
      ensures Valid() && highWater >= old(highWater)
      ensures p.Some? == (if ptr == old(last) then ptr + Round(bytes) <= cap else TrueEnd(old(used), bytes) <= cap)
      ensures p.None? ==> oom && blocks == old(blocks) && used == old(used) && base[..] == old(base[..])
      ensures p.Some? ==> blocks == (if ptr == old(last) then old(blocks)[i := Block(ptr, bytes)]
                                     else Without(old(blocks), i) + [Block(p.value, bytes)])
      ensures p.Some? ==>
        && p.value + bytes <= used && Carried(old(base[..]), base[..], old(blocks)[i], p.value, bytes)
        && OthersPreserved(old(base[..]), base[..], old(blocks), i)
    {
      if last != 0 && ptr == last {
        p := ResizeLast(bytes, i);
      } else {
        p := CopyUp(ptr, bytes, i);
      }
    }

    /** A new block with the old one's bytes; the old one is abandoned. */
    method CopyUp(ptr: nat, bytes: U32, ghost i: nat) returns (p: Option<nat>)
      requires Valid() && i < |blocks| && ptr == blocks[i].off && AllocSound(used, bytes, cap)
      modifies this, base
      ensures Valid() && highWater >= old(highWater) && p.Some? == (TrueEnd(old(used), bytes) <= cap)
      ensures p.None? ==> oom && blocks == old(blocks) && used == old(used) && base[..] == old(base[..])
      ensures p.Some? ==>
        && blocks == Without(old(blocks), i) + [Block(p.value, bytes)] && p.value + bytes <= used
        && Carried(old(base[..]), base[..], old(blocks)[i], p.value, bytes)
        && OthersPreserved(old(base[..]), base[..], old(blocks), i)
    {
      ghost var mem, bs, top := base[..], blocks, used;
      var size := SizeOf(ptr, i);
      p := Alloc(bytes);
      if p.Some? {
        CarryOver(p.value, ptr, Min(size, bytes), bytes, i, mem, bs, top);
      }
    }

    /** The old block's bytes copied into the fresh one at `at`, laid above the old top, and the old block given up. */
    method CarryOver(at: nat, ptr: nat, n: nat, bytes: U32, ghost i: nat, ghost mem: seq<Byte>, ghost bs: seq<Block>, ghost top: nat)
      requires Valid() && Laid(mem, bs, top) && |mem| == base.Length && top <= at <= base.Length && base[..top] == mem[..top]
      requires i < |bs| && blocks == bs + [Block(at, bytes)] && ptr == bs[i].off && n == Min(bs[i].size, bytes)
      modifies `blocks, base
      ensures Valid() && blocks == Without(bs, i) + [Block(at, bytes)] && at + bytes <= used
      ensures Carried(mem, base[..], bs[i], at, bytes) && OthersPreserved(mem, base[..], bs, i)
    {
      ghost var mid := base[..];
      MoveInto(at, ptr, n, i, bs, Block(at, bytes));
      CarriedOver(mem, mid, base[..], bs, i, at, bytes, top);
    }

    /** What a live block's header says. */
    method SizeOf(ptr: nat, ghost i: nat) returns (size: nat)
      requires Valid() && i < |blocks| && ptr == blocks[i].off
      ensures size == blocks[i].size && ptr + size <= used
    {
      assert Intact(base[..], blocks[i], used);
      size := Rd32(base[..], ptr - HDR);
    }

    /** Copy the first `n` bytes of block `i` into the newest block `b`, and give block `i` up. */
    method MoveInto(at: nat, ptr: nat, n: nat, ghost i: nat, ghost bs: seq<Block>, ghost b: Block)
      requires Valid() && i < |bs| && blocks == bs + [b] && at == b.off && ptr == bs[i].off && n <= bs[i].size && n <= b.size
      modifies `blocks, base
      ensures Valid() && blocks == Without(bs, i) + [b] && at + b.size <= used && ptr + n <= base.Length
      ensures base[..][at..at + n] == old(base[..])[ptr..ptr + n] && base[..at] == old(base[..at])
    {
      WithoutPush(bs, b, i);
      assert Intact(base[..], blocks[|bs|], used) && Intact(base[..], blocks[i], used);
      ghost var mem := base[..];
      Copy(base, at, base[ptr..ptr + n]);
      assert base[..][at..at + n] == base[at..at + n] && mem[ptr..ptr + n] == old(base[ptr..ptr + n]);
      LaidBelow(mem, base[..], blocks, used, at);
      LaidWithout(base[..], blocks, used, i);
      blocks := Without(blocks, i);
    }
  }
}
