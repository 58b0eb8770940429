/**
 * The single-producer single-consumer PCM ring: 32-bit indices that wrap, masked
 * into a power-of-two buffer of interleaved stereo samples.
 */
module PcmRing {
  import opened Words
  import opened Arith

  /** A 16-bit sample; the ring only moves it. */
  type Sample = bv16

  /** The sample slot that sample `n` of the stream uses. */
  function Slot(n: nat, cap: nat): (r: nat)
    requires cap > 0
    ensures r < 2 * cap
  {
    Residue(n, 2 * cap)
  }

  /** Two samples share a slot only when they lie a whole ring apart. */
  lemma SlotsDistinct(m: nat, n: nat, cap: nat)
    requires cap > 0 && m < n < m + 2 * cap
    ensures Slot(m, cap) != Slot(n, cap)
  {
    ResiduesDistinct(m, n, 2 * cap);
  }

  /** The two samples of a frame share the frame's place in the ring. */
  lemma {:induction false} FrameSlots(f: nat, cap: nat)
    requires cap > 0
    ensures Slot(2 * f, cap) == 2 * Residue(f, cap) && Slot(2 * f + 1, cap) == 2 * Residue(f, cap) + 1
    decreases f
  {
    if f >= cap {
      FrameSlots(f - cap, cap);
      assert 2 * f - 2 * cap == 2 * (f - cap);
    }
  }

  ghost predicate RingSize(cap: int, k: nat)
  {
    k < 32 && cap == Pow2(k)
  }

  /** The masked index both sides compute for the `i`-th frame after stream frame `base`. */
  function FrameIndex(index: U32, i: nat, cap: nat): (r: nat)
    requires cap > 0
  {
    And(Wrap32(index + i), cap - 1)
  }

  lemma FrameIndexIsSlot(base: nat, i: nat, cap: nat, k: nat)
    requires RingSize(cap, k)
    ensures FrameIndex(Wrap32(base), i, cap) == Residue(base + i, cap)
  {
    WrappedIndex(base + i, k);
    WrapAdd(base, i);
  }

  lemma WrapAdd(x: int, y: int)
    ensures Wrap32(Wrap32(x) + y) == Wrap32(x + y)
  {
  }

  /** The wrapped difference of two counters less than 2^32 apart is their true difference. */
  lemma WrapSub(hi: nat, lo: nat)
    requires lo <= hi < lo + TWO32
    ensures Wrap32(Wrap32(hi) - Wrap32(lo)) == hi - lo
  {
  }

  /** The unread part of the stream sits in the slots its sample numbers name. */
  ghost predicate Holds(buf: seq<Sample>, cap: nat, stream: seq<Sample>, from: nat)
    requires cap > 0 && |buf| == 2 * cap
  {
    forall n :: from <= n < |stream| ==> buf[Slot(n, cap)] == stream[n]
  }

  /** Storing the next sample in its slot overwrites none of the unread ones. */
  lemma HoldsOneMore(buf: seq<Sample>, cap: nat, stream: seq<Sample>, from: nat, at: nat)
    requires cap > 0 && |buf| == 2 * cap && from <= at < |stream| && at < from + 2 * cap
    requires Holds(buf, cap, stream[..at], from)
    ensures Holds(buf[Slot(at, cap) := stream[at]], cap, stream[..at + 1], from)
  {
    forall n | from <= n < at
      ensures Slot(n, cap) != Slot(at, cap)
    {
      SlotsDistinct(n, at, cap);
    }
  }

  /** The two slots of the next frame are used by none of the unread samples. */
  lemma FrameSlotsUnused(from: nat, f: nat, cap: nat)
    requires cap > 0 && 2 * f + 2 <= from + 2 * cap
    ensures forall m :: from <= m < 2 * f ==> Slot(m, cap) != Slot(2 * f, cap) && Slot(m, cap) != Slot(2 * f + 1, cap)
  {
    forall m | from <= m < 2 * f
      ensures Slot(m, cap) != Slot(2 * f, cap) && Slot(m, cap) != Slot(2 * f + 1, cap)
    {
      SlotsDistinct(m, 2 * f, cap);
      SlotsDistinct(m, 2 * f + 1, cap);
    }
  }

  /** The ring driven from one thread: whole calls, no interleaving. */
  class Ring {
    const buf: array<Sample>
    const capFrames: nat
    var wr: U32
    var rd: U32
    /** Every sample ever accepted; how many frames that is, and how many were handed out. */
    ghost var stream: seq<Sample>
    ghost var made: nat
    ghost var taken: nat
    ghost const log: nat

    ghost predicate Valid()
      reads this, buf
    {
      && RingSize(capFrames, log) && buf.Length == 2 * capFrames
      && |stream| == 2 * made && taken <= made <= taken + capFrames
      && wr == Wrap32(made) && rd == Wrap32(taken)
      && Holds(buf[..], capFrames, stream, 2 * taken)
    }

    constructor (storage: array<Sample>, cap: U32, ghost k: nat)
      requires RingSize(cap, k) && storage.Length == 2 * cap
      ensures Valid() && buf == storage && stream == [] && taken == 0
    {
      buf, capFrames, log := storage, cap, k;
      wr, rd := 0, 0;
      stream, made, taken := [], 0, 0;
    }

    lemma SizeBound()
      requires RingSize(capFrames, log)
      ensures 0 < capFrames < TWO32
    {
      Pow2Is2To32();
      Pow2Divides(log, 32);
      Pow2Divides(1, 32 - log);
      MulStep(Pow2(log), 1, Pow2(32 - log));
    }

    method Fill() returns (n: U32)
      requires Valid()
      ensures n == made - taken
    {
      SizeBound();
      WrapSub(made, taken);
      n := Wrap32(wr - rd);
    }

    /** The producer's copy loop: `n` frames of `src` into the slots after stream frame `base`. */
    method CopyIn(src: array<Sample>, n: nat, w: U32, ghost full: seq<Sample>, ghost base: nat)
      requires RingSize(capFrames, log) && buf.Length == 2 * capFrames && src != buf
      requires w == Wrap32(base) && 2 * n <= src.Length && |full| == 2 * base + 2 * n
      requires forall m :: 0 <= m < 2 * n ==> full[2 * base + m] == src[m]
      requires taken <= base <= base + n <= taken + capFrames
      requires Holds(buf[..], capFrames, full[..2 * base], 2 * taken)
      modifies buf
      ensures Holds(buf[..], capFrames, full, 2 * taken)
    {
      var i := 0;
      while i < n
        invariant i <= n
        invariant forall m :: 2 * taken <= m < 2 * base + 2 * i ==> buf[Slot(m, capFrames)] == full[m]
      {
        CopyFrame(src[2 * i], src[2 * i + 1], w, i, full, base);
        i := i + 1;
      }
    }

    /** One frame stored in the two slots its number names; no unread sample is overwritten. */
    method CopyFrame(left: Sample, right: Sample, w: U32, i: nat, ghost full: seq<Sample>, ghost base: nat)
      requires RingSize(capFrames, log) && buf.Length == 2 * capFrames && w == Wrap32(base)
      requires taken <= base && base + i < taken + capFrames && 2 * (base + i) + 2 <= |full|
      requires full[2 * (base + i)] == left && full[2 * (base + i) + 1] == right
      requires forall m :: 2 * taken <= m < 2 * (base + i) ==> buf[Slot(m, capFrames)] == full[m]
      modifies buf
      ensures forall m :: 2 * taken <= m < 2 * (base + i) + 2 ==> buf[Slot(m, capFrames)] == full[m]
    {
      FrameIndexIsSlot(base, i, capFrames, log);
      var idx := FrameIndex(w, i, capFrames);
      FrameSlots(base + i, capFrames);
      FrameSlotsUnused(2 * taken, base + i, capFrames);
      buf[2 * idx] := left;
      buf[2 * idx + 1] := right;
    }

    /** How many frames a write of `frames` is granted. */
    method Grant(frames: U32) returns (n: U32)
      requires Valid()
      ensures n == Min(frames, capFrames - (made - taken))
    {
      SizeBound();
      WrapSub(made, taken);
      var used := Wrap32(wr - rd);
      var free := Wrap32(capFrames - used);
      n := Min(frames, free);
    }

    /** Accepts as many frames as fit; the ring's stream grows by exactly those. */
    method Write(src: array<Sample>, frames: U32) returns (n: U32)
      requires Valid() && src.Length >= 2 * frames && src != buf
      modifies this, buf
      ensures Valid() && taken == old(taken)
      ensures n == Min(frames, capFrames - (old(made) - taken))
      ensures stream == old(stream) + src[..2 * n]
    {
      n := Grant(frames);
      ghost var full := stream + src[..2 * n];
      assert full[..2 * made] == stream;
      CopyIn(src, n, wr, full, made);
      WrapAdd(made, n);
      wr := Wrap32(wr + n);
      stream, made := full, made + n;
    }

    /** The consumer's copy loop: `n` frames from the slots after stream frame `base`. */
    method CopyOut(dst: array<Sample>, n: nat, r: U32, ghost full: seq<Sample>, ghost base: nat)
      requires RingSize(capFrames, log) && buf.Length == 2 * capFrames && dst != buf
      requires r == Wrap32(base) && 2 * n <= dst.Length && 2 * base + 2 * n <= |full|
      requires forall m :: 2 * base <= m < |full| ==> buf[Slot(m, capFrames)] == full[m]
      modifies dst
      ensures forall m :: 0 <= m < 2 * n ==> dst[m] == full[2 * base + m]
      ensures forall m :: 2 * n <= m < dst.Length ==> dst[m] == old(dst[m])
    {
      var i := 0;
      while i < n
        invariant i <= n
        invariant forall m :: 0 <= m < 2 * i ==> dst[m] == full[2 * base + m]
        invariant forall m :: 2 * n <= m < dst.Length ==> dst[m] == old(dst[m])
      {
        var left, right := FrameAt(r, i, full, base);
        dst[2 * i] := left;
        dst[2 * i + 1] := right;
        i := i + 1;
      }
    }

    /** The two samples of one frame, out of the slots its number names. */
    method FrameAt(r: U32, i: nat, ghost full: seq<Sample>, ghost base: nat) returns (left: Sample, right: Sample)
      requires RingSize(capFrames, log) && buf.Length == 2 * capFrames && r == Wrap32(base) && 2 * (base + i) + 2 <= |full|
      requires forall m :: 2 * base <= m < |full| ==> buf[Slot(m, capFrames)] == full[m]
      ensures left == full[2 * (base + i)] && right == full[2 * (base + i) + 1]
    {
      FrameIndexIsSlot(base, i, capFrames, log);
      FrameSlots(base + i, capFrames);
      var idx := FrameIndex(r, i, capFrames);
      left, right := buf[2 * idx], buf[2 * idx + 1];
    }

    /** Hands out the oldest unread frames, in order, and leaves the rest of `dst` alone. */
    method Read(dst: array<Sample>, frames: U32) returns (n: U32)
      requires Valid() && dst.Length >= 2 * frames && dst != buf
      modifies this, dst
      ensures Valid() && stream == old(stream) && taken == old(taken) + n
      ensures n == Min(frames, made - old(taken))
      ensures dst[..2 * n] == stream[2 * old(taken)..2 * taken]
      ensures dst[2 * n..] == old(dst[2 * n..])
    {
      SizeBound();
      WrapSub(made, taken);
      var avail := Wrap32(wr - rd);
      n := Min(frames, avail);
      CopyOut(dst, n, rd, stream, taken);
      WrapAdd(taken, n);
      rd := Wrap32(rd + n);
      taken := taken + n;
    }
  }

  // ---- the two sides interleaved ------------------------------------------

  /** Registers of a call in progress: `own` and `frames` fixed when it observed the other side. */
  datatype Producer = PIdle | PCopying(w: U32, frames: U32, i: nat, src: seq<Sample>)
  datatype Consumer = CIdle | CCopying(r: U32, frames: U32, i: nat, dst: seq<Sample>)

  /** Shared memory, both sides' registers, and what each side has published so far. */
  datatype State = State(
    buf: seq<Sample>, wr: U32, rd: U32,
    producer: Producer, consumer: Consumer,
    produced: seq<Sample>, consumed: seq<Sample>)

  /** One atomic action. A copy step moves one sample, so a frame takes two. */
  datatype Action =
    | BeginWrite(src: seq<Sample>, want: U32)
    | CopyIn
    | PublishWr
    | BeginRead(count: U32)
    | CopyOut
    | PublishRd

  function Init(storage: seq<Sample>): State
  {
    State(storage, 0, 0, PIdle, CIdle, [], [])
  }

  /** The slot of the `i`-th sample copied by a call that began at frame index `own`. */
  function SampleIndex(own: U32, i: nat, cap: nat): nat
    requires cap > 0
  {
    2 * FrameIndex(own, i / 2, cap) + i % 2
  }

  predicate Enabled(s: State, a: Action, cap: nat)
    requires cap > 0
  {
    match a
    case BeginWrite(src, want) => s.producer.PIdle? && |src| >= 2 * want
    case CopyIn => s.producer.PCopying? && s.producer.i < 2 * s.producer.frames
      && s.producer.i < |s.producer.src| && SampleIndex(s.producer.w, s.producer.i, cap) < |s.buf|
    case PublishWr => s.producer.PCopying? && s.producer.i == 2 * s.producer.frames && s.producer.i <= |s.producer.src|
    case BeginRead(_) => s.consumer.CIdle?
    case CopyOut => s.consumer.CCopying? && s.consumer.i < 2 * s.consumer.frames
      && SampleIndex(s.consumer.r, s.consumer.i, cap) < |s.buf|
    case PublishRd => s.consumer.CCopying? && s.consumer.i == 2 * s.consumer.frames
  }

  /** The action, or no change when the side it belongs to is not at that point. */
  function Step(s: State, a: Action, cap: U32): State
    requires cap > 0
  {
    if !Enabled(s, a, cap) then s else
    match a
    case BeginWrite(src, want) =>
      var free := Wrap32(cap - Wrap32(s.wr - s.rd));
      s.(producer := PCopying(s.wr, Min(want, free), 0, src))
    case CopyIn =>
      var p := s.producer;
      s.(buf := s.buf[SampleIndex(p.w, p.i, cap) := p.src[p.i]], producer := p.(i := p.i + 1))
    case PublishWr =>
      var p := s.producer;
      s.(wr := Wrap32(p.w + p.frames), producer := PIdle, produced := s.produced + p.src[..p.i])
    case BeginRead(want) =>
      s.(consumer := CCopying(s.rd, Min(want, Wrap32(s.wr - s.rd)), 0, []))
    case CopyOut =>
      var c := s.consumer;
      s.(consumer := c.(i := c.i + 1, dst := c.dst + [s.buf[SampleIndex(c.r, c.i, cap)]]))
    case PublishRd =>
      var c := s.consumer;
      s.(rd := Wrap32(c.r + c.frames), consumer := CIdle, consumed := s.consumed + c.dst)
  }

  function Run(s: State, actions: seq<Action>, cap: U32): State
    requires cap > 0
    decreases |actions|
  {
    if actions == [] then s else Run(Step(s, actions[0], cap), actions[1..], cap)
  }

  /** What the consumer holds: published reads plus the read in progress. */
  function Received(s: State): seq<Sample>
  {
    if s.consumer.CIdle? then s.consumed else s.consumed + s.consumer.dst
  }

  /** What the producer has put in the ring: published writes plus the copied part of one in progress. */
  ghost function Placed(s: State): seq<Sample>
  {
    if s.producer.PCopying? && s.producer.i <= |s.producer.src|
    then s.produced + s.producer.src[..s.producer.i] else s.produced
  }

  ghost predicate Inv(s: State, cap: nat, k: nat)
  {
    && RingSize(cap, k) && 0 < cap < TWO32 && |s.buf| == 2 * cap
    && |s.produced| % 2 == 0 && |s.consumed| % 2 == 0
    && s.wr == Wrap32(|s.produced| / 2) && s.rd == Wrap32(|s.consumed| / 2)
    && |s.consumed| <= |s.produced| <= |s.consumed| + 2 * cap
    && s.consumed == s.produced[..|s.consumed|]
    && (s.producer.PCopying? ==>
        && s.producer.w == s.wr
        && s.producer.i <= 2 * s.producer.frames <= |s.producer.src|
        && |s.produced| + 2 * s.producer.frames <= |s.consumed| + 2 * cap)
    && (s.consumer.CCopying? ==>
        && s.consumer.r == s.rd
        && s.consumer.i == |s.consumer.dst| <= 2 * s.consumer.frames
        && |s.consumed| + 2 * s.consumer.frames <= |s.produced|
        && s.consumer.dst == s.produced[|s.consumed|..|s.consumed| + s.consumer.i])
    && Holds(s.buf, cap, Placed(s), |s.consumed|)
  }

  lemma SampleIndexIsSlot(base: nat, i: nat, cap: nat, k: nat)
    requires RingSize(cap, k)
    ensures SampleIndex(Wrap32(base), i, cap) == Slot(2 * base + i, cap) < 2 * cap
  {
    FrameIndexIsSlot(base, i / 2, cap, k);
    FrameSlots(base + i / 2, cap);
  }

  lemma CopyInHolds(s: State, cap: U32, k: nat)
    requires Inv(s, cap, k) && Enabled(s, CopyIn, cap)
    ensures var s' := Step(s, CopyIn, cap);
      |s'.buf| == 2 * cap && Holds(s'.buf, cap, Placed(s'), |s.consumed|)
  {
    var p := s.producer;
    var at, full := |s.produced| + p.i, s.produced + p.src;
    PlacedOneMore(s, cap);
    NextSlot(s, cap, k);
    HoldsOneMore(s.buf, cap, full, |s.consumed|, at);
  }

  /** The slot the producer copies into is the one its sample number names. */
  lemma NextSlot(s: State, cap: U32, k: nat)
    requires Inv(s, cap, k) && s.producer.PCopying?
    ensures SampleIndex(s.producer.w, s.producer.i, cap) == Slot(|s.produced| + s.producer.i, cap) < 2 * cap
  {
    SampleIndexIsSlot(|s.produced| / 2, s.producer.i, cap, k);
  }

  lemma PlacedOneMore(s: State, cap: U32)
    requires cap > 0 && s.producer.PCopying? && s.producer.i < |s.producer.src|
    ensures var full, at := s.produced + s.producer.src, |s.produced| + s.producer.i;
      Placed(s) == full[..at] && Placed(s.(producer := s.producer.(i := s.producer.i + 1))) == full[..at + 1]
      && full[at] == s.producer.src[s.producer.i]
  {
  }

  lemma CopyInKeeps(s: State, cap: U32, k: nat)
    requires Inv(s, cap, k) && Enabled(s, CopyIn, cap)
    ensures Inv(Step(s, CopyIn, cap), cap, k)
  {
    CopyInHolds(s, cap, k);
  }

  /** The slot the consumer copies next still holds the sample it should. */
  lemma NextSample(s: State, cap: U32, k: nat)
    requires Inv(s, cap, k) && Enabled(s, CopyOut, cap)
    ensures var n := |s.consumed| + s.consumer.i;
      n < |s.produced| && s.buf[SampleIndex(s.consumer.r, s.consumer.i, cap)] == s.produced[n]
  {
    var c := s.consumer;
    SampleIndexIsSlot(|s.consumed| / 2, c.i, cap, k);
    var n := |s.consumed| + c.i;
    assert Placed(s)[n] == s.produced[n];
  }

  lemma CopyOutKeeps(s: State, cap: U32, k: nat)
    requires Inv(s, cap, k) && Enabled(s, CopyOut, cap)
    ensures Inv(Step(s, CopyOut, cap), cap, k)
  {
    NextSample(s, cap, k);
    var c, n := s.consumer, |s.consumed| + s.consumer.i;
    var dst := c.dst + [s.produced[n]];
    assert dst == s.produced[|s.consumed|..n + 1];
    assert Step(s, CopyOut, cap) == s.(consumer := CCopying(c.r, c.frames, c.i + 1, dst));
    CopyOutFrame(s, CCopying(c.r, c.frames, c.i + 1, dst), cap, k);
  }

  lemma CopyOutFrame(s: State, c: Consumer, cap: nat, k: nat)
    requires Inv(s, cap, k) && c.CCopying? && c.r == s.rd && c.i == |c.dst| <= 2 * c.frames
    requires |s.consumed| + 2 * c.frames <= |s.produced|
    requires c.dst == s.produced[|s.consumed|..|s.consumed| + c.i]
    ensures Inv(s.(consumer := c), cap, k)
  {
    assert Placed(s.(consumer := c)) == Placed(s);
  }

  lemma BeginKeeps(s: State, a: Action, cap: U32, k: nat)
    requires Inv(s, cap, k) && (a.BeginWrite? || a.BeginRead?) && Enabled(s, a, cap)
    ensures Inv(Step(s, a, cap), cap, k)
  {
    WrapSub(|s.produced| / 2, |s.consumed| / 2);
    var s' := Step(s, a, cap);
    assert Placed(s') == Placed(s);
  }

  lemma PublishWrKeeps(s: State, cap: U32, k: nat)
    requires Inv(s, cap, k) && Enabled(s, PublishWr, cap)
    ensures Inv(Step(s, PublishWr, cap), cap, k)
  {
    var p := s.producer;
    WrapAdd(|s.produced| / 2, p.frames);
    var s' := Step(s, PublishWr, cap);
    assert Placed(s') == Placed(s) == s'.produced;
    assert |s'.produced| / 2 == |s.produced| / 2 + p.frames;
  }

  lemma PublishRdKeeps(s: State, cap: U32, k: nat)
    requires Inv(s, cap, k) && Enabled(s, PublishRd, cap)
    ensures Inv(Step(s, PublishRd, cap), cap, k)
  {
    var c := s.consumer;
    WrapAdd(|s.consumed| / 2, c.frames);
    var s' := Step(s, PublishRd, cap);
    assert |s'.consumed| / 2 == |s.consumed| / 2 + c.frames;
    assert Placed(s') == Placed(s);
  }

  lemma StepKeeps(s: State, a: Action, cap: U32, k: nat)
    requires Inv(s, cap, k)
    ensures Inv(Step(s, a, cap), cap, k)
  {
    if Enabled(s, a, cap) {
      match a
      case CopyIn => CopyInKeeps(s, cap, k);
      case CopyOut => CopyOutKeeps(s, cap, k);
      case BeginWrite(_, _) => BeginKeeps(s, a, cap, k);
      case PublishWr => PublishWrKeeps(s, cap, k);
      case BeginRead(_) => BeginKeeps(s, a, cap, k);
      case PublishRd => PublishRdKeeps(s, cap, k);
    }
  }

  lemma {:induction false} RunKeeps(s: State, actions: seq<Action>, cap: U32, k: nat)
    requires Inv(s, cap, k)
    ensures Inv(Run(s, actions, cap), cap, k)
    decreases |actions|
  {
    if actions != [] {
      StepKeeps(s, actions[0], cap, k);
      RunKeeps(Step(s, actions[0], cap), actions[1..], cap, k);
    }
  }

  /**
   * Under every interleaving the consumer receives a prefix of what the producer
   * published, and every placed sample not yet published as consumed is intact.
   */
  lemma Linear(storage: seq<Sample>, actions: seq<Action>, cap: U32, k: nat)
    requires cap > 0 && RingSize(cap, k) && |storage| == 2 * cap
    ensures var s := Run(Init(storage), actions, cap);
      && Received(s) <= s.produced && |s.buf| == 2 * cap
      && |Placed(s)| - |s.consumed| <= 2 * cap
      && Holds(s.buf, cap, Placed(s), |s.consumed|)
  {
    InitHolds(storage, cap, k);
    RunKeeps(Init(storage), actions, cap, k);
    InvMeans(Run(Init(storage), actions, cap), cap, k);
  }

  lemma InvMeans(s: State, cap: U32, k: nat)
    requires Inv(s, cap, k)
    ensures Received(s) <= s.produced && |s.buf| == 2 * cap
    ensures |Placed(s)| - |s.consumed| <= 2 * cap && Holds(s.buf, cap, Placed(s), |s.consumed|)
  {
    if s.consumer.CCopying? {
      var n := |s.consumed| + s.consumer.i;
      assert Received(s) == s.produced[..n];
    }
  }

  lemma InitHolds(storage: seq<Sample>, cap: U32, k: nat)
    requires cap > 0 && RingSize(cap, k) && |storage| == 2 * cap
    ensures Inv(Init(storage), cap, k)
  {
  }
}
