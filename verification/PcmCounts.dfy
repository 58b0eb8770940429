/**
 * The count of unread frames, taken by two separate loads while others move: what each
 * side, and a third party, may make of it.
 */
module PcmCounts {
  import opened Words
  import opened Arith
  import opened PcmRing

  predicate OfProducer(a: Action)
  {
    a.BeginWrite? || a.CopyIn? || a.PublishWr?
  }

  function Unread(s: State): int
  {
    |s.produced| / 2 - |s.consumed| / 2
  }

  /** What the count of unread frames comes to when the write index is loaded at `s` and the read index at `s'`. */
  function FillSeen(s: State, s': State): U32
  {
    Wrap32(s.wr - s'.rd)
  }

  /** And of the free ones. */
  function FreeSeen(s: State, s': State, cap: U32): U32
  {
    Wrap32(cap - FillSeen(s, s'))
  }

  lemma UnreadBound(s: State, cap: U32, k: nat)
    requires Inv(s, cap, k)
    ensures 0 <= Unread(s) <= cap
    ensures Wrap32(s.wr - s.rd) == Unread(s)
  {
    WrapSub(|s.produced| / 2, |s.consumed| / 2);
  }

  lemma Room(cap: nat, fill: int)
    requires -TWO32 < cap - TWO32 < fill <= cap < TWO32
    ensures Wrap32(cap - Wrap32(fill)) == cap - fill
  {
  }

  lemma {:induction false} ProducerAlone(s: State, actions: seq<Action>, cap: U32)
    requires cap > 0 && forall i :: 0 <= i < |actions| ==> OfProducer(actions[i])
    ensures var s' := Run(s, actions, cap); s'.rd == s.rd && s'.consumed == s.consumed && |s'.produced| >= |s.produced|
    decreases |actions|
  {
    if actions != [] {
      ProducerAlone(Step(s, actions[0], cap), actions[1..], cap);
    }
  }

  lemma {:induction false} ConsumerAlone(s: State, actions: seq<Action>, cap: U32)
    requires cap > 0 && forall i :: 0 <= i < |actions| ==> !OfProducer(actions[i])
    ensures var s' := Run(s, actions, cap); s'.wr == s.wr && s'.produced == s.produced && |s'.consumed| >= |s.consumed|
    decreases |actions|
  {
    if actions != [] {
      ConsumerAlone(Step(s, actions[0], cap), actions[1..], cap);
    }
  }

  /** Counting while only the producer moves, the consumer is told what was there at first: at least that much is there. */
  lemma FillByConsumer(s: State, actions: seq<Action>, cap: U32, k: nat)
    requires Inv(s, cap, k) && forall i :: 0 <= i < |actions| ==> OfProducer(actions[i])
    ensures var s' := Run(s, actions, cap);
      FillSeen(s, s') == Unread(s) <= Unread(s') && FreeSeen(s, s', cap) == cap - Unread(s) >= cap - Unread(s')
  {
    hide Run;
    ProducerAlone(s, actions, cap);
    UnreadBound(s, cap, k);
    Room(cap, Unread(s));
  }

  /** While only the consumer moves, the producer is told what is there at last: its room is no less than it thinks. */
  lemma FillByProducer(s: State, actions: seq<Action>, cap: U32, k: nat)
    requires Inv(s, cap, k) && forall i :: 0 <= i < |actions| ==> !OfProducer(actions[i])
    ensures var s' := Run(s, actions, cap);
      FillSeen(s, s') == Unread(s') <= Unread(s) && FreeSeen(s, s', cap) == cap - Unread(s') >= cap - Unread(s)
  {
    hide Run;
    ConsumerAlone(s, actions, cap);
    RunKeeps(s, actions, cap, k);
    UnreadBound(Run(s, actions, cap), cap, k);
    Room(cap, Unread(Run(s, actions, cap)));
  }

  /**
   * A third party, with both sides moving between its two loads, sees a possible count
   * exactly when no more frames were consumed in between than were unread at first.
   */
  lemma FillByThird(s: State, actions: seq<Action>, cap: U32, k: nat)
    requires Inv(s, cap, k)
    requires |Run(s, actions, cap).consumed| / 2 - |s.produced| / 2 < TWO32 - cap
    ensures var s' := Run(s, actions, cap);
      var moved := |s'.consumed| / 2 - |s.consumed| / 2;
      && (FillSeen(s, s') <= cap <==> moved <= Unread(s))
      && FillSeen(s, s') == (if moved <= Unread(s) then Unread(s) - moved else TWO32 + Unread(s) - moved)
      && FreeSeen(s, s', cap) == cap - (Unread(s) - moved)
  {
    hide Run;
    RunKeeps(s, actions, cap, k);
    ConsumedGrows(s, actions, cap);
    UnreadBound(s, cap, k);
    var b := |Run(s, actions, cap).consumed| / 2;
    WrappedCount(|s.produced| / 2, b, cap);
    Room(cap, |s.produced| / 2 - b);
  }

  lemma WrappedCount(a: nat, b: nat, cap: nat)
    requires a - b <= cap < TWO32 && b - a < TWO32 - cap
    ensures Wrap32(Wrap32(a) - Wrap32(b)) == (if b <= a then a - b else TWO32 + a - b) == Wrap32(a - b)
  {
  }

  lemma {:induction false} ConsumedGrows(s: State, actions: seq<Action>, cap: U32)
    requires cap > 0
    ensures |Run(s, actions, cap).consumed| >= |s.consumed|
    decreases |actions|
  {
    if actions != [] {
      ConsumedGrows(Step(s, actions[0], cap), actions[1..], cap);
    }
  }

  /** In a ring of one frame both samples go where their numbers say. */
  lemma OneFrame(own: U32, i: nat, cap: nat)
    requires own == 0 && cap == 1 && i < 2
    ensures SampleIndex(own, i, cap) == i
  {
    SampleIndexIsSlot(own, i, cap, 0);
  }

  /** A ring of one frame from which nothing was read yet, at sample `i` of the producer's call and sample `j` of the consumer's. */
  predicate AtSamples(s: State, wr: U32, rd: U32, i: int, j: int)
  {
    && s.wr == wr && s.rd == rd && |s.buf| == 2
    && (if i < 0 then s.producer.PIdle?
        else s.producer.PCopying? && s.producer.w == 0 && s.producer.frames == 1 && s.producer.i == i && |s.producer.src| == 2)
    && (if j < 0 then s.consumer.CIdle?
        else s.consumer.CCopying? && s.consumer.r == 0 && s.consumer.frames == 1 && s.consumer.i == j)
  }

  lemma BeginsWrite(s: State, a: Action, cap: U32)
    requires cap == 1 && AtSamples(s, 0, 0, -1, -1) && a.BeginWrite? && |a.src| == 2 && a.want == 1
    ensures AtSamples(Step(s, a, cap), 0, 0, 0, -1)
  {
    assert Wrap32(cap - Wrap32(s.wr - s.rd)) == 1;
  }

  lemma CopiesIn(s: State, i: nat, cap: U32)
    requires cap == 1 && i < 2 && AtSamples(s, 0, 0, i, -1)
    ensures AtSamples(Step(s, CopyIn, cap), 0, 0, i + 1, -1)
  {
    OneFrame(s.producer.w, i, cap);
  }

  lemma BeginsRead(s: State, cap: U32)
    requires cap == 1 && AtSamples(s, 1, 0, -1, -1)
    ensures AtSamples(Step(s, BeginRead(1), cap), 1, 0, -1, 0)
  {
    assert Wrap32(s.wr - s.rd) == 1;
  }

  lemma CopiesOut(s: State, j: nat, cap: U32)
    requires cap == 1 && j < 2 && AtSamples(s, 1, 0, -1, j)
    ensures AtSamples(Step(s, CopyOut, cap), 1, 0, -1, j + 1)
  {
    OneFrame(s.consumer.r, j, cap);
  }

  lemma Publishes(s: State, cap: U32)
    requires cap == 1
    ensures AtSamples(s, 0, 0, 2, -1) ==> AtSamples(Step(s, PublishWr, cap), 1, 0, -1, -1)
    ensures AtSamples(s, 1, 0, -1, 2) ==> AtSamples(Step(s, PublishRd, cap), 1, 1, -1, -1)
  {
  }

  lemma RunOne(s: State, actions: seq<Action>, cap: U32)
    requires cap > 0 && actions != []
    ensures Run(s, actions, cap) == Run(Step(s, actions[0], cap), actions[1..], cap)
  {
  }

  /** The whole write, */
  lemma WholeWrite(s: State, actions: seq<Action>, cap: U32) returns (s': State)
    requires cap == 1 && AtSamples(s, 0, 0, -1, -1) && |actions| >= 4
    requires actions[0].BeginWrite? && |actions[0].src| == 2 && actions[0].want == 1
    requires actions[1] == CopyIn && actions[2] == CopyIn && actions[3] == PublishWr
    ensures AtSamples(s', 1, 0, -1, -1) && Run(s, actions, cap) == Run(s', actions[4..], cap)
  {
    BeginsWrite(s, actions[0], cap);
    RunOne(s, actions, cap);
    var s1 := Step(s, actions[0], cap);
    CopiesIn(s1, 0, cap);
    RunOne(s1, actions[1..], cap);
    var s2 := Step(s1, CopyIn, cap);
    CopiesIn(s2, 1, cap);
    RunOne(s2, actions[2..], cap);
    var s3 := Step(s2, CopyIn, cap);
    Publishes(s3, cap);
    RunOne(s3, actions[3..], cap);
    s' := Step(s3, PublishWr, cap);
    assert actions[1..][1..] == actions[2..] && actions[2..][1..] == actions[3..] && actions[3..][1..] == actions[4..];
  }

  /** and the whole read. */
  lemma WholeRead(s: State, actions: seq<Action>, cap: U32)
    requires cap == 1 && AtSamples(s, 1, 0, -1, -1) && actions == [BeginRead(1), CopyOut, CopyOut, PublishRd]
    ensures Run(s, actions, cap).rd == 1
  {
    BeginsRead(s, cap);
    RunOne(s, actions, cap);
    var s1 := Step(s, BeginRead(1), cap);
    CopiesOut(s1, 0, cap);
    RunOne(s1, actions[1..], cap);
    var s2 := Step(s1, CopyOut, cap);
    CopiesOut(s2, 1, cap);
    RunOne(s2, actions[2..], cap);
    var s3 := Step(s2, CopyOut, cap);
    Publishes(s3, cap);
    RunOne(s3, actions[3..], cap);
    assert actions[1..][1..] == actions[2..] && actions[2..][1..] == actions[3..] && actions[3..][1..] == [];
  }

  /** One frame written and read between the two loads of an empty ring: the count wraps. */
  lemma ThirdWraps(storage: seq<Sample>, frame: seq<Sample>, cap: U32) returns (actions: seq<Action>)
    requires cap == 1 && |storage| == 2 && |frame| == 2
    ensures FillSeen(Init(storage), Run(Init(storage), actions, cap)) == 0xFFFF_FFFF
  {
    actions := [BeginWrite(frame, 1), CopyIn, CopyIn, PublishWr, BeginRead(1), CopyOut, CopyOut, PublishRd];
    var s := WholeWrite(Init(storage), actions, cap);
    WholeRead(s, actions[4..], cap);
  }
}
