/** The watermarks over whole runs: bursts end, and the drive rests between them. */
module Hysteresis {
  import opened Words
  import opened Backing
  import opened DiskBuf

  datatype Move = Pumped(got: nat) | Consumed

  /** One pump or one read, as the buffer's own contracts describe them, on a source that does not fail. */
  predicate Moves(a: Meter, m: Move, b: Meter, low: nat, high: nat, size: nat)
  {
    match m
    case Pumped(got) => PumpStep(a, b, got, low, high, size) && b.wr <= size
    case Consumed => ReadStep(a, b, size) && b.wr <= size
  }

  /** A run without seeks: `at[i]` becomes `at[i + 1]` by `moves[i]`. */
  predicate Runs(at: seq<Meter>, moves: seq<Move>, low: nat, high: nat, size: nat)
  {
    && |at| == |moves| + 1
    && (forall i :: 0 <= i < |moves| ==> Moves(at[i], moves[i], at[i + 1], low, high, size))
  }

  /** At move `i` a burst ends with the ring filled to the high watermark. */
  predicate BurstEnds(at: seq<Meter>, moves: seq<Move>, high: nat, i: nat)
  {
    i + 1 < |at| && i < |moves| && moves[i].Pumped? && at[i].filling && !at[i + 1].filling && at[i].wr - at[i].rd >= high
  }

  predicate BurstStarts(at: seq<Meter>, moves: seq<Move>, i: nat)
  {
    i + 1 < |at| && i < |moves| && moves[i].Pumped? && !at[i].filling && at[i + 1].filling
  }

  lemma {:induction false} HeadAdvances(at: seq<Meter>, moves: seq<Move>, low: nat, high: nat, size: nat, i: nat, j: nat)
    requires Runs(at, moves, low, high, size) && i <= j < |at|
    ensures at[i].wr <= at[j].wr && at[i].rd <= at[j].rd
    decreases j - i
  {
    if i < j {
      HeadAdvances(at, moves, low, high, size, i, j - 1);
      assert Moves(at[j - 1], moves[j - 1], at[j], low, high, size);
    }
  }

  /** Between a burst that reached the high watermark and any later one the decoder consumes more than `high - low`. */
  lemma RestsBetweenBursts(at: seq<Meter>, moves: seq<Move>, low: nat, high: nat, size: nat, i: nat, j: nat)
    requires Runs(at, moves, low, high, size) && i < j
    requires BurstEnds(at, moves, high, i) && BurstStarts(at, moves, j)
    ensures at[j].rd - at[i].rd > high - low
  {
    HeadAdvances(at, moves, low, high, size, i, j);
    assert Moves(at[j], moves[j], at[j + 1], low, high, size);
  }

  /** Once set, the end-of-file flag says the fill head has reached the end, and it stays. */
  lemma {:induction false} EndStays(at: seq<Meter>, moves: seq<Move>, low: nat, high: nat, size: nat, j: nat)
    requires Runs(at, moves, low, high, size) && j < |at| && (at[0].eos ==> at[0].wr == size)
    ensures at[j].eos ==> at[j].wr == size
    decreases j
  {
    if j > 0 {
      EndStays(at, moves, low, high, size, j - 1);
      assert Moves(at[j - 1], moves[j - 1], at[j], low, high, size);
    }
  }

  /** A burst is left only with the high watermark reached or everything to the end of the file read. */
  lemma BurstsFill(at: seq<Meter>, moves: seq<Move>, low: nat, high: nat, size: nat, i: nat)
    requires Runs(at, moves, low, high, size) && (at[0].eos ==> at[0].wr == size)
    requires i < |moves| && at[i].filling && !at[i + 1].filling
    ensures moves[i].Pumped? && (at[i].wr - at[i].rd >= high || at[i].wr == size)
  {
    EndStays(at, moves, low, high, size, i);
    assert Moves(at[i], moves[i], at[i + 1], low, high, size);
  }

  /** How many passes a burst may still need: one for each byte to the end of the file, one to notice the end. */
  function Left(m: Meter, size: nat): int
  {
    size - m.wr + (if m.eos then 0 else 1)
  }

  function Pumps(moves: seq<Move>): nat
  {
    if moves == [] then 0 else (if moves[0].Pumped? then 1 else 0) + Pumps(moves[1..])
  }

  /** A run that stays in one burst has no more pumps than the burst can need. */
  lemma {:induction false} BurstTerminates(at: seq<Meter>, moves: seq<Move>, low: nat, high: nat, size: nat)
    requires Runs(at, moves, low, high, size) && at[0].wr <= size && (at[0].eos ==> at[0].wr == size)
    requires forall i :: 0 <= i < |at| ==> at[i].filling
    ensures Pumps(moves) <= Left(at[0], size)
    decreases |moves|
  {
    if moves != [] {
      var rest := at[1..];
      assert Moves(at[0], moves[0], at[1], low, high, size);
      forall i | 0 <= i < |moves| - 1
        ensures Moves(rest[i], moves[1..][i], rest[i + 1], low, high, size)
      {
        assert Moves(at[i + 1], moves[i + 1], at[i + 2], low, high, size);
      }
      EndStays(at, moves, low, high, size, 1);
      BurstTerminates(rest, moves[1..], low, high, size);
    }
  }

  /** With the end flag set, whatever has been read of the file, a run pumps nothing in. */
  lemma {:induction false} StaleEnd(at: seq<Meter>, moves: seq<Move>, low: nat, high: nat, size: nat, j: nat)
    requires Runs(at, moves, low, high, size) && at[0].eos && j < |moves|
    ensures at[j].eos && at[j + 1].eos && (moves[j].Pumped? ==> moves[j].got == 0 && !at[j + 1].filling)
    decreases j
  {
    if j > 0 {
      StaleEnd(at, moves, low, high, size, j - 1);
    }
    assert Moves(at[j], moves[j], at[j + 1], low, high, size);
  }

  // ---- the buffer's own runs ------------------------------------------------------------------

  datatype Act = PumpWith(chunk: nat) | ReadOff(n: nat)

  /** Any schedule of pumps and reads on a good source is such a run. */
  method Play(db: DiskBuf, acts: seq<Act>) returns (ghost at: seq<Meter>, ghost moves: seq<Move>)
    requires db.Valid() && db.inner.Reliable() && !db.err && db.wr <= |db.inner.File()|
    requires forall i :: 0 <= i < |acts| && acts[i].PumpWith? ==> acts[i].chunk > 0
    modifies db, db.inner.Parts(), db.buf
    ensures db.Valid() && !db.err && Runs(at, moves, db.low, db.high, |db.inner.File()|)
    ensures |moves| == |acts| && at[0] == old(db.Gauge()) && at[|acts|] == db.Gauge()
    ensures forall k :: 0 <= k < |acts| ==> (moves[k].Pumped? <==> acts[k].PumpWith?)
  {
    hide Backing.Valid;
    at, moves := [db.Gauge()], [];
    ghost var size := |db.inner.File()|;
    var i := 0;
    while i < |acts|
      invariant i <= |acts| && db.Valid() && !db.err && db.wr <= size
      invariant |moves| == i && Runs(at, moves, db.low, db.high, size)
      invariant forall k :: 0 <= k < i ==> (moves[k].Pumped? <==> acts[k].PumpWith?)
      invariant at[0] == old(db.Gauge()) && at[i] == db.Gauge()
    {
      ghost var move;
      if acts[i].PumpWith? {
        var got := db.Pump(acts[i].chunk);
        move := Pumped(got);
      } else {
        var dst := new Byte[acts[i].n];
        var k := db.Read(dst, 0, acts[i].n);
        move := Consumed;
      }
      RunGrows(at, moves, move, db.Gauge(), db.low, db.high, size);
      at, moves := at + [db.Gauge()], moves + [move];
      i := i + 1;
    }
  }

  lemma RunGrows(at: seq<Meter>, moves: seq<Move>, m: Move, b: Meter, low: nat, high: nat, size: nat)
    requires Runs(at, moves, low, high, size) && Moves(at[|moves|], m, b, low, high, size)
    ensures Runs(at + [b], moves + [m], low, high, size)
  {
    var at', moves' := at + [b], moves + [m];
    forall i | 0 <= i < |moves'|
      ensures Moves(at'[i], moves'[i], at'[i + 1], low, high, size)
    {
      if i < |moves| {
        assert Moves(at[i], moves[i], at[i + 1], low, high, size);
      }
    }
  }
}
