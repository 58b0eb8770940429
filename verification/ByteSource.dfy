/** The pull source a codec reads from, and the plain file cursor that every source must look like. */
module ByteSource {
  import opened Words

  datatype Origin = FromStart | FromHere | FromEnd

  /** Where a seek aims, for a cursor at `pos` in a file of `end` bytes. */
  function Aim(offset: int, origin: Origin, pos: int, end: int): int
  {
    match origin
    case FromStart => offset
    case FromHere => pos + offset
    case FromEnd => end + offset
  }

  // ---- the plain cursor -------------------------------------------------------------

  /** The bytes of the file from `a` to `b`; nothing when that is no stretch of it. */
  function Cut(file: seq<Byte>, a: int, b: int): seq<Byte>
  {
    if 0 <= a <= b <= |file| then file[a..b] else []
  }

  lemma CutJoin(file: seq<Byte>, a: int, b: int, c: int)
    requires a == b || (0 <= a <= b <= c <= |file|)
    ensures Cut(file, a, c) == Cut(file, a, b) + Cut(file, b, c)
  {
    if a == b {
      assert Cut(file, a, b) == [];
    } else {
      SplitSlice(file, a, b, c);
    }
  }

  /** Appending the next stretch to what is already there. */
  lemma CutAppend(pre: seq<Byte>, file: seq<Byte>, a: int, b: int, c: int)
    requires a == b || (0 <= a <= b <= c <= |file|)
    ensures pre + Cut(file, a, b) + Cut(file, b, c) == pre + Cut(file, a, c)
  {
    hide Cut;
    CutJoin(file, a, b, c);
  }

  /** How far a read of `n` bytes gets. */
  function Upto(file: seq<Byte>, pos: nat, n: nat): (r: nat)
    ensures pos <= r <= pos + n && (r > pos ==> r <= |file|)
  {
    if pos < |file| then pos + Min(n, |file| - pos) else pos
  }

  datatype Op = Read(n: U32) | Seek(offset: int, origin: Origin) | Tell | Pump(chunk: nat)

  datatype Reply = Bytes(data: seq<Byte>) | Sought(ok: bool) | At(pos: int) | Quiet

  /**
   * What a plain cursor at `pos` answers, and where it then stands, in a file declared to be
   * `end` bytes long that may hold fewer. A pump is not its business.
   */
  function Answer(file: seq<Byte>, end: nat, pos: nat, op: Op): (r: (Reply, nat))
    requires pos <= end && |file| <= end
    ensures r.1 <= end
  {
    match op
    case Read(n) => var to := Upto(file, pos, n); (Bytes(Cut(file, pos, to)), to)
    case Seek(offset, origin) =>
      var target := Aim(offset, origin, pos, end);
      if 0 <= target <= end then (Sought(true), target) else (Sought(false), pos)
    case Tell => (At(pos), pos)
    case Pump(_) => (Quiet, pos)
  }

  function Answers(file: seq<Byte>, end: nat, pos: nat, ops: seq<Op>): seq<Reply>
    requires pos <= end && |file| <= end
    decreases |ops|
  {
    if ops == [] then []
    else var r := Answer(file, end, pos, ops[0]); [r.0] + Answers(file, end, r.1, ops[1..])
  }

  /** Where the cursor stands after the operations. */
  function Stands(file: seq<Byte>, end: nat, pos: nat, ops: seq<Op>): (r: nat)
    requires pos <= end && |file| <= end
    ensures r <= end
    decreases |ops|
  {
    if ops == [] then pos else Stands(file, end, Answer(file, end, pos, ops[0]).1, ops[1..])
  }

  // ---- what the buffers answer ----------------------------------------------------------

  /**
   * A buffer's cursor: like the plain one, except that a seek not told from the end may
   * leave it past the end of the file, where there is nothing to read.
   */
  function Loosely(file: seq<Byte>, end: nat, pos: nat, op: Op): (Reply, nat)
  {
    match op
    case Read(n) => var to := Upto(file, pos, n); (Bytes(Cut(file, pos, to)), to)
    case Seek(offset, origin) =>
      var target := Aim(offset, origin, pos, end);
      if 0 <= target && (origin.FromEnd? ==> offset <= 0) then (Sought(true), target) else (Sought(false), pos)
    case Tell => (At(pos), pos)
    case Pump(_) => (Quiet, pos)
  }

  function LooseAnswers(file: seq<Byte>, end: nat, pos: nat, ops: seq<Op>): (r: seq<Reply>)
    ensures |r| == |ops|
    decreases |ops|, pos
  {
    if ops == [] then []
    else var r := Loosely(file, end, pos, ops[0]); [r.0] + LooseAnswers(file, end, r.1, ops[1..])
  }

  function LooseEnd(file: seq<Byte>, end: nat, pos: nat, ops: seq<Op>): nat
    decreases |ops|, pos
  {
    if ops == [] then pos else LooseEnd(file, end, Loosely(file, end, pos, ops[0]).1, ops[1..])
  }

  /** The operation is no seek that aims at 2 GiB or beyond. */
  predicate Askable(end: nat, pos: nat, op: Op)
  {
    op.Seek? ==> Aim(op.offset, op.origin, pos, end) < 0x8000_0000
  }

  /** Every seek of the run aims below 2 GiB. */
  predicate Narrow(file: seq<Byte>, end: nat, pos: nat, ops: seq<Op>)
    decreases |ops|, pos
  {
    ops != [] ==> Askable(end, pos, ops[0]) && Narrow(file, end, Loosely(file, end, pos, ops[0]).1, ops[1..])
  }

  /** The operation is a seek, not told from the end, that aims past the end of the file. */
  predicate Strays(end: nat, pos: nat, op: Op)
  {
    op.Seek? && !op.origin.FromEnd? && Aim(op.offset, op.origin, pos, end) > end
  }

  /** No seek strays. */
  predicate InFile(file: seq<Byte>, end: nat, pos: nat, ops: seq<Op>)
    requires pos <= end && |file| <= end
    decreases |ops|
  {
    ops != [] ==> !Strays(end, pos, ops[0]) && InFile(file, end, Answer(file, end, pos, ops[0]).1, ops[1..])
  }

  /** One operation tells a buffer from a plain cursor exactly when it is a straying seek. */
  lemma OneTells(file: seq<Byte>, end: nat, pos: nat, op: Op)
    requires pos <= end && |file| <= end
    ensures if Strays(end, pos, op)
            then Loosely(file, end, pos, op).0 == Sought(true) && Answer(file, end, pos, op).0 == Sought(false)
            else Loosely(file, end, pos, op) == Answer(file, end, pos, op)
  {
  }

  /** A buffer answers as a plain cursor exactly when no seek strays, and then stands where it does. */
  lemma {:induction false} LooseExactly(file: seq<Byte>, end: nat, pos: nat, ops: seq<Op>)
    requires pos <= end && |file| <= end
    ensures LooseAnswers(file, end, pos, ops) == Answers(file, end, pos, ops) <==> InFile(file, end, pos, ops)
    ensures InFile(file, end, pos, ops) ==> LooseEnd(file, end, pos, ops) == Stands(file, end, pos, ops)
    decreases |ops|
  {
    if ops != [] {
      OneTells(file, end, pos, ops[0]);
      if !Strays(end, pos, ops[0]) {
        var p := Answer(file, end, pos, ops[0]).1;
        LooseExactly(file, end, p, ops[1..]);
        assert LooseAnswers(file, end, pos, ops)[1..] == LooseAnswers(file, end, p, ops[1..]);
        assert Answers(file, end, pos, ops)[1..] == Answers(file, end, p, ops[1..]);
      } else {
        assert LooseAnswers(file, end, pos, ops)[0] != Answers(file, end, pos, ops)[0];
      }
    }
  }

  /** The first straying seek is where they part: granted by the buffer, refused by the plain cursor. */
  lemma {:induction false} FirstStray(file: seq<Byte>, end: nat, pos: nat, ops: seq<Op>) returns (i: nat)
    requires pos <= end && |file| <= end && !InFile(file, end, pos, ops)
    ensures i < |ops| && ops[i].Seek? && i < |Answers(file, end, pos, ops)|
    ensures LooseAnswers(file, end, pos, ops)[..i] == Answers(file, end, pos, ops)[..i]
    ensures LooseAnswers(file, end, pos, ops)[i] == Sought(true) && Answers(file, end, pos, ops)[i] == Sought(false)
    decreases |ops|
  {
    OneTells(file, end, pos, ops[0]);
    i := 0;
    if !Strays(end, pos, ops[0]) {
      var r := Answer(file, end, pos, ops[0]);
      i := FirstStray(file, end, r.1, ops[1..]);
      var a, b := LooseAnswers(file, end, r.1, ops[1..]), Answers(file, end, r.1, ops[1..]);
      assert ([r.0] + a)[..i + 1] == [r.0] + a[..i] && ([r.0] + b)[..i + 1] == [r.0] + b[..i];
      i := i + 1;
    }
  }

  /**
   * What a chain that falls short of the declared size does to the buffers: they tell it
   * from a whole file of the bytes it holds by a granted seek from the end, and no other way.
   */
  lemma ShortChainExactly(file: seq<Byte>, end: nat, pos: nat, op: Op)
    requires |file| <= end
    ensures Loosely(file, end, pos, op) == Loosely(file, |file|, pos, op)
      <==> end == |file| || !(op.Seek? && op.origin.FromEnd? && op.offset <= 0 <= end + op.offset)
  {
  }

  // ---- runs that may fail ----------------------------------------------------------------

  /**
   * An operation answered as a buffer answers it, but that a read may have come to fewer
   * bytes; `honest` says that they are the file's.
   */
  predicate Traced(file: seq<Byte>, end: nat, pos: nat, op: Op, reply: Reply, pos': nat, honest: bool)
  {
    if op.Read? then
      && reply.Bytes? && |reply.data| <= op.n && pos' == pos + |reply.data| && pos' <= Upto(file, pos, op.n)
      && (honest ==> reply.data == Cut(file, pos, pos'))
    else (reply, pos') == Loosely(file, end, pos, op)
  }

  /** The operations answered one after the other, from `at[0]` on: the cursor stood at `at[i]` for the `i`-th. */
  predicate Traces(file: seq<Byte>, end: nat, at: seq<nat>, ops: seq<Op>, replies: seq<Reply>, honest: bool)
  {
    && |replies| <= |ops| && |at| == |replies| + 1
    && forall i :: 0 <= i < |replies| ==> Traced(file, end, at[i], ops[i], replies[i], at[i + 1], honest)
  }

  lemma TracesOn(file: seq<Byte>, end: nat, at: seq<nat>, ops: seq<Op>, replies: seq<Reply>, was: bool, reply: Reply, to: nat, honest: bool)
    requires Traces(file, end, at, ops, replies, was) && (honest ==> was) && |replies| < |ops|
    requires Traced(file, end, at[|replies|], ops[|replies|], reply, to, honest)
    ensures Traces(file, end, at + [to], ops, replies + [reply], honest)
  {
    var at', replies' := at + [to], replies + [reply];
    forall i | 0 <= i < |replies'|
      ensures Traced(file, end, at'[i], ops[i], replies'[i], at'[i + 1], honest)
    {
      if i < |replies| {
        assert Traced(file, end, at[i], ops[i], replies[i], at[i + 1], was);
      }
    }
  }

  lemma TracesLess(file: seq<Byte>, end: nat, at: seq<nat>, ops: seq<Op>, replies: seq<Reply>, was: bool, honest: bool)
    requires Traces(file, end, at, ops, replies, was) && (honest ==> was)
    ensures Traces(file, end, at, ops, replies, honest)
  {
  }

  /**
   * What a read of `n` bytes at `pos` of a source owes its caller: bytes of the file from
   * there on, perhaps fewer than asked for, though not none before the end of the file.
   * Unless the source is reliable it may also fail, returning nothing and raising `failed`.
   */
  predicate Owes(file: seq<Byte>, pos: int, n: nat, got: seq<Byte>, pos': int, failed: bool, reliable: bool)
  {
    && 0 <= pos <= pos' && pos' - pos == |got| <= n && got == Cut(file, pos, pos')
    && (|got| > 0 ==> pos' <= |file| && !failed)
    && (|got| == 0 ==> n == 0 || pos >= |file| || (failed && !reliable))
  }

  // ---- the file on disk -------------------------------------------------------------

  /**
   * Any source that owes its callers no more than that; what a read leaves in the buffer
   * past the bytes it returns is arbitrary. A `loose` one grants seeks past the end of the
   * file, as the read-ahead does. The player's own source is `FileSource`.
   */
  class Source {
    const file: seq<Byte>
    const reliable: bool
    const loose: bool
    var pos: nat
    var failed: bool

    ghost predicate Valid()
      reads this
    {
      |file| < 0x8000_0000 && (reliable ==> !failed) && (loose || pos <= |file|)
    }

    constructor (contents: seq<Byte>, sound: bool, free: bool)
      requires |contents| < 0x8000_0000
      ensures Valid() && file == contents && reliable == sound && loose == free && pos == 0
    {
      file, reliable, loose, pos, failed := contents, sound, free, 0, false;
    }

    method Read(dst: array<Byte>, at: nat, n: nat) returns (k: nat)
      requires Valid() && at + n <= dst.Length
      modifies this, dst
      ensures Valid() && k <= n && Owes(file, old(pos), n, dst[at..at + k], pos, failed, reliable)
      ensures dst[..at] == old(dst[..at]) && dst[at + n..] == old(dst[at + n..])
    {
      var fault: bool := *;
      var wish: nat := *;
      var junk: seq<Byte> := *;
      fault := fault && !reliable;
      k := Upto(file, pos, n) - pos;
      k := if fault then 0 else if 1 <= wish < k then wish else k;
      forall i | 0 <= i < n {
        dst[at + i] := if i < k then file[pos + i] else if i < |junk| then junk[i] else 0;
      }
      pos := pos + k;
      failed := if fault then true else if k > 0 then false else failed;
    }

    /** Repositions within the file or, if it is loose and not asked to count from the end, anywhere. */
    method Seek(offset: int, origin: Origin) returns (ok: bool)
      requires Valid()
      modifies this`pos
      ensures Valid()
      ensures var target := Aim(offset, origin, old(pos), |file|);
        ok == (0 <= target && (target <= |file| || (loose && !origin.FromEnd?)))
      ensures pos == if ok then Aim(offset, origin, old(pos), |file|) else old(pos)
    {
      var target := Aim(offset, origin, pos, |file|);
      ok := 0 <= target && (target <= |file| || (loose && !origin.FromEnd?));
      if ok {
        pos := target;
      }
    }

    method Tell() returns (at: int)
      ensures at == pos
    {
      at := pos;
    }
  }
}
