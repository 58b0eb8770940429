/** What the bounded directory walk does on chains that end and on chains that loop. */
module Floyd {
  import opened Words
  import opened Arith
  import opened Volume
  import opened Fat32
  import opened Directory
  import opened DirWalk

  // ---- chains that end ----------------------------------------------------

  lemma ChainAligned(image: seq<Byte>, g: Geo, c: U32, n: nat)
    requires OnDisk(image, g) && AllValid(image, g, c, n)
    ensures |ChainBytes(image, g, c, n)| % 32 == 0
  {
    ChainBytesLength(image, g, c, n);
    SpanStep(g, g.secPerClus);
    MultipleOf32(n, g.clusBytes);
  }

  lemma MultipleOf32(n: nat, m: nat)
    requires m % 32 == 0
    ensures n * m % 32 == 0
  {
    var k := m / 32;
    assert n * m == 32 * (n * k);
    ModuloOf(n * m, 32, n * k, 0);
  }

  /** The scan after the first `t` clusters of a path. */
  function Scanned(path: Path, t: nat, visit: Visitor): Scan
  {
    if t == 0 then Start() else visit(Scanned(path, t - 1, visit), path(t - 1))
  }

  /** A finished scan stays as it is. */
  ghost predicate Settles(visit: Visitor)
  {
    forall st: Scan, c: U32 :: st.done ==> visit(st, c) == st
  }

  lemma {:induction false} ScannedDone(path: Path, t: nat, n: nat, visit: Visitor)
    requires t <= n && Settles(visit) && Scanned(path, t, visit).done
    ensures Scanned(path, n, visit) == Scanned(path, t, visit)
    decreases n
  {
    if t < n {
      ScannedDone(path, t, n - 1, visit);
    }
  }

  /** The turn in which the scan becomes done. */
  lemma {:induction false} FirstDone(path: Path, n: nat, visit: Visitor) returns (k: nat)
    requires Settles(visit) && Scanned(path, n, visit).done
    ensures k < n && Scanned(path, k + 1, visit) == Scanned(path, n, visit) && !Scanned(path, k, visit).done
    decreases n
  {
    if Scanned(path, n - 1, visit).done {
      ScannedDone(path, n - 1, n, visit);
      k := FirstDone(path, n - 1, visit);
    } else {
      k := n - 1;
    }
  }

  /** The walk's outcome, told from its turn `t` on. */
  function WalkAt(image: seq<Byte>, g: Geo, c: U32, t: nat, visit: Visitor, limit: nat): Outcome
    requires OnDisk(image, g) && t <= limit
  {
    WalkFrom(image, g, c, t, Scanned(PathOf(image, g, c), t, visit), visit, limit)
  }

  /** Turn `k` does not end the walk. */
  predicate GoesOn(image: seq<Byte>, g: Geo, c: U32, k: nat, visit: Visitor)
    requires OnDisk(image, g)
  {
    !Scanned(PathOf(image, g, c), k + 1, visit).done && !Meets(image, g, c, k + 1)
  }

  /** One turn, in terms of the clusters scanned so far. */
  lemma TurnAt(image: seq<Byte>, g: Geo, c: U32, k: nat, visit: Visitor, limit: nat)
    requires OnDisk(image, g) && ClusterValid(g, Nth(image, g, c, k)) && k < limit
    ensures var st := Scanned(PathOf(image, g, c), k + 1, visit);
      WalkAt(image, g, c, k, visit, limit)
      == if GoesOn(image, g, c, k, visit) then WalkAt(image, g, c, k + 1, visit, limit)
         else Outcome(if st.done then 0 else ECORRUPT, st.out, k + 1)
  {
    WalkTurn(image, g, c, k, Scanned(PathOf(image, g, c), k, visit), visit, limit);
  }

  predicate Same(at: nat -> Outcome, k: nat)
  {
    at(k) == at(k + 1)
  }

  lemma {:induction false} SameTo(at: nat -> Outcome, n: nat)
    requires forall k: nat :: k < n ==> Same(at, k)
    ensures at(0) == at(n)
  {
    if n > 0 {
      SameTo(at, n - 1);
      assert Same(at, n - 1);
    }
  }

  lemma DoneAt(image: seq<Byte>, g: Geo, c: U32, k: nat, visit: Visitor, limit: nat)
    requires OnDisk(image, g) && ClusterValid(g, Nth(image, g, c, k)) && k < limit
    requires Scanned(PathOf(image, g, c), k + 1, visit).done
    ensures WalkAt(image, g, c, k, visit, limit) == Outcome(0, Scanned(PathOf(image, g, c), k + 1, visit).out, k + 1)
  {
    TurnAt(image, g, c, k, visit, limit);
  }

  /** The walk's outcome as a function of the turn it is told from. */
  function WalkOf(image: seq<Byte>, g: Geo, c: U32, visit: Visitor, limit: nat): nat -> Outcome
    requires OnDisk(image, g)
  {
    (t: nat) => if t <= limit then WalkAt(image, g, c, t, visit, limit) else Outcome(0, [], 0)
  }

  lemma OneSame(image: seq<Byte>, g: Geo, c: U32, k: nat, visit: Visitor, limit: nat)
    requires OnDisk(image, g) && ClusterValid(g, Nth(image, g, c, k)) && k < limit && GoesOn(image, g, c, k, visit)
    ensures Same(WalkOf(image, g, c, visit, limit), k)
  {
    TurnAt(image, g, c, k, visit, limit);
  }

  /** As long as no turn ends the walk, its outcome is decided later. */
  lemma GoesTo(image: seq<Byte>, g: Geo, c: U32, n: nat, visit: Visitor, limit: nat)
    requires OnDisk(image, g) && AllValid(image, g, c, n) && n <= limit
    requires forall k :: 0 <= k < n ==> GoesOn(image, g, c, k, visit)
    ensures WalkAt(image, g, c, 0, visit, limit) == WalkAt(image, g, c, n, visit, limit)
  {
    var at := WalkOf(image, g, c, visit, limit);
    forall k: nat | k < n
      ensures Same(at, k)
    {
      OneSame(image, g, c, k, visit, limit);
    }
    SameTo(at, n);
  }

  /** With no cluster left, or no turn, the walk is over. */
  lemma OutOfTurns(image: seq<Byte>, g: Geo, c: U32, n: nat, visit: Visitor, limit: nat)
    requires OnDisk(image, g) && n <= limit && (n == limit || !ClusterValid(g, Nth(image, g, c, n)))
    ensures WalkAt(image, g, c, n, visit, limit)
            == Outcome(if ClusterValid(g, Nth(image, g, c, n)) then ECORRUPT else 0, Scanned(PathOf(image, g, c), n, visit).out, n)
  {
  }

  lemma AcyclicNeverMeets(image: seq<Byte>, g: Geo, c: U32, n: nat, t: nat)
    requires OnDisk(image, g) && ChainOf(image, g, c, n) && 1 <= t <= n
    ensures !Meets(image, g, c, t)
  {
    if t < n {
      ChainDistinct(image, g, c, n, t / 2, t);
    }
  }

  /** What a walk of `m` clusters reports, given the scan of them: `over` says that the chain ends there. */
  predicate Reports(o: Outcome, end: Scan, over: bool, m: nat)
  {
    o.rc == (if over || end.done then 0 else ECORRUPT) && o.out == end.out && (if end.done then o.visited <= m else o.visited == m)
  }

  predicate NoMeeting(image: seq<Byte>, g: Geo, c: U32, n: nat)
    requires OnDisk(image, g)
  {
    forall t :: 1 <= t <= n ==> !Meets(image, g, c, t)
  }

  /** Nothing but an end mark or the callback stops the walk before `m` clusters, and there it stops. */
  predicate Bound(image: seq<Byte>, g: Geo, c: U32, m: nat, limit: nat)
    requires OnDisk(image, g)
  {
    && AllValid(image, g, c, m) && m <= limit && (forall t :: 1 <= t < m ==> !Meets(image, g, c, t))
    && (m == limit || !ClusterValid(g, Nth(image, g, c, m)) || (m >= 1 && Meets(image, g, c, m)))
  }

  /** The walk goes on while the scan is not done. */
  lemma WalkGoesOn(image: seq<Byte>, g: Geo, c: U32, n: nat, visit: Visitor, limit: nat)
    requires OnDisk(image, g) && AllValid(image, g, c, n) && n <= limit && NoMeeting(image, g, c, n)
    requires Settles(visit) && !Scanned(PathOf(image, g, c), n, visit).done
    ensures WalkAt(image, g, c, 0, visit, limit) == WalkAt(image, g, c, n, visit, limit)
  {
    var path := PathOf(image, g, c);
    forall k | 0 <= k < n
      ensures GoesOn(image, g, c, k, visit)
    {
      if Scanned(path, k + 1, visit).done {
        ScannedDone(path, k + 1, n, visit);
      }
    }
    GoesTo(image, g, c, n, visit, limit);
  }

  lemma MeetsAt(image: seq<Byte>, g: Geo, c: U32, k: nat, visit: Visitor, limit: nat)
    requires OnDisk(image, g) && ClusterValid(g, Nth(image, g, c, k)) && k < limit
    requires !Scanned(PathOf(image, g, c), k + 1, visit).done && Meets(image, g, c, k + 1)
    ensures WalkAt(image, g, c, k, visit, limit) == Outcome(ECORRUPT, Scanned(PathOf(image, g, c), k + 1, visit).out, k + 1)
  {
    TurnAt(image, g, c, k, visit, limit);
  }

  /** A scan that is done within the bound ends the walk well. */
  lemma WalkDone(image: seq<Byte>, g: Geo, c: U32, m: nat, visit: Visitor, limit: nat)
    requires OnDisk(image, g) && Settles(visit) && Bound(image, g, c, m, limit)
    requires Scanned(PathOf(image, g, c), m, visit).done
    ensures Reports(WalkAt(image, g, c, 0, visit, limit), Scanned(PathOf(image, g, c), m, visit), false, m)
  {
    var k := FirstDone(PathOf(image, g, c), m, visit);
    WalkGoesOn(image, g, c, k, visit, limit);
    DoneAt(image, g, c, k, visit, limit);
  }

  /** Otherwise it ends at the bound: with a meeting, */
  lemma WalkMeets(image: seq<Byte>, g: Geo, c: U32, k: nat, m: nat, visit: Visitor, limit: nat)
    requires OnDisk(image, g) && Settles(visit) && AllValid(image, g, c, k) && ClusterValid(g, Nth(image, g, c, k))
    requires k < limit && m == k + 1 && NoMeeting(image, g, c, k) && Meets(image, g, c, m)
    requires !Scanned(PathOf(image, g, c), m, visit).done
    ensures WalkAt(image, g, c, 0, visit, limit) == Outcome(ECORRUPT, Scanned(PathOf(image, g, c), m, visit).out, m)
  {
    WalkGoesOn(image, g, c, k, visit, limit);
    MeetsAt(image, g, c, k, visit, limit);
  }

  /** or without one. */
  lemma WalkOut(image: seq<Byte>, g: Geo, c: U32, m: nat, visit: Visitor, limit: nat)
    requires OnDisk(image, g) && Settles(visit) && AllValid(image, g, c, m) && m <= limit && NoMeeting(image, g, c, m)
    requires m == limit || !ClusterValid(g, Nth(image, g, c, m))
    requires !Scanned(PathOf(image, g, c), m, visit).done
    ensures WalkAt(image, g, c, 0, visit, limit)
            == Outcome(if ClusterValid(g, Nth(image, g, c, m)) then ECORRUPT else 0, Scanned(PathOf(image, g, c), m, visit).out, m)
  {
    WalkGoesOn(image, g, c, m, visit, limit);
    OutOfTurns(image, g, c, m, visit, limit);
  }

  lemma NoneYet(image: seq<Byte>, g: Geo, c: U32, m: nat, limit: nat)
    requires OnDisk(image, g) && Bound(image, g, c, m, limit)
    ensures m >= 1 ==> NoMeeting(image, g, c, m - 1)
    ensures m == 0 || !Meets(image, g, c, m) ==> NoMeeting(image, g, c, m)
  {
  }

  lemma WalkReports(image: seq<Byte>, g: Geo, c: U32, m: nat, visit: Visitor, limit: nat)
    requires OnDisk(image, g) && Settles(visit) && Bound(image, g, c, m, limit)
    ensures Reports(WalkAt(image, g, c, 0, visit, limit), Scanned(PathOf(image, g, c), m, visit),
                    !ClusterValid(g, Nth(image, g, c, m)), m)
  {
    NoneYet(image, g, c, m, limit);
    if Scanned(PathOf(image, g, c), m, visit).done {
      WalkDone(image, g, c, m, visit, limit);
    } else if m >= 1 && Meets(image, g, c, m) {
      var k: nat := m - 1;
      WalkMeets(image, g, c, k, m, visit, limit);
    } else {
      WalkOut(image, g, c, m, visit, limit);
    }
  }

  lemma AcyclicBound(image: seq<Byte>, g: Geo, c: U32, n: nat, limit: nat)
    requires OnDisk(image, g) && ChainOf(image, g, c, n)
    ensures Bound(image, g, c, Min(n, limit), limit)
    ensures ClusterValid(g, Nth(image, g, c, Min(n, limit))) <==> limit < n
  {
    forall t | 1 <= t < Min(n, limit)
      ensures !Meets(image, g, c, t)
    {
      AcyclicNeverMeets(image, g, c, n, t);
    }
  }

  /** One more cluster scanned. */
  lemma ScannedNext(image: seq<Byte>, g: Geo, c: U32, t: nat, stop: Dirent -> bool)
    requires OnDisk(image, g) && ClusterValid(g, Nth(image, g, c, t))
    ensures var path, visit := PathOf(image, g, c), Visiting(image, g, stop);
      Scanned(path, t + 1, visit) == Records(Scanned(path, t, visit), ClusterBytes(image, g, Nth(image, g, c, t)), 0, stop)
  {
    var path := PathOf(image, g, c);
    assert path(t) == Nth(image, g, c, t);
  }

  lemma ScanJoin(st: Scan, a: seq<Byte>, b: seq<Byte>, stop: Dirent -> bool)
    requires |a| % 32 == 0 && st == Records(Start(), a, 0, stop)
    ensures Records(st, b, 0, stop) == Records(Start(), a + b, 0, stop)
  {
    RecordsConcat(Start(), a, b, 0, stop);
  }

  /** Step `k` scans one more piece of the bytes. */
  predicate Grows(scan: nat -> Scan, bytes: nat -> seq<Byte>, k: nat, piece: seq<Byte>, stop: Dirent -> bool)
  {
    && |bytes(k)| % 32 == 0 && bytes(k + 1) == bytes(k) + piece
    && scan(k + 1) == Records(scan(k), piece, 0, stop)
  }

  /** Scanned piece by piece or in one go. */
  lemma {:induction false} ScanGrows(scan: nat -> Scan, bytes: nat -> seq<Byte>, piece: nat -> seq<Byte>, t: nat, stop: Dirent -> bool)
    requires scan(0) == Start() && bytes(0) == [] && forall k: nat :: k < t ==> Grows(scan, bytes, k, piece(k), stop)
    ensures scan(t) == Records(Start(), bytes(t), 0, stop)
    decreases t
  {
    if t > 0 {
      ScanGrows(scan, bytes, piece, t - 1, stop);
      assert Grows(scan, bytes, t - 1, piece(t - 1), stop);
      ScanJoin(scan(t - 1), bytes(t - 1), piece(t - 1), stop);
    }
  }

  /** The scan and the clusters of a chain as functions of the step. */
  function ScanOf(image: seq<Byte>, g: Geo, c: U32, stop: Dirent -> bool): nat -> Scan
    requires OnDisk(image, g)
  {
    (k: nat) => Scanned(PathOf(image, g, c), k, Visiting(image, g, stop))
  }

  function PieceOf(image: seq<Byte>, g: Geo, c: U32): nat -> seq<Byte>
    requires OnDisk(image, g)
  {
    (k: nat) => var d := Nth(image, g, c, k); if 2 <= d < g.maxClus then ClusterBytes(image, g, d) else []
  }

  lemma BytesAligned(image: seq<Byte>, g: Geo, c: U32, t: nat, k: nat)
    requires OnDisk(image, g) && AllValid(image, g, c, t) && k < t
    ensures |BytesOf(image, g, c, t)(k)| % 32 == 0
  {
    ChainAligned(image, g, c, k);
  }

  lemma BytesGrow(image: seq<Byte>, g: Geo, c: U32, t: nat, k: nat)
    requires OnDisk(image, g) && AllValid(image, g, c, t) && k < t
    ensures var bytes := BytesOf(image, g, c, t); bytes(k + 1) == bytes(k) + PieceOf(image, g, c)(k)
  {
    ChainGrows(image, g, c, k);
  }

  lemma ScanOfNext(image: seq<Byte>, g: Geo, c: U32, k: nat, stop: Dirent -> bool)
    requires OnDisk(image, g) && ClusterValid(g, Nth(image, g, c, k))
    ensures var scan := ScanOf(image, g, c, stop);
      && scan(k + 1) == Records(scan(k), PieceOf(image, g, c)(k), 0, stop)
      && PieceOf(image, g, c)(k) == ClusterBytes(image, g, Nth(image, g, c, k))
  {
    ScannedNext(image, g, c, k, stop);
  }

  lemma OneGrows(image: seq<Byte>, g: Geo, c: U32, t: nat, k: nat, stop: Dirent -> bool)
    requires OnDisk(image, g) && AllValid(image, g, c, t) && k < t
    ensures Grows(ScanOf(image, g, c, stop), BytesOf(image, g, c, t), k, PieceOf(image, g, c)(k), stop)
  {
    BytesAligned(image, g, c, t, k);
    BytesGrow(image, g, c, t, k);
    ScanOfNext(image, g, c, k, stop);
  }

  /** The clusters scanned one by one are the chain's bytes scanned in one go. */
  lemma ScannedBytes(image: seq<Byte>, g: Geo, c: U32, t: nat, stop: Dirent -> bool)
    requires OnDisk(image, g) && AllValid(image, g, c, t)
    ensures Scanned(PathOf(image, g, c), t, Visiting(image, g, stop)) == Records(Start(), ChainBytes(image, g, c, t), 0, stop)
  {
    var scan, bytes, piece := ScanOf(image, g, c, stop), BytesOf(image, g, c, t), PieceOf(image, g, c);
    forall k: nat | k < t
      ensures Grows(scan, bytes, k, piece(k), stop)
    {
      OneGrows(image, g, c, t, k, stop);
    }
    ScanGrows(scan, bytes, piece, t, stop);
  }

  /** The walk's outcome from the chain's bytes, up to where it is bound to stop. */
  lemma BoundOutcome(image: seq<Byte>, g: Geo, c: U32, m: nat, stop: Dirent -> bool, limit: nat)
    requires OnDisk(image, g) && Bound(image, g, c, m, limit)
    ensures var o := WalkFrom(image, g, c, 0, Start(), Visiting(image, g, stop), limit);
      Reports(o, Records(Start(), ChainBytes(image, g, c, m), 0, stop), !ClusterValid(g, Nth(image, g, c, m)), m)
  {
    WalkReports(image, g, c, m, Visiting(image, g, stop), limit);
    ScannedBytes(image, g, c, m, stop);
  }

  /**
   * An acyclic chain is reported corrupt exactly when it is longer than the limit and
   * neither an end marker nor the callback stopped the walk within it. Either way the
   * entries delivered are those of its bytes up to the limit.
   */
  lemma AcyclicWalk(image: seq<Byte>, g: Geo, c: U32, n: nat, stop: Dirent -> bool, limit: nat)
    requires OnDisk(image, g) && ChainOf(image, g, c, n)
    ensures var o := WalkFrom(image, g, c, 0, Start(), Visiting(image, g, stop), limit);
      var m: nat := Min(n, limit);
      Reports(o, Records(Start(), ChainBytes(image, g, c, m), 0, stop), n <= limit, m)
  {
    AcyclicBound(image, g, c, n, limit);
    BoundOutcome(image, g, c, Min(n, limit), stop, limit);
  }

  /** Within the limit every live entry is delivered once, in disk order, and nothing else is. */
  lemma AcyclicDelivers(image: seq<Byte>, g: Geo, c: U32, n: nat, stop: Dirent -> bool, limit: nat)
    requires OnDisk(image, g) && ChainOf(image, g, c, n) && n <= limit && forall d :: !stop(d)
    ensures var o := WalkFrom(image, g, c, 0, Start(), Visiting(image, g, stop), limit);
      o.rc == 0 && Raws(o.out) == LiveFrom(ChainBytes(image, g, c, n), 0) && AllTold(o.out)
  {
    AcyclicWalk(image, g, c, n, stop, limit);
    RecordsAreLive(Start(), ChainBytes(image, g, c, n), 0, stop);
    assert Raws(Start().out) == [];
  }

  // ---- chains that loop -----------------------------------------------------

  /** After `mu + lam` clusters the chain is back at its cluster `mu`. */
  predicate Loops(image: seq<Byte>, g: Geo, c: U32, mu: nat, lam: nat)
    requires OnDisk(image, g)
  {
    lam >= 1 && AllValid(image, g, c, mu + lam) && Nth(image, g, c, mu + lam) == Nth(image, g, c, mu)
  }

  predicate Distinct(image: seq<Byte>, g: Geo, c: U32, n: nat)
    requires OnDisk(image, g)
  {
    forall i, j :: 0 <= i < j < n ==> Nth(image, g, c, i) != Nth(image, g, c, j)
  }

  /** A tail of `mu` clusters leading into a cycle of `lam`. */
  predicate Rho(image: seq<Byte>, g: Geo, c: U32, mu: nat, lam: nat)
    requires OnDisk(image, g)
  {
    Loops(image, g, c, mu, lam) && Distinct(image, g, c, mu + lam)
  }

  /** Step `i` of the walk brought back into the first lap. */
  function Fold(mu: nat, lam: nat, i: nat): (r: nat)
    requires lam >= 1
    ensures r < mu + lam && r <= i && (i >= mu ==> r >= mu)
    decreases i
  {
    if i < mu + lam then i else Fold(mu, lam, i - lam)
  }

  predicate Multiple(d: nat, lam: nat)
    requires lam >= 1
    decreases d
  {
    d == 0 || (d >= lam && Multiple(d - lam, lam))
  }

  lemma {:induction false} FoldEqual(mu: nat, lam: nat, i: nat, d: nat)
    requires lam >= 1 && d >= 1
    ensures Fold(mu, lam, i + d) == Fold(mu, lam, i) <==> i >= mu && Multiple(d, lam)
    decreases i + d
  {
    if i >= mu + lam {
      FoldEqual(mu, lam, i - lam, d);
    } else if i + d >= mu + lam && d > lam {
      FoldEqual(mu, lam, i, d - lam);
    }
  }

  lemma NthBack(image: seq<Byte>, g: Geo, c: U32, mu: nat, lam: nat, i: nat)
    requires OnDisk(image, g) && Nth(image, g, c, mu + lam) == Nth(image, g, c, mu) && i >= mu + lam
    ensures Nth(image, g, c, i) == Nth(image, g, c, i - lam)
  {
    var k := i - lam - mu;
    NthShift(image, g, c, mu, mu + lam, k);
    assert mu + k == i - lam && mu + lam + k == i;
  }

  lemma {:induction false} NthFold(image: seq<Byte>, g: Geo, c: U32, mu: nat, lam: nat, i: nat)
    requires OnDisk(image, g) && Loops(image, g, c, mu, lam)
    ensures Nth(image, g, c, i) == Nth(image, g, c, Fold(mu, lam, i)) && ClusterValid(g, Nth(image, g, c, i))
    decreases i
  {
    if i >= mu + lam {
      NthBack(image, g, c, mu, lam, i);
      NthFold(image, g, c, mu, lam, i - lam);
      assert Fold(mu, lam, i) == Fold(mu, lam, i - lam);
    } else {
      assert Fold(mu, lam, i) == i;
    }
  }

  lemma FoldDecides(image: seq<Byte>, g: Geo, c: U32, mu: nat, lam: nat, i: nat, j: nat)
    requires OnDisk(image, g) && Rho(image, g, c, mu, lam)
    ensures Nth(image, g, c, i) == Nth(image, g, c, j) <==> Fold(mu, lam, i) == Fold(mu, lam, j)
    ensures ClusterValid(g, Nth(image, g, c, i)) && ClusterValid(g, Nth(image, g, c, j))
  {
    NthFold(image, g, c, mu, lam, i);
    NthFold(image, g, c, mu, lam, j);
  }

  /** Hare and tortoise meet exactly when the tortoise is on the cycle and their distance is whole laps. */
  lemma MeetsExactly(image: seq<Byte>, g: Geo, c: U32, mu: nat, lam: nat, h: nat, d: nat)
    requires OnDisk(image, g) && Rho(image, g, c, mu, lam) && (d == h || d == h + 1) && d >= 1
    ensures Meets(image, g, c, h + d) <==> h >= mu && Multiple(d, lam)
  {
    FoldDecides(image, g, c, mu, lam, h + d, h);
    FoldEqual(mu, lam, h, d);
    assert (h + d) / 2 == h;
  }

  /** The first multiple of `lam` from `m` on that reaches `mu`. */
  function RoundUp(mu: nat, lam: nat, m: nat): (r: nat)
    requires lam >= 1 && m >= 1 && Multiple(m, lam)
    ensures r >= mu && r >= 1 && Multiple(r, lam) && (r == m || r < mu + lam)
    decreases mu - m
  {
    if m >= mu then m else RoundUp(mu, lam, m + lam)
  }

  /** Some meeting happens within twice the chain's distinct clusters. */
  lemma MeetingExists(image: seq<Byte>, g: Geo, c: U32, mu: nat, lam: nat) returns (t: nat)
    requires OnDisk(image, g) && Rho(image, g, c, mu, lam)
    ensures 1 <= t <= 2 * (mu + lam) && Meets(image, g, c, t)
  {
    assert Multiple(0, lam);
    var m := RoundUp(mu, lam, lam);
    MeetsExactly(image, g, c, mu, lam, m, m);
    t := m + m;
  }

  predicate FirstMeeting(image: seq<Byte>, g: Geo, c: U32, t: nat)
    requires OnDisk(image, g)
  {
    t >= 1 && Meets(image, g, c, t) && forall u :: 1 <= u < t ==> !Meets(image, g, c, u)
  }

  lemma {:induction false} FirstMeetingBefore(image: seq<Byte>, g: Geo, c: U32, t: nat) returns (f: nat)
    requires OnDisk(image, g) && t >= 1 && Meets(image, g, c, t)
    ensures f <= t && FirstMeeting(image, g, c, f)
    decreases t
  {
    if u: nat :| 1 <= u < t && Meets(image, g, c, u) {
      f := FirstMeetingBefore(image, g, c, u);
    } else {
      f := t;
    }
  }

  /** No cluster of the chain holds an end marker. */
  predicate NoEnd(bytes: seq<Byte>, at: nat)
    requires at <= |bytes|
    decreases |bytes| - at
  {
    at + 32 <= |bytes| ==> !IsEnd(bytes[at..at + 32]) && NoEnd(bytes, at + 32)
  }

  predicate Endless(image: seq<Byte>, g: Geo, c: U32, n: nat)
    requires OnDisk(image, g) && AllValid(image, g, c, n)
  {
    forall k :: 0 <= k < n ==> NoEnd(ClusterBytes(image, g, Nth(image, g, c, k)), 0)
  }

  lemma {:induction false} RecordsGoOn(st: Scan, bytes: seq<Byte>, at: nat, stop: Dirent -> bool)
    requires at <= |bytes| && !st.done && NoEnd(bytes, at) && forall d :: !stop(d)
    ensures !Records(st, bytes, at, stop).done
    decreases |bytes| - at
  {
    if at + 32 <= |bytes| {
      RecordsGoOn(Record(st, bytes[at..at + 32], stop), bytes, at + 32, stop);
    }
  }

  /** A loop's clusters are all valid, for any number of steps. */
  lemma LoopValid(image: seq<Byte>, g: Geo, c: U32, mu: nat, lam: nat, n: nat)
    requires OnDisk(image, g) && Loops(image, g, c, mu, lam)
    ensures AllValid(image, g, c, n)
  {
    forall k | 0 <= k < n
      ensures ClusterValid(g, Nth(image, g, c, k))
    {
      NthFold(image, g, c, mu, lam, k);
    }
  }

  /** No cluster of the loop ends a scan. */
  lemma LoopGoesOn(image: seq<Byte>, g: Geo, c: U32, mu: nat, lam: nat, k: nat, st: Scan, stop: Dirent -> bool)
    requires OnDisk(image, g) && Loops(image, g, c, mu, lam) && Endless(image, g, c, mu + lam)
    requires !st.done && forall d :: !stop(d)
    ensures ClusterValid(g, Nth(image, g, c, k)) && !Records(st, ClusterBytes(image, g, Nth(image, g, c, k)), 0, stop).done
  {
    NthFold(image, g, c, mu, lam, k);
    RecordsGoOn(st, ClusterBytes(image, g, Nth(image, g, c, k)), 0, stop);
  }

  /** With no end marker in the loop and a callback that never stops, no cluster ends the walk. */
  lemma LoopKeepsOn(image: seq<Byte>, g: Geo, c: U32, mu: nat, lam: nat, k: nat, stop: Dirent -> bool)
    requires OnDisk(image, g) && Loops(image, g, c, mu, lam) && Endless(image, g, c, mu + lam) && forall d :: !stop(d)
    ensures KeepsOn(ScanOf(image, g, c, stop), k)
  {
    var st := ScanOf(image, g, c, stop)(k);
    if !st.done {
      LoopGoesOn(image, g, c, mu, lam, k, st, stop);
      NthFold(image, g, c, mu, lam, k);
      ScanOfNext(image, g, c, k, stop);
    }
  }

  lemma NeverDone(image: seq<Byte>, g: Geo, c: U32, mu: nat, lam: nat, n: nat, stop: Dirent -> bool)
    requires OnDisk(image, g) && Loops(image, g, c, mu, lam) && Endless(image, g, c, mu + lam)
    requires forall d :: !stop(d)
    ensures !Scanned(PathOf(image, g, c), n, Visiting(image, g, stop)).done
  {
    var scan := ScanOf(image, g, c, stop);
    forall k: nat
      ensures KeepsOn(scan, k)
    {
      LoopKeepsOn(image, g, c, mu, lam, k, stop);
    }
    KeptOn(scan, n);
  }

  predicate KeepsOn(scan: nat -> Scan, k: nat)
  {
    !scan(k).done ==> !scan(k + 1).done
  }

  lemma {:induction false} KeptOn(scan: nat -> Scan, n: nat)
    requires !scan(0).done && forall k: nat :: KeepsOn(scan, k)
    ensures !scan(n).done
  {
    if n > 0 {
      KeptOn(scan, n - 1);
      assert KeepsOn(scan, n - 1);
    }
  }

  lemma CyclicBound(image: seq<Byte>, g: Geo, c: U32, mu: nat, lam: nat, limit: nat) returns (first: nat)
    requires OnDisk(image, g) && Rho(image, g, c, mu, lam)
    ensures FirstMeeting(image, g, c, first) && first <= 2 * (mu + lam)
    ensures Bound(image, g, c, Min(limit, first), limit) && ClusterValid(g, Nth(image, g, c, Min(limit, first)))
  {
    var t := MeetingExists(image, g, c, mu, lam);
    first := FirstMeetingBefore(image, g, c, t);
    LoopValid(image, g, c, mu, lam, Min(limit, first) + 1);
  }

  /**
   * A looping directory is walked at most to the limit or to where hare and tortoise
   * first meet, within two laps; it is reported corrupt exactly when no end marker and
   * no callback stopped the walk by then, and the entries are those of the clusters seen.
   */
  lemma LoopWalk(image: seq<Byte>, g: Geo, c: U32, mu: nat, lam: nat, stop: Dirent -> bool, limit: nat)
    returns (first: nat)
    requires OnDisk(image, g) && Rho(image, g, c, mu, lam)
    ensures FirstMeeting(image, g, c, first) && first <= 2 * (mu + lam) && AllValid(image, g, c, Min(limit, first))
    ensures var o := WalkFrom(image, g, c, 0, Start(), Visiting(image, g, stop), limit);
      var m: nat := Min(limit, first);
      Reports(o, Records(Start(), ChainBytes(image, g, c, m), 0, stop), false, m)
  {
    first := CyclicBound(image, g, c, mu, lam, limit);
    BoundOutcome(image, g, c, Min(limit, first), stop, limit);
  }

  /**
   * Every chain whatever: there is a number of clusters by which the walk stops, at the
   * limit, at the chain's end or at the first meeting, and its outcome is what scanning
   * their bytes comes to: corrupt unless the chain is over there or the scan was stopped.
   */
  lemma EveryWalk(image: seq<Byte>, g: Geo, c: U32, stop: Dirent -> bool, limit: nat) returns (m: nat)
    requires OnDisk(image, g)
    ensures Bound(image, g, c, m, limit)
    ensures var o := WalkFrom(image, g, c, 0, Start(), Visiting(image, g, stop), limit);
      Reports(o, Records(Start(), ChainBytes(image, g, c, m), 0, stop), !ClusterValid(g, Nth(image, g, c, m)), m)
  {
    EndsOrLoops(image, g, c);
    if n: nat :| ChainOf(image, g, c, n) {
      AcyclicBound(image, g, c, n, limit);
      m := Min(n, limit);
    } else {
      var mu: nat, lam: nat :| Rho(image, g, c, mu, lam);
      var first := CyclicBound(image, g, c, mu, lam, limit);
      m := Min(limit, first);
    }
    BoundOutcome(image, g, c, m, stop, limit);
  }

  /** The entries scanned are the live records of the clusters' bytes. */
  lemma ScannedLive(image: seq<Byte>, g: Geo, c: U32, n: nat, stop: Dirent -> bool)
    requires OnDisk(image, g) && AllValid(image, g, c, n) && forall d :: !stop(d)
    ensures Raws(Scanned(PathOf(image, g, c), n, Visiting(image, g, stop)).out) == LiveFrom(ChainBytes(image, g, c, n), 0)
  {
    ScannedBytes(image, g, c, n, stop);
    RecordsAreLive(Start(), ChainBytes(image, g, c, n), 0, stop);
    assert Raws(Start().out) == [];
  }

  /**
   * A looping directory is always reported corrupt, within the cluster limit and two
   * laps, and the entries delivered are those of the clusters visited, in their order.
   */
  lemma CyclicWalk(image: seq<Byte>, g: Geo, c: U32, mu: nat, lam: nat, stop: Dirent -> bool, limit: nat)
    returns (first: nat)
    requires OnDisk(image, g) && Rho(image, g, c, mu, lam) && Endless(image, g, c, mu + lam)
    requires forall d :: !stop(d)
    ensures FirstMeeting(image, g, c, first) && first <= 2 * (mu + lam)
    ensures AllValid(image, g, c, Min(limit, first))
    ensures var o := WalkFrom(image, g, c, 0, Start(), Visiting(image, g, stop), limit);
      && o.rc == ECORRUPT && o.visited == Min(limit, first)
      && Raws(o.out) == LiveFrom(ChainBytes(image, g, c, Min(limit, first)), 0)
  {
    first := LoopWalk(image, g, c, mu, lam, stop, limit);
    var n: nat := Min(limit, first);
    NeverDone(image, g, c, mu, lam, n, stop);
    ScannedBytes(image, g, c, n, stop);
    ScannedLive(image, g, c, n, stop);
  }

  /** At any meeting the tortoise is past the tail and the hare at least a lap ahead. */
  lemma MeetingParts(image: seq<Byte>, g: Geo, c: U32, mu: nat, lam: nat, t: nat)
    requires OnDisk(image, g) && Rho(image, g, c, mu, lam) && t >= 1 && Meets(image, g, c, t)
    ensures t / 2 >= mu && t - t / 2 >= lam
  {
    MeetsExactly(image, g, c, mu, lam, t / 2, t - t / 2);
  }

  lemma FirstNotAfter(image: seq<Byte>, g: Geo, c: U32, first: nat, t: nat)
    requires OnDisk(image, g) && FirstMeeting(image, g, c, first) && t >= 1 && Meets(image, g, c, t)
    ensures first <= t
  {
  }

  /** When the first meeting comes before any cluster is entered twice. */
  lemma EarlyMeeting(image: seq<Byte>, g: Geo, c: U32, mu: nat, lam: nat, first: nat)
    requires OnDisk(image, g) && Rho(image, g, c, mu, lam) && FirstMeeting(image, g, c, first)
    ensures first <= mu + lam <==> mu == lam || mu + 1 == lam
  {
    MeetingParts(image, g, c, mu, lam, first);
    if mu == lam || mu + 1 == lam {
      assert Multiple(0, lam);
      MeetsExactly(image, g, c, mu, lam, mu, lam);
      FirstNotAfter(image, g, c, first, mu + lam);
    }
  }

  /**
   * The walk of a looping directory delivers no cluster twice exactly when the cluster
   * limit cuts it off in time or the tail is as long as the cycle or one shorter.
   */
  lemma NoRepeatsExactly(image: seq<Byte>, g: Geo, c: U32, mu: nat, lam: nat, stop: Dirent -> bool, limit: nat)
    requires OnDisk(image, g) && Rho(image, g, c, mu, lam) && Endless(image, g, c, mu + lam)
    requires forall d :: !stop(d)
    ensures Distinct(image, g, c, WalkFrom(image, g, c, 0, Start(), Visiting(image, g, stop), limit).visited)
            <==> limit <= mu + lam || mu == lam || mu + 1 == lam
  {
    var first := CyclicWalk(image, g, c, mu, lam, stop, limit);
    EarlyMeeting(image, g, c, mu, lam, first);
    assert Nth(image, g, c, mu) == Nth(image, g, c, mu + lam);
  }

  /** The live records of one cluster that has no end mark come before those of what follows it. */
  lemma {:induction false} LiveConcat(a: seq<Byte>, b: seq<Byte>, at: nat)
    requires at <= |a| && (|a| - at) % 32 == 0 && NoEnd(a, at)
    ensures LiveFrom(a + b, at) == LiveFrom(a, at) + LiveFrom(b, 0)
    decreases |a| - at
  {
    if at == |a| {
      LiveShift(a, b, 0);
    } else {
      PrefixSlice(a, a + b, at, at + 32);
      assert (|a| - (at + 32)) % 32 == 0;
      LiveConcat(a, b, at + 32);
    }
  }

  lemma {:induction false} LiveShift(a: seq<Byte>, b: seq<Byte>, at: nat)
    requires at <= |b|
    ensures LiveFrom(a + b, |a| + at) == LiveFrom(b, at)
    decreases |b| - at
  {
    if at + 32 <= |b| {
      assert (a + b)[|a| + at..|a| + at + 32] == b[at..at + 32];
      LiveShift(a, b, at + 32);
    }
  }

  /** The records, one after the other. */
  function Laid(recs: seq<seq<Byte>>): seq<Byte>
  {
    if recs == [] then [] else recs[0] + Laid(recs[1..])
  }

  /** Those that are neither deleted, nor a volume's name or a piece of a long one, nor "." or "..". */
  function Visible(recs: seq<seq<Byte>>): seq<seq<Byte>>
    requires forall k :: 0 <= k < |recs| ==> |recs[k]| == 32
  {
    if recs == [] then []
    else (if recs[0][0] != 0xE5 && recs[0][0] != 0x2E && recs[0][11] / 8 % 2 == 0 then [recs[0]] else []) + Visible(recs[1..])
  }

  /** A folder lists its visible records up to the first one that begins with a zero, or to its end. */
  lemma {:induction false} FolderEnds(recs: seq<seq<Byte>>, rest: seq<Byte>)
    requires forall k :: 0 <= k < |recs| ==> |recs[k]| == 32 && recs[k][0] != 0
    requires |rest| >= 32 ==> rest[0] == 0
    ensures LiveFrom(Laid(recs) + rest, 0) == Visible(recs)
    decreases |recs|
  {
    if recs == [] {
      assert Laid(recs) + rest == rest;
    } else {
      var e, more := recs[0], Laid(recs[1..]) + rest;
      assert Laid(recs) + rest == e + more && (e + more)[..32] == e;
      LiveShift(e, more, 0);
      FolderEnds(recs[1..], rest);
    }
  }

  /** The live records of one directory cluster. */
  function ClusterLive(image: seq<Byte>, g: Geo, c: U32): seq<seq<Byte>>
    requires OnDisk(image, g) && 2 <= c < g.maxClus
  {
    LiveFrom(ClusterBytes(image, g, c), 0)
  }

  /** Two clusters' bytes, then a third's: the live records are those of each in turn. */
  lemma LiveOfThree(a: seq<Byte>, b: seq<Byte>, c: seq<Byte>)
    requires |a| % 32 == 0 && |b| % 32 == 0 && NoEnd(a, 0) && NoEnd(b, 0)
    ensures LiveFrom(a + b + c, 0) == LiveFrom(a, 0) + LiveFrom(b, 0) + LiveFrom(c, 0)
  {
    var ab := LiveOfTwo(a, b);
    LiveConcat(ab, c, 0);
  }

  lemma LiveOfTwo(a: seq<Byte>, b: seq<Byte>) returns (ab: seq<Byte>)
    requires |a| % 32 == 0 && |b| % 32 == 0 && NoEnd(a, 0) && NoEnd(b, 0)
    ensures ab == a + b && |ab| % 32 == 0 && NoEnd(ab, 0) && LiveFrom(ab, 0) == LiveFrom(a, 0) + LiveFrom(b, 0)
  {
    LiveConcat(a, b, 0);
    NoEndConcat(a, b, 0);
    ab := SumAligned(a, b);
  }

  lemma SumAligned(a: seq<Byte>, b: seq<Byte>) returns (ab: seq<Byte>)
    requires |a| % 32 == 0 && |b| % 32 == 0
    ensures ab == a + b && |ab| % 32 == 0
  {
    ab := a + b;
  }

  lemma {:induction false} NoEndConcat(a: seq<Byte>, b: seq<Byte>, at: nat)
    requires at <= |a| && (|a| - at) % 32 == 0 && NoEnd(a, at) && NoEnd(b, 0)
    ensures NoEnd(a + b, at)
    decreases |a| - at
  {
    if at == |a| {
      NoEndShift(a, b, 0);
    } else {
      PrefixSlice(a, a + b, at, at + 32);
      assert (|a| - (at + 32)) % 32 == 0;
      NoEndConcat(a, b, at + 32);
    }
  }

  lemma {:induction false} NoEndShift(a: seq<Byte>, b: seq<Byte>, at: nat)
    requires at <= |b| && NoEnd(b, at)
    ensures NoEnd(a + b, |a| + at)
    decreases |b| - at
  {
    if at + 32 <= |b| {
      assert (a + b)[|a| + at..|a| + at + 32] == b[at..at + 32];
      NoEndShift(a, b, at + 32);
    }
  }

  /** The walk of a cycle of two meets itself on its third cluster. */
  lemma TwoCycleMeets(image: seq<Byte>, g: Geo, c: U32, first: nat)
    requires OnDisk(image, g) && Rho(image, g, c, 0, 2) && FirstMeeting(image, g, c, first)
    ensures first == 3
  {
    MeetsExactly(image, g, c, 0, 2, 0, 1);
    MeetsExactly(image, g, c, 0, 2, 1, 1);
    MeetsExactly(image, g, c, 0, 2, 1, 2);
    assert Multiple(2, 2) && !Multiple(1, 2);
  }

  lemma ThreeClusters(image: seq<Byte>, g: Geo, c: U32)
    requires OnDisk(image, g) && AllValid(image, g, c, 3)
    ensures ClusterValid(g, c) && ClusterValid(g, NextCluster(image, g, c))
    ensures ChainBytes(image, g, c, 3) == ClusterBytes(image, g, c) + ClusterBytes(image, g, NextCluster(image, g, c))
                                          + ClusterBytes(image, g, Nth(image, g, c, 2))
  {
    assert Nth(image, g, c, 0) == c;
    assert Nth(image, g, c, 1) == NextCluster(image, g, c);
    ChainGrows(image, g, c, 0);
    ChainGrows(image, g, c, 1);
    ChainGrows(image, g, c, 2);
    assert [] + ClusterBytes(image, g, c) == ClusterBytes(image, g, c);
  }

  lemma TwoCycleClusters(image: seq<Byte>, g: Geo, c: U32)
    requires OnDisk(image, g) && Loops(image, g, c, 0, 2) && Endless(image, g, c, 2)
    ensures AllValid(image, g, c, 3) && Nth(image, g, c, 2) == c
    ensures ClusterValid(g, c) && ClusterValid(g, NextCluster(image, g, c))
    ensures NoEnd(ClusterBytes(image, g, c), 0) && NoEnd(ClusterBytes(image, g, NextCluster(image, g, c)), 0)
  {
    LoopValid(image, g, c, 0, 2, 3);
    assert Nth(image, g, c, 0) == c && Nth(image, g, c, 1) == NextCluster(image, g, c);
  }

  /** Two directory clusters that point at each other: the entries of the first are delivered a second time. */
  lemma TwoCycleRepeats(image: seq<Byte>, g: Geo, c: U32, stop: Dirent -> bool, limit: nat)
    requires OnDisk(image, g) && Rho(image, g, c, 0, 2) && Endless(image, g, c, 2)
    requires limit >= 3 && forall d :: !stop(d)
    ensures ClusterValid(g, c) && ClusterValid(g, NextCluster(image, g, c))
    ensures var a, b := ClusterLive(image, g, c), ClusterLive(image, g, NextCluster(image, g, c));
      Raws(WalkFrom(image, g, c, 0, Start(), Visiting(image, g, stop), limit).out) == a + b + a
  {
    var first := CyclicWalk(image, g, c, 0, 2, stop, limit);
    TwoCycleMeets(image, g, c, first);
    TwoCycleClusters(image, g, c);
    ThreeClusters(image, g, c);
    SpanStep(g, g.secPerClus);
    LiveOfThree(ClusterBytes(image, g, c), ClusterBytes(image, g, NextCluster(image, g, c)), ClusterBytes(image, g, c));
  }

  /** Every chain either ends or is a tail leading into a cycle. */
  lemma EndsOrLoops(image: seq<Byte>, g: Geo, c: U32)
    requires OnDisk(image, g)
    ensures (exists n: nat :: ChainOf(image, g, c, n)) || (exists mu: nat, lam: nat :: Rho(image, g, c, mu, lam))
  {
    var n := 0;
    while ClusterValid(g, Nth(image, g, c, n)) && Fresh(image, g, c, n)
      invariant AllValid(image, g, c, n) && n <= g.maxClus - 2
      invariant Distinct(image, g, c, n)
      decreases g.maxClus - n
    {
      DistinctBound(image, g, c, n + 1);
      n := n + 1;
    }
    if ClusterValid(g, Nth(image, g, c, n)) {
      var mu :| 0 <= mu < n && Nth(image, g, c, mu) == Nth(image, g, c, n);
      assert Rho(image, g, c, mu, n - mu);
    } else {
      assert ChainOf(image, g, c, n);
    }
  }

  /** Step `n` is a cluster not visited before. */
  predicate Fresh(image: seq<Byte>, g: Geo, c: U32, n: nat)
    requires OnDisk(image, g)
  {
    forall i :: 0 <= i < n ==> Nth(image, g, c, i) != Nth(image, g, c, n)
  }
}
