/** A screenful of covers: once drawn they are not evicted, and a bounded number of pumps settles them all. */
module ArtProgress {
  import opened Words
  import opened Arith
  import opened ArtCache

  // ---- what every operation keeps ---------------------------------------------------------

  predicate Held(c: Cache, v: int)
  {
    Find(c.way, v) >= 0
  }

  /** Stamps lie in the past, and no way is held by an album known to have nothing to load. */
  ghost predicate Sound(c: Cache)
  {
    && Valid(c)
    && (forall i :: 0 <= i < WAYS ==> c.way[i].stamp <= c.clock)
    && (forall i :: 0 <= i < WAYS && Live(c.way[i]) ==> !Hopeless(c, c.way[i].key))
  }

  lemma ResetSound(pixels: seq<Byte>)
    ensures Sound(Reset(pixels))
  {
  }

  lemma QueueSound(c: Cache, idx: int, thmClus: U32, thmSize: U32, artClus: U32, artSize: U32)
    requires Sound(c)
    ensures Sound(Queue(c, idx, thmClus, thmSize, artClus, artSize))
  {
    QueueValid(c, idx, thmClus, thmSize, artClus, artSize);
  }

  lemma GetSound(c: Cache, idx: int)
    requires Sound(c) && c.clock + 1 < TWO32
    ensures Sound(Get(c, idx)) && c.clock <= Get(c, idx).clock <= c.clock + 1
    ensures Get(c, idx).album == c.album && Get(c, idx).noart == c.noart && Get(c, idx).retried == c.retried
  {
    GetValid(c, idx);
  }

  lemma PumpSound(c: Cache, load: Load)
    requires Sound(c)
    ensures Sound(Pump(c, load)) && Pump(c, load).clock == c.clock && Pump(c, load).album == c.album
  {
    PumpValid(c, load);
  }

  // ---- drawing the screen -----------------------------------------------------------------

  /** The covers drawn since the clock read `c0` are exactly those of the albums in `s`. */
  predicate Split(c: Cache, s: set<int>, c0: nat)
  {
    forall i :: 0 <= i < |c.way| && Live(c.way[i]) ==> (c.way[i].key in s <==> c.way[i].stamp > c0)
  }

  function Keys(way: seq<Way>, n: nat): set<int>
    requires n <= |way|
  {
    set i | 0 <= i < n :: way[i].key
  }

  lemma {:induction false} KeysSize(way: seq<Way>, n: nat)
    requires n <= |way| && forall i, j :: 0 <= i < j < n ==> way[i].key != way[j].key
    ensures |Keys(way, n)| == n
    decreases n
  {
    if n > 0 {
      KeysSize(way, n - 1);
      assert Keys(way, n) == Keys(way, n - 1) + {way[n - 1].key};
      assert way[n - 1].key !in Keys(way, n - 1);
    }
  }

  /** With at most sixteen albums on screen, the way given up is not one of theirs. */
  lemma VictimIsOffScreen(c: Cache, s: set<int>, v: int, c0: nat)
    requires Valid(c) && Split(c, s, c0) && |s + {v}| <= WAYS && !Held(c, v)
    ensures var w := c.way[Victim(c.way)]; Live(w) ==> w.key !in s
  {
    var w := c.way[Victim(c.way)];
    if Live(w) && w.key in s {
      forall i | 0 <= i < WAYS
        ensures Live(c.way[i]) && c.way[i].key in s && c.way[i].key != v
      {
        assert c.way[i].key >= 0 && c.way[i].stamp >= w.stamp > c0;
      }
      KeysSize(c.way, WAYS);
      assert Keys(c.way, WAYS) <= s + {v} - {v};
      SubsetSize(Keys(c.way, WAYS), s + {v} - {v});
    }
  }

  lemma FindUnique(c: Cache, i: nat)
    requires Valid(c) && i < WAYS && Live(c.way[i])
    ensures Find(c.way, c.way[i].key) == i
  {
  }

  /** Drawing one cover: it is now held or has nothing to load, and no other on the screen is lost. */
  lemma GetKeeps(c: Cache, s: set<int>, v: nat, c0: nat)
    requires Sound(c) && Split(c, s, c0) && |s + {v}| <= WAYS && v < SLOTS && c0 <= c.clock < TWO32 - 1
    ensures var d := Get(c, v);
      && Split(d, s + {v}, c0)
      && (Held(d, v) || Hopeless(d, v))
    ensures forall u :: u in s + {v} ==> (Held(c, u) ==> Held(Get(c, v), u)) && Peek(Get(c, v), u) == Peek(c, u)
  {
    GetValid(c, v);
    var d, w := Get(c, v), Find(c.way, v);
    if w >= 0 {
      FindUnique(d, w);
      forall u | u in s && u != v
        ensures (Held(c, u) ==> Held(d, u)) && Peek(d, u) == Peek(c, u)
      {
        SameHolding(c, d, u);
      }
    } else if !Hopeless(c, v) {
      var x := Victim(c.way);
      VictimIsOffScreen(c, s, v, c0);
      FindUnique(d, x);
      forall u | u in s && u != v
        ensures (Held(c, u) ==> Held(d, u)) && Peek(d, u) == Peek(c, u)
      {
        SameHolding(c, d, u);
      }
    }
  }

  /** If the ways holding `u` are the same in both caches, so is what it shows. */
  lemma SameHolding(c: Cache, d: Cache, u: int)
    requires Valid(c) && Valid(d)
    requires forall i :: 0 <= i < WAYS && Live(c.way[i]) && c.way[i].key == u ==>
      Live(d.way[i]) && d.way[i].key == u && d.way[i].state == c.way[i].state && d.way[i].px == c.way[i].px
    requires forall i :: 0 <= i < WAYS && Live(d.way[i]) && d.way[i].key == u ==> Live(c.way[i]) && c.way[i].key == u
    ensures Held(c, u) <==> Held(d, u)
    ensures Peek(d, u) == Peek(c, u)
  {
    var i := Find(c.way, u);
    if i >= 0 {
      FindUnique(d, i);
    }
  }

  function Draw(c: Cache, rows: seq<int>): Cache
    requires Valid(c)
    decreases |rows|
  {
    if rows == [] then c
    else
      GetValid(c, rows[0]);
      Draw(Get(c, rows[0]), rows[1..])
  }

  function Members(rows: seq<int>): set<int>
  {
    set i | 0 <= i < |rows| :: rows[i]
  }

  predicate Rows(rows: seq<int>)
  {
    forall i :: 0 <= i < |rows| ==> 0 <= rows[i] < SLOTS
  }

  /** Drawing some rows, with those in `s` drawn already. */
  lemma {:induction false} DrawKeeps(c: Cache, s: set<int>, rows: seq<int>, c0: nat)
    requires Sound(c) && Split(c, s, c0) && Rows(rows) && |s + Members(rows)| <= WAYS
    requires c0 <= c.clock && c.clock + |rows| < TWO32
    ensures var d := Draw(c, rows);
      && Sound(d) && Split(d, s + Members(rows), c0) && c.clock <= d.clock <= c.clock + |rows|
      && d.album == c.album && d.noart == c.noart && d.retried == c.retried
    ensures forall u :: u in s && Held(c, u) ==> Held(Draw(c, rows), u)
    ensures forall u :: u in Members(rows) ==> Held(Draw(c, rows), u) || Hopeless(Draw(c, rows), u)
    ensures forall u :: u in s ==> Peek(Draw(c, rows), u) == Peek(c, u)
    decreases |rows|
  {
    if rows == [] {
      assert s + Members(rows) == s;
    } else {
      var v, rest := rows[0], rows[1..];
      var d := Get(c, v);
      MembersStep(rows);
      assert s + {v} + Members(rest) == s + Members(rows);
      SubsetSize(s + {v}, s + Members(rows));
      GetKeeps(c, s, v, c0);
      GetSound(c, v);
      DrawKeeps(d, s + {v}, rest, c0);
    }
  }

  lemma MembersStep(rows: seq<int>)
    requires rows != []
    ensures Members(rows) == {rows[0]} + Members(rows[1..])
  {
    forall x | x in Members(rows)
      ensures x in {rows[0]} + Members(rows[1..])
    {
      var i :| 0 <= i < |rows| && rows[i] == x;
      if i > 0 {
        assert rows[1..][i - 1] == x;
      }
    }
    forall x | x in Members(rows[1..])
      ensures x in Members(rows)
    {
      var i :| 0 <= i < |rows| - 1 && rows[1..][i] == x;
      assert rows[i + 1] == x;
    }
  }

  // ---- how much is left to do ---------------------------------------------------------------

  /** Loaded, or known to have nothing to load. */
  predicate Settled(c: Cache, v: nat)
    requires Valid(c) && v < SLOTS
  {
    Peek(c, v).Some? || Hopeless(c, v)
  }

  /** How many more pumps the album can take: two, or one once its single retry is spent. */
  function Need(c: Cache, v: nat): nat
    requires Valid(c) && v < SLOTS
  {
    if Settled(c, v) then 0 else if c.retried[v] then 1 else 2
  }

  function Needs(c: Cache, rows: seq<int>): nat
    requires Valid(c) && Rows(rows)
    decreases |rows|
  {
    if rows == [] then 0 else Need(c, rows[0]) + Needs(c, rows[1..])
  }

  /** Waiting ways whose albums are not on the screen. */
  function Strays(way: seq<Way>, s: set<int>): set<int>
  {
    set i | 0 <= i < |way| && way[i].state == Queued && way[i].key !in s
  }

  lemma StraysBound(way: seq<Way>, s: set<int>)
    ensures |Strays(way, s)| <= |way|
  {
    RangeSize(0, |way|, Strays(way, s));
  }

  lemma {:induction false} NeedsBound(c: Cache, rows: seq<int>)
    requires Valid(c) && Rows(rows)
    ensures Needs(c, rows) <= 2 * |rows|
    decreases |rows|
  {
    if rows != [] {
      NeedsBound(c, rows[1..]);
    }
  }

  lemma {:induction false} NeedsNoMore(c: Cache, d: Cache, rows: seq<int>)
    requires Valid(c) && Valid(d) && Rows(rows)
    requires forall u :: u in Members(rows) ==> Need(d, u) <= Need(c, u)
    ensures Needs(d, rows) <= Needs(c, rows)
    decreases |rows|
  {
    if rows != [] {
      MembersStep(rows);
      NeedsNoMore(c, d, rows[1..]);
    }
  }

  lemma {:induction false} NeedsLess(c: Cache, d: Cache, rows: seq<int>, v: nat)
    requires Valid(c) && Valid(d) && Rows(rows) && v in Members(rows)
    requires forall u :: u in Members(rows) ==> Need(d, u) <= Need(c, u)
    requires Need(d, v) < Need(c, v)
    ensures Needs(d, rows) < Needs(c, rows)
    decreases |rows|
  {
    MembersStep(rows);
    if rows[0] == v {
      NeedsNoMore(c, d, rows[1..]);
    } else {
      NeedsLess(c, d, rows[1..], v);
    }
  }

  lemma {:induction false} NeedsZero(c: Cache, rows: seq<int>)
    requires Valid(c) && Rows(rows) && Needs(c, rows) == 0
    ensures forall i :: 0 <= i < |rows| ==> Settled(c, rows[i])
    decreases |rows|
  {
    if rows != [] {
      NeedsZero(c, rows[1..]);
      forall i | 0 <= i < |rows|
        ensures Settled(c, rows[i])
      {
        if i > 0 {
          assert rows[1..][i - 1] == rows[i];
        }
      }
    }
  }

  lemma {:induction false} SettledZero(c: Cache, rows: seq<int>)
    requires Valid(c) && Rows(rows) && forall u :: u in Members(rows) ==> Need(c, u) == 0
    ensures Needs(c, rows) == 0
    decreases |rows|
  {
    if rows != [] {
      MembersStep(rows);
      SettledZero(c, rows[1..]);
    }
  }

  /** Everything the pumps may still have to do. */
  function Work(c: Cache, rows: seq<int>): nat
    requires Valid(c) && Rows(rows)
  {
    |Strays(c.way, Members(rows))| + Needs(c, rows)
  }

  /** Drawing adds no work. */
  lemma {:induction false} DrawAddsNoStrays(c: Cache, rows: seq<int>, s: set<int>)
    requires Valid(c) && Members(rows) <= s
    ensures Strays(Draw(c, rows).way, s) <= Strays(c.way, s)
    decreases |rows|
  {
    if rows != [] {
      MembersStep(rows);
      GetValid(c, rows[0]);
      DrawAddsNoStrays(Get(c, rows[0]), rows[1..], s);
    }
  }

  /** On a screen already drawn once, a further round changes neither what is shown nor what is left to do. */
  lemma RoundKeeps(c: Cache, rows: seq<int>, c0: nat)
    requires Sound(c) && Rows(rows) && Split(c, Members(rows), c0) && |Members(rows)| <= WAYS
    requires c0 <= c.clock && c.clock + |rows| < TWO32
    ensures var d := Draw(c, rows);
      && Sound(d) && Split(d, Members(rows), c0) && c.clock <= d.clock <= c.clock + |rows|
      && Work(d, rows) <= Work(c, rows) && Needs(d, rows) <= Needs(c, rows)
    ensures forall u :: u in Members(rows) ==>
      && (Held(c, u) ==> Held(Draw(c, rows), u)) && Peek(Draw(c, rows), u) == Peek(c, u)
      && (Held(Draw(c, rows), u) || Hopeless(Draw(c, rows), u))
  {
    var s := Members(rows);
    assert s + s == s;
    DrawKeeps(c, s, rows, c0);
    DrawAddsNoStrays(c, rows, s);
    SubsetSize(Strays(Draw(c, rows).way, s), Strays(c.way, s));
    NeedsNoMore(c, Draw(c, rows), rows);
  }

  /** A pump leaves every album but the one it serves as much to do as before. */
  lemma PumpOthers(c: Cache, load: Load, u: nat)
    requires Sound(c) && Oldest(c.way) >= 0 && u < SLOTS && u != c.way[Oldest(c.way)].key
    ensures Valid(Pump(c, load)) && Need(Pump(c, load), u) == Need(c, u)
  {
    PumpValid(c, load);
    SameHolding(c, Pump(c, load), u);
  }

  /** The one it serves has less to do. */
  lemma PumpServes(c: Cache, load: Load)
    requires Sound(c) && Oldest(c.way) >= 0
    ensures var key := c.way[Oldest(c.way)].key;
      0 <= key < SLOTS && Valid(Pump(c, load)) && Need(Pump(c, load), key) < Need(c, key)
  {
    PumpValid(c, load);
    FindUnique(c, Oldest(c.way));
    if load.Pixels? {
      FindUnique(Pump(c, load), Oldest(c.way));
    }
  }

  /** And its way is no stray any more. */
  lemma PumpStrays(c: Cache, load: Load, s: set<int>)
    requires Sound(c) && Oldest(c.way) >= 0
    ensures var p := Oldest(c.way);
      Valid(Pump(c, load)) && Strays(Pump(c, load).way, s) == Strays(c.way, s) - {p} && (p in Strays(c.way, s) <==> c.way[p].key !in s)
  {
    PumpValid(c, load);
  }

  /** A pump with something waiting gets strictly closer, whatever the disk does. */
  lemma PumpWorks(c: Cache, rows: seq<int>, load: Load)
    requires Sound(c) && Rows(rows) && Oldest(c.way) >= 0
    ensures Valid(Pump(c, load)) && Work(Pump(c, load), rows) < Work(c, rows)
    ensures Needs(Pump(c, load), rows) <= Needs(c, rows)
  {
    PumpValid(c, load);
    var d, s, key := Pump(c, load), Members(rows), c.way[Oldest(c.way)].key;
    PumpServes(c, load);
    PumpStrays(c, load, s);
    forall u | u in s
      ensures Need(d, u) <= Need(c, u)
    {
      if u != key {
        PumpOthers(c, load, u);
      }
    }
    SubsetSize(Strays(d.way, s), Strays(c.way, s));
    if key in s {
      NeedsLess(c, d, rows, key);
    } else {
      NeedsNoMore(c, d, rows);
    }
  }

  lemma PumpSplit(c: Cache, s: set<int>, c0: nat, load: Load)
    requires Valid(c) && Split(c, s, c0)
    ensures Split(Pump(c, load), s, c0)
  {
  }

  /** Right after a round, with nothing waiting, every row is settled. */
  lemma NothingWaiting(c: Cache, rows: seq<int>)
    requires Sound(c) && Rows(rows) && Oldest(c.way) < 0
    requires forall u :: u in Members(rows) ==> Held(c, u) || Hopeless(c, u)
    ensures Needs(c, rows) == 0
  {
    forall u | u in Members(rows)
      ensures Need(c, u) == 0
    {
      var w := Find(c.way, u);
      if w >= 0 {
        assert c.way[w].state != Queued;
      }
    }
    SettledZero(c, rows);
  }

  /** The screen drawn and one pump, over and over; `loads` is what each pump's reading came to. */
  function Turns(c: Cache, rows: seq<int>, loads: seq<Load>): Cache
    requires Valid(c)
    decreases |loads|
  {
    if loads == [] then c
    else
      DrawValid(c, rows);
      PumpValid(Draw(c, rows), loads[0]);
      Turns(Pump(Draw(c, rows), loads[0]), rows, loads[1..])
  }

  lemma {:induction false} DrawValid(c: Cache, rows: seq<int>)
    requires Valid(c)
    ensures Valid(Draw(c, rows))
    decreases |rows|
  {
    if rows != [] {
      GetValid(c, rows[0]);
      DrawValid(Get(c, rows[0]), rows[1..]);
    }
  }

  /** From a screen drawn at least once: as many turns as there is work, and nothing is needed any more. */
  lemma {:induction false} TurnsSettle(c: Cache, rows: seq<int>, loads: seq<Load>, c0: nat)
    requires Sound(c) && Rows(rows) && Split(c, Members(rows), c0) && |Members(rows)| <= WAYS && |rows| <= WAYS
    requires c0 <= c.clock && c.clock + 16 * |loads| < TWO32
    requires Needs(c, rows) == 0 || Work(c, rows) <= |loads|
    ensures Valid(Turns(c, rows, loads)) && Needs(Turns(c, rows, loads), rows) == 0
    decreases |loads|
  {
    if loads != [] {
      var d := Draw(c, rows);
      RoundKeeps(c, rows, c0);
      var e := Pump(d, loads[0]);
      PumpSound(d, loads[0]);
      PumpSplit(d, Members(rows), c0, loads[0]);
      if Oldest(d.way) >= 0 {
        PumpWorks(d, rows, loads[0]);
      } else {
        NothingWaiting(d, rows);
      }
      TurnsSettle(e, rows, loads[1..], c0);
    }
  }

  lemma {:induction false} MembersSize(rows: seq<int>)
    ensures |Members(rows)| <= |rows|
    decreases |rows|
  {
    if rows == [] {
      assert Members(rows) == {};
    } else {
      MembersStep(rows);
      MembersSize(rows[1..]);
    }
  }

  /**
   * The main result. Whatever the cache held and whatever the disk does, sixteen plus
   * twice the number of rows turns leave every row with its cover loaded or known to
   * have none. The first turn is the one that brings the screen in.
   */
  lemma ScreenSettles(c: Cache, rows: seq<int>, loads: seq<Load>)
    requires Sound(c) && Rows(rows) && |rows| <= WAYS && |loads| >= WAYS + 2 * |rows|
    requires c.clock + 16 * |loads| + 16 < TWO32
    ensures Valid(Turns(c, rows, loads))
    ensures forall i :: 0 <= i < |rows| ==> Settled(Turns(c, rows, loads), rows[i])
  {
    var d, s, c0 := Draw(c, rows), Members(rows), c.clock;
    assert {} + s == s;
    MembersSize(rows);
    DrawKeeps(c, {}, rows, c0);
    StraysBound(d.way, s);
    NeedsBound(d, rows);
    var e := Pump(d, loads[0]);
    PumpSound(d, loads[0]);
    PumpSplit(d, s, c0, loads[0]);
    if Oldest(d.way) >= 0 {
      PumpWorks(d, rows, loads[0]);
    } else {
      NothingWaiting(d, rows);
    }
    TurnsSettle(e, rows, loads[1..], c0);
    NeedsZero(Turns(e, rows, loads[1..]), rows);
  }
}
