/** Settings saved while files are read, and settings saved and loaded across power cycles. */
module SettingsRuns {
  import opened Words
  import opened Options
  import opened Volume
  import opened Fat32
  import opened FatStream
  import opened FileReads
  import opened Directory
  import opened DirWalk
  import opened Record
  import opened FileLba
  import opened CrashSafety
  import opened ConfigStore

  // ---- reading around a save --------------------------------------------------------------

  lemma AvoidsKept(a: seq<Byte>, b: seq<Byte>, g: Geo, c: U32, first: U32, d: U32)
    requires OnDisk(a, g) && 2 <= c < g.maxClus && Confined(a, b, g, c) && Avoids(a, g, first, d)
    ensures OnDisk(b, g) && Avoids(b, g, first, d)
  {
    OnDiskKept(a, b, g, c);
    if d >= 2 {
      forall k: nat
        ensures Nth(b, g, first, k) != d
      {
        ChainKept(a, b, g, c, first, k);
      }
    }
  }

  /** A cursor on a chain that avoids the written cluster is still on it. */
  lemma CursorKept(a: seq<Byte>, b: seq<Byte>, g: Geo, c: U32, first: U32, size: nat,
                   index: nat, base: nat, clus: U32, off: nat, remaining: nat)
    requires OnDisk(a, g) && 2 <= c < g.maxClus && Confined(a, b, g, c) && Avoids(a, g, first, c)
    requires OnChain(a, g, first, size, index, base, clus, off, remaining)
    ensures OnDisk(b, g) && OnChain(b, g, first, size, index, base, clus, off, remaining)
  {
    BytesKept(a, b, g, c, first, index);
    ChainKept(a, b, g, c, first, index);
  }

  /** A stream opened before a save goes on after it: its cursor stands where it did, on the same content. */
  method SaveUnderStream(store: ConfigStore, st: Stream, s: Settings, ghost n: nat) returns (rc: int)
    requires store.Valid() && st.Ready() && st.fs == store.vol
    requires store.found ==> Avoids(st.fs.dev.image, st.fs.g, st.first, store.firstClus)
    requires ChainOf(st.fs.dev.image, st.fs.g, st.first, n)
    modifies store, store.buf, store.vol, store.vol.dev
    ensures store.Valid() && st.Ready() && st.Pos() == old(st.Pos())
    ensures OnDisk(old(st.fs.dev.image), st.fs.g) && ChainOf(old(st.fs.dev.image), st.fs.g, st.first, n)
    ensures ChainOf(st.fs.dev.image, st.fs.g, st.first, n)
    ensures Content(st.fs.dev.image, st.fs.g, st.first, n, st.size)
            == Content(old(st.fs.dev.image), st.fs.g, st.first, n, st.size)
  {
    ghost var a, g := st.fs.dev.image, st.fs.g;
    ghost var left;
    rc, left := store.Save(s);
    if store.found {
      CursorKept(a, st.fs.dev.image, g, store.firstClus, st.first, st.size, st.index, st.base, st.clus, st.clusOff, st.remaining);
      FileUntouched(a, st.fs.dev.image, g, store.firstClus, st.first, n, st.size);
    }
  }

  /** A file read before a save and again after it, through the caches, is the same file. */
  method ReadSaveRead(store: ConfigStore, s: Settings, first: U32, len: U32, ghost n: nat)
    returns (n0: int, n1: int, before: seq<Byte>, after: seq<Byte>)
    requires store.Valid() && len < 0x8000_0000 && ChainOf(store.vol.dev.image, store.vol.g, first, n)
    requires Avoids(store.vol.dev.image, store.vol.g, first, store.vol.dirty)
    requires store.found ==> Avoids(store.vol.dev.image, store.vol.g, first, store.firstClus)
    modifies store, store.buf, store.vol, store.vol.dev
    ensures store.Valid() && (n0 >= 0 && n1 >= 0 ==> n0 == n1 && before == after)
    ensures store.vol.dev.reliable && ClusterValid(store.vol.g, first) ==> n0 >= 0 && n1 >= 0
  {
    ghost var a, g := store.vol.dev.image, store.vol.g;
    GuardNeverFires(a, g, first, n);
    n0, before := ReadOnce(store.vol, first, len, n);
    ghost var left;
    var rc;
    rc, left := store.Save(s);
    if store.found {
      FileUntouched(a, store.vol.dev.image, g, store.firstClus, first, n, len);
      AvoidsKept(a, store.vol.dev.image, g, store.firstClus, first, store.vol.dirty);
    }
    n1, after := ReadOnce(store.vol, first, len, n);
  }

  method ReadOnce(fs: FatVolume, first: U32, len: U32, ghost n: nat) returns (rc: int, got: seq<Byte>)
    requires fs.Valid() && len < 0x8000_0000 && ChainOf(fs.dev.image, fs.g, first, n)
    requires Avoids(fs.dev.image, fs.g, first, fs.dirty)
    modifies fs
    ensures fs.Valid() && fs.dirty == old(fs.dirty)
    ensures rc >= 0 ==> rc == |got| && got == Content(fs.dev.image, fs.g, first, n, len)
    ensures fs.dev.reliable && ClusterValid(fs.g, first) ==> rc >= 0
  {
    var buf := new Byte[len];
    ghost var m;
    rc, m := ReadFile(fs, first, buf, len);
    GuardNeverFires(fs.dev.image, fs.g, first, n);
    got := [];
    if rc >= 0 {
      got := buf[..rc];
      ReadFileIsContent(fs.dev.image, fs.g, first, n, len, got, m);
    }
  }

  // ---- across power cycles ------------------------------------------------------------------

  /** A walk of a chain that avoids the written cluster comes to the same. */
  lemma {:induction false} WalkKept(a: seq<Byte>, b: seq<Byte>, g: Geo, c: U32, first: U32, t: nat, st: Scan,
                                    stop: Dirent -> bool, limit: nat) returns (o: Outcome)
    requires OnDisk(a, g) && 2 <= c < g.maxClus && Confined(a, b, g, c) && Avoids(a, g, first, c) && t <= limit
    ensures OnDisk(b, g)
    ensures o == WalkFrom(a, g, first, t, st, Visiting(a, g, stop), limit)
    ensures o == WalkFrom(b, g, first, t, st, Visiting(b, g, stop), limit)
    decreases limit - t
  {
    ChainKept(a, b, g, c, first, t);
    o := WalkFrom(a, g, first, t, st, Visiting(a, g, stop), limit);
    var clus := Nth(a, g, first, t);
    if ClusterValid(g, clus) && t < limit {
      ChainKept(a, b, g, c, first, t + 1);
      ChainKept(a, b, g, c, first, (t + 1) / 2);
      ClusterKept(a, b, g, c, clus);
      WalkTurn(a, g, first, t, st, Visiting(a, g, stop), limit);
      WalkTurn(b, g, first, t, st, Visiting(b, g, stop), limit);
      var st' := Records(st, ClusterBytes(a, g, clus), 0, stop);
      if !st'.done && !Meets(a, g, first, t + 1) {
        o := WalkKept(a, b, g, c, first, t + 1, st', stop, limit);
      }
    }
  }

  /**
   * The disk as it was when the run began, with a settings file whose first cluster the
   * root folder does not use, and the disk now, changed in that cluster only.
   */
  ghost predicate Home(image0: seq<Byte>, image: seq<Byte>, g: Geo, c: U32, size: U32)
  {
    && OnDisk(image0, g) && 2 <= c < g.maxClus && Avoids(image0, g, g.rootClus, c)
    && FoundAt(FileIn(RootWalk(image0, g)), c, size)
    && Confined(image0, image, g, c) && Usable(image, g, c, size)
  }

  predicate FoundAt(d: Option<Dirent>, c: U32, size: U32)
  {
    d.Some? && d.value.firstClus == c && d.value.size == size
  }

  /** The same file is found again. */
  lemma HomeFound(image0: seq<Byte>, image: seq<Byte>, g: Geo, c: U32, size: U32)
    requires Home(image0, image, g, c, size)
    ensures OnDisk(image, g) && FoundAt(FileIn(RootWalk(image, g)), c, size)
  {
    var o := WalkKept(image0, image, g, c, g.rootClus, 0, Start(), d => IsConfig(d), WalkLimit(g));
  }

  lemma HomeKept(image0: seq<Byte>, a: seq<Byte>, b: seq<Byte>, g: Geo, c: U32, size: U32)
    requires Home(image0, a, g, c, size) && OnDisk(a, g) && Confined(a, b, g, c) && Usable(b, g, c, size)
    ensures Home(image0, b, g, c, size)
  {
  }

  /** What a load could read: the root folder, and each slot. */
  datatype Seen = Seen(folder: bool, slot0: bool, slot1: bool)

  predicate AllSeen(r: Seen)
  {
    r.folder && r.slot0 && r.slot1
  }

  /** Power on: mount with empty caches, and load. */
  method Boot(dev: BlockDevice, g: Geo, ghost image0: seq<Byte>, ghost c: U32, ghost size: U32)
    returns (store: ConfigStore, settings: Option<Settings>, ghost seen: Seen)
    requires Home(image0, dev.image, g, c, size)
    ensures fresh(store) && fresh(store.vol) && fresh(store.buf) && store.vol.dev == dev && store.vol.g == g && store.Valid()
    ensures store.found ==> store.firstClus == c && store.size == size
    ensures seen.folder ==>
      var slots := SlotsOf(dev.image, g, c, size);
      var best := Pick(slots, seen.slot0, seen.slot1);
      store.found && store.State() == Loaded(slots, best) && settings == SettingsOf(best)
    ensures dev.reliable ==> AllSeen(seen)
  {
    HomeFound(image0, dev.image, g, c, size);
    var vol := new FatVolume(dev, g);
    var buf := new Byte[SLOT_BYTES];
    store := new ConfigStore(vol, buf);
    ghost var r0, r1, slots, walk;
    settings, r0, r1, slots, walk := store.Load();
    seen := Seen(walk.rc != EIO, r0, r1);
  }

  /** The store belongs to this disk, and if it found a file it is the one at cluster `c`. */
  ghost predicate Mine(store: ConfigStore, dev: BlockDevice, g: Geo, c: U32, size: U32)
    reads store, store.vol, store.vol.dev
  {
    store.vol.dev == dev && store.vol.g == g && store.Valid() && (store.found ==> store.firstClus == c && store.size == size)
  }

  /** The store in memory is where the protocol's run is. */
  ghost predicate InStep(store: ConfigStore, st: Store)
    reads store, store.vol, store.vol.dev
  {
    store.Valid() && store.found && store.State() == st
  }

  /**
   * One save as a step of the protocol: acknowledged, the protocol's save; else, if it left
   * its slot old, new or undecodable, the protocol's failed one.
   */
  method SaveStep(store: ConfigStore, s: Settings, ghost st: Store) returns (ack: bool)
    requires InStep(store, st) && SlotIndex(st) && st.live
    modifies store, store.buf, store.vol, store.vol.dev
    ensures store.Valid() && store.found && store.firstClus == old(store.firstClus) && store.size == old(store.size)
    ensures OnDisk(old(store.vol.dev.image), store.vol.g) && 2 <= store.firstClus < store.vol.g.maxClus
    ensures Confined(old(store.vol.dev.image), store.vol.dev.image, store.vol.g, store.firstClus)
    ensures ack ==> InStep(store, Next(st, Saved(s)))
    ensures !ack ==> var left := store.State().slots[Target(st)];
      LeftClean(st, s, left) ==> InStep(store, Next(st, SaveFailed(s, LeftAs(st, left))))
    ensures store.vol.dev.reliable ==> ack
  {
    ghost var left;
    var rc;
    rc, left := store.Save(s);
    ack := rc == 0;
    if !ack {
      FailedSaveIsStep(st, s, left);
      assert store.State().slots[Target(st)] == left;
    }
  }

  lemma {:induction false} RunAppend(st: Store, events: seq<Event>, e: Event)
    requires SlotIndex(st)
    ensures Run(st, events + [e]) == Next(Run(st, events), e)
    decreases |events|
  {
    if events == [] {
      assert events + [e] == [e] && [e][1..] == [];
      assert Run(st, [e]) == Run(Next(st, e), [e][1..]) == Next(st, e);
    } else {
      assert (events + [e])[0] == events[0] && (events + [e])[1..] == events[1..] + [e];
      RunAppend(Next(st, events[0]), events[1..], e);
    }
  }

  /** Save these settings, or lose power and start again. */
  datatype Act = Keep(s: Settings) | PowerCycle

  /** What an act showed: whether a save was acknowledged, what a load could read, what the slots then decode to. */
  datatype Turn = Turn(ack: bool, seen: Seen, slots: Slots)

  /** The protocol's step for an act. */
  function EventOf(st: Store, a: Act, t: Turn): Event
    requires SlotIndex(st)
  {
    match a
    case Keep(s) => if t.ack then Saved(s) else SaveFailed(s, LeftAs(st, t.slots[Target(st)]))
    case PowerCycle => Reload
  }

  /** A failed save left its slot old, new or undecodable; a load read the folder and both slots. */
  predicate Fair(st: Store, a: Act, t: Turn)
    requires SlotIndex(st)
  {
    match a
    case Keep(s) => t.ack || LeftClean(st, s, t.slots[Target(st)])
    case PowerCycle => AllSeen(t.seen)
  }

  /** A save on a store that may have lost track: the disk changes in the file's first cluster at most. */
  method KeepStep(store: ConfigStore, s: Settings, ghost st: Store, ghost image0: seq<Byte>, ghost c: U32, ghost size: U32,
                  ghost sure: bool)
    returns (ack: bool, ghost slots: Slots)
    requires Mine(store, store.vol.dev, store.vol.g, c, size) && Home(image0, store.vol.dev.image, store.vol.g, c, size)
    requires SlotIndex(st) && (sure ==> InStep(store, st) && st.live)
    modifies store, store.buf, store.vol, store.vol.dev
    ensures Mine(store, store.vol.dev, store.vol.g, c, size) && Home(image0, store.vol.dev.image, store.vol.g, c, size)
    ensures slots == SlotsOf(store.vol.dev.image, store.vol.g, c, size)
    ensures sure && ack ==> InStep(store, Next(st, Saved(s)))
    ensures sure && !ack && LeftClean(st, s, slots[Target(st)]) ==>
      InStep(store, Next(st, SaveFailed(s, LeftAs(st, slots[Target(st)]))))
    ensures sure && store.vol.dev.reliable ==> ack
  {
    ghost var was := store.vol.dev.image;
    if store.found {
      ghost var st' := store.State();
      ack := SaveStep(store, s, st');
      HomeKept(image0, was, store.vol.dev.image, store.vol.g, c, size);
    } else {
      ghost var left;
      var rc;
      rc, left := store.Save(s);
      ack := rc == 0;
    }
    slots := SlotsOf(store.vol.dev.image, store.vol.g, c, size);
  }

  /** One act of a run, on the store there is or on a fresh one. */
  method OneAct(store: ConfigStore, dev: BlockDevice, g: Geo, a: Act,
                ghost st: Store, ghost image0: seq<Byte>, ghost c: U32, ghost size: U32, ghost sure: bool)
    returns (store': ConfigStore, ack: bool, ghost t: Turn)
    requires Mine(store, dev, g, c, size) && Home(image0, dev.image, g, c, size) && SlotIndex(st)
    requires sure ==> InStep(store, st) && st.live
    modifies store, store.buf, store.vol, dev
    ensures Mine(store', dev, g, c, size) && Home(image0, dev.image, g, c, size)
    ensures store' == store || (fresh(store') && fresh(store'.vol) && fresh(store'.buf))
    ensures t.ack == ack && t.slots == SlotsOf(dev.image, g, c, size)
    ensures sure && Fair(st, a, t) ==> InStep(store', Next(st, EventOf(st, a, t))) && Next(st, EventOf(st, a, t)).live
    ensures sure && dev.reliable ==> ack && Fair(st, a, t)
  {
    match a
    case Keep(s) =>
      store' := store;
      ghost var slots;
      ack, slots := KeepStep(store, s, st, image0, c, size, sure);
      t := Turn(ack, Seen(true, true, true), slots);
    case PowerCycle =>
      var settings;
      ghost var seen;
      store', settings, seen := Boot(dev, g, image0, c, size);
      ack, t := true, Turn(true, seen, SlotsOf(dev.image, g, c, size));
  }

  /** The run of the protocol that the acts and what they showed spell out. */
  ghost predicate Spells(st0: Store, acts: seq<Act>, turns: seq<Turn>, events: seq<Event>)
    requires SlotIndex(st0)
  {
    && |turns| == |events| <= |acts|
    && forall i :: 0 <= i < |events| ==> events[i] == EventOf(Run(st0, events[..i]), acts[i], turns[i])
  }

  /** Every act of it was fair. */
  ghost predicate AllFair(st0: Store, acts: seq<Act>, turns: seq<Turn>, events: seq<Event>)
    requires SlotIndex(st0) && |turns| == |events| <= |acts|
  {
    forall i :: 0 <= i < |events| ==> Fair(Run(st0, events[..i]), acts[i], turns[i])
  }

  lemma SpellsNone(st0: Store, acts: seq<Act>)
    requires SlotIndex(st0)
    ensures Spells(st0, acts, [], []) && AllFair(st0, acts, [], [])
  {
  }

  lemma SpellsMore(st0: Store, acts: seq<Act>, turns: seq<Turn>, events: seq<Event>, t: Turn)
    requires SlotIndex(st0) && Spells(st0, acts, turns, events) && |events| < |acts|
    ensures var st := Run(st0, events);
      var e := EventOf(st, acts[|events|], t);
      && Spells(st0, acts, turns + [t], events + [e]) && Run(st0, events + [e]) == Next(st, e)
      && (AllFair(st0, acts, turns + [t], events + [e]) <==> AllFair(st0, acts, turns, events) && Fair(st, acts[|events|], t))
  {
    var n := |events|;
    var e := EventOf(Run(st0, events), acts[n], t);
    var turns', events' := turns + [t], events + [e];
    RunAppend(st0, events, e);
    assert events'[..n] == events;
    forall i | 0 <= i < n
      ensures events'[..i] == events[..i] && turns'[i] == turns[i] && events'[i] == events[i]
    {
    }
    if AllFair(st0, acts, turns', events') {
      assert Fair(Run(st0, events'[..n]), acts[n], turns'[n]);
      forall i | 0 <= i < n
        ensures Fair(Run(st0, events[..i]), acts[i], turns[i])
      {
        assert Fair(Run(st0, events'[..i]), acts[i], turns'[i]);
      }
    }
  }

  /** What was kept last. */
  function LastKept(initial: Option<Settings>, acts: seq<Act>): Option<Settings>
    decreases |acts|
  {
    if acts == [] then initial
    else LastKept(if acts[0].Keep? then Some(Normal(acts[0].s)) else initial, acts[1..])
  }

  predicate Acknowledged(a: Act, e: Event)
  {
    match a
    case Keep(s) => e == Saved(s)
    case PowerCycle => e == Reload
  }

  lemma {:induction false} KeptIsSaved(initial: Option<Settings>, acts: seq<Act>, events: seq<Event>)
    requires |acts| == |events| && forall i :: 0 <= i < |acts| ==> Acknowledged(acts[i], events[i])
    ensures LastKept(initial, acts) == LastSaved(initial, events)
    decreases |acts|
  {
    if acts != [] {
      assert Acknowledged(acts[0], events[0]);
      forall i | 0 <= i < |acts| - 1
        ensures Acknowledged(acts[1..][i], events[1..][i])
      {
        assert Acknowledged(acts[i + 1], events[i + 1]);
      }
      KeptIsSaved(if acts[0].Keep? then Some(Normal(acts[0].s)) else initial, acts[1..], events[1..]);
    }
  }

  /** With every save acknowledged the promise is what was kept last. */
  lemma AllKept(slots: Slots, acts: seq<Act>, turns: seq<Turn>, events: seq<Event>)
    requires |events| == |acts| && Spells(Loaded(slots, Pick(slots, true, true)), acts, turns, events)
    requires forall i :: 0 <= i < |turns| ==> turns[i].ack
    ensures Survivor(PromisedRun(Promise(Reloads(slots), None, true), events)) == LastKept(Reloads(slots), acts)
  {
    var st0 := Loaded(slots, Pick(slots, true, true));
    forall i | 0 <= i < |acts|
      ensures Acknowledged(acts[i], events[i]) && (events[i].Saved? || events[i].Reload?)
    {
      assert events[i] == EventOf(Run(st0, events[..i]), acts[i], turns[i]);
    }
    KeptIsSaved(Reloads(slots), acts, events);
    AllAcknowledged(Promise(Reloads(slots), None, true), events);
  }

  /**
   * Settings saved, saves failing, power lost, in any order, over one disk; then power
   * on once more. The run of the protocol is spelled out by what the acts showed: a save
   * is `Saved` in it exactly when it was acknowledged. As long as each load could read
   * the folder and both slots, and each failed save left its slot old, new or
   * undecodable, the settings found are exactly the promised ones; on a reliable disk
   * that is so, every save is acknowledged, and they are the settings kept last.
   */
  method Drive(dev: BlockDevice, g: Geo, acts: seq<Act>, ghost c: U32, ghost size: U32)
    returns (settings: Option<Settings>, acks: seq<bool>, ghost turns: seq<Turn>, ghost events: seq<Event>,
             ghost first: Seen, ghost last: Seen)
    requires Home(dev.image, dev.image, g, c, size)
    modifies dev
    ensures Home(old(dev.image), dev.image, g, c, size)
    ensures |acks| == |turns| == |events| == |acts| && forall i :: 0 <= i < |acts| ==> turns[i].ack == acks[i]
    ensures acts != [] ==> turns[|acts| - 1].slots == SlotsOf(dev.image, g, c, size)
    ensures var slots := SlotsOf(old(dev.image), g, c, size);
      var st0 := Loaded(slots, Pick(slots, true, true));
      && Spells(st0, acts, turns, events)
      && (AllSeen(first) && AllSeen(last) && AllFair(st0, acts, turns, events) ==>
            settings == Survivor(PromisedRun(Promise(Reloads(slots), None, true), events)))
      && (dev.reliable ==> AllSeen(first) && AllSeen(last) && AllFair(st0, acts, turns, events)
                           && settings == LastKept(Reloads(slots), acts))
    ensures dev.reliable ==> forall i :: 0 <= i < |acts| ==> acks[i]
  {
    hide Spells, AllFair, PromisedRun, SlotsOf, Fair, EventOf, Confined;
    ghost var image0 := dev.image;
    ghost var slots := SlotsOf(image0, g, c, size);
    ghost var st0 := Loaded(slots, Pick(slots, true, true));
    acks, turns, events := [], [], [];
    SpellsNone(st0, acts);
    var store;
    store, settings, first := Boot(dev, g, image0, c, size);
    ghost var sure := AllSeen(first);
    var i := 0;
    while i < |acts|
      invariant i <= |acts| && Home(image0, dev.image, g, c, size) && Mine(store, dev, g, c, size)
      invariant fresh(store) && fresh(store.vol) && fresh(store.buf)
      invariant |acks| == |turns| == |events| == i && (forall k :: 0 <= k < i ==> turns[k].ack == acks[k])
      invariant i > 0 ==> turns[i - 1].slots == SlotsOf(dev.image, g, c, size)
      invariant Spells(st0, acts, turns, events)
      invariant sure <==> AllSeen(first) && AllFair(st0, acts, turns, events)
      invariant sure ==> InStep(store, Run(st0, events)) && Run(st0, events).live
      invariant dev.reliable ==> sure && forall k :: 0 <= k < i ==> acks[k]
    {
      ghost var st, t := Run(st0, events), Turn(true, first, slots);
      var ack;
      store, ack, t := OneAct(store, dev, g, acts[i], st, image0, c, size, sure);
      SpellsMore(st0, acts, turns, events, t);
      sure := sure && Fair(st, acts[i], t);
      acks, turns, events := acks + [ack], turns + [t], events + [EventOf(st, acts[i], t)];
      i := i + 1;
    }
    ghost var disk := dev.image;
    store, settings, last := Boot(dev, g, image0, c, size);
    assert dev.image == disk;
    CrashSafe(slots, events);
    if dev.reliable {
      AllKept(slots, acts, turns, events);
    }
  }
}
