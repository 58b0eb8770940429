/**
 * The two-slot commit protocol over whole runs: acknowledged saves, failed saves,
 * power cuts and reloads, in any order.
 */
module CrashSafety {
  import opened Words
  import opened Options
  import opened Record

  /** What a slot decodes to: settings and a sequence number, or nothing. */
  type Held = Option<(Settings, U32)>

  predicate TwoSlots(s: seq<Held>)
  {
    |s| == 2
  }

  type Slots = s: seq<Held> | TwoSlots(s)
    witness [None, None]

  /** The slots as their bytes decode. */
  function View(a: seq<Byte>, b: seq<Byte>): Slots
    requires |a| == SLOT_BYTES && |b| == SLOT_BYTES
  {
    [Decoded(a), Decoded(b)]
  }

  /** Is sequence number `a` newer than `b`: their wrapped difference, read as signed, is positive. */
  predicate Newer(a: U32, b: U32)
  {
    0 < Wrap32(a - b) < 0x8000_0000
  }

  /** One step on is newer, also across the wrap; nothing is newer than itself; never both ways. */
  lemma NewerSound(a: U32, b: U32)
    ensures Newer(Wrap32(a + 1), a) && !Newer(a, a)
    ensures Newer(a, b) ==> !Newer(b, a)
  {
  }

  /** The newer of two numbers is the one the other reaches in less than 2^31 steps. */
  lemma NewerExactly(a: U32, b: U32)
    ensures Newer(a, b) <==> exists d: nat :: Ahead(a, b, d)
  {
    if Newer(a, b) {
      assert Ahead(a, b, Wrap32(a - b));
    }
  }

  predicate Ahead(a: U32, b: U32, d: nat)
  {
    1 <= d < 0x8000_0000 && a == (b + d) % 0x1_0000_0000
  }

  datatype Best = Best(settings: Settings, num: U32, slot: nat)

  function Candidate(held: Held, readable: bool): Held
  {
    if readable then held else None
  }

  /** The better of what has been found so far and the record in `slot`. */
  function Consider(best: Option<Best>, rec: Held, slot: nat): Option<Best>
  {
    if rec.Some? && (best.None? || Newer(rec.value.1, best.value.num))
    then Some(Best(rec.value.0, rec.value.1, slot)) else best
  }

  /** What a load finds, when slot `i` can be read exactly when `r<i>`. */
  function Pick(slots: Slots, r0: bool, r1: bool): Option<Best>
  {
    Consider(Consider(None, Candidate(slots[0], r0), 0), Candidate(slots[1], r1), 1)
  }

  /** The same, after the first `n` slots. */
  function Considered(slots: Slots, r0: bool, r1: bool, n: nat): Option<Best>
  {
    if n == 0 then None
    else if n == 1 then Consider(None, Candidate(slots[0], r0), 0)
    else Pick(slots, r0, r1)
  }

  function SettingsOf(best: Option<Best>): Option<Settings>
  {
    if best.Some? then Some(best.value.settings) else None
  }

  /** The module's memory of the newest record, and whether it has been loaded since power came on. */
  datatype Store = Store(slots: Slots, num: U32, slot: nat, live: bool)

  predicate SlotIndex(st: Store)
  {
    st.slot < 2
  }

  function Loaded(slots: Slots, best: Option<Best>): Store
  {
    match best
    case None => Store(slots, 0, 0, true)
    case Some(b) => Store(slots, b.num, b.slot, true)
  }

  /** What an unacknowledged write left in its target slot; a torn slot does not decode. */
  datatype Left = Old | New | Torn

  datatype Event =
    | Saved(s: Settings)
    | SaveFailed(s: Settings, left: Left)
    | PowerCut(s: Settings, left: Left)
    | Reload

  function Target(st: Store): (t: nat)
    requires SlotIndex(st)
    ensures t < 2 && t != st.slot
  {
    1 - st.slot
  }

  function Written(st: Store, s: Settings): Held
  {
    Some((Normal(s), Wrap32(st.num + 1)))
  }

  /** The target slot after a save of `s` that was not acknowledged. */
  function Remains(st: Store, s: Settings, left: Left): Held
    requires SlotIndex(st)
  {
    match left
    case Old => st.slots[Target(st)]
    case New => Written(st, s)
    case Torn => None
  }

  function Next(st: Store, e: Event): (st': Store)
    requires SlotIndex(st)
    ensures SlotIndex(st')
  {
    match e
    case Saved(s) =>
      if !st.live then st
      else Store(st.slots[Target(st) := Written(st, s)], Wrap32(st.num + 1), Target(st), true)
    case SaveFailed(s, left) =>
      if !st.live then st else st.(slots := st.slots[Target(st) := Remains(st, s, left)])
    case PowerCut(s, left) =>
      if !st.live then st else st.(slots := st.slots[Target(st) := Remains(st, s, left)], live := false)
    case Reload => Loaded(st.slots, Pick(st.slots, true, true))
  }

  function Run(st: Store, events: seq<Event>): (st': Store)
    requires SlotIndex(st)
    ensures SlotIndex(st')
    decreases |events|
  {
    if events == [] then st else Run(Next(st, events[0]), events[1..])
  }

  // ---- what a user is promised ------------------------------------------------

  /**
   * The last acknowledged settings, and the unacknowledged ones whose write landed
   * since: nothing here mentions slots, sequence numbers or bytes.
   */
  datatype Promise = Promise(durable: Option<Settings>, landed: Option<Settings>, live: bool)

  function Survivor(p: Promise): Option<Settings>
  {
    if p.landed.Some? then p.landed else p.durable
  }

  function Unacknowledged(p: Promise, s: Settings, left: Left): Promise
  {
    match left
    case Old => p
    case New => p.(landed := Some(Normal(s)))
    case Torn => p.(landed := None)
  }

  function Promised(p: Promise, e: Event): Promise
  {
    match e
    case Saved(s) => if !p.live then p else Promise(Some(Normal(s)), None, true)
    case SaveFailed(s, left) => if !p.live then p else Unacknowledged(p, s, left)
    case PowerCut(s, left) => if !p.live then p else Unacknowledged(p, s, left).(live := false)
    case Reload => Promise(Survivor(p), None, true)
  }

  function PromisedRun(p: Promise, events: seq<Event>): Promise
    decreases |events|
  {
    if events == [] then p else PromisedRun(Promised(p, events[0]), events[1..])
  }

  /** The settings a reload would find. */
  function Reloads(slots: Slots): Option<Settings>
  {
    SettingsOf(Pick(slots, true, true))
  }

  predicate Keeps(st: Store, p: Promise)
  {
    && SlotIndex(st) && st.live == p.live
    && st.slots[st.slot] == (if p.durable.Some? then Some((p.durable.value, st.num)) else None)
    && (p.durable.None? ==> st.num == 0)
    && var other := st.slots[1 - st.slot];
       if p.landed.Some? then other == Some((p.landed.value, Wrap32(st.num + 1)))
       else other.None? || (p.durable.Some? && !Beats(other.value.1, 1 - st.slot, st.num))
  }

  /** Would a load prefer the record with number `q` in slot `at` to the one with number `r` in the other slot? */
  predicate Beats(q: U32, at: nat, r: U32)
  {
    if at == 0 then !Newer(r, q) else Newer(q, r)
  }

  lemma KeptSurvives(st: Store, p: Promise)
    requires Keeps(st, p)
    ensures Reloads(st.slots) == Survivor(p)
  {
    NewerSound(st.num, st.num);
    NewerSound(Wrap32(st.num + 1), st.num);
  }

  /** A load starts a new promise: what it found is durable, and nothing is in flight. */
  lemma LoadKeeps(slots: Slots)
    ensures Keeps(Loaded(slots, Pick(slots, true, true)), Promise(Reloads(slots), None, true))
  {
    if slots[0].Some? && slots[1].Some? {
      NewerSound(slots[0].value.1, slots[1].value.1);
    }
  }

  lemma SavedKeeps(st: Store, p: Promise, s: Settings)
    requires Keeps(st, p) && st.live
    ensures Keeps(Next(st, Saved(s)), Promised(p, Saved(s)))
  {
    NewerSound(st.num, st.num);
    NewerSound(Wrap32(st.num + 1), st.num);
  }

  lemma FailedKeeps(st: Store, p: Promise, s: Settings, left: Left)
    requires Keeps(st, p) && st.live
    ensures Keeps(Next(st, SaveFailed(s, left)), Promised(p, SaveFailed(s, left)))
    ensures Keeps(Next(st, PowerCut(s, left)), Promised(p, PowerCut(s, left)))
  {
  }

  lemma NextKeeps(st: Store, p: Promise, e: Event)
    requires Keeps(st, p)
    ensures Keeps(Next(st, e), Promised(p, e))
  {
    if e.Reload? {
      KeptSurvives(st, p);
      LoadKeeps(st.slots);
    } else if st.live {
      match e
      case Saved(s) => SavedKeeps(st, p, s);
      case SaveFailed(s, left) => FailedKeeps(st, p, s, left);
      case PowerCut(s, left) => FailedKeeps(st, p, s, left);
    }
  }

  lemma {:induction false} RunKeeps(st: Store, p: Promise, events: seq<Event>)
    requires Keeps(st, p)
    ensures Keeps(Run(st, events), PromisedRun(p, events))
    decreases |events|
  {
    if events != [] {
      NextKeeps(st, p, events[0]);
      RunKeeps(Next(st, events[0]), Promised(p, events[0]), events[1..]);
    }
  }

  /**
   * From any two slots whatever, after a load and any run of acknowledged saves,
   * failed saves, power cuts and reloads, a reload finds exactly the promised settings.
   */
  lemma CrashSafe(slots: Slots, events: seq<Event>)
    ensures var st := Run(Loaded(slots, Pick(slots, true, true)), events);
      Reloads(st.slots) == Survivor(PromisedRun(Promise(Reloads(slots), None, true), events))
  {
    var st, p := Loaded(slots, Pick(slots, true, true)), Promise(Reloads(slots), None, true);
    LoadKeeps(slots);
    RunKeeps(st, p, events);
    KeptSurvives(Run(st, events), PromisedRun(p, events));
  }

  /** The settings saved last, or `initial` when none were. */
  function LastSaved(initial: Option<Settings>, events: seq<Event>): Option<Settings>
    decreases |events|
  {
    if events == [] then initial
    else LastSaved(if events[0].Saved? then Some(Normal(events[0].s)) else initial, events[1..])
  }

  /** When every save is acknowledged, the promise is the settings saved last. */
  lemma {:induction false} AllAcknowledged(p: Promise, events: seq<Event>)
    requires p.live && forall i :: 0 <= i < |events| ==> events[i].Saved? || events[i].Reload?
    ensures Survivor(PromisedRun(p, events)) == LastSaved(Survivor(p), events)
    decreases |events|
  {
    if events != [] {
      AllAcknowledged(Promised(p, events[0]), events[1..]);
    }
  }

  /** The promise is never anything but the last acknowledged settings or an attempt made since. */
  predicate Attempted(e: Event, x: Settings)
  {
    (e.SaveFailed? || e.PowerCut?) && x == Normal(e.s)
  }

  lemma {:induction false} LandedWasAttempted(p: Promise, events: seq<Event>)
    requires forall i :: 0 <= i < |events| ==> !events[i].Saved? && !events[i].Reload?
    ensures PromisedRun(p, events).durable == p.durable
    ensures PromisedRun(p, events).landed.Some? && PromisedRun(p, events).landed != p.landed ==>
      exists i :: 0 <= i < |events| && Attempted(events[i], PromisedRun(p, events).landed.value)
    decreases |events|
  {
    if events != [] {
      var q := Promised(p, events[0]);
      LandedWasAttempted(q, events[1..]);
      var end := PromisedRun(p, events);
      if end.landed.Some? && end.landed != p.landed && end.landed != q.landed {
        var i :| 0 <= i < |events| - 1 && Attempted(events[1..][i], end.landed.value);
        assert Attempted(events[i + 1], end.landed.value);
      } else if end.landed.Some? && end.landed != p.landed {
        assert Attempted(events[0], end.landed.value);
      }
    }
  }

  /** After an acknowledged save, whatever fails next, a reload finds it or one of the attempts after it. */
  lemma AcknowledgedOrAttempted(slots: Slots, before: seq<Event>, s: Settings, after: seq<Event>)
    requires forall i :: 0 <= i < |after| ==> !after[i].Saved? && !after[i].Reload?
    requires Run(Loaded(slots, Pick(slots, true, true)), before).live
    ensures var st := Run(Next(Run(Loaded(slots, Pick(slots, true, true)), before), Saved(s)), after);
      || Reloads(st.slots) == Some(Normal(s))
      || exists i :: 0 <= i < |after| && Reloads(st.slots).Some? && Attempted(after[i], Reloads(st.slots).value)
  {
    var st0, p0 := Loaded(slots, Pick(slots, true, true)), Promise(Reloads(slots), None, true);
    LoadKeeps(slots);
    RunKeeps(st0, p0, before);
    var st, p := Run(st0, before), PromisedRun(p0, before);
    NextKeeps(st, p, Saved(s));
    RunKeeps(Next(st, Saved(s)), Promised(p, Saved(s)), after);
    KeptSurvives(Run(Next(st, Saved(s)), after), PromisedRun(Promised(p, Saved(s)), after));
    LandedWasAttempted(Promised(p, Saved(s)), after);
  }

  // ---- the two slots ------------------------------------------------------------

  /** When both slots hold valid records, their numbers are one apart, modulo 2^32. */
  predicate Paired(slots: Slots)
  {
    OneApart(slots[0], slots[1])
  }

  predicate OneApart(a: Held, b: Held)
  {
    a.Some? && b.Some? ==> b.value.1 == Wrap32(a.value.1 + 1) || a.value.1 == Wrap32(b.value.1 + 1)
  }

  lemma NextPaired(st: Store, p: Promise, e: Event)
    requires Keeps(st, p)
    requires Paired(st.slots) || (e.Saved? && st.live)
    ensures Paired(Next(st, e).slots)
  {
  }

  /** From the first acknowledged save on, for the rest of the run, valid slots are one apart. */
  lemma {:induction false} RunPaired(st: Store, p: Promise, events: seq<Event>)
    requires Keeps(st, p)
    requires Paired(st.slots) || (events != [] && events[0].Saved? && st.live)
    ensures Paired(Run(st, events).slots)
    decreases |events|
  {
    if events != [] {
      NextPaired(st, p, events[0]);
      NextKeeps(st, p, events[0]);
      RunPaired(Next(st, events[0]), Promised(p, events[0]), events[1..]);
    }
  }

  /** A step that neither acknowledges a save nor reloads. */
  predicate Unacknowledging(e: Event)
  {
    !e.Saved? && !e.Reload?
  }

  /**
   * Until a save is acknowledged or the slots are loaded again, whatever fails and
   * however often, the slot of the newest known record is not touched.
   */
  lemma {:induction false} NewestUntouched(st: Store, events: seq<Event>)
    requires SlotIndex(st) && forall i :: 0 <= i < |events| ==> Unacknowledging(events[i])
    ensures var end := Run(st, events); end.slot == st.slot && end.num == st.num && end.slots[st.slot] == st.slots[st.slot]
    decreases |events|
  {
    if events != [] {
      assert Unacknowledging(events[0]);
      NewestUntouched(Next(st, events[0]), events[1..]);
    }
  }

  // ---- a slot that cannot be read -------------------------------------------------

  /**
   * A load that could not read some slot still finds the newest record exactly when
   * the slot holding it was among those it read.
   */
  lemma UnreadableExactly(slots: Slots, r0: bool, r1: bool)
    ensures var best := Pick(slots, true, true);
      Pick(slots, r0, r1) == best <==> best.None? || (if best.value.slot == 0 then r0 else r1)
  {
    if slots[0].Some? && slots[1].Some? {
      NewerSound(slots[0].value.1, slots[1].value.1);
    }
  }

  /**
   * The guarantee needs both slots readable at load: with the newest one unreadable,
   * the load takes the older record and the next save is aimed at the newest.
   */
  lemma UnreadableNewest(a: Settings, b: Settings)
    requires Normal(a) != Normal(b)
    ensures var slots: Slots := [Some((Normal(a), 1)), Some((Normal(b), 2))];
      var st := Loaded(slots, Pick(slots, true, false));
      Reloads(slots) == Some(Normal(b)) && Target(st) == 1
      && Reloads(Next(st, SaveFailed(b, Torn)).slots) == Some(Normal(a))
  {
  }

  /** The latest attempt need not be the one that survives: an earlier one may have landed, and this one not. */
  lemma EarlierAttemptSurvives(a: Settings, b: Settings, c: Settings)
    requires Normal(a) != Normal(b)
    ensures var slots: Slots := [None, None];
      var events := [Saved(c), SaveFailed(a, New), SaveFailed(b, Old)];
      Reloads(Run(Loaded(slots, Pick(slots, true, true)), events).slots) == Some(Normal(a))
  {
    var slots: Slots := [None, None];
    var events := [Saved(c), SaveFailed(a, New), SaveFailed(b, Old)];
    CrashSafe(slots, events);
    var p := Promise(Reloads(slots), None, true);
    var q := Promised(p, events[0]);
    assert events[1..][1..] == [events[2]] && events[2..][1..] == [];
    assert PromisedRun(p, events) == PromisedRun(q, events[1..]);
    assert PromisedRun(q, events[1..]) == PromisedRun(Promised(q, events[1]), [events[2]]);
  }
}
