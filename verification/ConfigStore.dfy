/** The settings file: found at mount, loaded from two slots, saved in place. */
module ConfigStore {
  import opened Words
  import opened Memory
  import opened Volume
  import opened Fat32
  import opened FatStream
  import opened Directory
  import opened DirWalk
  import opened Options
  import opened Record
  import opened RecordCodec
  import opened FileLba
  import opened CrashSafety

  // ---- finding the file ---------------------------------------------------------

  function TrimSpaces(s: seq<Byte>): seq<Byte>
  {
    if s != [] && s[|s| - 1] == 0x20 then TrimSpaces(s[..|s| - 1]) else s
  }

  /** An 8.3 name as a C string: base, and an extension when there is one, up to the first NUL. */
  function ShortName(raw: seq<Byte>): seq<Byte>
    requires |raw| == 32
  {
    var ext := TrimSpaces(raw[8..11]);
    UpToNul(TrimSpaces(raw[..8]) + (if ext == [] then [] else [0x2E] + ext))
  }

  function UpToNul(s: seq<Byte>): seq<Byte>
  {
    if s == [] || s[0] == 0 then [] else [s[0]] + UpToNul(s[1..])
  }

  function Upper(s: seq<Byte>): (r: seq<Byte>)
    ensures |r| == |s|
  {
    seq(|s|, i requires 0 <= i < |s| => var c: int := s[i]; if 0x61 <= c <= 0x7A then c - 32 else c)
  }

  /** "CORECFG.DAT" */
  const FILE_NAME: seq<Byte> := [0x43, 0x4F, 0x52, 0x45, 0x43, 0x46, 0x47, 0x2E, 0x44, 0x41, 0x54]

  predicate IsConfig(d: Dirent)
  {
    |d.raw| == 32 && !d.isDir && Upper(ShortName(d.raw)) == FILE_NAME
  }

  /** The settings file a finished walk of the root folder ended on, if it is usable. */
  function FileIn(walk: Outcome): Option<Dirent>
  {
    if walk.rc != 0 || walk.out == [] then None
    else
      var d := walk.out[|walk.out| - 1];
      if IsConfig(d) && d.firstClus != 0 && d.size >= MIN_BYTES then Some(d) else None
  }

  /** The walk of the root folder that looks for the file. */
  function RootWalk(image: seq<Byte>, g: Geo): Outcome
    requires OnDisk(image, g)
  {
    WalkFrom(image, g, g.rootClus, 0, Start(), Visiting(image, g, d => IsConfig(d)), WalkLimit(g))
  }

  // ---- slots on disk --------------------------------------------------------------

  /** The file's two slots resolve to addresses on the disk. */
  predicate Usable(image: seq<Byte>, g: Geo, c: U32, size: U32)
  {
    OnDisk(image, g) && SlotLba(g, c, size, 0).Some?
  }

  lemma SlotsOnDisk(image: seq<Byte>, g: Geo, c: U32, size: U32)
    requires Usable(image, g, c, size)
    ensures SlotLba(g, c, size, 1).Some? && 2 <= c < g.maxClus
    ensures var a, b := SlotLba(g, c, size, 0).value, SlotLba(g, c, size, 1).value;
      b == a + 2 && a % 2 == 0 && 512 * a == ClusterAt(g, c) && 512 * a + 2048 <= ClusterAt(g, c) + g.clusBytes <= |image|
  {
    SlotsTogether(g, c, size);
    ClusterOnDisk(image, g, c);
  }

  /** The bytes of slot `i`, which starts `i` times two sectors after the first. */
  function SlotBytes(image: seq<Byte>, g: Geo, c: U32, size: U32, i: nat): (r: seq<Byte>)
    requires Usable(image, g, c, size) && i < 2
    ensures |r| == SLOT_BYTES
  {
    SlotsOnDisk(image, g, c, size);
    var lba := SlotLba(g, c, size, i).value;
    image[512 * lba..512 * lba + SLOT_BYTES]
  }

  function SlotsOf(image: seq<Byte>, g: Geo, c: U32, size: U32): Slots
    requires Usable(image, g, c, size)
  {
    View(SlotBytes(image, g, c, size, 0), SlotBytes(image, g, c, size, 1))
  }

  /** A write to one slot is confined to the file's first cluster and leaves the other slot alone. */
  lemma SlotWrite(image: seq<Byte>, image': seq<Byte>, g: Geo, c: U32, size: U32, t: nat)
    requires Usable(image, g, c, size) && t < 2
    requires var lba := SlotLba(g, c, size, t);
      image' == image || (lba.Some? && SameOutside(image, image', 512 * lba.value, 512 * lba.value + SLOT_BYTES))
    ensures Usable(image', g, c, size) && ClusterValid(g, c) && Confined(image, image', g, c)
    ensures SlotBytes(image', g, c, size, 1 - t) == SlotBytes(image, g, c, size, 1 - t)
    ensures SlotsOf(image', g, c, size) == SlotsOf(image, g, c, size)[t := Decoded(SlotBytes(image', g, c, size, t))]
  {
    SlotsOnDisk(image, g, c, size);
    SlotsTogether(g, c, size);
    var lo := 512 * SlotLba(g, c, size, t).value;
    var o := 512 * SlotLba(g, c, size, 1 - t).value;
    var cl := ClusterAt(g, c);
    if image' != image {
      SliceOutside(image, image', lo, lo + SLOT_BYTES, o, o + SLOT_BYTES);
      Widen(image, image', lo, lo + SLOT_BYTES, cl, cl + g.clusBytes);
    }
  }

  lemma Widen(a: seq<Byte>, b: seq<Byte>, lo: nat, hi: nat, lo': nat, hi': nat)
    requires SameOutside(a, b, lo, hi) && lo' <= lo && hi <= hi' <= |a|
    ensures SameOutside(a, b, lo', hi')
  {
    assert a[..lo'] == a[..lo][..lo'] && b[..lo'] == b[..lo][..lo'];
    assert a[hi'..] == a[hi..][hi' - hi..] && b[hi'..] == b[hi..][hi' - hi..];
  }

  /** A cached sector is as current after the write as before, or belongs to the file just written. */
  lemma CacheKept(image: seq<Byte>, image': seq<Byte>, g: Geo, c: U32, dirty: nat, s: nat, cache: seq<Byte>)
    requires OnDisk(image, g) && 2 <= c < g.maxClus && Confined(image, image', g, c) && OnDisk(image', g)
    requires s < SectorLimit(g) && (dirty == 0 || dirty == c)
    requires InCluster(g, dirty, s) || cache == SectorBytes(image, g, s)
    ensures InCluster(g, c, s) || cache == SectorBytes(image', g, s)
  {
    if !InCluster(g, c, s) {
      SectorKept(image, image', g, c, s);
    }
  }

  class ConfigStore {
    const vol: FatVolume
    const buf: array<Byte>
    var firstClus: U32
    var size: U32
    var num: U32
    var slot: nat
    var found: bool

    ghost predicate Valid()
      reads this, vol, vol.dev
    {
      && vol.Valid() && buf.Length == SLOT_BYTES
      && (found ==> slot < 2 && Usable(vol.dev.image, vol.g, firstClus, size)
                    && (vol.dirty == 0 || vol.dirty == firstClus))
    }

    /** The store as the commit protocol sees it. */
    ghost function State(): Store
      reads this, vol, vol.dev
      requires Valid() && found
    {
      Store(SlotsOf(vol.dev.image, vol.g, firstClus, size), num, slot, true)
    }

    constructor (v: FatVolume, scratch: array<Byte>)
      requires v.Valid() && scratch.Length == SLOT_BYTES
      ensures Valid() && vol == v && buf == scratch && !found
    {
      vol, buf := v, scratch;
      firstClus, size, num, slot, found := 0, 0, 0, 0, false;
    }

    /** Enumerate the root folder for the file; leaves cluster and size 0 unless it is there and big enough. */
    method Find() returns (ok: bool, ghost walk: Outcome)
      requires vol.Valid()
      modifies this`firstClus, this`size, vol
      ensures vol.Valid() && vol.dirty == old(vol.dirty)
      ensures walk.rc != EIO ==> walk == RootWalk(vol.dev.image, vol.g)
      ensures vol.dev.reliable ==> walk.rc != EIO
      ensures ok <==> FileIn(walk).Some?
      ensures if ok then firstClus == FileIn(walk).value.firstClus && size == FileIn(walk).value.size
              else firstClus == 0 && size == 0
    {
      firstClus, size := 0, 0;
      var rc, out;
      ghost var t;
      rc, out, t := ReadDir(vol, vol.g.rootClus, d => IsConfig(d));
      walk := Outcome(rc, out, t);
      ok := rc == 0 && out != [] && IsConfig(out[|out| - 1]);
      if ok {
        firstClus, size := out[|out| - 1].firstClus, out[|out| - 1].size;
        ok := firstClus != 0 && size >= MIN_BYTES;
      }
      if !ok {
        firstClus, size := 0, 0;
      }
    }

    /** Read and decode one slot, straight from the device. */
    method ReadSlot(i: nat, ghost slots: Slots) returns (held: Held, ghost readable: bool)
      requires Usable(vol.dev.image, vol.g, firstClus, size) && i < 2 && buf.Length == SLOT_BYTES
      requires slots == SlotsOf(vol.dev.image, vol.g, firstClus, size)
      modifies buf
      ensures held == Candidate(slots[i], readable) && (vol.dev.reliable ==> readable)
    {
      SlotsOnDisk(vol.dev.image, vol.g, firstClus, size);
      var lba := SlotLba(vol.g, firstClus, size, i).value;
      var ok, data := vol.dev.Read(lba, SLOT_SECTORS);
      readable := ok;
      held := None;
      if ok {
        Copy(buf, 0, data);
        assert buf[..] == data;
        held := Decode(buf);
      }
    }

    /** The loop over the two slots. */
    method Choose(ghost slots: Slots) returns (best: Option<Best>, ghost r0: bool, ghost r1: bool)
      requires Usable(vol.dev.image, vol.g, firstClus, size) && buf.Length == SLOT_BYTES
      requires slots == SlotsOf(vol.dev.image, vol.g, firstClus, size)
      modifies buf
      ensures best == Pick(slots, r0, r1) && (vol.dev.reliable ==> r0 && r1)
    {
      best, r0, r1 := None, false, false;
      var i := 0;
      while i < 2
        invariant i <= 2
        invariant best == Considered(slots, r0, r1, i)
        invariant vol.dev.reliable ==> (i > 0 ==> r0) && (i > 1 ==> r1)
      {
        ghost var readable;
        var held;
        held, readable := ReadSlot(i, slots);
        best := Consider(best, held, i);
        r0, r1 := if i == 0 then readable else r0, if i == 0 then r1 else readable;
        i := i + 1;
      }
    }

    /** Remember what the load chose. */
    method Adopt(best: Option<Best>, ghost slots: Slots, ghost r0: bool, ghost r1: bool)
      requires best == Pick(slots, r0, r1) && num == 0 && slot == 0
      modifies this`num, this`slot, this`found
      ensures found && slot < 2 && Store(slots, num, slot, true) == Loaded(slots, Pick(slots, r0, r1))
    {
      found := true;
      if best.Some? {
        num, slot := best.value.num, best.value.slot;
      }
    }

    /**
     * Find the file and load the better of its two slots. What is kept in memory is
     * what the protocol's load says, for the slots that could be read. It may be called
     * again on the same mount, as long as the file found is the one saved to before.
     */
    method Load() returns (settings: Option<Settings>, ghost r0: bool, ghost r1: bool, ghost slots: Slots, ghost walk: Outcome)
      requires vol.Valid() && buf.Length == SLOT_BYTES
      requires var d := FileIn(RootWalk(vol.dev.image, vol.g)); vol.dirty == 0 || d.None? || vol.dirty == d.value.firstClus
      modifies this, buf, vol
      ensures Valid() && vol.dirty == old(vol.dirty)
      ensures walk.rc != EIO ==> walk == RootWalk(vol.dev.image, vol.g)
      ensures vol.dev.reliable ==> walk.rc != EIO && (found ==> r0 && r1)
      ensures found <==> FileIn(walk).Some? && SlotLba(vol.g, FileIn(walk).value.firstClus, FileIn(walk).value.size, 0).Some?
      ensures found ==> firstClus == FileIn(walk).value.firstClus && size == FileIn(walk).value.size
      ensures found ==> State() == Loaded(slots, Pick(slots, r0, r1)) && settings == SettingsOf(Pick(slots, r0, r1))
      ensures !found ==> settings == None
    {
      num, slot, found := 0, 0, false;
      settings, r0, r1, slots := None, false, false, [None, None];
      var ok;
      ok, walk := Find();
      if ok && SlotLba(vol.g, firstClus, size, 0).Some? {
        slots := SlotsOf(vol.dev.image, vol.g, firstClus, size);
        var best;
        best, r0, r1 := Choose(slots);
        Adopt(best, slots, r0, r1);
        settings := SettingsOf(best);
      }
    }

    /**
     * Save into the slot that does not hold the newest known record. Nothing outside
     * the file's first cluster changes, whatever the disk does; the newest known record
     * stays readable; and an acknowledged save is exactly the protocol's.
     */
    method Save(s: Settings) returns (rc: int, ghost left: Held)
      requires Valid()
      modifies this, buf, vol, vol.dev
      ensures Valid() && found == old(found) && firstClus == old(firstClus) && size == old(size)
      ensures !found ==> rc == -1 && vol.dev.image == old(vol.dev.image) && vol.dirty == old(vol.dirty)
      ensures found ==> OnDisk(old(vol.dev.image), vol.g) && ClusterValid(vol.g, firstClus)
                        && Confined(old(vol.dev.image), vol.dev.image, vol.g, firstClus)
      ensures found && rc == 0 ==> State() == Next(old(State()), Saved(s))
      ensures found && rc != 0 ==> State() == WithTarget(old(State()), left)
      ensures found && vol.dev.reliable ==> rc == 0
    {
      hide Confined, SlotsOf;
      left := None;
      if !found {
        return -1, None;
      }
      ghost var was := State();
      var target := 1 - slot;
      rc, left := Commit(s, Wrap32(num + 1), target, was.slots);
      if rc == 0 {
        num, slot := Wrap32(num + 1), target;
      }
    }

    /** Write the record for `s` and `q` to slot `target`; `left` is what that slot then decodes to. */
    method Commit(s: Settings, q: U32, target: nat, ghost slots: Slots) returns (rc: int, ghost left: Held)
      requires Valid() && found && target < 2
      requires slots == SlotsOf(vol.dev.image, vol.g, firstClus, size)
      modifies buf, vol, vol.dev
      ensures Valid() && ClusterValid(vol.g, firstClus) && OnDisk(old(vol.dev.image), vol.g)
      ensures Confined(old(vol.dev.image), vol.dev.image, vol.g, firstClus)
      ensures SlotsOf(vol.dev.image, vol.g, firstClus, size) == slots[target := left]
      ensures rc == 0 ==> left == Some((Normal(s), q))
      ensures vol.dev.reliable ==> rc == 0
    {
      hide Confined;
      SlotsOnDisk(vol.dev.image, vol.g, firstClus, size);
      ghost var before := vol.dev.image;
      assert SlotLba(vol.g, firstClus, size, target).Some?;
      var lba := SlotLba(vol.g, firstClus, size, target).value;
      Encode(buf, s, q);
      ghost var rec := buf[..];
      rc := vol.dev.Write(lba, buf[..]);
      Settle(before, target);
      ghost var bytes := SlotBytes(vol.dev.image, vol.g, firstClus, size, target);
      left := Decoded(bytes);
      if rc == 0 {
        assert bytes == rec;
        RoundTrip(s, q);
      }
    }

    /** The bookkeeping of a write: which cached sector may now be behind the disk. */
    ghost method Settle(before: seq<Byte>, target: nat)
      requires found && slot < 2 && target < 2 && Usable(before, vol.g, firstClus, size) && buf.Length == SLOT_BYTES
      requires var lba := SlotLba(vol.g, firstClus, size, target);
        var image := vol.dev.image;
        image == before || (lba.Some? && SameOutside(before, image, 512 * lba.value, 512 * lba.value + SLOT_BYTES))
      requires vol.dirty == 0 || vol.dirty == firstClus
      requires vol.fatValid ==> 0 <= vol.fatSec < vol.g.dataStart && FatSectorInside(vol.g, vol.fatSec)
                                && vol.fatCache == SectorBytes(before, vol.g, vol.fatSec)
      requires vol.datValid ==> 0 <= vol.datSec < SectorLimit(vol.g)
                                && (InCluster(vol.g, vol.dirty, vol.datSec) || vol.datCache == SectorBytes(before, vol.g, vol.datSec))
      modifies vol`dirty
      ensures Valid() && ClusterValid(vol.g, firstClus) && Confined(before, vol.dev.image, vol.g, firstClus)
      ensures SlotsOf(vol.dev.image, vol.g, firstClus, size)
              == SlotsOf(before, vol.g, firstClus, size)[target := Decoded(SlotBytes(vol.dev.image, vol.g, firstClus, size, target))]
    {
      SlotWrite(before, vol.dev.image, vol.g, firstClus, size, target);
      if vol.fatValid {
        FatNotInCluster(vol.g, firstClus, vol.fatSec);
        CacheKept(before, vol.dev.image, vol.g, firstClus, 0, vol.fatSec, vol.fatCache);
      }
      if vol.datValid {
        CacheKept(before, vol.dev.image, vol.g, firstClus, vol.dirty, vol.datSec, vol.datCache);
      }
      vol.dirty := firstClus;
    }
  }

  /** The protocol state with another record in the target slot. */
  function WithTarget(st: Store, left: Held): Store
    requires SlotIndex(st)
  {
    st.(slots := st.slots[1 - st.slot := left])
  }

  /** What an unacknowledged save of `s` may leave in its slot: the old record, the new one, or none. */
  predicate LeftClean(st: Store, s: Settings, left: Held)
    requires SlotIndex(st)
  {
    left == st.slots[Target(st)] || left == Written(st, s) || left == None
  }

  function LeftAs(st: Store, left: Held): Left
    requires SlotIndex(st)
  {
    if left == st.slots[Target(st)] then Old else if left == None then Torn else New
  }

  /**
   * What an unacknowledged save leaves is a step of the protocol exactly when its target
   * slot is unchanged, fully written, or does not decode.
   */
  lemma FailedSaveIsStep(st: Store, s: Settings, left: Held)
    requires SlotIndex(st) && st.live
    ensures (exists how :: WithTarget(st, left) == Next(st, SaveFailed(s, how))) <==> LeftClean(st, s, left)
    ensures LeftClean(st, s, left) ==> WithTarget(st, left) == Next(st, SaveFailed(s, LeftAs(st, left)))
  {
    if LeftClean(st, s, left) {
      assert WithTarget(st, left) == Next(st, SaveFailed(s, LeftAs(st, left)));
    }
    forall how | WithTarget(st, left) == Next(st, SaveFailed(s, how))
      ensures LeftClean(st, s, left)
    {
      assert WithTarget(st, left).slots[Target(st)] == left;
      assert Next(st, SaveFailed(s, how)).slots[Target(st)] == Remains(st, s, how);
    }
  }
}
