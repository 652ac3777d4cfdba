/** The block device and the write-back sector cache in front of it.
    The device may fail any read and any write. A write that reports failure
    may or may not have reached the disk. */
module SectorCache {

  const SECTOR_SIZE: nat := 512

  type Byte = x: int | 0 <= x < 256

  type Sector = s: seq<Byte> | |s| == SECTOR_SIZE
    witness seq(SECTOR_SIZE, _ => 0)

  datatype Slot = Slot(valid: bool, dirty: bool, sector: nat, data: Sector)

  /** One sector write that reached the disk. */
  datatype SectorWrite = SectorWrite(sector: nat, data: Sector)

  // ---------------------------------------------------------------- specification

  /** Index of the first valid slot for sector `s`, or the number of slots. */
  function Find(slots: seq<Slot>, s: nat): (i: nat)
    ensures i <= |slots|
    ensures i < |slots| ==> slots[i].valid && slots[i].sector == s
    ensures forall j :: 0 <= j < i ==> !(slots[j].valid && slots[j].sector == s)
  {
    if slots == [] then 0
    else if slots[0].valid && slots[0].sector == s then 0
    else
      var k := Find(slots[1..], s);
      assert forall j :: 0 < j < k + 1 ==> slots[j] == slots[1..][j - 1];
      k + 1
  }

  /** What a reader of sector `s` must see. */
  function ViewAt(disk: seq<Sector>, slots: seq<Slot>, s: nat): (d: Sector)
    requires s < |disk|
  {
    var i := Find(slots, s);
    if i < |slots| then slots[i].data else disk[s]
  }

  /** The plain disk that the cache stands for. */
  function View(disk: seq<Sector>, slots: seq<Slot>): (v: seq<Sector>)
    ensures |v| == |disk|
    ensures forall s :: 0 <= s < |disk| ==> v[s] == ViewAt(disk, slots, s)
  {
    seq(|disk|, s requires 0 <= s < |disk| => ViewAt(disk, slots, s))
  }

  /** At most one valid slot per sector, and clean slots agree with the disk. */
  ghost predicate Coherent(disk: seq<Sector>, slots: seq<Slot>)
  {
    && (forall i :: 0 <= i < |slots| && slots[i].valid ==> slots[i].sector < |disk|)
    && (forall i, j :: 0 <= i < j < |slots| && slots[i].valid && slots[j].valid ==> slots[i].sector != slots[j].sector)
    && (forall i :: 0 <= i < |slots| && slots[i].valid && !slots[i].dirty ==> slots[i].data == disk[slots[i].sector])
  }

  /** The writes the cache still owes the disk. */
  ghost predicate Pending(slots: seq<Slot>, w: SectorWrite)
  {
    exists i :: 0 <= i < |slots| && slots[i].valid && slots[i].dirty && SectorWrite(slots[i].sector, slots[i].data) == w
  }

  ghost predicate AllClean(slots: seq<Slot>)
  {
    forall i :: 0 <= i < |slots| && slots[i].valid ==> !slots[i].dirty
  }

  /** The disk after a run of sector writes. */
  function Replay(disk: seq<Sector>, log: seq<SectorWrite>): (d: seq<Sector>)
    requires forall w :: w in log ==> w.sector < |disk|
    ensures |d| == |disk|
    decreases |log|
  {
    if log == [] then disk
    else
      var w := log[|log| - 1];
      assert w in log;
      Replay(disk, log[..|log| - 1])[w.sector := w.data]
  }

  lemma {:induction false} ReplayConcat(disk: seq<Sector>, a: seq<SectorWrite>, b: seq<SectorWrite>)
    requires forall w :: w in a + b ==> w.sector < |disk|
    ensures forall w :: w in a || w in b ==> w in a + b
    ensures Replay(Replay(disk, a), b) == Replay(disk, a + b)
    decreases |b|
  {
    assert forall w :: w in a || w in b ==> w in a + b;
    if b == [] {
      assert a + b == a;
    } else {
      var c := b[..|b| - 1];
      assert (a + b)[..|a + b| - 1] == a + c;
      assert forall w :: w in a + c ==> w in a + b;
      ReplayConcat(disk, a, c);
    }
  }

  /** The device history from (disk0, log0) to (disk, log). */
  ghost predicate History(disk0: seq<Sector>, log0: seq<SectorWrite>, disk: seq<Sector>, log: seq<SectorWrite>)
  {
    && log0 <= log
    && (forall w :: w in log[|log0|..] ==> w.sector < |disk0|)
    && disk == Replay(disk0, log[|log0|..])
  }

  lemma HistoryTrans(d0: seq<Sector>, l0: seq<SectorWrite>, d1: seq<Sector>, l1: seq<SectorWrite>, d2: seq<Sector>,
                     l2: seq<SectorWrite>)
    requires History(d0, l0, d1, l1) && History(d1, l1, d2, l2)
    ensures History(d0, l0, d2, l2)
  {
    assert l2[|l0|..] == l1[|l0|..] + l2[|l1|..];
    ReplayConcat(d0, l1[|l0|..], l2[|l1|..]);
  }

  lemma HistoryRefl(d: seq<Sector>, l: seq<SectorWrite>)
    ensures History(d, l, d, l)
  {
  }

  lemma HistoryStep(d: seq<Sector>, l: seq<SectorWrite>, w: SectorWrite)
    requires w.sector < |d|
    ensures History(d, l, d[w.sector := w.data], l + [w])
  {
  }

  /** Every write that reached the disk since log0, and every write still owed, was owed before or is in `issued`. */
  ghost predicate WritesOnly(slots0: seq<Slot>, log0: seq<SectorWrite>, slots: seq<Slot>, log: seq<SectorWrite>,
                             issued: iset<SectorWrite>)
  {
    && log0 <= log
    && (forall w :: Pending(slots, w) ==> Pending(slots0, w) || w in issued)
    && (forall w :: w in log[|log0|..] ==> Pending(slots0, w) || w in issued)
  }

  lemma WritesOnlyTrans(s0: seq<Slot>, l0: seq<SectorWrite>, s1: seq<Slot>, l1: seq<SectorWrite>, s2: seq<Slot>,
                        l2: seq<SectorWrite>, a: iset<SectorWrite>, b: iset<SectorWrite>)
    requires WritesOnly(s0, l0, s1, l1, a) && WritesOnly(s1, l1, s2, l2, b)
    ensures WritesOnly(s0, l0, s2, l2, a + b)
  {
  }

  /** The cache and the device at one moment. */
  datatype Snapshot = Snapshot(disk: seq<Sector>, slots: seq<Slot>, log: seq<SectorWrite>, faults: nat)

  /** A sector reads as before, or as some issued write left it. */
  ghost predicate ShowsOnly(a: seq<Sector>, b: seq<Sector>, issued: iset<SectorWrite>)
  {
    |a| == |b| && forall s :: 0 <= s < |a| ==> b[s] == a[s] || SectorWrite(s, b[s]) in issued
  }

  /** What any sequence of cache calls that issues only the writes in `issued` does to the device. */
  ghost predicate Advances(a: Snapshot, b: Snapshot, issued: iset<SectorWrite>)
  {
    && Coherent(b.disk, b.slots)
    && |b.slots| == |a.slots| && |b.disk| == |a.disk| && a.faults <= b.faults
    && History(a.disk, a.log, b.disk, b.log)
    && WritesOnly(a.slots, a.log, b.slots, b.log, issued)
    && ShowsOnly(View(a.disk, a.slots), View(b.disk, b.slots), issued)
  }

  lemma AdvancesTrans(a: Snapshot, b: Snapshot, c: Snapshot, i: iset<SectorWrite>, j: iset<SectorWrite>)
    requires Advances(a, b, i) && Advances(b, c, j)
    ensures Advances(a, c, i + j)
  {
    HistoryTrans(a.disk, a.log, b.disk, b.log, c.disk, c.log);
    WritesOnlyTrans(a.slots, a.log, b.slots, b.log, c.slots, c.log, i, j);
  }

  /** From a clean cache, everything written was issued. */
  lemma CleanStart(a: Snapshot, b: Snapshot, issued: iset<SectorWrite>)
    requires AllClean(a.slots) && Advances(a, b, issued)
    ensures forall w :: w in b.log[|a.log|..] ==> w in issued && w.sector < |a.disk|
  {
  }

  lemma ValidSlotIsFound(slots: seq<Slot>, i: nat)
    requires i < |slots| && slots[i].valid
    requires forall j, k ::
               0 <= j < k < |slots| && slots[j].valid && slots[k].valid ==> slots[j].sector != slots[k].sector
    ensures Find(slots, slots[i].sector) == i
  {
  }

  /** A cache with nothing to write back shows the disk itself. */
  lemma CleanViewIsDisk(disk: seq<Sector>, slots: seq<Slot>)
    requires Coherent(disk, slots) && AllClean(slots)
    ensures View(disk, slots) == disk
  {
  }

  /** Storing slot `i` changes what is seen of its new sector only, when it held nothing the disk does not have. */
  lemma ReplaceSlot(disk: seq<Sector>, slots: seq<Slot>, i: nat, slot: Slot, s: nat)
    requires Coherent(disk, slots) && i < |slots| && s < |disk|
    requires slots[i].valid && slots[i].sector != slot.sector ==> slots[i].data == disk[slots[i].sector]
    requires slot.valid ==>
               slot.sector < |disk| && (Find(slots, slot.sector) == |slots| || Find(slots, slot.sector) == i)
    requires !slot.valid && slots[i].valid ==> slots[i].data == disk[slots[i].sector]
    ensures ViewAt(disk, slots[i := slot], s) ==
              if slot.valid && slot.sector == s then slot.data else ViewAt(disk, slots, s)
  {
    var after := slots[i := slot];
    var f, g := Find(slots, s), Find(after, s);
    if slot.valid && slot.sector == s {
      assert after[i].valid && after[i].sector == s;
      assert forall j :: 0 <= j < |slots| && j != i ==> !(slots[j].valid && slots[j].sector == s);
      assert g == i;
    } else if f == i && f < |slots| {
      assert forall j :: 0 <= j < |slots| && j != i ==> !(slots[j].valid && slots[j].sector == s);
      assert g == |slots|;
    } else if f < |slots| {
      assert after[f] == slots[f];
      assert g == f;
    } else {
      assert g == |slots|;
    }
  }

  /** The same for the whole disk, with what the cache then owes. */
  lemma StoreSlot(disk: seq<Sector>, slots: seq<Slot>, i: nat, slot: Slot)
    requires Coherent(disk, slots) && i < |slots|
    requires slots[i].valid && slots[i].sector != slot.sector ==> slots[i].data == disk[slots[i].sector]
    requires slot.valid ==>
               slot.sector < |disk| && (Find(slots, slot.sector) == |slots| || Find(slots, slot.sector) == i)
    requires !slot.valid && slots[i].valid ==> slots[i].data == disk[slots[i].sector]
    requires slot.valid && !slot.dirty ==> slot.data == disk[slot.sector]
    ensures Coherent(disk, slots[i := slot])
    ensures slot.valid ==> Find(slots[i := slot], slot.sector) == i
    ensures View(disk, slots[i := slot]) ==
              if slot.valid then View(disk, slots)[slot.sector := slot.data] else View(disk, slots)
    ensures forall w :: Pending(slots[i := slot], w) ==>
              (Pending(slots, w) && (slot.valid ==> w.sector != slot.sector))
              || (slot.valid && slot.dirty && w == SectorWrite(slot.sector, slot.data))
  {
    var after := slots[i := slot];
    forall s | 0 <= s < |disk|
      ensures ViewAt(disk, after, s) == if slot.valid && slot.sector == s then slot.data else ViewAt(disk, slots, s)
    {
      ReplaceSlot(disk, slots, i, slot, s);
    }
    assert slot.valid ==> forall j :: 0 <= j < |slots| && j != i ==>
           !(slots[j].valid && slots[j].sector == slot.sector);
    if slot.valid {
      ValidSlotIsFound(after, i);
    }
    forall w | Pending(after, w)
      ensures (Pending(slots, w) && (slot.valid ==> w.sector != slot.sector))
                || (slot.valid && slot.dirty && w == SectorWrite(slot.sector, slot.data))
    {
      var j :| 0 <= j < |after| && after[j].valid && after[j].dirty && SectorWrite(after[j].sector, after[j].data) == w;
      if j != i {
        assert slots[j] == after[j];
      }
    }
  }

  /** Slots that differ only in their dirty flags are found alike. */
  lemma FindIgnoresDirty(slots: seq<Slot>, i: nat, dirty: bool, s: nat)
    requires i < |slots|
    ensures Find(slots[i := slots[i].(dirty := dirty)], s) == Find(slots, s)
  {
    var after := slots[i := slots[i].(dirty := dirty)];
    assert forall j :: 0 <= j < |slots| ==> after[j].valid == slots[j].valid && after[j].sector == slots[j].sector;
  }

  /** Writing a valid slot's own data to the disk changes nothing that is seen. */
  lemma WritebackKeepsView(disk: seq<Sector>, slots: seq<Slot>, i: nat, dirty: bool)
    requires Coherent(disk, slots) && i < |slots| && slots[i].valid
    ensures View(disk[slots[i].sector := slots[i].data], slots[i := slots[i].(dirty := dirty)]) == View(disk, slots)
    ensures Coherent(disk[slots[i].sector := slots[i].data], slots[i := slots[i].(dirty := dirty)])
  {
    var disk', slots' := disk[slots[i].sector := slots[i].data], slots[i := slots[i].(dirty := dirty)];
    ValidSlotIsFound(slots, i);
    forall s | 0 <= s < |disk| ensures ViewAt(disk', slots', s) == ViewAt(disk, slots, s) {
      FindIgnoresDirty(slots, i, dirty, s);
    }
  }

  // ---------------------------------------------------------------- the cache

  class Cache {
    var disk: seq<Sector>
    var slots: seq<Slot>
    var clock: nat
    /** Every sector write that reached the disk, in order. */
    ghost var log: seq<SectorWrite>
    /** How many device calls have failed. */
    ghost var faults: nat

    ghost predicate Valid()
      reads this
    {
      |slots| > 0 && Coherent(disk, slots)
    }

    ghost function Seen(): (v: seq<Sector>)
      reads this
      ensures |v| == |disk|
    {
      View(disk, slots)
    }

    ghost function Snap(): (s: Snapshot)
      reads this
    {
      Snapshot(disk, slots, log, faults)
    }

    constructor (disk: seq<Sector>, count: nat)
      requires count > 0
      ensures Valid() && this.disk == disk && |slots| == count && AllClean(slots) && Seen() == disk
      ensures log == [] && faults == 0
    {
      this.disk := disk;
      slots := seq(count, _ => Slot(false, false, 0, seq(SECTOR_SIZE, _ => 0)));
      clock := 0;
      log := [];
      faults := 0;
      new;
      CleanViewIsDisk(disk, slots);
    }

    /** Forget every slot, as a mount does. */
    method Reset()
      requires Valid()
      modifies this`slots
      ensures Valid() && AllClean(slots) && Seen() == disk && |slots| == |old(slots)|
    {
      slots := seq(|slots|, _ => Slot(false, false, 0, seq(SECTOR_SIZE, _ => 0)));
      CleanViewIsDisk(disk, slots);
    }

    /** `raw_read_sector`: on failure the buffer holds anything. */
    method RawRead(s: nat) returns (ok: bool, data: Sector)
      modifies this`faults
      ensures ok ==> s < |disk| && data == disk[s] && faults == old(faults)
      ensures !ok ==> s >= |disk| || faults > old(faults)
      ensures faults >= old(faults)
    {
      data := *;
      if s >= |disk| {
        return false, data;
      }
      ok := *;
      if ok {
        data := disk[s];
      } else {
        faults := faults + 1;
      }
    }

    /** `raw_write_sector`: a failed write may still have reached the disk. */
    method RawWrite(s: nat, data: Sector) returns (ok: bool)
      modifies this`disk, this`log, this`faults
      ensures ok ==> s < |old(disk)| && disk == old(disk)[s := data] && faults == old(faults)
      ensures !ok ==> s >= |disk| || faults > old(faults)
      ensures (disk == old(disk) && log == old(log) && !ok)
              || (s < |old(disk)| && disk == old(disk)[s := data] && log == old(log) + [SectorWrite(s, data)])
      ensures faults >= old(faults)
    {
      if s >= |disk| {
        return false;
      }
      ok := *;
      var reached: bool := *;
      if ok || reached {
        disk := disk[s := data];
        log := log + [SectorWrite(s, data)];
      }
      if !ok {
        faults := faults + 1;
      }
    }

    /** `cache_writeback` */
    method Writeback(i: nat) returns (ok: bool)
      requires Valid() && i < |slots|
      modifies this`disk, this`log, this`faults, this`slots
      ensures Valid() && Seen() == old(Seen()) && |slots| == |old(slots)|
      ensures History(old(disk), old(log), disk, log) && WritesOnly(old(slots), old(log), slots, log, iset{})
      ensures slots == if ok
                then old(slots)[i := old(slots)[i].(dirty := old(slots)[i].dirty && !old(slots)[i].valid)]
                else old(slots)
      ensures !ok ==> faults > old(faults)
      ensures faults >= old(faults)
    {
      HistoryRefl(disk, log);
      var slot := slots[i];
      if !slot.valid || !slot.dirty {
        return true;
      }
      WritebackKeepsView(disk, slots, i, true);
      WritebackKeepsView(disk, slots, i, false);
      HistoryStep(disk, log, SectorWrite(slot.sector, slot.data));
      assert Pending(slots, SectorWrite(slot.sector, slot.data));
      ok := RawWrite(slot.sector, slot.data);
      assert slots == slots[i := slot.(dirty := true)];
      if ok {
        slots := slots[i := slot.(dirty := false)];
      }
    }

    /** The search loop of `cache_get`. */
    method Lookup(s: nat) returns (i: nat)
      requires Valid()
      ensures i == Find(slots, s)
    {
      i := 0;
      while i < |slots|
        invariant i <= |slots|
        invariant forall j :: 0 <= j < i ==> !(slots[j].valid && slots[j].sector == s)
      {
        if slots[i].valid && slots[i].sector == s {
          return;
        }
        i := i + 1;
      }
    }

    /** The miss path of `cache_get`. */
    method Load(victim: nat, s: nat, forWrite: bool) returns (ok: bool)
      requires Valid() && victim < |slots| && Find(slots, s) == |slots|
      modifies this`disk, this`log, this`faults, this`slots
      ensures Valid() && Seen() == old(Seen()) && |slots| == |old(slots)|
      ensures History(old(disk), old(log), disk, log)
      ensures ok ==> s < |disk| && victim == Find(slots, s) && slots[victim].dirty == forWrite
      ensures !ok ==> s >= |disk| || faults > old(faults)
      ensures faults >= old(faults)
      ensures forall w :: w in log[|old(log)|..] ==> Pending(old(slots), w)
      ensures forall w :: Pending(slots, w) ==> Pending(old(slots), w) || (ok && forWrite && w.sector == s)
    {
      ok := Writeback(victim);
      if ok {
        FindIgnoresDirty(old(slots), victim, slots[victim].dirty, s);
        var data: Sector;
        ok, data := RawRead(s);
        var slot := if ok then Slot(true, forWrite, s, data) else slots[victim].(valid := false, data := data);
        StoreSlot(disk, slots, victim, slot);
        assert ok ==> Seen()[s] == data;
        slots := slots[victim := slot];
        assert Seen() == old(Seen());
      }
    }

    /** `cache_get`: the slot for sector `s`, after evicting the slot under the clock hand on a miss. */
    method Get(s: nat, forWrite: bool) returns (ok: bool, i: nat)
      requires Valid()
      modifies this
      ensures Valid() && Seen() == old(Seen()) && |slots| == |old(slots)|
      ensures History(old(disk), old(log), disk, log)
      ensures ok ==> s < |disk| && i == Find(slots, s) < |slots|
      ensures ok && forWrite ==> slots[i].dirty
      ensures !ok ==> s >= |disk| || faults > old(faults)
      ensures faults >= old(faults)
      ensures forall w :: w in log[|old(log)|..] ==> Pending(old(slots), w)
      ensures forall w :: Pending(slots, w) ==> Pending(old(slots), w) || (ok && forWrite && w.sector == s)
    {
      HistoryRefl(disk, log);
      var victim := clock % |slots|;
      clock := (clock + 1) % 0x1_0000_0000;
      i := Lookup(s);
      if i < |slots| {
        if forWrite {
          StoreSlot(disk, slots, i, slots[i].(dirty := true));
          slots := slots[i := slots[i].(dirty := true)];
        }
        return true, i;
      }
      ok := Load(victim, s, forWrite);
      i := victim;
    }

    /** `read_sector` */
    method ReadSector(s: nat) returns (ok: bool, data: Sector)
      requires Valid()
      modifies this
      ensures Valid() && Seen() == old(Seen())
      ensures ok ==> s < |disk| && data == Seen()[s]
      ensures !ok ==> s >= |disk| || faults > old(faults)
      ensures Advances(old(Snap()), Snap(), iset{}) && faults >= old(faults) && |disk| == |old(disk)|
    {
      var i: nat;
      ok, i := Get(s, false);
      data := if ok then slots[i].data else slots[0].data;
    }

    /** `write_sector` */
    method WriteSector(s: nat, data: Sector) returns (ok: bool)
      requires Valid()
      modifies this
      ensures Valid()
      ensures ok ==> s < |old(disk)| && Seen() == old(Seen())[s := data]
      ensures !ok ==> Seen() == old(Seen()) && (s >= |disk| || faults > old(faults))
      ensures Advances(old(Snap()), Snap(), iset{SectorWrite(s, data)}) && faults >= old(faults)
      ensures |disk| == |old(disk)|
    {
      var i: nat;
      ok, i := Get(s, true);
      if ok {
        StoreSlot(disk, slots, i, slots[i].(data := data));
        slots := slots[i := slots[i].(data := data)];
      }
    }

    /** `diskfs_flush` */
    method Flush() returns (ok: bool)
      requires Valid()
      modifies this
      ensures Valid() && Seen() == old(Seen())
      ensures ok ==> AllClean(slots) && disk == Seen()
      ensures !ok ==> faults > old(faults)
      ensures Advances(old(Snap()), Snap(), iset{}) && faults >= old(faults) && |disk| == |old(disk)|
    {
      HistoryRefl(disk, log);
      ok := true;
      var i := 0;
      while i < |slots|
        invariant i <= |slots| && |slots| == |old(slots)|
        invariant Valid() && Seen() == old(Seen())
        invariant ok ==> forall j :: 0 <= j < i && slots[j].valid ==> !slots[j].dirty
        invariant if ok then faults >= old(faults) else faults > old(faults)
        invariant History(old(disk), old(log), disk, log) && WritesOnly(old(slots), old(log), slots, log, iset{})
      {
        ghost var disk1, slots1, log1 := disk, slots, log;
        var done := Writeback(i);
        HistoryTrans(old(disk), old(log), disk1, log1, disk, log);
        WritesOnlyTrans(old(slots), old(log), slots1, log1, slots, log, iset{}, iset{});
        if !done {
          ok := false;
        }
        i := i + 1;
      }
      if ok {
        CleanViewIsDisk(disk, slots);
      }
    }
  }
}
