/**
 * The address spaces of the running kernel: mapping pages, creating a space
 * for a new process and forking one copy-on-write. Frames behind page tables
 * are reached directly where the kernel goes through a temporary mapping.
 */
module AddressSpaces {
  import opened PageWords
  import opened PageTables
  import opened Bitmaps
  import opened PhysicalPages
  import opened FrameReferences

  // Between two states, page p of space d (of all spaces, if shared) becomes w and nothing else changes.
  ghost predicate PageSet(before: Memory, after: Memory, dirs: set<Frame>, d: Frame, p: int, w: Word)
    requires dirs <= before.Keys && dirs <= after.Keys && 0 <= p < PAGE_LIMIT
  {
    forall e, q :: e in dirs && 0 <= q < PAGE_LIMIT ==>
      Walk(after, e, q) ==
      (if q == p && (e == d || SharedIndex(p / ENTRIES)) then w else Walk(before, e, q))
  }

  ghost predicate SameTranslations(before: Memory, after: Memory, dirs: set<Frame>)
    requires dirs <= before.Keys && dirs <= after.Keys
  {
    forall e, q :: e in dirs && 0 <= q < PAGE_LIMIT ==> Walk(after, e, q) == Walk(before, e, q)
  }

  // Apart from slot ti of directory d, all directories are as before.
  ghost predicate SameSlots(before: Memory, after: Memory, dirs: set<Frame>, d: Frame, ti: int)
    requires dirs <= before.Keys && dirs <= after.Keys
  {
    forall e, i :: e in dirs && 0 <= i < ENTRIES && (e != d || i != ti) ==> after[e][i] == before[e][i]
  }

  // Frames only leave the free pool, and new tables come from it.
  ghost predicate TablesFromPool(before: Memory, after: Memory, freeBefore: set<int>, freeAfter: set<int>) {
    && before.Keys <= after.Keys
    && freeAfter <= freeBefore
    && forall f :: f in after ==> (f in before || f in freeBefore) && f !in freeAfter
  }

  // A frame that left the pool has become a table.
  ghost predicate NoneLost(after: Memory, freeBefore: set<int>, freeAfter: set<int>) {
    forall f :: f in freeBefore ==> f in freeAfter || f in after
  }

  class KernelMemory {
    var mem: Memory
    var current: Frame
    ghost var dirs: set<Frame>
    // Of the virtual ranges of processes: the pages with a frame of their own, and those without.
    ghost var owned: map<(Frame, int), Frame>
    ghost var vacant: set<(Frame, int)>
    const ppa: PPallocator
    const references: PPreferenceTracker

    ghost predicate Paged()
      reads this, ppa, ppa.pages, ppa.pages.bitmap, references
    {
      ppa.Valid() && references.Valid() && WellFormed(mem, dirs) && current in dirs
    }

    ghost predicate Valid()
      reads this, ppa, ppa.pages, ppa.pages.bitmap, references
    {
      && Paged()
      && 0 !in ppa.pages.free
      && TablesFromPool(mem, mem, ppa.pages.free, ppa.pages.free)
    }

    // The state the loader hands over: one directory with every kernel table in place.
    constructor (boot: Memory, directory: Frame, allocator: PPallocator)
      requires WellFormed(boot, {directory}) && allocator.Valid()
      requires 0 !in allocator.pages.free && forall f :: f in boot ==> f !in allocator.pages.free
      ensures Valid() && mem == boot && current == directory && dirs == {directory}
      ensures ppa == allocator && fresh(references)
      ensures references.tables == map[] && owned == map[] && vacant == {}
    {
      mem, current, dirs, owned, vacant := boot, directory, {directory}, map[], {};
      ppa := allocator;
      references := new PPreferenceTracker();
    }

    method AllocateFrame() returns (r: Outcome<Frame>)
      requires Valid()
      modifies ppa, ppa.pages, ppa.pages.bitmap
      ensures Valid()
      ensures r.Panic? <==> old(ppa.pages.free) == {}
      ensures r.Panic? ==> ppa.pages.free == {}
      ensures r.Done? ==> r.value == Lowest(old(ppa.pages.free))
      ensures r.Done? ==> ppa.State() == Step(old(ppa.State()), Event.Allocate)
    {
      var page :- ppa.Allocate();
      return Done(page / PAGE_SIZE);
    }

    // Creates the table for slot ti of directory d when it is missing.
    method EnsureTable(d: Frame, ti: int, tableFlags: Flags) returns (r: Outcome<()>)
      requires Valid() && d in dirs && 0 <= ti < SELF_TABLE
      requires UserIndex(ti) && mem[d][ti] == 0 ==> IsUser(tableFlags) && IsOpen(tableFlags)
      modifies this`mem, ppa, ppa.pages, ppa.pages.bitmap
      ensures r.Panic? <==>
                old(mem)[d][ti] == 0 && old(ppa.pages.free) == {}
      ensures r.Panic? ==> ppa.pages.free == {}
      ensures r.Done? ==> Valid() && mem[d][ti] != 0
      ensures r.Done? ==> SameTranslations(old(mem), mem, dirs)
      ensures r.Done? ==> SameSlots(old(mem), mem, dirs, d, ti)
      ensures r.Done? ==> TablesFromPool(old(mem), mem, old(ppa.pages.free), ppa.pages.free)
      ensures r.Done? ==> NoneLost(mem, old(ppa.pages.free), ppa.pages.free)
      ensures old(mem)[d][ti] != 0 ==> mem == old(mem) && ppa.State() == old(ppa.State())
    {
      assert DirectoryOk(mem, dirs, d);
      assert EntryOk(mem, dirs, ti, mem[d][ti]);
      if mem[d][ti] == 0 {
        var t :- AllocateFrame();
        assert t in old(ppa.pages.free);
        WordParts(t, tableFlags);
        InstallTableIsInvisible(mem, dirs, d, ti, t, tableFlags);
        mem := mem[t := EMPTY_PAGE_TABLE][d := mem[d][ti := MakeWord(t, tableFlags)]];
        assert mem[d][ti] == MakeWord(t, tableFlags) != 0;
      }
      return Done(());
    }

    method Map(virt: Address, phys: Address, tableFlags: Flags, pageFlags: Flags, allowOverride: bool)
      returns (r: Outcome<bool>)
      requires Valid() && virt / PAGE_SIZE < PAGE_LIMIT
      requires var ti := virt / PAGE_SIZE / ENTRIES;
        UserIndex(ti) && mem[current][ti] == 0 ==> IsUser(tableFlags) && IsOpen(tableFlags)
      modifies this`mem, ppa, ppa.pages, ppa.pages.bitmap
      ensures r.Panic? <==>
                || virt % PAGE_SIZE != 0
                || phys % PAGE_SIZE != 0
                || var slot := old(mem)[current][virt / PAGE_SIZE / ENTRIES];
                   if slot == 0 then old(ppa.pages.free) == {}
                   else IsUser(tableFlags) && !IsUser(slot)
      ensures r.Panic? ==> ppa.State() == old(ppa.State()) || ppa.pages.free == {}
      ensures r.Done? ==> Valid()
      ensures r.Done? ==> (r.value <==> allowOverride || old(Walk(mem, current, virt / PAGE_SIZE)) == 0)
      ensures r.Done? && r.value ==>
                PageSet(old(mem), mem, dirs, current, virt / PAGE_SIZE, MakeWord(phys / PAGE_SIZE, pageFlags))
      ensures r.Done? && !r.value ==> SameTranslations(old(mem), mem, dirs)
      ensures old(mem)[current][virt / PAGE_SIZE / ENTRIES] != 0 ==> ppa.State() == old(ppa.State())
      ensures r.Done? ==> SameSlots(old(mem), mem, dirs, current, virt / PAGE_SIZE / ENTRIES)
      ensures r.Done? ==> TablesFromPool(old(mem), mem, old(ppa.pages.free), ppa.pages.free)
      ensures r.Done? ==> NoneLost(mem, old(ppa.pages.free), ppa.pages.free)
    {
      if virt % PAGE_SIZE != 0 || phys % PAGE_SIZE != 0 {
        return Panic;
      }
      var ti, pi := virt / PAGE_SIZE / ENTRIES, virt / PAGE_SIZE % ENTRIES;
      if mem[current][ti] != 0 && IsUser(tableFlags) && !IsUser(mem[current][ti]) {
        return Panic;
      }
      var _ :- EnsureTable(current, ti, tableFlags);
      var w := MakeWord(phys / PAGE_SIZE, pageFlags);
      WriteEntryIsUpdate(mem, dirs, current, ti, pi, w);
      var t := FrameOf(mem[current][ti]);
      if mem[t][pi] == 0 || allowOverride {
        mem := WriteEntry(mem, t, pi, w);
        return Done(true);
      }
      return Done(false);
    }

    // Maps into another directory; a page that is mapped already panics unless overriding.
    method MapToTemporaryMappedDirectory(
      d: Frame, virt: Address, phys: Address, tableFlags: Flags, pageFlags: Flags, allowOverride: bool)
      returns (r: Outcome<()>)
      requires Valid() && d in dirs && virt / PAGE_SIZE < PAGE_LIMIT
      requires var ti := virt / PAGE_SIZE / ENTRIES;
        UserIndex(ti) && mem[d][ti] == 0 ==> IsUser(tableFlags) && IsOpen(tableFlags)
      modifies this`mem, ppa, ppa.pages, ppa.pages.bitmap
      ensures r.Panic? <==>
                || virt % PAGE_SIZE != 0
                || phys % PAGE_SIZE != 0
                || (old(mem)[d][virt / PAGE_SIZE / ENTRIES] == 0 && old(ppa.pages.free) == {})
                || (!allowOverride && old(Walk(mem, d, virt / PAGE_SIZE)) != 0)
      ensures r.Panic? && old(mem)[d][virt / PAGE_SIZE / ENTRIES] == 0 && old(ppa.pages.free) == {} ==>
                ppa.pages.free == {}
      ensures r.Done? ==> Valid()
      ensures r.Done? ==>
                PageSet(old(mem), mem, dirs, d, virt / PAGE_SIZE, MakeWord(phys / PAGE_SIZE, pageFlags))
      ensures r.Done? ==> SameSlots(old(mem), mem, dirs, d, virt / PAGE_SIZE / ENTRIES)
      ensures r.Done? ==> TablesFromPool(old(mem), mem, old(ppa.pages.free), ppa.pages.free)
    {
      if virt % PAGE_SIZE != 0 || phys % PAGE_SIZE != 0 {
        return Panic;
      }
      var ti, pi := virt / PAGE_SIZE / ENTRIES, virt / PAGE_SIZE % ENTRIES;
      var _ :- EnsureTable(d, ti, tableFlags);
      var w := MakeWord(phys / PAGE_SIZE, pageFlags);
      WriteEntryIsUpdate(mem, dirs, d, ti, pi, w);
      var t := FrameOf(mem[d][ti]);
      if mem[t][pi] == 0 || allowOverride {
        mem := WriteEntry(mem, t, pi, w);
        return Done(());
      }
      return Panic;
    }

    method Unmap(virt: Address)
      requires Paged() && virt / PAGE_SIZE < PAGE_LIMIT
      modifies this`mem
      ensures Paged() && (old(Valid()) ==> Valid())
      ensures PageSet(old(mem), mem, dirs, current, virt / PAGE_SIZE, 0)
      ensures mem.Keys == old(mem).Keys && forall e :: e in dirs ==> mem[e] == old(mem)[e]
    {
      var ti, pi := virt / PAGE_SIZE / ENTRIES, virt / PAGE_SIZE % ENTRIES;
      assert DirectoryOk(mem, dirs, current);
      assert EntryOk(mem, dirs, ti, mem[current][ti]);
      if mem[current][ti] == 0 {
        return;
      }
      WriteEntryIsUpdate(mem, dirs, current, ti, pi, 0);
      var t := FrameOf(mem[current][ti]);
      if mem[t][pi] != 0 {
        mem := WriteEntry(mem, t, pi, 0);
      }
      assert forall e :: e in dirs ==> old(mem)[e][ti] == mem[e][ti];
    }

    // Reads the table of the page, which must exist.
    function VirtualToPhysical(virt: Address): (phys: int)
      requires Paged() && virt / PAGE_SIZE < PAGE_LIMIT
      requires mem[current][virt / PAGE_SIZE / ENTRIES] != 0
      reads this, ppa, ppa.pages, ppa.pages.bitmap, references
      ensures phys == FrameOf(Walk(mem, current, virt / PAGE_SIZE)) * PAGE_SIZE
    {
      var ti, pi := virt / PAGE_SIZE / ENTRIES, virt / PAGE_SIZE % ENTRIES;
      assert DirectoryOk(mem, dirs, current);
      assert EntryOk(mem, dirs, ti, mem[current][ti]);
      var w := mem[FrameOf(mem[current][ti])][pi];
      w - w % PAGE_SIZE
    }

    method SwitchToSpace(d: Frame)
      requires Valid() && d in dirs
      modifies this`current
      ensures Valid() && current == d
    {
      current := d;
    }
  }
}
