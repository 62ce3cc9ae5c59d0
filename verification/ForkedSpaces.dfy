/** Creating the address space of a new process and forking the running one. */
module ForkedSpaces {
  import opened PageWords
  import opened PageTables
  import opened Bitmaps
  import opened PhysicalPages
  import opened FrameReferences
  import opened AddressSpaces

  // Pages of the process area below limit that space d maps to frame f.
  ghost function PagesOn(mem: Memory, d: Frame, f: Frame, limit: int): set<int>
    requires d in mem && limit <= FIRST_RANGE_TABLE * ENTRIES
  {
    set p | ENTRIES <= p < limit && Walk(mem, d, p) != 0 && FrameOf(Walk(mem, d, p)) == f
  }

  lemma PagesOnStep(mem: Memory, d: Frame, f: Frame, p: int)
    requires d in mem && ProcessPage(p)
    ensures |PagesOn(mem, d, f, p + 1)| ==
            |PagesOn(mem, d, f, p)| + (if Walk(mem, d, p) != 0 && FrameOf(Walk(mem, d, p)) == f then 1 else 0)
  {
    if Walk(mem, d, p) != 0 && FrameOf(Walk(mem, d, p)) == f {
      assert PagesOn(mem, d, f, p + 1) == PagesOn(mem, d, f, p) + {p};
    } else {
      assert PagesOn(mem, d, f, p + 1) == PagesOn(mem, d, f, p);
    }
  }

  method InitializePageDirectoryForProcess(k: KernelMemory) returns (r: Outcome<Frame>)
    requires k.Valid()
    modifies k`mem, k`dirs, k.ppa, k.ppa.pages, k.ppa.pages.bitmap
    ensures r.Panic? <==> old(k.ppa.pages.free) == {}
    ensures r.Panic? ==> k.ppa.pages.free == {}
    ensures r.Done? ==> k.Valid() && k.dirs == old(k.dirs) + {r.value} && r.value !in old(k.mem)
    ensures r.Done? ==> SameTranslations(old(k.mem), k.mem, old(k.dirs))
    ensures r.Done? ==> forall q :: 0 <= q < PAGE_LIMIT ==>
              Walk(k.mem, r.value, q) ==
              (if SharedIndex(q / ENTRIES) then old(Walk(k.mem, k.current, q)) else 0)
    ensures r.Done? ==> TablesFromPool(old(k.mem), k.mem, old(k.ppa.pages.free), k.ppa.pages.free)
  {
    var physPd :- k.AllocateFrame();
    var currentPd := k.mem[k.current];
    var tempPd: seq<Word> :| |tempPd| == ENTRIES;  // whatever the frame held before
    var ti := 0;
    while ti < ENTRIES
      invariant 0 <= ti <= ENTRIES && |tempPd| == ENTRIES
      invariant forall i :: 0 <= i < ti ==> tempPd[i] == (if IsUser(currentPd[i]) then 0 else currentPd[i])
      modifies {}
    {
      if !IsUser(FlagsOf(currentPd[ti])) {
        FlagsCarryUserBit(currentPd[ti]);
        tempPd := tempPd[ti := currentPd[ti]];
      } else {
        FlagsCarryUserBit(currentPd[ti]);
        tempPd := tempPd[ti := 0];
      }
      ti := ti + 1;
    }
    tempPd := tempPd[0 := currentPd[0]];
    tempPd := tempPd[SELF_TABLE := MakeWord(physPd, KERNEL_TABLE_FLAGS)];
    WordParts(physPd, KERNEL_TABLE_FLAGS);
    assert SharesOnly(k.mem, k.current, tempPd, physPd) by {
      assert DirectoryOk(k.mem, k.dirs, k.current);
      forall i | 0 <= i < SELF_TABLE
        ensures tempPd[i] == (if SharedIndex(i) then currentPd[i] else 0)
      {
        assert EntryOk(k.mem, k.dirs, i, currentPd[i]);
      }
    }
    AddDirectoryIsIsolated(k.mem, k.dirs, k.current, physPd, tempPd);
    k.mem := k.mem[physPd := tempPd];
    k.dirs := k.dirs + {physPd};
    return Done(physPd);
  }

  lemma FlagsCarryUserBit(w: Word)
    ensures IsUser(FlagsOf(w)) == IsUser(w) && IsOpen(FlagsOf(w)) == IsOpen(w)
  {
    var high, low := FrameOf(w) * 512, FlagsOf(w);
    assert w == 8 * high + low;
    LowBitsOfSum(high, low);
    assert IsUser(8 * high + low) == IsUser(low) && IsOpen(8 * high + low) == IsOpen(low);
  }

  ghost predicate Extends(before: Memory, after: Memory) {
    forall f :: f in before ==> f in after && after[f] == before[f]
  }

  /** Frames that no directory refers to yet are invisible. */
  lemma ExtensionIsInvisible(before: Memory, after: Memory, dirs: set<Frame>)
    requires WellFormed(before, dirs) && Extends(before, after)
    ensures WellFormed(after, dirs) && SameTranslations(before, after, dirs)
  {
    assert dirs <= after.Keys by {
      forall e | e in dirs ensures e in after { assert e in before; }
    }
    forall e, i | e in dirs && 0 <= i < SELF_TABLE
      ensures EntryOk(before, dirs, i, before[e][i]) && EntryOk(after, dirs, i, after[e][i])
    {
      assert DirectoryOk(before, dirs, e);
    }
    forall x, i, y, j | x in dirs && y in dirs && 0 <= i < SELF_TABLE && 0 <= j < SELF_TABLE
      ensures SlotsApart(after, x, i, y, j)
    {
      assert SlotsApart(before, x, i, y, j);
    }
    forall e | e in dirs ensures DirectoryOk(after, dirs, e) {
      assert DirectoryOk(before, dirs, e);
    }
    forall e, q | e in dirs && 0 <= q < PAGE_LIMIT ensures Walk(after, e, q) == Walk(before, e, q) {
      assert EntryOk(before, dirs, q / ENTRIES, before[e][q / ENTRIES]);
    }
  }

  // The tables a forked directory brings along: read-only copies in frames of their own.
  ghost predicate ClonesTables(before: Memory, after: Memory, d: Frame, dir: Table, limit: int)
    requires d in before && 0 <= limit <= SELF_TABLE
  {
    && Extends(before, after)
    && (forall i :: 1 <= i < limit ==> ClonedSlot(before, after, d, i, dir[i]))
    && (forall i, j :: 1 <= i < j < limit && j < FIRST_RANGE_TABLE && dir[i] != 0 && dir[j] != 0 ==>
          FrameOf(dir[i]) != FrameOf(dir[j]))
  }

  ghost predicate ClonedSlot(before: Memory, after: Memory, d: Frame, i: int, w: Word)
    requires d in before && 1 <= i < SELF_TABLE
  {
    var e := before[d][i];
    if i >= FIRST_KERNEL_TABLE then w == e
    else if i >= FIRST_RANGE_TABLE || e == 0 then w == 0
    else
      && FrameOf(e) in before
      && w != 0 && IsUser(w) && IsOpen(w)
      && FrameOf(w) in after && FrameOf(w) !in before
      && forall k :: 0 <= k < ENTRIES ==> after[FrameOf(w)][k] == ReadOnly(before[FrameOf(e)][k])
  }

  // The counts after one more reference for every page from p up to q that space d maps.
  ghost function CountPages(c: Counts, mem: Memory, d: Frame, p: int, q: int): (r: Counts)
    requires CountsOk(c) && d in mem && ENTRIES <= p && q <= FIRST_RANGE_TABLE * ENTRIES
    ensures CountsOk(r) && c.Keys <= r.Keys
    decreases q - p
  {
    if q <= p then c else
    var r := CountPages(c, mem, d, p, q - 1);
    var w := Walk(mem, d, q - 1);
    if w == 0 then r else Incremented(r, FrameOf(w))
  }

  /** Counting page by page adds, modulo the 16-bit width, the number of pages on each frame. */
  lemma {:induction false} CountPagesCounts(c: Counts, mem: Memory, d: Frame, q: int, f: Frame)
    requires CountsOk(c) && d in mem && ENTRIES <= q <= FIRST_RANGE_TABLE * ENTRIES
    ensures CountIn(CountPages(c, mem, d, ENTRIES, q), f) == Wrap16(CountIn(c, f) + |PagesOn(mem, d, f, q)|)
  {
    if q == ENTRIES {
      assert PagesOn(mem, d, f, q) == {};
      WrapWithinRange(CountIn(c, f));
    } else {
      CountPagesCounts(c, mem, d, q - 1, f);
      CountNextPage(c, mem, d, q, f, CountIn(c, f));
    }
  }

  lemma CountNextPage(c: Counts, mem: Memory, d: Frame, q: int, f: Frame, start: int)
    requires CountsOk(c) && d in mem && ENTRIES < q <= FIRST_RANGE_TABLE * ENTRIES
    requires CountIn(CountPages(c, mem, d, ENTRIES, q - 1), f) == Wrap16(start + |PagesOn(mem, d, f, q - 1)|)
    ensures CountIn(CountPages(c, mem, d, ENTRIES, q), f) == Wrap16(start + |PagesOn(mem, d, f, q)|)
  {
    PagesOnStep(mem, d, f, q - 1);
    CountOnePage(start, CountPages(c, mem, d, ENTRIES, q - 1), Walk(mem, d, q - 1), f, |PagesOn(mem, d, f, q - 1)|);
  }

  lemma CountOnePage(start: int, c: Counts, w: Word, f: Frame, n: int)
    requires CountsOk(c) && CountIn(c, f) == Wrap16(start + n)
    ensures CountIn(if w == 0 then c else Incremented(c, FrameOf(w)), f) ==
            Wrap16(start + (n + (if w != 0 && FrameOf(w) == f then 1 else 0)))
  {
    WrapSteps(start + n);
  }

  lemma {:induction false} CountNoPages(c: Counts, mem: Memory, d: Frame, p: int, q: int)
    requires CountsOk(c) && d in mem && ENTRIES <= p <= q <= FIRST_RANGE_TABLE * ENTRIES
    requires forall x :: p <= x < q ==> Walk(mem, d, x) == 0
    ensures CountPages(c, mem, d, ENTRIES, q) == CountPages(c, mem, d, ENTRIES, p)
    decreases q - p
  {
    if p < q {
      CountNoPages(c, mem, d, p, q - 1);
    }
  }

  // The counts after one more reference for each of the first n entries of a table.
  ghost function CountSlots(c: Counts, table: Table, n: int): (r: Counts)
    requires CountsOk(c) && 0 <= n <= ENTRIES
    ensures CountsOk(r)
  {
    if n == 0 then c else
    var r := CountSlots(c, table, n - 1);
    if table[n - 1] == 0 then r else Incremented(r, FrameOf(table[n - 1]))
  }

  lemma {:induction false} SlotsArePages(c: Counts, mem: Memory, d: Frame, ti: int, n: int)
    requires CountsOk(c) && d in mem && 1 <= ti < FIRST_RANGE_TABLE && 0 <= n <= ENTRIES
    requires mem[d][ti] != 0 && FrameOf(mem[d][ti]) in mem
    ensures CountSlots(CountPages(c, mem, d, ENTRIES, ti * ENTRIES), mem[FrameOf(mem[d][ti])], n) ==
            CountPages(c, mem, d, ENTRIES, ti * ENTRIES + n)
  {
    if n > 0 {
      SlotsArePages(c, mem, d, ti, n - 1);
      WalkAt(mem, d, ti, n - 1);
      OneSlotOnePage(c, mem, d, CountPages(c, mem, d, ENTRIES, ti * ENTRIES), mem[FrameOf(mem[d][ti])],
                     ti * ENTRIES + (n - 1), n);
    }
  }

  lemma OneSlotOnePage(c: Counts, mem: Memory, d: Frame, base: Counts, table: Table, p: int, n: int)
    requires CountsOk(c) && CountsOk(base) && d in mem && ProcessPage(p) && 0 < n <= ENTRIES
    requires Walk(mem, d, p) == table[n - 1]
    requires CountSlots(base, table, n - 1) == CountPages(c, mem, d, ENTRIES, p)
    ensures CountSlots(base, table, n) == CountPages(c, mem, d, ENTRIES, p + 1)
  {
    CountPagesStep(c, mem, d, p);
    CountSlotsStep(base, table, n);
  }

  lemma CountSlotsStep(c: Counts, table: Table, n: int)
    requires CountsOk(c) && 0 < n <= ENTRIES
    ensures CountSlots(c, table, n) ==
            var r := CountSlots(c, table, n - 1);
            if table[n - 1] == 0 then r else Incremented(r, FrameOf(table[n - 1]))
  {
  }

  lemma WalkAt(mem: Memory, d: Frame, ti: int, i: int)
    requires d in mem && 0 <= ti < ENTRIES && 0 <= i < ENTRIES
    requires mem[d][ti] != 0 && FrameOf(mem[d][ti]) in mem
    ensures Walk(mem, d, ti * ENTRIES + i) == mem[FrameOf(mem[d][ti])][i]
  {
    assert (ti * ENTRIES + i) / ENTRIES == ti && (ti * ENTRIES + i) % ENTRIES == i;
  }

  lemma CountPagesStep(c: Counts, mem: Memory, d: Frame, p: int)
    requires CountsOk(c) && d in mem && ProcessPage(p)
    ensures CountPages(c, mem, d, ENTRIES, p + 1) ==
            var r := CountPages(c, mem, d, ENTRIES, p);
            if Walk(mem, d, p) == 0 then r else Incremented(r, FrameOf(Walk(mem, d, p)))
  {
  }

  // Copies one page table read-only and counts a reference for every page in it.
  method CloneTable(references: PPreferenceTracker, table: Table) returns (cloned: Table)
    requires references.Valid()
    modifies references
    ensures references.Valid() && references.tables == CountSlots(old(references.tables), table, ENTRIES)
    ensures forall i :: 0 <= i < ENTRIES ==> cloned[i] == ReadOnly(table[i])
  {
    var temp: seq<Word> :| |temp| == ENTRIES;  // whatever the frame held before
    var pi := 0;
    while pi < ENTRIES
      invariant 0 <= pi <= ENTRIES && |temp| == ENTRIES
      invariant references.Valid() && references.tables == CountSlots(old(references.tables), table, pi)
      invariant forall i :: 0 <= i < pi ==> temp[i] == ReadOnly(table[i])
    {
      var w := table[pi];
      if w != 0 {
        references.Increment(FrameOf(w));
        temp := temp[pi := ReadOnly(w)];
      } else {
        temp := temp[pi := 0];
      }
      assert temp[pi] == ReadOnly(w);
      pi := pi + 1;
    }
    return temp;
  }

  ghost function ProcessLimit(ti: int): int {
    (if ti < FIRST_RANGE_TABLE then ti else FIRST_RANGE_TABLE) * ENTRIES
  }

  // The counts once the slots below ti have been forked.
  ghost predicate CountedBelow(k: KernelMemory, mem: Memory, before: Counts, ti: int)
    requires CountsOk(before) && k.current in mem && 1 <= ti
    reads k, k.references
  {
    k.references.tables == CountPages(before, mem, k.current, ENTRIES, ProcessLimit(ti))
  }

  lemma ClonesTablesStep(before: Memory, grown: Memory, after: Memory, d: Frame, dir: Table, ti: int, w: Word)
    requires d in before && 1 <= ti < SELF_TABLE && ClonesTables(before, grown, d, dir, ti)
    requires Extends(grown, after) && ClonedSlot(before, after, d, ti, w)
    requires ti < FIRST_RANGE_TABLE && w != 0 ==> FrameOf(w) !in grown
    ensures ClonesTables(before, after, d, dir[ti := w], ti + 1)
  {
    var dir' := dir[ti := w];
    forall i | 1 <= i < ti + 1 ensures ClonedSlot(before, after, d, i, dir'[i]) {
      if i < ti { assert ClonedSlot(before, grown, d, i, dir[i]); }
    }
    forall i | 1 <= i < ti && ti < FIRST_RANGE_TABLE && dir[i] != 0 ensures FrameOf(dir[i]) in grown {
      assert ClonedSlot(before, grown, d, i, dir[i]);
    }
  }

  // The word a forked directory gets in slot ti.
  method CloneSlot(k: KernelMemory, ti: int, ghost mem: Memory, ghost before: Counts) returns (r: Outcome<Word>)
    requires k.Valid() && 1 <= ti < SELF_TABLE
    requires WellFormed(mem, k.dirs) && Extends(mem, k.mem)
    requires CountsOk(before) && CountedBelow(k, mem, before, ti)
    modifies k`mem, k.ppa, k.ppa.pages, k.ppa.pages.bitmap, k.references
    ensures r.Panic? ==> k.ppa.pages.free == {}
    ensures r.Done? ==> k.Valid() && Extends(old(k.mem), k.mem)
    ensures r.Done? ==> ClonedSlot(mem, k.mem, k.current, ti, r.value)
    ensures r.Done? && ti < FIRST_RANGE_TABLE && r.value != 0 ==> FrameOf(r.value) !in old(k.mem)
    ensures r.Done? ==> TablesFromPool(old(k.mem), k.mem, old(k.ppa.pages.free), k.ppa.pages.free)
    ensures r.Done? ==> CountedBelow(k, mem, before, ti + 1)
  {
    assert DirectoryOk(mem, k.dirs, k.current);
    assert EntryOk(mem, k.dirs, ti, mem[k.current][ti]);
    if k.mem[k.current][ti] != 0 {
      if ti >= FIRST_KERNEL_TABLE {
        return Done(k.mem[k.current][ti]);
      } else if ti >= FIRST_RANGE_TABLE {
        return Done(0);
      }
      r := CloneUserTable(k, ti, mem, before);
      return;
    }
    if ti < FIRST_RANGE_TABLE {
      assert forall p :: ti * ENTRIES <= p < (ti + 1) * ENTRIES ==> p / ENTRIES == ti;
      CountNoPages(before, mem, k.current, ti * ENTRIES, (ti + 1) * ENTRIES);
    }
    return Done(0);
  }

  // A table of the process area is copied into a fresh frame.
  method CloneUserTable(k: KernelMemory, ti: int, ghost mem: Memory, ghost before: Counts) returns (r: Outcome<Word>)
    requires k.Valid() && 1 <= ti < FIRST_RANGE_TABLE && k.mem[k.current][ti] != 0
    requires WellFormed(mem, k.dirs) && Extends(mem, k.mem)
    requires CountsOk(before) && CountedBelow(k, mem, before, ti)
    modifies k`mem, k.ppa, k.ppa.pages, k.ppa.pages.bitmap, k.references
    ensures r.Panic? ==> k.ppa.pages.free == {}
    ensures r.Done? ==> k.Valid() && Extends(old(k.mem), k.mem)
    ensures r.Done? ==> ClonedSlot(mem, k.mem, k.current, ti, r.value)
    ensures r.Done? && r.value != 0 ==> FrameOf(r.value) !in old(k.mem)
    ensures r.Done? ==> TablesFromPool(old(k.mem), k.mem, old(k.ppa.pages.free), k.ppa.pages.free)
    ensures r.Done? ==> CountedBelow(k, mem, before, ti + 1)
  {
    var tableFlags := FlagsOf(k.mem[k.current][ti]);
    var clonedTablePhys :- k.AllocateFrame();
    var cloned := CloneCounted(k, ti, mem, before);
    PlacedClone(mem, k.mem, k.dirs, k.current, ti, clonedTablePhys, cloned);
    k.mem := k.mem[clonedTablePhys := cloned];
    return Done(MakeWord(clonedTablePhys, tableFlags));
  }

  method CloneCounted(k: KernelMemory, ti: int, ghost mem: Memory, ghost before: Counts) returns (cloned: Table)
    requires k.Valid() && 1 <= ti < FIRST_RANGE_TABLE && k.mem[k.current][ti] != 0
    requires WellFormed(mem, k.dirs) && Extends(mem, k.mem)
    requires CountsOk(before) && CountedBelow(k, mem, before, ti)
    modifies k.references
    ensures k.Valid() && CountedBelow(k, mem, before, ti + 1)
    ensures FrameOf(mem[k.current][ti]) in mem
    ensures forall i :: 0 <= i < ENTRIES ==> cloned[i] == ReadOnly(mem[FrameOf(mem[k.current][ti])][i])
  {
    assert DirectoryOk(mem, k.dirs, k.current);
    assert EntryOk(mem, k.dirs, ti, mem[k.current][ti]);
    SlotsArePages(before, mem, k.current, ti, ENTRIES);
    assert ti * ENTRIES + ENTRIES == ProcessLimit(ti + 1);
    cloned := CloneTable(k.references, k.mem[FrameOf(k.mem[k.current][ti])]);
  }

  // A read-only copy of a table, placed in a fresh frame, makes the slot of a forked directory.
  lemma PlacedClone(mem: Memory, grown: Memory, dirs: set<Frame>, d: Frame, ti: int, t: Frame, cloned: Table)
    requires WellFormed(mem, dirs) && WellFormed(grown, dirs) && Extends(mem, grown)
    requires d in dirs && 1 <= ti < FIRST_RANGE_TABLE && mem[d][ti] != 0 && t !in grown && t > 0
    requires FrameOf(mem[d][ti]) in mem
    requires forall i :: 0 <= i < ENTRIES ==> cloned[i] == ReadOnly(mem[FrameOf(mem[d][ti])][i])
    ensures var w := MakeWord(t, FlagsOf(mem[d][ti]));
      && WellFormed(grown[t := cloned], dirs) && Extends(grown, grown[t := cloned])
      && ClonedSlot(mem, grown[t := cloned], d, ti, w)
      && FrameOf(w) == t
  {
    assert DirectoryOk(mem, dirs, d);
    assert EntryOk(mem, dirs, ti, mem[d][ti]);
    FlagsCarryUserBit(mem[d][ti]);
    WordParts(t, FlagsOf(mem[d][ti]));
    ExtensionIsInvisible(grown, grown[t := cloned], dirs);
  }

  // Fills the directory of a forked space, apart from its lowest and its recursive slot.
  method CloneDirectory(k: KernelMemory, physPd: Frame) returns (r: Outcome<Table>)
    requires k.Valid() && physPd !in k.mem && physPd !in k.ppa.pages.free
    modifies k`mem, k.ppa, k.ppa.pages, k.ppa.pages.bitmap, k.references
    ensures r.Panic? ==> k.ppa.pages.free == {}
    ensures r.Done? ==> k.Valid() && physPd !in k.mem && physPd !in k.ppa.pages.free
    ensures r.Done? ==> ClonesTables(old(k.mem), k.mem, k.current, r.value, SELF_TABLE)
    ensures r.Done? ==> TablesFromPool(old(k.mem), k.mem, old(k.ppa.pages.free), k.ppa.pages.free)
    ensures r.Done? ==> CountedBelow(k, old(k.mem), old(k.references.tables), SELF_TABLE)
  {
    ghost var mem, before := k.mem, k.references.tables;
    var tempPd: seq<Word> :| |tempPd| == ENTRIES;  // whatever the frame held before
    var ti := 1;
    while ti < SELF_TABLE
      invariant 1 <= ti <= SELF_TABLE && |tempPd| == ENTRIES
      invariant k.Valid() && physPd !in k.mem && physPd !in k.ppa.pages.free
      invariant ClonesTables(mem, k.mem, k.current, tempPd, ti)
      invariant TablesFromPool(mem, k.mem, old(k.ppa.pages.free), k.ppa.pages.free)
      invariant CountedBelow(k, mem, before, ti)
    {
      ghost var grown := k.mem;
      var w :- CloneSlot(k, ti, mem, before);
      assert CountedBelow(k, mem, before, ti + 1);
      ClonesTablesStep(mem, grown, k.mem, k.current, tempPd, ti, w);
      tempPd := tempPd[ti := w];
      ti := ti + 1;
    }
    return Done(tempPd);
  }

  // What a directory slot of the forked space translates to, in terms of the forking one.
  ghost function ForkedWalk(mem: Memory, d: Frame, q: int): Word
    requires d in mem && 0 <= q < PAGE_LIMIT
  {
    if SharedIndex(q / ENTRIES) then Walk(mem, d, q)
    else if ProcessPage(q) then ReadOnly(Walk(mem, d, q))
    else 0
  }

  /** A directory of cloned tables is a new space whose process area is the old one, read-only. */
  lemma ForkedDirectoryIsIsolated(
    before: Memory, after: Memory, dirs: set<Frame>, d: Frame, c: Frame, dir: Table)
    requires WellFormed(before, dirs) && d in dirs && c !in after
    requires ClonesTables(before, after, d, dir, SELF_TABLE)
    requires dir[0] == before[d][0] && SelfSlot(dir[SELF_TABLE], c)
    ensures var mem := after[c := dir];
            && WellFormed(mem, dirs + {c})
            && SameTranslations(before, mem, dirs)
            && forall q :: 0 <= q < PAGE_LIMIT ==> Walk(mem, c, q) == ForkedWalk(before, d, q)
  {
    var mem, dirs' := after[c := dir], dirs + {c};
    assert DirectoryOk(before, dirs, d);
    ExtensionIsInvisible(before, mem, dirs);
    forall i | 0 <= i < SELF_TABLE ensures EntryOk(mem, dirs', i, dir[i]) {
      assert EntryOk(before, dirs, i, before[d][i]);
      if i > 0 { assert ClonedSlot(before, after, d, i, dir[i]); }
    }
    forall e | e in dirs' ensures DirectoryOk(mem, dirs', e) {
      if e in dirs {
        assert DirectoryOk(before, dirs, e);
        forall i | 0 <= i < SELF_TABLE ensures EntryOk(mem, dirs', i, mem[e][i]) {
          assert EntryOk(before, dirs, i, before[e][i]);
        }
      }
    }
    assert SharedTablesAgree(mem, dirs') by {
      forall i | SharedIndex(i) ensures dir[i] == before[d][i] {
        if i > 0 { assert ClonedSlot(before, after, d, i, dir[i]); }
      }
    }
    forall x, i, y, j | x in dirs' && y in dirs' && 0 <= i < SELF_TABLE && 0 <= j < SELF_TABLE
      ensures SlotsApart(mem, x, i, y, j)
    {
      ForkedSlotsApart(before, after, dirs, d, c, dir, x, i, y, j);
    }
    forall q | 0 <= q < PAGE_LIMIT ensures Walk(mem, c, q) == ForkedWalk(before, d, q) {
      var i := q / ENTRIES;
      assert EntryOk(before, dirs, i, before[d][i]);
      if i > 0 { assert ClonedSlot(before, after, d, i, dir[i]); }
    }
  }

  lemma ForkedSlotsApart(
    before: Memory, after: Memory, dirs: set<Frame>, d: Frame, c: Frame, dir: Table,
    x: Frame, i: int, y: Frame, j: int)
    requires WellFormed(before, dirs) && d in dirs && c !in after
    requires ClonesTables(before, after, d, dir, SELF_TABLE)
    requires dir[0] == before[d][0]
    requires x in dirs + {c} && y in dirs + {c} && 0 <= i < SELF_TABLE && 0 <= j < SELF_TABLE
    ensures SlotsApart(after[c := dir], x, i, y, j)
  {
    var x', y' := if x == c then d else x, if y == c then d else y;
    assert DirectoryOk(before, dirs, x') && DirectoryOk(before, dirs, y');
    assert EntryOk(before, dirs, i, before[x'][i]) && EntryOk(before, dirs, j, before[y'][j]);
    assert SlotsApart(before, x', i, y', j);
    if x == c && i > 0 { assert ClonedSlot(before, after, d, i, dir[i]); }
    if y == c && j > 0 { assert ClonedSlot(before, after, d, j, dir[j]); }
  }

  // The pages a new stack occupies, each on its own frame taken from the pool.
  ghost predicate StackMapped(
    before: Memory, after: Memory, dirs: set<Frame>, c: Frame, page: int, frames: seq<Frame>, pool: set<int>)
    requires dirs <= before.Keys && dirs <= after.Keys && 0 <= page && page + |frames| <= PAGE_LIMIT
  {
    && (forall i :: 0 <= i < |frames| ==> frames[i] in pool)
    && (forall i, j :: 0 <= i < j < |frames| ==> frames[i] != frames[j])
    && (forall e, q :: e in dirs && 0 <= q < PAGE_LIMIT ==>
          Walk(after, e, q) ==
          (if e == c && page <= q < page + |frames|
           then MakeWord(frames[q - page], USER_PAGE_FLAGS) else Walk(before, e, q)))
  }

  lemma StackMappedStep(
    before: Memory, middle: Memory, after: Memory, dirs: set<Frame>,
    c: Frame, page: int, frames: seq<Frame>, f: Frame, pool: set<int>)
    requires dirs <= before.Keys && dirs <= middle.Keys && dirs <= after.Keys
    requires RangePage(page) && RangePage(page + |frames|) && page + |frames| + 1 <= PAGE_LIMIT
    requires StackMapped(before, middle, dirs, c, page, frames, pool)
    requires PageSet(middle, after, dirs, c, page + |frames|, MakeWord(f, USER_PAGE_FLAGS))
    requires f in pool && f !in frames
    ensures StackMapped(before, after, dirs, c, page, frames + [f], pool)
  {
    var frames' := frames + [f];
    assert !SharedIndex((page + |frames|) / ENTRIES);
    forall e, q | e in dirs && 0 <= q < PAGE_LIMIT
      ensures Walk(after, e, q) ==
              (if e == c && page <= q < page + |frames'|
               then MakeWord(frames'[q - page], USER_PAGE_FLAGS) else Walk(before, e, q))
    {
    }
  }

  // The directory slots of the process areas are as before.
  ghost predicate SameLowSlots(before: Memory, after: Memory, dirs: set<Frame>)
    requires dirs <= before.Keys && dirs <= after.Keys
  {
    forall e, i :: e in dirs && 0 <= i < FIRST_RANGE_TABLE ==> after[e][i] == before[e][i]
  }

  predicate RangePage(p: int) { FIRST_RANGE_TABLE * ENTRIES <= p < FIRST_KERNEL_TABLE * ENTRIES }

  // Takes a frame from the pool and maps it for the user of space c.
  method MapFreshPage(k: KernelMemory, c: Frame, virt: Address) returns (r: Outcome<Frame>)
    requires k.Valid() && c in k.dirs && virt % PAGE_SIZE == 0 && RangePage(virt / PAGE_SIZE)
    modifies k`mem, k.ppa, k.ppa.pages, k.ppa.pages.bitmap
    ensures r.Panic? ==> k.ppa.pages.free == {}
    ensures r.Done? ==> k.Valid() && r.value in old(k.ppa.pages.free) && r.value !in k.ppa.pages.free
    ensures r.Done? ==>
              PageSet(old(k.mem), k.mem, k.dirs, c, virt / PAGE_SIZE, MakeWord(r.value, USER_PAGE_FLAGS))
    ensures r.Done? ==> SameLowSlots(old(k.mem), k.mem, k.dirs)
    ensures r.Done? ==> TablesFromPool(old(k.mem), k.mem, old(k.ppa.pages.free), k.ppa.pages.free)
  {
    var phys :- k.AllocateFrame();
    DefaultFlags();
    var _ :- k.MapToTemporaryMappedDirectory(
      c, virt, phys * PAGE_SIZE, USER_TABLE_FLAGS, USER_PAGE_FLAGS, true);
    return Done(phys);
  }

  method MapUserStack(k: KernelMemory, c: Frame, start: Address, pages: int)
    returns (r: Outcome<()>, ghost frames: seq<Frame>)
    requires k.Valid() && c in k.dirs && pages >= 0 && start % PAGE_SIZE == 0
    requires RangePage(start / PAGE_SIZE) && start / PAGE_SIZE + pages <= FIRST_KERNEL_TABLE * ENTRIES
    modifies k`mem, k.ppa, k.ppa.pages, k.ppa.pages.bitmap
    ensures r.Panic? ==> k.ppa.pages.free == {}
    ensures r.Done? ==> k.Valid() && |frames| == pages
    ensures r.Done? ==>
              StackMapped(old(k.mem), k.mem, k.dirs, c, start / PAGE_SIZE, frames, old(k.ppa.pages.free))
    ensures r.Done? ==> forall i :: 0 <= i < pages ==> frames[i] !in k.ppa.pages.free
    ensures r.Done? ==> SameLowSlots(old(k.mem), k.mem, k.dirs)
    ensures r.Done? ==> TablesFromPool(old(k.mem), k.mem, old(k.ppa.pages.free), k.ppa.pages.free)
  {
    frames := [];
    var i := 0;
    while i < pages
      invariant 0 <= i <= pages && |frames| == i
      invariant k.Valid()
      invariant StackMapped(old(k.mem), k.mem, k.dirs, c, start / PAGE_SIZE, frames, old(k.ppa.pages.free))
      invariant forall j :: 0 <= j < i ==> frames[j] !in k.ppa.pages.free
      invariant SameLowSlots(old(k.mem), k.mem, k.dirs)
      invariant TablesFromPool(old(k.mem), k.mem, old(k.ppa.pages.free), k.ppa.pages.free)
    {
      ghost var middle := k.mem;
      var phys := MapFreshPage(k, c, start + i * PAGE_SIZE);
      if phys.Panic? {
        return Panic, frames;
      }
      assert (start + i * PAGE_SIZE) / PAGE_SIZE == start / PAGE_SIZE + i;
      StackMappedStep(old(k.mem), middle, k.mem, k.dirs, c, start / PAGE_SIZE, frames, phys.value,
                      old(k.ppa.pages.free));
      frames := frames + [phys.value];
      i := i + 1;
    }
    r := Done(());
  }

  // Space d reads only from page p up to q, as before but without write access.
  ghost predicate Protected(before: Memory, after: Memory, dirs: set<Frame>, d: Frame, p: int, q: int)
    requires dirs <= before.Keys && dirs <= after.Keys
  {
    forall e, x :: e in dirs && 0 <= x < PAGE_LIMIT ==>
      Walk(after, e, x) == (if e == d && p <= x < q then ReadOnly(Walk(before, e, x)) else Walk(before, e, x))
  }

  method ProtectTable(k: KernelMemory, ti: int)
    requires k.Valid() && 1 <= ti < FIRST_RANGE_TABLE && k.mem[k.current][ti] != 0
    modifies k`mem
    ensures k.Valid() && k.mem.Keys == old(k.mem).Keys && k.mem[k.current] == old(k.mem)[k.current]
    ensures forall e :: e in k.dirs ==> k.mem[e] == old(k.mem)[e]
    ensures Protected(old(k.mem), k.mem, k.dirs, k.current, ti * ENTRIES, (ti + 1) * ENTRIES)
  {
    assert DirectoryOk(k.mem, k.dirs, k.current);
    assert EntryOk(k.mem, k.dirs, ti, k.mem[k.current][ti]);
    var t := FrameOf(k.mem[k.current][ti]);
    var pi := 0;
    while pi < ENTRIES
      invariant 0 <= pi <= ENTRIES
      invariant k.Valid() && k.mem.Keys == old(k.mem).Keys
      invariant forall e :: e in k.dirs ==> k.mem[e] == old(k.mem)[e]
      invariant Protected(old(k.mem), k.mem, k.dirs, k.current, ti * ENTRIES, ti * ENTRIES + pi)
    {
      assert (ti * ENTRIES + pi) / ENTRIES == ti && (ti * ENTRIES + pi) % ENTRIES == pi;
      assert Walk(k.mem, k.current, ti * ENTRIES + pi) == k.mem[t][pi];
      WriteEntryIsUpdate(k.mem, k.dirs, k.current, ti, pi, ReadOnly(k.mem[t][pi]));
      k.mem := WriteEntry(k.mem, t, pi, ReadOnly(k.mem[t][pi]));
      pi := pi + 1;
    }
    assert ti * ENTRIES + pi == (ti + 1) * ENTRIES;
  }

  // Takes write access to the process area away from the running space.
  method ProtectProcessArea(k: KernelMemory)
    requires k.Valid()
    modifies k`mem
    ensures k.Valid() && k.mem.Keys == old(k.mem).Keys
    ensures forall e :: e in k.dirs ==> k.mem[e] == old(k.mem)[e]
    ensures Protected(old(k.mem), k.mem, k.dirs, k.current, ENTRIES, FIRST_RANGE_TABLE * ENTRIES)
  {
    var ti := 1;
    while ti < SELF_TABLE
      invariant 1 <= ti <= SELF_TABLE
      invariant k.Valid() && k.mem.Keys == old(k.mem).Keys
      invariant forall e :: e in k.dirs ==> k.mem[e] == old(k.mem)[e]
      invariant Protected(old(k.mem), k.mem, k.dirs, k.current, ENTRIES, ProcessLimit(ti))
    {
      ghost var middle := k.mem;
      if k.mem[k.current][ti] != 0 && ti < FIRST_RANGE_TABLE {
        ProtectTable(k, ti);
      } else if ti < FIRST_RANGE_TABLE {
        assert Protected(middle, k.mem, k.dirs, k.current, ti * ENTRIES, (ti + 1) * ENTRIES) by {
          assert forall x :: ti * ENTRIES <= x < (ti + 1) * ENTRIES ==> x / ENTRIES == ti;
        }
      }
      ti := ti + 1;
    }
  }

  /**
   * Copy-on-write: the new space c and the forking space d resolve every page of
   * the process area alike, to the old frame without write access; unmapped
   * pages stay unmapped. Every other translation of an old space is untouched,
   * apart from the kernel page of the new stack.
   */
  ghost predicate ForkedFrom(before: Memory, after: Memory, dirs: set<Frame>, d: Frame, c: Frame, kernelPage: int)
    requires dirs <= before.Keys && dirs <= after.Keys && d in dirs && c in after
  {
    && (forall q :: ProcessPage(q) ==> Walk(after, c, q) == Walk(after, d, q) == ReadOnly(Walk(before, d, q)))
    && (forall e, q :: e in dirs && 0 <= q < PAGE_LIMIT && q != kernelPage && !(e == d && ProcessPage(q)) ==>
          Walk(after, e, q) == Walk(before, e, q))
  }

  // The new directory has tables of its own for the process area, where the old one has any.
  ghost predicate OwnTables(before: Memory, after: Memory, d: Frame, c: Frame)
    requires d in before && c in after
  {
    forall i :: 1 <= i < FIRST_RANGE_TABLE ==>
      && (after[c][i] == 0 <==> before[d][i] == 0)
      && (after[c][i] != 0 ==> FrameOf(after[c][i]) !in before)
  }

  method InstallForkedDirectory(k: KernelMemory) returns (r: Outcome<Frame>)
    requires k.Valid()
    modifies k`mem, k`dirs, k.ppa, k.ppa.pages, k.ppa.pages.bitmap, k.references
    ensures r.Panic? ==> k.ppa.pages.free == {}
    ensures r.Done? ==> k.Valid() && k.dirs == old(k.dirs) + {r.value} && r.value !in old(k.mem)
    ensures r.Done? ==> SameTranslations(old(k.mem), k.mem, old(k.dirs))
    ensures r.Done? ==>
              forall q :: 0 <= q < PAGE_LIMIT ==> Walk(k.mem, r.value, q) == ForkedWalk(old(k.mem), k.current, q)
    ensures r.Done? ==> OwnTables(old(k.mem), k.mem, k.current, r.value)
    ensures r.Done? ==> TablesFromPool(old(k.mem), k.mem, old(k.ppa.pages.free), k.ppa.pages.free)
    ensures r.Done? ==> CountedBelow(k, old(k.mem), old(k.references.tables), SELF_TABLE)
  {
    var physPd :- k.AllocateFrame();
    assert physPd in old(k.ppa.pages.free);
    var tempPd :- CloneDirectory(k, physPd);
    tempPd := tempPd[0 := k.mem[k.current][0]];
    tempPd := tempPd[SELF_TABLE := MakeWord(physPd, KERNEL_TABLE_FLAGS)];
    WordParts(physPd, KERNEL_TABLE_FLAGS);
    assert forall i :: 1 <= i < SELF_TABLE ==> ClonedSlot(old(k.mem), k.mem, k.current, i, tempPd[i]);
    ForkedDirectoryIsIsolated(old(k.mem), k.mem, k.dirs, k.current, physPd, tempPd);
    k.mem := k.mem[physPd := tempPd];
    k.dirs := k.dirs + {physPd};
    return Done(physPd);
  }

  lemma ForkComposition(
    m0: Memory, m1: Memory, m2: Memory, m3: Memory, m4: Memory, dirs: set<Frame>, d: Frame, c: Frame,
    stackPage: int, stack: seq<Frame>, pool: set<int>, kernelPage: int)
    requires dirs <= m0.Keys && dirs + {c} <= m1.Keys && dirs + {c} <= m2.Keys && dirs + {c} <= m3.Keys
    requires dirs + {c} <= m4.Keys && d in dirs && c !in dirs
    requires SameTranslations(m0, m1, dirs)
    requires forall q :: 0 <= q < PAGE_LIMIT ==> Walk(m1, c, q) == ForkedWalk(m0, d, q)
    requires RangePage(stackPage) && stackPage + |stack| <= FIRST_KERNEL_TABLE * ENTRIES
    requires StackMapped(m1, m2, dirs + {c}, c, stackPage, stack, pool)
    requires forall e, q :: e in dirs + {c} && 0 <= q < PAGE_LIMIT && q != kernelPage ==>
               Walk(m3, e, q) == Walk(m2, e, q)
    requires KernelPage(kernelPage)
    requires Protected(m3, m4, dirs + {c}, d, ENTRIES, FIRST_RANGE_TABLE * ENTRIES)
    ensures ForkedFrom(m0, m4, dirs, d, c, kernelPage)
    ensures StackOnly(m4, c, stackPage, stack)
  {
    forall q | ProcessPage(q)
      ensures Walk(m4, c, q) == Walk(m4, d, q) == ReadOnly(Walk(m0, d, q))
    {
      assert !SharedIndex(q / ENTRIES);
    }
    forall q | RangePage(q) ensures Walk(m1, c, q) == 0 {
      assert !SharedIndex(q / ENTRIES);
    }
  }

  // The range area of space c holds one stack and nothing else.
  ghost predicate StackOnly(mem: Memory, c: Frame, page: int, stack: seq<Frame>)
    requires c in mem
  {
    && (forall q :: RangePage(q) ==>
          Walk(mem, c, q) == (if page <= q < page + |stack| then MakeWord(stack[q - page], USER_PAGE_FLAGS) else 0))
    && (forall i, j :: 0 <= i < j < |stack| ==> stack[i] != stack[j])
  }

  // The process can use n stack pages, each on a frame of its own, and has nothing else in its range area.
  ghost predicate UserStack(mem: Memory, c: Frame, page: int, n: int)
    requires c in mem
  {
    && (forall q :: RangePage(q) ==>
          if page <= q < page + n then UserWritable(Walk(mem, c, q)) else Walk(mem, c, q) == 0)
    && (forall q, x :: RangePage(q) && RangePage(x) && page <= q < x < page + n ==>
          FrameOf(Walk(mem, c, q)) != FrameOf(Walk(mem, c, x)))
  }

  lemma StackIsUsable(mem: Memory, c: Frame, page: int, stack: seq<Frame>)
    requires c in mem && StackOnly(mem, c, page, stack)
    ensures UserStack(mem, c, page, |stack|)
  {
    forall q | RangePage(q) && page <= q < page + |stack|
      ensures UserWritable(Walk(mem, c, q)) && FrameOf(Walk(mem, c, q)) == stack[q - page]
    {
      UserPageWord(stack[q - page]);
    }
  }

  method ForkCurrentPageDirectory(
    k: KernelMemory, userStackStart: Address, userStackPages: int, kernelStackVirt: Address)
    returns (r: Outcome<Frame>, ghost stack: seq<Frame>)
    requires k.Valid() && 0 <= userStackPages
    requires userStackStart % PAGE_SIZE == 0 && RangePage(userStackStart / PAGE_SIZE)
    requires userStackStart / PAGE_SIZE + userStackPages <= FIRST_KERNEL_TABLE * ENTRIES
    requires KernelPage(kernelStackVirt / PAGE_SIZE)
    modifies k`mem, k`dirs, k.ppa, k.ppa.pages, k.ppa.pages.bitmap, k.references
    ensures r.Panic? && kernelStackVirt % PAGE_SIZE == 0 ==> k.ppa.pages.free == {}
    ensures r.Done? ==> k.Valid() && k.dirs == old(k.dirs) + {r.value} && r.value !in old(k.mem)
    ensures r.Done? ==>
              ForkedFrom(old(k.mem), k.mem, old(k.dirs), k.current, r.value, kernelStackVirt / PAGE_SIZE)
    ensures r.Done? ==> OwnTables(old(k.mem), k.mem, k.current, r.value)
    ensures r.Done? ==> KernelPageSet(old(k.mem), k.mem, k.dirs, k.current, kernelStackVirt / PAGE_SIZE)
    ensures r.Done? ==> |stack| == userStackPages && StackOnly(k.mem, r.value, userStackStart / PAGE_SIZE, stack)
    ensures r.Done? ==> TablesFromPool(old(k.mem), k.mem, old(k.ppa.pages.free), k.ppa.pages.free)
    ensures r.Done? ==> CountedBelow(k, old(k.mem), old(k.references.tables), SELF_TABLE)
  {
    ghost var m0, d0, dirs0 := k.mem, k.current, k.dirs;
    var child := InstallForkedDirectory(k);
    if child.Panic? {
      return Panic, [];
    }
    ghost var m1, pool := k.mem, k.ppa.pages.free;
    var mapped;
    mapped, stack := MapUserStack(k, child.value, userStackStart, userStackPages);
    if mapped.Panic? {
      return Panic, [];
    }
    ghost var m2 := k.mem;
    var done := MapKernelStack(k, kernelStackVirt);
    if done.Panic? {
      return Panic, [];
    }
    ghost var m3 := k.mem;
    ProtectProcessArea(k);
    assert OwnTables(m0, k.mem, d0, child.value) by {
      OwnTablesStay(m0, m1, m2, dirs0 + {child.value}, d0, child.value);
      OwnTablesStay(m0, m2, k.mem, dirs0 + {child.value}, d0, child.value);
    }
    ForkComposition(m0, m1, m2, m3, k.mem, dirs0, d0, child.value, userStackStart / PAGE_SIZE, stack, pool,
                    kernelStackVirt / PAGE_SIZE);
    return Done(child.value), stack;
  }

  lemma OwnTablesStay(before: Memory, middle: Memory, after: Memory, dirs: set<Frame>, d: Frame, c: Frame)
    requires d in before && c in dirs && dirs <= middle.Keys && dirs <= after.Keys
    requires OwnTables(before, middle, d, c) && SameLowSlots(middle, after, dirs)
    ensures OwnTables(before, after, d, c)
  {
  }

  // The stack page is set, in all spaces, to a frame from the pool; a page that was set already stays.
  method MapKernelStack(k: KernelMemory, virt: Address) returns (r: Outcome<Frame>)
    requires k.Valid() && KernelPage(virt / PAGE_SIZE)
    modifies k`mem, k.ppa, k.ppa.pages, k.ppa.pages.bitmap
    ensures r.Panic? && virt % PAGE_SIZE == 0 ==> k.ppa.pages.free == {}
    ensures r.Panic? <==> virt % PAGE_SIZE != 0 || old(k.ppa.pages.free) == {}
    ensures r.Done? ==> k.Valid() && r.value in old(k.ppa.pages.free)
    ensures r.Done? ==> k.ppa.pages.free == old(k.ppa.pages.free) - {r.value}
    ensures r.Done? ==> forall e, q :: e in k.dirs && 0 <= q < PAGE_LIMIT ==>
              Walk(k.mem, e, q) ==
              if q == virt / PAGE_SIZE && old(Walk(k.mem, k.current, q)) == 0
              then MakeWord(r.value, KERNEL_PAGE_FLAGS) else old(Walk(k.mem, e, q))
    ensures r.Done? ==> KernelPageSet(old(k.mem), k.mem, k.dirs, k.current, virt / PAGE_SIZE)
    ensures r.Done? ==> SameLowSlots(old(k.mem), k.mem, k.dirs)
    ensures r.Done? ==> TablesFromPool(old(k.mem), k.mem, old(k.ppa.pages.free), k.ppa.pages.free)
  {
    var phys :- k.AllocateFrame();
    var _ :- k.Map(virt, phys * PAGE_SIZE, KERNEL_TABLE_FLAGS, KERNEL_PAGE_FLAGS, false);
    KernelPageWord(phys);
    KernelPageEverywhere(k.mem, k.dirs, k.current, virt / PAGE_SIZE);
    KernelPageEverywhere(old(k.mem), k.dirs, k.current, virt / PAGE_SIZE);
    return Done(phys);
  }

  // All spaces show the page; if it was free, the kernel alone can use it now.
  ghost predicate KernelPageSet(before: Memory, after: Memory, dirs: set<Frame>, d: Frame, p: int)
    requires d in before && dirs <= after.Keys && KernelPage(p)
  {
    forall e :: e in dirs ==> Walk(after, e, p) != 0 && (Walk(before, d, p) == 0 ==> KernelWord(Walk(after, e, p)))
  }

  lemma KernelPageEverywhere(mem: Memory, dirs: set<Frame>, d: Frame, p: int)
    requires WellFormed(mem, dirs) && d in dirs && KernelPage(p)
    ensures forall e :: e in dirs ==> Walk(mem, e, p) == Walk(mem, d, p)
  {
    forall e | e in dirs ensures Walk(mem, e, p) == Walk(mem, d, p) {
      KernelHalfCoherent(mem, dirs, d, e, p);
    }
  }
}
