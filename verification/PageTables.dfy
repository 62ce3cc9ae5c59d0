/**
 * 32-bit paging structures. A page table (or directory) is a frame of 1024
 * words; a word is zero when nothing is mapped and otherwise holds a frame
 * number in its upper 20 bits and flags in its lower 12.
 */
module PageWords {
  const PAGE_SIZE := 0x1000
  const ENTRIES := 1024
  const FRAME_LIMIT := 0x10_0000

  const PRESENT := 1
  const READWRITE := 2
  const USERSPACE := 4
  const GLOBAL := 128

  const KERNEL_TABLE_FLAGS := PRESENT + READWRITE
  const KERNEL_PAGE_FLAGS := PRESENT + READWRITE + GLOBAL
  const USER_TABLE_FLAGS := PRESENT + READWRITE + USERSPACE
  const USER_PAGE_FLAGS := PRESENT + READWRITE + USERSPACE

  // Words are built from frames below FRAME_LIMIT and flags, so they fit 32 bits.
  type Word = int
  type Frame = int
  type Flags = g: int | 0 <= g < PAGE_SIZE
  type Table = t: seq<Word> | |t| == ENTRIES witness seq(ENTRIES, _ => 0)

  function FrameOf(w: Word): Frame { w / PAGE_SIZE }

  function FlagsOf(w: Word): Flags { w % PAGE_SIZE }

  // The word a physical address combined with flags by bitwise or.
  function MakeWord(frame: Frame, flags: Flags): Word { frame * PAGE_SIZE + flags }

  // Bits 0, 1 and 2 of a word.
  predicate IsPresent(w: Word) { w % 2 == 1 }

  predicate IsWritable(w: Word) { w / 2 % 2 == 1 }

  predicate IsUser(w: Word) { w / 4 % 2 == 1 }

  // A directory word through which the processor goes on to the table.
  predicate IsOpen(w: Word) { IsPresent(w) && IsWritable(w) }

  // A page word that a process in user mode may read through, if there is one.
  predicate UserWord(w: Word) { w != 0 ==> IsPresent(w) && IsUser(w) }

  // A page word through which a process may read and write.
  predicate UserWritable(w: Word) { IsPresent(w) && IsUser(w) && IsWritable(w) }

  // A page word for the kernel alone.
  predicate KernelWord(w: Word) { IsOpen(w) && !IsUser(w) }

  // The word with its read/write bit cleared.
  function ReadOnly(w: Word): Word { if IsWritable(w) then w - READWRITE else w }

  function PageAlignDown(a: int): int { a - a % PAGE_SIZE }

  function PageAlignUp(a: int): int { if a % PAGE_SIZE == 0 then a else PageAlignDown(a) + PAGE_SIZE }

  const EMPTY_PAGE_TABLE: Table := seq(ENTRIES, _ => 0)

  lemma ReadOnlyKeepsTheRest(w: Word)
    ensures !IsWritable(ReadOnly(w))
    ensures FrameOf(ReadOnly(w)) == FrameOf(w)
    ensures IsPresent(ReadOnly(w)) == IsPresent(w) && IsUser(ReadOnly(w)) == IsUser(w)
    ensures FlagsOf(ReadOnly(w)) == FlagsOf(w) - (if IsWritable(w) then READWRITE else 0)
    ensures ReadOnly(w) == 0 <==> w == 0 || w == READWRITE
  {
    var quad, low := w / 4, w % 4;
    assert w == 4 * quad + low;
    assert w / READWRITE == 2 * quad + low / 2;
    if IsWritable(w) {
      assert low >= 2;
      assert (w - READWRITE) / READWRITE == 2 * quad;
      assert quad == (w / PAGE_SIZE) * 1024 + quad % 1024;
      assert w % PAGE_SIZE == 4 * (quad % 1024) + low;
    }
  }

  lemma WordParts(frame: Frame, flags: Flags)
    ensures FrameOf(MakeWord(frame, flags)) == frame
    ensures FlagsOf(MakeWord(frame, flags)) == flags
    ensures IsUser(MakeWord(frame, flags)) == IsUser(flags)
    ensures IsPresent(MakeWord(frame, flags)) == IsPresent(flags)
    ensures IsWritable(MakeWord(frame, flags)) == IsWritable(flags)
  {
    var high := frame * 512;
    assert MakeWord(frame, flags) == 8 * high + flags;
    LowBitsOfSum(high, flags);
    WordHalves(frame, flags);
  }

  lemma WordHalves(frame: Frame, flags: Flags)
    ensures FrameOf(MakeWord(frame, flags)) == frame && FlagsOf(MakeWord(frame, flags)) == flags
  {
  }

  // What the flags the kernel passes allow.
  lemma DefaultFlags()
    ensures IsOpen(USER_TABLE_FLAGS) && IsUser(USER_TABLE_FLAGS)
    ensures IsOpen(USER_PAGE_FLAGS) && IsUser(USER_PAGE_FLAGS)
    ensures IsOpen(KERNEL_TABLE_FLAGS) && !IsUser(KERNEL_TABLE_FLAGS)
    ensures IsOpen(KERNEL_PAGE_FLAGS) && !IsUser(KERNEL_PAGE_FLAGS)
  {
  }

  // The word of a page that the kernel gives a process.
  lemma UserPageWord(f: Frame)
    ensures var w := MakeWord(f, USER_PAGE_FLAGS); w != 0 && FrameOf(w) == f && UserWritable(w)
  {
    DefaultFlags();
    WordParts(f, USER_PAGE_FLAGS);
  }

  // The word of a page that the kernel maps for itself.
  lemma KernelPageWord(f: Frame)
    ensures var w := MakeWord(f, KERNEL_PAGE_FLAGS); w != 0 && FrameOf(w) == f && KernelWord(w)
  {
    DefaultFlags();
    WordParts(f, KERNEL_PAGE_FLAGS);
  }

  // Multiples of 8 do not touch bits 0 to 2.
  lemma LowBitsOfSum(high: int, low: int)
    ensures (8 * high + low) % 2 == low % 2
    ensures (8 * high + low) / 2 % 2 == low / 2 % 2
    ensures (8 * high + low) / 4 % 2 == low / 4 % 2
  {
    assert (8 * high + low) / 2 == 4 * high + low / 2;
    assert (8 * high + low) / 4 == 2 * high + low / 4;
  }
}

/**
 * Physical memory restricted to the frames that hold page directories and
 * page tables. Directories share a table by holding the same frame number.
 */
module PageTables {
  import opened PageWords

  const FIRST_KERNEL_TABLE := 768      // 0xC0000000
  const FIRST_RANGE_TABLE := 640       // 0xA0000000
  const SELF_TABLE := 1023             // the recursive mapping
  const PAGE_LIMIT := SELF_TABLE * ENTRIES

  type Memory = map<Frame, Table>

  predicate KernelIndex(i: int) { FIRST_KERNEL_TABLE <= i < SELF_TABLE }

  // The lowest 4 MiB and the kernel half are common to all address spaces.
  predicate SharedIndex(i: int) { i == 0 || KernelIndex(i) }

  predicate UserIndex(i: int) { 1 <= i < FIRST_KERNEL_TABLE }

  predicate ProcessPage(p: int) { ENTRIES <= p < FIRST_RANGE_TABLE * ENTRIES }

  predicate KernelPage(p: int) { FIRST_KERNEL_TABLE * ENTRIES <= p < PAGE_LIMIT }

  // What one directory entry may hold.
  ghost predicate EntryOk(mem: Memory, dirs: set<Frame>, i: int, w: Word) {
    && (SharedIndex(i) ==> w != 0)
    && (w != 0 ==>
          && FrameOf(w) in mem
          && FrameOf(w) !in dirs
          && IsOpen(w)
          && (KernelIndex(i) ==> !IsUser(w))
          && (UserIndex(i) ==> IsUser(w)))
  }

  ghost predicate DirectoryOk(mem: Memory, dirs: set<Frame>, d: Frame)
    requires d in mem
  {
    && SelfSlot(mem[d][SELF_TABLE], d)
    && forall i :: 0 <= i < SELF_TABLE ==> EntryOk(mem, dirs, i, mem[d][i])
  }

  // The recursive slot: the directory serves as a table, for the kernel only.
  predicate SelfSlot(w: Word, d: Frame) { FrameOf(w) == d && IsOpen(w) && !IsUser(w) }

  // No two directory slots refer to one table, except the same shared slot of two spaces.
  ghost predicate TablesUnaliased(mem: Memory, dirs: set<Frame>)
    requires dirs <= mem.Keys
  {
    forall d, i, e, j ::
      d in dirs && e in dirs && 0 <= i < SELF_TABLE && 0 <= j < SELF_TABLE ==> SlotsApart(mem, d, i, e, j)
  }

  ghost predicate SlotsApart(mem: Memory, d: Frame, i: int, e: Frame, j: int)
    requires d in mem && e in mem && 0 <= i < SELF_TABLE && 0 <= j < SELF_TABLE
  {
    mem[d][i] != 0 && mem[e][j] != 0 && FrameOf(mem[d][i]) == FrameOf(mem[e][j])
    ==> i == j && (d == e || SharedIndex(i))
  }

  ghost predicate SharedTablesAgree(mem: Memory, dirs: set<Frame>)
    requires dirs <= mem.Keys
  {
    forall d, e, i :: d in dirs && e in dirs && SharedIndex(i) ==> mem[d][i] == mem[e][i]
  }

  ghost predicate WellFormed(mem: Memory, dirs: set<Frame>) {
    && dirs <= mem.Keys
    && (forall d :: d in dirs ==> DirectoryOk(mem, dirs, d))
    && TablesUnaliased(mem, dirs)
    && SharedTablesAgree(mem, dirs)
  }

  // The word a two-level walk from directory d reaches for page p, zero when unmapped.
  function Walk(mem: Memory, d: Frame, p: int): Word
    requires d in mem && 0 <= p < ENTRIES * ENTRIES
  {
    var e := mem[d][p / ENTRIES];
    if e == 0 || FrameOf(e) !in mem then 0 else mem[FrameOf(e)][p % ENTRIES]
  }

  // Writing word w at slot i of the table in frame t.
  function WriteEntry(mem: Memory, t: Frame, i: int, w: Word): Memory
    requires t in mem && 0 <= i < ENTRIES
  {
    mem[t := mem[t][i := w]]
  }

  // What the processor grants a process in user mode at page p: the bits of both levels count.
  predicate UserReads(mem: Memory, d: Frame, p: int)
    requires d in mem && 0 <= p < ENTRIES * ENTRIES
  {
    var e := mem[d][p / ENTRIES];
    && IsPresent(e) && IsUser(e) && FrameOf(e) in mem
    && var w := mem[FrameOf(e)][p % ENTRIES];
       IsPresent(w) && IsUser(w)
  }

  predicate UserWrites(mem: Memory, d: Frame, p: int)
    requires d in mem && 0 <= p < ENTRIES * ENTRIES
  {
    UserReads(mem, d, p) && IsWritable(mem[d][p / ENTRIES]) && IsWritable(Walk(mem, d, p))
  }

  /** In the user half the bits of the page's word alone decide. */
  lemma UserAccess(mem: Memory, dirs: set<Frame>, d: Frame, p: int)
    requires WellFormed(mem, dirs) && d in dirs && ENTRIES <= p < FIRST_KERNEL_TABLE * ENTRIES
    ensures var w := Walk(mem, d, p);
      && (UserReads(mem, d, p) <==> IsPresent(w) && IsUser(w))
      && (UserWrites(mem, d, p) <==> UserWritable(w))
  {
    assert DirectoryOk(mem, dirs, d);
    assert EntryOk(mem, dirs, p / ENTRIES, mem[d][p / ENTRIES]);
  }

  /** A process never reads a kernel page, nor a page table through the recursive slot. */
  lemma KernelHalfHidden(mem: Memory, dirs: set<Frame>, d: Frame, p: int)
    requires WellFormed(mem, dirs) && d in dirs && FIRST_KERNEL_TABLE * ENTRIES <= p < ENTRIES * ENTRIES
    ensures !UserReads(mem, d, p)
  {
    assert DirectoryOk(mem, dirs, d);
    if p / ENTRIES < SELF_TABLE {
      assert EntryOk(mem, dirs, p / ENTRIES, mem[d][p / ENTRIES]);
    }
  }

  /**
   * Through the recursive slot, page 1023 * 1024 + i of an address space is the
   * frame of its i-th table: the kernel reaches its own tables through it.
   */
  lemma RecursiveSlotReachesTables(mem: Memory, dirs: set<Frame>, d: Frame, i: int)
    requires WellFormed(mem, dirs) && d in dirs && 0 <= i < ENTRIES
    ensures Walk(mem, d, SELF_TABLE * ENTRIES + i) == mem[d][i]
  {
    assert DirectoryOk(mem, dirs, d);
    assert (SELF_TABLE * ENTRIES + i) / ENTRIES == SELF_TABLE;
    assert (SELF_TABLE * ENTRIES + i) % ENTRIES == i;
  }

  /** Two directories resolve every kernel page to the same word. */
  lemma KernelHalfCoherent(mem: Memory, dirs: set<Frame>, d: Frame, e: Frame, p: int)
    requires WellFormed(mem, dirs) && d in dirs && e in dirs && KernelPage(p)
    ensures mem[d][p / ENTRIES] == mem[e][p / ENTRIES] != 0
    ensures Walk(mem, d, p) == Walk(mem, e, p)
  {
    assert SharedIndex(p / ENTRIES);
    assert DirectoryOk(mem, dirs, d);
    assert EntryOk(mem, dirs, p / ENTRIES, mem[d][p / ENTRIES]);
  }

  /**
   * Writing one table entry is an update of exactly one page: in the space that
   * owns the table, or in every space when the table is shared.
   */
  lemma WriteEntryIsUpdate(mem: Memory, dirs: set<Frame>, d: Frame, ti: int, pi: int, w: Word)
    requires WellFormed(mem, dirs) && d in dirs
    requires 0 <= ti < SELF_TABLE && 0 <= pi < ENTRIES && mem[d][ti] != 0
    ensures FrameOf(mem[d][ti]) in mem
    ensures var mem' := WriteEntry(mem, FrameOf(mem[d][ti]), pi, w);
            && WellFormed(mem', dirs)
            && (forall e :: e in dirs ==> mem'[e] == mem[e])
            && forall e, q :: e in dirs && 0 <= q < PAGE_LIMIT ==>
                 Walk(mem', e, q) ==
                 (if q == ti * ENTRIES + pi && (e == d || SharedIndex(ti)) then w else Walk(mem, e, q))
  {
    assert EntryOk(mem, dirs, ti, mem[d][ti]);
    var t := FrameOf(mem[d][ti]);
    var mem' := WriteEntry(mem, t, pi, w);
    assert forall e :: e in dirs ==> mem'[e] == mem[e];
    assert WellFormed(mem', dirs) by {
      forall e | e in dirs ensures DirectoryOk(mem', dirs, e) {
        assert DirectoryOk(mem, dirs, e);
        forall i | 0 <= i < SELF_TABLE ensures EntryOk(mem', dirs, i, mem'[e][i]) {
          assert EntryOk(mem, dirs, i, mem[e][i]);
        }
      }
      forall x, i, y, j | x in dirs && y in dirs && 0 <= i < SELF_TABLE && 0 <= j < SELF_TABLE
        ensures SlotsApart(mem', x, i, y, j)
      {
        assert SlotsApart(mem, x, i, y, j);
      }
    }
    forall e, q | e in dirs && 0 <= q < PAGE_LIMIT
      ensures Walk(mem', e, q) ==
              (if q == ti * ENTRIES + pi && (e == d || SharedIndex(ti)) then w else Walk(mem, e, q))
    {
      var i, j := q / ENTRIES, q % ENTRIES;
      assert q == i * ENTRIES + j && 0 <= i < SELF_TABLE;
      assert EntryOk(mem, dirs, i, mem[e][i]);
      assert SlotsApart(mem, d, ti, e, i);
      if mem[e][i] != 0 && FrameOf(mem[e][i]) == t {
        assert i == ti && (d == e || SharedIndex(i));
      }
    }
  }

  /** A table for user pages that its flags hide from the user, or close, breaks the invariant. */
  lemma UserTablesNeedUserFlag(mem: Memory, dirs: set<Frame>, d: Frame, ti: int, t: Frame, flags: Flags)
    requires WellFormed(mem, dirs) && d in dirs && UserIndex(ti) && mem[d][ti] == 0 && t !in mem && t > 0
    ensures WellFormed(mem[t := EMPTY_PAGE_TABLE][d := mem[d][ti := MakeWord(t, flags)]], dirs) <==>
            IsUser(flags) && IsOpen(flags)
  {
    WordParts(t, flags);
    var mem' := mem[t := EMPTY_PAGE_TABLE][d := mem[d][ti := MakeWord(t, flags)]];
    if IsUser(flags) && IsOpen(flags) {
      InstallTableIsInvisible(mem, dirs, d, ti, t, flags);
    } else {
      assert mem'[d][ti] == MakeWord(t, flags);
      assert !EntryOk(mem', dirs, ti, mem'[d][ti]);
      assert !DirectoryOk(mem', dirs, d);
    }
  }

  /** Hanging an empty table into an unused slot of one directory changes no translation. */
  lemma InstallTableIsInvisible(mem: Memory, dirs: set<Frame>, d: Frame, ti: int, t: Frame, flags: Flags)
    requires WellFormed(mem, dirs) && d in dirs && UserIndex(ti)
    requires mem[d][ti] == 0 && t !in mem && IsUser(flags) && IsOpen(flags)
    ensures var mem' := mem[t := EMPTY_PAGE_TABLE][d := mem[d][ti := MakeWord(t, flags)]];
            && WellFormed(mem', dirs)
            && (forall f :: f in mem && f != d ==> mem'[f] == mem[f])
            && forall e, q :: e in dirs && 0 <= q < PAGE_LIMIT ==> Walk(mem', e, q) == Walk(mem, e, q)
  {
    WordParts(t, flags);
    var w := MakeWord(t, flags);
    var mem' := mem[t := EMPTY_PAGE_TABLE][d := mem[d][ti := w]];
    assert DirectoryOk(mem, dirs, d);
    forall e, i | e in dirs && 0 <= i < SELF_TABLE
      ensures EntryOk(mem', dirs, i, mem'[e][i])
      ensures mem'[e][i] == (if e == d && i == ti then w else mem[e][i])
      ensures mem[e][i] != 0 ==> FrameOf(mem[e][i]) != t
    {
      assert DirectoryOk(mem, dirs, e);
      assert EntryOk(mem, dirs, i, mem[e][i]);
    }
    forall e | e in dirs ensures DirectoryOk(mem', dirs, e) {
      assert DirectoryOk(mem, dirs, e);
    }
    forall x, i, y, j | x in dirs && y in dirs && 0 <= i < SELF_TABLE && 0 <= j < SELF_TABLE
      ensures SlotsApart(mem', x, i, y, j)
    {
      assert SlotsApart(mem, x, i, y, j);
    }
    forall e, q | e in dirs && 0 <= q < PAGE_LIMIT ensures Walk(mem', e, q) == Walk(mem, e, q) {
      var i := q / ENTRIES;
      assert 0 <= i < SELF_TABLE;
      assert EntryOk(mem, dirs, i, mem[e][i]);
    }
  }

  // The directory a new address space starts from: the shared slots of d and itself.
  ghost predicate SharesOnly(mem: Memory, d: Frame, dir: Table, c: Frame)
    requires d in mem
  {
    && (forall i :: 0 <= i < SELF_TABLE ==> dir[i] == (if SharedIndex(i) then mem[d][i] else 0))
    && SelfSlot(dir[SELF_TABLE], c)
  }

  /** A fresh directory that only shares adds an address space and disturbs none. */
  lemma AddDirectoryIsIsolated(mem: Memory, dirs: set<Frame>, d: Frame, c: Frame, dir: Table)
    requires WellFormed(mem, dirs) && d in dirs && c !in mem
    requires SharesOnly(mem, d, dir, c)
    ensures var mem' := mem[c := dir];
            && WellFormed(mem', dirs + {c})
            && (forall e, q :: e in dirs && 0 <= q < PAGE_LIMIT ==> Walk(mem', e, q) == Walk(mem, e, q))
            && forall q :: 0 <= q < PAGE_LIMIT ==>
                 Walk(mem', c, q) == (if SharedIndex(q / ENTRIES) then Walk(mem, d, q) else 0)
  {
    var mem' := mem[c := dir];
    var dirs' := dirs + {c};
    assert DirectoryOk(mem, dirs, d);
    forall e, i | e in dirs' && 0 <= i < SELF_TABLE
      ensures EntryOk(mem', dirs', i, mem'[e][i])
      ensures e in dirs ==> EntryOk(mem, dirs, i, mem[e][i])
    {
      if e in dirs { assert DirectoryOk(mem, dirs, e); }
      assert EntryOk(mem, dirs, i, mem[d][i]);
    }
    forall e | e in dirs' ensures DirectoryOk(mem', dirs', e) {
      if e in dirs { assert DirectoryOk(mem, dirs, e); }
    }
    assert SharedTablesAgree(mem', dirs');
    assert TablesUnaliased(mem', dirs') by {
      forall x, i, y, j | x in dirs' && y in dirs' && 0 <= i < SELF_TABLE && 0 <= j < SELF_TABLE
        ensures SlotsApart(mem', x, i, y, j)
      {
        assert SlotsApart(mem, if x == c then d else x, i, if y == c then d else y, j);
      }
    }
    forall e, q | e in dirs && 0 <= q < PAGE_LIMIT ensures Walk(mem', e, q) == Walk(mem, e, q) {
      assert 0 <= q / ENTRIES < SELF_TABLE;
      assert EntryOk(mem, dirs, q / ENTRIES, mem[e][q / ENTRIES]);
    }
    forall q | 0 <= q < PAGE_LIMIT
      ensures Walk(mem', c, q) == (if SharedIndex(q / ENTRIES) then Walk(mem, d, q) else 0)
    {
      assert 0 <= q / ENTRIES < SELF_TABLE;
      assert EntryOk(mem, dirs, q / ENTRIES, mem[d][q / ENTRIES]);
    }
  }
}
