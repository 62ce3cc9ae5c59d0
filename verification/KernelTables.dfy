/**
 * The one address space of the loader: which of its page tables may still be
 * missing, and when it is fit to be shared with processes.
 */
module KernelTables {
  import opened PageWords
  import opened PageTables
  import opened Bitmaps
  import opened PhysicalPages
  import opened AddressSpaces

  // A boot directory slot: kernel tables may still be missing.
  ghost predicate BootSlot(mem: Memory, d: Frame, i: int, w: Word) {
    w != 0 ==>
      && FrameOf(w) in mem
      && FrameOf(w) != d
      && IsOpen(w)
      && (KernelIndex(i) ==> !IsUser(w))
      && (UserIndex(i) ==> IsUser(w))
  }

  // A directory with its recursive slot and tables of its own.
  ghost predicate BootSpace(mem: Memory, d: Frame) {
    && d in mem
    && SelfSlot(mem[d][SELF_TABLE], d)
    && (forall i :: 0 <= i < SELF_TABLE ==> BootSlot(mem, d, i, mem[d][i]))
    && (forall i, j :: 0 <= i < SELF_TABLE && 0 <= j < SELF_TABLE ==> BootSlotsApart(mem, d, i, j))
  }

  ghost predicate BootSlotsApart(mem: Memory, d: Frame, i: int, j: int)
    requires d in mem && 0 <= i < SELF_TABLE && 0 <= j < SELF_TABLE
  {
    mem[d][i] != 0 && mem[d][j] != 0 && FrameOf(mem[d][i]) == FrameOf(mem[d][j]) ==> i == j
  }

  ghost predicate KernelTablesFrom(mem: Memory, d: Frame, lo: int, hi: int)
    requires d in mem && 0 <= lo && hi <= ENTRIES
  {
    forall i :: lo <= i < hi ==> mem[d][i] != 0
  }

  /** A boot directory is a well-formed address space exactly when no kernel table is missing. */
  lemma BootIsWellFormed(mem: Memory, d: Frame)
    requires BootSpace(mem, d)
    ensures WellFormed(mem, {d}) <==> mem[d][0] != 0 && KernelTablesFrom(mem, d, FIRST_KERNEL_TABLE, SELF_TABLE)
  {
    if WellFormed(mem, {d}) {
      assert DirectoryOk(mem, {d}, d) && EntryOk(mem, {d}, 0, mem[d][0]);
      forall i | FIRST_KERNEL_TABLE <= i < SELF_TABLE ensures mem[d][i] != 0 {
        assert EntryOk(mem, {d}, i, mem[d][i]);
      }
    }
    if mem[d][0] != 0 && KernelTablesFrom(mem, d, FIRST_KERNEL_TABLE, SELF_TABLE) {
      forall i | 0 <= i < SELF_TABLE ensures EntryOk(mem, {d}, i, mem[d][i]) {
        assert BootSlot(mem, d, i, mem[d][i]);
      }
      forall x, i, y, j | x in {d} && y in {d} && 0 <= i < SELF_TABLE && 0 <= j < SELF_TABLE
        ensures SlotsApart(mem, x, i, y, j)
      {
        assert BootSlotsApart(mem, d, i, j);
      }
    }
  }

  // Table flags that fit the half of the address space a slot belongs to.
  predicate FlagsFit(ti: int, flags: Flags) {
    && IsOpen(flags)
    && (KernelIndex(ti) ==> !IsUser(flags))
    && (UserIndex(ti) ==> IsUser(flags))
  }

  /** Hanging an empty table into an unused slot changes no translation. */
  lemma InstallBootTable(mem: Memory, d: Frame, ti: int, t: Frame, flags: Flags)
    requires BootSpace(mem, d) && 0 <= ti < SELF_TABLE && mem[d][ti] == 0 && t !in mem && FlagsFit(ti, flags)
    ensures var mem' := mem[t := EMPTY_PAGE_TABLE][d := mem[d][ti := MakeWord(t, flags)]];
            && BootSpace(mem', d) && mem'[d][ti] != 0
            && SameTranslations(mem, mem', {d})
  {
    WordParts(t, flags);
    var w := MakeWord(t, flags);
    var mem' := mem[t := EMPTY_PAGE_TABLE][d := mem[d][ti := w]];
    forall i | 0 <= i < SELF_TABLE
      ensures BootSlot(mem', d, i, mem'[d][i])
      ensures mem[d][i] != 0 ==> FrameOf(mem[d][i]) in mem
    {
      assert BootSlot(mem, d, i, mem[d][i]);
    }
    forall i, j | 0 <= i < SELF_TABLE && 0 <= j < SELF_TABLE ensures BootSlotsApart(mem', d, i, j) {
      assert BootSlotsApart(mem, d, i, j);
    }
    forall q | 0 <= q < PAGE_LIMIT ensures Walk(mem', d, q) == Walk(mem, d, q) {
      assert BootSlot(mem, d, q / ENTRIES, mem[d][q / ENTRIES]);
    }
  }

  /** Writing one entry of a table sets exactly that page. */
  lemma WriteBootEntry(mem: Memory, d: Frame, ti: int, pi: int, w: Word)
    requires BootSpace(mem, d) && 0 <= ti < SELF_TABLE && 0 <= pi < ENTRIES && mem[d][ti] != 0
    ensures FrameOf(mem[d][ti]) in mem
    ensures var mem' := WriteEntry(mem, FrameOf(mem[d][ti]), pi, w);
            && BootSpace(mem', d) && mem'[d] == mem[d]
            && PageSet(mem, mem', {d}, d, ti * ENTRIES + pi, w)
  {
    assert BootSlot(mem, d, ti, mem[d][ti]);
    var t := FrameOf(mem[d][ti]);
    var mem' := WriteEntry(mem, t, pi, w);
    assert mem'[d] == mem[d];
    forall i | 0 <= i < SELF_TABLE ensures BootSlot(mem', d, i, mem'[d][i]) {
      assert BootSlot(mem, d, i, mem[d][i]);
    }
    forall i, j | 0 <= i < SELF_TABLE && 0 <= j < SELF_TABLE ensures BootSlotsApart(mem', d, i, j) {
      assert BootSlotsApart(mem, d, i, j);
    }
    forall q | 0 <= q < PAGE_LIMIT
      ensures Walk(mem', d, q) == if q == ti * ENTRIES + pi then w else Walk(mem, d, q)
    {
      var i := q / ENTRIES;
      assert q == i * ENTRIES + q % ENTRIES && 0 <= i < SELF_TABLE;
      assert BootSlot(mem, d, i, mem[d][i]) && BootSlotsApart(mem, d, i, ti);
    }
  }

  /** A fresh frame with nothing but the recursive slot is a space that translates nothing. */
  lemma EmptySpace(d: Frame)
    ensures var mem: Memory := map[d := EMPTY_PAGE_TABLE[SELF_TABLE := MakeWord(d, KERNEL_TABLE_FLAGS)]];
            && BootSpace(mem, d)
            && forall q :: 0 <= q < PAGE_LIMIT ==> Walk(mem, d, q) == 0
  {
    WordParts(d, KERNEL_TABLE_FLAGS);
    var mem: Memory := map[d := EMPTY_PAGE_TABLE[SELF_TABLE := MakeWord(d, KERNEL_TABLE_FLAGS)]];
    assert forall i :: 0 <= i < SELF_TABLE ==> mem[d][i] == 0;
  }
}
