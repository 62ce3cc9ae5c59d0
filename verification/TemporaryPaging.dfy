/** A stack of addresses that grows by frames of 128 entries. */
module AddressStacks {
  const FRAME_ENTRIES := 128

  ghost function Flatten(frames: seq<seq<nat>>): seq<nat> {
    if frames == [] then [] else Flatten(frames[..|frames| - 1]) + frames[|frames| - 1]
  }

  class AddressStack {
    // The linked frames, the current one last.
    var frames: seq<seq<nat>>
    var position: nat

    ghost predicate Valid()
      reads this
    {
      && (forall i :: 0 <= i < |frames| ==> |frames[i]| == FRAME_ENTRIES)
      && position < FRAME_ENTRIES
      && (frames == [] ==> position == 0)
    }

    ghost function Contents(): seq<nat>
      reads this
      requires Valid()
    {
      if frames == [] then [] else Flatten(frames[..|frames| - 1]) + frames[|frames| - 1][..position]
    }

    constructor ()
      ensures Valid() && Contents() == []
    {
      frames, position := [], 0;
    }

    method Push(address: nat)
      requires Valid()
      modifies this
      ensures Valid() && Contents() == old(Contents()) + [address]
    {
      ghost var before := Contents();
      if frames == [] {
        frames := [seq(FRAME_ENTRIES, _ => 0)];
      }
      var last := |frames| - 1;
      var entries := frames[last][position := address];
      frames := frames[..last] + [entries];
      position := position + 1;
      assert entries[..position] == entries[..position - 1] + [address];
      if position == FRAME_ENTRIES {
        assert entries[..position] == entries;
        frames := frames + [seq(FRAME_ENTRIES, _ => 0)];
        position := 0;
        assert frames[..last + 1][..last] == frames[..last];
      }
    }

    /** The last address pushed, or 0 when there is none. */
    method Pop() returns (address: nat)
      requires Valid()
      modifies this
      ensures Valid()
      ensures old(Contents()) == [] ==> address == 0 && Contents() == []
      ensures old(Contents()) != [] ==> old(Contents()) == Contents() + [address]
    {
      if frames == [] {
        return 0;
      }
      if position == 0 {
        if |frames| == 1 {
          return 0;
        }
        var last := |frames| - 2;
        assert frames[..|frames| - 1][..last] == frames[..last];
        frames := frames[..|frames| - 1];
        assert frames[last] == frames[last][..FRAME_ENTRIES];
        position := FRAME_ENTRIES;
      }
      position := position - 1;
      address := frames[|frames| - 1][position];
      assert frames[|frames| - 1][..position + 1] == frames[|frames| - 1][..position] + [address];
    }
  }
}

/** Virtual pages lent out for reaching a physical frame for a short time. */
module TemporaryPaging {
  import opened PageWords
  import opened PageTables
  import opened Bitmaps
  import opened PhysicalPages
  import opened AddressSpaces
  import opened AddressStacks

  const RANGE_START := 0xFFB0_0000
  const RANGE_END := 0xFFC0_0000
  const RANGE_PAGES := 256

  // The first n pages of the range.
  function Pages(n: nat): seq<nat> { seq(n, i requires 0 <= i => RANGE_START + i * PAGE_SIZE) }

  predicate InRange(a: nat) { RANGE_START <= a < RANGE_END && a % PAGE_SIZE == 0 }

  /** The range has 256 different pages. */
  lemma PagesAreDistinct(a: nat)
    ensures multiset(Pages(RANGE_PAGES))[a] == if InRange(a) then 1 else 0
  {
    PagesCount(RANGE_PAGES, a);
  }

  lemma {:induction false} PagesCount(n: nat, a: nat)
    ensures multiset(Pages(n))[a] ==
            if RANGE_START <= a < RANGE_START + n * PAGE_SIZE && a % PAGE_SIZE == 0 then 1 else 0
    decreases n
  {
    if n > 0 {
      PagesCount(n - 1, a);
      assert Pages(n) == Pages(n - 1) + [RANGE_START + (n - 1) * PAGE_SIZE];
    }
  }

  // No address space translates the page.
  ghost predicate Unmapped(mem: Memory, dirs: set<Frame>, a: nat)
    requires dirs <= mem.Keys
  {
    a / PAGE_SIZE < PAGE_LIMIT && forall d :: d in dirs ==> Walk(mem, d, a / PAGE_SIZE) == 0
  }

  // The stacked addresses and those lent out are together the whole range, each page once.
  ghost predicate Shared(stacked: seq<nat>, lent: multiset<nat>) {
    multiset(stacked) + lent == multiset(Pages(RANGE_PAGES))
  }

  lemma SharedCounts(stacked: seq<nat>, lent: multiset<nat>, a: nat)
    requires Shared(stacked, lent)
    ensures a in stacked || a in lent <==> InRange(a)
    ensures !(a in stacked && a in lent) && multiset(stacked)[a] <= 1 && lent[a] <= 1
    ensures |stacked| + |lent| == RANGE_PAGES
  {
    PagesAreDistinct(a);
    assert (multiset(stacked) + lent)[a] == multiset(stacked)[a] + lent[a];
    assert a in stacked <==> a in multiset(stacked);
    assert |multiset(stacked) + lent| == |stacked| + |lent|;
  }

  lemma LendingKeepsShared(left: seq<nat>, lent: multiset<nat>, a: nat)
    requires Shared(left + [a], lent)
    ensures Shared(left, lent + multiset{a})
    ensures InRange(a) && a !in lent && a !in left && forall b :: b in left ==> InRange(b)
  {
    SharedCounts(left + [a], lent, a);
    assert a in left + [a];
    forall b | b in left ensures InRange(b) {
      SharedCounts(left + [a], lent, b);
    }
  }

  lemma RangePage(a: nat)
    requires InRange(a)
    ensures a / PAGE_SIZE < PAGE_LIMIT && a / PAGE_SIZE / ENTRIES == SELF_TABLE - 1
  {
  }

  // A kernel page set in one space is set in all and leaves the others alone.
  lemma OthersStayUnmapped(before: Memory, after: Memory, dirs: set<Frame>, d: Frame, a: nat, w: Word, b: nat)
    requires dirs <= before.Keys && dirs <= after.Keys && InRange(a) && InRange(b) && a != b
    requires a / PAGE_SIZE < PAGE_LIMIT && PageSet(before, after, dirs, d, a / PAGE_SIZE, w)
    requires Unmapped(before, dirs, b)
    ensures Unmapped(after, dirs, b)
  {
    assert a / PAGE_SIZE != b / PAGE_SIZE;
  }

  lemma ReturnedIsUnmapped(before: Memory, after: Memory, dirs: set<Frame>, d: Frame,
                           stacked: seq<nat>, lent: multiset<nat>, a: nat)
    requires dirs <= before.Keys && dirs <= after.Keys && Shared(stacked, lent) && a in lent
    requires a / PAGE_SIZE < PAGE_LIMIT && a / PAGE_SIZE / ENTRIES == SELF_TABLE - 1
    requires PageSet(before, after, dirs, d, a / PAGE_SIZE, 0)
    requires forall b :: b in stacked ==> Unmapped(before, dirs, b)
    ensures forall b :: b in stacked + [a] ==> Unmapped(after, dirs, b)
    ensures Shared(stacked + [a], lent - multiset{a})
  {
    SharedCounts(stacked, lent, a);
    forall b | b in stacked ensures Unmapped(after, dirs, b) {
      SharedCounts(stacked, lent, b);
      OthersStayUnmapped(before, after, dirs, d, a, 0, b);
    }
  }

  lemma AllShared()
    ensures Shared(Pages(RANGE_PAGES), multiset{}) && forall a :: a in Pages(RANGE_PAGES) ==> InRange(a)
  {
    forall a | a in Pages(RANGE_PAGES) ensures InRange(a) {
      PagesAreDistinct(a);
    }
  }

  // Puts every page of the range on an empty stack.
  method PushAll(stack: AddressStack)
    requires stack.Valid() && stack.Contents() == []
    modifies stack
    ensures stack.Valid() && stack.Contents() == Pages(RANGE_PAGES)
  {
    var address, n := RANGE_START, 0;
    while address < RANGE_END
      invariant address == RANGE_START + n * PAGE_SIZE && n <= RANGE_PAGES
      invariant stack.Valid() && stack.Contents() == Pages(n)
    {
      stack.Push(address);
      assert Pages(n + 1) == Pages(n) + [address];
      address, n := address + PAGE_SIZE, n + 1;
    }
  }

  class TemporaryPages {
    const memory: KernelMemory
    const stack: AddressStack
    ghost var lent: multiset<nat>

    ghost predicate Valid()
      reads this, memory, memory.ppa, memory.ppa.pages, memory.ppa.pages.bitmap, memory.references, stack
    {
      && memory.Valid() && stack.Valid()
      && Shared(stack.Contents(), lent)
      && forall a :: a in stack.Contents() ==> Unmapped(memory.mem, memory.dirs, a)
    }

    constructor (memory: KernelMemory)
      requires memory.Valid() && forall a :: InRange(a) ==> Unmapped(memory.mem, memory.dirs, a)
      ensures this.memory == memory && fresh(stack) && Valid() && lent == multiset{}
    {
      this.memory := memory;
      stack := new AddressStack();
      lent := multiset{};
      new;
      PushAll(stack);
      AllShared();
    }

    /**
     * Lends a page out for a frame. It is never refused as mapped already: it stops
     * only when all 256 pages are lent or the frame's address is not aligned.
     */
    method Map(phys: Address) returns (r: Outcome<nat>)
      requires Valid()
      modifies this, memory`mem, memory.ppa, memory.ppa.pages, memory.ppa.pages.bitmap, stack
      ensures r.Panic? <==> |old(lent)| == RANGE_PAGES || phys % PAGE_SIZE != 0
      ensures r.Done? ==> Valid() && InRange(r.value) && r.value !in old(lent) && lent == old(lent) + multiset{r.value}
      ensures r.Done? ==>
                && r.value / PAGE_SIZE < PAGE_LIMIT
                && PageSet(old(memory.mem), memory.mem, memory.dirs, memory.current, r.value / PAGE_SIZE,
                           MakeWord(phys / PAGE_SIZE, KERNEL_PAGE_FLAGS))
    {
      ghost var stacked := stack.Contents();
      SharedCounts(stacked, lent, 0);
      var virt := stack.Pop();
      if virt == 0 {
        return Panic;
      }
      ghost var left := stack.Contents();
      LendingKeepsShared(left, lent, virt);
      assert virt in stacked;
      lent := lent + multiset{virt};
      var _ :- MapPage(virt, phys, left);
      return Done(virt);
    }

    // An unmapped page of the range takes the frame; the other unmapped ones stay so.
    method MapPage(virt: nat, phys: Address, ghost left: seq<nat>) returns (r: Outcome<()>)
      requires memory.Valid() && InRange(virt) && Unmapped(memory.mem, memory.dirs, virt)
      requires virt !in left && forall a :: a in left ==> InRange(a) && Unmapped(memory.mem, memory.dirs, a)
      modifies memory`mem, memory.ppa, memory.ppa.pages, memory.ppa.pages.bitmap
      ensures virt / PAGE_SIZE < PAGE_LIMIT
      ensures r.Panic? <==> phys % PAGE_SIZE != 0
      ensures r.Done? ==>
                && memory.Valid()
                && PageSet(old(memory.mem), memory.mem, memory.dirs, memory.current, virt / PAGE_SIZE,
                           MakeWord(phys / PAGE_SIZE, KERNEL_PAGE_FLAGS))
                && forall a :: a in left ==> Unmapped(memory.mem, memory.dirs, a)
    {
      RangePage(virt);
      assert DirectoryOk(memory.mem, memory.dirs, memory.current);
      assert EntryOk(memory.mem, memory.dirs, SELF_TABLE - 1, memory.mem[memory.current][SELF_TABLE - 1]);
      var mapped :- memory.Map(virt, phys, KERNEL_TABLE_FLAGS, KERNEL_PAGE_FLAGS, false);
      forall a | a in left ensures Unmapped(memory.mem, memory.dirs, a) {
        OthersStayUnmapped(old(memory.mem), memory.mem, memory.dirs, memory.current, virt,
                           MakeWord(phys / PAGE_SIZE, KERNEL_PAGE_FLAGS), a);
      }
      return Done(());
    }

    method Unmap(virt: nat)
      requires Valid() && virt in lent
      modifies this, memory`mem, stack
      ensures Valid() && lent == old(lent) - multiset{virt}
      ensures virt / PAGE_SIZE < PAGE_LIMIT
      ensures PageSet(old(memory.mem), memory.mem, memory.dirs, memory.current, virt / PAGE_SIZE, 0)
    {
      ghost var stacked := stack.Contents();
      SharedCounts(stacked, lent, virt);
      RangePage(virt);
      memory.Unmap(virt);
      stack.Push(virt);
      lent := lent - multiset{virt};
      ReturnedIsUnmapped(old(memory.mem), memory.mem, memory.dirs, memory.current, stacked, old(lent), virt);
    }
  }
}
