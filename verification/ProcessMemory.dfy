/** The break of a process heap, as the sbrk system call moves it. */
module HeapBreaks {
  import opened PageWords
  import opened Bitmaps

  const MAXIMUM_HEAP_BREAK := 0x8000_0000
  const LOWEST_IMAGE := 0x40_0000

  datatype Process = Process(imageStart: int, imageEnd: int, heapStart: int, heapBreak: int, heapPages: int)

  const NEW_PROCESS := Process(0, 0, 0, 0, 0)

  type Amount = a: int | -0x8000_0000 <= a < 0x8000_0000

  ghost predicate ImageOk(pr: Process) {
    && LOWEST_IMAGE <= pr.imageStart <= pr.imageEnd <= MAXIMUM_HEAP_BREAK
    && pr.imageStart % PAGE_SIZE == 0
    && pr.imageEnd % PAGE_SIZE == 0
  }

  // The heap has just enough whole pages for its break, give or take a page at a boundary.
  ghost predicate HeapOk(pr: Process) {
    && pr.heapStart == pr.imageEnd
    && 0 <= pr.heapPages
    && (pr.heapPages - 1) * PAGE_SIZE <= pr.heapBreak - pr.heapStart <= pr.heapPages * PAGE_SIZE
    && 0 < pr.heapBreak <= MAXIMUM_HEAP_BREAK
  }

  // The first call sets up a heap of one page behind the image.
  function Started(pr: Process): Process {
    if pr.heapBreak == 0
    then pr.(heapStart := pr.imageEnd, heapBreak := pr.imageEnd, heapPages := 1)
    else pr
  }

  function Wrapped(a: int): Address { a % ADDRESS_LIMIT }

  // Pages once the break is brk: as few as needed when growing, as many as needed when shrinking.
  function PagesFor(pr: Process, brk: int): int {
    var used := brk - pr.heapStart;
    if used > pr.heapPages * PAGE_SIZE then (used + PAGE_SIZE - 1) / PAGE_SIZE
    else if used < (pr.heapPages - 1) * PAGE_SIZE then used / PAGE_SIZE + 1
    else pr.heapPages
  }

  function Resized(pr: Process, brk: int): Process {
    pr.(heapBreak := brk, heapPages := PagesFor(pr, brk))
  }

  // The whole call.
  function Sbrk(pr: Process, amount: Amount): Process {
    var s := Started(pr);
    var brk := Wrapped(s.heapBreak + amount);
    if brk >= MAXIMUM_HEAP_BREAK then s else Resized(s, brk)
  }

  // The shrink loop stops before it reaches the image.
  predicate KeepsImage(pr: Process, amount: Amount) {
    var s := Started(pr);
    var brk := Wrapped(s.heapBreak + amount);
    brk >= MAXIMUM_HEAP_BREAK || brk >= s.heapStart - PAGE_SIZE
  }

  /** The 32-bit sum is never mistaken: it is accepted iff the true sum is a legal break, and then equals it. */
  lemma AcceptedBreakIsExact(brk: int, amount: Amount)
    requires 0 <= brk <= MAXIMUM_HEAP_BREAK
    ensures Wrapped(brk + amount) < MAXIMUM_HEAP_BREAK <==> 0 <= brk + amount < MAXIMUM_HEAP_BREAK
    ensures Wrapped(brk + amount) < MAXIMUM_HEAP_BREAK ==> Wrapped(brk + amount) == brk + amount
  {
  }

  /**
   * Resizing keeps the bounds on heapPages for every break, and asks for a
   * negative number of pages, that is for pages of the image, exactly when the
   * break lies more than a page below the heap.
   */
  lemma ResizedPages(pr: Process, brk: int)
    requires pr.heapPages >= 0
    ensures (PagesFor(pr, brk) - 1) * PAGE_SIZE <= brk - pr.heapStart <= PagesFor(pr, brk) * PAGE_SIZE
    ensures PagesFor(pr, brk) < 0 <==> brk < pr.heapStart - PAGE_SIZE
  {
  }

  ghost predicate Keeps(pr: Process, amounts: seq<Amount>)
    decreases |amounts|
  {
    amounts != [] ==> KeepsImage(pr, amounts[0]) && Keeps(Sbrk(pr, amounts[0]), amounts[1..])
  }

  function SbrkAll(pr: Process, amounts: seq<Amount>): Process
    decreases |amounts|
  {
    if amounts == [] then pr else SbrkAll(Sbrk(pr, amounts[0]), amounts[1..])
  }

  lemma SbrkKeepsHeap(pr: Process, amount: Amount)
    requires ImageOk(pr) && (pr.heapBreak == 0 || HeapOk(pr)) && KeepsImage(pr, amount)
    ensures HeapOk(Sbrk(pr, amount)) && ImageOk(Sbrk(pr, amount))
  {
    var s := Started(pr);
    assert HeapOk(s);
    var brk := Wrapped(s.heapBreak + amount);
    if brk < MAXIMUM_HEAP_BREAK {
      ResizedPages(s, brk);
    }
  }

  /** After any sequence of requests that spare the image, break and page count fit together. */
  lemma {:induction false} BreakBounds(pr: Process, amounts: seq<Amount>)
    requires ImageOk(pr) && (pr.heapBreak == 0 || HeapOk(pr)) && Keeps(pr, amounts)
    ensures amounts != [] ==> HeapOk(SbrkAll(pr, amounts))
    ensures ImageOk(SbrkAll(pr, amounts))
    decreases |amounts|
  {
    if amounts != [] {
      SbrkKeepsHeap(pr, amounts[0]);
      BreakBounds(Sbrk(pr, amounts[0]), amounts[1..]);
    }
  }

  /** Growing and shrinking by the same amount restores the break and at most costs a page. */
  lemma GrowThenShrink(pr: Process, amount: Amount)
    requires ImageOk(pr) && HeapOk(pr) && pr.heapBreak >= pr.heapStart && 0 <= amount
    requires pr.heapBreak + amount < MAXIMUM_HEAP_BREAK
    ensures var back := Sbrk(Sbrk(pr, amount), -amount);
            && back.heapBreak == pr.heapBreak
            && pr.heapPages <= back.heapPages + 1 && back.heapPages <= pr.heapPages + 1
            && back.(heapPages := pr.heapPages) == pr
  {
    var grown := Sbrk(pr, amount);
    AcceptedSbrk(pr, amount);
    ResizedPages(pr, pr.heapBreak + amount);
    AcceptedSbrk(grown, -amount);
    ResizedPages(grown, pr.heapBreak);
    FewPages(pr, grown.(heapBreak := pr.heapBreak, heapPages := PagesFor(grown, pr.heapBreak)));
  }

  lemma AcceptedSbrk(pr: Process, amount: Amount)
    requires 0 < pr.heapBreak <= MAXIMUM_HEAP_BREAK && 0 <= pr.heapBreak + amount < MAXIMUM_HEAP_BREAK
    ensures Sbrk(pr, amount) == Resized(pr, pr.heapBreak + amount)
  {
    AcceptedBreakIsExact(pr.heapBreak, amount);
  }

  // Two records with the same start and break that keep the bounds differ by a page at most.
  lemma FewPages(a: Process, b: Process)
    requires a.heapStart == b.heapStart && a.heapBreak == b.heapBreak
    requires (a.heapPages - 1) * PAGE_SIZE <= a.heapBreak - a.heapStart <= a.heapPages * PAGE_SIZE
    requires (b.heapPages - 1) * PAGE_SIZE <= b.heapBreak - b.heapStart <= b.heapPages * PAGE_SIZE
    ensures a.heapPages <= b.heapPages + 1 && b.heapPages <= a.heapPages + 1
  {
  }
}

/** Processes over their address spaces: images, heaps, forks and copy-on-write faults. */
module ProcessMemory {
  import opened PageWords
  import opened PageTables
  import opened Bitmaps
  import opened PhysicalPages
  import opened FrameReferences
  import opened AddressSpaces
  import opened ForkedSpaces
  import opened ProcessFrames
  import opened OwnedRanges
  import opened HeapBreaks
  import Ranges

  // The kernel's tables are in order, every reference count is right, and owned frames are out of reach.
  ghost predicate Consistent(k: KernelMemory)
    reads k, k.ppa, k.ppa.pages, k.ppa.pages.bitmap, k.references
  {
    && k.Valid()
    && FramesOk(k.mem, k.dirs, k.references.tables, k.ppa.pages.free)
    && Undisturbed(k.mem, k.dirs, k.ppa.pages.free, k.owned, k.vacant)
  }

  // What there is of the kernel's memory at one moment.
  datatype View = View(
    mem: Memory, dirs: set<Frame>, current: Frame, free: set<int>, owned: map<(Frame, int), Frame>,
    vacant: set<(Frame, int)>)

  ghost function ViewOf(k: KernelMemory): View
    reads k, k.ppa, k.ppa.pages
  {
    View(k.mem, k.dirs, k.current, k.ppa.pages.free, k.owned, k.vacant)
  }

  // The same spaces, and the same one is running.
  ghost predicate SpacesStay(v: View, w: View) {
    w.dirs == v.dirs && w.current == v.current && v.current in v.dirs && v.dirs <= v.mem.Keys && v.dirs <= w.mem.Keys
  }

  lemma PageAddress(page: int)
    ensures var a := page * PAGE_SIZE; a % PAGE_SIZE == 0 && a / PAGE_SIZE == page && (a == 0 <==> page == 0)
  {
  }

  // Takes a frame from the pool and maps it at a page of the running process.
  method MapTakenFrame(k: KernelMemory, virt: Address, override: bool) returns (r: Outcome<Frame>)
    requires k.Valid() && virt % PAGE_SIZE == 0 && (ProcessPage(virt / PAGE_SIZE) || RangePage(virt / PAGE_SIZE))
    requires override || Walk(k.mem, k.current, virt / PAGE_SIZE) == 0
    modifies k`mem, k.ppa, k.ppa.pages, k.ppa.pages.bitmap
    ensures r.Panic? ==> k.ppa.pages.free == {}
    ensures r.Done? ==> k.Valid() && 0 < r.value < FRAME_LIMIT
    ensures r.Done? ==> r.value in old(k.ppa.pages.free) && r.value !in k.ppa.pages.free && r.value !in k.mem
    ensures r.Done? ==>
              PageSet(old(k.mem), k.mem, k.dirs, k.current, virt / PAGE_SIZE, MakeWord(r.value, USER_PAGE_FLAGS))
    ensures r.Done? ==> TablesFromPool(old(k.mem), k.mem, old(k.ppa.pages.free), k.ppa.pages.free)
    ensures r.Done? ==> NoneLost(k.mem, old(k.ppa.pages.free) - {r.value}, k.ppa.pages.free)
  {
    var phys :- k.AllocateFrame();
    assert DirectoryOk(k.mem, k.dirs, k.current);
    assert EntryOk(k.mem, k.dirs, virt / PAGE_SIZE / ENTRIES, k.mem[k.current][virt / PAGE_SIZE / ENTRIES]);
    var _ :- k.Map(virt, phys * PAGE_SIZE, USER_TABLE_FLAGS, USER_PAGE_FLAGS, override);
    return Done(phys);
  }

  // Maps a fresh frame at a free page of the running process and counts it.
  method AddPage(k: KernelMemory, virt: Address) returns (r: Outcome<Frame>)
    requires Consistent(k) && virt % PAGE_SIZE == 0 && ProcessPage(virt / PAGE_SIZE)
    requires Walk(k.mem, k.current, virt / PAGE_SIZE) == 0
    modifies k`mem, k.ppa, k.ppa.pages, k.ppa.pages.bitmap, k.references
    ensures r.Panic? ==> k.ppa.pages.free == {}
    ensures r.Done? ==> Consistent(k)
    ensures r.Done? ==> r.value in old(k.ppa.pages.free)
    ensures r.Done? ==>
              PageSet(old(k.mem), k.mem, k.dirs, k.current, virt / PAGE_SIZE, MakeWord(r.value, USER_PAGE_FLAGS))
  {
    ghost var before, free, counts := k.mem, k.ppa.pages.free, k.references.tables;
    var phys :- MapTakenFrame(k, virt, false);
    WordParts(phys, USER_PAGE_FLAGS);
    AddMapping(before, k.mem, k.dirs, k.current, virt / PAGE_SIZE, MakeWord(phys, USER_PAGE_FLAGS),
               counts, free, k.ppa.pages.free);
    PageSetLeavesRanges(before, k.mem, k.dirs, k.current, virt / PAGE_SIZE, MakeWord(phys, USER_PAGE_FLAGS),
                        free, k.ppa.pages.free, k.owned, k.vacant);
    k.references.Increment(phys);
    return Done(phys);
  }

  // Drops one reference and returns the frame to the pool when the count reaches zero.
  method ReleaseFrame(k: KernelMemory, f: Frame)
    requires k.Valid() && f / ENTRIES in k.references.tables
    requires f !in k.mem && 0 < f < FRAME_LIMIT
    modifies k.ppa, k.ppa.pages, k.ppa.pages.bitmap, k.references
    ensures k.Valid()
    ensures k.references.tables == Stored(old(k.references.tables), f, Released(old(k.references.tables), f))
    ensures k.ppa.pages.free ==
            if Released(old(k.references.tables), f) == 0 then old(k.ppa.pages.free) + {f} else old(k.ppa.pages.free)
  {
    var left := k.references.Decrement(f);
    if left == 0 {
      k.ppa.Free(f * PAGE_SIZE);
    }
  }

  // Unmaps a page and gives its frame back once nobody maps it.
  method RemovePage(k: KernelMemory, virt: Address)
    requires Consistent(k) && virt % PAGE_SIZE == 0 && ProcessPage(virt / PAGE_SIZE)
    requires Walk(k.mem, k.current, virt / PAGE_SIZE) != 0 && |k.dirs| <= SPACE_LIMIT
    modifies k`mem, k.ppa, k.ppa.pages, k.ppa.pages.bitmap, k.references
    ensures Consistent(k)
    ensures PageSet(old(k.mem), k.mem, k.dirs, k.current, virt / PAGE_SIZE, 0)
    ensures var f := FrameOf(old(Walk(k.mem, k.current, virt / PAGE_SIZE)));
            k.ppa.pages.free ==
            if Mappers(k.mem, k.dirs, f) == {} then old(k.ppa.pages.free) + {f} else old(k.ppa.pages.free)
  {
    ghost var before, free, counts := k.mem, k.ppa.pages.free, k.references.tables;
    assert FrameInUse(k.mem, k.current, virt / PAGE_SIZE, free);
    var phys := k.VirtualToPhysical(virt);
    assert phys / PAGE_SIZE == FrameOf(Walk(before, k.current, virt / PAGE_SIZE));
    k.Unmap(virt);
    RemoveMapping(before, k.mem, k.dirs, k.current, virt / PAGE_SIZE, counts, free);
    ReleaseFrame(k, phys / PAGE_SIZE);
    HasMapper(before, k.dirs, k.current, virt / PAGE_SIZE);
    PageSetLeavesRanges(before, k.mem, k.dirs, k.current, virt / PAGE_SIZE, 0, free, k.ppa.pages.free, k.owned,
                        k.vacant);
  }

  lemma HasMapper(mem: Memory, dirs: set<Frame>, d: Frame, p: int)
    requires dirs <= mem.Keys && d in dirs && ProcessPage(p) && Walk(mem, d, p) != 0
    ensures Mappers(mem, dirs, FrameOf(Walk(mem, d, p))) != {}
  {
    assert MapsTo(mem, d, p, FrameOf(Walk(mem, d, p)));
    assert (d, p) in Mappers(mem, dirs, FrameOf(Walk(mem, d, p)));
  }

  // Gives the running process its own writable copy of a page.
  method CopyPage(k: KernelMemory, virt: Address) returns (r: Outcome<Frame>)
    requires Consistent(k) && virt % PAGE_SIZE == 0 && ProcessPage(virt / PAGE_SIZE)
    requires Walk(k.mem, k.current, virt / PAGE_SIZE) != 0 && |k.dirs| <= SPACE_LIMIT
    modifies k`mem, k.ppa, k.ppa.pages, k.ppa.pages.bitmap, k.references
    ensures r.Panic? ==> k.ppa.pages.free == {}
    ensures r.Done? ==> Consistent(k)
    ensures r.Done? ==> r.value in old(k.ppa.pages.free)
    ensures r.Done? ==>
              PageSet(old(k.mem), k.mem, k.dirs, k.current, virt / PAGE_SIZE, MakeWord(r.value, USER_PAGE_FLAGS))
    ensures r.Done? ==>
              var f := FrameOf(old(Walk(k.mem, k.current, virt / PAGE_SIZE)));
              (f in k.ppa.pages.free <==> Mappers(k.mem, k.dirs, f) == {})
  {
    ghost var free := k.ppa.pages.free;
    assert FrameInUse(k.mem, k.current, virt / PAGE_SIZE, free);
    var left := k.VirtualToPhysical(virt) / PAGE_SIZE;
    PageAddress(left);
    assert left == FrameOf(Walk(k.mem, k.current, virt / PAGE_SIZE));
    var phys :- ReplaceFrame(k, virt);
    ghost var more := k.ppa.pages.free + {left};
    k.references.Increment(phys);
    ReleaseFrame(k, left);
    FewerFree(k.mem, k.dirs, more, k.ppa.pages.free, k.owned, k.vacant);
    return Done(phys);
  }

  // A mapped page moves to a frame from the pool; the counts are still to be moved.
  method ReplaceFrame(k: KernelMemory, virt: Address) returns (r: Outcome<Frame>)
    requires Consistent(k) && virt % PAGE_SIZE == 0 && ProcessPage(virt / PAGE_SIZE)
    requires Walk(k.mem, k.current, virt / PAGE_SIZE) != 0 && |k.dirs| <= SPACE_LIMIT
    modifies k`mem, k.ppa, k.ppa.pages, k.ppa.pages.bitmap
    ensures r.Panic? ==> k.ppa.pages.free == {}
    ensures r.Done? ==> k.Valid() && r.value in old(k.ppa.pages.free)
    ensures r.Done? ==>
              PageSet(old(k.mem), k.mem, k.dirs, k.current, virt / PAGE_SIZE, MakeWord(r.value, USER_PAGE_FLAGS))
    ensures r.Done? ==>
              var f := FrameOf(old(Walk(k.mem, k.current, virt / PAGE_SIZE)));
              var up := Incremented(k.references.tables, r.value);
              && 0 < f < FRAME_LIMIT && f !in k.mem && f / ENTRIES in up
              && (Released(up, f) == 0 <==> Mappers(k.mem, k.dirs, f) == {})
              && f !in k.ppa.pages.free
              && FramesOk(k.mem, k.dirs, Stored(up, f, Released(up, f)),
                          if Released(up, f) == 0 then k.ppa.pages.free + {f} else k.ppa.pages.free)
              && Undisturbed(k.mem, k.dirs, k.ppa.pages.free + {f}, k.owned, k.vacant)
  {
    ghost var before, free, counts, page := k.mem, k.ppa.pages.free, k.references.tables, virt / PAGE_SIZE;
    ghost var left := FrameOf(Walk(before, k.current, page));
    assert FrameInUse(k.mem, k.current, page, free);
    var phys :- MapTakenFrame(k, virt, true);
    UserPageWord(phys);
    MappedFramesStay(before, k.mem, k.dirs, free, k.ppa.pages.free, k.current, page);
    ReplaceMapping(before, k.mem, k.dirs, k.current, page, MakeWord(phys, USER_PAGE_FLAGS), counts, free,
                   k.ppa.pages.free);
    HasMapper(before, k.dirs, k.current, page);
    PageSetLeavesRanges(before, k.mem, k.dirs, k.current, page, MakeWord(phys, USER_PAGE_FLAGS), free,
                        k.ppa.pages.free + {left}, k.owned, k.vacant);
    return Done(phys);
  }

  // Of the process area, space d maps the pages from lo up to hi and no others.
  ghost predicate MapsExactly(mem: Memory, d: Frame, lo: int, hi: int)
    requires d in mem
  {
    forall p :: ProcessPage(p) ==> (Walk(mem, d, p) != 0 <==> lo <= p < hi)
  }

  // No page of any space changed, except in the process area of space d.
  ghost predicate OthersKept(before: Memory, after: Memory, dirs: set<Frame>, d: Frame)
    requires dirs <= before.Keys && dirs <= after.Keys
  {
    forall e, p :: e in dirs && 0 <= p < PAGE_LIMIT && !(e == d && ProcessPage(p)) ==>
      Walk(after, e, p) == Walk(before, e, p)
  }

  // What is mapped in the process area of space d was so before, or is new and can be written.
  ghost predicate OwnPages(before: Memory, after: Memory, d: Frame)
    requires d in before && d in after
  {
    forall p :: ProcessPage(p) && Walk(after, d, p) != 0 ==>
      if Walk(before, d, p) == 0 then IsWritable(Walk(after, d, p)) else Walk(after, d, p) == Walk(before, d, p)
  }

  ghost predicate EmptyBelow(mem: Memory, d: Frame, lo: int)
    requires d in mem
  {
    forall p :: ProcessPage(p) && p < lo ==> Walk(mem, d, p) == 0
  }

  ghost predicate EmptyFrom(mem: Memory, d: Frame, hi: int)
    requires d in mem
  {
    forall p :: ProcessPage(p) && hi <= p ==> Walk(mem, d, p) == 0
  }

  ghost predicate Settled(before: Memory, k: KernelMemory, lo: int, hi: int)
    reads k, k.ppa, k.ppa.pages, k.ppa.pages.bitmap, k.references
  {
    && Consistent(k)
    && k.dirs <= before.Keys
    && MapsExactly(k.mem, k.current, lo, hi)
    && OthersKept(before, k.mem, k.dirs, k.current)
    && OwnPages(before, k.mem, k.current)
  }

  // The next page behind the mapped ones.
  method AppendPage(k: KernelMemory, page: int, ghost before: Memory, ghost lo: int) returns (r: Outcome<()>)
    requires ProcessPage(lo) && ProcessPage(page) && lo <= page && Settled(before, k, lo, page)
    requires EmptyFrom(before, k.current, page)
    modifies k`mem, k.ppa, k.ppa.pages, k.ppa.pages.bitmap, k.references
    ensures r.Panic? ==> k.ppa.pages.free == {}
    ensures r.Done? ==> Settled(before, k, lo, page + 1)
  {
    ghost var middle := k.mem;
    PageAddress(page);
    var phys :- AddPage(k, page * PAGE_SIZE);
    UserPageWord(phys);
    PageSetInOneSpace(middle, k.mem, k.dirs, k.current, page, MakeWord(phys, USER_PAGE_FLAGS));
    return Done(());
  }

  // The last of the mapped pages goes away.
  method DropPage(k: KernelMemory, page: int, ghost before: Memory, ghost lo: int)
    requires ProcessPage(lo) && ProcessPage(page) && lo <= page && Settled(before, k, lo, page + 1)
    requires |k.dirs| <= SPACE_LIMIT
    modifies k`mem, k.ppa, k.ppa.pages, k.ppa.pages.bitmap, k.references
    ensures Settled(before, k, lo, page)
    ensures DroppedOnly(old(k.mem), k.mem, k.dirs, k.current, page)
    ensures var f := FrameOf(old(Walk(k.mem, k.current, page)));
            k.ppa.pages.free ==
            if Mappers(k.mem, k.dirs, f) == {} then old(k.ppa.pages.free) + {f} else old(k.ppa.pages.free)
  {
    ghost var middle := k.mem;
    PageAddress(page);
    RemovePage(k, page * PAGE_SIZE);
    PageSetInOneSpace(middle, k.mem, k.dirs, k.current, page, 0);
    OnePageDropped(middle, k.mem, k.dirs, k.current, page);
  }

  lemma OnePageDropped(before: Memory, after: Memory, dirs: set<Frame>, d: Frame, page: int)
    requires dirs <= before.Keys && dirs <= after.Keys && d in dirs && ProcessPage(page)
    requires PageSet(before, after, dirs, d, page, 0) && Walk(before, d, page) != 0
    ensures DroppedOnly(before, after, dirs, d, page)
  {
    PageSetInOneSpace(before, after, dirs, d, page, 0);
    forall h: Frame | h != FrameOf(Walk(before, d, page)) ensures Mappers(after, dirs, h) == Mappers(before, dirs, h) {
      MappersAfterLeaving(before, after, dirs, d, page, 0, h);
    }
  }

  // One page of space d is gone: its other pages stay, and so do the mappers of every other frame.
  ghost predicate DroppedOnly(before: Memory, after: Memory, dirs: set<Frame>, d: Frame, page: int)
    requires dirs <= before.Keys && dirs <= after.Keys && d in dirs && ProcessPage(page)
  {
    && (forall q :: ProcessPage(q) && q != page ==> Walk(after, d, q) == Walk(before, d, q))
    && (forall h: Frame :: h != FrameOf(Walk(before, d, page)) ==> Mappers(after, dirs, h) == Mappers(before, dirs, h))
  }

  // Of the pages from lo up to hi that space d once had, the frames nobody maps any more are free.
  ghost predicate Reclaimed(start: Memory, mem: Memory, dirs: set<Frame>, d: Frame, free: set<int>, lo: int, hi: int)
    requires d in start && dirs <= mem.Keys
  {
    forall q :: ProcessPage(q) && lo <= q < hi ==>
      var f := FrameOf(Walk(start, d, q));
      (Mappers(mem, dirs, f) == {} <==> f in free)
  }

  // The frame of a page that went away is free if and only if nobody else maps it.
  ghost predicate DroppedFrames(before: Memory, after: Memory, dirs: set<Frame>, d: Frame, free: set<int>)
    requires d in before && d in after && dirs <= after.Keys
  {
    forall p :: ProcessPage(p) && Walk(before, d, p) != 0 && Walk(after, d, p) == 0 ==>
      var f := FrameOf(Walk(before, d, p));
      (f in free <==> Mappers(after, dirs, f) == {})
  }

  lemma ReclaimedDrops(
    before: Memory, start: Memory, after: Memory, dirs: set<Frame>, d: Frame, free: set<int>,
    lo: int, end: int, hi: int)
    requires d in before && d in start && d in after && dirs <= after.Keys
    requires OwnPages(before, start, d) && EmptyFrom(before, d, hi)
    requires MapsExactly(start, d, lo, hi) && MapsExactly(after, d, lo, end)
    requires EmptyBelow(before, d, lo) && Reclaimed(start, after, dirs, d, free, end, hi)
    ensures DroppedFrames(before, after, dirs, d, free)
  {
  }

  lemma ReclaimedStep(
    start: Memory, middle: Memory, after: Memory, dirs: set<Frame>, d: Frame,
    pool: set<int>, free: set<int>, free': set<int>, page: int, hi: int)
    requires dirs <= start.Keys && dirs <= middle.Keys && dirs <= after.Keys && d in dirs
    requires FramesInUse(start, dirs, pool) && FramesInUse(middle, dirs, free) && ProcessPage(page)
    requires forall q :: ProcessPage(q) && page <= q < hi ==> Walk(start, d, q) != 0
    requires Walk(middle, d, page) == Walk(start, d, page) != 0 && DroppedOnly(middle, after, dirs, d, page)
    requires Reclaimed(start, middle, dirs, d, free, page + 1, hi)
    requires var f := FrameOf(Walk(start, d, page));
             free' == if Mappers(after, dirs, f) == {} then free + {f} else free
    ensures Reclaimed(start, after, dirs, d, free', page, hi)
  {
    var g := FrameOf(Walk(start, d, page));
    assert FrameInUse(middle, d, page, free);
    forall q | ProcessPage(q) && page <= q < hi
      ensures var f := FrameOf(Walk(start, d, q)); Mappers(after, dirs, f) == {} <==> f in free'
    {
      if q != page {
        assert FrameInUse(start, d, page, pool) && MapsTo(start, d, page, g);
        assert MapsTo(start, d, q, FrameOf(Walk(start, d, q)));
        assert FrameOf(Walk(start, d, q)) != g;
      }
    }
  }

  lemma PageSetInOneSpace(before: Memory, after: Memory, dirs: set<Frame>, d: Frame, p: int, w: Word)
    requires dirs <= before.Keys && dirs <= after.Keys && d in dirs && ProcessPage(p)
    requires PageSet(before, after, dirs, d, p, w)
    ensures OthersKept(before, after, dirs, d)
    ensures forall q :: ProcessPage(q) ==> Walk(after, d, q) == if q == p then w else Walk(before, d, q)
  {
    assert !SharedIndex(p / ENTRIES);
  }

  // The pages of a process area: the image, then as many heap pages as the record says.
  ghost function MappedEnd(pr: Process): int {
    pr.imageEnd / PAGE_SIZE + pr.heapPages
  }

  ghost predicate ProcessOk(mem: Memory, d: Frame, pr: Process)
    requires d in mem
  {
    if pr.imageEnd == 0 then pr == NEW_PROCESS && MapsExactly(mem, d, 0, 0)
    else
      && ImageOk(pr)
      && (if pr.heapBreak == 0 then pr.heapPages == 0 else HeapOk(pr))
      && MapsExactly(mem, d, pr.imageStart / PAGE_SIZE, MappedEnd(pr))
  }

  lemma ProcessKept(before: Memory, after: Memory, d: Frame, pr: Process)
    requires d in before && d in after && ProcessOk(before, d, pr)
    requires forall p :: ProcessPage(p) ==> (Walk(after, d, p) != 0 <==> Walk(before, d, p) != 0)
    ensures ProcessOk(after, d, pr)
  {
  }

  // Sets up the heap of a process that has none yet.
  method StartHeap(k: KernelMemory, pr: Process) returns (r: Outcome<Process>)
    requires Consistent(k) && pr.imageEnd != 0 && ProcessOk(k.mem, k.current, pr)
    modifies k`mem, k.ppa, k.ppa.pages, k.ppa.pages.bitmap, k.references
    ensures r.Panic? ==> k.ppa.pages.free == {}
    ensures r.Done? ==> r.value == Started(pr) && ImageOk(r.value) && HeapOk(r.value)
    ensures r.Done? ==> Settled(old(k.mem), k, pr.imageStart / PAGE_SIZE, MappedEnd(r.value))
  {
    if pr.heapBreak != 0 {
      return Done(pr);
    }
    HeapPageInProcessArea(Started(pr), 0);
    var _ :- AppendPage(k, pr.imageEnd / PAGE_SIZE, k.mem, pr.imageStart / PAGE_SIZE);
    return Done(pr.(heapStart := pr.imageEnd, heapBreak := pr.imageEnd, heapPages := 1));
  }

  // Grows or shrinks the heap to a new break.
  method ResizeHeap(k: KernelMemory, pr: Process, brk: int, ghost before: Memory) returns (r: Outcome<Process>)
    requires ImageOk(pr) && HeapOk(pr) && |k.dirs| <= SPACE_LIMIT
    requires pr.heapStart - PAGE_SIZE <= brk < MAXIMUM_HEAP_BREAK
    requires k.current in before && EmptyBelow(before, k.current, pr.imageStart / PAGE_SIZE)
    requires Settled(before, k, pr.imageStart / PAGE_SIZE, MappedEnd(pr)) && EmptyFrom(before, k.current, MappedEnd(pr))
    modifies k`mem, k.ppa, k.ppa.pages, k.ppa.pages.bitmap, k.references
    ensures r.Panic? ==> k.ppa.pages.free == {}
    ensures r.Done? ==> r.value == Resized(pr, brk) && ImageOk(r.value) && HeapOk(r.value)
    ensures r.Done? ==> Settled(before, k, pr.imageStart / PAGE_SIZE, MappedEnd(r.value))
    ensures r.Done? ==> DroppedFrames(before, k.mem, k.dirs, k.current, k.ppa.pages.free)
  {
    var grown :- GrowHeap(k, pr, brk, before);
    ghost var start := k.mem;
    var pages := ShrinkHeap(k, pr.(heapPages := grown), brk, before);
    ReclaimedDrops(before, start, k.mem, k.dirs, k.current, k.ppa.pages.free, pr.imageStart / PAGE_SIZE,
                   pr.imageEnd / PAGE_SIZE + pages, pr.imageEnd / PAGE_SIZE + grown);
    PagesSettled(pr, brk, grown, pages);
    ResizedPages(pr, brk);
    return Done(pr.(heapBreak := brk, heapPages := pages));
  }

  method MoveHeap(k: KernelMemory, process: Process, amount: Amount) returns (r: Outcome<(Process, (bool, int))>)
    requires Consistent(k) && process.imageEnd != 0 && ProcessOk(k.mem, k.current, process)
    requires KeepsImage(process, amount) && |k.dirs| <= SPACE_LIMIT
    modifies k`mem, k.ppa, k.ppa.pages, k.ppa.pages.bitmap, k.references
    ensures r.Panic? ==> k.ppa.pages.free == {}
    ensures r.Done? ==> r.value.0 == Sbrk(process, amount)
    ensures r.Done? ==> Consistent(k) && ProcessOk(k.mem, k.current, r.value.0)
    ensures r.Done? ==> OthersKept(old(k.mem), k.mem, k.dirs, k.current) && OwnPages(old(k.mem), k.mem, k.current)
    ensures r.Done? ==> BreakMoved(process, r.value.0, amount, r.value.1)
    ensures r.Done? ==> DroppedFrames(old(k.mem), k.mem, k.dirs, k.current, k.ppa.pages.free)
  {
    ghost var before := k.mem;
    SbrkMoves(process, amount);
    var pr :- StartHeap(k, process);
    var brkOld := pr.heapBreak;
    var brkNew := Wrapped(brkOld + amount);
    AcceptedBreakIsExact(brkOld, amount);
    if brkNew >= MAXIMUM_HEAP_BREAK {
      return Done((pr, (false, -1)));
    }
    pr :- ResizeHeap(k, pr, brkNew, before);
    return Done((pr, (true, brkOld)));
  }

  const PT_LOAD := 1

  datatype ProgramHeader = ProgramHeader(kind: int, vaddr: Address, memsz: Address)

  predicate IsLoad(h: ProgramHeader) { h.kind == PT_LOAD }

  // Lowest start and highest end of the load segments, before alignment.
  method FindImageRange(headers: seq<ProgramHeader>) returns (imageStart: Address, imageEnd: Address)
    ensures forall h :: h in headers && IsLoad(h) ==>
              imageStart <= h.vaddr && Wrapped(h.vaddr + h.memsz) <= imageEnd
    ensures imageStart == ADDRESS_LIMIT - 1 || exists h :: h in headers && IsLoad(h) && imageStart == h.vaddr
    ensures imageEnd == 0 || exists h :: h in headers && IsLoad(h) && imageEnd == Wrapped(h.vaddr + h.memsz)
  {
    imageStart, imageEnd := ADDRESS_LIMIT - 1, 0;
    for i := 0 to |headers|
      invariant forall h :: h in headers[..i] && IsLoad(h) ==>
                  imageStart <= h.vaddr && Wrapped(h.vaddr + h.memsz) <= imageEnd
      invariant imageStart == ADDRESS_LIMIT - 1 || exists h :: h in headers && IsLoad(h) && imageStart == h.vaddr
      invariant imageEnd == 0 || exists h :: h in headers && IsLoad(h) && imageEnd == Wrapped(h.vaddr + h.memsz)
    {
      var h := headers[i];
      assert headers[..i + 1] == headers[..i] + [h];
      if !IsLoad(h) {
        continue;
      }
      if h.vaddr < imageStart {
        imageStart := h.vaddr;
      }
      if Wrapped(h.vaddr + h.memsz) > imageEnd {
        imageEnd := Wrapped(h.vaddr + h.memsz);
      }
    }
    assert headers[..|headers|] == headers;
  }

  predicate InSegment(h: ProgramHeader, a: int) { IsLoad(h) && h.vaddr <= a < h.vaddr + h.memsz }

  // Every byte of every load segment lies on a page of the aligned image.
  ghost predicate Covers(pr: Process, headers: seq<ProgramHeader>) {
    forall h, a :: h in headers && InSegment(h, a) ==>
      pr.imageStart / PAGE_SIZE <= a / PAGE_SIZE < pr.imageEnd / PAGE_SIZE
  }

  // The image starts with the page of some load segment and ends with that of another.
  ghost predicate Tight(pr: Process, headers: seq<ProgramHeader>) {
    && (exists h :: h in headers && IsLoad(h) && pr.imageStart == PageAlignDown(h.vaddr))
    && (exists h :: h in headers && IsLoad(h) && pr.imageEnd == PageAlignUp(h.vaddr + h.memsz))
  }

  lemma AlignedPages(lowest: int, highest: int)
    ensures PageAlignDown(lowest) % PAGE_SIZE == 0 && PageAlignUp(highest) % PAGE_SIZE == 0
    ensures PageAlignDown(lowest) / PAGE_SIZE == lowest / PAGE_SIZE
    ensures PageAlignUp(highest) / PAGE_SIZE == (highest - 1) / PAGE_SIZE + 1
    ensures lowest - PAGE_SIZE < PageAlignDown(lowest) <= lowest
    ensures highest <= PageAlignUp(highest) < highest + PAGE_SIZE
  {
  }

  lemma AlignedImage(headers: seq<ProgramHeader>, lowest: Address, highest: Address)
    requires exists h :: h in headers && IsLoad(h)
    requires forall h :: h in headers && IsLoad(h) ==>
               LOWEST_IMAGE <= h.vaddr && h.vaddr + h.memsz <= MAXIMUM_HEAP_BREAK
    requires forall h :: h in headers && IsLoad(h) ==> lowest <= h.vaddr && Wrapped(h.vaddr + h.memsz) <= highest
    requires lowest == ADDRESS_LIMIT - 1 || exists h :: h in headers && IsLoad(h) && lowest == h.vaddr
    requires highest == 0 || exists h :: h in headers && IsLoad(h) && highest == Wrapped(h.vaddr + h.memsz)
    ensures var pr := Process(PageAlignDown(lowest), PageAlignUp(highest), 0, 0, 0);
            ImageOk(pr) && Covers(pr, headers) && Tight(pr, headers)
  {
    forall h | h in headers && IsLoad(h) ensures Wrapped(h.vaddr + h.memsz) == h.vaddr + h.memsz {
    }
    var h :| h in headers && IsLoad(h);
    assert LOWEST_IMAGE <= lowest <= h.vaddr <= highest <= MAXIMUM_HEAP_BREAK;
    AlignedPages(lowest, highest);
  }

  // Maps the pages from page up to end of the running process.
  method MapImage(k: KernelMemory, start: int, end: int, ghost before: Memory) returns (r: Outcome<()>)
    requires ProcessPage(start) && start <= end <= FIRST_RANGE_TABLE * ENTRIES && Settled(before, k, start, start)
    requires EmptyFrom(before, k.current, start)
    modifies k`mem, k.ppa, k.ppa.pages, k.ppa.pages.bitmap, k.references
    ensures r.Panic? ==> k.ppa.pages.free == {}
    ensures r.Done? ==> Settled(before, k, start, end)
  {
    var page := start;
    while page < end
      invariant start <= page <= end && Settled(before, k, start, page)
    {
      var _ :- AppendPage(k, page, before, start);
      page := page + 1;
    }
    return Done(());
  }

  // Adds pages until the break lies within the heap.
  method GrowHeap(k: KernelMemory, pr: Process, brk: int, ghost before: Memory) returns (r: Outcome<int>)
    requires ImageOk(pr) && HeapOk(pr) && brk < MAXIMUM_HEAP_BREAK
    requires Settled(before, k, pr.imageStart / PAGE_SIZE, MappedEnd(pr)) && EmptyFrom(before, k.current, MappedEnd(pr))
    modifies k`mem, k.ppa, k.ppa.pages, k.ppa.pages.bitmap, k.references
    ensures r.Panic? ==> k.ppa.pages.free == {}
    ensures r.Done? ==>
              Settled(before, k, pr.imageStart / PAGE_SIZE, MappedEnd(pr.(heapPages := r.value)))
    ensures r.Done? ==> r.value >= pr.heapPages && brk <= pr.heapStart + r.value * PAGE_SIZE
    ensures r.Done? && r.value > pr.heapPages ==> pr.heapStart + (r.value - 1) * PAGE_SIZE < brk
  {
    var pages := pr.heapPages;
    while brk > pr.heapStart + pages * PAGE_SIZE
      invariant pr.heapPages <= pages
      invariant pages > pr.heapPages ==> pr.heapStart + (pages - 1) * PAGE_SIZE < brk
      invariant Settled(before, k, pr.imageStart / PAGE_SIZE, pr.imageEnd / PAGE_SIZE + pages)
      decreases brk - pages * PAGE_SIZE
    {
      HeapPageInProcessArea(pr, pages);
      var _ :- AppendPage(k, (pr.heapStart + pages * PAGE_SIZE) / PAGE_SIZE, before, pr.imageStart / PAGE_SIZE);
      pages := pages + 1;
    }
    return Done(pages);
  }

  lemma HeapPageInProcessArea(pr: Process, pages: int)
    requires ImageOk(pr) && pr.heapStart == pr.imageEnd && 0 <= pages
    requires pr.heapStart + pages * PAGE_SIZE <= MAXIMUM_HEAP_BREAK
    ensures (pr.heapStart + pages * PAGE_SIZE) / PAGE_SIZE == pr.imageEnd / PAGE_SIZE + pages
    ensures ProcessPage(pr.imageStart / PAGE_SIZE) && ProcessPage(pr.imageEnd / PAGE_SIZE + pages)
    ensures pr.imageStart / PAGE_SIZE <= pr.imageEnd / PAGE_SIZE
  {
  }

  lemma HeapByte(pr: Process, a: int)
    requires ImageOk(pr) && HeapOk(pr) && pr.heapStart <= a < pr.heapBreak
    ensures ProcessPage(a / PAGE_SIZE) && pr.imageStart / PAGE_SIZE <= a / PAGE_SIZE < MappedEnd(pr)
  {
    assert a / PAGE_SIZE < pr.imageEnd / PAGE_SIZE + pr.heapPages;
  }

  // Drops pages while the break leaves a whole page unused.
  method ShrinkHeap(k: KernelMemory, pr: Process, brk: int, ghost before: Memory) returns (pages: int)
    requires ImageOk(pr) && pr.heapStart == pr.imageEnd && 0 <= pr.heapPages && brk >= pr.heapStart - PAGE_SIZE
    requires pr.heapStart + (pr.heapPages - 1) * PAGE_SIZE <= MAXIMUM_HEAP_BREAK && |k.dirs| <= SPACE_LIMIT
    requires Settled(before, k, pr.imageStart / PAGE_SIZE, MappedEnd(pr))
    modifies k`mem, k.ppa, k.ppa.pages, k.ppa.pages.bitmap, k.references
    ensures Settled(before, k, pr.imageStart / PAGE_SIZE, MappedEnd(pr.(heapPages := pages)))
    ensures Reclaimed(old(k.mem), k.mem, k.dirs, k.current, k.ppa.pages.free,
                      pr.imageEnd / PAGE_SIZE + pages, MappedEnd(pr))
    ensures 0 <= pages <= pr.heapPages && pr.heapStart + (pages - 1) * PAGE_SIZE <= brk
    ensures pages < pr.heapPages ==> brk < pr.heapStart + pages * PAGE_SIZE
  {
    pages := pr.heapPages;
    ghost var start, pool := k.mem, k.ppa.pages.free;
    while brk < pr.heapStart + pages * PAGE_SIZE - PAGE_SIZE
      invariant 0 <= pages <= pr.heapPages
      invariant pages < pr.heapPages ==> brk < pr.heapStart + pages * PAGE_SIZE
      invariant ShrunkTo(start, before, k, pr, pr.imageEnd / PAGE_SIZE + pages)
    {
      pages := pages - 1;
      DropLast(k, pages, pr, before, start, pool);
    }
  }

  // The heap lost its pages from end on: the others are as at the start, and unused frames are free.
  ghost predicate ShrunkTo(start: Memory, before: Memory, k: KernelMemory, pr: Process, end: int)
    reads k, k.ppa, k.ppa.pages, k.ppa.pages.bitmap, k.references
  {
    && Settled(before, k, pr.imageStart / PAGE_SIZE, end)
    && k.dirs <= start.Keys
    && (forall q :: ProcessPage(q) && q < end ==> Walk(k.mem, k.current, q) == Walk(start, k.current, q))
    && Reclaimed(start, k.mem, k.dirs, k.current, k.ppa.pages.free, end, MappedEnd(pr))
  }

  // The last heap page, the one at index pages, goes away.
  method DropLast(
    k: KernelMemory, pages: int, pr: Process, ghost before: Memory, ghost start: Memory, ghost pool: set<int>)
    requires ImageOk(pr) && pr.heapStart == pr.imageEnd && 0 <= pages
    requires pr.heapStart + pages * PAGE_SIZE <= MAXIMUM_HEAP_BREAK && |k.dirs| <= SPACE_LIMIT
    requires ShrunkTo(start, before, k, pr, pr.imageEnd / PAGE_SIZE + pages + 1) && FramesInUse(start, k.dirs, pool)
    requires forall q :: ProcessPage(q) && pr.imageEnd / PAGE_SIZE + pages <= q < MappedEnd(pr) ==>
               Walk(start, k.current, q) != 0
    modifies k`mem, k.ppa, k.ppa.pages, k.ppa.pages.bitmap, k.references
    ensures ShrunkTo(start, before, k, pr, pr.imageEnd / PAGE_SIZE + pages)
  {
    HeapPageInProcessArea(pr, pages);
    var page := (pr.heapStart + pages * PAGE_SIZE) / PAGE_SIZE;
    ghost var middle, free := k.mem, k.ppa.pages.free;
    DropPage(k, page, before, pr.imageStart / PAGE_SIZE);
    ReclaimedStep(start, middle, k.mem, k.dirs, k.current, pool, free, k.ppa.pages.free, page, MappedEnd(pr));
  }

  // The break, behind the image at first, moves by the amount if that is a legal place, and the answer is the old one.
  ghost predicate BreakMoved(was: Process, now: Process, amount: Amount, answer: (bool, int)) {
    var brk := if was.heapBreak == 0 then was.imageEnd else was.heapBreak;
    var ok := 0 <= brk + amount < MAXIMUM_HEAP_BREAK;
    && answer == (if ok then (true, brk) else (false, -1))
    && now.heapBreak == (if ok then brk + amount else brk)
    && now.imageStart == was.imageStart && now.heapStart == now.imageEnd == was.imageEnd
    && HeapOk(now) && PagesFollow(if was.heapBreak == 0 then 1 else was.heapPages, now)
  }

  // From n pages on, pages come and go only where the break needs or leaves a whole one.
  ghost predicate PagesFollow(n: int, now: Process) {
    var used, pages := now.heapBreak - now.heapStart, now.heapPages;
    if used > n * PAGE_SIZE then (pages - 1) * PAGE_SIZE < used <= pages * PAGE_SIZE
    else if used < (n - 1) * PAGE_SIZE then (pages - 1) * PAGE_SIZE <= used < pages * PAGE_SIZE
    else pages == n
  }

  // The value-level break does so, and the answer is as the call gives it.
  lemma SbrkMoves(pr: Process, amount: Amount)
    requires ImageOk(pr) && KeepsImage(pr, amount) && if pr.heapBreak == 0 then pr.heapPages == 0 else HeapOk(pr)
    requires pr.imageEnd != 0
    ensures var s := Started(pr);
      BreakMoved(pr, Sbrk(pr, amount), amount,
                 if Wrapped(s.heapBreak + amount) < MAXIMUM_HEAP_BREAK then (true, s.heapBreak) else (false, -1))
  {
    var s := Started(pr);
    AcceptedBreakIsExact(s.heapBreak, amount);
    SbrkKeepsHeap(pr, amount);
  }

  // Growing and then shrinking lands on the specified number of pages; only one of them moves.
  lemma PagesSettled(pr: Process, brk: int, grown: int, pages: int)
    requires HeapOk(pr) && grown >= pr.heapPages && brk <= pr.heapStart + grown * PAGE_SIZE
    requires grown > pr.heapPages ==> pr.heapStart + (grown - 1) * PAGE_SIZE < brk
    requires pages <= grown && pr.heapStart + (pages - 1) * PAGE_SIZE <= brk
    requires pages < grown ==> brk < pr.heapStart + pages * PAGE_SIZE
    ensures pages == PagesFor(pr, brk)
    ensures grown == pr.heapPages || pages == grown
  {
  }

  datatype Request =
    | CreateProcess(kernelStackVirt: Address)
    | Switch(directory: Frame)
    | Load(headers: seq<ProgramHeader>)
    | MoveBreak(amount: Amount)
    | Fork(userStackPages: int, kernelStackVirt: Address)
    | Fault(accessed: Address)
    | AllocMem(size: Address)
    | Unmap(base: Address)
    | MapKernel(virt: Address, phys: Address, override: bool)
    | UnmapKernel(virt: Address)

  // The addresses the kernel itself passes are page-aligned; these are not.
  predicate Misaligned(request: Request) {
    match request
    case CreateProcess(kernelStackVirt) => kernelStackVirt % PAGE_SIZE != 0
    case Fork(_, kernelStackVirt) => kernelStackVirt % PAGE_SIZE != 0
    case MapKernel(virt, phys, _) => virt % PAGE_SIZE != 0 || phys % PAGE_SIZE != 0
    case _ => false
  }

  // How many pages a request for memory asks for.
  function PagesOf(size: Address): nat { Wrapped(PageAlignUp(size)) / PAGE_SIZE }

  // So many pages hold size bytes, and no fewer do.
  predicate Rounded(size: Address, n: nat) { size <= n * PAGE_SIZE < size + PAGE_SIZE }

  // Rounding up passes the end of the address space.
  predicate Unroundable(size: Address) { size > ADDRESS_LIMIT - PAGE_SIZE }

  // There is a run of free pages that holds size bytes.
  ghost predicate Available(rs: seq<Ranges.Range>, size: Address) {
    size != 0 && !Unroundable(size) && exists x, n: nat :: Rounded(size, n) && Ranges.FreeRun(rs, x, n)
  }

  lemma PagesAreRounded(size: Address)
    ensures if Unroundable(size) then PagesOf(size) == 0 else Rounded(size, PagesOf(size))
    ensures PagesOf(size) == 0 <==> size == 0 || Unroundable(size)
  {
  }

  ghost predicate HasRun(rs: seq<Ranges.Range>, n: nat) { exists x :: Ranges.FreeRun(rs, x, n) }

  lemma AvailableAs(rs: seq<Ranges.Range>, size: Address, n: nat)
    requires Rounded(size, n) && n > 0 && !Unroundable(size)
    ensures Available(rs, size) <==> HasRun(rs, n)
  {
    if Available(rs, size) {
      var x, m: nat :| Rounded(size, m) && Ranges.FreeRun(rs, x, m);
      assert m == n;
    }
  }

  predicate InArea(start: int, size: int, a: int) { start <= a < start + size }

  // ----- pages that stay read-only -----

  // A page of the heap behind the one at the end of the image that its process cannot write.
  ghost predicate Frozen(mem: Memory, table: map<Frame, Process>, d: Frame, p: int) {
    && d in table && d in mem && ProcessPage(p)
    && table[d].imageEnd != 0 && table[d].imageEnd < p * PAGE_SIZE
    && Walk(mem, d, p) != 0 && !IsWritable(Walk(mem, d, p))
  }

  // But for those of one process, frozen pages are what they were.
  ghost predicate StayFrozen(
    before: Memory, after: Memory, was: map<Frame, Process>, now: map<Frame, Process>, but: set<Frame>)
  {
    forall d, p :: d !in but && Frozen(before, was, d, p) ==>
      Frozen(after, now, d, p) && Walk(after, d, p) == Walk(before, d, p)
  }

  lemma StayFrozenOn(
    start: Memory, before: Memory, after: Memory,
    first: map<Frame, Process>, was: map<Frame, Process>, now: map<Frame, Process>)
    requires StayFrozen(start, before, first, was, {}) && StayFrozen(before, after, was, now, {})
    ensures StayFrozen(start, after, first, now, {})
  {
    forall d, p | Frozen(start, first, d, p)
      ensures Frozen(after, now, d, p) && Walk(after, d, p) == Walk(start, d, p)
    {
      assert Frozen(before, was, d, p);
    }
  }

  lemma KeptStayFrozen(
    before: Memory, after: Memory, dirs: set<Frame>, was: map<Frame, Process>, now: map<Frame, Process>, d: Frame)
    requires dirs <= before.Keys && dirs <= after.Keys && was.Keys <= dirs
    requires OthersKept(before, after, dirs, d)
    requires forall e :: e in was && e != d ==> e in now && now[e] == was[e]
    ensures StayFrozen(before, after, was, now, {d})
    ensures d in was && was[d].imageEnd == 0 ==> StayFrozen(before, after, was, now, {})
  {
  }

  lemma SameStayFrozen(
    before: Memory, after: Memory, dirs: set<Frame>, was: map<Frame, Process>, now: map<Frame, Process>)
    requires dirs <= before.Keys && dirs <= after.Keys && was.Keys <= dirs
    requires forall e, p :: e in dirs && ProcessPage(p) ==> Walk(after, e, p) == Walk(before, e, p)
    requires forall e :: e in was ==> e in now && now[e] == was[e]
    ensures StayFrozen(before, after, was, now, {})
  {
  }

  lemma CopiedStayFrozen(
    before: Memory, after: Memory, dirs: set<Frame>, table: map<Frame, Process>, d: Frame, accessed: Address, w: Word)
    requires dirs <= before.Keys && dirs <= after.Keys && table.Keys <= dirs && d in table
    requires accessed <= table[d].imageEnd && accessed % PAGE_SIZE == 0 && accessed / PAGE_SIZE < PAGE_LIMIT
    requires ProcessPage(accessed / PAGE_SIZE) && PageSet(before, after, dirs, d, accessed / PAGE_SIZE, w)
    ensures StayFrozen(before, after, table, table, {})
  {
    PageSetInOneSpace(before, after, dirs, d, accessed / PAGE_SIZE, w);
  }

  lemma ForkedStayFrozen(
    before: Memory, after: Memory, dirs: set<Frame>, d: Frame, c: Frame, kernelPage: int,
    was: map<Frame, Process>, now: map<Frame, Process>)
    requires dirs <= before.Keys && dirs <= after.Keys && was.Keys <= dirs && d in dirs && c in after && c !in dirs
    requires KernelPage(kernelPage) && ForkedFrom(before, after, dirs, d, c, kernelPage)
    requires d in was && now == was[c := was[d]]
    ensures StayFrozen(before, after, was, now, {})
  {
    forall e, p | Frozen(before, was, e, p)
      ensures Frozen(after, now, e, p) && Walk(after, e, p) == Walk(before, e, p)
    {
      assert ReadOnly(Walk(before, e, p)) == Walk(before, e, p);
    }
  }

  // A fork freezes the heap of both processes.
  lemma ForkFreezes(
    before: Memory, after: Memory, dirs: set<Frame>, free: set<int>, d: Frame, c: Frame, kernelPage: int,
    now: map<Frame, Process>, p: int)
    requires dirs <= before.Keys && dirs <= after.Keys && d in dirs && c in after
    requires FramesInUse(before, dirs, free) && ForkedFrom(before, after, dirs, d, c, kernelPage)
    requires d in now && c in now && now[c] == now[d] && now[d].imageEnd != 0
    requires ProcessPage(p) && now[d].imageEnd < p * PAGE_SIZE && Walk(before, d, p) != 0
    ensures Frozen(after, now, d, p) && Frozen(after, now, c, p)
  {
    assert FrameInUse(before, d, p, free);
    ReadOnlyKeepsTheRest(Walk(before, d, p));
  }

  // ----- new spaces -----

  const STACK_END := FIRST_RANGE_TABLE * ENTRIES + USER_STACK_PAGES

  // Pages of process areas and ranges are what they were.
  ghost predicate UserPagesKept(before: Memory, after: Memory, dirs: set<Frame>)
    requires dirs <= before.Keys && dirs <= after.Keys
  {
    forall e, q :: e in dirs && (ProcessPage(q) || RangePage(q)) ==> Walk(after, e, q) == Walk(before, e, q)
  }

  // All pages but one are what they were.
  ghost predicate PagesKeptBut(before: Memory, after: Memory, dirs: set<Frame>, p: int)
    requires dirs <= before.Keys && dirs <= after.Keys
  {
    forall e, q :: e in dirs && 0 <= q < PAGE_LIMIT && q != p ==> Walk(after, e, q) == Walk(before, e, q)
  }

  lemma UserPagesAreKept(before: Memory, after: Memory, dirs: set<Frame>, p: int)
    requires dirs <= before.Keys && dirs <= after.Keys && KernelPage(p) && PagesKeptBut(before, after, dirs, p)
    ensures UserPagesKept(before, after, dirs)
  {
  }

  // Space d has a stack page on frame f, and apart from the kernel page nothing else changed.
  ghost predicate StacksMapped(before: Memory, after: Memory, dirs: set<Frame>, d: Frame, kernelPage: int, f: Frame)
    requires dirs <= before.Keys && dirs <= after.Keys
  {
    forall e, q :: e in dirs && 0 <= q < PAGE_LIMIT && q != kernelPage ==>
      Walk(after, e, q) ==
      if e == d && q == STACK_END - 1 then MakeWord(f, USER_PAGE_FLAGS) else Walk(before, e, q)
  }

  // The first thread of space d has a user stack of some pages and a kernel stack.
  ghost predicate HasStacks(
    before: Memory, after: Memory, dirs: set<Frame>, current: Frame, d: Frame, pages: int, kernelPage: int)
    requires current in before && dirs <= after.Keys && d in dirs && KernelPage(kernelPage)
  {
    UserStack(after, d, STACK_END - pages, pages) && KernelPageSet(before, after, dirs, current, kernelPage)
  }

  lemma StackIsOpen(mem: Memory, d: Frame, page: int, n: int)
    requires d in mem && UserStack(mem, d, page, n)
    ensures UserRanges(mem, {d})
  {
  }

  lemma NewIsUnowned(
    mem: Memory, dirs: set<Frame>, free: set<int>, owned: map<(Frame, int), Frame>, vacant: set<(Frame, int)>, d: Frame)
    requires Undisturbed(mem, dirs, free, owned, vacant) && d !in dirs
    ensures forall p :: (d, p) !in owned
  {
    forall p ensures (d, p) !in owned {
      assert (d, p) in owned ==> OwnedPage(mem, dirs, free, (d, p), owned[(d, p)]);
    }
  }

  // The user stack ends where the range reserved for it ends.
  lemma StackStart(pages: int)
    requires 0 <= pages <= USER_STACK_PAGES
    ensures var start := (STACK_END - pages) * PAGE_SIZE;
      && 0 <= start < ADDRESS_LIMIT && start % PAGE_SIZE == 0 && start / PAGE_SIZE == STACK_END - pages
      && RangePage(start / PAGE_SIZE) && start / PAGE_SIZE + pages <= FIRST_KERNEL_TABLE * ENTRIES
  {
  }

  lemma BothStacks(
    m0: Memory, m1: Memory, m2: Memory, dirs: set<Frame>, d0: Frame, d: Frame, kernelPage: int, frames: seq<Frame>)
    requires dirs <= m0.Keys && dirs <= m1.Keys && dirs <= m2.Keys && d0 in dirs && KernelPage(kernelPage)
    requires |frames| == 1
    requires forall e, q :: e in dirs && 0 <= q < PAGE_LIMIT && q != kernelPage ==> Walk(m1, e, q) == Walk(m0, e, q)
    requires KernelPageSet(m0, m1, dirs, d0, kernelPage)
    requires forall e, q :: e in dirs && 0 <= q < PAGE_LIMIT ==>
               Walk(m2, e, q) == if e == d && q == STACK_END - 1 then MakeWord(frames[0], USER_PAGE_FLAGS)
                                 else Walk(m1, e, q)
    ensures StacksMapped(m0, m2, dirs, d, kernelPage, frames[0]) && KernelPageSet(m0, m2, dirs, d0, kernelPage)
  {
  }

  // The kernel stack and the first page of the user stack of a thread in space d.
  method MapStacks(k: KernelMemory, d: Frame, kernelStackVirt: Address) returns (r: Outcome<()>, ghost f: Frame)
    requires k.Valid() && d in k.dirs && KernelPage(kernelStackVirt / PAGE_SIZE)
    modifies k`mem, k.ppa, k.ppa.pages, k.ppa.pages.bitmap
    ensures r.Panic? && kernelStackVirt % PAGE_SIZE == 0 ==> k.ppa.pages.free == {}
    ensures r.Done? ==> k.Valid() && f in old(k.ppa.pages.free) && f !in k.ppa.pages.free
    ensures r.Done? ==> StacksMapped(old(k.mem), k.mem, k.dirs, d, kernelStackVirt / PAGE_SIZE, f)
    ensures r.Done? ==> KernelPageSet(old(k.mem), k.mem, k.dirs, k.current, kernelStackVirt / PAGE_SIZE)
    ensures r.Done? ==> TablesFromPool(old(k.mem), k.mem, old(k.ppa.pages.free), k.ppa.pages.free)
  {
    f := 0;
    var kernelStack := MapKernelStack(k, kernelStackVirt);
    if kernelStack.Panic? {
      return Panic, 0;
    }
    ghost var m1, frames := k.mem, [];
    StackStart(1);
    r, frames := MapUserStack(k, d, (STACK_END - 1) * PAGE_SIZE, 1);
    if r.Panic? {
      return;
    }
    f := frames[0];
    BothStacks(old(k.mem), m1, k.mem, k.dirs, k.current, d, kernelStackVirt / PAGE_SIZE, frames);
  }

  lemma NewSpacePages(
    m0: Memory, m1: Memory, m2: Memory, dirs: set<Frame>, d0: Frame, d: Frame, kernelPage: int, f: Frame)
    requires dirs <= m0.Keys && dirs + {d} <= m1.Keys && dirs + {d} <= m2.Keys
    requires d !in dirs && d0 in dirs && SameTranslations(m0, m1, dirs) && KernelPage(kernelPage)
    requires forall q :: 0 <= q < PAGE_LIMIT ==>
               Walk(m1, d, q) == (if SharedIndex(q / ENTRIES) then Walk(m0, d0, q) else 0)
    requires StacksMapped(m1, m2, dirs + {d}, d, kernelPage, f)
    ensures PagesKeptBut(m0, m2, dirs, kernelPage)
    ensures forall q :: ProcessPage(q) ==> Walk(m2, d, q) == 0
    ensures StackOnly(m2, d, STACK_END - 1, [f])
  {
    forall q | ProcessPage(q) || RangePage(q) ensures Walk(m1, d, q) == 0 {
      assert !SharedIndex(q / ENTRIES);
    }
  }

  // A directory for a new process, with the two stacks of its first thread.
  method DirectoryWithStacks(k: KernelMemory, kernelStackVirt: Address) returns (r: Outcome<Frame>, ghost f: Frame)
    requires k.Valid() && KernelPage(kernelStackVirt / PAGE_SIZE)
    modifies k`mem, k`dirs, k.ppa, k.ppa.pages, k.ppa.pages.bitmap
    ensures r.Panic? && kernelStackVirt % PAGE_SIZE == 0 ==> k.ppa.pages.free == {}
    ensures r.Done? ==> k.Valid() && r.value !in old(k.dirs) && k.dirs == old(k.dirs) + {r.value}
    ensures r.Done? ==> PagesKeptBut(old(k.mem), k.mem, old(k.dirs), kernelStackVirt / PAGE_SIZE)
    ensures r.Done? ==> forall q :: ProcessPage(q) ==> Walk(k.mem, r.value, q) == 0
    ensures r.Done? ==> f in old(k.ppa.pages.free) && StackOnly(k.mem, r.value, STACK_END - 1, [f])
    ensures r.Done? ==> KernelPageSet(old(k.mem), k.mem, k.dirs, k.current, kernelStackVirt / PAGE_SIZE)
    ensures r.Done? ==> TablesFromPool(old(k.mem), k.mem, old(k.ppa.pages.free), k.ppa.pages.free)
  {
    ghost var m0, dirs, d0 := k.mem, k.dirs, k.current;
    f := 0;
    r := InitializePageDirectoryForProcess(k);
    if r.Panic? {
      return;
    }
    ghost var m1 := k.mem;
    var mapped;
    mapped, f := MapStacks(k, r.value, kernelStackVirt);
    if mapped.Panic? {
      return Panic, 0;
    }
    NewSpacePages(m0, m1, k.mem, dirs, d0, r.value, kernelStackVirt / PAGE_SIZE, f);
  }

  // The space of a new process.
  method NewSpace(k: KernelMemory, kernelStackVirt: Address) returns (r: Outcome<Frame>)
    requires Consistent(k) && KernelPage(kernelStackVirt / PAGE_SIZE)
    modifies k`mem, k`dirs, k`vacant, k.ppa, k.ppa.pages, k.ppa.pages.bitmap
    ensures r.Panic? && kernelStackVirt % PAGE_SIZE == 0 ==> k.ppa.pages.free == {}
    ensures r.Done? ==> Consistent(k) && r.value !in old(k.dirs) && k.dirs == old(k.dirs) + {r.value}
    ensures r.Done? ==> PagesKeptBut(old(k.mem), k.mem, old(k.dirs), kernelStackVirt / PAGE_SIZE)
    ensures r.Done? ==> forall q :: ProcessPage(q) ==> Walk(k.mem, r.value, q) == 0
    ensures r.Done? ==>
              HasStacks(old(k.mem), k.mem, k.dirs, k.current, r.value, 1, kernelStackVirt / PAGE_SIZE)
    ensures r.Done? ==> k.vacant == old(k.vacant) + BehindStack(r.value) && forall p :: (r.value, p) !in k.owned
  {
    ghost var before, dirs, free, f := k.mem, k.dirs, k.ppa.pages.free, 0;
    r, f := DirectoryWithStacks(k, kernelStackVirt);
    if r.Panic? {
      return;
    }
    StackIsUsable(k.mem, r.value, STACK_END - 1, [f]);
    StackIsOpen(k.mem, r.value, STACK_END - 1, 1);
    assert k.dirs - dirs == {r.value};
    UserPagesAreKept(before, k.mem, dirs, kernelStackVirt / PAGE_SIZE);
    NewIsUnowned(before, dirs, free, k.owned, k.vacant, r.value);
    NothingMapped(before, k.mem, dirs, k.dirs, k.references.tables, free, k.ppa.pages.free);
    ElsewhereLeavesRanges(before, k.mem, dirs, k.dirs, free, k.ppa.pages.free, k.owned, k.vacant);
    MoreVacant(k.mem, k.dirs, k.ppa.pages.free, k.owned, k.vacant, r.value);
    k.vacant := k.vacant + BehindStack(r.value);
  }

  // The directory of a forked process, with its stacks.
  method ForkedDirectory(k: KernelMemory, userStackPages: int, kernelStackVirt: Address) returns (r: Outcome<Frame>)
    requires k.Valid() && 0 <= userStackPages <= USER_STACK_PAGES && KernelPage(kernelStackVirt / PAGE_SIZE)
    modifies k`mem, k`dirs, k.ppa, k.ppa.pages, k.ppa.pages.bitmap, k.references
    ensures r.Panic? && kernelStackVirt % PAGE_SIZE == 0 ==> k.ppa.pages.free == {}
    ensures r.Done? ==> k.Valid() && k.dirs == old(k.dirs) + {r.value} && r.value !in old(k.mem)
    ensures r.Done? ==>
              ForkedFrom(old(k.mem), k.mem, old(k.dirs), k.current, r.value, kernelStackVirt / PAGE_SIZE)
    ensures r.Done? ==> OwnTables(old(k.mem), k.mem, k.current, r.value)
    ensures r.Done? ==> TablesFromPool(old(k.mem), k.mem, old(k.ppa.pages.free), k.ppa.pages.free)
    ensures r.Done? ==> k.references.tables == CountPages(old(k.references.tables), old(k.mem), k.current, ENTRIES,
                                                          FIRST_RANGE_TABLE * ENTRIES)
    ensures r.Done? ==>
              HasStacks(old(k.mem), k.mem, k.dirs, k.current, r.value, userStackPages, kernelStackVirt / PAGE_SIZE)
    ensures r.Done? ==> UserRanges(k.mem, {r.value})
  {
    ghost var page, stack := STACK_END - userStackPages, [];
    StackStart(userStackPages);
    var start := (STACK_END - userStackPages) * PAGE_SIZE;
    assert start / PAGE_SIZE == page;
    r, stack := ForkCurrentPageDirectory(k, start, userStackPages, kernelStackVirt);
    if r.Panic? {
      return;
    }
    StackIsUsable(k.mem, r.value, page, stack);
    StackIsOpen(k.mem, r.value, page, userStackPages);
    assert ProcessLimit(SELF_TABLE) == FIRST_RANGE_TABLE * ENTRIES;
  }

  // The space of a forked process; its user stack ends where the range reserved for it ends.
  method ForkSpace(k: KernelMemory, userStackPages: int, kernelStackVirt: Address) returns (r: Outcome<Frame>)
    requires Consistent(k) && 0 <= userStackPages <= USER_STACK_PAGES && KernelPage(kernelStackVirt / PAGE_SIZE)
    modifies k`mem, k`dirs, k`vacant, k.ppa, k.ppa.pages, k.ppa.pages.bitmap, k.references
    ensures r.Panic? && kernelStackVirt % PAGE_SIZE == 0 ==> k.ppa.pages.free == {}
    ensures r.Done? ==> Consistent(k) && r.value !in old(k.dirs) && k.dirs == old(k.dirs) + {r.value}
    ensures r.Done? ==>
              ForkedFrom(old(k.mem), k.mem, old(k.dirs), k.current, r.value, kernelStackVirt / PAGE_SIZE)
    ensures r.Done? ==> OwnTables(old(k.mem), k.mem, k.current, r.value)
    ensures r.Done? ==>
              HasStacks(old(k.mem), k.mem, k.dirs, k.current, r.value, userStackPages, kernelStackVirt / PAGE_SIZE)
    ensures r.Done? ==> k.vacant == old(k.vacant) + BehindStack(r.value) && forall p :: (r.value, p) !in k.owned
  {
    ghost var before, dirs, counts, free := k.mem, k.dirs, k.references.tables, k.ppa.pages.free;
    r := ForkedDirectory(k, userStackPages, kernelStackVirt);
    if r.Panic? {
      return;
    }
    var c := r.value;
    NewIsUnowned(before, dirs, free, k.owned, k.vacant, c);
    ForkMapping(before, k.mem, dirs, k.current, c, kernelStackVirt / PAGE_SIZE, counts, free, k.ppa.pages.free);
    ForkLeavesRanges(before, k.mem, dirs, k.current, c, kernelStackVirt / PAGE_SIZE, free, k.ppa.pages.free,
                     k.owned, k.vacant);
    MoreVacant(k.mem, k.dirs, k.ppa.pages.free, k.owned, k.vacant, c);
    k.vacant := k.vacant + BehindStack(c);
  }

  // ----- virtual ranges -----

  // Gives a vacant page of the running process's ranges a frame of its own.
  method MapOwnedPage(k: KernelMemory, page: int) returns (r: Outcome<Frame>)
    requires Consistent(k) && (k.current, page) in k.vacant
    modifies k`mem, k`owned, k`vacant, k.ppa, k.ppa.pages, k.ppa.pages.bitmap
    ensures r.Panic? ==> k.ppa.pages.free == {}
    ensures r.Done? ==> Consistent(k) && r.value in old(k.ppa.pages.free) && k.ppa.pages.free <= old(k.ppa.pages.free)
    ensures r.Done? ==> k.owned == old(k.owned)[(k.current, page) := r.value]
    ensures r.Done? ==> k.vacant == old(k.vacant) - {(k.current, page)} && (k.current, page) !in old(k.owned)
    ensures r.Done? ==> old(k.mem).Keys <= k.mem.Keys
    ensures r.Done? ==> NoneLost(k.mem, old(k.ppa.pages.free) - {r.value}, k.ppa.pages.free)
    ensures r.Done? ==> RangePage(page) && OnlyPages(old(k.mem), k.mem, k.dirs, k.current, page, 1)
  {
    ghost var before, free := k.mem, k.ppa.pages.free;
    assert VacantPage(k.mem, k.dirs, (k.current, page));
    var f :- MapTakenFrame(k, page * PAGE_SIZE, false);
    RangePageMapped(before, k.mem, k.dirs, k.current, page, MakeWord(f, USER_PAGE_FLAGS));
    NothingMapped(before, k.mem, k.dirs, k.dirs, k.references.tables, free, k.ppa.pages.free);
    NotOwnedWhenVacant(before, k.dirs, free, k.owned, k.vacant, (k.current, page));
    PageBecomesOwned(before, k.mem, k.dirs, free, k.ppa.pages.free, k.owned, k.vacant, k.current, page, f);
    k.owned := k.owned[(k.current, page) := f];
    k.vacant := k.vacant - {(k.current, page)};
    return Done(f);
  }

  ghost predicate ProcessPagesKept(before: Memory, after: Memory, dirs: set<Frame>)
    requires dirs <= before.Keys && dirs <= after.Keys
  {
    forall e, q :: e in dirs && ProcessPage(q) ==> Walk(after, e, q) == Walk(before, e, q)
  }

  // No page of any space changed, except n pages of space d from base on.
  ghost predicate OnlyPages(before: Memory, after: Memory, dirs: set<Frame>, d: Frame, base: int, n: int)
    requires dirs <= before.Keys && dirs <= after.Keys
  {
    forall e, q :: e in dirs && 0 <= q < PAGE_LIMIT && !(e == d && base <= q < base + n) ==>
      Walk(after, e, q) == Walk(before, e, q)
  }

  lemma RangePageMapped(before: Memory, after: Memory, dirs: set<Frame>, d: Frame, p: int, w: Word)
    requires dirs <= before.Keys && dirs <= after.Keys && RangePage(p) && PageSet(before, after, dirs, d, p, w)
    ensures OnlyPages(before, after, dirs, d, p, 1)
  {
  }

  lemma OnlyOneMore(before: Memory, middle: Memory, after: Memory, dirs: set<Frame>, d: Frame, base: int, n: nat)
    requires dirs <= before.Keys && dirs <= middle.Keys && dirs <= after.Keys
    requires OnlyPages(before, middle, dirs, d, base, n) && OnlyPages(middle, after, dirs, d, base + n, 1)
    ensures OnlyPages(before, after, dirs, d, base, n + 1)
  {
  }

  lemma OnlyRangePages(before: Memory, after: Memory, dirs: set<Frame>, d: Frame, base: int, n: nat)
    requires dirs <= before.Keys && dirs <= after.Keys && OnlyPages(before, after, dirs, d, base, n)
    requires n > 0 ==> RangePage(base)
    ensures ProcessPagesKept(before, after, dirs)
  {
  }

  lemma NotOwnedWhenVacant(
    mem: Memory, dirs: set<Frame>, free: set<int>, owned: map<(Frame, int), Frame>, vacant: set<(Frame, int)>,
    x: (Frame, int))
    requires Undisturbed(mem, dirs, free, owned, vacant) && x in vacant
    ensures x !in owned
  {
    assert VacantPage(mem, dirs, x);
    assert x in owned ==> OwnedPage(mem, dirs, free, x, owned[x]);
  }

  // The same for a stretch of pages.
  method MapOwnedPages(k: KernelMemory, base: int, n: nat) returns (r: Outcome<()>)
    requires Consistent(k) && Stretch(k.current, base, n) <= k.vacant
    modifies k`mem, k`owned, k`vacant, k.ppa, k.ppa.pages, k.ppa.pages.bitmap
    ensures r.Panic? ==> k.ppa.pages.free == {}
    ensures r.Done? ==> Consistent(k) && OnlyPages(old(k.mem), k.mem, k.dirs, k.current, base, n)
    ensures r.Done? ==>
              Acquired(old(k.owned), k.owned, old(k.vacant), k.vacant, k.current, base, n, old(k.ppa.pages.free))
    ensures r.Done? ==> TablesOrOwned(k.mem, k.owned, old(k.ppa.pages.free), k.ppa.pages.free)
  {
    ghost var owned, vacant, pool := k.owned, k.vacant, k.ppa.pages.free;
    var i := 0;
    while i < n
      invariant i <= n && Consistent(k) && k.ppa.pages.free <= pool
      invariant Acquired(owned, k.owned, vacant, k.vacant, k.current, base, i, pool)
      invariant OnlyPages(old(k.mem), k.mem, k.dirs, k.current, base, i)
      invariant TablesOrOwned(k.mem, k.owned, pool, k.ppa.pages.free)
    {
      assert (k.current, base + i) in Stretch(k.current, base, n) - Stretch(k.current, base, i);
      ghost var more, less, middle, free := k.owned, k.vacant, k.mem, k.ppa.pages.free;
      var f :- MapOwnedPage(k, base + i);
      AcquiredStep(owned, more, vacant, less, k.current, base, i, f, pool);
      OnlyOneMore(old(k.mem), middle, k.mem, k.dirs, k.current, base, i);
      OwnedOneMore(middle, k.mem, more, (k.current, base + i), f, pool, free, k.ppa.pages.free);
      i := i + 1;
    }
    return Done(());
  }

  // The slot of a page in the running directory.
  function TableFor(mem: Memory, d: Frame, page: int): Word
    requires d in mem && 0 <= page < PAGE_LIMIT
  {
    mem[d][page / ENTRIES]
  }

  lemma FreedFrameInUse(mem: Memory, dirs: set<Frame>, free: set<int>, f: Frame)
    requires dirs <= mem.Keys && FramesInUse(mem, dirs, free) && Unmapped(mem, dirs, f)
    ensures FramesInUse(mem, dirs, free + {f})
  {
    forall d, p | d in dirs && ProcessPage(p) ensures FrameInUse(mem, d, p, free + {f}) {
      assert FrameInUse(mem, d, p, free) && !MapsTo(mem, d, p, f);
    }
  }

  // Frees the frame that a page shows; a missing table cannot be read.
  method FreeShown(k: KernelMemory, page: int) returns (r: Outcome<()>)
    requires k.Paged() && RangePage(page) && 0 <= FrameOf(Walk(k.mem, k.current, page)) < FRAME_LIMIT
    modifies k.ppa, k.ppa.pages, k.ppa.pages.bitmap
    ensures k.Paged() && (r.Panic? <==> TableFor(k.mem, k.current, page) == 0)
    ensures k.ppa.pages.free ==
            old(k.ppa.pages.free) + if r.Done? then {FrameOf(Walk(k.mem, k.current, page))} else {}
  {
    if k.mem[k.current][page / ENTRIES] == 0 {
      return Panic;
    }
    var physicalPage := k.VirtualToPhysical(page * PAGE_SIZE);
    k.ppa.Free(physicalPage);
    return Done(());
  }

  lemma OwnedPageShows(
    mem: Memory, dirs: set<Frame>, free: set<int>, owned: map<(Frame, int), Frame>, vacant: set<(Frame, int)>,
    x: (Frame, int))
    requires Undisturbed(mem, dirs, free, owned, vacant) && x in owned
    ensures RangePage(x.1) && x.0 in dirs && TableFor(mem, x.0, x.1) != 0
    ensures FrameOf(Walk(mem, x.0, x.1)) == owned[x] && 0 < owned[x] < FRAME_LIMIT
    ensures owned[x] !in mem && Unmapped(mem, dirs, owned[x])
  {
    assert OwnedPage(mem, dirs, free, x, owned[x]);
    WordParts(owned[x], USER_PAGE_FLAGS);
  }

  // One page of an owner's range; mine says that the range is in use.
  method ReleaseShown(k: KernelMemory, page: int, ghost mine: bool) returns (r: Outcome<()>)
    requires k.Paged() && RangePage(page)
    requires if mine then Consistent(k) && (k.current, page) in k.owned else Walk(k.mem, k.current, page) == 0
    modifies k`owned, k.ppa, k.ppa.pages, k.ppa.pages.bitmap
    ensures k.Paged() && (r.Panic? <==> TableFor(k.mem, k.current, page) == 0)
    ensures mine ==> r.Done? && Consistent(k) && k.owned == old(k.owned) - {(k.current, page)}
    ensures mine ==> k.ppa.pages.free == old(k.ppa.pages.free) + {old(k.owned)[(k.current, page)]}
    ensures !mine ==> k.owned == old(k.owned) && (r.Done? ==> 0 in k.ppa.pages.free)
    ensures old(k.ppa.pages.free) <= k.ppa.pages.free
  {
    ghost var x, free := (k.current, page), k.ppa.pages.free;
    if mine {
      OwnedPageShows(k.mem, k.dirs, free, k.owned, k.vacant, x);
      PageIsReleased(k.mem, k.dirs, free, k.owned, k.vacant, x);
      FreedFrameInUse(k.mem, k.dirs, free, k.owned[x]);
    }
    r := FreeShown(k, page);
    if mine {
      k.owned := k.owned - {x};
    }
  }

  // Where the freeing of a range's pages stands before page base + i.
  ghost predicate Releasing(
    k: KernelMemory, owned: map<(Frame, int), Frame>, pool: set<int>, base: int, i: int, mine: bool)
    reads k, k.ppa, k.ppa.pages, k.ppa.pages.bitmap, k.references
  {
    && k.Paged()
    && if mine then Consistent(k) && GivenBack(owned, k.owned, pool, k.ppa.pages.free, k.current, base, i)
       else k.owned == owned && (i > 0 ==> 0 in k.ppa.pages.free)
  }

  method ReleaseNext(
    k: KernelMemory, base: int, i: nat, ghost owned: map<(Frame, int), Frame>, ghost pool: set<int>, ghost mine: bool)
    returns (r: Outcome<()>)
    requires Releasing(k, owned, pool, base, i, mine) && RangePage(base + i)
    requires if mine then (k.current, base + i) in owned else Walk(k.mem, k.current, base + i) == 0
    modifies k`owned, k.ppa, k.ppa.pages, k.ppa.pages.bitmap
    ensures r.Done? ==> Releasing(k, owned, pool, base, i + 1, mine)
    ensures r.Panic? ==> !mine && Releasing(k, owned, pool, base, i, mine) && TableFor(k.mem, k.current, base + i) == 0
  {
    if mine {
      GivenBackStep(owned, k.owned, pool, k.ppa.pages.free, k.current, base, i);
    }
    r := ReleaseShown(k, base + i, mine);
  }

  /**
   * Frees what the pages of an owner's range show, whether the range is in use or not: its frames in
   * the one case, frame 0 in the other. Reading a missing table ends it.
   */
  method ReleasePages(k: KernelMemory, base: int, n: nat) returns (r: Outcome<()>)
    requires Consistent(k) && 0 < n && RangePage(base) && base + n <= FIRST_KERNEL_TABLE * ENTRIES
    requires Stretch(k.current, base, n) <= k.owned.Keys || Stretch(k.current, base, n) <= k.vacant
    modifies k`owned, k.ppa, k.ppa.pages, k.ppa.pages.bitmap
    ensures k.Paged()
    ensures Stretch(k.current, base, n) <= old(k.owned).Keys ==>
              && r.Done? && Consistent(k)
              && GivenBack(old(k.owned), k.owned, old(k.ppa.pages.free), k.ppa.pages.free, k.current, base, n)
    ensures Stretch(k.current, base, n) <= k.vacant ==>
              && k.owned == old(k.owned) && (r.Done? ==> 0 in k.ppa.pages.free)
              && (TableFor(k.mem, k.current, base) != 0 ==> 0 in k.ppa.pages.free)
  {
    ghost var owned, pool := k.owned, k.ppa.pages.free;
    ghost var mine := (k.current, base) in owned;
    MineOrVacant(k.mem, k.dirs, pool, owned, k.vacant, k.current, base, n);
    var i := 0;
    while i < n
      invariant i <= n && Releasing(k, owned, pool, base, i, mine)
    {
      assert (k.current, base + i) in Stretch(k.current, base, n);
      r := ReleaseNext(k, base, i, owned, pool, mine);
      if r.Panic? {
        return;
      }
      i := i + 1;
    }
    return Done(());
  }

  lemma MineOrVacant(
    mem: Memory, dirs: set<Frame>, free: set<int>, owned: map<(Frame, int), Frame>, vacant: set<(Frame, int)>,
    d: Frame, base: int, n: nat)
    requires Undisturbed(mem, dirs, free, owned, vacant) && 0 < n && d in dirs
    requires Stretch(d, base, n) <= owned.Keys || Stretch(d, base, n) <= vacant
    ensures (d, base) in owned <==> Stretch(d, base, n) <= owned.Keys
    ensures (d, base) !in owned <==> Stretch(d, base, n) <= vacant
    ensures (d, base) !in owned ==> forall x :: x in Stretch(d, base, n) ==> VacantPage(mem, dirs, x)
  {
    assert (d, base) in Stretch(d, base, n);
    if (d, base) in vacant {
      NotOwnedWhenVacant(mem, dirs, free, owned, vacant, (d, base));
    }
  }

  // Unmaps a stretch of range pages.
  method UnmapPages(k: KernelMemory, base: int, n: nat)
    requires k.Paged() && forall p :: base <= p < base + n ==> RangePage(p)
    modifies k`mem, k`vacant
    ensures k.Paged() && k.mem.Keys == old(k.mem).Keys && OnlyPages(old(k.mem), k.mem, k.dirs, k.current, base, n)
    ensures forall e :: e in k.dirs ==> k.mem[e] == old(k.mem)[e]
    ensures old(Consistent(k)) && Stretch(k.current, base, n) !! k.owned.Keys ==> Consistent(k)
    ensures k.vacant == old(k.vacant) + Stretch(k.current, base, n)
  {
    ghost var ok := Consistent(k) && Stretch(k.current, base, n) !! k.owned.Keys;
    var i := 0;
    while i < n
      invariant i <= n && k.Paged() && k.mem.Keys == old(k.mem).Keys
      invariant OnlyPages(old(k.mem), k.mem, k.dirs, k.current, base, i)
      invariant forall e :: e in k.dirs ==> k.mem[e] == old(k.mem)[e]
      invariant ok ==> Consistent(k)
      invariant k.vacant == old(k.vacant) + Stretch(k.current, base, i)
    {
      StretchStep(k.current, base, i);
      assert (k.current, base + i) in Stretch(k.current, base, n);
      ghost var middle := k.mem;
      UnmapPage(k, base + i, ok);
      OnlyOneMore(old(k.mem), middle, k.mem, k.dirs, k.current, base, i);
      i := i + 1;
    }
  }

  method UnmapPage(k: KernelMemory, page: int, ghost ok: bool)
    requires k.Paged() && RangePage(page) && (ok ==> Consistent(k) && (k.current, page) !in k.owned)
    modifies k`mem, k`vacant
    ensures k.Paged() && k.mem.Keys == old(k.mem).Keys && OnlyPages(old(k.mem), k.mem, k.dirs, k.current, page, 1)
    ensures forall e :: e in k.dirs ==> k.mem[e] == old(k.mem)[e]
    ensures ok ==> Consistent(k)
    ensures k.vacant == old(k.vacant) + {(k.current, page)}
  {
    ghost var before, free := k.mem, k.ppa.pages.free;
    k.Unmap(page * PAGE_SIZE);
    RangePageMapped(before, k.mem, k.dirs, k.current, page, 0);
    if ok {
      NothingMapped(before, k.mem, k.dirs, k.dirs, k.references.tables, free, free);
      PageBecomesVacant(before, k.mem, k.dirs, free, k.owned, k.vacant, k.current, page);
    }
    k.vacant := k.vacant + {(k.current, page)};
  }

  // Frees the frames of a range with the owner's flag, and unmaps the pages of any.
  method EmptyRange(k: KernelMemory, range: Ranges.Range) returns (r: Outcome<bool>)
    requires Consistent(k) && range.pages > 0 && RangePage(range.base)
    requires Ranges.End(range) <= FIRST_KERNEL_TABLE * ENTRIES
    requires var xs := Stretch(k.current, range.base, range.pages);
      if !range.used then xs <= k.vacant else if IsOwner(range) then xs <= k.owned.Keys else xs !! k.owned.Keys
    modifies k`mem, k`owned, k`vacant, k.ppa, k.ppa.pages, k.ppa.pages.bitmap
    ensures k.Paged() && k.dirs <= k.mem.Keys
    ensures r.Done? ==> r.value && OnlyPages(old(k.mem), k.mem, k.dirs, k.current, range.base, range.pages)
    ensures range.used || !IsOwner(range) ==> r.Done? && Consistent(k)
    ensures range.used || !IsOwner(range) ==>
              Unmapping(old(ViewOf(k)), ViewOf(k), range)
    ensures !range.used && IsOwner(range) ==> SpoiledAt(old(k.mem), k, range.base, r)
  {
    ghost var xs := Stretch(k.current, range.base, range.pages);
    if !range.used {
      MineOrVacant(k.mem, k.dirs, k.ppa.pages.free, k.owned, k.vacant, k.current, range.base, range.pages);
      NoneOwnedIn(k.mem, k.dirs, k.ppa.pages.free, k.owned, k.vacant, xs);
    }
    if IsOwner(range) {
      var released := ReleasePages(k, range.base, range.pages);
      if released.Panic? {
        return Panic;
      }
    }
    UnmapPages(k, range.base, range.pages);
    return Done(true);
  }

  lemma NoneOwnedIn(
    mem: Memory, dirs: set<Frame>, free: set<int>, owned: map<(Frame, int), Frame>, vacant: set<(Frame, int)>,
    xs: set<(Frame, int)>)
    requires Undisturbed(mem, dirs, free, owned, vacant) && xs <= vacant
    ensures xs !! owned.Keys
  {
    forall x | x in xs ensures x !in owned {
      NotOwnedWhenVacant(mem, dirs, free, owned, vacant, x);
    }
  }

  lemma PoolsAfterUnmap(
    pools: map<Frame, seq<Ranges.Range>>, d: Frame, i: int,
    owned: map<(Frame, int), Frame>, vacant: set<(Frame, int)>,
    owned': map<(Frame, int), Frame>, vacant': set<(Frame, int)>)
    requires PoolsFit(pools, owned, vacant) && d in pools && 0 <= i < |pools[d]|
    requires var range := pools[d][i];
      && vacant' == vacant + Stretch(d, range.base, range.pages)
      && if range.used then owned'.Keys == owned.Keys - Stretch(d, range.base, range.pages) else owned' == owned
    ensures var qs := if pools[d][i].used then Ranges.Freed(pools[d], i) else pools[d];
      PoolsFit(pools[d := qs], owned', vacant')
  {
    if pools[d][i].used {
      PoolsAfterGive(pools, d, i, owned, vacant, owned', vacant');
    } else {
      MoreVacantFits(pools, owned, vacant, Stretch(d, pools[d][i].base, pools[d][i].pages));
      assert pools[d := pools[d]] == pools;
    }
  }

  lemma MoreVacantFits(
    pools: map<Frame, seq<Ranges.Range>>, owned: map<(Frame, int), Frame>, vacant: set<(Frame, int)>,
    more: set<(Frame, int)>)
    requires PoolsFit(pools, owned, vacant)
    ensures PoolsFit(pools, owned, vacant + more)
  {
    forall d | d in pools ensures PoolFits(pools[d], d, owned, vacant + more) {
      assert PoolFits(pools[d], d, owned, vacant);
    }
  }

  // A page of the kernel's ranges that is no one's stack.
  predicate FreshStack(stacks: map<Frame, int>, page: int) {
    KernelStackPage(page) && forall d :: d in stacks ==> stacks[d] != page
  }

  // Frame 0 is free now, or the kernel read a missing table before it came so far.
  ghost predicate SpoiledAt(before: Memory, k: KernelMemory, base: int, r: Outcome<bool>)
    reads k, k.ppa, k.ppa.pages
  {
    && (r.Done? ==> 0 in k.ppa.pages.free)
    && (k.current in before && RangePage(base) && TableFor(before, k.current, base) != 0 ==> 0 in k.ppa.pages.free)
  }

  // What was acquired since v is given back after w.
  lemma TakenUnmapped(v: View, w: View, x: View, base: int, n: nat)
    requires Undisturbed(v.mem, v.dirs, v.free, v.owned, v.vacant) && w.current == v.current
    requires Acquired(v.owned, w.owned, v.vacant, w.vacant, v.current, base, n, v.free)
    requires TablesOrOwned(w.mem, w.owned, v.free, w.free)
    requires Unmapping(w, x, Ranges.Range(base, n, true, OWNER))
    ensures x.owned == v.owned && NoneLost(x.mem, v.free, x.free)
  {
    NothingLost(v.mem, x.mem, v.dirs, v.free, w.free, x.free, v.owned, w.owned, x.owned, v.vacant, w.vacant,
                v.current, base, n);
  }

  // The pages of a range are vacant now; its frames, if it was in use by their owner, are free.
  ghost predicate Unmapping(v: View, w: View, range: Ranges.Range) {
    && SpacesStay(v, w)
    && OnlyPages(v.mem, w.mem, v.dirs, v.current, range.base, range.pages)
    && (forall e :: e in v.dirs ==> w.mem[e] == v.mem[e]) && w.mem.Keys == v.mem.Keys
    && w.vacant == v.vacant + Stretch(v.current, range.base, range.pages)
    && if range.used && IsOwner(range)
       then GivenBack(v.owned, w.owned, v.free, w.free, v.current, range.base, range.pages)
       else w.owned == v.owned && w.free == v.free
  }

  // Space d got a range of n pages from base on, each with a frame of its own from the pool.
  ghost predicate MemoryTaken(
    v: View, w: View, before: map<Frame, seq<Ranges.Range>>, after: map<Frame, seq<Ranges.Range>>, base: int, n: nat)
  {
    var d := v.current;
    && d in before && d in after && after == before[d := after[d]] && RangeTaken(before[d], after[d], base, n)
    && Acquired(v.owned, w.owned, v.vacant, w.vacant, d, base, n, v.free)
    && TablesOrOwned(w.mem, w.owned, v.free, w.free)
    && SpacesStay(v, w) && OnlyPages(v.mem, w.mem, v.dirs, d, base, n)
  }

  // Every process has a kernel stack page and a list of ranges, which tells what its pages show.
  ghost predicate TablesOk(
    keys: set<Frame>, stacks: map<Frame, int>, ranges: map<Frame, seq<Ranges.Range>>, spaces: nat,
    owned: map<(Frame, int), Frame>, vacant: set<(Frame, int)>)
  {
    && stacks.Keys == keys && ranges.Keys == keys
    && KernelStacks(stacks) && spaces <= |keys| + 1
    && PoolsFit(ranges, owned, vacant)
  }

  lemma TablesWithNew(
    keys: set<Frame>, stacks: map<Frame, int>, ranges: map<Frame, seq<Ranges.Range>>, spaces: nat,
    owned: map<(Frame, int), Frame>, vacant: set<(Frame, int)>, d: Frame, page: int)
    requires TablesOk(keys, stacks, ranges, spaces, owned, vacant) && d !in keys && FreshStack(stacks, page)
    requires forall p :: (d, p) !in owned
    ensures TablesOk(keys + {d}, stacks[d := page], ranges[d := NEW_POOL], spaces + 1, owned, vacant + BehindStack(d))
  {
    PoolsWithNew(ranges, d, owned, vacant);
  }

  // ----- what the requests do -----

  // Every byte of the heap can be read, and pages that are new can be written.
  ghost predicate HeapUsable(before: Memory, after: Memory, d: Frame, pr: Process) {
    && d in before && d in after
    && (forall a :: InArea(pr.heapStart, pr.heapBreak - pr.heapStart, a) ==>
          ProcessPage(a / PAGE_SIZE) && UserReads(after, d, a / PAGE_SIZE))
    && (forall p :: ProcessPage(p) && Walk(before, d, p) == 0 && Walk(after, d, p) != 0 ==> UserWrites(after, d, p))
  }

  // Parent and child read what the parent read, and write nothing of it.
  ghost predicate SharedReadOnly(before: Memory, after: Memory, d: Frame, c: Frame) {
    && d in before && d in after && c in after
    && forall p :: ProcessPage(p) ==>
         && (UserReads(after, c, p) <==> UserReads(before, d, p))
         && (UserReads(after, d, p) <==> UserReads(before, d, p))
         && !UserWrites(after, c, p) && !UserWrites(after, d, p)
  }

  // Everything a request can change.
  datatype Snapshot = Snapshot(
    view: View, processes: map<Frame, Process>, ranges: map<Frame, seq<Ranges.Range>>, stacks: map<Frame, int>)

  // A space d with a record, two stacks and the ranges of a new process.
  ghost predicate SpaceMade(s: Snapshot, t: Snapshot, d: Frame, pr: Process, stackPages: int, kernelPage: int) {
    var v, w := s.view, t.view;
    && v.current in v.dirs && v.dirs <= v.mem.Keys && w.dirs <= w.mem.Keys && KernelPage(kernelPage)
    && d !in v.dirs && w.dirs == v.dirs + {d} && w.current == v.current && w.owned == v.owned
    && HasStacks(v.mem, w.mem, w.dirs, v.current, d, stackPages, kernelPage)
    && t.processes == s.processes[d := pr] && t.stacks == s.stacks[d := kernelPage]
    && t.ranges == s.ranges[d := NEW_POOL]
  }

  ghost predicate Created(s: Snapshot, t: Snapshot, d: Frame, kernelPage: int) {
    && SpaceMade(s, t, d, NEW_PROCESS, 1, kernelPage)
    && PagesKeptBut(s.view.mem, t.view.mem, s.view.dirs, kernelPage)
    && forall p :: ProcessPage(p) ==> Walk(t.view.mem, d, p) == 0
  }

  ghost predicate Forked(s: Snapshot, t: Snapshot, c: Frame, stackPages: int, kernelPage: int) {
    var d := s.view.current;
    && d in s.processes && SpaceMade(s, t, c, s.processes[d], stackPages, kernelPage)
    && ForkedFrom(s.view.mem, t.view.mem, s.view.dirs, d, c, kernelPage)
    && OwnTables(s.view.mem, t.view.mem, d, c) && SharedReadOnly(s.view.mem, t.view.mem, d, c)
  }

  // The running process changed its own record and process area only.
  ghost predicate OwnChange(s: Snapshot, t: Snapshot, pr: Process) {
    && SpacesStay(s.view, t.view) && OthersKept(s.view.mem, t.view.mem, s.view.dirs, s.view.current)
    && t == s.(view := s.view.(mem := t.view.mem, free := t.view.free), processes := t.processes)
    && t.processes == s.processes[s.view.current := pr]
  }

  lemma CopiedIs(s: Snapshot, t: Snapshot, accessed: Address)
    requires s.view.current in s.processes && SpacesStay(s.view, t.view)
    requires t == s.(view := s.view.(mem := t.view.mem, free := t.view.free)) && ProcessPage(accessed / PAGE_SIZE)
    requires var pr := s.processes[s.view.current]; pr.imageStart <= accessed <= pr.imageEnd
    requires Walk(s.view.mem, s.view.current, accessed / PAGE_SIZE) != 0
    requires var word, p := Walk(t.view.mem, t.view.current, accessed / PAGE_SIZE), accessed / PAGE_SIZE;
      && UserWrites(t.view.mem, t.view.current, p)
      && PageSet(s.view.mem, t.view.mem, s.view.dirs, s.view.current, p, word)
      && Mappers(t.view.mem, t.view.dirs, FrameOf(word)) == {(s.view.current, p)}
      && LeftFrame(t.view, FrameOf(Walk(s.view.mem, s.view.current, p)))
    ensures Copied(s, t, accessed)
  {
    var p := accessed / PAGE_SIZE;
    PageSetInOneSpace(s.view.mem, t.view.mem, s.view.dirs, s.view.current, p, Walk(t.view.mem, t.view.current, p));
    assert s.processes == s.processes[s.view.current := s.processes[s.view.current]];
  }

  lemma NotCopied(s: Snapshot, accessed: Address)
    requires s.view.current in s.processes && SpacesStay(s.view, s.view) && accessed / PAGE_SIZE < PAGE_LIMIT
    requires var pr := s.processes[s.view.current];
      !(pr.imageStart <= accessed <= pr.imageEnd) || Walk(s.view.mem, s.view.current, accessed / PAGE_SIZE) == 0
    ensures Copied(s, s, accessed)
  {
    assert s.processes == s.processes[s.view.current := s.processes[s.view.current]];
  }

  ghost predicate Loadable(s: Snapshot, headers: seq<ProgramHeader>) {
    && s.view.current in s.processes && s.processes[s.view.current] == NEW_PROCESS
    && (exists h :: h in headers && IsLoad(h))
    && (forall h :: h in headers && IsLoad(h) ==>
          LOWEST_IMAGE <= h.vaddr && h.vaddr + h.memsz <= MAXIMUM_HEAP_BREAK)
  }

  ghost predicate Loaded(s: Snapshot, t: Snapshot, headers: seq<ProgramHeader>, pr: Process) {
    && OwnChange(s, t, pr)
    && pr.heapBreak == 0 && Covers(pr, headers) && Tight(pr, headers)
    && forall h, a :: h in headers && InSegment(h, a) ==>
         ProcessPage(a / PAGE_SIZE) && UserWrites(t.view.mem, t.view.current, a / PAGE_SIZE)
  }

  ghost predicate BreakSet(s: Snapshot, t: Snapshot, amount: Amount, pr: Process, answer: (bool, int)) {
    var d := s.view.current;
    && d in s.processes && OwnChange(s, t, pr)
    && BreakMoved(s.processes[d], pr, amount, answer)
    && OwnPages(s.view.mem, t.view.mem, d) && HeapUsable(s.view.mem, t.view.mem, d, pr)
    && DroppedFrames(s.view.mem, t.view.mem, t.view.dirs, d, t.view.free)
  }

  // A mapped page from the start of the image to its end gets a frame of its own that can be written.
  ghost predicate Copied(s: Snapshot, t: Snapshot, accessed: Address) {
    var v, w, d := s.view, t.view, s.view.current;
    && d in s.processes && OwnChange(s, t, s.processes[d]) && accessed / PAGE_SIZE < PAGE_LIMIT
    && if s.processes[d].imageStart <= accessed <= s.processes[d].imageEnd && Walk(v.mem, d, accessed / PAGE_SIZE) != 0
       then
         && UserWrites(w.mem, d, accessed / PAGE_SIZE)
         && PageSet(v.mem, w.mem, v.dirs, d, accessed / PAGE_SIZE, Walk(w.mem, d, accessed / PAGE_SIZE))
         && ProcessPage(accessed / PAGE_SIZE)
         && Mappers(w.mem, w.dirs, FrameOf(Walk(w.mem, d, accessed / PAGE_SIZE))) == {(d, accessed / PAGE_SIZE)}
         && LeftFrame(w, FrameOf(Walk(v.mem, d, accessed / PAGE_SIZE)))
       else w.mem == v.mem
  }

  // The frame a page left is free if and only if nobody else maps it.
  ghost predicate LeftFrame(w: View, f: Frame)
    requires w.dirs <= w.mem.Keys
  {
    f in w.free <==> Mappers(w.mem, w.dirs, f) == {}
  }

  ghost predicate Given(s: Snapshot, t: Snapshot, size: Address, base: int, n: nat) {
    && Rounded(size, n) && MemoryTaken(s.view, t.view, s.ranges, t.ranges, base, n)
    && t.processes == s.processes && t.stacks == s.stacks
    && AreaOpen(t.view.mem, s.view.current, base * PAGE_SIZE, size)
  }

  lemma GivenIs(s: Snapshot, t: Snapshot, size: Address, base: int, n: nat)
    requires Rounded(size, n) && MemoryTaken(s.view, t.view, s.ranges, t.ranges, base, n)
    requires t.processes == s.processes && t.stacks == s.stacks
    requires AreaOpen(t.view.mem, s.view.current, base * PAGE_SIZE, size)
    ensures Given(s, t, size, base, n)
  {
  }

  // The process can read and write every byte of an area of its ranges.
  ghost predicate AreaOpen(mem: Memory, d: Frame, start: int, size: int) {
    && d in mem
    && forall a :: InArea(start, size, a) ==> RangePage(a / PAGE_SIZE) && UserWrites(mem, d, a / PAGE_SIZE)
  }

  // The range at an address is unmapped and, if it was in use, given back.
  ghost predicate TakenBack(s: Snapshot, t: Snapshot, base: int, i: int) {
    var d := s.view.current;
    && d in s.ranges && 0 <= i < |s.ranges[d]| && s.ranges[d][i].base * PAGE_SIZE == base
    && RangePage(s.ranges[d][i].base) && s.ranges[d][i].pages > 0
    && Unmapping(s.view, t.view, s.ranges[d][i])
    && t.ranges == s.ranges[d := Ranges.Step(s.ranges[d], Ranges.Give(s.ranges[d][i].base))]
    && t.processes == s.processes && t.stacks == s.stacks
  }

  // One kernel page of all spaces becomes w, and nothing else changes.
  ghost predicate KernelSet(s: Snapshot, t: Snapshot, p: int, word: Word -> bool) {
    && SpacesStay(s.view, t.view) && t == s.(view := s.view.(mem := t.view.mem, free := t.view.free))
    && forall e, q :: e in s.view.dirs && 0 <= q < PAGE_LIMIT ==>
         if q == p then word(Walk(t.view.mem, e, q)) else Walk(t.view.mem, e, q) == Walk(s.view.mem, e, q)
  }

  /** What one request does; a request the kernel's callers never make changes nothing. */
  ghost predicate Effect(request: Request, s: Snapshot, t: Snapshot) {
    var d := s.view.current;
    match request
    case CreateProcess(virt) =>
      if FreshStack(s.stacks, virt / PAGE_SIZE) then exists c :: Created(s, t, c, virt / PAGE_SIZE) else t == s
    case Switch(c) => t == if c in s.processes then s.(view := s.view.(current := c)) else s
    case Load(headers) => if Loadable(s, headers) then exists pr :: Loaded(s, t, headers, pr) else t == s
    case MoveBreak(amount) =>
      if d in s.processes && s.processes[d].imageEnd != 0 && KeepsImage(s.processes[d], amount)
      then exists pr, answer :: BreakSet(s, t, amount, pr, answer) else t == s
    case Fork(n, virt) =>
      if d in s.processes && 0 <= n <= USER_STACK_PAGES && FreshStack(s.stacks, virt / PAGE_SIZE)
      then exists c :: Forked(s, t, c, n, virt / PAGE_SIZE) else t == s
    case Fault(accessed) =>
      if && d in s.processes && s.processes[d].imageEnd != 0 && d in s.view.mem
         && accessed % PAGE_SIZE == 0 && accessed / PAGE_SIZE < PAGE_LIMIT
         && s.view.mem[d][accessed / PAGE_SIZE / ENTRIES] != 0
      then Copied(s, t, accessed) else t == s
    case AllocMem(size) =>
      if d in s.processes && d in s.ranges && Available(s.ranges[d], size)
      then exists base, n :: Given(s, t, size, base, n) else t == s
    case Unmap(base) =>
      if d in s.processes && d in s.ranges && exists range :: range in s.ranges[d] && range.base * PAGE_SIZE == base
      then exists i :: TakenBack(s, t, base, i) else t == s
    case MapKernel(virt, phys, override) =>
      var p := virt / PAGE_SIZE;
      if KernelPage(p) && d in s.view.mem && (override || Walk(s.view.mem, d, p) == 0)
      then KernelSet(s, t, p, w => FrameOf(w) == phys / PAGE_SIZE && KernelWord(w)) else SameSpaces(s, t)
    case UnmapKernel(virt) =>
      if KernelPage(virt / PAGE_SIZE) then KernelSet(s, t, virt / PAGE_SIZE, w => w == 0) else t == s
  }

  // A new space leaves frozen pages alone.
  lemma NewSpaceFreezes(request: Request, s: Snapshot, t: Snapshot)
    requires Effect(request, s, t) && Sane(s) && Sane(t) && (request.CreateProcess? || request.Fork?)
    ensures StayFrozen(s.view.mem, t.view.mem, s.processes, t.processes, {})
  {
    if t != s {
      match request
      case CreateProcess(virt) =>
        var c :| Created(s, t, c, virt / PAGE_SIZE);
        UserPagesAreKept(s.view.mem, t.view.mem, s.view.dirs, virt / PAGE_SIZE);
        SameStayFrozen(s.view.mem, t.view.mem, s.view.dirs, s.processes, t.processes);
      case Fork(n, virt) =>
        var c :| Forked(s, t, c, n, virt / PAGE_SIZE);
        ForkedStayFrozen(s.view.mem, t.view.mem, s.view.dirs, s.view.current, c, virt / PAGE_SIZE, s.processes,
                         t.processes);
    }
  }

  // So does a change of the running process's own pages, except for one that moves the break.
  lemma OwnChangeFreezes(request: Request, s: Snapshot, t: Snapshot)
    requires Effect(request, s, t) && Sane(s) && Sane(t) && (request.Load? || request.MoveBreak? || request.Fault?)
    ensures StayFrozen(s.view.mem, t.view.mem, s.processes, t.processes,
                       if request.MoveBreak? then {s.view.current} else {})
  {
    var v, w, d := s.view, t.view, s.view.current;
    if t != s {
      match request
      case Load(headers) =>
        var pr :| Loaded(s, t, headers, pr);
        KeptStayFrozen(v.mem, w.mem, v.dirs, s.processes, t.processes, d);
      case MoveBreak(amount) =>
        var pr, answer :| BreakSet(s, t, amount, pr, answer);
        KeptStayFrozen(v.mem, w.mem, v.dirs, s.processes, t.processes, d);
      case Fault(accessed) =>
        if w.mem != v.mem {
          CopiedStayFrozen(v.mem, w.mem, v.dirs, s.processes, d, accessed, Walk(w.mem, d, accessed / PAGE_SIZE));
        }
    }
  }

  /** A request leaves frozen pages alone, except for one that moves the break of their process. */
  lemma EffectFreezes(request: Request, s: Snapshot, t: Snapshot)
    requires Effect(request, s, t) && Sane(s) && Sane(t)
    ensures StayFrozen(s.view.mem, t.view.mem, s.processes, t.processes,
                       if request.MoveBreak? then {s.view.current} else {})
  {
    var v, w, d := s.view, t.view, s.view.current;
    if request.CreateProcess? || request.Fork? {
      NewSpaceFreezes(request, s, t);
    } else if request.Load? || request.MoveBreak? || request.Fault? {
      OwnChangeFreezes(request, s, t);
    } else if t != s {
      if request.AllocMem? {
        var base, n :| Given(s, t, request.size, base, n);
        OnlyRangePages(v.mem, w.mem, v.dirs, d, base, n);
      } else if request.Unmap? {
        var i :| TakenBack(s, t, request.base, i);
        OnlyRangePages(v.mem, w.mem, v.dirs, d, s.ranges[d][i].base, s.ranges[d][i].pages);
      }
      SameStayFrozen(v.mem, w.mem, v.dirs, s.processes, t.processes);
    }
  }

  lemma ForkFreezesHeap(s: Snapshot, t: Snapshot, c: Frame, stackPages: int, kernelPage: int)
    requires Forked(s, t, c, stackPages, kernelPage) && FramesInUse(s.view.mem, s.view.dirs, s.view.free)
    ensures var d, pr := s.view.current, s.processes[s.view.current];
      forall p :: ProcessPage(p) && pr.imageEnd != 0 && pr.imageEnd < p * PAGE_SIZE && Walk(s.view.mem, d, p) != 0 ==>
        Frozen(t.view.mem, t.processes, d, p) && Frozen(t.view.mem, t.processes, c, p)
  {
    var d, pr := s.view.current, s.processes[s.view.current];
    forall p | ProcessPage(p) && pr.imageEnd != 0 && pr.imageEnd < p * PAGE_SIZE && Walk(s.view.mem, d, p) != 0
      ensures Frozen(t.view.mem, t.processes, d, p) && Frozen(t.view.mem, t.processes, c, p)
    {
      ForkFreezes(s.view.mem, t.view.mem, s.view.dirs, s.view.free, d, c, kernelPage, t.processes, p);
    }
  }

  // The states of a run: each follows from the one before by the next request.
  ghost predicate Traced(requests: seq<Request>, trace: seq<Snapshot>) {
    && 0 < |trace| <= |requests| + 1
    && (forall i {:trigger StepAt(requests, trace, i)} :: 0 <= i < |trace| - 1 ==> StepAt(requests, trace, i))
    && (forall i :: 0 <= i < |trace| ==> Sane(trace[i]))
  }

  ghost predicate StepAt(requests: seq<Request>, trace: seq<Snapshot>, i: int)
    requires 0 <= i < |trace| - 1 && i < |requests|
  {
    Effect(requests[i], trace[i], trace[i + 1])
  }

  // Every process has a space.
  ghost predicate Sane(s: Snapshot) { s.processes.Keys <= s.view.dirs <= s.view.mem.Keys }

  /** Over a run that moves no break, the frozen pages of all processes stay what they are. */
  lemma {:induction false} RunStaysFrozen(requests: seq<Request>, trace: seq<Snapshot>, n: nat)
    requires Traced(requests, trace) && n < |trace| && forall i :: 0 <= i < n ==> !requests[i].MoveBreak?
    ensures StayFrozen(trace[0].view.mem, trace[n].view.mem, trace[0].processes, trace[n].processes, {})
  {
    if n > 0 {
      RunStaysFrozen(requests, trace, n - 1);
      assert StepAt(requests, trace, n - 1);
      EffectFreezes(requests[n - 1], trace[n - 1], trace[n]);
      StayFrozenOn(trace[0].view.mem, trace[n - 1].view.mem, trace[n].view.mem, trace[0].processes,
                   trace[n - 1].processes, trace[n].processes);
    }
  }

  lemma LongerTrace(requests: seq<Request>, trace: seq<Snapshot>, t: Snapshot)
    requires Traced(requests, trace) && |trace| <= |requests|
    requires Effect(requests[|trace| - 1], trace[|trace| - 1], t) && Sane(t)
    ensures Traced(requests, trace + [t])
  {
    forall i | 0 <= i < |trace| ensures StepAt(requests, trace + [t], i) {
      assert i < |trace| - 1 ==> StepAt(requests, trace, i);
    }
  }

  // No translation and no record changed.
  ghost predicate SameSpaces(s: Snapshot, t: Snapshot) {
    && t == s.(view := s.view.(mem := t.view.mem, free := t.view.free))
    && s.view.dirs <= s.view.mem.Keys && s.view.dirs <= t.view.mem.Keys
    && SameTranslations(s.view.mem, t.view.mem, s.view.dirs)
  }

  // The pages of every process are those its record says.
  ghost predicate RecordsOk(mem: Memory, dirs: set<Frame>, processes: map<Frame, Process>) {
    processes.Keys <= dirs <= mem.Keys && forall d :: d in processes ==> ProcessOk(mem, d, processes[d])
  }

  // A new space with an empty process area leaves the records of the processes right.
  lemma RecordsKept(
    before: Memory, after: Memory, dirs: set<Frame>, dirs': set<Frame>, processes: map<Frame, Process>, d: Frame)
    requires RecordsOk(before, dirs, processes) && dirs <= dirs' <= after.Keys && UserPagesKept(before, after, dirs)
    requires d in dirs' && forall p :: ProcessPage(p) ==> Walk(after, d, p) == 0
    ensures RecordsOk(after, dirs', processes) && ProcessOk(after, d, NEW_PROCESS)
  {
    forall e | e in processes ensures ProcessOk(after, e, processes[e]) {
      ProcessKept(before, after, e, processes[e]);
    }
  }

  lemma RecordsWithNew(mem: Memory, dirs: set<Frame>, processes: map<Frame, Process>, d: Frame, pr: Process)
    requires RecordsOk(mem, dirs, processes) && d in dirs && ProcessOk(mem, d, pr)
    ensures RecordsOk(mem, dirs, processes[d := pr]) && processes[d := pr].Keys == processes.Keys + {d}
  {
  }

  class ProcessTable {
    const k: KernelMemory
    var processes: map<Frame, Process>
    var ranges: map<Frame, seq<Ranges.Range>>
    var stacks: map<Frame, int>

    ghost predicate Tabled()
      reads this, k
    {
      TablesOk(processes.Keys, stacks, ranges, |k.dirs|, k.owned, k.vacant)
    }

    ghost predicate Recorded(mem: Memory)
      reads this, k
    {
      RecordsOk(mem, k.dirs, processes)
    }

    ghost predicate Valid()
      reads this, k, k.ppa, k.ppa.pages, k.ppa.pages.bitmap, k.references
    {
      Consistent(k) && Recorded(k.mem) && Tabled()
    }

    constructor (memory: KernelMemory)
      requires Consistent(memory) && |memory.dirs| == 1
      ensures Valid() && k == memory && processes == map[]
    {
      k, processes, ranges, stacks := memory, map[], map[], map[];
    }

    /** The kernel stacks leave room for fewer spaces than the counts could miss. */
    lemma FewSpaces()
      requires Valid()
      ensures |k.dirs| <= 64257 <= SPACE_LIMIT
    {
      KernelStacksBoundSpaces(stacks);
      assert |stacks.Keys| == |stacks| && |processes.Keys| == |processes|;
    }

    // Sets the running process's record after its own pages changed since the moment s.
    method SetRecord(pr: Process, ghost s: Snapshot)
      requires Consistent(k) && SpacesStay(s.view, ViewOf(k)) && k.current in processes
      requires Now() == s.(view := s.view.(mem := k.mem, free := k.ppa.pages.free))
      requires Recorded(s.view.mem) && Tabled()
      requires OthersKept(s.view.mem, k.mem, k.dirs, k.current) && ProcessOk(k.mem, k.current, pr)
      modifies `processes
      ensures Valid() && processes == old(processes)[k.current := pr] && OwnChange(s, Now(), pr)
    {
      forall d | d in processes && d != k.current ensures ProcessOk(k.mem, d, processes[d]) {
        ProcessKept(s.view.mem, k.mem, d, processes[d]);
      }
      assert processes[k.current := pr].Keys == processes.Keys;
      processes := processes[k.current := pr];
    }

    // A space was added, and the processes are as they were.
    ghost predicate SpaceAdded(d: Frame, pr: Process, vacant: set<(Frame, int)>)
      reads this, k, k.ppa, k.ppa.pages, k.ppa.pages.bitmap, k.references
    {
      && Consistent(k) && d in k.dirs && d !in processes && Recorded(k.mem) && ProcessOk(k.mem, d, pr)
      && TablesOk(processes.Keys, stacks, ranges, |k.dirs| - 1, k.owned, vacant) && k.vacant == vacant + BehindStack(d)
      && forall p :: (d, p) !in k.owned
    }

    // Adds the record, the ranges and the stack of a new process.
    method Register(d: Frame, pr: Process, kernelStackPage: int, ghost vacant: set<(Frame, int)>)
      requires SpaceAdded(d, pr, vacant) && FreshStack(stacks, kernelStackPage)
      modifies `processes, `ranges, `stacks
      ensures Valid()
      ensures processes == old(processes)[d := pr] && stacks == old(stacks)[d := kernelStackPage]
      ensures ranges == old(ranges)[d := NEW_POOL]
    {
      TablesWithNew(processes.Keys, stacks, ranges, |k.dirs| - 1, k.owned, vacant, d, kernelStackPage);
      RecordsWithNew(k.mem, k.dirs, processes, d, pr);
      processes, ranges, stacks := processes[d := pr], ranges[d := NEW_POOL], stacks[d := kernelStackPage];
    }

    // A space for a new process, not registered yet.
    method AddSpace(kernelStackVirt: Address) returns (r: Outcome<Frame>)
      requires Valid() && KernelPage(kernelStackVirt / PAGE_SIZE)
      modifies k`mem, k`dirs, k`vacant, k.ppa, k.ppa.pages, k.ppa.pages.bitmap
      ensures r.Panic? && kernelStackVirt % PAGE_SIZE == 0 ==> k.ppa.pages.free == {}
      ensures r.Done? ==> SpaceAdded(r.value, NEW_PROCESS, old(k.vacant)) && k.owned == old(k.owned)
      ensures r.Done? ==> r.value !in old(k.dirs) && k.dirs == old(k.dirs) + {r.value}
      ensures r.Done? ==> PagesKeptBut(old(k.mem), k.mem, old(k.dirs), kernelStackVirt / PAGE_SIZE)
      ensures r.Done? ==>
              HasStacks(old(k.mem), k.mem, k.dirs, k.current, r.value, 1, kernelStackVirt / PAGE_SIZE)
    {
      ghost var before, dirs := k.mem, k.dirs;
      r := NewSpace(k, kernelStackVirt);
      if r.Done? {
        UserPagesAreKept(before, k.mem, dirs, kernelStackVirt / PAGE_SIZE);
        RecordsKept(before, k.mem, dirs, k.dirs, processes, r.value);
      }
    }

    // A new process, with the stacks of its first thread.
    method CreateProcess(kernelStackVirt: Address) returns (r: Outcome<Frame>)
      requires Valid() && FreshStack(stacks, kernelStackVirt / PAGE_SIZE)
      modifies this, k`mem, k`dirs, k`vacant, k.ppa, k.ppa.pages, k.ppa.pages.bitmap
      ensures r.Panic? && kernelStackVirt % PAGE_SIZE == 0 ==> k.ppa.pages.free == {}
      ensures r.Done? ==> Valid() && Created(old(Now()), Now(), r.value, kernelStackVirt / PAGE_SIZE)
    {
      ghost var vacant := k.vacant;
      r := AddSpace(kernelStackVirt);
      if r.Panic? {
        return;
      }
      Register(r.value, NEW_PROCESS, kernelStackVirt / PAGE_SIZE, vacant);
    }

    // A copy of the running process, which shares its process area until one of them writes.
    method Fork(userStackPages: int, kernelStackVirt: Address) returns (r: Outcome<Frame>)
      requires Valid() && k.current in processes && 0 <= userStackPages <= USER_STACK_PAGES
      requires FreshStack(stacks, kernelStackVirt / PAGE_SIZE)
      modifies this, k`mem, k`dirs, k`vacant, k.ppa, k.ppa.pages, k.ppa.pages.bitmap, k.references
      ensures r.Panic? && kernelStackVirt % PAGE_SIZE == 0 ==> k.ppa.pages.free == {}
      ensures r.Done? ==>
                Valid() && Forked(old(Now()), Now(), r.value, userStackPages, kernelStackVirt / PAGE_SIZE)
    {
      ghost var before, dirs, free, vacant := k.mem, k.dirs, k.ppa.pages.free, k.vacant;
      r := AddForkedSpace(userStackPages, kernelStackVirt);
      if r.Panic? {
        return;
      }
      Register(r.value, processes[k.current], kernelStackVirt / PAGE_SIZE, vacant);
      ForkAccess(before, dirs, free, r.value, kernelStackVirt / PAGE_SIZE);
    }

    lemma ForkAccess(before: Memory, dirs: set<Frame>, free: set<int>, c: Frame, kernelPage: int)
      requires Valid() && WellFormed(before, dirs) && FramesInUse(before, dirs, free)
      requires k.current in dirs && dirs <= k.dirs && c in k.dirs
      requires ForkedFrom(before, k.mem, dirs, k.current, c, kernelPage)
      ensures SharedReadOnly(before, k.mem, k.current, c)
    {
      forall p | ProcessPage(p)
        ensures UserReads(k.mem, c, p) <==> UserReads(before, k.current, p)
        ensures UserReads(k.mem, k.current, p) <==> UserReads(before, k.current, p)
        ensures !UserWrites(k.mem, c, p) && !UserWrites(k.mem, k.current, p)
      {
        assert FrameInUse(before, k.current, p, free);
        ReadOnlyKeepsTheRest(Walk(before, k.current, p));
        UserAccess(before, dirs, k.current, p);
        PageAccess(k.current, p);
        PageAccess(c, p);
      }
    }

    // A space forked from the running process's, not registered yet.
    method AddForkedSpace(userStackPages: int, kernelStackVirt: Address) returns (r: Outcome<Frame>)
      requires Valid() && k.current in processes && 0 <= userStackPages <= USER_STACK_PAGES
      requires KernelPage(kernelStackVirt / PAGE_SIZE)
      modifies k`mem, k`dirs, k`vacant, k.ppa, k.ppa.pages, k.ppa.pages.bitmap, k.references
      ensures r.Panic? && kernelStackVirt % PAGE_SIZE == 0 ==> k.ppa.pages.free == {}
      ensures r.Done? ==> SpaceAdded(r.value, processes[k.current], old(k.vacant)) && k.owned == old(k.owned)
      ensures r.Done? ==> r.value !in old(k.dirs) && k.dirs == old(k.dirs) + {r.value}
      ensures r.Done? ==>
                ForkedFrom(old(k.mem), k.mem, old(k.dirs), k.current, r.value, kernelStackVirt / PAGE_SIZE)
      ensures r.Done? ==> OwnTables(old(k.mem), k.mem, k.current, r.value)
      ensures r.Done? ==>
                HasStacks(old(k.mem), k.mem, k.dirs, k.current, r.value, userStackPages, kernelStackVirt / PAGE_SIZE)
    {
      ghost var before, dirs, free := k.mem, k.dirs, k.ppa.pages.free;
      r := ForkSpace(k, userStackPages, kernelStackVirt);
      if r.Done? {
        ForkedProcesses(before, dirs, free, r.value, kernelStackVirt / PAGE_SIZE);
      }
    }

    lemma ForkedProcesses(before: Memory, dirs: set<Frame>, free: set<int>, c: Frame, kernelPage: int)
      requires dirs <= before.Keys && dirs + {c} <= k.mem.Keys && k.current in dirs && c !in dirs
      requires FramesInUse(before, dirs, free) && KernelPage(kernelPage)
      requires ForkedFrom(before, k.mem, dirs, k.current, c, kernelPage)
      requires k.current in processes && processes.Keys <= dirs
      requires forall d :: d in processes ==> ProcessOk(before, d, processes[d])
      ensures forall d :: d in processes ==> ProcessOk(k.mem, d, processes[d])
      ensures ProcessOk(k.mem, c, processes[k.current])
    {
      forall d | d in processes ensures ProcessOk(k.mem, d, processes[d]) {
        ForkedProcess(before, dirs, free, c, kernelPage, d, d);
      }
      ForkedProcess(before, dirs, free, c, kernelPage, c, k.current);
    }

    lemma ForkedProcess(
      before: Memory, dirs: set<Frame>, free: set<int>, c: Frame, kernelPage: int, d: Frame, o: Frame)
      requires dirs <= before.Keys && dirs + {c} <= k.mem.Keys && k.current in dirs && c !in dirs
      requires FramesInUse(before, dirs, free) && KernelPage(kernelPage)
      requires ForkedFrom(before, k.mem, dirs, k.current, c, kernelPage)
      requires o in processes && o in dirs && d in dirs + {c} && o == (if d == c then k.current else d)
      requires ProcessOk(before, o, processes[o])
      ensures ProcessOk(k.mem, d, processes[o])
    {
      forall p | ProcessPage(p) ensures Walk(k.mem, d, p) != 0 <==> Walk(before, o, p) != 0 {
        assert FrameInUse(before, o, p, free);
        ReadOnlyKeepsTheRest(Walk(before, o, p));
      }
    }

    // Pages that were not there before can be written.
    lemma NewPagesUsable(before: Memory, p: int)
      requires Valid() && k.current in before && OwnPages(before, k.mem, k.current) && ProcessPage(p)
      requires Walk(before, k.current, p) == 0 && Walk(k.mem, k.current, p) != 0
      ensures UserWrites(k.mem, k.current, p)
    {
      PageAccess(k.current, p);
    }

    // The process can read exactly what is mapped for it, and write it where the page says so.
    lemma PageAccess(d: Frame, p: int)
      requires Valid() && d in k.dirs && (ProcessPage(p) || RangePage(p))
      ensures UserReads(k.mem, d, p) <==> Walk(k.mem, d, p) != 0
      ensures UserWrites(k.mem, d, p) <==> Walk(k.mem, d, p) != 0 && IsWritable(Walk(k.mem, d, p))
    {
      UserAccess(k.mem, k.dirs, d, p);
      if ProcessPage(p) {
        assert FrameInUse(k.mem, d, p, k.ppa.pages.free);
      } else {
        assert UserWord(Walk(k.mem, d, p));
      }
    }

    lemma ImageUsable(before: Memory, headers: seq<ProgramHeader>)
      requires Valid() && k.current in before && OwnPages(before, k.mem, k.current) && EmptyFrom(before, k.current, 0)
      requires k.current in processes && processes[k.current].imageEnd != 0 && Covers(processes[k.current], headers)
      ensures forall h, a :: h in headers && InSegment(h, a) ==>
                ProcessPage(a / PAGE_SIZE) && UserWrites(k.mem, k.current, a / PAGE_SIZE)
    {
      forall h, a | h in headers && InSegment(h, a)
        ensures ProcessPage(a / PAGE_SIZE) && UserWrites(k.mem, k.current, a / PAGE_SIZE)
      {
        HeapPageInProcessArea(Started(processes[k.current]), 0);
        NewPagesUsable(before, a / PAGE_SIZE);
      }
    }

    lemma HeapIsUsable(before: Memory)
      requires Valid() && k.current in before && OwnPages(before, k.mem, k.current)
      requires k.current in processes && processes[k.current].imageEnd != 0 && processes[k.current].heapBreak != 0
      ensures HeapUsable(before, k.mem, k.current, processes[k.current])
    {
      var pr := processes[k.current];
      forall a | InArea(pr.heapStart, pr.heapBreak - pr.heapStart, a)
        ensures ProcessPage(a / PAGE_SIZE) && UserReads(k.mem, k.current, a / PAGE_SIZE)
      {
        HeapByte(pr, a);
        PageAccess(k.current, a / PAGE_SIZE);
      }
      forall p | ProcessPage(p) && Walk(before, k.current, p) == 0 && Walk(k.mem, k.current, p) != 0
        ensures UserWrites(k.mem, k.current, p)
      {
        NewPagesUsable(before, p);
      }
    }

    // Loads the segments of an executable into the empty process area of the running process.
    method LoadLoadSegment(headers: seq<ProgramHeader>) returns (r: Outcome<()>)
      requires Valid() && k.current in processes && processes[k.current] == NEW_PROCESS
      requires exists h :: h in headers && IsLoad(h)
      requires forall h :: h in headers && IsLoad(h) ==>
                 LOWEST_IMAGE <= h.vaddr && h.vaddr + h.memsz <= MAXIMUM_HEAP_BREAK
      modifies `processes, k`mem, k.ppa, k.ppa.pages, k.ppa.pages.bitmap, k.references
      ensures r.Panic? ==> k.ppa.pages.free == {}
      ensures r.Done? ==> Valid() && k.current in processes
      ensures r.Done? ==> Loaded(old(Now()), Now(), headers, processes[k.current])
    {
      ghost var s := Now();
      var lowest, highest := FindImageRange(headers);
      AlignedImage(headers, lowest, highest);
      var imageStart, imageEnd := PageAlignDown(lowest), PageAlignUp(highest);
      r := MapImage(k, imageStart / PAGE_SIZE, imageEnd / PAGE_SIZE, s.view.mem);
      if r.Panic? {
        return;
      }
      var pr := Process(imageStart, imageEnd, 0, 0, 0);
      SetRecord(pr, s);
      ImageUsable(s.view.mem, headers);
      return Done(());
    }

    // Moves the break; the result is whether it was accepted, and the previous break.
    method SystemSbrk(amount: Amount) returns (r: Outcome<(bool, int)>)
      requires Valid() && k.current in processes && processes[k.current].imageEnd != 0
      requires KeepsImage(processes[k.current], amount)
      modifies `processes, k`mem, k.ppa, k.ppa.pages, k.ppa.pages.bitmap, k.references
      ensures r.Panic? ==> k.ppa.pages.free == {}
      ensures r.Done? ==> Valid() && k.current in processes
      ensures r.Done? ==> processes[k.current] == Sbrk(old(processes)[k.current], amount)
      ensures r.Done? ==> BreakSet(old(Now()), Now(), amount, processes[k.current], r.value)
    {
      ghost var s := Now();
      FewSpaces();
      var moved :- MoveHeap(k, processes[k.current], amount);
      SetRecord(moved.0, s);
      HeapIsUsable(s.view.mem);
      return Done(moved.1);
    }

    // Copy-on-write: the answer says whether the fault was resolved or is an error of the process.
    method HandleCopyOnWriteFault(accessed: Address) returns (r: Outcome<bool>)
      requires Valid() && k.current in processes && processes[k.current].imageEnd != 0
      requires accessed % PAGE_SIZE == 0 && accessed / PAGE_SIZE < PAGE_LIMIT
      requires k.mem[k.current][accessed / PAGE_SIZE / ENTRIES] != 0
      modifies k`mem, k.ppa, k.ppa.pages, k.ppa.pages.bitmap, k.references
      ensures r.Panic? ==> k.ppa.pages.free == {}
      ensures r.Done? ==> Valid()
      ensures r.Done? ==>
                var pr := processes[k.current];
                (r.value <==> pr.imageStart <= accessed <= pr.imageEnd &&
                              old(Walk(k.mem, k.current, accessed / PAGE_SIZE)) != 0)
      ensures r.Done? ==> Copied(old(Now()), Now(), accessed)
    {
      var pr := processes[k.current];
      if pr.imageStart <= accessed <= pr.imageEnd {
        var ti, pi := accessed / PAGE_SIZE / ENTRIES, accessed / PAGE_SIZE % ENTRIES;
        assert DirectoryOk(k.mem, k.dirs, k.current);
        assert EntryOk(k.mem, k.dirs, ti, k.mem[k.current][ti]);
        var table := k.mem[FrameOf(k.mem[k.current][ti])];
        if table[pi] != 0 {
          var _ :- CopyAccessed(accessed);
          return Done(true);
        }
      }
      NotCopied(Now(), accessed);
      return Done(false);
    }

    // The branch of a fault that is resolved.
    method CopyAccessed(accessed: Address) returns (r: Outcome<()>)
      requires Valid() && k.current in processes && processes[k.current].imageEnd != 0
      requires accessed % PAGE_SIZE == 0 && processes[k.current].imageStart <= accessed <= processes[k.current].imageEnd
      requires accessed / PAGE_SIZE < PAGE_LIMIT && Walk(k.mem, k.current, accessed / PAGE_SIZE) != 0
      modifies k`mem, k.ppa, k.ppa.pages, k.ppa.pages.bitmap, k.references
      ensures r.Panic? ==> k.ppa.pages.free == {}
      ensures r.Done? ==> Valid() && Copied(old(Now()), Now(), accessed)
    {
      ghost var s, page, free := Now(), accessed / PAGE_SIZE, k.ppa.pages.free;
      FewSpaces();
      var phys :- CopyPage(k, accessed);
      ResolvedFault(s.view.mem, phys, page, free);
      PageAccess(k.current, page);
      CopiedIs(s, Now(), accessed);
      return Done(());
    }

    lemma ResolvedFault(before: Memory, phys: Frame, page: int, free: set<int>)
      requires Consistent(k) && k.current in processes && processes.Keys <= k.dirs <= before.Keys && Tabled()
      requires ProcessPage(page) && Walk(before, k.current, page) != 0
      requires FramesInUse(before, k.dirs, free) && phys in free
      requires PageSet(before, k.mem, k.dirs, k.current, page, MakeWord(phys, USER_PAGE_FLAGS))
      requires forall d :: d in processes ==> ProcessOk(before, d, processes[d])
      ensures Valid()
      ensures Walk(k.mem, k.current, page) == MakeWord(phys, USER_PAGE_FLAGS)
      ensures IsWritable(MakeWord(phys, USER_PAGE_FLAGS)) && FrameOf(MakeWord(phys, USER_PAGE_FLAGS)) == phys
      ensures Mappers(k.mem, k.dirs, phys) == {(k.current, page)}
    {
      UserPageWord(phys);
      UnmappedFrame(before, k.dirs, free, phys);
      MappersAfterLeaving(before, k.mem, k.dirs, k.current, page, MakeWord(phys, USER_PAGE_FLAGS), phys);
      MovedPageKeepsProcesses(before, page, MakeWord(phys, USER_PAGE_FLAGS));
    }

    lemma MovedPageKeepsProcesses(before: Memory, page: int, w: Word)
      requires Consistent(k) && processes.Keys <= k.dirs <= before.Keys && k.current in k.dirs && Tabled()
      requires ProcessPage(page) && Walk(before, k.current, page) != 0 && w != 0
      requires PageSet(before, k.mem, k.dirs, k.current, page, w)
      requires forall d :: d in processes ==> ProcessOk(before, d, processes[d])
      ensures Valid() && Walk(k.mem, k.current, page) == w
    {
      PageSetInOneSpace(before, k.mem, k.dirs, k.current, page, w);
      forall d | d in processes ensures ProcessOk(k.mem, d, processes[d]) {
        ProcessKept(before, k.mem, d, processes[d]);
      }
    }

    method MapKernelPage(virt: Address, phys: Address, override: bool) returns (r: Outcome<bool>)
      requires Valid() && KernelPage(virt / PAGE_SIZE)
      modifies k`mem, k.ppa, k.ppa.pages, k.ppa.pages.bitmap
      ensures r.Panic? <==> virt % PAGE_SIZE != 0 || phys % PAGE_SIZE != 0
      ensures r.Done? ==> Valid()
      ensures r.Done? ==> (r.value <==> override || old(Walk(k.mem, k.current, virt / PAGE_SIZE)) == 0)
      ensures r.Done? && r.value ==>
                forall e :: e in k.dirs ==>
                  var w := Walk(k.mem, e, virt / PAGE_SIZE);
                  FrameOf(w) == phys / PAGE_SIZE && KernelWord(w)
      ensures r.Done? ==> forall e, p :: e in k.dirs && 0 <= p < PAGE_LIMIT && (p != virt / PAGE_SIZE || !r.value) ==>
                Walk(k.mem, e, p) == old(Walk(k.mem, e, p))
    {
      ghost var before, free := k.mem, k.ppa.pages.free;
      assert DirectoryOk(k.mem, k.dirs, k.current);
      assert EntryOk(k.mem, k.dirs, virt / PAGE_SIZE / ENTRIES, k.mem[k.current][virt / PAGE_SIZE / ENTRIES]);
      r := k.Map(virt, phys, KERNEL_TABLE_FLAGS, KERNEL_PAGE_FLAGS, override);
      if r.Done? {
        KernelPageWord(phys / PAGE_SIZE);
        OutsideUserPages(before, free);
      }
    }

    method UnmapKernelPage(virt: Address)
      requires Valid() && KernelPage(virt / PAGE_SIZE)
      modifies k`mem
      ensures Valid()
      ensures forall e :: e in k.dirs ==> Walk(k.mem, e, virt / PAGE_SIZE) == 0
      ensures forall e, p :: e in k.dirs && 0 <= p < PAGE_LIMIT && p != virt / PAGE_SIZE ==>
                Walk(k.mem, e, p) == old(Walk(k.mem, e, p))
    {
      ghost var before, free := k.mem, k.ppa.pages.free;
      k.Unmap(virt);
      OutsideUserPages(before, free);
    }

    lemma OutsideUserPages(before: Memory, free: set<int>)
      requires k.Valid() && FramesOk(before, k.dirs, k.references.tables, free) && Tabled()
      requires Undisturbed(before, k.dirs, free, k.owned, k.vacant)
      requires TablesFromPool(before, k.mem, free, k.ppa.pages.free) && UserPagesKept(before, k.mem, k.dirs)
      requires Recorded(before)
      ensures Valid()
    {
      NothingMapped(before, k.mem, k.dirs, k.dirs, k.references.tables, free, k.ppa.pages.free);
      ElsewhereLeavesRanges(before, k.mem, k.dirs, k.dirs, free, k.ppa.pages.free, k.owned, k.vacant);
      ProcessesKept(before);
    }

    lemma ProcessesKept(before: Memory)
      requires Recorded(before) && k.dirs <= k.mem.Keys && ProcessPagesKept(before, k.mem, k.dirs)
      ensures Recorded(k.mem)
    {
      forall d | d in processes ensures ProcessOk(k.mem, d, processes[d]) {
        ProcessKept(before, k.mem, d, processes[d]);
      }
    }

    // The list of ranges of the running process changed, and some of its range pages.
    lemma RangesChanged(before: Memory)
      requires Consistent(k) && k.dirs <= before.Keys && ProcessPagesKept(before, k.mem, k.dirs)
      requires Recorded(before) && Tabled()
      ensures Valid()
    {
      ProcessesKept(before);
    }

    // Where a range of n pages can be taken from the running process's list.
    method FindFit(n: nat) returns (i: nat)
      requires Valid() && k.current in processes && n > 0
      ensures i == Ranges.FirstFit(ranges[k.current], n)
      ensures i < |ranges[k.current]| <==> HasRun(ranges[k.current], n)
      ensures i < |ranges[k.current]| ==>
                var base := ranges[k.current][i].base;
                && 0 < base && Stretch(k.current, base, n) <= k.vacant
                && RangeTaken(ranges[k.current], Ranges.Allocated(ranges[k.current], i, n, OWNER), base, n)
    {
      var rs := ranges[k.current];
      assert PoolFits(rs, k.current, k.owned, k.vacant);
      Ranges.FirstFitComplete(rs, n);
      i := Ranges.FirstFit(rs, n);
      if i < |rs| {
        FitIsVacant(k.current, rs, i, n, k.owned, k.vacant);
      }
    }

    // Takes a range of n pages for the running process and gives each page a frame; 0 when none is free.
    method TakeOwned(n: nat) returns (r: Outcome<int>)
      requires Valid() && k.current in processes && n > 0
      modifies `ranges, k`mem, k`owned, k`vacant, k.ppa, k.ppa.pages, k.ppa.pages.bitmap
      ensures r.Panic? ==> k.ppa.pages.free == {}
      ensures r.Done? ==> Valid()
      ensures r.Done? ==> (r.value == 0 <==> !HasRun(old(ranges)[k.current], n))
      ensures r.Done? && r.value == 0 ==> ranges == old(ranges) && ViewOf(k) == old(ViewOf(k))
      ensures r.Done? && r.value != 0 ==>
                MemoryTaken(old(ViewOf(k)), ViewOf(k), old(ranges), ranges, r.value, n)
    {
      var i := FindFit(n);
      var rs := ranges[k.current];
      if i == |rs| {
        return Done(0);
      }
      ghost var before, pools, owned, vacant, pool := k.mem, ranges, k.owned, k.vacant, k.ppa.pages.free;
      var qs := Ranges.Allocated(rs, i, n, OWNER);
      ranges := ranges[k.current := qs];
      var _ :- MapOwnedPages(k, rs[i].base, n);
      OnlyRangePages(before, k.mem, k.dirs, k.current, rs[i].base, n);
      PoolsAfterTake(pools, k.current, i, n, owned, vacant, k.owned, k.vacant, pool);
      RangesChanged(before);
      return Done(rs[i].base);
    }

    // The pages a process has just been given are all its to read and write.
    lemma AreaUsable(base: int, n: nat, size: Address)
      requires Valid() && Stretch(k.current, base, n) <= k.owned.Keys && size <= n * PAGE_SIZE
      ensures AreaOpen(k.mem, k.current, base * PAGE_SIZE, size)
    {
      forall a | InArea(base * PAGE_SIZE, size, a)
        ensures RangePage(a / PAGE_SIZE) && UserWrites(k.mem, k.current, a / PAGE_SIZE)
      {
        var x := (k.current, a / PAGE_SIZE);
        assert x in Stretch(k.current, base, n);
        assert OwnedPage(k.mem, k.dirs, k.ppa.pages.free, x, k.owned[x]);
        UserAccess(k.mem, k.dirs, k.current, x.1);
      }
    }

    // The running process has a run of free pages that holds size bytes.
    ghost predicate CanGive(size: Address)
      reads this, k
    {
      k.current in ranges && Available(ranges[k.current], size)
    }

    // Takes the pages for an area.
    method TakeArea(ghost size: Address, n: nat) returns (r: Outcome<int>)
      requires Valid() && k.current in processes && n > 0 && Rounded(size, n)
      modifies `ranges, k`mem, k`owned, k`vacant, k.ppa, k.ppa.pages, k.ppa.pages.bitmap
      ensures r.Panic? ==> k.ppa.pages.free == {}
      ensures r.Done? ==> Valid() && (r.value == 0 <==> !HasRun(old(ranges)[k.current], n))
      ensures r.Done? && r.value == 0 ==> Now() == old(Now())
      ensures r.Done? && r.value != 0 ==> Given(old(Now()), Now(), size, r.value, n)
    {
      ghost var s := Now();
      r := TakeOwned(n);
      if r.Done? && r.value != 0 {
        AreaUsable(r.value, n, size);
        GivenIs(s, Now(), size, r.value, n);
      }
    }

    /**
     * Memory for the running process: just enough pages for the size, with frames of their own, if so
     * many are free. The process owns the frames and can use every byte.
     */
    method AllocMem(size: Address) returns (r: Outcome<int>, ghost n: nat)
      requires Valid() && k.current in processes
      modifies `ranges, k`mem, k`owned, k`vacant, k.ppa, k.ppa.pages, k.ppa.pages.bitmap
      ensures r.Panic? ==> k.ppa.pages.free == {}
      ensures r.Done? ==> Valid() && r.value % PAGE_SIZE == 0
      ensures r.Done? ==> (r.value != 0 <==> old(CanGive(size)))
      ensures r.Done? && r.value == 0 ==> Now() == old(Now())
      ensures r.Done? && r.value != 0 ==> n > 0 && Given(old(Now()), Now(), size, r.value / PAGE_SIZE, n)
    {
      var pages := PagesOf(size);
      PagesAreRounded(size);
      n := pages;
      if pages == 0 {
        return Done(0), 0;
      }
      AvailableAs(ranges[k.current], size, pages);
      r := TakeArea(size, pages);
      if r.Done? {
        PageAddress(r.value);
        r := Done(r.value * PAGE_SIZE);
      }
    }

    // Whether an address is the start of a range, and of which.
    static function RangeAt(rs: seq<Ranges.Range>, base: Address): (i: int)
      ensures 0 <= i <= |rs|
      ensures i < |rs| ==> rs[i].base * PAGE_SIZE == base && Ranges.IndexOf(rs, rs[i].base) == i
      ensures i == |rs| ==> forall j :: 0 <= j < |rs| ==> rs[j].base * PAGE_SIZE != base
    {
      if base % PAGE_SIZE == 0 then Ranges.IndexOf(rs, base / PAGE_SIZE) else |rs|
    }

    // Gives the range at place i, unmapped since the moment s, back to the running process's list, if it is in use.
    method GiveRange(i: nat, ghost s: Snapshot)
      requires Consistent(k) && Recorded(s.view.mem) && Now() == s.(view := ViewOf(k))
      requires k.current in ranges && i < |ranges[k.current]|
      requires PoolFits(ranges[k.current], k.current, s.view.owned, s.view.vacant)
      requires Unmapping(s.view, ViewOf(k), ranges[k.current][i])
      requires var rs := ranges[k.current];
        TablesOk(processes.Keys, stacks, ranges[k.current := if rs[i].used then Ranges.Freed(rs, i) else rs], |k.dirs|,
                 k.owned, k.vacant)
      modifies `ranges
      ensures Valid() && TakenBack(s, Now(), old(ranges)[k.current][i].base * PAGE_SIZE, i)
    {
      var rs := ranges[k.current];
      RangePages(rs, i, k.current, s.view.owned, s.view.vacant);
      OnlyRangePages(s.view.mem, k.mem, k.dirs, k.current, rs[i].base, rs[i].pages);
      GivenOrNot(rs, i);
      assert ranges == ranges[k.current := rs];
      if rs[i].used {
        ranges := ranges[k.current := Ranges.Freed(rs, i)];
      }
      RangesChanged(s.view.mem);
    }

    // Unmaps the range at place i of the running process's list.
    method UnmapRange(i: nat) returns (r: Outcome<bool>)
      requires Valid() && k.current in processes && i < |ranges[k.current]|
      modifies `ranges, k`mem, k`owned, k`vacant, k.ppa, k.ppa.pages, k.ppa.pages.bitmap
      ensures k.Paged() && k.dirs <= k.mem.Keys
      ensures var range := old(ranges)[k.current][i];
        && (r.Done? ==> r.value && (Valid() <==> range.used || !IsOwner(range)))
        && (r.Panic? ==> !range.used && IsOwner(range))
        && (!range.used && IsOwner(range) ==> SpoiledAt(old(k.mem), k, range.base, r))
      ensures var rs := old(ranges)[k.current];
        rs[i].used || !IsOwner(rs[i]) ==>
          TakenBack(old(Now()), Now(), rs[i].base * PAGE_SIZE, i)
    {
      var rs := ranges[k.current];
      var range := rs[i];
      ghost var s := Now();
      assert PoolFits(rs, k.current, k.owned, k.vacant);
      RangePages(rs, i, k.current, k.owned, k.vacant);
      r := EmptyRange(k, range);
      if r.Panic? || (!range.used && IsOwner(range)) {
        return;
      }
      PoolsAfterUnmap(s.ranges, k.current, i, s.view.owned, s.view.vacant, k.owned, k.vacant);
      GiveRange(i, s);
    }

    /**
     * Unmaps the range at an address. The flag of the owner is looked at whether the range is in use or
     * not: the invariant is kept if and only if the range is in use or the flag is clear.
     */
    method Unmap(base: Address) returns (r: Outcome<bool>)
      requires Valid() && k.current in processes
      modifies `ranges, k`mem, k`owned, k`vacant, k.ppa, k.ppa.pages, k.ppa.pages.bitmap
      ensures k.Paged() && k.dirs <= k.mem.Keys && (r.Done? ==> (Valid() <==> !old(Spoils(Request.Unmap(base)))))
      ensures r.Panic? ==> old(Spoils(Request.Unmap(base)))
      ensures r.Done? ==>
                (r.value <==> exists range :: range in old(ranges)[k.current] && range.base * PAGE_SIZE == base)
      ensures r == Done(false) ==> Now() == old(Now())
      ensures var rs := old(ranges)[k.current];
        var i := RangeAt(rs, base);
        i < |rs| ==>
          if old(Spoils(Request.Unmap(base))) then SpoiledAt(old(k.mem), k, rs[i].base, r)
          else TakenBack(old(Now()), Now(), base, i)
    {
      var i := RangeAt(ranges[k.current], base);
      if i == |ranges[k.current]| {
        return Done(false);
      }
      r := UnmapRange(i);
    }

    // Unmaps memory that was allocated since a moment whose values are given.
    method UnmapTaken(base: Address, ghost n: nat, ghost v: View, ghost pools: map<Frame, seq<Ranges.Range>>)
      returns (r: Outcome<bool>)
      requires Valid() && k.current in processes && n > 0 && base % PAGE_SIZE == 0
      requires Undisturbed(v.mem, v.dirs, v.free, v.owned, v.vacant)
      requires MemoryTaken(v, ViewOf(k), pools, ranges, base / PAGE_SIZE, n)
      requires Ranges.Canonical(pools[k.current])
      modifies `ranges, k`mem, k`owned, k`vacant, k.ppa, k.ppa.pages, k.ppa.pages.bitmap
      ensures r == Done(true) && Valid() && k.owned == v.owned && NoneLost(k.mem, v.free, k.ppa.pages.free)
      ensures k.current in ranges && Ranges.PlainAll(ranges[k.current]) == Ranges.PlainAll(pools[k.current])
    {
      TakenAndGiven(pools[k.current], ranges[k.current], base / PAGE_SIZE, n);
      ghost var w := ViewOf(k);
      r := Unmap(base);
      TakenUnmapped(v, w, ViewOf(k), base / PAGE_SIZE, n);
    }

    /** Memory that is allocated and unmapped again: the ranges, the ownership and every frame are back. */
    method AllocThenUnmap(size: Address) returns (r: Outcome<bool>)
      requires Valid() && k.current in processes
      modifies `ranges, k`mem, k`owned, k`vacant, k.ppa, k.ppa.pages, k.ppa.pages.bitmap
      ensures r.Panic? ==> k.ppa.pages.free == {}
      ensures r.Done? ==> Valid() && k.owned == old(k.owned)
      ensures r.Done? ==> k.current in ranges && k.current in old(ranges)
      ensures r.Done? ==> Ranges.PlainAll(ranges[k.current]) == Ranges.PlainAll(old(ranges)[k.current])
      ensures r.Done? && r.value ==> NoneLost(k.mem, old(k.ppa.pages.free), k.ppa.pages.free)
      ensures r.Done? ==> (r.value <==> old(CanGive(size)))
    {
      ghost var s := Now();
      assert PoolFits(ranges[k.current], k.current, k.owned, k.vacant);
      var base, n := AllocMem(size);
      if base.Panic? || base.value == 0 {
        return if base.Panic? then Panic else Done(false);
      }
      r := UnmapTaken(base.value, n, s.view, s.ranges);
    }

    // Frame 0 is free, and an allocation would take it first.
    ghost predicate ZeroFreed()
      reads this, k, k.ppa, k.ppa.pages, k.ppa.pages.bitmap, k.references
    {
      !Valid() && 0 in k.ppa.pages.free && Lowest(k.ppa.pages.free) == 0
    }

    // A range with the owner's flag that is not in use: frame 0 becomes free.
    method UnmapUnused(base: Address) returns (r: Outcome<bool>)
      requires Valid() && k.current in processes
      requires var rs := ranges[k.current];
        var j := RangeAt(rs, base);
        j < |rs| ==>
          !rs[j].used && IsOwner(rs[j]) && RangePage(rs[j].base) && TableFor(k.mem, k.current, rs[j].base) != 0
      modifies `ranges, k`mem, k`owned, k`vacant, k.ppa, k.ppa.pages, k.ppa.pages.bitmap
      ensures if RangeAt(old(ranges)[k.current], base) == |old(ranges)[k.current]| then r == Done(false) && Valid()
              else ZeroFreed()
    {
      r := Unmap(base);
      if r != Done(false) {
        ZeroIsLowest(k.ppa.pages.bitmap[..], k.ppa.pages.free);
      }
    }

    // Where a range that was given back is found at its old address.
    static lemma AgainAt(rs: seq<Ranges.Range>, i: int, base: Address)
      requires Ranges.Canonical(rs) && i == RangeAt(rs, base) < |rs| && rs[i].used
      ensures var qs := Ranges.Freed(rs, i);
        var j := RangeAt(qs, base);
        && (j < |qs| <==> !(i > 0 && !rs[i - 1].used && Ranges.End(rs[i - 1]) == rs[i].base))
        && (j < |qs| ==> !qs[j].used && qs[j].flags == rs[i].flags && qs[j].base == rs[i].base)
    {
      PageAddress(rs[i].base);
      FoundAgain(rs, i);
    }

    // The first unmapping of an owned range.
    method UnmapOwned(base: Address, ghost i: nat)
      requires Valid() && k.current in processes && i == RangeAt(ranges[k.current], base) < |ranges[k.current]|
      requires ranges[k.current][i].used && IsOwner(ranges[k.current][i])
      modifies `ranges, k`mem, k`owned, k`vacant, k.ppa, k.ppa.pages, k.ppa.pages.bitmap
      ensures Valid() && k.current in ranges && ranges[k.current] == Ranges.Freed(old(ranges)[k.current], i)
      ensures var page := old(ranges)[k.current][i].base;
        RangePage(page) && TableFor(k.mem, k.current, page) != 0
    {
      ghost var rs := ranges[k.current];
      assert PoolFits(rs, k.current, k.owned, k.vacant);
      RangePages(rs, i, k.current, k.owned, k.vacant);
      assert (k.current, rs[i].base) in Stretch(k.current, rs[i].base, rs[i].pages);
      OwnedPageShows(k.mem, k.dirs, k.ppa.pages.free, k.owned, k.vacant, (k.current, rs[i].base));
      GivenIsFreed(rs, i);
      var _ := Unmap(base);
    }

    /**
     * The same range unmapped twice by its owner. The second call finds nothing if a free range ends where
     * it starts; otherwise, and only then, frame 0 becomes free, and the next allocation panics over it.
     */
    method UnmapTwice(base: Address) returns (r: Outcome<bool>)
      requires Valid() && k.current in processes
      requires var rs := ranges[k.current];
        var i := RangeAt(rs, base); i < |rs| && rs[i].used && IsOwner(rs[i])
      modifies `ranges, k`mem, k`owned, k`vacant, k.ppa, k.ppa.pages, k.ppa.pages.bitmap
      ensures var rs := old(ranges)[k.current];
        var i := RangeAt(rs, base);
        if i > 0 && !rs[i - 1].used && Ranges.End(rs[i - 1]) == rs[i].base then r == Done(false) && Valid()
        else ZeroFreed()
    {
      ghost var rs, i := ranges[k.current], RangeAt(ranges[k.current], base);
      assert PoolFits(rs, k.current, k.owned, k.vacant);
      AgainAt(rs, i, base);
      UnmapOwned(base, i);
      r := UnmapUnused(base);
    }

    /**
     * What every reachable state guarantees: one kernel half for all spaces that no process can read, exact
     * counts below the 16-bit bound, and of the process areas: whatever is mapped can be read, its frame is
     * neither free nor a page table, and what one process can write no other page shows.
     */
    lemma Safety(d: Frame, e: Frame, p: int, q: int, f: Frame)
      requires Valid() && d in k.dirs && e in k.dirs
      ensures KernelPage(p) ==> Walk(k.mem, d, p) == Walk(k.mem, e, p)
      ensures FIRST_KERNEL_TABLE * ENTRIES <= p < ENTRIES * ENTRIES ==> !UserReads(k.mem, d, p)
      ensures ProcessPage(p) || RangePage(p) ==> (UserReads(k.mem, d, p) <==> Walk(k.mem, d, p) != 0)
      ensures ProcessPage(p) && MapsTo(k.mem, d, p, f) ==> f !in k.ppa.pages.free && f !in k.mem
      ensures ProcessPage(p) && ProcessPage(q) && UserWrites(k.mem, d, p) && UserReads(k.mem, e, q) && (d, p) != (e, q)
              ==> FrameOf(Walk(k.mem, d, p)) != FrameOf(Walk(k.mem, e, q))
      ensures |Mappers(k.mem, k.dirs, f)| < 0x8000 ==>
                CountIn(k.references.tables, f) == |Mappers(k.mem, k.dirs, f)|
    {
      if FIRST_KERNEL_TABLE * ENTRIES <= p < ENTRIES * ENTRIES {
        KernelHalfHidden(k.mem, k.dirs, d, p);
      }
      if KernelPage(p) {
        KernelHalfCoherent(k.mem, k.dirs, d, e, p);
      }
      if ProcessPage(p) || RangePage(p) {
        PageAccess(d, p);
      }
      if ProcessPage(p) {
        assert FrameInUse(k.mem, d, p, k.ppa.pages.free);
      }
      if ProcessPage(p) && ProcessPage(q) {
        PageAccess(e, q);
        assert WriterAlone(k.mem, d, p, e, q);
      }
      if |Mappers(k.mem, k.dirs, f)| < 0x8000 {
        WrapWithinRange(|Mappers(k.mem, k.dirs, f)|);
      }
    }

    /** The memory a process owns is its alone: no other owned page and no process area shows the frame. */
    lemma OwnersAlone(x: (Frame, int), y: (Frame, int))
      requires Valid() && x in k.owned
      ensures x.0 in k.dirs && RangePage(x.1) && UserWrites(k.mem, x.0, x.1)
      ensures var f := FrameOf(Walk(k.mem, x.0, x.1));
        && f !in k.ppa.pages.free && f !in k.mem && Mappers(k.mem, k.dirs, f) == {}
        && (y in k.owned && y != x ==> y.0 in k.dirs && RangePage(y.1) && FrameOf(Walk(k.mem, y.0, y.1)) != f)
    {
      assert OwnedPage(k.mem, k.dirs, k.ppa.pages.free, x, k.owned[x]);
      assert y in k.owned ==> OwnedPage(k.mem, k.dirs, k.ppa.pages.free, y, k.owned[y]);
      PageAccess(x.0, x.1);
      NoMappers(k.mem, k.dirs, k.owned[x]);
    }

    ghost function Now(): Snapshot
      reads this, k, k.ppa, k.ppa.pages
    {
      Snapshot(ViewOf(k), processes, ranges, stacks)
    }

    // Whether a request unmaps a range that is not in use but still has the flag of its owner.
    predicate Spoils(request: Request)
      reads this, k
    {
      && request.Unmap? && k.current in ranges
      && var rs := ranges[k.current];
         var i := RangeAt(rs, request.base);
         i < |rs| && !rs[i].used && IsOwner(rs[i])
    }

    // One request; those the kernel's callers never make are passed over. It keeps the invariant if and
    // only if it does not spoil it.
    method Serve(request: Request) returns (halted: bool)
      requires Valid()
      modifies this, k, k.ppa, k.ppa.pages, k.ppa.pages.bitmap, k.references
      ensures halted ==> Misaligned(request) || k.ppa.pages.free == {} || old(Spoils(request))
      ensures !halted ==> (Valid() <==> !old(Spoils(request)))
      ensures !halted && Valid() ==> Effect(request, old(Now()), Now())
    {
      halted := false;
      match request {
        case CreateProcess(kernelStackVirt) =>
          halted := ServeCreate(kernelStackVirt);
        case Switch(d) =>
          if d in processes {
            k.SwitchToSpace(d);
          }
        case Load(headers) =>
          halted := ServeLoad(headers);
        case MoveBreak(amount) =>
          halted := ServeBreak(amount);
        case Fork(userStackPages, kernelStackVirt) =>
          halted := ServeFork(userStackPages, kernelStackVirt);
        case Fault(accessed) =>
          halted := ServeFault(accessed);
        case AllocMem(size) =>
          halted := ServeAlloc(size);
        case Unmap(base) =>
          halted := ServeUnmap(base);
        case MapKernel(virt, phys, override) =>
          halted := ServeMapKernel(virt, phys, override);
        case UnmapKernel(virt) =>
          ServeUnmapKernel(virt);
      }
    }

    method ServeMapKernel(virt: Address, phys: Address, override: bool) returns (halted: bool)
      requires Valid()
      modifies k`mem, k.ppa, k.ppa.pages, k.ppa.pages.bitmap
      ensures halted ==> virt % PAGE_SIZE != 0 || phys % PAGE_SIZE != 0
      ensures !halted ==> Valid()
      ensures !halted ==> Effect(Request.MapKernel(virt, phys, override), old(Now()), Now())
    {
      halted := false;
      if KernelPage(virt / PAGE_SIZE) {
        var r := MapKernelPage(virt, phys, override);
        halted := r.Panic?;
      }
    }

    method ServeUnmapKernel(virt: Address)
      requires Valid()
      modifies k`mem
      ensures Valid()
      ensures Effect(Request.UnmapKernel(virt), old(Now()), Now())
    {
      if KernelPage(virt / PAGE_SIZE) {
        UnmapKernelPage(virt);
      }
    }

    method ServeCreate(kernelStackVirt: Address) returns (halted: bool)
      requires Valid()
      modifies this, k`mem, k`dirs, k`vacant, k.ppa, k.ppa.pages, k.ppa.pages.bitmap
      ensures halted ==> kernelStackVirt % PAGE_SIZE != 0 || k.ppa.pages.free == {}
      ensures !halted ==> Valid()
      ensures !halted ==> Effect(Request.CreateProcess(kernelStackVirt), old(Now()), Now())
    {
      halted := false;
      if FreshStack(stacks, kernelStackVirt / PAGE_SIZE) {
        var r := CreateProcess(kernelStackVirt);
        halted := r.Panic?;
      }
    }

    method ServeAlloc(size: Address) returns (halted: bool)
      requires Valid()
      modifies `ranges, k`mem, k`owned, k`vacant, k.ppa, k.ppa.pages, k.ppa.pages.bitmap
      ensures halted ==> k.ppa.pages.free == {}
      ensures !halted ==> Valid()
      ensures !halted ==> Effect(Request.AllocMem(size), old(Now()), Now())
    {
      halted := false;
      if k.current in processes {
        var r, n := AllocMem(size);
        halted := r.Panic?;
      }
    }

    method ServeUnmap(base: Address) returns (halted: bool)
      requires Valid()
      modifies `ranges, k`mem, k`owned, k`vacant, k.ppa, k.ppa.pages, k.ppa.pages.bitmap
      ensures halted ==> old(Spoils(Request.Unmap(base)))
      ensures !halted ==> (Valid() <==> !old(Spoils(Request.Unmap(base))))
      ensures !halted && Valid() ==> Effect(Request.Unmap(base), old(Now()), Now())
    {
      halted := false;
      if k.current in processes {
        var r := Unmap(base);
        halted := r.Panic?;
      }
    }

    method ServeLoad(headers: seq<ProgramHeader>) returns (halted: bool)
      requires Valid()
      modifies `processes, k`mem, k.ppa, k.ppa.pages, k.ppa.pages.bitmap, k.references
      ensures halted ==> k.ppa.pages.free == {}
      ensures !halted ==> Valid()
      ensures !halted ==> Effect(Request.Load(headers), old(Now()), Now())
    {
      halted := false;
      if && k.current in processes && processes[k.current] == NEW_PROCESS
         && (exists h :: h in headers && IsLoad(h))
         && (forall h :: h in headers && IsLoad(h) ==>
               LOWEST_IMAGE <= h.vaddr && h.vaddr + h.memsz <= MAXIMUM_HEAP_BREAK)
      {
        var r := LoadLoadSegment(headers);
        halted := r.Panic?;
      }
    }

    method ServeBreak(amount: Amount) returns (halted: bool)
      requires Valid()
      modifies `processes, k`mem, k.ppa, k.ppa.pages, k.ppa.pages.bitmap, k.references
      ensures halted ==> k.ppa.pages.free == {}
      ensures !halted ==> Valid()
      ensures !halted ==> Effect(Request.MoveBreak(amount), old(Now()), Now())
    {
      halted := false;
      if && k.current in processes && processes[k.current].imageEnd != 0
         && KeepsImage(processes[k.current], amount)
      {
        var r := SystemSbrk(amount);
        halted := r.Panic?;
      }
    }

    method ServeFork(userStackPages: int, kernelStackVirt: Address) returns (halted: bool)
      requires Valid()
      modifies this, k`mem, k`dirs, k`vacant, k.ppa, k.ppa.pages, k.ppa.pages.bitmap, k.references
      ensures halted ==> kernelStackVirt % PAGE_SIZE != 0 || k.ppa.pages.free == {}
      ensures !halted ==> Valid()
      ensures !halted ==> Effect(Request.Fork(userStackPages, kernelStackVirt), old(Now()), Now())
    {
      halted := false;
      if && k.current in processes && 0 <= userStackPages <= USER_STACK_PAGES
         && FreshStack(stacks, kernelStackVirt / PAGE_SIZE)
      {
        var r := Fork(userStackPages, kernelStackVirt);
        halted := r.Panic?;
      }
    }

    method ServeFault(accessed: Address) returns (halted: bool)
      requires Valid()
      modifies k`mem, k.ppa, k.ppa.pages, k.ppa.pages.bitmap, k.references
      ensures halted ==> k.ppa.pages.free == {}
      ensures !halted ==> Valid()
      ensures !halted ==> Effect(Request.Fault(accessed), old(Now()), Now())
    {
      halted := false;
      if && k.current in processes && processes[k.current].imageEnd != 0
         && accessed % PAGE_SIZE == 0 && accessed / PAGE_SIZE < PAGE_LIMIT
         && k.mem[k.current][accessed / PAGE_SIZE / ENTRIES] != 0
      {
        var r := HandleCopyOnWriteFault(accessed);
        halted := r.Panic?;
      }
    }

    // The next request of a run.
    method ServeNext(requests: seq<Request>, i: nat, ghost trace: seq<Snapshot>)
      returns (halted: bool, spoils: bool, ghost longer: seq<Snapshot>)
      requires Valid() && i < |requests| && Traced(requests, trace) && |trace| == i + 1 && trace[i] == Now()
      modifies this, k, k.ppa, k.ppa.pages, k.ppa.pages.bitmap, k.references
      ensures spoils ==> requests[i].Unmap?
      ensures halted && !spoils ==> k.ppa.pages.free == {} || Misaligned(requests[i])
      ensures !halted ==> (Valid() <==> !spoils)
      ensures Traced(requests, longer) && longer[0] == trace[0]
      ensures !halted && !spoils ==> |longer| == i + 2 && longer[i + 1] == Now()
    {
      longer := trace;
      spoils := Spoils(requests[i]);
      halted := Serve(requests[i]);
      if !halted && !spoils {
        LongerTrace(requests, trace, Now());
        longer := trace + [Now()];
      }
    }

    lemma RunStarts(requests: seq<Request>)
      requires Valid()
      ensures Traced(requests, [Now()])
    {
    }

    /**
     * Any run of requests of any length and in any order. It keeps the invariant until the first request
     * that spoils it, and halts only for want of frames, on a request to map a misaligned address, or at
     * such a request.
     */
    method Run(requests: seq<Request>) returns (halted: bool, ghost spoiled: bool, ghost trace: seq<Snapshot>)
      requires Valid()
      modifies this, k, k.ppa, k.ppa.pages, k.ppa.pages.bitmap, k.references
      ensures Traced(requests, trace) && trace[0] == old(Now())
      ensures !halted && !spoiled ==> |trace| == |requests| + 1 && trace[|requests|] == Now()
      ensures !halted ==> (Valid() <==> !spoiled)
      ensures spoiled ==> exists j :: 0 <= j < |requests| && requests[j].Unmap?
      ensures halted && !spoiled ==>
                k.ppa.pages.free == {} || exists j :: 0 <= j < |requests| && Misaligned(requests[j])
    {
      ghost var first := Now();
      RunStarts(requests);
      halted, spoiled, trace := false, false, [first];
      var i := 0;
      while i < |requests|
        invariant 0 <= i <= |requests| && Valid() && !halted && !spoiled
        invariant Traced(requests, trace) && trace[0] == first && |trace| == i + 1 && trace[i] == Now()
      {
        var spoils;
        halted, spoils, trace := ServeNext(requests, i, trace);
        if halted || spoils {
          spoiled := spoils;
          return;
        }
        i := i + 1;
      }
    }

    /**
     * After a fork the heap pages behind the one at the end of the image are read-only in both
     * processes, and no fault gives them back: they stay so over every run that moves no break.
     */
    method ForkThenRun(userStackPages: int, kernelStackVirt: Address, requests: seq<Request>)
      returns (r: Outcome<Frame>, halted: bool, ghost spoiled: bool)
      requires Valid() && k.current in processes && 0 <= userStackPages <= USER_STACK_PAGES
      requires FreshStack(stacks, kernelStackVirt / PAGE_SIZE)
      modifies this, k, k.ppa, k.ppa.pages, k.ppa.pages.bitmap, k.references
      ensures r.Done? && !halted && !spoiled && (forall j :: 0 <= j < |requests| ==> !requests[j].MoveBreak?) ==>
                var parent := old(k.current);
                var pr := old(processes)[parent];
                forall p :: ProcessPage(p) && pr.imageEnd != 0 && pr.imageEnd < p * PAGE_SIZE &&
                            old(Walk(k.mem, parent, p)) != 0 ==>
                  Frozen(k.mem, processes, parent, p) && Frozen(k.mem, processes, r.value, p)
    {
      ghost var s := Now();
      halted, spoiled := false, false;
      r := Fork(userStackPages, kernelStackVirt);
      if r.Panic? {
        return;
      }
      ForkFreezesHeap(s, Now(), r.value, userStackPages, kernelStackVirt / PAGE_SIZE);
      ghost var trace;
      halted, spoiled, trace := Run(requests);
      if !halted && !spoiled && forall j :: 0 <= j < |requests| ==> !requests[j].MoveBreak? {
        RunStaysFrozen(requests, trace, |requests|);
      }
    }
  }

  lemma FitIsVacant(
    d: Frame, rs: seq<Ranges.Range>, i: int, n: nat, owned: map<(Frame, int), Frame>, vacant: set<(Frame, int)>)
    requires PoolFits(rs, d, owned, vacant) && n > 0 && i == Ranges.FirstFit(rs, n) < |rs|
    ensures Stretch(d, rs[i].base, n) <= vacant && RangePage(rs[i].base)
    ensures RangeTaken(rs, Ranges.Allocated(rs, i, n, OWNER), rs[i].base, n)
  {
    RangePages(rs, i, d, owned, vacant);
    forall p | rs[i].base <= p < rs[i].base + n ensures Ranges.FreeAt(rs, p) {
      assert Ranges.InRange(rs[i], p);
    }
    var cut := Ranges.Cut(rs[i], n, OWNER);
    assert Ranges.Allocated(rs, i, n, OWNER)[i] == cut[0];
  }

  // Of a list of ranges n free pages from base on were taken for their owner.
  ghost predicate RangeTaken(rs: seq<Ranges.Range>, qs: seq<Ranges.Range>, base: int, n: nat) {
    && Ranges.FreeRun(rs, base, n) && RangePage(base)
    && Ranges.FirstFit(rs, n) < |rs| && base == rs[Ranges.FirstFit(rs, n)].base
    && qs == Ranges.Step(rs, Ranges.Take(n, OWNER))
    && Ranges.Range(base, n, true, OWNER) in qs
  }
}
