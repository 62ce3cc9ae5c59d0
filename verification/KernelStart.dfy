/**
 * From the boot memory map to the first process: the loader's frames and tables,
 * the kernel that takes them over, and every run that follows.
 */
module KernelStart {
  import opened PageWords
  import opened PageTables
  import opened Bitmaps
  import opened PhysicalPages
  import opened FrameReferences
  import opened AddressSpaces
  import opened KernelTables
  import opened BootRegions
  import opened BootLoader
  import opened BootPaging
  import opened ProcessFrames
  import opened ProcessMemory

  const LOWER_MEMORY_END := 0x10_0000

  /** A space without process pages needs no reference counts. */
  lemma NoFramesInUse(mem: Memory, dirs: set<Frame>, free: set<int>)
    requires dirs <= mem.Keys && forall d, p :: d in dirs && ProcessPage(p) ==> Walk(mem, d, p) == 0
    ensures FramesOk(mem, dirs, map[], free)
  {
    forall f: Frame ensures Mappers(mem, dirs, f) == {} {
      assert forall d, p :: d in dirs && ProcessPage(p) ==> !MapsTo(mem, d, p, f);
    }
  }

  /** Unmaps what the loader left below the kernel's area, apart from the lower memory. */
  method UnmapLoader(k: KernelMemory)
    requires k.Valid() && k.dirs == {k.current}
    modifies k`mem
    ensures k.Valid() && k.mem.Keys == old(k.mem).Keys
    ensures forall q :: LOWER_MEMORY_END / PAGE_SIZE <= q < FIRST_KERNEL_TABLE * ENTRIES ==>
              Walk(k.mem, k.current, q) == 0
    ensures forall q :: 0 <= q < PAGE_LIMIT && !(LOWER_MEMORY_END / PAGE_SIZE <= q < FIRST_KERNEL_TABLE * ENTRIES) ==>
              Walk(k.mem, k.current, q) == old(Walk(k.mem, k.current, q))
  {
    var virt := LOWER_MEMORY_END;
    while virt < KERNEL_START
      invariant virt % PAGE_SIZE == 0 && LOWER_MEMORY_END <= virt <= KERNEL_START
      invariant k.Valid() && k.mem.Keys == old(k.mem).Keys
      invariant forall q :: LOWER_MEMORY_END / PAGE_SIZE <= q < virt / PAGE_SIZE ==> Walk(k.mem, k.current, q) == 0
      invariant forall q :: 0 <= q < PAGE_LIMIT && !(LOWER_MEMORY_END / PAGE_SIZE <= q < virt / PAGE_SIZE) ==>
                  Walk(k.mem, k.current, q) == old(Walk(k.mem, k.current, q))
    {
      k.Unmap(virt);
      virt := virt + PAGE_SIZE;
    }
  }

  // Where the kernel's image, stack and heap lie; the image starts in the first kernel table.
  datatype Layout = Layout(imageStart: nat, imageEnd: nat, heapEnd: nat) {
    predicate Ok() {
      && imageStart / PAGE_SIZE / ENTRIES == FIRST_KERNEL_TABLE
      && imageStart % PAGE_SIZE == 0 && imageEnd % PAGE_SIZE == 0 && heapEnd % PAGE_SIZE == 0
      && KERNEL_START <= imageStart <= imageEnd <= heapEnd && heapEnd / PAGE_SIZE <= PAGE_LIMIT
    }
  }

  // The loader's free frames: none below the reserved end, so never frame 0.
  method LoadFrames(bitmap: array<bv8>, rs: seq<Region>, ms: seq<Module>, reservedEnd: nat)
    returns (pages: BitMapPageAllocator)
    requires bitmap.Length == BITMAP_LENGTH && reservedEnd > 0 && forall i :: 0 <= i < |rs| ==> RegionOk(rs[i])
    modifies bitmap
    ensures fresh(pages) && pages.bitmap == bitmap && pages.Valid() && 0 !in pages.free
    ensures forall f: nat :: f in pages.free <==> f < FRAME_LIMIT && Freed(rs, ms, reservedEnd, f)
  {
    pages := new BitMapPageAllocator(bitmap);
    pages.Initialize();
    LoadMemoryMap(pages, rs, ms, reservedEnd);
    if 0 in pages.free {
      FreedIsSafe(rs, ms, reservedEnd, 0);
    }
  }

  // Lower memory shows itself, the modules are in their new places, and the kernel's image and heap have frames.
  ghost predicate LoaderDone(mem: Memory, d: Frame, ms: seq<Module>, reservedEnd: nat, layout: Layout) {
    && d in mem
    && (forall q :: 0 <= q < reservedEnd / PAGE_SIZE && q < PAGE_LIMIT ==>
          Walk(mem, d, q) == MakeWord(q, USER_PAGE_FLAGS))
    && (exists ns :: Placed(mem, d, ms, ns, reservedEnd, KERNEL_START))
    && (forall q :: layout.imageStart / PAGE_SIZE <= q < layout.heapEnd / PAGE_SIZE && q < PAGE_LIMIT ==>
          Walk(mem, d, q) != 0)
  }

  lemma LoadedSpace(
    m0: Memory, m1: Memory, m2: Memory, mem: Memory, d: Frame, ms: seq<Module>, ns: seq<Module>, reservedEnd: nat,
    layout: Layout)
    requires d in m0 && d in m1 && d in m2 && d in mem && layout.Ok() && reservedEnd <= KERNEL_START
    requires forall q :: 0 <= q < PAGE_LIMIT ==>
               Walk(m0, d, q) == if 0 <= q * PAGE_SIZE < reservedEnd then MakeWord(q, USER_PAGE_FLAGS) else 0
    requires Grows(m0, m1, d) && Placed(m1, d, ms, ns, reservedEnd, KERNEL_START)
    requires Grows(m1, m2, d) && Grows(m2, mem, d)
    requires forall q :: 0 <= q < PAGE_LIMIT && layout.imageStart / PAGE_SIZE <= q < layout.imageEnd / PAGE_SIZE ==>
               Walk(m2, d, q) != 0
    requires forall q :: 0 <= q < PAGE_LIMIT && layout.imageEnd / PAGE_SIZE <= q < layout.heapEnd / PAGE_SIZE ==>
               Walk(mem, d, q) != 0
    ensures LoaderDone(mem, d, ms, reservedEnd, layout)
  {
    forall q | 0 <= q < reservedEnd / PAGE_SIZE && q < PAGE_LIMIT
      ensures Walk(mem, d, q) == MakeWord(q, USER_PAGE_FLAGS)
    {
      UserPageWord(q);
      assert Walk(m0, d, q) != 0;
    }
    forall i | 0 <= i < |ms| ensures EveryByte(mem, d, ms[i], ns[i]) {
      BytesStay(m1, m2, d, ms[i], ns[i]);
      BytesStay(m2, mem, d, ms[i], ns[i]);
    }
    assert Placed(mem, d, ms, ns, reservedEnd, KERNEL_START);
  }

  /** The loader: on success one space that can be shared, its tables disjoint from the free frames. */
  method Load(pages: BitMapPageAllocator, ms: seq<Module>, reservedEnd: nat, layout: Layout)
    returns (r: Outcome<LoaderPaging>)
    requires pages.Valid() && 0 !in pages.free
    requires 0 < reservedEnd && reservedEnd % PAGE_SIZE == 0 && layout.Ok()
    requires (forall i :: 0 <= i < |ms| ==> ModuleOk(ms[i])) && reservedEnd + Total(ms) <= KERNEL_START
    modifies pages, pages.bitmap
    ensures r.Panic? ==> pages.Valid() && pages.free == {}
    ensures r.Done? ==> fresh(r.value) && r.value.allocator == pages && r.value.Valid()
    ensures r.Done? ==> WellFormed(r.value.mem, {r.value.directory})
    ensures r.Done? ==> LoaderDone(r.value.mem, r.value.directory, ms, reservedEnd, layout)
  {
    var address := pages.Allocate();
    if address == 0 {
      return Panic;
    }
    var paging := new LoaderPaging(pages, address / PAGE_SIZE);
    var _ :- paging.IdentityMap(0, reservedEnd);
    ghost var m0 := paging.mem;
    var moved :- paging.RelocateModules(ms, reservedEnd);
    ghost var m1 := paging.mem;
    var _ :- paging.MapKernelPages(layout.imageStart, layout.imageEnd);
    var _ :- paging.CreateKernelTables(layout.imageStart);
    ghost var shared := paging.mem;
    var _ :- paging.MapKernelPages(layout.imageEnd, layout.heapEnd);
    LoadedSpace(m0, m1, shared, paging.mem, paging.directory, ms, moved, reservedEnd, layout);
    BootIsWellFormed(shared, paging.directory);
    BootIsWellFormed(paging.mem, paging.directory);
    return Done(paging);
  }

  /** The kernel takes over the loader's space and frames and is ready for processes. */
  method TakeOver(paging: LoaderPaging, bitmap: array<bv8>) returns (table: ProcessTable)
    requires paging.Valid() && WellFormed(paging.mem, {paging.directory})
    requires bitmap.Length == BITMAP_LENGTH && bitmap != paging.allocator.bitmap
    modifies bitmap
    ensures fresh(table) && fresh(table.k) && table.Valid()
    ensures fresh(table.k.ppa) && fresh(table.k.ppa.pages) && fresh(table.k.references)
    ensures table.k.ppa.pages.bitmap == bitmap
    ensures table.k.dirs == {paging.directory} && table.processes == map[]
    ensures table.k.ppa.pages.free == paging.allocator.free
    ensures forall q :: 0 <= q < LOWER_MEMORY_END / PAGE_SIZE || KernelPage(q) ==>
              Walk(table.k.mem, paging.directory, q) == Walk(paging.mem, paging.directory, q)
  {
    var ppa := new PPallocator(bitmap);
    var counted := ppa.InitializeFromBitmap(paging.allocator.bitmap, paging.allocator.free);
    assert counted.Done?;
    var k := new KernelMemory(paging.mem, paging.directory, ppa);
    UnmapLoader(k);
    NoFramesInUse(k.mem, k.dirs, ppa.pages.free);
    table := new ProcessTable(k);
  }

  // The loader and the kernel that takes over.
  method Boot(
    loaderBitmap: array<bv8>, kernelBitmap: array<bv8>, rs: seq<Region>, ms: seq<Module>, reservedEnd: nat,
    layout: Layout)
    returns (r: Outcome<ProcessTable>)
    requires loaderBitmap.Length == BITMAP_LENGTH == kernelBitmap.Length && loaderBitmap != kernelBitmap
    requires forall i :: 0 <= i < |rs| ==> RegionOk(rs[i])
    requires (forall i :: 0 <= i < |ms| ==> ModuleOk(ms[i])) && reservedEnd + Total(ms) <= KERNEL_START
    requires 0 < reservedEnd && reservedEnd % PAGE_SIZE == 0 && layout.Ok()
    modifies loaderBitmap, kernelBitmap
    ensures r.Panic? ==> Represents(loaderBitmap[..], {})
    ensures r.Done? ==> fresh(r.value) && fresh(r.value.k) && r.value.Valid()
    ensures r.Done? ==> fresh(r.value.k.ppa) && fresh(r.value.k.ppa.pages) && fresh(r.value.k.references)
    ensures r.Done? ==> r.value.k.ppa.pages.bitmap == kernelBitmap
    ensures r.Done? ==> KernelReady(r.value.Now(), layout)
  {
    var pages := LoadFrames(loaderBitmap, rs, ms, reservedEnd);
    var paging := Load(pages, ms, reservedEnd, layout);
    if paging.Panic? {
      return Panic;
    }
    var table := TakeOver(paging.value, kernelBitmap);
    return Done(table);
  }

  // One space, no process, and the kernel's image and heap are there.
  ghost predicate KernelReady(s: Snapshot, layout: Layout) {
    && s.processes == map[] && |s.view.dirs| == 1 && s.view.dirs <= s.view.mem.Keys
    && forall d, q :: && d in s.view.dirs && KernelPage(q)
                      && layout.imageStart / PAGE_SIZE <= q < layout.heapEnd / PAGE_SIZE ==>
         Walk(s.view.mem, d, q) != 0
  }

  /**
   * The whole story: whatever memory map, modules and kernel the machine starts with,
   * and whatever requests follow, the system keeps its invariant or halts, for want of frames
   * or on a request to map a misaligned address, until a range is unmapped a second time.
   */
  method StartAndRun(
    loaderBitmap: array<bv8>, kernelBitmap: array<bv8>, rs: seq<Region>, ms: seq<Module>, reservedEnd: nat,
    layout: Layout, requests: seq<Request>)
    returns (r: Outcome<ProcessTable>, halted: bool, ghost spoiled: bool, ghost trace: seq<Snapshot>)
    requires loaderBitmap.Length == BITMAP_LENGTH == kernelBitmap.Length && loaderBitmap != kernelBitmap
    requires forall i :: 0 <= i < |rs| ==> RegionOk(rs[i])
    requires (forall i :: 0 <= i < |ms| ==> ModuleOk(ms[i])) && reservedEnd + Total(ms) <= KERNEL_START
    requires 0 < reservedEnd && reservedEnd % PAGE_SIZE == 0 && layout.Ok()
    modifies loaderBitmap, kernelBitmap
    ensures r.Panic? ==> halted && Represents(loaderBitmap[..], {})
    ensures r.Done? && !halted ==> (r.value.Valid() <==> !spoiled)
    ensures r.Done? ==> Traced(requests, trace) && KernelReady(trace[0], layout)
    ensures r.Done? && !halted && !spoiled ==> |trace| == |requests| + 1 && trace[|requests|] == r.value.Now()
    ensures spoiled ==> exists j :: 0 <= j < |requests| && requests[j].Unmap?
    ensures r.Done? && halted && !spoiled ==>
              r.value.k.ppa.pages.free == {} || exists j :: 0 <= j < |requests| && Misaligned(requests[j])
  {
    halted, spoiled, trace := false, false, [];
    r := Boot(loaderBitmap, kernelBitmap, rs, ms, reservedEnd, layout);
    if r.Panic? {
      halted := true;
      return;
    }
    halted, spoiled, trace := r.value.Run(requests);
  }
}
