/**
 * What the loader knows about physical memory: the regions of the boot map, the
 * modules loaded beside it, and which frames may be handed out.
 */
module BootRegions {
  import opened PageWords

  const LIMIT := 0x1_0000_0000
  const LIMIT64 := 0x1_0000_0000_0000_0000
  const TOP := 0xFFFF_FFFF

  datatype Region = Region(kind: int, base: nat, length: nat)

  datatype Module = Module(start: nat, end: nat)

  // Rounding a 32-bit address up wraps around in the last page.
  function AlignUp32(x: nat): nat { PageAlignUp(x) % LIMIT }

  predicate RegionOk(r: Region) { r.base < LIMIT64 && r.length < LIMIT64 }

  predicate ModuleOk(m: Module) { m.start <= m.end < LIMIT }

  function RegionEnd(r: Region): nat { (r.base + r.length) % LIMIT64 }

  function First(r: Region, reservedEnd: nat): nat {
    PageAlignUp(if r.base < reservedEnd then reservedEnd else r.base)
  }

  function Last(r: Region): nat { PageAlignDown(if RegionEnd(r) > TOP then TOP else RegionEnd(r)) }

  // The pages of a region the loader looks at.
  predicate Offered(r: Region, reservedEnd: nat, a: nat) {
    && r.kind == 1 && r.base <= TOP
    && a % PAGE_SIZE == 0
    && First(r, reservedEnd) <= a && a + PAGE_SIZE < Last(r)
  }

  // The loader's test for a page inside a module.
  predicate InModule(m: Module, a: nat) { PageAlignDown(m.start) <= a < AlignUp32(m.end) }

  predicate InModules(ms: seq<Module>, a: nat) { exists i :: 0 <= i < |ms| && InModule(ms[i], a) }

  predicate Freed(rs: seq<Region>, ms: seq<Module>, reservedEnd: nat, frame: nat) {
    && (exists i :: 0 <= i < |rs| && Offered(rs[i], reservedEnd, frame * PAGE_SIZE))
    && !InModules(ms, frame * PAGE_SIZE)
  }

  // Some byte of the page belongs to the module.
  predicate Touches(m: Module, a: nat) { m.start < m.end && m.start < a + PAGE_SIZE && a < m.end }

  /**
   * Unless the module reaches the last page of memory, the test tells the pages that meet it: all that hold a
   * byte of it, and no others. A module that does reach it is missed altogether.
   */
  lemma ModuleTest(m: Module, a: nat)
    requires ModuleOk(m) && a % PAGE_SIZE == 0
    ensures m.end <= LIMIT - PAGE_SIZE ==> (InModule(m, a) <==> m.start < a + PAGE_SIZE && a < m.end)
    ensures m.end <= LIMIT - PAGE_SIZE && m.start < m.end ==> (InModule(m, a) <==> Touches(m, a))
    ensures m.end > LIMIT - PAGE_SIZE ==> !InModule(m, a)
  {
  }

  /**
   * Every frame marked free lies whole in a usable region, at or above the reserved
   * end, and holds no byte of a module that ends below the last page.
   */
  lemma FreedIsSafe(rs: seq<Region>, ms: seq<Module>, reservedEnd: nat, frame: nat)
    requires Freed(rs, ms, reservedEnd, frame)
    ensures exists r :: && r in rs && r.kind == 1 && r.base <= frame * PAGE_SIZE
                        && (frame + 1) * PAGE_SIZE <= (r.base + r.length) % LIMIT64
    ensures reservedEnd <= frame * PAGE_SIZE && (frame + 1) * PAGE_SIZE < LIMIT
    ensures forall m :: m in ms && ModuleOk(m) && m.end <= LIMIT - PAGE_SIZE ==> !Touches(m, frame * PAGE_SIZE)
  {
    var a := frame * PAGE_SIZE;
    var i :| 0 <= i < |rs| && Offered(rs[i], reservedEnd, a);
    assert rs[i] in rs && rs[i].base <= a && a + PAGE_SIZE <= RegionEnd(rs[i]);
    forall m | m in ms && ModuleOk(m) && m.end <= LIMIT - PAGE_SIZE ensures !Touches(m, a) {
      var j :| 0 <= j < |ms| && ms[j] == m;
      assert !InModule(ms[j], a);
      ModuleTest(m, a);
    }
  }

  // The whole pages of a usable region below 4 GiB and above the reserved end.
  predicate WholePage(r: Region, reservedEnd: nat, a: nat) {
    && r.kind == 1 && a % PAGE_SIZE == 0
    && reservedEnd <= a && r.base <= a && a + PAGE_SIZE <= (r.base + r.length) % LIMIT64 && a + PAGE_SIZE <= TOP
  }

  /** A region offers its whole pages except the last one. */
  lemma LastPageIsSkipped(r: Region, reservedEnd: nat, a: nat)
    requires RegionOk(r)
    ensures Offered(r, reservedEnd, a) <==>
            WholePage(r, reservedEnd, a) && WholePage(r, reservedEnd, a + PAGE_SIZE)
  {
    if a % PAGE_SIZE == 0 {
      AlignedBelow(a, if RegionEnd(r) > TOP then TOP else RegionEnd(r));
      AlignedAbove(a, if r.base < reservedEnd then reservedEnd else r.base);
    }
  }

  lemma AlignedBelow(a: nat, end: nat)
    requires a % PAGE_SIZE == 0
    ensures a + PAGE_SIZE < PageAlignDown(end) <==> a + 2 * PAGE_SIZE <= end
  {
  }

  lemma AlignedAbove(a: nat, start: nat)
    requires a % PAGE_SIZE == 0
    ensures PageAlignUp(start) <= a <==> start <= a
  {
  }
}

/** The loader's work on that knowledge. */
module BootLoader {
  import opened PageWords
  import opened Bitmaps
  import opened BootRegions

  // Whether a page is in a module, and the rounded end of the first one it is in.
  method WithinModule(ms: seq<Module>, a: nat, ghost bound: nat) returns (within: bool, end: nat)
    ensures within <==> InModules(ms, a)
    ensures within ==> a < end < LIMIT && Aligned(end) && (EndsBelow(ms, bound) ==> end <= bound)
  {
    for i := 0 to |ms|
      invariant forall j :: 0 <= j < i ==> !InModule(ms[j], a)
    {
      if PageAlignDown(ms[i].start) <= a < AlignUp32(ms[i].end) {
        RoundedEnd(ms[i].end);
        return true, AlignUp32(ms[i].end);
      }
    }
    return false, 0;
  }

  predicate Aligned(a: nat) { a % PAGE_SIZE == 0 }

  lemma RoundedEnd(x: nat)
    ensures AlignUp32(x) < LIMIT && Aligned(AlignUp32(x))
  {
  }

  // A search ends with a location, or it leaves the 32-bit address range.
  datatype Search = FoundAt(location: nat) | Panicked | Wrapped

  /**
   * Looks for consecutive pages outside all modules. When everything lies far enough
   * below 4 GiB it succeeds within one page of the start or of the last module's end.
   */
  method FindFreeMemory(ms: seq<Module>, start: nat, count: nat, ghost bound: nat) returns (r: Search)
    requires start < LIMIT
    ensures r.FoundAt? ==> start <= r.location && (Aligned(start) ==> Aligned(r.location))
    ensures r.FoundAt? ==> PagesFree(ms, r.location, count)
    ensures EndsBelow(ms, bound) && start <= bound && bound + (count + 1) * PAGE_SIZE < TOP ==>
              r.FoundAt? && r.location <= bound + PAGE_SIZE
  {
    ghost var calm := EndsBelow(ms, bound) && start <= bound && bound + (count + 1) * PAGE_SIZE < TOP;
    var location := start;
    while location < TOP
      invariant start <= location < LIMIT && (Aligned(start) ==> Aligned(location))
      invariant calm ==> location <= bound + PAGE_SIZE
      decreases LIMIT - location
    {
      var window, behind := CheckWindow(ms, location, count, bound);
      if window == Outside {
        return Wrapped;
      }
      if window == Free {
        return FoundAt(location);
      }
      location := behind + PAGE_SIZE;
      assert Aligned(behind) ==> Aligned(location);
      if location >= LIMIT {
        return Wrapped;
      }
    }
    return Panicked;
  }

  datatype Window = Free | Occupied | Outside

  // Looks at every page of a window; a module that is met moves the rest of the window behind it.
  method CheckWindow(ms: seq<Module>, start: nat, count: nat, ghost bound: nat)
    returns (window: Window, location: nat)
    requires start < LIMIT
    ensures window == Free ==> PagesFree(ms, start, count)
    ensures window == Occupied ==> start <= location < LIMIT && (Aligned(start) ==> Aligned(location))
    ensures window == Occupied && EndsBelow(ms, bound) ==> location <= bound
    ensures window == Outside && EndsBelow(ms, bound) && start <= bound + PAGE_SIZE ==>
              bound + (count + 1) * PAGE_SIZE >= TOP
  {
    location := start;
    window := Free;
    for i := 0 to count
      invariant window != Outside
      invariant start <= location < LIMIT && (Aligned(start) ==> Aligned(location))
      invariant window == Occupied && EndsBelow(ms, bound) ==> location <= bound
      invariant window == Free ==> location == start
      invariant window == Free ==> PagesFree(ms, start, i)
    {
      var pos := PageAt(location, i);
      if pos >= LIMIT {
        FitsBelow(bound, count, location, i);
        return Outside, location;
      }
      var within, end := WithinModule(ms, pos, bound);
      if within {
        window, location := Occupied, end;
      }
    }
  }

  function PageAt(location: nat, i: nat): nat { location + i * PAGE_SIZE }

  // The first count pages from there lie below 4 GiB and in no module.
  ghost predicate PagesFree(ms: seq<Module>, location: nat, count: nat) {
    forall i: nat :: i < count ==> PageAt(location, i) < LIMIT && !InModules(ms, PageAt(location, i))
  }

  ghost predicate EndsBelow(ms: seq<Module>, bound: nat) { forall i :: 0 <= i < |ms| ==> AlignUp32(ms[i].end) <= bound }

  lemma FitsBelow(bound: nat, count: nat, location: nat, i: nat)
    requires i < count && PageAt(location, i) >= LIMIT
    ensures location <= bound + PAGE_SIZE ==> bound + (count + 1) * PAGE_SIZE >= TOP
  {
    assert i * PAGE_SIZE <= (count - 1) * PAGE_SIZE;
  }

  /** The pages found hold no byte of a module that ends below the last page of memory. */
  lemma FoundPagesAreFree(ms: seq<Module>, a: nat, m: Module)
    requires a % PAGE_SIZE == 0 && !InModules(ms, a) && m in ms && ModuleOk(m) && m.end <= LIMIT - PAGE_SIZE
    ensures !Touches(m, a)
  {
    var i :| 0 <= i < |ms| && ms[i] == m;
    assert !InModule(ms[i], a);
    ModuleTest(m, a);
  }

  // The frames of a region that get marked, from a page address on.
  ghost function FreedFrom(r: Region, ms: seq<Module>, reservedEnd: nat, low: nat, high: nat): set<int> {
    set f | 0 <= f < FRAME_LIMIT && low <= f * PAGE_SIZE < high &&
            Offered(r, reservedEnd, f * PAGE_SIZE) && !InModules(ms, f * PAGE_SIZE)
  }

  method LoadRegion(allocator: BitMapPageAllocator, r: Region, ms: seq<Module>, reservedEnd: nat)
    requires allocator.Valid() && RegionOk(r)
    modifies allocator, allocator.bitmap
    ensures allocator.Valid()
    ensures allocator.free == old(allocator.free) + FreedFrom(r, ms, reservedEnd, 0, LIMIT)
  {
    if r.kind != 1 || r.base > TOP {
      assert FreedFrom(r, ms, reservedEnd, 0, LIMIT) == {};
      return;
    }
    var areaStart := if r.base < reservedEnd then reservedEnd else r.base;
    var areaEnd := if RegionEnd(r) > TOP then TOP else RegionEnd(r);
    if PageAlignDown(areaEnd) <= PageAlignUp(areaStart) {
      assert FreedFrom(r, ms, reservedEnd, 0, LIMIT) == {};
      return;
    }
    MarkPages(allocator, r, ms, reservedEnd);
  }

  // Walks over the pages of a usable region.
  method MarkPages(allocator: BitMapPageAllocator, r: Region, ms: seq<Module>, reservedEnd: nat)
    requires allocator.Valid() && r.kind == 1 && r.base <= TOP && First(r, reservedEnd) < Last(r)
    modifies allocator, allocator.bitmap
    ensures allocator.Valid()
    ensures allocator.free == old(allocator.free) + FreedFrom(r, ms, reservedEnd, 0, LIMIT)
  {
    ghost var before := allocator.free;
    var areaStart, areaEnd := First(r, reservedEnd), Last(r);
    NothingOutside(r, ms, reservedEnd, areaStart, areaEnd);
    while areaStart < areaEnd - PAGE_SIZE
      invariant areaStart % PAGE_SIZE == 0 && First(r, reservedEnd) <= areaStart
      invariant allocator.Valid()
      invariant allocator.free == before + FreedFrom(r, ms, reservedEnd, 0, areaStart)
    {
      var isInModule, _ := WithinModule(ms, areaStart, 0);
      NextPage(r, ms, reservedEnd, areaStart);
      if !isInModule {
        allocator.MarkFree(areaStart);
      }
      areaStart := areaStart + PAGE_SIZE;
    }
    NothingOutside(r, ms, reservedEnd, First(r, reservedEnd), areaStart);
  }

  lemma NothingOutside(r: Region, ms: seq<Module>, reservedEnd: nat, low: nat, high: nat)
    requires low <= First(r, reservedEnd)
    ensures FreedFrom(r, ms, reservedEnd, 0, low) == {}
    ensures high + PAGE_SIZE >= Last(r) ==>
              FreedFrom(r, ms, reservedEnd, 0, LIMIT) == FreedFrom(r, ms, reservedEnd, 0, high)
  {
  }

  lemma NextPage(r: Region, ms: seq<Module>, reservedEnd: nat, a: nat)
    requires a % PAGE_SIZE == 0 && Offered(r, reservedEnd, a)
    ensures FreedFrom(r, ms, reservedEnd, 0, a + PAGE_SIZE) ==
            FreedFrom(r, ms, reservedEnd, 0, a) + if InModules(ms, a) then {} else {a / PAGE_SIZE}
  {
    assert a + PAGE_SIZE <= TOP;
    assert a / PAGE_SIZE * PAGE_SIZE == a;
    forall f: nat ensures f * PAGE_SIZE < a + PAGE_SIZE <==> f * PAGE_SIZE < a || f == a / PAGE_SIZE {
    }
  }

  /** Marks exactly the frames that are free to hand out. */
  method LoadMemoryMap(allocator: BitMapPageAllocator, rs: seq<Region>, ms: seq<Module>, reservedEnd: nat)
    requires allocator.Valid() && allocator.free == {} && forall i :: 0 <= i < |rs| ==> RegionOk(rs[i])
    modifies allocator, allocator.bitmap
    ensures allocator.Valid()
    ensures forall f: nat :: f in allocator.free <==> f < FRAME_LIMIT && Freed(rs, ms, reservedEnd, f)
  {
    for i := 0 to |rs|
      invariant allocator.Valid()
      invariant forall f: nat :: f in allocator.free <==> f < FRAME_LIMIT && Freed(rs[..i], ms, reservedEnd, f)
    {
      LoadRegion(allocator, rs[i], ms, reservedEnd);
      forall f: nat
        ensures Freed(rs[..i + 1], ms, reservedEnd, f) <==>
                Freed(rs[..i], ms, reservedEnd, f) ||
                (Offered(rs[i], reservedEnd, f * PAGE_SIZE) && !InModules(ms, f * PAGE_SIZE))
      {
        FreedSteps(rs, i, ms, reservedEnd, f);
      }
    }
    assert rs[..|rs|] == rs;
  }

  lemma FreedSteps(rs: seq<Region>, i: nat, ms: seq<Module>, reservedEnd: nat, f: nat)
    requires i < |rs|
    ensures Freed(rs[..i + 1], ms, reservedEnd, f) <==>
            Freed(rs[..i], ms, reservedEnd, f) ||
            (Offered(rs[i], reservedEnd, f * PAGE_SIZE) && !InModules(ms, f * PAGE_SIZE))
  {
    var a := f * PAGE_SIZE;
    assert rs[..i + 1] == rs[..i] + [rs[i]];
    if Freed(rs[..i + 1], ms, reservedEnd, f) {
      var j :| 0 <= j < i + 1 && Offered(rs[..i + 1][j], reservedEnd, a);
      assert j < i ==> Offered(rs[..i][j], reservedEnd, a);
    }
    if Freed(rs[..i], ms, reservedEnd, f) {
      var j :| 0 <= j < i && Offered(rs[..i][j], reservedEnd, a);
      assert Offered(rs[..i + 1][j], reservedEnd, a);
    }
    if Offered(rs[i], reservedEnd, a) {
      assert Offered(rs[..i + 1][i], reservedEnd, a);
    }
  }
}

/** The loader's paging: identity mapping, the move of the modules, and the kernel's own tables. */
module BootPaging {
  import opened PageWords
  import opened PageTables
  import opened Bitmaps
  import opened PhysicalPages
  import opened AddressSpaces
  import opened KernelTables
  import opened BootRegions

  const KERNEL_START := 0xC000_0000

  // The physical address behind a virtual one.
  ghost function Translate(mem: Memory, d: Frame, a: nat): int
    requires d in mem && a / PAGE_SIZE < PAGE_LIMIT
  {
    FrameOf(Walk(mem, d, a / PAGE_SIZE)) * PAGE_SIZE + a % PAGE_SIZE
  }

  function Span(m: Module): nat
    requires ModuleOk(m)
  {
    assert PageAlignUp(m.end) >= PageAlignDown(m.start);
    PageAlignUp(m.end) - PageAlignDown(m.start)
  }

  function Moved(m: Module, next: nat): Module
    requires ModuleOk(m)
  {
    var start := next + m.start % PAGE_SIZE;
    Module(start, start + m.end - m.start)
  }

  ghost function Total(ms: seq<Module>): nat
    requires forall i :: 0 <= i < |ms| ==> ModuleOk(ms[i])
  {
    if ms == [] then 0 else Span(ms[0]) + Total(ms[1..])
  }

  // The next module starts right behind the pages of this one.
  lemma MovedEnd(m: Module, next: nat)
    requires ModuleOk(m) && next % PAGE_SIZE == 0
    ensures PageAlignUp(Moved(m, next).end) == next + Span(m) && Span(m) % PAGE_SIZE == 0
  {
    assert Moved(m, next).end == next - PageAlignDown(m.start) + m.end;
    AlignUpShifts(m.end, next - PageAlignDown(m.start));
  }

  lemma AlignUpShifts(x: nat, d: int)
    requires d % PAGE_SIZE == 0 && x + d >= 0
    ensures PageAlignUp(x + d) == PageAlignUp(x) + d
  {
    assert (x + d) % PAGE_SIZE == x % PAGE_SIZE;
  }

  // Page k of the module, moved to next, shows page k of its old place.
  ghost predicate Shows(mem: Memory, d: Frame, m: Module, next: nat, k: nat)
    requires d in mem && next / PAGE_SIZE + k < PAGE_LIMIT
  {
    Walk(mem, d, next / PAGE_SIZE + k) == MakeWord(m.start / PAGE_SIZE + k, USER_PAGE_FLAGS)
  }

  // Byte b of the module is found at its new address.
  ghost predicate ByteMoved(mem: Memory, d: Frame, m: Module, moved: Module, b: nat)
    requires d in mem
  {
    && (moved.start + b) / PAGE_SIZE < PAGE_LIMIT
    && Walk(mem, d, (moved.start + b) / PAGE_SIZE) != 0
    && Translate(mem, d, moved.start + b) == m.start + b
  }

  ghost predicate EveryByte(mem: Memory, d: Frame, m: Module, moved: Module)
    requires d in mem
  {
    forall b: nat :: b < m.end - m.start ==> ByteMoved(mem, d, m, moved, b)
  }

  lemma ShownBytes(mem: Memory, d: Frame, m: Module, next: nat)
    requires d in mem && ModuleOk(m) && next % PAGE_SIZE == 0 && next + Span(m) <= KERNEL_START
    requires forall k: nat :: k < Span(m) / PAGE_SIZE ==> Shows(mem, d, m, next, k)
    ensures EveryByte(mem, d, m, Moved(m, next))
  {
    forall b: nat | b < m.end - m.start ensures ByteMoved(mem, d, m, Moved(m, next), b) {
      ByteOfPage(m, next, b);
      var k := (m.start % PAGE_SIZE + b) / PAGE_SIZE;
      assert Shows(mem, d, m, next, k);
      WordParts(m.start / PAGE_SIZE + k, USER_PAGE_FLAGS);
    }
  }

  lemma ByteOfPage(m: Module, next: nat, b: nat)
    requires ModuleOk(m) && next % PAGE_SIZE == 0 && b < m.end - m.start && next + Span(m) <= KERNEL_START
    ensures var o := m.start % PAGE_SIZE + b;
      && o / PAGE_SIZE < Span(m) / PAGE_SIZE
      && next / PAGE_SIZE + o / PAGE_SIZE < PAGE_LIMIT
      && (next + o) / PAGE_SIZE == next / PAGE_SIZE + o / PAGE_SIZE && (next + o) % PAGE_SIZE == o % PAGE_SIZE
      && m.start + b == (m.start / PAGE_SIZE + o / PAGE_SIZE) * PAGE_SIZE + o % PAGE_SIZE
  {
    var o := m.start % PAGE_SIZE + b;
    assert PageAlignDown(m.start) + o < m.end;
    assert o < Span(m);
    MovedEnd(m, next);
  }

  // Pages that translated keep their translation.
  ghost predicate Grows(before: Memory, after: Memory, d: Frame)
    requires d in before && d in after
  {
    forall q :: 0 <= q < PAGE_LIMIT && Walk(before, d, q) != 0 ==> Walk(after, d, q) == Walk(before, d, q)
  }

  // Tables that a directory has stay where they are.
  ghost predicate KeepsTables(before: Memory, after: Memory, d: Frame)
    requires d in before && d in after
  {
    forall i :: 0 <= i < ENTRIES && before[d][i] != 0 ==> after[d][i] == before[d][i]
  }

  // Each page from first to last has a word, a new one for the kernel alone, with a frame of its own from the
  // pool; nothing else changed.
  ghost predicate GivenFrames(
    before: Memory, after: Memory, d: Frame, first: int, last: int, pool: set<int>, left: set<int>)
    requires d in before && d in after
  {
    && (forall q :: 0 <= q < PAGE_LIMIT && (!(first <= q < last) || Walk(before, d, q) != 0) ==>
          Walk(after, d, q) == Walk(before, d, q))
    && (forall q :: 0 <= q < PAGE_LIMIT && first <= q < last ==> Walk(after, d, q) != 0)
    && (forall q :: 0 <= q < PAGE_LIMIT && first <= q < last && Walk(before, d, q) == 0 ==>
          KernelWord(Walk(after, d, q)) && FrameOf(Walk(after, d, q)) in pool - left)
    && forall q, o ::
         && 0 <= q < o < PAGE_LIMIT && first <= q && o < last
         && Walk(before, d, q) == 0 && Walk(before, d, o) == 0 ==>
         FrameOf(Walk(after, d, q)) != FrameOf(Walk(after, d, o))
  }

  lemma GivenFramesNext(
    before: Memory, middle: Memory, after: Memory, d: Frame, first: int, p: int,
    pool: set<int>, some: set<int>, left: set<int>)
    requires d in before && d in middle && d in after && 0 <= first <= p < PAGE_LIMIT && left <= some <= pool
    requires GivenFrames(before, middle, d, first, p, pool, some) && GivenFrames(middle, after, d, p, p + 1, some, left)
    ensures GivenFrames(before, after, d, first, p + 1, pool, left)
  {
    assert Walk(middle, d, p) == Walk(before, d, p);
    forall q | first <= q < p ensures Walk(after, d, q) == Walk(middle, d, q) != 0 {}
  }

  lemma BytesStay(before: Memory, after: Memory, d: Frame, m: Module, moved: Module)
    requires d in before && d in after && EveryByte(before, d, m, moved) && Grows(before, after, d)
    ensures EveryByte(after, d, m, moved)
  {
    forall b: nat | b < m.end - m.start ensures ByteMoved(after, d, m, moved, b) {
      assert ByteMoved(before, d, m, moved, b);
    }
  }

  // Nothing is mapped from an address up to the kernel's area.
  ghost predicate MappedBelow(mem: Memory, d: Frame, end: nat)
    requires d in mem
  {
    forall q :: end / PAGE_SIZE <= q < FIRST_KERNEL_TABLE * ENTRIES ==> Walk(mem, d, q) == 0
  }

  // Modules in their new places: every byte is found, lengths are kept, and nothing overlaps.
  ghost predicate Placed(mem: Memory, d: Frame, ms: seq<Module>, ns: seq<Module>, first: nat, last: nat)
    requires d in mem
  {
    && |ns| == |ms| && first <= last && last % PAGE_SIZE == 0
    && (forall i :: 0 <= i < |ms| ==> EveryByte(mem, d, ms[i], ns[i]))
    && (forall i :: 0 <= i < |ms| ==> ns[i].start + ms[i].end == ns[i].end + ms[i].start)
    && (forall i :: 0 <= i < |ms| ==> first <= ns[i].start && ns[i].end <= last)
    && (forall i, j :: 0 <= i < j < |ms| ==> ns[i].end <= ns[j].start)
  }

  lemma PlacedNext(
    before: Memory, after: Memory, d: Frame, ms: seq<Module>, ns: seq<Module>, first: nat, next: nat, m: Module)
    requires d in before && d in after && Grows(before, after, d) && ModuleOk(m)
    requires Placed(before, d, ms, ns, first, next) && EveryByte(after, d, m, Moved(m, next))
    ensures Placed(after, d, ms + [m], ns + [Moved(m, next)], first, next + Span(m))
  {
    MovedEnd(m, next);
    forall i | 0 <= i < |ms| ensures EveryByte(after, d, ms[i], ns[i]) {
      BytesStay(before, after, d, ms[i], ns[i]);
    }
  }

  lemma PageOfModule(m: Module, next: nat, k: nat)
    requires next % PAGE_SIZE == 0
    ensures (next + k * PAGE_SIZE) / PAGE_SIZE == next / PAGE_SIZE + k
    ensures (PageAlignDown(m.start) + k * PAGE_SIZE) / PAGE_SIZE == m.start / PAGE_SIZE + k
  {
  }

  lemma BelowNext(before: Memory, after: Memory, d: Frame, end: nat)
    requires d in before && d in after && MappedBelow(before, d, end) && end % PAGE_SIZE == 0
    requires forall q :: 0 <= q < PAGE_LIMIT && q != end / PAGE_SIZE ==> Walk(after, d, q) == Walk(before, d, q)
    ensures MappedBelow(after, d, end + PAGE_SIZE)
  {
  }

  class LoaderPaging {
    var mem: Memory
    const directory: Frame
    const allocator: BitMapPageAllocator

    ghost predicate Valid()
      reads this, allocator, allocator.bitmap
    {
      && allocator.Valid() && 0 !in allocator.free
      && BootSpace(mem, directory)
      && forall f :: f in mem ==> f !in allocator.free
    }

    // A directory in a frame of its own, with nothing but the recursive slot.
    constructor (pages: BitMapPageAllocator, frame: Frame)
      requires pages.Valid() && 0 !in pages.free && frame !in pages.free
      ensures allocator == pages && directory == frame && Valid()
      ensures forall q :: 0 <= q < PAGE_LIMIT ==> Walk(mem, directory, q) == 0
    {
      allocator, directory := pages, frame;
      mem := map[frame := EMPTY_PAGE_TABLE[SELF_TABLE := MakeWord(frame, KERNEL_TABLE_FLAGS)]];
      EmptySpace(frame);
    }

    // Creates a missing table; the model ends where the loader finds no frame for it.
    method EnsureTable(ti: int, tableFlags: Flags) returns (r: Outcome<()>)
      requires Valid() && 0 <= ti < SELF_TABLE && FlagsFit(ti, tableFlags)
      modifies `mem, allocator, allocator.bitmap
      ensures Valid() && SameTranslations(old(mem), mem, {directory})
      ensures r.Panic? <==> old(mem)[directory][ti] == 0 && old(allocator.free) == {}
      ensures allocator.free <= old(allocator.free)
      ensures r.Done? ==> mem[directory][ti] != 0
      ensures forall i :: 0 <= i < ENTRIES && i != ti ==> mem[directory][i] == old(mem)[directory][i]
      ensures old(mem)[directory][ti] != 0 ==> mem == old(mem)
    {
      if mem[directory][ti] == 0 {
        var page := allocator.Allocate();
        if page == 0 {
          return Panic;
        }
        var t := page / PAGE_SIZE;
        InstallBootTable(mem, directory, ti, t, tableFlags);
        mem := mem[t := EMPTY_PAGE_TABLE][directory := mem[directory][ti := MakeWord(t, tableFlags)]];
      }
      return Done(());
    }

    /** Sets exactly one page; a page that is mapped already stops the loader. */
    method MapPage(virt: nat, phys: nat, tableFlags: Flags, pageFlags: Flags) returns (r: Outcome<()>)
      requires Valid() && virt / PAGE_SIZE < PAGE_LIMIT && FlagsFit(virt / PAGE_SIZE / ENTRIES, tableFlags)
      modifies `mem, allocator, allocator.bitmap
      ensures Valid() && allocator.free <= old(allocator.free)
      ensures r.Panic? <==>
                || old(Walk(mem, directory, virt / PAGE_SIZE)) != 0
                || (old(mem)[directory][virt / PAGE_SIZE / ENTRIES] == 0 && old(allocator.free) == {})
      ensures r.Done? ==>
                PageSet(old(mem), mem, {directory}, directory, virt / PAGE_SIZE, MakeWord(phys / PAGE_SIZE, pageFlags))
      ensures r.Panic? ==> SameTranslations(old(mem), mem, {directory})
      ensures r.Done? ==> mem[directory][virt / PAGE_SIZE / ENTRIES] != 0
      ensures KeepsTables(old(mem), mem, directory)
    {
      var ti, pi := virt / PAGE_SIZE / ENTRIES, virt / PAGE_SIZE % ENTRIES;
      var _ :- EnsureTable(ti, tableFlags);
      var w := MakeWord(phys / PAGE_SIZE, pageFlags);
      WriteBootEntry(mem, directory, ti, pi, w);
      var t := FrameOf(mem[directory][ti]);
      if mem[t][pi] != 0 {
        return Panic;
      }
      mem := WriteEntry(mem, t, pi, w);
      return Done(());
    }

    // A user page below the kernel's area that is not mapped yet.
    method MapUserPage(virt: nat, phys: nat) returns (r: Outcome<()>)
      requires Valid() && virt < KERNEL_START && Walk(mem, directory, virt / PAGE_SIZE) == 0
      modifies `mem, allocator, allocator.bitmap
      ensures Valid() && allocator.free <= old(allocator.free)
      ensures r.Panic? ==> allocator.free == {}
      ensures r.Done? ==>
                PageSet(old(mem), mem, {directory}, directory, virt / PAGE_SIZE,
                        MakeWord(phys / PAGE_SIZE, USER_PAGE_FLAGS))
      ensures r.Done? && virt / PAGE_SIZE < ENTRIES ==> mem[directory][0] != 0
      ensures old(mem)[directory][0] != 0 ==> mem[directory][0] != 0
    {
      r := MapPage(virt, phys, USER_TABLE_FLAGS, USER_PAGE_FLAGS);
    }

    /** Every page of the range shows the frame of the same number, and no other page is mapped. */
    method IdentityMap(start: nat, end: nat) returns (r: Outcome<()>)
      requires Valid() && start % PAGE_SIZE == 0 && end % PAGE_SIZE == 0 && end <= KERNEL_START
      requires forall q :: 0 <= q < PAGE_LIMIT ==> Walk(mem, directory, q) == 0
      modifies `mem, allocator, allocator.bitmap
      ensures Valid() && allocator.free <= old(allocator.free)
      ensures r.Panic? ==> allocator.free == {}
      ensures r.Done? ==> forall q :: 0 <= q < PAGE_LIMIT ==>
                Walk(mem, directory, q) == if start <= q * PAGE_SIZE < end then MakeWord(q, USER_PAGE_FLAGS) else 0
      ensures r.Done? && start == 0 < end ==> mem[directory][0] != 0
    {
      var a := start;
      while a < end
        invariant a % PAGE_SIZE == 0 && start <= a && (a <= end || a == start)
        invariant Valid() && allocator.free <= old(allocator.free)
        invariant forall q :: 0 <= q < PAGE_LIMIT ==>
                    Walk(mem, directory, q) == if start <= q * PAGE_SIZE < a then MakeWord(q, USER_PAGE_FLAGS) else 0
        invariant start == 0 < a ==> mem[directory][0] != 0
      {
        var _ :- MapUserPage(a, a);
        a := a + PAGE_SIZE;
      }
      return Done(());
    }

    // Maps the pages of a module to the place behind everything mapped so far.
    method MapModule(m: Module, next: nat) returns (r: Outcome<()>)
      requires Valid() && ModuleOk(m) && next % PAGE_SIZE == 0 && next + Span(m) <= KERNEL_START
      requires MappedBelow(mem, directory, next) && mem[directory][0] != 0
      modifies `mem, allocator, allocator.bitmap
      ensures Valid() && allocator.free <= old(allocator.free)
      ensures r.Panic? ==> allocator.free == {}
      ensures r.Done? ==> Grows(old(mem), mem, directory) && MappedBelow(mem, directory, next + Span(m))
      ensures r.Done? ==> EveryByte(mem, directory, m, Moved(m, next)) && mem[directory][0] != 0
    {
      MovedEnd(m, next);
      var physical, off := PageAlignDown(m.start), 0;
      ghost var k := 0;
      while off < Span(m)
        invariant off == k * PAGE_SIZE && off <= Span(m)
        invariant Valid() && allocator.free <= old(allocator.free) && mem[directory][0] != 0
        invariant Grows(old(mem), mem, directory) && MappedBelow(mem, directory, next + off)
        invariant forall j: nat :: j < k ==> Shows(mem, directory, m, next, j)
      {
        ghost var before := mem;
        PageOfModule(m, next, k);
        var _ :- MapUserPage(next + off, physical + off);
        ShowsNext(before, mem, directory, m, next, k);
        BelowNext(before, mem, directory, next + off);
        off, k := off + PAGE_SIZE, k + 1;
      }
      ShownBytes(mem, directory, m, next);
      return Done(());
    }

    /**
     * Moves the modules behind the reserved area. No page is met twice, the new places
     * do not overlap, and every byte of a module is found at its new address.
     */
    method RelocateModules(ms: seq<Module>, reservedEnd: nat) returns (r: Outcome<seq<Module>>)
      requires Valid() && mem[directory][0] != 0 && forall i :: 0 <= i < |ms| ==> ModuleOk(ms[i])
      requires reservedEnd % PAGE_SIZE == 0 && MappedBelow(mem, directory, reservedEnd)
      requires reservedEnd + Total(ms) <= KERNEL_START
      modifies `mem, allocator, allocator.bitmap
      ensures Valid() && allocator.free <= old(allocator.free)
      ensures r.Panic? ==> allocator.free == {}
      ensures r.Done? ==> Grows(old(mem), mem, directory) && mem[directory][0] != 0
      ensures r.Done? ==> Placed(mem, directory, ms, r.value, reservedEnd, KERNEL_START)
    {
      var ns := [];
      var next: nat := reservedEnd;
      for i := 0 to |ms|
        invariant Valid() && allocator.free <= old(allocator.free) && mem[directory][0] != 0
        invariant MappedBelow(mem, directory, next) && next + Total(ms[i..]) <= KERNEL_START
        invariant Grows(old(mem), mem, directory)
        invariant Placed(mem, directory, ms[..i], ns, reservedEnd, next)
      {
        ghost var before := mem;
        MovedEnd(ms[i], next);
        assert ms[i..][0] == ms[i] && ms[i..][1..] == ms[i + 1..];
        var _ :- MapModule(ms[i], next);
        PlacedNext(before, mem, directory, ms[..i], ns, reservedEnd, next, ms[i]);
        assert ms[..i + 1] == ms[..i] + [ms[i]];
        ns := ns + [Moved(ms[i], next)];
        next := PageAlignUp(Moved(ms[i], next).end);
      }
      assert ms[..|ms|] == ms;
      return Done(ns);
    }

    // Gives a page of the kernel a frame, unless it has one.
    method MapKernelPage(virt: nat) returns (r: Outcome<()>)
      requires Valid() && KERNEL_START <= virt && virt / PAGE_SIZE < PAGE_LIMIT
      modifies `mem, allocator, allocator.bitmap
      ensures Valid() && allocator.free <= old(allocator.free)
      ensures r.Panic? ==> allocator.free == {}
      ensures r.Done? ==> KeepsTables(old(mem), mem, directory)
      ensures r.Done? ==> GivenFrames(old(mem), mem, directory, virt / PAGE_SIZE, virt / PAGE_SIZE + 1,
                                      old(allocator.free), allocator.free)
    {
      var phys := allocator.Allocate();
      if phys == 0 {
        return Panic;
      }
      assert 0 !in allocator.free;
      if Walk(mem, directory, virt / PAGE_SIZE) == 0 {
        KernelPageWord(phys / PAGE_SIZE);
        var _ :- MapPage(virt, phys, KERNEL_TABLE_FLAGS, KERNEL_PAGE_FLAGS);
      }
      return Done(());
    }

    /** Gives every page of the kernel's image, stack or heap a frame of its own and touches no other page. */
    method MapKernelPages(start: nat, end: nat) returns (r: Outcome<()>)
      requires Valid() && KERNEL_START <= start && end / PAGE_SIZE <= PAGE_LIMIT
      requires start % PAGE_SIZE == 0 && end % PAGE_SIZE == 0
      modifies `mem, allocator, allocator.bitmap
      ensures Valid() && allocator.free <= old(allocator.free)
      ensures r.Panic? ==> allocator.free == {}
      ensures r.Done? ==> KeepsTables(old(mem), mem, directory)
      ensures r.Done? ==> GivenFrames(old(mem), mem, directory, start / PAGE_SIZE, end / PAGE_SIZE,
                                      old(allocator.free), allocator.free)
    {
      var virt := start;
      while virt < end
        invariant virt % PAGE_SIZE == 0 && start <= virt && (virt <= end || virt == start)
        invariant Valid() && allocator.free <= old(allocator.free)
        invariant KeepsTables(old(mem), mem, directory)
        invariant GivenFrames(old(mem), mem, directory, start / PAGE_SIZE, virt / PAGE_SIZE,
                              old(allocator.free), allocator.free)
      {
        ghost var middle, some := mem, allocator.free;
        var _ :- MapKernelPage(virt);
        GivenFramesNext(old(mem), middle, mem, directory, start / PAGE_SIZE, virt / PAGE_SIZE,
                        old(allocator.free), some, allocator.free);
        virt := virt + PAGE_SIZE;
      }
      return Done(());
    }

    /**
     * Creates the missing tables from the one of the kernel image upwards. Afterwards
     * the space is fit to be shared if and only if no kernel table below that one is missing.
     */
    method CreateKernelTables(kernelImageStart: nat) returns (r: Outcome<()>)
      requires Valid() && mem[directory][0] != 0
      requires FIRST_KERNEL_TABLE <= kernelImageStart / PAGE_SIZE / ENTRIES < SELF_TABLE
      modifies `mem, allocator, allocator.bitmap
      ensures Valid() && allocator.free <= old(allocator.free)
      ensures r.Panic? ==> allocator.free == {}
      ensures SameTranslations(old(mem), mem, {directory})
      ensures r.Done? ==> KernelTablesFrom(mem, directory, kernelImageStart / PAGE_SIZE / ENTRIES, ENTRIES)
      ensures r.Done? ==>
                (WellFormed(mem, {directory}) <==>
                 KernelTablesFrom(old(mem), directory, FIRST_KERNEL_TABLE, kernelImageStart / PAGE_SIZE / ENTRIES))
    {
      var first := kernelImageStart / PAGE_SIZE / ENTRIES;
      var ti := first;
      // the recursive slot, the last one, is always there
      while ti < SELF_TABLE
        invariant first <= ti <= SELF_TABLE
        invariant Valid() && allocator.free <= old(allocator.free)
        invariant KernelTablesFrom(mem, directory, first, ti)
        invariant forall i :: 0 <= i < first ==> mem[directory][i] == old(mem)[directory][i]
        invariant SameTranslations(old(mem), mem, {directory})
      {
        var _ :- EnsureTable(ti, KERNEL_TABLE_FLAGS);
        ti := ti + 1;
      }
      BootIsWellFormed(mem, directory);
      return Done(());
    }
  }

  lemma ShowsNext(before: Memory, after: Memory, d: Frame, m: Module, next: nat, k: nat)
    requires d in before && d in after && next / PAGE_SIZE + k < PAGE_LIMIT
    requires Walk(before, d, next / PAGE_SIZE + k) == 0
    requires PageSet(before, after, {d}, d, next / PAGE_SIZE + k, MakeWord(m.start / PAGE_SIZE + k, USER_PAGE_FLAGS))
    requires forall j: nat :: j < k ==> Shows(before, d, m, next, j)
    ensures Grows(before, after, d)
    ensures forall j: nat :: j < k + 1 ==> Shows(after, d, m, next, j)
  {
    forall j: nat | j < k + 1 ensures Shows(after, d, m, next, j) {
      assert j < k ==> Shows(before, d, m, next, j);
    }
  }
}
