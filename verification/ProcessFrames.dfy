/**
 * Which frames the process areas of all address spaces use, and how their
 * reference counts follow every change of a mapping.
 */
module ProcessFrames {
  import opened PageWords
  import opened PageTables
  import opened FrameReferences
  import opened AddressSpaces
  import opened ForkedSpaces
  import opened Sets

  const SPACE_LIMIT := 0x1_0000

  ghost predicate MapsTo(mem: Memory, d: Frame, p: int, f: Frame)
    requires d in mem && ProcessPage(p)
  {
    Walk(mem, d, p) != 0 && FrameOf(Walk(mem, d, p)) == f
  }

  // All (space, page) pairs of process areas that resolve to frame f.
  ghost function Mappers(mem: Memory, dirs: set<Frame>, f: Frame): set<(Frame, int)>
    requires dirs <= mem.Keys
  {
    set d, p | d in dirs && ENTRIES <= p < FIRST_RANGE_TABLE * ENTRIES && MapsTo(mem, d, p, f) :: (d, p)
  }

  ghost predicate Counted(mem: Memory, dirs: set<Frame>, counts: Counts)
    requires dirs <= mem.Keys
  {
    && CountsOk(counts)
    && (forall f: Frame :: CountIn(counts, f) == Wrap16(|Mappers(mem, dirs, f)|))
    && (forall f: Frame :: Mappers(mem, dirs, f) != {} ==> f / ENTRIES in counts)
  }

  // A mapped page is open to the process; its frame is no page table, is not free, and shows up once per space.
  ghost predicate FrameInUse(mem: Memory, d: Frame, p: int, free: set<int>)
    requires d in mem && ProcessPage(p)
  {
    var w := Walk(mem, d, p);
    w != 0 ==>
      && IsPresent(w) && IsUser(w)
      && FrameOf(w) !in free && FrameOf(w) !in mem && 0 < FrameOf(w) < FRAME_LIMIT
      && forall q :: ProcessPage(q) && MapsTo(mem, d, q, FrameOf(w)) ==> q == p
  }

  ghost predicate FramesInUse(mem: Memory, dirs: set<Frame>, free: set<int>)
    requires dirs <= mem.Keys
  {
    forall d, p :: d in dirs && ProcessPage(p) ==> FrameInUse(mem, d, p, free)
  }

  // What a process can write, no other page of any process area shows.
  ghost predicate WritersAlone(mem: Memory, dirs: set<Frame>)
    requires dirs <= mem.Keys
  {
    forall d, p, e, q :: d in dirs && e in dirs && ProcessPage(p) && ProcessPage(q) ==> WriterAlone(mem, d, p, e, q)
  }

  ghost predicate WriterAlone(mem: Memory, d: Frame, p: int, e: Frame, q: int)
    requires d in mem && e in mem && ProcessPage(p) && ProcessPage(q)
  {
    var w := Walk(mem, d, p);
    w != 0 && IsWritable(w) && MapsTo(mem, e, q, FrameOf(w)) ==> e == d && q == p
  }

  ghost predicate FramesOk(mem: Memory, dirs: set<Frame>, counts: Counts, free: set<int>) {
    && dirs <= mem.Keys
    && Counted(mem, dirs, counts)
    && FramesInUse(mem, dirs, free)
    && WritersAlone(mem, dirs)
  }

  /** A page that moves to a frame nobody maps, or away, leaves every writer alone. */
  lemma WritersAfterPageSet(before: Memory, after: Memory, dirs: set<Frame>, d: Frame, p: int, w: Word)
    requires dirs <= before.Keys && dirs <= after.Keys && d in dirs && ProcessPage(p)
    requires WritersAlone(before, dirs) && PageSet(before, after, dirs, d, p, w)
    requires w != 0 ==> Mappers(before, dirs, FrameOf(w)) == {}
    ensures WritersAlone(after, dirs)
  {
    assert !SharedIndex(p / ENTRIES);
    forall x, i, y, j | x in dirs && y in dirs && ProcessPage(i) && ProcessPage(j)
      ensures WriterAlone(after, x, i, y, j)
    {
      assert WriterAlone(before, x, i, y, j);
      assert w != 0 ==> (x, i) !in Mappers(before, dirs, FrameOf(w)) && (y, j) !in Mappers(before, dirs, FrameOf(w));
    }
  }

  /** No frame has more mappers than there are address spaces. */
  lemma MappersPerSpace(mem: Memory, dirs: set<Frame>, free: set<int>, f: Frame)
    requires dirs <= mem.Keys && FramesInUse(mem, dirs, free)
    ensures |Mappers(mem, dirs, f)| <= |dirs|
  {
    var m := Mappers(mem, dirs, f);
    var spaces := set x | x in m :: x.0;
    forall x, y | x in m && y in m && x.0 == y.0 ensures x == y {
      assert FrameInUse(mem, x.0, x.1, free) && MapsTo(mem, x.0, x.1, f) && MapsTo(mem, x.0, y.1, f);
    }
    ProjectionSize(m, spaces);
    SubsetSize(spaces, dirs);
  }

  lemma {:induction false} ProjectionSize(m: set<(Frame, int)>, spaces: set<Frame>)
    requires spaces == set x | x in m :: x.0
    requires forall x, y :: x in m && y in m && x.0 == y.0 ==> x == y
    ensures |m| == |spaces|
    decreases |m|
  {
    if m != {} {
      var x :| x in m;
      var m' := m - {x};
      var spaces' := set y | y in m' :: y.0;
      assert spaces == spaces' + {x.0};
      ProjectionSize(m', spaces');
    }
  }

  /** Setting one page of a process area moves exactly one mapper. */
  lemma MappersAfterPageSet(
    before: Memory, after: Memory, dirs: set<Frame>, d: Frame, p: int, w: Word, f: Frame)
    requires dirs <= before.Keys && dirs <= after.Keys && d in dirs && ProcessPage(p)
    requires PageSet(before, after, dirs, d, p, w)
    ensures Mappers(after, dirs, f) ==
            Mappers(before, dirs, f) - {(d, p)} + (if w != 0 && FrameOf(w) == f then {(d, p)} else {})
  {
    assert !SharedIndex(p / ENTRIES);
    var ms, ns := Mappers(before, dirs, f), Mappers(after, dirs, f);
    forall e, q | e in dirs && ProcessPage(q)
      ensures (e, q) in ns <==>
              (if (e, q) == (d, p) then w != 0 && FrameOf(w) == f else (e, q) in ms)
    {
      assert Walk(after, e, q) == if q == p && e == d then w else Walk(before, e, q);
    }
  }

  lemma FramesInUseAfterPageSet(
    before: Memory, after: Memory, dirs: set<Frame>, d: Frame, p: int, w: Word, free: set<int>, free': set<int>)
    requires dirs <= before.Keys && dirs <= after.Keys && d in dirs && ProcessPage(p)
    requires PageSet(before, after, dirs, d, p, w) && FramesInUse(before, dirs, free)
    requires w != 0 ==>
               && IsPresent(w) && IsUser(w) && 0 < FrameOf(w) < FRAME_LIMIT
               && FrameOf(w) !in free' && FrameOf(w) !in after
               && forall q :: ProcessPage(q) ==> !MapsTo(before, d, q, FrameOf(w))
    requires forall e, q :: e in dirs && ProcessPage(q) && (e, q) != (d, p) && Walk(before, e, q) != 0 ==>
               FrameOf(Walk(before, e, q)) !in free' && FrameOf(Walk(before, e, q)) !in after
    ensures FramesInUse(after, dirs, free')
  {
    assert !SharedIndex(p / ENTRIES);
    forall e, q | e in dirs && ProcessPage(q) ensures FrameInUse(after, e, q, free') {
      assert FrameInUse(before, e, q, free);
      assert Walk(after, e, q) == if q == p && e == d then w else Walk(before, e, q);
      var v := Walk(after, e, q);
      if v != 0 {
        forall x | ProcessPage(x) && MapsTo(after, e, x, FrameOf(v)) ensures x == q {
          assert Walk(after, e, x) == if x == p && e == d then w else Walk(before, e, x);
          assert (x == p && e == d) || MapsTo(before, e, x, FrameOf(v));
        }
      }
    }
  }

  // Frames taken from the pool and frames turned into tables were not mapped.
  lemma MappedFramesStay(
    before: Memory, after: Memory, dirs: set<Frame>, free: set<int>, free': set<int>, e: Frame, q: int)
    requires dirs <= before.Keys && FramesInUse(before, dirs, free)
    requires TablesFromPool(before, after, free, free')
    requires e in dirs && ProcessPage(q) && Walk(before, e, q) != 0
    ensures FrameOf(Walk(before, e, q)) !in free' && FrameOf(Walk(before, e, q)) !in after
  {
    assert FrameInUse(before, e, q, free);
  }

  lemma UnmappedFrame(mem: Memory, dirs: set<Frame>, free: set<int>, f: Frame)
    requires dirs <= mem.Keys && FramesInUse(mem, dirs, free) && f in free
    ensures Mappers(mem, dirs, f) == {}
    ensures forall e, q :: e in dirs && ProcessPage(q) ==> !MapsTo(mem, e, q, f)
  {
    forall e, q | e in dirs && ProcessPage(q) ensures !MapsTo(mem, e, q, f) {
      assert FrameInUse(mem, e, q, free);
    }
  }

  /** Mapping a frame from the pool on an unmapped page, with one increment. */
  lemma AddMapping(
    before: Memory, after: Memory, dirs: set<Frame>, d: Frame, p: int, w: Word,
    counts: Counts, free: set<int>, free': set<int>)
    requires FramesOk(before, dirs, counts, free) && dirs <= after.Keys && d in dirs && ProcessPage(p)
    requires PageSet(before, after, dirs, d, p, w) && Walk(before, d, p) == 0
    requires IsPresent(w) && IsUser(w) && 0 < FrameOf(w) < FRAME_LIMIT
    requires FrameOf(w) in free && FrameOf(w) !in free' && FrameOf(w) !in after
    requires TablesFromPool(before, after, free, free')
    ensures FramesOk(after, dirs, Incremented(counts, FrameOf(w)), free')
  {
    var g := FrameOf(w);
    UnmappedFrame(before, dirs, free, g);
    forall e, q | e in dirs && ProcessPage(q) && Walk(before, e, q) != 0
      ensures FrameOf(Walk(before, e, q)) !in free' && FrameOf(Walk(before, e, q)) !in after
    {
      MappedFramesStay(before, after, dirs, free, free', e, q);
    }
    FramesInUseAfterPageSet(before, after, dirs, d, p, w, free, free');
    WritersAfterPageSet(before, after, dirs, d, p, w);
    AddedCounts(before, after, dirs, d, p, w, counts);
  }

  // The counts follow when page p of d appears on the unmapped frame of w.
  lemma AddedCounts(
    before: Memory, after: Memory, dirs: set<Frame>, d: Frame, p: int, w: Word, counts: Counts)
    requires dirs <= before.Keys && dirs <= after.Keys && d in dirs && ProcessPage(p)
    requires Counted(before, dirs, counts) && PageSet(before, after, dirs, d, p, w)
    requires Walk(before, d, p) == 0 && w != 0 && Mappers(before, dirs, FrameOf(w)) == {}
    ensures Counted(after, dirs, Incremented(counts, FrameOf(w)))
  {
    var g := FrameOf(w);
    forall f: Frame
      ensures CountIn(Incremented(counts, g), f) == Wrap16(|Mappers(after, dirs, f)|)
      ensures Mappers(after, dirs, f) != {} ==> f / ENTRIES in Incremented(counts, g)
    {
      MappersAfterArriving(before, after, dirs, d, p, w, f);
      if f == g {
        assert |Mappers(after, dirs, f)| == 1;
        assert CountIn(counts, g) == Wrap16(0);
      }
    }
  }

  lemma MappersAfterArriving(
    before: Memory, after: Memory, dirs: set<Frame>, d: Frame, p: int, w: Word, f: Frame)
    requires dirs <= before.Keys && dirs <= after.Keys && d in dirs && ProcessPage(p)
    requires PageSet(before, after, dirs, d, p, w) && Walk(before, d, p) == 0
    requires w != 0 && Mappers(before, dirs, FrameOf(w)) == {}
    ensures Mappers(after, dirs, f) == if f == FrameOf(w) then {(d, p)} else Mappers(before, dirs, f)
  {
    MappersAfterPageSet(before, after, dirs, d, p, w, f);
    assert !MapsTo(before, d, p, f);
    assert (d, p) !in Mappers(before, dirs, f);
  }

  // What is left after one decrement, and whether the frame returns to the pool.
  ghost function Released(counts: Counts, f: Frame): Count
    requires CountsOk(counts)
  {
    Wrap16(CountIn(counts, f) as int - 1)
  }

  /**
   * One mapping of f out of n goes away: the decrement reaches zero, and the frame
   * is freed, exactly when the number of remaining mappings is a multiple of 65536.
   */
  lemma DecrementFreesExactly(mem: Memory, dirs: set<Frame>, counts: Counts, f: Frame)
    requires dirs <= mem.Keys && Counted(mem, dirs, counts) && Mappers(mem, dirs, f) != {}
    ensures Released(counts, f) == Wrap16(|Mappers(mem, dirs, f)| - 1)
    ensures Released(counts, f) == 0 <==> (|Mappers(mem, dirs, f)| - 1) % 0x1_0000 == 0
  {
    WrapSteps(|Mappers(mem, dirs, f)|);
  }

  /** With 65537 mappings one goes away: the frame is freed while 65536 others still show it. */
  lemma FreedWhileMapped(mem: Memory, dirs: set<Frame>, counts: Counts, f: Frame, d: Frame, p: int)
    requires dirs <= mem.Keys && Counted(mem, dirs, counts)
    requires |Mappers(mem, dirs, f)| == 0x1_0001 && (d, p) in Mappers(mem, dirs, f)
    ensures Released(counts, f) == 0 && |Mappers(mem, dirs, f) - {(d, p)}| == 0x1_0000
  {
    DecrementFreesExactly(mem, dirs, counts, f);
  }

  const KERNEL_RANGES_START := 0xF000_0000
  const KERNEL_RANGES_END := 0xFFB0_0000

  lemma {:induction false} DifferentValues(m: map<Frame, int>, lo: int, hi: int)
    requires lo <= hi && forall d :: d in m ==> lo <= m[d] < hi
    requires forall d, e :: d in m && e in m && d != e ==> m[d] != m[e]
    ensures |m| <= hi - lo
    decreases hi - lo
  {
    if lo == hi {
      assert forall d :: d !in m;
      assert m == map[];
    } else if d :| d in m && m[d] == hi - 1 {
      var rest := m - {d};
      assert m == rest[d := m[d]];
      DifferentValues(rest, lo, hi - 1);
    } else {
      DifferentValues(m, lo, hi - 1);
    }
  }

  predicate KernelStackPage(p: int) { KERNEL_RANGES_START / PAGE_SIZE <= p < KERNEL_RANGES_END / PAGE_SIZE }

  // Every process has a kernel stack page of its own from the kernel's ranges.
  ghost predicate KernelStacks(stacks: map<Frame, int>) {
    && (forall d :: d in stacks ==> KernelStackPage(stacks[d]))
    && (forall d, e :: d in stacks && e in stacks && d != e ==> stacks[d] != stacks[e])
  }

  /** There are fewer such processes than the counts could miss. */
  lemma KernelStacksBoundSpaces(stacks: map<Frame, int>)
    requires KernelStacks(stacks)
    ensures |stacks| <= 64256 < SPACE_LIMIT
  {
    DifferentValues(stacks, KERNEL_RANGES_START / PAGE_SIZE, KERNEL_RANGES_END / PAGE_SIZE);
  }

  lemma RemoveOne<T>(m: set<T>, x: T)
    requires x in m
    ensures |m - {x}| == |m| - 1
    ensures |m| == 1 <==> m - {x} == {}
  {
    assert m - {x} + {x} == m;
  }

  lemma LastMapper(mem: Memory, dirs: set<Frame>, d: Frame, p: int, counts: Counts, free: set<int>)
    requires FramesOk(mem, dirs, counts, free) && d in dirs && ProcessPage(p) && Walk(mem, d, p) != 0
    requires |dirs| <= SPACE_LIMIT
    ensures var f := FrameOf(Walk(mem, d, p));
            && f / ENTRIES in counts
            && (d, p) in Mappers(mem, dirs, f)
            && Released(counts, f) == Wrap16(|Mappers(mem, dirs, f) - {(d, p)}|)
            && (Released(counts, f) == 0 <==> Mappers(mem, dirs, f) - {(d, p)} == {})
  {
    var f := FrameOf(Walk(mem, d, p));
    assert MapsTo(mem, d, p, f) && (d, p) in Mappers(mem, dirs, f);
    RemoveOne(Mappers(mem, dirs, f), (d, p));
    DecrementFreesExactly(mem, dirs, counts, f);
    MappersPerSpace(mem, dirs, free, f);
  }

  /** Unmapping a page, with one decrement, in a system of at most 65536 address spaces. */
  lemma RemoveMapping(
    before: Memory, after: Memory, dirs: set<Frame>, d: Frame, p: int, counts: Counts, free: set<int>)
    requires FramesOk(before, dirs, counts, free) && dirs <= after.Keys && d in dirs && ProcessPage(p)
    requires PageSet(before, after, dirs, d, p, 0) && Walk(before, d, p) != 0
    requires TablesFromPool(before, after, free, free)
    requires |dirs| <= SPACE_LIMIT
    ensures var f := FrameOf(Walk(before, d, p));
            && f / ENTRIES in counts
            && var left := Released(counts, f);
               && (left == 0 <==> Mappers(after, dirs, f) == {})
               && FramesOk(after, dirs, Stored(counts, f, left), if left == 0 then free + {f} else free)
  {
    var f := FrameOf(Walk(before, d, p));
    var m, left := Mappers(before, dirs, f), Released(counts, f);
    LastMapper(before, dirs, d, p, counts, free);
    MappersAfterLeaving(before, after, dirs, d, p, 0, f);
    LeavingFramesInUse(before, after, dirs, d, p, 0, free, free, left == 0);
    WritersAfterPageSet(before, after, dirs, d, p, 0);
    RemovedCounts(before, after, dirs, d, p, counts, left);
  }

  // A mapped page p of d moves from its frame to the unmapped frame of w, or away.
  lemma MappersAfterLeaving(
    before: Memory, after: Memory, dirs: set<Frame>, d: Frame, p: int, w: Word, h: Frame)
    requires dirs <= before.Keys && dirs <= after.Keys && d in dirs && ProcessPage(p)
    requires PageSet(before, after, dirs, d, p, w) && Walk(before, d, p) != 0
    requires w != 0 ==> Mappers(before, dirs, FrameOf(w)) == {}
    ensures Mappers(after, dirs, h) ==
            if w != 0 && h == FrameOf(w) then {(d, p)}
            else if h == FrameOf(Walk(before, d, p)) then Mappers(before, dirs, h) - {(d, p)}
            else Mappers(before, dirs, h)
  {
    MappersAfterPageSet(before, after, dirs, d, p, w, h);
    assert MapsTo(before, d, p, h) <==> h == FrameOf(Walk(before, d, p));
    assert (d, p) in Mappers(before, dirs, h) <==> MapsTo(before, d, p, h);
  }

  // The counts follow when page p of d goes away.
  lemma RemovedCounts(
    before: Memory, after: Memory, dirs: set<Frame>, d: Frame, p: int, counts: Counts, left: Count)
    requires dirs <= before.Keys && dirs <= after.Keys && d in dirs && ProcessPage(p)
    requires Counted(before, dirs, counts) && PageSet(before, after, dirs, d, p, 0) && Walk(before, d, p) != 0
    requires left == Wrap16(|Mappers(before, dirs, FrameOf(Walk(before, d, p))) - {(d, p)}|)
    requires FrameOf(Walk(before, d, p)) / ENTRIES in counts
    ensures Counted(after, dirs, Stored(counts, FrameOf(Walk(before, d, p)), left))
  {
    var f := FrameOf(Walk(before, d, p));
    forall h: Frame
      ensures CountIn(Stored(counts, f, left), h) == Wrap16(|Mappers(after, dirs, h)|)
      ensures Mappers(after, dirs, h) != {} ==> h / ENTRIES in counts
    {
      MappersAfterLeaving(before, after, dirs, d, p, 0, h);
    }
  }

  // The counts follow when page p of d moves from its old frame to the unmapped frame of w.
  lemma ReplacedCounts(
    before: Memory, after: Memory, dirs: set<Frame>, d: Frame, p: int, w: Word, counts: Counts, left: Count)
    requires dirs <= before.Keys && dirs <= after.Keys && d in dirs && ProcessPage(p)
    requires Counted(before, dirs, counts) && PageSet(before, after, dirs, d, p, w)
    requires Walk(before, d, p) != 0 && w != 0 && Mappers(before, dirs, FrameOf(w)) == {}
    requires left == Wrap16(|Mappers(before, dirs, FrameOf(Walk(before, d, p))) - {(d, p)}|)
    requires FrameOf(Walk(before, d, p)) / ENTRIES in counts
    ensures Counted(after, dirs, Stored(Incremented(counts, FrameOf(w)), FrameOf(Walk(before, d, p)), left))
  {
    var f, up := FrameOf(Walk(before, d, p)), Incremented(counts, FrameOf(w));
    forall h: Frame
      ensures CountIn(Stored(up, f, left), h) == Wrap16(|Mappers(after, dirs, h)|)
      ensures Mappers(after, dirs, h) != {} ==> h / ENTRIES in up
    {
      MappersAfterLeaving(before, after, dirs, d, p, w, h);
      MoversApart(before, dirs, d, p, w);
      if h == FrameOf(w) {
        assert CountIn(counts, h) == Wrap16(0);
        OneIncrement(counts, h);
      }
    }
  }

  // The frame that page p of d leaves is another than the unmapped one it moves to.
  lemma MoversApart(mem: Memory, dirs: set<Frame>, d: Frame, p: int, w: Word)
    requires dirs <= mem.Keys && d in dirs && ProcessPage(p) && Walk(mem, d, p) != 0
    requires w != 0 && Mappers(mem, dirs, FrameOf(w)) == {}
    ensures FrameOf(Walk(mem, d, p)) != FrameOf(w)
  {
    var f := FrameOf(Walk(mem, d, p));
    assert MapsTo(mem, d, p, f) && (d, p) in Mappers(mem, dirs, f);
  }

  lemma OneIncrement(counts: Counts, f: Frame)
    requires CountsOk(counts) && CountIn(counts, f) == Wrap16(0)
    ensures CountIn(Incremented(counts, f), f) == Wrap16(1)
  {
  }

  /** Replacing the frame of a mapped page by one from the pool: one increment, one decrement. */
  lemma ReplaceMapping(
    before: Memory, after: Memory, dirs: set<Frame>, d: Frame, p: int, w: Word,
    counts: Counts, free: set<int>, free': set<int>)
    requires FramesOk(before, dirs, counts, free) && dirs <= after.Keys && d in dirs && ProcessPage(p)
    requires PageSet(before, after, dirs, d, p, w) && Walk(before, d, p) != 0
    requires IsPresent(w) && IsUser(w) && 0 < FrameOf(w) < FRAME_LIMIT
    requires FrameOf(w) in free && FrameOf(w) !in free' && FrameOf(w) !in after
    requires TablesFromPool(before, after, free, free')
    requires |dirs| <= SPACE_LIMIT
    ensures var f, up := FrameOf(Walk(before, d, p)), Incremented(counts, FrameOf(w));
            && f / ENTRIES in up
            && var left := Released(up, f);
               && (left == 0 <==> Mappers(after, dirs, f) == {})
               && FramesOk(after, dirs, Stored(up, f, left), if left == 0 then free' + {f} else free')
  {
    var f, g := FrameOf(Walk(before, d, p)), FrameOf(w);
    LastMapper(before, dirs, d, p, counts, free);
    UnmappedFrame(before, dirs, free, g);
    assert Mappers(before, dirs, f) != {};
    var left := Released(Incremented(counts, g), f);
    assert left == Released(counts, f);
    ReplacedCounts(before, after, dirs, d, p, w, counts, left);
    MappersAfterLeaving(before, after, dirs, d, p, w, f);
    LeavingFramesInUse(before, after, dirs, d, p, w, free, free', left == 0);
    WritersAfterPageSet(before, after, dirs, d, p, w);
  }

  // The frame that page p of d leaves may return to the pool once no one else maps it.
  lemma LeavingFramesInUse(
    before: Memory, after: Memory, dirs: set<Frame>, d: Frame, p: int, w: Word,
    free: set<int>, free': set<int>, last: bool)
    requires dirs <= before.Keys && dirs <= after.Keys && d in dirs && ProcessPage(p)
    requires FramesInUse(before, dirs, free) && TablesFromPool(before, after, free, free')
    requires PageSet(before, after, dirs, d, p, w) && Walk(before, d, p) != 0
    requires w != 0 ==>
               && IsPresent(w) && IsUser(w) && 0 < FrameOf(w) < FRAME_LIMIT
               && FrameOf(w) in free && FrameOf(w) !in free' && FrameOf(w) !in after
    requires last ==> Mappers(before, dirs, FrameOf(Walk(before, d, p))) - {(d, p)} == {}
    ensures FramesInUse(after, dirs, if last then free' + {FrameOf(Walk(before, d, p))} else free')
  {
    var f := FrameOf(Walk(before, d, p));
    assert FrameInUse(before, d, p, free);
    if w != 0 { UnmappedFrame(before, dirs, free, FrameOf(w)); }
    var free'' := if last then free' + {f} else free';
    forall e, q | e in dirs && ProcessPage(q) && (e, q) != (d, p) && Walk(before, e, q) != 0
      ensures FrameOf(Walk(before, e, q)) !in free'' && FrameOf(Walk(before, e, q)) !in after
    {
      MappedFramesStay(before, after, dirs, free, free', e, q);
      assert MapsTo(before, e, q, FrameOf(Walk(before, e, q)));
      assert (e, q) in Mappers(before, dirs, FrameOf(Walk(before, e, q)));
      assert last ==> (e, q) !in Mappers(before, dirs, f) - {(d, p)};
    }
    FramesInUseAfterPageSet(before, after, dirs, d, p, w, free, free'');
  }

  /** Changes outside the process areas, and new spaces with empty ones, count nothing. */
  lemma NothingMapped(
    before: Memory, after: Memory, dirs: set<Frame>, dirs': set<Frame>,
    counts: Counts, free: set<int>, free': set<int>)
    requires FramesOk(before, dirs, counts, free) && dirs <= dirs' <= after.Keys
    requires TablesFromPool(before, after, free, free')
    requires forall d, p :: d in dirs && ProcessPage(p) ==> Walk(after, d, p) == Walk(before, d, p)
    requires forall d, p :: d in dirs' - dirs && ProcessPage(p) ==> Walk(after, d, p) == 0
    ensures FramesOk(after, dirs', counts, free')
  {
    forall d, p | d in dirs' && ProcessPage(p) ensures FrameInUse(after, d, p, free') {
      if d in dirs {
        assert FrameInUse(before, d, p, free);
        var w := Walk(before, d, p);
        if w != 0 {
          MappedFramesStay(before, after, dirs, free, free', d, p);
          forall q | ProcessPage(q) && MapsTo(after, d, q, FrameOf(w)) ensures q == p {
            assert MapsTo(before, d, q, FrameOf(w));
          }
        }
      }
    }
    forall x, i, y, j | x in dirs' && y in dirs' && ProcessPage(i) && ProcessPage(j)
      ensures WriterAlone(after, x, i, y, j)
    {
      assert x in dirs && y in dirs ==> WriterAlone(before, x, i, y, j);
    }
    forall f: Frame ensures Mappers(after, dirs', f) == Mappers(before, dirs, f) {
      forall d, p | d in dirs' && ProcessPage(p)
        ensures MapsTo(after, d, p, f) <==> d in dirs && MapsTo(before, d, p, f)
      {
      }
    }
  }

  lemma ForkKeepsFrame(
    before: Memory, after: Memory, dirs: set<Frame>, d: Frame, c: Frame, kernelPage: int, e: Frame, p: int, f: Frame)
    requires dirs <= before.Keys && dirs + {c} <= after.Keys && d in dirs && c !in dirs && KernelPage(kernelPage)
    requires ForkedFrom(before, after, dirs, d, c, kernelPage)
    requires e in dirs + {c} && ProcessPage(p)
    requires Walk(before, d, p) != 0 ==> IsPresent(Walk(before, d, p))
    ensures MapsTo(after, e, p, f) <==> MapsTo(before, if e == c then d else e, p, f)
  {
    ReadOnlyKeepsTheRest(Walk(before, d, p));
  }

  // The mappers a forked space c adds: one for each page its parent d maps.
  lemma MappersAfterFork(
    before: Memory, after: Memory, dirs: set<Frame>, d: Frame, c: Frame, kernelPage: int, f: Frame)
    requires dirs <= before.Keys && dirs + {c} <= after.Keys && d in dirs && c !in dirs && KernelPage(kernelPage)
    requires ForkedFrom(before, after, dirs, d, c, kernelPage)
    requires forall e, p :: e in dirs && ProcessPage(p) && Walk(before, e, p) != 0 ==> IsPresent(Walk(before, e, p))
    ensures |Mappers(after, dirs + {c}, f)| ==
            |Mappers(before, dirs, f)| + |PagesOn(before, d, f, FIRST_RANGE_TABLE * ENTRIES)|
  {
    var pages := PagesOn(before, d, f, FIRST_RANGE_TABLE * ENTRIES);
    var added := set p | p in pages :: (c, p);
    forall e, p | e in dirs + {c} && ProcessPage(p)
      ensures (e, p) in Mappers(after, dirs + {c}, f) <==> (e, p) in Mappers(before, dirs, f) + added
    {
      ForkKeepsFrame(before, after, dirs, d, c, kernelPage, e, p, f);
    }
    assert Mappers(after, dirs + {c}, f) == Mappers(before, dirs, f) + added;
    assert Mappers(before, dirs, f) !! added;
    PairSize(c, pages, added);
  }

  lemma {:induction false} PairSize(c: Frame, pages: set<int>, pairs: set<(Frame, int)>)
    requires pairs == set p | p in pages :: (c, p)
    ensures |pairs| == |pages|
    decreases |pages|
  {
    assert (forall p :: p !in pages) ==> pages == {};
    if pages != {} {
      var p :| p in pages;
      var pairs' := set q | q in pages - {p} :: (c, q);
      assert pairs == pairs' + {(c, p)};
      PairSize(c, pages - {p}, pairs');
    }
  }

  /** A fork counts every page of the parent once more and keeps all frames in use. */
  lemma ForkMapping(
    before: Memory, after: Memory, dirs: set<Frame>, d: Frame, c: Frame, kernelPage: int,
    counts: Counts, free: set<int>, free': set<int>)
    requires FramesOk(before, dirs, counts, free) && dirs + {c} <= after.Keys && d in dirs && c !in dirs
    requires KernelPage(kernelPage) && ForkedFrom(before, after, dirs, d, c, kernelPage)
    requires TablesFromPool(before, after, free, free')
    ensures FramesOk(after, dirs + {c}, CountPages(counts, before, d, ENTRIES, FIRST_RANGE_TABLE * ENTRIES), free')
  {
    var counts' := CountPages(counts, before, d, ENTRIES, FIRST_RANGE_TABLE * ENTRIES);
    forall e, p | e in dirs && ProcessPage(p) && Walk(before, e, p) != 0 ensures IsPresent(Walk(before, e, p)) {
      assert FrameInUse(before, e, p, free);
    }
    forall f: Frame
      ensures CountIn(counts', f) == Wrap16(|Mappers(after, dirs + {c}, f)|)
      ensures Mappers(after, dirs + {c}, f) != {} ==> f / ENTRIES in counts'
    {
      ForkedCount(before, after, dirs, d, c, kernelPage, counts, f);
    }
    forall x, i, y, j | x in dirs + {c} && y in dirs + {c} && ProcessPage(i) && ProcessPage(j)
      ensures WriterAlone(after, x, i, y, j)
    {
      ForkedWriter(before, after, dirs, d, c, kernelPage, x, i, y, j);
    }
    forall e, p | e in dirs + {c} && ProcessPage(p) ensures FrameInUse(after, e, p, free') {
      ForkedFrameInUse(before, after, dirs, d, c, kernelPage, free, free', e, p);
    }
  }

  // Parent and child write nothing of their process areas; what others write they do not show.
  lemma ForkedWriter(
    before: Memory, after: Memory, dirs: set<Frame>, d: Frame, c: Frame, kernelPage: int,
    x: Frame, i: int, y: Frame, j: int)
    requires dirs <= before.Keys && dirs + {c} <= after.Keys && d in dirs && c !in dirs && KernelPage(kernelPage)
    requires ForkedFrom(before, after, dirs, d, c, kernelPage) && WritersAlone(before, dirs)
    requires forall e, p :: e in dirs && ProcessPage(p) && Walk(before, e, p) != 0 ==> IsPresent(Walk(before, e, p))
    requires x in dirs + {c} && y in dirs + {c} && ProcessPage(i) && ProcessPage(j)
    ensures WriterAlone(after, x, i, y, j)
  {
    ReadOnlyKeepsTheRest(Walk(before, d, i));
    if x != c && x != d {
      assert WriterAlone(before, x, i, if y == c then d else y, j);
      ForkKeepsFrame(before, after, dirs, d, c, kernelPage, y, j, FrameOf(Walk(after, x, i)));
    }
  }

  lemma ForkedCount(
    before: Memory, after: Memory, dirs: set<Frame>, d: Frame, c: Frame, kernelPage: int, counts: Counts, f: Frame)
    requires dirs <= before.Keys && dirs + {c} <= after.Keys && d in dirs && c !in dirs && KernelPage(kernelPage)
    requires Counted(before, dirs, counts) && ForkedFrom(before, after, dirs, d, c, kernelPage)
    requires forall e, p :: e in dirs && ProcessPage(p) && Walk(before, e, p) != 0 ==> IsPresent(Walk(before, e, p))
    ensures var counts' := CountPages(counts, before, d, ENTRIES, FIRST_RANGE_TABLE * ENTRIES);
            && CountIn(counts', f) == Wrap16(|Mappers(after, dirs + {c}, f)|)
            && (Mappers(after, dirs + {c}, f) != {} ==> f / ENTRIES in counts')
  {
    MappersAfterFork(before, after, dirs, d, c, kernelPage, f);
    CountPagesCounts(counts, before, d, FIRST_RANGE_TABLE * ENTRIES, f);
    WrapSum(|Mappers(before, dirs, f)|, |PagesOn(before, d, f, FIRST_RANGE_TABLE * ENTRIES)|);
    if Mappers(before, dirs, f) == {} {
      NoPagesWithoutMappers(before, dirs, d, f);
    }
  }

  lemma NoPagesWithoutMappers(mem: Memory, dirs: set<Frame>, d: Frame, f: Frame)
    requires dirs <= mem.Keys && d in dirs && Mappers(mem, dirs, f) == {}
    ensures PagesOn(mem, d, f, FIRST_RANGE_TABLE * ENTRIES) == {}
  {
    forall p | p in PagesOn(mem, d, f, FIRST_RANGE_TABLE * ENTRIES) ensures (d, p) in Mappers(mem, dirs, f) {
      assert MapsTo(mem, d, p, f);
    }
  }

  lemma ForkedFrameInUse(
    before: Memory, after: Memory, dirs: set<Frame>, d: Frame, c: Frame, kernelPage: int,
    free: set<int>, free': set<int>, e: Frame, p: int)
    requires dirs <= before.Keys && dirs + {c} <= after.Keys && d in dirs && c !in dirs
    requires FramesInUse(before, dirs, free) && TablesFromPool(before, after, free, free')
    requires KernelPage(kernelPage) && ForkedFrom(before, after, dirs, d, c, kernelPage)
    requires e in dirs + {c} && ProcessPage(p)
    ensures FrameInUse(after, e, p, free')
  {
    var o := if e == c then d else e;
    assert FrameInUse(before, o, p, free);
    var v, w := Walk(before, o, p), Walk(after, e, p);
    ReadOnlyKeepsTheRest(v);
    if w != 0 {
      MappedFramesStay(before, after, dirs, free, free', o, p);
      forall q | ProcessPage(q) && MapsTo(after, e, q, FrameOf(w)) ensures q == p {
        assert FrameInUse(before, d, q, free);
        ForkKeepsFrame(before, after, dirs, d, c, kernelPage, e, q, FrameOf(w));
      }
    }
  }
}
