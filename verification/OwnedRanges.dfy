/**
 * The virtual ranges of processes. A process owns the frames of the ranges it
 * allocated as their owner; such a frame is no page table, no page of a process
 * area and not free, and belongs to one page only.
 */
module OwnedRanges {
  import opened PageWords
  import opened PageTables
  import opened Bitmaps
  import opened AddressSpaces
  import opened ForkedSpaces
  import opened ProcessFrames
  import opened Ranges

  const OWNER := 1
  const USER_STACK_PAGES := 16

  predicate IsOwner(r: Range) { r.flags % 2 == 1 }

  // No page of a process area shows the frame.
  ghost predicate Unmapped(mem: Memory, dirs: set<Frame>, f: Frame)
    requires dirs <= mem.Keys
  {
    forall d, p :: d in dirs && ProcessPage(p) ==> !MapsTo(mem, d, p, f)
  }

  // The owner may read and write frame f through the word.
  predicate OwnersWord(w: Word, f: Frame) { FrameOf(w) == f && UserWritable(w) }

  // What the processes find in their ranges is open to them.
  ghost predicate UserRanges(mem: Memory, dirs: set<Frame>)
    requires dirs <= mem.Keys
  {
    forall d, p :: d in dirs && RangePage(p) ==> UserWord(Walk(mem, d, p))
  }

  ghost predicate OwnedPage(mem: Memory, dirs: set<Frame>, free: set<int>, x: (Frame, int), f: Frame)
    requires dirs <= mem.Keys
  {
    && x.0 in dirs && RangePage(x.1) && OwnersWord(Walk(mem, x.0, x.1), f)
    && 0 < f < FRAME_LIMIT && f !in free && f !in mem && Unmapped(mem, dirs, f)
  }

  ghost predicate VacantPage(mem: Memory, dirs: set<Frame>, x: (Frame, int))
    requires dirs <= mem.Keys
  {
    x.0 in dirs && RangePage(x.1) && Walk(mem, x.0, x.1) == 0
  }

  ghost predicate OneOwner(owned: map<(Frame, int), Frame>) {
    forall x, y :: x in owned && y in owned && x != y ==> owned[x] != owned[y]
  }

  ghost predicate Undisturbed(
    mem: Memory, dirs: set<Frame>, free: set<int>, owned: map<(Frame, int), Frame>, vacant: set<(Frame, int)>)
  {
    && dirs <= mem.Keys && UserRanges(mem, dirs)
    && (forall x {:trigger OwnedPage(mem, dirs, free, x, owned[x])} :: x in owned ==>
          OwnedPage(mem, dirs, free, x, owned[x]))
    && OneOwner(owned)
    && (forall x {:trigger VacantPage(mem, dirs, x)} :: x in vacant ==> VacantPage(mem, dirs, x))
  }

  // Tables and pages of process areas take their frames from the pool or from one another.
  ghost predicate Shuffled(
    before: Memory, after: Memory, dirs: set<Frame>, dirs': set<Frame>, free: set<int>, free': set<int>)
    requires dirs <= before.Keys && dirs' <= after.Keys
  {
    && (forall f :: f in after ==> f in before || f in free)
    && (forall f :: f in free' ==> f in free || Mappers(before, dirs, f) != {})
    && (forall d, p :: d in dirs' && ProcessPage(p) && Walk(after, d, p) != 0 ==>
          FrameOf(Walk(after, d, p)) in free || Mappers(before, dirs, FrameOf(Walk(after, d, p))) != {})
  }

  lemma NoMappers(mem: Memory, dirs: set<Frame>, f: Frame)
    requires dirs <= mem.Keys
    ensures Unmapped(mem, dirs, f) <==> Mappers(mem, dirs, f) == {}
  {
    if !Unmapped(mem, dirs, f) {
      var d, p :| d in dirs && ProcessPage(p) && MapsTo(mem, d, p, f);
      assert (d, p) in Mappers(mem, dirs, f);
    }
  }

  /** Whatever goes on in page tables and process areas leaves owned frames and vacant pages alone. */
  lemma ShuffleLeavesRanges(
    before: Memory, after: Memory, dirs: set<Frame>, dirs': set<Frame>, free: set<int>, free': set<int>,
    owned: map<(Frame, int), Frame>, vacant: set<(Frame, int)>)
    requires Undisturbed(before, dirs, free, owned, vacant) && dirs <= dirs' <= after.Keys
    requires Shuffled(before, after, dirs, dirs', free, free')
    requires forall d, p :: d in dirs && RangePage(p) ==> Walk(after, d, p) == Walk(before, d, p)
    requires UserRanges(after, dirs' - dirs)
    ensures Undisturbed(after, dirs', free', owned, vacant)
  {
    forall x | x in owned ensures OwnedPage(after, dirs', free', x, owned[x]) {
      assert OwnedPage(before, dirs, free, x, owned[x]);
      NoMappers(before, dirs, owned[x]);
    }
    forall x | x in vacant ensures VacantPage(after, dirs', x) {
      assert VacantPage(before, dirs, x);
    }
  }

  // One page of a process area changes.
  lemma PageSetLeavesRanges(
    before: Memory, after: Memory, dirs: set<Frame>, d: Frame, p: int, w: Word, free: set<int>, free': set<int>,
    owned: map<(Frame, int), Frame>, vacant: set<(Frame, int)>)
    requires Undisturbed(before, dirs, free, owned, vacant) && dirs <= after.Keys && d in dirs && ProcessPage(p)
    requires PageSet(before, after, dirs, d, p, w) && (w != 0 ==> FrameOf(w) in free)
    requires forall f :: f in after ==> f in before || f in free
    requires forall f :: f in free' ==> f in free || Mappers(before, dirs, f) != {}
    ensures Undisturbed(after, dirs, free', owned, vacant)
  {
    assert !SharedIndex(p / ENTRIES);
    forall e, q | e in dirs && ProcessPage(q) && Walk(after, e, q) != 0
      ensures FrameOf(Walk(after, e, q)) in free || Mappers(before, dirs, FrameOf(Walk(after, e, q))) != {}
    {
      if (e, q) != (d, p) {
        assert MapsTo(before, e, q, FrameOf(Walk(before, e, q)));
        assert (e, q) in Mappers(before, dirs, FrameOf(Walk(before, e, q)));
      }
    }
    ShuffleLeavesRanges(before, after, dirs, dirs, free, free', owned, vacant);
  }

  // Nothing changes in the process areas, and new spaces have none.
  lemma ElsewhereLeavesRanges(
    before: Memory, after: Memory, dirs: set<Frame>, dirs': set<Frame>, free: set<int>, free': set<int>,
    owned: map<(Frame, int), Frame>, vacant: set<(Frame, int)>)
    requires Undisturbed(before, dirs, free, owned, vacant) && dirs <= dirs' <= after.Keys
    requires TablesFromPool(before, after, free, free')
    requires forall e, q :: e in dirs && (ProcessPage(q) || RangePage(q)) ==> Walk(after, e, q) == Walk(before, e, q)
    requires forall e, q :: e in dirs' - dirs && ProcessPage(q) ==> Walk(after, e, q) == 0
    requires UserRanges(after, dirs' - dirs)
    ensures Undisturbed(after, dirs', free', owned, vacant)
  {
    forall e, q | e in dirs' && ProcessPage(q) && Walk(after, e, q) != 0
      ensures Mappers(before, dirs, FrameOf(Walk(after, e, q))) != {}
    {
      assert MapsTo(before, e, q, FrameOf(Walk(before, e, q)));
      assert (e, q) in Mappers(before, dirs, FrameOf(Walk(before, e, q)));
    }
    ShuffleLeavesRanges(before, after, dirs, dirs', free, free', owned, vacant);
  }

  lemma ForkLeavesRanges(
    before: Memory, after: Memory, dirs: set<Frame>, d: Frame, c: Frame, kernelPage: int,
    free: set<int>, free': set<int>, owned: map<(Frame, int), Frame>, vacant: set<(Frame, int)>)
    requires Undisturbed(before, dirs, free, owned, vacant) && FramesInUse(before, dirs, free)
    requires dirs + {c} <= after.Keys && d in dirs && c !in dirs && KernelPage(kernelPage)
    requires ForkedFrom(before, after, dirs, d, c, kernelPage) && TablesFromPool(before, after, free, free')
    requires UserRanges(after, {c})
    ensures Undisturbed(after, dirs + {c}, free', owned, vacant)
  {
    forall e, q | e in dirs + {c} && ProcessPage(q) && Walk(after, e, q) != 0
      ensures Mappers(before, dirs, FrameOf(Walk(after, e, q))) != {}
    {
      var o := if e == c then d else e;
      assert FrameInUse(before, o, q, free);
      ForkKeepsFrame(before, after, dirs, d, c, kernelPage, e, q, FrameOf(Walk(after, e, q)));
      assert MapsTo(after, e, q, FrameOf(Walk(after, e, q))) && FrameInUse(before, d, q, free);
      assert (o, q) in Mappers(before, dirs, FrameOf(Walk(after, e, q)));
    }
    assert dirs + {c} - dirs == {c};
    ShuffleLeavesRanges(before, after, dirs, dirs + {c}, free, free', owned, vacant);
  }

  // The pages of a new process behind its stack.
  ghost function BehindStack(d: Frame): set<(Frame, int)> {
    set p | FIRST_RANGE_TABLE * ENTRIES + USER_STACK_PAGES <= p < FIRST_KERNEL_TABLE * ENTRIES :: (d, p)
  }

  lemma MoreVacant(
    mem: Memory, dirs: set<Frame>, free: set<int>, owned: map<(Frame, int), Frame>, vacant: set<(Frame, int)>, d: Frame)
    requires Undisturbed(mem, dirs, free, owned, vacant) && d in dirs
    requires forall p :: (d, p) in BehindStack(d) ==> Walk(mem, d, p) == 0
    ensures Undisturbed(mem, dirs, free, owned, vacant + BehindStack(d))
  {
    forall x | x in vacant + BehindStack(d) ensures VacantPage(mem, dirs, x) {
      if x in BehindStack(d) {
        assert x == (d, x.1);
      } else {
        assert VacantPage(mem, dirs, x);
      }
    }
  }

  /** A vacant page takes a frame from the pool. */
  lemma PageBecomesOwned(
    before: Memory, after: Memory, dirs: set<Frame>, free: set<int>, free': set<int>,
    owned: map<(Frame, int), Frame>, vacant: set<(Frame, int)>, d: Frame, p: int, f: Frame)
    requires Undisturbed(before, dirs, free, owned, vacant) && dirs <= after.Keys && d in dirs && RangePage(p)
    requires FramesInUse(before, dirs, free) && TablesFromPool(before, after, free, free')
    requires f in free && f !in free' && f !in after && 0 < f < FRAME_LIMIT
    requires PageSet(before, after, dirs, d, p, MakeWord(f, USER_PAGE_FLAGS))
    requires (d, p) !in owned
    ensures Undisturbed(after, dirs, free', owned[(d, p) := f], vacant - {(d, p)})
  {
    UnmappedFrame(before, dirs, free, f);
    UserPageWord(f);
    assert !SharedIndex(p / ENTRIES);
    assert forall e, q :: e in dirs && ProcessPage(q) ==> Walk(after, e, q) == Walk(before, e, q);
    var more := owned[(d, p) := f];
    forall x | x in more ensures OwnedPage(after, dirs, free', x, more[x]) {
      if x != (d, p) {
        assert OwnedPage(before, dirs, free, x, owned[x]);
        StillUnmapped(before, after, dirs, owned[x]);
      } else {
        StillUnmapped(before, after, dirs, f);
      }
    }
    forall x | x in vacant - {(d, p)} ensures VacantPage(after, dirs, x) {
      assert VacantPage(before, dirs, x);
    }
    forall x | x in owned ensures owned[x] != f {
      assert OwnedPage(before, dirs, free, x, owned[x]);
    }
  }

  lemma StillUnmapped(before: Memory, after: Memory, dirs: set<Frame>, f: Frame)
    requires dirs <= before.Keys && dirs <= after.Keys && Unmapped(before, dirs, f)
    requires forall e, q :: e in dirs && ProcessPage(q) ==> Walk(after, e, q) == Walk(before, e, q)
    ensures Unmapped(after, dirs, f)
  {
    forall e, q | e in dirs && ProcessPage(q) ensures !MapsTo(after, e, q, f) {
      assert !MapsTo(before, e, q, f);
    }
  }

  lemma FewerFree(
    mem: Memory, dirs: set<Frame>, free: set<int>, free': set<int>,
    owned: map<(Frame, int), Frame>, vacant: set<(Frame, int)>)
    requires Undisturbed(mem, dirs, free, owned, vacant) && free' <= free
    ensures Undisturbed(mem, dirs, free', owned, vacant)
  {
    forall x | x in owned ensures OwnedPage(mem, dirs, free', x, owned[x]) {
      assert OwnedPage(mem, dirs, free, x, owned[x]);
    }
  }

  /** A page gives its frame back to the pool. */
  lemma PageIsReleased(
    mem: Memory, dirs: set<Frame>, free: set<int>,
    owned: map<(Frame, int), Frame>, vacant: set<(Frame, int)>, x: (Frame, int))
    requires Undisturbed(mem, dirs, free, owned, vacant) && x in owned
    ensures Undisturbed(mem, dirs, free + {owned[x]}, owned - {x}, vacant)
  {
    forall y | y in owned - {x} ensures OwnedPage(mem, dirs, free + {owned[x]}, y, owned[y]) {
      assert OwnedPage(mem, dirs, free, y, owned[y]);
    }
  }

  /** A page that is not owned becomes vacant. */
  lemma PageBecomesVacant(
    before: Memory, after: Memory, dirs: set<Frame>, free: set<int>,
    owned: map<(Frame, int), Frame>, vacant: set<(Frame, int)>, d: Frame, p: int)
    requires Undisturbed(before, dirs, free, owned, vacant) && d in dirs && RangePage(p)
    requires after.Keys == before.Keys && PageSet(before, after, dirs, d, p, 0) && (d, p) !in owned
    ensures Undisturbed(after, dirs, free, owned, vacant + {(d, p)})
  {
    assert !SharedIndex(p / ENTRIES);
    assert forall e, q :: e in dirs && ProcessPage(q) ==> Walk(after, e, q) == Walk(before, e, q);
    forall x | x in owned ensures OwnedPage(after, dirs, free, x, owned[x]) {
      assert OwnedPage(before, dirs, free, x, owned[x]);
      StillUnmapped(before, after, dirs, owned[x]);
    }
    forall x | x in vacant + {(d, p)} ensures VacantPage(after, dirs, x) {
      assert x in vacant ==> VacantPage(before, dirs, x);
    }
  }

  // ----- stretches of pages -----

  ghost function Stretch(d: Frame, base: int, n: int): set<(Frame, int)> {
    set p | base <= p < base + n :: (d, p)
  }

  lemma StretchStep(d: Frame, base: int, n: nat)
    ensures Stretch(d, base, n + 1) == Stretch(d, base, n) + {(d, base + n)}
    ensures (d, base + n) !in Stretch(d, base, n)
  {
  }

  // The pages of a stretch were vacant and have become owned, with frames from the pool.
  ghost predicate Acquired(
    owned: map<(Frame, int), Frame>, owned': map<(Frame, int), Frame>,
    vacant: set<(Frame, int)>, vacant': set<(Frame, int)>, d: Frame, base: int, n: int, pool: set<int>)
  {
    && owned'.Keys == owned.Keys + Stretch(d, base, n) && Stretch(d, base, n) !! owned.Keys
    && vacant' == vacant - Stretch(d, base, n)
    && (forall x :: x in owned ==> owned'[x] == owned[x])
    && (forall x :: x in Stretch(d, base, n) ==> owned'[x] in pool)
  }

  lemma AcquiredStep(
    owned: map<(Frame, int), Frame>, owned': map<(Frame, int), Frame>,
    vacant: set<(Frame, int)>, vacant': set<(Frame, int)>, d: Frame, base: int, n: nat, f: Frame, pool: set<int>)
    requires Acquired(owned, owned', vacant, vacant', d, base, n, pool) && f in pool && (d, base + n) !in owned'
    ensures Acquired(owned, owned'[(d, base + n) := f], vacant, vacant' - {(d, base + n)}, d, base, n + 1, pool)
  {
    StretchStep(d, base, n);
  }

  // A frame that left the pool has become a table or is owned.
  ghost predicate TablesOrOwned(
    after: Memory, owned: map<(Frame, int), Frame>, freeBefore: set<int>, freeAfter: set<int>)
  {
    forall f :: f in freeBefore ==> f in freeAfter || f in after || f in owned.Values
  }

  lemma OwnedOneMore(
    middle: Memory, after: Memory, owned: map<(Frame, int), Frame>, x: (Frame, int), f: Frame,
    free: set<int>, free': set<int>, free'': set<int>)
    requires TablesOrOwned(middle, owned, free, free') && middle.Keys <= after.Keys && x !in owned
    requires forall g :: g in free' ==> g in free'' || g in after || g == f
    ensures TablesOrOwned(after, owned[x := f], free, free'')
  {
    var more := owned[x := f];
    assert x in more && more[x] == f;
    forall g | g in owned.Values ensures g in more.Values {
      var y :| y in owned && owned[y] == g;
      assert y in more && more[y] == g;
    }
  }

  // The frames of an owned stretch.
  ghost function FramesAt(owned: map<(Frame, int), Frame>, xs: set<(Frame, int)>): set<int> {
    set x | x in xs && x in owned :: owned[x]
  }

  // The pages of an owned stretch have given their frames back.
  ghost predicate GivenBack(
    owned: map<(Frame, int), Frame>, owned': map<(Frame, int), Frame>, pool: set<int>, free: set<int>,
    d: Frame, base: int, n: int)
  {
    owned' == owned - Stretch(d, base, n) && free == pool + FramesAt(owned, Stretch(d, base, n))
  }

  lemma GivenBackStep(
    owned: map<(Frame, int), Frame>, owned': map<(Frame, int), Frame>, pool: set<int>, free: set<int>,
    d: Frame, base: int, n: nat)
    requires GivenBack(owned, owned', pool, free, d, base, n) && (d, base + n) in owned
    ensures (d, base + n) in owned' && owned'[(d, base + n)] == owned[(d, base + n)]
    ensures GivenBack(owned, owned' - {(d, base + n)}, pool, free + {owned[(d, base + n)]}, d, base, n + 1)
  {
    StretchStep(d, base, n);
    var x := (d, base + n);
    assert FramesAt(owned, Stretch(d, base, n + 1)) == FramesAt(owned, Stretch(d, base, n)) + {owned[x]};
  }

  // ----- what the pools say -----

  ghost predicate OwnedAt(rs: seq<Range>, p: int) {
    exists i :: 0 <= i < |rs| && rs[i].used && IsOwner(rs[i]) && InRange(rs[i], p)
  }

  // The list of a process covers the whole range area.
  ghost predicate PoolOk(rs: seq<Range>) { Canonical(rs) && forall p :: Holds(rs, p) <==> RangePage(p) }

  ghost predicate PoolFits(rs: seq<Range>, d: Frame, owned: map<(Frame, int), Frame>, vacant: set<(Frame, int)>) {
    && PoolOk(rs)
    && (forall p :: OwnedAt(rs, p) <==> (d, p) in owned)
    && (forall p :: FreeAt(rs, p) ==> (d, p) in vacant)
  }

  /** The pages of ranges in use with the owner's flag are the owned ones, and free pages are vacant. */
  ghost predicate PoolsFit(pools: map<Frame, seq<Range>>, owned: map<(Frame, int), Frame>, vacant: set<(Frame, int)>) {
    forall d {:trigger PoolFits(pools[d], d, owned, vacant)} :: d in pools ==> PoolFits(pools[d], d, owned, vacant)
  }

  lemma LiveTells(rs: seq<Range>, p: int)
    requires Sorted(rs)
    ensures FreeAt(rs, p) <==> Holds(rs, p) && forall r :: r in Live(rs) ==> !InRange(r, p)
    ensures OwnedAt(rs, p) <==> exists r :: r in Live(rs) && IsOwner(r) && InRange(r, p)
  {
    if FreeAt(rs, p) {
      var i :| 0 <= i < |rs| && InRange(rs[i], p) && !rs[i].used;
      forall r | r in Live(rs) ensures !InRange(r, p) {
        var j :| 0 <= j < |rs| && rs[j] == r;
        assert i < j ==> End(rs[i]) <= rs[j].base;
        assert j < i ==> End(rs[j]) <= rs[i].base;
      }
    }
    if Holds(rs, p) && forall r :: r in Live(rs) ==> !InRange(r, p) {
      var i :| 0 <= i < |rs| && InRange(rs[i], p);
      assert rs[i].used ==> rs[i] in Live(rs);
    }
    if OwnedAt(rs, p) {
      var i :| 0 <= i < |rs| && rs[i].used && IsOwner(rs[i]) && InRange(rs[i], p);
      assert rs[i] in Live(rs);
    }
  }

  /** Giving out a range takes its pages from the free ones and adds them to the owned ones if the flag is set. */
  lemma TakenPages(rs: seq<Range>, i: int, n: int, flags: int, p: int)
    requires Canonical(rs) && 0 <= i < |rs| && !rs[i].used && 0 < n <= rs[i].pages
    ensures var qs, r := Allocated(rs, i, n, flags), Range(rs[i].base, n, true, flags);
      && (FreeAt(qs, p) <==> FreeAt(rs, p) && !InRange(r, p))
      && (OwnedAt(qs, p) <==> OwnedAt(rs, p) || (IsOwner(r) && InRange(r, p)))
  {
    var qs, r := Allocated(rs, i, n, flags), Range(rs[i].base, n, true, flags);
    AllocatedIsCanonical(rs, i, n, flags);
    LiveTells(rs, p);
    LiveTells(qs, p);
    assert Holds(qs, p) <==> Holds(rs, p);
    assert r in Live(qs);
  }

  lemma GivenPages(rs: seq<Range>, i: int, p: int)
    requires Canonical(rs) && 0 <= i < |rs| && rs[i].used
    ensures FreeAt(Freed(rs, i), p) <==> FreeAt(rs, p) || InRange(rs[i], p)
    ensures OwnedAt(Freed(rs, i), p) <==> OwnedAt(rs, p) && !InRange(rs[i], p)
  {
    var qs := Freed(rs, i);
    FreedIsCanonical(rs, i);
    LiveTells(rs, p);
    LiveTells(qs, p);
    assert Holds(qs, p) <==> Holds(rs, p);
    assert InRange(rs[i], p) ==> Holds(rs, p);
    forall r | r in Live(rs) && r != rs[i] ensures !(InRange(r, p) && InRange(rs[i], p)) {
      var j :| 0 <= j < |rs| && rs[j] == r;
      assert i < j ==> End(rs[i]) <= rs[j].base;
      assert j < i ==> End(rs[j]) <= rs[i].base;
    }
    assert rs[i] in Live(rs);
  }

  lemma SameRange(rs: seq<Range>, i: int, j: int, p: int)
    requires Sorted(rs) && 0 <= i < |rs| && 0 <= j < |rs| && InRange(rs[i], p) && InRange(rs[j], p)
    ensures i == j
  {
  }

  // What a range of the list says about its pages.
  lemma RangePages(rs: seq<Range>, i: int, d: Frame, owned: map<(Frame, int), Frame>, vacant: set<(Frame, int)>)
    requires PoolFits(rs, d, owned, vacant) && 0 <= i < |rs|
    ensures rs[i].pages > 0 && RangePage(rs[i].base) && End(rs[i]) <= FIRST_KERNEL_TABLE * ENTRIES
    ensures rs[i].used && IsOwner(rs[i]) ==> Stretch(d, rs[i].base, rs[i].pages) <= owned.Keys
    ensures rs[i].used && !IsOwner(rs[i]) ==> Stretch(d, rs[i].base, rs[i].pages) !! owned.Keys
    ensures !rs[i].used ==> Stretch(d, rs[i].base, rs[i].pages) <= vacant
  {
    var r := rs[i];
    assert InRange(r, r.base) && InRange(r, End(r) - 1);
    assert Holds(rs, r.base) && Holds(rs, End(r) - 1);
    forall p | InRange(r, p)
      ensures r.used && IsOwner(r) ==> OwnedAt(rs, p)
      ensures r.used && !IsOwner(r) ==> !OwnedAt(rs, p)
      ensures !r.used ==> FreeAt(rs, p)
    {
      if OwnedAt(rs, p) {
        var j :| 0 <= j < |rs| && rs[j].used && IsOwner(rs[j]) && InRange(rs[j], p);
        SameRange(rs, i, j, p);
      }
    }
  }

  /** After a range was given out to its owner, and its pages got frames, the pools fit again. */
  lemma PoolsAfterTake(
    pools: map<Frame, seq<Range>>, d: Frame, i: int, n: nat,
    owned: map<(Frame, int), Frame>, vacant: set<(Frame, int)>,
    owned': map<(Frame, int), Frame>, vacant': set<(Frame, int)>, pool: set<int>)
    requires PoolsFit(pools, owned, vacant) && d in pools && 0 <= i < |pools[d]|
    requires !pools[d][i].used && 0 < n <= pools[d][i].pages
    requires Acquired(owned, owned', vacant, vacant', d, pools[d][i].base, n, pool)
    ensures PoolsFit(pools[d := Allocated(pools[d], i, n, OWNER)], owned', vacant')
  {
    var rs, qs, base := pools[d], Allocated(pools[d], i, n, OWNER), pools[d][i].base;
    assert PoolFits(rs, d, owned, vacant);
    AllocatedIsCanonical(rs, i, n, OWNER);
    forall p ensures OwnedAt(qs, p) <==> (d, p) in owned'
      ensures FreeAt(qs, p) ==> (d, p) in vacant'
      ensures Holds(qs, p) <==> RangePage(p)
    {
      TakenPages(rs, i, n, OWNER, p);
      assert (d, p) in Stretch(d, base, n) <==> base <= p < base + n;
      assert Holds(qs, p) <==> Holds(rs, p);
    }
    forall e | e in pools && e != d ensures PoolFits(pools[e], e, owned', vacant') {
      assert PoolFits(pools[e], e, owned, vacant);
      OtherPoolFits(pools[e], e, d, owned, vacant, owned', vacant');
    }
  }

  /** After a range was given back they fit again. */
  lemma PoolsAfterGive(
    pools: map<Frame, seq<Range>>, d: Frame, i: int,
    owned: map<(Frame, int), Frame>, vacant: set<(Frame, int)>,
    owned': map<(Frame, int), Frame>, vacant': set<(Frame, int)>)
    requires PoolsFit(pools, owned, vacant) && d in pools && 0 <= i < |pools[d]| && pools[d][i].used
    requires owned'.Keys == owned.Keys - Stretch(d, pools[d][i].base, pools[d][i].pages)
    requires vacant' == vacant + Stretch(d, pools[d][i].base, pools[d][i].pages)
    ensures PoolsFit(pools[d := Freed(pools[d], i)], owned', vacant')
  {
    var rs, qs := pools[d], Freed(pools[d], i);
    assert PoolFits(rs, d, owned, vacant);
    FreedIsCanonical(rs, i);
    forall p ensures OwnedAt(qs, p) <==> (d, p) in owned'
      ensures FreeAt(qs, p) ==> (d, p) in vacant'
      ensures Holds(qs, p) <==> RangePage(p)
    {
      GivenPages(rs, i, p);
      assert (d, p) in Stretch(d, rs[i].base, rs[i].pages) <==> InRange(rs[i], p);
      assert Holds(qs, p) <==> Holds(rs, p);
    }
    forall e | e in pools && e != d ensures PoolFits(pools[e], e, owned', vacant') {
      assert PoolFits(pools[e], e, owned, vacant);
      OtherPoolFits(pools[e], e, d, owned, vacant, owned', vacant');
    }
  }

  // A new process takes no page from the others.
  lemma PoolsWithNew(
    pools: map<Frame, seq<Range>>, d: Frame, owned: map<(Frame, int), Frame>, vacant: set<(Frame, int)>)
    requires PoolsFit(pools, owned, vacant) && d !in pools && forall p :: (d, p) !in owned
    ensures PoolsFit(pools[d := NEW_POOL], owned, vacant + BehindStack(d))
  {
    NewPoolFits(d, owned, vacant + BehindStack(d));
    forall e | e in pools ensures PoolFits(pools[e], e, owned, vacant + BehindStack(d)) {
      assert PoolFits(pools[e], e, owned, vacant);
      OtherPoolFits(pools[e], e, d, owned, vacant, owned, vacant + BehindStack(d));
    }
  }

  lemma OnlyOne(rs: seq<Range>, i: int)
    requires Sorted(rs) && 0 <= i < |rs|
    ensures IndexOf(rs, rs[i].base) == i
  {
  }

  lemma GivenIsFreed(rs: seq<Range>, i: int)
    requires Sorted(rs) && 0 <= i < |rs| && rs[i].used
    ensures Step(rs, Give(rs[i].base)) == Freed(rs, i)
  {
    OnlyOne(rs, i);
  }

  lemma GivenOrNot(rs: seq<Range>, i: int)
    requires Sorted(rs) && 0 <= i < |rs|
    ensures Step(rs, Give(rs[i].base)) == if rs[i].used then Freed(rs, i) else rs
  {
    OnlyOne(rs, i);
  }

  // Taking a range and giving it back.
  lemma TakenAndGiven(rs: seq<Range>, qs: seq<Range>, base: int, n: nat)
    requires Canonical(rs) && n > 0 && FirstFit(rs, n) < |rs| && base == rs[FirstFit(rs, n)].base
    requires qs == Step(rs, Take(n, OWNER))
    ensures var i := IndexOf(qs, base);
      && i < |qs| && qs[i] == Range(base, n, true, OWNER)
      && PlainAll(Step(qs, Give(base))) == PlainAll(rs)
  {
    var i := FirstFit(rs, n);
    AllocatedIsCanonical(rs, i, n, OWNER);
    assert qs[i] == Cut(rs[i], n, OWNER)[0];
    OnlyOne(qs, i);
    AllocateThenFree(rs, n, OWNER);
  }

  /** A range that was given back is found again at its start if and only if no free range ends there. */
  lemma FoundAgain(rs: seq<Range>, i: int)
    requires Canonical(rs) && 0 <= i < |rs| && rs[i].used
    ensures var qs, base := Freed(rs, i), rs[i].base;
      var j := IndexOf(qs, base);
      && (j < |qs| <==> i == 0 || rs[i - 1].used || End(rs[i - 1]) != base)
      && (j < |qs| ==> !qs[j].used && qs[j].flags == rs[i].flags)
  {
    var us := rs[i := rs[i].(used := false)];
    assert Sorted(us);
    MergeKeepsStart(us, i);
  }

  // Giving back what was acquired restores what was owned and loses no frame.
  lemma NothingLost(
    before: Memory, after: Memory, dirs: set<Frame>, free: set<int>, free': set<int>, free'': set<int>,
    owned: map<(Frame, int), Frame>, owned': map<(Frame, int), Frame>, owned'': map<(Frame, int), Frame>,
    vacant: set<(Frame, int)>, vacant': set<(Frame, int)>, d: Frame, base: int, n: nat)
    requires Undisturbed(before, dirs, free, owned, vacant)
    requires Acquired(owned, owned', vacant, vacant', d, base, n, free)
    requires TablesOrOwned(after, owned', free, free')
    requires GivenBack(owned', owned'', free', free'', d, base, n)
    ensures owned'' == owned && NoneLost(after, free, free'')
  {
    forall x | x in owned ensures owned[x] !in free {
      assert OwnedPage(before, dirs, free, x, owned[x]);
    }
    forall f | f in free ensures f in free'' || f in after {
      if f in owned'.Values {
        var x :| x in owned' && owned'[x] == f;
        assert x in Stretch(d, base, n);
      }
    }
  }

  // ----- a new process -----

  const RANGE_AREA := Range(FIRST_RANGE_TABLE * ENTRIES, (FIRST_KERNEL_TABLE - FIRST_RANGE_TABLE) * ENTRIES, false, 0)

  // The pool of a new process, whose first range is the reserved one of its user stack.
  const NEW_POOL := Allocated([RANGE_AREA], 0, USER_STACK_PAGES, 0)

  lemma NewPoolFits(d: Frame, owned: map<(Frame, int), Frame>, vacant: set<(Frame, int)>)
    requires (forall p :: (d, p) !in owned) && BehindStack(d) <= vacant
    ensures PoolFits(NEW_POOL, d, owned, vacant)
  {
    var rs := [RANGE_AREA];
    AllocatedIsCanonical(rs, 0, USER_STACK_PAGES, 0);
    forall p ensures Holds(NEW_POOL, p) <==> RangePage(p)
      ensures !OwnedAt(NEW_POOL, p) && (FreeAt(NEW_POOL, p) ==> (d, p) in BehindStack(d))
    {
      HoldsOne(RANGE_AREA, p);
      TakenPages(rs, 0, USER_STACK_PAGES, 0, p);
      assert FreeAt(rs, p) ==> InRange(rs[0], p);
    }
  }

  // Another process does not change what fits.
  lemma OtherPoolFits(
    rs: seq<Range>, d: Frame, c: Frame, owned: map<(Frame, int), Frame>, vacant: set<(Frame, int)>,
    owned': map<(Frame, int), Frame>, vacant': set<(Frame, int)>)
    requires PoolFits(rs, d, owned, vacant) && d != c
    requires forall p :: (d, p) in owned <==> (d, p) in owned'
    requires forall p :: (d, p) in vacant ==> (d, p) in vacant'
    ensures PoolFits(rs, d, owned', vacant')
  {
  }
}
