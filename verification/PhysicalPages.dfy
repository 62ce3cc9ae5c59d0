/**
 * One bit per physical page, as the loader and the kernel keep it: a set bit
 * is a free page.
 */
module Bitmaps {
  import opened PageWords

  const BITMAP_LENGTH := 1024 * 1024
  const BITS_PER_ENTRY := 8
  const ADDRESS_LIMIT := 0x1_0000_0000

  type Address = a: int | 0 <= a < ADDRESS_LIMIT

  // 1 << bit, within one entry
  function Bit(bit: int): bv8
    requires 0 <= bit < BITS_PER_ENTRY
  {
    if bit == 0 then 1 else if bit == 1 then 2 else if bit == 2 then 4 else if bit == 3 then 8
    else if bit == 4 then 16 else if bit == 5 then 32 else if bit == 6 then 64 else 128
  }

  predicate Has(entry: bv8, bit: int)
    requires 0 <= bit < BITS_PER_ENTRY
  {
    entry & Bit(bit) != 0
  }

  // Whether page n is marked free.
  predicate IsSet(bitmap: seq<bv8>, n: int)
    requires 0 <= n < |bitmap| * BITS_PER_ENTRY
  {
    Has(bitmap[n / BITS_PER_ENTRY], n % BITS_PER_ENTRY)
  }

  function Flipped(entry: bv8, bit: int, marked: bool): bv8
    requires 0 <= bit < BITS_PER_ENTRY
  {
    if marked then entry | Bit(bit) else entry & !Bit(bit)
  }

  lemma SettingABit(entry: bv8, bit: int, other: int, marked: bool)
    requires 0 <= bit < BITS_PER_ENTRY && 0 <= other < BITS_PER_ENTRY
    ensures Has(Flipped(entry, bit, marked), other) == (if other == bit then marked else Has(entry, other))
  {
  }

  lemma NonZeroHasABit(entry: bv8)
    requires entry != 0
    ensures exists b :: 0 <= b < BITS_PER_ENTRY && Has(entry, b)
  {
    assert Has(entry, 0) || Has(entry, 1) || Has(entry, 2) || Has(entry, 3) ||
           Has(entry, 4) || Has(entry, 5) || Has(entry, 6) || Has(entry, 7);
  }

  // The search within one entry that is not zero.
  method LowestBit(entry: bv8) returns (b: int)
    requires entry != 0
    ensures 0 <= b < BITS_PER_ENTRY && Has(entry, b)
    ensures forall c :: 0 <= c < b ==> !Has(entry, c)
  {
    NonZeroHasABit(entry);
    ghost var found :| 0 <= found < BITS_PER_ENTRY && Has(entry, found);
    b := 0;
    while !Has(entry, b)
      invariant 0 <= b <= found
      invariant forall c :: 0 <= c < b ==> !Has(entry, c)
      decreases found - b
    {
      b := b + 1;
    }
  }

  // An update of one entry that changes only the bit of page n.
  ghost predicate OnlyPage(before: seq<bv8>, after: seq<bv8>, n: int, marked: bool)
    requires |before| == |after| && 0 <= n < |before| * BITS_PER_ENTRY
  {
    forall m :: 0 <= m < |before| * BITS_PER_ENTRY ==>
      IsSet(after, m) == (if m == n then marked else IsSet(before, m))
  }

  lemma UpdateOnePage(bitmap: seq<bv8>, n: int, entry: bv8, marked: bool)
    requires 0 <= n < |bitmap| * BITS_PER_ENTRY
    requires entry == Flipped(bitmap[n / BITS_PER_ENTRY], n % BITS_PER_ENTRY, marked)
    ensures OnlyPage(bitmap, bitmap[n / BITS_PER_ENTRY := entry], n, marked)
  {
    var i := n / BITS_PER_ENTRY;
    forall m | 0 <= m < |bitmap| * BITS_PER_ENTRY
      ensures IsSet(bitmap[i := entry], m) == (if m == n then marked else IsSet(bitmap, m))
    {
      SettingABit(bitmap[i], n % BITS_PER_ENTRY, m % BITS_PER_ENTRY, marked);
      if m / BITS_PER_ENTRY == i {
        assert bitmap[i := entry][m / BITS_PER_ENTRY] == entry;
      }
    }
  }

  // A bitmap that holds exactly the given free pages, all below 4 GiB.
  ghost predicate Represents(bitmap: seq<bv8>, free: set<int>) {
    && |bitmap| == BITMAP_LENGTH
    && (forall n :: n in free ==> 0 <= n < FRAME_LIMIT)
    && (forall n :: 0 <= n < BITMAP_LENGTH * BITS_PER_ENTRY ==> (n in free <==> IsSet(bitmap, n)))
  }

  lemma MarkedRepresents(bitmap: seq<bv8>, free: set<int>, i: int, b: int, marked: bool)
    requires Represents(bitmap, free)
    requires 0 <= i < |bitmap| && 0 <= b < BITS_PER_ENTRY
    requires marked ==> i * BITS_PER_ENTRY + b < FRAME_LIMIT
    ensures var n := i * BITS_PER_ENTRY + b;
            Represents(bitmap[i := Flipped(bitmap[i], b, marked)], if marked then free + {n} else free - {n})
  {
    var n := i * BITS_PER_ENTRY + b;
    assert n / BITS_PER_ENTRY == i && n % BITS_PER_ENTRY == b;
    UpdateOnePage(bitmap, n, Flipped(bitmap[i], b, marked), marked);
  }

  class BitMapPageAllocator {
    const bitmap: array<bv8>
    ghost var free: set<int>

    // The bitmap is the set of free pages, and all of them have a 32-bit address.
    ghost predicate Valid()
      reads this, bitmap
    {
      Represents(bitmap[..], free)
    }

    constructor (memory: array<bv8>)
      requires memory.Length == BITMAP_LENGTH
      ensures bitmap == memory
    {
      bitmap := memory;
      free := {};
    }

    method Initialize()
      requires bitmap.Length == BITMAP_LENGTH
      modifies this, bitmap
      ensures Valid() && free == {}
    {
      for i := 0 to bitmap.Length
        invariant forall k :: 0 <= k < i ==> bitmap[k] == 0
      {
        bitmap[i] := 0;
      }
      free := {};
      forall n | 0 <= n < BITMAP_LENGTH * BITS_PER_ENTRY ensures !IsSet(bitmap[..], n) {
        assert bitmap[..][n / BITS_PER_ENTRY] == 0;
      }
    }

    method MarkFree(address: Address)
      requires Valid()
      modifies this, bitmap
      ensures Valid()
      ensures free == old(free) + {address / PAGE_SIZE}
    {
      var n := address / PAGE_SIZE;
      var index, bit := n / BITS_PER_ENTRY, n % BITS_PER_ENTRY;
      MarkedRepresents(bitmap[..], free, index, bit, true);
      bitmap[index] := bitmap[index] | Bit(bit);
      free := free + {n};
      assert bitmap[..] == old(bitmap[..])[index := bitmap[index]];
    }

    // Bit b of entry i says whether page 8 * i + b is free.
    lemma FreeBit(i: int, b: int)
      requires Valid() && 0 <= i < BITMAP_LENGTH && 0 <= b < BITS_PER_ENTRY
      ensures i * BITS_PER_ENTRY + b in free <==> Has(bitmap[i], b)
    {
      var n := i * BITS_PER_ENTRY + b;
      assert n / BITS_PER_ENTRY == i && n % BITS_PER_ENTRY == b;
      assert n in free <==> IsSet(bitmap[..], n);
    }

    lemma NoFreeBit(i: int)
      requires Valid() && 0 <= i < BITMAP_LENGTH && bitmap[i] == 0
      requires forall n :: n in free ==> i * BITS_PER_ENTRY <= n
      ensures forall n :: n in free ==> (i + 1) * BITS_PER_ENTRY <= n
    {
      forall n | n in free ensures (i + 1) * BITS_PER_ENTRY <= n {
        if n < (i + 1) * BITS_PER_ENTRY {
          FreeBit(i, n - i * BITS_PER_ENTRY);
        }
      }
    }

    lemma LowestFree(i: int, b: int)
      requires Valid() && 0 <= i < BITMAP_LENGTH && 0 <= b < BITS_PER_ENTRY && Has(bitmap[i], b)
      requires forall n :: n in free ==> i * BITS_PER_ENTRY <= n
      requires forall c :: 0 <= c < b ==> !Has(bitmap[i], c)
      ensures i * BITS_PER_ENTRY + b in free
      ensures forall n :: n in free ==> i * BITS_PER_ENTRY + b <= n
      ensures (i * BITS_PER_ENTRY * PAGE_SIZE + b * PAGE_SIZE) % ADDRESS_LIMIT == (i * BITS_PER_ENTRY + b) * PAGE_SIZE
    {
      FreeBit(i, b);
      forall n | n in free ensures i * BITS_PER_ENTRY + b <= n {
        if n < i * BITS_PER_ENTRY + b {
          FreeBit(i, n - i * BITS_PER_ENTRY);
        }
      }
    }

    method Unset(i: int, b: int)
      requires Valid() && 0 <= i < BITMAP_LENGTH && 0 <= b < BITS_PER_ENTRY
      modifies this, bitmap
      ensures Valid() && free == old(free) - {i * BITS_PER_ENTRY + b}
    {
      MarkedRepresents(bitmap[..], free, i, b, false);
      bitmap[i] := bitmap[i] & !Bit(b);
      free := free - {i * BITS_PER_ENTRY + b};
      assert bitmap[..] == old(bitmap[..])[i := bitmap[i]];
    }

    // Takes the lowest free page; address zero says there was none.
    method Allocate() returns (address: Address)
      requires Valid()
      modifies this, bitmap
      ensures Valid()
      ensures old(free) == {} ==> address == 0 && free == {}
      ensures old(free) != {} ==>
                && address % PAGE_SIZE == 0
                && address / PAGE_SIZE in old(free)
                && (forall n :: n in old(free) ==> address / PAGE_SIZE <= n)
                && free == old(free) - {address / PAGE_SIZE}
    {
      var i := 0;
      while i < BITMAP_LENGTH && bitmap[i] == 0
        invariant 0 <= i <= BITMAP_LENGTH
        invariant forall n :: n in free ==> i * BITS_PER_ENTRY <= n
        modifies {}
      {
        NoFreeBit(i);
        i := i + 1;
      }
      if i == BITMAP_LENGTH {
        return 0;
      }
      var b := LowestBit(bitmap[i]);
      LowestFree(i, b);
      Unset(i, b);
      return (i * BITS_PER_ENTRY * PAGE_SIZE + b * PAGE_SIZE) % ADDRESS_LIMIT;
    }
  }
}

/** The kernel's physical page allocator and its counter of free pages. */
module PhysicalPages {
  import opened PageWords
  import opened Bitmaps

  // Kernel panic halts the machine; nothing is promised about the state afterwards.
  datatype Outcome<+T> = Done(value: T) | Panic {
    predicate IsFailure() { Panic? }
    function PropagateFailure<U>(): Outcome<U> requires Panic? { Panic }
    function Extract(): T requires Done? { value }
  }

  datatype Event = Allocate | Free(page: int)

  datatype Pool = Pool(free: set<int>, count: int)

  ghost function Lowest(s: set<int>): (n: int)
    requires s != {}
    ensures n in s && forall m :: m in s ==> n <= m
  {
    LowestExists(s);
    var n :| n in s && forall m :: m in s ==> n <= m;
    n
  }

  lemma {:induction false} LowestExists(s: set<int>)
    requires s != {}
    ensures exists n :: n in s && forall m :: m in s ==> n <= m
  {
    assert (forall x :: x !in s) ==> s == {};
    var x :| x in s;
    if s - {x} == {} {
      assert s == {x};
    } else {
      LowestExists(s - {x});
      var y :| y in s - {x} && forall m :: m in s - {x} ==> y <= m;
      var n := if x <= y then x else y;
      assert forall m :: m in s ==> m == x || m in s - {x};
      assert n in s && forall m :: m in s ==> n <= m;
    }
  }

  lemma ZeroIsLowest(bytes: seq<bv8>, free: set<int>)
    requires Represents(bytes, free) && 0 in free
    ensures Lowest(free) == 0
  {
    LowestExists(free);
  }

  // One call of the allocator; allocating from an empty pool panics and is no event.
  ghost function Step(p: Pool, e: Event): Pool
    requires e.Allocate? ==> p.free != {}
  {
    match e
    case Allocate => Pool(p.free - {Lowest(p.free)}, p.count - 1)
    case Free(n) => Pool(p.free + {n}, p.count + 1)
  }

  ghost predicate Runs(p: Pool, events: seq<Event>)
    decreases |events|
  {
    events != [] ==>
      && (events[0].Allocate? ==> p.free != {})
      && Runs(Step(p, events[0]), events[1..])
  }

  ghost function Run(p: Pool, events: seq<Event>): Pool
    requires Runs(p, events)
    decreases |events|
  {
    if events == [] then p else Run(Step(p, events[0]), events[1..])
  }

  // How often a run frees a page that is free already.
  ghost function DoubleFrees(p: Pool, events: seq<Event>): nat
    requires Runs(p, events)
    decreases |events|
  {
    if events == [] then 0
    else
      (if events[0].Free? && events[0].page in p.free then 1 else 0)
      + DoubleFrees(Step(p, events[0]), events[1..])
  }

  /**
   * Over every run the counter exceeds the number of free pages by exactly the
   * number of frees of a page that was free: it is exact iff there were none.
   */
  lemma {:induction false} CounterDrift(p: Pool, events: seq<Event>)
    requires Runs(p, events)
    ensures Run(p, events).count - |Run(p, events).free| == p.count - |p.free| + DoubleFrees(p, events)
    decreases |events|
  {
    if events != [] {
      var q := Step(p, events[0]);
      assert q.count - |q.free| ==
             p.count - |p.free| + (if events[0].Free? && events[0].page in p.free then 1 else 0) by {
        match events[0] {
          case Allocate =>
          case Free(n) => assert n in p.free ==> p.free + {n} == p.free;
        }
      }
      CounterDrift(q, events[1..]);
    }
  }

  /** A page freed twice counts as two free pages. */
  lemma DoubleFreeDrifts(n: int)
    ensures var p, events := Pool({}, 0), [Free(n), Free(n)];
      Runs(p, events) && Run(p, events) == Pool({n}, 2)
  {
    var p, events := Pool({}, 0), [Free(n), Free(n)];
    assert Step(p, events[0]) == Pool({n}, 1) && events[1..] == [Free(n)];
    assert Step(Pool({n}, 1), Free(n)) == Pool({n}, 2) && [Free(n)][1..] == [];
    assert Runs(Pool({n}, 2), []) && Run(Pool({n}, 2), []) == Pool({n}, 2);
  }

  /** Freeing the page that was just allocated restores the pool. */
  lemma FreeUndoesAllocate(p: Pool)
    requires p.free != {}
    ensures Step(Step(p, Allocate), Free(Lowest(p.free))) == p
  {
    assert p.free - {Lowest(p.free)} + {Lowest(p.free)} == p.free;
  }

  class PPallocator {
    const pages: BitMapPageAllocator
    var freePageCount: int
    var initialAmount: int

    ghost predicate Valid()
      reads this, pages, pages.bitmap
    {
      pages.Valid()
    }

    ghost function State(): Pool
      reads this, pages
    {
      Pool(pages.free, freePageCount)
    }

    constructor (memory: array<bv8>)
      requires memory.Length == BITMAP_LENGTH
      ensures pages.bitmap == memory && fresh(pages)
      ensures freePageCount == 0
    {
      pages := new BitMapPageAllocator(memory);
      freePageCount, initialAmount := 0, 0;
    }

    // Takes over the loader's bitmap and counts its pages.
    method InitializeFromBitmap(source: array<bv8>, ghost loaderFree: set<int>) returns (r: Outcome<()>)
      requires pages.bitmap.Length == BITMAP_LENGTH && source != pages.bitmap
      requires source.Length == BITMAP_LENGTH ==> Represents(source[..], loaderFree)
      requires freePageCount == 0
      modifies this, pages, pages.bitmap
      ensures r.Panic? <==> source.Length != BITMAP_LENGTH
      ensures r.Done? ==> Valid() && State() == Pool(loaderFree, |loaderFree|)
      ensures r.Done? ==> initialAmount == freePageCount
    {
      if source.Length != BITMAP_LENGTH {
        return Panic;
      }
      pages.Initialize();
      var k := 0;
      while k < BITMAP_LENGTH
        invariant 0 <= k <= BITMAP_LENGTH
        invariant pages.bitmap[..k] == source[..k]
        invariant freePageCount == 0 && source[..] == old(source[..])
      {
        pages.bitmap[k] := source[k];
        k := k + 1;
      }
      assert pages.bitmap[..] == pages.bitmap[..k] && source[..] == source[..k];
      pages.free := loaderFree;
      var i := 0;
      while i < BITMAP_LENGTH
        invariant 0 <= i <= BITMAP_LENGTH
        invariant pages.Valid() && pages.free == loaderFree
        invariant freePageCount == |Below(loaderFree, i * BITS_PER_ENTRY)|
      {
        var b := 0;
        while b < BITS_PER_ENTRY
          invariant 0 <= b <= BITS_PER_ENTRY
          invariant pages.Valid() && pages.free == loaderFree
          invariant freePageCount == |Below(loaderFree, i * BITS_PER_ENTRY + b)|
        {
          pages.FreeBit(i, b);
          BelowStep(loaderFree, i * BITS_PER_ENTRY + b);
          if Has(pages.bitmap[i], b) {
            freePageCount := freePageCount + 1;
          }
          b := b + 1;
        }
        i := i + 1;
      }
      assert Below(loaderFree, i * BITS_PER_ENTRY) == loaderFree;
      initialAmount := freePageCount;
      return Done(());
    }

    method Free(page: Address)
      requires Valid()
      modifies this, pages, pages.bitmap
      ensures Valid()
      ensures State() == Step(old(State()), Event.Free(page / PAGE_SIZE))
    {
      pages.MarkFree(page);
      freePageCount := freePageCount + 1;
    }

    // Page zero is indistinguishable from failure, so it panics too.
    method Allocate() returns (r: Outcome<Address>)
      requires Valid()
      modifies this, pages, pages.bitmap
      ensures Valid()
      ensures r.Panic? ==> pages.free == old(pages.free) - {0}
      ensures r.Panic? <==> old(pages.free) == {} || Lowest(old(pages.free)) == 0
      ensures r.Done? ==> r.value == Lowest(old(pages.free)) * PAGE_SIZE
      ensures r.Done? ==> State() == Step(old(State()), Event.Allocate)
    {
      var page := pages.Allocate();
      if page == 0 {
        return Panic;
      }
      freePageCount := freePageCount - 1;
      return Done(page);
    }
  }

  ghost function Below(s: set<int>, limit: int): set<int> {
    set n | n in s && n < limit
  }

  lemma BelowStep(s: set<int>, n: int)
    ensures |Below(s, n + 1)| == |Below(s, n)| + (if n in s then 1 else 0)
  {
    if n in s {
      assert Below(s, n + 1) == Below(s, n) + {n};
    } else {
      assert Below(s, n + 1) == Below(s, n);
    }
  }
}

/**
 * The table of how often each frame is referenced from a process image or heap.
 * Second-level tables appear on first use; counts are 16 bits wide and wrap.
 */
module FrameReferences {
  import opened PageWords

  type Count = c: int | -0x8000 <= c < 0x8000

  function Wrap16(n: int): Count { (n + 0x8000) % 0x1_0000 - 0x8000 }

  lemma WrapSteps(n: int)
    ensures Wrap16(Wrap16(n) + 1) == Wrap16(n + 1)
    ensures Wrap16(Wrap16(n) - 1) == Wrap16(n - 1)
  {
  }

  lemma WrapSum(a: int, n: int)
    ensures Wrap16(Wrap16(a) + n) == Wrap16(a + n)
  {
  }

  lemma WrapWithinRange(c: Count)
    ensures Wrap16(c) == c
  {
  }

  type Counts = map<int, seq<Count>>

  ghost predicate CountsOk(c: Counts) {
    forall i :: i in c ==> |c[i]| == ENTRIES
  }

  function CountIn(c: Counts, f: Frame): Count
    requires CountsOk(c)
  {
    if f / ENTRIES in c then c[f / ENTRIES][f % ENTRIES] else 0
  }

  // The table with a zeroed second level for f, where it was missing.
  function WithTable(c: Counts, f: Frame): (r: Counts)
    requires CountsOk(c)
    ensures CountsOk(r) && r.Keys == c.Keys + {f / ENTRIES}
    ensures forall g: Frame :: CountIn(r, g) == CountIn(c, g)
  {
    if f / ENTRIES in c then c else c[f / ENTRIES := seq(ENTRIES, _ => 0)]
  }

  function Stored(c: Counts, f: Frame, count: Count): (r: Counts)
    requires CountsOk(c) && f / ENTRIES in c
    ensures CountsOk(r) && r.Keys == c.Keys
    ensures forall g: Frame :: CountIn(r, g) == if g == f then count else CountIn(c, g)
  {
    var t: seq<Count> := c[f / ENTRIES];
    var r := c[f / ENTRIES := t[f % ENTRIES := count]];
    assert forall g: Frame :: g != f ==> g / ENTRIES != f / ENTRIES || g % ENTRIES != f % ENTRIES;
    r
  }

  function Incremented(c: Counts, f: Frame): (r: Counts)
    requires CountsOk(c)
    ensures CountsOk(r) && r.Keys == c.Keys + {f / ENTRIES}
    ensures CountIn(r, f) == Wrap16(CountIn(c, f) as int + 1)
    ensures forall g: Frame :: g != f ==> CountIn(r, g) == CountIn(c, g)
  {
    Stored(WithTable(c, f), f, Wrap16(CountIn(c, f) as int + 1))
  }

  class PPreferenceTracker {
    var tables: Counts

    ghost predicate Valid()
      reads this
    {
      CountsOk(tables)
    }

    constructor ()
      ensures Valid() && tables == map[]
    {
      tables := map[];
    }

    method Increment(f: Frame)
      requires Valid()
      modifies this
      ensures Valid()
      ensures tables == Incremented(old(tables), f)
    {
      tables := WithTable(tables, f);
      tables := Stored(tables, f, Wrap16(tables[f / ENTRIES][f % ENTRIES] as int + 1));
    }

    // A missing second-level table reads as zero and stays missing.
    method Decrement(f: Frame) returns (left: Count)
      requires Valid()
      modifies this
      ensures Valid()
      ensures f / ENTRIES !in old(tables) ==> left == 0 && tables == old(tables)
      ensures f / ENTRIES in old(tables) ==>
                && left == Wrap16(CountIn(old(tables), f) as int - 1)
                && tables == Stored(old(tables), f, left)
    {
      if f / ENTRIES !in tables {
        return 0;
      }
      left := Wrap16(tables[f / ENTRIES][f % ENTRIES] as int - 1);
      tables := Stored(tables, f, left);
    }
  }
}
