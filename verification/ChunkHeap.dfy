/**
 * The list of chunks a heap is divided into: each is a header followed by its
 * payload, and the chunks follow each other without gaps.
 */
module Chunks {
  const HEADER := 12                // sizeof(ChunkHeader)
  const MINIMUM_ALLOCATION := 8
  const WORD_LIMIT := 0x1_0000_0000

  datatype Chunk = Chunk(start: int, used: bool, size: int)

  function End(c: Chunk): int { c.start + HEADER + c.size }

  ghost predicate Adjacent(cs: seq<Chunk>, i: int)
    requires 0 <= i < |cs| - 1
  {
    End(cs[i]) == cs[i + 1].start
  }

  ghost predicate OneUsed(cs: seq<Chunk>, i: int)
    requires 0 <= i < |cs| - 1
  {
    cs[i].used || cs[i + 1].used
  }

  // The chunks cover the area from start to end exactly.
  ghost predicate Tiles(cs: seq<Chunk>, start: int, end: int) {
    && |cs| > 0
    && cs[0].start == start
    && End(cs[|cs| - 1]) == end
    && (forall i :: 0 <= i < |cs| ==> cs[i].size >= 0)
    && (forall i :: 0 <= i < |cs| - 1 ==> Adjacent(cs, i))
  }

  ghost predicate NoFreeNeighbours(cs: seq<Chunk>) {
    forall i :: 0 <= i < |cs| - 1 ==> OneUsed(cs, i)
  }

  ghost predicate Canonical(cs: seq<Chunk>, start: int, end: int) {
    Tiles(cs, start, end) && NoFreeNeighbours(cs) && !cs[|cs| - 1].used
  }

  // The blocks in use.
  ghost function Live(cs: seq<Chunk>): set<Chunk> {
    set c | c in cs && c.used
  }

  lemma {:induction false} StartsIncrease(cs: seq<Chunk>, start: int, end: int, i: int, j: int)
    requires Tiles(cs, start, end) && 0 <= i < j < |cs|
    ensures End(cs[i]) <= cs[j].start
    decreases j - i
  {
    assert Adjacent(cs, i);
    if i + 1 < j {
      StartsIncrease(cs, start, end, i + 1, j);
    }
  }

  lemma StartsApart(cs: seq<Chunk>, start: int, end: int)
    requires Tiles(cs, start, end)
    ensures forall i, j :: 0 <= i < |cs| && 0 <= j < |cs| && cs[i].start == cs[j].start ==> i == j
    ensures forall i :: 0 <= i < |cs| ==> start <= cs[i].start && End(cs[i]) <= end
  {
    forall i, j | 0 <= i < |cs| && 0 <= j < |cs| && cs[i].start == cs[j].start ensures i == j {
      if i < j { StartsIncrease(cs, start, end, i, j); }
      if j < i { StartsIncrease(cs, start, end, j, i); }
    }
    forall i | 0 <= i < |cs| ensures start <= cs[i].start && End(cs[i]) <= end {
      if 0 < i { StartsIncrease(cs, start, end, 0, i); }
      if i < |cs| - 1 { StartsIncrease(cs, start, end, i, |cs| - 1); }
    }
  }

  // Byte a lies in the payload of c, or in its header.
  predicate InPayload(c: Chunk, a: int) { c.start + HEADER <= a < End(c) }
  predicate InHeader(c: Chunk, a: int) { c.start <= a < c.start + HEADER }

  /** Every byte of the area belongs to exactly one chunk: payloads meet neither each other nor a header. */
  lemma PayloadsDisjoint(cs: seq<Chunk>, start: int, end: int, i: int, j: int, a: int)
    requires Tiles(cs, start, end) && 0 <= i < |cs| && 0 <= j < |cs| && InPayload(cs[i], a)
    ensures start <= a < end
    ensures InPayload(cs[j], a) ==> i == j
    ensures !InHeader(cs[j], a)
  {
    StartsApart(cs, start, end);
    if i < j { StartsIncrease(cs, start, end, i, j); }
    if j < i { StartsIncrease(cs, start, end, j, i); }
  }

  lemma TilesTail(cs: seq<Chunk>, start: int, end: int)
    requires Tiles(cs, start, end) && |cs| > 1
    ensures Tiles(cs[1..], End(cs[0]), end)
  {
    assert Adjacent(cs, 0);
    forall j | 0 <= j < |cs[1..]| - 1 ensures Adjacent(cs[1..], j) {
      assert Adjacent(cs, j + 1);
    }
  }

  lemma NoFreeNeighboursTail(cs: seq<Chunk>)
    requires NoFreeNeighbours(cs) && |cs| > 1
    ensures NoFreeNeighbours(cs[1..])
  {
    forall j | 0 <= j < |cs[1..]| - 1 ensures OneUsed(cs[1..], j) {
      assert OneUsed(cs, j + 1);
    }
  }

  /**
   * A canonical list is determined by its area and its live blocks: whatever
   * history led to them, the chunks are the same.
   */
  lemma {:induction false} CanonicalIsUnique(cs: seq<Chunk>, ds: seq<Chunk>, start: int, end: int)
    requires Canonical(cs, start, end) && Canonical(ds, start, end)
    requires Live(cs) == Live(ds)
    ensures cs == ds
    decreases |cs|
  {
    StartsApart(cs, start, end);
    StartsApart(ds, start, end);
    SameFirst(cs, ds, start, end);
    assert |cs| > 1 ==> Adjacent(cs, 0);
    assert |ds| > 1 ==> Adjacent(ds, 0);
    if |cs| > 1 && |ds| > 1 {
      TilesTail(cs, start, end);
      TilesTail(ds, start, end);
      NoFreeNeighboursTail(cs);
      NoFreeNeighboursTail(ds);
      LiveTail(cs, start, end);
      LiveTail(ds, start, end);
      CanonicalIsUnique(cs[1..], ds[1..], End(cs[0]), end);
      assert cs == [cs[0]] + cs[1..] && ds == [ds[0]] + ds[1..];
    } else {
      assert cs == [cs[0]] && ds == [ds[0]];
    }
  }

  lemma LiveTail(cs: seq<Chunk>, start: int, end: int)
    requires Tiles(cs, start, end) && |cs| > 1
    ensures Live(cs[1..]) == Live(cs) - {cs[0]}
  {
    StartsApart(cs, start, end);
    assert cs == [cs[0]] + cs[1..];
    assert cs[0] !in cs[1..];
  }

  lemma SameFirst(cs: seq<Chunk>, ds: seq<Chunk>, start: int, end: int)
    requires Canonical(cs, start, end) && Canonical(ds, start, end)
    requires Live(cs) == Live(ds)
    ensures cs[0] == ds[0]
  {
    FirstFollowsLive(cs, ds, start, end);
    FirstFollowsLive(ds, cs, start, end);
  }

  // The first chunk of cs is used like that of ds, and it does not reach beyond it.
  lemma FirstFollowsLive(cs: seq<Chunk>, ds: seq<Chunk>, start: int, end: int)
    requires Canonical(cs, start, end) && Canonical(ds, start, end)
    requires Live(cs) == Live(ds)
    ensures cs[0].used ==> cs[0] == ds[0]
    ensures !cs[0].used && !ds[0].used ==> End(ds[0]) <= End(cs[0])
  {
    StartsApart(cs, start, end);
    StartsApart(ds, start, end);
    if cs[0].used {
      assert cs[0] in Live(ds);
      var i :| 0 <= i < |ds| && ds[i] == cs[0];
      assert ds[i].start == ds[0].start;
    } else if !ds[0].used && |cs| > 1 {
      assert Adjacent(cs, 0) && OneUsed(cs, 0);
      assert cs[1] in Live(ds);
      var i :| 0 <= i < |ds| && ds[i] == cs[1];
      StartsIncrease(ds, start, end, 0, i);
    }
  }

  // Merging from the front: a free chunk swallows free successors before the next one is looked at.
  function Merge(cs: seq<Chunk>): (r: seq<Chunk>)
    ensures cs != [] ==> r != [] && r[0].start == cs[0].start && r[0].used == cs[0].used
    decreases |cs|
  {
    if |cs| <= 1 then cs
    else if !cs[0].used && !cs[1].used then Merge([Joined(cs[0], cs[1])] + cs[2..])
    else [cs[0]] + Merge(cs[1..])
  }

  function Joined(a: Chunk, b: Chunk): Chunk {
    Chunk(a.start, false, a.size + HEADER + b.size)
  }

  lemma LiveConcat(a: seq<Chunk>, b: seq<Chunk>)
    ensures Live(a + b) == Live(a) + Live(b)
  {
  }

  lemma {:induction false} MergeKeepsLive(cs: seq<Chunk>)
    ensures Live(Merge(cs)) == Live(cs)
    decreases |cs|
  {
    if |cs| > 1 {
      if !cs[0].used && !cs[1].used {
        MergeKeepsLive([Joined(cs[0], cs[1])] + cs[2..]);
        LiveConcat([Joined(cs[0], cs[1])], cs[2..]);
        LiveConcat([cs[0], cs[1]], cs[2..]);
        assert cs == [cs[0], cs[1]] + cs[2..];
      } else {
        MergeKeepsLive(cs[1..]);
        LiveConcat([cs[0]], Merge(cs[1..]));
        LiveConcat([cs[0]], cs[1..]);
        assert cs == [cs[0]] + cs[1..];
      }
    }
  }

  /** Merging keeps the area and leaves no two free neighbours. */
  lemma {:induction false} MergeIsCanonical(cs: seq<Chunk>, start: int, end: int)
    requires Tiles(cs, start, end)
    ensures Tiles(Merge(cs), start, end) && NoFreeNeighbours(Merge(cs))
    ensures Merge(cs)[|Merge(cs)| - 1].used == cs[|cs| - 1].used
    decreases |cs|
  {
    if |cs| > 1 {
      assert Adjacent(cs, 0);
      if !cs[0].used && !cs[1].used {
        JoinedTiles(cs, start, end);
        MergeIsCanonical([Joined(cs[0], cs[1])] + cs[2..], start, end);
      } else {
        TilesTail(cs, start, end);
        MergeIsCanonical(cs[1..], End(cs[0]), end);
        PrependTiles(cs[0], Merge(cs[1..]), end);
      }
    }
  }

  lemma PrependTiles(c: Chunk, cs: seq<Chunk>, end: int)
    requires Tiles(cs, End(c), end) && NoFreeNeighbours(cs) && c.size >= 0 && (c.used || cs[0].used)
    ensures Tiles([c] + cs, c.start, end) && NoFreeNeighbours([c] + cs)
  {
    var ds := [c] + cs;
    forall i | 0 <= i < |ds| - 1 ensures Adjacent(ds, i) && OneUsed(ds, i) {
      if i > 0 {
        assert Adjacent(cs, i - 1) && OneUsed(cs, i - 1);
      }
    }
  }

  lemma JoinedTiles(cs: seq<Chunk>, start: int, end: int)
    requires Tiles(cs, start, end) && |cs| > 1
    ensures Tiles([Joined(cs[0], cs[1])] + cs[2..], start, end)
  {
    var ds := [Joined(cs[0], cs[1])] + cs[2..];
    assert Adjacent(cs, 0);
    forall i | 0 <= i < |ds| - 1 ensures Adjacent(ds, i) {
      assert Adjacent(cs, i + 1);
    }
  }

  // The first free chunk that can hold size bytes and the header of what remains.
  function FirstFit(cs: seq<Chunk>, size: int): (i: int)
    ensures 0 <= i <= |cs|
    ensures i < |cs| ==> Fits(cs[i], size)
    ensures forall j :: 0 <= j < i ==> !Fits(cs[j], size)
  {
    if cs == [] then 0 else if Fits(cs[0], size) then 0 else 1 + FirstFit(cs[1..], size)
  }

  lemma FirstFitIs(cs: seq<Chunk>, size: int, i: int)
    requires 0 <= i <= |cs| && (i < |cs| ==> Fits(cs[i], size))
    requires forall j :: 0 <= j < i ==> !Fits(cs[j], size)
    ensures FirstFit(cs, size) == i
  {
  }

  predicate Fits(c: Chunk, size: int) { !c.used && c.size >= size + HEADER }

  // The test as computed with 32-bit words.
  predicate FitTest(c: Chunk, size: int) { !c.used && c.size >= (size + HEADER) % WORD_LIMIT }

  /** The computed test is the intended one on every chunk exactly for requests the sum does not wrap for. */
  lemma FitTestExact(size: int)
    requires 0 <= size < WORD_LIMIT
    ensures (forall c: Chunk :: 0 <= c.size < WORD_LIMIT ==> (FitTest(c, size) <==> Fits(c, size)))
            <==> size + HEADER < WORD_LIMIT
  {
    if size + HEADER >= WORD_LIMIT {
      var c := Chunk(0, false, WORD_LIMIT - 1);
      assert FitTest(c, size) && !Fits(c, size);
    }
  }

  /** A request for all but one byte of 4 GiB is given a chunk of a few bytes. */
  lemma HugeRequestPasses()
    ensures var c := Chunk(0, false, HEADER); FitTest(c, WORD_LIMIT - 1) && !Fits(c, WORD_LIMIT - 1)
  {
  }

  // Chunk i becomes a used chunk of the given size; the rest of it is a new free chunk.
  function Split(cs: seq<Chunk>, i: int, size: int): seq<Chunk>
    requires 0 <= i < |cs|
  {
    var c := Chunk(cs[i].start, true, size);
    cs[..i] + [c, Chunk(End(c), false, cs[i].size - size - HEADER)] + cs[i + 1..]
  }

  /** An allocation keeps the list canonical and adds exactly one live block. */
  lemma SplitIsCanonical(cs: seq<Chunk>, start: int, end: int, i: int, size: int)
    requires Canonical(cs, start, end) && 0 <= i < |cs| && Fits(cs[i], size) && size >= 0
    ensures Canonical(Split(cs, i, size), start, end)
    ensures Live(Split(cs, i, size)) == Live(cs) + {Chunk(cs[i].start, true, size)}
    ensures Chunk(cs[i].start, true, size) !in Live(cs)
  {
    StartsApart(cs, start, end);
    var ds := Split(cs, i, size);
    forall j | 0 <= j < |ds| - 1
      ensures Adjacent(ds, j) && OneUsed(ds, j)
    {
      if j < i {
        assert Adjacent(cs, j) && OneUsed(cs, j);
      } else if j > i {
        assert Adjacent(cs, j - 1) && OneUsed(cs, j - 1);
      }
    }
    assert cs == cs[..i] + [cs[i]] + cs[i + 1..];
  }

  lemma LiveSplitAt(cs: seq<Chunk>, i: int)
    requires 0 <= i < |cs|
    ensures Live(cs) == Live(cs[..i]) + Live([cs[i]]) + Live(cs[i + 1..])
  {
    assert cs == cs[..i] + [cs[i]] + cs[i + 1..];
    LiveConcat(cs[..i] + [cs[i]], cs[i + 1..]);
    LiveConcat(cs[..i], [cs[i]]);
  }

  // Chunk i is given back and free neighbours are merged.
  function Freed(cs: seq<Chunk>, i: int): seq<Chunk>
    requires 0 <= i < |cs|
  {
    Merge(cs[i := cs[i].(used := false)])
  }

  /** Freeing keeps the list canonical and removes exactly one live block. */
  lemma FreedIsCanonical(cs: seq<Chunk>, start: int, end: int, i: int)
    requires Canonical(cs, start, end) && 0 <= i < |cs| && cs[i].used
    ensures Canonical(Freed(cs, i), start, end)
    ensures Live(Freed(cs, i)) == Live(cs) - {cs[i]}
  {
    StartsApart(cs, start, end);
    var ds := cs[i := cs[i].(used := false)];
    forall j | 0 <= j < |ds| - 1 ensures Adjacent(ds, j) {
      assert Adjacent(cs, j);
    }
    MergeIsCanonical(ds, start, end);
    MergeKeepsLive(ds);
    LiveSplitAt(cs, i);
    LiveSplitAt(ds, i);
    assert ds[..i] == cs[..i] && ds[i + 1..] == cs[i + 1..];
    assert cs[i] !in cs[..i] && cs[i] !in cs[i + 1..];
  }

  // The area grows by size bytes, which first form a chunk of their own.
  function Expanded(cs: seq<Chunk>, size: int): seq<Chunk>
    requires cs != []
  {
    Merge(cs + [Chunk(End(cs[|cs| - 1]), false, size - HEADER)])
  }

  /** Because the last chunk is free, an expansion enlarges it and touches nothing else. */
  lemma ExpandedLast(cs: seq<Chunk>, start: int, end: int, size: int)
    requires Canonical(cs, start, end) && size >= HEADER
    ensures var n := |cs| - 1; Expanded(cs, size) == cs[n := Chunk(cs[n].start, false, cs[n].size + size)]
    ensures Canonical(Expanded(cs, size), start, end + size)
    ensures Live(Expanded(cs, size)) == Live(cs)
  {
    var n := |cs| - 1;
    var ds := cs[n := Chunk(cs[n].start, false, cs[n].size + size)];
    MergeOnlyLast(cs, Chunk(End(cs[n]), false, size - HEADER));
    forall j | 0 <= j < |ds| - 1 ensures Adjacent(ds, j) && OneUsed(ds, j) {
      assert Adjacent(cs, j) && OneUsed(cs, j);
    }
    assert forall c: Chunk :: c.used ==> (c in ds <==> c in cs) by {
      assert cs == cs[..n] + [cs[n]] && ds == cs[..n] + [ds[n]];
    }
  }

  lemma {:induction false} MergeOnlyLast(cs: seq<Chunk>, last: Chunk)
    requires |cs| > 0 && NoFreeNeighbours(cs) && !cs[|cs| - 1].used && !last.used
    ensures Merge(cs + [last]) == cs[|cs| - 1 := Joined(cs[|cs| - 1], last)]
    decreases |cs|
  {
    if |cs| == 1 {
      assert (cs + [last])[2..] == [];
    } else {
      assert OneUsed(cs, 0);
      assert (cs + [last])[1..] == cs[1..] + [last];
      NoFreeNeighboursTail(cs);
      MergeOnlyLast(cs[1..], last);
    }
  }

  /** Allocating and freeing the block again restores the list, wherever it was placed. */
  lemma AllocateThenFree(cs: seq<Chunk>, start: int, end: int, size: int)
    requires Canonical(cs, start, end) && size >= 0
    ensures var i := FirstFit(cs, size); i < |cs| ==> Freed(Split(cs, i, size), i) == cs
  {
    var i := FirstFit(cs, size);
    if i < |cs| {
      var ds := Split(cs, i, size);
      SplitIsCanonical(cs, start, end, i, size);
      FreedIsCanonical(ds, start, end, i);
      assert Live(Freed(ds, i)) == Live(cs);
      CanonicalIsUnique(Freed(ds, i), cs, start, end);
    }
  }

  // The bytes of all used chunks.
  function UsedBytes(cs: seq<Chunk>): int {
    if cs == [] then 0 else (if cs[0].used then cs[0].size else 0) + UsedBytes(cs[1..])
  }

  lemma {:induction false} UsedBytesConcat(a: seq<Chunk>, b: seq<Chunk>)
    ensures UsedBytes(a + b) == UsedBytes(a) + UsedBytes(b)
  {
    if a == [] {
      assert a + b == b;
    } else {
      assert (a + b)[1..] == a[1..] + b;
      UsedBytesConcat(a[1..], b);
    }
  }

  lemma {:induction false} MergeKeepsUsedBytes(cs: seq<Chunk>)
    ensures UsedBytes(Merge(cs)) == UsedBytes(cs)
    decreases |cs|
  {
    if |cs| > 1 {
      if !cs[0].used && !cs[1].used {
        MergeKeepsUsedBytes([Joined(cs[0], cs[1])] + cs[2..]);
        assert ([Joined(cs[0], cs[1])] + cs[2..])[1..] == cs[1..][1..];
      } else {
        MergeKeepsUsedBytes(cs[1..]);
        assert ([cs[0]] + Merge(cs[1..]))[1..] == Merge(cs[1..]);
      }
    }
  }

  lemma UsedBytesAt(cs: seq<Chunk>, i: int, mid: seq<Chunk>)
    requires 0 <= i < |cs|
    ensures UsedBytes(cs[..i] + mid + cs[i + 1..]) ==
            UsedBytes(cs) - (if cs[i].used then cs[i].size else 0) + UsedBytes(mid)
  {
    UsedBytesConcat(cs[..i] + mid, cs[i + 1..]);
    UsedBytesConcat(cs[..i], mid);
    UsedBytesConcat(cs[..i] + [cs[i]], cs[i + 1..]);
    UsedBytesConcat(cs[..i], [cs[i]]);
    assert cs == cs[..i] + [cs[i]] + cs[i + 1..];
    assert UsedBytes([cs[i]]) == if cs[i].used then cs[i].size else 0;
  }

  /** The operations change the bytes in use by the size of the block, and by nothing else. */
  lemma SplitUsedBytes(cs: seq<Chunk>, i: int, size: int)
    requires 0 <= i < |cs| && !cs[i].used
    ensures UsedBytes(Split(cs, i, size)) == UsedBytes(cs) + size
  {
    var c := Chunk(cs[i].start, true, size);
    var rest := Chunk(End(c), false, cs[i].size - size - HEADER);
    UsedBytesAt(cs, i, [c, rest]);
    assert [c, rest][1..] == [rest];
    assert UsedBytes([rest]) == 0;
    assert UsedBytes([c, rest]) == size;
  }

  lemma FreedUsedBytes(cs: seq<Chunk>, i: int)
    requires 0 <= i < |cs| && cs[i].used
    ensures UsedBytes(Freed(cs, i)) == UsedBytes(cs) - cs[i].size
  {
    var freed := cs[i].(used := false);
    UsedBytesAt(cs, i, [freed]);
    assert UsedBytes([freed]) == 0;
    assert cs[i := freed] == cs[..i] + [freed] + cs[i + 1..];
    MergeKeepsUsedBytes(cs[i := freed]);
  }

  lemma ExpandedUsedBytes(cs: seq<Chunk>, size: int)
    requires cs != []
    ensures UsedBytes(Expanded(cs, size)) == UsedBytes(cs)
  {
    var last := Chunk(End(cs[|cs| - 1]), false, size - HEADER);
    UsedBytesConcat(cs, [last]);
    assert UsedBytes([last]) == 0;
    MergeKeepsUsedBytes(cs + [last]);
  }

  function Rounded(size: int): (r: int)
    ensures r >= size && r >= MINIMUM_ALLOCATION && (r == size || r == MINIMUM_ALLOCATION)
  {
    if size < MINIMUM_ALLOCATION then MINIMUM_ALLOCATION else size
  }

  datatype Op = Allocate(size: nat) | Free(index: nat) | Expand(amount: nat)

  datatype Heap = Heap(chunks: seq<Chunk>, end: int)

  // One call on the heap; only live blocks are freed, and expansions hold at least a header.
  ghost predicate Legal(h: Heap, op: Op) {
    match op
    case Allocate(_) => true
    case Free(i) => i < |h.chunks| && h.chunks[i].used
    case Expand(amount) => amount >= HEADER && h.chunks != []
  }

  ghost function Step(h: Heap, op: Op): Heap
    requires Legal(h, op)
  {
    match op
    case Allocate(size) =>
      var i := FirstFit(h.chunks, Rounded(size));
      if i < |h.chunks| then h.(chunks := Split(h.chunks, i, Rounded(size))) else h
    case Free(i) => h.(chunks := Freed(h.chunks, i))
    case Expand(amount) => Heap(Expanded(h.chunks, amount), h.end + amount)
  }

  ghost predicate Runs(h: Heap, ops: seq<Op>)
    decreases |ops|
  {
    ops != [] ==> Legal(h, ops[0]) && Runs(Step(h, ops[0]), ops[1..])
  }

  ghost function Run(h: Heap, ops: seq<Op>): Heap
    requires Runs(h, ops)
    decreases |ops|
  {
    if ops == [] then h else Run(Step(h, ops[0]), ops[1..])
  }

  function Fresh(start: int, end: int): Heap {
    Heap([Chunk(start, false, end - start - HEADER)], end)
  }

  /** Every history keeps the chunks canonical. */
  lemma {:induction false} RunIsCanonical(h: Heap, start: int, ops: seq<Op>)
    requires Canonical(h.chunks, start, h.end) && Runs(h, ops)
    ensures Canonical(Run(h, ops).chunks, start, Run(h, ops).end)
    decreases |ops|
  {
    if ops != [] {
      match ops[0] {
        case Allocate(size) =>
          var i := FirstFit(h.chunks, Rounded(size));
          if i < |h.chunks| {
            SplitIsCanonical(h.chunks, start, h.end, i, Rounded(size));
          }
        case Free(i) => FreedIsCanonical(h.chunks, start, h.end, i);
        case Expand(amount) => ExpandedLast(h.chunks, start, h.end, amount);
      }
      RunIsCanonical(Step(h, ops[0]), start, ops[1..]);
    }
  }

  /** Two histories that reach the same size and leave the same blocks in use leave the same heap. */
  lemma HistoriesAgree(start: int, end: int, ops: seq<Op>, ops': seq<Op>)
    requires end - start >= HEADER && Runs(Fresh(start, end), ops) && Runs(Fresh(start, end), ops')
    requires Run(Fresh(start, end), ops).end == Run(Fresh(start, end), ops').end
    requires Live(Run(Fresh(start, end), ops).chunks) == Live(Run(Fresh(start, end), ops').chunks)
    ensures Run(Fresh(start, end), ops) == Run(Fresh(start, end), ops')
  {
    RunIsCanonical(Fresh(start, end), start, ops);
    RunIsCanonical(Fresh(start, end), start, ops');
    CanonicalIsUnique(Run(Fresh(start, end), ops).chunks, Run(Fresh(start, end), ops').chunks,
                      start, Run(Fresh(start, end), ops).end);
  }
}

/** The allocator itself: headers in memory, linked by address. */
module ChunkAllocators {
  import opened Chunks

  datatype Header = Header(next: int, used: bool, size: int)

  // The headers in memory form the given list.
  ghost predicate Linked(mem: map<int, Header>, cs: seq<Chunk>) {
    forall i :: 0 <= i < |cs| ==> LinkedAt(mem, cs, i)
  }

  ghost predicate LinkedAt(mem: map<int, Header>, cs: seq<Chunk>, i: int)
    requires 0 <= i < |cs|
  {
    cs[i].start in mem && mem[cs[i].start] == HeaderOf(cs, i)
  }

  ghost function HeaderOf(cs: seq<Chunk>, i: int): Header
    requires 0 <= i < |cs|
  {
    Header(if i + 1 < |cs| then cs[i + 1].start else 0, cs[i].used, cs[i].size)
  }

  lemma JoinedLinked(mem: map<int, Header>, cs: seq<Chunk>, start: int, end: int, i: int)
    requires Linked(mem, cs) && Tiles(cs, start, end) && 0 <= i < |cs| - 1
    ensures var ds := cs[..i] + [Joined(cs[i], cs[i + 1])] + cs[i + 2..];
            && Tiles(ds, start, end)
            && Linked(mem[cs[i].start := Header(HeaderOf(cs, i + 1).next, false, Joined(cs[i], cs[i + 1]).size)], ds)
  {
    StartsApart(cs, start, end);
    var ds := cs[..i] + [Joined(cs[i], cs[i + 1])] + cs[i + 2..];
    var mem' := mem[cs[i].start := HeaderOf(ds, i)];
    assert Adjacent(cs, i);
    forall j | 0 <= j < |ds| - 1 ensures Adjacent(ds, j) {
      if j < i { assert Adjacent(cs, j); }
      if j >= i { assert Adjacent(cs, j + 1); }
    }
    forall j | 0 <= j < |ds| ensures LinkedAt(mem', ds, j) {
      var o := if j <= i then j else j + 1;
      assert LinkedAt(mem, cs, o);
    }
  }

  // One round of the merging loop, at chunk i.
  lemma MergeFront(cs: seq<Chunk>, i: int)
    requires 0 <= i < |cs| - 1
    ensures var ds := cs[..i] + [Joined(cs[i], cs[i + 1])] + cs[i + 2..];
            if !cs[i].used && !cs[i + 1].used
            then ds[..i] + Merge(ds[i..]) == cs[..i] + Merge(cs[i..])
            else cs[..i + 1] + Merge(cs[i + 1..]) == cs[..i] + Merge(cs[i..])
  {
    var rest := cs[i..];
    var ds := cs[..i] + [Joined(cs[i], cs[i + 1])] + cs[i + 2..];
    assert rest[1..] == cs[i + 1..] && rest[2..] == cs[i + 2..];
    assert ds[i..] == [Joined(rest[0], rest[1])] + rest[2..];
    assert cs[..i + 1] == cs[..i] + [cs[i]];
  }

  lemma SplitLinked(mem: map<int, Header>, cs: seq<Chunk>, start: int, end: int, i: int, size: int)
    requires Linked(mem, cs) && Tiles(cs, start, end) && 0 <= i < |cs| && Fits(cs[i], size) && size >= 0
    ensures var ds := Split(cs, i, size);
            var splinter := cs[i].start + HEADER + size;
            Linked(mem[splinter := Header(HeaderOf(cs, i).next, false, cs[i].size - size - HEADER)]
                      [cs[i].start := Header(splinter, true, size)], ds)
  {
    StartsApart(cs, start, end);
    var ds := Split(cs, i, size);
    var mem' := mem[ds[i + 1].start := HeaderOf(ds, i + 1)][cs[i].start := HeaderOf(ds, i)];
    forall j | 0 <= j < |ds| ensures LinkedAt(mem', ds, j) {
      if j != i && j != i + 1 {
        var o := if j < i then j else j - 1;
        assert LinkedAt(mem, cs, o);
        if o < i { StartsIncrease(cs, start, end, o, i); } else { StartsIncrease(cs, start, end, i, o); }
      }
    }
  }

  class ChunkAllocator {
    var first: int
    var mem: map<int, Header>
    ghost var chunks: seq<Chunk>
    ghost var start: int
    ghost var end: int

    ghost predicate WellLinked()
      reads this
    {
      && 0 < start == first
      && Tiles(chunks, start, end)
      && Linked(mem, chunks)
    }

    ghost predicate Valid()
      reads this
    {
      WellLinked() && Canonical(chunks, start, end)
    }

    constructor ()
      ensures first == 0
    {
      first, mem := 0, map[];
      chunks, start, end := [], 0, 0;
    }

    method Initialize(areaStart: int, areaEnd: int)
      requires 0 < areaStart && areaStart + HEADER <= areaEnd
      modifies this
      ensures Valid() && start == areaStart && end == areaEnd
      ensures Heap(chunks, end) == Fresh(areaStart, areaEnd)
    {
      first := areaStart;
      mem := mem[first := Header(0, false, areaEnd - areaStart - HEADER)];
      start, end := areaStart, areaEnd;
      chunks := [Chunk(start, false, end - start - HEADER)];
    }

    // A free chunk swallows the free chunk behind it.
    method JoinNext(current: int, next: int, ghost i: int)
      requires WellLinked() && 0 <= i < |chunks| - 1
      requires chunks[i].start == current && chunks[i + 1].start == next && !chunks[i].used
      modifies `mem, `chunks
      ensures WellLinked()
      ensures chunks == old(chunks)[..i] + [Joined(old(chunks)[i], old(chunks)[i + 1])] + old(chunks)[i + 2..]
    {
      assert LinkedAt(mem, chunks, i) && LinkedAt(mem, chunks, i + 1);
      JoinedLinked(mem, chunks, start, end, i);
      mem := mem[current := Header(mem[next].next, mem[current].used, mem[current].size + HEADER + mem[next].size)];
      chunks := chunks[..i] + [Joined(chunks[i], chunks[i + 1])] + chunks[i + 2..];
    }

    // Merges free neighbours, walking the list once.
    method MergeFree()
      requires WellLinked()
      modifies `mem, `chunks
      ensures WellLinked() && chunks == Merge(old(chunks))
    {
      var current := first;
      ghost var i := 0;
      while mem[current].next != 0
        invariant WellLinked() && 0 <= i < |chunks| && chunks[i].start == current
        invariant LinkedAt(mem, chunks, i)
        invariant chunks[..i] + Merge(chunks[i..]) == Merge(old(chunks))
        decreases |chunks| - i
      {
        var next := mem[current].next;
        assert LinkedAt(mem, chunks, i + 1);
        MergeFront(chunks, i);
        if !mem[current].used && !mem[next].used {
          JoinNext(current, next, i);
        } else {
          current, i := next, i + 1;
        }
        assert LinkedAt(mem, chunks, i);
      }
      StartsApart(chunks, start, end);
      assert i + 1 == |chunks|;
      assert chunks[..i] + chunks[i..] == chunks;
    }

    method Expand(size: int)
      requires Valid() && size >= HEADER
      modifies `mem, `chunks, `end
      ensures Valid() && end == old(end) + size
      ensures chunks == Expanded(old(chunks), size)
    {
      var last := first;
      ghost var i := 0;
      StartsApart(chunks, start, end);
      while mem[last].next != 0
        invariant 0 <= i < |chunks| && chunks[i].start == last
        invariant LinkedAt(mem, chunks, i)
        modifies {}
        decreases |chunks| - i
      {
        assert LinkedAt(mem, chunks, i);
        last := mem[last].next;
        i := i + 1;
      }
      assert LinkedAt(mem, chunks, i);
      assert i == |chunks| - 1;
      var appendix := last + HEADER + mem[last].size;
      mem := mem[appendix := Header(0, false, size - HEADER)];
      mem := mem[last := mem[last].(next := appendix)];
      ExpandedLast(chunks, start, end, size);
      chunks := chunks + [Chunk(appendix, false, size - HEADER)];
      end := end + size;
      AppendedLinked(old(mem), old(chunks), old(start), old(end), size);
      MergeFree();
    }

    lemma AppendedLinked(was: map<int, Header>, cs: seq<Chunk>, from: int, to: int, size: int)
      requires Linked(was, cs) && Tiles(cs, from, to) && size >= HEADER
      ensures var n := |cs| - 1;
              var ds := cs + [Chunk(to, false, size - HEADER)];
              && Tiles(ds, from, to + size)
              && Linked(was[to := Header(0, false, size - HEADER)][cs[n].start := HeaderOf(ds, n)], ds)
    {
      StartsApart(cs, from, to);
      var n, ds := |cs| - 1, cs + [Chunk(to, false, size - HEADER)];
      forall j | 0 <= j < |ds| - 1 ensures Adjacent(ds, j) {
        if j < n { assert Adjacent(cs, j); }
      }
      var mem' := was[to := Header(0, false, size - HEADER)][cs[n].start := HeaderOf(ds, n)];
      forall j | 0 <= j < n ensures LinkedAt(mem', ds, j) {
        assert LinkedAt(was, cs, j) && cs[j].start != to && cs[j].start != cs[n].start;
      }
    }

    // Zero when no chunk is large enough; otherwise the payload address of the block.
    method Allocate(request: int) returns (payload: int)
      requires first != 0 ==> Valid()
      requires 0 <= request && request + HEADER < WORD_LIMIT
      modifies `mem, `chunks
      ensures first == 0 ==> payload == 0
      ensures first != 0 ==> Valid()
      ensures first != 0 ==>
                var i := FirstFit(old(chunks), Rounded(request));
                if i < |old(chunks)|
                then payload == old(chunks)[i].start + HEADER && chunks == Split(old(chunks), i, Rounded(request))
                else payload == 0 && chunks == old(chunks)
    {
      if first == 0 {
        return 0;
      }
      var size := if request < MINIMUM_ALLOCATION then MINIMUM_ALLOCATION else request;
      var current; ghost var i;
      current, i := FindFit(size);
      if current == 0 {
        return 0;
      }
      CutChunk(current, size, i);
      return current + HEADER;
    }

    // Uses the front of a chunk and writes the header of the rest behind it.
    method CutChunk(current: int, size: int, ghost i: int)
      requires Valid() && MINIMUM_ALLOCATION <= size && size + HEADER < WORD_LIMIT
      requires i == FirstFit(chunks, size) && i < |chunks| && current == chunks[i].start
      modifies `mem, `chunks
      ensures Valid() && chunks == Split(old(chunks), i, size)
    {
      SplitIsCanonical(chunks, start, end, i, size);
      SplitLinked(mem, chunks, start, end, i, size);
      assert LinkedAt(mem, chunks, i);
      var splinter := current + HEADER + size;
      mem := mem[splinter := Header(mem[current].next, false, mem[current].size - size - HEADER)];
      mem := mem[current := Header(splinter, true, size)];
      chunks := Split(chunks, i, size);
    }

    // The search of an allocation.
    method FindFit(size: int) returns (current: int, ghost i: int)
      requires Valid() && 0 <= size && size + HEADER < WORD_LIMIT
      ensures i == FirstFit(chunks, size)
      ensures current == if FirstFit(chunks, size) < |chunks| then chunks[FirstFit(chunks, size)].start else 0
      ensures i < |chunks| ==> current > 0
    {
      current, i := first, 0;
      StartsApart(chunks, start, end);
      assert LinkedAt(mem, chunks, 0);
      while mem[current].used || mem[current].size < (size + HEADER) % WORD_LIMIT
        invariant 0 <= i < |chunks| && chunks[i].start == current && LinkedAt(mem, chunks, i)
        invariant forall j :: 0 <= j < i ==> !Fits(chunks[j], size)
        decreases |chunks| - i
      {
        if mem[current].next == 0 {
          FirstFitIs(chunks, size, |chunks|);
          return 0, |chunks|;
        }
        current, i := mem[current].next, i + 1;
        assert LinkedAt(mem, chunks, i);
      }
      FirstFitIs(chunks, size, i);
    }

    // Frees the block at the payload address and returns its size.
    method Free(payload: int, ghost i: int) returns (size: int)
      requires Valid() && 0 <= i < |chunks| && chunks[i].used && payload == chunks[i].start + HEADER
      modifies `mem, `chunks
      ensures Valid()
      ensures size == old(chunks)[i].size && chunks == Freed(old(chunks), i)
    {
      StartsApart(chunks, start, end);
      var block := payload - HEADER;
      assert LinkedAt(mem, chunks, i);
      FreedIsCanonical(chunks, start, end, i);
      mem := mem[block := mem[block].(used := false)];
      size := mem[block].size;
      ghost var cs := chunks;
      chunks := chunks[i := chunks[i].(used := false)];
      forall j | 0 <= j < |chunks| - 1 ensures Adjacent(chunks, j) {
        assert Adjacent(cs, j);
      }
      forall j | 0 <= j < |chunks| ensures LinkedAt(mem, chunks, j) {
        assert LinkedAt(old(mem), cs, j);
      }
      MergeFree();
    }
  }
}

/** The kernel heap: a chunk allocator that grows by 1 MiB whenever nothing fits. */
module KernelHeaps {
  import opened Chunks
  import opened ChunkAllocators
  import opened PageWords
  import opened PageTables
  import opened PhysicalPages
  import opened AddressSpaces
  import opened ForkedSpaces

  const EXPAND_STEP := 0x10_0000
  const MAXIMUM_END := 0xE000_0000
  
  // Every page of the area is mapped in every address space.
  ghost predicate Backed(mem: Memory, dirs: set<Frame>, start: int, end: int) {
    && dirs <= mem.Keys
    && start % PAGE_SIZE == 0 && end % PAGE_SIZE == 0
    && FIRST_KERNEL_TABLE * ENTRIES * PAGE_SIZE <= start <= end <= MAXIMUM_END + EXPAND_STEP
    && forall e, p :: e in dirs && start / PAGE_SIZE <= p < end / PAGE_SIZE ==> Walk(mem, e, p) != 0
  }

  // The pages from first on were given frames of their own from the pool, for the kernel alone, where they had none;
  // all other pages of all spaces are as before.
  ghost predicate PagesBacked(
    before: Memory, after: Memory, dirs: set<Frame>, pool: set<int>, free: set<int>, first: int, n: int)
    requires dirs <= before.Keys && dirs <= after.Keys && 0 <= first && first + n <= PAGE_LIMIT
  {
    && (forall e, p :: e in dirs && 0 <= p < PAGE_LIMIT ==>
          if first <= p < first + n && Walk(before, e, p) == 0
          then KernelWord(Walk(after, e, p)) && FrameOf(Walk(after, e, p)) in pool - free
          else Walk(after, e, p) == Walk(before, e, p))
    && FramesApart(before, after, dirs, first, n)
  }

  ghost predicate FramesApart(before: Memory, after: Memory, dirs: set<Frame>, first: int, n: int)
    requires dirs <= before.Keys && dirs <= after.Keys && 0 <= first && first + n <= PAGE_LIMIT
  {
    forall e, p, q :: e in dirs && first <= p < q < first + n && Walk(before, e, p) == 0 == Walk(before, e, q) ==>
      FrameOf(Walk(after, e, p)) != FrameOf(Walk(after, e, q))
  }

  // The size of the last chunk, which is the one that grows.
  function LastSize(cs: seq<Chunk>): int
    requires cs != []
  {
    cs[|cs| - 1].size
  }

  // How many expansions a request needs.
  function Expansions(cs: seq<Chunk>, size: int): int
    requires cs != []
  {
    if FirstFit(cs, size) < |cs| then 0
    else (size + HEADER - LastSize(cs) + EXPAND_STEP - 1) / EXPAND_STEP
  }

  /** The number of expansions is linear in the request; each expansion makes it one less. */
  lemma ExpansionsCount(cs: seq<Chunk>, start: int, end: int, size: int)
    requires Canonical(cs, start, end) && size >= 0
    ensures 0 <= Expansions(cs, size) <= (size + HEADER + EXPAND_STEP - 1) / EXPAND_STEP
    ensures Expansions(cs, size) == 0 <==> FirstFit(cs, size) < |cs|
    ensures Expansions(cs, size) == 0 <==> exists c :: c in cs && !c.used && c.size >= size + HEADER
    ensures Expansions(cs, size) > 0 ==>
              Expansions(Expanded(cs, EXPAND_STEP), size) == Expansions(cs, size) - 1
  {
    var n := |cs| - 1;
    if FirstFit(cs, size) == |cs| {
      assert !Fits(cs[n], size);
      assert LastSize(cs) < size + HEADER;
      ExpandedLast(cs, start, end, EXPAND_STEP);
      var ds := Expanded(cs, EXPAND_STEP);
      forall j | 0 <= j < n ensures !Fits(ds[j], size) {
        assert !Fits(cs[j], size);
      }
      assert LastSize(ds) == LastSize(cs) + EXPAND_STEP;
      if Fits(ds[n], size) {
        FirstFitIs(ds, size, n);
      } else {
        FirstFitIs(ds, size, |ds|);
      }
    }
  }

  lemma ModuloShift(a: int, b: int)
    ensures (a % WORD_LIMIT + b) % WORD_LIMIT == (a + b) % WORD_LIMIT
  {
  }

  // The bytes by which requests were rounded up.
  ghost function Shortfall(requests: seq<int>): nat {
    if requests == [] then 0 else Rounded(requests[0]) - requests[0] + Shortfall(requests[1..])
  }

  lemma {:induction false} ShortfallStep(requests: seq<int>, size: int)
    ensures Shortfall(requests + [size]) == Shortfall(requests) + Rounded(size) - size
    decreases |requests|
  {
    if requests != [] {
      assert (requests + [size])[1..] == requests[1..] + [size];
      ShortfallStep(requests[1..], size);
    }
  }

  // The counter shows the bytes in use, less those by which requests were rounded up, in 32 bits.
  ghost predicate Shown(used: int, cs: seq<Chunk>, requests: seq<int>) {
    used == (UsedBytes(cs) - Shortfall(requests)) % WORD_LIMIT
  }

  lemma CounterAfterSplit(used: int, cs: seq<Chunk>, i: int, requests: seq<int>, size: int)
    requires 0 <= i < |cs| && !cs[i].used && i == FirstFit(cs, Rounded(size)) && Shown(used, cs, requests)
    ensures Shown((used + size) % WORD_LIMIT, Split(cs, i, Rounded(size)), requests + [size])
  {
    SplitUsedBytes(cs, i, Rounded(size));
    ModuloShift(UsedBytes(cs) - Shortfall(requests), size);
    ShortfallStep(requests, size);
  }

  lemma {:induction false} ShortfallIsZero(requests: seq<int>)
    ensures Shortfall(requests) == 0 <==> forall i :: 0 <= i < |requests| ==> requests[i] >= MINIMUM_ALLOCATION
    decreases |requests|
  {
    if requests != [] {
      ShortfallIsZero(requests[1..]);
      assert forall i :: 1 <= i < |requests| ==> requests[i] == requests[1..][i - 1];
    }
  }

  lemma {:induction false} UsedBytesFit(cs: seq<Chunk>, start: int, end: int)
    requires Tiles(cs, start, end)
    ensures 0 <= UsedBytes(cs) < end - start
    decreases |cs|
  {
    if |cs| > 1 {
      TilesTail(cs, start, end);
      UsedBytesFit(cs[1..], End(cs[0]), end);
    } else {
      assert cs[1..] == [];
    }
  }

  lemma Residues(used: int, drift: nat)
    requires 0 <= used < WORD_LIMIT
    ensures (used - drift) % WORD_LIMIT == used <==> drift % WORD_LIMIT == 0
  {
  }

  lemma {:induction false} NothingUsed(cs: seq<Chunk>)
    requires Live(cs) == {}
    ensures UsedBytes(cs) == 0
    decreases |cs|
  {
    if cs != [] {
      var first := cs[0];
      assert first in cs && first !in Live(cs);
      assert !first.used;
      assert forall c :: c in Live(cs[1..]) ==> c in Live(cs);
      NothingUsed(cs[1..]);
    }
  }

  lemma PageWithin(start: int, end: int, a: int)
    requires start % PAGE_SIZE == 0 && end % PAGE_SIZE == 0 && start <= a < end
    ensures start / PAGE_SIZE <= a / PAGE_SIZE < end / PAGE_SIZE
  {
  }

  // The blocks in use, the counter and the requests so far.
  datatype Account = Account(live: set<Chunk>, used: int, requests: seq<int>)

  // A new block at an address, large enough for size bytes, and counted.
  ghost predicate Handed(a: Account, b: Account, block: int, size: int) {
    && block > 0 && Rounded(size) >= size
    && b.live == a.live + {Chunk(block - HEADER, true, Rounded(size))}
    && b.used == (a.used + size) % WORD_LIMIT
    && b.requests == a.requests + [size]
  }

  // So many expansions pass the limit or need more pages than there are.
  predicate TooLarge(n: int, heapEnd: int, free: int) {
    n > 0 && (heapEnd + (n - 1) * EXPAND_STEP > MAXIMUM_END || free < n * (EXPAND_STEP / PAGE_SIZE))
  }

  lemma TooLargeStep(n: int, heapEnd: int, free: int)
    requires n > 0
    ensures TooLarge(n, heapEnd, free) <==>
            || heapEnd > MAXIMUM_END || free < EXPAND_STEP / PAGE_SIZE
            || TooLarge(n - 1, heapEnd + EXPAND_STEP, free - EXPAND_STEP / PAGE_SIZE)
  {
  }

  // Gives n pages frames, one by one.
  method BackPages(k: KernelMemory, first: int, n: nat) returns (r: Outcome<()>)
    requires k.Valid() && FIRST_KERNEL_TABLE * ENTRIES <= first && first + n <= PAGE_LIMIT
    modifies k`mem, k.ppa, k.ppa.pages, k.ppa.pages.bitmap
    ensures r.Panic? <==> |old(k.ppa.pages.free)| < n
    ensures r.Done? ==> k.Valid() && |k.ppa.pages.free| == |old(k.ppa.pages.free)| - n
    ensures r.Done? ==>
              PagesBacked(old(k.mem), k.mem, k.dirs, old(k.ppa.pages.free), k.ppa.pages.free, first, n)
  {
    ghost var before, pool := k.mem, k.ppa.pages.free;
    var i := 0;
    while i < n
      invariant 0 <= i <= n && k.Valid() && |k.ppa.pages.free| == |pool| - i
      invariant PagesBacked(before, k.mem, k.dirs, pool, k.ppa.pages.free, first, i) && k.ppa.pages.free <= pool
    {
      var _ :- BackPage(k, first, i, before, pool);
      i := i + 1;
    }
    return Done(());
  }

  method BackPage(k: KernelMemory, first: int, n: nat, ghost before: Memory, ghost pool: set<int>)
    returns (r: Outcome<()>)
    requires k.Valid() && FIRST_KERNEL_TABLE * ENTRIES <= first && first + n < PAGE_LIMIT && k.dirs <= before.Keys
    requires PagesBacked(before, k.mem, k.dirs, pool, k.ppa.pages.free, first, n) && k.ppa.pages.free <= pool
    modifies k`mem, k.ppa, k.ppa.pages, k.ppa.pages.bitmap
    ensures r.Panic? <==> old(k.ppa.pages.free) == {}
    ensures r.Done? ==> k.Valid() && |k.ppa.pages.free| == |old(k.ppa.pages.free)| - 1 && k.ppa.pages.free <= pool
    ensures r.Done? ==> PagesBacked(before, k.mem, k.dirs, pool, k.ppa.pages.free, first, n + 1)
  {
    ghost var middle, free := k.mem, k.ppa.pages.free;
    var f :- MapKernelStack(k, (first + n) * PAGE_SIZE);
    OnePageBacked(before, middle, k.mem, k.dirs, k.current, pool, free, first, n, f);
    return Done(());
  }

  lemma OnePageBacked(
    before: Memory, middle: Memory, after: Memory, dirs: set<Frame>, d: Frame, pool: set<int>, free: set<int>,
    first: int, n: nat, f: Frame)
    requires WellFormed(middle, dirs) && dirs <= before.Keys && dirs <= after.Keys && d in dirs
    requires FIRST_KERNEL_TABLE * ENTRIES <= first && first + n < PAGE_LIMIT && f in free && free <= pool
    requires PagesBacked(before, middle, dirs, pool, free, first, n)
    requires forall e, q :: e in dirs && 0 <= q < PAGE_LIMIT ==>
               Walk(after, e, q) == if q == first + n && Walk(middle, d, q) == 0
                                    then MakeWord(f, KERNEL_PAGE_FLAGS) else Walk(middle, e, q)
    ensures PagesBacked(before, after, dirs, pool, free - {f}, first, n + 1)
  {
    KernelPageWord(f);
    forall e | e in dirs ensures Walk(middle, e, first + n) == Walk(middle, d, first + n) {
      KernelHalfCoherent(middle, dirs, e, d, first + n);
    }
    forall e, p, q | e in dirs && first <= p < q < first + n + 1 && Walk(before, e, p) == 0 == Walk(before, e, q)
      ensures FrameOf(Walk(after, e, p)) != FrameOf(Walk(after, e, q))
    {
      if q == first + n {
        assert FrameOf(Walk(middle, e, p)) in pool - free;
      }
    }
  }

  /** A block of four bytes, given out and freed: nothing is in use, and the counter has passed zero. */
  method SmallRequestDrifts(memory: KernelMemory, start: int) returns (heap: KernelHeap)
    requires memory.Valid() && Backed(memory.mem, memory.dirs, start, start + PAGE_SIZE)
    modifies memory`mem, memory.ppa, memory.ppa.pages, memory.ppa.pages.bitmap
    ensures fresh(heap) && heap.Valid() && heap.requests == [4]
    ensures UsedBytes(heap.allocator.chunks) == 0 && heap.usedMemoryAmount == WORD_LIMIT - 4
  {
    heap := new KernelHeap(start, start + PAGE_SIZE, memory);
    ghost var cs := heap.allocator.chunks;
    assert Live(cs) == {} && Fits(cs[0], Rounded(4));
    FirstFitIs(cs, Rounded(4), 0);
    GiveAndTake(heap);
    NothingUsed(heap.allocator.chunks);
    FourShort(heap.usedMemoryAmount, heap.allocator.chunks);
  }

  method GiveAndTake(heap: KernelHeap)
    requires heap.Valid() && heap.requests == [] && Live(heap.allocator.chunks) == {}
    requires Expansions(heap.allocator.chunks, Rounded(4)) == 0
    modifies heap, heap.allocator, heap.memory`mem, heap.memory.ppa, heap.memory.ppa.pages, heap.memory.ppa.pages.bitmap
    ensures heap.Valid() && heap.requests == [4] && Live(heap.allocator.chunks) == {}
  {
    var r, expansions := heap.Allocate(4);
    ghost var block := Chunk(r.value - HEADER, true, Rounded(4));
    assert block in Live(heap.allocator.chunks);
    ghost var i :| 0 <= i < |heap.allocator.chunks| && heap.allocator.chunks[i] == block;
    heap.Free(r.value, i);
  }

  lemma FourShort(used: int, cs: seq<Chunk>)
    requires Shown(used, cs, [4]) && UsedBytes(cs) == 0
    ensures used == WORD_LIMIT - 4
  {
    assert Shortfall([4]) == 4 + Shortfall([4][1..]);
  }

  class KernelHeap {
    const allocator: ChunkAllocator
    const memory: KernelMemory
    var heapStart: int
    var heapEnd: int
    var usedMemoryAmount: int
    ghost var requests: seq<int>     // the sizes of the blocks handed out so far

    ghost predicate Valid()
      reads this, allocator, memory, memory.ppa, memory.ppa.pages, memory.ppa.pages.bitmap, memory.references
    {
      && Chunked()
      && memory.Valid()
      && Backed(memory.mem, memory.dirs, heapStart, heapEnd)
    }

    ghost predicate Chunked()
      reads this, allocator
    {
      && allocator.Valid()
      && allocator.start == heapStart
      && allocator.end == heapEnd
      && Shown(usedMemoryAmount, allocator.chunks, requests)
    }

    constructor (start: int, end: int, memory: KernelMemory)
      requires start + HEADER <= end && memory.Valid() && Backed(memory.mem, memory.dirs, start, end)
      ensures Valid() && fresh(allocator) && this.memory == memory && heapStart == start && heapEnd == end
      ensures requests == [] && usedMemoryAmount == 0
      ensures Heap(allocator.chunks, heapEnd) == Fresh(start, end)
    {
      allocator := new ChunkAllocator();
      this.memory := memory;
      heapStart, heapEnd, usedMemoryAmount := start, end, 0;
      requests := [];
      new;
      allocator.Initialize(start, end);
      assert allocator.chunks[1..] == [];
    }

    // One step of growth; false at the limit, a panic when physical memory runs out.
    method ExpandHeap() returns (r: Outcome<bool>)
      requires Valid()
      modifies `heapEnd, allocator, memory`mem, memory.ppa, memory.ppa.pages, memory.ppa.pages.bitmap
      ensures r.Panic? <==> old(heapEnd) <= MAXIMUM_END && |old(memory.ppa.pages.free)| < EXPAND_STEP / PAGE_SIZE
      ensures r.Done? ==> Valid() && (r.value <==> old(heapEnd) <= MAXIMUM_END)
      ensures r.Done? && r.value ==>
                && heapEnd == old(heapEnd) + EXPAND_STEP
                && |memory.ppa.pages.free| == |old(memory.ppa.pages.free)| - EXPAND_STEP / PAGE_SIZE
                && allocator.chunks == Expanded(old(allocator.chunks), EXPAND_STEP)
      ensures r.Done? && r.value ==>
                PagesBacked(old(memory.mem), memory.mem, memory.dirs, old(memory.ppa.pages.free), memory.ppa.pages.free,
                            old(heapEnd) / PAGE_SIZE, heapEnd / PAGE_SIZE - old(heapEnd) / PAGE_SIZE)
      ensures (r.Done? && !r.value) || r.Panic? ==> heapEnd == old(heapEnd)
      ensures r.Done? && !r.value ==>
                && memory.mem == old(memory.mem) && memory.ppa.pages.free == old(memory.ppa.pages.free)
                && allocator.chunks == old(allocator.chunks)
    {
      if heapEnd > MAXIMUM_END {
        return Done(false);
      }
      var backed := BackPages(memory, heapEnd / PAGE_SIZE, EXPAND_STEP / PAGE_SIZE);
      if backed.Panic? {
        return Panic;
      }
      ExpandedUsedBytes(allocator.chunks, EXPAND_STEP);
      allocator.Expand(EXPAND_STEP);
      heapEnd := heapEnd + EXPAND_STEP;
      return Done(true);
    }

    ghost function Books(): Account
      reads this, allocator
    {
      Account(Live(allocator.chunks), usedMemoryAmount, requests)
    }

    // Grows until the request fits; panics at the limit or out of physical memory.
    method Allocate(size: int) returns (r: Outcome<int>, ghost expansions: nat)
      requires Valid() && 0 <= size && size + HEADER < WORD_LIMIT
      modifies this, allocator, memory`mem, memory.ppa, memory.ppa.pages, memory.ppa.pages.bitmap
      ensures expansions <= Expansions(old(allocator.chunks), Rounded(size))
      ensures r.Panic? <==>
                TooLarge(Expansions(old(allocator.chunks), Rounded(size)), old(heapEnd), |old(memory.ppa.pages.free)|)
      ensures r.Done? ==> Valid() && expansions == Expansions(old(allocator.chunks), Rounded(size))
      ensures r.Done? ==> heapEnd == old(heapEnd) + expansions * EXPAND_STEP && heapStart == old(heapStart)
      ensures r.Done? ==> Handed(old(Books()), Books(), r.value, size)
      decreases if heapEnd > MAXIMUM_END then 0 else MAXIMUM_END - heapEnd + 1
    {
      ghost var cs := allocator.chunks;
      ExpansionsCount(cs, heapStart, heapEnd, Rounded(size));
      var block := TryAllocate(size);
      if block != 0 {
        return Done(block), 0;
      }
      TooLargeStep(Expansions(cs, Rounded(size)), heapEnd, |memory.ppa.pages.free|);
      var grown := ExpandHeap();
      if grown.Panic? || !grown.value {
        return Panic, 0;
      }
      ExpandedLast(cs, old(heapStart), old(heapEnd), EXPAND_STEP);
      r, expansions := Allocate(size);
      expansions := expansions + 1;
    }

    // An attempt with the heap as it is.
    method TryAllocate(size: int) returns (block: int)
      requires Chunked() && 0 <= size && size + HEADER < WORD_LIMIT
      modifies `usedMemoryAmount, `requests, allocator
      ensures Chunked() && block >= 0
      ensures block == 0 <==> Expansions(old(allocator.chunks), Rounded(size)) > 0
      ensures block == 0 ==> allocator.chunks == old(allocator.chunks) && Books() == old(Books())
      ensures block != 0 ==> Handed(old(Books()), Books(), block, size)
    {
      ghost var cs := allocator.chunks;
      StartsApart(cs, heapStart, heapEnd);
      ExpansionsCount(cs, heapStart, heapEnd, Rounded(size));
      ghost var i := FirstFit(cs, Rounded(size));
      block := allocator.Allocate(size);
      if block != 0 {
        SplitIsCanonical(cs, heapStart, heapEnd, i, Rounded(size));
        CounterAfterSplit(usedMemoryAmount, cs, i, requests, size);
        usedMemoryAmount := (usedMemoryAmount + size) % WORD_LIMIT;
        requests := requests + [size];
      }
    }

    method Free(payload: int, ghost i: int)
      requires Valid() && 0 <= i < |allocator.chunks| && allocator.chunks[i].used
      requires payload == allocator.chunks[i].start + HEADER
      modifies `usedMemoryAmount, allocator
      ensures Valid() && heapStart == old(heapStart) && heapEnd == old(heapEnd) && requests == old(requests)
      ensures Live(allocator.chunks) == Live(old(allocator.chunks)) - {old(allocator.chunks)[i]}
      ensures usedMemoryAmount == (old(usedMemoryAmount) - old(allocator.chunks)[i].size) % WORD_LIMIT
    {
      FreedUsedBytes(allocator.chunks, i);
      ModuloShift(UsedBytes(allocator.chunks) - Shortfall(requests), -allocator.chunks[i].size);
      FreedIsCanonical(allocator.chunks, heapStart, heapEnd, i);
      var size := allocator.Free(payload, i);
      usedMemoryAmount := (usedMemoryAmount - size) % WORD_LIMIT;
    }

    /** Every byte of a block in use, and of its header, is mapped in every address space. */
    lemma BlockBacked(c: Chunk, a: int, e: Frame)
      requires Valid() && c in Live(allocator.chunks) && c.start <= a < End(c) && e in memory.dirs
      ensures 0 <= a / PAGE_SIZE < PAGE_LIMIT && Walk(memory.mem, e, a / PAGE_SIZE) != 0
    {
      StartsApart(allocator.chunks, heapStart, heapEnd);
      PageWithin(heapStart, heapEnd, a);
    }

    /**
     * The counter shows the bytes in use if and only if the requests were rounded up by a multiple
     * of 4 GiB in all; below that, if and only if every request so far was for at least eight bytes.
     */
    lemma CounterExact()
      requires Valid() && 0 <= heapStart && heapEnd <= WORD_LIMIT
      ensures usedMemoryAmount == UsedBytes(allocator.chunks) <==> Shortfall(requests) % WORD_LIMIT == 0
      ensures Shortfall(requests) < WORD_LIMIT ==>
                (usedMemoryAmount == UsedBytes(allocator.chunks) <==>
                 forall i :: 0 <= i < |requests| ==> requests[i] >= MINIMUM_ALLOCATION)
    {
      UsedBytesFit(allocator.chunks, heapStart, heapEnd);
      Residues(UsedBytes(allocator.chunks), Shortfall(requests));
      ShortfallIsZero(requests);
    }
  }
}
