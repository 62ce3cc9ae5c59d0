/**
 * Pools of page ranges. Bases and lengths are counted in pages; a pool may be
 * built from several areas, and its list is kept in order of address.
 */
module Ranges {
  datatype Range = Range(base: int, pages: int, used: bool, flags: int)

  function End(r: Range): int { r.base + r.pages }

  predicate InRange(r: Range, p: int) { r.base <= p < End(r) }

  ghost predicate Sorted(rs: seq<Range>) {
    && (forall i :: 0 <= i < |rs| ==> rs[i].pages > 0)
    && (forall i, j :: 0 <= i < j < |rs| ==> End(rs[i]) <= rs[j].base)
  }

  predicate Touching(a: Range, b: Range) { !a.used && !b.used && End(a) == b.base }

  ghost predicate Settled(rs: seq<Range>, i: int)
    requires 0 <= i < |rs| - 1
  {
    !Touching(rs[i], rs[i + 1])
  }

  ghost predicate NoneTouch(rs: seq<Range>) {
    forall i :: 0 <= i < |rs| - 1 ==> Settled(rs, i)
  }

  ghost predicate Canonical(rs: seq<Range>) { Sorted(rs) && NoneTouch(rs) }

  // Page p is managed by the pool; it is free; it is in use.
  ghost predicate Holds(rs: seq<Range>, p: int) {
    exists i :: 0 <= i < |rs| && InRange(rs[i], p)
  }

  ghost predicate FreeAt(rs: seq<Range>, p: int) {
    exists i :: 0 <= i < |rs| && InRange(rs[i], p) && !rs[i].used
  }

  ghost predicate SamePages(rs: seq<Range>, qs: seq<Range>) {
    forall p :: Holds(rs, p) <==> Holds(qs, p)
  }

  ghost function Live(rs: seq<Range>): set<Range> { set r | r in rs && r.used }

  // Flags of free ranges do not matter to the pool itself.
  function Plain(r: Range): Range { if r.used then r else r.(flags := 0) }

  function PlainAll(rs: seq<Range>): seq<Range> { seq(|rs|, i requires 0 <= i < |rs| => Plain(rs[i])) }

  /** In a canonical pool a run of free pages lies within one range. */
  lemma {:induction false} FreeRunInOneRange(rs: seq<Range>, x: int, n: int) returns (i: int)
    requires Canonical(rs) && n > 0 && forall p :: x <= p < x + n ==> FreeAt(rs, p)
    ensures 0 <= i < |rs| && !rs[i].used && rs[i].base <= x && x + n <= End(rs[i])
    decreases n
  {
    if n == 1 {
      assert FreeAt(rs, x);
      i :| 0 <= i < |rs| && InRange(rs[i], x) && !rs[i].used;
    } else {
      i := FreeRunInOneRange(rs, x, n - 1);
      var last := x + n - 1;
      assert FreeAt(rs, last);
      var j :| 0 <= j < |rs| && InRange(rs[j], last) && !rs[j].used;
      if i != j {
        NextFree(rs, i, j);
      }
    }
  }

  // Two different free ranges never meet.
  lemma NextFree(rs: seq<Range>, i: int, j: int)
    requires Canonical(rs) && 0 <= i < |rs| && 0 <= j < |rs| && i != j && !rs[i].used && !rs[j].used
    ensures End(rs[i]) != rs[j].base
  {
    if i < j {
      assert Settled(rs, i);
      assert i + 1 < j ==> End(rs[i]) <= rs[i + 1].base && End(rs[i + 1]) <= rs[j].base;
    }
  }

  function FirstFit(rs: seq<Range>, n: int): (i: int)
    ensures 0 <= i <= |rs|
    ensures i < |rs| ==> !rs[i].used && rs[i].pages >= n
    ensures forall j :: 0 <= j < i ==> rs[j].used || rs[j].pages < n
  {
    if rs == [] then 0 else if !rs[0].used && rs[0].pages >= n then 0 else 1 + FirstFit(rs[1..], n)
  }

  ghost predicate FreeRun(rs: seq<Range>, x: int, n: int) {
    forall p :: x <= p < x + n ==> FreeAt(rs, p)
  }

  /** First fit is complete: it fails exactly when no n contiguous free pages exist. */
  lemma FirstFitComplete(rs: seq<Range>, n: int)
    requires Canonical(rs) && n > 0
    ensures FirstFit(rs, n) < |rs| <==> exists x :: FreeRun(rs, x, n)
  {
    var i := FirstFit(rs, n);
    if i < |rs| {
      forall p | rs[i].base <= p < rs[i].base + n ensures FreeAt(rs, p) {
        assert InRange(rs[i], p);
      }
      assert FreeRun(rs, rs[i].base, n);
    }
    if exists x :: FreeRun(rs, x, n) {
      var x :| FreeRun(rs, x, n);
      var j := FreeRunInOneRange(rs, x, n);
    }
  }

  /** A canonical list is determined, up to flags on free ranges, by its pages and its live ranges. */
  lemma {:induction false} CanonicalIsUnique(rs: seq<Range>, qs: seq<Range>)
    requires Canonical(rs) && Canonical(qs) && SamePages(rs, qs) && Live(rs) == Live(qs)
    ensures PlainAll(rs) == PlainAll(qs)
    decreases |rs|
  {
    if rs != [] { PagesSomewhere(rs, qs); }
    if qs != [] { PagesSomewhere(qs, rs); }
    if rs != [] {
      SameFirst(rs, qs);
      TailCanonical(rs);
      TailCanonical(qs);
      TailsAgree(rs, qs);
      CanonicalIsUnique(rs[1..], qs[1..]);
      assert PlainAll(rs) == [Plain(rs[0])] + PlainAll(rs[1..]);
      assert PlainAll(qs) == [Plain(qs[0])] + PlainAll(qs[1..]);
    }
  }

  lemma PagesSomewhere(rs: seq<Range>, qs: seq<Range>)
    requires Sorted(rs) && SamePages(rs, qs) && rs != []
    ensures qs != []
  {
    assert InRange(rs[0], rs[0].base);
    assert Holds(rs, rs[0].base);
  }

  lemma TailCanonical(rs: seq<Range>)
    requires Canonical(rs) && rs != []
    ensures Canonical(rs[1..])
    ensures Live(rs[1..]) == Live(rs) - {rs[0]}
  {
    forall i | 0 <= i < |rs[1..]| - 1 ensures Settled(rs[1..], i) {
      assert Settled(rs, i + 1);
    }
    assert rs == [rs[0]] + rs[1..];
    assert rs[0] !in rs[1..];
  }

  lemma TailHolds(rs: seq<Range>, p: int)
    requires Sorted(rs) && rs != []
    ensures Holds(rs[1..], p) <==> Holds(rs, p) && !InRange(rs[0], p)
  {
    if Holds(rs, p) && !InRange(rs[0], p) {
      var i :| 0 <= i < |rs| && InRange(rs[i], p);
      assert InRange(rs[1..][i - 1], p);
    }
    if Holds(rs[1..], p) {
      var i :| 0 <= i < |rs[1..]| && InRange(rs[1..][i], p);
      assert InRange(rs[i + 1], p);
    }
  }

  lemma TailsAgree(rs: seq<Range>, qs: seq<Range>)
    requires Sorted(rs) && Sorted(qs) && rs != [] && qs != [] && SamePages(rs, qs)
    requires rs[0].base == qs[0].base && rs[0].pages == qs[0].pages
    ensures SamePages(rs[1..], qs[1..])
  {
    forall p ensures Holds(rs[1..], p) <==> Holds(qs[1..], p) {
      TailHolds(rs, p);
      TailHolds(qs, p);
    }
  }

  lemma SameFirst(rs: seq<Range>, qs: seq<Range>)
    requires Canonical(rs) && Canonical(qs) && SamePages(rs, qs) && Live(rs) == Live(qs)
    requires rs != [] && qs != []
    ensures Plain(rs[0]) == Plain(qs[0])
  {
    FirstBase(rs, qs);
    FirstBase(qs, rs);
    FirstFollowsLive(rs, qs);
    FirstFollowsLive(qs, rs);
  }

  lemma FirstBase(rs: seq<Range>, qs: seq<Range>)
    requires Sorted(rs) && Sorted(qs) && SamePages(rs, qs) && rs != [] && qs != []
    ensures qs[0].base <= rs[0].base
  {
    assert InRange(rs[0], rs[0].base) && Holds(rs, rs[0].base) && Holds(qs, rs[0].base);
    var i :| 0 <= i < |qs| && InRange(qs[i], rs[0].base);
    assert i > 0 ==> End(qs[0]) <= qs[i].base;
  }

  lemma FirstFollowsLive(rs: seq<Range>, qs: seq<Range>)
    requires Canonical(rs) && Canonical(qs) && SamePages(rs, qs) && Live(rs) == Live(qs)
    requires rs != [] && qs != [] && rs[0].base == qs[0].base
    ensures rs[0].used ==> rs[0] == qs[0]
    ensures !rs[0].used && !qs[0].used ==> End(qs[0]) <= End(rs[0])
  {
    if rs[0].used {
      assert rs[0] in Live(qs);
      var i :| 0 <= i < |qs| && qs[i] == rs[0];
      assert End(qs[0]) > qs[i].base;
    } else if !qs[0].used {
      BehindFirst(rs, qs);
    }
  }

  // The page behind a free first range is missing or starts a used range: no free range reaches it.
  lemma BehindFirst(rs: seq<Range>, qs: seq<Range>)
    requires Canonical(rs) && Canonical(qs) && SamePages(rs, qs) && Live(rs) == Live(qs)
    requires rs != [] && qs != [] && rs[0].base == qs[0].base && !rs[0].used && !qs[0].used
    ensures End(qs[0]) <= End(rs[0])
  {
    var e := End(rs[0]);
    forall j | 0 < j < |rs| && !rs[j].used ensures !InRange(rs[j], e) {
      NextFree(rs, 0, j);
    }
    if Holds(rs, e) {
      var j :| 0 <= j < |rs| && InRange(rs[j], e);
      assert rs[j] in Live(qs);
      var k :| 0 <= k < |qs| && qs[k] == rs[j];
      assert End(qs[0]) <= qs[k].base;
    } else {
      assert !Holds(qs, e);
      assert !InRange(qs[0], e);
    }
  }

  lemma HoldsConcat(a: seq<Range>, b: seq<Range>, p: int)
    ensures Holds(a + b, p) <==> Holds(a, p) || Holds(b, p)
  {
    if Holds(a, p) {
      var i :| 0 <= i < |a| && InRange(a[i], p);
      assert InRange((a + b)[i], p);
    }
    if Holds(b, p) {
      var i :| 0 <= i < |b| && InRange(b[i], p);
      assert InRange((a + b)[|a| + i], p);
    }
    if Holds(a + b, p) {
      var i :| 0 <= i < |a + b| && InRange((a + b)[i], p);
      if i < |a| { assert InRange(a[i], p); } else { assert InRange(b[i - |a|], p); }
    }
  }

  lemma HoldsOne(r: Range, p: int)
    ensures Holds([r], p) <==> InRange(r, p)
  {
    assert [r][0] == r;
  }

  lemma LiveConcat(a: seq<Range>, b: seq<Range>)
    ensures Live(a + b) == Live(a) + Live(b)
  {
  }

  // Replacing a stretch of ranges by others with the same pages.
  lemma ReplaceStretch(a: seq<Range>, b: seq<Range>, b': seq<Range>, c: seq<Range>)
    requires SamePages(b, b')
    ensures SamePages(a + b + c, a + b' + c)
    ensures Live(b) == Live(b') ==> Live(a + b + c) == Live(a + b' + c)
  {
    forall p ensures Holds(a + b + c, p) <==> Holds(a + b' + c, p) {
      HoldsConcat(a + b, c, p);
      HoldsConcat(a, b, p);
      HoldsConcat(a + b', c, p);
      HoldsConcat(a, b', p);
    }
    LiveConcat(a + b, c);
    LiveConcat(a, b);
    LiveConcat(a + b', c);
    LiveConcat(a, b');
  }

  // A free range swallows touching free successors before the next one is looked at.
  function Merge(rs: seq<Range>): (r: seq<Range>)
    ensures rs != [] ==> r != [] && r[0].base == rs[0].base && r[0].used == rs[0].used
    decreases |rs|
  {
    if |rs| <= 1 then rs
    else if Touching(rs[0], rs[1]) then Merge([Joined(rs[0], rs[1])] + rs[2..])
    else [rs[0]] + Merge(rs[1..])
  }

  function Joined(a: Range, b: Range): Range { a.(pages := a.pages + b.pages) }

  lemma JoinedSame(a: Range, b: Range)
    requires Touching(a, b) && a.pages > 0 && b.pages > 0
    ensures SamePages([a, b], [Joined(a, b)]) && Live([a, b]) == Live([Joined(a, b)])
  {
    forall p ensures Holds([a, b], p) <==> Holds([Joined(a, b)], p) {
      HoldsOne(a, p);
      HoldsOne(b, p);
      HoldsOne(Joined(a, b), p);
      HoldsConcat([a], [b], p);
      assert [a] + [b] == [a, b];
    }
  }

  lemma PrependRange(r: Range, rs: seq<Range>)
    requires Canonical(rs) && r.pages > 0
    requires rs != [] ==> End(r) <= rs[0].base && !Touching(r, rs[0])
    ensures Canonical([r] + rs)
  {
    var qs := [r] + rs;
    forall i | 0 <= i < |qs| - 1 ensures Settled(qs, i) {
      if i > 0 { assert Settled(rs, i - 1); }
    }
    forall i, j | 0 <= i < j < |qs| ensures End(qs[i]) <= qs[j].base {
      if i == 0 && j > 1 {
        assert rs[0].pages > 0 && End(rs[0]) <= rs[j - 1].base;
      }
    }
  }

  /** Merging makes a sorted list canonical and keeps its pages and its live ranges. */
  lemma {:induction false} MergeIsCanonical(rs: seq<Range>)
    requires Sorted(rs)
    ensures Canonical(Merge(rs)) && SamePages(Merge(rs), rs) && Live(Merge(rs)) == Live(rs)
    decreases |rs|
  {
    if |rs| > 1 {
      var a, b := rs[0], rs[1];
      if Touching(a, b) {
        JoinedSorted(rs);
        MergeIsCanonical([Joined(a, b)] + rs[2..]);
        JoinedPages(rs);
      } else {
        SortedTail(rs);
        MergeIsCanonical(rs[1..]);
        PrependRange(a, Merge(rs[1..]));
        PrependPages(a, Merge(rs[1..]), rs[1..]);
        assert [a] + rs[1..] == rs;
      }
    }
  }

  lemma JoinedPages(rs: seq<Range>)
    requires Sorted(rs) && |rs| > 1 && Touching(rs[0], rs[1])
    ensures var qs := [Joined(rs[0], rs[1])] + rs[2..]; SamePages(qs, rs) && Live(qs) == Live(rs)
  {
    var a, b := rs[0], rs[1];
    JoinedSame(a, b);
    ReplaceStretch([], [a, b], [Joined(a, b)], rs[2..]);
    assert rs == [] + [a, b] + rs[2..] && [Joined(a, b)] + rs[2..] == [] + [Joined(a, b)] + rs[2..];
  }

  lemma PrependPages(a: Range, qs: seq<Range>, rs: seq<Range>)
    requires SamePages(qs, rs) && Live(qs) == Live(rs)
    ensures SamePages([a] + qs, [a] + rs) && Live([a] + qs) == Live([a] + rs)
  {
    ReplaceStretch([a], qs, rs, []);
    assert [a] + rs + [] == [a] + rs && [a] + qs + [] == [a] + qs;
  }

  lemma JoinedSorted(rs: seq<Range>)
    requires Sorted(rs) && |rs| > 1 && Touching(rs[0], rs[1])
    ensures Sorted([Joined(rs[0], rs[1])] + rs[2..])
  {
    var qs := [Joined(rs[0], rs[1])] + rs[2..];
    forall i, j | 0 <= i < j < |qs| ensures End(qs[i]) <= qs[j].base {
      assert qs[j] == rs[j + 1];
      if i == 0 { assert End(rs[1]) <= rs[j + 1].base; } else { assert qs[i] == rs[i + 1]; }
    }
  }

  // Range i is given to a request for n pages; the rest stays free.
  function Allocated(rs: seq<Range>, i: int, n: int, flags: int): seq<Range>
    requires 0 <= i < |rs|
  {
    rs[..i] + Cut(rs[i], n, flags) + rs[i + 1..]
  }

  function Cut(r: Range, n: int, flags: int): seq<Range> {
    var taken := Range(r.base, n, true, flags);
    if r.pages > n then [taken, Range(r.base + n, r.pages - n, false, 0)] else [taken]
  }

  lemma CutSame(r: Range, n: int, flags: int)
    requires !r.used && 0 < n <= r.pages
    ensures SamePages([r], Cut(r, n, flags))
    ensures Live(Cut(r, n, flags)) == {Range(r.base, n, true, flags)}
  {
    var taken := Range(r.base, n, true, flags);
    var rest := Range(r.base + n, r.pages - n, false, 0);
    forall p ensures Holds([r], p) <==> Holds(Cut(r, n, flags), p) {
      HoldsOne(r, p);
      HoldsOne(taken, p);
      HoldsOne(rest, p);
      HoldsConcat([taken], [rest], p);
      assert [taken] + [rest] == [taken, rest];
    }
  }

  /** An allocation keeps pages and canonical form and adds exactly one live range. */
  lemma AllocatedIsCanonical(rs: seq<Range>, i: int, n: int, flags: int)
    requires Canonical(rs) && 0 <= i < |rs| && !rs[i].used && 0 < n <= rs[i].pages
    ensures Canonical(Allocated(rs, i, n, flags)) && SamePages(Allocated(rs, i, n, flags), rs)
    ensures Live(Allocated(rs, i, n, flags)) == Live(rs) + {Range(rs[i].base, n, true, flags)}
    ensures Range(rs[i].base, n, true, flags) !in Live(rs)
  {
    CutSame(rs[i], n, flags);
    ReplaceStretch(rs[..i], [rs[i]], Cut(rs[i], n, flags), rs[i + 1..]);
    assert rs == rs[..i] + [rs[i]] + rs[i + 1..];
    LiveConcat(rs[..i] + [rs[i]], rs[i + 1..]);
    LiveConcat(rs[..i], [rs[i]]);
    LiveConcat(rs[..i] + Cut(rs[i], n, flags), rs[i + 1..]);
    LiveConcat(rs[..i], Cut(rs[i], n, flags));
    AllocatedSorted(rs, i, n, flags);
  }

  lemma AllocatedSorted(rs: seq<Range>, i: int, n: int, flags: int)
    requires Canonical(rs) && 0 <= i < |rs| && !rs[i].used && 0 < n <= rs[i].pages
    ensures Canonical(Allocated(rs, i, n, flags))
  {
    var qs := Allocated(rs, i, n, flags);
    var extra := |qs| - |rs|;
    forall j, k | 0 <= j < k < |qs| ensures End(qs[j]) <= qs[k].base {
      var j', k' := if j <= i then j else j - extra, if k <= i then k else k - extra;
      assert j' < k' ==> End(rs[j']) <= rs[k'].base;
    }
    forall j | 0 <= j < |qs| - 1 ensures Settled(qs, j) {
      if j + 1 < i { assert Settled(rs, j); }
      if j > i { assert j - extra < |rs| - 1 ==> Settled(rs, j - extra); }
    }
  }

  // The range with the given base, or the length of the list.
  function IndexOf(rs: seq<Range>, base: int): (i: int)
    ensures 0 <= i <= |rs|
    ensures i < |rs| ==> rs[i].base == base
    ensures forall j :: 0 <= j < i ==> rs[j].base != base
  {
    if rs == [] then 0 else if rs[0].base == base then 0 else 1 + IndexOf(rs[1..], base)
  }

  function Freed(rs: seq<Range>, i: int): seq<Range>
    requires 0 <= i < |rs|
  {
    Merge(rs[i := rs[i].(used := false)])
  }

  /** Freeing keeps pages and canonical form and removes exactly one live range. */
  lemma FreedIsCanonical(rs: seq<Range>, i: int)
    requires Canonical(rs) && 0 <= i < |rs| && rs[i].used
    ensures Canonical(Freed(rs, i)) && SamePages(Freed(rs, i), rs)
    ensures Live(Freed(rs, i)) == Live(rs) - {rs[i]}
  {
    var freed := rs[i].(used := false);
    var qs := rs[i := freed];
    MergeIsCanonical(qs);
    assert qs == rs[..i] + [freed] + rs[i + 1..] && rs == rs[..i] + [rs[i]] + rs[i + 1..];
    forall p ensures Holds([freed], p) <==> Holds([rs[i]], p) {
      HoldsOne(freed, p);
      HoldsOne(rs[i], p);
    }
    ReplaceStretch(rs[..i], [freed], [rs[i]], rs[i + 1..]);
    FreedLive(rs, i);
  }

  lemma FreedLive(rs: seq<Range>, i: int)
    requires Canonical(rs) && 0 <= i < |rs| && rs[i].used
    ensures Live(rs[i := rs[i].(used := false)]) == Live(rs) - {rs[i]}
  {
    var freed := rs[i].(used := false);
    assert rs[i := freed] == rs[..i] + [freed] + rs[i + 1..] && rs == rs[..i] + [rs[i]] + rs[i + 1..];
    LiveConcat(rs[..i] + [rs[i]], rs[i + 1..]);
    LiveConcat(rs[..i], [rs[i]]);
    LiveConcat(rs[..i] + [freed], rs[i + 1..]);
    LiveConcat(rs[..i], [freed]);
    assert rs[i] !in rs[..i] && rs[i] !in rs[i + 1..];
  }

  predicate StartsAt(r: Range, base: int, used: bool, flags: int) {
    r.base == base && r.used == used && r.flags == flags
  }

  /** Merging keeps the start of a range, its use and its flags, if and only if no free range reaches up to it. */
  lemma {:induction false} MergeKeepsStart(rs: seq<Range>, i: int)
    requires Sorted(rs) && 0 <= i < |rs|
    ensures IndexOf(Merge(rs), rs[i].base) < |Merge(rs)| <==> i == 0 || !Touching(rs[i - 1], rs[i])
    ensures var j := IndexOf(Merge(rs), rs[i].base);
      j < |Merge(rs)| ==> StartsAt(Merge(rs)[j], rs[i].base, rs[i].used, rs[i].flags)
    decreases |rs|
  {
    if |rs| > 1 {
      if Touching(rs[0], rs[1]) {
        MergeKeepsJoined(rs, i);
      } else {
        SortedTail(rs);
        if i > 0 {
          MergeKeepsStart(rs[1..], i - 1);
          assert rs[0].base < End(rs[0]) <= rs[i].base;
          assert Merge(rs)[1..] == Merge(rs[1..]);
        }
      }
    }
  }

  lemma SortedTail(rs: seq<Range>)
    requires Sorted(rs) && rs != []
    ensures Sorted(rs[1..])
  {
  }

  lemma {:induction false} MergeKeepsJoined(rs: seq<Range>, i: int)
    requires Sorted(rs) && |rs| > 1 && Touching(rs[0], rs[1]) && 0 <= i < |rs|
    ensures IndexOf(Merge(rs), rs[i].base) < |Merge(rs)| <==> i == 0 || !Touching(rs[i - 1], rs[i])
    ensures var j := IndexOf(Merge(rs), rs[i].base);
      j < |Merge(rs)| ==> StartsAt(Merge(rs)[j], rs[i].base, rs[i].used, rs[i].flags)
    decreases |rs|, 0
  {
    var qs := [Joined(rs[0], rs[1])] + rs[2..];
    JoinedSorted(rs);
    if i == 1 {
      InsideFirst(qs, rs[1].base);
    } else {
      MergeKeepsStart(qs, if i == 0 then 0 else i - 1);
    }
  }

  // No range starts strictly inside the first one.
  lemma InsideFirst(qs: seq<Range>, base: int)
    requires Sorted(qs) && qs != [] && !qs[0].used && qs[0].base < base < End(qs[0])
    ensures IndexOf(Merge(qs), base) == |Merge(qs)|
  {
    MergeIsCanonical(qs);
    FirstReaches(qs);
  }

  lemma {:induction false} FirstReaches(qs: seq<Range>)
    requires Sorted(qs) && qs != []
    ensures Merge(qs) != [] && Merge(qs)[0].base == qs[0].base && End(Merge(qs)[0]) >= End(qs[0])
    decreases |qs|
  {
    if |qs| > 1 && Touching(qs[0], qs[1]) {
      JoinedSorted(qs);
      FirstReaches([Joined(qs[0], qs[1])] + qs[2..]);
    }
  }

  // How many ranges start below base: the place of a new area.
  function Below(rs: seq<Range>, base: int): (i: int)
    ensures 0 <= i <= |rs|
    ensures i > 0 ==> rs[i - 1].base < base
    ensures forall j :: i <= j < |rs| ==> rs[j].base >= base
  {
    if rs == [] then 0
    else if rs[|rs| - 1].base < base then |rs| else Below(rs[..|rs| - 1], base)
  }

  function Added(rs: seq<Range>, area: Range): seq<Range> {
    var i := Below(rs, area.base);
    Merge(rs[..i] + [area] + rs[i..])
  }

  /** A new disjoint area keeps canonical form, adds its pages and no live range. */
  lemma AddedIsCanonical(rs: seq<Range>, area: Range)
    requires Canonical(rs) && area.pages > 0 && !area.used
    requires forall p :: InRange(area, p) ==> !Holds(rs, p)
    ensures Canonical(Added(rs, area)) && Live(Added(rs, area)) == Live(rs)
    ensures forall p :: Holds(Added(rs, area), p) <==> Holds(rs, p) || InRange(area, p)
  {
    var i := Below(rs, area.base);
    var qs := rs[..i] + [area] + rs[i..];
    AddedSorted(rs, area);
    MergeIsCanonical(qs);
    InsertedPages(rs, i, area);
  }

  lemma InsertedPages(rs: seq<Range>, i: int, area: Range)
    requires 0 <= i <= |rs| && !area.used
    ensures var qs := rs[..i] + [area] + rs[i..];
            && Live(qs) == Live(rs)
            && forall p :: Holds(qs, p) <==> Holds(rs, p) || InRange(area, p)
  {
    var qs := rs[..i] + [area] + rs[i..];
    assert rs == rs[..i] + rs[i..];
    LiveConcat(rs[..i], rs[i..]);
    LiveConcat(rs[..i] + [area], rs[i..]);
    LiveConcat(rs[..i], [area]);
    forall p ensures Holds(qs, p) <==> Holds(rs, p) || InRange(area, p) {
      HoldsConcat(rs[..i], rs[i..], p);
      HoldsConcat(rs[..i] + [area], rs[i..], p);
      HoldsConcat(rs[..i], [area], p);
      HoldsOne(area, p);
    }
  }

  lemma AddedSorted(rs: seq<Range>, area: Range)
    requires Sorted(rs) && area.pages > 0
    requires forall p :: InRange(area, p) ==> !Holds(rs, p)
    ensures var i := Below(rs, area.base); Sorted(rs[..i] + [area] + rs[i..])
  {
    var i := Below(rs, area.base);
    forall j | 0 <= j < i ensures End(rs[j]) <= area.base {
      assert j < i - 1 ==> End(rs[j]) <= rs[i - 1].base;
      assert InRange(area, area.base);
      assert !InRange(rs[j], area.base);
    }
    forall j | i <= j < |rs| ensures End(area) <= rs[j].base {
      assert InRange(rs[j], rs[j].base) && Holds(rs, rs[j].base);
      assert !InRange(area, rs[j].base);
    }
    InsertSorted(rs, i, area);
  }

  lemma InsertSorted(rs: seq<Range>, i: int, area: Range)
    requires Sorted(rs) && 0 <= i <= |rs| && area.pages > 0
    requires forall j :: 0 <= j < i ==> End(rs[j]) <= area.base
    requires forall j :: i <= j < |rs| ==> End(area) <= rs[j].base
    ensures Sorted(rs[..i] + [area] + rs[i..])
  {
    var qs := rs[..i] + [area] + rs[i..];
    forall j, k | 0 <= j < k < |qs| ensures End(qs[j]) <= qs[k].base {
      var j', k' := if j < i then j else j - 1, if k < i then k else k - 1;
      assert j != i && k != i ==> qs[j] == rs[j'] && qs[k] == rs[k'];
    }
  }

  /** Allocating and freeing the range again restores the pool, up to flags on free ranges. */
  lemma AllocateThenFree(rs: seq<Range>, n: int, flags: int)
    requires Canonical(rs) && n > 0
    ensures var i := FirstFit(rs, n);
            i < |rs| ==> PlainAll(Freed(Allocated(rs, i, n, flags), i)) == PlainAll(rs)
  {
    var i := FirstFit(rs, n);
    if i < |rs| {
      var qs := Allocated(rs, i, n, flags);
      AllocatedIsCanonical(rs, i, n, flags);
      FreedIsCanonical(qs, i);
      assert Live(Freed(qs, i)) == Live(rs);
      CanonicalIsUnique(Freed(qs, i), rs);
    }
  }

  datatype Op = AddArea(base: int, pages: int) | Take(requested: nat, flags: int) | Give(base: int)

  ghost predicate Legal(rs: seq<Range>, op: Op) {
    op.AddArea? ==> op.pages > 0 && forall p :: op.base <= p < op.base + op.pages ==> !Holds(rs, p)
  }

  function AtLeastOne(n: int): int { if n == 0 then 1 else n }

  // One call on the pool; freeing an unused or unknown range changes nothing.
  function Step(rs: seq<Range>, op: Op): seq<Range> {
    match op
    case AddArea(base, pages) => Added(rs, Range(base, pages, false, 0))
    case Take(n, flags) =>
      var i := FirstFit(rs, AtLeastOne(n));
      if i < |rs| then Allocated(rs, i, AtLeastOne(n), flags) else rs
    case Give(base) =>
      var i := IndexOf(rs, base);
      if i < |rs| && rs[i].used then Freed(rs, i) else rs
  }

  ghost predicate Runs(rs: seq<Range>, ops: seq<Op>)
    decreases |ops|
  {
    ops != [] ==> Legal(rs, ops[0]) && Runs(Step(rs, ops[0]), ops[1..])
  }

  function Run(rs: seq<Range>, ops: seq<Op>): seq<Range>
    decreases |ops|
  {
    if ops == [] then rs else Run(Step(rs, ops[0]), ops[1..])
  }

  // The pages the areas of a run bring in.
  ghost predicate Managed(rs: seq<Range>, ops: seq<Op>, p: int) {
    Holds(rs, p) || exists k :: 0 <= k < |ops| && InArea(ops[k], p)
  }

  predicate InArea(op: Op, p: int) { op.AddArea? && op.base <= p < op.base + op.pages }

  lemma StepIsCanonical(rs: seq<Range>, op: Op, p: int)
    requires Canonical(rs) && Legal(rs, op)
    ensures Canonical(Step(rs, op))
    ensures Holds(Step(rs, op), p) <==> Holds(rs, p) || InArea(op, p)
  {
    match op {
      case AddArea(base, pages) =>
        var area := Range(base, pages, false, 0);
        assert forall q :: InRange(area, q) ==> !Holds(rs, q);
        AddedIsCanonical(rs, area);
      case Take(n, flags) =>
        var i := FirstFit(rs, AtLeastOne(n));
        if i < |rs| { AllocatedIsCanonical(rs, i, AtLeastOne(n), flags); }
      case Give(base) =>
        var i := IndexOf(rs, base);
        if i < |rs| && rs[i].used { FreedIsCanonical(rs, i); }
    }
  }

  /** Every history keeps the pool canonical and neither loses a page nor gains one. */
  lemma {:induction false} RunIsCanonical(rs: seq<Range>, ops: seq<Op>, p: int)
    requires Canonical(rs) && Runs(rs, ops)
    ensures Canonical(Run(rs, ops))
    ensures Holds(Run(rs, ops), p) <==> Managed(rs, ops, p)
    decreases |ops|
  {
    if ops != [] {
      StepIsCanonical(rs, ops[0], p);
      RunIsCanonical(Step(rs, ops[0]), ops[1..], p);
      if exists k :: 0 <= k < |ops| && InArea(ops[k], p) {
        var k :| 0 <= k < |ops| && InArea(ops[k], p);
        assert k > 0 ==> ops[1..][k - 1] == ops[k];
      }
      if exists k :: 0 <= k < |ops[1..]| && InArea(ops[1..][k], p) {
        var k :| 0 <= k < |ops[1..]| && InArea(ops[1..][k], p);
        assert InArea(ops[k + 1], p);
      }
    }
  }

  /** Two histories with the same pages and the same live ranges leave the same pool, up to flags on free ranges. */
  lemma HistoriesAgree(ops: seq<Op>, ops': seq<Op>)
    requires Runs([], ops) && Runs([], ops')
    requires forall p :: Managed([], ops, p) <==> Managed([], ops', p)
    requires Live(Run([], ops)) == Live(Run([], ops'))
    ensures PlainAll(Run([], ops)) == PlainAll(Run([], ops'))
  {
    RunIsCanonical([], ops, 0);
    RunIsCanonical([], ops', 0);
    forall p ensures Holds(Run([], ops), p) <==> Holds(Run([], ops'), p) {
      RunIsCanonical([], ops, p);
      RunIsCanonical([], ops', p);
    }
    CanonicalIsUnique(Run([], ops), Run([], ops'));
  }
}

/** The pool object: its list changes in place. */
module RangePools {
  import opened Ranges

  class AddressRangePool {
    var ranges: seq<Range>

    constructor ()
      ensures ranges == []
    {
      ranges := [];
    }

    ghost predicate Valid()
      reads this
    {
      Canonical(ranges)
    }

    // Merges touching free ranges, walking the list once.
    method MergeFree()
      modifies this
      ensures ranges == Merge(old(ranges))
    {
      var i := 0;
      while i < |ranges| && i + 1 < |ranges|
        invariant 0 <= i <= |ranges|
        invariant ranges[..i] + Merge(ranges[i..]) == Merge(old(ranges))
        decreases |ranges| - i
      {
        MergeFront(ranges, i);
        if Touching(ranges[i], ranges[i + 1]) {
          ranges := ranges[..i] + [Joined(ranges[i], ranges[i + 1])] + ranges[i + 2..];
        } else {
          i := i + 1;
        }
      }
      assert ranges[..i] + ranges[i..] == ranges;
    }

    // Inserts a new free area at its place in the list.
    method InitializeArea(base: int, pages: int)
      requires Valid() && pages > 0 && forall p :: base <= p < base + pages ==> !Holds(ranges, p)
      modifies this
      ensures Valid() && ranges == Step(old(ranges), AddArea(base, pages))
    {
      var area := Range(base, pages, false, 0);
      assert forall q :: InRange(area, q) ==> !Holds(ranges, q);
      AddedIsCanonical(ranges, area);
      var lastBelow := -1;
      for i := 0 to |ranges|
        invariant -1 <= lastBelow < i
        invariant ranges == old(ranges)
        invariant lastBelow >= 0 ==> ranges[lastBelow].base < base
        invariant forall j :: lastBelow < j < i ==> ranges[j].base >= base
      {
        if ranges[i].base < base {
          lastBelow := i;
        }
      }
      assert Below(ranges, base) == lastBelow + 1;
      ranges := ranges[..lastBelow + 1] + [area] + ranges[lastBelow + 1..];
      MergeFree();
    }

    // Takes over a copy of another pool's list.
    method InitializeFrom(other: AddressRangePool)
      requires other.ranges != [] && other != this
      modifies this
      ensures ranges == other.ranges
    {
      ranges := [];
      var i := 0;
      while i < |other.ranges|
        invariant 0 <= i <= |other.ranges| && ranges == other.ranges[..i]
      {
        ranges := ranges + [other.ranges[i]];
        i := i + 1;
      }
    }

    // First fit; none when no free range is long enough.
    method Allocate(requested: nat, flags: int) returns (found: bool, base: int)
      requires Valid()
      modifies this
      ensures Valid() && ranges == Step(old(ranges), Take(requested, flags))
      ensures found <==> exists x :: FreeRun(old(ranges), x, AtLeastOne(requested))
      ensures found ==> Live(ranges) == Live(old(ranges)) + {Range(base, AtLeastOne(requested), true, flags)}
      ensures found ==> FreeRun(old(ranges), base, AtLeastOne(requested))
      ensures !found ==> ranges == old(ranges) && base == 0
    {
      var n := if requested == 0 then 1 else requested;
      FirstFitComplete(ranges, n);
      var i := FindFit(n);
      if i == |ranges| {
        return false, 0;
      }
      FitIsFree(ranges, i, n);
      AllocatedIsCanonical(ranges, i, n, flags);
      base := ranges[i].base;
      CutOff(i, n, flags);
      return true, base;
    }

    method FindFit(n: nat) returns (i: nat)
      requires n > 0
      ensures i == FirstFit(ranges, n)
    {
      i := 0;
      while i < |ranges| && (ranges[i].used || ranges[i].pages < n)
        invariant 0 <= i <= |ranges|
        invariant forall j :: 0 <= j < i ==> ranges[j].used || ranges[j].pages < n
      {
        i := i + 1;
      }
    }

    // Takes n pages from the front of a range and leaves the others as a new one behind it.
    method CutOff(i: nat, n: nat, flags: int)
      requires i < |ranges| && 0 < n <= ranges[i].pages
      modifies this
      ensures ranges == Allocated(old(ranges), i, n, flags)
    {
      var range := ranges[i];
      ranges := ranges[i := range.(used := true, flags := flags)];
      var remainingPages := range.pages - n;
      if remainingPages > 0 {
        var splinter := Range(range.base + n, remainingPages, false, 0);
        ranges := ranges[..i] + [ranges[i].(pages := n), splinter] + ranges[i + 1..];
      }
    }

    // The number of freed pages, or -1 for an unknown or unused range.
    method Free(base: int) returns (freedPages: int)
      requires Valid() && ranges != []
      modifies this
      ensures Valid() && ranges == Step(old(ranges), Give(base))
      ensures freedPages >= 0 <==> exists r :: r in Live(old(ranges)) && r.base == base
      ensures freedPages >= 0 ==>
                exists r :: r in Live(old(ranges)) && r.base == base && r.pages == freedPages &&
                            Live(ranges) == Live(old(ranges)) - {r}
      ensures freedPages < 0 ==> freedPages == -1 && ranges == old(ranges)
    {
      var i := 0;
      while i < |ranges| && ranges[i].base != base
        invariant 0 <= i <= |ranges| && ranges == old(ranges)
        invariant forall j :: 0 <= j < i ==> ranges[j].base != base
      {
        i := i + 1;
      }
      assert i == IndexOf(ranges, base);
      if i == |ranges| || !ranges[i].used {
        NotLive(ranges, i, base);
        return -1;
      }
      FreedIsCanonical(ranges, i);
      ghost var r := ranges[i];
      assert r in Live(ranges);
      freedPages := ranges[i].pages;
      ranges := ranges[i := ranges[i].(used := false)];
      MergeFree();
    }
  }

  lemma FitIsFree(rs: seq<Range>, i: nat, n: nat)
    requires i < |rs| && !rs[i].used && 0 < n <= rs[i].pages
    ensures FreeRun(rs, rs[i].base, n)
  {
    forall p | rs[i].base <= p < rs[i].base + n ensures FreeAt(rs, p) {
      assert InRange(rs[i], p);
    }
  }

  lemma NotLive(rs: seq<Range>, i: int, base: int)
    requires Sorted(rs) && i == IndexOf(rs, base) && (i == |rs| || !rs[i].used)
    ensures !exists r :: r in Live(rs) && r.base == base
  {
    forall r | r in Live(rs) ensures r.base != base {
      var j :| 0 <= j < |rs| && rs[j] == r;
      assert i < |rs| && j != i ==> rs[j].base != rs[i].base;
    }
  }

  // One round of the merging loop, at range i.
  lemma MergeFront(rs: seq<Range>, i: int)
    requires 0 <= i < |rs| - 1
    ensures var qs := rs[..i] + [Joined(rs[i], rs[i + 1])] + rs[i + 2..];
            if Touching(rs[i], rs[i + 1])
            then qs[..i] + Merge(qs[i..]) == rs[..i] + Merge(rs[i..])
            else rs[..i + 1] + Merge(rs[i + 1..]) == rs[..i] + Merge(rs[i..])
  {
    var rest := rs[i..];
    var qs := rs[..i] + [Joined(rs[i], rs[i + 1])] + rs[i + 2..];
    assert rest[1..] == rs[i + 1..] && rest[2..] == rs[i + 2..];
    assert qs[i..] == [Joined(rest[0], rest[1])] + rest[2..];
    assert rs[..i + 1] == rs[..i] + [rs[i]];
  }
}
