/** Chains of entries, as the buckets of a hash map hold them. */
module Chains {
  import opened Options

  datatype Entry<K, V> = Entry(key: K, value: V)

  function Lookup<K(==), V>(chain: seq<Entry<K, V>>, k: K): Option<V> {
    if chain == [] then None else if chain[0].key == k then Some(chain[0].value) else Lookup(chain[1..], k)
  }

  // How often a key occurs.
  function Count<K(==), V>(chain: seq<Entry<K, V>>, k: K): nat {
    if chain == [] then 0 else (if chain[0].key == k then 1 else 0) + Count(chain[1..], k)
  }

  lemma {:induction false} CountSum<K, V>(a: seq<Entry<K, V>>, b: seq<Entry<K, V>>, k: K)
    ensures Count(a + b, k) == Count(a, k) + Count(b, k)
    decreases |a|
  {
    if a == [] {
      assert a + b == b;
    } else {
      assert (a + b)[1..] == a[1..] + b;
      CountSum(a[1..], b, k);
    }
  }

  lemma {:induction false} LookupSum<K, V>(a: seq<Entry<K, V>>, b: seq<Entry<K, V>>, k: K)
    ensures Lookup(a + b, k) == if Count(a, k) > 0 then Lookup(a, k) else Lookup(b, k)
    ensures Lookup(a, k).Some? <==> Count(a, k) > 0
    decreases |a|
  {
    if a == [] {
      assert a + b == b;
    } else {
      assert (a + b)[1..] == a[1..] + b;
      LookupSum(a[1..], b, k);
    }
  }

  // The chain with position i, if there is an entry, replaced by others.
  function Spliced<K, V>(chain: seq<Entry<K, V>>, i: nat, mid: seq<Entry<K, V>>): seq<Entry<K, V>>
    requires i <= |chain|
  {
    chain[..i] + mid + if i < |chain| then chain[i + 1..] else []
  }

  lemma CountSpliced<K, V>(chain: seq<Entry<K, V>>, i: nat, mid: seq<Entry<K, V>>, k: K)
    requires i <= |chain|
    ensures Count(Spliced(chain, i, mid), k) ==
            Count(chain, k) + Count(mid, k) - if i < |chain| && chain[i].key == k then 1 else 0
  {
    var tail := if i < |chain| then chain[i + 1..] else [];
    var out := if i < |chain| then [chain[i]] else [];
    assert chain == chain[..i] + out + tail;
    CountSum(chain[..i] + mid, tail, k);
    CountSum(chain[..i], mid, k);
    CountSum(chain[..i] + out, tail, k);
    CountSum(chain[..i], out, k);
  }

  // A key that neither leaves nor enters keeps its value.
  lemma LookupSpliced<K, V>(chain: seq<Entry<K, V>>, i: nat, mid: seq<Entry<K, V>>, k: K)
    requires i <= |chain| && Count(mid, k) == 0 && (i < |chain| ==> chain[i].key != k)
    ensures Lookup(Spliced(chain, i, mid), k) == Lookup(chain, k)
  {
    var tail := if i < |chain| then chain[i + 1..] else [];
    var out := if i < |chain| then [chain[i]] else [];
    assert chain == chain[..i] + (out + tail);
    assert Spliced(chain, i, mid) == chain[..i] + (mid + tail);
    LookupSum(chain[..i], mid + tail, k);
    LookupSum(chain[..i], out + tail, k);
    LookupSum(mid, tail, k);
    LookupSum(out, tail, k);
  }

  // All entries, bucket by bucket.
  ghost function All<K, V>(buckets: seq<seq<Entry<K, V>>>): seq<Entry<K, V>> {
    if buckets == [] then [] else buckets[0] + All(buckets[1..])
  }

  // A key that only one bucket can hold occurs in all of them as often as there.
  lemma {:induction false} CountAll<K, V>(buckets: seq<seq<Entry<K, V>>>, h: nat, k: K)
    requires forall i :: 0 <= i < |buckets| && i != h ==> Count(buckets[i], k) == 0
    ensures Count(All(buckets), k) == if h < |buckets| then Count(buckets[h], k) else 0
    decreases |buckets|
  {
    if buckets != [] {
      CountSum(buckets[0], All(buckets[1..]), k);
      if h == 0 {
        CountAll(buckets[1..], |buckets|, k);
      } else {
        CountAll(buckets[1..], h - 1, k);
      }
    }
  }

  lemma {:induction false} AllSplits<K, V>(buckets: seq<seq<Entry<K, V>>>, i: nat)
    requires i < |buckets|
    ensures All(buckets[i..]) == buckets[i] + All(buckets[i + 1..])
  {
    assert buckets[i..][1..] == buckets[i + 1..];
  }
}

/** The kernel's hash map: 64 buckets with chained entries, for any hash function. */
module HashMaps {
  import opened Options
  import opened Chains

  const BUCKETS := 64

  class HashMap<K(==, !new), V(0)> {
    const hash: K -> nat
    const buckets: array<seq<Entry<K, V>>>
    var size: int
    // The finite map this stands for, and the additions that replaced a value.
    ghost var contents: map<K, V>
    ghost var overwrites: nat

    ghost function Home(k: K): nat { hash(k) % BUCKETS }

    // Each key is in its own bucket or nowhere, once at most, with its value.
    ghost predicate Holds(k: K)
      reads `contents, buckets
      requires buckets.Length == BUCKETS
    {
      && (forall i :: 0 <= i < BUCKETS && i != Home(k) ==> Count(buckets[i], k) == 0)
      && Count(buckets[Home(k)], k) <= 1
      && Lookup(buckets[Home(k)], k) == if k in contents then Some(contents[k]) else None
    }

    ghost predicate Valid()
      reads this, buckets
    {
      && buckets.Length == BUCKETS
      && (forall k :: Holds(k))
      && size == |contents| + overwrites
    }

    constructor (hash: K -> nat)
      ensures Valid() && this.hash == hash && contents == map[] && overwrites == 0 && fresh(buckets)
    {
      this.hash := hash;
      buckets := new seq<Entry<K, V>>[BUCKETS](_ => []);
      size, contents, overwrites := 0, map[], 0;
    }

    // Where the key's entry stands in its chain; at the end if it is not there.
    method Position(chain: seq<Entry<K, V>>, k: K) returns (i: nat)
      ensures i <= |chain| && Count(chain[..i], k) == 0
      ensures i < |chain| ==> chain[i].key == k
      ensures i == |chain| <==> Count(chain, k) == 0
    {
      i := 0;
      while i < |chain| && chain[i].key != k
        invariant i <= |chain| && Count(chain[..i], k) == 0
      {
        assert chain[..i + 1] == chain[..i] + [chain[i]];
        CountSum(chain[..i], [chain[i]], k);
        i := i + 1;
      }
      assert chain == chain[..i] + chain[i..];
      CountSum(chain[..i], chain[i..], k);
    }

    method Get(k: K) returns (r: Option<V>)
      requires Valid()
      ensures r == if k in contents then Some(contents[k]) else None
    {
      var chain := buckets[hash(k) % BUCKETS];
      assert Holds(k);
      var i := Position(chain, k);
      LookupSum(chain, [], k);
      if i == |chain| {
        return None;
      }
      assert chain == chain[..i] + chain[i..];
      LookupSum(chain[..i], chain[i..], k);
      return Some(chain[i].value);
    }

    // Replaces position i of a key's chain by at most one entry of that key.
    method Splice(k: K, i: nat, mid: seq<Entry<K, V>>, ghost after: map<K, V>)
      requires buckets.Length == BUCKETS && (forall j :: Holds(j))
      requires var chain := buckets[Home(k)];
        && i <= |chain| && Count(chain[..i], k) == 0
        && if i < |chain| then chain[i].key == k && Count(chain, k) > 0 else Count(chain, k) == 0
      requires mid == if k in after then [Entry(k, after[k])] else []
      requires forall j :: j != k ==> (j in after <==> j in contents) && (j in after ==> after[j] == contents[j])
      modifies this`contents, buckets
      ensures contents == after && forall j :: Holds(j)
    {
      var h := hash(k) % BUCKETS;
      var chain := buckets[h];
      assert Holds(k);
      CountSpliced(chain, i, mid, k);
      LookupNew(chain, i, mid, k);
      forall j ensures Count(Spliced(chain, i, mid), j) == (if j == k then |mid| else Count(chain, j))
        ensures j != k ==> Lookup(Spliced(chain, i, mid), j) == Lookup(chain, j)
      {
        assert Holds(j);
        CountSpliced(chain, i, mid, j);
        if j != k {
          LookupSpliced(chain, i, mid, j);
        }
      }
      buckets[h] := chain[..i] + mid + if i < |chain| then chain[i + 1..] else [];
      contents := after;
      forall j ensures Holds(j) {
        assert old(Holds(j));
      }
    }

    /** Sets the value of a key. The size grows even when a value was only replaced. */
    method Add(k: K, v: V)
      requires Valid()
      modifies this, buckets
      ensures Valid() && contents == old(contents)[k := v]
      ensures size == old(size) + 1
      ensures overwrites == old(overwrites) + if k in old(contents) then 1 else 0
    {
      assert Holds(k);
      var i := Position(buckets[hash(k) % BUCKETS], k);
      LookupSum(buckets[hash(k) % BUCKETS], [], k);
      if k in contents {
        overwrites := overwrites + 1;
      }
      Splice(k, i, [Entry(k, v)], contents[k := v]);
      size := size + 1;
    }

    method Erase(k: K)
      requires Valid()
      modifies this, buckets
      ensures Valid() && contents == old(contents) - {k}
      ensures overwrites == old(overwrites)
      ensures size == old(size) - if k in old(contents) then 1 else 0
    {
      assert Holds(k);
      var chain := buckets[hash(k) % BUCKETS];
      var i := Position(chain, k);
      LookupSum(chain, [], k);
      if i < |chain| {
        Splice(k, i, [], contents - {k});
        size := size - 1;
        assert old(contents) == contents[k := old(contents)[k]];
      } else {
        assert contents - {k} == contents;
      }
    }

    // Every entry, in the order the iterator takes.
    ghost function Entries(): seq<Entry<K, V>>
      reads this, buckets
    {
      All(buckets[..])
    }

    /** The iterator's order has every key of the map exactly once and nothing else. */
    lemma EveryKeyOnce(k: K)
      requires Valid()
      ensures Count(Entries(), k) == if k in contents then 1 else 0
    {
      assert Holds(k);
      LookupSum(buckets[Home(k)], [], k);
      CountAll(buckets[..], Home(k), k);
    }
  }

  lemma DropFirst<T>(chain: seq<T>, i: nat, more: seq<T>)
    requires i < |chain|
    ensures (chain[i..] + more)[1..] == chain[i + 1..] + more
    ensures i + 1 == |chain| ==> (chain[i..] + more)[1..] == more
  {
  }

  class HashMapIterator<K(==, !new), V(0)> {
    const table: HashMap<K, V>
    var bucketIndex: nat
    // The position in the chain of the current bucket; none at the end.
    var current: Option<nat>

    ghost predicate Valid()
      reads this, table, table.buckets
    {
      && table.buckets.Length == BUCKETS
      && (current.Some? ==> bucketIndex < BUCKETS && current.value < |table.buckets[bucketIndex]|)
    }

    // The entries still to come, the current one first.
    ghost function Rest(): seq<Entry<K, V>>
      reads this, table, table.buckets
      requires Valid()
    {
      if current.None? then []
      else table.buckets[bucketIndex][current.value..] + All(table.buckets[bucketIndex + 1..])
    }

    constructor (table: HashMap<K, V>)
      requires table.Valid()
      ensures this.table == table && Valid() && Rest() == table.Entries()
    {
      this.table := table;
      bucketIndex, current := 0, None;
      new;
      assert table.buckets[0..] == table.buckets[..];
      NextBucket(0);
    }

    // Moves to the first entry at or after a bucket.
    method NextBucket(start: nat)
      requires table.buckets.Length == BUCKETS && start <= BUCKETS
      modifies this
      ensures Valid() && Rest() == All(table.buckets[start..])
    {
      current := None;
      bucketIndex := start;
      while bucketIndex < BUCKETS
        modifies this
        invariant start <= bucketIndex <= BUCKETS && current.None?
        invariant All(table.buckets[start..]) == All(table.buckets[bucketIndex..])
      {
        AllSplits(table.buckets[..], bucketIndex);
        assert table.buckets[..][bucketIndex..] == table.buckets[bucketIndex..];
        assert table.buckets[..][bucketIndex + 1..] == table.buckets[bucketIndex + 1..];
        if table.buckets[bucketIndex] != [] {
          current := Some(0);
          return;
        }
        bucketIndex := bucketIndex + 1;
      }
    }

    method Get() returns (e: Entry<K, V>)
      requires Valid() && Rest() != []
      ensures e == Rest()[0]
    {
      e := table.buckets[bucketIndex][current.value];
    }

    method Advance()
      requires Valid() && Rest() != []
      modifies this
      ensures Valid() && Rest() == old(Rest())[1..]
    {
      if current.value + 1 == |table.buckets[bucketIndex]| {
        ghost var more := All(table.buckets[bucketIndex + 1..]);
        DropFirst(table.buckets[bucketIndex], current.value, more);
        NextBucket(bucketIndex + 1);
      } else {
        NextInChain();
      }
    }

    method NextInChain()
      requires Valid() && current.Some? && current.value + 1 < |table.buckets[bucketIndex]|
      modifies `current
      ensures Valid() && Rest() == old(Rest())[1..]
    {
      DropFirst(table.buckets[bucketIndex], current.value, All(table.buckets[bucketIndex + 1..]));
      current := Some(current.value + 1);
    }
  }

  lemma LookupNew<K, V>(chain: seq<Entry<K, V>>, i: nat, mid: seq<Entry<K, V>>, k: K)
    requires i <= |chain| && Count(chain[..i], k) == 0 && Count(chain, k) <= 1
    requires if i < |chain| then chain[i].key == k else Count(chain, k) == 0
    requires |mid| <= 1 && (mid != [] ==> mid[0].key == k)
    ensures Lookup(Spliced(chain, i, mid), k) == if mid == [] then None else Some(mid[0].value)
  {
    var tail := if i < |chain| then chain[i + 1..] else [];
    assert Spliced(chain, i, mid) == chain[..i] + (mid + tail);
    LookupSum(chain[..i], mid + tail, k);
    CountSpliced(chain, i, [], k);
    assert Spliced(chain, i, []) == chain[..i] + tail;
    CountSum(chain[..i], tail, k);
    LookupSum(tail, [], k);
    LookupSum(mid, tail, k);
    assert tail + [] == tail;
  }

  /** One key added twice: the map has one key, and its size says two. */
  method AddedTwice<K(==, !new), V(0)>(hash: K -> nat, k: K, v: V, w: V) returns (m: HashMap<K, V>)
    ensures fresh(m) && m.Valid() && m.contents == map[k := w] && m.size == 2
  {
    m := new HashMap<K, V>(hash);
    m.Add(k, v);
    m.Add(k, w);
  }
}
