/** What a pipe promises: a bounded first-in first-out stream of bytes. */
module Streams {
  type Byte = bv8

  datatype Request = Read(length: nat) | Write(bytes: seq<Byte>)

  function Min(a: int, b: int): int { if a <= b then a else b }

  // The bytes a request takes out of the buffer, and those it puts in.
  function Taken(buffered: seq<Byte>, r: Request): seq<Byte> {
    match r
    case Read(n) => buffered[..Min(n, |buffered|)]
    case Write(_) => []
  }

  function Put(capacity: nat, buffered: seq<Byte>, r: Request): seq<Byte>
    requires |buffered| <= capacity
  {
    match r
    case Read(_) => []
    case Write(bytes) => bytes[..Min(|bytes|, capacity - |buffered|)]
  }

  function After(capacity: nat, buffered: seq<Byte>, r: Request): (b: seq<Byte>)
    requires |buffered| <= capacity
    ensures |b| <= capacity
  {
    buffered[|Taken(buffered, r)|..] + Put(capacity, buffered, r)
  }

  /**
   * A read takes bytes from the front until it has enough or none is left; a write puts bytes in until
   * all are there or no room is left.
   */
  lemma MovesAllItCan(capacity: nat, buffered: seq<Byte>, r: Request)
    requires |buffered| <= capacity
    ensures var taken, put, b := Taken(buffered, r), Put(capacity, buffered, r), After(capacity, buffered, r);
      match r
      case Read(n) => taken + b == buffered && |taken| <= n && (|taken| == n || b == [])
      case Write(bytes) => b == buffered + put && put <= bytes && |b| <= capacity && (put == bytes || |b| == capacity)
  {
  }

  /** A request that finds nothing to read, or no room, leaves the pipe as it was. */
  lemma NothingMoves(capacity: nat, buffered: seq<Byte>, r: Request)
    requires |buffered| <= capacity
    ensures (r.Read? && |Taken(buffered, r)| == 0) || (r.Write? && |Put(capacity, buffered, r)| == 0) <==>
            After(capacity, buffered, r) == buffered
  {
    if r.Write? && |Put(capacity, buffered, r)| > 0 {
      assert |After(capacity, buffered, r)| > |buffered|;
    }
  }

  function AfterAll(capacity: nat, buffered: seq<Byte>, rs: seq<Request>): (b: seq<Byte>)
    requires |buffered| <= capacity
    ensures |b| <= capacity
    decreases |rs|
  {
    if rs == [] then buffered else AfterAll(capacity, After(capacity, buffered, rs[0]), rs[1..])
  }

  function Delivered(capacity: nat, buffered: seq<Byte>, rs: seq<Request>): seq<Byte>
    requires |buffered| <= capacity
    decreases |rs|
  {
    if rs == [] then []
    else Taken(buffered, rs[0]) + Delivered(capacity, After(capacity, buffered, rs[0]), rs[1..])
  }

  function Accepted(capacity: nat, buffered: seq<Byte>, rs: seq<Request>): seq<Byte>
    requires |buffered| <= capacity
    decreases |rs|
  {
    if rs == [] then []
    else Put(capacity, buffered, rs[0]) + Accepted(capacity, After(capacity, buffered, rs[0]), rs[1..])
  }

  /** Over any interleaving nothing is lost, duplicated or reordered. */
  lemma {:induction false} StreamConserved(capacity: nat, buffered: seq<Byte>, rs: seq<Request>)
    requires |buffered| <= capacity
    ensures Delivered(capacity, buffered, rs) + AfterAll(capacity, buffered, rs)
            == buffered + Accepted(capacity, buffered, rs)
    decreases |rs|
  {
    if rs != [] {
      var r, b := rs[0], After(capacity, buffered, rs[0]);
      var rest := rs[1..];
      StreamConserved(capacity, b, rest);
      assert Taken(buffered, r) + b == buffered + Put(capacity, buffered, r);
      Rebracket(Taken(buffered, r), Delivered(capacity, b, rest), AfterAll(capacity, b, rest),
                buffered, Put(capacity, buffered, r), b, Accepted(capacity, b, rest));
    }
  }

  lemma Rebracket(t: seq<Byte>, d: seq<Byte>, e: seq<Byte>, o: seq<Byte>, p: seq<Byte>, b: seq<Byte>, a: seq<Byte>)
    requires d + e == b + a && t + b == o + p
    ensures (t + d) + e == o + (p + a)
  {
    assert (t + d) + e == t + (d + e);
    assert t + (b + a) == (t + b) + a;
    assert (o + p) + a == o + (p + a);
  }
}

/** The pipe itself: a ring buffer in place. */
module Pipes {
  import opened Streams
  import Descriptors

  type Pid = Descriptors.Pid

  const PIPE_DEFAULT_CAPACITY := 0x400

  // Where a transaction stands, and what its handler holds.
  datatype Transaction = Finished(result: int, success: bool) | Repeat

  // A position in a ring, at most once around.
  function Wrap(i: int, capacity: int): int { if i >= capacity then i - capacity else i }

  // The place of the k-th byte of a ring that starts at read.
  function Slot(read: int, k: int, capacity: int): int { Wrap(read + k, capacity) }

  /** The stepwise wrap is the modulus. */
  lemma WrapIsModulus(i: int, capacity: int)
    requires 0 <= i < 2 * capacity
    ensures Wrap(i, capacity) == i % capacity
  {
    if i >= capacity {
      assert i == capacity * 1 + (i - capacity);
    }
  }

  // The bytes at positions read, read + 1, ... of a ring.
  ghost function Ring(b: seq<Byte>, read: int, size: int): (s: seq<Byte>)
    requires 0 <= read < |b| && 0 <= size <= |b|
    ensures |s| == size
  {
    seq(size, k requires 0 <= k < size => b[Slot(read, k, |b|)])
  }

  lemma RingDrop(b: seq<Byte>, read: int, size: int, n: int)
    requires 0 <= read < |b| && 0 <= n <= size <= |b|
    ensures Ring(b, Wrap(read + n, |b|), size - n) == Ring(b, read, size)[n..]
    ensures Wrap(Wrap(read + n, |b|) + (size - n), |b|) == Wrap(read + size, |b|)
  {
    var dropped := Ring(b, Wrap(read + n, |b|), size - n);
    forall k | 0 <= k < size - n ensures dropped[k] == Ring(b, read, size)[n..][k] {
      assert Slot(Wrap(read + n, |b|), k, |b|) == Slot(read, n + k, |b|);
    }
  }

  lemma RingExtend(b: seq<Byte>, b': seq<Byte>, read: int, size: int, xs: seq<Byte>)
    requires |b'| == |b| && 0 <= read < |b| && 0 <= size && size + |xs| <= |b|
    requires forall k :: 0 <= k < size ==> b'[Slot(read, k, |b|)] == b[Slot(read, k, |b|)]
    requires forall k :: size <= k < size + |xs| ==> b'[Slot(read, k, |b|)] == xs[k - size]
    ensures Ring(b', read, size + |xs|) == Ring(b, read, size) + xs
  {
  }

  ghost predicate SomeOther(references: seq<Pid>, pid: Pid) {
    exists i :: 0 <= i < |references| && references[i] != pid
  }

  method Copy(target: array<Byte>, to: nat, source: array<Byte>, from: nat, length: nat)
    requires to + length <= target.Length && from + length <= source.Length && target != source
    modifies target
    ensures forall k :: 0 <= k < target.Length ==>
              target[k] == if to <= k < to + length then source[from + (k - to)] else old(target[k])
  {
    var i := 0;
    while i < length
      invariant 0 <= i <= length
      invariant forall k :: 0 <= k < target.Length ==>
                  target[k] == if to <= k < to + i then source[from + (k - to)] else old(target[k])
    {
      target[to + i] := source[from + i];
      i := i + 1;
    }
  }

  method HasReferenceFromOtherProcess(references: seq<Pid>, pid: Pid) returns (r: bool)
    ensures r <==> SomeOther(references, pid)
  {
    for i := 0 to |references|
      invariant forall j :: 0 <= j < i ==> references[j] == pid
    {
      if references[i] != pid {
        return true;
      }
    }
    return false;
  }

  class Pipe {
    const buffer: array<Byte>
    const capacity: nat
    var write: nat
    var read: nat
    var size: nat

    ghost predicate Valid()
      reads this
    {
      && buffer.Length == capacity > 0
      && read < capacity && write < capacity
      && size <= capacity
      && write == Wrap(read + size, capacity)
    }

    // The buffered bytes, oldest first.
    ghost function Contents(): (s: seq<Byte>)
      requires Valid()
      reads this, buffer
      ensures |s| == size
    {
      Ring(buffer[..], read, size)
    }

    constructor (amount: nat)
      requires amount > 0
      ensures Valid() && fresh(buffer) && capacity == amount && Contents() == []
    {
      buffer := new Byte[amount](_ => 0);
      capacity := amount;
      write, read, size := 0, 0, 0;
    }

    // Moves the oldest bytes to the reader; an empty pipe may ask for the request to be repeated.
    method RequestRead(length: nat, target: array<Byte>, blocking: bool, references: seq<Pid>, pid: Pid)
      returns (t: Transaction)
      requires Valid() && length <= target.Length && target != buffer
      modifies `read, `size, target
      ensures Valid()
      ensures Contents() == After(capacity, old(Contents()), Read(length))
      ensures var m := if length <= old(size) then length else old(size);
              && Contents() == old(Contents())[m..]
              && target[..m] == old(Contents())[..m] == Taken(old(Contents()), Read(length))
              && target[m..] == old(target[..])[m..]
              && t == if m > 0 then Finished(m, true)
                      else if !blocking then Finished(0, true)
                      else if SomeOther(references, pid) then Repeat
                      else Finished(0, false)
    {
      var n := if size >= length then length else size;
      CopyOut(n, target);
      if n > 0 {
        return Finished(n, true);
      }
      if blocking {
        var other := HasReferenceFromOtherProcess(references, pid);
        return if other then Repeat else Finished(0, false);
      }
      return Finished(0, true);
    }

    // The n oldest bytes leave, in at most two pieces.
    method CopyOut(n: nat, target: array<Byte>)
      requires Valid() && n <= size && n <= target.Length && target != buffer
      modifies `read, `size, target
      ensures Valid() && Contents() == old(Contents())[n..]
      ensures target[..n] == old(Contents())[..n] && target[n..] == old(target[..])[n..]
    {
      var spaceToEnd := capacity - read;
      GetBytes(n, target);
      read := if n > spaceToEnd then n - spaceToEnd else read + n;
      if read == capacity {
        read := 0;
      }
      size := size - n;
      RingDrop(buffer[..], old(read), old(size), n);
    }

    method GetBytes(n: nat, target: array<Byte>)
      requires Valid() && n <= size && n <= target.Length && target != buffer
      modifies target
      ensures forall k :: 0 <= k < n ==> target[k] == buffer[Slot(read, k, capacity)]
      ensures target[..n] == Contents()[..n] && target[n..] == old(target[..])[n..]
    {
      var spaceToEnd := capacity - read;
      if n > spaceToEnd {
        Copy(target, 0, buffer, read, spaceToEnd);
        Copy(target, spaceToEnd, buffer, 0, n - spaceToEnd);
      } else {
        Copy(target, 0, buffer, read, n);
      }
    }

    // Takes as many bytes as there is room for; a full pipe may ask for the request to be repeated.
    method RequestWrite(length: nat, source: array<Byte>, blocking: bool, references: seq<Pid>, pid: Pid)
      returns (t: Transaction)
      requires Valid() && length <= source.Length && source != buffer
      modifies `write, `size, buffer
      ensures Valid()
      ensures Contents() == After(capacity, old(Contents()), Write(source[..length]))
      ensures var m := if length <= capacity - old(size) then length else capacity - old(size);
              && Contents() == old(Contents()) + source[..m]
              && t == if old(size) < capacity then Finished(m, true)
                      else if !blocking then Finished(-1, true)
                      else if SomeOther(references, pid) then Repeat
                      else Finished(-1, false)
    {
      var space := capacity - size;
      if space > 0 {
        var n := if space >= length then length else space;
        CopyIn(n, source);
        assert source[..length][..n] == source[..n];
        return Finished(n, true);
      }
      if blocking {
        var other := HasReferenceFromOtherProcess(references, pid);
        return if other then Repeat else Finished(-1, false);
      }
      return Finished(-1, true);
    }

    // n bytes go to the ring from the write position on, in at most two pieces.
    method CopyIn(n: nat, source: array<Byte>)
      requires Valid() && size + n <= capacity && n <= source.Length && source != buffer
      modifies `write, `size, buffer
      ensures Valid() && Contents() == old(Contents()) + source[..n]
    {
      var spaceToEnd := capacity - write;
      PutBytes(n, source);
      write := if n > spaceToEnd then n - spaceToEnd else write + n;
      if write == capacity {
        write := 0;
      }
      size := size + n;
      RingAfterPut(old(buffer[..]), buffer[..], read, old(size), source[..n]);
    }

    method PutBytes(n: nat, source: array<Byte>)
      requires Valid() && n <= capacity && n <= source.Length && source != buffer
      modifies buffer
      ensures forall k :: 0 <= k < capacity ==>
                buffer[Slot(write, k, capacity)] ==
                if k < n then source[k] else old(buffer[..])[Slot(write, k, capacity)]
    {
      var spaceToEnd := capacity - write;
      if n > spaceToEnd {
        Copy(buffer, write, source, 0, spaceToEnd);
        Copy(buffer, 0, source, spaceToEnd, n - spaceToEnd);
      } else {
        Copy(buffer, write, source, 0, n);
      }
    }
  }

  /** A read request on a node whose pipe may be gone; the references are those of the pipe table. */
  method RequestReadFrom(
    pipe: Pipe?, length: nat, target: array<Byte>, blocking: bool, references: seq<Pid>, pid: Pid)
    returns (t: Transaction)
    requires length <= target.Length && (pipe != null ==> pipe.Valid() && target != pipe.buffer)
    modifies if pipe == null then {} else {pipe}, target
    ensures pipe == null ==> t == Finished(-1, false) && target[..] == old(target[..])
    ensures pipe != null ==> pipe.Valid() && pipe.Contents() == After(pipe.capacity, old(pipe.Contents()), Read(length))
    ensures pipe != null ==>
              var m := if length <= old(pipe.size) then length else old(pipe.size);
              && pipe.Contents() == old(pipe.Contents())[m..]
              && target[..m] == old(pipe.Contents())[..m] && target[m..] == old(target[..])[m..]
              && (t == Repeat <==> m == 0 && blocking && SomeOther(references, pid))
              && (t != Repeat ==> t == Finished(m, m > 0 || !blocking))
  {
    if pipe == null {
      return Finished(-1, false);
    }
    t := pipe.RequestRead(length, target, blocking, references, pid);
  }

  /** A write request on a node whose pipe may be gone. */
  method RequestWriteTo(
    pipe: Pipe?, length: nat, source: array<Byte>, blocking: bool, references: seq<Pid>, pid: Pid)
    returns (t: Transaction)
    requires length <= source.Length && (pipe != null ==> pipe.Valid() && source != pipe.buffer)
    modifies if pipe == null then {} else {pipe, pipe.buffer}
    ensures pipe == null ==> t == Finished(-1, false)
    ensures pipe != null ==>
              && pipe.Valid()
              && pipe.Contents() == After(pipe.capacity, old(pipe.Contents()), Write(source[..length]))
              && var m := if length <= pipe.capacity - old(pipe.size) then length else pipe.capacity - old(pipe.size);
                 && pipe.Contents() == old(pipe.Contents()) + source[..m]
                 && t == if old(pipe.size) < pipe.capacity then Finished(m, true)
                         else if !blocking then Finished(-1, true)
                         else if SomeOther(references, pid) then Repeat
                         else Finished(-1, false)
  {
    if pipe == null {
      return Finished(-1, false);
    }
    t := pipe.RequestWrite(length, source, blocking, references, pid);
  }

  // Places counted from the read position, counted from the write position.
  lemma SlotsFromWrite(read: int, size: int, capacity: int)
    requires 0 <= read < capacity && 0 <= size <= capacity
    ensures var write := Wrap(read + size, capacity);
            && (forall k :: 0 <= k < size ==> Slot(read, k, capacity) == Slot(write, capacity - size + k, capacity))
            && (forall k :: size <= k < capacity ==> Slot(read, k, capacity) == Slot(write, k - size, capacity))
  {
  }

  lemma RingAfterPut(b: seq<Byte>, b': seq<Byte>, read: int, size: int, xs: seq<Byte>)
    requires |b'| == |b| && 0 <= read < |b| && 0 <= size && size + |xs| <= |b|
    requires var write := Wrap(read + size, |b|);
             forall k :: 0 <= k < |b| ==>
               b'[Slot(write, k, |b|)] == if k < |xs| then xs[k] else b[Slot(write, k, |b|)]
    ensures Ring(b', read, size + |xs|) == Ring(b, read, size) + xs
  {
    SlotsFromWrite(read, size, |b|);
    RingExtend(b, b', read, size, xs);
  }
}
