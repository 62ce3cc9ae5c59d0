/**
 * File descriptors and pipe references. Each process has a table of
 * descriptors; each pipe has a list with one entry for every descriptor that
 * refers to it, and is destroyed when that list becomes empty.
 */
module Descriptors {
  import opened Sets

  type Pid = int
  type Fd = int
  type NodeId = nat
  type PipeId = nat

  datatype Node = FileNode | PipeNode(pipe: PipeId) | OtherNode

  datatype Content = Content(offset: int, node: NodeId, flags: int)

  datatype Table = Table(next: Fd, descriptors: map<Fd, Content>)

  // Standard input, output and error are skipped.
  const EMPTY_TABLE := Table(3, map[])

  datatype Files = Files(nodes: map<NodeId, Node>, nextNode: NodeId,
                         pipes: map<PipeId, seq<Pid>>, nextPipe: PipeId,
                         tables: map<Pid, Table>)

  // A table comes into being, empty, when a process is first asked for it.
  function TableOf(f: Files, pid: Pid): Table {
    if pid in f.tables then f.tables[pid] else EMPTY_TABLE
  }

  function Descs(f: Files, pid: Pid): map<Fd, Content> { TableOf(f, pid).descriptors }

  function Refs(f: Files, p: PipeId): seq<Pid> { if p in f.pipes then f.pipes[p] else [] }

  predicate RefersTo(nodes: map<NodeId, Node>, c: Content, p: PipeId) {
    c.node in nodes && nodes[c.node] == PipeNode(p)
  }

  predicate NamesPipe(f: Files, pid: Pid, fd: Fd) {
    fd in Descs(f, pid) && Descs(f, pid)[fd].node in f.nodes && f.nodes[Descs(f, pid)[fd].node].PipeNode?
  }

  // The descriptors of a process for a pipe.
  ghost function HoldingIn(nodes: map<NodeId, Node>, ds: map<Fd, Content>, p: PipeId): set<Fd> {
    set fd | fd in ds && RefersTo(nodes, ds[fd], p)
  }

  ghost function Holding(f: Files, pid: Pid, p: PipeId): set<Fd> { HoldingIn(f.nodes, Descs(f, pid), p) }

  ghost predicate AgreeOn(f: Files, pid: Pid, p: PipeId) {
    multiset(Refs(f, p))[pid] == |Holding(f, pid, p)|
  }

  /** The references a process holds on a pipe are its descriptors for that pipe. */
  ghost predicate Agreement(f: Files) {
    forall pid, p :: AgreeOn(f, pid, p)
  }

  // Every descriptor is for a file or a pipe, and pipes live while they are referred to.
  ghost predicate Sound(f: Files) {
    DescriptorsSound(f) && NodesSound(f) && forall p :: p in f.pipes ==> f.pipes[p] != []
  }

  predicate Openable(nodes: map<NodeId, Node>, n: NodeId) { n in nodes && !nodes[n].OtherNode? }

  ghost predicate TableSound(nodes: map<NodeId, Node>, ds: map<Fd, Content>) {
    forall fd :: fd in ds ==> Openable(nodes, ds[fd].node)
  }

  ghost predicate DescriptorsSound(f: Files) { forall pid :: TableSound(f.nodes, Descs(f, pid)) }

  ghost predicate NodesSound(f: Files) {
    && (forall n :: n in f.nodes ==> n < f.nextNode && (f.nodes[n].PipeNode? ==> f.nodes[n].pipe < f.nextPipe))
    && (forall p :: p in f.pipes ==> p < f.nextPipe)
  }

  ghost predicate NumbersFrom(t: Table) { 3 <= t.next && -1 !in t.descriptors }

  ghost predicate FreshFrom(t: Table) {
    NumbersFrom(t) && forall fd :: fd in t.descriptors ==> fd < t.next
  }

  // Numbers still to be handed out are unused.
  ghost predicate Fresh(f: Files) { forall pid :: FreshFrom(TableOf(f, pid)) }

  ghost predicate Good(f: Files) { Agreement(f) && Sound(f) && Fresh(f) }

  // What is left when numbers still to be handed out may be in use.
  ghost predicate Lasting(f: Files) { Agreement(f) && Sound(f) && forall pid :: NumbersFrom(TableOf(f, pid)) }

  lemma GoodIsLasting(f: Files)
    requires Good(f)
    ensures Lasting(f)
  {
    forall pid ensures NumbersFrom(TableOf(f, pid)) {
      assert FreshFrom(TableOf(f, pid));
    }
  }

  // ----- the tables -----

  function WithTable(f: Files, pid: Pid, t: Table): Files { f.(tables := f.tables[pid := t]) }

  // Number -1 asks for the next free one.
  function NumberFor(f: Files, pid: Pid, fd: Fd): Fd { if fd == -1 then TableOf(f, pid).next else fd }

  function Mapped(f: Files, pid: Pid, c: Content, fd: Fd): Files {
    var t := TableOf(f, pid);
    var next := if fd == -1 then t.next + 1 else t.next;
    WithTable(f, pid, Table(next, t.descriptors[NumberFor(f, pid, fd) := c]))
  }

  function Unmapped(f: Files, pid: Pid, fd: Fd): Files {
    var t := TableOf(f, pid);
    if fd in t.descriptors then WithTable(f, pid, t.(descriptors := t.descriptors - {fd})) else f
  }

  // ----- references -----

  function Referred(f: Files, p: PipeId, pid: Pid): Files {
    if p in f.pipes then f.(pipes := f.pipes[p := [pid] + f.pipes[p]]) else f
  }

  function Without(refs: seq<Pid>, pid: Pid): seq<Pid> {
    if refs == [] then [] else if refs[0] == pid then refs[1..] else [refs[0]] + Without(refs[1..], pid)
  }

  function Unreferred(f: Files, p: PipeId, pid: Pid): Files {
    if p !in f.pipes then f
    else
      var left := Without(f.pipes[p], pid);
      f.(pipes := if left == [] then f.pipes - {p} else f.pipes[p := left])
  }

  lemma {:induction false} WithoutCounts(refs: seq<Pid>, pid: Pid)
    ensures multiset(Without(refs, pid)) == multiset(refs) - multiset{pid}
    decreases |refs|
  {
    if refs != [] {
      assert refs == [refs[0]] + refs[1..];
      if refs[0] != pid {
        WithoutCounts(refs[1..], pid);
      }
    }
  }

  lemma UnreferredCounts(f: Files, p: PipeId, pid: Pid, q: PipeId)
    ensures multiset(Refs(Unreferred(f, p, pid), q)) ==
            if q == p then multiset(Refs(f, p)) - multiset{pid} else multiset(Refs(f, q))
  {
    WithoutCounts(Refs(f, p), pid);
  }

  // ----- opening and closing -----

  function MapFile(f: Files, pid: Pid, n: NodeId, flags: int, fd: Fd): (Files, Fd)
    requires n in f.nodes
  {
    var c := Content(0, n, flags);
    match f.nodes[n]
    case FileNode => (Mapped(f, pid, c, fd), NumberFor(f, pid, fd))
    case PipeNode(p) => (Mapped(Referred(f, p, pid), pid, c, fd), NumberFor(f, pid, fd))
    case OtherNode => (f, -1)
  }

  function UnmapFile(f: Files, pid: Pid, n: NodeId, fd: Fd): Files
    requires n in f.nodes
  {
    match f.nodes[n]
    case FileNode => Unmapped(f, pid, fd)
    case PipeNode(p) => Unmapped(Unreferred(f, p, pid), pid, fd)
    case OtherNode => f
  }

  // The pipe behind a node, if it is a pipe, still exists.
  predicate Alive(f: Files, n: NodeId) {
    n in f.nodes && (f.nodes[n].PipeNode? ==> f.nodes[n].pipe in f.pipes)
  }

  lemma HoldingAfterPut(nodes: map<NodeId, Node>, ds: map<Fd, Content>, fd: Fd, c: Content, p: PipeId)
    ensures HoldingIn(nodes, ds[fd := c], p) ==
            HoldingIn(nodes, ds, p) - {fd} + if RefersTo(nodes, c, p) then {fd} else {}
  {
  }

  lemma HoldingAfterRemove(nodes: map<NodeId, Node>, ds: map<Fd, Content>, fd: Fd, p: PipeId)
    ensures HoldingIn(nodes, ds - {fd}, p) == HoldingIn(nodes, ds, p) - {fd}
  {
  }

  /**
   * Opening a live node on a number keeps the agreement exactly when that number
   * does not name a pipe already: the overwritten descriptor's reference would be left behind.
   */
  lemma MapFileAgrees(f: Files, pid: Pid, n: NodeId, flags: int, fd: Fd)
    requires Agreement(f) && Alive(f, n) && !f.nodes[n].OtherNode?
    ensures Agreement(MapFile(f, pid, n, flags, fd).0) <==> !NamesPipe(f, pid, NumberFor(f, pid, fd))
  {
    var x := NumberFor(f, pid, fd);
    var g := MapFile(f, pid, n, flags, fd).0;
    forall q, p ensures q != pid ==> AgreeOn(g, q, p)
      ensures !NamesPipe(f, pid, x) ==> AgreeOn(g, q, p)
    {
      MapFileAt(f, pid, n, flags, fd, q, p);
    }
    if NamesPipe(f, pid, x) {
      var p := f.nodes[Descs(f, pid)[x].node].pipe;
      MapFileAt(f, pid, n, flags, fd, pid, p);
    }
  }

  lemma MapFileAt(f: Files, pid: Pid, n: NodeId, flags: int, fd: Fd, q: Pid, p: PipeId)
    requires Alive(f, n) && !f.nodes[n].OtherNode?
    ensures q != pid ==> (AgreeOn(MapFile(f, pid, n, flags, fd).0, q, p) <==> AgreeOn(f, q, p))
    ensures AgreeOn(f, pid, p) ==>
              (AgreeOn(MapFile(f, pid, n, flags, fd).0, pid, p) <==>
               NumberFor(f, pid, fd) !in Holding(f, pid, p))
  {
    var x := NumberFor(f, pid, fd);
    var c := Content(0, n, flags);
    MapFileTables(f, pid, n, flags, fd);
    MapFileRefs(f, pid, n, flags, fd, p);
    HoldingAfterPut(f.nodes, Descs(f, pid), x, c, p);
    PutCounts(Holding(f, pid, p), x, RefersTo(f.nodes, c, p));
  }

  lemma PutCounts(fds: set<Fd>, x: Fd, back: bool)
    ensures |fds - {x}| == |fds| - (if x in fds then 1 else 0)
    ensures |fds - {x} + if back then {x} else {}| ==
            |fds| - (if x in fds then 1 else 0) + if back then 1 else 0
  {
    if x !in fds {
      assert fds - {x} == fds;
    }
    if !back {
      assert fds - {x} + {} == fds - {x};
    }
  }

  // The number x, chosen by the caller or else the next one, names the node from its start; all else is as before.
  ghost predicate Opened(f: Files, g: Files, pid: Pid, n: NodeId, flags: int, fd: Fd, x: Fd) {
    && x == (if fd == -1 then TableOf(f, pid).next else fd)
    && g.nodes == f.nodes
    && (forall q :: q != pid ==> TableOf(g, q) == TableOf(f, q))
    && Descs(g, pid) == Descs(f, pid)[x := Content(0, n, flags)]
    && TableOf(g, pid).next == TableOf(f, pid).next + if fd == -1 then 1 else 0
  }

  /** Opening a file or a pipe gives out the number that was asked for, or the next one. */
  lemma MapFileTables(f: Files, pid: Pid, n: NodeId, flags: int, fd: Fd)
    requires n in f.nodes && !f.nodes[n].OtherNode?
    ensures Opened(f, MapFile(f, pid, n, flags, fd).0, pid, n, flags, fd, MapFile(f, pid, n, flags, fd).1)
    ensures MapFile(f, pid, n, flags, fd).1 == NumberFor(f, pid, fd)
  {
  }

  lemma MapFileRefs(f: Files, pid: Pid, n: NodeId, flags: int, fd: Fd, p: PipeId)
    requires Alive(f, n)
    ensures multiset(Refs(MapFile(f, pid, n, flags, fd).0, p)) ==
            multiset(Refs(f, p)) + if f.nodes[n] == PipeNode(p) then multiset{pid} else multiset{}
  {
  }

  // What closing does to a reference count and to a set of descriptors must be the same thing.
  lemma UnmapFileAt(f: Files, pid: Pid, n: NodeId, fd: Fd, q: Pid, p: PipeId)
    requires AgreeOn(f, q, p) && n in f.nodes && !f.nodes[n].OtherNode?
    ensures AgreeOn(UnmapFile(f, pid, n, fd), q, p) <==>
            (q == pid ==> (f.nodes[n] == PipeNode(p) && Holding(f, pid, p) != {} <==> fd in Holding(f, pid, p)))
  {
    UnmapFileTables(f, pid, n, fd);
    UnmapFileRefs(f, pid, n, fd, p);
    HoldingAfterRemove(f.nodes, Descs(f, pid), fd, p);
    PutCounts(Holding(f, pid, p), fd, false);
  }

  lemma UnmapFileTables(f: Files, pid: Pid, n: NodeId, fd: Fd)
    requires n in f.nodes && !f.nodes[n].OtherNode?
    ensures var g := UnmapFile(f, pid, n, fd);
      && g.nodes == f.nodes
      && (forall q :: q != pid ==> TableOf(g, q) == TableOf(f, q))
      && TableOf(g, pid).next == TableOf(f, pid).next
      && Descs(g, pid) == Descs(f, pid) - {fd}
  {
    if fd !in Descs(f, pid) {
      assert Descs(f, pid) - {fd} == Descs(f, pid);
    }
  }

  lemma UnmapFileRefs(f: Files, pid: Pid, n: NodeId, fd: Fd, p: PipeId)
    requires n in f.nodes
    ensures multiset(Refs(UnmapFile(f, pid, n, fd), p)) ==
            if f.nodes[n] == PipeNode(p) then multiset(Refs(f, p)) - multiset{pid} else multiset(Refs(f, p))
  {
    if f.nodes[n].PipeNode? {
      UnreferredCounts(f, f.nodes[n].pipe, pid, p);
      UnmappedRefs(Unreferred(f, f.nodes[n].pipe, pid), pid, fd, p);
    } else {
      UnmappedRefs(f, pid, fd, p);
    }
  }

  lemma UnmappedRefs(f: Files, pid: Pid, fd: Fd, p: PipeId)
    ensures Refs(Unmapped(f, pid, fd), p) == Refs(f, p)
  {
  }

  function Close(f: Files, pid: Pid, fd: Fd): Files {
    if fd in Descs(f, pid) && Descs(f, pid)[fd].node in f.nodes then UnmapFile(f, pid, Descs(f, pid)[fd].node, fd)
    else f
  }

  lemma CloseAgrees(f: Files, pid: Pid, fd: Fd)
    requires Agreement(f) && Sound(f)
    ensures Agreement(Close(f, pid, fd))
  {
    if fd in Descs(f, pid) {
      var n := Descs(f, pid)[fd].node;
      forall q, p ensures AgreeOn(Close(f, pid, fd), q, p) {
        assert AgreeOn(f, q, p);
        UnmapFileAt(f, pid, n, fd, q, p);
      }
    }
  }

  // ----- cloning -----

  datatype CloneStatus = Cloned(fd: Fd) | InvalidSource | Failed

  predicate InUse(f: Files, pid: Pid, fd: Fd) { fd != -1 && fd in Descs(f, pid) && Descs(f, pid)[fd].node in f.nodes }

  predicate HasSource(f: Files, pid: Pid, fd: Fd) { fd in Descs(f, pid) && Descs(f, pid)[fd].node in f.nodes }

  // The descriptor being replaced is closed under the source's process.
  function Vacated(f: Files, sourcePid: Pid, targetFd: Fd, targetPid: Pid): Files {
    if InUse(f, targetPid, targetFd) then UnmapFile(f, sourcePid, Descs(f, targetPid)[targetFd].node, targetFd) else f
  }

  // The source's content must outlive the closing of the target.
  predicate SourceSurvives(f: Files, sourceFd: Fd, targetFd: Fd, targetPid: Pid) {
    InUse(f, targetPid, targetFd) ==> sourceFd != targetFd
  }

  function CloneFd(f: Files, sourceFd: Fd, sourcePid: Pid, targetFd: Fd, targetPid: Pid): (Files, CloneStatus)
    requires SourceSurvives(f, sourceFd, targetFd, targetPid)
  {
    if !HasSource(f, sourcePid, sourceFd) then (f, InvalidSource)
    else
      var content := Descs(f, sourcePid)[sourceFd];
      var (g, created) := MapFile(Vacated(f, sourcePid, targetFd, targetPid), targetPid, content.node, 0, targetFd);
      if created == -1 || !HasSource(g, targetPid, created) then (g, Failed)
      else
        var t := TableOf(g, targetPid);
        (WithTable(g, targetPid, t.(descriptors := t.descriptors[created := content])), Cloned(created))
  }

  /**
   * What a caller can check: a number to be replaced, if it is used, is used by the same process
   * or for no pipe, and a number to be chosen automatically names no pipe.
   */
  predicate CloneIsSafe(f: Files, sourcePid: Pid, targetFd: Fd, targetPid: Pid) {
    && (InUse(f, targetPid, targetFd) && sourcePid != targetPid ==>
          !NamesPipe(f, targetPid, targetFd) && !NamesPipe(f, sourcePid, targetFd))
    && (targetFd == -1 ==> !NamesPipe(f, targetPid, TableOf(f, targetPid).next))
  }

  // What every table keeps, and enough to clone.
  ghost predicate Cloneable(f: Files, targetFd: Fd, targetPid: Pid) {
    Agreement(f) && Sound(f) && (targetFd == -1 ==> NumbersFrom(TableOf(f, targetPid)))
  }

  lemma HeldPipeIsAlive(f: Files, pid: Pid, fd: Fd)
    requires Agreement(f) && HasSource(f, pid, fd)
    ensures Alive(f, Descs(f, pid)[fd].node)
  {
    var n := f.nodes[Descs(f, pid)[fd].node];
    if n.PipeNode? {
      assert AgreeOn(f, pid, n.pipe);
      assert fd in Holding(f, pid, n.pipe);
    }
  }

  lemma VacatedKeepsSource(f: Files, sourceFd: Fd, sourcePid: Pid, targetFd: Fd, targetPid: Pid)
    requires Agreement(f) && Sound(f) && HasSource(f, sourcePid, sourceFd)
    requires SourceSurvives(f, sourceFd, targetFd, targetPid)
    ensures Alive(Vacated(f, sourcePid, targetFd, targetPid), Descs(f, sourcePid)[sourceFd].node)
    ensures HasSource(Vacated(f, sourcePid, targetFd, targetPid), sourcePid, sourceFd)
  {
    HeldPipeIsAlive(f, sourcePid, sourceFd);
    if InUse(f, targetPid, targetFd) {
      var n := Descs(f, targetPid)[targetFd].node;
      UnmapFileTables(f, sourcePid, n, targetFd);
      var m := f.nodes[Descs(f, sourcePid)[sourceFd].node];
      if m.PipeNode? {
        UnmapFileRefs(f, sourcePid, n, targetFd, m.pipe);
        if f.nodes[n] == m {
          TwoReferences(f, sourceFd, sourcePid, targetFd, targetPid, m.pipe);
        }
      }
    }
  }

  // Two descriptors for one pipe stand for two references, so one can go.
  lemma TwoReferences(f: Files, a: Fd, q: Pid, b: Fd, r: Pid, p: PipeId)
    requires AgreeOn(f, q, p) && AgreeOn(f, r, p) && a != b
    requires a in Holding(f, q, p) && b in Holding(f, r, p)
    ensures multiset(Refs(f, p)) - multiset{q} != multiset{}
  {
    if q == r {
      assert {a, b} <= Holding(f, q, p);
      SubsetSize({a, b}, Holding(f, q, p));
      assert (multiset(Refs(f, p)) - multiset{q})[q] > 0;
    } else {
      assert (multiset(Refs(f, p)) - multiset{q})[r] > 0;
    }
  }


  // Overwriting a descriptor with another one for the same node changes no count.
  lemma RewriteAgrees(f: Files, pid: Pid, fd: Fd, c: Content, q: Pid, p: PipeId)
    requires fd in Descs(f, pid) && Descs(f, pid)[fd].node == c.node
    ensures var t := TableOf(f, pid);
      AgreeOn(WithTable(f, pid, t.(descriptors := t.descriptors[fd := c])), q, p) <==> AgreeOn(f, q, p)
  {
    HoldingAfterPut(f.nodes, Descs(f, pid), fd, c, p);
    assert HoldingIn(f.nodes, Descs(f, pid)[fd := c], p) == HoldingIn(f.nodes, Descs(f, pid), p);
  }

  lemma CloneTables(f: Files, sourceFd: Fd, sourcePid: Pid, targetFd: Fd, targetPid: Pid)
    requires Cloneable(f, targetFd, targetPid) && HasSource(f, sourcePid, sourceFd)
    requires SourceSurvives(f, sourceFd, targetFd, targetPid)
    ensures var h := Vacated(f, sourcePid, targetFd, targetPid);
      var c := Descs(f, sourcePid)[sourceFd];
      var x := NumberFor(f, targetPid, targetFd);
      var (g, status) := CloneFd(f, sourceFd, sourcePid, targetFd, targetPid);
      && x == NumberFor(h, targetPid, targetFd)
      && status == Cloned(x)
      && g.nodes == f.nodes
      && Descs(g, targetPid) == Descs(h, targetPid)[x := c]
      && (forall q :: q != targetPid ==> TableOf(g, q) == TableOf(h, q))
      && TableOf(g, targetPid).next == TableOf(f, targetPid).next + if targetFd == -1 then 1 else 0
  {
    var h := Vacated(f, sourcePid, targetFd, targetPid);
    var n := Descs(f, sourcePid)[sourceFd].node;
    VacatedKeepsSource(f, sourceFd, sourcePid, targetFd, targetPid);
    VacatedTables(f, sourcePid, targetFd, targetPid);
    MapFileTables(h, targetPid, n, 0, targetFd);
  }

  lemma VacatedTables(f: Files, sourcePid: Pid, targetFd: Fd, targetPid: Pid)
    requires Sound(f)
    ensures var h := Vacated(f, sourcePid, targetFd, targetPid);
      && h.nodes == f.nodes
      && (forall q :: TableOf(h, q).next == TableOf(f, q).next)
      && (forall q :: q != sourcePid ==> TableOf(h, q) == TableOf(f, q))
      && Descs(h, sourcePid) ==
         if InUse(f, targetPid, targetFd) then Descs(f, sourcePid) - {targetFd} else Descs(f, sourcePid)
  {
    if InUse(f, targetPid, targetFd) {
      UnmapFileTables(f, sourcePid, Descs(f, targetPid)[targetFd].node, targetFd);
    }
  }

  lemma CloneAt(f: Files, sourceFd: Fd, sourcePid: Pid, targetFd: Fd, targetPid: Pid, q: Pid, p: PipeId)
    requires Cloneable(f, targetFd, targetPid) && HasSource(f, sourcePid, sourceFd)
    requires SourceSurvives(f, sourceFd, targetFd, targetPid)
    ensures var h := Vacated(f, sourcePid, targetFd, targetPid);
      var g := CloneFd(f, sourceFd, sourcePid, targetFd, targetPid).0;
      && (q != targetPid ==> (AgreeOn(g, q, p) <==> AgreeOn(h, q, p)))
      && (AgreeOn(h, targetPid, p) ==>
            (AgreeOn(g, targetPid, p) <==> NumberFor(f, targetPid, targetFd) !in Holding(h, targetPid, p)))
  {
    var h := Vacated(f, sourcePid, targetFd, targetPid);
    var c := Descs(f, sourcePid)[sourceFd];
    CloneTables(f, sourceFd, sourcePid, targetFd, targetPid);
    VacatedKeepsSource(f, sourceFd, sourcePid, targetFd, targetPid);
    var (m, x) := MapFile(h, targetPid, c.node, 0, targetFd);
    MapFileAt(h, targetPid, c.node, 0, targetFd, q, p);
    MapFileTables(h, targetPid, c.node, 0, targetFd);
    RewriteAgrees(m, targetPid, x, c, q, p);
    RewriteAgrees(m, targetPid, x, c, targetPid, p);
  }

  lemma VacatedAt(f: Files, sourcePid: Pid, targetFd: Fd, targetPid: Pid, q: Pid, p: PipeId)
    requires Agreement(f) && Sound(f)
    ensures AgreeOn(Vacated(f, sourcePid, targetFd, targetPid), q, p) <==>
            (q == sourcePid && sourcePid != targetPid && InUse(f, targetPid, targetFd) ==>
               (targetFd in Holding(f, targetPid, p) && Holding(f, sourcePid, p) != {} <==>
                targetFd in Holding(f, sourcePid, p)))
  {
    assert AgreeOn(f, q, p);
    if InUse(f, targetPid, targetFd) {
      UnmapFileAt(f, sourcePid, Descs(f, targetPid)[targetFd].node, targetFd, q, p);
    }
  }

  lemma SafeCloneAt(f: Files, sourceFd: Fd, sourcePid: Pid, targetFd: Fd, targetPid: Pid, q: Pid, p: PipeId)
    requires Cloneable(f, targetFd, targetPid) && HasSource(f, sourcePid, sourceFd)
    requires SourceSurvives(f, sourceFd, targetFd, targetPid) && CloneIsSafe(f, sourcePid, targetFd, targetPid)
    ensures AgreeOn(CloneFd(f, sourceFd, sourcePid, targetFd, targetPid).0, q, p)
  {
    CloneAt(f, sourceFd, sourcePid, targetFd, targetPid, q, p);
    VacatedAt(f, sourcePid, targetFd, targetPid, q, p);
    VacatedAt(f, sourcePid, targetFd, targetPid, targetPid, p);
    VacatedTables(f, sourcePid, targetFd, targetPid);
  }

  lemma UnsafeCloneBreaks(f: Files, sourceFd: Fd, sourcePid: Pid, targetFd: Fd, targetPid: Pid)
    requires Cloneable(f, targetFd, targetPid) && HasSource(f, sourcePid, sourceFd)
    requires SourceSurvives(f, sourceFd, targetFd, targetPid) && !CloneIsSafe(f, sourcePid, targetFd, targetPid)
    ensures !Agreement(CloneFd(f, sourceFd, sourcePid, targetFd, targetPid).0)
  {
    var x := NumberFor(f, targetPid, targetFd);
    var q := if NamesPipe(f, targetPid, x) then targetPid else sourcePid;
    var p := f.nodes[Descs(f, q)[x].node].pipe;
    CloneAt(f, sourceFd, sourcePid, targetFd, targetPid, q, p);
    VacatedAt(f, sourcePid, targetFd, targetPid, q, p);
    VacatedTables(f, sourcePid, targetFd, targetPid);
    assert x in Holding(f, q, p);
    assert !AgreeOn(CloneFd(f, sourceFd, sourcePid, targetFd, targetPid).0, q, p);
  }

  /** Cloning keeps the agreement exactly when the caller's check passes. */
  lemma CloneAgrees(f: Files, sourceFd: Fd, sourcePid: Pid, targetFd: Fd, targetPid: Pid)
    requires Cloneable(f, targetFd, targetPid) && HasSource(f, sourcePid, sourceFd)
    requires SourceSurvives(f, sourceFd, targetFd, targetPid)
    ensures Agreement(CloneFd(f, sourceFd, sourcePid, targetFd, targetPid).0) <==>
            CloneIsSafe(f, sourcePid, targetFd, targetPid)
  {
    if CloneIsSafe(f, sourcePid, targetFd, targetPid) {
      forall q, p ensures AgreeOn(CloneFd(f, sourceFd, sourcePid, targetFd, targetPid).0, q, p) {
        SafeCloneAt(f, sourceFd, sourcePid, targetFd, targetPid, q, p);
      }
    } else {
      UnsafeCloneBreaks(f, sourceFd, sourcePid, targetFd, targetPid);
    }
  }

  // ----- soundness and fresh numbers -----

  lemma MapFileSound(f: Files, pid: Pid, n: NodeId, flags: int, fd: Fd)
    requires DescriptorsSound(f) && NodesSound(f) && n in f.nodes
    requires forall p :: p in f.pipes && f.pipes[p] == [] ==> f.nodes[n] == PipeNode(p)
    ensures Sound(MapFile(f, pid, n, flags, fd).0)
  {
    if !f.nodes[n].OtherNode? {
      MapFileTables(f, pid, n, flags, fd);
      forall q ensures TableSound(f.nodes, Descs(MapFile(f, pid, n, flags, fd).0, q)) {
        assert TableSound(f.nodes, Descs(f, q));
      }
    }
  }

  lemma UnmapFileSound(f: Files, pid: Pid, n: NodeId, fd: Fd)
    requires Sound(f) && n in f.nodes
    ensures Sound(UnmapFile(f, pid, n, fd))
  {
    if !f.nodes[n].OtherNode? {
      UnmapFileTables(f, pid, n, fd);
      forall q ensures TableSound(f.nodes, Descs(UnmapFile(f, pid, n, fd), q)) {
        assert TableSound(f.nodes, Descs(f, q));
      }
    }
  }

  /** An explicit number keeps later automatic numbers unused exactly when it is below the next one. */
  lemma MapFileFresh(f: Files, pid: Pid, n: NodeId, flags: int, fd: Fd)
    requires Fresh(f) && n in f.nodes && !f.nodes[n].OtherNode?
    ensures Fresh(MapFile(f, pid, n, flags, fd).0) <==> fd < TableOf(f, pid).next
    ensures fd == -1 ==> MapFile(f, pid, n, flags, fd).1 !in Descs(f, pid)
  {
    var g := MapFile(f, pid, n, flags, fd).0;
    MapFileTables(f, pid, n, flags, fd);
    assert FreshFrom(TableOf(f, pid));
    if fd < TableOf(f, pid).next {
      forall q ensures FreshFrom(TableOf(g, q)) {
        assert FreshFrom(TableOf(f, q));
      }
    } else {
      assert fd in Descs(g, pid) && !FreshFrom(TableOf(g, pid));
    }
  }

  lemma UnmapFileFresh(f: Files, pid: Pid, n: NodeId, fd: Fd)
    requires Fresh(f) && n in f.nodes
    ensures Fresh(UnmapFile(f, pid, n, fd))
  {
    if !f.nodes[n].OtherNode? {
      UnmapFileTables(f, pid, n, fd);
      forall q ensures FreshFrom(TableOf(UnmapFile(f, pid, n, fd), q)) {
        assert FreshFrom(TableOf(f, q));
      }
    }
  }

  lemma CloneIsSound(f: Files, sourceFd: Fd, sourcePid: Pid, targetFd: Fd, targetPid: Pid)
    requires Cloneable(f, targetFd, targetPid) && SourceSurvives(f, sourceFd, targetFd, targetPid)
    ensures Sound(CloneFd(f, sourceFd, sourcePid, targetFd, targetPid).0)
  {
    if HasSource(f, sourcePid, sourceFd) {
      var h := Vacated(f, sourcePid, targetFd, targetPid);
      var g := CloneFd(f, sourceFd, sourcePid, targetFd, targetPid).0;
      if InUse(f, targetPid, targetFd) {
        UnmapFileSound(f, sourcePid, Descs(f, targetPid)[targetFd].node, targetFd);
      }
      CloneTables(f, sourceFd, sourcePid, targetFd, targetPid);
      VacatedTables(f, sourcePid, targetFd, targetPid);
      MapFileSound(h, targetPid, Descs(f, sourcePid)[sourceFd].node, 0, targetFd);
      RewriteIsSound(h, g, targetPid, NumberFor(f, targetPid, targetFd), Descs(f, sourcePid)[sourceFd]);
    }
  }

  lemma CloneIsGood(f: Files, sourceFd: Fd, sourcePid: Pid, targetFd: Fd, targetPid: Pid)
    requires Good(f) && SourceSurvives(f, sourceFd, targetFd, targetPid)
    requires CloneIsSafe(f, sourcePid, targetFd, targetPid) && targetFd < TableOf(f, targetPid).next
    ensures Good(CloneFd(f, sourceFd, sourcePid, targetFd, targetPid).0)
  {
    assert FreshFrom(TableOf(f, targetPid));
    CloneIsSound(f, sourceFd, sourcePid, targetFd, targetPid);
    if HasSource(f, sourcePid, sourceFd) {
      var g := CloneFd(f, sourceFd, sourcePid, targetFd, targetPid).0;
      CloneAgrees(f, sourceFd, sourcePid, targetFd, targetPid);
      CloneTables(f, sourceFd, sourcePid, targetFd, targetPid);
      VacatedTables(f, sourcePid, targetFd, targetPid);
      forall q ensures FreshFrom(TableOf(g, q)) {
        assert FreshFrom(TableOf(f, q));
      }
    }
  }

  lemma RewriteIsSound(h: Files, g: Files, pid: Pid, x: Fd, c: Content)
    requires Sound(h) && Openable(h.nodes, c.node) && g.nodes == h.nodes
    requires Descs(g, pid) == Descs(h, pid)[x := c] && forall q :: q != pid ==> TableOf(g, q) == TableOf(h, q)
    ensures DescriptorsSound(g)
  {
    forall q ensures TableSound(g.nodes, Descs(g, q)) {
      assert TableSound(h.nodes, Descs(h, q));
      assert q != pid ==> TableOf(g, q) == TableOf(h, q);
    }
  }

  // ----- pipes -----

  function NewPipe(f: Files): Files {
    f.(nodes := f.nodes[f.nextNode := PipeNode(f.nextPipe)], nextNode := f.nextNode + 1,
       pipes := f.pipes[f.nextPipe := []], nextPipe := f.nextPipe + 1)
  }

  // A new pipe with a writing and a reading descriptor.
  function MakePipe(f: Files, pid: Pid): (Files, Fd, Fd) {
    var (g, write) := MapFile(NewPipe(f), pid, f.nextNode, 0, -1);
    var (h, read) := MapFile(g, pid, f.nextNode, 0, -1);
    (h, write, read)
  }

  lemma HoldingWithNode(nodes: map<NodeId, Node>, n: NodeId, node: Node, ds: map<Fd, Content>, p: PipeId)
    requires TableSound(nodes, ds) && n !in nodes
    ensures HoldingIn(nodes[n := node], ds, p) == HoldingIn(nodes, ds, p)
  {
    forall fd | fd in ds ensures RefersTo(nodes[n := node], ds[fd], p) <==> RefersTo(nodes, ds[fd], p) {
      assert Openable(nodes, ds[fd].node);
    }
  }

  lemma NewPipeAgrees(f: Files)
    requires Agreement(f) && Sound(f)
    ensures Agreement(NewPipe(f)) && DescriptorsSound(NewPipe(f)) && NodesSound(NewPipe(f))
    ensures forall q :: TableOf(NewPipe(f), q) == TableOf(f, q)
    ensures Fresh(f) ==> Fresh(NewPipe(f))
  {
    var g := NewPipe(f);
    if Fresh(f) {
      forall q ensures FreshFrom(TableOf(g, q)) {
        assert FreshFrom(TableOf(f, q));
      }
    }
    forall q ensures TableSound(g.nodes, Descs(g, q)) {
      assert TableSound(f.nodes, Descs(f, q));
    }
    forall q, p ensures AgreeOn(g, q, p) {
      assert AgreeOn(f, q, p);
      assert TableSound(f.nodes, Descs(f, q));
      HoldingWithNode(f.nodes, f.nextNode, PipeNode(f.nextPipe), Descs(f, q), p);
      assert p == f.nextPipe ==> Holding(f, q, p) == {};
    }
  }

  /** A new pipe has two fresh descriptors, different from each other and from all others. */
  lemma MakePipeIsGood(f: Files, pid: Pid)
    requires Good(f)
    ensures var (g, write, read) := MakePipe(f, pid);
      && Good(g)
      && write != read && write !in Descs(f, pid) && read !in Descs(f, pid)
      && Holding(g, pid, f.nextPipe) == {write, read}
      && Refs(g, f.nextPipe) == [pid, pid] && Refs(f, f.nextPipe) == []
  {
    var f1 := NewPipe(f);
    var n := f.nextNode;
    NewPipeAgrees(f);
    var (f2, write) := MapFile(f1, pid, n, 0, -1);
    MapFileAgrees(f1, pid, n, 0, -1);
    MapFileSound(f1, pid, n, 0, -1);
    MapFileFresh(f1, pid, n, 0, -1);
    MapFileTables(f1, pid, n, 0, -1);
    var (f3, read) := MapFile(f2, pid, n, 0, -1);
    MapFileAgrees(f2, pid, n, 0, -1);
    MapFileSound(f2, pid, n, 0, -1);
    MapFileFresh(f2, pid, n, 0, -1);
    MapFileTables(f2, pid, n, 0, -1);
    assert AgreeOn(f1, pid, f.nextPipe);
    HoldingAfterPut(f1.nodes, Descs(f1, pid), write, Content(0, n, 0), f.nextPipe);
    HoldingAfterPut(f1.nodes, Descs(f2, pid), read, Content(0, n, 0), f.nextPipe);
  }

  /** A new pipe keeps the agreement if and only if neither of the two numbers it takes names a pipe. */
  lemma MakePipeAgrees(f: Files, pid: Pid)
    requires Lasting(f)
    ensures var (g, write, read) := MakePipe(f, pid);
      && write == TableOf(f, pid).next && read == write + 1
      && (Agreement(g) <==> !NamesPipe(f, pid, write) && !NamesPipe(f, pid, read))
  {
    var x, f1 := TableOf(f, pid).next, NewPipe(f);
    NewPipeAgrees(f);
    MapFileAgrees(f1, pid, f.nextNode, 0, -1);
    var f2 := MapFile(f1, pid, f.nextNode, 0, -1).0;
    MapFileTables(f1, pid, f.nextNode, 0, -1);
    assert TableSound(f.nodes, Descs(f, pid));
    assert forall fd :: NamesPipe(f1, pid, fd) <==> NamesPipe(f, pid, fd);
    if !NamesPipe(f, pid, x) {
      MapFileAgrees(f2, pid, f.nextNode, 0, -1);
    } else {
      OverwrittenPipe(f, pid);
    }
  }

  // The reference of an overwritten pipe is left behind, whatever the second number does.
  lemma OverwrittenPipe(f: Files, pid: Pid)
    requires Lasting(f) && NamesPipe(f, pid, TableOf(f, pid).next)
    ensures !Agreement(MakePipe(f, pid).0)
  {
    var x, f1, n := TableOf(f, pid).next, NewPipe(f), f.nextNode;
    var p := f.nodes[Descs(f, pid)[x].node].pipe;
    NewPipeAgrees(f);
    var f2 := MapFile(f1, pid, n, 0, -1).0;
    var f3 := MapFile(f2, pid, n, 0, -1).0;
    MapFileTables(f1, pid, n, 0, -1);
    MapFileTables(f2, pid, n, 0, -1);
    assert Refs(f3, p) == Refs(f1, p) && AgreeOn(f1, pid, p);
    HoldingAfterPut(f1.nodes, Descs(f1, pid), x, Content(0, n, 0), p);
    HoldingAfterPut(f1.nodes, Descs(f2, pid), x + 1, Content(0, n, 0), p);
    assert x in Holding(f1, pid, p) && Holding(f3, pid, p) == Holding(f1, pid, p) - {x} - {x + 1};
    PutCounts(Holding(f1, pid, p), x, false);
    PutCounts(Holding(f1, pid, p) - {x}, x + 1, false);
    assert !AgreeOn(f3, pid, p);
  }

  /** A pipe exists exactly while some process has a descriptor for it. */
  lemma PipeLivesWhileHeld(f: Files, p: PipeId)
    requires Agreement(f) && Sound(f)
    ensures p in f.pipes <==> exists pid :: Holding(f, pid, p) != {}
  {
    if p in f.pipes {
      var pid := f.pipes[p][0];
      assert AgreeOn(f, pid, p);
      assert pid in multiset(f.pipes[p]);
      assert Holding(f, pid, p) != {};
    } else {
      forall pid ensures Holding(f, pid, p) == {} {
        assert AgreeOn(f, pid, p);
      }
    }
  }

  // ----- fork -----

  // Every descriptor of the source, in the order the table's iterator meets them.
  function Forked(f: Files, fds: seq<Fd>, source: Pid, fork: Pid): Files
    requires forall fd :: fd in fds ==> fd !in Descs(f, fork)
    requires forall i, j :: 0 <= i < j < |fds| ==> fds[i] != fds[j]
    requires -1 !in fds && Cloneable(f, 0, 0)
    decreases |fds|
  {
    if fds == [] then f
    else
      var g := CloneFd(f, fds[0], source, fds[0], fork).0;
      assert forall fd :: fd in fds[1..] ==> fd !in Descs(g, fork) by { ForkStep(f, fds, source, fork); }
      assert Cloneable(g, 0, 0) by { ForkStep(f, fds, source, fork); }
      Forked(g, fds[1..], source, fork)
  }

  lemma ForkStep(f: Files, fds: seq<Fd>, source: Pid, fork: Pid)
    requires fds != [] && forall fd :: fd in fds ==> fd !in Descs(f, fork)
    requires forall i, j :: 0 <= i < j < |fds| ==> fds[i] != fds[j]
    requires -1 !in fds && Cloneable(f, 0, 0)
    ensures var g := CloneFd(f, fds[0], source, fds[0], fork).0;
      && Cloneable(g, 0, 0)
      && (forall q :: q != fork ==> TableOf(g, q) == TableOf(f, q))
      && TableOf(g, fork).next == TableOf(f, fork).next
      && Descs(g, fork) ==
         if HasSource(f, source, fds[0]) then Descs(f, fork)[fds[0] := Descs(f, source)[fds[0]]] else Descs(f, fork)
  {
    assert fds[0] in fds;
    CloneIsSound(f, fds[0], source, fds[0], fork);
    if HasSource(f, source, fds[0]) {
      CloneAgrees(f, fds[0], source, fds[0], fork);
      CloneTables(f, fds[0], source, fds[0], fork);
    }
  }

  // What is left to clone after the first i descriptors.
  ghost predicate Remaining(f: Files, fds: seq<Fd>, i: nat, source: Pid, fork: Pid, result: Files) {
    && i <= |fds|
    && Cloneable(f, 0, 0)
    && -1 !in fds
    && (forall j, k :: 0 <= j < k < |fds| ==> fds[j] != fds[k])
    && (forall fd :: fd in fds[i..] ==> fd !in Descs(f, fork))
    && Forked(f, fds[i..], source, fork) == result
  }

  lemma RemainingStep(f: Files, fds: seq<Fd>, i: nat, source: Pid, fork: Pid, result: Files)
    requires Remaining(f, fds, i, source, fork, result) && i < |fds|
    ensures SourceSurvives(f, fds[i], fds[i], fork)
    ensures Remaining(CloneFd(f, fds[i], source, fds[i], fork).0, fds, i + 1, source, fork, result)
  {
    assert fds[i..][0] == fds[i] && fds[i..][1..] == fds[i + 1..];
    ForkStep(f, fds[i..], source, fork);
  }

  ghost function Copied(ds: map<Fd, Content>, to: map<Fd, Content>, fds: seq<Fd>): map<Fd, Content>
    requires forall i :: 0 <= i < |fds| ==> fds[i] in ds
    decreases |fds|
  {
    if fds == [] then to else Copied(ds, to[fds[0] := ds[fds[0]]], fds[1..])
  }

  lemma {:induction false} CopiedContents(ds: map<Fd, Content>, to: map<Fd, Content>, fds: seq<Fd>)
    requires forall i :: 0 <= i < |fds| ==> fds[i] in ds
    ensures Copied(ds, to, fds).Keys == to.Keys + set fd | fd in fds
    ensures forall fd :: fd in Copied(ds, to, fds) ==>
              Copied(ds, to, fds)[fd] == if fd in fds then ds[fd] else to[fd]
    decreases |fds|
  {
    if fds != [] {
      assert fds == [fds[0]] + fds[1..];
      CopiedContents(ds, to[fds[0] := ds[fds[0]]], fds[1..]);
    }
  }

  lemma CopiedAll(ds: map<Fd, Content>, fds: seq<Fd>)
    requires forall fd :: fd in fds <==> fd in ds
    ensures (forall i :: 0 <= i < |fds| ==> fds[i] in ds) && Copied(ds, map[], fds) == ds
  {
    forall i | 0 <= i < |fds| ensures fds[i] in ds {
      var fd := fds[i];
      assert fd in fds;
    }
    CopiedContents(ds, map[], fds);
    var c := Copied(ds, map[], fds);
    forall fd ensures fd in c <==> fd in ds {
      assert fd in c.Keys <==> fd in fds;
    }
    assert c.Keys == ds.Keys;
    assert forall fd :: fd in c ==> fd in fds && c[fd] == ds[fd];
  }

  lemma {:induction false} ForkedTables(f: Files, fds: seq<Fd>, source: Pid, fork: Pid)
    requires source != fork && forall fd :: fd in fds ==> fd !in Descs(f, fork) && fd in Descs(f, source)
    requires forall i, j :: 0 <= i < j < |fds| ==> fds[i] != fds[j]
    requires -1 !in fds && Cloneable(f, 0, 0)
    ensures var g := Forked(f, fds, source, fork);
      && Agreement(g) && Sound(g)
      && (forall q :: q != fork ==> TableOf(g, q) == TableOf(f, q))
      && TableOf(g, fork).next == TableOf(f, fork).next
      && Descs(g, fork) == Copied(Descs(f, source), Descs(f, fork), fds)
    decreases |fds|
  {
    if fds != [] {
      var g := CloneFd(f, fds[0], source, fds[0], fork).0;
      assert TableSound(f.nodes, Descs(f, source));
      assert fds[0] in fds;
      ForkStep(f, fds, source, fork);
      assert TableOf(g, source) == TableOf(f, source);
      ForkedTables(g, fds[1..], source, fork);
    }
  }

  /**
   * A fork into a new process copies every descriptor and keeps the agreement. The
   * child's next number stays 3, so its automatic numbers are unused exactly when
   * the parent has no descriptor of 3 or more.
   */
  lemma ForkCopiesDescriptors(f: Files, fds: seq<Fd>, source: Pid, fork: Pid)
    requires Lasting(f) && Forkable(f, fds, source, fork)
    ensures -1 !in fds
    ensures var g := Forked(f, fds, source, fork);
      && Lasting(g)
      && Descs(g, fork) == Descs(g, source) == Descs(f, source)
      && (Fresh(f) ==> (Fresh(g) <==> forall fd :: fd in Descs(f, source) ==> fd < 3))
  {
    assert NumbersFrom(TableOf(f, source));
    ForkedTables(f, fds, source, fork);
    var g := Forked(f, fds, source, fork);
    assert TableOf(g, source) == TableOf(f, source);
    CopiedAll(Descs(f, source), fds);
    forall q ensures NumbersFrom(TableOf(g, q)) {
      assert NumbersFrom(TableOf(f, q));
    }
    if Fresh(f) {
      ForkedFresh(f, g, source, fork);
    }
  }

  // The child is new, and the sequence lists the source's descriptors, each once.
  ghost predicate Forkable(f: Files, fds: seq<Fd>, source: Pid, fork: Pid) {
    && source != fork && fork !in f.tables
    && (forall fd :: fd in fds <==> fd in Descs(f, source))
    && (forall i, j :: 0 <= i < j < |fds| ==> fds[i] != fds[j])
  }

  lemma ForkedFresh(f: Files, g: Files, source: Pid, fork: Pid)
    requires Fresh(f) && fork !in f.tables && Descs(g, fork) == Descs(f, source) && TableOf(g, fork).next == 3
    requires forall q :: q != fork ==> TableOf(g, q) == TableOf(f, q)
    ensures Fresh(g) <==> forall fd :: fd in Descs(f, source) ==> fd < 3
  {
    assert FreshFrom(TableOf(f, source));
    if forall fd :: fd in Descs(f, source) ==> fd < 3 {
      forall q ensures FreshFrom(TableOf(g, q)) {
        assert FreshFrom(TableOf(f, q));
      }
    } else {
      assert !FreshFrom(TableOf(g, fork));
    }
  }

  /** A process with a pipe forks: the child's next automatic number is the pipe's writing end. */
  lemma ForkReusesNumbers()
    ensures var f := MakePipe(BOOT, 1).0;
      && Good(f) && (forall fd :: fd in [3, 4] <==> fd in Descs(f, 1))
      && var g := Forked(f, [3, 4], 1, 2);
      && NamesPipe(g, 2, NumberFor(g, 2, -1)) && !Fresh(g)
  {
    BootIsGood();
    MakePipeIsGood(BOOT, 1);
    var f := MakePipe(BOOT, 1).0;
    MapFileTables(NewPipe(BOOT), 1, 0, 0, -1);
    MapFileTables(MapFile(NewPipe(BOOT), 1, 0, 0, -1).0, 1, 0, 0, -1);
    assert Descs(f, 1) == map[3 := Content(0, 0, 0), 4 := Content(0, 0, 0)];
    GoodIsLasting(f);
    ForkCopiesDescriptors(f, [3, 4], 1, 2);
    ForkedTables(f, [3, 4], 1, 2);
    assert !FreshFrom(TableOf(Forked(f, [3, 4], 1, 2), 2));
  }

  /** The child then clones a descriptor of its own: the pipe's writing end is overwritten and its reference stays. */
  lemma CloneAfterForkLeavesReference()
    ensures var f := MakePipe(BOOT, 1).0;
      && Good(f) && (forall fd :: fd in [3, 4] <==> fd in Descs(f, 1))
      && var g := Forked(f, [3, 4], 1, 2);
      && HasSource(g, 2, 4) && SourceSurvives(g, 4, -1, 2) && !Agreement(CloneFd(g, 4, 2, -1, 2).0)
  {
    ForkReusesNumbers();
    var f := MakePipe(BOOT, 1).0;
    var g := Forked(f, [3, 4], 1, 2);
    GoodIsLasting(f);
    ForkCopiesDescriptors(f, [3, 4], 1, 2);
    assert NumbersFrom(TableOf(g, 2)) && TableSound(g.nodes, Descs(g, 2));
    assert 4 in [3, 4];
    CloneAgrees(g, 4, 2, -1, 2);
  }

  // ----- runs -----

  datatype Op =
    | AddNode(directory: bool)
    | Open(pid: Pid, n: NodeId, flags: int, fd: Fd)
    | CloseFd(pid: Pid, fd: Fd)
    | Clone(sourceFd: Fd, sourcePid: Pid, targetFd: Fd, targetPid: Pid)
    | NewPipeFor(pid: Pid)

  // What callers must keep to, stated on the tables they find.
  predicate Allowed(f: Files, op: Op) {
    match op
    case AddNode(_) => true
    case Open(pid, n, _, fd) =>
      n in f.nodes ==> Alive(f, n) && fd < TableOf(f, pid).next && !NamesPipe(f, pid, fd)
    case CloseFd(_, _) => true
    case Clone(sourceFd, sourcePid, targetFd, targetPid) =>
      && SourceSurvives(f, sourceFd, targetFd, targetPid)
      && CloneIsSafe(f, sourcePid, targetFd, targetPid)
      && targetFd < TableOf(f, targetPid).next
    case NewPipeFor(_) => true
  }

  function Step(f: Files, op: Op): Files
    requires op.Clone? ==> SourceSurvives(f, op.sourceFd, op.targetFd, op.targetPid)
  {
    match op
    case AddNode(directory) =>
      f.(nodes := f.nodes[f.nextNode := if directory then OtherNode else FileNode], nextNode := f.nextNode + 1)
    case Open(pid, n, flags, fd) => if n in f.nodes then MapFile(f, pid, n, flags, fd).0 else f
    case CloseFd(pid, fd) => Close(f, pid, fd)
    case Clone(sourceFd, sourcePid, targetFd, targetPid) => CloneFd(f, sourceFd, sourcePid, targetFd, targetPid).0
    case NewPipeFor(pid) => MakePipe(f, pid).0
  }

  lemma AddNodeAgrees(f: Files, directory: bool)
    requires Agreement(f) && Sound(f)
    ensures var g := Step(f, AddNode(directory));
      && Agreement(g) && Sound(g)
      && (forall q :: TableOf(g, q) == TableOf(f, q))
      && (Fresh(f) ==> Fresh(g))
  {
    var g := Step(f, AddNode(directory));
    forall q ensures TableOf(g, q) == TableOf(f, q) && (Fresh(f) ==> FreshFrom(TableOf(g, q))) {
      assert Fresh(f) ==> FreshFrom(TableOf(f, q));
    }
    forall q ensures TableSound(g.nodes, Descs(g, q)) {
      assert TableSound(f.nodes, Descs(f, q));
    }
    forall q, p ensures AgreeOn(g, q, p) {
      assert AgreeOn(f, q, p);
      assert TableSound(f.nodes, Descs(f, q));
      HoldingWithNode(f.nodes, f.nextNode, g.nodes[f.nextNode], Descs(f, q), p);
    }
  }

  lemma StepIsGood(f: Files, op: Op)
    requires Good(f) && Allowed(f, op)
    ensures Good(Step(f, op))
  {
    match op
    case AddNode(directory) => AddNodeAgrees(f, directory);
    case Open(pid, n, flags, fd) =>
      if n in f.nodes && !f.nodes[n].OtherNode? {
        assert FreshFrom(TableOf(f, pid));
        MapFileAgrees(f, pid, n, flags, fd);
        MapFileSound(f, pid, n, flags, fd);
        MapFileFresh(f, pid, n, flags, fd);
      }
    case CloseFd(pid, fd) =>
      CloseAgrees(f, pid, fd);
      if fd in Descs(f, pid) {
        UnmapFileSound(f, pid, Descs(f, pid)[fd].node, fd);
        UnmapFileFresh(f, pid, Descs(f, pid)[fd].node, fd);
      }
    case Clone(sourceFd, sourcePid, targetFd, targetPid) =>
      CloneIsGood(f, sourceFd, sourcePid, targetFd, targetPid);
    case NewPipeFor(pid) => MakePipeIsGood(f, pid);
  }

  ghost predicate Runs(f: Files, ops: seq<Op>, g: Files)
    decreases |ops|
  {
    if ops == [] then g == f else Allowed(f, ops[0]) && Runs(Step(f, ops[0]), ops[1..], g)
  }

  const BOOT := Files(map[], 0, map[], 0, map[])

  /** In every run references and descriptors agree, and pipes live exactly while held. */
  lemma {:induction false} RunIsGood(f: Files, ops: seq<Op>, g: Files)
    requires Good(f) && Runs(f, ops, g)
    ensures Good(g)
    decreases |ops|
  {
    if ops != [] {
      StepIsGood(f, ops[0]);
      RunIsGood(Step(f, ops[0]), ops[1..], g);
    }
  }

  // ----- runs with forks -----

  datatype Event = Call(op: Op) | ForkProcess(source: Pid, fork: Pid, fds: seq<Fd>)

  // Numbers may be reused, as long as the number an operation takes does not name a pipe.
  ghost predicate Permitted(f: Files, ev: Event) {
    match ev
    case ForkProcess(source, fork, fds) => Forkable(f, fds, source, fork)
    case Call(AddNode(_)) => true
    case Call(Open(pid, n, _, fd)) => n in f.nodes ==> Alive(f, n) && !NamesPipe(f, pid, NumberFor(f, pid, fd))
    case Call(CloseFd(_, _)) => true
    case Call(Clone(sourceFd, sourcePid, targetFd, targetPid)) =>
      SourceSurvives(f, sourceFd, targetFd, targetPid) && CloneIsSafe(f, sourcePid, targetFd, targetPid)
    case Call(NewPipeFor(pid)) =>
      !NamesPipe(f, pid, TableOf(f, pid).next) && !NamesPipe(f, pid, TableOf(f, pid).next + 1)
  }

  ghost function After(f: Files, ev: Event): Files
    requires Lasting(f) && Permitted(f, ev)
  {
    match ev
    case Call(op) => Step(f, op)
    case ForkProcess(source, fork, fds) =>
      assert -1 !in fds by { ForkCopiesDescriptors(f, fds, source, fork); }
      Forked(f, fds, source, fork)
  }

  lemma MapFileLasts(f: Files, pid: Pid, n: NodeId, flags: int, fd: Fd)
    requires Agreement(f) && DescriptorsSound(f) && NodesSound(f) && Alive(f, n)
    requires forall p :: p in f.pipes && f.pipes[p] == [] ==> f.nodes[n] == PipeNode(p)
    requires (forall q :: NumbersFrom(TableOf(f, q))) && !NamesPipe(f, pid, NumberFor(f, pid, fd))
    ensures Lasting(MapFile(f, pid, n, flags, fd).0)
  {
    MapFileSound(f, pid, n, flags, fd);
    if !f.nodes[n].OtherNode? {
      MapFileAgrees(f, pid, n, flags, fd);
      MapFileTables(f, pid, n, flags, fd);
      assert NumbersFrom(TableOf(f, pid));
      forall q ensures NumbersFrom(TableOf(MapFile(f, pid, n, flags, fd).0, q)) {
        assert NumbersFrom(TableOf(f, q));
      }
    }
  }

  lemma CloseLasts(f: Files, pid: Pid, fd: Fd)
    requires Lasting(f)
    ensures Lasting(Close(f, pid, fd))
  {
    CloseAgrees(f, pid, fd);
    if fd in Descs(f, pid) {
      assert TableSound(f.nodes, Descs(f, pid));
      var n := Descs(f, pid)[fd].node;
      UnmapFileSound(f, pid, n, fd);
      UnmapFileTables(f, pid, n, fd);
      forall q ensures NumbersFrom(TableOf(Close(f, pid, fd), q)) {
        assert NumbersFrom(TableOf(f, q));
      }
    }
  }

  lemma CloseRemoves(f: Files, pid: Pid, fd: Fd)
    requires Sound(f)
    ensures fd !in Descs(Close(f, pid, fd), pid)
  {
    if fd in Descs(f, pid) {
      assert TableSound(f.nodes, Descs(f, pid));
      UnmapFileTables(f, pid, Descs(f, pid)[fd].node, fd);
    }
  }

  lemma CloneLasts(f: Files, sourceFd: Fd, sourcePid: Pid, targetFd: Fd, targetPid: Pid)
    requires Lasting(f) && Permitted(f, Call(Clone(sourceFd, sourcePid, targetFd, targetPid)))
    ensures Lasting(CloneFd(f, sourceFd, sourcePid, targetFd, targetPid).0)
  {
    assert NumbersFrom(TableOf(f, targetPid));
    CloneIsSound(f, sourceFd, sourcePid, targetFd, targetPid);
    if HasSource(f, sourcePid, sourceFd) {
      var g := CloneFd(f, sourceFd, sourcePid, targetFd, targetPid).0;
      CloneAgrees(f, sourceFd, sourcePid, targetFd, targetPid);
      CloneTables(f, sourceFd, sourcePid, targetFd, targetPid);
      VacatedTables(f, sourcePid, targetFd, targetPid);
      forall q ensures NumbersFrom(TableOf(g, q)) {
        assert NumbersFrom(TableOf(f, q));
      }
    }
  }

  lemma MakePipeLasts(f: Files, pid: Pid)
    requires Lasting(f) && Permitted(f, Call(NewPipeFor(pid)))
    ensures Lasting(MakePipe(f, pid).0)
  {
    NewPipeAgrees(f);
    var f1 := NewPipe(f);
    forall q ensures NumbersFrom(TableOf(f1, q)) {
      assert NumbersFrom(TableOf(f, q)) && TableOf(f1, q) == TableOf(f, q);
    }
    StillNoPipe(f, pid, TableOf(f, pid).next);
    StillNoPipe(f, pid, TableOf(f, pid).next + 1);
    MapFileLasts(f1, pid, f.nextNode, 0, -1);
    MapFileTables(f1, pid, f.nextNode, 0, -1);
    MapFileLasts(MapFile(f1, pid, f.nextNode, 0, -1).0, pid, f.nextNode, 0, -1);
  }

  lemma StillNoPipe(f: Files, pid: Pid, fd: Fd)
    requires Sound(f) && !NamesPipe(f, pid, fd)
    ensures !NamesPipe(NewPipe(f), pid, fd)
  {
    assert TableSound(f.nodes, Descs(f, pid));
  }

  lemma AfterLasts(f: Files, ev: Event)
    requires Lasting(f) && Permitted(f, ev)
    ensures Lasting(After(f, ev))
  {
    match ev
    case ForkProcess(source, fork, fds) => ForkCopiesDescriptors(f, fds, source, fork);
    case Call(AddNode(directory)) =>
      AddNodeAgrees(f, directory);
      forall q ensures NumbersFrom(TableOf(Step(f, AddNode(directory)), q)) {
        assert NumbersFrom(TableOf(f, q));
      }
    case Call(Open(pid, n, flags, fd)) =>
      if n in f.nodes {
        MapFileLasts(f, pid, n, flags, fd);
      }
    case Call(CloseFd(pid, fd)) => CloseLasts(f, pid, fd);
    case Call(Clone(sourceFd, sourcePid, targetFd, targetPid)) =>
      CloneLasts(f, sourceFd, sourcePid, targetFd, targetPid);
    case Call(NewPipeFor(pid)) => MakePipeLasts(f, pid);
  }

  ghost predicate RunsWithForks(f: Files, evs: seq<Event>, g: Files)
    requires Lasting(f)
    decreases |evs|
  {
    if evs == [] then g == f
    else Permitted(f, evs[0]) && (AfterLasts(f, evs[0]); RunsWithForks(After(f, evs[0]), evs[1..], g))
  }

  /** With forks too, references and descriptors agree and pipes live exactly while held. */
  lemma {:induction false} RunWithForksAgrees(f: Files, evs: seq<Event>, g: Files)
    requires Lasting(f) && RunsWithForks(f, evs, g)
    ensures Lasting(g)
    decreases |evs|
  {
    if evs != [] {
      AfterLasts(f, evs[0]);
      RunWithForksAgrees(After(f, evs[0]), evs[1..], g);
    }
  }

  /** Two processes with a pipe each: cloning onto a number of the other leaves a reference behind. */
  lemma CloneLeavesReference()
    ensures var f := MakePipe(MakePipe(BOOT, 1).0, 2).0;
      && Good(f) && HasSource(f, 1, 3) && SourceSurvives(f, 3, 4, 2)
      && !Agreement(CloneFd(f, 3, 1, 4, 2).0)
  {
    BootIsGood();
    var f := MakePipe(BOOT, 1).0;
    var g := MakePipe(f, 2).0;
    MakePipeIsGood(BOOT, 1);
    MakePipeIsGood(f, 2);
    MakePipeTables(BOOT, 1);
    MakePipeTables(f, 2);
    CloneAgrees(g, 3, 1, 4, 2);
  }

  // The two next numbers name a new pipe, and all else is as before.
  ghost predicate PipeOpened(f: Files, g: Files, pid: Pid, write: Fd, read: Fd) {
    var end := Content(0, f.nextNode, 0);
    && write == TableOf(f, pid).next && read == write + 1
    && g.nodes == f.nodes[f.nextNode := PipeNode(f.nextPipe)]
    && Descs(g, pid) == Descs(f, pid)[write := end][read := end]
    && forall q :: q != pid ==> TableOf(g, q) == TableOf(f, q)
  }

  /** Both ends of a new pipe are descriptors for it. */
  lemma MakePipeTables(f: Files, pid: Pid)
    ensures PipeOpened(f, MakePipe(f, pid).0, pid, MakePipe(f, pid).1, MakePipe(f, pid).2)
  {
    var f1 := NewPipe(f);
    MapFileTables(f1, pid, f.nextNode, 0, -1);
    MapFileTables(MapFile(f1, pid, f.nextNode, 0, -1).0, pid, f.nextNode, 0, -1);
  }

  lemma BootIsGood()
    ensures Good(BOOT)
  {
    forall q, p ensures AgreeOn(BOOT, q, p) {
      assert Holding(BOOT, q, p) == {};
    }
  }
}

/** The file system's tables as the kernel keeps them, updated in place. */
module OpenFiles {
  import opened Descriptors

  // The walk along the list that takes the first entry of a process out.
  method RemoveFirst(refs: seq<Pid>, pid: Pid) returns (left: seq<Pid>)
    ensures left == Without(refs, pid)
  {
    var i := 0;
    while i < |refs| && refs[i] != pid
      invariant i <= |refs|
      invariant Without(refs, pid) == refs[..i] + Without(refs[i..], pid)
    {
      WithoutStep(refs, i, pid);
      i := i + 1;
    }
    if i < |refs| {
      assert refs[i..][1..] == refs[i + 1..];
      return refs[..i] + refs[i + 1..];
    }
    assert refs[i..] == [];
    return refs[..i];
  }

  lemma WithoutStep(refs: seq<Pid>, i: nat, pid: Pid)
    requires i < |refs| && refs[i] != pid
    ensures refs[..i] + Without(refs[i..], pid) == refs[..i + 1] + Without(refs[i + 1..], pid)
  {
    assert refs[i..][1..] == refs[i + 1..];
    assert refs[..i + 1] == refs[..i] + [refs[i]];
  }

  class FileSystem {
    var nodes: map<NodeId, Node>
    var nextNode: NodeId
    var pipes: map<PipeId, seq<Pid>>
    var nextPipe: PipeId
    var tables: map<Pid, Table>

    ghost function State(): Files
      reads this
    {
      Files(nodes, nextNode, pipes, nextPipe, tables)
    }

    constructor ()
      ensures State() == BOOT && Good(State())
    {
      nodes, nextNode, pipes, nextPipe, tables := map[], 0, map[], 0, map[];
      BootIsGood();
    }

    method AddReference(p: PipeId, pid: Pid)
      modifies `pipes
      ensures State() == Referred(old(State()), p, pid)
      ensures forall q :: multiset(Refs(State(), q)) ==
                if q == p && p in old(pipes) then multiset(old(Refs(State(), q))) + multiset{pid}
                else multiset(old(Refs(State(), q)))
    {
      if p in pipes {
        pipes := pipes[p := [pid] + pipes[p]];
      }
    }

    // Takes the first entry of the process out of the list; an empty list ends the pipe.
    method RemoveReference(p: PipeId, pid: Pid)
      modifies `pipes
      ensures State() == Unreferred(old(State()), p, pid)
      ensures forall q :: multiset(Refs(State(), q)) ==
                if q == p then multiset(old(Refs(State(), q))) - multiset{pid} else multiset(old(Refs(State(), q)))
      ensures p in pipes ==> p in old(pipes) && pipes[p] != []
    {
      ghost var f := State();
      if p in pipes {
        var refs := RemoveFirst(pipes[p], pid);
        pipes := if refs == [] then pipes - {p} else pipes[p := refs];
      }
      forall q ensures multiset(Refs(State(), q)) ==
                       if q == p then multiset(Refs(f, q)) - multiset{pid} else multiset(Refs(f, q))
      {
        UnreferredCounts(f, p, pid, q);
      }
    }

    method Map(pid: Pid, c: Content, fd: Fd) returns (x: Fd)
      modifies `tables
      ensures State() == Mapped(old(State()), pid, c, fd)
      ensures x == NumberFor(old(State()), pid, fd)
    {
      var t := if pid in tables then tables[pid] else EMPTY_TABLE;
      x := fd;
      if fd == -1 {
        x := t.next;
        t := t.(next := t.next + 1);
      }
      tables := tables[pid := t.(descriptors := t.descriptors[x := c])];
    }

    method Unmap(pid: Pid, fd: Fd)
      modifies `tables
      ensures State() == Unmapped(old(State()), pid, fd)
    {
      if pid in tables && fd in tables[pid].descriptors {
        var t := tables[pid];
        tables := tables[pid := t.(descriptors := t.descriptors - {fd})];
      }
    }

    method OpenNode(pid: Pid, n: NodeId, flags: int, fd: Fd) returns (x: Fd)
      requires n in nodes
      modifies this
      ensures (State(), x) == MapFile(old(State()), pid, n, flags, fd)
    {
      match nodes[n]
      case FileNode =>
        x := Map(pid, Content(0, n, flags), fd);
      case PipeNode(p) =>
        AddReference(p, pid);
        x := Map(pid, Content(0, n, flags), fd);
      case OtherNode =>
        x := -1;
    }

    /** Opening keeps references and descriptors in agreement if and only if the number names no pipe. */
    method MapNode(pid: Pid, n: NodeId, flags: int, fd: Fd) returns (x: Fd)
      requires n in nodes
      modifies this
      ensures (State(), x) == MapFile(old(State()), pid, n, flags, fd)
      ensures if old(nodes)[n].OtherNode? then x == -1 && State() == old(State())
              else Opened(old(State()), State(), pid, n, flags, fd, x)
      ensures Agreement(old(State())) && Alive(old(State()), n) && !old(nodes)[n].OtherNode? ==>
                (Agreement(State()) <==> !NamesPipe(old(State()), pid, NumberFor(old(State()), pid, fd)))
    {
      ghost var f := State();
      if !f.nodes[n].OtherNode? {
        MapFileTables(f, pid, n, flags, fd);
      }
      if Agreement(f) && Alive(f, n) && !f.nodes[n].OtherNode? {
        MapFileAgrees(f, pid, n, flags, fd);
      }
      x := OpenNode(pid, n, flags, fd);
    }

    method UnmapNode(pid: Pid, n: NodeId, fd: Fd)
      requires n in nodes
      modifies this
      ensures State() == UnmapFile(old(State()), pid, n, fd)
    {
      match nodes[n]
      case FileNode =>
        Unmap(pid, fd);
      case PipeNode(p) =>
        RemoveReference(p, pid);
        Unmap(pid, fd);
      case OtherNode =>
    }

    method NodeForDescriptor(pid: Pid, fd: Fd) returns (found: bool, c: Content)
      ensures found <==> HasSource(State(), pid, fd)
      ensures found ==> c == Descs(State(), pid)[fd]
    {
      c := Content(0, 0, 0);
      found := pid in tables && fd in tables[pid].descriptors;
      if found {
        c := tables[pid].descriptors[fd];
        found := c.node in nodes;
      }
    }

    method CloneDescriptor(sourceFd: Fd, sourcePid: Pid, targetFd: Fd, targetPid: Pid) returns (status: CloneStatus)
      requires SourceSurvives(State(), sourceFd, targetFd, targetPid)
      modifies this
      ensures (State(), status) == CloneFd(old(State()), sourceFd, sourcePid, targetFd, targetPid)
      ensures Lasting(old(State())) && HasSource(old(State()), sourcePid, sourceFd) ==>
                && (Agreement(State()) <==> CloneIsSafe(old(State()), sourcePid, targetFd, targetPid))
                && status == Cloned(NumberFor(old(State()), targetPid, targetFd))
                && status.fd in Descs(State(), targetPid)
                && Descs(State(), targetPid)[status.fd] == Descs(old(State()), sourcePid)[sourceFd]
    {
      ghost var f := State();
      if Lasting(f) && HasSource(f, sourcePid, sourceFd) {
        assert NumbersFrom(TableOf(f, targetPid));
        CloneAgrees(f, sourceFd, sourcePid, targetFd, targetPid);
        CloneTables(f, sourceFd, sourcePid, targetFd, targetPid);
      }
      var found, content := NodeForDescriptor(sourcePid, sourceFd);
      if !found {
        return InvalidSource;
      }
      if targetFd != -1 {
        var occupied, replaced := NodeForDescriptor(targetPid, targetFd);
        if occupied {
          UnmapNode(sourcePid, replaced.node, targetFd);
        }
      }
      assert State() == Vacated(old(State()), sourcePid, targetFd, targetPid);
      var created := OpenNode(targetPid, content.node, 0, targetFd);
      if created == -1 {
        return Failed;
      }
      var valid, current := NodeForDescriptor(targetPid, created);
      if !valid {
        return Failed;
      }
      var t := tables[targetPid];
      tables := tables[targetPid := t.(descriptors := t.descriptors[created := content])];
      return Cloned(created);
    }

    // fds: the order in which the iterator meets the source's descriptors
    method ProcessForked(source: Pid, fork: Pid, fds: seq<Fd>)
      requires Lasting(State()) && Forkable(State(), fds, source, fork)
      modifies this
      ensures Lasting(State())
      ensures Descs(State(), fork) == Descs(State(), source) == Descs(old(State()), source)
    {
      ghost var f := State();
      ForkCopiesDescriptors(f, fds, source, fork);
      var i := 0;
      while i < |fds|
        invariant Remaining(State(), fds, i, source, fork, Forked(f, fds, source, fork))
      {
        RemainingStep(State(), fds, i, source, fork, Forked(f, fds, source, fork));
        var _ := CloneDescriptor(fds[i], source, fds[i], fork);
        i := i + 1;
      }
    }

    method OpenPipe(pid: Pid) returns (write: Fd, read: Fd)
      modifies this
      ensures (State(), write, read) == MakePipe(old(State()), pid)
    {
      var n := nextNode;
      nodes, nextNode := nodes[n := PipeNode(nextPipe)], nextNode + 1;
      pipes, nextPipe := pipes[nextPipe := []], nextPipe + 1;
      write := OpenNode(pid, n, 0, -1);
      read := OpenNode(pid, n, 0, -1);
    }

    /** A new pipe keeps references and descriptors in agreement if and only if its two numbers named no pipe. */
    method CreatePipe(pid: Pid) returns (write: Fd, read: Fd)
      modifies this
      ensures (State(), write, read) == MakePipe(old(State()), pid)
      ensures Good(old(State())) ==> Good(State()) && write != read
      ensures Lasting(old(State())) ==>
                (Agreement(State()) <==> !NamesPipe(old(State()), pid, write) && !NamesPipe(old(State()), pid, read))
      ensures PipeOpened(old(State()), State(), pid, write, read)
    {
      ghost var f := State();
      write, read := OpenPipe(pid);
      MakePipeTables(f, pid);
      if Good(f) {
        MakePipeIsGood(f, pid);
      }
      if Lasting(f) {
        MakePipeAgrees(f, pid);
      }
    }

    method CloseDescriptor(pid: Pid, fd: Fd)
      modifies this
      ensures State() == Close(old(State()), pid, fd)
      ensures Lasting(old(State())) ==> Lasting(State()) && fd !in Descs(State(), pid)
      ensures Lasting(old(State())) ==>
                && Descs(State(), pid) == Descs(old(State()), pid) - {fd}
                && forall q :: q != pid ==> TableOf(State(), q) == TableOf(old(State()), q)
    {
      ghost var f := State();
      if Lasting(f) {
        CloseLasts(f, pid, fd);
        CloseRemoves(f, pid, fd);
      }
      var found, c := NodeForDescriptor(pid, fd);
      if found {
        UnmapNode(pid, c.node, fd);
      }
    }
  }
}
