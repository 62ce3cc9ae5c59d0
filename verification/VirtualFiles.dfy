/** The virtual file system's node table and the operations that read and grow it. */
module VirtualFiles {
  import opened Options
  import opened Paths
  import opened FileTrees
  import opened Ramdisks
  import opened Discovery
  import opened DirectoryRefresh

  datatype Status = Successful | NotFound | Error

  class FileSystem {
    var tree: Tree
    var nextId: NodeId
    const disk: Disk

    ghost predicate Valid()
      reads this
    {
      Mirrored(tree, disk) && Newest(tree, nextId)
    }

    // The nodes made at boot.
    constructor (disk: Disk)
      ensures Valid() && this.disk == disk && tree == BOOT_TREE && nextId == 4
    {
      this.disk := disk;
      tree, nextId := BOOT_TREE, 4;
      BootMirrors(disk);
    }

    method FindNamedChild(n: NodeId, name: string) returns (c: Option<NodeId>)
      requires TreeOk(tree) && n in tree
      ensures c == FindChild(tree, n, name)
    {
      assert NodeOk(tree, n);
      var cs := tree[n].children;
      var i := 0;
      while i < |cs|
        invariant i <= |cs|
        invariant FirstNamed(tree, cs[i..], name) == FirstNamed(tree, cs, name)
      {
        assert cs[i..][0] == cs[i] && cs[i..][1..] == cs[i + 1..];
        if tree[cs[i]].name == Some(name) {
          return Some(cs[i]);
        }
        i := i + 1;
      }
      return None;
    }

    /** Scans the path name by name and follows the tree from the root. */
    method FindExisting(path: string) returns (parent: NodeId, child: Option<NodeId>, name: string)
      requires TreeOk(tree)
      ensures Located(parent, child, name) == Find(tree, ROOT, Components(path))
    {
      var pos := 0;
      parent := ROOT;
      assert path[0..] == path;
      while true
        invariant pos <= |path| && parent in tree
        invariant Find(tree, parent, Components(path[pos..])) == Find(tree, ROOT, Components(path))
        decreases |path| - pos
      {
        ghost var before := path[pos..];
        pos := SkipSlashes(path, pos);
        ghost var rest := path[pos..];
        assert rest == Skip(before);
        name, pos := ReadName(path, pos);
        if name == "" {
          child := Some(parent);
          return;
        }
        assert Components(before) == [name] + Components(path[pos..]);
        assert NodeOk(tree, parent);
        if name == ".." {
          if tree[parent].parent.Some? {
            parent := tree[parent].parent.value;
          }
        } else if name == "." {
        } else {
          child := FindNamedChild(parent, name);
          if child.None? {
            return;
          }
          parent := child.value;
        }
      }
    }

    method GetDelegate(n: NodeId) returns (d: Option<Delegate>)
      requires TreeOk(tree) && n in tree
      ensures d == DelegateOf(tree, n)
      decreases n
    {
      assert NodeOk(tree, n);
      if tree[n].delegate.Some? {
        d := tree[n].delegate;
      } else if tree[n].parent.Some? {
        d := GetDelegate(tree[n].parent.value);
      } else {
        d := None;
      }
    }

    /**
     * Writes the path of a node into the buffer, from right to left, and returns its
     * length. It stays within the buffer if and only if path and terminator fit.
     */
    method GetRealPathToNode(n: NodeId, out: array<char>) returns (inBounds: bool, length: nat)
      requires TreeOk(tree) && n in tree
      modifies out
      ensures inBounds <==> |PathFrom(tree, n, "")| + 2 <= out.Length
      ensures inBounds ==> length < out.Length && out[..length] == RealPath(tree, n) && out[length] == '\0'
    {
      var current := Some(n);
      var absLen := 0;
      length := 0;
      while current.Some?
        invariant absLen <= PATH_MAX && absLen <= out.Length
        invariant current.Some? ==> current.value in tree
        invariant PathFrom(tree, n, "") ==
                  if current.Some? then PathFrom(tree, current.value, out[..absLen]) else out[..absLen]
        decreases if current.Some? then current.value + 1 else 0
      {
        var node := tree[current.value];
        assert NodeOk(tree, current.value);
        if node.kind.RootKind? || node.name.None? || absLen + |node.name.value| + 1 > PATH_MAX {
          break;
        }
        ghost var longer := node.name.value + "/" + out[..absLen];
        if node.parent.Some? {
          PathGrows(tree, node.parent.value, longer);
        }
        if absLen + |node.name.value| + 1 >= out.Length {
          return false, 0;
        }
        absLen := Prepend(out, absLen, node.name.value);
        assert out[..absLen] == longer;
        current := node.parent;
      }
      if absLen + 1 >= out.Length {
        return false, 0;
      }
      ghost var written := out[..absLen];
      Shift(out, absLen, 1);
      out[0] := '/';
      out[absLen + 1] := '\0';
      assert out[..absLen + 1] == "/" + written;
      return true, absLen + 1;
    }

    method AddNode(e: Entry, p: NodeId)
      requires p in tree && Newest(tree, nextId)
      modifies this
      ensures tree == Attached(old(tree), p, old(nextId), NodeFor(e)) && nextId == old(nextId) + 1
    {
      var node := NodeFor(e).(parent := Some(p));
      tree := tree[p := tree[p].(children := [nextId] + tree[p].children)];
      tree := tree[nextId := node];
      nextId := nextId + 1;
    }

    method CreateVfsNode(e: Entry, p: NodeId)
      requires Valid() && Undiscovered(tree, disk, p, e)
      modifies this
      ensures Valid() && tree == Attached(old(tree), p, old(nextId), NodeFor(e)) && nextId == old(nextId) + 1
      ensures forall n :: n in old(tree) ==> PlaceOf(tree, n) == PlaceOf(old(tree), n)
    {
      DiscoverKeepsMirror(tree, disk, p, nextId, e);
      AddNode(e, p);
    }

    // What the text of the folder's path with a slash and the name leads to, if it leads anywhere.
    method LookUpInFolder(folder: NodeId, name: string) returns (inBounds: bool, found: bool)
      requires TreeOk(tree) && folder in tree
      ensures inBounds <==> |RealPath(tree, folder)| + |name| + 2 <= PATH_MAX
      ensures inBounds ==> (found <==> LookedUp(tree, folder, name).Some?)
    {
      var absolute := new char[PATH_MAX];
      var written, length := GetRealPathToNode(folder, absolute);
      if !written {
        return false, false;
      }
      var appended := AppendName(absolute, length, name);
      if !appended {
        return false, false;
      }
      var _, child, _ := FindExisting(absolute[..length + 1 + |name|]);
      return true, child.Some?;
    }

    ghost function Table(): Nodes
      reads this
    {
      Nodes(tree, nextId)
    }

    method RefreshEntry(folder: NodeId, e: Entry) returns (inBounds: bool)
      requires Growing(Table(), folder)
      modifies this
      ensures inBounds <==> |old(RealPath(tree, folder))| + |e.name| + 2 <= PATH_MAX
      ensures Table() == if inBounds then RefreshedOne(old(Table()), folder, e) else old(Table())
    {
      var found;
      inBounds, found := LookUpInFolder(folder, e.name);
      if inBounds && !found {
        AddNode(e, folder);
      }
    }

    /**
     * Refreshing a folder does what the loop over its entries says, up to the first entry whose
     * path does not fit the buffer. A folder whose own path can be written stays true to the ramdisk.
     */
    method RequestDirectoryRefresh(folder: NodeId) returns (inBounds: bool, status: Status)
      requires Valid() && Visible(tree, folder) && ShowsDisk(PlaceOf(tree, folder))
      modifies this
      ensures var kids, length := old(Kids(disk, EntryOf(PlaceOf(tree, folder)))), |old(RealPath(tree, folder))|;
        && (inBounds <==> forall i :: 0 <= i < |kids| ==> length + |kids[i].name| + 2 <= PATH_MAX)
        && old(Growing(Table(), folder)) && Table() == Refreshed(old(Table()), folder, Fitting(length, kids))
      ensures inBounds ==> status == Successful
      ensures old(Refreshable(tree, disk, folder)) ==>
                Valid() && Refreshable(tree, disk, folder) && PlacesStay(old(tree), tree)
      ensures old(Refreshable(tree, disk, folder)) && inBounds ==>
                forall e :: e in disk && e.parent == EntryOf(PlaceOf(tree, folder)) && Plain(e.name) ==>
                  FindChild(tree, folder, e.name).Some?
    {
      DelegateOfPlace(tree, disk, folder);
      assert Mirrors(tree, disk, folder);
      var id := tree[folder].phys;
      var known := FindById(disk, id);
      if !known {
        return true, Error;
      }
      KidsAreAll(disk, id);
      ghost var start, kids := Table(), Kids(disk, id);
      inBounds := RefreshAll(folder, id);
      status := if inBounds then Successful else Error;
      if Refreshable(start.tree, disk, folder) {
        RefreshIsTrue(start, disk, folder, Fitting(|RealPath(start.tree, folder)|, kids));
      }
    }

    method RefreshAll(folder: NodeId, id: nat) returns (inBounds: bool)
      requires Growing(Table(), folder)
      modifies this
      ensures var fit := Fitting(|old(RealPath(tree, folder))|, Kids(disk, id));
        (inBounds <==> fit == Kids(disk, id)) && Table() == Refreshed(old(Table()), folder, fit)
    {
      ghost var start, kids := Table(), Kids(disk, id);
      var position := 0;
      var e := GetChildAt(disk, id, 0);
      assert kids[..0] == [];
      while e.Some?
        invariant e == if position < |kids| then Some(kids[position]) else None
        invariant Refreshing(start, Table(), folder, kids, position)
        decreases |kids| - position
      {
        RefreshingNext(start, Table(), folder, kids, position);
        inBounds := RefreshEntry(folder, e.value);
        if !inBounds {
          return false;
        }
        position := position + 1;
        e := GetChildAt(disk, id, position);
      }
      assert kids[..position] == kids;
      return true;
    }

    /** The ramdisk answers at once: it makes a node for the entry of that name, if there is one. */
    method RequestFromRamdisk(p: NodeId, name: string) returns (status: Status)
      requires Valid() && disk != []
      requires Visible(tree, p) && ShowsDisk(PlaceOf(tree, p)) && FindChild(tree, p, name).None?
      modifies this
      ensures Valid() && status != Error
      ensures status == Successful <==> Below(disk, PlaceOf(old(tree), p), name).Some?
      ensures status != Successful ==> tree == old(tree)
      ensures status == Successful ==>
                exists e: Entry :: e.name == name && tree == Attached(old(tree), p, old(nextId), NodeFor(e))
      ensures old(tree).Keys <= tree.Keys
      ensures forall n :: n in old(tree) ==> PlaceOf(tree, n) == PlaceOf(old(tree), n)
    {
      DelegateOfPlace(tree, disk, p);
      PlaceBelow(tree, disk, p, name);
      assert Mirrors(tree, disk, p);
      var id := if tree[p].kind == Mountpoint then 0 else tree[p].phys;
      assert id == EntryOf(PlaceOf(tree, p)) && HasId(disk, id);
      var known := FindById(disk, id);
      if !known {
        return NotFound;
      }
      EntryChildFound(disk, id, name);
      var e := FindEntry(disk, id, name);
      if e.None? {
        return NotFound;
      }
      CreateVfsNode(e.value, p);
      return Successful;
    }
  }

  // Moves the first length characters, and the one after them, to the right.
  method Shift(out: array<char>, length: nat, distance: nat)
    requires 0 < distance && length + distance < out.Length
    modifies out
    ensures out[distance..distance + length] == old(out[..length])
  {
    var i := length + 1;
    while i > 0
      invariant 0 <= i <= length + 1
      invariant forall k :: 0 <= k < i ==> out[k] == old(out[k])
      invariant forall k :: i + distance <= k <= length + distance ==> out[k] == old(out[k - distance])
    {
      i := i - 1;
      out[i + distance] := out[i];
    }
  }

  method Prepend(out: array<char>, length: nat, name: string) returns (longer: nat)
    requires length + |name| + 1 < out.Length
    modifies out
    ensures longer == length + |name| + 1
    ensures out[..longer] == name + "/" + old(out[..length])
  {
    longer := length + |name| + 1;
    Shift(out, length, |name| + 1);
    ghost var moved := out[|name| + 1..longer];
    out[|name|] := '/';
    for i := 0 to |name|
      invariant out[..i] == name[..i] && out[|name|] == '/' && out[|name| + 1..longer] == moved
    {
      out[i] := name[i];
      assert out[..i + 1] == out[..i] + [name[i]];
    }
    assert out[..longer] == out[..|name|] + [out[|name|]] + out[|name| + 1..longer];
  }

  method FindById(d: Disk, id: nat) returns (known: bool)
    ensures known <==> HasId(d, id)
  {
    if id == 0 {
      return true;
    }
    for i := 0 to |d|
      invariant forall j :: 0 <= j < i ==> d[j].id != id
    {
      if d[i].id == id {
        return true;
      }
    }
    return false;
  }

  lemma KidsAreAll(d: Disk, id: nat)
    ensures forall e :: e in Kids(d, id) <==> e in d && e.parent == id
  {
    forall e ensures e in Kids(d, id) <==> e in d && e.parent == id {
      KidsAre(d, id, e);
    }
  }

  // Appends a slash, a name and a terminator; within the buffer if and only if they fit.
  method AppendName(out: array<char>, length: nat, name: string) returns (inBounds: bool)
    requires length < out.Length
    modifies out
    ensures inBounds <==> length + |name| + 2 <= out.Length
    ensures inBounds ==> out[..length + 1 + |name|] == old(out[..length]) + "/" + name
    ensures inBounds ==> out[length + 1 + |name|] == '\0'
  {
    if length + |name| + 2 > out.Length {
      return false;
    }
    ghost var text := out[..length];
    out[length] := '/';
    for i := 0 to |name|
      invariant out[..length] == text && out[length] == '/' && out[length + 1..length + 1 + i] == name[..i]
    {
      out[length + 1 + i] := name[i];
      assert out[length + 1..length + 1 + i + 1] == out[length + 1..length + 1 + i] + [name[i]];
    }
    out[length + 1 + |name|] := '\0';
    assert out[..length + 1 + |name|] == out[..length] + [out[length]] + out[length + 1..length + 1 + |name|];
    return true;
  }

  method GetChildAt(d: Disk, parent: nat, index: nat) returns (e: Option<Entry>)
    ensures e == if index < |Kids(d, parent)| then Some(Kids(d, parent)[index]) else None
  {
    var i, pos := 0, 0;
    ghost var kids := Kids(d, parent);
    while i < |d|
      invariant i <= |d| && pos <= |kids| && pos <= index && kids[pos..] == Kids(d[i..], parent)
    {
      assert d[i..][0] == d[i] && d[i..][1..] == d[i + 1..];
      if d[i].parent == parent {
        assert kids[pos..][0] == d[i] && kids[pos..][1..] == kids[pos + 1..];
        if pos == index {
          return Some(d[i]);
        }
        pos := pos + 1;
      }
      i := i + 1;
    }
    return None;
  }

  method FindEntry(d: Disk, parent: nat, name: string) returns (e: Option<Entry>)
    requires d != []
    ensures e == EntryChild(d, parent, name)
  {
    var i := 0;
    while i < |d|
      invariant i <= |d| && EntryChild(d[i..], parent, name) == EntryChild(d, parent, name)
    {
      assert d[i..][0] == d[i] && d[i..][1..] == d[i + 1..];
      if d[i].parent == parent && d[i].name == name {
        return Some(d[i]);
      }
      i := i + 1;
    }
    return None;
  }

  method SkipSlashes(path: string, start: nat) returns (pos: nat)
    requires start <= |path|
    ensures start <= pos <= |path| && path[pos..] == Skip(path[start..])
  {
    pos := start;
    while pos < |path| && path[pos] == '/'
      invariant start <= pos <= |path| && Skip(path[pos..]) == Skip(path[start..])
    {
      assert path[pos..][1..] == path[pos + 1..];
      pos := pos + 1;
    }
  }

  method ReadName(path: string, start: nat) returns (name: string, pos: nat)
    requires start <= |path|
    ensures start <= pos <= |path| && (pos == start ==> name == "")
    ensures name == Name(path[start..]) && path[pos..] == Rest(path[start..])
  {
    pos := start;
    name := "";
    while pos < |path| && path[pos] != '/'
      invariant start <= pos <= |path| && (pos == start ==> name == "")
      invariant name + Name(path[pos..]) == Name(path[start..])
      invariant Rest(path[pos..]) == Rest(path[start..])
    {
      NameStep(path[pos..], name);
      assert path[pos..][1..] == path[pos + 1..];
      name := name + [path[pos]];
      pos := pos + 1;
    }
    assert name + "" == name;
  }

  lemma NameStep(p: string, name: string)
    requires p != "" && p[0] != '/'
    ensures name + Name(p) == (name + [p[0]]) + Name(p[1..]) && Rest(p) == Rest(p[1..])
  {
  }

  datatype StartStatus = Finished | Failed | Waiting

  datatype FinishStatus = Done | Repeat

  /**
   * A true answer about a path: the node it leads to, or the deepest existing
   * parent, an error standing for a path that stops in the pipe directory.
   */
  ghost predicate Answer(t: Tree, truth: Walked, status: Status, n: Option<NodeId>) {
    && TreeOk(t) && n.Some? && n.value in t
    && match status
       case Successful => truth == Found(PlaceOf(t, n.value))
       case NotFound => truth.Missing? && truth.place == PlaceOf(t, n.value) != Static(PIPE)
       case Error => truth.Missing? && truth.place == PlaceOf(t, n.value) == Static(PIPE)
  }

  // What a lookup from the root tells: the answer, or whom to ask for the next name.
  lemma LookupTells(t: Tree, d: Disk, names: seq<string>)
    requires Mirrored(t, d) && AllOrdinary(names)
    ensures var r := Find(t, ROOT, names);
      && Visible(t, r.parent)
      && (r.child.None? <==> Left(t, ROOT, names) > 0)
      && (r.child.Some? ==> Answer(t, Walk(d, Static(ROOT), names), Successful, r.child))
      && (r.child.None? ==>
            && DelegateOf(t, r.parent) == Some(DelegateFor(PlaceOf(t, r.parent)))
            && FindChild(t, r.parent, r.name).None?)
  {
    FindFollowsWalk(t, d, ROOT, names);
    LeftIsBounded(t, ROOT, names);
    var r := Find(t, ROOT, names);
    DelegateOfPlace(t, d, r.parent);
    if r.child.None? {
      MissingChild(t, ROOT, names);
    }
  }

  lemma NotBelow(t: Tree, d: Disk, names: seq<string>)
    requires Mirrored(t, d) && AllOrdinary(names) && Find(t, ROOT, names).child.None?
    requires var r := Find(t, ROOT, names); Below(d, PlaceOf(t, r.parent), r.name).None?
    ensures var r := Find(t, ROOT, names);
      var status := if PlaceOf(t, r.parent) == Static(PIPE) then Error else NotFound;
      Answer(t, Walk(d, Static(ROOT), names), status, Some(r.parent))
  {
    FindFollowsWalk(t, d, ROOT, names);
  }

  // Only the ramdisk has anything to discover.
  lemma NothingElsewhere(t: Tree, d: Disk, names: seq<string>)
    requires Mirrored(t, d) && AllOrdinary(names) && Find(t, ROOT, names).child.None?
    requires !ShowsDisk(PlaceOf(t, Find(t, ROOT, names).parent))
    ensures var r := Find(t, ROOT, names); Below(d, PlaceOf(t, r.parent), r.name).None?
  {
    LookupTells(t, d, names);
    var r := Find(t, ROOT, names);
    PlaceBelow(t, d, r.parent, r.name);
    DelegateOfPlace(t, d, r.parent);
  }

  /** A request to find, and where needed discover, the node of an absolute path. */
  class DiscoveryHandler {
    const fs: FileSystem
    const path: string
    var status: Status
    var node: Option<NodeId>
    var lastDiscoveredParent: Option<NodeId>
    var allNodesDiscovered: bool
    // requests made to delegates, and runs of the work that follows a discovery
    var requests: nat
    var afterworks: nat

    constructor (fs: FileSystem, path: string)
      ensures this.fs == fs && this.path == path
      ensures requests == 0 && afterworks == 0 && !allNodesDiscovered
    {
      this.fs, this.path := fs, path;
      status, node, lastDiscoveredParent, allNodesDiscovered := Error, None, None, false;
      requests, afterworks := 0, 0;
    }

    ghost function Names(): seq<string> { Components(path) }

    // What the ramdisk itself says about the path.
    ghost function Truth(): Walked { Walk(fs.disk, Static(ROOT), Names()) }

    ghost function NamesLeft(): nat
      reads fs
      requires fs.Valid()
    {
      Left(fs.tree, ROOT, Names())
    }

    // The answer agrees with the ramdisk.
    ghost predicate Answered()
      reads this, fs
      requires fs.Valid()
    {
      Answer(fs.tree, Truth(), status, if status == Successful then node else lastDiscoveredParent)
    }

    method StartTransaction() returns (r: StartStatus)
      requires fs.Valid() && fs.disk != [] && !allNodesDiscovered
      modifies this, fs
      ensures fs.Valid() && r != Failed
      ensures r == Finished ==> status == Successful && Answered() && afterworks == old(afterworks) + 1
      ensures r == Finished ==> allNodesDiscovered && requests == old(requests)
      ensures r == Waiting ==> !allNodesDiscovered && afterworks == old(afterworks)
      ensures r == Waiting ==> requests == old(requests) + 1 && old(NamesLeft()) > 0
      ensures r == Waiting && status == Successful ==> NamesLeft() < old(NamesLeft())
      ensures r == Waiting && status != Successful ==> Answered()
    {
      var parent, child, name := fs.FindExisting(path);
      ComponentsOfPath(path);
      LookupTells(fs.tree, fs.disk, Names());
      if child.Some? {
        status, node, allNodesDiscovered := Successful, child, true;
        afterworks := afterworks + 1;
        return Finished;
      }
      var delegate := fs.GetDelegate(parent);
      lastDiscoveredParent := Some(parent);
      requests := requests + 1;
      RequestDiscovery(delegate.value, parent, name);
      return Waiting;
    }

    method RequestDiscovery(delegate: Delegate, parent: NodeId, name: string)
      requires fs.Valid() && fs.disk != [] && Visible(fs.tree, parent)
      requires Find(fs.tree, ROOT, Names()) == Located(parent, None, name)
      requires delegate == DelegateFor(PlaceOf(fs.tree, parent)) && lastDiscoveredParent == Some(parent)
      modifies this`status, fs
      ensures fs.Valid()
      ensures status == Successful ==> NamesLeft() < old(NamesLeft())
      ensures status != Successful ==> Answered()
    {
      ghost var t, id := fs.tree, fs.nextId;
      ComponentsOfPath(path);
      LookupTells(t, fs.disk, Names());
      if delegate.RamdiskDelegate? {
        status := fs.RequestFromRamdisk(parent, name);
        if status == Successful {
          ghost var e: Entry :| e.name == name && fs.tree == Attached(t, parent, id, NodeFor(e));
          AttachedGoesFurther(t, parent, id, NodeFor(e), ROOT, Names());
        } else {
          NotBelow(t, fs.disk, Names());
        }
      } else {
        NothingElsewhere(t, fs.disk, Names());
        NotBelow(t, fs.disk, Names());
        status := if delegate.MountDelegate? then NotFound else Error;
      }
    }

    // Called by the waiter when a request is finished. A start that finds everything
    // discovered does the after-work itself, and it is done once more here.
    method FinishTransaction() returns (r: FinishStatus)
      requires fs.Valid() && fs.disk != [] && !allNodesDiscovered && (status != Successful ==> Answered())
      modifies this, fs
      ensures fs.Valid()
      ensures r == Repeat ==> !allNodesDiscovered && afterworks == old(afterworks)
      ensures r == Repeat ==> requests == old(requests) + 1 && old(status) == Successful && old(NamesLeft()) > 0
      ensures r == Repeat && status == Successful ==> NamesLeft() < old(NamesLeft())
      ensures r == Repeat && status != Successful ==> Answered()
      ensures r == Done ==> Answered() && requests == old(requests)
      ensures r == Done ==> afterworks == old(afterworks) + if status == Successful then 2 else 1
    {
      if status == Successful {
        var started := StartTransaction();
        if started == Failed {
          return Done;
        }
        if !allNodesDiscovered {
          return Repeat;
        }
      }
      afterworks := afterworks + 1;
      return Done;
    }

    /**
     * The transaction under its waiter: started once, then finished until no repeat is
     * asked for. It gives the ramdisk's own answer after at most one request per name,
     * and runs its after-work twice exactly when a path had to be discovered and was found.
     */
    method Discover()
      requires fs.Valid() && fs.disk != [] && !allNodesDiscovered && requests == 0 && afterworks == 0
      modifies this, fs
      ensures fs.Valid() && Answered()
      ensures requests <= |Names()|
      ensures afterworks == if status == Successful && requests > 0 then 2 else 1
    {
      LeftIsBounded(fs.tree, ROOT, Names());
      var started := StartTransaction();
      if started == Finished {
        return;
      }
      var repeat := true;
      while repeat
        invariant if repeat then InProgress() else Ended()
        decreases |Names()| - requests, repeat
      {
        repeat := CheckWaiting();
      }
    }

    // Between two visits of the waiter.
    ghost predicate InProgress()
      reads this, fs
    {
      && fs.Valid() && fs.disk != [] && !allNodesDiscovered && afterworks == 0
      && 0 < requests <= |Names()|
      && if status == Successful then requests + NamesLeft() <= |Names()| else Answered()
    }

    ghost predicate Ended()
      reads this, fs
    {
      && fs.Valid() && Answered()
      && 0 < requests <= |Names()|
      && afterworks == if status == Successful then 2 else 1
    }

    // The waiter: is the transaction still going on?
    method CheckWaiting() returns (repeat: bool)
      requires InProgress()
      modifies this, fs
      ensures if repeat then InProgress() && requests > old(requests) else Ended() && requests == old(requests)
    {
      var r := FinishTransaction();
      return r == Repeat;
    }
  }

  // Where a lookup stops, the child it wants is not there.
  lemma {:induction false} MissingChild(t: Tree, n: NodeId, names: seq<string>)
    requires TreeOk(t) && n in t && Find(t, n, names).child.None?
    ensures FindChild(t, Find(t, n, names).parent, Find(t, n, names).name).None?
    decreases |names|
  {
    assert NodeOk(t, n);
    if names[0] == ".." {
      MissingChild(t, Upwards(t, n), names[1..]);
    } else if names[0] == "." {
      MissingChild(t, n, names[1..]);
    } else if FindChild(t, n, names[0]).Some? {
      MissingChild(t, FindChild(t, n, names[0]).value, names[1..]);
    }
  }
}
