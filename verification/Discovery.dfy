/** The ramdisk: a list of entries, each naming its parent; the root has number 0. */
module Ramdisks {
  import opened Options
  import opened FileTrees

  datatype Entry = Entry(id: nat, parent: nat, name: string, file: bool)

  type Disk = seq<Entry>

  // The first entry of that name below a parent.
  function EntryChild(d: Disk, parent: nat, name: string): Option<Entry> {
    if d == [] then None
    else if d[0].parent == parent && d[0].name == name then Some(d[0])
    else EntryChild(d[1..], parent, name)
  }

  predicate HasId(d: Disk, id: nat) { id == 0 || exists i :: 0 <= i < |d| && d[i].id == id }

  // The entries below a parent, in the order of the list.
  function Kids(d: Disk, parent: nat): seq<Entry> {
    if d == [] then [] else (if d[0].parent == parent then [d[0]] else []) + Kids(d[1..], parent)
  }

  lemma {:induction false} KidsAre(d: Disk, parent: nat, e: Entry)
    ensures e in Kids(d, parent) <==> e in d && e.parent == parent
    decreases |d|
  {
    if d != [] {
      KidsAre(d[1..], parent, e);
      assert d == [d[0]] + d[1..];
    }
  }

  /** They keep the order of the list. */
  lemma {:induction false} KidsInOrder(a: Disk, b: Disk, parent: nat)
    ensures Kids(a + b, parent) == Kids(a, parent) + Kids(b, parent)
    decreases |a|
  {
    if a == [] {
      assert a + b == b;
    } else {
      assert (a + b)[1..] == a[1..] + b;
      KidsInOrder(a[1..], b, parent);
    }
  }

  /** An entry is found before those behind it. */
  lemma {:induction false} EarlierEntryWins(a: Disk, b: Disk, parent: nat, name: string)
    ensures EntryChild(a + b, parent, name) ==
            if EntryChild(a, parent, name).Some? then EntryChild(a, parent, name) else EntryChild(b, parent, name)
    decreases |a|
  {
    if a == [] {
      assert a + b == b;
    } else {
      assert (a + b)[1..] == a[1..] + b;
      EarlierEntryWins(a[1..], b, parent, name);
    }
  }

  lemma {:induction false} FirstKid(d: Disk, parent: nat, k: nat)
    requires k < |Kids(d, parent)|
    requires forall j :: 0 <= j < k ==> Kids(d, parent)[j].name != Kids(d, parent)[k].name
    ensures EntryChild(d, parent, Kids(d, parent)[k].name) == Some(Kids(d, parent)[k])
    decreases |d|
  {
    if d[0].parent == parent {
      assert Kids(d, parent)[1..] == Kids(d[1..], parent);
      if k > 0 {
        assert Kids(d, parent)[0] == d[0];
        FirstKid(d[1..], parent, k - 1);
      }
    } else {
      assert Kids(d, parent) == Kids(d[1..], parent);
      FirstKid(d[1..], parent, k);
    }
  }

  lemma {:induction false} EntryChildFound(d: Disk, parent: nat, name: string)
    ensures var r := EntryChild(d, parent, name);
      if r.Some? then r.value in d && r.value.parent == parent && r.value.name == name && HasId(d, r.value.id)
      else forall e :: e in d ==> e.parent != parent || e.name != name
    decreases |d|
  {
    if d != [] {
      EntryChildFound(d[1..], parent, name);
      assert forall e :: e in d <==> e == d[0] || e in d[1..];
      var r := EntryChild(d, parent, name);
      if r.Some? {
        var i :| 0 <= i < |d| && d[i] == r.value;
        assert d[i].id == r.value.id;
      }
    }
  }
}

/**
 * The virtual file system as a lazily filled cache of the ramdisk. Its root and
 * the node /mount/ramdisk both show the ramdisk's root; nodes come into being
 * when a path is first looked up.
 */
module Discovery {
  import opened Options
  import opened Paths
  import opened FileTrees
  import opened Ramdisks

  // ----- where a path leads, straight from the ramdisk -----

  const MOUNT: NodeId := 1
  const RAMDISK: NodeId := 2
  const PIPE: NodeId := 3

  // One of the nodes made at boot, or a chain of entry numbers below one of them.
  datatype Place = Static(n: NodeId) | OnDisk(base: NodeId, ids: seq<nat>)

  function BootChild(n: NodeId, name: string): Option<NodeId> {
    if n == ROOT && name == "mount" then Some(MOUNT)
    else if n == MOUNT && name == "ramdisk" then Some(RAMDISK)
    else if n == MOUNT && name == "pipe" then Some(PIPE)
    else None
  }

  function EntryOf(p: Place): nat {
    if p.OnDisk? && p.ids != [] then p.ids[|p.ids| - 1] else 0
  }

  predicate ShowsDisk(p: Place) { p.OnDisk? || p.n == ROOT || p.n == RAMDISK }

  function Extend(p: Place, id: nat): Place {
    match p
    case Static(n) => OnDisk(n, [id])
    case OnDisk(base, ids) => OnDisk(base, ids + [id])
  }

  // Mountpoints hide entries of their name.
  function Below(d: Disk, p: Place, name: string): Option<Place> {
    if p.Static? && BootChild(p.n, name).Some? then Some(Static(BootChild(p.n, name).value))
    else if !ShowsDisk(p) then None
    else
      var e := EntryChild(d, EntryOf(p), name);
      if e.Some? then Some(Extend(p, e.value.id)) else None
  }

  function Above(p: Place): Place {
    match p
    case Static(n) => Static(if n == RAMDISK || n == PIPE then MOUNT else ROOT)
    case OnDisk(base, ids) => if |ids| <= 1 then Static(base) else OnDisk(base, ids[..|ids| - 1])
  }

  datatype Walked = Found(place: Place) | Missing(place: Place, name: string)

  function Walk(d: Disk, p: Place, names: seq<string>): Walked
    decreases |names|
  {
    if names == [] then Found(p)
    else if names[0] == ".." then Walk(d, Above(p), names[1..])
    else if names[0] == "." then Walk(d, p, names[1..])
    else
      var q := Below(d, p, names[0]);
      if q.None? then Missing(p, names[0]) else Walk(d, q.value, names[1..])
  }

  // A place that the root leads to: below one of the boot nodes there is at least one entry.
  predicate PlaceOk(p: Place) { p.OnDisk? ==> p.ids != [] }

  /** Places stay so on every step. */
  lemma StepsStayOk(d: Disk, p: Place, name: string)
    requires PlaceOk(p)
    ensures PlaceOk(Above(p)) && (Below(d, p, name).Some? ==> PlaceOk(Below(d, p, name).value))
  {
  }

  /** On the ramdisk, too, going down by a name and up again is going nowhere, and above the root is the root. */
  lemma WalkUpUndoesDown(d: Disk, p: Place, x: string, rest: seq<string>)
    requires PlaceOk(p) && Plain(x)
    ensures Below(d, p, x).Some? ==> Walk(d, p, [x, ".."] + rest) == Walk(d, p, rest)
    ensures Walk(d, p, ["."] + rest) == Walk(d, p, rest)
    ensures Walk(d, Static(ROOT), [".."] + rest) == Walk(d, Static(ROOT), rest)
  {
    assert ([x, ".."] + rest)[1..] == [".."] + rest;
    assert ([".."] + rest)[1..] == rest && (["."] + rest)[1..] == rest;
    if Below(d, p, x).Some? {
      var q := Below(d, p, x).value;
      assert Above(q) == p;
    }
  }

  // The entries that can be found at a place: those of the ramdisk's root, or of the last entry on the way.
  predicate EntryAt(p: Place, e: Entry, name: string) {
    e.name == name && e.parent == if p.OnDisk? && p.ids != [] then p.ids[|p.ids| - 1] else 0
  }

  /** What lies below a place: the mountpoints made at boot, and elsewhere the entries of the ramdisk. */
  lemma BelowMeans(d: Disk, p: Place, x: string)
    ensures p == Static(ROOT) && x == "mount" ==> Below(d, p, x) == Some(Static(MOUNT))
    ensures p == Static(MOUNT) ==>
              Below(d, p, x) == if x == "ramdisk" then Some(Static(RAMDISK))
                                else if x == "pipe" then Some(Static(PIPE)) else None
    ensures p == Static(PIPE) ==> Below(d, p, x) == None
    ensures p.OnDisk? || p == Static(RAMDISK) || (p == Static(ROOT) && x != "mount") ==>
              && (Below(d, p, x).Some? <==> exists e :: e in d && EntryAt(p, e, x))
              && (Below(d, p, x).Some? ==>
                    exists e :: e in d && EntryAt(p, e, x) && Below(d, p, x).value == Extend(p, e.id))
  {
    EntryChildFound(d, EntryOf(p), x);
  }

  // ----- the cache -----

  ghost predicate BootPart(t: Tree) {
    && {ROOT, MOUNT, RAMDISK, PIPE} <= t.Keys
    && t[ROOT].(children := []) == Node(RootKind, 0, None, None, [], Some(RamdiskDelegate))
    && t[MOUNT].(children := []) == Node(Mountpoint, 0, Some("mount"), Some(ROOT), [], Some(MountDelegate))
    && t[RAMDISK].(children := []) == Node(Mountpoint, 0, Some("ramdisk"), Some(MOUNT), [], Some(RamdiskDelegate))
    && t[PIPE].(children := []) == Node(Mountpoint, 0, Some("pipe"), Some(MOUNT), [], Some(PipeDelegate))
  }

  ghost function PlaceOf(t: Tree, n: NodeId): Place
    requires TreeOk(t) && n in t
    decreases n
  {
    assert NodeOk(t, n);
    if n <= PIPE || t[n].parent.None? then Static(n) else Extend(PlaceOf(t, t[n].parent.value), t[n].phys)
  }

  // A node a lookup can end at.
  predicate Visible(t: Tree, n: NodeId) { n in t && (n <= PIPE || (t[n].name.Some? && '/' !in t[n].name.value)) }

  // A node that a path can name stands for the entry its parent and its name lead to,
  // any other named node for some entry of that name.
  ghost predicate Mirrors(t: Tree, d: Disk, n: NodeId)
    requires TreeOk(t) && n in t
  {
    assert NodeOk(t, n);
    n > PIPE && t[n].name.Some? ==>
      && t[n].delegate.None?
      && t[n].parent.Some? && Visible(t, t[n].parent.value)
      && var above := PlaceOf(t, t[n].parent.value);
      && Copies(d, above, t[n].name.value, t[n].phys, t[n].kind)
      && ('/' !in t[n].name.value ==> Stands(d, above, t[n].name.value, PlaceOf(t, n), t[n].phys, t[n].kind))
  }

  // There is an entry of that name, number and kind below the place.
  ghost predicate Copies(d: Disk, above: Place, name: string, id: nat, kind: Kind) {
    exists e :: e in d && e.parent == EntryOf(above) && e.name == name && e.id == id && kind == NodeFor(e).kind
  }

  // The entry a name leads to from a place is at that other place, with that number and kind.
  ghost predicate Stands(d: Disk, above: Place, name: string, place: Place, id: nat, kind: Kind) {
    && Below(d, above, name) == Some(place)
    && HasId(d, id)
    && var e := EntryChild(d, EntryOf(above), name);
    && e.Some? && e.value.id == id
    && kind == if e.value.file then FileKind else Folder
  }

  ghost predicate Mirrored(t: Tree, d: Disk) {
    TreeOk(t) && DistinctNames(t) && BootPart(t) && forall n :: n in t ==> Mirrors(t, d, n)
  }

  const BOOT_TREE: Tree := map[
    ROOT := Node(RootKind, 0, None, None, [MOUNT], Some(RamdiskDelegate)),
    MOUNT := Node(Mountpoint, 0, Some("mount"), Some(ROOT), [PIPE, RAMDISK], Some(MountDelegate)),
    RAMDISK := Node(Mountpoint, 0, Some("ramdisk"), Some(MOUNT), [], Some(RamdiskDelegate)),
    PIPE := Node(Mountpoint, 0, Some("pipe"), Some(MOUNT), [], Some(PipeDelegate))]

  lemma BootMirrors(d: Disk)
    ensures Mirrored(BOOT_TREE, d)
  {
    BootNodes();
    forall n, c, e | n in BOOT_TREE && c in BOOT_TREE[n].children && e in BOOT_TREE[n].children &&
                     Homonyms(BOOT_TREE, c, e)
      ensures c == e
    {
      assert "ramdisk"[0] != "pipe"[0];
    }
  }

  lemma BootNodes()
    ensures TreeOk(BOOT_TREE)
  {
    assert NodeOk(BOOT_TREE, ROOT) && NodeOk(BOOT_TREE, MOUNT);
    assert NodeOk(BOOT_TREE, RAMDISK) && NodeOk(BOOT_TREE, PIPE);
  }

  ghost function DelegateOf(t: Tree, n: NodeId): Option<Delegate>
    requires TreeOk(t) && n in t
    decreases n
  {
    assert NodeOk(t, n);
    if t[n].delegate.Some? then t[n].delegate
    else if t[n].parent.Some? then DelegateOf(t, t[n].parent.value)
    else None
  }

  ghost function DelegateFor(p: Place): Delegate {
    if ShowsDisk(p) then RamdiskDelegate else if p == Static(MOUNT) then MountDelegate else PipeDelegate
  }

  lemma {:induction false} DelegateOfPlace(t: Tree, d: Disk, n: NodeId)
    requires Mirrored(t, d) && Visible(t, n)
    ensures DelegateOf(t, n) == Some(DelegateFor(PlaceOf(t, n)))
    ensures n > PIPE ==> EntryOf(PlaceOf(t, n)) == t[n].phys && PlaceOf(t, n).OnDisk?
    decreases n
  {
    assert NodeOk(t, n) && Mirrors(t, d, n);
    if n > PIPE {
      DelegateOfPlace(t, d, t[n].parent.value);
    }
  }

  lemma PlaceUpwards(t: Tree, d: Disk, n: NodeId)
    requires Mirrored(t, d) && Visible(t, n)
    ensures Upwards(t, n) in t && Visible(t, Upwards(t, n)) && PlaceOf(t, Upwards(t, n)) == Above(PlaceOf(t, n))
  {
    assert NodeOk(t, n) && Mirrors(t, d, n);
    if n > PIPE {
      var p := t[n].parent.value;
      DelegateOfPlace(t, d, p);
      PlaceIsDeep(t, d, p);
    }
  }

  lemma PlaceIsDeep(t: Tree, d: Disk, n: NodeId)
    requires Mirrored(t, d) && Visible(t, n)
    ensures PlaceOf(t, n).OnDisk? ==> PlaceOf(t, n).ids != []
  {
    assert NodeOk(t, n);
  }

  lemma PlaceBelow(t: Tree, d: Disk, n: NodeId, name: string)
    requires Mirrored(t, d) && Visible(t, n)
    ensures var c := FindChild(t, n, name);
      c.Some? && '/' !in name ==> Visible(t, c.value) && Below(d, PlaceOf(t, n), name) == Some(PlaceOf(t, c.value))
    ensures FindChild(t, n, name).None? && n <= PIPE ==> BootChild(n, name).None?
  {
    assert NodeOk(t, n);
    var c := FindChild(t, n, name);
    if c.Some? {
      assert NodeOk(t, c.value) && Mirrors(t, d, c.value);
    } else {
      assert NodeOk(t, MOUNT) && NodeOk(t, RAMDISK) && NodeOk(t, PIPE);
    }
  }

  /** Looking up in the cache follows the walk on the ramdisk as far as the cache goes. */
  lemma {:induction false} FindFollowsWalk(t: Tree, d: Disk, n: NodeId, names: seq<string>)
    requires Mirrored(t, d) && Visible(t, n) && AllOrdinary(names)
    ensures var r := Find(t, n, names);
      && Visible(t, r.parent)
      && (r.child.Some? ==> Walk(d, PlaceOf(t, n), names) == Found(PlaceOf(t, r.parent)))
      && (r.child.None? && Below(d, PlaceOf(t, r.parent), r.name).None? ==>
            Walk(d, PlaceOf(t, n), names) == Missing(PlaceOf(t, r.parent), r.name))
    decreases |names|
  {
    if names != [] {
      if names[0] == ".." {
        PlaceUpwards(t, d, n);
        FindFollowsWalk(t, d, Upwards(t, n), names[1..]);
      } else if names[0] == "." {
        FindFollowsWalk(t, d, n, names[1..]);
      } else {
        PlaceBelow(t, d, n, names[0]);
        var c := FindChild(t, n, names[0]);
        if c.Some? {
          FindFollowsWalk(t, d, c.value, names[1..]);
        }
      }
    }
  }

  // ----- adding a node -----

  function Attached(t: Tree, p: NodeId, id: NodeId, node: Node): Tree
    requires p in t
  {
    t[p := t[p].(children := [id] + t[p].children)][id := node.(parent := Some(p))]
  }

  ghost predicate Newest(t: Tree, id: NodeId) { forall n :: n in t ==> n < id }

  ghost predicate NewLeaf(t: Tree, p: NodeId, id: NodeId, node: Node) {
    && TreeOk(t) && p in t && Newest(t, id)
    && node.children == [] && !node.kind.RootKind?
  }

  // A new leaf whose name its siblings do not have, unless no path can ask for it.
  ghost predicate FreshLeaf(t: Tree, p: NodeId, id: NodeId, node: Node) {
    && NewLeaf(t, p, id, node)
    && (node.name.Some? && '/' !in node.name.value ==> FindChild(t, p, node.name.value).None?)
  }

  lemma AttachedTree(t: Tree, p: NodeId, id: NodeId, node: Node)
    requires NewLeaf(t, p, id, node)
    ensures TreeOk(Attached(t, p, id, node))
  {
    var u := Attached(t, p, id, node);
    forall n | n in u ensures NodeOk(u, n) {
      if n != id {
        assert NodeOk(t, n);
      }
    }
  }

  lemma AttachedNames(t: Tree, p: NodeId, id: NodeId, node: Node)
    requires FreshLeaf(t, p, id, node) && DistinctNames(t)
    ensures DistinctNames(Attached(t, p, id, node))
  {
    var u := Attached(t, p, id, node);
    assert NodeOk(t, p);
    forall n, c, e | n in u && c in u[n].children && e in u[n].children && Homonyms(u, c, e) ensures c == e {
      if n != id {
        assert NodeOk(t, n);
        assert c != id && e != id ==> Homonyms(t, c, e);
      }
    }
  }

  // Old nodes keep their children but for the new one, and their way up.
  lemma AttachedFinds(t: Tree, p: NodeId, id: NodeId, node: Node, n: NodeId, name: string)
    requires NewLeaf(t, p, id, node) && n in t
    ensures TreeOk(Attached(t, p, id, node)) && n in Attached(t, p, id, node)
    ensures FindChild(Attached(t, p, id, node), n, name) ==
            if n == p && node.name == Some(name) then Some(id) else FindChild(t, n, name)
    ensures Upwards(Attached(t, p, id, node), n) == Upwards(t, n)
  {
    AttachedTree(t, p, id, node);
    var u := Attached(t, p, id, node);
    assert NodeOk(t, n) && NodeOk(t, p) && NodeOk(u, n);
    SameFirstNamed(t, u, t[n].children, name);
    if n == p {
      assert u[n].children[1..] == t[n].children;
    }
  }

  lemma {:induction false} SameFirstNamed(t: Tree, u: Tree, cs: seq<NodeId>, name: string)
    requires forall c :: c in cs ==> c in t && c in u && u[c].name == t[c].name
    ensures FirstNamed(t, cs, name) == FirstNamed(u, cs, name)
    decreases |cs|
  {
    if cs != [] {
      SameFirstNamed(t, u, cs[1..], name);
    }
  }

  lemma {:induction false} AttachedPlace(t: Tree, p: NodeId, id: NodeId, node: Node, n: NodeId)
    requires NewLeaf(t, p, id, node) && n in t
    ensures TreeOk(Attached(t, p, id, node)) && PlaceOf(Attached(t, p, id, node), n) == PlaceOf(t, n)
    decreases n
  {
    AttachedTree(t, p, id, node);
    assert NodeOk(t, n);
    if t[n].parent.Some? {
      AttachedPlace(t, p, id, node, t[n].parent.value);
    }
  }

  // The virtual node of an entry.
  function NodeFor(e: Entry): Node {
    Node(if e.file then FileKind else Folder, e.id, Some(e.name), None, [], None)
  }

  // An entry below p that the cache does not have yet, or that no path can ask for.
  ghost predicate Undiscovered(t: Tree, d: Disk, p: NodeId, e: Entry) {
    && Mirrored(t, d) && Visible(t, p) && ShowsDisk(PlaceOf(t, p))
    && e in d && e.parent == EntryOf(PlaceOf(t, p))
    && ('/' !in e.name ==>
          EntryChild(d, EntryOf(PlaceOf(t, p)), e.name) == Some(e) && FindChild(t, p, e.name).None?)
  }

  lemma NewNodeMirrors(t: Tree, d: Disk, p: NodeId, id: NodeId, e: Entry)
    requires Undiscovered(t, d, p, e) && Newest(t, id) && TreeOk(Attached(t, p, id, NodeFor(e)))
    ensures Mirrors(Attached(t, p, id, NodeFor(e)), d, id)
  {
    assert NodeOk(Attached(t, p, id, NodeFor(e)), id);
    AttachedPlace(t, p, id, NodeFor(e), p);
    PlaceBelow(t, d, p, e.name);
    EntryChildFound(d, EntryOf(PlaceOf(t, p)), e.name);
  }

  lemma OldNodeMirrors(t: Tree, d: Disk, p: NodeId, id: NodeId, e: Entry, n: NodeId)
    requires Undiscovered(t, d, p, e) && Newest(t, id) && n in t && TreeOk(Attached(t, p, id, NodeFor(e)))
    ensures Mirrors(Attached(t, p, id, NodeFor(e)), d, n)
  {
    var u := Attached(t, p, id, NodeFor(e));
    SameButChildren(t, p, id, NodeFor(e), n);
    assert Mirrors(t, d, n) && NodeOk(t, n) && NodeOk(u, n);
    AttachedPlace(t, p, id, NodeFor(e), n);
    if n > PIPE && t[n].name.Some? {
      SameButChildren(t, p, id, NodeFor(e), t[n].parent.value);
      AttachedPlace(t, p, id, NodeFor(e), t[n].parent.value);
    }
  }

  lemma SameButChildren(t: Tree, p: NodeId, id: NodeId, node: Node, n: NodeId)
    requires p in t && n in t && Newest(t, id)
    ensures n in Attached(t, p, id, node)
    ensures Attached(t, p, id, node)[n] == t[n].(children := Attached(t, p, id, node)[n].children)
  {
  }

  /** Discovering an entry keeps the cache true to the ramdisk and every node where it was. */
  lemma DiscoverKeepsMirror(t: Tree, d: Disk, p: NodeId, id: NodeId, e: Entry)
    requires Undiscovered(t, d, p, e) && Newest(t, id)
    ensures Mirrored(Attached(t, p, id, NodeFor(e)), d) && Newest(Attached(t, p, id, NodeFor(e)), id + 1)
    ensures forall n :: n in t ==> PlaceOf(Attached(t, p, id, NodeFor(e)), n) == PlaceOf(t, n)
  {
    AttachedTree(t, p, id, NodeFor(e));
    AttachedNames(t, p, id, NodeFor(e));
    AllMirror(t, d, p, id, e);
    forall n | n in t ensures PlaceOf(Attached(t, p, id, NodeFor(e)), n) == PlaceOf(t, n) {
      AttachedPlace(t, p, id, NodeFor(e), n);
    }
  }

  /** A second node for the entry spoils the cache if and only if a path can ask for its name. */
  lemma SecondNodeSpoils(t: Tree, d: Disk, p: NodeId, id: NodeId, e: Entry)
    requires Mirrored(t, d) && Newest(t, id) && Visible(t, p) && ShowsDisk(PlaceOf(t, p))
    requires e in d && EntryChild(d, EntryOf(PlaceOf(t, p)), e.name) == Some(e)
    ensures Mirrored(Attached(t, p, id, NodeFor(e)), d) <==> FindChild(t, p, e.name).None? || '/' in e.name
  {
    EntryChildFound(d, EntryOf(PlaceOf(t, p)), e.name);
    if FindChild(t, p, e.name).None? || '/' in e.name {
      DiscoverKeepsMirror(t, d, p, id, e);
    } else {
      assert NodeOk(t, p);
      var u, c := Attached(t, p, id, NodeFor(e)), FindChild(t, p, e.name).value;
      assert c in u[p].children && id in u[p].children && Homonyms(u, c, id) && c != id;
    }
  }

  // The written path of an old node stays, whatever is hung into the tree.
  lemma {:induction false} AttachedPath(t: Tree, p: NodeId, id: NodeId, node: Node, n: NodeId, written: string)
    requires NewLeaf(t, p, id, node) && n in t
    ensures TreeOk(Attached(t, p, id, node)) && n in Attached(t, p, id, node)
    ensures PathFrom(Attached(t, p, id, node), n, written) == PathFrom(t, n, written)
    decreases n
  {
    AttachedTree(t, p, id, node);
    assert NodeOk(t, n) && NodeOk(Attached(t, p, id, node), n);
    if !(t[n].kind.RootKind? || t[n].name.None? || |written| + |t[n].name.value| + 1 > PATH_MAX || t[n].parent.None?) {
      AttachedPath(t, p, id, node, t[n].parent.value, t[n].name.value + "/" + written);
    }
  }

  // What was found stays where it was found.
  lemma {:induction false} AttachedStillFinds(t: Tree, p: NodeId, id: NodeId, node: Node, n: NodeId, names: seq<string>)
    requires FreshLeaf(t, p, id, node) && n in t && AllOrdinary(names) && Find(t, n, names).child.Some?
    ensures TreeOk(Attached(t, p, id, node)) && Find(Attached(t, p, id, node), n, names) == Find(t, n, names)
    decreases |names|
  {
    AttachedTree(t, p, id, node);
    assert NodeOk(t, n);
    if names != [] {
      AttachedFinds(t, p, id, node, n, names[0]);
      if names[0] == ".." {
        AttachedStillFinds(t, p, id, node, Upwards(t, n), names[1..]);
      } else if names[0] == "." {
        AttachedStillFinds(t, p, id, node, n, names[1..]);
      } else {
        AttachedStillFinds(t, p, id, node, FindChild(t, n, names[0]).value, names[1..]);
      }
    }
  }

  lemma AllMirror(t: Tree, d: Disk, p: NodeId, id: NodeId, e: Entry)
    requires Undiscovered(t, d, p, e) && Newest(t, id) && TreeOk(Attached(t, p, id, NodeFor(e)))
    ensures BootPart(Attached(t, p, id, NodeFor(e)))
    ensures forall n :: n in Attached(t, p, id, NodeFor(e)) ==> Mirrors(Attached(t, p, id, NodeFor(e)), d, n)
  {
    assert PIPE in t && id > PIPE;
    forall n | n in Attached(t, p, id, NodeFor(e)) ensures Mirrors(Attached(t, p, id, NodeFor(e)), d, n) {
      if n == id {
        NewNodeMirrors(t, d, p, id, e);
      } else {
        OldNodeMirrors(t, d, p, id, e, n);
      }
    }
  }

  lemma {:induction false} AttachedReachable(t: Tree, p: NodeId, id: NodeId, node: Node, n: NodeId)
    requires NewLeaf(t, p, id, node) && n in t && Reachable(t, n)
    ensures TreeOk(Attached(t, p, id, node)) && Reachable(Attached(t, p, id, node), n)
    ensures Names(Attached(t, p, id, node), n) == Names(t, n)
    decreases n
  {
    AttachedTree(t, p, id, node);
    assert NodeOk(t, n) && NodeOk(Attached(t, p, id, node), n);
    if n != ROOT {
      AttachedReachable(t, p, id, node, t[n].parent.value);
    }
  }

  // ----- a file discovered right after boot -----

  function OneEntry(name: string): Disk { [Entry(1, 0, name, true)] }

  function Discovered(name: string): Tree { Attached(BOOT_TREE, ROOT, 4, NodeFor(OneEntry(name)[0])) }

  lemma BootChildren(other: string)
    ensures TreeOk(BOOT_TREE) && (FindChild(BOOT_TREE, ROOT, other).Some? ==> other == "mount")
  {
    BootNodes();
    assert NodeOk(BOOT_TREE, ROOT);
  }

  /** The ramdisk delegate makes this tree from the boot tree when the one entry of the ramdisk is first asked for. */
  lemma DiscoveredFromBoot(name: string)
    requires name != "mount"
    ensures Undiscovered(BOOT_TREE, OneEntry(name), ROOT, OneEntry(name)[0]) && Newest(BOOT_TREE, 4)
    ensures Mirrored(Discovered(name), OneEntry(name)) && FindChild(Discovered(name), ROOT, name) == Some(4)
  {
    var d := OneEntry(name);
    BootMirrors(d);
    BootChildren(name);
    assert EntryChild(d, 0, name) == Some(d[0]);
    DiscoverKeepsMirror(BOOT_TREE, d, ROOT, 4, d[0]);
    AttachedFinds(BOOT_TREE, ROOT, 4, NodeFor(d[0]), ROOT, name);
  }

  lemma DiscoveredNames(name: string)
    requires Plain(name) && TreeOk(Discovered(name))
    ensures Reachable(Discovered(name), 4) && Names(Discovered(name), 4) == [name]
    ensures |Text(Names(Discovered(name), 4))| == |name| + 1
  {
    var u := Discovered(name);
    assert NodeOk(u, ROOT) && NodeOk(u, 4);
    assert Names(u, ROOT) == [] && Names(u, 4) == [] + [name] == [name];
    assert [name][1..] == [];
  }

  /** A name as long as the limit: the written path of its node leads to the root instead. */
  lemma LongNameIsLost(name: string)
    requires Plain(name) && |name| == PATH_MAX
    ensures var t := Discovered(name);
      && Mirrored(t, OneEntry(name)) && Reachable(t, 4)
      && RealPath(t, 4) == "/" && Find(t, ROOT, Components(RealPath(t, 4))).child == Some(ROOT)
  {
    DiscoveredFromBoot(name);
    DiscoveredNames(name);
    assert NodeOk(Discovered(name), 4);
    assert Skip("/") == Skip("/"[1..]) == "";
  }

  /**
   * A name whose absolute path just fits a buffer of the limit with its terminator: what is
   * written for the node it leads to is one character longer.
   */
  lemma LongNameOverruns(name: string)
    requires Plain(name) && |name| == PATH_MAX - 2
    ensures var t := Discovered(name);
      && Mirrored(t, OneEntry(name)) && |"/" + name| + 1 == PATH_MAX
      && Find(t, ROOT, Components("/" + name)).child == Some(4) && |PathFrom(t, 4, "")| + 2 == PATH_MAX + 1
  {
    DiscoveredFromBoot(name);
    var t := Discovered(name);
    assert NodeOk(t, 4) && NodeOk(t, ROOT);
    SlashThenName(name);
    FindOne(t, ROOT, name);
    assert PathFrom(t, 4, "") == PathFrom(t, ROOT, name + "/" + "");
  }

  // ----- progress -----

  // How many names are left where a lookup ends.
  ghost function Left(t: Tree, n: NodeId, names: seq<string>): nat
    requires TreeOk(t) && n in t
    decreases |names|
  {
    assert NodeOk(t, n);
    if names == [] then 0
    else if names[0] == ".." then Left(t, Upwards(t, n), names[1..])
    else if names[0] == "." then Left(t, n, names[1..])
    else
      var c := FindChild(t, n, names[0]);
      if c.None? then |names| else Left(t, c.value, names[1..])
  }

  lemma {:induction false} LeftIsBounded(t: Tree, n: NodeId, names: seq<string>)
    requires TreeOk(t) && n in t
    ensures Left(t, n, names) <= |names|
    ensures Find(t, n, names).child.None? <==> Left(t, n, names) > 0
    decreases |names|
  {
    assert NodeOk(t, n);
    if names != [] {
      if names[0] == ".." {
        LeftIsBounded(t, Upwards(t, n), names[1..]);
      } else if names[0] == "." {
        LeftIsBounded(t, n, names[1..]);
      } else if FindChild(t, n, names[0]).Some? {
        LeftIsBounded(t, FindChild(t, n, names[0]).value, names[1..]);
      }
    }
  }

  /** Adding the missing node takes a lookup at least one name further. */
  lemma {:induction false} AttachedGoesFurther(
    t: Tree, p: NodeId, id: NodeId, node: Node, n: NodeId, names: seq<string>)
    requires FreshLeaf(t, p, id, node) && n in t && node.name.Some? && AllOrdinary(names)
    requires Find(t, n, names) == Located(p, None, node.name.value)
    ensures TreeOk(Attached(t, p, id, node))
    ensures Left(Attached(t, p, id, node), n, names) < Left(t, n, names)
    decreases |names|
  {
    AttachedTree(t, p, id, node);
    var u := Attached(t, p, id, node);
    assert NodeOk(t, n);
    if names[0] == ".." {
      AttachedFinds(t, p, id, node, n, "");
      AttachedGoesFurther(t, p, id, node, Upwards(t, n), names[1..]);
    } else if names[0] == "." {
      AttachedGoesFurther(t, p, id, node, n, names[1..]);
    } else {
      AttachedFinds(t, p, id, node, n, names[0]);
      var c := FindChild(t, n, names[0]);
      if c.Some? {
        AttachedGoesFurther(t, p, id, node, c.value, names[1..]);
      } else {
        LeftIsBounded(u, id, names[1..]);
      }
    }
  }
}
