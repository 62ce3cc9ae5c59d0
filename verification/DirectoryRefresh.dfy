/**
 * Refreshing a folder: the ramdisk's entries below it are looked up one by one, by the
 * text of their paths, and those that are not found get a node.
 */
module DirectoryRefresh {
  import opened Options
  import opened Paths
  import opened FileTrees
  import opened Ramdisks
  import opened Discovery

  // The node table: the tree and the next number.
  datatype Nodes = Nodes(tree: Tree, next: NodeId)

  ghost predicate Growing(s: Nodes, folder: NodeId) {
    TreeOk(s.tree) && folder in s.tree && Newest(s.tree, s.next)
  }

  ghost function RefreshedOne(s: Nodes, folder: NodeId, e: Entry): (r: Nodes)
    requires Growing(s, folder)
    ensures Growing(r, folder)
  {
    if LookedUp(s.tree, folder, e.name).Some? then s
    else
      AttachedTree(s.tree, folder, s.next, NodeFor(e));
      Nodes(Attached(s.tree, folder, s.next, NodeFor(e)), s.next + 1)
  }

  ghost function Refreshed(s: Nodes, folder: NodeId, kids: seq<Entry>): (r: Nodes)
    requires Growing(s, folder)
    ensures Growing(r, folder)
  {
    if kids == [] then s
    else RefreshedOne(Refreshed(s, folder, kids[..|kids| - 1]), folder, kids[|kids| - 1])
  }

  // The entries before the first one whose path and terminator are longer than the buffer.
  function Fitting(length: nat, kids: seq<Entry>): (r: seq<Entry>)
    ensures r <= kids
    ensures r == kids <==> forall i :: 0 <= i < |kids| ==> length + |kids[i].name| + 2 <= PATH_MAX
  {
    if kids == [] || length + |kids[0].name| + 2 > PATH_MAX then []
    else [kids[0]] + Fitting(length, kids[1..])
  }

  lemma {:induction false} FittingIs(length: nat, kids: seq<Entry>, k: nat)
    requires k < |kids| && length + |kids[k].name| + 2 > PATH_MAX
    requires forall i :: 0 <= i < k ==> length + |kids[i].name| + 2 <= PATH_MAX
    ensures Fitting(length, kids) == kids[..k]
    decreases k
  {
    if k > 0 {
      FittingIs(length, kids[1..], k - 1);
      assert [kids[0]] + kids[1..][..k - 1] == kids[..k];
    }
  }

  /** The folder's own path does not change on the way. */
  lemma {:induction false} RefreshKeepsPath(s: Nodes, folder: NodeId, kids: seq<Entry>)
    requires Growing(s, folder)
    ensures RealPath(Refreshed(s, folder, kids).tree, folder) == RealPath(s.tree, folder)
    decreases |kids|
  {
    if kids != [] {
      var r := Refreshed(s, folder, kids[..|kids| - 1]);
      RefreshKeepsPath(s, folder, kids[..|kids| - 1]);
      AttachedPath(r.tree, folder, r.next, NodeFor(kids[|kids| - 1]), folder, "");
    }
  }

  // Where the loop stands before entry k.
  ghost predicate Refreshing(start: Nodes, s: Nodes, folder: NodeId, kids: seq<Entry>, k: nat) {
    && Growing(start, folder) && k <= |kids| && s == Refreshed(start, folder, kids[..k])
    && forall i :: 0 <= i < k ==> |RealPath(start.tree, folder)| + |kids[i].name| + 2 <= PATH_MAX
  }

  lemma RefreshingNext(start: Nodes, s: Nodes, folder: NodeId, kids: seq<Entry>, k: nat)
    requires Refreshing(start, s, folder, kids, k) && k < |kids|
    ensures Growing(s, folder) && RealPath(s.tree, folder) == RealPath(start.tree, folder)
    ensures if |RealPath(start.tree, folder)| + |kids[k].name| + 2 <= PATH_MAX
            then Refreshing(start, RefreshedOne(s, folder, kids[k]), folder, kids, k + 1)
            else Fitting(|RealPath(start.tree, folder)|, kids) == kids[..k]
  {
    RefreshKeepsPath(start, folder, kids[..k]);
    assert kids[..k + 1][..k] == kids[..k];
    if |RealPath(start.tree, folder)| + |kids[k].name| + 2 > PATH_MAX {
      FittingIs(|RealPath(start.tree, folder)|, kids, k);
    }
  }

  lemma {:induction false} RefreshOnlyAdds(s: Nodes, folder: NodeId, kids: seq<Entry>)
    requires Growing(s, folder)
    ensures s.next <= Refreshed(s, folder, kids).next
    ensures Refreshed(s, folder, kids).next == s.next ==> Refreshed(s, folder, kids) == s
    decreases |kids|
  {
    if kids != [] {
      RefreshOnlyAdds(s, folder, kids[..|kids| - 1]);
    }
  }

  ghost predicate AllLeadSomewhere(t: Tree, folder: NodeId, kids: seq<Entry>)
    requires TreeOk(t) && folder in t
  {
    forall i :: 0 <= i < |kids| ==> LookedUp(t, folder, kids[i].name).Some?
  }

  lemma OneMoreLeads(t: Tree, folder: NodeId, kids: seq<Entry>, e: Entry)
    requires TreeOk(t) && folder in t
    ensures AllLeadSomewhere(t, folder, kids + [e]) <==>
            AllLeadSomewhere(t, folder, kids) && LookedUp(t, folder, e.name).Some?
  {
    var more := kids + [e];
    assert forall i :: 0 <= i < |kids| ==> more[i] == kids[i];
    assert more[|kids|] == e;
  }

  /** A refresh leaves the table as it is if and only if the path of every entry leads somewhere. */
  lemma {:induction false} RefreshIsIdle(s: Nodes, folder: NodeId, kids: seq<Entry>)
    requires Growing(s, folder)
    ensures Refreshed(s, folder, kids) == s <==> AllLeadSomewhere(s.tree, folder, kids)
    decreases |kids|
  {
    if kids != [] {
      var most, e := kids[..|kids| - 1], kids[|kids| - 1];
      RefreshIsIdle(s, folder, most);
      RefreshOnlyAdds(s, folder, most);
      assert kids == most + [e];
      OneMoreLeads(s.tree, folder, most, e);
    }
  }

  // ----- folders whose path can be written -----

  ghost predicate Refreshable(t: Tree, d: Disk, folder: NodeId) {
    && Mirrored(t, d) && Visible(t, folder) && ShowsDisk(PlaceOf(t, folder))
    && Reachable(t, folder) && |Text(Names(t, folder))| <= PATH_MAX
  }

  // The name has a node below the folder, or its text leads somewhere else.
  ghost predicate Served(t: Tree, folder: NodeId, name: string)
    requires TreeOk(t) && folder in t
  {
    FindChild(t, folder, name).Some? || Find(t, folder, Components(name)).child.Some?
  }

  ghost predicate AllServed(t: Tree, folder: NodeId, kids: seq<Entry>)
    requires TreeOk(t) && folder in t
  {
    forall i :: 0 <= i < |kids| ==> Served(t, folder, kids[i].name)
  }

  ghost predicate PlacesStay(t: Tree, u: Tree)
    requires TreeOk(t) && TreeOk(u)
  {
    forall n :: n in t ==> n in u && PlaceOf(u, n) == PlaceOf(t, n)
  }

  // The first entries below a place.
  ghost predicate FirstKids(d: Disk, place: Place, kids: seq<Entry>) {
    kids <= Kids(d, EntryOf(place))
  }

  lemma ServedPlain(t: Tree, folder: NodeId, name: string)
    requires TreeOk(t) && folder in t && Plain(name)
    ensures Served(t, folder, name) <==> FindChild(t, folder, name).Some?
  {
    SimplePath(t, folder, name);
  }

  lemma ServedStays(t: Tree, folder: NodeId, id: NodeId, node: Node, name: string)
    requires FreshLeaf(t, folder, id, node) && Served(t, folder, name)
    ensures TreeOk(Attached(t, folder, id, node)) && Served(Attached(t, folder, id, node), folder, name)
  {
    AttachedFinds(t, folder, id, node, folder, name);
    ComponentsOfPath(name);
    if Find(t, folder, Components(name)).child.Some? {
      AttachedStillFinds(t, folder, id, node, folder, Components(name));
    }
  }

  // Whatever became of the tree, it is true to the ramdisk, nothing moved, and these entries are served.
  ghost predicate Serving(start: Tree, t: Tree, d: Disk, folder: NodeId, kids: seq<Entry>)
    requires TreeOk(start)
  {
    Refreshable(t, d, folder) && PlacesStay(start, t) && AllServed(t, folder, kids)
  }

  // An entry that is not found is new to the cache, or no path can ask for it.
  lemma NotFoundIsUndiscovered(t: Tree, d: Disk, folder: NodeId, kids: seq<Entry>, e: Entry)
    requires Refreshable(t, d, folder) && FirstKids(d, PlaceOf(t, folder), kids + [e])
    requires AllServed(t, folder, kids) && LookedUp(t, folder, e.name).None?
    ensures Undiscovered(t, d, folder, e)
  {
    var all, k := Kids(d, EntryOf(PlaceOf(t, folder))), |kids|;
    assert all[k] == (kids + [e])[k] == e;
    KidsAre(d, EntryOf(PlaceOf(t, folder)), e);
    ChildPath(t, folder, e.name);
    if '/' !in e.name {
      SimplePath(t, folder, e.name);
      forall j | 0 <= j < k ensures all[j].name != e.name {
        ServedPlain(t, folder, e.name);
        assert all[j] == (kids + [e])[j] == kids[j];
      }
      FirstKid(d, EntryOf(PlaceOf(t, folder)), k);
    }
  }

  // A node made for an undiscovered entry leaves the folder's path and what was served.
  lemma MadeIsTrue(t: Tree, d: Disk, folder: NodeId, id: NodeId, e: Entry)
    requires Refreshable(t, d, folder) && Newest(t, id) && Undiscovered(t, d, folder, e)
    ensures var u := Attached(t, folder, id, NodeFor(e));
      Refreshable(u, d, folder) && Served(u, folder, e.name) && PlacesStay(t, u)
  {
    DiscoverKeepsMirror(t, d, folder, id, e);
    AttachedReachable(t, folder, id, NodeFor(e), folder);
    AttachedFinds(t, folder, id, NodeFor(e), folder, e.name);
    SameButChildren(t, folder, id, NodeFor(e), folder);
  }

  lemma AllServedStay(t: Tree, folder: NodeId, id: NodeId, node: Node, kids: seq<Entry>)
    requires FreshLeaf(t, folder, id, node) && AllServed(t, folder, kids)
    ensures TreeOk(Attached(t, folder, id, node)) && folder in Attached(t, folder, id, node)
    ensures AllServed(Attached(t, folder, id, node), folder, kids)
  {
    AttachedTree(t, folder, id, node);
    forall i | 0 <= i < |kids| ensures Served(Attached(t, folder, id, node), folder, kids[i].name) {
      ServedStays(t, folder, id, node, kids[i].name);
    }
  }

  lemma OneMoreServed(t: Tree, folder: NodeId, kids: seq<Entry>, e: Entry)
    requires TreeOk(t) && folder in t && AllServed(t, folder, kids) && Served(t, folder, e.name)
    ensures AllServed(t, folder, kids + [e])
  {
  }

  // The entry was found, and nothing happens.
  lemma FoundIsServed(t: Tree, d: Disk, folder: NodeId, kids: seq<Entry>, e: Entry)
    requires Refreshable(t, d, folder) && AllServed(t, folder, kids) && LookedUp(t, folder, e.name).Some?
    ensures Serving(t, t, d, folder, kids + [e])
  {
    ChildPath(t, folder, e.name);
    OneMoreServed(t, folder, kids, e);
  }

  // The entry was not found, and a node is made.
  lemma MissedIsMade(t: Tree, d: Disk, folder: NodeId, id: NodeId, kids: seq<Entry>, e: Entry)
    requires Refreshable(t, d, folder) && Newest(t, id) && AllServed(t, folder, kids)
    requires Undiscovered(t, d, folder, e)
    ensures Serving(t, Attached(t, folder, id, NodeFor(e)), d, folder, kids + [e])
  {
    MadeIsTrue(t, d, folder, id, e);
    AllServedStay(t, folder, id, NodeFor(e), kids);
    OneMoreServed(Attached(t, folder, id, NodeFor(e)), folder, kids, e);
  }

  /** One entry: the cache stays true to the ramdisk, every node where it was, and the entry is served. */
  lemma RefreshOneIsTrue(s: Nodes, d: Disk, folder: NodeId, kids: seq<Entry>, e: Entry)
    requires Growing(s, folder) && Refreshable(s.tree, d, folder)
    requires FirstKids(d, PlaceOf(s.tree, folder), kids + [e]) && AllServed(s.tree, folder, kids)
    ensures Serving(s.tree, RefreshedOne(s, folder, e).tree, d, folder, kids + [e])
  {
    if LookedUp(s.tree, folder, e.name).None? {
      NotFoundIsUndiscovered(s.tree, d, folder, kids, e);
      MissedIsMade(s.tree, d, folder, s.next, kids, e);
    } else {
      FoundIsServed(s.tree, d, folder, kids, e);
    }
  }

  lemma ServingOn(start: Tree, middle: Tree, t: Tree, d: Disk, folder: NodeId, kids: seq<Entry>)
    requires TreeOk(start) && TreeOk(middle) && PlacesStay(start, middle) && Serving(middle, t, d, folder, kids)
    ensures Serving(start, t, d, folder, kids)
  {
  }

  /**
   * A refresh keeps the cache true to the ramdisk and every node where it was. Afterwards every
   * entry has a node or is hidden by another node its text leads to; a plain name always has one.
   */
  lemma {:induction false} RefreshIsTrue(s: Nodes, d: Disk, folder: NodeId, kids: seq<Entry>)
    requires Growing(s, folder) && Refreshable(s.tree, d, folder) && FirstKids(d, PlaceOf(s.tree, folder), kids)
    ensures Serving(s.tree, Refreshed(s, folder, kids).tree, d, folder, kids)
    ensures forall i :: 0 <= i < |kids| && Plain(kids[i].name) ==>
              FindChild(Refreshed(s, folder, kids).tree, folder, kids[i].name).Some?
    decreases |kids|
  {
    if kids != [] {
      var most, e := kids[..|kids| - 1], kids[|kids| - 1];
      assert kids == most + [e];
      RefreshIsTrue(s, d, folder, most);
      var r := Refreshed(s, folder, most);
      RefreshOneIsTrue(r, d, folder, most, e);
      ServingOn(s.tree, r.tree, RefreshedOne(r, folder, e).tree, d, folder, kids);
      PlainServed(Refreshed(s, folder, kids).tree, folder, kids);
    }
  }

  lemma PlainServed(t: Tree, folder: NodeId, kids: seq<Entry>)
    requires TreeOk(t) && folder in t && AllServed(t, folder, kids)
    ensures forall i :: 0 <= i < |kids| && Plain(kids[i].name) ==> FindChild(t, folder, kids[i].name).Some?
  {
    forall i | 0 <= i < |kids| && Plain(kids[i].name) ensures FindChild(t, folder, kids[i].name).Some? {
      ServedPlain(t, folder, kids[i].name);
    }
  }

  /** Refreshing once more changes nothing if and only if the text of every name with a slash leads somewhere. */
  lemma RefreshTwice(s: Nodes, d: Disk, folder: NodeId)
    requires Growing(s, folder) && Refreshable(s.tree, d, folder)
    ensures var kids := Kids(d, EntryOf(PlaceOf(s.tree, folder)));
      var r := Refreshed(s, folder, kids);
      Refreshed(r, folder, kids) == r <==>
        forall i :: 0 <= i < |kids| && '/' in kids[i].name ==>
          Find(r.tree, folder, Components(kids[i].name)).child.Some?
  {
    var kids := Kids(d, EntryOf(PlaceOf(s.tree, folder)));
    var r := Refreshed(s, folder, kids);
    RefreshIsTrue(s, d, folder, kids);
    RefreshIsIdle(r, folder, kids);
    forall i | 0 <= i < |kids|
      ensures LookedUp(r.tree, folder, kids[i].name) == Find(r.tree, folder, Components(kids[i].name)).child
      ensures '/' !in kids[i].name ==> LookedUp(r.tree, folder, kids[i].name).Some?
    {
      ChildPath(r.tree, folder, kids[i].name);
      if '/' !in kids[i].name {
        SimplePath(r.tree, folder, kids[i].name);
      }
    }
  }

  // ----- nodes made twice -----

  ghost predicate Twice(t: Tree, folder: NodeId, name: string)
    requires folder in t
  {
    exists c, d ::
      c in t[folder].children && d in t[folder].children && c != d && Named(t, c, name) && Named(t, d, name)
  }

  predicate Named(t: Tree, c: NodeId, name: string) { c in t && t[c].name == Some(name) }

  /** Refreshing an entry makes its node a second time if and only if it has one that its path does not find. */
  lemma MadeTwice(s: Nodes, folder: NodeId, e: Entry)
    requires Growing(s, folder) && !Twice(s.tree, folder, e.name)
    ensures Twice(RefreshedOne(s, folder, e).tree, folder, e.name) <==>
            FindChild(s.tree, folder, e.name).Some? && LookedUp(s.tree, folder, e.name).None?
  {
    var t, r := s.tree, RefreshedOne(s, folder, e);
    assert NodeOk(t, folder);
    if LookedUp(t, folder, e.name).None? {
      var c := FindChild(t, folder, e.name);
      if c.Some? {
        assert Named(r.tree, c.value, e.name) && Named(r.tree, s.next, e.name);
      } else {
        forall x | x in r.tree[folder].children && Named(r.tree, x, e.name) ensures x == s.next {
          assert x != s.next ==> Named(t, x, e.name);
        }
      }
    }
  }

  /**
   * In a folder whose path can be written that takes a name with a slash, and a text that leads
   * nowhere from the folder.
   */
  lemma MadeTwiceBySlash(s: Nodes, folder: NodeId, e: Entry)
    requires Growing(s, folder) && DistinctNames(s.tree) && !Twice(s.tree, folder, e.name)
    requires Reachable(s.tree, folder) && |Text(Names(s.tree, folder))| <= PATH_MAX
    ensures Twice(RefreshedOne(s, folder, e).tree, folder, e.name) <==>
            && '/' in e.name && FindChild(s.tree, folder, e.name).Some?
            && Find(s.tree, folder, Components(e.name)).child.None?
  {
    MadeTwice(s, folder, e);
    ChildPath(s.tree, folder, e.name);
    if '/' !in e.name {
      SimplePath(s.tree, folder, e.name);
    }
  }

  /** From boot: a ramdisk with the one file a/b gets a second node for it when its root is refreshed again. */
  lemma SlashNameIsMadeTwice()
    ensures Growing(Nodes(BOOT_TREE, 4), ROOT)
    ensures var kids := OneEntry("a/b");
      var once := Refreshed(Nodes(BOOT_TREE, 4), ROOT, kids);
      && FindChild(once.tree, ROOT, "a/b").Some? && !Twice(once.tree, ROOT, "a/b")
      && Twice(Refreshed(once, ROOT, kids).tree, ROOT, "a/b")
  {
    var s, e := Nodes(BOOT_TREE, 4), OneEntry("a/b")[0];
    BootNodes();
    BootMissesSlash();
    var once := RefreshedOne(s, ROOT, e);
    RefreshedSingle(s, ROOT, e);
    RefreshedSingle(once, ROOT, e);
    BootChildren("a/b");
    MadeTwice(s, ROOT, e);
    MadeTwice(once, ROOT, e);
  }

  lemma RefreshedSingle(s: Nodes, folder: NodeId, e: Entry)
    requires Growing(s, folder)
    ensures Refreshed(s, folder, [e]) == RefreshedOne(s, folder, e)
  {
    assert [e][..0] == [];
    assert Refreshed(s, folder, []) == s;
  }

  lemma BootMissesSlash()
    ensures TreeOk(BOOT_TREE) && LookedUp(BOOT_TREE, ROOT, "a/b").None? && !Twice(BOOT_TREE, ROOT, "a/b")
    ensures TreeOk(Discovered("a/b")) && LookedUp(Discovered("a/b"), ROOT, "a/b").None?
    ensures FindChild(Discovered("a/b"), ROOT, "a/b").Some?
  {
    DiscoveredFromBoot("a/b");
    BootChildren("a");
    AttachedFinds(BOOT_TREE, ROOT, 4, NodeFor(OneEntry("a/b")[0]), ROOT, "a");
    NotThere(BOOT_TREE);
    NotThere(Discovered("a/b"));
  }

  lemma NotThere(t: Tree)
    requires TreeOk(t) && t[ROOT].kind.RootKind? && FindChild(t, ROOT, "a").None?
    ensures LookedUp(t, ROOT, "a/b").None?
  {
    assert NodeOk(t, ROOT);
    assert RealPath(t, ROOT) == "/";
    assert "/" + "/" + "a/b" == "/" + ("/" + ("a" + "/b"));
    SlashIsSkipped("/" + ("a" + "/b"));
    SlashIsSkipped("a" + "/b");
    NameThen("a", "/b");
  }
}
