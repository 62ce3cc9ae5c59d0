/** Absolute paths as text: slashes separate the names, repeated slashes count once. */
module Paths {
  const PATH_MAX := 4096

  function Skip(p: string): (r: string)
    ensures |r| <= |p| && (r == "" || r[0] != '/')
  {
    if p != "" && p[0] == '/' then Skip(p[1..]) else p
  }

  function Name(p: string): string {
    if p == "" || p[0] == '/' then "" else [p[0]] + Name(p[1..])
  }

  function Rest(p: string): (r: string)
    ensures |r| <= |p| && (p != "" && p[0] != '/' ==> |r| < |p|)
  {
    if p == "" || p[0] == '/' then p else Rest(p[1..])
  }

  // The names of a path, from left to right.
  function Components(p: string): seq<string>
    decreases |p|
  {
    var s := Skip(p);
    if s == "" then [] else [Name(s)] + Components(Rest(s))
  }

  // Every name followed by a slash.
  function Text(names: seq<string>): string {
    if names == [] then "" else names[0] + "/" + Text(names[1..])
  }

  predicate Ordinary(name: string) { name != "" && '/' !in name }

  // An ordinary name that does not steer the walk.
  predicate Plain(name: string) { Ordinary(name) && name != "." && name != ".." }

  lemma {:induction false} NameStops(name: string, tail: string)
    requires '/' !in name && (tail == "" || tail[0] == '/')
    ensures Name(name + tail) == name && Rest(name + tail) == tail
    decreases |name|
  {
    var p := name + tail;
    if name == "" {
      assert p == tail;
    } else {
      assert p[0] == name[0] && p[1..] == name[1..] + tail;
      NameStops(name[1..], tail);
    }
  }

  lemma NameThen(name: string, tail: string)
    requires Ordinary(name) && (tail == "" || tail[0] == '/')
    ensures Components(name + tail) == [name] + Components(tail)
  {
    var p := name + tail;
    assert p[0] == name[0];
    assert Skip(p) == p;
    NameStops(name, tail);
  }

  /** A path that starts with written names reads back as those names and the rest. */
  lemma {:induction false} TextThen(names: seq<string>, tail: string)
    requires forall i :: 0 <= i < |names| ==> Ordinary(names[i])
    ensures Components(Text(names) + tail) == names + Components(tail)
    decreases |names|
  {
    if names == [] {
      assert Text(names) + tail == tail;
    } else {
      TextStep(names, tail);
      TextThen(names[1..], tail);
      assert [names[0]] + (names[1..] + Components(tail)) == names + Components(tail);
    }
  }

  lemma TextStep(names: seq<string>, tail: string)
    requires names != [] && Ordinary(names[0])
    ensures Components(Text(names) + tail) == [names[0]] + Components(Text(names[1..]) + tail)
  {
    var more := Text(names[1..]) + tail;
    NameThen(names[0], "/" + more);
    SlashIsSkipped(more);
    assert Text(names) + tail == names[0] + ("/" + more);
  }

  lemma SlashThenName(name: string)
    requires Ordinary(name)
    ensures Components("/" + name) == [name]
  {
    NameThen(name, "");
    assert name + "" == name;
    SlashIsSkipped(name);
  }

  // Names written as a path, a slash, and whatever follows.
  lemma ChildText(names: seq<string>, name: string)
    requires forall i :: 0 <= i < |names| ==> Ordinary(names[i])
    ensures Components("/" + Text(names) + "/" + name) == names + Components("/" + name)
  {
    Regrouped(Text(names), name);
    SlashIsSkipped(Text(names) + ("/" + name));
    TextThen(names, "/" + name);
  }

  lemma Regrouped(text: string, name: string)
    ensures "/" + text + "/" + name == "/" + (text + ("/" + name))
  {
  }

  /** A path written from names reads back as those names. */
  lemma TextRoundTrip(names: seq<string>)
    requires forall i :: 0 <= i < |names| ==> Ordinary(names[i])
    ensures Components("/" + Text(names)) == names
  {
    SlashIsSkipped(Text(names));
    TextThen(names, "");
    assert Text(names) + "" == Text(names) && names + [] == names;
  }

  lemma SlashIsSkipped(p: string)
    ensures Components("/" + p) == Components(p)
  {
    assert ("/" + p)[1..] == p;
    assert Skip("/" + p) == Skip(p);
  }

  // What a path can name.
  ghost predicate AllOrdinary(names: seq<string>) { forall i :: 0 <= i < |names| ==> Ordinary(names[i]) }

  lemma {:induction false} NameIsOrdinary(p: string)
    requires p != "" && p[0] != '/'
    ensures Ordinary(Name(p)) && |Name(p)| + |Rest(p)| == |p|
    decreases |p|
  {
    if |p| > 1 && p[1] != '/' {
      NameIsOrdinary(p[1..]);
    } else {
      assert p[1..] == "" || p[1..][0] == '/';
      assert Name(p) == [p[0]];
    }
  }

  /** The names of a path hold no slashes, and written out they are no longer than the path with a leading slash. */
  lemma {:induction false} ComponentsOfPath(p: string)
    ensures AllOrdinary(Components(p))
    ensures |Text(Components(p))| <= if p != "" && p[0] == '/' then |p| else |p| + 1
    decreases |p|
  {
    var q := Skip(p);
    if q != "" {
      NameIsOrdinary(q);
      RestStartsWithSlash(q);
      ComponentsOfPath(Rest(q));
      assert Components(p)[1..] == Components(Rest(q));
      assert p[0] == '/' ==> |q| < |p|;
    }
  }

  lemma {:induction false} RestStartsWithSlash(p: string)
    ensures Rest(p) == "" || Rest(p)[0] == '/'
    decreases |p|
  {
    if p != "" && p[0] != '/' {
      RestStartsWithSlash(p[1..]);
    }
  }

  lemma {:induction false} TextOfSum(a: seq<string>, b: seq<string>)
    ensures Text(a + b) == Text(a) + Text(b)
    decreases |a|
  {
    if a == [] {
      assert a + b == b;
    } else {
      assert (a + b)[1..] == a[1..] + b;
      TextOfSum(a[1..], b);
    }
  }
}

/**
 * The tree of virtual nodes: looking a path up from the root, and writing the
 * path of a node from the node upwards.
 */
module FileTrees {
  import opened Options
  import opened Paths

  type NodeId = nat

  datatype Kind = RootKind | Mountpoint | Folder | FileKind | PipeKind

  datatype Delegate = RamdiskDelegate | MountDelegate | PipeDelegate

  datatype Node = Node(kind: Kind, phys: nat, name: Option<string>, parent: Option<NodeId>,
                       children: seq<NodeId>, delegate: Option<Delegate>)

  type Tree = map<NodeId, Node>

  const ROOT: NodeId := 0

  predicate NodeOk(t: Tree, n: NodeId)
    requires n in t
  {
    && (t[n].kind.RootKind? <==> n == ROOT)
    && (t[n].parent.Some? ==> t[n].parent.value in t && t[n].parent.value < n && n in t[t[n].parent.value].children)
    && (forall c :: c in t[n].children ==> c in t && t[c].parent == Some(n))
  }

  // Nodes are numbered in the order of their creation and hung below older nodes.
  ghost predicate TreeOk(t: Tree) {
    && ROOT in t && t[ROOT].parent.None?
    && forall n :: n in t ==> NodeOk(t, n)
  }

  // Names that hold a slash cannot be asked for, so they may occur twice.
  predicate Homonyms(t: Tree, c: NodeId, d: NodeId) {
    c in t && d in t && t[c].name.Some? && '/' !in t[c].name.value && t[c].name == t[d].name
  }

  ghost predicate DistinctNames(t: Tree) {
    forall n, c, d :: n in t && c in t[n].children && d in t[n].children && Homonyms(t, c, d) ==> c == d
  }

  // ----- looking up -----

  function FirstNamed(t: Tree, cs: seq<NodeId>, name: string): (r: Option<NodeId>)
    requires forall c :: c in cs ==> c in t
    ensures r.Some? ==> r.value in cs && t[r.value].name == Some(name)
    ensures r.None? ==> forall c :: c in cs ==> t[c].name != Some(name)
  {
    if cs == [] then None
    else if t[cs[0]].name == Some(name) then Some(cs[0])
    else
      var r := FirstNamed(t, cs[1..], name);
      assert forall c :: c in cs ==> c == cs[0] || c in cs[1..];
      r
  }

  ghost function FindChild(t: Tree, n: NodeId, name: string): Option<NodeId>
    requires TreeOk(t) && n in t
  {
    assert NodeOk(t, n);
    FirstNamed(t, t[n].children, name)
  }

  lemma ChildFound(t: Tree, n: NodeId, c: NodeId, name: string)
    requires TreeOk(t) && DistinctNames(t) && n in t
    requires c in t[n].children && c in t && t[c].name == Some(name) && '/' !in name
    ensures FindChild(t, n, name) == Some(c)
  {
    assert NodeOk(t, n);
    var found := FindChild(t, n, name);
    assert found.Some?;
    assert Homonyms(t, found.value, c);
  }

  // Where a lookup ends: at a node, or below a parent at a name it does not have.
  datatype Located = Located(parent: NodeId, child: Option<NodeId>, name: string)

  ghost function Upwards(t: Tree, n: NodeId): NodeId
    requires n in t
  {
    if t[n].parent.Some? then t[n].parent.value else n
  }

  ghost function Find(t: Tree, n: NodeId, names: seq<string>): (r: Located)
    requires TreeOk(t) && n in t
    ensures r.parent in t && (r.child.Some? ==> r.child.value == r.parent)
    decreases |names|
  {
    assert NodeOk(t, n);
    if names == [] then Located(n, Some(n), "")
    else if names[0] == ".." then Find(t, Upwards(t, n), names[1..])
    else if names[0] == "." then Find(t, n, names[1..])
    else
      var c := FindChild(t, n, names[0]);
      if c.None? then Located(n, None, names[0]) else Find(t, c.value, names[1..])
  }

  lemma {:induction false} FindContinues(t: Tree, n: NodeId, a: seq<string>, b: seq<string>)
    requires TreeOk(t) && n in t && Find(t, n, a).child.Some?
    ensures Find(t, n, a + b) == Find(t, Find(t, n, a).child.value, b)
    decreases |a|
  {
    assert NodeOk(t, n);
    if a == [] {
      assert a + b == b;
    } else {
      assert (a + b)[0] == a[0] && (a + b)[1..] == a[1..] + b;
      if a[0] == ".." {
        FindContinues(t, Upwards(t, n), a[1..], b);
      } else if a[0] == "." {
        FindContinues(t, n, a[1..], b);
      } else {
        FindContinues(t, FindChild(t, n, a[0]).value, a[1..], b);
      }
    }
  }

  /** ".." leads to the parent, and at the root it stays; "." stays everywhere. */
  lemma FindUpwards(t: Tree, n: NodeId, rest: seq<string>)
    requires TreeOk(t) && n in t
    ensures Find(t, n, ["."] + rest) == Find(t, n, rest)
    ensures t[n].parent.Some? ==>
              && t[n].parent.value in t && Find(t, n, [".."]).child == t[n].parent
              && Find(t, n, [".."] + rest) == Find(t, t[n].parent.value, rest)
    ensures n == ROOT ==> Find(t, n, [".."]).child == Some(ROOT) && Find(t, n, [".."] + rest) == Find(t, n, rest)
  {
    assert NodeOk(t, n);
    assert (["."] + rest)[1..] == rest && ([".."] + rest)[1..] == rest && [".."][1..] == [];
  }

  /** A plain name leads to the child of that name, or nowhere if there is none. */
  lemma FindDownwards(t: Tree, n: NodeId, x: string, rest: seq<string>)
    requires TreeOk(t) && DistinctNames(t) && n in t && Plain(x)
    ensures forall c :: c in t[n].children && c in t && t[c].name == Some(x) ==>
              Find(t, n, [x] + rest) == Find(t, c, rest)
    ensures (forall c :: c in t[n].children && c in t ==> t[c].name != Some(x)) ==>
              Find(t, n, [x] + rest) == Located(n, None, x)
  {
    assert NodeOk(t, n);
    assert ([x] + rest)[1..] == rest;
    forall c | c in t[n].children && c in t && t[c].name == Some(x) ensures FindChild(t, n, x) == Some(c) {
      ChildFound(t, n, c, x);
    }
  }

  /** Going down by a name and up again is going nowhere. */
  lemma UpUndoesDown(t: Tree, n: NodeId, c: NodeId, x: string, rest: seq<string>)
    requires TreeOk(t) && n in t && c in t[n].children && c in t && t[c].name == Some(x) && Plain(x)
    ensures Find(t, n, [x, ".."] + rest) == Find(t, n, rest)
  {
    assert NodeOk(t, n);
    var names := [x, ".."] + rest;
    assert names[1..] == [".."] + rest;
    var found := FindChild(t, n, x).value;
    FindUpwards(t, found, rest);
  }

  // ----- the path of a node -----

  // Reached from the root by adding children with plain names.
  ghost predicate Reachable(t: Tree, n: NodeId)
    requires TreeOk(t) && n in t
    decreases n
  {
    assert NodeOk(t, n);
    n == ROOT || (t[n].parent.Some? && t[n].name.Some? && Plain(t[n].name.value) && Reachable(t, t[n].parent.value))
  }

  ghost function Names(t: Tree, n: NodeId): (r: seq<string>)
    requires TreeOk(t) && n in t && Reachable(t, n)
    ensures forall i :: 0 <= i < |r| ==> Plain(r[i])
    decreases n
  {
    assert NodeOk(t, n);
    if n == ROOT then [] else Names(t, t[n].parent.value) + [t[n].name.value]
  }

  lemma {:induction false} FindNames(t: Tree, n: NodeId)
    requires TreeOk(t) && DistinctNames(t) && n in t && Reachable(t, n)
    ensures Find(t, ROOT, Names(t, n)) == Located(n, Some(n), "")
    decreases n
  {
    assert NodeOk(t, n);
    if n != ROOT {
      var p := t[n].parent.value;
      var name := t[n].name.value;
      FindNames(t, p);
      FindContinues(t, ROOT, Names(t, p), [name]);
      ChildFound(t, p, n, name);
      assert Find(t, p, [name]) == Find(t, n, []);
    }
  }

  // The text written so far is grown to the left until the root, a nameless node
  // or the length limit is met.
  ghost function PathFrom(t: Tree, n: NodeId, written: string): string
    requires TreeOk(t) && n in t
    decreases n
  {
    assert NodeOk(t, n);
    if t[n].kind.RootKind? || t[n].name.None? || |written| + |t[n].name.value| + 1 > PATH_MAX then written
    else if t[n].parent.None? then t[n].name.value + "/" + written
    else PathFrom(t, t[n].parent.value, t[n].name.value + "/" + written)
  }

  ghost function RealPath(t: Tree, n: NodeId): string
    requires TreeOk(t) && n in t
  {
    "/" + PathFrom(t, n, "")
  }

  lemma {:induction false} PathIsSuffix(t: Tree, n: NodeId, suffix: seq<string>) returns (j: nat)
    requires TreeOk(t) && n in t && Reachable(t, n)
    requires |Text(suffix)| <= PATH_MAX
    ensures j <= |Names(t, n)| && PathFrom(t, n, Text(suffix)) == Text(Names(t, n)[j..] + suffix)
    ensures j == 0 <==> |Text(Names(t, n) + suffix)| <= PATH_MAX
    decreases n
  {
    assert NodeOk(t, n);
    if n == ROOT {
      j := 0;
      assert Names(t, n)[0..] + suffix == suffix;
    } else {
      var p, longer := t[n].parent.value, [t[n].name.value] + suffix;
      LongerText(t[n].name.value, suffix);
      NamesOfChild(t, n, suffix);
      if |Text(longer)| <= PATH_MAX {
        j := PathIsSuffix(t, p, longer);
        DropOfSum(Names(t, p), t[n].name.value, suffix, j);
      } else {
        j := |Names(t, n)|;
        assert Names(t, n)[j..] + suffix == suffix;
        TextOfSum(Names(t, p), longer);
      }
    }
  }

  lemma LongerText(name: string, suffix: seq<string>)
    ensures Text([name] + suffix) == name + "/" + Text(suffix)
  {
    assert ([name] + suffix)[1..] == suffix;
  }

  lemma NamesOfChild(t: Tree, n: NodeId, suffix: seq<string>)
    requires TreeOk(t) && n in t && Reachable(t, n) && n != ROOT
    ensures t[n].parent.Some? && t[n].parent.value in t && Reachable(t, t[n].parent.value) && t[n].name.Some?
    ensures Names(t, n) == Names(t, t[n].parent.value) + [t[n].name.value]
    ensures Names(t, n) + suffix == Names(t, t[n].parent.value) + ([t[n].name.value] + suffix)
  {
    assert NodeOk(t, n);
  }

  lemma DropOfSum(names: seq<string>, name: string, suffix: seq<string>, j: nat)
    requires j <= |names|
    ensures (names + [name])[j..] + suffix == names[j..] + ([name] + suffix)
  {
  }

  // Writing only ever adds to the text.
  lemma {:induction false} PathGrows(t: Tree, n: NodeId, written: string)
    requires TreeOk(t) && n in t
    ensures |PathFrom(t, n, written)| >= |written|
    decreases n
  {
    assert NodeOk(t, n);
    if !(t[n].kind.RootKind? || t[n].name.None? || |written| + |t[n].name.value| + 1 > PATH_MAX || t[n].parent.None?) {
      PathGrows(t, t[n].parent.value, t[n].name.value + "/" + written);
    }
  }

  ghost function Depth(t: Tree, n: NodeId): nat
    requires TreeOk(t) && n in t
    decreases n
  {
    assert NodeOk(t, n);
    if t[n].parent.None? then 0 else Depth(t, t[n].parent.value) + 1
  }

  lemma {:induction false} FindGoesDown(t: Tree, n: NodeId, names: seq<string>)
    requires TreeOk(t) && n in t && forall i :: 0 <= i < |names| ==> Plain(names[i])
    ensures Find(t, n, names).child.Some? ==> Depth(t, Find(t, n, names).child.value) == Depth(t, n) + |names|
    decreases |names|
  {
    assert NodeOk(t, n);
    if names != [] && FindChild(t, n, names[0]).Some? {
      FindGoesDown(t, FindChild(t, n, names[0]).value, names[1..]);
    }
  }

  lemma {:induction false} DepthOfNames(t: Tree, n: NodeId)
    requires TreeOk(t) && n in t && Reachable(t, n)
    ensures Depth(t, n) == |Names(t, n)|
    decreases n
  {
    assert NodeOk(t, n);
    if n != ROOT {
      DepthOfNames(t, t[n].parent.value);
    }
  }

  /** The written path of a node leads back to that node exactly when it fits the limit. */
  lemma PathRoundTrip(t: Tree, n: NodeId)
    requires TreeOk(t) && DistinctNames(t) && n in t && Reachable(t, n)
    ensures Find(t, ROOT, Components(RealPath(t, n))).child == Some(n) <==> |Text(Names(t, n))| <= PATH_MAX
  {
    var names := Names(t, n);
    var j := PathIsSuffix(t, n, []);
    assert names + [] == names && names[j..] + [] == names[j..];
    TextRoundTrip(names[j..]);
    if j == 0 {
      FindNames(t, n);
    } else {
      FindGoesDown(t, ROOT, names[j..]);
      DepthOfNames(t, n);
    }
  }

  // The node found by a folder's path with a slash and a name appended.
  ghost function LookedUp(t: Tree, n: NodeId, name: string): Option<NodeId>
    requires TreeOk(t) && n in t
  {
    Find(t, ROOT, Components(RealPath(t, n) + "/" + name)).child
  }

  /** Appending any text to the path of a node asks for the names of the text below that node. */
  lemma ChildPath(t: Tree, n: NodeId, name: string)
    requires TreeOk(t) && DistinctNames(t) && n in t && Reachable(t, n)
    requires |Text(Names(t, n))| <= PATH_MAX
    ensures LookedUp(t, n, name) == Find(t, n, Components(name)).child
  {
    var names := Names(t, n);
    WholePath(t, n);
    ChildText(names, name);
    SlashIsSkipped(name);
    FindNames(t, n);
    FindContinues(t, ROOT, names, Components(name));
  }

  /** A plain name leads to the child of that name, if there is one; a dot or nothing stays, two dots go up. */
  lemma SimplePath(t: Tree, n: NodeId, name: string)
    requires TreeOk(t) && n in t && '/' !in name
    ensures Plain(name) ==> Find(t, n, Components(name)).child == FindChild(t, n, name)
    ensures !Plain(name) ==>
              Find(t, n, Components(name)).child ==
              Some(if name == ".." && t[n].parent.Some? then t[n].parent.value else n)
  {
    assert NodeOk(t, n);
    if name == "" {
      assert Components(name) == [];
    } else {
      SlashThenName(name);
      SlashIsSkipped(name);
      if Plain(name) {
        FindOne(t, n, name);
      } else {
        assert Find(t, n, [name]) == Find(t, if name == ".." then Upwards(t, n) else n, []);
      }
    }
  }

  lemma WholePath(t: Tree, n: NodeId)
    requires TreeOk(t) && n in t && Reachable(t, n) && |Text(Names(t, n))| <= PATH_MAX
    ensures RealPath(t, n) == "/" + Text(Names(t, n))
  {
    var names := Names(t, n);
    var j := PathIsSuffix(t, n, []);
    assert names + [] == names && names[0..] + [] == names;
  }

  lemma FindOne(t: Tree, n: NodeId, name: string)
    requires TreeOk(t) && n in t && Plain(name)
    ensures Find(t, n, [name]).child == FindChild(t, n, name)
  {
    assert NodeOk(t, n);
    var c := FindChild(t, n, name);
    if c.Some? {
      assert Find(t, n, [name]) == Find(t, c.value, []);
    }
  }

  // ----- names that hold a slash -----

  ghost predicate AtOrBelow(t: Tree, n: NodeId, c: NodeId)
    requires TreeOk(t) && n in t
    decreases n
  {
    assert NodeOk(t, n);
    n == c || (t[n].parent.Some? && AtOrBelow(t, t[n].parent.value, c))
  }

  // A lookup that starts outside never comes to the node or below it.
  lemma {:induction false} FindStaysOutside(t: Tree, n: NodeId, c: NodeId, names: seq<string>)
    requires TreeOk(t) && n in t && c in t && AllOrdinary(names)
    requires t[c].name.Some? && '/' in t[c].name.value && !AtOrBelow(t, n, c)
    ensures Find(t, n, names).child != Some(c)
    decreases |names|
  {
    assert NodeOk(t, n);
    if names != [] {
      if names[0] == ".." {
        FindStaysOutside(t, Upwards(t, n), c, names[1..]);
      } else if names[0] == "." {
        FindStaysOutside(t, n, c, names[1..]);
      } else {
        var x := FindChild(t, n, names[0]);
        if x.Some? {
          assert Ordinary(names[0]) && x.value != c;
          FindStaysOutside(t, x.value, c, names[1..]);
        }
      }
    }
  }

  /** No path at all leads to a node whose name holds a slash. */
  lemma NoPathToSlashName(t: Tree, c: NodeId, path: string)
    requires TreeOk(t) && c in t && t[c].parent.Some? && t[c].name.Some? && '/' in t[c].name.value
    ensures Find(t, ROOT, Components(path)).child != Some(c)
  {
    assert NodeOk(t, c) && NodeOk(t, ROOT);
    ComponentsOfPath(path);
    FindStaysOutside(t, ROOT, c, Components(path));
  }

  /** A child is found again by its folder's path and its name if and only if the name holds no slash. */
  lemma ChildFoundByPath(t: Tree, n: NodeId, name: string)
    requires TreeOk(t) && DistinctNames(t) && n in t && Reachable(t, n) && |Text(Names(t, n))| <= PATH_MAX
    requires FindChild(t, n, name).Some? && name !in {"", ".", ".."}
    ensures LookedUp(t, n, name) == FindChild(t, n, name) <==> '/' !in name
  {
    assert NodeOk(t, n);
    if '/' in name {
      NoPathToSlashName(t, FindChild(t, n, name).value, RealPath(t, n) + "/" + name);
    } else {
      ChildPath(t, n, name);
      SimplePath(t, n, name);
    }
  }

  // ----- paths that fit -----

  // What a lookup finds has a path no longer than the names that led there.
  lemma {:induction false} FoundIsShort(t: Tree, n: NodeId, names: seq<string>)
    requires TreeOk(t) && n in t && Reachable(t, n) && AllOrdinary(names)
    ensures var r := Find(t, n, names).child;
      r.Some? ==> Reachable(t, r.value) && |Text(Names(t, r.value))| <= |Text(Names(t, n))| + |Text(names)|
    decreases |names|
  {
    assert NodeOk(t, n);
    if names != [] {
      if names[0] == ".." {
        if n != ROOT {
          TextOfSum(Names(t, t[n].parent.value), [t[n].name.value]);
        }
        FoundIsShort(t, Upwards(t, n), names[1..]);
      } else if names[0] == "." {
        FoundIsShort(t, n, names[1..]);
      } else {
        var c := FindChild(t, n, names[0]);
        if c.Some? {
          assert NodeOk(t, c.value);
          assert Plain(names[0]);
          TextOfSum(Names(t, n), [names[0]]);
          assert [names[0]][1..] == [];
          FoundIsShort(t, c.value, names[1..]);
        }
      }
    }
  }

  /** The node that an absolute path within the limit leads to has a written path that leads back to it. */
  lemma FoundPathFits(t: Tree, path: string)
    requires TreeOk(t) && DistinctNames(t) && |path| <= PATH_MAX && path != "" && path[0] == '/'
    ensures var r := Find(t, ROOT, Components(path)).child;
      r.Some? ==>
        && Reachable(t, r.value) && |Text(Names(t, r.value))| <= |path|
        && Find(t, ROOT, Components(RealPath(t, r.value))).child == r
  {
    ComponentsOfPath(path);
    FoundIsShort(t, ROOT, Components(path));
    assert Names(t, ROOT) == [];
    var r := Find(t, ROOT, Components(path)).child;
    if r.Some? {
      PathRoundTrip(t, r.value);
    }
  }
}
