/**
  The cgroup v2 hierarchy (petra/src/fs/cgroup/tree.rs and the directory operations of petra/src/fs/cgroup/node.rs).
  Groups are named by inode number. A group that was removed stays in the table, because an open directory keeps it
  alive, but no link leads to it.
*/
module Cgroup {
  import opened Words

  type Ino = nat

  type Pid = nat

  const ROOT: Ino := 50_000

  datatype Node = Node(name: string, parent: Option<Ino>, subdirs: map<string, Ino>, pids: set<Pid>,
                       control: set<string>, maxDescendants: Option<nat>)

  type Tree = map<Ino, Node>

  // The shape of the hierarchy.

  predicate GoodName(name: string) { name != "" && name != "." && name != ".." && '/' !in name }

  predicate LinkOk(t: Tree, i: Ino, name: string)
    requires i in t && name in t[i].subdirs
  {
    var c := t[i].subdirs[name];
    c in t && c != ROOT && t[c].parent == Some(i) && t[c].name == name
  }

  /** Every group but the root has an older parent, and links agree with the parents and names of what they link. */
  ghost predicate Shape(t: Tree) {
    && ROOT in t && t[ROOT].parent.None? && t[ROOT].name == ""
    && (forall i :: i in t && i != ROOT ==>
          t[i].parent.Some? && t[i].parent.value in t && t[i].parent.value < i && GoodName(t[i].name))
    && (forall i, name :: i in t && name in t[i].subdirs ==> LinkOk(t, i, name))
  }

  /** The group's parent links to it. */
  predicate Linked(t: Tree, i: Ino)
    requires i in t
  {
    t[i].parent.Some? && t[i].parent.value in t && t[i].name in t[t[i].parent.value].subdirs
    && t[t[i].parent.value].subdirs[t[i].name] == i
  }

  /** `i` is reached from `n` by links. */
  ghost predicate Under(t: Tree, n: Ino, i: Ino)
    requires Shape(t) && n in t
    ensures Under(t, n, i) ==> i in t
    decreases i
  {
    i in t && (i == n || (i != ROOT && Linked(t, i) && Under(t, n, t[i].parent.value)))
  }

  ghost predicate Attached(t: Tree, i: Ino)
    requires Shape(t)
    ensures Attached(t, i) ==> i in t
  {
    Under(t, ROOT, i)
  }

  /** A link extends reachability by one step at the top. */
  lemma {:induction false} UnderLink(t: Tree, n: Ino, name: string, i: Ino)
    requires Shape(t) && n in t && name in t[n].subdirs && Under(t, t[n].subdirs[name], i)
    ensures Under(t, n, i) && i != n
    decreases i
  {
    var c := t[n].subdirs[name];
    assert LinkOk(t, n, name);
    if i != c {
      UnderLink(t, n, name, t[i].parent.value);
      UnderNotBefore(t, n, t[i].parent.value);
    }
  }

  lemma {:induction false} UnderNotBefore(t: Tree, n: Ino, i: Ino)
    requires Shape(t) && n in t && Under(t, n, i)
    ensures n <= i
    decreases i
  {
    if i != n { UnderNotBefore(t, n, t[i].parent.value); }
  }

  /** What is reached from a group is the group itself or is reached from one of its links. */
  lemma {:induction false} UnderSplit(t: Tree, n: Ino, i: Ino) returns (name: string)
    requires Shape(t) && n in t && Under(t, n, i) && i != n
    ensures name in t[n].subdirs && Under(t, t[n].subdirs[name], i)
    decreases i
  {
    var p := t[i].parent.value;
    if p == n {
      name := t[i].name;
    } else {
      name := UnderSplit(t, n, p);
      assert LinkOk(t, n, name);
    }
  }

  // Paths.

  /** The path of a group, with the root as the empty string. */
  ghost function PathTail(t: Tree, i: Ino): string
    requires Shape(t) && i in t
    decreases i
  {
    if i == ROOT then "" else PathTail(t, t[i].parent.value) + "/" + t[i].name
  }

  ghost function Path(t: Tree, i: Ino): string
    requires Shape(t) && i in t
  {
    if PathTail(t, i) == "" then "/" else PathTail(t, i)
  }

  /** The last component of a path is what follows its last slash. */
  lemma LastComponent(a: string, x: string, b: string, y: string)
    requires a + "/" + x == b + "/" + y && '/' !in x && '/' !in y
    ensures a == b && x == y
  {
    var s, r := a + "/" + x, b + "/" + y;
    assert s[|a|] == '/' && r[|b|] == '/';
    assert forall k :: |a| < k < |s| ==> s[k] == x[k - |a| - 1];
    assert forall k :: |b| < k < |r| ==> r[k] == y[k - |b| - 1];
    assert |a| == |b|;
    assert a == s[..|a|] && b == r[..|b|];
    assert x == s[|a| + 1..] && y == r[|b| + 1..];
  }

  lemma {:induction false} PathTailsDiffer(t: Tree, i: Ino, j: Ino)
    requires Shape(t) && Attached(t, i) && Attached(t, j) && PathTail(t, i) == PathTail(t, j)
    ensures i == j
    decreases i
  {
    if i != ROOT && j != ROOT {
      var p, q := t[i].parent.value, t[j].parent.value;
      LastComponent(PathTail(t, p), t[i].name, PathTail(t, q), t[j].name);
      PathTailsDiffer(t, p, q);
    }
  }

  /** Attached groups have different paths. */
  lemma PathsDiffer(t: Tree, i: Ino, j: Ino)
    requires Shape(t) && Attached(t, i) && Attached(t, j) && Path(t, i) == Path(t, j)
    ensures i == j
  {
    hide Under;
    assert i != ROOT ==> |PathTail(t, i)| >= 2;
    assert j != ROOT ==> |PathTail(t, j)| >= 2;
    PathTailsDiffer(t, i, j);
  }

  // Membership.

  /** No process is a member of two attached groups; the root's members are those of no other. */
  ghost predicate Inv(t: Tree) {
    && Shape(t)
    && t[ROOT].pids == {}
    && forall i, j, p :: Attached(t, i) && Attached(t, j) && p in t[i].pids && p in t[j].pids ==> i == j
  }

  /** The processes that some attached group below the root holds. */
  ghost predicate Assigned(t: Tree, p: Pid)
    requires Shape(t)
  {
    exists i :: Attached(t, i) && i != ROOT && p in t[i].pids
  }

  /** `cgroup.procs`, given the live processes. */
  ghost predicate Lists(t: Tree, live: set<Pid>, i: Ino, p: Pid)
    requires Shape(t) && i in t
  {
    p in live && if i == ROOT then !Assigned(t, p) else p in t[i].pids
  }

  /** The group a process belongs to. */
  ghost predicate Belongs(t: Tree, p: Pid, i: Ino)
    requires Shape(t)
  {
    Attached(t, i) && if i == ROOT then !Assigned(t, p) else p in t[i].pids
  }

  /** Membership is a partition: a live process is listed by exactly one attached group, the one it belongs to. */
  lemma ListedOnce(t: Tree, live: set<Pid>, p: Pid) returns (g: Ino)
    requires Inv(t) && p in live
    ensures Belongs(t, p, g)
    ensures forall i :: Attached(t, i) ==> (Lists(t, live, i, p) <==> i == g)
  {
    hide Under;
    AttachedRoot(t);
    if Assigned(t, p) {
      g :| Attached(t, g) && g != ROOT && p in t[g].pids;
    } else {
      g := ROOT;
    }
  }

  lemma AttachedRoot(t: Tree)
    requires Shape(t)
    ensures Attached(t, ROOT)
  {
  }

  // Operations.

  datatype Errno = EINVAL | EEXIST | EAGAIN | ENOENT | EBUSY

  predicate Enabled(t: Tree, dir: Ino, controller: string)
    requires dir in t
  {
    match t[dir].parent
    case None => true
    case Some(p) => p in t && controller in t[p].control
  }

  function ControlFiles(t: Tree, dir: Ino): set<string>
    requires dir in t
  {
    {"cgroup.controllers", "cgroup.subtree_control", "cgroup.procs", "cgroup.threads", "cgroup.events", "cgroup.type",
     "cgroup.stat", "cgroup.max.descendants", "cgroup.max.depth", "cgroup.freeze"}
    + (if Enabled(t, dir, "cpu") then {"cpu.weight", "cpu.max", "cpu.stat"} else {})
    + (if Enabled(t, dir, "memory") then {"memory.current", "memory.min", "memory.low", "memory.high", "memory.max",
                                          "memory.stat", "memory.events"} else {})
    + (if Enabled(t, dir, "pids") then {"pids.current", "pids.max", "pids.events"} else {})
    + (if Enabled(t, dir, "io") then {"io.stat", "io.max", "io.weight"} else {})
  }

  function MkdirError(t: Tree, dir: Ino, name: string): Option<Errno>
    requires dir in t
  {
    if !GoodName(name) then Some(EINVAL)
    else if name in ControlFiles(t, dir) || name in t[dir].subdirs then Some(EEXIST)
    else if t[dir].maxDescendants.Some? && |t[dir].subdirs| >= t[dir].maxDescendants.value then Some(EAGAIN)
    else None
  }

  function Made(t: Tree, ino: Ino, dir: Ino, name: string): Tree
    requires dir in t
  {
    t[ino := Node(name, Some(dir), map[], {}, {}, None)]
     [dir := t[dir].(subdirs := t[dir].subdirs[name := ino])]
  }

  function RmdirError(t: Tree, dir: Ino, name: string): Option<Errno>
    requires dir in t
  {
    if name !in t[dir].subdirs || t[dir].subdirs[name] !in t then Some(ENOENT)
    else if t[t[dir].subdirs[name]].pids != {} || t[t[dir].subdirs[name]].subdirs != map[] then Some(EBUSY)
    else None
  }

  function Unlinked(t: Tree, dir: Ino, name: string): Tree
    requires dir in t
  {
    t[dir := t[dir].(subdirs := t[dir].subdirs - {name})]
  }

  ghost function Subtree(t: Tree, n: Ino): (r: set<Ino>)
    requires Shape(t) && n in t
    ensures r <= t.Keys
  {
    set i | i in t && Under(t, n, i)
  }

  function Dropped(t: Tree, p: Pid, s: set<Ino>): Tree {
    map i | i in t :: if i in s then t[i].(pids := t[i].pids - {p}) else t[i]
  }

  function Inserted(t: Tree, p: Pid, target: Ino): Tree
    requires target in t
  {
    if target == ROOT then t else t[target := t[target].(pids := t[target].pids + {p})]
  }

  /** `move_process_to`; the target may be a group that has been removed. */
  ghost function Moved(t: Tree, p: Pid, target: Ino): Tree
    requires Shape(t) && target in t
  {
    Inserted(Dropped(t, p, Subtree(t, ROOT)), p, target)
  }

  // Operations keep the shape and change reachability only where they should.

  ghost predicate SameLinks(t: Tree, u: Tree) {
    && t.Keys == u.Keys
    && forall i :: i in t ==> t[i].name == u[i].name && t[i].parent == u[i].parent && t[i].subdirs == u[i].subdirs
  }

  lemma SameShape(t: Tree, u: Tree)
    requires Shape(t) && SameLinks(t, u)
    ensures Shape(u)
  {
    forall i, name | i in u && name in u[i].subdirs
      ensures LinkOk(u, i, name)
    {
      assert LinkOk(t, i, name);
    }
  }

  lemma {:induction false} SameUnder(t: Tree, u: Tree, n: Ino, i: Ino)
    requires Shape(t) && Shape(u) && SameLinks(t, u) && n in t
    ensures Under(t, n, i) == Under(u, n, i)
    decreases i
  {
    if i in t && i != ROOT {
      SameUnder(t, u, n, t[i].parent.value);
    }
  }

  lemma MadeShape(t: Tree, ino: Ino, dir: Ino, name: string)
    requires Shape(t) && dir in t && ino !in t && ino > dir && GoodName(name)
    ensures Shape(Made(t, ino, dir, name))
  {
    hide GoodName, LinkOk;
    var u := Made(t, ino, dir, name);
    forall i, m | i in u && m in u[i].subdirs
      ensures LinkOk(u, i, m)
    {
      MadeLink(t, ino, dir, name, i, m);
    }
    MadeParents(t, ino, dir, name);
  }

  lemma MadeLink(t: Tree, ino: Ino, dir: Ino, name: string, i: Ino, m: string)
    requires Shape(t) && dir in t && ino !in t && i in Made(t, ino, dir, name)
    requires m in Made(t, ino, dir, name)[i].subdirs
    ensures LinkOk(Made(t, ino, dir, name), i, m)
  {
    hide GoodName;
    if i != dir || m != name { assert LinkOk(t, i, m); }
  }

  lemma MadeParents(t: Tree, ino: Ino, dir: Ino, name: string)
    requires Shape(t) && dir in t && ino !in t && ino > dir && GoodName(name)
    ensures var u := Made(t, ino, dir, name);
            && ROOT in u && u[ROOT].parent.None? && u[ROOT].name == ""
            && forall i :: i in u && i != ROOT ==>
                 u[i].parent.Some? && u[i].parent.value in u && u[i].parent.value < i && GoodName(u[i].name)
  {
    hide GoodName, LinkOk;
  }

  lemma {:induction false} MadeUnder(t: Tree, ino: Ino, dir: Ino, name: string, i: Ino)
    requires Shape(t) && dir in t && ino !in t && name !in t[dir].subdirs
    requires Shape(Made(t, ino, dir, name)) && i in t
    ensures Attached(Made(t, ino, dir, name), i) == Attached(t, i)
    decreases i
  {
    hide GoodName;
    if i != ROOT {
      MadeUnder(t, ino, dir, name, t[i].parent.value);
    }
  }

  lemma UnlinkedShape(t: Tree, dir: Ino, name: string)
    requires Shape(t) && dir in t
    ensures Shape(Unlinked(t, dir, name))
  {
    hide GoodName;
    var u := Unlinked(t, dir, name);
    forall i, m | i in u && m in u[i].subdirs
      ensures LinkOk(u, i, m)
    {
      assert LinkOk(t, i, m);
    }
  }

  /** Removing a group without subgroups detaches that group and no other. */
  lemma {:induction false} UnlinkedUnder(t: Tree, dir: Ino, name: string, i: Ino)
    requires Shape(t) && dir in t && RmdirError(t, dir, name).None?
    requires Shape(Unlinked(t, dir, name)) && i in t
    ensures Attached(Unlinked(t, dir, name), i) == (Attached(t, i) && i != t[dir].subdirs[name])
    decreases i
  {
    hide GoodName;
    assert LinkOk(t, dir, name);
    if i != ROOT {
      UnlinkedUnder(t, dir, name, t[i].parent.value);
    }
  }

  lemma MadeKeepsInv(t: Tree, ino: Ino, dir: Ino, name: string)
    requires Inv(t) && dir in t && ino !in t && ino > dir && MkdirError(t, dir, name).None?
    ensures Inv(Made(t, ino, dir, name))
    ensures Attached(Made(t, ino, dir, name), ino) == Attached(t, dir)
  {
    hide GoodName, Under, ControlFiles, Shape;
    NewGroup(t, ino, dir, name);
    var u := Made(t, ino, dir, name);
    MadeShape(t, ino, dir, name);
    RootInTree(t);
    forall i, j, p | Attached(u, i) && Attached(u, j) && p in u[i].pids && p in u[j].pids
      ensures i == j
    {
      assert i in t && j in t;
      MadeUnder(t, ino, dir, name, i);
      MadeUnder(t, ino, dir, name, j);
    }
  }

  /** A new group is attached exactly when its parent is. */
  lemma NewGroup(t: Tree, ino: Ino, dir: Ino, name: string)
    requires Shape(t) && dir in t && ino !in t && ino > dir && GoodName(name) && name !in t[dir].subdirs
    ensures Shape(Made(t, ino, dir, name)) && Attached(Made(t, ino, dir, name), ino) == Attached(t, dir)
  {
    hide GoodName, LinkOk, Shape;
    MadeShape(t, ino, dir, name);
    MadeUnder(t, ino, dir, name, dir);
    RootInTree(t);
    RootLow(t, dir);
  }

  lemma {:induction false} RootLow(t: Tree, i: Ino)
    requires Shape(t) && i in t
    ensures ROOT <= i
    decreases i
  {
    hide GoodName, LinkOk;
    if i != ROOT { RootLow(t, t[i].parent.value); }
  }

  lemma RootInTree(t: Tree)
    requires Shape(t)
    ensures ROOT in t
  {
  }

  lemma UnlinkedKeepsInv(t: Tree, dir: Ino, name: string)
    requires Inv(t) && dir in t && RmdirError(t, dir, name).None?
    ensures Inv(Unlinked(t, dir, name))
  {
    hide GoodName, Under, RmdirError, Shape;
    var u := Unlinked(t, dir, name);
    UnlinkedShape(t, dir, name);
    RootInTree(t);
    forall i, j, p | Attached(u, i) && Attached(u, j) && p in u[i].pids && p in u[j].pids
      ensures i == j
    {
      UnlinkedUnder(t, dir, name, i);
      UnlinkedUnder(t, dir, name, j);
    }
  }

  lemma MovedShape(t: Tree, p: Pid, target: Ino)
    requires Shape(t) && target in t
    ensures SameLinks(t, Moved(t, p, target)) && Shape(Moved(t, p, target))
  {
    hide GoodName, Under, LinkOk, Shape;
    RootInTree(t);
    SameShape(t, Moved(t, p, target));
  }

  lemma MovedKeepsInv(t: Tree, p: Pid, target: Ino)
    requires Inv(t) && target in t
    ensures Inv(Moved(t, p, target)) && Moved(t, p, target).Keys == t.Keys
    ensures Attached(t, target) ==> Belongs(Moved(t, p, target), p, target)
  {
    hide GoodName, Under, LinkOk, Shape;
    RootInTree(t);
    MovedShape(t, p, target);
    var u := Moved(t, p, target);
    forall i
      ensures Attached(u, i) == Attached(t, i)
    {
      SameUnder(t, u, ROOT, i);
    }
  }

  // Runs.

  datatype System = System(tree: Tree, next: Ino)

  datatype Op =
    | Mkdir(dir: Ino, name: string)
    | Rmdir(dir: Ino, name: string)
    | Move(p: Pid, target: Ino)
    | Tune(dir: Ino, control: set<string>, maxDescendants: Option<nat>)
    | AllocIno

  ghost predicate SystemInv(s: System) { Inv(s.tree) && forall i :: i in s.tree ==> i < s.next }

  function Initial(): System { System(map[ROOT := Node("", None, map[], {}, {}, None)], ROOT + 1) }

  ghost function Next(s: System, op: Op): System
    requires SystemInv(s)
  {
    match op
    case Mkdir(dir, name) =>
      if dir in s.tree && MkdirError(s.tree, dir, name).None?
      then System(Made(s.tree, s.next, dir, name), s.next + 1) else s
    case Rmdir(dir, name) =>
      if dir in s.tree && RmdirError(s.tree, dir, name).None? then s.(tree := Unlinked(s.tree, dir, name)) else s
    case Move(p, target) => if target in s.tree then s.(tree := Moved(s.tree, p, target)) else s
    case Tune(dir, control, max) =>
      if dir in s.tree
      then s.(tree := s.tree[dir := s.tree[dir].(control := control, maxDescendants := max)]) else s
    case AllocIno => s.(next := s.next + 1)
  }

  lemma InitialInv()
    ensures SystemInv(Initial())
  {
  }

  lemma TunedKeepsInv(t: Tree, u: Tree)
    requires Inv(t) && SameLinks(t, u) && forall i :: i in t ==> t[i].pids == u[i].pids
    ensures Inv(u)
  {
    hide GoodName, Under, LinkOk, Shape;
    RootInTree(t);
    SameShape(t, u);
    forall i
      ensures Attached(u, i) == Attached(t, i)
    {
      SameUnder(t, u, ROOT, i);
    }
  }

  lemma StepKeepsInv(s: System, op: Op)
    requires SystemInv(s)
    ensures SystemInv(Next(s, op))
  {
    hide Inv, MkdirError, RmdirError;
    match op
    case Mkdir(dir, name) =>
      if dir in s.tree && MkdirError(s.tree, dir, name).None? { MadeKeepsInv(s.tree, s.next, dir, name); }
    case Rmdir(dir, name) =>
      if dir in s.tree && RmdirError(s.tree, dir, name).None? { UnlinkedKeepsInv(s.tree, dir, name); }
    case Move(p, target) =>
      if target in s.tree { MovedKeepsInv(s.tree, p, target); }
    case Tune(dir, control, max) =>
      if dir in s.tree { TunedKeepsInv(s.tree, Next(s, op).tree); }
    case AllocIno =>
  }

  /** The state after any run of operations on any groups, attached or not. */
  ghost function Run(ops: seq<Op>): (s: System)
    ensures SystemInv(s)
  {
    if ops == [] then
      InitialInv();
      Initial()
    else
      var r := Run(ops[..|ops| - 1]);
      StepKeepsInv(r, ops[|ops| - 1]);
      Next(r, ops[|ops| - 1])
  }

  /** After every run a live process is listed by exactly one attached group, and that group's path names no other. */
  lemma EveryRunPartitions(ops: seq<Op>, live: set<Pid>, p: Pid) returns (g: Ino)
    requires p in live
    ensures var t := Run(ops).tree;
            && Belongs(t, p, g)
            && (forall i :: Attached(t, i) ==> (Lists(t, live, i, p) <==> i == g))
            && (forall i :: Attached(t, i) && Path(t, i) == Path(t, g) ==> i == g)
  {
    hide Run, Under, Shape;
    var t := Run(ops).tree;
    g := ListedOnce(t, live, p);
    forall i | Attached(t, i) && Path(t, i) == Path(t, g)
      ensures i == g
    {
      PathsDiffer(t, i, g);
    }
  }

  // The names below one group, visited in some order.

  /** What has been reached once the links in `names` have been followed. */
  ghost function Covered(t: Tree, n: Ino, names: set<string>): (r: set<Ino>)
    requires Shape(t) && n in t
    ensures r <= t.Keys
  {
    set i | i in t && (i == n || exists m :: m in names && m in t[n].subdirs && UnderVia(t, n, m, i))
  }

  ghost predicate UnderVia(t: Tree, n: Ino, m: string, i: Ino)
    requires Shape(t) && n in t && m in t[n].subdirs
  {
    LinkOk(t, n, m) && Under(t, t[n].subdirs[m], i)
  }

  lemma CoveredNone(t: Tree, n: Ino)
    requires Shape(t) && n in t
    ensures Covered(t, n, {}) == {n}
  {
  }

  lemma CoveredAdd(t: Tree, n: Ino, names: set<string>, m: string)
    requires Shape(t) && n in t && m in t[n].subdirs && t[n].subdirs[m] in t
    ensures Covered(t, n, names + {m}) == Covered(t, n, names) + Subtree(t, t[n].subdirs[m])
  {
    hide Under, Shape;
    LinkHolds(t, n, m);
    forall i | i in t
      ensures i in Covered(t, n, names + {m}) <==> i in Covered(t, n, names) + Subtree(t, t[n].subdirs[m])
    {
      assert UnderVia(t, n, m, i) == Under(t, t[n].subdirs[m], i);
    }
  }

  lemma LinkHolds(t: Tree, n: Ino, m: string)
    requires Shape(t) && n in t && m in t[n].subdirs
    ensures LinkOk(t, n, m) && t[n].subdirs[m] > n
  {
  }

  lemma CoveredAll(t: Tree, n: Ino)
    requires Shape(t) && n in t
    ensures Covered(t, n, t[n].subdirs.Keys) == Subtree(t, n)
  {
    hide Shape, Under;
    forall i | i in t
      ensures i in Covered(t, n, t[n].subdirs.Keys) <==> i in Subtree(t, n)
    {
      if i == n {
        UnderSelf(t, n);
      } else if Under(t, n, i) {
        var m := UnderSplit(t, n, i);
        LinkHolds(t, n, m);
        assert UnderVia(t, n, m, i);
      } else if i in Covered(t, n, t[n].subdirs.Keys) {
        var m :| m in t[n].subdirs && UnderVia(t, n, m, i);
        UnderLink(t, n, m, i);
      }
    }
  }

  lemma UnderSelf(t: Tree, n: Ino)
    requires Shape(t) && n in t
    ensures Under(t, n, n)
  {
  }

  lemma DroppedTwice(t: Tree, p: Pid, a: set<Ino>, b: set<Ino>)
    ensures Dropped(Dropped(t, p, a), p, b) == Dropped(t, p, a + b)
  {
    forall i | i in t
      ensures Dropped(Dropped(t, p, a), p, b)[i] == Dropped(t, p, a + b)[i]
    {
      assert t[i].pids - {p} - {p} == t[i].pids - {p};
    }
  }

  lemma DroppedSubtree(t: Tree, p: Pid, a: set<Ino>, n: Ino)
    requires Shape(t) && n in t
    ensures Shape(Dropped(t, p, a)) && Subtree(Dropped(t, p, a), n) == Subtree(t, n)
  {
    hide Under, Shape;
    var u := Dropped(t, p, a);
    SameShape(t, u);
    forall i
      ensures Under(t, n, i) == Under(u, n, i)
    {
      SameUnder(t, u, n, i);
    }
  }

  lemma DroppedOne(t: Tree, p: Pid, n: Ino)
    requires n in t
    ensures Dropped(t, p, {n}) == t[n := t[n].(pids := t[n].pids - {p})]
  {
  }

  lemma DroppedLinks(t: Tree, p: Pid, a: set<Ino>, n: Ino)
    requires n in t
    ensures Dropped(t, p, a).Keys == t.Keys && Dropped(t, p, a)[n].subdirs == t[n].subdirs
  {
  }

  lemma LinkTarget(t: Tree, n: Ino, m: string)
    requires n in t && m in t[n].subdirs && LinkOk(t, n, m)
    ensures t[n].subdirs[m] in t
  {
  }

  lemma SubtreeAbove(t: Tree, n: Ino)
    requires Shape(t) && n in t
    ensures n in Subtree(t, n) && Subtree(t, n) <= t.Keys && forall i :: i in Subtree(t, n) ==> i >= n
  {
    hide Shape, Under;
    UnderSelf(t, n);
    forall i | i in Subtree(t, n)
      ensures i >= n
    {
      UnderNotBefore(t, n, i);
    }
  }

  lemma LinkNotRoot(t: Tree, n: Ino, m: string)
    requires n in t && m in t[n].subdirs && LinkOk(t, n, m)
    ensures t[n].subdirs[m] != ROOT
  {
  }

  // The path as a list of components, innermost first.

  function Slashed(x: string): string { if x == "" then "" else "/" + x }

  function Joined(parts: seq<string>): string {
    if parts == [] then "" else Joined(parts[1..]) + Slashed(parts[0])
  }

  lemma {:induction false} JoinedLast(parts: seq<string>, x: string)
    ensures Joined(parts + [x]) == Slashed(x) + Joined(parts)
  {
    hide Slashed;
    if parts == [] {
      assert (parts + [x])[1..] == [];
    } else {
      var rest := parts[1..];
      JoinedLast(rest, x);
      assert (parts + [x])[1..] == rest + [x];
      Assoc(Slashed(x), Joined(rest), Slashed(parts[0]));
    }
  }

  lemma Assoc(a: string, b: string, c: string)
    ensures a + (b + c) == (a + b) + c
  {
  }

  lemma ShapeOf(t: Tree)
    requires Inv(t)
    ensures Shape(t)
  {
  }

  lemma RootPath(t: Tree)
    requires Shape(t)
    ensures ROOT in t && Path(t, ROOT) == "/"
  {
  }

  lemma JoinedOne(x: string)
    ensures Joined([x]) == Slashed(x)
  {
    assert Joined([x][1..]) == "";
  }

  lemma SlashedRoot()
    ensures Slashed("") == ""
  {
  }

  lemma Ancestor(t: Tree, i: Ino)
    requires Shape(t) && i in t
    ensures t[i].parent.None? ==> t[i].name == "" && PathTail(t, i) == ""
    ensures t[i].parent.Some? ==>
              var p := t[i].parent.value;
              p in t && p < i && t[i].name != "" && PathTail(t, i) == PathTail(t, p) + Slashed(t[i].name)
  {
    if i != ROOT {
      Assoc(PathTail(t, t[i].parent.value), "/", t[i].name);
    }
  }

  method JoinParts(parts: seq<string>) returns (r: string)
    ensures r == Joined(parts)
  {
    hide Joined;
    r := "";
    var k := |parts|;
    assert parts[..k] == parts;
    while k > 0
      invariant 0 <= k <= |parts| && r + Joined(parts[..k]) == Joined(parts)
    {
      k := k - 1;
      assert parts[..k + 1] == parts[..k] + [parts[k]];
      JoinedLast(parts[..k], parts[k]);
      Assoc(r, Slashed(parts[k]), Joined(parts[..k]));
      if parts[k] != "" {
        Assoc(r, "/", parts[k]);
        r := r + "/" + parts[k];
      }
    }
    JoinedEmpty(parts[..0]);
  }

  lemma JoinedEmpty(parts: seq<string>)
    requires parts == []
    ensures Joined(parts) == ""
  {
  }

  datatype Outcome<T> = Ok(value: T) | Err(error: Errno)

  class CgroupTree {
    var nodes: Tree
    var next: Ino

    ghost predicate Valid()
      reads this
    {
      SystemInv(System(nodes, next))
    }

    constructor ()
      ensures Valid() && System(nodes, next) == Initial()
    {
      nodes, next := Initial().tree, Initial().next;
      new;
      InitialInv();
    }

    method MakeDir(dir: Ino, name: string) returns (r: Outcome<Ino>)
      requires Valid() && dir in nodes
      modifies this
      ensures Valid() && System(nodes, next) == Next(old(System(nodes, next)), Mkdir(dir, name))
      ensures match MkdirError(old(nodes), dir, name)
              case Some(e) => r == Err(e)
              case None => r == Ok(old(next))
    {
      hide Inv, ControlFiles;
      if name == "" || name == "." || name == ".." || '/' in name {
        return Err(EINVAL);
      }
      if name in ControlFiles(nodes, dir) {
        return Err(EEXIST);
      }
      if name in nodes[dir].subdirs {
        return Err(EEXIST);
      }
      if nodes[dir].maxDescendants.Some? {
        if |nodes[dir].subdirs| >= nodes[dir].maxDescendants.value {
          return Err(EAGAIN);
        }
      }
      StepKeepsInv(System(nodes, next), Mkdir(dir, name));
      var child := Node(name, Some(dir), map[], {}, {}, None);
      var ino := next;
      next := next + 1;
      nodes := nodes[ino := child];
      nodes := nodes[dir := nodes[dir].(subdirs := nodes[dir].subdirs[name := ino])];
      return Ok(ino);
    }

    method RemoveDir(dir: Ino, name: string) returns (r: Outcome<()>)
      requires Valid() && dir in nodes
      modifies this
      ensures Valid() && System(nodes, next) == Next(old(System(nodes, next)), Rmdir(dir, name))
      ensures match RmdirError(old(nodes), dir, name)
              case Some(e) => r == Err(e)
              case None => r == Ok(())
    {
      hide LinkOk, GoodName, Under;
      if name !in nodes[dir].subdirs {
        return Err(ENOENT);
      }
      LinkHolds(nodes, dir, name);
      var sub := nodes[nodes[dir].subdirs[name]];
      if sub.pids != {} || sub.subdirs != map[] {
        return Err(EBUSY);
      }
      StepKeepsInv(System(nodes, next), Rmdir(dir, name));
      nodes := nodes[dir := nodes[dir].(subdirs := nodes[dir].subdirs - {name})];
      return Ok(());
    }

    method RemovePid(n: Ino, p: Pid)
      requires Shape(nodes) && n in nodes && forall i :: i in nodes ==> i < next
      modifies `nodes
      ensures nodes == Dropped(old(nodes), p, Subtree(old(nodes), n))
      decreases next - n
    {
      hide Shape, Under, Dropped, Subtree, Covered, LinkOk;
      ghost var t := nodes;
      nodes := nodes[n := nodes[n].(pids := nodes[n].pids - {p})];
      DroppedOne(t, p, n);
      CoveredNone(t, n);
      var todo := nodes[n].subdirs.Keys;
      ghost var done: set<string> := {};
      while todo != {}
        invariant done + todo == t[n].subdirs.Keys
        invariant nodes == Dropped(t, p, Covered(t, n, done))
        decreases todo
      {
        var m :| m in todo;
        todo := todo - {m};
        DroppedLinks(t, p, Covered(t, n, done), n);
        LinkHolds(t, n, m);
        LinkTarget(t, n, m);
        var c := nodes[n].subdirs[m];
        DroppedSubtree(t, p, Covered(t, n, done), c);
        RemovePid(c, p);
        DroppedTwice(t, p, Covered(t, n, done), Subtree(t, c));
        CoveredAdd(t, n, done, m);
        done := done + {m};
      }
      CoveredAll(t, n);
    }

    method MoveProcessTo(p: Pid, target: Ino)
      requires Valid() && target in nodes
      modifies this
      ensures Valid() && System(nodes, next) == Next(old(System(nodes, next)), Move(p, target))
    {
      hide Under, Dropped, Subtree;
      StepKeepsInv(System(nodes, next), Move(p, target));
      DroppedLinks(nodes, p, Subtree(nodes, ROOT), target);
      RemovePid(ROOT, p);
      if target != ROOT {
        nodes := nodes[target := nodes[target].(pids := nodes[target].pids + {p})];
      }
    }

    method CollectPids(n: Ino, acc: set<Pid>) returns (r: set<Pid>)
      requires Valid() && n in nodes
      ensures forall p :: p in r <==> p in acc || exists i :: i in Subtree(nodes, n) && i != n && p in nodes[i].pids
      decreases next - n
    {
      hide Shape, Under, Subtree, Covered, LinkOk;
      var todo := nodes[n].subdirs.Keys;
      ghost var done: set<string> := {};
      r := acc;
      CoveredNone(nodes, n);
      while todo != {}
        invariant done + todo == nodes[n].subdirs.Keys
        invariant forall p :: p in r <==>
                    p in acc || exists i :: i in Covered(nodes, n, done) && i != n && p in nodes[i].pids
        decreases todo
      {
        var m :| m in todo;
        todo := todo - {m};
        LinkHolds(nodes, n, m);
        LinkTarget(nodes, n, m);
        var c := nodes[n].subdirs[m];
        r := r + nodes[c].pids;
        r := CollectPids(c, r);
        CoveredAdd(nodes, n, done, m);
        SubtreeAbove(nodes, c);
        done := done + {m};
      }
      CoveredAll(nodes, n);
    }

    method Populated(n: Ino, live: set<Pid>) returns (r: bool)
      requires Valid() && n in nodes
      ensures n != ROOT ==> (r <==> exists i :: i in Subtree(nodes, n) && nodes[i].pids != {})
      ensures n == ROOT ==> (r <==> live != {})
      decreases next - n
    {
      hide Shape, Under, Subtree, Covered, LinkOk;
      if n == ROOT {
        return live != {};
      }
      CoveredAll(nodes, n);
      CoveredNone(nodes, n);
      SubtreeAbove(nodes, n);
      if nodes[n].pids != {} {
        return true;
      }
      var todo := nodes[n].subdirs.Keys;
      ghost var done: set<string> := {};
      while todo != {}
        invariant done + todo == nodes[n].subdirs.Keys
        invariant forall i :: i in Covered(nodes, n, done) ==> nodes[i].pids == {}
        decreases todo
      {
        var m :| m in todo;
        todo := todo - {m};
        LinkHolds(nodes, n, m);
        LinkTarget(nodes, n, m);
        var c := nodes[n].subdirs[m];
        LinkNotRoot(nodes, n, m);
        CoveredAdd(nodes, n, done, m);
        CoveredAdd(nodes, n, nodes[n].subdirs.Keys, m);
        assert nodes[n].subdirs.Keys + {m} == nodes[n].subdirs.Keys;
        var sub := Populated(c, live);
        if sub {
          return true;
        }
        done := done + {m};
      }
      return false;
    }

    method CgroupPath(n: Ino) returns (path: string)
      requires Valid() && n in nodes
      ensures path == Path(nodes, n)
    {
      hide Under, LinkOk, Inv, Joined, Shape, PathTail, Slashed;
      ShapeOf(nodes);
      var parts := [nodes[n].name];
      var curr := nodes[n].parent;
      JoinedOne(nodes[n].name);
      Ancestor(nodes, n);
      SlashedRoot();
      while curr.Some?
        invariant curr.Some? ==> curr.value in nodes
        invariant curr.Some? ==> PathTail(nodes, n) == PathTail(nodes, curr.value) + Joined(parts)
        invariant curr.None? ==> PathTail(nodes, n) == Joined(parts)
        decreases if curr.Some? then curr.value + 1 else 0
      {
        var i := curr.value;
        Ancestor(nodes, i);
        if nodes[i].name != "" {
          JoinedLast(parts, nodes[i].name);
          if nodes[i].parent.Some? {
            Assoc(PathTail(nodes, nodes[i].parent.value), Slashed(nodes[i].name), Joined(parts));
          }
          parts := parts + [nodes[i].name];
        }
        curr := nodes[i].parent;
      }
      path := JoinParts(parts);
      if path == "" {
        path := "/";
      }
    }

    method FindPidInNode(n: Ino, p: Pid) returns (r: Option<string>)
      requires Valid() && n in nodes
      ensures match r
              case None => forall i :: i in Subtree(nodes, n) && i != n ==> p !in nodes[i].pids
              case Some(path) =>
                exists i :: i in Subtree(nodes, n) && i != n && p in nodes[i].pids && path == Path(nodes, i)
      decreases next - n
    {
      hide Shape, Under, Subtree, Covered, LinkOk, Path;
      var todo := nodes[n].subdirs.Keys;
      ghost var done: set<string> := {};
      CoveredNone(nodes, n);
      CoveredAll(nodes, n);
      while todo != {}
        invariant done + todo == nodes[n].subdirs.Keys
        invariant forall i :: i in Covered(nodes, n, done) && i != n ==> p !in nodes[i].pids
        decreases todo
      {
        var m :| m in todo;
        todo := todo - {m};
        LinkHolds(nodes, n, m);
        LinkTarget(nodes, n, m);
        var c := nodes[n].subdirs[m];
        CoveredAdd(nodes, n, done, m);
        CoveredAdd(nodes, n, nodes[n].subdirs.Keys, m);
        assert nodes[n].subdirs.Keys + {m} == nodes[n].subdirs.Keys;
        SubtreeAbove(nodes, c);
        if p in nodes[c].pids {
          var path := CgroupPath(c);
          return Some(path);
        }
        var sub := FindPidInNode(c, p);
        if sub.Some? {
          return sub;
        }
        done := done + {m};
      }
      return None;
    }

    /** The path of the group the process belongs to. */
    method FindProcCgroup(p: Pid) returns (path: string)
      requires Valid()
      ensures forall g :: Belongs(nodes, p, g) ==> path == Path(nodes, g)
    {
      hide Shape, Under, LinkOk;
      RootInTree(nodes);
      var found := FindPidInNode(ROOT, p);
      AttachedRoot(nodes);
      RootPath(nodes);
      if found.Some? {
        path := found.value;
      } else {
        path := "/";
      }
    }

    /** `cgroup.procs` before it is sorted and printed. */
    method ReadProcs(n: Ino, live: set<Pid>) returns (r: set<Pid>)
      requires Valid() && n in nodes
      ensures forall p :: p in r <==> Lists(nodes, live, n, p)
    {
      hide Shape, Under, LinkOk;
      if n == ROOT {
        var elsewhere := CollectPids(ROOT, {});
        r := live - elsewhere;
      } else {
        r := nodes[n].pids * live;
      }
    }
  }
}
