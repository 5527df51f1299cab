/**
  Migrations one locked section at a time (petra/src/fs/cgroup/tree.rs). `move_process_to` removes the process under
  the lock of the root and inserts it under the lock of the target; anything else, another migration included, can
  come in between.
*/
module CgroupRace {
  import opened Words
  import opened Cgroup

  /** A migration that has removed its process and not yet inserted it. */
  datatype Flight = Flight(p: Pid, target: Ino)

  datatype Race = Race(sys: System, flying: seq<Flight>)

  datatype Move =
    | Remove(p: Pid, target: Ino)
    | Insert(k: nat)
    | Other(op: Op)

  ghost predicate Ok(r: Race) {
    SystemInv(r.sys) && forall k :: 0 <= k < |r.flying| ==> r.flying[k].target in r.sys.tree
  }

  predicate Enabled(r: Race, m: Move) {
    match m
    case Remove(_, target) => target in r.sys.tree
    case Insert(k) => k < |r.flying|
    case Other(op) => !op.Move?
  }

  function WithTree(r: Race, t: Tree): Race { r.(sys := r.sys.(tree := t)) }

  ghost function Apply(r: Race, m: Move): Race
    requires Ok(r) && Enabled(r, m)
  {
    match m
    case Remove(p, target) =>
      WithTree(r, Dropped(r.sys.tree, p, Subtree(r.sys.tree, ROOT))).(flying := r.flying + [Flight(p, target)])
    case Insert(k) =>
      WithTree(r, Inserted(r.sys.tree, r.flying[k].p, r.flying[k].target))
        .(flying := r.flying[..k] + r.flying[k + 1..])
    case Other(op) => r.(sys := Next(r.sys, op))
  }

  /** Some attached group other than `target` holds the process. */
  ghost predicate HeldElsewhere(t: Tree, p: Pid, target: Ino)
    requires Shape(t)
  {
    exists i :: Attached(t, i) && i != target && p in t[i].pids
  }

  /** An insertion keeps attached groups disjoint exactly when no other attached group holds the process, unless the
      target is the root or no longer attached. */
  lemma InsertedInvIff(t: Tree, p: Pid, target: Ino)
    requires Inv(t) && target in t
    ensures Inv(Inserted(t, p, target))
       <==> (target == ROOT || !Attached(t, target) || !HeldElsewhere(t, p, target))
  {
    hide Under, LinkOk, GoodName, Shape;
    var u := Inserted(t, p, target);
    InsertedLinks(t, p, target);
    RootInTree(t);
    forall i
      ensures Attached(u, i) == Attached(t, i)
    {
      SameUnder(t, u, ROOT, i);
    }
    if target != ROOT && Attached(t, target) && HeldElsewhere(t, p, target) {
      var i: Ino :| Attached(t, i) && i != target && p in t[i].pids;
      assert i in t;
      assert p in u[i].pids && p in u[target].pids && Attached(u, i) && Attached(u, target);
    }
  }

  lemma InsertedLinks(t: Tree, p: Pid, target: Ino)
    requires Shape(t) && target in t
    ensures SameLinks(t, Inserted(t, p, target)) && Shape(Inserted(t, p, target))
  {
    hide Under, LinkOk, GoodName, Shape;
    SameShape(t, Inserted(t, p, target));
  }

  lemma DroppedInv(t: Tree, p: Pid)
    requires Inv(t)
    ensures var u := Dropped(t, p, Subtree(t, ROOT));
            && u.Keys == t.Keys && Inv(u) && !Assigned(u, p)
            && forall q :: Assigned(u, q) ==> Assigned(t, q)
  {
    hide Under, LinkOk, GoodName, Shape;
    RootInTree(t);
    var u := Dropped(t, p, Subtree(t, ROOT));
    SameShape(t, u);
    forall i
      ensures Attached(u, i) == Attached(t, i)
    {
      SameUnder(t, u, ROOT, i);
    }
  }

  /** What the two sections ask of each other. */
  ghost predicate Safe(r: Race, m: Move)
    requires Ok(r) && Enabled(r, m)
  {
    m.Insert? ==>
      var f := r.flying[m.k];
      f.target == ROOT || !Attached(r.sys.tree, f.target) || !HeldElsewhere(r.sys.tree, f.p, f.target)
  }

  lemma MoveInvIff(r: Race, m: Move)
    requires Ok(r) && Enabled(r, m)
    ensures Ok(Apply(r, m)) <==> Safe(r, m)
  {
    hide Inv, Cgroup.Next, Assigned, Shape, Attached;
    match m
    case Remove(p, _) => DroppedInv(r.sys.tree, p);
    case Insert(k) =>
      InvShape(r.sys.tree);
      InsertedLinks(r.sys.tree, r.flying[k].p, r.flying[k].target);
      InsertedInvIff(r.sys.tree, r.flying[k].p, r.flying[k].target);
    case Other(op) =>
      StepKeepsInv(r.sys, op);
      NextKeys(r.sys, op);
  }

  lemma InvShape(t: Tree)
    requires Inv(t)
    ensures Shape(t)
  {
  }

  lemma NextKeys(s: System, op: Op)
    requires SystemInv(s)
    ensures s.tree.Keys <= Next(s, op).tree.Keys
  {
    hide Inv, MkdirError, RmdirError;
    if op.Move? && op.target in s.tree {
      InvShape(s.tree);
      MovedKeepsInv(s.tree, op.p, op.target);
    }
  }

  // Migrations of one process that do not overlap.

  /** Processes in flight are all different and in no attached group. */
  ghost predicate Aloft(r: Race)
    requires Ok(r)
  {
    && (forall j, k :: 0 <= j < k < |r.flying| ==> r.flying[j].p != r.flying[k].p)
    && (forall k :: 0 <= k < |r.flying| ==> !Assigned(r.sys.tree, r.flying[k].p))
  }

  predicate Apart(r: Race, m: Move) {
    m.Remove? ==> forall k :: 0 <= k < |r.flying| ==> r.flying[k].p != m.p
  }

  lemma NoNewMembers(s: System, op: Op, p: Pid)
    requires SystemInv(s) && !op.Move?
    ensures SystemInv(Next(s, op)) && (Assigned(Next(s, op).tree, p) ==> Assigned(s.tree, p))
  {
    hide Under, LinkOk, GoodName, Shape, ControlFiles;
    StepKeepsInv(s, op);
    RootInTree(s.tree);
    var u := Next(s, op).tree;
    if Assigned(u, p) {
      var i :| Attached(u, i) && i != ROOT && p in u[i].pids;
      match op
      case Mkdir(dir, name) =>
        if dir in s.tree && MkdirError(s.tree, dir, name).None? { MadeUnder(s.tree, s.next, dir, name, i); }
      case Rmdir(dir, name) =>
        if dir in s.tree && RmdirError(s.tree, dir, name).None? { UnlinkedUnder(s.tree, dir, name, i); }
      case Tune(dir, _, _) =>
        if dir in s.tree { SameUnder(s.tree, u, ROOT, i); }
      case AllocIno =>
    }
  }

  /** As long as no process is migrated twice at once, every section keeps the partition. */
  lemma ApartKeeps(r: Race, m: Move)
    requires Ok(r) && Aloft(r) && Enabled(r, m) && Apart(r, m)
    ensures Ok(Apply(r, m)) && Aloft(Apply(r, m))
  {
    hide Inv, Cgroup.Next, Assigned, Shape, Attached;
    match m
    case Remove(p, _) => DroppedInv(r.sys.tree, p);
    case Insert(k) =>
      InvShape(r.sys.tree);
      var f := r.flying[k];
      InsertedLinks(r.sys.tree, f.p, f.target);
      NotHeld(r.sys.tree, f.p, f.target);
      InsertedInvIff(r.sys.tree, f.p, f.target);
      forall j | 0 <= j < |r.flying| && j != k
        ensures !Assigned(Inserted(r.sys.tree, f.p, f.target), r.flying[j].p)
      {
        InsertedOthers(r.sys.tree, f.p, f.target, r.flying[j].p);
      }
    case Other(op) =>
      StepKeepsInv(r.sys, op);
      InvShape(Apply(r, m).sys.tree);
      NextKeys(r.sys, op);
      forall k | 0 <= k < |r.flying|
        ensures !Assigned(Apply(r, m).sys.tree, r.flying[k].p)
      {
        NoNewMembers(r.sys, op, r.flying[k].p);
      }
  }

  lemma NotHeld(t: Tree, p: Pid, target: Ino)
    requires Inv(t) && !Assigned(t, p)
    ensures !HeldElsewhere(t, p, target)
  {
    hide Under, Shape;
  }

  lemma InsertedOthers(t: Tree, p: Pid, target: Ino, q: Pid)
    requires Inv(t) && target in t && q != p && !Assigned(t, q)
    ensures Shape(Inserted(t, p, target)) && !Assigned(Inserted(t, p, target), q)
  {
    hide Under, LinkOk, GoodName, Shape;
    var u := Inserted(t, p, target);
    InsertedLinks(t, p, target);
    RootInTree(t);
    forall i
      ensures Attached(u, i) == Attached(t, i)
    {
      SameUnder(t, u, ROOT, i);
    }
  }

  // Two migrations of one process that do.

  /** Two migrations of a process to different attached groups, with both removals before both insertions, leave it in
      both groups. */
  lemma TwoMigrations(r: Race, p: Pid, a: Ino, b: Ino)
    requires Ok(r) && r.flying == [] && a != b && a != ROOT && b != ROOT
    requires Attached(r.sys.tree, a) && Attached(r.sys.tree, b)
    ensures var r1 := Apply(r, Remove(p, a));
            Ok(r1) &&
            var r2 := Apply(r1, Remove(p, b));
            Ok(r2) && Enabled(r2, Insert(0)) &&
            var r3 := Apply(r2, Insert(0));
            Ok(r3) && Enabled(r3, Insert(0)) &&
            var t := Apply(r3, Insert(0)).sys.tree;
            a in t && b in t && p in t[a].pids && p in t[b].pids && !Inv(t)
  {
    hide Under, LinkOk, GoodName, Shape, Inv, Attached, Assigned, Subtree, Dropped, Inserted;
    var t0 := r.sys.tree;
    InvShape(t0);
    var r1 := Apply(r, Remove(p, a));
    DroppedInv(t0, p);
    var t1 := r1.sys.tree;
    InvShape(t1);
    DroppedAttached(t0, p, a);
    DroppedAttached(t0, p, b);
    var r2 := Apply(r1, Remove(p, b));
    DroppedInv(t1, p);
    DroppedAttached(t1, p, a);
    DroppedAttached(t1, p, b);
    assert r2.flying == [Flight(p, a), Flight(p, b)];
    InsertBoth(r2.sys.tree, p, a, b);
    var r3 := Apply(r2, Insert(0));
    assert r3.flying == [Flight(p, b)];
  }

  lemma InsertBoth(t: Tree, p: Pid, a: Ino, b: Ino)
    requires Inv(t) && !Assigned(t, p) && a != b && a != ROOT && b != ROOT && Attached(t, a) && Attached(t, b)
    ensures var u := Inserted(t, p, a);
            && u.Keys == t.Keys && Inv(u)
            && var v := Inserted(u, p, b);
               a in v && b in v && p in v[a].pids && p in v[b].pids && !Inv(v)
  {
    hide Under, LinkOk, GoodName, Shape, Inv;
    InvShape(t);
    RootInTree(t);
    NotHeld(t, p, a);
    InsertedInvIff(t, p, a);
    InsertedLinks(t, p, a);
    var u := Inserted(t, p, a);
    SameUnder(t, u, ROOT, a);
    SameUnder(t, u, ROOT, b);
    assert HeldElsewhere(u, p, b);
    InsertedInvIff(u, p, b);
  }

  lemma DroppedAttached(t: Tree, p: Pid, i: Ino)
    requires Inv(t)
    ensures var u := Dropped(t, p, Subtree(t, ROOT)); Shape(u) && Attached(u, i) == Attached(t, i)
  {
    hide Under, LinkOk, GoodName, Shape;
    RootInTree(t);
    var u := Dropped(t, p, Subtree(t, ROOT));
    SameShape(t, u);
    SameUnder(t, u, ROOT, i);
  }
}
