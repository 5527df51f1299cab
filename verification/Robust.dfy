/**
  The walk over the robust futex list of a dying thread
  (petra/src/sync/robust.rs), on any user memory.
*/
module Robust {
  import opened Words
  import opened Futex

  const TID_MASK: U32 := 0x3fff_ffff
  const WAITERS: U32 := 0x8000_0000
  const OWNER_DIED: U32 := 0x4000_0000
  const LIMIT: nat := 1024
  const W64: nat := 0x1_0000_0000_0000_0000

  /** User memory: the readable bytes, and those of them that may be written. */
  datatype Memory = Memory(bytes: map<nat, Byte>, writable: set<nat>)

  predicate Mapped(m: Memory, a: nat, n: nat) { forall x :: a <= x < a + n ==> x in m.bytes }

  predicate Writable(m: Memory, a: nat) { Mapped(m, a, 4) && forall x :: a <= x < a + 4 ==> x in m.writable }

  function Bytes4(m: Memory, a: nat): (s: seq<Byte>)
    requires Mapped(m, a, 4)
    ensures |s| == 4
  {
    [m.bytes[a], m.bytes[a + 1], m.bytes[a + 2], m.bytes[a + 3]]
  }

  /** `read_futex_val`. */
  function Read32(m: Memory, a: nat): Option<U32> {
    if !Mapped(m, a, 4) then None
    else
      LE4(Bytes4(m, a));
      Some(LE(Bytes4(m, a)))
  }

  function Read64(m: Memory, a: nat): Option<U64> {
    if !Mapped(m, a, 8) then None
    else
      LE4(Bytes4(m, a));
      LE4(Bytes4(m, a + 4));
      Some(LE(Bytes4(m, a)) + 0x1_0000_0000 * LE(Bytes4(m, a + 4)))
  }

  /** `write_bytes` of a word: all of it, or nothing. */
  function Write32(m: Memory, a: nat, v: U32): Memory {
    if !Writable(m, a) then m
    else
      var b := ToLE(v, 4);
      m.(bytes := m.bytes[a := b[0]][a + 1 := b[1]][a + 2 := b[2]][a + 3 := b[3]])
  }

  /** `(v & FUTEX_WAITERS) | FUTEX_OWNER_DIED`. */
  function Mark(v: U32): U32 {
    MarkFits(v);
    Or(And(v, WAITERS), OWNER_DIED)
  }

  predicate Owned(v: U32, tid: U32) { And(v, TID_MASK) == tid }

  lemma MarkFits(v: U32)
    ensures Or(And(v, WAITERS), OWNER_DIED) == v / 0x8000_0000 * 0x8000_0000 + 0x4000_0000
    ensures v / 0x8000_0000 <= 1
  {
    hide And, Or, Pow2;
    TopBits();
    var p := 0x8000_0000;
    AndSplit(31, p, v % p, v / p, 0, 1);
    AndZero(v % p);
    AndOne(v / p);
    OrComm(v / p * p, 0x4000_0000);
    OrDisjoint(31, p, 0x4000_0000, v / p);
  }

  lemma TopBits()
    ensures Pow2(31) == 0x8000_0000 && Pow2(30) == 0x4000_0000
  {
    assert Pow2(15) == 0x8000;
    Pow2Add(15, 15);
  }

  lemma AndOne(x: nat)
    requires x <= 1
    ensures And(x, 1) == x
  {}

  lemma {:induction false} OrComm(a: nat, b: nat)
    ensures Or(a, b) == Or(b, a)
    decreases a + b
  {
    if a > 0 && b > 0 { OrComm(a / 2, b / 2); }
  }

  /** A marked word has no owner. */
  lemma MarkedIsUnowned(v: U32, tid: U32)
    requires tid != 0
    ensures !Owned(Mark(v), tid)
  {
    hide And, Or, Pow2;
    TopBits();
    MarkFits(v);
    AndLowMask(30, 0x4000_0000, Mark(v));
    assert Mark(v) % 0x4000_0000 == 0;
  }

  // The walk.

  /** `wakes` are the addresses on which a waiter was woken, in order. */
  datatype State = State(mem: Memory, wakes: seq<nat>)

  /** `handle_futex_entry`: the futex word lies `offset` bytes from the node, modulo 2^64. */
  function Handle(s: State, tid: U32, offset: U64, node: nat): State {
    var a := (node + offset) % W64;
    if node == 0 || a == 0 || a % 4 != 0 then s
    else match Read32(s.mem, a)
      case None => s
      case Some(v) => if Owned(v, tid) then State(Write32(s.mem, a, Mark(v)), s.wakes + [a]) else s
  }

  function Walk(s: State, tid: U32, head: nat, offset: U64, curr: nat, count: nat): State
    decreases LIMIT - count
  {
    if curr == 0 || curr == head || count >= LIMIT then s
    else
      var t := Handle(s, tid, offset, curr);
      match Read64(t.mem, curr)
      case None => t
      case Some(next) => if next == curr then t else Walk(t, tid, head, offset, next, count + 1)
  }

  /** `exit_robust_list`. */
  function Exit(mem: Memory, tid: U32, head: nat): State {
    var s := State(mem, []);
    if head == 0 || !Mapped(mem, head, 24) then s
    else
      assert forall x :: head <= x < head + 24 ==> x in mem.bytes;
      var list := Read64(mem, head).value;
      var offset := Read64(mem, head + 8).value;
      var pending := Read64(mem, head + 16).value;
      var t := if pending != 0 then Handle(s, tid, offset, pending) else s;
      Walk(t, tid, head, offset, list, 0)
  }

  // What the walk does to memory.

  /** Byte `x` once the words in `marked` have been marked. */
  function Expected(m: Memory, marked: set<nat>, x: nat): Byte
    requires x in m.bytes && forall a :: a in marked ==> Mapped(m, a, 4)
  {
    var a := x - x % 4;
    if a in marked then ToLE(Mark(Read32(m, a).value), 4)[x % 4] else m.bytes[x]
  }

  /** Exactly the words in `marked` have changed, to their marks; each was owned by the dying thread. */
  ghost predicate Marked(m0: Memory, s: State, tid: U32, marked: set<nat>) {
    && s.mem.writable == m0.writable && s.mem.bytes.Keys == m0.bytes.Keys
    && (forall a :: a in marked ==> a % 4 == 0 && Writable(m0, a) && Owned(Read32(m0, a).value, tid))
    && (forall x :: x in m0.bytes ==> s.mem.bytes[x] == Expected(m0, marked, x))
    && (forall a :: a in marked ==> a in s.wakes)
    && (forall i :: 0 <= i < |s.wakes| ==>
          Mapped(m0, s.wakes[i], 4) && (s.wakes[i] in marked || !Writable(m0, s.wakes[i])))
    && (forall i, j :: 0 <= i < j < |s.wakes| && s.wakes[i] in marked ==> s.wakes[j] != s.wakes[i])
  }

  function Address(offset: U64, node: nat): nat { (node + offset) % W64 }

  /** The node's word is one that the walk has to mark, as memory was at the start. */
  predicate Target(m: Memory, tid: U32, offset: U64, node: nat) {
    var a := Address(offset, node);
    node != 0 && a != 0 && a % 4 == 0 && Writable(m, a) && Owned(Read32(m, a).value, tid)
  }

  /** A word that was marked reads as its mark, any other word as it did at first. */
  lemma WordNow(m0: Memory, s: State, tid: U32, marked: set<nat>, a: nat)
    requires Marked(m0, s, tid, marked) && a % 4 == 0 && Mapped(m0, a, 4)
    ensures Read32(s.mem, a) == Some(if a in marked then Mark(Read32(m0, a).value) else Read32(m0, a).value)
  {
    hide Mark, LE, ToLE, Owned;
    assert (a + 1) % 4 == 1 && (a + 2) % 4 == 2 && (a + 3) % 4 == 3;
    assert Mapped(s.mem, a, 4);
    assert a in m0.bytes && a + 1 in m0.bytes && a + 2 in m0.bytes && a + 3 in m0.bytes;
    if a in marked {
      var v := Mark(Read32(m0, a).value);
      assert Bytes4(s.mem, a) == ToLE(v, 4);
      LE32(v);
    } else {
      assert Bytes4(s.mem, a) == Bytes4(m0, a);
    }
  }

  lemma WriteKeeps(m0: Memory, s: State, tid: U32, marked: set<nat>, a: nat)
    requires Marked(m0, s, tid, marked) && a % 4 == 0 && a !in marked && Writable(m0, a)
    requires Owned(Read32(m0, a).value, tid)
    ensures Marked(m0, State(Write32(s.mem, a, Mark(Read32(m0, a).value)), s.wakes + [a]), tid, marked + {a})
  {
    hide Mark, LE, ToLE, Owned, Write32;
    var v := Mark(Read32(m0, a).value);
    var t := State(Write32(s.mem, a, v), s.wakes + [a]);
    assert Writable(s.mem, a);
    WrittenKeys(s.mem, a, v);
    forall x | x in m0.bytes
      ensures t.mem.bytes[x] == Expected(m0, marked + {a}, x)
    {
      WrittenByte(s.mem, a, v, x);
      assert s.mem.bytes[x] == Expected(m0, marked, x);
    }
    assert a !in s.wakes;
  }

  lemma WrittenKeys(m: Memory, a: nat, v: U32)
    requires Writable(m, a)
    ensures Write32(m, a, v).bytes.Keys == m.bytes.Keys && Write32(m, a, v).writable == m.writable
  {
    hide ToLE;
    assert a in m.bytes && a + 1 in m.bytes && a + 2 in m.bytes && a + 3 in m.bytes;
  }

  lemma WrittenByte(m: Memory, a: nat, v: U32, x: nat)
    requires Writable(m, a) && a % 4 == 0 && x in m.bytes
    ensures x in Write32(m, a, v).bytes
    ensures Write32(m, a, v).bytes[x] == if x - x % 4 == a then ToLE(v, 4)[x % 4] else m.bytes[x]
  {
    hide ToLE;
    if x - x % 4 == a {
      assert x == a || x == a + 1 || x == a + 2 || x == a + 3;
    } else {
      assert x != a && x != a + 1 && x != a + 2 && x != a + 3;
    }
  }

  /** One node: its word is marked if it has to be and is not yet, and nothing else happens to memory. */
  lemma HandleKeeps(m0: Memory, s: State, tid: U32, offset: U64, node: nat, marked: set<nat>)
    requires tid != 0 && Marked(m0, s, tid, marked)
    ensures Marked(m0, Handle(s, tid, offset, node), tid,
                   marked + (if Target(m0, tid, offset, node) then {Address(offset, node)} else {}))
  {
    hide Mark, LE, ToLE, Owned, Write32, Expected;
    var a := Address(offset, node);
    if node != 0 && a != 0 && a % 4 == 0 && Mapped(m0, a, 4) {
      var v := Read32(m0, a).value;
      WordNow(m0, s, tid, marked, a);
      if a in marked {
        MarkedIsUnowned(v, tid);
        assert marked + {a} == marked;
      } else if Owned(v, tid) {
        if Writable(m0, a) {
          WriteKeeps(m0, s, tid, marked, a);
        } else {
          UnwritableKeeps(m0, s, tid, marked, a);
        }
      } else {
        assert marked + {} == marked;
      }
    } else {
      assert marked + {} == marked;
    }
  }

  lemma UnwritableKeeps(m0: Memory, s: State, tid: U32, marked: set<nat>, a: nat)
    requires Marked(m0, s, tid, marked) && Mapped(m0, a, 4) && !Writable(m0, a)
    ensures Marked(m0, State(Write32(s.mem, a, Mark(Read32(m0, a).value)), s.wakes + [a]), tid, marked)
  {
    hide Mark, LE, ToLE, Owned, Expected;
    assert Mapped(s.mem, a, 4) && !Writable(s.mem, a);
  }

  /** The nodes of the list that the walk looks at, in order. */
  function Visited(s: State, tid: U32, head: nat, offset: U64, curr: nat, count: nat): seq<nat>
    decreases LIMIT - count
  {
    if curr == 0 || curr == head || count >= LIMIT then []
    else
      var t := Handle(s, tid, offset, curr);
      [curr] + (match Read64(t.mem, curr)
                case None => []
                case Some(next) => if next == curr then [] else Visited(t, tid, head, offset, next, count + 1))
  }

  /** The words that have to be marked among some nodes. */
  function Targets(m: Memory, tid: U32, offset: U64, nodes: seq<nat>): set<nat> {
    set i | 0 <= i < |nodes| && Target(m, tid, offset, nodes[i]) :: Address(offset, nodes[i])
  }

  lemma TargetsCons(m: Memory, tid: U32, offset: U64, n: nat, nodes: seq<nat>)
    ensures Targets(m, tid, offset, [n] + nodes)
         == (if Target(m, tid, offset, n) then {Address(offset, n)} else {}) + Targets(m, tid, offset, nodes)
  {
    hide Target;
    var all := [n] + nodes;
    var first := if Target(m, tid, offset, n) then {Address(offset, n)} else {};
    forall a | a in Targets(m, tid, offset, nodes)
      ensures a in Targets(m, tid, offset, all)
    {
      var i :| 0 <= i < |nodes| && Target(m, tid, offset, nodes[i]) && a == Address(offset, nodes[i]);
      assert all[i + 1] == nodes[i];
    }
    forall a | a in first
      ensures a in Targets(m, tid, offset, all)
    {
      assert all[0] == n;
    }
    forall a | a in Targets(m, tid, offset, all)
      ensures a in first + Targets(m, tid, offset, nodes)
    {
      var i :| 0 <= i < |all| && Target(m, tid, offset, all[i]) && a == Address(offset, all[i]);
      if i > 0 { assert all[i] == nodes[i - 1]; }
    }
  }

  lemma {:induction false} WalkKeeps(m0: Memory, s: State, tid: U32, head: nat, offset: U64, curr: nat, count: nat,
                                     marked: set<nat>)
    requires tid != 0 && Marked(m0, s, tid, marked)
    ensures var nodes := Visited(s, tid, head, offset, curr, count);
            && |nodes| <= Max(LIMIT - count, 0)
            && Marked(m0, Walk(s, tid, head, offset, curr, count), tid, marked + Targets(m0, tid, offset, nodes))
    decreases LIMIT - count
  {
    hide Handle, Target, Marked, Targets;
    if curr == 0 || curr == head || count >= LIMIT {
      NoTargets(m0, tid, offset, marked);
    } else {
      HandleKeeps(m0, s, tid, offset, curr, marked);
      var t := Handle(s, tid, offset, curr);
      var marked' := marked + (if Target(m0, tid, offset, curr) then {Address(offset, curr)} else {});
      var next := Read64(t.mem, curr);
      var rest := if next.None? || next.value == curr then [] else Visited(t, tid, head, offset, next.value, count + 1);
      TargetsCons(m0, tid, offset, curr, rest);
      assert marked' + Targets(m0, tid, offset, rest) == marked + Targets(m0, tid, offset, [curr] + rest);
      if next.None? || next.value == curr {
        NoTargets(m0, tid, offset, marked');
      } else {
        WalkKeeps(m0, t, tid, head, offset, next.value, count + 1, marked');
      }
    }
  }

  function Max(a: int, b: int): int { if a < b then b else a }

  lemma NoTargets(m: Memory, tid: U32, offset: U64, marked: set<nat>)
    ensures marked + Targets(m, tid, offset, []) == marked
  {}

  /** The nodes that `exit_robust_list` looks at: the pending one first, then the list. */
  function AllVisited(mem: Memory, tid: U32, head: nat): seq<nat> {
    var s := State(mem, []);
    if head == 0 || !Mapped(mem, head, 24) then []
    else
      assert forall x :: head <= x < head + 24 ==> x in mem.bytes;
      var list := Read64(mem, head).value;
      var offset := Read64(mem, head + 8).value;
      var pending := Read64(mem, head + 16).value;
      if pending != 0 then [pending] + Visited(Handle(s, tid, offset, pending), tid, head, offset, list, 0)
      else Visited(s, tid, head, offset, list, 0)
  }

  /** Where the futex words lie, or nothing when the head cannot be read. */
  function Offset(mem: Memory, head: nat): U64 {
    if !Mapped(mem, head, 24) then 0
    else
      assert forall x :: head <= x < head + 24 ==> x in mem.bytes;
      Read64(mem, head + 8).value
  }

  /**
    On any memory, however the list is linked: at most 1024 list nodes are looked at; of memory exactly the words
    of those nodes that belong to the thread change, to their marks; and each of them is woken.
  */
  lemma ExitMarksExactly(mem: Memory, tid: U32, head: nat)
    requires tid != 0
    ensures |AllVisited(mem, tid, head)| <= LIMIT + 1
    ensures Marked(mem, Exit(mem, tid, head), tid,
                   Targets(mem, tid, Offset(mem, head), AllVisited(mem, tid, head)))
  {
    hide Handle, Target, Targets, Walk, Visited, Read64, Marked;
    var s := State(mem, []);
    StartMarked(mem, tid);
    NoTargets(mem, tid, Offset(mem, head), {});
    if head != 0 && Mapped(mem, head, 24) {
      assert forall x :: head <= x < head + 24 ==> x in mem.bytes;
      ReadableHead(mem, head);
      var list := Read64(mem, head).value;
      var offset := Read64(mem, head + 8).value;
      var pending := Read64(mem, head + 16).value;
      if pending != 0 {
        HandleKeeps(mem, s, tid, offset, pending, {});
        var t := Handle(s, tid, offset, pending);
        var first := if Target(mem, tid, offset, pending) then {Address(offset, pending)} else {};
        assert {} + first == first;
        WalkKeeps(mem, t, tid, head, offset, list, 0, first);
        TargetsCons(mem, tid, offset, pending, Visited(t, tid, head, offset, list, 0));
      } else {
        WalkKeeps(mem, s, tid, head, offset, list, 0, {});
      }
    }
    var all := Targets(mem, tid, Offset(mem, head), AllVisited(mem, tid, head));
    assert {} + all == all;
  }

  lemma StartMarked(mem: Memory, tid: U32)
    ensures Marked(mem, State(mem, []), tid, {})
  {
    hide Owned, Mark, ToLE, LE;
  }

  lemma ReadableHead(mem: Memory, head: nat)
    requires Mapped(mem, head, 24)
    ensures Read64(mem, head).Some? && Read64(mem, head + 8).Some? && Read64(mem, head + 16).Some?
  {
    hide LE;
  }

  // How often each address is woken.

  /** How many of some nodes have their word at an address. */
  function Visits(offset: U64, nodes: seq<nat>, a: nat): nat {
    if nodes == [] then 0
    else (if nodes[0] != 0 && Address(offset, nodes[0]) == a then 1 else 0) + Visits(offset, nodes[1..], a)
  }

  /** The word can be looked at and belongs to the dying thread at the start. */
  predicate Wakable(m: Memory, tid: U32, a: nat) {
    a != 0 && a % 4 == 0 && Mapped(m, a, 4) && Owned(Read32(m, a).value, tid)
  }

  /** A word that can be marked is woken at the first visit; one that cannot, at every visit. */
  function WakesDue(m: Memory, tid: U32, a: nat, marked: set<nat>, visits: nat): nat {
    if !Wakable(m, tid, a) then 0
    else if !Writable(m, a) then visits
    else if a in marked || visits == 0 then 0
    else 1
  }

  lemma HandleWakes(m0: Memory, s: State, tid: U32, offset: U64, node: nat, marked: set<nat>, a: nat)
    requires tid != 0 && Marked(m0, s, tid, marked)
    ensures multiset(Handle(s, tid, offset, node).wakes)[a] == multiset(s.wakes)[a]
            + (if node != 0 && Address(offset, node) == a && Wakable(m0, tid, a) && a !in marked then 1 else 0)
  {
    hide Mark, LE, ToLE, Expected, Owned;
    var b := Address(offset, node);
    if node != 0 && b != 0 && b % 4 == 0 {
      if Mapped(m0, b, 4) {
        WordNow(m0, s, tid, marked, b);
        MarkedIsUnowned(Read32(m0, b).value, tid);
      } else {
        assert !Mapped(s.mem, b, 4);
      }
    }
  }

  lemma VisitsCons(offset: U64, n: nat, nodes: seq<nat>, a: nat)
    ensures Visits(offset, [n] + nodes, a)
         == (if n != 0 && Address(offset, n) == a then 1 else 0) + Visits(offset, nodes, a)
  {
    assert ([n] + nodes)[1..] == nodes;
  }

  lemma DueStep(m: Memory, tid: U32, offset: U64, n: nat, marked: set<nat>, a: nat, rest: nat)
    requires forall b :: b in marked ==> Writable(m, b)
    ensures var here := n != 0 && Address(offset, n) == a;
            var marked' := marked + (if Target(m, tid, offset, n) then {Address(offset, n)} else {});
            WakesDue(m, tid, a, marked, (if here then 1 else 0) + rest)
            == (if here && Wakable(m, tid, a) && a !in marked then 1 else 0) + WakesDue(m, tid, a, marked', rest)
  {
    hide Owned, Writable, Mapped, Read32;
    WritableMapped(m, a);
  }

  lemma WritableMapped(m: Memory, a: nat)
    ensures Writable(m, a) ==> Mapped(m, a, 4)
  {
  }

  lemma MarkedWritable(m0: Memory, s: State, tid: U32, marked: set<nat>)
    requires Marked(m0, s, tid, marked)
    ensures forall b :: b in marked ==> Writable(m0, b)
  {
    hide Owned, Expected;
  }

  lemma {:induction false} WalkWakes(m0: Memory, s: State, tid: U32, head: nat, offset: U64, curr: nat, count: nat,
                                     marked: set<nat>, a: nat)
    requires tid != 0 && Marked(m0, s, tid, marked)
    ensures var visits := Visits(offset, Visited(s, tid, head, offset, curr, count), a);
            multiset(Walk(s, tid, head, offset, curr, count).wakes)[a]
            == multiset(s.wakes)[a] + WakesDue(m0, tid, a, marked, visits)
    decreases LIMIT - count
  {
    hide Handle, Target, Marked, Targets, WakesDue, Wakable, Visits;
    if curr == 0 || curr == head || count >= LIMIT {
      NoVisits(m0, tid, offset, marked, a);
    } else {
      HandleKeeps(m0, s, tid, offset, curr, marked);
      HandleWakes(m0, s, tid, offset, curr, marked, a);
      MarkedWritable(m0, s, tid, marked);
      var t := Handle(s, tid, offset, curr);
      var marked' := marked + (if Target(m0, tid, offset, curr) then {Address(offset, curr)} else {});
      var next := Read64(t.mem, curr);
      var rest := if next.None? || next.value == curr then [] else Visited(t, tid, head, offset, next.value, count + 1);
      VisitsCons(offset, curr, rest, a);
      DueStep(m0, tid, offset, curr, marked, a, Visits(offset, rest, a));
      if next.None? || next.value == curr {
        NoVisits(m0, tid, offset, marked', a);
      } else {
        WalkWakes(m0, t, tid, head, offset, next.value, count + 1, marked', a);
      }
    }
  }

  lemma NoVisits(m: Memory, tid: U32, offset: U64, marked: set<nat>, a: nat)
    ensures Visits(offset, [], a) == 0 && WakesDue(m, tid, a, marked, 0) == 0
  {
    hide Wakable, Writable;
  }

  /** How often an address is woken, on any memory: never unless its word is aligned, mapped, the thread's and visited;
      once if it can also be written; and at every visit if it cannot, because the mark is then not stored. */
  lemma ExitWakesExactly(mem: Memory, tid: U32, head: nat, a: nat)
    requires tid != 0
    ensures multiset(Exit(mem, tid, head).wakes)[a]
            == WakesDue(mem, tid, a, {}, Visits(Offset(mem, head), AllVisited(mem, tid, head), a))
  {
    hide Handle, Target, Targets, Walk, Visited, Read64, Marked, WakesDue, Wakable, Visits;
    var s := State(mem, []);
    StartMarked(mem, tid);
    NoVisits(mem, tid, Offset(mem, head), {}, a);
    if head != 0 && Mapped(mem, head, 24) {
      assert forall x :: head <= x < head + 24 ==> x in mem.bytes;
      ReadableHead(mem, head);
      var list := Read64(mem, head).value;
      var offset := Read64(mem, head + 8).value;
      var pending := Read64(mem, head + 16).value;
      if pending != 0 {
        HandleKeeps(mem, s, tid, offset, pending, {});
        HandleWakes(mem, s, tid, offset, pending, {}, a);
        var t := Handle(s, tid, offset, pending);
        var rest := Visited(t, tid, head, offset, list, 0);
        var first := {} + (if Target(mem, tid, offset, pending) then {Address(offset, pending)} else {});
        WalkWakes(mem, t, tid, head, offset, list, 0, first, a);
        VisitsCons(offset, pending, rest, a);
        DueStep(mem, tid, offset, pending, {}, a, Visits(offset, rest, a));
      } else {
        WalkWakes(mem, s, tid, head, offset, list, 0, {}, a);
      }
    }
  }

  /** So no futex that can be written is woken twice. */
  lemma WokenAtMostOnce(mem: Memory, tid: U32, head: nat, a: nat)
    requires tid != 0 && Writable(mem, a)
    ensures multiset(Exit(mem, tid, head).wakes)[a] <= 1
  {
    hide Exit, Wakable, Writable, Visits;
    ExitWakesExactly(mem, tid, head, a);
  }

  /** A node that links to itself and is also pending, with a word of the thread's that cannot be written, is woken
      twice. */
  lemma StuckWokenTwice(m: Memory, tid: U32, head: nat, n: U64, offset: U64)
    requires head != 0 && n != 0 && n != head && Mapped(m, head, 24)
    requires Read64(m, head) == Some(n) && Read64(m, head + 8) == Some(offset) && Read64(m, head + 16) == Some(n)
    requires Read64(m, n) == Some(n)
    requires Wakable(m, tid, Address(offset, n)) && !Writable(m, Address(offset, n))
    ensures Exit(m, tid, head).wakes == [Address(offset, n), Address(offset, n)]
  {
    hide Read64, Mark, Owned, Writable;
    var a := Address(offset, n);
    HandleStuck(m, tid, offset, n, []);
    HandleStuck(m, tid, offset, n, [a]);
    assert [] + [a] == [a] && [a] + [a] == [a, a];
    assert forall x :: head <= x < head + 24 ==> x in m.bytes;
  }

  lemma HandleStuck(m: Memory, tid: U32, offset: U64, n: nat, wakes: seq<nat>)
    requires n != 0 && Wakable(m, tid, Address(offset, n)) && !Writable(m, Address(offset, n))
    ensures Handle(State(m, wakes), tid, offset, n) == State(m, wakes + [Address(offset, n)])
  {
    hide Mark, Owned, LE;
  }

  function StuckByte(x: nat): Byte {
    if x == 64 || x == 80 || x == 128 then 128 else if x == 72 then 8 else if x == 136 then 1 else 0
  }

  /** Such a node at 128, with its word at 136. */
  function StuckMemory(): Memory { Memory(map x: nat | 64 <= x < 140 :: StuckByte(x), {}) }

  lemma StuckWord(a: nat)
    requires 64 <= a <= 136 && a % 4 == 0
    ensures Mapped(StuckMemory(), a, 4) && LE(Bytes4(StuckMemory(), a)) == StuckByte(a)
  {
    hide LE;
    LE4(Bytes4(StuckMemory(), a));
  }

  lemma StuckDouble(a: nat)
    requires 64 <= a <= 132 && a % 8 == 0
    ensures Read64(StuckMemory(), a) == Some(StuckByte(a) as U64)
  {
    hide LE, StuckMemory;
    StuckWord(a);
    StuckWord(a + 4);
  }

  lemma UnwritableWokenTwice()
    ensures Exit(StuckMemory(), 1, 64).wakes == [136, 136]
  {
    hide LE, And, Exit, Read64, Owned;
    var m := StuckMemory();
    StuckDouble(64);
    StuckDouble(72);
    StuckDouble(80);
    StuckDouble(128);
    StuckWord(136);
    OneIsOwned();
    assert Mapped(m, 64, 24);
    assert !Writable(m, 136) by { assert 136 !in m.writable; }
    StuckWokenTwice(m, 1, 64, 128, 8);
  }

  lemma OneIsOwned()
    ensures Owned(1, 1)
  {
    hide And, Pow2;
    TopBits();
    AndLowMask(30, 0x4000_0000, 1);
  }

  /** The wait table after one waiter was woken on each address. */
  function WakeEach(t: Table, space: nat, wakes: seq<nat>): Table {
    if wakes == [] then t
    else
      var n := |wakes| - 1;
      AfterWakeBoth(WakeEach(t, space, wakes[..n]), space, wakes[n], 1, MATCH_ANY).0
  }

  /** A process: its memory, and the wait table in which its address space is `space`. */
  class Process {
    var mem: Memory
    const space: nat
    const futexes: FutexTable

    constructor (mem: Memory, space: nat, futexes: FutexTable)
      ensures this.mem == mem && this.space == space && this.futexes == futexes
    {
      this.mem, this.space, this.futexes := mem, space, futexes;
    }

    /** `handle_futex_entry`. */
    method HandleEntry(tid: U32, offset: U64, node: nat, ghost wakes: seq<nat>, ghost t0: Table)
      returns (ghost wakes': seq<nat>)
      requires futexes.table == WakeEach(t0, space, wakes)
      modifies this`mem, futexes
      ensures State(mem, wakes') == Handle(State(old(mem), wakes), tid, offset, node)
      ensures futexes.table == WakeEach(t0, space, wakes')
    {
      hide Mark, Owned, Write32;
      wakes' := wakes;
      if node == 0 {
        return;
      }
      var a := (node + offset) % W64;
      if a == 0 || a % 4 != 0 {
        return;
      }
      var v := Read32(mem, a);
      if v.Some? && Owned(v.value, tid) {
        mem := Write32(mem, a, Mark(v.value));
        var _ := futexes.WakeBitset(space, a, 1, MATCH_ANY);
        wakes' := wakes + [a];
        assert wakes'[..|wakes'| - 1] == wakes;
      }
    }

    /** `exit_robust_list`: the pending entry, then the list, up to the limit. */
    method ExitRobustList(tid: U32, head: nat)
      modifies this`mem, futexes
      ensures mem == Exit(old(mem), tid, head).mem
      ensures futexes.table == WakeEach(old(futexes.table), space, Exit(old(mem), tid, head).wakes)
    {
      hide Handle, Read64;
      ghost var wakes := [];
      ghost var t0 := futexes.table;
      if head == 0 || !Mapped(mem, head, 24) {
        return;
      }
      assert forall x :: head <= x < head + 24 ==> x in mem.bytes;
      ReadableHead(mem, head);
      var list, offset, pending := Read64(mem, head).value, Read64(mem, head + 8).value, Read64(mem, head + 16).value;
      if pending != 0 {
        wakes := HandleEntry(tid, offset, pending, wakes, t0);
      }
      ghost var start := State(mem, wakes);
      var curr, count := list, 0;
      while curr != 0 && curr != head && count < LIMIT
        invariant futexes.table == WakeEach(t0, space, wakes)
        invariant Walk(State(mem, wakes), tid, head, offset, curr, count) == Walk(start, tid, head, offset, list, 0)
        decreases LIMIT - count
      {
        wakes := HandleEntry(tid, offset, curr, wakes, t0);
        var next := Read64(mem, curr);
        if next.None? || next.value == curr {
          return;
        }
        curr, count := next.value, count + 1;
      }
    }
  }
}
