/**
  The futex wait table (petra/src/sync/futex.rs).
*/
module Futex {
  import opened Words

  /** `space` is the address space for private futexes, 0 for shared ones. */
  datatype Key = Key(space: nat, uaddr: nat)

  /** A waiting thread; `id` stands for its `woken` flag. */
  datatype Waiter = Waiter(id: nat, bitset: U32)

  type Table = map<Key, seq<Waiter>>

  predicate Matches(w: Waiter, bitset: U32) { And(w.bitset, bitset) != 0 }

  /** The waiters that a wake of up to `val` takes, and those it leaves. */
  function Wake(ws: seq<Waiter>, val: nat, bitset: U32): (seq<Waiter>, seq<Waiter>) {
    if ws == [] || val == 0 then ([], ws)
    else if Matches(ws[0], bitset) then
      var (woken, left) := Wake(ws[1..], val - 1, bitset);
      ([ws[0]] + woken, left)
    else
      var (woken, left) := Wake(ws[1..], val, bitset);
      (woken, [ws[0]] + left)
  }

  /** The waiters that match, or those that do not, in order. */
  function Select(ws: seq<Waiter>, bitset: U32, matching: bool): seq<Waiter> {
    if ws == [] then []
    else (if Matches(ws[0], bitset) == matching then [ws[0]] else []) + Select(ws[1..], bitset, matching)
  }

  /** A wake takes the first matching waiters up to the limit; everybody else stays. */
  lemma {:induction false} WakeTakesTheFirst(ws: seq<Waiter>, val: nat, bitset: U32)
    ensures var (woken, left) := Wake(ws, val, bitset);
            var all := Select(ws, bitset, true);
            && woken == all[..Min(val, |all|)]
            && Select(left, bitset, true) == all[Min(val, |all|)..]
            && Select(left, bitset, false) == Select(ws, bitset, false)
  {
    hide Matches;
    if ws != [] && val > 0 {
      var tail := ws[1..];
      var all := Select(ws, bitset, true);
      if Matches(ws[0], bitset) {
        WakeTakesTheFirst(tail, val - 1, bitset);
        assert all == [ws[0]] + Select(tail, bitset, true);
        assert Wake(ws, val, bitset).0 == [ws[0]] + Wake(tail, val - 1, bitset).0;
      } else {
        WakeTakesTheFirst(tail, val, bitset);
        var left := Wake(tail, val, bitset).1;
        SelectCons(ws[0], left, bitset);
      }
    }
  }

  lemma SelectCons(w: Waiter, ws: seq<Waiter>, bitset: U32)
    ensures Select([w] + ws, bitset, true) == (if Matches(w, bitset) then [w] else []) + Select(ws, bitset, true)
    ensures Select([w] + ws, bitset, false) == (if Matches(w, bitset) then [] else [w]) + Select(ws, bitset, false)
  {
    assert ([w] + ws)[1..] == ws;
  }

  /** Nobody is lost and nobody is woken twice. */
  lemma {:induction false} WakeConserves(ws: seq<Waiter>, val: nat, bitset: U32)
    ensures multiset(Wake(ws, val, bitset).0) + multiset(Wake(ws, val, bitset).1) == multiset(ws)
  {
    hide Matches;
    if ws != [] && val > 0 {
      assert ws == [ws[0]] + ws[1..];
      if Matches(ws[0], bitset) {
        WakeConserves(ws[1..], val - 1, bitset);
      } else {
        WakeConserves(ws[1..], val, bitset);
      }
    }
  }

  /** Whoever is left kept their order. */
  lemma {:induction false} WakeKeepsOrder(ws: seq<Waiter>, val: nat, bitset: U32)
    ensures Subsequence(Wake(ws, val, bitset).1, ws)
  {
    hide Matches;
    if ws == [] || val == 0 {
      Reflexive(ws);
    } else if Matches(ws[0], bitset) {
      WakeKeepsOrder(ws[1..], val - 1, bitset);
    } else {
      WakeKeepsOrder(ws[1..], val, bitset);
    }
  }

  predicate Subsequence(a: seq<Waiter>, b: seq<Waiter>) {
    if a == [] then true
    else if b == [] then false
    else (a[0] == b[0] && Subsequence(a[1..], b[1..])) || Subsequence(a, b[1..])
  }

  lemma {:induction false} Reflexive(a: seq<Waiter>)
    ensures Subsequence(a, a)
  {
    if a != [] { Reflexive(a[1..]); }
  }

  function Line(t: Table, key: Key): seq<Waiter> { if key in t then t[key] else [] }

  /** The table with a new line at `key`; an empty line has no entry. */
  function SetLine(t: Table, key: Key, ws: seq<Waiter>): Table {
    if ws == [] then t - {key} else t[key := ws]
  }

  /** The table and the woken waiters after a wake on one key. */
  function AfterWake(t: Table, key: Key, val: nat, bitset: U32): (Table, seq<Waiter>) {
    var (woken, left) := Wake(Line(t, key), val, bitset);
    (if key in t then SetLine(t, key, left) else t, woken)
  }

  /** `futex_wake_bitset`: the private line first, then the shared one with what is left of the limit. */
  function AfterWakeBoth(t: Table, space: nat, uaddr: nat, val: nat, bitset: U32): (Table, seq<Waiter>) {
    var (t1, w1) := AfterWake(t, Key(space, uaddr), val, bitset);
    if |w1| < val then
      var (t2, w2) := AfterWake(t1, Key(0, uaddr), val - |w1|, bitset);
      (t2, w1 + w2)
    else (t1, w1)
  }

  lemma {:induction false} WakeCount(ws: seq<Waiter>, val: nat, bitset: U32)
    ensures |Wake(ws, val, bitset).0| <= val
  {
    hide Matches;
    if ws != [] && val > 0 {
      if Matches(ws[0], bitset) {
        WakeCount(ws[1..], val - 1, bitset);
      } else {
        WakeCount(ws[1..], val, bitset);
      }
    }
  }

  const MATCH_ANY: U32 := 0xffff_ffff

  function Without(ws: seq<Waiter>, id: nat): (r: seq<Waiter>)
    ensures forall i :: 0 <= i < |r| ==> r[i].id != id
  {
    if ws == [] then [] else (if ws[0].id == id then [] else [ws[0]]) + Without(ws[1..], id)
  }

  /** Removing a waiter removes no other. */
  lemma {:induction false} WithoutKeepsOthers(ws: seq<Waiter>, id: nat, w: Waiter)
    ensures multiset(Without(ws, id))[w] == if w.id == id then 0 else multiset(ws)[w]
  {
    if ws != [] {
      WithoutKeepsOthers(ws[1..], id, w);
      assert ws == [ws[0]] + ws[1..];
    }
  }

  /** Those who stay keep their order. */
  lemma {:induction false} WithoutKeepsOrder(ws: seq<Waiter>, id: nat)
    ensures Subsequence(Without(ws, id), ws)
  {
    if ws != [] {
      WithoutKeepsOrder(ws[1..], id);
      if ws[0].id != id {
        assert Without(ws, id)[1..] == Without(ws[1..], id);
      } else {
        assert Without(ws, id) == Without(ws[1..], id);
      }
    }
  }

  lemma WakeStep(ws: seq<Waiter>, i: nat, val: nat, bitset: U32)
    requires i < |ws| && val > 0
    ensures var (w, l) := Wake(ws[i + 1..], if Matches(ws[i], bitset) then val - 1 else val, bitset);
            Wake(ws[i..], val, bitset)
            == if Matches(ws[i], bitset) then ([ws[i]] + w, l) else (w, [ws[i]] + l)
  {
    hide Matches;
    assert ws[i..][1..] == ws[i + 1..];
  }

  lemma WakeDone(ws: seq<Waiter>, val: nat, bitset: U32)
    requires ws == [] || val == 0
    ensures Wake(ws, val, bitset) == ([], ws)
  {
  }

  class FutexTable {
    var table: Table
    var woken: seq<Waiter> // in the order in which they were woken

    constructor ()
      ensures table == map[] && woken == []
    {
      table, woken := map[], [];
    }

    /** `wake_waiters`: one pass over the line, removing as it goes. */
    method WakeWaiters(key: Key, val: U32, bitset: U32) returns (count: nat)
      modifies this
      ensures var (t, w) := AfterWake(old(table), key, val, bitset);
              table == t && woken == old(woken) + w && count == |w|
    {
      hide Matches, Wake;
      count := 0;
      if key !in table {
        WakeDone([], val, bitset);
        return;
      }
      var ws := table[key];
      var i := 0;
      ghost var taken: seq<Waiter> := [];
      ghost var all := ws;
      assert ws[0..] == ws && [] + Wake(ws, val, bitset).0 == Wake(ws, val, bitset).0;
      while i < |ws| && count < val
        invariant 0 <= i <= |ws| && count == |taken| <= val
        invariant woken == old(woken) + taken && table == old(table)
        invariant Wake(all, val, bitset).0 == taken + Wake(ws[i..], val - count, bitset).0
        invariant Wake(all, val, bitset).1 == ws[..i] + Wake(ws[i..], val - count, bitset).1
        decreases |ws| - i
      {
        WakeStep(ws, i, val - count, bitset);
        if Matches(ws[i], bitset) {
          var waiter := ws[i];
          ghost var next := ws[..i] + ws[i + 1..];
          assert next[i..] == ws[i + 1..] && next[..i] == ws[..i];
          ghost var (w', l') := Wake(ws[i + 1..], val - count - 1, bitset);
          assert taken + ([waiter] + w') == (taken + [waiter]) + w';
          ws := ws[..i] + ws[i + 1..];
          woken := woken + [waiter];
          taken := taken + [waiter];
          count := count + 1;
        } else {
          ghost var (w', l') := Wake(ws[i + 1..], val - count, bitset);
          assert ws[..i] + ([ws[i]] + l') == ws[..i + 1] + l';
          i := i + 1;
        }
      }
      WakeDone(ws[i..], val - count, bitset);
      assert taken + [] == taken && ws[..i] + ws[i..] == ws;
      if ws == [] {
        table := table - {key};
      } else {
        table := table[key := ws];
      }
    }

    method WakeBitset(space: nat, uaddr: nat, val: U32, bitset: U32) returns (count: nat)
      modifies this
      ensures var (t, w) := AfterWakeBoth(old(table), space, uaddr, val, bitset);
              table == t && woken == old(woken) + w && count == |w| <= val
    {
      WakeCount(Line(table, Key(space, uaddr)), val, bitset);
      count := WakeWaiters(Key(space, uaddr), val, bitset);
      if count < val {
        WakeCount(Line(table, Key(0, uaddr)), val - count, bitset);
        var more := WakeWaiters(Key(0, uaddr), val - count, bitset);
        count := count + more;
      }
    }

    /** `remove_waiter`: a waiter that gives up leaves its line; nobody else moves. */
    method RemoveWaiter(key: Key, id: nat)
      modifies this`table
      ensures table == if key in old(table) then SetLine(old(table), key, Without(old(table)[key], id)) else old(table)
    {
      if key in table {
        var waiters := table[key];
        var left: seq<Waiter> := [];
        for i := 0 to |waiters|
          invariant left + Without(waiters[i..], id) == Without(waiters, id)
        {
          assert waiters[i..][1..] == waiters[i + 1..];
          if waiters[i].id != id {
            left := left + [waiters[i]];
          }
        }
        assert waiters[|waiters|..] == [] && left + [] == left;
        table := table[key := left];
        if left == [] {
          table := table - {key};
        }
      }
    }
  }
}
