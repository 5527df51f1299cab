/**
  Signal sets (petra/src/uapi/signal.rs) and the queue of pending signals
  (petra/src/proc/signal.rs).
*/
module Signals {
  import opened Words

  type Signal = n: int | 1 <= n <= 64 witness 1

  const SIGKILL: Signal := 9
  const SIGCHLD: Signal := 17
  const SIGSTOP: Signal := 19

  // Sets: 16 words, signal n at bit n - 1.

  type SigSet = s: seq<U64> | |s| == 16 witness Zeros(16)

  function Empty(): SigSet { Zeros(16) }

  lemma {:induction false} AndSingle(a: nat, k: nat)
    ensures And(a, Shl(k, 1)) != 0 <==> Bit(a, k)
    decreases k
  {
    if a == 0 {
      BitZero(k);
    } else if k == 0 {
      AndZero(a / 2);
    } else {
      AndSingle(a / 2, k - 1);
    }
  }

  lemma {:induction false} ShlBound(k: nat, n: nat)
    requires k < n
    ensures Shl(k, 1) < Pow2(n)
    decreases k
  {
    if k > 0 { ShlBound(k - 1, n - 1); }
  }

  function OneBit(k: nat): U64
    requires k < 64
  {
    ShlBound(k, 64);
    TwoTo64();
    Shl(k, 1)
  }

  function Or64(a: U64, b: U64): U64 {
    Or64Fits(a, b);
    Or(a, b)
  }

  lemma Or64Fits(a: U64, b: U64)
    ensures Or(a, b) < 0x1_0000_0000_0000_0000
  {
    hide Or, Pow2;
    TwoTo64();
    OrBound(64, a, b);
  }

  predicate Contains(s: SigSet, sig: Signal) {
    And64(s[(sig - 1) / 64], OneBit((sig - 1) % 64)) != 0
  }

  function Add(s: SigSet, sig: Signal): SigSet {
    var w := (sig - 1) / 64;
    s[w := Or64(s[w], OneBit((sig - 1) % 64))]
  }

  function Remove(s: SigSet, sig: Signal): SigSet {
    var w := (sig - 1) / 64;
    s[w := And64(s[w], 0xffff_ffff_ffff_ffff - OneBit((sig - 1) % 64))]
  }

  lemma ContainsIsBit(s: SigSet, sig: Signal)
    ensures Contains(s, sig) <==> Bit(s[0], sig - 1)
  {
    hide And, Bit, Shl;
    AndSingle(s[0], sig - 1);
  }

  /** `add` adds one signal and no other. */
  lemma AddExact(s: SigSet, sig: Signal, n: Signal)
    ensures Contains(Add(s, sig), n) <==> n == sig || Contains(s, n)
  {
    hide And, Or, Bit, Shl, Contains;
    ContainsIsBit(s, n);
    ContainsIsBit(Add(s, sig), n);
    BitOr(s[0], OneBit(sig - 1), n - 1);
    BitOfShl(sig - 1, n - 1);
  }

  /** `remove` removes one signal and no other. */
  lemma RemoveExact(s: SigSet, sig: Signal, n: Signal)
    ensures Contains(Remove(s, sig), n) <==> n != sig && Contains(s, n)
  {
    hide And, Or, Bit, Shl, Contains, Pow2;
    ContainsIsBit(s, n);
    ContainsIsBit(Remove(s, sig), n);
    var one := OneBit(sig - 1);
    TwoTo64();
    BitAnd(s[0], 0xffff_ffff_ffff_ffff - one, n - 1);
    BitNot(64, one, n - 1);
    BitOfShl(sig - 1, n - 1);
  }

  lemma NothingInEmpty(n: Signal)
    ensures !Contains(Empty(), n)
  {
    hide Bit, Contains;
    ContainsIsBit(Empty(), n);
    BitZero(n - 1);
  }

  /** The lowest signal in a set that a mask does not block, if there is one. */
  ghost predicate IsLowest(s: SigSet, mask: SigSet, r: Option<Signal>) {
    match r
    case None => forall n: Signal :: Contains(s, n) ==> Contains(mask, n)
    case Some(sig) =>
      && Contains(s, sig) && !Contains(mask, sig)
      && forall n: Signal :: n < sig && Contains(s, n) ==> Contains(mask, n)
  }

  /** `lowest_unmasked`. */
  method LowestUnmasked(s: SigSet, mask: SigSet) returns (r: Option<Signal>)
    ensures IsLowest(s, mask, r)
  {
    hide Contains;
    for bit := 0 to 64
      invariant forall n: Signal :: n <= bit && Contains(s, n) ==> Contains(mask, n)
    {
      if Contains(s, bit + 1) && !Contains(mask, bit + 1) {
        return Some(bit + 1);
      }
    }
    r := None;
  }

  // The queue.

  type I32 = x: int | -0x8000_0000 <= x < 0x8000_0000

  /** `siginfo_t`, without its padding. */
  datatype SigInfo = SigInfo(signo: I32, errno: I32, code: I32, addr: U64, pid: I32, uid: U32, status: I32,
                             utime: U64, stime: U64, value: U64)

  /** A queued signal has a known number. */
  type Queued = i: SigInfo | 1 <= i.signo <= 64 witness SigInfo(1, 0, 0, 0, 0, 0, 0, 0, 0, 0)

  predicate Deliverable(x: Queued, mask: SigSet) { !Contains(mask, x.signo) }

  predicate Standard(sig: int) { sig <= 31 && sig != SIGCHLD }

  predicate HasSignal(q: seq<Queued>, sig: int) { exists i :: 0 <= i < |q| && q[i].signo == sig }

  /** `post`: a second standard signal of the same number collapses onto the first. */
  function Posted(q: seq<Queued>, x: Queued): seq<Queued> {
    if Standard(x.signo) && HasSignal(q, x.signo) then q else q + [x]
  }

  /** The index that `min_by_key` finds among the first `n` entries: of equal keys it keeps the earlier. */
  function Best(q: seq<Queued>, mask: SigSet, n: nat): (r: Option<nat>)
    requires n <= |q|
    ensures r.Some? ==> r.value < n
  {
    if n == 0 then None
    else
      var b := Best(q, mask, n - 1);
      if !Deliverable(q[n - 1], mask) then b
      else if b.None? || q[n - 1].signo < q[b.value].signo then Some(n - 1)
      else b
  }

  function Without(q: seq<Queued>, i: nat): seq<Queued>
    requires i < |q|
  {
    q[..i] + q[i + 1..]
  }

  /** `take_unmasked`: the signal, and the queue that is left. */
  function Take(q: seq<Queued>, mask: SigSet): (Option<Queued>, seq<Queued>) {
    match Best(q, mask, |q|)
    case None => (None, q)
    case Some(i) => (Some(q[i]), Without(q, i))
  }

  predicate HasUnmasked(q: seq<Queued>, mask: SigSet) { exists i :: 0 <= i < |q| && Deliverable(q[i], mask) }

  /** `pending_set`, by the first `n` entries. */
  function Pending(q: seq<Queued>, n: nat): SigSet
    requires n <= |q|
  {
    if n == 0 then Empty() else Add(Pending(q, n - 1), q[n - 1].signo)
  }

  lemma {:induction false} BestIsFirstLowest(q: seq<Queued>, mask: SigSet, n: nat)
    requires n <= |q|
    ensures match Best(q, mask, n)
            case None => forall j :: 0 <= j < n ==> !Deliverable(q[j], mask)
            case Some(i) =>
              && Deliverable(q[i], mask)
              && (forall j :: 0 <= j < n && Deliverable(q[j], mask) ==> q[i].signo <= q[j].signo)
              && (forall j :: 0 <= j < i ==> q[j].signo != q[i].signo)
    decreases n
  {
    hide Contains;
    if n > 0 {
      BestIsFirstLowest(q, mask, n - 1);
    }
  }

  lemma {:induction false} PendingExact(q: seq<Queued>, n: nat, sig: Signal)
    requires n <= |q|
    ensures Contains(Pending(q, n), sig) <==> exists i :: 0 <= i < n && q[i].signo == sig
    decreases n
  {
    hide Contains, Add;
    if n == 0 {
      NothingInEmpty(sig);
    } else {
      PendingExact(q, n - 1, sig);
      AddExact(Pending(q, n - 1), q[n - 1].signo, sig);
    }
  }

  /** A posted signal is pending, and posting makes no other signal pending or not. */
  lemma PostIsPending(q: seq<Queued>, x: Queued, n: Signal)
    ensures q <= Posted(q, x) && (!Standard(x.signo) ==> |Posted(q, x)| == |q| + 1)
    ensures Contains(Pending(Posted(q, x), |Posted(q, x)|), n) <==> n == x.signo || Contains(Pending(q, |q|), n)
  {
    hide Contains, Pending;
    var p := Posted(q, x);
    PendingExact(q, |q|, n);
    PendingExact(p, |p|, n);
    if n == x.signo && p != q {
      assert p[|q|].signo == n;
    }
    if i: nat :| i < |q| && q[i].signo == n {
      assert p[i].signo == n;
    }
  }

  /** A take yields the signal that `pending_set().lowest_unmasked(mask)` names, the oldest entry of that number,
      and leaves every other entry in its place. */
  lemma TakeIsLowest(q: seq<Queued>, mask: SigSet, r: Option<Signal>)
    requires IsLowest(Pending(q, |q|), mask, r)
    ensures r.None? <==> Take(q, mask).0.None?
    ensures Take(q, mask).0.None? ==> Take(q, mask).1 == q
    ensures r.Some? ==> Take(q, mask).0.value.signo == r.value
    ensures r.Some? ==> exists i :: 0 <= i < |q| && Take(q, mask) == (Some(q[i]), Without(q, i))
                          && forall j :: 0 <= j < i ==> q[j].signo != r.value
  {
    hide Contains, Pending, Best;
    BestIsFirstLowest(q, mask, |q|);
    var best := Best(q, mask, |q|);
    if r.Some? {
      PendingExact(q, |q|, r.value);
      var k :| 0 <= k < |q| && q[k].signo == r.value;
      assert Deliverable(q[k], mask);
    }
    if best.Some? {
      PendingExact(q, |q|, q[best.value].signo);
      assert q[best.value].signo == q[best.value].signo;
    }
  }

  // Reachable queues.

  /** No standard signal other than SIGCHLD is queued twice. */
  ghost predicate Collapsed(q: seq<Queued>) {
    forall i, j :: 0 <= i < j < |q| && Standard(q[i].signo) ==> q[i].signo != q[j].signo
  }

  datatype Op = Post(x: Queued) | TakeUnmasked(mask: SigSet)

  function Run(ops: seq<Op>): seq<Queued> {
    if ops == [] then []
    else
      var q := Run(ops[..|ops| - 1]);
      match ops[|ops| - 1]
      case Post(x) => Posted(q, x)
      case TakeUnmasked(mask) => Take(q, mask).1
  }

  lemma WithoutKeepsCollapsed(q: seq<Queued>, i: nat)
    requires Collapsed(q) && i < |q|
    ensures Collapsed(Without(q, i))
  {
    var r := Without(q, i);
    forall a, b | 0 <= a < b < |r| && Standard(r[a].signo)
      ensures r[a].signo != r[b].signo
    {
      assert r[a] == q[if a < i then a else a + 1] && r[b] == q[if b < i then b else b + 1];
    }
  }

  lemma {:induction false} EveryQueueIsCollapsed(ops: seq<Op>)
    ensures Collapsed(Run(ops))
    decreases |ops|
  {
    hide Contains, Best;
    if ops != [] {
      EveryQueueIsCollapsed(ops[..|ops| - 1]);
      var q := Run(ops[..|ops| - 1]);
      match ops[|ops| - 1]
      case Post(x) =>
      case TakeUnmasked(mask) =>
        if Best(q, mask, |q|).Some? {
          WithoutKeepsCollapsed(q, Best(q, mask, |q|).value);
        }
    }
  }

  class SigQueue {
    var inner: seq<Queued>

    constructor ()
      ensures inner == []
    {
      inner := [];
    }

    method PostSignal(x: Queued)
      modifies this
      ensures inner == Posted(old(inner), x)
    {
      var found := false;
      for i := 0 to |inner|
        invariant found <==> exists k :: 0 <= k < i && inner[k].signo == x.signo
        invariant inner == old(inner)
      {
        if inner[i].signo == x.signo {
          found := true;
        }
      }
      var collapse := x.signo <= 31 && x.signo != SIGCHLD && found;
      if !collapse {
        inner := inner + [x];
      }
    }

    method TakeUnmasked(mask: SigSet) returns (r: Option<Queued>)
      modifies this
      ensures (r, inner) == Take(old(inner), mask)
    {
      hide Contains;
      var best: Option<nat> := None;
      for i := 0 to |inner|
        invariant best == Best(inner, mask, i) && inner == old(inner)
      {
        if Deliverable(inner[i], mask) && (best.None? || inner[i].signo < inner[best.value].signo) {
          best := Some(i);
        }
      }
      if best.None? {
        return None;
      }
      r := Some(inner[best.value]);
      inner := inner[..best.value] + inner[best.value + 1..];
    }

    method PendingSet() returns (s: SigSet)
      ensures s == Pending(inner, |inner|)
    {
      hide Add;
      s := Empty();
      for i := 0 to |inner|
        invariant s == Pending(inner, i)
      {
        s := Add(s, inner[i].signo);
      }
    }
  }
}
