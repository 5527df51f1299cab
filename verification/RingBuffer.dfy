/**
  The lock-free single-producer single-consumer byte ring
  (petra/src/utils/ring_buffer.rs).

  `head` and `tail` are 64-bit counters that only grow and wrap. One thread
  pushes, one thread pops; every load and every store of a shared word is one
  step of the system, and the steps of the two threads interleave in any order.
*/
module RingBuffer {
  import opened Words

  const W: nat := 0x1_0000_0000_0000_0000

  /** Where the producer is inside `push`. */
  datatype Producer =
    | PIdle
    | PHead(val: Byte, head: U64)   // head loaded
    | PRoom(val: Byte, head: U64)   // tail loaded, not full
    | PStored(val: Byte, head: U64) // slot written

  /** Where the consumer is inside `pop`. */
  datatype Consumer =
    | CIdle
    | CTail(tail: U64)              // tail loaded
    | CSome(tail: U64)              // head loaded, not empty
    | CTaken(tail: U64, val: Byte)  // slot read

  /** `pushed` and `popped` are the histories of the calls that succeeded. */
  datatype State = State(buffer: seq<Byte>, head: U64, tail: U64, p: Producer, c: Consumer,
                         pushed: seq<Byte>, popped: seq<Byte>)

  predicate Init(cap: U64, s: State) {
    |s.buffer| == cap && s.head == 0 && s.tail == 0 && s.p == PIdle && s.c == CIdle && s.pushed == [] && s.popped == []
  }

  datatype Step =
    | LoadHead(val: Byte) | CheckTail | StoreSlot | StoreHead
    | LoadTail | CheckHead | LoadSlot | StoreTail

  predicate Enabled(cap: U64, s: State, step: Step) {
    && cap > 0 && |s.buffer| == cap
    && match step
       case LoadHead(_) => s.p.PIdle?
       case CheckTail => s.p.PHead?
       case StoreSlot => s.p.PRoom?
       case StoreHead => s.p.PStored?
       case LoadTail => s.c.CIdle?
       case CheckHead => s.c.CTail?
       case LoadSlot => s.c.CSome?
       case StoreTail => s.c.CTaken?
  }

  function Apply(cap: U64, s: State, step: Step): State
    requires Enabled(cap, s, step)
  {
    match step
    case LoadHead(val) => s.(p := PHead(val, s.head))
    case CheckTail =>
      if WrapSub64(s.p.head, s.tail) >= cap then s.(p := PIdle) else s.(p := PRoom(s.p.val, s.p.head))
    case StoreSlot => s.(buffer := s.buffer[s.p.head % cap := s.p.val], p := PStored(s.p.val, s.p.head))
    case StoreHead => s.(head := WrapAdd64(s.p.head, 1), p := PIdle, pushed := s.pushed + [s.p.val])
    case LoadTail => s.(c := CTail(s.tail))
    case CheckHead => if s.c.tail == s.head then s.(c := CIdle) else s.(c := CSome(s.c.tail))
    case LoadSlot => s.(c := CTaken(s.c.tail, s.buffer[s.c.tail % cap]))
    case StoreTail => s.(tail := WrapAdd64(s.c.tail, 1), c := CIdle, popped := s.popped + [s.c.val])
  }

  /** The state after a list of steps, as far as they are enabled. */
  function Run(cap: U64, s: State, steps: seq<Step>): State {
    if steps == [] then s
    else
      var t := Run(cap, s, steps[..|steps| - 1]);
      var step := steps[|steps| - 1];
      if Enabled(cap, t, step) then Apply(cap, t, step) else t
  }

  /** What every reachable state satisfies. */
  ghost predicate Inv(cap: U64, s: State) {
    var h, t := |s.pushed|, |s.popped|;
    && |s.buffer| == cap
    && t <= h <= t + cap
    && s.head == h % W && s.tail == t % W
    && s.popped == s.pushed[..t]
    && (forall k :: t <= k < h ==> s.buffer[k % cap] == s.pushed[k])
    && (!s.p.PIdle? ==> s.p.head == s.head)
    && (s.p.PRoom? || s.p.PStored? ==> h < t + cap)
    && (s.p.PStored? ==> s.buffer[h % cap] == s.p.val)
    && (!s.c.CIdle? ==> s.c.tail == s.tail)
    && (s.c.CSome? || s.c.CTaken? ==> t < h)
    && (s.c.CTaken? ==> s.c.val == s.pushed[t])
  }

  /** Where the capacity divides 2^64 the slot of a wrapped counter is the slot of the counter. */
  lemma SlotOfWrapped(cap: U64, n: nat)
    requires cap > 0 && W % cap == 0
    ensures n % W % cap == n % cap
  {
    ModOfMod(n, W, cap);
  }

  /** Counters less than a capacity apart use different slots. */
  lemma SlotsDiffer(cap: nat, k: nat, n: nat)
    requires cap > 0 && k < n < k + cap
    ensures k % cap != n % cap
  {
    if k % cap == n % cap {
      var a, b := k / cap, n / cap;
      assert n - k == cap * b - cap * a;
      assert cap * b - cap * a == cap * (b - a);
      MulAtLeast(cap, b - a);
    }
  }

  /** The wrapped difference of the counters is their difference. */
  lemma WrappedDifference(h: nat, t: nat)
    requires t <= h && h - t < W
    ensures WrapSub64(h % W, t % W) == h - t
  {
    var a, b := h / W, t / W;
    assert h % W - t % W == (h - t) + W * (b - a) by {
      assert h == W * a + h % W && t == W * b + t % W;
      assert W * (b - a) == W * b - W * a;
    }
    ModUnique(h % W - t % W, W, b - a, h - t);
  }

  lemma WrappedSuccessor(n: nat)
    ensures WrapAdd64(n % W, 1) == (n + 1) % W
  {}

  lemma ProducerKeepsInv(cap: U64, s: State, step: Step)
    requires cap > 0 && W % cap == 0 && Inv(cap, s) && Enabled(cap, s, step)
    requires step.LoadHead? || step.CheckTail? || step.StoreSlot? || step.StoreHead?
    ensures Inv(cap, Apply(cap, s, step))
  {
    var h, t := |s.pushed|, |s.popped|;
    match step
    case LoadHead(_) =>
    case CheckTail =>
      WrappedDifference(h, t);
    case StoreSlot =>
      SlotOfWrapped(cap, h);
      forall k | t <= k < h
        ensures k % cap != h % cap
      {
        SlotsDiffer(cap, k, h);
      }
    case StoreHead =>
      WrappedSuccessor(h);
      var s' := Apply(cap, s, step);
      assert s'.pushed[..t] == s.pushed[..t];
  }

  lemma ConsumerKeepsInv(cap: U64, s: State, step: Step)
    requires cap > 0 && W % cap == 0 && Inv(cap, s) && Enabled(cap, s, step)
    requires step.LoadTail? || step.CheckHead? || step.LoadSlot? || step.StoreTail?
    ensures Inv(cap, Apply(cap, s, step))
  {
    var h, t := |s.pushed|, |s.popped|;
    match step
    case LoadTail =>
    case CheckHead =>
      if t == h {
      } else {
        WrappedDifference(h, t);
      }
    case LoadSlot =>
      SlotOfWrapped(cap, t);
    case StoreTail =>
      WrappedSuccessor(t);
      var s' := Apply(cap, s, step);
      assert s.pushed[..t + 1] == s.pushed[..t] + [s.pushed[t]];
  }

  /** In every interleaving: no more than `cap` bytes are queued, and what was popped is what was pushed first. */
  lemma {:induction false} EveryRunIsFifo(cap: U64, s: State, steps: seq<Step>)
    requires cap > 0 && W % cap == 0 && Init(cap, s)
    ensures Inv(cap, Run(cap, s, steps))
    ensures var r := Run(cap, s, steps); r.popped <= r.pushed && |r.pushed| - |r.popped| <= cap
    decreases |steps|
  {
    if steps != [] {
      var n := |steps| - 1;
      EveryRunIsFifo(cap, s, steps[..n]);
      var t, step := Run(cap, s, steps[..n]), steps[n];
      if Enabled(cap, t, step) {
        if step.LoadHead? || step.CheckTail? || step.StoreSlot? || step.StoreHead? {
          ProducerKeepsInv(cap, t, step);
        } else {
          ConsumerKeepsInv(cap, t, step);
        }
      }
    }
  }

  /** A slot is written only while no unread byte is in it. */
  lemma NoUnreadByteOverwritten(cap: U64, s: State, steps: seq<Step>, k: nat)
    requires cap > 0 && W % cap == 0 && Init(cap, s)
    requires Enabled(cap, Run(cap, s, steps), StoreSlot)
    requires |Run(cap, s, steps).popped| <= k < |Run(cap, s, steps).pushed|
    ensures k % cap != Run(cap, s, steps).p.head % cap
  {
    EveryRunIsFifo(cap, s, steps);
    var h := |Run(cap, s, steps).pushed|;
    SlotOfWrapped(cap, h);
    SlotsDiffer(cap, k, h);
  }

  // Capacities that do not divide 2^64: the slots jump when the counter wraps.

  function PushSteps(val: Byte): seq<Step> { [LoadHead(val), CheckTail, StoreSlot, StoreHead] }

  function PopSteps(): seq<Step> { [LoadTail, CheckHead, LoadSlot, StoreTail] }

  /** One whole `push` and one whole `pop`, `n` times. */
  function Pairs(n: nat): seq<Step> {
    if n == 0 then [] else Pairs(n - 1) + (PushSteps(0) + PopSteps())
  }

  function Pushes(n: nat): seq<Step> {
    if n == 0 then [] else Pushes(n - 1) + PushSteps(0)
  }

  predicate Idle(cap: U64, s: State) {
    cap > 0 && |s.buffer| == cap && s.p == PIdle && s.c == CIdle
  }

  lemma {:induction false} RunAppend(cap: U64, s: State, a: seq<Step>, b: seq<Step>)
    ensures Run(cap, s, a + b) == Run(cap, Run(cap, s, a), b)
    decreases |b|
  {
    if b == [] {
      assert a + b == a;
    } else {
      var n := |b| - 1;
      RunAppend(cap, s, a, b[..n]);
      assert (a + b)[..|a + b| - 1] == a + b[..n];
    }
  }

  lemma RunFour(cap: U64, s: State, a: Step, b: Step, c: Step, d: Step)
    ensures Run(cap, s, [a, b, c, d]) == Run(cap, Run(cap, Run(cap, Run(cap, s, [a]), [b]), [c]), [d])
  {
    hide Run;
    RunAppend(cap, s, [a], [b]);
    RunAppend(cap, s, [a, b], [c]);
    RunAppend(cap, s, [a, b, c], [d]);
    assert [a] + [b] == [a, b] && [a, b] + [c] == [a, b, c] && [a, b, c] + [d] == [a, b, c, d];
  }

  lemma RunOne(cap: U64, s: State, a: Step)
    requires Enabled(cap, s, a)
    ensures Run(cap, s, [a]) == Apply(cap, s, a)
  {
    assert [a][..0] == [];
  }

  lemma WholePush(cap: U64, s: State, val: Byte)
    requires Idle(cap, s) && WrapSub64(s.head, s.tail) < cap
    ensures Run(cap, s, PushSteps(val))
         == s.(buffer := s.buffer[s.head % cap := val], head := WrapAdd64(s.head, 1), pushed := s.pushed + [val])
  {
    hide Run;
    RunFour(cap, s, LoadHead(val), CheckTail, StoreSlot, StoreHead);
    RunOne(cap, s, LoadHead(val));
    var s1 := Apply(cap, s, LoadHead(val));
    RunOne(cap, s1, CheckTail);
    var s2 := Apply(cap, s1, CheckTail);
    RunOne(cap, s2, StoreSlot);
    RunOne(cap, Apply(cap, s2, StoreSlot), StoreHead);
  }

  lemma WholePop(cap: U64, s: State)
    requires Idle(cap, s) && s.head != s.tail
    ensures Run(cap, s, PopSteps())
         == s.(tail := WrapAdd64(s.tail, 1), popped := s.popped + [s.buffer[s.tail % cap]])
  {
    hide Run;
    RunFour(cap, s, LoadTail, CheckHead, LoadSlot, StoreTail);
    RunOne(cap, s, LoadTail);
    var s1 := Apply(cap, s, LoadTail);
    RunOne(cap, s1, CheckHead);
    var s2 := Apply(cap, s1, CheckHead);
    RunOne(cap, s2, LoadSlot);
    RunOne(cap, Apply(cap, s2, LoadSlot), StoreTail);
  }

  lemma {:induction false} AfterPairs(cap: U64, s: State, n: nat)
    requires cap > 0 && Init(cap, s)
    ensures var r := Run(cap, s, Pairs(n));
            Idle(cap, r) && r.head == n % W && r.tail == n % W && |r.pushed| == n && |r.popped| == n
  {
    hide Enabled, Apply;
    if n > 0 {
      AfterPairs(cap, s, n - 1);
      var r := Run(cap, s, Pairs(n - 1));
      RunAppend(cap, s, Pairs(n - 1), PushSteps(0) + PopSteps());
      RunAppend(cap, r, PushSteps(0), PopSteps());
      WholePush(cap, r, 0);
      WholePop(cap, Run(cap, r, PushSteps(0)));
      WrappedSuccessor(n - 1);
    }
  }

  lemma {:induction false} AfterPushes(cap: U64, s: State, n: nat, t: nat, h: nat)
    requires Idle(cap, s) && t <= h && h + n <= t + cap
    requires s.head == h % W && s.tail == t % W && |s.pushed| == h && |s.popped| == t
    ensures var r := Run(cap, s, Pushes(n));
            Idle(cap, r) && r.head == (h + n) % W && r.tail == s.tail && s.pushed <= r.pushed && r.popped == s.popped
            && |r.pushed| == h + n
    decreases n
  {
    hide Enabled, Apply;
    if n > 0 {
      AfterPushes(cap, s, n - 1, t, h);
      var r := Run(cap, s, Pushes(n - 1));
      RunAppend(cap, s, Pushes(n - 1), PushSteps(0));
      WrappedDifference(h + n - 1, t);
      WholePush(cap, r, 0);
      WrappedSuccessor(h + n - 1);
    }
  }

  /** A run in which the wrapped counter overwrites a byte that was not read yet. */
  lemma LosesAByte(cap: U64, s: State) returns (steps: seq<Step>)
    requires cap > 0 && W % cap != 0 && Init(cap, s)
    ensures var r := Run(cap, s, steps); !(r.popped <= r.pushed)
  {
    hide Enabled, Apply, Run, Pairs, Pushes, PushSteps, PopSteps, WrapSub64;
    var rest := (W - 1) % cap;
    var m := W - 1 - rest;
    LastSlot(cap, rest, m);
    AfterPairs(cap, s, m);
    var s1 := Run(cap, s, Pairs(m));
    WrappedDifference(m, m);
    WholePush(cap, s1, 1);
    var s2 := Run(cap, s1, PushSteps(1));
    WrappedSuccessor(m);
    AfterPushes(cap, s2, rest, m, m + 1);
    var s3 := Run(cap, s2, Pushes(rest));
    WrappedDifference(m + 1 + rest, m);
    WholePush(cap, s3, 2);
    var s4 := Run(cap, s3, PushSteps(2));
    WholePop(cap, s4);
    var s5 := Run(cap, s4, PopSteps());
    steps := Pairs(m) + (PushSteps(1) + (Pushes(rest) + (PushSteps(2) + PopSteps())));
    RunFive(cap, s, Pairs(m), PushSteps(1), Pushes(rest), PushSteps(2), PopSteps());
    assert s2.pushed[m] == 1 && s3.pushed[m] == 1 && s5.pushed[m] == 1 && s5.popped[m] == 2;
  }

  lemma RunFive(cap: U64, s: State, a: seq<Step>, b: seq<Step>, c: seq<Step>, d: seq<Step>, e: seq<Step>)
    ensures Run(cap, s, a + (b + (c + (d + e))))
         == Run(cap, Run(cap, Run(cap, Run(cap, Run(cap, s, a), b), c), d), e)
  {
    hide Run;
    RunAppend(cap, s, a, b + (c + (d + e)));
    var s1 := Run(cap, s, a);
    RunAppend(cap, s1, b, c + (d + e));
    var s2 := Run(cap, s1, b);
    RunAppend(cap, s2, c, d + e);
    RunAppend(cap, Run(cap, s2, c), d, e);
  }

  lemma LastSlot(cap: U64, rest: nat, m: nat)
    requires cap > 0 && W % cap != 0 && rest == (W - 1) % cap && m == W - 1 - rest
    ensures m % cap == 0 && rest + 1 < cap && 0 <= m < W
  {
    var q := (W - 1) / cap;
    assert W - 1 == cap * q + rest;
    ModUnique(m, cap, q, 0);
    if rest + 1 == cap {
      assert W == cap * (q + 1) by { assert cap * (q + 1) == cap * q + cap; }
      ModUnique(W, cap, q + 1, 0);
    }
  }

  /** Every run, from every initial buffer, pops a prefix of what it pushed. */
  ghost predicate Fifo(cap: U64) {
    forall s, steps :: Init(cap, s) ==> Run(cap, s, steps).popped <= Run(cap, s, steps).pushed
  }

  /** The ring is a queue exactly for the capacities that divide 2^64. */
  lemma FifoIffCapacityDivides(cap: U64)
    requires cap > 0
    ensures Fifo(cap) <==> W % cap == 0
  {
    hide Run;
    if W % cap == 0 {
      forall s, steps | Init(cap, s)
        ensures Run(cap, s, steps).popped <= Run(cap, s, steps).pushed
      {
        EveryRunIsFifo(cap, s, steps);
      }
    } else {
      var s := State(seq(cap, i => 0), 0, 0, PIdle, CIdle, [], []);
      var steps := LosesAByte(cap, s);
    }
  }

  function Slot(cap: nat, k: nat): (i: nat)
    requires cap > 0
    ensures i < cap
  {
    k % cap
  }

  /** The ring as one thread alone sees it. `contents` are the queued bytes, oldest first. */
  class Ring {
    const buffer: array<Byte>
    var head: U64
    var tail: U64
    ghost var popped: nat
    ghost var contents: seq<Byte>

    /** A capacity that divides 2^64, as `FifoIffCapacityDivides` asks for. */
    ghost predicate Valid()
      reads this, buffer
    {
      && 0 < buffer.Length < W && W % buffer.Length == 0
      && |contents| <= buffer.Length
      && tail == popped % W && head == (popped + |contents|) % W
      && forall k :: popped <= k < popped + |contents| ==> buffer[Slot(buffer.Length, k)] == contents[k - popped]
    }

    constructor (cap: nat)
      requires 0 < cap < W && W % cap == 0
      ensures Valid() && fresh(buffer) && buffer.Length == cap && contents == []
    {
      buffer := new Byte[cap](i => 0);
      head, tail, popped, contents := 0, 0, 0, [];
    }

    method Push(val: Byte) returns (ok: bool)
      requires Valid()
      modifies this`head, this`contents, buffer
      ensures Valid() && (ok <==> |old(contents)| < buffer.Length)
      ensures contents == if ok then old(contents) + [val] else old(contents)
    {
      ghost var n := popped + |contents|;
      WrappedDifference(n, popped);
      if WrapSub64(head, tail) >= buffer.Length {
        return false;
      }
      SlotOfWrapped(buffer.Length, n);
      forall k | popped <= k < n
        ensures Slot(buffer.Length, k) != n % buffer.Length
      {
        SlotsDiffer(buffer.Length, k, n);
      }
      buffer[head % buffer.Length] := val;
      WrappedSuccessor(n);
      head := WrapAdd64(head, 1);
      contents := contents + [val];
      ok := true;
    }

    method Pop() returns (r: Option<Byte>)
      requires Valid()
      modifies this`tail, this`popped, this`contents
      ensures Valid()
      ensures old(contents) == [] ==> r == None && contents == []
      ensures old(contents) != [] ==> r == Some(old(contents)[0]) && contents == old(contents)[1..]
    {
      WrappedDifference(popped + |contents|, popped);
      if tail == head {
        return None;
      }
      SlotOfWrapped(buffer.Length, popped);
      r := Some(buffer[tail % buffer.Length]);
      WrappedSuccessor(popped);
      tail := WrapAdd64(tail, 1);
      assert Slot(buffer.Length, popped) == popped % buffer.Length;
      popped, contents := popped + 1, contents[1..];
    }

    /** The newest `cap` bytes of the queue and the new byte stay; at most one, the oldest, goes. */
    method PushOverwrite(val: Byte)
      requires Valid()
      modifies this`head, this`tail, this`popped, this`contents, buffer
      ensures Valid()
      ensures var all := old(contents) + [val];
              contents == if |all| <= buffer.Length then all else all[|all| - buffer.Length..]
    {
      var ok := Push(val);
      if !ok {
        var _ := Pop();
        var _ := Push(val);
      }
    }

    method Len() returns (n: U64)
      requires Valid()
      ensures n == |contents| <= buffer.Length
    {
      WrappedDifference(popped + |contents|, popped);
      n := WrapSub64(head, tail);
    }
  }
}
