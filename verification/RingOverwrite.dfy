/**
  `push_overwrite` against a concurrent `pop` (petra/src/utils/ring_buffer.rs). A producer that finds the ring full
  pops a byte itself, so for a while there are two consumers, and each stores the tail it loaded plus one.

  A byte is named by its number in the order of pushes, a slot holds the number last stored there, and `-1` at first.
  The counters do not wrap here; what wrapping does is the subject of `RingBuffer`. Only the producer writes the head,
  so its own loads of the head are no steps of their own.
*/
module RingOverwrite {
  import opened Words

  /** Where the producer is inside `push_overwrite`. */
  datatype Producer =
    | PIdle
    | PFull            // first push failed
    | PHold(tail: nat) // inner pop: tail loaded, not empty
    | PAgain           // inner pop done
    | PRoom            // a push found room
    | PStored          // slot written

  /** Where the consumer is inside `pop`. */
  datatype Consumer =
    | CIdle
    | CTail(tail: nat)
    | CSome(tail: nat)
    | CTaken(tail: nat, val: int)

  /** `head` counts the pushes; `got` are the bytes the consumer has returned. */
  datatype State = State(slots: seq<int>, head: nat, tail: nat, p: Producer, c: Consumer, got: seq<int>)

  datatype Step =
    | CheckTail | InnerLoad | InnerStore | CheckAgain | StoreSlot | StoreHead
    | LoadTail | CheckHead | LoadSlot | StoreTail

  function Start(cap: nat): State { State(seq(cap, i => -1), 0, 0, PIdle, CIdle, []) }

  predicate Enabled(s: State, m: Step) {
    match m
    case CheckTail => s.p.PIdle?
    case InnerLoad => s.p.PFull?
    case InnerStore => s.p.PHold?
    case CheckAgain => s.p.PAgain?
    case StoreSlot => s.p.PRoom?
    case StoreHead => s.p.PStored?
    case LoadTail => s.c.CIdle?
    case CheckHead => s.c.CTail?
    case LoadSlot => s.c.CSome?
    case StoreTail => s.c.CTaken?
  }

  function Apply(cap: nat, s: State, m: Step): State
    requires cap > 0 && |s.slots| == cap && Enabled(s, m)
  {
    match m
    case CheckTail => s.(p := if s.head - s.tail >= cap then PFull else PRoom)
    case InnerLoad => s.(p := if s.tail == s.head then PAgain else PHold(s.tail))
    case InnerStore => s.(tail := s.p.tail + 1, p := PAgain)
    case CheckAgain => s.(p := if s.head - s.tail >= cap then PIdle else PRoom)
    case StoreSlot => s.(slots := s.slots[s.head % cap := s.head], p := PStored)
    case StoreHead => s.(head := s.head + 1, p := PIdle)
    case LoadTail => s.(c := CTail(s.tail))
    case CheckHead => s.(c := if s.c.tail == s.head then CIdle else CSome(s.c.tail))
    case LoadSlot => s.(c := CTaken(s.c.tail, s.slots[s.c.tail % cap]))
    case StoreTail => s.(tail := s.c.tail + 1, c := CIdle, got := s.got + [s.c.val])
  }

  function Run(cap: nat, s: State, steps: seq<Step>): (t: State)
    requires cap > 0 && |s.slots| == cap
    ensures |t.slots| == cap
  {
    if steps == [] then s
    else
      var t := Run(cap, s, steps[..|steps| - 1]);
      if Enabled(t, steps[|steps| - 1]) then Apply(cap, t, steps[|steps| - 1]) else t
  }

  /** The number of the next byte to be stored. */
  function Written(s: State): nat { s.head + if s.p.PStored? then 1 else 0 }

  /** How many pushes there will be once the one that found room is done. */
  function Promised(s: State): nat { s.head + if s.p.PStored? || s.p.PRoom? then 1 else 0 }

  /** The slots hold the newest bytes, wherever the tail is. */
  ghost predicate SlotsNewest(cap: nat, s: State)
    requires cap > 0
  {
    && |s.slots| == cap
    && (forall i :: 0 <= i < cap ==> -1 <= s.slots[i] < Written(s))
    && (forall i :: 0 <= i < cap && s.slots[i] >= 0 ==> s.slots[i] % cap == i && s.slots[i] + cap >= Written(s))
    && (forall k :: 0 <= k < Written(s) <= k + cap ==> Holds(cap, s, k))
  }

  predicate Holds(cap: nat, s: State, k: nat)
    requires cap > 0 && |s.slots| == cap
  {
    s.slots[k % cap] == k
  }

  /** The ring is never overfull, and the consumer returns bytes in the order of pushes, none twice, each the one it
      means. */
  ghost predicate Inv(cap: nat, s: State) {
    && cap > 0 && SlotsNewest(cap, s)
    && s.tail <= s.head && Promised(s) <= s.tail + cap
    && (forall i, j :: 0 <= i < j < |s.got| ==> s.got[i] < s.got[j])
    && (forall i :: 0 <= i < |s.got| ==> 0 <= s.got[i] < s.tail)
    && (s.p.PHold? ==> s.p.tail < s.head && (s.tail == s.p.tail || (s.got != [] && s.got[|s.got| - 1] + 1 == s.tail)))
    && (!s.c.CIdle? ==> s.c.tail <= s.head && forall i :: 0 <= i < |s.got| ==> s.got[i] < s.c.tail)
    && (s.c.CSome? || s.c.CTaken? ==> s.c.tail < s.head)
    && (s.c.CTaken? ==> s.c.val == s.c.tail)
  }

  /** What a step must meet: the consumer loads its slot before the producer has written over it; it stores its tail
      before more bytes are in or promised than the ring then holds; and the producer's own pop stores its tail before
      the consumer has gone past it. */
  predicate Safe(cap: nat, s: State, m: Step)
    requires Enabled(s, m)
  {
    match m
    case LoadSlot => Written(s) <= s.c.tail + cap
    case StoreTail => Promised(s) <= s.c.tail + 1 + cap
    case InnerStore => s.tail <= s.p.tail + 1
    case _ => true
  }

  lemma ModCongruent(cap: nat, a: nat, b: nat)
    requires cap > 0 && a < b < a + cap
    ensures a % cap != b % cap
  {
    if a % cap == b % cap {
      var x, y := a / cap, b / cap;
      assert b - a == cap * y - cap * x;
      assert cap * y - cap * x == cap * (y - x);
      MulAtLeast(cap, y - x);
    }
  }

  lemma SameSlot(cap: nat, h: nat)
    requires cap > 0 && h >= cap
    ensures (h - cap) % cap == h % cap
  {
    ModUnique(h - cap, cap, h / cap - 1, h % cap);
  }

  lemma StoreSlotKeeps(cap: nat, s: State)
    requires cap > 0 && SlotsNewest(cap, s) && s.p.PRoom?
    ensures SlotsNewest(cap, Apply(cap, s, StoreSlot))
  {
    var t := Apply(cap, s, StoreSlot);
    var h := s.head;
    forall i | 0 <= i < cap && t.slots[i] >= 0
      ensures t.slots[i] % cap == i && t.slots[i] + cap >= Written(t)
    {
      if i != h % cap && s.slots[i] + cap == h {
        SameSlot(cap, h);
      }
    }
    forall k | 0 <= k < Written(t) <= k + cap
      ensures Holds(cap, t, k)
    {
      if k < h {
        assert Holds(cap, s, k);
        ModCongruent(cap, k, h);
      }
    }
  }

  lemma StoreHeadKeeps(cap: nat, s: State)
    requires cap > 0 && SlotsNewest(cap, s) && s.p.PStored?
    ensures SlotsNewest(cap, Apply(cap, s, StoreHead))
  {
    var t := Apply(cap, s, StoreHead);
    assert Written(t) == Written(s);
    forall k | 0 <= k < Written(t) <= k + cap
      ensures Holds(cap, t, k)
    {
      assert Holds(cap, s, k);
    }
  }

  lemma SameSlots(cap: nat, s: State, t: State)
    requires cap > 0 && SlotsNewest(cap, s) && t.slots == s.slots && Written(t) == Written(s)
    ensures SlotsNewest(cap, t)
  {
    forall k | 0 <= k < Written(t) <= k + cap
      ensures Holds(cap, t, k)
    {
      assert Holds(cap, s, k);
    }
  }

  /** A slot still holds a byte exactly until the byte `cap` later is written. */
  lemma SlotIntactIff(cap: nat, s: State, k: nat)
    requires cap > 0 && SlotsNewest(cap, s) && k < s.head
    ensures Holds(cap, s, k) <==> Written(s) <= k + cap
  {
    if Written(s) <= k + cap {
      assert Holds(cap, s, k);
    }
  }

  /** A step keeps the invariant exactly when it is safe. */
  lemma StepInvIff(cap: nat, s: State, m: Step)
    requires Inv(cap, s) && Enabled(s, m)
    ensures Inv(cap, Apply(cap, s, m)) <==> Safe(cap, s, m)
  {
    hide SlotsNewest;
    SlotsSized(cap, s);
    match m
    case StoreSlot => StoreSlotKeeps(cap, s);
    case StoreHead => StoreHeadKeeps(cap, s);
    case LoadSlot =>
      SlotIntactIff(cap, s, s.c.tail);
      SameSlots(cap, s, Apply(cap, s, m));
    case _ => SameSlots(cap, s, Apply(cap, s, m));
  }

  lemma SlotsSized(cap: nat, s: State)
    requires cap > 0 && SlotsNewest(cap, s)
    ensures |s.slots| == cap
  {
  }

  lemma StartInv(cap: nat)
    requires cap > 0
    ensures Inv(cap, Start(cap))
  {
  }

  ghost predicate InvThroughout(cap: nat, s: State, steps: seq<Step>)
    requires cap > 0 && |s.slots| == cap
  {
    Inv(cap, Run(cap, s, steps)) && (steps == [] || InvThroughout(cap, s, steps[..|steps| - 1]))
  }

  ghost predicate AllSafe(cap: nat, s: State, steps: seq<Step>)
    requires cap > 0 && |s.slots| == cap
  {
    steps == []
    || var t := Run(cap, s, steps[..|steps| - 1]);
       var m := steps[|steps| - 1];
       AllSafe(cap, s, steps[..|steps| - 1]) && (Enabled(t, m) ==> Safe(cap, t, m))
  }

  /** The interleavings that keep the ring right are exactly those whose every step is safe. */
  lemma {:induction false} RunInvIff(cap: nat, s: State, steps: seq<Step>)
    requires Inv(cap, s) && |s.slots| == cap
    ensures InvThroughout(cap, s, steps) <==> AllSafe(cap, s, steps)
    decreases |steps|
  {
    hide Inv, Apply, Safe, Enabled;
    StillPositive(cap, s);
    if steps != [] {
      var t := Run(cap, s, steps[..|steps| - 1]);
      RunInvIff(cap, s, steps[..|steps| - 1]);
      if Inv(cap, t) && Enabled(t, steps[|steps| - 1]) { StepInvIff(cap, t, steps[|steps| - 1]); }
    }
  }

  lemma StillPositive(cap: nat, s: State)
    requires Inv(cap, s)
    ensures cap > 0
  {
  }

  // Pops that do not overlap.

  /** No pop is under way in one thread when the other begins one. */
  predicate Apart(s: State, m: Step)
    requires Enabled(s, m)
  {
    match m
    case InnerLoad => s.c.CIdle?
    case LoadTail => !s.p.PHold?
    case _ => true
  }

  ghost predicate Current(s: State) {
    && (!s.c.CIdle? ==> s.c.tail == s.tail && !s.p.PHold?)
    && (s.p.PHold? ==> s.p.tail == s.tail)
  }

  /** If the two never pop at the same time every step is safe: `push_overwrite` keeps the ring right. */
  lemma ApartIsSafe(cap: nat, s: State, m: Step)
    requires Inv(cap, s) && Current(s) && Enabled(s, m) && Apart(s, m)
    ensures Safe(cap, s, m) && Inv(cap, Apply(cap, s, m)) && Current(Apply(cap, s, m))
  {
    hide SlotsNewest;
    SlotsSized(cap, s);
    StepInvIff(cap, s, m);
  }

  // Pops that do.

  const OVERWRITE := [CheckTail] + ([InnerLoad] + ([InnerStore] + ([CheckAgain] + ([StoreSlot] + [StoreHead]))))

  function Push(cap: nat, s: State): State
    requires cap > 0 && |s.slots| == cap
  {
    s.(slots := s.slots[s.head % cap := s.head], head := s.head + 1)
  }

  function Six(cap: nat, s: State, a: Step, b: Step, c: Step, d: Step, e: Step, f: Step): State
    requires cap > 0 && |s.slots| == cap
  {
    Run(cap, Run(cap, Run(cap, Run(cap, Run(cap, Run(cap, s, [a]), [b]), [c]), [d]), [e]), [f])
  }

  lemma RunOne(cap: nat, s: State, m: Step)
    requires cap > 0 && |s.slots| == cap && Enabled(s, m)
    ensures Run(cap, s, [m]) == Apply(cap, s, m)
  {
    assert [m][..0] == [];
  }

  lemma {:induction false} RunAppend(cap: nat, s: State, a: seq<Step>, b: seq<Step>)
    requires cap > 0 && |s.slots| == cap
    ensures Run(cap, s, a + b) == Run(cap, Run(cap, s, a), b)
    decreases |b|
  {
    hide Apply, Enabled;
    if b == [] {
      assert a + b == a;
    } else {
      RunAppend(cap, s, a, b[..|b| - 1]);
      assert (a + b)[..|a + b| - 1] == a + b[..|b| - 1];
    }
  }

  lemma RunSix(cap: nat, s: State, a: Step, b: Step, c: Step, d: Step, e: Step, f: Step)
    requires cap > 0 && |s.slots| == cap
    ensures Run(cap, s, [a] + ([b] + ([c] + ([d] + ([e] + [f]))))) == Six(cap, s, a, b, c, d, e, f)
  {
    hide Run;
    RunAppend(cap, s, [a], [b] + ([c] + ([d] + ([e] + [f]))));
    var s1 := Run(cap, s, [a]);
    RunAppend(cap, s1, [b], [c] + ([d] + ([e] + [f])));
    var s2 := Run(cap, s1, [b]);
    RunAppend(cap, s2, [c], [d] + ([e] + [f]));
    var s3 := Run(cap, s2, [c]);
    RunAppend(cap, s3, [d], [e] + [f]);
    RunAppend(cap, Run(cap, s3, [d]), [e], [f]);
  }

  /** One overwrite of a full ring, undisturbed, moves both ends by one. */
  lemma OverwriteMoves(cap: nat, s: State)
    requires cap > 0 && |s.slots| == cap && s.p.PIdle? && s.head == s.tail + cap
    ensures Run(cap, s, OVERWRITE) == Push(cap, s).(tail := s.tail + 1)
  {
    RunSix(cap, s, CheckTail, InnerLoad, InnerStore, CheckAgain, StoreSlot, StoreHead);
    hide Run;
    var s1 := s.(p := PFull);
    RunOne(cap, s, CheckTail);
    var s2 := s.(p := PHold(s.tail));
    RunOne(cap, s1, InnerLoad);
    var s3 := s.(tail := s.tail + 1, p := PAgain);
    RunOne(cap, s2, InnerStore);
    var s4 := s3.(p := PRoom);
    RunOne(cap, s3, CheckAgain);
    RunOne(cap, s4, StoreSlot);
    RunOne(cap, Apply(cap, s4, StoreSlot), StoreHead);
  }

  /** Two overwrites of a full ring while the consumer holds its tail, and the consumer's store then puts the tail back:
      the ring counts one byte more than it has slots. */
  lemma Overfull(cap: nat, s: State)
    requires Inv(cap, s) && s.p.PIdle? && s.head == s.tail + cap && s.c == CTaken(s.tail, s.tail)
    ensures |s.slots| == cap
    ensures var t := Run(cap, s, OVERWRITE + OVERWRITE + [StoreTail]);
            t.head - t.tail == cap + 1 && !Inv(cap, t)
  {
    hide SlotsNewest;
    SlotsSized(cap, s);
    RunAppend(cap, s, OVERWRITE + OVERWRITE, [StoreTail]);
    RunAppend(cap, s, OVERWRITE, OVERWRITE);
    hide Run;
    OverwriteMoves(cap, s);
    var t := Push(cap, s).(tail := s.tail + 1);
    OverwriteMoves(cap, t);
    RunOne(cap, Push(cap, t).(tail := t.tail + 1), StoreTail);
  }

  /** Such a state is reached: a ring filled from the start, and a consumer up to its store. */
  function Filled(cap: nat, n: nat): seq<Step> {
    if n == 0 then [] else Filled(cap, n - 1) + [CheckTail, StoreSlot, StoreHead]
  }

  lemma {:induction false} AfterFill(cap: nat, n: nat)
    requires cap > 0 && n <= cap
    ensures var t := Run(cap, Start(cap), Filled(cap, n));
            && t.head == n && t.tail == 0 && t.p.PIdle? && t.c.CIdle? && t.got == [] && Inv(cap, t)
    decreases n
  {
    hide Apply, SlotsNewest, Safe, Run;
    StartInv(cap);
    if n == 0 {
      RunNothing(cap, Start(cap), Filled(cap, n));
    } else {
      AfterFill(cap, n - 1);
      var t := Run(cap, Start(cap), Filled(cap, n - 1));
      RunAppend(cap, Start(cap), Filled(cap, n - 1), [CheckTail, StoreSlot, StoreHead]);
      PushOne(cap, t);
    }
  }

  lemma RunNothing(cap: nat, s: State, steps: seq<Step>)
    requires cap > 0 && |s.slots| == cap && steps == []
    ensures Run(cap, s, steps) == s
  {
  }

  lemma PushOne(cap: nat, s: State)
    requires Inv(cap, s) && s.p.PIdle? && s.head < s.tail + cap
    ensures |s.slots| == cap
    ensures var t := Run(cap, s, [CheckTail, StoreSlot, StoreHead]); t == Push(cap, s) && Inv(cap, t)
  {
    hide SlotsNewest;
    SlotsSized(cap, s);
    RunAppend(cap, s, [CheckTail], [StoreSlot, StoreHead]);
    RunOne(cap, s, CheckTail);
    StepInvIff(cap, s, CheckTail);
    var a := Apply(cap, s, CheckTail);
    RunAppend(cap, a, [StoreSlot], [StoreHead]);
    RunOne(cap, a, StoreSlot);
    StepInvIff(cap, a, StoreSlot);
    var b := Apply(cap, a, StoreSlot);
    RunOne(cap, b, StoreHead);
    StepInvIff(cap, b, StoreHead);
    assert [CheckTail] + [StoreSlot, StoreHead] == [CheckTail, StoreSlot, StoreHead];
    assert [StoreSlot] + [StoreHead] == [StoreSlot, StoreHead];
  }

  lemma OverfullIsReached(cap: nat) returns (steps: seq<Step>)
    requires cap > 0
    ensures var t := Run(cap, Start(cap), steps); t.head - t.tail == cap + 1 && !Inv(cap, t)
  {
    hide SlotsNewest, Run;
    AfterFill(cap, cap);
    var s := Run(cap, Start(cap), Filled(cap, cap));
    var pop := [LoadTail, CheckHead, LoadSlot];
    RunAppend(cap, s, [LoadTail], [CheckHead, LoadSlot]);
    RunOne(cap, s, LoadTail);
    StepInvIff(cap, s, LoadTail);
    var a := Apply(cap, s, LoadTail);
    RunAppend(cap, a, [CheckHead], [LoadSlot]);
    RunOne(cap, a, CheckHead);
    StepInvIff(cap, a, CheckHead);
    var b := Apply(cap, a, CheckHead);
    RunOne(cap, b, LoadSlot);
    StepInvIff(cap, b, LoadSlot);
    var c := Apply(cap, b, LoadSlot);
    assert [LoadTail] + [CheckHead, LoadSlot] == pop && [CheckHead] + [LoadSlot] == [CheckHead, LoadSlot];
    assert Run(cap, s, pop) == c;
    Overfull(cap, c);
    var tail := OVERWRITE + OVERWRITE + [StoreTail];
    RunAppend(cap, Start(cap), Filled(cap, cap), pop);
    RunAppend(cap, Start(cap), Filled(cap, cap) + pop, tail);
    steps := Filled(cap, cap) + pop + tail;
  }
}
