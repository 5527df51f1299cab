/**
  The threads of one process and the signals sent to it (petra/src/proc/signal.rs). A process-directed signal goes to
  the queue that all threads share, and `wake_one_thread` arms the first thread that is not being killed, whatever
  that thread's mask.
*/
module ProcessSignals {
  import opened Words
  import opened Signals
  import opened SignalFrame
  import opened ThreadSignals

  /** A thread, without its view of the process; `dying` is KILL_PENDING. */
  datatype Member = Member(td: State, dying: bool)

  datatype Group = Group(threads: seq<Member>, proc: Process)

  function View(g: Group, i: nat): State
    requires i < |g.threads|
  {
    g.threads[i].td.(proc := Some(g.proc))
  }

  function Store(g: Group, i: nat, s: State): Group
    requires i < |g.threads| && s.proc.Some?
  {
    Group(g.threads[i := g.threads[i].(td := s.(proc := None))], s.proc.value)
  }

  /** The thread that `wake_one_thread` finds. */
  function FirstLive(ts: seq<Member>): (r: Option<nat>)
    ensures match r
            case None => forall i :: 0 <= i < |ts| ==> ts[i].dying
            case Some(i) => i < |ts| && !ts[i].dying && forall j :: 0 <= j < i ==> ts[j].dying
  {
    if ts == [] then None
    else if !ts[0].dying then Some(0)
    else match FirstLive(ts[1..])
         case None => None
         case Some(i) => Some(i + 1)
  }

  function WithFlag(m: Member): Member { m.(td := m.td.(ast := true)) }

  function Woken(ts: seq<Member>): seq<Member> {
    match FirstLive(ts)
    case None => ts
    case Some(i) => ts[i := WithFlag(ts[i])]
  }

  /** `wake_one_thread`. */
  method WakeOneThread(ts: array<Member>)
    modifies ts
    ensures ts[..] == Woken(old(ts[..]))
  {
    for i := 0 to ts.Length
      invariant ts[..] == old(ts[..])
      invariant forall j :: 0 <= j < i ==> ts[j].dying
    {
      if !ts[i].dying {
        ts[i] := WithFlag(ts[i]);
        return;
      }
    }
  }

  /** The end of `send_signal`: queue, then wake. */
  function Sent(g: Group, x: Queued): Group {
    Group(Woken(g.threads), g.proc.(queue := Posted(g.proc.queue, x)))
  }

  datatype Act =
    | Send(x: Queued)
    | Kill(i: nat)
    | On(i: nat, step: Step)

  /** A thread's own steps; what others post meanwhile are steps of theirs. */
  predicate Enabled(g: Group, a: Act) {
    match a
    case Send(_) => true
    case Kill(i) => i < |g.threads|
    case On(i, step) =>
      && i < |g.threads| && !step.PostProcess?
      && (step.Ast? ==> forall x :: x in step.effect.procQueue ==> x in g.proc.queue)
  }

  function Next(g: Group, a: Act): Group
    requires Enabled(g, a)
  {
    match a
    case Send(x) => Sent(g, x)
    case Kill(i) => g.(threads := g.threads[i := WithFlag(g.threads[i]).(dying := true)])
    case On(i, step) =>
      StepKeepsProcess(View(g, i), step);
      Store(g, i, ThreadSignals.Next(View(g, i), step))
  }

  lemma StepKeepsProcess(s: State, step: Step)
    requires s.proc.Some?
    ensures ThreadSignals.Next(s, step).proc.Some?
  {
    FrameRecord(s, step);
  }

  /** Every thread that could take a signal has its flag. */
  ghost predicate AllArmed(g: Group) {
    forall i :: 0 <= i < |g.threads| ==> Armed(View(g, i))
  }

  /** What an act must meet to leave no thread with a deliverable signal and no flag. */
  predicate KeepsFlags(g: Group, a: Act)
    requires Enabled(g, a)
  {
    match a
    case Send(x) =>
      forall j :: 0 <= j < |g.threads| && FirstLive(g.threads) != Some(j) ==>
        g.threads[j].td.ast || !Deliverable(x, g.threads[j].td.mask)
    case Kill(_) => true
    case On(i, step) => KeepsFlag(View(g, i), step)
  }

  /** A process-directed signal leaves every thread armed exactly when each thread other than the first live one is
      armed already or masks it. */
  lemma SentArmedIff(g: Group, x: Queued)
    requires AllArmed(g)
    ensures AllArmed(Sent(g, x)) <==> KeepsFlags(g, Send(x))
  {
    hide HasUnmasked, Posted, Deliverable;
    var h := Sent(g, x);
    forall j | 0 <= j < |g.threads|
      ensures Armed(View(h, j)) <==>
                FirstLive(g.threads) == Some(j) || g.threads[j].td.ast || !Deliverable(x, g.threads[j].td.mask)
    {
      assert Armed(View(g, j));
      PostedUnmasked(g.proc.queue, x, g.threads[j].td.mask);
    }
  }

  lemma FewerUnmasked(a: seq<Queued>, b: seq<Queued>, mask: SigSet)
    requires forall x :: x in a ==> x in b
    ensures HasUnmasked(a, mask) ==> HasUnmasked(b, mask)
  {
    hide Deliverable;
    if i: nat :| i < |a| && Deliverable(a[i], mask) {
      assert a[i] in b;
    }
  }

  lemma TakeShrinks(q: seq<Queued>, mask: SigSet)
    ensures forall x :: x in Take(q, mask).1 ==> x in q
  {
    hide Best;
  }

  lemma TakenShrinks(s: State)
    requires s.proc.Some?
    ensures TakeSignal(s).1.proc.Some?
    ensures forall x :: x in TakeSignal(s).1.proc.value.queue ==> x in s.proc.value.queue
  {
    hide Take;
    TakeShrinks(s.proc.value.queue, s.mask);
  }

  lemma DeliverQueue(s: State, q: Queued, e: Effect)
    requires s.proc.Some?
    ensures var t := Deliver(s, q, e).0;
            t.proc.Some? && (t.proc.value.queue == s.proc.value.queue || t.proc.value.queue == e.procQueue)
  {
    hide BuildFrame, Redirected, SetAct, Has, EffectiveMask;
  }

  lemma AstShrinks(s: State, e: Effect)
    requires s.proc.Some? && forall x :: x in e.procQueue ==> x in s.proc.value.queue
    ensures var t := HandledAst(s, e).0; t.proc.Some? && forall x :: x in t.proc.value.queue ==> x in s.proc.value.queue
  {
    hide TakeSignal, Deliver, HasPending;
    if s.ast {
      TakenShrinks(s);
      var (q, t) := TakeSignal(s);
      if q.Some? { DeliverQueue(t, q.value, e); }
    }
  }

  /** A thread's step never adds to the shared queue. */
  lemma SharedShrinks(g: Group, i: nat, step: Step)
    requires Enabled(g, On(i, step))
    ensures ThreadSignals.Next(View(g, i), step).proc.Some?
    ensures forall x :: x in ThreadSignals.Next(View(g, i), step).proc.value.queue ==> x in g.proc.queue
  {
    hide HandledAst, Posted, Decoded, Restore, Read, Mapped, HasPending;
    if step.Ast? {
      AstShrinks(View(g, i), step.effect);
    }
  }

  /** One act keeps every thread armed exactly when it meets the condition. */
  lemma ActArmedIff(g: Group, a: Act)
    requires AllArmed(g) && Enabled(g, a)
    ensures AllArmed(Next(g, a)) <==> KeepsFlags(g, a)
  {
    hide HasUnmasked, Deliverable, ThreadSignals.Next, Armed, KeepsFlag, Sent;
    match a
    case Send(x) => SentArmedIff(g, x);
    case Kill(i) => KillKeeps(g, i);
    case On(i, step) =>
      var h := Next(g, a);
      StepKeepsProcess(View(g, i), step);
      StepArmedIff(View(g, i), step);
      ViewStored(g, i, ThreadSignals.Next(View(g, i), step));
      SharedShrinks(g, i, step);
      forall j | 0 <= j < |g.threads| && j != i
        ensures Armed(View(h, j))
      {
        OtherKeeps(g, h, j);
      }
  }

  lemma ViewStored(g: Group, i: nat, s: State)
    requires i < |g.threads| && s.proc.Some?
    ensures View(Store(g, i, s), i) == s
  {
  }

  lemma OtherKeeps(g: Group, h: Group, j: nat)
    requires j < |g.threads| && |h.threads| == |g.threads| && h.threads[j] == g.threads[j] && Armed(View(g, j))
    requires forall x :: x in h.proc.queue ==> x in g.proc.queue
    ensures Armed(View(h, j))
  {
    hide HasUnmasked;
    FewerUnmasked(h.proc.queue, g.proc.queue, g.threads[j].td.mask);
  }

  lemma KillKeeps(g: Group, i: nat)
    requires AllArmed(g) && i < |g.threads|
    ensures AllArmed(Next(g, Kill(i)))
  {
    hide HasUnmasked;
    var h := Next(g, Kill(i));
    forall j | 0 <= j < |g.threads|
      ensures Armed(View(h, j))
    {
      assert Armed(View(g, j));
    }
  }

  // Runs.

  function Run(g: Group, acts: seq<Act>): Group {
    if acts == [] then g
    else
      var h := Run(g, acts[..|acts| - 1]);
      if Enabled(h, acts[|acts| - 1]) then Next(h, acts[|acts| - 1]) else h
  }

  ghost predicate ArmedThroughout(g: Group, acts: seq<Act>) {
    AllArmed(Run(g, acts)) && (acts == [] || ArmedThroughout(g, acts[..|acts| - 1]))
  }

  ghost predicate AllKeepFlags(g: Group, acts: seq<Act>) {
    acts == []
    || var h := Run(g, acts[..|acts| - 1]);
       var a := acts[|acts| - 1];
       AllKeepFlags(g, acts[..|acts| - 1]) && (Enabled(h, a) ==> KeepsFlags(h, a))
  }

  /** Over any run of sends, kills and steps of any thread, no thread is ever without the flag for a signal it could
      take exactly when every act meets the condition. */
  lemma {:induction false} EveryRunArmedIff(g: Group, acts: seq<Act>)
    requires AllArmed(g)
    ensures ArmedThroughout(g, acts) <==> AllKeepFlags(g, acts)
    decreases |acts|
  {
    hide Next, KeepsFlags, AllArmed, Enabled;
    if acts != [] {
      var h := Run(g, acts[..|acts| - 1]);
      EveryRunArmedIff(g, acts[..|acts| - 1]);
      if AllArmed(h) && Enabled(h, acts[|acts| - 1]) { ActArmedIff(h, acts[|acts| - 1]); }
    }
  }

  // A process in which the condition fails.

  const SIGUSR1: Signal := 10

  function Fresh(mask: SigSet): Member {
    Member(State(false, false, mask, Empty(), None, None, SigStack(0, 0, 0), [], None), false)
  }

  /** Two threads, of which the first masks SIGUSR1. */
  function TwoThreads(p: Process): Group {
    Group([Fresh(Add(Empty(), SIGUSR1)), Fresh(Empty())], p.(queue := []))
  }

  /** SIGUSR1 sent to that process arms the first thread, which looks in vain and stands its flag down; the second
      could take the signal and has no flag. */
  lemma SecondThreadStranded(p: Process, x: Queued, e: Effect)
    requires x.signo == SIGUSR1 && e.procQueue == []
    ensures var g := TwoThreads(p);
            var h := Run(g, [Send(x), On(0, Ast(e))]);
            && AllArmed(g)
            && |h.threads| == 2 && !h.threads[0].td.ast && !h.threads[1].td.ast
            && HasPending(View(h, 1)) && !AllArmed(h)
  {
    hide Contains, Add, Best, Take, Deliver, Posted, Empty, HasUnmasked;
    var g := TwoThreads(p);
    NothingInEmpty(SIGUSR1);
    AddExact(Empty(), SIGUSR1, SIGUSR1);
    NonePending(Empty());
    NonePending(Add(Empty(), SIGUSR1));
    PostedUnmasked([], x, Empty());
    PostedUnmasked([], x, Add(Empty(), SIGUSR1));
    var first, second := Send(x), On(0, Ast(e));
    var h1 := Sent(g, x);
    assert [first, second][..1] == [first] && [first][..0] == [];
    assert Run(g, [first]) == h1;
    AstFlagExact(View(h1, 0), e);
  }

  lemma NonePending(mask: SigSet)
    ensures !HasUnmasked([], mask)
  {
  }
}
