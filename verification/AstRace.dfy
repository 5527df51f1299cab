/**
  The AST flag one locked section at a time (petra/src/proc/thread.rs). A sender queues a signal in one section and
  arms the flag in a later one; `handle_ast` looks at the flag, at the queues and at the flag again in sections of
  their own. The steps of senders fall anywhere between those of the thread, except that the thread's lock is held
  from the look at its own queue to the end of the look at the process's. The sender of a process-directed signal is
  on its way to the flag of the first live thread of the process, which need not be this one.
*/
module AstRace {
  import opened Words
  import opened Signals
  import opened SignalFrame
  import opened ThreadSignals

  /** Where the thread is in `handle_ast`. */
  datatype Pc =
    | Idle
    | TakingOwn
    | TakingShared
    | FoundNone
    | Found(q: Queued)
    | Delivered

  /** `posters` counts the senders that have queued their signal and have yet to arm this thread's flag. */
  datatype System = System(s: State, pc: Pc, posters: nat)

  datatype Move =
    | QueueOwn(x: Queued)
    | QueueShared(x: Queued, mine: bool)
    | OtherTakes(k: nat)
    | Arm
    | CheckFlag
    | TakeOwn
    | TakeShared
    | ClearFlag
    | DeliverIt(e: Effect)
    | Recheck
    | SigReturn
    | SetMask(mask: SigSet, recomputed: bool)

  predicate Enabled(y: System, m: Move) {
    match m
    case QueueOwn(_) => y.pc != TakingShared
    case QueueShared(_, _) => y.s.proc.Some?
    case OtherTakes(k) => y.s.proc.Some? && k < |y.s.proc.value.queue|
    case Arm => y.posters > 0 && y.pc != TakingShared
    case CheckFlag => y.pc == Idle && y.s.ast
    case TakeOwn => y.pc == TakingOwn
    case TakeShared => y.pc == TakingShared
    case ClearFlag => y.pc == FoundNone
    case DeliverIt(_) => y.pc.Found?
    case Recheck => y.pc == Delivered
    case SigReturn => y.pc == Idle
    case SetMask(_, _) => y.pc == Idle
  }

  function WithShared(s: State, queue: seq<Queued>): State
    requires s.proc.Some?
  {
    s.(proc := Some(s.proc.value.(queue := queue)))
  }

  function Apply(y: System, m: Move): System
    requires Enabled(y, m)
  {
    match m
    case QueueOwn(x) => y.(s := y.s.(queue := Posted(y.s.queue, x)), posters := y.posters + 1)
    case QueueShared(x, mine) =>
      y.(s := WithShared(y.s, Posted(y.s.proc.value.queue, x)), posters := if mine then y.posters + 1 else y.posters)
    case OtherTakes(k) => y.(s := WithShared(y.s, Without(y.s.proc.value.queue, k)))
    case Arm => y.(s := y.s.(ast := true), posters := y.posters - 1)
    case CheckFlag => y.(pc := TakingOwn)
    case TakeOwn =>
      var (q, rest) := Take(y.s.queue, y.s.mask);
      y.(s := y.s.(queue := rest), pc := if q.Some? then Found(q.value) else TakingShared)
    case TakeShared =>
      if y.s.proc.None? then y.(pc := FoundNone)
      else
        var (q, rest) := Take(y.s.proc.value.queue, y.s.mask);
        y.(s := WithShared(y.s, rest), pc := if q.Some? then Found(q.value) else FoundNone)
    case ClearFlag => y.(s := y.s.(ast := false), pc := Idle)
    case DeliverIt(e) => y.(s := Deliver(y.s, y.pc.q, e).0, pc := Delivered)
    case Recheck => y.(s := y.s.(ast := HasPending(y.s)), pc := Idle)
    case SigReturn => y.(s := Return(y.s).0)
    case SetMask(mask, recomputed) => y.(s := Masked(y.s, mask, recomputed))
  }

  /** A move that is not enabled is not taken. */
  function Run(y: System, moves: seq<Move>): System {
    if moves == [] then y
    else
      var z := Run(y, moves[..|moves| - 1]);
      if Enabled(z, moves[|moves| - 1]) then Apply(z, moves[|moves| - 1]) else z
  }

  /** A signal that was queued since a look in vain still has its sender on the way to the flag. */
  ghost predicate Inv(y: System) {
    match y.pc
    case Idle => HasPending(y.s) ==> y.s.ast || y.posters > 0
    case TakingShared => !HasUnmasked(y.s.queue, y.s.mask)
    case FoundNone => HasPending(y.s) ==> y.posters > 0
    case _ => true
  }

  /** What a move must meet: the last sender does not arm the flag between a look in vain and the clearing that
      follows it, a signal for another thread's flag does not find this one unarmed and willing, and a mask set
      without a look at the queues uncovers nothing. */
  predicate Safe(y: System, m: Move) {
    match m
    case Arm => !(y.pc == FoundNone && y.posters == 1 && HasPending(y.s))
    case QueueShared(x, mine) =>
      mine || y.posters > 0 || !Deliverable(x, y.s.mask) || !(y.pc == FoundNone || (y.pc == Idle && !y.s.ast))
    case SetMask(mask, recomputed) => recomputed || y.s.ast || y.posters > 0 || !HasPending(y.s.(mask := mask))
    case _ => true
  }

  lemma FewerAfterTake(q: seq<Queued>, k: nat, mask: SigSet)
    requires k < |q|
    ensures HasUnmasked(Without(q, k), mask) ==> HasUnmasked(q, mask)
  {
    hide Deliverable;
    var r := Without(q, k);
    if i: nat :| i < |r| && Deliverable(r[i], mask) {
      assert r[i] == q[if i < k then i else i + 1];
    }
  }

  /** A move keeps the invariant exactly when it is safe. */
  lemma MoveInvIff(y: System, m: Move)
    requires Inv(y) && Enabled(y, m)
    ensures Inv(Apply(y, m)) <==> Safe(y, m)
  {
    hide Take, HasUnmasked, Posted, Without, Deliverable, Deliver, Decoded, Read, Restore, Mapped;
    match m
    case TakeOwn => TakenNone(y.s.queue, y.s.mask);
    case TakeShared => if y.s.proc.Some? { TakenNone(y.s.proc.value.queue, y.s.mask); }
    case QueueShared(x, _) => PostedUnmasked(y.s.proc.value.queue, x, y.s.mask);
    case OtherTakes(k) => FewerAfterTake(y.s.proc.value.queue, k, y.s.mask);
    case _ =>
  }

  ghost predicate InvThroughout(y: System, moves: seq<Move>) {
    Inv(Run(y, moves)) && (moves == [] || InvThroughout(y, moves[..|moves| - 1]))
  }

  ghost predicate AllSafe(y: System, moves: seq<Move>) {
    moves == []
    || var z := Run(y, moves[..|moves| - 1]);
       AllSafe(y, moves[..|moves| - 1]) && (Enabled(z, moves[|moves| - 1]) ==> Safe(z, moves[|moves| - 1]))
  }

  /** In any interleaving the invariant holds throughout exactly when every move is safe. Where it holds, no signal is
      stranded: whenever the thread is out of `handle_ast` and no sender is on its way, a deliverable signal has its
      flag. */
  lemma {:induction false} NothingStrandedIff(y: System, moves: seq<Move>)
    requires Inv(y)
    ensures InvThroughout(y, moves) <==> AllSafe(y, moves)
    ensures var z := Run(y, moves); AllSafe(y, moves) && z.pc == Idle && z.posters == 0 ==> Armed(z.s)
    decreases |moves|
  {
    hide Apply, HasPending, Safe, Enabled;
    if moves != [] {
      var z := Run(y, moves[..|moves| - 1]);
      NothingStrandedIff(y, moves[..|moves| - 1]);
      if Inv(z) && Enabled(z, moves[|moves| - 1]) { MoveInvIff(z, moves[|moves| - 1]); }
    }
  }

  /** The window is exact: a sender that queues and arms in it strands its signal if and only if the mask lets the
      signal through. */
  lemma ArmInWindowStrands(y: System, x: Queued)
    requires Inv(y) && y.pc == FoundNone && y.posters == 0
    ensures var z := Run(y, [QueueOwn(x), Arm, ClearFlag]);
            z.pc == Idle && z.posters == 0 && (!Armed(z.s) <==> Deliverable(x, y.s.mask))
  {
    hide Posted, Deliverable, HasUnmasked;
    var a := Apply(y, QueueOwn(x));
    var b := Apply(a, Arm);
    RunThree(y, QueueOwn(x), Arm, ClearFlag);
    PostedUnmasked(y.s.queue, x, y.s.mask);
  }

  lemma RunThree(y: System, a: Move, b: Move, c: Move)
    requires Enabled(y, a) && Enabled(Apply(y, a), b) && Enabled(Apply(Apply(y, a), b), c)
    ensures Run(y, [a, b, c]) == Apply(Apply(Apply(y, a), b), c)
  {
    hide Apply, Enabled;
    var ms := [a, b, c];
    assert ms[..2] == [a, b] && [a, b][..1] == [a] && [a][..0] == [];
    assert Run(y, [a]) == Apply(y, a);
    assert Run(y, [a, b]) == Apply(Apply(y, a), b);
  }

  /** The window is reached: a flag armed for a masked signal is enough. */
  lemma WindowIsReached(s: State)
    requires s.ast && !HasPending(s)
    ensures var z := Run(System(s, Idle, 0), [CheckFlag, TakeOwn, TakeShared]);
            z.pc == FoundNone && z.posters == 0 && z.s == s && Inv(z)
  {
    hide Take, HasUnmasked;
    var y := System(s, Idle, 0);
    TakenNone(s.queue, s.mask);
    if s.proc.Some? {
      TakenNone(s.proc.value.queue, s.mask);
    }
    RunThree(y, CheckFlag, TakeOwn, TakeShared);
  }
}
