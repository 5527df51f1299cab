/**
  Signal delivery in a thread (petra/src/proc/thread.rs): taking a pending signal, entering its handler, and coming
  back through `rt_sigreturn`. One record holds what these operations read and write; the class `Thread` performs
  them in place.
*/
module ThreadSignals {
  import opened Words
  import opened Signals
  import opened SignalFrame

  const SA_SIGINFO: U32 := 0x4
  const SA_ONSTACK: U32 := 0x0800_0000
  const SA_RESTORER: U32 := 0x0400_0000
  const SA_NODEFER: U32 := 0x4000_0000
  const SA_RESETHAND: U32 := 0x8000_0000
  const TRAMPOLINE_ADDR: U64 := 0x7fff_0000_0000

  datatype Handler = Default | Ignore | Handler(addr: U64)

  datatype SigAction = SigAction(handler: Handler, mask: SigSet, flags: U32, restorer: U64)

  type SigActs = a: seq<SigAction> | |a| == 64 witness seq(64, i => SigAction(Default, Empty(), 0, 0))

  predicate Has(flags: U32, f: U32) { And32(flags, f) != 0 }

  /** `SigActs::set`: the two signals that cannot be caught keep their disposition. */
  function SetAct(a: SigActs, sig: Signal, x: SigAction): SigActs {
    if sig == SIGKILL || sig == SIGSTOP then a else a[sig - 1 := x]
  }

  function EffectiveMask(x: SigAction, sig: Signal): SigSet {
    if Has(x.flags, SA_NODEFER) then x.mask else Add(x.mask, sig)
  }

  /** A handler runs with its own signal blocked unless it asked otherwise, and with its `sa_mask` blocked. */
  lemma EffectiveMaskExact(x: SigAction, sig: Signal, n: Signal)
    ensures Contains(EffectiveMask(x, sig), n) <==> Contains(x.mask, n) || (n == sig && !Has(x.flags, SA_NODEFER))
  {
    hide Contains, Add, Has;
    AddExact(x.mask, sig, n);
  }

  // User memory: the mapped bytes.

  type Memory = map<nat, Byte>

  predicate Mapped(m: Memory, at: nat, n: nat) { forall k: nat :: at <= k < at + n ==> k in m }

  function Write(m: Memory, at: nat, bytes: seq<Byte>): Memory {
    map k | k in m :: if at <= k < at + |bytes| then bytes[k - at] else m[k]
  }

  function Read(m: Memory, at: nat, n: nat): (r: seq<Byte>)
    requires Mapped(m, at, n)
    ensures |r| == n
  {
    seq(n, i requires 0 <= i < n => m[at + i])
  }

  lemma ReadWrite(m: Memory, at: nat, bytes: seq<Byte>)
    requires Mapped(m, at, |bytes|)
    ensures Mapped(Write(m, at, bytes), at, |bytes|) && Read(Write(m, at, bytes), at, |bytes|) == bytes
  {
    assert Read(Write(m, at, bytes), at, |bytes|) == bytes;
  }

  // The state.

  datatype Process = Process(queue: seq<Queued>, acts: SigActs, mem: Memory, writable: set<nat>, exec: set<U64>)

  datatype State = State(ast: bool, inHandler: bool, mask: SigSet, handlerMask: SigSet, handlerFrame: Option<U64>,
                         ctx: Option<Regs>, alt: SigStack, queue: seq<Queued>, proc: Option<Process>)

  datatype Errno = ESRCH | EFAULT

  datatype Result<T> = Ok(value: T) | Err(error: Errno)

  /** A signal the mask lets through is waiting for the thread or its process. */
  predicate HasPending(s: State) {
    HasUnmasked(s.queue, s.mask) || (s.proc.Some? && HasUnmasked(s.proc.value.queue, s.mask))
  }

  predicate CanWrite(p: Process, at: nat) {
    forall k: nat :: at <= k < at + FRAME_LEN ==> k in p.mem && k in p.writable
  }

  function Pretcode(x: SigAction): U64 {
    if Has(x.flags, SA_RESTORER) && x.restorer != 0 then x.restorer else TRAMPOLINE_ADDR
  }

  function RedirectTo(x: SigAction, sig: Signal, at: U64): Redirect {
    var addr := if x.handler.Handler? then x.handler.addr else 0;
    if Has(x.flags, SA_SIGINFO) then WithSigInfo(addr, sig, at) else Plain(addr, sig, at)
  }

  /** `build_handler_frame`: the address of the frame and the memory that holds it. */
  function BuildFrame(s: State, info: SigInfo, x: SigAction): Option<(U64, Memory)> {
    if s.proc.None? || s.ctx.None? then None
    else
      var at := FrameAddr(s.ctx.value.rsp, s.alt, Has(x.flags, SA_ONSTACK));
      if at.None? || !CanWrite(s.proc.value, at.value) then None
      else
        var frame := NewFrame(s.ctx.value, info, s.mask, Pretcode(x));
        Some((at.value, Write(s.proc.value.mem, at.value, Encoded(frame))))
  }

  /** `enter_handler`. */
  function Enter(s: State, sig: Signal, x: SigAction, at: U64): State {
    var mask := EffectiveMask(x, sig);
    s.(ctx := if s.ctx.Some? then Some(Redirected(s.ctx.value, RedirectTo(x, sig, at))) else None,
       handlerFrame := Some(at), handlerMask := mask, mask := mask, inHandler := true, ast := false,
       proc := if s.proc.Some? && Has(x.flags, SA_RESETHAND)
               then Some(s.proc.value.(acts := SetAct(s.proc.value.acts, sig, SigAction(Default, Empty(), 0, 0))))
               else s.proc)
  }

  /** What a default action leaves in the two queues; it may stop the thread while others post. */
  datatype Effect = Effect(queue: seq<Queued>, procQueue: seq<Queued>)

  /** `deliver_signal`, and whether a handler was entered. */
  function Deliver(s: State, q: Queued, e: Effect): (State, bool) {
    if s.proc.None? then (s, false)
    else
      var x := s.proc.value.acts[q.signo - 1];
      match x.handler
      case Ignore => (s, false)
      case Handler(_) =>
        var built := BuildFrame(s, q, x);
        if built.None? then (s, false)
        else
          (Enter(s.(proc := Some(s.proc.value.(mem := built.value.1))), q.signo, x, built.value.0), true)
      case Default => (s.(queue := e.queue, proc := Some(s.proc.value.(queue := e.procQueue))), false)
  }

  /** The signal `handle_ast` takes: the thread's queue comes before the process's. */
  function TakeSignal(s: State): (Option<Queued>, State) {
    var (q, rest) := Take(s.queue, s.mask);
    if q.Some? then (q, s.(queue := rest))
    else if s.proc.None? then (None, s)
    else
      var (p, left) := Take(s.proc.value.queue, s.mask);
      (p, s.(proc := Some(s.proc.value.(queue := left))))
  }

  /** `handle_ast`, and whether a handler was entered. */
  function HandledAst(s: State, e: Effect): (State, bool) {
    if !s.ast then (s, false)
    else
      var (q, t) := TakeSignal(s);
      if q.None? then (t.(ast := false), false)
      else
        var (d, entered) := Deliver(t, q.value, e);
        (d.(ast := HasPending(d)), entered)
  }

  /** `return_from_handler`: the state, and the registers to run with. */
  function Return(s: State): (State, Result<Regs>) {
    if s.proc.None? then (s, Err(ESRCH))
    else if s.handlerFrame.None? || !Mapped(s.proc.value.mem, s.handlerFrame.value, FRAME_LEN) then (s, Err(EFAULT))
    else
      var frame := Decoded(Read(s.proc.value.mem, s.handlerFrame.value, FRAME_LEN));
      var regs := Restore(frame, s.proc.value.exec);
      if regs.None? then (s, Err(EFAULT))
      else
        var t := s.(mask := frame.uc.sigmask, handlerMask := Empty(), handlerFrame := None, inHandler := false);
        (t.(ast := t.ast || HasPending(t)), Ok(regs.value))
  }

  // The AST flag.

  lemma TakenNone(q: seq<Queued>, mask: SigSet)
    ensures Take(q, mask).0.None? <==> !HasUnmasked(q, mask)
    ensures Take(q, mask).0.None? ==> Take(q, mask).1 == q
  {
    hide Best, Deliverable;
    BestIsFirstLowest(q, mask, |q|);
  }

  /** Entered with the flag set, `handle_ast` leaves it set exactly when a signal is still deliverable under the mask
      that is then in force; it takes no signal exactly when none was deliverable. */
  lemma AstFlagExact(s: State, e: Effect)
    requires s.ast
    ensures HandledAst(s, e).0.ast <==> HasPending(HandledAst(s, e).0)
    ensures TakeSignal(s).0.None? <==> !HasPending(s)
    ensures !HasPending(s) ==> HandledAst(s, e) == (s.(ast := false), false)
  {
    hide Take, HasUnmasked, Deliver;
    TakenNone(s.queue, s.mask);
    if s.proc.Some? {
      TakenNone(s.proc.value.queue, s.mask);
    }
  }

  // Runs.

  /** What happens to one thread. A process-directed post arms it or another thread of the process. A mask is set with
      the flag recomputed (`rt_sigprocmask`) or without (`ppoll`, and `rt_sigprocmask` whose write of the old mask
      faults). User code runs, and changes memory, mappings, dispositions and the alternate stack. */
  datatype Step =
    | PostThread(x: Queued)
    | PostProcess(x: Queued, arms: bool)
    | Ast(effect: Effect)
    | SigReturn
    | SetMask(mask: SigSet, recomputed: bool)
    | UserRuns(ctx: Option<Regs>, alt: SigStack, acts: SigActs, mem: Memory, writable: set<nat>, exec: set<U64>)

  function Masked(s: State, mask: SigSet, recomputed: bool): State {
    var t := s.(mask := mask);
    if recomputed then t.(ast := HasPending(t)) else t
  }

  function Next(s: State, step: Step): State {
    match step
    case PostThread(x) => s.(queue := Posted(s.queue, x), ast := true)
    case PostProcess(x, arms) =>
      if s.proc.None? then s
      else s.(proc := Some(s.proc.value.(queue := Posted(s.proc.value.queue, x))), ast := s.ast || arms)
    case Ast(e) => HandledAst(s, e).0
    case SigReturn => Return(s).0
    case SetMask(mask, recomputed) => Masked(s, mask, recomputed)
    case UserRuns(ctx, alt, acts, mem, writable, exec) =>
      s.(ctx := ctx, alt := alt,
         proc := if s.proc.None? then None
                 else Some(s.proc.value.(acts := acts, mem := mem, writable := writable, exec := exec)))
  }

  function Run(s: State, steps: seq<Step>): State {
    if steps == [] then s else Next(Run(s, steps[..|steps| - 1]), steps[|steps| - 1])
  }

  ghost predicate Armed(s: State) { HasPending(s) ==> s.ast }

  /** The step does not make a signal deliverable behind the flag's back. */
  predicate KeepsFlag(s: State, step: Step) {
    match step
    case PostProcess(x, arms) => s.proc.None? || arms || s.ast || !Deliverable(x, s.mask)
    case SetMask(mask, recomputed) => recomputed || s.ast || !HasPending(s.(mask := mask))
    case _ => true
  }

  lemma PostedUnmasked(q: seq<Queued>, x: Queued, mask: SigSet)
    ensures HasUnmasked(Posted(q, x), mask) <==> HasUnmasked(q, mask) || Deliverable(x, mask)
  {
    hide Contains;
    var p := Posted(q, x);
    if Deliverable(x, mask) {
      if p == q {
        var i :| 0 <= i < |q| && q[i].signo == x.signo;
        assert Deliverable(p[i], mask);
      } else {
        assert Deliverable(p[|q|], mask);
      }
    }
    if i: nat :| i < |q| && Deliverable(q[i], mask) {
      assert p[i] == q[i];
    }
  }

  /** A step leaves a deliverable signal without its flag exactly when it is one of the two kinds that can. */
  lemma StepArmedIff(s: State, step: Step)
    requires Armed(s)
    ensures Armed(Next(s, step)) <==> KeepsFlag(s, step)
  {
    hide Deliver, Deliverable, HasUnmasked, Posted, Take, Decoded, Read, Restore, Mapped;
    match step
    case Ast(e) =>
      if s.ast { AstFlagExact(s, e); }
    case PostProcess(x, arms) =>
      if s.proc.Some? { PostedUnmasked(s.proc.value.queue, x, s.mask); }
    case _ =>
  }

  ghost predicate ArmedThroughout(s: State, steps: seq<Step>) {
    Armed(Run(s, steps)) && (steps == [] || ArmedThroughout(s, steps[..|steps| - 1]))
  }

  ghost predicate AllKeepFlag(s: State, steps: seq<Step>) {
    steps == []
    || (AllKeepFlag(s, steps[..|steps| - 1]) && KeepsFlag(Run(s, steps[..|steps| - 1]), steps[|steps| - 1]))
  }

  /** A run is armed throughout exactly when each of its steps keeps the flag. */
  lemma {:induction false} RunArmedIff(s: State, steps: seq<Step>)
    requires Armed(s)
    ensures ArmedThroughout(s, steps) <==> AllKeepFlag(s, steps)
    decreases |steps|
  {
    hide Next, KeepsFlag, Armed;
    if steps != [] {
      var front := steps[..|steps| - 1];
      RunArmedIff(s, front);
      if Armed(Run(s, front)) { StepArmedIff(Run(s, front), steps[|steps| - 1]); }
    }
  }

  // Delivery and return.

  /** The handler frame is the one at `at`, and its bytes are in place. */
  ghost predicate InFrame(s: State, at: U64, bytes: seq<Byte>) {
    && s.handlerFrame == Some(at)
    && s.proc.Some? && Mapped(s.proc.value.mem, at, |bytes|) && Read(s.proc.value.mem, at, |bytes|) == bytes
  }

  lemma BuiltFrame(s: State, info: SigInfo, x: SigAction)
    requires BuildFrame(s, info, x).Some?
    ensures var (at, mem) := BuildFrame(s, info, x).value;
            && Mapped(mem, at, FRAME_LEN)
            && Read(mem, at, FRAME_LEN) == Encoded(NewFrame(s.ctx.value, info, s.mask, Pretcode(x)))
  {
    hide Encoded, NewFrame, Write, Read, FrameAddr, Has;
    var (at, mem) := BuildFrame(s, info, x).value;
    ReadWrite(s.proc.value.mem, at, Encoded(NewFrame(s.ctx.value, info, s.mask, Pretcode(x))));
  }

  /** Entering a handler leaves a frame that holds the interrupted registers and mask. */
  lemma DeliveryWritesFrame(s: State, q: Queued, e: Effect)
    requires Deliver(s, q, e).1
    ensures s.ctx.Some? && s.proc.Some?
    ensures var t := Deliver(s, q, e).0;
            && t.handlerFrame.Some?
            && InFrame(t, t.handlerFrame.value,
                       Encoded(NewFrame(s.ctx.value, q, s.mask, Pretcode(s.proc.value.acts[q.signo - 1]))))
  {
    hide Encoded, NewFrame, Read, Mapped, BuildFrame, Redirected, SetAct, Has;
    BuiltNeedsContext(s, q, s.proc.value.acts[q.signo - 1]);
    BuiltFrame(s, q, s.proc.value.acts[q.signo - 1]);
  }

  lemma BuiltNeedsContext(s: State, info: SigInfo, x: SigAction)
    ensures BuildFrame(s, info, x).Some? ==> s.ctx.Some? && s.proc.Some?
  {
  }

  lemma ReadSlice(m: Memory, at: nat, n: nat, i: nat, j: nat)
    requires Mapped(m, at, n) && i <= j <= n
    ensures Mapped(m, at + i, j - i) && Read(m, at + i, j - i) == Read(m, at, n)[i..j]
  {
  }

  /** What a handler finds: its address and signal number, a return address on top of its stack, and, if it asked for
      three arguments, pointers to the `siginfo_t` and to the `ucontext` with the interrupted mask. */
  lemma HandlerSees(s: State, q: Queued, e: Effect)
    requires Deliver(s, q, e).1
    ensures s.proc.Some? && Deliver(s, q, e).0.proc.Some? && Deliver(s, q, e).0.ctx.Some?
    ensures var x := s.proc.value.acts[q.signo - 1];
            var r := Deliver(s, q, e).0.ctx.value;
            var mem := Deliver(s, q, e).0.proc.value.mem;
            && x.handler == Handler(r.rip) && r.rdi == q.signo && r.rsp % 16 == 8
            && Mapped(mem, r.rsp, 8) && Read(mem, r.rsp, 8) == ToLE(Pretcode(x), 8)
            && (Has(x.flags, SA_SIGINFO) ==>
                  && Mapped(mem, r.rsi, 128) && Read(mem, r.rsi, 128) == EncodedInfo(q)
                  && Mapped(mem, r.rdx + 296, 128) && Read(mem, r.rdx + 296, 128) == Words64(s.mask))
  {
    hide Encoded, NewFrame, Read, Mapped, BuildFrame, SetAct, Has, Pretcode, EncodedInfo;
    hide Words64, ToLE, FrameAddr, And64;
    var x := s.proc.value.acts[q.signo - 1];
    BuiltNeedsContext(s, q, x);
    BuiltFrame(s, q, x);
    BuiltAddress(s, q, x);
    var (at, mem) := BuildFrame(s, q, x).value;
    var frame := NewFrame(s.ctx.value, q, s.mask, Pretcode(x));
    FieldsAt(frame);
    NewFrameFields(s.ctx.value, q, s.mask, Pretcode(x));
    ReadSlice(mem, at, FRAME_LEN, 0, 8);
    ReadSlice(mem, at, FRAME_LEN, 432, 560);
    ReadSlice(mem, at, FRAME_LEN, 304, 432);
    FrameAddrSafe(s.ctx.value.rsp, s.alt, Has(x.flags, SA_ONSTACK), x.handler.addr, q.signo);
  }

  lemma NewFrameFields(r: Regs, info: SigInfo, mask: SigSet, pretcode: U64)
    ensures var f := NewFrame(r, info, mask, pretcode); f.pretcode == pretcode && f.uc.sigmask == mask && f.info == info
  {
  }

  lemma BuiltAddress(s: State, info: SigInfo, x: SigAction)
    requires BuildFrame(s, info, x).Some?
    ensures s.ctx.Some?
    ensures FrameAddr(s.ctx.value.rsp, s.alt, Has(x.flags, SA_ONSTACK)) == Some(BuildFrame(s, info, x).value.0)
  {
  }

  /** `rt_sigreturn` through an intact frame gives back the interrupted mask and registers, DF and TF cleared, exactly
      when the interrupted addresses can be returned to. */
  lemma ReturnThroughFrame(t: State, at: U64, r: Regs, info: SigInfo, mask: SigSet, pretcode: U64)
    requires InFrame(t, at, Encoded(NewFrame(r, info, mask, pretcode)))
    ensures var (u, result) := Return(t);
            if Canonical(r.rip) && Canonical(r.rsp) && r.rip in t.proc.value.exec then
              && result == Ok(r.(rflags := ClearFlags(r.rflags)))
              && u.mask == mask && u.handlerFrame.None? && !u.inHandler && (u.ast <==> t.ast || HasPending(u))
            else (u, result) == (t, Err(EFAULT))
  {
    hide Encoded, NewFrame, Decoded, Restore, Read, Mapped, HasUnmasked, Canonical, ClearFlags;
    RestoreOfCapture(r, info, mask, pretcode, t.proc.value.exec);
  }

  /** While no handler is entered and none returns, and user code leaves the frame alone. */
  ghost predicate Quiet(s: State, steps: seq<Step>, at: U64, bytes: seq<Byte>) {
    forall i :: 0 <= i < |steps| ==> QuietStep(Run(s, steps[..i]), steps[i], at, bytes)
  }

  ghost predicate QuietStep(s: State, step: Step, at: U64, bytes: seq<Byte>) {
    match step
    case PostThread(_) => true
    case PostProcess(_, _) => true
    case Ast(e) => !HandledAst(s, e).1
    case SigReturn => false
    case SetMask(_, _) => true
    case UserRuns(_, _, _, mem, _, _) => Mapped(mem, at, |bytes|) && Read(mem, at, |bytes|) == bytes
  }

  lemma QuietStepKeepsFrame(s: State, step: Step, at: U64, bytes: seq<Byte>)
    requires InFrame(s, at, bytes) && QuietStep(s, step, at, bytes)
    ensures InFrame(Next(s, step), at, bytes)
  {
    hide Mapped, Read, Take, HasUnmasked, Posted, BuildFrame, Enter;
  }

  lemma {:induction false} QuietRunKeepsFrame(s: State, steps: seq<Step>, at: U64, bytes: seq<Byte>)
    requires InFrame(s, at, bytes) && Quiet(s, steps, at, bytes)
    ensures InFrame(Run(s, steps), at, bytes)
    decreases |steps|
  {
    hide InFrame, QuietStep, Next;
    if steps != [] {
      var front := steps[..|steps| - 1];
      forall i | 0 <= i < |front|
        ensures QuietStep(Run(s, front[..i]), front[i], at, bytes)
      {
        assert front[..i] == steps[..i];
      }
      QuietRunKeepsFrame(s, front, at, bytes);
      QuietStepKeepsFrame(Run(s, front), steps[|steps| - 1], at, bytes);
    }
  }

  /** The whole of a handler's life: from any delivery that enters a handler, through any run that enters no other and
      leaves the frame alone, `rt_sigreturn` puts the mask back exactly and every register but DF and TF. */
  lemma HandlerIsTransparent(s: State, q: Queued, e: Effect, steps: seq<Step>)
    requires Deliver(s, q, e).1
    requires var t := Deliver(s, q, e).0;
             t.handlerFrame.Some? && s.proc.Some? && s.ctx.Some? &&
             Quiet(t, steps, t.handlerFrame.value,
                   Encoded(NewFrame(s.ctx.value, q, s.mask, Pretcode(s.proc.value.acts[q.signo - 1]))))
    ensures var r := s.ctx.value;
            var t := Run(Deliver(s, q, e).0, steps);
            var (u, result) := Return(t);
            t.proc.Some? &&
            if Canonical(r.rip) && Canonical(r.rsp) && r.rip in t.proc.value.exec then
              && result == Ok(r.(rflags := ClearFlags(r.rflags)))
              && u.mask == s.mask && u.handlerFrame.None? && !u.inHandler && (u.ast <==> t.ast || HasPending(u))
            else (u, result) == (t, Err(EFAULT))
  {
    hide Encoded, NewFrame, Deliver, Run, Return, Quiet, Canonical, ClearFlags, HasPending, Pretcode;
    DeliveryWritesFrame(s, q, e);
    var pretcode := Pretcode(s.proc.value.acts[q.signo - 1]);
    var t := Deliver(s, q, e).0;
    var at := t.handlerFrame.value;
    var bytes := Encoded(NewFrame(s.ctx.value, q, s.mask, pretcode));
    QuietRunKeepsFrame(t, steps, at, bytes);
    ReturnThroughFrame(Run(t, steps), at, s.ctx.value, q, s.mask, pretcode);
  }

  // Nested handlers.

  predicate EntersHandler(s: State, step: Step) { step.Ast? && HandledAst(s, step.effect).1 }

  predicate Returns(s: State, step: Step) { step.SigReturn? && Return(s).1.Ok? }

  /** After step `i` returned from a handler no other is entered. */
  ghost predicate ReturnedAt(s: State, steps: seq<Step>, i: nat) {
    && i < |steps| && Returns(Run(s, steps[..i]), steps[i])
    && forall j :: i < j < |steps| ==> !EntersHandler(Run(s, steps[..j]), steps[j])
  }

  /** The record of the frame changes only when a handler is entered or returns. */
  lemma FrameRecord(s: State, step: Step)
    ensures Next(s, step).proc.Some? == s.proc.Some?
    ensures Returns(s, step) ==> Next(s, step).handlerFrame == None
    ensures !Returns(s, step) && !EntersHandler(s, step) ==> Next(s, step).handlerFrame == s.handlerFrame
  {
    hide Mapped, Read, Take, HasUnmasked, Posted, BuildFrame, Enter, Decoded, Restore;
    if step.Ast? && s.ast {
      DeliverRecord(TakeSignal(s).1, step.effect);
    }
  }

  lemma DeliverRecord(s: State, e: Effect)
    ensures forall q :: Deliver(s, q, e).0.proc.Some? == s.proc.Some?
    ensures forall q :: !Deliver(s, q, e).1 ==> Deliver(s, q, e).0.handlerFrame == s.handlerFrame
  {
    hide BuildFrame, SetAct, Redirected, Has;
  }

  lemma NoFrameNoReturn(s: State)
    requires s.handlerFrame.None? && s.proc.Some?
    ensures Return(s) == (s, Err(EFAULT))
  {
  }

  /** Once a handler has returned, every return fails without effect until a handler is entered. */
  lemma {:induction false} ReturnedMeansEfault(s: State, steps: seq<Step>, i: nat)
    requires s.proc.Some? && ReturnedAt(s, steps, i)
    ensures Run(s, steps).handlerFrame.None? && Run(s, steps).proc.Some?
    ensures Return(Run(s, steps)) == (Run(s, steps), Err(EFAULT))
    decreases |steps|
  {
    hide Next, Return, EntersHandler, Returns;
    var n := |steps| - 1;
    var front := steps[..n];
    RunKeepsProcess(s, front);
    FrameRecord(Run(s, front), steps[n]);
    if i < n {
      assert front[..i] == steps[..i];
      assert forall j :: 0 <= j < n ==> front[..j] == steps[..j];
      ReturnedMeansEfault(s, front, i);
      if Returns(Run(s, front), steps[n]) { ReturnsIsOk(Run(s, front), steps[n]); }
    }
    NoFrameNoReturn(Run(s, steps));
  }

  lemma ReturnsIsOk(s: State, step: Step)
    ensures Returns(s, step) ==> Return(s).1.Ok?
  {
  }

  lemma {:induction false} RunKeepsProcess(s: State, steps: seq<Step>)
    ensures Run(s, steps).proc.Some? == s.proc.Some?
    decreases |steps|
  {
    hide Next;
    if steps != [] {
      RunKeepsProcess(s, steps[..|steps| - 1]);
      FrameRecord(Run(s, steps[..|steps| - 1]), steps[|steps| - 1]);
    }
  }

  /** When an outer handler can return. Up to the outer return either nothing else was entered and the frame was left
      alone, or the last handler that was entered has returned. The outer return succeeds exactly in the first case,
      where the interrupted addresses can be returned to; in the second it is EFAULT. */
  lemma OuterReturnIff(s: State, q: Queued, e: Effect, steps: seq<Step>, i: nat)
    requires Deliver(s, q, e).1
    requires var t := Deliver(s, q, e).0;
             t.handlerFrame.Some? && s.proc.Some? && s.ctx.Some?
    requires var t := Deliver(s, q, e).0;
             || QuietFrom(s, q, e, steps)
             || ReturnedAt(t, steps, i)
    ensures var t := Run(Deliver(s, q, e).0, steps);
            var r := s.ctx.value;
            && t.proc.Some?
            && (Return(t).1.Ok? <==>
                  QuietFrom(s, q, e, steps) && Canonical(r.rip) && Canonical(r.rsp) && r.rip in t.proc.value.exec)
            && (Return(t).1.Err? ==> Return(t) == (t, Err(EFAULT)))
  {
    hide Encoded, NewFrame, Deliver, Run, Return, Quiet, Canonical, ClearFlags, HasPending, Pretcode, ReturnedAt;
    if QuietFrom(s, q, e, steps) {
      HandlerIsTransparent(s, q, e, steps);
    } else {
      DeliveredProcess(s, q, e);
      ReturnedMeansEfault(Deliver(s, q, e).0, steps, i);
    }
  }

  lemma DeliveredProcess(s: State, q: Queued, e: Effect)
    requires s.proc.Some?
    ensures Deliver(s, q, e).0.proc.Some?
  {
    DeliverRecord(s, e);
  }

  /** The steps from a delivery on leave its frame alone and enter and leave no handler. */
  ghost predicate QuietFrom(s: State, q: Queued, e: Effect, steps: seq<Step>) {
    var t := Deliver(s, q, e).0;
    && t.handlerFrame.Some? && s.proc.Some? && s.ctx.Some?
    && Quiet(t, steps, t.handlerFrame.value,
             Encoded(NewFrame(s.ctx.value, q, s.mask, Pretcode(s.proc.value.acts[q.signo - 1]))))
  }

  /** A handler interrupted by another: the inner one returns to the outer exactly as if it had not run, and then the
      outer return is EFAULT, whatever happens in between short of a third handler. */
  lemma NestedReturnFails(s: State, q: Queued, e: Effect, before: seq<Step>, q': Queued, e': Effect,
                          during: seq<Step>, after: seq<Step>)
    requires Deliver(s, q, e).1
    requires var outer := Run(Deliver(s, q, e).0, before); Deliver(outer, q', e').1 && QuietFrom(outer, q', e', during)
    requires var t := Run(Deliver(Run(Deliver(s, q, e).0, before), q', e').0, during);
             && Return(t).1.Ok?
             && forall j :: 0 <= j < |after| ==> !EntersHandler(Run(Return(t).0, after[..j]), after[j])
    ensures var outer := Run(Deliver(s, q, e).0, before);
            var t := Run(Deliver(outer, q', e').0, during);
            var u := Run(Return(t).0, after);
            && outer.ctx.Some?
            && Return(t).1 == Ok(outer.ctx.value.(rflags := ClearFlags(outer.ctx.value.rflags)))
            && Return(t).0.mask == outer.mask
            && Return(u) == (u, Err(EFAULT))
  {
    hide Encoded, NewFrame, Deliver, Return, Quiet, Canonical, ClearFlags, HasPending, Pretcode, EntersHandler, Next;
    var outer := Run(Deliver(s, q, e).0, before);
    HandlerIsTransparent(outer, q', e', during);
    AfterReturn(Run(Deliver(outer, q', e').0, during), after);
  }

  /** After a return no other return succeeds before a handler is entered. */
  lemma AfterReturn(t: State, after: seq<Step>)
    requires t.proc.Some? && Return(t).1.Ok?
    requires forall j :: 0 <= j < |after| ==> !EntersHandler(Run(Return(t).0, after[..j]), after[j])
    ensures var u := Run(Return(t).0, after); Return(u) == (u, Err(EFAULT))
  {
    hide Return, EntersHandler, Next, Returns;
    var steps := [SigReturn] + after;
    assert steps[..0] == [];
    NextReturn(t);
    forall j | 0 < j < |steps|
      ensures !EntersHandler(Run(t, steps[..j]), steps[j])
    {
      assert steps[..j] == [SigReturn] + after[..j - 1] && steps[j] == after[j - 1];
      RunFrom(t, SigReturn, after[..j - 1]);
    }
    RunFrom(t, SigReturn, after);
    ReturnedMeansEfault(t, steps, 0);
  }

  lemma NextReturn(t: State)
    ensures Next(t, SigReturn) == Return(t).0
    ensures Returns(t, SigReturn) == Return(t).1.Ok?
  {
  }

  lemma {:induction false} RunFrom(s: State, step: Step, steps: seq<Step>)
    ensures Run(s, [step] + steps) == Run(Next(s, step), steps)
    decreases |steps|
  {
    hide Next;
    var all := [step] + steps;
    if steps == [] {
      assert all[..0] == [];
      assert Run(s, all) == Next(Run(s, all[..0]), all[0]);
    } else {
      assert all[..|all| - 1] == [step] + steps[..|steps| - 1];
      RunFrom(s, step, steps[..|steps| - 1]);
    }
  }

  // The objects.

  method ReadBytes(m: Memory, at: nat, n: nat) returns (buf: array<Byte>)
    requires Mapped(m, at, n)
    ensures fresh(buf) && buf[..] == Read(m, at, n)
  {
    buf := new Byte[n](i => 0);
    for i := 0 to n
      invariant forall k :: 0 <= k < i ==> buf[k] == m[at + k]
    {
      buf[i] := m[at + i];
    }
  }

  class UserContext {
    var regs: Regs

    constructor (r: Regs)
      ensures regs == r
    {
      regs := r;
    }
  }

  class Proc {
    const sigqueue: SigQueue
    var acts: SigActs
    var mem: Memory
    var writable: set<nat>
    var exec: set<U64>

    constructor (q: SigQueue, a: SigActs, m: Memory, w: set<nat>, x: set<U64>)
      ensures sigqueue == q && acts == a && mem == m && writable == w && exec == x
    {
      sigqueue, acts, mem, writable, exec := q, a, m, w, x;
    }

    ghost function View(): Process
      reads this, sigqueue
    {
      Process(sigqueue.inner, acts, mem, writable, exec)
    }
  }

  class Thread {
    const sigqueue: SigQueue
    const proc: Proc?
    var ast: bool
    var inHandler: bool
    var mask: SigSet
    var handlerMask: SigSet
    var handlerFrame: Option<U64>
    var ctx: Option<Regs>
    var alt: SigStack

    ghost predicate Valid() { proc != null ==> proc.sigqueue != sigqueue }

    ghost function View(): State
      reads this, sigqueue, proc, if proc == null then {} else {proc.sigqueue}
    {
      State(ast, inHandler, mask, handlerMask, handlerFrame, ctx, alt, sigqueue.inner,
            if proc == null then None else Some(proc.View()))
    }

    /** A thread starts with nothing blocked and nothing pending. */
    constructor (p: Proc?, c: Option<Regs>)
      ensures Valid() && fresh(sigqueue) && proc == p
      ensures View() == State(false, false, Empty(), Empty(), None, c, SigStack(0, 0, 0), [],
                              if p == null then None else Some(p.View()))
    {
      sigqueue := new SigQueue();
      proc := p;
      ast, inHandler, mask, handlerMask, handlerFrame, ctx := false, false, Empty(), Empty(), None, c;
      alt := SigStack(0, 0, 0);
    }

    method PostSignal(x: Queued)
      requires Valid()
      modifies this, sigqueue
      ensures View() == Next(old(View()), PostThread(x))
    {
      hide Posted;
      sigqueue.PostSignal(x);
      ast := true;
    }

    predicate Pending()
      reads this, sigqueue, proc, if proc == null then {} else {proc.sigqueue}
      ensures Pending() == HasPending(View())
    {
      HasUnmasked(sigqueue.inner, mask) || (proc != null && HasUnmasked(proc.sigqueue.inner, mask))
    }

    /** `write_frame`: the frame reaches memory whole or not at all. */
    method BuildHandlerFrame(info: SigInfo, x: SigAction) returns (at: Option<U64>)
      requires Valid()
      modifies proc
      ensures match BuildFrame(old(View()), info, x)
              case None => at == None && View() == old(View())
              case Some((a, m)) =>
                && at == Some(a)
                && View() == old(View()).(proc := Some(old(View()).proc.value.(mem := m)))
    {
      hide FrameAddr, Encoded, NewFrame, Write, Has, Pretcode;
      if proc == null || ctx.None? {
        return None;
      }
      at := FrameAddr(ctx.value.rsp, alt, Has(x.flags, SA_ONSTACK));
      if at.None? || !(forall k :: at.value <= k < at.value + FRAME_LEN ==> k in proc.mem && k in proc.writable) {
        return None;
      }
      var bytes := ToBytes(NewFrame(ctx.value, info, mask, Pretcode(x)));
      proc.mem := Write(proc.mem, at.value, bytes[..]);
    }

    method EnterHandler(sig: Signal, x: SigAction, at: U64)
      requires Valid()
      modifies this, proc
      ensures View() == Enter(old(View()), sig, x, at)
    {
      hide Redirected, RedirectTo, EffectiveMask, Has;
      if ctx.Some? {
        ctx := Some(Redirected(ctx.value, RedirectTo(x, sig, at)));
      }
      handlerFrame := Some(at);
      handlerMask := EffectiveMask(x, sig);
      mask := handlerMask;
      inHandler := true;
      ast := false;
      if Has(x.flags, SA_RESETHAND) && proc != null {
        proc.acts := SetAct(proc.acts, sig, SigAction(Default, Empty(), 0, 0));
      }
    }

    method DeliverSignal(q: Queued, e: Effect) returns (entered: bool)
      requires Valid()
      modifies this, sigqueue, proc, if proc == null then {} else {proc.sigqueue}
      ensures (View(), entered) == Deliver(old(View()), q, e)
    {
      hide BuildFrame, Enter;
      if proc == null {
        return false;
      }
      var x := proc.acts[q.signo - 1];
      match x.handler {
        case Ignore => return false;
        case Handler(_) =>
          var at := BuildHandlerFrame(q, x);
          if at.None? {
            return false;
          }
          EnterHandler(q.signo, x, at.value);
          return true;
        case Default =>
          sigqueue.inner := e.queue;
          proc.sigqueue.inner := e.procQueue;
          return false;
      }
    }

    method HandleAst(e: Effect) returns (entered: bool)
      requires Valid()
      modifies this, sigqueue, proc, if proc == null then {} else {proc.sigqueue}
      ensures (View(), entered) == HandledAst(old(View()), e)
    {
      hide Take, Deliver, HasUnmasked;
      if !ast {
        return false;
      }
      var q := sigqueue.TakeUnmasked(mask);
      TakenNone(old(sigqueue.inner), mask);
      if q.None? && proc != null {
        q := proc.sigqueue.TakeUnmasked(mask);
      }
      assert (q, View()) == TakeSignal(old(View()));
      if q.None? {
        ast := false;
        return false;
      }
      entered := DeliverSignal(q.value, e);
      ast := Pending();
    }

    method ReturnFromHandler(c: UserContext) returns (r: Result<()>)
      requires Valid()
      modifies this, c
      ensures var (s, result) := Return(old(View()));
              && View() == s
              && c.regs == (if result.Ok? then result.value else old(c.regs))
              && r == (if result.Ok? then Ok(()) else Err(result.error))
    {
      hide Restore, Decoded, HasUnmasked;
      if proc == null {
        return Err(ESRCH);
      }
      if handlerFrame.None? {
        return Err(EFAULT);
      }
      if !(forall k :: handlerFrame.value <= k < handlerFrame.value + FRAME_LEN ==> k in proc.mem) {
        return Err(EFAULT);
      }
      var buf := ReadBytes(proc.mem, handlerFrame.value, FRAME_LEN);
      var frame := FromBytes(buf);
      var regs := Restore(frame, proc.exec);
      if regs.None? {
        return Err(EFAULT);
      }
      c.regs := regs.value;
      mask := frame.uc.sigmask;
      handlerMask := Empty();
      handlerFrame := None;
      inHandler := false;
      if Pending() {
        ast := true;
      }
      return Ok(());
    }
  }
}
