/**
  Pipes and FIFOs (petra/src/fs/pipe.rs).

  Each closure that runs under the pipe's lock is one atomic step. Any number of
  reads and writes, on any number of ends, interleave between those steps.
*/
module Pipe {
  import opened Words

  const PIPE_BUF: nat := 4096
  const PIPE_CAPACITY: nat := 65536

  datatype Errno = EBADF | EAGAIN | EPIPE

  datatype Result<T> = Ok(value: T) | Err(error: Errno)

  datatype End = Read | Write | Both {
    predicate Reads() { Read? || Both? }
    predicate Writes() { Write? || Both? }
  }

  datatype PipeState = PipeState(buf: seq<Byte>, readers: nat, writers: nat, writersOpened: bool)

  // The locked closures.

  /** `try_read` for a buffer of `n` bytes: the bytes it takes, none of them at end of file, or `None` to wait. */
  function TryRead(st: PipeState, n: nat): Option<seq<Byte>> {
    if st.buf != [] then Some(st.buf[..Min(n, |st.buf|)])
    else if st.writers == 0 && st.writersOpened then Some([])
    else None
  }

  function AfterRead(st: PipeState, taken: nat): PipeState
    requires taken <= |st.buf|
  {
    st.(buf := st.buf[taken..])
  }

  /** `step` of a write with `remaining` bytes to go: how many it puts in, or `None` to wait. */
  function TryWrite(st: PipeState, remaining: nat, atomic: bool): Option<Result<nat>> {
    if st.readers == 0 then Some(Err(EPIPE))
    else
      var free := PIPE_CAPACITY - |st.buf|;
      if free >= (if atomic then remaining else 1) then Some(Ok(if free < remaining then free else remaining)) else None
  }

  function AfterWrite(st: PipeState, bytes: seq<Byte>): PipeState {
    st.(buf := st.buf + bytes)
  }

  function Pred(n: nat): nat { if n == 0 then 0 else n - 1 }

  function AfterDrop(st: PipeState, end: End): PipeState {
    var r := if end.Reads() then Pred(st.readers) else st.readers;
    var w := if end.Writes() then Pred(st.writers) else st.writers;
    st.(readers := r, writers := w, writersOpened := st.writersOpened && !(r == 0 && w == 0))
  }

  function AfterOpen(st: PipeState, end: End): PipeState {
    st.(readers := if end.Reads() then st.readers + 1 else st.readers,
        writers := if end.Writes() then st.writers + 1 else st.writers,
        writersOpened := st.writersOpened || end.Writes())
  }

  datatype PollEvents = PollEvents(readable: bool, writable: bool, err: bool, hup: bool)

  function Poll(st: PipeState, end: End): PollEvents {
    var eof := end.Reads() && st.writers == 0 && st.writersOpened;
    var broken := end.Writes() && st.readers == 0;
    PollEvents((end.Reads() && st.buf != []) || eof,
               end.Writes() && st.readers != 0 && |st.buf| < PIPE_CAPACITY,
               broken, eof || broken)
  }

  // A whole nonblocking call with nobody in between.

  function ReadResult(st: PipeState, end: End, n: nat): Result<seq<Byte>> {
    if !end.Reads() then Err(EBADF)
    else if n == 0 then Ok([])
    else match TryRead(st, n)
      case Some(bytes) => Ok(bytes)
      case None => Err(EAGAIN)
  }

  function WriteResult(st: PipeState, end: End, n: nat): Result<nat> {
    var free := PIPE_CAPACITY - |st.buf|;
    if !end.Writes() then Err(EBADF)
    else if n == 0 then Ok(0)
    else if st.readers == 0 then Err(EPIPE)
    else if n <= PIPE_BUF then (if free >= n then Ok(n) else Err(EAGAIN))
    else if free <= 0 then Err(EAGAIN)
    else Ok(Min(free, n))
  }

  /** `poll` says exactly what the next nonblocking call would do. */
  lemma PollIsExact(st: PipeState, end: End, n: nat)
    requires n > 0
    ensures end.Reads() ==> (Poll(st, end).readable <==> ReadResult(st, end, n) != Err(EAGAIN))
    ensures end.Writes() ==> (Poll(st, end).writable <==> WriteResult(st, end, 1) == Ok(1))
    ensures end.Writes() ==> (Poll(st, end).err <==> WriteResult(st, end, 1) == Err(EPIPE))
    ensures Poll(st, end).hup <==>
              || (end.Reads() && ReadResult(st.(buf := []), end, n) == Ok([]))
              || (end.Writes() && WriteResult(st, end, 1) == Err(EPIPE))
    ensures !end.Writes() ==> !Poll(st, end).writable && !Poll(st, end).err
    ensures !end.Reads() ==> !Poll(st, end).readable
  {}

  // The system: one pipe, its open ends, and the write calls on it.

  /** A `write` call: its data, how much of it is in, and what it returned. */
  datatype Call = Call(data: seq<Byte>, written: nat, result: Option<Result<nat>>)

  /** A run of bytes that one step of one call put into the pipe. */
  datatype Chunk = Chunk(call: nat, bytes: seq<Byte>)

  datatype System = System(pipe: PipeState, ends: map<nat, End>, calls: map<nat, Call>,
                           log: seq<Chunk>, delivered: seq<Byte>)

  /** `create_pipe`: one read end and one write end. */
  function Anonymous(): System {
    System(PipeState([], 1, 1, true), map[0 := Read, 1 := Write], map[], [], [])
  }

  /** A FIFO inode that nobody has opened. */
  function Fifo(): System {
    System(PipeState([], 0, 0, false), map[], map[], [], [])
  }

  datatype Step =
    | OpenEnd(end: nat, kind: End)
    | DropEnd(end: nat)
    | DoRead(end: nat, n: nat)
    | StartWrite(end: nat, call: nat, data: seq<Byte>)
    | DoWrite(call: nat)
    | GiveUp(call: nat) // a nonblocking call that would have to wait

  predicate Running(s: System, call: nat) {
    call in s.calls && s.calls[call].result.None? && s.calls[call].written <= |s.calls[call].data|
  }

  function Attempt(s: System, call: nat): Option<Result<nat>>
    requires Running(s, call)
  {
    var c := s.calls[call];
    TryWrite(s.pipe, |c.data| - c.written, |c.data| <= PIPE_BUF)
  }

  predicate Enabled(s: System, step: Step) {
    match step
    case OpenEnd(end, _) => end !in s.ends
    case DropEnd(end) => end in s.ends
    case DoRead(end, n) => end in s.ends && s.ends[end].Reads() && n > 0 && TryRead(s.pipe, n).Some?
    case StartWrite(end, call, data) => end in s.ends && s.ends[end].Writes() && call !in s.calls && data != []
    case DoWrite(call) => Running(s, call) && Attempt(s, call).Some?
    case GiveUp(call) => Running(s, call) && Attempt(s, call).None?
  }

  /** What a call returns when it stops with `written` bytes in: the count, or the error if there are none. */
  function Stop(c: Call, e: Errno): Call {
    c.(result := Some(if c.written > 0 then Ok(c.written) else Err(e)))
  }

  function Put(s: System, call: nat, n: nat): System
    requires Running(s, call) && n <= |s.calls[call].data| - s.calls[call].written
  {
    var c := s.calls[call];
    var bytes := c.data[c.written..c.written + n];
    var done := c.written + n == |c.data|;
    s.(pipe := AfterWrite(s.pipe, bytes), log := s.log + [Chunk(call, bytes)],
       calls := s.calls[call := Call(c.data, c.written + n, if done then Some(Ok(c.written + n)) else None)])
  }

  function Apply(s: System, step: Step): System
    requires Enabled(s, step) && |s.pipe.buf| <= PIPE_CAPACITY
  {
    match step
    case OpenEnd(end, kind) => s.(ends := s.ends[end := kind], pipe := AfterOpen(s.pipe, kind))
    case DropEnd(end) => s.(ends := s.ends - {end}, pipe := AfterDrop(s.pipe, s.ends[end]))
    case DoRead(end, n) =>
      var bytes := TryRead(s.pipe, n).value;
      s.(pipe := AfterRead(s.pipe, |bytes|), delivered := s.delivered + bytes)
    case StartWrite(end, call, data) => s.(calls := s.calls[call := Call(data, 0, None)])
    case DoWrite(call) => (
      match Attempt(s, call).value
      case Ok(n) => Put(s, call, n)
      case Err(e) => s.(calls := s.calls[call := Stop(s.calls[call], e)]))
    case GiveUp(call) => s.(calls := s.calls[call := Stop(s.calls[call], EAGAIN)])
  }

  function Run(s: System, steps: seq<Step>): System {
    if steps == [] then s
    else
      var t := Run(s, steps[..|steps| - 1]);
      var step := steps[|steps| - 1];
      if |t.pipe.buf| <= PIPE_CAPACITY && Enabled(t, step) then Apply(t, step) else t
  }

  // What holds in every reachable state.

  /** All bytes that were ever accepted, in order. */
  function Accepted(log: seq<Chunk>): seq<Byte> {
    if log == [] then [] else Accepted(log[..|log| - 1]) + log[|log| - 1].bytes
  }

  /** The bytes that one call got in, in order. */
  function Own(log: seq<Chunk>, call: nat): seq<Byte> {
    if log == [] then []
    else
      var c := log[|log| - 1];
      Own(log[..|log| - 1], call) + (if c.call == call then c.bytes else [])
  }

  function ReadEnds(ends: map<nat, End>): set<nat> { set e | e in ends && ends[e].Reads() }

  function WriteEnds(ends: map<nat, End>): set<nat> { set e | e in ends && ends[e].Writes() }

  /** The counts are the live ends, and a writer is never uncounted. */
  ghost predicate Counted(s: System) {
    && s.pipe.readers == |ReadEnds(s.ends)|
    && s.pipe.writers == |WriteEnds(s.ends)|
    && (s.pipe.writers > 0 ==> s.pipe.writersOpened)
    && (s.pipe.readers == 0 && s.pipe.writers == 0 ==> !s.pipe.writersOpened)
  }

  /** A call's share of the log is the prefix of its data that it reports; a small one is all or nothing. */
  ghost predicate Honest(c: Call, own: seq<Byte>) {
    && c.data != [] && c.written <= |c.data| && own == c.data[..c.written]
    && (|c.data| <= PIPE_BUF ==> c.written == 0 || c.written == |c.data|)
    && match c.result
       case None => c.written < |c.data|
       case Some(Ok(n)) => n == c.written > 0
       case Some(Err(_)) => c.written == 0
  }

  ghost predicate Inv(s: System) {
    && s.delivered + s.pipe.buf == Accepted(s.log)
    && |s.pipe.buf| <= PIPE_CAPACITY
    && Counted(s)
    && (forall call :: call in s.calls ==> Honest(s.calls[call], Own(s.log, call)))
    && (forall j :: 0 <= j < |s.log| ==> s.log[j].call in s.calls)
    && (forall j :: 0 <= j < |s.log| && |s.calls[s.log[j].call].data| <= PIPE_BUF ==>
          s.log[j].bytes == s.calls[s.log[j].call].data)
  }

  lemma {:induction false} OwnOfStranger(log: seq<Chunk>, call: nat)
    requires forall j :: 0 <= j < |log| ==> log[j].call != call
    ensures Own(log, call) == []
  {
    if log != [] { OwnOfStranger(log[..|log| - 1], call); }
  }

  lemma OpenCounts(ends: map<nat, End>, end: nat, kind: End)
    requires end !in ends
    ensures |ReadEnds(ends[end := kind])| == |ReadEnds(ends)| + (if kind.Reads() then 1 else 0)
    ensures |WriteEnds(ends[end := kind])| == |WriteEnds(ends)| + (if kind.Writes() then 1 else 0)
  {
    hide ReadEnds, WriteEnds;
    var more := ends[end := kind];
    assert more - {end} == ends;
    DropCounts(more, end);
  }

  lemma DropCounts(ends: map<nat, End>, end: nat)
    requires end in ends
    ensures |ReadEnds(ends)| == |ReadEnds(ends - {end})| + (if ends[end].Reads() then 1 else 0)
    ensures |WriteEnds(ends)| == |WriteEnds(ends - {end})| + (if ends[end].Writes() then 1 else 0)
  {
    var rest := ends - {end};
    assert ReadEnds(ends) == if ends[end].Reads() then ReadEnds(rest) + {end} else ReadEnds(rest);
    assert WriteEnds(ends) == if ends[end].Writes() then WriteEnds(rest) + {end} else WriteEnds(rest);
  }

  lemma PutKeepsInv(s: System, call: nat, n: nat)
    requires Inv(s) && Running(s, call) && Attempt(s, call) == Some(Ok(n))
    ensures Inv(Put(s, call, n))
  {
    var c := s.calls[call];
    var t := Put(s, call, n);
    var bytes := c.data[c.written..c.written + n];
    assert t.log[..|t.log| - 1] == s.log;
    assert t.delivered + t.pipe.buf == (s.delivered + s.pipe.buf) + bytes;
    assert c.data[..c.written] + bytes == c.data[..c.written + n];
    forall k | k in t.calls
      ensures Honest(t.calls[k], Own(t.log, k))
    {
      assert Own(t.log, k) == Own(s.log, k) + (if k == call then bytes else []);
      if k != call { assert Own(t.log, k) == Own(s.log, k); }
    }
  }

  lemma StepKeepsInv(s: System, step: Step)
    requires Inv(s) && Enabled(s, step)
    ensures Inv(Apply(s, step))
  {
    hide ReadEnds, WriteEnds, Own, Accepted;
    var t := Apply(s, step);
    match step
    case OpenEnd(end, kind) =>
      OpenCounts(s.ends, end, kind);
    case DropEnd(end) =>
      DropCounts(s.ends, end);
    case DoRead(_, n) =>
      var bytes := TryRead(s.pipe, n).value;
      assert s.pipe.buf == bytes + t.pipe.buf;
    case StartWrite(_, call, _) =>
      OwnOfStranger(s.log, call);
    case DoWrite(call) =>
      match Attempt(s, call).value {
        case Ok(n) => PutKeepsInv(s, call, n);
        case Err(_) =>
      }
    case GiveUp(call) =>
  }

  lemma {:induction false} EveryRunKeepsInv(s: System, steps: seq<Step>)
    requires s == Anonymous() || s == Fifo()
    ensures Inv(Run(s, steps))
    decreases |steps|
  {
    if steps == [] {
      assert ReadEnds(Anonymous().ends) == {0} && WriteEnds(Anonymous().ends) == {1};
      assert ReadEnds(Fifo().ends) == {} && WriteEnds(Fifo().ends) == {};
    } else {
      EveryRunKeepsInv(s, steps[..|steps| - 1]);
      var t := Run(s, steps[..|steps| - 1]);
      if Enabled(t, steps[|steps| - 1]) { StepKeepsInv(t, steps[|steps| - 1]); }
    }
  }

  /** Whatever the interleaving: nothing is lost, repeated or reordered, and the pipe stays within its bound. */
  lemma NothingLost(s: System, steps: seq<Step>)
    requires s == Anonymous() || s == Fifo()
    ensures var t := Run(s, steps);
            && t.delivered + t.pipe.buf == Accepted(t.log)
            && |t.pipe.buf| <= PIPE_CAPACITY
            && t.pipe.readers == |ReadEnds(t.ends)|
            && t.pipe.writers == |WriteEnds(t.ends)|
  {
    hide Run, Accepted;
    EveryRunKeepsInv(s, steps);
  }

  /** A write that reports `n` bytes put in exactly the first `n` bytes of its data; an error, none. */
  lemma WritesReportTheirPrefix(s: System, steps: seq<Step>, call: nat)
    requires s == Anonymous() || s == Fifo()
    requires call in Run(s, steps).calls && Run(s, steps).calls[call].result.Some?
    ensures var t := Run(s, steps);
            var c := t.calls[call];
            match c.result.value
            case Ok(n) => 0 < n <= |c.data| && Own(t.log, call) == c.data[..n]
            case Err(_) => Own(t.log, call) == []
  {
    hide Run, Accepted, Own;
    EveryRunKeepsInv(s, steps);
  }

  lemma {:induction false} ChunkInStream(log: seq<Chunk>, j: nat)
    requires j < |log|
    ensures var at := |Accepted(log[..j])|;
            at + |log[j].bytes| <= |Accepted(log)| && Accepted(log)[at..at + |log[j].bytes|] == log[j].bytes
    decreases |log|
  {
    var n := |log| - 1;
    if j < n {
      ChunkInStream(log[..n], j);
      assert log[..n][..j] == log[..j];
    }
  }

  lemma {:induction false} OwnHasChunk(log: seq<Chunk>, call: nat) returns (j: nat)
    requires Own(log, call) != []
    ensures j < |log| && log[j].call == call
  {
    var n := |log| - 1;
    if log[n].call == call {
      j := n;
    } else {
      j := OwnHasChunk(log[..n], call);
    }
  }

  lemma {:induction false} OwnHoldsChunk(log: seq<Chunk>, call: nat, j: nat)
    requires j < |log| && log[j].call == call
    ensures |Own(log, call)| >= |log[j].bytes|
    decreases |log|
  {
    if j < |log| - 1 { OwnHoldsChunk(log[..|log| - 1], call, j); }
  }

  /** Two chunks of a call both count. */
  lemma {:induction false} OwnHoldsBoth(log: seq<Chunk>, call: nat, j: nat, k: nat)
    requires j < k < |log| && log[j].call == call && log[k].call == call
    ensures |Own(log, call)| >= |log[j].bytes| + |log[k].bytes|
    decreases |log|
  {
    var n := |log| - 1;
    if k < n {
      OwnHoldsBoth(log[..n], call, j, k);
    } else {
      OwnHoldsChunk(log[..n], call, j);
    }
  }

  /** A write of at most `PIPE_BUF` bytes is one piece of the stream, whatever else is written meanwhile: it appended
      nothing, or exactly one chunk, which is all of its data and lies at `at`. */
  lemma SmallWritesAreAtomic(s: System, steps: seq<Step>, call: nat) returns (j: nat, at: nat)
    requires s == Anonymous() || s == Fifo()
    requires call in Run(s, steps).calls && |Run(s, steps).calls[call].data| <= PIPE_BUF
    ensures var t := Run(s, steps);
            var data := t.calls[call].data;
            || Own(t.log, call) == []
            || (&& j < |t.log| && t.log[j] == Chunk(call, data) && at == |Accepted(t.log[..j])|
                && (forall k :: 0 <= k < |t.log| && t.log[k].call == call ==> k == j)
                && at + |data| <= |t.delivered + t.pipe.buf| && (t.delivered + t.pipe.buf)[at..at + |data|] == data)
  {
    hide Run, Accepted, Own;
    EveryRunKeepsInv(s, steps);
    var t := Run(s, steps);
    j, at := 0, 0;
    if Own(t.log, call) != [] {
      j := OwnHasChunk(t.log, call);
      ChunkInStream(t.log, j);
      at := |Accepted(t.log[..j])|;
      forall k | 0 <= k < |t.log| && t.log[k].call == call
        ensures k == j
      {
        if k < j { OwnHoldsBoth(t.log, call, k, j); } else if j < k { OwnHoldsBoth(t.log, call, j, k); }
      }
    }
  }

  /** The pipe itself. Blocking is the caller's: a method that finds it must wait says so and changes nothing. */
  class PipeBuffer {
    var buf: seq<Byte>
    var readers: nat
    var writers: nat
    var writersOpened: bool

    function State(): PipeState
      reads this
    {
      PipeState(buf, readers, writers, writersOpened)
    }

    constructor Anonymous()
      ensures State() == PipeState([], 1, 1, true)
    {
      buf, readers, writers, writersOpened := [], 1, 1, true;
    }

    constructor Named()
      ensures State() == PipeState([], 0, 0, false)
    {
      buf, readers, writers, writersOpened := [], 0, 0, false;
    }

    /** `read` on a nonblocking end. */
    method ReadNow(end: End, out: array<Byte>) returns (r: Result<nat>)
      modifies this`buf, out
      ensures match ReadResult(old(State()), end, out.Length)
              case Err(e) => r == Err(e) && State() == old(State()) && out[..] == old(out[..])
              case Ok(bytes) =>
                && r == Ok(|bytes|) && |bytes| <= |old(buf)| && |bytes| <= out.Length
                && State() == AfterRead(old(State()), |bytes|)
                && out[..] == bytes + old(out[..])[|bytes|..]
    {
      if !end.Reads() {
        return Err(EBADF);
      }
      if out.Length == 0 {
        return Ok(0);
      }
      if buf == [] {
        if writers == 0 && writersOpened {
          return Ok(0);
        }
        return Err(EAGAIN);
      }
      var n := Min(out.Length, |buf|);
      for i := 0 to n
        invariant forall k :: 0 <= k < out.Length ==> out[k] == if k < i then buf[k] else old(out[k])
        modifies out
      {
        out[i] := buf[i];
      }
      buf := buf[n..];
      r := Ok(n);
    }

    /** `write` on a nonblocking end: steps until all is in, nothing fits, or there is no reader. */
    method WriteNow(end: End, data: seq<Byte>) returns (r: Result<nat>)
      requires |buf| <= PIPE_CAPACITY
      modifies this`buf
      ensures r == WriteResult(old(State()), end, |data|)
      ensures State() == if r.Ok? then AfterWrite(old(State()), data[..r.value]) else old(State())
      ensures |buf| <= PIPE_CAPACITY
    {
      if !end.Writes() {
        return Err(EBADF);
      }
      if data == [] {
        return Ok(0);
      }
      var atomic := |data| <= PIPE_BUF;
      var written: nat := 0;
      while written < |data|
        invariant written <= |data| && |buf| <= PIPE_CAPACITY
        invariant buf == old(buf) + data[..written]
        invariant written > 0 ==> readers > 0 && (written == |data| || (!atomic && |buf| == PIPE_CAPACITY))
      {
        match TryWrite(State(), |data| - written, atomic) {
          case Some(Ok(n)) =>
            buf := buf + data[written..written + n];
            written := written + n;
          case Some(Err(e)) =>
            return if written > 0 then Ok(written) else Err(e);
          case None =>
            return if written > 0 then Ok(written) else Err(EAGAIN);
        }
      }
      r := Ok(written);
    }

    method Drop(end: End)
      modifies this`readers, this`writers, this`writersOpened
      ensures State() == AfterDrop(old(State()), end)
    {
      match end {
        case Read => readers := Pred(readers);
        case Write => writers := Pred(writers);
        case Both => readers, writers := Pred(readers), Pred(writers);
      }
      if readers == 0 && writers == 0 {
        writersOpened := false;
      }
    }

    method Open(end: End)
      modifies this`readers, this`writers, this`writersOpened
      ensures State() == AfterOpen(old(State()), end)
    {
      match end {
        case Read => readers := readers + 1;
        case Write => writers, writersOpened := writers + 1, true;
        case Both => readers, writers, writersOpened := readers + 1, writers + 1, true;
      }
    }
  }
}
