/**
  evdev clients (petra/src/drivers/input/evdev.rs): a bounded queue of input
  events that drops its oldest on overflow and says so at the next read.
*/
module Evdev {
  import opened Words

  const EVDEV_QUEUE_CAP: nat := 64
  const EVENT_SIZE: nat := 24

  datatype InputEvent = InputEvent(sec: int, usec: int, kind: nat, code: nat, value: int)

  /**
    What a reader gets: an event, or the `SYN_DROPPED` marker. The marker is annotated with the events it stands
    for; a reader sees the marker only.
  */
  datatype Item = Event(event: InputEvent) | SynDropped(lost: seq<InputEvent>)

  datatype Errno = ENODEV | EINVAL

  datatype Result<T> = Ok(value: T) | Err(error: Errno)

  /** `lost` are the events dropped since the last marker was delivered. */
  datatype Client = Client(queue: seq<InputEvent>, dropped: bool, revoked: bool, lost: seq<InputEvent>)

  // What the methods do to a client.

  function Pushed(c: Client, e: InputEvent): Client {
    if c.revoked then c
    else if |c.queue| >= EVDEV_QUEUE_CAP then
      c.(queue := c.queue[1..] + [e], dropped := true, lost := c.lost + [c.queue[0]])
    else c.(queue := c.queue + [e])
  }

  function Events(es: seq<InputEvent>): (items: seq<Item>)
    ensures |items| == |es|
  {
    seq(|es|, i requires 0 <= i < |es| => Event(es[i]))
  }

  /** How many queued events fit a read of `n` items, after the marker if there is one. */
  function Taken(c: Client, n: nat): nat {
    Min(if c.dropped && n > 0 then n - 1 else n, |c.queue|)
  }

  function ReadItems(c: Client, n: nat): seq<Item> {
    (if c.dropped && n > 0 then [SynDropped(c.lost)] else []) + Events(c.queue[..Taken(c, n)])
  }

  function AfterRead(c: Client, n: nat): Client {
    c.(queue := c.queue[Taken(c, n)..], dropped := false, lost := if c.dropped then [] else c.lost)
  }

  /** `try_read` with a buffer of `len` bytes. */
  function ReadResult(c: Client, len: nat): Result<seq<Item>> {
    if c.revoked then Err(ENODEV)
    else if len / EVENT_SIZE == 0 then Err(EINVAL)
    else Ok(ReadItems(c, len / EVENT_SIZE))
  }

  function Available(c: Client): nat {
    if c.revoked then 0 else |c.queue| * EVENT_SIZE + (if c.dropped then EVENT_SIZE else 0)
  }

  /** The synthesized event: type `EV_SYN`, code `SYN_DROPPED`. */
  function Marker(sec: int, usec: int): InputEvent { InputEvent(sec, usec, 0, 3, 0) }

  /** What the reader sees of a list of items. */
  function OnTheWire(items: seq<Item>, sec: int, usec: int): (es: seq<InputEvent>)
    ensures |es| == |items|
  {
    seq(|items|, i requires 0 <= i < |items| =>
      match items[i]
      case Event(e) => e
      case SynDropped(_) => Marker(sec, usec))
  }

  class EvdevClient {
    var queue: seq<InputEvent>
    var dropped: bool
    var revoked: bool
    ghost var lost: seq<InputEvent>

    ghost function State(): Client
      reads this
    {
      Client(queue, dropped, revoked, lost)
    }

    constructor ()
      ensures State() == Client([], false, false, [])
    {
      queue, dropped, revoked, lost := [], false, false, [];
    }

    method Push(event: InputEvent)
      modifies this`queue, this`dropped, this`lost
      ensures State() == Pushed(old(State()), event)
    {
      if revoked {
        return;
      }
      if |queue| >= EVDEV_QUEUE_CAP {
        lost := lost + [queue[0]];
        queue := queue[1..];
        dropped := true;
      }
      queue := queue + [event];
    }

    /** The events copied to a buffer of `len` bytes; a marker carries the time of the read. */
    method TryRead(len: nat, sec: int, usec: int) returns (r: Result<seq<InputEvent>>)
      modifies this`queue, this`dropped, this`lost
      ensures match ReadResult(old(State()), len)
              case Err(e) => r == Err(e) && State() == old(State())
              case Ok(items) =>
                r == Ok(OnTheWire(items, sec, usec)) && State() == AfterRead(old(State()), len / EVENT_SIZE)
    {
      if revoked {
        return Err(ENODEV);
      }
      var capacity := len / EVENT_SIZE;
      if capacity == 0 {
        return Err(EINVAL);
      }
      var buf: seq<InputEvent> := [];
      ghost var c := State();
      if dropped {
        dropped := false;
        buf := [Marker(sec, usec)];
        lost := [];
      }
      ghost var head := buf;
      ghost var n := 0;
      while |buf| < capacity && queue != []
        invariant |buf| == |head| + n <= capacity && n <= |c.queue|
        invariant queue == c.queue[n..]
        invariant buf == head + c.queue[..n]
        modifies this`queue
        decreases |queue|
      {
        buf := buf + [queue[0]];
        queue := queue[1..];
        n := n + 1;
      }
      assert n == Taken(c, capacity);
      assert buf == OnTheWire(ReadItems(c, capacity), sec, usec);
      r := Ok(buf);
    }
  }

  // Whole runs on a client that is not revoked.

  /** A stream with every marker replaced by the events it stands for. */
  function Expand(items: seq<Item>): seq<InputEvent> {
    if items == [] then []
    else
      var last := items[|items| - 1];
      Expand(items[..|items| - 1]) + (match last case Event(e) => [e] case SynDropped(lost) => lost)
  }

  datatype Step = Push(event: InputEvent) | Read(len: nat)

  datatype History = History(client: Client, pushed: seq<InputEvent>, delivered: seq<Item>)

  function Apply(h: History, step: Step): History {
    match step
    case Push(e) => h.(client := Pushed(h.client, e), pushed := h.pushed + [e])
    case Read(len) =>
      match ReadResult(h.client, len)
      case Err(_) => h
      case Ok(items) => h.(client := AfterRead(h.client, len / EVENT_SIZE), delivered := h.delivered + items)
  }

  function Run(steps: seq<Step>): History {
    if steps == [] then History(Client([], false, false, []), [], [])
    else Apply(Run(steps[..|steps| - 1]), steps[|steps| - 1])
  }

  ghost predicate Inv(h: History) {
    && !h.client.revoked
    && |h.client.queue| <= EVDEV_QUEUE_CAP
    && (h.client.dropped <==> h.client.lost != [])
    && h.pushed == Expand(h.delivered) + h.client.lost + h.client.queue
    && forall i :: 0 <= i < |h.delivered| && h.delivered[i].SynDropped? ==> h.delivered[i].lost != []
  }

  lemma {:induction false} ExpandAppend(a: seq<Item>, b: seq<Item>)
    ensures Expand(a + b) == Expand(a) + Expand(b)
    decreases |b|
  {
    if b == [] {
      assert a + b == a;
    } else {
      ExpandAppend(a, b[..|b| - 1]);
      assert (a + b)[..|a + b| - 1] == a + b[..|b| - 1];
    }
  }

  lemma {:induction false} ExpandEvents(es: seq<InputEvent>)
    ensures Expand(Events(es)) == es
  {
    if es != [] {
      var n := |es| - 1;
      ExpandEvents(es[..n]);
      assert Events(es)[..n] == Events(es[..n]);
    }
  }

  lemma ExpandRead(c: Client, n: nat)
    requires n > 0 && (c.dropped <==> c.lost != [])
    ensures Expand(ReadItems(c, n)) + AfterRead(c, n).queue == c.lost + c.queue
  {
    hide Expand, Events;
    var taken := c.queue[..Taken(c, n)];
    ExpandEvents(taken);
    if c.dropped {
      ExpandAppend([SynDropped(c.lost)], Events(taken));
      ExpandMarker(c.lost);
    } else {
      assert ReadItems(c, n) == Events(taken);
    }
  }

  lemma ExpandMarker(lost: seq<InputEvent>)
    ensures Expand([SynDropped(lost)]) == lost
  {
    assert [SynDropped(lost)][..0] == [];
  }

  lemma StepKeepsInv(h: History, step: Step)
    requires Inv(h)
    ensures Inv(Apply(h, step))
  {
    hide Expand;
    match step
    case Push(e) =>
      var c := h.client;
      if |c.queue| >= EVDEV_QUEUE_CAP {
        assert c.lost + c.queue == c.lost + [c.queue[0]] + c.queue[1..];
      }
      assert Apply(h, step).pushed == Expand(h.delivered) + (c.lost + c.queue) + [e];
    case Read(len) =>
      if len / EVENT_SIZE > 0 {
        var items := ReadItems(h.client, len / EVENT_SIZE);
        ExpandRead(h.client, len / EVENT_SIZE);
        ExpandAppend(h.delivered, items);
        assert h.pushed == Expand(h.delivered) + (h.client.lost + h.client.queue);
      }
  }

  /** Every event that was pushed is delivered, stands behind one marker, is lost with its marker pending, or is
      queued: in that order, each once. Markers stand for at least one event, and at most 64 events wait. */
  lemma {:induction false} NoSilentLoss(steps: seq<Step>)
    ensures Inv(Run(steps))
    decreases |steps|
  {
    if steps != [] {
      NoSilentLoss(steps[..|steps| - 1]);
      StepKeepsInv(Run(steps[..|steps| - 1]), steps[|steps| - 1]);
    }
  }

  /** `available` is exactly what the largest read would return. */
  lemma AvailableIsExact(steps: seq<Step>, len: nat)
    requires len >= (EVDEV_QUEUE_CAP + 1) * EVENT_SIZE
    ensures var c := Run(steps).client;
            ReadResult(c, len).Ok? && |ReadResult(c, len).value| * EVENT_SIZE == Available(c)
  {
    hide Run;
    NoSilentLoss(steps);
  }
}
