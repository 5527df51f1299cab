/**
  Timekeeping (petra/src/time/clocksource.rs): the fixed-point factors of a
  clock, and the manager that turns cycle counts into monotonic nanoseconds.
*/
module Clocksource {
  import opened Words

  const NS: nat := 1_000_000_000
  const U32_MAX: nat := 0xffff_ffff
  const U64_MAX: nat := 0xffff_ffff_ffff_ffff

  // The factors.

  /** 10^9 * 2^shift / freq, rounded to the nearest integer. */
  function Rounded(freq: nat, shift: nat): nat
    requires freq > 0
  {
    (NS * Pow2(shift) + freq / 2) / freq
  }

  /** The first shift, from `s` down to 1, whose factor fits 32 bits; else shift 0, truncated. */
  function Search(freq: nat, s: nat): (U32, nat)
    requires freq > 0
  {
    if s == 0 then (Low32(Rounded(freq, 0)), 0)
    else if Rounded(freq, s) <= U32_MAX then (Rounded(freq, s), s)
    else Search(freq, s - 1)
  }

  /** `calc_mult_shift`. */
  method CalcMultShift(freq: U64) returns (mult: U32, shift: nat)
    ensures (mult, shift) == if freq == 0 then (1, 0) else Search(freq, 31)
  {
    hide Pow2;
    if freq == 0 {
      return 1, 0;
    }
    shift := 31;
    while shift > 0
      invariant Search(freq, shift) == Search(freq, 31)
    {
      var m := Rounded(freq, shift);
      if m <= U32_MAX {
        return m, shift;
      }
      shift := shift - 1;
    }
    mult := Low32(Rounded(freq, 0));
  }

  lemma RoundedError(freq: nat, shift: nat)
    requires freq > 0
    ensures -(freq / 2) <= Rounded(freq, shift) * freq - NS * Pow2(shift) <= freq / 2
  {
    hide Pow2;
    var n := NS * Pow2(shift) + freq / 2;
    assert n == freq * (n / freq) + n % freq;
    assert Rounded(freq, shift) * freq == freq * (n / freq);
  }

  lemma QuotientBound(n: nat, freq: nat, b: nat)
    requires freq > 0
    ensures n / freq <= b <==> n < freq * (b + 1)
  {
    assert n == freq * (n / freq) + n % freq;
    var k := n / freq - b;
    assert freq * (n / freq) == freq * b + freq * k;
    assert freq * (b + 1) == freq * b + freq;
    if k > 0 { MulAtLeast(freq, k); }
    if k < 0 { MulAtLeast(freq, k); }
  }

  lemma FitsAtTwo(freq: nat)
    requires freq > 0
    ensures Rounded(freq, 2) <= U32_MAX
  {
    assert Pow2(2) == 4;
    QuotientBound(NS * 4 + freq / 2, freq, U32_MAX);
  }

  /** What a result of the search says, and that it cannot fall through below 2. */
  lemma {:induction false} SearchSound(freq: nat, s: nat)
    requires freq > 0 && s >= 2
    ensures var (mult, shift) := Search(freq, s);
            2 <= shift <= s && mult == Rounded(freq, shift) <= U32_MAX
            && forall t :: shift < t <= s ==> Rounded(freq, t) > U32_MAX
    decreases s
  {
    if Rounded(freq, s) > U32_MAX {
      FitsAtTwo(freq);
      SearchSound(freq, s - 1);
    }
  }

  /** For every frequency: the largest shift up to 31 that fits, at least 2, off by at most half a cycle's worth. */
  lemma MultShiftIsBest(freq: U64)
    requires freq > 0
    ensures var (mult, shift) := Search(freq, 31);
            && 2 <= shift <= 31
            && (forall t :: shift < t <= 31 ==> Rounded(freq, t) > U32_MAX)
            && -(freq / 2) <= mult * freq - NS * Pow2(shift) <= freq / 2
  {
    hide Pow2, Search;
    SearchSound(freq, 31);
    RoundedError(freq, Search(freq, 31).1);
  }

  /** Half the frequency is at most 2^shift: the rounding error is at most one nanosecond a second. */
  lemma HalfFrequency(freq: nat, shift: nat)
    requires 0 < freq <= 0x1_0000_0000 && shift <= 31
    requires shift < 31 ==> Rounded(freq, shift + 1) > U32_MAX
    ensures freq / 2 <= Pow2(shift)
  {
    hide Pow2;
    if shift == 31 {
      TwoTo31();
    } else {
      Double(shift);
      NotFitting(freq, Pow2(shift));
    }
  }

  lemma TwoTo31()
    ensures Pow2(31) == 0x8000_0000
  {
    assert Pow2(16) == 0x1_0000 && Pow2(15) == 0x8000;
    Pow2Add(16, 15);
  }

  lemma Double(shift: nat)
    ensures Pow2(shift + 1) == 2 * Pow2(shift)
  {}

  lemma NotFitting(freq: nat, p: nat)
    requires freq > 0 && (NS * (2 * p) + freq / 2) / freq > U32_MAX
    ensures freq / 2 <= p
  {
    QuotientBound(NS * (2 * p) + freq / 2, freq, U32_MAX);
  }

  /** Up to 2^32 Hz, one second of cycles comes out within a nanosecond of one second. */
  lemma OneSecondWithinOneNs(freq: U64)
    requires 0 < freq <= 0x1_0000_0000
    ensures var (mult, shift) := Search(freq, 31);
            NS - 1 <= freq * mult / Pow2(shift) <= NS + 1
  {
    hide Search, Pow2, Rounded;
    var (mult, shift) := Search(freq, 31);
    MultShiftIsBest(freq);
    HalfFrequency(freq, shift);
    SecondFromError(freq * mult, Pow2(shift), freq * mult - NS * Pow2(shift));
  }

  lemma SecondFromError(x: int, p: int, e: int)
    requires p > 0 && x == NS * p + e && -p <= e <= p
    ensures NS - 1 <= x / p <= NS + 1
  {
    if e < 0 {
      ModUnique(x, p, NS - 1, e + p);
    } else if e < p {
      ModUnique(x, p, NS, e);
    } else {
      ModUnique(x, p, NS + 1, 0);
    }
  }

  // The manager.

  /** A clock: a counter of `bits` bits and the factors that turn its cycles into nanoseconds. */
  datatype Clock = Clock(rating: U32, bits: nat, mult: U32, shift: nat) {
    predicate Valid() { 0 < bits <= 64 }

    function Mask(): nat { Pow2(bits) - 1 }

    /** `(cycles * mult) >> shift`, in 128 bits. */
    function Scale(cycles: nat): nat {
      DivGrows(0, cycles * mult, Pow2(shift));
      cycles * mult / Pow2(shift)
    }
  }

  datatype Manager = Manager(sources: seq<Clock>, active: Option<Clock>, cycleLast: U64, base: U64)

  /** `saturating_add`. */
  function SatAdd(a: U64, b: U64): U64 { if a + b <= U64_MAX then a + b else U64_MAX }

  /** Nanoseconds since the last latch: the masked, wrapped difference of two counter readings, scaled, as u64. */
  function Elapsed(c: Clock, now: U64, last: U64): U64 {
    c.Scale(And(WrapSub64(now, last), c.Mask())) % 0x1_0000_0000_0000_0000
  }

  /** `read_monotonic_ns` with an active clock. */
  function Reading(m: Manager, now: U64): U64
    requires m.active.Some?
  {
    SatAdd(m.base, Elapsed(m.active.value, now, m.cycleLast))
  }

  function Accumulated(m: Manager, now: U64): Manager {
    if m.active.None? then m else m.(base := Reading(m, now), cycleLast := now)
  }

  predicate Preferred(m: Manager, cs: Clock) {
    m.active.None? || cs.rating > m.active.value.rating
  }

  /** `register`: `now` and `first` are what the old and the new counter read, `enabled` what `enable` returned. */
  function Registered(m: Manager, cs: Clock, now: U64, enabled: bool, first: U64): (Manager, bool) {
    if !Preferred(m, cs) then (m.(sources := m.sources + [cs]), true)
    else
      var a := Accumulated(m, now);
      if !enabled then (a, false)
      else (a.(active := Some(cs), cycleLast := first, sources := a.sources + [cs]), true)
  }

  class ClocksourceManager {
    var sources: seq<Clock>
    var active: Option<Clock>
    var cycleLast: U64
    var base: U64

    function State(): Manager
      reads this
    {
      Manager(sources, active, cycleLast, base)
    }

    constructor ()
      ensures State() == Manager([], None, 0, 0)
    {
      sources, active, cycleLast, base := [], None, 0, 0;
    }

    method Accumulate(now: U64)
      modifies this`base, this`cycleLast
      ensures State() == Accumulated(old(State()), now)
    {
      if active.Some? {
        var deltaNs := Elapsed(active.value, now, cycleLast);
        base := SatAdd(base, deltaNs);
        cycleLast := now;
      }
    }

    /** The fallback answers while no clock is registered. */
    method ReadMonotonicNs(now: U64, jiffiesNs: U64) returns (ns: U64)
      ensures ns == if active.Some? then Reading(State(), now) else jiffiesNs
    {
      if active.Some? {
        ns := SatAdd(base, Elapsed(active.value, now, cycleLast));
      } else {
        ns := jiffiesNs;
      }
    }

    method Register(cs: Clock, now: U64, enabled: bool, first: U64) returns (ok: bool)
      modifies this
      ensures (State(), ok) == Registered(old(State()), cs, now, enabled, first)
    {
      var shouldSwitch := active.None? || cs.rating > active.value.rating;
      if shouldSwitch {
        ok := SwitchTo(cs, now, enabled, first);
        if !ok {
          return;
        }
      }
      sources := sources + [cs];
      ok := true;
    }

    method SwitchTo(cs: Clock, now: U64, enabled: bool, first: U64) returns (ok: bool)
      modifies this`active, this`base, this`cycleLast
      ensures ok == enabled
      ensures State() == var a := Accumulated(old(State()), now);
                         if enabled then a.(active := Some(cs), cycleLast := first) else a
    {
      Accumulate(now);
      if !enabled {
        return false;
      }
      cycleLast := first;
      active := Some(cs);
      ok := true;
    }
  }

  // Whole runs. Behind each counter stands the number of cycles that really passed.

  /**
    `latched` and `seen` are the true cycle counts at the last latch and the last event, `answers` what was
    read so far. The active clock came in at count `since` with the time at `from`, and was accumulated
    `folds` times since.
  */
  datatype World = World(m: Manager, latched: nat, seen: nat, answers: seq<U64>, since: nat, from: nat, folds: nat)

  datatype Event =
    | Read(now: nat)
    | Accumulate(now: nat)
    | Register(cs: Clock, now: nat, enabled: bool, first: nat)

  /** What a counter of that width shows after `n` cycles. */
  function Shown(c: Clock, n: nat): U64
    requires c.Valid()
  {
    CounterFits(c.bits);
    n % Pow2(c.bits)
  }

  lemma {:induction false} CounterFits(bits: nat)
    requires bits <= 64
    ensures Pow2(bits) <= 0x1_0000_0000_0000_0000 && 0x1_0000_0000_0000_0000 % Pow2(bits) == 0
  {
    hide Pow2;
    TwoTo64();
    Pow2Add(bits, 64 - bits);
    var p, q := Pow2(bits), Pow2(64 - bits);
    ModUnique(p * q, p, q, 0);
    MulAtLeast(p, q);
  }

  /** Less than one wrap of the counter, and a 64-bit number of nanoseconds, since the last latch. */
  predicate Timely(w: World, now: nat) {
    && w.m.active.Some? && w.latched <= w.seen <= now
    && var c := w.m.active.value;
       now - w.latched < Pow2(c.bits) && c.Scale(now - w.latched) <= U64_MAX
  }

  predicate Allowed(w: World, e: Event) {
    w.m.active.Some? && w.m.active.value.Valid() && Timely(w, e.now)
    && (e.Register? ==> e.cs.Valid())
  }

  function Step(w: World, e: Event): World
    requires Allowed(w, e)
  {
    var c := w.m.active.value;
    match e
    case Read(now) => w.(seen := now, answers := w.answers + [Reading(w.m, Shown(c, now))])
    case Accumulate(now) => Fold(w, now)
    case Register(cs, now, enabled, first) =>
      var m := Registered(w.m, cs, Shown(c, now), enabled, Shown(cs, first)).0;
      if !Preferred(w.m, cs) then w.(m := m, seen := now)
      else if !enabled then Fold(w, now).(m := m)
      else World(m, first, first, w.answers, first, m.base, 0)
  }

  function Fold(w: World, now: nat): World
    requires w.m.active.Some? && w.m.active.value.Valid()
  {
    w.(m := Accumulated(w.m, Shown(w.m.active.value, now)), latched := now, seen := now, folds := w.folds + 1)
  }

  function Run(w: World, events: seq<Event>): World {
    if events == [] then w
    else
      var t := Run(w, events[..|events| - 1]);
      var e := events[|events| - 1];
      if Allowed(t, e) then Step(t, e) else t
  }

  /** The world right after the first registration. */
  function Started(cs: Clock, first: nat): World
    requires cs.Valid()
  {
    World(Registered(Manager([], None, 0, 0), cs, 0, true, Shown(cs, first)).0, first, first, [], first, 0, 0)
  }

  lemma ResidueDifference(a: nat, b: nat, p: nat)
    requires p > 0
    ensures a % p - b % p == p * (b / p - a / p) + (a - b)
  {
    assert a == p * (a / p) + a % p && b == p * (b / p) + b % p;
    assert p * (b / p - a / p) == p * (b / p) - p * (a / p);
  }

  /** The masked difference of two readings is the number of cycles between them, if that is below one wrap. */
  lemma TrueDelta(c: Clock, now: nat, last: nat)
    requires c.Valid() && last <= now && now - last < Pow2(c.bits)
    ensures And(WrapSub64(Shown(c, now), Shown(c, last)), c.Mask()) == now - last
  {
    hide And, Pow2;
    CounterFits(c.bits);
    var p := Pow2(c.bits);
    var x := Shown(c, now) - Shown(c, last);
    AndLowMask(c.bits, p, WrapSub64(Shown(c, now), Shown(c, last)));
    ModOfMod(x, 0x1_0000_0000_0000_0000, p);
    ResidueDifference(now, last, p);
    ModUnique(x, p, last / p - now / p, now - last);
  }

  /** So a timely reading is the base and the scaled cycles since the latch. */
  lemma TrueReading(w: World, now: nat)
    requires w.m.active.Some? && w.m.active.value.Valid() && Timely(w, now)
    requires w.m.cycleLast == Shown(w.m.active.value, w.latched)
    ensures Reading(w.m, Shown(w.m.active.value, now))
         == SatAdd(w.m.base, w.m.active.value.Scale(now - w.latched))
  {
    hide And, Shown, Clock.Scale, Pow2;
    TrueDelta(w.m.active.value, now, w.latched);
  }

  lemma ScaleGrows(c: Clock, a: nat, b: nat)
    requires a <= b
    ensures c.Scale(a) <= c.Scale(b)
  {
    DivGrows(a * c.mult, b * c.mult, Pow2(c.shift)) by { assert (b - a) * c.mult >= 0; }
  }

  lemma DivGrows(x: nat, y: nat, p: nat)
    requires x <= y && p > 0
    ensures x / p <= y / p
  {
    assert x == p * (x / p) + x % p && y == p * (y / p) + y % p;
    var k := x / p - y / p;
    assert p * k == p * (x / p) - p * (y / p);
    MulAtLeast(p, k);
  }

  /** The time at the last event. */
  function Now(w: World): U64
    requires w.m.active.Some? && w.latched <= w.seen && w.m.active.value.Scale(w.seen - w.latched) <= U64_MAX
  {
    SatAdd(w.m.base, w.m.active.value.Scale(w.seen - w.latched))
  }

  /** By how much, in units of 2^-shift ns, the base is behind the exact scaled cycle count. */
  function Debt(w: World): int
    requires w.m.active.Some?
  {
    var p := Pow2(w.m.active.value.shift);
    w.from * p + (w.latched - w.since) * w.m.active.value.mult - w.m.base * p
  }

  ghost predicate Sound(w: World) {
    && w.m.active.Some? && w.m.active.value.Valid() && w.since <= w.latched && Timely(w, w.seen)
    && w.m.cycleLast == Shown(w.m.active.value, w.latched)
  }

  ghost predicate Monotone(w: World)
    requires Sound(w)
  {
    && (forall i, j :: 0 <= i < j < |w.answers| ==> w.answers[i] <= w.answers[j])
    && (forall i :: 0 <= i < |w.answers| ==> w.answers[i] <= Now(w))
  }

  /** Unless the base has saturated, each accumulation costs less than one nanosecond. */
  ghost predicate Close(w: World)
    requires w.m.active.Some?
  {
    w.m.base < U64_MAX ==> 0 <= Debt(w) <= w.folds * (Pow2(w.m.active.value.shift) - 1)
  }

  lemma ZeroScale(c: Clock)
    ensures c.Scale(0) == 0
  {
    ModUnique(0, Pow2(c.shift), 0, 0);
  }

  lemma FoldKeeps(w: World, now: nat)
    requires Sound(w) && Monotone(w) && Close(w) && Timely(w, now)
    ensures var f := Fold(w, now); Sound(f) && Monotone(f) && Close(f)
  {
    hide Shown, Clock.Scale, Pow2, Elapsed;
    var c := w.m.active.value;
    TrueReading(w, now);
    ScaleGrows(c, w.seen - w.latched, now - w.latched);
    ZeroScale(c);
    var f := Fold(w, now);
    if f.m.base < U64_MAX {
      FoldDebt(w, now);
    }
  }

  lemma FoldDebt(w: World, now: nat)
    requires Sound(w) && Close(w) && Timely(w, now)
    requires Fold(w, now).m.base < U64_MAX
    requires Fold(w, now).m.base == SatAdd(w.m.base, w.m.active.value.Scale(now - w.latched))
    ensures Close(Fold(w, now))
  {
    hide Shown, Pow2, Elapsed, Reading;
    var c := w.m.active.value;
    var p := Pow2(c.shift);
    var d := (now - w.latched) * c.mult;
    var f := Fold(w, now);
    assert d == p * (d / p) + d % p;
    assert f.m.base * p == w.m.base * p + (d / p) * p;
    assert (now - w.since) * c.mult == (w.latched - w.since) * c.mult + d;
    assert Debt(f) == Debt(w) + d % p;
    assert f.folds * (p - 1) == w.folds * (p - 1) + (p - 1);
  }

  lemma StepKeeps(w: World, e: Event)
    requires Sound(w) && Monotone(w) && Close(w) && Allowed(w, e)
    ensures var s := Step(w, e); Sound(s) && Monotone(s) && Close(s)
  {
    hide Shown, Clock.Scale, Elapsed;
    var c := w.m.active.value;
    match e
    case Read(now) =>
      TrueReading(w, now);
      ScaleGrows(c, w.seen - w.latched, now - w.latched);
    case Accumulate(now) =>
      FoldKeeps(w, now);
    case Register(cs, now, enabled, first) =>
      FoldKeeps(w, now);
      if !Preferred(w.m, cs) {
        ScaleGrows(c, w.seen - w.latched, now - w.latched);
        assert Debt(Step(w, e)) == Debt(w);
      } else if enabled {
        SwitchKeeps(Fold(w, now), cs, first, Step(w, e));
      }
  }

  /** A switch starts a new count at the time the old clock was folded at. */
  lemma SwitchKeeps(f: World, cs: Clock, first: nat, s: World)
    requires Sound(f) && Monotone(f) && f.latched == f.seen && cs.Valid()
    requires s.m.active == Some(cs) && s.m.cycleLast == Shown(cs, first) && s.m.base == f.m.base
    requires s.latched == s.seen == s.since == first && s.answers == f.answers && s.from == s.m.base && s.folds == 0
    ensures Sound(s) && Monotone(s) && Close(s)
  {
    hide Shown, Clock.Scale, Elapsed;
    ZeroScale(f.m.active.value);
    ZeroScale(cs);
    assert Debt(s) == 0;
  }

  /** Over every run of reads, accumulations and registrations: time never goes back, and never falls behind
      by more than one nanosecond per accumulation. */
  lemma {:induction false} EveryRunKeepsTime(cs: Clock, first: nat, events: seq<Event>)
    requires cs.Valid()
    ensures var w := Run(Started(cs, first), events); Sound(w) && Monotone(w) && Close(w)
    decreases |events|
  {
    hide Shown, Clock.Scale, Elapsed;
    if events == [] {
      ZeroScale(cs);
    } else {
      var n := |events| - 1;
      EveryRunKeepsTime(cs, first, events[..n]);
      var t := Run(Started(cs, first), events[..n]);
      if Allowed(t, events[n]) { StepKeeps(t, events[n]); }
    }
  }

  /** Answers given later are never smaller. */
  lemma TimeNeverGoesBack(cs: Clock, first: nat, events: seq<Event>, i: nat, j: nat)
    requires cs.Valid() && i < j < |Run(Started(cs, first), events).answers|
    ensures Run(Started(cs, first), events).answers[i] <= Run(Started(cs, first), events).answers[j]
  {
    hide Run;
    EveryRunKeepsTime(cs, first, events);
  }

  /** A reading is the exact scaled cycle count of the active clock since it came in, rounded down,
      less at most one nanosecond for each accumulation. */
  lemma ReadingIsClose(cs: Clock, first: nat, events: seq<Event>, now: nat)
    requires cs.Valid() && Timely(Run(Started(cs, first), events), now)
    ensures var w := Run(Started(cs, first), events);
            w.m.active.Some? && w.m.active.value.Valid() && w.since <= now
    ensures var w := Run(Started(cs, first), events);
            var c := w.m.active.value;
            var r := Reading(w.m, Shown(c, now));
            var p := Pow2(c.shift);
            var exact := w.from * p + (now - w.since) * c.mult;
            r < U64_MAX ==> r * p <= exact < (r + w.folds + 1) * p
  {
    hide Run, Shown, Clock.Scale, Elapsed, Pow2;
    EveryRunKeepsTime(cs, first, events);
    var w := Run(Started(cs, first), events);
    var c := w.m.active.value;
    TrueReading(w, now);
    FoldKeeps(w, now);
    var f := Fold(w, now);
    var p := Pow2(c.shift);
    if f.m.base < U64_MAX {
      assert (f.m.base + w.folds + 1) * p == f.m.base * p + f.folds * p;
      assert f.folds * (p - 1) == f.folds * p - f.folds;
    }
  }

  /** The first registration starts the count at zero, whatever the fallback has answered before. */
  lemma FirstRegistrationStartsAtZero(cs: Clock, now: U64, first: U64)
    requires cs.Valid()
    ensures Reading(Registered(Manager([], None, 0, 0), cs, now, true, first).0, first) == 0
  {
    hide And, Pow2, Clock.Scale;
    AndZero(cs.Mask());
    ZeroScale(cs);
  }
}
