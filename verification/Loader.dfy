/**
  Image layout for kernel modules (petra/src/modules/loader.rs): where the segments of a shared object and the
  sections of a relocatable object go, and what the image then holds. Headers arrive already decoded.
*/
module Loader {
  import opened Words
  import opened Buffers

  datatype Errno = ENOEXEC | ENOMEM

  datatype Result<T> = Ok(value: T) | Err(error: Errno)

  const LIMIT := 0x1_0000_0000_0000_0000

  // Alignment.

  predicate IsPowerOfTwo(a: nat) { a == 1 || (a > 0 && a % 2 == 0 && IsPowerOfTwo(a / 2)) }

  lemma {:induction false} PowerOfTwo(a: U64) returns (k: nat)
    requires IsPowerOfTwo(a)
    ensures k < 64 && Pow2(k) == a
  {
    if a == 1 {
      k := 0;
    } else {
      var j := PowerOfTwo(a / 2);
      k := j + 1;
      Pow2Big(k);
    }
  }

  lemma Pow2Big(k: nat)
    ensures k >= 64 ==> Pow2(k) >= LIMIT
  {
    hide Pow2;
    if k >= 64 {
      TwoTo64();
      Pow2Add(64, k - 64);
      MulAtLeast(LIMIT, Pow2(k - 64));
    }
  }

  lemma MulOrder(a: nat, x: nat, y: nat)
    requires a > 0
    ensures x < y ==> a * x + a <= a * y
    ensures x <= y ==> a * x <= a * y
  {
    if x < y {
      MulAtLeast(a, y - x);
      assert a * y == a * x + a * (y - x);
    }
  }

  function AlignUp(value: U64, align: U64): Option<U64> {
    if align == 0 || value + (align - 1) >= LIMIT then None
    else Some(And64(value + (align - 1), LIMIT - 1 - (align - 1)))
  }

  function AlignDown(value: U64, align: U64): U64
    requires align > 0
  {
    And64(value, LIMIT - 1 - (align - 1))
  }

  /** The multiple of a power of two that `align_down` finds. */
  lemma AlignDownIsFloor(value: U64, align: U64)
    requires IsPowerOfTwo(align)
    ensures AlignDown(value, align) == value - value % align
  {
    hide Pow2, And64, IsPowerOfTwo;
    var k := PowerOfTwo(align);
    AndHigh(k, align, value);
  }

  ghost predicate Multiple(align: nat, x: nat)
    requires align > 0
  {
    x % align == 0
  }

  /** `align_up_checked` gives the least multiple at or above the value, and fails exactly when that does not fit. */
  lemma AlignUpIsLeast(value: U64, align: U64)
    requires IsPowerOfTwo(align)
    ensures match AlignUp(value, align)
            case Some(r) =>
              && Multiple(align, r) && value <= r < value + align
              && forall x: nat :: Multiple(align, x) && value <= x ==> r <= x
            case None => forall x: nat :: Multiple(align, x) && value <= x ==> x >= LIMIT
  {
    hide Pow2, And64, IsPowerOfTwo;
    var k := PowerOfTwo(align);
    TwoTo64();
    Pow2Add(k, 64 - k);
    var top := value + (align - 1);
    var floor := top - top % align;
    FloorIsLeast(value, align);
    if top < LIMIT {
      AndHigh(k, align, top);
    } else {
      MultipleBetween(Pow2(64 - k), align, top);
    }
  }

  lemma FloorIsLeast(value: nat, align: nat)
    requires align > 0
    ensures var top := value + (align - 1);
            var r := top - top % align;
            && Multiple(align, r) && value <= r < value + align
            && forall x: nat :: Multiple(align, x) && value <= x ==> r <= x
  {
    var top := value + (align - 1);
    var q := top / align;
    var r := top - top % align;
    assert r == align * q;
    ModUnique(r, align, q, 0);
    forall x: nat | Multiple(align, x) && value <= x
      ensures r <= x
    {
      var d := x / align;
      assert x == align * d;
      MulOrder(align, d, q);
      MulOrder(align, q, d);
    }
  }

  /** The multiple below a value at or past a multiple is not before that multiple. */
  lemma MultipleBetween(q: nat, align: nat, top: nat)
    requires align > 0 && align * q <= top
    ensures top - top % align >= align * q
  {
    MulOrder(align, top / align, q);
    MulOrder(align, q, top / align);
  }

  // Relocatable objects.

  datatype Section = Section(flags: U64, align: U64, size: U64, noBits: bool, offset: U64)

  datatype Layout = Layout(offsets: map<nat, nat>, cursor: nat)

  predicate Allocated(s: Section) { And64(s.flags, 2) != 0 }

  function Alignment(s: Section): U64 { if s.align == 0 then 1 else s.align }

  /** Placing one section after what has been placed. */
  function PlaceOne(l: Layout, i: nat, s: Section): Result<Layout>
    requires l.cursor < LIMIT
  {
    if !Allocated(s) then Ok(l)
    else if !IsPowerOfTwo(Alignment(s)) then Err(ENOEXEC)
    else
      match AlignUp(l.cursor, Alignment(s))
      case None => Err(ENOMEM)
      case Some(at) =>
        if at + s.size >= LIMIT then Err(ENOMEM) else Ok(Layout(l.offsets[i := at], at + s.size))
  }

  /** Placing sections 1 to n - 1; `None` is a header that cannot be read. */
  function Place(ss: seq<Option<Section>>, n: nat): (r: Result<Layout>)
    requires n <= |ss|
    ensures r.Ok? ==> r.value.cursor < LIMIT
  {
    if n <= 1 then Ok(Layout(map[], 0))
    else
      var l := Place(ss, n - 1);
      if l.Err? then l
      else if ss[n - 1].None? then Err(ENOEXEC)
      else PlaceOne(l.value, n - 1, ss[n - 1].value)
  }

  /** Sections are placed in order at aligned offsets, none overlaps another, and all lie below the cursor. */
  ghost predicate Placed(ss: seq<Option<Section>>, n: nat, l: Layout)
    requires n <= |ss|
  {
    && (forall i :: 1 <= i < n ==> ss[i].Some?)
    && (forall i :: i in l.offsets <==> 1 <= i < n && Allocated(ss[i].value))
    && (forall i :: i in l.offsets ==>
          && IsPowerOfTwo(Alignment(ss[i].value)) && l.offsets[i] % Alignment(ss[i].value) == 0
          && l.offsets[i] + ss[i].value.size <= l.cursor)
    && (forall i, j :: i in l.offsets && j in l.offsets && i < j ==>
          l.offsets[i] + ss[i].value.size <= l.offsets[j])
  }

  lemma {:induction false} PlacedSound(ss: seq<Option<Section>>, n: nat)
    requires n <= |ss| && Place(ss, n).Ok?
    ensures Placed(ss, n, Place(ss, n).value)
    decreases n
  {
    hide AlignUp, IsPowerOfTwo, Allocated;
    if n > 1 {
      PlacedSound(ss, n - 1);
      var s := ss[n - 1].value;
      if Allocated(s) {
        AlignUpIsLeast(Place(ss, n - 1).value.cursor, Alignment(s));
      }
    }
  }

  predicate InFile(file: seq<Byte>, s: Section) { s.offset + s.size <= |file| }

  predicate Initialized(ss: seq<Option<Section>>, i: nat)
    requires i < |ss|
  {
    ss[i].Some? && Allocated(ss[i].value) && !ss[i].value.noBits
  }

  ghost predicate CoveredBy(ss: seq<Option<Section>>, l: Layout, i: nat, b: int) {
    i < |ss| && i in l.offsets && Initialized(ss, i) && l.offsets[i] <= b < l.offsets[i] + ss[i].value.size
  }

  /** Each initialized section among the first n holds its bytes of the file, and all else is zero. */
  ghost predicate Holds(file: seq<Byte>, ss: seq<Option<Section>>, n: nat, l: Layout, image: seq<Byte>)
    requires n <= |ss|
  {
    && |image| == l.cursor
    && (forall i, b :: 0 <= i < n && 0 <= b < |image| && CoveredBy(ss, l, i, b) ==>
          var k := ss[i].value.offset + (b - l.offsets[i]); k < |file| && image[b] == file[k])
    && (forall b :: 0 <= b < |image| && (forall i :: 0 <= i < n ==> !CoveredBy(ss, l, i, b)) ==> image[b] == 0)
  }

  /** What a relocatable object must meet to be loaded. */
  ghost predicate LoadableRel(file: seq<Byte>, ss: seq<Option<Section>>) {
    && Place(ss, |ss|).Ok? && Place(ss, |ss|).value.cursor > 0
    && forall i :: 1 <= i < |ss| && Initialized(ss, i) ==> InFile(file, ss[i].value)
  }

  method PlaceSections(ss: seq<Option<Section>>) returns (r: Result<Layout>)
    ensures r == Place(ss, |ss|)
  {
    hide AlignUp, IsPowerOfTwo, Allocated;
    var offsets: map<nat, nat> := map[];
    var cursor: nat := 0;
    var index: nat := 1;
    while index < |ss|
      invariant cursor < LIMIT && index >= 1 && (index <= |ss| || index == 1)
      invariant Place(ss, if index <= |ss| then index else |ss|) == Ok(Layout(offsets, cursor))
    {
      PlaceStops(ss, index + 1, |ss|);
      if ss[index].None? {
        return Err(ENOEXEC);
      }
      var s := ss[index].value;
      if Allocated(s) {
        var align := Alignment(s);
        if !IsPowerOfTwo(align) {
          return Err(ENOEXEC);
        }
        var placed := AlignUp(cursor, align);
        if placed.None? || placed.value + s.size >= LIMIT {
          return Err(ENOMEM);
        }
        offsets := offsets[index := placed.value];
        cursor := placed.value + s.size;
      }
      index := index + 1;
    }
    return Ok(Layout(offsets, cursor));
  }

  /** The first error is the result. */
  lemma {:induction false} PlaceStops(ss: seq<Option<Section>>, i: nat, n: nat)
    requires i <= n <= |ss|
    ensures Place(ss, i).Err? ==> Place(ss, n) == Place(ss, i)
    decreases n
  {
    hide PlaceOne;
    if i < n { PlaceStops(ss, i, n - 1); }
  }

  lemma HoldsZero(file: seq<Byte>, ss: seq<Option<Section>>, l: Layout, image: seq<Byte>)
    requires |ss| >= 1 && Placed(ss, |ss|, l) && |image| == l.cursor && forall b :: 0 <= b < |image| ==> image[b] == 0
    ensures Holds(file, ss, 1, l, image)
  {
    hide Allocated, IsPowerOfTwo;
  }

  /** Copying a section keeps what earlier ones hold. */
  lemma HoldsCopied(file: seq<Byte>, ss: seq<Option<Section>>, n: nat, l: Layout, image: seq<Byte>)
    requires n < |ss| && Placed(ss, |ss|, l) && Holds(file, ss, n, l, image)
    requires n in l.offsets && Initialized(ss, n) && InFile(file, ss[n].value)
    ensures var s := ss[n].value;
            && l.offsets[n] + s.size <= l.cursor
            && Holds(file, ss, n + 1, l, Put(image, l.offsets[n], file[s.offset..s.offset + s.size]))
  {
    hide Allocated, IsPowerOfTwo, Alignment;
    var s := ss[n].value;
    var at := l.offsets[n];
    var after := Put(image, at, file[s.offset..s.offset + s.size]);
    forall i, b | 0 <= i < n + 1 && 0 <= b < |after| && CoveredBy(ss, l, i, b)
      ensures var k := ss[i].value.offset + (b - l.offsets[i]); k < |file| && after[b] == file[k]
    {
      if i < n {
        assert after[b] == image[b];
      }
    }
    forall b | 0 <= b < |after| && forall i :: 0 <= i < n + 1 ==> !CoveredBy(ss, l, i, b)
      ensures after[b] == 0
    {
      assert !CoveredBy(ss, l, n, b);
      assert after[b] == image[b];
    }
  }

  /** A section that is not placed or holds no bytes of the file changes nothing. */
  lemma HoldsSkipped(file: seq<Byte>, ss: seq<Option<Section>>, n: nat, l: Layout, image: seq<Byte>)
    requires n < |ss| && Holds(file, ss, n, l, image) && !(n in l.offsets && Initialized(ss, n))
    ensures Holds(file, ss, n + 1, l, image)
  {
    hide Allocated;
    forall b | 0 <= b < |image| && forall i :: 0 <= i < n + 1 ==> !CoveredBy(ss, l, i, b)
      ensures image[b] == 0
    {
      assert forall i :: 0 <= i < n ==> !CoveredBy(ss, l, i, b);
    }
  }

  method CopySections(file: seq<Byte>, ss: seq<Option<Section>>, l: Layout) returns (r: Result<array<Byte>>)
    requires |ss| >= 1 && Placed(ss, |ss|, l)
    ensures r.Ok? <==> forall i :: 1 <= i < |ss| && Initialized(ss, i) ==> InFile(file, ss[i].value)
    ensures r.Ok? ==> fresh(r.value) && Holds(file, ss, |ss|, l, r.value[..])
    ensures r.Err? ==> r.error == ENOEXEC
  {
    hide Allocated, IsPowerOfTwo, Alignment, Holds;
    var image := new Byte[l.cursor](i => 0);
    HoldsZero(file, ss, l, image[..]);
    for index := 1 to |ss|
      invariant Holds(file, ss, index, l, image[..])
      invariant forall i :: 1 <= i < index && Initialized(ss, i) ==> InFile(file, ss[i].value)
    {
      if index in l.offsets && !ss[index].value.noBits {
        var s := ss[index].value;
        if s.offset + s.size > |file| {
          return Err(ENOEXEC);
        }
        HoldsCopied(file, ss, index, l, image[..]);
        CopyAt(image, l.offsets[index], file[s.offset..s.offset + s.size]);
      } else {
        HoldsSkipped(file, ss, index, l, image[..]);
      }
    }
    return Ok(image);
  }

  /** `load_image_rel`. */
  method LoadImageRel(file: seq<Byte>, ss: seq<Option<Section>>) returns (r: Result<(array<Byte>, map<nat, nat>)>)
    ensures r.Ok? <==> LoadableRel(file, ss)
    ensures r.Err? ==> r.error == if Place(ss, |ss|).Err? then Place(ss, |ss|).error else ENOEXEC
    ensures r.Ok? ==>
              var l := Place(ss, |ss|).value;
              && r.value.1 == l.offsets && fresh(r.value.0)
              && Placed(ss, |ss|, l) && Holds(file, ss, |ss|, l, r.value.0[..])
  {
    hide Allocated, IsPowerOfTwo, Alignment, Holds, Placed, Place;
    var placed := PlaceSections(ss);
    if placed.Err? {
      return Err(placed.error);
    }
    if placed.value.cursor == 0 {
      return Err(ENOEXEC);
    }
    PlacedSound(ss, |ss|);
    PlaceNeedsSections(ss);
    var image := CopySections(file, ss, placed.value);
    if image.Err? {
      return Err(image.error);
    }
    return Ok((image.value, placed.value.offsets));
  }

  lemma PlaceNeedsSections(ss: seq<Option<Section>>)
    ensures Place(ss, |ss|).Ok? && Place(ss, |ss|).value.cursor > 0 ==> |ss| >= 1
  {
    hide PlaceOne;
  }

  // Shared objects.

  datatype Segment = Segment(load: bool, vaddr: U64, memsz: U64, filesz: U64, offset: U64)

  const PAGE: U64 := 4096

  /** Segments that are copied. */
  predicate Loads(s: Segment) { s.load && s.memsz != 0 }

  datatype Span = Span(low: nat, end: nat, loaded: seq<Segment>)

  function SpanOne(p: Span, s: Segment): Result<Span> {
    if !Loads(s) then Ok(p)
    else if s.filesz > s.memsz then Err(ENOEXEC)
    else
      PageIsPower();
      AlignDownIsFloor(s.vaddr, PAGE);
      var at := AlignDown(s.vaddr, PAGE);
      var misalign := s.vaddr - at;
      if s.memsz + misalign >= LIMIT then Err(ENOMEM)
      else
        match AlignUp(s.memsz + misalign, PAGE)
        case None => Err(ENOMEM)
        case Some(span) =>
          if at + span >= LIMIT then Err(ENOMEM)
          else Ok(Span(if at < p.low then at else p.low, if at + span > p.end then at + span else p.end,
                       p.loaded + [s]))
  }

  function SpanOf(ps: seq<Segment>, n: nat): Result<Span>
    requires n <= |ps|
  {
    if n == 0 then Ok(Span(LIMIT - 1, 0, []))
    else
      var p := SpanOf(ps, n - 1);
      if p.Err? then p else SpanOne(p.value, ps[n - 1])
  }

  function LoadedOnly(ps: seq<Segment>, n: nat): seq<Segment>
    requires n <= |ps|
  {
    if n == 0 then [] else if Loads(ps[n - 1]) then LoadedOnly(ps, n - 1) + [ps[n - 1]] else LoadedOnly(ps, n - 1)
  }

  /** The span starts and ends on pages and covers every loaded segment in memory; both its ends are reached. */
  ghost predicate Spans(p: Span) {
    && (forall i :: 0 <= i < |p.loaded| ==>
          var s := p.loaded[i];
          && s.filesz <= s.memsz && p.low <= s.vaddr && s.vaddr + s.memsz <= p.end)
    && (p.loaded != [] ==>
          && p.low % PAGE == 0 && p.end % PAGE == 0 && p.low < p.end < LIMIT
          && (exists i :: 0 <= i < |p.loaded| && p.loaded[i].vaddr < p.low + PAGE)
          && (exists i :: 0 <= i < |p.loaded| && p.end < p.loaded[i].vaddr + p.loaded[i].memsz + PAGE))
    && (p.loaded == [] ==> p.low == LIMIT - 1 && p.end == 0)
  }

  lemma PageIsPower()
    ensures IsPowerOfTwo(PAGE)
  {
    assert IsPowerOfTwo(1) && IsPowerOfTwo(4) && IsPowerOfTwo(16) && IsPowerOfTwo(64) && IsPowerOfTwo(256);
    assert IsPowerOfTwo(1024);
  }

  /** One segment: the page that holds its start, and the pages that hold all of it. */
  lemma SegmentPages(s: Segment, p: Span)
    requires Loads(s) && SpanOne(p, s).Ok?
    ensures var at := s.vaddr - s.vaddr % PAGE;
            exists end :: end % PAGE == 0 && s.vaddr + s.memsz <= end < s.vaddr + s.memsz + PAGE && end < LIMIT
              && SpanOne(p, s) == Ok(Span(if at < p.low then at else p.low, if end > p.end then end else p.end,
                                          p.loaded + [s]))
  {
    hide AlignDown, AlignUp, IsPowerOfTwo;
    PageIsPower();
    AlignDownIsFloor(s.vaddr, PAGE);
    var at := s.vaddr - s.vaddr % PAGE;
    AlignUpIsLeast(s.memsz + (s.vaddr - at), PAGE);
    var end := at + AlignUp(s.memsz + (s.vaddr - at), PAGE).value;
    assert end % PAGE == 0;
  }

  lemma SpanStep(p: Span, s: Segment)
    requires Spans(p) && SpanOne(p, s).Ok?
    ensures Spans(SpanOne(p, s).value)
  {
    hide AlignDown, AlignUp, IsPowerOfTwo;
    if Loads(s) {
      SegmentPages(s, p);
      var q := SpanOne(p, s).value;
      hide SpanOne;
      var n := |p.loaded|;
      assert q.loaded[n] == s && q.loaded[..n] == p.loaded;
      assert forall i :: 0 <= i < n ==> q.loaded[i] == p.loaded[i];
    }
  }

  lemma {:induction false} SpanSound(ps: seq<Segment>, n: nat)
    requires n <= |ps| && SpanOf(ps, n).Ok?
    ensures Spans(SpanOf(ps, n).value) && SpanOf(ps, n).value.loaded == LoadedOnly(ps, n)
    decreases n
  {
    hide AlignDown, AlignUp, IsPowerOfTwo, Spans;
    if n > 0 {
      SpanSound(ps, n - 1);
      SpanStep(SpanOf(ps, n - 1).value, ps[n - 1]);
    } else {
      SpansNothing();
    }
  }

  lemma SpansNothing()
    ensures Spans(Span(LIMIT - 1, 0, []))
  {
  }

  predicate FileCovers(file: seq<Byte>, s: Segment) { s.offset + s.filesz <= |file| }

  predicate Writes(p: Span, i: nat, b: int)
    requires i < |p.loaded|
  {
    p.loaded[i].vaddr - p.low <= b < p.loaded[i].vaddr - p.low + p.loaded[i].filesz
  }

  /** The last of the first n segments that covers a byte of the image. */
  function LastWriter(p: Span, n: nat, b: int): (r: Option<nat>)
    requires n <= |p.loaded|
    ensures match r
            case None => forall i :: 0 <= i < n ==> !Writes(p, i, b)
            case Some(i) => i < n && Writes(p, i, b) && forall j :: i < j < n ==> !Writes(p, j, b)
  {
    if n == 0 then None else if Writes(p, n - 1, b) then Some(n - 1) else LastWriter(p, n - 1, b)
  }

  /** The byte of the file that a segment puts at a byte of the image. */
  ghost predicate FromFile(file: seq<Byte>, p: Span, i: nat, b: int, x: Byte)
    requires i < |p.loaded|
  {
    var k := p.loaded[i].offset + (b - (p.loaded[i].vaddr - p.low));
    0 <= k < |file| && x == file[k]
  }

  /** Every byte comes from the last of the first n segments that covers it, and is zero where none does. */
  ghost predicate Latest(file: seq<Byte>, p: Span, n: nat, image: seq<Byte>)
    requires n <= |p.loaded|
  {
    && |image| == p.end - p.low
    && forall b :: 0 <= b < |image| ==>
         match LastWriter(p, n, b)
         case None => image[b] == 0
         case Some(i) => FromFile(file, p, i, b, image[b])
  }

  lemma SpanWidth(p: Span)
    requires Spans(p) && p.loaded != []
    ensures p.low < p.end
  {
  }

  lemma LatestZero(file: seq<Byte>, p: Span, image: seq<Byte>)
    requires |image| == p.end - p.low && forall b :: 0 <= b < |image| ==> image[b] == 0
    ensures Latest(file, p, 0, image)
  {
  }

  lemma SegmentInside(p: Span, n: nat)
    requires Spans(p) && n < |p.loaded|
    ensures 0 <= p.loaded[n].vaddr - p.low && p.loaded[n].vaddr + p.loaded[n].filesz <= p.end
  {
  }

  lemma LatestCopied(file: seq<Byte>, p: Span, n: nat, image: seq<Byte>)
    requires n < |p.loaded| && Spans(p) && Latest(file, p, n, image) && FileCovers(file, p.loaded[n])
    ensures var s := p.loaded[n];
            && 0 <= s.vaddr - p.low && s.vaddr - p.low + s.filesz <= |image|
            && Latest(file, p, n + 1, Put(image, s.vaddr - p.low, file[s.offset..s.offset + s.filesz]))
  {
    hide Spans;
    SegmentInside(p, n);
    var s := p.loaded[n];
    var at := s.vaddr - p.low;
    var after := Put(image, at, file[s.offset..s.offset + s.filesz]);
    forall b | 0 <= b < |image|
      ensures match LastWriter(p, n + 1, b)
              case None => after[b] == 0
              case Some(i) => FromFile(file, p, i, b, after[b])
    {
      if Writes(p, n, b) {
        assert after[b] == file[s.offset + (b - at)];
      } else {
        assert after[b] == image[b];
      }
    }
  }

  method FindSpan(ps: seq<Segment>) returns (r: Result<Span>)
    ensures r == SpanOf(ps, |ps|)
  {
    hide AlignDown, AlignUp, IsPowerOfTwo;
    var low: nat := LIMIT - 1;
    var end: nat := 0;
    var loaded: seq<Segment> := [];
    for n := 0 to |ps|
      invariant SpanOf(ps, n) == Ok(Span(low, end, loaded))
    {
      SpanStops(ps, n + 1, |ps|);
      var s := ps[n];
      if s.load && s.memsz != 0 {
        if s.filesz > s.memsz {
          return Err(ENOEXEC);
        }
        PageIsPower();
        AlignDownIsFloor(s.vaddr, PAGE);
        var at := AlignDown(s.vaddr, PAGE);
        var misalign := s.vaddr - at;
        if s.memsz + misalign >= LIMIT {
          return Err(ENOMEM);
        }
        var span := AlignUp(s.memsz + misalign, PAGE);
        if span.None? || at + span.value >= LIMIT {
          return Err(ENOMEM);
        }
        low := if at < low then at else low;
        end := if at + span.value > end then at + span.value else end;
        loaded := loaded + [s];
      }
    }
    return Ok(Span(low, end, loaded));
  }

  lemma {:induction false} SpanStops(ps: seq<Segment>, i: nat, n: nat)
    requires i <= n <= |ps|
    ensures SpanOf(ps, i).Err? ==> SpanOf(ps, n) == SpanOf(ps, i)
    decreases n
  {
    hide SpanOne;
    if i < n { SpanStops(ps, i, n - 1); }
  }

  method CopySegments(file: seq<Byte>, p: Span) returns (r: Result<array<Byte>>)
    requires Spans(p) && p.loaded != []
    ensures r.Ok? <==> forall i :: 0 <= i < |p.loaded| ==> FileCovers(file, p.loaded[i])
    ensures r.Ok? ==> fresh(r.value) && Latest(file, p, |p.loaded|, r.value[..])
    ensures r.Err? ==> r.error == ENOEXEC
  {
    hide Latest, Spans;
    SpanWidth(p);
    var image := new Byte[p.end - p.low](i => 0);
    LatestZero(file, p, image[..]);
    for n := 0 to |p.loaded|
      invariant Latest(file, p, n, image[..])
      invariant forall i :: 0 <= i < n ==> FileCovers(file, p.loaded[i])
    {
      var s := p.loaded[n];
      if s.offset + s.filesz > |file| {
        return Err(ENOEXEC);
      }
      SegmentInside(p, n);
      LatestCopied(file, p, n, image[..]);
      CopyAt(image, s.vaddr - p.low, file[s.offset..s.offset + s.filesz]);
    }
    return Ok(image);
  }

  /** What a shared object must meet to be loaded. */
  ghost predicate LoadableDyn(file: seq<Byte>, ps: seq<Segment>) {
    && SpanOf(ps, |ps|).Ok? && SpanOf(ps, |ps|).value.loaded != []
    && forall i :: 0 <= i < |SpanOf(ps, |ps|).value.loaded| ==> FileCovers(file, SpanOf(ps, |ps|).value.loaded[i])
  }

  /** `load_image_dyn`. */
  method LoadImageDyn(file: seq<Byte>, ps: seq<Segment>) returns (r: Result<(array<Byte>, nat)>)
    ensures r.Ok? <==> LoadableDyn(file, ps)
    ensures r.Err? ==> r.error == if SpanOf(ps, |ps|).Err? then SpanOf(ps, |ps|).error else ENOEXEC
    ensures r.Ok? ==>
              var p := SpanOf(ps, |ps|).value;
              && r.value.1 == p.low && p.loaded == LoadedOnly(ps, |ps|) && fresh(r.value.0)
              && Spans(p) && Latest(file, p, |p.loaded|, r.value.0[..])
  {
    hide SpanOf, Latest, Spans;
    var p := FindSpan(ps);
    if p.Err? {
      return Err(p.error);
    }
    SpanSound(ps, |ps|);
    if p.value.loaded == [] {
      return Err(ENOEXEC);
    }
    var image := CopySegments(file, p.value);
    if image.Err? {
      return Err(image.error);
    }
    return Ok((image.value, p.value.low));
  }
}
