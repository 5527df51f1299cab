/**
  The x86-64 signal frame (petra/src/arch/x86_64/signal.rs): its byte layout, where it is placed, and what
  restoring it gives back.
*/
module SignalFrame {
  import opened Words
  import opened Buffers
  import opened Signals

  // Buffers filled field by field.

  datatype Field = Field(at: nat, bytes: seq<Byte>)

  /** Fields lie inside the buffer, and none overlaps a later one. */
  predicate Disjoint(fs: seq<Field>, n: nat) {
    && (forall i :: 0 <= i < |fs| ==> fs[i].at + |fs[i].bytes| <= n)
    && (forall i, j :: 0 <= i < j < |fs| ==> fs[i].at + |fs[i].bytes| <= fs[j].at)
  }

  /** A zeroed buffer after writing the first `k` fields. */
  function Image(n: nat, fs: seq<Field>, k: nat): (r: seq<Byte>)
    requires k <= |fs| && Disjoint(fs, n)
    ensures |r| == n
  {
    if k == 0 then Zeros(n) else Put(Image(n, fs, k - 1), fs[k - 1].at, fs[k - 1].bytes)
  }

  lemma ImageZero(n: nat, fs: seq<Field>, b: seq<Byte>)
    requires Disjoint(fs, n) && |b| == n && forall i :: 0 <= i < n ==> b[i] == 0
    ensures b == Image(n, fs, 0)
  {
  }

  /** Each field can be read back where it was written. */
  lemma {:induction false} ReadBack(n: nat, fs: seq<Field>, k: nat, i: nat)
    requires i < k <= |fs| && Disjoint(fs, n)
    ensures Image(n, fs, k)[fs[i].at..fs[i].at + |fs[i].bytes|] == fs[i].bytes
    decreases k
  {
    hide Put;
    PutSlices(Image(n, fs, k - 1), fs[k - 1].at, fs[k - 1].bytes, fs[i].at, fs[i].at + |fs[i].bytes|);
    if i < k - 1 {
      ReadBack(n, fs, k - 1, i);
    }
  }

  /** A byte that no field covers stays zero. */
  lemma {:induction false} Untouched(n: nat, fs: seq<Field>, k: nat, p: nat)
    requires k <= |fs| && Disjoint(fs, n) && p < n
    requires forall i :: 0 <= i < k ==> p < fs[i].at || fs[i].at + |fs[i].bytes| <= p
    ensures Image(n, fs, k)[p] == 0
    decreases k
  {
    if k > 0 { Untouched(n, fs, k - 1, p); }
  }

  /** One `copy_from_slice` of the sequence that fills a buffer. */
  method CopyField(buf: array<Byte>, at: nat, bytes: seq<Byte>, ghost fs: seq<Field>, ghost k: nat)
    requires Disjoint(fs, buf.Length) && k < |fs| && fs[k] == Field(at, bytes)
    requires buf[..] == Image(buf.Length, fs, k)
    modifies buf
    ensures buf[..] == Image(buf.Length, fs, k + 1)
  {
    CopyAt(buf, at, bytes);
  }

  function Words64(ws: seq<U64>): (r: seq<Byte>)
    ensures |r| == 8 * |ws|
  {
    if ws == [] then [] else Words64(ws[..|ws| - 1]) + ToLE(ws[|ws| - 1], 8)
  }

  lemma {:induction false} WordAt(ws: seq<U64>, i: nat)
    requires i < |ws|
    ensures Words64(ws)[8 * i..8 * i + 8] == ToLE(ws[i], 8)
  {
    hide ToLE;
    var front := ws[..|ws| - 1];
    if i < |ws| - 1 {
      WordAt(front, i);
      assert Words64(ws)[8 * i..8 * i + 8] == Words64(front)[8 * i..8 * i + 8];
    }
  }

  method CopyWords(buf: array<Byte>, at: nat, ws: seq<U64>)
    requires at + 8 * |ws| <= buf.Length
    modifies buf
    ensures buf[..] == Put(old(buf[..]), at, Words64(ws))
  {
    hide ToLE;
    ghost var before := buf[..];
    assert before == Put(before, at, []);
    for i := 0 to |ws|
      invariant buf[..] == Put(before, at, Words64(ws[..i]))
    {
      CopyAt(buf, at + 8 * i, ToLE(ws[i], 8));
      assert ws[..i + 1][..i] == ws[..i];
      PutPut(before, at, Words64(ws[..i]), ToLE(ws[i], 8));
    }
    assert ws[..|ws|] == ws;
  }

  method CopyWordsField(buf: array<Byte>, at: nat, ws: seq<U64>, ghost fs: seq<Field>, ghost k: nat)
    requires Disjoint(fs, buf.Length) && k < |fs| && fs[k] == Field(at, Words64(ws))
    requires buf[..] == Image(buf.Length, fs, k)
    modifies buf
    ensures buf[..] == Image(buf.Length, fs, k + 1)
  {
    hide Words64;
    CopyWords(buf, at, ws);
  }

  // Numbers on the wire.

  function FromI32(x: I32): U32 { if x < 0 then x + 0x1_0000_0000 else x }

  function AsI32(x: U32): I32 { if x < 0x8000_0000 then x else x - 0x1_0000_0000 }

  function Read32(s: seq<Byte>): U32
    requires |s| == 4
  {
    LEBound(s);
    Pow256Values();
    LE(s)
  }

  function Read64(s: seq<Byte>): U64
    requires |s| == 8
  {
    LEBound(s);
    Pow256Values();
    LE(s)
  }

  lemma ReadsBack32(x: U32)
    ensures Read32(ToLE(x, 4)) == x
  {
    hide LE, ToLE;
    LE32(x);
  }

  lemma ReadsBack64(x: U64)
    ensures Read64(ToLE(x, 8)) == x
  {
    hide LE, ToLE;
    LE64(x);
  }

  function ReadWords(s: seq<Byte>, n: nat): (r: seq<U64>)
    requires |s| == 8 * n
    ensures |r| == n
  {
    seq(n, i requires 0 <= i < n => Read64(s[8 * i..8 * i + 8]))
  }

  lemma ReadWordsAt(s: seq<Byte>, n: nat, i: nat)
    requires |s| == 8 * n && i < n
    ensures ReadWords(s, n)[i] == Read64(s[8 * i..8 * i + 8])
  {
    hide Read64;
  }

  lemma ReadsBackWords(ws: seq<U64>)
    ensures ReadWords(Words64(ws), |ws|) == ws
  {
    hide ToLE, Words64, Read64, ReadWords;
    forall i | 0 <= i < |ws|
      ensures ReadWords(Words64(ws), |ws|)[i] == ws[i]
    {
      WordAt(ws, i);
      ReadWordsAt(Words64(ws), |ws|, i);
      ReadsBack64(ws[i]);
    }
  }

  // siginfo_t.

  const TIMER: I32 := -2

  function InfoFields(x: SigInfo): (fs: seq<Field>)
    ensures Disjoint(fs, 128)
  {
    var head := [Field(0, ToLE(FromI32(x.signo), 4)), Field(4, ToLE(FromI32(x.errno), 4)),
                 Field(8, ToLE(FromI32(x.code), 4))];
    if x.code == TIMER then
      head + [Field(16, ToLE(Low32(x.addr), 4)), Field(20, ToLE(0, 4)), Field(24, ToLE(x.value, 8))]
    else
      head + [Field(16, ToLE(x.addr, 8)), Field(24, ToLE(FromI32(x.pid), 4)), Field(28, ToLE(x.uid, 4)),
              Field(32, ToLE(FromI32(x.status), 4))]
  }

  function EncodedInfo(x: SigInfo): (r: seq<Byte>)
    ensures |r| == 128
  {
    Image(128, InfoFields(x), |InfoFields(x)|)
  }

  /** `encode_siginfo`. */
  method EncodeSigInfo(x: SigInfo) returns (buf: array<Byte>)
    ensures fresh(buf) && buf[..] == EncodedInfo(x)
  {
    hide ToLE, Disjoint, Image, Put;
    buf := new Byte[128](i => 0);
    ghost var fs := InfoFields(x);
    ImageZero(128, fs, buf[..]);
    CopyField(buf, 0, ToLE(FromI32(x.signo), 4), fs, 0);
    CopyField(buf, 4, ToLE(FromI32(x.errno), 4), fs, 1);
    CopyField(buf, 8, ToLE(FromI32(x.code), 4), fs, 2);
    if x.code == TIMER {
      CopyField(buf, 16, ToLE(Low32(x.addr), 4), fs, 3);
      CopyField(buf, 20, ToLE(0, 4), fs, 4);
      CopyField(buf, 24, ToLE(x.value, 8), fs, 5);
    } else {
      CopyField(buf, 16, ToLE(x.addr, 8), fs, 3);
      CopyField(buf, 24, ToLE(FromI32(x.pid), 4), fs, 4);
      CopyField(buf, 28, ToLE(x.uid, 4), fs, 5);
      CopyField(buf, 32, ToLE(FromI32(x.status), 4), fs, 6);
    }
  }

  function DecodedInfo(b: seq<Byte>): SigInfo
    requires |b| == 128
  {
    var signo, errno := AsI32(Read32(b[0..4])), AsI32(Read32(b[4..8]));
    var code := AsI32(Read32(b[8..12]));
    if code == TIMER then
      SigInfo(signo, errno, code, Read32(b[16..20]), 0, 0, 0, 0, 0, Read64(b[24..32]))
    else
      SigInfo(signo, errno, code, Read64(b[16..24]), AsI32(Read32(b[24..28])), Read32(b[28..32]),
              AsI32(Read32(b[32..36])), 0, 0, 0)
  }

  /** What the wire form of a `siginfo_t` carries. */
  function CarriedInfo(x: SigInfo): SigInfo {
    if x.code == TIMER then x.(addr := Low32(x.addr), pid := 0, uid := 0, status := 0, utime := 0, stime := 0)
    else x.(utime := 0, stime := 0, value := 0)
  }

  lemma InfoRoundTrip(x: SigInfo)
    ensures DecodedInfo(EncodedInfo(x)) == CarriedInfo(x)
  {
    hide ToLE, Read32, Read64, Image, Disjoint;
    var fs := InfoFields(x);
    forall i | 0 <= i < |fs|
      ensures EncodedInfo(x)[fs[i].at..fs[i].at + |fs[i].bytes|] == fs[i].bytes
    {
      ReadBack(128, fs, |fs|, i);
    }
    ReadsBack32(FromI32(x.signo));
    ReadsBack32(FromI32(x.errno));
    ReadsBack32(FromI32(x.code));
    assert fs[0].at == 0 && fs[1].at == 4 && fs[2].at == 8 && fs[3].at == 16;
    if x.code == TIMER {
      assert fs[5].at == 24;
      ReadsBack32(Low32(x.addr));
      ReadsBack64(x.value);
    } else {
      assert fs[4].at == 24 && fs[5].at == 28 && fs[6].at == 32;
      ReadsBack64(x.addr);
      ReadsBack32(FromI32(x.pid));
      ReadsBack32(x.uid);
      ReadsBack32(FromI32(x.status));
    }
  }

  // The frame.

  datatype SigStack = SigStack(sp: U64, flags: U32, size: U64)

  type Gregs = g: seq<U64> | |g| == 23 witness seq(23, i => 0)

  type Reserved = g: seq<U64> | |g| == 8 witness seq(8, i => 0)

  datatype MContext = MContext(gregs: Gregs, fpregs: U64, reserved: Reserved)

  datatype UContext = UContext(flags: U64, link: U64, stack: SigStack, mcontext: MContext, sigmask: SigSet)

  datatype Frame = Frame(pretcode: U64, uc: UContext, info: SigInfo)

  const FRAME_LEN := 560

  function FrameFields(f: Frame): (fs: seq<Field>)
    ensures |fs| == 10
  {
    [Field(0, ToLE(f.pretcode, 8)), Field(8, ToLE(f.uc.flags, 8)), Field(16, ToLE(f.uc.link, 8)),
     Field(24, ToLE(f.uc.stack.sp, 8)), Field(32, ToLE(f.uc.stack.flags, 4)), Field(40, ToLE(f.uc.stack.size, 8)),
     Field(48, Words64(f.uc.mcontext.gregs)), Field(232, ToLE(f.uc.mcontext.fpregs, 8)),
     Field(304, Words64(f.uc.sigmask)), Field(432, EncodedInfo(f.info))]
  }

  lemma FrameDisjoint(f: Frame)
    ensures Disjoint(FrameFields(f), 560)
  {
    hide ToLE, Words64, EncodedInfo;
  }

  function Encoded(f: Frame): (r: seq<Byte>)
    ensures |r| == 560
  {
    FrameDisjoint(f);
    Image(560, FrameFields(f), 10)
  }

  /** `encode_sigset`. */
  method EncodeSigSet(s: SigSet) returns (buf: array<Byte>)
    ensures fresh(buf) && buf[..] == Words64(s)
  {
    buf := new Byte[128](i => 0);
    CopyWords(buf, 0, s);
  }

  /** `to_bytes`. */
  method ToBytes(f: Frame) returns (buf: array<Byte>)
    ensures fresh(buf) && buf[..] == Encoded(f)
  {
    hide ToLE, Words64, EncodedInfo, Disjoint, Image, Put;
    buf := new Byte[560](i => 0);
    ghost var fs := FrameFields(f);
    FrameDisjoint(f);
    ImageZero(560, fs, buf[..]);
    CopyField(buf, 0, ToLE(f.pretcode, 8), fs, 0);
    CopyField(buf, 8, ToLE(f.uc.flags, 8), fs, 1);
    CopyField(buf, 16, ToLE(f.uc.link, 8), fs, 2);
    CopyField(buf, 24, ToLE(f.uc.stack.sp, 8), fs, 3);
    CopyField(buf, 32, ToLE(f.uc.stack.flags, 4), fs, 4);
    CopyField(buf, 40, ToLE(f.uc.stack.size, 8), fs, 5);
    CopyWordsField(buf, 48, f.uc.mcontext.gregs, fs, 6);
    CopyField(buf, 232, ToLE(f.uc.mcontext.fpregs, 8), fs, 7);
    var mask := EncodeSigSet(f.uc.sigmask);
    CopyField(buf, 304, mask[..], fs, 8);
    var info := EncodeSigInfo(f.info);
    CopyField(buf, 432, info[..], fs, 9);
  }

  function Decoded(b: seq<Byte>): Frame
    requires |b| == 560
  {
    Frame(Read64(b[0..8]),
          UContext(Read64(b[8..16]), Read64(b[16..24]),
                   SigStack(Read64(b[24..32]), Read32(b[32..36]), Read64(b[40..48])),
                   MContext(ReadWords(b[48..232], 23), Read64(b[232..240]), seq(8, i => 0)),
                   ReadWords(b[304..432], 16)),
          DecodedInfo(b[432..560]))
  }

  method DecodeWords(buf: array<Byte>, at: nat, n: nat) returns (ws: seq<U64>)
    requires at + 8 * n <= buf.Length
    ensures ws == ReadWords(buf[at..at + 8 * n], n)
  {
    hide Read64;
    var s := buf[at..at + 8 * n];
    ws := [];
    for i := 0 to n
      invariant |ws| == i && forall k :: 0 <= k < i ==> ws[k] == Read64(s[8 * k..8 * k + 8])
    {
      SliceOfSlice(buf[..], at, 8 * n, 8 * i, 8 * i + 8);
      ws := ws + [Read64(buf[at + 8 * i..at + 8 * i + 8])];
    }
  }

  lemma SliceOfSlice(b: seq<Byte>, at: nat, n: nat, i: nat, j: nat)
    requires i <= j <= n && at + n <= |b|
    ensures b[at..at + n][i..j] == b[at + i..at + j]
  {
    var s, t := b[at..at + n][i..j], b[at + i..at + j];
    forall k | 0 <= k < j - i
      ensures s[k] == t[k]
    {
      assert s[k] == b[at..at + n][i + k];
    }
  }

  method DecodeInfo(buf: array<Byte>) returns (x: SigInfo)
    requires buf.Length == 560
    ensures x == DecodedInfo(buf[432..560])
  {
    hide Read32, Read64;
    ghost var b := buf[..];
    assert buf[432..560] == b[432..432 + 128];
    SliceOfSlice(b, 432, 128, 0, 4);
    SliceOfSlice(b, 432, 128, 4, 8);
    SliceOfSlice(b, 432, 128, 8, 12);
    var signo, errno := AsI32(Read32(buf[432..436])), AsI32(Read32(buf[436..440]));
    var code := AsI32(Read32(buf[440..444]));
    if code == TIMER {
      SliceOfSlice(b, 432, 128, 16, 20);
      SliceOfSlice(b, 432, 128, 24, 32);
      x := SigInfo(signo, errno, code, Read32(buf[448..452]), 0, 0, 0, 0, 0, Read64(buf[456..464]));
    } else {
      SliceOfSlice(b, 432, 128, 16, 24);
      SliceOfSlice(b, 432, 128, 24, 28);
      SliceOfSlice(b, 432, 128, 28, 32);
      SliceOfSlice(b, 432, 128, 32, 36);
      x := SigInfo(signo, errno, code, Read64(buf[448..456]), AsI32(Read32(buf[456..460])), Read32(buf[460..464]),
                   AsI32(Read32(buf[464..468])), 0, 0, 0);
    }
  }

  /** `from_bytes`. */
  method FromBytes(buf: array<Byte>) returns (f: Frame)
    requires buf.Length == 560
    ensures f == Decoded(buf[..])
  {
    hide Read32, Read64, ReadWords, DecodedInfo;
    var gregs := DecodeWords(buf, 48, 23);
    var sigmask := DecodeWords(buf, 304, 16);
    var info := DecodeInfo(buf);
    f := Frame(Read64(buf[0..8]),
               UContext(Read64(buf[8..16]), Read64(buf[16..24]),
                        SigStack(Read64(buf[24..32]), Read32(buf[32..36]), Read64(buf[40..48])),
                        MContext(gregs, Read64(buf[232..240]), seq(8, i => 0)),
                        sigmask),
               info);
  }

  /** What the wire form of a frame carries: everything but the reserved words and part of the `siginfo_t`. */
  function Carried(f: Frame): Frame {
    f.(uc := f.uc.(mcontext := f.uc.mcontext.(reserved := seq(8, i => 0))), info := CarriedInfo(f.info))
  }

  /** Where each field lies; the padding after `ss_flags` and the reserved words are zero. */
  lemma FieldsAt(f: Frame)
    ensures var b := Encoded(f); b[0..8] == ToLE(f.pretcode, 8) && b[8..16] == ToLE(f.uc.flags, 8)
    ensures var b := Encoded(f); b[16..24] == ToLE(f.uc.link, 8) && b[24..32] == ToLE(f.uc.stack.sp, 8)
    ensures var b := Encoded(f); b[32..36] == ToLE(f.uc.stack.flags, 4) && b[40..48] == ToLE(f.uc.stack.size, 8)
    ensures var b := Encoded(f); b[48..232] == Words64(f.uc.mcontext.gregs)
    ensures var b := Encoded(f); b[232..240] == ToLE(f.uc.mcontext.fpregs, 8)
    ensures var b := Encoded(f); b[304..432] == Words64(f.uc.sigmask) && b[432..560] == EncodedInfo(f.info)
    ensures var b := Encoded(f); b[36..40] == Zeros(4) && b[240..304] == Zeros(64)
  {
    hide ToLE, Words64, EncodedInfo, Image, Disjoint;
    var fs := FrameFields(f);
    FrameDisjoint(f);
    forall i | 0 <= i < 10
      ensures Encoded(f)[fs[i].at..fs[i].at + |fs[i].bytes|] == fs[i].bytes
    {
      ReadBack(560, fs, 10, i);
    }
    assert fs[0].at == 0 && fs[1].at == 8 && fs[2].at == 16 && fs[3].at == 24 && fs[4].at == 32;
    assert fs[5].at == 40 && fs[6].at == 48 && fs[7].at == 232 && fs[8].at == 304 && fs[9].at == 432;
    forall p | 36 <= p < 40 || 240 <= p < 304
      ensures Encoded(f)[p] == 0
    {
      Untouched(560, fs, 10, p);
    }
  }

  lemma RoundTrip(f: Frame)
    ensures Decoded(Encoded(f)) == Carried(f)
  {
    hide ToLE, Words64, EncodedInfo, Encoded, Read32, Read64, ReadWords, DecodedInfo;
    FieldsAt(f);
    ReadsBack64(f.pretcode);
    ReadsBack64(f.uc.flags);
    ReadsBack64(f.uc.link);
    ReadsBack64(f.uc.stack.sp);
    ReadsBack32(f.uc.stack.flags);
    ReadsBack64(f.uc.stack.size);
    ReadsBackWords(f.uc.mcontext.gregs);
    ReadsBack64(f.uc.mcontext.fpregs);
    ReadsBackWords(f.uc.sigmask);
    InfoRoundTrip(f.info);
  }

  /** `from_bytes` is the inverse of `to_bytes` exactly on these frames. */
  predicate Carriable(f: Frame) {
    && f.uc.mcontext.reserved == seq(8, i => 0)
    && f.info.utime == 0 && f.info.stime == 0
    && (if f.info.code == TIMER then f.info.addr < 0x1_0000_0000 && f.info.pid == f.info.uid == f.info.status == 0
        else f.info.value == 0)
  }

  lemma InverseIffCarriable(f: Frame)
    ensures Decoded(Encoded(f)) == f <==> Carriable(f)
  {
    hide Encoded, Decoded;
    RoundTrip(f);
  }

  /** A timer expiry with an address above 32 bits. */
  lemma TimerAddressIsCut()
    ensures var f := Frame(0, UContext(0, 0, SigStack(0, 0, 0), MContext(seq(23, i => 0), 0, seq(8, i => 0)), Empty()),
                           SigInfo(14, 0, TIMER, 0x1_0000_0000, 0, 0, 0, 0, 0, 0));
            Decoded(Encoded(f)) == f.(info := f.info.(addr := 0)) && Decoded(Encoded(f)) != f
  {
    hide Encoded, Decoded, Empty;
    var f := Frame(0, UContext(0, 0, SigStack(0, 0, 0), MContext(seq(23, i => 0), 0, seq(8, i => 0)), Empty()),
                   SigInfo(14, 0, TIMER, 0x1_0000_0000, 0, 0, 0, 0, 0, 0));
    RoundTrip(f);
  }

  // Registers.

  datatype Regs = Regs(rax: U64, rbx: U64, rcx: U64, rdx: U64, rsi: U64, rdi: U64, rbp: U64, rsp: U64,
                       r8: U64, r9: U64, r10: U64, r11: U64, r12: U64, r13: U64, r14: U64, r15: U64,
                       rip: U64, rflags: U64)

  /** EFLAGS without the direction and trap flags. */
  function ClearFlags(x: U64): U64 { And64(x, 0xffff_ffff_ffff_ffff - 0x500) }

  lemma ClearFlagsExact(x: U64, i: nat)
    requires i < 64
    ensures Bit(ClearFlags(x), i) <==> Bit(x, i) && i != 8 && i != 10
  {
    hide And, Pow2;
    TwoTo64();
    BitAnd(x, 0xffff_ffff_ffff_ffff - 0x500, i);
    BitNot(64, 0x500, i);
    BitsOf500(i);
  }

  lemma BitsOf500(i: nat)
    ensures Bit(0x500, i) <==> i == 8 || i == 10
  {
    assert Shl(8, 5) == 0x500;
    hide Shl;
    BitOfShifted(8, 5, i);
    if i >= 11 {
      assert Bit(5, i - 8) == Bit(2, i - 9) && Bit(2, i - 9) == Bit(1, i - 10) && Bit(1, i - 10) == Bit(0, i - 11);
      BitZero(i - 11);
    }
  }

  lemma {:induction false} BitOfShifted(k: nat, x: nat, i: nat)
    ensures Bit(Shl(k, x), i) <==> i >= k && Bit(x, i - k)
    decreases k
  {
    if k > 0 && i > 0 {
      BitOfShifted(k - 1, x, i - 1);
    }
  }

  function Capture(r: Regs): MContext {
    MContext([r.r8, r.r9, r.r10, r.r11, r.r12, r.r13, r.r14, r.r15, r.rdi, r.rsi, r.rbp, r.rbx, r.rdx, r.rax, r.rcx,
              r.rsp, r.rip, ClearFlags(r.rflags), 0x2b_0023, 0, 0, 0, 0], 0, seq(8, i => 0))
  }

  function NewFrame(r: Regs, info: SigInfo, mask: SigSet, pretcode: U64): Frame {
    Frame(pretcode, UContext(0, 0, SigStack(0, 0, 0), Capture(r), mask), info)
  }

  /** `is_canonical`. */
  predicate Canonical(addr: U64) {
    addr / 0x1_0000_0000_0000 == 0 || addr / 0x1_0000_0000_0000 == 0xffff
  }

  /** The canonical form: bits 47 to 63 are all equal. */
  predicate SignExtended(addr: U64) { addr < 0x8000_0000_0000 || addr >= 0xffff_8000_0000_0000 }

  /** `is_canonical` agrees with the canonical form exactly where bit 47 agrees with the 16 bits it looks at. */
  lemma CanonicalIff(addr: U64)
    ensures SignExtended(addr) ==> Canonical(addr)
    ensures (Canonical(addr) <==> SignExtended(addr)) <==>
            !(0x8000_0000_0000 <= addr < 0x1_0000_0000_0000 || 0xffff_0000_0000_0000 <= addr < 0xffff_8000_0000_0000)
  {
  }

  lemma Bit47Ignored()
    ensures Canonical(0x8000_0000_0000) && !SignExtended(0x8000_0000_0000)
  {
  }

  /** `Restore::from_frame`; `exec` is the set of addresses in executable mappings. */
  function Restore(f: Frame, exec: set<U64>): Option<Regs> {
    var g := f.uc.mcontext.gregs;
    if !Canonical(g[16]) || !Canonical(g[15]) || g[16] !in exec then None
    else Some(Regs(g[13], g[11], g[14], g[12], g[9], g[8], g[10], g[15], g[0], g[1], g[2], g[3], g[4], g[5], g[6], g[7],
                   g[16], g[17]))
  }

  /** Restoring an untouched frame gives back every register, DF and TF cleared, and the mask. */
  lemma RestoreOfCapture(r: Regs, info: SigInfo, mask: SigSet, pretcode: U64, exec: set<U64>)
    ensures var f := Decoded(Encoded(NewFrame(r, info, mask, pretcode)));
            && f.uc.sigmask == mask
            && Restore(f, exec) ==
               if Canonical(r.rip) && Canonical(r.rsp) && r.rip in exec
               then Some(r.(rflags := ClearFlags(r.rflags))) else None
  {
    hide Encoded, Decoded, ClearFlags, Canonical;
    RoundTrip(NewFrame(r, info, mask, pretcode));
  }

  // Entering a handler.

  datatype Redirect = Redirect(rip: U64, rsp: U64, rdi: U64, rsi: U64, rdx: U64)

  function WithSigInfo(handler: U64, sig: Signal, frame: U64): Redirect {
    Redirect(handler, frame, sig, WrapAdd64(frame, 8 + 424), WrapAdd64(frame, 8))
  }

  function Plain(handler: U64, sig: Signal, frame: U64): Redirect {
    Redirect(handler, frame, sig, 0, 0)
  }

  function Redirected(r: Regs, d: Redirect): Regs {
    r.(rip := d.rip, rsp := d.rsp, rax := 0, rdi := d.rdi, rsi := d.rsi, rdx := d.rdx,
       rflags := And64(r.rflags, 0xffff_ffff_ffff_ffff - 0x100))
  }

  // Placement.

  /** An address at which a frame may start, for a stack that ends at `limit`. */
  predicate FitsBelow(limit: U64, a: int) {
    0 <= a && a % 16 == 8 && a + FRAME_LEN <= limit
  }

  /** The largest such address, or `None` if there is none. */
  ghost predicate IsLargest(limit: U64, r: Option<U64>) {
    match r
    case None => forall a :: !FitsBelow(limit, a)
    case Some(a) => FitsBelow(limit, a) && forall b :: FitsBelow(limit, b) ==> b <= a
  }

  lemma AndBlock(x: U64)
    ensures And64(x, 0xffff_ffff_ffff_fff0) == x - x % 16
  {
    assert Pow2(4) == 16;
    AndHigh(4, 16, x);
  }

  function AlignFrameBelow(limit: U64): Option<U64> {
    AndBlock(limit);
    var block := And64(limit, 0xffff_ffff_ffff_fff0);
    var start := if limit - block != 8 then block - 16 else block;
    if start < FRAME_LEN then None else Some(start - FRAME_LEN + 8)
  }

  /** A placed frame fits and is aligned for a function entry. */
  lemma PlacedFits(limit: U64)
    ensures AlignFrameBelow(limit).Some? ==> FitsBelow(limit, AlignFrameBelow(limit).value)
  {
    hide And64;
    AndBlock(limit);
  }

  /** The frame starts at the largest suitable address exactly when the limit is at most eight bytes into its
      block, or there is no room anyway. Past that the code gives up a block it could have used. */
  lemma LargestIff(limit: U64)
    ensures IsLargest(limit, AlignFrameBelow(limit)) <==> limit % 16 <= 8 || limit < 568
  {
    hide And64;
    AndBlock(limit);
    var best := limit - limit % 16 + 8 - FRAME_LEN;
    if limit % 16 > 8 && limit >= 568 {
      assert FitsBelow(limit, best);
    }
  }

  lemma NotLargest()
    ensures AlignFrameBelow(0x100f) == Some(0xdc8) && FitsBelow(0x100f, 0xdd8)
  {
    hide And64;
    AndBlock(0x100f);
  }

  predicate Enabled(s: SigStack) { And32(s.flags, 1) == 0 && s.size > 0 }

  predicate OnStack(s: SigStack, sp: U64) { Enabled(s) && s.sp <= sp < WrapAdd64(s.sp, s.size) }

  /** Where `build_frame` puts the frame; `None` is `NoStack`. */
  function FrameAddr(sp: U64, alt: SigStack, onStack: bool): Option<U64> {
    if onStack && Enabled(alt) && !OnStack(alt, sp) then
      var a := AlignFrameBelow(WrapAdd64(alt.sp, alt.size));
      if a.Some? && a.value >= alt.sp then a else None
    else
      var a := AlignFrameBelow(sp);
      if a.Some? && a.value >= 4096 then a else None
  }

  /** A frame lies wholly on the alternate stack, or wholly below the stack pointer and above the first page, and the
      arguments of a three-argument handler point at its `ucontext` and `siginfo_t`. */
  lemma FrameAddrSafe(sp: U64, alt: SigStack, onStack: bool, handler: U64, sig: Signal)
    requires FrameAddr(sp, alt, onStack).Some?
    ensures var a := FrameAddr(sp, alt, onStack).value;
            && a % 16 == 8
            && (if onStack && Enabled(alt) && !OnStack(alt, sp)
                then alt.sp <= a && a + FRAME_LEN <= alt.sp + alt.size
                else 4096 <= a && a + FRAME_LEN <= sp)
            && WithSigInfo(handler, sig, a).rdx == a + 8 && WithSigInfo(handler, sig, a).rsi == a + 432
  {
    hide AlignFrameBelow, And32;
    PlacedFits(sp);
    PlacedFits(WrapAdd64(alt.sp, alt.size));
  }
}
