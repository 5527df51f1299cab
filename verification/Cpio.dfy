/**
  The reader of newc CPIO archives (petra/src/utils/cpio.rs).
*/
module Cpio {
  import opened Words

  datatype CpioError = InvalidMagic | InvalidHeader | TruncatedData

  datatype FileType = Socket | Symlink | File | BlockDevice | Directory | CharDevice | Fifo | Unknown

  datatype Entry = Entry(name: seq<Byte>, data: seq<Byte>, ino: U32, mode: U32, uid: U32, gid: U32,
                         nlink: U32, mtime: U32, filesize: U32, fileType: FileType)

  // Hexadecimal fields.

  function Digit(b: Byte): Option<nat> {
    if 0x30 <= b <= 0x39 then Some(b - 0x30)
    else if 0x41 <= b <= 0x46 then Some(b - 0x41 + 10)
    else if 0x61 <= b <= 0x66 then Some(b - 0x61 + 10)
    else None
  }

  function Digits(s: seq<Byte>): Option<nat> {
    if s == [] then Some(0)
    else match (Digits(s[..|s| - 1]), Digit(s[|s| - 1]))
      case (Some(v), Some(d)) => Some(16 * v + d)
      case _ => None
  }

  /** `parse_hex`: `from_str_radix` takes a leading `+`, digits of either case, and nothing else. */
  function ParseHex(s: seq<Byte>): Option<nat>
    requires |s| == 8
  {
    if s[0] == 0x2b then Digits(s[1..]) else Digits(s)
  }

  function HexDigit(d: nat): Byte
    requires d < 16
  {
    if d < 10 then 0x30 + d else 0x41 + d - 10
  }

  function Hex(v: nat, n: nat): (s: seq<Byte>)
    ensures |s| == n
  {
    if n == 0 then [] else Hex(v / 16, n - 1) + [HexDigit(v % 16)]
  }

  function Pow16(n: nat): nat { if n == 0 then 1 else 16 * Pow16(n - 1) }

  lemma {:induction false} DigitsHex(v: nat, n: nat)
    requires v < Pow16(n)
    ensures Digits(Hex(v, n)) == Some(v)
    decreases n
  {
    if n > 0 {
      DigitsHex(v / 16, n - 1);
      var s := Hex(v, n);
      assert s[..n - 1] == Hex(v / 16, n - 1);
    }
  }

  lemma {:induction false} DigitsBound(s: seq<Byte>)
    ensures Digits(s).Some? ==> Digits(s).value < Pow16(|s|)
  {
    if s != [] { DigitsBound(s[..|s| - 1]); }
  }

  lemma Pow16Eight()
    ensures Pow16(8) == 0x1_0000_0000 && Pow16(7) == 0x1000_0000
  {
    assert Pow16(4) == 0x1_0000;
  }

  lemma HexIsU32(s: seq<Byte>)
    requires |s| == 8
    ensures ParseHex(s).Some? ==> ParseHex(s).value < 0x1_0000_0000
  {
    hide Digits, Pow16;
    Pow16Eight();
    DigitsBound(s);
    DigitsBound(s[1..]);
  }

  lemma ParseHexOfHex(v: U32)
    ensures ParseHex(Hex(v, 8)) == Some(v)
  {
    hide Digits, Pow16;
    Pow16Eight();
    FirstDigit(v, 8);
    DigitsHex(v, 8);
  }

  lemma {:induction false} FirstDigit(v: nat, n: nat)
    requires n > 0
    ensures Hex(v, n)[0] != 0x2b
    decreases n
  {
    if n > 1 { FirstDigit(v / 16, n - 1); }
  }

  // UTF-8, table 3-7 of the Unicode standard.

  predicate Tail(b: Byte) { 0x80 <= b <= 0xbf }

  /** The length of the well-formed sequence at the front, or 0. */
  function Utf8Length(s: seq<Byte>): (n: nat)
    requires s != []
    ensures n <= |s| && n <= 4
  {
    var b := s[0];
    if b <= 0x7f then 1
    else if 0xc2 <= b <= 0xdf && |s| >= 2 && Tail(s[1]) then 2
    else if b == 0xe0 && |s| >= 3 && 0xa0 <= s[1] <= 0xbf && Tail(s[2]) then 3
    else if (0xe1 <= b <= 0xec || 0xee <= b <= 0xef) && |s| >= 3 && Tail(s[1]) && Tail(s[2]) then 3
    else if b == 0xed && |s| >= 3 && 0x80 <= s[1] <= 0x9f && Tail(s[2]) then 3
    else if b == 0xf0 && |s| >= 4 && 0x90 <= s[1] <= 0xbf && Tail(s[2]) && Tail(s[3]) then 4
    else if 0xf1 <= b <= 0xf3 && |s| >= 4 && Tail(s[1]) && Tail(s[2]) && Tail(s[3]) then 4
    else if b == 0xf4 && |s| >= 4 && 0x80 <= s[1] <= 0x8f && Tail(s[2]) && Tail(s[3]) then 4
    else 0
  }

  predicate ValidUtf8(s: seq<Byte>)
    decreases |s|
  {
    s == [] || (Utf8Length(s) > 0 && ValidUtf8(s[Utf8Length(s)..]))
  }

  // One header, and what follows it.

  /** The zero bytes that bring `n` to a multiple of 4. */
  function Pad4(n: nat): nat { (4 - n % 4) % 4 }

  const MAGIC1: seq<Byte> := [0x30, 0x37, 0x30, 0x37, 0x30, 0x31] // "070701"
  const MAGIC2: seq<Byte> := [0x30, 0x37, 0x30, 0x37, 0x30, 0x32] // "070702"
  const TRAILER: seq<Byte> := [0x54, 0x52, 0x41, 0x49, 0x4c, 0x45, 0x52, 0x21, 0x21, 0x21] // "TRAILER!!!"

  function TypeOf(mode: U32): FileType {
    match mode / 0x1000 % 16
    case 12 => Socket
    case 10 => Symlink
    case 8 => File
    case 6 => BlockDevice
    case 4 => Directory
    case 2 => CharDevice
    case 1 => Fifo
    case _ => Unknown
  }

  /** The field that starts at byte `at` of a header. */
  function Field(header: seq<Byte>, at: nat): Option<nat>
    requires |header| == 110 && at + 8 <= 110
  {
    ParseHex(header[at..at + 8])
  }

  /** All fields that the reader looks at are numbers. */
  predicate FieldsParse(header: seq<Byte>)
    requires |header| == 110
  {
    && Field(header, 6).Some? && Field(header, 14).Some? && Field(header, 22).Some? && Field(header, 30).Some?
    && Field(header, 38).Some? && Field(header, 46).Some? && Field(header, 54).Some? && Field(header, 94).Some?
  }

  function U32Field(header: seq<Byte>, at: nat): U32
    requires |header| == 110 && at + 8 <= 110 && Field(header, at).Some?
  {
    HexIsU32(header[at..at + 8]);
    Field(header, at).value
  }

  /** What `next` does at an offset: `Panic` is the slice whose end lies before its start. */
  datatype Outcome = End | Item(entry: Entry, offset: nat) | Fail(error: CpioError) | Panic

  function Next(data: seq<Byte>, offset: nat): Outcome {
    if offset + 110 > |data| then End
    else
      var header := data[offset..offset + 110];
      if header[0..6] != MAGIC1 && header[0..6] != MAGIC2 then Fail(InvalidMagic)
      else if !FieldsParse(header) then Fail(InvalidHeader)
      else
        var namesize := U32Field(header, 94);
        var filesize := U32Field(header, 54);
        var nameEnd := offset + 110 + namesize;
        if nameEnd > |data| then Fail(TruncatedData)
        else if namesize == 0 then Panic
        else
          var name := data[offset + 110..nameEnd - 1];
          if !ValidUtf8(name) then Fail(InvalidHeader)
          else if name == TRAILER then End
          else
            var start := nameEnd + Pad4(nameEnd);
            var end := start + filesize;
            if end > |data| then Fail(TruncatedData)
            else
              var mode := U32Field(header, 14);
              Item(Entry(name, data[start..end], U32Field(header, 6), mode,
                         U32Field(header, 22), U32Field(header, 30),
                         U32Field(header, 38), U32Field(header, 46),
                         filesize, TypeOf(mode)),
                   end + Pad4(end))
  }

  /** Each entry moves the offset to a multiple of 4, past its header. */
  lemma NextAdvances(data: seq<Byte>, offset: nat)
    requires Next(data, offset).Item?
    ensures var o := Next(data, offset).offset; o % 4 == 0 && o >= offset + 110 && o <= |data| + 3
  {
    hide FieldsParse, Field, ValidUtf8, Utf8Length;
  }

  // Well-formed records.

  predicate ValidEntry(e: Entry) {
    && |e.name| + 1 < 0x1_0000_0000 && |e.data| == e.filesize
    && ValidUtf8(e.name) && e.name != TRAILER && e.fileType == TypeOf(e.mode)
  }

  function DataStart(e: Entry): nat { 111 + |e.name| + Pad4(111 + |e.name|) }

  function DataEnd(e: Entry): nat { DataStart(e) + |e.data| }

  function RecordLength(e: Entry): nat { DataEnd(e) + Pad4(DataEnd(e)) }

  predicate HasHeader(h: seq<Byte>, namesize: nat) {
    && |h| == 110 && (h[0..6] == MAGIC1 || h[0..6] == MAGIC2)
    && FieldsParse(h) && Field(h, 94) == Some(namesize)
  }

  /** The bytes of an entry: either magic, digits of either case, any padding. */
  predicate IsRecord(b: seq<Byte>, e: Entry) {
    && ValidEntry(e) && |b| == RecordLength(e) && HasHeader(b[..110], |e.name| + 1)
    && Field(b[..110], 6) == Some(e.ino) && Field(b[..110], 14) == Some(e.mode)
    && Field(b[..110], 22) == Some(e.uid) && Field(b[..110], 30) == Some(e.gid)
    && Field(b[..110], 38) == Some(e.nlink) && Field(b[..110], 46) == Some(e.mtime)
    && Field(b[..110], 54) == Some(e.filesize)
    && b[110..110 + |e.name|] == e.name && b[DataStart(e)..DataEnd(e)] == e.data
  }

  predicate IsTrailer(b: seq<Byte>) {
    |b| >= 121 && HasHeader(b[..110], 11) && b[110..120] == TRAILER
  }

  lemma NextOnRecord(pre: seq<Byte>, b: seq<Byte>, post: seq<Byte>, e: Entry)
    requires |pre| % 4 == 0 && IsRecord(b, e)
    ensures Next(pre + b + post, |pre|) == Item(e, |pre| + |b|)
  {
    hide ValidUtf8, Utf8Length, Field;
    var data := pre + b + post;
    var o := |pre|;
    assert data[o..o + 110] == b[..110];
    assert data[o + 110..o + 110 + |e.name|] == b[110..110 + |e.name|];
    assert data[o + DataStart(e)..o + DataEnd(e)] == b[DataStart(e)..DataEnd(e)];
    Pad4Shift(o, 111 + |e.name|);
    Pad4Shift(o, DataEnd(e));
  }

  lemma Pad4Shift(o: nat, n: nat)
    requires o % 4 == 0
    ensures Pad4(o + n) == Pad4(n) && (o + n + Pad4(n)) % 4 == 0
  {}

  lemma NextOnTrailer(pre: seq<Byte>, b: seq<Byte>, post: seq<Byte>)
    requires IsTrailer(b)
    ensures Next(pre + b + post, |pre|) == End
  {
    hide ValidUtf8, Utf8Length, Field;
    var data := pre + b + post;
    assert data[|pre|..|pre| + 110] == b[..110];
    assert data[|pre| + 110..|pre| + 120] == b[110..120];
    TrailerIsUtf8();
  }

  lemma {:induction false} AsciiIsUtf8(s: seq<Byte>)
    requires forall i :: 0 <= i < |s| ==> s[i] <= 0x7f
    ensures ValidUtf8(s)
    decreases |s|
  {
    if s != [] { AsciiIsUtf8(s[1..]); }
  }

  lemma TrailerIsUtf8()
    ensures ValidUtf8(TRAILER)
  {
    hide ValidUtf8;
    AsciiIsUtf8(TRAILER);
  }

  // Whole archives.

  /** Calls `next` until it yields no further entry; the second part is what it yields then, for ever. */
  function ParseAll(data: seq<Byte>, offset: nat): (seq<Entry>, Outcome)
    decreases |data| + 3 - offset
  {
    match Next(data, offset)
    case Item(e, o) =>
      NextAdvances(data, offset);
      var (rest, stop) := ParseAll(data, o);
      ([e] + rest, stop)
    case stop => ([], stop)
  }

  /** An archive of any entries yields exactly those entries, in order, and ends at the trailer. */
  lemma {:induction false} ParseArchive(pre: seq<Byte>, records: seq<seq<Byte>>, entries: seq<Entry>,
                                        trailer: seq<Byte>, post: seq<Byte>)
    requires |pre| % 4 == 0 && |records| == |entries| && IsTrailer(trailer)
    requires forall i :: 0 <= i < |records| ==> IsRecord(records[i], entries[i])
    ensures ParseAll(pre + Flatten(records) + trailer + post, |pre|) == (entries, End)
    decreases |records|
  {
    hide Next, IsRecord, IsTrailer;
    if records == [] {
      assert pre + Flatten(records) + trailer + post == pre + trailer + post;
      NextOnTrailer(pre, trailer, post);
    } else {
      var b, rest := records[0], Flatten(records[1..]);
      var data := pre + Flatten(records) + trailer + post;
      Regroup(pre, b, rest, trailer, post);
      assert Flatten(records) == b + rest;
      NextOnRecord(pre, b, rest + trailer + post, entries[0]);
      RecordAligned(b, entries[0]);
      ParseArchive(pre + b, records[1..], entries[1..], trailer, post);
      assert entries == [entries[0]] + entries[1..];
    }
  }

  lemma Regroup(pre: seq<Byte>, b: seq<Byte>, rest: seq<Byte>, trailer: seq<Byte>, post: seq<Byte>)
    ensures pre + (b + rest) + trailer + post == pre + b + (rest + trailer + post)
    ensures pre + (b + rest) + trailer + post == (pre + b) + rest + trailer + post
  {}

  function Flatten(records: seq<seq<Byte>>): seq<Byte> {
    if records == [] then [] else records[0] + Flatten(records[1..])
  }

  lemma RecordAligned(b: seq<Byte>, e: Entry)
    requires IsRecord(b, e)
    ensures |b| % 4 == 0
  {
    Pad4Shift(0, DataEnd(e));
  }

  // The serializer that the newc format describes.

  function Header(ino: U32, mode: U32, uid: U32, gid: U32, nlink: U32, mtime: U32, filesize: U32, namesize: U32)
    : (h: seq<Byte>)
    ensures |h| == 110
  {
    MAGIC1 + Hex(ino, 8) + Hex(mode, 8) + Hex(uid, 8) + Hex(gid, 8) + Hex(nlink, 8) + Hex(mtime, 8)
    + Hex(filesize, 8) + Hex(0, 32) + Hex(namesize, 8) + Hex(0, 8)
  }

  function Serialize(e: Entry): seq<Byte>
    requires ValidEntry(e)
  {
    Header(e.ino, e.mode, e.uid, e.gid, e.nlink, e.mtime, e.filesize, |e.name| + 1)
    + e.name + [0] + Zeros(Pad4(111 + |e.name|)) + e.data + Zeros(Pad4(DataEnd(e)))
  }

  function Trailer(): seq<Byte> { Header(0, 0, 0, 0, 1, 0, 0, 11) + TRAILER + [0] + Zeros(3) }

  lemma HeaderFields(ino: U32, mode: U32, uid: U32, gid: U32, nlink: U32, mtime: U32, filesize: U32, namesize: U32)
    ensures var h := Header(ino, mode, uid, gid, nlink, mtime, filesize, namesize);
            && HasHeader(h, namesize)
            && Field(h, 6) == Some(ino) && Field(h, 14) == Some(mode)
            && Field(h, 22) == Some(uid) && Field(h, 30) == Some(gid)
            && Field(h, 38) == Some(nlink) && Field(h, 46) == Some(mtime)
            && Field(h, 54) == Some(filesize)
  {
    hide Hex, ParseHex;
    var h := Header(ino, mode, uid, gid, nlink, mtime, filesize, namesize);
    assert h[0..6] == MAGIC1;
    assert h[6..14] == Hex(ino, 8) && h[14..22] == Hex(mode, 8);
    assert h[22..30] == Hex(uid, 8) && h[30..38] == Hex(gid, 8);
    assert h[38..46] == Hex(nlink, 8) && h[46..54] == Hex(mtime, 8);
    assert h[54..62] == Hex(filesize, 8) && h[94..102] == Hex(namesize, 8);
    ParseHexOfHex(ino);
    ParseHexOfHex(mode);
    ParseHexOfHex(uid);
    ParseHexOfHex(gid);
    ParseHexOfHex(nlink);
    ParseHexOfHex(mtime);
    ParseHexOfHex(filesize);
    ParseHexOfHex(namesize);
  }

  lemma SerializeIsRecord(e: Entry)
    requires ValidEntry(e)
    ensures IsRecord(Serialize(e), e)
  {
    hide Header, Field, FieldsParse, ValidUtf8, HasHeader, Pad4;
    HeaderFields(e.ino, e.mode, e.uid, e.gid, e.nlink, e.mtime, e.filesize, |e.name| + 1);
    var b := Serialize(e);
    assert b[..110] == Header(e.ino, e.mode, e.uid, e.gid, e.nlink, e.mtime, e.filesize, |e.name| + 1);
    assert b[110..110 + |e.name|] == e.name && b[DataStart(e)..DataEnd(e)] == e.data;
  }

  lemma TrailerIsTrailer()
    ensures IsTrailer(Trailer())
  {
    hide Header, Field, FieldsParse, HasHeader;
    HeaderFields(0, 0, 0, 0, 1, 0, 0, 11);
    var b := Trailer();
    assert b[..110] == Header(0, 0, 0, 0, 1, 0, 0, 11) && b[110..120] == TRAILER;
  }

  function SerializeAll(entries: seq<Entry>): (r: seq<seq<Byte>>)
    requires forall i :: 0 <= i < |entries| ==> ValidEntry(entries[i])
    ensures |r| == |entries|
  {
    seq(|entries|, i requires 0 <= i < |entries| => Serialize(entries[i]))
  }

  /** Reading back what was written. */
  lemma RoundTrip(entries: seq<Entry>, post: seq<Byte>)
    requires forall i :: 0 <= i < |entries| ==> ValidEntry(entries[i])
    ensures ParseAll(Flatten(SerializeAll(entries)) + Trailer() + post, 0) == (entries, End)
  {
    hide ParseAll, IsRecord, IsTrailer, ValidEntry, Serialize, Trailer, Flatten;
    var records := SerializeAll(entries);
    forall i | 0 <= i < |entries|
      ensures IsRecord(records[i], entries[i])
    {
      SerializeIsRecord(entries[i]);
    }
    TrailerIsTrailer();
    ParseArchive([], records, entries, Trailer(), post);
    assert [] + Flatten(records) + Trailer() + post == Flatten(records) + Trailer() + post;
  }

  /** The reader panics on exactly one kind of header: a well-formed one whose name size is zero. */
  lemma PanicsOnEmptyName(data: seq<Byte>, offset: nat)
    ensures Next(data, offset) == Panic <==>
            offset + 110 <= |data| && HasHeader(data[offset..offset + 110], 0)
  {
    hide Field, ValidUtf8;
  }

  /** Such a header: all numbers zero. */
  lemma EmptyNamePanics()
    ensures Next(Header(0, 0, 0, 0, 0, 0, 0, 0), 0) == Panic
  {
    hide Header, Next, Field;
    HeaderFields(0, 0, 0, 0, 0, 0, 0, 0);
    var h := Header(0, 0, 0, 0, 0, 0, 0, 0);
    assert h[0..110] == h;
    PanicsOnEmptyName(h, 0);
  }

  class CpioArchive {
    const data: seq<Byte>
    var offset: nat

    constructor (data: seq<Byte>)
      ensures this.data == data && offset == 0
    {
      this.data := data;
      offset := 0;
    }

    /** `next`: only an entry moves the offset, so an error comes again and again. */
    method NextEntry() returns (r: Outcome)
      modifies this`offset
      ensures r == Next(data, old(offset))
      ensures offset == if r.Item? then r.offset else old(offset)
    {
      hide Field, ValidUtf8, TypeOf;
      if offset + 110 > |data| {
        return End;
      }
      var header := data[offset..offset + 110];
      if header[0..6] != MAGIC1 && header[0..6] != MAGIC2 {
        return Fail(InvalidMagic);
      }
      var ino := Field(header, 6);
      if ino.None? { return Fail(InvalidHeader); }
      var mode := Field(header, 14);
      if mode.None? { return Fail(InvalidHeader); }
      var uid := Field(header, 22);
      if uid.None? { return Fail(InvalidHeader); }
      var gid := Field(header, 30);
      if gid.None? { return Fail(InvalidHeader); }
      var nlink := Field(header, 38);
      if nlink.None? { return Fail(InvalidHeader); }
      var mtime := Field(header, 46);
      if mtime.None? { return Fail(InvalidHeader); }
      var filesize := Field(header, 54);
      if filesize.None? { return Fail(InvalidHeader); }
      var namesize := Field(header, 94);
      if namesize.None? { return Fail(InvalidHeader); }

      if offset + 110 + namesize.value > |data| {
        return Fail(TruncatedData);
      }
      if namesize.value == 0 {
        return Panic;
      }
      var name := data[offset + 110..offset + 110 + namesize.value - 1];
      if !ValidUtf8(name) {
        return Fail(InvalidHeader);
      }
      if name == TRAILER {
        return End;
      }

      var dataOffset := offset + 110 + namesize.value;
      var start := dataOffset + (4 - dataOffset % 4) % 4;
      var end := start + filesize.value;
      if end > |data| {
        return Fail(TruncatedData);
      }
      var entry := Entry(name, data[start..end], U32Field(header, 6), U32Field(header, 14), U32Field(header, 22),
                         U32Field(header, 30), U32Field(header, 38), U32Field(header, 46), U32Field(header, 54),
                         TypeOf(U32Field(header, 14)));
      offset := end + (4 - end % 4) % 4;
      return Item(entry, offset);
    }

    /** The whole iteration ends. */
    method Collect() returns (entries: seq<Entry>, stop: Outcome)
      modifies this`offset
      ensures (entries, stop) == ParseAll(data, old(offset))
    {
      hide Next;
      entries := [];
      while true
        invariant ParseAll(data, old(offset)).0 == entries + ParseAll(data, offset).0
        invariant ParseAll(data, old(offset)).1 == ParseAll(data, offset).1
        decreases |data| + 3 - offset
      {
        ghost var o := offset;
        stop := NextEntry();
        if !stop.Item? {
          assert entries + [] == entries;
          return;
        }
        NextAdvances(data, o);
        entries := entries + [stop.entry];
        assert ParseAll(data, o).0 == [stop.entry] + ParseAll(data, offset).0;
      }
    }
  }
}
