/** The container format of zipc.c, for stored entries: the bytes a list of members is written as, and the
    scan that finds them again. The layouts are those of sections 4.3.7, 4.3.12 and 4.3.16 of APPNOTE.TXT. */
module ZipFormat {
  import opened XmlTree
  import Utf8
  import Crc

  const LOCAL_HEADER: nat := 0x04034b50
  const DIR_HEADER: nat := 0x02014b50
  const END_RECORD: nat := 0x06054b50
  const MADE_BY: nat := 0x031e
  const DIR_VERSION: nat := 0x000a
  const FILE_VERSION: nat := 0x0014
  const FLAG_STREAMED: nat := 0x8000
  const COMP_STORE: nat := 0
  const INTERNAL_TEXT: nat := 1
  const EXTERNAL_DIR: nat := 0x41ed0010
  const EXTERNAL_FILE: nat := 0x81a40000
  const WORD: nat := 0x1_0000_0000
  const HALF: nat := 0x1_0000

  // ---- the checksum ----

  function Bits(s: Str): (b: seq<bv8>)
    ensures |b| == |s|
  {
    seq(|s|, i requires 0 <= i < |s| => s[i] as bv8)
  }

  /** The checksum of stored data, continuing from an earlier one. */
  function Crc32(acc: nat, s: Str): (r: nat)
    requires acc < WORD
    ensures r < WORD
  {
    Crc.Crc32(acc as bv32, Bits(s)) as int
  }

  lemma CrcAccumulates(acc: nat, a: Str, b: Str)
    requires acc < WORD
    ensures Crc32(Crc32(acc, a), b) == Crc32(acc, a + b)
  {
    assert Bits(a + b) == Bits(a) + Bits(b);
    Crc.Accumulates(acc as bv32, Bits(a), Bits(b));
    WordBack(Crc.Crc32(acc as bv32, Bits(a)));
  }

  lemma WordBack(x: bv32)
    ensures x as int < WORD && (x as int) as bv32 == x
  {
  }

  lemma CrcEmpty()
    ensures Crc32(0, []) == 0
  {
    assert Bits([]) == [];
    Crc.TwiceInverted(0);
  }

  // ---- little-endian integers ----

  function Le16(v: nat): (s: Str)
    ensures |s| == 2
  {
    [v % 256, v / 256 % 256]
  }

  function Le32(v: nat): (s: Str)
    ensures |s| == 4
  {
    [v % 256, v / 256 % 256, v / 0x1_0000 % 256, v / 0x100_0000 % 256]
  }

  /** The file has these bytes at this position. */
  predicate Has(file: Str, pos: nat, s: Str) {
    pos + |s| <= |file| && file[pos..pos + |s|] == s
  }

  lemma HasSplit(file: Str, pos: nat, a: Str, b: Str)
    requires Has(file, pos, a + b)
    ensures Has(file, pos, a) && Has(file, pos + |a|, b)
  {
    var s := a + b;
    assert file[pos..pos + |a|] == file[pos..pos + |s|][..|a|] == s[..|a|] == a;
    assert file[pos + |a|..pos + |s|] == file[pos..pos + |s|][|a|..] == s[|a|..] == b;
  }

  /** What a read yields, and where the file then stands; past the end every integer reads as 0xffff. */
  datatype Number = Number(v: nat, pos: nat)

  function Past(file: Str, pos: nat): nat {
    if pos < |file| then |file| else pos
  }

  function ReadU16(file: Str, pos: nat): Number {
    if pos + 2 <= |file| then Number(file[pos] as int + 256 * file[pos + 1] as int, pos + 2) else Number(0xffff, Past(file, pos))
  }

  function ReadU32(file: Str, pos: nat): Number {
    if pos + 4 <= |file|
    then Number(file[pos] as int + 256 * file[pos + 1] as int + 0x1_0000 * file[pos + 2] as int + 0x100_0000 * file[pos + 3] as int,
           pos + 4)
    else Number(0xffff, Past(file, pos))
  }

  lemma Digits32(v: nat)
    requires v < WORD
    ensures v % 256 + 256 * (v / 256 % 256) + 0x1_0000 * (v / 0x1_0000 % 256) + 0x100_0000 * (v / 0x100_0000 % 256) == v
  {
    var a := v / 256;
    var b := a / 256;
    assert v / 0x1_0000 == b;
    assert v / 0x100_0000 == b / 256;
  }

  lemma ReadBack16(file: Str, pos: nat, v: nat)
    requires v < HALF && Has(file, pos, Le16(v))
    ensures ReadU16(file, pos) == Number(v, pos + 2)
  {
    var s := file[pos..pos + 2];
    assert s[0] == file[pos] && s[1] == file[pos + 1];
    var l := Le16(v);
    assert l[0] == v % 256 && l[1] == v / 256 % 256;
    assert v / 256 < 256;
  }

  lemma ReadBack32(file: Str, pos: nat, v: nat)
    requires v < WORD && Has(file, pos, Le32(v))
    ensures ReadU32(file, pos) == Number(v, pos + 4)
  {
    var s := file[pos..pos + 4];
    assert s[0] == file[pos] && s[1] == file[pos + 1] && s[2] == file[pos + 2] && s[3] == file[pos + 3];
    Le32Digits(v);
    Digits32(v);
  }

  lemma Le32Digits(v: nat)
    ensures Le32(v)[0] == v % 256 && Le32(v)[1] == v / 256 % 256
    ensures Le32(v)[2] == v / 0x1_0000 % 256 && Le32(v)[3] == v / 0x100_0000 % 256
  {
  }

  // ---- what is written ----

  /** A finished member: a directory or a stored file. */
  datatype Member = Member(name: Str, data: Str, flags: nat, internal: nat, external: nat)

  function Version(m: Member): nat {
    if m.external == EXTERNAL_DIR then DIR_VERSION else FILE_VERSION
  }

  // Up to the checksum: signature, version, flags without the internal one, method, time.
  function HeaderStart(modtime: nat, m: Member): (s: Str)
    ensures |s| == 14
  {
    Le32(LOCAL_HEADER) + (Le16(Version(m)) + (Le16(m.flags % FLAG_STREAMED) + (Le16(COMP_STORE) + Le32(modtime))))
  }

  // The fields that are patched when a streamed file is finished.
  function HeaderSizes(crc: nat, size: nat): (s: Str)
    ensures |s| == 12
  {
    Le32(crc) + (Le32(size) + Le32(size))
  }

  function HeaderName(m: Member): (s: Str)
    ensures |s| == 4 + |m.name|
  {
    Le16(|m.name|) + (Le16(0) + m.name)
  }

  function LocalHeader(modtime: nat, m: Member, crc: nat, size: nat): (s: Str)
    ensures |s| == 30 + |m.name|
  {
    HeaderStart(modtime, m) + (HeaderSizes(crc, size) + HeaderName(m))
  }

  function MemberCrc(m: Member): nat {
    Crc32(0, m.data)
  }

  /** A member in the file: its header, with checksum and sizes filled in, and its data. */
  function Local(modtime: nat, m: Member): Str {
    LocalHeader(modtime, m, MemberCrc(m), |m.data|) + m.data
  }

  function Locals(modtime: nat, ms: seq<Member>): Str {
    if ms == [] then [] else Locals(modtime, ms[..|ms| - 1]) + Local(modtime, ms[|ms| - 1])
  }

  function Offset(modtime: nat, ms: seq<Member>, i: nat): nat
    requires i <= |ms|
  {
    |Locals(modtime, ms[..i])|
  }

  function DirStart(modtime: nat, m: Member): (s: Str)
    ensures |s| == 16
  {
    Le32(DIR_HEADER) + (Le16(MADE_BY) + (Le16(Version(m)) + (Le16(m.flags) + (Le16(COMP_STORE) + Le32(modtime)))))
  }

  // The lengths of name, extra field and comment, and the disk number.
  function DirLengths(nameLen: nat): (s: Str)
    ensures |s| == 8
  {
    Le16(nameLen) + (Le16(0) + (Le16(0) + Le16(0)))
  }

  function DirPlace(m: Member, offset: nat): (s: Str)
    ensures |s| == 10
  {
    Le16(m.internal) + (Le32(m.external) + Le32(offset))
  }

  function DirHeader(modtime: nat, m: Member, offset: nat): (s: Str)
    ensures |s| == 46 + |m.name|
  {
    DirStart(modtime, m) + (HeaderSizes(MemberCrc(m), |m.data|) + (DirLengths(|m.name|) + (DirPlace(m, offset) + m.name)))
  }

  function Directory(modtime: nat, ms: seq<Member>, n: nat): Str
    requires n <= |ms|
  {
    if n == 0 then [] else Directory(modtime, ms, n - 1) + DirHeader(modtime, ms[n - 1], Offset(modtime, ms, n - 1))
  }

  function EndRecord(count: nat, size: nat, start: nat): Str {
    Le32(END_RECORD) + (Le16(0) + (Le16(0) + (Le16(count) + (Le16(count) + (Le32(size) + (Le32(start) + Le16(0)))))))
  }

  /** A closed container. */
  function Container(modtime: nat, ms: seq<Member>): Str {
    var locals, directory := Locals(modtime, ms), Directory(modtime, ms, |ms|);
    locals + (directory + EndRecord(|ms|, |directory|, |locals|))
  }

  // ---- the scan ----

  /** What the reader remembers of an entry. */
  datatype Record = Record(name: Str, flags: nat, coding: nat, crc: nat, csize: nat, usize: nat, offset: nat, localSize: nat)

  datatype Entry = Entry(record: Option<Record>, pos: nat)

  /** The part of the scan after a local header's signature; None ends the scan. */
  function ReadLocal(file: Str, offset: nat): (e: Entry)
    requires offset + 4 <= |file|
    ensures e.pos >= offset + 4
  {
    var version := ReadU16(file, offset + 4);
    var flags := ReadU16(file, version.pos);
    var coding := ReadU16(file, flags.pos);
    var modtime := ReadU32(file, coding.pos);
    var crc := ReadU32(file, modtime.pos);
    var csize := ReadU32(file, crc.pos);
    var usize := ReadU32(file, csize.pos);
    var nameLen := ReadU16(file, usize.pos);
    var extraLen := ReadU16(file, nameLen.pos);
    var start := extraLen.pos;
    if nameLen.v > 255 then Entry(None, start)
    else if nameLen.v == 0 || start + nameLen.v > |file| then Entry(None, Past(file, start))
    else
      var end := start + nameLen.v + extraLen.v;
      Entry(Some(Record(CStr(file[start..start + nameLen.v]), flags.v, coding.v, crc.v, csize.v, usize.v, offset, end - offset)),
            end + csize.v)
  }

  /** The entries found from a position on. */
  function Scan(file: Str, pos: nat): seq<Record>
    decreases |file| - pos
  {
    var sig := ReadU32(file, pos);
    if pos + 4 > |file| || sig.v != LOCAL_HEADER then []
    else
      var e := ReadLocal(file, pos);
      if e.record.None? then [] else [e.record.value] + Scan(file, e.pos)
  }

  // ---- finding again what was written ----

  /** What fits the format: a C string of at most 255 bytes for a name, 32-bit sizes, 16-bit flags. */
  predicate Storable(m: Member) {
    && |m.name| <= 255 && 0 !in m.name
    && |m.data| < WORD && m.flags < HALF && m.internal < HALF && m.external < WORD
  }

  predicate AllStorable(ms: seq<Member>) {
    forall i :: 0 <= i < |ms| ==> Storable(ms[i])
  }

  function RecordOf(m: Member, offset: nat): Record {
    Record(m.name, m.flags % FLAG_STREAMED, COMP_STORE, MemberCrc(m), |m.data|, |m.data|, offset, 30 + |m.name|)
  }

  function Records(modtime: nat, ms: seq<Member>, i: nat): seq<Record>
    requires i <= |ms|
    decreases |ms| - i
  {
    if i == |ms| then [] else [RecordOf(ms[i], Offset(modtime, ms, i))] + Records(modtime, ms, i + 1)
  }

  lemma {:induction false} WholeName(s: Str)
    requires 0 !in s
    ensures CStr(s) == s
  {
    if s != [] {
      WholeName(s[1..]);
    }
  }

  lemma StartFields(file: Str, pos: nat, modtime: nat, m: Member)
    requires Has(file, pos, HeaderStart(modtime, m)) && m.flags < HALF && modtime < WORD
    ensures ReadU32(file, pos) == Number(LOCAL_HEADER, pos + 4)
    ensures ReadU16(file, pos + 4) == Number(Version(m), pos + 6)
    ensures ReadU16(file, pos + 6) == Number(m.flags % FLAG_STREAMED, pos + 8)
    ensures ReadU16(file, pos + 8) == Number(COMP_STORE, pos + 10)
    ensures ReadU32(file, pos + 10) == Number(modtime, pos + 14)
  {
    hide Has, Le16, Le32, ReadU16, ReadU32;
    var v, f, c, t := Le16(Version(m)), Le16(m.flags % FLAG_STREAMED), Le16(COMP_STORE), Le32(modtime);
    HasSplit(file, pos, Le32(LOCAL_HEADER), v + (f + (c + t)));
    HasSplit(file, pos + 4, v, f + (c + t));
    HasSplit(file, pos + 6, f, c + t);
    HasSplit(file, pos + 8, c, t);
    ReadBack32(file, pos, LOCAL_HEADER);
    ReadBack16(file, pos + 4, Version(m));
    ReadBack16(file, pos + 6, m.flags % FLAG_STREAMED);
    ReadBack16(file, pos + 8, COMP_STORE);
    ReadBack32(file, pos + 10, modtime);
  }

  lemma SizeFields(file: Str, pos: nat, crc: nat, size: nat)
    requires Has(file, pos, HeaderSizes(crc, size)) && crc < WORD && size < WORD
    ensures ReadU32(file, pos) == Number(crc, pos + 4)
    ensures ReadU32(file, pos + 4) == Number(size, pos + 8)
    ensures ReadU32(file, pos + 8) == Number(size, pos + 12)
  {
    hide Has, Le32, ReadU32;
    HasSplit(file, pos, Le32(crc), Le32(size) + Le32(size));
    HasSplit(file, pos + 4, Le32(size), Le32(size));
    ReadBack32(file, pos, crc);
    ReadBack32(file, pos + 4, size);
    ReadBack32(file, pos + 8, size);
  }

  lemma NameFields(file: Str, pos: nat, m: Member)
    requires Has(file, pos, HeaderName(m)) && |m.name| <= 255
    ensures ReadU16(file, pos) == Number(|m.name|, pos + 2)
    ensures ReadU16(file, pos + 2) == Number(0, pos + 4)
    ensures Has(file, pos + 4, m.name)
  {
    hide Has, Le16, ReadU16;
    HasSplit(file, pos, Le16(|m.name|), Le16(0) + m.name);
    HasSplit(file, pos + 2, Le16(0), m.name);
    ReadBack16(file, pos, |m.name|);
    ReadBack16(file, pos + 2, 0);
  }

  /** One member is read back, and the scan goes on behind its data. */
  lemma LocalReadBack(file: Str, pos: nat, modtime: nat, m: Member)
    requires Has(file, pos, Local(modtime, m)) && Storable(m) && m.name != [] && modtime < WORD
    ensures pos + 30 <= |file| && ReadU32(file, pos) == Number(LOCAL_HEADER, pos + 4)
    ensures ReadLocal(file, pos) == Entry(Some(RecordOf(m, pos)), pos + |Local(modtime, m)|)
    ensures Has(file, pos + 30 + |m.name|, m.data)
  {
    hide Le16, Le32, ReadU16, ReadU32, HeaderStart, HeaderSizes, HeaderName, Crc32, CStr, Has;
    var crc, size := MemberCrc(m), |m.data|;
    HasSplit(file, pos, LocalHeader(modtime, m, crc, size), m.data);
    HasSplit(file, pos, HeaderStart(modtime, m), HeaderSizes(crc, size) + HeaderName(m));
    HasSplit(file, pos + 14, HeaderSizes(crc, size), HeaderName(m));
    StartFields(file, pos, modtime, m);
    SizeFields(file, pos + 14, crc, size);
    NameFields(file, pos + 26, m);
    HasLength(file, pos + 30, m.name);
    WholeName(m.name);
  }

  lemma HasLength(file: Str, pos: nat, s: Str)
    requires Has(file, pos, s)
    ensures pos + |s| <= |file| && file[pos..pos + |s|] == s
  {
  }

  /** An empty name ends the scan. */
  lemma NamelessStops(file: Str, pos: nat, modtime: nat, m: Member)
    requires Has(file, pos, Local(modtime, m)) && Storable(m) && m.name == [] && modtime < WORD
    ensures pos + 30 <= |file| && ReadLocal(file, pos).record.None?
  {
    hide Le16, Le32, ReadU16, ReadU32, HeaderStart, HeaderSizes, HeaderName, Crc32, CStr, Has;
    var crc, size := MemberCrc(m), |m.data|;
    HasSplit(file, pos, LocalHeader(modtime, m, crc, size), m.data);
    HasSplit(file, pos, HeaderStart(modtime, m), HeaderSizes(crc, size) + HeaderName(m));
    HasSplit(file, pos + 14, HeaderSizes(crc, size), HeaderName(m));
    StartFields(file, pos, modtime, m);
    SizeFields(file, pos + 14, crc, size);
    NameFields(file, pos + 26, m);
    HasLength(file, pos + 30, m.name);
  }

  /** The i-th member lies at its offset. */
  lemma {:induction false} LocalAt(file: Str, modtime: nat, ms: seq<Member>, i: nat)
    requires Has(file, 0, Locals(modtime, ms)) && i < |ms|
    ensures Has(file, Offset(modtime, ms, i), Local(modtime, ms[i]))
    ensures Offset(modtime, ms, i + 1) == Offset(modtime, ms, i) + |Local(modtime, ms[i])|
  {
    hide Local, Has;
    var last := |ms| - 1;
    HasSplit(file, 0, Locals(modtime, ms[..last]), Local(modtime, ms[last]));
    if i < last {
      assert ms[..last][..i] == ms[..i] && ms[..last][..i + 1] == ms[..i + 1];
      LocalAt(file, modtime, ms[..last], i);
    } else {
      assert ms[..i + 1] == ms;
    }
  }

  // The scan stops at what is not a local header.
  predicate Ends(file: Str, pos: nat) {
    pos + 4 > |file| || ReadU32(file, pos).v != LOCAL_HEADER
  }

  /** The first member with an empty name, |ms| if there is none. */
  function Reach(ms: seq<Member>, i: nat): (k: nat)
    requires i <= |ms|
    ensures i <= k <= |ms| && (k < |ms| ==> ms[k].name == [])
    ensures forall j :: i <= j < k ==> ms[j].name != []
    decreases |ms| - i
  {
    if i == |ms| || ms[i].name == [] then i else Reach(ms, i + 1)
  }

  /** From any member on, the scan finds the rest, up to the first empty name. */
  lemma {:induction false} ScanFrom(file: Str, modtime: nat, ms: seq<Member>, i: nat)
    requires Has(file, 0, Locals(modtime, ms)) && i <= |ms| && modtime < WORD
    requires AllStorable(ms) && Ends(file, |Locals(modtime, ms)|)
    ensures |Records(modtime, ms, i)| == |ms| - i
    ensures Scan(file, Offset(modtime, ms, i)) == Records(modtime, ms, i)[..Reach(ms, i) - i]
    decreases |ms| - i
  {
    hide Local, Has, ReadU32, ReadLocal, Storable, RecordOf;
    if i == |ms| {
      assert ms[..i] == ms;
    } else {
      LocalAt(file, modtime, ms, i);
      ScanFrom(file, modtime, ms, i + 1);
      if ms[i].name == [] {
        NamelessStops(file, Offset(modtime, ms, i), modtime, ms[i]);
      } else {
        LocalReadBack(file, Offset(modtime, ms, i), modtime, ms[i]);
      }
    }
  }

  lemma ContainerParts(modtime: nat, ms: seq<Member>)
    ensures var c := Container(modtime, ms);
            var locals, directory := Locals(modtime, ms), Directory(modtime, ms, |ms|);
            && Has(c, 0, locals) && Has(c, |locals|, directory)
            && Has(c, |locals| + |directory|, EndRecord(|ms|, |directory|, |locals|))
            && |c| == |locals| + |directory| + |EndRecord(|ms|, |directory|, |locals|)|
  {
    hide Has, EndRecord, Directory, Locals;
    var c := Container(modtime, ms);
    var locals, directory := Locals(modtime, ms), Directory(modtime, ms, |ms|);
    var end := EndRecord(|ms|, |directory|, |locals|);
    HasSelf(c);
    HasSplit(c, 0, locals, directory + end);
    HasSplit(c, |locals|, directory, end);
  }

  lemma HasSelf(s: Str)
    ensures Has(s, 0, s)
  {
  }

  lemma ContainerEnds(modtime: nat, ms: seq<Member>)
    ensures Ends(Container(modtime, ms), |Locals(modtime, ms)|)
  {
    hide Has, Le16, Le32, Locals, ReadU32, Container;
    ContainerParts(modtime, ms);
    var c, start := Container(modtime, ms), |Locals(modtime, ms)|;
    if ms == [] {
      EndStarts(c, start, 0, 0, start);
    } else {
      DirectoryAt(c, start, modtime, ms, |ms|, 0);
      DirStarts(c, start, modtime, ms[0], Offset(modtime, ms, 0));
    }
  }

  lemma EndStarts(c: Str, pos: nat, count: nat, size: nat, start: nat)
    requires Has(c, pos, EndRecord(count, size, start))
    ensures ReadU32(c, pos).v == END_RECORD
  {
    hide Has, Le16, Le32, ReadU32;
    HasSplit(c, pos, Le32(END_RECORD), Le16(0) + (Le16(0) + (Le16(count) + (Le16(count) + (Le32(size) + (Le32(start) + Le16(0)))))));
    ReadBack32(c, pos, END_RECORD);
  }

  lemma DirStarts(c: Str, pos: nat, modtime: nat, m: Member, offset: nat)
    requires Has(c, pos, DirHeader(modtime, m, offset))
    ensures ReadU32(c, pos).v == DIR_HEADER
  {
    hide Has, Le16, Le32, ReadU32, Crc32, HeaderSizes, DirLengths, DirPlace;
    HasSplit(c, pos, DirStart(modtime, m), HeaderSizes(MemberCrc(m), |m.data|) + (DirLengths(|m.name|) + (DirPlace(m, offset) + m.name)));
    HasSplit(c, pos, Le32(DIR_HEADER), Le16(MADE_BY) + (Le16(Version(m)) + (Le16(m.flags) + (Le16(COMP_STORE) + Le32(modtime)))));
    ReadBack32(c, pos, DIR_HEADER);
  }

  /** Where the i-th directory entry lies. */
  lemma {:induction false} DirectoryAt(c: Str, start: nat, modtime: nat, ms: seq<Member>, n: nat, i: nat)
    requires n <= |ms| && i < n && Has(c, start, Directory(modtime, ms, n))
    ensures Has(c, start + |Directory(modtime, ms, i)|, DirHeader(modtime, ms[i], Offset(modtime, ms, i)))
  {
    hide Has, DirHeader, Offset;
    HasSplit(c, start, Directory(modtime, ms, n - 1), DirHeader(modtime, ms[n - 1], Offset(modtime, ms, n - 1)));
    if i < n - 1 {
      DirectoryAt(c, start, modtime, ms, n - 1, i);
    }
  }

  lemma {:induction false} RecordsLength(modtime: nat, ms: seq<Member>, i: nat)
    requires i <= |ms|
    ensures |Records(modtime, ms, i)| == |ms| - i
    ensures forall k :: i <= k < |ms| ==> Records(modtime, ms, i)[k - i] == RecordOf(ms[k], Offset(modtime, ms, k))
    decreases |ms| - i
  {
    hide Offset, RecordOf;
    if i < |ms| {
      RecordsLength(modtime, ms, i + 1);
      var rest := Records(modtime, ms, i + 1);
      assert Records(modtime, ms, i) == [RecordOf(ms[i], Offset(modtime, ms, i))] + rest;
      forall k | i <= k < |ms|
        ensures Records(modtime, ms, i)[k - i] == RecordOf(ms[k], Offset(modtime, ms, k))
      {
        if k > i {
          assert Records(modtime, ms, i)[k - i] == rest[k - (i + 1)];
        }
      }
    }
  }

  /** Opening a closed container finds every member up to the first one with an empty name, with its name,
      sizes, checksum and offset. */
  lemma ScanBack(modtime: nat, ms: seq<Member>)
    requires AllStorable(ms) && modtime < WORD
    ensures |Records(modtime, ms, 0)| == |ms|
    ensures Scan(Container(modtime, ms), 0) == Records(modtime, ms, 0)[..Reach(ms, 0)]
  {
    hide Has, Ends, Scan, Container, AllStorable;
    ContainerParts(modtime, ms);
    ContainerEnds(modtime, ms);
    NoLocals(modtime, ms);
    ScanFrom(Container(modtime, ms), modtime, ms, 0);
  }

  /** The scan finds all that was written if and only if no name is empty. */
  lemma ScanBackIff(modtime: nat, ms: seq<Member>)
    requires AllStorable(ms) && modtime < WORD
    ensures Scan(Container(modtime, ms), 0) == Records(modtime, ms, 0) <==> forall i :: 0 <= i < |ms| ==> ms[i].name != []
  {
    hide Scan, Container, AllStorable;
    ScanBack(modtime, ms);
  }

  lemma NoLocals(modtime: nat, ms: seq<Member>)
    ensures Offset(modtime, ms, 0) == 0
  {
    assert ms[..0] == [];
  }
}
