/** The central directory of a closed container, read the way a reader that starts at the end record reads
    it: field by field at the offsets of sections 4.3.12 and 4.3.16 of APPNOTE.TXT, by the lengths found. */
module ZipDirectory {
  import opened XmlTree
  import opened ZipFormat

  // ---- fields ----

  /** The number that bytes spell, the lowest first. */
  function Little(s: Str): nat {
    if s == [] then 0 else s[0] as int + 256 * Little(s[1..])
  }

  /** The n-byte field at a position. */
  function Field(file: Str, pos: nat, n: nat): nat {
    if pos + n <= |file| then Little(file[pos..pos + n]) else 0
  }

  lemma Little2(s: Str)
    requires |s| == 2
    ensures Little(s) == s[0] as int + 256 * s[1] as int
  {
    var t := s[1..];
    assert t[1..] == [] && t[0] == s[1];
    assert Little(t) == t[0] as int + 256 * Little([]);
  }

  lemma Little4(s: Str)
    requires |s| == 4
    ensures Little(s) == s[0] as int + 256 * s[1] as int + 0x1_0000 * s[2] as int + 0x100_0000 * s[3] as int
  {
    Little2(s[2..]);
    assert s[1..][1..] == s[2..];
  }

  /** The integers the container code reads are such fields. */
  lemma ReadIsField(file: Str, pos: nat)
    ensures pos + 2 <= |file| ==> ReadU16(file, pos) == Number(Field(file, pos, 2), pos + 2)
    ensures pos + 4 <= |file| ==> ReadU32(file, pos) == Number(Field(file, pos, 4), pos + 4)
  {
    if pos + 2 <= |file| {
      Little2(file[pos..pos + 2]);
    }
    if pos + 4 <= |file| {
      Little4(file[pos..pos + 4]);
    }
  }

  lemma Field16(file: Str, pos: nat, v: nat)
    requires Has(file, pos, Le16(v))
    ensures Field(file, pos, 2) == v % HALF
  {
    assert Le16(v) == Le16(v % HALF) by { Low16(v); }
    ReadBack16(file, pos, v % HALF);
    ReadIsField(file, pos);
  }

  lemma Low16(v: nat)
    ensures v % HALF % 256 == v % 256 && v % HALF / 256 % 256 == v / 256 % 256
  {
    var q, r := v / HALF, v % HALF;
    assert v == 256 * (256 * q) + r;
    assert v / 256 == 256 * q + r / 256;
  }

  lemma Field32(file: Str, pos: nat, v: nat)
    requires Has(file, pos, Le32(v))
    ensures Field(file, pos, 4) == v % WORD
  {
    assert Le32(v) == Le32(v % WORD) by { Low32(v); }
    ReadBack32(file, pos, v % WORD);
    ReadIsField(file, pos);
  }

  lemma Low32(v: nat)
    ensures var w := v % WORD;
            && w % 256 == v % 256 && w / 256 % 256 == v / 256 % 256
            && w / 0x1_0000 % 256 == v / 0x1_0000 % 256 && w / 0x100_0000 % 256 == v / 0x100_0000 % 256
  {
    LowerByte(v);
    LowerBytes(v / 256);
    NextBytes(v);
    NextBytes(v % WORD);
  }

  lemma LowerByte(v: nat)
    ensures v % WORD % 256 == v % 256 && v % WORD / 256 == v / 256 % 0x100_0000
  {
    var q, w := v / WORD, v % WORD;
    assert v == 256 * (0x100_0000 * q) + w;
    assert v / 256 == 0x100_0000 * q + w / 256;
  }

  lemma LowerBytes(v: nat)
    ensures var w := v % 0x100_0000;
            w % 256 == v % 256 && w / 256 % 256 == v / 256 % 256 && w / 256 / 256 % 256 == v / 256 / 256 % 256
  {
    var q, w := v / 0x100_0000, v % 0x100_0000;
    assert v == 256 * (0x1_0000 * q) + w;
    assert v / 256 == 0x1_0000 * q + w / 256;
    assert v / 256 / 256 == 256 * q + w / 256 / 256;
  }

  lemma NextBytes(v: nat)
    ensures v / 0x1_0000 == v / 256 / 256 && v / 0x100_0000 == v / 256 / 256 / 256
  {
    var a := v / 256;
    var b := a / 256;
    assert v / 0x1_0000 == b;
  }

  // ---- local headers in general ----

  /** What the scan makes of any local header, written by whatever program: name and data follow its 30 bytes,
      with the extra field between them. It stops at a name that is empty, longer than 255 bytes or cut short. */
  lemma LocalHeaderRead(file: Str, pos: nat)
    requires pos + 30 <= |file|
    ensures var n, extra := Field(file, pos + 26, 2), Field(file, pos + 28, 2);
            if n == 0 || n > 255 || pos + 30 + n > |file| then ReadLocal(file, pos).record.None?
            else
              ReadLocal(file, pos)
              == Entry(Some(Record(CStr(file[pos + 30..pos + 30 + n]), Field(file, pos + 6, 2), Field(file, pos + 8, 2),
                                   Field(file, pos + 14, 4), Field(file, pos + 18, 4), Field(file, pos + 22, 4),
                                   pos, 30 + n + extra)),
                       pos + 30 + n + extra + Field(file, pos + 18, 4))
  {
    hide Field, ReadU16, ReadU32, CStr;
    ReadIsField(file, pos + 4);
    ReadIsField(file, pos + 6);
    ReadIsField(file, pos + 8);
    ReadIsField(file, pos + 10);
    ReadIsField(file, pos + 14);
    ReadIsField(file, pos + 18);
    ReadIsField(file, pos + 22);
    ReadIsField(file, pos + 26);
    ReadIsField(file, pos + 28);
  }

  // ---- directory entries ----

  datatype DirRecord = DirRecord(
    signature: nat, madeBy: nat, version: nat, flags: nat, coding: nat, modtime: nat, crc: nat, csize: nat, usize: nat,
    nameLen: nat, extraLen: nat, commentLen: nat, disk: nat, internal: nat, external: nat, offset: nat, name: Str)

  function ReadDir(file: Str, pos: nat): DirRecord {
    var nameLen := Field(file, pos + 28, 2);
    DirRecord(
      Field(file, pos, 4), Field(file, pos + 4, 2), Field(file, pos + 6, 2), Field(file, pos + 8, 2), Field(file, pos + 10, 2),
      Field(file, pos + 12, 4), Field(file, pos + 16, 4), Field(file, pos + 20, 4), Field(file, pos + 24, 4),
      nameLen, Field(file, pos + 30, 2), Field(file, pos + 32, 2), Field(file, pos + 34, 2),
      Field(file, pos + 36, 2), Field(file, pos + 38, 4), Field(file, pos + 42, 4),
      if pos + 46 + nameLen <= |file| then file[pos + 46..pos + 46 + nameLen] else [])
  }

  /** The entry of a member: made on Unix by version 3.0 of the standard, stored, on the first disk, with
      neither extra field nor comment. */
  function DirRecordOf(modtime: nat, m: Member, offset: nat): DirRecord {
    DirRecord(0x02014b50, 0x031e, if m.external == 0x41ed0010 then 10 else 20, m.flags, 0, modtime,
              MemberCrc(m), |m.data|, |m.data|, |m.name|, 0, 0, 0, m.internal, m.external, offset, m.name)
  }

  lemma DirStartFields(c: Str, pos: nat, modtime: nat, m: Member)
    requires Has(c, pos, DirStart(modtime, m)) && m.flags < HALF && modtime < WORD
    ensures Field(c, pos, 4) == DIR_HEADER && Field(c, pos + 4, 2) == MADE_BY && Field(c, pos + 6, 2) == Version(m)
    ensures Field(c, pos + 8, 2) == m.flags && Field(c, pos + 10, 2) == COMP_STORE && Field(c, pos + 12, 4) == modtime
  {
    hide Has, Le16, Le32, Field;
    var b, v, f, o, t := Le16(MADE_BY), Le16(Version(m)), Le16(m.flags), Le16(COMP_STORE), Le32(modtime);
    HasSplit(c, pos, Le32(DIR_HEADER), b + (v + (f + (o + t))));
    HasSplit(c, pos + 4, b, v + (f + (o + t)));
    HasSplit(c, pos + 6, v, f + (o + t));
    HasSplit(c, pos + 8, f, o + t);
    HasSplit(c, pos + 10, o, t);
    Field32(c, pos, DIR_HEADER);
    Field16(c, pos + 4, MADE_BY);
    Field16(c, pos + 6, Version(m));
    Field16(c, pos + 8, m.flags);
    Field16(c, pos + 10, COMP_STORE);
    Field32(c, pos + 12, modtime);
  }

  lemma DirSizeFields(c: Str, pos: nat, crc: nat, size: nat)
    requires Has(c, pos, HeaderSizes(crc, size)) && crc < WORD && size < WORD
    ensures Field(c, pos, 4) == crc && Field(c, pos + 4, 4) == size && Field(c, pos + 8, 4) == size
  {
    hide Has, Le32, Field;
    HasSplit(c, pos, Le32(crc), Le32(size) + Le32(size));
    HasSplit(c, pos + 4, Le32(size), Le32(size));
    Field32(c, pos, crc);
    Field32(c, pos + 4, size);
    Field32(c, pos + 8, size);
  }

  lemma DirLengthFields(c: Str, pos: nat, nameLen: nat)
    requires Has(c, pos, DirLengths(nameLen)) && nameLen < HALF
    ensures Field(c, pos, 2) == nameLen && Field(c, pos + 2, 2) == 0 && Field(c, pos + 4, 2) == 0 && Field(c, pos + 6, 2) == 0
  {
    hide Has, Le16, Field;
    HasSplit(c, pos, Le16(nameLen), Le16(0) + (Le16(0) + Le16(0)));
    HasSplit(c, pos + 2, Le16(0), Le16(0) + Le16(0));
    HasSplit(c, pos + 4, Le16(0), Le16(0));
    Field16(c, pos, nameLen);
    Field16(c, pos + 2, 0);
    Field16(c, pos + 4, 0);
    Field16(c, pos + 6, 0);
  }

  lemma DirPlaceFields(c: Str, pos: nat, m: Member, offset: nat)
    requires Has(c, pos, DirPlace(m, offset)) && m.internal < HALF && m.external < WORD && offset < WORD
    ensures Field(c, pos, 2) == m.internal && Field(c, pos + 2, 4) == m.external && Field(c, pos + 6, 4) == offset
  {
    hide Has, Le16, Le32, Field;
    HasSplit(c, pos, Le16(m.internal), Le32(m.external) + Le32(offset));
    HasSplit(c, pos + 2, Le32(m.external), Le32(offset));
    Field16(c, pos, m.internal);
    Field32(c, pos + 2, m.external);
    Field32(c, pos + 6, offset);
  }

  lemma DirReadBack(c: Str, pos: nat, modtime: nat, m: Member, offset: nat)
    requires Has(c, pos, DirHeader(modtime, m, offset)) && Storable(m) && modtime < WORD && offset < WORD
    ensures ReadDir(c, pos) == DirRecordOf(modtime, m, offset)
  {
    hide Has, Field, Crc32, DirStart, HeaderSizes, DirLengths, DirPlace;
    var sizes, lengths, place := HeaderSizes(MemberCrc(m), |m.data|), DirLengths(|m.name|), DirPlace(m, offset);
    HasSplit(c, pos, DirStart(modtime, m), sizes + (lengths + (place + m.name)));
    HasSplit(c, pos + 16, sizes, lengths + (place + m.name));
    HasSplit(c, pos + 28, lengths, place + m.name);
    HasSplit(c, pos + 36, place, m.name);
    DirStartFields(c, pos, modtime, m);
    DirSizeFields(c, pos + 16, MemberCrc(m), |m.data|);
    DirLengthFields(c, pos + 28, |m.name|);
    DirPlaceFields(c, pos + 36, m, offset);
    HasLength(c, pos + 46, m.name);
  }

  // ---- the end record ----

  datatype End = End(
    signature: nat, disk: nat, dirDisk: nat, here: nat, count: nat, size: nat, start: nat, commentLen: nat)

  function ReadEnd(file: Str, pos: nat): End {
    End(Field(file, pos, 4), Field(file, pos + 4, 2), Field(file, pos + 6, 2), Field(file, pos + 8, 2), Field(file, pos + 10, 2),
        Field(file, pos + 12, 4), Field(file, pos + 16, 4), Field(file, pos + 20, 2))
  }

  lemma EndReadBack(c: Str, end: nat, count: nat, size: nat, start: nat)
    requires Has(c, end, EndRecord(count, size, start))
    ensures ReadEnd(c, end) == End(0x06054b50, 0, 0, count % HALF, count % HALF, size % WORD, start % WORD, 0)
    ensures |EndRecord(count, size, start)| == 22
  {
    hide Has, Le16, Le32, Field;
    var n, z, s := Le16(count), Le32(size), Le32(start);
    HasSplit(c, end, Le32(END_RECORD), Le16(0) + (Le16(0) + (n + (n + (z + (s + Le16(0)))))));
    HasSplit(c, end + 4, Le16(0), Le16(0) + (n + (n + (z + (s + Le16(0))))));
    HasSplit(c, end + 6, Le16(0), n + (n + (z + (s + Le16(0)))));
    HasSplit(c, end + 8, n, n + (z + (s + Le16(0))));
    HasSplit(c, end + 10, n, z + (s + Le16(0)));
    HasSplit(c, end + 12, z, s + Le16(0));
    HasSplit(c, end + 16, s, Le16(0));
    Field32(c, end, END_RECORD);
    Field16(c, end + 4, 0);
    Field16(c, end + 6, 0);
    Field16(c, end + 8, count);
    Field16(c, end + 10, count);
    Field32(c, end + 12, size);
    Field32(c, end + 16, start);
    Field16(c, end + 20, 0);
  }

  /** The end record counts the members and says where the directory starts and how long it is, all as far as
      its 16 and 32 bits go; nothing follows it. */
  lemma EndAgrees(modtime: nat, ms: seq<Member>)
    ensures var c, locals, directory := Container(modtime, ms), Locals(modtime, ms), Directory(modtime, ms, |ms|);
            && |c| - 22 == |locals| + |directory|
            && ReadEnd(c, |c| - 22)
               == End(0x06054b50, 0, 0, |ms| % HALF, |ms| % HALF, |directory| % WORD, |locals| % WORD, 0)
  {
    hide Has, Directory, Locals, Container, EndRecord, ReadEnd;
    var c, locals, directory := Container(modtime, ms), Locals(modtime, ms), Directory(modtime, ms, |ms|);
    ContainerParts(modtime, ms);
    EndReadBack(c, |locals| + |directory|, |ms|, |directory|, |locals|);
  }

  // ---- reading by the directory ----

  /** `count` entries from a position on, each found by the lengths in the one before, and where they end. */
  function WalkDir(file: Str, pos: nat, count: nat): (seq<DirRecord>, nat)
    decreases count
  {
    if count == 0 then ([], pos)
    else
      var d := ReadDir(file, pos);
      var rest := WalkDir(file, pos + 46 + d.nameLen + d.extraLen + d.commentLen, count - 1);
      ([d] + rest.0, rest.1)
  }

  /** The data an entry points at, behind the name and the extra field of the local header. */
  function Fetch(file: Str, d: DirRecord): Str {
    var from := d.offset + 30 + Field(file, d.offset + 26, 2) + Field(file, d.offset + 28, 2);
    if from + d.csize <= |file| then file[from..from + d.csize] else []
  }

  /** The entries listed from the end record of a file without a comment, and where the list ends. */
  function Listed(file: Str): (seq<DirRecord>, nat) {
    var end := ReadEnd(file, if |file| >= 22 then |file| - 22 else 0);
    WalkDir(file, end.start, end.count)
  }

  /** The list has the members in order, each with its attributes, and leads to their data. */
  predicate Lists(file: Str, l: seq<DirRecord>, modtime: nat, ms: seq<Member>) {
    && |l| <= |ms|
    && forall i :: 0 <= i < |l| ==> l[i] == DirRecordOf(modtime, ms[i], Offset(modtime, ms, i)) && Fetch(file, l[i]) == ms[i].data
  }

  lemma {:induction false} WalkFrom(c: Str, start: nat, modtime: nat, ms: seq<Member>, n: nat, i: nat)
    requires Has(c, start, Directory(modtime, ms, |ms|)) && i <= n <= |ms|
    requires AllStorable(ms) && modtime < WORD && |Locals(modtime, ms)| < WORD
    ensures var w := WalkDir(c, start + |Directory(modtime, ms, i)|, n - i);
            && w.1 == start + |Directory(modtime, ms, n)|
            && |w.0| == n - i
            && forall k :: i <= k < n ==> w.0[k - i] == DirRecordOf(modtime, ms[k], Offset(modtime, ms, k))
    decreases n - i
  {
    hide Has, ReadDir, DirHeader, Storable, Offset, Locals, DirRecordOf;
    if i < n {
      var next := start + |Directory(modtime, ms, i + 1)|;
      EntryRead(c, start, modtime, ms, i);
      WalkFrom(c, start, modtime, ms, n, i + 1);
      var rest := WalkDir(c, next, n - (i + 1));
      var w := ([DirRecordOf(modtime, ms[i], Offset(modtime, ms, i))] + rest.0, rest.1);
      assert WalkDir(c, start + |Directory(modtime, ms, i)|, n - i) == w;
      forall k | i <= k < n
        ensures w.0[k - i] == DirRecordOf(modtime, ms[k], Offset(modtime, ms, k))
      {
        if k > i {
          assert w.0[k - i] == rest.0[k - (i + 1)];
        }
      }
    }
  }

  /** The i-th entry is read back, and its lengths lead to the next one. */
  lemma EntryRead(c: Str, start: nat, modtime: nat, ms: seq<Member>, i: nat)
    requires Has(c, start, Directory(modtime, ms, |ms|)) && i < |ms|
    requires AllStorable(ms) && modtime < WORD && |Locals(modtime, ms)| < WORD
    ensures var d := ReadDir(c, start + |Directory(modtime, ms, i)|);
            && d == DirRecordOf(modtime, ms[i], Offset(modtime, ms, i))
            && |Directory(modtime, ms, i)| + 46 + d.nameLen + d.extraLen + d.commentLen == |Directory(modtime, ms, i + 1)|
  {
    hide Has, ReadDir, DirHeader, Storable, Offset, Locals;
    DirectoryAt(c, start, modtime, ms, |ms|, i);
    OffsetWithin(modtime, ms, i);
    DirReadBack(c, start + |Directory(modtime, ms, i)|, modtime, ms[i], Offset(modtime, ms, i));
  }

  lemma {:induction false} OffsetWithin(modtime: nat, ms: seq<Member>, i: nat)
    requires i <= |ms|
    ensures Offset(modtime, ms, i) <= |Locals(modtime, ms)|
    decreases |ms|
  {
    hide Local;
    if i < |ms| {
      var last := |ms| - 1;
      assert ms[..last][..i] == ms[..i];
      OffsetWithin(modtime, ms[..last], i);
    } else {
      assert ms[..i] == ms;
    }
  }

  /** The lengths in a local header lead to its data. */
  lemma DataFound(c: Str, modtime: nat, m: Member, offset: nat)
    requires Has(c, offset, Local(modtime, m)) && Storable(m) && modtime < WORD
    ensures Fetch(c, DirRecordOf(modtime, m, offset)) == m.data
    ensures Field(c, offset, 4) == 0x04034b50
  {
    hide Has, Field, Le16, Le32, HeaderStart, HeaderSizes, HeaderName, Crc32, ReadU16, ReadU32;
    var crc, size := MemberCrc(m), |m.data|;
    HasSplit(c, offset, LocalHeader(modtime, m, crc, size), m.data);
    HasSplit(c, offset, HeaderStart(modtime, m), HeaderSizes(crc, size) + HeaderName(m));
    HasSplit(c, offset + 14, HeaderSizes(crc, size), HeaderName(m));
    StartFields(c, offset, modtime, m);
    NameFields(c, offset + 26, m);
    HasLength(c, offset + 30 + |m.name|, m.data);
    ReadIsField(c, offset);
    ReadIsField(c, offset + 26);
    ReadIsField(c, offset + 28);
  }

  /** A reader that goes by the directory finds the members of a closed container, whatever their names, in the
      order they were written, each with its attributes and its data, and comes to the end record: all of them,
      or as many as the 16-bit count tells. */
  lemma ListedBack(modtime: nat, ms: seq<Member>)
    requires AllStorable(ms) && modtime < WORD && |Container(modtime, ms)| < WORD
    ensures var l := Listed(Container(modtime, ms));
            && |l.0| == |ms| % HALF && Lists(Container(modtime, ms), l.0, modtime, ms)
            && (|ms| < HALF ==> l.1 == |Container(modtime, ms)| - 22)
  {
    hide Has, Directory, Locals, Container, ReadEnd, WalkDir, Lists, AllStorable, EndRecord;
    var c, start := Container(modtime, ms), |Locals(modtime, ms)|;
    EndAgrees(modtime, ms);
    ContainerParts(modtime, ms);
    WalkLists(c, start, modtime, ms, |ms| % HALF);
  }

  lemma WalkLists(c: Str, start: nat, modtime: nat, ms: seq<Member>, n: nat)
    requires Has(c, 0, Locals(modtime, ms)) && Has(c, start, Directory(modtime, ms, |ms|)) && n <= |ms|
    requires AllStorable(ms) && modtime < WORD && |Locals(modtime, ms)| < WORD
    ensures var w := WalkDir(c, start, n);
            |w.0| == n && Lists(c, w.0, modtime, ms) && w.1 == start + |Directory(modtime, ms, n)|
  {
    hide Has, Directory, Locals, WalkDir, DirRecordOf, Fetch, Offset, AllStorable;
    NoEntries(modtime, ms);
    WalkFrom(c, start, modtime, ms, n, 0);
    AllFetched(c, modtime, ms);
  }

  lemma AllFetched(c: Str, modtime: nat, ms: seq<Member>)
    requires Has(c, 0, Locals(modtime, ms)) && AllStorable(ms) && modtime < WORD
    ensures forall i :: 0 <= i < |ms| ==> Fetch(c, DirRecordOf(modtime, ms[i], Offset(modtime, ms, i))) == ms[i].data
  {
    hide Has, Locals, DirRecordOf, Fetch, Local, Offset, AllStorable;
    forall i | 0 <= i < |ms|
      ensures Fetch(c, DirRecordOf(modtime, ms[i], Offset(modtime, ms, i))) == ms[i].data
    {
      StorableAt(ms, i);
      LocalAt(c, modtime, ms, i);
      DataFound(c, modtime, ms[i], Offset(modtime, ms, i));
    }
  }

  lemma StorableAt(ms: seq<Member>, i: nat)
    requires AllStorable(ms) && i < |ms|
    ensures Storable(ms[i])
  {
    hide Storable;
  }

  lemma NoEntries(modtime: nat, ms: seq<Member>)
    ensures Directory(modtime, ms, 0) == []
  {
  }

  /** The i-th entry repeats what the scan finds in the i-th local header, patched or not, and points at it. */
  lemma DirectoryAgrees(modtime: nat, ms: seq<Member>, i: nat)
    requires AllStorable(ms) && modtime < WORD && i < Reach(ms, 0) && |Container(modtime, ms)| < WORD
    ensures var c := Container(modtime, ms);
            var d := ReadDir(c, |Locals(modtime, ms)| + |Directory(modtime, ms, i)|);
            && |Scan(c, 0)| == Reach(ms, 0)
            && var r := Scan(c, 0)[i];
               && (d.name, d.coding, d.crc, d.csize, d.usize, d.offset) == (r.name, r.coding, r.crc, r.csize, r.usize, r.offset)
               && d.flags % FLAG_STREAMED == r.flags
               && d.version == Field(c, r.offset + 4, 2) && d.modtime == Field(c, r.offset + 10, 4)
  {
    hide Has, Locals, Scan, Container, ReadDir, Directory, Local, Field, Crc32, Reach, Offset, ReadU16, ReadU32, Storable;
    var c := Container(modtime, ms);
    ScanBack(modtime, ms);
    RecordsLength(modtime, ms, 0);
    ContainerParts(modtime, ms);
    EntryRead(c, |Locals(modtime, ms)|, modtime, ms, i);
    LocalAt(c, modtime, ms, i);
    LocalStart(c, Offset(modtime, ms, i), modtime, ms[i]);
  }

  lemma LocalStart(c: Str, pos: nat, modtime: nat, m: Member)
    requires Has(c, pos, Local(modtime, m)) && Storable(m) && modtime < WORD
    ensures Field(c, pos + 4, 2) == Version(m) && Field(c, pos + 10, 4) == modtime
  {
    hide Has, HeaderStart, HeaderSizes, HeaderName, Field, Crc32;
    var crc, size := MemberCrc(m), |m.data|;
    HasSplit(c, pos, LocalHeader(modtime, m, crc, size), m.data);
    HasSplit(c, pos, HeaderStart(modtime, m), HeaderSizes(crc, size) + HeaderName(m));
    HasLength(c, pos, HeaderStart(modtime, m));
    StartFields(c, pos, modtime, m);
    ReadIsField(c, pos + 4);
    ReadIsField(c, pos + 10);
  }

  /** The bytes that tell the parts of a container and the kinds of its members apart. */
  lemma Signatures(modtime: nat, m: Member, offset: nat, count: nat, size: nat, start: nat)
    ensures Local(modtime, m)[..4] == [0x50, 0x4b, 3, 4]
    ensures DirHeader(modtime, m, offset)[..4] == [0x50, 0x4b, 1, 2]
    ensures EndRecord(count, size, start)[..4] == [0x50, 0x4b, 5, 6]
    ensures m.external == EXTERNAL_DIR ==> DirHeader(modtime, m, offset)[38..42] == [0x10, 0, 0xed, 0x41]
    ensures m.external == EXTERNAL_FILE ==> DirHeader(modtime, m, offset)[38..42] == [0, 0, 0xa4, 0x81]
    ensures m.internal == INTERNAL_TEXT ==> DirHeader(modtime, m, offset)[36..38] == [1, 0]
  {
    hide Crc32, Le16, Le32, HeaderSizes, HeaderName, DirLengths;
    KnownBytes();
    var dir := DirHeader(modtime, m, offset);
    assert Local(modtime, m)[..4] == Le32(LOCAL_HEADER);
    assert dir[..4] == Le32(DIR_HEADER);
    assert EndRecord(count, size, start)[..4] == Le32(END_RECORD);
    assert dir[36..38] == Le16(m.internal);
    assert dir[38..42] == Le32(m.external);
  }

  lemma KnownBytes()
    ensures Le32(LOCAL_HEADER) == [0x50, 0x4b, 3, 4] && Le32(DIR_HEADER) == [0x50, 0x4b, 1, 2]
    ensures Le32(END_RECORD) == [0x50, 0x4b, 5, 6] && Le16(INTERNAL_TEXT) == [1, 0]
    ensures Le32(EXTERNAL_DIR) == [0x10, 0, 0xed, 0x41] && Le32(EXTERNAL_FILE) == [0, 0, 0xa4, 0x81]
  {
  }
}
