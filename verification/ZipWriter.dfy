/** Writing a container (zipc.c): headers go out before the data, and a streamed file's header is patched
    in place when it is finished. */
module ZipWriter {
  import opened XmlTree
  import opened ZipFormat

  /** `zipc_file_t`, as far as a stored file needs it. */
  datatype File = File(name: Str, flags: nat, crc: nat, csize: nat, usize: nat, offset: nat, internal: nat, external: nat)

  /** What strncpy leaves of a name. */
  function Clip(name: Str): Str {
    var s := CStr(name);
    if |s| > 255 then s[..255] else s
  }

  /** A directory's name ends in a slash when there is room for one. */
  function DirName(name: Str): Str {
    if name != [] && |name| < 255 && name[|name| - 1] != SLASH then name + [SLASH] else name
  }

  /** The name stored is the C string given, cut to 255 bytes; that of a directory also gets a slash at its end,
    * unless it is empty, has one, or fills those bytes. */
  lemma StoredNames(filename: Str)
    ensures var n := CStr(filename);
            && Clip(filename) == (if |n| <= 255 then n else n[..255])
            && DirName(Clip(filename))
               == if n == [] then []
                  else if |n| >= 255 then n[..255]
                  else if n[|n| - 1] == 47 then n
                  else n + [47]
  {
  }

  lemma {:induction false} CStrNoNul(s: Str)
    ensures 0 !in CStr(s)
  {
    if s != [] && s[0] != 0 {
      CStrNoNul(s[1..]);
    }
  }

  lemma ClipFits(name: Str)
    ensures |Clip(name)| <= 255 && 0 !in Clip(name)
    ensures |DirName(Clip(name))| <= 255 && 0 !in DirName(Clip(name))
  {
    CStrNoNul(name);
  }

  function Or(a: int, b: int): int {
    if a == 0 && b == 0 then 0 else -1
  }

  /** The record of a member at its place in the file. */
  predicate Describes(f: File, m: Member, offset: nat) {
    && f == File(m.name, m.flags, MemberCrc(m), |m.data|, |m.data|, offset, m.internal, m.external)
    && |m.name| <= 255 && 0 !in m.name && m.flags < HALF && m.internal < HALF && m.external < WORD
  }

  predicate AllDescribed(modtime: nat, files: seq<File>, ms: seq<Member>) {
    && |files| == |ms|
    && forall i :: 0 <= i < |ms| ==> Describes(files[i], ms[i], Offset(modtime, ms, i))
  }

  // The file while its last member is being streamed: the header still has zeros.
  function Unfinished(modtime: nat, ms: seq<Member>): Str
    requires ms != []
  {
    var m := ms[|ms| - 1];
    Locals(modtime, ms[..|ms| - 1]) + (LocalHeader(modtime, m, 0, 0) + m.data)
  }

  class Writer {
    const modtime: nat
    var file: Str
    var pos: nat
    var files: seq<File>
    ghost var members: seq<Member>
    ghost var streaming: bool

    /** The file is the members so far; while one is streamed, its header is not yet filled in. */
    ghost predicate Valid()
      reads this
    {
      && modtime < WORD && pos == |file|
      && AllDescribed(modtime, files, members)
      && (streaming ==> members != [] && members[|members| - 1].flags == FLAG_STREAMED)
      && file == if streaming && members != [] then Unfinished(modtime, members) else Locals(modtime, members)
    }

    constructor (modtime: nat)
      requires modtime < WORD
      ensures Valid() && !streaming && members == [] && this.modtime == modtime
    {
      this.modtime := modtime;
      file, pos, files := [], 0, [];
      members, streaming := [], false;
    }

    // fwrite at the file position; writing nothing counts as a failure.
    method Write(bytes: Str) returns (status: int)
      requires pos <= |file|
      modifies this`file, this`pos
      ensures pos == old(pos) + |bytes| <= |file|
      ensures file == old(file)[..old(pos)] + bytes + if pos < |old(file)| then old(file)[pos..] else []
      ensures status == if bytes == [] then -1 else 0
    {
      var end := pos + |bytes|;
      file := file[..pos] + bytes + if end < |file| then file[end..] else [];
      pos := end;
      status := if bytes == [] then -1 else 0;
    }

    // Writing at the end of the file.
    method Append(bytes: Str) returns (status: int)
      requires pos == |file|
      modifies this`file, this`pos
      ensures pos == |file| && file == old(file) + bytes
      ensures status == if bytes == [] then -1 else 0
    {
      status := Write(bytes);
      assert old(file)[..old(pos)] == old(file);
    }

    method AppendU16(v: nat) returns (status: int)
      requires pos == |file|
      modifies this`file, this`pos
      ensures pos == |file| && file == old(file) + Le16(v) && status == 0
    {
      status := Append(Le16(v));
    }

    method AppendU32(v: nat) returns (status: int)
      requires pos == |file|
      modifies this`file, this`pos
      ensures pos == |file| && file == old(file) + Le32(v) && status == 0
    {
      status := Append(Le32(v));
    }

    /** zipc_write_local_header */
    method WriteLocalHeader(f: File, ghost m: Member) returns (status: int)
      requires pos == |file| && f.name == m.name && f.external == m.external && f.flags == m.flags && f.csize == f.usize
      modifies this`file, this`pos
      ensures pos == |file|
      ensures file == old(file) + LocalHeader(modtime, m, if f.usize == 0 then 0 else f.crc, f.usize)
      ensures status == if f.name == [] then -1 else 0
    {
      hide Le16, HeaderStart, HeaderSizes;
      ghost var before := file;
      status := WriteHeaderStart(f, m);
      ghost var crc := if f.usize == 0 then 0 else f.crc;
      var s := WriteSizes(if f.usize == 0 then 0 else f.crc, f.csize);
      s := AppendU16(|f.name|);
      s := AppendU16(0);
      s := Append(f.name);
      status := Or(status, s);
      assert file == before + HeaderStart(modtime, m) + HeaderSizes(crc, f.usize) + HeaderName(m);
    }

    method WriteHeaderStart(f: File, ghost m: Member) returns (status: int)
      requires pos == |file| && f.external == m.external && f.flags == m.flags
      modifies this`file, this`pos
      ensures pos == |file| && file == old(file) + HeaderStart(modtime, m) && status == 0
    {
      hide Le16, Le32;
      status := AppendU32(LOCAL_HEADER);
      var s := AppendU16(if f.external == EXTERNAL_DIR then DIR_VERSION else FILE_VERSION);
      s := AppendU16(f.flags % FLAG_STREAMED);
      s := AppendU16(COMP_STORE);
      s := AppendU32(modtime);
    }

    // zipc_add_file, for a stored file, with the fields its callers set before the header is written.
    method AddFile(f: File, ghost m: Member)
      requires Valid() && !streaming && Describes(f, m, |file|)
      modifies this`files, this`members
      ensures files == old(files) + [f] && members == old(members) + [m]
      ensures AllDescribed(modtime, files, members) && file == Locals(modtime, members[..|members| - 1])
    {
      hide Describes, Locals;
      files := files + [f];
      DescribedNext(modtime, old(files), members, f, m);
      members := members + [m];
      assert members[..|members| - 1] == old(members);
    }

    /** zipcCreateDirectory */
    method CreateDirectory(filename: Str) returns (status: int)
      requires Valid() && !streaming
      modifies this
      ensures Valid() && !streaming
      ensures var name := DirName(Clip(filename));
              && members == old(members) + [Member(name, [], 0, 0, EXTERNAL_DIR)]
              && status == if name == [] then -1 else 0
      ensures var n := CStr(filename);
              members[|members| - 1].name
              == if n == [] then []
                 else if |n| >= 255 then n[..255]
                 else if n[|n| - 1] == 47 then n
                 else n + [47]
    {
      hide Locals, Local, LocalHeader, Clip, DirName, Crc32, AllDescribed;
      StoredNames(filename);
      ClipFits(filename);
      CrcEmpty();
      var f := File(DirName(Clip(filename)), 0, 0, 0, 0, pos, 0, EXTERNAL_DIR);
      ghost var m := Member(f.name, [], 0, 0, EXTERNAL_DIR);
      AddFile(f, m);
      status := WriteLocalHeader(f, m);
      LocalsNext(modtime, members);
    }

    /** zipcCreateFileWithString; an empty string is reported as a failure, but is stored. */
    method CreateFileWithString(filename: Str, contents: Str) returns (status: int)
      requires Valid() && !streaming && |CStr(contents)| < WORD
      modifies this
      ensures Valid() && !streaming
      ensures members == old(members) + [Member(Clip(filename), CStr(contents), 0, INTERNAL_TEXT, EXTERNAL_FILE)]
      ensures status == if Clip(filename) == [] || CStr(contents) == [] then -1 else 0
      ensures var n := CStr(filename); members[|members| - 1].name == if |n| <= 255 then n else n[..255]
    {
      hide Locals, Local, LocalHeader, Clip, Crc32, CStr, AllDescribed;
      StoredNames(filename);
      ClipFits(filename);
      CrcEmpty();
      var text := CStr(contents);
      var f := File(Clip(filename), 0, Crc32(0, text), |text|, |text|, pos, INTERNAL_TEXT, EXTERNAL_FILE);
      ghost var m := Member(f.name, text, 0, INTERNAL_TEXT, EXTERNAL_FILE);
      AddFile(f, m);
      status := WriteLocalHeader(f, m);
      var s := Append(text);
      status := Or(status, s);
      LocalsNext(modtime, members);
    }

    /** zipcCreateFile, not compressed: the header goes out before anything is known about the data. With
      * an empty name the call fails, and its entry stays as it is. */
    method CreateFile(filename: Str) returns (created: bool)
      requires Valid() && !streaming
      modifies this
      ensures Valid() && streaming == created && created == (Clip(filename) != [])
      ensures members == old(members) + [Member(Clip(filename), [], FLAG_STREAMED, 0, EXTERNAL_FILE)]
      ensures var n := CStr(filename); members[|members| - 1].name == if |n| <= 255 then n else n[..255]
    {
      hide Locals, Local, LocalHeader, Clip, Crc32, AllDescribed;
      StoredNames(filename);
      ClipFits(filename);
      CrcEmpty();
      var f := File(Clip(filename), FLAG_STREAMED, 0, 0, 0, pos, 0, EXTERNAL_FILE);
      ghost var m := Member(f.name, [], FLAG_STREAMED, 0, EXTERNAL_FILE);
      AddFile(f, m);
      var status := WriteLocalHeader(f, m);
      created := status == 0;
      streaming := created;
      LocalsNext(modtime, members);
    }

    /** zipcFileWrite and, with `text`, zipcFilePuts: data for the file being streamed. */
    method FileWrite(data: Str, text: bool) returns (status: int)
      requires Valid() && streaming && |data| < WORD
      modifies this
      ensures Valid() && streaming
      ensures var last := |old(members)| - 1;
              var m := old(members)[last];
              members == old(members)[last := m.(data := m.data + data, internal := if text then INTERNAL_TEXT else m.internal)]
      ensures status == if data == [] then -1 else 0
    {
      hide Locals, LocalHeader, Crc32, AllDescribed, Unfinished, Offset;
      DescribedEnd(modtime, files, members);
      var last := |files| - 1;
      ghost var before := members;
      ghost var m := members[last];
      ghost var m' := m.(data := m.data + data, internal := if text then INTERNAL_TEXT else m.internal);
      var f := files[last];
      if text {
        f := f.(internal := INTERNAL_TEXT);
      }
      f := f.(usize := f.usize + |data|);
      CrcAccumulates(0, m.data, data);
      f := f.(crc := Crc32(f.crc, data));
      status := Append(data);
      f := f.(csize := f.csize + |data|);
      files := files[last := f];
      members := members[last := m'];
      DescribedLast(modtime, old(files), before, f, m');
      UnfinishedMore(modtime, before, m', data);
    }

    /** zipcFileFinish: patch checksum and sizes into the header and return to the end of the file. */
    method FileFinish() returns (status: int)
      requires Valid() && streaming
      modifies this
      ensures Valid() && !streaming && status == 0
      ensures var last := |old(members)| - 1;
              members == old(members)[last := old(members)[last].(flags := 0)]
    {
      hide Locals, Crc32, AllDescribed, Unfinished, Offset, Local, LocalHeader;
      DescribedEnd(modtime, files, members);
      var last := |files| - 1;
      ghost var before := members;
      ghost var m := members[last];
      ghost var m' := m.(flags := 0);
      var f := files[last];
      PatchPlace(modtime, members, f.offset);
      status := PatchHeader(f, m);
      pos := |file|;
      f := f.(flags := f.flags % FLAG_STREAMED);
      files := files[last := f];
      members := members[last := m'];
      streaming := false;
      SameHeaderFlags(modtime, m, m');
      DescribedLast(modtime, old(files), before, f, m');
      FinishedFile(modtime, before, m');
    }

    method PatchHeader(f: File, ghost m: Member) returns (status: int)
      requires f.csize == f.usize && Has(file, f.offset, LocalHeader(modtime, m, 0, 0))
      modifies this`file, this`pos
      ensures status == 0
      ensures file == old(file)[..f.offset] + LocalHeader(modtime, m, f.crc, f.usize) + old(file)[f.offset + 30 + |m.name|..]
    {
      hide Le16, Le32, HeaderStart, HeaderName;
      var at := f.offset + 14;
      ghost var before := file;
      HasLength(file, f.offset, LocalHeader(modtime, m, 0, 0));
      pos := at;
      status := Write(Le32(f.crc));
      var s := Write(Le32(f.csize));
      s := Write(Le32(f.usize));
      assert file == before[..at] + HeaderSizes(f.crc, f.usize) + before[at + 12..];
      PatchedBytes(before, modtime, m, f.offset, f.crc, f.usize);
    }

    /** zipcClose: the central directory and the end record follow the members. */
    method Close() returns (status: int)
      requires Valid() && !streaming
      modifies this
      ensures file == Container(modtime, members) && members == old(members)
      ensures AllDescribed(modtime, files, members) && files == old(files)
      ensures status == 0 <==> forall i :: 0 <= i < |members| ==> members[i].name != []
    {
      hide Locals, DirHeader, Directory, EndRecord, Crc32, AllDescribed;
      var start := pos;
      status := WriteDirectory();
      var end := pos;
      var s := WriteEndRecord(|files|, end - start, start);
      DescribedCount(modtime, files, members);
      assert file == Locals(modtime, members) + Directory(modtime, members, |members|)
                     + EndRecord(|members|, |Directory(modtime, members, |members|)|, |Locals(modtime, members)|);
    }

    method WriteDirectory() returns (status: int)
      requires Valid() && !streaming
      modifies this`file, this`pos
      ensures pos == |file| && file == old(file) + Directory(modtime, members, |members|)
      ensures status == 0 <==> forall i :: 0 <= i < |members| ==> members[i].name != []
    {
      hide Locals, DirHeader, Crc32, Offset;
      status := 0;
      var i := 0;
      while i < |files|
        invariant 0 <= i <= |files| && pos == |file|
        invariant file == old(file) + Directory(modtime, members, i)
        invariant status == 0 <==> forall k :: 0 <= k < i ==> members[k].name != []
      {
        var s := WriteDirHeader(files[i], members[i]);
        status := Or(status, s);
        i := i + 1;
      }
    }

    method WriteEndRecord(count: nat, size: nat, start: nat) returns (status: int)
      requires pos == |file|
      modifies this`file, this`pos
      ensures pos == |file| && file == old(file) + EndRecord(count, size, start) && status == 0
    {
      hide Le16, Le32;
      status := AppendU32(END_RECORD);
      var s := AppendU16(0);
      s := AppendU16(0);
      s := AppendU16(count);
      s := AppendU16(count);
      s := AppendU32(size);
      s := AppendU32(start);
      s := AppendU16(0);
    }

    /** zipc_write_dir_header */
    method WriteDirHeader(f: File, ghost m: Member) returns (status: int)
      requires pos == |file| && Describes(f, m, f.offset)
      modifies this`file, this`pos
      ensures pos == |file| && file == old(file) + DirHeader(modtime, m, f.offset)
      ensures status == if f.name == [] then -1 else 0
    {
      hide DirStart, HeaderSizes, DirLengths, DirPlace, Crc32;
      status := WriteDirStart(f, m);
      var s := WriteSizes(f.crc, f.csize);
      s := WriteDirLengths(|f.name|);
      s := WriteDirPlace(f, m);
      status := Append(f.name);
    }

    method WriteDirStart(f: File, ghost m: Member) returns (status: int)
      requires pos == |file| && f.external == m.external && f.flags == m.flags
      modifies this`file, this`pos
      ensures pos == |file| && file == old(file) + DirStart(modtime, m) && status == 0
    {
      hide Le16, Le32;
      status := AppendU32(DIR_HEADER);
      var s := AppendU16(MADE_BY);
      s := AppendU16(if f.external == EXTERNAL_DIR then DIR_VERSION else FILE_VERSION);
      s := AppendU16(f.flags);
      s := AppendU16(COMP_STORE);
      s := AppendU32(modtime);
    }

    method WriteSizes(crc: nat, size: nat) returns (status: int)
      requires pos == |file|
      modifies this`file, this`pos
      ensures pos == |file| && file == old(file) + HeaderSizes(crc, size) && status == 0
    {
      hide Le32;
      status := AppendU32(crc);
      var s := AppendU32(size);
      s := AppendU32(size);
    }

    method WriteDirLengths(nameLen: nat) returns (status: int)
      requires pos == |file|
      modifies this`file, this`pos
      ensures pos == |file| && file == old(file) + DirLengths(nameLen) && status == 0
    {
      hide Le16;
      status := AppendU16(nameLen);
      var s := AppendU16(0);
      s := AppendU16(0);
      s := AppendU16(0);
    }

    method WriteDirPlace(f: File, ghost m: Member) returns (status: int)
      requires pos == |file| && f.internal == m.internal && f.external == m.external
      modifies this`file, this`pos
      ensures pos == |file| && file == old(file) + DirPlace(m, f.offset) && status == 0
    {
      hide Le16, Le32;
      status := AppendU16(f.internal);
      var s := AppendU32(f.external);
      s := AppendU32(f.offset);
    }
  }

  // ---- the bytes after each step ----

  lemma DescribedNext(modtime: nat, files: seq<File>, ms: seq<Member>, f: File, m: Member)
    requires AllDescribed(modtime, files, ms) && Describes(f, m, |Locals(modtime, ms)|)
    ensures AllDescribed(modtime, files + [f], ms + [m])
  {
    hide Describes, Locals;
    var ms' := ms + [m];
    assert ms'[..|ms|] == ms;
    forall i | 0 <= i < |ms'|
      ensures Describes((files + [f])[i], ms'[i], Offset(modtime, ms', i))
    {
      if i < |ms| {
        assert ms'[..i] == ms[..i];
      }
    }
  }

  lemma DescribedLast(modtime: nat, files: seq<File>, ms: seq<Member>, f: File, m: Member)
    requires AllDescribed(modtime, files, ms) && ms != [] && Describes(f, m, files[|ms| - 1].offset)
    ensures AllDescribed(modtime, files[|ms| - 1 := f], ms[|ms| - 1 := m])
  {
    hide Locals, Crc32;
    var last := |ms| - 1;
    var ms' := ms[last := m];
    forall i | 0 <= i < |ms'|
      ensures Describes(files[last := f][i], ms'[i], Offset(modtime, ms', i))
    {
      assert ms'[..i] == ms[..i];
    }
  }

  lemma DescribedEnd(modtime: nat, files: seq<File>, ms: seq<Member>)
    requires AllDescribed(modtime, files, ms)
    ensures |files| == |ms|
    ensures ms != [] ==> Describes(files[|ms| - 1], ms[|ms| - 1], Offset(modtime, ms, |ms| - 1))
  {
    hide Describes, Offset;
  }

  // More data for the member being streamed.
  lemma UnfinishedMore(modtime: nat, ms: seq<Member>, m: Member, data: Str)
    requires ms != [] && m == ms[|ms| - 1].(data := ms[|ms| - 1].data + data, internal := m.internal)
    ensures Unfinished(modtime, ms[|ms| - 1 := m]) == Unfinished(modtime, ms) + data
  {
    hide Locals, LocalHeader;
    var last := |ms| - 1;
    SameHeader(modtime, ms[last], m);
    assert ms[last := m][..last] == ms[..last];
  }

  // The member being streamed with its header filled in.
  lemma FinishedFile(modtime: nat, ms: seq<Member>, m: Member)
    requires ms != [] && m == ms[|ms| - 1].(flags := 0) && ms[|ms| - 1].flags == FLAG_STREAMED
    ensures var was := ms[|ms| - 1];
            Locals(modtime, ms[|ms| - 1 := m]) ==
            Locals(modtime, ms[..|ms| - 1]) + LocalHeader(modtime, was, MemberCrc(was), |was.data|) + was.data
  {
    hide LocalHeader, Crc32;
    var last := |ms| - 1;
    SameHeaderFlags(modtime, ms[last], m);
    LocalsNext(modtime, ms[last := m]);
    assert ms[last := m][..last] == ms[..last];
  }

  lemma LocalsNext(modtime: nat, ms: seq<Member>)
    requires ms != []
    ensures Locals(modtime, ms) == Locals(modtime, ms[..|ms| - 1]) + Local(modtime, ms[|ms| - 1])
    ensures ms[|ms| - 1].data == [] ==> MemberCrc(ms[|ms| - 1]) == 0
    ensures Local(modtime, ms[|ms| - 1]) ==
            LocalHeader(modtime, ms[|ms| - 1], MemberCrc(ms[|ms| - 1]), |ms[|ms| - 1].data|) + ms[|ms| - 1].data
  {
    hide LocalHeader, Crc32;
    CrcEmpty();
  }

  // The header does not depend on the data or the internal attributes, nor on the internal flag.
  lemma SameHeader(modtime: nat, m: Member, m': Member)
    requires m' == m.(data := m'.data, internal := m'.internal)
    ensures LocalHeader(modtime, m', 0, 0) == LocalHeader(modtime, m, 0, 0)
  {
  }

  lemma SameHeaderFlags(modtime: nat, m: Member, m': Member)
    requires m.flags == FLAG_STREAMED && m' == m.(flags := 0)
    ensures MemberCrc(m') == MemberCrc(m)
    ensures LocalHeader(modtime, m', MemberCrc(m), |m.data|) == LocalHeader(modtime, m, MemberCrc(m), |m.data|)
  {
    hide Crc32;
  }

  lemma PatchPlace(modtime: nat, ms: seq<Member>, offset: nat)
    requires ms != [] && offset == Offset(modtime, ms, |ms| - 1)
    ensures var m := ms[|ms| - 1];
            var file := Unfinished(modtime, ms);
            && Has(file, offset, LocalHeader(modtime, m, 0, 0))
            && file[..offset] == Locals(modtime, ms[..|ms| - 1])
            && file[offset + 30 + |m.name|..] == m.data
  {
    hide Locals, LocalHeader;
  }

  lemma PatchedBytes(before: Str, modtime: nat, m: Member, offset: nat, crc: nat, size: nat)
    requires Has(before, offset, LocalHeader(modtime, m, 0, 0))
    ensures var at, end := offset + 14, offset + 30 + |m.name|;
            && end <= |before|
            && before[..at] + HeaderSizes(crc, size) + before[at + 12..]
               == before[..offset] + LocalHeader(modtime, m, crc, size) + before[end..]
  {
    hide HeaderStart, HeaderSizes, HeaderName, Has;
    var at, end := offset + 14, offset + 30 + |m.name|;
    HasLength(before, offset, LocalHeader(modtime, m, 0, 0));
    HasSplit(before, offset, HeaderStart(modtime, m), HeaderSizes(0, 0) + HeaderName(m));
    HasSplit(before, at, HeaderSizes(0, 0), HeaderName(m));
    HasLength(before, offset, HeaderStart(modtime, m));
    HasLength(before, at + 12, HeaderName(m));
    assert before[..at] == before[..offset] + HeaderStart(modtime, m);
    assert before[at + 12..] == HeaderName(m) + before[end..];
  }

  lemma DescribedCount(modtime: nat, files: seq<File>, ms: seq<Member>)
    requires AllDescribed(modtime, files, ms)
    ensures |files| == |ms|
  {
  }
}
