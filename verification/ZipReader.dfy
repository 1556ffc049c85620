/** Reading a container (zipc.c): the scan that opens it, and the contents of stored files, read in pieces
    of any size or character by character through a buffer. */
module ZipReader {
  import Utf8
  import opened XmlTree
  import opened ZipFormat
  import opened ZipWriter

  const READ_SIZE: nat := 8192

  predicate Stored(r: Record) {
    r.coding == COMP_STORE
  }

  function Start(r: Record): nat {
    r.offset + r.localSize
  }

  /** Where an entry's data ends; a container may be cut short. */
  function End(file: Str, r: Record): nat {
    if Start(r) + r.usize <= |file| then Start(r) + r.usize else |file|
  }

  function Between(file: Str, from: nat, to: nat): Str {
    if from < to <= |file| then file[from..to] else []
  }

  /** What the container holds for a stored entry. */
  function Contents(file: Str, r: Record): Str {
    Between(file, Start(r), End(file, r))
  }

  /** The first place of a name, |names| if it is not there. */
  function FindName(names: seq<Str>, name: Str, i: nat): (k: nat)
    requires i <= |names|
    ensures i <= k <= |names|
    ensures k < |names| ==> names[k] == name
    ensures forall j :: i <= j < k ==> names[j] != name
    decreases |names| - i
  {
    if i == |names| || names[i] == name then i else FindName(names, name, i + 1)
  }

  function EntryNames(records: seq<Record>): (names: seq<Str>)
    ensures |names| == |records| && forall i :: 0 <= i < |records| ==> names[i] == records[i].name
  {
    seq(|records|, i requires 0 <= i < |records| => records[i].name)
  }

  function MemberNames(ms: seq<Member>): (names: seq<Str>)
    ensures |names| == |ms| && forall i :: 0 <= i < |ms| ==> names[i] == ms[i].name
  {
    seq(|ms|, i requires 0 <= i < |ms| => ms[i].name)
  }

  // A part of a file, cut in two.
  lemma BetweenSplit(file: Str, from: nat, k: nat, to: nat)
    requires from + k <= to <= |file|
    ensures Between(file, from, to) == Between(file, from, from + k) + Between(file, from + k, to)
    ensures Between(file, from, to)[..k] == Between(file, from, from + k)
    ensures Between(file, from, to)[k..] == Between(file, from + k, to)
  {
  }

  // Bytes taken off the read-ahead buffer are taken off what is left of the entry.
  lemma BufferSplit(file: Str, r: Record, from: nat, pos: nat, k: nat)
    requires Stored(r) && Between(file, from, pos) != [] && from + k <= pos && pos <= Start(r) + r.usize
    ensures Between(file, from, pos)[..k] == Between(file, from, from + k)
    ensures Between(file, from, pos)[k..] == Between(file, from + k, pos)
    ensures Between(file, from, End(file, r)) == Between(file, from, from + k) + Between(file, from + k, End(file, r))
  {
    BetweenSplit(file, from, k, pos);
    BetweenSplit(file, from, k, End(file, r));
  }

  class Reader {
    const file: Str
    const records: seq<Record>
    var pos: nat
    // The entry being read, how much of it has been handed out, and what is buffered of it.
    var current: Option<nat>
    var uncompressedPos: nat
    var readBuffer: Str

    /** The file stands behind what has been handed out and what is buffered. */
    ghost predicate Valid()
      reads this
    {
      current.Some? ==>
        && current.value < |records|
        && (Stored(records[current.value]) ==>
              var r := records[current.value];
              && uncompressedPos + |readBuffer| <= r.usize
              && pos == Start(r) + uncompressedPos + |readBuffer|
              && readBuffer == Between(file, Start(r) + uncompressedPos, pos))
    }

    /** A stored file is open. */
    ghost predicate Reading()
      reads this
    {
      Valid() && current.Some? && Stored(records[current.value])
    }

    /** What is left to read of the open entry. */
    ghost function Left(): Str
      requires Valid() && current.Some?
      reads this
    {
      var r := records[current.value];
      Between(file, Start(r) + uncompressedPos, End(file, r))
    }

    /** zipcOpen: collect the entries, one local header after the other. */
    constructor (file: Str)
      ensures this.file == file && records == Scan(file, 0) && current == None && Valid()
    {
      hide ReadU32, ReadLocal;
      var found: seq<Record> := [];
      var at := 0;
      var done := false;
      while !done
        invariant done ==> found == Scan(file, 0)
        invariant !done ==> found + Scan(file, at) == Scan(file, 0)
        decreases |file| - at, !done
      {
        var signature := ReadU32(file, at);
        if at + 4 > |file| || signature.v != LOCAL_HEADER {
          done := true;
        } else {
          var e := ReadLocal(file, at);
          if e.record.None? {
            done := true;
          } else {
            found := found + [e.record.value];
            at := e.pos;
          }
        }
      }
      this.file := file;
      records := found;
      pos, current, uncompressedPos, readBuffer := at, None, 0, [];
    }

    /** zipcOpenFile: the first entry of that name, from its start. */
    method OpenFile(filename: Str) returns (ok: bool)
      requires Valid()
      modifies this
      ensures Valid() && ok == (FindName(EntryNames(records), filename, 0) < |records|)
      ensures ok ==> current == Some(FindName(EntryNames(records), filename, 0)) && Left() == Contents(file, records[current.value])
      ensures !ok ==> current == old(current)
    {
      var i := 0;
      while i < |records|
        invariant 0 <= i <= |records| && Valid() && current == old(current)
        invariant FindName(EntryNames(records), filename, i) == FindName(EntryNames(records), filename, 0)
      {
        if records[i].name == filename {
          pos := Start(records[i]);
          uncompressedPos, readBuffer := 0, [];
          current := Some(i);
          return true;
        }
        i := i + 1;
      }
      return false;
    }

    // zipc_read_file, stored: never beyond the end of the entry; nothing at all reads as a failure.
    method ReadFile(bytes: nat) returns (data: Option<Str>)
      requires Reading() && readBuffer == []
      modifies this`pos
      ensures var n := if bytes <= |old(Left())| then bytes else |old(Left())|;
              && pos == old(pos) + n && old(Left())[..n] == Between(file, old(pos), pos)
              && data == if n == 0 then None else Some(old(Left())[..n])
    {
      var r := records[current.value];
      ghost var left := Left();
      var n := if uncompressedPos + bytes > r.usize then r.usize - uncompressedPos else bytes;
      if pos + n > |file| {
        n := if pos < |file| then |file| - pos else 0;
      }
      assert n <= |left| && left[..n] == Between(file, pos, pos + n);
      data := if n == 0 then None else Some(file[pos..pos + n]);
      pos := pos + n;
    }

    // The buffered part of a read.
    method FromBuffer(n: nat) returns (data: Str)
      requires Reading() && readBuffer != []
      modifies this`readBuffer, this`uncompressedPos
      ensures Valid() && |data| <= n && old(Left()) == data + Left()
      ensures n > 0 ==> data != []
    {
      hide Between, Start, End, Stored;
      ghost var r := records[current.value];
      ghost var from := Start(r) + uncompressedPos;
      var k := if |readBuffer| > n then n else |readBuffer|;
      BufferSplit(file, r, from, pos, k);
      data, readBuffer := readBuffer[..k], readBuffer[k..];
      uncompressedPos := uncompressedPos + k;
    }

    // The part of a read that goes to the file.
    method FromFile(n: nat) returns (data: Option<Str>)
      requires Reading() && readBuffer == []
      modifies this`pos, this`uncompressedPos
      ensures Valid()
      ensures data == None ==> Left() == old(Left()) && (n == 0 || Left() == [])
      ensures data.Some? ==> 0 < |data.value| <= n && old(Left()) == data.value + Left()
    {
      ghost var r := records[current.value];
      ghost var from := Start(r) + uncompressedPos;
      data := ReadFile(n);
      if data.Some? {
        BetweenSplit(file, from, |data.value|, End(file, r));
        uncompressedPos := uncompressedPos + |data.value|;
      }
    }

    /** zipcFileRead: the next bytes, at least one if any are asked for and left; None is the -1 of a read
      * that finds nothing. */
    method FileRead(bytes: nat) returns (data: Option<Str>)
      requires Reading()
      modifies this
      ensures Reading() && current == old(current)
      ensures data == None ==> Left() == old(Left()) && (bytes == 0 || Left() == [])
      ensures data.Some? ==> |data.value| <= bytes && old(Left()) == data.value + Left()
      ensures data.Some? && bytes > 0 ==> |data.value| > 0
    {
      var r := records[current.value];
      var n := if uncompressedPos + bytes > r.usize then r.usize - uncompressedPos else bytes;
      if readBuffer != [] {
        var taken := FromBuffer(n);
        data := Some(taken);
      } else {
        data := FromFile(n);
      }
    }

    /** zipc_read_char: the next byte, through a buffer that is filled ahead. */
    method ReadChar() returns (ch: Option<Utf8.byte>)
      requires Reading()
      modifies this
      ensures Reading() && current == old(current)
      ensures old(Left()) == [] ==> ch == None && Left() == []
      ensures old(Left()) != [] ==> ch == Some(old(Left())[0]) && Left() == old(Left())[1..]
    {
      ghost var left := Left();
      if readBuffer == [] {
        var bytes := ReadFile(READ_SIZE);
        if bytes.None? {
          return None;
        }
        readBuffer := bytes.value;
      }
      assert left[0] == readBuffer[0];
      uncompressedPos := uncompressedPos + 1;
      ch := Some(readBuffer[0]);
      readBuffer := readBuffer[1..];
    }

    /** Read to the end in pieces of the given sizes, the rest in single bytes: the contents, complete. */
    method ReadAll(sizes: seq<nat>) returns (all: Str)
      requires Reading()
      modifies this
      ensures Reading() && current == old(current) && all == old(Left()) && Left() == []
    {
      hide Between, End, Stored;
      all := [];
      var i := 0;
      while true
        invariant Reading() && current == old(current) && 0 <= i <= |sizes|
        invariant all + Left() == old(Left())
        decreases |Left()|, |sizes| - i
      {
        var size := if i < |sizes| then sizes[i] else 1;
        var data := FileRead(size);
        if data.Some? {
          assert all + (data.value + Left()) == all + data.value + Left();
          all := all + data.value;
        } else if size > 0 {
          return;
        }
        if i < |sizes| {
          i := i + 1;
        }
      }
    }
  }

  // ---- what was written is read ----

  lemma WrittenStorable(modtime: nat, files: seq<File>, ms: seq<Member>)
    requires AllDescribed(modtime, files, ms) && forall i :: 0 <= i < |ms| ==> |ms[i].data| < WORD
    ensures AllStorable(ms)
  {
    hide Crc32, Locals;
    forall i | 0 <= i < |ms|
      ensures Storable(ms[i])
    {
      assert Describes(files[i], ms[i], Offset(modtime, ms, i));
    }
  }

  /** Where the scan says an entry's data is, the member's data is. */
  lemma StoredContents(modtime: nat, ms: seq<Member>, i: nat)
    requires AllStorable(ms) && modtime < WORD && i < Reach(ms, 0)
    ensures var c := Container(modtime, ms);
            var rs := Scan(c, 0);
            && |rs| == Reach(ms, 0) && rs[i].name == ms[i].name
            && Stored(rs[i]) && Contents(c, rs[i]) == ms[i].data
  {
    hide Has, Scan, Container, Local, Locals, Directory, Contents, RecordOf, Offset, Storable, ReadLocal, ReadU32;
    var c := Container(modtime, ms);
    ScanBack(modtime, ms);
    RecordsLength(modtime, ms, 0);
    ContainerParts(modtime, ms);
    LocalAt(c, modtime, ms, i);
    LocalReadBack(c, Offset(modtime, ms, i), modtime, ms[i]);
    RecordContents(c, ms[i], Offset(modtime, ms, i));
  }

  lemma RecordContents(c: Str, m: Member, offset: nat)
    requires Has(c, offset + 30 + |m.name|, m.data)
    ensures var r := RecordOf(m, offset); r.name == m.name && Stored(r) && Contents(c, r) == m.data
  {
    hide Crc32;
  }

  /** What a reader gets for a name: the contents of the first member written under it, if no member
    * before that one has an empty name. */
  function Readback(ms: seq<Member>, name: Str): Option<Str> {
    var reached := ms[..Reach(ms, 0)];
    var k := FindName(MemberNames(reached), name, 0);
    if k < |reached| then Some(reached[k].data) else None
  }

  /** Opening the bytes of a closed container and reading a name yields the contents of the first member
    * written under it, however the reading is cut into pieces; a name not written, or written after an
    * empty one, is not found. */
  method RoundTrip(ghost modtime: nat, ghost ms: seq<Member>, bytes: Str, name: Str, sizes: seq<nat>) returns (data: Option<Str>)
    requires bytes == Container(modtime, ms) && AllStorable(ms) && modtime < WORD
    ensures data == Readback(ms, name)
  {
    hide AllStorable, Container, Scan, Contents;
    var reader := new Reader(bytes);
    SameFirst(modtime, ms, name);
    var found := reader.OpenFile(name);
    if !found {
      return None;
    }
    StoredContents(modtime, ms, reader.current.value);
    var all := reader.ReadAll(sizes);
    return Some(all);
  }

  lemma SameFirst(modtime: nat, ms: seq<Member>, name: Str)
    requires AllStorable(ms) && modtime < WORD
    ensures var rs, reached := Scan(Container(modtime, ms), 0), ms[..Reach(ms, 0)];
            |rs| == |reached| && FindName(EntryNames(rs), name, 0) == FindName(MemberNames(reached), name, 0)
  {
    hide AllStorable, Container, Scan, Contents;
    var rs := Scan(Container(modtime, ms), 0);
    ScanBack(modtime, ms);
    forall i | 0 <= i < |rs|
      ensures rs[i].name == ms[i].name
    {
      StoredContents(modtime, ms, i);
    }
  }
}
