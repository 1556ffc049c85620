/** From the calls that write a container (zipc.c) to the calls that read it again. */
module ZipRoundTrip {
  import opened XmlTree
  import opened ZipFormat
  import opened ZipWriter
  import opened ZipReader

  /** zipcFileWrite or, as text, zipcFilePuts */
  datatype Chunk = Chunk(data: Str, text: bool)

  /** The ways to add a member: a directory, a string, a file written in chunks and finished. */
  datatype Op =
    | MakeDirectory(name: Str)
    | StoreString(name: Str, contents: Str)
    | StreamFile(name: Str, chunks: seq<Chunk>)

  function Data(chunks: seq<Chunk>, n: nat): Str
    requires n <= |chunks|
  {
    if n == 0 then [] else Data(chunks, n - 1) + chunks[n - 1].data
  }

  predicate AnyText(chunks: seq<Chunk>, n: nat)
    requires n <= |chunks|
  {
    exists i :: 0 <= i < n && chunks[i].text
  }

  /** What an operation puts into the container; a file that cannot be created leaves an empty entry. */
  function MemberOf(op: Op): Member {
    match op
    case MakeDirectory(name) => Member(DirName(Clip(name)), [], 0, 0, EXTERNAL_DIR)
    case StoreString(name, contents) => Member(Clip(name), CStr(contents), 0, INTERNAL_TEXT, EXTERNAL_FILE)
    case StreamFile(name, chunks) =>
      if Clip(name) == [] then Member([], [], FLAG_STREAMED, 0, EXTERNAL_FILE)
      else Member(Clip(name), Data(chunks, |chunks|), 0, if AnyText(chunks, |chunks|) then INTERNAL_TEXT else 0, EXTERNAL_FILE)
  }

  function MembersOf(ops: seq<Op>): (ms: seq<Member>)
    ensures |ms| == |ops| && forall i :: 0 <= i < |ops| ==> ms[i] == MemberOf(ops[i])
  {
    seq(|ops|, i requires 0 <= i < |ops| => MemberOf(ops[i]))
  }

  /** Sizes that 32-bit fields can hold. */
  predicate Fits(op: Op) {
    match op
    case MakeDirectory(_) => true
    case StoreString(_, contents) => |CStr(contents)| < WORD
    case StreamFile(_, chunks) => |Data(chunks, |chunks|)| < WORD
  }

  lemma {:induction false} ChunkFits(chunks: seq<Chunk>, i: nat, n: nat)
    requires i < n <= |chunks|
    ensures |chunks[i].data| <= |Data(chunks, n)|
  {
    if i < n - 1 {
      ChunkFits(chunks, i, n - 1);
    }
  }

  method Stream(w: Writer, name: Str, chunks: seq<Chunk>)
    requires w.Valid() && !w.streaming && Fits(StreamFile(name, chunks))
    modifies w
    ensures w.Valid() && !w.streaming && w.members == old(w.members) + [MemberOf(StreamFile(name, chunks))]
  {
    hide Data, Clip, AllDescribed, Locals, Unfinished, AnyText, CStr;
    var created := w.CreateFile(name);
    if !created {
      return;
    }
    NoData(chunks);
    var i := 0;
    while i < |chunks|
      invariant 0 <= i <= |chunks| && w.Valid() && w.streaming
      invariant w.members == old(w.members) + [Member(Clip(name), Data(chunks, i), FLAG_STREAMED,
                                                      if AnyText(chunks, i) then INTERNAL_TEXT else 0, EXTERNAL_FILE)]
    {
      ChunkFits(chunks, i, |chunks|);
      NextData(chunks, i);
      var status := w.FileWrite(chunks[i].data, chunks[i].text);
      i := i + 1;
    }
    var status := w.FileFinish();
  }

  lemma NoData(chunks: seq<Chunk>)
    ensures Data(chunks, 0) == [] && !AnyText(chunks, 0)
  {
  }

  lemma NextData(chunks: seq<Chunk>, i: nat)
    requires i < |chunks|
    ensures Data(chunks, i + 1) == Data(chunks, i) + chunks[i].data
    ensures AnyText(chunks, i + 1) <==> AnyText(chunks, i) || chunks[i].text
  {
  }

  method Perform(w: Writer, op: Op)
    requires w.Valid() && !w.streaming && Fits(op)
    modifies w
    ensures w.Valid() && !w.streaming && w.members == old(w.members) + [MemberOf(op)]
  {
    match op {
      case MakeDirectory(name) => var status := w.CreateDirectory(name);
      case StoreString(name, contents) => var status := w.CreateFileWithString(name, contents);
      case StreamFile(name, chunks) => Stream(w, name, chunks);
    }
  }

  /** Any list of writing calls, the close, the open and the reading calls: for every name, a reader gets
    * what was first written under it. */
  method WriteThenRead(modtime: nat, ops: seq<Op>, name: Str, sizes: seq<nat>) returns (data: Option<Str>)
    requires modtime < WORD && forall i :: 0 <= i < |ops| ==> Fits(ops[i])
    ensures data == Readback(MembersOf(ops), name)
  {
    hide Fits, MemberOf, Readback, AllDescribed, AllStorable, Container, Locals, Unfinished;
    var w := new Writer(modtime);
    var i := 0;
    while i < |ops|
      invariant 0 <= i <= |ops| && w.Valid() && !w.streaming && w.modtime == modtime
      invariant w.members == MembersOf(ops)[..i]
    {
      Perform(w, ops[i]);
      i := i + 1;
    }
    assert w.members == MembersOf(ops);
    var status := w.Close();
    AllFit(ops);
    WrittenStorable(modtime, w.files, w.members);
    data := RoundTrip(modtime, w.members, w.file, name, sizes);
  }

  lemma AllFit(ops: seq<Op>)
    requires forall i :: 0 <= i < |ops| ==> Fits(ops[i])
    ensures forall i :: 0 <= i < |ops| ==> |MembersOf(ops)[i].data| < WORD
  {
  }

  // ---- where the container does less than its calls say ----

  /** A member written after one with an empty name is in the container, and no reader finds it. */
  method NamelessHides() returns (data: Option<Str>)
    ensures data == None && MemberOf(StoreString([97], [98])) == Member([97], [98], 0, INTERNAL_TEXT, EXTERNAL_FILE)
  {
    var ops := [StoreString([], [98]), StoreString([97], [98])];
    TwoNames();
    data := WriteThenRead(0, ops, [97], []);
  }

  lemma TwoNames()
    ensures CStr([98]) == [98] && CStr([97]) == [97] && Clip([97]) == [97] && Clip([]) == []
    ensures Readback(MembersOf([StoreString([], [98]), StoreString([97], [98])]), [97]) == None
  {
    assert [98][1..] == [] && [97][1..] == [];
    var ms := MembersOf([StoreString([], [98]), StoreString([97], [98])]);
    assert ms[0].name == [];
    assert Reach(ms, 0) == 0;
  }

  /** Storing an empty string is reported as a failure, and the container has it. */
  method EmptyReported() returns (status: int, data: Option<Str>)
    ensures status == -1 && data == Some([])
  {
    hide Container, AllDescribed, Locals, Unfinished, Readback;
    EmptyMember();
    var w := new Writer(0);
    status := w.CreateFileWithString([97], []);
    var s := w.Close();
    assert w.members == [Member([97], [], 0, INTERNAL_TEXT, EXTERNAL_FILE)];
    WrittenStorable(0, w.files, w.members);
    data := RoundTrip(0, w.members, w.file, [97], []);
  }

  lemma EmptyMember()
    ensures CStr([97]) == [97] && CStr([]) == [] && Clip([97]) == [97]
    ensures Readback([Member([97], [], 0, INTERNAL_TEXT, EXTERNAL_FILE)], [97]) == Some([])
  {
    var ms := [Member([97], [], 0, INTERNAL_TEXT, EXTERNAL_FILE)];
    assert [97][1..] == [];
    assert Reach(ms, 0) == 1 && ms[..1] == ms;
    assert FindName(MemberNames(ms), [97], 0) == 0;
  }
}
