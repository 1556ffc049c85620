/** mxml_write_node as it runs: a walk over `child`, `next` and `parent` pointers without a stack.
    It prints what the recursive functions of XmlWriter say. */
module XmlPrinter {
  import opened Utf8
  import opened Entities
  import opened XmlTree
  import opened XmlWriter
  import opened NodeStore

  /** Only elements have children: on the way up the printer reads their names. */
  predicate ElementsAbove(h: Heap, f: Forest)
    requires Ids(f) <= h.Keys
  {
    match f
    case Void => true
    case Tree(id, kids, rest) =>
      && (kids.Tree? ==> h[id].v.Element?)
      && ElementsAbove(h, kids) && ElementsAbove(h, rest)
  }

  predicate ElementPath(h: Heap, p: Path)
    requires PathIds(p) <= h.Keys
  {
    match p
    case Top => true
    case Under(id, later, up) => h[id].v.Element? && ElementsAbove(h, later) && ElementPath(h, up)
  }

  /** What is still to be printed once the current level is finished. */
  function Climb(h: Heap, p: Path, col: int, wrap: int): Out
    requires PathIds(p) <= h.Keys
  {
    match p
    case Top => Out([], col)
    case Under(id, later, up) =>
      var close := Close(h[id].v, col);
      var siblings := Join(close, Write(DocOf(h, later), close.col, wrap));
      Join(siblings, Climb(h, up, siblings.col, wrap))
  }

  /** What is still to be printed from the forest `f` on. */
  function Remaining(h: Heap, f: Forest, p: Path, col: int, wrap: int): Out
    requires Ids(f) <= h.Keys && PathIds(p) <= h.Keys
  {
    var here := Write(DocOf(h, f), col, wrap);
    Join(here, Climb(h, p, here.col, wrap))
  }

  lemma JoinAssoc(a: Out, b: Out, c: Out)
    ensures Join(Join(a, b), c) == Join(a, Join(b, c))
  {
    assert a.text + b.text + c.text == a.text + (b.text + c.text);
  }

  /** The parts of a written forest in printing order. */
  lemma WriteParts(v: Value, kids: Doc, rest: Doc, col: int, wrap: int)
    ensures kids.Nil? ==>
              var open := Open(v, false, col, wrap);
              Write(Cons(v, kids, rest), col, wrap) == Join(open, Write(rest, open.col, wrap))
    ensures kids.Cons? ==>
              var open := Open(v, true, col, wrap);
              var inside := Write(kids, open.col, wrap);
              var close := Close(v, inside.col);
              Write(Cons(v, kids, rest), col, wrap)
              == Join(open, Join(inside, Join(close, Write(rest, close.col, wrap))))
  {
    hide Open, Close;
    if kids.Cons? {
      var open := Open(v, true, col, wrap);
      var inside := Write(kids, open.col, wrap);
      var close := Close(v, inside.col);
      var after := Write(rest, close.col, wrap);
      JoinAssoc(open, inside, close);
      JoinAssoc(open, Join(inside, close), after);
      JoinAssoc(inside, close, after);
    }
  }

  /** Going down: the opening, then the children with their parent's siblings left for later. */
  lemma RemainingDown(h: Heap, f: Forest, p: Path, col: int, wrap: int)
    requires f.Tree? && f.kids.Tree? && Ids(f) <= h.Keys && PathIds(p) <= h.Keys
    ensures var open := Open(h[f.id].v, true, col, wrap);
            Remaining(h, f, p, col, wrap)
            == Join(open, Remaining(h, f.kids, Under(f.id, f.rest, p), open.col, wrap))
  {
    hide Open, Close, Write;
    var open := Open(h[f.id].v, true, col, wrap);
    var inside := Write(DocOf(h, f.kids), open.col, wrap);
    var close := Close(h[f.id].v, inside.col);
    var rest := Write(DocOf(h, f.rest), close.col, wrap);
    var up := Climb(h, p, rest.col, wrap);
    WriteParts(h[f.id].v, DocOf(h, f.kids), DocOf(h, f.rest), col, wrap);
    JoinAssoc(open, Join(inside, Join(close, rest)), up);
    JoinAssoc(inside, Join(close, rest), up);
  }

  /** A leaf: its opening, then its later siblings. */
  lemma RemainingLeaf(h: Heap, f: Forest, p: Path, col: int, wrap: int)
    requires f.Tree? && f.kids.Void? && Ids(f) <= h.Keys && PathIds(p) <= h.Keys
    ensures var open := Open(h[f.id].v, false, col, wrap);
            Remaining(h, f, p, col, wrap) == Join(open, Remaining(h, f.rest, p, open.col, wrap))
  {
    hide Open, Close, Write;
    var open := Open(h[f.id].v, false, col, wrap);
    var rest := Write(DocOf(h, f.rest), open.col, wrap);
    assert DocOf(h, f) == Cons(h[f.id].v, Nil, DocOf(h, f.rest));
    WriteParts(h[f.id].v, Nil, DocOf(h, f.rest), col, wrap);
    JoinAssoc(open, rest, Climb(h, p, rest.col, wrap));
  }

  /** A finished level: the parent's closing, then the parent's later siblings. */
  lemma RemainingUp(h: Heap, p: Path, col: int, wrap: int)
    requires p.Under? && PathIds(p) <= h.Keys
    ensures var close := Close(h[p.id].v, col);
            Remaining(h, Void, p, col, wrap) == Join(close, Remaining(h, p.later, p.up, close.col, wrap))
  {
    hide Open, Close;
    var close := Close(h[p.id].v, col);
    var later := Write(DocOf(h, p.later), close.col, wrap);
    JoinAssoc(close, later, Climb(h, p.up, later.col, wrap));
    assert [] + Climb(h, p, col, wrap).text == Climb(h, p, col, wrap).text;
  }

  /** The pointers lead from a place back up to the start node, whose own `parent` and `next` are
      not looked at. */
  predicate PathTo(h: Heap, p: Path, node: Ptr) {
    && p.Under? && p.id != NULL && p.id in h
    && (if p.up.Top? then p.id == node && p.later.Void?
        else
          && p.id != node && node !in Ids(p.later)
          && h[p.id].parent == p.up.id && h[p.id].next == First(p.later)
          && Chained(h, p.later, p.up.id) && PathTo(h, p.up, node))
  }

  /** The forest `f` is to be printed next, below the start node. */
  predicate Below(h: Heap, f: Forest, p: Path, node: Ptr) {
    && PathTo(h, p, node) && Chained(h, f, p.id) && node !in Ids(f)
  }

  predicate Printable(h: Heap, f: Forest, p: Path) {
    && Ids(f) <= h.Keys && PathIds(p) <= h.Keys && ElementsAbove(h, f) && ElementPath(h, p)
  }

  /** Where the walk can be: at the start node, below it, or finished. */
  predicate Reading(h: Heap, f: Forest, p: Path, node: Ptr) {
    && Printable(h, f, p)
    && (|| (f.Void? && p.Top?)
        || (f.Tree? && Below(h, f, p, node))
        || (f.Tree? && p.Top? && f.id == node && f.rest.Void? && node != NULL && node in h && node !in Ids(f.kids)
            && h[node].child == First(f.kids) && Chained(h, f.kids, node)))
  }

  // The attributes from one on: a separator, that one, and the rest.
  lemma NextAttr(attrs: seq<Attr>, i: nat, col: int, wrap: int)
    requires i < |attrs|
    ensures var a := attrs[i];
            var wraps := Wraps(a, col, wrap);
            var all := XmlWriter.WriteAttrs(attrs[i..], col, wrap);
            var more := XmlWriter.WriteAttrs(attrs[i + 1..], (if wraps then 0 else col + 1) + AttrWidth(a), wrap);
            && all.text == [if wraps then NL else SP] + XmlWriter.WriteAttr(a) + more.text
            && all.col == more.col
  {
    hide XmlWriter.WriteAttr, AttrWidth, Wraps;
    assert attrs[i..][1..] == attrs[i + 1..];
  }

  lemma NoAttr(attrs: seq<Attr>, col: int, wrap: int)
    ensures XmlWriter.WriteAttrs(attrs[|attrs|..], col, wrap) == Out([], col)
  {
  }


  /** Where characters go: the two pointers of mxml_string_putc. `written` is the whole output, of which
      the buffer holds what fits. */
  class Sink {
    const buffer: array<byte>
    const size: nat
    var pos: nat
    ghost var written: Str

    ghost predicate Valid()
      reads this, buffer
    {
      && 1 <= size <= buffer.Length && pos == |written|
      && forall i :: 0 <= i < pos && i < size ==> buffer[i] == written[i]
    }

    constructor (buffer: array<byte>, size: nat)
      requires 1 <= size <= buffer.Length
      ensures Valid() && written == [] && this.buffer == buffer && this.size == size
    {
      this.buffer, this.size := buffer, size;
      pos, written := 0, [];
    }

    /** `mxml_string_putc`: characters past the end are counted but not stored. */
    method Putc(ch: byte)
      requires Valid()
      modifies this, buffer
      ensures Valid() && written == old(written) + [ch]
    {
      if pos < size {
        buffer[pos] := ch;
      }
      pos := pos + 1;
      written := written + [ch];
    }

    method Puts(s: Str)
      requires Valid()
      modifies this, buffer
      ensures Valid() && written == old(written) + s
    {
      for i := 0 to |s|
        invariant Valid() && written == old(written) + s[..i]
      {
        Putc(s[i]);
        assert s[..i + 1] == s[..i] + [s[i]];
      }
      assert s[..|s|] == s;
    }

    /** `mxml_write_string` */
    method WriteString(s: Str)
      requires Valid()
      modifies this, buffer
      ensures Valid() && written == old(written) + XmlWriter.WriteString(s)
    {
      hide Escape;
      for i := 0 to |s|
        invariant Valid()
        invariant old(written) + XmlWriter.WriteString(s) == written + XmlWriter.WriteString(s[i..])
      {
        ghost var before := written;
        WriteChar(s[i]);
        assert s[i..][1..] == s[i + 1..];
        assert before + (Escape(s[i]) + XmlWriter.WriteString(s[i + 1..]))
            == (before + Escape(s[i])) + XmlWriter.WriteString(s[i + 1..]);
      }
    }

    method WriteChar(b: byte)
      requires Valid()
      modifies this, buffer
      ensures Valid() && written == old(written) + Escape(b)
    {
      var name := EntityName(b);
      if name != [] {
        Putc(AMP);
        Puts(name);
        Putc(SEMI);
      } else {
        Putc(b);
      }
    }

    /** `mxml_write_name` */
    method WriteName(s: Str)
      requires Valid()
      modifies this, buffer
      ensures Valid() && written == old(written) + XmlWriter.WriteName(s)
    {
      hide XmlWriter.WriteString;
      if At(s, 0) == QUOT || At(s, 0) == APOS {
        Putc(s[0]);
        WriteString(UpTo(s[1..], s[0]));
        Putc(s[0]);
      } else {
        Puts(s);
      }
    }

    method WriteAttr(a: Attr)
      requires Valid()
      modifies this, buffer
      ensures Valid() && written == old(written) + XmlWriter.WriteAttr(a)
    {
      hide XmlWriter.WriteName, XmlWriter.WriteString;
      WriteName(a.name);
      if a.value.Some? {
        Putc(EQ);
        Putc(QUOT);
        WriteString(a.value.value);
        Putc(QUOT);
      }
    }

    /** The attribute loop of mxml_write_node. */
    method WriteAttrs(attrs: seq<Attr>, start: int, wrap: int) returns (col: int)
      requires Valid()
      modifies this, buffer
      ensures Valid() && written == old(written) + XmlWriter.WriteAttrs(attrs, start, wrap).text
      ensures col == XmlWriter.WriteAttrs(attrs, start, wrap).col
    {
      hide XmlWriter.WriteAttr, AttrWidth, Wraps, XmlWriter.WriteAttrs;
      col := start;
      ghost var whole := XmlWriter.WriteAttrs(attrs, start, wrap);
      assert attrs[0..] == attrs;
      for i := 0 to |attrs|
        invariant Valid()
        invariant old(written) + whole.text == written + XmlWriter.WriteAttrs(attrs[i..], col, wrap).text
        invariant whole.col == XmlWriter.WriteAttrs(attrs[i..], col, wrap).col
      {
        var a := attrs[i];
        NextAttr(attrs, i, col, wrap);
        if Wraps(a, col, wrap) {
          Putc(NL);
          col := 0;
        } else {
          Putc(SP);
          col := col + 1;
        }
        WriteAttr(a);
        col := col + AttrWidth(a);
      }
      NoAttr(attrs, col, wrap);
    }

    method WriteTagName(name: Str)
      requires Valid()
      modifies this, buffer
      ensures Valid() && written == old(written) + XmlWriter.WriteTagName(name)
    {
      hide XmlWriter.WriteName;
      if At(name, 0) == QM || COMMENT <= name {
        Puts(name);
      } else if CDATA <= name {
        Puts(name);
        Putc(RBRACK);
        Putc(RBRACK);
      } else {
        WriteName(name);
      }
    }

    /** Reaching a node. */
    method Open(v: Value, parent: bool, start: int, wrap: int) returns (col: int)
      requires Valid()
      modifies this, buffer
      ensures Valid() && written == old(written) + XmlWriter.Open(v, parent, start, wrap).text
      ensures col == XmlWriter.Open(v, parent, start, wrap).col
    {
      hide XmlWriter.WriteAttrs, XmlWriter.WriteTagName, XmlWriter.WriteString, Unclosed;
      if v.Opaque? {
        WriteString(v.text);
        return start + |v.text|;
      }
      Putc(LT);
      WriteTagName(v.name);
      col := start + |v.name| + 1;
      col := WriteAttrs(v.attrs, col, wrap);
      if parent || Unclosed(v.name) {
        Putc(GT);
        col := col + 1;
      } else {
        Putc(SP);
        Putc(SLASH);
        Putc(GT);
        col := col + 3;
      }
    }

    /** Leaving a node that has children. */
    method Close(v: Value, start: int) returns (col: int)
      requires Valid()
      modifies this, buffer
      ensures Valid() && written == old(written) + XmlWriter.Close(v, start).text
      ensures col == XmlWriter.Close(v, start).col
    {
      hide XmlWriter.WriteString, Unclosed;
      col := start;
      if v.Element? && !Unclosed(v.name) {
        Putc(LT);
        Putc(SLASH);
        WriteString(v.name);
        Putc(GT);
        col := col + |v.name| + 3;
      }
    }
  }

  /** After a leaf other than the start node: the next sibling, or the closing tags of the ancestors
      up to the first one with a later sibling, or up to the start node. `before` is the output so far. */
  method ClimbUp(h: Heap, leaf: Ptr, node: Ptr, wrap: int, sink: Sink, ghost before: Out, start: int,
                 ghost f: Forest, ghost p: Path)
    returns (col: int, next: Ptr, ghost here: Forest, ghost path: Path)
    requires Below(h, f, p, node) && Printable(h, f, p)
    requires leaf != node && leaf in h && h[leaf].next == First(f) && h[leaf].parent == p.id
    requires sink.Valid() && before == Out(sink.written, start)
    modifies sink, sink.buffer
    ensures sink.Valid() && next == First(here) && Reading(h, here, path, node)
    ensures Join(Out(sink.written, col), Remaining(h, here, path, col, wrap))
            == Join(before, Remaining(h, f, p, start, wrap))
    ensures Size(here) + PathSize(path) <= Size(f) + PathSize(p)
  {
    hide XmlWriter.Close, Remaining;
    var current := leaf;
    col, here, path := start, f, p;
    next := h[current].next;
    while next == NULL
      invariant sink.Valid() && Size(here) + PathSize(path) <= Size(f) + PathSize(p)
      invariant Printable(h, here, path) && next == First(here)
      invariant Join(Out(sink.written, col), Remaining(h, here, path, col, wrap))
                == Join(before, Remaining(h, f, p, start, wrap))
      invariant Below(h, here, path, node) && current != node && current in h && h[current].parent == path.id
      decreases PathSize(path)
    {
      if h[current].parent == NULL {
        break;
      }
      current := h[current].parent;
      RemainingUp(h, path, col, wrap);
      ghost var out, close := Out(sink.written, col), XmlWriter.Close(h[current].v, col);
      JoinAssoc(out, close, Remaining(h, path.later, path.up, close.col, wrap));
      col := sink.Close(h[current].v, col);
      assert Out(sink.written, col) == Join(out, close);
      here, path := path.later, path.up;
      if current == node {
        break;
      }
      next := h[current].next;
    }
  }

  /** The forest `f` is the start node with everything below it. */
  predicate IsTree(h: Heap, node: Ptr, f: Forest) {
    && f.Tree? && f.rest.Void? && f.id == node && Distinct(f)
    && node != NULL && node in h && h[node].child == First(f.kids) && Chained(h, f.kids, node)
    && Ids(f) <= h.Keys && ElementsAbove(h, f)
  }

  /** `mxml_write_node` without a white space callback. The start node's siblings and parent are
      neither read nor known. */
  method WriteTree(h: Heap, node: Ptr, wrap: int, sink: Sink, ghost f: Forest) returns (col: int)
    requires IsTree(h, node, f) && sink.Valid()
    modifies sink, sink.buffer
    ensures sink.Valid()
    ensures var out := XmlWriter.WriteNode(h[node].v, DocOf(h, f.kids), 0, wrap);
            sink.written == old(sink.written) + out.text && col == out.col
  {
    col := 0;
    var current := node;
    ghost var here, path := f, Top;
    ghost var whole := Join(Out(sink.written, 0), Remaining(h, f, Top, 0, wrap));
    StartOfWalk(h, f, wrap);
    while current != NULL
      invariant sink.Valid() && current == First(here) && Reading(h, here, path, node)
      invariant Join(Out(sink.written, col), Remaining(h, here, path, col, wrap)) == whole
      decreases Size(here) + PathSize(path)
    {
      hide XmlWriter.Open, XmlWriter.Close, Remaining;
      var next := h[current].child;
      assert next == First(here.kids) && Chained(h, here.kids, current);
      ghost var out, open := Out(sink.written, col), XmlWriter.Open(h[current].v, next != NULL, col, wrap);
      ghost var start := col;
      col := sink.Open(h[current].v, next != NULL, col, wrap);
      assert Out(sink.written, col) == Join(out, open);
      if next != NULL {
        RemainingDown(h, here, path, start, wrap);
        JoinAssoc(out, open, Remaining(h, here.kids, Under(current, here.rest, path), col, wrap));
        here, path := here.kids, Under(current, here.rest, path);
      } else {
        RemainingLeaf(h, here, path, start, wrap);
        JoinAssoc(out, open, Remaining(h, here.rest, path, col, wrap));
        here := here.rest;
        if current != node {
          col, next, here, path := ClimbUp(h, current, node, wrap, sink, Out(sink.written, col), col, here, path);
        }
      }
      current := next;
    }
    assert Remaining(h, Void, Top, col, wrap) == Out([], col);
    assert sink.written + [] == sink.written;
  }

  lemma StartOfWalk(h: Heap, f: Forest, wrap: int)
    requires f.Tree? && f.rest.Void? && Ids(f) <= h.Keys
    ensures Remaining(h, f, Top, 0, wrap) == XmlWriter.WriteNode(h[f.id].v, DocOf(h, f.kids), 0, wrap)
  {
    var node := XmlWriter.WriteNode(h[f.id].v, DocOf(h, f.kids), 0, wrap);
    assert DocOf(h, f) == Cons(h[f.id].v, DocOf(h, f.kids), Nil);
    assert Write(DocOf(h, f), 0, wrap) == Join(node, Out([], node.col));
    assert Climb(h, Top, node.col, wrap) == Out([], node.col);
    assert node.text + [] == node.text;
  }

  /** `mxmlSaveString`: the length of the whole text is returned, and the buffer receives the part of
      it that fits, with a terminating NUL. */
  method SaveString(h: Heap, node: Ptr, buffer: array<byte>, bufsize: nat, wrap: int, ghost f: Forest)
    returns (bytes: nat)
    requires IsTree(h, node, f) && 1 <= bufsize <= buffer.Length
    modifies buffer
    ensures bytes == |Save(h[node].v, DocOf(h, f.kids), wrap)|
    ensures var kept := if bytes < bufsize then bytes else bufsize - 1;
            buffer[..kept] == Save(h[node].v, DocOf(h, f.kids), wrap)[..kept] && buffer[kept] == 0
  {
    hide XmlWriter.WriteNode;
    var sink := new Sink(buffer, bufsize);
    var col := WriteTree(h, node, wrap, sink, f);
    if col > 0 {
      sink.Putc(NL);
    }
    assert sink.written == Save(h[node].v, DocOf(h, f.kids), wrap);
    if sink.pos >= bufsize {
      buffer[bufsize - 1] := 0;
    } else {
      buffer[sink.pos] := 0;
    }
    bytes := sink.pos;
  }

  lemma {:induction false} TerminatedText(s: seq<byte>, t: Str)
    requires |t| < |s| && s[..|t|] == t && s[|t|] == 0
    ensures CStr(s) == CStr(t)
  {
    if t != [] && t[0] != 0 {
      assert s[0] == t[0];
      assert s[1..][..|t| - 1] == t[1..];
      TerminatedText(s[1..], t[1..]);
    }
  }

  /** `mxmlSaveAllocString`: the complete text, however long, or nothing when it is empty. */
  method SaveAllocString(h: Heap, node: Ptr, wrap: int, ghost f: Forest) returns (s: Option<Str>)
    requires IsTree(h, node, f)
    ensures var text := Save(h[node].v, DocOf(h, f.kids), wrap);
            s == if text == [] then None else Some(CStr(text))
  {
    hide Save;
    var buffer := new byte[8192];
    var bytes := SaveString(h, node, buffer, 8192, wrap, f);
    ghost var text := Save(h[node].v, DocOf(h, f.kids), wrap);
    assert text[..|text|] == text;
    if bytes <= 0 {
      return None;
    }
    if bytes < 8191 {
      TerminatedText(buffer[..], text);
      return Some(CStr(buffer[..]));
    }
    var large := new byte[bytes + 1];
    bytes := SaveString(h, node, large, bytes + 1, wrap, f);
    TerminatedText(large[..], text);
    return Some(CStr(large[..]));
  }
}
