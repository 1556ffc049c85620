/** What mxml_write_node prints, as recursive functions: the printer's specification.
    Every function that prints also tracks the output column, on which line wrapping depends. */
module XmlWriter {
  import opened Utf8
  import opened Entities
  import opened XmlTree

  /** Output text and the column after it. */
  datatype Out = Out(text: Str, col: int)

  function Escape(b: byte): Str {
    var name := EntityName(b);
    if name != [] then [AMP] + name + [SEMI] else [b]
  }

  /** `mxml_write_string` */
  function WriteString(s: Str): Str {
    if s == [] then [] else Escape(s[0]) + WriteString(s[1..])
  }

  /** The part of a string before its first `quote`. */
  function UpTo(s: Str, quote: byte): Str {
    if s == [] || s[0] == quote then [] else [s[0]] + UpTo(s[1..], quote)
  }

  /** `mxml_write_name` */
  function WriteName(s: Str): Str {
    if At(s, 0) == QUOT || At(s, 0) == APOS then
      [s[0]] + WriteString(UpTo(s[1..], s[0])) + [s[0]]
    else s
  }

  /** An element name as its opening tag shows it. */
  function WriteTagName(name: Str): Str {
    if At(name, 0) == QM || COMMENT <= name then name
    else if CDATA <= name then name + [RBRACK, RBRACK]
    else WriteName(name)
  }

  /** Whether an element has no end tag. */
  predicate Unclosed(name: Str) {
    At(name, 0) == EXCL || At(name, 0) == QM
  }

  function AttrWidth(a: Attr): int {
    |a.name| + if a.value.Some? then |a.value.value| + 3 else 0
  }

  predicate Wraps(a: Attr, col: int, wrap: int) {
    wrap > 0 && col + AttrWidth(a) > wrap
  }

  /** One attribute without the separator before it. */
  function WriteAttr(a: Attr): Str {
    WriteName(a.name) + if a.value.Some? then [EQ, QUOT] + WriteString(a.value.value) + [QUOT] else []
  }

  function WriteAttrs(attrs: seq<Attr>, col: int, wrap: int): Out {
    if attrs == [] then Out([], col)
    else
      var a := attrs[0];
      var start := if Wraps(a, col, wrap) then Out([NL], 0) else Out([SP], col + 1);
      var more := WriteAttrs(attrs[1..], start.col + AttrWidth(a), wrap);
      Out(start.text + WriteAttr(a) + more.text, more.col)
  }

  /** The opening tag of an element, `parent` telling whether it has children. */
  function OpenTag(v: Value, parent: bool, col: int, wrap: int): Out
    requires v.Element?
  {
    var attrs := WriteAttrs(v.attrs, col + |v.name| + 1, wrap);
    var end := if parent || Unclosed(v.name) then [GT] else [SP, SLASH, GT];
    Out([LT] + WriteTagName(v.name) + attrs.text + end, attrs.col + |end|)
  }

  /** What is printed on reaching a node. */
  function Open(v: Value, parent: bool, col: int, wrap: int): Out {
    match v
    case Element(_, _) => OpenTag(v, parent, col, wrap)
    case Opaque(text) => Out(WriteString(text), col + |text|)
  }

  /** What is printed on leaving a node that has children. */
  function Close(v: Value, col: int): Out {
    if v.Opaque? || Unclosed(v.name) then Out([], col)
    else Out([LT, SLASH] + WriteString(v.name) + [GT], col + |v.name| + 3)
  }

  function Join(a: Out, b: Out): Out {
    Out(a.text + b.text, b.col)
  }

  /** The printed form of a forest: each node's opening, its children, its closing, its siblings. */
  function Write(d: Doc, col: int, wrap: int): Out
    decreases d, 0
  {
    match d
    case Nil => Out([], col)
    case Cons(v, kids, rest) =>
      var node := WriteNode(v, kids, col, wrap);
      Join(node, Write(rest, node.col, wrap))
  }

  /** The printed form of one node with its children. */
  function WriteNode(v: Value, kids: Doc, col: int, wrap: int): Out
    decreases kids, 1
  {
    var open := Open(v, kids.Cons?, col, wrap);
    if kids.Nil? then open
    else
      var inside := Join(open, Write(kids, open.col, wrap));
      Join(inside, Close(v, inside.col))
  }

  /** What `mxmlSaveString` and its siblings put out: the node, and a newline unless at column 0. */
  function Save(v: Value, kids: Doc, wrap: int): Str {
    var out := WriteNode(v, kids, 0, wrap);
    out.text + if out.col > 0 then [NL] else []
  }

  lemma {:induction false} WriteStringConcat(a: Str, b: Str)
    ensures WriteString(a + b) == WriteString(a) + WriteString(b)
  {
    hide Escape;
    if a == [] {
      assert a + b == b;
    } else {
      WriteStringConcat(a[1..], b);
      assert (a + b)[1..] == a[1..] + b;
    }
  }
}
