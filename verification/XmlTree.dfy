/** XML trees as values. A forest is its first node, that node's children, and its later siblings:
    the shape the `child` and `next` pointers of mxml.h give it. */
module XmlTree {
  import opened Utf8

  type Str = seq<byte>

  datatype Option<+T> = None | Some(value: T)

  datatype Attr = Attr(name: Str, value: Option<Str>)

  datatype Value =
    | Element(name: Str, attrs: seq<Attr>)
    | Opaque(text: Str)

  datatype Doc = Nil | Cons(v: Value, kids: Doc, rest: Doc)

  // ASCII characters with a meaning in the format.
  const NL: byte := 10
  const SP: byte := 32
  const EXCL: byte := 33
  const QUOT: byte := 34
  const HASH: byte := 35
  const AMP: byte := 38
  const APOS: byte := 39
  const DASH: byte := 45
  const DOT: byte := 46
  const SLASH: byte := 47
  const ZERO: byte := 48
  const SEMI: byte := 59
  const LT: byte := 60
  const EQ: byte := 61
  const GT: byte := 62
  const QM: byte := 63
  const RBRACK: byte := 93

  /** "!--", with which the name of a comment starts. */
  const COMMENT: Str := [33, 45, 45]

  /** "![CDATA[", with which the name of a CDATA section starts. */
  const CDATA: Str := [33, 91, 67, 68, 65, 84, 65, 91]

  /** A C string ends at its first NUL. */
  function CStr(s: Str): Str {
    if s == [] || s[0] == 0 then [] else [s[0]] + CStr(s[1..])
  }

  /** The forest `a` followed by the forest `b` as later siblings. */
  function Append(a: Doc, b: Doc): Doc {
    match a
    case Nil => b
    case Cons(v, kids, rest) => Cons(v, kids, Append(rest, b))
  }

  lemma {:induction false} AppendAssoc(a: Doc, b: Doc, c: Doc)
    ensures Append(Append(a, b), c) == Append(a, Append(b, c))
  {
    if a.Cons? {
      AppendAssoc(a.rest, b, c);
    }
  }

  lemma {:induction false} AppendNil(a: Doc)
    ensures Append(a, Nil) == a
  {
    if a.Cons? {
      AppendNil(a.rest);
    }
  }
}
