/** Where the printer breaks lines, said about the lines themselves: the attributes of a tag fill one line after
    the other, and the column the printer keeps is the real one. */
module XmlWrap {
  import opened Utf8
  import opened Entities
  import opened XmlTree
  import opened XmlWriter

  // ---- attributes on lines ----

  /** An attribute as the printer measures it, without escapes. */
  function Shown(a: Attr): Str {
    a.name + if a.value.Some? then [EQ, QUOT] + a.value.value + [QUOT] else []
  }

  /** The attributes that go on with a line, a blank before each. */
  function Blanked(attrs: seq<Attr>): Str {
    if attrs == [] then [] else [SP] + WriteAttr(attrs[0]) + Blanked(attrs[1..])
  }

  function BlankedLength(attrs: seq<Attr>): nat {
    if attrs == [] then 0 else 1 + |Shown(attrs[0])| + BlankedLength(attrs[1..])
  }

  /** The attributes on later lines, a line break before the first of each. */
  function Broken(lines: seq<seq<Attr>>): Str {
    if lines == [] then []
    else (if lines[0] == [] then [NL] else [NL] + WriteAttr(lines[0][0]) + Blanked(lines[0][1..])) + Broken(lines[1..])
  }

  function All(lines: seq<seq<Attr>>): seq<Attr> {
    if lines == [] then [] else lines[0] + All(lines[1..])
  }

  /** How far a later line reaches. */
  function LineLength(line: seq<Attr>): nat {
    if line == [] then 0 else |Shown(line[0])| + BlankedLength(line[1..])
  }

  /** The line that ends at `end` had no room for the next one's first attribute. */
  predicate Full(end: int, lines: seq<seq<Attr>>, wrap: int) {
    lines != [] && lines[0] != [] ==> end + |Shown(lines[0][0])| > wrap
  }

  /** Lines filled up one after the other: none is empty, those with a blank reach at most one character past
      the margin, and each was broken only for want of room. */
  predicate Filled(lines: seq<seq<Attr>>, wrap: int) {
    lines == [] ||
    (&& lines[0] != []
     && (|lines[0]| > 1 ==> LineLength(lines[0]) <= wrap + 1)
     && Full(LineLength(lines[0]), lines[1..], wrap)
     && Filled(lines[1..], wrap))
  }

  function LastEnd(end: int, lines: seq<seq<Attr>>): int {
    if lines == [] then end else LineLength(lines[|lines| - 1])
  }

  lemma Measured(a: Attr)
    ensures AttrWidth(a) == |Shown(a)|
  {
  }

  /** The attributes of a tag fill the line they start on, from its column `col`, and then further lines;
      without a margin they stay on one line. */
  predicate LaidOut(out: Out, attrs: seq<Attr>, col: int, wrap: int, first: seq<Attr>, lines: seq<seq<Attr>>) {
    var end := col + BlankedLength(first);
    && attrs == first + All(lines)
    && out == Out(Blanked(first) + Broken(lines), LastEnd(end, lines))
    && if wrap <= 0 then lines == []
       else (first != [] ==> end <= wrap + 1) && Full(end, lines, wrap) && Filled(lines, wrap)
  }

  /** The attribute loop lays out every list of attributes, from every column and at every margin. */
  lemma {:induction false} LinesFilled(attrs: seq<Attr>, col: int, wrap: int) returns (first: seq<Attr>, lines: seq<seq<Attr>>)
    ensures LaidOut(WriteAttrs(attrs, col, wrap), attrs, col, wrap, first, lines)
    decreases |attrs|
  {
    hide WriteAttr, Shown, AttrWidth, LaidOut, WriteAttrs;
    if attrs == [] {
      first, lines := [], [];
      NothingLaidOut(col, wrap);
    } else {
      var a := attrs[0];
      var width := |Shown(a)|;
      NextAttr(attrs, col, wrap);
      if wrap > 0 && col + width > wrap {
        var on, more := LinesFilled(attrs[1..], width, wrap);
        LineBroken(a, attrs[1..], WriteAttrs(attrs[1..], width, wrap), col, wrap, on, more);
        first, lines := [], [[a] + on] + more;
      } else {
        var on, more := LinesFilled(attrs[1..], col + 1 + width, wrap);
        LineGoesOn(a, attrs[1..], WriteAttrs(attrs[1..], col + 1 + width, wrap), col, wrap, on, more);
        first, lines := [a] + on, more;
      }
    }
  }

  lemma NothingLaidOut(col: int, wrap: int)
    ensures LaidOut(WriteAttrs([], col, wrap), [], col, wrap, [], [])
  {
  }

  lemma NextAttr(attrs: seq<Attr>, col: int, wrap: int)
    requires attrs != []
    ensures var a := attrs[0];
            var breaks := wrap > 0 && col + |Shown(a)| > wrap;
            var rest := WriteAttrs(attrs[1..], (if breaks then 0 else col + 1) + |Shown(a)|, wrap);
            WriteAttrs(attrs, col, wrap) == Out((if breaks then [NL] else [SP]) + WriteAttr(a) + rest.text, rest.col)
    ensures attrs == [attrs[0]] + attrs[1..]
  {
    hide WriteAttr, Shown, AttrWidth;
    Measured(attrs[0]);
  }

  lemma LineBroken(a: Attr, attrs: seq<Attr>, rest: Out, col: int, wrap: int, on: seq<Attr>, more: seq<seq<Attr>>)
    requires LaidOut(rest, attrs, |Shown(a)|, wrap, on, more)
    requires wrap > 0 && col + |Shown(a)| > wrap
    ensures LaidOut(Out([NL] + WriteAttr(a) + rest.text, rest.col), [a] + attrs, col, wrap, [], [[a] + on] + more)
  {
    hide WriteAttr, Shown, Broken, All, Blanked;
    FirstLine(a, on, more);
    NoBlanks();
    var lines := [[a] + on] + more;
    assert lines[0][0] == a;
    assert [a] + (on + All(more)) == [a] + on + All(more);
    assert [] + All(lines) == All(lines);
    assert [] + Broken(lines) == Broken(lines);
  }

  lemma NoBlanks()
    ensures Blanked([]) == [] && BlankedLength([]) == 0
  {
  }

  lemma LineGoesOn(a: Attr, attrs: seq<Attr>, rest: Out, col: int, wrap: int, on: seq<Attr>, more: seq<seq<Attr>>)
    requires LaidOut(rest, attrs, col + 1 + |Shown(a)|, wrap, on, more)
    requires wrap > 0 ==> col + |Shown(a)| <= wrap
    ensures LaidOut(Out([SP] + WriteAttr(a) + rest.text, rest.col), [a] + attrs, col, wrap, [a] + on, more)
  {
    hide WriteAttr, Shown, Broken, All, Blanked, Filled, Full;
    FirstBlank(a, on);
    if on == [] {
      NoBlanks();
    }
    assert [a] + (on + All(more)) == [a] + on + All(more);
    assert [SP] + WriteAttr(a) + (Blanked(on) + Broken(more)) == Blanked([a] + on) + Broken(more);
  }

  lemma FirstBlank(a: Attr, on: seq<Attr>)
    ensures Blanked([a] + on) == [SP] + WriteAttr(a) + Blanked(on)
    ensures BlankedLength([a] + on) == 1 + |Shown(a)| + BlankedLength(on)
  {
    hide WriteAttr, Shown;
    assert ([a] + on)[1..] == on;
  }

  lemma FirstLine(a: Attr, on: seq<Attr>, more: seq<seq<Attr>>)
    ensures var lines := [[a] + on] + more;
            && lines[1..] == more
            && Broken(lines) == [NL] + WriteAttr(a) + (Blanked(on) + Broken(more))
            && All(lines) == [a] + on + All(more)
            && LineLength(lines[0]) == |Shown(a)| + BlankedLength(on)
    ensures forall end :: LastEnd(end, [[a] + on] + more) == LastEnd(|Shown(a)| + BlankedLength(on), more)
  {
    hide WriteAttr, Shown;
    var lines := [[a] + on] + more;
    assert lines[1..] == more && lines[0][1..] == on;
    assert [NL] + WriteAttr(a) + Blanked(on) + Broken(more) == [NL] + WriteAttr(a) + (Blanked(on) + Broken(more));
  }

  /** A line may pass the margin by one: the blank before an attribute is not counted. */
  lemma MarginPassed()
    ensures var margin := 3;
            var line := [LT, 97, SP, 98];
            OpenTag(Element([97], [Attr([98], None)]), true, 0, margin).text == line + [GT] && |line| == margin + 1
  {
    var a := Attr([98], None);
    assert WriteAttrs([a][1..], 4, 3) == Out([], 4);
  }

  // ---- the real column ----

  /** The column after some output. */
  function Column(text: Str, col: int): int {
    if text == [] then col else Column(text[1..], if text[0] == NL then 0 else col + 1)
  }

  /** Text that is printed as it is, on one line. */
  predicate PlainText(s: Str) {
    forall i :: 0 <= i < |s| ==> s[i] !in {NL, AMP, LT, GT, QUOT}
  }

  predicate PlainName(n: Str) {
    PlainText(n) && At(n, 0) != APOS && !(CDATA <= n)
  }

  predicate PlainAttr(a: Attr) {
    PlainText(a.name) && At(a.name, 0) != APOS && (a.value.Some? ==> PlainText(a.value.value))
  }

  predicate PlainAttrs(attrs: seq<Attr>) {
    forall i :: 0 <= i < |attrs| ==> PlainAttr(attrs[i])
  }

  predicate PlainValue(v: Value) {
    match v
    case Element(name, attrs) => PlainName(name) && PlainAttrs(attrs)
    case Opaque(text) => PlainText(text)
  }

  predicate PlainDoc(d: Doc) {
    d.Nil? || (PlainValue(d.v) && PlainDoc(d.kids) && PlainDoc(d.rest))
  }

  lemma {:induction false} ColumnConcat(a: Str, b: Str, col: int)
    ensures Column(a + b, col) == Column(b, Column(a, col))
  {
    if a == [] {
      assert a + b == b;
    } else {
      assert (a + b)[1..] == a[1..] + b;
      ColumnConcat(a[1..], b, if a[0] == NL then 0 else col + 1);
    }
  }

  lemma {:induction false} ColumnOnLine(s: Str, col: int)
    requires NL !in s
    ensures Column(s, col) == col + |s|
  {
    if s != [] {
      ColumnOnLine(s[1..], col + 1);
    }
  }

  lemma {:induction false} PlainAsIs(s: Str)
    requires PlainText(s)
    ensures WriteString(s) == s
  {
    if s != [] {
      PlainAsIs(s[1..]);
    }
  }

  lemma AttrAsIs(a: Attr)
    requires PlainAttr(a)
    ensures WriteAttr(a) == Shown(a) && NL !in Shown(a)
  {
    hide WriteString;
    if a.value.Some? {
      PlainAsIs(a.value.value);
    }
  }

  /** The lengths of lines are those of the text. */
  lemma {:induction false} BlankedAsIs(attrs: seq<Attr>)
    requires PlainAttrs(attrs)
    ensures |Blanked(attrs)| == BlankedLength(attrs) && NL !in Blanked(attrs)
  {
    hide WriteAttr, Shown, PlainAttr;
    if attrs != [] {
      AttrAsIs(attrs[0]);
      BlankedAsIs(attrs[1..]);
    }
  }

  lemma {:induction false} AttrsColumn(attrs: seq<Attr>, col: int, wrap: int)
    requires PlainAttrs(attrs)
    ensures WriteAttrs(attrs, col, wrap).col == Column(WriteAttrs(attrs, col, wrap).text, col)
    decreases |attrs|
  {
    hide WriteAttr, Shown, PlainAttr, WriteAttrs, Column;
    if attrs == [] {
      NoAttrs(col, wrap);
    } else {
      var breaks := wrap > 0 && col + |Shown(attrs[0])| > wrap;
      var start := if breaks then [NL] else [SP];
      var shown := Shown(attrs[0]);
      var next := (if breaks then 0 else col + 1) + |shown|;
      NextAttr(attrs, col, wrap);
      AttrAsIs(attrs[0]);
      AttrsColumn(attrs[1..], next, wrap);
      ColumnConcat(start + shown, WriteAttrs(attrs[1..], next, wrap).text, col);
      ColumnConcat(start, shown, col);
      Separator(start, col);
      ColumnOnLine(shown, if breaks then 0 else col + 1);
    }
  }

  lemma NoAttrs(col: int, wrap: int)
    ensures WriteAttrs([], col, wrap) == Out([], col) && Column([], col) == col
  {
  }

  lemma Separator(s: Str, col: int)
    requires s == [NL] || s == [SP]
    ensures Column(s, col) == if s == [NL] then 0 else col + 1
  {
    assert s[1..] == [];
  }

  lemma OpenColumn(v: Value, parent: bool, col: int, wrap: int)
    requires PlainValue(v)
    ensures Open(v, parent, col, wrap).col == Column(Open(v, parent, col, wrap).text, col)
  {
    hide WriteString, WriteAttrs, PlainAttrs, Column, WriteTagName, PlainName, Unclosed;
    match v
    case Opaque(text) =>
      PlainAsIs(text);
      ColumnOnLine(text, col);
    case Element(name, attrs) =>
      NameAsIs(name);
      var inner := WriteAttrs(attrs, col + |name| + 1, wrap);
      var end := if parent || Unclosed(name) then [GT] else [SP, SLASH, GT];
      AttrsColumn(attrs, col + |name| + 1, wrap);
      ColumnConcat([LT] + name + inner.text, end, col);
      ColumnConcat([LT] + name, inner.text, col);
      ColumnOnLine([LT] + name, col);
      ColumnOnLine(end, inner.col);
  }

  lemma NameAsIs(n: Str)
    requires PlainName(n)
    ensures WriteTagName(n) == n && NL !in n
  {
  }

  lemma CloseColumn(v: Value, col: int)
    requires PlainValue(v)
    ensures Close(v, col).col == Column(Close(v, col).text, col)
  {
    hide WriteString;
    if v.Element? && !Unclosed(v.name) {
      PlainAsIs(v.name);
      ColumnOnLine(Close(v, col).text, col);
    }
  }

  /** For trees without escapes or line breaks of their own, the column the printer keeps, by which it breaks
      lines, is that of the text it has printed. */
  lemma {:induction false} WriteColumn(d: Doc, col: int, wrap: int)
    requires PlainDoc(d)
    ensures Write(d, col, wrap).col == Column(Write(d, col, wrap).text, col)
    decreases d, 0
  {
    hide Open, Close, Column, PlainValue, WriteNode;
    match d
    case Nil => NoAttrs(col, wrap);
    case Cons(v, kids, rest) =>
      var node := WriteNode(v, kids, col, wrap);
      NodeColumn(v, kids, col, wrap);
      WriteColumn(rest, node.col, wrap);
      ColumnConcat(node.text, Write(rest, node.col, wrap).text, col);
  }

  lemma {:induction false} NodeColumn(v: Value, kids: Doc, col: int, wrap: int)
    requires PlainValue(v) && PlainDoc(kids)
    ensures WriteNode(v, kids, col, wrap).col == Column(WriteNode(v, kids, col, wrap).text, col)
    decreases kids, 1
  {
    hide Open, Close, Column, PlainValue, Write;
    var open := Open(v, kids.Cons?, col, wrap);
    OpenColumn(v, kids.Cons?, col, wrap);
    if kids.Cons? {
      var below := Write(kids, open.col, wrap);
      WriteColumn(kids, open.col, wrap);
      CloseColumn(v, below.col);
      ColumnConcat(open.text, below.text, col);
      ColumnConcat(open.text + below.text, Close(v, below.col).text, col);
    }
  }

  // ---- the forms of tags ----

  /** Whether the element is of the kind that has no end tag, and how its name is closed. */
  lemma SpecialForms(n: Str, kids: Doc, col: int, wrap: int)
    requires n != [] && (n[0] == 33 || n[0] == 63) && At(n, 0) != QUOT
    ensures var tag := [60] + n + (if [33, 91, 67, 68, 65, 84, 65, 91] <= n then [93, 93] else []) + [62];
            WriteNode(Element(n, []), kids, col, wrap).text
            == tag + Write(kids, OpenTag(Element(n, []), kids.Cons?, col, wrap).col, wrap).text
  {
    hide Write;
    var tag := OpenTag(Element(n, []), kids.Cons?, col, wrap);
    assert WriteAttrs([], col + |n| + 1, wrap).text == [];
    assert COMMENT <= n ==> n[1] == 45;
    assert Write(Nil, tag.col, wrap).text == [] by { NoNodes(tag.col, wrap); }
  }

  lemma NoNodes(col: int, wrap: int)
    ensures Write(Nil, col, wrap) == Out([], col)
  {
  }

  /** Any other element is closed in its tag, behind a blank, if it has no children, and otherwise by an end tag. */
  lemma ElementForms(n: Str, attrs: seq<Attr>, kids: Doc, col: int, wrap: int)
    requires PlainName(n) && (n != [] ==> n[0] != 33 && n[0] != 63)
    ensures var inner := WriteAttrs(attrs, col + |n| + 1, wrap);
            WriteNode(Element(n, attrs), kids, col, wrap).text
            == if kids.Nil? then [60] + n + inner.text + [32, 47, 62]
               else [60] + n + inner.text + [62] + Write(kids, inner.col + 1, wrap).text + ([60, 47] + n + [62])
  {
    hide Write, WriteAttrs, WriteString;
    NameAsIs(n);
    PlainAsIs(n);
    var inner := WriteAttrs(attrs, col + |n| + 1, wrap);
    if kids.Cons? {
      var below := Write(kids, inner.col + 1, wrap);
      assert Close(Element(n, attrs), below.col).text == [60, 47] + n + [62];
    }
  }

  /** A name in quotes is escaped between them; what stands behind the closing quote is dropped, and a missing one
      is added. */
  lemma {:induction false} QuotedForm(q: byte, t: Str, rest: Str)
    requires (q == 34 || q == 39) && q !in t && (rest != [] ==> rest[0] == q)
    ensures WriteName([q] + (t + rest)) == [q] + WriteString(t) + [q]
  {
    hide WriteString;
    assert ([q] + (t + rest))[1..] == t + rest;
    UpToQuote(q, t, rest);
  }

  lemma {:induction false} UpToQuote(q: byte, t: Str, rest: Str)
    requires q !in t && (rest != [] ==> rest[0] == q)
    ensures UpTo(t + rest, q) == t
  {
    if t == [] {
      assert t + rest == rest;
    } else {
      assert (t + rest)[1..] == t[1..] + rest;
      UpToQuote(q, t[1..], rest);
    }
  }

  // ---- the last line ----

  /** Something has been printed exactly if the column has moved; a line break alone is never all. */
  predicate Moved(out: Out, col: int) {
    col >= 0 ==> if out.text == [] then out.col == col else out.col > 0
  }

  lemma {:induction false} AttrsColumnNat(attrs: seq<Attr>, col: int, wrap: int)
    requires col >= 0
    ensures WriteAttrs(attrs, col, wrap).col >= 0
    decreases |attrs|
  {
    hide WriteAttr, Wraps;
    if attrs != [] {
      AttrsColumnNat(attrs[1..], (if Wraps(attrs[0], col, wrap) then 0 else col + 1) + AttrWidth(attrs[0]), wrap);
    }
  }

  lemma OpenMoves(v: Value, parent: bool, col: int, wrap: int)
    ensures Moved(Open(v, parent, col, wrap), col)
  {
    hide WriteAttrs, WriteTagName;
    if v.Opaque? {
      if v.text != [] {
        WrittenNotEmpty(v.text);
      }
    } else if col >= 0 {
      AttrsColumnNat(v.attrs, col + |v.name| + 1, wrap);
    }
  }

  lemma WrittenNotEmpty(s: Str)
    requires s != []
    ensures WriteString(s) != []
  {
  }

  lemma {:induction false} WriteMoves(d: Doc, col: int, wrap: int)
    ensures Moved(Write(d, col, wrap), col)
    decreases d, 0
  {
    hide WriteNode;
    if d.Cons? {
      NodeMoves(d.v, d.kids, col, wrap);
      WriteMoves(d.rest, WriteNode(d.v, d.kids, col, wrap).col, wrap);
    }
  }

  lemma {:induction false} NodeMoves(v: Value, kids: Doc, col: int, wrap: int)
    ensures Moved(WriteNode(v, kids, col, wrap), col)
    decreases kids, 1
  {
    hide Open, Write;
    OpenMoves(v, kids.Cons?, col, wrap);
    if kids.Cons? {
      WriteMoves(kids, Open(v, true, col, wrap).col, wrap);
    }
  }

  /** Every tree that prints as anything is saved with a line break at the end. */
  lemma SavedEndsLine(v: Value, kids: Doc, wrap: int)
    ensures var text := WriteNode(v, kids, 0, wrap).text;
            Save(v, kids, wrap) == if text == [] then [] else text + [NL]
  {
    hide WriteNode;
    NodeMoves(v, kids, 0, wrap);
  }
}
