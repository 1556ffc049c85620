/** Loading what was saved gives back the same tree, at any wrap margin. */
module XmlRoundTrip {
  import opened Utf8
  import opened Entities
  import opened XmlTree
  import opened XmlWriter
  import opened XmlReader

  // ---- The trees the format can carry ----

  /** Text in UTF-8: the reader decodes it character by character, without byte order marks. */
  predicate IsText(t: Str)
    decreases |t|
  {
    t == [] || (Getc(t).Char? && !(Encode(BOM) <= t) && IsText(Getc(t).rest))
  }

  /** Text whose every character satisfies `ok`. */
  predicate TextOf(t: Str, ok: int -> bool)
    decreases |t|
  {
    t == [] || (Getc(t).Char? && !(Encode(BOM) <= t) && ok(Getc(t).ch) && TextOf(Getc(t).rest, ok))
  }

  predicate TagChar(ch: int) {
    !IsSpace(ch) && ch != GT && ch != SLASH && ch != AMP && !BadInTag(ch)
  }

  predicate AttrNameChar(ch: int) {
    !EndsName(ch) && ch != AMP
  }

  predicate DeclarationChar(ch: int) {
    ch != GT && ch != AMP
  }

  /** The name of an ordinary element; it may be empty. */
  predicate IsElementName(n: Str) {
    (n != [] ==> n[0] != QM && n[0] != EXCL) && TextOf(n, TagChar)
  }

  /** An attribute: its name starts with an ASCII character, and it has a value. */
  predicate IsAttr(a: Attr) {
    && a.name != []
    && a.name[0] < 0x80 && Legal(a.name[0]) && !IsSpace(a.name[0])
    && a.name[0] !in {SLASH, QM, LT, GT, QUOT, APOS}
    && TextOf(a.name[1..], AttrNameChar)
    && a.value.Some? && IsText(a.value.value)
  }

  predicate AreAttrs(attrs: seq<Attr>) {
    && (forall i :: 0 <= i < |attrs| ==> IsAttr(attrs[i]))
    && (forall i, j :: 0 <= i < j < |attrs| ==> attrs[i].name != attrs[j].name)
  }

  /** Text that, followed by `>`, is collected up to that `>` and no earlier one. */
  predicate EndsOnce(t: Str, from: nat, ends: Str -> bool) {
    && ends(t)
    && (forall i :: from <= i < |t| && t[i] == GT ==> !ends(t[..i]))
  }

  predicate IsComment(n: Str) {
    COMMENT <= n && IsText(n[3..]) && EndsOnce(n, 3, EndsComment)
  }

  predicate IsCdata(n: Str) {
    CDATA <= n && IsText(n[8..]) && EndsOnce(n + [RBRACK, RBRACK], 8, EndsCdata)
  }

  predicate IsDirective(n: Str) {
    [QM] <= n && IsText(n[1..]) && EndsOnce(n, 1, EndsDirective)
  }

  /** The text of a declaration after its `!`: a tag name, then anything but `>` and `&`. Behind the tag name
      there may be a byte 0xFF, which the reader refuses as a character and stores as that very byte. */
  predicate IsDeclarationText(t: Str)
    decreases |t|
  {
    t == []
    || (t[0] == 0xFF && TextOf(t[1..], DeclarationChar))
    || (Getc(t).Char? && !(Encode(BOM) <= t)
        && var c := Getc(t).ch;
           if IsSpace(c) || c == SLASH then TextOf(t, DeclarationChar)
           else TagChar(c) && IsDeclarationText(Getc(t).rest))
  }

  predicate IsDeclaration(n: Str) {
    [EXCL] <= n && !(COMMENT <= n) && !(CDATA <= n) && IsDeclarationText(n[1..])
  }

  /** An element that is all name: a comment, a CDATA section, a processing instruction or a
      declaration. */
  predicate IsSpecial(n: Str) {
    IsComment(n) || IsCdata(n) || IsDirective(n) || IsDeclaration(n)
  }

  /** Special elements below which a document goes on when they come first. */
  predicate IsProlog(n: Str) {
    IsDirective(n) || IsDeclaration(n)
  }

  /** The forests that can stand inside an element and be read back. */
  predicate Reloadable(d: Doc) {
    match d
    case Nil => true
    case Cons(Opaque(t), kids, rest) =>
      && t != [] && IsText(t) && kids.Nil?
      && !(rest.Cons? && rest.v.Opaque?)
      && Reloadable(rest)
    case Cons(Element(n, attrs), kids, rest) =>
      && (if IsSpecial(n) then attrs == [] && kids.Nil?
          else IsElementName(n) && AreAttrs(attrs) && Reloadable(kids))
      && Reloadable(rest)
  }

  // ---- Characters ----

  lemma TextSplits(t: Str)
    requires t != [] && Getc(t).Char? && !(Encode(BOM) <= t)
    ensures Legal(Getc(t).ch) && t == Encode(Getc(t).ch) + Getc(t).rest
  {
    GetcSplits(t);
  }

  /** Reading the first character of text that has something after it. */
  lemma NextInText(t: Str, s: Str)
    requires t != [] && Getc(t).Char? && !(Encode(BOM) <= t)
    ensures Next(t + s) == Scan(Getc(t).ch, [], Getc(t).rest + s)
  {
    hide Getc, Encode;
    TextSplits(t);
    var c, r := Getc(t).ch, Getc(t).rest;
    assert t + s == Encode(c) + (r + s);
    GetcLegal(c, r + s);
  }

  lemma NextAscii(b: byte, s: Str)
    requires b < 0x80 && Legal(b)
    ensures Next([b] + s) == Scan(b, [], s)
  {
    hide Getc, Encode;
    EncodesAs1(b);
    GetcLegal(b, s);
  }

  lemma {:induction false} TextOfIsText(t: Str, ok: int -> bool)
    requires TextOf(t, ok)
    ensures IsText(t)
    decreases |t|
  {
    hide Getc, Encode;
    if t != [] {
      TextOfIsText(Getc(t).rest, ok);
    }
  }

  lemma {:induction false} TextHasNoNul(t: Str)
    requires IsText(t)
    ensures 0 !in t
    decreases |t|
  {
    hide Getc, Encode;
    if t != [] {
      TextSplits(t);
      TextHasNoNul(Getc(t).rest);
    }
  }

  lemma {:induction false} CStrOfText(t: Str)
    requires 0 !in t
    ensures CStr(t) == t
  {
    if t != [] {
      CStrOfText(t[1..]);
      assert t == [t[0]] + t[1..];
    }
  }

  // ---- Escaping ----

  lemma {:induction false} HighBytes(t: Str)
    requires forall i :: 0 <= i < |t| ==> t[i] >= 0x80
    ensures WriteString(t) == t
  {
    if t != [] {
      HighBytes(t[1..]);
      assert t == [t[0]] + t[1..];
    }
  }

  lemma EncodeHigh(c: nat)
    requires 0x80 <= c
    ensures forall i :: 0 <= i < |Encode(c)| ==> Encode(c)[i] >= 0x80
  {
  }

  /** How a character is written. */
  lemma WriteChar(c: nat)
    requires Legal(c)
    ensures WriteString(Encode(c)) == if EntityName(c) != [] then [AMP] + EntityName(c) + [SEMI] else Encode(c)
  {
    hide Encode, EntityName;
    if c < 0x80 {
      EncodesAs1(c);
      assert WriteString([c]) == Escape(c) + WriteString([]);
      assert Escape(c) + [] == Escape(c);
    } else {
      EncodeHigh(c);
      HighBytes(Encode(c));
      NoHighNames(c);
    }
  }

  lemma NoHighNames(c: nat)
    requires 0x80 <= c
    ensures EntityName(c) == []
  {
  }

  lemma {:induction false} EntityCharsRead(name: Str, s: Str, ent: Str)
    requires forall i :: 0 <= i < |name| ==> IsAlnum(name[i]) || name[i] == HASH
    requires |ent| + |name| <= 63
    ensures EntityChars(name + ([SEMI] + s), ent) == Scan(SEMI, ent + name, s)
    decreases |name|
  {
    hide Next;
    if name == [] {
      assert name + ([SEMI] + s) == [SEMI] + s;
      NextAscii(SEMI, s);
      assert ent + name == ent;
    } else {
      assert name + ([SEMI] + s) == [name[0]] + (name[1..] + ([SEMI] + s));
      NextAscii(name[0], name[1..] + ([SEMI] + s));
      EntityCharsRead(name[1..], s, ent + [name[0]]);
      assert ent + name == (ent + [name[0]]) + name[1..];
    }
  }

  lemma EntityNameShape(c: nat)
    ensures |EntityName(c)| <= 4
    ensures forall i :: 0 <= i < |EntityName(c)| ==> IsAlnum(EntityName(c)[i])
    ensures EntityName(c) != [] ==> EntityName(c)[0] != HASH && Legal(c)
    ensures EntityName(c) != [] <==> c in {AMP, LT, GT, QUOT}
  {
  }

  lemma EntityRead(c: nat, s: Str)
    requires EntityName(c) != []
    ensures GetEntity(EntityName(c) + ([SEMI] + s)) == Scan(c, [], s)
  {
    hide EntityName, EntityChars, EntityValue;
    EntityNameShape(c);
    EntityCharsRead(EntityName(c), s, []);
    assert [] + EntityName(c) == EntityName(c);
    NamesAreKnown(c);
  }

  /** A written character is read and decoded to itself. */
  lemma DecodeWritten(c: nat, s: Str)
    requires Legal(c)
    ensures var n := Next(WriteString(Encode(c)) + s);
            n.Scan? && n.ch == (if EntityName(c) != [] then AMP else c) && Decoded(n) == Scan(c, [], s)
  {
    hide Encode, EntityName, Getc, GetEntity, WriteString;
    WriteChar(c);
    EntityNameShape(c);
    if EntityName(c) != [] {
      assert WriteString(Encode(c)) + s == [AMP] + (EntityName(c) + ([SEMI] + s));
      NextAscii(AMP, EntityName(c) + ([SEMI] + s));
      EntityRead(c, s);
    } else {
      GetcLegal(c, s);
    }
  }

  /** Written text splits after its first character. */
  lemma WriteSplits(t: Str, s: Str)
    requires t != [] && Getc(t).Char? && !(Encode(BOM) <= t)
    ensures WriteString(t) + s == WriteString(Encode(Getc(t).ch)) + (WriteString(Getc(t).rest) + s)
  {
    hide Encode, Getc, WriteString;
    TextSplits(t);
    var e, r := Encode(Getc(t).ch), Getc(t).rest;
    WriteStringConcat(e, r);
    assert (WriteString(e) + WriteString(r)) + s == WriteString(e) + (WriteString(r) + s);
  }

  // ---- Attributes ----

  lemma {:induction false} ValueRead(v: Str, s: Str, buf: Str)
    requires IsText(v)
    ensures Quoted(WriteString(v) + ([QUOT] + s), QUOT, buf, false) == Scan(QUOT, buf + v, s)
    decreases |v|
  {
    hide Encode, Getc, Next, EntityName, Decoded;
    if v == [] {
      assert WriteString(v) + ([QUOT] + s) == [QUOT] + s;
      NextAscii(QUOT, s);
      assert buf + v == buf;
    } else {
      var c, r := Getc(v).ch, Getc(v).rest;
      TextSplits(v);
      WriteSplits(v, [QUOT] + s);
      DecodeWritten(c, WriteString(r) + ([QUOT] + s));
      EntityNameShape(c);
      ValueRead(r, s, buf + Encode(c));
      assert buf + v == (buf + Encode(c)) + r;
    }
  }

  lemma {:induction false} BareRead(n: Str, e: byte, s: Str, buf: Str)
    requires TextOf(n, AttrNameChar) && EndsName(e) && Legal(e) && e < 0x80
    ensures Bare(n + ([e] + s), buf, EndsName) == Scan(e, buf + n, s)
    decreases |n|
  {
    hide Encode, Getc, Next;
    if n == [] {
      assert n + ([e] + s) == [e] + s;
      NextAscii(e, s);
      assert buf + n == buf;
    } else {
      var c, r := Getc(n).ch, Getc(n).rest;
      TextSplits(n);
      NextInText(n, [e] + s);
      BareRead(r, e, s, buf + Encode(c));
      assert buf + n == (buf + Encode(c)) + r;
    }
  }

  /** The name and the value of an attribute are C strings. */
  lemma AttrStrings(a: Attr)
    requires IsAttr(a)
    ensures CStr(a.name) == a.name && CStr(a.value.value) == a.value.value
  {
    hide CStr, TextOf, IsText;
    var n := a.name;
    TextOfIsText(n[1..], AttrNameChar);
    TextHasNoNul(n[1..]);
    TextHasNoNul(a.value.value);
    assert n == [n[0]] + n[1..];
    CStrOfText(n);
    CStrOfText(a.value.value);
  }

  lemma AttrNameRead(a: Attr, tail: Str)
    requires IsAttr(a)
    ensures AttrName(a.name[0], a.name[1..] + ([EQ] + tail)) == Scan(EQ, a.name, tail)
  {
    hide Bare, TextOf, IsText;
    BareRead(a.name[1..], EQ, tail, [a.name[0]]);
    assert [a.name[0]] + a.name[1..] == a.name;
  }

  lemma AttrValueRead(v: Str, s: Str)
    requires IsText(v)
    ensures AttrValue(QUOT, WriteString(v) + ([QUOT] + s)) == Scan(QUOT, v, s)
  {
    hide Quoted, IsText, WriteString;
    ValueRead(v, s, []);
    assert [] + v == v;
  }

  lemma AttrRead(a: Attr, s: Str, attrs: seq<Attr>)
    requires IsAttr(a) && !HasAttr(attrs, a.name)
    ensures ScanAttr(a.name[0], a.name[1..] + ([EQ, QUOT] + WriteString(a.value.value) + [QUOT] + s), attrs)
            == AttrScan(a, QUOT, s)
  {
    hide Next, AttrName, AttrValue, CStr, HasAttr, TextOf, IsText, WriteString;
    var v := a.value.value;
    var tail := [QUOT] + (WriteString(v) + ([QUOT] + s));
    assert [EQ, QUOT] + WriteString(v) + [QUOT] + s == [EQ] + tail;
    AttrNameRead(a, tail);
    NextAscii(QUOT, WriteString(v) + ([QUOT] + s));
    AttrValueRead(v, s);
    AttrStrings(a);
  }

  /** Behind a separator, a written attribute is parsed. */
  lemma AttrParsed(a: Attr, separator: byte, after: Str, done: seq<Attr>)
    requires IsAttr(a) && !HasAttr(done, a.name) && (separator == NL || separator == SP)
    ensures ParseElement([separator] + (WriteAttr(a) + after), done) == ParseElement(after, done + [a])
  {
    hide Next, ScanAttr, WriteString, HasAttr, TextOf, IsText;
    var body := a.name[1..] + ([EQ, QUOT] + WriteString(a.value.value) + [QUOT] + after);
    assert WriteAttr(a) + after == [a.name[0]] + body;
    NextAscii(separator, [a.name[0]] + body);
    NextAscii(a.name[0], body);
    AttrRead(a, after, done);
  }

  lemma FreshName(done: seq<Attr>, attrs: seq<Attr>)
    requires attrs != [] && AreAttrs(done + attrs)
    ensures IsAttr(attrs[0]) && !HasAttr(done, attrs[0].name)
  {
    hide IsAttr;
    assert attrs[0] == (done + attrs)[|done|];
    forall i | 0 <= i < |done| ensures done[i].name != attrs[0].name {
      assert done[i] == (done + attrs)[i];
    }
  }

  lemma {:induction false} AttrsRead(attrs: seq<Attr>, col: int, wrap: int, done: seq<Attr>, s: Str)
    requires AreAttrs(done + attrs)
    ensures ParseElement(WriteAttrs(attrs, col, wrap).text + s, done) == ParseElement(s, done + attrs)
    decreases |attrs|
  {
    hide ParseElement, WriteAttr, Wraps, AttrWidth, IsAttr, HasAttr;
    if attrs == [] {
      assert WriteAttrs(attrs, col, wrap).text + s == s;
      assert done + attrs == done;
    } else {
      var a := attrs[0];
      var start := if Wraps(a, col, wrap) then Out([NL], 0) else Out([SP], col + 1);
      var more := WriteAttrs(attrs[1..], start.col + AttrWidth(a), wrap);
      assert WriteAttrs(attrs, col, wrap).text + s == start.text + (WriteAttr(a) + (more.text + s));
      FreshName(done, attrs);
      AttrParsed(a, start.text[0], more.text + s, done);
      assert done + attrs == (done + [a]) + attrs[1..];
      AttrsRead(attrs[1..], start.col + AttrWidth(a), wrap, done + [a], s);
    }
  }

  // ---- Tags ----

  predicate EndsTagName(e: int) {
    e == NL || e == SP || e == GT
  }

  lemma {:induction false} TagNameRead(n: Str, e: byte, s: Str, buf: Str)
    requires TextOf(n, TagChar) && (IsSpace(e) || e == GT || (e == SLASH && buf + n != []))
    requires if buf == [] then n != [] ==> n[0] != QM && n[0] != EXCL else buf[0] != QM && buf[0] != EXCL
    ensures TagName(n + ([e] + s), buf) == Scan(e, buf + n, s)
    decreases |n|
  {
    hide Encode, Getc, Next;
    if n == [] {
      assert n + ([e] + s) == [e] + s;
      NextAscii(e, s);
      assert buf + n == buf;
    } else {
      var c, r := Getc(n).ch, Getc(n).rest;
      TextSplits(n);
      NextInText(n, [e] + s);
      assert n[0] == Encode(c)[0];
      TagNameRead(r, e, s, buf + Encode(c));
      assert buf + n == (buf + Encode(c)) + r;
    }
  }

  /** Element names are written as they are. */
  lemma {:induction false} ElementNameUnescaped(n: Str)
    requires TextOf(n, TagChar)
    ensures WriteString(n) == n
    decreases |n|
  {
    hide Encode, Getc, WriteString, EntityName;
    if n != [] {
      var c, r := Getc(n).ch, Getc(n).rest;
      TextSplits(n);
      WriteStringConcat(Encode(c), r);
      WriteChar(c);
      EntityNameShape(c);
      ElementNameUnescaped(r);
    } else {
      assert WriteString([]) == [] by { EmptyString(); }
    }
  }

  lemma EmptyString()
    ensures WriteString([]) == []
  {
  }

  lemma FirstTagChar(n: Str)
    requires IsElementName(n)
    ensures At(n, 0) !in {QM, EXCL, SLASH, QUOT, APOS} && WriteTagName(n) == n
  {
    hide Encode, Getc;
    if n != [] {
      var c := Getc(n).ch;
      TextSplits(n);
      if c < 0x80 {
        EncodesAs1(c);
      } else {
        EncodeHigh(c);
      }
    }
  }

  /** What the opening tag of an element makes of the parser's state. */
  function Opened(st: State, v: Value, parent: bool): State
    requires v.Element?
  {
    if parent then Descend(st, v.name, v.attrs) else AddNode(st, v, Nil)
  }

  lemma TagEndRead(parent: bool, attrs: seq<Attr>, s: Str)
    ensures ParseElement((if parent then [GT] else [SP, SLASH, GT]) + s, attrs)
            == TagScan(if parent then GT else SLASH, attrs, s)
    ensures !parent ==> ParseElement([SLASH, GT] + s, attrs) == TagScan(SLASH, attrs, s)
  {
    hide Next;
    if parent {
      NextAscii(GT, s);
    } else {
      assert [SP, SLASH, GT] + s == [SP] + ([SLASH] + ([GT] + s));
      assert [SLASH, GT] + s == [SLASH] + ([GT] + s);
      NextAscii(SP, [SLASH] + ([GT] + s));
      NextAscii(SLASH, [GT] + s);
      NextAscii(GT, s);
    }
  }

  /** From the character that ends the tag name, the rest of the opening tag. */
  lemma OpenRest(attrs: seq<Attr>, parent: bool, col: int, wrap: int, s: Str)
    requires AreAttrs(attrs)
    ensures var text := WriteAttrs(attrs, col, wrap).text + (if parent then [GT] else [SP, SLASH, GT]) + s;
            && text != [] && EndsTagName(text[0])
            && (text[0] == GT ==> parent && attrs == [] && text[1..] == s)
            && (text[0] != GT ==> ParseElement(text[1..], []) == TagScan(if parent then GT else SLASH, attrs, s))
  {
    hide Next, WriteAttrs, ParseElement, AreAttrs;
    var end := if parent then [GT] else [SP, SLASH, GT];
    var out := WriteAttrs(attrs, col, wrap).text;
    var text := out + end + s;
    assert text == out + (end + s);
    assert [] + attrs == attrs;
    AttrsRead(attrs, col, wrap, [], end + s);
    TagEndRead(parent, attrs, s);
    AttrsStart(attrs, col, wrap);
    assert text[0] == if attrs == [] then end[0] else out[0];
    assert text == [text[0]] + text[1..];
    if text[0] != GT {
      SeparatorSkipped(text[0], text[1..]);
    } else {
      assert text == [GT] + s;
    }
  }

  // Attributes are set off by a blank or a line break.
  lemma AttrsStart(attrs: seq<Attr>, col: int, wrap: int)
    ensures var text := WriteAttrs(attrs, col, wrap).text;
            if attrs == [] then text == [] else text != [] && (text[0] == NL || text[0] == SP)
  {
    hide WriteAttr, AttrWidth, Wraps;
  }

  lemma SeparatorSkipped(e: byte, s: Str)
    requires e == NL || e == SP
    ensures ParseElement([e] + s, []) == ParseElement(s, [])
  {
    hide Next;
    NextAscii(e, s);
  }

  lemma TagOfElement(st: State, s: Str)
    requires var n := TagName(s, []); n.Scan? && EOF <= n.ch && At(n.buf, 0) !in {QM, EXCL, SLASH}
    ensures Tag(st, s) == OpenElement(st, TagName(s, []))
  {
    hide TagName;
  }

  /** The rest of an opening tag after its name, up to the parser's new state. */
  lemma ElementOpened(v: Value, parent: bool, col: int, wrap: int, s: Str, st: State)
    requires v.Element? && AreAttrs(v.attrs) && !SecondRoot(st)
    ensures var text := WriteAttrs(v.attrs, col, wrap).text + (if parent then [GT] else [SP, SLASH, GT]) + s;
            && text != [] && EndsTagName(text[0])
            && OpenElement(st, Scan(text[0], v.name, text[1..])) == Step(Opened(st, v, parent), s)
  {
    hide WriteAttrs, ParseElement, AreAttrs, AddNode;
    OpenRest(v.attrs, parent, col, wrap, s);
  }

  lemma OpenTagText(v: Value, parent: bool, col: int, wrap: int, s: Str)
    requires v.Element? && IsElementName(v.name)
    ensures |OpenTag(v, parent, col, wrap).text| > 0 && OpenTag(v, parent, col, wrap).text[0] == LT
    ensures OpenTag(v, parent, col, wrap).text[1..] + s
            == v.name + (WriteAttrs(v.attrs, col + |v.name| + 1, wrap).text
                         + (if parent then [GT] else [SP, SLASH, GT]) + s)
  {
    hide WriteAttrs, WriteTagName, TextOf, Unclosed;
    FirstTagChar(v.name);
    HasEndTag(v.name);
  }

  lemma OpenTagRead(v: Value, parent: bool, col: int, wrap: int, s: Str, st: State)
    requires v.Element? && IsElementName(v.name) && AreAttrs(v.attrs) && !SecondRoot(st)
    ensures |OpenTag(v, parent, col, wrap).text| > 0 && OpenTag(v, parent, col, wrap).text[0] == LT
    ensures Tag(st, OpenTag(v, parent, col, wrap).text[1..] + s) == Step(Opened(st, v, parent), s)
  {
    hide WriteAttrs, Tag, TagName, TextOf, AreAttrs, OpenElement, Opened, OpenTag;
    FirstTagChar(v.name);
    var end := if parent then [GT] else [SP, SLASH, GT];
    var text := WriteAttrs(v.attrs, col + |v.name| + 1, wrap).text + end + s;
    ElementOpened(v, parent, col + |v.name| + 1, wrap, s, st);
    assert text == [text[0]] + text[1..];
    OpenTagText(v, parent, col, wrap, s);
    TagNameRead(v.name, text[0], text[1..], []);
    assert [] + v.name == v.name;
    TagOfElement(st, v.name + text);
  }

  lemma CloseTagRead(n: Str, s: Str, st: State)
    requires IsElementName(n) && st.parent.Push? && st.parent.name == n
    ensures Tag(st, [SLASH] + WriteString(n) + [GT] + s)
            == Step(AddNode(st.(parent := st.parent.up), Element(n, st.parent.attrs), st.parent.kids), s)
  {
    hide Next, WriteString, TextOf, AddNode;
    ElementNameUnescaped(n);
    assert [SLASH] + WriteString(n) + [GT] + s == [SLASH] + (n + ([GT] + s));
    NextAscii(SLASH, n + ([GT] + s));
    SlashRead(n + ([GT] + s));
    TagNameRead(n, GT, s, [SLASH]);
    assert ([SLASH] + n)[1..] == n;
  }

  lemma SlashRead(s: Str)
    ensures TagName([SLASH] + s, []) == TagName(s, [SLASH])
  {
    hide Next, Encode;
    NextAscii(SLASH, s);
    EncodesAs1(SLASH);
    assert [] + [SLASH] == [SLASH];
  }

  // ---- Comments, CDATA sections, processing instructions and declarations ----

  /** Collecting `t`, of which the part before `k` is already in the buffer. */
  lemma {:induction false} UntilRead(t: Str, k: nat, from: nat, s: Str, ends: Str -> bool)
    requires from <= k <= |t| && IsText(t[k..]) && EndsOnce(t, from, ends)
    ensures Until(t[k..] + ([GT] + s), t[..k], ends) == Scan(GT, t, s)
    decreases |t| - k
  {
    hide Encode, Getc, Next;
    if k == |t| {
      assert t[k..] + ([GT] + s) == [GT] + s;
      assert t[..k] == t;
      NextAscii(GT, s);
    } else {
      var u := t[k..];
      var c, r := Getc(u).ch, Getc(u).rest;
      TextSplits(u);
      NextInText(u, [GT] + s);
      if c == GT {
        EncodesAs1(GT);
        assert t[k] == u[0] == GT;
      }
      var m := k + |Encode(c)|;
      assert r == u[|Encode(c)|..] == t[m..];
      assert t[..k] + Encode(c) == t[..m] by {
        assert t[k..m] == u[..|Encode(c)|] == Encode(c);
      }
      UntilRead(t, m, from, s, ends);
    }
  }

  /** The characters "!--" and "![CDATA[" are recognized as soon as they are complete. */
  lemma CommentStart(s: Str)
    ensures TagName(COMMENT + s, []) == Scan(DASH, COMMENT, s)
  {
    hide Next, Encode;
    assert COMMENT + s == [EXCL] + ([DASH] + ([DASH] + s));
    NextAscii(EXCL, [DASH] + ([DASH] + s));
    NextAscii(DASH, [DASH] + s);
    NextAscii(DASH, s);
    EncodesAs1(EXCL);
    EncodesAs1(DASH);
    assert [] + [EXCL] == [EXCL] && [EXCL] + [DASH] == [EXCL, DASH] && [EXCL, DASH] + [DASH] == COMMENT;
    assert TagName([DASH] + s, [EXCL, DASH]) == Scan(DASH, COMMENT, s);
    assert TagName([DASH] + ([DASH] + s), [EXCL]) == TagName([DASH] + s, [EXCL, DASH]);
  }

  /** One step of collecting the letters of "![CDATA[". */
  lemma CdataLetter(k: nat, s: Str)
    requires k < 8
    ensures TagName([CDATA[k]] + s, CDATA[..k])
            == if k == 7 then Scan(CDATA[7], CDATA, s) else TagName(s, CDATA[..k + 1])
  {
    hide Next, Encode;
    NextAscii(CDATA[k], s);
    EncodesAs1(CDATA[k]);
    assert CDATA[..k] + [CDATA[k]] == CDATA[..k + 1];
    assert CDATA[..8] == CDATA;
    if k < 7 {
      NotYetSpecial(k + 1);
    }
  }

  lemma NotYetSpecial(k: nat)
    requires 1 <= k < 8
    ensures !Special(CDATA[..k])
  {
    assert CDATA[..k][0] == CDATA[0] == EXCL;
    if k == 3 {
      assert CDATA[..k][1] == CDATA[1] == 91;
    }
  }

  lemma {:induction false} CdataFrom(k: nat, s: Str)
    requires k < 8
    ensures TagName(CDATA[k..] + s, CDATA[..k]) == Scan(CDATA[7], CDATA, s)
    decreases 8 - k
  {
    hide TagName;
    assert CDATA[k..] + s == [CDATA[k]] + (CDATA[k + 1..] + s);
    CdataLetter(k, CDATA[k + 1..] + s);
    if k == 7 {
      assert CDATA[k + 1..] + s == s;
    } else {
      CdataFrom(k + 1, s);
    }
  }

  lemma DirectiveStart(s: Str)
    ensures TagName([QM] + s, []) == Scan(QM, [QM], s)
  {
    hide Next, Encode;
    NextAscii(QM, s);
    EncodesAs1(QM);
    assert [] + [QM] == [QM];
  }

  /** What follows the `<` of a special element up to its `>`. */
  function SpecialText(n: Str): Str {
    if CDATA <= n then n + [RBRACK, RBRACK] else n
  }

  lemma CommentRead(n: Str, s: Str, st: State)
    requires IsComment(n) && !SecondRoot(st)
    ensures Tag(st, n + ([GT] + s)) == Step(AddNode(st, Element(n, []), Nil), s)
  {
    hide TagName, Until, IsText, AddNode, EndsOnce;
    assert n + ([GT] + s) == COMMENT + (n[3..] + ([GT] + s));
    CommentStart(n[3..] + ([GT] + s));
    assert n[..3] == COMMENT;
    UntilRead(n, 3, 3, s, EndsComment);
    assert n[..|n|] == n;
  }

  lemma CdataRead(n: Str, s: Str, st: State)
    requires IsCdata(n) && !SecondRoot(st)
    ensures Tag(st, n + [RBRACK, RBRACK] + ([GT] + s)) == Step(AddNode(st, Element(n, []), Nil), s)
  {
    hide TagName, Until, IsText, AddNode, EndsOnce;
    var t := n + [RBRACK, RBRACK];
    assert t + ([GT] + s) == CDATA + (t[8..] + ([GT] + s));
    CdataFrom(0, t[8..] + ([GT] + s));
    assert CDATA[0..] == CDATA && CDATA[..0] == [];
    assert t[..8] == CDATA;
    assert t[8..] == n[8..] + [RBRACK, RBRACK];
    TextAppend(n[8..]);
    UntilRead(t, 8, 8, s, EndsCdata);
    assert t[..|t| - 2] == n;
    assert CDATA != COMMENT;
  }

  /** Text stays text when "]]" is appended. */
  lemma {:induction false} TextAppend(t: Str)
    requires IsText(t)
    ensures IsText(t + [RBRACK, RBRACK])
    decreases |t|
  {
    if t == [] {
      assert t + [RBRACK, RBRACK] == [RBRACK, RBRACK];
      assert [RBRACK, RBRACK][1..] == [RBRACK];
      assert IsText([RBRACK]);
    } else {
      hide Encode, Getc;
      var r := Getc(t).rest;
      TextSplits(t);
      NextInText(t, [RBRACK, RBRACK]);
      TextAppend(r);
      NoBom(t, [RBRACK, RBRACK]);
    }
  }

  /** Text that starts with a character other than the byte order mark still does when it grows. */
  lemma NoBom(t: Str, s: Str)
    requires t != [] && Getc(t).Char? && !(Encode(BOM) <= t)
    ensures !(Encode(BOM) <= t + s)
  {
    hide Encode, Getc;
    if Encode(BOM) <= t + s {
      NextInText(t, s);
      BomSkipped(t + s);
    }
  }

  lemma DirectiveRead(n: Str, s: Str, st: State)
    requires IsDirective(n) && !SecondRoot(st)
    ensures Tag(st, n + ([GT] + s))
            == Step(if st.parent.Empty? then Descend(st, n, []) else AddNode(st, Element(n, []), Nil), s)
  {
    hide TagName, Until, IsText, AddNode, EndsOnce;
    assert n + ([GT] + s) == [QM] + (n[1..] + ([GT] + s));
    DirectiveStart(n[1..] + ([GT] + s));
    assert n[..1] == [QM];
    UntilRead(n, 1, 1, s, EndsDirective);
    assert n[..|n|] == n;
  }

  /** Collecting the character `c` of a declaration and then `t`. */
  lemma {:induction false} DeclarationStep(c: nat, t: Str, s: Str, buf: Str, e: Str)
    requires TextOf(t, DeclarationChar) && Legal(c) && DeclarationChar(c) && e == Encode(c)
    ensures Declaration(c, t + ([GT] + s), buf) == Scan(GT, buf + e + t, s)
    decreases |t|
  {
    hide Encode, Getc, Next;
    if t == [] {
      assert t + ([GT] + s) == [GT] + s;
      NextAscii(GT, s);
      assert buf + e + t == buf + e;
    } else {
      var d, r := Getc(t).ch, Getc(t).rest;
      TextSplits(t);
      NextInText(t, [GT] + s);
      DeclarationStep(d, r, s, buf + e, Encode(d));
      assert buf + e + t == (buf + e) + Encode(d) + r;
    }
  }

  // One character of a tag name, and its end.
  lemma TagNameStep(s: Str, c: nat, rest: Str, buf: Str)
    requires Next(s) == Scan(c, [], rest) && TagChar(c) && !Special(buf + Encode(c))
    ensures TagName(s, buf) == TagName(rest, buf + Encode(c))
  {
    hide Next, Encode;
  }

  lemma TagNameStops(s: Str, c: nat, rest: Str, buf: Str)
    requires Next(s) == Scan(c, [], rest) && (IsSpace(c) || c == GT || (c == SLASH && buf != []))
    ensures TagName(s, buf) == Scan(c, buf, rest)
  {
    hide Next, Encode;
  }

  lemma NoSpecialPrefix(n: Str, k: nat)
    requires 1 <= k <= |n| && n[0] == EXCL && !(COMMENT <= n) && !(CDATA <= n)
    ensures n[..k][0] == EXCL && n[..k] != COMMENT && n[..k] != CDATA && !Special(n[..k])
  {
  }

  lemma DeclarationEnds(s: Str, buf: Str)
    ensures Declaration(GT, s, buf) == Scan(GT, buf, s)
  {
  }

  /** The scan of a tag name, completed as a declaration, yields this name. */
  predicate Declares(m: Scan, n: Str, s: Str)
    requires m.Scan? ==> EOF <= m.ch
  {
    && m.Scan? && m.buf != [] && m.buf[0] == EXCL && m.buf != COMMENT && m.buf != CDATA
    && Declaration(m.ch, m.rest, m.buf) == Scan(GT, n, s)
  }

  /** The name of a declaration, collected in two stages. */
  lemma {:induction false} DeclarationCollected(n: Str, k: nat, s: Str)
    requires 1 <= k <= |n| && n[0] == EXCL && !(COMMENT <= n) && !(CDATA <= n) && IsDeclarationText(n[k..])
    ensures Declares(TagName(n[k..] + ([GT] + s), n[..k]), n, s)
    decreases |n| - k
  {
    hide Encode, Getc, Next, TextOf, TagName, Declares, Special, IsDeclarationText, TagChar;
    if k == |n| {
      DeclarationAtEnd(n, s);
      assert n[k..] + ([GT] + s) == [GT] + s && n[..k] == n;
    } else {
      var u := n[k..];
      DeclarationCases(u);
      if u[0] == 0xFF {
        DeclarationAtRefused(n, k, s);
      } else {
        var c := Getc(u).ch;
        DeclarationPart(n, k);
        NextInText(u, [GT] + s);
        var m := k + |Encode(c)|;
        if IsSpace(c) || c == SLASH {
          DeclarationAtBlank(n, k, s);
        } else {
          NoSpecialPrefix(n, m);
          TagNameStep(u + ([GT] + s), c, n[m..] + ([GT] + s), n[..k]);
          DeclarationCollected(n, m, s);
        }
      }
    }
  }

  lemma DeclarationAtEnd(n: Str, s: Str)
    requires n != [] && n[0] == EXCL && !(COMMENT <= n) && !(CDATA <= n)
    ensures Declares(TagName([GT] + s, n), n, s)
  {
    hide Next, TagName, Declaration;
    NextAscii(GT, s);
    TagNameStops([GT] + s, GT, s, n);
    DeclarationEnds(s, n);
  }

  lemma DeclarationAtRefused(n: Str, k: nat, s: Str)
    requires 1 <= k < |n| && n[0] == EXCL && !(COMMENT <= n) && !(CDATA <= n)
    requires n[k] == 0xFF && TextOf(n[k + 1..], DeclarationChar)
    ensures Declares(TagName(n[k..] + ([GT] + s), n[..k]), n, s)
  {
    hide TextOf, TagName, Declaration, Special;
    NoSpecialPrefix(n, k);
    var t := n[k + 1..];
    RefusedByte(t, s, n[..k]);
    assert n[k..] == [0xFF] + t;
    assert n[..k] + [0xFF] + t == n;
  }

  lemma DeclarationAtBlank(n: Str, k: nat, s: Str)
    requires 1 <= k < |n| && n[0] == EXCL && !(COMMENT <= n) && !(CDATA <= n)
    requires var u := n[k..]; Getc(u).Char? && !(Encode(BOM) <= u) && TextOf(u, DeclarationChar)
    requires IsSpace(Getc(n[k..]).ch) || Getc(n[k..]).ch == SLASH
    ensures Declares(TagName(n[k..] + ([GT] + s), n[..k]), n, s)
  {
    hide Encode, Getc, Next, TextOf, TagName, Declaration, Special;
    NoSpecialPrefix(n, k);
    DeclarationPart(n, k);
    var u := n[k..];
    var c := Getc(u).ch;
    var m := k + |Encode(c)|;
    NextInText(u, [GT] + s);
    TagNameStops(u + ([GT] + s), c, n[m..] + ([GT] + s), n[..k]);
    DeclarationTail(u);
    DeclarationStep(c, n[m..], s, n[..k], Encode(c));
    assert n[..m] + n[m..] == n;
  }

  // How the text of a declaration begins.
  lemma DeclarationCases(t: Str)
    requires IsDeclarationText(t) && t != []
    ensures t[0] == 0xFF ==> TextOf(t[1..], DeclarationChar)
    ensures t[0] != 0xFF ==>
              && Getc(t).Char? && !(Encode(BOM) <= t)
              && var c := Getc(t).ch;
                 if IsSpace(c) || c == SLASH then TextOf(t, DeclarationChar) else TagChar(c) && IsDeclarationText(Getc(t).rest)
  {
    hide Getc, Encode, TextOf;
    if t[0] == 0xFF {
      NeverFirst(t);
    }
  }

  lemma DeclarationPart(n: Str, k: nat)
    requires k < |n| && Getc(n[k..]).Char? && !(Encode(BOM) <= n[k..])
    ensures var c := Getc(n[k..]).ch;
            var m := k + |Encode(c)|;
            Legal(c) && m <= |n| && Getc(n[k..]).rest == n[m..] && n[..k] + Encode(c) == n[..m]
  {
    hide Encode, Getc;
    var u := n[k..];
    TextSplits(u);
    var c := Getc(u).ch;
    var m := k + |Encode(c)|;
    assert Getc(u).rest == u[|Encode(c)|..] == n[m..];
    assert n[k..m] == u[..|Encode(c)|] == Encode(c);
  }

  // A byte 0xFF behind the name of a declaration.
  lemma RefusedByte(t: Str, s: Str, buf: Str)
    requires TextOf(t, DeclarationChar)
    ensures TagName([0xFF] + t + ([GT] + s), buf) == Scan(EOF, buf, t + ([GT] + s))
    ensures Declaration(EOF, t + ([GT] + s), buf) == Scan(GT, buf + [0xFF] + t, s)
  {
    hide Encode, Getc;
    var rest := t + ([GT] + s);
    assert [0xFF] + t + ([GT] + s) == [0xFF] + rest;
    if t == [] {
      assert rest == [GT] + s;
      NextAscii(GT, s);
      NextRefused(rest);
      assert buf + [0xFF] + t == buf + [255];
    } else {
      var c, r := Getc(t).ch, Getc(t).rest;
      TextSplits(t);
      NextInText(t, [GT] + s);
      FirstByte(c);
      assert rest[0] == Encode(c)[0];
      NextRefused(rest);
      DeclarationStep(c, r, s, buf + [255], Encode(c));
      assert buf + [255] + Encode(c) + r == buf + [0xFF] + t;
    }
  }

  lemma FirstByte(c: nat)
    ensures Legal(c) ==> Encode(c)[0] < 0xF8
  {
  }

  lemma NeverFirst(t: Str)
    requires t != [] && t[0] == 0xFF
    ensures !Getc(t).Char?
  {
  }

  lemma NextRefused(s: Str)
    requires At(s, 0) != 0xFE
    ensures Next([0xFF] + s) == Scan(EOF, [], s)
  {
  }

  lemma DeclarationTail(t: Str)
    requires t != [] && TextOf(t, DeclarationChar)
    ensures TextOf(Getc(t).rest, DeclarationChar) && DeclarationChar(Getc(t).ch)
  {
  }

  lemma DeclarationRead(n: Str, s: Str, st: State)
    requires IsDeclaration(n) && !SecondRoot(st)
    ensures Tag(st, n + ([GT] + s))
            == Step(if st.parent.Empty? then Descend(st, n, []) else AddNode(st, Element(n, []), Nil), s)
  {
    hide TagName, Declaration, IsDeclarationText, AddNode;
    assert n + ([GT] + s) == [EXCL] + (n[1..] + ([GT] + s));
    ExclamationRead(n[1..] + ([GT] + s));
    assert n[..1] == [EXCL];
    DeclarationCollected(n, 1, s);
    assert n[..|n|] == n;
  }

  lemma ExclamationRead(s: Str)
    ensures TagName([EXCL] + s, []) == TagName(s, [EXCL])
  {
    hide Next, Encode;
    NextAscii(EXCL, s);
    EncodesAs1(EXCL);
    assert [] + [EXCL] == [EXCL];
  }

  lemma PrologRead(n: Str, s: Str, st: State)
    requires IsProlog(n) && !SecondRoot(st)
    ensures Tag(st, n + ([GT] + s))
            == Step(if st.parent.Empty? then Descend(st, n, []) else AddNode(st, Element(n, []), Nil), s)
    ensures !(CDATA <= n) && !(COMMENT <= n) && WriteTagName(n) == n && Unclosed(n)
  {
    hide Tag, IsText, IsDeclarationText, EndsOnce;
    if IsDirective(n) {
      DirectiveRead(n, s, st);
    } else {
      DeclarationRead(n, s, st);
    }
  }

  /** A special element inside another element is read as a leaf. */
  lemma SpecialRead(v: Value, col: int, wrap: int, s: Str, st: State)
    requires v.Element? && IsSpecial(v.name) && v.attrs == [] && st.parent.Push?
    ensures OpenTag(v, false, col, wrap).text == [LT] + SpecialText(v.name) + [GT]
    ensures Tag(st, SpecialText(v.name) + [GT] + s) == Step(AddNode(st, v, Nil), s)
  {
    hide Tag, IsText, IsDeclarationText, EndsOnce, AddNode;
    var n := v.name;
    assert SpecialText(n) + [GT] + s == SpecialText(n) + ([GT] + s);
    if IsComment(n) {
      assert !(CDATA <= n) by { assert n[1] == COMMENT[1]; }
      CommentRead(n, s, st);
    } else if IsCdata(n) {
      CdataRead(n, s, st);
      assert !(COMMENT <= n) by { assert n[1] == CDATA[1]; }
      assert v == Element(n, []);
    } else {
      PrologRead(n, s, st);
      assert v == Element(n, []);
    }
  }

  // ---- The main loop ----

  /** Inside an element, with nothing collected. */
  predicate Inside(st: State) {
    st.parent.Push? && st.opaqueType && st.buf == []
  }

  lemma LoadTag(s: Str, st: State)
    ensures LoadLoop([LT] + s, st)
            == match Tag((if st.buf != [] then Flush(st) else st).(buf := []), s)
               case Step(st2, rest) => LoadLoop(rest, st2.(buf := []))
               case Ended(last) => Finish(last)
               case Failed(why) => Failure(why)
  {
    hide Next, Tag, Flush;
    NextAscii(LT, s);
  }

  lemma LoadChar(c: nat, s: Str, st: State)
    requires Legal(c) && st.opaqueType
    ensures LoadLoop(WriteString(Encode(c)) + s, st) == LoadLoop(s, st.(buf := st.buf + Encode(c)))
  {
    hide Next, Encode, EntityName, GetEntity, Tag, Flush, WriteString;
    DecodeWritten(c, s);
    EntityNameShape(c);
  }

  lemma {:induction false} LoadText(t: Str, s: Str, st: State)
    requires IsText(t) && st.opaqueType
    ensures LoadLoop(WriteString(t) + s, st) == LoadLoop(s, st.(buf := st.buf + t))
    decreases |t|
  {
    hide Encode, Getc, LoadLoop, WriteString;
    if t == [] {
      EmptyString();
      assert WriteString(t) + s == s;
      assert st.buf + t == st.buf;
    } else {
      var c, r := Getc(t).ch, Getc(t).rest;
      TextSplits(t);
      WriteSplits(t, s);
      LoadChar(c, WriteString(r) + s, st);
      LoadText(r, s, st.(buf := st.buf + Encode(c)));
      assert st.buf + t == (st.buf + Encode(c)) + r;
    }
  }

  /** At a `<`, the collected text has become a node. */
  lemma LoadFlushed(s: Str, st: State)
    requires At(s, 0) == LT && st.buf != []
    ensures LoadLoop(s, st) == LoadLoop(s, Flush(st))
  {
    hide LoadLoop, Tag;
    assert s == [LT] + s[1..];
    LoadTag(s[1..], st);
    LoadTag(s[1..], Flush(st));
  }

  /** The state after a whole forest has been read inside the current element. */
  function AddAll(st: State, d: Doc): State
    requires st.parent.Push?
  {
    st.(parent := Push(st.parent.name, st.parent.attrs, Append(st.parent.kids, d), st.parent.up))
  }

  lemma StartsWithTag(d: Doc, col: int, wrap: int, s: Str)
    requires Reloadable(d) && if d.Nil? then At(s, 0) == LT else d.v.Element?
    ensures At(Write(d, col, wrap).text + s, 0) == LT
  {
    hide WriteAttrs, WriteTagName, IsText, IsSpecial, IsElementName, AreAttrs, Close;
    if d.Cons? {
      assert OpenTag(d.v, d.kids.Cons?, col, wrap).text[0] == LT;
    }
  }

  /** Whether the last node of a forest is text. */
  predicate EndsInText(d: Doc) {
    match d
    case Nil => false
    case Cons(v, _, rest) => if rest.Nil? then v.Opaque? else EndsInText(rest)
  }

  /** A written forest is read back under the current element, whatever follows it; after a last
      text node another tag must follow. */
  lemma {:induction false} ForestRead(d: Doc, col: int, wrap: int, s: Str, st: State)
    requires Reloadable(d) && Inside(st) && (EndsInText(d) ==> At(s, 0) == LT)
    ensures LoadLoop(Write(d, col, wrap).text + s, st) == LoadLoop(s, AddAll(st, d))
    decreases d, 0
  {
    hide LoadLoop, WriteNode;
    match d {
      case Nil =>
        AppendNil(st.parent.kids);
        assert Write(d, col, wrap).text + s == s;
      case Cons(v, kids, rest) =>
        var node := WriteNode(v, kids, col, wrap);
        var after := Write(rest, node.col, wrap).text + s;
        assert Write(d, col, wrap).text + s == node.text + after;
        if v.Opaque? {
          StartsWithTag(rest, node.col, wrap, s);
        }
        NodeRead(v, kids, rest, col, wrap, after, st);
        AppendAssoc(st.parent.kids, Cons(v, kids, Nil), rest);
        ForestRead(rest, node.col, wrap, s, AddNode(st, v, kids));
    }
  }

  /** A written node is read back under the current element. */
  lemma {:induction false} NodeRead(v: Value, kids: Doc, rest: Doc, col: int, wrap: int, after: Str, st: State)
    requires Reloadable(Cons(v, kids, rest)) && Inside(st)
    requires v.Opaque? ==> At(after, 0) == LT
    ensures LoadLoop(WriteNode(v, kids, col, wrap).text + after, st) == LoadLoop(after, AddNode(st, v, kids))
    decreases kids, 3
  {
    hide LoadLoop, IsText, IsSpecial, IsElementName, AreAttrs;
    if v.Opaque? {
      LoadText(v.text, after, st);
      LoadFlushed(after, st.(buf := [] + v.text));
      assert [] + v.text == v.text;
    } else {
      ElementRead(v, kids, col, wrap, after, st);
    }
  }

  /** An element with all it contains is read back; a special element is a leaf. */
  lemma {:induction false} ElementRead(v: Value, kids: Doc, col: int, wrap: int, after: Str, st: State)
    requires v.Element? && Reloadable(Cons(v, kids, Nil)) && Inside(st)
    ensures LoadLoop(WriteNode(v, kids, col, wrap).text + after, st) == LoadLoop(after, AddNode(st, v, kids))
    decreases kids, 2
  {
    hide LoadLoop, IsText, IsSpecial, IsElementName, AreAttrs, Tag, OpenTag;
    var open := OpenTag(v, kids.Cons?, col, wrap);
    if IsSpecial(v.name) {
      SpecialRead(v, col, wrap, after, st);
      assert open.text + after == [LT] + (SpecialText(v.name) + [GT] + after);
      LoadTag(SpecialText(v.name) + [GT] + after, st);
    } else if kids.Nil? {
      OpenTagRead(v, false, col, wrap, after, st);
      assert open.text + after == [LT] + (open.text[1..] + after);
      LoadTag(open.text[1..] + after, st);
    } else {
      ParentRead(v, kids, col, wrap, after, st);
    }
  }

  lemma {:induction false} ParentRead(v: Value, kids: Doc, col: int, wrap: int, after: Str, st: State)
    requires v.Element? && IsElementName(v.name) && AreAttrs(v.attrs) && kids.Cons? && Reloadable(kids)
    requires st.buf == [] && !SecondRoot(st)
    ensures LoadLoop(WriteNode(v, kids, col, wrap).text + after, st)
            == LoadLoop(after, AddNode(st.(opaqueType := true), v, kids))
    decreases kids, 1
  {
    hide LoadLoop, IsText, IsElementName, AreAttrs, Tag, OpenTag, Write, WriteString, AddNode;
    var open := OpenTag(v, true, col, wrap);
    var inside := Write(kids, open.col, wrap);
    var close := [LT] + ([SLASH] + WriteString(v.name) + [GT]);
    var y := inside.text + (close + after);
    var down := Descend(st, v.name, v.attrs);
    assert Close(v, inside.col).text == close by { HasEndTag(v.name); }
    OpenTagRead(v, true, col, wrap, y, st);
    assert WriteNode(v, kids, col, wrap).text + after == [LT] + (open.text[1..] + y);
    LoadTag(open.text[1..] + y, st);
    ForestRead(kids, open.col, wrap, close + after, down);
    assert AddAll(down, kids).parent.kids == kids;
    assert close + after == [LT] + ([SLASH] + WriteString(v.name) + [GT] + after);
    LoadTag([SLASH] + WriteString(v.name) + [GT] + after, AddAll(down, kids));
    CloseTagRead(v.name, after, AddAll(down, kids));
    AddNodeKeeps(st.(opaqueType := true), v, kids);
  }

  lemma HasEndTag(n: Str)
    requires IsElementName(n)
    ensures !Unclosed(n)
  {
  }

  lemma AddNodeKeeps(st: State, v: Value, kids: Doc)
    ensures AddNode(st, v, kids).buf == st.buf && AddNode(st, v, kids).opaqueType == st.opaqueType
  {
  }

  // ---- Whole documents ----

  /** The root is an ordinary element, a lone special one, or a processing instruction or declaration
      (such as `?xml ...?`) with the rest of the document under it. */
  predicate ReloadableRoot(v: Value, kids: Doc) {
    && v.Element?
    && (if IsSpecial(v.name) then v.attrs == [] && Reloadable(kids) && (kids.Cons? ==> IsProlog(v.name))
        else Reloadable(Cons(v, kids, Nil)))
  }

  predicate IsEnd(s: Str) {
    s == [] || s == [NL]
  }

  /** A newline after the document changes nothing. */
  lemma LoadEnd(s: Str, st: State)
    requires IsEnd(s)
    ensures LoadLoop(s, st) == Finish(st)
  {
    hide Encode;
    if s == [NL] {
      assert [NL] == [NL] + [];
      NextAscii(NL, []);
      assert Next([]) == Scan(EOF, [], []);
    }
  }

  lemma LoneRoot(v: Value, kids: Doc, col: int, wrap: int, end: Str)
    requires ReloadableRoot(v, kids) && kids.Nil? && IsEnd(end)
    ensures LoadLoop(WriteNode(v, kids, col, wrap).text + end, START) == Tree(Cons(v, kids, Nil))
  {
    hide LoadLoop, Tag, OpenTag, IsText, IsDeclarationText, EndsOnce, IsElementName, AreAttrs;
    var open := OpenTag(v, false, col, wrap);
    if IsSpecial(v.name) {
      LoneSpecial(v, col, wrap, end);
    } else {
      OpenTagRead(v, false, col, wrap, end, START);
      assert open.text + end == [LT] + (open.text[1..] + end);
      LoadTag(open.text[1..] + end, START);
      LoadEnd(end, AddNode(START, v, Nil));
    }
  }

  lemma LoneSpecial(v: Value, col: int, wrap: int, end: Str)
    requires v.Element? && IsSpecial(v.name) && v.attrs == [] && IsEnd(end)
    ensures LoadLoop(WriteNode(v, Nil, col, wrap).text + end, START) == Tree(Cons(v, Nil, Nil))
  {
    hide LoadLoop, Tag, OpenTag, IsText, IsDeclarationText, EndsOnce;
    var n := v.name;
    SpecialRead(v, col, wrap, end, Descend(START, n, []));
    assert WriteNode(v, Nil, col, wrap).text + end == [LT] + (SpecialText(n) + ([GT] + end));
    LoadTag(SpecialText(n) + ([GT] + end), START);
    if IsComment(n) {
      assert !(CDATA <= n) by { assert n[1] == COMMENT[1]; }
      CommentRead(n, end, START);
      LoadEnd(end, AddNode(START, v, Nil));
    } else if IsCdata(n) {
      CdataRead(n, end, START);
      LoadEnd(end, AddNode(START, v, Nil));
    } else {
      PrologRead(n, end, START);
      LoadEnd(end, Descend(START, n, []));
      assert v == Element(n, []);
    }
  }

  /** A processing instruction or declaration stays open: reading goes on below it. */
  lemma PrologRoot(v: Value, kids: Doc, wrap: int, end: Str)
    requires v.Element? && IsProlog(v.name) && v.attrs == [] && kids.Cons?
    ensures var open := OpenTag(v, true, 0, wrap);
            LoadLoop(WriteNode(v, kids, 0, wrap).text + end, START)
            == LoadLoop(Write(kids, open.col, wrap).text + end, Descend(START, v.name, []))
  {
    hide LoadLoop, Tag, IsProlog, Write;
    var open := OpenTag(v, true, 0, wrap);
    var inside := Write(kids, open.col, wrap);
    PrologRead(v.name, inside.text + end, START);
    assert open.text == [LT] + v.name + [GT];
    assert WriteNode(v, kids, 0, wrap).text + end == [LT] + (v.name + ([GT] + (inside.text + end)));
    LoadTag(v.name + ([GT] + (inside.text + end)), START);
  }

  /** The root with its children, up to the end of the document. */
  lemma RootRead(v: Value, kids: Doc, wrap: int, end: Str)
    requires ReloadableRoot(v, kids) && !(IsSpecial(v.name) && EndsInText(kids)) && IsEnd(end)
    ensures LoadLoop(WriteNode(v, kids, 0, wrap).text + end, START) == Tree(Cons(v, kids, Nil))
  {
    hide LoadLoop, WriteNode, IsText, IsDeclarationText, EndsOnce, IsElementName, AreAttrs, Write;
    if kids.Nil? {
      LoneRoot(v, kids, 0, wrap, end);
    } else if IsSpecial(v.name) {
      var open := OpenTag(v, true, 0, wrap);
      var down := Descend(START, v.name, []);
      PrologRoot(v, kids, wrap, end);
      ForestRead(kids, open.col, wrap, end, down);
      assert AddAll(down, kids).parent == Push(v.name, [], kids, Empty);
      LoadEnd(end, AddAll(down, kids));
    } else {
      ParentRead(v, kids, 0, wrap, end, START);
      LoadEnd(end, AddNode(START.(opaqueType := true), v, kids));
    }
  }

  /** What was saved loads as the same tree, at every wrap margin. */
  lemma LoadSaved(v: Value, kids: Doc, wrap: int)
    requires ReloadableRoot(v, kids) && !(IsSpecial(v.name) && EndsInText(kids))
    ensures Load(Save(v, kids, wrap)) == Tree(Cons(v, kids, Nil))
  {
    hide LoadLoop, WriteNode;
    var out := WriteNode(v, kids, 0, wrap);
    RootRead(v, kids, wrap, if out.col > 0 then [NL] else []);
  }

  // ---- Where the format loses something ----

  /** A forest without its last node. */
  function AllButLast(d: Doc): Doc
    requires d.Cons?
  {
    if d.rest.Nil? then Nil else Cons(d.v, d.kids, AllButLast(d.rest))
  }

  function LastValue(d: Doc): Value
    requires d.Cons?
  {
    if d.rest.Nil? then d.v else LastValue(d.rest)
  }

  lemma {:induction false} SplitLast(d: Doc, col: int, wrap: int)
    requires Reloadable(d) && EndsInText(d)
    ensures LastValue(d).Opaque? && IsText(LastValue(d).text)
    ensures Reloadable(AllButLast(d)) && !EndsInText(AllButLast(d)) && AllButLast(d) != d
    ensures AllButLast(d).Cons? ==> AllButLast(d).v == d.v
    ensures Write(d, col, wrap).text == Write(AllButLast(d), col, wrap).text + WriteString(LastValue(d).text)
  {
    hide IsText, IsSpecial, IsElementName, AreAttrs, WriteString, OpenTag, Close;
    if d.rest.Nil? {
      assert Write(d, col, wrap).text == [] + WriteString(d.v.text);
    } else {
      var node := WriteNode(d.v, d.kids, col, wrap);
      SplitLast(d.rest, node.col, wrap);
      assert AllButLast(d).rest == AllButLast(d.rest);
    }
  }

  /** Below a processing instruction or declaration, text at the very end is never turned into a node.
      The tree comes back exactly when there is none. */
  lemma PrologSurvivesIff(v: Value, kids: Doc, wrap: int)
    requires ReloadableRoot(v, kids) && IsProlog(v.name)
    ensures Load(Save(v, kids, wrap)) == Tree(Cons(v, kids, Nil)) <==> !EndsInText(kids)
  {
    hide LoadLoop, WriteNode, IsText, IsDeclarationText, EndsOnce, IsElementName, AreAttrs, Write, WriteString;
    var out := WriteNode(v, kids, 0, wrap);
    var end := if out.col > 0 then [NL] else [];
    if EndsInText(kids) {
      var open := OpenTag(v, true, 0, wrap);
      var down := Descend(START, v.name, []);
      var most, t := AllButLast(kids), LastValue(kids);
      PrologRoot(v, kids, wrap, end);
      SplitLast(kids, open.col, wrap);
      assert Write(kids, open.col, wrap).text + end
          == Write(most, open.col, wrap).text + (WriteString(t.text) + end);
      ForestRead(most, open.col, wrap, WriteString(t.text) + end, down);
      var st := AddAll(down, most);
      LoadText(t.text, end, st);
      LoadEnd(end, st.(buf := st.buf + t.text));
    } else {
      LoadSaved(v, kids, wrap);
    }
  }

  // ---- Which attributes survive ----

  /** A character an attribute name may start with, for the parser to take it up again. */
  predicate StartsName(c: int) {
    c < 0x80 && !IsSpace(c) && c !in {SLASH, QM, LT, GT, QUOT, APOS}
  }

  lemma NextLegal(c: nat, s: Str)
    requires Legal(c)
    ensures Next(Encode(c) + s) == Scan(c, [], s)
  {
    hide Encode, Getc;
    GetcLegal(c, s);
  }

  // A quoted name stops at its closing quote, or at the end.
  lemma {:induction false} QuotedStops(s: Str, quote: int, buf: Str)
    ensures var n := Quoted(s, quote, buf, true); n.Scan? ==> n.ch == EOF || n.ch == quote
    decreases |s|
  {
    hide Next, Decoded;
    var n := Next(s);
    if n.Scan? && n.ch != EOF && Decoded(n).Scan? {
      QuotedStops(Decoded(n).rest, quote, buf + Encode(Decoded(n).ch));
    }
  }

  /** The parser looks for `=` at the closing quote of a quoted name, so no such attribute is accepted. */
  lemma QuotedNameFails(quote: nat, s: Str, attrs: seq<Attr>)
    requires quote == QUOT || quote == APOS
    ensures ScanAttr(quote, s, attrs).AttrStop?
  {
    hide Quoted, HasAttr, CStr, Next, AttrValue, Decoded;
    QuotedStops(s, quote, [quote]);
  }

  // Attributes already parsed stay as they are.
  lemma {:induction false} ParseExtends(s: Str, attrs: seq<Attr>)
    ensures var r := ParseElement(s, attrs); r.TagScan? ==> attrs <= r.attrs
    decreases |s|
  {
    hide Next, ScanAttr;
    var n := Next(s);
    if n.Scan? && n.ch != EOF {
      if IsSpace(n.ch) {
        ParseExtends(n.rest, attrs);
      } else if n.ch !in {SLASH, QM, LT, GT} {
        var a := ScanAttr(n.ch, n.rest, attrs);
        if a.AttrScan? && a.ch !in {SLASH, QM, GT} {
          ParseExtends(a.rest, attrs + [a.attr]);
        }
      }
    }
  }

  // If the parser yields `done` and one attribute, that is the one it scans first.
  lemma FirstScanned(c: nat, s: Str, done: seq<Attr>, a: Attr, end: Str)
    requires Legal(c) && !IsSpace(c) && c !in {SLASH, QM, LT, GT}
    requires ParseElement(Encode(c) + s, done) == TagScan(GT, done + [a], end)
    ensures var r := ScanAttr(c, s, done); r.AttrScan? && r.attr == a
  {
    hide Next, ScanAttr, Encode;
    NextLegal(c, s);
    var r := ScanAttr(c, s, done);
    if r.AttrScan? {
      if r.ch !in {SLASH, QM, GT} {
        ParseExtends(r.rest, done + [r.attr]);
      }
      assert (done + [r.attr])[|done|] == r.attr && (done + [a])[|done|] == a;
    }
  }

  lemma {:induction false} CStrLength(s: Str)
    ensures |CStr(s)| <= |s|
  {
    if s != [] && s[0] != 0 {
      CStrLength(s[1..]);
    }
  }

  // A plain name is stored with one byte for its first character, and needs a value.
  lemma ScannedName(c: nat, r: Str, e: byte, s: Str, done: seq<Attr>)
    requires c != QUOT && c != APOS && TextOf(r, AttrNameChar) && (e == EQ || e == GT)
    ensures var a := ScanAttr(c, r + ([e] + s), done);
            a.AttrScan? ==> e == EQ && |a.attr.name| <= 1 + |r|
  {
    hide Bare, HasAttr, CStr, TextOf, AttrValue, Next;
    BareRead(r, e, s, [c % 256]);
    CStrLength([c % 256] + r);
  }

  // What follows the first character of a written plain attribute.
  function Behind(a: Attr, s: Str): Str {
    (if a.value.Some? then [QUOT] + WriteString(a.value.value) + [QUOT] else []) + (if a.value.Some? then [GT] + s else s)
  }

  lemma WrittenPlain(a: Attr, c: nat, r: Str, s: Str)
    requires c > 0 && c != QUOT && c != APOS && a.name == Encode(c) + r
    ensures WriteAttr(a) + ([GT] + s) == Encode(c) + (r + ([if a.value.Some? then EQ else GT] + Behind(a, s)))
  {
    hide WriteString, Encode;
    PlainStart(c);
    assert a.name[0] == Encode(c)[0];
    assert WriteName(a.name) == a.name;
    if a.value.Some? {
      var v := [QUOT] + WriteString(a.value.value) + [QUOT];
      assert [EQ, QUOT] + WriteString(a.value.value) + [QUOT] == [EQ] + v;
      assert (a.name + ([EQ] + v)) + ([GT] + s) == Encode(c) + (r + ([EQ] + (v + ([GT] + s))));
    } else {
      assert Behind(a, s) == s;
    }
  }

  lemma PlainStart(c: nat)
    requires c > 0 && c != QUOT && c != APOS
    ensures Encode(c)[0] != QUOT && Encode(c)[0] != APOS
  {
  }

  lemma WrittenQuoted(a: Attr, c: nat, r: Str, s: Str)
    requires (c == QUOT || c == APOS) && a.name == Encode(c) + r
    ensures exists t :: WriteAttr(a) + ([GT] + s) == Encode(c) + t
  {
    hide WriteString, UpTo;
    var text := WriteAttr(a) + ([GT] + s);
    assert text[0] == c && text == Encode(c) + text[1..];
  }

  // An attribute with such a name is not read back.
  lemma AttrLost(a: Attr, c: nat, r: Str, done: seq<Attr>, s: Str)
    requires Legal(c) && TextOf(r, AttrNameChar) && a.name == Encode(c) + r
    requires !(StartsName(c) && a.value.Some?)
    ensures ParseElement(WriteAttr(a) + ([GT] + s), done) != TagScan(GT, done + [a], s)
  {
    hide Next, ParseElement, ScanAttr, WriteAttr, TextOf, Encode;
    var text := WriteAttr(a) + ([GT] + s);
    if ParseElement(text, done) == TagScan(GT, done + [a], s) {
      if c == QUOT || c == APOS {
        WrittenQuoted(a, c, r, s);
        var t :| text == Encode(c) + t;
        FirstScanned(c, t, done, a, s);
        QuotedNameFails(c, t, done);
      } else {
        WrittenPlain(a, c, r, s);
        var e := if a.value.Some? then EQ else GT;
        AttrLostPlain(a, c, r, e, Behind(a, s), done, s);
      }
    }
  }

  lemma EncodeLength(c: nat)
    ensures |Encode(c)| == 1 <==> c < 0x80
  {
  }

  lemma AttrLostPlain(a: Attr, c: nat, r: Str, e: byte, tail: Str, done: seq<Attr>, s: Str)
    requires Legal(c) && c != QUOT && c != APOS && TextOf(r, AttrNameChar) && a.name == Encode(c) + r
    requires (e == EQ || e == GT) && !(StartsName(c) && e == EQ)
    ensures ParseElement(Encode(c) + (r + ([e] + tail)), done) != TagScan(GT, done + [a], s)
  {
    hide Next, ScanAttr, TextOf, Encode;
    var rest := r + ([e] + tail);
    NextLegal(c, rest);
    EncodeLength(c);
    if ParseElement(Encode(c) + rest, done) == TagScan(GT, done + [a], s) {
      if IsSpace(c) {
        EncodesAs1(c);
        BlankNameLost(a, r, e, tail, done, s);
      } else if c !in {SLASH, QM, LT, GT} {
        FirstScanned(c, rest, done, a, s);
        ScannedName(c, r, e, tail, done);
      }
    }
  }

  // After a blank the parser takes the rest of the name for the name, or its end for the end.
  lemma BlankNameLost(a: Attr, r: Str, e: byte, tail: Str, done: seq<Attr>, s: Str)
    requires TextOf(r, AttrNameChar) && (e == EQ || e == GT) && |a.name| == 1 + |r| && IsSpace(a.name[0])
    ensures ParseElement(r + ([e] + tail), done) != TagScan(GT, done + [a], s)
  {
    hide ParseElement, Getc;
    if r == [] {
      assert r + ([e] + tail) == [e] + tail;
      BlankNameEnds(a, e, tail, done, s);
    } else {
      BlankNameShorter(a, r, e, tail, done, s);
    }
  }

  lemma BlankNameEnds(a: Attr, e: byte, tail: Str, done: seq<Attr>, s: Str)
    requires (e == EQ || e == GT) && a.name != [] && IsSpace(a.name[0])
    ensures ParseElement([e] + tail, done) != TagScan(GT, done + [a], s)
  {
    hide Next, ScanAttr, Encode;
    NextAscii(e, tail);
    if e == GT {
      assert ParseElement([e] + tail, done) == TagScan(GT, done, tail);
      assert |done| != |done + [a]|;
    } else if ParseElement([e] + tail, done) == TagScan(GT, done + [a], s) {
      EncodesAs1(EQ);
      FirstScanned(EQ, tail, done, a, s);
      NameStarts(EQ, tail, done);
    }
  }

  lemma BlankNameShorter(a: Attr, r: Str, e: byte, tail: Str, done: seq<Attr>, s: Str)
    requires TextOf(r, AttrNameChar) && r != [] && (e == EQ || e == GT) && |a.name| == 1 + |r|
    ensures ParseElement(r + ([e] + tail), done) != TagScan(GT, done + [a], s)
  {
    hide Next, ScanAttr, Encode, Getc, ParseElement;
    if ParseElement(r + ([e] + tail), done) == TagScan(GT, done + [a], s) {
      var c, t := Getc(r).ch, Getc(r).rest;
      var rest := t + ([e] + tail);
      TextSplits(r);
      assert r + ([e] + tail) == Encode(c) + rest;
      NextInText(r, [e] + tail);
      if c == LT {
        TagStopsAtLt(r + ([e] + tail), done);
      } else {
        FirstScanned(c, rest, done, a, s);
        if c == QUOT || c == APOS {
          QuotedNameFails(c, rest, done);
        } else {
          ScannedName(c, t, e, tail, done);
        }
      }
    }
  }

  lemma TagStopsAtLt(s: Str, done: seq<Attr>)
    requires Next(s).Scan? && Next(s).ch == LT
    ensures ParseElement(s, done).TagStop?
  {
    hide Next, ScanAttr;
  }

  lemma {:induction false} BareExtends(s: Str, buf: Str, ends: int -> bool)
    ensures var n := Bare(s, buf, ends); n.Scan? ==> buf <= n.buf
    decreases |s|
  {
    hide Next, Decoded;
    var n := Next(s);
    if n.Scan? && n.ch != EOF && !ends(n.ch) && Decoded(n).Scan? {
      BareExtends(Decoded(n).rest, buf + Encode(Decoded(n).ch), ends);
    }
  }

  // A plain name starts with the byte of its first character.
  lemma NameStarts(c: byte, s: Str, done: seq<Attr>)
    requires c > 0 && c != QUOT && c != APOS
    ensures var a := ScanAttr(c, s, done); a.AttrScan? ==> a.attr.name != [] && a.attr.name[0] == c
  {
    hide Bare, HasAttr, AttrValue, Next;
    BareExtends(s, [c], EndsName);
  }

  /** An attribute is read back by the parser exactly when its name starts with an ASCII character that is
      no blank, quote, slash, question mark or angle bracket, and it has a value. */
  lemma AttrSurvivesIff(a: Attr, c: nat, r: Str, done: seq<Attr>, s: Str)
    requires Legal(c) && TextOf(r, AttrNameChar) && a.name == Encode(c) + r
    requires !HasAttr(done, a.name) && (a.value.Some? ==> IsText(a.value.value))
    ensures ParseElement([SP] + WriteAttr(a) + [GT] + s, done) == TagScan(GT, done + [a], s)
            <==> StartsName(c) && a.value.Some?
  {
    hide Next, ParseElement, WriteAttr, HasAttr, TextOf, IsText, Encode;
    assert [SP] + WriteAttr(a) + [GT] + s == [SP] + (WriteAttr(a) + ([GT] + s));
    if StartsName(c) && a.value.Some? {
      EncodesAs1(c);
      assert a.name[1..] == r;
      AttrParsed(a, SP, [GT] + s, done);
      TagEndRead(true, done + [a], s);
    } else {
      SeparatorSkippedIn(WriteAttr(a) + ([GT] + s), done);
      AttrLost(a, c, r, done, s);
    }
  }

  lemma SeparatorSkippedIn(s: Str, done: seq<Attr>)
    ensures ParseElement([SP] + s, done) == ParseElement(s, done)
  {
    hide Next;
    NextAscii(SP, s);
  }

  // ---- What is lost, by example ----

  /** Text after the last element below a processing instruction: `t` below `?x?` is saved and not loaded. */
  lemma PrologLosesText(wrap: int) returns (v: Value, kids: Doc)
    ensures v == Element([QM, 120, QM], []) && kids == Cons(Opaque([116]), Nil, Nil)
    ensures ReloadableRoot(v, kids) && Load(Save(v, kids, wrap)) != Tree(Cons(v, kids, Nil))
  {
    hide Load, Save;
    v, kids := Element([QM, 120, QM], []), Cons(Opaque([116]), Nil, Nil);
    AsciiText(120, [QM]);
    AsciiText(QM, []);
    AsciiText(116, []);
    assert [QM, 120, QM][1..] == [120, QM];
    assert IsDirective(v.name);
    PrologSurvivesIff(v, kids, wrap);
  }

  lemma AsciiText(b: byte, t: Str)
    requires 0x20 <= b < 0x7F && IsText(t)
    ensures IsText([b] + t)
  {
    hide Encode;
    EncodesAs1(b);
    BomBytes();
    GetcLegal(b, t);
  }

  /** Attributes that are not read back: names that start with a slash, a quote and a letter beyond ASCII,
      and an attribute without a value. */
  lemma AttributesNotReadBack(s: Str)
    ensures forall a :: a in [Attr([SLASH, 120], Some([])), Attr([QUOT, 120], Some([])), Attr([0xC3, 0xA9, 120], Some([])),
                              Attr([120], None)]
              ==> ParseElement([SP] + WriteAttr(a) + [GT] + s, []) != TagScan(GT, [a], s)
  {
    hide ParseElement, WriteAttr;
    NotReadBack(Attr([SLASH, 120], Some([])), SLASH, [120], s);
    NotReadBack(Attr([QUOT, 120], Some([])), QUOT, [120], s);
    NotReadBack(Attr([0xC3, 0xA9, 120], Some([])), 0xE9, [120], s);
    NotReadBack(Attr([120], None), 120, [], s);
  }

  lemma NotReadBack(a: Attr, c: nat, r: Str, s: Str)
    requires c in {SLASH, QUOT, 0xE9, 120} && (r == [] || r == [120]) && a.name == Encode(c) + r
    requires a.value == None || (c != 120 && a.value == Some([]))
    ensures ParseElement([SP] + WriteAttr(a) + [GT] + s, []) != TagScan(GT, [a], s)
  {
    hide ParseElement, WriteAttr, Encode;
    EncodesAs1(120);
    BomBytes();
    GetcLegal(120, []);
    assert [] + [a] == [a];
    AttrSurvivesIff(a, c, r, [], s);
  }
}
