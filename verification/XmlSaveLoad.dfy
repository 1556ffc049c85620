/** From a tree of nodes to a string and back: mxmlSaveAllocString, then mxmlLoadString. */
module XmlSaveLoad {
  import opened Utf8
  import opened Entities
  import opened XmlTree
  import opened XmlWriter
  import opened XmlReader
  import opened XmlRoundTrip
  import opened XmlExact
  import opened NodeStore
  import XmlPrinter
  import XmlLoad

  /** C strings throughout. */
  predicate CleanAttr(a: Attr) {
    0 !in a.name && (a.value.Some? ==> 0 !in a.value.value)
  }

  predicate CleanAttrs(attrs: seq<Attr>) {
    forall i :: 0 <= i < |attrs| ==> CleanAttr(attrs[i])
  }

  predicate CleanValue(v: Value) {
    match v
    case Element(n, attrs) => 0 !in n && CleanAttrs(attrs)
    case Opaque(t) => 0 !in t
  }

  predicate Clean(d: Doc) {
    d.Nil? || (CleanValue(d.v) && Clean(d.kids) && Clean(d.rest))
  }

  // ---- what is written has no NUL ----

  lemma EscapeClean(b: byte)
    ensures b != 0 ==> 0 !in Escape(b)
  {
  }

  lemma {:induction false} StringClean(s: Str)
    requires 0 !in s
    ensures 0 !in WriteString(s)
  {
    hide Escape;
    if s != [] {
      EscapeClean(s[0]);
      StringClean(s[1..]);
    }
  }

  lemma {:induction false} UpToClean(s: Str, quote: byte)
    requires 0 !in s
    ensures 0 !in UpTo(s, quote)
  {
    if s != [] && s[0] != quote {
      UpToClean(s[1..], quote);
    }
  }

  lemma NameClean(n: Str)
    requires 0 !in n
    ensures 0 !in WriteName(n) && 0 !in WriteTagName(n)
  {
    hide WriteString, UpTo;
    if n != [] {
      UpToClean(n[1..], n[0]);
      StringClean(UpTo(n[1..], n[0]));
    }
  }

  lemma AttrClean(a: Attr)
    requires CleanAttr(a)
    ensures 0 !in WriteAttr(a)
  {
    hide WriteString, WriteName;
    NameClean(a.name);
    if a.value.Some? {
      StringClean(a.value.value);
    }
  }

  lemma {:induction false} AttrsClean(attrs: seq<Attr>, col: int, wrap: int)
    requires CleanAttrs(attrs)
    ensures 0 !in WriteAttrs(attrs, col, wrap).text
  {
    hide WriteAttr, Wraps, AttrWidth, CleanAttr;
    if attrs != [] {
      AttrClean(attrs[0]);
      AttrsClean(attrs[1..], (if Wraps(attrs[0], col, wrap) then 0 else col + 1) + AttrWidth(attrs[0]), wrap);
    }
  }

  lemma OpenClean(v: Value, parent: bool, col: int, wrap: int)
    requires CleanValue(v)
    ensures 0 !in XmlWriter.Open(v, parent, col, wrap).text
    ensures 0 !in XmlWriter.Close(v, col).text
  {
    hide WriteString, WriteAttrs, WriteTagName, CleanAttrs, Unclosed;
    match v
    case Element(n, attrs) =>
      NameClean(n);
      StringClean(n);
      AttrsClean(attrs, col + |n| + 1, wrap);
    case Opaque(t) =>
      StringClean(t);
  }

  lemma {:induction false} WriteClean(d: Doc, col: int, wrap: int)
    requires Clean(d)
    ensures 0 !in Write(d, col, wrap).text
    decreases d, 0
  {
    hide XmlWriter.Open, XmlWriter.Close, CleanValue;
    if d.Cons? {
      NodeClean(d.v, d.kids, col, wrap);
      WriteClean(d.rest, WriteNode(d.v, d.kids, col, wrap).col, wrap);
    }
  }

  lemma {:induction false} NodeClean(v: Value, kids: Doc, col: int, wrap: int)
    requires CleanValue(v) && Clean(kids)
    ensures 0 !in WriteNode(v, kids, col, wrap).text
    decreases kids, 1
  {
    hide XmlWriter.Open, XmlWriter.Close, CleanValue;
    var open := XmlWriter.Open(v, kids.Cons?, col, wrap);
    OpenClean(v, kids.Cons?, col, wrap);
    if kids.Cons? {
      WriteClean(kids, open.col, wrap);
      OpenClean(v, true, Write(kids, open.col, wrap).col, wrap);
    }
  }

  // ---- what can be reloaded is made of C strings ----

  lemma {:induction false} DeclarationClean(t: Str)
    requires IsDeclarationText(t)
    ensures 0 !in t
    decreases |t|
  {
    hide Getc, Encode;
    if t != [] {
      if t[0] == 0xFF {
        NeverFirst(t);
        TextOfIsText(t[1..], DeclarationChar);
        TextHasNoNul(t[1..]);
      } else if IsSpace(Getc(t).ch) || Getc(t).ch == SLASH {
        TextOfIsText(t, DeclarationChar);
        TextHasNoNul(t);
      } else {
        TextSplits(t);
        DeclarationClean(Getc(t).rest);
      }
    }
  }

  lemma SpecialClean(n: Str)
    requires IsSpecial(n)
    ensures 0 !in n
  {
    hide IsText, IsDeclarationText, EndsOnce;
    if IsComment(n) {
      TextHasNoNul(n[3..]);
      assert n == n[..3] + n[3..] && n[..3] == COMMENT;
    } else if IsCdata(n) {
      TextHasNoNul(n[8..]);
      assert n == n[..8] + n[8..] && n[..8] == CDATA;
    } else if IsDirective(n) {
      TextHasNoNul(n[1..]);
      assert n == n[..1] + n[1..] && n[..1] == [QM];
    } else {
      DeclarationClean(n[1..]);
      assert n == n[..1] + n[1..] && n[..1] == [EXCL];
    }
  }

  lemma AttrsAreClean(attrs: seq<Attr>)
    requires AreAttrs(attrs)
    ensures CleanAttrs(attrs)
  {
    hide IsText, TextOf;
    forall i | 0 <= i < |attrs|
      ensures CleanAttr(attrs[i])
    {
      var a := attrs[i];
      TextOfIsText(a.name[1..], AttrNameChar);
      TextHasNoNul(a.name[1..]);
      TextHasNoNul(a.value.value);
      assert a.name == [a.name[0]] + a.name[1..];
    }
  }

  lemma ElementClean(n: Str, attrs: seq<Attr>)
    requires if IsSpecial(n) then attrs == [] else IsElementName(n) && AreAttrs(attrs)
    ensures CleanValue(Element(n, attrs))
  {
    hide IsSpecial, TextOf, AreAttrs;
    if IsSpecial(n) {
      SpecialClean(n);
    } else {
      TextOfIsText(n, TagChar);
      TextHasNoNul(n);
      AttrsAreClean(attrs);
    }
  }

  lemma {:induction false} ReloadableClean(d: Doc)
    requires Reloadable(d)
    ensures Clean(d)
  {
    hide IsSpecial, IsText, IsElementName, AreAttrs, CleanValue;
    match d
    case Nil =>
    case Cons(Opaque(t), kids, rest) =>
      OpaqueClean(t);
      ReloadableClean(rest);
    case Cons(Element(n, attrs), kids, rest) =>
      ElementClean(n, attrs);
      if !IsSpecial(n) {
        ReloadableClean(kids);
      }
      ReloadableClean(rest);
  }

  lemma OpaqueClean(t: Str)
    requires IsText(t)
    ensures CleanValue(Opaque(t))
  {
    TextHasNoNul(t);
  }

  /** What can be reloaded is made of C strings. */
  lemma RootClean(v: Value, kids: Doc)
    requires ReloadableRoot(v, kids)
    ensures CleanValue(v) && Clean(kids)
  {
    hide IsSpecial, IsElementName, AreAttrs, CleanValue, IsProlog;
    ElementClean(v.name, v.attrs);
    if IsSpecial(v.name) {
      ReloadableClean(kids);
    } else {
      ReloadableClean(Cons(v, kids, Nil));
    }
  }

  // ---- the trip ----

  /** The text of a tree of C strings is a C string: nothing of it is lost at a NUL. */
  lemma SavedIsCString(v: Value, kids: Doc, wrap: int)
    requires (CleanValue(v) && Clean(kids)) || ReloadableRoot(v, kids)
    ensures var text := Save(v, kids, wrap); CStr(text) == text
  {
    hide WriteNode, ReloadableRoot, CleanValue, Clean;
    if ReloadableRoot(v, kids) {
      RootClean(v, kids);
    }
    NodeClean(v, kids, 0, wrap);
    CStrOfText(Save(v, kids, wrap));
  }

  /** Printing a tree of nodes to a string of whatever length and parsing that string yields the values of
      that very tree, at every wrap margin, if and only if the tree is one that survives. */
  method SaveThenLoad(h: Heap, node: Ptr, wrap: int, ghost f: Forest) returns (outcome: Outcome)
    requires XmlPrinter.IsTree(h, node, f)
    requires var v, kids := h[node].v, DocOf(h, f.kids);
             (CleanValue(v) && Clean(kids)) || ReloadableRoot(v, kids)
    ensures outcome == Outcome.Tree(DocOf(h, f)) <==> Survives(h[node].v, DocOf(h, f.kids))
  {
    hide ReloadableRoot, Save, Load, IsSpecial, Survives;
    ghost var v, kids := h[node].v, DocOf(h, f.kids);
    SavedIsCString(v, kids, wrap);
    SavedBackIff(v, kids, wrap);
    NothingLoads();
    var s := XmlPrinter.SaveAllocString(h, node, wrap, f);
    if s.None? {
      outcome := Null;
    } else {
      outcome := XmlLoad.LoadString(s.value);
    }
    assert DocOf(h, f) == Cons(v, kids, Nil);
  }

  lemma NothingLoads()
    ensures Load([]) == Null
  {
  }
}
