/** Exactly which trees come back when they are saved and loaded. */
module XmlExact {
  import opened Utf8
  import opened Entities
  import opened XmlTree
  import opened XmlWriter
  import opened XmlReader
  import opened XmlRoundTrip
  import opened XmlBounds
  import opened XmlGrowth

  // ---- Attributes ----

  /** The name of an attribute that is read back. */
  predicate PlainName(n: Str) {
    && n != []
    && n[0] < 0x80 && Legal(n[0]) && !IsSpace(n[0])
    && n[0] !in {SLASH, QM, LT, GT, QUOT, APOS}
    && TextOf(n[1..], AttrNameChar)
  }

  // The first attribute the parser takes from the text at hand.
  lemma FirstTaken(c: nat, s: Str, rest: Str, done: seq<Attr>, a: Attr)
    requires Next(s) == Scan(c, [], rest) && !IsSpace(c)
    requires var r := ParseElement(s, done); r.TagScan? && done + [a] <= r.attrs
    ensures c !in {SLASH, QM, LT, GT}
    ensures var r := ScanAttr(c, rest, done); r.AttrScan? && r.attr == a
  {
    hide Next, ScanAttr, ExpectGt;
    var r := ParseElement(s, done);
    if c in {SLASH, QM, LT, GT} {
      assert false;
    }
    var x := ScanAttr(c, rest, done);
    if x.ch !in {SLASH, QM, GT} {
      ParseExtends(x.rest, done + [x.attr]);
    }
    assert done + [x.attr] <= r.attrs;
    assert x.attr == r.attrs[|done|] == (done + [a])[|done|];
  }

  /** The name read from printed text is shorter than what was printed, or starts behind it, unless that is
      the name of an attribute that is read back. */
  lemma {:induction false} NameTaken(w: Str, tail: Str, done: seq<Attr>, a: Attr)
    requires tail != [] && tail[0] == EQ
    requires var r := ParseElement(w + tail, done); r.TagScan? && done + [a] <= r.attrs
    ensures || |a.name| < |w|
            || (PlainName(w) && |a.name| <= |w|)
            || (a.name != [] && a.name[0] == EQ && (w == [] || IsSpace(w[0]) || w[0] == 0xEF))
    decreases |w|
  {
    hide Getc, Encode, Next, ScanAttr, ParseElement, TextOf;
    if w == [] {
      assert w + tail == [EQ] + tail[1..];
      NextAscii(EQ, tail[1..]);
      FirstTaken(EQ, w + tail, tail[1..], done, a);
      NameStarts(EQ, tail[1..], done);
    } else {
      NextHead(w, tail);
      if Encode(BOM) <= w {
        BomIff(w);
        ParseSame(w + tail, w[3..] + tail, done);
        NameTaken(w[3..], tail, done, a);
      } else if Getc(w).Char? {
        var c, r := Getc(w).ch, Getc(w).rest;
        EncodeFirst(c);
        if IsSpace(c) {
          ParseBlank(w + tail, c, r + tail, done);
          assert w[0] == c;
          NameTaken(r, tail, done, a);
        } else {
          FirstTaken(c, w + tail, r + tail, done, a);
          NameScanned(c, w, r, tail, done, a);
        }
      } else {
        ParseRefused(w + tail, done);
      }
    }
  }

  lemma ParseSame(s: Str, t: Str, done: seq<Attr>)
    requires Next(s) == Next(t)
    ensures ParseElement(s, done) == ParseElement(t, done)
  {
    hide Next, ScanAttr;
  }

  lemma ParseBlank(s: Str, c: nat, rest: Str, done: seq<Attr>)
    requires Next(s) == Scan(c, [], rest) && IsSpace(c)
    ensures ParseElement(s, done) == ParseElement(rest, done)
  {
    hide Next, ScanAttr;
  }

  lemma ParseRefused(s: Str, done: seq<Attr>)
    requires Next(s).Stop? || Next(s).ch == EOF
    ensures ParseElement(s, done).TagStop?
  {
    hide Next, ScanAttr;
  }

  lemma NameScanned(c: nat, w: Str, r: Str, tail: Str, done: seq<Attr>, a: Attr)
    requires tail != [] && tail[0] == EQ && Legal(c) && !IsSpace(c) && c !in {SLASH, QM, LT, GT} && w == Encode(c) + r
    requires var x := ScanAttr(c, r + tail, done); x.AttrScan? && x.attr == a
    ensures |a.name| < |w| || (PlainName(w) && |a.name| <= |w|)
  {
    hide Getc, Encode, Next, TextOf, Bare, Quoted, HasAttr, CStr, AttrValue;
    if c == QUOT || c == APOS {
      QuotedNameFails(c, r + tail, done);
      assert false;
    }
    EncodeFirst(c);
    BareTaken(r, tail, [c % 256]);
    CStrLength(Bare(r + tail, [c % 256], EndsName).buf);
    if |a.name| >= |w| {
      assert |Encode(c)| == 1;
      EncodeLength(c);
      assert w[0] == c && w[1..] == r;
    }
  }

  /** An attribute that is read back as it was printed is one of those that survive. */
  lemma AttrBack(a: Attr, after: Str, done: seq<Attr>)
    requires a.value.Some? && Parsed(done + [a])
    requires var r := ParseElement(WriteAttr(a) + after, done); r.TagScan? && done + [a] <= r.attrs
    ensures IsAttr(a) && !HasAttr(done, a.name)
  {
    hide ParseElement, TextOf, IsText, WriteString, UpTo, PlainName;
    var v := a.value.value;
    if At(a.name, 0) == QUOT || At(a.name, 0) == APOS {
      QuotedLost(a, after, done);
      assert false;
    }
    var y := [QUOT] + (WriteString(v) + ([QUOT] + after));
    assert WriteAttr(a) + after == a.name + ([EQ] + y);
    NameTaken(a.name, [EQ] + y, done, a);
    NamePlain(a.name);
    ValueBack(a, after, done);
    FreshLast(done, a);
  }

  lemma FreshLast(done: seq<Attr>, a: Attr)
    requires Parsed(done + [a])
    ensures !HasAttr(done, a.name)
  {
    forall i | 0 <= i < |done| ensures done[i].name != a.name {
      assert (done + [a])[i] == done[i] && (done + [a])[|done|] == a;
    }
  }

  lemma NamePlain(n: Str)
    requires PlainName(n) || (n != [] && n[0] == EQ && (IsSpace(n[0]) || n[0] == 0xEF))
    ensures PlainName(n) && n != [] && At(n, 0) != QUOT && At(n, 0) != APOS
  {
  }

  lemma QuotedLost(a: Attr, after: Str, done: seq<Attr>)
    requires At(a.name, 0) == QUOT || At(a.name, 0) == APOS
    ensures ParseElement(WriteAttr(a) + after, done).TagStop?
  {
    hide Next, ScanAttr, WriteString, UpTo;
    var s := WriteAttr(a) + after;
    var q := a.name[0];
    assert s == [q] + s[1..];
    NextAscii(q, s[1..]);
    QuotedNameFails(q, s[1..], done);
  }

  lemma ValueBack(a: Attr, after: Str, done: seq<Attr>)
    requires a.value.Some? && PlainName(a.name)
    requires var s := a.name + ([EQ] + ([QUOT] + (WriteString(a.value.value) + ([QUOT] + after))));
             var r := ParseElement(s, done); r.TagScan? && done + [a] <= r.attrs
    ensures IsText(a.value.value)
  {
    hide ParseElement, TextOf, IsText, WriteString, Next, HasAttr, CStr, Quoted, Bare;
    var n, v := a.name, a.value.value;
    var z := WriteString(v) + ([QUOT] + after);
    var rest := n[1..] + ([EQ] + ([QUOT] + z));
    var s := n + ([EQ] + ([QUOT] + z));
    assert s == [n[0]] + rest;
    NextAscii(n[0], rest);
    FirstTaken(n[0], s, rest, done, a);
    BareRead(n[1..], EQ, [QUOT] + z, [n[0]]);
    NextAscii(QUOT, z);
    QuotedTaken(v, [QUOT] + after, []);
    CStrLength(Quoted(z, QUOT, [], false).buf);
  }

  /** A printed list of attributes that is read back is one of attributes that survive. */
  lemma {:induction false} AttrsBack(attrs: seq<Attr>, col: int, wrap: int, done: seq<Attr>, after: Str)
    requires AreAttrs(done) && Parsed(done + attrs)
    requires var r := ParseElement(WriteAttrs(attrs, col, wrap).text + after, done); r.TagScan? && done + attrs <= r.attrs
    ensures AreAttrs(done + attrs)
    decreases |attrs|
  {
    hide ParseElement, WriteAttr, Wraps, AttrWidth, IsAttr, HasAttr;
    if attrs == [] {
      assert done + attrs == done;
    } else {
      var a := attrs[0];
      var start := if Wraps(a, col, wrap) then Out([NL], 0) else Out([SP], col + 1);
      var more := WriteAttrs(attrs[1..], start.col + AttrWidth(a), wrap);
      var rest := more.text + after;
      assert WriteAttrs(attrs, col, wrap).text + after == start.text + (WriteAttr(a) + rest);
      assert done + attrs == (done + [a]) + attrs[1..];
      SeparatorParsed(start.text[0], WriteAttr(a) + rest, done);
      ParsedStart(done, attrs);
      AttrBack(a, rest, done);
      AttrParsed(a, start.text[0], rest, done);
      AttrsGrow(done, a);
      AttrsBack(attrs[1..], start.col + AttrWidth(a), wrap, done + [a], after);
    }
  }

  lemma SeparatorParsed(e: byte, s: Str, done: seq<Attr>)
    requires e == NL || e == SP
    ensures ParseElement([e] + s, done) == ParseElement(s, done)
  {
    hide Next, ScanAttr;
    NextAscii(e, s);
  }

  lemma ParsedStart(done: seq<Attr>, attrs: seq<Attr>)
    requires attrs != [] && Parsed(done + attrs)
    ensures attrs[0].value.Some? && Parsed(done + [attrs[0]])
  {
    var all, some := done + attrs, done + [attrs[0]];
    assert forall i :: 0 <= i < |some| ==> some[i] == all[i];
    assert all[|done|] == attrs[0];
  }

  lemma AttrsGrow(done: seq<Attr>, a: Attr)
    requires AreAttrs(done) && IsAttr(a) && !HasAttr(done, a.name)
    ensures AreAttrs(done + [a])
  {
    hide IsAttr;
  }

  // ---- Special elements ----

  lemma TextCons(c: nat, t: Str)
    requires Legal(c) && IsText(t)
    ensures IsText(Encode(c) + t)
  {
    hide Encode, Getc;
    GetcLegal(c, t);
    if Encode(BOM) <= Encode(c) + t {
      BomSkipped(Encode(c) + t);
      BomIff(Encode(c) + t);
      LongEncode(c);
    }
  }

  lemma LongEncode(c: nat)
    ensures |Encode(c)| <= 4 && (|Encode(c)| == 4 ==> Encode(c)[0] >= 0xF0)
  {
  }

  /** Whatever is collected up to a closing bracket is text, and ends at the first accepted one. */
  lemma {:induction false} UntilMade(s: Str, buf: Str, from: nat, ends: Str -> bool)
    requires from <= |buf| && forall i :: from <= i < |buf| && buf[i] == GT ==> !ends(buf[..i])
    ensures var n := Until(s, buf, ends);
            n.Scan? ==> buf <= n.buf && IsText(n.buf[|buf|..]) && EndsOnce(n.buf, from, ends)
    decreases |s|
  {
    hide Getc, Encode, IsText;
    var n := Next(s);
    if n.Scan? && n.ch != EOF {
      if n.ch == GT && ends(buf) {
        EmptyText();
        assert buf[|buf|..] == [];
      } else {
        GetcCanonical(s);
        var c := n.ch;
        var buf' := buf + Encode(c);
        BracketAtEnd(c);
        forall i | from <= i < |buf'| && buf'[i] == GT
          ensures !ends(buf'[..i])
        {
          if i < |buf| {
            assert buf'[..i] == buf[..i];
          } else {
            assert buf'[..i] == buf;
          }
        }
        UntilMade(n.rest, buf', from, ends);
        var m := Until(n.rest, buf', ends);
        if m.Scan? {
          TextCons(c, m.buf[|buf'|..]);
          assert m.buf[|buf|..] == Encode(c) + m.buf[|buf'|..];
        }
      }
    }
  }

  lemma EmptyText()
    ensures IsText([])
  {
  }

  lemma BracketAtEnd(c: nat)
    ensures forall i :: 0 <= i < |Encode(c)| && Encode(c)[i] == GT ==> i == 0 && c == GT
  {
  }

  lemma {:induction false} TextCut(t: Str)
    requires IsText(t + [RBRACK, RBRACK])
    ensures IsText(t)
    decreases |t|
  {
    hide Getc, Encode;
    if t != [] {
      var u: Str := t + [RBRACK, RBRACK];
      GetcLocal2(t, [RBRACK, RBRACK]);
      NextHead(t, [RBRACK, RBRACK]);
      TextCut(Getc(t).rest);
    }
  }

  lemma GetcLocal2(t: Str, tail: Str)
    requires t != [] && At(tail, 0) < 0x80 && !(Encode(BOM) <= t + tail) && Getc(t + tail).Char?
    ensures !(Encode(BOM) <= t) && Getc(t).Char?
  {
    hide Getc, Encode;
    if !(Encode(BOM) <= t) {
      GetcLocal(t, tail);
    }
  }

  /** A special element whose name is read back as printed is one of the kinds that survive. */
  lemma SpecialBack(n: Str, s: Str)
    requires Unclosed(n)
    requires var x := TagText(SpecialText(n) + ([GT] + s)); x.Scan? && x.buf == n
    ensures IsSpecial(n)
  {
    hide TagText, IsText, EndsOnce, IsDeclarationText;
    if At(n, 0) == QM {
      DirectiveBack(n, s);
    } else if COMMENT <= n {
      CommentBack(n, s);
    } else if CDATA <= n {
      CdataBack(n, s);
    } else {
      DeclarationBack(n, s);
    }
  }

  lemma DirectiveBack(n: Str, s: Str)
    requires At(n, 0) == QM
    requires var x := TagText(n + ([GT] + s)); x.Scan? && x.buf == n
    ensures IsDirective(n) && !(CDATA <= n)
  {
    hide TagName, Until, IsText, EndsOnce;
    var rest := n[1..] + ([GT] + s);
    assert n + ([GT] + s) == [QM] + rest;
    DirectiveStart(rest);
    UntilMade(rest, [QM], 1, EndsDirective);
    var u := Until(rest, [QM], EndsDirective);
    assert u.buf[..|u.buf| - 0] == u.buf;
    assert |[QM]| == 1 && n[0] != CDATA[0];
  }

  lemma CommentBack(n: Str, s: Str)
    requires COMMENT <= n
    requires var x := TagText(SpecialText(n) + ([GT] + s)); x.Scan? && x.buf == n
    ensures IsComment(n)
  {
    hide TagName, Until, IsText, EndsOnce;
    assert !(CDATA <= n) by { assert n[1] == COMMENT[1]; }
    var rest := n[3..] + ([GT] + s);
    assert n + ([GT] + s) == COMMENT + rest;
    CommentStart(rest);
    UntilMade(rest, COMMENT, 3, EndsComment);
    var u := Until(rest, COMMENT, EndsComment);
    assert u.buf[..|u.buf| - 0] == u.buf;
    assert |COMMENT| == 3;
  }

  lemma CdataBack(n: Str, s: Str)
    requires CDATA <= n
    requires var x := TagText(SpecialText(n) + ([GT] + s)); x.Scan? && x.buf == n
    ensures IsCdata(n)
  {
    hide TagName, Until, IsText, EndsOnce;
    var t: Str := n + [RBRACK, RBRACK];
    var rest := t[8..] + ([GT] + s);
    assert t + ([GT] + s) == CDATA + rest;
    CdataFrom(0, rest);
    assert CDATA[0..] == CDATA && CDATA[..0] == [];
    assert CDATA != COMMENT;
    var u := Until(rest, CDATA, EndsCdata);
    UntilMade(rest, CDATA, 8, EndsCdata);
    CdataEnds(u.buf);
    assert u.buf == u.buf[..|u.buf| - 2] + [RBRACK, RBRACK] == t;
    assert t[8..] == n[8..] + [RBRACK, RBRACK];
    TextCut(n[8..]);
  }

  lemma CdataEnds(t: Str)
    requires EndsOnce(t, 8, EndsCdata)
    ensures EndsCdata(t) && |t| >= 2 && t[|t| - 2..] == [RBRACK, RBRACK]
  {
  }

  lemma DeclarationBack(n: Str, s: Str)
    requires At(n, 0) == EXCL && !(COMMENT <= n) && !(CDATA <= n)
    requires var x := TagText(n + ([GT] + s)); x.Scan? && x.buf == n
    ensures IsDeclaration(n)
  {
    hide TagName, Until, IsText, EndsOnce, IsDeclarationText, Declaration;
    var w := n[1..];
    var rest := w + ([GT] + s);
    assert n + ([GT] + s) == [EXCL] + rest;
    ExclamationRead(rest);
    var m := TagName(rest, [EXCL]);
    DeclarationTaken(w, [GT] + s, [EXCL]);
    TagNameGrows(rest, [EXCL]);
    if m.buf == COMMENT {
      UntilMade(m.rest, COMMENT, 3, EndsComment);
    } else if m.buf == CDATA {
      UntilMade(m.rest, CDATA, 8, EndsCdata);
      CdataEnds(Until(m.rest, CDATA, EndsCdata).buf);
      CdataLonger(Until(m.rest, CDATA, EndsCdata).buf);
    } else {
      assert n == [EXCL] + w;
    }
  }

  lemma CdataLonger(t: Str)
    requires CDATA <= t && EndsCdata(t)
    ensures |t| >= 10 && CDATA <= t[..|t| - 2]
  {
    assert CDATA[7] == 91 && CDATA[6] == 65;
    assert t[..8] == CDATA;
    assert t[7] == 91;
  }

  lemma {:induction false} TagNameGrows(s: Str, buf: Str)
    ensures var n := TagName(s, buf); n.Scan? ==> buf <= n.buf
    decreases |s|
  {
    hide Next, Decoded, Encode;
    var n := Next(s);
    if n.Scan? && n.ch >= 0 && !(IsSpace(n.ch) || n.ch == GT || (n.ch == SLASH && buf != [])) && n.ch != LT {
      if n.ch == AMP {
        if Decoded(n).Scan? {
          TagNameGrows(Decoded(n).rest, buf + Encode(Decoded(n).ch));
        }
      } else if !BadInTag(n.ch) && !Special(buf + Encode(n.ch)) {
        TagNameGrows(n.rest, buf + Encode(n.ch));
      }
    }
  }

  // ---- Opening tags ----

  lemma {:induction false} DeclarationGrows(ch: int, s: Str, buf: Str)
    requires EOF <= ch
    ensures var d := Declaration(ch, s, buf); d.Scan? ==> buf <= d.buf
    decreases |s|
  {
    hide Next, GetEntity, Encode;
    if ch != GT {
      var m := Decoded(Scan(ch, [], s));
      if m.Scan? && Next(m.rest).Scan? && Next(m.rest).ch != EOF {
        var n := Next(m.rest);
        DeclarationGrows(n.ch, n.rest, if m.ch == EOF then buf + [255] else buf + Encode(m.ch));
      }
    }
  }

  /** A tag that starts like a special element gives a name that does. */
  lemma StaysUnclosed(s: Str)
    requires TagText(s).Scan? && Unclosed(TagName(s, []).buf)
    ensures Unclosed(TagText(s).buf)
  {
    hide TagName, Until, Declaration, IsText, EndsOnce;
    var n := TagName(s, []);
    if n.buf == COMMENT {
      UntilMade(n.rest, COMMENT, 3, EndsComment);
    } else if n.buf == CDATA {
      UntilMade(n.rest, CDATA, 8, EndsCdata);
      CdataEnds(Until(n.rest, CDATA, EndsCdata).buf);
      CdataLonger(Until(n.rest, CDATA, EndsCdata).buf);
    } else if At(n.buf, 0) == QM {
      UntilMade(n.rest, n.buf, |n.buf|, EndsDirective);
    } else {
      DeclarationGrows(n.ch, n.rest, n.buf);
    }
  }

  /** The name of an ordinary element that is read back as printed is one that survives. */
  lemma NameBack(n: Str, tail: Str)
    requires !Unclosed(n) && tail != [] && EndsTagName(tail[0])
    requires var x := TagText(WriteTagName(n) + tail); x.Scan? && x.buf == n
    ensures IsElementName(n) && TagText(WriteTagName(n) + tail) == Scan(tail[0], n, tail[1..])
  {
    hide TagName, Until, Declaration, WriteString, UpTo, TextOf;
    var s := WriteTagName(n) + tail;
    if At(n, 0) == QUOT || At(n, 0) == APOS {
      QuoteInTag(n, tail);
      assert false;
    }
    assert WriteTagName(n) == n;
    if TagName(s, []).Scan? && Unclosed(TagName(s, []).buf) {
      StaysUnclosed(s);
    }
    TagNameTaken(n, tail, []);
    assert tail == [tail[0]] + tail[1..];
    TagNameRead(n, tail[0], tail[1..], []);
    assert [] + n == n;
  }

  lemma QuoteInTag(n: Str, tail: Str)
    requires At(n, 0) == QUOT || At(n, 0) == APOS
    ensures TagText(WriteTagName(n) + tail).Stop?
  {
    hide Next, WriteString, UpTo, Encode;
    var s := WriteTagName(n) + tail;
    assert WriteTagName(n) == WriteName(n) && s == [n[0]] + s[1..];
    NextAscii(n[0], s[1..]);
  }

  /** What survives of a value with an opening tag. */
  predicate Keeps(v: Value) {
    v.Element? && if Unclosed(v.name) then IsSpecial(v.name) && v.attrs == [] else IsElementName(v.name) && AreAttrs(v.attrs)
  }

  /** An opening tag that is read back as printed is one that survives. */
  lemma OpenBack(v: Value, parent: bool, col: int, wrap: int, s: Str, m: Move)
    requires v.Element? && Parsed(v.attrs) && (Unclosed(v.name) ==> v.attrs == []) && !m.Up? && m.v == v
    requires Spelled(m, OpenTag(v, parent, col, wrap).text[1..] + s)
    ensures Keeps(v)
  {
    hide TagText, ParseElement, WriteAttrs, IsSpecial, IsElementName, AreAttrs, WriteTagName, Parsed;
    var attrs := WriteAttrs(v.attrs, col + |v.name| + 1, wrap).text;
    var end := if parent || Unclosed(v.name) then [GT] else [SP, SLASH, GT];
    var tail := attrs + (end + s);
    AttrsStart(v.attrs, col + |v.name| + 1, wrap);
    assert OpenTag(v, parent, col, wrap).text[1..] + s == WriteTagName(v.name) + tail;
    if Unclosed(v.name) {
      assert tail == [GT] + s;
      SpecialPrinted(v.name);
      SpecialBack(v.name, s);
    } else {
      NameBack(v.name, tail);
      NoAttrs();
      if v.attrs != [] {
        assert tail == [tail[0]] + tail[1..];
        SeparatorParsed(tail[0], tail[1..], []);
        assert [] + v.attrs == v.attrs;
        AttrsBack(v.attrs, col + |v.name| + 1, wrap, [], end + s);
      }
    }
  }

  lemma NoAttrs()
    ensures AreAttrs([])
  {
  }

  lemma SpecialPrinted(n: Str)
    requires Unclosed(n)
    ensures WriteTagName(n) == SpecialText(n)
  {
    if CDATA <= n {
      assert n[1] == CDATA[1] && CDATA[1] != COMMENT[1];
    }
  }

  // ---- Text ----

  lemma LoadSame(s: Str, t: Str, st: State)
    requires Next(s) == Next(t)
    ensures LoadLoop(s, st) == LoadLoop(t, st)
  {
    hide Next, Tag, Decoded, Flush;
  }

  lemma LoadRefused(s: Str, st: State)
    requires Next(s).Stop? || Next(s).ch == EOF
    ensures LoadLoop(s, st) == if Next(s).Stop? then Failure(Next(s).why) else Finish(st)
  {
    hide Next, Tag, Decoded, Flush;
  }

  // At a `<` a node is due that is not text, or none.
  lemma TagDue(z: Str, st: State, t: Doc)
    requires Sound(st) && st.buf == [] && st.parent.Push? && LoadLoop([LT] + z, st) == Tree(t)
    ensures Grown(st, t) && (Left(st.parent, t).value.Cons? ==> Left(st.parent, t).value.v.Element?)
  {
    hide LoadLoop, Tag, Left, Sound, Consistent, Spelled;
    var m := AtTag(z, st, t);
  }

  /** Text that is read back as printed is made of characters the reader accepts, and a tag follows it. */
  lemma {:induction false} TextBack(t: Str, w: Str, s: Str, st: State, d: Doc)
    requires Consistent(st) && st.parent.Push? && |st.buf| + |w| <= |t| && (At(s, 0) == LT || IsEnd(s))
    requires var left := Left(st.parent, d); left.Some? && left.value.Cons? && left.value.v == Opaque(t)
    requires LoadLoop(WriteString(w) + s, st) == Tree(d)
    ensures |st.buf| + |w| == |t| && IsText(w) && At(s, 0) == LT
    decreases |w|
  {
    hide Getc, Encode, LoadLoop, WriteString, Left, Next, MadeStack, Finish;
    if w == [] {
      EmptyString();
      EmptyText();
      assert WriteString(w) + s == s;
      TextEnds(t, s, st, d);
    } else {
      NextWritten(w, s);
      if Encode(BOM) <= w {
        LoadSame(WriteString(w) + s, WriteString(w[3..]) + s, st);
        TextBack(t, w[3..], s, st, d);
      } else if Getc(w).Char? {
        var c, r := Getc(w).ch, Getc(w).rest;
        LoadChar(c, WriteString(r) + s, st);
        var st' := st.(buf := st.buf + Encode(c));
        BufferAside(st, st'.buf, d);
        TextBack(t, r, s, st', d);
      } else {
        LoadRefused(WriteString(w) + s, st);
        FinishGrown(st, d);
      }
    }
  }

  lemma TextEnds(t: Str, s: Str, st: State, d: Doc)
    requires Consistent(st) && st.parent.Push? && |st.buf| <= |t| && (At(s, 0) == LT || IsEnd(s))
    requires var left := Left(st.parent, d); left.Some? && left.value.Cons? && left.value.v == Opaque(t)
    requires LoadLoop(s, st) == Tree(d)
    ensures |st.buf| == |t| && At(s, 0) == LT
  {
    hide LoadLoop, Left, MadeStack, Finish, Flush;
    if IsEnd(s) {
      LoadEnd(s, st);
      FinishGrown(st, d);
    } else {
      assert s == [LT] + s[1..];
      if st.buf == [] {
        TagDue(s[1..], st, d);
      } else {
        LoadFlushed(s, st);
        FlushKeeps(st);
        FlushStack(st);
        TagDue(s[1..], Flush(st), d);
        FlushGrown(st, d);
      }
    }
  }

  lemma FlushStack(st: State)
    requires st.parent.Push?
    ensures Flush(st).parent.Push?
  {
  }

  // ---- Forests ----

  /** What follows printed text is a tag, or the end. */
  lemma AfterText(rest: Doc, col: int, wrap: int, s: Str)
    requires MadeAll(rest) && (rest.Cons? ==> rest.v.Element?) && (At(s, 0) == LT || IsEnd(s))
    ensures rest.Cons? ==> At(Write(rest, col, wrap).text + s, 0) == LT
    ensures rest.Nil? ==> Write(rest, col, wrap).text + s == s
  {
    hide WriteAttrs, WriteTagName, XmlWriter.Close, Parsed;
    if rest.Cons? {
      assert OpenTag(rest.v, rest.kids.Cons?, col, wrap).text[0] == LT;
    }
  }

  /** The state after a child has been read inside an element. */
  lemma NextChild(st: State, v: Value, kids: Doc, rest: Doc, t: Doc)
    requires Sound(st) && st.parent.Push? && Left(st.parent, t) == Some(Cons(v, kids, rest))
    requires Made(v, kids) && MadeAll(kids) && (v.Opaque? ==> Consistent(st))
    ensures var st' := AddNode(st, v, kids);
            && Sound(st') && st'.parent.Push? && st'.buf == st.buf && Left(st'.parent, t) == Some(rest)
            && (v.Element? ==> Consistent(st'))
  {
    hide Made, Left, Final, Parsed;
    ChildTaken(st.parent, v, kids, rest, t);
    MadeAppend(st.parent.kids, v, kids);
  }

  lemma KeepsReloads(v: Value, kids: Doc)
    requires Keeps(v) && Reloadable(kids) && (Unclosed(v.name) ==> kids.Nil?)
    ensures Reloadable(Cons(v, kids, Nil))
  {
    hide IsElementName, AreAttrs, IsText, IsDeclarationText, EndsOnce;
  }

  /** A printed forest that is read back inside an element is one that survives; a last text needs a tag
      behind it. */
  lemma {:induction false} ForestBack(d: Doc, col: int, wrap: int, s: Str, st: State, t: Doc)
    requires Sound(st) && st.buf == [] && st.parent.Push? && (d.Cons? && d.v.Opaque? ==> Consistent(st))
    requires MadeAll(d) && Left(st.parent, t) == Some(d) && (At(s, 0) == LT || IsEnd(s))
    requires LoadLoop(Write(d, col, wrap).text + s, st) == Tree(t)
    ensures Reloadable(d) && (EndsInText(d) ==> At(s, 0) == LT)
    decreases d, 0, 0
  {
    hide LoadLoop, WriteNode, Left, Sound, Consistent, Made;
    match d {
      case Nil =>
      case Cons(v, kids, rest) =>
        var node := WriteNode(v, kids, col, wrap);
        var after := Write(rest, node.col, wrap).text + s;
        assert Write(d, col, wrap).text + s == node.text + after;
        if v.Opaque? {
          TextNodeBack(v, kids, rest, col, wrap, s, st, t);
        } else {
          NodeBack(v, kids, rest, col, wrap, after, st, t);
        }
        NextChild(st, v, kids, rest, t);
        ForestBack(rest, node.col, wrap, s, AddNode(st, v, kids), t);
        ReloadableCons(v, kids, rest);
    }
  }

  lemma ReloadableCons(v: Value, kids: Doc, rest: Doc)
    requires Reloadable(Cons(v, kids, Nil)) && Reloadable(rest) && !(v.Opaque? && rest.Cons? && rest.v.Opaque?)
    ensures Reloadable(Cons(v, kids, rest))
  {
    hide IsSpecial, IsElementName, AreAttrs, IsText;
  }

  lemma TextNodeBack(v: Value, kids: Doc, rest: Doc, col: int, wrap: int, s: Str, st: State, t: Doc)
    requires v.Opaque? && Consistent(st) && st.buf == [] && st.parent.Push? && Left(st.parent, t) == Some(Cons(v, kids, rest))
    requires MadeAll(Cons(v, kids, rest)) && (At(s, 0) == LT || IsEnd(s))
    requires var node := WriteNode(v, kids, col, wrap);
             LoadLoop(node.text + (Write(rest, node.col, wrap).text + s), st) == Tree(t)
    ensures Reloadable(Cons(v, kids, Nil))
    ensures rest.Nil? ==> At(s, 0) == LT
    ensures LoadLoop(Write(rest, WriteNode(v, kids, col, wrap).col, wrap).text + s, AddNode(st, v, kids)) == Tree(t)
  {
    hide LoadLoop, Left, IsText, MadeStack, MadeRoot, WriteString, Write;
    var node := WriteNode(v, kids, col, wrap);
    var after := Write(rest, node.col, wrap).text + s;
    AfterText(rest, node.col, wrap, s);
    TextBack(v.text, v.text, after, st, t);
    LoadText(v.text, after, st);
    assert [] + v.text == v.text;
    LoadFlushed(after, st.(buf := v.text));
    FlushText(st, v.text);
  }

  lemma FlushText(st: State, text: Str)
    requires st.buf == [] && st.parent.Push? && st.opaqueType
    ensures Flush(st.(buf := text)) == AddNode(st, Opaque(text), Nil)
  {
  }

  /** What follows the opening tag of a node. */
  function NodeTail(v: Value, kids: Doc, col: int, wrap: int, after: Str): Str
    requires v.Element?
  {
    if kids.Nil? then after
    else
      var open := OpenTag(v, true, col, wrap);
      var inside := Write(kids, open.col, wrap);
      inside.text + (XmlWriter.Close(v, open.col).text + after)
  }

  lemma NodeParts(v: Value, kids: Doc, col: int, wrap: int, after: Str)
    requires v.Element?
    ensures var open := OpenTag(v, kids.Cons?, col, wrap);
            && open.text != [] && open.text[0] == LT
            && WriteNode(v, kids, col, wrap).text + after == [LT] + (open.text[1..] + NodeTail(v, kids, col, wrap, after))
    ensures !Unclosed(v.name) ==> At(XmlWriter.Close(v, col).text + after, 0) == LT
  {
    hide WriteAttrs, WriteTagName, Write, WriteString;
  }

  lemma {:induction false} NodeBack(v: Value, kids: Doc, rest: Doc, col: int, wrap: int, after: Str, st: State, t: Doc)
    requires v.Element? && Sound(st) && st.buf == [] && st.parent.Push? && Left(st.parent, t) == Some(Cons(v, kids, rest))
    requires Made(v, kids) && MadeAll(kids)
    requires LoadLoop(WriteNode(v, kids, col, wrap).text + after, st) == Tree(t)
    ensures Reloadable(Cons(v, kids, Nil))
    ensures LoadLoop(after, AddNode(st, v, kids)) == Tree(t)
    decreases kids, 1
  {
    hide LoadLoop, Left, IsElementName, AreAttrs, IsSpecial, OpenTag, Write, Spelled, Tag, NodeTail, MadeAll, MadeStack;
    NodeParts(v, kids, col, wrap, after);
    var open := OpenTag(v, kids.Cons?, col, wrap);
    var z := NodeTail(v, kids, col, wrap, after);
    var m := AtTag(open.text[1..] + z, st, t);
    OpenBack(v, kids.Cons?, col, wrap, z, m);
    if kids.Cons? {
      OpenTagRead(v, true, col, wrap, z, st);
      LoadTag(open.text[1..] + z, st);
      OpenLeft(st.parent, v, kids, t);
      KidsBack(v, kids, col, wrap, after, Descend(st, v.name, v.attrs), t);
    }
    KeepsReloads(v, kids);
    ElementRead(v, kids, col, wrap, after, st);
  }

  lemma {:induction false} KidsBack(v: Value, kids: Doc, col: int, wrap: int, after: Str, st: State, t: Doc)
    requires v.Element? && !Unclosed(v.name) && kids.Cons? && MadeAll(kids)
    requires Consistent(st) && st.buf == [] && st.parent.Push? && Left(st.parent, t) == Some(kids)
    requires LoadLoop(NodeTail(v, kids, col, wrap, after), st) == Tree(t)
    ensures Reloadable(kids)
    decreases kids, 0, 1
  {
    hide LoadLoop, Left, Consistent, OpenTag, Write, MadeAll, XmlWriter.Close;
    var open := OpenTag(v, true, col, wrap);
    NodeParts(v, kids, open.col, wrap, after);
    ConsistentSound(st);
    ForestBack(kids, open.col, wrap, XmlWriter.Close(v, open.col).text + after, st, t);
  }

  // ---- Whole documents ----

  /** Every tree that comes back: the root's and all the other names, attributes and texts survive, and no
      text is the last thing below a special root. */
  predicate Survives(v: Value, kids: Doc) {
    ReloadableRoot(v, kids) && !(IsSpecial(v.name) && EndsInText(kids))
  }

  lemma StartConsistent()
    ensures Consistent(START)
  {
  }

  /** A document that is read back as saved is one that survives. */
  lemma RootBack(v: Value, kids: Doc, wrap: int, end: Str)
    requires IsEnd(end) && LoadLoop(WriteNode(v, kids, 0, wrap).text + end, START) == Tree(Cons(v, kids, Nil))
    ensures Survives(v, kids)
  {
    hide LoadLoop, WriteNode, IsElementName, AreAttrs, IsSpecial, OpenTag, Spelled, NodeTail, MadeAll, Keeps, Left, Tag;
    var t := Cons(v, kids, Nil);
    StartConsistent();
    Grows(WriteNode(v, kids, 0, wrap).text + end, START, t);
    NodeParts(v, kids, 0, wrap, end);
    var open := OpenTag(v, kids.Cons?, 0, wrap);
    var z := NodeTail(v, kids, 0, wrap, end);
    var m := AtTag(open.text[1..] + z, START, t);
    OpenBack(v, kids.Cons?, 0, wrap, z, m);
    if kids.Nil? {
      LoneSurvives(v);
    } else if Unclosed(v.name) {
      SpecialRootBack(v, kids, wrap, end);
    } else {
      KeepsName(v);
      OpenTagRead(v, true, 0, wrap, z, START);
      LoadTag(open.text[1..] + z, START);
      OpenLeft(Empty, v, kids, t);
      KidsBack(v, kids, 0, wrap, end, Descend(START, v.name, v.attrs), t);
      RootSurvives(v, kids);
    }
  }

  lemma KeepsName(v: Value)
    requires Keeps(v) && !Unclosed(v.name)
    ensures IsElementName(v.name) && AreAttrs(v.attrs)
  {
    hide IsElementName, AreAttrs;
  }

  lemma LoneSurvives(v: Value)
    requires Keeps(v)
    ensures Survives(v, Nil)
  {
    hide IsElementName, AreAttrs, IsText, IsDeclarationText, EndsOnce;
    KeepsReloads(v, Nil);
  }

  lemma RootSurvives(v: Value, kids: Doc)
    requires Keeps(v) && !Unclosed(v.name) && Reloadable(kids)
    ensures Survives(v, kids)
  {
    hide IsElementName, AreAttrs, IsText, IsDeclarationText, EndsOnce;
  }

  lemma SpecialRootBack(v: Value, kids: Doc, wrap: int, end: Str)
    requires Keeps(v) && Unclosed(v.name) && kids.Cons? && MadeAll(kids) && IsEnd(end)
    requires LoadLoop(WriteNode(v, kids, 0, wrap).text + end, START) == Tree(Cons(v, kids, Nil))
    ensures Survives(v, kids)
  {
    hide LoadLoop, WriteNode, IsText, IsDeclarationText, EndsOnce, OpenTag, MadeAll, Left, Write;
    var t := Cons(v, kids, Nil);
    if IsProlog(v.name) {
      var open := OpenTag(v, true, 0, wrap);
      PrologRoot(v, kids, wrap, end);
      var down := Descend(START, v.name, []);
      OpenLeft(Empty, v, kids, t);
      assert down.parent == Push(v.name, v.attrs, Nil, Empty);
      PrologConsistent(v.name);
      ForestBack(kids, open.col, wrap, end, down, t);
    } else {
      ClosedRoot(v, kids, wrap, end);
    }
  }

  lemma PrologConsistent(n: Str)
    ensures Consistent(Descend(START, n, []))
  {
  }

  // A comment or a CDATA section at the start is the whole tree.
  lemma ClosedRoot(v: Value, kids: Doc, wrap: int, end: Str)
    requires Keeps(v) && Unclosed(v.name) && !IsProlog(v.name) && kids.Cons?
    ensures LoadLoop(WriteNode(v, kids, 0, wrap).text + end, START) != Tree(Cons(v, kids, Nil))
  {
    hide LoadLoop, IsText, EndsOnce, Tag, WriteNode, OpenTag, NodeTail, XmlWriter.Close;
    var t := Cons(v, kids, Nil);
    if LoadLoop(WriteNode(v, kids, 0, wrap).text + end, START) == Tree(t) {
      var n := v.name;
      NodeParts(v, kids, 0, wrap, end);
      var z := NodeTail(v, kids, 0, wrap, end);
      var open := OpenTag(v, true, 0, wrap);
      LoadTag(open.text[1..] + z, START);
      ClosedText(v, wrap, z);
      if IsComment(n) {
        CommentRead(n, z, START);
      } else {
        CdataRead(n, z, START);
      }
      var st := AddNode(START, v, Nil);
      ClosedConsistent(v);
      Grows(z, st, t);
    }
  }

  lemma ClosedText(v: Value, wrap: int, z: Str)
    requires Keeps(v) && Unclosed(v.name) && !IsProlog(v.name)
    ensures v == Element(v.name, [])
    ensures IsComment(v.name) || IsCdata(v.name)
    ensures OpenTag(v, true, 0, wrap).text[1..] + z == SpecialText(v.name) + ([GT] + z)
    ensures IsComment(v.name) ==> SpecialText(v.name) == v.name
    ensures !IsComment(v.name) ==> SpecialText(v.name) == v.name + [RBRACK, RBRACK]
  {
    hide IsText, EndsOnce, WriteTagName;
    SpecialPrinted(v.name);
    if IsComment(v.name) {
      assert !(CDATA <= v.name) by { assert v.name[1] == COMMENT[1]; }
    }
  }

  lemma ClosedConsistent(v: Value)
    requires v.Element? && v.attrs == []
    ensures Consistent(AddNode(START, v, Nil)) && AddNode(START, v, Nil).buf == []
  {
  }

  /** Main theorem: saving and loading gives back a tree if and only if the tree survives. */
  lemma SavedBackIff(v: Value, kids: Doc, wrap: int)
    ensures Load(Save(v, kids, wrap)) == Tree(Cons(v, kids, Nil)) <==> Survives(v, kids)
  {
    hide LoadLoop, WriteNode, ReloadableRoot, IsSpecial, EndsInText;
    var out := WriteNode(v, kids, 0, wrap);
    if Load(Save(v, kids, wrap)) == Tree(Cons(v, kids, Nil)) {
      RootBack(v, kids, wrap, if out.col > 0 then [NL] else []);
    }
    if Survives(v, kids) {
      LoadSaved(v, kids, wrap);
    }
  }

  /** For every accepted input, loading, saving and loading again gives the same tree as loading once, if and
      only if that tree survives. */
  lemma LoadedBackIff(s: Str, wrap: int)
    requires Load(s).Tree?
    ensures var d := Load(s).doc;
            && d.Cons? && d.rest.Nil?
            && (Load(Save(d.v, d.kids, wrap)) == Load(s) <==> Survives(d.v, d.kids))
  {
    hide LoadLoop, Save, Survives;
    StartConsistent();
    var d := Load(s).doc;
    Grows(s, START, d);
    SavedBackIff(d.v, d.kids, wrap);
  }

  /** An input that does not come back: `<?x?>t</?x?>` loads as `t` below `?x?`, which is saved without an end
      tag and loads again without the text. */
  lemma RereadDiffers(wrap: int) returns (s: Str)
    ensures Load(s) == Tree(Cons(Element([QM, 120, QM], []), Cons(Opaque([116]), Nil, Nil), Nil))
    ensures Load(Save(Load(s).doc.v, Load(s).doc.kids, wrap)) != Load(s)
  {
    hide LoadLoop, Tag, Save, IsText, TagName, WriteString;
    var n: Str := [QM, 120, QM];
    var v, kids := PrologLosesText(wrap);
    var close := [SLASH] + (n + [GT]);
    var inside := [116] + ([LT] + close);
    s := [LT] + (n + ([GT] + inside));
    EmptyText();
    AsciiText(116, []);
    AsciiText(QM, []);
    assert [116] + [] == [116] && [QM] + [] == [QM];
    AsciiText(120, [QM]);
    assert n[1..] == [120] + [QM];
    LoadTag(n + ([GT] + inside), START);
    DirectiveRead(n, inside, START);
    var down := Descend(START, n, []);
    LetterWritten();
    LoadText([116], [LT] + close, down);
    assert [] + [116] == [116];
    LoadFlushed([LT] + close, down.(buf := [116]));
    FlushText(down, [116]);
    var full := AddNode(down, Opaque([116]), Nil);
    LoadTag(close, full);
    ClosingRead(n, full);
    LoadEnd([], AddNode(START.(opaqueType := true), v, kids));
  }

  lemma LetterWritten()
    ensures WriteString([116]) == [116]
  {
    assert WriteString([116]) == Escape(116) + WriteString([116][1..]);
  }

  lemma ClosingRead(n: Str, st: State)
    requires n == [QM, 120, QM]
    requires st == AddNode(Descend(START, n, []), Opaque([116]), Nil)
    ensures Tag(st, [SLASH] + (n + [GT])) == Step(AddNode(START.(opaqueType := true), Element(n, []), Cons(Opaque([116]), Nil, Nil)), [])
  {
    hide TagName, Getc, Encode;
    SlashRead(n + [GT]);
    TagLetters(n);
    assert n + [GT] == n + ([GT] + []);
    TagNameRead(n, GT, [], [SLASH]);
    assert ([SLASH] + n)[1..] == n;
  }

  lemma TagLetters(n: Str)
    requires n == [QM, 120, QM]
    ensures TextOf(n, TagChar)
  {
    hide TextOf;
    NoLetters();
    TagLetter(QM, []);
    assert [QM] + [] == [QM];
    TagLetter(120, [QM]);
    TagLetter(QM, [120] + [QM]);
    assert n == [QM] + ([120] + [QM]);
  }

  lemma NoLetters()
    ensures TextOf([], TagChar)
  {
  }

  lemma TagLetter(b: byte, t: Str)
    requires 0x20 <= b < 0x7F && TagChar(b) && TextOf(t, TagChar)
    ensures TextOf([b] + t, TagChar)
  {
    hide Encode;
    EncodesAs1(b);
    BomBytes();
    GetcLegal(b, t);
  }
}
