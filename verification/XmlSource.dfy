/** Documents as people write them, not only as the printer does: white space where it may stand, either quotes or
    none, references, elements closed either way. What they load as is what they spell. */
module XmlSource {
  import opened Utf8
  import opened Entities
  import opened XmlTree
  import opened XmlReader
  import opened XmlRoundTrip
  import opened XmlReferences

  // ---- characters and white space ----

  /** A character as it is written: itself, by its number, or by a name. */
  datatype Item = Plain(ch: nat) | Numbered(ref: Ref) | Named(name: Str)

  /** A name of the table: of letters and digits, and of a character that may be written so. */
  predicate IsNamed(name: Str) {
    && |name| <= 63
    && (forall i :: 0 <= i < |name| ==> 48 <= name[i] <= 57 || 65 <= name[i] <= 90 || 97 <= name[i] <= 122)
    && !BadChar(EntityValue(name))
  }

  /** The item may stand where these bytes mean something else. */
  predicate IsItem(i: Item, taken: set<nat>) {
    match i
    case Plain(c) => Legal(c) && c != 38 && c !in taken
    case Numbered(ref) => IsRef(ref)
    case Named(name) => IsNamed(name)
  }

  predicate AreItems(items: seq<Item>, taken: set<nat>) {
    forall k :: 0 <= k < |items| ==> IsItem(items[k], taken)
  }

  function ItemText(i: Item): Str {
    match i
    case Plain(c) => Encode(c)
    case Numbered(ref) => Reference(ref.digits, ref.base)
    case Named(name) => [AMP] + (name + [SEMI])
  }

  function ItemChar(i: Item): int {
    match i
    case Plain(c) => c
    case Numbered(ref) => ref.ch
    case Named(name) => EntityValue(name)
  }

  function ItemsText(items: seq<Item>): Str {
    if items == [] then [] else ItemText(items[0]) + ItemsText(items[1..])
  }

  /** What the items spell. */
  function Spelled(items: seq<Item>): Str {
    if items == [] then []
    else (if ItemChar(items[0]) >= 0 then Encode(ItemChar(items[0])) else []) + Spelled(items[1..])
  }

  /** Tabs, line ends and blanks. */
  predicate IsBlank(w: Str) {
    forall k :: 0 <= k < |w| ==> w[k] in {9, 10, 13, 32}
  }

  lemma ItemRead(i: Item, taken: set<nat>, s: Str)
    requires IsItem(i, taken)
    ensures ItemChar(i) >= 9
    ensures var n := Next(ItemText(i) + s);
            n.Scan? && n.ch == (if i.Plain? then i.ch else AMP) && Decoded(n) == Scan(ItemChar(i), [], s)
  {
    hide Encode, Getc, GetEntity, Next, Reference, IsRef, EntityValue;
    match i
    case Plain(c) =>
      NextLegal(c, s);
    case Numbered(ref) =>
      RefDecoded(ref, s);
      assert ref.ch >= 9 by { RefLegal(ref); }
    case Named(name) =>
      NamedRead(name, s);
  }

  lemma RefLegal(r: Ref)
    requires IsRef(r)
    ensures r.ch >= 9
  {
  }

  lemma NamedRead(name: Str, s: Str)
    requires IsNamed(name)
    ensures Next([AMP] + (name + [SEMI]) + s) == Scan(AMP, [], name + ([SEMI] + s))
    ensures Decoded(Next([AMP] + (name + [SEMI]) + s)) == Scan(EntityValue(name), [], s)
  {
    hide Next, EntityChars, EntityValue;
    assert [AMP] + (name + [SEMI]) + s == [AMP] + (name + ([SEMI] + s));
    NextAscii(AMP, name + ([SEMI] + s));
    EntityCharsRead(name, s, []);
    assert [] + name == name;
    assert At(name, 0) != HASH;
  }

  lemma ItemsSplit(items: seq<Item>, s: Str)
    requires items != []
    ensures ItemsText(items) + s == ItemText(items[0]) + (ItemsText(items[1..]) + s)
  {
    hide ItemText;
  }

  lemma AreItemsRest(items: seq<Item>, taken: set<nat>)
    requires AreItems(items, taken) && items != []
    ensures IsItem(items[0], taken) && AreItems(items[1..], taken) && ItemChar(items[0]) >= 9
    ensures Spelled(items) == Encode(ItemChar(items[0])) + Spelled(items[1..])
  {
    hide IsItem, Encode, ItemChar;
    ItemRead(items[0], taken, []);
  }

  /** The items of a quoted value are collected up to its quote. */
  lemma {:induction false} QuotedItems(items: seq<Item>, q: byte, s: Str, buf: Str)
    requires (q == 34 || q == 39) && AreItems(items, {q as nat})
    ensures Quoted(ItemsText(items) + ([q] + s), q, buf, false) == Scan(q, buf + Spelled(items), s)
    decreases |items|
  {
    hide Next, Decoded, IsItem, ItemText, Encode, ItemChar, Spelled, AreItems;
    if items == [] {
      assert ItemsText(items) + ([q] + s) == [q] + s;
      NextAscii(q, s);
      assert Spelled(items) == [] by { NothingSpelled(); }
      assert buf + Spelled(items) == buf;
    } else {
      AreItemsRest(items, {q as nat});
      ItemsSplit(items, [q] + s);
      QuotedStep(items[0], q, ItemsText(items[1..]) + ([q] + s), buf);
      QuotedItems(items[1..], q, s, buf + Encode(ItemChar(items[0])));
      assert (buf + Encode(ItemChar(items[0]))) + Spelled(items[1..]) == buf + Spelled(items);
    }
  }

  lemma NothingSpelled()
    ensures Spelled([]) == []
  {
  }

  lemma QuotedStep(i: Item, q: byte, s: Str, buf: Str)
    requires (q == 34 || q == 39) && IsItem(i, {q as nat})
    ensures ItemChar(i) >= 9
    ensures Quoted(ItemText(i) + s, q, buf, false) == Quoted(s, q, buf + Encode(ItemChar(i)), false)
  {
    hide Next, Decoded, ItemText, Encode, ItemChar;
    ItemRead(i, {q as nat}, s);
  }

  /** Those of a bare value up to the character that ends it. */
  lemma {:induction false} BareItems(items: seq<Item>, e: byte, s: Str, buf: Str)
    requires e in {9, 10, 13, 32, 47, 62} && AreItems(items, {9, 10, 13, 32, 47, 61, 62})
    ensures Bare(ItemsText(items) + ([e] + s), buf, EndsValue) == Scan(e, buf + Spelled(items), s)
    decreases |items|
  {
    hide Next, Decoded, IsItem, ItemText, Encode, ItemChar, Spelled, AreItems;
    if items == [] {
      assert ItemsText(items) + ([e] + s) == [e] + s;
      NextAscii(e, s);
      assert Spelled(items) == [] by { NothingSpelled(); }
      assert buf + Spelled(items) == buf;
    } else {
      AreItemsRest(items, {9, 10, 13, 32, 47, 61, 62});
      ItemsSplit(items, [e] + s);
      BareStep(items[0], ItemsText(items[1..]) + ([e] + s), buf);
      BareItems(items[1..], e, s, buf + Encode(ItemChar(items[0])));
      assert (buf + Encode(ItemChar(items[0]))) + Spelled(items[1..]) == buf + Spelled(items);
    }
  }

  lemma BareStep(i: Item, s: Str, buf: Str)
    requires IsItem(i, {9, 10, 13, 32, 47, 61, 62})
    ensures ItemChar(i) >= 9
    ensures Bare(ItemText(i) + s, buf, EndsValue) == Bare(s, buf + Encode(ItemChar(i)), EndsValue)
  {
    hide Next, Decoded, ItemText, Encode, ItemChar;
    ItemRead(i, {9, 10, 13, 32, 47, 61, 62}, s);
  }

  /** Text inside an element joins the buffer. */
  lemma {:induction false} TextItems(items: seq<Item>, s: Str, st: State)
    requires AreItems(items, {60}) && st.opaqueType
    ensures LoadLoop(ItemsText(items) + s, st) == LoadLoop(s, st.(buf := st.buf + Spelled(items)))
    decreases |items|
  {
    hide LoadLoop, IsItem, ItemText, Encode, ItemChar, Spelled, AreItems;
    if items == [] {
      assert ItemsText(items) + s == s;
      assert Spelled(items) == [] by { NothingSpelled(); }
      assert st.buf + Spelled(items) == st.buf;
    } else {
      AreItemsRest(items, {60});
      ItemsSplit(items, s);
      TextStep(items[0], ItemsText(items[1..]) + s, st);
      TextItems(items[1..], s, st.(buf := st.buf + Encode(ItemChar(items[0]))));
      assert (st.buf + Encode(ItemChar(items[0]))) + Spelled(items[1..]) == st.buf + Spelled(items);
    }
  }

  lemma TextStep(i: Item, s: Str, st: State)
    requires IsItem(i, {60}) && st.opaqueType
    ensures ItemChar(i) >= 9
    ensures LoadLoop(ItemText(i) + s, st) == LoadLoop(s, st.(buf := st.buf + Encode(ItemChar(i))))
  {
    hide Next, GetEntity, Tag, Flush, ItemText, Encode, ItemChar;
    ItemRead(i, {60}, s);
  }

  lemma NextBlank(b: byte, s: Str)
    requires b in {9, 10, 13, 32}
    ensures Next([b] + s) == Scan(b, [], s) && IsSpace(b)
  {
    hide Next;
    NextAscii(b, s);
  }

  /** White space before an attribute, or before the end of a tag, is skipped. */
  lemma {:induction false} BlanksInTag(w: Str, s: Str, done: seq<Attr>)
    requires IsBlank(w)
    ensures ParseElement(w + s, done) == ParseElement(s, done)
    decreases |w|
  {
    hide Next;
    if w == [] {
      assert w + s == s;
    } else {
      assert w + s == [w[0]] + (w[1..] + s);
      NextBlank(w[0], w[1..] + s);
      BlanksInTag(w[1..], s, done);
    }
  }

  /** White space around the equals sign is skipped. */
  lemma {:induction false} BlanksSkipped(w: Str, b: byte, s: Str)
    requires IsBlank(w) && Legal(b) && b < 0x80 && b !in {9, 10, 13, 32}
    ensures var n := Next(w + ([b] + s)); n.Scan? && EOF <= n.ch && SkipSpace(n.ch, n.rest) == Scan(b, [], s)
    decreases |w|
  {
    hide Next;
    if w == [] {
      assert w + ([b] + s) == [b] + s;
      NextAscii(b, s);
    } else {
      assert w + ([b] + s) == [w[0]] + (w[1..] + ([b] + s));
      NextBlank(w[0], w[1..] + ([b] + s));
      BlanksSkipped(w[1..], b, s);
    }
  }

  /** White space outside the root is skipped. */
  lemma {:induction false} BlanksOutside(w: Str, s: Str)
    requires IsBlank(w)
    ensures LoadLoop(w + s, START) == LoadLoop(s, START)
    decreases |w|
  {
    hide Next, Tag, Flush;
    if w == [] {
      assert w + s == s;
    } else {
      assert w + s == [w[0]] + (w[1..] + s);
      NextBlank(w[0], w[1..] + s);
      BlanksOutside(w[1..], s);
    }
  }

  lemma {:induction false} BlanksAtEnd(w: Str, st: State)
    requires IsBlank(w) && st.parent.Empty? && (!st.opaqueType ==> st.buf == [])
    ensures LoadLoop(w, st) == Finish(st)
    decreases |w|
  {
    hide Next, Tag, Flush, Encode;
    if w == [] {
      NextEnd();
    } else {
      assert w == [w[0]] + w[1..];
      NextBlank(w[0], w[1..]);
      var st1 := if st.opaqueType then st.(buf := st.buf + Encode(w[0])) else st;
      BlanksAtEnd(w[1..], st1);
    }
  }

  lemma NextEnd()
    ensures Next([]) == Scan(EOF, [], [])
  {
  }

  // ---- attributes ----

  datatype Quote = Double | Single | Unquoted

  /** White space, a name, an equals sign in white space, and a value. */
  datatype AttrSrc = AttrSrc(before: Str, name: Str, eqBefore: Str, eqAfter: Str, quote: Quote, items: seq<Item>)

  /** A name starts with a byte of ASCII that is no white space and none of / ? < > " ' and goes on without
      white space and without = / > ? and & */
  predicate IsNameSrc(n: Str) {
    && n != []
    && 33 <= n[0] < 0x80 && n[0] !in {34, 39, 47, 60, 62, 63}
    && TextOf(n[1..], NameSrcChar)
  }

  predicate NameSrcChar(c: int) {
    c !in {9, 10, 13, 32, 38, 47, 61, 62, 63}
  }

  /** A bare value starts with a byte of ASCII, unescaped, that neither quotes nor ends it. */
  predicate IsValueSrc(quote: Quote, items: seq<Item>) {
    match quote
    case Double => AreItems(items, {34})
    case Single => AreItems(items, {39})
    case Unquoted =>
      && items != [] && items[0].Plain? && 33 <= items[0].ch < 0x80 && items[0].ch !in {34, 38, 39, 47, 61, 62}
      && AreItems(items[1..], {9, 10, 13, 32, 47, 61, 62})
  }

  predicate IsAttrSrc(a: AttrSrc) {
    IsBlank(a.before) && IsNameSrc(a.name) && IsBlank(a.eqBefore) && IsBlank(a.eqAfter) && IsValueSrc(a.quote, a.items)
  }

  function ValueText(quote: Quote, items: seq<Item>): Str {
    match quote
    case Double => [QUOT] + ItemsText(items) + [QUOT]
    case Single => [APOS] + ItemsText(items) + [APOS]
    case Unquoted => ItemsText(items)
  }

  function AttrText(a: AttrSrc): Str {
    a.before + (a.name + (a.eqBefore + ([EQ] + (a.eqAfter + ValueText(a.quote, a.items)))))
  }

  function AttrOf(a: AttrSrc): Attr {
    Attr(a.name, Some(Spelled(a.items)))
  }

  /** What can follow an attribute: after a bare value, white space or the end of the tag. */
  predicate Follows(quote: Quote, after: Str) {
    quote.Unquoted? ==> after != [] && after[0] in {9, 10, 13, 32, 47, 62}
  }

  lemma {:induction false} NameChars(t: Str)
    requires TextOf(t, NameSrcChar)
    ensures TextOf(t, AttrNameChar)
    decreases |t|
  {
    hide Getc, Encode;
    if t != [] {
      NameChars(Getc(t).rest);
    }
  }

  lemma {:induction false} SpelledNoNul(items: seq<Item>, taken: set<nat>)
    requires AreItems(items, taken)
    ensures 0 !in Spelled(items)
  {
    hide Encode, ItemChar, IsItem, AreItems;
    if items == [] {
      NothingSpelled();
    } else {
      AreItemsRest(items, taken);
      SpelledNoNul(items[1..], taken);
    }
  }

  lemma {:induction false} CStrWhole(s: Str)
    requires 0 !in s
    ensures CStr(s) == s
  {
    if s != [] {
      CStrWhole(s[1..]);
    }
  }

  lemma NameSrcRead(n: Str, w: Str, tail: Str)
    requires IsNameSrc(n) && IsBlank(w)
    ensures var r := AttrName(n[0], n[1..] + (w + ([EQ] + tail)));
            r.Scan? && EOF <= r.ch && r.buf == n && SkipSpace(r.ch, r.rest) == Scan(EQ, [], tail)
  {
    hide Bare, TextOf, Next, SkipSpace, EndsName;
    NameChars(n[1..]);
    assert n == [n[0]] + n[1..];
    BlankEnds(w);
    if w == [] {
      assert w + ([EQ] + tail) == [EQ] + tail;
      BareRead(n[1..], EQ, tail, [n[0]]);
      NoBlank(EQ, tail);
    } else {
      assert w + ([EQ] + tail) == [w[0]] + (w[1..] + ([EQ] + tail));
      BareRead(n[1..], w[0], w[1..] + ([EQ] + tail), [n[0]]);
      BlankFirst(w, EQ, tail);
    }
  }

  lemma BlankEnds(w: Str)
    requires IsBlank(w)
    ensures EndsName(EQ) && (w != [] ==> EndsName(w[0]) && Legal(w[0]) && w[0] < 0x80)
  {
  }

  lemma NoBlank(b: byte, s: Str)
    requires b !in {9, 10, 13, 32}
    ensures SkipSpace(b, s) == Scan(b, [], s)
  {
  }

  lemma BlankFirst(w: Str, b: byte, tail: Str)
    requires IsBlank(w) && w != [] && Legal(b) && b < 0x80 && b !in {9, 10, 13, 32}
    ensures SkipSpace(w[0], w[1..] + ([b] + tail)) == Scan(b, [], tail)
  {
    hide Next;
    BlanksSkipped(w[1..], b, tail);
  }

  lemma NameSrcString(n: Str)
    requires IsNameSrc(n)
    ensures CStr(n) == n
  {
    hide TextOf, IsText, CStr;
    NameChars(n[1..]);
    TextOfIsText(n[1..], AttrNameChar);
    TextHasNoNul(n[1..]);
    assert n == [n[0]] + n[1..];
    CStrWhole(n);
  }

  lemma ValueStart(quote: Quote, items: seq<Item>, s: Str)
    requires IsValueSrc(quote, items)
    ensures var t := ValueText(quote, items) + s;
            t != [] && Legal(t[0]) && t[0] < 0x80 && t[0] !in {9, 10, 13, 32}
  {
    hide ItemText;
    if quote.Unquoted? {
      BareStart(items);
    }
  }

  lemma BareStart(items: seq<Item>)
    requires IsValueSrc(Unquoted, items)
    ensures ItemsText(items) == [items[0].ch] + ItemsText(items[1..])
    ensures Spelled(items) == [items[0].ch] + Spelled(items[1..])
  {
    EncodesAs1(items[0].ch);
  }

  lemma QuotedValueRead(q: byte, items: seq<Item>, s: Str)
    requires (q == 34 || q == 39) && AreItems(items, {q as nat})
    ensures AttrValue(q, ItemsText(items) + ([q] + s)) == Scan(q, Spelled(items), s)
    ensures CStr(Spelled(items)) == Spelled(items)
  {
    hide Quoted, AreItems;
    QuotedItems(items, q, s, []);
    assert [] + Spelled(items) == Spelled(items);
    SpelledNoNul(items, {q as nat});
    CStrWhole(Spelled(items));
  }

  lemma BareValueRead(items: seq<Item>, e: byte, s: Str)
    requires IsValueSrc(Unquoted, items) && e in {9, 10, 13, 32, 47, 62}
    ensures AttrValue(items[0].ch, ItemsText(items[1..]) + ([e] + s)) == Scan(e, Spelled(items), s)
    ensures CStr(Spelled(items)) == Spelled(items)
  {
    hide Bare, AreItems, Spelled, ItemsText, CStr, EndsValue, IsItem, Legal;
    BareStart(items);
    BareItems(items[1..], e, s, [items[0].ch]);
    SpelledNoNul(items[1..], {9, 10, 13, 32, 47, 61, 62});
    CStrWhole(Spelled(items));
  }

  /** The character behind a value, and the rest: after a closing quote that quote. */
  function ValueEnd(quote: Quote, after: Str): (e: (nat, Str))
    requires Follows(quote, after)
  {
    match quote
    case Double => (QUOT as nat, after)
    case Single => (APOS as nat, after)
    case Unquoted => (after[0] as nat, after[1..])
  }

  lemma ValueRead(quote: Quote, items: seq<Item>, after: Str)
    requires IsValueSrc(quote, items) && Follows(quote, after)
    ensures var t, end := ValueText(quote, items) + after, ValueEnd(quote, after);
            t != [] && AttrValue(t[0], t[1..]) == Scan(end.0, Spelled(items), end.1)
    ensures CStr(Spelled(items)) == Spelled(items)
  {
    hide AttrValue, AreItems, Spelled, CStr, ItemsText, IsItem;
    var t := ValueText(quote, items) + after;
    match quote
    case Double =>
      assert t == [QUOT] + (ItemsText(items) + ([QUOT] + after));
      QuotedValueRead(QUOT, items, after);
    case Single =>
      assert t == [APOS] + (ItemsText(items) + ([APOS] + after));
      QuotedValueRead(APOS, items, after);
    case Unquoted =>
      BareStart(items);
      assert t == [items[0].ch] + (ItemsText(items[1..]) + ([after[0]] + after[1..]));
      BareValueRead(items, after[0], after[1..]);
  }

  /** What follows the first byte of an attribute's name. */
  function AfterStart(a: AttrSrc, after: Str): Str
    requires a.name != []
  {
    a.name[1..] + (a.eqBefore + ([EQ] + (a.eqAfter + (ValueText(a.quote, a.items) + after))))
  }

  lemma AttrScanned(a: AttrSrc, after: Str, done: seq<Attr>)
    requires IsAttrSrc(a) && !HasAttr(done, a.name) && Follows(a.quote, after)
    ensures var end := ValueEnd(a.quote, after);
            ScanAttr(a.name[0], AfterStart(a, after), done) == AttrScan(AttrOf(a), end.0, end.1)
  {
    hide AttrName, AttrValue, Next, SkipSpace, IsValueSrc, HasAttr, CStr, TextOf, Spelled, ItemsText, ValueText, ValueEnd;
    var v := ValueText(a.quote, a.items) + after;
    NameSrcRead(a.name, a.eqBefore, a.eqAfter + v);
    NameSrcString(a.name);
    ValueStart(a.quote, a.items, after);
    assert v == [v[0]] + v[1..];
    BlanksSkipped(a.eqAfter, v[0], v[1..]);
    ValueRead(a.quote, a.items, after);
  }

  /** An attribute is parsed, whatever the white space and the quotes. */
  lemma AttrSrcRead(a: AttrSrc, after: Str, done: seq<Attr>)
    requires IsAttrSrc(a) && !HasAttr(done, a.name) && Follows(a.quote, after)
    ensures ParseElement(AttrText(a) + after, done) == ParseElement(after, done + [AttrOf(a)])
  {
    hide ScanAttr, Next, IsValueSrc, HasAttr, AttrOf, ItemsText, ValueText, AfterStart, TextOf, ParseElement, IsBlank;
    var rest := AfterStart(a, after);
    AttrTextSplits(a, after);
    BlanksInTag(a.before, [a.name[0]] + rest, done);
    AttrScanned(a, after, done);
    NextAscii(a.name[0], rest);
    AttrParsed(a.name[0], rest, done, a.quote, AttrOf(a), after);
  }

  lemma AttrTextSplits(a: AttrSrc, after: Str)
    requires a.name != []
    ensures AttrText(a) + after == a.before + ([a.name[0]] + AfterStart(a, after))
  {
    hide ValueText;
    assert a.name == [a.name[0]] + a.name[1..];
    assert AttrText(a) + after
        == a.before + (a.name + (a.eqBefore + ([EQ] + (a.eqAfter + (ValueText(a.quote, a.items) + after)))));
  }

  // From a scanned attribute the parser goes on behind it.
  lemma AttrParsed(b: byte, rest: Str, done: seq<Attr>, quote: Quote, attr: Attr, after: Str)
    requires 33 <= b < 0x80 && b !in {47, 60, 62, 63}
    requires Next([b] + rest) == Scan(b, [], rest) && Follows(quote, after)
    requires var end := ValueEnd(quote, after); ScanAttr(b, rest, done) == AttrScan(attr, end.0, end.1)
    ensures ParseElement([b] + rest, done) == ParseElement(after, done + [attr])
  {
    hide ScanAttr, Next, ExpectGt;
    if quote.Unquoted? {
      assert after == [after[0]] + after[1..];
      NextAscii(after[0], after[1..]);
    }
  }

  function AttrsText(attrs: seq<AttrSrc>): Str {
    if attrs == [] then [] else AttrText(attrs[0]) + AttrsText(attrs[1..])
  }

  function Attrs(attrs: seq<AttrSrc>): (r: seq<Attr>)
    ensures |r| == |attrs|
    ensures forall k :: 0 <= k < |attrs| ==> r[k] == AttrOf(attrs[k])
  {
    if attrs == [] then [] else [AttrOf(attrs[0])] + Attrs(attrs[1..])
  }

  /** White space sets attributes off from the tag's name and from a bare value; no name comes twice. */
  predicate AreAttrSrcs(attrs: seq<AttrSrc>) {
    && (forall k :: 0 <= k < |attrs| ==> IsAttrSrc(attrs[k]))
    && (attrs != [] ==> attrs[0].before != [])
    && (forall k :: 0 < k < |attrs| && attrs[k - 1].quote.Unquoted? ==> attrs[k].before != [])
    && (forall j, k :: 0 <= j < k < |attrs| ==> attrs[j].name != attrs[k].name)
  }

  // From the k-th attribute on.
  lemma {:induction false} AttrSrcsRead(attrs: seq<AttrSrc>, k: nat, after: Str)
    requires AreAttrSrcs(attrs) && k <= |attrs|
    requires after != [] && after[0] in {9, 10, 13, 32, 47, 62}
    ensures ParseElement(AttrsText(attrs[k..]) + after, Attrs(attrs)[..k]) == ParseElement(after, Attrs(attrs))
    decreases |attrs| - k
  {
    hide ParseElement, IsAttrSrc, AttrText, AttrOf, HasAttr, Attrs;
    if k == |attrs| {
      assert attrs[k..] == [] && AttrsText(attrs[k..]) + after == after;
      assert Attrs(attrs)[..k] == Attrs(attrs);
    } else {
      var rest := AttrsText(attrs[k + 1..]) + after;
      assert attrs[k..][1..] == attrs[k + 1..];
      assert AttrsText(attrs[k..]) + after == AttrText(attrs[k]) + rest;
      SetOff(attrs, k, after);
      NewName(attrs, k);
      AttrSrcRead(attrs[k], rest, Attrs(attrs)[..k]);
      assert Attrs(attrs)[..k] + [AttrOf(attrs[k])] == Attrs(attrs)[..k + 1];
      AttrSrcsRead(attrs, k + 1, after);
    }
  }

  lemma SetOff(attrs: seq<AttrSrc>, k: nat, after: Str)
    requires AreAttrSrcs(attrs) && k < |attrs|
    requires after != [] && after[0] in {9, 10, 13, 32, 47, 62}
    ensures Follows(attrs[k].quote, AttrsText(attrs[k + 1..]) + after)
  {
    hide IsNameSrc, IsValueSrc, ValueText;
    if k + 1 < |attrs| && attrs[k].quote.Unquoted? {
      var a := attrs[k + 1];
      assert IsAttrSrc(a) && a.before != [] && a.before[0] in {9, 10, 13, 32};
      assert attrs[k + 1..][0] == a && AttrText(a)[0] == a.before[0];
      assert AttrsText(attrs[k + 1..])[0] == a.before[0];
    } else if k + 1 == |attrs| {
      assert attrs[k + 1..] == [] && AttrsText(attrs[k + 1..]) + after == after;
    }
  }

  lemma NewName(attrs: seq<AttrSrc>, k: nat)
    requires AreAttrSrcs(attrs) && k < |attrs|
    ensures !HasAttr(Attrs(attrs)[..k], attrs[k].name)
  {
    hide IsAttrSrc, Attrs, Spelled, HasAttr;
    var done := Attrs(attrs)[..k];
    forall i | 0 <= i < |done| ensures done[i].name != attrs[k].name {
      assert done[i] == AttrOf(attrs[i]);
    }
    NotAmong(done, attrs[k].name);
  }

  lemma NotAmong(done: seq<Attr>, name: Str)
    requires forall i :: 0 <= i < |done| ==> done[i].name != name
    ensures !HasAttr(done, name)
  {
  }

  // ---- tags ----

  /** An element's name: characters from 0 on but the angle brackets, and ! - and . behind a first one that is
      not ! or ? */
  predicate IsTagSrc(n: Str) {
    n != [] && n[0] !in {33, 63} && TextOf(n, TagSrcChar)
  }

  predicate TagSrcChar(c: int) {
    c in {33, 45, 46} || (c >= 48 && c != 60 && c != 62)
  }

  lemma {:induction false} TagChars(t: Str)
    requires TextOf(t, TagSrcChar)
    ensures TextOf(t, TagChar)
    decreases |t|
  {
    hide Getc, Encode;
    if t != [] {
      TagChars(Getc(t).rest);
    }
  }

  lemma TagSrcName(n: Str)
    requires IsTagSrc(n)
    ensures IsElementName(n) && n[0] !in {QM, EXCL, SLASH}
  {
    hide Getc, TextOf, Next, Encode;
    TagChars(n);
    FirstOfTag(n);
  }

  lemma FirstOfTag(n: Str)
    requires IsTagSrc(n)
    ensures n[0] != SLASH
  {
    hide Encode;
    TextSplits(n);
    FirstByte(Getc(n).ch);
  }

  /** What closes a tag: `>`, or `/>` for an element without an end tag. */
  function TagClose(closed: bool): Str {
    if closed then [SLASH, GT] else [GT]
  }

  lemma CloseRead(closed: bool, s: Str, attrs: seq<Attr>)
    ensures ParseElement(TagClose(closed) + s, attrs) == TagScan(if closed then SLASH else GT, attrs, s)
  {
    hide ParseElement;
    TagEndRead(true, attrs, s);
    TagEndRead(false, attrs, s);
  }

  /** The rest of a tag behind its name. */
  function TagRest(attrs: seq<AttrSrc>, trail: Str, closed: bool, s: Str): Str {
    AttrsText(attrs) + (trail + (TagClose(closed) + s))
  }

  lemma TagRestRead(attrs: seq<AttrSrc>, trail: Str, closed: bool, s: Str)
    requires AreAttrSrcs(attrs) && IsBlank(trail)
    ensures var t := TagRest(attrs, trail, closed, s);
            && t != [] && t[0] in {9, 10, 13, 32, 47, 62}
            && ParseElement(t, []) == TagScan(if closed then SLASH else GT, Attrs(attrs), s)
  {
    hide ParseElement, IsAttrSrc, Attrs;
    var after := trail + (TagClose(closed) + s);
    assert after[0] in {9, 10, 13, 32, 47, 62};
    AttrSrcsRead(attrs, 0, after);
    assert attrs[0..] == attrs && Attrs(attrs)[..0] == [];
    BlanksInTag(trail, TagClose(closed) + s, Attrs(attrs));
    CloseRead(closed, s, Attrs(attrs));
    TagRestStart(attrs, after);
  }

  lemma TagRestStart(attrs: seq<AttrSrc>, after: Str)
    requires AreAttrSrcs(attrs) && after != [] && after[0] in {9, 10, 13, 32, 47, 62}
    ensures var t := AttrsText(attrs) + after;
            t != [] && t[0] in {9, 10, 13, 32, 47, 62}
  {
    hide IsNameSrc, IsValueSrc, ValueText;
    if attrs != [] {
      var a := attrs[0];
      assert IsAttrSrc(a) && a.before[0] in {9, 10, 13, 32};
      assert AttrText(a)[0] == a.before[0];
    }
  }

  // Whatever ends the name, the rest of the tag is parsed from there.
  lemma RestFromName(st: State, name: Str, t: Str)
    requires t != [] && t[0] in {9, 10, 13, 32, 47, 62} && !SecondRoot(st)
    requires ParseElement(t, []).TagScan? && ParseElement(t, []).ch in {SLASH as int, GT as int}
    ensures var p := ParseElement(t, []);
            OpenElement(st, Scan(t[0], name, t[1..])) == Step(Opened(st, Element(name, p.attrs), p.ch == GT), p.rest)
  {
    hide Next, AddNode, ExpectGt;
    assert t == [t[0]] + t[1..];
    NextAscii(t[0], t[1..]);
  }

  /** An opening tag makes its element. */
  lemma OpenSrcRead(name: Str, attrs: seq<AttrSrc>, trail: Str, closed: bool, s: Str, st: State)
    requires IsTagSrc(name) && AreAttrSrcs(attrs) && IsBlank(trail) && !SecondRoot(st)
    ensures Tag(st, name + TagRest(attrs, trail, closed, s)) == Step(Opened(st, Element(name, Attrs(attrs)), !closed), s)
  {
    hide Tag, TagName, TextOf, ParseElement, OpenElement, Opened, TagRest, AreAttrSrcs, IsBlank;
    var t := TagRest(attrs, trail, closed, s);
    TagSrcName(name);
    TagRestRead(attrs, trail, closed, s);
    assert t == [t[0]] + t[1..];
    TagNameRead(name, t[0], t[1..], []);
    assert [] + name == name;
    TagOfElement(st, name + t);
    RestFromName(st, name, t);
  }

  /** An end tag, with white space or without. */
  lemma EndSrcRead(n: Str, trail: Str, s: Str, st: State)
    requires IsTagSrc(n) && IsBlank(trail)
    ensures Tag(st, [SLASH] + (n + (trail + ([GT] + s))))
            == if st.parent.Push? && st.parent.name == n
               then Step(AddNode(st.(parent := st.parent.up), Element(n, st.parent.attrs), st.parent.kids), s)
               else Failed(Malformed)
  {
    hide Next, TagName, TextOf, AddNode, SkipToGt, IsBlank;
    var t := trail + ([GT] + s);
    TagSrcName(n);
    NextAscii(SLASH, n + t);
    SlashRead(n + t);
    BlankOrGt(trail, s);
    assert t == [t[0]] + t[1..];
    TagNameRead(n, t[0], t[1..], [SLASH]);
    assert ([SLASH] + n)[1..] == n;
  }

  lemma {:induction false} BlanksToGt(w: Str, s: Str)
    requires IsBlank(w)
    ensures var n := Next(w + ([GT] + s)); n.Scan? && EOF <= n.ch && SkipToGt(n.ch, n.rest) == Scan(GT, [], s)
    decreases |w|
  {
    hide Next;
    if w == [] {
      assert w + ([GT] + s) == [GT] + s;
      NextAscii(GT, s);
    } else {
      assert w + ([GT] + s) == [w[0]] + (w[1..] + ([GT] + s));
      NextBlank(w[0], w[1..] + ([GT] + s));
      BlanksToGt(w[1..], s);
    }
  }

  lemma BlankOrGt(w: Str, s: Str)
    requires IsBlank(w)
    ensures var t := w + ([GT] + s);
            && t != [] && (IsSpace(t[0]) || t[0] == GT) && Next(t) == Scan(t[0], [], t[1..])
            && SkipToGt(t[0], t[1..]) == Scan(GT, [], s)
  {
    hide Next, SkipToGt;
    BlanksToGt(w, s);
    if w == [] {
      assert w + ([GT] + s) == [GT] + s;
      NextAscii(GT, s);
    } else {
      assert w + ([GT] + s) == [w[0]] + (w[1..] + ([GT] + s));
      NextBlank(w[0], w[1..] + ([GT] + s));
    }
  }

  // ---- comments, CDATA sections, instructions and declarations ----

  datatype Special = Comment(t: Str) | Cdata(t: Str) | Instruction(t: Str) | Declared(name: Str, more: Str)

  /** A special element's name, as a tree holds it. */
  function SpecialName(x: Special): Str {
    match x
    case Comment(t) => [33, 45, 45] + t + [45, 45]
    case Cdata(t) => [33, 91, 67, 68, 65, 84, 65, 91] + t
    case Instruction(t) => [63] + t + [63]
    case Declared(name, more) => [33] + name + more
  }

  /** The two bytes do not stand before a `>`, behind the first two. */
  predicate NoEnd(t: Str, b: byte) {
    forall i :: 2 <= i < |t| && t[i] == 62 ==> !(t[i - 2] == b && t[i - 1] == b)
  }

  /** Text without what ends it: --> in a comment, which does not end in a dash itself, ]]> in a CDATA section, ?> in
      an instruction, > and & in a declaration. */
  predicate IsSpecialSrc(x: Special) {
    match x
    case Comment(t) => IsText(t) && t != [] && t[|t| - 1] != 45 && NoEnd(t, 45)
    case Cdata(t) => IsText(t) && NoEnd(t, 93)
    case Instruction(t) => IsText(t) && forall i :: 0 <= i < |t| && t[i] == 62 ==> i > 0 && t[i - 1] != 63
    case Declared(name, more) =>
      && TextOf(name, TagSrcChar) && TextOf(more, DeclaredChar) && (more != [] ==> more[0] in {9, 10, 13, 32, 47})
      && !([45, 45] <= name) && !([91, 67, 68, 65, 84, 65, 91] <= name)
  }

  predicate DeclaredChar(c: int) {
    c != 38 && c != 62
  }

  lemma {:induction false} TextJoin(a: Str, b: Str)
    requires IsText(a) && IsText(b)
    ensures IsText(a + b)
    decreases |a|
  {
    hide Encode, Getc;
    if a == [] {
      assert a + b == b;
    } else {
      TextSplits(a);
      NextInText(a, b);
      TextJoin(Getc(a).rest, b);
      NoBom(a, b);
    }
  }

  lemma AsciiIsText(b: byte)
    requires 32 <= b < 0x80
    ensures IsText([b])
  {
    assert [b][1..] == [];
  }

  lemma CommentSrc(t: Str)
    requires IsSpecialSrc(Comment(t))
    ensures IsComment(SpecialName(Comment(t)))
  {
    hide IsText;
    var n := SpecialName(Comment(t));
    AsciiIsText(45);
    TextJoin(t, [45]);
    TextJoin(t + [45], [45]);
    assert n[3..] == t + [45] + [45];
    forall i | 3 <= i < |n| && n[i] == GT ensures !EndsComment(n[..i]) {
      var k := i - 3;
      assert k < |t| && t[k] == GT;
      if k >= 2 {
        assert n[..i][|n[..i]| - 2] == t[k - 2] && n[..i][|n[..i]| - 1] == t[k - 1];
      }
    }
  }

  lemma CdataSrc(t: Str)
    requires IsSpecialSrc(Cdata(t))
    ensures IsCdata(SpecialName(Cdata(t)))
  {
    hide IsText;
    var n := SpecialName(Cdata(t));
    var whole := n + [RBRACK, RBRACK];
    assert n[8..] == t;
    forall i | 8 <= i < |whole| && whole[i] == GT ensures !EndsCdata(whole[..i]) {
      var k := i - 8;
      assert k < |t| && t[k] == GT;
      if k >= 2 {
        assert whole[..i][|whole[..i]| - 2] == t[k - 2] && whole[..i][|whole[..i]| - 1] == t[k - 1];
      }
    }
  }

  lemma InstructionSrc(t: Str)
    requires IsSpecialSrc(Instruction(t))
    ensures IsDirective(SpecialName(Instruction(t)))
  {
    hide IsText;
    var n := SpecialName(Instruction(t));
    AsciiIsText(63);
    TextJoin(t, [63]);
    assert n[1..] == t + [63];
    forall i | 1 <= i < |n| && n[i] == GT ensures !EndsDirective(n[..i]) {
      assert t[i - 1] == GT && n[..i][|n[..i]| - 1] == t[i - 2];
    }
  }

  /** The shortest instruction is a question mark alone. */
  lemma ShortestInstruction(s: Str, st: State)
    requires !SecondRoot(st)
    ensures Tag(st, [63, 62] + s)
            == Step(if st.parent.Empty? then Descend(st, [63], []) else AddNode(st, Element([63], []), Nil), s)
  {
    hide Tag, AddNode;
    assert [63][1..] == [] && IsText([]);
    assert IsDirective([63]);
    DirectiveRead([63], s, st);
    assert [63, 62] + s == [63] + ([GT] + s);
  }

  lemma {:induction false} DeclaredText(name: Str, more: Str)
    requires TextOf(name, TagSrcChar) && TextOf(more, DeclaredChar)
    requires more != [] ==> more[0] in {9, 10, 13, 32, 47}
    ensures IsDeclarationText(name + more)
    decreases |name|
  {
    hide Getc, Encode;
    if name == [] {
      assert name + more == more;
      DeclaredRest(more);
      if more != [] {
        FirstDeclared(more);
      }
    } else {
      TextSplits(name);
      NextInText(name, more);
      NoBom(name, more);
      DeclaredText(Getc(name).rest, more);
    }
  }

  lemma {:induction false} DeclaredRest(t: Str)
    requires TextOf(t, DeclaredChar)
    ensures TextOf(t, DeclarationChar)
    decreases |t|
  {
    hide Getc, Encode;
    if t != [] {
      DeclaredRest(Getc(t).rest);
    }
  }

  lemma FirstDeclared(more: Str)
    requires more != [] && more[0] in {9, 10, 13, 32, 47}
    ensures Getc(more).Char? && Getc(more).ch == more[0]
  {
  }

  lemma DeclaredSrc(name: Str, more: Str)
    requires IsSpecialSrc(Declared(name, more))
    ensures IsDeclaration(SpecialName(Declared(name, more)))
  {
    hide TextOf, IsDeclarationText;
    var n := SpecialName(Declared(name, more));
    DeclaredText(name, more);
    assert n[1..] == name + more;
    OtherStart(name, more, COMMENT);
    OtherStart(name, more, CDATA);
  }

  lemma OtherStart(name: Str, more: Str, prefix: Str)
    requires prefix != [] && !(prefix[1..] <= name) && (more != [] ==> more[0] in {9, 10, 13, 32, 47})
    requires forall i :: 0 < i < |prefix| ==> prefix[i] !in {9, 10, 13, 32, 47}
    ensures !(prefix <= [33] + name + more)
  {
    var n := [33] + name + more;
    if prefix <= n {
      RestOfPrefix(prefix, n);
      assert n[1..] == name + more;
      ShortName(name, more, prefix[1..]);
    }
  }

  lemma RestOfPrefix(prefix: Str, n: Str)
    requires prefix <= n && prefix != []
    ensures prefix[1..] <= n[1..]
  {
  }

  // A prefix without white space or slash lies in the name.
  lemma ShortName(name: Str, more: Str, prefix: Str)
    requires prefix <= name + more && (more != [] ==> more[0] in {9, 10, 13, 32, 47})
    requires forall i :: 0 <= i < |prefix| ==> prefix[i] !in {9, 10, 13, 32, 47}
    ensures prefix <= name
  {
    var n := name + more;
    assert forall i :: 0 <= i < |prefix| ==> prefix[i] == n[i];
    assert more != [] ==> n[|name|] == more[0];
  }

  lemma SpecialSrcName(x: Special)
    requires IsSpecialSrc(x)
    ensures IsSpecial(SpecialName(x))
    ensures x.Instruction? || x.Declared? ==> IsProlog(SpecialName(x))
  {
    hide SpecialName, IsSpecialSrc, IsComment, IsCdata, IsDirective, IsDeclaration;
    match x
    case Comment(t) => CommentSrc(t);
    case Cdata(t) => CdataSrc(t);
    case Instruction(t) => InstructionSrc(t);
    case Declared(name, more) => DeclaredSrc(name, more);
  }

  // ---- elements and their contents ----

  /** A row of text, elements and special elements. */
  datatype Src =
    | Nothing
    | Text(items: seq<Item>, rest: Src)
    | Tagged(name: Str, attrs: seq<AttrSrc>, trail: Str, closed: bool, kids: Src, endTrail: Str, rest: Src)
    | Marked(x: Special, rest: Src)

  /** An end tag and what follows. */
  function EndText(name: Str, trail: Str, after: Str): Str {
    [LT] + ([SLASH] + (name + (trail + ([GT] + after))))
  }

  /** The tree it spells. */
  function SrcDoc(d: Src): Doc {
    match d
    case Nothing => Nil
    case Text(items, rest) => Cons(Opaque(Spelled(items)), Nil, SrcDoc(rest))
    case Tagged(name, attrs, _, closed, kids, _, rest) =>
      Cons(Element(name, Attrs(attrs)), if closed then Nil else SrcDoc(kids), SrcDoc(rest))
    case Marked(x, rest) => Cons(Element(SpecialName(x), []), Nil, SrcDoc(rest))
  }

  predicate IsSrc(d: Src) {
    match d
    case Nothing => true
    case Text(items, rest) => items != [] && AreItems(items, {60}) && !rest.Text? && IsSrc(rest)
    case Tagged(name, attrs, trail, closed, kids, endTrail, rest) =>
      && IsTagSrc(name) && AreAttrSrcs(attrs) && IsBlank(trail) && IsBlank(endTrail)
      && (!closed ==> IsSrc(kids)) && IsSrc(rest)
    case Marked(x, rest) => IsSpecialSrc(x) && IsSrc(rest)
  }

  predicate LastIsText(d: Src) {
    match d
    case Nothing => false
    case Text(_, rest) => rest.Nothing? || LastIsText(rest)
    case Tagged(_, _, _, _, _, _, rest) => LastIsText(rest)
    case Marked(_, rest) => LastIsText(rest)
  }

  /** The row as it is written, with something behind it. */
  function Before(d: Src, s: Str): Str {
    match d
    case Nothing => s
    case Text(items, rest) => ItemsText(items) + Before(rest, s)
    case Tagged(name, attrs, trail, closed, kids, endTrail, rest) =>
      var after := Before(rest, s);
      [LT] + (name + TagRest(attrs, trail, closed, if closed then after else Before(kids, EndText(name, endTrail, after))))
    case Marked(x, rest) => [LT] + (SpecialText(SpecialName(x)) + ([GT] + Before(rest, s)))
  }

  // ---- what it loads as ----

  lemma SpelledSome(items: seq<Item>)
    requires AreItems(items, {60}) && items != []
    ensures Spelled(items) != []
  {
    hide AreItems;
    AreItemsRest(items, {60});
  }

  lemma TagNext(d: Src, s: Str)
    requires !d.Text? && (d.Nothing? ==> At(s, 0) == LT)
    ensures At(Before(d, s), 0) == LT
  {
    hide TagRest, SpecialText, SpecialName;
  }

  /** Inside an element, a row of source is read as the nodes it spells, whatever follows it; after a last text a
      tag must follow. */
  lemma {:induction false} SrcRead(d: Src, s: Str, st: State)
    requires IsSrc(d) && Inside(st) && (LastIsText(d) ==> At(s, 0) == LT)
    ensures LoadLoop(Before(d, s), st) == LoadLoop(s, AddAll(st, SrcDoc(d)))
    decreases d, 0
  {
    hide LoadLoop, AreItems, IsTagSrc, AreAttrSrcs, IsBlank, IsSpecialSrc, TagRest, SpecialName, Spelled, Attrs;
    match d {
      case Nothing =>
        AppendNil(st.parent.kids);
      case Text(items, rest) =>
        TextSrcRead(items, rest, s, st);
        var v := Opaque(Spelled(items));
        AppendAssoc(st.parent.kids, Cons(v, Nil, Nil), SrcDoc(rest));
        SrcRead(rest, s, AddNode(st, v, Nil));
      case Tagged(name, attrs, trail, closed, kids, endTrail, rest) =>
        var v, below := Element(name, Attrs(attrs)), if closed then Nil else SrcDoc(kids);
        TaggedRead(d, Before(rest, s), st);
        AppendAssoc(st.parent.kids, Cons(v, below, Nil), SrcDoc(rest));
        SrcRead(rest, s, AddNode(st, v, below));
      case Marked(x, rest) =>
        var v := Element(SpecialName(x), []);
        MarkedRead(x, Before(rest, s), st);
        AppendAssoc(st.parent.kids, Cons(v, Nil, Nil), SrcDoc(rest));
        SrcRead(rest, s, AddNode(st, v, Nil));
    }
  }

  lemma TextSrcRead(items: seq<Item>, rest: Src, s: Str, st: State)
    requires items != [] && AreItems(items, {60}) && !rest.Text? && (rest.Nothing? ==> At(s, 0) == LT) && Inside(st)
    ensures LoadLoop(ItemsText(items) + Before(rest, s), st)
            == LoadLoop(Before(rest, s), AddNode(st, Opaque(Spelled(items)), Nil))
  {
    hide LoadLoop, AreItems, Before, ItemsText, Spelled;
    TextItems(items, Before(rest, s), st);
    assert [] + Spelled(items) == Spelled(items);
    SpelledSome(items);
    TagNext(rest, s);
    LoadFlushed(Before(rest, s), st.(buf := Spelled(items)));
  }

  lemma MarkedRead(x: Special, after: Str, st: State)
    requires IsSpecialSrc(x) && Inside(st)
    ensures LoadLoop([LT] + (SpecialText(SpecialName(x)) + ([GT] + after)), st)
            == LoadLoop(after, AddNode(st, Element(SpecialName(x), []), Nil))
  {
    hide LoadLoop, Tag, IsSpecialSrc, SpecialName, SpecialText, IsSpecial;
    var n := SpecialName(x);
    SpecialSrcName(x);
    SpecialRead(Element(n, []), 0, 0, after, st);
    LoadTag(SpecialText(n) + ([GT] + after), st);
    assert SpecialText(n) + [GT] + after == SpecialText(n) + ([GT] + after);
  }

  /** An element is read with all it contains, inside another one or as the root. */
  lemma {:induction false} TaggedRead(d: Src, after: Str, st: State)
    requires d.Tagged? && IsSrc(d) && st.buf == [] && !SecondRoot(st)
    ensures var inner := if d.closed then after else Before(d.kids, EndText(d.name, d.endTrail, after));
            LoadLoop([LT] + (d.name + TagRest(d.attrs, d.trail, d.closed, inner)), st)
            == LoadLoop(after, AddNode(if d.closed then st else st.(opaqueType := true), Element(d.name, Attrs(d.attrs)),
                                       if d.closed then Nil else SrcDoc(d.kids)))
    decreases d.kids, 1
  {
    hide LoadLoop, Tag, IsTagSrc, AreAttrSrcs, IsBlank, TagRest, Spelled, Attrs, AddNode, IsSpecialSrc, AreItems;
    var v := Element(d.name, Attrs(d.attrs));
    var inner := if d.closed then after else Before(d.kids, EndText(d.name, d.endTrail, after));
    OpenSrcRead(d.name, d.attrs, d.trail, d.closed, inner, st);
    LoadTag(d.name + TagRest(d.attrs, d.trail, d.closed, inner), st);
    AddNodeKeeps(st, v, Nil);
    if !d.closed {
      var open := Descend(st, d.name, v.attrs);
      SrcRead(d.kids, EndText(d.name, d.endTrail, after), open);
      var full := AddAll(open, SrcDoc(d.kids));
      assert full.parent.kids == SrcDoc(d.kids);
      LoadTag([SLASH] + (d.name + (d.endTrail + ([GT] + after))), full);
      EndSrcRead(d.name, d.endTrail, after, full);
      AddNodeKeeps(st.(opaqueType := true), v, SrcDoc(d.kids));
    }
  }

  // ---- documents ----

  /** A root element in white space loads as the tree it spells. */
  lemma DocumentLoads(lead: Str, root: Src, end: Str)
    requires IsBlank(lead) && IsBlank(end) && root.Tagged? && root.rest.Nothing? && IsSrc(root)
    ensures Load(lead + Before(root, end)) == Tree(SrcDoc(root))
  {
    hide LoadLoop, IsSrc, TagRest, Attrs, IsBlank;
    BlanksOutside(lead, Before(root, end));
    TaggedRead(root, end, START);
    var v, kids := Element(root.name, Attrs(root.attrs)), if root.closed then Nil else SrcDoc(root.kids);
    var opaqueType := !root.closed;
    BlanksAtEnd(end, AddNode(START.(opaqueType := opaqueType), v, kids));
  }

  /** Below an instruction or a declaration that comes first the rest of the document loads as its contents; text
      at the very end, such as a line break, is lost. */
  lemma PrologLoads(lead: Str, x: Special, below: Src, end: seq<Item>)
    requires IsBlank(lead) && (x.Instruction? || x.Declared?) && IsSpecialSrc(x)
    requires IsSrc(below) && !LastIsText(below) && AreItems(end, {60})
    ensures Load(lead + ([LT] + (SpecialName(x) + ([GT] + Before(below, ItemsText(end))))))
            == Tree(Cons(Element(SpecialName(x), []), SrcDoc(below), Nil))
  {
    hide LoadLoop, Tag, IsSrc, IsBlank, IsSpecialSrc, SpecialName, IsProlog, AreItems, ItemsText, Spelled;
    var n := SpecialName(x);
    var inner := Before(below, ItemsText(end));
    BlanksOutside(lead, [LT] + (n + ([GT] + inner)));
    SpecialSrcName(x);
    PrologRead(n, inner, START);
    LoadTag(n + ([GT] + inner), START);
    var open := Descend(START, n, []);
    SrcRead(below, ItemsText(end), open);
    TextEnds(end, AddAll(open, SrcDoc(below)));
  }

  // Text at the end of the input stays in the buffer.
  lemma TextEnds(end: seq<Item>, st: State)
    requires AreItems(end, {60}) && st.opaqueType
    ensures LoadLoop(ItemsText(end), st) == Finish(st)
  {
    hide LoadLoop, AreItems, Spelled, ItemsText;
    assert ItemsText(end) + [] == ItemsText(end);
    TextItems(end, [], st);
    LoadEnd([], st.(buf := st.buf + Spelled(end)));
  }

  // ---- what is no document ----

  /** Input that ends inside an element is refused, unless only the root is open, which is then returned as it is. */
  lemma Unfinished(d: Src, end: seq<Item>, st: State)
    requires IsSrc(d) && !LastIsText(d) && Inside(st) && AreItems(end, {60})
    ensures LoadLoop(Before(d, ItemsText(end)), st)
            == if st.parent.up.Empty?
               then Tree(Cons(Element(st.parent.name, st.parent.attrs), Append(st.parent.kids, SrcDoc(d)), Nil))
               else Null
  {
    hide LoadLoop, IsSrc, AreItems, ItemsText;
    SrcRead(d, ItemsText(end), st);
    TextEnds(end, AddAll(st, SrcDoc(d)));
  }

  /** The end tag of another element is refused, at any depth, whatever follows. */
  lemma WrongEndTag(d: Src, n: Str, trail: Str, s: Str, st: State)
    requires IsSrc(d) && Inside(st) && IsTagSrc(n) && IsBlank(trail) && n != st.parent.name
    ensures LoadLoop(Before(d, EndText(n, trail, s)), st) == Null
  {
    hide LoadLoop, IsSrc, Tag, IsTagSrc, IsBlank;
    SrcRead(d, EndText(n, trail, s), st);
    var full := AddAll(st, SrcDoc(d));
    LoadTag([SLASH] + (n + (trail + ([GT] + s))), full);
    EndSrcRead(n, trail, s, full);
  }

  /** So is a second root. */
  lemma SecondRootRefused(lead: Str, root: Src, gap: Str, n: Str, attrs: seq<AttrSrc>, trail: Str, closed: bool, s: Str)
    requires IsBlank(lead) && IsBlank(gap) && root.Tagged? && root.rest.Nothing? && IsSrc(root)
    requires IsTagSrc(n) && AreAttrSrcs(attrs) && IsBlank(trail)
    ensures Load(lead + Before(root, gap + ([LT] + (n + TagRest(attrs, trail, closed, s))))) == Null
  {
    hide LoadLoop, IsSrc, TagRest, Attrs, IsBlank, Tag, IsTagSrc, AreAttrSrcs, AddNode;
    var t := n + TagRest(attrs, trail, closed, s);
    BlanksOutside(lead, Before(root, gap + ([LT] + t)));
    TaggedRead(root, gap + ([LT] + t), START);
    var v, kids := Element(root.name, Attrs(root.attrs)), if root.closed then Nil else SrcDoc(root.kids);
    var st := AddNode(START.(opaqueType := !root.closed), v, kids);
    RootAdded(!root.closed, v, kids);
    forall st' | SecondRoot(st') ensures Tag(st', t) == Failed(Malformed) {
      SecondOpen(n, attrs, trail, closed, s, st');
    }
    BlanksBehind(gap, t, st);
  }

  lemma RootAdded(opaqueType: bool, v: Value, kids: Doc)
    ensures var st := AddNode(START.(opaqueType := opaqueType), v, kids);
            SecondRoot(st) && st.buf == []
  {
  }

  lemma SecondOpen(n: Str, attrs: seq<AttrSrc>, trail: Str, closed: bool, s: Str, st: State)
    requires IsTagSrc(n) && AreAttrSrcs(attrs) && IsBlank(trail) && SecondRoot(st)
    ensures Tag(st, n + TagRest(attrs, trail, closed, s)) == Failed(Malformed)
  {
    hide Tag, TagName, TextOf, ParseElement, OpenElement, TagRest, AreAttrSrcs, IsBlank;
    var t := TagRest(attrs, trail, closed, s);
    TagSrcName(n);
    TagRestRead(attrs, trail, closed, s);
    assert t == [t[0]] + t[1..];
    TagNameRead(n, t[0], t[1..], []);
    assert [] + n == n;
    TagOfElement(st, n + t);
    OpenRefused(st, Scan(t[0], n, t[1..]));
  }

  lemma OpenRefused(st: State, n: Scan)
    requires n.Scan? && EOF <= n.ch && SecondRoot(st)
    ensures OpenElement(st, n) == Failed(Malformed)
  {
  }

  // Behind the root, text goes nowhere, and a tag that is refused ends the load.
  lemma {:induction false} BlanksBehind(w: Str, t: Str, st: State)
    requires IsBlank(w) && SecondRoot(st) && (!st.opaqueType ==> st.buf == [])
    requires forall st' :: SecondRoot(st') ==> Tag(st', t) == Failed(Malformed)
    ensures LoadLoop(w + ([LT] + t), st) == Null
    decreases |w|
  {
    hide Next, Tag, Encode;
    if w == [] {
      assert w + ([LT] + t) == [LT] + t;
      LoadTag(t, st);
    } else {
      assert w + ([LT] + t) == [w[0]] + (w[1..] + ([LT] + t));
      NextBlank(w[0], w[1..] + ([LT] + t));
      BlanksBehind(w[1..], t, if st.opaqueType then st.(buf := st.buf + Encode(w[0])) else st);
    }
  }

  /** An attribute whose name has been there is refused, whatever follows its equals sign. */
  lemma RepeatedAttribute(n: Str, attrs: seq<AttrSrc>, k: nat, w: Str, eqBefore: Str, s: Str, st: State)
    requires IsTagSrc(n) && AreAttrSrcs(attrs) && k < |attrs| && IsBlank(w) && w != [] && IsBlank(eqBefore)
    ensures Tag(st, n + (AttrsText(attrs) + (w + (attrs[k].name + (eqBefore + ([EQ] + s)))))) == Failed(Malformed)
  {
    hide Tag, ParseElement, AreAttrSrcs, IsBlank, AttrsText, IsTagSrc;
    RepeatedParse(attrs, k, w, eqBefore, s);
    NameThenRefused(n, AttrsText(attrs) + (w + (attrs[k].name + (eqBefore + ([EQ] + s)))), st);
  }

  lemma RepeatedParse(attrs: seq<AttrSrc>, k: nat, w: Str, eqBefore: Str, s: Str)
    requires AreAttrSrcs(attrs) && k < |attrs| && IsBlank(w) && w != [] && IsBlank(eqBefore)
    ensures var t := AttrsText(attrs) + (w + (attrs[k].name + (eqBefore + ([EQ] + s))));
            t != [] && t[0] in {9, 10, 13, 32, 47, 62} && ParseElement(t, []) == TagStop(Malformed)
  {
    hide ParseElement, AreAttrSrcs, IsBlank, AttrsText, HasAttr, IsNameSrc, Attrs, AttrOf, Spelled;
    var again := attrs[k].name + (eqBefore + ([EQ] + s));
    RepeatedName(attrs, k);
    RepeatedScan(attrs[k].name, eqBefore, s, Attrs(attrs));
    BlanksInTag(w, again, Attrs(attrs));
    BlankFirstByte(w, again);
    AttrSrcsRead(attrs, 0, w + again);
    assert attrs[0..] == attrs && Attrs(attrs)[..0] == [];
    TagRestStart(attrs, w + again);
  }

  lemma BlankFirstByte(w: Str, s: Str)
    requires IsBlank(w) && w != []
    ensures w + s != [] && (w + s)[0] in {9, 10, 13, 32}
  {
  }

  lemma RepeatedName(attrs: seq<AttrSrc>, k: nat)
    requires AreAttrSrcs(attrs) && k < |attrs|
    ensures HasAttr(Attrs(attrs), attrs[k].name) && IsNameSrc(attrs[k].name)
  {
    hide Attrs, Spelled, IsAttrSrc;
    NameOf(attrs[k]);
    var done := Attrs(attrs);
    assert done[k].name == attrs[k].name;
  }

  lemma NameOf(a: AttrSrc)
    requires IsAttrSrc(a)
    ensures IsNameSrc(a.name)
  {
    hide IsNameSrc, IsValueSrc;
  }

  lemma RepeatedScan(name: Str, eqBefore: Str, s: Str, done: seq<Attr>)
    requires IsNameSrc(name) && IsBlank(eqBefore) && HasAttr(done, name)
    ensures ParseElement(name + (eqBefore + ([EQ] + s)), done) == TagStop(Malformed)
  {
    hide AttrName, Next, SkipSpace, HasAttr, CStr, TextOf, IsBlank;
    var rest := name[1..] + (eqBefore + ([EQ] + s));
    NameSrcRead(name, eqBefore, s);
    NameSrcString(name);
    assert name + (eqBefore + ([EQ] + s)) == [name[0]] + rest;
    NextAscii(name[0], rest);
  }

  lemma RestRefused(st: State, name: Str, t: Str)
    requires t != [] && t[0] in {9, 10, 13, 32, 47, 62} && ParseElement(t, []) == TagStop(Malformed)
    ensures OpenElement(st, Scan(t[0], name, t[1..])) == Failed(Malformed)
  {
    hide Next, AddNode, ExpectGt;
    assert t == [t[0]] + t[1..];
    NextAscii(t[0], t[1..]);
  }

  /** In a tag, an opening bracket is refused, and so is a slash or question mark without a closing bracket right
      behind it. */
  lemma BrokenTag(n: Str, attrs: seq<AttrSrc>, w: Str, b: byte, c: byte, s: Str, st: State)
    requires IsTagSrc(n) && AreAttrSrcs(attrs) && IsBlank(w) && w != []
    requires b == 60 || ((b == 47 || b == 63) && 32 <= c < 0x80 && c != 62)
    ensures Tag(st, n + (AttrsText(attrs) + (w + ([b] + ([c] + s))))) == Failed(Malformed)
  {
    hide Tag, TagName, TextOf, ParseElement, OpenElement, AreAttrSrcs, IsBlank, AttrsText, Attrs;
    var after := w + ([b] + ([c] + s));
    var t := AttrsText(attrs) + after;
    BlankFirstByte(w, [b] + ([c] + s));
    AttrSrcsRead(attrs, 0, after);
    assert attrs[0..] == attrs && Attrs(attrs)[..0] == [];
    BlanksInTag(w, [b] + ([c] + s), Attrs(attrs));
    BrokenRest(b, c, s, Attrs(attrs));
    TagRestStart(attrs, after);
    NameThenRefused(n, t, st);
  }

  lemma BrokenRest(b: byte, c: byte, s: Str, done: seq<Attr>)
    requires b == 60 || ((b == 47 || b == 63) && 32 <= c < 0x80 && c != 62)
    ensures ParseElement([b] + ([c] + s), done) == TagStop(Malformed)
  {
    hide Next;
    NextAscii(b, [c] + s);
    if b != 60 {
      NextAscii(c, s);
    }
  }

  // A tag whose rest is refused.
  lemma NameThenRefused(n: Str, t: Str, st: State)
    requires IsTagSrc(n) && t != [] && t[0] in {9, 10, 13, 32, 47, 62} && ParseElement(t, []) == TagStop(Malformed)
    ensures Tag(st, n + t) == Failed(Malformed)
  {
    hide Tag, TagName, TextOf, ParseElement, OpenElement;
    assert t == [t[0]] + t[1..];
    TagSrcName(n);
    TagNameRead(n, t[0], t[1..], []);
    assert [] + n == n;
    TagOfElement(st, n + t);
    RestRefused(st, n, t);
  }

  /** A name that is not in the table is refused in text, at any depth, whatever follows. */
  lemma UnknownName(d: Src, name: Str, s: Str, st: State)
    requires IsSrc(d) && !LastIsText(d) && Inside(st)
    requires |name| <= 63 && EntityValue(name) < 0
    requires forall i :: 0 <= i < |name| ==> 48 <= name[i] <= 57 || 65 <= name[i] <= 90 || 97 <= name[i] <= 122
    ensures LoadLoop(Before(d, [AMP] + (name + ([SEMI] + s))), st) == Null
  {
    hide LoadLoop, IsSrc, Next, EntityChars, EntityValue;
    SrcRead(d, [AMP] + (name + ([SEMI] + s)), st);
    NextAscii(AMP, name + ([SEMI] + s));
    EntityCharsRead(name, s, []);
    assert [] + name == name;
    assert At(name, 0) != HASH;
    RefusedStops(name + ([SEMI] + s), AddAll(st, SrcDoc(d)));
  }

  lemma RefusedStops(s: Str, st: State)
    requires GetEntity(s).Scan? && GetEntity(s).ch == EOF
    ensures LoadLoop([AMP] + s, st) == Null
  {
    hide Next, GetEntity, Tag, Flush;
    NextAscii(AMP, s);
  }
}
