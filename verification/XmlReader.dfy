/** What mxml_load_data makes of its input, as functions with one tail call per loop iteration:
    the parser's specification. The model covers one tree (no `top` node), the opaque type callback
    and no SAX callback. */
module XmlReader {
  import opened Utf8
  import opened Entities
  import opened XmlTree

  /** Why a load gives up: an error in the input, or a switch to UTF-16, which is outside the model. */
  datatype Why = Malformed | SwitchesEncoding

  const EOF: int := -1

  /** The outcome of a scanning loop: the character it stopped at (or EOF), the characters it
      collected, and the input that is left. */
  datatype Scan =
    | Scan(ch: int, buf: Str, rest: seq<byte>)
    | Stop(why: Why)

  /** One call of the character reader. */
  function Next(s: seq<byte>): (n: Scan)
    ensures n.Scan? ==> |n.rest| <= |s| && EOF <= n.ch
    ensures n.Scan? && n.ch != EOF ==> |n.rest| < |s|
  {
    match Getc(s)
    case Char(ch, rest) => Scan(ch, [], rest)
    case Eof(rest) => Scan(EOF, [], rest)
    case Utf16(_) => Stop(SwitchesEncoding)
  }

  // ---- Character entities: mxml_get_entity ----

  predicate IsAlnum(ch: int) {
    48 <= ch <= 57 || 65 <= ch <= 90 || 97 <= ch <= 122
  }

  /** Collect the name of an entity into a buffer of 64 bytes. */
  function EntityChars(s: seq<byte>, ent: Str): (n: Scan)
    ensures n.Scan? ==> |n.rest| <= |s| && EOF <= n.ch
    decreases |s|
  {
    var n := Next(s);
    if n.Stop? then n
    else if n.ch == EOF || n.ch > 126 || (!IsAlnum(n.ch) && n.ch != HASH) || |ent| >= 63 then n.(buf := ent)
    else EntityChars(n.rest, ent + [n.ch])
  }

  function DigitValue(b: byte): nat {
    if 48 <= b <= 57 then b - 48
    else if 65 <= b <= 90 then b - 55
    else if 97 <= b <= 122 then b - 87
    else 36
  }

  /** The number that the leading digits of a string spell. */
  function Digits(s: Str, base: nat, sum: nat): nat {
    if s == [] || DigitValue(s[0]) >= base then sum
    else Digits(s[1..], base, sum * base + DigitValue(s[0]))
  }

  /** `(int)strtol(...)`: saturation at the largest `long`, then truncation to 32 bits. */
  function ToInt(n: nat): int {
    var long := if n > 0x7FFF_FFFF_FFFF_FFFF then 0x7FFF_FFFF_FFFF_FFFF else n;
    var low := long % 0x1_0000_0000;
    if low >= 0x8000_0000 then low - 0x1_0000_0000 else low
  }

  /** The character an entity stands for; negative when there is none. */
  function EntityChar(ent: Str): int {
    if At(ent, 0) == HASH then
      if At(ent, 1) == 120 then
        var hex := ent[2..];
        ToInt(Digits(if At(hex, 0) == ZERO && At(hex, 1) in {88, 120} then hex[2..] else hex, 16, 0))
      else ToInt(Digits(ent[1..], 10, 0))
    else EntityValue(ent)
  }

  /** `mxml_get_entity`, called after an ampersand; EOF for an entity that does not end or stands
      for no legal character. */
  function GetEntity(s: seq<byte>): (n: Scan)
    ensures n.Scan? ==> |n.rest| <= |s| && EOF <= n.ch && n.ch != 0
  {
    var n := EntityChars(s, []);
    if n.Stop? then n
    else if n.ch != SEMI then Scan(EOF, [], n.rest)
    else
      var ch := EntityChar(n.buf);
      Scan(if BadChar(ch) then EOF else ch, [], n.rest)
  }

  /** Decode the entity when `n` holds an ampersand; an entity that yields EOF is an error. */
  function Decoded(n: Scan): (m: Scan)
    ensures m.Scan? && n.Scan? ==> |m.rest| <= |n.rest| && (n.ch >= 0 ==> m.ch >= 0)
    ensures n.Stop? ==> m == n
  {
    if n.Scan? && n.ch == AMP then
      var m := GetEntity(n.rest);
      if m.Scan? && m.ch == EOF then Stop(Malformed) else m
    else n
  }

  // ---- Attributes: mxml_parse_element ----

  predicate HasAttr(attrs: seq<Attr>, name: Str) {
    exists i :: 0 <= i < |attrs| && attrs[i].name == name
  }

  /** Characters up to and including the closing quote, which joins the buffer if `keep`. */
  function Quoted(s: seq<byte>, quote: int, buf: Str, keep: bool): (n: Scan)
    ensures n.Scan? ==> |n.rest| <= |s| && EOF <= n.ch
    decreases |s|
  {
    var n := Next(s);
    if n.Stop? then n
    else if n.ch == EOF || (n.ch == quote && !keep) then n.(buf := buf)
    else
      var m := Decoded(n);
      if m.Stop? then m
      else if m.ch == quote && keep then m.(buf := buf + Encode(m.ch))
      else Quoted(m.rest, quote, buf + Encode(m.ch), keep)
  }

  /** What ends an attribute name that is not quoted. */
  predicate EndsName(ch: int) {
    IsSpace(ch) || ch == EQ || ch == SLASH || ch == GT || ch == QM
  }

  /** What ends an attribute value that is not quoted. */
  predicate EndsValue(ch: int) {
    IsSpace(ch) || ch == EQ || ch == SLASH || ch == GT
  }

  function Bare(s: seq<byte>, buf: Str, ends: int -> bool): (n: Scan)
    ensures n.Scan? ==> |n.rest| <= |s| && EOF <= n.ch
    decreases |s|
  {
    var n := Next(s);
    if n.Stop? then n
    else if n.ch == EOF || ends(n.ch) then n.(buf := buf)
    else
      var m := Decoded(n);
      if m.Stop? then m else Bare(m.rest, buf + Encode(m.ch), ends)
  }

  /** Skip white space, starting from the character at hand. */
  function SkipSpace(ch: int, s: seq<byte>): (n: Scan)
    requires EOF <= ch
    ensures n.Scan? ==> |n.rest| <= |s| && EOF <= n.ch
    decreases |s|, if ch == EOF then 0 else 1
  {
    if !IsSpace(ch) then Scan(ch, [], s)
    else
      var n := Next(s);
      if n.Stop? then n else SkipSpace(n.ch, n.rest)
  }

  /** The name of an attribute that starts with `ch`; its first byte is stored without transcoding. */
  function AttrName(ch: nat, s: seq<byte>): (n: Scan)
    ensures n.Scan? ==> |n.rest| <= |s| && EOF <= n.ch
  {
    if ch == QUOT || ch == APOS then Quoted(s, ch, [ch % 256], true)
    else Bare(s, [ch % 256], EndsName)
  }

  /** The value of an attribute that starts with `ch`. */
  function AttrValue(ch: nat, s: seq<byte>): (n: Scan)
    ensures n.Scan? ==> |n.rest| <= |s| && EOF <= n.ch
  {
    if ch == QUOT || ch == APOS then Quoted(s, ch, [], false)
    else Bare(s, [ch % 256], EndsValue)
  }

  /** Expect `>` after a closing slash or question mark. */
  function ExpectGt(ch: int, s: seq<byte>): (n: Scan)
    ensures n.Scan? ==> |n.rest| <= |s| && n.ch == ch
  {
    var n := Next(s);
    if n.Stop? then n
    else if n.ch != GT then Stop(Malformed)
    else n.(ch := ch)
  }

  /** One attribute, from its first character to the character after its value. */
  datatype AttrScan =
    | AttrScan(attr: Attr, ch: int, rest: seq<byte>)
    | AttrStop(why: Why)

  function ScanAttr(ch: nat, s: seq<byte>, attrs: seq<Attr>): (r: AttrScan)
    ensures r.AttrScan? ==> |r.rest| <= |s| && EOF <= r.ch
  {
    var n := AttrName(ch, s);
    if n.Stop? then AttrStop(n.why) else
    var name := CStr(n.buf);
    if HasAttr(attrs, name) then AttrStop(Malformed) else
    var e := SkipSpace(n.ch, n.rest);
    if e.Stop? then AttrStop(e.why) else
    if e.ch != EQ then AttrStop(Malformed) else
    var q := Next(e.rest);
    if q.Stop? then AttrStop(q.why) else
    var f := SkipSpace(q.ch, q.rest);
    if f.Stop? then AttrStop(f.why) else
    if f.ch == EOF then AttrStop(Malformed) else
    var v := AttrValue(f.ch, f.rest);
    if v.Stop? then AttrStop(v.why)
    else AttrScan(Attr(name, Some(CStr(v.buf))), v.ch, v.rest)
  }

  /** The attributes of an element and the character its opening tag ends with. */
  datatype TagScan =
    | TagScan(ch: int, attrs: seq<Attr>, rest: seq<byte>)
    | TagStop(why: Why)

  function EndTag(n: Scan, attrs: seq<Attr>): TagScan {
    if n.Stop? then TagStop(n.why) else TagScan(n.ch, attrs, n.rest)
  }

  /** `mxml_parse_element` */
  function ParseElement(s: seq<byte>, attrs: seq<Attr>): (r: TagScan)
    ensures r.TagScan? ==> |r.rest| <= |s|
    decreases |s|
  {
    var n := Next(s);
    if n.Stop? then TagStop(n.why)
    else if n.ch == EOF then TagStop(Malformed)
    else if IsSpace(n.ch) then ParseElement(n.rest, attrs)
    else if n.ch == SLASH || n.ch == QM then EndTag(ExpectGt(n.ch, n.rest), attrs)
    else if n.ch == LT then TagStop(Malformed)
    else if n.ch == GT then TagScan(n.ch, attrs, n.rest)
    else
      var a := ScanAttr(n.ch, n.rest, attrs);
      if a.AttrStop? then TagStop(a.why)
      else if a.ch == SLASH || a.ch == QM then EndTag(ExpectGt(a.ch, a.rest), attrs + [a.attr])
      else if a.ch == GT then TagScan(a.ch, attrs + [a.attr], a.rest)
      else ParseElement(a.rest, attrs + [a.attr])
  }

  // ---- Tags: the body of mxml_load_data's main loop after a `<` ----

  /** Whether the characters after `<` already tell a directive, a comment or a CDATA section. */
  predicate Special(buf: Str) {
    buf == [QM] || buf == COMMENT || buf == CDATA
  }

  /** Characters that a tag name must not contain unescaped. */
  predicate BadInTag(ch: int) {
    ch == LT || (ch < ZERO && ch != EXCL && ch != DASH && ch != DOT && ch != SLASH)
  }

  function TagName(s: seq<byte>, buf: Str): (n: Scan)
    ensures n.Scan? ==> |n.rest| <= |s| && EOF <= n.ch
    decreases |s|
  {
    var n := Next(s);
    if n.Stop? then n
    else if n.ch == EOF || IsSpace(n.ch) || n.ch == GT || (n.ch == SLASH && buf != []) then n.(buf := buf)
    else if n.ch == LT then Stop(Malformed)
    else if n.ch == AMP then
      var m := Decoded(n);
      if m.Stop? then m else TagName(m.rest, buf + Encode(m.ch))
    else if BadInTag(n.ch) then Stop(Malformed)
    else if Special(buf + Encode(n.ch)) then n.(buf := buf + Encode(n.ch))
    else TagName(n.rest, buf + Encode(n.ch))
  }

  /** Which `>` ends a comment, given the characters before it. */
  predicate EndsComment(buf: Str) {
    |buf| > 4 && buf[|buf| - 3] != DASH && buf[|buf| - 2] == DASH && buf[|buf| - 1] == DASH
  }

  predicate EndsCdata(buf: Str) {
    |buf| >= 2 && buf[|buf| - 2] == RBRACK && buf[|buf| - 1] == RBRACK
  }

  predicate EndsDirective(buf: Str) {
    |buf| > 0 && buf[|buf| - 1] == QM
  }

  /** Collect characters, undecoded, up to the first `>` at which `ends` holds. */
  function Until(s: seq<byte>, buf: Str, ends: Str -> bool): (n: Scan)
    ensures n.Scan? ==> |n.rest| <= |s|
    decreases |s|
  {
    var n := Next(s);
    if n.Stop? then n
    else if n.ch == EOF then Stop(Malformed)
    else if n.ch == GT && ends(buf) then n.(buf := buf)
    else Until(n.rest, buf + Encode(n.ch), ends)
  }

  /** Collect the rest of a declaration, starting from the character at hand. */
  function Declaration(ch: int, s: seq<byte>, buf: Str): (n: Scan)
    requires EOF <= ch
    ensures n.Scan? ==> |n.rest| <= |s|
    decreases |s|
  {
    if ch == GT then Scan(ch, buf, s)
    else
      var m := Decoded(Scan(ch, [], s));
      if m.Stop? then m
      else
        // a declaration cut short stores the EOF value as a byte before it fails
        var n := Next(m.rest);
        if n.Stop? then n
        else if n.ch == EOF then Stop(Malformed)
        else Declaration(n.ch, n.rest, if m.ch == EOF then buf + [255] else buf + Encode(m.ch))
  }

  /** Skip to the end of a closing tag. */
  function SkipToGt(ch: int, s: seq<byte>): (n: Scan)
    requires EOF <= ch
    ensures n.Scan? ==> |n.rest| <= |s|
    decreases |s|, if ch == EOF then 0 else 1
  {
    if ch == GT || ch == EOF then Scan(ch, [], s)
    else
      var n := Next(s);
      if n.Stop? then n else SkipToGt(n.ch, n.rest)
  }

  // ---- The tree under construction ----

  /** The open elements, innermost first, each with the children it has so far. */
  datatype Stack =
    | Empty
    | Push(name: Str, attrs: seq<Attr>, kids: Doc, up: Stack)

  /** The parser's variables: `parent` and the tree above it, `first` once it is complete,
      `bufptr` and `type`. */
  datatype State = State(parent: Stack, first: Doc, buf: Str, opaqueType: bool)

  const START := State(Empty, Nil, [], false)

  /** Add a finished node under the current parent. A node without a parent becomes `first`
      unless there is one already. */
  function AddNode(st: State, v: Value, kids: Doc): State {
    match st.parent
    case Push(name, attrs, before, up) =>
      st.(parent := Push(name, attrs, Append(before, Cons(v, kids, Nil)), up))
    case Empty =>
      if st.first.Nil? then st.(first := Cons(v, kids, Nil)) else st
  }

  /** Descend into a new element. */
  function Descend(st: State, name: Str, attrs: seq<Attr>): State {
    st.(parent := Push(name, attrs, Nil, st.parent), opaqueType := true)
  }

  /** Turn the collected characters into a value node. */
  function Flush(st: State): State {
    (if st.opaqueType then AddNode(st, Opaque(st.buf), Nil) else st).(buf := [])
  }

  /** A second root is an error. */
  predicate SecondRoot(st: State) {
    st.parent.Empty? && st.first.Cons?
  }

  /** What a whole load returns: a tree (a forest of one node), the null pointer, or a surrender. */
  datatype Outcome =
    | Tree(doc: Doc)
    | Null
    | OutsideModel

  function Failure(why: Why): Outcome {
    if why == Malformed then Null else OutsideModel
  }

  /** The end of input: an open root is returned as it is, deeper open elements are an error. */
  function Finish(st: State): Outcome {
    match st.parent
    case Empty => if st.first.Cons? then Tree(st.first) else Null
    case Push(name, attrs, kids, up) => if up.Empty? then Tree(Cons(Element(name, attrs), kids, Nil)) else Null
  }

  /** The effect of one tag; `Ended` leaves the main loop. */
  datatype Step =
    | Step(st: State, rest: seq<byte>)
    | Ended(last: State)
    | Failed(why: Why)

  /** A comment, CDATA section or other node whose element name is all there is to it. */
  function AddSpecial(st: State, n: Scan, drop: nat, descend: bool): Step {
    if n.Stop? then Failed(n.why)
    else if SecondRoot(st) then Failed(Malformed)
    else
      var name := if drop <= |n.buf| then n.buf[..|n.buf| - drop] else n.buf;
      Step(if descend && st.parent.Empty? then Descend(st, name, []) else AddNode(st, Element(name, []), Nil), n.rest)
  }

  function CloseTag(st: State, n: Scan): Step
    requires n.Scan? && n.buf != [] && EOF <= n.ch
  {
    if st.parent.Empty? || n.buf[1..] != st.parent.name then Failed(Malformed)
    else
      var m := SkipToGt(n.ch, n.rest);
      if m.Stop? then Failed(m.why)
      else Step(AddNode(st.(parent := st.parent.up), Element(st.parent.name, st.parent.attrs), st.parent.kids), m.rest)
  }

  function OpenElement(st: State, n: Scan): Step
    requires n.Scan? && EOF <= n.ch
  {
    if SecondRoot(st) then Failed(Malformed)
    else
      var t := if IsSpace(n.ch) then ParseElement(n.rest, [])
               else if n.ch == SLASH then EndTag(ExpectGt(n.ch, n.rest), [])
               else TagScan(n.ch, [], n.rest);
      if t.TagStop? then Failed(t.why)
      else
        var v := Element(n.buf, t.attrs);
        if t.ch == EOF then Ended(AddNode(st, v, Nil))
        else if t.ch == SLASH then Step(AddNode(st, v, Nil), t.rest)
        else Step(Descend(st, n.buf, t.attrs), t.rest)
  }

  /** Everything between a `<` and the end of its tag. */
  function Tag(st: State, s: seq<byte>): (r: Step)
    ensures r.Step? ==> |r.rest| <= |s|
  {
    var n := TagName(s, []);
    if n.Stop? then Failed(n.why)
    else if n.buf == COMMENT then AddSpecial(st, Until(n.rest, n.buf, EndsComment), 0, false)
    else if n.buf == CDATA then AddSpecial(st, Until(n.rest, n.buf, EndsCdata), 2, false)
    else if At(n.buf, 0) == QM then AddSpecial(st, Until(n.rest, n.buf, EndsDirective), 0, true)
    else if At(n.buf, 0) == EXCL then AddSpecial(st, Declaration(n.ch, n.rest, n.buf), 0, true)
    else if At(n.buf, 0) == SLASH then CloseTag(st, n)
    else OpenElement(st, n)
  }

  /** The main loop of `mxml_load_data`. */
  function LoadLoop(s: seq<byte>, st: State): Outcome
    decreases |s|
  {
    var n := Next(s);
    if n.Stop? then Failure(n.why)
    else if n.ch == EOF then Finish(st)
    else
      var st1 := if (n.ch == LT || (IsSpace(n.ch) && !st.opaqueType)) && st.buf != [] then Flush(st) else st;
      if n.ch == LT then
        var r := Tag(st1.(buf := []), n.rest);
        match r
        case Step(st2, rest) => LoadLoop(rest, st2.(buf := []))
        case Ended(last) => Finish(last)
        case Failed(why) => Failure(why)
      else if n.ch == AMP then
        var m := Decoded(n);
        if m.Stop? then Failure(m.why) else LoadLoop(m.rest, st1.(buf := st1.buf + Encode(m.ch)))
      else if st1.opaqueType || !IsSpace(n.ch) then LoadLoop(n.rest, st1.(buf := st1.buf + Encode(n.ch)))
      else LoadLoop(n.rest, st1)
  }

  /** `mxmlLoadString(NULL, s, MXML_OPAQUE_CALLBACK)` */
  function Load(s: seq<byte>): Outcome {
    LoadLoop(s, START)
  }
}
