/** The reader of mxml-file.c as it runs: a string pointer, growing byte buffers, and the loops of
    mxml_get_entity, mxml_parse_element and mxml_load_data, each proved against XmlReader. */
module XmlLoad {
  import opened Utf8
  import opened Entities
  import opened XmlTree
  import opened XmlReader

  /** A character buffer with its write position. The slack that `AddChar` keeps is exactly enough
      for the terminating NUL. */
  class Buffer {
    var data: array<byte>
    var len: nat

    ghost predicate Valid()
      reads this, data
    {
      64 <= data.Length && len < data.Length
    }

    ghost function Contents(): (s: Str)
      reads this, data
      requires Valid()
    {
      data[..len]
    }

    constructor ()
      ensures Valid() && Contents() == [] && fresh(data) && data.Length == 64
    {
      data := new byte[64];
      len := 0;
    }

    method Clear()
      requires Valid()
      modifies this`len
      ensures Valid() && Contents() == []
    {
      len := 0;
    }

    /** Store the terminating NUL: there is always room for it. */
    method Terminate()
      requires Valid()
      modifies data
      ensures Valid() && Contents() == old(Contents()) && data[len] == 0
    {
      data[len] := 0;
    }

    /** Double a small buffer, extend a large one. */
    method Grow()
      requires Valid()
      modifies this`data
      ensures Valid() && Contents() == old(Contents()) && fresh(data)
      ensures data.Length == if old(data.Length) < 1024 then 2 * old(data.Length) else old(data.Length) + 1024
    {
      var size := if data.Length < 1024 then data.Length * 2 else data.Length + 1024;
      var bigger := new byte[size];
      for i := 0 to len
        invariant data == old(data) && bigger[..i] == data[..i]
      {
        bigger[i] := data[i];
      }
      data := bigger;
    }

    method Put(b: byte)
      requires 64 <= data.Length && len < data.Length
      modifies this`len, data
      ensures len == old(len) + 1 && data[..len] == old(data[..len]) + [b]
    {
      data[len] := b;
      len := len + 1;
    }

    /** Store a group of bytes after growing the buffer where needed. */
    method PutAll(a: byte, b: byte, c: byte, d: byte, n: nat)
      requires 64 <= data.Length && len <= data.Length - 5 && 2 <= n <= 4
      modifies this`len, data
      ensures Valid() && data[..len] == old(data[..len]) + [a, b, c, d][..n]
    {
      Put(a);
      Put(b);
      if n > 2 {
        Put(c);
      }
      if n > 3 {
        Put(d);
      }
    }

    /** `mxml_add_char` of a negative value: one byte, truncated. */
    method AddByte(b: byte)
      requires Valid()
      modifies this, data
      ensures Valid() && (data == old(data) || fresh(data))
      ensures Contents() == old(Contents()) + [b]
    {
      if len >= data.Length - 4 {
        Grow();
      }
      Put(b);
    }

    /** `mxml_add_char` */
    method AddChar(ch: nat)
      requires Valid()
      modifies this, data
      ensures Valid() && (data == old(data) || fresh(data))
      ensures Contents() == old(Contents()) + Encode(ch)
    {
      hide Encode;
      if len >= data.Length - 4 {
        Grow();
      }
      if ch < 0x80 {
        EncodesAs1(ch);
        Put(ch);
      } else if ch < 0x800 {
        Encodes2(ch);
        PutAll(0xC0 + ch / 0x40, 0x80 + ch % 0x40, 0, 0, 2);
      } else if ch < 0x1_0000 {
        Encodes3(ch);
        PutAll(0xE0 + ch / 0x1000, 0x80 + ch / 0x40 % 0x40, 0x80 + ch % 0x40, 0, 3);
      } else {
        Encodes4(ch);
        PutAll(0xF0 + ch / 0x4_0000 % 0x10, 0x80 + ch / 0x1000 % 0x40, 0x80 + ch / 0x40 % 0x40, 0x80 + ch % 0x40, 4);
      }
    }
  }

  lemma Encodes2(ch: nat)
    requires 0x80 <= ch < 0x800
    ensures Encode(ch) == [0xC0 + ch / 0x40, 0x80 + ch % 0x40, 0, 0][..2]
  {
  }

  lemma Encodes3(ch: nat)
    requires 0x800 <= ch < 0x1_0000
    ensures Encode(ch) == [0xE0 + ch / 0x1000, 0x80 + ch / 0x40 % 0x40, 0x80 + ch % 0x40, 0][..3]
  {
  }

  lemma Encodes4(ch: nat)
    requires 0x1_0000 <= ch
    ensures Encode(ch) == [0xF0 + ch / 0x4_0000 % 0x10, 0x80 + ch / 0x1000 % 0x40, 0x80 + ch / 0x40 % 0x40,
                           0x80 + ch % 0x40][..4]
  {
  }

  /** The input string and the pointer into it. */
  class Source {
    const text: seq<byte>
    var pos: nat

    ghost predicate Valid()
      reads this
    {
      pos <= |text|
    }

    ghost function Rest(): (s: seq<byte>)
      reads this
      requires Valid()
    {
      text[pos..]
    }

    constructor (s: seq<byte>)
      ensures Valid() && Rest() == s
    {
      text := s;
      pos := 0;
    }

    function Peek(i: nat): (b: byte)
      reads this
      requires Valid()
      ensures b == At(Rest(), i)
    {
      if pos + i < |text| then text[pos + i] else 0
    }

    /** `mxml_string_getc` while the encoding is UTF-8. */
    method Getc() returns (ch: int, utf16: bool)
      requires Valid()
      modifies this
      ensures Valid() && pos >= old(pos)
      ensures utf16 ==> Next(old(Rest())) == Stop(SwitchesEncoding)
      ensures !utf16 ==> Next(old(Rest())) == Scan(ch, [], Rest())
      ensures !utf16 && ch != EOF ==> pos > old(pos)
      decreases |text| - pos
    {
      ghost var s := Rest();
      if Peek(0) == 0 {
        return EOF, false;
      }
      var c := Peek(0);
      pos := pos + 1;
      assert Rest() == s[1..];
      ghost var t := Rest();
      if c < 0x80 {
        return if BadChar(c) then EOF else c, false;
      } else if c == 0xFE {
        if Peek(0) != 0xFF {
          return EOF, false;
        }
        return 0, true;
      } else if c == 0xFF {
        if Peek(0) != 0xFE {
          return EOF, false;
        }
        return 0, true;
      } else if 0xC0 <= c < 0xE0 {
        if !Continues(Peek(0)) {
          return EOF, false;
        }
        ch := Join2(c, Peek(0));
        pos := pos + 1;
        assert Rest() == t[1..];
        return if ch < 0x80 then EOF else ch, false;
      } else if 0xE0 <= c < 0xF0 {
        if !Continues(Peek(0)) || !Continues(Peek(1)) {
          return EOF, false;
        }
        ch := Join3(c, Peek(0), Peek(1));
        pos := pos + 2;
        assert Rest() == t[2..];
        if ch < 0x800 {
          return EOF, false;
        }
        if ch == BOM {
          ch, utf16 := Getc();
          return;
        }
        return ch, false;
      } else if 0xF0 <= c < 0xF8 {
        if !Continues(Peek(0)) || !Continues(Peek(1)) || !Continues(Peek(2)) {
          return EOF, false;
        }
        ch := Join4(c, Peek(0), Peek(1), Peek(2));
        pos := pos + 3;
        assert Rest() == t[3..];
        return if ch < 0x1_0000 then EOF else ch, false;
      } else {
        return EOF, false;
      }
    }
  }

  /** A loop stopped at `ch` with `buf` collected and `rest` unread, or gave up. */
  ghost predicate Yields(r: Scan, ch: int, stop: Option<Why>, buf: Str, rest: seq<byte>) {
    match stop
    case None => r == Scan(ch, buf, rest)
    case Some(why) => r == Stop(why)
  }

  /** One character, as the scanning functions see it. */
  method Read(src: Source) returns (ch: int, stop: Option<Why>)
    requires src.Valid()
    modifies src
    ensures src.Valid() && src.pos >= old(src.pos)
    ensures Yields(Next(old(src.Rest())), ch, stop, [], src.Rest())
    ensures stop.None? && ch != EOF ==> src.pos > old(src.pos)
  {
    var utf16;
    ch, utf16 := src.Getc();
    stop := if utf16 then Some(SwitchesEncoding) else None;
  }

  /** `mxml_get_entity`, with its name buffer of 64 bytes. */
  method ReadEntity(src: Source) returns (ch: int, stop: Option<Why>)
    requires src.Valid()
    modifies src
    ensures src.Valid() && src.pos >= old(src.pos)
    ensures Yields(GetEntity(old(src.Rest())), ch, stop, [], src.Rest())
  {
    hide Next, EntityChar, EntityValue;
    var entity := new byte[64];
    var n := 0;
    ch, stop := Read(src);
    ghost var whole := EntityChars(old(src.Rest()), []);
    assert entity[..n] == [];
    while stop.None? && ch != EOF && ch <= 126 && (IsAlnum(ch) || ch == HASH) && n < 63
      invariant src.Valid() && src.pos >= old(src.pos) && n <= 63 && fresh(entity)
      invariant whole == EntityStep(ch, stop, entity[..n], src.Rest())
      decreases |src.text| - src.pos, if stop.None? && ch != EOF then 1 else 0
    {
      entity[n] := ch;
      n := n + 1;
      assert entity[..n] == entity[..n - 1] + [entity[n - 1]];
      ch, stop := Read(src);
    }
    if stop.Some? {
      return;
    }
    if ch != SEMI {
      return EOF, None;
    }
    var value := EntityCharOf(entity[..n]);
    ch := if BadChar(value) then EOF else value;
  }

  /** The entity loop, seen after its character was read. */
  ghost function EntityStep(ch: int, stop: Option<Why>, ent: Str, rest: seq<byte>): Scan {
    if stop.Some? then Stop(stop.value)
    else if ch == EOF || ch > 126 || (!IsAlnum(ch) && ch != HASH) || |ent| >= 63 then Scan(ch, ent, rest)
    else EntityChars(rest, ent + [ch])
  }

  method EntityCharOf(ent: Str) returns (value: int)
    ensures value == EntityChar(ent)
  {
    hide EntityValue;
    if At(ent, 0) == HASH {
      value := EntityChar(ent);
    } else {
      value := EntityCallback(ent);
    }
  }

  /** Decode the entity that starts with the ampersand just read, if it is one. */
  method Decode(src: Source, ch: int) returns (decoded: int, stop: Option<Why>)
    requires src.Valid()
    modifies src
    ensures src.Valid() && src.pos >= old(src.pos)
    ensures Yields(Decoded(Scan(ch, [], old(src.Rest()))), decoded, stop, [], src.Rest())
  {
    hide GetEntity;
    decoded, stop := ch, None;
    if ch == AMP {
      decoded, stop := ReadEntity(src);
      if stop.None? && decoded == EOF {
        stop := Some(Malformed);
      }
    }
  }

  /** The four loops of mxml_parse_element that collect names and values, in two shapes. */
  method ReadQuoted(src: Source, buf: Buffer, quote: int, keep: bool) returns (ch: int, stop: Option<Why>)
    requires src.Valid() && buf.Valid()
    modifies src, buf, buf.data
    ensures src.Valid() && src.pos >= old(src.pos)
    ensures buf.Valid() && (buf.data == old(buf.data) || fresh(buf.data))
    ensures Yields(Quoted(old(src.Rest()), quote, old(buf.Contents()), keep), ch, stop, buf.Contents(), src.Rest())
  {
    hide Next, Encode, Decoded;
    ghost var whole := Quoted(src.Rest(), quote, buf.Contents(), keep);
    while true
      invariant src.Valid() && src.pos >= old(src.pos)
      invariant buf.Valid() && (buf.data == old(buf.data) || fresh(buf.data))
      invariant whole == Quoted(src.Rest(), quote, buf.Contents(), keep)
      decreases |src.text| - src.pos
    {
      ch, stop := Read(src);
      if stop.Some? || ch == EOF || (ch == quote && !keep) {
        return;
      }
      ch, stop := Decode(src, ch);
      if stop.Some? {
        return;
      }
      buf.AddChar(ch);
      if ch == quote && keep {
        return;
      }
    }
  }

  method ReadBare(src: Source, buf: Buffer, ends: int -> bool) returns (ch: int, stop: Option<Why>)
    requires src.Valid() && buf.Valid()
    modifies src, buf, buf.data
    ensures src.Valid() && src.pos >= old(src.pos)
    ensures buf.Valid() && (buf.data == old(buf.data) || fresh(buf.data))
    ensures Yields(Bare(old(src.Rest()), old(buf.Contents()), ends), ch, stop, buf.Contents(), src.Rest())
  {
    hide Next, Encode, Decoded;
    ghost var whole := Bare(src.Rest(), buf.Contents(), ends);
    while true
      invariant src.Valid() && src.pos >= old(src.pos)
      invariant buf.Valid() && (buf.data == old(buf.data) || fresh(buf.data))
      invariant whole == Bare(src.Rest(), buf.Contents(), ends)
      decreases |src.text| - src.pos
    {
      ch, stop := Read(src);
      if stop.Some? || ch == EOF || ends(ch) {
        return;
      }
      ch, stop := Decode(src, ch);
      if stop.Some? {
        return;
      }
      buf.AddChar(ch);
    }
  }

  method SkipBlanks(src: Source, first: int) returns (ch: int, stop: Option<Why>)
    requires src.Valid() && EOF <= first
    modifies src
    ensures src.Valid() && src.pos >= old(src.pos)
    ensures Yields(SkipSpace(first, old(src.Rest())), ch, stop, [], src.Rest())
  {
    hide Next;
    ghost var whole := SkipSpace(first, src.Rest());
    ch, stop := first, None;
    while stop.None? && IsSpace(ch)
      invariant src.Valid() && src.pos >= old(src.pos)
      invariant stop.Some? ==> whole == Stop(stop.value)
      invariant stop.None? ==> EOF <= ch && whole == SkipSpace(ch, src.Rest())
      decreases |src.text| - src.pos, if stop.None? && ch != EOF then 1 else 0
    {
      ch, stop := Read(src);
    }
  }

  /** A name or a value, from its first character on: in quotes or bare. */
  method ReadName(src: Source, name: Buffer, first: nat) returns (ch: int, stop: Option<Why>)
    requires src.Valid() && name.Valid()
    modifies src, name, name.data
    ensures src.Valid() && src.pos >= old(src.pos)
    ensures name.Valid() && (name.data == old(name.data) || fresh(name.data))
    ensures Yields(AttrName(first, old(src.Rest())), ch, stop, name.Contents(), src.Rest())
  {
    hide Next, Quoted, Bare;
    name.Clear();
    name.Put(first % 256);
    assert name.Contents() == [first % 256];
    if first == QUOT || first == APOS {
      ch, stop := ReadQuoted(src, name, first, true);
    } else {
      ch, stop := ReadBare(src, name, EndsName);
    }
  }

  method ReadValue(src: Source, value: Buffer, first: nat) returns (ch: int, stop: Option<Why>)
    requires src.Valid() && value.Valid()
    modifies src, value, value.data
    ensures src.Valid() && src.pos >= old(src.pos)
    ensures value.Valid() && (value.data == old(value.data) || fresh(value.data))
    ensures Yields(AttrValue(first, old(src.Rest())), ch, stop, value.Contents(), src.Rest())
  {
    hide Next, Quoted, Bare;
    value.Clear();
    if first == QUOT || first == APOS {
      ch, stop := ReadQuoted(src, value, first, false);
    } else {
      value.Put(first % 256);
      assert value.Contents() == [first % 256];
      ch, stop := ReadBare(src, value, EndsValue);
    }
  }

  /** What ScanAttr does once the attribute's name is known. */
  ghost function AfterName(name: Str, ch: int, rest: seq<byte>): AttrScan
    requires EOF <= ch
  {
    var e := SkipSpace(ch, rest);
    if e.Stop? then AttrStop(e.why) else
    if e.ch != EQ then AttrStop(Malformed) else
    var q := Next(e.rest);
    if q.Stop? then AttrStop(q.why) else
    var f := SkipSpace(q.ch, q.rest);
    if f.Stop? then AttrStop(f.why) else
    if f.ch == EOF then AttrStop(Malformed) else
    var v := AttrValue(f.ch, f.rest);
    if v.Stop? then AttrStop(v.why)
    else AttrScan(Attr(name, Some(CStr(v.buf))), v.ch, v.rest)
  }

  ghost predicate YieldsAttr(r: AttrScan, attr: Attr, ch: int, stop: Option<Why>, rest: seq<byte>) {
    match stop
    case None => r == AttrScan(attr, ch, rest)
    case Some(why) => r == AttrStop(why)
  }

  /** The `=`, the blanks around it, and the value of an attribute. */
  method ReadAttrValue(src: Source, value: Buffer, name: Str, first: int)
    returns (attr: Attr, ch: int, stop: Option<Why>)
    requires src.Valid() && value.Valid() && EOF <= first
    modifies src, value, value.data
    ensures src.Valid() && src.pos >= old(src.pos)
    ensures value.Valid() && (value.data == old(value.data) || fresh(value.data))
    ensures YieldsAttr(AfterName(name, first, old(src.Rest())), attr, ch, stop, src.Rest())
  {
    hide Next, CStr, SkipSpace, AttrValue;
    attr := Attr([], None);
    ch, stop := SkipBlanks(src, first);
    if stop.Some? {
      return;
    }
    if ch != EQ {
      stop := Some(Malformed);
      return;
    }
    ch, stop := Read(src);
    if stop.Some? {
      return;
    }
    ch, stop := SkipBlanks(src, ch);
    if stop.Some? {
      return;
    }
    if ch == EOF {
      stop := Some(Malformed);
      return;
    }
    ch, stop := ReadValue(src, value, ch);
    if stop.Some? {
      return;
    }
    value.Terminate();
    attr := Attr(name, Some(CStr(value.data[..value.len])));
  }

  /** One attribute. */
  method ReadAttr(src: Source, name: Buffer, value: Buffer, first: nat, attrs: seq<Attr>)
    returns (attr: Attr, ch: int, stop: Option<Why>)
    requires src.Valid() && name.Valid() && value.Valid() && name != value && name.data != value.data
    modifies src, name, name.data, value, value.data
    ensures src.Valid() && src.pos >= old(src.pos) && name.Valid() && value.Valid() && name.data != value.data
    ensures (name.data == old(name.data) || fresh(name.data)) && (value.data == old(value.data) || fresh(value.data))
    ensures YieldsAttr(ScanAttr(first, old(src.Rest()), attrs), attr, ch, stop, src.Rest())
  {
    hide Next, CStr, HasAttr, SkipSpace, AttrName, AttrValue;
    attr := Attr([], None);
    ch, stop := ReadName(src, name, first);
    if stop.Some? {
      return;
    }
    name.Terminate();
    var n := CStr(name.data[..name.len]);
    if HasAttr(attrs, n) {
      stop := Some(Malformed);
      return;
    }
    attr, ch, stop := ReadAttrValue(src, value, n, ch);
  }

  method RequireGt(src: Source, ch: int) returns (stop: Option<Why>)
    requires src.Valid()
    modifies src
    ensures src.Valid() && src.pos >= old(src.pos)
    ensures Yields(ExpectGt(ch, old(src.Rest())), ch, stop, [], src.Rest())
  {
    hide Getc;
    var next;
    next, stop := Read(src);
    if stop.None? && next != GT {
      stop := Some(Malformed);
    }
  }

  /** `mxml_parse_element` */
  method ReadAttrs(src: Source) returns (ch: int, attrs: seq<Attr>, stop: Option<Why>)
    requires src.Valid()
    modifies src
    ensures src.Valid() && src.pos >= old(src.pos)
    ensures match stop
            case None => ParseElement(old(src.Rest()), []) == TagScan(ch, attrs, src.Rest())
            case Some(why) => ParseElement(old(src.Rest()), []) == TagStop(why)
  {
    hide Next, ScanAttr, ExpectGt;
    var name := new Buffer();
    var value := new Buffer();
    attrs := [];
    ghost var whole := ParseElement(src.Rest(), []);
    while true
      invariant src.Valid() && src.pos >= old(src.pos)
      invariant name.Valid() && value.Valid() && fresh(name) && fresh(value) && name != value
      invariant fresh(name.data) && fresh(value.data) && name.data != value.data
      invariant whole == ParseElement(src.Rest(), attrs)
      decreases |src.text| - src.pos
    {
      ch, stop := Read(src);
      if stop.Some? {
        return;
      }
      if ch == EOF {
        stop := Some(Malformed);
        return;
      }
      if IsSpace(ch) {
        continue;
      }
      if ch == SLASH || ch == QM {
        stop := RequireGt(src, ch);
        return;
      } else if ch == LT {
        stop := Some(Malformed);
        return;
      } else if ch == GT {
        return;
      }
      var attr;
      attr, ch, stop := ReadAttr(src, name, value, ch, attrs);
      if stop.Some? {
        return;
      }
      attrs := attrs + [attr];
      if ch == SLASH || ch == QM {
        stop := RequireGt(src, ch);
        return;
      } else if ch == GT {
        return;
      }
    }
  }

  method ReadTagName(src: Source, buf: Buffer) returns (ch: int, stop: Option<Why>)
    requires src.Valid() && buf.Valid() && buf.Contents() == []
    modifies src, buf, buf.data
    ensures src.Valid() && src.pos >= old(src.pos)
    ensures buf.Valid() && (buf.data == old(buf.data) || fresh(buf.data))
    ensures Yields(TagName(old(src.Rest()), []), ch, stop, buf.Contents(), src.Rest())
  {
    hide Next, Encode, Decoded;
    ghost var whole := TagName(src.Rest(), []);
    while true
      invariant src.Valid() && src.pos >= old(src.pos)
      invariant buf.Valid() && (buf.data == old(buf.data) || fresh(buf.data))
      invariant whole == TagName(src.Rest(), buf.Contents())
      decreases |src.text| - src.pos
    {
      ch, stop := Read(src);
      if stop.Some? || ch == EOF || IsSpace(ch) || ch == GT || (ch == SLASH && buf.len > 0) {
        return;
      }
      if ch == LT {
        stop := Some(Malformed);
        return;
      } else if ch == AMP {
        ch, stop := Decode(src, ch);
        if stop.Some? {
          return;
        }
        buf.AddChar(ch);
      } else if BadInTag(ch) {
        stop := Some(Malformed);
        return;
      } else {
        buf.AddChar(ch);
        if Special(buf.data[..buf.len]) {
          return;
        }
      }
    }
  }

  /** The loops that gather comments, CDATA sections and processing instructions. */
  method ReadUntil(src: Source, buf: Buffer, ends: Str -> bool) returns (ch: int, stop: Option<Why>)
    requires src.Valid() && buf.Valid()
    modifies src, buf, buf.data
    ensures src.Valid() && src.pos >= old(src.pos)
    ensures buf.Valid() && (buf.data == old(buf.data) || fresh(buf.data))
    ensures Yields(Until(old(src.Rest()), old(buf.Contents()), ends), ch, stop, buf.Contents(), src.Rest())
  {
    hide Next, Encode;
    ghost var whole := Until(src.Rest(), buf.Contents(), ends);
    while true
      invariant src.Valid() && src.pos >= old(src.pos)
      invariant buf.Valid() && (buf.data == old(buf.data) || fresh(buf.data))
      invariant whole == Until(src.Rest(), buf.Contents(), ends)
      decreases |src.text| - src.pos
    {
      ch, stop := Read(src);
      if stop.Some? {
        return;
      }
      if ch == EOF {
        stop := Some(Malformed);
        return;
      }
      if ch == GT && ends(buf.data[..buf.len]) {
        return;
      }
      buf.AddChar(ch);
    }
  }

  method ReadDeclaration(src: Source, buf: Buffer, first: int) returns (ch: int, stop: Option<Why>)
    requires src.Valid() && buf.Valid() && EOF <= first
    modifies src, buf, buf.data
    ensures src.Valid() && src.pos >= old(src.pos)
    ensures buf.Valid() && (buf.data == old(buf.data) || fresh(buf.data))
    ensures Yields(Declaration(first, old(src.Rest()), old(buf.Contents())), ch, stop, buf.Contents(), src.Rest())
  {
    hide Next, Encode, GetEntity;
    ghost var whole := Declaration(first, src.Rest(), buf.Contents());
    ch, stop := first, None;
    while ch != GT
      invariant src.Valid() && src.pos >= old(src.pos) && EOF <= ch && stop.None?
      invariant buf.Valid() && (buf.data == old(buf.data) || fresh(buf.data))
      invariant whole == Declaration(ch, src.Rest(), buf.Contents())
      decreases |src.text| - src.pos
    {
      ch, stop := Decode(src, ch);
      if stop.Some? {
        return;
      }
      if ch == EOF {
        buf.AddByte(255);
      } else {
        buf.AddChar(ch);
      }
      ch, stop := Read(src);
      if stop.Some? {
        return;
      }
      if ch == EOF {
        stop := Some(Malformed);
        return;
      }
    }
  }

  method SkipTag(src: Source, first: int) returns (ch: int, stop: Option<Why>)
    requires src.Valid() && EOF <= first
    modifies src
    ensures src.Valid() && src.pos >= old(src.pos)
    ensures Yields(SkipToGt(first, old(src.Rest())), ch, stop, [], src.Rest())
  {
    hide Next;
    ghost var whole := SkipToGt(first, src.Rest());
    ch, stop := first, None;
    while stop.None? && ch != GT && ch != EOF
      invariant src.Valid() && src.pos >= old(src.pos)
      invariant stop.Some? ==> whole == Stop(stop.value)
      invariant stop.None? ==> EOF <= ch && whole == SkipToGt(ch, src.Rest())
      decreases |src.text| - src.pos, if stop.None? && ch != EOF then 1 else 0
    {
      ch, stop := Read(src);
    }
  }

  ghost predicate YieldsStep(r: Step, st: State, ended: bool, stop: Option<Why>, rest: seq<byte>) {
    match stop
    case Some(why) => r == Failed(why)
    case None => r == if ended then Ended(st) else Step(st, rest)
  }

  /** A comment, CDATA section, processing instruction or declaration whose start was recognized. */
  method ReadSpecial(src: Source, buf: Buffer, before: State, ch: int) returns (st: State, stop: Option<Why>)
    requires src.Valid() && buf.Valid() && EOF <= ch && Prelude(buf.Contents())
    modifies src, buf, buf.data
    ensures src.Valid() && src.pos >= old(src.pos)
    ensures buf.Valid() && (buf.data == old(buf.data) || fresh(buf.data))
    ensures YieldsStep(SpecialStep(before, Scan(ch, old(buf.Contents()), old(src.Rest()))), st, false, stop, src.Rest())
  {
    hide Until, Declaration, AddNode;
    st := before;
    var start := buf.data[..buf.len];
    var last := ch;
    if start == COMMENT {
      last, stop := ReadUntil(src, buf, EndsComment);
    } else if start == CDATA {
      last, stop := ReadUntil(src, buf, EndsCdata);
    } else if At(start, 0) == QM {
      last, stop := ReadUntil(src, buf, EndsDirective);
    } else {
      last, stop := ReadDeclaration(src, buf, ch);
    }
    if stop.Some? {
      return;
    }
    if SecondRoot(before) {
      stop := Some(Malformed);
      return;
    }
    var size := if start == CDATA && 2 <= buf.len then buf.len - 2 else buf.len;
    var name := buf.data[..size];
    assert name == buf.Contents()[..size];
    if start != COMMENT && start != CDATA && before.parent.Empty? {
      st := Descend(before, name, []);
    } else {
      st := AddNode(before, Element(name, []), Nil);
    }
  }

  /** Names that ReadSpecial handles. */
  predicate Prelude(buf: Str) {
    buf == COMMENT || buf == CDATA || At(buf, 0) == QM || At(buf, 0) == EXCL
  }

  /** The part of Tag for names that start with `?` or `!`. */
  ghost function SpecialStep(st: State, n: Scan): Step
    requires n.Scan? && EOF <= n.ch
  {
    if n.buf == COMMENT then AddSpecial(st, Until(n.rest, n.buf, EndsComment), 0, false)
    else if n.buf == CDATA then AddSpecial(st, Until(n.rest, n.buf, EndsCdata), 2, false)
    else if At(n.buf, 0) == QM then AddSpecial(st, Until(n.rest, n.buf, EndsDirective), 0, true)
    else AddSpecial(st, Declaration(n.ch, n.rest, n.buf), 0, true)
  }

  /** An opening tag after its name. */
  method ReadElement(src: Source, name: Str, before: State, first: int)
    returns (st: State, ended: bool, stop: Option<Why>)
    requires src.Valid() && EOF <= first
    modifies src
    ensures src.Valid() && src.pos >= old(src.pos)
    ensures YieldsStep(OpenElement(before, Scan(first, name, old(src.Rest()))), st, ended, stop, src.Rest())
  {
    hide ParseElement, ExpectGt, AddNode;
    st, ended, stop := before, false, None;
    if SecondRoot(before) {
      stop := Some(Malformed);
      return;
    }
    var ch, attrs := first, [];
    if IsSpace(ch) {
      ch, attrs, stop := ReadAttrs(src);
    } else if ch == SLASH {
      stop := RequireGt(src, ch);
    }
    if stop.Some? {
      return;
    }
    if ch == EOF {
      st, ended := AddNode(before, Element(name, attrs), Nil), true;
    } else if ch == SLASH {
      st := AddNode(before, Element(name, attrs), Nil);
    } else {
      st := Descend(before, name, attrs);
    }
  }

  /** Everything between a `<` and the end of its tag. */
  method ReadTag(src: Source, buf: Buffer, before: State) returns (st: State, ended: bool, stop: Option<Why>)
    requires src.Valid() && buf.Valid()
    modifies src, buf, buf.data
    ensures src.Valid() && src.pos >= old(src.pos)
    ensures buf.Valid() && (buf.data == old(buf.data) || fresh(buf.data))
    ensures YieldsStep(Tag(before, old(src.Rest())), st, ended, stop, src.Rest())
  {
    hide TagName, Until, Declaration, AddSpecial, OpenElement, SkipToGt, AddNode;
    st, ended := before, false;
    buf.Clear();
    var ch;
    ch, stop := ReadTagName(src, buf);
    if stop.Some? {
      return;
    }
    buf.Terminate();
    var name := buf.data[..buf.len];
    if Prelude(name) {
      st, stop := ReadSpecial(src, buf, before, ch);
    } else if At(name, 0) == SLASH {
      if before.parent.Empty? || name[1..] != before.parent.name {
        stop := Some(Malformed);
        return;
      }
      ch, stop := SkipTag(src, ch);
      if stop.None? {
        var p := before.parent;
        st := AddNode(before.(parent := p.up), Element(p.name, p.attrs), p.kids);
      }
    } else {
      st, ended, stop := ReadElement(src, name, before, ch);
    }
  }

  /** `mxmlLoadString(NULL, text, MXML_OPAQUE_CALLBACK)`: the main loop of mxml_load_data. The loop's
      buffer holds the characters of the current value; `st` is everything else the parser knows. */
  method LoadString(text: seq<byte>) returns (outcome: Outcome)
    ensures outcome == Load(text)
  {
    hide Next, Tag, Decoded, Encode, AddNode, Finish;
    var src := new Source(text);
    var buf := new Buffer();
    var st := START;
    while true
      invariant src.Valid() && fresh(src) && buf.Valid() && fresh(buf) && fresh(buf.data)
      invariant Load(text) == LoadLoop(src.Rest(), st.(buf := buf.Contents()))
      decreases |src.text| - src.pos
    {
      var ch, stop := Read(src);
      if stop.Some? {
        return Failure(stop.value);
      }
      if ch == EOF {
        return Finish(st.(buf := buf.data[..buf.len]));
      }
      if (ch == LT || (IsSpace(ch) && !st.opaqueType)) && buf.len > 0 {
        buf.Terminate();
        st := Flush(st.(buf := buf.data[..buf.len]));
        buf.Clear();
      }
      if ch == LT {
        var ended;
        st, ended, stop := ReadTag(src, buf, st.(buf := []));
        if stop.Some? {
          return Failure(stop.value);
        }
        if ended {
          return Finish(st);
        }
        buf.Clear();
      } else if ch == AMP {
        ch, stop := Decode(src, ch);
        if stop.Some? {
          return Failure(stop.value);
        }
        buf.AddChar(ch);
      } else if st.opaqueType || !IsSpace(ch) {
        buf.AddChar(ch);
      }
    }
  }
}
