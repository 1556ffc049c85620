/** Reading never yields more bytes than it takes: bounds on what the scanners of the parser make of printed
    names, values and declarations, met only by what they read back. */
module XmlBounds {
  import opened Utf8
  import opened Entities
  import opened XmlTree
  import opened XmlWriter
  import opened XmlReader
  import opened XmlRoundTrip

  // ---- Reading never yields more bytes than it takes ----

  /** Which four bytes start with a character the reader accepts, byte order marks aside. */
  predicate Accepts(a: byte, b: byte, c: byte, d: byte) {
    if a < 0x80 then a != 0 && !BadChar(a)
    else if 0xC0 <= a < 0xE0 then Continues(b) && Join2(a, b) >= 0x80
    else if 0xE0 <= a < 0xF0 then Continues(b) && Continues(c) && Join3(a, b, c) >= 0x800 && Join3(a, b, c) != BOM
    else 0xF0 <= a < 0xF8 && Continues(b) && Continues(c) && Continues(d) && Join4(a, b, c, d) >= 0x1_0000
  }

  lemma AcceptsIff(s: Str)
    requires s != [] && !(Encode(BOM) <= s)
    ensures Getc(s).Char? <==> Accepts(s[0], At(s, 1), At(s, 2), At(s, 3))
  {
    hide Encode, Join2, Join4;
    BomBytes();
    if 0xE0 <= s[0] < 0xF0 && Continues(At(s, 1)) && Continues(At(s, 2)) && Join3(s[0], s[1], s[2]) == BOM {
      BomJoin(s[0], s[1], s[2]);
      assert false;
    }
  }

  lemma BomJoin(a: byte, b: byte, c: byte)
    requires 0xE0 <= a < 0xF0 && Continues(b) && Continues(c) && Join3(a, b, c) == BOM
    ensures [a, b, c] == [0xEF, 0xBB, 0xBF]
  {
  }

  lemma BomIff(s: Str)
    ensures Encode(BOM) <= s <==> At(s, 0) == 0xEF && At(s, 1) == 0xBB && At(s, 2) == 0xBF
  {
    hide Encode;
    BomBytes();
    if |s| >= 3 {
      assert s[..3] == [s[0], s[1], s[2]];
    }
  }

  /** Whether a string starts with a character the reader accepts depends only on that string when no
      continuation byte follows it. */
  lemma GetcLocal(w: Str, tail: Str)
    requires w != [] && !(Encode(BOM) <= w) && At(tail, 0) < 0x80
    ensures !(Encode(BOM) <= w + tail)
    ensures Getc(w + tail).Char? <==> Getc(w).Char?
  {
    hide Getc, Encode, Join2, Join3, Join4;
    var s := w + tail;
    assert forall i: nat :: i < |w| ==> At(s, i) == At(w, i);
    assert At(s, |w|) == At(tail, 0);
    BomIff(w);
    BomIff(s);
    AcceptsIff(w);
    AcceptsIff(s);
  }

  /** What one call of the character reader does at the head of a string: it skips a byte order mark, or
      takes a character, or fails. */
  lemma NextHead(w: Str, tail: Str)
    requires w != [] && At(tail, 0) < 0x80
    ensures Encode(BOM) <= w ==> |w| >= 3 && Next(w + tail) == Next(w[3..] + tail)
    ensures !(Encode(BOM) <= w) && Getc(w).Char? ==>
              && Legal(Getc(w).ch) && w == Encode(Getc(w).ch) + Getc(w).rest
              && Next(w + tail) == Scan(Getc(w).ch, [], Getc(w).rest + tail)
    ensures !(Encode(BOM) <= w) && !Getc(w).Char? ==> Next(w + tail).Stop? || Next(w + tail).ch == EOF
  {
    hide Getc, Encode;
    if Encode(BOM) <= w {
      BomSkipped(w + tail);
      assert (w + tail)[3..] == w[3..] + tail;
    } else if Getc(w).Char? {
      TextSplits(w);
      NextInText(w, tail);
    } else {
      GetcLocal(w, tail);
    }
  }

  // ---- Entities ----

  lemma Widths(c: nat)
    ensures c < 0x80 ==> |Encode(c)| == 1
    ensures c < 0x800 ==> |Encode(c)| <= 2
    ensures c < 0x1_0000 ==> |Encode(c)| <= 3
  {
  }

  /** Every table entry has a name of two letters or more and a value that fits 16 bits. */
  predicate Bounded(e: Entity) {
    e.value < 0x1_0000 && CharAt(e.name, 0) != 0 && CharAt(e.name, 1) != 0
  }

  lemma BoundedEntry(i: nat)
    requires i < COUNT
    ensures Bounded(EntityAt(i))
  {
    if i < 36 {
      BoundedFrom0(i);
    } else if i < 72 {
      BoundedFrom36(i);
    } else if i < 108 {
      BoundedFrom72(i);
    } else if i < 144 {
      BoundedFrom108(i);
    } else if i < 180 {
      BoundedFrom144(i);
    } else if i < 216 {
      BoundedFrom180(i);
    } else if i < 252 {
      BoundedFrom216(i);
    } else {
      BoundedFrom252(i);
    }
  }

  lemma BoundedFrom0(i: nat)
    requires i < 36
    ensures Bounded(EntityAt(i))
  {
    if i < 12 {
      assert Bounded(BLOCK0[i]);
    } else if i < 24 {
      assert Bounded(BLOCK1[i - 12]);
    } else {
      assert Bounded(BLOCK2[i - 24]);
    }
  }

  lemma BoundedFrom36(i: nat)
    requires 36 <= i < 72
    ensures Bounded(EntityAt(i))
  {
    if i < 48 {
      assert Bounded(BLOCK3[i - 36]);
    } else if i < 60 {
      assert Bounded(BLOCK4[i - 48]);
    } else {
      assert Bounded(BLOCK5[i - 60]);
    }
  }

  lemma BoundedFrom72(i: nat)
    requires 72 <= i < 108
    ensures Bounded(EntityAt(i))
  {
    if i < 84 {
      assert Bounded(BLOCK6[i - 72]);
    } else if i < 96 {
      assert Bounded(BLOCK7[i - 84]);
    } else {
      assert Bounded(BLOCK8[i - 96]);
    }
  }

  lemma BoundedFrom108(i: nat)
    requires 108 <= i < 144
    ensures Bounded(EntityAt(i))
  {
    if i < 120 {
      assert Bounded(BLOCK9[i - 108]);
    } else if i < 132 {
      assert Bounded(BLOCK10[i - 120]);
    } else {
      assert Bounded(BLOCK11[i - 132]);
    }
  }

  lemma BoundedFrom144(i: nat)
    requires 144 <= i < 180
    ensures Bounded(EntityAt(i))
  {
    if i < 156 {
      assert Bounded(BLOCK12[i - 144]);
    } else if i < 168 {
      assert Bounded(BLOCK13[i - 156]);
    } else {
      assert Bounded(BLOCK14[i - 168]);
    }
  }

  lemma BoundedFrom180(i: nat)
    requires 180 <= i < 216
    ensures Bounded(EntityAt(i))
  {
    if i < 192 {
      assert Bounded(BLOCK15[i - 180]);
    } else if i < 204 {
      assert Bounded(BLOCK16[i - 192]);
    } else {
      assert Bounded(BLOCK17[i - 204]);
    }
  }

  lemma BoundedFrom216(i: nat)
    requires 216 <= i < 252
    ensures Bounded(EntityAt(i))
  {
    if i < 228 {
      assert Bounded(BLOCK18[i - 216]);
    } else if i < 240 {
      assert Bounded(BLOCK19[i - 228]);
    } else {
      assert Bounded(BLOCK20[i - 240]);
    }
  }

  lemma BoundedFrom252(i: nat)
    requires 252 <= i < COUNT
    ensures Bounded(EntityAt(i))
  {
    assert Bounded(BLOCK21[i - 252]);
  }

  lemma {:induction false} LookupBound(name: Str, i: nat)
    requires i <= COUNT
    ensures LookupFrom(name, i) < 0x1_0000
    ensures |name| <= 1 ==> LookupFrom(name, i) == -1
    decreases COUNT - i
  {
    hide EntityAt, StrCmp;
    if i < COUNT {
      BoundedEntry(i);
      if |name| <= 1 {
        ShortMiss(name, EntityAt(i));
      }
      LookupBound(name, i + 1);
    }
  }

  lemma ShortMiss(name: Str, entry: Entity)
    requires |name| <= 1 && Bounded(entry)
    ensures StrCmp(name, entry.name) != 0
  {
  }

  lemma DigitsBound(s: Str, base: nat)
    requires base == 10 || base == 16
    ensures |s| <= 1 ==> Digits(s, base, 0) <= 15
  {
    if |s| == 1 {
      assert s[1..] == [];
    }
  }

  /** A character reference is never shorter than the character it stands for. */
  lemma EntityLong(ent: Str)
    requires EntityChar(ent) >= 0 && !BadChar(EntityChar(ent))
    ensures |Encode(EntityChar(ent))| <= |ent| + 1
  {
    hide Encode, LookupFrom, Digits;
    var ch := EntityChar(ent);
    Widths(ch);
    if At(ent, 0) == HASH {
      if At(ent, 1) == 120 {
        DigitsBound(ent[2..], 16);
      } else {
        DigitsBound(ent[1..], 10);
      }
    } else {
      LookupBound(ent, 0);
    }
  }

  /** The name of a reference and its semicolon lie within the string. */
  lemma {:induction false} EntityCharsTaken(r: Str, tail: Str, ent: Str) returns (r': Str)
    requires tail != [] && tail[0] in {NL, SP, GT, EQ, QUOT, LT}
    requires var n := EntityChars(r + tail, ent); n.Scan? && n.ch == SEMI
    ensures var n := EntityChars(r + tail, ent); n.rest == r' + tail && |n.buf| + 1 + |r'| <= |ent| + |r|
    decreases |r|
  {
    hide Getc, Encode, Next;
    r' := r;
    if r == [] {
      assert r + tail == [tail[0]] + tail[1..];
      NextAscii(tail[0], tail[1..]);
    } else {
      NextHead(r, tail);
      if Encode(BOM) <= r {
        NextSame(r + tail, r[3..] + tail, ent);
        r' := EntityCharsTaken(r[3..], tail, ent);
      } else if Getc(r).Char? {
        var c, t := Getc(r).ch, Getc(r).rest;
        EncodeShort(c);
        if c == SEMI {
          r' := t;
        } else if !(c > 126 || (!IsAlnum(c) && c != HASH) || |ent| >= 63) {
          r' := EntityCharsTaken(t, tail, ent + [c]);
        }
      }
    }
  }

  lemma EncodeShort(c: nat)
    ensures |Encode(c)| >= 1
  {
  }

  lemma NextSame(s: Str, t: Str, ent: Str)
    requires Next(s) == Next(t)
    ensures EntityChars(s, ent) == EntityChars(t, ent)
  {
    hide Next;
  }

  /** A decoded reference lies within the string, and is longer than the character it yields. */
  lemma EntityTaken(r: Str, tail: Str) returns (r': Str)
    requires tail != [] && tail[0] in {NL, SP, GT, EQ, QUOT, LT}
    requires var m := GetEntity(r + tail); m.Scan? && m.ch != EOF
    ensures var m := GetEntity(r + tail); m.ch >= 0 && m.rest == r' + tail && |Encode(m.ch)| + |r'| <= |r|
  {
    hide EntityChars, EntityChar, Encode;
    var n := EntityChars(r + tail, []);
    r' := EntityCharsTaken(r, tail, []);
    EntityLong(n.buf);
  }

  // ---- Names and values ----

  /** What the tag name scanner makes of a string with a delimiter behind it is never longer than the
      string, and as long only if every character is one of a tag name. */
  lemma {:induction false} TagNameTaken(w: Str, tail: Str, buf: Str)
    requires tail != [] && EndsTagName(tail[0])
    ensures var n := TagName(w + tail, buf);
            n.Scan? ==>
              && |n.buf| <= |buf| + |w|
              && (|n.buf| == |buf| + |w| && (buf != [] || At(w, 0) != SLASH) ==> TextOf(w, TagChar))
    decreases |w|
  {
    hide Getc, Encode, Next, GetEntity;
    if w == [] {
      assert w + tail == [tail[0]] + tail[1..];
      NextAscii(tail[0], tail[1..]);
    } else {
      NextHead(w, tail);
      if Encode(BOM) <= w {
        TagNameSame(w + tail, w[3..] + tail, buf);
        TagNameTaken(w[3..], tail, buf);
      } else if Getc(w).Char? {
        var c, r := Getc(w).ch, Getc(w).rest;
        EncodeFirst(c);
        if c == AMP {
          if Decoded(Scan(c, [], r + tail)).Scan? {
            var r' := EntityTaken(r, tail);
            TagNameTaken(r', tail, buf + Encode(GetEntity(r + tail).ch));
          }
        } else if !(IsSpace(c) || c == GT || (c == SLASH && buf != [])) {
          TagNameTaken(r, tail, buf + Encode(c));
        }
      }
    }
  }

  lemma EncodeFirst(c: nat)
    ensures |Encode(c)| >= 1 && (c < 0x80 ==> Encode(c) == [c]) && (c >= 0x80 ==> Encode(c)[0] >= 0x80)
  {
  }

  lemma TagNameSame(s: Str, t: Str, buf: Str)
    requires Next(s) == Next(t)
    ensures TagName(s, buf) == TagName(t, buf)
  {
    hide Next;
  }

  /** The same for what follows the first character of an attribute name. */
  lemma {:induction false} BareTaken(w: Str, tail: Str, buf: Str)
    requires tail != [] && tail[0] == EQ
    ensures var n := Bare(w + tail, buf, EndsName);
            n.Scan? ==>
              && |n.buf| <= |buf| + |w|
              && (|n.buf| == |buf| + |w| ==> TextOf(w, AttrNameChar))
    decreases |w|
  {
    hide Getc, Encode, Next, GetEntity;
    if w == [] {
      assert w + tail == [tail[0]] + tail[1..];
      NextAscii(tail[0], tail[1..]);
    } else {
      NextHead(w, tail);
      if Encode(BOM) <= w {
        BareSame(w + tail, w[3..] + tail, buf);
        BareTaken(w[3..], tail, buf);
      } else if Getc(w).Char? {
        var c, r := Getc(w).ch, Getc(w).rest;
        EncodeFirst(c);
        if c == AMP {
          if Decoded(Scan(c, [], r + tail)).Scan? {
            var r' := EntityTaken(r, tail);
            BareTaken(r', tail, buf + Encode(GetEntity(r + tail).ch));
          }
        } else if !EndsName(c) {
          BareTaken(r, tail, buf + Encode(c));
        }
      }
    }
  }

  lemma BareSame(s: Str, t: Str, buf: Str)
    requires Next(s) == Next(t)
    ensures Bare(s, buf, EndsName) == Bare(t, buf, EndsName)
  {
    hide Next;
  }

  // ---- Escaped strings ----

  lemma WriteFirst(w: Str)
    requires w != []
    ensures WriteString(w) == Escape(w[0]) + WriteString(w[1..])
  {
    hide Escape;
  }

  /** How an escaped string begins: bytes beyond ASCII are copied, anything else starts in ASCII. */
  lemma WriteHead(w: Str, tail: Str)
    requires At(tail, 0) < 0x80
    ensures At(w, 0) < 0x80 ==> At(WriteString(w) + tail, 0) < 0x80
    ensures w != [] && EntityName(w[0]) == [] ==> WriteString(w) + tail == [w[0]] + (WriteString(w[1..]) + tail)
    ensures At(w, 0) >= 0x80 ==> EntityName(w[0]) == []
  {
    hide EntityName, WriteString;
    if w != [] {
      WriteFirst(w);
      Assoc(Escape(w[0]), WriteString(w[1..]), tail);
      if w[0] >= 0x80 {
        NoHighNames(w[0]);
      }
    } else {
      EmptyString();
      assert WriteString(w) + tail == tail;
    }
  }

  /** Escaping changes nothing that the reader looks at for its first character, unless that is escaped. */
  lemma AcceptsWritten(w: Str, tail: Str)
    requires w != [] && EntityName(w[0]) == [] && At(tail, 0) < 0x80
    ensures var s := WriteString(w) + tail;
            && s != [] && s[0] == w[0]
            && (Accepts(s[0], At(s, 1), At(s, 2), At(s, 3)) <==> Accepts(w[0], At(w, 1), At(w, 2), At(w, 3)))
            && (At(s, 1) == 0xBB && At(s, 2) == 0xBF <==> At(w, 1) == 0xBB && At(w, 2) == 0xBF)
  {
    hide WriteString, EntityName, Join2, Join3, Join4;
    WriteHead(w, tail);
    if |w| >= 1 {
      WriteHead(w[1..], tail);
      if At(w, 1) >= 0x80 {
        assert w[1..][1..] == w[2..];
        WriteHead(w[2..], tail);
        if At(w, 2) >= 0x80 {
          assert w[2..][1..] == w[3..];
          WriteHead(w[3..], tail);
        }
      }
    }
  }

  lemma BomWritten(w: Str, tail: Str)
    ensures Next(WriteString(Encode(BOM) + w) + tail) == Next(WriteString(w) + tail)
  {
    hide Getc, Encode, WriteString, Next;
    BomText();
    WriteStringConcat(Encode(BOM), w);
    Assoc(Encode(BOM), WriteString(w), tail);
    NextBom(WriteString(w) + tail);
  }

  lemma Assoc(a: Str, b: Str, c: Str)
    ensures (a + b) + c == a + (b + c)
  {
  }

  lemma BomParts(w: Str)
    requires Encode(BOM) <= w
    ensures |w| >= 3 && w == Encode(BOM) + w[3..]
  {
    hide Encode;
    BomText();
  }

  lemma BomText()
    ensures |Encode(BOM)| == 3 && WriteString(Encode(BOM)) == Encode(BOM)
  {
    EncodeHigh(BOM);
    HighBytes(Encode(BOM));
  }

  lemma NextBom(s: Str)
    ensures Next(Encode(BOM) + s) == Next(s)
  {
    hide Getc, Encode;
    BomSkipped(Encode(BOM) + s);
    assert (Encode(BOM) + s)[3..] == s;
  }

  lemma RefusedWritten(w: Str, tail: Str)
    requires w != [] && At(tail, 0) < 0x80 && !(Encode(BOM) <= w) && !Getc(w).Char?
    ensures Next(WriteString(w) + tail).Stop? || Next(WriteString(w) + tail).ch == EOF
  {
    hide Getc, Encode, WriteString, EntityName, Accepts;
    AcceptsIff(w);
    if EntityName(w[0]) != [] {
      EscapedAccepted(w);
    }
    AcceptsWritten(w, tail);
    BomIff(w);
    BomIff(WriteString(w) + tail);
    AcceptsIff(WriteString(w) + tail);
  }

  /** What one call of the character reader does at the head of an escaped string. */
  lemma NextWritten(w: Str, tail: Str)
    requires w != [] && At(tail, 0) < 0x80
    ensures Encode(BOM) <= w ==> |w| >= 3 && Next(WriteString(w) + tail) == Next(WriteString(w[3..]) + tail)
    ensures !(Encode(BOM) <= w) && Getc(w).Char? ==>
              && Legal(Getc(w).ch) && w == Encode(Getc(w).ch) + Getc(w).rest
              && WriteString(w) + tail == WriteString(Encode(Getc(w).ch)) + (WriteString(Getc(w).rest) + tail)
    ensures !(Encode(BOM) <= w) && !Getc(w).Char? ==> Next(WriteString(w) + tail).Stop? || Next(WriteString(w) + tail).ch == EOF
  {
    hide Getc, Encode, WriteString, Next;
    if Encode(BOM) <= w {
      BomParts(w);
      BomWritten(w[3..], tail);
    } else if Getc(w).Char? {
      TextSplits(w);
      WriteSplits(w, tail);
    } else {
      RefusedWritten(w, tail);
    }
  }

  lemma EscapedAccepted(w: Str)
    requires w != [] && EntityName(w[0]) != []
    ensures Accepts(w[0], At(w, 1), At(w, 2), At(w, 3))
  {
    hide EntityName;
    EntityNameShape(w[0]);
  }

  /** The same for an escaped value between quotes. */
  lemma {:induction false} QuotedTaken(w: Str, tail: Str, buf: Str)
    requires tail != [] && tail[0] == QUOT
    ensures var n := Quoted(WriteString(w) + tail, QUOT, buf, false);
            n.Scan? ==>
              && |n.buf| <= |buf| + |w|
              && (|n.buf| == |buf| + |w| ==> IsText(w))
    decreases |w|
  {
    hide Getc, Encode, Next, GetEntity, WriteString, EntityName;
    if w == [] {
      EmptyString();
      assert WriteString(w) + tail == [tail[0]] + tail[1..];
      NextAscii(tail[0], tail[1..]);
    } else {
      NextWritten(w, tail);
      if Encode(BOM) <= w {
        QuotedSame(WriteString(w) + tail, WriteString(w[3..]) + tail, buf);
        QuotedTaken(w[3..], tail, buf);
      } else if Getc(w).Char? {
        var c, r := Getc(w).ch, Getc(w).rest;
        EncodeFirst(c);
        EntityNameShape(c);
        DecodeWritten(c, WriteString(r) + tail);
        QuotedTaken(r, tail, buf + Encode(c));
      }
    }
  }

  lemma QuotedSame(s: Str, t: Str, buf: Str)
    requires Next(s) == Next(t)
    ensures Quoted(s, QUOT, buf, false) == Quoted(t, QUOT, buf, false)
  {
    hide Next;
  }

  // ---- Declarations ----

  /** Collecting a declaration, from the next character on. */
  function DeclareFrom(s: seq<byte>, buf: Str): Scan {
    var n := Next(s);
    if n.Stop? then n
    else if n.ch == EOF then Stop(Malformed)
    else Declaration(n.ch, n.rest, buf)
  }

  lemma DeclareStep(c: nat, s: seq<byte>, buf: Str)
    requires c != GT && c != AMP
    ensures Declaration(c, s, buf) == DeclareFrom(s, buf + Encode(c))
    ensures Declaration(EOF, s, buf) == DeclareFrom(s, buf + [255])
  {
    hide Next, Encode, GetEntity;
  }

  lemma DeclareEntity(s: seq<byte>, buf: Str)
    ensures var m := GetEntity(s);
            if m.Stop? then Declaration(AMP, s, buf) == m
            else if m.ch == EOF then Declaration(AMP, s, buf) == Stop(Malformed)
            else m.ch >= 0 ==> Declaration(AMP, s, buf) == DeclareFrom(m.rest, buf + Encode(m.ch))
  {
    hide Next, Encode, GetEntity;
  }

  lemma {:induction false} DeclareTaken(w: Str, tail: Str, buf: Str)
    requires tail != [] && tail[0] == GT
    ensures var n := DeclareFrom(w + tail, buf);
            n.Scan? ==>
              && buf <= n.buf && |n.buf| <= |buf| + |w|
              && (|n.buf| == |buf| + |w| ==> TextOf(w, DeclarationChar))
    decreases |w|
  {
    hide Getc, Encode, Next, GetEntity, Declaration;
    if w == [] {
      assert w + tail == [GT] + tail[1..];
      NextAscii(GT, tail[1..]);
      DeclarationEnds(tail[1..], buf);
    } else {
      NextHead(w, tail);
      if Encode(BOM) <= w {
        DeclareTaken(w[3..], tail, buf);
      } else if Getc(w).Char? {
        var c, r := Getc(w).ch, Getc(w).rest;
        EncodeFirst(c);
        if c == GT {
          DeclarationEnds(r + tail, buf);
        } else if c == AMP {
          DeclareEntity(r + tail, buf);
          var m := GetEntity(r + tail);
          if m.Scan? && m.ch != EOF {
            var r' := EntityTaken(r, tail);
            DeclareTaken(r', tail, buf + Encode(m.ch));
          }
        } else {
          DeclareStep(c, r + tail, buf);
          DeclareTaken(r, tail, buf + Encode(c));
        }
      }
    }
  }

  /** How far the reader moves over a character it refuses. */
  function RefusedLength(a: byte, b: byte, c: byte, d: byte): nat {
    if a == 0 then 0
    else if 0xC0 <= a < 0xE0 && Continues(b) then 2
    else if 0xE0 <= a < 0xF0 && Continues(b) && Continues(c) then 3
    else if 0xF0 <= a < 0xF8 && Continues(b) && Continues(c) && Continues(d) then 4
    else 1
  }

  lemma RefusedTwo(a: byte, t: Str)
    requires 0xC0 <= a < 0xE0 && !Getc([a] + t).Char?
    ensures Getc([a] + t) == Eof(if Continues(At(t, 0)) then t[1..] else t)
  {
    hide Join2;
    assert ([a] + t)[1..] == t;
  }

  lemma RefusedThree(a: byte, t: Str)
    requires 0xE0 <= a < 0xF0 && !Getc([a] + t).Char? && !(a == 0xEF && At(t, 0) == 0xBB && At(t, 1) == 0xBF)
    ensures Getc([a] + t) == Eof(if Continues(At(t, 0)) && Continues(At(t, 1)) then t[2..] else t)
  {
    hide Join3;
    assert ([a] + t)[1..] == t;
    if Continues(At(t, 0)) && Continues(At(t, 1)) && Join3(a, t[0], t[1]) == BOM {
      BomJoin(a, t[0], t[1]);
      assert false;
    }
  }

  lemma RefusedFour(a: byte, t: Str)
    requires 0xF0 <= a < 0xF8 && !Getc([a] + t).Char?
    ensures Getc([a] + t) == Eof(if Continues(At(t, 0)) && Continues(At(t, 1)) && Continues(At(t, 2)) then t[3..] else t)
  {
    hide Join4;
    assert ([a] + t)[1..] == t;
  }

  lemma RefusedOne(a: byte, t: Str)
    requires (a < 0xC0 || 0xF8 <= a) && !Getc([a] + t).Char?
    ensures Getc([a] + t).Utf16? || Getc([a] + t) == Eof(if a == 0 then [a] + t else t)
  {
    assert ([a] + t)[1..] == t;
  }

  lemma RefusedWhere(s: Str)
    requires s != [] && !(Encode(BOM) <= s) && !Getc(s).Char?
    ensures var k := RefusedLength(s[0], At(s, 1), At(s, 2), At(s, 3));
            k <= |s| && (Getc(s).Utf16? || Getc(s) == Eof(s[k..]))
  {
    hide Getc, Encode;
    BomIff(s);
    var a, t := s[0], s[1..];
    assert s == [a] + t;
    assert At(s, 1) == At(t, 0) && At(s, 2) == At(t, 1) && At(s, 3) == At(t, 2);
    if 0xC0 <= a < 0xE0 {
      RefusedTwo(a, t);
      assert |t| >= 1 ==> t[1..] == s[2..];
    } else if 0xE0 <= a < 0xF0 {
      RefusedThree(a, t);
      assert |t| >= 2 ==> t[2..] == s[3..];
    } else if 0xF0 <= a < 0xF8 {
      RefusedFour(a, t);
      assert |t| >= 3 ==> t[3..] == s[4..];
    } else {
      RefusedOne(a, t);
    }
  }

  lemma RefusedRest(w: Str, tail: Str) returns (r: Str)
    requires w != [] && At(tail, 0) < 0x80 && !(Encode(BOM) <= w) && !Getc(w).Char?
    ensures var n := Next(w + tail);
            n.Scan? ==>
              && n.ch == EOF && n.rest == r + tail
              && (if w[0] == 0 then r == w else |r| < |w|)
              && (w[0] == 0xFF ==> r == w[1..])
  {
    hide Getc, Encode;
    var s := w + tail;
    GetcLocal(w, tail);
    RefusedWhere(s);
    assert forall i: nat :: i < |w| ==> At(s, i) == At(w, i);
    assert At(s, |w|) == At(tail, 0);
    var k := RefusedLength(s[0], At(s, 1), At(s, 2), At(s, 3));
    assert k <= |w|;
    r := w[k..];
    DropConcat(w, tail, k);
  }

  lemma DropConcat(w: Str, tail: Str, k: nat)
    requires k <= |w|
    ensures (w + tail)[k..] == w[k..] + tail
  {
  }

  /** One step of the tag name scanner. */
  lemma TagNameOne(s: Str, c: nat, rest: Str, buf: Str)
    requires Next(s) == Scan(c, [], rest)
    ensures c == LT ==> TagName(s, buf).Stop?
    ensures c == AMP ==>
              var m := GetEntity(rest);
              if m.Stop? || m.ch == EOF then TagName(s, buf).Stop? else m.ch >= 0 && TagName(s, buf) == TagName(m.rest, buf + Encode(m.ch))
    ensures !(IsSpace(c) || c == GT || (c == SLASH && buf != []) || c == LT || c == AMP) ==>
              if BadInTag(c) then TagName(s, buf).Stop?
              else if Special(buf + Encode(c)) then TagName(s, buf) == Scan(c, buf + Encode(c), rest)
              else TagName(s, buf) == TagName(rest, buf + Encode(c))
  {
    hide Next, Encode, GetEntity;
  }

  lemma TagNameRefused(s: Str, buf: Str)
    requires Next(s).Stop? || Next(s).ch == EOF
    ensures TagName(s, buf) == if Next(s).Stop? then Next(s) else Scan(EOF, buf, Next(s).rest)
  {
    hide Getc;
  }

  /** A declaration's name as the scanners leave it: within the printed text `w` behind `buf`, and equal to
      it only if that is the text of a declaration. */
  predicate DeclaredWithin(n: Scan, w: Str, buf: Str)
    requires n.Scan? ==> EOF <= n.ch
  {
    n.Scan? && n.buf != COMMENT && n.buf != CDATA ==>
      var d := Declaration(n.ch, n.rest, n.buf);
      d.Scan? ==> buf <= d.buf && |d.buf| <= |buf| + |w| && (d.buf == buf + w ==> IsDeclarationText(w))
  }

  lemma {:induction false} DeclarationTaken(w: Str, tail: Str, buf: Str)
    requires tail != [] && tail[0] == GT && buf != [] && buf[0] == EXCL
    ensures DeclaredWithin(TagName(w + tail, buf), w, buf)
    decreases |w|, 1
  {
    hide Getc, Encode, Next, GetEntity, Declaration, TagName;
    if w == [] {
      assert w + tail == [GT] + tail[1..];
      NextAscii(GT, tail[1..]);
      TagNameStops(w + tail, GT, tail[1..], buf);
      DeclarationEnds(tail[1..], buf);
    } else {
      NextHead(w, tail);
      if Encode(BOM) <= w {
        TagNameSame(w + tail, w[3..] + tail, buf);
        DeclarationTaken(w[3..], tail, buf);
      } else if Getc(w).Char? {
        DeclarationChars(w, tail, buf);
      } else {
        DeclarationRefused(w, tail, buf);
      }
    }
  }

  lemma {:induction false} DeclarationChars(w: Str, tail: Str, buf: Str)
    requires tail != [] && tail[0] == GT && buf != [] && buf[0] == EXCL
    requires w != [] && !(Encode(BOM) <= w) && Getc(w).Char?
    ensures DeclaredWithin(TagName(w + tail, buf), w, buf)
    decreases |w|, 0
  {
    hide Getc, Encode, Next, GetEntity, Declaration, TagName, BadInTag;
    var c, r := Getc(w).ch, Getc(w).rest;
    NextHead(w, tail);
    EncodeFirst(c);
    TagNameOne(w + tail, c, r + tail, buf);
    if IsSpace(c) || c == GT || c == SLASH {
      TagNameStops(w + tail, c, r + tail, buf);
      if c == GT {
        DeclarationEnds(r + tail, buf);
      } else {
        DeclareStep(c, r + tail, buf);
        DeclareTaken(r, tail, buf + Encode(c));
      }
    } else if c == AMP {
      var m := GetEntity(r + tail);
      if m.Scan? && m.ch != EOF {
        var r' := EntityTaken(r, tail);
        DeclarationTaken(r', tail, buf + Encode(m.ch));
      }
    } else if c != LT && !BadInTag(c) {
      var buf' := buf + Encode(c);
      if Special(buf') {
        assert buf'[0] == EXCL;
      } else {
        DeclarationTaken(r, tail, buf');
        assert buf + w == buf' + r;
      }
    }
  }

  lemma DeclarationRefused(w: Str, tail: Str, buf: Str)
    requires tail != [] && tail[0] == GT && buf != [] && buf[0] == EXCL
    requires w != [] && !(Encode(BOM) <= w) && !Getc(w).Char?
    ensures DeclaredWithin(TagName(w + tail, buf), w, buf)
  {
    hide Getc, Encode, Next, Declaration, TagName;
    NextHead(w, tail);
    TagNameRefused(w + tail, buf);
    if Next(w + tail).Scan? {
      var r := RefusedRest(w, tail);
      DeclareStep(0, r + tail, buf);
      if w[0] == 0 {
        NextNul(w + tail);
      } else {
        DeclareTaken(r, tail, buf + [255]);
        var d := DeclareFrom(r + tail, buf + [255]);
        if d.Scan? && d.buf == buf + w {
          assert d.buf[|buf|] == 255;
        }
      }
    }
  }

  lemma NextNul(s: Str)
    requires s != [] && s[0] == 0
    ensures Next(s) == Scan(EOF, [], s)
  {
  }
}
