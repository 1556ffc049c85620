/** The character layer of mxml-file.c: UTF-8 in, UTF-8 out, and the string reader built on it. */
module Utf8 {
  type byte = x: int | 0 <= x < 256

  /** What one call of a character reader yields: a code point or EOF, with the input that is left.
      `Utf16` stands for the encoding switch a UTF-16 byte order mark causes. */
  datatype Read =
    | Char(ch: nat, rest: seq<byte>)
    | Eof(rest: seq<byte>)
    | Utf16(rest: seq<byte>)

  const BOM := 0xFEFF

  /** The control characters `mxml_bad_char` refuses. */
  predicate BadChar(ch: int) {
    ch < 32 && ch != 10 && ch != 13 && ch != 9
  }

  predicate IsSpace(ch: int) {
    ch == 32 || ch == 9 || ch == 13 || ch == 10
  }

  /** The code points that survive a trip through the encoder and a reader. */
  predicate Legal(ch: int) {
    !BadChar(ch) && ch != BOM && ch < 0x20_0000
  }

  /** The bytes `mxml_add_char` appends; stores are truncated to eight bits. */
  function Encode(ch: nat): (bs: seq<byte>)
    ensures 1 <= |bs| <= 4
    ensures 0 < ch ==> 0 !in bs
  {
    if ch < 0x80 then [ch]
    else if ch < 0x800 then [0xC0 + ch / 0x40, 0x80 + ch % 0x40]
    else if ch < 0x1_0000 then [0xE0 + ch / 0x1000, 0x80 + ch / 0x40 % 0x40, 0x80 + ch % 0x40]
    else [0xF0 + ch / 0x4_0000 % 0x10, 0x80 + ch / 0x1000 % 0x40, 0x80 + ch / 0x40 % 0x40, 0x80 + ch % 0x40]
  }

  function EncodeAll(cs: seq<nat>): seq<byte> {
    if cs == [] then [] else Encode(cs[0]) + EncodeAll(cs[1..])
  }

  /** Byte `i` of a NUL-terminated string. */
  function At(s: seq<byte>, i: nat): byte {
    if i < |s| then s[i] else 0
  }

  predicate Continues(b: byte) {
    0x80 <= b < 0xC0
  }

  /** The code point spelled by a lead byte and its continuation bytes. */
  function Join2(a: byte, b: byte): (ch: nat) {
    a as int % 0x20 * 0x40 + b as int % 0x40
  }

  function Join3(a: byte, b: byte, c: byte): nat {
    (a as int % 0x10 * 0x40 + b as int % 0x40) * 0x40 + c as int % 0x40
  }

  function Join4(a: byte, b: byte, c: byte, d: byte): nat {
    ((a as int % 8 * 0x40 + b as int % 0x40) * 0x40 + c as int % 0x40) * 0x40 + d as int % 0x40
  }

  /** `mxml_string_getc` while the encoding is UTF-8. */
  function Getc(s: seq<byte>): (r: Read)
    ensures |r.rest| <= |s|
    ensures r.Char? ==> |r.rest| < |s|
    decreases |s|
  {
    if At(s, 0) == 0 then Eof(s)
    else
      var c, t := s[0], s[1..];
      if c < 0x80 then
        if BadChar(c) then Eof(t) else Char(c, t)
      else if c == 0xFE then
        if At(t, 0) != 0xFF then Eof(t) else Utf16(t[1..])
      else if c == 0xFF then
        if At(t, 0) != 0xFE then Eof(t) else Utf16(t[1..])
      else if 0xC0 <= c < 0xE0 then
        if !Continues(At(t, 0)) then Eof(t)
        else
          var ch := Join2(c, t[0]);
          if ch < 0x80 then Eof(t[1..]) else Char(ch, t[1..])
      else if 0xE0 <= c < 0xF0 then
        if !Continues(At(t, 0)) || !Continues(At(t, 1)) then Eof(t)
        else
          var ch := Join3(c, t[0], t[1]);
          if ch < 0x800 then Eof(t[2..])
          else if ch == BOM then Getc(t[2..])
          else Char(ch, t[2..])
      else if 0xF0 <= c < 0xF8 then
        if !Continues(At(t, 0)) || !Continues(At(t, 1)) || !Continues(At(t, 2)) then Eof(t)
        else
          var ch := Join4(c, t[0], t[1], t[2]);
          if ch < 0x1_0000 then Eof(t[3..]) else Char(ch, t[3..])
      else Eof(t)
  }

  lemma Shift6(q: nat, r: nat)
    requires r < 0x40
    ensures (q * 0x40 + r) / 0x40 == q && (q * 0x40 + r) % 0x40 == r
  {
  }

  lemma Shift12(n: nat)
    ensures n / 0x1000 == n / 0x40 / 0x40
  {
  }

  lemma Shift18(n: nat)
    ensures n / 0x4_0000 == n / 0x40 / 0x40 / 0x40
  {
    Shift12(n);
    var m := n / 0x1000;
    assert n / 0x4_0000 == m / 0x40;
  }

  lemma Tail(b: byte, low: nat)
    requires low < 0x40 && b == 0x80 + low
    ensures b as int % 0x40 == low
  {
  }

  // Splitting a code point into bytes and joining them again.

  lemma Rejoin2(ch: nat)
    requires 0x80 <= ch < 0x800
    ensures Join2(0xC0 + ch / 0x40, 0x80 + ch % 0x40) == ch
  {
  }

  lemma Rejoin3(ch: nat)
    requires 0x800 <= ch < 0x1_0000
    ensures Join3(0xE0 + ch / 0x1000, 0x80 + ch / 0x40 % 0x40, 0x80 + ch % 0x40) == ch
  {
    Shift12(ch);
  }

  predicate Spells4(ch: nat, a: byte, b: byte, c: byte, d: byte) {
    a == 0xF0 + ch / 0x4_0000 % 0x10 && b == 0x80 + ch / 0x1000 % 0x40
    && c == 0x80 + ch / 0x40 % 0x40 && d == 0x80 + ch % 0x40
  }

  lemma Rejoin4(ch: nat, a: byte, b: byte, c: byte, d: byte)
    requires 0x1_0000 <= ch < 0x20_0000 && Spells4(ch, a, b, c, d)
    ensures Join4(a, b, c, d) == ch && a < 0xF8
  {
    Shift12(ch);
    Shift18(ch);
    var q := ch / 0x40;
    var p := q / 0x40;
    var x := p / 0x40;
    assert x < 8 && a as int % 8 == x;
    Tail(b, p % 0x40);
    Tail(c, q % 0x40);
    Tail(d, ch % 0x40);
    assert x * 0x40 + p % 0x40 == p;
    assert p * 0x40 + q % 0x40 == q;
  }

  // Joining accepted bytes and splitting the code point again.

  lemma Resplit2(a: byte, b: byte)
    requires 0xC0 <= a < 0xE0 && Continues(b) && 0x80 <= Join2(a, b)
    ensures Join2(a, b) < 0x800 && Encode(Join2(a, b)) == [a, b]
  {
    assert Join2(a, b) == (a - 0xC0) * 0x40 + (b - 0x80);
  }

  lemma ThreeDigits(x: nat, y: nat, z: nat, ch: nat)
    requires x < 16 && y < 0x40 && z < 0x40 && ch == (x * 0x40 + y) * 0x40 + z
    ensures ch / 0x1000 == x && ch / 0x40 % 0x40 == y && ch % 0x40 == z
  {
    Shift6(x * 0x40 + y, z);
    Shift6(x, y);
    Shift12(ch);
  }

  lemma Digits3(a: byte, b: byte, c: byte, ch: nat)
    requires 0xE0 <= a < 0xF0 && Continues(b) && Continues(c) && ch == Join3(a, b, c)
    ensures ch < 0x1_0000 && 0xE0 + ch / 0x1000 == a && 0x80 + ch / 0x40 % 0x40 == b && 0x80 + ch % 0x40 == c
  {
    var x, y, z := a - 0xE0, b - 0x80, c - 0x80;
    Lead3(a, x);
    Tail(b, y);
    Tail(c, z);
    ThreeDigits(x, y, z, ch);
  }

  lemma Lead3(a: byte, x: nat)
    requires 0xE0 <= a < 0xF0 && x == a - 0xE0
    ensures a as int % 0x10 == x
  {
  }

  lemma EncodesAs3(ch: nat, a: byte, b: byte, c: byte)
    requires 0x800 <= ch < 0x1_0000
    requires 0xE0 + ch / 0x1000 == a && 0x80 + ch / 0x40 % 0x40 == b && 0x80 + ch % 0x40 == c
    ensures Encode(ch) == [a, b, c]
  {
  }

  lemma Resplit3(a: byte, b: byte, c: byte)
    requires 0xE0 <= a < 0xF0 && Continues(b) && Continues(c) && 0x800 <= Join3(a, b, c)
    ensures Join3(a, b, c) < 0x1_0000 && Encode(Join3(a, b, c)) == [a, b, c]
  {
    hide Join3, Encode;
    var ch := Join3(a, b, c);
    Digits3(a, b, c, ch);
    EncodesAs3(ch, a, b, c);
  }

  lemma Base64Digits(x: nat, y: nat, z: nat, w: nat, ch: nat)
    requires x < 8 && y < 0x40 && z < 0x40 && w < 0x40 && ch == ((x * 0x40 + y) * 0x40 + z) * 0x40 + w
    ensures ch / 0x4_0000 == x && ch / 0x1000 % 0x40 == y && ch / 0x40 % 0x40 == z && ch % 0x40 == w
  {
    Shift6((x * 0x40 + y) * 0x40 + z, w);
    Shift6(x * 0x40 + y, z);
    Shift6(x, y);
    Shift12(ch);
    Shift18(ch);
  }

  lemma Digits4(a: byte, b: byte, c: byte, d: byte, ch: nat)
    requires 0xF0 <= a < 0xF8 && Continues(b) && Continues(c) && Continues(d) && ch == Join4(a, b, c, d)
    ensures ch < 0x20_0000 && Spells4(ch, a, b, c, d)
  {
    var x, y, z, w := a - 0xF0, b - 0x80, c - 0x80, d - 0x80;
    Tail(b, y);
    Tail(c, z);
    Tail(d, w);
    Base64Digits(x, y, z, w, ch);
  }

  lemma EncodesAs4(ch: nat, a: byte, b: byte, c: byte, d: byte)
    requires 0x1_0000 <= ch
    requires Spells4(ch, a, b, c, d)
    ensures Encode(ch) == [a, b, c, d]
  {
  }

  lemma Resplit4(a: byte, b: byte, c: byte, d: byte)
    requires 0xF0 <= a < 0xF8 && Continues(b) && Continues(c) && Continues(d) && 0x1_0000 <= Join4(a, b, c, d)
    ensures Join4(a, b, c, d) < 0x20_0000 && Encode(Join4(a, b, c, d)) == [a, b, c, d]
  {
    var ch := Join4(a, b, c, d);
    Digits4(a, b, c, d, ch);
    EncodesAs4(ch, a, b, c, d);
  }

  // What the reader makes of a well-formed group of bytes.

  lemma Getc2(a: byte, b: byte, rest: seq<byte>)
    requires 0xC0 <= a < 0xE0 && Continues(b) && 0x80 <= Join2(a, b)
    ensures Getc([a, b] + rest) == Char(Join2(a, b), rest)
  {
    assert ([a, b] + rest)[1..] == [b] + rest;
    assert ([b] + rest)[1..] == rest;
  }

  lemma Getc3(a: byte, b: byte, c: byte, rest: seq<byte>)
    requires 0xE0 <= a < 0xF0 && Continues(b) && Continues(c) && 0x800 <= Join3(a, b, c)
    ensures Getc([a, b, c] + rest) == if Join3(a, b, c) == BOM then Getc(rest) else Char(Join3(a, b, c), rest)
  {
    assert ([a, b, c] + rest)[1..] == [b, c] + rest;
    assert ([b, c] + rest)[2..] == rest;
  }

  lemma Getc4(a: byte, b: byte, c: byte, d: byte, rest: seq<byte>)
    requires 0xF0 <= a && Continues(b) && Continues(c) && Continues(d)
    ensures a < 0xF8 && 0x1_0000 <= Join4(a, b, c, d) ==>
              Getc([a, b, c, d] + rest) == Char(Join4(a, b, c, d), rest)
    ensures a >= 0xF8 ==> !Getc([a, b, c, d] + rest).Char?
  {
    assert ([a, b, c, d] + rest)[1..] == [b, c, d] + rest;
    assert ([b, c, d] + rest)[3..] == rest;
  }

  lemma GetcLegal3(c: nat, rest: seq<byte>)
    requires 0x800 <= c < 0x1_0000 && c != BOM
    ensures Getc(Encode(c) + rest) == Char(c, rest)
  {
    var x, y, z: byte := 0xE0 + c / 0x1000, 0x80 + c / 0x40 % 0x40, 0x80 + c % 0x40;
    Rejoin3(c);
    Getc3(x, y, z, rest);
  }

  lemma GetcLegal4(c: nat, rest: seq<byte>)
    requires 0x1_0000 <= c < 0x20_0000
    ensures Getc(Encode(c) + rest) == Char(c, rest)
  {
    var x, y, z, w: byte :=
      0xF0 + c / 0x4_0000 % 0x10, 0x80 + c / 0x1000 % 0x40, 0x80 + c / 0x40 % 0x40, 0x80 + c % 0x40;
    EncodesAs4(c, x, y, z, w);
    Rejoin4(c, x, y, z, w);
    assert Continues(y) && Continues(z) && Continues(w);
    Getc4(x, y, z, w, rest);
  }

  /** The reader undoes the encoder on a legal code point. */
  lemma GetcLegal(c: nat, rest: seq<byte>)
    requires Legal(c)
    ensures Getc(Encode(c) + rest) == Char(c, rest)
  {
    if c < 0x80 {
      assert ([c] + rest)[1..] == rest;
    } else if c < 0x800 {
      Rejoin2(c);
      Getc2(0xC0 + c / 0x40, 0x80 + c % 0x40, rest);
    } else if c < 0x1_0000 {
      GetcLegal3(c, rest);
    } else {
      GetcLegal4(c, rest);
    }
  }

  /** ... and on no other: exactly the legal code points survive. */
  lemma SurvivesIffLegal(c: nat, rest: seq<byte>)
    ensures Getc(Encode(c) + rest) == Char(c, rest) <==> Legal(c)
    ensures Legal(c) <==> c in {9, 10, 13} || (32 <= c < 0x20_0000 && c != 0xFEFF)
  {
    if Legal(c) {
      GetcLegal(c, rest);
    } else if Getc(Encode(c) + rest) == Char(c, rest) {
      GetcCanonical(Encode(c) + rest);
    }
  }

  /** The bytes are this code point in UTF-8, by the table of section 3 of RFC 3629: a lead byte that tells how many
      bytes follow, six bits in each of these, and no form longer than needed. Four bytes hold 21 bits here. */
  predicate IsUtf8(bs: seq<byte>, c: nat) {
    match |bs|
    case 1 => c < 0x80 && bs[0] == c
    case 2 => 0xC0 <= bs[0] < 0xE0 && IsTail(bs[1..]) && c >= 0x80 && c == 0x40 * (bs[0] as int - 0xC0) + (bs[1] as int - 0x80)
    case 3 =>
      && 0xE0 <= bs[0] < 0xF0 && IsTail(bs[1..]) && c >= 0x800
      && c == 0x1000 * (bs[0] as int - 0xE0) + 0x40 * (bs[1] as int - 0x80) + (bs[2] as int - 0x80)
    case 4 =>
      && 0xF0 <= bs[0] < 0xF8 && IsTail(bs[1..]) && c >= 0x1_0000
      && c == 0x4_0000 * (bs[0] as int - 0xF0) + 0x1000 * (bs[1] as int - 0x80)
              + 0x40 * (bs[2] as int - 0x80) + (bs[3] as int - 0x80)
    case _ => false
  }

  predicate IsTail(bs: seq<byte>) {
    forall i :: 0 <= i < |bs| ==> 0x80 <= bs[i] < 0xC0
  }

  /** The bytes put out for a code point are its UTF-8 form, and no others are. */
  lemma EncodesUtf8(bs: seq<byte>, c: nat)
    requires c < 0x20_0000
    ensures bs == Encode(c) <==> IsUtf8(bs, c)
  {
    hide Encode, Join3, Join4;
    EncodedForm(c);
    if IsUtf8(bs, c) {
      if |bs| == 1 {
        EncodesAs1(bs[0]);
      } else if |bs| == 2 {
        assert Join2(bs[0], bs[1]) == c;
        Resplit2(bs[0], bs[1]);
      } else if |bs| == 3 {
        Joined3(bs[0], bs[1], bs[2]);
        Resplit3(bs[0], bs[1], bs[2]);
      } else {
        Joined4(bs[0], bs[1], bs[2], bs[3]);
        Resplit4(bs[0], bs[1], bs[2], bs[3]);
      }
    }
  }

  lemma EncodedForm(c: nat)
    requires c < 0x20_0000
    ensures IsUtf8(Encode(c), c)
  {
    if c >= 0x1_0000 {
      var x, y, z, w: byte :=
        0xF0 + c / 0x4_0000 % 0x10, 0x80 + c / 0x1000 % 0x40, 0x80 + c / 0x40 % 0x40, 0x80 + c % 0x40;
      EncodesAs4(c, x, y, z, w);
      Rejoin4(c, x, y, z, w);
      Joined4(x, y, z, w);
    } else if c >= 0x800 {
      Shift12(c);
    }
  }

  lemma Joined3(a: byte, b: byte, c: byte)
    requires 0xE0 <= a < 0xF0 && 0x80 <= b < 0xC0 && 0x80 <= c < 0xC0
    ensures Join3(a, b, c) == 0x1000 * (a - 0xE0) + 0x40 * (b - 0x80) + (c - 0x80)
  {
    Lead3(a, a - 0xE0);
    Tail(b, b - 0x80);
    Tail(c, c - 0x80);
  }

  lemma Joined4(a: byte, b: byte, c: byte, d: byte)
    requires 0xF0 <= a < 0xF8 && 0x80 <= b < 0xC0 && 0x80 <= c < 0xC0 && 0x80 <= d < 0xC0
    ensures Join4(a, b, c, d) == 0x4_0000 * (a - 0xF0) + 0x1000 * (b - 0x80) + 0x40 * (c - 0x80) + (d - 0x80)
  {
    Tail(b, b - 0x80);
    Tail(c, c - 0x80);
    Tail(d, d - 0x80);
  }

  /** The input without its leading byte order marks, which the reader strips. */
  function StripBoms(s: seq<byte>): seq<byte>
    decreases |s|
  {
    if Encode(BOM) <= s then StripBoms(s[|Encode(BOM)|..]) else s
  }

  lemma EncodesAs1(c: byte)
    requires c < 0x80
    ensures Encode(c) == [c]
  {
  }

  lemma GetcSplits(s: seq<byte>)
    requires Getc(s).Char? && !(Encode(BOM) <= s)
    ensures Legal(Getc(s).ch) && s == Encode(Getc(s).ch) + Getc(s).rest
  {
    hide Encode, Join2, Join3, Join4;
    var c, t := s[0], s[1..];
    assert s == [c] + t;
    if 0xF0 <= c {
      assert s == [c, t[0], t[1], t[2]] + t[3..];
      Getc4(c, t[0], t[1], t[2], t[3..]);
      Resplit4(c, t[0], t[1], t[2]);
    } else if 0xE0 <= c {
      assert s == [c, t[0], t[1]] + t[2..];
      Getc3(c, t[0], t[1], t[2..]);
      Resplit3(c, t[0], t[1]);
    } else if 0xC0 <= c {
      assert s == [c, t[0]] + t[1..];
      Getc2(c, t[0], t[1..]);
      Resplit2(c, t[0]);
    } else {
      EncodesAs1(c);
    }
  }

  lemma BomBytes()
    ensures Encode(BOM) == [0xEF, 0xBB, 0xBF] && Join3(0xEF, 0xBB, 0xBF) == BOM
  {
  }

  lemma BomSkipped(s: seq<byte>)
    requires Encode(BOM) <= s
    ensures |Encode(BOM)| == 3 && Getc(s) == Getc(s[3..])
  {
    hide Encode, Join3;
    BomBytes();
    assert s == [0xEF, 0xBB, 0xBF] + s[3..];
    Getc3(0xEF, 0xBB, 0xBF, s[3..]);
  }

  /** Only the canonical encoding of a legal code point is ever accepted: overlong forms never are. */
  lemma {:induction false} GetcCanonical(s: seq<byte>)
    requires Getc(s).Char?
    ensures Legal(Getc(s).ch)
    ensures StripBoms(s) == Encode(Getc(s).ch) + Getc(s).rest
    decreases |s|
  {
    hide Getc, Encode;
    if Encode(BOM) <= s {
      BomSkipped(s);
      GetcCanonical(s[3..]);
    } else {
      GetcSplits(s);
    }
  }
}
