/** mxml_fd_getc and mxml_fd_read (mxml-file.c): characters from a descriptor through a refilled buffer.
    However the bytes arrive, the characters are those of the string reader. */
module FdReader {
  import opened Utf8
  import opened XmlRoundTrip

  const BUFFER_SIZE: nat := 8192

  /** What one call of `read` does, before the end of the file: deliver some bytes, or ask to be called
      again. */
  datatype Arrival = Data(bytes: seq<byte>) | Again

  predicate Deliverable(arrivals: seq<Arrival>) {
    forall i :: 0 <= i < |arrivals| && arrivals[i].Data? ==> 1 <= |arrivals[i].bytes| <= BUFFER_SIZE
  }

  /** The bytes still to arrive. */
  function Stream(arrivals: seq<Arrival>): seq<byte> {
    if arrivals == [] then []
    else if arrivals[0].Again? then Stream(arrivals[1..])
    else arrivals[0].bytes + Stream(arrivals[1..])
  }

  /** The characters a reader delivers before it first reports the end or an error. */
  function Delivered(s: seq<byte>): seq<nat>
    decreases |s|
  {
    var r := Getc(s);
    if r.Char? then [r.ch] + Delivered(r.rest) else []
  }

  /** One character as the caller sees it; the encoding switch of a UTF-16 mark is reported apart. */
  datatype Got = Ch(ch: nat) | End | Switch

  /** A descriptor read agrees with a string read: the same character with the same bytes left, or no
      character. */
  predicate Agrees(got: Got, left: seq<byte>, r: Read) {
    match r
    case Char(ch, rest) => got == Ch(ch) && left == rest
    case Eof(_) => got == End
    case Utf16(rest) => got == Switch && left == rest
  }

  class FdBuf {
    const buffer: array<byte>
    var current: nat
    var end: nat
    var arrivals: seq<Arrival>

    ghost predicate Valid()
      reads this, buffer
    {
      buffer.Length == BUFFER_SIZE && current <= end <= BUFFER_SIZE && Deliverable(arrivals)
    }

    /** Everything not yet consumed. */
    ghost function Pending(): seq<byte>
      requires Valid()
      reads this, buffer
    {
      buffer[current..end] + Stream(arrivals)
    }

    constructor (arrivals: seq<Arrival>)
      requires Deliverable(arrivals)
      ensures Valid() && fresh(buffer) && Pending() == Stream(arrivals)
    {
      buffer := new byte[BUFFER_SIZE](i => 0);
      current := 0;
      end := 0;
      this.arrivals := arrivals;
    }

    /** mxml_fd_read: refill the empty buffer with what arrives next. */
    method Refill() returns (ok: bool)
      requires Valid() && current == end
      modifies this, buffer
      ensures Valid() && Pending() == old(Pending())
      ensures ok <==> old(Pending()) != []
      ensures ok ==> current < end
    {
      while arrivals != [] && arrivals[0].Again?
        invariant Valid() && current == end && Stream(arrivals) == old(Stream(arrivals))
        decreases |arrivals|
      {
        arrivals := arrivals[1..];
      }
      if arrivals == [] {
        return false;
      }
      var bytes := arrivals[0].bytes;
      arrivals := arrivals[1..];
      forall i | 0 <= i < |bytes| {
        buffer[i] := bytes[i];
      }
      current := 0;
      end := |bytes|;
      assert buffer[0..end] == bytes;
      return true;
    }

    /** The next byte, if there is one. */
    method NextByte() returns (ok: bool, b: byte)
      requires Valid()
      modifies this, buffer
      ensures Valid()
      ensures ok <==> old(Pending()) != []
      ensures ok ==> b == old(Pending())[0] && Pending() == old(Pending())[1..]
      ensures !ok ==> Pending() == [] && b == 0
    {
      if current >= end {
        ok := Refill();
        if !ok {
          return false, 0;
        }
      }
      b := buffer[current];
      assert buffer[current..end] == [b] + buffer[current + 1..end];
      current := current + 1;
      ok := true;
    }

    // The byte after a UTF-16 mark's first one.
    method Mark(second: byte, ghost t: seq<byte>) returns (got: Got)
      requires Valid() && Pending() == t && second != 0
      modifies this, buffer
      ensures Valid()
      ensures At(t, 0) == second ==> t != [] && got == Switch && Pending() == t[1..]
      ensures At(t, 0) != second ==> got == End
    {
      var ok, ch := NextByte();
      if !ok || ch != second {
        return End;
      }
      return Switch;
    }

    // A continuation byte, as its six bits.
    method Continuation(ghost t: seq<byte>) returns (ok: bool, bits: nat)
      requires Valid() && Pending() == t
      modifies this, buffer
      ensures Valid()
      ensures ok <==> Continues(At(t, 0))
      ensures ok ==> t != [] && bits == t[0] as int % 0x40 && Pending() == t[1..]
    {
      var more, temp := NextByte();
      ok := more && 0x80 <= temp < 0xC0;
      bits := temp % 0x40;
    }

    method Two(c: byte, ghost t: seq<byte>) returns (got: Got)
      requires Valid() && Pending() == t && 0xC0 <= c < 0xE0
      modifies this, buffer
      ensures Valid() && Agrees(got, Pending(), Getc([c] + t))
    {
      hide Join2, Join3, Join4;
      assert ([c] + t)[1..] == t;
      var ok, bits := Continuation(t);
      if !ok {
        return End;
      }
      var ch := c as int % 0x20 * 0x40 + bits;
      JoinedTwo(c, t[0], ch);
      if ch < 0x80 {
        return End;
      }
      return Ch(ch);
    }

    method Three(c: byte, ghost t: seq<byte>) returns (got: Got)
      requires Valid() && Pending() == t && 0xE0 <= c < 0xF0
      modifies this, buffer
      ensures Valid() && Agrees(got, Pending(), Getc([c] + t))
      decreases |t|
    {
      hide Join2, Join3, Join4;
      assert ([c] + t)[1..] == t;
      var ok, bits := Continuation(t);
      if !ok {
        return End;
      }
      var ch := c as int % 0x10 * 0x40 + bits;
      ghost var t1 := t[1..];
      ok, bits := Continuation(t1);
      if !ok {
        return End;
      }
      ch := ch * 0x40 + bits;
      JoinedThree(c, t[0], t1[0], ch);
      assert t1[1..] == t[2..];
      if ch < 0x800 {
        return End;
      }
      if ch == BOM {
        got := Getchar();
        return;
      }
      return Ch(ch);
    }

    method Four(c: byte, ghost t: seq<byte>) returns (got: Got)
      requires Valid() && Pending() == t && 0xF0 <= c < 0xF8
      modifies this, buffer
      ensures Valid() && Agrees(got, Pending(), Getc([c] + t))
    {
      hide Join2, Join3, Join4;
      assert ([c] + t)[1..] == t;
      var ok, bits := Continuation(t);
      if !ok {
        return End;
      }
      var ch := c as int % 8 * 0x40 + bits;
      ghost var t1 := t[1..];
      ok, bits := Continuation(t1);
      if !ok {
        return End;
      }
      ch := ch * 0x40 + bits;
      ghost var t2 := t1[1..];
      assert t2 == t[2..];
      ok, bits := Continuation(t2);
      if !ok {
        return End;
      }
      ch := ch * 0x40 + bits;
      JoinedFour(c, t[0], t1[0], t2[0], ch);
      assert t2[1..] == t[3..];
      if ch < 0x1_0000 {
        return End;
      }
      return Ch(ch);
    }

    /** mxml_fd_getc, while the encoding is UTF-8: it agrees with the string reader on the bytes pending,
        wherever the refills fall. */
    method Getchar() returns (got: Got)
      requires Valid()
      modifies this, buffer
      ensures Valid() && Agrees(got, Pending(), Getc(old(Pending())))
      decreases |Pending()|
    {
      hide Join2, Join3, Join4;
      ghost var s := Pending();
      var ok, c := NextByte();
      if !ok {
        return End;
      }
      ghost var t := s[1..];
      assert s == [c] + t;
      if c < 0x80 {
        if BadChar(c) {
          return End;
        }
        return Ch(c);
      } else if c == 0xFE {
        got := Mark(0xFF, t);
      } else if c == 0xFF {
        got := Mark(0xFE, t);
      } else if 0xC0 <= c < 0xE0 {
        got := Two(c, t);
      } else if 0xE0 <= c < 0xF0 {
        got := Three(c, t);
      } else if 0xF0 <= c < 0xF8 {
        got := Four(c, t);
      } else {
        return End;
      }
    }

    /** Read until the end or an error: exactly the characters of the string. */
    method ReadAll() returns (chars: seq<nat>)
      requires Valid()
      modifies this, buffer
      ensures chars == Delivered(old(Pending()))
    {
      hide Getc;
      chars := [];
      ghost var s := Pending();
      var got := Getchar();
      while got.Ch?
        invariant Valid() && Agrees(got, Pending(), Getc(s))
        invariant chars + Delivered(s) == Delivered(old(Pending()))
        decreases |s|
      {
        GetcShrinks(s);
        chars := chars + [got.ch];
        s := Pending();
        got := Getchar();
      }
    }
  }

  // ---- whole strings of characters ----

  lemma {:induction false} DeliveredLegal(s: seq<byte>)
    ensures forall c :: c in Delivered(s) ==> Legal(c)
    decreases |s|
  {
    hide Getc;
    if Getc(s).Char? {
      GetcShrinks(s);
      GetcCanonical(s);
      DeliveredLegal(Getc(s).rest);
    }
  }

  lemma {:induction false} EncodedRead(cs: seq<nat>)
    requires forall c :: c in cs ==> Legal(c)
    ensures Delivered(EncodeAll(cs)) == cs
  {
    hide Getc, Encode;
    if cs == [] {
      NothingDelivered();
    } else {
      GetcLegal(cs[0], EncodeAll(cs[1..]));
      EncodedRead(cs[1..]);
    }
  }

  lemma NothingDelivered()
    ensures Delivered([]) == []
  {
  }

  /** A reader delivers exactly the characters that were written, for a sequence of any length, if and only
      if all of them are legal. */
  lemma WrittenDelivered(cs: seq<nat>)
    ensures Delivered(EncodeAll(cs)) == cs <==> forall c :: c in cs ==> Legal(c)
  {
    hide Delivered, EncodeAll;
    DeliveredLegal(EncodeAll(cs));
    if forall c :: c in cs ==> Legal(c) {
      EncodedRead(cs);
    }
  }

  lemma {:induction false} DeliveredShorter(s: seq<byte>)
    ensures |EncodeAll(Delivered(s))| <= |s|
    ensures Encode(BOM) <= s ==> |EncodeAll(Delivered(s))| < |s|
    decreases |s|
  {
    hide Getc, Encode;
    if Encode(BOM) <= s {
      BomSkipped(s);
      SameDelivered(s, s[3..]);
      DeliveredShorter(s[3..]);
    } else if Getc(s).Char? {
      GetcSplits(s);
      DeliveredShorter(Getc(s).rest);
    }
  }

  lemma SameDelivered(s: seq<byte>, t: seq<byte>)
    requires Getc(s) == Getc(t)
    ensures Delivered(s) == Delivered(t)
  {
    hide Getc;
  }

  /** Writing again what a reader delivers gives back the bytes it read if and only if these are text: accepted
      to the end, and without a byte order mark. */
  lemma {:induction false} DeliveredWritten(s: seq<byte>)
    ensures EncodeAll(Delivered(s)) == s <==> IsText(s)
    decreases |s|
  {
    hide Getc, Encode;
    if s != [] {
      if Encode(BOM) <= s {
        DeliveredShorter(s);
      } else if Getc(s).Char? {
        var c, r := Getc(s).ch, Getc(s).rest;
        GetcSplits(s);
        DeliveredWritten(r);
        assert Delivered(s) == [c] + Delivered(r);
        assert EncodeAll(Delivered(s)) == Encode(c) + EncodeAll(Delivered(r));
        TailEqual(Encode(c), EncodeAll(Delivered(r)), r);
      }
    }
  }

  lemma TailEqual(a: seq<byte>, b: seq<byte>, c: seq<byte>)
    ensures a + b == a + c <==> b == c
  {
    if a + b == a + c {
      assert b == (a + b)[|a|..] == (a + c)[|a|..] == c;
    }
  }

  lemma GetcShrinks(s: seq<byte>)
    ensures Getc(s).Char? ==> |Getc(s).rest| < |s|
  {
  }

  lemma JoinedTwo(a: byte, b: byte, ch: nat)
    requires ch == a as int % 0x20 * 0x40 + b as int % 0x40
    ensures ch == Join2(a, b)
  {
  }

  lemma JoinedThree(a: byte, b: byte, c: byte, ch: nat)
    requires ch == (a as int % 0x10 * 0x40 + b as int % 0x40) * 0x40 + c as int % 0x40
    ensures ch == Join3(a, b, c)
  {
  }

  lemma JoinedFour(a: byte, b: byte, c: byte, d: byte, ch: nat)
    requires ch == ((a as int % 8 * 0x40 + b as int % 0x40) * 0x40 + c as int % 0x40) * 0x40 + d as int % 0x40
    ensures ch == Join4(a, b, c, d)
  {
  }

  // ---- chunking ----

  /** A split of a byte string into reads of the given sizes, the rest in reads of one byte. */
  function Split(s: seq<byte>, sizes: seq<nat>): seq<Arrival>
    decreases |s|, |sizes|
  {
    if s == [] then []
    else if sizes == [] then [Data(s[..1])] + Split(s[1..], [])
    else if sizes[0] == 0 then [Again] + Split(s, sizes[1..])
    else
      var n := if sizes[0] <= |s| && sizes[0] <= BUFFER_SIZE then sizes[0] else 1;
      [Data(s[..n])] + Split(s[n..], sizes[1..])
  }

  /** Every split delivers the string. */
  lemma {:induction false} SplitStreams(s: seq<byte>, sizes: seq<nat>)
    ensures Deliverable(Split(s, sizes)) && Stream(Split(s, sizes)) == s
    decreases |s|, |sizes|
  {
    if s != [] {
      if sizes == [] {
        SplitStreams(s[1..], []);
        assert s[..1] + s[1..] == s;
        SplitHead(Data(s[..1]), Split(s[1..], []));
      } else if sizes[0] == 0 {
        SplitStreams(s, sizes[1..]);
        SplitHead(Again, Split(s, sizes[1..]));
      } else {
        var n := if sizes[0] <= |s| && sizes[0] <= BUFFER_SIZE then sizes[0] else 1;
        SplitStreams(s[n..], sizes[1..]);
        assert s[..n] + s[n..] == s;
        SplitHead(Data(s[..n]), Split(s[n..], sizes[1..]));
      }
    }
  }

  lemma SplitHead(a: Arrival, rest: seq<Arrival>)
    requires Deliverable(rest) && (a.Data? ==> 1 <= |a.bytes| <= BUFFER_SIZE)
    ensures Deliverable([a] + rest)
    ensures Stream([a] + rest) == if a.Again? then Stream(rest) else a.bytes + Stream(rest)
  {
    assert ([a] + rest)[1..] == rest;
  }
}
