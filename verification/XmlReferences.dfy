/** Character references: a number written in decimal or hexadecimal digits is read as that number. */
module XmlReferences {
  import opened Utf8
  import opened Entities
  import opened XmlTree
  import opened XmlReader
  import opened XmlRoundTrip

  // ---- Writing numbers ----

  /** The characters that can stand for a digit: hexadecimal letters come in both cases. */
  function DigitForms(v: nat): set<byte>
    requires v < 16
  {
    if v < 10 then {48 + v} else {55 + v, 87 + v}
  }

  /** The string spells the number: its last digit is the remainder, those before it spell the quotient;
      zeros may lead. */
  predicate Spells(ds: Str, base: nat, c: nat)
    requires base == 10 || base == 16
    decreases |ds|
  {
    && ds != []
    && ds[|ds| - 1] in DigitForms(c % base)
    && if |ds| == 1 then c < base else Spells(ds[..|ds| - 1], base, c / base)
  }

  /** The shortest spelling of a number. */
  function Numeral(c: nat, base: nat, upper: bool): (ds: Str)
    requires base == 10 || base == 16
    ensures Spells(ds, base, c)
  {
    var v := c % base;
    var digit: Str := [if v < 10 then 48 + v else if upper then 55 + v else 87 + v];
    if c < base then digit else Numeral(c / base, base, upper) + digit
  }

  /** What introduces a number in a reference: `#` or `#x`. */
  function Sign(base: nat): Str {
    if base == 16 then [HASH, 120] else [HASH]
  }

  /** A whole reference, from the ampersand to the semicolon. */
  function Reference(ds: Str, base: nat): Str {
    [AMP] + (Sign(base) + ds + [SEMI])
  }

  // ---- Reading numbers ----

  lemma DigitRead(b: byte, v: nat, base: nat)
    requires base == 10 || base == 16
    requires v < base && b in DigitForms(v)
    ensures DigitValue(b) == v && IsAlnum(b)
  {
  }

  lemma {:induction false} DigitsAppend(s: Str, b: byte, base: nat, sum: nat)
    requires forall i :: 0 <= i < |s| ==> DigitValue(s[i]) < base
    requires DigitValue(b) < base
    ensures Digits(s + [b], base, sum) == Digits(s, base, sum) * base + DigitValue(b)
    decreases |s|
  {
    hide DigitValue;
    if s == [] {
      assert (s + [b])[1..] == [];
    } else {
      assert (s + [b])[1..] == s[1..] + [b];
      DigitsAppend(s[1..], b, base, sum * base + DigitValue(s[0]));
    }
  }

  lemma {:induction false} SpelledDigits(ds: Str, base: nat, c: nat)
    requires base == 10 || base == 16
    requires Spells(ds, base, c)
    ensures Digits(ds, base, 0) == c && ds != []
    ensures forall i :: 0 <= i < |ds| ==> DigitValue(ds[i]) < base && IsAlnum(ds[i])
    decreases |ds|
  {
    hide DigitForms, DigitValue, IsAlnum, Digits;
    var before, b := ds[..|ds| - 1], ds[|ds| - 1];
    assert ds == before + [b];
    DigitRead(b, c % base, base);
    if |ds| == 1 {
      NoDigits(base);
    } else {
      SpelledDigits(before, base, c / base);
    }
    DigitsAppend(before, b, base, 0);
  }

  lemma NoDigits(base: nat)
    ensures Digits([], base, 0) == 0
  {
  }

  /** Digits, with or without zeros in front, hold no `x` that would be skipped. */
  lemma NoSecondPrefix(ds: Str)
    requires forall i :: 0 <= i < |ds| ==> DigitValue(ds[i]) < 16
    ensures !(At(ds, 1) in {88, 120})
  {
  }

  lemma ReferenceValue(ds: Str, base: nat, c: nat)
    requires base == 10 || base == 16
    requires Spells(ds, base, c)
    ensures EntityChar(Sign(base) + ds) == ToInt(c)
    ensures base == 10 ==> ds[0] != 120
  {
    hide ToInt, Spells, Digits;
    SpelledDigits(ds, base, c);
    var ent := Sign(base) + ds;
    if base == 16 {
      NoSecondPrefix(ds);
      assert ent[2..] == ds;
    } else {
      assert ent[1..] == ds && ent[1] == ds[0];
    }
  }

  /** A reference whose number and sign fit the 64-byte name buffer stands for that number: beyond 32 bits only
      the low ones count, and a number that is no character afterwards, or exceeds `long`, is refused. */
  lemma ReferenceRead(ds: Str, base: nat, c: nat, s: Str)
    requires base == 10 || base == 16
    requires Spells(ds, base, c) && |Sign(base) + ds| <= 63
    ensures GetEntity(Sign(base) + ds + [SEMI] + s)
            == Scan(if Referable(c) then c % 0x1_0000_0000 else EOF, [], s)
    ensures c < 0x8000_0000 ==> (Referable(c) <==> !BadChar(c)) && c % 0x1_0000_0000 == c
  {
    hide EntityChars, EntityChar, Spells, Digits, Sign, IsAlnum;
    var ent := Sign(base) + ds;
    SignedDigits(ds, base, c);
    assert ent + [SEMI] + s == ent + ([SEMI] + s);
    EntityCharsRead(ent, s, []);
    assert [] + ent == ent;
    ReferenceValue(ds, base, c);
  }

  /** The numbers a reference can have: what is left of them in an `int` is a character. */
  predicate Referable(c: nat) {
    c < 0x8000_0000_0000_0000 && c % 0x1_0000_0000 < 0x8000_0000 && !BadChar(c % 0x1_0000_0000)
  }

  lemma SignedDigits(ds: Str, base: nat, c: nat)
    requires base == 10 || base == 16
    requires Spells(ds, base, c)
    ensures forall i :: 0 <= i < |Sign(base) + ds| ==> IsAlnum((Sign(base) + ds)[i]) || (Sign(base) + ds)[i] == HASH
  {
    hide Spells, Digits, DigitValue;
    SpelledDigits(ds, base, c);
  }

  /** Hexadecimal digits may carry a second prefix, which is skipped: `&#x0x41;` is read like `&#x41;`. */
  lemma PrefixedRead(x: byte, ds: Str, c: nat, s: Str)
    requires x == 88 || x == 120
    requires Spells(ds, 16, c) && |ds| <= 59
    ensures GetEntity([HASH, 120] + ([ZERO, x] + ds) + [SEMI] + s)
            == Scan(if Referable(c) then c % 0x1_0000_0000 else EOF, [], s)
  {
    hide EntityChars, EntityChar, Spells, Digits, IsAlnum;
    var ent := [HASH, 120] + ([ZERO, x] + ds);
    PrefixedDigits(x, ds, c);
    assert ent + [SEMI] + s == ent + ([SEMI] + s);
    EntityCharsRead(ent, s, []);
    assert [] + ent == ent;
  }

  lemma PrefixedDigits(x: byte, ds: Str, c: nat)
    requires x == 88 || x == 120
    requires Spells(ds, 16, c)
    ensures var ent := [HASH, 120] + ([ZERO, x] + ds);
            && EntityChar(ent) == ToInt(c)
            && forall i :: 0 <= i < |ent| ==> IsAlnum(ent[i]) || ent[i] == HASH
  {
    hide ToInt, Spells, Digits;
    SpelledDigits(ds, 16, c);
    var ent := [HASH, 120] + ([ZERO, x] + ds);
    assert ent[2..] == [ZERO, x] + ds && ([ZERO, x] + ds)[2..] == ds;
  }

  /** A longer one is refused. */
  lemma ReferenceTooLong(ds: Str, base: nat, c: nat, s: Str)
    requires base == 10 || base == 16
    requires Spells(ds, base, c) && |Sign(base) + ds| > 63
    ensures GetEntity(Sign(base) + ds + [SEMI] + s).Scan? && GetEntity(Sign(base) + ds + [SEMI] + s).ch == EOF
  {
    hide EntityChars, EntityChar, Spells, Digits, Sign, IsAlnum;
    SignedDigits(ds, base, c);
    NameTooLong(Sign(base) + ds, [SEMI] + s, []);
    assert Sign(base) + ds + [SEMI] + s == Sign(base) + ds + ([SEMI] + s);
  }

  lemma {:induction false} NameTooLong(name: Str, s: Str, ent: Str)
    requires forall i :: 0 <= i < |name| ==> IsAlnum(name[i]) || name[i] == HASH
    requires |ent| <= 63 < |ent| + |name|
    ensures EntityChars(name + s, ent).Scan? && EntityChars(name + s, ent).ch != SEMI
    decreases |name|
  {
    hide Next;
    assert name + s == [name[0]] + (name[1..] + s);
    NextAscii(name[0], name[1..] + s);
    if |ent| < 63 {
      NameTooLong(name[1..], s, ent + [name[0]]);
    }
  }

  /** A reference to a character. */
  datatype Ref = Ref(digits: Str, base: nat, ch: nat)

  predicate IsRef(r: Ref) {
    && (r.base == 10 || r.base == 16) && Spells(r.digits, r.base, r.ch) && |Sign(r.base) + r.digits| <= 63
    && r.ch < 0x8000_0000 && !BadChar(r.ch)
  }

  lemma RefDecoded(r: Ref, s: Str)
    requires IsRef(r)
    ensures Next(Reference(r.digits, r.base) + s) == Scan(AMP, [], Sign(r.base) + r.digits + [SEMI] + s)
    ensures Decoded(Next(Reference(r.digits, r.base) + s)) == Scan(r.ch, [], s)
  {
    hide Next, GetEntity, Spells, Sign;
    var rest := Sign(r.base) + r.digits + [SEMI];
    assert Reference(r.digits, r.base) + s == [AMP] + (rest + s);
    NextAscii(AMP, rest + s);
    ReferenceRead(r.digits, r.base, r.ch, s);
  }
}
