/** mca_Crc32_ComputeBuf (mca_utils_impl_abb.c): the table-driven checksum against its definition bit by
    bit, and the errors it cannot miss. */
module Crc {
  import opened CrcTable

  const ONES: bv32 := 0xFFFF_FFFF

  // The word operations, by name.
  function Xor(x: bv32, y: bv32): bv32 {
    x ^ y
  }

  function Down(x: bv32): bv32 {
    x >> 8
  }

  function Low(x: bv32): bv32 {
    x & 0xFF
  }

  function Wide(b: bv8): bv32 {
    b as bv32
  }

  // ---- the definition ----

  /** The register after a buffer. */
  function Fold(c: bv32, buf: seq<bv8>): bv32 {
    if buf == [] then c
    else
      var last := |buf| - 1;
      Byte(Xor(Fold(c, buf[..last]), Wide(buf[last])))
  }

  /** The checksum, continuing from an earlier one, 0 for a first buffer. */
  function Crc32(acc: bv32, buf: seq<bv8>): bv32 {
    Xor(Fold(Xor(acc, ONES), buf), ONES)
  }

  // ---- the check value ----

  // The register over the digits 1 to 9, one after the other.
  lemma CheckBytes()
    ensures Byte(Xor(0xFFFFFFFF, Wide(0x31))) == 0x7C231048
    ensures Byte(Xor(0x7C231048, Wide(0x32))) == 0xB0ACBB32
    ensures Byte(Xor(0xB0ACBB32, Wide(0x33))) == 0x77B79C2D
    ensures Byte(Xor(0x77B79C2D, Wide(0x34))) == 0x641C1F5C
    ensures Byte(Xor(0x641C1F5C, Wide(0x35))) == 0x340AC5E3
    ensures Byte(Xor(0x340AC5E3, Wide(0x36))) == 0xF68D2C9E
    ensures Byte(Xor(0xF68D2C9E, Wide(0x37))) == 0xAFFC9660
    ensures Byte(Xor(0xAFFC9660, Wide(0x38))) == 0x651F2550
    ensures Byte(Xor(0x651F2550, Wide(0x39))) == 0x340BC6D9
  {
  }

  lemma FoldStep(buf: seq<bv8>, i: nat, before: bv32, after: bv32)
    requires i < |buf| && Fold(ONES, buf[..i]) == before && Byte(Xor(before, Wide(buf[i]))) == after
    ensures Fold(ONES, buf[..i + 1]) == after
  {
    hide Byte, Xor, Wide;
    assert buf[..i + 1][..i] == buf[..i];
  }

  /** The check value of this checksum, that of the digits 1 to 9. */
  lemma CheckValue(digits: seq<bv8>)
    requires |digits| == 9 && forall i :: 0 <= i < 9 ==> digits[i] == 0x31 + i as bv8
    ensures Crc32(0, digits) == 0xCBF43926
  {
    hide Byte, Wide, Xor, Fold;
    FoldNothing(digits);
    CheckBytes();
    FoldStep(digits, 0, 0xFFFFFFFF, 0x7C231048);
    FoldStep(digits, 1, 0x7C231048, 0xB0ACBB32);
    FoldStep(digits, 2, 0xB0ACBB32, 0x77B79C2D);
    FoldStep(digits, 3, 0x77B79C2D, 0x641C1F5C);
    FoldStep(digits, 4, 0x641C1F5C, 0x340AC5E3);
    FoldStep(digits, 5, 0x340AC5E3, 0xF68D2C9E);
    FoldStep(digits, 6, 0xF68D2C9E, 0xAFFC9660);
    FoldStep(digits, 7, 0xAFFC9660, 0x651F2550);
    FoldStep(digits, 8, 0x651F2550, 0x340BC6D9);
    assert digits[..9] == digits;
    Inverted(0x340BC6D9);
  }

  lemma FoldNothing(buf: seq<bv8>)
    ensures Fold(ONES, buf[..0]) == 0xFFFF_FFFF
  {
  }

  lemma Inverted(x: bv32)
    ensures Xor(0, ONES) == ONES
    ensures Xor(x, ONES) == 0xFFFF_FFFF - x
  {
  }

  // ---- the table step ----

  lemma ShiftXor(x: bv32, y: bv32)
    ensures (x ^ y) >> 1 == (x >> 1) ^ (y >> 1)
  {
  }

  lemma LowXor(x: bv32, y: bv32)
    ensures (x ^ y) & 1 == (x & 1) ^ (y & 1)
    ensures x & 1 == 0 || x & 1 == 1
  {
  }

  lemma XorMoves(a: bv32, b: bv32, p: bv32)
    ensures (a ^ p) ^ b == (a ^ b) ^ p && a ^ (b ^ p) == (a ^ b) ^ p && (a ^ p) ^ (b ^ p) == a ^ b
  {
  }

  lemma BitXor(x: bv32, y: bv32)
    ensures Bit(x ^ y) == Bit(x) ^ Bit(y)
  {
    ShiftXor(x, y);
    LowXor(x, y);
    LowXor(y, x);
    XorMoves(x >> 1, y >> 1, POLY);
  }

  lemma BitLinear(x: bv32, y: bv32)
    ensures Bit(Xor(x, y)) == Xor(Bit(x), Bit(y))
  {
    hide Bit;
    BitXor(x, y);
  }

  /** The register is linear in its contents. */
  lemma ByteLinear(x: bv32, y: bv32)
    ensures Byte(Xor(x, y)) == Xor(Byte(x), Byte(y))
  {
    hide Bit, Xor;
    var x1, y1 := Bit(x), Bit(y);
    var x2, y2 := Bit(x1), Bit(y1);
    var x3, y3 := Bit(x2), Bit(y2);
    var x4, y4 := Bit(x3), Bit(y3);
    var x5, y5 := Bit(x4), Bit(y4);
    var x6, y6 := Bit(x5), Bit(y5);
    var x7, y7 := Bit(x6), Bit(y6);
    BitLinear(x, y);
    BitLinear(x1, y1);
    BitLinear(x2, y2);
    BitLinear(x3, y3);
    BitLinear(x4, y4);
    BitLinear(x5, y5);
    BitLinear(x6, y6);
    BitLinear(x7, y7);
  }

  lemma ByteHigh(x: bv32)
    requires Low(x) == 0
    ensures Byte(x) == Down(x)
  {
  }

  function High(x: bv32): bv32 {
    x & 0xFFFF_FF00
  }

  lemma HighLow(x: bv32)
    ensures Xor(High(x), Low(x)) == x
    ensures Low(High(x)) == 0 && Down(High(x)) == Down(x)
  {
  }

  /** Only the low byte needs the table; the rest just moves down. */
  lemma ByteSplit(x: bv32)
    ensures Byte(x) == Xor(Down(x), Byte(Low(x)))
  {
    hide Byte, Xor, Low, High, Down;
    HighLow(x);
    ByteLinear(High(x), Low(x));
    ByteHigh(High(x));
  }

  lemma LowShift(c: bv32, b: bv8)
    ensures Down(Xor(c, Wide(b))) == Down(c)
  {
  }

  lemma LowSmall(x: bv32)
    ensures Low(x) <= 0xFF
  {
  }

  function Step(c: bv32, b: bv8): bv32 {
    Xor(Down(c), TableAt(Low(Xor(c, Wide(b)))))
  }

  lemma StepIsBitwise(c: bv32, b: bv8)
    ensures Step(c, b) == Byte(Xor(c, Wide(b)))
  {
    hide Byte, TableAt, Xor, Low, Down, Wide;
    var y := Xor(c, Wide(b));
    LowSmall(y);
    TableIsBitwise(Low(y));
    ByteSplit(y);
    LowShift(c, b);
  }

  /** The table-driven loop computes the checksum bit by bit, on every buffer. */
  method ComputeBuf(inCrc32: bv32, buf: seq<bv8>) returns (r: bv32)
    ensures r == Crc32(inCrc32, buf)
  {
    hide Byte, TableAt, Xor, Low, Down, Wide, Step;
    var crc32 := Xor(inCrc32, ONES);
    var i := 0;
    while i < |buf|
      invariant 0 <= i <= |buf|
      invariant crc32 == Fold(Xor(inCrc32, ONES), buf[..i])
    {
      StepIsBitwise(crc32, buf[i]);
      assert buf[..i + 1][..i] == buf[..i];
      crc32 := Step(crc32, buf[i]);
      i := i + 1;
    }
    assert buf[..i] == buf;
    r := Xor(crc32, ONES);
  }

  // ---- continuing a checksum ----

  lemma {:induction false} FoldAppend(c: bv32, a: seq<bv8>, b: seq<bv8>)
    ensures Fold(c, a + b) == Fold(Fold(c, a), b)
  {
    hide Byte, Xor, Wide;
    if b == [] {
      assert a + b == a;
    } else {
      var last := |b| - 1;
      assert (a + b)[..|a + b| - 1] == a + b[..last];
      FoldAppend(c, a, b[..last]);
    }
  }

  lemma TwiceInverted(x: bv32)
    ensures Xor(Xor(x, ONES), ONES) == x
  {
  }

  /** A buffer may be fed in pieces: the checksum of the second continues that of the first. */
  lemma Accumulates(acc: bv32, a: seq<bv8>, b: seq<bv8>)
    ensures Crc32(Crc32(acc, a), b) == Crc32(acc, a + b)
  {
    hide Fold, Xor;
    TwiceInverted(Fold(Xor(acc, ONES), a));
    FoldAppend(Xor(acc, ONES), a, b);
  }

  // ---- errors that cannot be missed ----

  lemma BitInjective(x: bv32, y: bv32)
    requires Bit(x) == Bit(y)
    ensures x == y
  {
  }

  lemma ByteInjective(x: bv32, y: bv32)
    requires Byte(x) == Byte(y)
    ensures x == y
  {
    hide Bit;
    var x1, y1 := Bit(x), Bit(y);
    var x2, y2 := Bit(x1), Bit(y1);
    var x3, y3 := Bit(x2), Bit(y2);
    var x4, y4 := Bit(x3), Bit(y3);
    var x5, y5 := Bit(x4), Bit(y4);
    var x6, y6 := Bit(x5), Bit(y5);
    var x7, y7 := Bit(x6), Bit(y6);
    BitInjective(x7, y7);
    BitInjective(x6, y6);
    BitInjective(x5, y5);
    BitInjective(x4, y4);
    BitInjective(x3, y3);
    BitInjective(x2, y2);
    BitInjective(x1, y1);
    BitInjective(x, y);
  }

  lemma XorCancels(c: bv32, d: bv32, b: bv32)
    requires Xor(c, b) == Xor(d, b)
    ensures c == d
  {
  }

  /** Registers that differ stay different whatever equal bytes follow. */
  lemma {:induction false} FoldInjective(c: bv32, d: bv32, buf: seq<bv8>)
    requires Fold(c, buf) == Fold(d, buf)
    ensures c == d
  {
    hide Byte, Xor, Wide;
    if buf != [] {
      var last := |buf| - 1;
      var b := Wide(buf[last]);
      ByteInjective(Xor(Fold(c, buf[..last]), b), Xor(Fold(d, buf[..last]), b));
      XorCancels(Fold(c, buf[..last]), Fold(d, buf[..last]), b);
      FoldInjective(c, d, buf[..last]);
    }
  }

  // A step leaves the top byte clear only when it shifted a clear low byte out.
  lemma TopByte(y: bv32)
    requires Byte(y) < 0x0100_0000
    ensures Low(y) == 0 && Byte(y) == Down(y)
  {
  }

  // The difference of two registers, after bytes that differ by e.
  function Differ(d: bv32, e: bv8): bv32 {
    Byte(Xor(d, Wide(e)))
  }

  function Diff8(b: bv8, b': bv8): bv8 {
    b ^ b'
  }

  lemma XorComm(x: bv32, y: bv32)
    ensures Xor(x, y) == Xor(y, x)
  {
  }

  lemma XorAssoc(x: bv32, y: bv32, z: bv32)
    ensures Xor(Xor(x, y), z) == Xor(x, Xor(y, z))
  {
  }

  lemma XorShuffles(c: bv32, c': bv32, b: bv32, b': bv32)
    ensures Xor(Xor(c, b), Xor(c', b')) == Xor(Xor(c, c'), Xor(b, b'))
  {
    hide Xor;
    XorAssoc(Xor(c, b), c', b');
    XorAssoc(c, b, c');
    XorComm(b, c');
    XorAssoc(c, c', b);
    XorAssoc(Xor(c, c'), b, b');
  }

  lemma WideXor(b: bv8, b': bv8)
    ensures Wide(Diff8(b, b')) == Xor(Wide(b), Wide(b'))
  {
  }

  lemma XorDiffers(c: bv32, c': bv32, b: bv8, b': bv8)
    ensures Xor(Xor(c, Wide(b)), Xor(c', Wide(b'))) == Xor(Xor(c, c'), Wide(Diff8(b, b')))
  {
    hide Xor, Wide, Diff8;
    XorShuffles(c, c', Wide(b), Wide(b'));
    WideXor(b, b');
  }

  lemma StepDiffers(c: bv32, c': bv32, b: bv8, b': bv8)
    ensures Xor(Byte(Xor(c, Wide(b))), Byte(Xor(c', Wide(b')))) == Differ(Xor(c, c'), Diff8(b, b'))
  {
    hide Byte, Xor, Wide, Diff8;
    ByteLinear(Xor(c, Wide(b)), Xor(c', Wide(b')));
    XorDiffers(c, c', b, b');
  }

  lemma SmallStep(d: bv32, e: bv8)
    requires Differ(d, e) < 0x0100_0000
    ensures Low(Xor(d, Wide(e))) == 0 && Differ(d, e) == Down(d)
  {
    hide Byte, Xor, Wide, Low, Down;
    TopByte(Xor(d, Wide(e)));
    LowShift(d, e);
  }

  lemma LowEqual(d: bv32, e: bv8)
    requires Low(Xor(d, Wide(e))) == 0 && d < 0x100
    ensures d == Wide(e)
  {
  }

  lemma WideSmall(e: bv8)
    ensures Wide(e) < 0x100
    ensures Wide(e) == 0 ==> e == 0
  {
  }

  lemma DownBound(d: bv32)
    ensures Down(d) == 0 ==> d < 0x100
    ensures Down(d) < 0x100 ==> d < 0x1_0000
    ensures Down(d) < 0x1_0000 ==> d < 0x0100_0000
    ensures d == 0 ==> Down(d) == 0
  {
  }

  lemma Smaller(d: bv32)
    ensures d < 0x100 ==> d < 0x1_0000
    ensures d < 0x1_0000 ==> d < 0x0100_0000
    ensures d == 0 ==> d < 0x100
  {
  }

  // A difference that shrinks to nothing within four bytes was none to begin with.
  lemma FourBytes(e1: bv8, e2: bv8, e3: bv8, e4: bv8)
    requires Differ(Differ(Differ(Differ(0, e1), e2), e3), e4) == 0
    ensures e1 == e2 == e3 == e4 == 0
  {
    hide Differ, Low, Down, Xor, Wide;
    var d1 := Differ(0, e1);
    var d2 := Differ(d1, e2);
    var d3 := Differ(d2, e3);
    LastStep(d3, e4);
    SmallStep(d2, e3);
    Smaller(d3);
    DownBound(d2);
    SmallStep(d1, e2);
    Smaller(d2);
    DownBound(d1);
    SmallStep(0, e1);
    FirstStep(e1);
    FirstStep(e2);
    FirstStep(e3);
    FirstStep(e4);
  }

  // No difference after a step means that the byte cancelled the difference before it.
  lemma LastStep(d: bv32, e: bv8)
    requires Differ(d, e) == 0
    ensures d == Wide(e) < 0x100
  {
    hide Differ, Low, Down, Xor, Wide;
    Smaller(Differ(d, e));
    SmallStep(d, e);
    DownBound(d);
    LowEqual(d, e);
    WideSmall(e);
  }

  lemma FirstStep(e: bv8)
    ensures Low(Xor(0, Wide(e))) == 0 ==> e == 0
    ensures 0 == Wide(e) ==> e == 0
    ensures Down(0) == 0
  {
  }

  lemma NoDiff8(b: bv8, b': bv8)
    ensures Diff8(b, b') == 0 <==> b == b'
  {
  }

  lemma SameXor(c: bv32, d: bv32)
    ensures Xor(c, d) == 0 <==> c == d
  {
  }

  lemma FourFold(c: bv32, w: seq<bv8>)
    requires |w| == 4
    ensures Fold(c, w) ==
            Byte(Xor(Byte(Xor(Byte(Xor(Byte(Xor(c, Wide(w[0]))), Wide(w[1]))), Wide(w[2]))), Wide(w[3])))
  {
    hide Byte, Xor, Wide;
    assert w[..3][..2] == w[..2] && w[..2][..1] == w[..1] && w[..1][..0] == [];
    assert Fold(c, w[..1]) == Byte(Xor(c, Wide(w[0])));
    assert Fold(c, w[..2]) == Byte(Xor(Fold(c, w[..1]), Wide(w[1])));
    assert Fold(c, w[..3]) == Byte(Xor(Fold(c, w[..2]), Wide(w[2])));
  }

  lemma FourDiffer(c: bv32, w: seq<bv8>, w': seq<bv8>)
    requires |w| == 4 && |w'| == 4 && Fold(c, w) == Fold(c, w')
    ensures w == w'
  {
    hide Byte, Xor, Wide, Diff8, Fold, Differ;
    FourFold(c, w);
    FourFold(c, w');
    var c1, d1 := Byte(Xor(c, Wide(w[0]))), Byte(Xor(c, Wide(w'[0])));
    var c2, d2 := Byte(Xor(c1, Wide(w[1]))), Byte(Xor(d1, Wide(w'[1])));
    var c3, d3 := Byte(Xor(c2, Wide(w[2]))), Byte(Xor(d2, Wide(w'[2])));
    SameXor(c, c);
    SameXor(Fold(c, w), Fold(c, w'));
    StepDiffers(c, c, w[0], w'[0]);
    StepDiffers(c1, d1, w[1], w'[1]);
    StepDiffers(c2, d2, w[2], w'[2]);
    StepDiffers(c3, d3, w[3], w'[3]);
    FourBytes(Diff8(w[0], w'[0]), Diff8(w[1], w'[1]), Diff8(w[2], w'[2]), Diff8(w[3], w'[3]));
    NoDiff8(w[0], w'[0]);
    NoDiff8(w[1], w'[1]);
    NoDiff8(w[2], w'[2]);
    NoDiff8(w[3], w'[3]);
  }

  lemma {:induction false} WindowDiffer(c: bv32, w: seq<bv8>, w': seq<bv8>)
    requires |w| == |w'| <= 4 && Fold(c, w) == Fold(c, w')
    ensures w == w'
    decreases 4 - |w|
  {
    hide Fold;
    if |w| == 4 {
      FourDiffer(c, w, w');
    } else {
      FoldAppend(c, w, [0]);
      FoldAppend(c, w', [0]);
      WindowDiffer(c, w + [0], w' + [0]);
      assert w == (w + [0])[..|w|] && w' == (w' + [0])[..|w|];
    }
  }

  // Equal checksums mean equal registers behind the part in which two buffers differ.
  lemma SameWindow(acc: bv32, before: seq<bv8>, w: seq<bv8>, w': seq<bv8>, after: seq<bv8>)
    requires Crc32(acc, before + w + after) == Crc32(acc, before + w' + after)
    ensures var c := Fold(Xor(acc, ONES), before); Fold(c, w) == Fold(c, w')
  {
    hide Fold, Xor;
    var c := Xor(acc, ONES);
    FoldAppend(c, before + w, after);
    FoldAppend(c, before, w);
    FoldAppend(c, before + w', after);
    FoldAppend(c, before, w');
    XorCancels(Fold(c, before + w + after), Fold(c, before + w' + after), ONES);
    FoldInjective(Fold(c, before + w), Fold(c, before + w'), after);
  }

  /** Two buffers that differ only within four bytes in a row, so in particular in one byte, have
    * different checksums. */
  lemma BurstDetected(acc: bv32, before: seq<bv8>, w: seq<bv8>, w': seq<bv8>, after: seq<bv8>)
    requires |w| == |w'| <= 4 && w != w'
    ensures Crc32(acc, before + w + after) != Crc32(acc, before + w' + after)
  {
    hide Fold, Xor;
    if Crc32(acc, before + w + after) == Crc32(acc, before + w' + after) {
      SameWindow(acc, before, w, w', after);
      WindowDiffer(Fold(Xor(acc, ONES), before), w, w');
    }
  }

  /** Any two buffers of the same length that differ in exactly one byte have different checksums. */
  lemma ByteErrorDetected(acc: bv32, buf: seq<bv8>, k: nat, b: bv8)
    requires k < |buf| && buf[k] != b
    ensures Crc32(acc, buf[k := b]) != Crc32(acc, buf)
  {
    hide Crc32;
    assert buf == buf[..k] + [buf[k]] + buf[k + 1..];
    assert buf[k := b] == buf[..k] + [b] + buf[k + 1..];
    BurstDetected(acc, buf[..k], [buf[k]], [b], buf[k + 1..]);
  }

  // ---- bursts of bits ----

  /** Bit j of a byte, the one that goes through the register first being bit 0. */
  predicate BitOf(b: bv8, j: nat)
    requires j < 8
  {
    b & One(j) != 0
  }

  function One(j: nat): bv8
    requires j < 8
  {
    match j
    case 0 => 0x01 case 1 => 0x02 case 2 => 0x04 case 3 => 0x08
    case 4 => 0x10 case 5 => 0x20 case 6 => 0x40 case _ => 0x80
  }

  /** Bit n of a buffer. */
  predicate BitAt(buf: seq<bv8>, n: nat)
    requires n < 8 * |buf|
  {
    BitOf(buf[n / 8], n % 8)
  }

  /** The bits of a byte before bit j. */
  function Before(j: nat): bv8
    requires j < 8
  {
    match j
    case 0 => 0x00 case 1 => 0x01 case 2 => 0x03 case 3 => 0x07
    case 4 => 0x0F case 5 => 0x1F case 6 => 0x3F case _ => 0x7F
  }

  lemma BitDiffers(b: bv8, b': bv8, j: nat)
    requires j < 8
    ensures BitOf(b, j) == BitOf(b', j) <==> Diff8(b, b') & One(j) == 0
  {
  }

  // Which bits a byte has, from some bits on and before them.
  lemma ClearFrom(d: bv8, k: nat)
    requires k < 8 && forall j :: k <= j < 8 ==> d & One(j) == 0
    ensures d & !Before(k) == 0
  {
    assert d & One(7) == 0 && (k < 7 ==> d & One(6) == 0) && (k < 6 ==> d & One(5) == 0) && (k < 5 ==> d & One(4) == 0);
    assert (k < 4 ==> d & One(3) == 0) && (k < 3 ==> d & One(2) == 0) && (k < 2 ==> d & One(1) == 0);
    assert k < 1 ==> d & One(0) == 0;
  }

  lemma ClearBefore(d: bv8, k: nat)
    requires k < 8 && forall j :: 0 <= j < k ==> d & One(j) == 0
    ensures d & Before(k) == 0
  {
    assert (k > 0 ==> d & One(0) == 0) && (k > 1 ==> d & One(1) == 0) && (k > 2 ==> d & One(2) == 0);
    assert (k > 3 ==> d & One(3) == 0) && (k > 4 ==> d & One(4) == 0) && (k > 5 ==> d & One(5) == 0);
    assert k > 6 ==> d & One(6) == 0;
  }

  // Bytes that agree before bit k differ only from there on.
  lemma AgreeBefore(b: bv8, b': bv8, k: nat)
    requires k < 8 && forall j :: 0 <= j < k ==> BitOf(b, j) == BitOf(b', j)
    ensures Diff8(b, b') & Before(k) == 0
  {
    hide Diff8, One, Before, BitOf;
    forall j | 0 <= j < k ensures Diff8(b, b') & One(j) == 0 {
      BitDiffers(b, b', j);
    }
    ClearBefore(Diff8(b, b'), k);
  }

  // Bytes that agree from bit k on differ only before; from bit 0 on, nowhere.
  lemma AgreeFrom(b: bv8, b': bv8, k: nat)
    requires k < 8 && forall j :: k <= j < 8 ==> BitOf(b, j) == BitOf(b', j)
    ensures Diff8(b, b') & !Before(k) == 0
    ensures k == 0 ==> b == b'
  {
    hide Diff8, One, Before, BitOf;
    forall j | k <= j < 8 ensures Diff8(b, b') & One(j) == 0 {
      BitDiffers(b, b', j);
    }
    ClearFrom(Diff8(b, b'), k);
    AllClear(Diff8(b, b'));
    NoDiff8(b, b');
  }

  lemma AllClear(d: bv8)
    ensures d & !Before(0) == 0 ==> d == 0
  {
  }

  function Top(d: bv32): bv32 {
    d >> 24
  }

  // A byte that is clear before bit k, and leaves the register clear from bit 24 + k on, is zero.
  lemma FirstOfFive(e: bv8, k: nat)
    requires k < 8 && e & Before(k) == 0
    requires Top(Differ(0, e)) & Wide(!Before(k)) == 0
    ensures e == 0
  {
  }

  lemma ThriceDown(d: bv32)
    ensures Down(Down(Down(d))) == Top(d)
  {
  }

  lemma WideMask(e: bv8, m: bv8)
    requires e & m == 0
    ensures Wide(e) & Wide(m) == 0
  {
  }

  lemma NoStep()
    ensures Differ(0, 0) == 0
  {
  }

  // A difference within five bytes, clear before bit k of the first and from bit k on of the last, that
  // shrinks to nothing was none to begin with.
  lemma FiveBytes(e1: bv8, e2: bv8, e3: bv8, e4: bv8, e5: bv8, k: nat)
    requires k < 8 && e1 & Before(k) == 0 && e5 & !Before(k) == 0
    requires Differ(Differ(Differ(Differ(Differ(0, e1), e2), e3), e4), e5) == 0
    ensures e1 == e2 == e3 == e4 == e5 == 0
  {
    hide Differ, Low, Down, Xor, Wide, Top, Before;
    var d1 := Differ(0, e1);
    var d2 := Differ(d1, e2);
    var d3 := Differ(d2, e3);
    var d4 := Differ(d3, e4);
    LastStep(d4, e5);
    Smaller(d4);
    SmallStep(d3, e4);
    DownBound(d3);
    Smaller(d3);
    SmallStep(d2, e3);
    DownBound(d2);
    Smaller(d2);
    SmallStep(d1, e2);
    ThriceDown(d1);
    WideMask(e5, !Before(k));
    FirstOfFive(e1, k);
    NoStep();
    FourBytes(e2, e3, e4, e5);
  }

  // The five bytes of a window, the differences placed as a burst that starts at bit k leaves them.
  lemma FiveDiffer(c: bv32, w: seq<bv8>, w': seq<bv8>, k: nat)
    requires |w| == |w'| == 5 && k < 8 && Fold(c, w) == Fold(c, w')
    requires Diff8(w[0], w'[0]) & Before(k) == 0 && Diff8(w[4], w'[4]) & !Before(k) == 0
    ensures w == w'
  {
    hide Byte, Xor, Wide, Diff8, Fold, Differ, Before;
    FiveFold(c, w);
    FiveFold(c, w');
    var c1, d1 := Byte(Xor(c, Wide(w[0]))), Byte(Xor(c, Wide(w'[0])));
    var c2, d2 := Byte(Xor(c1, Wide(w[1]))), Byte(Xor(d1, Wide(w'[1])));
    var c3, d3 := Byte(Xor(c2, Wide(w[2]))), Byte(Xor(d2, Wide(w'[2])));
    var c4, d4 := Byte(Xor(c3, Wide(w[3]))), Byte(Xor(d3, Wide(w'[3])));
    SameXor(c, c);
    SameXor(Fold(c, w), Fold(c, w'));
    StepDiffers(c, c, w[0], w'[0]);
    StepDiffers(c1, d1, w[1], w'[1]);
    StepDiffers(c2, d2, w[2], w'[2]);
    StepDiffers(c3, d3, w[3], w'[3]);
    StepDiffers(c4, d4, w[4], w'[4]);
    FiveBytes(Diff8(w[0], w'[0]), Diff8(w[1], w'[1]), Diff8(w[2], w'[2]), Diff8(w[3], w'[3]), Diff8(w[4], w'[4]), k);
    NoDiff8(w[0], w'[0]);
    NoDiff8(w[1], w'[1]);
    NoDiff8(w[2], w'[2]);
    NoDiff8(w[3], w'[3]);
    NoDiff8(w[4], w'[4]);
  }

  lemma FiveFold(c: bv32, w: seq<bv8>)
    requires |w| == 5
    ensures Fold(c, w) ==
            Byte(Xor(Byte(Xor(Byte(Xor(Byte(Xor(Byte(Xor(c, Wide(w[0]))), Wide(w[1]))), Wide(w[2]))), Wide(w[3]))), Wide(w[4])))
  {
    hide Byte, Xor, Wide;
    FourFold(c, w[..4]);
  }

  /** All the bits in which two buffers differ lie among 32 in a row. */
  predicate WithinBurst(buf: seq<bv8>, buf': seq<bv8>, p: nat)
    requires |buf'| == |buf|
  {
    forall n :: 0 <= n < 8 * |buf| && !(p <= n < p + 32) ==> BitAt(buf, n) == BitAt(buf', n)
  }

  // A bit of a byte of a buffer.
  lemma BitPlace(buf: seq<bv8>, i: nat, j: nat)
    requires i < |buf| && j < 8
    ensures 8 * i + j < 8 * |buf| && BitAt(buf, 8 * i + j) == BitOf(buf[i], j)
  {
    assert (8 * i + j) / 8 == i && (8 * i + j) % 8 == j;
  }

  lemma BurstBit(buf: seq<bv8>, buf': seq<bv8>, p: nat, i: nat, j: nat)
    requires |buf'| == |buf| && WithinBurst(buf, buf', p) && i < |buf| && j < 8
    requires 8 * i + j < p || p + 32 <= 8 * i + j
    ensures BitOf(buf[i], j) == BitOf(buf'[i], j)
  {
    hide BitOf, BitAt;
    BitPlace(buf, i, j);
    BitPlace(buf', i, j);
  }

  // Bytes outside the burst are equal; the first and the last one differ only in their part of it.
  lemma BurstByte(buf: seq<bv8>, buf': seq<bv8>, p: nat, i: nat)
    requires |buf'| == |buf| && WithinBurst(buf, buf', p) && i < |buf|
    ensures i < p / 8 || p / 8 + 4 < i ==> buf[i] == buf'[i]
    ensures i == p / 8 ==> Diff8(buf[i], buf'[i]) & Before(p % 8) == 0
    ensures i == p / 8 + 4 ==> Diff8(buf[i], buf'[i]) & !Before(p % 8) == 0
  {
    hide BitOf, BitAt, WithinBurst, Diff8, Before;
    var q, k := p / 8, p % 8;
    assert p == 8 * q + k;
    if i < q || q + 4 < i {
      forall j | 0 <= j < 8 ensures BitOf(buf[i], j) == BitOf(buf'[i], j) {
        BurstBit(buf, buf', p, i, j);
      }
      AgreeFrom(buf[i], buf'[i], 0);
    } else if i == q {
      forall j | 0 <= j < k ensures BitOf(buf[i], j) == BitOf(buf'[i], j) {
        BurstBit(buf, buf', p, i, j);
      }
      AgreeBefore(buf[i], buf'[i], k);
    } else if i == q + 4 {
      forall j | k <= j < 8 ensures BitOf(buf[i], j) == BitOf(buf'[i], j) {
        BurstBit(buf, buf', p, i, j);
      }
      AgreeFrom(buf[i], buf'[i], k);
    }
  }

  /** Every error burst of at most 32 bits, wherever it starts in a byte, changes the checksum: two different
    * buffers of the same length whose differing bits lie among 32 in a row never have the same one. */
  lemma BitBurstDetected(acc: bv32, buf: seq<bv8>, buf': seq<bv8>, p: nat)
    requires |buf'| == |buf| && WithinBurst(buf, buf', p) && buf != buf'
    ensures Crc32(acc, buf) != Crc32(acc, buf')
  {
    hide Crc32, WithinBurst, Diff8, Before;
    var q := p / 8;
    forall i | 0 <= i < |buf| && (i < q || q + 4 < i) ensures buf[i] == buf'[i] {
      BurstByte(buf, buf', p, i);
    }
    if q + 4 < |buf| {
      BurstByte(buf, buf', p, q);
      BurstByte(buf, buf', p, q + 4);
      assert buf == buf[..q] + buf[q..q + 5] + buf[q + 5..];
      assert buf' == buf[..q] + buf'[q..q + 5] + buf[q + 5..];
      WindowDetected(acc, buf[..q], buf[q..q + 5], buf'[q..q + 5], buf[q + 5..], p % 8);
    } else {
      var s := if q < |buf| then q else |buf|;
      assert buf == buf[..s] + buf[s..] + [];
      assert buf' == buf[..s] + buf'[s..] + [];
      BurstDetected(acc, buf[..s], buf[s..], buf'[s..], []);
    }
  }

  lemma WindowDetected(acc: bv32, before: seq<bv8>, w: seq<bv8>, w': seq<bv8>, after: seq<bv8>, k: nat)
    requires |w| == |w'| == 5 && w != w' && k < 8
    requires Diff8(w[0], w'[0]) & Before(k) == 0 && Diff8(w[4], w'[4]) & !Before(k) == 0
    ensures Crc32(acc, before + w + after) != Crc32(acc, before + w' + after)
  {
    hide Fold, Xor, Diff8, Before;
    if Crc32(acc, before + w + after) == Crc32(acc, before + w' + after) {
      SameWindow(acc, before, w, w', after);
      FiveDiffer(Fold(Xor(acc, ONES), before), w, w', k);
    }
  }
}
