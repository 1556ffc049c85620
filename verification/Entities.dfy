/** Character entities (mxml-entity.c): the names the writer uses and the (X)HTML table the reader
    searches. */
module Entities {
  import opened Utf8

  datatype Entity = Entity(name: string, value: nat)

  /** Character `i` of a NUL-terminated name. */
  function CharAt(s: string, i: nat): int {
    if i < |s| then s[i] as int else 0
  }

  /** `strcmp` of an input name with a table name, from index `i` on. */
  function StrCmp(a: seq<byte>, b: string, i: nat := 0): int
    decreases |a| - i
  {
    var x, y := At(a, i), CharAt(b, i);
    if x != y || x == 0 then x - y else StrCmp(a, b, i + 1)
  }

  /** `strcmp` of two table names. */
  function NameCmp(a: string, b: string, i: nat := 0): int
    decreases |a| - i
  {
    var x, y := CharAt(a, i), CharAt(b, i);
    if x != y || x == 0 then x - y else NameCmp(a, b, i + 1)
  }

  predicate Before(a: Entity, b: Entity) {
    NameCmp(a.name, b.name) < 0
  }

  /** The value of the first entry from `i` on that bears the name, or -1. */
  function LookupFrom(name: seq<byte>, i: nat): int
    requires i <= COUNT
    decreases COUNT - i
  {
    if i == COUNT then -1
    else if StrCmp(name, EntityAt(i).name) == 0 then EntityAt(i).value
    else LookupFrom(name, i + 1)
  }

  /** `mxmlEntityGetValue` with the default callback only: the plain reading of the table. */
  function EntityValue(name: seq<byte>): int {
    LookupFrom(name, 0)
  }

  lemma {:induction false} CmpBelow(n: seq<byte>, a: string, b: string, i: nat)
    requires StrCmp(n, a, i) <= 0 && NameCmp(a, b, i) < 0
    ensures StrCmp(n, b, i) < 0
    decreases |n| - i
  {
    if At(n, i) == CharAt(a, i) == CharAt(b, i) && At(n, i) != 0 {
      CmpBelow(n, a, b, i + 1);
    }
  }

  lemma {:induction false} CmpAbove(n: seq<byte>, a: string, b: string, i: nat)
    requires StrCmp(n, a, i) >= 0 && NameCmp(b, a, i) < 0
    ensures StrCmp(n, b, i) > 0
    decreases |n| - i
  {
    if At(n, i) == CharAt(a, i) == CharAt(b, i) && At(n, i) != 0 {
      CmpAbove(n, a, b, i + 1);
    }
  }

  /** Every entry after one that is not below the name is above it. */
  lemma {:induction false} AllAfter(n: seq<byte>, i: nat, j: nat)
    requires i < j < COUNT && StrCmp(n, EntityAt(i).name) <= 0
    ensures StrCmp(n, EntityAt(j).name) < 0
    decreases j - i
  {
    hide EntityAt, StrCmp;
    Sorted(i);
    assert Before(EntityAt(i), EntityAt(i + 1));
    CmpBelow(n, EntityAt(i).name, EntityAt(i + 1).name, 0);
    if i + 1 < j {
      AllAfter(n, i + 1, j);
    }
  }

  lemma {:induction false} AllBefore(n: seq<byte>, i: nat, j: nat)
    requires j < i < COUNT && StrCmp(n, EntityAt(i).name) >= 0
    ensures StrCmp(n, EntityAt(j).name) > 0
    decreases i - j
  {
    hide EntityAt, StrCmp;
    Sorted(i - 1);
    assert Before(EntityAt(i - 1), EntityAt(i));
    CmpAbove(n, EntityAt(i).name, EntityAt(i - 1).name, 0);
    if j < i - 1 {
      AllBefore(n, i - 1, j);
    }
  }

  /** A name has at most one entry, so the lookup returns that entry's value. */
  lemma {:induction false} Found(name: seq<byte>, i: nat, from: nat)
    requires from <= i < COUNT && StrCmp(name, EntityAt(i).name) == 0
    ensures LookupFrom(name, from) == EntityAt(i).value
    decreases i - from
  {
    hide EntityAt, StrCmp;
    if from < i {
      AllBefore(name, i, from);
      Found(name, i, from + 1);
    }
  }

  lemma {:induction false} Missing(name: seq<byte>, from: nat)
    requires from <= COUNT
    requires forall j :: from <= j < COUNT ==> StrCmp(name, EntityAt(j).name) != 0
    ensures LookupFrom(name, from) == -1
    decreases COUNT - from
  {
    hide EntityAt, StrCmp;
    if from < COUNT {
      Missing(name, from + 1);
    }
  }

  /** `_mxml_entity_cb`: the binary search finds what the plain lookup finds, for every name. */
  method EntityCallback(name: seq<byte>) returns (value: int)
    ensures value == EntityValue(name)
  {
    hide EntityAt, StrCmp;
    var first, last := 0, COUNT - 1;
    while last - first > 1
      invariant 0 <= first <= last < COUNT
      invariant forall j :: 0 <= j < first ==> StrCmp(name, EntityAt(j).name) > 0
      invariant forall j :: last < j < COUNT ==> StrCmp(name, EntityAt(j).name) < 0
    {
      var current := (first + last) / 2;
      var diff := StrCmp(name, EntityAt(current).name);
      if diff == 0 {
        Found(name, current, 0);
        return EntityAt(current).value;
      } else if diff < 0 {
        forall j | last >= j > current ensures StrCmp(name, EntityAt(j).name) < 0 {
          AllAfter(name, current, j);
        }
        last := current;
      } else {
        forall j | first <= j < current ensures StrCmp(name, EntityAt(j).name) > 0 {
          AllBefore(name, current, j);
        }
        first := current;
      }
    }
    if StrCmp(name, EntityAt(first).name) == 0 {
      Found(name, first, 0);
      return EntityAt(first).value;
    } else if StrCmp(name, EntityAt(last).name) == 0 {
      Found(name, last, 0);
      return EntityAt(last).value;
    } else {
      Missing(name, 0);
      return -1;
    }
  }

  /** `mxmlEntityGetName`: the entity name of a character, empty when it has none. */
  function EntityName(ch: int): seq<byte> {
    match ch
    case 38 => [97, 109, 112] // amp
    case 60 => [108, 116] // lt
    case 62 => [103, 116] // gt
    case 34 => [113, 117, 111, 116] // quot
    case _ => []
  }

  lemma {:induction false} SameText(a: seq<byte>, b: string, i: nat)
    requires |a| == |b| && forall k :: 0 <= k < |a| ==> a[k] == b[k] as int
    ensures StrCmp(a, b, i) == 0
    decreases |a| - i
  {
    if i < |a| && a[i] != 0 {
      SameText(a, b, i + 1);
    }
  }

  /** The two halves of escaping agree: every name the writer uses is in the table, with its character. */
  lemma NamesAreKnown(ch: int)
    requires EntityName(ch) != []
    ensures EntityValue(EntityName(ch)) == ch
  {
    var i := if ch == 38 then 67 else if ch == 60 then 153 else if ch == 62 then 121 else 198;
    assert EntityAt(i).value == ch;
    SameText(EntityName(ch), EntityAt(i).name, 0);
    Found(EntityName(ch), i, 0);
  }

  // The table, twelve entries to a block.

  const COUNT: nat := 257

  const BLOCK0: seq<Entity> := [
    Entity("AElig", 198), Entity("Aacute", 193), Entity("Acirc", 194), Entity("Agrave", 192),
    Entity("Alpha", 913), Entity("Aring", 197), Entity("Atilde", 195), Entity("Auml", 196),
    Entity("Beta", 914), Entity("Ccedil", 199), Entity("Chi", 935), Entity("Dagger", 8225)
  ]

  const BLOCK1: seq<Entity> := [
    Entity("Delta", 916), Entity("Dstrok", 208), Entity("ETH", 208), Entity("Eacute", 201),
    Entity("Ecirc", 202), Entity("Egrave", 200), Entity("Epsilon", 917), Entity("Eta", 919),
    Entity("Euml", 203), Entity("Gamma", 915), Entity("Iacute", 205), Entity("Icirc", 206)
  ]

  const BLOCK2: seq<Entity> := [
    Entity("Igrave", 204), Entity("Iota", 921), Entity("Iuml", 207), Entity("Kappa", 922),
    Entity("Lambda", 923), Entity("Mu", 924), Entity("Ntilde", 209), Entity("Nu", 925),
    Entity("OElig", 338), Entity("Oacute", 211), Entity("Ocirc", 212), Entity("Ograve", 210)
  ]

  const BLOCK3: seq<Entity> := [
    Entity("Omega", 937), Entity("Omicron", 927), Entity("Oslash", 216), Entity("Otilde", 213),
    Entity("Ouml", 214), Entity("Phi", 934), Entity("Pi", 928), Entity("Prime", 8243),
    Entity("Psi", 936), Entity("Rho", 929), Entity("Scaron", 352), Entity("Sigma", 931)
  ]

  const BLOCK4: seq<Entity> := [
    Entity("THORN", 222), Entity("Tau", 932), Entity("Theta", 920), Entity("Uacute", 218),
    Entity("Ucirc", 219), Entity("Ugrave", 217), Entity("Upsilon", 933), Entity("Uuml", 220),
    Entity("Xi", 926), Entity("Yacute", 221), Entity("Yuml", 376), Entity("Zeta", 918)
  ]

  const BLOCK5: seq<Entity> := [
    Entity("aacute", 225), Entity("acirc", 226), Entity("acute", 180), Entity("aelig", 230),
    Entity("agrave", 224), Entity("alefsym", 8501), Entity("alpha", 945), Entity("amp", 38),
    Entity("and", 8743), Entity("ang", 8736), Entity("apos", 39), Entity("aring", 229)
  ]

  const BLOCK6: seq<Entity> := [
    Entity("asymp", 8776), Entity("atilde", 227), Entity("auml", 228), Entity("bdquo", 8222),
    Entity("beta", 946), Entity("brkbar", 166), Entity("brvbar", 166), Entity("bull", 8226),
    Entity("cap", 8745), Entity("ccedil", 231), Entity("cedil", 184), Entity("cent", 162)
  ]

  const BLOCK7: seq<Entity> := [
    Entity("chi", 967), Entity("circ", 710), Entity("clubs", 9827), Entity("cong", 8773),
    Entity("copy", 169), Entity("crarr", 8629), Entity("cup", 8746), Entity("curren", 164),
    Entity("dArr", 8659), Entity("dagger", 8224), Entity("darr", 8595), Entity("deg", 176)
  ]

  const BLOCK8: seq<Entity> := [
    Entity("delta", 948), Entity("diams", 9830), Entity("die", 168), Entity("divide", 247),
    Entity("eacute", 233), Entity("ecirc", 234), Entity("egrave", 232), Entity("empty", 8709),
    Entity("emsp", 8195), Entity("ensp", 8194), Entity("epsilon", 949), Entity("equiv", 8801)
  ]

  const BLOCK9: seq<Entity> := [
    Entity("eta", 951), Entity("eth", 240), Entity("euml", 235), Entity("euro", 8364),
    Entity("exist", 8707), Entity("fnof", 402), Entity("forall", 8704), Entity("frac12", 189),
    Entity("frac14", 188), Entity("frac34", 190), Entity("frasl", 8260), Entity("gamma", 947)
  ]

  const BLOCK10: seq<Entity> := [
    Entity("ge", 8805), Entity("gt", 62), Entity("hArr", 8660), Entity("harr", 8596),
    Entity("hearts", 9829), Entity("hellip", 8230), Entity("hibar", 175), Entity("iacute", 237),
    Entity("icirc", 238), Entity("iexcl", 161), Entity("igrave", 236), Entity("image", 8465)
  ]

  const BLOCK11: seq<Entity> := [
    Entity("infin", 8734), Entity("int", 8747), Entity("iota", 953), Entity("iquest", 191),
    Entity("isin", 8712), Entity("iuml", 239), Entity("kappa", 954), Entity("lArr", 8656),
    Entity("lambda", 955), Entity("lang", 9001), Entity("laquo", 171), Entity("larr", 8592)
  ]

  const BLOCK12: seq<Entity> := [
    Entity("lceil", 8968), Entity("ldquo", 8220), Entity("le", 8804), Entity("lfloor", 8970),
    Entity("lowast", 8727), Entity("loz", 9674), Entity("lrm", 8206), Entity("lsaquo", 8249),
    Entity("lsquo", 8216), Entity("lt", 60), Entity("macr", 175), Entity("mdash", 8212)
  ]

  const BLOCK13: seq<Entity> := [
    Entity("micro", 181), Entity("middot", 183), Entity("minus", 8722), Entity("mu", 956),
    Entity("nabla", 8711), Entity("nbsp", 160), Entity("ndash", 8211), Entity("ne", 8800),
    Entity("ni", 8715), Entity("not", 172), Entity("notin", 8713), Entity("nsub", 8836)
  ]

  const BLOCK14: seq<Entity> := [
    Entity("ntilde", 241), Entity("nu", 957), Entity("oacute", 243), Entity("ocirc", 244),
    Entity("oelig", 339), Entity("ograve", 242), Entity("oline", 8254), Entity("omega", 969),
    Entity("omicron", 959), Entity("oplus", 8853), Entity("or", 8744), Entity("ordf", 170)
  ]

  const BLOCK15: seq<Entity> := [
    Entity("ordm", 186), Entity("oslash", 248), Entity("otilde", 245), Entity("otimes", 8855),
    Entity("ouml", 246), Entity("para", 182), Entity("part", 8706), Entity("permil", 8240),
    Entity("perp", 8869), Entity("phi", 966), Entity("pi", 960), Entity("piv", 982)
  ]

  const BLOCK16: seq<Entity> := [
    Entity("plusmn", 177), Entity("pound", 163), Entity("prime", 8242), Entity("prod", 8719),
    Entity("prop", 8733), Entity("psi", 968), Entity("quot", 34), Entity("rArr", 8658),
    Entity("radic", 8730), Entity("rang", 9002), Entity("raquo", 187), Entity("rarr", 8594)
  ]

  const BLOCK17: seq<Entity> := [
    Entity("rceil", 8969), Entity("rdquo", 8221), Entity("real", 8476), Entity("reg", 174),
    Entity("rfloor", 8971), Entity("rho", 961), Entity("rlm", 8207), Entity("rsaquo", 8250),
    Entity("rsquo", 8217), Entity("sbquo", 8218), Entity("scaron", 353), Entity("sdot", 8901)
  ]

  const BLOCK18: seq<Entity> := [
    Entity("sect", 167), Entity("shy", 173), Entity("sigma", 963), Entity("sigmaf", 962),
    Entity("sim", 8764), Entity("spades", 9824), Entity("sub", 8834), Entity("sube", 8838),
    Entity("sum", 8721), Entity("sup", 8835), Entity("sup1", 185), Entity("sup2", 178)
  ]

  const BLOCK19: seq<Entity> := [
    Entity("sup3", 179), Entity("supe", 8839), Entity("szlig", 223), Entity("tau", 964),
    Entity("there4", 8756), Entity("theta", 952), Entity("thetasym", 977), Entity("thinsp", 8201),
    Entity("thorn", 254), Entity("tilde", 732), Entity("times", 215), Entity("trade", 8482)
  ]

  const BLOCK20: seq<Entity> := [
    Entity("uArr", 8657), Entity("uacute", 250), Entity("uarr", 8593), Entity("ucirc", 251),
    Entity("ugrave", 249), Entity("uml", 168), Entity("upsih", 978), Entity("upsilon", 965),
    Entity("uuml", 252), Entity("weierp", 8472), Entity("xi", 958), Entity("yacute", 253)
  ]

  const BLOCK21: seq<Entity> := [
    Entity("yen", 165), Entity("yuml", 255), Entity("zeta", 950), Entity("zwj", 8205),
    Entity("zwnj", 8204)
  ]

  /** Entry `i` of the table. */
  function EntityAt(i: nat): Entity
    requires i < COUNT
  {
    if i < 12 then BLOCK0[i]
    else if i < 24 then BLOCK1[i - 12]
    else if i < 36 then BLOCK2[i - 24]
    else if i < 48 then BLOCK3[i - 36]
    else if i < 60 then BLOCK4[i - 48]
    else if i < 72 then BLOCK5[i - 60]
    else if i < 84 then BLOCK6[i - 72]
    else if i < 96 then BLOCK7[i - 84]
    else if i < 108 then BLOCK8[i - 96]
    else if i < 120 then BLOCK9[i - 108]
    else if i < 132 then BLOCK10[i - 120]
    else if i < 144 then BLOCK11[i - 132]
    else if i < 156 then BLOCK12[i - 144]
    else if i < 168 then BLOCK13[i - 156]
    else if i < 180 then BLOCK14[i - 168]
    else if i < 192 then BLOCK15[i - 180]
    else if i < 204 then BLOCK16[i - 192]
    else if i < 216 then BLOCK17[i - 204]
    else if i < 228 then BLOCK18[i - 216]
    else if i < 240 then BLOCK19[i - 228]
    else if i < 252 then BLOCK20[i - 240]
    else BLOCK21[i - 252]
  }

  // The table is sorted: inside each block, and from block to block.

  lemma SortedBlock0(i: nat)
    requires i < 12
    ensures Before(EntityAt(i), EntityAt(i + 1))
  {
    if i == 11 {
      assert Before(BLOCK0[11], BLOCK1[0]);
    } else {
      assert Before(BLOCK0[i], BLOCK0[i + 1]);
    }
  }

  lemma SortedBlock1(i: nat)
    requires 12 <= i < 24
    ensures Before(EntityAt(i), EntityAt(i + 1))
  {
    if i == 23 {
      assert Before(BLOCK1[11], BLOCK2[0]);
    } else {
      assert Before(BLOCK1[i - 12], BLOCK1[i - 12 + 1]);
    }
  }

  lemma SortedBlock2(i: nat)
    requires 24 <= i < 36
    ensures Before(EntityAt(i), EntityAt(i + 1))
  {
    if i == 35 {
      assert Before(BLOCK2[11], BLOCK3[0]);
    } else {
      assert Before(BLOCK2[i - 24], BLOCK2[i - 24 + 1]);
    }
  }

  lemma SortedBlock3(i: nat)
    requires 36 <= i < 48
    ensures Before(EntityAt(i), EntityAt(i + 1))
  {
    if i == 47 {
      assert Before(BLOCK3[11], BLOCK4[0]);
    } else {
      assert Before(BLOCK3[i - 36], BLOCK3[i - 36 + 1]);
    }
  }

  lemma SortedBlock4(i: nat)
    requires 48 <= i < 60
    ensures Before(EntityAt(i), EntityAt(i + 1))
  {
    if i == 59 {
      assert Before(BLOCK4[11], BLOCK5[0]);
    } else {
      assert Before(BLOCK4[i - 48], BLOCK4[i - 48 + 1]);
    }
  }

  lemma SortedBlock5(i: nat)
    requires 60 <= i < 72
    ensures Before(EntityAt(i), EntityAt(i + 1))
  {
    if i == 71 {
      assert Before(BLOCK5[11], BLOCK6[0]);
    } else {
      assert Before(BLOCK5[i - 60], BLOCK5[i - 60 + 1]);
    }
  }

  lemma SortedBlock6(i: nat)
    requires 72 <= i < 84
    ensures Before(EntityAt(i), EntityAt(i + 1))
  {
    if i == 83 {
      assert Before(BLOCK6[11], BLOCK7[0]);
    } else {
      assert Before(BLOCK6[i - 72], BLOCK6[i - 72 + 1]);
    }
  }

  lemma SortedBlock7(i: nat)
    requires 84 <= i < 96
    ensures Before(EntityAt(i), EntityAt(i + 1))
  {
    if i == 95 {
      assert Before(BLOCK7[11], BLOCK8[0]);
    } else {
      assert Before(BLOCK7[i - 84], BLOCK7[i - 84 + 1]);
    }
  }

  lemma SortedBlock8(i: nat)
    requires 96 <= i < 108
    ensures Before(EntityAt(i), EntityAt(i + 1))
  {
    if i == 107 {
      assert Before(BLOCK8[11], BLOCK9[0]);
    } else {
      assert Before(BLOCK8[i - 96], BLOCK8[i - 96 + 1]);
    }
  }

  lemma SortedBlock9(i: nat)
    requires 108 <= i < 120
    ensures Before(EntityAt(i), EntityAt(i + 1))
  {
    if i == 119 {
      assert Before(BLOCK9[11], BLOCK10[0]);
    } else {
      assert Before(BLOCK9[i - 108], BLOCK9[i - 108 + 1]);
    }
  }

  lemma SortedBlock10(i: nat)
    requires 120 <= i < 132
    ensures Before(EntityAt(i), EntityAt(i + 1))
  {
    if i == 131 {
      assert Before(BLOCK10[11], BLOCK11[0]);
    } else {
      assert Before(BLOCK10[i - 120], BLOCK10[i - 120 + 1]);
    }
  }

  lemma SortedBlock11(i: nat)
    requires 132 <= i < 144
    ensures Before(EntityAt(i), EntityAt(i + 1))
  {
    if i == 143 {
      assert Before(BLOCK11[11], BLOCK12[0]);
    } else {
      assert Before(BLOCK11[i - 132], BLOCK11[i - 132 + 1]);
    }
  }

  lemma SortedBlock12(i: nat)
    requires 144 <= i < 156
    ensures Before(EntityAt(i), EntityAt(i + 1))
  {
    if i == 155 {
      assert Before(BLOCK12[11], BLOCK13[0]);
    } else {
      assert Before(BLOCK12[i - 144], BLOCK12[i - 144 + 1]);
    }
  }

  lemma SortedBlock13(i: nat)
    requires 156 <= i < 168
    ensures Before(EntityAt(i), EntityAt(i + 1))
  {
    if i == 167 {
      assert Before(BLOCK13[11], BLOCK14[0]);
    } else {
      assert Before(BLOCK13[i - 156], BLOCK13[i - 156 + 1]);
    }
  }

  lemma SortedBlock14(i: nat)
    requires 168 <= i < 180
    ensures Before(EntityAt(i), EntityAt(i + 1))
  {
    if i == 179 {
      assert Before(BLOCK14[11], BLOCK15[0]);
    } else {
      assert Before(BLOCK14[i - 168], BLOCK14[i - 168 + 1]);
    }
  }

  lemma SortedBlock15(i: nat)
    requires 180 <= i < 192
    ensures Before(EntityAt(i), EntityAt(i + 1))
  {
    if i == 191 {
      assert Before(BLOCK15[11], BLOCK16[0]);
    } else {
      assert Before(BLOCK15[i - 180], BLOCK15[i - 180 + 1]);
    }
  }

  lemma SortedBlock16(i: nat)
    requires 192 <= i < 204
    ensures Before(EntityAt(i), EntityAt(i + 1))
  {
    if i == 203 {
      assert Before(BLOCK16[11], BLOCK17[0]);
    } else {
      assert Before(BLOCK16[i - 192], BLOCK16[i - 192 + 1]);
    }
  }

  lemma SortedBlock17(i: nat)
    requires 204 <= i < 216
    ensures Before(EntityAt(i), EntityAt(i + 1))
  {
    if i == 215 {
      assert Before(BLOCK17[11], BLOCK18[0]);
    } else {
      assert Before(BLOCK17[i - 204], BLOCK17[i - 204 + 1]);
    }
  }

  lemma SortedBlock18(i: nat)
    requires 216 <= i < 228
    ensures Before(EntityAt(i), EntityAt(i + 1))
  {
    if i == 227 {
      assert Before(BLOCK18[11], BLOCK19[0]);
    } else {
      assert Before(BLOCK18[i - 216], BLOCK18[i - 216 + 1]);
    }
  }

  lemma SortedBlock19(i: nat)
    requires 228 <= i < 240
    ensures Before(EntityAt(i), EntityAt(i + 1))
  {
    if i == 239 {
      assert Before(BLOCK19[11], BLOCK20[0]);
    } else {
      assert Before(BLOCK19[i - 228], BLOCK19[i - 228 + 1]);
    }
  }

  lemma SortedBlock20(i: nat)
    requires 240 <= i < 252
    ensures Before(EntityAt(i), EntityAt(i + 1))
  {
    if i == 251 {
      assert Before(BLOCK20[11], BLOCK21[0]);
    } else {
      assert Before(BLOCK20[i - 240], BLOCK20[i - 240 + 1]);
    }
  }

  lemma SortedBlock21(i: nat)
    requires 252 <= i < 256
    ensures Before(EntityAt(i), EntityAt(i + 1))
  {
    assert Before(BLOCK21[i - 252], BLOCK21[i - 252 + 1]);
  }

  lemma Sorted(i: nat)
    requires i < COUNT - 1
    ensures Before(EntityAt(i), EntityAt(i + 1))
  {
    hide EntityAt, Before;
    if i < 12 {
      SortedBlock0(i);
    } else if i < 24 {
      SortedBlock1(i);
    } else if i < 36 {
      SortedBlock2(i);
    } else if i < 48 {
      SortedBlock3(i);
    } else if i < 60 {
      SortedBlock4(i);
    } else if i < 72 {
      SortedBlock5(i);
    } else if i < 84 {
      SortedBlock6(i);
    } else if i < 96 {
      SortedBlock7(i);
    } else if i < 108 {
      SortedBlock8(i);
    } else if i < 120 {
      SortedBlock9(i);
    } else if i < 132 {
      SortedBlock10(i);
    } else if i < 144 {
      SortedBlock11(i);
    } else if i < 156 {
      SortedBlock12(i);
    } else if i < 168 {
      SortedBlock13(i);
    } else if i < 180 {
      SortedBlock14(i);
    } else if i < 192 {
      SortedBlock15(i);
    } else if i < 204 {
      SortedBlock16(i);
    } else if i < 216 {
      SortedBlock17(i);
    } else if i < 228 {
      SortedBlock18(i);
    } else if i < 240 {
      SortedBlock19(i);
    } else if i < 252 {
      SortedBlock20(i);
    } else {
      SortedBlock21(i);
    }
  }
}
