/** The table of mca_Crc32_ComputeBuf (mca_utils_impl_abb.c), against the bit steps it abbreviates. */
module CrcTable {

  // The reflected polynomial of section 8 of RFC 1952.
  const POLY: bv32 := 0xEDB88320

  /** One bit through the register. */
  function Bit(c: bv32): bv32 {
    if c & 1 == 1 then (c >> 1) ^ POLY else c >> 1
  }

  /** Eight bits. */
  function Byte(c: bv32): bv32 {
    Bit(Bit(Bit(Bit(Bit(Bit(Bit(Bit(c))))))))
  }

  function Row0(y: bv32): bv32 {
    match y
    case 0 => 0x00000000 case 1 => 0x77073096
    case 2 => 0xEE0E612C case 3 => 0x990951BA
    case 4 => 0x076DC419 case 5 => 0x706AF48F
    case 6 => 0xE963A535 case _ => 0x9E6495A3
  }

  function Row1(y: bv32): bv32 {
    match y
    case 8 => 0x0EDB8832 case 9 => 0x79DCB8A4
    case 10 => 0xE0D5E91E case 11 => 0x97D2D988
    case 12 => 0x09B64C2B case 13 => 0x7EB17CBD
    case 14 => 0xE7B82D07 case _ => 0x90BF1D91
  }

  function Row2(y: bv32): bv32 {
    match y
    case 16 => 0x1DB71064 case 17 => 0x6AB020F2
    case 18 => 0xF3B97148 case 19 => 0x84BE41DE
    case 20 => 0x1ADAD47D case 21 => 0x6DDDE4EB
    case 22 => 0xF4D4B551 case _ => 0x83D385C7
  }

  function Row3(y: bv32): bv32 {
    match y
    case 24 => 0x136C9856 case 25 => 0x646BA8C0
    case 26 => 0xFD62F97A case 27 => 0x8A65C9EC
    case 28 => 0x14015C4F case 29 => 0x63066CD9
    case 30 => 0xFA0F3D63 case _ => 0x8D080DF5
  }

  function Row4(y: bv32): bv32 {
    match y
    case 32 => 0x3B6E20C8 case 33 => 0x4C69105E
    case 34 => 0xD56041E4 case 35 => 0xA2677172
    case 36 => 0x3C03E4D1 case 37 => 0x4B04D447
    case 38 => 0xD20D85FD case _ => 0xA50AB56B
  }

  function Row5(y: bv32): bv32 {
    match y
    case 40 => 0x35B5A8FA case 41 => 0x42B2986C
    case 42 => 0xDBBBC9D6 case 43 => 0xACBCF940
    case 44 => 0x32D86CE3 case 45 => 0x45DF5C75
    case 46 => 0xDCD60DCF case _ => 0xABD13D59
  }

  function Row6(y: bv32): bv32 {
    match y
    case 48 => 0x26D930AC case 49 => 0x51DE003A
    case 50 => 0xC8D75180 case 51 => 0xBFD06116
    case 52 => 0x21B4F4B5 case 53 => 0x56B3C423
    case 54 => 0xCFBA9599 case _ => 0xB8BDA50F
  }

  function Row7(y: bv32): bv32 {
    match y
    case 56 => 0x2802B89E case 57 => 0x5F058808
    case 58 => 0xC60CD9B2 case 59 => 0xB10BE924
    case 60 => 0x2F6F7C87 case 61 => 0x58684C11
    case 62 => 0xC1611DAB case _ => 0xB6662D3D
  }

  function Row8(y: bv32): bv32 {
    match y
    case 64 => 0x76DC4190 case 65 => 0x01DB7106
    case 66 => 0x98D220BC case 67 => 0xEFD5102A
    case 68 => 0x71B18589 case 69 => 0x06B6B51F
    case 70 => 0x9FBFE4A5 case _ => 0xE8B8D433
  }

  function Row9(y: bv32): bv32 {
    match y
    case 72 => 0x7807C9A2 case 73 => 0x0F00F934
    case 74 => 0x9609A88E case 75 => 0xE10E9818
    case 76 => 0x7F6A0DBB case 77 => 0x086D3D2D
    case 78 => 0x91646C97 case _ => 0xE6635C01
  }

  function Row10(y: bv32): bv32 {
    match y
    case 80 => 0x6B6B51F4 case 81 => 0x1C6C6162
    case 82 => 0x856530D8 case 83 => 0xF262004E
    case 84 => 0x6C0695ED case 85 => 0x1B01A57B
    case 86 => 0x8208F4C1 case _ => 0xF50FC457
  }

  function Row11(y: bv32): bv32 {
    match y
    case 88 => 0x65B0D9C6 case 89 => 0x12B7E950
    case 90 => 0x8BBEB8EA case 91 => 0xFCB9887C
    case 92 => 0x62DD1DDF case 93 => 0x15DA2D49
    case 94 => 0x8CD37CF3 case _ => 0xFBD44C65
  }

  function Row12(y: bv32): bv32 {
    match y
    case 96 => 0x4DB26158 case 97 => 0x3AB551CE
    case 98 => 0xA3BC0074 case 99 => 0xD4BB30E2
    case 100 => 0x4ADFA541 case 101 => 0x3DD895D7
    case 102 => 0xA4D1C46D case _ => 0xD3D6F4FB
  }

  function Row13(y: bv32): bv32 {
    match y
    case 104 => 0x4369E96A case 105 => 0x346ED9FC
    case 106 => 0xAD678846 case 107 => 0xDA60B8D0
    case 108 => 0x44042D73 case 109 => 0x33031DE5
    case 110 => 0xAA0A4C5F case _ => 0xDD0D7CC9
  }

  function Row14(y: bv32): bv32 {
    match y
    case 112 => 0x5005713C case 113 => 0x270241AA
    case 114 => 0xBE0B1010 case 115 => 0xC90C2086
    case 116 => 0x5768B525 case 117 => 0x206F85B3
    case 118 => 0xB966D409 case _ => 0xCE61E49F
  }

  function Row15(y: bv32): bv32 {
    match y
    case 120 => 0x5EDEF90E case 121 => 0x29D9C998
    case 122 => 0xB0D09822 case 123 => 0xC7D7A8B4
    case 124 => 0x59B33D17 case 125 => 0x2EB40D81
    case 126 => 0xB7BD5C3B case _ => 0xC0BA6CAD
  }

  function Row16(y: bv32): bv32 {
    match y
    case 128 => 0xEDB88320 case 129 => 0x9ABFB3B6
    case 130 => 0x03B6E20C case 131 => 0x74B1D29A
    case 132 => 0xEAD54739 case 133 => 0x9DD277AF
    case 134 => 0x04DB2615 case _ => 0x73DC1683
  }

  function Row17(y: bv32): bv32 {
    match y
    case 136 => 0xE3630B12 case 137 => 0x94643B84
    case 138 => 0x0D6D6A3E case 139 => 0x7A6A5AA8
    case 140 => 0xE40ECF0B case 141 => 0x9309FF9D
    case 142 => 0x0A00AE27 case _ => 0x7D079EB1
  }

  function Row18(y: bv32): bv32 {
    match y
    case 144 => 0xF00F9344 case 145 => 0x8708A3D2
    case 146 => 0x1E01F268 case 147 => 0x6906C2FE
    case 148 => 0xF762575D case 149 => 0x806567CB
    case 150 => 0x196C3671 case _ => 0x6E6B06E7
  }

  function Row19(y: bv32): bv32 {
    match y
    case 152 => 0xFED41B76 case 153 => 0x89D32BE0
    case 154 => 0x10DA7A5A case 155 => 0x67DD4ACC
    case 156 => 0xF9B9DF6F case 157 => 0x8EBEEFF9
    case 158 => 0x17B7BE43 case _ => 0x60B08ED5
  }

  function Row20(y: bv32): bv32 {
    match y
    case 160 => 0xD6D6A3E8 case 161 => 0xA1D1937E
    case 162 => 0x38D8C2C4 case 163 => 0x4FDFF252
    case 164 => 0xD1BB67F1 case 165 => 0xA6BC5767
    case 166 => 0x3FB506DD case _ => 0x48B2364B
  }

  function Row21(y: bv32): bv32 {
    match y
    case 168 => 0xD80D2BDA case 169 => 0xAF0A1B4C
    case 170 => 0x36034AF6 case 171 => 0x41047A60
    case 172 => 0xDF60EFC3 case 173 => 0xA867DF55
    case 174 => 0x316E8EEF case _ => 0x4669BE79
  }

  function Row22(y: bv32): bv32 {
    match y
    case 176 => 0xCB61B38C case 177 => 0xBC66831A
    case 178 => 0x256FD2A0 case 179 => 0x5268E236
    case 180 => 0xCC0C7795 case 181 => 0xBB0B4703
    case 182 => 0x220216B9 case _ => 0x5505262F
  }

  function Row23(y: bv32): bv32 {
    match y
    case 184 => 0xC5BA3BBE case 185 => 0xB2BD0B28
    case 186 => 0x2BB45A92 case 187 => 0x5CB36A04
    case 188 => 0xC2D7FFA7 case 189 => 0xB5D0CF31
    case 190 => 0x2CD99E8B case _ => 0x5BDEAE1D
  }

  function Row24(y: bv32): bv32 {
    match y
    case 192 => 0x9B64C2B0 case 193 => 0xEC63F226
    case 194 => 0x756AA39C case 195 => 0x026D930A
    case 196 => 0x9C0906A9 case 197 => 0xEB0E363F
    case 198 => 0x72076785 case _ => 0x05005713
  }

  function Row25(y: bv32): bv32 {
    match y
    case 200 => 0x95BF4A82 case 201 => 0xE2B87A14
    case 202 => 0x7BB12BAE case 203 => 0x0CB61B38
    case 204 => 0x92D28E9B case 205 => 0xE5D5BE0D
    case 206 => 0x7CDCEFB7 case _ => 0x0BDBDF21
  }

  function Row26(y: bv32): bv32 {
    match y
    case 208 => 0x86D3D2D4 case 209 => 0xF1D4E242
    case 210 => 0x68DDB3F8 case 211 => 0x1FDA836E
    case 212 => 0x81BE16CD case 213 => 0xF6B9265B
    case 214 => 0x6FB077E1 case _ => 0x18B74777
  }

  function Row27(y: bv32): bv32 {
    match y
    case 216 => 0x88085AE6 case 217 => 0xFF0F6A70
    case 218 => 0x66063BCA case 219 => 0x11010B5C
    case 220 => 0x8F659EFF case 221 => 0xF862AE69
    case 222 => 0x616BFFD3 case _ => 0x166CCF45
  }

  function Row28(y: bv32): bv32 {
    match y
    case 224 => 0xA00AE278 case 225 => 0xD70DD2EE
    case 226 => 0x4E048354 case 227 => 0x3903B3C2
    case 228 => 0xA7672661 case 229 => 0xD06016F7
    case 230 => 0x4969474D case _ => 0x3E6E77DB
  }

  function Row29(y: bv32): bv32 {
    match y
    case 232 => 0xAED16A4A case 233 => 0xD9D65ADC
    case 234 => 0x40DF0B66 case 235 => 0x37D83BF0
    case 236 => 0xA9BCAE53 case 237 => 0xDEBB9EC5
    case 238 => 0x47B2CF7F case _ => 0x30B5FFE9
  }

  function Row30(y: bv32): bv32 {
    match y
    case 240 => 0xBDBDF21C case 241 => 0xCABAC28A
    case 242 => 0x53B39330 case 243 => 0x24B4A3A6
    case 244 => 0xBAD03605 case 245 => 0xCDD70693
    case 246 => 0x54DE5729 case _ => 0x23D967BF
  }

  function Row31(y: bv32): bv32 {
    match y
    case 248 => 0xB3667A2E case 249 => 0xC4614AB8
    case 250 => 0x5D681B02 case 251 => 0x2A6F2B94
    case 252 => 0xB40BBE37 case 253 => 0xC30C8EA1
    case 254 => 0x5A05DF1B case _ => 0x2D02EF8D
  }

  /** The table, by its index. */
  function TableAt(y: bv32): bv32 {
    if y < 128 then
      if y < 64 then
        if y < 32 then
          if y < 16 then
            if y < 8 then
              Row0(y)
            else
              Row1(y)
          else
            if y < 24 then
              Row2(y)
            else
              Row3(y)
        else
          if y < 48 then
            if y < 40 then
              Row4(y)
            else
              Row5(y)
          else
            if y < 56 then
              Row6(y)
            else
              Row7(y)
      else
        if y < 96 then
          if y < 80 then
            if y < 72 then
              Row8(y)
            else
              Row9(y)
          else
            if y < 88 then
              Row10(y)
            else
              Row11(y)
        else
          if y < 112 then
            if y < 104 then
              Row12(y)
            else
              Row13(y)
          else
            if y < 120 then
              Row14(y)
            else
              Row15(y)
    else
      if y < 192 then
        if y < 160 then
          if y < 144 then
            if y < 136 then
              Row16(y)
            else
              Row17(y)
          else
            if y < 152 then
              Row18(y)
            else
              Row19(y)
        else
          if y < 176 then
            if y < 168 then
              Row20(y)
            else
              Row21(y)
          else
            if y < 184 then
              Row22(y)
            else
              Row23(y)
      else
        if y < 224 then
          if y < 208 then
            if y < 200 then
              Row24(y)
            else
              Row25(y)
          else
            if y < 216 then
              Row26(y)
            else
              Row27(y)
        else
          if y < 240 then
            if y < 232 then
              Row28(y)
            else
              Row29(y)
          else
            if y < 248 then
              Row30(y)
            else
              Row31(y)
  }

  lemma Rows0(y: bv32)
    requires 0 <= y < 32
    ensures TableAt(y) == Byte(y)
  {
    if y < 8 {
      assert Row0(y) == Byte(y);
    } else if y < 16 {
      assert Row1(y) == Byte(y);
    } else if y < 24 {
      assert Row2(y) == Byte(y);
    } else {
      assert Row3(y) == Byte(y);
    }
  }

  lemma Rows1(y: bv32)
    requires 32 <= y < 64
    ensures TableAt(y) == Byte(y)
  {
    if y < 40 {
      assert Row4(y) == Byte(y);
    } else if y < 48 {
      assert Row5(y) == Byte(y);
    } else if y < 56 {
      assert Row6(y) == Byte(y);
    } else {
      assert Row7(y) == Byte(y);
    }
  }

  lemma Rows2(y: bv32)
    requires 64 <= y < 96
    ensures TableAt(y) == Byte(y)
  {
    if y < 72 {
      assert Row8(y) == Byte(y);
    } else if y < 80 {
      assert Row9(y) == Byte(y);
    } else if y < 88 {
      assert Row10(y) == Byte(y);
    } else {
      assert Row11(y) == Byte(y);
    }
  }

  lemma Rows3(y: bv32)
    requires 96 <= y < 128
    ensures TableAt(y) == Byte(y)
  {
    if y < 104 {
      assert Row12(y) == Byte(y);
    } else if y < 112 {
      assert Row13(y) == Byte(y);
    } else if y < 120 {
      assert Row14(y) == Byte(y);
    } else {
      assert Row15(y) == Byte(y);
    }
  }

  lemma Rows4(y: bv32)
    requires 128 <= y < 160
    ensures TableAt(y) == Byte(y)
  {
    if y < 136 {
      assert Row16(y) == Byte(y);
    } else if y < 144 {
      assert Row17(y) == Byte(y);
    } else if y < 152 {
      assert Row18(y) == Byte(y);
    } else {
      assert Row19(y) == Byte(y);
    }
  }

  lemma Rows5(y: bv32)
    requires 160 <= y < 192
    ensures TableAt(y) == Byte(y)
  {
    if y < 168 {
      assert Row20(y) == Byte(y);
    } else if y < 176 {
      assert Row21(y) == Byte(y);
    } else if y < 184 {
      assert Row22(y) == Byte(y);
    } else {
      assert Row23(y) == Byte(y);
    }
  }

  lemma Rows6(y: bv32)
    requires 192 <= y < 224
    ensures TableAt(y) == Byte(y)
  {
    if y < 200 {
      assert Row24(y) == Byte(y);
    } else if y < 208 {
      assert Row25(y) == Byte(y);
    } else if y < 216 {
      assert Row26(y) == Byte(y);
    } else {
      assert Row27(y) == Byte(y);
    }
  }

  lemma Rows7(y: bv32)
    requires 224 <= y < 256
    ensures TableAt(y) == Byte(y)
  {
    if y < 232 {
      assert Row28(y) == Byte(y);
    } else if y < 240 {
      assert Row29(y) == Byte(y);
    } else if y < 248 {
      assert Row30(y) == Byte(y);
    } else {
      assert Row31(y) == Byte(y);
    }
  }

  /** Every entry of the table is eight bit steps on its index. */
  lemma TableIsBitwise(y: bv32)
    requires y <= 0xFF
    ensures TableAt(y) == Byte(y)
  {
    hide Byte, TableAt;
    if y < 128 {
      if y < 64 {
        if y < 32 { Rows0(y); } else { Rows1(y); }
      } else {
        if y < 96 { Rows2(y); } else { Rows3(y); }
      }
    } else {
      if y < 192 {
        if y < 160 { Rows4(y); } else { Rows5(y); }
      } else {
        if y < 224 { Rows6(y); } else { Rows7(y); }
      }
    }
  }
}
