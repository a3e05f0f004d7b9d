/** The Huffman code of Appendix B of RFC 7541 in the form the program has it (fw/hpack_tbl.h): codes
    and their lengths by symbol, and tables that decode seven or three bits at a time. */
module HuffmanTables {

  /** An entry of a decoding table (fw/hpack_tbl.h:23-48). A positive shift is the number of bits of a
      symbol, four more of them in a table of eight, and the offset is the symbol as a signed char;
      a negative shift goes on to the table at the offset, or is the end of the string. */
  datatype HtState = HtState(shift: int, offset: int)

  const SMALL := 640
  /** The number of table places. */
  const PLACES := 848

  function Codes0(s: nat): (nat, nat) {
    if s == 0 then (13, 0x1FF8) else if s == 1 then (23, 0x7FFFD8) else if s == 2 then (28, 0xFFFFFE2)
    else if s == 3 then (28, 0xFFFFFE3)
    else if s == 4 then (28, 0xFFFFFE4) else if s == 5 then (28, 0xFFFFFE5) else if s == 6 then (28, 0xFFFFFE6)
    else if s == 7 then (28, 0xFFFFFE7)
    else if s == 8 then (28, 0xFFFFFE8) else if s == 9 then (24, 0xFFFFEA) else if s == 10 then (30, 0x3FFFFFFC)
    else if s == 11 then (28, 0xFFFFFE9)
    else if s == 12 then (28, 0xFFFFFEA) else if s == 13 then (30, 0x3FFFFFFD) else if s == 14 then (28, 0xFFFFFEB)
    else (28, 0xFFFFFEC)
  }

  function Codes16(s: nat): (nat, nat) {
    if s == 16 then (28, 0xFFFFFED) else if s == 17 then (28, 0xFFFFFEE) else if s == 18 then (28, 0xFFFFFEF)
    else if s == 19 then (28, 0xFFFFFF0)
    else if s == 20 then (28, 0xFFFFFF1) else if s == 21 then (28, 0xFFFFFF2) else if s == 22 then (30, 0x3FFFFFFE)
    else if s == 23 then (28, 0xFFFFFF3)
    else if s == 24 then (28, 0xFFFFFF4) else if s == 25 then (28, 0xFFFFFF5) else if s == 26 then (28, 0xFFFFFF6)
    else if s == 27 then (28, 0xFFFFFF7)
    else if s == 28 then (28, 0xFFFFFF8) else if s == 29 then (28, 0xFFFFFF9) else if s == 30 then (28, 0xFFFFFFA)
    else (28, 0xFFFFFFB)
  }

  function Codes32(s: nat): (nat, nat) {
    if s == 32 then (6, 0x14) else if s == 33 then (10, 0x3F8) else if s == 34 then (10, 0x3F9)
    else if s == 35 then (12, 0xFFA)
    else if s == 36 then (13, 0x1FF9) else if s == 37 then (6, 0x15) else if s == 38 then (8, 0xF8)
    else if s == 39 then (11, 0x7FA)
    else if s == 40 then (10, 0x3FA) else if s == 41 then (10, 0x3FB) else if s == 42 then (8, 0xF9)
    else if s == 43 then (11, 0x7FB)
    else if s == 44 then (8, 0xFA) else if s == 45 then (6, 0x16) else if s == 46 then (6, 0x17) else (6, 0x18)
  }

  function Codes48(s: nat): (nat, nat) {
    if s == 48 then (5, 0x0) else if s == 49 then (5, 0x1) else if s == 50 then (5, 0x2) else if s == 51 then (6, 0x19)
    else if s == 52 then (6, 0x1A) else if s == 53 then (6, 0x1B) else if s == 54 then (6, 0x1C)
    else if s == 55 then (6, 0x1D)
    else if s == 56 then (6, 0x1E) else if s == 57 then (6, 0x1F) else if s == 58 then (7, 0x5C)
    else if s == 59 then (8, 0xFB)
    else if s == 60 then (15, 0x7FFC) else if s == 61 then (6, 0x20) else if s == 62 then (12, 0xFFB) else (10, 0x3FC)
  }

  function Codes64(s: nat): (nat, nat) {
    if s == 64 then (13, 0x1FFA) else if s == 65 then (6, 0x21) else if s == 66 then (7, 0x5D)
    else if s == 67 then (7, 0x5E)
    else if s == 68 then (7, 0x5F) else if s == 69 then (7, 0x60) else if s == 70 then (7, 0x61)
    else if s == 71 then (7, 0x62)
    else if s == 72 then (7, 0x63) else if s == 73 then (7, 0x64) else if s == 74 then (7, 0x65)
    else if s == 75 then (7, 0x66)
    else if s == 76 then (7, 0x67) else if s == 77 then (7, 0x68) else if s == 78 then (7, 0x69) else (7, 0x6A)
  }

  function Codes80(s: nat): (nat, nat) {
    if s == 80 then (7, 0x6B) else if s == 81 then (7, 0x6C) else if s == 82 then (7, 0x6D)
    else if s == 83 then (7, 0x6E)
    else if s == 84 then (7, 0x6F) else if s == 85 then (7, 0x70) else if s == 86 then (7, 0x71)
    else if s == 87 then (7, 0x72)
    else if s == 88 then (8, 0xFC) else if s == 89 then (7, 0x73) else if s == 90 then (8, 0xFD)
    else if s == 91 then (13, 0x1FFB)
    else if s == 92 then (19, 0x7FFF0) else if s == 93 then (13, 0x1FFC) else if s == 94 then (14, 0x3FFC)
    else (6, 0x22)
  }

  function Codes96(s: nat): (nat, nat) {
    if s == 96 then (15, 0x7FFD) else if s == 97 then (5, 0x3) else if s == 98 then (6, 0x23)
    else if s == 99 then (5, 0x4)
    else if s == 100 then (6, 0x24) else if s == 101 then (5, 0x5) else if s == 102 then (6, 0x25)
    else if s == 103 then (6, 0x26)
    else if s == 104 then (6, 0x27) else if s == 105 then (5, 0x6) else if s == 106 then (7, 0x74)
    else if s == 107 then (7, 0x75)
    else if s == 108 then (6, 0x28) else if s == 109 then (6, 0x29) else if s == 110 then (6, 0x2A) else (5, 0x7)
  }

  function Codes112(s: nat): (nat, nat) {
    if s == 112 then (6, 0x2B) else if s == 113 then (7, 0x76) else if s == 114 then (6, 0x2C)
    else if s == 115 then (5, 0x8)
    else if s == 116 then (5, 0x9) else if s == 117 then (6, 0x2D) else if s == 118 then (7, 0x77)
    else if s == 119 then (7, 0x78)
    else if s == 120 then (7, 0x79) else if s == 121 then (7, 0x7A) else if s == 122 then (7, 0x7B)
    else if s == 123 then (15, 0x7FFE)
    else if s == 124 then (11, 0x7FC) else if s == 125 then (14, 0x3FFD) else if s == 126 then (13, 0x1FFD)
    else (28, 0xFFFFFFC)
  }

  function Codes128(s: nat): (nat, nat) {
    if s == 128 then (20, 0xFFFE6) else if s == 129 then (22, 0x3FFFD2) else if s == 130 then (20, 0xFFFE7)
    else if s == 131 then (20, 0xFFFE8)
    else if s == 132 then (22, 0x3FFFD3) else if s == 133 then (22, 0x3FFFD4) else if s == 134 then (22, 0x3FFFD5)
    else if s == 135 then (23, 0x7FFFD9)
    else if s == 136 then (22, 0x3FFFD6) else if s == 137 then (23, 0x7FFFDA) else if s == 138 then (23, 0x7FFFDB)
    else if s == 139 then (23, 0x7FFFDC)
    else if s == 140 then (23, 0x7FFFDD) else if s == 141 then (23, 0x7FFFDE) else if s == 142 then (24, 0xFFFFEB)
    else (23, 0x7FFFDF)
  }

  function Codes144(s: nat): (nat, nat) {
    if s == 144 then (24, 0xFFFFEC) else if s == 145 then (24, 0xFFFFED) else if s == 146 then (22, 0x3FFFD7)
    else if s == 147 then (23, 0x7FFFE0)
    else if s == 148 then (24, 0xFFFFEE) else if s == 149 then (23, 0x7FFFE1) else if s == 150 then (23, 0x7FFFE2)
    else if s == 151 then (23, 0x7FFFE3)
    else if s == 152 then (23, 0x7FFFE4) else if s == 153 then (21, 0x1FFFDC) else if s == 154 then (22, 0x3FFFD8)
    else if s == 155 then (23, 0x7FFFE5)
    else if s == 156 then (22, 0x3FFFD9) else if s == 157 then (23, 0x7FFFE6) else if s == 158 then (23, 0x7FFFE7)
    else (24, 0xFFFFEF)
  }

  function Codes160(s: nat): (nat, nat) {
    if s == 160 then (22, 0x3FFFDA) else if s == 161 then (21, 0x1FFFDD) else if s == 162 then (20, 0xFFFE9)
    else if s == 163 then (22, 0x3FFFDB)
    else if s == 164 then (22, 0x3FFFDC) else if s == 165 then (23, 0x7FFFE8) else if s == 166 then (23, 0x7FFFE9)
    else if s == 167 then (21, 0x1FFFDE)
    else if s == 168 then (23, 0x7FFFEA) else if s == 169 then (22, 0x3FFFDD) else if s == 170 then (22, 0x3FFFDE)
    else if s == 171 then (24, 0xFFFFF0)
    else if s == 172 then (21, 0x1FFFDF) else if s == 173 then (22, 0x3FFFDF) else if s == 174 then (23, 0x7FFFEB)
    else (23, 0x7FFFEC)
  }

  function Codes176(s: nat): (nat, nat) {
    if s == 176 then (21, 0x1FFFE0) else if s == 177 then (21, 0x1FFFE1) else if s == 178 then (22, 0x3FFFE0)
    else if s == 179 then (21, 0x1FFFE2)
    else if s == 180 then (23, 0x7FFFED) else if s == 181 then (22, 0x3FFFE1) else if s == 182 then (23, 0x7FFFEE)
    else if s == 183 then (23, 0x7FFFEF)
    else if s == 184 then (20, 0xFFFEA) else if s == 185 then (22, 0x3FFFE2) else if s == 186 then (22, 0x3FFFE3)
    else if s == 187 then (22, 0x3FFFE4)
    else if s == 188 then (23, 0x7FFFF0) else if s == 189 then (22, 0x3FFFE5) else if s == 190 then (22, 0x3FFFE6)
    else (23, 0x7FFFF1)
  }

  function Codes192(s: nat): (nat, nat) {
    if s == 192 then (26, 0x3FFFFE0) else if s == 193 then (26, 0x3FFFFE1) else if s == 194 then (20, 0xFFFEB)
    else if s == 195 then (19, 0x7FFF1)
    else if s == 196 then (22, 0x3FFFE7) else if s == 197 then (23, 0x7FFFF2) else if s == 198 then (22, 0x3FFFE8)
    else if s == 199 then (25, 0x1FFFFEC)
    else if s == 200 then (26, 0x3FFFFE2) else if s == 201 then (26, 0x3FFFFE3)
    else if s == 202 then (26, 0x3FFFFE4) else if s == 203 then (27, 0x7FFFFDE)
    else if s == 204 then (27, 0x7FFFFDF) else if s == 205 then (26, 0x3FFFFE5) else if s == 206 then (24, 0xFFFFF1)
    else (25, 0x1FFFFED)
  }

  function Codes208(s: nat): (nat, nat) {
    if s == 208 then (19, 0x7FFF2) else if s == 209 then (21, 0x1FFFE3) else if s == 210 then (26, 0x3FFFFE6)
    else if s == 211 then (27, 0x7FFFFE0)
    else if s == 212 then (27, 0x7FFFFE1) else if s == 213 then (26, 0x3FFFFE7)
    else if s == 214 then (27, 0x7FFFFE2) else if s == 215 then (24, 0xFFFFF2)
    else if s == 216 then (21, 0x1FFFE4) else if s == 217 then (21, 0x1FFFE5) else if s == 218 then (26, 0x3FFFFE8)
    else if s == 219 then (26, 0x3FFFFE9)
    else if s == 220 then (28, 0xFFFFFFD) else if s == 221 then (27, 0x7FFFFE3)
    else if s == 222 then (27, 0x7FFFFE4) else (27, 0x7FFFFE5)
  }

  function Codes224(s: nat): (nat, nat) {
    if s == 224 then (20, 0xFFFEC) else if s == 225 then (24, 0xFFFFF3) else if s == 226 then (20, 0xFFFED)
    else if s == 227 then (21, 0x1FFFE6)
    else if s == 228 then (22, 0x3FFFE9) else if s == 229 then (21, 0x1FFFE7) else if s == 230 then (21, 0x1FFFE8)
    else if s == 231 then (23, 0x7FFFF3)
    else if s == 232 then (22, 0x3FFFEA) else if s == 233 then (22, 0x3FFFEB) else if s == 234 then (25, 0x1FFFFEE)
    else if s == 235 then (25, 0x1FFFFEF)
    else if s == 236 then (24, 0xFFFFF4) else if s == 237 then (24, 0xFFFFF5) else if s == 238 then (26, 0x3FFFFEA)
    else (23, 0x7FFFF4)
  }

  function Codes240(s: nat): (nat, nat) {
    if s == 240 then (26, 0x3FFFFEB) else if s == 241 then (27, 0x7FFFFE6) else if s == 242 then (26, 0x3FFFFEC)
    else if s == 243 then (26, 0x3FFFFED)
    else if s == 244 then (27, 0x7FFFFE7) else if s == 245 then (27, 0x7FFFFE8)
    else if s == 246 then (27, 0x7FFFFE9) else if s == 247 then (27, 0x7FFFFEA)
    else if s == 248 then (27, 0x7FFFFEB) else if s == 249 then (28, 0xFFFFFFE)
    else if s == 250 then (27, 0x7FFFFEC) else if s == 251 then (27, 0x7FFFFED)
    else if s == 252 then (27, 0x7FFFFEE) else if s == 253 then (27, 0x7FFFFEF)
    else if s == 254 then (27, 0x7FFFFF0) else (26, 0x3FFFFEE)
  }

  /** The length and the bits of a symbol (fw/hpack_tbl.h:65-149). */
  function HtCode(s: nat): (nat, nat)
    requires s < 256
  {
    if s < 16 then Codes0(s) else if s < 32 then Codes16(s) else if s < 48 then Codes32(s)
    else if s < 64 then Codes48(s)
    else if s < 80 then Codes64(s) else if s < 96 then Codes80(s) else if s < 112 then Codes96(s)
    else if s < 128 then Codes112(s)
    else if s < 144 then Codes128(s) else if s < 160 then Codes144(s) else if s < 176 then Codes160(s)
    else if s < 192 then Codes176(s)
    else if s < 208 then Codes192(s) else if s < 224 then Codes208(s) else if s < 240 then Codes224(s) else Codes240(s)
  }

  function HtLength(s: nat): nat
    requires s < 256
  {
    HtCode(s).0
  }

  function HtEncode(s: nat): nat
    requires s < 256
  {
    HtCode(s).1
  }

  function Table0(i: nat): HtState
    requires i < 128
  {
    if i < 4 then HtState(5, 48) else if i < 8 then HtState(5, 49) else if i < 12 then HtState(5, 50)
    else if i < 16 then HtState(5, 97)
    else if i < 20 then HtState(5, 99) else if i < 24 then HtState(5, 101) else if i < 28 then HtState(5, 105)
    else if i < 32 then HtState(5, 111)
    else if i < 36 then HtState(5, 115) else if i < 40 then HtState(5, 116) else if i < 42 then HtState(6, 32)
    else if i < 44 then HtState(6, 37)
    else if i < 46 then HtState(6, 45) else if i < 48 then HtState(6, 46) else if i < 50 then HtState(6, 47)
    else if i < 52 then HtState(6, 51)
    else if i < 54 then HtState(6, 52) else if i < 56 then HtState(6, 53) else if i < 58 then HtState(6, 54)
    else if i < 60 then HtState(6, 55)
    else if i < 62 then HtState(6, 56) else if i < 64 then HtState(6, 57) else if i < 66 then HtState(6, 61)
    else if i < 68 then HtState(6, 65)
    else if i < 70 then HtState(6, 95) else if i < 72 then HtState(6, 98) else if i < 74 then HtState(6, 100)
    else if i < 76 then HtState(6, 102)
    else if i < 78 then HtState(6, 103) else if i < 80 then HtState(6, 104) else if i < 82 then HtState(6, 108)
    else if i < 84 then HtState(6, 109)
    else if i < 86 then HtState(6, 110) else if i < 88 then HtState(6, 112) else if i < 90 then HtState(6, 114)
    else if i < 92 then HtState(6, 117)
    else if i < 93 then HtState(7, 58) else if i < 94 then HtState(7, 66) else if i < 95 then HtState(7, 67)
    else if i < 96 then HtState(7, 68)
    else if i < 97 then HtState(7, 69) else if i < 98 then HtState(7, 70) else if i < 99 then HtState(7, 71)
    else if i < 100 then HtState(7, 72)
    else if i < 101 then HtState(7, 73) else if i < 102 then HtState(7, 74) else if i < 103 then HtState(7, 75)
    else if i < 104 then HtState(7, 76)
    else if i < 105 then HtState(7, 77) else if i < 106 then HtState(7, 78) else if i < 107 then HtState(7, 79)
    else if i < 108 then HtState(7, 80)
    else if i < 109 then HtState(7, 81) else if i < 110 then HtState(7, 82) else if i < 111 then HtState(7, 83)
    else if i < 112 then HtState(7, 84)
    else if i < 113 then HtState(7, 85) else if i < 114 then HtState(7, 86) else if i < 115 then HtState(7, 87)
    else if i < 116 then HtState(7, 89)
    else if i < 117 then HtState(7, 106) else if i < 118 then HtState(7, 107) else if i < 119 then HtState(7, 113)
    else if i < 120 then HtState(7, 118)
    else if i < 121 then HtState(7, 119) else if i < 122 then HtState(7, 120) else if i < 123 then HtState(7, 121)
    else if i < 124 then HtState(7, 122)
    else if i < 125 then HtState(-7, 640) else if i < 126 then HtState(-7, 648)
    else if i < 127 then HtState(-7, 656) else HtState(-7, 128)
  }

  function Table128(i: nat): HtState
    requires i < 128
  {
    if i < 16 then HtState(3, 33) else if i < 32 then HtState(3, 34) else if i < 48 then HtState(3, 40)
    else if i < 64 then HtState(3, 41)
    else if i < 80 then HtState(3, 63) else if i < 88 then HtState(4, 39) else if i < 96 then HtState(4, 43)
    else if i < 104 then HtState(4, 124)
    else if i < 108 then HtState(5, 35) else if i < 112 then HtState(5, 62) else if i < 114 then HtState(6, 0)
    else if i < 116 then HtState(6, 36)
    else if i < 118 then HtState(6, 64) else if i < 120 then HtState(6, 91) else if i < 122 then HtState(6, 93)
    else if i < 124 then HtState(6, 126)
    else if i < 125 then HtState(7, 94) else if i < 126 then HtState(7, 125) else if i < 127 then HtState(-7, 664)
    else HtState(-7, 256)
  }

  function Table256(i: nat): HtState
    requires i < 128
  {
    if i < 64 then HtState(1, 123) else if i < 68 then HtState(5, 92) else if i < 72 then HtState(5, -61)
    else if i < 76 then HtState(5, -48)
    else if i < 78 then HtState(6, -128) else if i < 80 then HtState(6, -126) else if i < 82 then HtState(6, -125)
    else if i < 84 then HtState(6, -94)
    else if i < 86 then HtState(6, -72) else if i < 88 then HtState(6, -62) else if i < 90 then HtState(6, -32)
    else if i < 92 then HtState(6, -30)
    else if i < 93 then HtState(7, -103) else if i < 94 then HtState(7, -95) else if i < 95 then HtState(7, -89)
    else if i < 96 then HtState(7, -84)
    else if i < 97 then HtState(7, -80) else if i < 98 then HtState(7, -79) else if i < 99 then HtState(7, -77)
    else if i < 100 then HtState(7, -47)
    else if i < 101 then HtState(7, -40) else if i < 102 then HtState(7, -39) else if i < 103 then HtState(7, -29)
    else if i < 104 then HtState(7, -27)
    else if i < 105 then HtState(7, -26) else if i < 106 then HtState(-7, 672) else if i < 107 then HtState(-7, 680)
    else if i < 108 then HtState(-7, 688)
    else if i < 109 then HtState(-7, 696) else if i < 110 then HtState(-7, 704)
    else if i < 111 then HtState(-7, 712) else if i < 112 then HtState(-7, 720)
    else if i < 113 then HtState(-7, 728) else if i < 114 then HtState(-7, 736)
    else if i < 115 then HtState(-7, 744) else if i < 116 then HtState(-7, 752)
    else if i < 117 then HtState(-7, 760) else if i < 118 then HtState(-7, 768)
    else if i < 119 then HtState(-7, 776) else if i < 120 then HtState(-7, 784)
    else if i < 121 then HtState(-7, 792) else if i < 122 then HtState(-7, 800)
    else if i < 123 then HtState(-7, 808) else if i < 124 then HtState(-7, 816)
    else if i < 125 then HtState(-7, 824) else if i < 126 then HtState(-7, 832)
    else if i < 127 then HtState(-7, 384) else HtState(-7, 512)
  }

  function Table384(i: nat): HtState
    requires i < 128
  {
    if i < 16 then HtState(3, -85) else if i < 32 then HtState(3, -50) else if i < 48 then HtState(3, -41)
    else if i < 64 then HtState(3, -31)
    else if i < 80 then HtState(3, -20) else if i < 96 then HtState(3, -19) else if i < 104 then HtState(4, -57)
    else if i < 112 then HtState(4, -49)
    else if i < 120 then HtState(4, -22) else HtState(4, -21)
  }

  function Table512(i: nat): HtState
    requires i < 128
  {
    if i < 4 then HtState(5, -64) else if i < 8 then HtState(5, -63) else if i < 12 then HtState(5, -56)
    else if i < 16 then HtState(5, -55)
    else if i < 20 then HtState(5, -54) else if i < 24 then HtState(5, -51) else if i < 28 then HtState(5, -46)
    else if i < 32 then HtState(5, -43)
    else if i < 36 then HtState(5, -38) else if i < 40 then HtState(5, -37) else if i < 44 then HtState(5, -18)
    else if i < 48 then HtState(5, -16)
    else if i < 52 then HtState(5, -14) else if i < 56 then HtState(5, -13) else if i < 60 then HtState(5, -1)
    else if i < 62 then HtState(6, -53)
    else if i < 64 then HtState(6, -52) else if i < 66 then HtState(6, -45) else if i < 68 then HtState(6, -44)
    else if i < 70 then HtState(6, -42)
    else if i < 72 then HtState(6, -35) else if i < 74 then HtState(6, -34) else if i < 76 then HtState(6, -33)
    else if i < 78 then HtState(6, -15)
    else if i < 80 then HtState(6, -12) else if i < 82 then HtState(6, -11) else if i < 84 then HtState(6, -10)
    else if i < 86 then HtState(6, -9)
    else if i < 88 then HtState(6, -8) else if i < 90 then HtState(6, -6) else if i < 92 then HtState(6, -5)
    else if i < 94 then HtState(6, -4)
    else if i < 96 then HtState(6, -3) else if i < 98 then HtState(6, -2) else if i < 99 then HtState(7, 2)
    else if i < 100 then HtState(7, 3)
    else if i < 101 then HtState(7, 4) else if i < 102 then HtState(7, 5) else if i < 103 then HtState(7, 6)
    else if i < 104 then HtState(7, 7)
    else if i < 105 then HtState(7, 8) else if i < 106 then HtState(7, 11) else if i < 107 then HtState(7, 12)
    else if i < 108 then HtState(7, 14)
    else if i < 109 then HtState(7, 15) else if i < 110 then HtState(7, 16) else if i < 111 then HtState(7, 17)
    else if i < 112 then HtState(7, 18)
    else if i < 113 then HtState(7, 19) else if i < 114 then HtState(7, 20) else if i < 115 then HtState(7, 21)
    else if i < 116 then HtState(7, 23)
    else if i < 117 then HtState(7, 24) else if i < 118 then HtState(7, 25) else if i < 119 then HtState(7, 26)
    else if i < 120 then HtState(7, 27)
    else if i < 121 then HtState(7, 28) else if i < 122 then HtState(7, 29) else if i < 123 then HtState(7, 30)
    else if i < 124 then HtState(7, 31)
    else if i < 125 then HtState(7, 127) else if i < 126 then HtState(7, -36) else if i < 127 then HtState(7, -7)
    else HtState(-7, 840)
  }

  function Tables640(p: nat): HtState {
    if p < 648 then (if p < 644 then HtState(5, 38) else HtState(5, 42))
    else if p < 656 then (if p < 652 then HtState(5, 44) else HtState(5, 59))
    else if p < 664 then (if p < 660 then HtState(5, 88) else HtState(5, 90))
    else if p < 672 then (if p < 668 then HtState(5, 60) else HtState(5, 96))
    else (if p < 676 then HtState(5, -127) else HtState(5, -124))
  }

  function Tables680(p: nat): HtState {
    if p < 688 then (if p < 684 then HtState(5, -123) else HtState(5, -122))
    else if p < 696 then (if p < 692 then HtState(5, -120) else HtState(5, -110))
    else if p < 704 then (if p < 700 then HtState(5, -102) else HtState(5, -100))
    else if p < 712 then (if p < 708 then HtState(5, -96) else HtState(5, -93))
    else (if p < 716 then HtState(5, -92) else HtState(5, -87))
  }

  function Tables720(p: nat): HtState {
    if p < 728 then (if p < 724 then HtState(5, -86) else HtState(5, -83))
    else if p < 736 then (if p < 732 then HtState(5, -78) else HtState(5, -75))
    else if p < 744 then (if p < 740 then HtState(5, -71) else HtState(5, -70))
    else if p < 752 then (if p < 748 then HtState(5, -69) else HtState(5, -67))
    else (if p < 756 then HtState(5, -66) else HtState(5, -60))
  }

  function Tables760(p: nat): HtState {
    if p < 768 then (if p < 764 then HtState(5, -58) else HtState(5, -28))
    else if p < 776 then (if p < 772 then HtState(5, -24) else HtState(5, -23))
    else if p < 784 then (if p < 778 then HtState(6, 1) else if p < 780 then HtState(6, -121)
    else if p < 782 then HtState(6, -119) else HtState(6, -118))
    else if p < 792 then (if p < 786 then HtState(6, -117) else if p < 788 then HtState(6, -116)
    else if p < 790 then HtState(6, -115) else HtState(6, -113))
    else (if p < 794 then HtState(6, -109) else if p < 796 then HtState(6, -107)
          else if p < 798 then HtState(6, -106) else HtState(6, -105))
  }

  function Tables800(p: nat): HtState {
    if p < 808 then (if p < 802 then HtState(6, -104) else if p < 804 then HtState(6, -101)
    else if p < 806 then HtState(6, -99) else HtState(6, -98))
    else if p < 816 then (if p < 810 then HtState(6, -91) else if p < 812 then HtState(6, -90)
    else if p < 814 then HtState(6, -88) else HtState(6, -82))
    else if p < 824 then (if p < 818 then HtState(6, -81) else if p < 820 then HtState(6, -76)
    else if p < 822 then HtState(6, -74) else HtState(6, -73))
    else if p < 832 then (if p < 826 then HtState(6, -68) else if p < 828 then HtState(6, -65)
    else if p < 830 then HtState(6, -59) else HtState(6, -25))
    else (if p < 834 then HtState(6, -17) else if p < 835 then HtState(7, 9)
          else if p < 836 then HtState(7, -114) else if p < 837 then HtState(7, -112)
          else if p < 838 then HtState(7, -111) else if p < 839 then HtState(7, -108) else HtState(7, -97))
  }

  function Tables840(p: nat): HtState {
    if p < 842 then HtState(6, 10) else if p < 844 then HtState(6, 13) else if p < 846 then HtState(6, 22)
    else HtState(-6, 0)
  }

  /** The tables of eight entries, one after the other. */
  function SmallTables(p: nat): HtState {
    if p < 680 then Tables640(p) else if p < 720 then Tables680(p) else if p < 760 then Tables720(p)
    else if p < 800 then Tables760(p) else if p < 840 then Tables800(p) else Tables840(p)
  }

  /** fw/hpack_tbl.h:151-1031 */
  function HtDecode(p: nat): HtState
    requires p < PLACES
  {
    if p < 128 then Table0(p) else if p < 256 then Table128(p - 128) else if p < 384 then Table256(p - 256)
    else if p < 512 then Table384(p - 384) else if p < SMALL then Table512(p - 512) else SmallTables(p)
  }

  /** Where a table starts. */
  predicate IsTable(o: nat) {
    o == 0 || o == 128 || o == 256 || o == 384 || o == 512 || (SMALL <= o < PLACES && o % 8 == 0)
  }

  /** The bits that lead to a table: how many, and as a number. */
  function PrefixLength(o: nat): nat
    requires IsTable(o)
  {
    if o == 0 then 0 else if o == 128 then 7 else if o == 256 then 14 else if o == 384 || o == 512 then 21
    else if o < 664 then 7 else if o == 664 then 14 else if o < 840 then 21 else 28
  }

  function PrefixValue(o: nat): nat
    requires IsTable(o)
  {
    if o == 0 then 0 else if o == 128 then 0x7F else if o == 256 then 0x3FFF else if o == 384 then 0x1FFFFE
    else if o == 512 then 0x1FFFFF
    else if o < 664 then 0x7C + (o - 640) / 8 else if o == 664 then 0x3FFE
    else if o < 840 then 0x1FFFE9 + (o - 672) / 8 else 0xFFFFFFF
  }

}
