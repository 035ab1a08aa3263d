/**
 The code table of src/huffman_codes.rs (Appendix B of RFC 7541) and why it is prefix-free: the code
 is canonical. The codes of one width are consecutive and distinct, and every wider code lies above
 them when both are read as binary fractions.
 */
module HuffmanTable {
  import opened Octets

  const EOS: nat := 256

  /** (code, width in bits) of an octet or of the end-of-string symbol. */
  function Code(c: nat): (int, int) {
    if c < 32 then Row0(c)
    else if c < 64 then Row1(c)
    else if c < 96 then Row2(c)
    else if c < 128 then Row3(c)
    else if c < 160 then Row4(c)
    else if c < 192 then Row5(c)
    else if c < 224 then Row6(c)
    else if c < 256 then Row7(c)
    else (0x3fffffff, 30)
  }

  function Row0(c: int): (int, int) {
    match c
    case 0 => (0x1ff8, 13)
    case 1 => (0x7fffd8, 23)
    case 2 => (0xfffffe2, 28)
    case 3 => (0xfffffe3, 28)
    case 4 => (0xfffffe4, 28)
    case 5 => (0xfffffe5, 28)
    case 6 => (0xfffffe6, 28)
    case 7 => (0xfffffe7, 28)
    case 8 => (0xfffffe8, 28)
    case 9 => (0xffffea, 24)
    case 10 => (0x3ffffffc, 30)
    case 11 => (0xfffffe9, 28)
    case 12 => (0xfffffea, 28)
    case 13 => (0x3ffffffd, 30)
    case 14 => (0xfffffeb, 28)
    case 15 => (0xfffffec, 28)
    case 16 => (0xfffffed, 28)
    case 17 => (0xfffffee, 28)
    case 18 => (0xfffffef, 28)
    case 19 => (0xffffff0, 28)
    case 20 => (0xffffff1, 28)
    case 21 => (0xffffff2, 28)
    case 22 => (0x3ffffffe, 30)
    case 23 => (0xffffff3, 28)
    case 24 => (0xffffff4, 28)
    case 25 => (0xffffff5, 28)
    case 26 => (0xffffff6, 28)
    case 27 => (0xffffff7, 28)
    case 28 => (0xffffff8, 28)
    case 29 => (0xffffff9, 28)
    case 30 => (0xffffffa, 28)
    case _ => (0xffffffb, 28)
  }

  function Row1(c: int): (int, int) {
    match c
    case 32 => (0x14, 6)
    case 33 => (0x3f8, 10)
    case 34 => (0x3f9, 10)
    case 35 => (0xffa, 12)
    case 36 => (0x1ff9, 13)
    case 37 => (0x15, 6)
    case 38 => (0xf8, 8)
    case 39 => (0x7fa, 11)
    case 40 => (0x3fa, 10)
    case 41 => (0x3fb, 10)
    case 42 => (0xf9, 8)
    case 43 => (0x7fb, 11)
    case 44 => (0xfa, 8)
    case 45 => (0x16, 6)
    case 46 => (0x17, 6)
    case 47 => (0x18, 6)
    case 48 => (0x0, 5)
    case 49 => (0x1, 5)
    case 50 => (0x2, 5)
    case 51 => (0x19, 6)
    case 52 => (0x1a, 6)
    case 53 => (0x1b, 6)
    case 54 => (0x1c, 6)
    case 55 => (0x1d, 6)
    case 56 => (0x1e, 6)
    case 57 => (0x1f, 6)
    case 58 => (0x5c, 7)
    case 59 => (0xfb, 8)
    case 60 => (0x7ffc, 15)
    case 61 => (0x20, 6)
    case 62 => (0xffb, 12)
    case _ => (0x3fc, 10)
  }

  function Row2(c: int): (int, int) {
    match c
    case 64 => (0x1ffa, 13)
    case 65 => (0x21, 6)
    case 66 => (0x5d, 7)
    case 67 => (0x5e, 7)
    case 68 => (0x5f, 7)
    case 69 => (0x60, 7)
    case 70 => (0x61, 7)
    case 71 => (0x62, 7)
    case 72 => (0x63, 7)
    case 73 => (0x64, 7)
    case 74 => (0x65, 7)
    case 75 => (0x66, 7)
    case 76 => (0x67, 7)
    case 77 => (0x68, 7)
    case 78 => (0x69, 7)
    case 79 => (0x6a, 7)
    case 80 => (0x6b, 7)
    case 81 => (0x6c, 7)
    case 82 => (0x6d, 7)
    case 83 => (0x6e, 7)
    case 84 => (0x6f, 7)
    case 85 => (0x70, 7)
    case 86 => (0x71, 7)
    case 87 => (0x72, 7)
    case 88 => (0xfc, 8)
    case 89 => (0x73, 7)
    case 90 => (0xfd, 8)
    case 91 => (0x1ffb, 13)
    case 92 => (0x7fff0, 19)
    case 93 => (0x1ffc, 13)
    case 94 => (0x3ffc, 14)
    case _ => (0x22, 6)
  }

  function Row3(c: int): (int, int) {
    match c
    case 96 => (0x7ffd, 15)
    case 97 => (0x3, 5)
    case 98 => (0x23, 6)
    case 99 => (0x4, 5)
    case 100 => (0x24, 6)
    case 101 => (0x5, 5)
    case 102 => (0x25, 6)
    case 103 => (0x26, 6)
    case 104 => (0x27, 6)
    case 105 => (0x6, 5)
    case 106 => (0x74, 7)
    case 107 => (0x75, 7)
    case 108 => (0x28, 6)
    case 109 => (0x29, 6)
    case 110 => (0x2a, 6)
    case 111 => (0x7, 5)
    case 112 => (0x2b, 6)
    case 113 => (0x76, 7)
    case 114 => (0x2c, 6)
    case 115 => (0x8, 5)
    case 116 => (0x9, 5)
    case 117 => (0x2d, 6)
    case 118 => (0x77, 7)
    case 119 => (0x78, 7)
    case 120 => (0x79, 7)
    case 121 => (0x7a, 7)
    case 122 => (0x7b, 7)
    case 123 => (0x7ffe, 15)
    case 124 => (0x7fc, 11)
    case 125 => (0x3ffd, 14)
    case 126 => (0x1ffd, 13)
    case _ => (0xffffffc, 28)
  }

  function Row4(c: int): (int, int) {
    match c
    case 128 => (0xfffe6, 20)
    case 129 => (0x3fffd2, 22)
    case 130 => (0xfffe7, 20)
    case 131 => (0xfffe8, 20)
    case 132 => (0x3fffd3, 22)
    case 133 => (0x3fffd4, 22)
    case 134 => (0x3fffd5, 22)
    case 135 => (0x7fffd9, 23)
    case 136 => (0x3fffd6, 22)
    case 137 => (0x7fffda, 23)
    case 138 => (0x7fffdb, 23)
    case 139 => (0x7fffdc, 23)
    case 140 => (0x7fffdd, 23)
    case 141 => (0x7fffde, 23)
    case 142 => (0xffffeb, 24)
    case 143 => (0x7fffdf, 23)
    case 144 => (0xffffec, 24)
    case 145 => (0xffffed, 24)
    case 146 => (0x3fffd7, 22)
    case 147 => (0x7fffe0, 23)
    case 148 => (0xffffee, 24)
    case 149 => (0x7fffe1, 23)
    case 150 => (0x7fffe2, 23)
    case 151 => (0x7fffe3, 23)
    case 152 => (0x7fffe4, 23)
    case 153 => (0x1fffdc, 21)
    case 154 => (0x3fffd8, 22)
    case 155 => (0x7fffe5, 23)
    case 156 => (0x3fffd9, 22)
    case 157 => (0x7fffe6, 23)
    case 158 => (0x7fffe7, 23)
    case _ => (0xffffef, 24)
  }

  function Row5(c: int): (int, int) {
    match c
    case 160 => (0x3fffda, 22)
    case 161 => (0x1fffdd, 21)
    case 162 => (0xfffe9, 20)
    case 163 => (0x3fffdb, 22)
    case 164 => (0x3fffdc, 22)
    case 165 => (0x7fffe8, 23)
    case 166 => (0x7fffe9, 23)
    case 167 => (0x1fffde, 21)
    case 168 => (0x7fffea, 23)
    case 169 => (0x3fffdd, 22)
    case 170 => (0x3fffde, 22)
    case 171 => (0xfffff0, 24)
    case 172 => (0x1fffdf, 21)
    case 173 => (0x3fffdf, 22)
    case 174 => (0x7fffeb, 23)
    case 175 => (0x7fffec, 23)
    case 176 => (0x1fffe0, 21)
    case 177 => (0x1fffe1, 21)
    case 178 => (0x3fffe0, 22)
    case 179 => (0x1fffe2, 21)
    case 180 => (0x7fffed, 23)
    case 181 => (0x3fffe1, 22)
    case 182 => (0x7fffee, 23)
    case 183 => (0x7fffef, 23)
    case 184 => (0xfffea, 20)
    case 185 => (0x3fffe2, 22)
    case 186 => (0x3fffe3, 22)
    case 187 => (0x3fffe4, 22)
    case 188 => (0x7ffff0, 23)
    case 189 => (0x3fffe5, 22)
    case 190 => (0x3fffe6, 22)
    case _ => (0x7ffff1, 23)
  }

  function Row6(c: int): (int, int) {
    match c
    case 192 => (0x3ffffe0, 26)
    case 193 => (0x3ffffe1, 26)
    case 194 => (0xfffeb, 20)
    case 195 => (0x7fff1, 19)
    case 196 => (0x3fffe7, 22)
    case 197 => (0x7ffff2, 23)
    case 198 => (0x3fffe8, 22)
    case 199 => (0x1ffffec, 25)
    case 200 => (0x3ffffe2, 26)
    case 201 => (0x3ffffe3, 26)
    case 202 => (0x3ffffe4, 26)
    case 203 => (0x7ffffde, 27)
    case 204 => (0x7ffffdf, 27)
    case 205 => (0x3ffffe5, 26)
    case 206 => (0xfffff1, 24)
    case 207 => (0x1ffffed, 25)
    case 208 => (0x7fff2, 19)
    case 209 => (0x1fffe3, 21)
    case 210 => (0x3ffffe6, 26)
    case 211 => (0x7ffffe0, 27)
    case 212 => (0x7ffffe1, 27)
    case 213 => (0x3ffffe7, 26)
    case 214 => (0x7ffffe2, 27)
    case 215 => (0xfffff2, 24)
    case 216 => (0x1fffe4, 21)
    case 217 => (0x1fffe5, 21)
    case 218 => (0x3ffffe8, 26)
    case 219 => (0x3ffffe9, 26)
    case 220 => (0xffffffd, 28)
    case 221 => (0x7ffffe3, 27)
    case 222 => (0x7ffffe4, 27)
    case _ => (0x7ffffe5, 27)
  }

  function Row7(c: int): (int, int) {
    match c
    case 224 => (0xfffec, 20)
    case 225 => (0xfffff3, 24)
    case 226 => (0xfffed, 20)
    case 227 => (0x1fffe6, 21)
    case 228 => (0x3fffe9, 22)
    case 229 => (0x1fffe7, 21)
    case 230 => (0x1fffe8, 21)
    case 231 => (0x7ffff3, 23)
    case 232 => (0x3fffea, 22)
    case 233 => (0x3fffeb, 22)
    case 234 => (0x1ffffee, 25)
    case 235 => (0x1ffffef, 25)
    case 236 => (0xfffff4, 24)
    case 237 => (0xfffff5, 24)
    case 238 => (0x3ffffea, 26)
    case 239 => (0x7ffff4, 23)
    case 240 => (0x3ffffeb, 26)
    case 241 => (0x7ffffe6, 27)
    case 242 => (0x3ffffec, 26)
    case 243 => (0x3ffffed, 26)
    case 244 => (0x7ffffe7, 27)
    case 245 => (0x7ffffe8, 27)
    case 246 => (0x7ffffe9, 27)
    case 247 => (0x7ffffea, 27)
    case 248 => (0x7ffffeb, 27)
    case 249 => (0xffffffe, 28)
    case 250 => (0x7ffffec, 27)
    case 251 => (0x7ffffed, 27)
    case 252 => (0x7ffffee, 27)
    case 253 => (0x7ffffef, 27)
    case 254 => (0x7fffff0, 27)
    case _ => (0x3ffffee, 26)
  }

  /** The inverse table: the symbol of a code, or -1. */
  function SymbolOf(v: int, w: int): int {
    match w
    case 5 => (match v case 0x0 => 48 case 0x1 => 49 case 0x2 => 50 case 0x3 => 97 case 0x4 => 99
      case 0x5 => 101 case 0x6 => 105 case 0x7 => 111 case 0x8 => 115 case 0x9 => 116 case _ => -1)
    case 6 => (match v case 0x14 => 32 case 0x15 => 37 case 0x16 => 45 case 0x17 => 46 case 0x18 => 47
      case 0x19 => 51 case 0x1a => 52 case 0x1b => 53 case 0x1c => 54 case 0x1d => 55 case 0x1e => 56
      case 0x1f => 57 case 0x20 => 61 case 0x21 => 65 case 0x22 => 95 case 0x23 => 98 case 0x24 => 100
      case 0x25 => 102 case 0x26 => 103 case 0x27 => 104 case 0x28 => 108 case 0x29 => 109 case 0x2a => 110
      case 0x2b => 112 case 0x2c => 114 case 0x2d => 117 case _ => -1)
    case 7 => (match v case 0x5c => 58 case 0x5d => 66 case 0x5e => 67 case 0x5f => 68 case 0x60 => 69
      case 0x61 => 70 case 0x62 => 71 case 0x63 => 72 case 0x64 => 73 case 0x65 => 74 case 0x66 => 75
      case 0x67 => 76 case 0x68 => 77 case 0x69 => 78 case 0x6a => 79 case 0x6b => 80 case 0x6c => 81
      case 0x6d => 82 case 0x6e => 83 case 0x6f => 84 case 0x70 => 85 case 0x71 => 86 case 0x72 => 87
      case 0x73 => 89 case 0x74 => 106 case 0x75 => 107 case 0x76 => 113 case 0x77 => 118 case 0x78 => 119
      case 0x79 => 120 case 0x7a => 121 case 0x7b => 122 case _ => -1)
    case 8 => (match v case 0xf8 => 38 case 0xf9 => 42 case 0xfa => 44 case 0xfb => 59 case 0xfc => 88
      case 0xfd => 90 case _ => -1)
    case 10 => (match v case 0x3f8 => 33 case 0x3f9 => 34 case 0x3fa => 40 case 0x3fb => 41
      case 0x3fc => 63 case _ => -1)
    case 11 => (match v case 0x7fa => 39 case 0x7fb => 43 case 0x7fc => 124 case _ => -1)
    case 12 => (match v case 0xffa => 35 case 0xffb => 62 case _ => -1)
    case 13 => (match v case 0x1ff8 => 0 case 0x1ff9 => 36 case 0x1ffa => 64 case 0x1ffb => 91 case 0x1ffc => 93
      case 0x1ffd => 126 case _ => -1)
    case 14 => (match v case 0x3ffc => 94 case 0x3ffd => 125 case _ => -1)
    case 15 => (match v case 0x7ffc => 60 case 0x7ffd => 96 case 0x7ffe => 123 case _ => -1)
    case 19 => (match v case 0x7fff0 => 92 case 0x7fff1 => 195 case 0x7fff2 => 208 case _ => -1)
    case 20 => (match v case 0xfffe6 => 128 case 0xfffe7 => 130 case 0xfffe8 => 131 case 0xfffe9 => 162
      case 0xfffea => 184 case 0xfffeb => 194 case 0xfffec => 224 case 0xfffed => 226 case _ => -1)
    case 21 => (match v case 0x1fffdc => 153 case 0x1fffdd => 161 case 0x1fffde => 167 case 0x1fffdf => 172
      case 0x1fffe0 => 176 case 0x1fffe1 => 177 case 0x1fffe2 => 179 case 0x1fffe3 => 209 case 0x1fffe4 => 216
      case 0x1fffe5 => 217 case 0x1fffe6 => 227 case 0x1fffe7 => 229 case 0x1fffe8 => 230 case _ => -1)
    case 22 => (match v case 0x3fffd2 => 129 case 0x3fffd3 => 132 case 0x3fffd4 => 133 case 0x3fffd5 => 134
      case 0x3fffd6 => 136 case 0x3fffd7 => 146 case 0x3fffd8 => 154 case 0x3fffd9 => 156 case 0x3fffda => 160
      case 0x3fffdb => 163 case 0x3fffdc => 164 case 0x3fffdd => 169 case 0x3fffde => 170 case 0x3fffdf => 173
      case 0x3fffe0 => 178 case 0x3fffe1 => 181 case 0x3fffe2 => 185 case 0x3fffe3 => 186 case 0x3fffe4 => 187
      case 0x3fffe5 => 189 case 0x3fffe6 => 190 case 0x3fffe7 => 196 case 0x3fffe8 => 198 case 0x3fffe9 => 228
      case 0x3fffea => 232 case 0x3fffeb => 233 case _ => -1)
    case 23 => (match v case 0x7fffd8 => 1 case 0x7fffd9 => 135 case 0x7fffda => 137 case 0x7fffdb => 138
      case 0x7fffdc => 139 case 0x7fffdd => 140 case 0x7fffde => 141 case 0x7fffdf => 143 case 0x7fffe0 => 147
      case 0x7fffe1 => 149 case 0x7fffe2 => 150 case 0x7fffe3 => 151 case 0x7fffe4 => 152 case 0x7fffe5 => 155
      case 0x7fffe6 => 157 case 0x7fffe7 => 158 case 0x7fffe8 => 165 case 0x7fffe9 => 166 case 0x7fffea => 168
      case 0x7fffeb => 174 case 0x7fffec => 175 case 0x7fffed => 180 case 0x7fffee => 182 case 0x7fffef => 183
      case 0x7ffff0 => 188 case 0x7ffff1 => 191 case 0x7ffff2 => 197 case 0x7ffff3 => 231
      case 0x7ffff4 => 239 case _ => -1)
    case 24 => (match v case 0xffffea => 9 case 0xffffeb => 142 case 0xffffec => 144 case 0xffffed => 145
      case 0xffffee => 148 case 0xffffef => 159 case 0xfffff0 => 171 case 0xfffff1 => 206 case 0xfffff2 => 215
      case 0xfffff3 => 225 case 0xfffff4 => 236 case 0xfffff5 => 237 case _ => -1)
    case 25 => (match v case 0x1ffffec => 199 case 0x1ffffed => 207 case 0x1ffffee => 234
      case 0x1ffffef => 235 case _ => -1)
    case 26 => (match v case 0x3ffffe0 => 192 case 0x3ffffe1 => 193 case 0x3ffffe2 => 200 case 0x3ffffe3 => 201
      case 0x3ffffe4 => 202 case 0x3ffffe5 => 205 case 0x3ffffe6 => 210 case 0x3ffffe7 => 213
      case 0x3ffffe8 => 218 case 0x3ffffe9 => 219 case 0x3ffffea => 238 case 0x3ffffeb => 240
      case 0x3ffffec => 242 case 0x3ffffed => 243 case 0x3ffffee => 255 case _ => -1)
    case 27 => (match v case 0x7ffffde => 203 case 0x7ffffdf => 204 case 0x7ffffe0 => 211 case 0x7ffffe1 => 212
      case 0x7ffffe2 => 214 case 0x7ffffe3 => 221 case 0x7ffffe4 => 222 case 0x7ffffe5 => 223
      case 0x7ffffe6 => 241 case 0x7ffffe7 => 244 case 0x7ffffe8 => 245 case 0x7ffffe9 => 246
      case 0x7ffffea => 247 case 0x7ffffeb => 248 case 0x7ffffec => 250 case 0x7ffffed => 251
      case 0x7ffffee => 252 case 0x7ffffef => 253 case 0x7fffff0 => 254 case _ => -1)
    case 28 => (match v case 0xfffffe2 => 2 case 0xfffffe3 => 3 case 0xfffffe4 => 4 case 0xfffffe5 => 5
      case 0xfffffe6 => 6 case 0xfffffe7 => 7 case 0xfffffe8 => 8 case 0xfffffe9 => 11 case 0xfffffea => 12
      case 0xfffffeb => 14 case 0xfffffec => 15 case 0xfffffed => 16 case 0xfffffee => 17 case 0xfffffef => 18
      case 0xffffff0 => 19 case 0xffffff1 => 20 case 0xffffff2 => 21 case 0xffffff3 => 23 case 0xffffff4 => 24
      case 0xffffff5 => 25 case 0xffffff6 => 26 case 0xffffff7 => 27 case 0xffffff8 => 28 case 0xffffff9 => 29
      case 0xffffffa => 30 case 0xffffffb => 31 case 0xffffffc => 127 case 0xffffffd => 220
      case 0xffffffe => 249 case _ => -1)
    case 30 => (match v case 0x3ffffffc => 10 case 0x3ffffffd => 13 case 0x3ffffffe => 22
      case 0x3fffffff => 256 case _ => -1)
    case _ => -1
  }

  /** First code of width `w` in the canonical order, and one past the last. */
  function First(w: int): int {
    match w
    case 5 => 0x0
    case 6 => 0x14
    case 7 => 0x5c
    case 8 => 0xf8
    case 9 => 0x1fc
    case 10 => 0x3f8
    case 11 => 0x7fa
    case 12 => 0xffa
    case 13 => 0x1ff8
    case 14 => 0x3ffc
    case 15 => 0x7ffc
    case 16 => 0xfffe
    case 17 => 0x1fffc
    case 18 => 0x3fff8
    case 19 => 0x7fff0
    case 20 => 0xfffe6
    case 21 => 0x1fffdc
    case 22 => 0x3fffd2
    case 23 => 0x7fffd8
    case 24 => 0xffffea
    case 25 => 0x1ffffec
    case 26 => 0x3ffffe0
    case 27 => 0x7ffffde
    case 28 => 0xfffffe2
    case 29 => 0x1ffffffe
    case 30 => 0x3ffffffc
    case _ => 0x80000000
  }

  function End(w: int): int {
    match w
    case 5 => 0xa
    case 6 => 0x2e
    case 7 => 0x7c
    case 8 => 0xfe
    case 9 => 0x1fc
    case 10 => 0x3fd
    case 11 => 0x7fd
    case 12 => 0xffc
    case 13 => 0x1ffe
    case 14 => 0x3ffe
    case 15 => 0x7fff
    case 16 => 0xfffe
    case 17 => 0x1fffc
    case 18 => 0x3fff8
    case 19 => 0x7fff3
    case 20 => 0xfffee
    case 21 => 0x1fffe9
    case 22 => 0x3fffec
    case 23 => 0x7ffff5
    case 24 => 0xfffff6
    case 25 => 0x1fffff0
    case 26 => 0x3ffffef
    case 27 => 0x7fffff1
    case 28 => 0xfffffff
    case 29 => 0x1ffffffe
    case 30 => 0x40000000
    case _ => 0x80000000
  }

  ghost predicate Canonical(c: nat, code: (int, int)) {
    var (v, w) := code;
    5 <= w <= 30 && First(w) <= v < End(w) && SymbolOf(v, w) == c
  }

  lemma CanonicalRow0(c: nat)
    requires 0 <= c < 32
    ensures Canonical(c, Row0(c))
  {
  }

  lemma CanonicalRow1(c: nat)
    requires 32 <= c < 64
    ensures Canonical(c, Row1(c))
  {
  }

  lemma CanonicalRow2(c: nat)
    requires 64 <= c < 96
    ensures Canonical(c, Row2(c))
  {
  }

  lemma CanonicalRow3(c: nat)
    requires 96 <= c < 128
    ensures Canonical(c, Row3(c))
  {
  }

  lemma CanonicalRow4(c: nat)
    requires 128 <= c < 160
    ensures Canonical(c, Row4(c))
  {
  }

  lemma CanonicalRow5(c: nat)
    requires 160 <= c < 192
    ensures Canonical(c, Row5(c))
  {
  }

  lemma CanonicalRow6(c: nat)
    requires 192 <= c < 224
    ensures Canonical(c, Row6(c))
  {
  }

  lemma CanonicalRow7(c: nat)
    requires 224 <= c < 256
    ensures Canonical(c, Row7(c))
  {
  }

  lemma CodeIsCanonical(c: nat)
    requires c <= EOS
    ensures Canonical(c, Code(c))
  {
    if c < 32 { CanonicalRow0(c); }
    else if c < 64 { CanonicalRow1(c); }
    else if c < 96 { CanonicalRow2(c); }
    else if c < 128 { CanonicalRow3(c); }
    else if c < 160 { CanonicalRow4(c); }
    else if c < 192 { CanonicalRow5(c); }
    else if c < 224 { CanonicalRow6(c); }
    else if c < 256 { CanonicalRow7(c); }
  }

  /** The canonical rule. It starts at zero and ends at 2^31, so the code is also complete. */
  lemma NextWidth(w: int)
    requires 5 <= w <= 30
    ensures First(w + 1) == 2 * End(w) && First(w) <= End(w)
    ensures First(5) == 0 && First(31) == 0x80000000
  {
  }

  /** Seen as binary fractions, all codes of a narrower width lie below those of a wider one. */
  lemma {:induction false} NarrowerBelow(w: int, u: int)
    requires 5 <= w < u <= 31
    ensures 0 <= First(w) <= End(w) && ShiftLeft(End(w), u - w) <= First(u)
    decreases u - w
  {
    NonNegative(w);
    NextWidth(w);
    if w + 1 < u {
      NarrowerBelow(w + 1, u);
      ShiftTwiceMono(End(w), End(w + 1), u - w - 1);
    }
  }

  lemma ShiftTwiceMono(x: nat, y: nat, n: nat)
    requires 2 * x <= y
    ensures ShiftLeft(x, n + 1) <= ShiftLeft(y, n)
  {
    ShiftLeftMono(2 * x, y, n);
    ShiftLeftTwice(x, n);
  }

  lemma {:induction false} NonNegative(w: int)
    requires 5 <= w <= 31
    ensures 0 <= First(w)
    ensures w < 31 ==> 0 <= End(w)
    decreases w
  {
    if w < 31 {
      NextWidth(w);
    }
    if w > 5 {
      NonNegative(w - 1);
      NextWidth(w - 1);
    }
  }

  lemma {:induction false} ShiftLeftMono(x: nat, y: nat, n: nat)
    requires x <= y
    ensures ShiftLeft(x, n) <= ShiftLeft(y, n)
    ensures x < y ==> ShiftLeft(x, n) + Pow2(n) <= ShiftLeft(y, n)
  {
    if n > 0 {
      ShiftLeftMono(x, y, n - 1);
    }
  }

  lemma {:induction false} ShiftLeftTwice(x: nat, n: nat)
    ensures ShiftLeft(2 * x, n) == ShiftLeft(x, n + 1)
  {
    if n > 0 {
      ShiftLeftTwice(x, n - 1);
    }
  }

  /** Every code fits its width. */
  lemma FitsWidth(c: nat)
    requires c <= EOS
    ensures var (v, w) := Code(c); 5 <= w <= 30 && 0 <= v < Pow2(w)
  {
    CodeIsCanonical(c);
    var (v, w) := Code(c);
    NonNegative(w);
    NextWidth(w);
    NarrowerBelow(w, 31);
    Pow2ThirtyOne();
    if v >= Pow2(w) {
      ShiftLeftMono(Pow2(w), v, 31 - w);
      ShiftLeftMono(v, End(w), 31 - w);
      ShiftPow2(w, 31 - w);
    }
  }

  lemma {:induction false} ShiftPow2(a: nat, n: nat)
    ensures ShiftLeft(Pow2(a), n) == Pow2(a + n)
  {
    if n > 0 {
      ShiftPow2(a, n - 1);
    }
  }

  lemma Pow2ThirtyOne()
    ensures Pow2(31) == 0x80000000
  {
    Pow2Eight();
    Pow2Add(8, 8);
    Pow2Add(16, 8);
    Pow2Seven();
    Pow2Add(24, 7);
  }

  /** No code is another one followed by more bits. */
  lemma PrefixFree(a: nat, b: nat, tail: nat)
    requires a <= EOS && b <= EOS && Code(a).1 <= Code(b).1 && 0 <= Code(a).0
    requires tail < Pow2(Code(b).1 - Code(a).1)
    requires Code(b).0 == ShiftLeft(Code(a).0, Code(b).1 - Code(a).1) + tail
    ensures a == b
  {
    CodeIsCanonical(a);
    CodeIsCanonical(b);
    var (v, w) := Code(a);
    var u := Code(b).1;
    if w < u {
      NarrowerBelow(w, u);
      ShiftLeftMono(v, End(w), u - w);
      assert false;
    }
    assert Pow2(0) == 1;
  }
}
