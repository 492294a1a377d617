/**
 * The table-driven CRC-32 of storage/crc32.c, and the bitwise one of section 8 of RFC 1952, which it
 * computes. Words are bit vectors, as the proofs are about their bits.
 */
module Crc32 {
  const POLY: bv32 := 0xedb8_8320

  type Index = i: nat | i < 256

  /** One bit of the reflected division. */
  function Bit(c: bv32): bv32 {
    if c & 1 == 1 then (c >> 1) ^ POLY else c >> 1
  }

  /** Eight bits of it. */
  function Divide(c: bv32): bv32 {
    Bit(Bit(Bit(Bit(Bit(Bit(Bit(Bit(c))))))))
  }

  /** The register after the first `n` bytes. */
  function Register(data: seq<bv8>, n: nat): bv32
    requires n <= |data|
  {
    if n == 0 then 0xffff_ffff else Divide(Register(data, n - 1) ^ (data[n - 1] as bv32))
  }

  /** The CRC-32 of some bytes, bit by bit. */
  function Crc(data: seq<bv8>): bv32 {
    !Register(data, |data|)
  }

  // ---------------------------------------------------------------- the table, in rows of eight entries

  function Row0(i: Index): bv32 {
    match i
    case 0 => 0x00000000 case 1 => 0x77073096
    case 2 => 0xee0e612c case 3 => 0x990951ba
    case 4 => 0x076dc419 case 5 => 0x706af48f
    case 6 => 0xe963a535 case 7 => 0x9e6495a3
    case _ => 0
  }

  function Row1(i: Index): bv32 {
    match i
    case 8 => 0x0edb8832 case 9 => 0x79dcb8a4
    case 10 => 0xe0d5e91e case 11 => 0x97d2d988
    case 12 => 0x09b64c2b case 13 => 0x7eb17cbd
    case 14 => 0xe7b82d07 case 15 => 0x90bf1d91
    case _ => 0
  }

  function Row2(i: Index): bv32 {
    match i
    case 16 => 0x1db71064 case 17 => 0x6ab020f2
    case 18 => 0xf3b97148 case 19 => 0x84be41de
    case 20 => 0x1adad47d case 21 => 0x6ddde4eb
    case 22 => 0xf4d4b551 case 23 => 0x83d385c7
    case _ => 0
  }

  function Row3(i: Index): bv32 {
    match i
    case 24 => 0x136c9856 case 25 => 0x646ba8c0
    case 26 => 0xfd62f97a case 27 => 0x8a65c9ec
    case 28 => 0x14015c4f case 29 => 0x63066cd9
    case 30 => 0xfa0f3d63 case 31 => 0x8d080df5
    case _ => 0
  }

  function Row4(i: Index): bv32 {
    match i
    case 32 => 0x3b6e20c8 case 33 => 0x4c69105e
    case 34 => 0xd56041e4 case 35 => 0xa2677172
    case 36 => 0x3c03e4d1 case 37 => 0x4b04d447
    case 38 => 0xd20d85fd case 39 => 0xa50ab56b
    case _ => 0
  }

  function Row5(i: Index): bv32 {
    match i
    case 40 => 0x35b5a8fa case 41 => 0x42b2986c
    case 42 => 0xdbbbc9d6 case 43 => 0xacbcf940
    case 44 => 0x32d86ce3 case 45 => 0x45df5c75
    case 46 => 0xdcd60dcf case 47 => 0xabd13d59
    case _ => 0
  }

  function Row6(i: Index): bv32 {
    match i
    case 48 => 0x26d930ac case 49 => 0x51de003a
    case 50 => 0xc8d75180 case 51 => 0xbfd06116
    case 52 => 0x21b4f4b5 case 53 => 0x56b3c423
    case 54 => 0xcfba9599 case 55 => 0xb8bda50f
    case _ => 0
  }

  function Row7(i: Index): bv32 {
    match i
    case 56 => 0x2802b89e case 57 => 0x5f058808
    case 58 => 0xc60cd9b2 case 59 => 0xb10be924
    case 60 => 0x2f6f7c87 case 61 => 0x58684c11
    case 62 => 0xc1611dab case 63 => 0xb6662d3d
    case _ => 0
  }

  function Row8(i: Index): bv32 {
    match i
    case 64 => 0x76dc4190 case 65 => 0x01db7106
    case 66 => 0x98d220bc case 67 => 0xefd5102a
    case 68 => 0x71b18589 case 69 => 0x06b6b51f
    case 70 => 0x9fbfe4a5 case 71 => 0xe8b8d433
    case _ => 0
  }

  function Row9(i: Index): bv32 {
    match i
    case 72 => 0x7807c9a2 case 73 => 0x0f00f934
    case 74 => 0x9609a88e case 75 => 0xe10e9818
    case 76 => 0x7f6a0dbb case 77 => 0x086d3d2d
    case 78 => 0x91646c97 case 79 => 0xe6635c01
    case _ => 0
  }

  function Row10(i: Index): bv32 {
    match i
    case 80 => 0x6b6b51f4 case 81 => 0x1c6c6162
    case 82 => 0x856530d8 case 83 => 0xf262004e
    case 84 => 0x6c0695ed case 85 => 0x1b01a57b
    case 86 => 0x8208f4c1 case 87 => 0xf50fc457
    case _ => 0
  }

  function Row11(i: Index): bv32 {
    match i
    case 88 => 0x65b0d9c6 case 89 => 0x12b7e950
    case 90 => 0x8bbeb8ea case 91 => 0xfcb9887c
    case 92 => 0x62dd1ddf case 93 => 0x15da2d49
    case 94 => 0x8cd37cf3 case 95 => 0xfbd44c65
    case _ => 0
  }

  function Row12(i: Index): bv32 {
    match i
    case 96 => 0x4db26158 case 97 => 0x3ab551ce
    case 98 => 0xa3bc0074 case 99 => 0xd4bb30e2
    case 100 => 0x4adfa541 case 101 => 0x3dd895d7
    case 102 => 0xa4d1c46d case 103 => 0xd3d6f4fb
    case _ => 0
  }

  function Row13(i: Index): bv32 {
    match i
    case 104 => 0x4369e96a case 105 => 0x346ed9fc
    case 106 => 0xad678846 case 107 => 0xda60b8d0
    case 108 => 0x44042d73 case 109 => 0x33031de5
    case 110 => 0xaa0a4c5f case 111 => 0xdd0d7cc9
    case _ => 0
  }

  function Row14(i: Index): bv32 {
    match i
    case 112 => 0x5005713c case 113 => 0x270241aa
    case 114 => 0xbe0b1010 case 115 => 0xc90c2086
    case 116 => 0x5768b525 case 117 => 0x206f85b3
    case 118 => 0xb966d409 case 119 => 0xce61e49f
    case _ => 0
  }

  function Row15(i: Index): bv32 {
    match i
    case 120 => 0x5edef90e case 121 => 0x29d9c998
    case 122 => 0xb0d09822 case 123 => 0xc7d7a8b4
    case 124 => 0x59b33d17 case 125 => 0x2eb40d81
    case 126 => 0xb7bd5c3b case 127 => 0xc0ba6cad
    case _ => 0
  }

  function Row16(i: Index): bv32 {
    match i
    case 128 => 0xedb88320 case 129 => 0x9abfb3b6
    case 130 => 0x03b6e20c case 131 => 0x74b1d29a
    case 132 => 0xead54739 case 133 => 0x9dd277af
    case 134 => 0x04db2615 case 135 => 0x73dc1683
    case _ => 0
  }

  function Row17(i: Index): bv32 {
    match i
    case 136 => 0xe3630b12 case 137 => 0x94643b84
    case 138 => 0x0d6d6a3e case 139 => 0x7a6a5aa8
    case 140 => 0xe40ecf0b case 141 => 0x9309ff9d
    case 142 => 0x0a00ae27 case 143 => 0x7d079eb1
    case _ => 0
  }

  function Row18(i: Index): bv32 {
    match i
    case 144 => 0xf00f9344 case 145 => 0x8708a3d2
    case 146 => 0x1e01f268 case 147 => 0x6906c2fe
    case 148 => 0xf762575d case 149 => 0x806567cb
    case 150 => 0x196c3671 case 151 => 0x6e6b06e7
    case _ => 0
  }

  function Row19(i: Index): bv32 {
    match i
    case 152 => 0xfed41b76 case 153 => 0x89d32be0
    case 154 => 0x10da7a5a case 155 => 0x67dd4acc
    case 156 => 0xf9b9df6f case 157 => 0x8ebeeff9
    case 158 => 0x17b7be43 case 159 => 0x60b08ed5
    case _ => 0
  }

  function Row20(i: Index): bv32 {
    match i
    case 160 => 0xd6d6a3e8 case 161 => 0xa1d1937e
    case 162 => 0x38d8c2c4 case 163 => 0x4fdff252
    case 164 => 0xd1bb67f1 case 165 => 0xa6bc5767
    case 166 => 0x3fb506dd case 167 => 0x48b2364b
    case _ => 0
  }

  function Row21(i: Index): bv32 {
    match i
    case 168 => 0xd80d2bda case 169 => 0xaf0a1b4c
    case 170 => 0x36034af6 case 171 => 0x41047a60
    case 172 => 0xdf60efc3 case 173 => 0xa867df55
    case 174 => 0x316e8eef case 175 => 0x4669be79
    case _ => 0
  }

  function Row22(i: Index): bv32 {
    match i
    case 176 => 0xcb61b38c case 177 => 0xbc66831a
    case 178 => 0x256fd2a0 case 179 => 0x5268e236
    case 180 => 0xcc0c7795 case 181 => 0xbb0b4703
    case 182 => 0x220216b9 case 183 => 0x5505262f
    case _ => 0
  }

  function Row23(i: Index): bv32 {
    match i
    case 184 => 0xc5ba3bbe case 185 => 0xb2bd0b28
    case 186 => 0x2bb45a92 case 187 => 0x5cb36a04
    case 188 => 0xc2d7ffa7 case 189 => 0xb5d0cf31
    case 190 => 0x2cd99e8b case 191 => 0x5bdeae1d
    case _ => 0
  }

  function Row24(i: Index): bv32 {
    match i
    case 192 => 0x9b64c2b0 case 193 => 0xec63f226
    case 194 => 0x756aa39c case 195 => 0x026d930a
    case 196 => 0x9c0906a9 case 197 => 0xeb0e363f
    case 198 => 0x72076785 case 199 => 0x05005713
    case _ => 0
  }

  function Row25(i: Index): bv32 {
    match i
    case 200 => 0x95bf4a82 case 201 => 0xe2b87a14
    case 202 => 0x7bb12bae case 203 => 0x0cb61b38
    case 204 => 0x92d28e9b case 205 => 0xe5d5be0d
    case 206 => 0x7cdcefb7 case 207 => 0x0bdbdf21
    case _ => 0
  }

  function Row26(i: Index): bv32 {
    match i
    case 208 => 0x86d3d2d4 case 209 => 0xf1d4e242
    case 210 => 0x68ddb3f8 case 211 => 0x1fda836e
    case 212 => 0x81be16cd case 213 => 0xf6b9265b
    case 214 => 0x6fb077e1 case 215 => 0x18b74777
    case _ => 0
  }

  function Row27(i: Index): bv32 {
    match i
    case 216 => 0x88085ae6 case 217 => 0xff0f6a70
    case 218 => 0x66063bca case 219 => 0x11010b5c
    case 220 => 0x8f659eff case 221 => 0xf862ae69
    case 222 => 0x616bffd3 case 223 => 0x166ccf45
    case _ => 0
  }

  function Row28(i: Index): bv32 {
    match i
    case 224 => 0xa00ae278 case 225 => 0xd70dd2ee
    case 226 => 0x4e048354 case 227 => 0x3903b3c2
    case 228 => 0xa7672661 case 229 => 0xd06016f7
    case 230 => 0x4969474d case 231 => 0x3e6e77db
    case _ => 0
  }

  function Row29(i: Index): bv32 {
    match i
    case 232 => 0xaed16a4a case 233 => 0xd9d65adc
    case 234 => 0x40df0b66 case 235 => 0x37d83bf0
    case 236 => 0xa9bcae53 case 237 => 0xdebb9ec5
    case 238 => 0x47b2cf7f case 239 => 0x30b5ffe9
    case _ => 0
  }

  function Row30(i: Index): bv32 {
    match i
    case 240 => 0xbdbdf21c case 241 => 0xcabac28a
    case 242 => 0x53b39330 case 243 => 0x24b4a3a6
    case 244 => 0xbad03605 case 245 => 0xcdd70693
    case 246 => 0x54de5729 case 247 => 0x23d967bf
    case _ => 0
  }

  function Row31(i: Index): bv32 {
    match i
    case 248 => 0xb3667a2e case 249 => 0xc4614ab8
    case 250 => 0x5d681b02 case 251 => 0x2a6f2b94
    case 252 => 0xb40bbe37 case 253 => 0xc30c8ea1
    case 254 => 0x5a05df1b case 255 => 0x2d02ef8d
    case _ => 0
  }

  /** The entry at an index of the table. */
  function Lookup(i: Index): bv32 {
    match i / 8
    case 0 => Row0(i)
    case 1 => Row1(i)
    case 2 => Row2(i)
    case 3 => Row3(i)
    case 4 => Row4(i)
    case 5 => Row5(i)
    case 6 => Row6(i)
    case 7 => Row7(i)
    case 8 => Row8(i)
    case 9 => Row9(i)
    case 10 => Row10(i)
    case 11 => Row11(i)
    case 12 => Row12(i)
    case 13 => Row13(i)
    case 14 => Row14(i)
    case 15 => Row15(i)
    case 16 => Row16(i)
    case 17 => Row17(i)
    case 18 => Row18(i)
    case 19 => Row19(i)
    case 20 => Row20(i)
    case 21 => Row21(i)
    case 22 => Row22(i)
    case 23 => Row23(i)
    case 24 => Row24(i)
    case 25 => Row25(i)
    case 26 => Row26(i)
    case 27 => Row27(i)
    case 28 => Row28(i)
    case 29 => Row29(i)
    case 30 => Row30(i)
    case 31 => Row31(i)
    case _ => 0
  }

  function DivideOf(i: Index): bv32 {
    Divide(i as bv32)
  }

  /** The two agree on eight indices from `a` on. */
  ghost predicate Agree(r: Index -> bv32, d: Index -> bv32, a: nat) {
    forall i: Index :: a <= i < a + 8 ==> r(i) == d(i)
  }

  lemma EightEntries(r: Index -> bv32, d: Index -> bv32, a: nat)
    requires a + 8 <= 256
    requires r(a) == d(a) && r(a + 1) == d(a + 1) && r(a + 2) == d(a + 2) && r(a + 3) == d(a + 3)
    requires r(a + 4) == d(a + 4) && r(a + 5) == d(a + 5) && r(a + 6) == d(a + 6) && r(a + 7) == d(a + 7)
    ensures Agree(r, d, a)
  {
  }

  lemma AgreeAt(r: Index -> bv32, d: Index -> bv32, a: nat, i: Index, e: bv32)
    requires Agree(r, d, a) && a <= i < a + 8 && e == r(i)
    ensures e == d(i)
  {
  }

  lemma RowIs0()
    ensures Agree(Row0, DivideOf, 0)
  {
    EightEntries(Row0, DivideOf, 0);
  }

  lemma RowIs1()
    ensures Agree(Row1, DivideOf, 8)
  {
    EightEntries(Row1, DivideOf, 8);
  }

  lemma RowIs2()
    ensures Agree(Row2, DivideOf, 16)
  {
    EightEntries(Row2, DivideOf, 16);
  }

  lemma RowIs3()
    ensures Agree(Row3, DivideOf, 24)
  {
    EightEntries(Row3, DivideOf, 24);
  }

  lemma RowIs4()
    ensures Agree(Row4, DivideOf, 32)
  {
    EightEntries(Row4, DivideOf, 32);
  }

  lemma RowIs5()
    ensures Agree(Row5, DivideOf, 40)
  {
    EightEntries(Row5, DivideOf, 40);
  }

  lemma RowIs6()
    ensures Agree(Row6, DivideOf, 48)
  {
    EightEntries(Row6, DivideOf, 48);
  }

  lemma RowIs7()
    ensures Agree(Row7, DivideOf, 56)
  {
    EightEntries(Row7, DivideOf, 56);
  }

  lemma RowIs8()
    ensures Agree(Row8, DivideOf, 64)
  {
    EightEntries(Row8, DivideOf, 64);
  }

  lemma RowIs9()
    ensures Agree(Row9, DivideOf, 72)
  {
    EightEntries(Row9, DivideOf, 72);
  }

  lemma RowIs10()
    ensures Agree(Row10, DivideOf, 80)
  {
    EightEntries(Row10, DivideOf, 80);
  }

  lemma RowIs11()
    ensures Agree(Row11, DivideOf, 88)
  {
    EightEntries(Row11, DivideOf, 88);
  }

  lemma RowIs12()
    ensures Agree(Row12, DivideOf, 96)
  {
    EightEntries(Row12, DivideOf, 96);
  }

  lemma RowIs13()
    ensures Agree(Row13, DivideOf, 104)
  {
    EightEntries(Row13, DivideOf, 104);
  }

  lemma RowIs14()
    ensures Agree(Row14, DivideOf, 112)
  {
    EightEntries(Row14, DivideOf, 112);
  }

  lemma RowIs15()
    ensures Agree(Row15, DivideOf, 120)
  {
    EightEntries(Row15, DivideOf, 120);
  }

  lemma RowIs16()
    ensures Agree(Row16, DivideOf, 128)
  {
    EightEntries(Row16, DivideOf, 128);
  }

  lemma RowIs17()
    ensures Agree(Row17, DivideOf, 136)
  {
    EightEntries(Row17, DivideOf, 136);
  }

  lemma RowIs18()
    ensures Agree(Row18, DivideOf, 144)
  {
    EightEntries(Row18, DivideOf, 144);
  }

  lemma RowIs19()
    ensures Agree(Row19, DivideOf, 152)
  {
    EightEntries(Row19, DivideOf, 152);
  }

  lemma RowIs20()
    ensures Agree(Row20, DivideOf, 160)
  {
    EightEntries(Row20, DivideOf, 160);
  }

  lemma RowIs21()
    ensures Agree(Row21, DivideOf, 168)
  {
    EightEntries(Row21, DivideOf, 168);
  }

  lemma RowIs22()
    ensures Agree(Row22, DivideOf, 176)
  {
    EightEntries(Row22, DivideOf, 176);
  }

  lemma RowIs23()
    ensures Agree(Row23, DivideOf, 184)
  {
    EightEntries(Row23, DivideOf, 184);
  }

  lemma RowIs24()
    ensures Agree(Row24, DivideOf, 192)
  {
    EightEntries(Row24, DivideOf, 192);
  }

  lemma RowIs25()
    ensures Agree(Row25, DivideOf, 200)
  {
    EightEntries(Row25, DivideOf, 200);
  }

  lemma RowIs26()
    ensures Agree(Row26, DivideOf, 208)
  {
    EightEntries(Row26, DivideOf, 208);
  }

  lemma RowIs27()
    ensures Agree(Row27, DivideOf, 216)
  {
    EightEntries(Row27, DivideOf, 216);
  }

  lemma RowIs28()
    ensures Agree(Row28, DivideOf, 224)
  {
    EightEntries(Row28, DivideOf, 224);
  }

  lemma RowIs29()
    ensures Agree(Row29, DivideOf, 232)
  {
    EightEntries(Row29, DivideOf, 232);
  }

  lemma RowIs30()
    ensures Agree(Row30, DivideOf, 240)
  {
    EightEntries(Row30, DivideOf, 240);
  }

  lemma RowIs31()
    ensures Agree(Row31, DivideOf, 248)
  {
    EightEntries(Row31, DivideOf, 248);
  }

  /** The table holds what eight steps of the division make of each byte. */
  lemma LookupIs(i: Index)
    ensures Lookup(i) == DivideOf(i)
  {
    match i / 8
    case 0 => RowIs0(); AgreeAt(Row0, DivideOf, 0, i, Lookup(i));
    case 1 => RowIs1(); AgreeAt(Row1, DivideOf, 8, i, Lookup(i));
    case 2 => RowIs2(); AgreeAt(Row2, DivideOf, 16, i, Lookup(i));
    case 3 => RowIs3(); AgreeAt(Row3, DivideOf, 24, i, Lookup(i));
    case 4 => RowIs4(); AgreeAt(Row4, DivideOf, 32, i, Lookup(i));
    case 5 => RowIs5(); AgreeAt(Row5, DivideOf, 40, i, Lookup(i));
    case 6 => RowIs6(); AgreeAt(Row6, DivideOf, 48, i, Lookup(i));
    case 7 => RowIs7(); AgreeAt(Row7, DivideOf, 56, i, Lookup(i));
    case 8 => RowIs8(); AgreeAt(Row8, DivideOf, 64, i, Lookup(i));
    case 9 => RowIs9(); AgreeAt(Row9, DivideOf, 72, i, Lookup(i));
    case 10 => RowIs10(); AgreeAt(Row10, DivideOf, 80, i, Lookup(i));
    case 11 => RowIs11(); AgreeAt(Row11, DivideOf, 88, i, Lookup(i));
    case 12 => RowIs12(); AgreeAt(Row12, DivideOf, 96, i, Lookup(i));
    case 13 => RowIs13(); AgreeAt(Row13, DivideOf, 104, i, Lookup(i));
    case 14 => RowIs14(); AgreeAt(Row14, DivideOf, 112, i, Lookup(i));
    case 15 => RowIs15(); AgreeAt(Row15, DivideOf, 120, i, Lookup(i));
    case 16 => RowIs16(); AgreeAt(Row16, DivideOf, 128, i, Lookup(i));
    case 17 => RowIs17(); AgreeAt(Row17, DivideOf, 136, i, Lookup(i));
    case 18 => RowIs18(); AgreeAt(Row18, DivideOf, 144, i, Lookup(i));
    case 19 => RowIs19(); AgreeAt(Row19, DivideOf, 152, i, Lookup(i));
    case 20 => RowIs20(); AgreeAt(Row20, DivideOf, 160, i, Lookup(i));
    case 21 => RowIs21(); AgreeAt(Row21, DivideOf, 168, i, Lookup(i));
    case 22 => RowIs22(); AgreeAt(Row22, DivideOf, 176, i, Lookup(i));
    case 23 => RowIs23(); AgreeAt(Row23, DivideOf, 184, i, Lookup(i));
    case 24 => RowIs24(); AgreeAt(Row24, DivideOf, 192, i, Lookup(i));
    case 25 => RowIs25(); AgreeAt(Row25, DivideOf, 200, i, Lookup(i));
    case 26 => RowIs26(); AgreeAt(Row26, DivideOf, 208, i, Lookup(i));
    case 27 => RowIs27(); AgreeAt(Row27, DivideOf, 216, i, Lookup(i));
    case 28 => RowIs28(); AgreeAt(Row28, DivideOf, 224, i, Lookup(i));
    case 29 => RowIs29(); AgreeAt(Row29, DivideOf, 232, i, Lookup(i));
    case 30 => RowIs30(); AgreeAt(Row30, DivideOf, 240, i, Lookup(i));
    case 31 => RowIs31(); AgreeAt(Row31, DivideOf, 248, i, Lookup(i));
    case _ =>
  }

  // ---------------------------------------------------------------- eight steps at once

  function Half(h: bv32): bv32 {
    h >> 1
  }

  function Mix(a: bv32, b: bv32): bv32 {
    a ^ b
  }

  predicate Even(h: bv32) {
    h & 1 == 0
  }

  lemma OddUpper(lo: bv32, hi: bv32)
    requires lo & 1 == 1 && hi & 1 == 0
    ensures Bit(lo ^ hi) == Bit(lo) ^ (hi >> 1)
  {
  }

  lemma EvenUpper(lo: bv32, hi: bv32)
    requires lo & 1 == 0 && hi & 1 == 0
    ensures Bit(lo ^ hi) == Bit(lo) ^ (hi >> 1)
  {
  }

  lemma Parity(lo: bv32)
    ensures lo & 1 == 0 || lo & 1 == 1
  {
  }

  /** A step leaves what is mixed in above the lowest bit alone, but for a shift. */
  lemma StepUpper(lo: bv32, hi: bv32)
    requires hi & 1 == 0
    ensures Bit(lo ^ hi) == Bit(lo) ^ (hi >> 1)
  {
    Parity(lo);
    if lo & 1 == 1 {
      OddUpper(lo, hi);
    } else {
      EvenUpper(lo, hi);
    }
  }

  function Iter<T>(f: T -> T, n: nat, x: T): T {
    if n == 0 then x else Iter(f, n - 1, f(x))
  }

  ghost predicate Splits<T(!new)>(f: T -> T, half: T -> T, mix: (T, T) -> T, even: T -> bool) {
    forall a, b :: even(b) ==> f(mix(a, b)) == mix(f(a), half(b))
  }

  ghost predicate Halves<T>(half: T -> T, even: T -> bool, hs: seq<T>) {
    forall i :: 0 <= i < |hs| - 1 ==> even(hs[i]) && hs[i + 1] == half(hs[i])
  }

  /** Halving `h` eight times makes `top`, with even numbers before. */
  ghost predicate Halved<T(!new)>(half: T -> T, even: T -> bool, h: T, top: T) {
    exists hs: seq<T> :: |hs| == 9 && Halves(half, even, hs) && hs[0] == h && hs[8] == top
  }

  /** The same for any number of steps, whatever words, steps and halves are. */
  lemma {:induction false} IterSplits<T(!new)>(f: T -> T, half: T -> T, mix: (T, T) -> T, even: T -> bool, a: T, hs: seq<T>)
    requires Splits(f, half, mix, even) && hs != [] && Halves(half, even, hs)
    ensures Iter(f, |hs| - 1, mix(a, hs[0])) == mix(Iter(f, |hs| - 1, a), hs[|hs| - 1])
  {
    if |hs| > 1 {
      IterSplits(f, half, mix, even, f(a), hs[1..]);
    }
  }

  lemma Eight<T>(f: T -> T, x: T)
    ensures Iter(f, 8, x) == f(f(f(f(f(f(f(f(x))))))))
  {
    assert Iter(f, 8, x) == Iter(f, 6, f(f(x)));
    assert Iter(f, 6, f(f(x))) == Iter(f, 4, f(f(f(f(x)))));
    assert Iter(f, 4, f(f(f(f(x))))) == Iter(f, 2, f(f(f(f(f(f(x)))))));
  }

  lemma EightSplit<T(!new)>(f: T -> T, half: T -> T, mix: (T, T) -> T, even: T -> bool, x: T, lo: T, h: T, top: T)
    requires Splits(f, half, mix, even) && Halved(half, even, h, top) && x == mix(lo, h)
    ensures f(f(f(f(f(f(f(f(x)))))))) == mix(f(f(f(f(f(f(f(f(lo)))))))), top)
  {
    var hs :| |hs| == 9 && Halves(half, even, hs) && hs[0] == h && hs[8] == top;
    IterSplits(f, half, mix, even, lo, hs);
    Eight(f, x);
    Eight(f, lo);
  }

  lemma NineHalves<T>(half: T -> T, even: T -> bool, h0: T, h1: T, h2: T, h3: T, h4: T, h5: T, h6: T, h7: T, h8: T)
    requires even(h0) && even(h1) && even(h2) && even(h3) && even(h4) && even(h5) && even(h6) && even(h7)
    requires half(h0) == h1 && half(h1) == h2 && half(h2) == h3 && half(h3) == h4
    requires half(h4) == h5 && half(h5) == h6 && half(h6) == h7 && half(h7) == h8
    ensures Halves(half, even, [h0, h1, h2, h3, h4, h5, h6, h7, h8])
  {
  }

  lemma EightHalves<T(!new)>(half: T -> T, even: T -> bool, h0: T, h1: T, h2: T, h3: T, h4: T, h5: T, h6: T, h7: T, h8: T)
    requires even(h0) && even(h1) && even(h2) && even(h3) && even(h4) && even(h5) && even(h6) && even(h7)
    requires half(h0) == h1 && half(h1) == h2 && half(h2) == h3 && half(h3) == h4
    requires half(h4) == h5 && half(h5) == h6 && half(h6) == h7 && half(h7) == h8
    ensures Halved(half, even, h0, h8)
  {
    NineHalves(half, even, h0, h1, h2, h3, h4, h5, h6, h7, h8);
    var hs := [h0, h1, h2, h3, h4, h5, h6, h7, h8];
    assert hs[0] == h0 && hs[8] == h8;
  }

  lemma FirstShifts(h: bv32)
    ensures Half(h) == h >> 1 && Half(h >> 1) == h >> 2 && Half(h >> 2) == h >> 3 && Half(h >> 3) == h >> 4
  {
  }

  lemma LastShifts(h: bv32)
    ensures Half(h >> 4) == h >> 5 && Half(h >> 5) == h >> 6 && Half(h >> 6) == h >> 7 && Half(h >> 7) == h >> 8
  {
  }

  lemma EvenShifts(h: bv32)
    requires h & 0xff == 0
    ensures Even(h) && Even(h >> 1) && Even(h >> 2) && Even(h >> 3) && Even(h >> 4) && Even(h >> 5) && Even(h >> 6) && Even(h >> 7)
  {
  }

  lemma UpperHalved(h: bv32, top: bv32)
    requires h & 0xff == 0 && top == h >> 8
    ensures Halved(Half, Even, h, top)
  {
    FirstShifts(h);
    LastShifts(h);
    EvenShifts(h);
    EightHalves(Half, Even, h, h >> 1, h >> 2, h >> 3, h >> 4, h >> 5, h >> 6, h >> 7, top);
  }

  lemma BitSplits()
    ensures Splits(Bit, Half, Mix, Even)
  {
    forall a, b | Even(b) ensures Bit(Mix(a, b)) == Mix(Bit(a), Half(b)) {
      StepUpper(a, b);
    }
  }

  lemma Parts(x: bv32)
    ensures var h := x & 0xffff_ff00; Mix(x & 0xff, h) == x && h & 0xff == 0 && h >> 8 == x >> 8
  {
  }

  /** Eight steps are those of the low byte, and the upper bytes shifted down. */
  lemma DivideByByte(x: bv32)
    ensures Divide(x) == Mix(Divide(x & 0xff), x >> 8)
  {
    Parts(x);
    UpperHalved(x & 0xffff_ff00, x >> 8);
    BitSplits();
    EightSplit(Bit, Half, Mix, Even, x, x & 0xff, x & 0xffff_ff00, x >> 8);
  }

  // ---------------------------------------------------------------- the loop over the bytes

  lemma LowByte(c: bv32, b: bv8)
    ensures (c ^ (b as bv32)) & 0xff < 256 && (c ^ (b as bv32)) >> 8 == c >> 8
  {
  }

  lemma IndexOf(v: bv32)
    requires v < 256
    ensures (v as int) < 256 && (v as int) as bv32 == v
  {
  }

  /** One look into the table does eight steps. */
  lemma LookupDivides(c: bv32, b: bv8)
    ensures var x := c ^ (b as bv32);
      && ((x & 0xff) as int) < 256
      && Mix(Lookup((x & 0xff) as int), c >> 8) == Divide(x)
  {
    var x := c ^ (b as bv32);
    LowByte(c, b);
    IndexOf(x & 0xff);
    LookupIs((x & 0xff) as int);
    DivideByByte(x);
  }

  /** The register after one more byte. */
  method Next(c: bv32, b: bv8) returns (r: bv32)
    ensures r == Divide(c ^ (b as bv32))
  {
    LookupDivides(c, b);
    r := Mix(Lookup(((c ^ (b as bv32)) & 0xff) as int), c >> 8);
  }

  lemma RegisterNext(data: seq<bv8>, i: nat, c: bv32, r: bv32)
    requires i < |data| && c == Register(data, i) && r == Divide(c ^ (data[i] as bv32))
    ensures r == Register(data, i + 1)
  {
  }

  /** The table-driven loop over the bytes. */
  method Divided(data: seq<bv8>) returns (crc: bv32)
    ensures crc == Register(data, |data|)
  {
    crc := 0xffff_ffff;
    for i := 0 to |data|
      invariant crc == Register(data, i)
    {
      var r := Next(crc, data[i]);
      RegisterNext(data, i, crc, r);
      crc := r;
    }
  }

  /** The table-driven CRC-32 is the bitwise one. */
  method Compute(data: seq<bv8>) returns (crc: bv32)
    ensures crc == Crc(data)
  {
    crc := Divided(data);
    crc := !crc;
  }

  lemma FirstFive(digits: seq<bv8>)
    requires |digits| >= 5 && digits[..5] == [0x31, 0x32, 0x33, 0x34, 0x35]
    ensures Register(digits, 5) == 0x340a_c5e3
  {
    assert forall i :: 0 <= i < 5 ==> digits[i] == digits[..5][i];
    assert Register(digits, 1) == 0x7c23_1048;
    assert Register(digits, 2) == 0xb0ac_bb32;
    assert Register(digits, 3) == 0x77b7_9c2d;
    assert Register(digits, 4) == 0x641c_1f5c;
  }

  /** The check value of this CRC: what the digits 1 to 9 give. */
  lemma CheckValue(digits: seq<bv8>)
    requires digits == [0x31, 0x32, 0x33, 0x34, 0x35, 0x36, 0x37, 0x38, 0x39]
    ensures Crc(digits) == 0xcbf4_3926
  {
    FirstFive(digits);
    assert Register(digits, 6) == 0xf68d_2c9e;
    assert Register(digits, 7) == 0xaffc_9660;
    assert Register(digits, 8) == 0x651f_2550;
    assert Register(digits, 9) == 0x340b_c6d9;
  }
}
