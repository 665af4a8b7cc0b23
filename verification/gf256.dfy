/** The GF(2^8) tables of the CCSDS Reed-Solomon code in the conventional
    (non-dual) basis (spacelab_decoder/reed_solomon.py): the antilog table
    `alpha_to`, the log table `index_of` with 255 (A0) standing for the log
    of zero, and the generator polynomial in index form. */
module GF256 {
  import opened Bits

  /** Field size minus one: logs live in 0..254. */
  const NN: int := 255
  /** Index-form code for the zero element. */
  const A0: int := 255

  /** Entry c of a 16-entry row, by binary search on c. */
  function Pick16(c: int, v0: byte, v1: byte, v2: byte, v3: byte, v4: byte, v5: byte, v6: byte, v7: byte, v8: byte, v9: byte, v10: byte, v11: byte, v12: byte, v13: byte, v14: byte, v15: byte): byte
  {
    if c < 8 then if c < 4 then if c < 2 then if c < 1 then v0 else v1 else if c < 3 then v2 else v3 else if c < 6 then if c < 5 then v4 else v5 else if c < 7 then v6 else v7 else if c < 12 then if c < 10 then if c < 9 then v8 else v9 else if c < 11 then v10 else v11 else if c < 14 then if c < 13 then v12 else v13 else if c < 15 then v14 else v15
  }

  /** `alpha_to[i]`: alpha^i in polynomial form, and 0 for i = 255. */
  function AlphaTo(i: byte): byte
  {
    if i < 128 then
      if i < 64 then
        if i < 32 then
          if i < 16 then
            Pick16(i - 0, 0x01, 0x02, 0x04, 0x08, 0x10, 0x20, 0x40, 0x80, 0x87, 0x89, 0x95, 0xAD, 0xDD, 0x3D, 0x7A, 0xF4)
          else
            Pick16(i - 16, 0x6F, 0xDE, 0x3B, 0x76, 0xEC, 0x5F, 0xBE, 0xFB, 0x71, 0xE2, 0x43, 0x86, 0x8B, 0x91, 0xA5, 0xCD)
        else
          if i < 48 then
            Pick16(i - 32, 0x1D, 0x3A, 0x74, 0xE8, 0x57, 0xAE, 0xDB, 0x31, 0x62, 0xC4, 0x0F, 0x1E, 0x3C, 0x78, 0xF0, 0x67)
          else
            Pick16(i - 48, 0xCE, 0x1B, 0x36, 0x6C, 0xD8, 0x37, 0x6E, 0xDC, 0x3F, 0x7E, 0xFC, 0x7F, 0xFE, 0x7B, 0xF6, 0x6B)
      else
        if i < 96 then
          if i < 80 then
            Pick16(i - 64, 0xD6, 0x2B, 0x56, 0xAC, 0xDF, 0x39, 0x72, 0xE4, 0x4F, 0x9E, 0xBB, 0xF1, 0x65, 0xCA, 0x13, 0x26)
          else
            Pick16(i - 80, 0x4C, 0x98, 0xB7, 0xE9, 0x55, 0xAA, 0xD3, 0x21, 0x42, 0x84, 0x8F, 0x99, 0xB5, 0xED, 0x5D, 0xBA)
        else
          if i < 112 then
            Pick16(i - 96, 0xF3, 0x61, 0xC2, 0x03, 0x06, 0x0C, 0x18, 0x30, 0x60, 0xC0, 0x07, 0x0E, 0x1C, 0x38, 0x70, 0xE0)
          else
            Pick16(i - 112, 0x47, 0x8E, 0x9B, 0xB1, 0xE5, 0x4D, 0x9A, 0xB3, 0xE1, 0x45, 0x8A, 0x93, 0xA1, 0xC5, 0x0D, 0x1A)
    else
      if i < 192 then
        if i < 160 then
          if i < 144 then
            Pick16(i - 128, 0x34, 0x68, 0xD0, 0x27, 0x4E, 0x9C, 0xBF, 0xF9, 0x75, 0xEA, 0x53, 0xA6, 0xCB, 0x11, 0x22, 0x44)
          else
            Pick16(i - 144, 0x88, 0x97, 0xA9, 0xD5, 0x2D, 0x5A, 0xB4, 0xEF, 0x59, 0xB2, 0xE3, 0x41, 0x82, 0x83, 0x81, 0x85)
        else
          if i < 176 then
            Pick16(i - 160, 0x8D, 0x9D, 0xBD, 0xFD, 0x7D, 0xFA, 0x73, 0xE6, 0x4B, 0x96, 0xAB, 0xD1, 0x25, 0x4A, 0x94, 0xAF)
          else
            Pick16(i - 176, 0xD9, 0x35, 0x6A, 0xD4, 0x2F, 0x5E, 0xBC, 0xFF, 0x79, 0xF2, 0x63, 0xC6, 0x0B, 0x16, 0x2C, 0x58)
      else
        if i < 224 then
          if i < 208 then
            Pick16(i - 192, 0xB0, 0xE7, 0x49, 0x92, 0xA3, 0xC1, 0x05, 0x0A, 0x14, 0x28, 0x50, 0xA0, 0xC7, 0x09, 0x12, 0x24)
          else
            Pick16(i - 208, 0x48, 0x90, 0xA7, 0xC9, 0x15, 0x2A, 0x54, 0xA8, 0xD7, 0x29, 0x52, 0xA4, 0xCF, 0x19, 0x32, 0x64)
        else
          if i < 240 then
            Pick16(i - 224, 0xC8, 0x17, 0x2E, 0x5C, 0xB8, 0xF7, 0x69, 0xD2, 0x23, 0x46, 0x8C, 0x9F, 0xB9, 0xF5, 0x6D, 0xDA)
          else
            Pick16(i - 240, 0x33, 0x66, 0xCC, 0x1F, 0x3E, 0x7C, 0xF8, 0x77, 0xEE, 0x5B, 0xB6, 0xEB, 0x51, 0xA2, 0xC3, 0x00)
  }

  /** `index_of[x]`: the log of x, and 255 (A0) for x = 0. */
  function IndexOf(x: byte): byte
  {
    if x < 128 then
      if x < 64 then
        if x < 32 then
          if x < 16 then
            Pick16(x - 0, 0xFF, 0x00, 0x01, 0x63, 0x02, 0xC6, 0x64, 0x6A, 0x03, 0xCD, 0xC7, 0xBC, 0x65, 0x7E, 0x6B, 0x2A)
          else
            Pick16(x - 16, 0x04, 0x8D, 0xCE, 0x4E, 0xC8, 0xD4, 0xBD, 0xE1, 0x66, 0xDD, 0x7F, 0x31, 0x6C, 0x20, 0x2B, 0xF3)
        else
          if x < 48 then
            Pick16(x - 32, 0x05, 0x57, 0x8E, 0xE8, 0xCF, 0xAC, 0x4F, 0x83, 0xC9, 0xD9, 0xD5, 0x41, 0xBE, 0x94, 0xE2, 0xB4)
          else
            Pick16(x - 48, 0x67, 0x27, 0xDE, 0xF0, 0x80, 0xB1, 0x32, 0x35, 0x6D, 0x45, 0x21, 0x12, 0x2C, 0x0D, 0xF4, 0x38)
      else
        if x < 96 then
          if x < 80 then
            Pick16(x - 64, 0x06, 0x9B, 0x58, 0x1A, 0x8F, 0x79, 0xE9, 0x70, 0xD0, 0xC2, 0xAD, 0xA8, 0x50, 0x75, 0x84, 0x48)
          else
            Pick16(x - 80, 0xCA, 0xFC, 0xDA, 0x8A, 0xD6, 0x54, 0x42, 0x24, 0xBF, 0x98, 0x95, 0xF9, 0xE3, 0x5E, 0xB5, 0x15)
        else
          if x < 112 then
            Pick16(x - 96, 0x68, 0x61, 0x28, 0xBA, 0xDF, 0x4C, 0xF1, 0x2F, 0x81, 0xE6, 0xB2, 0x3F, 0x33, 0xEE, 0x36, 0x10)
          else
            Pick16(x - 112, 0x6E, 0x18, 0x46, 0xA6, 0x22, 0x88, 0x13, 0xF7, 0x2D, 0xB8, 0x0E, 0x3D, 0xF5, 0xA4, 0x39, 0x3B)
    else
      if x < 192 then
        if x < 160 then
          if x < 144 then
            Pick16(x - 128, 0x07, 0x9E, 0x9C, 0x9D, 0x59, 0x9F, 0x1B, 0x08, 0x90, 0x09, 0x7A, 0x1C, 0xEA, 0xA0, 0x71, 0x5A)
          else
            Pick16(x - 144, 0xD1, 0x1D, 0xC3, 0x7B, 0xAE, 0x0A, 0xA9, 0x91, 0x51, 0x5B, 0x76, 0x72, 0x85, 0xA1, 0x49, 0xEB)
        else
          if x < 176 then
            Pick16(x - 160, 0xCB, 0x7C, 0xFD, 0xC4, 0xDB, 0x1E, 0x8B, 0xD2, 0xD7, 0x92, 0x55, 0xAA, 0x43, 0x0B, 0x25, 0xAF)
          else
            Pick16(x - 176, 0xC0, 0x73, 0x99, 0x77, 0x96, 0x5C, 0xFA, 0x52, 0xE4, 0xEC, 0x5F, 0x4A, 0xB6, 0xA2, 0x16, 0x86)
      else
        if x < 224 then
          if x < 208 then
            Pick16(x - 192, 0x69, 0xC5, 0x62, 0xFE, 0x29, 0x7D, 0xBB, 0xCC, 0xE0, 0xD3, 0x4D, 0x8C, 0xF2, 0x1F, 0x30, 0xDC)
          else
            Pick16(x - 208, 0x82, 0xAB, 0xE7, 0x56, 0xB3, 0x93, 0x40, 0xD8, 0x34, 0xB0, 0xEF, 0x26, 0x37, 0x0C, 0x11, 0x44)
        else
          if x < 240 then
            Pick16(x - 224, 0x6F, 0x78, 0x19, 0x9A, 0x47, 0x74, 0xA7, 0xC1, 0x23, 0x53, 0x89, 0xFB, 0x14, 0x5D, 0xF8, 0x97)
          else
            Pick16(x - 240, 0x2E, 0x4B, 0xB9, 0x60, 0x0F, 0xED, 0x3E, 0xE5, 0xF6, 0x87, 0xA5, 0x17, 0x3A, 0xA3, 0x3C, 0xB7)
  }

  /** `_ccsds_genpoly`: the 33 coefficients of the generator polynomial,
      in index form. */
  const GenPoly: seq<byte> := [0x00, 0xF9, 0x3B, 0x42, 0x04, 0x2B, 0x7E, 0xFB, 0x61, 0x1E, 0x03, 0xD5, 0x32, 0x42, 0xAA, 0x05, 0x18, 0x05, 0xAA, 0x42, 0x32, 0xD5, 0x03, 0x1E, 0x61, 0xFB, 0x7E, 0x2B, 0x04, 0x42, 0x3B, 0xF9, 0x00]

  /** `_mod255`. */
  function Mod255(x: int): (r: int)
    ensures 0 <= r < 255
    ensures (x - r) % 255 == 0
  {
    x % 255
  }

  /** Multiplication in GF(2^8) on the polynomial form of its operands:
      the logs add modulo NN, and zero absorbs. */
  function GfMul(a: byte, b: byte): byte
  {
    if a == 0 || b == 0 then 0 else AlphaTo(Mod255(IndexOf(a) + IndexOf(b)))
  }

  /** The table lookups checked sixteen entries at a time. */
  lemma TablesInverse0()
    ensures forall i: byte | 0 <= i < 16 :: IndexOf(AlphaTo(i)) == i && AlphaTo(IndexOf(i)) == i
  {
  }

  lemma TablesInverse1()
    ensures forall i: byte | 16 <= i < 32 :: IndexOf(AlphaTo(i)) == i && AlphaTo(IndexOf(i)) == i
  {
  }

  lemma TablesInverse2()
    ensures forall i: byte | 32 <= i < 48 :: IndexOf(AlphaTo(i)) == i && AlphaTo(IndexOf(i)) == i
  {
  }

  lemma TablesInverse3()
    ensures forall i: byte | 48 <= i < 64 :: IndexOf(AlphaTo(i)) == i && AlphaTo(IndexOf(i)) == i
  {
  }

  lemma TablesInverse4()
    ensures forall i: byte | 64 <= i < 80 :: IndexOf(AlphaTo(i)) == i && AlphaTo(IndexOf(i)) == i
  {
  }

  lemma TablesInverse5()
    ensures forall i: byte | 80 <= i < 96 :: IndexOf(AlphaTo(i)) == i && AlphaTo(IndexOf(i)) == i
  {
  }

  lemma TablesInverse6()
    ensures forall i: byte | 96 <= i < 112 :: IndexOf(AlphaTo(i)) == i && AlphaTo(IndexOf(i)) == i
  {
  }

  lemma TablesInverse7()
    ensures forall i: byte | 112 <= i < 128 :: IndexOf(AlphaTo(i)) == i && AlphaTo(IndexOf(i)) == i
  {
  }

  lemma TablesInverse8()
    ensures forall i: byte | 128 <= i < 144 :: IndexOf(AlphaTo(i)) == i && AlphaTo(IndexOf(i)) == i
  {
  }

  lemma TablesInverse9()
    ensures forall i: byte | 144 <= i < 160 :: IndexOf(AlphaTo(i)) == i && AlphaTo(IndexOf(i)) == i
  {
  }

  lemma TablesInverse10()
    ensures forall i: byte | 160 <= i < 176 :: IndexOf(AlphaTo(i)) == i && AlphaTo(IndexOf(i)) == i
  {
  }

  lemma TablesInverse11()
    ensures forall i: byte | 176 <= i < 192 :: IndexOf(AlphaTo(i)) == i && AlphaTo(IndexOf(i)) == i
  {
  }

  lemma TablesInverse12()
    ensures forall i: byte | 192 <= i < 208 :: IndexOf(AlphaTo(i)) == i && AlphaTo(IndexOf(i)) == i
  {
  }

  lemma TablesInverse13()
    ensures forall i: byte | 208 <= i < 224 :: IndexOf(AlphaTo(i)) == i && AlphaTo(IndexOf(i)) == i
  {
  }

  lemma TablesInverse14()
    ensures forall i: byte | 224 <= i < 240 :: IndexOf(AlphaTo(i)) == i && AlphaTo(IndexOf(i)) == i
  {
  }

  lemma TablesInverse15()
    ensures forall i: byte | 240 <= i < 256 :: IndexOf(AlphaTo(i)) == i && AlphaTo(IndexOf(i)) == i
  {
  }

  /** The two tables are mutual inverses on 0..255, with 255 paired with 0. */
  lemma TablesInverse()
    ensures forall i: byte :: IndexOf(AlphaTo(i)) == i
    ensures forall x: byte :: AlphaTo(IndexOf(x)) == x
  {
    TablesInverse0(); TablesInverse1(); TablesInverse2(); TablesInverse3(); TablesInverse4(); TablesInverse5(); TablesInverse6(); TablesInverse7();
    TablesInverse8(); TablesInverse9(); TablesInverse10(); TablesInverse11(); TablesInverse12(); TablesInverse13(); TablesInverse14(); TablesInverse15();
  }

  /** A0 is the only index that maps to the zero element. */
  lemma ZeroIsA0(i: byte)
    ensures AlphaTo(i) == 0 <==> i == A0
    ensures IndexOf(i) == A0 <==> i == 0
  {
    TablesInverse();
  }

  /** The generator polynomial has 33 coefficients and is palindromic. */
  lemma GenPolyPalindrome()
    ensures |GenPoly| == 33
    ensures forall i | 0 <= i <= 32 :: GenPoly[i] == GenPoly[32 - i]
  {
  }
}
