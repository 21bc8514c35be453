/** The byte arithmetic of AES that both implementations share: the S-box and its inverse, doubling
    and multiplication in GF(2^8), and the mixing of a column. */
module AesBytes {
  import opened ByteXor

  // ---- The S-boxes, by rows of sixteen ----------------------------------------------------

  function FSbRow0(l: bv8): bv8 {
    if l == 0x0 then 0x63 else if l == 0x1 then 0x7C else if l == 0x2 then 0x77 else if l == 0x3 then 0x7B else
    if l == 0x4 then 0xF2 else if l == 0x5 then 0x6B else if l == 0x6 then 0x6F else if l == 0x7 then 0xC5 else
    if l == 0x8 then 0x30 else if l == 0x9 then 0x01 else if l == 0xA then 0x67 else if l == 0xB then 0x2B else
    if l == 0xC then 0xFE else if l == 0xD then 0xD7 else if l == 0xE then 0xAB else 0x76
  }

  function FSbRow1(l: bv8): bv8 {
    if l == 0x0 then 0xCA else if l == 0x1 then 0x82 else if l == 0x2 then 0xC9 else if l == 0x3 then 0x7D else
    if l == 0x4 then 0xFA else if l == 0x5 then 0x59 else if l == 0x6 then 0x47 else if l == 0x7 then 0xF0 else
    if l == 0x8 then 0xAD else if l == 0x9 then 0xD4 else if l == 0xA then 0xA2 else if l == 0xB then 0xAF else
    if l == 0xC then 0x9C else if l == 0xD then 0xA4 else if l == 0xE then 0x72 else 0xC0
  }

  function FSbRow2(l: bv8): bv8 {
    if l == 0x0 then 0xB7 else if l == 0x1 then 0xFD else if l == 0x2 then 0x93 else if l == 0x3 then 0x26 else
    if l == 0x4 then 0x36 else if l == 0x5 then 0x3F else if l == 0x6 then 0xF7 else if l == 0x7 then 0xCC else
    if l == 0x8 then 0x34 else if l == 0x9 then 0xA5 else if l == 0xA then 0xE5 else if l == 0xB then 0xF1 else
    if l == 0xC then 0x71 else if l == 0xD then 0xD8 else if l == 0xE then 0x31 else 0x15
  }

  function FSbRow3(l: bv8): bv8 {
    if l == 0x0 then 0x04 else if l == 0x1 then 0xC7 else if l == 0x2 then 0x23 else if l == 0x3 then 0xC3 else
    if l == 0x4 then 0x18 else if l == 0x5 then 0x96 else if l == 0x6 then 0x05 else if l == 0x7 then 0x9A else
    if l == 0x8 then 0x07 else if l == 0x9 then 0x12 else if l == 0xA then 0x80 else if l == 0xB then 0xE2 else
    if l == 0xC then 0xEB else if l == 0xD then 0x27 else if l == 0xE then 0xB2 else 0x75
  }

  function FSbRow4(l: bv8): bv8 {
    if l == 0x0 then 0x09 else if l == 0x1 then 0x83 else if l == 0x2 then 0x2C else if l == 0x3 then 0x1A else
    if l == 0x4 then 0x1B else if l == 0x5 then 0x6E else if l == 0x6 then 0x5A else if l == 0x7 then 0xA0 else
    if l == 0x8 then 0x52 else if l == 0x9 then 0x3B else if l == 0xA then 0xD6 else if l == 0xB then 0xB3 else
    if l == 0xC then 0x29 else if l == 0xD then 0xE3 else if l == 0xE then 0x2F else 0x84
  }

  function FSbRow5(l: bv8): bv8 {
    if l == 0x0 then 0x53 else if l == 0x1 then 0xD1 else if l == 0x2 then 0x00 else if l == 0x3 then 0xED else
    if l == 0x4 then 0x20 else if l == 0x5 then 0xFC else if l == 0x6 then 0xB1 else if l == 0x7 then 0x5B else
    if l == 0x8 then 0x6A else if l == 0x9 then 0xCB else if l == 0xA then 0xBE else if l == 0xB then 0x39 else
    if l == 0xC then 0x4A else if l == 0xD then 0x4C else if l == 0xE then 0x58 else 0xCF
  }

  function FSbRow6(l: bv8): bv8 {
    if l == 0x0 then 0xD0 else if l == 0x1 then 0xEF else if l == 0x2 then 0xAA else if l == 0x3 then 0xFB else
    if l == 0x4 then 0x43 else if l == 0x5 then 0x4D else if l == 0x6 then 0x33 else if l == 0x7 then 0x85 else
    if l == 0x8 then 0x45 else if l == 0x9 then 0xF9 else if l == 0xA then 0x02 else if l == 0xB then 0x7F else
    if l == 0xC then 0x50 else if l == 0xD then 0x3C else if l == 0xE then 0x9F else 0xA8
  }

  function FSbRow7(l: bv8): bv8 {
    if l == 0x0 then 0x51 else if l == 0x1 then 0xA3 else if l == 0x2 then 0x40 else if l == 0x3 then 0x8F else
    if l == 0x4 then 0x92 else if l == 0x5 then 0x9D else if l == 0x6 then 0x38 else if l == 0x7 then 0xF5 else
    if l == 0x8 then 0xBC else if l == 0x9 then 0xB6 else if l == 0xA then 0xDA else if l == 0xB then 0x21 else
    if l == 0xC then 0x10 else if l == 0xD then 0xFF else if l == 0xE then 0xF3 else 0xD2
  }

  function FSbRow8(l: bv8): bv8 {
    if l == 0x0 then 0xCD else if l == 0x1 then 0x0C else if l == 0x2 then 0x13 else if l == 0x3 then 0xEC else
    if l == 0x4 then 0x5F else if l == 0x5 then 0x97 else if l == 0x6 then 0x44 else if l == 0x7 then 0x17 else
    if l == 0x8 then 0xC4 else if l == 0x9 then 0xA7 else if l == 0xA then 0x7E else if l == 0xB then 0x3D else
    if l == 0xC then 0x64 else if l == 0xD then 0x5D else if l == 0xE then 0x19 else 0x73
  }

  function FSbRow9(l: bv8): bv8 {
    if l == 0x0 then 0x60 else if l == 0x1 then 0x81 else if l == 0x2 then 0x4F else if l == 0x3 then 0xDC else
    if l == 0x4 then 0x22 else if l == 0x5 then 0x2A else if l == 0x6 then 0x90 else if l == 0x7 then 0x88 else
    if l == 0x8 then 0x46 else if l == 0x9 then 0xEE else if l == 0xA then 0xB8 else if l == 0xB then 0x14 else
    if l == 0xC then 0xDE else if l == 0xD then 0x5E else if l == 0xE then 0x0B else 0xDB
  }

  function FSbRowA(l: bv8): bv8 {
    if l == 0x0 then 0xE0 else if l == 0x1 then 0x32 else if l == 0x2 then 0x3A else if l == 0x3 then 0x0A else
    if l == 0x4 then 0x49 else if l == 0x5 then 0x06 else if l == 0x6 then 0x24 else if l == 0x7 then 0x5C else
    if l == 0x8 then 0xC2 else if l == 0x9 then 0xD3 else if l == 0xA then 0xAC else if l == 0xB then 0x62 else
    if l == 0xC then 0x91 else if l == 0xD then 0x95 else if l == 0xE then 0xE4 else 0x79
  }

  function FSbRowB(l: bv8): bv8 {
    if l == 0x0 then 0xE7 else if l == 0x1 then 0xC8 else if l == 0x2 then 0x37 else if l == 0x3 then 0x6D else
    if l == 0x4 then 0x8D else if l == 0x5 then 0xD5 else if l == 0x6 then 0x4E else if l == 0x7 then 0xA9 else
    if l == 0x8 then 0x6C else if l == 0x9 then 0x56 else if l == 0xA then 0xF4 else if l == 0xB then 0xEA else
    if l == 0xC then 0x65 else if l == 0xD then 0x7A else if l == 0xE then 0xAE else 0x08
  }

  function FSbRowC(l: bv8): bv8 {
    if l == 0x0 then 0xBA else if l == 0x1 then 0x78 else if l == 0x2 then 0x25 else if l == 0x3 then 0x2E else
    if l == 0x4 then 0x1C else if l == 0x5 then 0xA6 else if l == 0x6 then 0xB4 else if l == 0x7 then 0xC6 else
    if l == 0x8 then 0xE8 else if l == 0x9 then 0xDD else if l == 0xA then 0x74 else if l == 0xB then 0x1F else
    if l == 0xC then 0x4B else if l == 0xD then 0xBD else if l == 0xE then 0x8B else 0x8A
  }

  function FSbRowD(l: bv8): bv8 {
    if l == 0x0 then 0x70 else if l == 0x1 then 0x3E else if l == 0x2 then 0xB5 else if l == 0x3 then 0x66 else
    if l == 0x4 then 0x48 else if l == 0x5 then 0x03 else if l == 0x6 then 0xF6 else if l == 0x7 then 0x0E else
    if l == 0x8 then 0x61 else if l == 0x9 then 0x35 else if l == 0xA then 0x57 else if l == 0xB then 0xB9 else
    if l == 0xC then 0x86 else if l == 0xD then 0xC1 else if l == 0xE then 0x1D else 0x9E
  }

  function FSbRowE(l: bv8): bv8 {
    if l == 0x0 then 0xE1 else if l == 0x1 then 0xF8 else if l == 0x2 then 0x98 else if l == 0x3 then 0x11 else
    if l == 0x4 then 0x69 else if l == 0x5 then 0xD9 else if l == 0x6 then 0x8E else if l == 0x7 then 0x94 else
    if l == 0x8 then 0x9B else if l == 0x9 then 0x1E else if l == 0xA then 0x87 else if l == 0xB then 0xE9 else
    if l == 0xC then 0xCE else if l == 0xD then 0x55 else if l == 0xE then 0x28 else 0xDF
  }

  function FSbRowF(l: bv8): bv8 {
    if l == 0x0 then 0x8C else if l == 0x1 then 0xA1 else if l == 0x2 then 0x89 else if l == 0x3 then 0x0D else
    if l == 0x4 then 0xBF else if l == 0x5 then 0xE6 else if l == 0x6 then 0x42 else if l == 0x7 then 0x68 else
    if l == 0x8 then 0x41 else if l == 0x9 then 0x99 else if l == 0xA then 0x2D else if l == 0xB then 0x0F else
    if l == 0xC then 0xB0 else if l == 0xD then 0x54 else if l == 0xE then 0xBB else 0x16
  }

  function FSb(x: bv8): bv8 {
    var h, l := x >> 4, x & 0x0F;
    if h == 0x0 then FSbRow0(l) else if h == 0x1 then FSbRow1(l) else if h == 0x2 then FSbRow2(l) else
    if h == 0x3 then FSbRow3(l) else if h == 0x4 then FSbRow4(l) else if h == 0x5 then FSbRow5(l) else
    if h == 0x6 then FSbRow6(l) else if h == 0x7 then FSbRow7(l) else if h == 0x8 then FSbRow8(l) else
    if h == 0x9 then FSbRow9(l) else if h == 0xA then FSbRowA(l) else if h == 0xB then FSbRowB(l) else
    if h == 0xC then FSbRowC(l) else if h == 0xD then FSbRowD(l) else if h == 0xE then FSbRowE(l) else
    FSbRowF(l)
  }

  function RSbRow0(l: bv8): bv8 {
    if l == 0x0 then 0x52 else if l == 0x1 then 0x09 else if l == 0x2 then 0x6A else if l == 0x3 then 0xD5 else
    if l == 0x4 then 0x30 else if l == 0x5 then 0x36 else if l == 0x6 then 0xA5 else if l == 0x7 then 0x38 else
    if l == 0x8 then 0xBF else if l == 0x9 then 0x40 else if l == 0xA then 0xA3 else if l == 0xB then 0x9E else
    if l == 0xC then 0x81 else if l == 0xD then 0xF3 else if l == 0xE then 0xD7 else 0xFB
  }

  function RSbRow1(l: bv8): bv8 {
    if l == 0x0 then 0x7C else if l == 0x1 then 0xE3 else if l == 0x2 then 0x39 else if l == 0x3 then 0x82 else
    if l == 0x4 then 0x9B else if l == 0x5 then 0x2F else if l == 0x6 then 0xFF else if l == 0x7 then 0x87 else
    if l == 0x8 then 0x34 else if l == 0x9 then 0x8E else if l == 0xA then 0x43 else if l == 0xB then 0x44 else
    if l == 0xC then 0xC4 else if l == 0xD then 0xDE else if l == 0xE then 0xE9 else 0xCB
  }

  function RSbRow2(l: bv8): bv8 {
    if l == 0x0 then 0x54 else if l == 0x1 then 0x7B else if l == 0x2 then 0x94 else if l == 0x3 then 0x32 else
    if l == 0x4 then 0xA6 else if l == 0x5 then 0xC2 else if l == 0x6 then 0x23 else if l == 0x7 then 0x3D else
    if l == 0x8 then 0xEE else if l == 0x9 then 0x4C else if l == 0xA then 0x95 else if l == 0xB then 0x0B else
    if l == 0xC then 0x42 else if l == 0xD then 0xFA else if l == 0xE then 0xC3 else 0x4E
  }

  function RSbRow3(l: bv8): bv8 {
    if l == 0x0 then 0x08 else if l == 0x1 then 0x2E else if l == 0x2 then 0xA1 else if l == 0x3 then 0x66 else
    if l == 0x4 then 0x28 else if l == 0x5 then 0xD9 else if l == 0x6 then 0x24 else if l == 0x7 then 0xB2 else
    if l == 0x8 then 0x76 else if l == 0x9 then 0x5B else if l == 0xA then 0xA2 else if l == 0xB then 0x49 else
    if l == 0xC then 0x6D else if l == 0xD then 0x8B else if l == 0xE then 0xD1 else 0x25
  }

  function RSbRow4(l: bv8): bv8 {
    if l == 0x0 then 0x72 else if l == 0x1 then 0xF8 else if l == 0x2 then 0xF6 else if l == 0x3 then 0x64 else
    if l == 0x4 then 0x86 else if l == 0x5 then 0x68 else if l == 0x6 then 0x98 else if l == 0x7 then 0x16 else
    if l == 0x8 then 0xD4 else if l == 0x9 then 0xA4 else if l == 0xA then 0x5C else if l == 0xB then 0xCC else
    if l == 0xC then 0x5D else if l == 0xD then 0x65 else if l == 0xE then 0xB6 else 0x92
  }

  function RSbRow5(l: bv8): bv8 {
    if l == 0x0 then 0x6C else if l == 0x1 then 0x70 else if l == 0x2 then 0x48 else if l == 0x3 then 0x50 else
    if l == 0x4 then 0xFD else if l == 0x5 then 0xED else if l == 0x6 then 0xB9 else if l == 0x7 then 0xDA else
    if l == 0x8 then 0x5E else if l == 0x9 then 0x15 else if l == 0xA then 0x46 else if l == 0xB then 0x57 else
    if l == 0xC then 0xA7 else if l == 0xD then 0x8D else if l == 0xE then 0x9D else 0x84
  }

  function RSbRow6(l: bv8): bv8 {
    if l == 0x0 then 0x90 else if l == 0x1 then 0xD8 else if l == 0x2 then 0xAB else if l == 0x3 then 0x00 else
    if l == 0x4 then 0x8C else if l == 0x5 then 0xBC else if l == 0x6 then 0xD3 else if l == 0x7 then 0x0A else
    if l == 0x8 then 0xF7 else if l == 0x9 then 0xE4 else if l == 0xA then 0x58 else if l == 0xB then 0x05 else
    if l == 0xC then 0xB8 else if l == 0xD then 0xB3 else if l == 0xE then 0x45 else 0x06
  }

  function RSbRow7(l: bv8): bv8 {
    if l == 0x0 then 0xD0 else if l == 0x1 then 0x2C else if l == 0x2 then 0x1E else if l == 0x3 then 0x8F else
    if l == 0x4 then 0xCA else if l == 0x5 then 0x3F else if l == 0x6 then 0x0F else if l == 0x7 then 0x02 else
    if l == 0x8 then 0xC1 else if l == 0x9 then 0xAF else if l == 0xA then 0xBD else if l == 0xB then 0x03 else
    if l == 0xC then 0x01 else if l == 0xD then 0x13 else if l == 0xE then 0x8A else 0x6B
  }

  function RSbRow8(l: bv8): bv8 {
    if l == 0x0 then 0x3A else if l == 0x1 then 0x91 else if l == 0x2 then 0x11 else if l == 0x3 then 0x41 else
    if l == 0x4 then 0x4F else if l == 0x5 then 0x67 else if l == 0x6 then 0xDC else if l == 0x7 then 0xEA else
    if l == 0x8 then 0x97 else if l == 0x9 then 0xF2 else if l == 0xA then 0xCF else if l == 0xB then 0xCE else
    if l == 0xC then 0xF0 else if l == 0xD then 0xB4 else if l == 0xE then 0xE6 else 0x73
  }

  function RSbRow9(l: bv8): bv8 {
    if l == 0x0 then 0x96 else if l == 0x1 then 0xAC else if l == 0x2 then 0x74 else if l == 0x3 then 0x22 else
    if l == 0x4 then 0xE7 else if l == 0x5 then 0xAD else if l == 0x6 then 0x35 else if l == 0x7 then 0x85 else
    if l == 0x8 then 0xE2 else if l == 0x9 then 0xF9 else if l == 0xA then 0x37 else if l == 0xB then 0xE8 else
    if l == 0xC then 0x1C else if l == 0xD then 0x75 else if l == 0xE then 0xDF else 0x6E
  }

  function RSbRowA(l: bv8): bv8 {
    if l == 0x0 then 0x47 else if l == 0x1 then 0xF1 else if l == 0x2 then 0x1A else if l == 0x3 then 0x71 else
    if l == 0x4 then 0x1D else if l == 0x5 then 0x29 else if l == 0x6 then 0xC5 else if l == 0x7 then 0x89 else
    if l == 0x8 then 0x6F else if l == 0x9 then 0xB7 else if l == 0xA then 0x62 else if l == 0xB then 0x0E else
    if l == 0xC then 0xAA else if l == 0xD then 0x18 else if l == 0xE then 0xBE else 0x1B
  }

  function RSbRowB(l: bv8): bv8 {
    if l == 0x0 then 0xFC else if l == 0x1 then 0x56 else if l == 0x2 then 0x3E else if l == 0x3 then 0x4B else
    if l == 0x4 then 0xC6 else if l == 0x5 then 0xD2 else if l == 0x6 then 0x79 else if l == 0x7 then 0x20 else
    if l == 0x8 then 0x9A else if l == 0x9 then 0xDB else if l == 0xA then 0xC0 else if l == 0xB then 0xFE else
    if l == 0xC then 0x78 else if l == 0xD then 0xCD else if l == 0xE then 0x5A else 0xF4
  }

  function RSbRowC(l: bv8): bv8 {
    if l == 0x0 then 0x1F else if l == 0x1 then 0xDD else if l == 0x2 then 0xA8 else if l == 0x3 then 0x33 else
    if l == 0x4 then 0x88 else if l == 0x5 then 0x07 else if l == 0x6 then 0xC7 else if l == 0x7 then 0x31 else
    if l == 0x8 then 0xB1 else if l == 0x9 then 0x12 else if l == 0xA then 0x10 else if l == 0xB then 0x59 else
    if l == 0xC then 0x27 else if l == 0xD then 0x80 else if l == 0xE then 0xEC else 0x5F
  }

  function RSbRowD(l: bv8): bv8 {
    if l == 0x0 then 0x60 else if l == 0x1 then 0x51 else if l == 0x2 then 0x7F else if l == 0x3 then 0xA9 else
    if l == 0x4 then 0x19 else if l == 0x5 then 0xB5 else if l == 0x6 then 0x4A else if l == 0x7 then 0x0D else
    if l == 0x8 then 0x2D else if l == 0x9 then 0xE5 else if l == 0xA then 0x7A else if l == 0xB then 0x9F else
    if l == 0xC then 0x93 else if l == 0xD then 0xC9 else if l == 0xE then 0x9C else 0xEF
  }

  function RSbRowE(l: bv8): bv8 {
    if l == 0x0 then 0xA0 else if l == 0x1 then 0xE0 else if l == 0x2 then 0x3B else if l == 0x3 then 0x4D else
    if l == 0x4 then 0xAE else if l == 0x5 then 0x2A else if l == 0x6 then 0xF5 else if l == 0x7 then 0xB0 else
    if l == 0x8 then 0xC8 else if l == 0x9 then 0xEB else if l == 0xA then 0xBB else if l == 0xB then 0x3C else
    if l == 0xC then 0x83 else if l == 0xD then 0x53 else if l == 0xE then 0x99 else 0x61
  }

  function RSbRowF(l: bv8): bv8 {
    if l == 0x0 then 0x17 else if l == 0x1 then 0x2B else if l == 0x2 then 0x04 else if l == 0x3 then 0x7E else
    if l == 0x4 then 0xBA else if l == 0x5 then 0x77 else if l == 0x6 then 0xD6 else if l == 0x7 then 0x26 else
    if l == 0x8 then 0xE1 else if l == 0x9 then 0x69 else if l == 0xA then 0x14 else if l == 0xB then 0x63 else
    if l == 0xC then 0x55 else if l == 0xD then 0x21 else if l == 0xE then 0x0C else 0x7D
  }

  function RSb(x: bv8): bv8 {
    var h, l := x >> 4, x & 0x0F;
    if h == 0x0 then RSbRow0(l) else if h == 0x1 then RSbRow1(l) else if h == 0x2 then RSbRow2(l) else
    if h == 0x3 then RSbRow3(l) else if h == 0x4 then RSbRow4(l) else if h == 0x5 then RSbRow5(l) else
    if h == 0x6 then RSbRow6(l) else if h == 0x7 then RSbRow7(l) else if h == 0x8 then RSbRow8(l) else
    if h == 0x9 then RSbRow9(l) else if h == 0xA then RSbRowA(l) else if h == 0xB then RSbRowB(l) else
    if h == 0xC then RSbRowC(l) else if h == 0xD then RSbRowD(l) else if h == 0xE then RSbRowE(l) else
    RSbRowF(l)
  }

  /** Each S-box undoes the other. */
  lemma BoxesInverse(x: bv8)
    ensures RSb(FSb(x)) == x
  {
  }

  // ---- GF(2^8) ----------------------------------------------------------------------------

  /** Exclusive or of four and of five bytes. */
  function Xor4(a: bv8, b: bv8, c: bv8, d: bv8): bv8 { Xor(Xor(a, b), Xor(c, d)) }

  function Xor5(a: bv8, b: bv8, c: bv8, d: bv8, e: bv8): bv8 { Xor(Xor4(a, b, c, d), e) }

  lemma Xor4Linear(a: bv8, b: bv8, c: bv8, d: bv8, e: bv8, f: bv8, g: bv8, h: bv8)
    ensures Xor4(Xor(a, e), Xor(b, f), Xor(c, g), Xor(d, h)) == Xor(Xor4(a, b, c, d), Xor4(e, f, g, h))
  {
    hide Xor;
    Swap(a, e, b, f);
    Swap(c, g, d, h);
    Swap(Xor(a, b), Xor(e, f), Xor(c, d), Xor(g, h));
  }

  lemma Xor5Linear(a: bv8, b: bv8, c: bv8, d: bv8, e: bv8, a': bv8, b': bv8, c': bv8, d': bv8, e': bv8)
    ensures Xor5(Xor(a, a'), Xor(b, b'), Xor(c, c'), Xor(d, d'), Xor(e, e'))
         == Xor(Xor5(a, b, c, d, e), Xor5(a', b', c', d', e'))
  {
    hide Xor, Xor4;
    Xor4Linear(a, b, c, d, a', b', c', d');
    Swap(Xor4(a, b, c, d), Xor4(a', b', c', d'), e, e');
  }

  /** What xtime adds when the top bit falls out. */
  function Reduction(x: bv8): bv8 {
    if x & 0x80 != 0 then 0x1B else 0
  }

  /** xtime of tiny-AES, XTIME of PolarSSL: doubling. */
  function Xtime(x: bv8): bv8 {
    Xor(x << 1, Reduction(x))
  }

  /** ( y >> i & 1 ) * x */
  function Gate(y: bv8, mask: bv8, x: bv8): bv8 {
    if y & mask != 0 then x else 0
  }

  /** Multiply of tiny-AES, for factors below 32. */
  function Multiply(x: bv8, y: bv8): bv8 {
    var x2 := Xtime(x);
    var x4 := Xtime(x2);
    var x8 := Xtime(x4);
    Xor5(Gate(y, 1, x), Gate(y, 2, x2), Gate(y, 4, x4), Gate(y, 8, x8), Gate(y, 16, Xtime(x8)))
  }

  lemma XtimeLinear(x: bv8, y: bv8)
    ensures Xtime(Xor(x, y)) == Xor(Xtime(x), Xtime(y))
  {
    hide Reduction, Xor;
    ShiftLinear(x, y);
    ReductionLinear(x, y);
    Swap(x << 1, y << 1, Reduction(x), Reduction(y));
  }

  lemma ShiftLinear(x: bv8, y: bv8)
    ensures Xor(x, y) << 1 == Xor(x << 1, y << 1)
  {
  }

  lemma ReductionLinear(x: bv8, y: bv8)
    ensures Reduction(Xor(x, y)) == Xor(Reduction(x), Reduction(y))
  {
  }

  lemma GateLinear(y: bv8, mask: bv8, a: bv8, b: bv8)
    ensures Gate(y, mask, Xor(a, b)) == Xor(Gate(y, mask, a), Gate(y, mask, b))
  {
  }

  lemma MultiplyLinear(a: bv8, b: bv8, k: bv8)
    ensures Multiply(Xor(a, b), k) == Xor(Multiply(a, k), Multiply(b, k))
  {
    hide Xtime, Gate, Xor, Xor5;
    var a2, b2 := Xtime(a), Xtime(b);
    var a4, b4 := Xtime(a2), Xtime(b2);
    var a8, b8 := Xtime(a4), Xtime(b4);
    XtimeLinear(a, b);
    XtimeLinear(a2, b2);
    XtimeLinear(a4, b4);
    XtimeLinear(a8, b8);
    GateLinear(k, 1, a, b);
    GateLinear(k, 2, a2, b2);
    GateLinear(k, 4, a4, b4);
    GateLinear(k, 8, a8, b8);
    GateLinear(k, 16, Xtime(a8), Xtime(b8));
    Xor5Linear(Gate(k, 1, a), Gate(k, 2, a2), Gate(k, 4, a4), Gate(k, 8, a8), Gate(k, 16, Xtime(a8)),
               Gate(k, 1, b), Gate(k, 2, b2), Gate(k, 4, b4), Gate(k, 8, b8), Gate(k, 16, Xtime(b8)));
  }

  // ---- Columns ----------------------------------------------------------------------------

  /** The four bytes of a column, or of a word. */
  datatype Quad = Quad(b0: bv8, b1: bv8, b2: bv8, b3: bv8)

  function XorQ(a: Quad, b: Quad): Quad {
    Quad(Xor(a.b0, b.b0), Xor(a.b1, b.b1), Xor(a.b2, b.b2), Xor(a.b3, b.b3))
  }

  function SubQ(a: Quad): Quad {
    Quad(FSb(a.b0), FSb(a.b1), FSb(a.b2), FSb(a.b3))
  }

  function InvSubQ(a: Quad): Quad {
    Quad(RSb(a.b0), RSb(a.b1), RSb(a.b2), RSb(a.b3))
  }

  /** The product of a matrix row and a column over GF(2^8). */
  function Row(a: Quad, k0: bv8, k1: bv8, k2: bv8, k3: bv8): bv8 {
    Xor4(Multiply(a.b0, k0), Multiply(a.b1, k1), Multiply(a.b2, k2), Multiply(a.b3, k3))
  }

  /** The matrix of section 5.1.3 of FIPS 197. */
  function MixQ(a: Quad): Quad {
    Quad(Row(a, 2, 3, 1, 1), Row(a, 1, 2, 3, 1), Row(a, 1, 1, 2, 3), Row(a, 3, 1, 1, 2))
  }

  /** The inverse matrix of section 5.3.3. */
  function InvMixQ(a: Quad): Quad {
    Quad(Row(a, 0x0E, 0x0B, 0x0D, 0x09), Row(a, 0x09, 0x0E, 0x0B, 0x0D),
         Row(a, 0x0D, 0x09, 0x0E, 0x0B), Row(a, 0x0B, 0x0D, 0x09, 0x0E))
  }

  lemma RowLinear(a: Quad, b: Quad, k0: bv8, k1: bv8, k2: bv8, k3: bv8)
    ensures Row(XorQ(a, b), k0, k1, k2, k3) == Xor(Row(a, k0, k1, k2, k3), Row(b, k0, k1, k2, k3))
  {
    hide Multiply, Xor, Xor4;
    MultiplyLinear(a.b0, b.b0, k0);
    MultiplyLinear(a.b1, b.b1, k1);
    MultiplyLinear(a.b2, b.b2, k2);
    MultiplyLinear(a.b3, b.b3, k3);
    Xor4Linear(Multiply(a.b0, k0), Multiply(a.b1, k1), Multiply(a.b2, k2), Multiply(a.b3, k3),
               Multiply(b.b0, k0), Multiply(b.b1, k1), Multiply(b.b2, k2), Multiply(b.b3, k3));
  }

  lemma MixLinear(a: Quad, b: Quad)
    ensures MixQ(XorQ(a, b)) == XorQ(MixQ(a), MixQ(b))
  {
    hide Row, Xor;
    RowLinear(a, b, 2, 3, 1, 1);
    RowLinear(a, b, 1, 2, 3, 1);
    RowLinear(a, b, 1, 1, 2, 3);
    RowLinear(a, b, 3, 1, 1, 2);
  }

  lemma InvMixLinear(a: Quad, b: Quad)
    ensures InvMixQ(XorQ(a, b)) == XorQ(InvMixQ(a), InvMixQ(b))
  {
    hide Row, Xor;
    RowLinear(a, b, 0x0E, 0x0B, 0x0D, 0x09);
    RowLinear(a, b, 0x09, 0x0E, 0x0B, 0x0D);
    RowLinear(a, b, 0x0D, 0x09, 0x0E, 0x0B);
    RowLinear(a, b, 0x0B, 0x0D, 0x09, 0x0E);
  }

  // The inverse matrix undoes the matrix: for the first byte, by turning the column for each
  // byte, and by linearity for all.

  lemma Column(x: bv8)
    ensures MixQ(Quad(x, 0, 0, 0)) == Quad(Multiply(x, 2), x, x, Multiply(x, 3))
  {
  }

  /** The factors of both matrices, with the doublings of x. */
  lemma Factors(x: bv8)
    ensures var x2 := Xtime(x); var x4 := Xtime(x2); var x8 := Xtime(x4);
      && Multiply(x, 0x02) == x2 && Multiply(x, 0x03) == Xor(x, x2)
      && Multiply(x, 0x09) == Xor(x, x8) && Multiply(x, 0x0B) == Xor(Xor(x, x2), x8)
      && Multiply(x, 0x0D) == Xor(x, Xor(x4, x8)) && Multiply(x, 0x0E) == Xor(x2, Xor(x4, x8))
  {
    hide Xor, Xtime;
    var x2 := Xtime(x);
    var x4 := Xtime(x2);
    var x8 := Xtime(x4);
    XorSelf(0);
    XorSelf(x);
    XorSelf(x2);
    XorSelf(x8);
    XorSelf(Xor(x, x2));
    XorSelf(Xor(x, x8));
    XorSelf(Xor(x4, x8));
    XorSelf(Xor(Xor(x, x2), x8));
    XorSelf(Xor(x, Xor(x4, x8)));
    XorSelf(Xor(x2, Xor(x4, x8)));
  }

  /** The rows of the inverse matrix, times the column (2 x, x, x, 3 x). */
  lemma InvRows(x: bv8)
    ensures var q := Quad(Multiply(x, 2), x, x, Multiply(x, 3));
      && Row(q, 0x0E, 0x0B, 0x0D, 0x09) == x && Row(q, 0x09, 0x0E, 0x0B, 0x0D) == 0
      && Row(q, 0x0D, 0x09, 0x0E, 0x0B) == 0 && Row(q, 0x0B, 0x0D, 0x09, 0x0E) == 0
  {
    hide Xtime, Multiply, Xor, Xor4;
    var x2 := Xtime(x);
    var x4 := Xtime(x2);
    var x8 := Xtime(x4);
    Factors(x);
    Factors(x2);
    MultiplyLinear(x, x2, 0x09);
    MultiplyLinear(x, x2, 0x0B);
    MultiplyLinear(x, x2, 0x0D);
    MultiplyLinear(x, x2, 0x0E);
    FirstCancels(x, x2, x4, x8, Xtime(x8));
    SecondCancels(x, x2, x4, x8, Xtime(x8));
    ThirdCancels(x, x2, x4, x8, Xtime(x8));
    FourthCancels(x, x2, x4, x8, Xtime(x8));
  }

  lemma FirstCancels(x: bv8, x2: bv8, x4: bv8, x8: bv8, x16: bv8)
    ensures Xor4(Xor(x4, Xor(x8, x16)), Xor(Xor(x, x2), x8), Xor(x, Xor(x4, x8)), Xor(Xor(x, x8), Xor(x2, x16))) == x
  {
    hide Xor;
    var p := Xor(x4, x16);
    Slide(x4, x8, x16);
    XorComm(Xor(x, x2), x8);
    Join(p, x8, Xor(x, x2));
    XorAssoc(x, x4, x8);
    XorComm(x, x8);
    XorAssoc(x8, x, Xor(x2, x16));
    Join(Xor(x, x4), x8, Xor(x, Xor(x2, x16)));
    XorComm(x, x4);
    Join(x4, x, Xor(x2, x16));
    Slide(x4, x2, x16);
    XorComm(p, Xor(x, x2));
    Join(Xor(x, x2), p, x2);
    XorTwice(x, x2);
  }

  lemma SecondCancels(x: bv8, x2: bv8, x4: bv8, x8: bv8, x16: bv8)
    ensures Xor4(Xor(x2, x16), Xor(x2, Xor(x4, x8)), Xor(Xor(x, x2), x8),
                 Xor(Xor(x, Xor(x4, x8)), Xor(x2, Xor(x8, x16)))) == 0
  {
    hide Xor;
    var y := Xor(x4, x8);
    XorComm(x2, x16);
    Join(x16, x2, y);
    Swap(x, y, x2, Xor(x8, x16));
    Join(x4, x8, x16);
    XorComm(Xor(x, x2), x8);
    Join(x8, Xor(x, x2), Xor(x4, x16));
    Slide(x8, x4, x16);
    Slide(x16, x4, x8);
    XorComm(x8, x16);
    XorSelf(Xor(x16, y));
  }

  lemma ThirdCancels(x: bv8, x2: bv8, x4: bv8, x8: bv8, x16: bv8)
    ensures Xor4(Xor(x2, Xor(x8, x16)), Xor(x, x8), Xor(x2, Xor(x4, x8)),
                 Xor(Xor(Xor(x, x2), x8), Xor(Xor(x2, x4), x16))) == 0
  {
    hide Xor;
    var c, d, e := Xor(x2, Xor(x4, x8)), Xor(Xor(x, x2), x8), Xor(Xor(x2, x4), x16);
    Slide(x2, x8, x16);
    XorComm(x, x8);
    Join(Xor(x2, x16), x8, x);
    XorAssoc(c, d, e);
    XorAssoc(x2, x4, x8);
    XorComm(Xor(x, x2), x8);
    Join(Xor(x2, x4), x8, Xor(x, x2));
    XorComm(x2, x4);
    XorComm(x, x2);
    Join(x4, x2, x);
    XorAssoc(x4, x2, x16);
    XorComm(x4, x);
    Join(x, x4, Xor(x2, x16));
    XorComm(x, Xor(x2, x16));
    XorSelf(Xor(Xor(x2, x16), x));
  }

  lemma FourthCancels(x: bv8, x2: bv8, x4: bv8, x8: bv8, x16: bv8)
    ensures Xor4(Xor(Xor(x2, x4), x16), Xor(x, Xor(x4, x8)), Xor(x, x8),
                 Xor(Xor(x2, Xor(x4, x8)), Xor(x4, Xor(x8, x16)))) == 0
  {
    hide Xor;
    var y := Xor(x4, x8);
    XorAssoc(x4, x8, x16);
    Join(x2, y, x16);
    XorAssoc(x2, x4, x16);
    Slide(x2, x4, x16);
    XorComm(x, y);
    XorAssoc(x4, x8, x);
    XorComm(x8, x);
    Join(Xor(x2, x16), x4, Xor(x, x8));
    XorComm(Xor(x2, x16), Xor(x, x8));
    XorSelf(Xor(Xor(x, x8), Xor(x2, x16)));
  }

  lemma InvMixByte(x: bv8)
    ensures InvMixQ(MixQ(Quad(x, 0, 0, 0))) == Quad(x, 0, 0, 0)
  {
    hide Row, Multiply, MixQ;
    Column(x);
    InvRows(x);
  }

  function Turn(a: Quad): Quad {
    Quad(a.b3, a.b0, a.b1, a.b2)
  }

  lemma TurnRow(a: Quad, k0: bv8, k1: bv8, k2: bv8, k3: bv8)
    ensures Row(Turn(a), k0, k1, k2, k3) == Row(a, k1, k2, k3, k0)
  {
    hide Multiply, Xor;
    var p, q, r, s := Multiply(a.b3, k0), Multiply(a.b0, k1), Multiply(a.b1, k2), Multiply(a.b2, k3);
    XorAssoc(p, q, Xor(r, s));
    XorAssoc(q, r, s);
    XorComm(p, Xor(q, Xor(r, s)));
    XorAssoc(Xor(q, r), s, p);
  }

  lemma TurnMix(a: Quad)
    ensures MixQ(Turn(a)) == Turn(MixQ(a)) && InvMixQ(Turn(a)) == Turn(InvMixQ(a))
  {
    hide Row;
    TurnRow(a, 2, 3, 1, 1);
    TurnRow(a, 1, 2, 3, 1);
    TurnRow(a, 1, 1, 2, 3);
    TurnRow(a, 3, 1, 1, 2);
    TurnRow(a, 0x0E, 0x0B, 0x0D, 0x09);
    TurnRow(a, 0x09, 0x0E, 0x0B, 0x0D);
    TurnRow(a, 0x0D, 0x09, 0x0E, 0x0B);
    TurnRow(a, 0x0B, 0x0D, 0x09, 0x0E);
  }

  lemma InvMixTurned(a: Quad)
    requires InvMixQ(MixQ(a)) == a
    ensures InvMixQ(MixQ(Turn(a))) == Turn(a)
  {
    hide MixQ, InvMixQ;
    TurnMix(a);
    TurnMix(MixQ(a));
  }

  lemma ByteByByte(a: Quad)
    ensures a == XorQ(XorQ(Quad(a.b0, 0, 0, 0), Quad(0, a.b1, 0, 0)), XorQ(Quad(0, 0, a.b2, 0), Quad(0, 0, 0, a.b3)))
  {
    hide Xor;
    XorSelf(0);
    XorSelf(a.b0);
    XorSelf(a.b1);
    XorSelf(a.b2);
    XorSelf(a.b3);
  }

  lemma InvMixSum(a: Quad, b: Quad)
    requires InvMixQ(MixQ(a)) == a && InvMixQ(MixQ(b)) == b
    ensures InvMixQ(MixQ(XorQ(a, b))) == XorQ(a, b)
  {
    hide MixQ, InvMixQ, XorQ;
    MixLinear(a, b);
    InvMixLinear(MixQ(a), MixQ(b));
  }

  lemma InvMixMix(a: Quad)
    ensures InvMixQ(MixQ(a)) == a
  {
    hide MixQ, InvMixQ, XorQ;
    var p, q, r, s := Quad(a.b0, 0, 0, 0), Quad(0, a.b1, 0, 0), Quad(0, 0, a.b2, 0), Quad(0, 0, 0, a.b3);
    InvMixByte(a.b0);
    InvMixByte(a.b1);
    InvMixByte(a.b2);
    InvMixByte(a.b3);
    InvMixTurned(Quad(a.b1, 0, 0, 0));
    InvMixTurned(Quad(a.b2, 0, 0, 0));
    InvMixTurned(Quad(0, a.b2, 0, 0));
    InvMixTurned(Quad(a.b3, 0, 0, 0));
    InvMixTurned(Quad(0, a.b3, 0, 0));
    InvMixTurned(Quad(0, 0, a.b3, 0));
    InvMixSum(p, q);
    InvMixSum(r, s);
    InvMixSum(XorQ(p, q), XorQ(r, s));
    ByteByByte(a);
  }
}
