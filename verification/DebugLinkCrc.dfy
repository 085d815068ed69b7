/**
 The CRC of the .gnu_debuglink section. The table-driven loop is proved equal to the
 bit-by-bit reflected CRC-32 of section 8 of RFC 1952, independent of how the file is cut
 into buffers, and able to tell apart any two files that differ in a burst of up to 32 bits.
 */
module DebugLinkCrc {

  type Word = bv32
  type Byte = bv8

  // Named, so that proofs about whole runs need not look inside them.

  function Xor(x: Word, y: Word): Word { x ^ y }
  function Not(x: Word): Word { !x }
  function Double(x: Word): Word { x << 1 }
  function Half(x: Word): Word { x >> 1 }
  predicate Odd(x: Word) { x & 1 == 1 }
  function LowByte(x: Word): Word { x & 0xff }
  function HighBytes(x: Word): Word { x >> 8 }
  function Widen(b: Byte): Word { b as Word }

  // ----- Reference definition: one bit at a time -----

  function Bit(c: Word): Word {
    if c & 1 == 1 then 0xEDB8_8320 ^ (c >> 1) else c >> 1
  }

  function EightBits(c: Word): Word {
    Bit(Bit(Bit(Bit(Bit(Bit(Bit(Bit(c))))))))
  }

  function FeedByte(c: Word, b: Byte): Word {
    EightBits(Xor(c, Widen(b)))
  }

  function Feed(c: Word, bytes: seq<Byte>): Word
    decreases |bytes|
  {
    if bytes == [] then c else Feed(FeedByte(c, bytes[0]), bytes[1..])
  }

  function Crc(init: Word, bytes: seq<Byte>): Word {
    Not(Feed(Not(init), bytes))
  }

  // ----- The table of the original, in rows of 16 -----

  function Row0(i: Word): Word {
    if i == 0x00 then 0x00000000 else if i == 0x01 then 0x77073096 else if i == 0x02 then 0xee0e612c else if i == 0x03 then 0x990951ba else
    if i == 0x04 then 0x076dc419 else if i == 0x05 then 0x706af48f else if i == 0x06 then 0xe963a535 else if i == 0x07 then 0x9e6495a3 else
    if i == 0x08 then 0x0edb8832 else if i == 0x09 then 0x79dcb8a4 else if i == 0x0a then 0xe0d5e91e else if i == 0x0b then 0x97d2d988 else
    if i == 0x0c then 0x09b64c2b else if i == 0x0d then 0x7eb17cbd else if i == 0x0e then 0xe7b82d07 else 0x90bf1d91
  }

  function Row1(i: Word): Word {
    if i == 0x10 then 0x1db71064 else if i == 0x11 then 0x6ab020f2 else if i == 0x12 then 0xf3b97148 else if i == 0x13 then 0x84be41de else
    if i == 0x14 then 0x1adad47d else if i == 0x15 then 0x6ddde4eb else if i == 0x16 then 0xf4d4b551 else if i == 0x17 then 0x83d385c7 else
    if i == 0x18 then 0x136c9856 else if i == 0x19 then 0x646ba8c0 else if i == 0x1a then 0xfd62f97a else if i == 0x1b then 0x8a65c9ec else
    if i == 0x1c then 0x14015c4f else if i == 0x1d then 0x63066cd9 else if i == 0x1e then 0xfa0f3d63 else 0x8d080df5
  }

  function Row2(i: Word): Word {
    if i == 0x20 then 0x3b6e20c8 else if i == 0x21 then 0x4c69105e else if i == 0x22 then 0xd56041e4 else if i == 0x23 then 0xa2677172 else
    if i == 0x24 then 0x3c03e4d1 else if i == 0x25 then 0x4b04d447 else if i == 0x26 then 0xd20d85fd else if i == 0x27 then 0xa50ab56b else
    if i == 0x28 then 0x35b5a8fa else if i == 0x29 then 0x42b2986c else if i == 0x2a then 0xdbbbc9d6 else if i == 0x2b then 0xacbcf940 else
    if i == 0x2c then 0x32d86ce3 else if i == 0x2d then 0x45df5c75 else if i == 0x2e then 0xdcd60dcf else 0xabd13d59
  }

  function Row3(i: Word): Word {
    if i == 0x30 then 0x26d930ac else if i == 0x31 then 0x51de003a else if i == 0x32 then 0xc8d75180 else if i == 0x33 then 0xbfd06116 else
    if i == 0x34 then 0x21b4f4b5 else if i == 0x35 then 0x56b3c423 else if i == 0x36 then 0xcfba9599 else if i == 0x37 then 0xb8bda50f else
    if i == 0x38 then 0x2802b89e else if i == 0x39 then 0x5f058808 else if i == 0x3a then 0xc60cd9b2 else if i == 0x3b then 0xb10be924 else
    if i == 0x3c then 0x2f6f7c87 else if i == 0x3d then 0x58684c11 else if i == 0x3e then 0xc1611dab else 0xb6662d3d
  }

  function Row4(i: Word): Word {
    if i == 0x40 then 0x76dc4190 else if i == 0x41 then 0x01db7106 else if i == 0x42 then 0x98d220bc else if i == 0x43 then 0xefd5102a else
    if i == 0x44 then 0x71b18589 else if i == 0x45 then 0x06b6b51f else if i == 0x46 then 0x9fbfe4a5 else if i == 0x47 then 0xe8b8d433 else
    if i == 0x48 then 0x7807c9a2 else if i == 0x49 then 0x0f00f934 else if i == 0x4a then 0x9609a88e else if i == 0x4b then 0xe10e9818 else
    if i == 0x4c then 0x7f6a0dbb else if i == 0x4d then 0x086d3d2d else if i == 0x4e then 0x91646c97 else 0xe6635c01
  }

  function Row5(i: Word): Word {
    if i == 0x50 then 0x6b6b51f4 else if i == 0x51 then 0x1c6c6162 else if i == 0x52 then 0x856530d8 else if i == 0x53 then 0xf262004e else
    if i == 0x54 then 0x6c0695ed else if i == 0x55 then 0x1b01a57b else if i == 0x56 then 0x8208f4c1 else if i == 0x57 then 0xf50fc457 else
    if i == 0x58 then 0x65b0d9c6 else if i == 0x59 then 0x12b7e950 else if i == 0x5a then 0x8bbeb8ea else if i == 0x5b then 0xfcb9887c else
    if i == 0x5c then 0x62dd1ddf else if i == 0x5d then 0x15da2d49 else if i == 0x5e then 0x8cd37cf3 else 0xfbd44c65
  }

  function Row6(i: Word): Word {
    if i == 0x60 then 0x4db26158 else if i == 0x61 then 0x3ab551ce else if i == 0x62 then 0xa3bc0074 else if i == 0x63 then 0xd4bb30e2 else
    if i == 0x64 then 0x4adfa541 else if i == 0x65 then 0x3dd895d7 else if i == 0x66 then 0xa4d1c46d else if i == 0x67 then 0xd3d6f4fb else
    if i == 0x68 then 0x4369e96a else if i == 0x69 then 0x346ed9fc else if i == 0x6a then 0xad678846 else if i == 0x6b then 0xda60b8d0 else
    if i == 0x6c then 0x44042d73 else if i == 0x6d then 0x33031de5 else if i == 0x6e then 0xaa0a4c5f else 0xdd0d7cc9
  }

  function Row7(i: Word): Word {
    if i == 0x70 then 0x5005713c else if i == 0x71 then 0x270241aa else if i == 0x72 then 0xbe0b1010 else if i == 0x73 then 0xc90c2086 else
    if i == 0x74 then 0x5768b525 else if i == 0x75 then 0x206f85b3 else if i == 0x76 then 0xb966d409 else if i == 0x77 then 0xce61e49f else
    if i == 0x78 then 0x5edef90e else if i == 0x79 then 0x29d9c998 else if i == 0x7a then 0xb0d09822 else if i == 0x7b then 0xc7d7a8b4 else
    if i == 0x7c then 0x59b33d17 else if i == 0x7d then 0x2eb40d81 else if i == 0x7e then 0xb7bd5c3b else 0xc0ba6cad
  }

  function Row8(i: Word): Word {
    if i == 0x80 then 0xedb88320 else if i == 0x81 then 0x9abfb3b6 else if i == 0x82 then 0x03b6e20c else if i == 0x83 then 0x74b1d29a else
    if i == 0x84 then 0xead54739 else if i == 0x85 then 0x9dd277af else if i == 0x86 then 0x04db2615 else if i == 0x87 then 0x73dc1683 else
    if i == 0x88 then 0xe3630b12 else if i == 0x89 then 0x94643b84 else if i == 0x8a then 0x0d6d6a3e else if i == 0x8b then 0x7a6a5aa8 else
    if i == 0x8c then 0xe40ecf0b else if i == 0x8d then 0x9309ff9d else if i == 0x8e then 0x0a00ae27 else 0x7d079eb1
  }

  function Row9(i: Word): Word {
    if i == 0x90 then 0xf00f9344 else if i == 0x91 then 0x8708a3d2 else if i == 0x92 then 0x1e01f268 else if i == 0x93 then 0x6906c2fe else
    if i == 0x94 then 0xf762575d else if i == 0x95 then 0x806567cb else if i == 0x96 then 0x196c3671 else if i == 0x97 then 0x6e6b06e7 else
    if i == 0x98 then 0xfed41b76 else if i == 0x99 then 0x89d32be0 else if i == 0x9a then 0x10da7a5a else if i == 0x9b then 0x67dd4acc else
    if i == 0x9c then 0xf9b9df6f else if i == 0x9d then 0x8ebeeff9 else if i == 0x9e then 0x17b7be43 else 0x60b08ed5
  }

  function RowA(i: Word): Word {
    if i == 0xa0 then 0xd6d6a3e8 else if i == 0xa1 then 0xa1d1937e else if i == 0xa2 then 0x38d8c2c4 else if i == 0xa3 then 0x4fdff252 else
    if i == 0xa4 then 0xd1bb67f1 else if i == 0xa5 then 0xa6bc5767 else if i == 0xa6 then 0x3fb506dd else if i == 0xa7 then 0x48b2364b else
    if i == 0xa8 then 0xd80d2bda else if i == 0xa9 then 0xaf0a1b4c else if i == 0xaa then 0x36034af6 else if i == 0xab then 0x41047a60 else
    if i == 0xac then 0xdf60efc3 else if i == 0xad then 0xa867df55 else if i == 0xae then 0x316e8eef else 0x4669be79
  }

  function RowB(i: Word): Word {
    if i == 0xb0 then 0xcb61b38c else if i == 0xb1 then 0xbc66831a else if i == 0xb2 then 0x256fd2a0 else if i == 0xb3 then 0x5268e236 else
    if i == 0xb4 then 0xcc0c7795 else if i == 0xb5 then 0xbb0b4703 else if i == 0xb6 then 0x220216b9 else if i == 0xb7 then 0x5505262f else
    if i == 0xb8 then 0xc5ba3bbe else if i == 0xb9 then 0xb2bd0b28 else if i == 0xba then 0x2bb45a92 else if i == 0xbb then 0x5cb36a04 else
    if i == 0xbc then 0xc2d7ffa7 else if i == 0xbd then 0xb5d0cf31 else if i == 0xbe then 0x2cd99e8b else 0x5bdeae1d
  }

  function RowC(i: Word): Word {
    if i == 0xc0 then 0x9b64c2b0 else if i == 0xc1 then 0xec63f226 else if i == 0xc2 then 0x756aa39c else if i == 0xc3 then 0x026d930a else
    if i == 0xc4 then 0x9c0906a9 else if i == 0xc5 then 0xeb0e363f else if i == 0xc6 then 0x72076785 else if i == 0xc7 then 0x05005713 else
    if i == 0xc8 then 0x95bf4a82 else if i == 0xc9 then 0xe2b87a14 else if i == 0xca then 0x7bb12bae else if i == 0xcb then 0x0cb61b38 else
    if i == 0xcc then 0x92d28e9b else if i == 0xcd then 0xe5d5be0d else if i == 0xce then 0x7cdcefb7 else 0x0bdbdf21
  }

  function RowD(i: Word): Word {
    if i == 0xd0 then 0x86d3d2d4 else if i == 0xd1 then 0xf1d4e242 else if i == 0xd2 then 0x68ddb3f8 else if i == 0xd3 then 0x1fda836e else
    if i == 0xd4 then 0x81be16cd else if i == 0xd5 then 0xf6b9265b else if i == 0xd6 then 0x6fb077e1 else if i == 0xd7 then 0x18b74777 else
    if i == 0xd8 then 0x88085ae6 else if i == 0xd9 then 0xff0f6a70 else if i == 0xda then 0x66063bca else if i == 0xdb then 0x11010b5c else
    if i == 0xdc then 0x8f659eff else if i == 0xdd then 0xf862ae69 else if i == 0xde then 0x616bffd3 else 0x166ccf45
  }

  function RowE(i: Word): Word {
    if i == 0xe0 then 0xa00ae278 else if i == 0xe1 then 0xd70dd2ee else if i == 0xe2 then 0x4e048354 else if i == 0xe3 then 0x3903b3c2 else
    if i == 0xe4 then 0xa7672661 else if i == 0xe5 then 0xd06016f7 else if i == 0xe6 then 0x4969474d else if i == 0xe7 then 0x3e6e77db else
    if i == 0xe8 then 0xaed16a4a else if i == 0xe9 then 0xd9d65adc else if i == 0xea then 0x40df0b66 else if i == 0xeb then 0x37d83bf0 else
    if i == 0xec then 0xa9bcae53 else if i == 0xed then 0xdebb9ec5 else if i == 0xee then 0x47b2cf7f else 0x30b5ffe9
  }

  function RowF(i: Word): Word {
    if i == 0xf0 then 0xbdbdf21c else if i == 0xf1 then 0xcabac28a else if i == 0xf2 then 0x53b39330 else if i == 0xf3 then 0x24b4a3a6 else
    if i == 0xf4 then 0xbad03605 else if i == 0xf5 then 0xcdd70693 else if i == 0xf6 then 0x54de5729 else if i == 0xf7 then 0x23d967bf else
    if i == 0xf8 then 0xb3667a2e else if i == 0xf9 then 0xc4614ab8 else if i == 0xfa then 0x5d681b02 else if i == 0xfb then 0x2a6f2b94 else
    if i == 0xfc then 0xb40bbe37 else if i == 0xfd then 0xc30c8ea1 else if i == 0xfe then 0x5a05df1b else 0x2d02ef8d
  }

  function Table(i: Word): Word {
    if i < 0x10 then Row0(i) else
    if i < 0x20 then Row1(i) else
    if i < 0x30 then Row2(i) else
    if i < 0x40 then Row3(i) else
    if i < 0x50 then Row4(i) else
    if i < 0x60 then Row5(i) else
    if i < 0x70 then Row6(i) else
    if i < 0x80 then Row7(i) else
    if i < 0x90 then Row8(i) else
    if i < 0xa0 then Row9(i) else
    if i < 0xb0 then RowA(i) else
    if i < 0xc0 then RowB(i) else
    if i < 0xd0 then RowC(i) else
    if i < 0xe0 then RowD(i) else
    if i < 0xf0 then RowE(i) else
    RowF(i)
  }

  lemma Row0Right(i: Word)
    requires 0x00 <= i <= 0x0f
    ensures Row0(i) == EightBits(i)
  {
    if i < 0x04 {
    } else if i < 0x08 {
    } else if i < 0x0c {
    }
  }

  lemma Row1Right(i: Word)
    requires 0x10 <= i <= 0x1f
    ensures Row1(i) == EightBits(i)
  {
    if i < 0x14 {
    } else if i < 0x18 {
    } else if i < 0x1c {
    }
  }

  lemma Row2Right(i: Word)
    requires 0x20 <= i <= 0x2f
    ensures Row2(i) == EightBits(i)
  {
    if i < 0x24 {
    } else if i < 0x28 {
    } else if i < 0x2c {
    }
  }

  lemma Row3Right(i: Word)
    requires 0x30 <= i <= 0x3f
    ensures Row3(i) == EightBits(i)
  {
    if i < 0x34 {
    } else if i < 0x38 {
    } else if i < 0x3c {
    }
  }

  lemma Row4Right(i: Word)
    requires 0x40 <= i <= 0x4f
    ensures Row4(i) == EightBits(i)
  {
    if i < 0x44 {
    } else if i < 0x48 {
    } else if i < 0x4c {
    }
  }

  lemma Row5Right(i: Word)
    requires 0x50 <= i <= 0x5f
    ensures Row5(i) == EightBits(i)
  {
    if i < 0x54 {
    } else if i < 0x58 {
    } else if i < 0x5c {
    }
  }

  lemma Row6Right(i: Word)
    requires 0x60 <= i <= 0x6f
    ensures Row6(i) == EightBits(i)
  {
    if i < 0x64 {
    } else if i < 0x68 {
    } else if i < 0x6c {
    }
  }

  lemma Row7Right(i: Word)
    requires 0x70 <= i <= 0x7f
    ensures Row7(i) == EightBits(i)
  {
    if i < 0x74 {
    } else if i < 0x78 {
    } else if i < 0x7c {
    }
  }

  lemma Row8Right(i: Word)
    requires 0x80 <= i <= 0x8f
    ensures Row8(i) == EightBits(i)
  {
    if i < 0x84 {
    } else if i < 0x88 {
    } else if i < 0x8c {
    }
  }

  lemma Row9Right(i: Word)
    requires 0x90 <= i <= 0x9f
    ensures Row9(i) == EightBits(i)
  {
    if i < 0x94 {
    } else if i < 0x98 {
    } else if i < 0x9c {
    }
  }

  lemma RowARight(i: Word)
    requires 0xa0 <= i <= 0xaf
    ensures RowA(i) == EightBits(i)
  {
    if i < 0xa4 {
    } else if i < 0xa8 {
    } else if i < 0xac {
    }
  }

  lemma RowBRight(i: Word)
    requires 0xb0 <= i <= 0xbf
    ensures RowB(i) == EightBits(i)
  {
    if i < 0xb4 {
    } else if i < 0xb8 {
    } else if i < 0xbc {
    }
  }

  lemma RowCRight(i: Word)
    requires 0xc0 <= i <= 0xcf
    ensures RowC(i) == EightBits(i)
  {
    if i < 0xc4 {
    } else if i < 0xc8 {
    } else if i < 0xcc {
    }
  }

  lemma RowDRight(i: Word)
    requires 0xd0 <= i <= 0xdf
    ensures RowD(i) == EightBits(i)
  {
    if i < 0xd4 {
    } else if i < 0xd8 {
    } else if i < 0xdc {
    }
  }

  lemma RowERight(i: Word)
    requires 0xe0 <= i <= 0xef
    ensures RowE(i) == EightBits(i)
  {
    if i < 0xe4 {
    } else if i < 0xe8 {
    } else if i < 0xec {
    }
  }

  lemma RowFRight(i: Word)
    requires 0xf0 <= i <= 0xff
    ensures RowF(i) == EightBits(i)
  {
    if i < 0xf4 {
    } else if i < 0xf8 {
    } else if i < 0xfc {
    }
  }

  /** Every one of the 256 entries is eight steps of the bitwise CRC. */
  lemma TableRight(i: Word)
    requires i < 0x100
    ensures Table(i) == EightBits(i)
  {
    hide EightBits, Row0, Row1, Row2, Row3, Row4, Row5, Row6, Row7, Row8, Row9, RowA, RowB, RowC, RowD, RowE, RowF;
    if i < 0x10 {
      Row0Right(i);
    } else if i < 0x20 {
      Row1Right(i);
    } else if i < 0x30 {
      Row2Right(i);
    } else if i < 0x40 {
      Row3Right(i);
    } else if i < 0x50 {
      Row4Right(i);
    } else if i < 0x60 {
      Row5Right(i);
    } else if i < 0x70 {
      Row6Right(i);
    } else if i < 0x80 {
      Row7Right(i);
    } else if i < 0x90 {
      Row8Right(i);
    } else if i < 0xa0 {
      Row9Right(i);
    } else if i < 0xb0 {
      RowARight(i);
    } else if i < 0xc0 {
      RowBRight(i);
    } else if i < 0xd0 {
      RowCRight(i);
    } else if i < 0xe0 {
      RowDRight(i);
    } else if i < 0xf0 {
      RowERight(i);
    } else {
      RowFRight(i);
    }
  }

  // ----- Algebra of the bit step -----

  lemma LowBitThrough(x: Word, z: Word)
    ensures Odd(Xor(x, Double(z))) == Odd(x)
  {
  }

  lemma HighBitsThrough(x: Word, z: Word)
    requires z < 0x8000_0000
    ensures Half(Xor(x, Double(z))) == Xor(Half(x), z)
  {
  }

  lemma XorAssociates(x: Word, y: Word, z: Word)
    ensures Xor(x, Xor(y, z)) == Xor(Xor(x, y), z)
  {
  }

  lemma BitByCase(c: Word)
    ensures Bit(c) == if Odd(c) then Xor(0xEDB8_8320, Half(c)) else Half(c)
  {
  }

  lemma BitThrough(x: Word, z: Word)
    requires z < 0x8000_0000
    ensures Bit(Xor(x, Double(z))) == Xor(Bit(x), z)
  {
    hide Bit, Xor, Double, Half, Odd;
    BitByCase(x);
    BitByCase(Xor(x, Double(z)));
    LowBitThrough(x, z);
    HighBitsThrough(x, z);
    XorAssociates(0xEDB8_8320, Half(x), z);
  }

  lemma BitInjective(x: Word, y: Word)
    requires Bit(x) == Bit(y)
    ensures x == y
  {
  }

  /** A 24-bit word moved up by one byte. */
  function UpByte(y: Word): Word {
    Double(Double(Double(Double(Double(Double(Double(Double(y))))))))
  }

  lemma Doublings(y: Word)
    requires y < 0x100_0000
    ensures var y1 := Double(y); var y2 := Double(y1); var y3 := Double(y2); var y4 := Double(y3);
            var y5 := Double(y4); var y6 := Double(y5); var y7 := Double(y6);
            && y1 < 0x8000_0000 && y2 < 0x8000_0000 && y3 < 0x8000_0000 && y4 < 0x8000_0000
            && y5 < 0x8000_0000 && y6 < 0x8000_0000 && y7 < 0x8000_0000
  {
  }

  /** Bits above the lowest eight are only shifted by a byte step. */
  lemma ByteThrough(x: Word, y: Word)
    requires y < 0x100_0000
    ensures EightBits(Xor(x, UpByte(y))) == Xor(EightBits(x), y)
  {
    hide Bit, Xor, Double;
    var x1 := Bit(x); var x2 := Bit(x1); var x3 := Bit(x2); var x4 := Bit(x3);
    var x5 := Bit(x4); var x6 := Bit(x5); var x7 := Bit(x6);
    var y1 := Double(y); var y2 := Double(y1); var y3 := Double(y2); var y4 := Double(y3);
    var y5 := Double(y4); var y6 := Double(y5); var y7 := Double(y6);
    Doublings(y);
    BitThrough(x, y7);
    BitThrough(x1, y6);
    BitThrough(x2, y5);
    BitThrough(x3, y4);
    BitThrough(x4, y3);
    BitThrough(x5, y2);
    BitThrough(x6, y1);
    BitThrough(x7, y);
  }

  lemma ByteInjective(x: Word, y: Word)
    requires EightBits(x) == EightBits(y)
    ensures x == y
  {
    hide Bit;
    var x1 := Bit(x); var x2 := Bit(x1); var x3 := Bit(x2); var x4 := Bit(x3);
    var x5 := Bit(x4); var x6 := Bit(x5); var x7 := Bit(x6);
    var y1 := Bit(y); var y2 := Bit(y1); var y3 := Bit(y2); var y4 := Bit(y3);
    var y5 := Bit(y4); var y6 := Bit(y5); var y7 := Bit(y6);
    BitInjective(x7, y7);
    BitInjective(x6, y6);
    BitInjective(x5, y5);
    BitInjective(x4, y4);
    BitInjective(x3, y3);
    BitInjective(x2, y2);
    BitInjective(x1, y1);
    BitInjective(x, y);
  }

  lemma UpByteRaw(y: Word)
    ensures UpByte(y) == y << 8
  {
  }

  lemma SplitLowByteRaw(c: Word, w: Word)
    requires w < 0x100
    ensures (c ^ w) & 0xff < 0x100 && c >> 8 < 0x100_0000
    ensures c ^ w == ((c ^ w) & 0xff) ^ ((c >> 8) << 8)
  {
  }

  lemma SplitLowByte(c: Word, b: Byte)
    ensures LowByte(Xor(c, Widen(b))) < 0x100
    ensures HighBytes(c) < 0x100_0000
    ensures Xor(c, Widen(b)) == Xor(LowByte(Xor(c, Widen(b))), UpByte(HighBytes(c)))
  {
    hide UpByte;
    UpByteRaw(HighBytes(c));
    SplitLowByteRaw(c, Widen(b));
  }

  /** One lookup is one byte of the reference definition. */
  lemma LookupRight(c: Word, b: Byte)
    ensures Xor(Table(LowByte(Xor(c, Widen(b)))), HighBytes(c)) == FeedByte(c, b)
  {
    hide Table, EightBits, Xor, LowByte, HighBytes, UpByte, Widen;
    SplitLowByte(c, b);
    TableRight(LowByte(Xor(c, Widen(b))));
    ByteThrough(LowByte(Xor(c, Widen(b))), HighBytes(c));
  }

  // ----- The loops of the original -----

  lemma {:induction false} FeedConcat(c: Word, s: seq<Byte>, t: seq<Byte>)
    ensures Feed(c, s + t) == Feed(Feed(c, s), t)
    decreases |s|
  {
    hide FeedByte;
    if s == [] {
      assert s + t == t;
    } else {
      FeedConcat(FeedByte(c, s[0]), s[1..], t);
      assert (s + t)[1..] == s[1..] + t;
    }
  }

  lemma FeedNothing(c: Word)
    ensures Feed(c, []) == c
  {
  }

  lemma NotNot(c: Word)
    ensures Not(Not(c)) == c
  {
  }

  /** The table loop computes the reference CRC of the buffer. */
  method GnuDebuglinkCrc32(init: Word, buf: seq<Byte>) returns (r: Word)
    ensures r == Crc(init, buf)
  {
    hide Table, FeedByte, Xor, Not, LowByte, HighBytes, Widen;
    var crc := Not(init);
    var i := 0;
    while i < |buf|
      invariant 0 <= i <= |buf|
      invariant Feed(Not(init), buf) == Feed(crc, buf[i..])
    {
      LookupRight(crc, buf[i]);
      assert buf[i..][1..] == buf[i + 1..];
      crc := Xor(Table(LowByte(Xor(crc, Widen(buf[i])))), HighBytes(crc));
      i := i + 1;
    }
    r := Not(crc);
  }

  function Flatten(chunks: seq<seq<Byte>>): seq<Byte> {
    if chunks == [] then [] else chunks[0] + Flatten(chunks[1..])
  }

  /**
   Checking a debug file: the chunks are what successive reads deliver before the first one
   that returns nothing. The file is accepted exactly when its whole-file CRC is the expected one.
   */
  method OpenDebugFile(chunks: seq<seq<Byte>>, crc: Word) returns (accept: bool)
    ensures accept <==> Crc(0, Flatten(chunks)) == crc
  {
    hide Feed, Not;
    var fileCrc: Word := 0;
    var i := 0;
    assert chunks[0..] == chunks;
    while i < |chunks|
      invariant 0 <= i <= |chunks|
      invariant Crc(0, Flatten(chunks)) == Crc(fileCrc, Flatten(chunks[i..]))
    {
      FeedConcat(Not(fileCrc), chunks[i], Flatten(chunks[i + 1..]));
      NotNot(Feed(Not(fileCrc), chunks[i]));
      assert chunks[i..][1..] == chunks[i + 1..];
      fileCrc := GnuDebuglinkCrc32(fileCrc, chunks[i]);
      i := i + 1;
    }
    FeedNothing(Not(fileCrc));
    NotNot(fileCrc);
    accept := crc == fileCrc;
  }

  // ----- Error detection -----

  /** At most four bytes, least significant first. */
  function LittleEndian(u: seq<Byte>): Word
    requires |u| <= 4
  {
    if u == [] then 0 else Xor(Widen(u[0]), UpByte(LittleEndian(u[1..])))
  }

  function Steps(n: nat, c: Word): Word
    decreases n
  {
    if n == 0 then c else Steps(n - 1, EightBits(c))
  }

  lemma WidenBound(b: Byte, x: Word)
    ensures x < 0x1_0000 ==> Xor(Widen(b), UpByte(x)) < 0x100_0000
    ensures x < 0x100 ==> Xor(Widen(b), UpByte(x)) < 0x1_0000
    ensures x == 0 ==> Xor(Widen(b), UpByte(x)) < 0x100
  {
  }

  lemma {:induction false} LittleEndianBound(u: seq<Byte>)
    requires |u| <= 3
    ensures LittleEndian(u) < 0x100_0000
    ensures |u| <= 2 ==> LittleEndian(u) < 0x1_0000
    ensures |u| <= 1 ==> LittleEndian(u) < 0x100
  {
    hide Xor, Widen, UpByte;
    if u != [] {
      LittleEndianBound(u[1..]);
      WidenBound(u[0], LittleEndian(u[1..]));
    }
  }

  lemma XorAssoc(a: Word, b: Word, c: Word)
    ensures Xor(Xor(a, b), c) == Xor(a, Xor(b, c))
    ensures Xor(a, 0) == a
  {
  }

  /** Feeding up to four bytes is feeding one word. */
  lemma {:induction false} FeedWord(c: Word, u: seq<Byte>)
    requires |u| <= 4
    ensures Feed(c, u) == Steps(|u|, Xor(c, LittleEndian(u)))
    decreases |u|
  {
    hide EightBits, Xor, Widen, UpByte;
    if u == [] {
      XorAssoc(c, 0, 0);
    } else {
      var rest := LittleEndian(u[1..]);
      LittleEndianBound(u[1..]);
      FeedWord(FeedByte(c, u[0]), u[1..]);
      ByteThrough(Xor(c, Widen(u[0])), rest);
      XorAssoc(c, Widen(u[0]), UpByte(rest));
    }
  }

  lemma {:induction false} StepsInjective(n: nat, x: Word, y: Word)
    requires Steps(n, x) == Steps(n, y)
    ensures x == y
    decreases n
  {
    hide EightBits;
    if n > 0 {
      StepsInjective(n - 1, EightBits(x), EightBits(y));
      ByteInjective(x, y);
    }
  }

  lemma LowByteOfWord(a: Byte, b: Byte, x: Word, y: Word)
    requires x < 0x100_0000 && y < 0x100_0000
    requires Xor(Widen(a), UpByte(x)) == Xor(Widen(b), UpByte(y))
    ensures a == b && x == y
  {
  }

  lemma {:induction false} LittleEndianInjective(u: seq<Byte>, v: seq<Byte>)
    requires |u| == |v| <= 4 && LittleEndian(u) == LittleEndian(v)
    ensures u == v
    decreases |u|
  {
    hide Xor, Widen, UpByte;
    if u != [] {
      LittleEndianBound(u[1..]);
      LittleEndianBound(v[1..]);
      LowByteOfWord(u[0], v[0], LittleEndian(u[1..]), LittleEndian(v[1..]));
      LittleEndianInjective(u[1..], v[1..]);
      assert u == [u[0]] + u[1..] && v == [v[0]] + v[1..];
    }
  }

  lemma XorCancel(c: Word, x: Word, y: Word)
    ensures Xor(c, x) == Xor(c, y) ==> x == y
    ensures Xor(x, c) == Xor(y, c) ==> x == y
  {
  }

  lemma {:induction false} FeedInjective(x: Word, y: Word, s: seq<Byte>)
    requires Feed(x, s) == Feed(y, s)
    ensures x == y
    decreases |s|
  {
    hide EightBits, Xor, Widen;
    if s != [] {
      FeedInjective(FeedByte(x, s[0]), FeedByte(y, s[0]), s[1..]);
      ByteInjective(Xor(x, Widen(s[0])), Xor(y, Widen(s[0])));
      XorCancel(Widen(s[0]), x, y);
    }
  }

  /**
   Two files of equal length that differ only inside four consecutive bytes never share a
   CRC; a single damaged byte is the smallest case.
   */
  lemma BurstDetected(init: Word, p: seq<Byte>, u: seq<Byte>, v: seq<Byte>, s: seq<Byte>)
    requires |u| == |v| <= 4
    ensures Crc(init, p + u + s) == Crc(init, p + v + s) <==> u == v
  {
    hide Feed, Steps, LittleEndian, Xor, Not;
    if Crc(init, p + u + s) == Crc(init, p + v + s) {
      var c := Feed(Not(init), p);
      FeedConcat(Not(init), p + u, s);
      FeedConcat(Not(init), p, u);
      FeedConcat(Not(init), p + v, s);
      FeedConcat(Not(init), p, v);
      NotNot(Feed(Not(init), p + u + s));
      NotNot(Feed(Not(init), p + v + s));
      FeedInjective(Feed(c, u), Feed(c, v), s);
      FeedWord(c, u);
      FeedWord(c, v);
      StepsInjective(|u|, Xor(c, LittleEndian(u)), Xor(c, LittleEndian(v)));
      XorCancel(c, LittleEndian(u), LittleEndian(v));
      LittleEndianInjective(u, v);
    }
  }

  // ----- The inversions -----

  lemma NothingAdded(init: Word)
    ensures Crc(init, []) == init
  {
    hide Not;
    FeedNothing(Not(init));
    NotNot(init);
  }

  /** Only the zero word stays as it is in eight steps. */
  lemma OnlyZeroStays(c: Word)
    ensures EightBits(c) == c <==> c == 0
  {
  }

  lemma NotIsZero(c: Word)
    ensures Not(c) == 0 <==> c == 0xffff_ffff
  {
  }

  lemma ZeroByte(c: Word)
    ensures FeedByte(c, 0) == EightBits(c)
  {
    hide EightBits;
  }

  /** A leading zero byte counts, whatever follows, except from the one start value that inverts to zero. */
  lemma LeadingZeroCounts(init: Word, s: seq<Byte>)
    ensures Crc(init, [0] + s) == Crc(init, s) <==> init == 0xffff_ffff
  {
    hide Feed, Not, EightBits, FeedByte;
    var c := Not(init);
    FeedConcat(c, [0], s);
    OneByte(c, 0);
    ZeroByte(c);
    OnlyZeroStays(c);
    NotIsZero(init);
    NotNot(Feed(c, [0] + s));
    NotNot(Feed(c, s));
    if Crc(init, [0] + s) == Crc(init, s) {
      FeedInjective(EightBits(c), c, s);
    }
  }

  lemma OneByte(c: Word, b: Byte)
    ensures Feed(c, [b]) == FeedByte(c, b)
  {
    hide FeedByte;
    assert [b][1..] == [];
  }

  const DIGITS: seq<Byte> := [0x31, 0x32, 0x33, 0x34, 0x35, 0x36, 0x37, 0x38, 0x39]

  lemma FirstDigits()
    ensures var c := FeedByte(FeedByte(FeedByte(0xffff_ffff, 0x31), 0x32), 0x33);
            c == 0x77b7_9c2d
  {
    assert FeedByte(0xffff_ffff, 0x31) == 0x7c23_1048;
    assert FeedByte(0x7c23_1048, 0x32) == 0xb0ac_bb32;
    assert FeedByte(0xb0ac_bb32, 0x33) == 0x77b7_9c2d;
  }

  lemma MiddleDigits()
    ensures FeedByte(FeedByte(FeedByte(0x77b7_9c2d, 0x34), 0x35), 0x36) == 0xf68d_2c9e
  {
    assert FeedByte(0x77b7_9c2d, 0x34) == 0x641c_1f5c;
    assert FeedByte(0x641c_1f5c, 0x35) == 0x340a_c5e3;
    assert FeedByte(0x340a_c5e3, 0x36) == 0xf68d_2c9e;
  }

  lemma LastDigits()
    ensures FeedByte(FeedByte(FeedByte(0xf68d_2c9e, 0x37), 0x38), 0x39) == 0x340b_c6d9
  {
    assert FeedByte(0xf68d_2c9e, 0x37) == 0xaffc_9660;
    assert FeedByte(0xaffc_9660, 0x38) == 0x651f_2550;
    assert FeedByte(0x651f_2550, 0x39) == 0x340b_c6d9;
  }

  lemma ThreeBytes(c: Word, a: Byte, b: Byte, d: Byte)
    ensures Feed(c, [a, b, d]) == FeedByte(FeedByte(FeedByte(c, a), b), d)
  {
    hide FeedByte;
    assert [a, b, d][1..] == [b, d] && [b, d][1..] == [d];
    OneByte(FeedByte(FeedByte(c, a), b), d);
  }

  /** The check value of this CRC, for the digits from 1 to 9. */
  lemma CheckValue()
    ensures Crc(0, DIGITS) == 0xcbf4_3926
  {
    hide Feed, FeedByte;
    assert DIGITS == [0x31, 0x32, 0x33] + ([0x34, 0x35, 0x36] + [0x37, 0x38, 0x39]);
    FeedConcat(0xffff_ffff, [0x31, 0x32, 0x33], [0x34, 0x35, 0x36] + [0x37, 0x38, 0x39]);
    FeedConcat(0x77b7_9c2d, [0x34, 0x35, 0x36], [0x37, 0x38, 0x39]);
    ThreeBytes(0xffff_ffff, 0x31, 0x32, 0x33);
    ThreeBytes(0x77b7_9c2d, 0x34, 0x35, 0x36);
    ThreeBytes(0xf68d_2c9e, 0x37, 0x38, 0x39);
    FirstDigits();
    MiddleDigits();
    LastDigits();
  }
}
