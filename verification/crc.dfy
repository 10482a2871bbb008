/** The 16-bit CRC of the file system and the radio: polynomial 0x1021, start value 0xffff, no reflection. */
module Crc {

  // ---- the table, sixteen entries a row ----

  function Row0(i: bv8): bv16 {
    if i == 0 then 0x0000 else if i == 1 then 0x1021 else if i == 2 then 0x2042 else if i == 3 then 0x3063 else
    if i == 4 then 0x4084 else if i == 5 then 0x50a5 else if i == 6 then 0x60c6 else if i == 7 then 0x70e7 else
    if i == 8 then 0x8108 else if i == 9 then 0x9129 else if i == 10 then 0xa14a else if i == 11 then 0xb16b else
    if i == 12 then 0xc18c else if i == 13 then 0xd1ad else if i == 14 then 0xe1ce else 0xf1ef
  }

  function Row1(i: bv8): bv16 {
    if i == 0 then 0x1231 else if i == 1 then 0x0210 else if i == 2 then 0x3273 else if i == 3 then 0x2252 else
    if i == 4 then 0x52b5 else if i == 5 then 0x4294 else if i == 6 then 0x72f7 else if i == 7 then 0x62d6 else
    if i == 8 then 0x9339 else if i == 9 then 0x8318 else if i == 10 then 0xb37b else if i == 11 then 0xa35a else
    if i == 12 then 0xd3bd else if i == 13 then 0xc39c else if i == 14 then 0xf3ff else 0xe3de
  }

  function Row2(i: bv8): bv16 {
    if i == 0 then 0x2462 else if i == 1 then 0x3443 else if i == 2 then 0x0420 else if i == 3 then 0x1401 else
    if i == 4 then 0x64e6 else if i == 5 then 0x74c7 else if i == 6 then 0x44a4 else if i == 7 then 0x5485 else
    if i == 8 then 0xa56a else if i == 9 then 0xb54b else if i == 10 then 0x8528 else if i == 11 then 0x9509 else
    if i == 12 then 0xe5ee else if i == 13 then 0xf5cf else if i == 14 then 0xc5ac else 0xd58d
  }

  function Row3(i: bv8): bv16 {
    if i == 0 then 0x3653 else if i == 1 then 0x2672 else if i == 2 then 0x1611 else if i == 3 then 0x0630 else
    if i == 4 then 0x76d7 else if i == 5 then 0x66f6 else if i == 6 then 0x5695 else if i == 7 then 0x46b4 else
    if i == 8 then 0xb75b else if i == 9 then 0xa77a else if i == 10 then 0x9719 else if i == 11 then 0x8738 else
    if i == 12 then 0xf7df else if i == 13 then 0xe7fe else if i == 14 then 0xd79d else 0xc7bc
  }

  function Row4(i: bv8): bv16 {
    if i == 0 then 0x48c4 else if i == 1 then 0x58e5 else if i == 2 then 0x6886 else if i == 3 then 0x78a7 else
    if i == 4 then 0x0840 else if i == 5 then 0x1861 else if i == 6 then 0x2802 else if i == 7 then 0x3823 else
    if i == 8 then 0xc9cc else if i == 9 then 0xd9ed else if i == 10 then 0xe98e else if i == 11 then 0xf9af else
    if i == 12 then 0x8948 else if i == 13 then 0x9969 else if i == 14 then 0xa90a else 0xb92b
  }

  function Row5(i: bv8): bv16 {
    if i == 0 then 0x5af5 else if i == 1 then 0x4ad4 else if i == 2 then 0x7ab7 else if i == 3 then 0x6a96 else
    if i == 4 then 0x1a71 else if i == 5 then 0x0a50 else if i == 6 then 0x3a33 else if i == 7 then 0x2a12 else
    if i == 8 then 0xdbfd else if i == 9 then 0xcbdc else if i == 10 then 0xfbbf else if i == 11 then 0xeb9e else
    if i == 12 then 0x9b79 else if i == 13 then 0x8b58 else if i == 14 then 0xbb3b else 0xab1a
  }

  function Row6(i: bv8): bv16 {
    if i == 0 then 0x6ca6 else if i == 1 then 0x7c87 else if i == 2 then 0x4ce4 else if i == 3 then 0x5cc5 else
    if i == 4 then 0x2c22 else if i == 5 then 0x3c03 else if i == 6 then 0x0c60 else if i == 7 then 0x1c41 else
    if i == 8 then 0xedae else if i == 9 then 0xfd8f else if i == 10 then 0xcdec else if i == 11 then 0xddcd else
    if i == 12 then 0xad2a else if i == 13 then 0xbd0b else if i == 14 then 0x8d68 else 0x9d49
  }

  function Row7(i: bv8): bv16 {
    if i == 0 then 0x7e97 else if i == 1 then 0x6eb6 else if i == 2 then 0x5ed5 else if i == 3 then 0x4ef4 else
    if i == 4 then 0x3e13 else if i == 5 then 0x2e32 else if i == 6 then 0x1e51 else if i == 7 then 0x0e70 else
    if i == 8 then 0xff9f else if i == 9 then 0xefbe else if i == 10 then 0xdfdd else if i == 11 then 0xcffc else
    if i == 12 then 0xbf1b else if i == 13 then 0xaf3a else if i == 14 then 0x9f59 else 0x8f78
  }

  function Row8(i: bv8): bv16 {
    if i == 0 then 0x9188 else if i == 1 then 0x81a9 else if i == 2 then 0xb1ca else if i == 3 then 0xa1eb else
    if i == 4 then 0xd10c else if i == 5 then 0xc12d else if i == 6 then 0xf14e else if i == 7 then 0xe16f else
    if i == 8 then 0x1080 else if i == 9 then 0x00a1 else if i == 10 then 0x30c2 else if i == 11 then 0x20e3 else
    if i == 12 then 0x5004 else if i == 13 then 0x4025 else if i == 14 then 0x7046 else 0x6067
  }

  function Row9(i: bv8): bv16 {
    if i == 0 then 0x83b9 else if i == 1 then 0x9398 else if i == 2 then 0xa3fb else if i == 3 then 0xb3da else
    if i == 4 then 0xc33d else if i == 5 then 0xd31c else if i == 6 then 0xe37f else if i == 7 then 0xf35e else
    if i == 8 then 0x02b1 else if i == 9 then 0x1290 else if i == 10 then 0x22f3 else if i == 11 then 0x32d2 else
    if i == 12 then 0x4235 else if i == 13 then 0x5214 else if i == 14 then 0x6277 else 0x7256
  }

  function Row10(i: bv8): bv16 {
    if i == 0 then 0xb5ea else if i == 1 then 0xa5cb else if i == 2 then 0x95a8 else if i == 3 then 0x8589 else
    if i == 4 then 0xf56e else if i == 5 then 0xe54f else if i == 6 then 0xd52c else if i == 7 then 0xc50d else
    if i == 8 then 0x34e2 else if i == 9 then 0x24c3 else if i == 10 then 0x14a0 else if i == 11 then 0x0481 else
    if i == 12 then 0x7466 else if i == 13 then 0x6447 else if i == 14 then 0x5424 else 0x4405
  }

  function Row11(i: bv8): bv16 {
    if i == 0 then 0xa7db else if i == 1 then 0xb7fa else if i == 2 then 0x8799 else if i == 3 then 0x97b8 else
    if i == 4 then 0xe75f else if i == 5 then 0xf77e else if i == 6 then 0xc71d else if i == 7 then 0xd73c else
    if i == 8 then 0x26d3 else if i == 9 then 0x36f2 else if i == 10 then 0x0691 else if i == 11 then 0x16b0 else
    if i == 12 then 0x6657 else if i == 13 then 0x7676 else if i == 14 then 0x4615 else 0x5634
  }

  function Row12(i: bv8): bv16 {
    if i == 0 then 0xd94c else if i == 1 then 0xc96d else if i == 2 then 0xf90e else if i == 3 then 0xe92f else
    if i == 4 then 0x99c8 else if i == 5 then 0x89e9 else if i == 6 then 0xb98a else if i == 7 then 0xa9ab else
    if i == 8 then 0x5844 else if i == 9 then 0x4865 else if i == 10 then 0x7806 else if i == 11 then 0x6827 else
    if i == 12 then 0x18c0 else if i == 13 then 0x08e1 else if i == 14 then 0x3882 else 0x28a3
  }

  function Row13(i: bv8): bv16 {
    if i == 0 then 0xcb7d else if i == 1 then 0xdb5c else if i == 2 then 0xeb3f else if i == 3 then 0xfb1e else
    if i == 4 then 0x8bf9 else if i == 5 then 0x9bd8 else if i == 6 then 0xabbb else if i == 7 then 0xbb9a else
    if i == 8 then 0x4a75 else if i == 9 then 0x5a54 else if i == 10 then 0x6a37 else if i == 11 then 0x7a16 else
    if i == 12 then 0x0af1 else if i == 13 then 0x1ad0 else if i == 14 then 0x2ab3 else 0x3a92
  }

  function Row14(i: bv8): bv16 {
    if i == 0 then 0xfd2e else if i == 1 then 0xed0f else if i == 2 then 0xdd6c else if i == 3 then 0xcd4d else
    if i == 4 then 0xbdaa else if i == 5 then 0xad8b else if i == 6 then 0x9de8 else if i == 7 then 0x8dc9 else
    if i == 8 then 0x7c26 else if i == 9 then 0x6c07 else if i == 10 then 0x5c64 else if i == 11 then 0x4c45 else
    if i == 12 then 0x3ca2 else if i == 13 then 0x2c83 else if i == 14 then 0x1ce0 else 0x0cc1
  }

  function Row15(i: bv8): bv16 {
    if i == 0 then 0xef1f else if i == 1 then 0xff3e else if i == 2 then 0xcf5d else if i == 3 then 0xdf7c else
    if i == 4 then 0xaf9b else if i == 5 then 0xbfba else if i == 6 then 0x8fd9 else if i == 7 then 0x9ff8 else
    if i == 8 then 0x6e17 else if i == 9 then 0x7e36 else if i == 10 then 0x4e55 else if i == 11 then 0x5e74 else
    if i == 12 then 0x2e93 else if i == 13 then 0x3eb2 else if i == 14 then 0x0ed1 else 0x1ef0
  }

  function Entry(h: bv8, l: bv8): bv16 {
    if h == 0 then Row0(l) else if h == 1 then Row1(l) else if h == 2 then Row2(l) else if h == 3 then Row3(l) else
    if h == 4 then Row4(l) else if h == 5 then Row5(l) else if h == 6 then Row6(l) else if h == 7 then Row7(l) else
    if h == 8 then Row8(l) else if h == 9 then Row9(l) else if h == 10 then Row10(l) else if h == 11 then Row11(l) else
    if h == 12 then Row12(l) else if h == 13 then Row13(l) else if h == 14 then Row14(l) else Row15(l)
  }

  function CrcTab(i: bv8): bv16 { Entry(i >> 4, i & 0x0f) }

  // ---- one byte ----

  function Low(b: bv8): bv16 { b as bv16 }

  function Xor(a: bv16, b: bv16): bv16 { a ^ b }

  /** Shift the byte in at the bottom and fold the byte that falls out at the top back in through the table. */
  function Step(crc: bv16, data: bv8): bv16 {
    Xor((crc << 8) | Low(data), CrcTab((crc >> 8) as bv8))
  }

  // ---- the bit-serial definition ----

  /** One bit in at the bottom; the polynomial is subtracted when a one falls out at the top. */
  function SerialBit(crc: bv16, bit: bool): bv16 {
    var shifted := (crc << 1) + (if bit then 1 else 0);
    if crc & 0x8000 != 0 then shifted ^ 0x1021 else shifted
  }

  predicate Top(data: bv8) { data & 0x80 != 0 }

  function Up(data: bv8): bv8 { data << 1 }

  function SerialBits(crc: bv16, data: bv8, n: nat): bv16
    decreases n
  {
    if n == 0 then crc else SerialBits(SerialBit(crc, Top(data)), Up(data), n - 1)
  }

  // ---- linearity ----

  function Shl(a: bv16): bv16 { a << 1 }

  function Xor8(a: bv8, b: bv8): bv8 { a ^ b }

  function Feedback(crc: bv16): bv16 { if TopBit(crc) then 0x1021 else 0 }

  function Input(bit: bool): bv16 { if bit then 1 else 0 }

  lemma BitForm(crc: bv16, bit: bool)
    ensures SerialBit(crc, bit) == Xor(Xor(Shl(crc), Feedback(crc)), Input(bit))
  {
    if bit {
      PlusOne(crc);
    }
    if crc & 0x8000 != 0 {
      Swap(crc << 1, Input(bit), 0x1021);
    }
  }

  lemma PlusOne(crc: bv16)
    ensures (crc << 1) + 1 == (crc << 1) ^ 1
  {
  }

  lemma Swap(a: bv16, b: bv16, c: bv16)
    ensures (a ^ b) ^ c == a ^ c ^ b
  {
  }

  predicate TopBit(c: bv16) { c & 0x8000 != 0 }

  lemma TopXor(a: bv16, b: bv16)
    ensures TopBit(Xor(a, b)) <==> TopBit(a) != TopBit(b)
  {
  }

  lemma FeedbackLinear(a: bv16, b: bv16)
    ensures Feedback(Xor(a, b)) == Xor(Feedback(a), Feedback(b))
  {
    TopXor(a, b);
    XorConstants();
    hide Xor, TopBit;
  }

  lemma XorConstants()
    ensures Xor(0, 0) == 0 && Xor(0x1021, 0) == 0x1021 && Xor(0, 0x1021) == 0x1021 && Xor(0x1021, 0x1021) == 0
  {
  }

  lemma ShiftLinear(a: bv16, b: bv16)
    ensures Shl(Xor(a, b)) == Xor(Shl(a), Shl(b))
  {
  }

  lemma InputLinear(a: bv8, b: bv8)
    ensures Input(Top(Xor8(a, b))) == Xor(Input(Top(a)), Input(Top(b)))
    ensures Up(Xor8(a, b)) == Xor8(Up(a), Up(b))
  {
  }

  lemma XorComm(a: bv16, b: bv16)
    ensures Xor(a, b) == Xor(b, a)
  {
  }

  lemma XorAssoc(a: bv16, b: bv16, c: bv16)
    ensures Xor(Xor(a, b), c) == Xor(a, Xor(b, c))
  {
  }

  lemma Swap4(a: bv16, b: bv16, c: bv16, d: bv16)
    ensures Xor(Xor(a, b), Xor(c, d)) == Xor(Xor(a, c), Xor(b, d))
  {
    hide Xor;
    XorAssoc(a, b, Xor(c, d));
    XorAssoc(b, c, d);
    XorComm(b, c);
    XorAssoc(c, b, d);
    XorAssoc(a, c, Xor(b, d));
  }

  lemma Regroup(sa: bv16, sb: bv16, fa: bv16, fb: bv16, pa: bv16, pb: bv16)
    ensures Xor(Xor(Xor(sa, sb), Xor(fa, fb)), Xor(pa, pb)) == Xor(Xor(Xor(sa, fa), pa), Xor(Xor(sb, fb), pb))
  {
    hide Xor;
    Swap4(sa, sb, fa, fb);
    Swap4(Xor(sa, fa), Xor(sb, fb), pa, pb);
  }

  lemma BitLinear(a: bv16, b: bv16, d: bv8, e: bv8)
    ensures SerialBit(Xor(a, b), Top(Xor8(d, e))) == Xor(SerialBit(a, Top(d)), SerialBit(b, Top(e)))
  {
    hide SerialBit, Feedback, Input, Top, Xor, Xor8, Shl;
    BitForm(Xor(a, b), Top(Xor8(d, e)));
    BitForm(a, Top(d));
    BitForm(b, Top(e));
    FeedbackLinear(a, b);
    ShiftLinear(a, b);
    InputLinear(d, e);
    Regroup(Shl(a), Shl(b), Feedback(a), Feedback(b), Input(Top(d)), Input(Top(e)));
  }

  /** Any number of serial steps is linear in the state and the data together. */
  lemma {:induction false} BitsLinear(a: bv16, b: bv16, d: bv8, e: bv8, n: nat)
    ensures SerialBits(Xor(a, b), Xor8(d, e), n) == Xor(SerialBits(a, d, n), SerialBits(b, e, n))
    decreases n
  {
    hide SerialBit, Top, Up, Xor, Xor8;
    if n > 0 {
      BitLinear(a, b, d, e);
      InputLinear(d, e);
      BitsLinear(SerialBit(a, Top(d)), SerialBit(b, Top(e)), Up(d), Up(e), n - 1);
    }
  }

  // ---- the table is eight serial steps ----

  function Doubled(c: bv16): bv16 { if c & 0x8000 != 0 then (c << 1) ^ 0x1021 else c << 1 }

  lemma DoubledIs(c: bv16)
    ensures SerialBit(c, false) == Doubled(c)
  {
  }

  function Eight(c: bv16): bv16 {
    Doubled(Doubled(Doubled(Doubled(Doubled(Doubled(Doubled(Doubled(c))))))))
  }

  lemma NoInput(c: bv16, n: nat)
    requires n > 0
    ensures SerialBits(c, 0, n) == SerialBits(Doubled(c), 0, n - 1)
  {
    DoubledIs(c);
    assert !Top(0) && Up(0) == 0;
  }

  lemma EightIs(c: bv16)
    ensures SerialBits(c, 0, 8) == Eight(c)
  {
    hide Doubled;
    var c1 := Doubled(c);
    var c2 := Doubled(c1);
    var c3 := Doubled(c2);
    var c4 := Doubled(c3);
    var c5 := Doubled(c4);
    var c6 := Doubled(c5);
    var c7 := Doubled(c6);
    NoInput(c, 8);
    NoInput(c1, 7);
    NoInput(c2, 6);
    NoInput(c3, 5);
    NoInput(c4, 4);
    NoInput(c5, 3);
    NoInput(c6, 2);
    NoInput(c7, 1);
  }

  lemma EntrySplit(h: bv8, l: bv8)
    requires h & 0xf0 == 0 && l & 0xf0 == 0
    ensures Entry(h, l) == Entry(h, 0) ^ Entry(0, l)
  {
    if h == 0 {
    } else if h == 1 {
    } else if h == 2 {
    } else if h == 3 {
    } else if h == 4 {
    } else if h == 5 {
    } else if h == 6 {
    } else if h == 7 {
    } else if h == 8 {
    } else if h == 9 {
    } else if h == 10 {
    } else if h == 11 {
    } else if h == 12 {
    } else if h == 13 {
    } else if h == 14 {
    } else {
      assert h == 15;
    }
  }

  lemma Nibbles(i: bv8)
    ensures (i & 0xf0) >> 4 == i >> 4 && (i & 0xf0) & 0x0f == 0
    ensures (i & 0x0f) >> 4 == 0 && (i & 0x0f) & 0x0f == i & 0x0f
    ensures (i >> 4) & 0xf0 == 0 && (i & 0x0f) & 0xf0 == 0
  {
  }

  lemma TableSplit(i: bv8)
    ensures CrcTab(i) == CrcTab(i & 0xf0) ^ CrcTab(i & 0x0f)
  {
    hide Entry;
    Nibbles(i);
    EntrySplit(i >> 4, i & 0x0f);
  }

  /** The 31 table entries with one nibble set, computed serially. */
  lemma LowNibbles(i: bv8)
    requires i & 0xf0 == 0
    ensures CrcTab(i) == Eight(Low(i) << 8)
  {
  }

  lemma HighNibbles(i: bv8)
    requires i & 0x0f == 0
    ensures CrcTab(i) == Eight(Low(i) << 8)
  {
  }

  function High(i: bv8): bv16 { Low(i) << 8 }

  lemma HighSplit(i: bv8)
    ensures High(i) == Xor(High(i & 0xf0), High(i & 0x0f))
    ensures (i & 0xf0) & 0x0f == 0 && (i & 0x0f) & 0xf0 == 0
  {
  }

  /** Every table entry is what eight serial steps make of its index in the top byte. */
  lemma TableIsSerial(i: bv8)
    ensures CrcTab(i) == SerialBits(High(i), 0, 8)
  {
    var h, l := i & 0xf0, i & 0x0f;
    HighSplit(i);
    TableSplit(i);
    HighNibbles(h);
    LowNibbles(l);
    EightIs(High(h));
    EightIs(High(l));
    BitsLinear(High(h), High(l), 0, 0, 8);
    assert Xor8(0, 0) == 0;
    hide SerialBits, Eight, CrcTab;
  }

  lemma LowByteMovesUp(lo: bv16)
    requires lo & 0xff00 == 0
    ensures Eight(lo) == lo << 8
  {
  }

  lemma DataBits(d: bv8)
    ensures SerialBit(0, Top(d)) == Low(d >> 7)
    ensures SerialBit(Low(d >> 7), Top(d << 1)) == Low(d >> 6)
    ensures SerialBit(Low(d >> 6), Top(d << 2)) == Low(d >> 5)
    ensures SerialBit(Low(d >> 5), Top(d << 3)) == Low(d >> 4)
    ensures SerialBit(Low(d >> 4), Top(d << 4)) == Low(d >> 3)
    ensures SerialBit(Low(d >> 3), Top(d << 5)) == Low(d >> 2)
    ensures SerialBit(Low(d >> 2), Top(d << 6)) == Low(d >> 1)
    ensures SerialBit(Low(d >> 1), Top(d << 7)) == Low(d)
  {
  }

  lemma SerialStep(c: bv16, d: bv8, n: nat)
    requires n > 0
    ensures SerialBits(c, d, n) == SerialBits(SerialBit(c, Top(d)), Up(d), n - 1)
  {
  }

  lemma Ups(d: bv8)
    ensures Up(d) == d << 1 && Up(d << 1) == d << 2 && Up(d << 2) == d << 3 && Up(d << 3) == d << 4
    ensures Up(d << 4) == d << 5 && Up(d << 5) == d << 6 && Up(d << 6) == d << 7
  {
  }

  /** Eight bits shifted into an empty register are the byte. */
  lemma DataMovesIn(d: bv8)
    ensures SerialBits(0, d, 8) == Low(d)
  {
    hide SerialBits, SerialBit, Top, Up, Low;
    DataBits(d);
    Ups(d);
    SerialStep(0, d, 8);
    SerialStep(Low(d >> 7), d << 1, 7);
    SerialStep(Low(d >> 6), d << 2, 6);
    SerialStep(Low(d >> 5), d << 3, 5);
    SerialStep(Low(d >> 4), d << 4, 4);
    SerialStep(Low(d >> 3), d << 5, 3);
    SerialStep(Low(d >> 2), d << 6, 2);
    SerialStep(Low(d >> 1), d << 7, 1);
    SerialNone(Low(d), Up(d << 7));
  }

  lemma SerialNone(c: bv16, d: bv8)
    ensures SerialBits(c, d, 0) == c
  {
  }

  lemma SplitState(crc: bv16)
    ensures crc == Xor(High((crc >> 8) as bv8), crc & 0x00ff)
    ensures (crc & 0x00ff) & 0xff00 == 0
    ensures (crc & 0x00ff) << 8 == crc << 8
  {
  }

  lemma StepForm(crc: bv16, data: bv8)
    ensures Step(crc, data) == Xor(CrcTab((crc >> 8) as bv8), Xor(crc << 8, Low(data)))
  {
    hide CrcTab;
    JoinByte(crc, data);
    XorComm(CrcTab((crc >> 8) as bv8), Xor(crc << 8, Low(data)));
    hide Xor, Low;
  }

  lemma JoinByte(crc: bv16, data: bv8)
    ensures (crc << 8) | Low(data) == Xor(crc << 8, Low(data))
  {
  }

  lemma ZeroData(data: bv8, lo: bv16)
    ensures Xor8(0, data) == data && Xor(lo, 0) == lo
  {
  }

  /** The table step is eight bit-serial steps, for every state and byte. */
  lemma TableStep(crc: bv16, data: bv8)
    ensures Step(crc, data) == SerialBits(crc, data, 8)
  {
    hide SerialBits, CrcTab, Xor, Xor8, Eight, High, Low, Step;
    var i, lo := (crc >> 8) as bv8, crc & 0x00ff;
    SplitState(crc);
    ZeroData(data, lo);
    TableIsSerial(i);
    EightIs(lo);
    LowByteMovesUp(lo);
    DataMovesIn(data);
    BitsLinear(High(i), lo, 0, data, 8);
    BitsLinear(lo, 0, 0, data, 8);
    StepForm(crc, data);
  }

  // ---- buffers ----

  function Partial(crc: bv16, data: seq<bv8>): bv16 {
    if data == [] then crc else Step(Partial(crc, data[..|data| - 1]), data[|data| - 1])
  }

  /** Two zero bytes push the last bits of the message through. */
  function Finish(crc: bv16): bv16 { Step(Step(crc, 0), 0) }

  function Block(data: seq<bv8>): bv16 { Finish(Partial(0xffff, data)) }

  /** Known answers: the empty buffer, and the nine digits. */
  lemma KnownAnswers()
    ensures Block([]) == 0x1d0f
    ensures Block([0x31, 0x32, 0x33, 0x34, 0x35, 0x36, 0x37, 0x38, 0x39]) == 0xe5cc
  {
    hide Step, CrcTab, Xor;
    EmptySteps();
    DigitSteps();
    MoreSteps();
    assert Partial(0xffff, []) == 0xffff;
    var d: seq<bv8> := [0x31, 0x32, 0x33, 0x34, 0x35, 0x36, 0x37, 0x38, 0x39];
    hide Partial;
    assert d[..0] == [];
    KnownStep(d, 0, 0xffff, 0xe1c1);
    KnownStep(d, 1, 0xe1c1, 0x2c3d);
    KnownStep(d, 2, 0x2c3d, 0xd8dd);
    KnownStep(d, 3, 0xd8dd, 0x9741);
    KnownStep(d, 4, 0x9741, 0xb26b);
    KnownStep(d, 5, 0xb26b, 0xecaf);
    KnownStep(d, 6, 0xecaf, 0x9395);
    KnownStep(d, 7, 0x9395, 0x26e2);
    KnownStep(d, 8, 0x26e2, 0xa69d);
    assert d[..9] == d;
  }

  lemma EmptySteps()
    ensures Step(0xffff, 0) == 0xe1f0 && Step(0xe1f0, 0) == 0x1d0f
  {
  }

  lemma DigitSteps()
    ensures Step(0xffff, 0x31) == 0xe1c1 && Step(0xe1c1, 0x32) == 0x2c3d
    ensures Step(0x2c3d, 0x33) == 0xd8dd && Step(0xd8dd, 0x34) == 0x9741
    ensures Step(0x9741, 0x35) == 0xb26b && Step(0xb26b, 0x36) == 0xecaf
  {
  }

  lemma MoreSteps()
    ensures Step(0xecaf, 0x37) == 0x9395 && Step(0x9395, 0x38) == 0x26e2
    ensures Step(0x26e2, 0x39) == 0xa69d && Step(0xa69d, 0x00) == 0x482c
    ensures Step(0x482c, 0x00) == 0xe5cc
  {
  }

  lemma KnownStep(d: seq<bv8>, k: nat, before: bv16, after: bv16)
    requires k < |d| && Partial(0xffff, d[..k]) == before && Step(before, d[k]) == after
    ensures Partial(0xffff, d[..k + 1]) == after
  {
    assert d[..k + 1][..k] == d[..k];
  }

  /** The bit-serial code run over a whole buffer. */
  function SerialPartial(crc: bv16, data: seq<bv8>): bv16 {
    if data == [] then crc else SerialBits(SerialPartial(crc, data[..|data| - 1]), data[|data| - 1], 8)
  }

  lemma {:induction false} PartialIsSerial(crc: bv16, data: seq<bv8>)
    ensures Partial(crc, data) == SerialPartial(crc, data)
  {
    hide Step, SerialBits;
    if data != [] {
      PartialIsSerial(crc, data[..|data| - 1]);
      TableStep(Partial(crc, data[..|data| - 1]), data[|data| - 1]);
    }
  }

  /** A buffer may be fed in chunks. */
  lemma {:induction false} Chunks(crc: bv16, a: seq<bv8>, b: seq<bv8>)
    ensures Partial(crc, a + b) == Partial(Partial(crc, a), b)
  {
    hide Step;
    if b == [] {
      assert a + b == a;
    } else {
      Chunks(crc, a, b[..|b| - 1]);
      assert (a + b)[..|a + b| - 1] == a + b[..|b| - 1];
    }
  }

  method PartialBlock(crc: bv16, data: array<bv8>, length: nat) returns (r: bv16)
    requires length <= data.Length
    ensures r == Partial(crc, data[..length])
  {
    hide Step;
    r := crc;
    for i := 0 to length
      invariant r == Partial(crc, data[..i])
    {
      r := AddByte(r, data[i]);
      assert data[..i + 1][..i] == data[..i];
    }
  }

  /** One round of the block loops. */
  method AddByte(crc: bv16, b: bv8) returns (r: bv16)
    ensures r == Step(crc, b)
  {
    hide CrcTab;
    var temp := (crc >> 8) as bv8;
    r := crc << 8;
    r := r | Low(b);
    r := Xor(r, CrcTab(temp));
  }

  method BlockCrc(data: array<bv8>, length: nat) returns (crc: bv16)
    requires length <= data.Length
    ensures crc == Block(data[..length])
  {
    crc := PartialBlock(0xffff, data, length);
    crc := Step(crc, 0);
    crc := Step(crc, 0);
  }

  /** Read a page of the image into a buffer and feed it. */
  method PageCrc(crc: bv16, image: seq<bv8>, address: nat, n: nat) returns (r: bv16)
    requires address + n <= |image|
    ensures r == Partial(crc, image[address..address + n])
  {
    hide Step;
    var buf := new bv8[n](i requires 0 <= i < n => image[address + i]);
    assert buf[..n] == image[address..address + n];
    r := PartialBlock(crc, buf, n);
  }

  /** An image read in chunks has the CRC of the whole. */
  method FirmwareCrc(image: seq<bv8>, pageSize: nat) returns (crc: bv16)
    requires pageSize > 0
    ensures crc == Block(image)
  {
    hide Step;
    crc := 0xffff;
    var length: nat, address: nat := |image|, 0;
    while length > 0
      invariant address + length == |image| && crc == Partial(0xffff, image[..address])
      decreases length
    {
      var n := if pageSize > length then length else pageSize;
      Chunks(0xffff, image[..address], image[address..address + n]);
      assert image[..address + n] == image[..address] + image[address..address + n];
      crc := PageCrc(crc, image, address, n);
      address := address + n;
      length := length - n;
    }
    assert image[..address] == image;
    crc := Step(crc, 0);
    crc := Step(crc, 0);
  }

  // ---- a message followed by its CRC ----

  lemma StepData(crc: bv16, d: bv8)
    ensures Step(crc, d) == Xor(Step(crc, 0), Low(d))
  {
    hide CrcTab;
    StepForm(crc, d);
    StepForm(crc, 0);
    ZeroByte(crc << 8);
    hide Xor, Low, Step;
    XorAssoc(CrcTab((crc >> 8) as bv8), crc << 8, Low(d));
  }

  lemma ZeroByte(c: bv16)
    ensures Xor(c, Low(0)) == c
  {
  }

  /** Data in the low byte reaches the top byte one step later without passing through the table. */
  lemma StepLow(crc: bv16, d: bv8, e: bv8)
    ensures Step(Xor(crc, Low(d)), e) == Xor(Step(crc, e), High(d))
  {
    hide CrcTab;
    SameTop(crc, d);
    StepForm(Xor(crc, Low(d)), e);
    StepForm(crc, e);
    var t, u, v, w := CrcTab((crc >> 8) as bv8), crc << 8, Low(e), High(d);
    hide Xor, Low, High, Step;
    XorAssoc(u, w, v);
    XorComm(w, v);
    XorAssoc(u, v, w);
    XorAssoc(t, Xor(u, v), w);
  }

  lemma SameTop(crc: bv16, d: bv8)
    ensures Xor(crc, Low(d)) >> 8 == crc >> 8
    ensures Xor(crc, Low(d)) << 8 == Xor(crc << 8, High(d))
  {
  }

  /** Two bytes enter as their 16-bit value on top of what two zero bytes would give. */
  lemma TwoBytes(crc: bv16, d: bv8, e: bv8)
    ensures Step(Step(crc, d), e) == Xor(Finish(crc), Xor(High(d), Low(e)))
  {
    hide Step, Xor, High, Low;
    StepData(crc, d);
    StepLow(Step(crc, 0), d, e);
    StepData(Step(crc, 0), e);
    XorAssoc(Finish(crc), Low(e), High(d));
    XorComm(Low(e), High(d));
  }

  lemma SelfCancels(c: bv16)
    ensures Xor(c, Xor(High((c >> 8) as bv8), Low((c & 0xff) as bv8))) == 0
  {
  }

  function BigEndian(c: bv16): seq<bv8> { [(c >> 8) as bv8, (c & 0xff) as bv8] }

  lemma PartialTwo(c: bv16, d: bv8, e: bv8)
    ensures Partial(c, [d, e]) == Step(Step(c, d), e)
  {
    hide Step;
    assert [d, e][..1] == [d] && [d][..0] == [];
    assert Partial(c, [d]) == Step(c, d);
  }

  lemma ZeroStays()
    ensures Finish(0) == 0
  {
  }

  /** A message followed by its big-endian CRC has CRC zero. */
  lemma Residue(data: seq<bv8>)
    ensures Block(data + BigEndian(Block(data))) == 0
  {
    hide Step, CrcTab, Xor, High, Low;
    var s, c := Partial(0xffff, data), Block(data);
    var d, e := (c >> 8) as bv8, (c & 0xff) as bv8;
    Chunks(0xffff, data, [d, e]);
    PartialTwo(s, d, e);
    TwoBytes(s, d, e);
    SelfCancels(c);
    ZeroStays();
  }

  // ---- error detection ----

  /** The low byte of a table entry in closed form. */
  function LowForm(i: bv8): bv8 {
    var t := i ^ (i >> 4);
    t ^ (t << 5)
  }

  lemma TableLow(i: bv8)
    ensures CrcTab(i) & 0xff == Low(LowForm(i))
  {
  }

  lemma LowFormInjective(i: bv8, j: bv8)
    requires LowForm(i) == LowForm(j)
    ensures i == j
  {
  }

  lemma LowOfStep(crc: bv16, d: bv8)
    ensures Step(crc, d) & 0xff == Xor(Low(LowForm((crc >> 8) as bv8)), Low(d))
  {
    hide CrcTab, LowForm;
    TableLow((crc >> 8) as bv8);
  }

  lemma CancelLow(a: bv8, b: bv8, d: bv16)
    requires Xor(Low(a), d) == Xor(Low(b), d)
    ensures a == b
  {
  }

  lemma CancelXor(a: bv16, b: bv16, t: bv16)
    requires Xor(t, a) == Xor(t, b)
    ensures a == b
  {
  }

  lemma FromHalves(a: bv16, b: bv16, d: bv8)
    requires a >> 8 == b >> 8 && Xor(a << 8, Low(d)) == Xor(b << 8, Low(d))
    ensures a == b
  {
  }

  /** A step never merges two states: its input can be recovered. */
  lemma StepInjective(a: bv16, b: bv16, d: bv8)
    requires Step(a, d) == Step(b, d)
    ensures a == b
  {
    hide Step, CrcTab, LowForm, Xor, Low;
    LowOfStep(a, d);
    LowOfStep(b, d);
    CancelLow(LowForm((a >> 8) as bv8), LowForm((b >> 8) as bv8), Low(d));
    LowFormInjective((a >> 8) as bv8, (b >> 8) as bv8);
    TopHalf(a, b);
    StepForm(a, d);
    StepForm(b, d);
    CancelXor(Xor(a << 8, Low(d)), Xor(b << 8, Low(d)), CrcTab((a >> 8) as bv8));
    FromHalves(a, b, d);
  }

  lemma TopHalf(a: bv16, b: bv16)
    requires (a >> 8) as bv8 == (b >> 8) as bv8
    ensures a >> 8 == b >> 8
  {
  }

  lemma {:induction false} PartialInjective(a: bv16, b: bv16, data: seq<bv8>)
    requires a != b
    ensures Partial(a, data) != Partial(b, data)
  {
    hide Step;
    if data != [] {
      var init, last := data[..|data| - 1], data[|data| - 1];
      PartialInjective(a, b, init);
      if Step(Partial(a, init), last) == Step(Partial(b, init), last) {
        StepInjective(Partial(a, init), Partial(b, init), last);
      }
    }
  }

  lemma DifferentPairs(d: bv8, e: bv8, f: bv8, g: bv8)
    requires Xor(High(d), Low(e)) == Xor(High(f), Low(g))
    ensures d == f && e == g
  {
  }

  /** Every error confined to two adjacent bytes changes the CRC, wherever it sits and whatever surrounds it. */
  lemma BurstsDetected(a: seq<bv8>, d: bv8, e: bv8, f: bv8, g: bv8, b: seq<bv8>)
    requires d != f || e != g
    ensures Block(a + [d, e] + b) != Block(a + [f, g] + b)
  {
    hide Step, CrcTab, Xor, High, Low;
    var s := Partial(0xffff, a);
    Chunks(0xffff, a + [d, e], b);
    Chunks(0xffff, a, [d, e]);
    Chunks(0xffff, a + [f, g], b);
    Chunks(0xffff, a, [f, g]);
    PairsApart(s, d, e, f, g);
    var x, y := Partial(s, [d, e]), Partial(s, [f, g]);
    PartialInjective(x, y, b);
    FinishInjective(Partial(x, b), Partial(y, b));
  }

  lemma PairsApart(s: bv16, d: bv8, e: bv8, f: bv8, g: bv8)
    requires d != f || e != g
    ensures Partial(s, [d, e]) != Partial(s, [f, g])
  {
    hide Step, CrcTab, High, Low, Xor, Partial, Finish;
    PartialTwo(s, d, e);
    PartialTwo(s, f, g);
    TwoBytes(s, d, e);
    TwoBytes(s, f, g);
    if Partial(s, [d, e]) == Partial(s, [f, g]) {
      CancelXor(Xor(High(d), Low(e)), Xor(High(f), Low(g)), Finish(s));
      DifferentPairs(d, e, f, g);
    }
  }

  lemma FinishInjective(a: bv16, b: bv16)
    requires a != b
    ensures Finish(a) != Finish(b)
  {
    hide Step;
    if Step(a, 0) == Step(b, 0) {
      StepInjective(a, b, 0);
    }
    if Step(Step(a, 0), 0) == Step(Step(b, 0), 0) {
      StepInjective(Step(a, 0), Step(b, 0), 0);
    }
  }
}
