/** The RTU checksum: the two lookup tables of modbus-rtu.c against the bit-serial CRC they stand for. */
module Crc16 {
  import opened Bytes

  // ---------- The definition: one message bit at a time ----------

  /** One shift of the 16-bit register with the reflected polynomial 0xA001. */
  function BitStep(c: bv16): bv16 {
    if c & 1 == 1 then (c >> 1) ^ 0xA001 else c >> 1
  }

  function Xor(a: bv16, b: bv16): bv16 { a ^ b }

  function Feed(c: bv16, bit: bool): bv16 { BitStep(Xor(c, if bit then 1 else 0)) }

  /** The register after feeding message bits one by one. */
  function Serial(c: bv16, bits: seq<bool>): bv16
    decreases |bits|
  {
    if bits == [] then c else Serial(Feed(c, bits[0]), bits[1..])
  }

  predicate LowBit(v: bv16) { v & 1 == 1 }

  function Down(v: bv16): bv16 { v >> 1 }

  /** The low n bits of v, least significant first. */
  function LowBits(n: nat, v: bv16): (bits: seq<bool>)
    ensures |bits| == n
  {
    if n == 0 then [] else [LowBit(v)] + LowBits(n - 1, Down(v))
  }

  /** v has no bit set from position n on. */
  predicate Fits(n: nat, v: bv16) {
    if n == 0 then v == 0 else Fits(n - 1, Down(v))
  }

  function Wide(b: byte): bv16 { ToBv8(b) as bv16 }

  /** The bits of a byte in the order they are sent: least significant first. */
  function ByteBits(b: byte): (bits: seq<bool>)
    ensures |bits| == 8
  {
    LowBits(8, Wide(b))
  }

  function Bits(msg: seq<byte>): (bits: seq<bool>)
    ensures |bits| == 8 * |msg|
  {
    if msg == [] then [] else ByteBits(msg[0]) + Bits(msg[1..])
  }

  /** The register after a whole message, from the initial value 0xFFFF. */
  function Register(msg: seq<byte>): bv16 { Serial(0xFFFF, Bits(msg)) }

  function LowByte(c: bv16): byte { FromBv8((c & 0xFF) as bv8) }

  function HighByte(c: bv16): byte { FromBv8((c >> 8) as bv8) }

  /** The two bytes that end an RTU frame: low byte of the register first. */
  function CrcBytes(msg: seq<byte>): (bs: seq<byte>)
    ensures |bs| == 2
  {
    [LowByte(Register(msg)), HighByte(Register(msg))]
  }

  // ---------- The implementation: one table lookup per byte ----------

  /** The values of table_crc_hi, sixteen to a row. */
  const TABLE_CRC_HI: seq<seq<bv8>> := [
    [0x00, 0xC1, 0x81, 0x40, 0x01, 0xC0, 0x80, 0x41, 0x01, 0xC0, 0x80, 0x41, 0x00, 0xC1, 0x81, 0x40],
    [0x01, 0xC0, 0x80, 0x41, 0x00, 0xC1, 0x81, 0x40, 0x00, 0xC1, 0x81, 0x40, 0x01, 0xC0, 0x80, 0x41],
    [0x01, 0xC0, 0x80, 0x41, 0x00, 0xC1, 0x81, 0x40, 0x00, 0xC1, 0x81, 0x40, 0x01, 0xC0, 0x80, 0x41],
    [0x00, 0xC1, 0x81, 0x40, 0x01, 0xC0, 0x80, 0x41, 0x01, 0xC0, 0x80, 0x41, 0x00, 0xC1, 0x81, 0x40],
    [0x01, 0xC0, 0x80, 0x41, 0x00, 0xC1, 0x81, 0x40, 0x00, 0xC1, 0x81, 0x40, 0x01, 0xC0, 0x80, 0x41],
    [0x00, 0xC1, 0x81, 0x40, 0x01, 0xC0, 0x80, 0x41, 0x01, 0xC0, 0x80, 0x41, 0x00, 0xC1, 0x81, 0x40],
    [0x00, 0xC1, 0x81, 0x40, 0x01, 0xC0, 0x80, 0x41, 0x01, 0xC0, 0x80, 0x41, 0x00, 0xC1, 0x81, 0x40],
    [0x01, 0xC0, 0x80, 0x41, 0x00, 0xC1, 0x81, 0x40, 0x00, 0xC1, 0x81, 0x40, 0x01, 0xC0, 0x80, 0x41],
    [0x01, 0xC0, 0x80, 0x41, 0x00, 0xC1, 0x81, 0x40, 0x00, 0xC1, 0x81, 0x40, 0x01, 0xC0, 0x80, 0x41],
    [0x00, 0xC1, 0x81, 0x40, 0x01, 0xC0, 0x80, 0x41, 0x01, 0xC0, 0x80, 0x41, 0x00, 0xC1, 0x81, 0x40],
    [0x00, 0xC1, 0x81, 0x40, 0x01, 0xC0, 0x80, 0x41, 0x01, 0xC0, 0x80, 0x41, 0x00, 0xC1, 0x81, 0x40],
    [0x01, 0xC0, 0x80, 0x41, 0x00, 0xC1, 0x81, 0x40, 0x00, 0xC1, 0x81, 0x40, 0x01, 0xC0, 0x80, 0x41],
    [0x00, 0xC1, 0x81, 0x40, 0x01, 0xC0, 0x80, 0x41, 0x01, 0xC0, 0x80, 0x41, 0x00, 0xC1, 0x81, 0x40],
    [0x01, 0xC0, 0x80, 0x41, 0x00, 0xC1, 0x81, 0x40, 0x00, 0xC1, 0x81, 0x40, 0x01, 0xC0, 0x80, 0x41],
    [0x01, 0xC0, 0x80, 0x41, 0x00, 0xC1, 0x81, 0x40, 0x00, 0xC1, 0x81, 0x40, 0x01, 0xC0, 0x80, 0x41],
    [0x00, 0xC1, 0x81, 0x40, 0x01, 0xC0, 0x80, 0x41, 0x01, 0xC0, 0x80, 0x41, 0x00, 0xC1, 0x81, 0x40]
  ]

  /** The values of table_crc_lo, sixteen to a row. */
  const TABLE_CRC_LO: seq<seq<bv8>> := [
    [0x00, 0xC0, 0xC1, 0x01, 0xC3, 0x03, 0x02, 0xC2, 0xC6, 0x06, 0x07, 0xC7, 0x05, 0xC5, 0xC4, 0x04],
    [0xCC, 0x0C, 0x0D, 0xCD, 0x0F, 0xCF, 0xCE, 0x0E, 0x0A, 0xCA, 0xCB, 0x0B, 0xC9, 0x09, 0x08, 0xC8],
    [0xD8, 0x18, 0x19, 0xD9, 0x1B, 0xDB, 0xDA, 0x1A, 0x1E, 0xDE, 0xDF, 0x1F, 0xDD, 0x1D, 0x1C, 0xDC],
    [0x14, 0xD4, 0xD5, 0x15, 0xD7, 0x17, 0x16, 0xD6, 0xD2, 0x12, 0x13, 0xD3, 0x11, 0xD1, 0xD0, 0x10],
    [0xF0, 0x30, 0x31, 0xF1, 0x33, 0xF3, 0xF2, 0x32, 0x36, 0xF6, 0xF7, 0x37, 0xF5, 0x35, 0x34, 0xF4],
    [0x3C, 0xFC, 0xFD, 0x3D, 0xFF, 0x3F, 0x3E, 0xFE, 0xFA, 0x3A, 0x3B, 0xFB, 0x39, 0xF9, 0xF8, 0x38],
    [0x28, 0xE8, 0xE9, 0x29, 0xEB, 0x2B, 0x2A, 0xEA, 0xEE, 0x2E, 0x2F, 0xEF, 0x2D, 0xED, 0xEC, 0x2C],
    [0xE4, 0x24, 0x25, 0xE5, 0x27, 0xE7, 0xE6, 0x26, 0x22, 0xE2, 0xE3, 0x23, 0xE1, 0x21, 0x20, 0xE0],
    [0xA0, 0x60, 0x61, 0xA1, 0x63, 0xA3, 0xA2, 0x62, 0x66, 0xA6, 0xA7, 0x67, 0xA5, 0x65, 0x64, 0xA4],
    [0x6C, 0xAC, 0xAD, 0x6D, 0xAF, 0x6F, 0x6E, 0xAE, 0xAA, 0x6A, 0x6B, 0xAB, 0x69, 0xA9, 0xA8, 0x68],
    [0x78, 0xB8, 0xB9, 0x79, 0xBB, 0x7B, 0x7A, 0xBA, 0xBE, 0x7E, 0x7F, 0xBF, 0x7D, 0xBD, 0xBC, 0x7C],
    [0xB4, 0x74, 0x75, 0xB5, 0x77, 0xB7, 0xB6, 0x76, 0x72, 0xB2, 0xB3, 0x73, 0xB1, 0x71, 0x70, 0xB0],
    [0x50, 0x90, 0x91, 0x51, 0x93, 0x53, 0x52, 0x92, 0x96, 0x56, 0x57, 0x97, 0x55, 0x95, 0x94, 0x54],
    [0x9C, 0x5C, 0x5D, 0x9D, 0x5F, 0x9F, 0x9E, 0x5E, 0x5A, 0x9A, 0x9B, 0x5B, 0x99, 0x59, 0x58, 0x98],
    [0x88, 0x48, 0x49, 0x89, 0x4B, 0x8B, 0x8A, 0x4A, 0x4E, 0x8E, 0x8F, 0x4F, 0x8D, 0x4D, 0x4C, 0x8C],
    [0x44, 0x84, 0x85, 0x45, 0x87, 0x47, 0x46, 0x86, 0x82, 0x42, 0x43, 0x83, 0x41, 0x81, 0x80, 0x40]
  ]

  function TableHi(i: bv8): bv8 { TABLE_CRC_HI[(i >> 4) as int][(i & 0xF) as int] }

  function TableLo(i: bv8): bv8 { TABLE_CRC_LO[(i >> 4) as int][(i & 0xF) as int] }

  /** The register that the pair (crc_hi, crc_lo) stands for: crc_hi is its LOW byte. */
  function Pair(hi: bv8, lo: bv8): bv16 { ((lo as bv16) << 8) | (hi as bv16) }

  method Crc16(buffer: array<byte>, length: nat) returns (crc: word)
    requires length <= buffer.Length && length < 0x1_0000
    ensures [Hi(crc), Lo(crc)] == CrcBytes(buffer[..length])
  {
    hide *;
    var hi: bv8, lo: bv8 := 0xFF, 0xFF;
    var n := 0;
    InitialPair(buffer[..length]);
    assert buffer[0..length] == buffer[..length];
    while n < length
      invariant 0 <= n <= length
      invariant Serial(Pair(hi, lo), Bits(buffer[n..length])) == Register(buffer[..length])
    {
      ghost var rest := buffer[n..length];
      SerialByte(Pair(hi, lo), rest);
      TableStep(hi, lo, buffer[n]);
      assert rest[1..] == buffer[n + 1..length];
      var i := hi ^ ToBv8(buffer[n]);
      hi, lo := lo ^ TableHi(i), TableLo(i);
      n := n + 1;
    }
    assert buffer[length..length] == [];
    SerialNothing(Pair(hi, lo));
    CrcOfPair(hi, lo, buffer[..length]);
    HalvesOfWord(FromBv8(hi), FromBv8(lo));
    crc := Word(FromBv8(hi), FromBv8(lo));
  }

  lemma SerialNothing(c: bv16)
    ensures Serial(c, Bits([])) == c
  {
  }

  lemma InitialPair(msg: seq<byte>)
    ensures Serial(Pair(0xFF, 0xFF), Bits(msg)) == Register(msg)
  {
  }

  lemma CrcOfPair(hi: bv8, lo: bv8, msg: seq<byte>)
    requires Pair(hi, lo) == Register(msg)
    ensures CrcBytes(msg) == [FromBv8(hi), FromBv8(lo)]
  {
    PairBytes(hi, lo);
    hide Pair, Register, FromBv8, LowByte, HighByte;
  }

  lemma PairBytes(hi: bv8, lo: bv8)
    ensures LowByte(Pair(hi, lo)) == FromBv8(hi) && HighByte(Pair(hi, lo)) == FromBv8(lo)
  {
    assert (Pair(hi, lo) & 0xFF) as bv8 == hi;
    assert (Pair(hi, lo) >> 8) as bv8 == lo;
  }

  // ---------- Eight bit steps are one table step ----------

  /** n shifts without input. */
  function Steps(n: nat, c: bv16): bv16 {
    if n == 0 then c else Steps(n - 1, BitStep(c))
  }

  function Steps8(c: bv16): bv16 {
    BitStep(BitStep(BitStep(BitStep(BitStep(BitStep(BitStep(BitStep(c))))))))
  }

  /** The register after one byte of input. */
  function FeedByte(c: bv16, b: byte): bv16 { Steps8(Xor(c, Wide(b))) }

  lemma StepsEight(c: bv16)
    ensures Steps(8, c) == Steps8(c)
  {
    hide BitStep;
    var c2 := BitStep(BitStep(c));
    var c4 := BitStep(BitStep(c2));
    var c6 := BitStep(BitStep(c4));
    StepsTwo(6, c);
    StepsTwo(4, c2);
    StepsTwo(2, c4);
    StepsTwo(0, c6);
  }

  lemma StepsTwo(n: nat, c: bv16)
    ensures Steps(n + 2, c) == Steps(n, BitStep(BitStep(c)))
  {
    hide BitStep;
  }

  lemma BitStepLinear(a: bv16, b: bv16)
    ensures BitStep(Xor(a, b)) == Xor(BitStep(a), BitStep(b))
  {
    BitStepOfXor(a, b);
    hide BitStep;
  }

  lemma BitStepOfXor(a: bv16, b: bv16)
    ensures BitStep(a ^ b) == BitStep(a) ^ BitStep(b)
  {
    if a & 1 == 1 { if b & 1 == 1 {} else {} } else { if b & 1 == 1 {} else {} }
  }

  lemma {:induction false} StepsLinear(n: nat, a: bv16, b: bv16)
    ensures Steps(n, Xor(a, b)) == Xor(Steps(n, a), Steps(n, b))
    decreases n
  {
    hide BitStep, Xor;
    if n > 0 {
      BitStepLinear(a, b);
      StepsLinear(n - 1, BitStep(a), BitStep(b));
    }
  }

  /** Feeding a bit now is shifting a register that holds it at the bottom; what is above waits one place. */
  lemma BitStepFeeds(c: bv16, v: bv16)
    ensures BitStep(Xor(c, v)) == Xor(Feed(c, LowBit(v)), Down(v))
  {
    SplitLowBit(c, v);
    BitStepLinear(Xor(c, if LowBit(v) then 1 else 0), v & 0xFFFE);
    hide BitStep, Xor, LowBit, Down;
  }

  lemma SplitLowBit(c: bv16, v: bv16)
    ensures Xor(c, v) == Xor(Xor(c, if LowBit(v) then 1 else 0), v & 0xFFFE)
    ensures BitStep(v & 0xFFFE) == Down(v)
  {
    SplitTerms(c, v);
    assert v & 1 == if LowBit(v) then 1 else 0;
  }

  lemma SplitTerms(c: bv16, v: bv16)
    ensures c ^ v == (c ^ (v & 1)) ^ (v & 0xFFFE)
  {
  }

  lemma XorZero(c: bv16)
    ensures Xor(c, 0) == c
  {
  }

  /** Feeding the low n bits of v one by one is one exclusive-or and n shifts. */
  lemma {:induction false} SerialIsSteps(n: nat, c: bv16, v: bv16)
    requires Fits(n, v)
    ensures Serial(c, LowBits(n, v)) == Steps(n, Xor(c, v))
    decreases n
  {
    hide BitStep, Feed, Xor, LowBit, Down;
    if n > 0 {
      BitStepFeeds(c, v);
      SerialIsSteps(n - 1, Feed(c, LowBit(v)), Down(v));
      assert LowBits(n, v)[1..] == LowBits(n - 1, Down(v));
    } else {
      XorZero(c);
    }
  }

  lemma {:induction false} SerialAppend(c: bv16, a: seq<bool>, b: seq<bool>)
    ensures Serial(c, a + b) == Serial(Serial(c, a), b)
    decreases |a|
  {
    hide Feed;
    if a == [] {
      assert a + b == b;
    } else {
      assert (a + b)[1..] == a[1..] + b;
      SerialAppend(Feed(c, a[0]), a[1..], b);
    }
  }

  lemma SerialByte(c: bv16, msg: seq<byte>)
    requires msg != []
    ensures Serial(c, Bits(msg)) == Serial(FeedByte(c, msg[0]), Bits(msg[1..]))
  {
    hide Steps8, Feed, Wide, Xor;
    SerialAppend(c, ByteBits(msg[0]), Bits(msg[1..]));
    WideFits(msg[0]);
    SerialIsSteps(8, c, Wide(msg[0]));
    StepsEight(Xor(c, Wide(msg[0])));
  }

  lemma WideFits(b: byte)
    ensures Fits(8, Wide(b))
  {
    FitsEight(ToBv8(b) as bv16);
  }

  lemma FitsTwo(n: nat, v: bv16)
    ensures Fits(n + 2, v) == Fits(n, Down(Down(v)))
  {
  }

  lemma FitsEight(v: bv16)
    requires v < 0x100
    ensures Fits(8, v)
  {
    var v2 := Down(Down(v));
    var v4 := Down(Down(v2));
    var v6 := Down(Down(v4));
    assert Down(Down(v6)) == 0;
    hide Down;
    FitsTwo(6, v);
    FitsTwo(4, v2);
    FitsTwo(2, v4);
    FitsTwo(0, v6);
  }

  // The shifts are linear, so 32 of the 256 entries of a table, those of its first row and of its first
  // column, determine the others.

  /** A row of a table with a value added to each entry. */
  function Shifted(row: seq<bv8>, x: bv8): (r: seq<bv8>)
    ensures |r| == |row|
  {
    seq(|row|, k requires 0 <= k < |row| => row[k] ^ x)
  }

  /** Row h of both tables is the first row plus the bytes of the register that h, as high digit, leads to. */
  predicate RowRight(h: bv8, hi: bv8, lo: bv8)
    requires h < 0x10
  {
    && Pair(hi, lo) == Steps8((h << 4) as bv16)
    && TABLE_CRC_HI[h as int] == Shifted(TABLE_CRC_HI[0], hi)
    && TABLE_CRC_LO[h as int] == Shifted(TABLE_CRC_LO[0], lo)
  }

  /** Entry l of the first row of both tables: the bytes of the register that l leads to. */
  predicate FirstRight(l: bv8, hi: bv8, lo: bv8)
    requires l < 0x10
  {
    && Pair(hi, lo) == Steps8(l as bv16)
    && TABLE_CRC_HI[0][l as int] == hi
    && TABLE_CRC_LO[0][l as int] == lo
  }

  lemma Row0() ensures RowRight(0x0, 0x00, 0x00) {}
  lemma Row1() ensures RowRight(0x1, 0x01, 0xCC) {}
  lemma Row2() ensures RowRight(0x2, 0x01, 0xD8) {}
  lemma Row3() ensures RowRight(0x3, 0x00, 0x14) {}
  lemma Row4() ensures RowRight(0x4, 0x01, 0xF0) {}
  lemma Row5() ensures RowRight(0x5, 0x00, 0x3C) {}
  lemma Row6() ensures RowRight(0x6, 0x00, 0x28) {}
  lemma Row7() ensures RowRight(0x7, 0x01, 0xE4) {}
  lemma Row8() ensures RowRight(0x8, 0x01, 0xA0) {}
  lemma Row9() ensures RowRight(0x9, 0x00, 0x6C) {}
  lemma RowA() ensures RowRight(0xA, 0x00, 0x78) {}
  lemma RowB() ensures RowRight(0xB, 0x01, 0xB4) {}
  lemma RowC() ensures RowRight(0xC, 0x00, 0x50) {}
  lemma RowD() ensures RowRight(0xD, 0x01, 0x9C) {}
  lemma RowE() ensures RowRight(0xE, 0x01, 0x88) {}
  lemma RowF() ensures RowRight(0xF, 0x00, 0x44) {}

  lemma First0() ensures FirstRight(0x0, 0x00, 0x00) {}
  lemma First1() ensures FirstRight(0x1, 0xC1, 0xC0) {}
  lemma First2() ensures FirstRight(0x2, 0x81, 0xC1) {}
  lemma First3() ensures FirstRight(0x3, 0x40, 0x01) {}
  lemma First4() ensures FirstRight(0x4, 0x01, 0xC3) {}
  lemma First5() ensures FirstRight(0x5, 0xC0, 0x03) {}
  lemma First6() ensures FirstRight(0x6, 0x80, 0x02) {}
  lemma First7() ensures FirstRight(0x7, 0x41, 0xC2) {}
  lemma First8() ensures FirstRight(0x8, 0x01, 0xC6) {}
  lemma First9() ensures FirstRight(0x9, 0xC0, 0x06) {}
  lemma FirstA() ensures FirstRight(0xA, 0x80, 0x07) {}
  lemma FirstB() ensures FirstRight(0xB, 0x41, 0xC7) {}
  lemma FirstC() ensures FirstRight(0xC, 0x00, 0x05) {}
  lemma FirstD() ensures FirstRight(0xD, 0xC1, 0xC5) {}
  lemma FirstE() ensures FirstRight(0xE, 0x81, 0xC4) {}
  lemma FirstF() ensures FirstRight(0xF, 0x40, 0x04) {}

  lemma RowOf(h: bv8) returns (hi: bv8, lo: bv8)
    requires h < 0x10
    ensures RowRight(h, hi, lo)
  {
    hide *;
    if h == 0x0 { Row0(); hi, lo := 0x00, 0x00; }
    else if h == 0x1 { Row1(); hi, lo := 0x01, 0xCC; }
    else if h == 0x2 { Row2(); hi, lo := 0x01, 0xD8; }
    else if h == 0x3 { Row3(); hi, lo := 0x00, 0x14; }
    else if h == 0x4 { Row4(); hi, lo := 0x01, 0xF0; }
    else if h == 0x5 { Row5(); hi, lo := 0x00, 0x3C; }
    else if h == 0x6 { Row6(); hi, lo := 0x00, 0x28; }
    else if h == 0x7 { Row7(); hi, lo := 0x01, 0xE4; }
    else if h == 0x8 { Row8(); hi, lo := 0x01, 0xA0; }
    else if h == 0x9 { Row9(); hi, lo := 0x00, 0x6C; }
    else if h == 0xA { RowA(); hi, lo := 0x00, 0x78; }
    else if h == 0xB { RowB(); hi, lo := 0x01, 0xB4; }
    else if h == 0xC { RowC(); hi, lo := 0x00, 0x50; }
    else if h == 0xD { RowD(); hi, lo := 0x01, 0x9C; }
    else if h == 0xE { RowE(); hi, lo := 0x01, 0x88; }
    else if h == 0xF { RowF(); hi, lo := 0x00, 0x44; }
  }

  lemma FirstOf(l: bv8) returns (hi: bv8, lo: bv8)
    requires l < 0x10
    ensures FirstRight(l, hi, lo)
  {
    hide *;
    if l == 0x0 { First0(); hi, lo := 0x00, 0x00; }
    else if l == 0x1 { First1(); hi, lo := 0xC1, 0xC0; }
    else if l == 0x2 { First2(); hi, lo := 0x81, 0xC1; }
    else if l == 0x3 { First3(); hi, lo := 0x40, 0x01; }
    else if l == 0x4 { First4(); hi, lo := 0x01, 0xC3; }
    else if l == 0x5 { First5(); hi, lo := 0xC0, 0x03; }
    else if l == 0x6 { First6(); hi, lo := 0x80, 0x02; }
    else if l == 0x7 { First7(); hi, lo := 0x41, 0xC2; }
    else if l == 0x8 { First8(); hi, lo := 0x01, 0xC6; }
    else if l == 0x9 { First9(); hi, lo := 0xC0, 0x06; }
    else if l == 0xA { FirstA(); hi, lo := 0x80, 0x07; }
    else if l == 0xB { FirstB(); hi, lo := 0x41, 0xC7; }
    else if l == 0xC { FirstC(); hi, lo := 0x00, 0x05; }
    else if l == 0xD { FirstD(); hi, lo := 0xC1, 0xC5; }
    else if l == 0xE { FirstE(); hi, lo := 0x81, 0xC4; }
    else if l == 0xF { FirstF(); hi, lo := 0x40, 0x04; }
  }

  lemma TableEntry(i: bv8)
    ensures Pair(TableHi(i), TableLo(i)) == Steps8(i as bv16)
  {
    hide *;
    var h, l := i >> 4, i & 0xF;
    DigitsSplit(i);
    var hi, lo := RowOf(h);
    var hi', lo' := FirstOf(l);
    EntryOf(i, hi, lo, hi', lo');
    Steps8Linear((h << 4) as bv16, l as bv16);
    PairsXor(hi, lo, hi', lo');
  }

  lemma EntryOf(i: bv8, hi: bv8, lo: bv8, hi': bv8, lo': bv8)
    requires i >> 4 < 0x10 && RowRight(i >> 4, hi, lo) && FirstRight(i & 0xF, hi', lo')
    ensures TableHi(i) == hi' ^ hi && TableLo(i) == lo' ^ lo
    ensures Pair(hi, lo) == Steps8(((i >> 4) << 4) as bv16) && Pair(hi', lo') == Steps8((i & 0xF) as bv16)
  {
    hide Pair, Steps8, TABLE_CRC_HI, TABLE_CRC_LO;
    FirstRowLength();
    DigitBound(i & 0xF);
  }

  lemma FirstRowLength()
    ensures 0 < |TABLE_CRC_HI| && |TABLE_CRC_HI[0]| == 16
    ensures 0 < |TABLE_CRC_LO| && |TABLE_CRC_LO[0]| == 16
  {
  }

  lemma DigitBound(l: bv8)
    requires l < 0x10
    ensures 0 <= l as int < 16
  {
  }

  lemma Steps8Linear(a: bv16, b: bv16)
    ensures Steps8(Xor(a, b)) == Xor(Steps8(a), Steps8(b))
  {
    hide BitStep, Xor, Steps, Steps8;
    StepsLinear(8, a, b);
    StepsEight(a);
    StepsEight(b);
    StepsEight(Xor(a, b));
  }

  lemma DigitsSplit(i: bv8)
    ensures i >> 4 < 0x10 && i & 0xF < 0x10
    ensures i as bv16 == Xor(((i >> 4) << 4) as bv16, (i & 0xF) as bv16)
  {
  }

  lemma PairsXor(a: bv8, b: bv8, c: bv8, d: bv8)
    ensures Pair(c ^ a, d ^ b) == Xor(Pair(a, b), Pair(c, d))
  {
  }

  /** The high half of the register only moves down while the low half is used up. */
  lemma Steps8Split(x: bv16)
    ensures Steps8(x) == Xor(Steps8(x & 0xFF), x >> 8)
  {
    SplitHalves(x);
    Steps8Linear(x & 0xFF, x & 0xFF00);
    hide BitStep, Xor, Steps8;
  }

  lemma SplitHalves(x: bv16)
    ensures Xor(x & 0xFF, x & 0xFF00) == x
    ensures Steps8(x & 0xFF00) == x >> 8
  {
  }

  /** One turn of the loop of crc16. */
  lemma TableStep(hi: bv8, lo: bv8, b: byte)
    ensures var i := hi ^ ToBv8(b);
            Pair(lo ^ TableHi(i), TableLo(i)) == FeedByte(Pair(hi, lo), b)
  {
    TableTurn(hi, lo, ToBv8(b));
    hide TableHi, TableLo, Steps8, Pair, Xor, ToBv8;
  }

  lemma TableTurn(hi: bv8, lo: bv8, v: bv8)
    ensures Pair(lo ^ TableHi(hi ^ v), TableLo(hi ^ v)) == Steps8(Xor(Pair(hi, lo), v as bv16))
  {
    hide TableHi, TableLo, Steps8, Pair, Xor;
    PairInput(hi, lo, v);
    Steps8Split(Xor(Pair(hi, lo), v as bv16));
    TableEntry(hi ^ v);
    PairXor(TableHi(hi ^ v), TableLo(hi ^ v), lo);
  }

  lemma PairInput(hi: bv8, lo: bv8, b: bv8)
    ensures Xor(Pair(hi, lo), b as bv16) & 0xFF == (hi ^ b) as bv16
    ensures Xor(Pair(hi, lo), b as bv16) >> 8 == lo as bv16
  {
  }

  lemma PairXor(hi: bv8, lo: bv8, d: bv8)
    ensures Pair(d ^ hi, lo) == Xor(Pair(hi, lo), d as bv16)
  {
  }
}
