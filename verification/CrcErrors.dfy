/** What the RTU checksum detects: every burst of up to 16 bits and every odd number of flipped bits. */
module CrcErrors {
  import opened Bytes
  import opened Crc16
  import opened Backends

  // ---------- Error patterns ----------

  function XorByte(a: byte, e: byte): byte { FromBv8(ToBv8(a) ^ ToBv8(e)) }

  /** A frame in which the bits set in e have been flipped. */
  function Corrupt(frame: seq<byte>, e: seq<byte>): (f: seq<byte>)
    requires |e| == |frame|
    ensures |f| == |frame|
  {
    seq(|frame|, i requires 0 <= i < |frame| => XorByte(frame[i], e[i]))
  }

  /** There is a set bit, and all set bits lie within the n positions from lo. */
  predicate BurstAt(bits: seq<bool>, lo: nat, n: nat) {
    && lo + n <= |bits|
    && true in bits[lo..lo + n]
    && true !in bits[..lo]
    && true !in bits[lo + n..]
  }

  ghost predicate Burst(bits: seq<bool>, n: nat) {
    exists lo: nat :: BurstAt(bits, lo, n)
  }

  function Count(bits: seq<bool>): nat {
    if bits == [] then 0 else (if bits[0] then 1 else 0) + Count(bits[1..])
  }

  // ---------- The register is linear ----------

  function XorBits(a: seq<bool>, b: seq<bool>): (x: seq<bool>)
    requires |a| == |b|
    ensures |x| == |a|
  {
    seq(|a|, i requires 0 <= i < |a| => a[i] != b[i])
  }

  lemma FeedXor(c: bv16, d: bv16, x: bool, y: bool)
    ensures Feed(Xor(c, d), x != y) == Xor(Feed(c, x), Feed(d, y))
  {
    var u: bv16, v: bv16 := if x then 1 else 0, if y then 1 else 0;
    assert Xor(u, v) == if x != y then 1 else 0;
    hide BitStep, Xor;
    XorExchange(c, d, u, v);
    BitStepLinear(Xor(c, u), Xor(d, v));
  }

  lemma XorExchange(a: bv16, b: bv16, c: bv16, d: bv16)
    ensures Xor(Xor(a, c), Xor(b, d)) == Xor(Xor(a, b), Xor(c, d))
  {
    hide Xor;
    XorAssociates(Xor(a, c), b, d);
    XorAssociates(a, c, b);
    XorCommutes(c, b);
    XorAssociates(a, b, c);
    XorAssociates(Xor(a, b), c, d);
  }

  lemma XorAssociates(a: bv16, b: bv16, c: bv16)
    ensures Xor(Xor(a, b), c) == Xor(a, Xor(b, c))
  {
  }

  lemma XorCommutes(a: bv16, b: bv16)
    ensures Xor(a, b) == Xor(b, a)
  {
  }

  lemma {:induction false} SerialXor(c: bv16, d: bv16, a: seq<bool>, b: seq<bool>)
    requires |a| == |b|
    ensures Serial(Xor(c, d), XorBits(a, b)) == Xor(Serial(c, a), Serial(d, b))
    decreases |a|
  {
    hide Xor, Feed;
    if a != [] {
      FeedXor(c, d, a[0], b[0]);
      assert XorBits(a, b)[1..] == XorBits(a[1..], b[1..]);
      SerialXor(Feed(c, a[0]), Feed(d, b[0]), a[1..], b[1..]);
    }
  }

  lemma WideXor(a: byte, e: byte)
    ensures Wide(XorByte(a, e)) == Xor(Wide(a), Wide(e))
  {
    Bv8RoundTripBack(ToBv8(a) ^ ToBv8(e));
    hide ToBv8, FromBv8;
  }

  lemma {:induction false} LowBitsXor(n: nat, u: bv16, v: bv16)
    ensures LowBits(n, Xor(u, v)) == XorBits(LowBits(n, u), LowBits(n, v))
    decreases n
  {
    hide Xor, LowBit, Down;
    if n > 0 {
      DownXor(u, v);
      LowBitsXor(n - 1, Down(u), Down(v));
    }
  }

  lemma DownXor(u: bv16, v: bv16)
    ensures Down(Xor(u, v)) == Xor(Down(u), Down(v))
    ensures LowBit(Xor(u, v)) == (LowBit(u) != LowBit(v))
  {
    ShiftTerms(u, v);
  }

  lemma ShiftTerms(u: bv16, v: bv16)
    ensures (u ^ v) >> 1 == (u >> 1) ^ (v >> 1)
    ensures (u ^ v) & 1 == (u & 1) ^ (v & 1)
  {
  }

  lemma {:induction false} BitsOfCorrupt(frame: seq<byte>, e: seq<byte>)
    requires |e| == |frame|
    ensures Bits(Corrupt(frame, e)) == XorBits(Bits(frame), Bits(e))
    decreases |frame|
  {
    hide XorByte, Xor, Wide, LowBits;
    if frame != [] {
      WideXor(frame[0], e[0]);
      LowBitsXor(8, Wide(frame[0]), Wide(e[0]));
      assert Corrupt(frame, e)[1..] == Corrupt(frame[1..], e[1..]);
      BitsOfCorrupt(frame[1..], e[1..]);
    }
  }

  // ---------- A frame is valid exactly when its register ends at zero ----------

  lemma Steps8Zero(z: bv16)
    ensures Steps8(z) == 0 <==> z == 0
  {
    var z1 := BitStep(z);
    var z2 := BitStep(z1);
    var z3 := BitStep(z2);
    var z4 := BitStep(z3);
    var z5 := BitStep(z4);
    var z6 := BitStep(z5);
    var z7 := BitStep(z6);
    hide BitStep;
    BitStepZero(z);
    BitStepZero(z1);
    BitStepZero(z2);
    BitStepZero(z3);
    BitStepZero(z4);
    BitStepZero(z5);
    BitStepZero(z6);
    BitStepZero(z7);
  }

  lemma BitStepZero(z: bv16)
    ensures BitStep(z) == 0 <==> z == 0
  {
  }

  /** Eight shifts leave a value below 0x100 only if the low byte was zero. */
  lemma Steps8Small(z: bv16, b: bv16)
    requires b < 0x100
    ensures Steps8(z) == b <==> z == b << 8
  {
    Steps8Split(z);
    SmallOnlyZero(z & 0xFF);
    Steps8Zero(0);
    hide Steps8;
  }

  lemma SmallOnlyZero(i: bv16)
    requires i < 0x100
    ensures Steps8(i) < 0x100 <==> i == 0
  {
  }

  /** Two bytes bring the register to zero exactly when they are its low and its high byte. */
  lemma TwoBytesToZero(c: bv16, lo: byte, hi: byte)
    ensures Serial(c, Bits([lo, hi])) == 0 <==> LowByte(c) == lo && HighByte(c) == hi
  {
    hide *;
    assert [lo, hi][1..] == [hi] && [hi][1..] == [];
    SerialByte(c, [lo, hi]);
    SerialByte(FeedByte(c, lo), [hi]);
    SerialNothing(FeedByte(FeedByte(c, lo), hi));
    FeedTwoZero(c, lo, hi);
  }

  lemma FeedTwoZero(c: bv16, lo: byte, hi: byte)
    ensures FeedByte(FeedByte(c, lo), hi) == 0 <==> LowByte(c) == lo && HighByte(c) == hi
  {
    hide Steps8, Xor, LowByte, HighByte, Wide;
    var f := FeedByte(c, lo);
    Steps8Zero(Xor(f, Wide(hi)));
    XorIsZero(f, Wide(hi));
    WideIsSmall(hi);
    Steps8Small(Xor(c, Wide(lo)), Wide(hi));
    HalvesOfRegister(c, lo, hi);
  }

  lemma XorIsZero(a: bv16, b: bv16)
    ensures Xor(a, b) == 0 <==> a == b
  {
    hide Xor;
    XorTwice(a, b);
    XorTwice(0, b);
    XorCommutes(0, b);
    XorZero(b);
  }

  lemma HalvesOfRegister(c: bv16, lo: byte, hi: byte)
    ensures Xor(c, Wide(lo)) == Wide(hi) << 8 <==> LowByte(c) == lo && HighByte(c) == hi
  {
    hide ToBv8, FromBv8, LowByte, HighByte;
    HalvesOf(c, lo, hi);
    HalvesOfXor(c, ToBv8(lo), ToBv8(hi));
  }

  lemma HalvesOf(c: bv16, lo: byte, hi: byte)
    ensures LowByte(c) == lo <==> (c & 0xFF) as bv8 == ToBv8(lo)
    ensures HighByte(c) == hi <==> (c >> 8) as bv8 == ToBv8(hi)
  {
    hide ToBv8, FromBv8;
    SameBits((c & 0xFF) as bv8, lo);
    SameBits((c >> 8) as bv8, hi);
  }

  lemma WideIsSmall(b: byte)
    ensures Wide(b) < 0x100
  {
    hide ToBv8;
  }

  lemma SameBits(v: bv8, b: byte)
    ensures FromBv8(v) == b <==> v == ToBv8(b)
  {
    Bv8RoundTrip(b);
    Bv8RoundTripBack(v);
    hide ToBv8, FromBv8;
  }

  lemma HalvesOfXor(c: bv16, lo: bv8, hi: bv8)
    ensures c ^ (lo as bv16) == (hi as bv16) << 8 <==> (c & 0xFF) as bv8 == lo && (c >> 8) as bv8 == hi
  {
  }

  lemma {:induction false} BitsAppend(a: seq<byte>, b: seq<byte>)
    ensures Bits(a + b) == Bits(a) + Bits(b)
    decreases |a|
  {
    hide ByteBits;
    if a == [] {
      assert a + b == b;
    } else {
      assert (a + b)[1..] == a[1..] + b;
      BitsAppend(a[1..], b);
    }
  }

  /** Residue: the register is zero after the CRC bytes, and after no other two bytes. */
  lemma Residue(msg: seq<byte>)
    requires 2 <= |msg|
    ensures CrcMatches(msg) <==> Register(msg) == 0
  {
    hide Serial, Bits, LowByte, HighByte;
    var body, tail := msg[..|msg| - 2], msg[|msg| - 2..];
    assert msg == body + tail && tail == [tail[0], tail[1]];
    BitsAppend(body, tail);
    SerialAppend(0xFFFF, Bits(body), Bits(tail));
    TwoBytesToZero(Register(body), tail[0], tail[1]);
    assert CrcBytes(body)[0] == LowByte(Register(body)) && CrcBytes(body)[1] == HighByte(Register(body));
  }

  // ---------- Bursts ----------

  /** The register that the next |w| <= 16 bits w would bring to zero. */
  function Pack(w: seq<bool>): bv16 {
    if w == [] then 0 else Push(w[0], Pack(w[1..]))
  }

  function Up(r: bv16): bv16 { r << 1 }

  predicate TopClear(r: bv16) { r & 0x8000 == 0 }

  function Push(b: bool, r: bv16): bv16 { Xor(Up(r), if b then 1 else 0) }

  lemma FeedInverse(c: bv16, b: bool, r: bv16)
    requires TopClear(r)
    ensures Feed(c, b) == r <==> c == Push(b, r)
    ensures Down(Push(b, r)) == r
    ensures Push(b, r) == 0 <==> !b && r == 0
  {
    var u: bv16 := if b then 1 else 0;
    hide BitStep, Xor, Up, Down, TopClear;
    BitStepInverse(Xor(c, u), r);
    XorTwice(c, u);
    XorTwice(Up(r), u);
    PushClear(r);
    PushSet(r);
    XorZero(Up(r));
    UpZero();
  }

  lemma XorTwice(a: bv16, u: bv16)
    ensures Xor(Xor(a, u), u) == a
  {
  }

  lemma PushClear(r: bv16)
    requires TopClear(r)
    ensures Down(Up(r)) == r && !LowBit(Up(r))
  {
  }

  lemma PushSet(r: bv16)
    requires TopClear(r)
    ensures Down(Xor(Up(r), 1)) == r && Xor(Up(r), 1) != 0
  {
  }

  lemma UpZero()
    ensures Up(0) == 0 && Down(0) == 0
  {
  }

  lemma BitStepInverse(x: bv16, r: bv16)
    requires TopClear(r)
    ensures BitStep(x) == r <==> x == Up(r)
  {
    hide BitStep, Up, Down, TopClear, LowBit;
    PushClear(r);
    BitStepCases(x);
  }

  lemma BitStepCases(x: bv16)
    ensures LowBit(x) ==> !TopClear(BitStep(x))
    ensures !LowBit(x) ==> BitStep(x) == Down(x) && Up(Down(x)) == x
  {
  }

  lemma {:induction false} FitsMore(n: nat, v: bv16, m: nat)
    requires Fits(n, v) && n <= m
    ensures Fits(m, v)
    decreases m
  {
    if n > 0 {
      FitsMore(n - 1, Down(v), m - 1);
    } else if m > 0 {
      FitsMore(0, 0, m - 1);
    }
  }

  lemma FifteenBits(v: bv16)
    requires Fits(15, v)
    ensures TopClear(v)
  {
    var v2 := Down(Down(v));
    var v4 := Down(Down(v2));
    var v6 := Down(Down(v4));
    var v8 := Down(Down(v6));
    var v10 := Down(Down(v8));
    var v12 := Down(Down(v10));
    var v14 := Down(Down(v12));
    assert Down(v14) == 0 ==> TopClear(v);
    hide Down;
    FitsTwo(13, v);
    FitsTwo(11, v2);
    FitsTwo(9, v4);
    FitsTwo(7, v6);
    FitsTwo(5, v8);
    FitsTwo(3, v10);
    FitsTwo(1, v12);
    assert Fits(1, v14) && Fits(0, Down(v14));
  }

  lemma {:induction false} PackFits(w: seq<bool>)
    requires |w| <= 16
    ensures Fits(|w|, Pack(w))
    ensures w != [] ==> TopClear(Pack(w[1..]))
    decreases |w|
  {
    hide Push, Down, TopClear;
    if w != [] {
      PackFits(w[1..]);
      FitsMore(|w| - 1, Pack(w[1..]), 15);
      FifteenBits(Pack(w[1..]));
      FeedInverse(0, w[0], Pack(w[1..]));
    }
  }

  /** Up to 16 bits bring exactly one register value to zero. */
  lemma {:induction false} ZeroAfter(c: bv16, w: seq<bool>)
    requires |w| <= 16
    ensures Serial(c, w) == 0 <==> c == Pack(w)
    decreases |w|
  {
    hide Push, Feed, TopClear;
    if w != [] {
      PackFits(w);
      ZeroAfter(Feed(c, w[0]), w[1..]);
      FeedInverse(c, w[0], Pack(w[1..]));
    }
  }

  lemma {:induction false} PackZero(w: seq<bool>)
    requires |w| <= 16
    ensures Pack(w) == 0 <==> true !in w
    decreases |w|
  {
    hide Push, TopClear;
    if w != [] {
      PackFits(w);
      FeedInverse(0, w[0], Pack(w[1..]));
      PackZero(w[1..]);
      assert w == [w[0]] + w[1..];
    }
  }

  lemma {:induction false} SerialQuiet(c: bv16, w: seq<bool>)
    requires true !in w
    ensures Serial(c, w) == 0 <==> c == 0
    decreases |w|
  {
    if w != [] {
      assert Feed(c, false) == BitStep(c) by { XorZero(c); }
      hide Feed;
      BitStepZero(c);
      hide BitStep;
      SerialQuiet(Feed(c, w[0]), w[1..]);
    }
  }

  /** From a clear register, a burst of at most 16 bits never ends in a clear register. */
  lemma BurstLeavesMark(bits: seq<bool>)
    requires Burst(bits, 16)
    ensures Serial(0, bits) != 0
  {
    var lo: nat :| BurstAt(bits, lo, 16);
    var before, window, after := bits[..lo], bits[lo..lo + 16], bits[lo + 16..];
    assert bits == before + (window + after);
    SerialAppend(0, before, window + after);
    SerialAppend(0, window, after);
    SerialQuiet(0, before);
    ZeroAfter(0, window);
    PackZero(window);
    SerialQuiet(Serial(0, window), after);
  }

  // ---------- Parity ----------

  /** Whether the low n bits of v hold an odd number of ones. */
  predicate OddBits(n: nat, v: bv16) {
    n > 0 && LowBit(v) != OddBits(n - 1, Down(v))
  }

  /** Whether a register holds an odd number of ones. */
  predicate OddOnes(c: bv16) { OddBits(16, c) }

  lemma {:induction false} OddBitsXor(n: nat, u: bv16, v: bv16)
    ensures OddBits(n, Xor(u, v)) == (OddBits(n, u) != OddBits(n, v))
    decreases n
  {
    hide Xor, LowBit, Down;
    if n > 0 {
      DownXor(u, v);
      OddBitsXor(n - 1, Down(u), Down(v));
    }
  }

  lemma {:induction false} OddBitsMore(n: nat, v: bv16)
    requires Fits(n, v)
    ensures OddBits(n + 1, v) == OddBits(n, v)
    decreases n
  {
    if n > 0 {
      hide LowBit, Down;
      OddBitsMore(n - 1, Down(v));
    }
  }

  lemma OddBitsTwo(n: nat, v: bv16)
    ensures OddBits(n + 2, v) == ((LowBit(v) != LowBit(Down(v))) != OddBits(n, Down(Down(v))))
  {
    hide LowBit, Down;
  }

  /** The polynomial has three ones, a single input bit one. */
  lemma OddConstants()
    ensures OddOnes(0xA001) && OddOnes(1) && !OddOnes(0)
  {
    OddBitsTwo(14, 0xA001);
    OddBitsTwo(12, 0x2800);
    OddBitsTwo(10, 0x0A00);
    OddBitsTwo(8, 0x0280);
    OddBitsTwo(6, 0x00A0);
    OddBitsTwo(4, 0x0028);
    OddBitsTwo(2, 0x000A);
    OddBitsTwo(0, 0x0002);
    NoOnes(16);
    NoOnes(15);
    assert Down(1) == 0 && LowBit(1);
  }

  lemma {:induction false} NoOnes(n: nat)
    ensures !OddBits(n, 0)
  {
    if n > 0 {
      assert !LowBit(0) && Down(0) == 0;
      NoOnes(n - 1);
    }
  }

  lemma FifteenAfterShift(c: bv16)
    ensures Fits(15, Down(c))
  {
    var v1 := Down(c);
    var v3 := Down(Down(v1));
    var v5 := Down(Down(v3));
    var v7 := Down(Down(v5));
    var v9 := Down(Down(v7));
    var v11 := Down(Down(v9));
    var v13 := Down(Down(v11));
    var v15 := Down(Down(v13));
    assert Down(v15) == 0;
    hide Down;
    assert Fits(0, Down(v15)) && Fits(1, v15);
    FitsTwo(1, v13);
    FitsTwo(3, v11);
    FitsTwo(5, v9);
    FitsTwo(7, v7);
    FitsTwo(9, v5);
    FitsTwo(11, v3);
    FitsTwo(13, v1);
  }

  lemma StepParity(c: bv16)
    ensures OddOnes(BitStep(c)) == OddOnes(c)
  {
    FifteenAfterShift(c);
    OddBitsMore(15, Down(c));
    OddBitsXor(16, Down(c), 0xA001);
    OddConstants();
    assert BitStep(c) == if LowBit(c) then Xor(Down(c), 0xA001) else Down(c);
    hide BitStep, Xor, LowBit, Down;
  }

  /** A shift moves one bit out and flips three: the parity of register plus input is kept. */
  lemma FeedParity(c: bv16, b: bool)
    ensures OddOnes(Feed(c, b)) == (OddOnes(c) != b)
  {
    hide Xor, BitStep, OddBits;
    OddConstants();
    OddBitsXor(16, c, if b then 1 else 0);
    StepParity(Xor(c, if b then 1 else 0));
  }

  lemma {:induction false} SerialParity(c: bv16, w: seq<bool>)
    ensures OddOnes(Serial(c, w)) == (OddOnes(c) != (Count(w) % 2 == 1))
    decreases |w|
  {
    hide Feed, OddOnes;
    if w != [] {
      FeedParity(c, w[0]);
      SerialParity(Feed(c, w[0]), w[1..]);
    }
  }

  // ---------- What the receiver accepts after corruption ----------

  /** A corrupted frame still matches its CRC exactly when the error pattern alone leaves a clear register. */
  lemma UndetectedErrors(frame: seq<byte>, e: seq<byte>)
    requires 2 <= |frame| == |e| && CrcMatches(frame)
    ensures CrcMatches(Corrupt(frame, e)) <==> Serial(0, Bits(e)) == 0
  {
    Residue(frame);
    Residue(Corrupt(frame, e));
    BitsOfCorrupt(frame, e);
    SerialXor(0xFFFF, 0, Bits(frame), Bits(e));
    XorZero(0xFFFF);
    XorIsZero(Register(frame), Serial(0, Bits(e)));
    hide Serial, Bits, Xor, Corrupt;
  }

  /**
   * The integrity check of an RTU message: 0 if and only if it is neither for this slave nor a broadcast;
   * otherwise its length or -1, as the register over all of it is clear or not.
   */
  lemma IntegrityExactly(slave: byte, msg: seq<byte>)
    requires 3 <= |msg|
    ensures CheckIntegrity(RTU, slave, msg) == 0 <==> msg[0] != slave && msg[0] != 0
    ensures CheckIntegrity(RTU, slave, msg) == |msg| <==> (msg[0] == slave || msg[0] == 0) && Register(msg) == 0
    ensures CheckIntegrity(RTU, slave, msg) == -1 <==> (msg[0] == slave || msg[0] == 0) && Register(msg) != 0
  {
    Residue(msg);
    hide CrcMatches, Serial, Bits;
  }

  /** The errors that the checksum always detects: bursts of up to 16 bits, and odd numbers of flipped bits. */
  ghost predicate Detectable(e: seq<byte>) { Burst(Bits(e), 16) || Count(Bits(e)) % 2 == 1 }

  /** No burst error of up to 16 bits, in a frame of any length, passes the integrity check of any slave. */
  lemma BurstDetected(slave: byte, frame: seq<byte>, e: seq<byte>)
    requires 3 <= |frame| == |e| && CrcMatches(frame)
    requires Burst(Bits(e), 16)
    ensures var f := Corrupt(frame, e);
            && Register(f) != 0
            && CheckIntegrity(RTU, slave, f) == if f[0] == slave || f[0] == 0 then -1 else 0
  {
    UndetectedErrors(frame, e);
    BurstLeavesMark(Bits(e));
    Residue(Corrupt(frame, e));
    IntegrityExactly(slave, Corrupt(frame, e));
    hide CrcMatches, Bits, Serial, CheckIntegrity;
  }

  /** Nor does any odd number of flipped bits, wherever they are. */
  lemma OddErrorsDetected(slave: byte, frame: seq<byte>, e: seq<byte>)
    requires 3 <= |frame| == |e| && CrcMatches(frame)
    requires Count(Bits(e)) % 2 == 1
    ensures var f := Corrupt(frame, e);
            && Register(f) != 0
            && CheckIntegrity(RTU, slave, f) == if f[0] == slave || f[0] == 0 then -1 else 0
  {
    UndetectedErrors(frame, e);
    SerialParity(0, Bits(e));
    OddConstants();
    Residue(Corrupt(frame, e));
    IntegrityExactly(slave, Corrupt(frame, e));
    hide CrcMatches, Bits, Serial, OddOnes, CheckIntegrity;
  }

  // ---------- Errors in bytes ----------

  lemma {:induction false} NoLowBits(n: nat, v: bv16)
    requires Fits(n, v) && true !in LowBits(n, v)
    ensures v == 0
    decreases n
  {
    if n > 0 {
      assert LowBits(n, v)[0] == LowBit(v) && LowBits(n, v)[1..] == LowBits(n - 1, Down(v));
      NoLowBits(n - 1, Down(v));
      assert Down(v) == 0 && !LowBit(v) ==> v == 0;
    }
  }

  lemma SetByteHasBit(b: byte)
    requires b != 0
    ensures true in ByteBits(b)
  {
    assert FromBv8(0) == 0;
    hide ToBv8, FromBv8, LowBits;
    WideFits(b);
    Bv8RoundTrip(b);
    if true !in ByteBits(b) {
      NoLowBits(8, Wide(b));
    }
  }

  /** Whatever happens to two neighbouring bytes, and to no other, is detectable. */
  lemma TwoBytesDetectable(e: seq<byte>, k: nat)
    requires k + 1 < |e| && (e[k] != 0 || e[k + 1] != 0)
    requires forall i :: 0 <= i < |e| && i != k && i != k + 1 ==> e[i] == 0
    ensures Detectable(e)
  {
    hide ByteBits;
    var before, window, after := Bits(e[..k]), Bits(e[k..k + 2]), Bits(e[k + 2..]);
    assert e == e[..k] + (e[k..k + 2] + e[k + 2..]);
    BitsAppend(e[..k], e[k..k + 2] + e[k + 2..]);
    BitsAppend(e[k..k + 2], e[k + 2..]);
    ZeroBytesQuiet(e[..k]);
    ZeroBytesQuiet(e[k + 2..]);
    WindowHasBit(e[k], e[k + 1]);
    assert e[k..k + 2] == [e[k], e[k + 1]];
    var bits := Bits(e);
    assert bits[8 * k..8 * k + 16] == window && bits[..8 * k] == before && bits[8 * k + 16..] == after;
    assert BurstAt(bits, 8 * k, 16);
  }

  lemma WindowHasBit(x: byte, y: byte)
    requires x != 0 || y != 0
    ensures true in Bits([x, y])
  {
    hide ByteBits;
    assert [x, y][1..] == [y] && [y][1..] == [];
    assert Bits([x, y]) == ByteBits(x) + ByteBits(y);
    if x != 0 {
      SetByteHasBit(x);
    } else {
      SetByteHasBit(y);
    }
  }

  /** Sixteen is the limit: the 17-bit pattern of the generator polynomial goes unnoticed in every frame. */
  lemma SeventeenBitsMayPass(frame: seq<byte>, e: seq<byte>)
    requires 3 <= |frame| == |e| && CrcMatches(frame)
    requires e[..3] == [0x03, 0x40, 0x01] && forall i :: 3 <= i < |e| ==> e[i] == 0
    ensures CrcMatches(Corrupt(frame, e))
  {
    hide *;
    UndetectedErrors(frame, e);
    assert e == [0x03, 0x40, 0x01] + e[3..];
    BitsAppend([0x03, 0x40, 0x01], e[3..]);
    SerialAppend(0, Bits([0x03, 0x40, 0x01]), Bits(e[3..]));
    GeneratorPattern();
    ZeroBytesQuiet(e[3..]);
    SerialQuiet(0, Bits(e[3..]));
  }

  lemma GeneratorPattern()
    ensures Serial(0, Bits([0x03, 0x40, 0x01])) == 0
  {
    hide *;
    GeneratorRegisters();
    SerialByte(0, [0x03, 0x40, 0x01]);
    SerialByte(0x140, [0x40, 0x01]);
    SerialByte(0x1, [0x01]);
    SerialNothing(0);
    assert [0x03, 0x40, 0x01][1..] == [0x40, 0x01] && [0x40, 0x01][1..] == [0x01] && [0x01][1..] == [];
  }

  lemma GeneratorRegisters()
    ensures FeedByte(0, 0x03) == 0x140 && FeedByte(0x140, 0x40) == 0x1 && FeedByte(0x1, 0x01) == 0
  {
    hide Wide, Xor, Steps8;
    GeneratorSteps();
    GeneratorInputs();
  }

  lemma GeneratorSteps()
    ensures Steps8(0x03) == 0x140 && Steps8(0x100) == 0x1 && Steps8(0) == 0
  {
  }

  lemma GeneratorInputs()
    ensures Xor(0, Wide(0x03)) == 0x03 && Xor(0x140, Wide(0x40)) == 0x100 && Xor(0x1, Wide(0x01)) == 0
  {
    assert FromBv8(0x03) == 0x03 && FromBv8(0x40) == 0x40 && FromBv8(0x01) == 0x01;
    hide ToBv8, FromBv8;
    Bv8RoundTripBack(0x03);
    Bv8RoundTripBack(0x40);
    Bv8RoundTripBack(0x01);
  }

  lemma ZeroByteQuiet()
    ensures true !in ByteBits(0)
  {
    assert Wide(0) == 0 by {
      assert FromBv8(0) == 0;
      Bv8RoundTripBack(0);
    }
    hide Wide;
    ZeroLowBits(8);
  }

  lemma {:induction false} ZeroLowBits(n: nat)
    ensures true !in LowBits(n, 0)
  {
    if n > 0 {
      assert !LowBit(0) && Down(0) == 0;
      ZeroLowBits(n - 1);
    }
  }

  lemma {:induction false} ZeroBytesQuiet(z: seq<byte>)
    requires forall i :: 0 <= i < |z| ==> z[i] == 0
    ensures true !in Bits(z)
    decreases |z|
  {
    if z != [] {
      ZeroByteQuiet();
      hide ByteBits;
      ZeroBytesQuiet(z[1..]);
    }
  }
}
