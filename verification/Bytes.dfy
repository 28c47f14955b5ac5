/** Bytes and 16-bit words as libmodbus stores them in message buffers: big-endian pairs on the wire. */
module Bytes {

  /** uint8_t */
  type byte = x: int | 0 <= x < 0x100

  /** uint16_t */
  type word = x: int | 0 <= x < 0x1_0000

  /** The value of an int after it has been stored in a uint8_t. */
  function Low8(n: int): byte { n % 0x100 }

  /** The value of an int after it has been stored in a uint16_t, or in two bytes of a message. */
  function Low16(n: int): word { n % 0x1_0000 }

  /** `w >> 8` */
  function Hi(w: word): byte { w / 0x100 }

  /** `w & 0x00ff` */
  function Lo(w: word): byte { w % 0x100 }

  /** `(hi << 8) + lo` */
  function Word(hi: byte, lo: byte): word { hi * 0x100 + lo }

  /**
   * The two bytes that `n >> 8` and `n & 0x00ff` leave in a message are those of the low 16 bits of n,
   * for negative n too: a shift rounds down, a mask takes the low bits.
   */
  lemma HalvesOfInt(n: int)
    ensures Hi(Low16(n)) == Low8(n / 0x100)
    ensures Lo(Low16(n)) == n % 0x100
  {
    var q := n / 0x1_0000;
    assert n == 0x100 * (0x100 * q + Low16(n) / 0x100) + Low16(n) % 0x100;
    assert n / 0x100 == 0x100 * q + Low16(n) / 0x100;
  }

  lemma WordOfHalves(w: word)
    ensures Word(Hi(w), Lo(w)) == w
  {
  }

  lemma HalvesOfWord(hi: byte, lo: byte)
    ensures Hi(Word(hi, lo)) == hi && Lo(Word(hi, lo)) == lo
  {
  }

  lemma LowOfSmall(n: nat)
    ensures n < 0x1_0000 ==> Low16(n) == n
    ensures n < 0x100 ==> Low8(n) == n
  {
  }

  /** Register values as the wire carries them, high byte first. */
  function RegisterBytes(ws: seq<word>): (bs: seq<byte>)
    ensures |bs| == 2 * |ws|
  {
    if ws == [] then []
    else
      var n := |ws| - 1;
      RegisterBytes(ws[..n]) + [Hi(ws[n]), Lo(ws[n])]
  }

  /** The first n register values of a byte string. */
  function BytesRegisters(bs: seq<byte>, n: nat): (ws: seq<word>)
    requires 2 * n <= |bs|
    ensures |ws| == n
  {
    seq(n, i requires 0 <= i < n => Word(bs[2 * i], bs[2 * i + 1]))
  }

  lemma {:induction false} RegisterBytesAt(ws: seq<word>, i: nat)
    requires i < |ws|
    ensures RegisterBytes(ws)[2 * i] == Hi(ws[i]) && RegisterBytes(ws)[2 * i + 1] == Lo(ws[i])
    decreases |ws|
  {
    hide Hi, Lo;
    var n := |ws| - 1;
    if i < n {
      RegisterBytesAt(ws[..n], i);
    }
  }

  lemma {:induction false} RegistersRoundTrip(ws: seq<word>, rest: seq<byte>)
    ensures BytesRegisters(RegisterBytes(ws) + rest, |ws|) == ws
  {
    hide RegisterBytes, Hi, Lo, Word;
    var bs := RegisterBytes(ws);
    forall i | 0 <= i < |ws|
      ensures BytesRegisters(bs + rest, |ws|)[i] == ws[i]
    {
      RegisterBytesAt(ws, i);
      assert (bs + rest)[2 * i] == bs[2 * i] && (bs + rest)[2 * i + 1] == bs[2 * i + 1];
      WordOfHalves(ws[i]);
    }
  }

  lemma RegisterBytesSnoc(ws: seq<word>, w: word)
    ensures RegisterBytes(ws + [w]) == RegisterBytes(ws) + [Hi(w), Lo(w)]
  {
    hide Hi, Lo;
    assert (ws + [w])[..|ws|] == ws;
  }

  // ---------- A byte as a bit pattern ----------

  /** The number whose lowest binary digit is d and whose other digits are those of rest. */
  function Binary(d: bool, rest: nat): nat { (if d then 1 else 0) + 2 * rest }

  predicate Odd(n: nat) { n % 2 == 1 }

  function Half(n: nat): nat { n / 2 }

  lemma BinaryDigit(d: bool, rest: nat)
    ensures Odd(Binary(d, rest)) == d && Half(Binary(d, rest)) == rest
  {
  }

  lemma BinaryOfHalf(n: nat)
    ensures n == Binary(Odd(n), Half(n))
  {
  }

  /** The number with the given binary digits, least significant first. */
  function FromDigits(b0: bool, b1: bool, b2: bool, b3: bool, b4: bool, b5: bool, b6: bool, b7: bool): byte {
    Binary(b0, Binary(b1, Binary(b2, Binary(b3, Binary(b4, Binary(b5, Binary(b6, Binary(b7, 0))))))))
  }

  function Mask(b: bool, weight: bv8): bv8 { if b then weight else 0 }

  /** The bit vector with the given bits, least significant first. */
  function FromBits(b0: bool, b1: bool, b2: bool, b3: bool, b4: bool, b5: bool, b6: bool, b7: bool): bv8 {
    Mask(b0, 0x01) | Mask(b1, 0x02) | Mask(b2, 0x04) | Mask(b3, 0x08) |
    Mask(b4, 0x10) | Mask(b5, 0x20) | Mask(b6, 0x40) | Mask(b7, 0x80)
  }

  /** The byte whose binary digits are the bits of v. */
  function FromBv8(v: bv8): byte {
    FromDigits(v & 0x01 != 0, v & 0x02 != 0, v & 0x04 != 0, v & 0x08 != 0,
               v & 0x10 != 0, v & 0x20 != 0, v & 0x40 != 0, v & 0x80 != 0)
  }

  /** The bits of a byte. */
  function ToBv8(b: byte): bv8 {
    var q1 := Half(b);
    var q2 := Half(q1);
    var q3 := Half(q2);
    var q4 := Half(q3);
    var q5 := Half(q4);
    var q6 := Half(q5);
    FromBits(Odd(b), Odd(q1), Odd(q2), Odd(q3), Odd(q4), Odd(q5), Odd(q6), Odd(Half(q6)))
  }

  lemma BitsOfFromBits(b0: bool, b1: bool, b2: bool, b3: bool, b4: bool, b5: bool, b6: bool, b7: bool)
    ensures var v := FromBits(b0, b1, b2, b3, b4, b5, b6, b7);
            && (v & 0x01 != 0) == b0 && (v & 0x02 != 0) == b1 && (v & 0x04 != 0) == b2 && (v & 0x08 != 0) == b3
            && (v & 0x10 != 0) == b4 && (v & 0x20 != 0) == b5 && (v & 0x40 != 0) == b6 && (v & 0x80 != 0) == b7
  {
  }

  lemma FromBitsOfBits(v: bv8)
    ensures v == FromBits(v & 0x01 != 0, v & 0x02 != 0, v & 0x04 != 0, v & 0x08 != 0,
                          v & 0x10 != 0, v & 0x20 != 0, v & 0x40 != 0, v & 0x80 != 0)
  {
  }

  lemma Bv8RoundTrip(b: byte)
    ensures FromBv8(ToBv8(b)) == b
  {
    var q1 := Half(b);
    var q2 := Half(q1);
    var q3 := Half(q2);
    var q4 := Half(q3);
    var q5 := Half(q4);
    var q6 := Half(q5);
    var q7 := Half(q6);
    assert Half(q7) == 0;
    hide FromBits, Binary, Odd, Half;
    BitsOfFromBits(Odd(b), Odd(q1), Odd(q2), Odd(q3), Odd(q4), Odd(q5), Odd(q6), Odd(q7));
    BinaryOfHalf(b);
    BinaryOfHalf(q1);
    BinaryOfHalf(q2);
    BinaryOfHalf(q3);
    BinaryOfHalf(q4);
    BinaryOfHalf(q5);
    BinaryOfHalf(q6);
    BinaryOfHalf(q7);
  }

  lemma Bv8RoundTripBack(v: bv8)
    ensures ToBv8(FromBv8(v)) == v
  {
    hide FromBits, Binary, Odd, Half;
    var n7 := Binary(v & 0x80 != 0, 0);
    var n6 := Binary(v & 0x40 != 0, n7);
    var n5 := Binary(v & 0x20 != 0, n6);
    var n4 := Binary(v & 0x10 != 0, n5);
    var n3 := Binary(v & 0x08 != 0, n4);
    var n2 := Binary(v & 0x04 != 0, n3);
    var n1 := Binary(v & 0x02 != 0, n2);
    BinaryDigit(v & 0x01 != 0, n1);
    BinaryDigit(v & 0x02 != 0, n2);
    BinaryDigit(v & 0x04 != 0, n3);
    BinaryDigit(v & 0x08 != 0, n4);
    BinaryDigit(v & 0x10 != 0, n5);
    BinaryDigit(v & 0x20 != 0, n6);
    BinaryDigit(v & 0x40 != 0, n7);
    BinaryDigit(v & 0x80 != 0, 0);
    FromBitsOfBits(v);
  }
}
