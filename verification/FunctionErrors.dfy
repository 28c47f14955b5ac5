/**
 * Where the checksum of RTU does not help: an error in the function code moves the place where the receiver
 * looks for the checksum. Here three flipped bits turn a request to write several registers into the intact
 * request to write one of them.
 */
module FunctionErrors {
  import opened Bytes
  import opened BitTables
  import opened Crc16
  import opened Backends
  import opened CrcErrors
  import opened Receive
  import opened Memory
  import opened Server
  import opened Protocol
  import opened Refinement
  import opened RequestMeaning
  import opened Corruption

  /** Three flipped bits in the function code, which turn 16 into 6. */
  function FunctionError(n: nat): (e: seq<byte>)
    requires 2 <= n
    ensures |e| == n
  {
    [0, 0x16] + seq(n - 2, _ => 0)
  }

  // ---------- It is an error that a checksum over the whole frame would detect ----------

  lemma {:induction false} CountAppend(a: seq<bool>, b: seq<bool>)
    ensures Count(a + b) == Count(a) + Count(b)
    decreases |a|
  {
    if a == [] {
      assert a + b == b;
    } else {
      assert (a + b)[1..] == a[1..] + b;
      CountAppend(a[1..], b);
    }
  }

  lemma {:induction false} CountQuiet(w: seq<bool>)
    requires true !in w
    ensures Count(w) == 0
    decreases |w|
  {
    if w != [] {
      CountQuiet(w[1..]);
    }
  }

  lemma WideLiterals()
    ensures Wide(0) == 0 && Wide(1) == 1 && Wide(4) == 4 && Wide(6) == 6 && Wide(8) == 8 && Wide(0x16) == 0x16 && Wide(0x28) == 0x28
  {
    SmallBytes();
    LargerBytes();
    hide ToBv8;
  }

  lemma SmallBytes()
    ensures ToBv8(0) == 0 && ToBv8(1) == 1 && ToBv8(4) == 4 && ToBv8(6) == 6 && ToBv8(8) == 8
  {
    assert FromBv8(0) == 0 && FromBv8(1) == 1 && FromBv8(4) == 4 && FromBv8(6) == 6 && FromBv8(8) == 8;
    hide ToBv8, FromBv8;
    Bv8RoundTripBack(0);
    Bv8RoundTripBack(1);
    Bv8RoundTripBack(4);
    Bv8RoundTripBack(6);
    Bv8RoundTripBack(8);
  }

  lemma LargerBytes()
    ensures ToBv8(0x16) == 0x16 && ToBv8(0x28) == 0x28 && XorByte(16, 0x16) == 6
  {
    assert FromBv8(6) == 6 && FromBv8(16) == 16 && FromBv8(0x16) == 0x16 && FromBv8(0x28) == 0x28;
    hide ToBv8, FromBv8;
    Bv8RoundTripBack(16);
    Bv8RoundTripBack(0x16);
    Bv8RoundTripBack(0x28);
  }

  lemma XorNothing(a: byte)
    ensures XorByte(a, 0) == a
  {
    hide FromBv8, ToBv8;
    SmallBytes();
    Bv8RoundTrip(a);
  }

  lemma ThreeBits()
    ensures Count(ByteBits(0x16)) == 3
  {
    hide Wide, Count;
    WideLiterals();
    LowBitsOfError();
    ZeroLowBits(3);
    CountQuiet(LowBits(3, 0));
    CountAppend([false, true, true, false, true], LowBits(3, 0));
    FiveBits();
  }

  lemma FiveBits()
    ensures Count([false, true, true, false, true]) == 3
  {
    assert [false, true, true, false, true][1..] == [true, true, false, true] && [true, true, false, true][1..] == [true, false, true];
    assert [true, false, true][1..] == [false, true] && [false, true][1..] == [true] && [true][1..] == [];
    assert Count([true]) == 1 && Count([false, true]) == 1;
    assert Count([true, false, true]) == 2;
  }

  lemma LowBitsOfError()
    ensures LowBits(8, 0x16) == [false, true, true, false, true] + LowBits(3, 0)
  {
    assert LowBits(8, 0x16) == [false] + LowBits(7, 0x0B);
    assert LowBits(7, 0x0B) == [true] + LowBits(6, 0x05);
    assert LowBits(6, 0x05) == [true] + LowBits(5, 0x02);
    assert LowBits(5, 0x02) == [false] + LowBits(4, 0x01);
    assert LowBits(4, 0x01) == [true] + LowBits(3, 0);
  }

  lemma FunctionErrorDetectable(n: nat)
    requires 2 <= n
    ensures Detectable(FunctionError(n))
  {
    hide ByteBits, Burst, Count;
    var tail: seq<byte> := seq(n - 2, _ => 0);
    var e := FunctionError(n);
    assert e[1..] == [0x16] + tail && e[1..][1..] == tail;
    assert Bits(e) == ByteBits(0) + (ByteBits(0x16) + Bits(tail));
    CountAppend(ByteBits(0), ByteBits(0x16) + Bits(tail));
    CountAppend(ByteBits(0x16), Bits(tail));
    ThreeBits();
    ZeroByteQuiet();
    CountQuiet(ByteBits(0));
    ZeroBytesQuiet(tail);
    CountQuiet(Bits(tail));
  }

  // ---------- But the first eight bytes carry a checksum of their own ----------

  /** What the receiver makes of a request to slave 1 to write 4 registers from 40 on, the first of them from 0x0100 to 0x01FF. */
  const SPOILT: seq<byte> := [1, 6, 0, 40, 0, 4, 8, 1]

  lemma SpoiltSteps()
    ensures Steps8(0xFFFE) == 0x807E && Steps8(0x8078) == 0x2280 && Steps8(0x2280) == 0xA023 && Steps8(0xA00B) == 0xC7E1
    ensures Steps8(0xC7E1) == 0x4807 && Steps8(0x4803) == 0x0108 && Steps8(0x0100) == 0x0001 && Steps8(0) == 0
  {
  }

  lemma SpoiltBytes()
    ensures FeedByte(0xFFFF, 1) == 0x807E && FeedByte(0x807E, 6) == 0x2280 && FeedByte(0x2280, 0) == 0xA023
    ensures FeedByte(0xA023, 40) == 0xC7E1 && FeedByte(0xC7E1, 0) == 0x4807 && FeedByte(0x4807, 4) == 0x0108
    ensures FeedByte(0x0108, 8) == 0x0001 && FeedByte(0x0001, 1) == 0
  {
    hide Steps8, Wide;
    WideLiterals();
    SpoiltSteps();
  }

  lemma SpoiltRegister()
    ensures Register(SPOILT) == 0
  {
    hide FeedByte, Serial, Bits;
    SpoiltBytes();
    SerialByte(0xFFFF, SPOILT);
    SerialByte(0x807E, SPOILT[1..]);
    SerialByte(0x2280, SPOILT[2..]);
    SerialByte(0xA023, SPOILT[3..]);
    SerialByte(0xC7E1, SPOILT[4..]);
    SerialByte(0x4807, SPOILT[5..]);
    SerialByte(0x0108, SPOILT[6..]);
    SerialByte(0x0001, SPOILT[7..]);
    SerialNothing(0);
    assert SPOILT[1..][1..] == SPOILT[2..] && SPOILT[2..][1..] == SPOILT[3..] && SPOILT[3..][1..] == SPOILT[4..];
    assert SPOILT[4..][1..] == SPOILT[5..] && SPOILT[5..][1..] == SPOILT[6..] && SPOILT[6..][1..] == SPOILT[7..];
    assert SPOILT[7..][1..] == [];
  }

  lemma SpoiltDelivered(rest: seq<byte>)
    ensures Delivered(RTU, Indication, Traffic(SPOILT + rest, [])) == SPOILT
    ensures CheckIntegrity(RTU, 1, SPOILT) == 8
    ensures PduOf(RTU, SPOILT) == [6, 0, 40, 0, 4]
  {
    SpoiltRegister();
    hide Register, CrcMatches, CheckIntegrity;
    assert Parse(RTU, Indication, SPOILT) == Complete(8);
    FrameDelivered(RTU, Indication, SPOILT, rest, []);
    IntegrityExactly(1, SPOILT);
  }

  /** A server that takes it stores 4 in register 40. */
  lemma SpoiltServed(rest: seq<byte>, t: Tables)
    requires 40 < |t.registers|
    ensures ServerTurn(RTU, 1, SPOILT + rest, t).1 == t.(registers := t.registers[40 := 4])
  {
    hide Delivered, CheckIntegrity, PduOf, ReplyFrame;
    SpoiltDelivered(rest);
    assert Servable(RTU, [6, 0, 40, 0, 4], t);
    hide Servable;
    SingleRegister([6, 0, 40, 0, 4], t);
    hide Serve;
  }

  // ---------- The request ----------

  lemma SpoiltRequest(values: seq<word>)
    requires |values| == 4 && 0x100 <= values[0] < 0x200
    ensures var f := RequestFrame(RTU, 0, 1, WriteRegisters(40, values));
            8 <= |f| && f[..8] == [1, 16, 0, 40, 0, 4, 8, 1]
  {
    hide RequestPdu, Frame;
    var c := WriteRegisters(40, values);
    var p := RequestFormat(c);
    var f := RequestFrame(RTU, 0, 1, c);
    FrameParts(RTU, 0, [0, 0], 1, p);
    assert Number(p, 6) == values[0] && p[6] == 1;
    assert PduOf(RTU, f) == p;
    assert forall i :: 0 <= i < 7 ==> f[1 + i] == p[i];
  }

  /**
   * The failing input: three flipped bits, within one byte, that a checksum over the frame would detect. The
   * server stores 4, the quantity, in register 40, which nobody has asked for.
   */
  lemma WrongWrite(values: seq<word>, t: Tables)
    requires |values| == 4 && 0x100 <= values[0] < 0x200 && 44 <= |t.registers|
    ensures var f := RequestFrame(RTU, 0, 1, WriteRegisters(40, values));
            && Detectable(FunctionError(|f|))
            && ServerTurn(RTU, 1, Corrupt(f, FunctionError(|f|)), t).1 == t.(registers := t.registers[40 := 4])
  {
    hide RequestFrame, Detectable, ServerTurn, Corrupt, FunctionError, SPOILT;
    var f := RequestFrame(RTU, 0, 1, WriteRegisters(40, values));
    SpoiltRequest(values);
    FunctionErrorDetectable(|f|);
    var rest := SpoiltArrives(f);
    SpoiltServed(rest, t);
  }

  lemma SpoiltArrives(f: seq<byte>) returns (rest: seq<byte>)
    requires 8 <= |f| && f[..8] == [1, 16, 0, 40, 0, 4, 8, 1]
    ensures Corrupt(f, FunctionError(|f|)) == SPOILT + rest
  {
    hide XorByte, ToBv8;
    var bad := Corrupt(f, FunctionError(|f|));
    LargerBytes();
    forall i | 0 <= i < 8
      ensures bad[i] == SPOILT[i]
    {
      assert f[i] == f[..8][i];
      XorNothing(f[i]);
    }
    rest := bad[8..];
  }
}
