/**
 * The lengths of a frame, computed in four places that never consult each other: by building it, by the
 * receiver's tables, in the MBAP header, and by compute_response_length_from_request.
 */
module Lengths {
  import opened Bytes
  import opened BitTables
  import opened Errors
  import opened Backends
  import opened Receive
  import opened Memory
  import opened Server
  import opened Protocol
  import opened Refinement

  /** _MIN_REQ_LENGTH: the size of the buffers of requests without data, and of the replies to single writes. */
  const MIN_REQ_LENGTH: nat := 12

  /** What the length field of the MBAP header announces; RTU frames have none. */
  predicate MbapAgrees(b: Backend, f: seq<byte>)
    requires b.HeaderLength() <= |f|
  {
    b.TCP? ==> 6 + Word(f[4], f[5]) == |f|
  }

  lemma FrameMbap(b: Backend, tid: word, proto: seq<byte>, slave: byte, pdu: seq<byte>)
    requires |proto| == 2 && |pdu| < 0xFFFF
    ensures MbapAgrees(b, Frame(b, tid, proto, slave, pdu))
  {
    if b.TCP? {
      MbapLength(tid, proto, slave, pdu);
    }
    hide Frame, Word;
  }

  /** The receiver delimits a frame if and only if its PDU is self-delimiting and the frame fits the largest ADU. */
  lemma FrameDelimits(b: Backend, t: MsgType, tid: word, proto: seq<byte>, slave: byte, pdu: seq<byte>)
    requires |proto| == 2 && 1 <= |pdu|
    ensures var f := Frame(b, tid, proto, slave, pdu);
            Parse(b, t, f) == Complete(|f|) <==> SelfDelimiting(t, pdu) && |f| <= b.MaxAduLength()
  {
    hide Parse, SelfDelimiting, Frame;
    var f := Frame(b, tid, proto, slave, pdu);
    if Parse(b, t, f) == Complete(|f|) {
      DeliveredPdu(b, t, f);
      FrameParts(b, tid, proto, slave, pdu);
    } else if SelfDelimiting(t, pdu) && |f| <= b.MaxAduLength() {
      FrameParses(b, t, tid, proto, slave, pdu);
    }
  }

  /**
   * The requests the receiver delimits, by function code: five bytes up to function 6, the announced data for
   * functions 15, 16 and 23, and a single byte for every other - report-slave-id and read-exception-status,
   * but also the functions the library does not know.
   */
  lemma RequestDelimited(b: Backend, tid: word, proto: seq<byte>, slave: byte, p: seq<byte>)
    requires |proto| == 2 && 1 <= |p|
    ensures var f := Frame(b, tid, proto, slave, p);
            Parse(b, Indication, f) == Complete(|f|) <==>
              && |p| <= 253
              && if p[0] <= 6 then |p| == 5
                 else if p[0] == 15 || p[0] == 16 then 6 <= |p| && |p| == 6 + p[5] as int
                 else if p[0] == 23 then 10 <= |p| && |p| == 10 + p[9] as int
                 else |p| == 1
  {
    FrameDelimits(b, Indication, tid, proto, slave, p);
    hide Parse, Frame;
  }

  /** The replies it delimits: five bytes for writes, the announced data for reads and 17, two for every other. */
  lemma ReplyDelimited(b: Backend, tid: word, proto: seq<byte>, slave: byte, q: seq<byte>)
    requires |proto| == 2 && 1 <= |q|
    ensures var f := Frame(b, tid, proto, slave, q);
            Parse(b, Confirmation, f) == Complete(|f|) <==>
              && |q| <= 253
              && if q[0] == 5 || q[0] == 6 || q[0] == 15 || q[0] == 16 then |q| == 5
                 else if q[0] <= 4 || q[0] == 17 || q[0] == 23 then 2 <= |q| && |q| == 2 + q[1] as int
                 else |q| == 2
  {
    FrameDelimits(b, Confirmation, tid, proto, slave, q);
    hide Parse, Frame;
  }

  predicate HasData(c: Call) { c.WriteBits? || c.WriteRegisters? || c.WriteAndRead? }

  /**
   * A request frame is as long as the receiver and the MBAP header say, and fits the largest ADU; a
   * request without data fits the twelve bytes that its builder sets aside, checksum included.
   */
  lemma RequestLengths(b: Backend, tid: word, slave: byte, c: Call)
    requires WithinLimits(c)
    ensures var f := RequestFrame(b, tid, slave, c);
            && Parse(b, Indication, f) == Complete(|f|)
            && MbapAgrees(b, f)
            && |f| <= b.MaxAduLength()
            && (!HasData(c) ==> |f| <= MIN_REQ_LENGTH)
  {
    hide Parse, RequestPdu, Carries, WithinLimits, Frame, MbapAgrees;
    var p := RequestCarries(c);
    RequestArrives(b, tid, slave, c);
    CarriedShape(p, c);
    PlainLength(c);
    FrameMbap(b, tid, [0, 0], slave, p);
  }

  lemma PlainLength(c: Call)
    ensures !HasData(c) ==> |RequestPdu(c)| == 5
  {
  }

  // ---------- Every reply ----------

  /** The PDU length of a normal answer, from the request. */
  function AnsweredLength(p: seq<byte>): nat
    requires 1 <= |p| && (ReadsBits(p[0]) || ReadsRegisters(p[0]) ==> 5 <= |p|)
  {
    if ReadsBits(p[0]) then 2 + ByteCount(Field(p, 3))
    else if ReadsRegisters(p[0]) then 2 + 2 * Field(p, 3)
    else if p[0] == FC_READ_EXCEPTION_STATUS then 3
    else 5
  }

  lemma ReadHasQuantity(p: seq<byte>)
    requires SelfDelimiting(Indication, p)
    ensures 1 <= |p| && (ReadsBits(p[0]) || ReadsRegisters(p[0]) ==> 5 <= |p|)
  {
  }

  lemma ComputedLength(b: Backend, req: seq<byte>)
    requires b.HeaderLength() + b.ChecksumLength() <= |req| && SelfDelimiting(Indication, PduOf(b, req))
    ensures b.HeaderLength() < |req| && req[b.HeaderLength()] == PduOf(b, req)[0]
    ensures ReadsBits(req[b.HeaderLength()]) || ReadsRegisters(req[b.HeaderLength()]) ==> b.HeaderLength() + 5 <= |req|
    ensures var p := PduOf(b, req);
            && 1 <= |p| && (ReadsBits(p[0]) || ReadsRegisters(p[0]) ==> 5 <= |p|)
            && ComputeResponseLength(b, req) == if p[0] == FC_REPORT_SLAVE_ID then LENGTH_UNDEFINED
                                                else b.HeaderLength() + AnsweredLength(p) + b.ChecksumLength()
    ensures var p := PduOf(b, req);
            && 1 <= |p| && (p[0] == 1 || p[0] == 2 || p[0] == 3 || p[0] == 4 || p[0] == 23 ==> 5 <= |p|)
            && ComputeResponseLength(b, req) ==
               if p[0] == 17 then -1
               else b.HeaderLength() + b.ChecksumLength() +
                    if p[0] == 1 || p[0] == 2 then 2 + ByteCount(Field(p, 3))
                    else if p[0] == 3 || p[0] == 4 || p[0] == 23 then 2 + 2 * Field(p, 3)
                    else if p[0] == 7 then 3
                    else 5
  {
    hide PduOf, Word, SelfDelimiting, ByteCount;
    var p := PduOf(b, req);
    ReadHasQuantity(p);
    PduAt(b, req, 0);
    if ReadsBits(p[0]) || ReadsRegisters(p[0]) {
      PduAt(b, req, 3);
      PduAt(b, req, 4);
    }
  }

  /** What is said of every PDU the server answers with: q answers p. */
  predicate AnswerFits(p: seq<byte>, q: seq<byte>)
    requires 1 <= |p| && (ReadsBits(p[0]) || ReadsRegisters(p[0]) ==> 5 <= |p|)
  {
    && 2 <= |q|
    && (SelfDelimiting(Confirmation, q) <==> |q| <= 257)
    && (q[0] >= 0x80 ==> |q| == 2)
    && (q[0] < 0x80 ==> q[0] == p[0] && (p[0] != FC_REPORT_SLAVE_ID ==> |q| == AnsweredLength(p)))
  }

  /**
   * Whatever the server is asked and whatever its tables hold, its answer announces its own length exactly
   * as far as the byte count reaches; an exception has two bytes, a normal answer the length that follows
   * from the request.
   */
  lemma AnswerLengths(p: seq<byte>, t: Tables)
    requires Readable(p, t) && SelfDelimiting(Indication, p) && p[0] < 0x80 && !Serve(p, t).0.Silent?
    ensures 1 <= |p| && (ReadsBits(p[0]) || ReadsRegisters(p[0]) ==> 5 <= |p|)
    ensures AnswerFits(p, ReplyPdu(p, Serve(p, t).0))
  {
    hide Serve, ReplyPdu, SelfDelimiting, Readable, AnsweredLength;
    ReadHasQuantity(p);
    if ReadsBits(p[0]) {
      BitsAnswer(p, t);
    } else if ReadsRegisters(p[0]) {
      RegistersAnswer(p, t);
    } else {
      OtherAnswer(p, t);
    }
  }

  lemma BitsAnswer(p: seq<byte>, t: Tables)
    requires Readable(p, t) && ReadsBits(p[0])
    ensures AnswerFits(p, ReplyPdu(p, Serve(p, t).0))
  {
    hide Field, PackBits, ByteCount;
    LowOfSmall(ByteCount(Field(p, 3)));
  }

  lemma RegistersAnswer(p: seq<byte>, t: Tables)
    requires Readable(p, t) && ReadsRegisters(p[0])
    ensures AnswerFits(p, ReplyPdu(p, Serve(p, t).0))
  {
    hide Field, RegisterBytes, BytesRegisters, Overwrite;
    LowOfSmall(2 * Field(p, 3));
  }

  lemma OtherAnswer(p: seq<byte>, t: Tables)
    requires Readable(p, t) && SelfDelimiting(Indication, p) && p[0] < 0x80 && !Serve(p, t).0.Silent?
    requires !ReadsBits(p[0]) && !ReadsRegisters(p[0])
    ensures AnswerFits(p, ReplyPdu(p, Serve(p, t).0))
  {
    hide Field, UnpackBits, BytesRegisters, Overwrite, ByteCount;
  }

  /** The functions whose normal reply is longer than two bytes. */
  predicate AnswersLong(fc: byte) {
    fc <= FC_READ_INPUT_REGISTERS || WritesOne(fc) || WritesMany(fc) || fc == FC_REPORT_SLAVE_ID || fc == FC_WRITE_AND_READ_REGISTERS
  }

  /** A function code from 0x80 on loses its exception bit: the receiver takes the answer for a normal one. */
  lemma HighFunction(p: seq<byte>, t: Tables)
    requires Readable(p, t) && p[0] >= 0x80
    ensures !Serve(p, t).0.Silent? && ReplyPdu(p, Serve(p, t).0) == [p[0] - 0x80, ILLEGAL_FUNCTION]
    ensures SelfDelimiting(Confirmation, ReplyPdu(p, Serve(p, t).0)) <==> !AnswersLong(p[0] - 0x80)
  {
  }

  /** A request is servable if and only if the frame of its reply fits the reply buffer. */
  lemma ReplyInside(b: Backend, p: seq<byte>, t: Tables)
    requires Readable(p, t) && SelfDelimiting(Indication, p) && p[0] < 0x80 && !Serve(p, t).0.Silent?
    ensures var q := ReplyPdu(p, Serve(p, t).0);
            Servable(b, p, t) <==> b.HeaderLength() + |q| + b.ChecksumLength() <= MAX_MESSAGE_LENGTH
  {
    hide Field, ByteCount, PackBits, RegisterBytes, UnpackBits, BytesRegisters, Overwrite, SelfDelimiting;
    ReadHasQuantity(p);
    AnswerLengths(p, t);
    OtherShort(p);
  }

  lemma OtherShort(p: seq<byte>)
    requires SelfDelimiting(Indication, p)
    ensures WritesOne(p[0]) ==> |p| == 5
  {
  }

  /**
   * For every request that arrives whole - of any function, slave, transaction and protocol field - the
   * reply frame fits the buffer of modbus_reply if and only if the request is servable, and the receiver
   * delimits it if and only if it fits the largest ADU. A frame inside the buffer has the length its MBAP
   * header says; one that is neither an exception nor a slave id has the length the client computes from
   * its request; and the reply to a single write fits the twelve bytes that write_single sets aside.
   */
  lemma ReplyLengths(b: Backend, req: seq<byte>, t: Tables)
    requires Parse(b, Indication, req) == Complete(|req|) && Readable(PduOf(b, req), t)
    requires PduOf(b, req)[0] < 0x80 && !Serve(PduOf(b, req), t).0.Silent?
    ensures ReadsBits(req[b.HeaderLength()]) || ReadsRegisters(req[b.HeaderLength()]) ==> b.HeaderLength() + 5 <= |req|
    ensures var h := b.HeaderLength();
            var rsp := ReplyFrame(b, req, Serve(PduOf(b, req), t).0);
            && h < |rsp|
            && (|rsp| <= MAX_MESSAGE_LENGTH <==> Servable(b, PduOf(b, req), t))
            && (Parse(b, Confirmation, rsp) == Complete(|rsp|) <==> |rsp| <= b.MaxAduLength())
            && (|rsp| <= MAX_MESSAGE_LENGTH ==> MbapAgrees(b, rsp))
            && (rsp[h] >= 0x80 ==> |rsp| == h + 2 + b.ChecksumLength())
            && (rsp[h] < 0x80 && rsp[h] != FC_REPORT_SLAVE_ID ==> |rsp| == ComputeResponseLength(b, req))
            && (WritesOne(req[h]) ==> |rsp| <= MIN_REQ_LENGTH)
  {
    hide Serve, Parse, PduOf, SelfDelimiting, Readable, Servable, ComputeResponseLength, MbapAgrees, TidOf, SlaveOf, ProtoOf,
         ReplyFrame, ReplyPdu, Frame;
    var p := PduOf(b, req);
    DeliveredPdu(b, Indication, req);
    ComputedLength(b, req);
    AnswerLengths(p, t);
    ReplyInside(b, p, t);
    var a := Serve(p, t).0;
    var proto := if a.Echo? then ProtoOf(b, req) else [0, 0];
    var q := ReplyPdu(p, a);
    FrameDelimits(b, Confirmation, TidOf(b, req), proto, SlaveOf(b, req), q);
    if |q| < 0xFFFF {
      FrameMbap(b, TidOf(b, req), proto, SlaveOf(b, req), q);
    }
    FrameFirst(b, TidOf(b, req), proto, SlaveOf(b, req), q);
    ReplyIsFrame(b, req, a);
  }

  lemma ReplyIsFrame(b: Backend, req: seq<byte>, a: Answer)
    requires b.HeaderLength() + b.ChecksumLength() <= |req| && !a.Silent?
    ensures ReplyFrame(b, req, a) ==
            Frame(b, TidOf(b, req), if a.Echo? then ProtoOf(b, req) else [0, 0], SlaveOf(b, req), ReplyPdu(PduOf(b, req), a))
  {
    hide Frame, TidOf, ProtoOf, SlaveOf, PduOf;
  }

  lemma FrameFirst(b: Backend, tid: word, proto: seq<byte>, slave: byte, pdu: seq<byte>)
    requires |proto| == 2 && 1 <= |pdu|
    ensures Frame(b, tid, proto, slave, pdu)[b.HeaderLength()] == pdu[0]
  {
    hide Frame;
    FrameParts(b, tid, proto, slave, pdu);
    PduAt(b, Frame(b, tid, proto, slave, pdu), 0);
  }

  // ---------- The replies to the calls ----------

  /** The size of the buffer into which a client function receives its reply. */
  function ReplyCapacity(c: Call): nat {
    if c.WriteBit? || c.WriteRegister? then MIN_REQ_LENGTH else MAX_MESSAGE_LENGTH
  }

  /** The PDU length of the answer to a call whose ranges are inside the tables. */
  function CallLength(c: Call): nat {
    match c
    case ReadBits(_, nb) => 2 + ByteCount(nb)
    case ReadInputBits(_, nb) => 2 + ByteCount(nb)
    case ReadRegisters(_, nb) => 2 + 2 * nb
    case ReadInputRegisters(_, nb) => 2 + 2 * nb
    case WriteAndRead(_, _, _, nb) => 2 + 2 * nb
    case _ => 5
  }

  lemma CallAnswer(p: seq<byte>, c: Call, t: Tables)
    requires Carries(p, c) && p == RequestPdu(c) && !Expected(c, t).0.Silent?
    ensures AnsweredLength(p) == CallLength(c)
    ensures var q := ReplyPdu(p, Expected(c, t).0);
            && |q| == (if InRange(c, t) then CallLength(c) else 2)
            && |q| >= 1 && (if InRange(c, t) then q[0] == FunctionOf(c) else q[0] >= 0x80)
  {
    hide Field, UnpackBits, BytesRegisters, Truth, SelfDelimiting, ByteCount, Overwrite, PackBits, RegisterBytes, Basis, Low8, Low16;
    BasisFirst(c);
    LowOfSmall(FunctionOf(c) + 0x80);
  }

  lemma BasisFirst(c: Call)
    ensures RequestPdu(c)[..5][0] == FunctionOf(c) < 0x80
  {
  }

  /** The server's reply to a call: its exact length, which every other computation agrees with. */
  lemma CallReplyLengths(b: Backend, tid: word, slave: byte, c: Call, t: Tables)
    requires WithinLimits(c) && WellFormed(t)
    ensures var req := RequestFrame(b, tid, slave, c);
            var rsp := ServerTurn(b, slave, req, t).0;
            && |rsp| == b.HeaderLength() + (if InRange(c, t) then CallLength(c) else 2) + b.ChecksumLength()
            && Parse(b, Confirmation, rsp) == Complete(|rsp|)
            && |rsp| <= b.MaxAduLength()
            && MbapAgrees(b, rsp)
            && (InRange(c, t) ==> |rsp| == ComputeResponseLength(b, req))
            && |rsp| <= ReplyCapacity(c)
  {
    hide RequestFrame, RequestPdu, Carries, Expected, Frame, ServerTurn, ReplyPdu, ReplyFrame, Serve, Servable, Readable, PduOf,
         SlaveOf, TidOf, ProtoOf, Parse, CheckIntegrity, ComputeResponseLength, CallLength, AnsweredLength, WellFormed,
         WithinLimits, InRange, MbapAgrees;
    var p := RequestCarries(c);
    var req := RequestFrame(b, tid, slave, c);
    RequestArrives(b, tid, slave, c);
    var p' := ServeRefines(c, t);
    ServerTurnRefines(b, tid, slave, c, t);
    var a := Expected(c, t).0;
    var q := ReplyPdu(p, a);
    CallAnswer(p, c, t);
    ReplyLengths(b, req, t);
    ReplyIsFrame(b, req, a);
    FrameFirst(b, WireTid(b, tid), [0, 0], slave, q);
    RequestFirst(b, tid, slave, c);
    CarriedReadable(p, c, t);
    CallLengthBound(c);
  }

  lemma CallLengthBound(c: Call)
    requires WithinLimits(c)
    ensures CallLength(c) <= 252
  {
    if c.ReadBits? || c.ReadInputBits? {
      CountsFit(c.nb);
    }
  }

  lemma RequestFirst(b: Backend, tid: word, slave: byte, c: Call)
    requires WithinLimits(c)
    ensures RequestFrame(b, tid, slave, c)[b.HeaderLength()] == FunctionOf(c)
  {
    hide RequestFrame, PduOf, WithinLimits;
    RequestArrives(b, tid, slave, c);
    PduAt(b, RequestFrame(b, tid, slave, c), 0);
  }

  // ---------- How far the one-byte counts reach ----------

  /**
   * The server does not look at the quantity of a register read. The frame of its reply stays inside the
   * reply buffer up to 127 registers on RTU, where the CRC is short, and up to 125 on TCP; the receiver
   * delimits it if and only if there are at most 125, the limit of the client functions. So on RTU replies
   * of 126 and 127 registers are sent and refused for their length.
   */
  lemma RegisterCountReach(b: Backend, tid: word, slave: byte, fc: byte, values: seq<word>)
    requires ReadsRegisters(fc)
    ensures var f := Frame(b, tid, [0, 0], slave, RegistersReply(fc, values).pdu);
            && (|f| <= MAX_MESSAGE_LENGTH <==> |values| <= if b.RTU? then 127 else 125)
            && (Parse(b, Confirmation, f) == Complete(|f|) <==> |values| <= MAX_READ_REGISTERS)
  {
    hide RegisterBytes, Frame, Parse;
    var q := RegistersReply(fc, values).pdu;
    assert q[1] == (2 * |values|) % 0x100 && |q| == 2 + 2 * |values|;
    FrameDelimits(b, Confirmation, tid, [0, 0], slave, q);
  }

  /**
   * Nor at that of a bit read. There the frame stays inside the buffer up to 2040 bits on RTU and 2008 on
   * TCP, and the receiver delimits it if and only if there are at most 2008, eight more than the client
   * functions ask for.
   */
  lemma BitCountReach(b: Backend, tid: word, slave: byte, fc: byte, cells: seq<byte>)
    requires ReadsBits(fc)
    ensures var f := Frame(b, tid, [0, 0], slave, BitsReply(fc, cells).pdu);
            && (|f| <= MAX_MESSAGE_LENGTH <==> |cells| <= if b.RTU? then 2040 else 2008)
            && (Parse(b, Confirmation, f) == Complete(|f|) <==> |cells| <= 2008)
  {
    hide PackBits, Frame, Parse, ByteCount;
    var q := BitsReply(fc, cells).pdu;
    ByteCountReach(|cells|);
    assert q[1] == ByteCount(|cells|) % 0x100 && |q| == 2 + ByteCount(|cells|);
    FrameDelimits(b, Confirmation, tid, [0, 0], slave, q);
  }

  lemma ByteCountReach(n: nat)
    ensures ByteCount(n) <= 251 <==> n <= 2008
    ensures ByteCount(n) <= 255 <==> n <= 2040
  {
  }
}
