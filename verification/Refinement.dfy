/** The whole exchange, byte for byte, against the ideal memory. */
module Refinement {
  import opened Bytes
  import opened BitTables
  import opened Errors
  import opened Backends
  import opened Receive
  import opened Memory
  import opened Server
  import opened Protocol

  // ---------- Requests ----------

  /** The fields of a built request are the 16-bit values that were meant. */
  lemma BasisFields(function_: byte, addr: word, nb: word, rest: seq<byte>)
    ensures var p := Basis(function_, addr, nb) + rest; Field(p, 1) == addr && Field(p, 3) == nb
  {
    WordOfHalves(addr);
    WordOfHalves(nb);
    hide Hi, Lo, Word;
  }

  /** Within the limits every byte count fits a byte, and a bit count of bytes is exact. */
  lemma CountsFit(nb: nat)
    requires nb <= MAX_READ_BITS
    ensures ByteCount(nb) <= 250
    ensures nb <= MAX_WRITE_BITS ==> ByteCount(nb) <= 246
  {
  }

  /** What the server must find in a request of a given call. */
  predicate Carries(p: seq<byte>, c: Call) {
    && SelfDelimiting(Indication, p)
    && |p| <= 253
    && p[0] == FunctionOf(c)
    && 5 <= |p|
    && match c
       case ReadBits(a, nb) => Field(p, 1) == a && Field(p, 3) == nb
       case ReadInputBits(a, nb) => Field(p, 1) == a && Field(p, 3) == nb
       case ReadRegisters(a, nb) => Field(p, 1) == a && Field(p, 3) == nb
       case ReadInputRegisters(a, nb) => Field(p, 1) == a && Field(p, 3) == nb
       case WriteBit(a, on) => Field(p, 1) == a && Field(p, 3) == if on then 0xFF00 else 0
       case WriteRegister(a, v) => Field(p, 1) == a && Field(p, 3) == v
       case WriteBits(a, cells) =>
         Field(p, 1) == a && Field(p, 3) == |cells|
         && p[6..] == PackBits(Truth(cells))
       case WriteRegisters(a, values) =>
         Field(p, 1) == a && Field(p, 3) == |values| && p[6..] == RegisterBytes(values)
       case WriteAndRead(w, values, a, nb) =>
         Field(p, 1) == a && Field(p, 3) == nb && Field(p, 5) == w && Field(p, 7) == |values|
         && p[10..] == RegisterBytes(values)
  }

  /** A built request carries its call, is as long as the receiver's tables say, and fits every ADU. */
  lemma RequestCarries(c: Call) returns (p: seq<byte>)
    requires WithinLimits(c)
    ensures p == RequestPdu(c) && Carries(p, c)
  {
    hide *;
    match c
    case WriteBits(a, cells) => p := WriteBitsCarries(a, cells);
    case WriteRegisters(a, values) => p := WriteRegistersCarries(a, values);
    case WriteAndRead(w, values, a, nb) => p := WriteAndReadCarries(w, values, a, nb);
    case _ => p := PlainCarries(c);
  }

  /** The last two bytes of a request that has no data. */
  function Quantity(c: Call): word
    requires !c.WriteBits? && !c.WriteRegisters? && !c.WriteAndRead?
  {
    match c
    case WriteBit(_, on) => if on then 0xFF00 else 0
    case WriteRegister(_, v) => v
    case ReadBits(_, nb) => Low16(nb)
    case ReadInputBits(_, nb) => Low16(nb)
    case ReadRegisters(_, nb) => Low16(nb)
    case ReadInputRegisters(_, nb) => Low16(nb)
  }

  lemma PlainCarries(c: Call) returns (p: seq<byte>)
    requires WithinLimits(c)
    requires !c.WriteBits? && !c.WriteRegisters? && !c.WriteAndRead?
    ensures p == RequestPdu(c) && Carries(p, c)
  {
    hide Field, Basis, Low16, Carries;
    p := RequestPdu(c);
    var nb := Quantity(c);
    assert p == Basis(FunctionOf(c), c.addr, nb) == Basis(FunctionOf(c), c.addr, nb) + [];
    BasisFields(FunctionOf(c), c.addr, nb, []);
    PlainShape(p, c);
  }

  lemma PlainShape(p: seq<byte>, c: Call)
    requires WithinLimits(c) && |p| == 5 && p[0] == FunctionOf(c)
    requires !c.WriteBits? && !c.WriteRegisters? && !c.WriteAndRead?
    requires Field(p, 1) == c.addr && Field(p, 3) == Quantity(c)
    ensures Carries(p, c)
  {
    hide Field, Low16, ByteCount;
    if c.ReadBits? || c.ReadInputBits? || c.ReadRegisters? || c.ReadInputRegisters? {
      LowOfSmall(c.nb);
    }
  }

  lemma WriteBitsCarries(a: word, cells: seq<byte>) returns (p: seq<byte>)
    requires WithinLimits(WriteBits(a, cells))
    ensures p == RequestPdu(WriteBits(a, cells)) && Carries(p, WriteBits(a, cells))
  {
    hide PackBits, Field, Low16, Low8, ByteCount, Basis, Truth, Carries;
    var c, n := WriteBits(a, cells), |cells|;
    var data := [Low8(ByteCount(n))] + PackBits(Truth(cells));
    p := RequestPdu(c);
    CountsFit(n);
    LowOfSmall(n);
    LowOfSmall(ByteCount(n));
    assert p == Basis(FunctionOf(c), a, Low16(n)) + data;
    BasisFields(FunctionOf(c), a, Low16(n), data);
    WriteBitsShape(p, a, cells);
  }

  lemma WriteBitsShape(p: seq<byte>, a: word, cells: seq<byte>)
    requires WithinLimits(WriteBits(a, cells))
    requires |p| == 6 + ByteCount(|cells|) && p[0] == FC_WRITE_MULTIPLE_COILS && p[5] == ByteCount(|cells|)
    requires Field(p, 1) == a && Field(p, 3) == |cells|
    requires p[6..] == PackBits(Truth(cells))
    ensures Carries(p, WriteBits(a, cells))
  {
    CountsFit(|cells|);
    hide Field, PackBits, ByteCount, Truth;
  }

  lemma WriteRegistersCarries(a: word, values: seq<word>) returns (p: seq<byte>)
    requires WithinLimits(WriteRegisters(a, values))
    ensures p == RequestPdu(WriteRegisters(a, values)) && Carries(p, WriteRegisters(a, values))
  {
    hide RegisterBytes, Field, Low16, Low8, Basis;
    var c, n := WriteRegisters(a, values), |values|;
    var data := [Low8(2 * n)] + RegisterBytes(values);
    p := RequestPdu(c);
    LowOfSmall(n);
    LowOfSmall(2 * n);
    assert p == Basis(FunctionOf(c), a, Low16(n)) + data;
    BasisFields(FunctionOf(c), a, Low16(n), data);
    assert p[5] == 2 * n;
  }

  lemma WriteAndReadCarries(w: word, values: seq<word>, a: word, nb: nat) returns (p: seq<byte>)
    requires WithinLimits(WriteAndRead(w, values, a, nb))
    ensures p == RequestPdu(WriteAndRead(w, values, a, nb)) && Carries(p, WriteAndRead(w, values, a, nb))
  {
    hide RegisterBytes, Low16, Low8, Hi, Lo, Basis, Word;
    var c, n := WriteAndRead(w, values, a, nb), |values|;
    var data := [Hi(w), Lo(w), Hi(n), Lo(n), Low8(2 * n)] + RegisterBytes(values);
    p := RequestPdu(c);
    LowOfSmall(nb);
    LowOfSmall(n);
    LowOfSmall(2 * n);
    assert p == Basis(FunctionOf(c), a, nb) + data;
    BasisFields(FunctionOf(c), a, nb, data);
    WordOfHalves(w);
    WordOfHalves(n);
    assert p[5] == Hi(w) && p[6] == Lo(w) && p[7] == Hi(n) && p[8] == Lo(n) && p[9] == 2 * n;
  }

  // ---------- The server refines the ideal memory ----------

  /** The answer to a call whose ranges are inside the tables. */
  function AnswerTo(c: Call, t: Tables): Answer
    requires InRange(c, t)
  {
    var fc := FunctionOf(c);
    match c
    case WriteBit(_, _) => Echo
    case WriteRegister(_, _) => Echo
    case WriteBits(_, _) => Reply(RequestPdu(c)[..5])
    case WriteRegisters(_, _) => Reply(RequestPdu(c)[..5])
    case _ =>
      match Answered(c, t)
      case Cells(cells) => BitsReply(fc, cells)
      case Registers(values) => RegistersReply(fc, values)
      case _ => Silent
  }

  function Expected(c: Call, t: Tables): (Answer, Tables) {
    if InRange(c, t) then (AnswerTo(c, t), After(c, t)) else (Exception(FunctionOf(c), ILLEGAL_DATA_ADDRESS), t)
  }

  /** modbus_reply, given the request of a call, does to the tables what the call means. */
  lemma ServeRefines(c: Call, t: Tables) returns (p: seq<byte>)
    requires WithinLimits(c)
    ensures p == RequestPdu(c) && Readable(p, t) && Serve(p, t) == Expected(c, t)
  {
    hide *;
    p := RequestCarries(c);
    CarriedRefines(p, c, t);
  }

  lemma CarriedRefines(p: seq<byte>, c: Call, t: Tables)
    requires Carries(p, c) && p == RequestPdu(c) && WithinLimits(c)
    ensures Readable(p, t) && Serve(p, t) == Expected(c, t)
  {
    hide *;
    CarriedReadable(p, c, t);
    match c
    case WriteBits(_, _) => WriteManyRefines(p, c, t);
    case WriteRegisters(_, _) => WriteManyRefines(p, c, t);
    case WriteAndRead(_, _, _, _) => WriteManyRefines(p, c, t);
    case WriteBit(a, on) => WriteBitRefines(p, a, on, t);
    case WriteRegister(a, v) => WriteRegisterRefines(p, a, v, t);
    case _ => ReadRefines(p, c, t);
  }

  /** The server may be given the request of a call, on either backend and whatever its tables are. */
  lemma CarriedServable(b: Backend, p: seq<byte>, c: Call, t: Tables)
    requires Carries(p, c) && WithinLimits(c)
    ensures Servable(b, p, t)
  {
    hide Field, PackBits, RegisterBytes, Truth, SelfDelimiting, RangeInside;
    CarriedReadable(p, c, t);
    if c.ReadBits? || c.ReadInputBits? {
      CountsFit(c.nb);
    }
  }

  lemma CarriedReadable(p: seq<byte>, c: Call, t: Tables)
    requires Carries(p, c)
    ensures Readable(p, t)
  {
    hide Field, PackBits, RegisterBytes, Truth, SelfDelimiting, RangeInside;
    CarriedData(p, c);
  }

  lemma CarriedData(p: seq<byte>, c: Call)
    requires Carries(p, c)
    ensures c.WriteBits? ==> 6 + ByteCount(|c.cells|) <= |p|
    ensures c.WriteRegisters? ==> 6 + 2 * |c.values| <= |p|
    ensures c.WriteAndRead? ==> 10 + 2 * |c.values| <= |p|
  {
    hide Field, ByteCount;
  }

  lemma ReadRefines(p: seq<byte>, c: Call, t: Tables)
    requires Carries(p, c) && p == RequestPdu(c) && Readable(p, t)
    requires c.ReadBits? || c.ReadInputBits? || c.ReadRegisters? || c.ReadInputRegisters?
    ensures Serve(p, t) == Expected(c, t)
  {
    hide RequestPdu, Field, UnpackBits, BytesRegisters, BitsReply, RegistersReply, Truth, SelfDelimiting, ByteCount, Overwrite;
  }

  lemma WriteManyRefines(p: seq<byte>, c: Call, t: Tables)
    requires Carries(p, c) && p == RequestPdu(c) && Readable(p, t)
    requires c.WriteBits? || c.WriteRegisters? || c.WriteAndRead?
    ensures Serve(p, t) == Expected(c, t)
  {
    hide RequestPdu, Field, UnpackBits, BytesRegisters, RegisterBytes, PackBits, BitsReply, RegistersReply, Truth,
         SelfDelimiting, ByteCount, Overwrite;
    CarriedData(p, c);
    if c.WriteBits? {
      UnpackPack(Truth(c.cells), []);
      assert p[6..6 + ByteCount(|c.cells|)] == PackBits(Truth(c.cells)) + [];
    } else {
      RegistersRoundTrip(c.values, []);
      assert RegisterBytes(c.values) + [] == RegisterBytes(c.values);
    }
  }

  lemma WriteBitRefines(p: seq<byte>, a: word, on: bool, t: Tables)
    requires Carries(p, WriteBit(a, on)) && Readable(p, t)
    ensures Serve(p, t) == Expected(WriteBit(a, on), t)
  {
    hide RequestPdu, Field, UnpackBits, BytesRegisters, BitsReply, RegistersReply, Truth, SelfDelimiting, ByteCount, Overwrite;
    if a < |t.bits| {
      OverwriteOne(t.bits, a, if on then 1 else 0);
    }
  }

  lemma WriteRegisterRefines(p: seq<byte>, a: word, v: word, t: Tables)
    requires Carries(p, WriteRegister(a, v)) && Readable(p, t)
    ensures Serve(p, t) == Expected(WriteRegister(a, v), t)
  {
    hide RequestPdu, Field, UnpackBits, BytesRegisters, BitsReply, RegistersReply, Truth, SelfDelimiting, ByteCount, Overwrite;
    if a < |t.registers| {
      OverwriteOne(t.registers, a, v);
    }
  }

  lemma OverwriteOne<T>(s: seq<T>, a: nat, x: T)
    requires a < |s|
    ensures Overwrite(s, a, [x]) == s[a := x]
  {
  }

  // ---------- The client understands the reply ----------

  /** The PDU that travels back for an answer. */
  function ReplyPdu(p: seq<byte>, a: Answer): seq<byte>
    requires !a.Silent?
  {
    if a.Echo? then p else a.pdu
  }

  /** What the client makes of an accepted reply PDU: the loops of read_io_status and read_registers. */
  function DecodeReply(c: Call, q: seq<byte>, count: nat): Outcome
    requires c.ReadBits? || c.ReadInputBits? ==> 2 + ByteCount(c.nb) <= |q|
    requires c.ReadRegisters? || c.ReadInputRegisters? || c.WriteAndRead? ==> 2 + 2 * count <= |q|
  {
    match c
    case ReadBits(_, nb) => Cells(UnpackBits(q[2..], nb))
    case ReadInputBits(_, nb) => Cells(UnpackBits(q[2..], nb))
    case ReadRegisters(_, _) => Registers(BytesRegisters(q[2..], count))
    case ReadInputRegisters(_, _) => Registers(BytesRegisters(q[2..], count))
    case WriteAndRead(_, _, _, _) => Registers(BytesRegisters(q[2..], count))
    case _ => Written(count)
  }

  /** A reply that is checked and decoded to a given outcome. */
  predicate Understood(c: Call, p: seq<byte>, q: seq<byte>, o: Outcome)
    requires 5 <= |p| && Called(p[0])
  {
    && SelfDelimiting(Confirmation, q)
    && 1 <= |q| <= 252
    && match CheckPdu(p, q)
       case Refused(e) => o == Failed(e)
       case Accepted(n) =>
         && (c.ReadBits? || c.ReadInputBits? ==> |q| == 2 + ByteCount(c.nb) && n == ByteCount(c.nb))
         && (c.ReadRegisters? || c.ReadInputRegisters? || c.WriteAndRead? ==> |q| == 2 + 2 * n)
         && DecodeReply(c, q, n) == o
  }

  lemma ExceptionUnderstood(c: Call, p: seq<byte>)
    requires 5 <= |p| && p[0] == FunctionOf(c)
    ensures Understood(c, p, Exception(FunctionOf(c), ILLEGAL_DATA_ADDRESS).pdu, Failed(EMBXILADD))
  {
    hide Field, ByteCount, Answers, AnsweredCount, DecodeReply;
  }

  lemma BitsUnderstood(c: Call, p: seq<byte>, cells: seq<byte>)
    requires c.ReadBits? || c.ReadInputBits?
    requires 5 <= |p| && p[0] == FunctionOf(c) && Field(p, 3) == c.nb == |cells| <= MAX_READ_BITS
    requires Flags(cells)
    ensures Understood(c, p, BitsReply(FunctionOf(c), cells).pdu, Cells(cells))
  {
    hide PackBits, UnpackBits, Field, ByteCount, Low8;
    var q := BitsReply(FunctionOf(c), cells).pdu;
    CountsFit(|cells|);
    LowOfSmall(ByteCount(|cells|));
    assert q[2..] == PackBits(cells) + [];
    UnpackPack(cells, []);
  }

  lemma RegistersUnderstood(c: Call, p: seq<byte>, values: seq<word>)
    requires c.ReadRegisters? || c.ReadInputRegisters? || c.WriteAndRead?
    requires 5 <= |p| && p[0] == FunctionOf(c) && Field(p, 3) == c.nb == |values| <= MAX_READ_REGISTERS
    ensures Understood(c, p, RegistersReply(FunctionOf(c), values).pdu, Registers(values))
  {
    hide RegisterBytes, BytesRegisters, Field, Low8;
    var q := RegistersReply(FunctionOf(c), values).pdu;
    LowOfSmall(2 * |values|);
    assert q[2..] == RegisterBytes(values) + [];
    RegistersRoundTrip(values, []);
  }

  lemma WriteUnderstood(c: Call, p: seq<byte>, q: seq<byte>, count: nat)
    requires c.WriteBit? || c.WriteRegister? || c.WriteBits? || c.WriteRegisters?
    requires 5 <= |p| && p[0] == FunctionOf(c) && q == p[..5]
    requires count == if c.WriteBit? || c.WriteRegister? then 1 else Field(p, 3)
    ensures Understood(c, p, q, Written(count))
  {
    assert Field(q, 3) == Field(p, 3);
    hide Field;
  }

  /** Whatever the tables hold, the reply to a call is decoded to what the ideal memory would return. */
  lemma ReplyUnderstood(p: seq<byte>, c: Call, t: Tables)
    requires Carries(p, c) && p == RequestPdu(c) && WithinLimits(c) && WellFormed(t)
    ensures Called(p[0]) && !Expected(c, t).0.Silent?
    ensures Understood(c, p, ReplyPdu(p, Expected(c, t).0), Perform(c, t).0)
  {
    hide RequestPdu, Field, UnpackBits, BytesRegisters, BitsReply, RegistersReply, Truth, SelfDelimiting, ByteCount, Overwrite, Understood;
    if !InRange(c, t) {
      ExceptionUnderstood(c, p);
    } else {
      match c
      case ReadBits(a, nb) => BitsUnderstood(c, p, t.bits[a..a + nb]);
      case ReadInputBits(a, nb) => BitsUnderstood(c, p, t.inputBits[a..a + nb]);
      case ReadRegisters(a, nb) => RegistersUnderstood(c, p, t.registers[a..a + nb]);
      case ReadInputRegisters(a, nb) => RegistersUnderstood(c, p, t.inputRegisters[a..a + nb]);
      case WriteAndRead(w, values, a, nb) => RegistersUnderstood(c, p, After(c, t).registers[a..a + nb]);
      case WriteBit(_, _) => SingleEcho(p, c); WriteUnderstood(c, p, p, 1);
      case WriteRegister(_, _) => SingleEcho(p, c); WriteUnderstood(c, p, p, 1);
      case WriteBits(_, cells) => WriteUnderstood(c, p, p[..5], |cells|);
      case WriteRegisters(_, values) => WriteUnderstood(c, p, p[..5], |values|);
    }
  }

  lemma SingleEcho(p: seq<byte>, c: Call)
    requires p == RequestPdu(c) && (c.WriteBit? || c.WriteRegister?)
    ensures p == p[..5]
  {
  }

  // ---------- The whole exchange, in bytes ----------

  /** A frame at the front of the traffic is delivered, and exactly its bytes are taken. */
  lemma FrameDelivered(b: Backend, t: MsgType, f: seq<byte>, rest: seq<byte>, later: seq<seq<byte>>)
    requires f != [] && Parse(b, t, f) == Complete(|f|)
    ensures Delivered(b, t, Traffic(f + rest, later)) == f
    ensures Stored(b, t, Traffic(f + rest, later)) == |f|
    ensures Remaining(b, t, Traffic(f + rest, later)) == Traffic(rest, later)
  {
    ParsePrefix(b, t, f, rest);
    hide Parse;
  }

  /** modbus_receive and modbus_reply on the server: the frame it sends, if any, and its tables afterwards. */
  function ServerTurn(b: Backend, slave: byte, line: seq<byte>, t: Tables): (seq<byte>, Tables) {
    var req := Delivered(b, Indication, Traffic(line, []));
    if req == [] || CheckIntegrity(b, slave, req) <= 0 || !Servable(b, PduOf(b, req), t) then ([], t)
    else
      var (a, t') := Serve(PduOf(b, req), t);
      (if a.Silent? then [] else ReplyFrame(b, req, a), t')
  }

  /**
   * The client from the arrival of a reply to the end of check_confirmation. For the reply of another slave
   * the receiver returns 0, and that is the length passed on.
   */
  function ClientCheck(b: Backend, slave: byte, req: seq<byte>, line: Traffic): Checked
    requires b.HeaderLength() + 5 <= |req|
  {
    var rc := ReceiveResult(b, slave, Confirmation, line);
    if rc == -1 then Refused(ReceiveErrno(b, Confirmation, line))
    else
      DeliveredWhole(b, Confirmation, line);
      CheckLength(b, req, Delivered(b, Confirmation, line), rc)
  }

  /** The client from the arrival of the reply on. */
  function ClientTurn(b: Backend, slave: byte, c: Call, req: seq<byte>, line: seq<byte>): Outcome
    requires b.HeaderLength() + 5 <= |req|
  {
    match ClientCheck(b, slave, req, Traffic(line, []))
    case Refused(e) => Failed(e)
    case Accepted(n) =>
      var rsp := Delivered(b, Confirmation, Traffic(line, []));
      var q := PduOf(b, rsp);
      if (c.ReadBits? || c.ReadInputBits? ==> 2 + ByteCount(c.nb) <= |q|)
         && (c.ReadRegisters? || c.ReadInputRegisters? || c.WriteAndRead? ==> 2 + 2 * n <= |q|)
      then DecodeReply(c, q, n)
      else Failed(NO_REPLY) // never for the request of the call itself, by ExactAcceptance
  }

  /** RTU frames carry no transaction identifier. */
  function WireTid(b: Backend, tid: word): word { if b.TCP? then tid else 0 }

  function RequestFrame(b: Backend, tid: word, slave: byte, c: Call): (f: seq<byte>)
    ensures b.HeaderLength() + 5 + b.ChecksumLength() <= |f|
  {
    Frame(b, tid, [0, 0], slave, RequestPdu(c))
  }

  /** One call: request frame, server, reply frame, check, decoding. */
  function Exchange(b: Backend, tid: word, slave: byte, c: Call, t: Tables): (Outcome, Tables) {
    if !WithinLimits(c) then (Failed(EMBMDATA), t)
    else
      var req := RequestFrame(b, tid, slave, c);
      var (rsp, t') := ServerTurn(b, slave, req, t);
      (ClientTurn(b, slave, c, req, rsp), t')
  }

  /** The request frame of a call arrives whole, intact, and with its PDU. */
  lemma RequestArrives(b: Backend, tid: word, slave: byte, c: Call)
    requires WithinLimits(c)
    ensures var f := RequestFrame(b, tid, slave, c);
            && Parse(b, Indication, f) == Complete(|f|)
            && CheckIntegrity(b, slave, f) == |f|
            && PduOf(b, f) == RequestPdu(c)
            && SlaveOf(b, f) == slave
            && TidOf(b, f) == WireTid(b, tid)
            && ProtoOf(b, f) == [0, 0]
            && |f| <= b.MaxAduLength()
  {
    hide *;
    var p := RequestCarries(c);
    CarriedShape(p, c);
    PduArrives(b, tid, slave, p);
    FrameOf(b, tid, slave, c);
  }

  lemma FrameOf(b: Backend, tid: word, slave: byte, c: Call)
    ensures RequestFrame(b, tid, slave, c) == Frame(b, tid, [0, 0], slave, RequestPdu(c))
  {
    hide Frame, RequestPdu;
  }

  lemma PduArrives(b: Backend, tid: word, slave: byte, p: seq<byte>)
    requires SelfDelimiting(Indication, p) && 1 <= |p| <= 253
    ensures var f := Frame(b, tid, [0, 0], slave, p);
            && Parse(b, Indication, f) == Complete(|f|)
            && CheckIntegrity(b, slave, f) == |f|
            && PduOf(b, f) == p
            && SlaveOf(b, f) == slave
            && TidOf(b, f) == WireTid(b, tid)
            && ProtoOf(b, f) == [0, 0]
            && |f| <= b.MaxAduLength()
  {
    hide CheckIntegrity, Parse, Seal, SelfDelimiting;
    FrameParses(b, Indication, tid, [0, 0], slave, p);
    FrameParts(b, tid, [0, 0], slave, p);
    SealedIsIntact(b, slave, Head(b, tid, [0, 0], slave) + p);
  }

  lemma CarriedShape(p: seq<byte>, c: Call)
    requires Carries(p, c)
    ensures SelfDelimiting(Indication, p) && 5 <= |p| <= 253
  {
  }

  /** The reply frame for a call arrives whole, intact, and from the right slave and transaction. */
  lemma ReplyArrives(b: Backend, tid: word, slave: byte, q: seq<byte>, req: seq<byte>)
    requires SelfDelimiting(Confirmation, q) && 1 <= |q| <= 252
    requires b.HeaderLength() <= |req| && SlaveOf(b, req) == slave
    requires b.TCP? ==> TidOf(b, req) == tid
    ensures var f := Frame(b, tid, [0, 0], slave, q);
            && Parse(b, Confirmation, f) == Complete(|f|)
            && CheckIntegrity(b, slave, f) == |f|
            && PduOf(b, f) == q
            && PreCheck(b, req, f)
            && |f| <= b.MaxAduLength()
  {
    hide CheckIntegrity, Parse, Seal, SelfDelimiting;
    FrameParses(b, Confirmation, tid, [0, 0], slave, q);
    FrameParts(b, tid, [0, 0], slave, q);
    SealedIsIntact(b, slave, Head(b, tid, [0, 0], slave) + q);
    SamePrefix(b, tid, slave, req, Frame(b, tid, [0, 0], slave, q));
  }

  lemma SamePrefix(b: Backend, tid: word, slave: byte, req: seq<byte>, f: seq<byte>)
    requires b.HeaderLength() <= |req| && b.HeaderLength() <= |f|
    requires SlaveOf(b, req) == SlaveOf(b, f) == slave
    requires b.TCP? ==> TidOf(b, req) == TidOf(b, f) == tid
    ensures PreCheck(b, req, f)
  {
    if b.TCP? {
      HalvesOfWord(req[0], req[1]);
      HalvesOfWord(f[0], f[1]);
    }
  }

  /** What the server sends for the request of a call. */
  lemma ServerTurnRefines(b: Backend, tid: word, slave: byte, c: Call, t: Tables)
    requires WithinLimits(c) && WellFormed(t)
    ensures !Expected(c, t).0.Silent?
    ensures ServerTurn(b, slave, RequestFrame(b, tid, slave, c), t) ==
            (Frame(b, WireTid(b, tid), [0, 0], slave, ReplyPdu(RequestPdu(c), Expected(c, t).0)), Expected(c, t).1)
  {
    var f := RequestFrame(b, tid, slave, c);
    RequestArrives(b, tid, slave, c);
    FrameDelivered(b, Indication, f, [], []);
    assert f + [] == f;
    var p := RequestCarries(c);
    var p' := ServeRefines(c, t);
    CarriedServable(b, p, c, t);
    ReplyNotSilent(c, t);
    hide RequestFrame, RequestPdu, Carries, Serve, Servable, Readable, Expected, Frame, CheckIntegrity, Parse, Delivered, TidOf, SlaveOf, ProtoOf, PduOf;
  }

  lemma ReplyNotSilent(c: Call, t: Tables)
    requires WithinLimits(c) && WellFormed(t)
    ensures !Expected(c, t).0.Silent?
  {
    var p := RequestCarries(c);
    ReplyUnderstood(p, c, t);
    hide *;
  }

  /** A frame that passes the integrity check is checked with its own length. */
  lemma CheckOfIntact(b: Backend, slave: byte, req: seq<byte>, line: Traffic)
    requires b.HeaderLength() + 5 <= |req| && Delivered(b, Confirmation, line) != []
    requires CheckIntegrity(b, slave, Delivered(b, Confirmation, line)) == |Delivered(b, Confirmation, line)|
    ensures WholeReply(b, Delivered(b, Confirmation, line))
    ensures ClientCheck(b, slave, req, line) == CheckConfirmation(b, req, Delivered(b, Confirmation, line))
  {
    DeliveredWhole(b, Confirmation, line);
    hide Delivered, CheckIntegrity, Parse, CheckLength;
  }

  /**
   * Without a frame the client fails: with EMBBADDATA if a reply with a byte count of more than 251 begins to
   * arrive, and with whatever the end of the wait has left in errno if not.
   */
  lemma NothingDelivered(b: Backend, slave: byte, req: seq<byte>, line: Traffic)
    requires b.HeaderLength() + 5 <= |req| && Delivered(b, Confirmation, line) == []
    ensures var h, s := b.HeaderLength(), line.now;
            ClientCheck(b, slave, req, line) ==
            if h + 2 <= |s| && (s[h] <= 4 || s[h] == 17 || s[h] == 23) && s[h + 1] > 251 then Refused(112345678 + 13)
            else Refused(NO_REPLY)
  {
    hide CheckIntegrity, CheckLength;
  }

  /** A reply frame whose PDU is understood passes every check of the client. */
  lemma ReplyPasses(b: Backend, tid: word, slave: byte, c: Call, q: seq<byte>, o: Outcome)
    requires WithinLimits(c) && Called(RequestPdu(c)[0])
    requires Understood(c, RequestPdu(c), q, o)
    ensures var f := Frame(b, WireTid(b, tid), [0, 0], slave, q);
            && f != []
            && Delivered(b, Confirmation, Traffic(f, [])) == f
            && CheckIntegrity(b, slave, f) == |f|
            && WholeReply(b, f)
            && ClientCheck(b, slave, RequestFrame(b, tid, slave, c), Traffic(f, [])) == CheckPdu(RequestPdu(c), q)
            && PduOf(b, f) == q
            && |f| <= b.MaxAduLength()
  {
    hide RequestFrame, RequestPdu, Frame, CheckIntegrity, Parse, Delivered, TidOf, SlaveOf, ProtoOf, PduOf, PreCheck, ClientCheck, CheckConfirmation, DecodeReply, CheckPdu, SelfDelimiting, Called;
    var req := RequestFrame(b, tid, slave, c);
    var tid' := WireTid(b, tid);
    var f := Frame(b, tid', [0, 0], slave, q);
    RequestArrives(b, tid, slave, c);
    ReplyArrives(b, tid', slave, q, req);
    FrameDelivered(b, Confirmation, f, [], []);
    assert f + [] == f;
    CheckAtPdu(b, req, f);
    CheckOfIntact(b, slave, req, Traffic(f, []));
  }

  /** What the client makes of a reply frame that is understood. */
  lemma ClientTurnUnderstands(b: Backend, tid: word, slave: byte, c: Call, q: seq<byte>, o: Outcome)
    requires WithinLimits(c) && Called(RequestPdu(c)[0])
    requires Understood(c, RequestPdu(c), q, o)
    ensures ClientTurn(b, slave, c, RequestFrame(b, tid, slave, c), Frame(b, WireTid(b, tid), [0, 0], slave, q)) == o
  {
    ReplyPasses(b, tid, slave, c, q, o);
    hide RequestFrame, RequestPdu, Frame, CheckIntegrity, Parse, WholeReply, Delivered, PduOf, ClientCheck, CheckConfirmation, DecodeReply, CheckPdu, SelfDelimiting, Called;
  }

  /**
   * One call on either backend, with any slave address and transaction identifier, returns what the
   * ideal memory returns and leaves the tables as the ideal memory does.
   */
  lemma ExchangeRefines(b: Backend, tid: word, slave: byte, c: Call, t: Tables)
    requires WellFormed(t)
    ensures Exchange(b, tid, slave, c, t) == Perform(c, t)
  {
    if WithinLimits(c) {
      var p := RequestCarries(c);
      ServerTurnRefines(b, tid, slave, c, t);
      ReplyUnderstood(p, c, t);
      ClientTurnUnderstands(b, tid, slave, c, ReplyPdu(p, Expected(c, t).0), Perform(c, t).0);
      ExpectedTables(c, t);
      hide RequestFrame, RequestPdu, Carries, Expected, Frame, ServerTurn, ClientTurn, ReplyPdu, Understood, Perform;
    }
  }

  lemma ExpectedTables(c: Call, t: Tables)
    requires WithinLimits(c)
    ensures Expected(c, t).1 == Perform(c, t).1
  {
  }

  /**
   * Write-and-read does all its writes before its read, for overlapping and disjoint ranges alike: the
   * client receives the table after the write, and registers outside the written range stay.
   */
  lemma WritesBeforeReads(b: Backend, tid: word, slave: byte, c: Call, t: Tables)
    requires c.WriteAndRead? && WithinLimits(c) && InRange(c, t) && WellFormed(t)
    ensures var (o, t') := Exchange(b, tid, slave, c, t); ReadAfterWrite(c, t, o, t')
  {
    ExchangeRefines(b, tid, slave, c, t);
    WritesFirst(c, t);
    hide Exchange, Perform, ReadAfterWrite, WellFormed, InRange, WithinLimits;
  }

  /** A call fails exactly when its quantity or its range is refused, with that reason, and then changes nothing. */
  lemma FailuresChangeNothing(b: Backend, tid: word, slave: byte, c: Call, t: Tables)
    requires WellFormed(t)
    ensures var (o, t') := Exchange(b, tid, slave, c, t);
            && (o.Failed? <==> !WithinLimits(c) || !InRange(c, t))
            && (o.Failed? ==> t' == t && o.errno == 112345678 + if WithinLimits(c) then 2 else 16)
  {
    ExchangeRefines(b, tid, slave, c, t);
    hide Exchange, WellFormed, InRange, WithinLimits;
  }

  /** The quantities that are refused before anything is sent, and no others. */
  lemma QuantityLimits(b: Backend, tid: word, slave: byte, c: Call, t: Tables)
    requires WellFormed(t)
    ensures Exchange(b, tid, slave, c, t).0 == Failed(112345678 + 16) <==>
            match c
            case ReadBits(_, nb) => nb > 2000
            case ReadInputBits(_, nb) => nb > 2000
            case ReadRegisters(_, nb) => nb > 125
            case ReadInputRegisters(_, nb) => nb > 125
            case WriteBit(_, _) => false
            case WriteRegister(_, _) => false
            case WriteBits(_, cells) => |cells| > 1968
            case WriteRegisters(_, values) => |values| > 123
            case WriteAndRead(_, values, _, nb) => |values| > 121 || nb > 125
  {
    FailuresChangeNothing(b, tid, slave, c, t);
    hide Exchange, WellFormed, InRange;
  }

  /** A coil that is written becomes 1 for any source cell other than 0, and every other coil stays. */
  lemma CoilsOverWire(b: Backend, tid: word, slave: byte, addr: word, cells: seq<byte>, t: Tables)
    requires WellFormed(t) && |cells| <= 1968 && addr + |cells| <= |t.bits|
    ensures var (o, t') := Exchange(b, tid, slave, WriteBits(addr, cells), t);
            && o == Written(|cells|) && t' == t.(bits := t'.bits) && |t'.bits| == |t.bits|
            && forall i :: 0 <= i < |t.bits| ==>
                 t'.bits[i] == if addr <= i < addr + |cells| then (if cells[i - addr] == 0 then 0 else 1) else t.bits[i]
  {
    hide Exchange, WellFormed, Overwrite, Truth;
    ExchangeRefines(b, tid, slave, WriteBits(addr, cells), t);
    TruthOverwrites(t.bits, addr, cells);
  }

  lemma TruthOverwrites(s: seq<byte>, a: nat, cells: seq<byte>)
    requires a + |cells| <= |s|
    ensures var r := Overwrite(s, a, Truth(cells));
            |r| == |s| && forall i :: 0 <= i < |s| ==>
              r[i] == if a <= i < a + |cells| then (if cells[i - a] == 0 then 0 else 1) else s[i]
  {
  }

  /** The same for one coil. */
  lemma CoilOverWire(b: Backend, tid: word, slave: byte, addr: word, on: bool, t: Tables)
    requires WellFormed(t) && addr < |t.bits|
    ensures Exchange(b, tid, slave, WriteBit(addr, on), t) == (Written(1), t.(bits := t.bits[addr := if on then 1 else 0]))
  {
    ExchangeRefines(b, tid, slave, WriteBit(addr, on), t);
    OverwriteOne(t.bits, addr, if on then 1 else 0);
    hide Exchange, WellFormed, Overwrite;
  }

  // ---------- Runs ----------

  /** The transaction identifier of the next request. */
  function NextTid(tid: word): word { if tid < 0xFFFF then tid + 1 else 0 }

  function ExchangeAll(b: Backend, tid: word, slave: byte, calls: seq<Call>, t: Tables): (seq<Outcome>, Tables)
    decreases |calls|
  {
    if calls == [] then ([], t)
    else
      var (o, t') := Exchange(b, NextTid(tid), slave, calls[0], t);
      var (os, t'') := ExchangeAll(b, NextTid(tid), slave, calls[1..], t');
      ([o] + os, t'')
  }

  lemma PerformWellFormed(c: Call, t: Tables)
    requires WellFormed(t)
    ensures WellFormed(Perform(c, t).1)
  {
    if WithinLimits(c) && InRange(c, t) && c.WriteBits? {
      OverwriteFlags(t.bits, c.addr, Truth(c.cells));
    }
  }

  /** Any sequence of calls, mixed as one likes, behaves as the ideal memory. */
  lemma {:induction false} RunRefines(b: Backend, tid: word, slave: byte, calls: seq<Call>, t: Tables)
    requires WellFormed(t)
    ensures ExchangeAll(b, tid, slave, calls, t) == PerformAll(calls, t)
    decreases |calls|
  {
    hide Exchange, Perform;
    if calls != [] {
      ExchangeRefines(b, NextTid(tid), slave, calls[0], t);
      PerformWellFormed(calls[0], t);
      RunRefines(b, NextTid(tid), slave, calls[1..], Perform(calls[0], t).1);
    }
  }
}
