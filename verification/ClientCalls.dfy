/** The client functions on message buffers, talking to a server object over two lines of bytes. */
module ClientCalls {
  import opened Bytes
  import opened BitTables
  import opened Errors
  import opened Backends
  import opened Receive
  import opened Memory
  import opened Server
  import opened Protocol
  import opened Refinement
  import opened Lengths
  import opened ReplyLoop

  /** A server program: receive a request, reply to it. */
  class Station {
    const backend: Backend
    const slave: byte
    const mapping: Mapping

    constructor (backend: Backend, slave: byte, mapping: Mapping)
      ensures this.backend == backend && this.slave == slave && this.mapping == mapping
    {
      this.backend, this.slave, this.mapping := backend, slave, mapping;
    }

    /** One turn of the server's loop on the bytes that arrive. */
    method Turn(arriving: seq<byte>) returns (sent: seq<byte>)
      requires mapping.Valid()
      requires var req := Delivered(backend, Indication, Traffic(arriving, []));
               req != [] && CheckIntegrity(backend, slave, req) > 0 ==> Servable(backend, PduOf(backend, req), mapping.State())
      modifies mapping.tabBits, mapping.tabRegisters
      ensures (sent, mapping.State()) == ServerTurn(backend, slave, arriving, old(mapping.State()))
    {
      hide Delivered, Stored, Remaining, CheckIntegrity, Servable, Readable, Serve, Frame;
      var line := new Line(arriving, []);
      var req := new byte[MAX_MESSAGE_LENGTH];
      var rc, errno, inside := ReceiveMsg(backend, slave, true, Indication, line, req);
      ghost var f := Delivered(backend, Indication, Traffic(arriving, []));
      if rc <= 0 {
        return [];
      }
      assert rc == |f|;
      assert req[..rc] == f;
      ServableReads(backend, PduOf(backend, f), mapping.State());
      var n;
      n, sent, inside := ModbusReply(backend, req, rc, mapping);
    }
  }

  /** modbus_t of a client: its backend, the slave it talks to, and the last transaction identifier used. */
  class Client {
    const backend: Backend
    var slave: byte
    var tId: word

    constructor (backend: Backend, slave: byte)
      ensures this.backend == backend && this.slave == slave && tId == 0
    {
      this.backend, this.slave := backend, slave;
      tId := 0;
    }

    /** build_request_basis: header, function, address and quantity; on TCP a new transaction identifier. */
    method BuildRequestBasis(function_: byte, addr: int, nb: int, req: array<byte>) returns (length: nat)
      requires 12 <= req.Length
      modifies this`tId, req
      ensures tId == if backend.TCP? then NextTid(old(tId)) else old(tId)
      ensures length == backend.HeaderLength() + 5
      ensures HasHead(backend, req[..length], tId, [0, 0], slave)
      ensures req[backend.HeaderLength()..length] == Basis(function_, Low16(addr), Low16(nb))
    {
      hide Hi, Lo;
      if backend.RTU? {
        req[0] := slave;
        req[1] := function_;
        req[2] := Hi(Low16(addr));
        req[3] := Lo(Low16(addr));
        req[4] := Hi(Low16(nb));
        req[5] := Lo(Low16(nb));
        length := 6;
      } else {
        // Each request gets the identifier after the last one used.
        if tId < 0xFFFF {
          tId := tId + 1;
        } else {
          tId := 0;
        }
        req[0] := Hi(tId);
        req[1] := Lo(tId);
        // The protocol field is zero.
        req[2] := 0;
        req[3] := 0;
        // Bytes 4 and 5 are left to SendMsgPre.
        req[6] := slave;
        req[7] := function_;
        req[8] := Hi(Low16(addr));
        req[9] := Lo(Low16(addr));
        req[10] := Hi(Low16(nb));
        req[11] := Lo(Low16(nb));
        length := 12;
      }
    }

    /** Receive and check: what becomes of anything that arrives as the reply to a request. */
    method ReceiveReply(line: Line, req: array<byte>, reqLength: nat, rsp: array<byte>)
      returns (rc: int, errno: int, inside: bool)
      requires backend.HeaderLength() + 5 <= reqLength <= req.Length && req != rsp
      modifies line, rsp
      ensures inside <==> Stored(backend, Confirmation, old(line.traffic)) <= rsp.Length
      ensures inside ==>
                && line.traffic == Remaining(backend, Confirmation, old(line.traffic))
                && |Delivered(backend, Confirmation, old(line.traffic))| <= rsp.Length
                && Delivered(backend, Confirmation, old(line.traffic)) <= rsp[..]
      ensures inside ==>
                match ClientCheck(backend, slave, req[..reqLength], old(line.traffic))
                case Refused(e) => rc == -1 && errno == e
                case Accepted(n) => rc == n
    {
      hide Delivered, Stored, Remaining, ReceiveResult, ReceiveErrno, CheckLength, Parse;
      ghost var l := line.traffic;
      rc, errno, inside := ReceiveMsg(backend, slave, true, Confirmation, line, rsp);
      if !inside || rc == -1 {
        return;
      }
      ghost var back := Delivered(backend, Confirmation, l);
      ResultDelivers(backend, slave, l);
      DeliveredWhole(backend, Confirmation, l);
      assert rsp[..] == back + rsp[|back|..];
      CheckReadsReply(backend, req[..reqLength], back, rsp[|back|..], rc);
      var checked := CheckLength(backend, req[..reqLength], rsp[..], rc);
      match checked {
        case Refused(e) =>
          rc, errno := -1, e;
        case Accepted(n) =>
          rc := n;
      }
    }

    /**
     * Send, receive, check: what every client function does with its request. The return value is that
     * of check_confirmation, and the reply left in rsp decodes to what the ideal memory returns.
     */
    method SendAndCheck(station: Station, req: array<byte>, reqLength: nat, ghost c: Call, rsp: array<byte>)
      returns (rc: int, errno: int)
      requires station.backend == backend && station.slave == slave
      requires station.mapping.Valid() && WellFormed(station.mapping.State())
      requires req.Length <= MAX_MESSAGE_LENGTH && req != rsp
      requires ReplyCapacity(c) <= rsp.Length
      requires req != station.mapping.tabBits && req != station.mapping.tabInputBits
      requires rsp != station.mapping.tabBits && rsp != station.mapping.tabInputBits
      requires WithinLimits(c)
      requires backend.HeaderLength() <= reqLength && reqLength + backend.ChecksumLength() <= req.Length
      requires HasHead(backend, req[..reqLength], tId, [0, 0], slave)
      requires req[backend.HeaderLength()..reqLength] == RequestPdu(c)
      modifies req, rsp, station.mapping.tabBits, station.mapping.tabRegisters
      ensures station.mapping.State() == Perform(c, old(station.mapping.State())).1
      ensures var o := Perform(c, old(station.mapping.State())).0;
              if o.Failed? then rc == -1 && errno == o.errno
              else rc >= 0 && Decodes(backend, c, rsp, rc, o)
    {
      hide Hi, Lo, Frame, Seal, RequestPdu, ServerTurn, Perform, Delivered, CheckIntegrity, Parse, Servable, Readable, WithinLimits, WellFormed, Decodes,
           ClientCheck, CheckConfirmation, CheckPdu, Understood, Called, SelfDelimiting, Stored, Remaining;
      ghost var t := station.mapping.State();
      ghost var body := req[..reqLength];
      assert body[backend.HeaderLength()..] == RequestPdu(c);
      SealHead(backend, body, tId, [0, 0], slave);
      var length := SendMsgPre(backend, req, reqLength);
      ghost var f := RequestFrame(backend, tId, slave, c);
      assert req[..length] == f;
      RequestServable(backend, tId, slave, c, t);
      assert station.mapping.State() == t;
      var arriving := station.Turn(req[..length]);
      assert req[..length] == f;
      TurnAnswers(backend, tId, slave, c, t);
      var line := new Line(arriving, []);
      var inside;
      rc, errno, inside := ReceiveReply(line, req, length, rsp);
      assert rsp[..|arriving|] == arriving;
      DecodesFrom(backend, c, RequestPdu(c), rsp, |arriving|, Perform(c, t).0);
    }

    /** This client talks to that server, whose tables are well formed. */
    ghost predicate Linked(station: Station)
      reads this, station, station.mapping, station.mapping.tabBits, station.mapping.tabInputBits,
            station.mapping.tabRegisters, station.mapping.tabInputRegisters
    {
      && station.backend == backend && station.slave == slave
      && station.mapping.Valid()
      && WellFormed(station.mapping.State())
    }

    /** read_io_status */
    method ReadIoStatus(station: Station, function_: byte, addr: int, nb: nat, dest: array<byte>, ghost c: Call)
      returns (rc: int, errno: int)
      requires Linked(station)
      requires nb <= MAX_READ_BITS && nb <= dest.Length
      requires dest != station.mapping.tabBits && dest != station.mapping.tabInputBits
      requires c == if function_ == FC_READ_COILS then Call.ReadBits(Low16(addr), nb) else Call.ReadInputBits(Low16(addr), nb)
      requires function_ == FC_READ_COILS || function_ == FC_READ_DISCRETE_INPUTS
      modifies this`tId, dest, station.mapping.tabBits, station.mapping.tabRegisters
      ensures station.mapping.State() == Perform(c, old(station.mapping.State())).1
      ensures var o := Perform(c, old(station.mapping.State())).0;
              if o.Failed? then rc == -1 && errno == o.errno && dest[..] == old(dest[..])
              else rc >= 0 && o == Cells(dest[..nb]) && dest[nb..] == old(dest[nb..])
    {
      hide Perform, Basis, HasHead, WellFormed, UnpackBits, RequestPdu, ByteCount;
      BitsOutcome(c, station.mapping.State());
      PlainPdu(c);
      var req, rsp := new byte[MIN_REQ_LENGTH], new byte[MAX_MESSAGE_LENGTH];
      var length := BuildRequestBasis(function_, addr, nb, req);
      rc, errno := SendAndCheck(station, req, length, c, rsp);
      if rc == -1 {
        return;
      }
      ReadBitsInto(rsp, backend.HeaderLength() + 2, rc, nb, dest);
    }

    /** modbus_read_bits */
    method ReadBits(station: Station, addr: int, nb: nat, dest: array<byte>) returns (rc: int, errno: int)
      requires Linked(station) && nb <= dest.Length
      requires dest != station.mapping.tabBits && dest != station.mapping.tabInputBits
      modifies this`tId, dest, station.mapping.tabBits, station.mapping.tabRegisters
      ensures station.mapping.State() == Perform(Call.ReadBits(Low16(addr), nb), old(station.mapping.State())).1
      ensures var o := Perform(Call.ReadBits(Low16(addr), nb), old(station.mapping.State())).0;
              if o.Failed? then rc == -1 && errno == o.errno && dest[..] == old(dest[..])
              else rc == nb && o == Cells(dest[..nb]) && dest[nb..] == old(dest[nb..])
    {
      if nb > MAX_READ_BITS {
        return -1, EMBMDATA;
      }
      hide Perform, WellFormed;
      rc, errno := ReadIoStatus(station, FC_READ_COILS, addr, nb, dest, Call.ReadBits(Low16(addr), nb));
      rc := if rc == -1 then -1 else nb;
    }

    /** modbus_read_input_bits */
    method ReadInputBits(station: Station, addr: int, nb: nat, dest: array<byte>) returns (rc: int, errno: int)
      requires Linked(station) && nb <= dest.Length
      requires dest != station.mapping.tabBits && dest != station.mapping.tabInputBits
      modifies this`tId, dest, station.mapping.tabBits, station.mapping.tabRegisters
      ensures station.mapping.State() == Perform(Call.ReadInputBits(Low16(addr), nb), old(station.mapping.State())).1
      ensures var o := Perform(Call.ReadInputBits(Low16(addr), nb), old(station.mapping.State())).0;
              if o.Failed? then rc == -1 && errno == o.errno && dest[..] == old(dest[..])
              else rc == nb && o == Cells(dest[..nb]) && dest[nb..] == old(dest[nb..])
    {
      if nb > MAX_READ_BITS {
        return -1, EMBMDATA;
      }
      hide Perform, WellFormed;
      rc, errno := ReadIoStatus(station, FC_READ_DISCRETE_INPUTS, addr, nb, dest, Call.ReadInputBits(Low16(addr), nb));
      rc := if rc == -1 then -1 else nb;
    }

    /** The decoding loop of the register reads. */
    method DecodeRegisters(rsp: array<byte>, rc: nat, dest: array<word>)
      requires backend.HeaderLength() + 2 + 2 * rc <= rsp.Length && rc <= dest.Length
      modifies dest
      ensures var first := backend.HeaderLength() + 2;
              dest[..] == BytesRegisters(rsp[first..first + 2 * rc], rc) + old(dest[rc..])
    {
      hide Word;
      var offset := backend.HeaderLength();
      ghost var bs := rsp[offset + 2..offset + 2 + 2 * rc];
      for i := 0 to rc
        invariant forall k :: 0 <= k < i ==> dest[k] == BytesRegisters(bs, rc)[k]
        invariant forall k :: i <= k < dest.Length ==> dest[k] == old(dest[k])
      {
        assert rsp[offset + 2 + 2 * i] == bs[2 * i] && rsp[offset + 3 + 2 * i] == bs[2 * i + 1];
        dest[i] := Word(rsp[offset + 2 + 2 * i], rsp[offset + 3 + 2 * i]);
      }
    }

    /** read_registers, with modbus_read_registers and modbus_read_input_registers as its two uses. */
    method ReadRegistersOf(station: Station, function_: byte, addr: int, nb: nat, dest: array<word>, ghost c: Call)
      returns (rc: int, errno: int)
      requires Linked(station) && nb <= dest.Length
      requires dest != station.mapping.tabRegisters && dest != station.mapping.tabInputRegisters
      requires function_ == FC_READ_HOLDING_REGISTERS || function_ == FC_READ_INPUT_REGISTERS
      requires c == if function_ == FC_READ_HOLDING_REGISTERS then Call.ReadRegisters(Low16(addr), nb) else Call.ReadInputRegisters(Low16(addr), nb)
      modifies this`tId, dest, station.mapping.tabBits, station.mapping.tabRegisters
      ensures station.mapping.State() == Perform(c, old(station.mapping.State())).1
      ensures var o := Perform(c, old(station.mapping.State())).0;
              if o.Failed? then rc == -1 && errno == o.errno && dest[..] == old(dest[..])
              else rc == nb && o == Registers(dest[..nb]) && dest[nb..] == old(dest[nb..])
    {
      if nb > MAX_READ_REGISTERS {
        return -1, EMBMDATA;
      }
      hide Perform, Basis, HasHead, WellFormed, BytesRegisters, RequestPdu, Quantity;
      ReadOutcome(c, station.mapping.State());
      PlainPdu(c);
      ReadQuantity(c);
      var req, rsp := new byte[MIN_REQ_LENGTH], new byte[MAX_MESSAGE_LENGTH];
      var length := BuildRequestBasis(function_, addr, nb, req);
      rc, errno := SendAndCheck(station, req, length, c, rsp);
      if rc == -1 {
        return;
      }
      DecodeRegisters(rsp, rc, dest);
    }

    /** write_single: on RTU and TCP alike, one address and one 16-bit value. */
    method WriteSingle(station: Station, function_: byte, addr: int, value: int, ghost c: Call) returns (rc: int, errno: int)
      requires Linked(station)
      requires if function_ == FC_WRITE_SINGLE_COIL then c.WriteBit? && c.addr == Low16(addr) && value == (if c.on then 0xFF00 else 0)
               else function_ == FC_WRITE_SINGLE_REGISTER && c == Call.WriteRegister(Low16(addr), Low16(value))
      modifies this`tId, station.mapping.tabBits, station.mapping.tabRegisters
      ensures station.mapping.State() == Perform(c, old(station.mapping.State())).1
      ensures var o := Perform(c, old(station.mapping.State())).0;
              if o.Failed? then rc == -1 && errno == o.errno else rc >= 0 && o == Written(rc)
    {
      hide Perform, Basis, HasHead, WellFormed, RequestPdu;
      WriteOutcome(c, station.mapping.State());
      PlainPdu(c);
      var req, rsp := new byte[MIN_REQ_LENGTH], new byte[MIN_REQ_LENGTH];
      var length := BuildRequestBasis(function_, addr, value, req);
      rc, errno := SendAndCheck(station, req, length, c, rsp);
    }

    /** modbus_write_bit */
    method WriteBit(station: Station, addr: int, status: int) returns (rc: int, errno: int)
      requires Linked(station)
      modifies this`tId, station.mapping.tabBits, station.mapping.tabRegisters
      ensures station.mapping.State() == Perform(Call.WriteBit(Low16(addr), status != 0), old(station.mapping.State())).1
      ensures var o := Perform(Call.WriteBit(Low16(addr), status != 0), old(station.mapping.State())).0;
              if o.Failed? then rc == -1 && errno == o.errno else rc >= 0 && o == Written(rc)
    {
      hide Perform, WellFormed;
      rc, errno := WriteSingle(station, FC_WRITE_SINGLE_COIL, addr, if status != 0 then 0xFF00 else 0, Call.WriteBit(Low16(addr), status != 0));
    }

    /** modbus_write_register */
    method WriteRegister(station: Station, addr: int, value: int) returns (rc: int, errno: int)
      requires Linked(station)
      modifies this`tId, station.mapping.tabBits, station.mapping.tabRegisters
      ensures station.mapping.State() == Perform(Call.WriteRegister(Low16(addr), Low16(value)), old(station.mapping.State())).1
      ensures var o := Perform(Call.WriteRegister(Low16(addr), Low16(value)), old(station.mapping.State())).0;
              if o.Failed? then rc == -1 && errno == o.errno else rc >= 0 && o == Written(rc)
    {
      hide Perform, WellFormed;
      rc, errno := WriteSingle(station, FC_WRITE_SINGLE_REGISTER, addr, value, Call.WriteRegister(Low16(addr), Low16(value)));
    }

    /** modbus_write_bits */
    method WriteBits(station: Station, addr: int, nb: nat, src: array<byte>) returns (rc: int, errno: int)
      requires Linked(station) && nb <= src.Length
      modifies this`tId, station.mapping.tabBits, station.mapping.tabRegisters
      ensures station.mapping.State() == Perform(Call.WriteBits(Low16(addr), old(src[..nb])), old(station.mapping.State())).1
      ensures var o := Perform(Call.WriteBits(Low16(addr), old(src[..nb])), old(station.mapping.State())).0;
              if o.Failed? then rc == -1 && errno == o.errno else rc >= 0 && o == Written(rc)
    {
      if nb > MAX_WRITE_BITS {
        return -1, EMBMDATA;
      }
      ghost var c := Call.WriteBits(Low16(addr), src[..nb]);
      hide Perform, HasHead, WellFormed, RequestPdu;
      WriteOutcome(c, station.mapping.State());
      var req, rsp := new byte[MAX_MESSAGE_LENGTH], new byte[MAX_MESSAGE_LENGTH];
      var length := BuildWriteBits(addr, nb, src, req);
      rc, errno := SendAndCheck(station, req, length, c, rsp);
    }

    /** The request of modbus_write_bits. */
    method BuildWriteBits(addr: int, nb: nat, src: array<byte>, req: array<byte>) returns (length: nat)
      requires nb <= src.Length && nb <= MAX_WRITE_BITS && req.Length == MAX_MESSAGE_LENGTH && src != req
      modifies this`tId, req
      ensures backend.HeaderLength() <= length && length + backend.ChecksumLength() <= req.Length
      ensures HasHead(backend, req[..length], tId, [0, 0], slave)
      ensures req[backend.HeaderLength()..length] == RequestPdu(Call.WriteBits(Low16(addr), src[..nb]))
    {
      hide Basis, HasHead, PackBits, RequestPdu, Truth, Low8, Low16;
      ghost var c := Call.WriteBits(Low16(addr), src[..nb]);
      WriteBitsPdu(c);
      CountsFit(nb);
      LowOfSmall(ByteCount(nb));
      length := BuildRequestBasis(FC_WRITE_MULTIPLE_COILS, addr, nb, req);
      ghost var basis := req[..length];
      var byteCount := ByteCount(nb);
      req[length] := Low8(byteCount);
      length := length + 1;
      assert req[..length] == basis + [Low8(byteCount)];
      length := AppendBits(src, nb, req, length);
      ExtendHead(backend, basis, req[..length], [Low8(byteCount)] + PackBits(Truth(src[..nb])), tId, slave);
      assert req[backend.HeaderLength()..length] == req[..length][backend.HeaderLength()..];
    }

    /** Appends register values to a request, high byte first. */
    method AppendValues(src: array<word>, nb: nat, req: array<byte>, start: nat) returns (length: nat)
      requires nb <= src.Length && start + 2 * nb <= req.Length
      modifies req
      ensures length == start + 2 * nb
      ensures req[..length] == old(req[..start]) + RegisterBytes(src[..nb])
    {
      length := AppendRegisters(src, 0, nb, req, start);
      assert src[0..nb] == src[..nb];
    }

    /** modbus_write_registers */
    method WriteRegisters(station: Station, addr: int, nb: nat, src: array<word>) returns (rc: int, errno: int)
      requires Linked(station) && nb <= src.Length
      modifies this`tId, station.mapping.tabBits, station.mapping.tabRegisters
      ensures station.mapping.State() == Perform(Call.WriteRegisters(Low16(addr), old(src[..nb])), old(station.mapping.State())).1
      ensures var o := Perform(Call.WriteRegisters(Low16(addr), old(src[..nb])), old(station.mapping.State())).0;
              if o.Failed? then rc == -1 && errno == o.errno else rc >= 0 && o == Written(rc)
    {
      if nb > MAX_WRITE_REGISTERS {
        return -1, EMBMDATA;
      }
      ghost var c := Call.WriteRegisters(Low16(addr), src[..nb]);
      hide Perform, HasHead, WellFormed, RequestPdu;
      WriteOutcome(c, station.mapping.State());
      var req, rsp := new byte[MAX_MESSAGE_LENGTH], new byte[MAX_MESSAGE_LENGTH];
      var length := BuildWriteRegisters(addr, nb, src, req);
      rc, errno := SendAndCheck(station, req, length, c, rsp);
    }

    /** The request of modbus_write_registers. */
    method BuildWriteRegisters(addr: int, nb: nat, src: array<word>, req: array<byte>) returns (length: nat)
      requires nb <= src.Length && nb <= MAX_WRITE_REGISTERS && req.Length == MAX_MESSAGE_LENGTH
      modifies this`tId, req
      ensures backend.HeaderLength() <= length && length + backend.ChecksumLength() <= req.Length
      ensures HasHead(backend, req[..length], tId, [0, 0], slave)
      ensures req[backend.HeaderLength()..length] == RequestPdu(Call.WriteRegisters(Low16(addr), src[..nb]))
    {
      hide Basis, HasHead, RegisterBytes, RequestPdu, Low8, Low16;
      ghost var c := Call.WriteRegisters(Low16(addr), src[..nb]);
      WriteRegistersPdu(c);
      length := BuildRequestBasis(FC_WRITE_MULTIPLE_REGISTERS, addr, nb, req);
      ghost var basis := req[..length];
      var byteCount := 2 * nb;
      req[length] := Low8(byteCount);
      length := length + 1;
      assert req[..length] == basis + [Low8(byteCount)];
      length := AppendValues(src, nb, req, length);
      ExtendHead(backend, basis, req[..length], [Low8(byteCount)] + RegisterBytes(src[..nb]), tId, slave);
      assert req[backend.HeaderLength()..length] == req[..length][backend.HeaderLength()..];
    }

    /** modbus_write_and_read_registers */
    method WriteAndReadRegisters(station: Station, writeAddr: int, writeNb: nat, src: array<word>, readAddr: int, readNb: nat, dest: array<word>)
      returns (rc: int, errno: int)
      requires Linked(station) && writeNb <= src.Length && readNb <= dest.Length
      requires dest != station.mapping.tabRegisters && dest != station.mapping.tabInputRegisters
      modifies this`tId, dest, station.mapping.tabBits, station.mapping.tabRegisters
      ensures station.mapping.State() == Perform(WriteAndRead(Low16(writeAddr), old(src[..writeNb]), Low16(readAddr), readNb), old(station.mapping.State())).1
      ensures var o := Perform(WriteAndRead(Low16(writeAddr), old(src[..writeNb]), Low16(readAddr), readNb), old(station.mapping.State())).0;
              if o.Failed? then rc == -1 && errno == o.errno && dest[..] == old(dest[..])
              else rc == readNb && o == Registers(dest[..readNb]) && dest[readNb..] == old(dest[readNb..])
    {
      if writeNb > MAX_RW_WRITE_REGISTERS {
        return -1, EMBMDATA;
      }
      if readNb > MAX_READ_REGISTERS {
        return -1, EMBMDATA;
      }
      ghost var c := WriteAndRead(Low16(writeAddr), src[..writeNb], Low16(readAddr), readNb);
      hide Perform, HasHead, WellFormed, RequestPdu, BytesRegisters;
      ReadOutcome(c, station.mapping.State());
      var req, rsp := new byte[MAX_MESSAGE_LENGTH], new byte[MAX_MESSAGE_LENGTH];
      var length := BuildWriteAndRead(writeAddr, writeNb, src, readAddr, readNb, req);
      rc, errno := SendAndCheck(station, req, length, c, rsp);
      if rc == -1 {
        return;
      }
      DecodeRegisters(rsp, rc, dest);
    }

    /** The request of modbus_write_and_read_registers. */
    method BuildWriteAndRead(writeAddr: int, writeNb: nat, src: array<word>, readAddr: int, readNb: nat, req: array<byte>)
      returns (length: nat)
      requires writeNb <= src.Length && writeNb <= MAX_RW_WRITE_REGISTERS && req.Length == MAX_MESSAGE_LENGTH
      modifies this`tId, req
      ensures backend.HeaderLength() <= length && length + backend.ChecksumLength() <= req.Length
      ensures HasHead(backend, req[..length], tId, [0, 0], slave)
      ensures req[backend.HeaderLength()..length] == RequestPdu(WriteAndRead(Low16(writeAddr), src[..writeNb], Low16(readAddr), readNb))
    {
      hide Basis, HasHead, RegisterBytes, RequestPdu, Hi, Lo, Low8, Low16;
      ghost var c := WriteAndRead(Low16(writeAddr), src[..writeNb], Low16(readAddr), readNb);
      WriteAndReadPdu(c);
      length := BuildRequestBasis(FC_WRITE_AND_READ_REGISTERS, readAddr, readNb, req);
      ghost var basis := req[..length];
      ghost var w, n := Low16(writeAddr), Low16(writeNb);
      ghost var mid := [Hi(w), Lo(w), Hi(n), Lo(n), Low8(2 * writeNb)];
      length := AppendWriteFields(req, length, writeAddr, writeNb);
      length := AppendValues(src, writeNb, req, length);
      assert req[..length] == basis + (mid + RegisterBytes(src[..writeNb]));
      ExtendHead(backend, basis, req[..length], mid + RegisterBytes(src[..writeNb]), tId, slave);
      assert req[backend.HeaderLength()..length] == req[..length][backend.HeaderLength()..];
    }

    method AppendWriteFields(req: array<byte>, start: nat, writeAddr: int, writeNb: nat) returns (length: nat)
      requires start + 5 <= req.Length
      modifies req
      ensures length == start + 5
      ensures var w, n := Low16(writeAddr), Low16(writeNb);
              req[..length] == old(req[..start]) + [Hi(w), Lo(w), Hi(n), Lo(n), Low8(2 * writeNb)]
    {
      hide Hi, Lo;
      req[start] := Hi(Low16(writeAddr));
      req[start + 1] := Lo(Low16(writeAddr));
      req[start + 2] := Hi(Low16(writeNb));
      req[start + 3] := Lo(Low16(writeNb));
      req[start + 4] := Low8(2 * writeNb);
      length := start + 5;
    }
  }

  /** A call that does not return -1 has delivered a frame. */
  lemma ResultDelivers(b: Backend, slave: byte, l: Traffic)
    requires ReceiveResult(b, slave, Confirmation, l) != -1
    ensures Delivered(b, Confirmation, l) != []
    ensures 0 <= ReceiveResult(b, slave, Confirmation, l)
  {
    hide Parse, CheckIntegrity, Delivered;
  }

  lemma PlainPdu(c: Call)
    requires !c.WriteBits? && !c.WriteRegisters? && !c.WriteAndRead?
    ensures RequestPdu(c) == Basis(FunctionOf(c), c.addr, Quantity(c))
  {
    hide Basis;
  }

  lemma ReadQuantity(c: Call)
    requires c.ReadRegisters? || c.ReadInputRegisters?
    ensures Quantity(c) == Low16(c.nb)
  {
  }

  lemma WriteBitsPdu(c: Call)
    requires c.WriteBits?
    ensures RequestPdu(c) == Basis(FC_WRITE_MULTIPLE_COILS, c.addr, Low16(|c.cells|))
                             + ([Low8(ByteCount(|c.cells|))] + PackBits(Truth(c.cells)))
  {
  }

  lemma WriteRegistersPdu(c: Call)
    requires c.WriteRegisters?
    ensures RequestPdu(c) == Basis(FC_WRITE_MULTIPLE_REGISTERS, c.addr, Low16(|c.values|))
                             + ([Low8(2 * |c.values|)] + RegisterBytes(c.values))
  {
  }

  lemma WriteAndReadPdu(c: Call)
    requires c.WriteAndRead?
    ensures var n := Low16(|c.values|);
            RequestPdu(c) == Basis(FC_WRITE_AND_READ_REGISTERS, c.addr, Low16(c.nb))
                             + ([Hi(c.writeAddr), Lo(c.writeAddr), Hi(n), Lo(n), Low8(2 * |c.values|)] + RegisterBytes(c.values))
  {
  }

  lemma BitsOutcome(c: Call, t: Tables)
    requires c.ReadBits? || c.ReadInputBits?
    ensures var o := Perform(c, t).0; o.Failed? || (o.Cells? && |o.cells| == c.nb)
  {
  }

  lemma ReadOutcome(c: Call, t: Tables)
    requires c.ReadRegisters? || c.ReadInputRegisters? || c.WriteAndRead?
    ensures var o := Perform(c, t).0; o.Failed? || (o.Registers? && |o.values| == c.nb)
  {
  }

  lemma WriteOutcome(c: Call, t: Tables)
    requires c.WriteBit? || c.WriteRegister? || c.WriteBits? || c.WriteRegisters?
    ensures var o := Perform(c, t).0; o.Failed? || o.Written?
  {
  }

  /** Data appended to a request basis leaves the header alone and follows the basis. */
  lemma ExtendHead(b: Backend, basis: seq<byte>, body: seq<byte>, more: seq<byte>, tid: word, slave: byte)
    requires b.HeaderLength() <= |basis| && HasHead(b, basis, tid, [0, 0], slave)
    requires body == basis + more
    ensures HasHead(b, body, tid, [0, 0], slave)
    ensures body[b.HeaderLength()..] == basis[b.HeaderLength()..] + more
  {
    hide Hi, Lo;
  }

  /** The request of a call is one the server may be given. */
  lemma RequestServable(b: Backend, tid: word, slave: byte, c: Call, t: Tables)
    requires WithinLimits(c)
    ensures var f := RequestFrame(b, tid, slave, c);
            && Delivered(b, Indication, Traffic(f, [])) == f
            && Servable(b, PduOf(b, f), t)
            && |f| <= b.MaxAduLength()
  {
    var f := RequestFrame(b, tid, slave, c);
    RequestArrives(b, tid, slave, c);
    FrameDelivered(b, Indication, f, [], []);
    assert f + [] == f;
    var p := RequestCarries(c);
    CarriedServable(b, p, c, t);
    hide *;
  }

  /** Everything the client finds out about the reply to one of its calls. */
  ghost predicate Answering(b: Backend, tid: word, slave: byte, c: Call, t: Tables, rsp: seq<byte>) {
    && rsp != []
    && Delivered(b, Confirmation, Traffic(rsp, [])) == rsp
    && CheckIntegrity(b, slave, rsp) == |rsp|
    && WholeReply(b, rsp)
    && Called(RequestPdu(c)[0])
    && Understood(c, RequestPdu(c), PduOf(b, rsp), Perform(c, t).0)
    && ClientCheck(b, slave, RequestFrame(b, tid, slave, c), Traffic(rsp, [])) == CheckPdu(RequestPdu(c), PduOf(b, rsp))
    && |rsp| <= b.MaxAduLength()
    && Stored(b, Confirmation, Traffic(rsp, [])) == |rsp| <= ReplyCapacity(c)
  }

  lemma TurnAnswers(b: Backend, tid: word, slave: byte, c: Call, t: Tables)
    requires WithinLimits(c) && WellFormed(t)
    ensures Answering(b, tid, slave, c, t, ServerTurn(b, slave, RequestFrame(b, tid, slave, c), t).0)
    ensures ServerTurn(b, slave, RequestFrame(b, tid, slave, c), t).1 == Perform(c, t).1
  {
    hide RequestFrame, RequestPdu, Carries, Expected, Frame, ServerTurn, ReplyPdu, Understood, Perform, CheckPdu,
         ClientCheck, CheckConfirmation, CheckIntegrity, Delivered, WholeReply, PduOf, Parse, Stored, ComputeResponseLength, CallLength,
         MbapAgrees;
    var p := RequestCarries(c);
    ServerTurnRefines(b, tid, slave, c, t);
    ReplyUnderstood(p, c, t);
    ReplyPasses(b, tid, slave, c, ReplyPdu(p, Expected(c, t).0), Perform(c, t).0);
    ExpectedTables(c, t);
    CallReplyLengths(b, tid, slave, c, t);
    var rsp := ServerTurn(b, slave, RequestFrame(b, tid, slave, c), t).0;
    FrameDelivered(b, Confirmation, rsp, [], []);
    assert rsp + [] == rsp;
  }

  /** What the bytes of rsp say about the outcome of a call whose return value is rc. */
  ghost predicate Decodes(b: Backend, c: Call, rsp: array<byte>, rc: nat, o: Outcome)
    reads rsp
  {
    var first := b.HeaderLength() + 2;
    match o
    case Cells(cells) =>
      && (c.ReadBits? || c.ReadInputBits?)
      && rc == ByteCount(c.nb)
      && first + rc <= rsp.Length
      && UnpackBits(rsp[first..first + rc], c.nb) == cells
    case Registers(values) =>
      && first + 2 * rc <= rsp.Length
      && BytesRegisters(rsp[first..first + 2 * rc], rc) == values
    case Written(count) => rc == count
    case Failed(_) => false
  }

  lemma DecodesFrom(b: Backend, c: Call, p: seq<byte>, rsp: array<byte>, length: nat, o: Outcome)
    requires b.HeaderLength() + b.ChecksumLength() <= length <= rsp.Length
    requires 5 <= |p| && Called(p[0])
    requires Understood(c, p, PduOf(b, rsp[..length]), o)
    ensures SelfDelimiting(Confirmation, PduOf(b, rsp[..length]))
    ensures match CheckPdu(p, PduOf(b, rsp[..length]))
            case Refused(e) => o == Failed(e)
            case Accepted(n) => !o.Failed? && Decodes(b, c, rsp, n, o)
  {
    hide UnpackBits, BytesRegisters, SelfDelimiting, Called, PduOf;
    DataAt(b, rsp, length);
  }

  /** Where the data of a received PDU lie in the buffer. */
  lemma DataAt(b: Backend, rsp: array<byte>, length: nat)
    requires b.HeaderLength() + b.ChecksumLength() <= length <= rsp.Length
    ensures var q, first := PduOf(b, rsp[..length]), b.HeaderLength() + 2;
            2 <= |q| ==> first + |q| - 2 <= rsp.Length && q[2..] == rsp[first..first + |q| - 2]
  {
  }
}
