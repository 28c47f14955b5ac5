/** The two wire backends: what surrounds a PDU (function code and data) on a serial line and on TCP. */
module Backends {
  import opened Bytes
  import opened Crc16
  import opened Errors

  const BROADCAST_ADDRESS: byte := 0

  /** Size of the message buffers of the callers, MAX_MESSAGE_LENGTH. */
  const MAX_MESSAGE_LENGTH: nat := 260

  /** The largest PDU of an ADU, the same on both backends. */
  const MAX_PDU_LENGTH: nat := 253

  datatype Backend = RTU | TCP
  {
    function HeaderLength(): nat { if RTU? then 1 else 7 }

    function ChecksumLength(): nat { if RTU? then 2 else 0 }

    function MaxAduLength(): nat { if RTU? then 256 else 260 }
  }

  /** Everything before the function code. The MBAP length field is filled in by Seal. */
  function Head(b: Backend, tid: word, proto: seq<byte>, slave: byte): (h: seq<byte>)
    requires |proto| == 2
    ensures |h| == b.HeaderLength()
  {
    if b.RTU? then [slave] else [Hi(tid), Lo(tid)] + proto + [0, 0, slave]
  }

  /** What send_msg_pre makes of a message: a CRC appended, or the MBAP length stored in bytes 4 and 5. */
  function Seal(b: Backend, body: seq<byte>): (f: seq<byte>)
    requires b.HeaderLength() <= |body|
    ensures |f| == |body| + b.ChecksumLength()
  {
    if b.RTU? then body + CrcBytes(body) else body[4 := Hi(Low16(|body| - 6))][5 := Lo(Low16(|body| - 6))]
  }

  function Frame(b: Backend, tid: word, proto: seq<byte>, slave: byte, pdu: seq<byte>): (f: seq<byte>)
    requires |proto| == 2
    ensures |f| == b.HeaderLength() + |pdu| + b.ChecksumLength()
  {
    Seal(b, Head(b, tid, proto, slave) + pdu)
  }

  /** The PDU inside a frame. */
  function PduOf(b: Backend, f: seq<byte>): (pdu: seq<byte>)
    requires b.HeaderLength() + b.ChecksumLength() <= |f|
    ensures |pdu| == |f| - b.HeaderLength() - b.ChecksumLength()
  {
    f[b.HeaderLength()..|f| - b.ChecksumLength()]
  }

  function SlaveOf(b: Backend, f: seq<byte>): byte
    requires b.HeaderLength() <= |f|
  {
    f[b.HeaderLength() - 1]
  }

  /** prepare_response_tid: the transaction identifier of a request, which RTU does not have. */
  function TidOf(b: Backend, f: seq<byte>): word
    requires b.HeaderLength() <= |f|
  {
    if b.RTU? then 0 else Word(f[0], f[1])
  }

  /** Framing loses nothing: slave, PDU and (on TCP) the transaction identifier come back. */
  lemma FrameParts(b: Backend, tid: word, proto: seq<byte>, slave: byte, pdu: seq<byte>)
    requires |proto| == 2
    ensures var f := Frame(b, tid, proto, slave, pdu);
            && PduOf(b, f) == pdu
            && SlaveOf(b, f) == slave
            && (b.TCP? ==> TidOf(b, f) == tid && f[2..4] == proto)
  {
    hide CrcBytes, Hi, Lo, Word;
    WordOfHalves(tid);
  }

  /** On TCP the length field of the MBAP header counts what follows it. */
  lemma MbapLength(tid: word, proto: seq<byte>, slave: byte, pdu: seq<byte>)
    requires |proto| == 2 && |pdu| < 0xFFFF
    ensures var f := Frame(TCP, tid, proto, slave, pdu);
            6 + Word(f[4], f[5]) == |f|
  {
    LowOfSmall(|pdu| + 1);
    WordOfHalves(|pdu| + 1);
  }

  /** check_integrity: the message length, 0 for a message to another slave, -1 for a wrong CRC. */
  function CheckIntegrity(b: Backend, slave: byte, msg: seq<byte>): (rc: int)
    requires b.RTU? ==> 3 <= |msg|
    ensures rc == |msg| || rc == 0 || rc == -1
  {
    if b.TCP? then |msg|
    else if msg[0] != slave && msg[0] != BROADCAST_ADDRESS then 0
    else if CrcMatches(msg) then |msg|
    else -1
  }

  /** The last two bytes are the CRC of the others. */
  predicate CrcMatches(msg: seq<byte>)
    requires 2 <= |msg|
  {
    msg[|msg| - 2..] == CrcBytes(msg[..|msg| - 2])
  }

  /** Every frame sent to a slave passes the integrity check of that slave. */
  lemma SealedIsIntact(b: Backend, slave: byte, body: seq<byte>)
    requires b.HeaderLength() <= |body|
    requires b.RTU? ==> body[0] == slave || body[0] == BROADCAST_ADDRESS
    ensures CheckIntegrity(b, slave, Seal(b, body)) == |Seal(b, body)|
  {
    if b.RTU? {
      var f := Seal(b, body);
      assert f[..|f| - 2] == body;
      assert f[|f| - 2..] == CrcBytes(body);
    }
  }

  /** The responding slave, or the transaction identifier, is the one of the request. */
  predicate PreCheck(b: Backend, req: seq<byte>, rsp: seq<byte>)
    requires b.HeaderLength() <= |req| && b.HeaderLength() <= |rsp|
  {
    if b.RTU? then req[0] == 0 || req[0] == rsp[0] else req[0] == rsp[0] && req[1] == rsp[1]
  }

  // ---------- The same operations on message buffers ----------

  method SendMsgPre(b: Backend, req: array<byte>, reqLength: nat) returns (length: nat)
    requires b.HeaderLength() <= reqLength
    requires reqLength + b.ChecksumLength() <= req.Length < 0x1_0000
    modifies req
    ensures length == reqLength + b.ChecksumLength()
    ensures req[..length] == Seal(b, old(req[..reqLength]))
    ensures forall i :: length <= i < req.Length ==> req[i] == old(req[i])
  {
    hide CrcBytes, Hi, Lo, Word;
    length := reqLength;
    if b.RTU? {
      var crc := Crc16.Crc16(req, reqLength);
      req[length] := Hi(crc);
      length := length + 1;
      req[length] := Lo(crc);
      length := length + 1;
      assert req[..reqLength] == old(req[..reqLength]);
      assert req[..length] == req[..reqLength] + [Hi(crc), Lo(crc)];
    } else {
      var mbapLength := reqLength - 6;
      req[4] := Hi(Low16(mbapLength));
      req[5] := Lo(Low16(mbapLength));
    }
  }

  method CheckIntegrityOf(b: Backend, slave: byte, msg: array<byte>, msgLength: nat) returns (rc: int, errno: int)
    requires b.RTU? ==> 3 <= msgLength
    requires msgLength <= msg.Length && msgLength < 0x1_0000
    ensures rc == CheckIntegrity(b, slave, msg[..msgLength])
    ensures rc == -1 ==> errno == EMBBADCRC
  {
    hide CrcBytes, Hi, Lo, Word;
    errno := 0;
    if b.TCP? {
      return msgLength, errno;
    }
    if msg[0] != slave && msg[0] != BROADCAST_ADDRESS {
      return 0, errno;
    }
    var calculated := Crc16.Crc16(msg, msgLength - 2);
    var received := Word(msg[msgLength - 2], msg[msgLength - 1]);
    SameWord(calculated, msg[msgLength - 2], msg[msgLength - 1]);
    assert msg[..msgLength][..msgLength - 2] == msg[..msgLength - 2];
    assert msg[..msgLength][msgLength - 2..] == [msg[msgLength - 2], msg[msgLength - 1]];
    if calculated == received {
      rc := msgLength;
    } else {
      rc, errno := -1, EMBBADCRC;
    }
  }

  lemma SameWord(w: word, hi: byte, lo: byte)
    ensures w == Word(hi, lo) <==> [hi, lo] == [Hi(w), Lo(w)]
  {
    WordOfHalves(w);
    HalvesOfWord(hi, lo);
    if [hi, lo] == [Hi(w), Lo(w)] {
      assert [hi, lo][0] == Hi(w) && [hi, lo][1] == Lo(w);
    }
  }
}
