/** The client side of the protocol: requests, the check of confirmations, and their decoding. */
module Protocol {
  import opened Bytes
  import opened BitTables
  import opened Errors
  import opened Backends
  import opened Receive
  import opened Memory
  import opened Server

  function FunctionOf(c: Call): byte {
    match c
    case ReadBits(_, _) => FC_READ_COILS
    case ReadInputBits(_, _) => FC_READ_DISCRETE_INPUTS
    case ReadRegisters(_, _) => FC_READ_HOLDING_REGISTERS
    case ReadInputRegisters(_, _) => FC_READ_INPUT_REGISTERS
    case WriteBit(_, _) => FC_WRITE_SINGLE_COIL
    case WriteRegister(_, _) => FC_WRITE_SINGLE_REGISTER
    case WriteBits(_, _) => FC_WRITE_MULTIPLE_COILS
    case WriteRegisters(_, _) => FC_WRITE_MULTIPLE_REGISTERS
    case WriteAndRead(_, _, _, _) => FC_WRITE_AND_READ_REGISTERS
  }

  /** Function code, address, and quantity or value: build_request_basis after the header. */
  function Basis(function_: byte, addr: word, nb: word): (p: seq<byte>)
    ensures |p| == 5
  {
    [function_, Hi(addr), Lo(addr), Hi(nb), Lo(nb)]
  }

  function RequestPdu(c: Call): (p: seq<byte>)
    ensures 5 <= |p| && p[0] == FunctionOf(c)
  {
    var fc := FunctionOf(c);
    match c
    case ReadBits(a, nb) => Basis(fc, a, Low16(nb))
    case ReadInputBits(a, nb) => Basis(fc, a, Low16(nb))
    case ReadRegisters(a, nb) => Basis(fc, a, Low16(nb))
    case ReadInputRegisters(a, nb) => Basis(fc, a, Low16(nb))
    case WriteBit(a, on) => Basis(fc, a, if on then 0xFF00 else 0)
    case WriteRegister(a, v) => Basis(fc, a, v)
    case WriteBits(a, cells) => Basis(fc, a, Low16(|cells|)) + [Low8(ByteCount(|cells|))] + PackBits(Truth(cells))
    case WriteRegisters(a, values) => Basis(fc, a, Low16(|values|)) + [Low8(2 * |values|)] + RegisterBytes(values)
    case WriteAndRead(w, values, a, nb) =>
      var n := Low16(|values|);
      Basis(fc, a, Low16(nb)) + [Hi(w), Lo(w), Hi(n), Lo(n), Low8(2 * |values|)] + RegisterBytes(values)
  }

  // ---------- check_confirmation ----------

  const LENGTH_UNDEFINED: int := -1

  /** compute_response_length_from_request; only the reads look at the quantity. */
  function ComputeResponseLength(b: Backend, req: seq<byte>): int
    requires b.HeaderLength() < |req|
    requires ReadsBits(req[b.HeaderLength()]) || ReadsRegisters(req[b.HeaderLength()]) ==> b.HeaderLength() + 5 <= |req|
  {
    var offset := b.HeaderLength();
    var fc := req[offset];
    if fc == FC_REPORT_SLAVE_ID then LENGTH_UNDEFINED
    else
      var length :=
        if ReadsBits(fc) then 2 + ByteCount(Word(req[offset + 3], req[offset + 4]))
        else if ReadsRegisters(fc) then 2 + 2 * Word(req[offset + 3], req[offset + 4])
        else if fc == FC_READ_EXCEPTION_STATUS then 3
        else 5;
      offset + length + b.ChecksumLength()
  }

  datatype Checked = Accepted(count: nat) | Refused(errno: int)

  /** What the receiver delivers as a confirmation. */
  predicate WholeReply(b: Backend, rsp: seq<byte>) {
    Parse(b, Confirmation, rsp) == Complete(|rsp|)
  }

  /**
   * check_confirmation: whether a delivered reply is taken for the answer to a request. The length is the
   * one the receiver returned, which is 0 for the reply of another slave; behind the reply rsp may hold more.
   */
  function CheckLength(b: Backend, req: seq<byte>, rsp: seq<byte>, length: nat): Checked
    requires b.HeaderLength() + 5 <= |req| && Parse(b, Confirmation, rsp).Complete?
  {
    var offset := b.HeaderLength();
    var fc := rsp[offset];
    if !PreCheck(b, req, rsp) then Refused(if b.RTU? then EMBBADSLAVE else EMBBADDATA)
    else if fc >= 0x80 then
      if length == offset + 2 + b.ChecksumLength() && req[offset] == fc - 0x80 then
        var code := rsp[offset + 1];
        Refused(if code < EXCEPTION_MAX then ENOBASE + code else EMBBADEXC)
      else Refused(EMBBADEXC)
    else
      var computed := ComputeResponseLength(b, req);
      if length != computed && computed != LENGTH_UNDEFINED then Refused(EMBBADDATA)
      else if fc != req[offset] then Refused(EMBBADDATA)
      else
        var nb := Word(req[offset + 3], req[offset + 4]);
        if fc == FC_READ_COILS || fc == FC_READ_DISCRETE_INPUTS then
          SameQuantity(ByteCount(nb), rsp[offset + 1])
        else if fc == FC_WRITE_AND_READ_REGISTERS || fc == FC_READ_HOLDING_REGISTERS || fc == FC_READ_INPUT_REGISTERS then
          SameQuantity(nb, rsp[offset + 1] / 2)
        else if fc == FC_WRITE_MULTIPLE_COILS || fc == FC_WRITE_MULTIPLE_REGISTERS then
          SameQuantity(nb, Word(rsp[offset + 3], rsp[offset + 4]))
        else if fc == FC_REPORT_SLAVE_ID then
          Accepted(rsp[offset + 1])
        else
          Accepted(1)
  }

  /** The same for a reply that has passed the integrity check. */
  function CheckConfirmation(b: Backend, req: seq<byte>, rsp: seq<byte>): Checked
    requires b.HeaderLength() + 5 <= |req| && WholeReply(b, rsp)
  {
    CheckLength(b, req, rsp, |rsp|)
  }

  /** Bytes behind the reply make no difference. */
  lemma CheckReadsReply(b: Backend, req: seq<byte>, rsp: seq<byte>, rest: seq<byte>, length: nat)
    requires b.HeaderLength() + 5 <= |req| && WholeReply(b, rsp)
    ensures Parse(b, Confirmation, rsp + rest).Complete?
    ensures CheckLength(b, req, rsp + rest, length) == CheckLength(b, req, rsp, length)
  {
    ParsePrefix(b, Confirmation, rsp, rest);
    hide Word, ByteCount, ComputeResponseLength;
  }

  function SameQuantity(req: nat, rsp: nat): Checked {
    if req == rsp then Accepted(rsp) else Refused(EMBBADDATA)
  }

  predicate WritesMany(fc: byte) { fc == FC_WRITE_MULTIPLE_COILS || fc == FC_WRITE_MULTIPLE_REGISTERS }

  predicate WritesOne(fc: byte) { fc == FC_WRITE_SINGLE_COIL || fc == FC_WRITE_SINGLE_REGISTER }

  /**
   * What a reply must say to be accepted, for any bytes that arrive: its function, and for a read the
   * exact byte count - although the quantity test halves it with truncation - and for a multiple write
   * the quantity. Addresses and written values are not compared.
   */
  predicate Answers(p: seq<byte>, q: seq<byte>)
    requires 5 <= |p| && SelfDelimiting(Confirmation, q)
  {
    && q[0] == p[0]
    && (ReadsBits(p[0]) ==> q[1] == ByteCount(Field(p, 3)))
    && (ReadsRegisters(p[0]) ==> q[1] == 2 * Field(p, 3))
    && (WritesMany(p[0]) ==> Field(q, 3) == Field(p, 3))
  }

  function AnsweredCount(p: seq<byte>): nat
    requires 5 <= |p|
  {
    if ReadsBits(p[0]) then ByteCount(Field(p, 3))
    else if ReadsRegisters(p[0]) || WritesMany(p[0]) then Field(p, 3)
    else 1
  }

  /** A delivered reply is a header, a PDU of the length its own tables give, and the checksum. */
  lemma DeliveredPdu(b: Backend, t: MsgType, f: seq<byte>)
    requires Parse(b, t, f) == Complete(|f|)
    ensures SelfDelimiting(t, PduOf(b, f))
    ensures PduOf(b, f)[0] == f[b.HeaderLength()]
  {
    var h := b.HeaderLength();
    var n := |f| - b.ChecksumLength();
    assert f[h] == PduOf(b, f)[0];
    assert PduOf(b, f) == f[h..][..n - h];
    hide MetaLengthAfterFunction;
  }

  /** The functions that the client calls use. */
  predicate Called(fc: byte) { ReadsBits(fc) || ReadsRegisters(fc) || WritesMany(fc) || WritesOne(fc) }

  /** check_confirmation once the slave or transaction identifier has been found right, on PDUs alone. */
  function CheckPdu(p: seq<byte>, q: seq<byte>): Checked
    requires 5 <= |p| && Called(p[0]) && SelfDelimiting(Confirmation, q)
  {
    if q[0] >= 0x80 then
      Refused(if q[0] == p[0] + 0x80 && q[1] < EXCEPTION_MAX then ENOBASE + q[1] else EMBBADEXC)
    else if Answers(p, q) then Accepted(AnsweredCount(p))
    else Refused(EMBBADDATA)
  }

  lemma PduAt(b: Backend, f: seq<byte>, i: nat)
    requires b.HeaderLength() + b.ChecksumLength() <= |f| && i < |PduOf(b, f)|
    ensures PduOf(b, f)[i] == f[b.HeaderLength() + i]
  {
  }

  /** The check depends on nothing but the PDUs, and accepts exactly the replies that answer the request. */
  lemma CheckAtPdu(b: Backend, req: seq<byte>, rsp: seq<byte>)
    requires b.HeaderLength() + 5 + b.ChecksumLength() <= |req| && Called(PduOf(b, req)[0])
    requires WholeReply(b, rsp)
    ensures SelfDelimiting(Confirmation, PduOf(b, rsp))
    ensures CheckConfirmation(b, req, rsp) ==
            if PreCheck(b, req, rsp) then CheckPdu(PduOf(b, req), PduOf(b, rsp))
            else Refused(if b.RTU? then EMBBADSLAVE else EMBBADDATA)
  {
    DeliveredPdu(b, Confirmation, rsp);
    var p, q := PduOf(b, req), PduOf(b, rsp);
    PduAt(b, req, 0);
    PduAt(b, req, 3);
    PduAt(b, req, 4);
    PduAt(b, rsp, 0);
    PduAt(b, rsp, 1);
    if WritesMany(q[0]) {
      PduAt(b, rsp, 3);
      PduAt(b, rsp, 4);
    }
    hide Parse, Word, PreCheck, PduOf;
  }

  /** Exact acceptance: for arbitrary received bytes, both directions, on both backends. */
  lemma ExactAcceptance(b: Backend, req: seq<byte>, rsp: seq<byte>)
    requires b.HeaderLength() + 5 + b.ChecksumLength() <= |req| && Called(PduOf(b, req)[0])
    requires WholeReply(b, rsp)
    ensures SelfDelimiting(Confirmation, PduOf(b, rsp))
    ensures var p, q := PduOf(b, req), PduOf(b, rsp);
            && (CheckConfirmation(b, req, rsp).Accepted? <==> PreCheck(b, req, rsp) && Answers(p, q))
            && (CheckConfirmation(b, req, rsp).Accepted? ==> CheckConfirmation(b, req, rsp).count == AnsweredCount(p))
            && (CheckConfirmation(b, req, rsp).Accepted? && ReadsRegisters(p[0]) ==> |q| == 2 + 2 * AnsweredCount(p))
            && (CheckConfirmation(b, req, rsp).Accepted? && ReadsBits(p[0]) ==> |q| == 2 + AnsweredCount(p))
  {
    CheckAtPdu(b, req, rsp);
    hide Parse, Word, PreCheck, CheckConfirmation, Field;
  }

  /**
   * check_confirmation in the numbers of the protocol, for the request of any client call and any bytes that
   * arrive: the errno of a wrong slave or transaction, of an exception - its code, if it has one below 12 and
   * belongs to this request - and of any other reply that does not answer the request.
   */
  lemma CheckInNumbers(b: Backend, req: seq<byte>, rsp: seq<byte>)
    requires b.HeaderLength() + 5 + b.ChecksumLength() <= |req| && Called(PduOf(b, req)[0])
    requires WholeReply(b, rsp)
    ensures SelfDelimiting(Confirmation, PduOf(b, rsp)) && 2 <= |PduOf(b, rsp)|
    ensures var p, q := PduOf(b, req), PduOf(b, rsp);
            CheckConfirmation(b, req, rsp) ==
            if b.RTU? && req[0] != 0 && rsp[0] != req[0] then Refused(112345678 + 17)
            else if b.TCP? && rsp[..2] != req[..2] then Refused(112345678 + 13)
            else if q[0] >= 128 then Refused(112345678 + if q[0] == p[0] + 128 && q[1] < 12 then q[1] as int else 14)
            else if q[0] != p[0] then Refused(112345678 + 13)
            else if p[0] == 5 || p[0] == 6 then Accepted(1)
            else if p[0] == 15 || p[0] == 16 then
              if q[3..5] == p[3..5] then Accepted(Field(p, 3)) else Refused(112345678 + 13)
            else
              var bytes := if p[0] <= 2 then ByteCount(Field(p, 3)) else 2 * Field(p, 3);
              if q[1] == bytes then Accepted(if p[0] <= 2 then bytes else Field(p, 3)) else Refused(112345678 + 13)
  {
    hide Parse, CheckConfirmation, PduOf, SelfDelimiting, ByteCount;
    CheckAtPdu(b, req, rsp);
    RepliesHaveTwo(PduOf(b, rsp));
    assert b.TCP? ==> (rsp[..2] == req[..2] <==> rsp[0] == req[0] && rsp[1] == req[1]);
    var p, q := PduOf(b, req), PduOf(b, rsp);
    if WritesMany(q[0]) {
      SameField(p, q);
    }
    hide Field;
  }

  /**
   * The same for the requests of functions that no modelled call uses. A reply to report-slave-id gives its byte
   * count. Otherwise the length expected is never that of a delimited reply - for read-exception-status it is
   * one too many - except for a function 0 with three data bytes.
   */
  lemma CheckOtherFunctions(b: Backend, req: seq<byte>, rsp: seq<byte>)
    requires b.HeaderLength() + 5 + b.ChecksumLength() <= |req| && !Called(PduOf(b, req)[0])
    requires WholeReply(b, rsp) && PreCheck(b, req, rsp)
    ensures 2 <= |PduOf(b, rsp)|
    ensures var fc, q := PduOf(b, req)[0], PduOf(b, rsp);
            CheckConfirmation(b, req, rsp) ==
            if q[0] >= 128 then Refused(112345678 + if q[0] as int == fc as int + 128 && q[1] < 12 then q[1] as int else 14)
            else if q[0] == fc == 17 then Accepted(q[1])
            else if q[0] == fc == 0 && q[1] == 3 then Accepted(1)
            else Refused(112345678 + 13)
  {
    DeliveredPdu(b, Confirmation, rsp);
    RepliesHaveTwo(PduOf(b, rsp));
    PduAt(b, req, 0);
    PduAt(b, rsp, 0);
    PduAt(b, rsp, 1);
    hide Parse, Word, PreCheck, PduOf, ByteCount;
  }

  lemma RepliesHaveTwo(q: seq<byte>)
    requires SelfDelimiting(Confirmation, q)
    ensures 2 <= |q|
    ensures WritesMany(q[0]) ==> |q| == 5
  {
  }

  lemma SameField(p: seq<byte>, q: seq<byte>)
    requires 5 <= |p| && 5 <= |q|
    ensures Field(q, 3) == Field(p, 3) <==> q[3..5] == p[3..5]
  {
    HalvesOfWord(p[3], p[4]);
    HalvesOfWord(q[3], q[4]);
    assert q[3..5] == [q[3], q[4]] && p[3..5] == [p[3], p[4]];
    hide Hi, Lo, Word;
  }

  /**
   * The same from the line on: whatever bytes arrive, in whatever pieces, a reply that is received and
   * accepted for a read holds exactly the bytes the decoding loops go through.
   */
  lemma AcceptedBytes(b: Backend, req: seq<byte>, l: Traffic)
    requires b.HeaderLength() + 5 + b.ChecksumLength() <= |req| && Called(PduOf(b, req)[0])
    requires Delivered(b, Confirmation, l) != []
    ensures var rsp, p := Delivered(b, Confirmation, l), PduOf(b, req);
            && WholeReply(b, rsp)
            && (CheckConfirmation(b, req, rsp).Accepted? ==>
                  var n := CheckConfirmation(b, req, rsp).count;
                  && n == AnsweredCount(p)
                  && (ReadsRegisters(p[0]) ==> |rsp| == b.HeaderLength() + 2 + 2 * n + b.ChecksumLength())
                  && (ReadsBits(p[0]) ==> |rsp| == b.HeaderLength() + 2 + n + b.ChecksumLength()))
  {
    DeliveredWhole(b, Confirmation, l);
    ExactAcceptance(b, req, Delivered(b, Confirmation, l));
    hide Parse, Delivered, PreCheck, CheckConfirmation, Field, AnsweredCount;
  }
}
