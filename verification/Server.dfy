/** The server: modbus_reply as an interpreter of request PDUs over the four tables. */
module Server {
  import opened Bytes
  import opened BitTables
  import opened Errors
  import opened Backends
  import opened Receive
  import opened Memory

  /** What a request PDU is answered with. */
  datatype Answer =
    | Silent               // nothing is sent
    | Echo                 // the request itself
    | Reply(pdu: seq<byte>)

  /** The value of the payload of a report-slave-id reply: id 180, running, "LMB3.0.1". */
  const SLAVE_ID: seq<byte> := [180, 0xFF, 0x4C, 0x4D, 0x42, 0x33, 0x2E, 0x30, 0x2E, 0x31]

  function Exception(function_: byte, code: byte): (a: Answer)
    ensures a.Reply?
  {
    Reply([Low8(function_ + 0x80), code])
  }

  /** The 16-bit field at position i of a PDU. */
  function Field(p: seq<byte>, i: nat): word
    requires i + 1 < |p|
  {
    Word(p[i], p[i + 1])
  }

  predicate ReadsBits(fc: byte) { fc == FC_READ_COILS || fc == FC_READ_DISCRETE_INPUTS }

  predicate ReadsRegisters(fc: byte) {
    fc == FC_READ_HOLDING_REGISTERS || fc == FC_READ_INPUT_REGISTERS || fc == FC_WRITE_AND_READ_REGISTERS
  }

  /** The number of cells of the table that a function addresses. */
  function TableSize(fc: byte, t: Tables): nat {
    if fc == FC_READ_DISCRETE_INPUTS then |t.inputBits|
    else if fc == FC_READ_INPUT_REGISTERS then |t.inputRegisters|
    else if fc == FC_READ_COILS || fc == FC_WRITE_SINGLE_COIL || fc == FC_WRITE_MULTIPLE_COILS then |t.bits|
    else |t.registers|
  }

  /** The range, or both ranges, of a request with a quantity are inside the table. */
  predicate RangeInside(p: seq<byte>, t: Tables)
    requires 5 <= |p| && (p[0] == FC_WRITE_AND_READ_REGISTERS ==> 9 <= |p|)
  {
    && Field(p, 1) + Field(p, 3) <= TableSize(p[0], t)
    && (p[0] == FC_WRITE_AND_READ_REGISTERS ==> Field(p, 5) + Field(p, 7) <= |t.registers|)
  }

  /** What modbus_reply reads of a request has been received: its fields, and the data if it uses them. */
  predicate Readable(p: seq<byte>, t: Tables) {
    && 1 <= |p|
    && (Addresses(p[0]) ==> 5 <= |p|)
    && (p[0] == FC_WRITE_AND_READ_REGISTERS ==> 9 <= |p|)
    && (Addresses(p[0]) && RangeInside(p, t) ==>
          && (p[0] == FC_WRITE_MULTIPLE_COILS ==> 6 + ByteCount(Field(p, 3)) <= |p|)
          && (p[0] == FC_WRITE_MULTIPLE_REGISTERS ==> 6 + 2 * Field(p, 3) <= |p|)
          && (p[0] == FC_WRITE_AND_READ_REGISTERS ==> 10 + 2 * Field(p, 7) <= |p|))
  }

  /** A reply of n data bytes behind function and byte count stays inside the buffer, checksum included. */
  predicate DataFits(b: Backend, n: nat) {
    b.HeaderLength() + 2 + n + b.ChecksumLength() <= MAX_MESSAGE_LENGTH
  }

  /** What modbus_reply does not check, but relies on: no read is answered with more than its buffer holds. */
  predicate Servable(b: Backend, p: seq<byte>, t: Tables) {
    && Readable(p, t)
    && (Addresses(p[0]) && RangeInside(p, t) ==>
          && (ReadsBits(p[0]) ==> DataFits(b, ByteCount(Field(p, 3))))
          && (ReadsRegisters(p[0]) ==> DataFits(b, 2 * Field(p, 3))))
  }

  /** The functions that name an address and a quantity or value. */
  predicate Addresses(function_: byte) {
    || FC_READ_COILS <= function_ <= FC_WRITE_SINGLE_REGISTER
    || function_ == FC_WRITE_MULTIPLE_COILS
    || function_ == FC_WRITE_MULTIPLE_REGISTERS
    || function_ == FC_WRITE_AND_READ_REGISTERS
  }

  function BitsReply(function_: byte, cells: seq<byte>): (a: Answer)
    ensures a.Reply?
  {
    Reply([function_, Low8(ByteCount(|cells|))] + PackBits(cells))
  }

  function RegistersReply(function_: byte, values: seq<word>): (a: Answer)
    ensures a.Reply?
  {
    Reply([function_, Low8(2 * |values|)] + RegisterBytes(values))
  }

  /** One request PDU: the answer and the tables afterwards. */
  function Serve(p: seq<byte>, t: Tables): (Answer, Tables)
    requires Readable(p, t)
  {
    var fc := p[0];
    if fc == FC_READ_COILS then
      var a, nb := Field(p, 1), Field(p, 3);
      (if a + nb > |t.bits| then Exception(fc, ILLEGAL_DATA_ADDRESS) else BitsReply(fc, t.bits[a..a + nb]), t)
    else if fc == FC_READ_DISCRETE_INPUTS then
      var a, nb := Field(p, 1), Field(p, 3);
      (if a + nb > |t.inputBits| then Exception(fc, ILLEGAL_DATA_ADDRESS) else BitsReply(fc, t.inputBits[a..a + nb]), t)
    else if fc == FC_READ_HOLDING_REGISTERS then
      var a, nb := Field(p, 1), Field(p, 3);
      (if a + nb > |t.registers| then Exception(fc, ILLEGAL_DATA_ADDRESS) else RegistersReply(fc, t.registers[a..a + nb]), t)
    else if fc == FC_READ_INPUT_REGISTERS then
      var a, nb := Field(p, 1), Field(p, 3);
      (if a + nb > |t.inputRegisters| then Exception(fc, ILLEGAL_DATA_ADDRESS) else RegistersReply(fc, t.inputRegisters[a..a + nb]), t)
    else if fc == FC_WRITE_SINGLE_COIL then
      var a, data := Field(p, 1), Field(p, 3);
      if a >= |t.bits| then (Exception(fc, ILLEGAL_DATA_ADDRESS), t)
      else if data == 0xFF00 || data == 0 then (Echo, t.(bits := t.bits[a := if data != 0 then 1 else 0]))
      else (Exception(fc, ILLEGAL_DATA_VALUE), t)
    else if fc == FC_WRITE_SINGLE_REGISTER then
      var a := Field(p, 1);
      if a >= |t.registers| then (Exception(fc, ILLEGAL_DATA_ADDRESS), t)
      else (Echo, t.(registers := t.registers[a := Field(p, 3)]))
    else if fc == FC_WRITE_MULTIPLE_COILS then
      var a, nb := Field(p, 1), Field(p, 3);
      if a + nb > |t.bits| then (Exception(fc, ILLEGAL_DATA_ADDRESS), t)
      else (Reply(p[..5]), t.(bits := Overwrite(t.bits, a, UnpackBits(p[6..6 + ByteCount(nb)], nb))))
    else if fc == FC_WRITE_MULTIPLE_REGISTERS then
      var a, nb := Field(p, 1), Field(p, 3);
      if a + nb > |t.registers| then (Exception(fc, ILLEGAL_DATA_ADDRESS), t)
      else (Reply(p[..5]), t.(registers := Overwrite(t.registers, a, BytesRegisters(p[6..], nb))))
    else if fc == FC_REPORT_SLAVE_ID then
      (Reply([fc, |SLAVE_ID|] + SLAVE_ID), t)
    else if fc == FC_READ_EXCEPTION_STATUS then
      (Silent, t)
    else if fc == FC_WRITE_AND_READ_REGISTERS then
      var a, nb, w, nbWrite := Field(p, 1), Field(p, 3), Field(p, 5), Field(p, 7);
      if a + nb > |t.registers| || w + nbWrite > |t.registers| then (Exception(fc, ILLEGAL_DATA_ADDRESS), t)
      else
        var written := Overwrite(t.registers, w, BytesRegisters(p[10..], nbWrite));
        (RegistersReply(fc, written[a..a + nb]), t.(registers := written))
    else
      (Exception(fc, ILLEGAL_FUNCTION), t)
  }

  function ProtoOf(b: Backend, req: seq<byte>): (proto: seq<byte>)
    requires b.HeaderLength() <= |req|
    ensures |proto| == 2
  {
    if b.RTU? then [0, 0] else req[2..4]
  }

  /** The frame sent for an answer; an echo keeps the protocol field of the request. */
  function ReplyFrame(b: Backend, req: seq<byte>, a: Answer): seq<byte>
    requires b.HeaderLength() + b.ChecksumLength() <= |req|
    requires !a.Silent?
  {
    match a
    case Echo => Frame(b, TidOf(b, req), ProtoOf(b, req), SlaveOf(b, req), PduOf(b, req))
    case Reply(pdu) => Frame(b, TidOf(b, req), [0, 0], SlaveOf(b, req), pdu)
  }

  // ---------- Invariants of every run ----------

  /** A write through UnpackBits keeps a bit table a bit table. */
  lemma OverwriteFlags(s: seq<byte>, a: nat, v: seq<byte>)
    requires Flags(s) && Flags(v) && a + |v| <= |s|
    ensures Flags(Overwrite(s, a, v))
  {
  }

  /** Whatever is asked: sizes and input tables never change, bit cells stay 0 or 1, exceptions change nothing. */
  lemma ServeInvariant(b: Backend, p: seq<byte>, t: Tables)
    requires Servable(b, p, t)
    ensures var (a, t') := Serve(p, t);
            && t'.inputBits == t.inputBits && t'.inputRegisters == t.inputRegisters
            && |t'.bits| == |t.bits| && |t'.registers| == |t.registers|
            && (WellFormed(t) ==> WellFormed(t'))
            && (a.Reply? && a.pdu != [] && a.pdu[0] >= 0x80 ==> t' == t)
  {
    hide UnpackBits, BytesRegisters, PackBits, RegisterBytes, Word;
    if p[0] == FC_WRITE_MULTIPLE_COILS && Field(p, 1) + Field(p, 3) <= |t.bits| && Flags(t.bits) {
      OverwriteFlags(t.bits, Field(p, 1), UnpackBits(p[6..6 + ByteCount(Field(p, 3))], Field(p, 3)));
    }
  }

  predicate SameSizes(t: Tables, u: Tables) {
    && |t.bits| == |u.bits| && |t.inputBits| == |u.inputBits|
    && |t.registers| == |u.registers| && |t.inputRegisters| == |u.inputRegisters|
  }

  lemma ServableReads(b: Backend, p: seq<byte>, t: Tables)
    requires Servable(b, p, t)
    ensures Readable(p, t)
  {
  }

  /** What the server relies on depends on the sizes of the tables alone. */
  lemma ServableStays(b: Backend, p: seq<byte>, t: Tables, u: Tables)
    requires Servable(b, p, t) && SameSizes(t, u)
    ensures Servable(b, p, u)
  {
    hide Field, ByteCount;
  }

  lemma AllServableStay(b: Backend, ps: seq<seq<byte>>, p: seq<byte>, t: Tables)
    requires Servable(b, p, t) && forall i :: 0 <= i < |ps| ==> Servable(b, ps[i], t)
    ensures forall i :: 0 <= i < |ps| ==> Servable(b, ps[i], Serve(p, t).1)
  {
    ServeInvariant(b, p, t);
    hide Serve, Servable;
    forall i | 0 <= i < |ps|
      ensures Servable(b, ps[i], Serve(p, t).1)
    {
      ServableStays(b, ps[i], t, Serve(p, t).1);
    }
  }

  function ServeAll(b: Backend, ps: seq<seq<byte>>, t: Tables): Tables
    requires forall i :: 0 <= i < |ps| ==> Servable(b, ps[i], t)
    decreases |ps|
  {
    if ps == [] then t
    else
      AllServableStay(b, ps[1..], ps[0], t);
      ServeAll(b, ps[1..], Serve(ps[0], t).1)
  }

  lemma {:induction false} RunInvariant(b: Backend, ps: seq<seq<byte>>, t: Tables)
    requires forall i :: 0 <= i < |ps| ==> Servable(b, ps[i], t)
    ensures var t' := ServeAll(b, ps, t);
            && t'.inputBits == t.inputBits && t'.inputRegisters == t.inputRegisters
            && |t'.bits| == |t.bits| && |t'.registers| == |t.registers|
            && (WellFormed(t) ==> WellFormed(t'))
    decreases |ps|
  {
    if ps != [] {
      ServeInvariant(b, ps[0], t);
      AllServableStay(b, ps[1..], ps[0], t);
      hide Serve, Servable;
      RunInvariant(b, ps[1..], Serve(ps[0], t).1);
    }
  }
}
