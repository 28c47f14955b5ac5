/**
 * What modbus_reply answers to any request PDU, byte by byte and with the numbers of the protocol written
 * out: not only to the requests of this library's client, and for quantities of any size.
 */
module RequestMeaning {
  import opened Bytes
  import opened BitTables
  import opened Backends
  import opened Receive
  import opened Memory
  import opened Server
  import opened Protocol
  import opened Refinement
  import opened Lengths

  /** The number in bytes i and i + 1 of a PDU. */
  function Number(p: seq<byte>, i: nat): nat
    requires i + 1 < |p|
  {
    256 * (p[i] as int) + p[i + 1] as int
  }

  /** What the server sends back, as a PDU; nothing for the one function that it leaves unanswered. */
  function Sent(p: seq<byte>, t: Tables): seq<byte>
    requires Readable(p, t)
  {
    if Serve(p, t).0.Silent? then [] else ReplyPdu(p, Serve(p, t).0)
  }

  function TablesAfter(p: seq<byte>, t: Tables): Tables
    requires Readable(p, t)
  {
    Serve(p, t).1
  }

  /**
   * Of the requests the receiver delimits, the server can read what it goes on to use in every one except where
   * the byte count of a multiple write inside the table announces fewer bytes than its quantity needs.
   */
  lemma ReadableExactly(p: seq<byte>, t: Tables)
    requires SelfDelimiting(Indication, p)
    ensures p[0] != 15 && p[0] != 16 && p[0] != 23 ==> Readable(p, t)
    ensures p[0] == 15 ==> 6 <= |p| && (Readable(p, t) <==> Number(p, 1) + Number(p, 3) > |t.bits| || ByteCount(Number(p, 3)) <= p[5])
    ensures p[0] == 16 ==> 6 <= |p| && (Readable(p, t) <==> Number(p, 1) + Number(p, 3) > |t.registers| || 2 * Number(p, 3) <= p[5])
    ensures p[0] == 23 ==> 10 <= |p| && (Readable(p, t) <==>
              || Number(p, 1) + Number(p, 3) > |t.registers| || Number(p, 5) + Number(p, 7) > |t.registers|
              || 2 * Number(p, 7) <= p[9])
  {
    hide ByteCount;
    if 5 <= |p| {
      assert Field(p, 1) == Number(p, 1) && Field(p, 3) == Number(p, 3);
    }
    if 9 <= |p| {
      assert Field(p, 5) == Number(p, 5) && Field(p, 7) == Number(p, 7);
    }
  }

  // ---------- Single writes ----------

  /** Function 5: an address outside, a value that is neither 0xFF00 nor 0, or one coil set and the request echoed. */
  lemma SingleCoil(p: seq<byte>, t: Tables)
    requires Readable(p, t) && p[0] == 5
    ensures 5 <= |p|
    ensures Sent(p, t) == [0x85, 2] <==> Number(p, 1) >= |t.bits|
    ensures Sent(p, t) == [0x85, 3] <==> Number(p, 1) < |t.bits| && Number(p, 3) != 0xFF00 && Number(p, 3) != 0
    ensures Sent(p, t)[..1] == [0x85] ==> TablesAfter(p, t) == t
    ensures Sent(p, t)[..1] != [0x85] ==>
              && Sent(p, t) == p && Number(p, 1) < |t.bits|
              && TablesAfter(p, t) == t.(bits := t.bits[Number(p, 1) := if Number(p, 3) == 0xFF00 then 1 else 0])
  {
    assert Field(p, 1) == Number(p, 1) && Field(p, 3) == Number(p, 3);
    hide Field, Number;
  }

  /** Function 6: an address outside, or one register set to any value and the request echoed. */
  lemma SingleRegister(p: seq<byte>, t: Tables)
    requires Readable(p, t) && p[0] == 6
    ensures 5 <= |p|
    ensures Sent(p, t) == (if Number(p, 1) >= |t.registers| then [0x86, 2] else p)
    ensures TablesAfter(p, t) ==
            if Number(p, 1) >= |t.registers| then t else t.(registers := t.registers[Number(p, 1) := Number(p, 3)])
  {
    assert Field(p, 1) == Number(p, 1) && Field(p, 3) == Number(p, 3);
    hide Field, Number;
  }

  // ---------- Reads ----------

  /** The table that a read of bits addresses. */
  function BitTable(function_: byte, t: Tables): seq<byte> { if function_ == 1 then t.bits else t.inputBits }

  /** A reply whose bits are the n cells of a table from a on, padded with zeros. */
  predicate CarriesBits(q: seq<byte>, function_: byte, cells: seq<byte>, a: nat, n: nat)
    requires a + n <= |cells|
  {
    && |q| == 2 + ByteCount(n) && q[0] == function_ && q[1] == ByteCount(n) % 256
    && forall k: nat :: k < 8 * ByteCount(n) ==> (BitSet(q[2..][k / 8], k % 8) <==> k < n && cells[a + k] == 1)
  }

  /** Functions 1 and 2: an address outside, or the bits of the range. */
  lemma BitsRead(p: seq<byte>, t: Tables)
    requires Readable(p, t) && (p[0] == 1 || p[0] == 2) && WellFormed(t)
    ensures 5 <= |p| && TablesAfter(p, t) == t
    ensures var a, nb, cells, q := Number(p, 1), Number(p, 3), BitTable(p[0], t), Sent(p, t);
            if a + nb > |cells| then q == [p[0] + 0x80, 2] else CarriesBits(q, p[0], cells, a, nb)
  {
    hide BitsReply, CarriesBits;
    assert Field(p, 1) == Number(p, 1) && Field(p, 3) == Number(p, 3);
    var a, nb, cells := Number(p, 1), Number(p, 3), BitTable(p[0], t);
    if a + nb <= |cells| {
      BitsCarried(p[0], cells, a, nb);
    }
  }

  lemma BitsCarried(function_: byte, cells: seq<byte>, a: nat, nb: nat)
    requires Flags(cells) && a + nb <= |cells|
    ensures CarriesBits(BitsReply(function_, cells[a..a + nb]).pdu, function_, cells, a, nb)
  {
    hide ByteCount, BitSet, PackBits;
    var part := cells[a..a + nb];
    var q := BitsReply(function_, part).pdu;
    assert q[2..] == PackBits(part);
    forall k: nat | k < 8 * ByteCount(nb)
      ensures BitSet(q[2..][k / 8], k % 8) <==> k < nb && cells[a + k] == 1
    {
      PackBitsAt(part, k);
    }
  }

  function RegisterTable(function_: byte, t: Tables): seq<word> { if function_ == 4 then t.inputRegisters else t.registers }

  /** A reply that carries the n registers of a table from a on. */
  predicate CarriesRegisters(q: seq<byte>, function_: byte, cells: seq<word>, a: nat, n: nat)
    requires a + n <= |cells|
  {
    && |q| == 2 + 2 * n && q[0] == function_ && q[1] == 2 * n % 256
    && forall k :: 0 <= k < n ==> Number(q, 2 + 2 * k) == cells[a + k]
  }

  lemma RegistersCarried(function_: byte, cells: seq<word>, a: nat, n: nat)
    requires a + n <= |cells|
    ensures CarriesRegisters(RegistersReply(function_, cells[a..a + n]).pdu, function_, cells, a, n)
  {
    hide RegisterBytes, Hi, Lo;
    var part := cells[a..a + n];
    var q := RegistersReply(function_, part).pdu;
    assert q[2..] == RegisterBytes(part);
    forall k | 0 <= k < n
      ensures Number(q, 2 + 2 * k) == cells[a + k]
    {
      RegisterBytesAt(part, k);
      assert q[2 + 2 * k] == q[2..][2 * k] && q[3 + 2 * k] == q[2..][2 * k + 1];
      WordOfHalves(part[k]);
    }
  }

  /** Functions 3 and 4: an address outside, or the registers of the range, high byte first. */
  lemma RegistersRead(p: seq<byte>, t: Tables)
    requires Readable(p, t) && (p[0] == 3 || p[0] == 4)
    ensures 5 <= |p| && TablesAfter(p, t) == t
    ensures var a, nb, cells, q := Number(p, 1), Number(p, 3), RegisterTable(p[0], t), Sent(p, t);
            if a + nb > |cells| then q == [p[0] + 0x80, 2] else CarriesRegisters(q, p[0], cells, a, nb)
  {
    hide RegistersReply, CarriesRegisters;
    assert Field(p, 1) == Number(p, 1) && Field(p, 3) == Number(p, 3);
    var a, nb, cells := Number(p, 1), Number(p, 3), RegisterTable(p[0], t);
    if a + nb <= |cells| {
      RegistersCarried(p[0], cells, a, nb);
    }
  }

  // ---------- Multiple writes ----------

  /** Function 15: an address outside, or coil k of the range is bit k of the data and no other cell changes. */
  lemma CoilsWritten(p: seq<byte>, t: Tables)
    requires Readable(p, t) && p[0] == 15
    ensures 5 <= |p|
    ensures var a, nb, q, t' := Number(p, 1), Number(p, 3), Sent(p, t), TablesAfter(p, t);
            if a + nb > |t.bits| then q == [0x8F, 2] && t' == t
            else
              && q == p[..5] && 6 + ByteCount(nb) <= |p|
              && t' == t.(bits := t'.bits) && |t'.bits| == |t.bits|
              && forall i :: 0 <= i < |t.bits| ==>
                   t'.bits[i] == if a <= i < a + nb then DataBit(p, i - a) else t.bits[i]
  {
    hide BitSet, UnpackBits;
    assert Field(p, 1) == Number(p, 1) && Field(p, 3) == Number(p, 3);
    var a, nb := Number(p, 1), Number(p, 3);
    if a + nb <= |t.bits| {
      UnpackedBits(p, nb);
    }
  }

  /** Bit k of the data of a request to write coils, which begin behind the byte count. */
  function DataBit(p: seq<byte>, k: nat): byte {
    if 6 + k / 8 < |p| && BitSet(p[6 + k / 8], k % 8) then 1 else 0
  }

  lemma UnpackedBits(p: seq<byte>, nb: nat)
    requires 6 + ByteCount(nb) <= |p|
    ensures forall k :: 0 <= k < nb ==> UnpackBits(p[6..6 + ByteCount(nb)], nb)[k] == DataBit(p, k)
  {
    hide BitSet;
    forall k | 0 <= k < nb
      ensures UnpackBits(p[6..6 + ByteCount(nb)], nb)[k] == DataBit(p, k)
    {
      ByteCountBound(nb, k);
      assert p[6..6 + ByteCount(nb)][k / 8] == p[6 + k / 8];
    }
  }

  /** The registers from a on hold the n values that stand in p from position i on; no other changes. */
  ghost predicate Stores(after: seq<word>, before: seq<word>, a: nat, p: seq<byte>, i: nat, n: nat)
    requires i + 2 * n <= |p|
  {
    && |after| == |before|
    && forall j :: 0 <= j < |before| ==> after[j] == if a <= j < a + n then Number(p, i + 2 * (j - a)) else before[j]
  }

  lemma OverwriteStores(before: seq<word>, a: nat, p: seq<byte>, i: nat, n: nat)
    requires i + 2 * n <= |p| && a + n <= |before|
    ensures Stores(Overwrite(before, a, BytesRegisters(p[i..], n)), before, a, p, i, n)
  {
    var ws := BytesRegisters(p[i..], n);
    forall k | 0 <= k < n
      ensures ws[k] == Number(p, i + 2 * k)
    {
      assert p[i..][2 * k] == p[i + 2 * k] && p[i..][2 * k + 1] == p[i + 2 * k + 1];
    }
    hide BytesRegisters, Number;
  }

  /** Function 16: an address outside, or the values of the data are stored. */
  lemma RegistersWritten(p: seq<byte>, t: Tables)
    requires Readable(p, t) && p[0] == 16
    ensures 5 <= |p|
    ensures var a, nb, q, t' := Number(p, 1), Number(p, 3), Sent(p, t), TablesAfter(p, t);
            if a + nb > |t.registers| then q == [0x90, 2] && t' == t
            else
              && q == p[..5] && 6 + 2 * nb <= |p|
              && t' == t.(registers := t'.registers) && Stores(t'.registers, t.registers, a, p, 6, nb)
  {
    hide BytesRegisters, Overwrite, Stores;
    assert Field(p, 1) == Number(p, 1) && Field(p, 3) == Number(p, 3);
    var a, nb := Number(p, 1), Number(p, 3);
    if a + nb <= |t.registers| {
      OverwriteStores(t.registers, a, p, 6, nb);
    }
  }

  /** Function 23: one of the two ranges outside, or the values are stored and then the other range is read. */
  lemma RegistersExchanged(p: seq<byte>, t: Tables)
    requires Readable(p, t) && p[0] == 23
    ensures 9 <= |p|
    ensures var a, nb, w, n, q, t' := Number(p, 1), Number(p, 3), Number(p, 5), Number(p, 7), Sent(p, t), TablesAfter(p, t);
            if a + nb > |t.registers| || w + n > |t.registers| then q == [0x97, 2] && t' == t
            else
              && 10 + 2 * n <= |p|
              && t' == t.(registers := t'.registers) && Stores(t'.registers, t.registers, w, p, 10, n)
              && a + nb <= |t'.registers| && CarriesRegisters(q, 23, t'.registers, a, nb)
  {
    hide BytesRegisters, Overwrite, RegistersReply, CarriesRegisters, Stores;
    assert Field(p, 1) == Number(p, 1) && Field(p, 3) == Number(p, 3);
    assert Field(p, 5) == Number(p, 5) && Field(p, 7) == Number(p, 7);
    var a, nb, w, n := Number(p, 1), Number(p, 3), Number(p, 5), Number(p, 7);
    if a + nb <= |t.registers| && w + n <= |t.registers| {
      OverwriteStores(t.registers, w, p, 10, n);
      RegistersCarried(23, Overwrite(t.registers, w, BytesRegisters(p[10..], n)), a, nb);
    }
  }

  // ---------- The other functions ----------

  predicate Known(function_: byte) { 1 <= function_ <= 7 || 15 <= function_ <= 17 || function_ == 23 }

  /** Function 17 gives id, run indicator and version; function 7 is not answered; all others are refused. */
  lemma OtherFunctions(p: seq<byte>, t: Tables)
    requires Readable(p, t)
    ensures !Known(p[0]) || p[0] == 7 || p[0] == 17 ==> TablesAfter(p, t) == t
    ensures p[0] == 17 ==> Sent(p, t) == [17, 10, 180, 0xFF, 0x4C, 0x4D, 0x42, 0x33, 0x2E, 0x30, 0x2E, 0x31]
    ensures p[0] == 7 ==> Sent(p, t) == []
    ensures !Known(p[0]) ==> Sent(p, t) == [(p[0] as int + 0x80) % 0x100, 1]
  {
  }

  // ---------- In bytes ----------

  lemma SilentSendsNothing(p: seq<byte>, t: Tables)
    requires Readable(p, t)
    ensures Sent(p, t) == [] <==> Serve(p, t).0.Silent?
  {
    hide Field, PackBits, RegisterBytes, UnpackBits, BytesRegisters, Overwrite;
  }

  /** What the server must find in a frame that is made of a PDU, for any slave. */
  lemma AnyArrives(b: Backend, tid: word, proto: seq<byte>, to: byte, slave: byte, p: seq<byte>)
    requires |proto| == 2 && SelfDelimiting(Indication, p) && 1 <= |p| <= 253
    ensures var f := Frame(b, tid, proto, to, p);
            && Delivered(b, Indication, Traffic(f, [])) == f && f != []
            && CheckIntegrity(b, slave, f) == (if b.RTU? && to != slave && to != 0 then 0 else |f|)
            && PduOf(b, f) == p && SlaveOf(b, f) == to && TidOf(b, f) == WireTid(b, tid)
            && ProtoOf(b, f) == if b.RTU? then [0, 0] else proto
  {
    hide Parse, Seal, SelfDelimiting, CrcMatches, Delivered;
    var f, body := Frame(b, tid, proto, to, p), Head(b, tid, proto, to) + p;
    FrameParses(b, Indication, tid, proto, to, p);
    FrameParts(b, tid, proto, to, p);
    FrameDelivered(b, Indication, f, [], []);
    assert f + [] == f;
    if b.TCP? || to == slave || to == 0 {
      SealedIsIntact(b, slave, body);
    }
  }

  /** The frame of a reply: an echo keeps the protocol field of a TCP request. */
  function SentFrame(b: Backend, tid: word, proto: seq<byte>, to: byte, p: seq<byte>, t: Tables): seq<byte>
    requires |proto| == 2 && Readable(p, t)
  {
    if Sent(p, t) == [] then []
    else Frame(b, WireTid(b, tid), if b.TCP? && Serve(p, t).0.Echo? then proto else [0, 0], to, Sent(p, t))
  }

  /**
   * A request of any function, slave address, transaction and protocol field that arrives whole: on RTU it
   * is left alone if it is for another slave; otherwise the frame of what is sent for its PDU goes out.
   */
  lemma ServerSends(b: Backend, tid: word, proto: seq<byte>, to: byte, slave: byte, p: seq<byte>, t: Tables)
    requires |proto| == 2 && SelfDelimiting(Indication, p) && |p| <= 253 && Servable(b, p, t)
    ensures Readable(p, t)
    ensures ServerTurn(b, slave, Frame(b, tid, proto, to, p), t) ==
            if b.RTU? && to != slave && to != 0 then ([], t) else (SentFrame(b, tid, proto, to, p, t), TablesAfter(p, t))
  {
    hide Serve, Servable, Readable, Frame, CheckIntegrity, Parse, Delivered, TidOf, SlaveOf, ProtoOf, PduOf, SelfDelimiting,
         ReplyFrame;
    var f := Frame(b, tid, proto, to, p);
    SelfDelimitingFirst(Indication, p);
    AnyArrives(b, tid, proto, to, slave, p);
    ServableReads(b, p, t);
    SilentSendsNothing(p, t);
    if !Serve(p, t).0.Silent? {
      ReplyIsFrame(b, f, Serve(p, t).0);
    }
  }

  lemma SelfDelimitingFirst(t: MsgType, p: seq<byte>)
    requires SelfDelimiting(t, p)
    ensures 1 <= |p|
  {
  }

  /** Requests of one byte arrive whole: report-slave-id is answered, read-exception-status is not. */
  lemma OneByteRequests(b: Backend, tid: word, slave: byte, t: Tables)
    ensures ServerTurn(b, slave, Frame(b, tid, [0, 0], slave, [17]), t) ==
            (Frame(b, WireTid(b, tid), [0, 0], slave,
                   [17, 10, 180, 0xFF, 0x4C, 0x4D, 0x42, 0x33, 0x2E, 0x30, 0x2E, 0x31]), t)
    ensures ServerTurn(b, slave, Frame(b, tid, [0, 0], slave, [7]), t) == ([], t)
    ensures var f := Frame(b, tid, [0, 0], slave, [17]); Parse(b, Indication, f) == Complete(|f|)
    ensures var f := Frame(b, tid, [0, 0], slave, [7]); Parse(b, Indication, f) == Complete(|f|)
  {
    hide Frame, Parse, ServerTurn, Sent, TablesAfter;
    RequestDelimited(b, tid, [0, 0], slave, [17]);
    RequestDelimited(b, tid, [0, 0], slave, [7]);
    ServerSends(b, tid, [0, 0], slave, slave, [17], t);
    ServerSends(b, tid, [0, 0], slave, slave, [7], t);
    OtherFunctions([17], t);
    OtherFunctions([7], t);
  }

  // ---------- What the client sends ----------

  /** A PDU that starts with a function code and two numbers. */
  predicate Starts(p: seq<byte>, function_: byte, first: nat, second: nat) {
    5 <= |p| && p[0] == function_ && Number(p, 1) == first && Number(p, 3) == second
  }

  /** Behind position i: a byte count, and that many bytes whose bits are the truth of the cells. */
  predicate HoldsCells(p: seq<byte>, i: nat, cells: seq<byte>) {
    && |p| == i + 1 + ByteCount(|cells|) && p[i] == ByteCount(|cells|)
    && forall k: nat :: k < 8 * ByteCount(|cells|) ==> (BitSet(p[i + 1..][k / 8], k % 8) <==> k < |cells| && cells[k] != 0)
  }

  /** Behind position i: a byte count, and the values, high byte first. */
  predicate HoldsValues(p: seq<byte>, i: nat, values: seq<word>) {
    && |p| == i + 1 + 2 * |values| && p[i] == 2 * |values|
    && forall k :: 0 <= k < |values| ==> Number(p, i + 1 + 2 * k) == values[k]
  }

  /** The request of every client call, byte by byte. */
  lemma RequestFormat(c: Call) returns (p: seq<byte>)
    requires WithinLimits(c)
    ensures p == RequestPdu(c)
    ensures match c
            case ReadBits(a, nb) => Starts(p, 1, a, nb) && |p| == 5
            case ReadInputBits(a, nb) => Starts(p, 2, a, nb) && |p| == 5
            case ReadRegisters(a, nb) => Starts(p, 3, a, nb) && |p| == 5
            case ReadInputRegisters(a, nb) => Starts(p, 4, a, nb) && |p| == 5
            case WriteBit(a, on) => Starts(p, 5, a, if on then 0xFF00 else 0) && |p| == 5
            case WriteRegister(a, v) => Starts(p, 6, a, v) && |p| == 5
            case WriteBits(a, cells) => Starts(p, 15, a, |cells|) && HoldsCells(p, 5, cells)
            case WriteRegisters(a, values) => Starts(p, 16, a, |values|) && HoldsValues(p, 5, values)
            case WriteAndRead(w, values, a, nb) =>
              Starts(p, 23, a, nb) && 9 <= |p| && Number(p, 5) == w && Number(p, 7) == |values| && HoldsValues(p, 9, values)
  {
    hide HoldsCells, HoldsValues, PackBits, RegisterBytes, Truth, ByteCount, RequestPdu;
    p := RequestCarries(c);
    assert Field(p, 1) == Number(p, 1) && Field(p, 3) == Number(p, 3);
    CarriedData(p, c);
    match c
    case WriteBits(_, cells) => CellsHeld(p, cells);
    case WriteRegisters(_, values) => ValuesHeld(p, 5, values);
    case WriteAndRead(_, values, _, _) =>
      assert Field(p, 5) == Number(p, 5) && Field(p, 7) == Number(p, 7);
      ValuesHeld(p, 9, values);
    case _ =>
  }

  lemma CellsHeld(p: seq<byte>, cells: seq<byte>)
    requires 6 <= |p| && |p| == 6 + p[5] as int && p[6..] == PackBits(Truth(cells))
    ensures HoldsCells(p, 5, cells)
  {
    hide PackBits, BitSet, ByteCount;
    forall k: nat | k < 8 * ByteCount(|cells|)
      ensures BitSet(p[6..][k / 8], k % 8) <==> k < |cells| && cells[k] != 0
    {
      PackBitsAt(Truth(cells), k);
    }
  }

  lemma ValuesHeld(p: seq<byte>, i: nat, values: seq<word>)
    requires i < |p| && |p| == i + 1 + p[i] as int && p[i + 1..] == RegisterBytes(values)
    ensures HoldsValues(p, i, values)
  {
    hide RegisterBytes, Hi, Lo;
    forall k | 0 <= k < |values|
      ensures Number(p, i + 1 + 2 * k) == values[k]
    {
      RegisterBytesAt(values, k);
      assert p[i + 1 + 2 * k] == p[i + 1..][2 * k] && p[i + 2 + 2 * k] == p[i + 1..][2 * k + 1];
      WordOfHalves(values[k]);
    }
  }
}
