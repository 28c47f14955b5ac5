/** modbus_reply on message buffers and table arrays, proved to be the interpreter of module Server. */
module ReplyLoop {
  import opened Bytes
  import opened BitTables
  import opened Errors
  import opened Backends
  import opened Receive
  import opened Memory
  import opened Server

  /** modbus_mapping_t: the four arrays. Their sizes are the array lengths. */
  class Mapping {
    const tabBits: array<byte>
    const tabInputBits: array<byte>
    const tabRegisters: array<word>
    const tabInputRegisters: array<word>

    ghost predicate Valid() { tabBits != tabInputBits && tabRegisters != tabInputRegisters }

    function State(): Tables
      reads tabBits, tabInputBits, tabRegisters, tabInputRegisters
    {
      Tables(tabBits[..], tabInputBits[..], tabRegisters[..], tabInputRegisters[..])
    }

    /** modbus_mapping_new: four tables of zeros. */
    constructor (nbBits: nat, nbInputBits: nat, nbRegisters: nat, nbInputRegisters: nat)
      ensures Valid() && WellFormed(State())
      ensures State() == Tables(seq(nbBits, _ => 0), seq(nbInputBits, _ => 0), seq(nbRegisters, _ => 0), seq(nbInputRegisters, _ => 0))
      ensures fresh(tabBits) && fresh(tabInputBits) && fresh(tabRegisters) && fresh(tabInputRegisters)
    {
      tabBits := new byte[nbBits](_ => 0);
      tabInputBits := new byte[nbInputBits](_ => 0);
      tabRegisters := new word[nbRegisters](_ => 0);
      tabInputRegisters := new word[nbInputRegisters](_ => 0);
    }
  }

  /** sft_t: what a response header needs to know. */
  datatype Sft = Sft(slave: byte, function_: byte, tid: word)

  /** The header fields of an unsealed message; its MBAP length may still be anything. */
  predicate HasHead(b: Backend, body: seq<byte>, tid: word, proto: seq<byte>, slave: byte) {
    && b.HeaderLength() <= |body|
    && |proto| == 2
    && if b.RTU? then body[0] == slave
       else body[0] == Hi(tid) && body[1] == Lo(tid) && body[2] == proto[0] && body[3] == proto[1] && body[6] == slave
  }

  lemma SealHead(b: Backend, body: seq<byte>, tid: word, proto: seq<byte>, slave: byte)
    requires HasHead(b, body, tid, proto, slave)
    ensures Seal(b, body) == Frame(b, tid, proto, slave, body[b.HeaderLength()..])
  {
    var h := b.HeaderLength();
    hide Hi, Lo;
    if b.RTU? {
      assert body == Head(b, tid, proto, slave) + body[h..];
    } else {
      var other := Head(b, tid, proto, slave) + body[h..];
      assert |other| == |body|;
      assert forall i :: 0 <= i < |body| && i != 4 && i != 5 ==> other[i] == body[i];
      assert Seal(b, other) == Seal(b, body);
    }
  }

  /** The response buffer holds a message for sft with the given PDU. */
  ghost predicate Holds(b: Backend, rsp: array<byte>, length: nat, sft: Sft, pdu: seq<byte>)
    reads rsp
  {
    && b.HeaderLength() <= length <= rsp.Length - b.ChecksumLength()
    && HasHead(b, rsp[..length], sft.tid, [0, 0], sft.slave)
    && rsp[b.HeaderLength()..length] == pdu
  }

  method BuildResponseBasis(b: Backend, sft: Sft, function_: byte, rsp: array<byte>) returns (length: nat)
    requires rsp.Length == MAX_MESSAGE_LENGTH
    modifies rsp
    ensures length == b.HeaderLength() + 1
    ensures Holds(b, rsp, length, sft, [function_])
  {
    if b.RTU? {
      rsp[0] := sft.slave;
      rsp[1] := function_;
    } else {
      rsp[0] := Hi(sft.tid);
      rsp[1] := Lo(sft.tid);
      // The protocol field is zero.
      rsp[2] := 0;
      rsp[3] := 0;
      // Bytes 4 and 5 are left to SendMsgPre.
      rsp[6] := sft.slave;
      rsp[7] := function_;
    }
    length := b.HeaderLength() + 1;
  }

  /** Appending to a held message. */
  lemma HoldsMore(b: Backend, before: seq<byte>, rsp: array<byte>, length: nat, more: seq<byte>, sft: Sft, pdu: seq<byte>)
    requires b.HeaderLength() <= |before| && HasHead(b, before, sft.tid, [0, 0], sft.slave)
    requires before[b.HeaderLength()..] == pdu
    requires length <= rsp.Length - b.ChecksumLength() && rsp[..length] == before + more
    ensures Holds(b, rsp, length, sft, pdu + more)
  {
    hide Hi, Lo;
    var h := b.HeaderLength();
    assert rsp[h..length] == rsp[..length][h..];
  }

  method ResponseException(b: Backend, sft: Sft, code: byte, rsp: array<byte>) returns (length: nat)
    requires rsp.Length == MAX_MESSAGE_LENGTH
    modifies rsp
    ensures Holds(b, rsp, length, sft, Exception(sft.function_, code).pdu)
  {
    length := BuildResponseBasis(b, sft, Low8(sft.function_ + 0x80), rsp);
    ghost var before := rsp[..length];
    rsp[length] := code;
    length := length + 1;
    HoldsMore(b, before, rsp, length, [code], sft, [Low8(sft.function_ + 0x80)]);
  }

  /** Appends the registers address .. address + nb, high byte first. */
  method AppendRegisters(tab: array<word>, address: nat, nb: nat, rsp: array<byte>, start: nat) returns (length: nat)
    requires address + nb <= tab.Length && start + 2 * nb <= rsp.Length
    modifies rsp
    ensures length == start + 2 * nb
    ensures rsp[..length] == old(rsp[..start]) + RegisterBytes(tab[address..address + nb])
  {
    hide Hi, Lo, RegisterBytes;
    length := start;
    assert RegisterBytes([]) == [];
    for i := address to address + nb
      invariant length == start + 2 * (i - address)
      invariant rsp[..length] == old(rsp[..start]) + RegisterBytes(tab[address..i])
    {
      ghost var before := rsp[..length];
      rsp[length] := Hi(tab[i]);
      length := length + 1;
      rsp[length] := Lo(tab[i]);
      length := length + 1;
      RegisterBytesSnoc(tab[address..i], tab[i]);
      assert tab[address..i + 1] == tab[address..i] + [tab[i]];
      assert rsp[..length] == before + [Hi(tab[i]), Lo(tab[i])];
    }
  }

  /** Stores registers address .. address + nb from a message; the other registers stay. */
  method StoreRegisters(tab: array<word>, address: nat, nb: nat, req: array<byte>, first: nat)
    requires address + nb <= tab.Length && first + 2 * nb <= req.Length
    modifies tab
    ensures tab[..] == Overwrite(old(tab[..]), address, BytesRegisters(req[first..first + 2 * nb], nb))
  {
    hide Word;
    ghost var bs := req[first..first + 2 * nb];
    var j := first;
    for i := address to address + nb
      invariant j == first + 2 * (i - address)
      invariant forall k :: address <= k < i ==> tab[k] == BytesRegisters(bs, nb)[k - address]
      invariant forall k :: 0 <= k < tab.Length && !(address <= k < i) ==> tab[k] == old(tab[k])
    {
      assert req[j] == bs[2 * (i - address)] && req[j + 1] == bs[2 * (i - address) + 1];
      tab[i] := Word(req[j], req[j + 1]);
      j := j + 2;
    }
  }

  /** The two bit reads. They leave off where the reply, checksum included, would not fit its buffer. */
  method ReplyBits(b: Backend, sft: Sft, tab: array<byte>, address: nat, nb: nat, rsp: array<byte>)
    returns (length: nat, inside: bool)
    requires rsp.Length == MAX_MESSAGE_LENGTH && tab != rsp
    modifies rsp
    ensures inside <==> address + nb > tab.Length || DataFits(b, ByteCount(nb))
    ensures inside ==> Holds(b, rsp, length, sft,
              (if address + nb > tab.Length then Exception(sft.function_, ILLEGAL_DATA_ADDRESS)
               else BitsReply(sft.function_, tab[address..address + nb])).pdu)
  {
    hide PackBits, HasHead, ByteCount;
    inside := true;
    if address + nb > tab.Length {
      length := ResponseException(b, sft, ILLEGAL_DATA_ADDRESS, rsp);
    } else {
      ghost var cells := tab[address..address + nb];
      length := BuildResponseBasis(b, sft, sft.function_, rsp);
      ghost var before := rsp[..length];
      rsp[length] := Low8(ByteCount(nb));
      length := length + 1;
      assert rsp[..length] == before + [Low8(ByteCount(nb))];
      if length + ByteCount(nb) + b.ChecksumLength() > rsp.Length {
        return length, false;
      }
      length := ResponseIoStatus(address, nb, tab, rsp, length);
      var count := Low8(ByteCount(nb));
      assert rsp[..length] == before + ([count] + PackBits(cells));
      HoldsMore(b, before, rsp, length, [count] + PackBits(cells), sft, [sft.function_]);
      assert [sft.function_] + ([count] + PackBits(cells)) == BitsReply(sft.function_, cells).pdu;
    }
  }

  /** The two register reads, and the reading half of write-and-read; they leave off likewise. */
  method ReplyRegisters(b: Backend, sft: Sft, tab: array<word>, address: nat, nb: nat, rsp: array<byte>)
    returns (length: nat, inside: bool)
    requires rsp.Length == MAX_MESSAGE_LENGTH
    modifies rsp
    ensures inside <==> address + nb > tab.Length || DataFits(b, 2 * nb)
    ensures inside ==> Holds(b, rsp, length, sft,
              (if address + nb > tab.Length then Exception(sft.function_, ILLEGAL_DATA_ADDRESS)
               else RegistersReply(sft.function_, tab[address..address + nb])).pdu)
  {
    hide RegisterBytes, HasHead;
    inside := true;
    if address + nb > tab.Length {
      length := ResponseException(b, sft, ILLEGAL_DATA_ADDRESS, rsp);
    } else {
      ghost var values := tab[address..address + nb];
      length := BuildResponseBasis(b, sft, sft.function_, rsp);
      ghost var before := rsp[..length];
      rsp[length] := Low8(2 * nb);
      length := length + 1;
      assert rsp[..length] == before + [Low8(2 * nb)];
      if length + 2 * nb + b.ChecksumLength() > rsp.Length {
        return length, false;
      }
      length := AppendRegisters(tab, address, nb, rsp, length);
      assert rsp[..length] == before + ([Low8(2 * nb)] + RegisterBytes(values));
      HoldsMore(b, before, rsp, length, [Low8(2 * nb)] + RegisterBytes(values), sft, [sft.function_]);
      assert [sft.function_] + ([Low8(2 * nb)] + RegisterBytes(values)) == RegistersReply(sft.function_, values).pdu;
    }
  }

  /** The reply to a multiple write: address and quantity copied from the request. */
  method ReplyWritten(b: Backend, sft: Sft, req: array<byte>, rsp: array<byte>) returns (length: nat)
    requires b.HeaderLength() + 5 <= req.Length && rsp.Length == MAX_MESSAGE_LENGTH && req != rsp
    requires req[b.HeaderLength()] == sft.function_
    modifies rsp
    ensures Holds(b, rsp, length, sft, req[b.HeaderLength()..b.HeaderLength() + 5])
  {
    hide HasHead;
    var h := b.HeaderLength();
    length := BuildResponseBasis(b, sft, sft.function_, rsp);
    ghost var before := rsp[..length];
    for i := 0 to 4
      invariant rsp[..length + i] == before + req[length..length + i]
    {
      ghost var now := rsp[..length + i];
      rsp[length + i] := req[length + i];
      assert rsp[..length + i + 1] == now + [req[length + i]];
    }
    length := length + 4;
    HoldsMore(b, before, rsp, length, req[h + 1..h + 5], sft, [sft.function_]);
    assert [sft.function_] + req[h + 1..h + 5] == req[h..h + 5];
  }

  method ReplySlaveId(b: Backend, sft: Sft, rsp: array<byte>) returns (length: nat)
    requires rsp.Length == MAX_MESSAGE_LENGTH
    modifies rsp
    ensures Holds(b, rsp, length, sft, [sft.function_, |SLAVE_ID|] + SLAVE_ID)
  {
    hide HasHead;
    length := BuildResponseBasis(b, sft, sft.function_, rsp);
    ghost var before := rsp[..length];
    // The byte count is known only at the end.
    var byteCountPos := length;
    length := length + 1;
    for i := 0 to |SLAVE_ID|
      invariant length == byteCountPos + 1 + i
      invariant rsp[..byteCountPos] == before
      invariant rsp[byteCountPos + 1..length] == SLAVE_ID[..i]
    {
      rsp[length] := SLAVE_ID[i];
      length := length + 1;
    }
    rsp[byteCountPos] := length - byteCountPos - 1;
    assert rsp[..length] == before + ([|SLAVE_ID|] + SLAVE_ID);
    HoldsMore(b, before, rsp, length, [|SLAVE_ID|] + SLAVE_ID, sft, [sft.function_]);
    assert [sft.function_] + ([|SLAVE_ID|] + SLAVE_ID) == [sft.function_, |SLAVE_ID|] + SLAVE_ID;
  }

  // ---------- The switch on the function code ----------

  /** The buffers of one call of modbus_reply: a request with PDU p, tables t, and a response buffer. */
  ghost predicate Replying(b: Backend, req: array<byte>, reqLength: nat, m: Mapping, rsp: array<byte>, sft: Sft, p: seq<byte>, t: Tables)
    reads req, m.tabBits, m.tabInputBits, m.tabRegisters, m.tabInputRegisters
  {
    && IsRequest(b, req, reqLength, t)
    && p == PduOf(b, req[..reqLength])
    && t == m.State()
    && sft.function_ == p[0]
    && m.Valid()
    && rsp.Length == MAX_MESSAGE_LENGTH
    && rsp != req && rsp != m.tabBits && rsp != m.tabInputBits
    && req != m.tabBits && req != m.tabInputBits
  }

  /** A message in req[..reqLength] that the server can be given. */
  ghost predicate IsRequest(b: Backend, req: array<byte>, reqLength: nat, t: Tables)
    reads req
  {
    && reqLength <= req.Length
    && b.HeaderLength() + b.ChecksumLength() <= reqLength <= b.MaxAduLength()
    && Readable(PduOf(b, req[..reqLength]), t)
  }

  lemma FieldAt(b: Backend, req: array<byte>, reqLength: nat, i: nat)
    requires b.HeaderLength() + b.ChecksumLength() <= reqLength <= req.Length
    requires i + 1 < |PduOf(b, req[..reqLength])|
    ensures Field(PduOf(b, req[..reqLength]), i) == Word(req[b.HeaderLength() + i], req[b.HeaderLength() + i + 1])
  {
    hide Word;
  }

  lemma FirstAt(b: Backend, req: array<byte>, reqLength: nat)
    requires b.HeaderLength() + b.ChecksumLength() < reqLength <= req.Length
    ensures PduOf(b, req[..reqLength])[0] == req[b.HeaderLength()]
  {
  }

  lemma PartAt(b: Backend, req: array<byte>, reqLength: nat, lo: nat, hi: nat)
    requires b.HeaderLength() + b.ChecksumLength() <= reqLength <= req.Length
    requires lo <= hi <= |PduOf(b, req[..reqLength])|
    ensures PduOf(b, req[..reqLength])[lo..hi] == req[b.HeaderLength() + lo..b.HeaderLength() + hi]
  {
    var p, part := PduOf(b, req[..reqLength]), req[b.HeaderLength() + lo..b.HeaderLength() + hi];
    assert forall i :: 0 <= i < hi - lo ==> p[lo..hi][i] == part[i];
  }

  method ReplyRead(b: Backend, req: array<byte>, reqLength: nat, m: Mapping, rsp: array<byte>, sft: Sft, ghost p: seq<byte>, ghost t: Tables)
    returns (length: nat, inside: bool)
    requires Replying(b, req, reqLength, m, rsp, sft, p, t)
    requires FC_READ_COILS <= sft.function_ <= FC_READ_INPUT_REGISTERS
    modifies rsp
    ensures inside <==> Servable(b, p, t)
    ensures Serve(p, t).0.Reply? && Serve(p, t).1 == t
    ensures inside ==> Holds(b, rsp, length, sft, Serve(p, t).0.pdu)
  {
    hide Holds, BitsReply, RegistersReply, Word;
    FieldAt(b, req, reqLength, 1);
    FieldAt(b, req, reqLength, 3);
    var offset := b.HeaderLength();
    var address: nat := Word(req[offset + 1], req[offset + 2]);
    var nb: nat := Word(req[offset + 3], req[offset + 4]);
    if sft.function_ == FC_READ_COILS {
      length, inside := ReplyBits(b, sft, m.tabBits, address, nb, rsp);
    } else if sft.function_ == FC_READ_DISCRETE_INPUTS {
      length, inside := ReplyBits(b, sft, m.tabInputBits, address, nb, rsp);
    } else if sft.function_ == FC_READ_HOLDING_REGISTERS {
      length, inside := ReplyRegisters(b, sft, m.tabRegisters, address, nb, rsp);
    } else {
      length, inside := ReplyRegisters(b, sft, m.tabInputRegisters, address, nb, rsp);
    }
  }

  // ---------- The writing cases of the interpreter ----------

  lemma ServeCoils(p: seq<byte>, t: Tables)
    requires Readable(p, t) && p[0] == FC_WRITE_MULTIPLE_COILS
    ensures var a, nb := Field(p, 1), Field(p, 3);
            Serve(p, t) ==
              if a + nb > |t.bits| then (Exception(p[0], ILLEGAL_DATA_ADDRESS), t)
              else (Reply(p[..5]), t.(bits := Overwrite(t.bits, a, UnpackBits(p[6..6 + ByteCount(nb)], nb))))
  {
    hide Field, Overwrite, UnpackBits, ByteCount, Exception;
  }

  lemma ServeRegisters(p: seq<byte>, t: Tables)
    requires Readable(p, t) && p[0] == FC_WRITE_MULTIPLE_REGISTERS
    ensures var a, nb := Field(p, 1), Field(p, 3);
            Serve(p, t) ==
              if a + nb > |t.registers| then (Exception(p[0], ILLEGAL_DATA_ADDRESS), t)
              else (Reply(p[..5]), t.(registers := Overwrite(t.registers, a, BytesRegisters(p[6..], nb))))
  {
    hide Field, Overwrite, BytesRegisters, Exception;
  }

  lemma ServeWriteAndRead(p: seq<byte>, t: Tables)
    requires Readable(p, t) && p[0] == FC_WRITE_AND_READ_REGISTERS
    ensures var a, nb, w, nbWrite := Field(p, 1), Field(p, 3), Field(p, 5), Field(p, 7);
            Serve(p, t) ==
              if a + nb > |t.registers| || w + nbWrite > |t.registers| then (Exception(p[0], ILLEGAL_DATA_ADDRESS), t)
              else
                var written := Overwrite(t.registers, w, BytesRegisters(p[10..], nbWrite));
                (RegistersReply(p[0], written[a..a + nb]), t.(registers := written))
  {
    hide Field, Overwrite, BytesRegisters, Exception, RegistersReply;
  }

  method ReplyWriteCoils(b: Backend, req: array<byte>, reqLength: nat, m: Mapping, rsp: array<byte>, sft: Sft, ghost p: seq<byte>, ghost t: Tables)
    returns (length: nat)
    requires Replying(b, req, reqLength, m, rsp, sft, p, t)
    requires sft.function_ == FC_WRITE_MULTIPLE_COILS
    modifies rsp, m.tabBits
    ensures Serve(p, t).0.Reply? && m.State() == Serve(p, t).1
    ensures Holds(b, rsp, length, sft, Serve(p, t).0.pdu)
  {
    hide Holds, UnpackBits, Word, Overwrite, Serve, Field, ByteCount, Exception;
    ServeCoils(p, t);
    FieldAt(b, req, reqLength, 1);
    FieldAt(b, req, reqLength, 3);
    var offset := b.HeaderLength();
    var address: nat := Word(req[offset + 1], req[offset + 2]);
    var nb: nat := Word(req[offset + 3], req[offset + 4]);
    if address + nb > m.tabBits.Length {
      length := ResponseException(b, sft, ILLEGAL_DATA_ADDRESS, rsp);
    } else {
      PartAt(b, req, reqLength, 6, 6 + ByteCount(nb));
      PartAt(b, req, reqLength, 0, 5);
      FirstAt(b, req, reqLength);
      // The data begin behind function, address, quantity and byte count.
      SetBitsFromBytes(m.tabBits, address, nb, req, offset + 6);
      OverwriteIs(t.bits, address, UnpackBits(p[6..6 + ByteCount(nb)], nb));
      length := ReplyWritten(b, sft, req, rsp);
    }
  }

  method ReplyWriteRegisters(b: Backend, req: array<byte>, reqLength: nat, m: Mapping, rsp: array<byte>, sft: Sft, ghost p: seq<byte>, ghost t: Tables)
    returns (length: nat)
    requires Replying(b, req, reqLength, m, rsp, sft, p, t)
    requires sft.function_ == FC_WRITE_MULTIPLE_REGISTERS
    modifies rsp, m.tabRegisters
    ensures Serve(p, t).0.Reply? && m.State() == Serve(p, t).1
    ensures Holds(b, rsp, length, sft, Serve(p, t).0.pdu)
  {
    hide Holds, BytesRegisters, Word, Overwrite, Serve, Field, Exception;
    ServeRegisters(p, t);
    FieldAt(b, req, reqLength, 1);
    FieldAt(b, req, reqLength, 3);
    var offset := b.HeaderLength();
    var address: nat := Word(req[offset + 1], req[offset + 2]);
    var nb: nat := Word(req[offset + 3], req[offset + 4]);
    if address + nb > m.tabRegisters.Length {
      length := ResponseException(b, sft, ILLEGAL_DATA_ADDRESS, rsp);
    } else {
      PartAt(b, req, reqLength, 6, 6 + 2 * nb);
      PartAt(b, req, reqLength, 0, 5);
      FirstAt(b, req, reqLength);
      // The data begin behind function, address, quantity and byte count.
      SameRegisters(p[6..], p[6..6 + 2 * nb], nb);
      StoreRegisters(m.tabRegisters, address, nb, req, offset + 6);
      length := ReplyWritten(b, sft, req, rsp);
    }
  }

  method ReplyWriteAndRead(b: Backend, req: array<byte>, reqLength: nat, m: Mapping, rsp: array<byte>, sft: Sft, ghost p: seq<byte>, ghost t: Tables)
    returns (length: nat, inside: bool)
    requires Replying(b, req, reqLength, m, rsp, sft, p, t)
    requires sft.function_ == FC_WRITE_AND_READ_REGISTERS
    modifies rsp, m.tabRegisters
    ensures inside <==> Servable(b, p, t)
    ensures Serve(p, t).0.Reply? && m.State() == Serve(p, t).1
    ensures inside ==> Holds(b, rsp, length, sft, Serve(p, t).0.pdu)
  {
    hide Holds, BytesRegisters, Word, Overwrite, RegistersReply, Serve, Field, Exception;
    ServeWriteAndRead(p, t);
    FieldAt(b, req, reqLength, 1);
    FieldAt(b, req, reqLength, 3);
    FieldAt(b, req, reqLength, 5);
    FieldAt(b, req, reqLength, 7);
    var offset := b.HeaderLength();
    var address: nat := Word(req[offset + 1], req[offset + 2]);
    var nb: nat := Word(req[offset + 3], req[offset + 4]);
    var addressWrite: nat := Word(req[offset + 5], req[offset + 6]);
    var nbWrite: nat := Word(req[offset + 7], req[offset + 8]);
    inside := true;
    if address + nb > m.tabRegisters.Length || addressWrite + nbWrite > m.tabRegisters.Length {
      length := ResponseException(b, sft, ILLEGAL_DATA_ADDRESS, rsp);
    } else {
      PartAt(b, req, reqLength, 10, 10 + 2 * nbWrite);
      // The table is written before anything of it is read.
      SameRegisters(p[10..], p[10..10 + 2 * nbWrite], nbWrite);
      StoreRegisters(m.tabRegisters, addressWrite, nbWrite, req, offset + 10);
      ghost var written := m.tabRegisters[..];
      assert written == Overwrite(t.registers, addressWrite, BytesRegisters(p[10..], nbWrite));
      length, inside := ReplyRegisters(b, sft, m.tabRegisters, address, nb, rsp);
      assert m.tabRegisters[address..address + nb] == written[address..address + nb];
    }
  }

  lemma OverwriteIs<T>(s: seq<T>, a: nat, v: seq<T>)
    requires a + |v| <= |s|
    ensures Overwrite(s, a, v) == s[..a] + v + s[a + |v|..]
  {
  }

  lemma SameRegisters(long: seq<byte>, short: seq<byte>, nb: nat)
    requires |short| == 2 * nb && short <= long
    ensures BytesRegisters(long, nb) == BytesRegisters(short, nb)
  {
    hide Word;
    assert forall i :: 0 <= i < nb ==> short[2 * i] == long[2 * i] && short[2 * i + 1] == long[2 * i + 1];
  }

  /** The two single writes. The second result says that the response buffer holds the request itself. */
  method ReplyWriteOne(b: Backend, req: array<byte>, reqLength: nat, m: Mapping, rsp: array<byte>, sft: Sft, ghost p: seq<byte>, ghost t: Tables)
    returns (length: nat, echo: bool)
    requires Replying(b, req, reqLength, m, rsp, sft, p, t)
    requires sft.function_ == FC_WRITE_SINGLE_COIL || sft.function_ == FC_WRITE_SINGLE_REGISTER
    modifies rsp, m.tabBits, m.tabRegisters
    ensures !Serve(p, t).0.Silent? && m.State() == Serve(p, t).1
    ensures echo <==> Serve(p, t).0.Echo?
    ensures echo ==> length == reqLength - b.ChecksumLength() && rsp[..length] == old(req[..length])
    ensures !echo ==> Holds(b, rsp, length, sft, Serve(p, t).0.pdu)
  {
    hide Holds, Word;
    FieldAt(b, req, reqLength, 1);
    FieldAt(b, req, reqLength, 3);
    var offset := b.HeaderLength();
    var address: nat := Word(req[offset + 1], req[offset + 2]);
    var data := Word(req[offset + 3], req[offset + 4]);
    echo := false;
    if sft.function_ == FC_WRITE_SINGLE_COIL {
      if address >= m.tabBits.Length {
        length := ResponseException(b, sft, ILLEGAL_DATA_ADDRESS, rsp);
        return;
      }
      if data != 0xFF00 && data != 0 {
        length := ResponseException(b, sft, ILLEGAL_DATA_VALUE, rsp);
        return;
      }
      m.tabBits[address] := if data != 0 then 1 else 0;
    } else {
      if address >= m.tabRegisters.Length {
        length := ResponseException(b, sft, ILLEGAL_DATA_ADDRESS, rsp);
        return;
      }
      m.tabRegisters[address] := data;
    }
    echo := true;
    length := reqLength - b.ChecksumLength();
    CopyMessage(req, length, rsp);
  }

  /** memcpy of a message to the front of another buffer. */
  method CopyMessage(src: array<byte>, length: nat, dest: array<byte>)
    requires length <= src.Length && length <= dest.Length && src != dest
    modifies dest
    ensures dest[..length] == src[..length]
  {
    for i := 0 to length
      invariant forall k :: 0 <= k < i ==> dest[k] == src[k]
    {
      dest[i] := src[i];
    }
  }

  /** The response buffer is ready to be sealed into the frame for answer a. */
  ghost predicate Ready(b: Backend, f: seq<byte>, rsp: array<byte>, length: nat, sft: Sft, a: Answer)
    requires b.HeaderLength() + b.ChecksumLength() <= |f|
    reads rsp
  {
    && !a.Silent?
    && b.HeaderLength() <= length && length + b.ChecksumLength() <= rsp.Length
    && (a.Reply? ==> Holds(b, rsp, length, sft, a.pdu))
    && (a.Echo? ==> length == |f| - b.ChecksumLength() && rsp[..length] == f[..length])
  }

  /** The switch: one case per function code. */
  method Dispatch(b: Backend, req: array<byte>, reqLength: nat, m: Mapping, rsp: array<byte>, sft: Sft, ghost p: seq<byte>, ghost t: Tables)
    returns (length: nat, inside: bool)
    requires Replying(b, req, reqLength, m, rsp, sft, p, t)
    requires sft.function_ != FC_READ_EXCEPTION_STATUS
    modifies rsp, m.tabBits, m.tabRegisters
    ensures inside <==> Servable(b, p, t)
    ensures m.State() == Serve(p, t).1
    ensures inside ==> Ready(b, old(req[..reqLength]), rsp, length, sft, Serve(p, t).0)
  {
    hide Serve, Exception, Field, HasHead, RangeInside, DataFits;
    inside := true;
    var function_ := sft.function_;
    var echo := false;
    ServeOther(p, t);
    if FC_READ_COILS <= function_ <= FC_READ_INPUT_REGISTERS {
      length, inside := ReplyRead(b, req, reqLength, m, rsp, sft, p, t);
    } else if function_ == FC_WRITE_SINGLE_COIL || function_ == FC_WRITE_SINGLE_REGISTER {
      length, echo := ReplyWriteOne(b, req, reqLength, m, rsp, sft, p, t);
    } else if function_ == FC_WRITE_MULTIPLE_COILS {
      length := ReplyWriteCoils(b, req, reqLength, m, rsp, sft, p, t);
    } else if function_ == FC_WRITE_MULTIPLE_REGISTERS {
      length := ReplyWriteRegisters(b, req, reqLength, m, rsp, sft, p, t);
    } else if function_ == FC_REPORT_SLAVE_ID {
      length := ReplySlaveId(b, sft, rsp);
    } else if function_ == FC_WRITE_AND_READ_REGISTERS {
      length, inside := ReplyWriteAndRead(b, req, reqLength, m, rsp, sft, p, t);
    } else {
      length := ResponseException(b, sft, ILLEGAL_FUNCTION, rsp);
    }
  }

  /**
   * modbus_reply, for a request in a buffer of any size. It stays inside its own reply buffer if and only
   * if the request is servable; and then the tables change, and a frame is sent, exactly as the interpreter
   * says. The only request that is not answered at all is read-exception-status.
   */
  method ModbusReply(b: Backend, req: array<byte>, reqLength: nat, m: Mapping)
    returns (rc: int, sent: seq<byte>, inside: bool)
    requires IsRequest(b, req, reqLength, m.State()) && m.Valid()
    requires req != m.tabBits && req != m.tabInputBits
    modifies m.tabBits, m.tabRegisters
    ensures inside <==> Servable(b, PduOf(b, old(req[..reqLength])), old(m.State()))
    ensures inside ==> m.State() == Serve(PduOf(b, old(req[..reqLength])), old(m.State())).1
    ensures inside ==>
              var a := Serve(PduOf(b, old(req[..reqLength])), old(m.State())).0;
              if a.Silent? then rc == -1 && sent == []
              else rc == |sent| && sent == ReplyFrame(b, old(req[..reqLength]), a)
  {
    hide Word, Serve, Field, RangeInside, DataFits;
    ghost var f := req[..reqLength];
    ghost var p := PduOf(b, f);
    ghost var t := m.State();
    var offset := b.HeaderLength();
    FirstAt(b, req, reqLength);
    var sft := Sft(req[offset - 1], req[offset], if b.RTU? then 0 else Word(req[0], req[1]));
    assert sft.slave == SlaveOf(b, f) && sft.tid == TidOf(b, f);
    if sft.function_ == FC_READ_EXCEPTION_STATUS {
      ServeOther(p, t);
      return -1, [], true;
    }
    var rsp := new byte[MAX_MESSAGE_LENGTH];
    var length;
    length, inside := Dispatch(b, req, reqLength, m, rsp, sft, p, t);
    if !inside {
      return -1, [], false;
    }
    SealReply(b, f, rsp, length, sft, Serve(p, t).0);
    hide Ready, Replying;
    length := SendMsgPre(b, rsp, length);
    rc, sent := length, rsp[..length];
  }

  /** The functions that do not touch the tables. */
  lemma ServeOther(p: seq<byte>, t: Tables)
    requires Readable(p, t)
    ensures p[0] == FC_REPORT_SLAVE_ID ==> Serve(p, t) == (Reply([p[0], |SLAVE_ID|] + SLAVE_ID), t)
    ensures p[0] == FC_READ_EXCEPTION_STATUS ==> Serve(p, t) == (Silent, t)
    ensures !Addresses(p[0]) && p[0] != FC_REPORT_SLAVE_ID && p[0] != FC_READ_EXCEPTION_STATUS ==>
              Serve(p, t) == (Exception(p[0], ILLEGAL_FUNCTION), t)
  {
  }

  /** Sealing what the response buffer holds gives the reply frame. */
  lemma SealReply(b: Backend, f: seq<byte>, rsp: array<byte>, length: nat, sft: Sft, a: Answer)
    requires b.HeaderLength() + b.ChecksumLength() <= |f|
    requires sft.slave == SlaveOf(b, f) && sft.tid == TidOf(b, f)
    requires Ready(b, f, rsp, length, sft, a)
    ensures b.HeaderLength() <= length && length + b.ChecksumLength() <= rsp.Length
    ensures Seal(b, rsp[..length]) == ReplyFrame(b, f, a)
  {
    hide Frame, Seal;
    var body := rsp[..length];
    var h := b.HeaderLength();
    if a.Reply? {
      assert body[h..] == rsp[h..length];
      SealHead(b, body, sft.tid, [0, 0], sft.slave);
    } else {
      assert body[h..] == PduOf(b, f);
      if b.TCP? {
        HalvesOfWord(f[0], f[1]);
        assert f[2..4] == [f[2], f[3]];
      }
      SealHead(b, body, sft.tid, ProtoOf(b, f), sft.slave);
    }
  }
}
