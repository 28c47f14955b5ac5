/** What receivers do with frames whose bits have been flipped on a serial line. */
module Corruption {
  import opened Bytes
  import opened BitTables
  import opened Crc16
  import opened Errors
  import opened Backends
  import opened CrcErrors
  import opened Receive
  import opened Memory
  import opened Server
  import opened Protocol
  import opened Refinement
  import opened Lengths
  import opened RequestMeaning
  import opened SharedBus

  /** The frames this library sends carry a matching checksum. */
  lemma SentMatches(slave: byte, pdu: seq<byte>)
    ensures CrcMatches(BusFrame(slave, pdu))
  {
    hide CrcBytes;
    var f, body := BusFrame(slave, pdu), [slave] + pdu;
    assert f == body + CrcBytes(body);
    assert f[..|f| - 2] == body && f[|f| - 2..] == CrcBytes(body);
  }

  /** A detectable error leaves a mark in the register over the frame. */
  lemma ErrorLeavesMark(frame: seq<byte>, e: seq<byte>)
    requires 3 <= |frame| == |e| && CrcMatches(frame) && Detectable(e)
    ensures Register(Corrupt(frame, e)) != 0
  {
    hide CrcMatches, Bits, Serial, Burst, Count, Corrupt, Register;
    if Burst(Bits(e), 16) {
      BurstDetected(0, frame, e);
    } else {
      OddErrorsDetected(0, frame, e);
    }
  }

  // ---------- A slave ----------

  /**
   * One call of a slave for a request, on anything the length tables take for a whole frame: a frame with
   * another address raises the flag, whatever its checksum; one for `me`, or a broadcast, is returned or
   * gives -1, as the register over it is clear or not, and leaves the flag down.
   */
  lemma HeardExactly(me: byte, f: seq<byte>, rest: seq<byte>, later: seq<seq<byte>>)
    requires 4 <= |f| && Parse(RTU, Indication, f) == Complete(|f|)
    ensures Hear(me, false, Traffic(f + rest, later)) ==
            if f[0] != me && f[0] != 0 then Heard(NOTHING, true, Traffic(rest, later))
            else Heard(if Register(f) == 0 then Got(|f|, f) else Got(-1, []), false, Traffic(rest, later))
  {
    FrameDelivered(RTU, Indication, f, rest, later);
    IntegrityExactly(me, f);
    hide Parse, Delivered, Remaining, CheckIntegrity, Register;
  }

  lemma HeardRequest(me: byte, pdu: seq<byte>, rest: seq<byte>, later: seq<seq<byte>>)
    requires SelfDelimiting(Indication, pdu) && |pdu| <= MAX_PDU_LENGTH && me != 0
    ensures var f := BusFrame(me, pdu); Hear(me, false, Traffic(f + rest, later)) == Heard(Got(|f|, f), false, Traffic(rest, later))
  {
    HearRequest(me, Transaction(me, pdu, [], false, false), rest, later);
    hide Hear, BusFrame, SelfDelimiting;
  }

  /**
   * A request to `me` arrives with a detectable error, still as long as its tables say, and the master sends
   * it again. If the address is intact or has become that of a broadcast, one call returns -1, and the next
   * one the request, after a pause or not. If it has become another slave's address, the flag goes up; with
   * a pause before the retransmission, it comes down again and the third call returns the request.
   */
  lemma RetransmissionHeard(me: byte, pdu: seq<byte>, e: seq<byte>, pause: bool, rest: Traffic)
    requires me != 0 && SelfDelimiting(Indication, pdu) && |pdu| <= MAX_PDU_LENGTH
    requires |e| == |BusFrame(me, pdu)| && Detectable(e)
    requires Parse(RTU, Indication, Corrupt(BusFrame(me, pdu), e)) == Complete(|e|)
    ensures var f := BusFrame(me, pdu);
            var bad := Corrupt(f, e);
            var line := Before(bad, pause, Before(f, false, rest));
            if bad[0] == me || bad[0] == 0 then HearAll(me, 2, false, line) == ([Got(-1, []), Got(|f|, f)], false, rest)
            else pause ==> HearAll(me, 3, false, line) == ([NOTHING, NOTHING, Got(|f|, f)], false, rest)
  {
    hide Hear, BusFrame, SelfDelimiting, Parse, Detectable, Register, Corrupt, CrcMatches;
    var f := BusFrame(me, pdu);
    var bad := Corrupt(f, e);
    var again := Before(f, false, rest);
    var behind := Before([], pause, again);
    SentMatches(me, pdu);
    ErrorLeavesMark(f, e);
    HeardExactly(me, bad, behind.now, behind.later);
    BeforeSplits(bad, [], pause, again);
    assert bad + [] == bad;
    HeardRequest(me, pdu, rest.now, rest.later);
    assert Hear(me, false, again) == Heard(Got(|f|, f), false, rest);
    if bad[0] == me || bad[0] == 0 {
      SecondCall(me, behind, again, f, rest, pause);
      TwoCalls(me, Before(bad, pause, again), behind, Got(-1, []), false, Got(|f|, f), rest);
    } else if pause {
      HearNothing(me, again);
      ThreeCalls(me, Before(bad, pause, again), behind, again, Got(|f|, f), rest);
    }
  }

  /** A pause before a request makes no difference. */
  lemma SecondCall(me: byte, behind: Traffic, again: Traffic, f: seq<byte>, rest: Traffic, pause: bool)
    requires behind == Before([], pause, again) && again.now != []
    ensures Hear(me, false, behind) == Hear(me, false, again)
  {
    hide Parse, CheckIntegrity;
    if pause {
      assert Awaken(behind) == Awaken(again);
    } else {
      assert [] + again.now == again.now;
    }
  }

  lemma TwoCalls(me: byte, line: Traffic, mid: Traffic, first: Got, flag: bool, second: Got, rest: Traffic)
    requires Hear(me, false, line) == Heard(first, flag, mid)
    requires Hear(me, flag, mid) == Heard(second, false, rest)
    ensures HearAll(me, 2, false, line) == ([first, second], false, rest)
  {
    hide Hear;
    assert HearAll(me, 1, flag, mid).0 == [second] + [] == [second];
    assert HearAll(me, 2, false, line) == ([first] + [second], false, rest);
    assert [first] + [second] == [first, second];
  }

  lemma ThreeCalls(me: byte, line: Traffic, mid: Traffic, again: Traffic, third: Got, rest: Traffic)
    requires Hear(me, false, line) == Heard(NOTHING, true, mid)
    requires Hear(me, true, mid) == Heard(NOTHING, false, again)
    requires Hear(me, false, again) == Heard(third, false, rest)
    ensures HearAll(me, 3, false, line) == ([NOTHING, NOTHING, third], false, rest)
  {
    hide Hear;
    TwoCalls(me, line, mid, NOTHING, true, NOTHING, again);
    assert HearAll(me, 1, false, again).0 == [third] + [];
    assert HearAll(me, 2, true, mid).0 == [NOTHING] + [third];
    assert [NOTHING] + ([NOTHING] + [third]) == [NOTHING, NOTHING, third];
  }

  /** Whatever arrives, a server ignores it unless a frame is delivered that is for it and has a clear register. */
  lemma OthersIgnored(me: byte, line: seq<byte>, t: Tables) returns (d: seq<byte>)
    ensures d == Delivered(RTU, Indication, Traffic(line, []))
    ensures d == [] || (d[0] != me && d[0] != 0) || Register(d) != 0 ==> ServerTurn(RTU, me, line, t) == ([], t)
  {
    hide Register, Parse, CheckIntegrity, Delivered, Servable, Serve, ReplyFrame;
    d := Delivered(RTU, Indication, Traffic(line, []));
    if d != [] {
      IntegrityExactly(me, d);
    }
  }

  /** A server that finds an error in a whole request sends nothing and changes nothing. */
  lemma CorruptRequestIgnored(slave: byte, me: byte, pdu: seq<byte>, e: seq<byte>, t: Tables)
    requires 1 <= |pdu| && |e| == |BusFrame(slave, pdu)| && Detectable(e)
    requires Parse(RTU, Indication, Corrupt(BusFrame(slave, pdu), e)) == Complete(|e|)
    ensures ServerTurn(RTU, me, Corrupt(BusFrame(slave, pdu), e), t) == ([], t)
  {
    hide BusFrame, Parse, Detectable, Register, Corrupt, CrcMatches, CheckIntegrity, Delivered, Servable, Serve;
    var bad := Corrupt(BusFrame(slave, pdu), e);
    SentMatches(slave, pdu);
    ErrorLeavesMark(BusFrame(slave, pdu), e);
    IntegrityExactly(me, bad);
    FrameDelivered(RTU, Indication, bad, [], []);
    assert bad + [] == bad;
  }

  /** A frame keeps its length as long as its function code and its byte count, if it has one, are intact. */
  lemma StillWhole(f: seq<byte>, g: seq<byte>)
    requires Parse(RTU, Indication, f) == Complete(|f|) && |g| == |f| && g[1] == f[1]
    requires f[1] == 15 || f[1] == 16 ==> 7 <= |f| && g[6] == f[6]
    requires f[1] == 23 ==> 11 <= |f| && g[10] == f[10]
    ensures Parse(RTU, Indication, g) == Complete(|g|)
  {
    assert f[1..][0] == f[1] && g[1..][0] == g[1];
    assert 7 <= |f| ==> f[1..][5] == f[6] && g[1..][5] == g[6];
    assert 11 <= |f| ==> f[1..][9] == f[10] && g[1..][9] == g[10];
  }

  // ---------- The client ----------

  /**
   * What an RTU client does with anything delivered as a reply. If it carries the address of the client's
   * slave or 0, a register that is not clear gives EMBBADCRC, a clear one leaves the decision to
   * check_confirmation. The reply of another slave is never accepted, and has three errnos.
   */
  lemma ClientCheckExactly(slave: byte, req: seq<byte>, line: Traffic)
    requires 6 <= |req| && Called(req[1]) && Delivered(RTU, Confirmation, line) != []
    ensures var rsp := Delivered(RTU, Confirmation, line);
            && 5 <= |rsp| && WholeReply(RTU, rsp)
            && ClientCheck(RTU, slave, req, line) ==
               if rsp[0] != slave && rsp[0] != 0 then
                 Refused(112345678 + if req[0] != 0 && req[0] != rsp[0] then 17 else if rsp[1] >= 0x80 then 14 else 13)
               else if Register(rsp) != 0 then Refused(112345678 + 12)
               else CheckConfirmation(RTU, req, rsp)
  {
    var rsp := Delivered(RTU, Confirmation, line);
    DeliveredWhole(RTU, Confirmation, line);
    RepliesHaveFive(rsp);
    IntegrityExactly(slave, rsp);
    ComputedPositive(req);
    ErrnoOfDelivered(RTU, slave, line);
    hide Parse, Delivered, CheckIntegrity, Register, ComputeResponseLength, ReceiveErrno, Called;
  }

  lemma ErrnoOfDelivered(b: Backend, slave: byte, line: Traffic)
    requires Delivered(b, Confirmation, line) != []
    ensures ReceiveErrno(b, Confirmation, line) == EMBBADCRC
    ensures ReceiveResult(b, slave, Confirmation, line) == CheckIntegrity(b, slave, Delivered(b, Confirmation, line))
  {
    hide Parse, CheckIntegrity;
  }

  lemma RepliesHaveFive(rsp: seq<byte>)
    requires Parse(RTU, Confirmation, rsp) == Complete(|rsp|)
    ensures 5 <= |rsp|
  {
  }

  lemma ComputedPositive(req: seq<byte>)
    requires 6 <= |req| && Called(req[1])
    ensures 5 <= ComputeResponseLength(RTU, req)
  {
    hide ByteCount;
  }

  /** Only a reply of the computed length is accepted. */
  lemma AcceptedLength(req: seq<byte>, rsp: seq<byte>, length: nat)
    requires 6 <= |req| && Called(req[1]) && WholeReply(RTU, rsp)
    requires CheckLength(RTU, req, rsp, length).Accepted?
    ensures length == ComputeResponseLength(RTU, req) && rsp[1] < 0x80
  {
    hide Parse, ByteCount, Word;
  }

  /** A corrupted reply that is cut short by its own corrupted byte count is not accepted either. */
  lemma CutShortRefused(slave: byte, req: seq<byte>, line: Traffic, whole: nat)
    requires 6 <= |req| && Called(req[1])
    requires 0 < |Delivered(RTU, Confirmation, line)| < whole
    requires whole == 5 || whole == ComputeResponseLength(RTU, req)
    ensures ClientCheck(RTU, slave, req, line).Refused?
  {
    var rsp := Delivered(RTU, Confirmation, line);
    DeliveredWhole(RTU, Confirmation, line);
    RepliesHaveFive(rsp);
    ComputedPositive(req);
    var rc := ReceiveResult(RTU, slave, Confirmation, line);
    hide Parse, Delivered, CheckIntegrity, ComputeResponseLength, CheckLength, Called;
    if rc != -1 && CheckLength(RTU, req, rsp, rc).Accepted? {
      AcceptedLength(req, rsp, rc);
    }
  }

  /** What the client makes of a checked reply. */
  lemma RefusedFails(slave: byte, c: Call, req: seq<byte>, line: seq<byte>)
    requires 6 <= |req| && ClientCheck(RTU, slave, req, Traffic(line, [])).Refused?
    ensures ClientTurn(RTU, slave, c, req, line) == Failed(ClientCheck(RTU, slave, req, Traffic(line, [])).errno)
  {
    hide ClientCheck, Delivered;
  }

  /** The frame of a reply to a call, with an intact checksum. */
  lemma ReplySent(tid: word, slave: byte, c: Call, t: Tables)
    requires WithinLimits(c) && WellFormed(t)
    ensures var req := RequestFrame(RTU, tid, slave, c);
            var rsp := ServerTurn(RTU, slave, req, t).0;
            && Called(req[1]) && 5 <= |rsp| && CrcMatches(rsp)
            && (|rsp| == 5 || |rsp| == ComputeResponseLength(RTU, req))
  {
    hide RequestFrame, RequestPdu, Expected, ServerTurn, ReplyPdu, Parse, ComputeResponseLength, CallLength, WellFormed,
         WithinLimits, InRange, MbapAgrees, CrcMatches, BusFrame, Carries;
    var p := RequestCarries(c);
    ServerTurnRefines(RTU, tid, slave, c, t);
    SentMatches(slave, ReplyPdu(p, Expected(c, t).0));
    RtuFrame(tid, slave, ReplyPdu(p, Expected(c, t).0));
    CallReplyLengths(RTU, tid, slave, c, t);
    RepliesHaveFive(ServerTurn(RTU, slave, RequestFrame(RTU, tid, slave, c), t).0);
    RequestFirst(RTU, tid, slave, c);
  }

  lemma RtuFrame(tid: word, slave: byte, pdu: seq<byte>)
    ensures Frame(RTU, WireTid(RTU, tid), [0, 0], slave, pdu) == BusFrame(slave, pdu)
  {
    hide Frame;
  }

  /**
   * The server's reply to a call, with any detectable error: the client never takes it for a success - not
   * even if the corrupted function or byte count has it stop early. If the frame still has its length and
   * the address of the slave or 0, the errno is EMBBADCRC.
   */
  lemma CorruptReplyRefused(tid: word, slave: byte, c: Call, t: Tables, e: seq<byte>)
    requires WithinLimits(c) && WellFormed(t) && Detectable(e)
    requires |e| == |ServerTurn(RTU, slave, RequestFrame(RTU, tid, slave, c), t).0|
    ensures var req := RequestFrame(RTU, tid, slave, c);
            var bad := Corrupt(ServerTurn(RTU, slave, req, t).0, e);
            && ClientTurn(RTU, slave, c, req, bad).Failed?
            && (Parse(RTU, Confirmation, bad) == Complete(|bad|) && (bad[0] == slave || bad[0] == 0) ==>
                  ClientTurn(RTU, slave, c, req, bad) == Failed(112345678 + 12))
  {
    hide RequestFrame, ServerTurn, Parse, ComputeResponseLength, WellFormed, WithinLimits, CrcMatches, Detectable, Register,
         Corrupt, ClientCheck, ClientTurn, CheckConfirmation, Called, Delivered;
    var req := RequestFrame(RTU, tid, slave, c);
    var rsp := ServerTurn(RTU, slave, req, t).0;
    var bad := Corrupt(rsp, e);
    ReplySent(tid, slave, c, t);
    ErrorLeavesMark(rsp, e);
    CorruptChecked(slave, req, bad);
    RefusedFails(slave, c, req, bad);
  }

  /** The same of any bytes of the length that the client expects, or of an exception. */
  lemma CorruptChecked(slave: byte, req: seq<byte>, bad: seq<byte>)
    requires 6 <= |req| && Called(req[1]) && 5 <= |bad| && Register(bad) != 0
    requires |bad| == 5 || |bad| == ComputeResponseLength(RTU, req)
    ensures ClientCheck(RTU, slave, req, Traffic(bad, [])).Refused?
    ensures Parse(RTU, Confirmation, bad) == Complete(|bad|) && (bad[0] == slave || bad[0] == 0) ==>
              ClientCheck(RTU, slave, req, Traffic(bad, [])) == Refused(112345678 + 12)
  {
    var line := Traffic(bad, []);
    var d := Delivered(RTU, Confirmation, line);
    hide Register, CheckConfirmation, Called, ComputeResponseLength;
    if d == [] {
      NothingRefused(slave, req, line);
    } else {
      DeliveredWhole(RTU, Confirmation, line);
      hide ClientCheck, Parse, Delivered;
      if |d| < |bad| {
        CutShortRefused(slave, req, line, |bad|);
      } else {
        assert d == bad;
        ClientCheckExactly(slave, req, line);
      }
    }
  }

  lemma NothingRefused(slave: byte, req: seq<byte>, line: Traffic)
    requires 6 <= |req| && Delivered(RTU, Confirmation, line) == []
    ensures ClientCheck(RTU, slave, req, line).Refused?
    ensures Parse(RTU, Confirmation, line.now) != Complete(|line.now|)
  {
    hide Parse;
  }
}
