/**
 * A slave on a serial line it shares with other slaves: it sees every request, and the replies of the
 * others. The flag confirmation_to_ignore keeps it at frame boundaries.
 */
module SharedBus {
  import opened Bytes
  import opened Errors
  import opened Backends
  import opened Crc16
  import opened Receive
  import opened Memory
  import opened Server
  import opened Protocol
  import opened Refinement
  import opened Lengths

  /** What a receive call gives its caller: the return value, and the request if it is positive. */
  datatype Got = Got(rc: int, request: seq<byte>)

  const NOTHING: Got := Got(0, [])

  /** One receive call of a slave: what it gives, the flag, and the line afterwards. */
  datatype Heard = Heard(got: Got, ignoreNext: bool, line: Traffic)

  /** _modbus_rtu_receive as a function of the flag and the line. */
  function Hear(me: byte, ignoreNext: bool, line: Traffic): Heard {
    if ignoreNext then Heard(NOTHING, false, Remaining(RTU, Confirmation, line))
    else
      var rc := ReceiveResult(RTU, me, Indication, line);
      Heard(Got(rc, if rc > 0 then Delivered(RTU, Indication, line) else []), rc == 0, Remaining(RTU, Indication, line))
  }

  /** modbus_t of an RTU slave. */
  class Slave {
    const address: byte
    var confirmationToIgnore: bool

    constructor (address: byte)
      ensures this.address == address && !confirmationToIgnore
    {
      this.address := address;
      confirmationToIgnore := false;
    }

    /** _modbus_rtu_receive */
    method Receive(line: Line, req: array<byte>) returns (rc: int)
      requires RTU.MaxAduLength() <= req.Length
      modifies this`confirmationToIgnore, line, req
      ensures rc <= req.Length
      ensures Heard(Got(rc, if rc > 0 then req[..rc] else []), confirmationToIgnore, line.traffic)
              == Hear(address, old(confirmationToIgnore), old(line.traffic))
    {
      hide Remaining, Delivered, Stored, CheckIntegrity;
      if confirmationToIgnore {
        // Whatever comes of it, the flag goes down.
        var ignored, errno, inside := ReceiveMsg(RTU, address, true, Confirmation, line, req);
        confirmationToIgnore := false;
        rc := 0;
      } else {
        var errno, inside;
        rc, errno, inside := ReceiveMsg(RTU, address, true, Indication, line, req);
        if rc == 0 {
          // A request for another slave: its reply comes next.
          confirmationToIgnore := true;
        }
      }
    }
  }

  // ---------- Transactions on the bus ----------

  /**
   * A master's request to a slave and that slave's reply, as PDUs, and whether the reply comes. The reply of
   * a slave other than the listening one travels over the bus. When no reply comes the master waits for a
   * timeout; otherwise it may go on at once or leave the bus idle.
   */
  datatype Transaction = Transaction(slave: byte, request: seq<byte>, reply: seq<byte>, answered: bool, idle: bool)

  /** What `me` sees are PDUs whose length the receiver's tables tell, in frames that fit the largest ADU; no broadcast. */
  predicate Honest(me: byte, x: Transaction) {
    && SelfDelimiting(Indication, x.request) && |x.request| <= MAX_PDU_LENGTH
    && (x.slave != me && x.answered ==> SelfDelimiting(Confirmation, x.reply) && |x.reply| <= MAX_PDU_LENGTH)
    && x.slave != BROADCAST_ADDRESS
  }

  /** An RTU frame; it has neither transaction identifier nor protocol field. */
  function BusFrame(slave: byte, pdu: seq<byte>): (f: seq<byte>)
    ensures |f| == |pdu| + 3
  {
    Frame(RTU, 0, [0, 0], slave, pdu)
  }

  function RequestBytes(x: Transaction): seq<byte> { BusFrame(x.slave, x.request) }

  function ReplyBytes(x: Transaction): seq<byte> { BusFrame(x.slave, x.reply) }

  /** The bytes of a transaction as the slave `me` finds them; its own replies it sends itself. */
  function BytesFor(me: byte, x: Transaction): seq<byte> {
    if x.slave != me && x.answered then RequestBytes(x) + ReplyBytes(x) else RequestBytes(x)
  }

  /** Whether a pause follows the bytes of a transaction. */
  predicate Pauses(me: byte, x: Transaction) { if x.slave != me && !x.answered then true else x.idle }

  /** Bytes followed at once, or after a pause, by what is already on the line. */
  function Before(bs: seq<byte>, pause: bool, rest: Traffic): Traffic {
    if pause then Traffic(bs, [rest.now] + rest.later) else Traffic(bs + rest.now, rest.later)
  }

  /** What the listening slave `me` finds on the line. */
  function OnLine(me: byte, xs: seq<Transaction>): Traffic {
    if xs == [] then Traffic([], []) else Before(BytesFor(me, xs[0]), Pauses(me, xs[0]), OnLine(me, xs[1..]))
  }

  /** What the receive calls of `me` give for a transaction: its own request, or twice nothing. */
  function ResultsOf(me: byte, x: Transaction): seq<Got> {
    if x.slave == me then [Got(|RequestBytes(x)|, RequestBytes(x))] else [NOTHING, NOTHING]
  }

  function Results(me: byte, xs: seq<Transaction>): seq<Got> {
    if xs == [] then [] else ResultsOf(me, xs[0]) + Results(me, xs[1..])
  }

  /** n receive calls in a row. */
  function HearAll(me: byte, n: nat, ignoreNext: bool, line: Traffic): (seq<Got>, bool, Traffic) {
    if n == 0 then ([], ignoreNext, line)
    else
      var h := Hear(me, ignoreNext, line);
      var (rcs, flag, l) := HearAll(me, n - 1, h.ignoreNext, h.line);
      ([h.got] + rcs, flag, l)
  }

  /** What a frame on the bus is to the receiver, whatever its PDU. */
  lemma FrameOnBus(t: MsgType, slave: byte, pdu: seq<byte>)
    requires 1 <= |pdu|
    ensures var f := BusFrame(slave, pdu);
            && f != [] && f[0] == slave
            && CheckIntegrity(RTU, slave, f) == |f|
            && (Parse(RTU, t, f) == Complete(|f|) <==> SelfDelimiting(t, pdu) && |pdu| <= MAX_PDU_LENGTH)
  {
    hide Parse, SelfDelimiting, Seal, CheckIntegrity;
    FrameDelimits(RTU, t, 0, [0, 0], slave, pdu);
    FrameParts(RTU, 0, [0, 0], slave, pdu);
    SealedIsIntact(RTU, slave, Head(RTU, 0, [0, 0], slave) + pdu);
  }

  /** A request for `me` is returned; a request for another slave is taken off the line and raises the flag. */
  lemma HearRequest(me: byte, x: Transaction, rest: seq<byte>, later: seq<seq<byte>>)
    requires Honest(me, x)
    ensures Hear(me, false, Traffic(RequestBytes(x) + rest, later)) ==
            Heard(if x.slave == me then Got(|RequestBytes(x)|, RequestBytes(x)) else NOTHING, x.slave != me, Traffic(rest, later))
  {
    FrameOnBus(Indication, x.slave, x.request);
    var f := RequestBytes(x);
    FrameDelivered(RTU, Indication, f, rest, later);
    hide BusFrame, Parse, Delivered, Remaining, SelfDelimiting;
    if x.slave == me {
      hide CheckIntegrity;
    }
  }

  /** With the flag up, another slave's reply is taken off the line as a whole, and not returned. */
  lemma HearReply(me: byte, x: Transaction, rest: seq<byte>, later: seq<seq<byte>>)
    requires Honest(me, x) && x.slave != me && x.answered
    ensures Hear(me, true, Traffic(ReplyBytes(x) + rest, later)) == Heard(NOTHING, false, Traffic(rest, later))
  {
    FrameOnBus(Confirmation, x.slave, x.reply);
    FrameDelivered(RTU, Confirmation, ReplyBytes(x), rest, later);
    hide BusFrame, Parse, Delivered, Remaining, SelfDelimiting;
  }

  /** With the flag up and no reply, the wait times out and nothing of the next request is lost. */
  lemma HearNothing(me: byte, next: Traffic)
    ensures Hear(me, true, Before([], true, next)) == Heard(NOTHING, false, next)
  {
  }

  /** The calls return rcs and end with the flag down and nothing left on the line. */
  predicate Settles(me: byte, line: Traffic, rcs: seq<Got>) {
    var (got, flag, left) := HearAll(me, |rcs|, false, line);
    got == rcs && !flag && Awaken(left) == Traffic([], [])
  }

  /** Waiting for a request, a pause makes no difference. */
  lemma SettlesAfterPause(me: byte, line: Traffic, rcs: seq<Got>)
    requires Settles(me, line, rcs)
    ensures Settles(me, Before([], true, line), rcs)
  {
    var paused := Before([], true, line);
    assert Awaken(paused) == Awaken(line);
    hide Awaken, Parse, CheckIntegrity;
    assert Hear(me, false, paused) == Hear(me, false, line);
    hide Hear;
  }

  /** One call for a request to `me`. */
  lemma SettlesOwn(me: byte, line: Traffic, rest: Traffic, rc: Got, rcs: seq<Got>)
    requires Hear(me, false, line) == Heard(rc, false, rest)
    requires Settles(me, rest, rcs)
    ensures Settles(me, line, [rc] + rcs)
  {
    hide Hear, Awaken;
    assert ([rc] + rcs)[1..] == rcs;
  }

  /** Two calls for a request to another slave. */
  lemma SettlesOther(me: byte, line: Traffic, mid: Traffic, rest: Traffic, rcs: seq<Got>)
    requires Hear(me, false, line) == Heard(NOTHING, true, mid)
    requires Hear(me, true, mid) == Heard(NOTHING, false, rest)
    requires Settles(me, rest, rcs)
    ensures Settles(me, line, [NOTHING, NOTHING] + rcs)
  {
    hide Hear, Awaken;
    var n := |rcs|;
    assert HearAll(me, n + 1, true, mid) == ([NOTHING] + HearAll(me, n, false, rest).0, HearAll(me, n, false, rest).1, HearAll(me, n, false, rest).2);
    assert HearAll(me, n + 2, false, line).0 == [NOTHING] + ([NOTHING] + rcs);
  }

  /** The rest of the line behind the bytes of a frame. */
  function Following(pause: bool, rest: Traffic): Traffic { Before([], pause, rest) }

  lemma BeforeSplits(f: seq<byte>, more: seq<byte>, pause: bool, rest: Traffic)
    ensures var b := Before(more, pause, rest); Before(f + more, pause, rest) == Traffic(f + b.now, b.later)
  {
    assert (f + more) + rest.now == f + (more + rest.now);
  }

  lemma SettlesBehind(me: byte, pause: bool, rest: Traffic, rcs: seq<Got>)
    requires Settles(me, rest, rcs)
    ensures Settles(me, Following(pause, rest), rcs)
  {
    hide Settles;
    if pause {
      SettlesAfterPause(me, rest, rcs);
    } else {
      assert [] + rest.now == rest.now;
    }
  }

  /** One transaction in front of traffic that settles. */
  lemma TransactionSettles(me: byte, x: Transaction, rest: Traffic, rcs: seq<Got>)
    requires Honest(me, x) && Settles(me, rest, rcs)
    ensures Settles(me, Before(BytesFor(me, x), Pauses(me, x), rest), ResultsOf(me, x) + rcs)
  {
    hide Settles, Hear, RequestBytes, ReplyBytes, Honest;
    var f, pause := RequestBytes(x), Pauses(me, x);
    var line := Before(BytesFor(me, x), pause, rest);
    var behind := Following(pause, rest);
    SettlesBehind(me, pause, rest, rcs);
    if x.slave == me {
      assert f + [] == f;
      BeforeSplits(f, [], pause, rest);
      HearRequest(me, x, behind.now, behind.later);
      SettlesOwn(me, line, behind, Got(|f|, f), rcs);
    } else if x.answered {
      var q := ReplyBytes(x);
      assert q + [] == q;
      BeforeSplits(f, q, pause, rest);
      BeforeSplits(q, [], pause, rest);
      var mid := Before(q, pause, rest);
      HearRequest(me, x, mid.now, mid.later);
      HearReply(me, x, behind.now, behind.later);
      SettlesOther(me, line, mid, behind, rcs);
    } else {
      assert f + [] == f;
      BeforeSplits(f, [], pause, rest);
      HearRequest(me, x, behind.now, behind.later);
      HearNothing(me, rest);
      SettlesOther(me, line, behind, rest, rcs);
    }
  }

  /**
   * Shared-bus alignment: for any sequence of transactions with any slaves, answered or not, at once or
   * after pauses, the receive calls of `me` return exactly the requests addressed to it, byte for byte,
   * never parse another slave's reply as a request, and end at a frame boundary with the flag down.
   */
  lemma {:induction false} Aligned(me: byte, xs: seq<Transaction>)
    requires forall i :: 0 <= i < |xs| ==> Honest(me, xs[i])
    ensures Settles(me, OnLine(me, xs), Results(me, xs))
    decreases |xs|
  {
    hide Honest, Hear, Before, BytesFor, Pauses, ResultsOf;
    if xs != [] {
      hide Settles;
      Aligned(me, xs[1..]);
      TransactionSettles(me, xs[0], OnLine(me, xs[1..]), Results(me, xs[1..]));
    }
  }

  // ---------- Which traffic keeps a slave aligned ----------

  /**
   * A receive call takes exactly the frame of a request to another slave, and waits for the reply to it, if
   * and only if the length tables tell the length of its PDU and it fits the largest ADU - whatever follows.
   */
  lemma RequestTakenExactly(me: byte, slave: byte, pdu: seq<byte>, rest: seq<byte>, later: seq<seq<byte>>)
    requires slave != me && slave != BROADCAST_ADDRESS && 1 <= |pdu|
    ensures Hear(me, false, Traffic(BusFrame(slave, pdu) + rest, later)) == Heard(NOTHING, true, Traffic(rest, later))
       <==> SelfDelimiting(Indication, pdu) && |pdu| <= MAX_PDU_LENGTH
  {
    hide BusFrame, SelfDelimiting, Parse, CheckIntegrity;
    var f := BusFrame(slave, pdu);
    var line := Traffic(f + rest, later);
    FrameOnBus(Indication, slave, pdu);
    if Hear(me, false, line) == Heard(NOTHING, true, Traffic(rest, later)) {
      TakenWhole(Indication, f, rest, later);
    } else if SelfDelimiting(Indication, pdu) && |pdu| <= MAX_PDU_LENGTH {
      HearRequest(me, Transaction(slave, pdu, [], false, false), rest, later);
    }
  }

  /**
   * With the flag up, a call takes exactly the frame of a reply, if further bytes follow at once, if and
   * only if the length tables tell the length of its PDU and it fits the largest ADU.
   */
  lemma ReplyTakenExactly(me: byte, slave: byte, pdu: seq<byte>, rest: seq<byte>, later: seq<seq<byte>>)
    requires slave != BROADCAST_ADDRESS && 1 <= |pdu| && rest != []
    ensures Hear(me, true, Traffic(BusFrame(slave, pdu) + rest, later)) == Heard(NOTHING, false, Traffic(rest, later))
       <==> SelfDelimiting(Confirmation, pdu) && |pdu| <= MAX_PDU_LENGTH
  {
    hide BusFrame, SelfDelimiting, Parse;
    var f := BusFrame(slave, pdu);
    FrameOnBus(Confirmation, slave, pdu);
    if Remaining(RTU, Confirmation, Traffic(f + rest, later)) == Traffic(rest, later) {
      RestIsWhole(f, rest, later);
      TakenWhole(Confirmation, f, rest, later);
    } else if SelfDelimiting(Confirmation, pdu) && |pdu| <= MAX_PDU_LENGTH {
      FrameDelivered(RTU, Confirmation, f, rest, later);
    }
  }

  /**
   * If a pause follows the reply, it also does no harm that the frame is shorter than it announces: the call
   * waits in vain for the rest, and the next one starts behind the pause. Any other frame breaks alignment.
   */
  lemma ReplyBeforePause(me: byte, slave: byte, pdu: seq<byte>, later: seq<seq<byte>>)
    requires slave != BROADCAST_ADDRESS && 1 <= |pdu|
    ensures Awaken(Hear(me, true, Traffic(BusFrame(slave, pdu), later)).line) == Awaken(Traffic([], later))
       <==> Parse(RTU, Confirmation, BusFrame(slave, pdu)) == Short
            || (SelfDelimiting(Confirmation, pdu) && |pdu| <= MAX_PDU_LENGTH)
  {
    hide BusFrame, SelfDelimiting, Parse, Awaken;
    var f := BusFrame(slave, pdu);
    FrameOnBus(Confirmation, slave, pdu);
    TooLongEarly(f);
    AwakenPause(later);
    AwakenBytes(Hear(me, true, Traffic(f, later)).line);
    AwakenLast(later);
  }

  lemma AwakenPause(later: seq<seq<byte>>)
    ensures Awaken(Traffic([], later)) == Awaken(AfterSilence(Traffic([], later)))
  {
  }

  lemma AwakenBytes(l: Traffic)
    ensures l.now != [] ==> Awaken(l) == l
  {
  }

  /** Waking up drops at least one pause, or there is nothing more to come. */
  lemma {:induction false} AwakenLast(later: seq<seq<byte>>)
    ensures later != [] ==> |Awaken(Traffic([], later)).later| < |later|
    ensures later == [] ==> Awaken(Traffic([], later)).now == []
    decreases |later|
  {
    if later != [] && later[0] == [] {
      AwakenLast(later[1..]);
    }
  }

  /** If a delivered frame leaves exactly what follows f, it is f, and f is a whole frame. */
  lemma TakenWhole(t: MsgType, f: seq<byte>, rest: seq<byte>, later: seq<seq<byte>>)
    requires f != [] && Delivered(RTU, t, Traffic(f + rest, later)) != []
    requires Remaining(RTU, t, Traffic(f + rest, later)) == Traffic(rest, later)
    ensures Parse(RTU, t, f) == Complete(|f|)
  {
    var l := Traffic(f + rest, later);
    DeliveredWhole(RTU, t, l);
    hide Parse;
    var d := Delivered(RTU, t, l);
    assert |(f + rest)[|d|..]| == |rest|;
    assert d == f;
  }

  /** A reply that is cut short or too long does not leave exactly what follows it. */
  lemma RestIsWhole(f: seq<byte>, rest: seq<byte>, later: seq<seq<byte>>)
    requires 4 <= |f| && rest != []
    requires Remaining(RTU, Confirmation, Traffic(f + rest, later)) == Traffic(rest, later)
    ensures Delivered(RTU, Confirmation, Traffic(f + rest, later)) != []
  {
    hide Parse;
    TooLongEarly(f + rest);
  }

  /** Only replies that announce a byte count can be too long, and that is found after three bytes. */
  lemma TooLongEarly(s: seq<byte>)
    ensures Parse(RTU, Confirmation, s).TooLong? ==> Parse(RTU, Confirmation, s).consumed == 3
  {
  }

  /** Diagnostics, function 8, here with its sub-function 0 and two data bytes. */
  const DIAGNOSTICS: seq<byte> := [0x08, 0x00, 0x00, 0xA5, 0x37]

  /**
   * Functions without an entry in the tables are taken to have no data: of the eight bytes of a Diagnostics
   * request to another slave a call takes four, so that the next one starts inside the frame.
   */
  lemma DiagnosticsLosesAlignment(me: byte, slave: byte, later: seq<seq<byte>>)
    requires slave != me && slave != BROADCAST_ADDRESS
    ensures var f := BusFrame(slave, DIAGNOSTICS);
            |f| == 8 && Hear(me, false, Traffic(f, later)) == Heard(NOTHING, true, Traffic(f[4..], later))
  {
    hide CrcBytes, CrcMatches;
    var f := BusFrame(slave, DIAGNOSTICS);
    assert f[0] == slave && f[1] == 0x08;
  }

  // ---------- This library on the bus ----------

  /** A request that arrives whole and the answer of this library's server to it. */
  lemma ServerIsHonest(me: byte, slave: byte, p: seq<byte>, t: Tables, answered: bool, idle: bool)
    requires slave != BROADCAST_ADDRESS && SelfDelimiting(Indication, p) && |p| <= MAX_PDU_LENGTH && p[0] < 0x80
    requires Readable(p, t) && !Serve(p, t).0.Silent?
    requires |ReplyPdu(p, Serve(p, t).0)| <= MAX_PDU_LENGTH
    ensures Honest(me, Transaction(slave, p, ReplyPdu(p, Serve(p, t).0), answered, idle))
  {
    AnswerLengths(p, t);
    hide Serve, Readable, SelfDelimiting, ReplyPdu;
  }

  /** A client call to a slave that runs this library's server. */
  function CallOn(slave: byte, c: Call, t: Tables, answered: bool, idle: bool): Transaction
    requires !Expected(c, t).0.Silent?
  {
    Transaction(slave, RequestPdu(c), ReplyPdu(RequestPdu(c), Expected(c, t).0), answered, idle)
  }

  /** Such a call is an honest transaction, and its bytes are those that client and server send. */
  lemma CallsAreHonest(me: byte, slave: byte, c: Call, t: Tables, answered: bool, idle: bool)
    requires slave != BROADCAST_ADDRESS && WithinLimits(c) && WellFormed(t)
    ensures !Expected(c, t).0.Silent?
    ensures var x := CallOn(slave, c, t, answered, idle);
            && Honest(me, x)
            && RequestBytes(x) == RequestFrame(RTU, 0, slave, c)
            && ReplyBytes(x) == ServerTurn(RTU, slave, RequestFrame(RTU, 0, slave, c), t).0
  {
    hide Carries, RequestPdu, Expected, ReplyPdu, SelfDelimiting, ServerTurn, Understood, Perform, WellFormed, WithinLimits, Frame;
    var p := RequestCarries(c);
    CarriedShape(p, c);
    ReplyUnderstood(p, c, t);
    UnderstoodShape(c, p, ReplyPdu(p, Expected(c, t).0), Perform(c, t).0);
    ServerTurnRefines(RTU, 0, slave, c, t);
  }

  lemma UnderstoodShape(c: Call, p: seq<byte>, q: seq<byte>, o: Outcome)
    requires 5 <= |p| && Called(p[0]) && Understood(c, p, q, o)
    ensures SelfDelimiting(Confirmation, q) && |q| <= 252
  {
  }

  /** Any sequence of client calls to slaves of this library keeps `me` aligned. */
  lemma CallsAligned(me: byte, xs: seq<Transaction>)
    requires forall i :: 0 <= i < |xs| ==> FromCall(xs[i])
    ensures Settles(me, OnLine(me, xs), Results(me, xs))
  {
    hide Settles, OnLine, Results, Honest;
    forall i | 0 <= i < |xs|
      ensures Honest(me, xs[i])
    {
      var c, t :| WithinLimits(c) && WellFormed(t) && !Expected(c, t).0.Silent?
                  && xs[i] == CallOn(xs[i].slave, c, t, xs[i].answered, xs[i].idle);
      CallsAreHonest(me, xs[i].slave, c, t, xs[i].answered, xs[i].idle);
    }
    Aligned(me, xs);
  }

  ghost predicate FromCall(x: Transaction) {
    && x.slave != BROADCAST_ADDRESS
    && exists c, t :: WithinLimits(c) && WellFormed(t) && !Expected(c, t).0.Silent?
                      && x == CallOn(x.slave, c, t, x.answered, x.idle)
  }
}
