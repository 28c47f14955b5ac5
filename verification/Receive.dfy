/** The incremental receiver of modbus.c: it finds the end of a frame while bytes arrive in arbitrary pieces. */
module Receive {
  import opened Bytes
  import opened Errors
  import opened Backends

  const FC_READ_COILS: byte := 0x01
  const FC_READ_DISCRETE_INPUTS: byte := 0x02
  const FC_READ_HOLDING_REGISTERS: byte := 0x03
  const FC_READ_INPUT_REGISTERS: byte := 0x04
  const FC_WRITE_SINGLE_COIL: byte := 0x05
  const FC_WRITE_SINGLE_REGISTER: byte := 0x06
  const FC_READ_EXCEPTION_STATUS: byte := 0x07
  const FC_WRITE_MULTIPLE_COILS: byte := 0x0F
  const FC_WRITE_MULTIPLE_REGISTERS: byte := 0x10
  const FC_REPORT_SLAVE_ID: byte := 0x11
  const FC_WRITE_AND_READ_REGISTERS: byte := 0x17

  /** A request on its way to the server, or a reply on its way to the client. */
  datatype MsgType = Indication | Confirmation

  datatype Step = Function | Meta | Data

  function MetaLengthAfterFunction(function_: byte, t: MsgType): byte {
    if t.Indication? then
      if function_ <= FC_WRITE_SINGLE_REGISTER then 4
      else if function_ == FC_WRITE_MULTIPLE_COILS || function_ == FC_WRITE_MULTIPLE_REGISTERS then 5
      else if function_ == FC_WRITE_AND_READ_REGISTERS then 9
      else 0
    else if function_ == FC_WRITE_SINGLE_COIL || function_ == FC_WRITE_SINGLE_REGISTER
         || function_ == FC_WRITE_MULTIPLE_COILS || function_ == FC_WRITE_MULTIPLE_REGISTERS then 4
    else 1
  }

  /** The data bytes that follow the function and the meta information of a PDU, checksum not included. */
  function DataBytes(p: seq<byte>, t: MsgType): byte
    requires 1 <= |p| && 1 + MetaLengthAfterFunction(p[0], t) <= |p|
  {
    if t.Indication? then
      if p[0] == FC_WRITE_MULTIPLE_COILS || p[0] == FC_WRITE_MULTIPLE_REGISTERS then p[5]
      else if p[0] == FC_WRITE_AND_READ_REGISTERS then p[9]
      else 0
    else if p[0] <= FC_READ_INPUT_REGISTERS || p[0] == FC_REPORT_SLAVE_ID || p[0] == FC_WRITE_AND_READ_REGISTERS then p[1]
    else 0
  }

  function DataLengthAfterMeta(b: Backend, msg: seq<byte>, t: MsgType): nat
    requires b.HeaderLength() < |msg|
    requires b.HeaderLength() + 1 + MetaLengthAfterFunction(msg[b.HeaderLength()], t) <= |msg|
  {
    DataBytes(msg[b.HeaderLength()..], t) + b.ChecksumLength()
  }

  /** What the length tables say about a stream of bytes taken all at once. */
  datatype Parsed =
    | Short                    // the stream ends inside the frame
    | TooLong(consumed: nat)   // the frame would exceed the largest ADU
    | Complete(length: nat)

  /** The one-shot parse of the frame at the front of s. */
  function Parse(b: Backend, t: MsgType, s: seq<byte>): (r: Parsed)
    ensures r.Short? ==> |s| < b.MaxAduLength()
    ensures r.TooLong? ==> r.consumed <= |s| && r.consumed <= b.MaxAduLength()
    ensures r.Complete? ==> b.HeaderLength() + 1 + b.ChecksumLength() <= r.length <= |s| && r.length <= b.MaxAduLength()
  {
    var head := b.HeaderLength() + 1;
    if |s| < head then Short
    else
      var meta := head + MetaLengthAfterFunction(s[head - 1], t);
      if |s| < meta then Short
      else
        var total := meta + DataLengthAfterMeta(b, s, t);
        if total > b.MaxAduLength() then TooLong(meta)
        else if |s| < total then Short
        else Complete(total)
  }

  /** A whole frame at the front of a stream is found whatever follows it. */
  lemma ParsePrefix(b: Backend, t: MsgType, f: seq<byte>, rest: seq<byte>)
    requires Parse(b, t, f) == Complete(|f|)
    ensures Parse(b, t, f + rest) == Complete(|f|)
  {
    var h := b.HeaderLength();
    assert (f + rest)[h] == f[h];
    SameTables(b, t, f, f + rest);
    hide MetaLengthAfterFunction, DataLengthAfterMeta;
  }

  /** The length the tables give to a PDU that carries its own meta information. */
  predicate SelfDelimiting(t: MsgType, pdu: seq<byte>) {
    && 1 <= |pdu|
    && 1 + MetaLengthAfterFunction(pdu[0], t) <= |pdu|
    && |pdu| == 1 + MetaLengthAfterFunction(pdu[0], t) + DataBytes(pdu, t)
  }

  /** The receiver finds the end of a frame exactly when its PDU has the length the tables compute. */
  lemma FrameParses(b: Backend, t: MsgType, tid: word, proto: seq<byte>, slave: byte, pdu: seq<byte>)
    requires |proto| == 2 && 1 <= |pdu|
    requires b.HeaderLength() + |pdu| + b.ChecksumLength() <= b.MaxAduLength()
    requires SelfDelimiting(t, pdu)
    ensures var f := Frame(b, tid, proto, slave, pdu); Parse(b, t, f) == Complete(|f|)
  {
    var f := Frame(b, tid, proto, slave, pdu);
    FrameParts(b, tid, proto, slave, pdu);
    var h := b.HeaderLength();
    assert f[h..] == pdu + f[h + |pdu|..];
    assert f[h] == pdu[0];
    hide MetaLengthAfterFunction, Frame;
    assert DataBytes(f[h..], t) == DataBytes(pdu, t);
  }

  // ---------- The line ----------

  /** Bytes that arrive without a pause longer than a timeout, then, after a pause each, further ones. */
  datatype Traffic = Traffic(now: seq<byte>, later: seq<seq<byte>>)

  function AfterSilence(l: Traffic): Traffic {
    if l.later == [] then l.(now := []) else Traffic(l.later[0], l.later[1..])
  }

  /** Waiting without a timeout until a byte arrives. */
  function Awaken(l: Traffic): Traffic
    decreases |l.later|
  {
    if l.now != [] || l.later == [] then l else Awaken(AfterSilence(l))
  }

  /** All bytes of the line, the pauses between them removed. */
  function Joined(l: Traffic): Traffic
    decreases |l.later|
  {
    if l.later == [] then l else Traffic(l.now + Joined(AfterSilence(l)).now, [])
  }

  /**
   * The traffic as a receive call perceives it. With the byte timeout disabled (tv_sec of -1) a request
   * is waited for to its last byte, so that pauses go unnoticed; a reply keeps the response timeout.
   */
  function Perceived(t: MsgType, byteTimeout: bool, l: Traffic): Traffic {
    if t.Indication? && !byteTimeout then Joined(l) else l
  }

  /** Only the wait for the first byte of a request has no timeout. */
  function Opening(t: MsgType, l: Traffic): Traffic {
    if t.Indication? then Awaken(l) else l
  }

  /** What is left on the line after one receive call. */
  function Remaining(b: Backend, t: MsgType, l: Traffic): Traffic {
    var o := Opening(t, l);
    match Parse(b, t, o.now)
    case Short => AfterSilence(o)
    case TooLong(k) => o.(now := o.now[k..])
    case Complete(n) => o.(now := o.now[n..])
  }

  /**
   * How many bytes one receive call puts into the caller's buffer, whether they become a frame or not:
   * no check of slave, transaction or checksum comes before the last of them is stored.
   */
  function Stored(b: Backend, t: MsgType, l: Traffic): (n: nat)
    ensures n <= |Opening(t, l).now| && n <= b.MaxAduLength()
  {
    var s := Opening(t, l).now;
    match Parse(b, t, s)
    case Short => |s|
    case TooLong(k) => k
    case Complete(n) => n
  }

  /** The frame delivered by one receive call, or nothing. */
  function Delivered(b: Backend, t: MsgType, l: Traffic): (f: seq<byte>)
    ensures f != [] ==> b.HeaderLength() + 1 + b.ChecksumLength() <= |f| <= b.MaxAduLength()
  {
    var o := Opening(t, l);
    match Parse(b, t, o.now)
    case Short => []
    case TooLong(_) => []
    case Complete(n) => o.now[..n]
  }

  /** What is delivered is one whole frame: taken alone it parses to its own length. */
  lemma DeliveredWhole(b: Backend, t: MsgType, l: Traffic)
    requires Delivered(b, t, l) != []
    ensures var f := Delivered(b, t, l); f <= Opening(t, l).now && Parse(b, t, f) == Complete(|f|)
  {
    var s, f := Opening(t, l).now, Delivered(b, t, l);
    assert f[b.HeaderLength()] == s[b.HeaderLength()];
    SameTables(b, t, f, s);
    hide MetaLengthAfterFunction, DataLengthAfterMeta, Opening;
  }

  /** The return value of one receive call. */
  function ReceiveResult(b: Backend, slave: byte, t: MsgType, l: Traffic): int {
    var f := Delivered(b, t, l);
    if f == [] then -1 else CheckIntegrity(b, slave, f)
  }

  /** The errno of a receive call that returns -1. */
  function ReceiveErrno(b: Backend, t: MsgType, l: Traffic): int {
    match Parse(b, t, Opening(t, l).now)
    case Short => NO_REPLY
    case TooLong(_) => EMBBADDATA
    case Complete(_) => EMBBADCRC
  }

  class Line {
    var traffic: Traffic

    constructor (now: seq<byte>, later: seq<seq<byte>>)
      ensures traffic == Traffic(now, later)
    {
      traffic := Traffic(now, later);
    }

    /** select: without a timeout it waits for the next byte, with one it may give up. */
    method Select(timed: bool) returns (ready: bool)
      modifies this
      ensures ready <==> (if timed then old(traffic) else Awaken(old(traffic))).now != []
      ensures ready ==> traffic == if timed then old(traffic) else Awaken(old(traffic))
      ensures !ready ==> traffic == AfterSilence(if timed then old(traffic) else Awaken(old(traffic)))
    {
      if !timed {
        while traffic.now == [] && traffic.later != []
          invariant Awaken(traffic) == Awaken(old(traffic))
          decreases |traffic.later|
        {
          traffic := AfterSilence(traffic);
        }
      }
      ready := traffic.now != [];
      if !ready {
        traffic := AfterSilence(traffic);
      }
    }

    /**
     * recv: any number of the available bytes, at least one and at most the number asked for. If they do
     * not fit behind position `at` the buffer is left; where the source would go on is not defined.
     */
    method Recv(msg: array<byte>, at: nat, lengthToRead: nat) returns (rc: nat, inside: bool)
      requires traffic.now != [] && 0 < lengthToRead
      modifies this, msg
      ensures 1 <= rc <= lengthToRead && rc <= |old(traffic).now|
      ensures traffic == old(traffic).(now := old(traffic).now[rc..])
      ensures inside <==> at + rc <= msg.Length
      ensures inside ==> msg[..] == old(msg[..at]) + old(traffic).now[..rc] + old(msg[at + rc..])
      ensures !inside ==> msg[..] == old(msg[..])
    {
      var n: nat :| 1 <= n <= lengthToRead && n <= |traffic.now|;
      rc := n;
      inside := at + rc <= msg.Length;
      if inside {
        for i := 0 to rc
          invariant traffic == old(traffic)
          invariant forall k :: 0 <= k < msg.Length ==> msg[k] == if at <= k < at + i then traffic.now[k - at] else old(msg[k])
        {
          msg[at + i] := traffic.now[i];
        }
      }
      traffic := traffic.(now := traffic.now[rc..]);
    }
  }

  // ---------- The state machine ----------

  /** How much of the frame is known to be needed once `step` is being read. */
  function Target(b: Backend, t: MsgType, s: seq<byte>, step: Step): (n: nat)
    requires step != Function ==> b.HeaderLength() < |s|
    requires step == Data ==> b.HeaderLength() + 1 + MetaLengthAfterFunction(s[b.HeaderLength()], t) <= |s|
  {
    var head := b.HeaderLength() + 1;
    match step
    case Function => head
    case Meta => head + MetaLengthAfterFunction(s[head - 1], t)
    case Data => head + MetaLengthAfterFunction(s[head - 1], t) + DataLengthAfterMeta(b, s, t)
  }

  /** What is known of the stream s, of which msgLength bytes have been read, while `step` is being read. */
  ghost predicate Reading(b: Backend, t: MsgType, s: seq<byte>, step: Step, msgLength: nat, lengthToRead: nat) {
    && msgLength <= |s|
    && (step != Function ==> b.HeaderLength() < msgLength)
    && (step == Data ==> b.HeaderLength() + 1 + MetaLengthAfterFunction(s[b.HeaderLength()], t) <= msgLength)
    && msgLength + lengthToRead == Target(b, t, s, step)
    && msgLength + lengthToRead <= b.MaxAduLength()
    && (lengthToRead == 0 ==> step == Data)
  }

  function StepsLeft(step: Step): nat {
    match step case Function => 2 case Meta => 1 case Data => 0
  }

  lemma EndsShort(b: Backend, t: MsgType, s: seq<byte>, step: Step, lengthToRead: nat)
    requires Reading(b, t, s, step, |s|, lengthToRead) && lengthToRead > 0
    ensures Parse(b, t, s) == Short
  {
    hide MetaLengthAfterFunction, DataLengthAfterMeta;
  }

  lemma EndsComplete(b: Backend, t: MsgType, s: seq<byte>, step: Step, msgLength: nat)
    requires Reading(b, t, s, step, msgLength, 0)
    ensures Parse(b, t, s) == Complete(msgLength)
  {
    hide MetaLengthAfterFunction, DataLengthAfterMeta;
  }

  lemma SameTables(b: Backend, t: MsgType, read: seq<byte>, s: seq<byte>)
    requires b.HeaderLength() < |read| && read <= s
    requires b.HeaderLength() + 1 + MetaLengthAfterFunction(read[b.HeaderLength()], t) <= |read|
    ensures DataLengthAfterMeta(b, read, t) == DataLengthAfterMeta(b, s, t)
  {
    var h := b.HeaderLength();
    assert forall i :: 0 <= i < |read| - h ==> read[h..][i] == s[h..][i];
  }

  lemma StartsReading(b: Backend, t: MsgType, s: seq<byte>)
    ensures Reading(b, t, s, Function, 0, b.HeaderLength() + 1)
  {
  }

  lemma ReadMore(b: Backend, t: MsgType, s: seq<byte>, step: Step, msgLength: nat, lengthToRead: nat, n: nat)
    requires Reading(b, t, s, step, msgLength, lengthToRead)
    requires n <= lengthToRead && msgLength + n <= |s|
    ensures n < lengthToRead ==> Reading(b, t, s, step, msgLength + n, lengthToRead - n)
    ensures n == lengthToRead ==> ReadyFor(b, t, s, step, msgLength + n)
  {
    hide MetaLengthAfterFunction, DataLengthAfterMeta;
  }

  /** Everything known to be needed has been read. */
  ghost predicate ReadyFor(b: Backend, t: MsgType, s: seq<byte>, step: Step, msgLength: nat) {
    && msgLength <= |s|
    && (step != Function ==> b.HeaderLength() < |s|)
    && (step == Data ==> b.HeaderLength() + 1 + MetaLengthAfterFunction(s[b.HeaderLength()], t) <= |s|)
    && msgLength == Target(b, t, s, step) <= b.MaxAduLength()
  }

  /** The switch on `step` once everything that was known to be needed has been read. */
  method NextStep(b: Backend, t: MsgType, msg: array<byte>, msgLength: nat, step: Step, ghost s: seq<byte>)
    returns (next: Step, lengthToRead: nat, tooLong: bool)
    requires ReadyFor(b, t, s, step, msgLength)
    requires msgLength <= msg.Length && forall i :: 0 <= i < msgLength ==> msg[i] == s[i]
    ensures !tooLong ==> Reading(b, t, s, next, msgLength, lengthToRead) && msgLength + lengthToRead <= b.MaxAduLength()
    ensures if next == step then lengthToRead == 0 else StepsLeft(next) < StepsLeft(step)
    ensures tooLong ==> Parse(b, t, s) == TooLong(msgLength)
  {
    next, lengthToRead, tooLong := step, 0, false;
    var h := b.HeaderLength();
    if step == Function {
      lengthToRead := MetaLengthAfterFunction(msg[h], t);
      next := Meta;
      if lengthToRead != 0 {
        return;
      }
      // With nothing to read in between, the meta step is over at once.
    }
    if next == Meta {
      assert msg[..msgLength] == s[..msgLength];
      SameTables(b, t, msg[..msgLength], s);
      lengthToRead := DataLengthAfterMeta(b, msg[..msgLength], t);
      next := Data;
      tooLong := msgLength + lengthToRead > b.MaxAduLength();
    }
  }

  /** Whatever has been read belongs to what the call stores in all. */
  lemma ReadIsStored(b: Backend, t: MsgType, l: Traffic, step: Step, msgLength: nat, lengthToRead: nat, n: nat)
    requires Reading(b, t, Opening(t, l).now, step, msgLength, lengthToRead)
    requires n <= lengthToRead && msgLength + n <= |Opening(t, l).now|
    ensures msgLength + n <= Stored(b, t, l)
  {
    hide MetaLengthAfterFunction, DataLengthAfterMeta, Opening;
  }

  /** What has become of the traffic o once n of its bytes have been read. */
  ghost predicate Behind(o: Traffic, n: nat, byteTimeout: bool, t: MsgType, timed: bool, l: Traffic) {
    && n <= |o.now|
    && if t.Indication? && !byteTimeout then !timed && o.later == [] && Joined(l).now == o.now[n..]
       else if n == 0 then (if timed then l else Awaken(l)) == o
       else timed && l == o.(now := o.now[n..])
  }

  lemma {:induction false} JoinedAwaken(l: Traffic)
    ensures Joined(Awaken(l)) == Joined(l)
    ensures Awaken(Awaken(l)) == Awaken(l)
    decreases |l.later|
  {
    if l.now == [] && l.later != [] {
      JoinedAwaken(AfterSilence(l));
      assert Joined(l).now == Joined(AfterSilence(l)).now;
      JoinedFlat(AfterSilence(l));
    }
  }

  lemma {:induction false} JoinedFlat(l: Traffic)
    ensures Joined(l).later == [] && l.now <= Joined(l).now
    decreases |l.later|
  {
  }

  lemma BehindStart(byteTimeout: bool, t: MsgType, l: Traffic)
    ensures Behind(Opening(t, Perceived(t, byteTimeout, l)), 0, byteTimeout, t, t == Confirmation, l)
  {
    JoinedFlat(l);
    JoinedAwaken(l);
  }

  /** Waiting finds the next bytes, or that there are none. */
  lemma BehindWaits(o: Traffic, n: nat, byteTimeout: bool, t: MsgType, timed: bool, l: Traffic)
    requires Behind(o, n, byteTimeout, t, timed, l)
    ensures var w := if timed then l else Awaken(l);
            && Behind(o, n, byteTimeout, t, timed, w)
            && w.now <= o.now[n..]
            && (timed || Awaken(w) == w)
            && (w.now == [] ==> n == |o.now| && Perceived(t, byteTimeout, AfterSilence(w)) == AfterSilence(o))
  {
    JoinedAwaken(l);
    JoinedFlat(if timed then l else Awaken(l));
    AwakenEnds(l);
  }

  lemma {:induction false} AwakenEnds(l: Traffic)
    ensures Awaken(l).now == [] ==> Awaken(l).later == []
    decreases |l.later|
  {
    if l.now == [] && l.later != [] {
      AwakenEnds(AfterSilence(l));
    }
  }

  lemma BehindReads(o: Traffic, n: nat, byteTimeout: bool, t: MsgType, timed: bool, w: Traffic, k: nat)
    requires Behind(o, n, byteTimeout, t, timed, w) && 1 <= k <= |w.now|
    requires w.now <= o.now[n..] && (t.Confirmation? ==> timed)
    requires timed || Awaken(w) == w
    ensures Behind(o, n + k, byteTimeout, t, timed || byteTimeout, w.(now := w.now[k..]))
  {
    var r := w.(now := w.now[k..]);
    if t.Indication? && !byteTimeout {
      if w.later != [] {
        assert AfterSilence(r) == AfterSilence(w);
        assert Joined(r).now == Joined(w).now[k..];
      }
    }
  }

  lemma BehindEnds(o: Traffic, n: nat, byteTimeout: bool, t: MsgType, timed: bool, l: Traffic)
    requires Behind(o, n, byteTimeout, t, timed, l) && 1 <= n
    ensures Perceived(t, byteTimeout, l) == o.(now := o.now[n..])
  {
    JoinedFlat(l);
  }

  /** The buffer holds the first n bytes of s, and behind them what it held before. */
  ghost predicate Buffered(msg: seq<byte>, before: seq<byte>, s: seq<byte>, n: nat) {
    n <= |msg| == |before| && n <= |s| && msg[..n] == s[..n] && msg[n..] == before[n..]
  }

  lemma BufferedStart(msg: seq<byte>, s: seq<byte>)
    ensures Buffered(msg, msg, s, 0)
  {
  }

  lemma BufferedParts(msg: seq<byte>, before: seq<byte>, s: seq<byte>, n: nat)
    requires Buffered(msg, before, s, n)
    ensures n <= |msg| == |before| && n <= |s| && msg[..n] == s[..n] && msg[n..] == before[n..]
    ensures forall i :: 0 <= i < n ==> msg[i] == s[i]
  {
    assert forall i :: 0 <= i < n ==> msg[..n][i] == s[..n][i];
  }

  lemma BufferedMore(msg: seq<byte>, before: seq<byte>, s: seq<byte>, n: nat, k: nat)
    requires Buffered(msg, before, s, n) && n + k <= |msg| && n + k <= |s|
    ensures Buffered(msg[..n] + s[n..n + k] + msg[n + k..], before, s, n + k)
  {
    assert s[..n + k] == s[..n] + s[n..n + k];
    assert msg[n + k..] == msg[n..][k..] && before[n + k..] == before[n..][k..];
  }

  lemma PrefixPart(w: seq<byte>, s: seq<byte>, n: nat, k: nat)
    requires n <= |s| && w <= s[n..] && k <= |w|
    ensures n + k <= |s| && w[..k] == s[n..n + k]
  {
  }

  /** One turn of the loop on the line: wait, then read into the buffer behind what it holds. */
  method ReadSome(byteTimeout: bool, t: MsgType, timed: bool, line: Line, msg: array<byte>, msgLength: nat,
                  lengthToRead: nat, ghost o: Traffic, ghost before: seq<byte>)
    returns (n: nat, ready: bool, inside: bool)
    requires Behind(o, msgLength, byteTimeout, t, timed, line.traffic) && (t.Confirmation? ==> timed)
    requires Buffered(msg[..], before, o.now, msgLength) && 0 < lengthToRead
    modifies line, msg
    ensures !ready ==>
              && msgLength == |o.now| && msg[..] == old(msg[..])
              && Perceived(t, byteTimeout, line.traffic) == AfterSilence(o)
    ensures ready ==> 1 <= n <= lengthToRead && msgLength + n <= |o.now| && (inside <==> msgLength + n <= msg.Length)
    ensures ready && inside ==>
              && Behind(o, msgLength + n, byteTimeout, t, timed || byteTimeout, line.traffic)
              && Buffered(msg[..], before, o.now, msgLength + n)
  {
    hide Behind, Perceived, Awaken, AfterSilence, Buffered;
    ghost var held := msg[..];
    n, inside := 0, true;
    BehindWaits(o, msgLength, byteTimeout, t, timed, line.traffic);
    BufferedParts(held, before, o.now, msgLength);
    ready := line.Select(timed);
    if ready {
      ghost var w := line.traffic;
      n, inside := line.Recv(msg, msgLength, lengthToRead);
      if inside {
        PrefixPart(w.now, o.now, msgLength, n);
        BufferedMore(held, before, o.now, msgLength, n);
        BehindReads(o, msgLength, byteTimeout, t, timed, w, n);
      }
    }
  }

  /** What a call comes to, by the outcome of the one-shot parse. */
  lemma CallEnds(b: Backend, slave: byte, t: MsgType, l: Traffic)
    ensures var o := Opening(t, l);
            match Parse(b, t, o.now)
            case Short =>
              && Stored(b, t, l) == |o.now| && Delivered(b, t, l) == []
              && ReceiveResult(b, slave, t, l) == -1 && ReceiveErrno(b, t, l) == NO_REPLY
              && Remaining(b, t, l) == AfterSilence(o)
            case TooLong(k) =>
              && Stored(b, t, l) == k && Delivered(b, t, l) == []
              && ReceiveResult(b, slave, t, l) == -1 && ReceiveErrno(b, t, l) == EMBBADDATA
              && Remaining(b, t, l) == o.(now := o.now[k..])
            case Complete(n) =>
              && Stored(b, t, l) == n && 3 <= n && Delivered(b, t, l) == o.now[..n]
              && ReceiveResult(b, slave, t, l) == CheckIntegrity(b, slave, o.now[..n]) && ReceiveErrno(b, t, l) == EMBBADCRC
              && Remaining(b, t, l) == o.(now := o.now[n..])
  {
    hide Parse, CheckIntegrity, Opening;
  }

  /**
   * _modbus_receive_msg, into a buffer of any size. It stays inside the buffer if and only if Stored bytes
   * fit; and then the result, the bytes stored and the bytes left on the line do not depend on how the line
   * hands out its bytes: they are those of the one-shot parse.
   */
  method ReceiveMsg(b: Backend, slave: byte, byteTimeout: bool, t: MsgType, line: Line, msg: array<byte>)
    returns (rc: int, errno: int, inside: bool)
    modifies line, msg
    ensures var l := Perceived(t, byteTimeout, old(line.traffic));
            inside <==> Stored(b, t, l) <= msg.Length
    ensures var l := Perceived(t, byteTimeout, old(line.traffic));
            inside ==>
              && rc == ReceiveResult(b, slave, t, l)
              && (rc == -1 ==> errno == ReceiveErrno(b, t, l))
              && Perceived(t, byteTimeout, line.traffic) == Remaining(b, t, l)
              && msg[..Stored(b, t, l)] == Opening(t, l).now[..Stored(b, t, l)]
              && msg[Stored(b, t, l)..] == old(msg[Stored(b, t, l)..])
              && |Delivered(b, t, l)| <= msg.Length && msg[..|Delivered(b, t, l)|] == Delivered(b, t, l)
  {
    hide Parse, CheckIntegrity, Reading, ReadyFor, StepsLeft, Behind, Perceived, Awaken, Opening, Stored, Remaining,
         ReceiveResult, ReceiveErrno, AfterSilence, Buffered, Delivered;
    ghost var l := Perceived(t, byteTimeout, line.traffic);
    ghost var o := Opening(t, l);
    ghost var s, before := o.now, msg[..];
    var msgLength: nat := 0;
    var step := Function;
    var lengthToRead: nat := b.HeaderLength() + 1;
    var timed := t == Confirmation;
    StartsReading(b, t, s);
    CallEnds(b, slave, t, l);
    BehindStart(byteTimeout, t, line.traffic);
    BufferedStart(before, s);
    while lengthToRead != 0
      invariant Reading(b, t, s, step, msgLength, lengthToRead)
      invariant Behind(o, msgLength, byteTimeout, t, timed, line.traffic)
      invariant Buffered(msg[..], before, s, msgLength)
      invariant t.Confirmation? ==> timed
      invariant lengthToRead == 0 ==> 1 <= msgLength
      decreases StepsLeft(step), lengthToRead
    {
      var n, ready;
      n, ready, inside := ReadSome(byteTimeout, t, timed, line, msg, msgLength, lengthToRead, o, before);
      if !ready {
        EndsShort(b, t, s, step, lengthToRead);
        BufferedParts(msg[..], before, s, msgLength);
        return -1, NO_REPLY, true;
      }
      ReadIsStored(b, t, l, step, msgLength, lengthToRead, n);
      if !inside {
        return -1, NO_REPLY, false;
      }
      ReadMore(b, t, s, step, msgLength, lengthToRead, n);
      msgLength := msgLength + n;
      lengthToRead := lengthToRead - n;
      // A byte timeout replaces whatever timeout there was; without one it stays.
      timed := timed || byteTimeout;
      BufferedParts(msg[..], before, s, msgLength);
      if lengthToRead == 0 {
        var tooLong;
        step, lengthToRead, tooLong := NextStep(b, t, msg, msgLength, step, s);
        if tooLong {
          BehindEnds(o, msgLength, byteTimeout, t, timed, line.traffic);
          return -1, EMBBADDATA, true;
        }
      }
    }
    EndsComplete(b, t, s, step, msgLength);
    BehindEnds(o, msgLength, byteTimeout, t, timed, line.traffic);
    BufferedParts(msg[..], before, s, msgLength);
    inside := true;
    rc, errno := CheckIntegrityOf(b, slave, msg, msgLength);
  }
}
