/**
 * TCP with timeouts: replies may arrive after the client has gone on to other requests. The wrapping
 * 16-bit transaction identifier is all that keeps a late reply from being taken for a current one.
 */
module TransactionIds {
  import opened Bytes
  import opened BitTables
  import opened Errors
  import opened Backends
  import opened Receive
  import opened Memory
  import opened Protocol
  import opened Refinement
  import opened Lengths

  /** A reply on its way to the client, with the number of the request it answers. */
  datatype Flight = Flight(index: nat, frame: seq<byte>)

  /**
   * One connection. Requests are numbered from 0; before[i] are the tables when request i was served. Where
   * a reply would be stored outside the client's buffer nothing is known of the program: the run stops.
   */
  datatype Net = Net(
    slave: byte,
    tid: word,
    calls: seq<Call>,
    before: seq<Tables>,
    tables: Tables,
    wire: seq<Flight>,
    stopped: bool)

  datatype Event =
    | ClientSends(call: Call)    // the next request, whether or not earlier ones have been given up
    | ServerReplies              // to the oldest request not yet answered
    | ClientReceives             // takes the next reply off the connection
    | ClientFlushes(n: nat)      // discards replies that have arrived

  /** The identifier carried by request number i: the counter starts at 0 and is advanced first. */
  function TidOfRequest(i: nat): word { (i + 1) % 0x1_0000 }

  function RequestOf(net: Net, i: nat): seq<byte>
    requires i < |net.calls|
  {
    RequestFrame(TCP, TidOfRequest(i), net.slave, net.calls[i])
  }

  function Stream(wire: seq<Flight>): seq<byte> {
    if wire == [] then [] else wire[0].frame + Stream(wire[1..])
  }

  /** What the latest call stores on receiving the next reply stays inside its buffer. */
  predicate FitsBuffer(net: Net)
    requires net.calls != []
  {
    Stored(TCP, Confirmation, Traffic(Stream(net.wire), [])) <= ReplyCapacity(net.calls[|net.calls| - 1])
  }

  /** One event; one that is not possible leaves everything as it is. */
  function Next(net: Net, e: Event): Net {
    if net.stopped then net
    else
      match e
      case ClientSends(c) =>
        if WithinLimits(c) then net.(tid := NextTid(net.tid), calls := net.calls + [c]) else net
      case ServerReplies =>
        var i := |net.before|;
        if i < |net.calls| then
          var (frame, t') := ServerTurn(TCP, net.slave, RequestFrame(TCP, TidOfRequest(i), net.slave, net.calls[i]), net.tables);
          net.(before := net.before + [net.tables], tables := t', wire := net.wire + [Flight(i, frame)])
        else net
      case ClientReceives =>
        if net.wire == [] || net.calls == [] then net
        else if FitsBuffer(net) then net.(wire := net.wire[1..])
        else net.(stopped := true)
      case ClientFlushes(n) => if n <= |net.wire| then net.(wire := net.wire[n..]) else net
  }

  function Run(net: Net, events: seq<Event>): Net
    decreases |events|
  {
    if events == [] then net else Run(Next(net, events[0]), events[1..])
  }

  function Start(slave: byte, t: Tables): Net { Net(slave, 0, [], [], t, [], false) }

  /** A flight is the server's answer to the request with its number, given the tables at that time. */
  ghost predicate Genuine(net: Net, f: Flight) {
    && f.index < |net.before| <= |net.calls|
    && f.frame == ServerTurn(TCP, net.slave, RequestOf(net, f.index), net.before[f.index]).0
  }

  ghost predicate Inv(net: Net) {
    && |net.before| <= |net.calls|
    && net.tid == |net.calls| % 0x1_0000
    && WellFormed(net.tables)
    && (forall i :: 0 <= i < |net.before| ==> WellFormed(net.before[i]))
    && (forall i :: 0 <= i < |net.calls| ==> WithinLimits(net.calls[i]))
    && (forall f :: f in net.wire ==> Genuine(net, f))
    && |net.wire| <= |net.before|
    && (forall j :: 0 <= j < |net.wire| ==> net.wire[j].index == |net.before| - |net.wire| + j)
  }

  lemma CounterAdvances(n: nat)
    ensures NextTid(n % 0x1_0000) == (n + 1) % 0x1_0000 == TidOfRequest(n)
  {
  }

  lemma SendKeeps(net: Net, c: Call)
    requires Inv(net)
    ensures Inv(Next(net, ClientSends(c)))
  {
    CounterAdvances(|net.calls|);
    hide ServerTurn, RequestFrame, WithinLimits, WellFormed;
    var net' := Next(net, ClientSends(c));
    forall f | f in net'.wire
      ensures Genuine(net', f)
    {
      assert Genuine(net, f);
    }
  }

  lemma ServeKeeps(net: Net)
    requires Inv(net)
    ensures Inv(Next(net, ServerReplies))
  {
    hide ServerTurn, RequestFrame, WithinLimits, WellFormed, Perform, Expected, Frame, TidOfRequest, ReplyPdu, RequestPdu;
    var i := |net.before|;
    if i < |net.calls| {
      ServerTurnRefines(TCP, TidOfRequest(i), net.slave, net.calls[i], net.tables);
      ExpectedTables(net.calls[i], net.tables);
      PerformWellFormed(net.calls[i], net.tables);
      var net' := Next(net, ServerReplies);
      forall f | f in net'.wire
        ensures Genuine(net', f)
      {
        if f in net.wire {
          assert Genuine(net, f);
        }
      }
    }
  }

  lemma DropKeeps(net: Net, n: nat)
    requires Inv(net) && n <= |net.wire|
    ensures Inv(net.(wire := net.wire[n..]))
  {
    hide ServerTurn, RequestFrame, WithinLimits, WellFormed;
    var net' := net.(wire := net.wire[n..]);
    forall f | f in net'.wire
      ensures Genuine(net', f)
    {
      assert Genuine(net, f);
    }
  }

  lemma ReceiveKeeps(net: Net)
    requires Inv(net)
    ensures Inv(Next(net, ClientReceives))
  {
    hide ServerTurn, RequestFrame, WithinLimits, WellFormed, FitsBuffer;
    if net.wire != [] {
      DropKeeps(net, 1);
    }
    var net' := net.(stopped := true);
    forall f | f in net.wire
      ensures Genuine(net', f)
    {
      assert Genuine(net, f);
    }
  }

  /** The invariant of every run. */
  lemma {:induction false} RunKeeps(net: Net, events: seq<Event>)
    requires Inv(net)
    ensures Inv(Run(net, events))
    decreases |events|
  {
    hide Inv;
    if events != [] {
      match events[0] {
        case ClientSends(c) => SendKeeps(net, c);
        case ServerReplies => ServeKeeps(net);
        case ClientReceives => ReceiveKeeps(net);
        case ClientFlushes(n) => if n <= |net.wire| { DropKeeps(net, n); }
      }
      RunKeeps(Next(net, events[0]), events[1..]);
    }
  }

  lemma StartInv(slave: byte, t: Tables)
    requires WellFormed(t)
    ensures Inv(Start(slave, t))
  {
  }

  // ---------- What the tables hold ----------

  /** Each request was served on what the ideal memory t holds after the calls before it. */
  ghost predicate History(net: Net, t: Tables) {
    && |net.before| <= |net.calls|
    && (forall i :: 0 <= i < |net.before| ==> net.before[i] == PerformAll(net.calls[..i], t).1)
    && net.tables == PerformAll(net.calls[..|net.before|], t).1
  }

  lemma {:induction false} PerformThen(calls: seq<Call>, c: Call, t: Tables)
    ensures PerformAll(calls + [c], t).1 == Perform(c, PerformAll(calls, t).1).1
    decreases |calls|
  {
    hide Perform;
    if calls == [] {
      assert [] + [c] == [c] && [c][1..] == [];
    } else {
      assert (calls + [c])[1..] == calls[1..] + [c];
      PerformThen(calls[1..], c, Perform(calls[0], t).1);
    }
  }

  lemma SendHistory(net: Net, c: Call, t: Tables)
    requires History(net, t)
    ensures History(Next(net, ClientSends(c)), t)
  {
    hide PerformAll, WithinLimits;
    var calls' := net.calls + [c];
    assert forall i :: 0 <= i <= |net.calls| ==> calls'[..i] == net.calls[..i];
  }

  lemma ServeHistory(net: Net, t: Tables)
    requires Inv(net) && History(net, t)
    ensures History(Next(net, ServerReplies), t)
  {
    hide PerformAll, ServerTurn, RequestFrame, WithinLimits, WellFormed, Perform, Expected, Frame, TidOfRequest, ReplyPdu,
         RequestPdu, Genuine;
    var i := |net.before|;
    if i < |net.calls| {
      ServerTurnRefines(TCP, TidOfRequest(i), net.slave, net.calls[i], net.tables);
      ExpectedTables(net.calls[i], net.tables);
      PerformThen(net.calls[..i], net.calls[i], t);
      assert net.calls[..i + 1] == net.calls[..i] + [net.calls[i]];
    }
  }

  lemma NextHistory(net: Net, e: Event, t: Tables)
    requires Inv(net) && History(net, t)
    ensures History(Next(net, e), t)
  {
    match e {
      case ClientSends(c) => SendHistory(net, c, t);
      case ServerReplies => ServeHistory(net, t);
      case ClientReceives => hide FitsBuffer, PerformAll, Inv;
      case ClientFlushes(_) => hide FitsBuffer, PerformAll, Inv;
    }
  }

  lemma {:induction false} RunHistory(net: Net, events: seq<Event>, t: Tables)
    requires Inv(net) && History(net, t)
    ensures History(Run(net, events), t)
    decreases |events|
  {
    hide Inv, History, Next;
    if events != [] {
      NextHistory(net, events[0], t);
      NextKeeps(net, events[0]);
      RunHistory(Next(net, events[0]), events[1..], t);
    }
  }

  /**
   * Over every run from the start, with any requests given up, any replies late or discarded: the server has
   * done what an ideal memory does with the calls in the order in which they were sent.
   */
  lemma TablesFollowCalls(slave: byte, t: Tables, events: seq<Event>)
    requires WellFormed(t)
    ensures History(Run(Start(slave, t), events), t)
  {
    hide WellFormed, Inv, Run;
    StartInv(slave, t);
    RunHistory(Start(slave, t), events, t);
  }

  // ---------- What the client takes for the answer to its latest request ----------

  lemma SameTid(m: nat, n: nat)
    requires m <= n
    ensures TidOfRequest(m) == TidOfRequest(n) <==> (n - m) % 0x1_0000 == 0
  {
    var d := n - m;
    assert n + 1 == (m + 1) + d;
    if d % 0x1_0000 == 0 {
      assert d == 0x1_0000 * (d / 0x1_0000);
    }
  }

  lemma InFlight(net: Net, f: Flight)
    requires Inv(net) && f in net.wire
    ensures Genuine(net, f) && WithinLimits(net.calls[f.index]) && WithinLimits(net.calls[|net.calls| - 1])
  {
    hide ServerTurn, RequestFrame, WithinLimits, WellFormed;
    assert Genuine(net, f);
  }

  /** The identifier of a genuine flight is that of its request. */
  lemma FlightTid(net: Net, f: Flight)
    requires Inv(net) && f in net.wire
    ensures 7 <= |f.frame| && TidOf(TCP, f.frame) == TidOfRequest(f.index)
  {
    assert Genuine(net, f);
    var i := f.index;
    ServerTurnRefines(TCP, TidOfRequest(i), net.slave, net.calls[i], net.before[i]);
    FrameParts(TCP, TidOfRequest(i), [0, 0], net.slave, ReplyPdu(RequestPdu(net.calls[i]), Expected(net.calls[i], net.before[i]).0));
    hide ServerTurn, RequestFrame, Frame, Expected, RequestPdu, ReplyPdu, TidOf, TidOfRequest;
  }

  lemma PreCheckIsTid(req: seq<byte>, rsp: seq<byte>)
    requires 7 <= |req| && 7 <= |rsp|
    ensures PreCheck(TCP, req, rsp) <==> TidOf(TCP, req) == TidOf(TCP, rsp)
  {
    HalvesOfWord(req[0], req[1]);
    HalvesOfWord(rsp[0], rsp[1]);
  }

  /**
   * In every reachable state, exactly the replies to requests a multiple of 65536 before the latest one
   * get past the transaction identifier check.
   */
  lemma TidCheckExact(net: Net, f: Flight)
    requires Inv(net) && f in net.wire
    ensures f.index < |net.calls| && 7 <= |f.frame|
    ensures PreCheck(TCP, RequestOf(net, |net.calls| - 1), f.frame) <==> (|net.calls| - 1 - f.index) % 0x1_0000 == 0
  {
    hide Inv, ServerTurn, RequestFrame, TidOf, TidOfRequest, PreCheck, WithinLimits;
    InFlight(net, f);
    FlightTid(net, f);
    var n := |net.calls| - 1;
    RequestArrives(TCP, TidOfRequest(n), net.slave, net.calls[n]);
    PreCheckIsTid(RequestOf(net, n), f.frame);
    SameTid(f.index, n);
  }

  /** The flights on the wire are replies to the latest 65536 requests. */
  predicate Recent(net: Net) {
    forall i :: 0 <= i < |net.wire| ==> |net.calls| - net.wire[i].index <= 0x1_0000
  }

  // ---------- The buffer that takes the next reply ----------

  /** Reads more than fits a reply of twelve bytes: over 24 bits, or over one register. */
  predicate ReadsMuch(c: Call) {
    match c
    case ReadBits(_, nb) => nb > 24
    case ReadInputBits(_, nb) => nb > 24
    case ReadRegisters(_, nb) => nb > 1
    case ReadInputRegisters(_, nb) => nb > 1
    case WriteAndRead(_, _, _, nb) => nb > 1
    case _ => false
  }

  /** The flight is a normal answer to a call that reads much. */
  predicate Overlong(net: Net, f: Flight)
    requires f.index < |net.before| <= |net.calls|
  {
    InRange(net.calls[f.index], net.before[f.index]) && ReadsMuch(net.calls[f.index])
  }

  /** In every reachable state: a reply in flight exceeds twelve bytes if and only if it is overlong. */
  lemma FlightLength(net: Net, f: Flight)
    requires Inv(net) && f in net.wire
    ensures f.index < |net.before| <= |net.calls|
    ensures |f.frame| > MIN_REQ_LENGTH <==> Overlong(net, f)
    ensures |f.frame| <= MAX_MESSAGE_LENGTH
    ensures InRange(net.calls[f.index], net.before[f.index]) ==> |f.frame| == TCP.HeaderLength() + CallLength(net.calls[f.index])
  {
    hide ServerTurn, RequestFrame, InRange, WellFormed, WithinLimits, Parse, ComputeResponseLength, MbapAgrees, ReadsMuch,
         CallLength, TidOfRequest;
    assert Genuine(net, f);
    var i := f.index;
    CallReplyLengths(TCP, TidOfRequest(i), net.slave, net.calls[i], net.before[i]);
    MuchIsLong(net.calls[i]);
  }

  lemma MuchIsLong(c: Call)
    ensures ReadsMuch(c) <==> TCP.HeaderLength() + CallLength(c) > MIN_REQ_LENGTH
  {
    if c.ReadBits? || c.ReadInputBits? {
      ThreeBytes(c.nb);
    }
    hide ByteCount;
  }

  lemma ThreeBytes(n: nat)
    ensures ByteCount(n) > 3 <==> n > 24
  {
  }

  /** The next reply fits the buffer of the latest call unless that is a single write and the reply overlong. */
  lemma FitsExactly(net: Net)
    requires Inv(net) && net.wire != []
    ensures net.calls != [] && net.wire[0].index < |net.before| <= |net.calls|
    ensures var c := net.calls[|net.calls| - 1];
            FitsBuffer(net) <==> !((c.WriteBit? || c.WriteRegister?) && Overlong(net, net.wire[0]))
  {
    hide Inv, Overlong, Stored, Stream;
    FlightLength(net, net.wire[0]);
    StreamDelivers(net);
  }

  // ---------- Late-reply safety ----------

  /**
   * The next reply fits the buffer of the latest call unless that is a single write and the reply overlong.
   * If it fits, it is either refused for its identifier, or it answers the very request that was sent
   * last, and then it means what an ideal memory returns for that call after all the calls before it.
   */
  predicate NextReplySafe(net: Net, t: Tables)
    requires net.wire != [] && net.calls != []
    requires net.wire[0].index < |net.before| <= |net.calls|
  {
    var f, last := net.wire[0], |net.calls| - 1;
    var c := net.calls[last];
    && (FitsBuffer(net) <==> !((c.WriteBit? || c.WriteRegister?) && Overlong(net, f)))
    && (f.index == last ==> FitsBuffer(net))
    && (FitsBuffer(net) ==>
          && WholeReply(TCP, f.frame)
          && (f.index != last ==> CheckConfirmation(TCP, RequestOf(net, last), f.frame) == Refused(EMBBADDATA))
          && (f.index == last ==>
                ClientTurn(TCP, net.slave, c, RequestOf(net, last), f.frame) == Perform(c, PerformAll(net.calls[..last], t).1).0))
  }

  lemma RecentSafe(net: Net, t: Tables)
    requires Inv(net) && History(net, t) && Recent(net) && net.wire != []
    ensures net.calls != [] && net.wire[0].index < |net.before| <= |net.calls|
    ensures NextReplySafe(net, t)
  {
    hide Inv, ServerTurn, RequestFrame, ClientTurn, PreCheck, Perform, Parse, CheckConfirmation, TidOfRequest, FitsBuffer, InRange;
    var f := net.wire[0];
    InFlight(net, f);
    var last := |net.calls| - 1;
    GenuinePasses(net, f);
    TidCheckExact(net, f);
    FitsExactly(net);
    if f.index != last {
      assert 0 < last - f.index < 0x1_0000;
      RefusedForTid(RequestOf(net, last), f.frame);
    }
  }

  /**
   * Late-reply safety, for every run from the start that has not stopped: it is enough that no reply in
   * flight is older than the latest 65536 requests.
   */
  lemma LateReplySafety(slave: byte, t: Tables, events: seq<Event>)
    requires WellFormed(t)
    requires !Run(Start(slave, t), events).stopped
    requires Recent(Run(Start(slave, t), events)) && Run(Start(slave, t), events).wire != []
    ensures var net := Run(Start(slave, t), events);
            net.calls != [] && net.wire[0].index < |net.before| <= |net.calls| && NextReplySafe(net, t)
  {
    hide WellFormed, Recent, Run, NextReplySafe, Inv, History;
    StartInv(slave, t);
    RunKeeps(Start(slave, t), events);
    TablesFollowCalls(slave, t, events);
    RecentSafe(Run(Start(slave, t), events), t);
  }

  /** A read of 125 registers is given up and a coil written; then the read is answered. */
  const LATE_READ: seq<Event> := [ClientSends(Call.ReadRegisters(0, 125)), ClientSends(Call.WriteBit(0, true)), ServerReplies]

  /**
   * So the twelve bytes of write_single are too few: in this run the reply in flight is recent, and its
   * identifier is wrong, but its 259 bytes are stored before that is looked at.
   */
  lemma LateReadOverruns(slave: byte, t: Tables)
    requires WellFormed(t) && 125 <= |t.registers|
    ensures var net := Run(Start(slave, t), LATE_READ);
            && |net.calls| == 2 && net.wire != [] && Recent(net)
            && Stored(TCP, Confirmation, Traffic(Stream(net.wire), [])) == 259
            && !net.stopped && !FitsBuffer(net)
    ensures Run(Start(slave, t), LATE_READ + [ClientReceives]).stopped
  {
    hide Run, Inv, Stored, Stream, Next, WellFormed, FitsBuffer, LATE_READ;
    var net := Run(Start(slave, t), LATE_READ);
    LateReadState(slave, t);
    StartInv(slave, t);
    RunKeeps(Start(slave, t), LATE_READ);
    FlightLength(net, net.wire[0]);
    FitsExactly(net);
    StreamDelivers(net);
    RunThen(Start(slave, t), LATE_READ, ClientReceives);
    StopsAt(net, ClientReceives);
  }

  lemma {:induction false} RunThen(net: Net, events: seq<Event>, e: Event)
    ensures Run(net, events + [e]) == Next(Run(net, events), e)
    decreases |events|
  {
    hide Next;
    if events == [] {
      assert [] + [e] == [e] && [e][1..] == [];
    } else {
      assert (events + [e])[1..] == events[1..] + [e];
      RunThen(Next(net, events[0]), events[1..], e);
    }
  }

  lemma LateReadState(slave: byte, t: Tables)
    ensures var net := Run(Start(slave, t), LATE_READ);
            && net.calls == [Call.ReadRegisters(0, 125), Call.WriteBit(0, true)] && net.before == [t]
            && |net.wire| == 1 && net.wire[0].index == 0 && !net.stopped
  {
    hide ServerTurn, RequestFrame, FitsBuffer;
    var s1 := Next(Start(slave, t), LATE_READ[0]);
    var s2 := Next(s1, LATE_READ[1]);
    assert LATE_READ[1..] == [LATE_READ[1], LATE_READ[2]];
    assert LATE_READ[1..][1..] == [LATE_READ[2]];
    assert Run(s2, [LATE_READ[2]]) == Next(s2, LATE_READ[2]);
  }

  // ---------- Runs that do not stop ----------

  /** The client, latest in a single write, takes an overlong reply off the connection. */
  predicate OverrunsAt(net: Net, e: Event) {
    && e.ClientReceives? && net.wire != [] && net.calls != []
    && net.wire[0].index < |net.before| <= |net.calls|
    && (net.calls[|net.calls| - 1].WriteBit? || net.calls[|net.calls| - 1].WriteRegister?)
    && Overlong(net, net.wire[0])
  }

  ghost predicate Overruns(net: Net, events: seq<Event>) {
    exists k :: 0 <= k < |events| && OverrunsAt(Run(net, events[..k]), events[k])
  }

  lemma {:induction false} StoppedStays(net: Net, events: seq<Event>)
    requires net.stopped
    ensures Run(net, events) == net
    decreases |events|
  {
    if events != [] {
      StoppedStays(net, events[1..]);
    }
  }

  lemma StopsAt(net: Net, e: Event)
    requires Inv(net) && !net.stopped
    ensures Next(net, e).stopped <==> OverrunsAt(net, e)
  {
    hide Inv, FitsBuffer, Overlong, ServerTurn, RequestFrame;
    if e.ClientReceives? && net.wire != [] {
      FitsExactly(net);
    }
  }

  lemma NextKeeps(net: Net, e: Event)
    requires Inv(net)
    ensures Inv(Next(net, e))
  {
    RunKeeps(net, [e]);
    hide Inv, Next;
  }

  lemma {:induction false} StopsExactly(net: Net, events: seq<Event>)
    requires Inv(net) && !net.stopped
    ensures Run(net, events).stopped <==> Overruns(net, events)
    decreases |events|
  {
    hide Inv, Next, OverrunsAt;
    if events != [] {
      var e, rest, next := events[0], events[1..], Next(net, events[0]);
      StopsAt(net, e);
      NextKeeps(net, e);
      assert Run(net, events[..0]) == net;
      if next.stopped {
        StoppedStays(next, rest);
      } else {
        StopsExactly(next, rest);
        forall k | 0 <= k < |rest|
          ensures Run(net, events[..k + 1]) == Run(next, rest[..k]) && events[k + 1] == rest[k]
        {
          assert events[..k + 1][1..] == rest[..k];
        }
        if Overruns(net, events) {
          var k :| 0 <= k < |events| && OverrunsAt(Run(net, events[..k]), events[k]);
          assert k > 0 && OverrunsAt(Run(next, rest[..k - 1]), rest[k - 1]);
        }
        if Overruns(next, rest) {
          var k :| 0 <= k < |rest| && OverrunsAt(Run(next, rest[..k]), rest[k]);
          assert OverrunsAt(Run(net, events[..k + 1]), events[k + 1]);
        }
      }
    }
  }

  /**
   * A run from the start stays inside all reply buffers if and only if the client never takes an overlong
   * reply off the connection while its latest call is a single write.
   */
  lemma RunStaysInside(slave: byte, t: Tables, events: seq<Event>)
    requires WellFormed(t)
    ensures !Run(Start(slave, t), events).stopped <==> !Overruns(Start(slave, t), events)
  {
    hide WellFormed, Inv;
    StartInv(slave, t);
    StopsExactly(Start(slave, t), events);
  }

  lemma RefusedForTid(req: seq<byte>, rsp: seq<byte>)
    requires 12 <= |req| && WholeReply(TCP, rsp) && !PreCheck(TCP, req, rsp)
    ensures CheckConfirmation(TCP, req, rsp) == Refused(EMBBADDATA)
  {
    hide PreCheck, Parse;
  }

  /** A genuine flight is delivered whole, and against its own request it is understood. */
  lemma GenuinePasses(net: Net, f: Flight)
    requires Inv(net) && Genuine(net, f)
    ensures f.frame != [] && Parse(TCP, Confirmation, f.frame) == Complete(|f.frame|)
    ensures ClientTurn(TCP, net.slave, net.calls[f.index], RequestOf(net, f.index), f.frame)
            == Perform(net.calls[f.index], net.before[f.index]).0
  {
    var i := f.index;
    var c, t := net.calls[i], net.before[i];
    var p := RequestCarries(c);
    ServerTurnRefines(TCP, TidOfRequest(i), net.slave, c, t);
    ReplyUnderstood(p, c, t);
    ReplyPasses(TCP, TidOfRequest(i), net.slave, c, ReplyPdu(p, Expected(c, t).0), Perform(c, t).0);
    ClientTurnUnderstands(TCP, TidOfRequest(i), net.slave, c, ReplyPdu(p, Expected(c, t).0), Perform(c, t).0);
    hide ServerTurn, ClientTurn, RequestFrame, Frame, Expected, RequestPdu, ReplyPdu, TidOfRequest, Perform, Understood, Carries, Parse, Delivered, CheckConfirmation, CheckPdu, CheckIntegrity, PduOf, WellFormed, WithinLimits;
  }

  // ---------- The bytes of the connection ----------

  /** The receiver takes the replies off the byte stream one by one. */
  lemma StreamDelivers(net: Net)
    requires Inv(net) && net.wire != []
    ensures Delivered(TCP, Confirmation, Traffic(Stream(net.wire), [])) == net.wire[0].frame
    ensures Stored(TCP, Confirmation, Traffic(Stream(net.wire), [])) == |net.wire[0].frame|
    ensures Remaining(TCP, Confirmation, Traffic(Stream(net.wire), [])) == Traffic(Stream(net.wire[1..]), [])
  {
    assert Genuine(net, net.wire[0]);
    GenuinePasses(net, net.wire[0]);
    FrameDelivered(TCP, Confirmation, net.wire[0].frame, Stream(net.wire[1..]), []);
    hide ServerTurn, ClientTurn, RequestFrame, Parse, Delivered, Remaining, Stored;
  }

  /** Unless it ends the run, a reception leaves on the connection what the receiver leaves in the byte stream. */
  lemma ReceivesOne(net: Net)
    requires Inv(net) && net.wire != [] && !Next(net, ClientReceives).stopped
    ensures Remaining(TCP, Confirmation, Traffic(Stream(net.wire), [])) == Traffic(Stream(Next(net, ClientReceives).wire), [])
    ensures |Next(net, ClientReceives).wire| == |net.wire| - 1
  {
    hide Remaining, Delivered, Stored, FitsBuffer;
    StreamDelivers(net);
    hide Stream;
    assert net.calls != [];
  }

  // ---------- The bound is sharp ----------

  function Sends(n: nat, c: Call): seq<Event> {
    if n == 0 then [] else [ClientSends(c)] + Sends(n - 1, c)
  }

  lemma {:induction false} RunSends(net: Net, n: nat, c: Call)
    requires WithinLimits(c) && !net.stopped
    ensures var net' := Run(net, Sends(n, c));
            && !net'.stopped && net'.wire == net.wire && net'.slave == net.slave && net'.before == net.before
            && net'.calls == net.calls + seq(n, _ => c)
    decreases n
  {
    hide WithinLimits;
    if n > 0 {
      var events := Sends(n, c);
      assert events[1..] == Sends(n - 1, c);
      RunSends(Next(net, ClientSends(c)), n - 1, c);
    }
  }

  /** A run in which the reply to request 0 is still in flight when n further requests have been sent. */
  function WrapRun(c: Call, n: nat): seq<Event> { [ClientSends(c), ServerReplies] + Sends(n, c) }

  lemma WrapState(slave: byte, t: Tables, c: Call, n: nat)
    requires WellFormed(t) && WithinLimits(c)
    ensures var net := Run(Start(slave, t), WrapRun(c, n));
            && Inv(net) && net.slave == slave
            && net.calls == [c] + seq(n, _ => c) && net.before == [t]
            && !net.stopped && |net.wire| == 1 && net.wire[0].index == 0
  {
    hide WellFormed, WithinLimits, ServerTurn, RequestFrame, Inv;
    var s0 := Start(slave, t);
    var s1 := Next(s0, ClientSends(c));
    var s2 := Next(s1, ServerReplies);
    var events := WrapRun(c, n);
    assert events[1..] == [ServerReplies] + Sends(n, c);
    assert events[1..][1..] == Sends(n, c);
    RunSends(s2, n, c);
    StartInv(slave, t);
    RunKeeps(s0, events);
  }

  /**
   * After 65536 further requests, or a multiple of that, the late reply carries the identifier of the
   * current one: the client takes what the tables held at the first request for the answer to a request
   * not even served.
   */
  lemma WrapAccepted(slave: byte, t: Tables, c: Call, n: nat)
    requires WellFormed(t) && WithinLimits(c) && n > 0 && n % 0x1_0000 == 0
    ensures var net := Run(Start(slave, t), WrapRun(c, n));
            && |net.calls| == n + 1 && net.before == [t]
            && !net.stopped && |net.wire| == 1 && net.wire[0].index == 0
            && FitsBuffer(net)
            && ClientTurn(TCP, slave, net.calls[n], RequestOf(net, n), net.wire[0].frame) == Perform(c, t).0
  {
    hide *;
    WrapState(slave, t, c, n);
    var net := Run(Start(slave, t), WrapRun(c, n));
    WrapCalls(net, c, n);
    OnWire(net);
    FitsExactly(net);
    if c.WriteBit? || c.WriteRegister? {
      WritesAreShort(net, net.wire[0]);
    }
    GenuinePasses(net, net.wire[0]);
  }

  lemma WritesAreShort(net: Net, f: Flight)
    requires f.index < |net.before| <= |net.calls|
    requires net.calls[f.index].WriteBit? || net.calls[f.index].WriteRegister?
    ensures !Overlong(net, f)
  {
  }

  lemma WrapCalls(net: Net, c: Call, n: nat)
    requires net.calls == [c] + seq(n, _ => c) && n % 0x1_0000 == 0
    ensures |net.calls| == n + 1 && net.calls[0] == net.calls[n] == c
    ensures RequestOf(net, 0) == RequestOf(net, n)
  {
    hide RequestFrame, TidOfRequest;
    SameTid(0, n);
  }

  lemma OnWire(net: Net)
    requires Inv(net) && net.wire != []
    ensures Genuine(net, net.wire[0])
  {
    hide Genuine;
  }
}
