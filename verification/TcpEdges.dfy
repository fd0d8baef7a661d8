/** Corners of the TCP engine: which data is acknowledged but never delivered, which connections can
    never send, and which slots are lost. */
module TcpEdges {
  import opened Bytes
  import opened Tcp
  import opened TcpTable

  /** In-order data is acknowledged without a callback, so that the application never sees it, exactly
      in the two states after our FIN in which the peer may still send. */
  lemma DiscardedExactly(c: Conn, slen: u16, seg: Segment, area: seq<byte>, calls: seq<AppCall>, tcpMss: u16)
    requires Room(c, area) && Fits(calls, area) && tcpMss <= |area|
    requires DataLen(seg) > 0 && !OutOfOrder(c, seg) && !seg.flags.rst && !seg.flags.fin && !seg.flags.urg
    ensures var s := Arrive(c, slen, seg, area, calls, tcpMss);
      s.c.rcvNxt != c.rcvNxt && s.call == None <==> c.state in {FIN_WAIT_1, FIN_WAIT_2}
    ensures c.state in {FIN_WAIT_1, FIN_WAIT_2} ==>
      Arrive(c, slen, seg, area, calls, tcpMss).c.rcvNxt == Plus(c.rcvNxt, DataLen(seg))
  {
    if c.state in {FIN_WAIT_1, FIN_WAIT_2} && Plus(c.rcvNxt, DataLen(seg)) == c.rcvNxt {
      PlusZero(c.rcvNxt);
      PlusInjective(c.rcvNxt, 0, DataLen(seg));
    }
  }

  // ----- which bytes the application is shown -----

  /** The length the engine computes for the data of a segment after the first `from` bytes. */
  function ShownLen(seg: Segment, from: u16): u16 {
    Minus16(DataLen(seg), from)
  }

  /** What is shown from there on lies in the packet exactly if the header is not shorter than 20 bytes
      and, with the bytes skipped, not longer than the packet. */
  lemma ShownInPacket(seg: Segment, from: u16)
    requires ShownLen(seg, from) > 0
    ensures 40 + from + ShownLen(seg, from) <= seg.len <==> 5 <= seg.doff && 4 * seg.doff + 20 + from <= seg.len
  {
  }

  /** The data of a segment: what follows the header and its options, after the bytes skipped. */
  function Payload(seg: Segment, from: u16): seq<byte>
    requires 5 <= seg.doff && 4 * seg.doff + 20 + from <= seg.len == 40 + |seg.body|
  {
    seg.body[4 * (seg.doff - 5) + from..]
  }

  /** But what is shown starts where the data of a segment without options does, so that it is the data,
      whatever that is, exactly if there are no options. */
  lemma OptionsShift(seg: Segment, from: u16, area: seq<byte>)
    requires 5 <= seg.doff && 4 * seg.doff + 20 + from < seg.len && seg.len - 40 <= |area|
    ensures ShownLen(seg, from) == seg.len - (4 * seg.doff + 20 + from)
    ensures seg.doff == 5 <==>
      forall body: seq<byte> :: |body| == seg.len - 40 ==> ShowsPayload(seg.(body := body), from, area)
  {
    if seg.doff == 5 {
      forall body: seq<byte> | |body| == seg.len - 40
        ensures ShowsPayload(seg.(body := body), from, area)
      {
        assert (body + area[|body|..])[from..from + ShownLen(seg, from)] == body[from..];
      }
    } else {
      var body: seq<byte> := seq(seg.len - 40, i => if i == from then 1 else 0);
      var shown := Shown(body + area[|body|..], from, ShownLen(seg, from));
      assert shown[0] == 1 && Payload(seg.(body := body), from)[0] == 0;
      assert !ShowsPayload(seg.(body := body), from, area);
    }
  }

  /** What is shown, with the body of the segment at the start of the application area, is the data. */
  predicate ShowsPayload(seg: Segment, from: u16, area: seq<byte>)
    requires 5 <= seg.doff && 4 * seg.doff + 20 + from <= seg.len == 40 + |seg.body|
  {
    |seg.body| <= |area| &&
    Shown(seg.body + area[|seg.body|..], from, ShownLen(seg, from)) == Payload(seg, from)
  }

  /** A segment of 40 bytes whose header claims 60: 65,496 bytes are acknowledged as new data, far more
      than the buffer holds. */
  lemma HeaderBeyond(c: Conn, slen: u16, seg: Segment, area: seq<byte>, calls: seq<AppCall>, tcpMss: u16)
    requires Room(c, area) && Fits(calls, area) && tcpMss <= |area| < 0xff00
    requires c.state == ESTABLISHED && !c.stopped && c.len == 0
    requires seg.len == 40 && seg.doff == 15 && seg.flags == ACK && seg.seqno == c.rcvNxt
    ensures var s := Arrive(c, slen, seg, area, calls, tcpMss);
      && s.c.rcvNxt == Plus(c.rcvNxt, 65496)
      && s.call.Some? && NEWDATA in s.call.value.flags && s.call.value.data == []
  {
  }

  /** A connection that can never send data. */
  predicate Starved(c: Conn) {
    c.mss == 0 && c.initialmss == 0 && c.state != SYN_SENT && (c.state == ESTABLISHED ==> c.len == 0)
  }

  /** A new connection is starved exactly if the SYN says 0, or says nothing and the slot was never
      given a maximum segment size. */
  lemma StarvedExactly(c: Conn, seg: Segment, iss: Quad, area: seq<byte>, tcpMss: u16)
    requires 44 <= |area| && tcpMss > 0 && c.mss <= c.initialmss
    ensures Starved(Accept(c, seg, iss, area, tcpMss)) <==>
      MssOption(seg.doff, area) == Some(0) || (MssOption(seg.doff, area) == None && c.initialmss == 0)
  {
    match MssOption(seg.doff, area)
    case None =>
    case Some(m) => assert Min(m, tcpMss) == 0 <==> m == 0;
  }

  predicate SendsNothing(s: Step) {
    Starved(s.c) && (s.out.Emit? ==> s.out.payload == [])
  }

  lemma CallSendsNothing(c: Conn, flags: set<Flag>, slen: u16, data: seq<byte>, area: seq<byte>, calls: seq<AppCall>)
    requires Room(c, area) && Fits(calls, area) && Starved(c) && c.len == 0
    ensures SendsNothing(CallAndSend(c, flags, slen, data, area, calls))
  {
  }

  /** Whatever the application submits, a tick or poll leaves it starved and sends no data. */
  lemma TimerStarved(c: Conn, slen: u16, area: seq<byte>, calls: seq<AppCall>)
    requires Room(c, area) && Fits(calls, area) && Starved(c)
    ensures SendsNothing(Timer(c, area, calls)) && SendsNothing(Poll(c, slen, area, calls))
  {
    if c.len == 0 {
      CallSendsNothing(c, {POLL}, 0, [], area, calls);
      CallSendsNothing(c, {POLL}, slen, [], area, calls);
    }
  }

  /** And so does a segment, whatever it carries. */
  lemma ArriveStarved(c: Conn, slen: u16, seg: Segment, area: seq<byte>, calls: seq<AppCall>, tcpMss: u16)
    requires Room(c, area) && Fits(calls, area) && tcpMss <= |area| && Starved(c)
    ensures SendsNothing(Arrive(c, slen, seg, area, calls, tcpMss))
  {
    if !seg.flags.rst && !OutOfOrder(c, seg) {
      var acked := Acks(c, seg);
      var c1 := if acked then TakeAck(c) else c;
      var n := DataLen(seg);
      if c1.state == SYN_RCVD && acked {
        var c2 := Enter(c1, ESTABLISHED).(len := 0);
        CallSendsNothing(if n > 0 then Received(c2, n) else c2, if n > 0 then {CONNECTED, NEWDATA} else {CONNECTED}, 0,
                         if n > 0 then Shown(area, 0, n) else [], area, calls);
      } else if c1.state == ESTABLISHED {
        EstablishedStarved(c1, acked, slen, seg, area, calls);
      }
    }
  }

  lemma EstablishedStarved(c: Conn, acked: bool, slen: u16, seg: Segment, area: seq<byte>, calls: seq<AppCall>)
    requires Room(c, area) && Fits(calls, area) && Starved(c) && c.state == ESTABLISHED
    ensures SendsNothing(InEstablished(c, acked, slen, seg, area, calls))
  {
    var n := Accepted(c, seg);
    if !(seg.flags.fin && !c.stopped) && (n > 0 || acked) {
      CallSendsNothing(Absorbed(c, seg), (if acked then {ACKDATA} else {}) + (if n > 0 then {NEWDATA} else {}), 0,
                       if n > 0 then Shown(area, DataFrom(seg), n) else [], area, calls);
    }
  }

  // ----- over whole runs -----

  /** The operation gives slot i to a new connection. */
  predicate Refills(e: Engine, op: Op, i: nat) {
    match op
    case Segm(seg, _, _) =>
      FindConn(e.conns, seg) == |e.conns| && seg.flags == SYN && seg.dport in e.ports && Slot(e.conns, |e.conns|) == i
    case Connect(_, _) => Slot(e.conns, |e.conns|) == i
    case _ => false
  }

  ghost predicate NeverRefilled(e: Engine, ops: seq<Op>, i: nat, host: Addr, tcpMss: u16)
    requires Runs(e, ops, host, tcpMss)
    decreases |ops|
  {
    ops == [] || (!Refills(e, ops[0], i) && NeverRefilled(Exec(e, ops[0], host, tcpMss).e, ops[1..], i, host, tcpMss))
  }

  /** The step the connection in slot i takes in an operation, if any. */
  ghost function StepAt(e: Engine, op: Op, i: nat, tcpMss: u16): Option<Step>
    requires i < |e.conns| && Applicable(e, op, tcpMss)
  {
    match op
    case Segm(seg, area, calls) =>
      if FindConn(e.conns, seg) == i then Some(Arrive(e.conns[i], e.slen, seg, area, calls, tcpMss)) else None
    case Tick(j, area, calls) => if j == i then Some(Timer(e.conns[i], area, calls)) else None
    case PollConn(j, area, calls) => if j == i then Some(Poll(e.conns[i], e.slen, area, calls)) else None
    case _ => None
  }

  /** In none of the operations the connection in slot i sends data. */
  ghost predicate Silence(e: Engine, ops: seq<Op>, i: nat, host: Addr, tcpMss: u16)
    requires Runs(e, ops, host, tcpMss)
    decreases |ops|
  {
    ops == [] ||
    (i < |e.conns|
     && (var s := StepAt(e, ops[0], i, tcpMss); s.Some? ==> SendsNothing(s.value))
     && Silence(Exec(e, ops[0], host, tcpMss).e, ops[1..], i, host, tcpMss))
  }

  lemma ExecStarved(e: Engine, op: Op, i: nat, host: Addr, tcpMss: u16)
    requires i < |e.conns| && Applicable(e, op, tcpMss) && Starved(e.conns[i]) && !Refills(e, op, i)
    ensures var s := StepAt(e, op, i, tcpMss); s.Some? ==> SendsNothing(s.value)
    ensures var e' := Exec(e, op, host, tcpMss).e; i < |e'.conns| && Starved(e'.conns[i])
  {
    assert op.Segm? || op.Tick? || op.PollConn? ==> Room(e.conns[i], op.area);
    match op
    case Segm(seg, area, calls) => ArriveStarved(e.conns[i], e.slen, seg, area, calls, tcpMss);
    case Tick(j, area, calls) =>
      if j == i {
        TimerStarved(e.conns[i], e.slen, area, calls);
      }
    case PollConn(j, area, calls) =>
      if j == i {
        TimerStarved(e.conns[i], e.slen, area, calls);
      }
    case Connect(_, _) =>
    case Listen(_) =>
    case Unlisten(_) =>
  }

  /** Over any run in which its slot is not given to another connection, a starved connection stays
      starved and never sends data. */
  lemma {:induction false} StarvedForGood(e: Engine, ops: seq<Op>, i: nat, host: Addr, tcpMss: u16)
    requires Runs(e, ops, host, tcpMss) && i < |e.conns| && Starved(e.conns[i]) &&
      NeverRefilled(e, ops, i, host, tcpMss)
    ensures Silence(e, ops, i, host, tcpMss)
    ensures var e' := After(e, ops, host, tcpMss); i < |e'.conns| && Starved(e'.conns[i])
    decreases |ops|
  {
    if ops != [] {
      ExecStarved(e, ops[0], i, host, tcpMss);
      StarvedForGood(Exec(e, ops[0], host, tcpMss).e, ops[1..], i, host, tcpMss);
    }
  }

  // ----- how a connection gets its maximum segment size -----

  /** The segment answers the SYN of connection c. */
  ghost predicate AnswersSyn(c: Conn, seg: Segment) {
    c.state == SYN_SENT && seg.flags == SYN_ACK && Acks(c, seg)
  }

  /** The option of a segment leaves the connection without a size, given what the slot had. */
  predicate GivesNone(c: Conn, seg: Segment, area: seq<byte>)
    requires 44 <= |area|
  {
    MssOption(seg.doff, area) == Some(0) || (MssOption(seg.doff, area) == None && c.initialmss == 0)
  }

  /** A connection without a size is starved, and the size in use never exceeds the one agreed on. */
  predicate Sized(c: Conn) {
    c.mss <= c.initialmss && (c.initialmss == 0 ==> Starved(c))
  }

  /** The size agreed on is the same, and the size in use does not exceed it. */
  predicate KeepsSize(c: Conn, d: Conn) {
    d.initialmss == c.initialmss && d.mss <= d.initialmss
  }

  lemma CallKeepsSize(c: Conn, flags: set<Flag>, slen: u16, data: seq<byte>, area: seq<byte>, calls: seq<AppCall>)
    requires Room(c, area) && Fits(calls, area) && c.mss <= c.initialmss
    ensures KeepsSize(c, CallAndSend(c, flags, slen, data, area, calls).c)
  {
  }

  lemma EstablishedKeepsSize(c: Conn, acked: bool, slen: u16, seg: Segment, area: seq<byte>, calls: seq<AppCall>)
    requires Room(c, area) && Fits(calls, area) && c.mss <= c.initialmss
    ensures KeepsSize(c, InEstablished(c, acked, slen, seg, area, calls).c)
  {
    var n := Accepted(c, seg);
    if !(seg.flags.fin && !c.stopped) && (n > 0 || acked) {
      CallKeepsSize(Absorbed(c, seg), (if acked then {ACKDATA} else {}) + (if n > 0 then {NEWDATA} else {}), 0,
                    if n > 0 then Shown(area, DataFrom(seg), n) else [], area, calls);
    }
  }

  /** In every state but SYN_SENT a segment leaves the size alone. */
  lemma StateKeepsSize(c: Conn, acked: bool, slen: u16, seg: Segment, area: seq<byte>, calls: seq<AppCall>, tcpMss: u16)
    requires Room(c, area) && Fits(calls, area) && tcpMss <= |area| && c.mss <= c.initialmss
    requires !(c.state == SYN_SENT && acked && seg.flags == SYN_ACK)
    ensures KeepsSize(c, InState(c, acked, slen, seg, area, calls, tcpMss).c)
  {
    var n := DataLen(seg);
    if c.state == SYN_RCVD && acked {
      var c1 := Enter(c, ESTABLISHED).(len := 0);
      CallKeepsSize(if n > 0 then Received(c1, n) else c1, if n > 0 then {CONNECTED, NEWDATA} else {CONNECTED}, 0,
                    if n > 0 then Shown(area, 0, n) else [], area, calls);
    } else if c.state == ESTABLISHED {
      EstablishedKeepsSize(c, acked, slen, seg, area, calls);
    }
  }

  /** The answer to our SYN decides the size. */
  lemma AnswerSizes(c: Conn, slen: u16, seg: Segment, area: seq<byte>, calls: seq<AppCall>, tcpMss: u16)
    requires Room(c, area) && Fits(calls, area) && 0 < tcpMss <= |area| && c.mss <= c.initialmss
    requires c.state == SYN_SENT && seg.flags == SYN_ACK
    ensures var s := InState(c, true, slen, seg, area, calls, tcpMss);
      Sized(s.c) && (s.c.initialmss == 0 <==> GivesNone(c, seg, area))
  {
    var c1 := Synchronized(c, seg, area, tcpMss);
    CallKeepsSize(c1, {CONNECTED, NEWDATA}, 0, [], area, calls);
    if c1.initialmss == 0 {
      CallSendsNothing(c1, {CONNECTED, NEWDATA}, 0, [], area, calls);
    }
  }

  /** A segment takes the size away exactly if it answers our SYN and announces 0. */
  lemma ArriveSizes(c: Conn, slen: u16, seg: Segment, area: seq<byte>, calls: seq<AppCall>, tcpMss: u16)
    requires Room(c, area) && Fits(calls, area) && 0 < tcpMss <= |area| && Sized(c)
    ensures var s := Arrive(c, slen, seg, area, calls, tcpMss);
      && Sized(s.c)
      && (s.c.initialmss == 0 <==> if AnswersSyn(c, seg) then GivesNone(c, seg, area) else c.initialmss == 0)
  {
    if c.initialmss == 0 {
      ArriveStarved(c, slen, seg, area, calls, tcpMss);
    }
    if !seg.flags.rst && !OutOfOrder(c, seg) {
      var acked := Acks(c, seg);
      var c1 := if acked then TakeAck(c) else c;
      if AnswersSyn(c, seg) {
        AnswerSizes(c1, slen, seg, area, calls, tcpMss);
      } else {
        StateKeepsSize(c1, acked, slen, seg, area, calls, tcpMss);
      }
    }
  }

  lemma TimerSizes(c: Conn, slen: u16, area: seq<byte>, calls: seq<AppCall>)
    requires Room(c, area) && Fits(calls, area) && Sized(c)
    ensures var s := Timer(c, area, calls); Sized(s.c) && s.c.initialmss == c.initialmss
    ensures var s := Poll(c, slen, area, calls); Sized(s.c) && s.c.initialmss == c.initialmss
  {
    if c.initialmss == 0 {
      TimerStarved(c, slen, area, calls);
    }
    if c.len == 0 {
      CallKeepsSize(c, {POLL}, 0, [], area, calls);
      CallKeepsSize(c, {POLL}, slen, [], area, calls);
    }
  }

  /** The operation leaves the connection in slot i without a maximum segment size. */
  ghost predicate LeavesNone(e: Engine, op: Op, i: nat, tcpMss: u16)
    requires i < |e.conns| && Applicable(e, op, tcpMss)
  {
    match op
    case Segm(seg, area, _) =>
      if Refills(e, op, i) || (FindConn(e.conns, seg) == i && AnswersSyn(e.conns[i], seg)) then
        GivesNone(e.conns[i], seg, area)
      else e.conns[i].initialmss == 0
    case _ => e.conns[i].initialmss == 0 && !Refills(e, op, i)
  }

  /** What each operation does to the sizes. */
  lemma ExecSizes(e: Engine, op: Op, i: nat, host: Addr, tcpMss: u16)
    requires i < |e.conns| && Applicable(e, op, tcpMss) && tcpMss > 0 && Sized(e.conns[i])
    ensures var e' := Exec(e, op, host, tcpMss).e;
      && |e'.conns| == |e.conns| && Sized(e'.conns[i])
      && (Starved(e'.conns[i]) <==> LeavesNone(e, op, i, tcpMss))
  {
    var c := e.conns[i];
    assert op.Segm? || op.Tick? || op.PollConn? ==> Room(c, op.area);
    match op
    case Segm(seg, area, calls) => ArriveSizes(c, e.slen, seg, area, calls, tcpMss);
    case Tick(j, area, calls) =>
      if j == i {
        TimerSizes(c, e.slen, area, calls);
      }
    case PollConn(j, area, calls) =>
      if j == i {
        TimerSizes(c, e.slen, area, calls);
      }
    case Connect(_, _) =>
    case Listen(_) =>
    case Unlisten(_) =>
  }

  /** In every reachable state a connection is starved exactly if it has no maximum segment size. */
  lemma {:induction false} RunSizes(e: Engine, ops: seq<Op>, host: Addr, tcpMss: u16)
    requires Runs(e, ops, host, tcpMss) && tcpMss > 0 && forall c <- e.conns :: Sized(c)
    ensures forall c <- After(e, ops, host, tcpMss).conns :: Sized(c) && (Starved(c) <==> c.initialmss == 0)
    decreases |ops|
  {
    if ops != [] {
      var e' := Exec(e, ops[0], host, tcpMss).e;
      forall i | 0 <= i < |e.conns|
        ensures |e'.conns| == |e.conns| && Sized(e'.conns[i])
      {
        ExecSizes(e, ops[0], i, host, tcpMss);
      }
      RunSizes(e', ops[1..], host, tcpMss);
    }
  }

  /** The same from the start of the engine: every reachable connection without a size is starved. */
  lemma ReachableSizes(n: nat, ports: nat, iss: Quad, ops: seq<Op>, host: Addr, tcpMss: u16)
    requires tcpMss > 0 && Runs(Init(n, ports, iss), ops, host, tcpMss)
    ensures forall c <- After(Init(n, ports, iss), ops, host, tcpMss).conns :: Starved(c) <==> c.initialmss == 0
  {
    RunSizes(Init(n, ports, iss), ops, host, tcpMss);
  }

  // ----- a connection stopped when it is over -----

  /** The stopped bit is set, so that the connection is taken neither for CLOSED nor for TIME_WAIT. */
  predicate Wedged(c: Conn) {
    c.stopped && c.len == 0 && c.state in {CLOSED, TIME_WAIT}
  }

  /** How that comes about: with nothing outstanding a RST arrives, and the application leaves the
      connection stopped in the callback. */
  lemma StopOnReset(c: Conn, slen: u16, seg: Segment, area: seq<byte>, calls: seq<AppCall>, tcpMss: u16)
    requires Room(c, area) && Fits(calls, area) && tcpMss <= |area| && c.len == 0 && seg.flags.rst
    ensures Wedged(Arrive(c, slen, seg, area, calls, tcpMss).c) <==> LeftStopped(false, calls)
    ensures Is(Arrive(c, slen, seg, area, calls, tcpMss).c, CLOSED) <==> !LeftStopped(false, calls)
  {
    RunStops(AppView({ABORT}, slen, false, area), calls);
  }

  /** A RST for the connection in slot i, on which the application does not stop it again. */
  predicate Frees(e: Engine, op: Op, i: nat) {
    op.Segm? && FindConn(e.conns, op.seg) == i && op.seg.flags.rst && !LeftStopped(false, op.calls)
  }

  /** No new connection takes the slot, and nothing but such a RST frees it. */
  lemma WedgedStays(e: Engine, op: Op, i: nat, host: Addr, tcpMss: u16)
    requires i < |e.conns| && Applicable(e, op, tcpMss) && Wedged(e.conns[i])
    ensures !Refills(e, op, i)
    ensures var e' := Exec(e, op, host, tcpMss).e;
      |e'.conns| == |e.conns| && (Wedged(e'.conns[i]) <==> !Frees(e, op, i))
  {
    SlotIsBest(e.conns, |e.conns|);
    match op
    case Segm(seg, area, calls) =>
      if FindConn(e.conns, seg) == i && seg.flags.rst {
        StopOnReset(e.conns[i], e.slen, seg, area, calls, tcpMss);
      }
    case Tick(_, _, _) =>
    case PollConn(_, _, _) =>
    case Connect(_, _) =>
    case Listen(_) =>
    case Unlisten(_) =>
  }

  ghost predicate NeverFreed(e: Engine, ops: seq<Op>, i: nat, host: Addr, tcpMss: u16)
    requires Runs(e, ops, host, tcpMss)
    decreases |ops|
  {
    ops == [] || (!Frees(e, ops[0], i) && NeverFreed(Exec(e, ops[0], host, tcpMss).e, ops[1..], i, host, tcpMss))
  }

  /** Over any run without such a RST the slot is lost. */
  lemma {:induction false} WedgedForGood(e: Engine, ops: seq<Op>, i: nat, host: Addr, tcpMss: u16)
    requires Runs(e, ops, host, tcpMss) && i < |e.conns| && Wedged(e.conns[i]) && NeverFreed(e, ops, i, host, tcpMss)
    ensures NeverRefilled(e, ops, i, host, tcpMss)
    ensures var e' := After(e, ops, host, tcpMss); i < |e'.conns| && Wedged(e'.conns[i])
    decreases |ops|
  {
    if ops != [] {
      WedgedStays(e, ops[0], i, host, tcpMss);
      WedgedForGood(Exec(e, ops[0], host, tcpMss).e, ops[1..], i, host, tcpMss);
    }
  }
}
